/** Small shared vocabulary: optional values and unsigned bytes. */
module Common {

  /** A value that may be absent; stands for a possibly-null node pointer. */
  datatype Option<+T> = None | Some(value: T)

  /** An unsigned byte, the value of `(unsigned char)c` for a character `c`. */
  type Byte = b: int | 0 <= b < 256

  /** A byte string: the contents of a `std::string`. */
  type Bytes = seq<Byte>

  /** A linear search: the first index whose element satisfies `f`, or the
      length when none does. */
  function FirstWhere<T>(s: seq<T>, f: T -> bool): (i: nat)
    ensures i <= |s|
    ensures i < |s| ==> f(s[i])
    ensures forall j | 0 <= j < i :: !f(s[j])
  {
    if s == [] then 0 else if f(s[0]) then 0 else 1 + FirstWhere(s[1..], f)
  }
}

/** Extensional facts about finite maps used by the key-value views. */
module MapFacts {

  lemma UpdateUnionRight<K, V>(m: map<K, V>, n: map<K, V>, k: K, v: V)
    ensures (m + n)[k := v] == m + n[k := v]
  {
  }

  lemma UpdateUnionLeft<K, V>(m: map<K, V>, n: map<K, V>, k: K, v: V)
    requires k !in n
    ensures m[k := v] + n == (m + n)[k := v]
  {
  }

  lemma UpdateCommute<K, V>(m: map<K, V>, k1: K, v1: V, k2: K, v2: V)
    requires k1 != k2
    ensures m[k1 := v1][k2 := v2] == m[k2 := v2][k1 := v1]
  {
  }

  lemma RemoveUnionLeft<K, V>(m: map<K, V>, n: map<K, V>, k: K)
    requires k !in n
    ensures (m - {k}) + n == (m + n) - {k}
  {
  }

  lemma RemoveUnionRight<K, V>(m: map<K, V>, n: map<K, V>, k: K)
    requires k !in m
    ensures m + (n - {k}) == (m + n) - {k}
  {
  }

  lemma RemoveUpdateCommute<K, V>(m: map<K, V>, k1: K, v: V, k2: K)
    requires k1 != k2
    ensures m[k1 := v] - {k2} == (m - {k2})[k1 := v]
  {
  }

  lemma UpdateRemoveSame<K, V>(m: map<K, V>, k: K, v: V)
    requires k !in m
    ensures m[k := v] - {k} == m
  {
  }

  lemma ReinsertUnion<K, V>(m: map<K, V>, n: map<K, V>, k: K)
    requires k in n && k !in m
    ensures (m + (n - {k}))[k := n[k]] == m + n
  {
  }

  lemma DisjointUnionUpdate<K, V>(m: map<K, V>, n: map<K, V>, k: K, v: V)
    requires m.Keys !! n.Keys
    requires k !in m && k !in n
    ensures n + (map[k := v] + m) == (m + n)[k := v]
  {
  }

  /** Two disjoint maps and one fresh key hold as many entries as they have together. */
  lemma DisjointUpdateCard<K, V>(m: map<K, V>, n: map<K, V>, k: K, v: V)
    requires m.Keys !! n.Keys
    requires k !in m && k !in n
    ensures |(m + n)[k := v]| == |m| + |n| + 1
  {
    var u := (m + n)[k := v];
    assert u.Keys == (m.Keys + n.Keys) + {k};
    assert |m.Keys + n.Keys| == |m.Keys| + |n.Keys|;
  }
}

/** Arrays of indices in which -1 marks an unset entry (`vector<int>(n, -1)`),
    and the number of entries set so far. */
module Marks {
  /** An array of n unset entries: `vector<int>(n, -1)`. */
  function Unset(n: nat): (r: seq<int>)
    ensures |r| == n && forall i | 0 <= i < n :: r[i] == -1
  {
    if n == 0 then [] else Unset(n - 1) + [-1]
  }

  /** The number of set entries of an array. */
  function SetCount(s: seq<int>): nat
  {
    if s == [] then 0 else SetCount(s[..|s| - 1]) + if s[|s| - 1] != -1 then 1 else 0
  }

  lemma {:induction false} SetCountUpdate(s: seq<int>, i: int, x: int)
    requires 0 <= i < |s| && s[i] == -1 && x != -1
    ensures SetCount(s[i := x]) == SetCount(s) + 1
  {
    if i < |s| - 1 {
      assert s[i := x][..|s| - 1] == s[..|s| - 1][i := x];
      SetCountUpdate(s[..|s| - 1], i, x);
    } else {
      assert s[i := x][..|s| - 1] == s[..|s| - 1];
    }
  }

  lemma {:induction false} SetCountBound(s: seq<int>)
    ensures SetCount(s) <= |s|
    ensures SetCount(s) == |s| ==> forall i | 0 <= i < |s| :: s[i] != -1
  {
    if s != [] {
      SetCountBound(s[..|s| - 1]);
      assert forall i | 0 <= i < |s| - 1 :: s[i] == s[..|s| - 1][i];
    }
  }

  lemma {:induction false} SetCountSame(s: seq<int>, t: seq<int>)
    requires |s| == |t| && forall i | 0 <= i < |s| :: (s[i] != -1 <==> t[i] != -1)
    ensures SetCount(s) == SetCount(t)
  {
    if s != [] {
      SetCountSame(s[..|s| - 1], t[..|t| - 1]);
    }
  }

  lemma {:induction false} SetCountNone(s: seq<int>)
    requires forall i | 0 <= i < |s| :: s[i] == -1
    ensures SetCount(s) == 0
  {
    if s != [] {
      SetCountNone(s[..|s| - 1]);
    }
  }
}
