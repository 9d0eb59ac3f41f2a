/** Huffman tree construction over a fixed node arena
    (Q2_HuffmanFixedArray.cpp): one leaf per distinct input byte, then
    repeated merging of the two lightest active nodes under a new parent
    until a single active node, the root, remains. The arena is a sequence
    of slots; `nodeCount` is its length. */
module Huffman {
  import opened Common

  const MaxSyms := 256
  const MaxNodes := MaxSyms * 2

  /** One arena slot; `left` and `right` are arena indices, -1 for none. */
  datatype HNode = HNode(ch: Byte, freq: int, left: int, right: int, active: bool)

  predicate IsLeaf(n: HNode)
  {
    n.left == -1 && n.right == -1
  }

  /** How often byte `c` occurs in `s`. */
  function Occurrences(s: seq<Byte>, c: int): nat
  {
    if s == [] then 0 else (if s[0] == c then 1 else 0) + Occurrences(s[1..], c)
  }

  /** How many bytes of `s` are at least `c`. */
  function CountFrom(s: seq<Byte>, c: int): nat
  {
    if s == [] then 0 else (if s[0] >= c then 1 else 0) + CountFrom(s[1..], c)
  }

  function SumFreq(a: seq<HNode>): int
  {
    if a == [] then 0 else a[0].freq + SumFreq(a[1..])
  }

  /** The leaves `buildInitial` allocates for the bytes `c..255`: one active
      leaf per byte that occurs, in ascending byte order, weighted by its
      occurrence count. */
  function LeavesFrom(s: seq<Byte>, c: int): (r: seq<HNode>)
    requires 0 <= c <= MaxSyms
    ensures |r| <= MaxSyms - c
    ensures forall k | 0 <= k < |r| :: r[k].active && IsLeaf(r[k]) && c <= r[k].ch
    ensures forall k | 0 <= k < |r| :: r[k].freq == Occurrences(s, r[k].ch) > 0
    ensures forall j, k | 0 <= j < k < |r| :: r[j].ch < r[k].ch
    decreases MaxSyms - c
  {
    if c == MaxSyms then []
    else
      var rest := LeavesFrom(s, c + 1);
      if Occurrences(s, c) > 0 then [HNode(c, Occurrences(s, c), -1, -1, true)] + rest else rest
  }

  /** The arena `buildHuffmanTree` starts from: 1..256 active leaves with
      strictly ascending bytes. */
  predicate Initial(a: seq<HNode>)
  {
    && 1 <= |a| <= MaxSyms
    && (forall k | 0 <= k < |a| :: a[k].active && IsLeaf(a[k]))
    && (forall j, k | 0 <= j < k < |a| :: a[j].ch < a[k].ch)
  }

  /** `buildInitial`: the leaves of the bytes present in `s`, or a single
      dummy leaf for byte 0 with weight 1 when `s` is empty. */
  function BuildInitial(s: seq<Byte>): (a: seq<HNode>)
    ensures Initial(a)
  {
    var leaves := LeavesFrom(s, 0);
    if leaves == [] then [HNode(0, 1, -1, -1, true)] else leaves
  }

  /** A byte at some position occurs. */
  lemma {:induction false} OccursAt(s: seq<Byte>, i: int)
    requires 0 <= i < |s|
    ensures Occurrences(s, s[i]) > 0
  {
    if i > 0 {
      OccursAt(s[1..], i - 1);
    }
  }

  /** A byte that occurs sits at some position. */
  lemma {:induction false} OccursSomewhere(s: seq<Byte>, c: int)
    requires Occurrences(s, c) > 0
    ensures exists i | 0 <= i < |s| :: s[i] == c
  {
    if s[0] != c {
      OccursSomewhere(s[1..], c);
      var i :| 0 <= i < |s[1..]| && s[1..][i] == c;
      assert s[i + 1] == c;
    }
  }

  lemma {:induction false} CountFromStep(s: seq<Byte>, c: int)
    ensures CountFrom(s, c) == Occurrences(s, c) + CountFrom(s, c + 1)
  {
    if s != [] {
      CountFromStep(s[1..], c);
    }
  }

  lemma {:induction false} CountFromBounds(s: seq<Byte>)
    ensures CountFrom(s, 0) == |s| && CountFrom(s, MaxSyms) == 0
  {
    if s != [] {
      CountFromBounds(s[1..]);
    }
  }

  lemma SumFreqPrepend(x: HNode, a: seq<HNode>)
    ensures SumFreq([x] + a) == x.freq + SumFreq(a)
  {
    assert ([x] + a)[1..] == a;
  }

  /** The leaves for bytes `c..255` weigh as much as the bytes of `s` that
      are at least `c`. */
  lemma {:induction false} LeavesFromWeight(s: seq<Byte>, c: int)
    requires 0 <= c <= MaxSyms
    ensures SumFreq(LeavesFrom(s, c)) == CountFrom(s, c)
    decreases MaxSyms - c
  {
    if c == MaxSyms {
      CountFromBounds(s);
    } else {
      LeavesFromWeight(s, c + 1);
      CountFromStep(s, c);
      if Occurrences(s, c) > 0 {
        SumFreqPrepend(HNode(c, Occurrences(s, c), -1, -1, true), LeavesFrom(s, c + 1));
      }
    }
  }

  /** Every byte from `c` on that occurs in `s` has its leaf. */
  lemma {:induction false} LeavesFromCover(s: seq<Byte>, c: int, d: int)
    requires 0 <= c <= d < MaxSyms && Occurrences(s, d) > 0
    ensures exists k | 0 <= k < |LeavesFrom(s, c)| :: LeavesFrom(s, c)[k].ch == d
    decreases MaxSyms - c
  {
    var r := LeavesFrom(s, c);
    if c == d {
      assert r[0].ch == d;
    } else {
      LeavesFromCover(s, c + 1, d);
      var rest := LeavesFrom(s, c + 1);
      var k :| 0 <= k < |rest| && rest[k].ch == d;
      if Occurrences(s, c) > 0 {
        assert r[k + 1] == rest[k];
      } else {
        assert r[k] == rest[k];
      }
    }
  }

  lemma {:induction false} NoLeaves(s: seq<Byte>, c: int)
    requires s == [] && 0 <= c <= MaxSyms
    ensures LeavesFrom(s, c) == []
    decreases MaxSyms - c
  {
    if c < MaxSyms {
      NoLeaves(s, c + 1);
    }
  }

  /** `buildInitial` allocates the single dummy leaf for the empty input. */
  lemma BuildInitialEmpty(s: seq<Byte>)
    requires |s| == 0
    ensures BuildInitial(s) == [HNode(0, 1, -1, -1, true)]
    ensures SumFreq(BuildInitial(s)) == 1
  {
    NoLeaves(s, 0);
    assert SumFreq([HNode(0, 1, -1, -1, true)]) == 1;
  }

  /** For a non-empty input `buildInitial` allocates one leaf per distinct
      byte, weighted by its occurrence count, and the leaves weigh the input
      length. */
  lemma BuildInitialPresent(s: seq<Byte>)
    requires |s| > 0
    ensures forall k | 0 <= k < |BuildInitial(s)| ::
              BuildInitial(s)[k].freq == Occurrences(s, BuildInitial(s)[k].ch) > 0
    ensures forall c: Byte | Occurrences(s, c) > 0 ::
              exists k | 0 <= k < |BuildInitial(s)| :: BuildInitial(s)[k].ch == c
    ensures SumFreq(BuildInitial(s)) == |s|
  {
    LeavesFromWeight(s, 0);
    CountFromBounds(s);
    assert LeavesFrom(s, 0) != [];
    forall c: Byte | Occurrences(s, c) > 0
      ensures exists k | 0 <= k < |BuildInitial(s)| :: BuildInitial(s)[k].ch == c
    {
      LeavesFromCover(s, 0, c);
      assert BuildInitial(s) == LeavesFrom(s, 0);
    }
  }

  // ---------------------------------------------------------------------
  // Arena shape

  /** Every slot is a leaf or has both children at smaller indices. */
  predicate Shaped(a: seq<HNode>)
  {
    forall k | 0 <= k < |a| :: IsLeaf(a[k]) || (0 <= a[k].left < k && 0 <= a[k].right < k)
  }

  /** The leaf slots below slot `k`. */
  function LeafIdx(a: seq<HNode>, k: int): (r: set<int>)
    requires Shaped(a) && 0 <= k < |a|
    ensures forall i | i in r :: 0 <= i <= k && IsLeaf(a[i])
    decreases k
  {
    if IsLeaf(a[k]) then {k} else LeafIdx(a, a[k].left) + LeafIdx(a, a[k].right)
  }

  /** The arena after some merges of `L` initial leaves: the first `L`
      slots are the leaves, every later slot is a parent whose weight is the
      sum of its children's and whose two subtrees share no leaf. */
  ghost predicate Wf(a: seq<HNode>, L: int)
  {
    && Shaped(a)
    && 1 <= L <= |a|
    && (forall k | 0 <= k < L :: IsLeaf(a[k]))
    && (forall k | L <= k < |a| :: !IsLeaf(a[k]))
    && (forall k | L <= k < |a| :: a[k].freq == a[a[k].left].freq + a[a[k].right].freq)
    && (forall k | L <= k < |a| :: LeafIdx(a, a[k].left) !! LeafIdx(a, a[k].right))
  }

  /** Under every parent the two subtrees share no leaf. */
  ghost predicate Disjoint(a: seq<HNode>)
    requires Shaped(a)
  {
    forall k | 0 <= k < |a| && !IsLeaf(a[k]) :: LeafIdx(a, a[k].left) !! LeafIdx(a, a[k].right)
  }

  lemma WfDisjoint(a: seq<HNode>, L: int)
    requires Wf(a, L)
    ensures Disjoint(a)
  {
  }

  /** The active slots' subtrees split the `L` leaves between them. */
  ghost predicate Partition(a: seq<HNode>, L: int)
    requires Shaped(a)
  {
    && (forall i, j | 0 <= i < j < |a| && a[i].active && a[j].active :: LeafIdx(a, i) !! LeafIdx(a, j))
    && (forall k | 0 <= k < L :: Covered(a, k))
  }

  /** Some active slot has leaf `k` below it. */
  ghost predicate Covered(a: seq<HNode>, k: int)
    requires Shaped(a)
  {
    exists i | 0 <= i < |a| && a[i].active :: k in LeafIdx(a, i)
  }

  /** Slots whose child links agree have the same leaves below them. */
  lemma {:induction false} LeafIdxFrame(a: seq<HNode>, b: seq<HNode>, k: int)
    requires Shaped(a) && Shaped(b) && |a| <= |b|
    requires forall i | 0 <= i < |a| :: a[i].left == b[i].left && a[i].right == b[i].right
    requires 0 <= k < |a|
    ensures LeafIdx(a, k) == LeafIdx(b, k)
    decreases k
  {
    if !IsLeaf(a[k]) {
      LeafIdxFrame(a, b, a[k].left);
      LeafIdxFrame(a, b, a[k].right);
    }
  }

  /** Below any slot lie only initial leaves. */
  lemma LeafIdxBelow(a: seq<HNode>, L: int, k: int)
    requires Wf(a, L) && 0 <= k < |a|
    ensures forall i | i in LeafIdx(a, k) :: 0 <= i < L
  {
  }

  // ---------------------------------------------------------------------
  // Active slots

  function ActiveCount(a: seq<HNode>): nat
  {
    if a == [] then 0 else (if a[0].active then 1 else 0) + ActiveCount(a[1..])
  }

  /** The total weight of the active slots. */
  function ActiveFreq(a: seq<HNode>): int
  {
    if a == [] then 0 else (if a[0].active then a[0].freq else 0) + ActiveFreq(a[1..])
  }

  lemma {:induction false} AllActive(a: seq<HNode>)
    requires forall k | 0 <= k < |a| :: a[k].active
    ensures ActiveCount(a) == |a| && ActiveFreq(a) == SumFreq(a)
  {
    if a != [] {
      AllActive(a[1..]);
    }
  }

  lemma {:induction false} Deactivate(a: seq<HNode>, i: int)
    requires 0 <= i < |a| && a[i].active
    ensures ActiveCount(a[i := a[i].(active := false)]) == ActiveCount(a) - 1
    ensures ActiveFreq(a[i := a[i].(active := false)]) == ActiveFreq(a) - a[i].freq
  {
    var b := a[i := a[i].(active := false)];
    if i > 0 {
      Deactivate(a[1..], i - 1);
      assert b[1..] == a[1..][i - 1 := a[i].(active := false)];
    } else {
      assert b[1..] == a[1..];
    }
  }

  lemma {:induction false} AppendActive(a: seq<HNode>, x: HNode)
    ensures ActiveCount(a + [x]) == ActiveCount(a) + if x.active then 1 else 0
    ensures ActiveFreq(a + [x]) == ActiveFreq(a) + if x.active then x.freq else 0
  {
    if a == [] {
      assert ([x])[1..] == [];
    } else {
      AppendActive(a[1..], x);
      assert (a + [x])[1..] == a[1..] + [x];
    }
  }

  /** Two distinct active slots make at least two active slots. */
  lemma {:induction false} TwoActive(a: seq<HNode>, i: int, j: int)
    requires 0 <= i < |a| && 0 <= j < |a| && i != j && a[i].active && a[j].active
    ensures ActiveCount(a) >= 2
  {
    if i > 0 && j > 0 {
      TwoActive(a[1..], i - 1, j - 1);
    } else {
      var o := if i == 0 then j else i;
      OneActive(a[1..], o - 1);
    }
  }

  lemma {:induction false} OneActive(a: seq<HNode>, i: int)
    requires 0 <= i < |a| && a[i].active
    ensures ActiveCount(a) >= 1
  {
    if i > 0 {
      OneActive(a[1..], i - 1);
    }
  }

  /** With `r` the only active slot, the active count is one and the
      active weight is `r`'s. */
  lemma {:induction false} SoleActive(a: seq<HNode>, r: int)
    requires 0 <= r < |a| && a[r].active
    requires forall j | 0 <= j < |a| && a[j].active :: j == r
    ensures ActiveCount(a) == 1 && ActiveFreq(a) == a[r].freq
  {
    if r > 0 {
      SoleActive(a[1..], r - 1);
    } else {
      NoneActive(a[1..]);
    }
  }

  lemma {:induction false} NoneActive(a: seq<HNode>)
    requires forall j | 0 <= j < |a| :: !a[j].active
    ensures ActiveCount(a) == 0 && ActiveFreq(a) == 0
  {
    if a != [] {
      NoneActive(a[1..]);
    }
  }

  /** With no active slot other than `m`, at most one slot is active. */
  lemma {:induction false} AtMostOneActive(a: seq<HNode>, m: int)
    requires forall j | 0 <= j < |a| && a[j].active :: j == m
    ensures ActiveCount(a) <= 1
  {
    if a != [] {
      if a[0].active {
        NoneActive(a[1..]);
      } else {
        AtMostOneActive(a[1..], m - 1);
      }
    }
  }

  // ---------------------------------------------------------------------
  // The merge loop

  /** Slot `i` precedes slot `j` in the merge order: it is lighter, or
      equally heavy at a lower index. */
  predicate Lighter(a: seq<HNode>, i: int, j: int)
    requires 0 <= i < |a| && 0 <= j < |a|
  {
    a[i].freq < a[j].freq || (a[i].freq == a[j].freq && i < j)
  }

  /** One merge step: `min1` and `min2` are deactivated and a new active
      parent holding them, weighted by their sum, is allocated after the
      last slot. */
  function Merge(a: seq<HNode>, min1: int, min2: int): (r: seq<HNode>)
    requires 0 <= min1 < |a| && 0 <= min2 < |a| && min1 != min2
    ensures |r| == |a| + 1 && !r[min1].active && !r[min2].active && r[|a|].active
  {
    a[min1 := a[min1].(active := false)][min2 := a[min2].(active := false)]
      + [HNode(0, a[min1].freq + a[min2].freq, min1, min2, true)]
  }

  /** A merge keeps every old slot's links, byte and weight, and the new
      parent has exactly the leaves of its two children below it. */
  lemma MergeFrame(a: seq<HNode>, min1: int, min2: int)
    requires Shaped(a) && 0 <= min1 < |a| && 0 <= min2 < |a| && min1 != min2
    ensures Shaped(Merge(a, min1, min2))
    ensures forall i | 0 <= i < |a| ::
              var r := Merge(a, min1, min2);
              r[i].left == a[i].left && r[i].right == a[i].right && r[i].ch == a[i].ch && r[i].freq == a[i].freq
              && r[i].active == (a[i].active && i != min1 && i != min2)
    ensures forall k | 0 <= k < |a| :: LeafIdx(Merge(a, min1, min2), k) == LeafIdx(a, k)
    ensures LeafIdx(Merge(a, min1, min2), |a|) == LeafIdx(a, min1) + LeafIdx(a, min2)
  {
    var r := Merge(a, min1, min2);
    assert forall i | 0 <= i < |a| :: r[i].left == a[i].left && r[i].right == a[i].right;
    assert Shaped(r);
    forall k | 0 <= k < |a|
      ensures LeafIdx(r, k) == LeafIdx(a, k)
    {
      LeafIdxFrame(a, r, k);
    }
  }

  /** A merge drops the active count by exactly one and keeps the active
      weight. */
  lemma MergeCounts(a: seq<HNode>, min1: int, min2: int)
    requires 0 <= min1 < |a| && 0 <= min2 < |a| && min1 != min2
    requires a[min1].active && a[min2].active
    ensures ActiveCount(Merge(a, min1, min2)) == ActiveCount(a) - 1
    ensures ActiveFreq(Merge(a, min1, min2)) == ActiveFreq(a)
  {
    var b := a[min1 := a[min1].(active := false)];
    Deactivate(a, min1);
    Deactivate(b, min2);
    AppendActive(b[min2 := b[min2].(active := false)], HNode(0, a[min1].freq + a[min2].freq, min1, min2, true));
  }

  lemma PartitionPair(a: seq<HNode>, L: int, i: int, j: int)
    requires Shaped(a) && Partition(a, L)
    requires 0 <= i < |a| && 0 <= j < |a| && i != j && a[i].active && a[j].active
    ensures LeafIdx(a, i) !! LeafIdx(a, j)
  {
    if i > j {
      assert LeafIdx(a, j) !! LeafIdx(a, i);
    }
  }

  /** Merging two active slots keeps the arena well formed. */
  lemma MergeWf(a: seq<HNode>, L: int, min1: int, min2: int)
    requires Wf(a, L) && Partition(a, L)
    requires 0 <= min1 < |a| && 0 <= min2 < |a| && min1 != min2
    requires a[min1].active && a[min2].active
    ensures Wf(Merge(a, min1, min2), L)
  {
    MergeFrame(a, min1, min2);
    PartitionPair(a, L, min1, min2);
  }

  /** Merging two active slots keeps the leaves split among the active
      slots: the new parent takes over its children's leaves. */
  lemma MergePartition(a: seq<HNode>, L: int, min1: int, min2: int)
    requires Wf(a, L) && Partition(a, L)
    requires 0 <= min1 < |a| && 0 <= min2 < |a| && min1 != min2
    requires a[min1].active && a[min2].active
    ensures Shaped(Merge(a, min1, min2)) && Partition(Merge(a, min1, min2), L)
  {
    MergeFrame(a, min1, min2);
    var r := Merge(a, min1, min2);
    var n := |a|;
    forall i, j | 0 <= i < j < |r| && r[i].active && r[j].active
      ensures LeafIdx(r, i) !! LeafIdx(r, j)
    {
      if j == n {
        PartitionPair(a, L, i, min1);
        PartitionPair(a, L, i, min2);
      } else {
        PartitionPair(a, L, i, j);
      }
    }
    forall k | 0 <= k < L
      ensures Covered(r, k)
    {
      assert Covered(a, k);
      var i :| 0 <= i < n && a[i].active && k in LeafIdx(a, i);
      if i == min1 || i == min2 {
        assert r[n].active && k in LeafIdx(r, n);
      } else {
        assert r[i].active && k in LeafIdx(r, i);
      }
    }
  }

  /** The initial leaves form a well-formed arena, each its own active
      slot. */
  lemma InitialWf(a: seq<HNode>)
    requires Initial(a)
    ensures Wf(a, |a|) && Partition(a, |a|)
    ensures forall k | 0 <= k < |a| :: LeafIdx(a, k) == {k}
    ensures ActiveCount(a) == |a| && ActiveFreq(a) == SumFreq(a)
  {
    AllActive(a);
    forall k | 0 <= k < |a|
      ensures Covered(a, k)
    {
      assert k in LeafIdx(a, k);
    }
  }

  /** The counting loop of `buildHuffmanTree`. */
  method CountActive(a: seq<HNode>) returns (n: int)
    ensures n == ActiveCount(a)
  {
    n := 0;
    var i := 0;
    while i < |a|
      invariant 0 <= i <= |a| && n == ActiveCount(a[..i])
    {
      AppendActive(a[..i], a[i]);
      assert a[..i + 1] == a[..i] + [a[i]];
      if a[i].active {
        n := n + 1;
      }
      i := i + 1;
    }
    assert a[..i] == a;
  }

  /** The root search of `buildHuffmanTree`: the first active slot. */
  method FirstActive(a: seq<HNode>) returns (r: int)
    requires ActiveCount(a) >= 1
    ensures 0 <= r < |a| && a[r].active
    ensures forall j | 0 <= j < r :: !a[j].active
  {
    var i := 0;
    while i < |a|
      invariant 0 <= i <= |a|
      invariant forall j | 0 <= j < i :: !a[j].active
    {
      if a[i].active {
        return i;
      }
      i := i + 1;
    }
    NoneActive(a);
    assert false;
  }

  /** The selection loop of `buildHuffmanTree`: `min1` is the first active
      slot in the merge order and `min2` the first of the rest, so
      `min1`'s weight is at most `min2`'s and the lower index wins ties. */
  method SelectTwoMin(a: seq<HNode>) returns (min1: int, min2: int)
    requires ActiveCount(a) >= 2
    ensures 0 <= min1 < |a| && 0 <= min2 < |a| && min1 != min2
    ensures a[min1].active && a[min2].active
    ensures forall j | 0 <= j < |a| && a[j].active && j != min1 :: Lighter(a, min1, j)
    ensures forall j | 0 <= j < |a| && a[j].active && j != min1 && j != min2 :: Lighter(a, min2, j)
  {
    min1, min2 := -1, -1;
    var i := 0;
    while i < |a|
      invariant 0 <= i <= |a|
      invariant -1 <= min1 < i && -1 <= min2 < i
      invariant min1 == -1 ==> forall j | 0 <= j < i :: !a[j].active
      invariant min1 != -1 ==> a[min1].active
      invariant min1 != -1 ==> forall j | 0 <= j < i && a[j].active && j != min1 :: Lighter(a, min1, j)
      invariant min2 == -1 ==> forall j | 0 <= j < i && a[j].active :: j == min1
      invariant min2 != -1 ==> min1 != -1 && min2 != min1 && a[min2].active
      invariant min2 != -1 ==> forall j | 0 <= j < i && a[j].active && j != min1 && j != min2 :: Lighter(a, min2, j)
    {
      if a[i].active {
        if min1 == -1 || a[i].freq < a[min1].freq {
          min2 := min1;
          min1 := i;
        } else if min2 == -1 || a[i].freq < a[min2].freq {
          min2 := i;
        }
      }
      i := i + 1;
    }
    if min2 == -1 {
      AtMostOneActive(a, min1);
      assert false;
    }
  }

  /** The loop invariant of `buildHuffmanTree`: a well-formed arena over
      the initial leaves whose active slots split the leaves, with one
      fewer active slot per allocated parent, the leaves' total weight on
      the active slots and the newest parent still active. */
  ghost predicate Building(a: seq<HNode>, init: seq<HNode>)
  {
    var L := |init|;
    && Wf(a, L) && Partition(a, L)
    && ActiveCount(a) + |a| == 2 * L && ActiveCount(a) >= 1
    && ActiveFreq(a) == SumFreq(init)
    && (|a| > L ==> a[|a| - 1].active)
    && (forall k | 0 <= k < L :: a[k].ch == init[k].ch && a[k].freq == init[k].freq)
  }

  lemma StartBuilding(init: seq<HNode>)
    requires Initial(init)
    ensures Building(init, init)
  {
    InitialWf(init);
  }

  /** One merge of two distinct active slots keeps the loop invariant and
      lowers the active count. */
  lemma MergeStep(a: seq<HNode>, init: seq<HNode>, min1: int, min2: int)
    requires Building(a, init) && ActiveCount(a) >= 2
    requires 0 <= min1 < |a| && 0 <= min2 < |a| && min1 != min2
    requires a[min1].active && a[min2].active
    ensures Building(Merge(a, min1, min2), init)
    ensures ActiveCount(Merge(a, min1, min2)) < ActiveCount(a)
  {
    MergeFrame(a, min1, min2);
    MergeCounts(a, min1, min2);
    MergeWf(a, |init|, min1, min2);
    MergePartition(a, |init|, min1, min2);
  }

  /** When at most one slot is active, the first active slot is the newest
      one and the only active slot. */
  lemma FinishRoot(a: seq<HNode>, L: int, root: int)
    requires ActiveCount(a) + |a| == 2 * L && ActiveCount(a) <= 1 && L >= 2
    requires |a| > L ==> a[|a| - 1].active
    requires 0 <= root < |a| && a[root].active
    ensures |a| == 2 * L - 1 && root == |a| - 1
    ensures forall k | 0 <= k < |a| && a[k].active :: k == root
  {
    OneActive(a, root);
    if root != |a| - 1 {
      TwoActive(a, root, |a| - 1);
    }
    forall k | 0 <= k < |a| && a[k].active
      ensures k == root
    {
      if k != root {
        TwoActive(a, root, k);
      }
    }
  }

  /** The only active slot has every leaf below it and carries the leaves'
      total weight. */
  lemma FinishLeaves(a: seq<HNode>, init: seq<HNode>, root: int)
    requires Building(a, init)
    requires 0 <= root < |a| && a[root].active
    requires forall k | 0 <= k < |a| && a[k].active :: k == root
    ensures forall k :: k in LeafIdx(a, root) <==> 0 <= k < |init|
    ensures a[root].freq == SumFreq(init)
  {
    SoleActive(a, root);
    forall k | 0 <= k < |init|
      ensures k in LeafIdx(a, root)
    {
      assert Covered(a, k);
    }
    LeafIdxBelow(a, |init|, root);
  }

  /** The loop invariant gives the shape facts of the finished arena. */
  lemma FinishShape(a: seq<HNode>, init: seq<HNode>)
    requires Building(a, init) && Initial(init)
    ensures |a| < MaxNodes || ActiveCount(a) > 1
    ensures forall k | |init| <= k < |a| ::
              0 <= a[k].left < k && 0 <= a[k].right < k
              && a[k].freq == a[a[k].left].freq + a[a[k].right].freq
    ensures forall k | 0 <= k < |init| :: a[k].ch == init[k].ch && a[k].freq == init[k].freq && IsLeaf(a[k])
  {
  }

  /** The finished arena over the initial leaves `init`: `2L - 1 < MaxNodes`
      slots, the root the newest slot and the only active one, every parent
      weighing the sum of its children, the leaves keeping their bytes and
      weights, and every leaf below the root, which weighs them all. */
  ghost predicate Built(a: seq<HNode>, init: seq<HNode>, root: int)
  {
    && |a| == 2 * |init| - 1 && |a| < MaxNodes
    && root == |a| - 1 && a[root].active
    && (forall k | 0 <= k < |a| && a[k].active :: k == root)
    && Wf(a, |init|)
    && (forall k | |init| <= k < |a| ::
          0 <= a[k].left < k && 0 <= a[k].right < k
          && a[k].freq == a[a[k].left].freq + a[a[k].right].freq)
    && (forall k | 0 <= k < |init| :: a[k].ch == init[k].ch && a[k].freq == init[k].freq && IsLeaf(a[k]))
    && (forall k :: k in LeafIdx(a, root) <==> 0 <= k < |init|)
    && a[root].freq == SumFreq(init)
  }

  /** The loop invariant and a sole active slot give the finished arena. */
  lemma Finished(a: seq<HNode>, init: seq<HNode>, root: int)
    requires Initial(init) && Building(a, init) && ActiveCount(a) <= 1
    requires 0 <= root < |a| && a[root].active
    ensures Built(a, init, root)
  {
    if |init| == 1 {
      OneActive(a, root);
      FinishRoot1(a, root);
    } else {
      FinishRoot(a, |init|, root);
    }
    FinishLeaves(a, init, root);
    FinishShape(a, init);
  }

  lemma FinishRoot1(a: seq<HNode>, root: int)
    requires ActiveCount(a) + |a| == 2 && ActiveCount(a) >= 1
    requires 0 <= root < |a|
    ensures |a| == 1 && root == 0
    ensures forall k | 0 <= k < |a| && a[k].active :: k == root
  {
  }

  /** The `while (true)` loop of `buildHuffmanTree`: count the active
      slots, stop at the first active slot once at most one is left, else
      merge the two lightest. */
  method MergeLoop(init: seq<HNode>, a0: seq<HNode>) returns (root: int, a: seq<HNode>)
    requires Building(a0, init)
    ensures Building(a, init) && ActiveCount(a) <= 1
    ensures 0 <= root < |a| && a[root].active
  {
    a := a0;
    while true
      invariant Building(a, init)
      decreases ActiveCount(a)
    {
      var activeCount := CountActive(a);
      if activeCount <= 1 {
        root := FirstActive(a);
        return;
      }
      var min1, min2 := SelectTwoMin(a);
      MergeStep(a, init, min1, min2);
      a := Merge(a, min1, min2);
    }
  }

  /** `buildHuffmanTree` from the initial leaves: it terminates with the
      single active slot as the root after `L - 1` merges, so the arena
      holds `2L - 1 < MaxNodes` slots. Every parent weighs the sum of its
      children, the root weighs all the leaves together and has every leaf
      below it, and the leaves keep their bytes and weights. */
  method BuildHuffmanTree(init: seq<HNode>) returns (root: int, a: seq<HNode>)
    requires Initial(init)
    ensures Built(a, init, root)
  {
    a := init;
    StartBuilding(init);
    if |a| == 1 {
      root := 0;
    } else {
      root, a := MergeLoop(init, a);
    }
    Finished(a, init, root);
  }
}
