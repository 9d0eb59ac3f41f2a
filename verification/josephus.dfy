/** The Josephus elimination simulated with a queue (josephus.cpp). */
module Josephus {

  /** The classical recurrence for the 1-based survivor among `m` people when
      every `k`-th is removed. */
  function Survivor(m: int, k: int): (r: int)
    requires m >= 1 && k >= 1
    ensures 1 <= r <= m
  {
    if m == 1 then 1 else ((Survivor(m - 1, k) + k - 1) % m) + 1
  }

  /** Removing every first person leaves the last one. */
  lemma {:induction false} SurvivorStepOne(m: int)
    requires m >= 1
    ensures Survivor(m, 1) == m
  {
    if m > 1 {
      SurvivorStepOne(m - 1);
    }
  }

  /** The queue after its front has been moved to the back `r` times. */
  function Rotate(q: seq<int>, r: int): (s: seq<int>)
    requires 0 <= r < |q|
    ensures |s| == |q|
  {
    q[r..] + q[..r]
  }

  lemma RotateIndex(q: seq<int>, r: int, x: int)
    requires 0 <= r < |q| && 0 <= x < |q|
    ensures Rotate(q, r)[x] == if x + r < |q| then q[x + r] else q[x + r - |q|]
  {
  }

  /** One more move of the front to the back. */
  lemma RotateStep(q: seq<int>, r: int)
    requires 0 <= r < |q|
    ensures Rotate(q, r)[1..] + [Rotate(q, r)[0]] == Rotate(q, if r + 1 == |q| then 0 else r + 1)
  {
    var s := Rotate(q, r);
    var t := s[1..] + [s[0]];
    var r' := if r + 1 == |q| then 0 else r + 1;
    forall x | 0 <= x < |q| ensures t[x] == Rotate(q, r')[x] {
      RotateIndex(q, r', x);
      if x + 1 < |q| {
        RotateIndex(q, r, x + 1);
      } else {
        RotateIndex(q, r, 0);
      }
    }
  }

  lemma {:induction false} MulAtLeast(a: int, m: int)
    requires a >= 1 && m >= 1
    ensures a * m >= m
  {
    if a > 1 {
      MulAtLeast(a - 1, m);
      assert a * m == (a - 1) * m + m;
    }
  }

  lemma MulSucc(d: int, m: int)
    ensures (d + 1) * m == d * m + m
  {
  }

  /** The remainder is determined by any quotient-remainder decomposition. */
  lemma ModUnique(x: int, q: int, m: int, s: int)
    requires m > 0 && 0 <= s < m && x == q * m + s
    ensures x % m == s
  {
    var d, t := x / m, x % m;
    assert x == d * m + t;
    if q > d {
      MulAtLeast(q - d, m);
    } else if q < d {
      MulAtLeast(d - q, m);
    }
  }

  /** Advancing the rotation count by one wraps at the queue length. */
  lemma ModSucc(j: int, m: int)
    requires m > 0
    ensures j % m == if (j - 1) % m + 1 == m then 0 else (j - 1) % m + 1
  {
    var d, r := (j - 1) / m, (j - 1) % m;
    assert j - 1 == d * m + r;
    if r + 1 < m {
      ModUnique(j, d, m, r + 1);
    } else {
      MulSucc(d, m);
      ModUnique(j, d + 1, m, 0);
    }
  }

  /** The queue after a round, read at the smaller game's survivor, holds the
      larger game's survivor. */
  lemma RoundSurvivor(q: seq<int>, k: int)
    requires |q| >= 2 && k >= 1
    ensures Rotate(q, (k - 1) % |q|)[1..][Survivor(|q| - 1, k) - 1] == q[Survivor(|q|, k) - 1]
  {
    var m := |q|;
    var s := Survivor(m - 1, k);
    assert Survivor(m, k) == (s + k - 1) % m + 1;
    var d, r := (k - 1) / m, (k - 1) % m;
    assert k - 1 == d * m + r;
    RotateIndex(q, r, s);
    assert Rotate(q, r)[1..][s - 1] == Rotate(q, r)[s];
    if s + r < m {
      ModUnique(s + k - 1, d, m, s + r);
    } else {
      MulSucc(d, m);
      ModUnique(s + k - 1, d + 1, m, s + r - m);
    }
  }

  /** One round of `josephus`: move the first k - 1 people to the back, one
      at a time, then remove the person at the front. */
  method Round(q: seq<int>, k: int) returns (rest: seq<int>)
    requires |q| >= 2
    ensures |rest| == |q| - 1
    ensures rest == Rotate(q, ((if k < 1 then 1 else k) - 1) % |q|)[1..]
    ensures multiset(rest) + multiset{q[((if k < 1 then 1 else k) - 1) % |q|]} == multiset(q)
  {
    ghost var bigK := if k < 1 then 1 else k;
    var m := |q|;
    var cur := q;
    var j := 1;
    ghost var r := 0;
    assert Rotate(q, 0) == q;
    assert (j - 1) % m == 0 by { ModUnique(0, 0, m, 0); }
    while j < k
      invariant 1 <= j <= bigK
      invariant 0 <= r < m && r == (j - 1) % m
      invariant cur == Rotate(q, r)
    {
      RotateStep(q, r);
      ModSucc(j, m);
      cur := cur[1..] + [cur[0]];
      j := j + 1;
      r := if r + 1 == m then 0 else r + 1;
    }
    rest := cur[1..];
    RotateTail(q, r);
  }

  /** Dropping the front of a rotation removes exactly the person at the
      rotation offset. */
  lemma RotateTail(q: seq<int>, r: int)
    requires 0 <= r < |q|
    ensures |Rotate(q, r)[1..]| == |q| - 1
    ensures multiset(Rotate(q, r)[1..]) + multiset{q[r]} == multiset(q)
  {
    var c := Rotate(q, r);
    RotateContents(q, r);
    assert c == [c[0]] + c[1..];
  }

  /** Rotation only reorders: the contents are unchanged and the new front is `q[r]`. */
  lemma RotateContents(q: seq<int>, r: int)
    requires 0 <= r < |q|
    ensures multiset(Rotate(q, r)) == multiset(q) && Rotate(q, r)[0] == q[r]
  {
    assert q == q[..r] + q[r..];
  }

  /** `josephus`: people 1..n stand in a queue; each round moves the first
      k - 1 to the back and removes the next one, until one remains. A `k`
      of at most one removes the front every round. An empty queue (n <= 0)
      would be read from, so at least one person is required. */
  method Josephus(n: int, k: int) returns (survivor: int)
    requires n >= 1
    ensures 1 <= survivor <= n
    ensures survivor == Survivor(n, if k < 1 then 1 else k)
    ensures k <= 1 ==> survivor == n
  {
    var q: seq<int> := [];
    var i := 1;
    while i <= n
      invariant 1 <= i <= n + 1
      invariant q == seq(i - 1, j => j + 1)
    {
      q := q + [i];
      i := i + 1;
    }
    ghost var bigK := if k < 1 then 1 else k;
    while |q| > 1
      invariant 1 <= |q| <= n
      invariant q[Survivor(|q|, bigK) - 1] == Survivor(n, bigK)
    {
      var q' := Round(q, k);
      RoundSurvivor(q, bigK);
      q := q';
    }
    survivor := q[0];
    if k <= 1 {
      SurvivorStepOne(n);
    }
  }
}
