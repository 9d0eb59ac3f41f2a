/** The two-pointer "container with most water" recursion (max.cpp). */
module MaxArea {

  function Min(a: int, b: int): int
  {
    if a < b then a else b
  }

  function Max(a: int, b: int): int
  {
    if a < b then b else a
  }

  /** The water held between the walls at `i` and `j`. */
  function Area(h: seq<int>, i: int, j: int): int
    requires 0 <= i < |h| && 0 <= j < |h|
  {
    Min(h[i], h[j]) * (j - i)
  }

  /** `maxAreaRecursive`: the area at the two pointers, against the best area
      after moving the pointer at the lower wall inwards (the right pointer
      on equal walls). */
  function MaxAreaRec(h: seq<int>, left: int, right: int): (r: int)
    requires left >= right || (0 <= left && right < |h|)
    ensures left >= right ==> r == 0
    ensures left < right ==> r >= Area(h, left, right)
    decreases right - left
  {
    if left >= right then 0
    else
      var current := Area(h, left, right);
      if h[left] < h[right] then Max(current, MaxAreaRec(h, left + 1, right))
      else Max(current, MaxAreaRec(h, left, right - 1))
  }

  predicate NonNegative(h: seq<int>)
  {
    forall i | 0 <= i < |h| :: h[i] >= 0
  }

  lemma MulMono(a: int, b: int, c: int, d: int)
    requires 0 <= a <= b && 0 <= c <= d
    ensures a * c <= b * d
  {
    assert a * c <= b * c;
    assert b * c <= b * d;
  }

  /** For walls of non-negative height the two-pointer recursion finds the
      maximum area over all pairs between the pointers, and returns a pair
      attaining it. */
  lemma {:induction false} MaxAreaOptimal(h: seq<int>, left: int, right: int) returns (bi: int, bj: int)
    requires 0 <= left && right < |h| && NonNegative(h)
    ensures forall i, j | left <= i < j <= right :: Area(h, i, j) <= MaxAreaRec(h, left, right)
    ensures left < right ==> left <= bi < bj <= right && Area(h, bi, bj) == MaxAreaRec(h, left, right)
    decreases right - left
  {
    if left >= right {
      return 0, 0;
    }
    var r := MaxAreaRec(h, left, right);
    var current := Area(h, left, right);
    if h[left] < h[right] {
      var i', j' := MaxAreaOptimal(h, left + 1, right);
      forall j | left < j <= right ensures Area(h, left, j) <= r {
        MulMono(Min(h[left], h[j]), h[left], j - left, right - left);
      }
      if left + 1 < right && r == Area(h, i', j') {
        bi, bj := i', j';
      } else {
        bi, bj := left, right;
      }
    } else {
      var i', j' := MaxAreaOptimal(h, left, right - 1);
      forall i | left <= i < right ensures Area(h, i, right) <= r {
        MulMono(Min(h[i], h[right]), h[right], right - i, right - left);
      }
      if left < right - 1 && r == Area(h, i', j') {
        bi, bj := i', j';
      } else {
        bi, bj := left, right;
      }
    }
  }

  /** The driver's heights give 49 (walls 1 and 8, both at least 7 high). */
  lemma DemoArea()
    ensures MaxAreaRec([1, 8, 6, 2, 5, 4, 8, 3, 7], 0, 8) == 49
  {
    var h := [1, 8, 6, 2, 5, 4, 8, 3, 7];
    assert MaxAreaRec(h, 1, 1) == 0;
    assert MaxAreaRec(h, 1, 2) == 6;
    assert MaxAreaRec(h, 1, 3) == 6;
    assert MaxAreaRec(h, 1, 4) == 15;
    assert MaxAreaRec(h, 1, 5) == 16;
    assert MaxAreaRec(h, 1, 6) == 40;
    assert MaxAreaRec(h, 1, 7) == 40;
    assert MaxAreaRec(h, 1, 8) == 49;
    assert MaxAreaRec(h, 0, 8) == 49;
  }
}
