/** The post index of social.cpp: an unbalanced binary search tree of posts
    ordered by engagement score, where a post whose score is already stored
    is dropped. Queries: minimum and maximum, the score sum over a range,
    the top k posts, successor and predecessor; and a range deletion. */
module Social {
  import opened Common
  import opened BinaryTree
  import opened MapFacts

  /** A post. Posts compare by engagement score only. */
  datatype Post = Post(postId: int, author: string, score: int)

  /** Strict search-tree order on score. */
  ghost predicate IsBst(t: Tree<Post>)
  {
    match t
    case Nil => true
    case Node(p, l, r) =>
      && IsBst(l) && IsBst(r)
      && (forall k | k in Content(l) :: k < p.score)
      && (forall k | k in Content(r) :: p.score < k)
  }

  /** The index as a map from score to the post stored under it. */
  function Content(t: Tree<Post>): map<int, Post>
  {
    match t
    case Nil => map[]
    case Node(p, l, r) => (Content(l) + Content(r))[p.score := p]
  }

  /** The root's score is not repeated below it, the two subtrees share no
      score, and the stored scores are the root's and the subtrees'. */
  lemma BstRoot(t: Tree<Post>)
    requires IsBst(t) && t.Node?
    ensures t.data.score !in Content(t.left) && t.data.score !in Content(t.right)
    ensures Content(t.left).Keys !! Content(t.right).Keys
    ensures forall k :: k in Content(t) <==> k == t.data.score || k in Content(t.left) || k in Content(t.right)
  {
    forall k | k in Content(t.left) ensures k !in Content(t.right) {
    }
  }

  // ---------------------------------------------------------------------
  // insert
  // ---------------------------------------------------------------------

  /** The recursive `insert`: descend by score and hang a new leaf; a post
      whose score is already stored leaves the tree as it is. */
  function Insert(t: Tree<Post>, p: Post): (r: Tree<Post>)
    ensures Content(r).Keys == Content(t).Keys + {p.score}
  {
    match t
    case Nil => Node(p, Nil, Nil)
    case Node(q, l, rt) =>
      if p.score < q.score then Node(q, Insert(l, p), rt)
      else if p.score > q.score then Node(q, l, Insert(rt, p))
      else t
  }

  /** The public `insert`: the new tree, and `true` whatever happened. */
  function InsertPost(t: Tree<Post>, p: Post): (r: (Tree<Post>, bool))
    ensures r.1
    ensures r.0 == Insert(t, p)
  {
    (Insert(t, p), true)
  }

  /** `insert` keeps the order; a new score gets the post, a stored score
      keeps its post and the whole tree unchanged. */
  lemma {:induction false} InsertCorrect(t: Tree<Post>, p: Post)
    requires IsBst(t)
    ensures IsBst(Insert(t, p))
    ensures p.score in Content(t) ==> Insert(t, p) == t
    ensures p.score !in Content(t) ==> Content(Insert(t, p)) == Content(t)[p.score := p]
  {
    match t
    case Nil =>
    case Node(q, l, rt) =>
      BstRoot(t);
      var ml, mr := Content(l), Content(rt);
      if p.score < q.score {
        InsertCorrect(l, p);
        assert p.score !in mr;
        if p.score !in Content(t) {
          UpdateUnionLeft(ml, mr, p.score, p);
          UpdateCommute(ml + mr, p.score, p, q.score, q);
        }
      } else if p.score > q.score {
        InsertCorrect(rt, p);
        if p.score !in Content(t) {
          UpdateUnionRight(ml, mr, p.score, p);
          UpdateCommute(ml + mr, p.score, p, q.score, q);
        }
      }
  }

  // ---------------------------------------------------------------------
  // findMin / findMax
  // ---------------------------------------------------------------------

  /** `findMin`: the leftmost post, None on an empty tree. */
  function FindMin(t: Tree<Post>): (r: Option<Post>)
    ensures r.None? <==> t == Nil
  {
    match t
    case Nil => None
    case Node(p, l, _) => if l == Nil then Some(p) else FindMin(l)
  }

  /** `findMax`: the rightmost post, None on an empty tree. */
  function FindMax(t: Tree<Post>): (r: Option<Post>)
    ensures r.None? <==> t == Nil
  {
    match t
    case Nil => None
    case Node(p, _, r) => if r == Nil then Some(p) else FindMax(r)
  }

  /** On a search tree the leftmost post is stored and has the least score. */
  lemma {:induction false} FindMinCorrect(t: Tree<Post>)
    requires IsBst(t) && t != Nil
    ensures var m := FindMin(t).value;
      m.score in Content(t) && Content(t)[m.score] == m && forall k | k in Content(t) :: m.score <= k
  {
    BstRoot(t);
    if t.left != Nil {
      FindMinCorrect(t.left);
    }
  }

  /** On a search tree the rightmost post is stored and has the greatest score. */
  lemma {:induction false} FindMaxCorrect(t: Tree<Post>)
    requires IsBst(t) && t != Nil
    ensures var m := FindMax(t).value;
      m.score in Content(t) && Content(t)[m.score] == m && forall k | k in Content(t) :: k <= m.score
  {
    BstRoot(t);
    if t.right != Nil {
      FindMaxCorrect(t.right);
    }
  }

  // ---------------------------------------------------------------------
  // sumInRange
  // ---------------------------------------------------------------------

  /** `sumInRange`: the node's score when it lies in `[minS, maxS]`, plus the
      left subtree only when the score exceeds `minS`, plus the right subtree
      only when it is below `maxS`. */
  function SumInRange(t: Tree<Post>, minS: int, maxS: int): int
  {
    match t
    case Nil => 0
    case Node(p, l, r) =>
      (if minS <= p.score <= maxS then p.score else 0)
      + (if p.score > minS then SumInRange(l, minS, maxS) else 0)
      + (if p.score < maxS then SumInRange(r, minS, maxS) else 0)
  }

  /** The sum of the listed scores that lie in `[minS, maxS]`. */
  function ScoresIn(s: seq<Post>, minS: int, maxS: int): int
  {
    if s == [] then 0
    else (if minS <= s[0].score <= maxS then s[0].score else 0) + ScoresIn(s[1..], minS, maxS)
  }

  lemma {:induction false} ScoresInConcat(a: seq<Post>, b: seq<Post>, minS: int, maxS: int)
    ensures ScoresIn(a + b, minS, maxS) == ScoresIn(a, minS, maxS) + ScoresIn(b, minS, maxS)
    decreases |a|
  {
    if a == [] {
      assert a + b == b;
    } else {
      ScoresInConcat(a[1..], b, minS, maxS);
      assert (a + b)[1..] == a[1..] + b;
    }
  }

  lemma {:induction false} ScoresInOutside(s: seq<Post>, minS: int, maxS: int)
    requires forall i | 0 <= i < |s| :: s[i].score < minS || maxS < s[i].score
    ensures ScoresIn(s, minS, maxS) == 0
    decreases |s|
  {
    if s != [] {
      ScoresInOutside(s[1..], minS, maxS);
    }
  }

  /** Every listed post of the in-order traversal is stored under its score. */
  lemma {:induction false} InorderStored(t: Tree<Post>)
    ensures forall i | 0 <= i < |Inorder(t)| :: Inorder(t)[i].score in Content(t)
  {
    match t
    case Nil =>
    case Node(p, l, r) =>
      InorderStored(l);
      InorderStored(r);
      var sl, sr := Inorder(l), Inorder(r);
      forall i | 0 <= i < |Inorder(t)| ensures Inorder(t)[i].score in Content(t) {
        if i < |sl| {
          assert Inorder(t)[i] == sl[i];
        } else if i > |sl| {
          assert Inorder(t)[i] == sr[i - |sl| - 1];
        }
      }
  }

  /** On a search tree the pruned sum is the sum of all scores in the range. */
  lemma {:induction false} SumInRangeCorrect(t: Tree<Post>, minS: int, maxS: int)
    requires IsBst(t)
    ensures SumInRange(t, minS, maxS) == ScoresIn(Inorder(t), minS, maxS)
  {
    match t
    case Nil =>
    case Node(p, l, r) =>
      SumInRangeCorrect(l, minS, maxS);
      SumInRangeCorrect(r, minS, maxS);
      var sl, sr := Inorder(l), Inorder(r);
      ScoresInConcat(sl + [p], sr, minS, maxS);
      ScoresInConcat(sl, [p], minS, maxS);
      assert ScoresIn([p], minS, maxS) == if minS <= p.score <= maxS then p.score else 0 by {
        assert [p][1..] == [];
      }
      if p.score <= minS {
        InorderStored(l);
        ScoresInOutside(sl, minS, maxS);
      }
      if p.score >= maxS {
        InorderStored(r);
        ScoresInOutside(sr, minS, maxS);
      }
  }

  // ---------------------------------------------------------------------
  // getTopK
  // ---------------------------------------------------------------------

  /** `reverseInorder`: right subtree, node, left subtree, appending to
      `result` and stopping once it holds `k` posts. */
  function ReverseInorder(t: Tree<Post>, result: seq<Post>, k: nat): (r: seq<Post>)
  {
    if t == Nil || |result| >= k then result
    else
      var a := ReverseInorder(t.right, result, k);
      if |a| < k then ReverseInorder(t.left, a + [t.data], k) else a
  }

  /** `getTopK` for a non-negative `k`. */
  function GetTopK(t: Tree<Post>, k: nat): seq<Post>
  {
    ReverseInorder(t, [], k)
  }

  /** The posts from the greatest score down. */
  function Descending(t: Tree<Post>): seq<Post>
  {
    match t
    case Nil => []
    case Node(p, l, r) => Descending(r) + [p] + Descending(l)
  }

  /** The traversal lists every node once. */
  lemma {:induction false} DescendingSize(t: Tree<Post>)
    ensures |Descending(t)| == Size(t)
  {
    match t
    case Nil =>
    case Node(_, l, r) =>
      DescendingSize(l);
      DescendingSize(r);
  }

  function Min(a: int, b: int): int
  {
    if a < b then a else b
  }

  /** The walk appends the first `k - |result|` posts of the descending
      traversal, or all of them when there are fewer. */
  lemma {:induction false} ReverseInorderPrefix(t: Tree<Post>, result: seq<Post>, k: nat)
    ensures |result| >= k ==> ReverseInorder(t, result, k) == result
    ensures |result| < k ==>
      ReverseInorder(t, result, k) == result + Descending(t)[..Min(k - |result|, |Descending(t)|)]
  {
    if t != Nil && |result| < k {
      var dr, dl := Descending(t.right), Descending(t.left);
      var m := Min(k - |result|, |Descending(t)|);
      ReverseInorderPrefix(t.right, result, k);
      var a := ReverseInorder(t.right, result, k);
      if |a| < k {
        assert a == result + dr;
        ReverseInorderPrefix(t.left, a + [t.data], k);
        PrefixPastRight(dr, t.data, dl, m);
        assert result + (dr + [t.data] + dl[..m - |dr| - 1]) == a + [t.data] + dl[..m - |dr| - 1];
      } else {
        PrefixWithinRight(dr, t.data, dl, m);
      }
    }
  }

  /** A prefix reaching past the right part of `dr + [x] + dl`. */
  lemma PrefixPastRight(dr: seq<Post>, x: Post, dl: seq<Post>, m: int)
    requires |dr| < m <= |dr| + 1 + |dl|
    ensures (dr + [x] + dl)[..m] == dr + [x] + dl[..m - |dr| - 1]
  {
  }

  /** A prefix inside the right part of `dr + [x] + dl`. */
  lemma PrefixWithinRight(dr: seq<Post>, x: Post, dl: seq<Post>, m: int)
    requires 0 <= m <= |dr|
    ensures (dr + [x] + dl)[..m] == dr[..m]
  {
  }

  /** Each position of the traversal from the greatest score down reads
      from the right subtree, the node or the left subtree. */
  lemma DescendingAt(t: Tree<Post>, i: int)
    requires t.Node? && 0 <= i < |Descending(t)|
    ensures var dr := Descending(t.right);
      && (i < |dr| ==> Descending(t)[i] == dr[i])
      && (i == |dr| ==> Descending(t)[i] == t.data)
      && (i > |dr| ==> Descending(t)[i] == Descending(t.left)[i - |dr| - 1])
  {
  }

  /** Every post of the traversal is stored under its score. */
  lemma {:induction false} DescendingStored(t: Tree<Post>)
    requires IsBst(t)
    ensures forall i | 0 <= i < |Descending(t)| ::
      Descending(t)[i].score in Content(t) && Content(t)[Descending(t)[i].score] == Descending(t)[i]
  {
    match t
    case Nil =>
    case Node(p, l, r) =>
      DescendingStored(l);
      DescendingStored(r);
      BstRoot(t);
      forall i | 0 <= i < |Descending(t)|
        ensures Descending(t)[i].score in Content(t) && Content(t)[Descending(t)[i].score] == Descending(t)[i]
      {
        DescendingAt(t, i);
      }
  }

  /** On a search tree the traversal is strictly descending. */
  lemma {:induction false} DescendingStrict(t: Tree<Post>)
    requires IsBst(t)
    ensures forall i, j | 0 <= i < j < |Descending(t)| :: Descending(t)[i].score > Descending(t)[j].score
  {
    match t
    case Nil =>
    case Node(p, l, r) =>
      DescendingStrict(l);
      DescendingStrict(r);
      DescendingStored(l);
      DescendingStored(r);
      var d, n := Descending(t), |Descending(r)|;
      forall i, j | 0 <= i < j < |d| ensures d[i].score > d[j].score {
        DescendingAt(t, i);
        DescendingAt(t, j);
        if i < n && n < j {
          assert d[i].score > p.score;
        }
      }
  }

  /** Every stored score appears in the traversal. */
  lemma {:induction false} DescendingCovers(t: Tree<Post>)
    requires IsBst(t)
    ensures forall k | k in Content(t) :: exists i | 0 <= i < |Descending(t)| :: Descending(t)[i].score == k
  {
    match t
    case Nil =>
    case Node(p, l, r) =>
      DescendingCovers(l);
      DescendingCovers(r);
      BstRoot(t);
      var d, n := Descending(t), |Descending(r)|;
      forall k | k in Content(t) ensures exists i | 0 <= i < |Descending(t)| :: Descending(t)[i].score == k {
        if k == p.score {
          DescendingAt(t, n);
          assert d[n].score == k;
        } else if k in Content(r) {
          var i :| 0 <= i < n && Descending(r)[i].score == k;
          DescendingAt(t, i);
          assert d[i].score == k;
        } else {
          var i :| 0 <= i < |Descending(l)| && Descending(l)[i].score == k;
          DescendingAt(t, n + 1 + i);
          assert d[n + 1 + i].score == k;
        }
      }
      assert forall k | k in Content(t) :: exists i | 0 <= i < |Descending(t)| :: Descending(t)[i].score == k;
  }

  /** `getTopK` returns min(k, size) stored posts in strictly descending score
      order, and no stored post it leaves out scores above one it returns. */
  lemma GetTopKCorrect(t: Tree<Post>, k: nat)
    requires IsBst(t)
    ensures var r := GetTopK(t, k);
      && |r| == Min(k, Size(t))
      && (forall i, j | 0 <= i < j < |r| :: r[i].score > r[j].score)
      && (forall i | 0 <= i < |r| :: r[i].score in Content(t) && Content(t)[r[i].score] == r[i])
      && (forall s | s in Content(t) && (forall i | 0 <= i < |r| :: r[i].score != s) ::
            forall i | 0 <= i < |r| :: s < r[i].score)
  {
    ReverseInorderPrefix(t, [], k);
    DescendingSize(t);
    var r := GetTopK(t, k);
    assert r == Descending(t)[..Min(k, Size(t))] by {
      if k == 0 {
        assert r == [];
      }
    }
    TopPrefix(t, Min(k, Size(t)));
  }

  /** The first m posts of the descending listing are stored, strictly
      descending, and above every stored post they leave out. */
  lemma TopPrefix(t: Tree<Post>, m: int)
    requires IsBst(t) && 0 <= m <= |Descending(t)|
    ensures var r := Descending(t)[..m];
      && (forall i, j | 0 <= i < j < |r| :: r[i].score > r[j].score)
      && (forall i | 0 <= i < |r| :: r[i].score in Content(t) && Content(t)[r[i].score] == r[i])
      && (forall s | s in Content(t) && (forall i | 0 <= i < |r| :: r[i].score != s) ::
            forall i | 0 <= i < |r| :: s < r[i].score)
  {
    var d := Descending(t);
    var r := d[..m];
    assert forall i | 0 <= i < |r| :: r[i] == d[i];
    DescendingStrict(t);
    DescendingStored(t);
    forall s | s in Content(t) && (forall i | 0 <= i < |r| :: r[i].score != s)
      ensures forall i | 0 <= i < |r| :: s < r[i].score
    {
      DescendingCovers(t);
      var j :| 0 <= j < |d| && d[j].score == s;
      assert j >= |r|;
    }
  }

  // ---------------------------------------------------------------------
  // find / findSuccessor / findPredecessor
  // ---------------------------------------------------------------------

  /** `find`: the subtree rooted at the first node on the search path whose
      score equals `score`, Nil for a null pointer. */
  function Find(t: Tree<Post>, score: int): (r: Tree<Post>)
    ensures r != Nil ==> r.data.score == score
  {
    match t
    case Nil => Nil
    case Node(p, l, rt) =>
      if score == p.score then t
      else if score < p.score then Find(l, score)
      else Find(rt, score)
  }

  /** The ancestor walk of `findSuccessor`: from `a` down the search path to
      the node `find` stopped at, remembering the last node left behind on
      its left turn. The walk makes the same turns as `find`, so it stops at
      the first node whose score equals `score`. */
  function SuccessorWalk(a: Tree<Post>, score: int, successor: Option<Post>): Option<Post>
  {
    match a
    case Nil => successor
    case Node(p, l, r) =>
      if score == p.score then successor
      else if score < p.score then SuccessorWalk(l, score, Some(p))
      else SuccessorWalk(r, score, successor)
  }

  /** The ancestor walk of `findPredecessor`, mirrored. */
  function PredecessorWalk(a: Tree<Post>, score: int, predecessor: Option<Post>): Option<Post>
  {
    match a
    case Nil => predecessor
    case Node(p, l, r) =>
      if score == p.score then predecessor
      else if score > p.score then PredecessorWalk(r, score, Some(p))
      else PredecessorWalk(l, score, predecessor)
  }

  /** `findSuccessor` below an ancestor walk that has already remembered
      `successor`: no node when `find` fails; the least post of the right
      subtree when there is one; otherwise what the ancestor walk finds. */
  function SuccessorFrom(t: Tree<Post>, score: int, successor: Option<Post>): Option<Post>
  {
    var curr := Find(t, score);
    if curr == Nil then None
    else if curr.right != Nil then FindMin(curr.right)
    else SuccessorWalk(t, score, successor)
  }

  function PredecessorFrom(t: Tree<Post>, score: int, predecessor: Option<Post>): Option<Post>
  {
    var curr := Find(t, score);
    if curr == Nil then None
    else if curr.left != Nil then FindMax(curr.left)
    else PredecessorWalk(t, score, predecessor)
  }

  /** `findSuccessor`: the walk starts at the root with no node remembered. */
  function FindSuccessor(t: Tree<Post>, score: int): Option<Post>
  {
    SuccessorFrom(t, score, None)
  }

  /** `findPredecessor`. */
  function FindPredecessor(t: Tree<Post>, score: int): Option<Post>
  {
    PredecessorFrom(t, score, None)
  }

  /** `r` is the stored post with the least score above `score` in `m`, or,
      when `m` has none, the fallback `outer`. */
  ghost predicate IsNextAbove(m: map<int, Post>, score: int, outer: Option<Post>, r: Option<Post>)
  {
    if forall k | k in m :: k <= score then r == outer
    else
      && r.Some? && r.value.score in m && m[r.value.score] == r.value && score < r.value.score
      && forall k | k in m && score < k :: r.value.score <= k
  }

  /** `r` is the stored post with the greatest score below `score` in `m`, or `outer`. */
  ghost predicate IsNextBelow(m: map<int, Post>, score: int, outer: Option<Post>, r: Option<Post>)
  {
    if forall k | k in m :: score <= k then r == outer
    else
      && r.Some? && r.value.score in m && m[r.value.score] == r.value && r.value.score < score
      && forall k | k in m && k < score :: k <= r.value.score
  }

  lemma {:induction false} SuccessorFromCorrect(t: Tree<Post>, score: int, successor: Option<Post>)
    requires IsBst(t)
    requires successor.Some? ==> score < successor.value.score
    requires successor.Some? ==> forall k | k in Content(t) :: k < successor.value.score
    ensures score !in Content(t) ==> SuccessorFrom(t, score, successor) == None
    ensures score in Content(t) ==> IsNextAbove(Content(t), score, successor, SuccessorFrom(t, score, successor))
  {
    match t
    case Nil =>
    case Node(p, l, r) =>
      BstRoot(t);
      if score < p.score {
        assert SuccessorFrom(t, score, successor) == SuccessorFrom(l, score, Some(p));
        SuccessorFromCorrect(l, score, Some(p));
        if score in Content(t) {
          AboveViaLeft(t, score, successor);
        }
      } else if score > p.score {
        assert SuccessorFrom(t, score, successor) == SuccessorFrom(r, score, successor);
        SuccessorFromCorrect(r, score, successor);
        if score in Content(t) {
          AboveViaRight(t, score, successor);
        }
      } else {
        AboveHere(t, score, successor);
      }
  }

  /** A score left of the root: the left subtree's answer, or the root when
      nothing on the left lies above the score. */
  lemma AboveViaLeft(t: Tree<Post>, score: int, successor: Option<Post>)
    requires IsBst(t) && t.Node? && score < t.data.score && score in Content(t.left)
    requires IsNextAbove(Content(t.left), score, Some(t.data), SuccessorFrom(t.left, score, Some(t.data)))
    ensures IsNextAbove(Content(t), score, successor, SuccessorFrom(t.left, score, Some(t.data)))
  {
    BstRoot(t);
    var p, l, r := t.data, t.left, t.right;
    assert forall k | k in Content(r) :: score < k;
    var res := SuccessorFrom(l, score, Some(p));
    if forall k | k in Content(l) :: k <= score {
      assert res == Some(p);
      forall k | k in Content(t) && score < k ensures p.score <= k {
      }
    } else {
      assert res.value.score in Content(l);
    }
  }

  /** A score right of the root: nothing on the left lies above it. */
  lemma AboveViaRight(t: Tree<Post>, score: int, successor: Option<Post>)
    requires IsBst(t) && t.Node? && score > t.data.score && score in Content(t.right)
    requires IsNextAbove(Content(t.right), score, successor, SuccessorFrom(t.right, score, successor))
    ensures IsNextAbove(Content(t), score, successor, SuccessorFrom(t.right, score, successor))
  {
    BstRoot(t);
    assert forall k | k in Content(t.left) :: k < score;
    assert (forall k | k in Content(t) :: k <= score) <==> (forall k | k in Content(t.right) :: k <= score);
  }

  /** The score at the root: the least post of the right subtree, or what the
      ancestor walk remembered. */
  lemma AboveHere(t: Tree<Post>, score: int, successor: Option<Post>)
    requires IsBst(t) && t.Node? && score == t.data.score
    requires successor.Some? ==> forall k | k in Content(t) :: k < successor.value.score
    ensures IsNextAbove(Content(t), score, successor, SuccessorFrom(t, score, successor))
  {
    BstRoot(t);
    var r := t.right;
    if r != Nil {
      FindMinCorrect(r);
      assert exists k | k in Content(t) :: score < k by {
        assert r.data.score in Content(r);
      }
    } else {
      assert forall k | k in Content(t) :: k <= score;
    }
  }

  lemma {:induction false} PredecessorFromCorrect(t: Tree<Post>, score: int, predecessor: Option<Post>)
    requires IsBst(t)
    requires predecessor.Some? ==> predecessor.value.score < score
    requires predecessor.Some? ==> forall k | k in Content(t) :: predecessor.value.score < k
    ensures score !in Content(t) ==> PredecessorFrom(t, score, predecessor) == None
    ensures score in Content(t) ==> IsNextBelow(Content(t), score, predecessor, PredecessorFrom(t, score, predecessor))
  {
    match t
    case Nil =>
    case Node(p, l, r) =>
      BstRoot(t);
      if score > p.score {
        assert PredecessorFrom(t, score, predecessor) == PredecessorFrom(r, score, Some(p));
        PredecessorFromCorrect(r, score, Some(p));
        if score in Content(t) {
          BelowViaRight(t, score, predecessor);
        }
      } else if score < p.score {
        assert PredecessorFrom(t, score, predecessor) == PredecessorFrom(l, score, predecessor);
        PredecessorFromCorrect(l, score, predecessor);
        if score in Content(t) {
          BelowViaLeft(t, score, predecessor);
        }
      } else {
        BelowHere(t, score, predecessor);
      }
  }

  /** A score right of the root: the right subtree's answer, or the root
      when nothing on the right lies below the score. */
  lemma BelowViaRight(t: Tree<Post>, score: int, predecessor: Option<Post>)
    requires IsBst(t) && t.Node? && score > t.data.score && score in Content(t.right)
    requires IsNextBelow(Content(t.right), score, Some(t.data), PredecessorFrom(t.right, score, Some(t.data)))
    ensures IsNextBelow(Content(t), score, predecessor, PredecessorFrom(t.right, score, Some(t.data)))
  {
    BstRoot(t);
    var p, l, r := t.data, t.left, t.right;
    assert forall k | k in Content(l) :: k < score;
    var res := PredecessorFrom(r, score, Some(p));
    if forall k | k in Content(r) :: score <= k {
      assert res == Some(p);
      forall k | k in Content(t) && k < score ensures k <= p.score {
      }
    } else {
      assert res.value.score in Content(r);
    }
  }

  /** A score left of the root: nothing on the right lies below it. */
  lemma BelowViaLeft(t: Tree<Post>, score: int, predecessor: Option<Post>)
    requires IsBst(t) && t.Node? && score < t.data.score && score in Content(t.left)
    requires IsNextBelow(Content(t.left), score, predecessor, PredecessorFrom(t.left, score, predecessor))
    ensures IsNextBelow(Content(t), score, predecessor, PredecessorFrom(t.left, score, predecessor))
  {
    BstRoot(t);
    assert forall k | k in Content(t.right) :: score < k;
    assert (forall k | k in Content(t) :: score <= k) <==> (forall k | k in Content(t.left) :: score <= k);
  }

  /** The score at the root: the greatest post of the left subtree, or what
      the ancestor walk remembered. */
  lemma BelowHere(t: Tree<Post>, score: int, predecessor: Option<Post>)
    requires IsBst(t) && t.Node? && score == t.data.score
    requires predecessor.Some? ==> forall k | k in Content(t) :: predecessor.value.score < k
    ensures IsNextBelow(Content(t), score, predecessor, PredecessorFrom(t, score, predecessor))
  {
    BstRoot(t);
    var l := t.left;
    if l != Nil {
      FindMaxCorrect(l);
      assert exists k | k in Content(t) :: k < score by {
        assert l.data.score in Content(l);
      }
    } else {
      assert forall k | k in Content(t) :: score <= k;
    }
  }

  /** On a search tree `findSuccessor` gives null when no post has the score,
      otherwise the post with the least greater score, or null when the score
      is the greatest. */
  lemma SuccessorCorrect(t: Tree<Post>, score: int)
    requires IsBst(t)
    ensures score !in Content(t) ==> FindSuccessor(t, score) == None
    ensures score in Content(t) ==> IsNextAbove(Content(t), score, None, FindSuccessor(t, score))
  {
    SuccessorFromCorrect(t, score, None);
  }

  /** The mirror image for `findPredecessor`. */
  lemma PredecessorCorrect(t: Tree<Post>, score: int)
    requires IsBst(t)
    ensures score !in Content(t) ==> FindPredecessor(t, score) == None
    ensures score in Content(t) ==> IsNextBelow(Content(t), score, None, FindPredecessor(t, score))
  {
    PredecessorFromCorrect(t, score, None);
  }

  // ---------------------------------------------------------------------
  // deleteInRange
  // ---------------------------------------------------------------------

  /** The recursive `deleteInRange`: prune both subtrees first, then, when the
      node's score lies in `[minS, maxS]`, splice it out (at most one child)
      or replace its post by the least post of the pruned right subtree and
      delete that post's score from it. The flag says whether this call or a
      nested one deleted something; the public `deleteInRange` starts it at
      false and returns it. */
  function DeleteInRange(t: Tree<Post>, minS: int, maxS: int): (r: (Tree<Post>, bool))
    ensures Size(r.0) <= Size(t)
    decreases Size(t)
  {
    match t
    case Nil => (Nil, false)
    case Node(p, l, rt) =>
      var (l', dl) := DeleteInRange(l, minS, maxS);
      var (r', dr) := DeleteInRange(rt, minS, maxS);
      if minS <= p.score <= maxS then
        if l' == Nil then (r', true)
        else if r' == Nil then (l', true)
        else
          var m := FindMin(r').value;
          (Node(m, l', DeleteInRange(r', m.score, m.score).0), true)
      else (Node(p, l', r'), dl || dr)
  }

  /** The entries of `m` whose score lies outside `[minS, maxS]`. */
  function Outside(m: map<int, Post>, minS: int, maxS: int): (o: map<int, Post>)
    ensures forall k :: k in o <==> k in m && (k < minS || maxS < k)
  {
    map k | k in m && (k < minS || maxS < k) :: m[k]
  }

  /** On a search tree `deleteInRange` keeps the order, keeps exactly the
      posts whose score lies outside the range, and reports a deletion
      exactly when some score lay inside it. */
  lemma {:induction false} DeleteInRangeCorrect(t: Tree<Post>, minS: int, maxS: int)
    requires IsBst(t)
    ensures IsBst(DeleteInRange(t, minS, maxS).0)
    ensures Content(DeleteInRange(t, minS, maxS).0) == Outside(Content(t), minS, maxS)
    ensures DeleteInRange(t, minS, maxS).1 <==> exists k | k in Content(t) :: minS <= k <= maxS
    decreases Size(t), 2
  {
    match t
    case Nil =>
    case Node(p, l, rt) =>
      DeleteInRangeCorrect(l, minS, maxS);
      DeleteInRangeCorrect(rt, minS, maxS);
      var l', r' := DeleteInRange(l, minS, maxS).0, DeleteInRange(rt, minS, maxS).0;
      if minS <= p.score <= maxS {
        assert p.score in Content(t);
        if l' == Nil || r' == Nil {
          DeleteSplice(t, minS, maxS);
        } else {
          DeleteSuccessor(t, minS, maxS);
        }
      } else {
        DeleteKeep(t, minS, maxS);
      }
  }

  /** The facts the recursive calls establish for the two pruned subtrees. */
  ghost predicate PrunedChildren(t: Tree<Post>, minS: int, maxS: int)
    requires t.Node?
  {
    var l', r' := DeleteInRange(t.left, minS, maxS), DeleteInRange(t.right, minS, maxS);
    && IsBst(l'.0) && IsBst(r'.0)
    && Content(l'.0) == Outside(Content(t.left), minS, maxS)
    && Content(r'.0) == Outside(Content(t.right), minS, maxS)
    && (l'.1 <==> exists k | k in Content(t.left) :: minS <= k <= maxS)
    && (r'.1 <==> exists k | k in Content(t.right) :: minS <= k <= maxS)
  }

  /** A node outside the range stays, above its pruned subtrees. */
  lemma DeleteKeep(t: Tree<Post>, minS: int, maxS: int)
    requires IsBst(t) && t.Node? && !(minS <= t.data.score <= maxS)
    requires PrunedChildren(t, minS, maxS)
    ensures IsBst(DeleteInRange(t, minS, maxS).0)
    ensures Content(DeleteInRange(t, minS, maxS).0) == Outside(Content(t), minS, maxS)
    ensures DeleteInRange(t, minS, maxS).1 <==> exists k | k in Content(t) :: minS <= k <= maxS
  {
    var p, l, rt := t.data, t.left, t.right;
    BstRoot(t);
    var l', r' := DeleteInRange(l, minS, maxS).0, DeleteInRange(rt, minS, maxS).0;
    assert DeleteInRange(t, minS, maxS).0 == Node(p, l', r');
    assert IsBst(Node(p, l', r'));
    OutsideNode(Content(l), Content(rt), p, minS, maxS);
  }

  /** A node inside the range with at most one non-empty pruned subtree is
      replaced by that subtree. */
  lemma DeleteSplice(t: Tree<Post>, minS: int, maxS: int)
    requires IsBst(t) && t.Node? && minS <= t.data.score <= maxS
    requires PrunedChildren(t, minS, maxS)
    requires DeleteInRange(t.left, minS, maxS).0 == Nil || DeleteInRange(t.right, minS, maxS).0 == Nil
    ensures IsBst(DeleteInRange(t, minS, maxS).0)
    ensures Content(DeleteInRange(t, minS, maxS).0) == Outside(Content(t), minS, maxS)
    ensures DeleteInRange(t, minS, maxS).1
  {
    OutsideNode(Content(t.left), Content(t.right), t.data, minS, maxS);
  }

  /** The view of a node after pruning both subtrees. */
  lemma OutsideNode(ml: map<int, Post>, mr: map<int, Post>, p: Post, minS: int, maxS: int)
    ensures minS <= p.score <= maxS ==>
      Outside((ml + mr)[p.score := p], minS, maxS) == Outside(ml, minS, maxS) + Outside(mr, minS, maxS)
    ensures !(minS <= p.score <= maxS) ==>
      Outside((ml + mr)[p.score := p], minS, maxS) == (Outside(ml, minS, maxS) + Outside(mr, minS, maxS))[p.score := p]
  {
  }

  /** The two-children case: the least post of the pruned right subtree
      moves up and is deleted from that subtree. */
  lemma {:induction false} DeleteSuccessor(t: Tree<Post>, minS: int, maxS: int)
    requires IsBst(t) && t.Node? && minS <= t.data.score <= maxS
    requires PrunedChildren(t, minS, maxS)
    requires DeleteInRange(t.left, minS, maxS).0 != Nil && DeleteInRange(t.right, minS, maxS).0 != Nil
    ensures IsBst(DeleteInRange(t, minS, maxS).0)
    ensures Content(DeleteInRange(t, minS, maxS).0) == Outside(Content(t), minS, maxS)
    ensures DeleteInRange(t, minS, maxS).1
    decreases Size(t), 1
  {
    var l', r' := DeleteInRange(t.left, minS, maxS).0, DeleteInRange(t.right, minS, maxS).0;
    var m := FindMin(r').value;
    assert DeleteInRange(t, minS, maxS).0 == Node(m, l', DeleteInRange(r', m.score, m.score).0);
    assert Size(r') < Size(t);
    BstRoot(t);
    MoveUpMin(l', r', t.data.score);
    OutsideNode(Content(t.left), Content(t.right), t.data, minS, maxS);
  }

  /** Deleting the least score of a non-empty search tree removes exactly
      that post. */
  lemma DeleteMin(r: Tree<Post>)
    requires IsBst(r) && r != Nil
    ensures var m := FindMin(r).value;
      var r' := DeleteInRange(r, m.score, m.score).0;
      && m.score in Content(r) && Content(r)[m.score] == m
      && IsBst(r') && Content(r') == Content(r) - {m.score}
      && forall k | k in Content(r') :: m.score < k
    decreases Size(r), 3
  {
    var m := FindMin(r).value;
    FindMinCorrect(r);
    DeleteInRangeCorrect(r, m.score, m.score);
    assert Outside(Content(r), m.score, m.score) == Content(r) - {m.score};
  }

  /** Between a left and a right search tree separated by `pivot`, the least
      post of the right one can take the root when it is deleted from there. */
  lemma MoveUpMin(l: Tree<Post>, r: Tree<Post>, pivot: int)
    requires IsBst(l) && IsBst(r) && r != Nil
    requires forall k | k in Content(l) :: k < pivot
    requires forall k | k in Content(r) :: pivot < k
    ensures var m := FindMin(r).value;
      var t := Node(m, l, DeleteInRange(r, m.score, m.score).0);
      IsBst(t) && Content(t) == Content(l) + Content(r)
    decreases Size(r) + 1, 0
  {
    var m := FindMin(r).value;
    var r' := DeleteInRange(r, m.score, m.score).0;
    var cl, cr := Content(l), Content(r);
    DeleteMin(r);
    assert IsBst(Node(m, l, r')) by {
      assert forall k | k in cl :: k < m.score;
    }
    assert Content(Node(m, l, r')) == cl + cr by {
      ReinsertUnion(cl, cr, m.score);
    }
  }

  // ---------------------------------------------------------------------
  // The driver
  // ---------------------------------------------------------------------

  function InsertAll(t: Tree<Post>, s: seq<Post>): Tree<Post>
    decreases |s|
  {
    if s == [] then t else InsertAll(Insert(t, s[0]), s[1..])
  }

  /** The driver's five posts. */
  function DemoPosts(): seq<Post>
  {
    [Post(1, "Alice", 1500), Post(2, "Bob", 5000), Post(3, "Charlie", 800),
     Post(4, "David", 3000), Post(5, "Eve", 2000)]
  }

  /** The index the driver builds: Alice (1500) at the root, Charlie (800)
      to its left, Bob (5000) to its right with David (3000) and then Eve
      (2000) below him on the left. */
  function DemoIndex(): Tree<Post>
  {
    Node(Post(1, "Alice", 1500),
      Node(Post(3, "Charlie", 800), Nil, Nil),
      Node(Post(2, "Bob", 5000), Node(Post(4, "David", 3000), Node(Post(5, "Eve", 2000), Nil, Nil), Nil), Nil))
  }

  lemma DemoBuild()
    ensures InsertAll(Nil, DemoPosts()) == DemoIndex()
  {
    var s := DemoPosts();
    var t1 := Insert(Nil, s[0]);
    var t2 := Insert(t1, s[1]);
    var t3 := Insert(t2, s[2]);
    var t4 := Insert(t3, s[3]);
    assert InsertAll(Nil, s) == InsertAll(t1, s[1..]);
    assert InsertAll(t1, s[1..]) == InsertAll(t2, s[2..]);
    assert InsertAll(t2, s[2..]) == InsertAll(t3, s[3..]);
    assert InsertAll(t3, s[3..]) == InsertAll(t4, s[4..]);
    assert InsertAll(t4, s[4..]) == InsertAll(Insert(t4, s[4]), s[5..]);
    assert s[5..] == [];
  }

  /** On the driver's index: minimum 800, maximum 5000, and 6500 as the sum
      of the scores in [1000, 4000]. */
  lemma DemoExtremes()
    ensures var t := DemoIndex();
      && FindMin(t) == Some(Post(3, "Charlie", 800))
      && FindMax(t) == Some(Post(2, "Bob", 5000))
      && SumInRange(t, 1000, 4000) == 6500
  {
    var t := DemoIndex();
    assert SumInRange(t.right, 1000, 4000) == 5000;
  }

  /** The driver's top three: 5000, 3000, 2000. */
  lemma DemoTopK()
    ensures GetTopK(DemoIndex(), 3)
      == [Post(2, "Bob", 5000), Post(4, "David", 3000), Post(5, "Eve", 2000)]
  {
    var t := DemoIndex();
    var b, d, e := t.right.data, t.right.left.data, t.right.left.left.data;
    assert [] + [b] == [b] && [b] + [d] == [b, d] && [b, d] + [e] == [b, d, e];
    assert ReverseInorder(t.right.left.left, [b, d], 3) == [b, d, e];
    assert ReverseInorder(t.right.left, [b], 3) == [b, d, e];
    assert ReverseInorder(t.right, [], 3) == [b, d, e];
  }

  /** Around 2000 in the driver's index: successor 3000, predecessor 1500. */
  lemma DemoNeighbours()
    ensures var t := DemoIndex();
      && FindSuccessor(t, 2000) == Some(Post(4, "David", 3000))
      && FindPredecessor(t, 2000) == Some(Post(1, "Alice", 1500))
  {
  }

  /** Deleting [1500, 3000] from the driver's index leaves Charlie (800) and
      Bob (5000) and reports a deletion. */
  lemma DemoDelete()
    ensures var t := DemoIndex();
      && Inorder(DeleteInRange(t, 1500, 3000).0) == [Post(3, "Charlie", 800), Post(2, "Bob", 5000)]
      && DeleteInRange(t, 1500, 3000).1
  {
    var t := DemoIndex();
    assert DeleteInRange(t.right.left, 1500, 3000).0 == Nil;
    assert DeleteInRange(t.right, 1500, 3000).0 == Node(t.right.data, Nil, Nil);
    assert DeleteInRange(t, 1500, 3000).0 == Node(t.right.data, t.left, Nil);
  }
}
