/** Plain binary-search-tree insertion (no rotations) and the recursive
    height-balance check of avl.cpp. */
module Avl {
  import opened BinaryTree

  /** The stored values, with multiplicity. */
  function Values(t: Tree<int>): multiset<int>
  {
    match t
    case Nil => multiset{}
    case Node(v, l, r) => Values(l) + multiset{v} + Values(r)
  }

  /** Search-tree order with duplicates kept to the right:
      everything left of a node is smaller, everything right is at least as large. */
  predicate IsBst(t: Tree<int>)
  {
    match t
    case Nil => true
    case Node(v, l, r) =>
      IsBst(l) && IsBst(r)
      && (forall x | x in Values(l) :: x < v)
      && (forall x | x in Values(r) :: v <= x)
  }

  /** AVL balance: at every node the heights of the two subtrees differ by at most one. */
  predicate Balanced(t: Tree<int>)
  {
    match t
    case Nil => true
    case Node(_, l, r) => -1 <= Height(l) - Height(r) <= 1 && Balanced(l) && Balanced(r)
  }

  /** `insert`: descend left on a smaller value, right otherwise, and hang a new leaf. */
  function Insert(t: Tree<int>, val: int): Tree<int>
  {
    match t
    case Nil => Node(val, Nil, Nil)
    case Node(v, l, rt) =>
      if val < v then Node(v, Insert(l, val), rt) else Node(v, l, Insert(rt, val))
  }

  /** Insertion adds exactly one node. */
  lemma {:induction false} InsertSize(t: Tree<int>, val: int)
    ensures Size(Insert(t, val)) == Size(t) + 1
  {
    match t
    case Nil =>
    case Node(v, l, rt) =>
      if val < v {
        InsertSize(l, val);
      } else {
        InsertSize(rt, val);
      }
  }

  /** Insertion adds exactly one occurrence of the value and keeps all others. */
  lemma {:induction false} InsertValues(t: Tree<int>, val: int)
    ensures Values(Insert(t, val)) == Values(t) + multiset{val}
  {
    match t
    case Nil =>
    case Node(v, l, rt) =>
      if val < v {
        InsertValues(l, val);
      } else {
        InsertValues(rt, val);
      }
  }

  /** Insertion keeps the search-tree order (duplicates go right). */
  lemma {:induction false} InsertKeepsBst(t: Tree<int>, val: int)
    requires IsBst(t)
    ensures IsBst(Insert(t, val))
  {
    match t
    case Nil =>
    case Node(v, l, rt) =>
      if val < v {
        var l' := Insert(l, val);
        InsertKeepsBst(l, val);
        InsertValues(l, val);
        assert forall x | x in Values(l') :: x < v by {
          forall x | x in Values(l') ensures x < v {
            assert x in Values(l) || x == val;
          }
        }
        assert Insert(t, val) == Node(v, l', rt);
      } else {
        var r' := Insert(rt, val);
        InsertKeepsBst(rt, val);
        InsertValues(rt, val);
        assert forall x | x in Values(r') :: v <= x by {
          forall x | x in Values(r') ensures v <= x {
            assert x in Values(rt) || x == val;
          }
        }
        assert Insert(t, val) == Node(v, l, r');
      }
  }

  /** `checkHeight`: returns the height of `t` and the threaded flag, which is
      cleared at any node whose subtree heights differ by more than one and is
      never set again. */
  function CheckHeight(t: Tree<int>, isBalanced: bool): (r: (int, bool))
    ensures r.0 == Height(t)
    ensures r.1 == (isBalanced && Balanced(t))
  {
    match t
    case Nil => (0, isBalanced)
    case Node(_, l, rt) =>
      var left := CheckHeight(l, isBalanced);
      var right := CheckHeight(rt, left.1);
      var flag := if left.0 - right.0 > 1 || right.0 - left.0 > 1 then false else right.1;
      ((if left.0 < right.0 then right.0 else left.0) + 1, flag)
  }

  /** `isAVL`: the check started with the flag set. */
  function IsAvl(t: Tree<int>): (b: bool)
    ensures b <==> Balanced(t)
  {
    CheckHeight(t, true).1
  }

  /** The tree the demo builds: the values inserted one after another into an empty tree. */
  function InsertAll(vals: seq<int>): Tree<int>
  {
    if vals == [] then Nil
    else Insert(InsertAll(vals[..|vals| - 1]), vals[|vals| - 1])
  }

  /** Building by repeated insertion yields a search tree holding exactly the inserted values. */
  lemma {:induction false} InsertAllCorrect(vals: seq<int>)
    ensures IsBst(InsertAll(vals)) && Size(InsertAll(vals)) == |vals|
    ensures Values(InsertAll(vals)) == multiset(vals)
  {
    if vals != [] {
      var init, last := vals[..|vals| - 1], vals[|vals| - 1];
      assert vals == init + [last];
      assert InsertAll(vals) == Insert(InsertAll(init), last);
      InsertAllCorrect(init);
      InsertSize(InsertAll(init), last);
      InsertKeepsBst(InsertAll(init), last);
      InsertValues(InsertAll(init), last);
    }
  }

  /** Inserting without rotations can unbalance the tree: the demo sequence
      yields a right subtree three levels deep beside a left subtree of one. */
  lemma DemoNotAvl()
    ensures !IsAvl(InsertAll([50, 30, 70, 60, 80, 90]))
  {
    var t := DemoTree();
    assert Height(t.left) == 1 && Height(t.right) == 3;
  }

  /** The shape the demo sequence produces. */
  lemma DemoTree() returns (t6: Tree<int>)
    ensures InsertAll([50, 30, 70, 60, 80, 90]) == t6
    ensures t6.Node? && Height(t6.left) == 1 && Height(t6.right) == 3
  {
    var t3 := DemoFirstThree();
    var t4 := t3.(right := Node(70, Node(60, Nil, Nil), Nil));
    assert InsertAll([50, 30, 70, 60]) == Insert(t3, 60) == t4 by { assert [50, 30, 70, 60][..3] == [50, 30, 70]; }
    var t5 := t3.(right := Node(70, Node(60, Nil, Nil), Node(80, Nil, Nil)));
    assert InsertAll([50, 30, 70, 60, 80]) == Insert(t4, 80) == t5 by { assert [50, 30, 70, 60, 80][..4] == [50, 30, 70, 60]; }
    t6 := t3.(right := Node(70, Node(60, Nil, Nil), Node(80, Nil, Node(90, Nil, Nil))));
    assert InsertAll([50, 30, 70, 60, 80, 90]) == Insert(t5, 90) == t6 by { assert [50, 30, 70, 60, 80, 90][..5] == [50, 30, 70, 60, 80]; }
    assert Height(t6.right) == 3;
  }

  /** The demo tree after 50, 30 and 70: a root with one child on each side. */
  lemma DemoFirstThree() returns (t3: Tree<int>)
    ensures InsertAll([50, 30, 70]) == t3 == Node(50, Node(30, Nil, Nil), Node(70, Nil, Nil))
  {
    var t1 := Node(50, Nil, Nil);
    assert InsertAll([50]) == t1 by { assert [50][..0] == []; }
    var t2 := Node(50, Node(30, Nil, Nil), Nil);
    assert InsertAll([50, 30]) == Insert(t1, 30) == t2 by { assert [50, 30][..1] == [50]; }
    t3 := t2.(right := Node(70, Nil, Nil));
    assert InsertAll([50, 30, 70]) == Insert(t2, 70) == t3 by { assert [50, 30, 70][..2] == [50, 30]; }
  }
}
