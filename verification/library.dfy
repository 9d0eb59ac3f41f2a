/** The ISBN-keyed book catalog of bts_library.cpp: an unbalanced binary
    search tree of books whose insert merges copies, with deletion, lookup,
    shape statistics, a range lowest-common-ancestor query, a copies-in-range
    sum and a merge of two catalogs. */
module Library {
  import opened Common
  import opened BinaryTree
  import opened MapFacts

  /** A catalog record. Books compare by ISBN only. */
  datatype Book = Book(
    isbn: int,
    title: string,
    author: string,
    publicationYear: int,
    copies: int,
    isRareEdition: bool,
    category: string)

  /** Strict search-tree order on ISBN. */
  predicate IsBst(t: Tree<Book>)
  {
    match t
    case Nil => true
    case Node(b, l, r) =>
      && IsBst(l) && IsBst(r)
      && (forall k | k in Content(l) :: k < b.isbn)
      && (forall k | k in Content(r) :: b.isbn < k)
  }

  /** The catalog as a map from ISBN to the book stored under it. */
  function Content(t: Tree<Book>): map<int, Book>
  {
    match t
    case Nil => map[]
    case Node(b, l, r) => (Content(l) + Content(r))[b.isbn := b]
  }

  /** What inserting `data` stores under its ISBN: the book itself when the
      ISBN is new, otherwise the stored book with the incoming copies added. */
  function Merged(m: map<int, Book>, data: Book): Book
  {
    if data.isbn in m then m[data.isbn].(copies := m[data.isbn].copies + data.copies) else data
  }

  // ---------------------------------------------------------------------
  // insert / remove / search
  // ---------------------------------------------------------------------

  /** `insertRec` and `insert`: descend by ISBN; on an equal ISBN add the
      incoming copies to the stored book, otherwise hang a new leaf. The flag
      is `insertedNew`. */
  function Insert(t: Tree<Book>, data: Book): (r: (Tree<Book>, bool))
    ensures Content(r.0).Keys == Content(t).Keys + {data.isbn}
    ensures Size(r.0) == Size(t) + if r.1 then 1 else 0
  {
    match t
    case Nil => (Node(data, Nil, Nil), true)
    case Node(b, l, rt) =>
      if data.isbn < b.isbn then
        var (l', f) := Insert(l, data); (Node(b, l', rt), f)
      else if data.isbn > b.isbn then
        var (r', f) := Insert(rt, data); (Node(b, l, r'), f)
      else (Node(b.(copies := b.copies + data.copies), l, rt), false)
  }

  /** `findMin`: the leftmost node's book. */
  function FindMin(t: Tree<Book>): Book
    requires t != Nil
  {
    if t.left == Nil then t.data else FindMin(t.left)
  }

  /** `removeRec` and `remove`: standard deletion. A node with at most one
      child is spliced out; a node with two children takes its in-order
      successor's book, and the successor is removed from the right subtree.
      The flag is `removed`. */
  function Remove(t: Tree<Book>, isbn: int): (r: (Tree<Book>, bool))
  {
    match t
    case Nil => (Nil, false)
    case Node(b, l, rt) =>
      if isbn < b.isbn then
        var (l', f) := Remove(l, isbn); (Node(b, l', rt), f)
      else if isbn > b.isbn then
        var (r', f) := Remove(rt, isbn); (Node(b, l, r'), f)
      else if l == Nil then (rt, true)
      else if rt == Nil then (l, true)
      else
        var s := FindMin(rt);
        (Node(s, l, Remove(rt, s.isbn).0), true)
  }

  /** `searchRec` and `search`: the book with an equal ISBN, if the descent meets one. */
  function Search(t: Tree<Book>, isbn: int): Option<Book>
  {
    match t
    case Nil => None
    case Node(b, l, r) =>
      if isbn == b.isbn then Some(b)
      else if isbn < b.isbn then Search(l, isbn)
      else Search(r, isbn)
  }

  lemma BstRootUnique(t: Tree<Book>)
    requires IsBst(t) && t.Node?
    ensures t.data.isbn !in Content(t.left) && t.data.isbn !in Content(t.right)
    ensures Content(t.left).Keys !! Content(t.right).Keys
    ensures forall k :: k in Content(t) <==> k == t.data.isbn || k in Content(t.left) || k in Content(t.right)
  {
    forall k | k in Content(t.left) ensures k !in Content(t.right) {
    }
  }

  /** `insert` on a search tree keeps the order, reports a new node exactly
      when the ISBN was absent, and changes the catalog only at that ISBN: a
      new book, or the stored one with its copies increased. */
  lemma {:induction false} InsertCorrect(t: Tree<Book>, data: Book)
    requires IsBst(t)
    ensures IsBst(Insert(t, data).0)
    ensures Insert(t, data).1 <==> data.isbn !in Content(t)
    ensures Content(Insert(t, data).0) == Content(t)[data.isbn := Merged(Content(t), data)]
  {
    match t
    case Nil =>
    case Node(b, l, rt) =>
      BstRootUnique(t);
      var ml, mr := Content(l), Content(rt);
      var k := data.isbn;
      if k < b.isbn {
        InsertCorrect(l, data);
        assert k !in mr;
        MergedLeft(ml, mr, b, data);
      } else if k > b.isbn {
        InsertCorrect(rt, data);
        assert k !in ml;
        MergedRight(ml, mr, b, data);
      }
  }

  /** Map algebra for an insert into the left subtree. */
  lemma MergedLeft(ml: map<int, Book>, mr: map<int, Book>, b: Book, data: Book)
    requires data.isbn != b.isbn && data.isbn !in mr
    ensures var m := (ml + mr)[b.isbn := b];
      && Merged(m, data) == Merged(ml, data)
      && (ml[data.isbn := Merged(ml, data)] + mr)[b.isbn := b] == m[data.isbn := Merged(ml, data)]
  {
    var k, v := data.isbn, Merged(ml, data);
    UpdateUnionLeft(ml, mr, k, v);
    UpdateCommute(ml + mr, k, v, b.isbn, b);
  }

  /** Map algebra for an insert into the right subtree. */
  lemma MergedRight(ml: map<int, Book>, mr: map<int, Book>, b: Book, data: Book)
    requires data.isbn != b.isbn && data.isbn !in ml
    ensures var m := (ml + mr)[b.isbn := b];
      && Merged(m, data) == Merged(mr, data)
      && (ml + mr[data.isbn := Merged(mr, data)])[b.isbn := b] == m[data.isbn := Merged(mr, data)]
  {
    var k, v := data.isbn, Merged(mr, data);
    UpdateUnionRight(ml, mr, k, v);
    UpdateCommute(ml + mr, k, v, b.isbn, b);
  }

  /** `search` on a search tree finds exactly the stored book. */
  lemma {:induction false} SearchCorrect(t: Tree<Book>, isbn: int)
    requires IsBst(t)
    ensures Search(t, isbn).Some? <==> isbn in Content(t)
    ensures Search(t, isbn).Some? ==> Search(t, isbn).value == Content(t)[isbn]
  {
    match t
    case Nil =>
    case Node(b, l, rt) =>
      BstRootUnique(t);
      if isbn < b.isbn {
        SearchCorrect(l, isbn);
      } else if isbn > b.isbn {
        SearchCorrect(rt, isbn);
      }
  }

  /** The leftmost book of a search tree has its smallest ISBN. */
  lemma {:induction false} FindMinIsMin(t: Tree<Book>)
    requires IsBst(t) && t != Nil
    ensures FindMin(t).isbn in Content(t) && Content(t)[FindMin(t).isbn] == FindMin(t)
    ensures forall k | k in Content(t) :: FindMin(t).isbn <= k
  {
    BstRootUnique(t);
    if t.left != Nil {
      FindMinIsMin(t.left);
    }
  }

  /** `remove` on a search tree keeps the order, reports success exactly when
      the ISBN was present, removes that ISBN and keeps every other book. */
  lemma {:induction false} RemoveCorrect(t: Tree<Book>, isbn: int)
    requires IsBst(t)
    ensures IsBst(Remove(t, isbn).0)
    ensures Remove(t, isbn).1 <==> isbn in Content(t)
    ensures Content(Remove(t, isbn).0) == Content(t) - {isbn}
    ensures Size(Remove(t, isbn).0) == Size(t) - if Remove(t, isbn).1 then 1 else 0
    decreases t
  {
    match t
    case Nil =>
    case Node(b, l, rt) =>
      BstRootUnique(t);
      var ml, mr := Content(l), Content(rt);
      if isbn < b.isbn {
        RemoveCorrect(l, isbn);
        RemoveUnionLeft(ml, mr, isbn);
        RemoveUpdateCommute(ml + mr, b.isbn, b, isbn);
      } else if isbn > b.isbn {
        RemoveCorrect(rt, isbn);
        RemoveUnionRight(ml, mr, isbn);
        RemoveUpdateCommute(ml + mr, b.isbn, b, isbn);
      } else {
        UpdateRemoveSame(ml + mr, b.isbn, b);
        if l != Nil && rt != Nil {
          RemoveTwoChildren(t);
        }
      }
  }

  /** The two-children case: the in-order successor's book moves up. */
  lemma {:induction false} RemoveTwoChildren(t: Tree<Book>)
    requires IsBst(t) && t.Node? && t.left != Nil && t.right != Nil
    ensures var s := FindMin(t.right);
      && IsBst(Node(s, t.left, Remove(t.right, s.isbn).0))
      && Content(Node(s, t.left, Remove(t.right, s.isbn).0)) == Content(t.left) + Content(t.right)
      && Size(Remove(t.right, s.isbn).0) == Size(t.right) - 1
    decreases t, 0
  {
    var l, rt := t.left, t.right;
    var s := FindMin(rt);
    FindMinIsMin(rt);
    RemoveCorrect(rt, s.isbn);
    ReinsertUnion(Content(l), Content(rt), s.isbn);
  }

  /** Remove after insert of a new ISBN gives the catalog back. */
  lemma InsertThenRemove(t: Tree<Book>, data: Book)
    requires IsBst(t) && data.isbn !in Content(t)
    ensures Content(Remove(Insert(t, data).0, data.isbn).0) == Content(t)
    ensures Remove(Insert(t, data).0, data.isbn).1
  {
    InsertCorrect(t, data);
    RemoveCorrect(Insert(t, data).0, data.isbn);
    UpdateRemoveSame(Content(t), data.isbn, data);
  }

  // ---------------------------------------------------------------------
  // Shape statistics
  // ---------------------------------------------------------------------

  /** `countNodesRec` and `totalUniqueBooks`: on a search tree, the number of distinct ISBNs. */
  function CountNodes(t: Tree<Book>): (n: nat)
    ensures n == Size(t)
  {
    match t
    case Nil => 0
    case Node(_, l, r) => 1 + CountNodes(l) + CountNodes(r)
  }

  lemma {:induction false} UniqueBooks(t: Tree<Book>)
    requires IsBst(t)
    ensures CountNodes(t) == |Content(t)|
  {
    match t
    case Nil =>
    case Node(b, l, r) =>
      UniqueBooks(l);
      UniqueBooks(r);
      BstRootUnique(t);
      DisjointUpdateCard(Content(l), Content(r), b.isbn, b);
  }

  /** `countLeavesRec` and `countLeafNodes`: nodes without children. */
  function CountLeaves(t: Tree<Book>): nat
  {
    match t
    case Nil => 0
    case Node(_, l, r) => if l == Nil && r == Nil then 1 else CountLeaves(l) + CountLeaves(r)
  }

  /** `maxDepthRec` and `maxDepth`: nodes on a longest root-to-leaf path. */
  function MaxDepth(t: Tree<Book>): (d: nat)
    ensures d == Height(t)
  {
    match t
    case Nil => 0
    case Node(_, l, r) =>
      var a, b := MaxDepth(l), MaxDepth(r);
      1 + if a < b then b else a
  }

  /** The subtree reached from the root by following `path`, where `false`
      steps left and `true` steps right; Nil once the walk leaves the tree. */
  function Reach(t: Tree<Book>, path: seq<bool>): Tree<Book>
    decreases |path|
  {
    if path == [] || t == Nil then t
    else Reach(if path[0] then t.right else t.left, path[1..])
  }

  /** The depth counts the nodes on a longest root-to-leaf path: no walk of
      `MaxDepth(t)` or more steps from the root reaches a node, and a walk of
      `MaxDepth(t) - 1` steps ends at a leaf of a non-empty catalog. */
  lemma {:induction false} MaxDepthLongestPath(t: Tree<Book>)
    ensures forall path | Reach(t, path) != Nil :: |path| < MaxDepth(t)
    ensures t != Nil ==> exists path :: (|path| == MaxDepth(t) - 1 && Reach(t, path).Node?
      && Reach(t, path).left == Nil && Reach(t, path).right == Nil)
  {
    match t
    case Nil =>
    case Node(_, l, r) =>
      MaxDepthLongestPath(l);
      MaxDepthLongestPath(r);
      forall path | Reach(t, path) != Nil ensures |path| < MaxDepth(t) {
        if path != [] {
          assert Reach(if path[0] then r else l, path[1..]) != Nil;
        }
      }
      var deep := if MaxDepth(l) < MaxDepth(r) then r else l;
      if deep == Nil {
        assert Reach(t, []) == t;
      } else {
        var dir := MaxDepth(l) < MaxDepth(r);
        var p :| |p| == MaxDepth(deep) - 1 && Reach(deep, p).Node?
          && Reach(deep, p).left == Nil && Reach(deep, p).right == Nil;
        assert ([dir] + p)[1..] == p;
        assert Reach(t, [dir] + p) == Reach(deep, p);
      }
  }

  /** A non-empty catalog has a leaf, and at most half of its nodes (rounded
      up) are leaves; the depth lies between one and the node count. */
  lemma {:induction false} ShapeBounds(t: Tree<Book>)
    ensures 2 * CountLeaves(t) <= CountNodes(t) + 1
    ensures CountLeaves(t) <= CountNodes(t) && MaxDepth(t) <= CountNodes(t)
    ensures t != Nil ==> 1 <= CountLeaves(t) && 1 <= MaxDepth(t)
  {
    match t
    case Nil =>
    case Node(_, l, r) =>
      ShapeBounds(l);
      ShapeBounds(r);
  }

  // ---------------------------------------------------------------------
  // findLCA
  // ---------------------------------------------------------------------

  /** `findLCARec`: walk down while both ISBNs lie on one side of the node;
      return the subtree at the split point (Nil for a null pointer). */
  function FindLcaRec(t: Tree<Book>, isbn1: int, isbn2: int): Tree<Book>
  {
    match t
    case Nil => Nil
    case Node(b, l, r) =>
      if b.isbn > isbn1 && b.isbn > isbn2 then FindLcaRec(l, isbn1, isbn2)
      else if b.isbn < isbn1 && b.isbn < isbn2 then FindLcaRec(r, isbn1, isbn2)
      else t
  }

  /** `findLCA`: order the two ISBNs, then walk. */
  function FindLca(t: Tree<Book>, isbn1: int, isbn2: int): Option<Book>
  {
    if t == Nil then None
    else
      var lo := if isbn1 > isbn2 then isbn2 else isbn1;
      var hi := if isbn1 > isbn2 then isbn1 else isbn2;
      var s := FindLcaRec(t, lo, hi);
      if s == Nil then None else Some(s.data)
  }

  /** `findLCA`: an empty catalog has none. Otherwise, with the two ISBNs
      put in order, there is none exactly when no stored ISBN lies between
      them; a found book lies between them, and it is the root of a subtree
      of the catalog that holds every stored ISBN between them. */
  lemma FindLcaCorrect(t: Tree<Book>, isbn1: int, isbn2: int)
    requires IsBst(t)
    ensures var lo := if isbn1 > isbn2 then isbn2 else isbn1;
      var hi := if isbn1 > isbn2 then isbn1 else isbn2;
      var r := FindLca(t, isbn1, isbn2);
      && (t == Nil ==> r.None?)
      && (r.None? <==> NoneBetween(t, lo, hi))
      && (r.Some? ==>
            && lo <= r.value.isbn <= hi
            && exists s :: (IsSubtree(s, t) && s.Node? && s.data == r.value
                 && forall k | k in Content(t) && lo <= k <= hi :: k in Content(s)))
  {
    var lo := if isbn1 > isbn2 then isbn2 else isbn1;
    var hi := if isbn1 > isbn2 then isbn1 else isbn2;
    FindLcaRecCorrect(t, lo, hi);
    var s := FindLcaRec(t, lo, hi);
    var r := FindLca(t, isbn1, isbn2);
    if t == Nil {
      assert Content(t) == map[];
    } else {
      assert r == if s == Nil then None else Some(s.data);
    }
    assert s == Nil ==> NoneBetween(t, lo, hi);
    assert NoneBetween(t, lo, hi) ==> s == Nil;
  }

  /** No stored ISBN lies in `[lo, hi]`. */
  ghost predicate NoneBetween(t: Tree<Book>, lo: int, hi: int)
  {
    forall k | k in Content(t) :: k < lo || hi < k
  }

  /** `s` is `t` or a subtree of it. */
  predicate IsSubtree(s: Tree<Book>, t: Tree<Book>)
  {
    s == t || (t.Node? && (IsSubtree(s, t.left) || IsSubtree(s, t.right)))
  }

  /** On a search tree the walk stops at the highest node whose ISBN lies in
      `[lo, hi]`: its subtree holds every stored ISBN of the range (so it is
      the lowest common ancestor of any two of them), and it is null exactly
      when no ISBN of the range is stored. */
  lemma {:induction false} FindLcaRecCorrect(t: Tree<Book>, lo: int, hi: int)
    requires IsBst(t) && lo <= hi
    ensures LcaSpec(t, lo, hi, FindLcaRec(t, lo, hi))
  {
    match t
    case Nil =>
    case Node(b, l, r) =>
      if b.isbn > lo && b.isbn > hi {
        FindLcaRecCorrect(l, lo, hi);
        LcaViaLeft(t, lo, hi, FindLcaRec(l, lo, hi));
      } else if b.isbn < lo && b.isbn < hi {
        FindLcaRecCorrect(r, lo, hi);
        LcaViaRight(t, lo, hi, FindLcaRec(r, lo, hi));
      } else {
        BstRootUnique(t);
        assert b.isbn in Content(t);
      }
  }

  /** `s` is a subtree of `t` rooted at the highest node whose ISBN lies in
      `[lo, hi]`: it holds every stored ISBN of the range, and it is null
      exactly when no ISBN of the range is stored. */
  ghost predicate LcaSpec(t: Tree<Book>, lo: int, hi: int, s: Tree<Book>)
  {
    && IsSubtree(s, t)
    && (s == Nil <==> NoneBetween(t, lo, hi))
    && (s != Nil ==> lo <= s.data.isbn <= hi)
    && (forall k | k in Content(t) && lo <= k <= hi :: k in Content(s))
  }

  /** A range wholly left of the root is answered by the left subtree. */
  lemma LcaViaLeft(t: Tree<Book>, lo: int, hi: int, s: Tree<Book>)
    requires IsBst(t) && t.Node? && t.data.isbn > hi && lo <= hi
    requires LcaSpec(t.left, lo, hi, s)
    ensures LcaSpec(t, lo, hi, s)
  {
    BstRootUnique(t);
    var b, r := t.data, t.right;
    if s == Nil {
      forall k | k in Content(t) ensures k < lo || hi < k {
        if k in Content(r) {
          assert b.isbn < k;
        }
      }
    } else {
      assert !(forall k | k in Content(t.left) :: k < lo || hi < k);
      assert !(forall k | k in Content(t) :: k < lo || hi < k);
    }
  }

  /** A range wholly right of the root is answered by the right subtree. */
  lemma LcaViaRight(t: Tree<Book>, lo: int, hi: int, s: Tree<Book>)
    requires IsBst(t) && t.Node? && t.data.isbn < lo && lo <= hi
    requires LcaSpec(t.right, lo, hi, s)
    ensures LcaSpec(t, lo, hi, s)
  {
    BstRootUnique(t);
    assert forall k | k in Content(t.left) :: k < lo;
    assert NoneBetween(t.right, lo, hi) ==> NoneBetween(t, lo, hi);
  }

  // ---------------------------------------------------------------------
  // countCopiesInRange
  // ---------------------------------------------------------------------

  /** `countCopiesRangeRec`: the node's copies when its ISBN is in range, plus
      the left subtree only if the node's ISBN exceeds `low`, plus the right
      subtree only if it is below `high`. */
  function CountCopiesRangeRec(t: Tree<Book>, low: int, high: int): int
  {
    match t
    case Nil => 0
    case Node(b, l, r) =>
      (if low <= b.isbn <= high then b.copies else 0)
      + (if b.isbn > low then CountCopiesRangeRec(l, low, high) else 0)
      + (if b.isbn < high then CountCopiesRangeRec(r, low, high) else 0)
  }

  /** `countCopiesInRange`: order the bounds, then sum. */
  function CountCopiesInRange(t: Tree<Book>, lowIsbn: int, highIsbn: int): int
  {
    if lowIsbn > highIsbn then CountCopiesRangeRec(t, highIsbn, lowIsbn)
    else CountCopiesRangeRec(t, lowIsbn, highIsbn)
  }

  /** The copies of the listed books whose ISBN lies in `[low, high]`. */
  function CopiesIn(s: seq<Book>, low: int, high: int): int
  {
    if s == [] then 0
    else (if low <= s[0].isbn <= high then s[0].copies else 0) + CopiesIn(s[1..], low, high)
  }

  lemma {:induction false} CopiesInConcat(a: seq<Book>, b: seq<Book>, low: int, high: int)
    ensures CopiesIn(a + b, low, high) == CopiesIn(a, low, high) + CopiesIn(b, low, high)
    decreases |a|
  {
    if a == [] {
      assert a + b == b;
    } else {
      CopiesInConcat(a[1..], b, low, high);
      assert (a + b)[1..] == a[1..] + b;
    }
  }

  lemma {:induction false} CopiesInOutside(s: seq<Book>, low: int, high: int)
    requires forall i | 0 <= i < |s| :: s[i].isbn < low || high < s[i].isbn
    ensures CopiesIn(s, low, high) == 0
    decreases |s|
  {
    if s != [] {
      CopiesInOutside(s[1..], low, high);
    }
  }

  lemma {:induction false} InorderIsbns(t: Tree<Book>)
    ensures forall i | 0 <= i < |Inorder(t)| :: Inorder(t)[i].isbn in Content(t)
  {
    match t
    case Nil =>
    case Node(b, l, r) =>
      InorderIsbns(l);
      InorderIsbns(r);
      var sl, sr := Inorder(l), Inorder(r);
      forall i | 0 <= i < |Inorder(t)| ensures Inorder(t)[i].isbn in Content(t) {
        if i < |sl| {
          assert Inorder(t)[i] == sl[i];
        } else if i > |sl| {
          assert Inorder(t)[i] == sr[i - |sl| - 1];
        }
      }
  }

  /** On a search tree the pruned sum equals the sum of copies over all
      books whose ISBN lies in `[low, high]`: the pruning never skips one. */
  lemma {:induction false} CountCopiesRangeCorrect(t: Tree<Book>, low: int, high: int)
    requires IsBst(t)
    ensures CountCopiesRangeRec(t, low, high) == CopiesIn(Inorder(t), low, high)
  {
    match t
    case Nil =>
    case Node(b, l, r) =>
      CountCopiesRangeCorrect(l, low, high);
      CountCopiesRangeCorrect(r, low, high);
      var sl, sr := Inorder(l), Inorder(r);
      CopiesInConcat(sl + [b], sr, low, high);
      CopiesInConcat(sl, [b], low, high);
      assert CopiesIn([b], low, high) == if low <= b.isbn <= high then b.copies else 0 by {
        assert [b][1..] == [];
      }
      if b.isbn <= low {
        InorderIsbns(l);
        CopiesInOutside(sl, low, high);
      }
      if b.isbn >= high {
        InorderIsbns(r);
        CopiesInOutside(sr, low, high);
      }
  }

  /** `countCopiesInRange` sums the copies of every book whose ISBN lies
      between the two bounds, in either order. */
  lemma CountCopiesInRangeCorrect(t: Tree<Book>, a: int, b: int)
    requires IsBst(t)
    ensures CountCopiesInRange(t, a, b)
      == CopiesIn(Inorder(t), if a < b then a else b, if a < b then b else a)
  {
    if a > b {
      CountCopiesRangeCorrect(t, b, a);
    } else {
      CountCopiesRangeCorrect(t, a, b);
    }
  }

  // ---------------------------------------------------------------------
  // mergeFrom
  // ---------------------------------------------------------------------

  /** Inserts the books of `s` one after another. */
  function InsertAll(t: Tree<Book>, s: seq<Book>): Tree<Book>
    decreases |s|
  {
    if s == [] then t else InsertAll(Insert(t, s[0]).0, s[1..])
  }

  /** `mergeFrom`: insert every book of `other`, in in-order, into `t`;
      `other` itself is a value and stays as it was. */
  function MergeFrom(t: Tree<Book>, other: Tree<Book>): Tree<Book>
  {
    InsertAll(t, Inorder(other))
  }

  /** The ISBN-indexed view of a list of books (the first occurrence wins). */
  function ListContent(s: seq<Book>): map<int, Book>
  {
    if s == [] then map[] else ListContent(s[1..])[s[0].isbn := s[0]]
  }

  /** The union of two catalogs, with copies summed on shared ISBNs and the
      remaining fields of the first catalog's book. */
  function Union(a: map<int, Book>, b: map<int, Book>): (u: map<int, Book>)
    ensures u.Keys == a.Keys + b.Keys
  {
    map k | k in a.Keys + b.Keys ::
      if k in a && k in b then a[k].(copies := a[k].copies + b[k].copies)
      else if k in a then a[k] else b[k]
  }

  predicate DistinctIsbns(s: seq<Book>)
  {
    forall i, j | 0 <= i < j < |s| :: s[i].isbn != s[j].isbn
  }

  lemma {:induction false} ListContentKeys(s: seq<Book>)
    ensures forall i | 0 <= i < |s| :: s[i].isbn in ListContent(s)
    ensures forall k | k in ListContent(s) :: exists i | 0 <= i < |s| :: s[i].isbn == k
  {
    if s != [] {
      ListContentKeys(s[1..]);
      forall k | k in ListContent(s) ensures exists i | 0 <= i < |s| :: s[i].isbn == k {
        if k != s[0].isbn {
          var i :| 0 <= i < |s[1..]| && s[1..][i].isbn == k;
          assert s[i + 1].isbn == k;
        }
      }
      forall i | 0 <= i < |s| ensures s[i].isbn in ListContent(s) {
        if i > 0 {
          assert s[i] == s[1..][i - 1];
        }
      }
    }
  }

  /** Inserting distinct books one by one merges them into the catalog. */
  lemma {:induction false} InsertAllCorrect(t: Tree<Book>, s: seq<Book>)
    requires IsBst(t) && DistinctIsbns(s)
    ensures IsBst(InsertAll(t, s))
    ensures Content(InsertAll(t, s)) == Union(Content(t), ListContent(s))
    decreases |s|
  {
    if s == [] {
      assert Union(Content(t), map[]) == Content(t);
    } else {
      var x, rest := s[0], s[1..];
      InsertCorrect(t, x);
      var t1 := Insert(t, x).0;
      assert DistinctIsbns(rest) by {
        forall i, j | 0 <= i < j < |rest| ensures rest[i].isbn != rest[j].isbn {
          assert rest[i] == s[i + 1] && rest[j] == s[j + 1];
        }
      }
      InsertAllCorrect(t1, rest);
      ListContentKeys(rest);
      forall i | 0 <= i < |rest| ensures rest[i].isbn != x.isbn {
        assert rest[i] == s[i + 1];
      }
      UnionShift(Content(t), ListContent(rest), x);
      assert ListContent(s) == ListContent(rest)[x.isbn := x];
    }
  }

  /** Merging one book into the first catalog before the union is the same
      as adding it to the second one, when the second lacks its ISBN. */
  lemma UnionShift(a: map<int, Book>, b: map<int, Book>, x: Book)
    requires x.isbn !in b
    ensures Union(a[x.isbn := Merged(a, x)], b) == Union(a, b[x.isbn := x])
  {
  }

  /** The in-order list of a search tree is sorted, hence without repeated ISBN. */
  lemma {:induction false} InorderDistinct(t: Tree<Book>)
    requires IsBst(t)
    ensures forall i, j | 0 <= i < j < |Inorder(t)| :: Inorder(t)[i].isbn < Inorder(t)[j].isbn
  {
    match t
    case Nil =>
    case Node(b, l, r) =>
      InorderDistinct(l);
      InorderDistinct(r);
      InorderIsbns(l);
      InorderIsbns(r);
      var sl, sr := Inorder(l), Inorder(r);
      var s := sl + [b] + sr;
      forall i, j | 0 <= i < j < |s| ensures s[i].isbn < s[j].isbn {
        if j < |sl| {
          assert s[i] == sl[i] && s[j] == sl[j];
        } else if i < |sl| && j == |sl| {
          assert s[i] == sl[i];
        } else if i < |sl| {
          assert s[i] == sl[i] && s[j] == sr[j - |sl| - 1];
        } else if i == |sl| {
          assert s[j] == sr[j - |sl| - 1];
        } else {
          assert s[i] == sr[i - |sl| - 1] && s[j] == sr[j - |sl| - 1];
        }
      }
  }

  /** The in-order list of a search tree holds exactly the tree's books. */
  lemma {:induction false} InorderContent(t: Tree<Book>)
    requires IsBst(t)
    ensures ListContent(Inorder(t)) == Content(t)
  {
    match t
    case Nil =>
    case Node(b, l, r) =>
      InorderContent(l);
      InorderContent(r);
      var sl, sr := Inorder(l), Inorder(r);
      var ml, mr := Content(l), Content(r);
      assert ListContent(sl + [b]) == map[b.isbn := b] + ml by {
        ListContentConcat(sl, [b]);
        assert [b][1..] == [];
      }
      assert ListContent(Inorder(t)) == mr + (map[b.isbn := b] + ml) by {
        ListContentConcat(sl + [b], sr);
      }
      BstRootUnique(t);
      DisjointUnionUpdate(ml, mr, b.isbn, b);
  }

  lemma {:induction false} ListContentConcat(a: seq<Book>, b: seq<Book>)
    ensures ListContent(a + b) == ListContent(b) + ListContent(a)
    decreases |a|
  {
    if a == [] {
      assert a + b == b;
    } else {
      ListContentConcat(a[1..], b);
      assert (a + b)[1..] == a[1..] + b && (a + b)[0] == a[0];
      UpdateUnionRight(ListContent(b), ListContent(a[1..]), a[0].isbn, a[0]);
    }
  }

  /** After `mergeFrom` the catalog holds the union of both ISBN sets, with
      copies summed for the shared ones, and is still a search tree. */
  lemma MergeFromCorrect(t: Tree<Book>, other: Tree<Book>)
    requires IsBst(t) && IsBst(other)
    ensures IsBst(MergeFrom(t, other))
    ensures Content(MergeFrom(t, other)) == Union(Content(t), Content(other))
    ensures Content(MergeFrom(t, other)).Keys == Content(t).Keys + Content(other).Keys
  {
    InorderDistinct(other);
    InorderContent(other);
    InsertAllCorrect(t, Inorder(other));
  }
}
