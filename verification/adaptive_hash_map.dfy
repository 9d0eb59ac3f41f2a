/** The adaptive hash map of Q3_AdaptiveHashMap.cpp: a fixed array of
    buckets, each of which holds its entries either in an insertion-ordered
    list or in an unbalanced binary search tree ordered by key.

    The model follows the code as written. In particular `treeify` counts
    every re-inserted entry a second time, the map's tree-mode insert drops
    `treeInsert`'s result, `search` answers "" for an absent key and `remove`
    reports nothing. The lemmas at the end of the module state what these
    choices mean for a caller. */
module AdaptiveHashMap {
  import opened Common
  import opened BinaryTree
  import opened MapFacts

  // ---------------------------------------------------------------------
  // Keys: std::string ordering
  // ---------------------------------------------------------------------

  /** `a < b` on std::string: lexicographic on unsigned bytes, and a proper
      prefix sorts before its extensions. */
  predicate KeyLess(a: Bytes, b: Bytes)
    decreases |a|
  {
    if |a| == 0 then |b| > 0
    else if |b| == 0 then false
    else if a[0] != b[0] then a[0] < b[0]
    else KeyLess(a[1..], b[1..])
  }

  lemma {:induction false} KeyLessIrreflexive(a: Bytes)
    ensures !KeyLess(a, a)
    decreases |a|
  {
    if |a| > 0 {
      KeyLessIrreflexive(a[1..]);
    }
  }

  lemma {:induction false} KeyLessTransitive(a: Bytes, b: Bytes, c: Bytes)
    requires KeyLess(a, b) && KeyLess(b, c)
    ensures KeyLess(a, c)
    decreases |a|
  {
    if |a| > 0 && |b| > 0 && |c| > 0 && a[0] == b[0] && b[0] == c[0] {
      KeyLessTransitive(a[1..], b[1..], c[1..]);
    }
  }

  /** Exactly one of `a < b`, `a == b`, `b < a` holds. */
  lemma {:induction false} KeyLessTrichotomy(a: Bytes, b: Bytes)
    ensures a == b || KeyLess(a, b) || KeyLess(b, a)
    ensures !(KeyLess(a, b) && KeyLess(b, a))
    ensures KeyLess(a, b) || KeyLess(b, a) ==> a != b
    decreases |a|
  {
    KeyLessIrreflexive(a);
    if |a| > 0 && |b| > 0 && a[0] == b[0] {
      KeyLessTrichotomy(a[1..], b[1..]);
      if a[1..] == b[1..] {
        assert a == [a[0]] + a[1..] && b == [b[0]] + b[1..];
      }
    }
  }

  // ---------------------------------------------------------------------
  // Data model
  // ---------------------------------------------------------------------

  datatype Entry = Entry(key: Bytes, value: Bytes)

  /** `isTree` selects the live representation: `lst` in list mode, `root`
      in tree mode. `count` is the bucket's own counter, which the code
      updates independently of the entries it stores. */
  datatype Bucket = Bucket(isTree: bool, lst: seq<Entry>, root: Tree<Entry>, count: int, threshold: int)

  datatype HashMap = HashMap(capacity: int, threshold: int, buckets: seq<Bucket>)

  /** The key-value map stored in a list; the first entry for a key wins, as
      in a front-to-back scan. */
  function ListMap(s: seq<Entry>): map<Bytes, Bytes>
  {
    if s == [] then map[] else ListMap(s[1..])[s[0].key := s[0].value]
  }

  /** The key-value map stored in a tree (keys are unique in a search tree). */
  function TreeMap(t: Tree<Entry>): map<Bytes, Bytes>
  {
    match t
    case Nil => map[]
    case Node(e, l, r) => (TreeMap(l) + TreeMap(r))[e.key := e.value]
  }

  /** Binary-search-tree order on keys: left keys smaller, right keys larger. */
  ghost predicate IsBst(t: Tree<Entry>)
  {
    match t
    case Nil => true
    case Node(e, l, r) =>
      && IsBst(l) && IsBst(r)
      && (forall k | k in TreeMap(l) :: KeyLess(k, e.key))
      && (forall k | k in TreeMap(r) :: KeyLess(e.key, k))
  }

  ghost predicate DistinctKeys(s: seq<Entry>)
  {
    forall i, j | 0 <= i < j < |s| :: s[i].key != s[j].key
  }

  ghost predicate SortedByKey(s: seq<Entry>)
  {
    forall i, j | 0 <= i < j < |s| :: KeyLess(s[i].key, s[j].key)
  }

  /** The entries a bucket currently stores, in whichever representation. */
  function BucketMap(b: Bucket): map<Bytes, Bytes>
  {
    if b.isTree then TreeMap(b.root) else ListMap(b.lst)
  }

  /** Number of entries physically present in a bucket. */
  function Entries(b: Bucket): nat
  {
    if b.isTree then Size(b.root) else |b.lst|
  }

  // ---------------------------------------------------------------------
  // Indexer
  // ---------------------------------------------------------------------

  /** The basis and prime exactly as written in the source. The basis is one
      digit shorter than the published FNV offset basis. */
  const FNV_BASIS: bv64 := 1469598103934665603
  const FNV_PRIME: bv64 := 1099511628211

  /** The 64-bit accumulation over the bytes of a key, front to back. */
  function FnvHash(s: Bytes): bv64
    decreases |s|
  {
    if s == [] then FNV_BASIS else FnvStep(FnvHash(s[..|s| - 1]), s[|s| - 1])
  }

  /** One step of the accumulation: multiply (wrapping modulo 2^64, as
      `unsigned long long` does), then xor in the byte. */
  function FnvStep(h: bv64, c: Byte): bv64
  {
    (h * FNV_PRIME) ^ (c as bv64)
  }

  /** The bucket index `h % capacity`, computed in unsigned arithmetic. */
  function Index(key: Bytes, capacity: int): (i: int)
    requires capacity > 0
    ensures 0 <= i < capacity
  {
    (FnvHash(key) as int) % capacity
  }

  /** `hashKey`: the loop over the key's bytes computes the index. */
  method HashKey(key: Bytes, capacity: int) returns (idx: int)
    requires capacity > 0
    ensures 0 <= idx < capacity
    ensures idx == Index(key, capacity)
  {
    var h: bv64 := FNV_BASIS;
    var i := 0;
    while i < |key|
      invariant 0 <= i <= |key|
      invariant h == FnvHash(key[..i])
    {
      assert key[..i + 1][..i] == key[..i];
      h := FnvStep(h, key[i]);
      i := i + 1;
    }
    assert key[..i] == key;
    idx := (h as int) % capacity;
  }

  /** The accumulation multiplies before it xors (FNV-1 order): the one-byte
      key "a" hashes to the FNV-1 step of the source basis, and not to the
      FNV-1a step (xor first, then multiply). */
  lemma HashOfA()
    ensures FnvHash([97]) == 0x44bd2bd473ccf7f8
    ensures FnvHash([97]) != (FNV_BASIS ^ 97) * FNV_PRIME
    ensures FnvHash([97]) == FnvStep(FNV_BASIS, 97)
  {
    assert [97][..0] == [];
  }

  // ---------------------------------------------------------------------
  // Bucket: list mode
  // ---------------------------------------------------------------------

  /** Position of the first entry with `key`, or -1. */
  function FindKey(s: seq<Entry>, key: Bytes): (i: int)
    ensures -1 <= i < |s|
    ensures i == -1 <==> key !in ListMap(s)
    ensures i >= 0 ==> s[i].key == key && ListMap(s)[key] == s[i].value
    ensures forall j | 0 <= j < i || (i == -1 && 0 <= j < |s|) :: s[j].key != key
  {
    if s == [] then -1
    else if s[0].key == key then 0
    else var j := FindKey(s[1..], key); if j == -1 then -1 else j + 1
  }

  /** `listSearch`: the value of the first matching entry, or "". */
  function ListSearch(s: seq<Entry>, key: Bytes): (v: Bytes)
    ensures key in ListMap(s) ==> v == ListMap(s)[key]
    ensures key !in ListMap(s) ==> v == []
  {
    var i := FindKey(s, key);
    if i == -1 then [] else s[i].value
  }

  /** Removes the entry at position `i`. */
  function RemoveAt(s: seq<Entry>, i: nat): (r: seq<Entry>)
    requires i < |s|
    ensures |r| == |s| - 1
    ensures forall j | 0 <= j < i :: r[j] == s[j]
    ensures forall j | i <= j < |r| :: r[j] == s[j + 1]
  {
    s[..i] + s[i + 1..]
  }

  /** `listDelete`: erases the first matching entry and decrements `count`;
      never changes mode. */
  function ListDelete(b: Bucket, key: Bytes): (r: (Bucket, bool))
    ensures r.1 <==> key in ListMap(b.lst)
    ensures r.1 ==> r.0 == b.(lst := RemoveAt(b.lst, FindKey(b.lst, key)), count := b.count - 1)
    ensures !r.1 ==> r.0 == b
  {
    var i := FindKey(b.lst, key);
    if i == -1 then (b, false)
    else (b.(lst := RemoveAt(b.lst, i), count := b.count - 1), true)
  }

  /** The list-mode path of the map's `insert` (lines 177-188): overwrite the
      first match in place, or append, count, and promote once `count`
      exceeds the map's threshold. */
  function ListUpsert(b: Bucket, key: Bytes, value: Bytes, threshold: int): Bucket
  {
    var i := FindKey(b.lst, key);
    if i >= 0 then b.(lst := b.lst[i := Entry(key, value)])
    else
      var b1 := b.(lst := b.lst + [Entry(key, value)], count := b.count + 1);
      if b1.count > threshold then Treeify(b1) else b1
  }

  /** `listInsertOrUpdate`: the bucket's own list insert, which promotes
      against the bucket's threshold and only when not already a tree. */
  function ListInsertOrUpdate(b: Bucket, en: Entry): Bucket
  {
    var i := FindKey(b.lst, en.key);
    if i >= 0 then b.(lst := b.lst[i := b.lst[i].(value := en.value)])
    else
      var b1 := b.(lst := b.lst + [en], count := b.count + 1);
      if !b1.isTree && b1.count > b1.threshold then Treeify(b1) else b1
  }

  // ---------------------------------------------------------------------
  // Bucket: tree mode
  // ---------------------------------------------------------------------

  /** `treeInsert`: descend by key; overwrite the value on an equal key, or
      hang a new leaf where the descent falls off. The flag is the code's
      `count++`: true exactly when a leaf was created. */
  function TreeInsert(t: Tree<Entry>, e: Entry): (r: (Tree<Entry>, bool))
  {
    match t
    case Nil => (Node(e, Nil, Nil), true)
    case Node(x, l, rt) =>
      if KeyLess(e.key, x.key) then
        var (l', added) := TreeInsert(l, e); (Node(x, l', rt), added)
      else if KeyLess(x.key, e.key) then
        var (r', added) := TreeInsert(rt, e); (Node(x, l, r'), added)
      else (Node(x.(value := e.value), l, rt), false)
  }

  /** `treeSearch`: BST descent; "" when the descent falls off. */
  function TreeSearch(t: Tree<Entry>, key: Bytes): Bytes
  {
    match t
    case Nil => []
    case Node(x, l, r) =>
      if key == x.key then x.value
      else if KeyLess(key, x.key) then TreeSearch(l, key)
      else TreeSearch(r, key)
  }

  /** The entry of the leftmost node: the in-order successor's data when
      called on a right subtree. */
  function MinEntry(t: Tree<Entry>): Entry
    requires t != Nil
  {
    if t.left == Nil then t.data else MinEntry(t.left)
  }

  /** `treeRemove`: standard BST deletion. A node with at most one child is
      spliced out; a node with two children takes its in-order successor's
      entry and the successor is removed from the right subtree. The flag is
      the code's `deleted`. */
  function TreeRemove(t: Tree<Entry>, key: Bytes): (r: (Tree<Entry>, bool))
  {
    match t
    case Nil => (Nil, false)
    case Node(x, l, rt) =>
      if KeyLess(key, x.key) then
        var (l', d) := TreeRemove(l, key); (Node(x, l', rt), d)
      else if KeyLess(x.key, key) then
        var (r', d) := TreeRemove(rt, key); (Node(x, l, r'), d)
      else if l == Nil then (rt, true)
      else if rt == Nil then (l, true)
      else
        var s := MinEntry(rt);
        (Node(s, l, TreeRemove(rt, s.key).0), true)
  }

  /** `treeDelete`: `count` drops only when an entry was removed. */
  function TreeDelete(b: Bucket, key: Bytes): (r: (Bucket, bool))
  {
    var (t, d) := TreeRemove(b.root, key);
    (b.(root := t, count := if d then b.count - 1 else b.count), d)
  }

  /** Inserts the entries of `s` one after another, in list order, starting
      from `t`; also returns the number of leaves created (each one a
      `count++` in the code). */
  function InsertAll(t: Tree<Entry>, s: seq<Entry>): (r: (Tree<Entry>, nat))
    decreases |s|
  {
    if s == [] then (t, 0)
    else
      var (t1, a) := TreeInsert(t, s[0]);
      var (t2, n) := InsertAll(t1, s[1..]);
      (t2, n + if a then 1 else 0)
  }

  /** `treeify`: rebuild a tree from the list, in list order, through
      `treeInsert` (which counts every entry again), then clear the list. */
  function Treeify(b: Bucket): Bucket
  {
    if b.isTree then b
    else
      var (t, n) := InsertAll(Nil, b.lst);
      b.(isTree := true, lst := [], root := t, count := b.count + n)
  }

  /** `listify`: replace the tree by its in-order list. `count` is left as is. */
  function Listify(b: Bucket): Bucket
  {
    if !b.isTree then b
    else b.(isTree := false, lst := Inorder(b.root), root := Nil)
  }

  // ---------------------------------------------------------------------
  // The map
  // ---------------------------------------------------------------------

  function NewBucket(threshold: int): Bucket
  {
    Bucket(false, [], Nil, 0, threshold)
  }

  /** The constructor: `capacity` empty list-mode buckets sharing `threshold`;
      neither argument is checked. */
  function Construct(capacity: nat, threshold: int): (m: HashMap)
    ensures |m.buckets| == capacity
  {
    HashMap(capacity, threshold, seq(capacity, _ => NewBucket(threshold)))
  }

  /** `insert`. In tree mode the result of `treeInsert` is discarded: when
      the root is non-null the descent has updated the tree in place, but a
      leaf created for a null root is lost while `count` still grows. */
  function Insert(m: HashMap, key: Bytes, value: Bytes): (r: HashMap)
    requires m.capacity > 0 && |m.buckets| == m.capacity
    ensures r.capacity == m.capacity && r.threshold == m.threshold
    ensures |r.buckets| == |m.buckets|
    ensures forall i | 0 <= i < |m.buckets| && i != Index(key, m.capacity) :: r.buckets[i] == m.buckets[i]
  {
    var idx := Index(key, m.capacity);
    var b := m.buckets[idx];
    var b' :=
      if b.isTree then
        var (t, added) := TreeInsert(b.root, Entry(key, value));
        b.(root := if b.root == Nil then Nil else t, count := if added then b.count + 1 else b.count)
      else ListUpsert(b, key, value, m.threshold);
    m.(buckets := m.buckets[idx := b'])
  }

  /** `search`: the stored value, or "" for an absent key. */
  function Search(m: HashMap, key: Bytes): Bytes
    requires m.capacity > 0 && |m.buckets| == m.capacity
  {
    var b := m.buckets[Index(key, m.capacity)];
    if b.isTree then TreeSearch(b.root, key) else ListSearch(b.lst, key)
  }

  /** `remove`: tree mode deletes and demotes when `count <= threshold`; list
      mode deletes the first match (the follow-up test there can never hold). */
  function Remove(m: HashMap, key: Bytes): (r: HashMap)
    requires m.capacity > 0 && |m.buckets| == m.capacity
    ensures r.capacity == m.capacity && r.threshold == m.threshold
    ensures |r.buckets| == |m.buckets|
    ensures forall i | 0 <= i < |m.buckets| && i != Index(key, m.capacity) :: r.buckets[i] == m.buckets[i]
  {
    var idx := Index(key, m.capacity);
    var b := m.buckets[idx];
    var b' :=
      if b.isTree then
        var (b1, deleted) := TreeDelete(b, key);
        if deleted && b1.count <= m.threshold then Listify(b1) else b1
      else ListDelete(b, key).0;
    m.(buckets := m.buckets[idx := b'])
  }

  // ---------------------------------------------------------------------
  // Tree-mode correctness
  // ---------------------------------------------------------------------

  /** `treeInsert` on a search tree: an existing key keeps the shape and
      node count and only takes the new value; a new key adds exactly one
      node. Either way the tree stays ordered and maps the key to `e.value`. */
  lemma {:induction false} TreeInsertCorrect(t: Tree<Entry>, e: Entry)
    requires IsBst(t)
    ensures IsBst(TreeInsert(t, e).0)
    ensures TreeMap(TreeInsert(t, e).0) == TreeMap(t)[e.key := e.value]
    ensures TreeInsert(t, e).1 <==> e.key !in TreeMap(t)
    ensures Size(TreeInsert(t, e).0) == Size(t) + if TreeInsert(t, e).1 then 1 else 0
  {
    match t
    case Nil =>
    case Node(x, l, rt) =>
      KeyLessTrichotomy(e.key, x.key);
      BstRootKeyUnique(t);
      var ml, mr := TreeMap(l), TreeMap(rt);
      if KeyLess(e.key, x.key) {
        TreeInsertCorrect(l, e);
        var l' := TreeInsert(l, e).0;
        assert e.key !in mr by {
          if e.key in mr {
            KeyLessTransitive(e.key, x.key, e.key);
            KeyLessIrreflexive(e.key);
          }
        }
        forall k | k in TreeMap(l') ensures KeyLess(k, x.key) {
        }
        UpdateUnionLeft(ml, mr, e.key, e.value);
        UpdateCommute(ml + mr, e.key, e.value, x.key, x.value);
      } else if KeyLess(x.key, e.key) {
        TreeInsertCorrect(rt, e);
        var r' := TreeInsert(rt, e).0;
        forall k | k in TreeMap(r') ensures KeyLess(x.key, k) {
        }
        UpdateUnionRight(ml, mr, e.key, e.value);
        UpdateCommute(ml + mr, e.key, e.value, x.key, x.value);
      } else {
        assert e.key == x.key;
      }
  }

  /** In a search tree the root's key occurs in neither subtree. */
  lemma BstRootKeyUnique(t: Tree<Entry>)
    requires IsBst(t) && t.Node?
    ensures t.data.key !in TreeMap(t.left) && t.data.key !in TreeMap(t.right)
  {
    KeyLessIrreflexive(t.data.key);
  }

  /** `treeSearch` on a search tree returns the stored value, or "". */
  lemma {:induction false} TreeSearchCorrect(t: Tree<Entry>, key: Bytes)
    requires IsBst(t)
    ensures key in TreeMap(t) ==> TreeSearch(t, key) == TreeMap(t)[key]
    ensures key !in TreeMap(t) ==> TreeSearch(t, key) == []
  {
    match t
    case Nil =>
    case Node(x, l, rt) =>
      KeyLessTrichotomy(key, x.key);
      if key == x.key {
      } else if KeyLess(key, x.key) {
        TreeSearchCorrect(l, key);
        if key in TreeMap(rt) {
          KeyLessTransitive(key, x.key, key);
          KeyLessIrreflexive(key);
        }
      } else {
        TreeSearchCorrect(rt, key);
        if key in TreeMap(l) {
          KeyLessTransitive(key, x.key, key);
          KeyLessIrreflexive(key);
        }
      }
  }

  /** The leftmost entry of a search tree is stored in it and has its
      smallest key. */
  lemma {:induction false} MinEntryIsMin(t: Tree<Entry>)
    requires IsBst(t) && t != Nil
    ensures MinEntry(t).key in TreeMap(t) && TreeMap(t)[MinEntry(t).key] == MinEntry(t).value
    ensures forall k | k in TreeMap(t) && k != MinEntry(t).key :: KeyLess(MinEntry(t).key, k)
  {
    var x, l, rt := t.data, t.left, t.right;
    BstRootKeyUnique(t);
    if l != Nil {
      MinEntryIsMin(l);
      var m := MinEntry(l);
      assert m.key !in TreeMap(rt) by {
        if m.key in TreeMap(rt) {
          KeyLessTransitive(m.key, x.key, m.key);
          KeyLessIrreflexive(m.key);
        }
      }
      forall k | k in TreeMap(t) && k != m.key ensures KeyLess(m.key, k) {
        if k == x.key {
        } else if k in TreeMap(rt) {
          KeyLessTransitive(m.key, x.key, k);
        }
      }
    }
  }

  /** Keys of the two subtrees of a search tree are disjoint. */
  lemma BstSubtreesDisjoint(t: Tree<Entry>)
    requires IsBst(t) && t.Node?
    ensures forall k | k in TreeMap(t.left) :: k !in TreeMap(t.right)
  {
    forall k | k in TreeMap(t.left) ensures k !in TreeMap(t.right) {
      if k in TreeMap(t.right) {
        KeyLessTransitive(k, t.data.key, k);
        KeyLessIrreflexive(k);
      }
    }
  }

  /** `treeRemove` on a search tree: the key disappears, every other entry
      stays, the order is kept, and exactly one node goes iff the key was
      present. */
  lemma {:induction false} TreeRemoveCorrect(t: Tree<Entry>, key: Bytes)
    requires IsBst(t)
    ensures IsBst(TreeRemove(t, key).0)
    ensures TreeMap(TreeRemove(t, key).0) == TreeMap(t) - {key}
    ensures TreeRemove(t, key).1 <==> key in TreeMap(t)
    ensures Size(TreeRemove(t, key).0) == Size(t) - if TreeRemove(t, key).1 then 1 else 0
    decreases t
  {
    match t
    case Nil =>
    case Node(x, l, rt) =>
      BstRootKeyUnique(t);
      BstSubtreesDisjoint(t);
      KeyLessTrichotomy(key, x.key);
      var ml, mr := TreeMap(l), TreeMap(rt);
      if KeyLess(key, x.key) {
        TreeRemoveCorrect(l, key);
        assert key !in mr by {
          if key in mr {
            KeyLessTransitive(key, x.key, key);
            KeyLessIrreflexive(key);
          }
        }
        RemoveUnionLeft(ml, mr, key);
        RemoveUpdateCommute(ml + mr, x.key, x.value, key);
      } else if KeyLess(x.key, key) {
        TreeRemoveCorrect(rt, key);
        assert key !in ml by {
          if key in ml {
            KeyLessTransitive(key, x.key, key);
            KeyLessIrreflexive(key);
          }
        }
        RemoveUnionRight(ml, mr, key);
        RemoveUpdateCommute(ml + mr, x.key, x.value, key);
      } else {
        assert key == x.key;
        UpdateRemoveSame(ml + mr, x.key, x.value);
        if l != Nil && rt != Nil {
          TreeRemoveTwoChildren(t);
        }
      }
  }

  /** The two-children case: the in-order successor's entry moves up. */
  lemma {:induction false} TreeRemoveTwoChildren(t: Tree<Entry>)
    requires IsBst(t) && t.Node? && t.left != Nil && t.right != Nil
    ensures var s := MinEntry(t.right);
      && IsBst(Node(s, t.left, TreeRemove(t.right, s.key).0))
      && TreeMap(Node(s, t.left, TreeRemove(t.right, s.key).0)) == TreeMap(t.left) + TreeMap(t.right)
      && Size(TreeRemove(t.right, s.key).0) == Size(t.right) - 1
    decreases t, 0
  {
    var x, l, rt := t.data, t.left, t.right;
    var s := MinEntry(rt);
    MinEntryIsMin(rt);
    TreeRemoveCorrect(rt, s.key);
    forall k | k in TreeMap(l) ensures KeyLess(k, s.key) {
      KeyLessTransitive(k, x.key, s.key);
    }
    assert s.key !in TreeMap(l) by {
      if s.key in TreeMap(l) {
        KeyLessIrreflexive(s.key);
      }
    }
    ReinsertUnion(TreeMap(l), TreeMap(rt), s.key);
  }

  /** Rebuilding from a list of distinct, fresh keys adds every entry, one
      node (and one `count++`) each. */
  lemma {:induction false} InsertAllCorrect(t: Tree<Entry>, s: seq<Entry>)
    requires IsBst(t) && DistinctKeys(s)
    requires forall i | 0 <= i < |s| :: s[i].key !in TreeMap(t)
    ensures IsBst(InsertAll(t, s).0)
    ensures TreeMap(InsertAll(t, s).0) == TreeMap(t) + ListMap(s)
    ensures InsertAll(t, s).1 == |s|
    ensures Size(InsertAll(t, s).0) == Size(t) + |s|
    decreases |s|
  {
    if s != [] {
      var e := s[0];
      TreeInsertCorrect(t, e);
      var t1 := TreeInsert(t, e).0;
      forall i | 0 <= i < |s[1..]| ensures s[1..][i].key !in TreeMap(t1) {
        assert s[1..][i] == s[i + 1];
      }
      InsertAllCorrect(t1, s[1..]);
      assert e.key !in ListMap(s[1..]) by {
        var j := FindKey(s[1..], e.key);
      }
      UpdateUnionLeft(TreeMap(t), ListMap(s[1..]), e.key, e.value);
      UpdateUnionRight(TreeMap(t), ListMap(s[1..]), e.key, e.value);
    }
  }

  /** A list's map gives priority to the earlier part. */
  lemma {:induction false} ListMapConcat(a: seq<Entry>, b: seq<Entry>)
    ensures ListMap(a + b) == ListMap(b) + ListMap(a)
    decreases |a|
  {
    if a != [] {
      ListMapConcat(a[1..], b);
      assert (a + b)[1..] == a[1..] + b && (a + b)[0] == a[0];
      calc {
        ListMap(a + b);
        ListMap(a[1..] + b)[a[0].key := a[0].value];
        (ListMap(b) + ListMap(a[1..]))[a[0].key := a[0].value];
        { UpdateUnionRight(ListMap(b), ListMap(a[1..]), a[0].key, a[0].value); }
        ListMap(b) + ListMap(a);
      }
    } else {
      assert a + b == b;
    }
  }

  /** Every entry of the in-order list is stored in the tree. */
  lemma {:induction false} InorderKeysInTree(t: Tree<Entry>)
    ensures forall i | 0 <= i < |Inorder(t)| :: Inorder(t)[i].key in TreeMap(t)
  {
    match t
    case Nil =>
    case Node(x, l, rt) =>
      InorderKeysInTree(l);
      InorderKeysInTree(rt);
      var sl, sr := Inorder(l), Inorder(rt);
      forall i | 0 <= i < |Inorder(t)| ensures Inorder(t)[i].key in TreeMap(t) {
        if i < |sl| {
          assert Inorder(t)[i] == sl[i];
        } else if i > |sl| {
          assert Inorder(t)[i] == sr[i - |sl| - 1];
        }
      }
  }

  /** The in-order list of a search tree is sorted by key: this is the
      order `listify` produces. */
  lemma {:induction false} InorderSorted(t: Tree<Entry>)
    requires IsBst(t)
    ensures SortedByKey(Inorder(t))
  {
    match t
    case Nil =>
    case Node(x, l, rt) =>
      InorderSorted(l);
      InorderSorted(rt);
      InorderKeysInTree(l);
      InorderKeysInTree(rt);
      var sl, sr := Inorder(l), Inorder(rt);
      var s := sl + [x] + sr;
      forall i, j | 0 <= i < j < |s| ensures KeyLess(s[i].key, s[j].key) {
        if j < |sl| {
          assert s[i] == sl[i] && s[j] == sl[j];
        } else if i < |sl| && j == |sl| {
          assert s[i] == sl[i];
        } else if i < |sl| {
          assert s[i] == sl[i] && s[j] == sr[j - |sl| - 1];
          KeyLessTransitive(s[i].key, x.key, s[j].key);
        } else if i == |sl| {
          assert s[j] == sr[j - |sl| - 1];
        } else {
          assert s[i] == sr[i - |sl| - 1] && s[j] == sr[j - |sl| - 1];
        }
      }
  }

  /** The in-order list of a search tree holds exactly the tree's entries. */
  lemma {:induction false} InorderMap(t: Tree<Entry>)
    requires IsBst(t)
    ensures ListMap(Inorder(t)) == TreeMap(t)
  {
    match t
    case Nil =>
    case Node(x, l, rt) =>
      InorderMap(l);
      InorderMap(rt);
      var sl, sr := Inorder(l), Inorder(rt);
      ListMapConcat(sl + [x], sr);
      ListMapConcat(sl, [x]);
      assert ListMap([x]) == map[x.key := x.value] by {
        assert [x][1..] == [];
      }
      BstRootKeyUnique(t);
      BstSubtreesDisjoint(t);
      var ml, mr := TreeMap(l), TreeMap(rt);
      assert ListMap(Inorder(t)) == mr + (map[x.key := x.value] + ml);
      DisjointUnionUpdate(ml, mr, x.key, x.value);
  }

  // ---------------------------------------------------------------------
  // Bucket transitions
  // ---------------------------------------------------------------------

  /** What every bucket of a map satisfies between operations. In tree mode
      the counter exceeds the number of stored entries by more than the
      threshold: the extra comes from `treeify` counting every entry twice. */
  ghost predicate BucketInv(b: Bucket)
  {
    if b.isTree then
      b.lst == [] && IsBst(b.root) && b.count >= Size(b.root) + b.threshold + 1
    else
      b.root == Nil && DistinctKeys(b.lst) && b.count == |b.lst| && (b.lst == [] || |b.lst| <= b.threshold)
  }

  /** A list's map has exactly the keys of its entries. */
  lemma ListMapKeys(s: seq<Entry>)
    ensures forall i | 0 <= i < |s| :: s[i].key in ListMap(s)
  {
    forall i | 0 <= i < |s| ensures s[i].key in ListMap(s) {
      var j := FindKey(s, s[i].key);
    }
  }

  /** `treeify` on a list of distinct keys: a search tree holding exactly
      the list's entries, an empty list, and a counter grown by the number
      of entries (so a counter equal to the entry count doubles). */
  lemma TreeifyCorrect(b: Bucket)
    requires !b.isTree && DistinctKeys(b.lst)
    ensures var r := Treeify(b);
      && r.isTree && r.lst == [] && IsBst(r.root)
      && TreeMap(r.root) == ListMap(b.lst)
      && Size(r.root) == |b.lst|
      && r.count == b.count + |b.lst|
      && r.threshold == b.threshold
  {
    InsertAllCorrect(Nil, b.lst);
  }

  /** `listify` on a search tree: the list is the tree's entries in
      ascending key order, the tree is gone, and `count` is untouched. */
  lemma ListifyCorrect(b: Bucket)
    requires b.isTree && IsBst(b.root)
    ensures var r := Listify(b);
      && !r.isTree && r.root == Nil
      && SortedByKey(r.lst) && ListMap(r.lst) == TreeMap(b.root) && |r.lst| == Size(b.root)
      && r.count == b.count
  {
    InorderSorted(b.root);
    InorderMap(b.root);
    InorderSize(b.root);
  }

  /** The list path of the map's insert. An existing key only has its value
      overwritten in place (order, `count` and mode unchanged, no promotion
      test). A new key is appended and counted, and the bucket promotes
      exactly when the new count exceeds the threshold, ending with a counter
      of twice its entry count. */
  lemma ListUpsertCorrect(b: Bucket, key: Bytes, value: Bytes)
    requires BucketInv(b) && !b.isTree
    ensures var r := ListUpsert(b, key, value, b.threshold);
      && BucketInv(r)
      && BucketMap(r) == BucketMap(b)[key := value]
      && (key in ListMap(b.lst) ==>
            var i := FindKey(b.lst, key);
            !r.isTree && r.lst == b.lst[i := b.lst[i].(value := value)] && r.count == b.count)
      && (key !in ListMap(b.lst) ==>
            && (r.isTree <==> b.count + 1 > b.threshold)
            && (!r.isTree ==> r.lst == b.lst + [Entry(key, value)] && r.count == b.count + 1)
            && (r.isTree ==> r.count == 2 * (b.count + 1) && Size(r.root) == b.count + 1))
  {
    var i := FindKey(b.lst, key);
    var e := Entry(key, value);
    if i >= 0 {
      ListOverwrite(b.lst, i, e);
    } else {
      var s := b.lst + [e];
      ListAppend(b.lst, e);
      var b1 := b.(lst := s, count := b.count + 1);
      if b1.count > b.threshold {
        TreeifyCorrect(b1);
      }
    }
  }

  /** Overwriting the entry found for a key keeps the keys distinct and
      updates that key's value. */
  lemma ListOverwrite(s: seq<Entry>, i: int, e: Entry)
    requires DistinctKeys(s) && 0 <= i < |s| && i == FindKey(s, e.key)
    ensures DistinctKeys(s[i := e]) && ListMap(s[i := e]) == ListMap(s)[e.key := e.value]
  {
    var s' := s[i := e];
    forall p, q | 0 <= p < q < |s'| ensures s'[p].key != s'[q].key {
      assert s'[p].key == s[p].key && s'[q].key == s[q].key;
    }
    ListUpdateMap(s, i, e);
  }

  /** Appending an entry for a missing key keeps the keys distinct and adds
      that key. */
  lemma ListAppend(s: seq<Entry>, e: Entry)
    requires DistinctKeys(s) && e.key !in ListMap(s)
    ensures DistinctKeys(s + [e]) && ListMap(s + [e]) == ListMap(s)[e.key := e.value]
  {
    var s' := s + [e];
    var _ := FindKey(s, e.key);
    forall p, q | 0 <= p < q < |s'| ensures s'[p].key != s'[q].key {
      if q == |s| {
        assert s'[p] == s[p];
      } else {
        assert s'[p] == s[p] && s'[q] == s[q];
      }
    }
    ListMapConcat(s, [e]);
    assert ListMap([e]) == map[e.key := e.value] by {
      assert [e][1..] == [];
    }
  }

  lemma {:induction false} ListUpdateMap(s: seq<Entry>, i: int, e: Entry)
    requires 0 <= i < |s| && i == FindKey(s, e.key)
    ensures ListMap(s[i := e]) == ListMap(s)[e.key := e.value]
    decreases |s|
  {
    if i == 0 {
      assert s[i := e][1..] == s[1..];
    } else {
      assert s[i := e][1..] == s[1..][i - 1 := e];
      assert FindKey(s[1..], e.key) == i - 1;
      ListUpdateMap(s[1..], i - 1, e);
      assert s[i := e][0] == s[0];
      UpdateCommute(ListMap(s[1..]), e.key, e.value, s[0].key, s[0].value);
    }
  }

  /** The bucket's own `listInsertOrUpdate` behaves, on a list-mode bucket,
      like the map's inline list path run with the bucket's threshold. */
  lemma ListInsertOrUpdateAgrees(b: Bucket, en: Entry)
    requires !b.isTree
    ensures ListInsertOrUpdate(b, en) == ListUpsert(b, en.key, en.value, b.threshold)
  {
    var i := FindKey(b.lst, en.key);
    if i >= 0 {
      assert b.lst[i].(value := en.value) == Entry(en.key, en.value);
    }
  }

  /** `listDelete`: the key's entry is gone, the rest keep their order,
      `count` follows, and the bucket stays a list. */
  lemma ListDeleteCorrect(b: Bucket, key: Bytes)
    requires BucketInv(b) && !b.isTree
    ensures var (r, d) := ListDelete(b, key);
      && BucketInv(r) && !r.isTree
      && BucketMap(r) == BucketMap(b) - {key}
      && (d <==> key in BucketMap(b))
      && r.count == b.count - (if d then 1 else 0)
  {
    var i := FindKey(b.lst, key);
    if i >= 0 {
      var s := RemoveAt(b.lst, i);
      forall p, q | 0 <= p < q < |s| ensures s[p].key != s[q].key {
        var p' := if p < i then p else p + 1;
        var q' := if q < i then q else q + 1;
        assert s[p] == b.lst[p'] && s[q] == b.lst[q'];
      }
      ListRemoveMap(b.lst, i, key);
    }
  }

  /** Removing the only entry for a key from a list of distinct keys. */
  lemma {:induction false} ListRemoveMap(s: seq<Entry>, i: int, key: Bytes)
    requires DistinctKeys(s) && 0 <= i < |s| && s[i].key == key
    ensures ListMap(RemoveAt(s, i)) == ListMap(s) - {key}
    decreases |s|
  {
    if i == 0 {
      assert RemoveAt(s, i) == s[1..];
      assert key !in ListMap(s[1..]) by {
        var j := FindKey(s[1..], key);
      }
      UpdateRemoveSame(ListMap(s[1..]), key, s[0].value);
    } else {
      assert RemoveAt(s, i)[1..] == RemoveAt(s[1..], i - 1);
      assert RemoveAt(s, i)[0] == s[0];
      ListRemoveMap(s[1..], i - 1, key);
      RemoveUpdateCommute(ListMap(s[1..]), s[0].key, s[0].value, key);
    }
  }

  /** In tree mode the demotion test `count <= threshold` is false after
      every deletion, so `listify` is never reached through the map. */
  lemma DemotionNeverFires(b: Bucket, key: Bytes)
    requires BucketInv(b) && b.isTree
    ensures var (r, d) := TreeDelete(b, key);
      && r.count > b.threshold
      && BucketInv(r)
      && TreeMap(r.root) == TreeMap(b.root) - {key}
      && (d <==> key in TreeMap(b.root))
  {
    TreeRemoveCorrect(b.root, key);
  }

  // ---------------------------------------------------------------------
  // Map-level properties
  // ---------------------------------------------------------------------

  /** Every bucket keeps its invariant and the map's threshold, and holds
      only keys that index to it. */
  ghost predicate Valid(m: HashMap)
  {
    && m.capacity > 0 && |m.buckets| == m.capacity
    && forall i | 0 <= i < |m.buckets| ::
         && m.buckets[i].threshold == m.threshold
         && BucketInv(m.buckets[i])
         && forall k | k in BucketMap(m.buckets[i]) :: Index(k, m.capacity) == i
  }

  /** The bucket a key is routed to. */
  function BucketOf(m: HashMap, key: Bytes): Bucket
    requires m.capacity > 0 && |m.buckets| == m.capacity
  {
    m.buckets[Index(key, m.capacity)]
  }

  /** A fresh map is valid and every search answers "". */
  lemma ConstructCorrect(capacity: nat, threshold: int, key: Bytes)
    requires capacity > 0
    ensures Valid(Construct(capacity, threshold))
    ensures Search(Construct(capacity, threshold), key) == []
  {
  }

  /** `search` answers the value stored under the key in its bucket, or ""
      when there is none; the map is not changed (it is a pure function). */
  lemma SearchCorrect(m: HashMap, key: Bytes)
    requires Valid(m)
    ensures var b := BucketOf(m, key);
      Search(m, key) == if key in BucketMap(b) then BucketMap(b)[key] else []
  {
    var b := BucketOf(m, key);
    if b.isTree {
      TreeSearchCorrect(b.root, key);
    }
  }

  /** `insert` keeps the map valid and touches only the key's bucket. The
      key ends up mapped to the value, except in a tree-mode bucket whose
      tree is empty: there the new leaf is lost while `count` still grows. */
  lemma InsertCorrect(m: HashMap, key: Bytes, value: Bytes)
    requires Valid(m)
    ensures Valid(Insert(m, key, value))
    ensures var b, b' := BucketOf(m, key), BucketOf(Insert(m, key, value), key);
      && b'.isTree == (b.isTree || (key !in BucketMap(b) && b.count + 1 > b.threshold))
      && (if b.isTree && b.root == Nil
          then BucketMap(b') == BucketMap(b) && b'.count == b.count + 1
          else BucketMap(b') == BucketMap(b)[key := value])
  {
    var idx := Index(key, m.capacity);
    var b := m.buckets[idx];
    var m' := Insert(m, key, value);
    var b' := m'.buckets[idx];
    if b.isTree {
      TreeInsertCorrect(b.root, Entry(key, value));
    } else {
      ListUpsertCorrect(b, key, value);
    }
    forall i | 0 <= i < |m'.buckets|
      ensures m'.buckets[i].threshold == m'.threshold && BucketInv(m'.buckets[i])
      ensures forall k | k in BucketMap(m'.buckets[i]) :: Index(k, m'.capacity) == i
    {
      if i == idx {
        forall k | k in BucketMap(b') ensures Index(k, m'.capacity) == i {
          if k != key {
            assert k in BucketMap(b);
          }
        }
      }
    }
  }

  /** Round trip: after `insert(k, v)`, `search(k)` answers `v` unless the
      bucket is a tree-mode bucket with an empty tree. Other keys keep their
      answers. */
  lemma InsertThenSearch(m: HashMap, key: Bytes, value: Bytes, other: Bytes)
    requires Valid(m) && other != key
    ensures var b := BucketOf(m, key);
      Search(Insert(m, key, value), key) == if b.isTree && b.root == Nil then [] else value
    ensures Search(Insert(m, key, value), other) == Search(m, other)
  {
    var m' := Insert(m, key, value);
    InsertCorrect(m, key, value);
    SearchCorrect(m, key);
    SearchCorrect(m', key);
    SearchCorrect(m, other);
    SearchCorrect(m', other);
  }

  /** `remove` keeps the map valid, deletes the key from its bucket, keeps
      every other entry, and never changes any bucket's mode: the demotion
      branch cannot fire. */
  lemma RemoveCorrect(m: HashMap, key: Bytes)
    requires Valid(m)
    ensures Valid(Remove(m, key))
    ensures BucketMap(BucketOf(Remove(m, key), key)) == BucketMap(BucketOf(m, key)) - {key}
    ensures forall i | 0 <= i < |m.buckets| :: Remove(m, key).buckets[i].isTree == m.buckets[i].isTree
    ensures key !in BucketMap(BucketOf(m, key)) ==> Remove(m, key) == m
  {
    var idx := Index(key, m.capacity);
    var b := m.buckets[idx];
    var m' := Remove(m, key);
    var b' := m'.buckets[idx];
    if b.isTree {
      DemotionNeverFires(b, key);
      if key !in BucketMap(b) {
        TreeRemoveUnchanged(b.root, key);
      }
    } else {
      ListDeleteCorrect(b, key);
    }
    forall i | 0 <= i < |m'.buckets|
      ensures m'.buckets[i].threshold == m'.threshold && BucketInv(m'.buckets[i])
      ensures forall k | k in BucketMap(m'.buckets[i]) :: Index(k, m'.capacity) == i
    {
      if i == idx {
        forall k | k in BucketMap(b') ensures Index(k, m'.capacity) == i {
          assert k in BucketMap(b);
        }
      }
    }
    if key !in BucketMap(b) {
      assert b' == b;
      assert m'.buckets == m.buckets;
    }
  }

  /** Removing an absent key returns the tree unchanged. */
  lemma {:induction false} TreeRemoveUnchanged(t: Tree<Entry>, key: Bytes)
    requires IsBst(t) && key !in TreeMap(t)
    ensures TreeRemove(t, key) == (t, false)
  {
    match t
    case Nil =>
    case Node(x, l, rt) =>
      KeyLessTrichotomy(key, x.key);
      if KeyLess(key, x.key) {
        TreeRemoveUnchanged(l, key);
      } else if KeyLess(x.key, key) {
        TreeRemoveUnchanged(rt, key);
      }
  }

  /** Round trip for removal: afterwards `search(k)` answers "" and every
      other key keeps its answer. */
  lemma RemoveThenSearch(m: HashMap, key: Bytes, other: Bytes)
    requires Valid(m) && other != key
    ensures Search(Remove(m, key), key) == []
    ensures Search(Remove(m, key), other) == Search(m, other)
  {
    var m' := Remove(m, key);
    RemoveCorrect(m, key);
    SearchCorrect(m', key);
    SearchCorrect(m, other);
    SearchCorrect(m', other);
  }

  /** A search tree with no entries is the empty tree. */
  lemma EmptyTreeMapIsNil(t: Tree<Entry>)
    ensures TreeMap(t) == map[] <==> t == Nil
  {
    if t.Node? {
      assert t.data.key in TreeMap(t);
    }
  }

  /** A reachable state that loses inserts: with one bucket and threshold 0,
      inserting "a" promotes the bucket (counter 2, one entry) and removing
      "a" leaves tree mode with an empty tree (counter 1). Inserting "b"
      then stores nothing, although the counter grows to 2. */
  lemma LostInsertScenario()
    ensures var m2 := Remove(Insert(Construct(1, 0), [97], [49]), [97]);
      var m3 := Insert(m2, [98], [50]);
      && m2.buckets[0].isTree && m2.buckets[0].root == Nil
      && Search(m3, [98]) == []
      && m3.buckets[0].count == 2
  {
    var m0 := Construct(1, 0);
    ConstructCorrect(1, 0, [97]);
    var m1 := Insert(m0, [97], [49]);
    InsertCorrect(m0, [97], [49]);
    ListUpsertCorrect(m0.buckets[0], [97], [49]);
    var m2 := Remove(m1, [97]);
    RemoveCorrect(m1, [97]);
    DemotionNeverFires(m1.buckets[0], [97]);
    EmptyTreeMapIsNil(m2.buckets[0].root);
    var m3 := Insert(m2, [98], [50]);
    InsertThenSearch(m2, [98], [50], [97]);
  }

  /** With one bucket and threshold 3, inserting "a".."d" makes the bucket
      a tree with counter 8, and removing "a" leaves a tree with counter 7:
      the demotion test of `remove` (Q3_AdaptiveHashMap.cpp:205) never
      fires. */
  lemma NoDemotionScenario()
    ensures var m4 := Insert(Insert(Insert(Insert(Construct(1, 3), [97], [49]), [98], [50]), [99], [51]), [100], [52]);
      && m4.buckets[0].isTree && m4.buckets[0].count == 8
      && Remove(m4, [97]).buckets[0].isTree
      && Remove(m4, [97]).buckets[0].count == 7
  {
    var m4 := FourInserts();
    var b := m4.buckets[0];
    DemotionNeverFires(b, [97]);
    assert Index([97], 1) == 0;
    assert Remove(m4, [97]).buckets[0] == TreeDelete(b, [97]).0;
  }

  /** The four inserts of the scenario above, one step at a time. */
  lemma FourInserts() returns (m4: HashMap)
    ensures m4 == Insert(Insert(Insert(Insert(Construct(1, 3), [97], [49]), [98], [50]), [99], [51]), [100], [52])
    ensures Valid(m4) && m4.capacity == 1 && |m4.buckets| == 1
    ensures m4.buckets[0].isTree && m4.buckets[0].count == 8
    ensures BucketInv(m4.buckets[0]) && [97] in TreeMap(m4.buckets[0].root)
  {
    var m2 := TwoInserts();
    var m3 := InsertNewListKey(m2, [99], [51], 2);
    m4 := InsertNewListKey(m3, [100], [52], 3);
    assert [97] in BucketMap(m4.buckets[0]);
  }

  /** The first two inserts of the scenario stay in list mode. */
  lemma TwoInserts() returns (m2: HashMap)
    ensures m2 == Insert(Insert(Construct(1, 3), [97], [49]), [98], [50])
    ensures Valid(m2) && m2.capacity == 1 && m2.threshold == 3
    ensures !m2.buckets[0].isTree && m2.buckets[0].count == 2
    ensures [97] in BucketMap(m2.buckets[0])
    ensures forall k | k in BucketMap(m2.buckets[0]) :: |k| == 1 && 97 <= k[0] < 99
  {
    var m0 := Construct(1, 3);
    ConstructCorrect(1, 3, []);
    var m1 := InsertNewListKey(m0, [97], [49], 0);
    m2 := InsertNewListKey(m1, [98], [50], 1);
  }

  /** One step of the scenarios above: a fresh key into a one-bucket list
      holding `n` entries whose keys are the bytes 97.. 97 + n - 1. */
  lemma InsertNewListKey(m: HashMap, key: Bytes, value: Bytes, n: nat) returns (m': HashMap)
    requires Valid(m) && m.capacity == 1 && !m.buckets[0].isTree && m.buckets[0].count == n
    requires forall k | k in BucketMap(m.buckets[0]) :: |k| == 1 && 97 <= k[0] < 97 + n
    requires key == [97 + n]
    ensures m' == Insert(m, key, value) && Valid(m')
    ensures m'.capacity == 1 && m'.threshold == m.threshold
    ensures m'.buckets[0].isTree <==> n + 1 > m.threshold
    ensures !m'.buckets[0].isTree ==> m'.buckets[0].count == n + 1
    ensures m'.buckets[0].isTree ==> m'.buckets[0].count == 2 * (n + 1)
    ensures BucketMap(m'.buckets[0]) == BucketMap(m.buckets[0])[key := value]
    ensures forall k | k in BucketMap(m'.buckets[0]) :: |k| == 1 && 97 <= k[0] < 97 + n + 1
  {
    m' := Insert(m, key, value);
    InsertCorrect(m, key, value);
    ListUpsertCorrect(m.buckets[0], key, value);
  }

  // ---------------------------------------------------------------------
  // The evidently intended variant
  // ---------------------------------------------------------------------

  /** `treeify` without the second count: the counter stays equal to the
      number of entries. */
  function TreeifyIntended(b: Bucket): Bucket
  {
    if b.isTree then b
    else b.(isTree := true, lst := [], root := InsertAll(Nil, b.lst).0)
  }

  /** The list path of `insert` with the intended `treeify`. */
  function ListUpsertIntended(b: Bucket, key: Bytes, value: Bytes, threshold: int): Bucket
  {
    var i := FindKey(b.lst, key);
    if i >= 0 then b.(lst := b.lst[i := Entry(key, value)])
    else
      var b1 := b.(lst := b.lst + [Entry(key, value)], count := b.count + 1);
      if b1.count > threshold then TreeifyIntended(b1) else b1
  }

  /** `insert` as evidently intended: the tree-mode path stores the root
      `treeInsert` returns, and promotion does not double the counter. */
  function InsertIntended(m: HashMap, key: Bytes, value: Bytes): (r: HashMap)
    requires m.capacity > 0 && |m.buckets| == m.capacity
    ensures |r.buckets| == |m.buckets| && r.capacity == m.capacity && r.threshold == m.threshold
  {
    var idx := Index(key, m.capacity);
    var b := m.buckets[idx];
    var b' :=
      if b.isTree then
        var (t, added) := TreeInsert(b.root, Entry(key, value));
        b.(root := t, count := if added then b.count + 1 else b.count)
      else ListUpsertIntended(b, key, value, m.threshold);
    m.(buckets := m.buckets[idx := b'])
  }

  /** The invariant the demotion test of `remove` presumes: the counter is
      the entry count, list buckets stay within the threshold and tree
      buckets above it. */
  ghost predicate IntendedBucketInv(b: Bucket)
  {
    && b.count == Entries(b)
    && if b.isTree then b.lst == [] && IsBst(b.root) && b.count > b.threshold
       else b.root == Nil && DistinctKeys(b.lst) && (b.lst == [] || |b.lst| <= b.threshold)
  }

  ghost predicate IntendedValid(m: HashMap)
  {
    && m.capacity > 0 && |m.buckets| == m.capacity
    && forall i | 0 <= i < |m.buckets| ::
         && m.buckets[i].threshold == m.threshold
         && IntendedBucketInv(m.buckets[i])
         && forall k | k in BucketMap(m.buckets[i]) :: Index(k, m.capacity) == i
  }

  /** The list path with intended counting keeps that invariant. */
  lemma ListUpsertIntendedCorrect(b: Bucket, key: Bytes, value: Bytes)
    requires IntendedBucketInv(b) && !b.isTree
    ensures var r := ListUpsertIntended(b, key, value, b.threshold);
      IntendedBucketInv(r) && BucketMap(r) == BucketMap(b)[key := value]
  {
    var i := FindKey(b.lst, key);
    var e := Entry(key, value);
    if i >= 0 {
      ListOverwrite(b.lst, i, e);
    } else {
      var s := b.lst + [e];
      ListAppend(b.lst, e);
      if |s| > b.threshold {
        InsertAllCorrect(Nil, s);
      }
    }
  }

  /** With the intended insert the counter always equals the entry count and
      the round trip `insert(k, v)`; `search(k)` answers `v` in every mode. */
  lemma InsertIntendedCorrect(m: HashMap, key: Bytes, value: Bytes)
    requires IntendedValid(m)
    ensures IntendedValid(InsertIntended(m, key, value))
    ensures BucketMap(BucketOf(InsertIntended(m, key, value), key)) == BucketMap(BucketOf(m, key))[key := value]
    ensures Search(InsertIntended(m, key, value), key) == value
  {
    var idx := Index(key, m.capacity);
    var b := m.buckets[idx];
    var m' := InsertIntended(m, key, value);
    var b' := m'.buckets[idx];
    if b.isTree {
      TreeInsertCorrect(b.root, Entry(key, value));
    } else {
      ListUpsertIntendedCorrect(b, key, value);
    }
    forall i | 0 <= i < |m'.buckets|
      ensures m'.buckets[i].threshold == m'.threshold && IntendedBucketInv(m'.buckets[i])
      ensures forall k | k in BucketMap(m'.buckets[i]) :: Index(k, m'.capacity) == i
    {
      if i == idx {
        forall k | k in BucketMap(b') ensures Index(k, m'.capacity) == i {
          if k != key {
            assert k in BucketMap(b);
          }
        }
      }
    }
    if b'.isTree {
      TreeSearchCorrect(b'.root, key);
    }
  }

  /** With intended counting, `remove` demotes a tree bucket as soon as its
      count falls to the threshold, and the demoted list is the surviving
      entries in ascending key order. */
  lemma RemoveIntendedDemotes(m: HashMap, key: Bytes)
    requires IntendedValid(m)
    requires BucketOf(m, key).isTree && BucketOf(m, key).count == m.threshold + 1
    requires key in BucketMap(BucketOf(m, key))
    ensures IntendedValid(Remove(m, key))
    ensures var b' := BucketOf(Remove(m, key), key);
      && !b'.isTree && SortedByKey(b'.lst)
      && ListMap(b'.lst) == BucketMap(BucketOf(m, key)) - {key}
      && b'.count == m.threshold
  {
    var idx := Index(key, m.capacity);
    var b := m.buckets[idx];
    var m' := Remove(m, key);
    TreeRemoveCorrect(b.root, key);
    var b1 := TreeDelete(b, key).0;
    ListifyCorrect(b1);
    var b' := m'.buckets[idx];
    assert b' == Listify(b1);
    forall p, q | 0 <= p < q < |b'.lst| ensures b'.lst[p].key != b'.lst[q].key {
      KeyLessIrreflexive(b'.lst[p].key);
    }
    forall i | 0 <= i < |m'.buckets|
      ensures m'.buckets[i].threshold == m'.threshold && IntendedBucketInv(m'.buckets[i])
      ensures forall k | k in BucketMap(m'.buckets[i]) :: Index(k, m'.capacity) == i
    {
      if i == idx {
        forall k | k in BucketMap(b') ensures Index(k, m'.capacity) == i {
          assert k in BucketMap(b);
        }
      }
    }
  }
}
