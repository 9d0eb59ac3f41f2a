/** Owned binary trees. Every pointer-linked tree of the repository (the
    hash-map bucket tree, the book catalog, the post index, the AVL demo) is
    a `Tree` whose subtrees belong exclusively to their parent. */
module BinaryTree {

  datatype Tree<T> = Nil | Node(data: T, left: Tree<T>, right: Tree<T>)

  /** Number of nodes. */
  function Size<T>(t: Tree<T>): nat
  {
    match t
    case Nil => 0
    case Node(_, l, r) => Size(l) + Size(r) + 1
  }

  /** Number of nodes on a longest root-to-leaf path (0 for the empty tree). */
  function Height<T>(t: Tree<T>): nat
  {
    match t
    case Nil => 0
    case Node(_, l, r) => (if Height(l) < Height(r) then Height(r) else Height(l)) + 1
  }

  /** The data of every node. */
  function Elements<T>(t: Tree<T>): set<T>
  {
    match t
    case Nil => {}
    case Node(x, l, r) => Elements(l) + {x} + Elements(r)
  }

  /** In-order traversal: left subtree, node, right subtree. */
  function Inorder<T>(t: Tree<T>): seq<T>
  {
    match t
    case Nil => []
    case Node(x, l, r) => Inorder(l) + [x] + Inorder(r)
  }

  /** The traversal lists every node once. */
  lemma {:induction false} InorderSize<T>(t: Tree<T>)
    ensures |Inorder(t)| == Size(t)
  {
    match t
    case Nil =>
    case Node(_, l, r) =>
      InorderSize(l);
      InorderSize(r);
  }

  lemma {:induction false} InorderElements<T>(t: Tree<T>)
    ensures forall x :: x in Inorder(t) <==> x in Elements(t)
  {
    match t
    case Nil =>
    case Node(x, l, r) =>
      InorderElements(l);
      InorderElements(r);
  }
}
