/** Nodes on the heap (rbtree.h:35-47) and what it means that they form a given
    tree or a given chain of ancestors.
 */
module RbHeap {
  import opened MapSpec
  import opened RbShape

  class Node<K, V> {
    var key: K
    var value: V
    var left: Node?<K, V>
    var right: Node?<K, V>
    var black: bool

    constructor (key: K, value: V, black: bool)
      ensures this.key == key && this.value == value && this.black == black
      ensures left == null && right == null
    {
      this.key, this.value, this.black := key, value, black;
      left, right := null, null;
    }
  }

  type Shape<K, V> = Tree<Node<K, V>, Entry<K, V>>

  type Ancestors<K, V> = Path<Node<K, V>, Entry<K, V>>

  ghost function RootOf<K, V>(t: Shape<K, V>): Node?<K, V> {
    if t.Leaf? then null else t.node
  }

  ghost function ParentOf<K, V>(path: Ancestors<K, V>): Node?<K, V> {
    if path.Top? then null else path.node
  }

  /** `p` points to nodes that form the tree `t`. */
  ghost predicate Rep<K, V>(p: Node?<K, V>, t: Shape<K, V>)
    reads Nodes(t)
  {
    match t
    case Leaf => p == null
    case Fork(n, e, b, l, r) =>
      && p == n && n.key == e.key && n.value == e.value && n.black == b
      && Rep(n.left, l) && Rep(n.right, r)
  }

  /** From `root`, the nodes of `path` lead down to a pointer that holds `hole`. */
  ghost predicate RepPath<K, V>(root: Node?<K, V>, path: Ancestors<K, V>, hole: Node?<K, V>)
    reads PathNodes(path)
  {
    match path
    case Top => root == hole
    case Down(n, e, b, wentLeft, s, up) =>
      && n.key == e.key && n.value == e.value && n.black == b
      && (if wentLeft then n.left == hole && Rep(n.right, s) else n.right == hole && Rep(n.left, s))
      && RepPath(root, up, n)
  }

  lemma {:induction false} RepZip<K, V>(root: Node?<K, V>, path: Ancestors<K, V>, t: Shape<K, V>)
    ensures Nodes(Zip(path, t)) == Nodes(t) + PathNodes(path)
    ensures RepPath(root, path, RootOf(t)) && Rep(RootOf(t), t) <==> Rep(root, Zip(path, t))
  {
    ZipNodes(path, t);
    if path.Down? {
      RepZip(root, path.up, Close(path, t));
    } else {
      assert Rep(root, t) ==> root == RootOf(t);
    }
  }
}
