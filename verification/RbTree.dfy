/** rbtree.c: the mutable red-black tree with its explicit stack of ancestors. */
module RbTree {
  import opened Machine
  import opened MapSpec
  import opened Ordering
  import opened RbShape
  import opened RbInsert
  import opened RbRemove
  import opened RbHeap

  const INITIAL_BLOCK_SIZE := 4

  // The ancestor path of a tree with at most SIZE_MAX entries, with room to spare.
  const MAX_DEPTH := 256

  class RBTree<K(!new), V> {
    const compareKeys: (K, K) -> int
    var root: Node?<K, V>
    var stack: array<Node?<K, V>>
    var sp: int  // index of the top of the stack, -1 when unset
    var count: nat

    /** The tree that the nodes below `root` form. */
    ghost var tree: Shape<K, V>
    ghost var nodes: set<Node<K, V>>

    /** The nodes below `root` form `tree`. */
    ghost predicate Sound()
      reads this`root, this`tree, this`nodes, nodes
    {
      Nodes(tree) == nodes && Distinct(tree) && Rep(root, tree)
    }

    /** `tree` is a red-black search tree and `count` its size. */
    ghost predicate Searchable()
      reads this`tree, this`count
    {
      && RedBlack(tree)
      && TotalOrder(compareKeys) && Sorted(compareKeys, InOrder(tree))
      && count == |InOrder(tree)| <= SIZE_MAX
    }

    ghost predicate StackSized()
      reads this`sp, this`stack
    {
      INITIAL_BLOCK_SIZE <= stack.Length <= 2 * MAX_DEPTH && -1 <= sp < stack.Length
    }

    ghost predicate Valid()
      reads this, nodes
    {
      Sound() && Searchable() && StackSized()
    }

    /** The map that the tree stands for. */
    ghost function Entries(): set<Entry<K, V>>
      reads this`tree
    {
      EntrySet(InOrder(tree))
    }

    ghost predicate Knows(key: K)
      reads this`tree
    {
      Has(Entries(), SameKey(compareKeys), key)
    }

    constructor (compareKeys: (K, K) -> int)
      requires TotalOrder(compareKeys)
      ensures Valid() && Entries() == {} && count == 0 && fresh(stack) && nodes == {}
      ensures this.compareKeys == compareKeys
    {
      this.compareKeys := compareKeys;
      root := null;
      stack := new Node?<K, V>[INITIAL_BLOCK_SIZE](_ => null);
      sp := -1;
      count := 0;
      tree := Leaf;
      nodes := {};
    }

    /** The same, cut in two: the nodes below `root` are exactly the nodes of `path` and, in its hole, of `t`. */
    ghost predicate Cut(path: Ancestors<K, V>, t: Shape<K, V>)
      reads this`root, this`nodes, nodes
    {
      Nodes(t) + PathNodes(path) == nodes && Apart(path, t) && RepPath(root, path, RootOf(t)) && Rep(RootOf(t), t)
    }

    /** stack[0..sp] is exactly the way from the root to `n`. */
    ghost predicate OnStack(path: Ancestors<K, V>, n: Node<K, V>)
      reads this`sp, this`stack, stack
    {
      && 0 <= sp == Depth(path) < stack.Length <= 2 * MAX_DEPTH
      && stack[..sp + 1] == Spine(path) + [n]
    }

    // ----- stack helpers

    lemma TopOfStack(path: Ancestors<K, V>, n: Node<K, V>)
      requires OnStack(path, n)
      ensures stack[..sp] == Spine(path) && stack[sp] == n
      ensures path.Down? ==>
                && sp == Depth(path.up) + 1
                && stack[sp - 1] == path.node && stack[..sp - 1] == Spine(path.up)
      ensures path.Down? && path.up.Down? ==>
                && sp == Depth(path.up.up) + 2
                && stack[sp - 2] == path.up.node && stack[..sp - 2] == Spine(path.up.up)
    {
      SpineLength(path);
      var s := stack[..sp + 1];
      assert s[..sp] == Spine(path) && s[sp] == n;
      if path.Down? {
        SpineLength(path.up);
        assert s[..sp - 1] == Spine(path.up) && s[sp - 1] == path.node;
        if path.up.Down? {
          SpineLength(path.up.up);
          assert s[..sp - 2] == Spine(path.up.up) && s[sp - 2] == path.up.node;
        }
      }
    }

    /** The index of the stack array never overflows: growth stays below the
        bound that makes rbtree.c:178-182 abort. */
    method StackPush(node: Node<K, V>)
      requires -1 <= sp < stack.Length && INITIAL_BLOCK_SIZE <= stack.Length <= 2 * MAX_DEPTH
      requires sp < MAX_DEPTH
      modifies this`sp, this`stack, stack
      ensures sp == old(sp) + 1 < stack.Length && stack.Length <= 2 * MAX_DEPTH
      ensures stack == old(stack) || fresh(stack)
      ensures stack[..sp] == old(stack[..sp + 1]) && stack[sp] == node
      ensures stack.Length == if sp == old(stack.Length) then 2 * old(stack.Length) else old(stack.Length)
    {
      if sp == -1 {
        sp := 0;
      } else {
        if sp >= stack.Length - 1 {
          assert stack.Length <= SSIZE_MAX / 8 / 2;
          var grown := new Node?<K, V>[2 * stack.Length](_ => null);
          forall i | 0 <= i < stack.Length {
            grown[i] := stack[i];
          }
          stack := grown;
        }
        sp := sp + 1;
      }
      stack[sp] := node;
    }

    // ----- replace & rotate nodes

    method Replace(oldNode: Node<K, V>, parent: Node?<K, V>, newNode: Node?<K, V>, ghost path: Ancestors<K, V>)
      requires PathNodes(path) <= nodes && RepPath(root, path, oldNode) && PathDistinct(path) && parent == ParentOf(path)
      requires oldNode !in PathNodes(path)
      modifies this`root, PathNodes(path)
      ensures RepPath(root, path, newNode)
    {
      if parent != null {
        if oldNode == parent.left {
          parent.left := newNode;
        } else {
          parent.right := newNode;
        }
      } else {
        root := newNode;
      }
    }

    method RotateLeftAt(node: Node<K, V>, parent: Node?<K, V>, ghost path: Ancestors<K, V>, ghost t: Shape<K, V>)
      requires Sound() && tree == Zip(path, t) && t.Fork? && t.node == node && t.right.Fork? && parent == ParentOf(path)
      modifies this`root, this`tree, nodes
      ensures Sound() && tree == Zip(path, RotateLeft(t))
    {
      CutTree(path, t);
      RelinkLeft(node, parent, path, t);
      JoinTree(path, RotateLeft(t));
    }

    method RotateRightAt(node: Node<K, V>, parent: Node?<K, V>, ghost path: Ancestors<K, V>, ghost t: Shape<K, V>)
      requires Sound() && tree == Zip(path, t) && t.Fork? && t.node == node && t.left.Fork? && parent == ParentOf(path)
      modifies this`root, this`tree, nodes
      ensures Sound() && tree == Zip(path, RotateRight(t))
    {
      CutTree(path, t);
      RelinkRight(node, parent, path, t);
      JoinTree(path, RotateRight(t));
    }

    method RelinkLeft(node: Node<K, V>, parent: Node?<K, V>, ghost path: Ancestors<K, V>, ghost t: Shape<K, V>)
      requires Cut(path, t) && t.Fork? && t.node == node && t.right.Fork? && parent == ParentOf(path)
      modifies this`root, nodes
      ensures Cut(path, RotateLeft(t))
    {
      assert Apart(path, RotateLeft(t)) && Nodes(RotateLeft(t)) == Nodes(t) by {
        RotateLeftOrder(t);
      }
      var right := node.right;
      ghost var r := t.right;
      assert Rep(right, r) && Distinct(r) && Nodes(r) == {right} + Nodes(r.left) + Nodes(r.right);
      Replace(node, parent, right, path);
      assert Rep(node, t) && RepPath(root, path, right);
      node.right := right.left;
      right.left := node;
      assert Rep(node, Fork(node, t.entry, t.black, t.left, r.left));
    }

    method RelinkRight(node: Node<K, V>, parent: Node?<K, V>, ghost path: Ancestors<K, V>, ghost t: Shape<K, V>)
      requires Cut(path, t) && t.Fork? && t.node == node && t.left.Fork? && parent == ParentOf(path)
      modifies this`root, nodes
      ensures Cut(path, RotateRight(t))
    {
      assert Apart(path, RotateRight(t)) && Nodes(RotateRight(t)) == Nodes(t) by {
        RotateRightOrder(t);
      }
      var left := node.left;
      ghost var l := t.left;
      assert Rep(left, l) && Distinct(l) && Nodes(l) == {left} + Nodes(l.left) + Nodes(l.right);
      Replace(node, parent, left, path);
      assert Rep(node, t) && RepPath(root, path, left);
      node.left := left.right;
      left.right := node;
      assert Rep(node, Fork(node, t.entry, t.black, l.right, t.right));
    }

    // ----- cutting the tree and joining it again

    lemma CutTree(path: Ancestors<K, V>, t: Shape<K, V>)
      requires Sound() && tree == Zip(path, t)
      ensures Cut(path, t)
    {
      RepZip(root, path, t);
      ZipNodes(path, t);
    }

    ghost method JoinTree(path: Ancestors<K, V>, t: Shape<K, V>)
      requires Cut(path, t)
      modifies this`tree
      ensures Sound() && tree == Zip(path, t)
    {
      RepZip(root, path, t);
      ZipNodes(path, t);
      tree := Zip(path, t);
    }

    /** What the nearest ancestor knows about the hole. */
    lemma Parent(path: Ancestors<K, V>, t: Shape<K, V>)
      requires Sound() && tree == Zip(path, t) && path.Down? && t.Fork?
      ensures path.wentLeft <==> path.node.left == t.node
      ensures !path.wentLeft <==> path.node.right == t.node
      ensures RootOf(path.sibling) == if path.wentLeft then path.node.right else path.node.left
      ensures path.node.black == path.black && t.node.black == t.black
      ensures path.sibling.IsBlack() == IsBlack(RootOf(path.sibling))
      ensures t.node.left == RootOf(t.left) && t.node.right == RootOf(t.right)
    {
      CutTree(path, t);
      assert Rep(RootOf(path.sibling), path.sibling) && Rep(t.node, t);
      assert Rep(t.node.left, t.left) && Rep(t.node.right, t.right);
      assert t.node in Nodes(t);
    }

    /** What a node knows about the tree below it. */
    lemma Focus(path: Ancestors<K, V>, t: Shape<K, V>)
      requires Sound() && tree == Zip(path, t) && t.Fork?
      ensures t.node in nodes && t.node.key == t.entry.key && t.node.value == t.entry.value && t.node.black == t.black
      ensures t.node.left == RootOf(t.left) && t.node.right == RootOf(t.right)
      ensures t.left.IsBlack() == IsBlack(t.node.left) && t.right.IsBlack() == IsBlack(t.node.right)
    {
      CutTree(path, t);
      assert Rep(t.node.left, t.left) && Rep(t.node.right, t.right);
      assert t.node in Nodes(t);
    }

    method Paint(node: Node<K, V>, black: bool, ghost path: Ancestors<K, V>, ghost t: Shape<K, V>)
      requires Sound() && tree == Zip(path, t) && t.Fork? && t.node == node
      modifies nodes`black, this`tree
      ensures Sound() && tree == Zip(path, t.(black := black))
    {
      CutTree(path, t);
      assert node in Nodes(t);
      node.black := black;
      JoinTree(path, t.(black := black));
    }

    // ----- insert nodes

    /** rbtree.c:331-334 and 340-343 */
    method SetTop(parent: Node<K, V>, node: Node?<K, V>)
      requires 1 <= sp < stack.Length
      modifies stack
      ensures stack[..sp - 1] == old(stack[..sp - 1]) && stack[sp - 1] == parent && stack[sp] == node
    {
      stack[sp - 1] := parent;
      stack[sp] := node;
    }

    /** Case 4 (rbtree.c:326-344): an inner grandchild takes its parent's place. */
    method InsertCase4(ghost path: Ancestors<K, V>, ghost t: Shape<K, V>)
      requires path.Down? && path.up.Down? && t.Fork?
      requires Sound() && tree == Zip(path, t) && OnStack(path, t.node)
      modifies this`root, this`tree, stack, nodes
      ensures Sound() && tree == Zip(path.up, Straightened(path, t))
      ensures stack[..sp - 1] == Spine(path.up) && stack[sp - 1] == Straightened(path, t).node
      ensures stack[sp] == RootOf(Outer(path.up, Straightened(path, t)))
    {
      ghost var up, p := path.up, Close(path, t);
      TopOfStack(path, t.node);
      var node, parent, grandparent := stack[sp], stack[sp - 1], stack[sp - 2];
      Parent(path, t);
      Parent(up, p);
      if node == parent.right && parent == grandparent.left {
        RotateLeftAt(parent, grandparent, up, p);
        Parent(up, Straightened(path, t));
        SetTop(node, node.left);
      } else if node == parent.left && parent == grandparent.right {
        RotateRightAt(parent, grandparent, up, p);
        Parent(up, Straightened(path, t));
        SetTop(node, node.right);
      }
    }

    /** Case 5 (rbtree.c:346-368): the grandparent makes way for its red child. */
    method InsertCase5(ghost up: Ancestors<K, V>, ghost s: Shape<K, V>)
      requires up.Down? && s.Fork? && Outer(up, s).Fork?
      requires Sound() && tree == Zip(up, s)
      requires 2 <= sp == Depth(up) + 1 < stack.Length && stack[..sp - 1] == Spine(up)
      requires stack[sp - 1] == s.node && stack[sp] == RootOf(Outer(up, s))
      modifies this`root, this`tree, this`sp, stack, nodes
      ensures Sound() && tree == Zip(up.up, Lift(up, s))
      ensures sp == old(sp) - 1
      ensures stack[..sp] == Spine(up.up) + [s.node] && stack[sp] == RootOf(Outer(up, s))
    {
      assert Spine(up) == Spine(up.up) + [up.node] && Depth(up) == Depth(up.up) + 1;
      var greatGrandparent := null;
      if sp >= 3 {
        greatGrandparent := stack[sp - 3];
      }
      LiftChild(stack[sp], stack[sp - 1], stack[sp - 2], greatGrandparent, up, s);
      stack[sp - 2] := stack[sp - 1];
      stack[sp - 1] := stack[sp];
      sp := sp - 1;
    }

    method LiftChild(node: Node?<K, V>, parent: Node<K, V>, grandparent: Node<K, V>, greatGrandparent: Node?<K, V>,
                     ghost up: Ancestors<K, V>, ghost s: Shape<K, V>)
      requires up.Down? && s.Fork? && Sound() && tree == Zip(up, s)
      requires node == RootOf(Outer(up, s)) && parent == s.node && grandparent == up.node && greatGrandparent == ParentOf(up.up)
      modifies this`root, this`tree, nodes
      ensures Sound() && tree == Zip(up.up, Lift(up, s))
    {
      Parent(up, s);
      Paint(grandparent, false, up.up, Close(up, s));
      ghost var up' := up.(black := false);
      Paint(parent, true, up', s);
      if node == parent.left && parent == grandparent.left {
        RotateRightAt(grandparent, greatGrandparent, up.up, Close(up', Blackened(s)));
      } else {
        RotateLeftAt(grandparent, greatGrandparent, up.up, Close(up', Blackened(s)));
      }
    }

    /** Case 3 (rbtree.c:311-323): parent and uncle turn black, the grandparent red. */
    method Recolour(parent: Node<K, V>, uncle: Node<K, V>, grandparent: Node<K, V>, ghost path: Ancestors<K, V>, ghost t: Shape<K, V>)
      requires path.Down? && path.up.Down? && path.up.sibling.Fork? && Sound() && tree == Zip(path, t)
      requires parent == path.node && grandparent == path.up.node && uncle == path.up.sibling.node
      modifies this`tree, nodes`black
      ensures Sound() && tree == Zip(path.up.up, Recoloured(path, t))
    {
      ghost var up, p := path.up, Close(path, t);
      Paint(parent, true, up, p);
      ghost var p', u := Blackened(p), up.sibling;
      ghost var around := up.(wentLeft := !up.wentLeft, sibling := p');
      assert Close(up, p') == Close(around, u);
      Paint(uncle, true, around, u);
      ghost var g := Close(around, Blackened(u));
      Paint(grandparent, false, up.up, g);
      assert g.(black := false) == Recoloured(path, t);
    }

    method InsertCase1(ghost path: Ancestors<K, V>, ghost t: Shape<K, V>)
      requires t.Fork? && RootBlack(path, true)
      requires Sound() && tree == Zip(path, t) && OnStack(path, t.node)
      modifies this`root, this`tree, this`sp, stack, nodes
      ensures Sound() && tree == Repaired(path, t)
      ensures 0 <= sp < stack.Length
      decreases Depth(path), 1
    {
      var node := stack[sp];
      if sp == 0 {
        Paint(node, true, path, t);
      } else {
        InsertCase2To5(path, t);
      }
    }

    method InsertCase2To5(ghost path: Ancestors<K, V>, ghost t: Shape<K, V>)
      requires path.Down? && t.Fork? && RootBlack(path, true)
      requires Sound() && tree == Zip(path, t) && OnStack(path, t.node)
      modifies this`root, this`tree, this`sp, stack, nodes
      ensures Sound() && tree == Repaired(path, t)
      ensures 0 <= sp < stack.Length
      decreases Depth(path), 0
    {
      TopOfStack(path, t.node);
      var parent := stack[sp - 1];
      Parent(path, t);

      // case 2
      if IsBlack(parent) {
        return;
      }

      // case 3
      assert path.up.Down?;
      ghost var up, top, p := path.up, path.up.up, Close(path, t);
      var grandparent := stack[sp - 2];
      Parent(up, p);
      var uncle := if parent == grandparent.left then grandparent.right else grandparent.left;
      if !IsBlack(uncle) {
        Recolour(parent, uncle, grandparent, path, t);
        sp := sp - 2;
        assert RootBlack(up, false) && RootBlack(top, up.black);
        InsertCase1(top, Recoloured(path, t));
      } else {
        InsertCase4To5(path, t);
      }
    }

    /** Cases 4 and 5 (rbtree.c:326-368), below a black uncle. */
    method InsertCase4To5(ghost path: Ancestors<K, V>, ghost t: Shape<K, V>)
      requires path.Down? && path.up.Down? && t.Fork?
      requires Sound() && tree == Zip(path, t) && OnStack(path, t.node)
      modifies this`root, this`tree, this`sp, stack, nodes
      ensures Sound() && tree == Zip(path.up.up, Lifted(path, t))
      ensures 0 <= sp < stack.Length
    {
      assert Depth(path) == Depth(path.up.up) + 2;
      InsertCase4(path, t);
      InsertCase5(path.up, Straightened(path, t));
    }

    /** No search leaves the stack: the ancestors number at most 2 * log2(count + 1). */
    lemma DepthBound(path: Ancestors<K, V>, t: Shape<K, V>)
      requires RedBlack(tree) && |InOrder(tree)| <= SIZE_MAX && tree == Zip(path, t)
      ensures Pow2(Depth(path) + Height(t)) <= (|InOrder(tree)| + 1) * (|InOrder(tree)| + 1)
      ensures Depth(path) + Height(t) <= 128
    {
      HeightBound(tree);
      PathWithinHeight(path, t);
      Pow2Monotone(Depth(path) + Height(t), Height(tree));
      Square(|InOrder(tree)| + 1, SIZE_MAX + 1);
      Pow2Of128();
      if Depth(path) + Height(t) > 128 {
        Pow2Monotone(129, Depth(path) + Height(t));
        assert false;
      }
    }

    /** `key` belongs into the hole of `path`, if anywhere. */
    ghost predicate Separates(path: Ancestors<K, V>, key: K) {
      Above(compareKeys, key, Before(path)) && Below(compareKeys, key, After(path))
    }

    lemma Descend(path: Ancestors<K, V>, t: Shape<K, V>, key: K)
      requires TotalOrder(compareKeys) && Sorted(compareKeys, InOrder(Zip(path, t)))
      requires t.Fork? && Separates(path, key)
      ensures compareKeys(key, t.entry.key) < 0 ==> Separates(Step(path, t, true), key)
      ensures compareKeys(key, t.entry.key) > 0 ==> Separates(Step(path, t, false), key)
    {
      var a, b := Around(path, t);
      KeySide(compareKeys, a, t.entry, b, key);
      DescendSides(path, t, key);
    }

    /** The entries before and after the one at the root of `t`. */
    lemma Around(path: Ancestors<K, V>, t: Shape<K, V>) returns (a: seq<Entry<K, V>>, b: seq<Entry<K, V>>)
      requires t.Fork?
      ensures a == Before(path) + InOrder(t.left) && b == InOrder(t.right) + After(path)
      ensures a + [t.entry] + b == InOrder(Zip(path, t))
    {
      ZipInOrder(path, t);
      a, b := Before(path) + InOrder(t.left), InOrder(t.right) + After(path);
    }

    lemma DescendSides(path: Ancestors<K, V>, t: Shape<K, V>, key: K)
      requires t.Fork? && Separates(path, key)
      requires compareKeys(key, t.entry.key) >= 0 ==> Above(compareKeys, key, Before(path) + InOrder(t.left))
      requires compareKeys(key, t.entry.key) <= 0 ==> Below(compareKeys, key, InOrder(t.right) + After(path))
      ensures compareKeys(key, t.entry.key) < 0 ==> Separates(Step(path, t, true), key)
      ensures compareKeys(key, t.entry.key) > 0 ==> Separates(Step(path, t, false), key)
    {
      var cmp, e := compareKeys, t.entry;
      StepOrder(path, t);
      BelowParts(cmp, key, [e], InOrder(t.right) + After(path));
      AboveParts(cmp, key, Before(path) + InOrder(t.left), [e]);
    }

    // ----- setting a key

    method ReplaceNode(node: Node<K, V>, key: K, value: V, overwriteKey: bool, ghost path: Ancestors<K, V>, ghost t: Shape<K, V>)
      requires Sound() && tree == Zip(path, t) && t.Fork? && t.node == node
      modifies this`tree, nodes
      ensures Sound() && tree == Zip(path, t.(entry := Entry(if overwriteKey then key else t.entry.key, value)))
    {
      CutTree(path, t);
      if overwriteKey {
        node.key := key;
      }
      node.value := value;
      JoinTree(path, t.(entry := Entry(if overwriteKey then key else t.entry.key, value)));
    }

    /** Replacing an entry changes neither the shape nor the order of the tree. */
    lemma ReplacedEntry(path: Ancestors<K, V>, t: Shape<K, V>, key: K, value: V, overwriteKey: bool)
      requires t.Fork? && RedBlack(Zip(path, t)) && TotalOrder(compareKeys) && Sorted(compareKeys, InOrder(Zip(path, t)))
      requires compareKeys(key, t.entry.key) == 0
      ensures var m, t' := EntrySet(InOrder(Zip(path, t))), t.(entry := Entry(if overwriteKey then key else t.entry.key, value));
              && Has(m, SameKey(compareKeys), key)
              && RedBlack(Zip(path, t')) && Sorted(compareKeys, InOrder(Zip(path, t')))
              && |InOrder(Zip(path, t'))| == |InOrder(Zip(path, t))|
              && EntrySet(InOrder(Zip(path, t'))) == Put(m, SameKey(compareKeys), key, value, overwriteKey)
    {
      var t' := t.(entry := Entry(if overwriteKey then key else t.entry.key, value));
      ZipRedBlack(path, t);
      ZipRedBlack(path, t');
      var a, b := Around(path, t);
      var a', b' := Around(path, t');
      Found(compareKeys, a, t.entry, b, key);
      ReplacedAt(compareKeys, a, t.entry, b, key, value, overwriteKey);
    }

    method Attach(node: Node<K, V>, key: K, value: V, left: bool, ghost path: Ancestors<K, V>, ghost t: Shape<K, V>)
      returns (child: Node<K, V>)
      requires Sound() && tree == Zip(path, t) && t.Fork? && t.node == node
      requires if left then t.left.Leaf? else t.right.Leaf?
      modifies this`tree, this`nodes, node
      ensures Sound() && fresh(child) && nodes == old(nodes) + {child}
      ensures tree == Zip(Step(path, t, left), Fork(child, Entry(key, value), false, Leaf, Leaf))
    {
      CutTree(path, t);
      child := LinkLeaf(node, key, value, left, path, t);
      JoinTree(Step(path, t, left), Fork(child, Entry(key, value), false, Leaf, Leaf));
    }

    method LinkLeaf(node: Node<K, V>, key: K, value: V, left: bool, ghost path: Ancestors<K, V>, ghost t: Shape<K, V>)
      returns (child: Node<K, V>)
      requires Cut(path, t) && t.Fork? && t.node == node
      requires if left then t.left.Leaf? else t.right.Leaf?
      modifies this`nodes, node
      ensures fresh(child) && nodes == old(nodes) + {child}
      ensures Cut(Step(path, t, left), Fork(child, Entry(key, value), false, Leaf, Leaf))
    {
      assert Rep(node.left, t.left) && Rep(node.right, t.right);
      child := new Node(key, value, false);
      nodes := nodes + {child};
      if left {
        node.left := child;
      } else {
        node.right := child;
      }
    }

    /** Repair after attaching a red leaf where `key` belongs. */
    lemma InsertedLeaf(path: Ancestors<K, V>, leaf: Shape<K, V>, key: K, value: V, overwriteKey: bool)
      requires NewLeaf(leaf, key, value)
      requires RedBlack(Zip(path, Leaf)) && TotalOrder(compareKeys) && Sorted(compareKeys, InOrder(Zip(path, Leaf)))
      requires Separates(path, key)
      ensures RootBlack(path, true)
      ensures var m, t' := EntrySet(InOrder(Zip(path, Leaf))), Repaired(path, leaf);
              && !Has(m, SameKey(compareKeys), key)
              && RedBlack(t') && Sorted(compareKeys, InOrder(t'))
              && |InOrder(t')| == |InOrder(Zip(path, Leaf))| + 1
              && EntrySet(InOrder(t')) == Put(m, SameKey(compareKeys), key, value, overwriteKey)
    {
      var none: Shape<K, V> := Leaf;
      ZipRedBlack(path, none);
      RepairRestores(path, leaf);
      RepairKeepsOrder(path, leaf);
      ZipInOrder(path, leaf);
      ZipInOrder(path, none);
      var a, b := Before(path), After(path);
      assert InOrder(leaf) == [leaf.entry];
      assert a + [] + b == a + b;
      Absent(compareKeys, a, b, key);
      InsertedBetween(compareKeys, a, b, key, value, overwriteKey);
    }

    /** Where the search for `key` stands: at the node that `t` hangs from, or at a free place. */
    ghost predicate Reached(node: Node?<K, V>, path: Ancestors<K, V>, t: Shape<K, V>, key: K)
      reads this`tree
    {
      tree == Zip(path, t) && node == RootOf(t) && Separates(path, key)
    }

    /** stack[0..sp] is exactly the way to the hole of `path`. */
    ghost predicate Trail(path: Ancestors<K, V>)
      reads this`sp, this`stack, stack
    {
      -1 <= sp < stack.Length && sp == Depth(path) - 1 && stack[..sp + 1] == Spine(path)
    }

    /** A node is pushed below the ancestors that the stack holds; `stack` then leads to it. */
    method PushNode(node: Node<K, V>, ghost path: Ancestors<K, V>)
      requires StackSized() && Depth(path) <= MAX_DEPTH && Trail(path)
      modifies this`sp, this`stack, stack
      ensures StackSized() && (stack == old(stack) || fresh(stack))
      ensures OnStack(path, node)
    {
      StackPush(node);
    }

    /** Every node on the way is pushed before its key is compared. */
    method Visit(node: Node<K, V>, key: K, ghost path: Ancestors<K, V>, ghost t: Shape<K, V>)
      returns (cmp: int, child: Node?<K, V>, ghost path': Ancestors<K, V>, ghost t': Shape<K, V>)
      requires Sound() && Searchable() && StackSized() && Reached(node, path, t, key) && Trail(path)
      modifies this`sp, this`stack, stack
      ensures StackSized() && (stack == old(stack) || fresh(stack))
      ensures t.Fork? && OnStack(path, node) && cmp == compareKeys(key, t.entry.key)
      ensures path' == Step(path, t, cmp < 0) && t' == (if cmp < 0 then t.left else t.right)
      ensures cmp != 0 ==> Reached(child, path', t', key) && Trail(path')
    {
      DepthBound(path, t);
      Focus(path, t);
      Descend(path, t, key);
      PushNode(node, path);
      cmp := compareKeys(key, node.key);
      child := if cmp < 0 then node.left else node.right;
      path', t' := Step(path, t, cmp < 0), if cmp < 0 then t.left else t.right;
    }

    /** What the search found at the root of `t`: the key, a free place for it below, or a full tree. */
    ghost predicate Outcome(result: SetResult, cmp: int, t: Shape<K, V>)
      requires t.Fork?
      reads this`count
    {
      match result
      case Replaced => cmp == 0
      case New => cmp != 0 && count < SIZE_MAX && (if cmp < 0 then t.left.Leaf? else t.right.Leaf?)
      case Failed => cmp != 0 && count == SIZE_MAX
    }

    /** The search loop of rbtree.c:447-495: down to the key or to a free place for it. */
    method SearchPlace(key: K)
      returns (result: SetResult, node: Node<K, V>, cmp: int, ghost path: Ancestors<K, V>, ghost t: Shape<K, V>)
      requires Sound() && Searchable() && StackSized() && root != null
      modifies this`sp, this`stack, stack
      ensures StackSized() && (stack == old(stack) || fresh(stack))
      ensures t.Fork? && node == t.node && tree == Zip(path, t) && OnStack(path, node)
      ensures Separates(path, key) && cmp == compareKeys(key, t.entry.key)
      ensures Outcome(result, cmp, t)
      ensures path.Down? ==> count < SIZE_MAX
    {
      sp := -1;
      result, node, cmp := Failed, root, 0;
      path, t := Top, tree;
      var done := false;
      while !done
        invariant Sound() && StackSized() && (stack == old(stack) || fresh(stack))
        invariant Reached(node, path, t, key)
        invariant !done ==> Trail(path)
        invariant done ==> OnStack(path, node) && cmp == compareKeys(key, t.entry.key) && Outcome(result, cmp, t)
        invariant path.Down? ==> count < SIZE_MAX
        decreases !done, t
      {
        var child;
        ghost var path', t';
        cmp, child, path', t' := Visit(node, key, path, t);
        if cmp == 0 {
          result, done := Replaced, true;
        } else if count < SIZE_MAX {
          if child != null {
            node, path, t := child, path', t';
          } else {
            result, done := New, true;
          }
        } else {
          result, done := Failed, true;
        }
      }
    }

    /** rbtree.c:474-476 */
    method RepairAbove(child: Node<K, V>, ghost down: Ancestors<K, V>, ghost leaf: Shape<K, V>)
      requires Sound() && StackSized() && Depth(down) <= MAX_DEPTH && down.Down? && leaf.Fork? && RootBlack(down, true)
      requires tree == Zip(down, leaf) && child == leaf.node && Trail(down)
      modifies this`root, this`tree, this`sp, this`stack, stack, nodes
      ensures Sound() && StackSized() && (stack == old(stack) || fresh(stack))
      ensures tree == Repaired(down, leaf)
    {
      PushNode(child, down);
      InsertCase2To5(down, leaf);
    }

    method InsertLeaf(node: Node<K, V>, key: K, value: V, left: bool, ghost path: Ancestors<K, V>, ghost t: Shape<K, V>)
      returns (ghost leaf: Shape<K, V>)
      requires Valid() && tree == Zip(path, t) && t.Fork? && OnStack(path, node) && node == t.node
      requires (if left then t.left.Leaf? else t.right.Leaf?) && Separates(Step(path, t, left), key)
      modifies this`root, this`tree, this`nodes, this`sp, this`stack, stack, nodes
      ensures Sound() && StackSized() && fresh(nodes - old(nodes)) && (stack == old(stack) || fresh(stack))
      ensures NewLeaf(leaf, key, value) && RootBlack(Step(path, t, left), true) && tree == Repaired(Step(path, t, left), leaf)
    {
      ghost var down := Step(path, t, left);
      DepthBound(path, t);
      ZipRedBlack(down, if left then t.left else t.right);
      Focus(path, t);
      var child := Attach(node, key, value, left, path, t);
      leaf := Fork(child, Entry(key, value), false, Leaf, Leaf);
      RepairAbove(child, down, leaf);
    }

    method InsertNew(node: Node<K, V>, key: K, value: V, overwriteKey: bool, cmp: int,
                     ghost path: Ancestors<K, V>, ghost t: Shape<K, V>)
      requires Valid() && tree == Zip(path, t) && t.Fork? && OnStack(path, node) && node == t.node && count < SIZE_MAX
      requires cmp == compareKeys(key, t.entry.key) != 0 && (if cmp < 0 then t.left.Leaf? else t.right.Leaf?)
      requires Separates(path, key)
      modifies this, stack, nodes
      ensures Valid() && fresh(nodes - old(nodes)) && (stack == old(stack) || fresh(stack))
      ensures !old(Knows(key)) && Entries() == Put(old(Entries()), SameKey(compareKeys), key, value, overwriteKey)
    {
      ghost var down := Step(path, t, cmp < 0);
      Descend(path, t, key);
      ghost var leaf := InsertLeaf(node, key, value, cmp < 0, path, t);
      InsertedLeaf(down, leaf, key, value, overwriteKey);
      count := count + 1;
    }

    method InsertSame(node: Node<K, V>, key: K, value: V, overwriteKey: bool, ghost path: Ancestors<K, V>, ghost t: Shape<K, V>)
      requires Sound() && Searchable() && tree == Zip(path, t) && t.Fork? && node == t.node && compareKeys(key, t.entry.key) == 0
      modifies this`tree, nodes
      ensures Sound() && Searchable() && old(Knows(key)) && Entries() == Put(old(Entries()), SameKey(compareKeys), key, value, overwriteKey)
    {
      ReplacedEntry(path, t, key, value, overwriteKey);
      assert Knows(key) && Put(Entries(), SameKey(compareKeys), key, value, overwriteKey)
                           == EntrySet(InOrder(Zip(path, t.(entry := Entry(if overwriteKey then key else t.entry.key, value)))));
      ReplaceNode(node, key, value, overwriteKey, path, t);
    }

    method InsertChild(key: K, value: V, overwriteKey: bool) returns (result: SetResult)
      requires Valid() && root != null
      modifies this, stack, nodes
      ensures Valid() && fresh(nodes - old(nodes)) && (stack == old(stack) || fresh(stack))
      ensures result == Failed <==> old(count) == SIZE_MAX && compareKeys(key, old(root.key)) != 0
      ensures result == Failed ==> Entries() == old(Entries())
      ensures result != Failed ==> Entries() == Put(old(Entries()), SameKey(compareKeys), key, value, overwriteKey)
      ensures result != Failed ==> (result == Replaced <==> old(Knows(key)))
    {
      Focus(Top, tree);
      var node, cmp;
      ghost var path, t;
      result, node, cmp, path, t := SearchPlace(key);
      if result == Replaced {
        InsertSame(node, key, value, overwriteKey, path, t);
      } else if result == New {
        InsertNew(node, key, value, overwriteKey, cmp, path, t);
      }
    }

    lemma CountsEntries()
      requires Searchable()
      ensures count == |Entries()| && Unique(Entries(), SameKey(compareKeys))
    {
      SortedIsUnique(compareKeys, InOrder(tree));
    }

    /** rbtree_set: the red-black tree stays one, and its map is updated at `key`.
        At SIZE_MAX entries only the key at the root can still be set. */
    method Set(key: K, value: V, overwriteKey: bool) returns (result: SetResult)
      requires Valid()
      modifies this, stack, nodes
      ensures Valid() && fresh(nodes - old(nodes)) && (stack == old(stack) || fresh(stack))
      ensures result == Failed <==> old(count) == SIZE_MAX && compareKeys(key, old(root.key)) != 0
      ensures result == Failed ==> Entries() == old(Entries())
      ensures result != Failed ==> Entries() == Put(old(Entries()), SameKey(compareKeys), key, value, overwriteKey)
      ensures result != Failed ==> (result == Replaced <==> old(Knows(key)))
      ensures count == |Entries()|
    {
      if root == null {
        root := new Node(key, value, true);
        count := 1;
        tree := Fork(root, Entry(key, value), true, Leaf, Leaf);
        nodes := {root};
        result := New;
      } else {
        result := InsertChild(key, value, overwriteKey);
      }
      CountsEntries();
    }

    // ----- remove nodes

    /** The hole of a path seen from the other child of the nearest ancestor. */
    ghost function Across(path: Ancestors<K, V>, t: Shape<K, V>): (r: Ancestors<K, V>)
      requires path.Down?
      ensures r.Down? && r.node == path.node && Close(r, path.sibling) == Close(path, t)
    {
      path.(wentLeft := !path.wentLeft, sibling := t)
    }

    method RemoveCase1(ghost path: Ancestors<K, V>, ghost t: Shape<K, V>, ghost h: nat)
      requires t.Fork? && h >= 1 && PathRedBlack(path, h, true) && Depth(path) < MAX_DEPTH
      requires Sound() && tree == Zip(path, t) && OnStack(path, t.node) && StackSized()
      modifies this`root, this`tree, this`sp, this`stack, stack, nodes
      ensures Sound() && tree == Zip(Refitted(path, h), t)
      ensures StackSized() && (stack == old(stack) || fresh(stack))
      decreases Depth(path), 3
    {
      if sp > 0 {
        RemoveCase2(path, t, h);
      }
    }

    method RemoveCase2(ghost path: Ancestors<K, V>, ghost t: Shape<K, V>, ghost h: nat)
      requires path.Down? && t.Fork? && h >= 1 && PathRedBlack(path, h, true) && Depth(path) < MAX_DEPTH
      requires Sound() && tree == Zip(path, t) && OnStack(path, t.node) && StackSized()
      modifies this`root, this`tree, this`sp, this`stack, stack, nodes
      ensures Sound() && tree == Zip(Refitted(path, h), t)
      ensures StackSized() && (stack == old(stack) || fresh(stack))
      decreases Depth(path), 2
    {
      TopOfStack(path, t.node);
      Parent(path, t);
      BlackSiblingFits(path, h);
      var node, parent := stack[sp], stack[sp - 1];
      var sibling := if parent.right == node then parent.left else parent.right;
      if !IsBlack(sibling) {
        var grandparent := null;
        if sp >= 2 {
          grandparent := stack[sp - 2];
        }
        SiblingUp(node, parent, sibling, grandparent, path, t);
        Demote(node, parent, sibling, path);
      }
      RemoveCase3To6(BlackSibling(path), t, h);
    }

    /** The stack after case 2: one ancestor more, the sibling above the parent. */
    method Demote(node: Node<K, V>, parent: Node<K, V>, sibling: Node<K, V>, ghost path: Ancestors<K, V>)
      requires path.Down? && path.sibling.Fork? && !path.sibling.black && Depth(path) < MAX_DEPTH
      requires OnStack(path, node) && StackSized() && parent == path.node && sibling == path.sibling.node
      modifies this`sp, this`stack, stack
      ensures OnStack(BlackSibling(path), node) && StackSized() && (stack == old(stack) || fresh(stack))
    {
      StackPush(node);
      ghost var s := stack[..sp + 1];
      assert s == (Spine(path.up) + [path.node] + [node]) + [node];
      SpineLength(path.up);
      stack[sp - 1] := parent;
      stack[sp - 2] := sibling;
      assert stack[..sp + 1] == s[sp - 1 := parent][sp - 2 := sibling];
      Demoted(Spine(path.up), node, parent, sibling);
    }

    lemma Demoted(up: seq<Node<K, V>>, node: Node<K, V>, parent: Node<K, V>, sibling: Node<K, V>)
      ensures ((up + [parent] + [node]) + [node])[|up| + 1 := parent][|up| := sibling] == (up + [sibling] + [parent]) + [node]
    {
    }

    /** Case 2 proper (rbtree.c:752-776): the red sibling goes above the parent. */
    method SiblingUp(node: Node<K, V>, parent: Node<K, V>, sibling: Node<K, V>, grandparent: Node?<K, V>,
                     ghost path: Ancestors<K, V>, ghost t: Shape<K, V>)
      requires path.Down? && t.Fork? && path.sibling.Fork? && Sound() && tree == Zip(path, t)
      requires node == t.node && parent == path.node && sibling == path.sibling.node && grandparent == ParentOf(path.up)
      modifies this`root, this`tree, nodes
      ensures Sound() && tree == Zip(SiblingAbove(path, false, true, Far(path)), t)
    {
      Parent(path, t);
      Paint(parent, false, path.up, Close(path, t));
      ghost var path' := path.(black := false);
      Paint(sibling, true, Across(path', t), path.sibling);
      ghost var p := Close(Across(path', t), Blackened(path.sibling));
      if parent.left == node {
        RotateLeftAt(parent, grandparent, path.up, p);
      } else {
        RotateRightAt(parent, grandparent, path.up, p);
      }
    }

    /** Cases 3 and 4 (rbtree.c:672-691): the sibling turns red; the defect moves to
        a black parent or ends at a red one. */
    method RemoveCase3Or4(parent: Node<K, V>, sibling: Node<K, V>, ghost path: Ancestors<K, V>, ghost t: Shape<K, V>, ghost h: nat)
      requires path.Down? && t.Fork? && h >= 1 && PathRedBlack(path, h, true) && Depth(path) <= MAX_DEPTH
      requires path.sibling.Fork? && Case3or4(path)
      requires parent == path.node && sibling == path.sibling.node
      requires Sound() && tree == Zip(path, t) && OnStack(path, t.node) && StackSized()
      modifies this`root, this`tree, this`sp, this`stack, stack, nodes
      ensures Sound() && tree == Zip(RefittedBelowBlack(path, h), t)
      ensures StackSized() && (stack == old(stack) || fresh(stack))
      decreases if path.black then Depth(path) else 0, 0
    {
      TopOfStack(path, t.node);
      Parent(path, t);
      ghost var path' := path.(sibling := Reddened(path.sibling));
      assert PathRedBlack(path.up, h + (if path.black then 1 else 0), path.black);
      assert Depth(path) == Depth(path.up) + 1;
      Paint(sibling, false, Across(path, t), path.sibling);
      Parent(path', t);
      if IsBlack(parent) {
        // case 3
        sp := sp - 1;
        RemoveCase1(path.up, Close(path', t), h + 1);
      } else {
        // case 4
        Paint(parent, true, path.up, Close(path', t));
      }
    }

    method RemoveCase3To6(ghost path: Ancestors<K, V>, ghost t: Shape<K, V>, ghost h: nat)
      requires path.Down? && t.Fork? && h >= 1 && PathRedBlack(path, h, true) && Depth(path) <= MAX_DEPTH
      requires path.sibling.Fork? && path.sibling.black
      requires Sound() && tree == Zip(path, t) && OnStack(path, t.node) && StackSized()
      modifies this`root, this`tree, this`sp, this`stack, stack, nodes
      ensures Sound() && tree == Zip(RefittedBelowBlack(path, h), t)
      ensures StackSized() && (stack == old(stack) || fresh(stack))
      decreases if path.black then Depth(path) else 0, 1
    {
      TopOfStack(path, t.node);
      Parent(path, t);
      Focus(Across(path, t), path.sibling);
      var node, parent := stack[sp], stack[sp - 1];
      var sibling := if parent.right == node then parent.left else parent.right;
      assert sibling != null;
      if IsBlack(sibling) && IsBlack(sibling.left) && IsBlack(sibling.right) {
        RemoveCase3Or4(parent, sibling, path, t, h);
      } else {
        var grandparent := null;
        if sp >= 2 {
          grandparent := stack[sp - 2];
        }
        FarRedFits(path, h);
        RemoveCase5(node, parent, sibling, path, t);
        RemoveCase6(node, parent, grandparent, FarRed(path), t);
      }
    }

    /** Case 5 (rbtree.c:693-707): a red near nephew takes the sibling's place. */
    method RemoveCase5(node: Node<K, V>, parent: Node<K, V>, sibling: Node<K, V>, ghost path: Ancestors<K, V>, ghost t: Shape<K, V>)
      requires path.Down? && t.Fork? && path.sibling.Fork? && Sound() && tree == Zip(path, t)
      requires node == t.node && parent == path.node && sibling == path.sibling.node
      modifies this`root, this`tree, nodes
      ensures Sound() && tree == Zip(FarRed(path), t)
    {
      Parent(path, t);
      ghost var across, s := Across(path, t), path.sibling;
      Focus(across, s);
      if node == parent.left && IsBlack(sibling) && !IsBlack(sibling.left) && IsBlack(sibling.right) {
        Paint(sibling, false, across, s);
        Paint(sibling.left, true, Step(across, Reddened(s), true), s.left);
        RotateRightAt(sibling, parent, across, Reddened(s).(left := Blackened(s.left)));
      } else if node == parent.right && IsBlack(sibling) && IsBlack(sibling.left) && !IsBlack(sibling.right) {
        Paint(sibling, false, across, s);
        Paint(sibling.right, true, Step(across, Reddened(s), false), s.right);
        RotateLeftAt(sibling, parent, across, Reddened(s).(right := Blackened(s.right)));
      }
    }

    /** Case 6 (rbtree.c:709-731): the sibling goes above the parent and takes its colour. */
    method RemoveCase6(node: Node<K, V>, parent: Node<K, V>, grandparent: Node?<K, V>, ghost path: Ancestors<K, V>, ghost t: Shape<K, V>)
      requires path.Down? && t.Fork? && path.sibling.Fork? && Far(path).Fork? && Sound() && tree == Zip(path, t)
      requires node == t.node && parent == path.node && grandparent == ParentOf(path.up)
      modifies this`root, this`tree, nodes
      ensures Sound() && tree == Zip(SiblingAbove(path, true, path.black, Blackened(Far(path))), t)
    {
      Parent(path, t);
      ghost var s := path.sibling;
      Focus(Across(path, t), s);
      var left := node == parent.left;
      var sibling := if left then parent.right else parent.left;
      Paint(sibling, parent.black, Across(path, t), s);
      ghost var s' := s.(black := path.black);
      Paint(parent, true, path.up, Close(Across(path, t), s'));
      ghost var across := Across(path.(black := true), t);
      Focus(across, s');
      if left {
        Paint(sibling.right, true, Step(across, s', false), s'.right);
        RotateLeftAt(parent, grandparent, path.up, Close(across, s'.(right := Blackened(s'.right))));
      } else {
        Paint(sibling.left, true, Step(across, s', true), s'.left);
        RotateRightAt(parent, grandparent, path.up, Close(across, s'.(left := Blackened(s'.left))));
      }
    }

    // ----- unlinking a node with at most one child

    method Unlink(ghost path: Ancestors<K, V>, ghost t: Shape<K, V>)
      requires Sound() && RedBlack(tree) && tree == Zip(path, t) && StackSized()
      requires t.Fork? && OneChild(t) && OnStack(path, t.node) && Depth(path) < MAX_DEPTH
      modifies this`root, this`tree, this`nodes, this`sp, this`stack, stack, nodes
      ensures Sound() && StackSized() && (stack == old(stack) || fresh(stack))
      ensures nodes == old(nodes) - {t.node}
      ensures tree == Unlinked(path, t)
    {
      var node := stack[sp];
      Focus(path, t);
      var child := if node.right != null then node.right else node.left;
      var parent := null;
      if sp > 0 {
        TopOfStack(path, node);
        parent := stack[sp - 1];
      }
      ZipRedBlack(path, t);
      ghost var path', t' := RepairFor(node, child, path, t);
      SpliceIn(node, parent, child, path', t');
    }

    /** rbtree.c:837-845: repair before a black node is spliced out, which is painted red
        above a red child. */
    method RepairFor(node: Node<K, V>, child: Node?<K, V>, ghost path: Ancestors<K, V>, ghost t: Shape<K, V>)
      returns (ghost path': Ancestors<K, V>, ghost t': Shape<K, V>)
      requires Sound() && tree == Zip(path, t) && StackSized()
      requires t.Fork? && t.black ==> BlackHeight(t) >= 1 && PathRedBlack(path, BlackHeight(t), true)
      requires t.Fork? && t.node == node && OneChild(t) && child == RootOf(OnlyChild(t)) && IsBlack(node) == t.black
      requires IsBlack(child) == OnlyChild(t).IsBlack()
      requires OnStack(path, node) && Depth(path) < MAX_DEPTH
      modifies this`root, this`tree, this`sp, this`stack, stack, nodes
      ensures Sound() && StackSized() && (stack == old(stack) || fresh(stack)) && tree == Zip(path', t')
      ensures t' == t || t' == t.(black := false)
      ensures path' == if t.black then Refitted(path, BlackHeight(t)) else path
    {
      path', t' := path, t;
      if IsBlack(node) {
        if !IsBlack(child) {
          Paint(node, false, path, t);
          t' := t.(black := false);
        }
        RemoveCase1(path, t', BlackHeight(t));
        path' := Refitted(path, BlackHeight(t));
      }
    }

    /** rbtree.c:847-852: the child takes the node's place, and turns black only as the root. */
    method SpliceIn(node: Node<K, V>, parent: Node?<K, V>, child: Node?<K, V>, ghost path: Ancestors<K, V>, ghost t: Shape<K, V>)
      requires Sound() && tree == Zip(path, t) && t.Fork? && OneChild(t) && t.node == node
      requires parent == ParentOf(path) && child == RootOf(OnlyChild(t))
      modifies this`root, this`tree, this`nodes, nodes
      ensures Sound() && nodes == old(nodes) - {node}
      ensures var c := OnlyChild(t); tree == Zip(path, if path.Top? && c.Fork? then Blackened(c) else c)
    {
      Detach(node, parent, child, path, t);
      if parent == null && child != null {
        Paint(child, true, path, OnlyChild(t));
      }
    }

    /** The splice of rbtree.c:847: the child takes the place of its parent. */
    method Detach(node: Node<K, V>, parent: Node?<K, V>, child: Node?<K, V>, ghost path: Ancestors<K, V>, ghost t: Shape<K, V>)
      requires Sound() && tree == Zip(path, t) && t.Fork? && OneChild(t) && t.node == node
      requires parent == ParentOf(path) && child == RootOf(OnlyChild(t))
      modifies this`root, this`tree, this`nodes, nodes
      ensures Sound() && tree == Zip(path, OnlyChild(t)) && nodes == old(nodes) - {node}
    {
      CutTree(path, t);
      ghost var c := OnlyChild(t);
      assert Rep(node.left, t.left) && Rep(node.right, t.right);
      assert child == if t.right.Fork? then node.right else node.left;
      assert Nodes(t) == {node} + Nodes(c) && Rep(child, c);
      Replace(node, parent, child, path);
      nodes := nodes - {node};
      JoinTree(path, c);
    }

    // ----- search and removal

    lemma AbsentAt(path: Ancestors<K, V>, key: K)
      requires tree == Zip(path, Leaf) && Separates(path, key)
      ensures !Knows(key)
    {
      var none: Shape<K, V> := Leaf;
      ZipInOrder(path, none);
      Absent(compareKeys, Before(path), After(path), key);
      assert InOrder(tree) == Before(path) + After(path);
    }

    lemma FoundAt(path: Ancestors<K, V>, t: Shape<K, V>, key: K)
      requires Searchable() && tree == Zip(path, t) && t.Fork? && compareKeys(key, t.entry.key) == 0
      ensures Finds(Entries(), SameKey(compareKeys), key, Some(t.entry))
    {
      var a, b := Around(path, t);
      Found(compareKeys, a, t.entry, b, key);
    }

    /** _rbtree_find_node without building the stack: the one node with the key, or null
        if there is none. */
    method FindNode(key: K) returns (node: Node?<K, V>)
      requires Sound() && Searchable()
      ensures node == null ==> !Knows(key)
      ensures node != null ==> node in nodes && Finds(Entries(), SameKey(compareKeys), key, Some(Entry(node.key, node.value)))
    {
      node := root;
      ghost var path, t := Top, tree;
      while node != null
        invariant Reached(node, path, t, key)
        decreases t
      {
        Focus(path, t);
        Descend(path, t, key);
        var result := compareKeys(key, node.key);
        if result == 0 {
          FoundAt(path, t, key);
          return;
        }
        node := if result < 0 then node.left else node.right;
        path, t := Step(path, t, result < 0), if result < 0 then t.left else t.right;
      }
      AbsentAt(path, key);
    }

    /** The same search, building the stack of ancestors. */
    method FindNodeOnStack(key: K) returns (node: Node?<K, V>, ghost path: Ancestors<K, V>, ghost t: Shape<K, V>)
      requires Sound() && Searchable() && StackSized() && sp == -1
      modifies this`sp, this`stack, stack
      ensures StackSized() && (stack == old(stack) || fresh(stack))
      ensures Reached(node, path, t, key)
      ensures t.Fork? ==> compareKeys(key, t.entry.key) == 0 && OnStack(path, t.node)
    {
      node := root;
      path, t := Top, tree;
      while node != null
        invariant Sound() && StackSized() && (stack == old(stack) || fresh(stack))
        invariant Reached(node, path, t, key) && Trail(path)
        decreases t
      {
        var result, child;
        ghost var path', t';
        result, child, path', t' := Visit(node, key, path, t);
        if result == 0 {
          return;
        }
        node, path, t := child, path', t';
      }
    }

    /** rbtree_lookup: the entry under `key`, if the map has one. */
    method Lookup(key: K) returns (result: Option<Entry<K, V>>)
      requires Valid()
      ensures Finds(Entries(), SameKey(compareKeys), key, result)
    {
      var node := FindNode(key);
      return if node == null then None else Some(Entry(node.key, node.value));
    }

    /** rbtree_key_exists */
    method KeyExists(key: K) returns (found: bool)
      requires Valid()
      ensures found == Knows(key)
    {
      var node := FindNode(key);
      return node != null;
    }

    method Clear()
      requires Valid()
      modifies this
      ensures Valid() && Entries() == {} && count == 0 && stack == old(stack)
      ensures nodes == {}
    {
      sp := -1;
      count := 0;
      root := null;
      tree, nodes := Leaf, {};
    }

    /** _rbtree_find_max_node: down to the right, pushing every node. */
    method FindMaxNode(start: Node<K, V>, ghost path: Ancestors<K, V>, ghost t: Shape<K, V>) returns (node: Node<K, V>)
      requires Sound() && StackSized() && Depth(path) + Height(t) < MAX_DEPTH
      requires tree == Zip(path, t) && t.Fork? && start == t.node
      requires Trail(path)
      modifies this`sp, this`stack, stack
      ensures StackSized() && (stack == old(stack) || fresh(stack))
      ensures var (p, m) := Rightmost(path, t); node == m.node && OnStack(p, node)
    {
      node := start;
      ghost var p, m := path, t;
      PushMax(node, p, m);
      while node.right != null
        invariant Sound() && StackSized() && (stack == old(stack) || fresh(stack))
        invariant tree == Zip(p, m) && m.Fork? && node == m.node && node.right == RootOf(m.right)
        invariant Depth(p) + Height(m) < MAX_DEPTH && Rightmost(p, m) == Rightmost(path, t)
        invariant OnStack(p, node)
        decreases m
      {
        assert Rightmost(p, m) == Rightmost(Step(p, m, false), m.right);
        node := node.right;
        p, m := Step(p, m, false), m.right;
        PushMax(node, p, m);
      }
    }

    method PushMax(node: Node<K, V>, ghost path: Ancestors<K, V>, ghost t: Shape<K, V>)
      requires Sound() && StackSized() && Depth(path) < MAX_DEPTH && tree == Zip(path, t) && t.Fork? && node == t.node
      requires Trail(path)
      modifies this`sp, this`stack, stack
      ensures Sound() && StackSized() && (stack == old(stack) || fresh(stack))
      ensures OnStack(path, node) && node.right == RootOf(t.right)
    {
      Focus(path, t);
      PushNode(node, path);
    }

    /** rbtree.c:819-827: the largest entry on the left replaces the removed one;
        its old node is the one to unlink. */
    method TakeMax(node: Node<K, V>, ghost path: Ancestors<K, V>, ghost t: Shape<K, V>)
      requires Sound() && StackSized() && Depth(path) + Height(t) < MAX_DEPTH
      requires tree == Zip(path, t) && t.Fork? && t.left.Fork? && OnStack(path, node) && node == t.node
      modifies this`tree, this`sp, this`stack, stack, nodes
      ensures Sound() && StackSized() && (stack == old(stack) || fresh(stack))
      ensures tree == Zip(path, MaxMoved(path, t))
      ensures var (p, m) := MaxCut(path, t); tree == Zip(p, m) && OnStack(p, m.node) && Depth(p) < MAX_DEPTH
    {
      Focus(path, t);
      ghost var down := Step(path, t, true);
      assert stack[..sp + 1] == Spine(down);
      var max := FindMaxNode(node.left, down, t.left);
      ghost var (p, m) := Rightmost(down, t.left);
      Focus(p, m);
      ReplaceNode(node, max.key, max.value, true, path, t);
      MaxCutSpine(path, t);
    }

    /** The contents after unlinking are those before without the entry of `t`. */
    lemma RemovedEntry(path: Ancestors<K, V>, t: Shape<K, V>, key: K)
      requires t.Fork? && RedBlack(Zip(path, t)) && TotalOrder(compareKeys) && Sorted(compareKeys, InOrder(Zip(path, t)))
      requires compareKeys(key, t.entry.key) == 0
      ensures RedBlack(Removed(path, t)) && Sorted(compareKeys, InOrder(Removed(path, t)))
      ensures |InOrder(Removed(path, t))| + 1 == |InOrder(Zip(path, t))|
      ensures EntrySet(InOrder(Removed(path, t))) == Without(EntrySet(InOrder(Zip(path, t))), SameKey(compareKeys), key)
    {
      var a, b := Around(path, t);
      RemovedOrder(path, t);
      RemovedAt(compareKeys, a, t.entry, b, key);
    }

    method RemoveFound(node: Node<K, V>, ghost path: Ancestors<K, V>, ghost t: Shape<K, V>)
      requires Sound() && RedBlack(tree) && |InOrder(tree)| <= SIZE_MAX && StackSized()
      requires tree == Zip(path, t) && t.Fork? && OnStack(path, node) && node == t.node
      modifies this`root, this`tree, this`nodes, this`sp, this`stack, stack, nodes
      ensures Sound() && StackSized() && nodes <= old(nodes) && (stack == old(stack) || fresh(stack))
      ensures tree == Removed(path, t)
    {
      DepthBound(path, t);
      Focus(path, t);
      if node.left != null && node.right != null {
        MaxMovedRedBlack(path, t);
        TakeMax(node, path, t);
        ghost var (p, m) := MaxCut(path, t);
        Unlink(p, m);
      } else {
        Unlink(path, t);
      }
    }

    method RemoveKey(key: K, node: Node<K, V>, ghost path: Ancestors<K, V>, ghost t: Shape<K, V>)
      requires Valid() && tree == Zip(path, t) && t.Fork? && OnStack(path, node) && node == t.node
      requires compareKeys(key, t.entry.key) == 0
      modifies this, stack, nodes
      ensures Valid() && nodes <= old(nodes) && (stack == old(stack) || fresh(stack))
      ensures old(Knows(key)) && Entries() == Without(old(Entries()), SameKey(compareKeys), key)
    {
      FoundAt(path, t, key);
      RemovedEntry(path, t, key);
      RemoveFound(node, path, t);
      count := count - 1;
    }

    /** rbtree_remove: the tree stays red-black and loses exactly `key`. */
    method Remove(key: K) returns (removed: bool)
      requires Valid()
      modifies this, stack, nodes
      ensures Valid() && nodes <= old(nodes) && (stack == old(stack) || fresh(stack))
      ensures removed == old(Knows(key))
      ensures Entries() == Without(old(Entries()), SameKey(compareKeys), key)
      ensures count == |Entries()|
    {
      sp := -1;
      var node;
      ghost var path, t;
      node, path, t := FindNodeOnStack(key);
      removed := node != null;
      if removed {
        RemoveKey(key, node, path, t);
      } else {
        AbsentAt(path, key);
      }
      CountsEntries();
    }
  }

  ghost predicate NewLeaf<K, V>(leaf: Shape<K, V>, key: K, value: V) {
    leaf.Fork? && leaf.entry == Entry(key, value) && !leaf.black && leaf.left.Leaf? && leaf.right.Leaf?
  }

  /** A missing node counts as black. */
  predicate IsBlack<K, V>(n: Node?<K, V>)
    reads n
  {
    n == null || n.black
  }
}
