/** The tree iterator (rbtree.c:870-999): an automaton over a stack of nodes, each
    with the number of its subtrees that have been entered.
 */
module RbIter {
  import opened MapSpec
  import opened RbShape
  import opened RbHeap
  import opened RbTree

  /** The order of the visits: a node, what is on its left, what is on its right. */
  function PreOrder<N, E>(t: Tree<N, E>): seq<E> {
    match t
    case Leaf => []
    case Fork(_, e, _, l, r) => [e] + PreOrder(l) + PreOrder(r)
  }

  /** Every entry is visited exactly as often as it is stored. */
  lemma {:induction false} VisitsEachEntry<N, E>(t: Tree<N, E>)
    ensures multiset(PreOrder(t)) == multiset(InOrder(t)) && |PreOrder(t)| == |InOrder(t)|
  {
    if t.Fork? {
      VisitsEachEntry(t.left);
      VisitsEachEntry(t.right);
    }
  }

  lemma {:induction false} HeightWithinSize<N, E>(t: Tree<N, E>)
    ensures Height(t) <= |InOrder(t)|
  {
    if t.Fork? {
      HeightWithinSize(t.left);
      HeightWithinSize(t.right);
    }
  }

  datatype Item<K, V> = Item(node: Node?<K, V>, state: int)

  /** What is left to visit below a node that has been visited itself. */
  function Todo<N, E>(t: Tree<N, E>, state: int): seq<E> {
    if t.Leaf? || state > 1 then [] else if state == 1 then PreOrder(t.right) else PreOrder(t.left) + PreOrder(t.right)
  }

  /** How often the automaton can still move before it leaves `t`. */
  function Moves<N, E>(t: Tree<N, E>, state: int): nat {
    if t.Leaf? || state > 2 then 0
    else if state == 2 then 1
    else if state == 1 then 2 + Moves(t.right, 0)
    else 3 + Moves(t.left, 0) + Moves(t.right, 0)
  }

  /** The stack of the automaton, top first: the subtree `t` below `path` in the
      given state, and what is under it on the stack. */
  datatype Walk<K, V> = Start | On(path: Ancestors<K, V>, t: Shape<K, V>, state: int, back: Walk<K, V>)

  ghost function Items<K, V>(w: Walk<K, V>): (s: seq<Item<K, V>>)
    ensures w.On? ==> s != []
  {
    match w
    case Start => []
    case On(_, t, state, back) => Items(back) + [Item(RootOf(t), state)]
  }

  ghost function AllTodo<K, V>(w: Walk<K, V>): seq<Entry<K, V>> {
    match w
    case Start => []
    case On(_, t, state, back) => Todo(t, state) + AllTodo(back)
  }

  ghost function AllMoves<K, V>(w: Walk<K, V>): nat {
    match w
    case Start => 0
    case On(_, t, state, back) => Moves(t, state) + AllMoves(back)
  }

  /** Each place is entered from the one under it, by the state that one is in. */
  ghost predicate Leads<K, V>(w: Walk<K, V>, whole: Shape<K, V>) {
    match w
    case Start => true
    case On(path, t, _, Start) => path == Top && t == whole
    case On(path, t, _, back) =>
      && back.t.Fork? && 1 <= back.state <= 2 && Leads(back, whole)
      && path == Step(back.path, back.t, back.state == 1)
      && t == if back.state == 1 then back.t.left else back.t.right
  }

  lemma {:induction false} LeadsToCut<K, V>(w: Walk<K, V>, whole: Shape<K, V>)
    requires w.On? && Leads(w, whole)
    ensures Zip(w.path, w.t) == whole && |Items(w)| == Depth(w.path) + 1
    ensures |Items(w)| - 1 + Height(w.t) <= |InOrder(whole)|
  {
    if w.back.On? {
      LeadsToCut(w.back, whole);
    }
    PathWithinHeight(w.path, w.t);
    HeightWithinSize(whole);
  }

  ghost function RootEntry<N, E>(t: Tree<N, E>): seq<E> {
    if t.Leaf? then [] else [t.entry]
  }

  /** The walk after entering the next child. */
  ghost function Entered<K, V>(w: Walk<K, V>): (r: Walk<K, V>)
    requires w.On? && w.t.Fork? && 0 <= w.state <= 1
    ensures r.On? && r.state == 0 && r.t == if w.state == 0 then w.t.left else w.t.right
    ensures r.back == w.(state := w.state + 1)
  {
    On(Step(w.path, w.t, w.state == 0), if w.state == 0 then w.t.left else w.t.right, 0, w.(state := w.state + 1))
  }

  lemma Reassociate<E>(a: seq<E>, b: seq<E>, c: seq<E>, d: seq<E>)
    ensures a + (b + (c + d)) == a + b + c + d
  {
  }

  /** Entering a child visits its entry and leaves everything else to do. */
  lemma EnteredLaws<K, V>(w: Walk<K, V>, whole: Shape<K, V>)
    requires w.On? && w.t.Fork? && 0 <= w.state <= 1 && Leads(w, whole)
    ensures var r := Entered(w);
            && Leads(r, whole) && AllMoves(r) < AllMoves(w)
            && AllTodo(w) == RootEntry(r.t) + AllTodo(r)
  {
    var r := Entered(w);
    assert Leads(r.back, whole);
    assert AllTodo(r.back) == Todo(w.t, w.state + 1) + AllTodo(w.back);
    Reassociate(RootEntry(r.t), Todo(r.t, 0), Todo(w.t, w.state + 1), AllTodo(w.back));
    assert RootEntry(r.t) + Todo(r.t, 0) == PreOrder(r.t);
    assert Todo(w.t, w.state) == PreOrder(r.t) + Todo(w.t, w.state + 1);
  }

  /** The walk after one turn of the automaton: to the next child, or back; and back
      again where there is no child. */
  ghost function Turned<K, V>(w: Walk<K, V>): Walk<K, V>
    requires w.On? && w.t.Fork? && 0 <= w.state <= 2
  {
    var r := if w.state <= 1 then Entered(w) else w.back;
    if r.On? && r.t.Leaf? then r.back else r
  }

  /** A turn arrives at a child just when it visits one. */
  ghost predicate Arrives<K, V>(w: Walk<K, V>)
    requires w.On? && w.t.Fork? && 0 <= w.state <= 2
  {
    w.state <= 1 && Entered(w).t.Fork?
  }

  /** Each turn uses up a move and loses no visit to come. */
  lemma TurnedLaws<K, V>(w: Walk<K, V>, whole: Shape<K, V>)
    requires w.On? && w.t.Fork? && 0 <= w.state <= 2 && Leads(w, whole)
    ensures var r := Turned(w);
            && Leads(r, whole) && AllMoves(r) < AllMoves(w)
            && (r.On? ==> r.t.Fork? && if Arrives(w) then r.state == 0 else 1 <= r.state <= 2) && (Arrives(w) ==> r.On?)
            && AllTodo(w) == (if Arrives(w) then RootEntry(r.t) else []) + AllTodo(r)
  {
    if w.state <= 1 {
      EnteredLaws(w, whole);
    }
  }

  /** The slots after entering a child are as many as there are, at most. */
  lemma EnteredFits<K, V>(w: Walk<K, V>, whole: Shape<K, V>)
    requires w.On? && w.t.Fork? && 0 <= w.state <= 1 && Leads(w, whole)
    ensures var r := Entered(w);
            && Leads(r, whole) && |Items(r)| <= |InOrder(whole)| + 1
            && Items(r) == Items(w.back) + [Item(RootOf(w.t), w.state + 1)] + [Item(RootOf(r.t), 0)]
  {
    EnteredLaws(w, whole);
    LeadsToCut(Entered(w), whole);
  }

  class RBTreeIter<K(!new), V> {
    const tree: RBTree<K, V>
    var stack: array<Item<K, V>>
    var sp: int  // -1 before the first call
    var finished: bool

    ghost const shape: Shape<K, V>
    ghost var walk: Walk<K, V>

    /** The slots in use are the walk, and there is a slot for every place it can reach. */
    ghost predicate Walking()
      reads this, stack
    {
      && stack.Length == |InOrder(shape)| + 1 && -1 <= sp < stack.Length
      && stack[..sp + 1] == Items(walk) && Leads(walk, shape)
    }

    /** The tree is as it was when the iteration began, and the walk stands on the
        entry visited last. */
    ghost predicate Valid()
      reads this, stack, tree, tree.nodes
    {
      && tree.Sound() && tree.tree == shape
      && (!finished ==> Walking() && shape.Fork? && (walk.On? ==> walk.t.Fork? && walk.state == 0))
    }

    /** The entries not yet visited, in the order of the visits to come. */
    ghost function Remaining(): seq<Entry<K, V>>
      reads this
    {
      if finished then [] else if walk.Start? then PreOrder(shape) else AllTodo(walk)
    }

    constructor (tree: RBTree<K, V>)
      requires tree.Valid()
      ensures Valid() && this.tree == tree && shape == tree.tree && fresh(stack)
      ensures Remaining() == PreOrder(tree.tree)
    {
      this.tree := tree;
      shape := tree.tree;
      sp := -1;
      walk := Start;
      finished := tree.root == null;
      stack := new Item<K, V>[tree.count + 1](_ => Item(null, 0));
    }

    method Current() returns (e: Entry<K, V>)
      requires Valid() && !finished && walk.On?
      ensures walk.t.Fork? && e == walk.t.entry
    {
      LeadsToCut(walk, shape);
      tree.Focus(walk.path, walk.t);
      assert stack[sp] == Items(walk)[|Items(walk)| - 1];
      e := Entry(stack[sp].node.key, stack[sp].node.value);
    }

    lemma OnTop(under: seq<Item<K, V>>, a: Item<K, V>, b: Item<K, V>, c: Item<K, V>)
      ensures (under + [a])[|under| := b] + [c] == under + [b] + [c]
    {
    }

    method Enter(child: Node?<K, V>)
      requires 0 <= sp && sp + 1 < stack.Length
      modifies this`sp, stack
      ensures sp == old(sp) + 1
      ensures var s := old(stack[..sp + 1]);
              stack[..sp + 1] == s[old(sp) := Item(s[old(sp)].node, s[old(sp)].state + 1)] + [Item(child, 0)]
    {
      stack[sp] := Item(stack[sp].node, stack[sp].state + 1);
      sp := sp + 1;
      stack[sp] := Item(child, 0);
    }

    /** The push of rbtree.c:951-964: on to a child, which may be missing. */
    method Push(child: Node?<K, V>)
      requires Walking() && walk.On? && walk.t.Fork? && 0 <= walk.state <= 1 && child == RootOf(Entered(walk).t)
      modifies this`sp, this`walk, stack
      ensures Walking() && walk == Entered(old(walk)) && sp >= 0
    {
      EnteredFits(walk, shape);
      ghost var under := Items(walk.back);
      assert stack[..sp + 1] == under + [Item(RootOf(walk.t), walk.state)];
      Enter(child);
      OnTop(under, Item(RootOf(walk.t), walk.state), Item(RootOf(walk.t), walk.state + 1), Item(child, 0));
      walk := Entered(walk);
    }

    /** The pops of rbtree.c:965-969 and 987. */
    method Pop()
      requires Walking() && walk.On?
      modifies this`sp, this`walk
      ensures Walking() && walk == old(walk).back && (sp >= 0 <==> walk.On?)
    {
      assert stack[..sp] == Items(walk.back);
      sp := sp - 1;
      walk := walk.back;
    }

    /** What the array knows about the top of the walk, and the heap about its node. */
    lemma TopItem()
      requires Walking() && walk.On? && tree.Sound() && tree.tree == shape
      ensures sp >= 0 && stack[sp] == Item(RootOf(walk.t), walk.state)
      ensures walk.t.Fork? ==> walk.t.node.left == RootOf(walk.t.left) && walk.t.node.right == RootOf(walk.t.right)
    {
      LeadsToCut(walk, shape);
      assert stack[sp] == Items(walk)[|Items(walk)| - 1];
      if walk.t.Fork? {
        tree.Focus(walk.path, walk.t);
      }
    }

    /** rbtree.c:951-969: to the next child, or back. */
    method Move()
      requires Walking() && walk.On? && walk.t.Fork? && 0 <= walk.state <= 2
      requires tree.Sound() && tree.tree == shape
      modifies this`sp, this`walk, stack
      ensures Walking() && (sp >= 0 <==> walk.On?)
      ensures walk == if old(walk).state <= 1 then Entered(old(walk)) else old(walk).back
    {
      TopItem();
      if stack[sp].state == 0 {
        Push(stack[sp].node.left);
      } else if stack[sp].state == 1 {
        Push(stack[sp].node.right);
      } else {
        Pop();
      }
    }

    /** One turn of the loop of rbtree.c:947-989; `found` leaves it. */
    method Turn() returns (found: bool)
      requires Walking() && walk.On? && walk.t.Fork? && 0 <= walk.state <= 2
      requires tree.Sound() && tree.tree == shape && !finished
      modifies this`sp, this`walk, this`finished, stack
      ensures Walking() && (finished <==> walk.Start?)
      ensures walk == Turned(old(walk)) && found == Arrives(old(walk))
    {
      TurnedLaws(walk, shape);
      Move();
      if sp < 0 {
        finished := true;
        return false;
      }
      TopItem();
      if stack[sp].node != null {
        return stack[sp].state == 0;
      }
      Pop();
      return false;
    }

    /** The first call stands on the root (rbtree.c:993-998). */
    method Begin()
      requires stack.Length > 1 && tree.Sound() && tree.tree == shape && shape.Fork?
      requires stack.Length == |InOrder(shape)| + 1
      modifies this`sp, this`walk, stack
      ensures Walking() && walk == On(Top, shape, 0, Start)
      ensures PreOrder(shape) == [walk.t.entry] + AllTodo(walk)
    {
      sp := 0;
      stack[sp] := Item(tree.root, 0);
      walk := On(Top, shape, 0, Start);
      assert stack[..1] == [Item(tree.root, 0)];
      Reassociate([shape.entry], PreOrder(shape.left), PreOrder(shape.right), []);
      assert AllTodo(walk) == PreOrder(shape.left) + PreOrder(shape.right);
    }

    /** The loop of rbtree.c:945-990. */
    method Continue() returns (found: bool)
      requires Valid() && !finished && walk.On?
      modifies this`sp, this`walk, this`finished, stack
      ensures Valid() && found == !finished
      ensures found ==> walk.On? && walk.t.Fork? && old(AllTodo(walk)) == [walk.t.entry] + AllTodo(walk)
      ensures !found ==> old(AllTodo(walk)) == []
    {
      found := false;
      while !found && !finished
        invariant Walking() && tree.Sound() && tree.tree == shape && shape.Fork?
        invariant finished <==> walk.Start?
        invariant found ==> !finished
        invariant walk.On? ==> walk.t.Fork? && 0 <= walk.state <= 2 && (found ==> walk.state == 0)
        invariant old(AllTodo(walk)) == (if found then [walk.t.entry] else []) + AllTodo(walk)
        decreases AllMoves(walk)
      {
        TurnedLaws(walk, shape);
        found := Turn();
      }
    }

    /** rbtree_iter_next: on to the next entry in pre-order, or to the end of the iteration. */
    method MoveNext() returns (found: bool)
      requires Valid()
      modifies this, stack
      ensures Valid() && stack == old(stack)
      ensures found <==> old(Remaining()) != []
      ensures found ==> !finished && walk.On? && walk.t.Fork? && old(Remaining()) == [walk.t.entry] + Remaining()
      ensures !found ==> finished && Remaining() == []
    {
      if finished {
        return false;
      }
      if sp >= 0 {
        found := Continue();
      } else {
        Begin();
        return true;
      }
    }
  }

  /** A whole iteration, as the tests run it (test/test-map.m4:115-134). */
  method Collect<K(!new), V>(tree: RBTree<K, V>) returns (visited: seq<Entry<K, V>>)
    requires tree.Valid()
    ensures visited == PreOrder(tree.tree)
  {
    ghost var all := PreOrder(tree.tree);
    var iter := new RBTreeIter(tree);
    visited := [];
    var found := iter.MoveNext();
    while found
      invariant iter.Valid() && fresh(iter) && fresh(iter.stack)
      invariant found ==> !iter.finished && iter.walk.On? && iter.walk.t.Fork?
      invariant found ==> all == visited + ([iter.walk.t.entry] + iter.Remaining())
      invariant !found ==> all == visited && iter.finished
      decreases |iter.Remaining()|, found
    {
      var e := iter.Current();
      ghost var rest := iter.Remaining();
      VisitOne(visited, e, rest);
      visited := visited + [e];
      found := iter.MoveNext();
      assert !found ==> rest == [];
    }
  }

  lemma VisitOne<E>(visited: seq<E>, e: E, rest: seq<E>)
    ensures visited + ([e] + rest) == visited + [e] + rest
    ensures rest == [] ==> visited + ([e] + rest) == visited + [e]
  {
  }
}
