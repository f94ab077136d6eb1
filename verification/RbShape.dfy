/** Red-black trees as values.  A `Tree` mirrors the nodes that hang below one
    pointer and a `Path` mirrors the ancestors that rbtree.c keeps on its explicit
    stack, nearest ancestor first.  `N` is the identity of a node and `E` what it
    stores.
 */
module RbShape {
  import opened Machine

  datatype Tree<N, E> =
    | Leaf
    | Fork(node: N, entry: E, black: bool, left: Tree<N, E>, right: Tree<N, E>)
  {
    // Missing nodes count as black.
    predicate IsBlack() { Leaf? || black }
  }

  datatype Path<N, E> =
    | Top
    | Down(node: N, entry: E, black: bool, wentLeft: bool, sibling: Tree<N, E>, up: Path<N, E>)

  // ----- from a path back to trees

  /** The subtree at the nearest ancestor, with `t` below it. */
  function Close<N, E>(path: Path<N, E>, t: Tree<N, E>): (r: Tree<N, E>)
    requires path.Down?
    ensures r.Fork? && r.node == path.node && r.entry == path.entry && r.black == path.black
  {
    if path.wentLeft
    then Fork(path.node, path.entry, path.black, t, path.sibling)
    else Fork(path.node, path.entry, path.black, path.sibling, t)
  }

  /** The whole tree: `t` in the hole at the lower end of `path`. */
  function Zip<N, E>(path: Path<N, E>, t: Tree<N, E>): Tree<N, E> {
    match path
    case Top => t
    case Down(_, _, _, _, _, up) => Zip(up, Close(path, t))
  }

  /** The ancestors from the root downwards: what the stack array has to hold. */
  function Spine<N, E>(path: Path<N, E>): (s: seq<N>)
  {
    match path
    case Top => []
    case Down(n, _, _, _, _, up) => Spine(up) + [n]
  }

  lemma {:induction false} SpineLength<N, E>(path: Path<N, E>)
    ensures |Spine(path)| == Depth(path)
  {
    if path.Down? {
      SpineLength(path.up);
    }
  }

  function Depth<N, E>(path: Path<N, E>): nat {
    match path
    case Top => 0
    case Down(_, _, _, _, _, up) => 1 + Depth(up)
  }

  /** The path to a child of `t`. */
  function Step<N, E>(path: Path<N, E>, t: Tree<N, E>, left: bool): (r: Path<N, E>)
    requires t.Fork?
    ensures r.Down? && r.node == t.node && r.up == path && r.wentLeft == left
    ensures Close(r, if left then t.left else t.right) == t
    ensures Zip(r, if left then t.left else t.right) == Zip(path, t)
  {
    Down(t.node, t.entry, t.black, left, if left then t.right else t.left, path)
  }

  // ----- contents

  function InOrder<N, E>(t: Tree<N, E>): seq<E> {
    match t
    case Leaf => []
    case Fork(_, e, _, l, r) => InOrder(l) + [e] + InOrder(r)
  }

  /** What precedes the hole of a path in symmetric order. */
  function Before<N, E>(path: Path<N, E>): seq<E> {
    match path
    case Top => []
    case Down(_, e, _, wentLeft, s, up) =>
      if wentLeft then Before(up) else Before(up) + InOrder(s) + [e]
  }

  /** What follows the hole of a path in symmetric order. */
  function After<N, E>(path: Path<N, E>): seq<E> {
    match path
    case Top => []
    case Down(_, e, _, wentLeft, s, up) =>
      if wentLeft then [e] + InOrder(s) + After(up) else After(up)
  }

  lemma StepOrder<N, E>(path: Path<N, E>, t: Tree<N, E>)
    requires t.Fork?
    ensures Before(Step(path, t, true)) == Before(path)
    ensures After(Step(path, t, true)) == [t.entry] + (InOrder(t.right) + After(path))
    ensures Before(Step(path, t, false)) == (Before(path) + InOrder(t.left)) + [t.entry]
    ensures After(Step(path, t, false)) == After(path)
  {
  }

  lemma {:induction false} ZipInOrder<N, E>(path: Path<N, E>, t: Tree<N, E>)
    ensures InOrder(Zip(path, t)) == Before(path) + InOrder(t) + After(path)
  {
    if path.Down? {
      ZipInOrder(path.up, Close(path, t));
    }
  }

  // ----- node identities

  ghost function Nodes<N, E>(t: Tree<N, E>): set<N> {
    match t
    case Leaf => {}
    case Fork(n, _, _, l, r) => {n} + Nodes(l) + Nodes(r)
  }

  ghost function PathNodes<N, E>(path: Path<N, E>): set<N> {
    match path
    case Top => {}
    case Down(n, _, _, _, s, up) => {n} + Nodes(s) + PathNodes(up)
  }

  /** No node occurs twice in a tree. */
  ghost predicate Distinct<N, E>(t: Tree<N, E>) {
    match t
    case Leaf => true
    case Fork(n, _, _, l, r) =>
      && Distinct(l) && Distinct(r)
      && n !in Nodes(l) && n !in Nodes(r) && Nodes(l) !! Nodes(r)
  }

  ghost predicate PathDistinct<N, E>(path: Path<N, E>) {
    match path
    case Top => true
    case Down(n, _, _, _, s, up) =>
      && Distinct(s) && n !in Nodes(s)
      && PathDistinct(up) && n !in PathNodes(up) && Nodes(s) !! PathNodes(up)
  }

  ghost predicate Apart<N, E>(path: Path<N, E>, t: Tree<N, E>) {
    Distinct(t) && PathDistinct(path) && Nodes(t) !! PathNodes(path)
  }

  lemma {:induction false} ZipNodes<N, E>(path: Path<N, E>, t: Tree<N, E>)
    ensures Nodes(Zip(path, t)) == Nodes(t) + PathNodes(path)
    ensures Distinct(Zip(path, t)) <==> Apart(path, t)
  {
    if path.Down? {
      ZipNodes(path.up, Close(path, t));
    }
  }

  // ----- colours

  function BlackHeight<N, E>(t: Tree<N, E>): nat {
    match t
    case Leaf => 0
    case Fork(_, _, b, l, _) => BlackHeight(l) + if b then 1 else 0
  }

  /** Every way down from a node meets the same number of black nodes. */
  ghost predicate Balanced<N, E>(t: Tree<N, E>) {
    match t
    case Leaf => true
    case Fork(_, _, _, l, r) => Balanced(l) && Balanced(r) && BlackHeight(l) == BlackHeight(r)
  }

  /** No red node has a red child. */
  ghost predicate NoRedRed<N, E>(t: Tree<N, E>) {
    match t
    case Leaf => true
    case Fork(_, _, b, l, r) => NoRedRed(l) && NoRedRed(r) && (b || (l.IsBlack() && r.IsBlack()))
  }

  ghost predicate RedBlack<N, E>(t: Tree<N, E>) {
    t.IsBlack() && Balanced(t) && NoRedRed(t)
  }

  /** The path is balanced once a tree of black height `h` fills its hole. */
  ghost predicate PathBalanced<N, E>(path: Path<N, E>, h: nat) {
    match path
    case Top => true
    case Down(_, _, b, _, s, up) =>
      Balanced(s) && BlackHeight(s) == h && PathBalanced(up, h + if b then 1 else 0)
  }

  /** The path has no red node with a red child, the hole being black or red as `hole` says. */
  ghost predicate PathNoRedRed<N, E>(path: Path<N, E>, hole: bool) {
    match path
    case Top => true
    case Down(_, _, b, _, s, up) =>
      NoRedRed(s) && (b || (hole && s.IsBlack())) && PathNoRedRed(up, b)
  }

  predicate RootBlack<N, E>(path: Path<N, E>, hole: bool) {
    match path
    case Top => hole
    case Down(_, _, b, _, _, up) => RootBlack(up, b)
  }

  /** Everything a path contributes to a red-black tree. */
  ghost predicate PathRedBlack<N, E>(path: Path<N, E>, h: nat, hole: bool) {
    PathBalanced(path, h) && PathNoRedRed(path, hole) && RootBlack(path, hole)
  }

  /** A tree is red-black exactly when the two parts of any cut through it are. */
  lemma {:induction false} ZipRedBlack<N, E>(path: Path<N, E>, t: Tree<N, E>)
    ensures Balanced(Zip(path, t)) <==> Balanced(t) && PathBalanced(path, BlackHeight(t))
    ensures NoRedRed(Zip(path, t)) <==> NoRedRed(t) && PathNoRedRed(path, t.IsBlack())
    ensures Zip(path, t).IsBlack() <==> RootBlack(path, t.IsBlack())
    ensures RedBlack(Zip(path, t)) <==>
            Balanced(t) && NoRedRed(t) && PathRedBlack(path, BlackHeight(t), t.IsBlack())
  {
    if path.Down? {
      ZipRedBlack(path.up, Close(path, t));
    }
  }

  // ----- height

  function Max(a: nat, b: nat): nat { if a < b then b else a }

  function Height<N, E>(t: Tree<N, E>): nat {
    match t
    case Leaf => 0
    case Fork(_, _, _, l, r) => 1 + Max(Height(l), Height(r))
  }

  /** A tree of black height h is at most 2h (+1 below a red root) high and holds
      at least 2^h - 1 entries. */
  lemma {:induction false} BlackHeightBounds<N, E>(t: Tree<N, E>)
    requires Balanced(t) && NoRedRed(t)
    ensures Height(t) <= 2 * BlackHeight(t) + if t.IsBlack() then 0 else 1
    ensures Pow2(BlackHeight(t)) <= |InOrder(t)| + 1
  {
    if t.Fork? {
      BlackHeightBounds(t.left);
      BlackHeightBounds(t.right);
    }
  }

  /** Height <= 2 * log2(entries + 1). */
  lemma HeightBound<N, E>(t: Tree<N, E>)
    requires RedBlack(t)
    ensures Pow2(Height(t)) <= (|InOrder(t)| + 1) * (|InOrder(t)| + 1)
  {
    BlackHeightBounds(t);
    var b, c := Pow2(BlackHeight(t)), |InOrder(t)| + 1;
    Pow2Monotone(Height(t), 2 * BlackHeight(t));
    Pow2Double(BlackHeight(t));
    Square(b, c);
  }

  lemma {:induction false} PathWithinHeight<N, E>(path: Path<N, E>, t: Tree<N, E>)
    ensures Depth(path) + Height(t) <= Height(Zip(path, t))
  {
    if path.Down? {
      PathWithinHeight(path.up, Close(path, t));
    }
  }
}
