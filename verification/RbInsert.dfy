/** Repair after inserting a red leaf (rbtree.c:297-387), on values. */
module RbInsert {
  import opened RbShape

  function Blackened<N, E>(t: Tree<N, E>): (r: Tree<N, E>)
    requires t.Fork?
    ensures r.Fork?
  {
    t.(black := true)
  }

  lemma BlackenedLaws<N, E>(t: Tree<N, E>)
    requires t.Fork?
    ensures InOrder(Blackened(t)) == InOrder(t) && Nodes(Blackened(t)) == Nodes(t)
    ensures Distinct(Blackened(t)) <==> Distinct(t)
  {
  }

  // ----- rotations (rbtree.c:263-290)

  function RotateLeft<N, E>(t: Tree<N, E>): (r: Tree<N, E>)
    requires t.Fork? && t.right.Fork?
  {
    var Fork(n, e, b, l, Fork(rn, re, rb, rl, rr)) := t;
    Fork(rn, re, rb, Fork(n, e, b, l, rl), rr)
  }

  function RotateRight<N, E>(t: Tree<N, E>): (r: Tree<N, E>)
    requires t.Fork? && t.left.Fork?
  {
    var Fork(n, e, b, Fork(ln, le, lb, ll, lr), r) := t;
    Fork(ln, le, lb, ll, Fork(n, e, b, lr, r))
  }

  lemma Regroup<E>(a: seq<E>, x: E, b: seq<E>, y: E, c: seq<E>)
    ensures a + [x] + b + [y] + c == a + [x] + (b + [y] + c)
  {
  }

  lemma RotateLeftOrder<N, E>(t: Tree<N, E>)
    requires t.Fork? && t.right.Fork?
    ensures InOrder(RotateLeft(t)) == InOrder(t)
    ensures Nodes(RotateLeft(t)) == Nodes(t)
    ensures Distinct(t) <==> Distinct(RotateLeft(t))
  {
    var Fork(n, e, b, l, r) := t;
    var low := Fork(n, e, b, l, r.left);
    assert RotateLeft(t) == Fork(r.node, r.entry, r.black, low, r.right);
    Regroup(InOrder(l), e, InOrder(r.left), r.entry, InOrder(r.right));
    RotateLeftNodes(n, e, b, l, r);
  }

  lemma RotateLeftNodes<N, E>(n: N, e: E, b: bool, l: Tree<N, E>, r: Tree<N, E>)
    requires r.Fork?
    ensures Nodes(Fork(r.node, r.entry, r.black, Fork(n, e, b, l, r.left), r.right)) == Nodes(Fork(n, e, b, l, r))
    ensures Distinct(Fork(n, e, b, l, r)) <==> Distinct(Fork(r.node, r.entry, r.black, Fork(n, e, b, l, r.left), r.right))
  {
    var low := Fork(n, e, b, l, r.left);
    assert Nodes(low) == {n} + Nodes(l) + Nodes(r.left);
    assert Nodes(r) == {r.node} + Nodes(r.left) + Nodes(r.right);
    var t, t' := Fork(n, e, b, l, r), Fork(r.node, r.entry, r.black, low, r.right);
    assert Distinct(low) <==> Distinct(l) && Distinct(r.left) && n !in Nodes(l) && n !in Nodes(r.left) && Nodes(l) !! Nodes(r.left);
    assert Distinct(t') <==> Distinct(low) && Distinct(r.right) && r.node !in Nodes(low) && r.node !in Nodes(r.right) && Nodes(low) !! Nodes(r.right);
    assert Distinct(t) <==> Distinct(l) && Distinct(r) && n !in Nodes(l) && n !in Nodes(r) && Nodes(l) !! Nodes(r);
  }

  lemma RotateRightOrder<N, E>(t: Tree<N, E>)
    requires t.Fork? && t.left.Fork?
    ensures InOrder(RotateRight(t)) == InOrder(t)
    ensures Nodes(RotateRight(t)) == Nodes(t)
    ensures Distinct(t) <==> Distinct(RotateRight(t))
  {
    var r := RotateRight(t);
    assert r.Fork? && r.right.Fork? && RotateLeft(r) == t;
    RotateLeftOrder(r);
  }

  // ----- the cases

  /** The subtree below the grandparent. */
  function Family<N, E>(path: Path<N, E>, t: Tree<N, E>): Tree<N, E>
    requires path.Down? && path.up.Down?
  {
    Close(path.up, Close(path, t))
  }

  /** Case 3: parent and uncle turn black, the grandparent red. */
  function Recoloured<N, E>(path: Path<N, E>, t: Tree<N, E>): (g: Tree<N, E>)
    requires path.Down? && path.up.Down? && path.up.sibling.Fork?
    ensures g.Fork?
  {
    Close(path.up.(black := false, sibling := Blackened(path.up.sibling)),
          Blackened(Close(path, t)))
  }

  /** Case 4: turn the inner grandchild outwards. */
  function Straightened<N, E>(path: Path<N, E>, t: Tree<N, E>): (p: Tree<N, E>)
    requires path.Down? && path.up.Down? && t.Fork?
    ensures p.Fork?
  {
    if !path.wentLeft && path.up.wentLeft then RotateLeft(Close(path, t))
    else if path.wentLeft && !path.up.wentLeft then RotateRight(Close(path, t))
    else Close(path, t)
  }

  // The child that lies on the same side as the hole of the path.
  function Outer<N, E>(up: Path<N, E>, s: Tree<N, E>): Tree<N, E>
    requires up.Down? && s.Fork?
  {
    if up.wentLeft then s.left else s.right
  }

  /** Case 5: the grandparent makes way for its child `s`. */
  function Lift<N, E>(up: Path<N, E>, s: Tree<N, E>): Tree<N, E>
    requires up.Down? && s.Fork?
  {
    var g := Close(up.(black := false), Blackened(s));
    if up.wentLeft then RotateRight(g) else RotateLeft(g)
  }

  function Lifted<N, E>(path: Path<N, E>, t: Tree<N, E>): Tree<N, E>
    requires path.Down? && path.up.Down? && t.Fork?
  {
    Lift(path.up, Straightened(path, t))
  }

  /** The whole tree after repairing above the red node of `t`. */
  function Repaired<N, E>(path: Path<N, E>, t: Tree<N, E>): Tree<N, E>
    requires t.Fork? && RootBlack(path, true)
  {
    match path
    case Top => Blackened(t)
    case Down(_, _, black, _, _, up) =>
      assert RootBlack(up, black) && (up.Down? ==> RootBlack(up.up, up.black));
      if black then Zip(path, t)
      else if !up.sibling.IsBlack() then Repaired(up.up, Recoloured(path, t))
      else Zip(up.up, Lifted(path, t))
  }

  // ----- what repair keeps

  lemma FamilyLaws<N, E>(path: Path<N, E>, t: Tree<N, E>)
    requires path.Down? && path.up.Down? && t.Fork?
    ensures InOrder(Lifted(path, t)) == InOrder(Family(path, t))
    ensures Nodes(Lifted(path, t)) == Nodes(Family(path, t))
    ensures Distinct(Family(path, t)) ==> Distinct(Lifted(path, t))
    ensures path.up.sibling.Fork? ==>
              && InOrder(Recoloured(path, t)) == InOrder(Family(path, t))
              && Nodes(Recoloured(path, t)) == Nodes(Family(path, t))
              && (Distinct(Family(path, t)) ==> Distinct(Recoloured(path, t)))
  {
    var p := Straightened(path, t);
    if !path.wentLeft && path.up.wentLeft {
      RotateLeftOrder(Close(path, t));
    } else if path.wentLeft && !path.up.wentLeft {
      RotateRightOrder(Close(path, t));
    }
    BlackenedLaws(p);
    var g := Close(path.up.(black := false), Blackened(p));
    if path.up.wentLeft {
      RotateRightOrder(g);
    } else {
      RotateLeftOrder(g);
    }
    if path.up.sibling.Fork? {
      BlackenedLaws(path.up.sibling);
      BlackenedLaws(Close(path, t));
    }
  }

  lemma {:induction false} RepairKeepsOrder<N, E>(path: Path<N, E>, t: Tree<N, E>)
    requires t.Fork? && RootBlack(path, true)
    ensures InOrder(Repaired(path, t)) == InOrder(Zip(path, t))
    ensures Nodes(Repaired(path, t)) == Nodes(Zip(path, t))
    ensures Distinct(Zip(path, t)) ==> Distinct(Repaired(path, t))
  {
    if path.Down? && !path.black {
      assert RootBlack(path.up, path.black) && RootBlack(path.up.up, path.up.black);
      var top, f := path.up.up, Family(path, t);
      FamilyLaws(path, t);
      assert Zip(path, t) == Zip(top, f);
      ZipInOrder(top, f);
      ZipNodes(top, f);
      var f' := if path.up.sibling.IsBlack() then Lifted(path, t) else Recoloured(path, t);
      ZipInOrder(top, f');
      ZipNodes(top, f');
      if !path.up.sibling.IsBlack() {
        RepairKeepsOrder(top, f');
      }
    }
  }

  /** If the tree was red-black but for a red `t` below a perhaps red parent,
      repair makes it red-black. */
  lemma {:induction false} RepairRestores<N, E>(path: Path<N, E>, t: Tree<N, E>)
    requires t.Fork? && !t.black && Balanced(t) && NoRedRed(t)
    requires PathRedBlack(path, BlackHeight(t), true)
    ensures RedBlack(Repaired(path, t))
  {
    if path.Down? {
      if path.black {
        ZipRedBlack(path, t);
      } else {
        assert RootBlack(path.up, path.black);
        if path.up.sibling.IsBlack() {
          LiftedShape(path, t);
          ZipRedBlack(path.up.up, Lifted(path, t));
        } else {
          RecolouredShape(path, t);
          RepairRestores(path.up.up, Recoloured(path, t));
        }
      }
    }
  }

  lemma RecolouredShape<N, E>(path: Path<N, E>, t: Tree<N, E>)
    requires t.Fork? && !t.black && Balanced(t) && NoRedRed(t)
    requires path.Down? && !path.black && path.up.Down? && !path.up.sibling.IsBlack()
    requires PathRedBlack(path, BlackHeight(t), true)
    ensures var r := Recoloured(path, t);
            && !r.black && Balanced(r) && NoRedRed(r)
            && PathRedBlack(path.up.up, BlackHeight(r), true)
  {
    var up, u := path.up, path.up.sibling;
    assert RootBlack(up, path.black) && RootBlack(up.up, up.black);
    assert PathNoRedRed(up, path.black) && PathBalanced(up, BlackHeight(t));
    var p', u' := Blackened(Close(path, t)), Blackened(u);
    assert Balanced(p') && NoRedRed(p') && BlackHeight(p') == BlackHeight(t) + 1;
    assert Balanced(u') && NoRedRed(u') && BlackHeight(u') == BlackHeight(t) + 1;
  }

  lemma LiftedShape<N, E>(path: Path<N, E>, t: Tree<N, E>)
    requires t.Fork? && !t.black && Balanced(t) && NoRedRed(t)
    requires path.Down? && !path.black && path.up.Down? && path.up.sibling.IsBlack()
    requires PathRedBlack(path, BlackHeight(t), true)
    ensures var r := Lifted(path, t);
            && r.Fork? && r.black && Balanced(r) && NoRedRed(r)
            && PathRedBlack(path.up.up, BlackHeight(r), true)
  {
    var up, h := path.up, BlackHeight(t);
    assert RootBlack(up, path.black) && RootBlack(up.up, up.black);
    assert PathNoRedRed(up, path.black) && PathBalanced(up, h);
    var p := Straightened(path, t);
    assert BlackHeight(p.left) == h && BlackHeight(p.right) == h && Balanced(p.left) && Balanced(p.right);
    assert Balanced(p) && BlackHeight(p) == h;
  }
}
