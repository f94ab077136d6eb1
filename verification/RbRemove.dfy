/** Repair before a black node is unlinked (rbtree.c:652-790), on values.  The
    node stays in the hole of the path: repair rebuilds the ancestors so that they
    accept a hole whose black height is one less.
 */
module RbRemove {
  import opened RbShape
  import opened RbInsert

  function Reddened<N, E>(t: Tree<N, E>): (r: Tree<N, E>)
    requires t.Fork?
    ensures r.Fork?
  {
    t.(black := false)
  }

  // The nephew on the side of the hole, and the one on the other side.
  function Near<N, E>(path: Path<N, E>): Tree<N, E>
    requires path.Down? && path.sibling.Fork?
  {
    if path.wentLeft then path.sibling.left else path.sibling.right
  }

  function Far<N, E>(path: Path<N, E>): Tree<N, E>
    requires path.Down? && path.sibling.Fork?
  {
    if path.wentLeft then path.sibling.right else path.sibling.left
  }

  /** The ancestors after rotating the sibling above the parent, the two getting
      the colours `s` and `p` and the far nephew becoming `far`. */
  function SiblingAbove<N, E>(path: Path<N, E>, p: bool, s: bool, far: Tree<N, E>): (r: Path<N, E>)
    requires path.Down? && path.sibling.Fork?
    ensures r.Down?
  {
    path.(black := p, sibling := Near(path),
          up := Down(path.sibling.node, path.sibling.entry, s, path.wentLeft, far, path.up))
  }

  /** Case 2: a red sibling goes above the parent. */
  function BlackSibling<N, E>(path: Path<N, E>): (r: Path<N, E>)
    requires path.Down?
    ensures r.Down?
  {
    if path.sibling.IsBlack() then path else SiblingAbove(path, false, true, Far(path))
  }

  predicate Case3or4<N, E>(path: Path<N, E>)
    requires path.Down? && path.sibling.Fork?
  {
    path.sibling.black && path.sibling.left.IsBlack() && path.sibling.right.IsBlack()
  }

  predicate Case5<N, E>(path: Path<N, E>)
    requires path.Down? && path.sibling.Fork?
  {
    path.sibling.black && !Near(path).IsBlack() && Far(path).IsBlack()
  }

  /** Case 5: a red near nephew takes the place of the sibling. */
  function FarRed<N, E>(path: Path<N, E>): (r: Path<N, E>)
    requires path.Down? && path.sibling.Fork?
    ensures r.Down? && r.sibling.Fork?
  {
    if !Case5(path) then path
    else
      var Fork(n, e, _, l, r) := path.sibling;
      path.(sibling := if path.wentLeft then RotateRight(Fork(n, e, false, Blackened(l), r))
                       else RotateLeft(Fork(n, e, false, l, Blackened(r))))
  }

  ghost function Refitted<N, E>(path: Path<N, E>, h: nat): (r: Path<N, E>)
    requires h >= 1 && PathRedBlack(path, h, true)
    ensures PathBalanced(r, h - 1)
    ensures path.Top? <==> r.Top?
    ensures path.Down? ==>
              && r.node == path.node && r.entry == path.entry && r.wentLeft == path.wentLeft
              && r.black && PathRedBlack(r, h - 1, false)
    decreases Depth(path), 1
  {
    if path.Top? then path
    else
      BlackSiblingFits(path, h);
      RefittedBelowBlack(BlackSibling(path), h)
  }

  ghost function RefittedBelowBlack<N, E>(path: Path<N, E>, h: nat): (r: Path<N, E>)
    requires h >= 1 && path.Down? && PathRedBlack(path, h, true) && path.sibling.Fork? && path.sibling.black
    ensures r.Down? && r.node == path.node && r.entry == path.entry && r.wentLeft == path.wentLeft
    ensures r.black && PathRedBlack(r, h - 1, false)
    decreases if path.black then Depth(path) else 0, 0
  {
    assert PathRedBlack(path.up, h + (if path.black then 1 else 0), path.black);
    if Case3or4(path) then
      var up := if path.black then Refitted(path.up, h + 1) else path.up;
      Case3or4Fits(path, h, up);
      path.(black := true, sibling := Reddened(path.sibling), up := up)
    else
      var q := FarRed(path);
      FarRedFits(path, h);
      Case6Fits(q, h);
      SiblingAbove(q, true, q.black, Blackened(Far(q)))
  }

  lemma Case3or4Fits<N, E>(path: Path<N, E>, h: nat, up: Path<N, E>)
    requires h >= 1 && path.Down? && path.sibling.Fork? && Case3or4(path)
    requires Balanced(path.sibling) && NoRedRed(path.sibling) && BlackHeight(path.sibling) == h
    requires PathBalanced(up, h) && (up.Down? ==> PathRedBlack(up, h, false))
    ensures PathRedBlack(path.(black := true, sibling := Reddened(path.sibling), up := up), h - 1, false)
  {
    var s := Reddened(path.sibling);
    assert Balanced(s) && NoRedRed(s) && BlackHeight(s) == h - 1;
    assert up.Down? ==> RootBlack(up.up, up.black);
    assert PathNoRedRed(up, true) && RootBlack(up, true);
  }

  lemma Case6Fits<N, E>(q: Path<N, E>, h: nat)
    requires h >= 1 && q.Down? && q.sibling.Fork? && q.sibling.black && Far(q).Fork?
    requires Balanced(Near(q)) && Balanced(Far(q)) && NoRedRed(Near(q)) && NoRedRed(Far(q)) && !Far(q).black
    requires BlackHeight(Near(q)) == BlackHeight(Far(q)) == h - 1
    requires PathRedBlack(q.up, h + (if q.black then 1 else 0), q.black)
    ensures PathRedBlack(SiblingAbove(q, true, q.black, Blackened(Far(q))), h - 1, false)
  {
    var r := SiblingAbove(q, true, q.black, Blackened(Far(q)));
    assert PathBalanced(r.up, h) && PathNoRedRed(r.up, true) && RootBlack(r.up, true);
  }

  lemma BlackSiblingFits<N, E>(path: Path<N, E>, h: nat)
    requires h >= 1 && path.Down? && PathRedBlack(path, h, true)
    ensures var r := BlackSibling(path);
            && PathRedBlack(r, h, true) && r.sibling.Fork? && r.sibling.black
            && (path.sibling.IsBlack() || !r.black)
  {
    assert RootBlack(path.up, path.black);
    var r := BlackSibling(path);
    assert Balanced(Near(path)) && Balanced(Far(path));
    assert BlackHeight(Near(path)) == BlackHeight(Far(path)) == BlackHeight(path.sibling) - if path.sibling.black then 1 else 0;
    assert RootBlack(r.up, r.black);
  }

  lemma FarRedFits<N, E>(path: Path<N, E>, h: nat)
    requires h >= 1 && path.Down? && PathRedBlack(path, h, true) && path.sibling.Fork? && path.sibling.black
    requires !Case3or4(path)
    ensures var q := FarRed(path);
            && q.black == path.black && q.up == path.up && q.sibling.black
            && Far(q).Fork? && !Far(q).black
            && Balanced(Near(q)) && Balanced(Far(q)) && NoRedRed(Near(q)) && NoRedRed(Far(q))
            && BlackHeight(Near(q)) == BlackHeight(Far(q)) == h - 1
  {
    assert Balanced(Near(path)) && Balanced(Far(path)) && NoRedRed(Near(path)) && NoRedRed(Far(path));
    assert BlackHeight(Near(path)) == BlackHeight(Far(path)) == h - 1;
  }

  // ----- what refitting keeps

  /** The contents around the hole, and the nodes, stay what they were. */
  ghost predicate SameSurroundings<N, E>(p: Path<N, E>, q: Path<N, E>) {
    && Before(p) == Before(q) && After(p) == After(q)
    && PathNodes(p) == PathNodes(q) && (PathDistinct(p) ==> PathDistinct(q))
  }

  lemma SameUp<N, E>(p: Path<N, E>, q: Path<N, E>)
    requires p.Down? && q.Down? && q == p.(up := q.up) && SameSurroundings(p.up, q.up)
    ensures SameSurroundings(p, q)
  {
  }

  lemma SameSibling<N, E>(p: Path<N, E>, q: Path<N, E>)
    requires p.Down? && q.Down? && q == p.(black := q.black, sibling := q.sibling)
    requires InOrder(p.sibling) == InOrder(q.sibling) && Nodes(p.sibling) == Nodes(q.sibling)
    requires Distinct(p.sibling) ==> Distinct(q.sibling)
    ensures SameSurroundings(p, q)
  {
  }

  // The far nephew is at most recoloured.
  ghost predicate SameContents<N, E>(t: Tree<N, E>, u: Tree<N, E>) {
    InOrder(t) == InOrder(u) && Nodes(t) == Nodes(u) && (Distinct(t) <==> Distinct(u))
  }

  lemma SiblingAboveSame<N, E>(path: Path<N, E>, p: bool, s: bool, far: Tree<N, E>)
    requires path.Down? && path.sibling.Fork? && SameContents(Far(path), far)
    ensures SameSurroundings(path, SiblingAbove(path, p, s, far))
  {
    SiblingAboveOrder(path, p, s, far);
    SiblingAboveNodes(path, p, s, far);
  }

  lemma SiblingAboveOrder<N, E>(path: Path<N, E>, p: bool, s: bool, far: Tree<N, E>)
    requires path.Down? && path.sibling.Fork? && InOrder(Far(path)) == InOrder(far)
    ensures var r := SiblingAbove(path, p, s, far);
            Before(r) == Before(path) && After(r) == After(path)
  {
    var low := path.sibling;
    assert InOrder(low) == InOrder(low.left) + [low.entry] + InOrder(low.right);
  }

  lemma SiblingAboveNodes<N, E>(path: Path<N, E>, p: bool, s: bool, far: Tree<N, E>)
    requires path.Down? && path.sibling.Fork?
    requires Nodes(Far(path)) == Nodes(far) && (Distinct(Far(path)) <==> Distinct(far))
    ensures var r := SiblingAbove(path, p, s, far);
            PathNodes(r) == PathNodes(path) && (PathDistinct(path) ==> PathDistinct(r))
  {
    var r, low := SiblingAbove(path, p, s, far), path.sibling;
    assert Nodes(low) == {low.node} + Nodes(Near(path)) + Nodes(Far(path));
    assert Distinct(low) ==> Distinct(Near(path)) && Distinct(Far(path)) && Nodes(Near(path)) !! Nodes(Far(path));
    assert PathNodes(r.up) == {low.node} + Nodes(far) + PathNodes(path.up);
  }

  lemma FarRedSame<N, E>(path: Path<N, E>)
    requires path.Down? && path.sibling.Fork?
    ensures SameSurroundings(path, FarRed(path))
  {
    if Case5(path) {
      var Fork(n, e, _, l, r) := path.sibling;
      BlackenedLaws(Near(path));
      var s := if path.wentLeft then Fork(n, e, false, Blackened(l), r) else Fork(n, e, false, l, Blackened(r));
      assert InOrder(s) == InOrder(path.sibling) && Nodes(s) == Nodes(path.sibling) && (Distinct(path.sibling) ==> Distinct(s));
      if path.wentLeft {
        RotateRightOrder(s);
      } else {
        RotateLeftOrder(s);
      }
      SameSibling(path, FarRed(path));
    }
  }

  lemma {:induction false} RefittedSame<N, E>(path: Path<N, E>, h: nat)
    requires h >= 1 && PathRedBlack(path, h, true)
    ensures SameSurroundings(path, Refitted(path, h))
    decreases Depth(path), 1
  {
    if path.Down? {
      BlackSiblingFits(path, h);
      if !path.sibling.IsBlack() {
        SiblingAboveSame(path, false, true, Far(path));
      }
      RefittedBelowBlackSame(BlackSibling(path), h);
    }
  }

  lemma {:induction false} RefittedBelowBlackSame<N, E>(path: Path<N, E>, h: nat)
    requires h >= 1 && path.Down? && PathRedBlack(path, h, true) && path.sibling.Fork? && path.sibling.black
    ensures SameSurroundings(path, RefittedBelowBlack(path, h))
    decreases if path.black then Depth(path) else 0, 0
  {
    assert PathRedBlack(path.up, h + (if path.black then 1 else 0), path.black);
    if Case3or4(path) {
      var q := path.(sibling := Reddened(path.sibling), black := true);
      SameSibling(path, q);
      if path.black {
        RefittedSame(path.up, h + 1);
        SameUp(q, q.(up := Refitted(path.up, h + 1)));
      }
    } else {
      var q := FarRed(path);
      FarRedFits(path, h);
      FarRedSame(path);
      BlackenedLaws(Far(q));
      SiblingAboveSame(q, true, q.black, Blackened(Far(q)));
    }
  }

  // ----- unlinking a node

  /** The way to the largest entry of `t`, and the tree that has it at its root. */
  ghost function Rightmost<N, E>(path: Path<N, E>, t: Tree<N, E>): (r: (Path<N, E>, Tree<N, E>))
    requires t.Fork?
    ensures r.1.Fork? && r.1.right.Leaf?
    ensures Zip(r.0, r.1) == Zip(path, t)
    ensures Depth(r.0) + Height(r.1) <= Depth(path) + Height(t)
    decreases t
  {
    if t.right.Leaf? then (path, t) else Rightmost(Step(path, t, false), t.right)
  }

  lemma {:induction false} RightmostLaws<N, E>(path: Path<N, E>, t: Tree<N, E>)
    requires t.Fork?
    ensures var (p, m) := Rightmost(path, t);
            After(p) == After(path) && Before(p) + InOrder(m.left) + [m.entry] == Before(path) + InOrder(t)
    decreases t
  {
    if t.right.Leaf? {
      assert InOrder(t) == InOrder(t.left) + [t.entry];
    } else {
      RightmostLaws(Step(path, t, false), t.right);
    }
  }

  /** The way depends on the path above only in what stands there. */
  lemma {:induction false} RightmostSpine<N, E>(p: Path<N, E>, q: Path<N, E>, t: Tree<N, E>)
    requires t.Fork? && Spine(p) == Spine(q) && Depth(p) == Depth(q)
    ensures Rightmost(p, t).1 == Rightmost(q, t).1
    ensures Spine(Rightmost(p, t).0) == Spine(Rightmost(q, t).0) && Depth(Rightmost(p, t).0) == Depth(Rightmost(q, t).0)
    decreases t
  {
    if t.right.Fork? {
      RightmostSpine(Step(p, t, false), Step(q, t, false), t.right);
    }
  }

  /** `t` with the largest entry on its left in the place of its own. */
  ghost function MaxMoved<N, E>(path: Path<N, E>, t: Tree<N, E>): (r: Tree<N, E>)
    requires t.Fork? && t.left.Fork?
    ensures r.Fork?
  {
    t.(entry := Rightmost(Step(path, t, true), t.left).1.entry)
  }

  /** The cut at the node that gave its entry away. */
  ghost function MaxCut<N, E>(path: Path<N, E>, t: Tree<N, E>): (r: (Path<N, E>, Tree<N, E>))
    requires t.Fork? && t.left.Fork?
    ensures r.1.Fork? && r.1.right.Leaf? && Zip(r.0, r.1) == Zip(path, MaxMoved(path, t))
    ensures Depth(r.0) + Height(r.1) <= Depth(path) + Height(t)
  {
    Rightmost(Step(path, MaxMoved(path, t), true), t.left)
  }

  /** Moving the entry up does not move the node that gave it. */
  lemma MaxCutSpine<N, E>(path: Path<N, E>, t: Tree<N, E>)
    requires t.Fork? && t.left.Fork?
    ensures var ((p, m), (q, k)) := (Rightmost(Step(path, t, true), t.left), MaxCut(path, t));
            m == k && Spine(p) == Spine(q) && Depth(p) == Depth(q)
  {
    RightmostSpine(Step(path, t, true), Step(path, MaxMoved(path, t), true), t.left);
  }

  lemma MaxMovedRedBlack<N, E>(path: Path<N, E>, t: Tree<N, E>)
    requires t.Fork? && t.left.Fork? && RedBlack(Zip(path, t))
    ensures RedBlack(Zip(path, MaxMoved(path, t)))
  {
    ZipRedBlack(path, t);
    ZipRedBlack(path, MaxMoved(path, t));
  }

  /** The whole tree after rbtree_remove has found its key at the root of `t`. */
  ghost function Removed<N, E>(path: Path<N, E>, t: Tree<N, E>): Tree<N, E>
    requires t.Fork? && RedBlack(Zip(path, t))
  {
    if t.left.Fork? && t.right.Fork? then
      MaxMovedRedBlack(path, t);
      var (p, m) := MaxCut(path, t);
      Unlinked(p, m)
    else
      Unlinked(path, t)
  }

  lemma MaxCutOrder<N, E>(path: Path<N, E>, t: Tree<N, E>)
    requires t.Fork? && t.left.Fork?
    ensures var (p, m) := MaxCut(path, t);
            && Before(p) + InOrder(m.left) + [m.entry] == Before(path) + InOrder(t.left)
            && After(p) == [m.entry] + (InOrder(t.right) + After(path))
  {
    var down, down' := Step(path, t, true), Step(path, MaxMoved(path, t), true);
    RightmostLaws(down', t.left);
    RightmostSame(down, down', t.left);
    assert Before(down') == Before(path);
    assert After(down') == [down'.entry] + (InOrder(t.right) + After(path));
  }

  lemma Splice<E>(a: seq<E>, x: E, b: seq<E>)
    ensures a + ([] + ([x] + b)) == a + [x] + b
  {
  }

  lemma RemovedOrder<N, E>(path: Path<N, E>, t: Tree<N, E>)
    requires t.Fork? && RedBlack(Zip(path, t))
    ensures RedBlack(Removed(path, t))
    ensures InOrder(Removed(path, t)) == Before(path) + InOrder(t.left) + (InOrder(t.right) + After(path))
  {
    if t.left.Fork? && t.right.Fork? {
      MaxMovedRedBlack(path, t);
      var (p, m) := MaxCut(path, t);
      UnlinkedRedBlack(p, m);
      UnlinkedOrder(p, m);
      MaxCutOrder(path, t);
      assert InOrder(m.right) == [];
      Splice(Before(p) + InOrder(m.left), m.entry, InOrder(t.right) + After(path));
    } else {
      UnlinkedRedBlack(path, t);
      UnlinkedOrder(path, t);
    }
  }

  lemma {:induction false} RightmostSame<N, E>(p: Path<N, E>, q: Path<N, E>, t: Tree<N, E>)
    requires t.Fork?
    ensures Rightmost(p, t).1 == Rightmost(q, t).1
    decreases t
  {
    if t.right.Fork? {
      RightmostSame(Step(p, t, false), Step(q, t, false), t.right);
    }
  }

  ghost predicate OneChild<N, E>(t: Tree<N, E>)
    requires t.Fork?
  {
    t.left.Leaf? || t.right.Leaf?
  }

  ghost function OnlyChild<N, E>(t: Tree<N, E>): Tree<N, E>
    requires t.Fork?
  {
    if t.right.Fork? then t.right else t.left
  }

  /** The tree without the root of `t`, which has at most one child.  The child is
      spliced in as it is, even a red one in the place of a black node. */
  ghost function Unlinked<N, E>(path: Path<N, E>, t: Tree<N, E>): Tree<N, E>
    requires t.Fork? && RedBlack(Zip(path, t))
  {
    ZipRedBlack(path, t);
    var path', c := if t.black then Refitted(path, BlackHeight(t)) else path, OnlyChild(t);
    Zip(path', if path'.Top? && c.Fork? then Blackened(c) else c)
  }

  /** It is red-black again: repair leaves the parent of the spliced child black. */
  lemma UnlinkedRedBlack<N, E>(path: Path<N, E>, t: Tree<N, E>)
    requires t.Fork? && OneChild(t) && RedBlack(Zip(path, t))
    ensures RedBlack(Unlinked(path, t))
  {
    ZipRedBlack(path, t);
    var c := OnlyChild(t);
    assert BlackHeight(c) == 0 && Balanced(c) && NoRedRed(c);
    var path' := if t.black then Refitted(path, BlackHeight(t)) else path;
    if !t.black {
      assert c.IsBlack() && PathRedBlack(path, 0, false);
    }
    if path'.Down? {
      ZipRedBlack(path', c);
    }
  }

  lemma UnlinkedOrder<N, E>(path: Path<N, E>, t: Tree<N, E>)
    requires t.Fork? && OneChild(t) && RedBlack(Zip(path, t))
    ensures InOrder(Unlinked(path, t)) == Before(path) + InOrder(t.left) + (InOrder(t.right) + After(path))
  {
    ZipRedBlack(path, t);
    var c, h := OnlyChild(t), BlackHeight(t);
    var path' := if t.black then Refitted(path, h) else path;
    if t.black {
      RefittedSame(path, h);
    }
    var c' := if path'.Top? && c.Fork? then Blackened(c) else c;
    assert InOrder(c') == InOrder(c) == InOrder(t.left) + InOrder(t.right);
    ZipInOrder(path', c');
  }
}
