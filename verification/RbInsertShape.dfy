/** What the steps of `rb_insert_color` do to the shape of the tree. */
module RbInsertShape {
  import opened RbShape

  /** The loop invariant: the subtree under the current node is red and correct in itself, the context
      fits around it; at most the node's own parent is red, too. */
  ghost predicate Climbing<T>(c: Ctx<T>, t: Tree<T>, h: int) {
    Red(t) && Rb(t, h) && CtxRb(c, h)
  }

  /** The loop goes on: the parent is red, so there is a grandparent. */
  ghost predicate ParentRed<T>(c: Ctx<T>) {
    !c.Top? && c.red && !c.up.Top?
  }

  /** The subtree under the grandparent. */
  ghost function Grand<T>(c: Ctx<T>, t: Tree<T>): (g: Tree<T>)
    requires ParentRed(c)
    ensures g.Node?
  {
    Close(c.up, Close(c, t))
  }

  lemma GrandKeeps<T>(c: Ctx<T>, t: Tree<T>)
    requires ParentRed(c)
    ensures Whole(c.up.up, Grand(c, t)) == Whole(c, t)
    ensures AllItems(c.up.up, Grand(c, t)) == AllItems(c, t)
    ensures AllDistinct(c, t) ==> AllDistinct(c.up.up, Grand(c, t))
  {
    WholeUp(c, t);
    WholeUp(c.up, Close(c, t));
    DistinctUp(c, t);
    DistinctUp(c.up, Close(c, t));
  }

  // ---------------------------------------------------------------- red uncle

  /** Parent and uncle turn black, the grandparent red. */
  ghost function Flipped<T>(g: Tree<T>): (r: Tree<T>)
    requires g.Node? && g.left.Node? && g.right.Node?
    ensures Items(r) == Items(g) && Inorder(r) == Inorder(g)
    ensures Distinct(g) ==> Distinct(r)
  {
    Node(Painted(g.left, false), g.item, true, Painted(g.right, false))
  }

  lemma FlipClimbs<T>(c: Ctx<T>, t: Tree<T>, h: int)
    requires Climbing(c, t, h) && ParentRed(c) && Red(c.up.sibling)
    ensures Climbing(c.up.up, Flipped(Grand(c, t)), h + 1)
    ensures Whole(c.up.up, Flipped(Grand(c, t))) == Whole(c, t)
    ensures AllItems(c.up.up, Flipped(Grand(c, t))) == AllItems(c, t)
  {
    GrandKeeps(c, t);
    assert CtxRb(c.up, h) && CtxRb(c.up.up, h + 1);
    assert Rb(Painted(Close(c, t), false), h + 1) && Rb(Painted(c.up.sibling, false), h + 1);
  }

  // ---------------------------------------------------------------- inner grandchild

  /** After the first rotation the old parent is the current node, under the old node. */
  ghost function Inner<T>(c: Ctx<T>, t: Tree<T>): (Ctx<T>, Tree<T>)
    requires !c.Top? && t.Node?
  {
    if c.InRight? then
      (InLeft(c.up, t.item, t.red, t.right), Node(c.sibling, c.item, c.red, t.left))
    else
      (InRight(c.up, t.item, t.red, t.left), Node(t.right, c.item, c.red, c.sibling))
  }

  lemma InnerIsRotation<T>(c: Ctx<T>, t: Tree<T>)
    requires !c.Top? && t.Node?
    ensures var (c', t') := Inner(c, t);
      && c'.up == c.up
      && Close(c', t') == (if c.InRight? then RotatedLeft(Close(c, t)) else RotatedRight(Close(c, t)))
      && Whole(c', t') == Whole(c, t) && AllItems(c', t') == AllItems(c, t)
  {
    var (c', t') := Inner(c, t);
    WholeUp(c, t);
    WholeUp(c', t');
    if c.InRight? { LeftRotationKeeps(Close(c, t)); } else { RightRotationKeeps(Close(c, t)); }
  }

  lemma InnerClimbs<T>(c: Ctx<T>, t: Tree<T>, h: int)
    requires Climbing(c, t, h) && ParentRed(c)
    ensures var (c', t') := Inner(c, t); Climbing(c', t', h) && ParentRed(c')
  {
  }

  // ---------------------------------------------------------------- outer grandchild

  /** The parent turns black, the grandparent red. */
  ghost function Lifted<T>(g: Tree<T>, leftward: bool): (r: Tree<T>)
    requires g.Node? && (if leftward then g.left.Node? else g.right.Node?)
    ensures Items(r) == Items(g) && Inorder(r) == Inorder(g)
    ensures Distinct(g) ==> Distinct(r)
  {
    if leftward then Node(Painted(g.left, false), g.item, true, g.right)
    else Node(g.left, g.item, true, Painted(g.right, false))
  }

  /** The node's context once the grandparent was rotated below the (now black) parent. */
  ghost function Outer<T>(c: Ctx<T>): Ctx<T>
    requires ParentRed(c)
  {
    if c.InLeft? then
      InLeft(c.up.up, c.item, false, Node(c.sibling, c.up.item, true, c.up.sibling))
    else
      InRight(c.up.up, c.item, false, Node(c.up.sibling, c.up.item, true, c.sibling))
  }

  lemma OuterIsRotation<T>(c: Ctx<T>, t: Tree<T>)
    requires ParentRed(c) && c.InLeft? == c.up.InLeft?
    ensures Close(Outer(c), t) ==
            (if c.InLeft? then RotatedRight(Lifted(Grand(c, t), true)) else RotatedLeft(Lifted(Grand(c, t), false)))
    ensures Whole(Outer(c), t) == Whole(c, t) && AllItems(Outer(c), t) == AllItems(c, t)
  {
    GrandKeeps(c, t);
    WholeUp(Outer(c), t);
    if c.InLeft? {
      RightRotationKeeps(Lifted(Grand(c, t), true));
    } else {
      LeftRotationKeeps(Lifted(Grand(c, t), false));
    }
  }

  lemma OuterClimbs<T>(c: Ctx<T>, t: Tree<T>, h: int)
    requires Climbing(c, t, h) && ParentRed(c) && !Red(c.up.sibling) && c.InLeft? == c.up.InLeft?
    ensures Climbing(Outer(c), t, h) && !Outer(c).red
  {
    assert CtxRb(c.up, h) && CtxRb(c.up.up, h + 1);
  }

  /** Leaving the loop: painting the root black makes a red-black tree. */
  lemma ClimbingEnds<T>(c: Ctx<T>, t: Tree<T>, h: int)
    requires Climbing(c, t, h) && !ParentRed(c)
    ensures Plug(c, t).Node? && IsRedBlack(Painted(Plug(c, t), false))
  {
    if c.Top? {
      PlugFits(c, Painted(t, false), h + 1);
    } else {
      PlugFits(c, t, h);
      PlugIsNode(c, t);
    }
  }
}
