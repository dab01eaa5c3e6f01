/** What the steps of `__rb_erase_color` do to the shape of the tree. */
module RbEraseShape {
  import opened RbShape
  import opened RbInsertShape

  /** The loop invariant: paths through the current subtree are one black node short.  If its root is red,
      painting it black repairs that. */
  ghost predicate Short<T>(c: Ctx<T>, t: Tree<T>, h: int) {
    && CtxRb(c, h + 1)
    && if Red(t) then Rb(Painted(t, false), h + 1) else Rb(t, h)
  }

  lemma {:induction false} HeightNat<T>(t: Tree<T>, h: int)
    requires Rb(t, h)
    ensures h >= 0 && (h > 0 ==> t.Node?)
  {
    if t.Node? { HeightNat(t.left, if t.red then h else h - 1); }
  }

  lemma SiblingExists<T>(c: Ctx<T>, t: Tree<T>, h: int)
    requires Short(c, t, h) && !Red(t) && !c.Top?
    ensures c.sibling.Node?
  {
    HeightNat(t, h);
    HeightNat(c.sibling, h + 1);
  }

  /** The same pair of siblings, seen from the other one. */
  ghost function Across<T>(c: Ctx<T>, t: Tree<T>): (a: Ctx<T>)
    requires !c.Top?
    ensures !a.Top? && a.up == c.up && a.sibling == t && Close(a, c.sibling) == Close(c, t)
  {
    if c.InLeft? then InRight(c.up, c.item, c.red, t) else InLeft(c.up, c.item, c.red, t)
  }

  // ---------------------------------------------------------------- red sibling

  /** The context after the red sibling was rotated above the parent. */
  ghost function SiblingLifted<T>(c: Ctx<T>): (r: Ctx<T>)
    requires !c.Top? && c.sibling.Node?
    ensures !r.Top? && !r.up.Top? && r.InLeft? == c.InLeft?
  {
    var s := c.sibling;
    if c.InLeft? then
      InLeft(InLeft(c.up, s.item, false, s.right), c.item, true, s.left)
    else
      InRight(InRight(c.up, s.item, false, s.left), c.item, true, s.right)
  }

  lemma SiblingLiftedIsRotation<T>(c: Ctx<T>, t: Tree<T>)
    requires !c.Top? && c.sibling.Node?
    ensures var r := SiblingLifted(c);
      && r.up.up == c.up
      && Close(r.up, Close(r, t)) ==
         (if c.InLeft? then RotatedLeft(Lifted(Close(c, t), false)) else RotatedRight(Lifted(Close(c, t), true)))
      && Whole(r, t) == Whole(c, t) && AllItems(r, t) == AllItems(c, t)
  {
    var r := SiblingLifted(c);
    WholeUp(c, t);
    WholeUp(r, t);
    WholeUp(r.up, Close(r, t));
    if c.InLeft? {
      LeftRotationKeeps(Lifted(Close(c, t), false));
    } else {
      RightRotationKeeps(Lifted(Close(c, t), true));
    }
  }

  lemma SiblingLiftedShort<T>(c: Ctx<T>, t: Tree<T>, h: int)
    requires Short(c, t, h) && !c.Top? && Red(c.sibling)
    ensures Short(SiblingLifted(c), t, h) && !Red(SiblingLifted(c).sibling)
  {
    assert CtxRb(SiblingLifted(c).up, h + 1);
  }

  // ---------------------------------------------------------------- black sibling with two black children

  ghost predicate BlackNephews<T>(c: Ctx<T>) {
    !c.Top? && c.sibling.Node? && !c.sibling.red && !Red(c.sibling.left) && !Red(c.sibling.right)
  }

  /** The sibling turns red: now both halves are short, and the problem moves to the parent. */
  ghost function Merged<T>(c: Ctx<T>, t: Tree<T>): (r: Tree<T>)
    requires !c.Top? && c.sibling.Node?
    ensures r.Node?
  {
    Close(WithSibling(c, Painted(c.sibling, true)), t)
  }

  lemma MergedShort<T>(c: Ctx<T>, t: Tree<T>, h: int)
    requires Short(c, t, h) && !Red(t) && BlackNephews(c)
    ensures Short(c.up, Merged(c, t), HeightAbove(c, h))
    ensures Whole(c.up, Merged(c, t)) == Whole(c, t) && AllItems(c.up, Merged(c, t)) == AllItems(c, t)
  {
    WholeUp(c, t);
    assert Rb(Painted(c.sibling, true), h);
  }

  // ---------------------------------------------------------------- a red nephew

  ghost function Near<T>(c: Ctx<T>): Tree<T>
    requires !c.Top? && c.sibling.Node?
  {
    if c.InLeft? then c.sibling.left else c.sibling.right
  }

  ghost function Far<T>(c: Ctx<T>): Tree<T>
    requires !c.Top? && c.sibling.Node?
  {
    if c.InLeft? then c.sibling.right else c.sibling.left
  }

  /** The red near nephew is rotated above the sibling, so that the far one is red. */
  ghost function NephewTurned<T>(c: Ctx<T>): (r: Ctx<T>)
    requires !c.Top? && c.sibling.Node? && Near(c).Node?
    ensures !r.Top? && r.sibling.Node? && r.InLeft? == c.InLeft? && r.up == c.up
  {
    WithSibling(c, if c.InLeft? then RotatedRight(Lifted(c.sibling, true)) else RotatedLeft(Lifted(c.sibling, false)))
  }

  lemma NephewTurnedKeeps<T>(c: Ctx<T>, t: Tree<T>)
    requires !c.Top? && c.sibling.Node? && Near(c).Node?
    ensures Whole(NephewTurned(c), t) == Whole(c, t) && AllItems(NephewTurned(c), t) == AllItems(c, t)
  {
    if c.InLeft? { RightRotationKeeps(Lifted(c.sibling, true)); } else { LeftRotationKeeps(Lifted(c.sibling, false)); }
  }

  lemma NephewTurnedShort<T>(c: Ctx<T>, t: Tree<T>, h: int)
    requires Short(c, t, h) && !c.Top? && c.sibling.Node? && !c.sibling.red && Red(Near(c)) && !Red(Far(c))
    ensures Short(NephewTurned(c), t, h) && !NephewTurned(c).sibling.red && Red(Far(NephewTurned(c)))
  {
    var s := c.sibling;
    assert Rb(s.left, h) && Rb(s.right, h);
    if c.InLeft? {
      assert Rb(Node(s.left.right, s.item, true, s.right), h);
    } else {
      assert Rb(Node(s.left, s.item, true, s.right.left), h);
    }
  }

  /** Sibling takes the parent's colour, parent and far nephew turn black. */
  ghost function Repainted<T>(g: Tree<T>, leftward: bool): (r: Tree<T>)
    requires g.Node? && (if leftward then g.left.Node? && g.left.left.Node? else g.right.Node? && g.right.right.Node?)
    ensures Items(r) == Items(g) && Inorder(r) == Inorder(g)
    ensures Distinct(g) ==> Distinct(r)
  {
    if leftward then Node(RepaintedSibling(g.left, g.red, true), g.item, false, g.right)
    else Node(g.left, g.item, false, RepaintedSibling(g.right, g.red, false))
  }

  ghost function RepaintedSibling<T>(s: Tree<T>, red: bool, leftward: bool): (r: Tree<T>)
    requires s.Node? && (if leftward then s.left.Node? else s.right.Node?)
    ensures Items(r) == Items(s) && Inorder(r) == Inorder(s)
    ensures Distinct(s) ==> Distinct(r)
  {
    if leftward then Node(Painted(s.left, false), s.item, red, s.right)
    else Node(s.left, s.item, red, Painted(s.right, false))
  }

  /** The subtree after the last rotation of the loop. */
  ghost function Finished<T>(c: Ctx<T>, t: Tree<T>): Tree<T>
    requires !c.Top? && c.sibling.Node? && Far(c).Node?
  {
    if c.InLeft? then RotatedLeft(Repainted(Close(c, t), false)) else RotatedRight(Repainted(Close(c, t), true))
  }

  lemma FinishedFits<T>(c: Ctx<T>, t: Tree<T>, h: int)
    requires Short(c, t, h) && !Red(t) && !c.Top? && c.sibling.Node? && !c.sibling.red && Red(Far(c))
    ensures Fits(c.up, Finished(c, t), HeightAbove(c, h + 1))
    ensures Whole(c.up, Finished(c, t)) == Whole(c, t) && AllItems(c.up, Finished(c, t)) == AllItems(c, t)
  {
    WholeUp(c, t);
    var s := c.sibling;
    assert Rb(s.left, h) && Rb(s.right, h);
    assert Rb(Painted(Far(c), false), h + 1);
    assert Finished(c, t).red == c.red;
    if c.InLeft? {
      LeftRotationKeeps(Repainted(Close(c, t), false));
    } else {
      RightRotationKeeps(Repainted(Close(c, t), true));
    }
  }

  // ---------------------------------------------------------------- leaving the loop

  ghost function Blackened<T>(t: Tree<T>): (r: Tree<T>)
    ensures Items(r) == Items(t) && Inorder(r) == Inorder(t)
  {
    if t.Node? then Painted(t, false) else t
  }

  lemma ShortEnds<T>(c: Ctx<T>, t: Tree<T>, h: int)
    requires Short(c, t, h) && (c.Top? || Red(t))
    ensures IsRedBlack(Plug(c, Blackened(t)))
  {
    PlugFits(c, Blackened(t), if Red(t) then h + 1 else h);
  }

  // ---------------------------------------------------------------- taking a node out

  /** `t` has at most one child: this is what takes its place. */
  ghost function OnlyChild<T>(t: Tree<T>): Tree<T>
    requires t.Node? && (t.left.Leaf? || t.right.Leaf?)
  {
    if t.left.Leaf? then t.right else t.left
  }

  /** Taking out a red node is harmless, taking out a black one leaves its paths one short. */
  lemma SpliceShape<T>(c: Ctx<T>, t: Tree<T>, h: int)
    requires Fits(c, t, h) && t.Node? && (t.left.Leaf? || t.right.Leaf?)
    ensures if t.red then Fits(c, OnlyChild(t), h) else Short(c, OnlyChild(t), h - 1)
  {
    var k := OnlyChild(t);
    assert Rb(k, if t.red then h else h - 1);
    if Red(k) { assert Rb(Painted(k, false), h); }
  }

  /** `s'` is `s` with one occurrence of `x` taken out, everything else in place. */
  ghost predicate Removed<T>(s: seq<T>, x: T, s': seq<T>) {
    exists i :: 0 <= i < |s| && s[i] == x && s' == s[..i] + s[i + 1..]
  }

  lemma RemovedBetween<T>(b: seq<T>, x: T, a: seq<T>)
    ensures Removed(b + [x] + a, x, b + a)
  {
    var s := b + [x] + a;
    assert s[|b|] == x && s[..|b|] == b && s[|b| + 1..] == a;
  }

  lemma SpliceContents<T>(c: Ctx<T>, t: Tree<T>)
    requires t.Node? && (t.left.Leaf? || t.right.Leaf?)
    ensures Removed(Whole(c, t), t.item, Whole(c, OnlyChild(t)))
  {
    var b, m, a := Before(c), Inorder(OnlyChild(t)), After(c);
    if t.left.Leaf? {
      assert Inorder(t) == [t.item] + m;
      SeqFirst(b, t.item, m, a);
    } else {
      assert Inorder(t) == m + [t.item];
      SeqLast(b, m, t.item, a);
    }
  }

  lemma SeqFirst<T>(b: seq<T>, x: T, m: seq<T>, a: seq<T>)
    ensures Removed(b + ([x] + m) + a, x, b + m + a)
  {
    RemovedBetween(b, x, m + a);
    assert b + ([x] + m) + a == b + [x] + (m + a);
    assert b + m + a == b + (m + a);
  }

  lemma SeqLast<T>(b: seq<T>, m: seq<T>, x: T, a: seq<T>)
    ensures Removed(b + (m + [x]) + a, x, b + m + a)
  {
    RemovedBetween(b + m, x, a);
    assert b + (m + [x]) + a == (b + m) + [x] + a;
  }

  lemma SeqMiddle<T>(b: seq<T>, l: seq<T>, x: T, u: T, r: seq<T>, a: seq<T>)
    ensures Removed(b + (l + [x] + ([u] + r)) + a, x, b + (l + [u] + r) + a)
  {
    var p, q := b + l, [u] + r + a;
    RemovedBetween(p, x, q);
    assert b + (l + [x] + ([u] + r)) + a == p + [x] + q;
    assert b + (l + [u] + r) + a == p + q;
  }

  /** The frames of `d` on top of the frames of `base`. */
  ghost function Append<T>(d: Ctx<T>, base: Ctx<T>): (r: Ctx<T>)
    ensures CtxItems(r) == CtxItems(d) + CtxItems(base)
    ensures !d.Top? ==> !r.Top? && r.InLeft? == d.InLeft? && r.item == d.item
  {
    match d
    case Top => base
    case InLeft(up, x, red, sib) => InLeft(Append(up, base), x, red, sib)
    case InRight(up, x, red, sib) => InRight(Append(up, base), x, red, sib)
  }

  lemma {:induction false} PlugAppend<T>(d: Ctx<T>, base: Ctx<T>, t: Tree<T>)
    ensures Plug(Append(d, base), t) == Plug(base, Plug(d, t))
    ensures Whole(Append(d, base), t) == Whole(base, Plug(d, t))
    ensures AllItems(Append(d, base), t) == AllItems(base, Plug(d, t))
    ensures AllDistinct(Append(d, base), t) <==> AllDistinct(base, Plug(d, t))
  {
    if !d.Top? {
      var a := Append(d, base);
      PlugAppend(d.up, base, Close(d, t));
      WholeUp(a, t);
      DistinctUp(a, t);
      assert a.up == Append(d.up, base) && Close(a, t) == Close(d, t);
    }
  }

  /** All frames of `d` are left turns: the path to the least node. */
  ghost predicate LeftSpine<T>(d: Ctx<T>) {
    d.Top? || (d.InLeft? && LeftSpine(d.up))
  }

  lemma {:induction false} SpineBefore<T>(d: Ctx<T>)
    requires LeftSpine(d)
    ensures Before(d) == []
  {
    if !d.Top? { SpineBefore(d.up); }
  }

  /** The red-black requirements of a context do not depend on which node sits in a frame. */
  lemma {:induction false} AppendRb<T>(d: Ctx<T>, b1: Ctx<T>, b2: Ctx<T>, h: int)
    requires !b1.Top? && !b2.Top? && b1.up == b2.up && b1.red == b2.red && b1.sibling == b2.sibling
    ensures CtxRb(Append(d, b1), h) <==> CtxRb(Append(d, b2), h)
    ensures MayHoldRed(Append(d, b1)) <==> MayHoldRed(Append(d, b2))
  {
    if !d.Top? { AppendRb(d.up, b1, b2, HeightAbove(d, h)); }
  }

  /** Removing a node with two children: its in-order successor, the least node of the right subtree,
      moves into its place and takes its colour. */
  lemma SuccessorContents<T>(c: Ctx<T>, l: Tree<T>, x: T, red: bool, d: Ctx<T>, u: Tree<T>)
    requires LeftSpine(d) && u.Node? && u.left.Leaf?
    ensures Removed(Whole(c, Node(l, x, red, Plug(d, u))), x, Whole(c, Node(l, u.item, red, Plug(d, u.right))))
  {
    SpineBefore(d);
    PlugKeeps(d, u);
    PlugKeeps(d, u.right);
    var rest := Inorder(Plug(d, u.right));
    assert Inorder(u) == [u.item] + Inorder(u.right);
    assert Inorder(Plug(d, u)) == [u.item] + rest;
    SeqMiddle(Before(c), Inorder(l), x, u.item, rest, After(c));
  }

  /** The new shape around the successor `u.item` once it stands in for `x`. */
  lemma SuccessorDistinct<T>(c: Ctx<T>, l: Tree<T>, x: T, red: bool, d: Ctx<T>, u: Tree<T>)
    requires u.Node? && u.left.Leaf? && AllDistinct(Append(d, InRight(c, x, red, l)), u)
    requires AllDistinct(InRight(c, x, red, l), Plug(d, u.right))
    ensures var t' := Node(l, u.item, red, Plug(d, u.right));
      && AllDistinct(c, t') && x !in AllItems(c, t') && x != u.item
      && AllItems(c, t') == AllItems(Append(d, InRight(c, x, red, l)), u) - {x}
  {
    PlugKeeps(d, u.right);
    assert u.item !in Items(Plug(d, u.right));
    assert Items(Node(l, u.item, red, Plug(d, u.right))) == Items(l) + {u.item} + Items(Plug(d, u.right));
  }

  /** Everything about removing a node with two children that does not concern the heap. */
  lemma InnerRemoval<T>(c: Ctx<T>, l: Tree<T>, x: T, red: bool, d: Ctx<T>, u: Tree<T>, h: int)
    requires LeftSpine(d) && u.Node? && u.left.Leaf?
    requires AllDistinct(Append(d, InRight(c, x, red, l)), u) && Fits(Append(d, InRight(c, x, red, l)), u, h)
    ensures var t, e := Node(l, x, red, Plug(d, u)), Append(d, InRight(c, u.item, red, l));
      && AllItems(Append(d, InRight(c, x, red, l)), u) == AllItems(c, t)
      && AllItems(e, u.right) == AllItems(c, t) - {x}
      && Removed(Whole(c, t), x, Whole(e, u.right))
      && if u.red then Fits(e, u.right, h) else Short(e, u.right, h - 1)
  {
    var c1, c2 := InRight(c, x, red, l), InRight(c, u.item, red, l);
    assert AllDistinct(Append(d, c1), u.right);
    PlugAppend(d, c1, u);
    PlugAppend(d, c1, u.right);
    PlugAppend(d, c2, u.right);
    WholeUp(c1, Plug(d, u));
    WholeUp(c2, Plug(d, u.right));
    SuccessorDistinct(c, l, x, red, d, u);
    SuccessorContents(c, l, x, red, d, u);
    SpliceShape(Append(d, c1), u, h);
    AppendRb(d, c1, c2, h);
  }
}
