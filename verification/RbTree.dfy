/** firmware/libosmocore/source/rbtree.c: insertion and removal with parent links, on the heap. */
module RbTree {
  import opened RbShape
  import opened RbInsertShape
  import opened RbEraseShape

  /** `struct rb_node`, together with the fields of the `struct osmo_timer_list` that embeds it.  The
      functions of this module write the four link fields only. */
  class RbNode {
    var parent: RbNode?
    var left: RbNode?
    var right: RbNode?
    var red: bool

    var timeout: int
    var active: bool
  }

  // ---------------------------------------------------------------- how shapes lie in the heap

  ghost function Ptr(t: Tree<RbNode>): RbNode? {
    if t.Leaf? then null else t.item
  }

  /** The node that the parent link at this position refers to. */
  ghost function Over(c: Ctx<RbNode>): RbNode? {
    if c.Top? then null else c.item
  }

  /** The heap nodes of `t` carry its links and colours, and its root points back to `p`. */
  ghost predicate Linked(t: Tree<RbNode>, p: RbNode?)
    reads Items(t)`parent, Items(t)`left, Items(t)`right, Items(t)`red
  {
    match t
    case Leaf => true
    case Node(l, x, red, r) =>
      && x.parent == p && x.red == red && x.left == Ptr(l) && x.right == Ptr(r)
      && Linked(l, x) && Linked(r, x)
  }

  /** The frames of `c` lead from the pointer `top` down to the pointer `hole`. */
  ghost predicate LinkedCtx(c: Ctx<RbNode>, hole: RbNode?, top: RbNode?)
    reads CtxItems(c)`parent, CtxItems(c)`left, CtxItems(c)`right, CtxItems(c)`red
  {
    match c
    case Top => hole == top
    case InLeft(up, x, red, r) =>
      && x.parent == Over(up) && x.red == red && x.left == hole && x.right == Ptr(r)
      && Linked(r, x) && LinkedCtx(up, x, top)
    case InRight(up, x, red, l) =>
      && x.parent == Over(up) && x.red == red && x.left == Ptr(l) && x.right == hole
      && Linked(l, x) && LinkedCtx(up, x, top)
  }

  /** The tree under the pointer `top` is `t` in the context `c`. */
  ghost predicate At(c: Ctx<RbNode>, t: Tree<RbNode>, top: RbNode?)
    reads AllItems(c, t)`parent, AllItems(c, t)`left, AllItems(c, t)`right, AllItems(c, t)`red
  {
    AllDistinct(c, t) && Linked(t, Over(c)) && LinkedCtx(c, Ptr(t), top)
  }

  lemma AtUp(c: Ctx<RbNode>, t: Tree<RbNode>, top: RbNode?)
    requires !c.Top?
    ensures At(c, t, top) <==> At(c.up, Close(c, t), top)
  {
    WholeUp(c, t);
  }

  lemma {:induction false} AtPlug(c: Ctx<RbNode>, t: Tree<RbNode>, top: RbNode?)
    ensures At(c, t, top) <==> At(Top, Plug(c, t), top)
  {
    if !c.Top? {
      AtUp(c, t, top);
      AtPlug(c.up, Close(c, t), top);
    }
  }

  /** What the node at a position can see of its parent and sibling. */
  lemma Family(c: Ctx<RbNode>, t: Tree<RbNode>, top: RbNode?)
    requires At(c, t, top) && t.Node?
    ensures t.item.parent == Over(c)
    ensures !c.Top? ==> var p := c.item;
      && p.red == c.red
      && (t.item == p.left <==> c.InLeft?) && (t.item == p.right <==> c.InRight?)
      && Ptr(c.sibling) == (if c.InLeft? then p.right else p.left)
      && (c.sibling.Node? ==> c.sibling.item.red == c.sibling.red)
  {
    if !c.Top? { assert Linked(c.sibling, c.item); }
  }

  /** What a parent can see of the sibling of the position, and the sibling of its children. */
  lemma Sibs(c: Ctx<RbNode>, t: Tree<RbNode>, top: RbNode?)
    requires At(c, t, top) && !c.Top? && c.sibling.Node?
    ensures var s := c.sibling;
      && s.item == (if c.InLeft? then c.item.right else c.item.left)
      && s.item.red == s.red && s.item.left == Ptr(s.left) && s.item.right == Ptr(s.right)
      && (s.left.Node? ==> s.left.item.red == s.left.red) && (s.right.Node? ==> s.right.item.red == s.right.red)
  {
    assert Linked(c.sibling, c.item);
    assert Linked(c.sibling.left, c.sibling.item) && Linked(c.sibling.right, c.sibling.item);
  }

  lemma {:induction false} AtAppend(d: Ctx<RbNode>, base: Ctx<RbNode>, t: Tree<RbNode>, top: RbNode?)
    ensures At(Append(d, base), t, top) <==> At(base, Plug(d, t), top)
  {
    if !d.Top? {
      var a := Append(d, base);
      AtUp(a, t, top);
      AtAppend(d.up, base, Close(d, t), top);
      assert a.up == Append(d.up, base) && Close(a, t) == Close(d, t);
    }
  }

  /** The parent of a position is the outermost base frame only if nothing lies in between. */
  lemma DepthOfAppend(d: Ctx<RbNode>, base: Ctx<RbNode>, t: Tree<RbNode>, top: RbNode?)
    requires At(Append(d, base), t, top) && !base.Top? && Over(Append(d, base)) == base.item
    ensures d.Top?
  {
  }

  /** The successor `n` of `prev` is out of the tree `r'` left of it and already points to it. */
  ghost predicate Detached(prev: RbNode, n: RbNode, c1: Ctx<RbNode>, r': Tree<RbNode>, top: RbNode?)
    requires c1.InRight?
    reads prev, n, CtxItems(c1.up), Items(c1.sibling), Items(r')
  {
    && AllDistinct(c1, r') && LinkedCtx(c1.up, prev, top)
    && prev.parent == Over(c1.up) && prev.red == c1.red && prev.left == Ptr(c1.sibling) && Linked(c1.sibling, prev)
    && n.right == Ptr(r') && Linked(r', n)
  }

  lemma {:induction false} TopOnlyAtTop(c: Ctx<RbNode>, t: Tree<RbNode>, top: RbNode?)
    requires At(c, t, top)
    ensures Ptr(t) == top <==> c.Top?
  {
    if !c.Top? { TopInside(c, Ptr(t), top); }
  }

  lemma {:induction false} TopInside(c: Ctx<RbNode>, hole: RbNode?, top: RbNode?)
    requires LinkedCtx(c, hole, top) && !c.Top?
    ensures top != null && top in CtxItems(c)
  {
    if !c.up.Top? { TopInside(c.up, c.item, top); }
  }

  /** The parent's child pointers tell on which side a position is, even when the subtree is empty. */
  lemma ChildSide(c: Ctx<RbNode>, t: Tree<RbNode>, top: RbNode?)
    requires At(c, t, top) && !c.Top? && c.sibling.Node?
    ensures c.item.left == Ptr(t) <==> c.InLeft?
  {
  }

  // ---------------------------------------------------------------- rotations

  /** `rb_set_parent` on a child that may be absent. */
  method SetParent(n: RbNode?, p: RbNode?, ghost t: Tree<RbNode>, ghost q: RbNode?)
    requires n == Ptr(t) && Distinct(t) && Linked(t, q)
    modifies Items(t)`parent
    ensures Linked(t, p)
  {
    if n != null {
      n.parent := p;
    }
  }

  /** The part of `__rb_rotate_left` below the parent. */
  method TurnLeft(x: RbNode, ghost t: Tree<RbNode>, p: RbNode?)
    requires t.Node? && t.item == x && t.right.Node?
    requires Distinct(t) && Linked(t, p)
    modifies Items(t)`parent, Items(t)`left, Items(t)`right
    ensures Linked(RotatedLeft(t), p)
  {
    ghost var Node(a, _, xr, Node(b, y, yr, d)) := t;
    assert Linked(t.right, x) && Distinct(t.right) && Items(t.right) == Items(b) + {y} + Items(d);
    assert allocated(Items(a)) && allocated(Items(b)) && allocated(Items(d));
    var right := x.right;
    x.right := right.left;
    SetParent(x.right, x, b, y);
    right.left := x;
    right.parent := p;
    x.parent := right;
    assert Linked(Node(a, x, xr, b), y);
  }

  /** The part of `__rb_rotate_right` below the parent. */
  method TurnRight(y: RbNode, ghost t: Tree<RbNode>, p: RbNode?)
    requires t.Node? && t.item == y && t.left.Node?
    requires Distinct(t) && Linked(t, p)
    modifies Items(t)`parent, Items(t)`left, Items(t)`right
    ensures Linked(RotatedRight(t), p)
  {
    ghost var Node(Node(a, x, xr, b), _, yr, d) := t;
    assert Linked(t.left, y) && Distinct(t.left) && Items(t.left) == Items(a) + {x} + Items(b);
    assert allocated(Items(a)) && allocated(Items(b)) && allocated(Items(d));
    var left := y.left;
    y.left := left.right;
    SetParent(y.left, y, b, x);
    left.right := y;
    left.parent := p;
    y.parent := left;
    assert Linked(Node(b, y, yr, d), x);
  }

  lemma AtAcross(c: Ctx<RbNode>, t: Tree<RbNode>, top: RbNode?)
    requires !c.Top?
    ensures At(c, t, top) <==> At(Across(c, t), c.sibling, top)
  {
    AtUp(c, t, top);
    AtUp(Across(c, t), c.sibling, top);
  }

  // ---------------------------------------------------------------- colours

  /** `rb_set_red`, `rb_set_black`, `rb_set_color` */
  method Paint(n: RbNode, red: bool, ghost c: Ctx<RbNode>, ghost t: Tree<RbNode>, ghost top: RbNode?)
    requires At(c, t, top) && t.Node? && n == t.item
    modifies n`red
    ensures At(c, Painted(t, red), top)
  {
    n.red := red;
  }

  /** Parent black, grandparent red. */
  method SwapColors(parent: RbNode, gparent: RbNode, ghost g: Tree<RbNode>, ghost leftward: bool, ghost p: RbNode?)
    requires g.Node? && g.item == gparent && Distinct(g) && Linked(g, p)
    requires if leftward then g.left.Node? && parent == g.left.item else g.right.Node? && parent == g.right.item
    modifies {parent, gparent}`red
    ensures Linked(Lifted(g, leftward), p)
  {
    ghost var child := if leftward then g.left else g.right;
    assert Linked(child, gparent) && Distinct(child);
    parent.red := false;
    gparent.red := true;
    assert Linked(Painted(child, false), gparent);
  }

  /** Sibling in the parent's colour, parent and far nephew black. */
  method TransferColors(parent: RbNode, other: RbNode, far: RbNode?, ghost g: Tree<RbNode>, ghost leftward: bool,
                        ghost p: RbNode?)
    requires g.Node? && g.item == parent && Distinct(g) && Linked(g, p)
    requires if leftward then g.left.Node? && g.left.left.Node? else g.right.Node? && g.right.right.Node?
    requires other == if leftward then g.left.item else g.right.item
    requires far == if leftward then g.left.left.item else g.right.right.item
    modifies {parent, other, far}`red
    ensures Linked(Repainted(g, leftward), p)
  {
    ghost var s := if leftward then g.left else g.right;
    ghost var f := if leftward then s.left else s.right;
    assert Linked(s, parent) && Linked(f, other) && Distinct(s) && Distinct(f);
    assert parent !in Items(s) && f.item in Items(s) && parent != other && parent != far && other != far;
    other.red := parent.red;
    parent.red := false;
    far.red := false;
    assert Linked(Painted(f, false), other);
    assert Linked(RepaintedSibling(s, g.red, leftward), parent);
  }

  class RbRoot {
    var node: RbNode?
    ghost var tree: Tree<RbNode>

    /** The heap under `node` is the red-black tree `tree`. */
    ghost predicate Valid()
      reads this, Items(tree)`parent, Items(tree)`left, Items(tree)`right, Items(tree)`red
    {
      At(Top, tree, node) && IsRedBlack(tree)
    }

    constructor ()
      ensures Valid() && tree == Leaf
    {
      node := null;
      tree := Leaf;
    }

    /** The choice every rewiring ends in: `parent`, or the root, now points to `next` instead of `prev`. */
    method ReplaceChild(parent: RbNode?, prev: RbNode, next: RbNode?, ghost c: Ctx<RbNode>)
      requires CtxDistinct(c) && LinkedCtx(c, prev, node)
      requires parent == Over(c) && prev !in CtxItems(c)
      modifies `node, `tree, CtxItems(c)`left, CtxItems(c)`right
      ensures LinkedCtx(c, next, node)
    {
      if parent != null {
        if prev == parent.left {
          parent.left := next;
        } else {
          parent.right := next;
        }
      } else {
        node := next;
      }
    }

    /** `__rb_rotate_left` */
    method RotateLeft(x: RbNode, ghost c: Ctx<RbNode>, ghost t: Tree<RbNode>)
      requires t.Node? && t.item == x && t.right.Node?
      requires At(c, t, node)
      modifies `node, `tree, AllItems(c, t)`parent, AllItems(c, t)`left, AllItems(c, t)`right
      ensures At(c, RotatedLeft(t), node)
    {
      LeftRotationItems(t);
      assert allocated(CtxItems(c)) && allocated(Items(t));
      var right, parent := x.right, x.parent;
      TurnLeft(x, t, parent);
      ReplaceChild(parent, x, right, c);
    }

    /** `__rb_rotate_right` */
    method RotateRight(y: RbNode, ghost c: Ctx<RbNode>, ghost t: Tree<RbNode>)
      requires t.Node? && t.item == y && t.left.Node?
      requires At(c, t, node)
      modifies `node, `tree, AllItems(c, t)`parent, AllItems(c, t)`left, AllItems(c, t)`right
      ensures At(c, RotatedRight(t), node)
    {
      RightRotationItems(t);
      assert allocated(CtxItems(c)) && allocated(Items(t));
      var left, parent := y.left, y.parent;
      TurnRight(y, t, parent);
      ReplaceChild(parent, y, left, c);
    }

    // ---------------------------------------------------------------- insertion

    /** Parent and uncle turn black, the grandparent red. */
    method FlipAtGrandparent(uncle: RbNode, parent: RbNode, gparent: RbNode, ghost c: Ctx<RbNode>,
                             ghost t: Tree<RbNode>)
      requires ParentRed(c) && At(c, t, node) && t.Node? && c.up.sibling.Node?
      requires parent == c.item && gparent == c.up.item && uncle == c.up.sibling.item
      modifies AllItems(c, t)`red
      ensures At(c.up.up, Flipped(Grand(c, t)), node)
    {
      GrandKeeps(c, t);
      ghost var p, u := Close(c, t), c.up.sibling;
      ghost var p', u' := Painted(p, false), Painted(u, false);
      AtUp(c, t, node);
      AtAcross(c.up, p, node);
      Paint(uncle, false, Across(c.up, p), u, node);
      AtAcross(Across(c.up, p), u', node);
      Paint(parent, false, Across(Across(c.up, p), u'), p, node);
      AtUp(Across(Across(c.up, p), u'), p', node);
      Paint(gparent, true, c.up.up, Close(Across(Across(c.up, p), u'), p'), node);
    }

    /** Paint parent and grandparent, rotate the grandparent to the right. */
    method LiftLeftParent(parent: RbNode, gparent: RbNode, ghost c: Ctx<RbNode>, ghost t: Tree<RbNode>)
      requires ParentRed(c) && c.InLeft? && c.up.InLeft? && At(c, t, node)
      requires parent == c.item && gparent == c.up.item
      modifies `node, `tree, AllItems(c, t)`parent, AllItems(c, t)`left, AllItems(c, t)`right, AllItems(c, t)`red
      ensures At(Outer(c), t, node)
    {
      AtUp(c, t, node);
      AtUp(c.up, Close(c, t), node);
      GrandKeeps(c, t);
      assert allocated(CtxItems(c.up.up));
      SwapColors(parent, gparent, Grand(c, t), true, Over(c.up.up));
      RotateRight(gparent, c.up.up, Lifted(Grand(c, t), true));
      OuterIsRotation(c, t);
      AtUp(Outer(c), t, node);
    }

    /** Paint parent and grandparent, rotate the grandparent to the left. */
    method LiftRightParent(parent: RbNode, gparent: RbNode, ghost c: Ctx<RbNode>, ghost t: Tree<RbNode>)
      requires ParentRed(c) && c.InRight? && c.up.InRight? && At(c, t, node)
      requires parent == c.item && gparent == c.up.item
      modifies `node, `tree, AllItems(c, t)`parent, AllItems(c, t)`left, AllItems(c, t)`right, AllItems(c, t)`red
      ensures At(Outer(c), t, node)
    {
      AtUp(c, t, node);
      AtUp(c.up, Close(c, t), node);
      GrandKeeps(c, t);
      assert allocated(CtxItems(c.up.up));
      SwapColors(parent, gparent, Grand(c, t), false, Over(c.up.up));
      RotateLeft(gparent, c.up.up, Lifted(Grand(c, t), false));
      OuterIsRotation(c, t);
      AtUp(Outer(c), t, node);
    }

    /** The rotation that turns an inner grandchild into an outer one. */
    method StraightenLeft(parent: RbNode, ghost c: Ctx<RbNode>, ghost t: Tree<RbNode>)
      requires c.InRight? && t.Node? && At(c, t, node) && parent == c.item
      modifies `node, `tree, AllItems(c, t)`parent, AllItems(c, t)`left, AllItems(c, t)`right
      ensures At(Inner(c, t).0, Inner(c, t).1, node)
    {
      AtUp(c, t, node);
      WholeUp(c, t);
      RotateLeft(parent, c.up, Close(c, t));
      InnerIsRotation(c, t);
      AtUp(Inner(c, t).0, Inner(c, t).1, node);
    }

    method StraightenRight(parent: RbNode, ghost c: Ctx<RbNode>, ghost t: Tree<RbNode>)
      requires c.InLeft? && t.Node? && At(c, t, node) && parent == c.item
      modifies `node, `tree, AllItems(c, t)`parent, AllItems(c, t)`left, AllItems(c, t)`right
      ensures At(Inner(c, t).0, Inner(c, t).1, node)
    {
      AtUp(c, t, node);
      WholeUp(c, t);
      RotateRight(parent, c.up, Close(c, t));
      InnerIsRotation(c, t);
      AtUp(Inner(c, t).0, Inner(c, t).1, node);
    }

    method BlackenRoot(ghost t: Tree<RbNode>)
      requires At(Top, t, node) && t.Node?
      modifies node`red
      ensures At(Top, Painted(t, false), node)
    {
      node.red := false;
    }

    /** One round of the loop in `rb_insert_color` when the parent is a left child. */
    method ClimbLeft(n: RbNode, parent: RbNode, gparent: RbNode, ghost c: Ctx<RbNode>, ghost t: Tree<RbNode>,
                     ghost h: int)
      returns (n': RbNode, ghost c': Ctx<RbNode>, ghost t': Tree<RbNode>, ghost h': int)
      requires At(c, t, node) && Climbing(c, t, h) && ParentRed(c) && c.up.InLeft?
      requires n == t.item && parent == c.item && gparent == c.up.item
      modifies `node, `tree, AllItems(c, t)`parent, AllItems(c, t)`left, AllItems(c, t)`right, AllItems(c, t)`red
      ensures At(c', t', node) && Climbing(c', t', h') && n' == t'.item
      ensures Whole(c', t') == Whole(c, t) && AllItems(c', t') == AllItems(c, t) && Depth(c') < Depth(c)
    {
      AtUp(c, t, node);
      Family(c, t, node);
      Family(c.up, Close(c, t), node);
      var uncle := gparent.right;
      if uncle != null && uncle.red {
        FlipClimbs(c, t, h);
        FlipAtGrandparent(uncle, parent, gparent, c, t);
        n', c', t', h' := gparent, c.up.up, Flipped(Grand(c, t)), h + 1;
      } else {
        n', c', t', h' := n, c, t, h;
        var p := parent;
        if parent.right == n {
          InnerClimbs(c, t, h);
          InnerIsRotation(c, t);
          StraightenLeft(parent, c, t);
          n', p, c', t' := parent, n, Inner(c, t).0, Inner(c, t).1;
        }
        OuterClimbs(c', t', h);
        OuterIsRotation(c', t');
        LiftLeftParent(p, gparent, c', t');
        c' := Outer(c');
      }
    }

    /** The same when the parent is a right child. */
    method ClimbRight(n: RbNode, parent: RbNode, gparent: RbNode, ghost c: Ctx<RbNode>, ghost t: Tree<RbNode>,
                      ghost h: int)
      returns (n': RbNode, ghost c': Ctx<RbNode>, ghost t': Tree<RbNode>, ghost h': int)
      requires At(c, t, node) && Climbing(c, t, h) && ParentRed(c) && c.up.InRight?
      requires n == t.item && parent == c.item && gparent == c.up.item
      modifies `node, `tree, AllItems(c, t)`parent, AllItems(c, t)`left, AllItems(c, t)`right, AllItems(c, t)`red
      ensures At(c', t', node) && Climbing(c', t', h') && n' == t'.item
      ensures Whole(c', t') == Whole(c, t) && AllItems(c', t') == AllItems(c, t) && Depth(c') < Depth(c)
    {
      AtUp(c, t, node);
      Family(c, t, node);
      Family(c.up, Close(c, t), node);
      var uncle := gparent.left;
      if uncle != null && uncle.red {
        FlipClimbs(c, t, h);
        FlipAtGrandparent(uncle, parent, gparent, c, t);
        n', c', t', h' := gparent, c.up.up, Flipped(Grand(c, t)), h + 1;
      } else {
        n', c', t', h' := n, c, t, h;
        var p := parent;
        if parent.left == n {
          InnerClimbs(c, t, h);
          InnerIsRotation(c, t);
          StraightenRight(parent, c, t);
          n', p, c', t' := parent, n, Inner(c, t).0, Inner(c, t).1;
        }
        OuterClimbs(c', t', h);
        OuterIsRotation(c', t');
        LiftRightParent(p, gparent, c', t');
        c' := Outer(c');
      }
    }

    /** `rb_insert_color`: `leaf` is the red node just linked in. */
    method InsertColor(leaf: RbNode, ghost c0: Ctx<RbNode>, ghost t0: Tree<RbNode>, ghost h0: int)
      requires At(c0, t0, node) && Climbing(c0, t0, h0) && t0.item == leaf
      modifies `node, `tree, AllItems(c0, t0)`parent, AllItems(c0, t0)`left, AllItems(c0, t0)`right
      modifies AllItems(c0, t0)`red
      ensures Valid() && Inorder(tree) == Whole(c0, t0) && Items(tree) == AllItems(c0, t0)
    {
      var n := leaf;
      ghost var c, t, h := c0, t0, h0;
      Family(c, t, node);
      while n.parent != null && n.parent.red
        invariant Climbing(c, t, h) && n == t.item && At(c, t, node)
        invariant n.parent == Over(c) && (!c.Top? ==> c.item.red == c.red)
        invariant Whole(c, t) == Whole(c0, t0) && AllItems(c, t) == AllItems(c0, t0)
        decreases Depth(c)
      {
        AtUp(c, t, node);
        Family(c.up, Close(c, t), node);
        var parent := n.parent;
        var gparent := parent.parent;
        if parent == gparent.left {
          n, c, t, h := ClimbLeft(n, parent, gparent, c, t, h);
        } else {
          n, c, t, h := ClimbRight(n, parent, gparent, c, t, h);
        }
        Family(c, t, node);
      }
      AtPlug(c, t, node);
      PlugKeeps(c, t);
      ClimbingEnds(c, t, h);
      tree := Painted(Plug(c, t), false);
      BlackenRoot(Plug(c, t));
    }

    // ---------------------------------------------------------------- removal

    /** The red sibling of a short left child turns black and is rotated above the red parent. */
    method LiftSiblingOfLeft(parent: RbNode, other: RbNode, ghost c: Ctx<RbNode>, ghost t: Tree<RbNode>)
      requires c.InLeft? && c.sibling.Node? && At(c, t, node) && parent == c.item && other == c.sibling.item
      modifies `node, `tree, AllItems(c, t)`parent, AllItems(c, t)`left, AllItems(c, t)`right, AllItems(c, t)`red
      ensures At(SiblingLifted(c), t, node)
    {
      ghost var g := Close(c, t);
      AtUp(c, t, node);
      WholeUp(c, t);
      assert allocated(CtxItems(c.up));
      SwapColors(other, parent, g, false, Over(c.up));
      RotateLeft(parent, c.up, Lifted(g, false));
      SiblingLiftedIsRotation(c, t);
      ghost var c' := SiblingLifted(c);
      AtUp(c'.up, Close(c', t), node);
      AtUp(c', t, node);
    }

    /** The red near nephew of a short left child is rotated above the sibling. */
    method TurnNephewOfLeft(other: RbNode, ghost c: Ctx<RbNode>, ghost t: Tree<RbNode>)
      requires c.InLeft? && c.sibling.Node? && Near(c).Node? && At(c, t, node) && other == c.sibling.item
      modifies `node, `tree, AllItems(c, t)`parent, AllItems(c, t)`left, AllItems(c, t)`right, AllItems(c, t)`red
      ensures At(NephewTurned(c), t, node)
    {
      ghost var a, s := Across(c, t), c.sibling;
      AtAcross(c, t, node);
      assert allocated(CtxItems(a));
      SwapColors(other.left, other, s, true, Over(a));
      RotateRight(other, a, Lifted(s, true));
      AtAcross(NephewTurned(c), t, node);
    }

    /** The last rotation for a short left child. */
    method FinishOfLeft(parent: RbNode, other: RbNode, ghost c: Ctx<RbNode>, ghost t: Tree<RbNode>)
      requires c.InLeft? && c.sibling.Node? && Far(c).Node? && At(c, t, node) && parent == c.item
      requires other == c.sibling.item
      modifies `node, `tree, AllItems(c, t)`parent, AllItems(c, t)`left, AllItems(c, t)`right, AllItems(c, t)`red
      ensures At(c.up, Finished(c, t), node)
    {
      ghost var g := Close(c, t);
      AtUp(c, t, node);
      WholeUp(c, t);
      assert allocated(CtxItems(c.up));
      TransferColors(parent, other, other.right, g, false, Over(c.up));
      RotateLeft(parent, c.up, Repainted(g, false));
    }

    /** One round of the loop in `__rb_erase_color` when the short subtree is a left child. */
    method MendAtLeft(parent: RbNode, ghost c: Ctx<RbNode>, ghost t: Tree<RbNode>, ghost h: int)
      returns (n': RbNode?, done: bool, ghost c': Ctx<RbNode>, ghost t': Tree<RbNode>, ghost h': int)
      requires At(c, t, node) && Short(c, t, h) && !Red(t) && c.InLeft? && parent == c.item
      modifies `node, `tree, AllItems(c, t)`parent, AllItems(c, t)`left, AllItems(c, t)`right, AllItems(c, t)`red
      ensures At(c', t', node) && Whole(c', t') == Whole(c, t) && AllItems(c', t') == AllItems(c, t)
      ensures if done then Fits(c', t', h') && n' == node else Short(c', t', h') && n' == Ptr(t') && t'.Node?
      ensures !done ==> Depth(c') < Depth(c) || (Depth(c') == Depth(c) && Red(t'))
    {
      c', t' := c, t;
      SiblingExists(c', t', h);
      Sibs(c', t', node);
      var other := parent.right;
      if other.red {
        SiblingLiftedIsRotation(c', t');
        SiblingLiftedShort(c', t', h);
        LiftSiblingOfLeft(parent, other, c', t');
        c' := SiblingLifted(c');
        other := parent.right;
      }
      n', done, c', t', h' := MendBlackAtLeft(parent, other, c', t', h);
    }

    /** The rest of the round: the sibling is black. */
    method MendBlackAtLeft(parent: RbNode, other_: RbNode?, ghost c: Ctx<RbNode>, ghost t: Tree<RbNode>, ghost h: int)
      returns (n': RbNode?, done: bool, ghost c': Ctx<RbNode>, ghost t': Tree<RbNode>, ghost h': int)
      requires At(c, t, node) && Short(c, t, h) && !Red(t) && c.InLeft? && !Red(c.sibling)
      requires parent == c.item && other_ == parent.right
      modifies `node, `tree, AllItems(c, t)`parent, AllItems(c, t)`left, AllItems(c, t)`right, AllItems(c, t)`red
      ensures At(c', t', node) && Whole(c', t') == Whole(c, t) && AllItems(c', t') == AllItems(c, t)
      ensures if done then Fits(c', t', h') && n' == node else Short(c', t', h') && n' == Ptr(t') && t'.Node?
      ensures !done ==> c' == c.up && (Red(t') <==> c.red)
    {
      c', t' := c, t;
      SiblingExists(c', t', h);
      Sibs(c', t', node);
      var other := other_;
      if (other.left == null || !other.left.red) && (other.right == null || !other.right.red) {
        MergedShort(c', t', h);
        PaintSibling(other, true, c', t');
        AtUp(WithSibling(c', Painted(c'.sibling, true)), t', node);
        n', done, c', t', h' := parent, false, c'.up, Merged(c', t'), HeightAbove(c', h);
      } else {
        if other.right == null || !other.right.red {
          NephewTurnedShort(c', t', h);
          NephewTurnedKeeps(c', t');
          TurnNephewOfLeft(other, c', t');
          c' := NephewTurned(c');
          Sibs(c', t', node);
          other := parent.right;
        }
        FinishedFits(c', t', h);
        FinishOfLeft(parent, other, c', t');
        n', done, c', t', h' := node, true, c'.up, Finished(c', t'), HeightAbove(c', h + 1);
      }
    }

    /** The red sibling of a short right child turns black and is rotated above the red parent. */
    method LiftSiblingOfRight(parent: RbNode, other: RbNode, ghost c: Ctx<RbNode>, ghost t: Tree<RbNode>)
      requires c.InRight? && c.sibling.Node? && At(c, t, node) && parent == c.item && other == c.sibling.item
      modifies `node, `tree, AllItems(c, t)`parent, AllItems(c, t)`left, AllItems(c, t)`right, AllItems(c, t)`red
      ensures At(SiblingLifted(c), t, node)
    {
      ghost var g := Close(c, t);
      AtUp(c, t, node);
      WholeUp(c, t);
      assert allocated(CtxItems(c.up));
      SwapColors(other, parent, g, true, Over(c.up));
      RotateRight(parent, c.up, Lifted(g, true));
      SiblingLiftedIsRotation(c, t);
      ghost var c' := SiblingLifted(c);
      AtUp(c'.up, Close(c', t), node);
      AtUp(c', t, node);
    }

    /** The red near nephew of a short right child is rotated above the sibling. */
    method TurnNephewOfRight(other: RbNode, ghost c: Ctx<RbNode>, ghost t: Tree<RbNode>)
      requires c.InRight? && c.sibling.Node? && Near(c).Node? && At(c, t, node) && other == c.sibling.item
      modifies `node, `tree, AllItems(c, t)`parent, AllItems(c, t)`left, AllItems(c, t)`right, AllItems(c, t)`red
      ensures At(NephewTurned(c), t, node)
    {
      ghost var a, s := Across(c, t), c.sibling;
      AtAcross(c, t, node);
      assert allocated(CtxItems(a));
      SwapColors(other.right, other, s, false, Over(a));
      RotateLeft(other, a, Lifted(s, false));
      AtAcross(NephewTurned(c), t, node);
    }

    /** The last rotation for a short right child. */
    method FinishOfRight(parent: RbNode, other: RbNode, ghost c: Ctx<RbNode>, ghost t: Tree<RbNode>)
      requires c.InRight? && c.sibling.Node? && Far(c).Node? && At(c, t, node) && parent == c.item
      requires other == c.sibling.item
      modifies `node, `tree, AllItems(c, t)`parent, AllItems(c, t)`left, AllItems(c, t)`right, AllItems(c, t)`red
      ensures At(c.up, Finished(c, t), node)
    {
      ghost var g := Close(c, t);
      AtUp(c, t, node);
      WholeUp(c, t);
      assert allocated(CtxItems(c.up));
      TransferColors(parent, other, other.left, g, true, Over(c.up));
      RotateRight(parent, c.up, Repainted(g, true));
    }

    /** One round of the loop in `__rb_erase_color` when the short subtree is a right child. */
    method MendAtRight(parent: RbNode, ghost c: Ctx<RbNode>, ghost t: Tree<RbNode>, ghost h: int)
      returns (n': RbNode?, done: bool, ghost c': Ctx<RbNode>, ghost t': Tree<RbNode>, ghost h': int)
      requires At(c, t, node) && Short(c, t, h) && !Red(t) && c.InRight? && parent == c.item
      modifies `node, `tree, AllItems(c, t)`parent, AllItems(c, t)`left, AllItems(c, t)`right, AllItems(c, t)`red
      ensures At(c', t', node) && Whole(c', t') == Whole(c, t) && AllItems(c', t') == AllItems(c, t)
      ensures if done then Fits(c', t', h') && n' == node else Short(c', t', h') && n' == Ptr(t') && t'.Node?
      ensures !done ==> Depth(c') < Depth(c) || (Depth(c') == Depth(c) && Red(t'))
    {
      c', t' := c, t;
      SiblingExists(c', t', h);
      Sibs(c', t', node);
      var other := parent.left;
      if other.red {
        SiblingLiftedIsRotation(c', t');
        SiblingLiftedShort(c', t', h);
        LiftSiblingOfRight(parent, other, c', t');
        c' := SiblingLifted(c');
        other := parent.left;
      }
      n', done, c', t', h' := MendBlackAtRight(parent, other, c', t', h);
    }

    /** The rest of the round: the sibling is black. */
    method MendBlackAtRight(parent: RbNode, other_: RbNode?, ghost c: Ctx<RbNode>, ghost t: Tree<RbNode>, ghost h: int)
      returns (n': RbNode?, done: bool, ghost c': Ctx<RbNode>, ghost t': Tree<RbNode>, ghost h': int)
      requires At(c, t, node) && Short(c, t, h) && !Red(t) && c.InRight? && !Red(c.sibling)
      requires parent == c.item && other_ == parent.left
      modifies `node, `tree, AllItems(c, t)`parent, AllItems(c, t)`left, AllItems(c, t)`right, AllItems(c, t)`red
      ensures At(c', t', node) && Whole(c', t') == Whole(c, t) && AllItems(c', t') == AllItems(c, t)
      ensures if done then Fits(c', t', h') && n' == node else Short(c', t', h') && n' == Ptr(t') && t'.Node?
      ensures !done ==> c' == c.up && (Red(t') <==> c.red)
    {
      c', t' := c, t;
      SiblingExists(c', t', h);
      Sibs(c', t', node);
      var other := other_;
      if (other.left == null || !other.left.red) && (other.right == null || !other.right.red) {
        MergedShort(c', t', h);
        PaintSibling(other, true, c', t');
        AtUp(WithSibling(c', Painted(c'.sibling, true)), t', node);
        n', done, c', t', h' := parent, false, c'.up, Merged(c', t'), HeightAbove(c', h);
      } else {
        if other.left == null || !other.left.red {
          NephewTurnedShort(c', t', h);
          NephewTurnedKeeps(c', t');
          TurnNephewOfRight(other, c', t');
          c' := NephewTurned(c');
          Sibs(c', t', node);
          other := parent.left;
        }
        FinishedFits(c', t', h);
        FinishOfRight(parent, other, c', t');
        n', done, c', t', h' := node, true, c'.up, Finished(c', t'), HeightAbove(c', h + 1);
      }
    }

    /** `rb_set_red(other)` */
    method PaintSibling(other: RbNode, red: bool, ghost c: Ctx<RbNode>, ghost t: Tree<RbNode>)
      requires !c.Top? && c.sibling.Node? && At(c, t, node) && other == c.sibling.item
      modifies other`red
      ensures At(WithSibling(c, Painted(c.sibling, red)), t, node)
    {
      AtAcross(c, t, node);
      Paint(other, red, Across(c, t), c.sibling, node);
      AtAcross(WithSibling(c, Painted(c.sibling, red)), t, node);
    }

    /** Seen from the top. */
    lemma WholeTree(c: Ctx<RbNode>, t: Tree<RbNode>, h: int)
      requires At(c, t, node) && Fits(c, t, h)
      ensures At(Top, Plug(c, t), node) && IsRedBlack(Plug(c, t))
      ensures Whole(Top, Plug(c, t)) == Whole(c, t) && AllItems(Top, Plug(c, t)) == AllItems(c, t)
    {
      PlugFits(c, t, h);
      PlugKeeps(c, t);
      AtPlug(c, t, node);
      assert Whole(Top, Plug(c, t)) == Inorder(Plug(c, t));
    }

    /** One round of the loop in `__rb_erase_color`; `stop` is its `break`. */
    method MendRound(n: RbNode?, parent: RbNode, ghost c: Ctx<RbNode>, ghost t: Tree<RbNode>, ghost h: int)
      returns (n': RbNode?, parent': RbNode?, stop: bool, ghost c': Ctx<RbNode>, ghost t': Tree<RbNode>, ghost h': int)
      requires At(c, t, node) && Short(c, t, h) && !Red(t) && !c.Top? && n == Ptr(t) && parent == c.item
      modifies `node, `tree, AllItems(c, t)`parent, AllItems(c, t)`left, AllItems(c, t)`right, AllItems(c, t)`red
      ensures At(c', t', node) && Whole(c', t') == Whole(c, t) && AllItems(c', t') == AllItems(c, t)
      ensures n' == Ptr(t') && (n' == node <==> c'.Top?)
      ensures stop ==> c'.Top? && IsRedBlack(t')
      ensures !stop ==> Short(c', t', h') && parent' == Over(c')
      ensures !stop ==> Depth(c') < Depth(c) || (Depth(c') == Depth(c) && Red(t'))
    {
      SiblingExists(c, t, h);
      ChildSide(c, t, node);
      if parent.left == n {
        n', stop, c', t', h' := MendAtLeft(parent, c, t, h);
      } else {
        n', stop, c', t', h' := MendAtRight(parent, c, t, h);
      }
      parent' := parent;
      if stop {
        WholeTree(c', t', h');
        c', t' := Top, Plug(c', t');
      } else {
        Family(c', t', node);
        TopOnlyAtTop(c', t', node);
        parent' := n'.parent;
      }
    }

    /** The end of `__rb_erase_color`: `if (node) rb_set_black(node)`. */
    method BlackenIfAny(n: RbNode?, ghost c: Ctx<RbNode>, ghost t: Tree<RbNode>)
      requires At(c, t, node) && n == Ptr(t) && IsRedBlack(Plug(c, Blackened(t)))
      modifies this`tree, Items(t)`red
      ensures Valid() && Inorder(tree) == Whole(c, t) && Items(tree) == AllItems(c, t)
    {
      if n != null {
        Paint(n, false, c, t, node);
      }
      PlugKeeps(c, Blackened(t));
      AtPlug(c, Blackened(t), node);
      tree := Plug(c, Blackened(t));
    }

    /** `__rb_erase_color`: `n0` heads the subtree that is one black node short. */
    method EraseColor(n0: RbNode?, parent0: RbNode?, ghost c0: Ctx<RbNode>, ghost t0: Tree<RbNode>, ghost h0: int)
      requires At(c0, t0, node) && Short(c0, t0, h0) && n0 == Ptr(t0) && parent0 == Over(c0)
      modifies `node, `tree, AllItems(c0, t0)`parent, AllItems(c0, t0)`left, AllItems(c0, t0)`right
      modifies AllItems(c0, t0)`red
      ensures Valid() && Inorder(tree) == Whole(c0, t0) && Items(tree) == AllItems(c0, t0)
    {
      var n, parent, stop := n0, parent0, false;
      ghost var c, t, h := c0, t0, h0;
      TopOnlyAtTop(c, t, node);
      while (n == null || !n.red) && n != node && !stop
        invariant At(c, t, node) && n == Ptr(t) && Whole(c, t) == Whole(c0, t0) && AllItems(c, t) == AllItems(c0, t0)
        invariant n == node <==> c.Top?
        invariant if stop then c.Top? && IsRedBlack(t) else Short(c, t, h) && parent == Over(c)
        decreases Depth(c), !Red(t)
      {
        n, parent, stop, c, t, h := MendRound(n, parent, c, t, h);
      }
      if !stop { ShortEnds(c, t, h); }
      BlackenIfAny(n, c, t);
    }

    /** `rb_erase` for a node with at most one child: the child takes the node's place. */
    method SpliceOut(n: RbNode, child: RbNode?, parent: RbNode?, ghost c: Ctx<RbNode>, ghost t: Tree<RbNode>)
      requires At(c, t, node) && t.Node? && t.item == n && (t.left.Leaf? || t.right.Leaf?)
      requires child == Ptr(OnlyChild(t)) && parent == n.parent
      modifies `node, `tree, AllItems(c, t)`parent, AllItems(c, t)`left, AllItems(c, t)`right
      ensures At(c, OnlyChild(t), node)
    {
      ghost var k := OnlyChild(t);
      assert Linked(k, n) && Items(k) <= Items(t);
      assert allocated(CtxItems(c)) && allocated(Items(k));
      SetParent(child, parent, k, n);
      ReplaceChild(parent, n, child, c);
    }

    /** The least node `n` of a right subtree leaves its place to its right child. */
    method UnhookMin(n: RbNode, child: RbNode?, parent: RbNode, ghost c: Ctx<RbNode>, ghost t: Tree<RbNode>)
      requires At(c, t, node) && t.Node? && t.item == n && t.left.Leaf? && c.InLeft?
      requires child == n.right && parent == n.parent
      modifies Items(t)`parent, parent`left
      ensures At(c, t.right, node)
    {
      assert Linked(t.right, n) && Items(t.right) <= Items(t);
      assert allocated(CtxItems(c)) && allocated(Items(t.right));
      assert allocated(CtxItems(c.up)) && allocated(Items(c.sibling));
      SetParent(child, parent, t.right, n);
      parent.left := child;
    }

    /** `n` takes over parent, colour and left subtree of `prev`. */
    method Inherit(prev: RbNode, n: RbNode, ghost c: Ctx<RbNode>, ghost l: Tree<RbNode>, ghost r: Tree<RbNode>)
      requires AllDistinct(c, Node(l, n, prev.red, r)) && prev !in AllItems(c, Node(l, n, prev.red, r))
      requires LinkedCtx(c, prev, node) && prev.parent == Over(c)
      requires l.Node? && prev.left == Ptr(l) && Linked(l, prev)
      requires n.right == Ptr(r) && Linked(r, n)
      modifies `node, `tree, CtxItems(c)`left, CtxItems(c)`right, Items(l)`parent, n`parent, n`left, n`red
      ensures At(c, Node(l, n, prev.red, r), node)
      ensures prev.red == old(prev.red)
    {
      assert allocated(CtxItems(c)) && allocated(Items(l)) && allocated(Items(r));
      assert CtxItems(c) !! Items(l) && CtxItems(c) !! Items(r) && n !in CtxItems(c);
      ReplaceChild(prev.parent, prev, n, c);
      assert LinkedCtx(c, n, node);
      InheritBelow(prev, n, l, r);
    }

    /** Walk down to the least node of a subtree. */
    method LeftMost(n0: RbNode, ghost base: Ctx<RbNode>, ghost r: Tree<RbNode>, ghost h0: int)
      returns (n: RbNode, ghost d: Ctx<RbNode>, ghost u: Tree<RbNode>, ghost h: int)
      requires At(base, r, node) && Fits(base, r, h0) && r.Node? && r.item == n0
      ensures LeftSpine(d) && Plug(d, u) == r && At(Append(d, base), u, node) && Fits(Append(d, base), u, h)
      ensures u.Node? && u.left.Leaf? && u.item == n
    {
      n, d, u, h := n0, Top, r, h0;
      while n.left != null
        invariant LeftSpine(d) && Plug(d, u) == r && At(Append(d, base), u, node) && Fits(Append(d, base), u, h)
        invariant u.Node? && u.item == n
        decreases u
      {
        ghost var d' := InLeft(d, u.item, u.red, u.right);
        assert Close(d', u.left) == u && Close(Append(d', base), u.left) == u;
        AtUp(Append(d', base), u.left, node);
        n := n.left;
        d, u, h := d', u.left, if u.red then h else h - 1;
      }
    }

    /** `rb_erase` from the label `color` on. */
    method SettleColor(wasBlack: bool, child: RbNode?, parent: RbNode?, ghost c: Ctx<RbNode>, ghost t: Tree<RbNode>,
                       ghost h: int)
      requires At(c, t, node) && child == Ptr(t) && parent == Over(c)
      requires if wasBlack then Short(c, t, h - 1) else Fits(c, t, h)
      modifies `node, `tree, AllItems(c, t)`parent, AllItems(c, t)`left, AllItems(c, t)`right, AllItems(c, t)`red
      ensures Valid() && Inorder(tree) == Whole(c, t) && Items(tree) == AllItems(c, t)
    {
      if wasBlack {
        EraseColor(child, parent, c, t, h - 1);
      } else {
        AtPlug(c, t, node);
        PlugKeeps(c, t);
        PlugFits(c, t, h);
        tree := Plug(c, t);
      }
    }

    /** `rb_erase`, node with at most one child. */
    method EraseOuter(n: RbNode, ghost c: Ctx<RbNode>, ghost t: Tree<RbNode>, ghost h: int)
      requires At(c, t, node) && Fits(c, t, h) && t.Node? && t.item == n && (t.left.Leaf? || t.right.Leaf?)
      modifies `node, `tree, AllItems(c, t)`parent, AllItems(c, t)`left, AllItems(c, t)`right, AllItems(c, t)`red
      ensures Valid() && Removed(Whole(c, t), n, Inorder(tree)) && Items(tree) == AllItems(c, t) - {n}
    {
      var child := if n.left == null then n.right else n.left;
      var parent, black := n.parent, !n.red;
      SpliceShape(c, t, h);
      SpliceContents(c, t);
      SpliceOut(n, child, parent, c, t);
      SettleColor(black, child, parent, c, OnlyChild(t), h);
    }

    /** The successor lies deeper in the right subtree: unhook it and hand it that subtree. */
    method DetachDeep(prev: RbNode, n: RbNode, child: RbNode?, parent: RbNode, ghost c1: Ctx<RbNode>,
                      ghost d: Ctx<RbNode>, ghost u: Tree<RbNode>)
      requires At(Append(d, c1), u, node) && d.InLeft? && c1.InRight? && c1.item == prev
      requires u.Node? && u.left.Leaf? && u.item == n && child == n.right && parent == n.parent
      modifies n`right, AllItems(d, u)`parent, AllItems(d, u)`left
      ensures Detached(prev, n, c1, Plug(d, u.right), node)
    {
      ghost var r' := Plug(d, u.right);
      Family(Append(d, c1), u, node);
      UnhookMin(n, child, parent, Append(d, c1), u);
      AtAppend(d, c1, u.right, node);
      PlugKeeps(d, u.right);
      HandOver(prev, n, c1, r');
    }

    method HandOver(prev: RbNode, n: RbNode, ghost c1: Ctx<RbNode>, ghost r: Tree<RbNode>)
      requires At(c1, r, node) && c1.InRight? && c1.item == prev && n !in AllItems(c1, r)
      modifies n`right, Items(r)`parent
      ensures Detached(prev, n, c1, r, node)
    {
      assert allocated(CtxItems(c1.up)) && allocated(Items(c1.sibling)) && allocated(Items(r));
      n.right := prev.right;
      SetParent(prev.right, n, r, prev);
    }

    /** The successor `n` leaves its old place and takes the one of `prev`.  The link from above `prev` is
        written last; it is a cell of its own, so the order of the writes does not matter. */
    method MoveUp(prev: RbNode, n: RbNode, child: RbNode?, parent0: RbNode?,
                  ghost c: Ctx<RbNode>, ghost l: Tree<RbNode>, ghost ored: bool, ghost d: Ctx<RbNode>,
                  ghost u: Tree<RbNode>)
      returns (parent: RbNode?)
      requires At(Append(d, InRight(c, prev, ored, l)), u, node) && LeftSpine(d) && l.Node?
      requires u.Node? && u.left.Leaf? && u.item == n && child == n.right && parent0 == n.parent
      modifies `node, `tree, AllItems(Append(d, InRight(c, prev, ored, l)), u)`parent
      modifies AllItems(Append(d, InRight(c, prev, ored, l)), u)`left,
        AllItems(Append(d, InRight(c, prev, ored, l)), u)`right, AllItems(Append(d, InRight(c, prev, ored, l)), u)`red
      ensures At(Append(d, InRight(c, n, ored, l)), u.right, node)
      ensures parent == Over(Append(d, InRight(c, n, ored, l)))
    {
      ghost var c1, c2, r' := InRight(c, prev, ored, l), InRight(c, n, ored, l), Plug(d, u.right);
      Family(Append(d, c1), u, node);
      if parent0 == prev {
        DepthOfAppend(d, c1, u, node);
        parent := n;
        assert Linked(r', n);
      } else {
        parent := parent0;
        DetachDeep(prev, n, child, parent, c1, d, u);
      }
      SuccessorDistinct(c, l, prev, ored, d, u);
      Inherit(prev, n, c, l, r');
      AtUp(c2, r', node);
      AtAppend(d, c2, u.right, node);
    }

    /** `rb_erase`, node with two children: its in-order successor moves into its place. */
    method EraseInner(prev: RbNode, ghost c: Ctx<RbNode>, ghost t: Tree<RbNode>, ghost h: int)
      requires At(c, t, node) && Fits(c, t, h) && t.Node? && t.item == prev && t.left.Node? && t.right.Node?
      modifies `node, `tree, AllItems(c, t)`parent, AllItems(c, t)`left, AllItems(c, t)`right, AllItems(c, t)`red
      ensures Valid() && Removed(Whole(c, t), prev, Inorder(tree)) && Items(tree) == AllItems(c, t) - {prev}
    {
      ghost var Node(l, _, ored, r) := t;
      ghost var c1 := InRight(c, prev, ored, l);
      WholeUp(c1, r);
      AtUp(c1, r, node);
      var n;
      ghost var d, u, hu;
      n, d, u, hu := LeftMost(prev.right, c1, r, if ored then h else h - 1);
      InnerRemoval(c, l, prev, ored, d, u, hu);
      var child, parent, black := n.right, n.parent, !n.red;
      parent := MoveUp(prev, n, child, parent, c, l, ored, d, u);
      SettleColor(black, child, parent, Append(d, InRight(c, n, ored, l)), u.right, hu);
    }

    /** `rb_erase` */
    method Erase(n: RbNode)
      requires Valid() && n in Items(tree)
      modifies `node, `tree, Items(tree)`parent, Items(tree)`left, Items(tree)`right, Items(tree)`red
      ensures Valid() && Removed(old(Inorder(tree)), n, Inorder(tree)) && Items(tree) == old(Items(tree)) - {n}
    {
      ghost var c, t, h := Locate(Top, tree, BlackHeight(tree), n, node);
      assert Whole(Top, tree) == Inorder(tree) && AllItems(Top, tree) == Items(tree);
      if n.left != null && n.right != null {
        EraseInner(n, c, t, h);
      } else {
        EraseOuter(n, c, t, h);
      }
    }

    /** `rb_link_node`: a new red leaf under `parent`; `asLeft` tells which of its links `rb_link` is. */
    method LinkNode(n: RbNode, parent: RbNode?, asLeft: bool, ghost c: Ctx<RbNode>)
      requires At(c, Leaf, node) && parent == Over(c) && n !in CtxItems(c)
      requires c.InLeft? ==> asLeft
      requires c.InRight? ==> !asLeft
      modifies this`node, CtxItems(c)`left, CtxItems(c)`right, n`parent, n`left, n`right, n`red
      ensures At(c, Node(Leaf, n, true, Leaf), node)
    {
      assert allocated(CtxItems(c));
      n.parent, n.red := parent, true;
      n.left, n.right := null, null;
      if parent == null {
        node := n;
      } else if asLeft {
        parent.left := n;
      } else {
        parent.right := n;
      }
    }

    /** `rb_link_node` followed by `rb_insert_color` */
    method Insert(n: RbNode, parent: RbNode?, asLeft: bool, ghost c: Ctx<RbNode>)
      requires At(c, Leaf, node) && Fits(c, Leaf, 0) && parent == Over(c) && n !in CtxItems(c)
      requires c.InLeft? ==> asLeft
      requires c.InRight? ==> !asLeft
      modifies `node, `tree, CtxItems(c)`parent, CtxItems(c)`left, CtxItems(c)`right, CtxItems(c)`red, n`parent
      modifies n`left, n`right, n`red
      ensures Valid() && Inorder(tree) == Whole(c, Node(Leaf, n, true, Leaf)) && Items(tree) == CtxItems(c) + {n}
    {
      LinkNode(n, parent, asLeft, c);
      InsertColor(n, c, Node(Leaf, n, true, Leaf), 0);
    }

    /** One step of a search downwards. */
    lemma StepDown(c: Ctx<RbNode>, sub: Tree<RbNode>, h: int, asLeft: bool)
      returns (c': Ctx<RbNode>, sub': Tree<RbNode>, h': int)
      requires At(c, sub, node) && Fits(c, sub, h) && sub.Node?
      ensures At(c', sub', node) && Fits(c', sub', h')
      ensures Whole(c', sub') == Whole(c, sub) && AllItems(c', sub') == AllItems(c, sub)
      ensures c' == if asLeft then InLeft(c, sub.item, sub.red, sub.right) else InRight(c, sub.item, sub.red, sub.left)
      ensures sub' == if asLeft then sub.left else sub.right
      ensures Ptr(sub') == if asLeft then sub.item.left else sub.item.right
    {
      c' := if asLeft then InLeft(c, sub.item, sub.red, sub.right) else InRight(c, sub.item, sub.red, sub.left);
      sub', h' := if asLeft then sub.left else sub.right, if sub.red then h else h - 1;
      assert Close(c', sub') == sub;
      WholeUp(c', sub');
      AtUp(c', sub', node);
    }

    // ---------------------------------------------------------------- in-order traversal

    /** `rb_first` */
    method First() returns (r: RbNode?)
      requires Valid()
      ensures r == if Inorder(tree) == [] then null else Inorder(tree)[0]
    {
      if node == null {
        return null;
      }
      ghost var d, u, h;
      r, d, u, h := LeftMost(node, Top, tree, BlackHeight(tree));
      FirstOfSpine(d, u);
    }

    lemma NotOwnParent(n: RbNode)
      requires Valid() && n in Items(tree)
      ensures n.parent != n
    {
      var c, t, h := Locate(Top, tree, BlackHeight(tree), n, node);
      Family(c, t, node);
    }

    /** `rb_next`; a node that is its own parent is one that was cleared, it is in no tree. */
    method Next(n0: RbNode) returns (r: RbNode?)
      requires Valid() && (n0 in Items(tree) || n0.parent == n0)
      ensures n0 in Items(tree) ==> IsNext(Inorder(tree), n0, r)
      ensures n0.parent == n0 ==> r == null
    {
      if n0 in Items(tree) { NotOwnParent(n0); }
      if n0.parent == n0 {
        return null;
      }
      var n := n0;
      ghost var c, t, h := Locate(Top, tree, BlackHeight(tree), n, node);
      ghost var s, b, a := Inorder(tree), Before(c) + Inorder(t.left), Inorder(t.right) + After(c);
      assert s == b + [n] + a by { SplitAt(c, t); assert Whole(Top, tree) == s; }
      DistinctNoDup(tree);
      if n.right != null {
        AtUp(InRight(c, n, t.red, t.left), t.right, node);
        ghost var d, u, hu;
        r, d, u, hu := LeftMost(n.right, InRight(c, n, t.red, t.left), t.right, if t.red then h else h - 1);
        FirstOfSpine(d, u);
        NextOfSplit(s, b, n0, a, r);
        return;
      }
      Family(c, t, node);
      while n.parent != null && n == n.parent.right
        invariant At(c, t, node) && t.Node? && t.item == n && After(c) == a
        invariant n.parent == Over(c) && (!c.Top? ==> (n == c.item.right <==> c.InRight?))
        decreases Depth(c)
      {
        AtUp(c, t, node);
        c, t := c.up, Close(c, t);
        n := n.parent;
        Family(c, t, node);
      }
      r := n.parent;
      NextOfSplit(s, b, n0, a, r);
    }
  }

  /** `r` is what follows `n` in `s`, null after the last one. */
  ghost predicate IsNext(s: seq<RbNode>, n: RbNode, r: RbNode?) {
    forall i :: 0 <= i < |s| && s[i] == n ==> r == if i + 1 < |s| then s[i + 1] else null
  }

  lemma NextOfSplit(s: seq<RbNode>, b: seq<RbNode>, n: RbNode, a: seq<RbNode>, r: RbNode?)
    requires s == b + [n] + a && NoDup(s) && r == if a == [] then null else a[0]
    ensures IsNext(s, n, r)
  {
    assert s[|b|] == n;
    if a != [] { assert s[|b| + 1] == a[0]; }
  }

  lemma FirstOfSpine(d: Ctx<RbNode>, u: Tree<RbNode>)
    requires LeftSpine(d) && u.Node? && u.left.Leaf?
    ensures Inorder(Plug(d, u)) != [] && Inorder(Plug(d, u))[0] == u.item
  {
    SpineBefore(d);
    PlugKeeps(d, u);
    assert Inorder(u) == [u.item] + Inorder(u.right);
  }

  method InheritBelow(prev: RbNode, n: RbNode, ghost l: Tree<RbNode>, ghost r: Tree<RbNode>)
    requires Distinct(Node(l, n, prev.red, r)) && prev !in Items(Node(l, n, prev.red, r))
    requires l.Node? && prev.left == Ptr(l) && Linked(l, prev)
    requires n.right == Ptr(r) && Linked(r, n)
    modifies Items(l)`parent, n`parent, n`left, n`red
    ensures Linked(Node(l, n, prev.red, r), prev.parent)
    ensures prev.red == old(prev.red) && prev.parent == old(prev.parent)
  {
    assert allocated(Items(l)) && allocated(Items(r));
    n.parent, n.red := prev.parent, prev.red;
    n.left := prev.left;
    SetParent(prev.left, n, l, prev);
  }

  /** The position of a node of the tree. */
  lemma {:induction false} Locate(c: Ctx<RbNode>, t: Tree<RbNode>, h: int, n: RbNode, top: RbNode?)
    returns (c': Ctx<RbNode>, t': Tree<RbNode>, h': int)
    requires At(c, t, top) && Fits(c, t, h) && n in Items(t)
    ensures At(c', t', top) && Fits(c', t', h') && t'.Node? && t'.item == n
    ensures Whole(c', t') == Whole(c, t) && AllItems(c', t') == AllItems(c, t)
    decreases t
  {
    c', t', h' := c, t, h;
    if t.item != n {
      var k := if t.red then h else h - 1;
      c', t' := if n in Items(t.left) then InLeft(c, t.item, t.red, t.right) else InRight(c, t.item, t.red, t.left),
                if n in Items(t.left) then t.left else t.right;
      assert Close(c', t') == t;
      WholeUp(c', t');
      AtUp(c', t', top);
      c', t', h' := Locate(c', t', k, n, top);
    }
  }
}
