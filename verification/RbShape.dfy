/** The shapes a red-black tree goes through while it is rebalanced.

    A `Tree` is a subtree, a `Ctx` is everything around it: the frames from the subtree's parent up to
    the root, each with the sibling subtree.  A pair of the two is a position inside the whole tree. */
module RbShape {

  datatype Tree<T> = Leaf | Node(left: Tree<T>, item: T, red: bool, right: Tree<T>)

  datatype Ctx<T> =
    | Top
    | InLeft(up: Ctx<T>, item: T, red: bool, sibling: Tree<T>)
    | InRight(up: Ctx<T>, item: T, red: bool, sibling: Tree<T>)

  /** The subtree one level up. */
  ghost function Close<T>(c: Ctx<T>, t: Tree<T>): Tree<T>
    requires !c.Top?
  {
    if c.InLeft? then Node(t, c.item, c.red, c.sibling) else Node(c.sibling, c.item, c.red, t)
  }

  ghost function WithSibling<T>(c: Ctx<T>, s: Tree<T>): (r: Ctx<T>)
    requires !c.Top?
    ensures !r.Top? && r.sibling == s && r.up == c.up && r.item == c.item && r.red == c.red && r.InLeft? == c.InLeft?
  {
    if c.InLeft? then InLeft(c.up, c.item, c.red, s) else InRight(c.up, c.item, c.red, s)
  }

  ghost function Plug<T>(c: Ctx<T>, t: Tree<T>): Tree<T> {
    if c.Top? then t else Plug(c.up, Close(c, t))
  }

  ghost function Depth<T>(c: Ctx<T>): nat {
    if c.Top? then 0 else 1 + Depth(c.up)
  }

  // ---------------------------------------------------------------- contents

  ghost function Inorder<T>(t: Tree<T>): seq<T> {
    match t
    case Leaf => []
    case Node(l, x, _, r) => Inorder(l) + [x] + Inorder(r)
  }

  ghost function Before<T>(c: Ctx<T>): seq<T> {
    match c
    case Top => []
    case InLeft(up, _, _, _) => Before(up)
    case InRight(up, x, _, l) => Before(up) + Inorder(l) + [x]
  }

  ghost function After<T>(c: Ctx<T>): seq<T> {
    match c
    case Top => []
    case InLeft(up, x, _, r) => [x] + Inorder(r) + After(up)
    case InRight(up, _, _, _) => After(up)
  }

  /** In-order sequence of the whole tree. */
  ghost function Whole<T>(c: Ctx<T>, t: Tree<T>): seq<T> {
    Before(c) + Inorder(t) + After(c)
  }

  ghost function Items<T>(t: Tree<T>): set<T> {
    match t
    case Leaf => {}
    case Node(l, x, _, r) => Items(l) + {x} + Items(r)
  }

  ghost function CtxItems<T>(c: Ctx<T>): set<T> {
    if c.Top? then {} else CtxItems(c.up) + {c.item} + Items(c.sibling)
  }

  ghost function AllItems<T>(c: Ctx<T>, t: Tree<T>): set<T> {
    CtxItems(c) + Items(t)
  }

  /** Moving the position to the parent does not change the whole tree. */
  lemma WholeUp<T>(c: Ctx<T>, t: Tree<T>)
    requires !c.Top?
    ensures Whole(c.up, Close(c, t)) == Whole(c, t)
    ensures AllItems(c.up, Close(c, t)) == AllItems(c, t)
  {
    var b, m, a := Before(c.up), Inorder(t), After(c.up);
    match c
    case InLeft(_, x, _, r) =>
      assert b + (m + [x] + Inorder(r)) + a == b + m + ([x] + Inorder(r) + a);
    case InRight(_, x, _, l) =>
      assert b + (Inorder(l) + [x] + m) + a == (b + Inorder(l) + [x]) + m + a;
  }

  lemma SplitAt<T>(c: Ctx<T>, t: Tree<T>)
    requires t.Node?
    ensures Whole(c, t) == (Before(c) + Inorder(t.left)) + [t.item] + (Inorder(t.right) + After(c))
  {
    var b, l, r, a := Before(c), Inorder(t.left), Inorder(t.right), After(c);
    assert Inorder(t) == l + [t.item] + r;
    assert b + (l + [t.item] + r) + a == (b + l) + [t.item] + (r + a);
  }

  lemma {:induction false} PlugKeeps<T>(c: Ctx<T>, t: Tree<T>)
    ensures Inorder(Plug(c, t)) == Whole(c, t)
    ensures Items(Plug(c, t)) == AllItems(c, t)
  {
    if c.Top? {
      assert Whole(c, t) == Inorder(t);
    } else {
      PlugKeeps(c.up, Close(c, t));
      WholeUp(c, t);
    }
  }

  lemma {:induction false} PlugIsNode<T>(c: Ctx<T>, t: Tree<T>)
    requires t.Node?
    ensures Plug(c, t).Node?
  {
    if !c.Top? { PlugIsNode(c.up, Close(c, t)); }
  }

  lemma {:induction false} InorderItems<T>(t: Tree<T>)
    ensures forall x :: x in Inorder(t) <==> x in Items(t)
    ensures forall i :: 0 <= i < |Inorder(t)| ==> Inorder(t)[i] in Items(t)
  {
    if t.Node? {
      InorderItems(t.left);
      InorderItems(t.right);
    }
  }

  // ---------------------------------------------------------------- red-black invariants

  ghost predicate Red<T>(t: Tree<T>) { t.Node? && t.red }

  /** Every path from the root of `t` to a leaf meets `h` black nodes, and no red node has a red child. */
  ghost predicate Rb<T>(t: Tree<T>, h: int) {
    match t
    case Leaf => h == 0
    case Node(l, _, red, r) =>
      if red then !Red(l) && !Red(r) && Rb(l, h) && Rb(r, h)
      else Rb(l, h - 1) && Rb(r, h - 1)
  }

  /** A red node may hang here: under a black parent, never at the root. */
  ghost predicate MayHoldRed<T>(c: Ctx<T>) { !c.Top? && !c.red }

  /** A subtree of black height `h` at this position makes all paths of the whole tree equally black, and
      the frames themselves contain no red node under a red one. */
  ghost predicate CtxRb<T>(c: Ctx<T>, h: int) {
    c.Top? ||
    (&& Rb(c.sibling, h)
     && if c.red then !Red(c.sibling) && MayHoldRed(c.up) && CtxRb(c.up, h) else CtxRb(c.up, h + 1))
  }

  /** Subtree and context together form a red-black tree. */
  ghost predicate Fits<T>(c: Ctx<T>, t: Tree<T>, h: int) {
    Rb(t, h) && CtxRb(c, h) && (Red(t) ==> MayHoldRed(c))
  }

  ghost function BlackHeight<T>(t: Tree<T>): nat {
    match t
    case Leaf => 0
    case Node(l, _, red, _) => BlackHeight(l) + if red then 0 else 1
  }

  /** Black root, no red child of a red node, equal black count on every path. */
  ghost predicate IsRedBlack<T>(t: Tree<T>) {
    Fits(Top, t, BlackHeight(t))
  }

  lemma {:induction false} HeightIsDetermined<T>(t: Tree<T>, h: int)
    requires Rb(t, h)
    ensures h == BlackHeight(t)
  {
    if t.Node? {
      HeightIsDetermined(t.left, if t.red then h else h - 1);
    }
  }

  ghost function HeightAbove<T>(c: Ctx<T>, h: int): int
    requires !c.Top?
  {
    if c.red then h else h + 1
  }

  lemma {:induction false} PlugFits<T>(c: Ctx<T>, t: Tree<T>, h: int)
    requires Fits(c, t, h)
    ensures IsRedBlack(Plug(c, t))
  {
    if c.Top? {
      HeightIsDetermined(t, h);
    } else {
      PlugFits(c.up, Close(c, t), HeightAbove(c, h));
    }
  }

  // ---------------------------------------------------------------- no node occurs twice

  ghost predicate Distinct<T>(t: Tree<T>) {
    match t
    case Leaf => true
    case Node(l, x, _, r) =>
      x !in Items(l) && x !in Items(r) && Items(l) !! Items(r) && Distinct(l) && Distinct(r)
  }

  ghost predicate CtxDistinct<T>(c: Ctx<T>) {
    c.Top? ||
    (&& c.item !in Items(c.sibling) && c.item !in CtxItems(c.up) && Items(c.sibling) !! CtxItems(c.up)
     && Distinct(c.sibling) && CtxDistinct(c.up))
  }

  ghost predicate AllDistinct<T>(c: Ctx<T>, t: Tree<T>) {
    Distinct(t) && CtxDistinct(c) && Items(t) !! CtxItems(c)
  }

  lemma DistinctUp<T>(c: Ctx<T>, t: Tree<T>)
    requires !c.Top?
    ensures AllDistinct(c.up, Close(c, t)) <==> AllDistinct(c, t)
  {
  }

  ghost predicate NoDup<T>(s: seq<T>) {
    forall i, j :: 0 <= i < j < |s| ==> s[i] != s[j]
  }

  lemma NoDupConcat<T>(a: seq<T>, x: T, b: seq<T>)
    requires NoDup(a) && NoDup(b) && x !in a && x !in b
    requires forall i, j :: 0 <= i < |a| && 0 <= j < |b| ==> a[i] != b[j]
    ensures NoDup(a + [x] + b)
  {
    var s := a + [x] + b;
    forall i, j | 0 <= i < j < |s| ensures s[i] != s[j] {
      if i < |a| < j { assert s[j] == b[j - |a| - 1]; }
    }
  }

  /** Distinct nodes: no node occurs twice in the in-order sequence. */
  lemma {:induction false} DistinctNoDup<T>(t: Tree<T>)
    requires Distinct(t)
    ensures NoDup(Inorder(t))
  {
    if t.Node? {
      DistinctNoDup(t.left);
      DistinctNoDup(t.right);
      InorderItems(t.left);
      InorderItems(t.right);
      var a, b := Inorder(t.left), Inorder(t.right);
      forall i, j | 0 <= i < |a| && 0 <= j < |b| ensures a[i] != b[j] {
        assert a[i] in Items(t.left) && b[j] in Items(t.right);
      }
      NoDupConcat(a, t.item, b);
    }
  }

  /** The same subtree with its root painted. */
  ghost function Painted<T>(t: Tree<T>, red: bool): (r: Tree<T>)
    requires t.Node?
    ensures Items(r) == Items(t) && Inorder(r) == Inorder(t)
    ensures Distinct(t) ==> Distinct(r)
  {
    Node(t.left, t.item, red, t.right)
  }

  // ---------------------------------------------------------------- rotations

  ghost function RotatedLeft<T>(t: Tree<T>): (r: Tree<T>)
    requires t.Node? && t.right.Node?
  {
    Node(Node(t.left, t.item, t.red, t.right.left), t.right.item, t.right.red, t.right.right)
  }

  ghost function RotatedRight<T>(t: Tree<T>): (r: Tree<T>)
    requires t.Node? && t.left.Node?
  {
    Node(t.left.left, t.left.item, t.left.red, Node(t.left.right, t.item, t.red, t.right))
  }

  lemma Reassociate<T>(a: seq<T>, x: T, b: seq<T>, y: T, d: seq<T>)
    ensures a + [x] + (b + [y] + d) == (a + [x] + b) + [y] + d
  {
  }

  lemma LeftRotationKeeps<T>(t: Tree<T>)
    requires t.Node? && t.right.Node?
    ensures Inorder(RotatedLeft(t)) == Inorder(t)
    ensures Items(RotatedLeft(t)) == Items(t)
  {
    var Node(a, x, xr, Node(b, y, yr, d)) := t;
    Reassociate(Inorder(a), x, Inorder(b), y, Inorder(d));
    assert Inorder(Node(b, y, yr, d)) == Inorder(b) + [y] + Inorder(d);
    assert Inorder(Node(a, x, xr, b)) == Inorder(a) + [x] + Inorder(b);
  }

  lemma RightRotationKeeps<T>(t: Tree<T>)
    requires t.Node? && t.left.Node?
    ensures Inorder(RotatedRight(t)) == Inorder(t)
    ensures Items(RotatedRight(t)) == Items(t)
  {
    var Node(Node(a, x, xr, b), y, yr, d) := t;
    Reassociate(Inorder(a), x, Inorder(b), y, Inorder(d));
    assert Inorder(Node(b, y, yr, d)) == Inorder(b) + [y] + Inorder(d);
    assert Inorder(Node(a, x, xr, b)) == Inorder(a) + [x] + Inorder(b);
  }

  lemma LeftRotationItems<T>(t: Tree<T>)
    requires t.Node? && t.right.Node? && Distinct(t)
    ensures Items(RotatedLeft(t)) == Items(t)
    ensures Distinct(RotatedLeft(t))
  {
    var Node(a, x, xr, Node(b, y, yr, d)) := t;
    assert Distinct(t.right) && Items(t.right) == Items(b) + {y} + Items(d);
    assert Items(Node(a, x, xr, b)) == Items(a) + {x} + Items(b);
  }

  lemma RightRotationItems<T>(t: Tree<T>)
    requires t.Node? && t.left.Node? && Distinct(t)
    ensures Items(RotatedRight(t)) == Items(t)
    ensures Distinct(RotatedRight(t))
  {
    var Node(Node(a, x, xr, b), y, yr, d) := t;
    assert Distinct(t.left) && Items(t.left) == Items(a) + {x} + Items(b);
    assert Items(Node(b, y, yr, d)) == Items(b) + {y} + Items(d);
  }
}
