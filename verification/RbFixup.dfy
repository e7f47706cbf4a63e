/** The tree values that the fix-up loops pass through, and what each step keeps. */
module RbFixup {
  import opened RbShape
  import opened RbLinks
  import opened RbBalance

  lemma ElementsTop(t: Tree)
    ensures Elements(Top, t) == Inorder(t)
  {
  }

  lemma ElementsUp(c: Ctx, t: Tree)
    requires c != Top
    ensures Elements(c, t) == Elements(c.up, Fill(c, t))
  {
    match c
    case InL(n, col, r, up) => Reassociate(Before(up), Inorder(t), [n], Inorder(r), After(up));
    case InR(l, n, col, up) => Reassociate(Before(up), Inorder(l), [n], Inorder(t), After(up));
  }

  lemma Associate(a: seq<Node>, b: seq<Node>, c: seq<Node>, d: seq<Node>, e: seq<Node>)
    ensures a + b + (c + d + e) == (a + b + c) + d + e
  {
  }

  lemma RotationKeepsOrder(t: Tree)
    ensures t.Br? && t.right.Br? ==> Inorder(RotatedLeft(t)) == Inorder(t)
    ensures t.Br? && t.left.Br? ==> Inorder(RotatedRight(t)) == Inorder(t)
  {
    if t.Br? && t.right.Br? {
      var u := t.right;
      Associate(Inorder(t.left), [t.node], Inorder(u.left), [u.node], Inorder(u.right));
    }
    if t.Br? && t.left.Br? {
      var u := t.left;
      Associate(Inorder(u.left), [u.node], Inorder(u.right), [t.node], Inorder(t.right));
    }
  }

  lemma PaintedBlack(t: Tree, h: int)
    requires IsRed(t) && Bal(t, h)
    ensures Bal(Painted(t, Black), h + 1)
    ensures NoRedRed(t) ==> NoRedRed(Painted(t, Black))
    ensures Inorder(Painted(t, Black)) == Inorder(t)
  {
  }

  /** Insertion: the red node in the hole may have a red parent; everything else is in order. */
  ghost predicate InsertInv(c: Ctx, t: Tree, h: int) {
    && IsRed(t) && NoRedRed(t) && Bal(t, h)
    && CtxBal(c, h) && CtxNoRedRed(c) && TopBlack(c)
  }

  lemma InsertDone(c: Ctx, t: Tree, h: int)
    requires InsertInv(c, t, h) && !RedAbove(c)
    ensures RedBlack(Plug(c, t)) || (c == Top && RedBlack(Painted(t, Black)))
  {
    if c == Top {
      BalHeight(t.left, h);
      assert Bal(Painted(t, Black), h + 1);
      BalHeight(Painted(t, Black), h + 1);
    } else {
      Closed(c, t, h);
    }
  }

  /** Red uncle: the two levels above swap colours and the red node moves up. */
  function UncleRecolored(c: Ctx, t: Tree): Tree
    requires c != Top && c.up != Top
  {
    var P := Painted(Fill(c, t), Black);
    match c.up
    case InL(g, _, u, _) => Br(P, g, Red, Painted(u, Black))
    case InR(u, g, _, _) => Br(Painted(u, Black), g, Red, P)
  }

  lemma UncleRed(c: Ctx, t: Tree, h: int)
    requires InsertInv(c, t, h) && RedAbove(c)
    requires c.up != Top && IsRed(if c.up.InL? then c.up.right else c.up.left)
    ensures InsertInv(c.up.up, UncleRecolored(c, t), h + 1)
    ensures Elements(c.up.up, UncleRecolored(c, t)) == Elements(c, t)
  {
    ElementsUp(c, t);
    ElementsUp(c.up, Fill(c, t));
    assert CtxBal(c.up, h) && CtxNoRedRed(c.up) && TopBlack(c.up) && Bal(Fill(c, t), h);
    PaintedBlack(if c.up.InL? then c.up.right else c.up.left, h);
    PaintedBlack(Fill(c, t), h);
  }

  /** A red parent is never the root: there is a grandparent, and it is black. */
  lemma GrandparentBlack(c: Ctx, t: Tree, h: int)
    requires InsertInv(c, t, h) && RedAbove(c)
    ensures c.up != Top && c.up.color.Black?
  {
  }

  /** Black uncle: an inner grandchild is first rotated outwards. */
  function Outer(c: Ctx, t: Tree): Tree
    requires c != Top && t.Br? && c.up != Top
  {
    var P := Fill(c, t);
    if c.up.InL? && c.InR? then RotatedLeft(P)
    else if c.up.InR? && c.InL? then RotatedRight(P)
    else P
  }

  /** Then the parent takes the grandparent's place; the red node below it stays in focus. */
  function UncleRotated(c: Ctx, t: Tree): (Ctx, Tree)
    requires c != Top && t.Br? && c.up != Top
  {
    var P := Outer(c, t);
    match c.up
    case InL(g, _, u, up) => (InL(P.node, Black, Br(P.right, g, Red, u), up), P.left)
    case InR(u, g, _, up) => (InR(Br(u, g, Red, P.left), P.node, Black, up), P.right)
  }

  lemma UncleBlackOrder(c: Ctx, t: Tree)
    requires c != Top && t.Br? && c.up != Top
    ensures var (d, r) := UncleRotated(c, t); Elements(d, r) == Elements(c, t)
  {
    var (d, r) := UncleRotated(c, t);
    var P, g := Outer(c, t), c.up;
    RotationKeepsOrder(Fill(c, t));
    ElementsUp(c, t);
    ElementsUp(g, P);
    RotationKeepsOrder(Fill(g, P));
    ElementsUp(d, r);
    assert Inorder(Fill(d, r)) == Inorder(Fill(g, P));
  }

  lemma OuterFits(c: Ctx, t: Tree, h: int)
    requires InsertInv(c, t, h) && RedAbove(c) && c.up != Top
    ensures var P := Outer(c, t);
      && P.color.Red? && Bal(P.left, h) && Bal(P.right, h) && NoRedRed(P.left) && NoRedRed(P.right)
      && (c.up.InL? ==> IsRed(P.left) && !IsRed(P.right))
      && (c.up.InR? ==> IsRed(P.right) && !IsRed(P.left))
  {
    assert Bal(t.left, h) && Bal(t.right, h);
  }

  lemma UncleBlack(c: Ctx, t: Tree, h: int)
    requires InsertInv(c, t, h) && RedAbove(c)
    requires c.up != Top && !IsRed(if c.up.InL? then c.up.right else c.up.left)
    ensures var (d, r) := UncleRotated(c, t); InsertInv(d, r, h)
    ensures Outer(c, t).color.Red?
  {
    var (d, r) := UncleRotated(c, t);
    var g := c.up;
    assert CtxBal(g, h) && CtxNoRedRed(g) && TopBlack(g) && g.color.Black?;
    OuterFits(c, t, h);
  }

  /** Removal: the tree in the hole is one black node short, and its root may be wrongly red. */
  ghost predicate RemoveInv(c: Ctx, t: Tree, h: int) {
    && NoRedRed(Painted(t, Black)) && Bal(t, h)
    && CtxBal(c, h + 1) && CtxNoRedRed(c) && TopBlack(c)
  }

  lemma RemoveDone(c: Ctx, t: Tree, h: int)
    requires RemoveInv(c, t, h) && (IsRed(t) || c == Top)
    ensures RedBlack(Plug(c, Painted(t, Black)))
    ensures Elements(c, Painted(t, Black)) == Elements(c, t)
  {
    if IsRed(t) {
      assert Bal(Painted(t, Black), h + 1);
      Closed(c, Painted(t, Black), h + 1);
    } else {
      BalHeight(t, h);
    }
  }

  function Sibling(c: Ctx): Tree
    requires c != Top
  {
    if c.InL? then c.right else c.left
  }

  /** There always is a sibling to look at. */
  lemma SiblingExists(c: Ctx, t: Tree, h: int)
    requires RemoveInv(c, t, h) && c != Top
    ensures Sibling(c).Br?
    ensures IsRed(Sibling(c)) ==> Sibling(c).left.Br? && Sibling(c).right.Br? && c.color.Black?
  {
    BalHeight(t, h);
    var s := Sibling(c);
    assert Bal(s, h + 1);
    if IsRed(s) {
      assert Bal(s.left, h + 1) && Bal(s.right, h + 1);
    }
  }

  /** Red sibling: rotated above the parent, it leaves a black one beside the short tree. */
  function RedSiblingMoved(c: Ctx): Ctx
    requires c != Top && Sibling(c).Br?
  {
    match c
    case InL(p, _, s, up) => InL(p, Red, s.left, InL(s.node, Black, s.right, up))
    case InR(s, p, _, up) => InR(s.right, p, Red, InR(s.left, s.node, Black, up))
  }

  lemma RedSibling(c: Ctx, t: Tree, h: int)
    requires RemoveInv(c, t, h) && c != Top && IsRed(Sibling(c))
    ensures RemoveInv(RedSiblingMoved(c), t, h) && !IsRed(Sibling(RedSiblingMoved(c)))
    ensures Elements(RedSiblingMoved(c), t) == Elements(c, t)
  {
    SiblingExists(c, t, h);
    var s, d := Sibling(c), RedSiblingMoved(c);
    assert Bal(s.left, h + 1) && Bal(s.right, h + 1);
    assert CtxBal(c.up, h + 2);
    ElementsUp(c, t);
    ElementsUp(d, t);
    ElementsUp(d.up, Fill(d, t));
    RotationKeepsOrder(Fill(c, t));
  }

  /** Black sibling without red children: it turns red and the shortage moves up. */
  function ShortageUp(c: Ctx, t: Tree): Tree
    requires c != Top && Sibling(c).Br?
  {
    match c
    case InL(p, col, s, _) => Br(t, p, col, s.(color := Red))
    case InR(s, p, col, _) => Br(s.(color := Red), p, col, t)
  }

  lemma BlackChildren(c: Ctx, t: Tree, h: int)
    requires RemoveInv(c, t, h) && c != Top && !IsRed(t) && Sibling(c).Br? && !IsRed(Sibling(c))
    requires !IsRed(Sibling(c).left) && !IsRed(Sibling(c).right)
    ensures RemoveInv(c.up, ShortageUp(c, t), h + One(c.color))
    ensures Elements(c.up, ShortageUp(c, t)) == Elements(c, t)
  {
    var s := Sibling(c);
    assert Bal(s, h + 1) && Bal(s.left, h) && Bal(s.right, h);
    assert Bal(s.(color := Red), h) && NoRedRed(s.(color := Red));
    assert Inorder(s.(color := Red)) == Inorder(s);
    ElementsUp(c, t);
  }

  /** Black sibling whose red child is on the inside: that child is first rotated outwards. */
  function TurnedTree(s: Tree, leftward: bool): Tree
    requires s.Br?
  {
    if leftward then
      if IsRed(s.left) && !IsRed(s.right)
      then Br(s.left.left, s.left.node, Black, Br(s.left.right, s.node, Red, s.right)) else s
    else
      if IsRed(s.right) && !IsRed(s.left)
      then Br(Br(s.left, s.node, Red, s.right.left), s.right.node, Black, s.right.right) else s
  }

  function SiblingTurned(c: Ctx): Ctx
    requires c != Top && Sibling(c).Br?
  {
    match c
    case InL(p, col, s, up) => InL(p, col, TurnedTree(s, true), up)
    case InR(s, p, col, up) => InR(TurnedTree(s, false), p, col, up)
  }

  lemma TurnedFits(s: Tree, leftward: bool, h: int)
    requires s.Br? && !IsRed(s) && Bal(s, h + 1) && NoRedRed(s)
    requires IsRed(s.left) || IsRed(s.right)
    ensures var r := TurnedTree(s, leftward);
      && r.Br? && !IsRed(r) && Bal(r, h + 1) && NoRedRed(r) && Inorder(r) == Inorder(s)
      && (if leftward then IsRed(r.right) else IsRed(r.left))
  {
    assert Bal(s.left, h) && Bal(s.right, h);
    assert IsRed(s.left) ==> Bal(s.left.left, h) && Bal(s.left.right, h);
    assert IsRed(s.right) ==> Bal(s.right.left, h) && Bal(s.right.right, h);
    RotationKeepsOrder(s);
    var r := TurnedTree(s, leftward);
    if r != s {
      assert Inorder(r) == Inorder(if leftward then RotatedRight(s) else RotatedLeft(s));
    }
  }

  lemma Turned(c: Ctx, t: Tree, h: int)
    requires RemoveInv(c, t, h) && c != Top && Sibling(c).Br? && !IsRed(Sibling(c))
    requires IsRed(Sibling(c).left) || IsRed(Sibling(c).right)
    ensures var d := SiblingTurned(c);
      && RemoveInv(d, t, h) && Elements(d, t) == Elements(c, t)
      && d != Top && Sibling(d).Br? && !IsRed(Sibling(d))
      && (if d.InL? then IsRed(Sibling(d).right) else IsRed(Sibling(d).left))
  {
    TurnedFits(Sibling(c), c.InL?, h);
  }

  /** Black sibling with a red outer child: it takes the parent's place and colour, and all is repaired. */
  function Repaired(c: Ctx, t: Tree): Tree
    requires c != Top && Sibling(c).Br?
  {
    match c
    case InL(p, col, s, _) => Br(Br(t, p, Black, s.left), s.node, col, Painted(s.right, Black))
    case InR(s, p, col, _) => Br(Painted(s.left, Black), s.node, col, Br(s.right, p, Black, t))
  }

  lemma RedOuterChild(c: Ctx, t: Tree, h: int)
    requires RemoveInv(c, t, h) && c != Top && !IsRed(t) && Sibling(c).Br? && !IsRed(Sibling(c))
    requires if c.InL? then IsRed(Sibling(c).right) else IsRed(Sibling(c).left)
    ensures RedBlack(Plug(c.up, Repaired(c, t)))
    ensures Elements(c.up, Repaired(c, t)) == Elements(c, t)
  {
    var s, r := Sibling(c), Repaired(c, t);
    assert Bal(s, h + 1) && Bal(s.left, h) && Bal(s.right, h);
    PaintedBlack(if c.InL? then s.right else s.left, h);
    assert CtxBal(c.up, h + 1 + One(c.color));
    assert c.up == Top ==> c.color.Black?;
    assert TopBlack(c.up);
    Closed(c.up, r, h + 1 + One(c.color));
    ElementsUp(c, t);
    RotationKeepsOrder(Fill(c, t));
    assert Inorder(r) == Inorder(if c.InL? then RotatedLeft(Fill(c, t)) else RotatedRight(Fill(c, t)));
  }

  lemma Settled(c: Ctx, r: Tree)
    requires RedBlack(Plug(c, r))
    ensures RemoveInv(Top, Plug(c, r), BlackHeight(Plug(c, r)))
    ensures Elements(Top, Plug(c, r)) == Elements(c, r)
  {
    var w := Plug(c, r);
    PlugInorder(c, r);
    assert Painted(w, Black) == w;
    assert Elements(Top, w) == Inorder(w);
  }
}
