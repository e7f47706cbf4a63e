/** Colours and black heights of tree values and contexts, and the balance they give. */
module RbBalance {
  import opened Arithmetic
  import opened RbShape

  predicate IsRed(t: Tree) {
    t.Br? && t.color.Red?
  }

  predicate RedAbove(c: Ctx) {
    c != Top && c.color.Red?
  }

  function One(col: Color): nat {
    if col.Black? then 1 else 0
  }

  /** Every path to a leaf meets `h` black nodes. */
  ghost predicate Bal(t: Tree, h: int) {
    if t.Leaf? then h == 0
    else Bal(t.left, h - One(t.color)) && Bal(t.right, h - One(t.color))
  }

  /** A tree of black height `h` in the hole makes the whole balanced. */
  ghost predicate CtxBal(c: Ctx, h: int) {
    match c
    case Top => true
    case InL(_, col, r, up) => Bal(r, h) && CtxBal(up, h + One(col))
    case InR(l, _, col, up) => Bal(l, h) && CtxBal(up, h + One(col))
  }

  /** No red node has a red child. */
  ghost predicate NoRedRed(t: Tree) {
    t.Br? ==>
      && (t.color.Red? ==> !IsRed(t.left) && !IsRed(t.right))
      && NoRedRed(t.left) && NoRedRed(t.right)
  }

  /** The same for a context, not counting the edge into the hole. */
  ghost predicate CtxNoRedRed(c: Ctx) {
    match c
    case Top => true
    case InL(_, col, r, up) =>
      NoRedRed(r) && CtxNoRedRed(up) && (col.Red? ==> !IsRed(r) && !RedAbove(up))
    case InR(l, _, col, up) =>
      NoRedRed(l) && CtxNoRedRed(up) && (col.Red? ==> !IsRed(l) && !RedAbove(up))
  }

  /** The topmost node of the context, if there is one, is black. */
  predicate TopBlack(c: Ctx) {
    c.Top? || (if c.up.Top? then c.color.Black? else TopBlack(c.up))
  }

  function BlackHeight(t: Tree): nat {
    if t.Leaf? then 0 else BlackHeight(t.left) + One(t.color)
  }

  /** The conditions of a red-black tree. */
  ghost predicate RedBlack(t: Tree) {
    !IsRed(t) && NoRedRed(t) && Bal(t, BlackHeight(t))
  }

  lemma {:induction false} BalHeight(t: Tree, h: int)
    requires Bal(t, h)
    ensures h == BlackHeight(t)
  {
    if t.Br? { BalHeight(t.left, h - One(t.color)); }
  }

  function Depth(c: Ctx): nat {
    if c.Top? then 0 else 1 + Depth(c.up)
  }

  function Height(t: Tree): nat {
    if t.Leaf? then 0
    else 1 + if Height(t.left) < Height(t.right) then Height(t.right) else Height(t.left)
  }

  function Painted(t: Tree, col: Color): Tree {
    if t.Leaf? then t else t.(color := col)
  }

  /** All elements of the tree seen from the hole, from left to right. */
  ghost function Elements(c: Ctx, t: Tree): seq<Node> {
    Before(c) + Inorder(t) + After(c)
  }

  /** A red-black tree comes out when the hole is filled with a fitting tree. */
  lemma {:induction false} Closed(c: Ctx, t: Tree, h: int)
    requires NoRedRed(t) && Bal(t, h) && CtxBal(c, h) && CtxNoRedRed(c)
    requires IsRed(t) ==> c != Top && !RedAbove(c)
    requires TopBlack(c)
    ensures RedBlack(Plug(c, t))
  {
    match c
    case Top => BalHeight(t, h);
    case InL(n, col, r, up) =>
      Closed(up, Br(t, n, col, r), h + One(col));
    case InR(l, n, col, up) =>
      Closed(up, Br(l, n, col, t), h + One(col));
  }

  /** Opposite direction: every subtree of a red-black tree fits its context. */
  lemma {:induction false} Opened(c: Ctx, t: Tree)
    requires RedBlack(Plug(c, t))
    ensures NoRedRed(t) && Bal(t, BlackHeight(t)) && CtxBal(c, BlackHeight(t)) && CtxNoRedRed(c)
    ensures IsRed(t) ==> c != Top && !RedAbove(c)
    ensures TopBlack(c)
  {
    match c
    case Top =>
    case InL(n, col, r, up) =>
      Opened(up, Br(t, n, col, r));
      BalHeight(t, BlackHeight(t) + One(col) - One(col));
    case InR(l, n, col, up) =>
      Opened(up, Br(l, n, col, t));
      BalHeight(l, BlackHeight(l) + One(col) - One(col));
      BalHeight(t, BlackHeight(l));
  }

  lemma {:induction false} SizeFromBlackHeight(t: Tree, h: nat)
    requires Bal(t, h)
    ensures Pow2(h) <= |Inorder(t)| + 1
  {
    if t.Br? {
      var k := h - One(t.color);
      BalHeight(t.left, k);
      SizeFromBlackHeight(t.left, k);
      SizeFromBlackHeight(t.right, k);
      assert h == k || h == k + 1;
    }
  }

  lemma {:induction false} HeightFromBlackHeight(t: Tree, h: nat)
    requires Bal(t, h) && NoRedRed(t)
    ensures Height(t) <= 2 * h + (if IsRed(t) then 1 else 0)
  {
    if t.Br? {
      var k := h - One(t.color);
      BalHeight(t.left, k);
      HeightFromBlackHeight(t.left, k);
      HeightFromBlackHeight(t.right, k);
    }
  }

  /** The bound promised by the header: the height is at most 2 lg (n + 1). */
  lemma HeightBound(t: Tree)
    requires RedBlack(t)
    ensures Pow2(Height(t)) <= (|Inorder(t)| + 1) * (|Inorder(t)| + 1)
  {
    var h := BlackHeight(t);
    SizeFromBlackHeight(t, h);
    HeightFromBlackHeight(t, h);
    Pow2Mono(Height(t), 2 * h);
    Pow2Sum(h, h);
    SquareMono(Pow2(h), |Inorder(t)| + 1);
  }
}
