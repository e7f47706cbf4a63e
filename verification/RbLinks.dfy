/** What each change of link fields does to the tree value they stand for. */
module RbLinks {
  import opened RbShape

  function RotatedLeft(t: Tree): Tree
    requires t.Br? && t.right.Br?
  {
    Br(Br(t.left, t.node, t.color, t.right.left), t.right.node, t.right.color, t.right.right)
  }

  function RotatedRight(t: Tree): Tree
    requires t.Br? && t.left.Br?
  {
    Br(t.left.left, t.left.node, t.left.color, Br(t.left.right, t.node, t.color, t.right))
  }

  /** Field values after the parent link of `n`, or the link from `p` down to `from`, is redirected. */
  ghost function WithParent(m: Links, n: Node?, p: Node?): Links
    requires n != null ==> n in m
  {
    if n == null then m else m[n := m[n].(parent := p)]
  }

  ghost function WithChild(m: Links, p: Node?, from: Node, to: Node?): Links
    requires p != null ==> p in m
  {
    if p == null then m
    else if m[p].left == from then m[p := m[p].(left := to)]
    else m[p := m[p].(right := to)]
  }

  /** What a rotation of `x` over its child `y` touches: the moved child `b` and the node `p` above. */
  ghost predicate Around(m: Links, x: Node, y: Node, b: Node?, p: Node?) {
    && x in m && y in m && x != y && m[x].parent == p
    && (b != null ==> b in m && b != x && b != y && b != p)
    && (p != null ==> p in m && p != x && p != y)
  }

  /** `m'` is `m` with `y` in the place of its parent `x`, and `x` a child of `y` on the side `leftward`. */
  ghost predicate Rotated(m: Links, m': Links, x: Node, y: Node, b: Node?, p: Node?, leftward: bool)
    requires Around(m, x, y, b, p)
  {
    && m'.Keys == m.Keys
    && (forall n :: n in m && n != x && n != y && n != b && n != p ==> m'[n] == m[n])
    && m'[x] == (if leftward then m[x].(right := b, parent := y) else m[x].(left := b, parent := y))
    && m'[y] == (if leftward then m[y].(left := x, parent := p) else m[y].(right := x, parent := p))
    && (b != null ==> m'[b] == m[b].(parent := x))
    && (p != null ==> m'[p] == if m[p].left == x then m[p].(left := y) else m[p].(right := y))
  }

  lemma RotatedByWrites(m: Links, m1: Links, m2: Links, m3: Links, m4: Links, m5: Links, m6: Links,
                        x: Node, y: Node, b: Node?, p: Node?, leftward: bool)
    requires Around(m, x, y, b, p)
    requires m1 == m[x := if leftward then m[x].(right := b) else m[x].(left := b)]
    requires m2 == WithParent(m1, b, x)
    requires m3 == m2[y := m2[y].(parent := p)]
    requires m4 == WithChild(m3, p, x, y)
    requires m5 == m4[y := if leftward then m4[y].(left := x) else m4[y].(right := x)]
    requires m6 == m5[x := m5[x].(parent := y)]
    ensures Rotated(m, m6, x, y, b, p, leftward)
  {
    assert m2[y] == m[y] && m2[x] == m1[x] && (p != null ==> m2[p] == m[p]);
    assert m4[y] == m[y].(parent := p) && m4[x] == m2[x];
    assert m6[x] == m1[x].(parent := y);
    assert m6[y] == m5[y];
    assert p != null ==> m6[p] == m4[p];
    assert b != null ==> m6[b] == m2[b];
    forall n | n in m && n != x && n != y && n != b && n != p
      ensures m6[n] == m[n]
    {
      assert m2[n] == m[n];
      assert m4[n] == m[n];
    }
  }

  lemma AroundRight(m: Links, root: Node?, c: Ctx, t: Tree)
    requires Linked(m, root, c, t) && t.Br? && t.right.Br?
    ensures Around(m, t.node, t.right.node, RootOf(t.right.left), ParentOf(c))
    ensures m[t.node].right == t.right.node && m[t.right.node].left == RootOf(t.right.left)
  {
    var u := t.right;
    assert Shape(m, u, t.node) && Distinct(u);
    assert Nodes(t) == Nodes(t.left) + {t.node} + Nodes(u);
    assert Nodes(u) == Nodes(u.left) + {u.node} + Nodes(u.right);
    assert Shape(m, u.left, u.node);
    assert u.left.Br? ==> u.left.node in Nodes(u.left);
    assert c != Top ==> c.node in CtxNodes(c);
  }

  lemma RotateLeftLinks(m: Links, m': Links, root: Node?, root': Node?, c: Ctx, t: Tree)
    requires Linked(m, root, c, t) && t.Br? && t.right.Br?
    requires Around(m, t.node, t.right.node, RootOf(t.right.left), ParentOf(c))
    requires Rotated(m, m', t.node, t.right.node, RootOf(t.right.left), ParentOf(c), true)
    requires root' == if ParentOf(c) == null then t.right.node else root
    ensures Linked(m', root', c, RotatedLeft(t))
  {
    var x, u, y := t.node, t.right, t.right.node;
    var A, B, C := t.left, u.left, u.right;
    assert Nodes(t) == Nodes(A) + {x} + Nodes(u);
    assert Nodes(u) == Nodes(B) + {y} + Nodes(C);
    assert Distinct(u) && Shape(m, u, x);
    assert B.Br? ==> B.node in Nodes(B);
    assert c != Top ==> c.node in CtxNodes(c);
    assert c.InR? && c.left.Br? ==> c.left.node in Nodes(c.left);
    ShapeFrame(m, m', A, x);
    ShapeFrame(m, m', C, y);
    Adopted(m, m', B, y, x);
    Refilled(m, m', c, x, y);
    var l := Br(A, x, t.color, B);
    assert Nodes(l) == Nodes(A) + {x} + Nodes(B);
    assert Distinct(l) && Shape(m', l, y);
    assert RotatedLeft(t) == Br(l, y, u.color, C);
  }

  lemma AroundLeft(m: Links, root: Node?, c: Ctx, t: Tree)
    requires Linked(m, root, c, t) && t.Br? && t.left.Br?
    ensures Around(m, t.node, t.left.node, RootOf(t.left.right), ParentOf(c))
    ensures m[t.node].left == t.left.node && m[t.left.node].right == RootOf(t.left.right)
  {
    var u := t.left;
    assert Shape(m, u, t.node) && Distinct(u);
    assert Nodes(t) == Nodes(u) + {t.node} + Nodes(t.right);
    assert Nodes(u) == Nodes(u.left) + {u.node} + Nodes(u.right);
    assert Shape(m, u.right, u.node);
    assert u.right.Br? ==> u.right.node in Nodes(u.right);
    assert c != Top ==> c.node in CtxNodes(c);
  }

  lemma RotateRightLinks(m: Links, m': Links, root: Node?, root': Node?, c: Ctx, t: Tree)
    requires Linked(m, root, c, t) && t.Br? && t.left.Br?
    requires Around(m, t.node, t.left.node, RootOf(t.left.right), ParentOf(c))
    requires Rotated(m, m', t.node, t.left.node, RootOf(t.left.right), ParentOf(c), false)
    requires root' == if ParentOf(c) == null then t.left.node else root
    ensures Linked(m', root', c, RotatedRight(t))
  {
    var x, u, y := t.node, t.left, t.left.node;
    var A, B, C := u.left, u.right, t.right;
    assert Nodes(t) == Nodes(u) + {x} + Nodes(C);
    assert Nodes(u) == Nodes(A) + {y} + Nodes(B);
    assert Distinct(u) && Shape(m, u, x);
    assert B.Br? ==> B.node in Nodes(B);
    assert c != Top ==> c.node in CtxNodes(c);
    assert c.InR? && c.left.Br? ==> c.left.node in Nodes(c.left);
    ShapeFrame(m, m', A, y);
    ShapeFrame(m, m', C, x);
    Adopted(m, m', B, y, x);
    Refilled(m, m', c, x, y);
    var r := Br(B, x, t.color, C);
    assert Nodes(r) == Nodes(B) + {x} + Nodes(C);
    assert Distinct(r) && Shape(m', r, y);
    assert RotatedRight(t) == Br(A, y, u.color, r);
  }

  /** One node of the context is put back on the tree in the hole. */
  function Fill(c: Ctx, t: Tree): Tree
    requires c != Top
  {
    match c
    case InL(n, col, r, _) => Br(t, n, col, r)
    case InR(l, n, col, _) => Br(l, n, col, t)
  }

  lemma Up(m: Links, root: Node?, c: Ctx, t: Tree)
    requires c != Top
    ensures Linked(m, root, c, t) <==> Linked(m, root, c.up, Fill(c, t))
  {
    match c
    case InL(n, col, r, up) => UpLeft(m, root, n, col, r, up, t);
    case InR(l, n, col, up) => UpRight(m, root, l, n, col, up, t);
  }

  lemma {:induction false} Refocus(m: Links, root: Node?, p: Ctx, c: Ctx, t: Tree)
    ensures Linked(m, root, Append(p, c), t) <==> Linked(m, root, c, Plug(p, t))
  {
    if p != Top {
      Up(m, root, Append(p, c), t);
      Refocus(m, root, p.up, c, Fill(p, t));
    }
  }

  lemma {:induction false} Whole(m: Links, root: Node?, c: Ctx, t: Tree)
    ensures Linked(m, root, c, t) <==> Linked(m, root, Top, Plug(c, t))
  {
    if c != Top {
      Up(m, root, c, t);
      Whole(m, root, c.up, Fill(c, t));
    }
  }

  /** The child link above a node tells on which side it hangs. */
  lemma Side(m: Links, root: Node?, c: Ctx, t: Tree)
    requires Linked(m, root, c, t) && c != Top && t.Br?
    ensures c.node in m && t.node in m
    ensures m[c.node].left == t.node <==> c.InL?
    ensures m[c.node].right == t.node <==> c.InR?
  {
    assert c.InL? && c.right.Br? ==> c.right.node in Nodes(c.right);
    assert c.InR? && c.left.Br? ==> c.left.node in Nodes(c.left);
  }

  /** The colours that the code reads in the children of a node are those of the tree value. */
  lemma ChildColors(m: Links, t: Tree, p: Node?)
    requires Shape(m, t, p) && t.Br?
    ensures t.node in m && m[t.node] == Cell(RootOf(t.left), RootOf(t.right), p, t.color)
    ensures t.left.Br? ==> t.left.node in m && m[t.left.node].color == t.left.color
    ensures t.right.Br? ==> t.right.node in m && m[t.right.node].color == t.right.color
  {
    assert Shape(m, t.left, t.node) && Shape(m, t.right, t.node);
  }

  lemma Recolored(m: Links, root: Node?, c: Ctx, t: Tree, col: Color)
    requires Linked(m, root, c, t) && t.Br?
    ensures t.node in m
    ensures Linked(m[t.node := m[t.node].(color := col)], root, c, t.(color := col))
  {
    var m' := m[t.node := m[t.node].(color := col)];
    ShapeFrame(m, m', t.left, t.node);
    ShapeFrame(m, m', t.right, t.node);
    CtxShapeFrame(m, m', c, t.node);
    assert Nodes(t.(color := col)) == Nodes(t);
  }

  /** A new red node fills an empty slot. */
  lemma Attached(m: Links, m': Links, root: Node?, root': Node?, c: Ctx, x: Node)
    requires Linked(m, root, c, Leaf) && x !in CtxNodes(c)
    requires SameOn(m, m', CtxNodes(c) - (if c.Top? then {} else {c.node}))
    requires x in m' && m'[x] == Cell(null, null, ParentOf(c), Red)
    requires c.InL? ==> c.node in m' && m'[c.node] == m[c.node].(left := x)
    requires c.InR? ==> c.node in m' && m'[c.node] == m[c.node].(right := x)
    requires root' == if c.Top? then x else root
    ensures Linked(m', root', c, Br(Leaf, x, Red, Leaf))
  {
    Refilled(m, m', c, null, x);
    assert Nodes(Br(Leaf, x, Red, Leaf)) == {x};
  }

  /** Seen from anywhere but the top, the root is some other node. */
  lemma {:induction false} TopInCtx(c: Ctx, hole: Node?)
    requires c != Top
    ensures TopOf(c, hole) != null && TopOf(c, hole) in CtxNodes(c)
  {
    if c.up != Top { TopInCtx(c.up, c.node); }
  }

  lemma RootAtTop(m: Links, root: Node?, c: Ctx, t: Tree)
    requires Linked(m, root, c, t)
    ensures c == Top <==> RootOf(t) == root
  {
    if c != Top { TopInCtx(c, RootOf(t)); }
  }

  /** Testing the left child link finds the side even of an empty slot, if the other child exists. */
  lemma LeftSlot(m: Links, root: Node?, c: Ctx, t: Tree)
    requires Linked(m, root, c, t) && c != Top && (c.InR? ==> c.left.Br?)
    ensures c.node in m && (m[c.node].left == RootOf(t) <==> c.InL?)
  {
    assert c.InR? ==> c.left.node in Nodes(c.left);
  }

  ghost predicate KeptBut(m: Links, m': Links, S: set<Node?>) {
    forall n :: n in m && n !in S ==> n in m' && m'[n] == m[n]
  }

  ghost predicate ParentMoved(m: Links, m': Links, n: Node?, p: Node?) {
    n != null ==> n in m && n in m' && m'[n] == m[n].(parent := p)
  }

  ghost predicate ChildMoved(m: Links, m': Links, p: Node?, from: Node, to: Node?) {
    p != null ==>
      && p in m && p in m'
      && m'[p] == if m[p].left == from then m[p].(left := to) else m[p].(right := to)
  }

  /** A node with at most one child `k` is taken out: `k` moves up into its place. */
  lemma Spliced(m: Links, m': Links, root: Node?, root': Node?, c: Ctx, t: Tree, k: Tree)
    requires Linked(m, root, c, t) && t.Br?
    requires (t.left == Leaf && k == t.right) || (t.right == Leaf && k == t.left)
    requires KeptBut(m, m', {t.node, RootOf(k), ParentOf(c)})
    requires ParentMoved(m, m', RootOf(k), ParentOf(c)) && ChildMoved(m, m', ParentOf(c), t.node, RootOf(k))
    requires root' == if c.Top? then RootOf(k) else root
    ensures Linked(m', root', c, k)
  {
    assert Shape(m, k, t.node) && Distinct(k) && Nodes(k) <= Nodes(t);
    assert k.Br? ==> k.node in Nodes(k);
    assert c != Top ==> c.node in CtxNodes(c);
    if c != Top { Side(m, root, c, t); }
    Adopted(m, m', k, t.node, ParentOf(c));
    Refilled(m, m', c, t.node, RootOf(k));
  }

  /** A child of a node that is replaced: its parent link moves to the new node. */
  lemma ReplacedChild(m: Links, m': Links, c: Ctx, t: Tree, k: Tree, x: Node, root: Node?)
    requires Linked(m, root, c, t) && t.Br? && x !in Nodes(t) && (k == t.left || k == t.right)
    requires KeptBut(m, m', {t.node, x, RootOf(t.left), RootOf(t.right), ParentOf(c)})
    requires ParentMoved(m, m', RootOf(k), x)
    ensures Shape(m', k, x)
  {
    var l, r := t.left, t.right;
    assert l.Br? ==> l.node in Nodes(l);
    assert r.Br? ==> r.node in Nodes(r);
    assert c != Top ==> c.node in CtxNodes(c);
    Adopted(m, m', k, t.node, x);
  }

  /** What is above it: the child link moves. */
  lemma ReplacedAbove(m: Links, m': Links, root: Node?, c: Ctx, t: Tree, x: Node)
    requires Linked(m, root, c, t) && t.Br? && x !in CtxNodes(c)
    requires KeptBut(m, m', {t.node, x, RootOf(t.left), RootOf(t.right), ParentOf(c)})
    requires ChildMoved(m, m', ParentOf(c), t.node, x)
    ensures CtxShape(m', c, x)
  {
    var l, r := t.left, t.right;
    assert l.Br? ==> l.node in Nodes(l);
    assert r.Br? ==> r.node in Nodes(r);
    assert c != Top ==> c.node in CtxNodes(c);
    if c != Top { Side(m, root, c, t); }
    Refilled(m, m', c, t.node, x);
  }

  /** A node is replaced by one that was in no tree. */
  lemma Replaced(m: Links, m': Links, root: Node?, root': Node?, c: Ctx, t: Tree, x: Node)
    requires Linked(m, root, c, t) && t.Br? && x !in Nodes(t) && x !in CtxNodes(c)
    requires x in m' && m'[x] == Cell(RootOf(t.left), RootOf(t.right), ParentOf(c), t.color)
    requires KeptBut(m, m', {t.node, x, RootOf(t.left), RootOf(t.right), ParentOf(c)})
    requires ParentMoved(m, m', RootOf(t.left), x) && ParentMoved(m, m', RootOf(t.right), x)
    requires ChildMoved(m, m', ParentOf(c), t.node, x)
    requires root' == if c.Top? then x else root
    ensures Linked(m', root', c, Br(t.left, x, t.color, t.right))
  {
    ReplacedChild(m, m', c, t, t.left, x, root);
    ReplacedChild(m, m', c, t, t.right, x, root);
    ReplacedAbove(m, m', root, c, t, x);
    assert Nodes(Br(t.left, x, t.color, t.right)) == Nodes(t.left) + {x} + Nodes(t.right);
  }

  /** The three nodes that hold a link to `n`: they are there and different from each other. */
  ghost predicate Neighbours(m: Links, n: Node, l: Node?, r: Node?, p: Node?) {
    && n in m && m[n].left == l && m[n].right == r && m[n].parent == p
    && (l != null ==> l in m && l != n && l != r && l != p)
    && (r != null ==> r in m && r != n && r != p)
    && (p != null ==> p in m && p != n)
  }

  lemma NeighboursOf(m: Links, root: Node?, c: Ctx, t: Tree)
    requires Linked(m, root, c, t) && t.Br?
    ensures Neighbours(m, t.node, RootOf(t.left), RootOf(t.right), ParentOf(c))
  {
    assert Shape(m, t.left, t.node) && (t.left.Br? ==> t.left.node in Nodes(t.left));
    assert Shape(m, t.right, t.node) && (t.right.Br? ==> t.right.node in Nodes(t.right));
    assert c != Top ==> c.node in CtxNodes(c);
  }

  ghost predicate ReplacedBy(m: Links, m': Links, n: Node, x: Node, l: Node?, r: Node?, p: Node?) {
    && n in m && x in m' && m'[x] == m[n]
    && m'.Keys == m.Keys - {n} + {x}
    && KeptBut(m, m', {n, x, l, r, p})
    && ParentMoved(m, m', l, x) && ParentMoved(m, m', r, x) && ChildMoved(m, m', p, n, x)
  }

  lemma ReplacedByWrites(m: Links, m1: Links, m2: Links, m3: Links, m4: Links, m5: Links,
                         n: Node, x: Node, l: Node?, r: Node?, p: Node?)
    requires Neighbours(m, n, l, r, p) && x !in m
    requires m1 == m[x := m[n]]
    requires m2 == WithChild(m1, p, n, x)
    requires m3 == WithParent(m2, l, x)
    requires m4 == WithParent(m3, r, x)
    requires m5 == m4 - {n}
    ensures ReplacedBy(m, m5, n, x, l, r, p)
  {
    assert m2[x] == m[n] && (l != null ==> m2[l] == m[l]) && (r != null ==> m2[r] == m[r]);
    assert m4[x] == m[n] && (p != null ==> m4[p] == m2[p]) && (l != null ==> m4[l] == m3[l]);
    forall k | k in m && k !in {n, x, l, r, p} ensures k in m5 && m5[k] == m[k] {
      assert m2[k] == m[k];
      assert m4[k] == m[k];
    }
  }

  /** Where a given node is in a tree. */
  lemma {:induction false} Locate(c: Ctx, t: Tree, n: Node) returns (d: Ctx, u: Tree)
    requires n in Nodes(t)
    ensures u.Br? && u.node == n && Plug(d, u) == Plug(c, t)
    decreases t
  {
    if t.node == n {
      d, u := c, t;
    } else if n in Nodes(t.left) {
      d, u := Locate(InL(t.node, t.color, t.right, c), t.left, n);
    } else {
      d, u := Locate(InR(t.left, t.node, t.color, c), t.right, n);
    }
  }

  /** What the parent link of a node and the child links of that parent tell about its place. */
  lemma Above(m: Links, root: Node?, c: Ctx, t: Tree)
    requires Linked(m, root, c, t) && t.Br?
    ensures t.node in m && m[t.node].parent == ParentOf(c)
    ensures c != Top ==>
      c.node in m && (m[c.node].left == t.node <==> c.InL?) && (m[c.node].right == t.node <==> c.InR?)
    ensures c != Top ==> Linked(m, root, c.up, Fill(c, t))
  {
    if c != Top {
      Side(m, root, c, t);
      Up(m, root, c, t);
    }
  }
}
