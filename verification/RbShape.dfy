/**
 The linked nodes of the red-black tree and the mathematical trees they stand for.

 A `Tree` is the value of a linked structure; a `Ctx` is a tree with one hole, kept as
 the path from the hole up to the root. `Linked` says that
 given values of the nodes' link fields, parent links included, are those of such a tree.
 */
module RbShape {

  datatype Color = Red | Black

  /** An element with its embedded `struct rb_entry`. `key` is what the comparison looks at. */
  class Node {
    const key: int
    const size: nat
    var left: Node?
    var right: Node?
    var parent: Node?
    var color: Color

    constructor (key: int, size: nat)
      ensures this.key == key && this.size == size
    {
      this.key := key;
      this.size := size;
      left, right, parent, color := null, null, null, Red;
    }
  }

  datatype Tree = Leaf | Br(left: Tree, node: Node, color: Color, right: Tree)

  /** A tree with a hole: `InL(n, col, r, up)` is the left child slot of `n` under `up`. */
  datatype Ctx =
    | Top
    | InL(node: Node, color: Color, right: Tree, up: Ctx)
    | InR(left: Tree, node: Node, color: Color, up: Ctx)

  ghost function Nodes(t: Tree): set<Node> {
    if t.Leaf? then {} else Nodes(t.left) + {t.node} + Nodes(t.right)
  }

  ghost function CtxNodes(c: Ctx): set<Node> {
    match c
    case Top => {}
    case InL(n, _, r, up) => {n} + Nodes(r) + CtxNodes(up)
    case InR(l, n, _, up) => Nodes(l) + {n} + CtxNodes(up)
  }

  function RootOf(t: Tree): (r: Node?)
  {
    if t.Leaf? then null else t.node
  }

  function ParentOf(c: Ctx): Node? {
    if c.Top? then null else c.node
  }

  /** The node at the top of the tree when `hole` fills the context. */
  function TopOf(c: Ctx, hole: Node?): Node? {
    if c.Top? then hole else TopOf(c.up, c.node)
  }

  function Plug(c: Ctx, t: Tree): Tree {
    match c
    case Top => t
    case InL(n, col, r, up) => Plug(up, Br(t, n, col, r))
    case InR(l, n, col, up) => Plug(up, Br(l, n, col, t))
  }

  /** No node occurs twice. */
  ghost predicate Distinct(t: Tree) {
    t.Br? ==>
      && t.node !in Nodes(t.left) && t.node !in Nodes(t.right)
      && Nodes(t.left) !! Nodes(t.right)
      && Distinct(t.left) && Distinct(t.right)
  }

  ghost predicate CtxDistinct(c: Ctx) {
    match c
    case Top => true
    case InL(n, _, r, up) =>
      && n !in Nodes(r) && n !in CtxNodes(up) && Nodes(r) !! CtxNodes(up)
      && Distinct(r) && CtxDistinct(up)
    case InR(l, n, _, up) =>
      && n !in Nodes(l) && n !in CtxNodes(up) && Nodes(l) !! CtxNodes(up)
      && Distinct(l) && CtxDistinct(up)
  }

  /** What the link fields of one node hold, and what those of all nodes hold. */
  datatype Cell = Cell(left: Node?, right: Node?, parent: Node?, color: Color)

  type Links = map<Node, Cell>

  /** The fields `m` link the nodes as `t` says, below a node `p`. */
  ghost predicate Shape(m: Links, t: Tree, p: Node?) {
    t.Br? ==>
      && t.node in m
      && m[t.node] == Cell(RootOf(t.left), RootOf(t.right), p, t.color)
      && Shape(m, t.left, t.node)
      && Shape(m, t.right, t.node)
  }

  ghost predicate CtxShape(m: Links, c: Ctx, hole: Node?) {
    match c
    case Top => true
    case InL(n, col, r, up) =>
      && n in m && m[n] == Cell(hole, RootOf(r), ParentOf(up), col)
      && Shape(m, r, n) && CtxShape(m, up, n)
    case InR(l, n, col, up) =>
      && n in m && m[n] == Cell(RootOf(l), hole, ParentOf(up), col)
      && Shape(m, l, n) && CtxShape(m, up, n)
  }

  /** With root link `root`, the fields `m` are those of `Plug(c, t)`, every node occurring once. */
  ghost predicate Linked(m: Links, root: Node?, c: Ctx, t: Tree) {
    && root == TopOf(c, RootOf(t))
    && Shape(m, t, ParentOf(c)) && CtxShape(m, c, RootOf(t))
    && Distinct(t) && CtxDistinct(c) && Nodes(t) !! CtxNodes(c)
  }

  ghost predicate SameOn(m: Links, m': Links, S: set<Node>) {
    forall n :: n in S && n in m ==> n in m' && m'[n] == m[n]
  }

  lemma {:induction false} ShapeFrame(m: Links, m': Links, t: Tree, p: Node?)
    requires Shape(m, t, p) && SameOn(m, m', Nodes(t))
    ensures Shape(m', t, p)
  {
    if t.Br? {
      assert Nodes(t) == Nodes(t.left) + {t.node} + Nodes(t.right);
      ShapeFrame(m, m', t.left, t.node);
      ShapeFrame(m, m', t.right, t.node);
    }
  }

  lemma {:induction false} CtxShapeFrame(m: Links, m': Links, c: Ctx, hole: Node?)
    requires CtxShape(m, c, hole) && SameOn(m, m', CtxNodes(c))
    ensures CtxShape(m', c, hole)
  {
    match c
    case Top =>
    case InL(n, _, r, up) =>
      assert CtxNodes(c) == {n} + Nodes(r) + CtxNodes(up);
      ShapeFrame(m, m', r, n);
      CtxShapeFrame(m, m', up, n);
    case InR(l, n, _, up) =>
      assert CtxNodes(c) == Nodes(l) + {n} + CtxNodes(up);
      ShapeFrame(m, m', l, n);
      CtxShapeFrame(m, m', up, n);
  }

  /** A subtree is moved below another node: only its root's parent link changes. */
  lemma Adopted(m: Links, m': Links, t: Tree, p: Node?, q: Node?)
    requires Shape(m, t, p) && Distinct(t)
    requires SameOn(m, m', Nodes(t) - (if t.Br? then {t.node} else {}))
    requires t.Br? ==> t.node in m' && m'[t.node] == m[t.node].(parent := q)
    ensures Shape(m', t, q)
  {
    if t.Br? {
      ShapeFrame(m, m', t.left, t.node);
      ShapeFrame(m, m', t.right, t.node);
    }
  }

  /** The hole of a context is filled with another node: only the child link above it changes. */
  lemma Refilled(m: Links, m': Links, c: Ctx, x: Node?, y: Node?)
    requires CtxShape(m, c, x) && CtxDistinct(c)
    requires SameOn(m, m', CtxNodes(c) - (if c.Top? then {} else {c.node}))
    requires c.InL? ==> c.node in m' && m'[c.node] == m[c.node].(left := y)
    requires c.InR? ==> c.node in m' && m'[c.node] == m[c.node].(right := y)
    ensures CtxShape(m', c, y)
  {
    if c != Top {
      ShapeFrame(m, m', if c.InL? then c.right else c.left, c.node);
      CtxShapeFrame(m, m', c.up, c.node);
    }
  }

  lemma UpLeft(m: Links, root: Node?, n: Node, col: Color, r: Tree, up: Ctx, t: Tree)
    ensures Linked(m, root, InL(n, col, r, up), t) <==> Linked(m, root, up, Br(t, n, col, r))
  {
    assert CtxNodes(InL(n, col, r, up)) == {n} + Nodes(r) + CtxNodes(up);
    assert Nodes(Br(t, n, col, r)) == Nodes(t) + {n} + Nodes(r);
  }

  lemma UpRight(m: Links, root: Node?, l: Tree, n: Node, col: Color, up: Ctx, t: Tree)
    ensures Linked(m, root, InR(l, n, col, up), t) <==> Linked(m, root, up, Br(l, n, col, t))
  {
    assert CtxNodes(InR(l, n, col, up)) == Nodes(l) + {n} + CtxNodes(up);
    assert Nodes(Br(l, n, col, t)) == Nodes(l) + {n} + Nodes(t);
  }

  /** The elements of a tree from left to right. */
  ghost function Inorder(t: Tree): (s: seq<Node>)
  {
    if t.Leaf? then [] else Inorder(t.left) + [t.node] + Inorder(t.right)
  }

  lemma {:induction false} InorderNodes(t: Tree, x: Node)
    ensures x in Inorder(t) <==> x in Nodes(t)
  {
    if t.Br? {
      InorderNodes(t.left, x);
      InorderNodes(t.right, x);
    }
  }

  lemma SameOrderSameNodes(t: Tree, u: Tree)
    requires Inorder(t) == Inorder(u)
    ensures Nodes(t) == Nodes(u)
  {
    forall x: Node | x in Nodes(t) ensures x in Nodes(u) {
      InorderNodes(t, x);
      InorderNodes(u, x);
    }
    forall x: Node | x in Nodes(u) ensures x in Nodes(t) {
      InorderNodes(t, x);
      InorderNodes(u, x);
    }
  }

  /** The elements to the left, and to the right, of the hole. */
  ghost function Before(c: Ctx): seq<Node> {
    match c
    case Top => []
    case InL(_, _, _, up) => Before(up)
    case InR(l, n, _, up) => Before(up) + Inorder(l) + [n]
  }

  ghost function After(c: Ctx): seq<Node> {
    match c
    case Top => []
    case InL(n, _, r, up) => [n] + Inorder(r) + After(up)
    case InR(_, _, _, up) => After(up)
  }

  lemma Reassociate(a: seq<Node>, b: seq<Node>, c: seq<Node>, d: seq<Node>, e: seq<Node>)
    ensures a + (b + c + d) + e == a + b + (c + d + e)
    ensures a + (b + c + d) + e == (a + b + c) + d + e
  {
  }

  lemma {:induction false} PlugInorder(c: Ctx, t: Tree)
    ensures Inorder(Plug(c, t)) == Before(c) + Inorder(t) + After(c)
  {
    match c
    case Top =>
    case InL(n, col, r, up) =>
      PlugInorder(up, Br(t, n, col, r));
      Reassociate(Before(up), Inorder(t), [n], Inorder(r), After(up));
    case InR(l, n, col, up) =>
      PlugInorder(up, Br(l, n, col, t));
      Reassociate(Before(up), Inorder(l), [n], Inorder(t), After(up));
  }

  lemma {:induction false} PlugNodes(c: Ctx, t: Tree)
    ensures Nodes(Plug(c, t)) == CtxNodes(c) + Nodes(t)
  {
    match c
    case Top =>
    case InL(n, col, r, up) =>
      PlugNodes(up, Br(t, n, col, r));
    case InR(l, n, col, up) =>
      PlugNodes(up, Br(l, n, col, t));
  }

  /** One context inside another: first `p`, then `c` above it. */
  function Append(p: Ctx, c: Ctx): Ctx {
    match p
    case Top => c
    case InL(n, col, r, up) => InL(n, col, r, Append(up, c))
    case InR(l, n, col, up) => InR(l, n, col, Append(up, c))
  }

  lemma {:induction false} PlugAppend(p: Ctx, c: Ctx, t: Tree)
    ensures Plug(Append(p, c), t) == Plug(c, Plug(p, t))
  {
    match p
    case Top =>
    case InL(n, col, r, up) =>
      PlugAppend(up, c, Br(t, n, col, r));
    case InR(l, n, col, up) =>
      PlugAppend(up, c, Br(l, n, col, t));
  }
}
