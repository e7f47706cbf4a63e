/** The tree values of a removal: splicing a node out, and putting its successor in its place. */
module RbRemoval {
  import opened Sequences
  import opened RbShape
  import opened RbBalance
  import opened RbFixup
  import opened RbOrder

  /** The only child of a node that has at most one. */
  function OnlyChild(t: Tree): Tree
    requires t.Br?
  {
    if t.left.Leaf? then t.right else t.left
  }

  /** What the node's colour leaves to repair: nothing, or one black node on its path. */
  lemma SplicedFits(c: Ctx, t: Tree)
    requires RedBlack(Plug(c, t)) && t.Br? && (t.left.Leaf? || t.right.Leaf?)
    ensures t.color.Red? ==> RedBlack(Plug(c, OnlyChild(t)))
    ensures t.color.Black? ==> RemoveInv(c, OnlyChild(t), BlackHeight(t) - 1)
  {
    var k, h := OnlyChild(t), BlackHeight(t);
    Opened(c, t);
    assert Bal(k, h - One(t.color)) && NoRedRed(k);
    if t.color.Red? {
      Closed(c, k, h);
    }
  }

  /** A path that only goes to the left. */
  predicate Leftmost(p: Ctx) {
    p.Top? || (p.InL? && Leftmost(p.up))
  }

  lemma {:induction false} LeftmostBefore(p: Ctx)
    requires Leftmost(p)
    ensures Before(p) == []
  {
    if p != Top { LeftmostBefore(p.up); }
  }

  predicate Rightmost(p: Ctx) {
    p.Top? || (p.InR? && Rightmost(p.up))
  }

  lemma {:induction false} RightmostAfter(p: Ctx)
    requires Rightmost(p)
    ensures After(p) == []
  {
    if p != Top { RightmostAfter(p.up); }
  }

  lemma HeadOut(x: Node, r: seq<Node>, a: seq<Node>)
    ensures [] + ([x] + r) + a == [x] + ([] + r + a)
  {
  }

  /** The successor is the first element of the right subtree. */
  lemma FirstOut(p: Ctx, t: Tree)
    requires Leftmost(p) && t.Br? && t.left.Leaf?
    ensures Inorder(Plug(p, t)) == [t.node] + Inorder(Plug(p, t.right))
  {
    LeftmostBefore(p);
    PlugInorder(p, t);
    PlugInorder(p, t.right);
    var r, a := Inorder(t.right), After(p);
    assert Inorder(t) == [t.node] + r;
    HeadOut(t.node, r, a);
  }

  /** Putting another node in a place of the context changes no colour and no height. */
  lemma {:induction false} SameColors(p: Ctx, l: Tree, a: Node, b: Node, col: Color, c: Ctx, h: int)
    ensures var x, y := Append(p, InR(l, a, col, c)), Append(p, InR(l, b, col, c));
      && (CtxBal(x, h) ==> CtxBal(y, h)) && (CtxNoRedRed(x) ==> CtxNoRedRed(y))
      && (TopBlack(x) ==> TopBlack(y)) && RedAbove(x) == RedAbove(y)
      && (x.up.Top? <==> y.up.Top?)
  {
    if p != Top {
      SameColors(p.up, l, a, b, col, c, h + One(p.color));
    }
  }

  lemma SuccessorFits(p: Ctx, l: Tree, old_: Node, col: Color, c: Ctx, t: Tree)
    requires t.Br? && t.left.Leaf? && RedBlack(Plug(Append(p, InR(l, old_, col, c)), t))
    ensures t.color.Red? ==> RedBlack(Plug(Append(p, InR(l, t.node, col, c)), t.right))
    ensures t.color.Black? ==> RemoveInv(Append(p, InR(l, t.node, col, c)), t.right, BlackHeight(t) - 1)
  {
    var C, C', h := Append(p, InR(l, old_, col, c)), Append(p, InR(l, t.node, col, c)), BlackHeight(t);
    Opened(C, t);
    SameColors(p, l, old_, t.node, col, c, h);
    assert Bal(t.right, h - One(t.color)) && NoRedRed(t.right);
    if t.color.Red? {
      Closed(C', t.right, h);
    }
  }

  /** The place of a node in the sequence of all elements. */
  ghost function Rank(c: Ctx, t: Tree): nat
    requires t.Br?
  {
    |Before(c)| + |Inorder(t.left)|
  }

  lemma Around3(a: seq<Node>, b: seq<Node>, x: Node, d: seq<Node>, e: seq<Node>)
    ensures var s, i := a + (b + [x] + d) + e, |a| + |b|;
      i < |s| && s[i] == x && s[..i] == a + b && s[i + 1..] == d + e
  {
    assert a + (b + [x] + d) + e == (a + b) + [x] + (d + e);
  }

  lemma RankAt(c: Ctx, t: Tree)
    requires t.Br?
    ensures Rank(c, t) < |Elements(c, t)| && Elements(c, t)[Rank(c, t)] == t.node
    ensures Elements(c, t)[..Rank(c, t)] == Before(c) + Inorder(t.left)
    ensures Elements(c, t)[Rank(c, t) + 1..] == Inorder(t.right) + After(c)
  {
    var a, b := Before(c) + Inorder(t.left), Inorder(t.right) + After(c);
    Around3(Before(c), Inorder(t.left), t.node, Inorder(t.right), After(c));
  }

  lemma SplicedOrder(c: Ctx, t: Tree)
    requires t.Br? && (t.left.Leaf? || t.right.Leaf?)
    ensures var s, i := Elements(c, t), Rank(c, t); i < |s| && Elements(c, OnlyChild(t)) == s[..i] + s[i + 1..]
  {
    RankAt(c, t);
    assert Elements(c, OnlyChild(t)) == Before(c) + Inorder(t.left) + (Inorder(t.right) + After(c));
  }

  lemma SuccessorOrder(p: Ctx, c: Ctx, t: Tree, x: Tree)
    requires t.Br? && Leftmost(p) && x.Br? && x.left.Leaf? && Plug(p, x) == t.right
    ensures var s, i := Elements(c, t), Rank(c, t);
      i < |s| && Elements(c, Br(t.left, x.node, t.color, Plug(p, x.right))) == s[..i] + s[i + 1..]
  {
    RankAt(c, t);
    FirstOut(p, x);
    var r := Inorder(Plug(p, x.right));
    Reassociate(Before(c), Inorder(t.left), [x.node], r, After(c));
    assert Inorder(t.right) + After(c) == [x.node] + r + After(c);
  }

  lemma SortedWithout(cmp: Compare, s: seq<Node>, i: nat)
    requires Sorted(cmp, s) && i < |s|
    ensures Sorted(cmp, s[..i] + s[i + 1..])
  {
    var r := s[..i] + s[i + 1..];
    forall a, b | 0 <= a < b < |r| ensures cmp(r[a].key, r[b].key) < 0 {
      assert r[a] == s[if a < i then a else a + 1] && r[b] == s[if b < i then b else b + 1];
    }
  }

  /** The successor is in the right subtree and nowhere else, so it is free to move once unlinked. */
  lemma SuccessorApart(p: Ctx, c: Ctx, t: Tree, u: Tree)
    requires t.Br? && u.Br? && u.left.Leaf? && Plug(p, u) == t.right
    requires Distinct(t) && Nodes(t) !! CtxNodes(c)
    ensures u.node in Nodes(t.right) && u.node !in CtxNodes(c) && u.node != t.node && u.node !in Nodes(t.left)
    ensures u.node !in Nodes(Plug(p, u.right))
    ensures ParentOf(Append(p, InR(t.left, t.node, t.color, c))) == if p == Top then t.node else p.node
    ensures p != Top ==> p.node != t.node
  {
    PlugNodes(p, u);
    PlugNodes(p, u.right);
    PlugDistinct(p, u);
  }

  lemma {:induction false} PlugDistinct(p: Ctx, u: Tree)
    requires Distinct(Plug(p, u))
    ensures Distinct(u) && Nodes(u) !! CtxNodes(p)
  {
    match p
    case Top =>
    case InL(n, col, r, up) => PlugDistinct(up, Br(u, n, col, r));
    case InR(l, n, col, up) => PlugDistinct(up, Br(l, n, col, u));
  }

  /** Exactly the element in focus is gone from the sequence of all elements. */
  ghost predicate Removed(c: Ctx, t: Tree, C: Ctx, k: Tree)
    requires t.Br?
  {
    var s, i := Elements(c, t), Rank(c, t);
    i < |s| && s[i] == t.node && Elements(C, k) == s[..i] + s[i + 1..]
  }

  lemma InnerRemoved(p: Ctx, c: Ctx, t: Tree, u: Tree)
    requires t.Br? && u.Br? && u.left.Leaf? && Leftmost(p) && Plug(p, u) == t.right && RedBlack(Plug(c, t))
    ensures var C := Append(p, InR(t.left, u.node, t.color, c));
      && (u.color.Red? ==> RedBlack(Plug(C, u.right)))
      && (u.color.Black? ==> RemoveInv(C, u.right, BlackHeight(u) - 1))
      && Removed(c, t, C, u.right)
  {
    var base, base' := InR(t.left, t.node, t.color, c), InR(t.left, u.node, t.color, c);
    PlugAppend(p, base, u);
    SuccessorFits(p, t.left, t.node, t.color, c, u);
    RankAt(c, t);
    SuccessorOrder(p, c, t, u);
    PlugAppend(p, base', u.right);
    PlugInorder(Append(p, base'), u.right);
    PlugInorder(c, Br(t.left, u.node, t.color, Plug(p, u.right)));
  }

  lemma OuterRemoved(c: Ctx, t: Tree)
    requires RedBlack(Plug(c, t)) && t.Br? && (t.left.Leaf? || t.right.Leaf?)
    ensures t.color.Red? ==> RedBlack(Plug(c, OnlyChild(t)))
    ensures t.color.Black? ==> RemoveInv(c, OnlyChild(t), BlackHeight(t) - 1)
    ensures Removed(c, t, c, OnlyChild(t))
  {
    SplicedFits(c, t);
    RankAt(c, t);
    SplicedOrder(c, t);
  }

  lemma SortedNoDup(cmp: Compare, s: seq<Node>)
    requires IsOrder(cmp) && Sorted(cmp, s)
    ensures NoDup(s)
  {
    forall i, j | 0 <= i < j < |s| ensures s[i] != s[j] {
      assert cmp(s[i].key, s[j].key) < 0 < cmp(s[j].key, s[i].key);
    }
  }

  /** A sequence without repetition loses exactly the element taken out. */
  lemma NodesWithout(cmp: Compare, t: Tree, r: Tree, i: nat)
    requires IsOrder(cmp) && Sorted(cmp, Inorder(t)) && i < |Inorder(t)|
    requires Inorder(r) == Inorder(t)[..i] + Inorder(t)[i + 1..]
    ensures Nodes(r) == Nodes(t) - {Inorder(t)[i]}
  {
    SortedNoDup(cmp, Inorder(t));
    forall x: Node | x in Nodes(r) ensures x in Nodes(t) - {Inorder(t)[i]} {
      InorderNodes(r, x);
      InorderNodes(t, x);
      DroppedMember(Inorder(t), i, x);
    }
    forall x: Node | x in Nodes(t) - {Inorder(t)[i]} ensures x in Nodes(r) {
      InorderNodes(r, x);
      InorderNodes(t, x);
      DroppedMember(Inorder(t), i, x);
    }
  }

  lemma KeepsSorted(cmp: Compare, tree: Tree, w: Tree, i: nat)
    requires IsOrder(cmp) && Sorted(cmp, Inorder(tree)) && i < |Inorder(tree)|
    requires Inorder(w) == Inorder(tree)[..i] + Inorder(tree)[i + 1..]
    ensures Sorted(cmp, Inorder(w)) && Nodes(w) == Nodes(tree) - {Inorder(tree)[i]}
  {
    SortedWithout(cmp, Inorder(tree), i);
    NodesWithout(cmp, tree, w, i);
  }

  /** What a removal leaves of the sorted sequence of all elements. */
  lemma RemovedFrom(cmp: Compare, tree: Tree, c: Ctx, t: Tree, w: Tree)
    requires IsOrder(cmp) && Sorted(cmp, Inorder(tree)) && Plug(c, t) == tree && t.Br? && Removed(c, t, Top, w)
    ensures var s, i := Inorder(tree), Rank(c, t);
      i < |s| && s[i] == t.node && Inorder(w) == s[..i] + s[i + 1..]
    ensures Sorted(cmp, Inorder(w)) && Nodes(w) == Nodes(tree) - {t.node}
  {
    assert Elements(c, t) == Inorder(tree) && Elements(Top, w) == Inorder(w) by {
      PlugInorder(c, t);
      ElementsTop(w);
    }
    KeepsSorted(cmp, tree, w, Rank(c, t));
  }

  lemma RankUnique(cmp: Compare, tree: Tree, c: Ctx, t: Tree, i: nat)
    requires IsOrder(cmp) && Sorted(cmp, Inorder(tree)) && Plug(c, t) == tree && t.Br?
    requires i < |Inorder(tree)| && Inorder(tree)[i] == t.node
    ensures i == Rank(c, t) && Inorder(tree) == Elements(c, t)
  {
    PlugInorder(c, t);
    RankAt(c, t);
    SortedNoDup(cmp, Inorder(tree));
  }

  /** What stands next to an element: the start of its right subtree, or of what follows its place. */
  lemma NextPlace(c: Ctx, t: Tree)
    requires t.Br?
    ensures var s, i, r, a := Elements(c, t), Rank(c, t), Inorder(t.right), After(c);
      && (i + 1 < |s| <==> |r| + |a| > 0)
      && (|r| > 0 ==> s[i + 1] == r[0])
      && (|r| == 0 && |a| > 0 ==> s[i + 1] == a[0])
  {
    RankAt(c, t);
    var s, k := Elements(c, t), Rank(c, t);
    assert |s| == |Before(c)| + (|Inorder(t.left)| + 1 + |Inorder(t.right)|) + |After(c)|;
    assert k + 1 < |s| ==> s[k + 1] == s[k + 1..][0];
  }

  lemma PrevPlace(c: Ctx, t: Tree)
    requires t.Br?
    ensures var s, i, l, b := Elements(c, t), Rank(c, t), Inorder(t.left), Before(c);
      && i < |s|
      && (i > 0 <==> |l| + |b| > 0)
      && (|l| > 0 ==> s[i - 1] == l[|l| - 1])
      && (|l| == 0 && |b| > 0 ==> s[i - 1] == b[|b| - 1])
  {
    RankAt(c, t);
    var s, k := Elements(c, t), Rank(c, t);
    assert k > 0 ==> s[k - 1] == s[..k][k - 1];
  }

  /** The predecessor is the last element of the left subtree. */
  lemma LastOut(p: Ctx, t: Tree)
    requires Rightmost(p) && t.Br? && t.right.Leaf?
    ensures var s := Inorder(Plug(p, t)); |s| > 0 && s[|s| - 1] == t.node
  {
    RightmostAfter(p);
    PlugInorder(p, t);
  }
}
