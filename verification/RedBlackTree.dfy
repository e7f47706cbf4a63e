/** The linked red-black tree of sys/kern/subr_tree.c. */
module RedBlackTree {
  import opened Arithmetic
  import opened RbShape
  import opened RbLinks
  import opened RbBalance
  import opened RbFixup
  import opened RbOrder
  import opened RbRemoval

  class RbTree {
    const compare: Compare
    var root: Node?
    ghost var links: Links
    ghost var tree: Tree

    constructor (compare: Compare)
      requires IsOrder(compare)
      ensures Valid() && Contents() == [] && this.compare == compare
    {
      this.compare := compare;
      root, links, tree := null, map[], Leaf;
    }

    /** The elements in ascending order. */
    ghost function Contents(): seq<Node>
      reads this
    {
      Inorder(tree)
    }

    /** Linked as a red-black tree, parent links included, with the elements in ascending order. */
    ghost predicate Valid()
      reads this, links.Keys
    {
      && IsOrder(compare)
      && At(Top, tree) && links.Keys == Nodes(tree)
      && RedBlack(tree) && Sorted(compare, Contents())
    }

    /** The ghost copy of the link fields is up to date. */
    ghost predicate Agrees()
      reads this, links.Keys
    {
      forall n {:trigger n.left} {:trigger n.right} {:trigger n.parent} {:trigger n.color} :: n in links ==>
        links[n] == Cell(n.left, n.right, n.parent, n.color)
    }

    /** The structure in memory is the tree `Plug(c, t)`, looked at from the hole of `c`. */
    ghost predicate At(c: Ctx, t: Tree)
      reads this, links.Keys
    {
      Agrees() && Linked(links, root, c, t)
    }

    method SetLeft(n: Node, v: Node?)
      requires Agrees() && n in links
      modifies `links, n`left
      ensures Agrees() && links.Keys == old(links.Keys)
      ensures links == old(links)[n := old(links)[n].(left := v)]
    {
      n.left := v;
      links := links[n := links[n].(left := v)];
    }

    method SetRight(n: Node, v: Node?)
      requires Agrees() && n in links
      modifies `links, n`right
      ensures Agrees() && links.Keys == old(links.Keys)
      ensures links == old(links)[n := old(links)[n].(right := v)]
    {
      n.right := v;
      links := links[n := links[n].(right := v)];
    }

    method SetParent(n: Node, v: Node?)
      requires Agrees() && n in links
      modifies `links, n`parent
      ensures Agrees() && links.Keys == old(links.Keys)
      ensures links == old(links)[n := old(links)[n].(parent := v)]
    {
      n.parent := v;
      links := links[n := links[n].(parent := v)];
    }

    method Adopt(child: Node?, p: Node?)
      requires Agrees() && (child != null ==> child in links)
      modifies `links, (if child == null then {} else {child})`parent
      ensures Agrees() && links.Keys == old(links.Keys)
      ensures links == old(WithParent(links, child, p))
    {
      if child != null {
        SetParent(child, p);
      }
    }

    method Relink(parent: Node?, from: Node, to: Node?)
      requires Agrees() && (parent != null ==> parent in links)
      modifies `root, `links, (if parent == null then {} else {parent})`left,
        (if parent == null then {} else {parent})`right
      ensures Agrees() && links.Keys == old(links.Keys)
      ensures links == old(WithChild(links, parent, from, to))
      ensures root == if parent == null then to else old(root)
    {
      if parent != null {
        if parent.left == from {
          SetLeft(parent, to);
        } else {
          SetRight(parent, to);
        }
      } else {
        root := to;
      }
    }

    method SetColor(n: Node, v: Color)
      requires Agrees() && n in links
      modifies `links, n`color
      ensures Agrees() && links.Keys == old(links.Keys)
      ensures links == old(links)[n := old(links)[n].(color := v)]
    {
      n.color := v;
      links := links[n := links[n].(color := v)];
    }

    /** Colour the root of the subtree in focus, or one of its children. */
    method Paint(n: Node, v: Color, ghost c: Ctx, ghost t: Tree)
      requires At(c, t) && t.Br? && t.node == n
      modifies `links, links.Keys`color
      ensures At(c, t.(color := v)) && links.Keys == old(links.Keys)
    {
      Recolored(links, root, c, t, v);
      SetColor(n, v);
    }

    method PaintLeft(n: Node, v: Color, ghost c: Ctx, ghost t: Tree)
      requires At(c, t) && t.Br? && t.left.Br? && t.left.node == n
      modifies `links, links.Keys`color
      ensures At(c, t.(left := t.left.(color := v))) && links.Keys == old(links.Keys)
    {
      ghost var d := InL(t.node, t.color, t.right, c);
      Up(links, root, d, t.left);
      Paint(n, v, d, t.left);
      Up(links, root, d, t.left.(color := v));
    }

    method PaintRight(n: Node, v: Color, ghost c: Ctx, ghost t: Tree)
      requires At(c, t) && t.Br? && t.right.Br? && t.right.node == n
      modifies `links, links.Keys`color
      ensures At(c, t.(right := t.right.(color := v))) && links.Keys == old(links.Keys)
    {
      ghost var d := InR(t.left, t.node, t.color, c);
      Up(links, root, d, t.right);
      Paint(n, v, d, t.right);
      Up(links, root, d, t.right.(color := v));
    }

    method RotateLeft(rbe: Node, ghost c: Ctx, ghost t: Tree)
      requires At(c, t) && t.Br? && t.node == rbe && t.right.Br?
      modifies `root, `links, links.Keys
      ensures At(c, RotatedLeft(t)) && links.Keys == old(links.Keys)
    {
      AroundRight(links, root, c, t);
      RotateLeftWrites(rbe, t.right.node, RootOf(t.right.left), ParentOf(c));
      RotateLeftLinks(old(links), links, old(root), root, c, t);
    }

    method RotateLeftWrites(rbe: Node, ghost y: Node, ghost b: Node?, ghost p: Node?)
      requires Agrees() && Around(links, rbe, y, b, p)
      requires links[rbe].right == y && links[y].left == b
      modifies `root, `links, links.Keys
      ensures Agrees() && Rotated(old(links), links, rbe, y, b, p, true)
      ensures root == if p == null then y else old(root)
    {
      var tmp := rbe.right;
      ghost var m := links;
      SetRight(rbe, tmp.left);
      ghost var m1 := links;
      Adopt(tmp.left, rbe);
      ghost var m2 := links;
      var parent := rbe.parent;
      assert m2[rbe].parent == p && m2.Keys == m.Keys;
      SetParent(tmp, parent);
      ghost var m3 := links;
      Relink(parent, rbe, tmp);
      ghost var m4 := links;
      SetLeft(tmp, rbe);
      ghost var m5 := links;
      SetParent(rbe, tmp);
      assert Rotated(m, links, rbe, y, b, p, true) by {
        RotatedByWrites(m, m1, m2, m3, m4, m5, links, rbe, y, b, p, true);
      }
    }

    method RotateRight(rbe: Node, ghost c: Ctx, ghost t: Tree)
      requires At(c, t) && t.Br? && t.node == rbe && t.left.Br?
      modifies `root, `links, links.Keys
      ensures At(c, RotatedRight(t)) && links.Keys == old(links.Keys)
    {
      AroundLeft(links, root, c, t);
      RotateRightWrites(rbe, t.left.node, RootOf(t.left.right), ParentOf(c));
      RotateRightLinks(old(links), links, old(root), root, c, t);
    }

    method RotateRightWrites(rbe: Node, ghost y: Node, ghost b: Node?, ghost p: Node?)
      requires Agrees() && Around(links, rbe, y, b, p)
      requires links[rbe].left == y && links[y].right == b
      modifies `root, `links, links.Keys
      ensures Agrees() && Rotated(old(links), links, rbe, y, b, p, false)
      ensures root == if p == null then y else old(root)
    {
      var tmp := rbe.left;
      ghost var m := links;
      SetLeft(rbe, tmp.right);
      ghost var m1 := links;
      Adopt(tmp.right, rbe);
      ghost var m2 := links;
      var parent := rbe.parent;
      assert m2[rbe].parent == p && m2.Keys == m.Keys;
      SetParent(tmp, parent);
      ghost var m3 := links;
      Relink(parent, rbe, tmp);
      ghost var m4 := links;
      SetRight(tmp, rbe);
      ghost var m5 := links;
      SetParent(rbe, tmp);
      assert Rotated(m, links, rbe, y, b, p, false) by {
        RotatedByWrites(m, m1, m2, m3, m4, m5, links, rbe, y, b, p, false);
      }
    }

    /** Blacken the parent, redden the grandparent and rotate it: the last two steps of an insertion. */
    method RaiseLeft(par: Node, gparent: Node, ghost d: Ctx, ghost T: Tree)
      requires At(d, T) && T.Br? && T.node == gparent && T.left.Br? && T.left.node == par
      modifies `root, `links, links.Keys
      ensures At(d, Br(T.left.left, par, Black, Br(T.left.right, gparent, Red, T.right)))
      ensures links.Keys == old(links.Keys)
    {
      PaintLeft(par, Black, d, T);
      ghost var T1 := T.(left := T.left.(color := Black));
      Paint(gparent, Red, d, T1);
      RotateRight(gparent, d, T1.(color := Red));
    }

    method RaiseRight(par: Node, gparent: Node, ghost d: Ctx, ghost T: Tree)
      requires At(d, T) && T.Br? && T.node == gparent && T.right.Br? && T.right.node == par
      modifies `root, `links, links.Keys
      ensures At(d, Br(Br(T.left, gparent, Red, T.right.left), par, Black, T.right.right))
      ensures links.Keys == old(links.Keys)
    {
      PaintRight(par, Black, d, T);
      ghost var T1 := T.(right := T.right.(color := Black));
      Paint(gparent, Red, d, T1);
      RotateLeft(gparent, d, T1.(color := Red));
    }

    /** Both children black, the node itself red. */
    method Flip(left: Node, right: Node, top: Node, ghost d: Ctx, ghost T: Tree)
      requires At(d, T) && T.Br? && T.node == top
      requires T.left.Br? && T.left.node == left && T.right.Br? && T.right.node == right
      modifies `root, `links, links.Keys
      ensures At(d, Br(T.left.(color := Black), top, Red, T.right.(color := Black)))
      ensures links.Keys == old(links.Keys)
    {
      PaintRight(right, Black, d, T);
      ghost var T1 := T.(right := T.right.(color := Black));
      PaintLeft(left, Black, d, T1);
      Paint(top, Red, d, T1.(left := T1.left.(color := Black)));
    }

    /** One round of the insertion loop below a grandparent whose left child is the red parent. */
    method InsertFixLeft(rbe: Node, parent: Node, gparent: Node, ghost c: Ctx, ghost t: Tree, ghost h: int)
      returns (next: Node, ghost c': Ctx, ghost t': Tree, ghost h': int)
      requires At(c, t) && InsertInv(c, t, h) && t.node == rbe
      requires RedAbove(c) && c.node == parent && c.up.InL? && c.up.node == gparent
      modifies `root, `links, links.Keys
      ensures At(c', t') && InsertInv(c', t', h') && t'.node == next
      ensures Elements(c', t') == Elements(c, t) && Depth(c') < Depth(c)
      ensures links.Keys == old(links.Keys)
    {
      ghost var g, P := c.up, Fill(c, t);
      GrandparentBlack(c, t, h);
      Side(links, root, c, t);
      Up(links, root, c, t);
      Up(links, root, g, P);
      var tmp := gparent.right;
      if tmp != null && tmp.color == Red {
        UncleRed(c, t, h);
        Flip(parent, tmp, gparent, g.up, Fill(g, P));
        return gparent, g.up, UncleRecolored(c, t), h + 1;
      }
      UncleBlack(c, t, h);
      UncleBlackOrder(c, t);
      var par := parent;
      next := rbe;
      if parent.right == rbe {
        RotateLeft(parent, g, P);
        par, next := rbe, parent;
        P := RotatedLeft(P);
        Up(links, root, g, P);
      }
      RaiseLeft(par, gparent, g.up, Fill(g, P));
      h' := h;
      c', t' := UncleRotated(c, t).0, UncleRotated(c, t).1;
      Up(links, root, c', t');
    }

    /** One round of the insertion loop below a grandparent whose right child is the red parent. */
    method InsertFixRight(rbe: Node, parent: Node, gparent: Node, ghost c: Ctx, ghost t: Tree, ghost h: int)
      returns (next: Node, ghost c': Ctx, ghost t': Tree, ghost h': int)
      requires At(c, t) && InsertInv(c, t, h) && t.node == rbe
      requires RedAbove(c) && c.node == parent && c.up.InR? && c.up.node == gparent
      modifies `root, `links, links.Keys
      ensures At(c', t') && InsertInv(c', t', h') && t'.node == next
      ensures Elements(c', t') == Elements(c, t) && Depth(c') < Depth(c)
      ensures links.Keys == old(links.Keys)
    {
      ghost var g, P := c.up, Fill(c, t);
      GrandparentBlack(c, t, h);
      Side(links, root, c, t);
      Up(links, root, c, t);
      Up(links, root, g, P);
      var tmp := gparent.left;
      if tmp != null && tmp.color == Red {
        UncleRed(c, t, h);
        Flip(tmp, parent, gparent, g.up, Fill(g, P));
        return gparent, g.up, UncleRecolored(c, t), h + 1;
      }
      UncleBlack(c, t, h);
      UncleBlackOrder(c, t);
      var par := parent;
      next := rbe;
      if parent.left == rbe {
        RotateRight(parent, g, P);
        par, next := rbe, parent;
        P := RotatedRight(P);
        Up(links, root, g, P);
      }
      RaiseRight(par, gparent, g.up, Fill(g, P));
      h' := h;
      c', t' := UncleRotated(c, t).0, UncleRotated(c, t).1;
      Up(links, root, c', t');
    }

    /** The root is blackened last; only a red node that reached the top is changed by that. */
    method BlackenRoot(ghost c: Ctx, ghost t: Tree, ghost h: int) returns (ghost r: Tree)
      requires At(c, t) && InsertInv(c, t, h) && !RedAbove(c)
      modifies `links, links.Keys
      ensures At(Top, r) && RedBlack(r) && Inorder(r) == Elements(c, t)
      ensures links.Keys == old(links.Keys)
    {
      InsertDone(c, t, h);
      PlugInorder(c, t);
      Whole(links, root, c, t);
      r := Plug(c, t);
      Paint(root, Black, Top, r);
      r := r.(color := Black);
    }

    method InsertColor(elm: Node, ghost c0: Ctx, ghost t0: Tree, ghost h0: int) returns (ghost r: Tree)
      requires At(c0, t0) && InsertInv(c0, t0, h0) && t0.node == elm
      modifies `root, `links, links.Keys
      ensures At(Top, r) && RedBlack(r) && Inorder(r) == Elements(c0, t0)
      ensures links.Keys == old(links.Keys)
    {
      var rbe := elm;
      ghost var c, t, h := c0, t0, h0;
      var parent := rbe.parent;
      while parent != null && parent.color == Red
        invariant At(c, t) && InsertInv(c, t, h) && t.node == rbe && parent == ParentOf(c)
        invariant Elements(c, t) == Elements(c0, t0)
        invariant links.Keys == old(links.Keys)
        decreases Depth(c)
      {
        GrandparentBlack(c, t, h);
        Up(links, root, c, t);
        Side(links, root, c.up, Fill(c, t));
        var gparent := parent.parent;
        if parent == gparent.left {
          rbe, c, t, h := InsertFixLeft(rbe, parent, gparent, c, t, h);
        } else {
          rbe, c, t, h := InsertFixRight(rbe, parent, gparent, c, t, h);
        }
        parent := rbe.parent;
      }
      r := BlackenRoot(c, t, h);
    }

    /** `rbe_set`: a node that is in no tree becomes a red leaf below `parent`. */
    method SetEntry(elm: Node, parent: Node?)
      requires Agrees()
      modifies `links, elm`left, elm`right, elm`parent, elm`color
      ensures Agrees() && links == old(links)[elm := Cell(null, null, parent, Red)]
    {
      elm.parent := parent;
      elm.left, elm.right := null, null;
      elm.color := Red;
      links := links[elm := Cell(null, null, parent, Red)];
    }

    /** Hang a new red node into the empty slot of `c`; `comp` tells the side. */
    method Attach(elm: Node, parent: Node?, comp: int, ghost c: Ctx)
      requires At(c, Leaf) && elm !in CtxNodes(c) && parent == ParentOf(c)
      requires (c.InL? ==> comp < 0) && (c.InR? ==> comp > 0)
      modifies `root, `links, links.Keys, elm
      ensures At(c, Br(Leaf, elm, Red, Leaf)) && links.Keys == old(links.Keys) + {elm}
    {
      assert c != Top ==> c.node in CtxNodes(c);
      SetEntry(elm, parent);
      if parent != null {
        if comp < 0 {
          SetLeft(parent, elm);
        } else {
          SetRight(parent, elm);
        }
      } else {
        root := elm;
      }
      Attached(old(links), links, old(root), root, c, elm);
    }

    /** The descent of `_rb_insert`: the element with an equal key, or the empty slot where it belongs. */
    method Search(key: int) returns (node: Node?, parent: Node?, comp: int, ghost c: Ctx)
      requires Valid()
      ensures node != null ==> node in Contents() && compare(key, node.key) == 0
      ensures node == null ==>
        && At(c, Leaf) && Plug(c, Leaf) == tree && parent == ParentOf(c) && Between(compare, c, key)
        && (c.InL? ==> comp < 0) && (c.InR? ==> comp > 0)
    {
      var tmp := root;
      parent, comp := null, 0;
      ghost var t := tree;
      c := Top;
      while tmp != null
        invariant At(c, t) && RootOf(t) == tmp && ParentOf(c) == parent && Plug(c, t) == tree
        invariant Between(compare, c, key) && Sorted(compare, Inorder(t))
        invariant (c.InL? ==> comp < 0) && (c.InR? ==> comp > 0)
        decreases t
      {
        parent := tmp;
        comp := compare(key, tmp.key);
        SearchStep(compare, c, t, key);
        if comp < 0 {
          tmp := tmp.left;
          c, t := Below(c, t, true), t.left;
        } else if comp > 0 {
          tmp := tmp.right;
          c, t := Below(c, t, false), t.right;
        } else {
          PlugInorder(c, t);
          return tmp, parent, comp, c;
        }
        Up(links, root, c, t);
      }
      node := null;
    }

    /** The second half of `_rb_insert`: the new element fills the slot and the colours are repaired. */
    method InsertAt(elm: Node, parent: Node?, comp: int, ghost c: Ctx)
      requires Valid() && At(c, Leaf) && Plug(c, Leaf) == tree && parent == ParentOf(c)
      requires Between(compare, c, elm.key) && elm !in links
      requires (c.InL? ==> comp < 0) && (c.InR? ==> comp > 0)
      modifies this, links.Keys, elm
      ensures Valid() && Contents() == Before(c) + [elm] + After(c)
      ensures links.Keys == old(links.Keys) + {elm}
    {
      PlugNodes(c, Leaf);
      PlugNodes(c, Br(Leaf, elm, Red, Leaf));
      PlugInorder(c, Leaf);
      PlugInorder(c, Br(Leaf, elm, Red, Leaf));
      SlotFits(c, elm);
      InsertedAt(compare, c, elm);
      Attach(elm, parent, comp, c);
      ghost var r := InsertColor(elm, c, Br(Leaf, elm, Red, Leaf), 0);
      SameOrderSameNodes(r, Plug(c, Br(Leaf, elm, Red, Leaf)));
      tree := r;
    }

    /** `_rb_insert`. On a key that is present nothing changes; otherwise `elm` goes to its place `pos`. */
    method Insert(elm: Node) returns (r: Node?, ghost pos: nat)
      requires Valid()
      modifies this, links.Keys, elm
      ensures Valid()
      ensures r == null <==> forall x :: x in old(Contents()) ==> compare(elm.key, x.key) != 0
      ensures r != null ==> r in old(Contents()) && compare(elm.key, r.key) == 0
      ensures r != null ==>
        unchanged(this) && unchanged(old(links.Keys)) && unchanged(elm) && Contents() == old(Contents())
      ensures r == null ==>
        pos <= |old(Contents())| && Contents() == old(Contents())[..pos] + [elm] + old(Contents())[pos..]
      ensures r == null ==> links.Keys == old(links.Keys) + {elm}
    {
      pos := 0;
      var parent, comp;
      ghost var c;
      r, parent, comp, c := Search(elm.key);
      if r == null {
        PlugInorder(c, Leaf);
        forall x | x in Contents() ensures compare(elm.key, x.key) != 0 {
          NotFound(compare, c, elm.key, x);
        }
        InorderNodes(tree, elm);
        InsertedAt(compare, c, elm);
        pos := |Before(c)|;
        InsertAt(elm, parent, comp, c);
      }
    }

    /** The sibling takes the parent's colour, parent and outer nephew turn black, the parent is rotated. */
    method RepairLeft(parent: Node, tmp: Node, ghost d: Ctx, ghost T: Tree)
      requires At(d, T) && T.Br? && T.node == parent && T.right.Br? && T.right.node == tmp
      modifies `root, `links, links.Keys
      ensures At(d, Br(Br(T.left, parent, Black, T.right.left), tmp, T.color, Painted(T.right.right, Black)))
      ensures links.Keys == old(links.Keys)
    {
      PaintRight(tmp, parent.color, d, T);
      ghost var T1 := T.(right := T.right.(color := T.color));
      Paint(parent, Black, d, T1);
      ghost var T2 := T1.(color := Black);
      ghost var e := InR(T2.left, parent, Black, d);
      Up(links, root, e, T2.right);
      if tmp.right != null {
        PaintRight(tmp.right, Black, e, T2.right);
      }
      ghost var s := T2.right.(right := Painted(T2.right.right, Black));
      Up(links, root, e, s);
      RotateLeft(parent, d, T2.(right := s));
    }

    /** The removal loop on a left child whose sibling is black. */
    method RemoveBlackLeft(parent: Node, sibling: Node, ghost c: Ctx, ghost t: Tree, ghost h: int)
      returns (done: bool, rbe: Node?, above: Node?, ghost c': Ctx, ghost t': Tree, ghost h': int)
      requires At(c, t) && RemoveInv(c, t, h) && !IsRed(t)
      requires c.InL? && c.node == parent && c.right.Br? && c.right.node == sibling && !IsRed(c.right)
      modifies `root, `links, links.Keys
      ensures At(c', t') && RemoveInv(c', t', h') && RootOf(t') == rbe && Elements(c', t') == Elements(c, t)
      ensures if done then c' == Top else c' == c.up && IsRed(t') == c.color.Red? && ParentOf(c') == above
      ensures links.Keys == old(links.Keys)
    {
      ghost var T := Fill(c, t);
      Up(links, root, c, t);
      ChildColors(links, c.right, parent);
      var tmp := sibling;
      if (tmp.left == null || tmp.left.color == Black) && (tmp.right == null || tmp.right.color == Black) {
        BlackChildren(c, t, h);
        PaintRight(tmp, Red, c.up, T);
        return false, parent, parent.parent, c.up, ShortageUp(c, t), h + One(c.color);
      }
      Turned(c, t, h);
      ghost var d := SiblingTurned(c);
      RedOuterChild(d, t, h);
      if tmp.right == null || tmp.right.color == Black {
        ghost var e := InR(t, parent, c.color, c.up);
        Up(links, root, e, c.right);
        RaiseLeft(tmp.left, tmp, e, c.right);
        Up(links, root, e, d.right);
        tmp := parent.right;
      }
      RepairLeft(parent, tmp, c.up, Fill(d, t));
      ghost var r := Repaired(d, t);
      Whole(links, root, c.up, r);
      Settled(c.up, r);
      return true, root, null, Top, Plug(c.up, r), BlackHeight(Plug(c.up, r));
    }

    /** One round of the removal loop on a left child. */
    method RemoveFixLeft(parent: Node, ghost c: Ctx, ghost t: Tree, ghost h: int)
      returns (done: bool, rbe: Node?, above: Node?, ghost c': Ctx, ghost t': Tree, ghost h': int)
      requires At(c, t) && RemoveInv(c, t, h) && !IsRed(t) && c.InL? && c.node == parent
      modifies `root, `links, links.Keys
      ensures At(c', t') && RemoveInv(c', t', h') && RootOf(t') == rbe && Elements(c', t') == Elements(c, t)
      ensures done ==> c' == Top
      ensures !done ==> ParentOf(c') == above && (Depth(c') < Depth(c) || (Depth(c') == Depth(c) && IsRed(t')))
      ensures links.Keys == old(links.Keys)
    {
      SiblingExists(c, t, h);
      ghost var d := c;
      var tmp := parent.right;
      if tmp.color == Red {
        RedSibling(c, t, h);
        Up(links, root, c, t);
        RaiseRight(tmp, parent, c.up, Fill(c, t));
        d := RedSiblingMoved(c);
        SiblingExists(d, t, h);
        Up(links, root, d.up, Fill(d, t));
        Up(links, root, d, t);
        tmp := parent.right;
      }
      done, rbe, above, c', t', h' := RemoveBlackLeft(parent, tmp, d, t, h);
    }

    /** The sibling takes the parent's colour, parent and outer nephew turn black, the parent is rotated. */
    method RepairRight(parent: Node, tmp: Node, ghost d: Ctx, ghost T: Tree)
      requires At(d, T) && T.Br? && T.node == parent && T.left.Br? && T.left.node == tmp
      modifies `root, `links, links.Keys
      ensures At(d, Br(Painted(T.left.left, Black), tmp, T.color, Br(T.left.right, parent, Black, T.right)))
      ensures links.Keys == old(links.Keys)
    {
      PaintLeft(tmp, parent.color, d, T);
      ghost var T1 := T.(left := T.left.(color := T.color));
      Paint(parent, Black, d, T1);
      ghost var T2 := T1.(color := Black);
      ghost var e := InL(parent, Black, T2.right, d);
      Up(links, root, e, T2.left);
      if tmp.left != null {
        PaintLeft(tmp.left, Black, e, T2.left);
      }
      ghost var s := T2.left.(left := Painted(T2.left.left, Black));
      Up(links, root, e, s);
      RotateRight(parent, d, T2.(left := s));
    }

    /** The removal loop on a right child whose sibling is black. */
    method RemoveBlackRight(parent: Node, sibling: Node, ghost c: Ctx, ghost t: Tree, ghost h: int)
      returns (done: bool, rbe: Node?, above: Node?, ghost c': Ctx, ghost t': Tree, ghost h': int)
      requires At(c, t) && RemoveInv(c, t, h) && !IsRed(t)
      requires c.InR? && c.node == parent && c.left.Br? && c.left.node == sibling && !IsRed(c.left)
      modifies `root, `links, links.Keys
      ensures At(c', t') && RemoveInv(c', t', h') && RootOf(t') == rbe && Elements(c', t') == Elements(c, t)
      ensures if done then c' == Top else c' == c.up && IsRed(t') == c.color.Red? && ParentOf(c') == above
      ensures links.Keys == old(links.Keys)
    {
      ghost var T := Fill(c, t);
      Up(links, root, c, t);
      ChildColors(links, c.left, parent);
      var tmp := sibling;
      if (tmp.left == null || tmp.left.color == Black) && (tmp.right == null || tmp.right.color == Black) {
        BlackChildren(c, t, h);
        PaintLeft(tmp, Red, c.up, T);
        return false, parent, parent.parent, c.up, ShortageUp(c, t), h + One(c.color);
      }
      Turned(c, t, h);
      ghost var d := SiblingTurned(c);
      RedOuterChild(d, t, h);
      if tmp.left == null || tmp.left.color == Black {
        ghost var e := InL(parent, c.color, t, c.up);
        Up(links, root, e, c.left);
        RaiseRight(tmp.right, tmp, e, c.left);
        Up(links, root, e, d.left);
        tmp := parent.left;
      }
      RepairRight(parent, tmp, c.up, Fill(d, t));
      ghost var r := Repaired(d, t);
      Whole(links, root, c.up, r);
      Settled(c.up, r);
      return true, root, null, Top, Plug(c.up, r), BlackHeight(Plug(c.up, r));
    }

    /** One round of the removal loop on a right child. */
    method RemoveFixRight(parent: Node, ghost c: Ctx, ghost t: Tree, ghost h: int)
      returns (done: bool, rbe: Node?, above: Node?, ghost c': Ctx, ghost t': Tree, ghost h': int)
      requires At(c, t) && RemoveInv(c, t, h) && !IsRed(t) && c.InR? && c.node == parent
      modifies `root, `links, links.Keys
      ensures At(c', t') && RemoveInv(c', t', h') && RootOf(t') == rbe && Elements(c', t') == Elements(c, t)
      ensures done ==> c' == Top
      ensures !done ==> ParentOf(c') == above && (Depth(c') < Depth(c) || (Depth(c') == Depth(c) && IsRed(t')))
      ensures links.Keys == old(links.Keys)
    {
      SiblingExists(c, t, h);
      ghost var d := c;
      var tmp := parent.left;
      if tmp.color == Red {
        RedSibling(c, t, h);
        Up(links, root, c, t);
        RaiseLeft(tmp, parent, c.up, Fill(c, t));
        d := RedSiblingMoved(c);
        SiblingExists(d, t, h);
        Up(links, root, d.up, Fill(d, t));
        Up(links, root, d, t);
        tmp := parent.left;
      }
      done, rbe, above, c', t', h' := RemoveBlackRight(parent, tmp, d, t, h);
    }

    /** `rbe_remove_color`: `rbe`, possibly NULL, hangs one black node short below `parent`. */
    method RemoveColor(parent0: Node?, rbe0: Node?, ghost c0: Ctx, ghost t0: Tree, ghost h0: int)
      returns (ghost r: Tree)
      requires At(c0, t0) && RemoveInv(c0, t0, h0) && RootOf(t0) == rbe0 && ParentOf(c0) == parent0
      modifies `root, `links, links.Keys
      ensures At(Top, r) && RedBlack(r) && Inorder(r) == Elements(c0, t0)
      ensures links.Keys == old(links.Keys)
    {
      var parent, rbe := parent0, rbe0;
      ghost var c, t, h := c0, t0, h0;
      RootAtTop(links, root, c, t);
      while (rbe == null || rbe.color == Black) && rbe != root
        invariant At(c, t) && RemoveInv(c, t, h) && RootOf(t) == rbe && Elements(c, t) == Elements(c0, t0)
        invariant c == Top <==> rbe == root
        invariant c != Top ==> parent == c.node
        invariant links.Keys == old(links.Keys)
        decreases Depth(c), if IsRed(t) then 0 else 1
      {
        SiblingExists(c, t, h);
        var done;
        LeftSlot(links, root, c, t);
        if parent.left == rbe {
          done, rbe, parent, c, t, h := RemoveFixLeft(parent, c, t, h);
        } else {
          done, rbe, parent, c, t, h := RemoveFixRight(parent, c, t, h);
        }
        RootAtTop(links, root, c, t);
        if done {
          break;
        }
      }
      r := BlackenFocus(rbe, c, t, h);
    }

    /** The node where the loop stopped, if any, is blackened. */
    method BlackenFocus(rbe: Node?, ghost c: Ctx, ghost t: Tree, ghost h: int) returns (ghost r: Tree)
      requires At(c, t) && RemoveInv(c, t, h) && RootOf(t) == rbe && (IsRed(t) || c == Top)
      modifies `links, links.Keys
      ensures At(Top, r) && RedBlack(r) && Inorder(r) == Elements(c, t)
      ensures links.Keys == old(links.Keys)
    {
      RemoveDone(c, t, h);
      if rbe != null {
        Paint(rbe, Black, c, t);
      }
      r := Plug(c, Painted(t, Black));
      PlugInorder(c, Painted(t, Black));
      Whole(links, root, c, Painted(t, Black));
    }

    /** A node leaves the tree and its only child, if it has one, moves up. */
    method Unlink(rbe: Node, child: Node?, parent: Node?, ghost c: Ctx, ghost t: Tree)
      requires At(c, t) && t.Br? && t.node == rbe && (t.left.Leaf? || t.right.Leaf?)
      requires child == RootOf(OnlyChild(t)) && parent == ParentOf(c)
      modifies `root, `links, links.Keys - {rbe}
      ensures At(c, OnlyChild(t)) && links.Keys == old(links.Keys) - {rbe}
    {
      ghost var k := OnlyChild(t);
      assert Shape(links, k, rbe) && (k.Br? ==> k.node in Nodes(k));
      assert c != Top ==> c.node in CtxNodes(c);
      ghost var m := links;
      Adopt(child, parent);
      Relink(parent, rbe, child);
      links := links - {rbe};
      Spliced(m, links, old(root), root, c, t, k);
    }

    /** `x`, which is in no tree, takes the place of `gone`, links and colour included. */
    method Replace(gone: Node, x: Node, ghost c: Ctx, ghost t: Tree)
      requires At(c, t) && t.Br? && t.node == gone && x !in links && x !in Nodes(t) && x !in CtxNodes(c)
      modifies `root, `links, links.Keys, x
      ensures At(c, Br(t.left, x, t.color, t.right)) && links.Keys == old(links.Keys) - {gone} + {x}
    {
      NeighboursOf(links, root, c, t);
      ReplaceWrites(gone, x, RootOf(t.left), RootOf(t.right), ParentOf(c));
      Replaced(old(links), links, old(root), root, c, t, x);
    }

    method ReplaceWrites(gone: Node, x: Node, ghost l: Node?, ghost r: Node?, ghost p: Node?)
      requires Agrees() && Neighbours(links, gone, l, r, p) && x !in links
      modifies `root, `links, links.Keys, x
      ensures Agrees() && ReplacedBy(old(links), links, gone, x, l, r, p)
      ensures root == if p == null then x else old(root)
    {
      ghost var m := links;
      x.parent, x.left, x.right, x.color := gone.parent, gone.left, gone.right, gone.color;
      links := links[x := links[gone]];
      ghost var m1 := links;
      Relink(gone.parent, gone, x);
      ghost var m2 := links;
      assert m2[gone] == m[gone];
      Adopt(gone.left, x);
      ghost var m3 := links;
      assert m3[gone] == m[gone];
      Adopt(gone.right, x);
      ghost var m4 := links;
      links := links - {gone};
      assert ReplacedBy(m, links, gone, x, l, r, p) by {
        ReplacedByWrites(m, m1, m2, m3, m4, links, gone, x, l, r, p);
      }
    }

    /** The descent to the leftmost node of the right subtree. */
    method Successor(gone: Node, ghost c: Ctx, ghost t: Tree) returns (rbe: Node, ghost p: Ctx, ghost u: Tree)
      requires At(c, t) && t.Br? && t.node == gone && t.right.Br?
      ensures u.Br? && u.node == rbe && u.left.Leaf? && Leftmost(p) && Plug(p, u) == t.right
      ensures At(Append(p, InR(t.left, gone, t.color, c)), u)
    {
      rbe := gone.right;
      p, u := Top, t.right;
      ghost var base := InR(t.left, gone, t.color, c);
      Up(links, root, base, t.right);
      while rbe.left != null
        invariant At(Append(p, base), u) && u.Br? && u.node == rbe && Leftmost(p) && Plug(p, u) == t.right
        decreases u
      {
        rbe := rbe.left;
        p, u := InL(u.node, u.color, u.right, p), u.left;
        Up(links, root, Append(p, base), u);
      }
    }

    /** The successor is unlinked and takes the place of the node to remove. */
    method MoveSuccessor(gone: Node, rbe: Node, ghost p: Ctx, ghost c: Ctx, ghost t: Tree, ghost u: Tree)
      returns (child: Node?, parent: Node?, color: Color)
      requires t.Br? && t.node == gone && u.Br? && u.node == rbe && u.left.Leaf? && Plug(p, u) == t.right
      requires At(Append(p, InR(t.left, gone, t.color, c)), u) && Distinct(t) && Nodes(t) !! CtxNodes(c)
      requires rbe in links && gone in links
      modifies `root, `links, links.Keys
      ensures At(Append(p, InR(t.left, rbe, t.color, c)), u.right)
      ensures child == RootOf(u.right) && parent == ParentOf(Append(p, InR(t.left, rbe, t.color, c)))
      ensures color == u.color && links.Keys == old(links.Keys) - {gone}
    {
      ghost var base, base' := InR(t.left, gone, t.color, c), InR(t.left, rbe, t.color, c);
      ghost var r := Plug(p, u.right);
      SuccessorApart(p, c, t, u);
      child, parent, color := rbe.right, rbe.parent, rbe.color;
      Unlink(rbe, child, parent, Append(p, base), u);
      Refocus(links, root, p, base, u.right);
      Up(links, root, base, r);
      if rbe.parent == gone {
        parent := rbe;
      }
      Replace(gone, rbe, c, Br(t.left, gone, t.color, r));
      Up(links, root, base', r);
      Refocus(links, root, p, base', u.right);
    }

    /** A node with two children leaves the tree. */
    method RemoveInner(gone: Node, ghost c: Ctx, ghost t: Tree)
      returns (child: Node?, parent: Node?, color: Color, ghost C: Ctx, ghost k: Tree, ghost h: int)
      requires At(c, t) && t.Br? && t.node == gone && t.left.Br? && t.right.Br? && RedBlack(Plug(c, t))
      modifies `root, `links, links.Keys
      ensures At(C, k) && RootOf(k) == child && ParentOf(C) == parent && links.Keys == old(links.Keys) - {gone}
      ensures (color.Red? ==> RedBlack(Plug(C, k))) && (color.Black? ==> RemoveInv(C, k, h))
      ensures Removed(c, t, C, k)
    {
      var rbe;
      ghost var p, u;
      rbe, p, u := Successor(gone, c, t);
      InnerRemoved(p, c, t, u);
      C, k, h := Append(p, InR(t.left, rbe, t.color, c)), u.right, BlackHeight(u) - 1;
      child, parent, color := MoveSuccessor(gone, rbe, p, c, t, u);
    }

    /** A node with at most one child leaves the tree. */
    method RemoveOuter(gone: Node, child: Node?, ghost c: Ctx, ghost t: Tree) returns (parent: Node?, color: Color)
      requires At(c, t) && t.Br? && t.node == gone && (t.left.Leaf? || t.right.Leaf?)
      requires child == RootOf(OnlyChild(t))
      modifies `root, `links, links.Keys
      ensures At(c, OnlyChild(t)) && links.Keys == old(links.Keys) - {gone}
      ensures parent == ParentOf(c) && color == t.color
    {
      parent, color := gone.parent, gone.color;
      Unlink(gone, child, parent, c, t);
    }

    /** `rbe_remove` without its last step: what is left is a tree that may lack one black node at `C`. */
    method Extract(elm: Node, ghost c: Ctx, ghost t: Tree)
      returns (child: Node?, parent: Node?, color: Color, ghost C: Ctx, ghost k: Tree, ghost h: int)
      requires At(c, t) && t.Br? && t.node == elm && RedBlack(Plug(c, t))
      modifies `root, `links, links.Keys
      ensures At(C, k) && RootOf(k) == child && ParentOf(C) == parent && links.Keys == old(links.Keys) - {elm}
      ensures (color.Red? ==> RedBlack(Plug(C, k))) && (color.Black? ==> RemoveInv(C, k, h))
      ensures Removed(c, t, C, k)
    {
      if elm.left == null {
        child := elm.right;
      } else if elm.right == null {
        child := elm.left;
      } else {
        child, parent, color, C, k, h := RemoveInner(elm, c, t);
        return;
      }
      OuterRemoved(c, t);
      C, k, h := c, OnlyChild(t), BlackHeight(t) - 1;
      parent, color := RemoveOuter(elm, child, c, t);
    }

    /** The last step of `rbe_remove`: a black node was taken out, so the colours are repaired. */
    method Rebalance(child: Node?, parent: Node?, color: Color, ghost C: Ctx, ghost k: Tree, ghost h: int)
      returns (ghost w: Tree)
      requires At(C, k) && RootOf(k) == child && ParentOf(C) == parent
      requires (color.Red? ==> RedBlack(Plug(C, k))) && (color.Black? ==> RemoveInv(C, k, h))
      modifies `root, `links, links.Keys
      ensures At(Top, w) && RedBlack(w) && Inorder(w) == Elements(C, k) && links.Keys == old(links.Keys)
    {
      PlugInorder(C, k);
      Whole(links, root, C, k);
      w := Plug(C, k);
      if color == Black {
        w := RemoveColor(parent, child, C, k, h);
      }
    }

    /** `rbe_remove`. */
    method RemoveEntry(elm: Node, ghost c: Ctx, ghost t: Tree) returns (ghost w: Tree)
      requires At(c, t) && t.Br? && t.node == elm && RedBlack(Plug(c, t))
      modifies `root, `links, links.Keys
      ensures At(Top, w) && RedBlack(w) && Removed(c, t, Top, w) && links.Keys == old(links.Keys) - {elm}
    {
      var child, parent, color;
      ghost var C, k, h;
      child, parent, color, C, k, h := Extract(elm, c, t);
      w := Rebalance(child, parent, color, C, k, h);
      ElementsTop(w);
    }

    /** Every element can be looked at in its place. */
    lemma Focus(elm: Node) returns (c: Ctx, t: Tree)
      requires At(Top, tree) && elm in Contents()
      ensures At(c, t) && Plug(c, t) == tree && t.Br? && t.node == elm
    {
      InorderNodes(tree, elm);
      c, t := Locate(Top, tree, elm);
      Whole(links, root, c, t);
    }

    /** `_rb_remove`: exactly `elm` leaves the sequence of elements. */
    method Remove(elm: Node) returns (r: Node, ghost pos: nat)
      requires Valid() && elm in Contents()
      modifies this, links.Keys
      ensures Valid() && r == elm
      ensures pos < |old(Contents())| && old(Contents())[pos] == elm
      ensures Contents() == old(Contents())[..pos] + old(Contents())[pos + 1..]
      ensures links.Keys == old(links.Keys) - {elm}
    {
      ghost var c, t := Focus(elm);
      ghost var before := tree;
      ghost var w := RemoveEntry(elm, c, t);
      RemovedFrom(compare, before, c, t, w);
      Install(w);
      return elm, Rank(c, t);
    }

    /** The structure in memory is that of a valid tree: it becomes the tree. */
    ghost method Install(w: Tree)
      requires IsOrder(compare) && At(Top, w) && links.Keys == Nodes(w) && RedBlack(w) && Sorted(compare, Inorder(w))
      modifies `tree
      ensures Valid() && Contents() == Inorder(w)
    {
      tree := w;
    }

    /** `_rb_find` decides whether an element with the given key is present. */
    method Find(key: int) returns (r: Node?)
      requires Valid()
      ensures r == null <==> forall x :: x in Contents() ==> compare(key, x.key) != 0
      ensures r != null ==> r in Contents() && compare(key, r.key) == 0
    {
      var tmp := root;
      ghost var c, t := Top, tree;
      while tmp != null
        invariant At(c, t) && RootOf(t) == tmp && Plug(c, t) == tree
        invariant Between(compare, c, key) && Sorted(compare, Inorder(t))
        decreases t
      {
        var comp := compare(key, tmp.key);
        SearchStep(compare, c, t, key);
        if comp < 0 {
          tmp := tmp.left;
          c, t := Below(c, t, true), t.left;
        } else if comp > 0 {
          tmp := tmp.right;
          c, t := Below(c, t, false), t.right;
        } else {
          PlugInorder(c, t);
          return tmp;
        }
        Up(links, root, c, t);
      }
      PlugInorder(c, Leaf);
      forall x | x in Contents() ensures compare(key, x.key) != 0 {
        NotFound(compare, c, key, x);
      }
      return null;
    }

    /** `_rb_nfind`: the first element, in order, that is not below the key. */
    method NFind(key: int) returns (res: Node?, ghost pos: nat)
      requires Valid()
      ensures Splits(compare, Contents(), key, pos)
      ensures res == if pos < |Contents()| then Contents()[pos] else null
    {
      var tmp := root;
      res := null;
      ghost var c, t := Top, tree;
      while tmp != null
        invariant At(c, t) && RootOf(t) == tmp && Plug(c, t) == tree
        invariant Between(compare, c, key) && Sorted(compare, Inorder(t))
        invariant res == if After(c) == [] then null else After(c)[0]
        decreases t
      {
        var comp := compare(key, tmp.key);
        SearchStep(compare, c, t, key);
        if comp < 0 {
          res := tmp;
          tmp := tmp.left;
          c, t := Below(c, t, true), t.left;
        } else if comp > 0 {
          tmp := tmp.right;
          c, t := Below(c, t, false), t.right;
        } else {
          PlugInorder(c, t);
          RankAt(c, t);
          SplitsAtEqual(compare, Contents(), key, Rank(c, t));
          return tmp, Rank(c, t);
        }
        Up(links, root, c, t);
      }
      PlugInorder(c, Leaf);
      SplitsAtSlot(compare, c, key);
      pos := |Before(c)|;
    }

    /** `_rb_min` and `_rb_max`: the two ends of the sequence. */
    method Min() returns (parent: Node?)
      requires Valid()
      ensures parent == if Contents() == [] then null else Contents()[0]
    {
      var rbe := root;
      parent := null;
      ghost var c, t := Top, tree;
      while rbe != null
        invariant At(c, t) && RootOf(t) == rbe && ParentOf(c) == parent && Plug(c, t) == tree && Leftmost(c)
        decreases t
      {
        parent := rbe;
        rbe := rbe.left;
        c, t := Below(c, t, true), t.left;
        Up(links, root, c, t);
      }
      PlugInorder(c, Leaf);
      LeftmostBefore(c);
    }

    method Max() returns (parent: Node?)
      requires Valid()
      ensures parent == if Contents() == [] then null else Contents()[|Contents()| - 1]
    {
      var rbe := root;
      parent := null;
      ghost var c, t := Top, tree;
      while rbe != null
        invariant At(c, t) && RootOf(t) == rbe && ParentOf(c) == parent && Plug(c, t) == tree && Rightmost(c)
        decreases t
      {
        parent := rbe;
        rbe := rbe.right;
        c, t := Below(c, t, false), t.right;
        Up(links, root, c, t);
      }
      PlugInorder(c, Leaf);
      RightmostAfter(c);
    }

    /** `_rb_next`: the element after `elm` in the sequence, or none. */
    method Next(elm: Node, ghost i: nat) returns (r: Node?)
      requires Valid() && i < |Contents()| && Contents()[i] == elm
      ensures r == if i + 1 < |Contents()| then Contents()[i + 1] else null
    {
      var rbe := elm;
      ghost var c, t := Focus(elm);
      RankUnique(compare, tree, c, t, i);
      NextPlace(c, t);
      if rbe.right != null {
        ghost var p, u;
        r, p, u := Successor(elm, c, t);
        FirstOut(p, u);
      } else {
        Above(links, root, c, t);
        if rbe.parent != null && rbe == rbe.parent.left {
          r := rbe.parent;
        } else {
          ghost var d, v := c, t;
          while rbe.parent != null && rbe == rbe.parent.right
            invariant At(d, v) && v.Br? && v.node == rbe && After(d) == After(c)
            decreases d
          {
            Above(links, root, d, v);
            rbe := rbe.parent;
            d, v := d.up, Fill(d, v);
          }
          Above(links, root, d, v);
          r := rbe.parent;
        }
      }
    }

    method Predecessor(elm: Node, ghost c: Ctx, ghost t: Tree) returns (rbe: Node, ghost p: Ctx, ghost u: Tree)
      requires At(c, t) && t.Br? && t.node == elm && t.left.Br?
      ensures u.Br? && u.node == rbe && u.right.Leaf? && Rightmost(p) && Plug(p, u) == t.left
    {
      rbe := elm.left;
      p, u := Top, t.left;
      ghost var base := InL(elm, t.color, t.right, c);
      Up(links, root, base, t.left);
      while rbe.right != null
        invariant At(Append(p, base), u) && u.Br? && u.node == rbe && Rightmost(p) && Plug(p, u) == t.left
        decreases u
      {
        rbe := rbe.right;
        p, u := InR(u.left, u.node, u.color, p), u.right;
        Up(links, root, Append(p, base), u);
      }
    }

    /** `_rb_prev`: the element before `elm` in the sequence, or none. */
    method Prev(elm: Node, ghost i: nat) returns (r: Node?)
      requires Valid() && i < |Contents()| && Contents()[i] == elm
      ensures r == if i > 0 then Contents()[i - 1] else null
    {
      var rbe := elm;
      ghost var c, t := Focus(elm);
      RankUnique(compare, tree, c, t, i);
      PrevPlace(c, t);
      if rbe.left != null {
        ghost var p, u;
        r, p, u := Predecessor(elm, c, t);
        LastOut(p, u);
      } else {
        Above(links, root, c, t);
        if rbe.parent != null && rbe == rbe.parent.right {
          r := rbe.parent;
        } else {
          ghost var d, v := c, t;
          while rbe.parent != null && rbe == rbe.parent.left
            invariant At(d, v) && v.Br? && v.node == rbe && Before(d) == Before(c)
            decreases d
          {
            Above(links, root, d, v);
            rbe := rbe.parent;
            d, v := d.up, Fill(d, v);
          }
          Above(links, root, d, v);
          r := rbe.parent;
        }
      }
    }

    /** `RBT_FOREACH` and `RBT_FOREACH_REVERSE`: every element once, in order. */
    method Ascending() returns (visited: seq<Node>)
      requires Valid()
      ensures visited == Contents()
    {
      visited := [];
      var e := Min();
      while e != null
        invariant |visited| <= |Contents()| && visited == Contents()[..|visited|]
        invariant e == if |visited| < |Contents()| then Contents()[|visited|] else null
        decreases |Contents()| - |visited|
      {
        var n := Next(e, |visited|);
        visited := visited + [e];
        e := n;
      }
    }

    method Descending() returns (visited: seq<Node>)
      requires Valid()
      ensures |visited| == |Contents()|
      ensures forall k :: 0 <= k < |visited| ==> visited[k] == Contents()[|Contents()| - 1 - k]
    {
      visited := [];
      var e := Max();
      while e != null
        invariant |visited| <= |Contents()|
        invariant forall k :: 0 <= k < |visited| ==> visited[k] == Contents()[|Contents()| - 1 - k]
        invariant e == if |visited| < |Contents()| then Contents()[|Contents()| - 1 - |visited|] else null
        decreases |Contents()| - |visited|
      {
        var n := Prev(e, |Contents()| - 1 - |visited|);
        visited := visited + [e];
        e := n;
      }
    }

    /** In every reachable state the height is at most 2 lg (n + 1). */
    lemma HeightIsLogarithmic()
      requires Valid()
      ensures Pow2(Height(tree)) <= (|Contents()| + 1) * (|Contents()| + 1)
    {
      HeightBound(tree);
    }
  }
}
