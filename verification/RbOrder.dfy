/** Sorted sequences of elements, and where a key falls in a tree seen from a hole. */
module RbOrder {
  import opened RbShape
  import opened RbBalance
  import opened RbFixup

  type Compare = (int, int) -> int

  /** Names three keys, so that transitivity is used only where a proof asks for it. */
  ghost predicate Chain(a: int, b: int, c: int) { true }

  /** What `t_compare` must be: the sign of a total preorder on the keys. */
  ghost predicate IsOrder(cmp: Compare) {
    && (forall a, b :: cmp(a, b) < 0 <==> cmp(b, a) > 0)
    && (forall a, b, c {:trigger Chain(a, b, c)} :: Chain(a, b, c) ==>
          && (cmp(a, b) <= 0 && cmp(b, c) <= 0 ==> cmp(a, c) <= 0)
          && (cmp(a, b) < 0 && cmp(b, c) <= 0 ==> cmp(a, c) < 0)
          && (cmp(a, b) <= 0 && cmp(b, c) < 0 ==> cmp(a, c) < 0))
  }

  /** Strictly ascending, so no two elements compare equal. */
  ghost predicate Sorted(cmp: Compare, s: seq<Node>) {
    forall i, j :: 0 <= i < j < |s| ==> cmp(s[i].key, s[j].key) < 0
  }

  ghost predicate AllBelow(cmp: Compare, s: seq<Node>, k: int) {
    forall i :: 0 <= i < |s| ==> cmp(s[i].key, k) < 0
  }

  ghost predicate AllAbove(cmp: Compare, k: int, s: seq<Node>) {
    forall i :: 0 <= i < |s| ==> cmp(k, s[i].key) < 0
  }

  lemma SortedSplit(cmp: Compare, a: seq<Node>, n: Node, b: seq<Node>)
    requires Sorted(cmp, a + [n] + b)
    ensures Sorted(cmp, a) && Sorted(cmp, b) && AllBelow(cmp, a, n.key) && AllAbove(cmp, n.key, b)
  {
    var s := a + [n] + b;
    forall i, j | 0 <= i < j < |a| ensures cmp(a[i].key, a[j].key) < 0 {
      assert s[i] == a[i] && s[j] == a[j];
    }
    forall i, j | 0 <= i < j < |b| ensures cmp(b[i].key, b[j].key) < 0 {
      assert s[|a| + 1 + i] == b[i] && s[|a| + 1 + j] == b[j];
    }
    forall i | 0 <= i < |a| ensures cmp(a[i].key, n.key) < 0 {
      assert s[i] == a[i] && s[|a|] == n;
    }
    forall i | 0 <= i < |b| ensures cmp(n.key, b[i].key) < 0 {
      assert s[|a| + 1 + i] == b[i] && s[|a|] == n;
    }
  }

  lemma SortedJoin(cmp: Compare, a: seq<Node>, n: Node, b: seq<Node>)
    requires Sorted(cmp, a + b) && AllBelow(cmp, a, n.key) && AllAbove(cmp, n.key, b)
    ensures Sorted(cmp, a + [n] + b)
  {
    var s := a + [n] + b;
    forall i, j | 0 <= i < j < |s| ensures cmp(s[i].key, s[j].key) < 0 {
      if i != |a| && j != |a| {
        var x, y := if i < |a| then i else i - 1, if j < |a| then j else j - 1;
        assert (a + b)[x] == s[i] && (a + b)[y] == s[j];
      }
    }
  }

  /** The key can only be in the subtree in focus: it lies above all before and below all after it. */
  ghost predicate Between(cmp: Compare, c: Ctx, k: int) {
    AllBelow(cmp, Before(c), k) && AllAbove(cmp, k, After(c))
  }

  /** One step of a search, to the left or to the right. */
  function Below(c: Ctx, t: Tree, leftward: bool): Ctx
    requires t.Br?
  {
    if leftward then InL(t.node, t.color, t.right, c) else InR(t.left, t.node, t.color, c)
  }

  lemma AboveTrans(cmp: Compare, k: int, n: int, s: seq<Node>)
    requires IsOrder(cmp) && cmp(k, n) <= 0 && AllAbove(cmp, n, s)
    ensures AllAbove(cmp, k, s)
  {
    forall i | 0 <= i < |s| ensures cmp(k, s[i].key) < 0 { assert Chain(k, n, s[i].key); }
  }

  lemma BelowTrans(cmp: Compare, k: int, n: int, s: seq<Node>)
    requires IsOrder(cmp) && cmp(n, k) <= 0 && AllBelow(cmp, s, n)
    ensures AllBelow(cmp, s, k)
  {
    forall i | 0 <= i < |s| ensures cmp(s[i].key, k) < 0 { assert Chain(s[i].key, n, k); }
  }

  lemma AboveConcat(cmp: Compare, k: int, a: seq<Node>, b: seq<Node>)
    ensures AllAbove(cmp, k, a + b) <==> AllAbove(cmp, k, a) && AllAbove(cmp, k, b)
  {
    if AllAbove(cmp, k, a + b) {
      forall i | 0 <= i < |a| ensures cmp(k, a[i].key) < 0 { assert (a + b)[i] == a[i]; }
      forall i | 0 <= i < |b| ensures cmp(k, b[i].key) < 0 { assert (a + b)[|a| + i] == b[i]; }
    }
  }

  lemma BelowConcat(cmp: Compare, a: seq<Node>, b: seq<Node>, k: int)
    ensures AllBelow(cmp, a + b, k) <==> AllBelow(cmp, a, k) && AllBelow(cmp, b, k)
  {
    if AllBelow(cmp, a + b, k) {
      forall i | 0 <= i < |a| ensures cmp(a[i].key, k) < 0 { assert (a + b)[i] == a[i]; }
      forall i | 0 <= i < |b| ensures cmp(b[i].key, k) < 0 { assert (a + b)[|a| + i] == b[i]; }
    }
  }

  lemma SearchStep(cmp: Compare, c: Ctx, t: Tree, k: int)
    requires IsOrder(cmp) && t.Br? && Sorted(cmp, Inorder(t)) && Between(cmp, c, k)
    ensures cmp(k, t.node.key) < 0 ==> Between(cmp, Below(c, t, true), k) && Sorted(cmp, Inorder(t.left))
    ensures cmp(k, t.node.key) > 0 ==> Between(cmp, Below(c, t, false), k) && Sorted(cmp, Inorder(t.right))
  {
    var l, r := Inorder(t.left), Inorder(t.right);
    SortedSplit(cmp, l, t.node, r);
    if cmp(k, t.node.key) < 0 {
      AboveTrans(cmp, k, t.node.key, r);
      AboveConcat(cmp, k, [t.node], r);
      AboveConcat(cmp, k, [t.node] + r, After(c));
    } else if cmp(k, t.node.key) > 0 {
      BelowTrans(cmp, k, t.node.key, l);
      BelowConcat(cmp, Before(c), l, k);
      BelowConcat(cmp, Before(c) + l, [t.node], k);
    }
  }

  /** A search that ran into an empty slot: no element compares equal to the key. */
  lemma NotFound(cmp: Compare, c: Ctx, k: int, x: Node)
    requires IsOrder(cmp) && Between(cmp, c, k) && x in Elements(c, Leaf)
    ensures cmp(k, x.key) != 0
  {
    var s := Elements(c, Leaf);
    var i :| 0 <= i < |s| && s[i] == x;
    if i < |Before(c)| {
      assert s[i] == Before(c)[i];
    } else {
      assert s[i] == After(c)[i - |Before(c)|];
    }
  }

  /** What an insertion at an empty slot starts from. */
  lemma SlotFits(c: Ctx, x: Node)
    requires RedBlack(Plug(c, Leaf))
    ensures InsertInv(c, Br(Leaf, x, Red, Leaf), 0)
  {
    Opened(c, Leaf);
  }

  lemma InsertedAt(cmp: Compare, c: Ctx, x: Node)
    requires Sorted(cmp, Elements(c, Leaf)) && Between(cmp, c, x.key)
    ensures Elements(c, Br(Leaf, x, Red, Leaf)) == Before(c) + [x] + After(c)
    ensures Sorted(cmp, Before(c) + [x] + After(c))
    ensures Elements(c, Leaf) == Before(c) + After(c)
    ensures var s, i := Elements(c, Leaf), |Before(c)|; s[..i] == Before(c) && s[i..] == After(c)
  {
    assert Elements(c, Leaf) == Before(c) + After(c);
    assert Inorder(Br(Leaf, x, Red, Leaf)) == [x];
    SortedJoin(cmp, Before(c), x, After(c));
  }

  /** `pos` is where the elements below the key end and those not below it begin. */
  ghost predicate Splits(cmp: Compare, s: seq<Node>, key: int, pos: nat) {
    && pos <= |s|
    && (forall j :: 0 <= j < pos ==> cmp(s[j].key, key) < 0)
    && (forall j :: pos <= j < |s| ==> cmp(key, s[j].key) <= 0)
  }

  lemma SplitsAtEqual(cmp: Compare, s: seq<Node>, key: int, i: nat)
    requires IsOrder(cmp) && Sorted(cmp, s) && i < |s| && cmp(key, s[i].key) == 0
    ensures Splits(cmp, s, key, i)
  {
    forall j | 0 <= j < i ensures cmp(s[j].key, key) < 0 {
      assert Chain(s[j].key, s[i].key, key);
    }
    forall j | i <= j < |s| ensures cmp(key, s[j].key) <= 0 {
      assert Chain(key, s[i].key, s[j].key);
    }
  }

  lemma SplitsAtSlot(cmp: Compare, c: Ctx, key: int)
    requires Between(cmp, c, key)
    ensures Splits(cmp, Elements(c, Leaf), key, |Before(c)|)
    ensures Elements(c, Leaf) == Before(c) + After(c)
  {
    assert Elements(c, Leaf) == Before(c) + After(c);
  }
}
