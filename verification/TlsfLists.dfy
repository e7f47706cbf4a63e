/** The free lists and the invariant of the whole heap, kept by every step. */
module TlsfLists {
  import opened Sequences
  import opened TlsfMapping
  import opened TlsfHeap

  function ClassOf(h: Heap, b: int): int {
    Index(Size(h, b))
  }

  /** A list holds free blocks of its class, none twice, and no block that is in hand. */
  ghost predicate ListOk(h: Heap, X: set<int>, k: int) {
    && 0 <= k < |h.lists| && NoDup(h.lists[k])
    && forall i :: 0 <= i < |h.lists[k]| ==>
         IsFree(h, h.lists[k][i]) && h.lists[k][i] !in X && ClassOf(h, h.lists[k][i]) == k
  }

  ghost predicate InList(h: Heap, b: int) {
    0 <= ClassOf(h, b) < |h.lists| && b in h.lists[ClassOf(h, b)]
  }

  /** Each free block is once in the list of its class, except the blocks in hand, which are in none. */
  ghost predicate Listed(h: Heap, X: set<int>) {
    && |h.lists| == LIST_COUNT
    && (forall k {:trigger ListOk(h, X, k)} :: 0 <= k < LIST_COUNT ==> ListOk(h, X, k))
    && (forall b {:trigger InList(h, b)} :: IsFree(h, b) && b !in X ==> InList(h, b))
  }

  ghost predicate Parted(h: Heap, X: set<int>, b: int) {
    IsFree(h, b) && b !in X && Next(h, b) !in X ==> !IsFree(h, Next(h, b))
  }

  /** No two neighbours are both free, blocks in hand aside. */
  ghost predicate Coalesced(h: Heap, X: set<int>) {
    forall b {:trigger Parted(h, X, b)} :: Parted(h, X, b)
  }

  /** The invariant while the blocks `X` are in hand: taken off the lists and not yet put back. */
  ghost predicate Inv(h: Heap, X: set<int>) {
    Phys(h) && Listed(h, X) && Coalesced(h, X)
  }

  /** The invariant between operations. */
  ghost predicate Good(h: Heap) {
    Inv(h, {})
  }

  function EmptyHeap(): Heap {
    Heap(map[], seq(LIST_COUNT, _ => []), map[])
  }

  lemma EmptyGood()
    ensures Good(EmptyHeap())
  {
    var h := EmptyHeap();
    assert Phys(h);
    forall k {:trigger ListOk(h, {}, k)} | 0 <= k < LIST_COUNT ensures ListOk(h, {}, k) { }
    forall b {:trigger Parted(h, {}, b)} ensures Parted(h, {}, b) { }
  }

  function Detach(h: Heap, b: int): Heap {
    var k := ClassOf(h, b);
    if !(0 <= k < |h.lists|) then h else
    h.(lists := h.lists[k := Without(h.lists[k], b)])
  }

  function Attach(h: Heap, b: int): Heap {
    var k := ClassOf(h, b);
    if !(0 <= k < |h.lists|) then h else
    h.(lists := h.lists[k := [b] + h.lists[k]])
  }

  lemma SamePhys(h: Heap, h': Heap)
    requires Phys(h) && h'.blocks == h.blocks && h'.pools == h.pools
    ensures Phys(h')
  {
    forall c {:trigger BlockOk(h', c)} | c in h'.blocks ensures BlockOk(h', c) { assert BlockOk(h, c); }
    forall c {:trigger LinkOk(h', c)} | c in h'.blocks ensures LinkOk(h', c) { assert LinkOk(h, c); }
    forall c {:trigger BackOk(h', c)} | c in h'.blocks ensures BackOk(h', c) { assert BackOk(h, c); }
    forall c, d {:trigger Apart(h', c, d)} | c in h'.blocks && d in h'.blocks ensures Apart(h', c, d) {
      assert Apart(h, c, d);
    }
    forall s {:trigger PoolOk(h', s)} | s in h'.pools ensures PoolOk(h', s) { assert PoolOk(h, s); }
  }

  /** A free block is taken off its list. */
  lemma DetachInv(h: Heap, b: int, X: set<int>)
    requires Inv(h, X) && IsFree(h, b) && b !in X
    ensures 0 <= ClassOf(h, b) < |h.lists| && Inv(Detach(h, b), X + {b})
  {
    ClassInRange(h, b);
    var h', Y, k := Detach(h, b), X + {b}, ClassOf(h, b);
    SamePhys(h, h');
    forall j {:trigger ListOk(h', Y, j)} | 0 <= j < LIST_COUNT ensures ListOk(h', Y, j) {
      DetachList(h, b, X, j);
    }
    forall c {:trigger InList(h', c)} | IsFree(h', c) && c !in Y ensures InList(h', c) {
      assert InList(h, c) && ListOk(h, X, k);
      WithoutMember(h.lists[k], b, c);
    }
    forall c {:trigger Parted(h', Y, c)} ensures Parted(h', Y, c) { assert Parted(h, X, c); }
  }

  lemma DetachList(h: Heap, b: int, X: set<int>, j: int)
    requires Listed(h, X) && 0 <= j < LIST_COUNT && 0 <= ClassOf(h, b) < |h.lists|
    ensures ListOk(Detach(h, b), X + {b}, j)
  {
    var h', k := Detach(h, b), ClassOf(h, b);
    assert ListOk(h, X, j) && ListOk(h, X, k);
    WithoutNoDup(h.lists[k], b);
    forall i | 0 <= i < |h'.lists[j]|
      ensures IsFree(h', h'.lists[j][i]) && h'.lists[j][i] !in X + {b} && ClassOf(h', h'.lists[j][i]) == j
    {
      var x := h'.lists[j][i];
      WithoutMember(h.lists[k], b, x);
      assert x in h.lists[j];
    }
  }

  /** A free block in hand goes back to the head of its list; its neighbours must not be free as well. */
  lemma AttachInv(h: Heap, b: int, X: set<int>)
    requires Inv(h, X) && IsFree(h, b) && b in X
    requires IsFree(h, Next(h, b)) ==> Next(h, b) in X
    requires IsFree(h, Prev(h, b)) ==> Prev(h, b) in X
    ensures 0 <= ClassOf(h, b) < |h.lists| && Inv(Attach(h, b), X - {b})
  {
    ClassInRange(h, b);
    var h', Y, k := Attach(h, b), X - {b}, ClassOf(h, b);
    SamePhys(h, h');
    forall j {:trigger ListOk(h', Y, j)} | 0 <= j < LIST_COUNT ensures ListOk(h', Y, j) {
      assert ListOk(h, X, j);
    }
    forall c {:trigger InList(h', c)} | IsFree(h', c) && c !in Y ensures InList(h', c) {
      if c != b { assert InList(h, c); }
    }
    forall c {:trigger Parted(h', Y, c)} ensures Parted(h', Y, c) {
      assert Parted(h, X, c);
      if c in h.blocks { assert LinkOk(h, c) && BlockOk(h, c); }
    }
  }

  /** A used block may be taken in hand, and put down again, at any time. */
  lemma UsedInHand(h: Heap, b: int, X: set<int>)
    requires b in h.blocks && !IsFree(h, b)
    ensures Inv(h, X) ==> Inv(h, X + {b})
    ensures Inv(h, X) ==> Inv(h, X - {b})
  {
    if Inv(h, X) {
      SameLists(h, X, X + {b}, b);
      SameLists(h, X, X - {b}, b);
    }
  }

  lemma SameLists(h: Heap, X: set<int>, Y: set<int>, b: int)
    requires Inv(h, X) && !IsFree(h, b) && (forall c :: c != b ==> (c in X <==> c in Y))
    ensures Inv(h, Y)
  {
    forall j {:trigger ListOk(h, Y, j)} | 0 <= j < LIST_COUNT ensures ListOk(h, Y, j) { assert ListOk(h, X, j); }
    forall c {:trigger InList(h, c)} | IsFree(h, c) && c !in Y ensures InList(h, c) { assert c !in X; }
    forall c {:trigger Parted(h, Y, c)} ensures Parted(h, Y, c) { assert Parted(h, X, c); }
  }

  lemma SetFreeInv(h: Heap, b: int, free: bool, X: set<int>)
    requires Inv(h, X) && b in X && Size(h, b) != 0
    ensures Inv(SetFree(h, b, free), X)
  {
    var h' := SetFree(h, b, free);
    SetFreePhys(h, b, free);
    forall j {:trigger ListOk(h', X, j)} | 0 <= j < LIST_COUNT ensures ListOk(h', X, j) { assert ListOk(h, X, j); }
    forall c {:trigger InList(h', c)} | IsFree(h', c) && c !in X ensures InList(h', c) { assert InList(h, c); }
    forall c {:trigger Parted(h', X, c)} ensures Parted(h', X, c) { assert Parted(h, X, c); }
  }

  lemma SplitInv(h: Heap, b: int, size: nat, X: set<int>)
    requires Inv(h, X) && b in X && SplitArgs(h, b, size)
    ensures Inv(Split(h, b, size), X + {b + 8 + size})
  {
    var h', r := Split(h, b, size), b + 8 + size;
    var Y := X + {r};
    SplitPhys(h, b, size);
    SplitFresh(h, b, size);
    forall j {:trigger ListOk(h', Y, j)} | 0 <= j < LIST_COUNT ensures ListOk(h', Y, j) { assert ListOk(h, X, j); }
    forall c {:trigger InList(h', c)} | IsFree(h', c) && c !in Y ensures InList(h', c) { assert InList(h, c); }
    forall c {:trigger Parted(h', Y, c)} ensures Parted(h', Y, c) { assert Parted(h, X, c); }
  }

  lemma AbsorbInv(h: Heap, b: int, X: set<int>)
    requires Inv(h, X) && AbsorbArgs(h, b) && b in X && Next(h, b) in X
    ensures Next(h, Next(h, b)) in h.blocks && Inv(Absorb(h, b), X - {Next(h, b)})
  {
    AbsorbPhys(h, b);
    AbsorbNeighbours(h, b);
    var h' := Absorb(h, b);
    var Y := X - {Next(h, b)};
    forall j {:trigger ListOk(h', Y, j)} | 0 <= j < LIST_COUNT ensures ListOk(h', Y, j) { assert ListOk(h, X, j); }
    forall c {:trigger InList(h', c)} | IsFree(h', c) && c !in Y ensures InList(h', c) { assert InList(h, c); }
    forall c {:trigger Parted(h', Y, c)} ensures Parted(h', Y, c) {
      assert Parted(h, X, c);
      if c in h.blocks { assert LinkOk(h, c) && BlockOk(h, c); }
    }
  }
}
