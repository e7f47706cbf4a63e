/** What `tlsf_free` and `tlsf_malloc` do to the blocks of a heap, stated by addresses alone. */
module TlsfExact {
  import opened Arithmetic
  import opened TlsfMapping
  import opened TlsfHeap
  import opened TlsfLists
  import opened TlsfOps

  // ---------- free ----------

  ghost predicate JoinedAt(h: Heap, h': Heap, lo: int, hi: int, c: int) {
    && (c in h'.blocks <==> c in h.blocks && !(lo < c < hi))
    && (c == lo ==>
          IsFree(h', lo) && Next(h', lo) == hi && Prev(h', lo) == Prev(h, lo) && PoolOf(h', lo) == PoolOf(h, lo))
    && (c == hi && c in h.blocks ==> c in h'.blocks && h'.blocks[c] == h.blocks[c].(prev := lo))
    && (c in h.blocks && (c < lo || c > hi) ==> c in h'.blocks && h'.blocks[c] == h.blocks[c])
  }

  /** All that was between `lo` and `hi` is now one free block, and no other block has changed. */
  ghost predicate Joined(h: Heap, h': Heap, lo: int, hi: int) {
    lo < hi && h'.pools == h.pools && forall c {:trigger JoinedAt(h, h', lo, hi, c)} :: JoinedAt(h, h', lo, hi, c)
  }

  lemma JoinedTrans(h: Heap, h1: Heap, h2: Heap, lo1: int, hi1: int, lo: int, hi: int)
    requires Joined(h, h1, lo1, hi1) && Joined(h1, h2, lo, hi) && lo <= lo1 && hi1 <= hi
    ensures Joined(h, h2, lo, hi)
  {
    forall c {:trigger JoinedAt(h, h2, lo, hi, c)} ensures JoinedAt(h, h2, lo, hi, c) {
      assert JoinedAt(h, h1, lo1, hi1, c) && JoinedAt(h1, h2, lo, hi, c);
    }
  }

  /** Lists do not matter. */
  lemma JoinedLists(h: Heap, h1: Heap, h2: Heap, h3: Heap, lo: int, hi: int)
    requires Joined(h1, h2, lo, hi) && h.blocks == h1.blocks && h.pools == h1.pools
    requires h3.blocks == h2.blocks && h3.pools == h2.pools
    ensures Joined(h, h3, lo, hi)
  {
    forall c {:trigger JoinedAt(h, h3, lo, hi, c)} ensures JoinedAt(h, h3, lo, hi, c) {
      assert JoinedAt(h1, h2, lo, hi, c);
    }
  }

  lemma MarkJoins(h: Heap, b: int)
    requires Phys(h) && b in h.blocks && Size(h, b) != 0
    ensures Joined(h, SetFree(h, b, true), b, Next(h, b))
  {
    var h', n := SetFree(h, b, true), Next(h, b);
    assert LinkOk(h, b) && BlockOk(h, b);
    forall c {:trigger JoinedAt(h, h', b, n, c)} ensures JoinedAt(h, h', b, n, c) {
      if c in h.blocks { assert Apart(h, b, c); }
    }
  }

  lemma AbsorbJoins(h: Heap, b: int)
    requires AbsorbArgs(h, b) && IsFree(h, b)
    ensures Joined(h, Absorb(h, b), b, Next(h, Next(h, b)))
  {
    AbsorbNeighbours(h, b);
    var h', d, n := Absorb(h, b), Next(h, b), Next(h, Next(h, b));
    forall c {:trigger JoinedAt(h, h', b, n, c)} ensures JoinedAt(h, h', b, n, c) {
      if c in h.blocks { assert Apart(h, b, c) && Apart(h, d, c); }
    }
  }

  /** Where the free block begins that a freed block becomes part of, and where it ends. */
  function FreedFrom(h: Heap, b: int): int {
    if IsFree(h, Prev(h, b)) then Prev(h, b) else b
  }

  function FreedTo(h: Heap, b: int): int {
    if IsFree(h, Next(h, b)) then Next(h, Next(h, b)) else Next(h, b)
  }

  lemma MergePrevJoins(h: Heap, b: int)
    requires Inv(h, {b}) && IsFree(h, b)
    ensures var (h', c) := MergePrev(h, b);
      c == FreedFrom(h, b) && if c == b then h' == h else Joined(h, h', c, Next(h, b))
  {
    assert BlockOk(h, b) && LinkOk(h, b) && BackOk(h, b);
    var p := Prev(h, b);
    if IsFree(h, p) {
      DetachInv(h, p, {b});
      var h1 := Detach(h, p);
      assert BlockOk(h, p);
      AbsorbJoins(h1, p);
      JoinedLists(h, h1, Absorb(h1, p), Absorb(h1, p), p, Next(h, b));
    }
  }

  lemma MergeNextJoins(h: Heap, b: int)
    requires Inv(h, {b}) && IsFree(h, b)
    ensures var h' := MergeNext(h, b); if IsFree(h, Next(h, b)) then Joined(h, h', b, Next(h, Next(h, b))) else h' == h
  {
    assert BlockOk(h, b) && LinkOk(h, b);
    var n := Next(h, b);
    if IsFree(h, n) {
      DetachInv(h, n, {b});
      var h1 := Detach(h, n);
      assert BlockOk(h, n) && LinkOk(h, n);
      AbsorbJoins(h1, b);
      JoinedLists(h, h1, Absorb(h1, b), Absorb(h1, b), b, Next(h, n));
    }
  }

  /** `tlsf_free` makes one free block of the block and those neighbours that are free, and changes no other block. */
  lemma FreeExact(h: Heap, b: int)
    requires Good(h) && b in h.blocks && !IsFree(h, b) && Size(h, b) != 0
    ensures Freed(h, Free(h, b), b)
  {
    UsedInHand(h, b, {});
    assert {} + {b} == {b};
    SetFreeInv(h, b, true, {b});
    MarkJoins(h, b);
    var h0, n := SetFree(h, b, true), Next(h, b);
    assert LinkOk(h, b) && BlockOk(h, b) && BackOk(h, b);
    assert JoinedAt(h, h0, b, n, Prev(h, b)) && JoinedAt(h, h0, b, n, n);
    MergePrevJoins(h0, b);
    MergePrevInv(h0, b);
    var (h1, c) := MergePrev(h0, b);
    if c != b { JoinedTrans(h, h0, h1, b, n, c, n); }
    ReturnJoins(h, h1, c, n);
    assert JoinedAt(h, Free(h, b), FreedFrom(h, b), FreedTo(h, b), b);
  }

  /** The block `b` of `h` has been freed in `h'`. */
  ghost predicate Freed(h: Heap, h': Heap, b: int) {
    !(b in h'.blocks && !IsFree(h', b)) && Joined(h, h', FreedFrom(h, b), FreedTo(h, b))
  }

  lemma ReturnJoins(h: Heap, h1: Heap, c: int, n: int)
    requires Joined(h, h1, c, n) && Inv(h1, {c})
    ensures Joined(h, Attach(MergeNext(h1, c), c), c, if IsFree(h, n) then Next(h, n) else n)
  {
    assert JoinedAt(h, h1, c, n, c) && JoinedAt(h, h1, c, n, n);
    MergeNextJoins(h1, c);
    var h2 := MergeNext(h1, c);
    if IsFree(h1, n) {
      JoinedTrans(h, h1, h2, c, n, c, Next(h1, n));
    }
    JoinedLists(h, h, h2, Attach(h2, c), c, if IsFree(h, n) then Next(h, n) else n);
  }

  // ---------- malloc ----------

  /** The size of a block that has room for `size` bytes, after trimming. */
  function Trimmed(room: nat, size: nat): nat {
    if room >= size + 32 then size else room
  }

  ghost predicate TakenAt(h: Heap, h': Heap, b: int, size: nat, c: int) {
    var cut, r, n := Size(h, b) >= size + 32, b + 8 + size, Next(h, b);
    && (c in h'.blocks <==> c in h.blocks || (cut && c == r))
    && (c == b ==> c in h'.blocks && !IsFree(h', c) && Prev(h', c) == Prev(h, c) && PoolOf(h', c) == PoolOf(h, c)
                   && Size(h', c) == Trimmed(Size(h, c), size))
    && (cut && c == r ==> IsFree(h', c) && Next(h', c) == n && Prev(h', c) == b && PoolOf(h', c) == PoolOf(h, b))
    && (c == n && c in h.blocks ==> c in h'.blocks && h'.blocks[c] == h.blocks[c].(prev := if cut then r else b))
    && (c in h.blocks && c != b && c != n ==> c in h'.blocks && h'.blocks[c] == h.blocks[c])
  }

  /**
   * The block `b` is in use. It has `size` bytes if the rest is enough for a free block, and keeps
   * its own size if not.
   */
  ghost predicate Taken(h: Heap, h': Heap, b: int, size: nat) {
    h'.pools == h.pools && forall c {:trigger TakenAt(h, h', b, size, c)} :: TakenAt(h, h', b, size, c)
  }

  lemma TakenLists(h: Heap, h1: Heap, h': Heap, b: int, size: nat)
    requires Taken(h1, h', b, size) && h.blocks == h1.blocks && h.pools == h1.pools
    ensures Taken(h, h', b, size)
  {
    forall c {:trigger TakenAt(h, h', b, size, c)} ensures TakenAt(h, h', b, size, c) {
      assert TakenAt(h1, h', b, size, c);
    }
  }

  lemma PrepareTakes(h: Heap, b: int, size: nat)
    requires Phys(h) && IsFree(h, b) && size >= 24 && size % 8 == 0
    ensures Taken(h, PrepareUsed(h, b, size), b, size)
  {
    var h', n := PrepareUsed(h, b, size), Next(h, b);
    assert LinkOk(h, b) && BlockOk(h, b);
    if CanSplit(h, b, size) { SplitFresh(h, b, size); }
    forall c {:trigger TakenAt(h, h', b, size, c)} ensures TakenAt(h, h', b, size, c) { }
  }

  /**
   * `tlsf_malloc` takes exactly the adjusted size out of a free block, where the rest is enough for
   * one, and changes no other.
   */
  lemma MallocExact(h: Heap, size: U64)
    requires Good(h) && Malloc(h, size).1 != 0
    ensures var (h', p) := Malloc(h, size); Taken(h, h', p - 16, AdjustRequest(size, 8))
  {
    AdjustShape(size);
    TakeExact(h, AdjustRequest(size, 8));
  }

  lemma TakeExact(h: Heap, size: nat)
    requires Good(h) && size % 8 == 0 && (size == 0 || size >= 24) && Locate(h, size) != 0
    ensures var b := Locate(h, size); Taken(h, PrepareUsed(Detach(h, b), b, size), b, size)
  {
    var b := Locate(h, size);
    Located(h, size);
    PrepareTakes(Detach(h, b), b, size);
    TakenLists(h, Detach(h, b), PrepareUsed(Detach(h, b), b, size), b, size);
  }

  /** All that a request for `size` bytes promises about its outcome. */
  ghost predicate Malloced(h: Heap, size: U64, r: (Heap, int)) {
    && MallocOk(h, size, r) && (r.1 != 0 <==> Obtainable(h, AdjustRequest(size, 8)))
    && (r.1 != 0 ==> Taken(h, r.0, r.1 - 16, AdjustRequest(size, 8)))
  }

  lemma MallocAll(h: Heap, size: U64)
    requires Good(h)
    ensures Malloced(h, size, Malloc(h, size))
  {
    MallocGood(h, size);
    MallocSucceedsIff(h, size);
    if Malloc(h, size).1 != 0 { MallocExact(h, size); }
  }
}
