/** Changing the size of a block: `tlsf_realloc`. */
module TlsfRealloc {
  import opened Arithmetic
  import opened TlsfMapping
  import opened TlsfHeap
  import opened TlsfLists
  import opened TlsfOps
  import opened TlsfExact

  /** `block_trim_used`: a tail large enough for a block goes back to the lists. */
  function TrimUsed(h: Heap, b: int, size: nat): Heap {
    if CanSplit(h, b, size) then
      var r := b + 8 + size;
      Attach(MergeNext(Split(h, b, size), r), r)
    else h
  }

  /** The block must move: it is too small and the block after it cannot make up for that. */
  predicate MustMove(h: Heap, b: int, adjust: nat) {
    var n := Next(h, b);
    adjust > Size(h, b) && (!IsFree(h, n) || adjust > Size(h, b) + Size(h, n) + 8)
  }

  function Resize(h: Heap, b: int, adjust: nat): Heap {
    TrimUsed(if adjust > Size(h, b) then SetFree(MergeNext(h, b), b, false) else h, b, adjust)
  }

  function Realloc(h: Heap, ptr: int, size: U64): (Heap, int) {
    if ptr != 0 && size == 0 then (Free(h, ptr - 16), 0)
    else if ptr == 0 then Malloc(h, size)
    else if MustMove(h, ptr - 16, AdjustRequest(size, 8)) then
      var (h1, p) := Malloc(h, size);
      if p != 0 then (Free(h1, ptr - 16), p) else (h1, 0)
    else (Resize(h, ptr - 16, AdjustRequest(size, 8)), ptr)
  }

  /** A block handed out and not yet given back. */
  predicate Live(h: Heap, b: int) {
    b in h.blocks && !IsFree(h, b) && Size(h, b) != 0
  }

  lemma TrimUsedGood(h: Heap, b: int, size: nat)
    requires Good(h) && Live(h, b) && size >= 24 && size % 8 == 0 && Size(h, b) >= size
    ensures var h' := TrimUsed(h, b, size);
      Good(h') && Live(h', b) && Size(h', b) >= size && Kept(h, h', {b})
  {
    if CanSplit(h, b, size) {
      assert BlockOk(h, b) && LinkOk(h, b);
      UsedInHand(h, b, {});
      assert {} + {b} == {b};
      SplitInv(h, b, size, {b});
      SplitFresh(h, b, size);
      var h1, r := Split(h, b, size), b + 8 + size;
      UsedInHand(h1, b, {b} + {r});
      assert {b} + {r} - {b} == {r};
      ReturnGood(h1, r);
      var h' := TrimUsed(h, b, size);
      assert KeptAt(h1, h', {}, b);
      KeptSteps(h, b, size, true, {b});
      KeptMore(h1, h', {}, {b});
      KeptTrans(h, h1, h', {b});
    }
  }

  /** Growing into the free block above. */
  lemma GrowGood(h: Heap, b: int)
    requires Good(h) && Live(h, b)
    ensures var h' := SetFree(MergeNext(h, b), b, false);
      && Good(h') && Live(h', b) && Kept(h, h', {b})
      && Size(h', b) == Size(h, b) + (if IsFree(h, Next(h, b)) then 8 + Size(h, Next(h, b)) else 0)
  {
    UsedInHand(h, b, {});
    assert {} + {b} == {b};
    MergeNextInv(h, b);
    var h1 := MergeNext(h, b);
    assert SetFree(h1, b, false) == h1;
    UsedInHand(h1, b, {b});
    assert {b} - {b} == {};
  }

  lemma ResizeGood(h: Heap, b: int, adjust: nat)
    requires Good(h) && Live(h, b) && adjust >= 24 && adjust % 8 == 0 && !MustMove(h, b, adjust)
    ensures var h' := Resize(h, b, adjust);
      Good(h') && Live(h', b) && Size(h', b) >= adjust && Kept(h, h', {b})
  {
    if adjust > Size(h, b) {
      GrowGood(h, b);
      var h1 := SetFree(MergeNext(h, b), b, false);
      TrimUsedGood(h1, b, adjust);
      KeptTrans(h, h1, TrimUsed(h1, b, adjust), {b});
    } else {
      TrimUsedGood(h, b, adjust);
    }
  }

  /** No block is larger than the table of lists allows. */
  lemma LargestSize(h: Heap, b: int)
    requires Phys(h) && b in h.blocks
    ensures Size(h, b) <= BLOCK_SIZE_MAX - 8
  {
    ClassInRange(h, b);
    assert BlockOk(h, b);
  }

  /** The old block is freed after a new one was taken. */
  lemma MovedGood(h: Heap, b: int, h1: Heap, p: int)
    requires Good(h) && Live(h, b) && Good(h1) && Kept(h, h1, {}) && IsFree(h, p - 16) && Live(h1, p - 16)
    ensures var h' := Free(h1, b);
      && Good(h') && p - 16 != b && Live(h1, b) && Size(h1, b) == Size(h, b)
      && Live(h', p - 16) && Size(h', p - 16) == Size(h1, p - 16) && Kept(h, h', {b})
  {
    assert KeptAt(h, h1, {}, b);
    FreeGood(h1, b);
    assert KeptAt(h1, Free(h1, b), {b}, p - 16);
    KeptMore(h, h1, {}, {b});
    KeptTrans(h, h1, Free(h1, b), {b});
  }

  lemma MoveGood(h: Heap, b: int, size: U64)
    requires Good(h) && Live(h, b) && Malloc(h, size).1 != 0
    ensures var (h1, p) := Malloc(h, size); var h' := Free(h1, b);
      && Good(h') && p - 16 != b && Live(h1, b) && Size(h1, b) == Size(h, b)
      && Live(h', p - 16) && Size(h', p - 16) == Size(h1, p - 16) && Kept(h, h', {b})
  {
    MallocGood(h, size);
    MovedGood(h, b, Malloc(h, size).0, Malloc(h, size).1);
  }

  /** The outcome `r` of a request to resize the block `b`: a new heap, and a payload address or 0. */
  ghost predicate ReallocOk(h: Heap, b: int, size: U64, r: (Heap, int)) {
    && Good(r.0) && Kept(h, r.0, {b})
    && (r.1 == 0 && size != 0 ==> r.0 == h)
    && (r.1 != 0 ==> Live(r.0, r.1 - 16) && (Size(r.0, r.1 - 16) >= size <==> size <= BLOCK_SIZE_MAX - 8))
  }

  lemma MallocCase(h: Heap, b: int, size: U64)
    requires Good(h)
    ensures ReallocOk(h, b, size, Malloc(h, size))
  {
    MallocGood(h, size);
    var (h', p) := Malloc(h, size);
    KeptMore(h, h', {}, {b});
    if p != 0 { LargestSize(h', p - 16); }
  }

  lemma MoveCase(h: Heap, b: int, size: U64)
    requires Good(h) && Live(h, b)
    ensures var (h1, p) := Malloc(h, size); ReallocOk(h, b, size, if p != 0 then (Free(h1, b), p) else (h1, 0))
  {
    MallocCase(h, b, size);
    MallocGood(h, size);
    MoveFrom(h, b, size, Malloc(h, size).0, Malloc(h, size).1);
  }

  lemma MoveFrom(h: Heap, b: int, size: U64, h1: Heap, p: int)
    requires Good(h) && Live(h, b) && ReallocOk(h, b, size, (h1, p)) && (p == 0 ==> h1 == h)
    requires p != 0 ==> IsFree(h, p - 16) && Kept(h, h1, {})
    ensures ReallocOk(h, b, size, if p != 0 then (Free(h1, b), p) else (h1, 0))
  {
    if p != 0 { MovedGood(h, b, h1, p); }
  }

  /** A request that cannot be adjusted trims the block to nothing, if it can be split at all. */
  predicate Resizable(h: Heap, b: int, size: U64) {
    !Refused(size) || Size(h, b) < 32
  }

  lemma ResizeCase(h: Heap, b: int, size: U64)
    requires Good(h) && Live(h, b) && Resizable(h, b, size) && size != 0 && !MustMove(h, b, AdjustRequest(size, 8))
    ensures ReallocOk(h, b, size, (Resize(h, b, AdjustRequest(size, 8)), b + 16))
  {
    AdjustFacts(size);
    var adjust := AdjustRequest(size, 8);
    assert BlockOk(h, b);
    if adjust != 0 { ResizeGood(h, b, adjust); }
    LargestSize(Resize(h, b, adjust), b);
  }

  /**
   * `tlsf_realloc` keeps the invariant and every other block in use; on failure nothing changes.
   * The block is large enough exactly if a block of the requested size can exist.
   */
  lemma ReallocGood(h: Heap, ptr: int, size: U64)
    requires Good(h) && (ptr != 0 ==> Live(h, ptr - 16) && Resizable(h, ptr - 16, size))
    ensures ReallocOk(h, ptr - 16, size, Realloc(h, ptr, size))
  {
    var b := ptr - 16;
    if ptr != 0 && size == 0 {
      FreeGood(h, b);
    } else if ptr == 0 {
      MallocCase(h, b, size);
    } else if MustMove(h, b, AdjustRequest(size, 8)) {
      MoveCase(h, b, size);
    } else {
      ResizeCase(h, b, size);
    }
  }

  // ---------- when realloc succeeds, and where the block is then ----------

  /** The block, with the free block above it if there is one, has room for the request. */
  predicate InPlace(h: Heap, b: int, adjust: nat) {
    adjust <= Size(h, b) || (IsFree(h, Next(h, b)) && adjust <= Size(h, b) + 8 + Size(h, Next(h, b)))
  }

  /**
   * The outcome `r` of a request to resize the block `b` in use. It succeeds exactly if there is
   * room in place or a block elsewhere; the block stays exactly in the first case, and is given up
   * in the second.
   */
  ghost predicate Reallocated(h: Heap, b: int, adjust: nat, r: (Heap, int)) {
    && (r.1 != 0 <==> InPlace(h, b, adjust) || Obtainable(h, adjust))
    && (InPlace(h, b, adjust) ==> r.1 == b + 16)
    && (InPlace(h, b, adjust) && adjust != 0 ==>
          Size(r.0, b) ==
            Trimmed(if adjust <= Size(h, b) then Size(h, b) else Size(h, b) + 8 + Size(h, Next(h, b)), adjust))
    && (!InPlace(h, b, adjust) && r.1 != 0 ==> r.1 != b + 16 && !Live(r.0, b))
  }

  lemma TrimUsedSize(h: Heap, b: int, size: nat)
    requires Good(h) && Live(h, b)
    ensures Size(TrimUsed(h, b, size), b) == Trimmed(Size(h, b), size)
  {
    assert LinkOk(h, b);
    if CanSplit(h, b, size) { SplitUsedSize(h, b, size, Split(h, b, size)); }
  }

  lemma SplitUsedSize(h: Heap, b: int, size: nat, h1: Heap)
    requires b in h.blocks && Next(h, b) in h.blocks && CanSplit(h, b, size) && h1 == Split(h, b, size)
    ensures Size(Attach(MergeNext(h1, b + 8 + size), b + 8 + size), b) == size
  {
    assert b in h1.blocks && Size(h1, b) == size;
    AboveUntouched(h1, b, b + 8 + size);
  }

  lemma ResizeExact(h: Heap, b: int, adjust: nat)
    requires Good(h) && Live(h, b) && InPlace(h, b, adjust)
    ensures Reallocated(h, b, adjust, (Resize(h, b, adjust), b + 16))
  {
    assert BlockOk(h, b);
    if adjust > Size(h, b) {
      GrowGood(h, b);
      TrimUsedSize(SetFree(MergeNext(h, b), b, false), b, adjust);
    } else {
      TrimUsedSize(h, b, adjust);
    }
  }

  lemma MoveExact(h: Heap, b: int, size: U64)
    requires Good(h) && Live(h, b) && !InPlace(h, b, AdjustRequest(size, 8))
    ensures var (h1, p) := Malloc(h, size);
      Reallocated(h, b, AdjustRequest(size, 8), if p != 0 then (Free(h1, b), p) else (h1, 0))
  {
    MallocSucceedsIff(h, size);
    if Malloc(h, size).1 != 0 {
      MoveGood(h, b, size);
      MallocGood(h, size);
      FreeExact(Malloc(h, size).0, b);
    }
  }

  /** `tlsf_realloc` of a block in use, to any size but 0. */
  lemma ReallocExact(h: Heap, b: int, size: U64)
    requires Good(h) && Live(h, b) && size != 0
    ensures Reallocated(h, b, AdjustRequest(size, 8), Realloc(h, b + 16, size))
  {
    assert BlockOk(h, b);
    if InPlace(h, b, AdjustRequest(size, 8)) {
      ResizeExact(h, b, AdjustRequest(size, 8));
    } else {
      MoveExact(h, b, size);
    }
  }

  /**
   * The bytes whose contents `tlsf_realloc` keeps: those of the smaller size, or of the smallest
   * block if the request wraps around.
   */
  function Surviving(current: nat, size: U64): nat {
    if size > WORD_LIMIT - 8 then 24 else if current < size then current else size
  }

  /** Joining and listing a block does not touch a block below it. */
  lemma AboveUntouched(h: Heap, b: int, r: int)
    requires b in h.blocks && b < r
    ensures var h' := Attach(MergeNext(h, r), r); b in h'.blocks && h'.blocks[b] == h.blocks[b] && h'.pools == h.pools
  {
    var n := Next(h, r);
    if IsFree(h, n) {
      var h1 := Detach(h, n);
      assert h1.blocks == h.blocks && Next(h1, r) == n && Next(h1, n) > b;
    }
  }

  /** Trimming a block to size zero leaves a header that looks like the end of the pool. */
  lemma TrimToNothing(h: Heap, b: int)
    requires Good(h) && Live(h, b) && Size(h, b) >= 32
    ensures !Good(TrimUsed(h, b, 0))
  {
    assert BlockOk(h, b) && LinkOk(h, b);
    var h1, r := Split(h, b, 0), b + 8;
    var h' := TrimUsed(h, b, 0);
    assert b in h1.blocks && Size(h1, b) == 0 && PoolOf(h1, b) == PoolOf(h, b) && h1.pools == h.pools;
    AboveUntouched(h1, b, r);
    assert !BlockOk(h', b);
  }

  /** For a request too large to adjust the code does just that; it breaks the heap unless the block cannot be split. */
  lemma ReallocTooLarge(h: Heap, b: int, size: U64)
    requires Good(h) && Live(h, b)
    ensures Good(Realloc(h, b + 16, size).0) <==> !Refused(size) || Size(h, b) < 32
  {
    assert BlockOk(h, b);
    if Resizable(h, b, size) {
      ReallocGood(h, b + 16, size);
    } else {
      AdjustFacts(size);
      assert Realloc(h, b + 16, size).0 == TrimUsed(h, b, 0);
      TrimToNothing(h, b);
    }
  }
}
