/** What happens to requests at the edge of the size type, with concrete heaps. */
module TlsfLimits {
  import opened Arithmetic
  import opened TlsfMapping
  import opened TlsfHeap
  import opened TlsfLists
  import opened TlsfOps
  import opened TlsfAligned
  import opened TlsfRealloc
  import opened TlsfPools

  /** `tlsf_memalign` hands out nothing, or an aligned payload that is large enough. */
  ghost predicate MemalignOk(h: Heap, align: U64, size: U64)
    requires align > 0
  {
    var (h', p) := Memalign(h, align, size);
    p != 0 ==> p > 0 && Multiple(p, align) && Live(h', p - 16) && Size(h', p - 16) >= size
  }

  /**
   * With the highest alignment a block of any size is taken. Its payload is aligned exactly if it
   * was so before, or if the block is long enough to reach an aligned address; it is large enough
   * exactly if what is left of the block is.
   */
  ghost predicate HighestOk(h: Heap, b: int, adjust: nat, r: (Heap, int)) {
    && b > 0 && IsFree(h, b) && r.1 == b + 16 + Cut(h, b, HIGHEST_ALIGN)
    && var gap := Gap(b + 16, HIGHEST_ALIGN);
    && (Multiple(r.1, HIGHEST_ALIGN) <==> gap == 0 || Size(h, b) >= gap + 32)
    && (Size(r.0, r.1 - 16) >= adjust <==> Size(h, b) - Cut(h, b, HIGHEST_ALIGN) >= adjust)
  }

  lemma MemalignHighest(h: Heap, size: U64)
    requires Good(h)
    ensures var b := Locate(h, AlignedSize(HIGHEST_ALIGN, size));
      Memalign(h, HIGHEST_ALIGN, size).1 != 0 ==>
        AlignedSize(HIGHEST_ALIGN, size) == 24
          && HighestOk(h, b, AdjustRequest(size, 8), Memalign(h, HIGHEST_ALIGN, size))
  {
    HighestIsPow2();
    AlignedSizeFacts(HIGHEST_ALIGN, size);
    AlignedFound(h, HIGHEST_ALIGN, size);
    var b := Locate(h, AlignedSize(HIGHEST_ALIGN, size));
    if b != 0 { HighestPlaced(h, b, AdjustRequest(size, 8)); }
  }

  lemma HighestPlaced(h: Heap, b: int, adjust: nat)
    requires Good(h) && IsFree(h, b) && adjust >= 24 && adjust % 8 == 0
    requires var h1 := Detach(h, b);
      Inv(h1, {b}) && IsFree(h1, b) && !IsFree(h1, Next(h1, b)) && !IsFree(h1, Prev(h1, b))
    ensures HighestOk(h, b, adjust, PlaceAligned(Detach(h, b), b, HIGHEST_ALIGN, adjust))
  {
    HighestIsPow2();
    assert BlockOk(h, b);
    GapFacts(b + 16, HIGHEST_ALIGN);
    PlaceAlignedGood(Detach(h, b), b, HIGHEST_ALIGN, adjust);
  }

  // ---------- a heap of one free block ----------

  /** One pool: a free block of 112 bytes at 8, and the block that ends the pool. */
  function SmallHeap(): Heap {
    AddPool(EmptyHeap(), 16, 128)
  }

  lemma SmallHeapFacts()
    ensures var h := SmallHeap();
      && Good(h) && h.blocks == map[8 := Block(112, true, 0, 8), 128 := Block(0, false, 8, 8)]
      && forall b :: IsFree(h, b) <==> b == 8
  {
    EmptyGood();
    AlignDownFacts(112, 8);
    AddPoolGood(EmptyHeap(), 16, 128);
  }

  lemma SmallLocate(size: nat)
    requires 0 < size <= 112 && size % 8 == 0
    ensures Locate(SmallHeap(), size) == 8
  {
    SmallHeapFacts();
    SearchReaches(size, 112);
    LocateFails(SmallHeap(), size, 8);
    LocateFound(SmallHeap(), size);
  }

  lemma PreparedSize(h: Heap, b: int, size: nat)
    requires b in h.blocks && Next(h, b) in h.blocks
    ensures var h' := PrepareUsed(h, b, size);
      b in h'.blocks && !IsFree(h', b) && Size(h', b) == if CanSplit(h, b, size) then size else Size(h, b)
  {
    if CanSplit(h, b, size) {
      var h1 := Split(h, b, size);
      assert Attach(h1, b + 8 + size).blocks == h1.blocks;
    }
  }

  /** A request for the largest size there is gets a block of 24 bytes. */
  lemma MallocWraps()
    ensures var (h', p) := Malloc(SmallHeap(), WORD_LIMIT - 1);
      p == 24 && p - 16 in h'.blocks && Size(h', p - 16) == 24
  {
    AdjustFacts(WORD_LIMIT - 1);
    SmallLocate(24);
    SmallHeapFacts();
    PreparedSize(Detach(SmallHeap(), 8), 8, 24);
  }

  /** With the highest alignment the only block is handed out where it is. */
  lemma MemalignWraps()
    ensures Good(SmallHeap()) && Memalign(SmallHeap(), HIGHEST_ALIGN, 1).1 == 24 && !Multiple(24, HIGHEST_ALIGN)
    ensures !MemalignOk(SmallHeap(), HIGHEST_ALIGN, 1)
  {
    SmallHeapFacts();
    SmallAligned();
    HighGap();
    MemalignHighest(SmallHeap(), 1);
  }

  lemma SmallAligned()
    ensures Locate(SmallHeap(), AlignedSize(HIGHEST_ALIGN, 1)) == 8
  {
    HighestIsPow2();
    AdjustFacts(1);
    AlignedSizeFacts(HIGHEST_ALIGN, 1);
    SmallLocate(24);
  }

  lemma HighGap()
    ensures Gap(24, HIGHEST_ALIGN) == HIGHEST_ALIGN - 24
  {
    AlignUpBounds(24, HIGHEST_ALIGN);
  }

  /** The highest alignment is the only one that fails requests that do not wrap around. */
  lemma MemalignExact(align: U64)
    requires IsPow2(align) && align > 0
    ensures align < HIGHEST_ALIGN <==>
      forall h: Heap, size: U64 {:trigger MemalignOk(h, align, size)} ::
        Good(h) && size <= WORD_LIMIT - 8 ==> MemalignOk(h, align, size)
  {
    AlignLimit(align);
    MemalignWraps();
    forall h: Heap, size: U64 {:trigger MemalignOk(h, align, size)}
      | Good(h) && size <= WORD_LIMIT - 8 && align < HIGHEST_ALIGN
      ensures MemalignOk(h, align, size)
    {
      MemalignGood(h, align, size);
    }
  }

  /** One block in use and one free: after a request for 64 bytes. */
  function TwoBlocks(): Heap {
    Malloc(SmallHeap(), 64).0
  }

  lemma TwoBlocksFacts()
    ensures Good(TwoBlocks()) && Live(TwoBlocks(), 8) && Size(TwoBlocks(), 8) == 64
  {
    SmallHeapFacts();
    SmallLocate(64);
    TakenFrom(SmallHeap(), 64, 8);
  }

  /** A block that can be split is handed out with exactly the adjusted size. */
  lemma TakenFrom(h: Heap, size: nat, b: int)
    requires Good(h) && 24 <= size < BLOCK_SIZE_MAX && size % 8 == 0 && Locate(h, size) == b != 0
    requires IsFree(h, b) && CanSplit(h, b, size)
    ensures var (h', p) := Malloc(h, size); Good(h') && p == b + 16 && Live(h', b) && Size(h', b) == size
  {
    AdjustExact(size);
    TakenSize(h, size, b);
    MallocFound(h, size, b);
  }

  lemma TakenSize(h: Heap, size: nat, b: int)
    requires Good(h) && IsFree(h, b) && CanSplit(h, b, size)
    ensures var h' := PrepareUsed(Detach(h, b), b, size); b in h'.blocks && !IsFree(h', b) && Size(h', b) == size
  {
    assert LinkOk(h, b) && BlockOk(h, b);
    PreparedSize(Detach(h, b), b, size);
  }

  /** Asking for 2^32 bytes breaks this heap. */
  lemma ReallocBreaks()
    ensures Good(TwoBlocks()) && Live(TwoBlocks(), 8) && !Good(Realloc(TwoBlocks(), 24, BLOCK_SIZE_MAX).0)
  {
    TwoBlocksFacts();
    ReallocTooLarge(TwoBlocks(), 8, BLOCK_SIZE_MAX);
  }

  /** A request that wraps around trims the block to 24 bytes, if it can be split. */
  lemma ReallocWraps(h: Heap, b: int, size: U64)
    requires Good(h) && Live(h, b) && size > WORD_LIMIT - 8
    ensures var (h', p) := Realloc(h, b + 16, size);
      && p == b + 16 && Good(h') && Kept(h, h', {b}) && Live(h', b)
      && Size(h', b) == if Size(h, b) >= 56 then 24 else Size(h, b)
  {
    assert BlockOk(h, b) && LinkOk(h, b);
    AdjustFacts(size);
    ReallocGood(h, b + 16, size);
    if CanSplit(h, b, 24) { AboveUntouched(Split(h, b, 24), b, b + 32); }
  }
}
