/** Aligned allocation: `tlsf_memalign`. */
module TlsfAligned {
  import opened Arithmetic
  import opened TlsfMapping
  import opened TlsfHeap
  import opened TlsfLists
  import opened TlsfOps
  import opened TlsfExact

  /** The block size to look for: room for the request, the alignment and a leading free block. */
  function AlignedSize(align: U64, size: U64): nat
    requires align > 0
  {
    var adjust := AdjustRequest(size, 8);
    if adjust != 0 && align > 8 then AdjustRequest(Wrap(adjust + align + 32), align) else adjust
  }

  /** How far the payload must move; a gap too small for a block goes to a later boundary. */
  function Gap(ptr: nat, align: nat): int
    requires align > 0
  {
    GapBy(Ups(align), ptr, align)
  }

  function Ups(align: nat): nat -> nat
    requires align > 0
  {
    (x: nat) => AlignUp(x, align)
  }

  function GapBy(up: nat -> nat, ptr: nat, align: nat): int {
    var aligned := up(ptr);
    var gap := aligned - ptr;
    if 0 < gap < 32 then up(aligned + GapOffset(gap, align)) - ptr else gap
  }

  function GapOffset(gap: nat, align: nat): nat {
    if 32 - gap > align then 32 - gap else align
  }

  /** `block_trim_free_leading`: the first part goes back to the lists, the second is returned. */
  function TrimLeading(h: Heap, b: int, gap: nat): (Heap, int) {
    if CanSplit(h, b, gap) && gap >= 8 then (Attach(Split(h, b, gap - 8), b), b + gap) else (h, b)
  }

  /** The block in hand is cut to an aligned payload and taken into use. */
  function PlaceAligned(h: Heap, b: int, align: nat, adjust: nat): (Heap, int)
    requires align > 0
  {
    var gap := if b + 16 >= 0 then Gap(b + 16, align) else 0;
    var (h1, c) := if gap > 0 then TrimLeading(h, b, gap) else (h, b);
    (PrepareUsed(h1, c, adjust), c + 16)
  }

  function Memalign(h: Heap, align: U64, size: U64): (Heap, int)
    requires align > 0
  {
    var b := Locate(h, AlignedSize(align, size));
    if b == 0 then (h, 0) else PlaceAligned(Detach(h, b), b, align, AdjustRequest(size, 8))
  }

  ghost predicate IsPow2(a: nat) {
    exists e: nat :: a == Pow2(e)
  }

  lemma {:induction false} SmallOrLarge(e: nat)
    ensures var a := Pow2(e); a == 1 || a == 2 || a == 4 || a == 8 || a == 16 || (a >= 32 && a % 8 == 0)
  {
    if e > 0 { SmallOrLarge(e - 1); }
  }

  lemma Pow2Cases(a: nat)
    requires IsPow2(a)
    ensures a == 1 || a == 2 || a == 4 || a == 8 || a == 16 || (a >= 32 && a % 8 == 0)
  {
    var e: nat :| a == Pow2(e);
    SmallOrLarge(e);
  }

  /** A multiple of 8 is one of 1, 2 and 4. */
  lemma {:induction false} SmallMultiple(x: nat, a: nat)
    requires x % 8 == 0 && (a == 1 || a == 2 || a == 4 || a == 8)
    ensures Multiple(x, a)
  {
    if a == 1 { MultipleIff(x, 1); }
    if a == 2 { MultipleIff(x, 2); }
    if a == 4 { MultipleIff(x, 4); }
    if a == 8 { MultipleIff(x, 8); }
  }

  /** The gap is 0, or large enough for a block and at most the alignment plus 24, and leads to an aligned address. */
  ghost predicate GapOk(ptr: nat, align: nat, gap: int)
    requires align > 0
  {
    && (gap == 0 || (32 <= gap <= align + 24 && align > 8))
    && gap % 8 == 0 && ptr + gap >= 0 && Multiple(ptr + gap, align)
  }

  lemma GapFacts(ptr: nat, align: nat)
    requires IsPow2(align) && ptr % 8 == 0
    ensures align > 0 && GapOk(ptr, align, Gap(ptr, align))
  {
    Pow2Cases(align);
    if align <= 8 {
      GapSmall(ptr, align);
    } else if align == 16 {
      GapOf16(ptr);
    } else {
      GapLargeRange(ptr, align);
      GapLargeAligned(ptr, align);
    }
  }

  lemma GapSmall(ptr: nat, align: nat)
    requires ptr % 8 == 0 && (align == 1 || align == 2 || align == 4 || align == 8)
    ensures GapOk(ptr, align, Gap(ptr, align))
  {
    SmallMultiple(ptr, align);
    AlignUpFixed(ptr, align);
  }

  lemma GapOf16(ptr: nat)
    requires ptr % 8 == 0
    ensures GapOk(ptr, 16, Gap(ptr, 16))
  {
    Gap16(ptr);
    GapOk16(ptr, Gap(ptr, 16));
  }

  lemma GapOk16(ptr: nat, gap: int)
    requires ptr % 8 == 0 && gap == if ptr % 16 == 0 then 0 else 40
    ensures GapOk(ptr, 16, gap)
  {
    MultipleIff(ptr + gap, 16);
  }

  lemma Up16(x: nat)
    requires x % 8 == 0
    ensures AlignUp(x, 16) == if x % 16 == 0 then x else x + 8
  {
    AlignUpFacts(x, 16);
  }

  lemma Gap16(ptr: nat)
    requires ptr % 8 == 0
    ensures Gap(ptr, 16) == if ptr % 16 == 0 then 0 else 40
  {
    Up16(ptr);
    Up16(ptr + 32);
  }

  lemma GapLargeRange(ptr: nat, align: nat)
    requires align >= 32 && align % 8 == 0 && ptr % 8 == 0
    ensures var gap := Gap(ptr, align); (gap == 0 || 32 <= gap <= align + 24) && gap % 8 == 0
  {
    var aligned := AlignUp(ptr, align);
    AlignUpBounds(ptr, align);
    MultipleOf8(aligned, align);
    NextBoundary(aligned, align);
    GapLargeIs(ptr, align, aligned);
    GapValues(ptr, align, aligned, Gap(ptr, align));
  }

  lemma GapValues(ptr: nat, align: nat, aligned: nat, gap: int)
    requires align >= 32 && align % 8 == 0 && ptr % 8 == 0 && aligned % 8 == 0 && ptr <= aligned < ptr + align
    requires gap == (if 0 < aligned - ptr < 32 then aligned + align else aligned) - ptr
    ensures (gap == 0 || 32 <= gap <= align + 24) && gap % 8 == 0
  {
  }

  lemma GapLargeAligned(ptr: nat, align: nat)
    requires align >= 32
    ensures ptr + Gap(ptr, align) >= 0 && Multiple(ptr + Gap(ptr, align), align)
  {
    var aligned := AlignUp(ptr, align);
    AlignUpBounds(ptr, align);
    NextBoundary(aligned, align);
    GapLargeIs(ptr, align, aligned);
  }

  lemma GapLargeIs(ptr: nat, align: nat, aligned: nat)
    requires align >= 32 && aligned == AlignUp(ptr, align) && AlignUp(aligned + align, align) == aligned + align
    ensures Gap(ptr, align) == (if 0 < aligned - ptr < 32 then aligned + align else aligned) - ptr
  {
  }

  lemma NextBoundary(x: nat, a: nat)
    requires a > 0 && Multiple(x, a)
    ensures Multiple(x + a, a) && AlignUp(x + a, a) == x + a
  {
    AlignUpFixed(x + a, a);
  }

  /** The gap as the code computes it, every sum and difference wrapping around. */
  function Gap64(ptr: U64, align: U64): U64
    requires align > 0
  {
    Gap64By(Ups64(align), ptr, align)
  }

  function Ups64(align: U64): U64 -> U64
    requires align > 0
  {
    (x: U64) => AlignUp64(x, align)
  }

  function Gap64By(up: U64 -> U64, ptr: U64, align: U64): U64 {
    var aligned := up(ptr);
    var gap := Wrap(aligned + WORD_LIMIT - ptr);
    if 0 < gap < 32 then Wrap(up(Wrap(aligned + GapOffset(gap, align))) + WORD_LIMIT - ptr) else gap
  }

  /** `x` and `y` are the same machine word. */
  predicate SameWord(x: nat, y: U64) {
    x == y || x == y + WORD_LIMIT || x == y + 2 * WORD_LIMIT
  }

  lemma DifferenceWraps(x: nat, y: U64, ptr: U64)
    requires SameWord(x, y) && 0 <= x - ptr < WORD_LIMIT
    ensures Wrap(y + WORD_LIMIT - ptr) == x - ptr
  {
  }

  lemma SumWraps(x: nat, y: U64, offset: U64)
    requires SameWord(x, y) && x + offset < 2 * WORD_LIMIT
    ensures Wrap(y + offset) == Wrap(x + offset)
  {
  }

  /** The boundary computed with wrap-around is the same machine word. */
  ghost predicate SameUp(up: nat -> nat, up64: U64 -> U64, x: nat) {
    x < 2 * WORD_LIMIT ==> SameWord(up(x), up64(Wrap(x)))
  }

  lemma LowBoundary(x: U64, align: U64)
    requires align > 0 && Multiple(WORD_LIMIT, align)
    ensures SameWord(AlignUp(x, align), AlignUp64(x, align))
  {
    AlignUp64Wraps(x, align);
  }

  lemma HighBoundary(x: U64, align: U64)
    requires align > 0 && Multiple(WORD_LIMIT, align)
    ensures SameWord(AlignUp(x + WORD_LIMIT, align), AlignUp64(x, align))
  {
    AlignUp64Wraps(x, align);
    AlignUpShift(x, WORD_LIMIT, align);
  }

  lemma EitherBoundary(x: nat, w: U64, align: U64)
    requires align > 0 && Multiple(WORD_LIMIT, align) && (x == w || x == w + WORD_LIMIT)
    ensures SameWord(AlignUp(x, align), AlignUp64(w, align))
  {
    if x == w { LowBoundary(w, align); } else { HighBoundary(w, align); }
  }

  lemma WrapCases(x: nat)
    requires x < 2 * WORD_LIMIT
    ensures x == Wrap(x) || x == Wrap(x) + WORD_LIMIT
  {
  }

  lemma BoundaryWraps(x: nat, align: U64)
    requires align > 0 && Multiple(WORD_LIMIT, align)
    ensures SameUp(Ups(align), Ups64(align), x)
  {
    if x < 2 * WORD_LIMIT {
      WrapCases(x);
      EitherBoundary(x, Wrap(x), align);
    }
  }

  lemma GapBound(ptr: nat, align: U64)
    requires IsPow2(align) && ptr % 8 == 0 && align > 0
    ensures 0 <= Gap(ptr, align) < WORD_LIMIT && ptr <= AlignUp(ptr, align) < ptr + align
  {
    AlignLimit(align);
    GapFacts(ptr, align);
    AlignUpBounds(ptr, align);
  }

  /** With boundaries that are the same words, the gap is the same. */
  lemma GapSame(up: nat -> nat, up64: U64 -> U64, ptr: U64, align: U64)
    requires forall x: nat {:trigger SameUp(up, up64, x)} :: SameUp(up, up64, x)
    requires align <= HIGHEST_ALIGN && ptr <= up(ptr) < ptr + align && 0 <= GapBy(up, ptr, align) < WORD_LIMIT
    ensures Gap64By(up64, ptr, align) == GapBy(up, ptr, align)
  {
    var aligned, aligned64 := up(ptr), up64(ptr);
    var gap := aligned - ptr;
    assert SameUp(up, up64, ptr);
    DifferenceWraps(aligned, aligned64, ptr);
    if 0 < gap < 32 {
      var offset := GapOffset(gap, align);
      SumWraps(aligned, aligned64, offset);
      assert SameUp(up, up64, aligned + offset);
      DifferenceWraps(up(aligned + offset), up64(Wrap(aligned + offset)), ptr);
    }
  }

  /** That is the same gap. */
  lemma GapWraps(ptr: U64, align: U64)
    requires IsPow2(align) && ptr % 8 == 0
    ensures align > 0 && Gap64(ptr, align) == Gap(ptr, align)
  {
    AlignLimit(align);
    WordsMultiple(align);
    GapBound(ptr, align);
    var up, up64 := Ups(align), Ups64(align);
    forall x: nat {:trigger SameUp(up, up64, x)} ensures SameUp(up, up64, x) { BoundaryWraps(x, align); }
    GapSame(up, up64, ptr, align);
  }

  lemma WordsMultiple(align: U64)
    requires IsPow2(align)
    ensures align > 0 && Multiple(WORD_LIMIT, align)
  {
    var e: nat :| align == Pow2(e);
    Pow2Of64();
    if e >= 64 { Pow2Mono(64, e); }
    MultiplePow2(e, 64 - e);
  }

  /** After the split both parts are free and in hand, and no other neighbour is free. */
  lemma LeadingSplit(h: Heap, b: int, gap: nat)
    requires Inv(h, {b}) && IsFree(h, b) && !IsFree(h, Next(h, b)) && !IsFree(h, Prev(h, b))
    requires gap >= 32 && gap % 8 == 0 && CanSplit(h, b, gap)
    ensures var h1, c := Split(h, b, gap - 8), b + gap;
      && Inv(h1, {b} + {c}) && IsFree(h1, b) && IsFree(h1, c) && Size(h1, c) == Size(h, b) - gap && b != c
      && Next(h1, b) == c && !IsFree(h1, Prev(h1, b)) && !IsFree(h1, Next(h1, c)) && Kept(h, h1, {b})
  {
    assert BlockOk(h, b) && LinkOk(h, b) && BackOk(h, b);
    SplitInv(h, b, gap - 8, {b});
    SplitFresh(h, b, gap - 8);
    KeptSteps(h, b, gap - 8, true, {b});
    assert Prev(h, b) != b + gap;
  }

  lemma TrimLeadingInv(h: Heap, b: int, gap: nat)
    requires Inv(h, {b}) && IsFree(h, b) && !IsFree(h, Next(h, b)) && !IsFree(h, Prev(h, b))
    requires gap >= 32 && gap % 8 == 0 && CanSplit(h, b, gap)
    ensures var (h', c) := TrimLeading(h, b, gap);
      && c == b + gap && Inv(h', {c}) && IsFree(h', c) && Size(h', c) == Size(h, b) - gap
      && !IsFree(h', Next(h', c)) && Kept(h, h', {b})
  {
    var c, h1 := b + gap, Split(h, b, gap - 8);
    LeadingSplit(h, b, gap);
    AttachInv(h1, b, {b} + {c});
    assert {b} + {c} - {b} == {c};
    KeptSteps(h1, b, 0, true, {b});
    KeptTrans(h, h1, Attach(h1, b), {b});
  }

  /** The largest alignment of a machine word; all others are at most half of it. */
  const HIGHEST_ALIGN: nat := 0x8000_0000_0000_0000

  lemma AlignLimit(align: U64)
    requires IsPow2(align)
    ensures align <= HIGHEST_ALIGN && (align < HIGHEST_ALIGN ==> 2 * align <= HIGHEST_ALIGN)
  {
    var e: nat :| align == Pow2(e);
    Pow2Of64();
    if e >= 64 { Pow2Mono(64, e); }
    if e < 63 { Pow2Mono(e, 62); }
  }

  lemma HighestIsPow2()
    ensures IsPow2(HIGHEST_ALIGN)
  {
    Pow2Of64();
  }

  lemma AdjustMultiple(n: U64, align: U64)
    requires align > 0 && align % 8 == 0 && n + align <= WORD_LIMIT
    ensures var r := AdjustRequest(n, align); r % 8 == 0 && (r != 0 ==> r >= n)
  {
    AlignUp64Exact(n, align);
    MultipleOf8(AlignUp64(n, align), align);
  }

  /**
   * The block found is large enough for the largest gap and the request after it, exactly if
   * the alignment is not the highest one, for which the sum wraps around to the smallest block.
   */
  ghost predicate AlignedOk(align: nat, adjust: nat, s: nat) {
    && s % 8 == 0 && (s != 0 ==> adjust != 0) && (align <= 8 ==> s == adjust)
    && (s != 0 && align > 8 ==> (s >= adjust + align + 32 <==> align < HIGHEST_ALIGN))
    && (adjust != 0 && align == HIGHEST_ALIGN ==> s == 24)
  }

  lemma AlignedSizeFacts(align: U64, size: U64)
    requires IsPow2(align)
    ensures align > 0 && AlignedOk(align, AdjustRequest(size, 8), AlignedSize(align, size))
  {
    Pow2Cases(align);
    AdjustShape(size);
    if AdjustRequest(size, 8) != 0 && align > 8 { WithGap(align, AdjustRequest(size, 8)); }
  }

  lemma WithGap(align: U64, adjust: nat)
    requires IsPow2(align) && align > 8 && 0 < adjust < BLOCK_SIZE_MAX
    ensures AlignedOk(align, adjust, AdjustRequest(Wrap(adjust + align + 32), align))
  {
    Pow2Cases(align);
    AlignLimit(align);
    if align < HIGHEST_ALIGN { RoomForGap(align, adjust); } else { WrapsToNothing(adjust); }
  }

  lemma RoomForGap(align: U64, adjust: nat)
    requires 8 < align && 2 * align <= HIGHEST_ALIGN && align % 8 == 0 && adjust < BLOCK_SIZE_MAX
    ensures var s := AdjustRequest(Wrap(adjust + align + 32), align);
      s % 8 == 0 && (s != 0 ==> s >= adjust + align + 32)
  {
    assert Wrap(adjust + align + 32) == adjust + align + 32;
    AdjustMultiple(adjust + align + 32, align);
  }

  lemma WrapsToNothing(adjust: nat)
    requires adjust < BLOCK_SIZE_MAX
    ensures AlignUp64(Wrap(adjust + HIGHEST_ALIGN + 32), HIGHEST_ALIGN) == 0
  {
    assert Wrap(adjust + HIGHEST_ALIGN + 32) == adjust + HIGHEST_ALIGN + 32;
    assert Wrap(adjust + HIGHEST_ALIGN + 32 + HIGHEST_ALIGN - 1) == adjust + 31;
  }

  /** How much of the block in hand goes back to the lists. */
  function Cut(h: Heap, b: int, align: nat): nat
    requires align > 0
  {
    var gap := if b + 16 >= 0 then Gap(b + 16, align) else 0;
    if gap > 0 && CanSplit(h, b, gap) then gap else 0
  }

  lemma NoGap(ptr: nat, align: nat)
    requires align > 0 && Multiple(ptr, align)
    ensures Gap(ptr, align) == 0
  {
    AlignUpFixed(ptr, align);
  }

  /**
   * The outcome of placing the block `b`, of which `cut` bytes go back to the lists; `aligned` says
   * whether that is all it takes.
   */
  ghost predicate PlacedOk(h: Heap, b: int, align: nat, adjust: nat, cut: nat, aligned: bool, r: (Heap, int))
    requires align > 0
  {
    && Good(r.0) && r.1 - 16 in r.0.blocks && !IsFree(r.0, r.1 - 16) && 0 < Size(r.0, r.1 - 16) < BLOCK_SIZE_MAX
    && r.1 == b + 16 + cut > 0 && Kept(h, r.0, {b}) && (Multiple(r.1, align) <==> aligned)
    && (Size(r.0, r.1 - 16) >= adjust <==> Size(h, b) - cut >= adjust)
  }

  /**
   * With a gap the first part goes back to the lists, if there is room for that; the payload is
   * aligned exactly then.
   */
  lemma PlaceAlignedGood(h: Heap, b: int, align: nat, adjust: nat)
    requires IsPow2(align) && align > 0 && Inv(h, {b}) && IsFree(h, b)
    requires !IsFree(h, Next(h, b)) && !IsFree(h, Prev(h, b))
    requires adjust >= 24 && adjust % 8 == 0
    ensures b > 0 && PlacedOk(h, b, align, adjust, Cut(h, b, align), Cut(h, b, align) == Gap(b + 16, align),
                        PlaceAligned(h, b, align, adjust))
  {
    assert BlockOk(h, b);
    var gap := Gap(b + 16, align);
    GapFacts(b + 16, align);
    if gap > 0 && Multiple(b + 16, align) { NoGap(b + 16, align); }
    if gap > 0 && CanSplit(h, b, gap) {
      TrimLeadingInv(h, b, gap);
      var (h1, c) := TrimLeading(h, b, gap);
      PrepareUsedGood(h1, c, adjust);
      var h' := PrepareUsed(h1, c, adjust);
      KeptFree(h1, h', c);
      KeptMore(h1, h', {}, {b});
      KeptTrans(h, h1, h', {b});
    } else {
      PrepareUsedGood(h, b, adjust);
    }
  }

  /** The block found, once in hand, has room for any gap below the highest alignment. */
  lemma AlignedFound(h: Heap, align: U64, size: U64)
    requires Good(h) && IsPow2(align)
    ensures align > 0
    ensures var b, adjust := Locate(h, AlignedSize(align, size)), AdjustRequest(size, 8);
      b != 0 ==>
        && var h1 := Detach(h, b);
        && IsFree(h, b) && IsFree(h1, b) && Inv(h1, {b}) && !IsFree(h1, Next(h1, b)) && !IsFree(h1, Prev(h1, b))
        && adjust >= 24 && adjust % 8 == 0 && (align <= 8 ==> Size(h1, b) >= adjust)
        && (8 < align < HIGHEST_ALIGN ==> Size(h1, b) >= adjust + align + 32)
  {
    AlignedSizeFacts(align, size);
    AdjustFacts(size);
    if Locate(h, AlignedSize(align, size)) != 0 { Located(h, AlignedSize(align, size)); }
  }

  lemma CutFits(h: Heap, b: int, align: nat, adjust: nat)
    requires IsPow2(align) && align > 0 && BlockOk(h, b) && adjust >= 24
    ensures (if align > 8 then Size(h, b) >= adjust + align + 32 else Size(h, b) >= adjust) ==>
      Cut(h, b, align) == Gap(b + 16, align) && Size(h, b) - Cut(h, b, align) >= adjust
  {
    GapFacts(b + 16, align);
  }

  /**
   * What `tlsf_memalign` promises: all but the highest alignment is met, and the size exactly if it
   * does not wrap around.
   */
  ghost predicate AlignedResult(h: Heap, align: nat, size: nat, r: (Heap, int))
    requires align > 0
  {
    && Good(r.0) && Kept(h, r.0, {}) && (r.1 == 0 ==> r.0 == h)
    && (r.1 != 0 ==> r.1 > 0 && size > 0 && r.1 - 16 in r.0.blocks && !IsFree(r.0, r.1 - 16)
                     && 0 < Size(r.0, r.1 - 16) < BLOCK_SIZE_MAX)
    && (r.1 != 0 && align < HIGHEST_ALIGN ==>
          Multiple(r.1, align) && (Size(r.0, r.1 - 16) >= size <==> size <= WORD_LIMIT - 8))
  }

  lemma Handed(h: Heap, h1: Heap, b: int, align: nat, size: U64, adjust: nat, cut: nat, aligned: bool, r: (Heap, int))
    requires align > 0 && PlacedOk(h1, b, align, adjust, cut, aligned, r) && Kept(h, h1, {b}) && IsFree(h, b)
    requires align < HIGHEST_ALIGN ==> aligned && Size(h1, b) - cut >= adjust
    requires size > 0 && (adjust >= size <==> size <= WORD_LIMIT - 8)
    ensures AlignedResult(h, align, size, r)
  {
    KeptTrans(h, h1, r.0, {b});
    KeptFree(h, r.0, b);
  }

  lemma MemalignFound(h: Heap, align: U64, size: U64, b: int)
    requires Good(h) && IsPow2(align) && align > 0 && b == Locate(h, AlignedSize(align, size)) != 0
    ensures PlaceAligned(Detach(h, b), b, align, AdjustRequest(size, 8)).1 > 0
    ensures AlignedResult(h, align, size, PlaceAligned(Detach(h, b), b, align, AdjustRequest(size, 8)))
  {
    var h1, adjust := Detach(h, b), AdjustRequest(size, 8);
    Pow2Cases(align);
    AlignedFound(h, align, size);
    AdjustFacts(size);
    assert BlockOk(h1, b);
    KeptSteps(h, b, 0, true, {b});
    CutFits(h1, b, align, adjust);
    PlaceAlignedGood(h1, b, align, adjust);
    Handed(h, h1, b, align, size, adjust, Cut(h1, b, align), Cut(h1, b, align) == Gap(b + 16, align),
      PlaceAligned(h1, b, align, adjust));
  }

  /** `tlsf_memalign` keeps the invariant, and its promise. */
  lemma MemalignGood(h: Heap, align: U64, size: U64)
    requires Good(h) && IsPow2(align)
    ensures align > 0 && AlignedResult(h, align, size, Memalign(h, align, size))
  {
    Pow2Cases(align);
    var b := Locate(h, AlignedSize(align, size));
    if b != 0 { MemalignFound(h, align, size, b); }
  }

  // ---------- when memalign succeeds ----------

  /** `m` is the least multiple of `align` from `t` on; see `LeastBelowAll`. */
  predicate LeastMultiple(align: nat, t: nat, m: nat)
    requires align > 0
  {
    Multiple(m, align) && t <= m < t + align
  }

  lemma LeastBelowAll(align: nat, t: nat, m: nat, x: nat)
    requires align > 0 && LeastMultiple(align, t, m) && Multiple(x, align) && x >= t
    ensures m <= x
  {
    if x < m { MultiplesApart(x, m, align); }
  }

  lemma LeastIs(align: nat, t: nat, m: nat)
    requires align > 0 && LeastMultiple(align, t, m)
    ensures AlignUp(t, align) == m
  {
    AlignUpBounds(t, align);
    LeastBelowAll(align, t, m, AlignUp(t, align));
    LeastBelowAll(align, t, AlignUp(t, align), m);
  }

  /**
   * `w` is the number of bytes that must be found for an adjusted request: room for it after the
   * largest gap, as a multiple of the alignment; 0 if no block can be that large.
   */
  ghost predicate Wanted(align: nat, adjust: nat, w: nat) {
    if adjust == 0 || align <= 8 then w == adjust
    else if align == HIGHEST_ALIGN then w == 24
    else exists m: nat :: WithinLimit(align, adjust, m, w)
  }

  predicate WithinLimit(align: nat, adjust: nat, m: nat, w: nat)
    requires align > 0
  {
    LeastMultiple(align, adjust + align + 32, m) && w == if m < BLOCK_SIZE_MAX then m else 0
  }

  lemma AdjustLeast(align: U64, adjust: nat, m: nat)
    requires 8 < align && 2 * align <= HIGHEST_ALIGN && adjust < BLOCK_SIZE_MAX
    requires LeastMultiple(align, adjust + align + 32, m)
    ensures AdjustRequest(Wrap(adjust + align + 32), align) == if m < BLOCK_SIZE_MAX then m else 0
  {
    var t := adjust + align + 32;
    assert Wrap(t) == t;
    LeastIs(align, t, m);
    AlignUp64Exact(t, align);
  }

  lemma WithGapIs(align: U64, adjust: nat, w: nat)
    requires IsPow2(align) && align > 8 && 0 < adjust < BLOCK_SIZE_MAX && Wanted(align, adjust, w)
    ensures AdjustRequest(Wrap(adjust + align + 32), align) == w
  {
    AlignLimit(align);
    if align == HIGHEST_ALIGN {
      WrapsToNothing(adjust);
    } else {
      var m: nat :| WithinLimit(align, adjust, m, w);
      AdjustLeast(align, adjust, m);
    }
  }

  /** The size looked for is the one wanted, and there always is one. */
  lemma AlignedSizeExact(align: U64, size: U64)
    requires IsPow2(align)
    ensures align > 0 && Wanted(align, AdjustRequest(size, 8), AlignedSize(align, size))
    ensures forall w :: Wanted(align, AdjustRequest(size, 8), w) ==> AlignedSize(align, size) == w
  {
    Pow2Cases(align);
    AdjustShape(size);
    var adjust := AdjustRequest(size, 8);
    if adjust != 0 && align > 8 {
      forall w | Wanted(align, adjust, w) ensures AlignedSize(align, size) == w { WithGapIs(align, adjust, w); }
      WantedExists(align, adjust);
    }
  }

  lemma WantedExists(align: nat, adjust: nat)
    requires align > 8 && adjust != 0
    ensures exists w :: Wanted(align, adjust, w)
  {
    if align == HIGHEST_ALIGN {
      assert Wanted(align, adjust, 24);
    } else {
      var m := AlignUp(adjust + align + 32, align);
      AlignUpBounds(adjust + align + 32, align);
      assert WithinLimit(align, adjust, m, if m < BLOCK_SIZE_MAX then m else 0);
      assert Wanted(align, adjust, if m < BLOCK_SIZE_MAX then m else 0);
    }
  }

  /** `tlsf_memalign` succeeds exactly if some free block is in a class searched for that number of bytes. */
  lemma MemalignSucceedsIff(h: Heap, align: U64, size: U64, w: nat)
    requires Good(h) && IsPow2(align) && Wanted(align, AdjustRequest(size, 8), w)
    ensures align > 0 && (Memalign(h, align, size).1 != 0 <==> Obtainable(h, w))
  {
    AlignedSizeExact(align, size);
    AlignedSizeFacts(align, size);
    LocateIff(h, w);
    if Locate(h, w) != 0 { MemalignFound(h, align, size, Locate(h, w)); }
  }

  /** In particular whenever a free block is that large, or 33/32 of it from 256 bytes on. */
  lemma MemalignSucceeds(h: Heap, align: U64, size: U64, w: nat, b: int)
    requires Good(h) && IsPow2(align) && Wanted(align, AdjustRequest(size, 8), w) && w != 0
    requires IsFree(h, b) && if w < 256 then Size(h, b) >= w else 32 * Size(h, b) >= 33 * w
    ensures align > 0 && Memalign(h, align, size).1 != 0
  {
    AlignedSizeExact(align, size);
    AlignedSizeFacts(align, size);
    LargeServes(h, w, b);
    MemalignSucceedsIff(h, align, size, w);
  }

  // ---------- what memalign does to the block found ----------

  /** The block `b` is cut at the payload `p`: what is before it stays free, and of the rest the request is taken. */
  ghost predicate CarvedOut(h: Heap, h': Heap, b: int, align: nat, adjust: nat, p: int)
    requires align > 0
  {
    && IsFree(h, b) && p - 16 == b + Cut(h, b, align) && p - 16 in h'.blocks
    && Size(h', p - 16) == Trimmed(Size(h, b) - Cut(h, b, align), adjust)
    && (Cut(h, b, align) > 0 ==> IsFree(h', b) && Next(h', b) == p - 16)
    && (Size(h, b) - Cut(h, b, align) >= adjust + 32 ==>
          IsFree(h', Next(h', p - 16)) && Next(h', Next(h', p - 16)) == Next(h, b))
  }

  lemma PlaceCarves(h: Heap, b: int, align: nat, adjust: nat)
    requires IsPow2(align) && align > 0 && Inv(h, {b}) && IsFree(h, b)
    requires !IsFree(h, Next(h, b)) && !IsFree(h, Prev(h, b))
    requires adjust >= 24 && adjust % 8 == 0
    ensures var (h', p) := PlaceAligned(h, b, align, adjust); CarvedOut(h, h', b, align, adjust, p)
  {
    assert BlockOk(h, b);
    var gap := Gap(b + 16, align);
    GapFacts(b + 16, align);
    if gap > 0 && CanSplit(h, b, gap) {
      LeadingCarves(h, b, gap, adjust);
    } else {
      PrepareTakes(h, b, adjust);
      RestTaken(h, PrepareUsed(h, b, adjust), b, adjust);
    }
  }

  /** What `Taken` says about the block itself and the rest. */
  lemma RestTaken(h: Heap, h': Heap, c: int, size: nat)
    requires Taken(h, h', c, size) && c in h.blocks
    ensures c in h'.blocks && Size(h', c) == Trimmed(Size(h, c), size)
    ensures Size(h, c) >= size + 32 ==> IsFree(h', Next(h', c)) && Next(h', Next(h', c)) == Next(h, c)
  {
    assert TakenAt(h, h', c, size, c) && TakenAt(h, h', c, size, c + 8 + size);
  }

  lemma LeadingCarves(h: Heap, b: int, gap: nat, adjust: nat)
    requires Inv(h, {b}) && IsFree(h, b) && !IsFree(h, Next(h, b)) && !IsFree(h, Prev(h, b))
    requires gap >= 32 && gap % 8 == 0 && CanSplit(h, b, gap) && adjust >= 24 && adjust % 8 == 0
    ensures var (h1, c) := TrimLeading(h, b, gap); var h' := PrepareUsed(h1, c, adjust);
      && c == b + gap && c in h'.blocks && Size(h', c) == Trimmed(Size(h, b) - gap, adjust)
      && IsFree(h', b) && Next(h', b) == c
      && (Size(h, b) - gap >= adjust + 32 ==> IsFree(h', Next(h', c)) && Next(h', Next(h', c)) == Next(h, b))
  {
    LeadingSplit(h, b, gap);
    TrimLeadingInv(h, b, gap);
    var (h1, c) := TrimLeading(h, b, gap);
    var h' := PrepareUsed(h1, c, adjust);
    PrepareTakes(h1, c, adjust);
    RestTaken(h1, h', c, adjust);
    assert TakenAt(h1, h', c, adjust, b);
  }

  /** `tlsf_memalign` cuts a free block that is in a class searched. */
  lemma MemalignCarves(h: Heap, align: U64, size: U64, w: nat) returns (b: int)
    requires Good(h) && IsPow2(align) && align > 0 && Wanted(align, AdjustRequest(size, 8), w)
    ensures var (h', p) := Memalign(h, align, size);
      p != 0 ==> Serves(h, w, b) && CarvedOut(h, h', b, align, AdjustRequest(size, 8), p)
  {
    AlignedSizeExact(align, size);
    AlignedSizeFacts(align, size);
    AlignedFound(h, align, size);
    b := Locate(h, w);
    if b != 0 {
      LocateClass(h, w);
      PlaceCarves(Detach(h, b), b, align, AdjustRequest(size, 8));
    }
  }

  /** The outcome succeeds exactly if some free block is in a class searched for the number of bytes wanted. */
  ghost predicate Sought(h: Heap, align: nat, adjust: nat, p: int) {
    forall w {:trigger Wanted(align, adjust, w)} :: Wanted(align, adjust, w) ==> (p != 0 <==> Obtainable(h, w))
  }

  /** All that `tlsf_memalign` promises about its outcome. */
  lemma MemalignAll(h: Heap, align: U64, size: U64)
    requires Good(h) && IsPow2(align)
    ensures align > 0 && AlignedResult(h, align, size, Memalign(h, align, size))
    ensures Sought(h, align, AdjustRequest(size, 8), Memalign(h, align, size).1)
  {
    MemalignGood(h, align, size);
    forall w {:trigger Wanted(align, AdjustRequest(size, 8), w)} | Wanted(align, AdjustRequest(size, 8), w)
      ensures Memalign(h, align, size).1 != 0 <==> Obtainable(h, w)
    {
      MemalignSucceedsIff(h, align, size, w);
    }
  }
}
