/** Sizes, size classes and the search for a list of a given class, in the 64-bit configuration. */
module TlsfMapping {
  import opened Arithmetic

  // The constants of the 64-bit configuration: ALIGN_SIZE 8, block_header_overhead 8,
  // block_size_min 24, sizeof(block_header_t) 32, SL_INDEX_COUNT 32, FL_INDEX_COUNT 25,
  // SMALL_BLOCK_SIZE 256 and block_size_max 2^32.
  const BLOCK_SIZE_MAX: nat := 0x1_0000_0000
  const FL_COUNT: nat := 25
  const LIST_COUNT: nat := 800

  /** `adjust_request_size`: 0 when the request is empty or too large. */
  function AdjustRequest(size: U64, align: U64): (r: nat)
    requires align > 0
  {
    if size == 0 then 0
    else
      var aligned := AlignUp64(size, align);
      if aligned >= BLOCK_SIZE_MAX then 0
      else if aligned > 24 then aligned else 24
  }

  /** A request of at least `BLOCK_SIZE_MAX - 7` bytes that `align_up` does not take past the last machine word. */
  predicate Refused(size: U64) {
    BLOCK_SIZE_MAX - 8 < size <= WORD_LIMIT - 8
  }

  /** The last seven sizes wrap around to the smallest block. */
  lemma AdjustFacts(size: U64)
    ensures var r := AdjustRequest(size, 8);
      && r % 8 == 0 && r < BLOCK_SIZE_MAX
      && (r == 0 <==> size == 0 || Refused(size))
      && (r != 0 ==> r >= 24 && (r >= size <==> size <= WORD_LIMIT - 8))
      && (size > WORD_LIMIT - 8 ==> r == 24)
  {
    if size > WORD_LIMIT - 8 {
      assert Wrap(size + 7) < 8;
    } else if size > 0 {
      AlignUp64Exact(size, 8);
      AlignUpFacts(size, 8);
    }
  }

  lemma AdjustShape(size: U64)
    ensures var r := AdjustRequest(size, 8); r % 8 == 0 && (r == 0 || 24 <= r < BLOCK_SIZE_MAX)
  {
    AdjustFacts(size);
  }

  /** The adjustment adds less than a word, or goes up to the smallest block. */
  lemma AdjustLess(size: U64)
    ensures AdjustRequest(size, 8) < size + 8 || AdjustRequest(size, 8) == 24
  {
    if 0 < size <= WORD_LIMIT - 8 {
      AlignUp64Exact(size, 8);
      AlignUpFacts(size, 8);
    } else {
      AdjustFacts(size);
    }
  }

  lemma AdjustExact(size: U64)
    requires 24 <= size < BLOCK_SIZE_MAX && size % 8 == 0
    ensures AdjustRequest(size, 8) == size
  {
    AdjustFacts(size);
    AdjustLess(size);
  }

  /** `mapping_insert`. On values from 32 to 63, the source's exclusive or with 32 subtracts 32. */
  function MappingInsert(size: nat): (int, int) {
    if size < 256 then (0, size / 8)
    else
      var f := Fls(size);
      (f - 7, if f >= 5 then ShiftRight(size, f - 5) - 32 else 0)
  }

  /** `mapping_search`: the size is first rounded up to the next class. */
  function SearchSize(size: nat): nat {
    if size >= 256 && Fls(size) >= 5 then size + Pow2(Fls(size) - 5) - 1 else size
  }

  function MappingSearch(size: nat): (int, int) {
    MappingInsert(SearchSize(size))
  }

  /** The class of a size as one number, in the order of the table. */
  function Index(size: nat): int {
    MappingInsert(size).0 * 32 + MappingInsert(size).1
  }

  /** The smallest size of a class: steps of 8 in the first two rows, then twice the row before. */
  function LowerBound(k: nat): (lb: nat)
    ensures lb >= 8 * k
  {
    if k < 64 then 8 * k else 2 * LowerBound(k - 32)
  }

  lemma FlsLarge(size: nat)
    requires size >= 256
    ensures Fls(size) >= 8 && (size < 512 ==> Fls(size) == 8)
  {
    var f := Fls(size);
    assert Pow2(8) == 256 && Pow2(9) == 512 by { Pow2Small(); }
    if f < 8 { Pow2Mono(f + 1, 8); }
    if f > 8 { Pow2Mono(9, f); }
  }

  lemma Pow2Small()
    ensures Pow2(3) == 8 && Pow2(8) == 256 && Pow2(9) == 512
  {
    assert Pow2(4) == 16;
    Pow2Sum(4, 4);
  }

  lemma Pow2Times(e: nat)
    ensures Pow2(e + 5) == 32 * Pow2(e) && Pow2(e + 6) == 64 * Pow2(e)
  {
    Pow2Sum(e, 5);
    Pow2Next(e + 5);
    assert Pow2(5) == 32;
  }

  lemma LargeSize(size: nat)
    requires size >= 256
    ensures Fls(size) >= 8 && 32 <= ShiftRight(size, Fls(size) - 5) < 64
  {
    FlsLarge(size);
    Pow2Times(Fls(size) - 5);
    ShiftCompare(size, 32, Fls(size) - 5);
    ShiftCompare(size, 64, Fls(size) - 5);
  }

  lemma FlsBelow32(size: nat)
    requires size > 0
    ensures size < BLOCK_SIZE_MAX <==> Fls(size) < 32
  {
    Pow2Of32();
    if Fls(size) >= 32 { Pow2Mono(32, Fls(size)); } else { Pow2Mono(Fls(size) + 1, 32); }
  }

  /** The table has a place for every block size. */
  lemma MappingInRange(size: nat)
    ensures 0 <= MappingInsert(size).0 && 0 <= MappingInsert(size).1 < 32
    ensures size < BLOCK_SIZE_MAX <==> MappingInsert(size).0 < FL_COUNT
    ensures 0 <= Index(size) && (size < BLOCK_SIZE_MAX <==> Index(size) < LIST_COUNT)
  {
    if size >= 256 {
      LargeSize(size);
      FlsBelow32(size);
    }
  }

  lemma IndexSmall(size: nat)
    requires size < 512
    ensures Index(size) == size / 8
  {
    if size >= 256 {
      FlsLarge(size);
      assert ShiftRight(size, 3) == ShiftRight(size / 2 / 2, 1) == size / 2 / 2 / 2;
    }
  }

  /** From 512 on, half the size is one row up. */
  lemma IndexHalf(size: nat)
    requires size >= 512
    ensures Index(size) == 32 + Index(size / 2)
  {
    FlsHalf(size);
    FlsLarge(size / 2);
    ShiftHalf(size, Fls(size / 2) - 5);
  }

  lemma {:induction false} IndexLarge(size: nat)
    requires size >= 256
    ensures Index(size) >= 32 && (size >= 512 ==> Index(size) >= 64)
  {
    if size >= 512 {
      IndexHalf(size);
      IndexLarge(size / 2);
    } else {
      IndexSmall(size);
    }
  }

  /** A size is in class `k` or a later one exactly when it reaches the lower bound of `k`. */
  lemma {:induction false} IndexAtLeast(size: nat, k: nat)
    ensures Index(size) >= k <==> size >= LowerBound(k)
  {
    if size < 512 {
      IndexSmall(size);
    } else {
      IndexLarge(size);
      if k >= 64 {
        IndexHalf(size);
        IndexAtLeast(size / 2, k - 32);
      }
    }
  }

  /** Larger sizes are in later classes. */
  lemma IndexMono(x: nat, y: nat)
    requires x <= y
    ensures Index(x) <= Index(y)
  {
    MappingInRange(x);
    IndexAtLeast(x, Index(x));
    IndexAtLeast(y, Index(x));
  }

  /** The step between the classes around a size. */
  function StepOf(y: nat): (p: nat)
    requires y >= 256
    ensures 8 <= p && 32 * p <= y < 64 * p
  {
    if y < 512 then 8 else 2 * StepOf(y / 2)
  }

  lemma {:induction false} StepPower(y: nat) returns (e: nat)
    requires y >= 256
    ensures StepOf(y) == Pow2(e)
  {
    if y < 512 {
      e := 3;
      assert Pow2(3) == 8;
    } else {
      var d := StepPower(y / 2);
      e := d + 1;
    }
  }

  lemma StepIsPow2(y: nat)
    requires y >= 256
    ensures Fls(y) >= 5 && StepOf(y) == Pow2(Fls(y) - 5)
  {
    var e := StepPower(y);
    Pow2Times(e);
    FlsUnique(y, e + 5);
  }

  /** A size is less than one step above the lower bound of its class. */
  lemma {:induction false} OwnBounds(y: nat)
    requires y >= 256
    ensures Index(y) >= 32
    ensures var lb := LowerBound(Index(y)); lb <= y < lb + StepOf(y) && lb >= 32 * StepOf(y)
  {
    IndexLarge(y);
    if y >= 512 {
      IndexHalf(y);
      OwnBounds(y / 2);
    } else {
      IndexSmall(y);
    }
  }

  lemma {:induction false} StepMono(x: nat, y: nat)
    requires 256 <= x <= y
    ensures StepOf(x) <= StepOf(y) && (StepOf(x) < StepOf(y) ==> 2 * StepOf(x) <= StepOf(y))
  {
    if x >= 512 { StepMono(x / 2, y / 2); }
  }

  /** Rounding `y` down to its step stays at or above `size`, if `y` is `size` plus one step less one. */
  lemma RoundedEnough(size: nat, y: nat, lb: nat)
    requires size >= 256 && y == size + StepOf(size) - 1 && y >= size
    requires lb <= y < lb + StepOf(y) && lb >= 32 * StepOf(y)
    ensures size <= lb
  {
    StepMono(size, y);
  }

  lemma SearchSizeIs(size: nat)
    requires size >= 256
    ensures SearchSize(size) == size + StepOf(size) - 1
  {
    StepIsPow2(size);
  }

  /** The search starts at a class whose smallest size is enough. */
  lemma SearchSuffices(size: nat)
    requires size % 8 == 0
    ensures Index(SearchSize(size)) >= 0
    ensures size <= LowerBound(Index(SearchSize(size))) <= SearchSize(size)
  {
    var y := SearchSize(size);
    if size >= 256 {
      SearchSizeIs(size);
      OwnBounds(y);
      RoundedEnough(size, y, LowerBound(Index(y)));
    } else {
      IndexSmall(y);
    }
  }

  /** Good fit: every block of the classes searched is large enough. */
  lemma GoodFit(size: nat, block: nat)
    requires size % 8 == 0 && Index(block) >= Index(SearchSize(size))
    ensures block >= size
  {
    SearchSuffices(size);
    IndexAtLeast(block, Index(SearchSize(size)));
  }

  /** The rounding costs at most one part in 32: a block that much larger is always in a class searched. */
  lemma SearchReaches(size: nat, block: nat)
    requires size % 8 == 0
    requires if size < 256 then block >= size else 32 * block >= 33 * size
    ensures Index(block) >= Index(SearchSize(size))
  {
    SearchSuffices(size);
    var lb := LowerBound(Index(SearchSize(size)));
    if size >= 256 {
      SearchSizeIs(size);
      RoundingCost(size, StepOf(size), lb, block);
    }
    IndexAtLeast(block, Index(SearchSize(size)));
  }

  lemma RoundingCost(size: nat, p: nat, lb: nat, block: nat)
    requires 32 * p <= size && lb <= size + p - 1 && 32 * block >= 33 * size
    ensures block >= lb
  {
  }
}
