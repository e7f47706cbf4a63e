/** The physical frame allocator: a bitmap searched by next fit. A set bit marks a frame in use. */
module PhysMem {
  import opened Arithmetic

  /** The frames from `i` on are `count` free frames. */
  predicate FreeRun(bits: seq<bool>, i: int, count: nat) {
    0 <= i && i + count <= |bits| && forall k :: i <= k < i + count ==> !bits[k]
  }

  /** The first run of `count` free frames from `i` on, or -1. */
  function First(bits: seq<bool>, i: nat, count: nat): (j: int)
    ensures j == -1 || (count > 0 && i <= j && FreeRun(bits, j, count))
    ensures forall k :: i <= k && (j == -1 || k < j) && count > 0 ==> !FreeRun(bits, k, count)
    decreases |bits| - i
  {
    if count == 0 || i >= |bits| then -1
    else if FreeRun(bits, i, count) then i
    else First(bits, i + 1, count)
  }

  lemma FirstUnique(bits: seq<bool>, i: nat, count: nat, j: int)
    requires j == -1 || (count > 0 && i <= j && FreeRun(bits, j, count))
    requires forall k :: i <= k && (j == -1 || k < j) && count > 0 ==> !FreeRun(bits, k, count)
    ensures First(bits, i, count) == j
  {
  }

  /** The frames from `i` on, `count` of them, marked as `used`. */
  function Marked(bits: seq<bool>, i: int, count: nat, used: bool): (r: seq<bool>)
    ensures |r| == |bits|
    ensures forall k :: 0 <= k < |bits| ==> r[k] == if i <= k < i + count then used else bits[k]
  {
    seq(|bits|, k requires 0 <= k < |bits| => if i <= k < i + count then used else bits[k])
  }

  /** The number of free frames. */
  function Clear(bits: seq<bool>): nat {
    if bits == [] then 0 else Clear(bits[..|bits| - 1]) + if bits[|bits| - 1] then 0 else 1
  }

  /** The number of frames of a range that are not marked `used` yet. */
  lemma {:induction false} MarkedClear(bits: seq<bool>, i: int, count: nat, used: bool)
    requires 0 <= i && forall k :: i <= k < i + count && k < |bits| ==> bits[k] != used
    ensures Clear(Marked(bits, i, count, used))
         == Clear(bits) + (if used then -1 else 1)
                          * (if i + count <= |bits| then count else if i <= |bits| then |bits| - i else 0)
    decreases |bits|
  {
    if bits != [] {
      var init := bits[..|bits| - 1];
      MarkedClear(init, i, count, used);
      assert Marked(bits, i, count, used)[..|bits| - 1] == Marked(init, i, count, used);
    }
  }

  // ---------- one attempt, and an allocation, on values ----------

  /** What one search does: the new bits, where it found a run, or -1. */
  function Attempt(bits: seq<bool>, top: nat, last: nat, count: nat): (seq<bool>, int)
    requires top <= |bits|
  {
    var j := First(bits[..top], last, count);
    (if j >= 0 then Marked(bits, j, count, true) else bits, j)
  }

  /** An allocation is a search and, if that returns address 0, another from the start. */
  function Allocate(bits: seq<bool>, top: nat, last: nat, count: nat): (seq<bool>, int)
    requires top <= |bits|
  {
    var (bits1, j) := Attempt(bits, top, last, count);
    if j > 0 then (bits1, j)
    else
      var (bits2, k) := Attempt(bits1, top, 0, count);
      (bits2, if k > 0 then k else -1)
  }

  /** Frame 0 is the start of the run found: the address 0 is then taken for a failure. */
  predicate TakesZero(bits: seq<bool>, top: nat, last: nat, count: nat)
    requires top <= |bits|
  {
    count > 0 && FreeRun(bits[..top], 0, count) && (last == 0 || First(bits[..top], last, count) < 0)
  }

  /** No run from `last` on is passed over, and one before `last` is taken only if there is none from there on. */
  ghost predicate NextFit(bits: seq<bool>, last: nat, count: nat, j: int) {
    forall k :: FreeRun(bits, k, count) ==> if j >= last then k < last || j <= k else j <= k < last
  }

  /** Unless frame 0 is taken, an allocation is sound and complete. */
  lemma AllocateOk(bits: seq<bool>, top: nat, last: nat, count: nat)
    requires top <= |bits| && !TakesZero(bits, top, last, count)
    ensures var (bits', j) := Allocate(bits, top, last, count);
      && (j < 0 <==> count == 0 || forall k :: !FreeRun(bits[..top], k, count))
      && (j < 0 ==> bits' == bits)
      && (j >= 0 ==> j > 0 && FreeRun(bits[..top], j, count) && bits' == Marked(bits, j, count, true))
      && (j >= 0 ==> NextFit(bits[..top], last, count, j))
  {
    var j := First(bits[..top], last, count);
    if j <= 0 {
      var k := First(bits[..top], 0, count);
      assert count > 0 && k < 0 ==> forall i :: !FreeRun(bits[..top], i, count);
    }
  }

  lemma RunClear(bits: seq<bool>, top: nat, j: int, count: nat)
    requires top <= |bits| && FreeRun(bits[..top], j, count)
    ensures Clear(Marked(bits, j, count, true)) == Clear(bits) - count
  {
    forall k | j <= k < j + count ensures !bits[k] { assert !bits[..top][k]; }
    MarkedClear(bits, j, count, true);
  }

  /** The counters stay right exactly if frame 0 is not taken. */
  lemma AllocateCount(bits: seq<bool>, top: nat, last: nat, count: nat)
    requires top <= |bits|
    ensures var (bits', j) := Allocate(bits, top, last, count);
      Clear(bits') == Clear(bits) - (if j >= 0 then count else 0) <==> !TakesZero(bits, top, last, count)
  {
    if TakesZero(bits, top, last, count) {
      ZeroLost(bits, top, last, count);
    } else {
      AllocateOk(bits, top, last, count);
      var j := Allocate(bits, top, last, count).1;
      if j >= 0 { RunClear(bits, top, j, count); }
    }
  }

  /** One free frame, frame 0: the allocation fails, and the frame is gone. */
  lemma FrameZeroInput()
    ensures Allocate([false], 1, 0, 1) == ([true], -1)
  {
    assert [false][..1] == [false] && [true][..1] == [true];
    FirstUnique([false], 0, 1, 0);
    forall k ensures !FreeRun([true], k, 1) { if k == 0 { assert [true][0]; } }
    FirstUnique([true], 0, 1, -1);
    assert Marked([false], 0, 1, true) == [true];
  }

  lemma FirstZero(bits: seq<bool>, count: nat)
    requires count > 0 && FreeRun(bits, 0, count)
    ensures First(bits, 0, count) == 0
  {
  }

  lemma ZeroLost(bits: seq<bool>, top: nat, last: nat, count: nat)
    requires top <= |bits| && TakesZero(bits, top, last, count)
    ensures var (bits', j) := Allocate(bits, top, last, count);
      Clear(bits') == Clear(bits) - count - (if j >= 0 then count else 0)
  {
    FirstZero(bits[..top], count);
    RunClear(bits, top, 0, count);
    var bits1 := Marked(bits, 0, count, true);
    if last == 0 {
      assert Attempt(bits, top, last, count) == (bits1, 0);
      TakenAgain(bits1, top, count);
    } else {
      assert Attempt(bits, top, last, count).0 == bits;
      assert Attempt(bits, top, 0, count) == (bits1, 0);
    }
  }

  lemma TakenAgain(bits: seq<bool>, top: nat, count: nat)
    requires 0 < top <= |bits| && bits[0]
    ensures var (bits', j) := Attempt(bits, top, 0, count);
      j != 0 && Clear(bits') == Clear(bits) - (if j > 0 then count else 0)
  {
    var j := First(bits[..top], 0, count);
    if j >= 0 {
      assert !bits[..top][j];
      RunClear(bits, top, j, count);
    }
  }

  // ---------- the memory map ----------

  datatype Region = Region(base: nat, length: nat, usable: bool)

  /** The frames the population loop clears for a region. */
  function Frames(r: Region): nat {
    (r.length + 4095) / 4096
  }

  predicate Holds(r: Region, k: int) {
    r.usable && r.base / 4096 <= k < r.base / 4096 + Frames(r)
  }

  /** The frame is in no usable region. */
  predicate NoneHolds(regions: seq<Region>, k: int) {
    forall i :: 0 <= i < |regions| ==> !Holds(regions[i], k)
  }

  function Populated(bits: seq<bool>, regions: seq<Region>): (r: seq<bool>)
    ensures |r| == |bits|
  {
    if regions == [] then bits
    else
      var r := regions[|regions| - 1];
      var rest := Populated(bits, regions[..|regions| - 1]);
      if r.usable then Marked(rest, r.base / 4096, Frames(r), false) else rest
  }

  function Pages(regions: seq<Region>, usable: bool): nat {
    if regions == [] then 0
    else
      var r := regions[|regions| - 1];
      Pages(regions[..|regions| - 1], usable) + if r.usable == usable then r.length / 4096 else 0
  }

  /** A frame is free at first exactly if it is in a usable region. */
  lemma {:induction false} PopulatedAt(bits: seq<bool>, regions: seq<Region>, k: int)
    requires 0 <= k < |bits|
    ensures Populated(bits, regions)[k] <==> bits[k] && NoneHolds(regions, k)
    decreases |regions|
  {
    if regions != [] {
      var init := regions[..|regions| - 1];
      PopulatedAt(bits, init, k);
      assert forall i :: 0 <= i < |init| ==> init[i] == regions[i];
    }
  }

  ghost predicate Apart(a: Region, b: Region) {
    !a.usable || !b.usable || a.base / 4096 + Frames(a) <= b.base / 4096 || b.base / 4096 + Frames(b) <= a.base / 4096
  }

  /** Usable regions are whole frames, do not overlap and are within the bitmap. */
  ghost predicate MapOk(regions: seq<Region>, n: nat) {
    && (forall i :: 0 <= i < |regions| && regions[i].usable ==>
          regions[i].length % 4096 == 0 && regions[i].base / 4096 + Frames(regions[i]) <= n)
    && (forall i, j :: 0 <= i < j < |regions| ==> Apart(regions[i], regions[j]))
  }

  lemma {:induction false} PopulatedClear(bits: seq<bool>, regions: seq<Region>)
    requires MapOk(regions, |bits|) && forall k :: 0 <= k < |bits| ==> bits[k]
    ensures Clear(Populated(bits, regions)) == Clear(bits) + Pages(regions, true)
    decreases |regions|
  {
    if regions != [] {
      var init, r := regions[..|regions| - 1], regions[|regions| - 1];
      PopulatedClear(bits, init);
      if r.usable {
        forall k | r.base / 4096 <= k < r.base / 4096 + Frames(r) ensures Populated(bits, init)[k] {
          PopulatedAt(bits, init, k);
          forall i | 0 <= i < |init| ensures !Holds(init[i], k) { assert Apart(regions[i], r); }
        }
        MarkedClear(Populated(bits, init), r.base / 4096, Frames(r), false);
      }
    }
  }

  /** The end of the highest usable region. */
  function Highest(regions: seq<Region>): nat {
    if regions == [] then 0
    else
      var r, h := regions[|regions| - 1], Highest(regions[..|regions| - 1]);
      if r.usable && r.base + r.length > h then r.base + r.length else h
  }

  /** The size of the bitmap in bytes. */
  function BitmapSize(top: nat): nat {
    AlignUp(top / 8, 4096)
  }

  /** The bitmap has a bit for every frame unless the last, incomplete byte falls just after a whole number of pages. */
  lemma BitmapCovers(top: nat)
    ensures top <= 8 * BitmapSize(top) <==> top % 8 == 0 || (top / 8) % 4096 != 0
  {
    AlignUpFacts(top / 8, 4096);
  }

  lemma BitmapRoom(top: nat)
    requires top % 8 == 0 || (top / 8) % 4096 != 0
    ensures top <= 8 * BitmapSize(top) && BitmapSize(top) % 4096 == 0
  {
    BitmapCovers(top);
    AlignUpFacts(top / 8, 4096);
  }

  /** With 32769 frames there are 32768 bits. */
  lemma BitmapInput()
    ensures 8 * BitmapSize(32769) == 32768
  {
    AlignUpFacts(4096, 4096);
  }

  predicate Roomy(r: Region, size: nat) {
    r.usable && r.length >= size
  }

  /** The bitmap is taken from the start of the first usable region that is large enough. */
  function Carved(regions: seq<Region>, size: nat): (r: seq<Region>)
    ensures |r| == |regions|
  {
    if regions == [] then []
    else
      var r := regions[0];
      if Roomy(r, size) then [Region(r.base + size, r.length - size, true)] + regions[1..]
      else [r] + Carved(regions[1..], size)
  }

  lemma {:induction false} CarvedAt(regions: seq<Region>, size: nat, i: nat)
    requires i < |regions|
    ensures var r, c := regions[i], Carved(regions, size)[i];
      c == r || (Roomy(r, size) && c == Region(r.base + size, r.length - size, true))
  {
    if i > 0 && !Roomy(regions[0], size) { CarvedAt(regions[1..], size, i - 1); }
  }

  lemma CarvedFrames(r: Region, size: nat)
    requires Roomy(r, size) && size % 4096 == 0
    ensures var c := Region(r.base + size, r.length - size, true);
      && c.base / 4096 + Frames(c) == r.base / 4096 + Frames(r) && c.base / 4096 >= r.base / 4096
      && (r.length % 4096 == 0 ==> c.length % 4096 == 0)
  {
  }

  lemma CarvedOk(regions: seq<Region>, size: nat, n: nat)
    requires MapOk(regions, n) && size % 4096 == 0
    ensures MapOk(Carved(regions, size), n)
  {
    var c := Carved(regions, size);
    forall i | 0 <= i < |c|
      ensures c[i].usable == regions[i].usable
      ensures c[i].base / 4096 + Frames(c[i]) == regions[i].base / 4096 + Frames(regions[i])
      ensures c[i].base / 4096 >= regions[i].base / 4096
      ensures regions[i].length % 4096 == 0 ==> c[i].length % 4096 == 0
    {
      CarvedAt(regions, size, i);
      if c[i] != regions[i] { CarvedFrames(regions[i], size); }
    }
    forall i, j | 0 <= i < j < |c| ensures Apart(c[i], c[j]) {
      assert Apart(regions[i], regions[j]);
    }
  }

  lemma {:induction false} HighestAbove(regions: seq<Region>, i: nat)
    requires i < |regions| && regions[i].usable
    ensures regions[i].base + regions[i].length <= Highest(regions)
  {
    if i < |regions| - 1 { HighestAbove(regions[..|regions| - 1], i); }
  }

  /** Regions that are whole frames are below the highest frame. */
  lemma BelowTop(regions: seq<Region>, i: nat)
    requires i < |regions| && regions[i].usable && regions[i].length % 4096 == 0
    ensures regions[i].base / 4096 + Frames(regions[i]) <= Highest(regions) / 4096
  {
    HighestAbove(regions, i);
  }

  method HighestAddress(regions: seq<Region>) returns (h: nat)
    ensures h == Highest(regions)
  {
    h := 0;
    assert regions[..0] == [];
    for i := 0 to |regions|
      invariant h == Highest(regions[..i])
    {
      assert regions[..i + 1][..i] == regions[..i];
      var ent := regions[i];
      if ent.usable && ent.base + ent.length > h {
        h := ent.base + ent.length;
      }
    }
    assert regions[..|regions|] == regions;
  }

  /** `physmem_alloc_bitmap`: whether there is room, and the regions without that room. */
  method TakeBitmap(regions: seq<Region>, size: nat) returns (found: bool, rest: seq<Region>)
    ensures found <==> exists i :: 0 <= i < |regions| && Roomy(regions[i], size)
    ensures rest == Carved(regions, size)
  {
    var i := 0;
    while i < |regions|
      invariant 0 <= i <= |regions| && (forall k :: 0 <= k < i ==> !Roomy(regions[k], size))
    {
      var r := regions[i];
      if r.usable && r.length >= size {
        assert Roomy(regions[i], size);
        CarvedFirst(regions, size, i);
        return true, regions[i := Region(r.base + size, r.length - size, true)];
      }
      i := i + 1;
    }
    CarvedFirst(regions, size, i);
    return false, regions;
  }

  lemma {:induction false} CarvedFirst(regions: seq<Region>, size: nat, i: nat)
    requires i <= |regions| && (forall k :: 0 <= k < i ==> !Roomy(regions[k], size))
    requires i < |regions| ==> Roomy(regions[i], size)
    ensures Carved(regions, size) ==
      if i == |regions| then regions
      else regions[i := Region(regions[i].base + size, regions[i].length - size, true)]
  {
    if i > 0 {
      CarvedFirst(regions[1..], size, i - 1);
      assert regions == [regions[0]] + regions[1..];
    } else if regions != [] {
      assert regions == [regions[0]] + regions[1..];
    }
  }

  lemma {:induction false} AllUsed(bits: seq<bool>)
    requires forall k :: 0 <= k < |bits| ==> bits[k]
    ensures Clear(bits) == 0
  {
    if bits != [] { AllUsed(bits[..|bits| - 1]); }
  }

  /** The bitmap after population, from all bits set. */
  lemma AtFirst(bits: seq<bool>, regions: seq<Region>, size: nat)
    requires (forall k :: 0 <= k < |bits| ==> bits[k]) && Highest(regions) / 4096 <= |bits| && size % 4096 == 0
    requires forall i :: 0 <= i < |regions| && regions[i].usable ==> regions[i].length % 4096 == 0
    requires forall i, j :: 0 <= i < j < |regions| ==> Apart(regions[i], regions[j])
    ensures var rest := Carved(regions, size);
      && MapOk(rest, |bits|) && Clear(Populated(bits, rest)) == Pages(rest, true)
      && forall k :: 0 <= k < |bits| ==> (Populated(bits, rest)[k] <==> NoneHolds(rest, k))
  {
    forall i | 0 <= i < |regions| && regions[i].usable ensures regions[i].base / 4096 + Frames(regions[i]) <= |bits| {
      BelowTop(regions, i);
    }
    CarvedOk(regions, size, |bits|);
    var rest := Carved(regions, size);
    AllUsed(bits);
    PopulatedClear(bits, rest);
    forall k | 0 <= k < |bits|
      ensures Populated(bits, rest)[k] <==> NoneHolds(rest, k)
    {
      PopulatedAt(bits, rest, k);
    }
  }

  // ---------- the allocator ----------

  class FrameAllocator {
    const bitmap: array<bool>
    const top: nat
    var last: nat
    var total: int
    var used: int
    var free: int

    /** The counters agree with the bitmap. */
    ghost predicate Counted()
      reads this, bitmap
    {
      top <= bitmap.Length && used + free == total && free == Clear(bitmap[..])
    }

    /** `physmem_init_bitmap`: at first exactly the frames of usable regions are free, those under the bitmap aside. */
    constructor (regions: seq<Region>)
      requires forall i :: 0 <= i < |regions| && regions[i].usable ==> regions[i].length % 4096 == 0
      requires forall i, j :: 0 <= i < j < |regions| ==> Apart(regions[i], regions[j])
      requires var top := Highest(regions) / 4096;
        && (top % 8 == 0 || (top / 8) % 4096 != 0)
        && exists i :: 0 <= i < |regions| && Roomy(regions[i], BitmapSize(top))
      ensures Counted() && top == Highest(regions) / 4096 && last == 0 && fresh(bitmap)
      ensures forall k :: 0 <= k < bitmap.Length ==> (bitmap[k] <==> NoneHolds(Carved(regions, BitmapSize(top)), k))
    {
      var highest := HighestAddress(regions);
      var size := BitmapSize(highest / 4096);
      var found, rest := TakeBitmap(regions, size);
      BitmapRoom(highest / 4096);
      top := highest / 4096;
      bitmap := new bool[8 * size](_ => true);
      last, total, used, free := 0, 0, 0, 0;
      new;
      ghost var bits := bitmap[..];
      AtFirst(bits, regions, size);
      Populate(rest);
    }

    method Mark(i: nat, count: nat, value: bool)
      requires i + count <= bitmap.Length
      modifies bitmap
      ensures bitmap[..] == Marked(old(bitmap[..]), i, count, value)
    {
      var k := i;
      while k < i + count
        invariant i <= k <= i + count
        invariant forall j :: 0 <= j < bitmap.Length ==> bitmap[j] == if i <= j < k then value else old(bitmap[j])
      {
        bitmap[k] := value;
        k := k + 1;
      }
    }

    /** The search of `__vm_alloc_frame`. */
    method Search(count: nat) returns (idx: int)
      requires top <= bitmap.Length
      ensures idx == First(bitmap[..][..top], last, count)
    {
      ghost var bits := bitmap[..][..top];
      var frames := 0;
      idx := -1;
      var i := last;
      while i < top
        invariant last <= i && (idx < 0 ==> idx == -1 && frames == 0)
        invariant idx >= 0 ==>
          last <= idx && frames == i - idx && 0 < frames && FreeRun(bits, idx, frames) && frames < count
        invariant forall j :: last <= j < (if idx < 0 then i else idx) && count > 0 ==> !FreeRun(bits, j, count)
      {
        assert bitmap[i] == bits[i];
        if !bitmap[i] {
          if idx < 0 {
            idx := i;
          }
          frames := frames + 1;
          if frames >= count {
            break;
          }
        } else {
          forall j | last <= j <= i && count > 0 ensures !FreeRun(bits, j, count) {
            assert j == i || (0 <= idx <= j) ==> j <= i < j + count && bits[i];
          }
          idx := -1;
          frames := 0;
        }
        i := i + 1;
      }
      if idx < 0 || frames != count {
        idx := -1;
      }
      assert idx < 0 && count > 0 ==> forall j :: last <= j ==> !FreeRun(bits, j, count);
      FirstUnique(bits, last, count, idx);
    }

    method TryAlloc(count: nat) returns (ret: nat)
      requires top <= bitmap.Length
      modifies this`last, bitmap
      ensures var (bits, j) := Attempt(old(bitmap[..]), top, old(last), count);
        && bitmap[..] == bits && ret == (if j >= 0 then 4096 * j else 0) && last == (if j >= 0 then j else old(last))
    {
      var idx := Search(count);
      if idx < 0 {
        return 0;
      }
      Mark(idx, count, true);
      last := idx;
      return idx * 4096;
    }

    /** `vm_alloc_frame`; the result 0 stands for the panic. */
    method AllocFrame(count: nat) returns (ret: nat)
      requires top <= bitmap.Length
      modifies this, bitmap
      ensures var (bits, j) := Allocate(old(bitmap[..]), top, old(last), count);
        && bitmap[..] == bits && ret == (if j >= 0 then 4096 * j else 0)
        && used == old(used) + (if j >= 0 then count else 0) && free == old(free) - (if j >= 0 then count else 0)
        && last == (if j >= 0 then j else 0)
      ensures total == old(total)
      ensures old(Counted()) ==> (Counted() <==> !TakesZero(old(bitmap[..]), top, old(last), count))
    {
      AllocateCount(bitmap[..], top, last, count);
      ret := TryAlloc(count);
      if ret == 0 {
        last := 0;
        ret := TryAlloc(count);
      }
      if ret == 0 {
        return;
      }
      used := used + count;
      free := free - count;
    }

    /** `vm_free_frame`: exactly `count` frames are freed, from the first frame boundary at or above `base` on. */
    method FreeFrame(base: nat, count: nat)
      requires AlignUp(base, 4096) / 4096 + count <= bitmap.Length
      modifies this`used, this`free, bitmap
      ensures bitmap[..] == Marked(old(bitmap[..]), AlignUp(base, 4096) / 4096, count, false)
      ensures used == old(used) - count && free == old(free) + count
    {
      AlignUpFacts(base, 4096);
      var stop := base + count * 4096;
      var p := AlignUp(base, 4096);
      ghost var f, k := p / 4096, 0;
      while p < stop
        invariant p == 4096 * (f + k) && 0 <= k <= count
        invariant forall j :: 0 <= j < bitmap.Length ==> bitmap[j] == if f <= j < f + k then false else old(bitmap[j])
        decreases stop - p
        modifies bitmap
      {
        bitmap[p / 4096] := false;
        p := p + 4096;
        k := k + 1;
      }
      used := used - count;
      free := free + count;
    }

    /** `physmem_populate_bitmap`, on a bitmap with all bits set and counters at 0. */
    method Populate(regions: seq<Region>)
      requires forall i :: 0 <= i < |regions| && regions[i].usable ==>
        regions[i].base / 4096 + Frames(regions[i]) <= bitmap.Length
      requires total == used == free == 0
      modifies this`total, this`used, this`free, bitmap
      ensures bitmap[..] == Populated(old(bitmap[..]), regions)
      ensures free == Pages(regions, true) && used == Pages(regions, false) && total == used + free
    {
      ghost var bits := bitmap[..];
      var i := 0;
      assert regions[..0] == [];
      while i < |regions|
        invariant 0 <= i <= |regions| && bitmap[..] == Populated(bits, regions[..i])
        invariant free == Pages(regions[..i], true) && used == Pages(regions[..i], false) && total == used + free
      {
        assert regions[..i + 1][..i] == regions[..i];
        var ent := regions[i];
        total := total + ent.length / 4096;
        if !ent.usable {
          used := used + ent.length / 4096;
        } else {
          ClearRegion(ent);
          free := free + ent.length / 4096;
        }
        i := i + 1;
      }
      assert regions[..|regions|] == regions;
    }

    method ClearRegion(ent: Region)
      requires ent.base / 4096 + Frames(ent) <= bitmap.Length
      modifies bitmap
      ensures bitmap[..] == Marked(old(bitmap[..]), ent.base / 4096, Frames(ent), false)
    {
      var j := 0;
      ghost var f, k := ent.base / 4096, 0;
      while j < ent.length
        invariant j == 4096 * k && 0 <= k <= Frames(ent)
        invariant forall i :: 0 <= i < bitmap.Length ==> bitmap[i] == if f <= i < f + k then false else old(bitmap[i])
        decreases ent.length - j
      {
        bitmap[(ent.base + j) / 4096] := false;
        j := j + 4096;
        k := k + 1;
      }
    }
  }
}
