/** The operations of the allocator on heap values, and what they keep. */
module TlsfOps {
  import opened Arithmetic
  import opened TlsfMapping
  import opened TlsfHeap
  import opened TlsfLists

  /** The first list from class `k` on that is not empty, or the number of lists. */
  function FirstFrom(lists: seq<seq<int>>, k: nat): (j: nat)
    requires k <= |lists|
    ensures k <= j <= |lists|
    ensures j < |lists| ==> lists[j] != []
    ensures forall i :: k <= i < j ==> lists[i] == []
    decreases |lists| - k
  {
    if k == |lists| || lists[k] != [] then k else FirstFrom(lists, k + 1)
  }

  /** `block_locate_free` up to the removal: a block that is large enough, or 0. */
  function Locate(h: Heap, size: nat): int {
    var k := Index(SearchSize(size));
    if size == 0 || k < 0 || k >= |h.lists| then 0
    else
      var j := FirstFrom(h.lists, k);
      if j < |h.lists| then h.lists[j][0] else 0
  }

  function TrimFree(h: Heap, b: int, size: nat): Heap {
    if CanSplit(h, b, size) then Attach(Split(h, b, size), b + 8 + size) else h
  }

  function PrepareUsed(h: Heap, b: int, size: nat): Heap {
    SetFree(TrimFree(h, b, size), b, false)
  }

  /** `tlsf_malloc`: the new heap and the payload address, or 0. */
  function Malloc(h: Heap, size: U64): (Heap, int) {
    var adjust := AdjustRequest(size, 8);
    var b := Locate(h, adjust);
    if b == 0 then (h, 0) else (PrepareUsed(Detach(h, b), b, adjust), b + 16)
  }

  function MergePrev(h: Heap, b: int): (Heap, int) {
    var p := Prev(h, b);
    if IsFree(h, p) then (Absorb(Detach(h, p), p), p) else (h, b)
  }

  function MergeNext(h: Heap, b: int): Heap {
    var n := Next(h, b);
    if IsFree(h, n) then Absorb(Detach(h, n), b) else h
  }

  /** `tlsf_free` of the block `b`. */
  function Free(h: Heap, b: int): Heap {
    var (h1, c) := MergePrev(SetFree(h, b, true), b);
    Attach(MergeNext(h1, c), c)
  }

  // ---------- finding a block ----------

  lemma LocateFound(h: Heap, size: nat)
    requires Good(h) && size % 8 == 0 && Locate(h, size) != 0
    ensures var b := Locate(h, size);
      && IsFree(h, b) && Size(h, b) >= size && 0 <= ClassOf(h, b) < |h.lists|
      && |h.lists[ClassOf(h, b)]| > 0 && h.lists[ClassOf(h, b)][0] == b
  {
    var k := Index(SearchSize(size));
    var j := FirstFrom(h.lists, k);
    assert ListOk(h, {}, j);
    GoodFit(size, Size(h, h.lists[j][0]));
  }

  /** The search fails only if no free block is in a class searched. */
  lemma LocateFails(h: Heap, size: nat, b: int)
    requires Good(h) && 0 < size && IsFree(h, b)
    requires Index(Size(h, b)) >= Index(SearchSize(size))
    ensures Locate(h, size) != 0
  {
    MappingInRange(SearchSize(size));
    ClassInRange(h, b);
    assert InList(h, b);
    var j := FirstFrom(h.lists, Index(SearchSize(size)));
    assert j < LIST_COUNT by { assert h.lists[ClassOf(h, b)] != []; }
    assert ListOk(h, {}, j) && BlockOk(h, h.lists[j][0]);
  }

  /** Neighbours of a free block are in use. */
  lemma FreeNeighbours(h: Heap, X: set<int>, b: int)
    requires Inv(h, X) && IsFree(h, b) && b !in X && Next(h, b) !in X && Prev(h, b) !in X
    ensures !IsFree(h, Next(h, b)) && !IsFree(h, Prev(h, b))
  {
    assert Parted(h, X, b) && Parted(h, X, Prev(h, b)) && BackOk(h, b);
    assert Prev(h, b) in h.blocks ==> BlockOk(h, Prev(h, b));
  }

  /** Used blocks other than those of `X` stay as they are. */
  ghost predicate KeptAt(h: Heap, h': Heap, X: set<int>, c: int) {
    c in h.blocks && !IsFree(h, c) && c !in X ==>
      c in h'.blocks && !IsFree(h', c) && Size(h', c) == Size(h, c)
  }

  ghost predicate Kept(h: Heap, h': Heap, X: set<int>) {
    forall c {:trigger KeptAt(h, h', X, c)} :: KeptAt(h, h', X, c)
  }

  lemma KeptTrans(h: Heap, h1: Heap, h2: Heap, X: set<int>)
    requires Kept(h, h1, X) && Kept(h1, h2, X)
    ensures Kept(h, h2, X)
  {
    forall c {:trigger KeptAt(h, h2, X, c)} ensures KeptAt(h, h2, X, c) {
      assert KeptAt(h, h1, X, c) && KeptAt(h1, h2, X, c);
    }
  }

  /** A block that was free needs no exemption. */
  lemma KeptFree(h: Heap, h': Heap, b: int)
    requires Kept(h, h', {b}) && IsFree(h, b)
    ensures Kept(h, h', {})
  {
    forall c {:trigger KeptAt(h, h', {}, c)} ensures KeptAt(h, h', {}, c) { assert KeptAt(h, h', {b}, c); }
  }

  /** Lists, flags of exempted blocks and their sizes do not matter. */
  lemma KeptSteps(h: Heap, b: int, size: nat, free: bool, X: set<int>)
    requires b in X
    ensures Kept(h, Detach(h, b), X) && Kept(h, Attach(h, b), X) && Kept(h, SetFree(h, b, free), X)
    ensures SplitArgs(h, b, size) ==> Kept(h, Split(h, b, size), X)
    ensures AbsorbArgs(h, b) && (Next(h, b) in X || IsFree(h, Next(h, b))) ==> Kept(h, Absorb(h, b), X)
  {
    if SplitArgs(h, b, size) { SplitFresh(h, b, size); }
    if AbsorbArgs(h, b) { AbsorbNeighbours(h, b); }
  }

  lemma TrimFreeInv(h: Heap, b: int, size: nat)
    requires Inv(h, {b}) && IsFree(h, b) && size >= 24 && size % 8 == 0
    requires !IsFree(h, Next(h, b))
    ensures var h' := TrimFree(h, b, size);
      && Inv(h', {b}) && IsFree(h', b) && Kept(h, h', {b})
      && (Size(h', b) >= size <==> Size(h, b) >= size)
  {
    assert BlockOk(h, b) && LinkOk(h, b);
    if CanSplit(h, b, size) {
      var r, h1 := b + 8 + size, Split(h, b, size);
      SplitInv(h, b, size, {b});
      SplitFresh(h, b, size);
      AttachInv(h1, r, {b} + {r});
      assert {b} + {r} - {r} == {b};
    }
  }

  lemma PrepareUsedGood(h: Heap, b: int, size: nat)
    requires Inv(h, {b}) && IsFree(h, b) && size >= 24 && size % 8 == 0
    requires !IsFree(h, Next(h, b))
    ensures var h' := PrepareUsed(h, b, size);
      && Good(h') && b in h'.blocks && !IsFree(h', b) && 0 < Size(h', b) < BLOCK_SIZE_MAX && Kept(h, h', {b})
      && (Size(h', b) >= size <==> Size(h, b) >= size)
  {
    TrimFreeInv(h, b, size);
    var h1 := TrimFree(h, b, size);
    assert BlockOk(h1, b);
    ClassInRange(h1, b);
    SetFreeInv(h1, b, false, {b});
    var h2 := SetFree(h1, b, false);
    UsedInHand(h2, b, {b});
    assert {b} - {b} == {};
    KeptTrans(h, h1, h2, {b});
  }

  /**
   * The block found, taken off its list: it is large enough, its neighbours are in use, and putting
   * it back undoes that.
   */
  lemma Located(h: Heap, size: nat)
    requires Good(h) && size % 8 == 0 && Locate(h, size) != 0
    ensures var b := Locate(h, size); var h1 := Detach(h, b);
      && b > 0 && IsFree(h, b) && IsFree(h1, b) && Inv(h1, {b}) && Size(h1, b) >= size && Kept(h, h1, {b})
      && !IsFree(h1, Next(h1, b)) && !IsFree(h1, Prev(h1, b)) && Attach(h1, b) == h
  {
    var b := Locate(h, size);
    LocateFound(h, size);
    DetachInv(h, b, {});
    assert {} + {b} == {b};
    FreeNeighbours(h, {}, b);
    AttachDetach(h, b);
    KeptSteps(h, b, 0, true, {b});
    assert BlockOk(h, b);
  }

  /**
   * What `tlsf_malloc` promises: a failure changes nothing; on success the block was free and is now
   * in use, and it is large enough exactly if the request is not one of the last seven, which wrap around.
   */
  ghost predicate MallocOk(h: Heap, size: nat, r: (Heap, int)) {
    && Good(r.0) && Kept(h, r.0, {}) && (r.1 == 0 ==> r.0 == h)
    && (r.1 != 0 ==> r.1 > 16 && IsFree(h, r.1 - 16) && r.1 - 16 in r.0.blocks && !IsFree(r.0, r.1 - 16)
                     && 0 < Size(r.0, r.1 - 16) < BLOCK_SIZE_MAX && size > 0
                     && (Size(r.0, r.1 - 16) >= size <==> size <= WORD_LIMIT - 8))
  }

  lemma MallocFound(h: Heap, size: U64, b: int)
    requires Good(h) && b == Locate(h, AdjustRequest(size, 8)) != 0
    ensures MallocOk(h, size, (PrepareUsed(Detach(h, b), b, AdjustRequest(size, 8)), b + 16))
  {
    AdjustFacts(size);
    var h1, adjust := Detach(h, b), AdjustRequest(size, 8);
    Located(h, adjust);
    PrepareUsedGood(h1, b, adjust);
    KeptTrans(h, h1, PrepareUsed(h1, b, adjust), {b});
    KeptFree(h, PrepareUsed(h1, b, adjust), b);
  }

  /** `tlsf_malloc` keeps the invariant, and its promise. */
  lemma MallocGood(h: Heap, size: U64)
    requires Good(h)
    ensures MallocOk(h, size, Malloc(h, size))
  {
    var b := Locate(h, AdjustRequest(size, 8));
    if b != 0 { MallocFound(h, size, b); }
  }

  // ---------- merging and freeing ----------

  /** A free block in hand is joined with a free block before it; the block in hand then has none before it. */
  lemma MergePrevInv(h: Heap, b: int)
    requires Inv(h, {b}) && IsFree(h, b)
    ensures var (h', c) := MergePrev(h, b);
      && Inv(h', {c}) && IsFree(h', c) && !IsFree(h', Prev(h', c)) && Kept(h, h', {b})
  {
    var p := Prev(h, b);
    assert BlockOk(h, b) && LinkOk(h, b) && BackOk(h, b);
    if IsFree(h, p) {
      DetachInv(h, p, {b});
      var h1 := Detach(h, p);
      assert BlockOk(h, p);
      AbsorbInv(h1, p, {b} + {p});
      assert {b} + {p} - {b} == {p};
      assert Parted(h, {b}, Prev(h, p)) && BackOk(h, p);
      assert Prev(h, p) in h.blocks ==> BlockOk(h, Prev(h, p));
    }
  }

  /** A block in hand swallows a free block after it; the block after it is then in use. */
  lemma MergeNextInv(h: Heap, b: int)
    requires Inv(h, {b}) && b in h.blocks && Size(h, b) != 0
    ensures var h' := MergeNext(h, b);
      && Inv(h', {b}) && b in h'.blocks && IsFree(h', b) == IsFree(h, b)
      && Size(h', b) == Size(h, b) + (if IsFree(h, Next(h, b)) then 8 + Size(h, Next(h, b)) else 0)
      && !IsFree(h', Next(h', b)) && (IsFree(h', Prev(h', b)) ==> IsFree(h, Prev(h, b))) && Kept(h, h', {b})
  {
    var n := Next(h, b);
    assert BlockOk(h, b) && LinkOk(h, b) && BackOk(h, b);
    if IsFree(h, n) {
      DetachInv(h, n, {b});
      var h1 := Detach(h, n);
      assert BlockOk(h, n) && LinkOk(h, n);
      AbsorbInv(h1, b, {b} + {n});
      assert {b} + {n} - {n} == {b};
      assert Parted(h, {b}, n);
    }
  }

  lemma KeptMore(h: Heap, h': Heap, X: set<int>, Y: set<int>)
    requires Kept(h, h', X) && X <= Y
    ensures Kept(h, h', Y)
  {
    forall c {:trigger KeptAt(h, h', Y, c)} ensures KeptAt(h, h', Y, c) { assert KeptAt(h, h', X, c); }
  }

  /** The second half of `tlsf_free`: the block in hand swallows its upper neighbour and goes back to a list. */
  lemma ReturnGood(h: Heap, c: int)
    requires Inv(h, {c}) && IsFree(h, c) && !IsFree(h, Prev(h, c))
    ensures Good(Attach(MergeNext(h, c), c)) && Kept(h, Attach(MergeNext(h, c), c), {})
  {
    assert BlockOk(h, c);
    MergeNextInv(h, c);
    var h2 := MergeNext(h, c);
    AttachInv(h2, c, {c});
    assert {c} - {c} == {};
    KeptSteps(h2, c, 0, true, {c});
    KeptTrans(h, h2, Attach(h2, c), {c});
    KeptFree(h, Attach(h2, c), c);
  }

  /** `tlsf_free` keeps the invariant and touches no other block in use. */
  lemma FreeGood(h: Heap, b: int)
    requires Good(h) && b in h.blocks && !IsFree(h, b) && Size(h, b) != 0
    ensures Good(Free(h, b)) && Kept(h, Free(h, b), {b})
  {
    UsedInHand(h, b, {});
    assert {} + {b} == {b};
    SetFreeInv(h, b, true, {b});
    KeptSteps(h, b, 0, true, {b});
    var h0 := SetFree(h, b, true);
    MergePrevInv(h0, b);
    var (h1, c) := MergePrev(h0, b);
    ReturnGood(h1, c);
    var h2 := Attach(MergeNext(h1, c), c);
    KeptMore(h1, h2, {}, {b});
    KeptTrans(h0, h1, h2, {b});
    KeptTrans(h, h0, h2, {b});
  }

  // ---------- when malloc succeeds, and what free undoes ----------

  /** The free block is in a class searched for a request. */
  ghost predicate Serves(h: Heap, size: nat, b: int) {
    IsFree(h, b) && ClassOf(h, b) >= Index(SearchSize(size))
  }

  ghost predicate Obtainable(h: Heap, size: nat) {
    size != 0 && exists b :: Serves(h, size, b)
  }

  lemma LocateIff(h: Heap, size: nat)
    requires Good(h) && size % 8 == 0
    ensures Locate(h, size) != 0 <==> Obtainable(h, size)
  {
    if size != 0 {
      forall b | Serves(h, size, b) ensures Locate(h, size) != 0 { LocateFails(h, size, b); }
      if Locate(h, size) != 0 {
        LocateFound(h, size);
        LocateClass(h, size);
        assert Serves(h, size, Locate(h, size));
      }
    }
  }

  /** `tlsf_malloc` succeeds exactly when some free block is in a class searched. */
  lemma MallocSucceedsIff(h: Heap, size: U64)
    requires Good(h)
    ensures Malloc(h, size).1 != 0 <==> Obtainable(h, AdjustRequest(size, 8))
  {
    AdjustShape(size);
    LocateIff(h, AdjustRequest(size, 8));
    if Locate(h, AdjustRequest(size, 8)) != 0 { Located(h, AdjustRequest(size, 8)); }
  }

  /** A block as large as the request, or 33/32 of it from 256 bytes on, is in a class searched. */
  lemma LargeServes(h: Heap, size: nat, b: int)
    requires IsFree(h, b) && size % 8 == 0 && if size < 256 then Size(h, b) >= size else 32 * Size(h, b) >= 33 * size
    ensures Serves(h, size, b)
  {
    SearchReaches(size, Size(h, b));
  }

  lemma LocateClass(h: Heap, size: nat)
    requires Good(h) && Locate(h, size) != 0
    ensures ClassOf(h, Locate(h, size)) >= Index(SearchSize(size))
  {
    var j := FirstFrom(h.lists, Index(SearchSize(size)));
    assert ListOk(h, {}, j);
  }

  /** In particular whenever a free block is as large as the adjusted request, or 33/32 of it from 256 bytes on. */
  lemma MallocSucceeds(h: Heap, size: U64, b: int)
    requires Good(h) && IsFree(h, b) && AdjustRequest(size, 8) != 0
    requires var adjust := AdjustRequest(size, 8);
      if adjust < 256 then Size(h, b) >= adjust else 32 * Size(h, b) >= 33 * adjust
    ensures Malloc(h, size).1 != 0
  {
    AdjustShape(size);
    LargeServes(h, AdjustRequest(size, 8), b);
    MallocSucceedsIff(h, size);
  }

  lemma AttachDetach(h: Heap, b: int)
    requires 0 <= ClassOf(h, b) < |h.lists|
    ensures Detach(Attach(h, b), b) == h
    ensures |h.lists[ClassOf(h, b)]| > 0 && h.lists[ClassOf(h, b)][0] == b ==> Attach(Detach(h, b), b) == h
  {
    var k := ClassOf(h, b);
    var h1 := Attach(h, b);
    assert h1.lists[k][1..] == h.lists[k];
    assert Detach(h1, b).lists == h.lists;
    if |h.lists[k]| > 0 && h.lists[k][0] == b {
      var h2 := Detach(h, b);
      assert [b] + h2.lists[k] == h.lists[k];
      assert Attach(h2, b).lists == h.lists;
    }
  }

  /** Swallowing the tail again undoes a split. */
  lemma SplitAbsorb(h: Heap, b: int, size: nat)
    requires SplitArgs(h, b, size)
    ensures Absorb(Split(h, b, size), b) == h
  {
    SplitFresh(h, b, size);
    var h1, r, n := Split(h, b, size), b + 8 + size, Next(h, b);
    assert LinkOk(h, b);
    assert Next(h1, b) == r && Next(h1, r) == n;
    assert Absorb(h1, b).blocks == h.blocks;
  }

  /** `tlsf_free` right after `tlsf_malloc` restores blocks, lists, their order and thereby the bitmaps. */
  lemma MallocFree(h: Heap, size: U64)
    requires Good(h) && Malloc(h, size).1 != 0
    ensures var (h', p) := Malloc(h, size); Free(h', p - 16) == h
  {
    var adjust := AdjustRequest(size, 8);
    AdjustFacts(size);
    Located(h, adjust);
    TakenFree(Detach(h, Locate(h, adjust)), Locate(h, adjust), adjust);
  }

  lemma TakenFree(h1: Heap, b: int, size: nat)
    requires Phys(h1) && |h1.lists| == LIST_COUNT && IsFree(h1, b) && size >= 24 && size % 8 == 0
    requires !IsFree(h1, Next(h1, b)) && !IsFree(h1, Prev(h1, b))
    ensures Free(PrepareUsed(h1, b, size), b) == Attach(h1, b)
  {
    assert BlockOk(h1, b) && BackOk(h1, b) && LinkOk(h1, b);
    if CanSplit(h1, b, size) {
      var r, h2 := b + 8 + size, Split(h1, b, size);
      SplitFresh(h1, b, size);
      SplitPhys(h1, b, size);
      ClassInRange(h2, r);
      AttachDetach(h2, r);
      SplitAbsorb(h1, b, size);
      var h3 := Attach(h2, r);
      assert SetFree(SetFree(h3, b, false), b, true) == h3;
      assert Prev(h3, b) == Prev(h1, b) && !IsFree(h3, Prev(h3, b));
      assert Next(h3, b) == r && IsFree(h3, r);
      assert MergePrev(h3, b) == (h3, b);
    } else {
      assert SetFree(SetFree(h1, b, false), b, true) == h1;
    }
  }
}
