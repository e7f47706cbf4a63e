/** Whole runs of the allocator, together with what the owners of blocks do to their contents. */
module TlsfRuns {
  import opened Arithmetic
  import opened TlsfMapping
  import opened TlsfHeap
  import opened TlsfLists
  import opened TlsfOps
  import opened TlsfMemory
  import opened TlsfControl
  import TlsfAligned
  import opened TlsfRealloc
  import opened TlsfPools
  import opened TlsfAllocator

  datatype Op =
    | Pool(start: nat, bytes: U64)
    | Take(size: U64)
    | TakeAligned(align: U64, size: U64)
    | Give(ptr: int)
    | Resize(ptr: int, size: U64)
    | Write(ptr: int, index: nat, word: Word)

  /** What the source demands of a caller; `D` are the words the machine has. */
  ghost predicate Legal(h: Heap, D: set<int>, op: Op) {
    match op
    case Pool(start, bytes) =>
      start > 8
      && (PoolArgs(start, bytes) ==>
            && PoolBytes(bytes) < BLOCK_SIZE_MAX && Unused(h, start, PoolBytes(bytes))
            && forall a :: start <= a <= start + PoolBytes(bytes) + 8 && a % 8 == 0 ==> a in D)
    case Take(size) => true
    case TakeAligned(align, size) => TlsfAligned.IsPow2(align)
    case Give(ptr) => ptr != 0 ==> Live(h, ptr - 16)
    case Resize(ptr, size) => ptr != 0 ==> Live(h, ptr - 16) && Resizable(h, ptr - 16, size)
    case Write(ptr, index, word) => Live(h, ptr - 16) && 8 * index < Size(h, ptr - 16)
  }

  ghost function Effect(h: Heap, op: Op): Heap {
    match op
    case Pool(start, bytes) => AddPool(h, start, bytes)
    case Take(size) => Malloc(h, size).0
    case TakeAligned(align, size) => if align > 0 then TlsfAligned.Memalign(h, align, size).0 else h
    case Give(ptr) => if ptr == 0 then h else Free(h, ptr - 16)
    case Resize(ptr, size) => Realloc(h, ptr, size).0
    case Write(ptr, index, word) => h
  }

  /** The block an operation is about. */
  function Touched(op: Op): set<int> {
    match op
    case Give(ptr) => {ptr - 16}
    case Resize(ptr, size) => {ptr - 16}
    case Write(ptr, index, word) => {ptr - 16}
    case _ => {}
  }

  ghost function Run(h: Heap, ops: seq<Op>): Heap {
    if ops == [] then h else Effect(Run(h, ops[..|ops| - 1]), ops[|ops| - 1])
  }

  ghost predicate LegalRun(h: Heap, D: set<int>, ops: seq<Op>) {
    forall i {:trigger Run(h, ops[..i])} :: 0 <= i < |ops| ==> Legal(Run(h, ops[..i]), D, ops[i])
  }

  ghost function TouchedBy(ops: seq<Op>): set<int> {
    set i, b | 0 <= i < |ops| && b in Touched(ops[i]) :: b
  }

  ghost predicate Steps(h: Heap, op: Op) {
    Good(Effect(h, op)) && Kept(h, Effect(h, op), Touched(op))
  }

  lemma StepTake(h: Heap, D: set<int>, op: Op)
    requires Good(h) && Legal(h, D, op) && (op.Take? || op.TakeAligned?)
    ensures Steps(h, op)
  {
    if op.Take? { MallocGood(h, op.size); } else { TlsfAligned.MemalignGood(h, op.align, op.size); }
  }

  lemma StepGive(h: Heap, D: set<int>, op: Op)
    requires Good(h) && Legal(h, D, op) && (op.Give? || op.Resize?)
    ensures Steps(h, op)
  {
    if op.Resize? {
      ReallocGood(h, op.ptr, op.size);
    } else if op.ptr != 0 {
      FreeGood(h, op.ptr - 16);
    } else {
      KeptSelf(h, {op.ptr - 16});
    }
  }

  /** Every operation keeps the invariant and every block in use that it is not about. */
  lemma StepGood(h: Heap, D: set<int>, op: Op)
    requires Good(h) && Legal(h, D, op)
    ensures Good(Effect(h, op)) && Kept(h, Effect(h, op), Touched(op))
  {
    match op
    case Pool(start, bytes) => AddPoolGood(h, start, bytes);
    case Take(size) => StepTake(h, D, op);
    case TakeAligned(align, size) => StepTake(h, D, op);
    case Give(ptr) => StepGive(h, D, op);
    case Resize(ptr, size) => StepGive(h, D, op);
    case Write(ptr, index, word) => KeptSelf(h, {ptr - 16});
  }

  /** So does every run. */
  lemma {:induction false} RunGood(h: Heap, D: set<int>, ops: seq<Op>)
    requires Good(h) && LegalRun(h, D, ops)
    ensures Good(Run(h, ops)) && Kept(h, Run(h, ops), TouchedBy(ops))
  {
    if ops == [] {
      KeptSelf(h, TouchedBy(ops));
    } else {
      var n := |ops| - 1;
      var init := ops[..n];
      assert forall i :: 0 <= i <= n ==> init[..i] == ops[..i];
      RunGood(h, D, init);
      var h1 := Run(h, init);
      assert Legal(h1, D, ops[n]);
      StepGood(h1, D, ops[n]);
      KeptMore(h, h1, TouchedBy(init), TouchedBy(ops));
      KeptMore(h1, Run(h, ops), Touched(ops[n]), TouchedBy(ops));
      KeptTrans(h, h1, Run(h, ops), TouchedBy(ops));
    }
  }

  /** The payloads of blocks in use never overlap. */
  lemma PayloadsApart(h: Heap, b: int, c: int)
    requires Good(h) && Live(h, b) && Live(h, c) && b != c
    ensures b + 16 + Size(h, b) <= c + 16 || c + 16 + Size(h, c) <= b + 16
  {
    assert Apart(h, b, c) && Apart(h, c, b);
  }

  method Perform(t: Allocator, ghost D: set<int>, op: Op)
    requires t.Valid() && D <= t.mem.Keys && Legal(t.heap, D, op)
    modifies t
    ensures t.Valid() && t.heap == Effect(old(t.heap), op)
    ensures Frame(old(t.mem), old(t.heap), t.mem, t.heap, Touched(op))
  {
    if op.Take? || op.TakeAligned? {
      PerformTake(t, D, op);
    } else if op.Give? || op.Resize? {
      PerformGive(t, D, op);
    } else if op.Pool? {
      var pool := t.AddPool(op.start, op.bytes);
    } else {
      t.Store(op.ptr, op.index, op.word);
    }
  }

  method PerformGive(t: Allocator, ghost D: set<int>, op: Op)
    requires t.Valid() && Legal(t.heap, D, op) && (op.Give? || op.Resize?)
    modifies t
    ensures t.Valid() && t.heap == Effect(old(t.heap), op)
    ensures Frame(old(t.mem), old(t.heap), t.mem, t.heap, Touched(op))
  {
    assert Touched(op) == {op.ptr - 16};
    if op.Give? {
      t.Free(op.ptr);
    } else {
      PerformResize(t, op.ptr, op.size);
    }
  }

  method PerformTake(t: Allocator, ghost D: set<int>, op: Op)
    requires t.Valid() && Legal(t.heap, D, op) && (op.Take? || op.TakeAligned?)
    modifies t
    ensures t.Valid() && t.heap == Effect(old(t.heap), op)
    ensures Frame(old(t.mem), old(t.heap), t.mem, t.heap, Touched(op))
  {
    if op.Take? {
      var p := t.Malloc(op.size);
    } else {
      var p := t.Memalign(op.align, op.size);
    }
  }

  method PerformResize(t: Allocator, ptr: int, size: U64)
    requires t.Valid() && (ptr != 0 ==> Live(t.heap, ptr - 16) && Resizable(t.heap, ptr - 16, size))
    modifies t
    ensures t.Valid() && t.heap == Realloc(old(t.heap), ptr, size).0
    ensures Frame(old(t.mem), old(t.heap), t.mem, t.heap, {ptr - 16})
  {
    var p := t.Realloc(ptr, size);
  }

  /**
   * After each operation of any run `tlsf_check` returns 0; blocks the run is not about keep their
   * contents throughout.
   */
  method Replay(t: Allocator, ghost D: set<int>, ops: seq<Op>) returns (status: int)
    requires t.Valid() && D <= t.mem.Keys && LegalRun(t.heap, D, ops)
    modifies t
    ensures status == 0 && t.Valid() && t.heap == Run(old(t.heap), ops)
    ensures Frame(old(t.mem), old(t.heap), t.mem, t.heap, TouchedBy(ops))
  {
    ghost var m, h, X := t.mem, t.heap, TouchedBy(ops);
    status := 0;
    assert ops[..0] == [];
    FrameSelf(m, h);
    FrameLess(m, h, m, h, {}, X);
    for i := 0 to |ops|
      invariant t.Valid() && t.heap == Run(h, ops[..i]) && status == 0 && Frame(m, h, t.mem, t.heap, X)
    {
      ghost var m1, h1 := t.mem, t.heap;
      assert Legal(Run(h, ops[..i]), D, ops[i]);
      Perform(t, D, ops[i]);
      FrameLess(m1, h1, t.mem, t.heap, Touched(ops[i]), X);
      FrameTrans(m, h, m1, h1, t.mem, t.heap, X);
      assert ops[..i + 1][..i] == ops[..i];
      var bad := t.Check();
      status := status + bad;
    }
    assert ops[..|ops|] == ops;
  }

  /**
   * `tlsf_malloc` and then `tlsf_free` of its result: blocks, lists, list heads and both levels of
   * bitmaps are as before.
   */
  method TakeAndGive(t: Allocator, size: U64) returns (p: int)
    requires t.Valid()
    modifies t
    ensures t.Valid() && t.heap == old(t.heap) && t.View() == old(t.View())
    ensures Frame(old(t.mem), t.heap, t.mem, t.heap, {})
  {
    ghost var m, h, c := t.mem, t.heap, t.View();
    p := t.Malloc(size);
    if p != 0 {
      ghost var m1, h1 := t.mem, t.heap;
      GivenBack(h, h1, size, p);
      t.Free(p);
      ControlUnique(t.View(), c, h.lists);
      FrameBack(m, h, m1, h1, t.mem, p - 16);
    }
  }

  lemma GivenBack(h: Heap, h1: Heap, size: U64, p: int)
    requires Good(h) && (h1, p) == Malloc(h, size) && p != 0
    ensures Free(h1, p - 16) == h
  {
    MallocFree(h, size);
  }

  lemma FrameBack(m: Memory, h: Heap, m1: Memory, h1: Heap, m2: Memory, b: int)
    requires Frame(m, h, m1, h1, {}) && Frame(m1, h1, m2, h, {b}) && IsFree(h, b)
    ensures Frame(m, h, m2, h, {})
  {
    FrameLess(m, h, m1, h1, {}, {b});
    FrameTrans(m, h, m1, h1, m2, h, {b});
    FrameLess(m, h, m2, h, {b}, {});
  }
}
