/** A new pool: `tlsf_add_pool`. */
module TlsfPools {
  import opened Arithmetic
  import opened TlsfMapping
  import opened TlsfHeap
  import opened TlsfLists
  import opened TlsfOps
  import opened TlsfMemory

  /** The size of the first block of a pool of `bytes` bytes; the subtraction wraps around. */
  function PoolBytes(bytes: U64): nat {
    AlignDown(Wrap(bytes - 16), 8)
  }

  /** The pool is accepted. */
  predicate PoolArgs(start: nat, bytes: U64) {
    start % 8 == 0 && 24 <= PoolBytes(bytes) <= BLOCK_SIZE_MAX
  }

  /** The first block and the one of size zero that ends the pool; the first is not yet on a list. */
  function NewPool(h: Heap, start: nat, size: nat): Heap {
    var b, n := start - 8, start + size;
    h.(blocks := h.blocks[b := Block(size, true, 0, b)][n := Block(0, false, b, b)], pools := h.pools[b := n])
  }

  function AddPool(h: Heap, start: nat, bytes: U64): Heap {
    if !PoolArgs(start, bytes) then h
    else Attach(NewPool(h, start, PoolBytes(bytes)), start - 8)
  }

  /** The words of the new pool belong to no pool yet. */
  ghost predicate Unused(h: Heap, start: nat, size: nat) {
    forall s :: s in h.pools ==> start + size + 8 <= s || h.pools[s] + 16 <= start
  }

  ghost predicate Fits(h: Heap, start: nat, size: nat) {
    && Phys(h) && start > 8 && start % 8 == 0 && size % 8 == 0 && 24 <= size < BLOCK_SIZE_MAX && Unused(h, start, size)
  }

  lemma PoolBytesFacts(bytes: U64)
    ensures PoolBytes(bytes) % 8 == 0
    ensures PoolBytes(bytes) <= BLOCK_SIZE_MAX ==> bytes >= 16 && PoolBytes(bytes) + 16 <= bytes
  {
    AlignDownFacts(Wrap(bytes - 16), 8);
  }

  lemma OutOfTheWay(h: Heap, start: nat, size: nat, c: int)
    requires Fits(h, start, size) && c in h.blocks
    ensures Next(h, c) <= start - 8 || start + size + 8 <= c
  {
    var s := PoolOf(h, c);
    assert BlockOk(h, c) && PoolOk(h, s) && Apart(h, c, h.pools[s]);
  }

  lemma NewPoolBlock(h: Heap, start: nat, size: nat, c: int)
    requires Fits(h, start, size) && c in NewPool(h, start, size).blocks
    ensures BlockOk(NewPool(h, start, size), c)
  {
    if c in h.blocks {
      OutOfTheWay(h, start, size, c);
      var s := PoolOf(h, c);
      assert BlockOk(h, c) && PoolOk(h, s);
      OutOfTheWay(h, start, size, s);
    }
  }

  lemma NewPoolLinks(h: Heap, start: nat, size: nat, c: int)
    requires Fits(h, start, size) && c in NewPool(h, start, size).blocks
    ensures LinkOk(NewPool(h, start, size), c) && BackOk(NewPool(h, start, size), c)
  {
    if c in h.blocks {
      OutOfTheWay(h, start, size, c);
      assert LinkOk(h, c) && BackOk(h, c);
      if Size(h, c) != 0 { OutOfTheWay(h, start, size, Next(h, c)); }
      if Prev(h, c) != 0 { OutOfTheWay(h, start, size, Prev(h, c)); }
    }
  }

  lemma NewPoolApart(h: Heap, start: nat, size: nat, c: int, d: int)
    requires Fits(h, start, size) && c in NewPool(h, start, size).blocks && d in NewPool(h, start, size).blocks
    ensures Apart(NewPool(h, start, size), c, d)
  {
    if c in h.blocks { OutOfTheWay(h, start, size, c); }
    if d in h.blocks { OutOfTheWay(h, start, size, d); }
    if c in h.blocks && d in h.blocks { assert Apart(h, c, d); }
  }

  lemma NewPoolPhys(h: Heap, start: nat, size: nat)
    requires Fits(h, start, size)
    ensures Phys(NewPool(h, start, size))
  {
    var h' := NewPool(h, start, size);
    forall c {:trigger BlockOk(h', c)} | c in h'.blocks ensures BlockOk(h', c) { NewPoolBlock(h, start, size, c); }
    forall c {:trigger LinkOk(h', c)} | c in h'.blocks ensures LinkOk(h', c) { NewPoolLinks(h, start, size, c); }
    forall c {:trigger BackOk(h', c)} | c in h'.blocks ensures BackOk(h', c) { NewPoolLinks(h, start, size, c); }
    forall c, d {:trigger Apart(h', c, d)} | c in h'.blocks && d in h'.blocks ensures Apart(h', c, d) {
      NewPoolApart(h, start, size, c, d);
    }
    forall s {:trigger PoolOk(h', s)} | s in h'.pools ensures PoolOk(h', s) { NewPoolPool(h, start, size, s); }
  }

  lemma NewPoolPool(h: Heap, start: nat, size: nat, s: int)
    requires Fits(h, start, size) && s in NewPool(h, start, size).pools
    ensures PoolOk(NewPool(h, start, size), s)
  {
    if s in h.pools {
      assert PoolOk(h, s);
      OutOfTheWay(h, start, size, s);
      OutOfTheWay(h, start, size, h.pools[s]);
    }
  }

  lemma NewPoolInv(h: Heap, start: nat, size: nat)
    requires Good(h) && Fits(h, start, size)
    ensures Inv(NewPool(h, start, size), {start - 8}) && Kept(h, NewPool(h, start, size), {})
  {
    var h', b := NewPool(h, start, size), start - 8;
    NewPoolPhys(h, start, size);
    forall c | c in h.blocks ensures c != b && c != start + size && (IsFree(h, c) ==> Next(h, c) != b) {
      OutOfTheWay(h, start, size, c);
      assert BlockOk(h, c) && LinkOk(h, c);
      if IsFree(h, c) { OutOfTheWay(h, start, size, Next(h, c)); }
    }
    forall j {:trigger ListOk(h', {b}, j)} | 0 <= j < LIST_COUNT ensures ListOk(h', {b}, j) {
      assert ListOk(h, {}, j);
    }
    forall c {:trigger InList(h', c)} | IsFree(h', c) && c !in {b} ensures InList(h', c) { assert InList(h, c); }
    forall c {:trigger Parted(h', {b}, c)} ensures Parted(h', {b}, c) { assert Parted(h, {}, c); }
  }

  /** The largest size accepted has no place in the table of lists, every smaller one has. */
  lemma AddPoolTable(start: nat, bytes: U64)
    requires PoolArgs(start, bytes)
    ensures 0 <= Index(PoolBytes(bytes))
      && (Index(PoolBytes(bytes)) < LIST_COUNT <==> PoolBytes(bytes) != BLOCK_SIZE_MAX)
  {
    MappingInRange(PoolBytes(bytes));
  }

  /** Such a size is accepted. */
  lemma AddPoolLargest()
    ensures PoolArgs(16, BLOCK_SIZE_MAX + 16) && PoolBytes(BLOCK_SIZE_MAX + 16) == BLOCK_SIZE_MAX
  {
    AlignDownFacts(BLOCK_SIZE_MAX, 8);
  }

  /** Which pools are accepted, by the number of bytes given. */
  lemma AddPoolAccepts(start: nat, bytes: U64)
    ensures PoolArgs(start, bytes) <==> start % 8 == 0 && 40 <= bytes <= BLOCK_SIZE_MAX + 23
  {
    PoolBytesFacts(bytes);
    if bytes >= 16 {
      PoolBytesIs(bytes, PoolBytes(bytes));
    }
  }

  /** Of enough bytes the two headers are taken, and the rest is rounded down to whole words. */
  lemma PoolBytesIs(bytes: U64, size: nat)
    requires bytes >= 16 && size % 8 == 0
    ensures size <= bytes - 16 < size + 8 <==> PoolBytes(bytes) == size
    ensures size <= bytes - 16 < size + 8 ==> (24 <= size <= BLOCK_SIZE_MAX <==> 40 <= bytes <= BLOCK_SIZE_MAX + 23)
  {
    AlignDownFacts(bytes - 16, 8);
  }

  ghost predicate PooledAt(h: Heap, h': Heap, start: nat, size: nat, c: int) {
    && (c in h'.blocks <==> c in h.blocks || c == start - 8 || c == start + size)
    && (c in h.blocks && c != start - 8 && c != start + size ==> c in h'.blocks && h'.blocks[c] == h.blocks[c])
  }

  /**
   * There is a new free block of `size` bytes at `start - 8`, a block that ends the pool after it,
   * and no other change.
   */
  ghost predicate Pooled(h: Heap, h': Heap, start: nat, size: nat) {
    && (forall c {:trigger PooledAt(h, h', start, size, c)} :: PooledAt(h, h', start, size, c))
    && IsFree(h', start - 8) && Size(h', start - 8) == size && Prev(h', start - 8) == 0
    && start + size in h'.blocks && Size(h', start + size) == 0 && !IsFree(h', start + size)
    && h'.pools == h.pools[start - 8 := start + size]
  }

  /** A pool accepted has all its bytes but the two headers, rounded down to whole words. */
  lemma AddPoolExact(h: Heap, start: nat, bytes: U64, size: nat)
    requires size % 8 == 0 && size <= bytes - 16 < size + 8
    ensures if start % 8 == 0
      && 40 <= bytes <= BLOCK_SIZE_MAX + 23 then Pooled(h, AddPool(h, start, bytes), start, size)
            else AddPool(h, start, bytes) == h
  {
    AddPoolAccepts(start, bytes);
    if PoolArgs(start, bytes) {
      PoolBytesIs(bytes, size);
      var h' := AddPool(h, start, bytes);
      assert h'.blocks == NewPool(h, start, size).blocks;
      forall c {:trigger PooledAt(h, h', start, size, c)} ensures PooledAt(h, h', start, size, c) { }
    }
  }

  /** A pool is added, or refused without effect; all other blocks are as they were. */
  lemma AddPoolGood(h: Heap, start: nat, bytes: U64)
    requires Good(h) && start > 8
      && (PoolArgs(start, bytes) ==> PoolBytes(bytes) < BLOCK_SIZE_MAX && Unused(h, start, PoolBytes(bytes)))
    ensures Good(AddPool(h, start, bytes)) && Kept(h, AddPool(h, start, bytes), {})
  {
    PoolBytesFacts(bytes);
    if PoolArgs(start, bytes) {
      var size, b := PoolBytes(bytes), start - 8;
      NewPoolInv(h, start, size);
      var h' := NewPool(h, start, size);
      assert 0 in h'.blocks ==> BlockOk(h', 0);
      AttachInv(h', b, {b});
      assert {b} - {b} == {};
      KeptSteps(h', b, 0, true, {b});
      KeptFree(h', Attach(h', b), b);
      KeptTrans(h, h', Attach(h', b), {});
    }
  }

  // ---------- memory ----------

  /** The header words of the new pool. */
  function PoolWords(m: Memory, start: nat, size: nat): Memory {
    var b, n := start - 8, start + size;
    m[b + 8 := Word(size, false, true)][n := Ptr(b)][n + 8 := Word(0, true, false)]
  }

  ghost predicate PoolRoom(m: Memory, start: nat, size: nat) {
    forall a :: start <= a <= start + size + 8 && a % 8 == 0 ==> a in m
  }

  lemma PoolHeader(m: Memory, h: Heap, start: nat, size: nat, c: int)
    requires Good(h) && Fits(h, start, size) && Holds(m, h, {}) && c in NewPool(h, start, size).blocks
    ensures HeaderOk(PoolWords(m, start, size), NewPool(h, start, size), {}, c)
    ensures PoolRoom(m, start, size) ==> RoomOk(PoolWords(m, start, size), NewPool(h, start, size), c)
  {
    var h' := NewPool(h, start, size);
    NewPoolPhys(h, start, size);
    assert 0 in h'.blocks ==> BlockOk(h', 0);
    if c in h.blocks {
      assert HeaderOk(m, h, {}, c) && RoomOk(m, h, c) && BackOk(h, c) && BlockOk(h, c);
      OutOfTheWay(h, start, size, c);
      if Prev(h, c) != 0 { OutOfTheWay(h, start, size, Prev(h, c)); }
      SpacedAll(h', start + size, c);
    }
  }

  lemma PoolHolds(m: Memory, h: Heap, start: nat, size: nat)
    requires Good(h) && Fits(h, start, size) && Holds(m, h, {}) && PoolRoom(m, start, size)
    ensures Holds(PoolWords(m, start, size), NewPool(h, start, size), {})
    ensures AllDataKept(m, PoolWords(m, start, size), h, {})
  {
    var m', h' := PoolWords(m, start, size), NewPool(h, start, size);
    NewPoolPhys(h, start, size);
    forall c {:trigger HeaderOk(m', h', {}, c)} | c in h'.blocks ensures HeaderOk(m', h', {}, c) {
      PoolHeader(m, h, start, size, c);
    }
    forall c {:trigger RoomOk(m', h', c)} | c in h'.blocks ensures RoomOk(m', h', c) {
      PoolHeader(m, h, start, size, c);
    }
    forall c | c in h.blocks ensures c != start - 8 && c != start + size { OutOfTheWay(h, start, size, c); }
    HeaderWrites(m, m', h, h', {}, start - 8, start - 8, start + size);
    forall c {:trigger DataKept(m, m', h, {}, c)} ensures DataKept(m, m', h, {}, c) {
      if c in h.blocks { OutOfTheWay(h, start, size, c); }
    }
  }

  /** All words of a new pool in the order of the source: the links of its block before the header that ends it. */
  function PoolMemory(m: Memory, start: nat, size: nat, head: int): Memory {
    var b, n := start - 8, start + size;
    InsertWords(m[b + 8 := Word(size, false, true)], b, head)[n := Ptr(b)][n + 8 := Word(0, true, false)]
  }

  /** These are different words, so their order does not matter. */
  lemma PoolOrder(m: Memory, start: nat, size: nat, head: int)
    requires size >= 24 && (head + 24 < start - 8 || start + size + 8 < head + 24)
    ensures PoolMemory(m, start, size, head) == InsertWords(PoolWords(m, start, size), start - 8, head)
  {
  }
}
