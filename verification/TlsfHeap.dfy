/**
 The heap as a value: physical blocks by address, free lists by size class.

 A block's address is that of its header; its payload starts 16 bytes later and the next
 block begins at `b + 8 + size`. A block of size zero ends each pool.
 */
module TlsfHeap {
  import opened TlsfMapping

  /** `prev` is the physical neighbour below, or 0 in the first block of a pool; `pool` is that first block. */
  datatype Block = Block(size: nat, free: bool, prev: int, pool: int)

  /** `pools` leads from the first block of a pool to the one of size zero that ends it. */
  datatype Heap = Heap(blocks: map<int, Block>, lists: seq<seq<int>>, pools: map<int, int>)

  function Size(h: Heap, b: int): nat {
    if b in h.blocks then h.blocks[b].size else 0
  }

  function Next(h: Heap, b: int): int {
    b + 8 + Size(h, b)
  }

  function Prev(h: Heap, b: int): int {
    if b in h.blocks then h.blocks[b].prev else 0
  }

  function PoolOf(h: Heap, b: int): int {
    if b in h.blocks then h.blocks[b].pool else 0
  }

  predicate IsFree(h: Heap, b: int) {
    b in h.blocks && h.blocks[b].free
  }

  ghost predicate BlockOk(h: Heap, b: int) {
    var s := Size(h, b);
    && b > 0 && b % 8 == 0 && s % 8 == 0
    && (s == 0 || s >= 24)
    && (s == 0 ==> !IsFree(h, b))
    && PoolOf(h, b) in h.pools && PoolOf(h, b) <= b <= h.pools[PoolOf(h, b)]
    && (s == 0 <==> b == h.pools[PoolOf(h, b)])
    && (Prev(h, b) == 0 <==> b == PoolOf(h, b))
  }

  /** The neighbour above a block knows it. */
  ghost predicate LinkOk(h: Heap, b: int) {
    Size(h, b) != 0 ==>
      Next(h, b) in h.blocks && Prev(h, Next(h, b)) == b && PoolOf(h, Next(h, b)) == PoolOf(h, b)
  }

  /** The neighbour below a block ends where it begins. */
  ghost predicate BackOk(h: Heap, b: int) {
    Prev(h, b) != 0 ==>
      Prev(h, b) in h.blocks && Size(h, Prev(h, b)) != 0 && Next(h, Prev(h, b)) == b
  }

  ghost predicate Apart(h: Heap, b: int, c: int) {
    b < c ==> Next(h, b) <= c
  }

  ghost predicate PoolOk(h: Heap, s: int) {
    && s in h.pools && s in h.blocks && PoolOf(h, s) == s
    && h.pools[s] in h.blocks && Size(h, h.pools[s]) == 0 && h.pools[s] - s - 8 < BLOCK_SIZE_MAX
  }

  /** The blocks of each pool follow one another without gap or overlap, up to the end of the pool. */
  ghost predicate Phys(h: Heap) {
    && (forall b {:trigger BlockOk(h, b)} :: b in h.blocks ==> BlockOk(h, b))
    && (forall b {:trigger LinkOk(h, b)} :: b in h.blocks ==> LinkOk(h, b))
    && (forall b {:trigger BackOk(h, b)} :: b in h.blocks ==> BackOk(h, b))
    && (forall b, c {:trigger Apart(h, b, c)} :: b in h.blocks && c in h.blocks ==> Apart(h, b, c))
    && (forall s {:trigger PoolOk(h, s)} :: s in h.pools ==> PoolOk(h, s))
  }

  // ---------- the steps operations are made of ----------

  function SetFree(h: Heap, b: int, free: bool): Heap {
    if b in h.blocks then h.(blocks := h.blocks[b := h.blocks[b].(free := free)]) else h
  }

  predicate CanSplit(h: Heap, b: int, size: nat) {
    Size(h, b) >= 32 + size
  }

  /** The tail of a block, beyond `size` bytes, becomes a free block of its own. */
  function Split(h: Heap, b: int, size: nat): Heap {
    if !CanSplit(h, b, size) || Next(h, b) !in h.blocks then h else
    var k, r, n := h.blocks[b], b + 8 + size, Next(h, b);
    h.(blocks := h.blocks[b := k.(size := size)]
                   [r := Block(k.size - size - 8, true, b, k.pool)]
                   [n := h.blocks[n].(prev := r)])
  }

  /** A block swallows the one after it, header included. */
  function Absorb(h: Heap, b: int): Heap {
    if b !in h.blocks || Next(h, b) !in h.blocks || Next(h, Next(h, b)) !in h.blocks then h else
    var k, c := h.blocks[b], Next(h, b);
    var n := Next(h, c);
    h.(blocks := (h.blocks - {c})[b := k.(size := k.size + Size(h, c) + 8)][n := h.blocks[n].(prev := b)])
  }

  // ---------- what each step keeps ----------

  ghost predicate SplitArgs(h: Heap, b: int, size: nat) {
    Phys(h) && b in h.blocks && size >= 24 && size % 8 == 0 && CanSplit(h, b, size) && Next(h, b) in h.blocks
  }

  /** The new block lies strictly inside the old one, so its address is new. */
  lemma SplitFresh(h: Heap, b: int, size: nat)
    requires SplitArgs(h, b, size)
    ensures b + 8 + size !in h.blocks && b < b + 8 + size < Next(h, b)
    ensures Split(h, b, size).blocks.Keys == h.blocks.Keys + {b + 8 + size}
  {
    assert b + 8 + size in h.blocks ==> Apart(h, b, b + 8 + size);
  }

  lemma SplitBlock(h: Heap, b: int, size: nat, c: int)
    requires SplitArgs(h, b, size) && c in Split(h, b, size).blocks
    ensures BlockOk(Split(h, b, size), c)
  {
    SplitFresh(h, b, size);
    if c == b || c == b + 8 + size {
      SplitParts(h, b, size);
    } else {
      assert BlockOk(h, c) && LinkOk(h, b) && BlockOk(h, b);
    }
  }

  lemma SplitParts(h: Heap, b: int, size: nat)
    requires SplitArgs(h, b, size)
    ensures BlockOk(Split(h, b, size), b) && BlockOk(Split(h, b, size), b + 8 + size)
  {
    SplitFresh(h, b, size);
    assert BlockOk(h, b) && LinkOk(h, b) && BlockOk(h, Next(h, b));
  }

  lemma SplitLink(h: Heap, b: int, size: nat, c: int)
    requires SplitArgs(h, b, size) && c in Split(h, b, size).blocks
    ensures LinkOk(Split(h, b, size), c)
  {
    SplitFresh(h, b, size);
    assert LinkOk(h, b);
    if c in h.blocks { assert LinkOk(h, c); }
  }

  lemma SplitBack(h: Heap, b: int, size: nat, c: int)
    requires SplitArgs(h, b, size) && c in Split(h, b, size).blocks
    ensures BackOk(Split(h, b, size), c)
  {
    SplitFresh(h, b, size);
    assert LinkOk(h, b) && BlockOk(h, b);
    if c in h.blocks { assert BackOk(h, c); }
  }

  lemma SplitApart(h: Heap, b: int, size: nat, c: int, d: int)
    requires SplitArgs(h, b, size) && c in Split(h, b, size).blocks && d in Split(h, b, size).blocks
    ensures Apart(Split(h, b, size), c, d)
  {
    SplitFresh(h, b, size);
    var r := b + 8 + size;
    if c != r && d != r { assert Apart(h, c, d); }
    if c != r { assert Apart(h, c, b) && Apart(h, b, c); }
    if d != r { assert Apart(h, b, d); }
  }

  lemma SplitPhys(h: Heap, b: int, size: nat)
    requires SplitArgs(h, b, size)
    ensures Phys(Split(h, b, size))
  {
    var h' := Split(h, b, size);
    SplitFresh(h, b, size);
    forall c {:trigger BlockOk(h', c)} | c in h'.blocks ensures BlockOk(h', c) { SplitBlock(h, b, size, c); }
    forall c {:trigger LinkOk(h', c)} | c in h'.blocks ensures LinkOk(h', c) { SplitLink(h, b, size, c); }
    forall c {:trigger BackOk(h', c)} | c in h'.blocks ensures BackOk(h', c) { SplitBack(h, b, size, c); }
    forall c, d {:trigger Apart(h', c, d)} | c in h'.blocks && d in h'.blocks ensures Apart(h', c, d) {
      SplitApart(h, b, size, c, d);
    }
    forall s {:trigger PoolOk(h', s)} | s in h'.pools ensures PoolOk(h', s) { assert PoolOk(h, s); }
  }

  ghost predicate AbsorbArgs(h: Heap, b: int) {
    Phys(h) && b in h.blocks && Size(h, b) != 0 && Next(h, b) in h.blocks && Size(h, Next(h, b)) != 0
  }

  lemma AbsorbNeighbours(h: Heap, b: int)
    requires AbsorbArgs(h, b)
    ensures var c := Next(h, b); var n := Next(h, c);
      n in h.blocks && b < c < n && Prev(h, c) == b && Prev(h, n) == c && PoolOf(h, c) == PoolOf(h, b) == PoolOf(h, n)
  {
    assert LinkOk(h, b) && LinkOk(h, Next(h, b));
  }

  lemma AbsorbBlock(h: Heap, b: int, d: int)
    requires AbsorbArgs(h, b) && Next(h, Next(h, b)) in h.blocks && d in Absorb(h, b).blocks
    ensures BlockOk(Absorb(h, b), d)
  {
    AbsorbNeighbours(h, b);
    assert BlockOk(h, b) && BlockOk(h, Next(h, b)) && BlockOk(h, d);
  }

  lemma AbsorbLink(h: Heap, b: int, d: int)
    requires AbsorbArgs(h, b) && Next(h, Next(h, b)) in h.blocks && d in Absorb(h, b).blocks
    ensures LinkOk(Absorb(h, b), d)
  {
    AbsorbNeighbours(h, b);
    assert LinkOk(h, d);
  }

  lemma AbsorbBack(h: Heap, b: int, d: int)
    requires AbsorbArgs(h, b) && Next(h, Next(h, b)) in h.blocks && d in Absorb(h, b).blocks
    ensures BackOk(Absorb(h, b), d)
  {
    AbsorbNeighbours(h, b);
    assert BackOk(h, d) && BlockOk(h, b);
  }

  lemma AbsorbApart(h: Heap, b: int, d: int, e: int)
    requires AbsorbArgs(h, b) && Next(h, Next(h, b)) in h.blocks
    requires d in Absorb(h, b).blocks && e in Absorb(h, b).blocks
    ensures Apart(Absorb(h, b), d, e)
  {
    AbsorbNeighbours(h, b);
    assert Apart(h, d, e) && Apart(h, Next(h, b), e);
  }

  lemma AbsorbPhys(h: Heap, b: int)
    requires AbsorbArgs(h, b)
    ensures Next(h, Next(h, b)) in h.blocks && Phys(Absorb(h, b))
  {
    AbsorbNeighbours(h, b);
    var h' := Absorb(h, b);
    forall c {:trigger BlockOk(h', c)} | c in h'.blocks ensures BlockOk(h', c) { AbsorbBlock(h, b, c); }
    forall c {:trigger LinkOk(h', c)} | c in h'.blocks ensures LinkOk(h', c) { AbsorbLink(h, b, c); }
    forall c {:trigger BackOk(h', c)} | c in h'.blocks ensures BackOk(h', c) { AbsorbBack(h, b, c); }
    forall c, d {:trigger Apart(h', c, d)} | c in h'.blocks && d in h'.blocks ensures Apart(h', c, d) {
      AbsorbApart(h, b, c, d);
    }
    forall s {:trigger PoolOk(h', s)} | s in h'.pools ensures PoolOk(h', s) {
      AbsorbPool(h, b, s);
    }
  }

  /** The block swallowed is neither the first nor the last of a pool. */
  lemma AbsorbPool(h: Heap, b: int, s: int)
    requires AbsorbArgs(h, b) && Next(h, Next(h, b)) in h.blocks && s in h.pools
    ensures PoolOk(Absorb(h, b), s)
  {
    AbsorbNeighbours(h, b);
    var c := Next(h, b);
    assert PoolOk(h, s) && BlockOk(h, b) && BlockOk(h, c) && BlockOk(h, s) && BlockOk(h, h.pools[s]);
  }

  lemma SetFreePhys(h: Heap, b: int, free: bool)
    requires Phys(h) && (free ==> Size(h, b) != 0)
    ensures Phys(SetFree(h, b, free))
  {
    var h' := SetFree(h, b, free);
    forall c {:trigger BlockOk(h', c)} | c in h'.blocks ensures BlockOk(h', c) { assert BlockOk(h, c); }
    forall c {:trigger LinkOk(h', c)} | c in h'.blocks ensures LinkOk(h', c) { assert LinkOk(h, c); }
    forall c {:trigger BackOk(h', c)} | c in h'.blocks ensures BackOk(h', c) { assert BackOk(h, c); }
    forall c, d {:trigger Apart(h', c, d)} | c in h'.blocks && d in h'.blocks ensures Apart(h', c, d) {
      assert Apart(h, c, d);
    }
    forall s {:trigger PoolOk(h', s)} | s in h'.pools ensures PoolOk(h', s) { assert PoolOk(h, s); }
  }

  /** Every block fits the table. */
  lemma ClassInRange(h: Heap, b: int)
    requires Phys(h) && b in h.blocks
    ensures Size(h, b) < BLOCK_SIZE_MAX && 0 <= Index(Size(h, b)) < LIST_COUNT
  {
    assert BlockOk(h, b) && LinkOk(h, b) && PoolOk(h, PoolOf(h, b));
    if Size(h, b) != 0 { assert BlockOk(h, Next(h, b)); }
    MappingInRange(Size(h, b));
  }
}
