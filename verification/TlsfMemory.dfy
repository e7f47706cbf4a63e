/**
 The heap in memory: one 64-bit word per multiple of 8.

 The header of a block at `b` holds the address of the block below at `b` (only while that
 block is free; the word is otherwise the last one of its payload), the size and two flags
 at `b + 8`, and the links of its free list at `b + 16` and `b + 24` (only while it is free;
 the words are otherwise the first two of its payload).
 */
module TlsfMemory {
  import opened Sequences
  import opened TlsfMapping
  import opened TlsfHeap
  import opened TlsfLists

  /** A 64-bit word as its value with the two lowest bits cleared, and these bits; in a size word they are the flags. */
  datatype Word = Word(value: int, prevFree: bool, free: bool)

  type Memory = map<int, Word>

  function Ptr(a: int): Word {
    Word(a, false, false)
  }

  /** The address of `block_null` in the control structure, which ends every free list. */
  const NULL_BLOCK: int := -64

  // ---------- memory and heap value ----------

  /**
   * The header of block `c` says what the heap value says; of the blocks in `L` the part about the
   * block below is out of date.
   */
  ghost predicate HeaderOk(m: Memory, h: Heap, L: set<int>, c: int) {
    && c + 8 in m
    && m[c + 8].value == Size(h, c) && m[c + 8].free == IsFree(h, c)
    && (c !in L ==>
          && m[c + 8].prevFree == IsFree(h, Prev(h, c))
          && (IsFree(h, Prev(h, c)) ==> c in m && m[c] == Ptr(Prev(h, c))))
  }

  /** All words of a block, up to and including the first of the next header, exist. */
  ghost predicate RoomOk(m: Memory, h: Heap, c: int) {
    Size(h, c) != 0 ==> forall a :: c + 8 <= a <= Next(h, c) && a % 8 == 0 ==> a in m
  }

  function At(s: seq<int>, i: int): int {
    if 0 <= i < |s| then s[i] else NULL_BLOCK
  }

  ghost predicate LinkedAt(m: Memory, s: seq<int>, i: int) {
    var x := At(s, i);
    x + 16 in m && m[x + 16] == Ptr(At(s, i + 1)) && x + 24 in m && m[x + 24] == Ptr(At(s, i - 1))
  }

  /** The blocks of `s` are doubly linked in this order, between two null blocks. */
  ghost predicate Chained(m: Memory, s: seq<int>) {
    forall i {:trigger LinkedAt(m, s, i)} :: 0 <= i < |s| ==> LinkedAt(m, s, i)
  }

  ghost predicate ChainOk(m: Memory, h: Heap, k: int) {
    0 <= k < |h.lists| && Chained(m, h.lists[k])
  }

  /** Memory `m` holds the heap `h`. */
  ghost predicate Holds(m: Memory, h: Heap, L: set<int>) {
    && NULL_BLOCK + 16 in m && NULL_BLOCK + 24 in m
    && (forall c {:trigger HeaderOk(m, h, L, c)} :: c in h.blocks ==> HeaderOk(m, h, L, c))
    && (forall c {:trigger RoomOk(m, h, c)} :: c in h.blocks ==> RoomOk(m, h, c))
    && (forall k {:trigger ChainOk(m, h, k)} :: 0 <= k < LIST_COUNT ==> ChainOk(m, h, k))
  }

  /** The words from `lo` to `hi` are as before. */
  ghost predicate Same(m: Memory, m': Memory, lo: int, hi: int) {
    forall a :: lo <= a <= hi && a in m ==> a in m' && m'[a] == m[a]
  }

  /** The payload of a block in use that is not in hand is as before. */
  ghost predicate DataKept(m: Memory, m': Memory, h: Heap, X: set<int>, c: int) {
    c in h.blocks && !IsFree(h, c) && c !in X ==> Same(m, m', c + 16, Next(h, c))
  }

  ghost predicate AllDataKept(m: Memory, m': Memory, h: Heap, X: set<int>) {
    forall c {:trigger DataKept(m, m', h, X, c)} :: DataKept(m, m', h, X, c)
  }

  /** Two headers never share a word that is in use. */
  lemma Spaced(h: Heap, b: int, c: int)
    requires Phys(h) && b in h.blocks && c in h.blocks && b < c
    ensures Next(h, b) <= c
    ensures Size(h, b) != 0 || Prev(h, c) != 0 ==> b + 32 <= c
    ensures 0 !in h.blocks
  {
    assert Apart(h, b, c) && BlockOk(h, b) && BackOk(h, c);
    assert 0 in h.blocks ==> BlockOk(h, 0);
    var p := Prev(h, c);
    if p != 0 {
      assert Apart(h, p, b) && Apart(h, b, p) && BlockOk(h, p);
    }
  }

  lemma SpacedAll(h: Heap, b: int, c: int)
    requires Phys(h) && b in h.blocks && c in h.blocks
    ensures b < c ==> Next(h, b) <= c && (Size(h, b) != 0 || Prev(h, c) != 0 ==> b + 32 <= c)
    ensures c < b ==> Next(h, c) <= b && (Size(h, c) != 0 || Prev(h, b) != 0 ==> c + 32 <= b)
    ensures 0 !in h.blocks
  {
    assert 0 in h.blocks ==> BlockOk(h, 0);
    if b < c { Spaced(h, b, c); }
    if c < b { Spaced(h, c, b); }
  }

  /** A header word is never a link word of a block. */
  lemma HeaderVsLinks(h: Heap, x: int, c: int)
    requires Phys(h) && x in h.blocks && Size(h, x) != 0 && c in h.blocks
    ensures c != x + 16 && c != x + 24 && c + 8 != x + 16 && c + 8 != x + 24
  {
    SpacedAll(h, x, c);
  }

  /** Within the words from a block's payload to the next header, only that next header has a header word. */
  lemma HeaderVsData(h: Heap, c: int, d: int)
    requires Phys(h) && c in h.blocks && d in h.blocks
    ensures !(c + 16 <= d + 8 <= Next(h, c))
    ensures c + 16 <= d <= Next(h, c) ==> d == Next(h, c)
  {
    SpacedAll(h, c, d);
  }

  /** Memory changes at most at the words `W`. */
  ghost predicate SameBut(m: Memory, m': Memory, W: set<int>) {
    m.Keys <= m'.Keys && forall a :: a in m && a !in W ==> m'[a] == m[a]
  }

  ghost predicate LinksKept(m: Memory, m': Memory, x: int) {
    (x + 16 in m ==> x + 16 in m' && m'[x + 16] == m[x + 16])
      && (x + 24 in m ==> x + 24 in m' && m'[x + 24] == m[x + 24])
  }

  /** Lists survive writes that spare the link words of their blocks. */
  lemma ChainsFrame(m: Memory, m': Memory, h: Heap, h': Heap, X: set<int>, k: int)
    requires Listed(h, X) && ChainOk(m, h, k) && h'.lists == h.lists && 0 <= k < LIST_COUNT
    requires forall x {:trigger LinksKept(m, m', x)} :: IsFree(h, x) && x !in X ==> LinksKept(m, m', x)
    ensures ChainOk(m', h', k)
  {
    assert ListOk(h, X, k);
    var s := h.lists[k];
    forall i {:trigger LinkedAt(m', s, i)} | 0 <= i < |s| ensures LinkedAt(m', s, i) {
      assert LinkedAt(m, s, i) && LinksKept(m, m', s[i]);
    }
  }

  /** In particular writes to headers only. */
  lemma HeaderWrites(m: Memory, m': Memory, h: Heap, h': Heap, X: set<int>, b: int, c: int, d: int)
    requires Listed(h, X) && Phys(h') && h'.lists == h.lists && SameBut(m, m', {b, b + 8, c, c + 8, d, d + 8})
    requires b in h'.blocks && c in h'.blocks && d in h'.blocks
    requires forall x :: IsFree(h, x) && x !in X ==> IsFree(h', x)
    requires forall k {:trigger ChainOk(m, h, k)} :: 0 <= k < LIST_COUNT ==> ChainOk(m, h, k)
    ensures forall k {:trigger ChainOk(m', h', k)} :: 0 <= k < LIST_COUNT ==> ChainOk(m', h', k)
  {
    forall x {:trigger LinksKept(m, m', x)} | IsFree(h, x) && x !in X ensures LinksKept(m, m', x) {
      assert BlockOk(h', x);
      HeaderVsLinks(h', x, b);
      HeaderVsLinks(h', x, c);
      HeaderVsLinks(h', x, d);
    }
    forall k {:trigger ChainOk(m', h', k)} | 0 <= k < LIST_COUNT ensures ChainOk(m', h', k) {
      assert ChainOk(m, h, k);
      ChainsFrame(m, m', h, h', X, k);
    }
  }

  // ---------- block_mark_as_free, block_mark_as_used ----------

  function MarkFree(m: Memory, b: int, n: int): Memory
    requires b + 8 in m && n + 8 in m
  {
    var m1 := m[n := Ptr(b)];
    var m2 := m1[n + 8 := m1[n + 8].(prevFree := true)];
    m2[b + 8 := m2[b + 8].(free := true)]
  }

  function MarkUsed(m: Memory, b: int, n: int): Memory
    requires b + 8 in m && n + 8 in m
  {
    var m1 := m[n + 8 := m[n + 8].(prevFree := false)];
    m1[b + 8 := m1[b + 8].(free := false)]
  }

  lemma MarkFreeHeader(m: Memory, h: Heap, b: int, c: int)
    requires Phys(h) && Holds(m, h, {}) && b in h.blocks && Size(h, b) != 0 && c in h.blocks
    ensures b + 8 in m && Next(h, b) + 8 in m
    ensures HeaderOk(MarkFree(m, b, Next(h, b)), SetFree(h, b, true), {}, c)
  {
    var n := Next(h, b);
    assert BlockOk(h, b) && LinkOk(h, b) && HeaderOk(m, h, {}, b) && HeaderOk(m, h, {}, n) && HeaderOk(m, h, {}, c);
    assert BackOk(h, c) && BackOk(h, n);
    SpacedAll(h, b, c);
    SpacedAll(h, n, c);
  }

  lemma MarkUsedHeader(m: Memory, h: Heap, L: set<int>, b: int, c: int)
    requires Phys(h) && Holds(m, h, L) && b in h.blocks && Size(h, b) != 0 && c in h.blocks && L <= {Next(h, b)}
    ensures b + 8 in m && Next(h, b) + 8 in m
    ensures HeaderOk(MarkUsed(m, b, Next(h, b)), SetFree(h, b, false), {}, c)
  {
    var n := Next(h, b);
    assert BlockOk(h, b) && LinkOk(h, b) && HeaderOk(m, h, L, b) && HeaderOk(m, h, L, n) && HeaderOk(m, h, L, c);
    assert BackOk(h, c) && BackOk(h, n);
    SpacedAll(h, b, c);
    SpacedAll(h, n, c);
  }

  lemma MarkHolds(m: Memory, m': Memory, h: Heap, L: set<int>, b: int, free: bool, X: set<int>)
    requires Inv(h, X) && Holds(m, h, L) && b in X && b in h.blocks && Size(h, b) != 0 && L <= {Next(h, b)}
    requires free ==> L == {}
    requires b + 8 in m && Next(h, b) + 8 in m
    requires m' == if free then MarkFree(m, b, Next(h, b)) else MarkUsed(m, b, Next(h, b))
    ensures Holds(m', SetFree(h, b, free), {}) && AllDataKept(m, m', h, X)
  {
    var n, h' := Next(h, b), SetFree(h, b, free);
    assert LinkOk(h, b);
    forall c {:trigger HeaderOk(m', h', {}, c)} | c in h'.blocks ensures HeaderOk(m', h', {}, c) {
      if free { MarkFreeHeader(m, h, b, c); } else { MarkUsedHeader(m, h, L, b, c); }
    }
    forall c {:trigger RoomOk(m', h', c)} | c in h'.blocks ensures RoomOk(m', h', c) { assert RoomOk(m, h, c); }
    SetFreePhys(h, b, free);
    HeaderWrites(m, m', h, h', X, b, b, n);
    forall c {:trigger DataKept(m, m', h, X, c)} ensures DataKept(m, m', h, X, c) {
      if c in h.blocks && c !in X {
        HeaderVsData(h, c, n);
        HeaderVsData(h, c, b);
        assert BackOk(h, n) && LinkOk(h, c) && BlockOk(h, c);
      }
    }
  }

  // ---------- block_split ----------

  function SplitWords(m: Memory, b: int, size: nat): Memory
    requires b + 8 in m && b + 16 + size in m && b + 16 + m[b + 8].value in m
  {
    var r, rest := b + 8 + size, m[b + 8].value - size - 8;
    var m1 := m[r + 8 := m[r + 8].(value := rest)];
    var m2 := m1[b + 8 := m1[b + 8].(value := size)];
    MarkFree(m2, r, r + 8 + rest)
  }

  lemma SplitSame(m: Memory, b: int, size: nat)
    requires b + 8 in m && b + 16 + size in m && b + 16 + m[b + 8].value in m && m[b + 8].value >= 32 + size
    ensures Same(m, SplitWords(m, b, size), b + 16, b + 8 + size)
  {
  }

  /** The words a split reads and writes exist. */
  lemma SplitRoom(m: Memory, h: Heap, b: int, size: nat)
    requires SplitArgs(h, b, size) && Holds(m, h, {})
    ensures b + 8 in m && m[b + 8].value == Size(h, b) && b + 16 + size in m && b + 16 + Size(h, b) in m
  {
    assert BlockOk(h, b) && HeaderOk(m, h, {}, b) && RoomOk(m, h, b) && HeaderOk(m, h, {}, Next(h, b));
  }

  /** Afterwards only what the new block says about the block below it is to be written. */
  lemma SplitHeader(m: Memory, m': Memory, h: Heap, b: int, size: nat, c: int)
    requires SplitArgs(h, b, size) && Holds(m, h, {}) && c in Split(h, b, size).blocks
    requires b + 8 in m && m[b + 8].value == Size(h, b) && b + 16 + size in m && b + 16 + Size(h, b) in m
    requires m' == SplitWords(m, b, size)
    ensures HeaderOk(m', Split(h, b, size), {b + 8 + size}, c)
  {
    var h', r, n := Split(h, b, size), b + 8 + size, Next(h, b);
    SplitFresh(h, b, size);
    SplitPhys(h, b, size);
    assert LinkOk(h, b) && BlockOk(h, b) && HeaderOk(m, h, {}, b);
    if c in h.blocks {
      assert HeaderOk(m, h, {}, c) && BackOk(h, c);
    }
    SpacedAll(h', b, c);
    SpacedAll(h', r, c);
    SpacedAll(h', n, c);
  }

  lemma SplitData(m: Memory, m': Memory, h: Heap, b: int, size: nat, X: set<int>, c: int)
    requires SplitArgs(h, b, size) && b in X
    requires b + 8 in m && m[b + 8].value == Size(h, b) && b + 16 + size in m && b + 16 + Size(h, b) in m
    requires m' == SplitWords(m, b, size)
    ensures DataKept(m, m', h, X, c)
  {
    if c in h.blocks && c !in X {
      SplitFresh(h, b, size);
      SplitPhys(h, b, size);
      HeaderVsData(Split(h, b, size), c, Next(h, b));
      HeaderVsData(Split(h, b, size), c, b);
      HeaderVsData(Split(h, b, size), c, b + 8 + size);
      assert LinkOk(h, b) && LinkOk(h, c) && BlockOk(h, c);
    }
  }

  lemma SplitHolds(m: Memory, m': Memory, h: Heap, b: int, size: nat, X: set<int>)
    requires Inv(h, X) && SplitArgs(h, b, size) && Holds(m, h, {}) && b in X
    requires b + 8 in m && m[b + 8].value == Size(h, b) && b + 16 + size in m && b + 16 + Size(h, b) in m
    requires m' == SplitWords(m, b, size)
    ensures Holds(m', Split(h, b, size), {b + 8 + size}) && AllDataKept(m, m', h, X)
  {
    var h', r, n := Split(h, b, size), b + 8 + size, Next(h, b);
    SplitFresh(h, b, size);
    SplitPhys(h, b, size);
    forall c {:trigger HeaderOk(m', h', {r}, c)} | c in h'.blocks ensures HeaderOk(m', h', {r}, c) {
      SplitHeader(m, m', h, b, size, c);
    }
    forall c {:trigger RoomOk(m', h', c)} | c in h'.blocks ensures RoomOk(m', h', c) {
      assert RoomOk(m, h, b) && (c in h.blocks ==> RoomOk(m, h, c));
    }
    HeaderWrites(m, m', h, h', X, b, r, n);
    forall c {:trigger DataKept(m, m', h, X, c)} ensures DataKept(m, m', h, X, c) {
      SplitData(m, m', h, b, size, X, c);
    }
  }

  // ---------- what a block says about the one below it ----------

  /** `block_link_next` of the block below `r` and `block_set_prev_free(r)`, in either order. */
  function LinkFree(m: Memory, r: int, p: int): Memory
    requires r + 8 in m
  {
    var m1 := m[r := Ptr(p)];
    m1[r + 8 := m1[r + 8].(prevFree := true)]
  }

  function LinkUsed(m: Memory, r: int): Memory
    requires r + 8 in m
  {
    m[r + 8 := m[r + 8].(prevFree := false)]
  }

  lemma LinkHeader(m: Memory, m': Memory, h: Heap, r: int, c: int)
    requires Phys(h) && Holds(m, h, {r}) && r in h.blocks && c in h.blocks && Prev(h, r) != 0 && r + 8 in m
    requires m' == if IsFree(h, Prev(h, r)) then LinkFree(m, r, Prev(h, r)) else LinkUsed(m, r)
    ensures HeaderOk(m', h, {}, c)
  {
    assert HeaderOk(m, h, {r}, r) && HeaderOk(m, h, {r}, c) && BackOk(h, c);
    SpacedAll(h, r, c);
  }

  /** The header of `r` is completed. */
  lemma LinkHolds(m: Memory, m': Memory, h: Heap, r: int, X: set<int>)
    requires Inv(h, X) && Holds(m, h, {r}) && r in h.blocks && Prev(h, r) != 0 && Prev(h, r) in X && r + 8 in m
    requires m' == if IsFree(h, Prev(h, r)) then LinkFree(m, r, Prev(h, r)) else LinkUsed(m, r)
    ensures Holds(m', h, {}) && AllDataKept(m, m', h, X)
  {
    forall c {:trigger HeaderOk(m', h, {}, c)} | c in h.blocks ensures HeaderOk(m', h, {}, c) {
      LinkHeader(m, m', h, r, c);
    }
    forall c {:trigger RoomOk(m', h, c)} | c in h.blocks ensures RoomOk(m', h, c) { assert RoomOk(m, h, c); }
    HeaderWrites(m, m', h, h, X, r, r, r);
    forall c {:trigger DataKept(m, m', h, X, c)} ensures DataKept(m, m', h, X, c) {
      if c in h.blocks && c !in X {
        HeaderVsData(h, c, r);
        assert LinkOk(h, c);
      }
    }
  }

  // ---------- block_absorb ----------

  function AbsorbWords(m: Memory, b: int, c: int): Memory
    requires b + 8 in m && c + 8 in m
  {
    var size := m[b + 8].value + m[c + 8].value + 8;
    m[b + 8 := m[b + 8].(value := size)][b + 8 + size := Ptr(b)]
  }

  /** The flag of the block above is right already if `b` is free, as the block swallowed is. */
  function Stale(h: Heap, b: int): set<int> {
    if IsFree(h, b) then {} else {Next(h, Next(h, b))}
  }

  lemma AbsorbHeader(m: Memory, m': Memory, h: Heap, b: int, d: int)
    requires AbsorbArgs(h, b) && Holds(m, h, {}) && IsFree(h, Next(h, b)) && d in Absorb(h, b).blocks
    requires b + 8 in m && Next(h, b) + 8 in m && m' == AbsorbWords(m, b, Next(h, b))
    ensures HeaderOk(m', Absorb(h, b), Stale(h, b), d)
  {
    AbsorbNeighbours(h, b);
    var c := Next(h, b);
    var n := Next(h, c);
    assert HeaderOk(m, h, {}, b) && HeaderOk(m, h, {}, c) && HeaderOk(m, h, {}, n) && HeaderOk(m, h, {}, d)
      && BackOk(h, d);
    SpacedAll(h, b, d);
    SpacedAll(h, n, d);
    SpacedAll(h, c, d);
  }

  lemma AbsorbRoom(m: Memory, m': Memory, h: Heap, b: int, d: int)
    requires AbsorbArgs(h, b) && Holds(m, h, {}) && d in Absorb(h, b).blocks && m.Keys <= m'.Keys
    ensures RoomOk(m', Absorb(h, b), d)
  {
    AbsorbNeighbours(h, b);
    var c := Next(h, b);
    assert RoomOk(m, h, b) && RoomOk(m, h, c) && RoomOk(m, h, d) && BlockOk(h, c);
  }

  lemma AbsorbData(m: Memory, m': Memory, h: Heap, b: int, X: set<int>, d: int)
    requires AbsorbArgs(h, b) && b in X && Next(h, b) in X
    requires b + 8 in m && Next(h, b) + 8 in m && m' == AbsorbWords(m, b, Next(h, b))
    requires m[b + 8].value == Size(h, b) && m[Next(h, b) + 8].value == Size(h, Next(h, b))
    ensures DataKept(m, m', h, X, d)
  {
    if d in h.blocks && d !in X {
      AbsorbNeighbours(h, b);
      HeaderVsData(h, d, b);
      HeaderVsData(h, d, Next(h, Next(h, b)));
      assert LinkOk(h, d) && BlockOk(h, d);
    }
  }

  lemma AbsorbHolds(m: Memory, m': Memory, h: Heap, b: int, X: set<int>)
    requires Inv(h, X) && AbsorbArgs(h, b) && Holds(m, h, {}) && IsFree(h, Next(h, b)) && b in X && Next(h, b) in X
    requires b + 8 in m && Next(h, b) + 8 in m && m' == AbsorbWords(m, b, Next(h, b))
    ensures Holds(m', Absorb(h, b), Stale(h, b)) && AllDataKept(m, m', h, X)
  {
    var h', L, c := Absorb(h, b), Stale(h, b), Next(h, b);
    AbsorbPhys(h, b);
    AbsorbNeighbours(h, b);
    assert HeaderOk(m, h, {}, b) && HeaderOk(m, h, {}, c);
    forall d {:trigger HeaderOk(m', h', L, d)} | d in h'.blocks ensures HeaderOk(m', h', L, d) {
      AbsorbHeader(m, m', h, b, d);
    }
    forall d {:trigger RoomOk(m', h', d)} | d in h'.blocks ensures RoomOk(m', h', d) {
      AbsorbRoom(m, m', h, b, d);
    }
    HeaderWrites(m, m', h, h', X, b, b, Next(h, c));
    forall d {:trigger DataKept(m, m', h, X, d)} ensures DataKept(m, m', h, X, d) {
      AbsorbData(m, m', h, b, X, d);
    }
  }

  // ---------- insert_free_block, remove_free_block ----------

  ghost predicate Far(x: int, y: int) {
    x == y || x + 32 <= y || y + 32 <= x
  }

  lemma FarBlocks(h: Heap, x: int, y: int)
    requires Phys(h)
    requires x == NULL_BLOCK || IsFree(h, x)
    requires y == NULL_BLOCK || IsFree(h, y)
    ensures Far(x, y)
  {
    assert IsFree(h, x) ==> BlockOk(h, x);
    assert IsFree(h, y) ==> BlockOk(h, y);
    if IsFree(h, x) && IsFree(h, y) { SpacedAll(h, x, y); }
  }

  /** The word `w` is a link of the null block or of a free block. */
  ghost predicate LinkWord(h: Heap, x: int, w: int) {
    (x == NULL_BLOCK || IsFree(h, x)) && (w == x + 16 || w == x + 24)
  }

  /** Writes to links change no header and no payload in use. */
  lemma LinkWrites(m: Memory, m': Memory, h: Heap, h': Heap, X: set<int>, x: int, v: int, y: int, w: int, z: int,
    u: int)
    requires Phys(h) && Holds(m, h, {}) && h'.blocks == h.blocks
    requires LinkWord(h, x, v) && LinkWord(h, y, w) && LinkWord(h, z, u) && SameBut(m, m', {v, w, u})
    ensures forall c {:trigger HeaderOk(m', h', {}, c)} :: c in h'.blocks ==> HeaderOk(m', h', {}, c)
    ensures forall c {:trigger RoomOk(m', h', c)} :: c in h'.blocks ==> RoomOk(m', h', c)
    ensures AllDataKept(m, m', h, X)
  {
    forall c {:trigger HeaderOk(m', h', {}, c)} | c in h'.blocks ensures HeaderOk(m', h', {}, c) {
      assert HeaderOk(m, h, {}, c);
      LinkVsBlock(h, x, v, c);
      LinkVsBlock(h, y, w, c);
      LinkVsBlock(h, z, u, c);
    }
    forall c {:trigger RoomOk(m', h', c)} | c in h'.blocks ensures RoomOk(m', h', c) { assert RoomOk(m, h, c); }
    forall c {:trigger DataKept(m, m', h, X, c)} ensures DataKept(m, m', h, X, c) {
      if c in h.blocks && !IsFree(h, c) {
        LinkVsBlock(h, x, v, c);
        LinkVsBlock(h, y, w, c);
        LinkVsBlock(h, z, u, c);
      }
    }
  }

  lemma LinkVsBlock(h: Heap, x: int, w: int, c: int)
    requires Phys(h) && LinkWord(h, x, w) && c in h.blocks
    ensures w != c && w != c + 8
    ensures !IsFree(h, c) ==> !(c + 16 <= w <= Next(h, c))
  {
    assert BlockOk(h, c);
    if IsFree(h, x) {
      assert BlockOk(h, x);
      SpacedAll(h, x, c);
    }
  }

  function InsertWords(m: Memory, b: int, head: int): Memory {
    m[b + 16 := Ptr(head)][b + 24 := Ptr(NULL_BLOCK)][head + 24 := Ptr(b)]
  }

  function RemoveWords(m: Memory, next: int, prev: int): Memory {
    m[next + 24 := Ptr(prev)][prev + 16 := Ptr(next)]
  }

  /** The elements of a list and the null block do not overlap, nor with `b`. */
  ghost predicate FarAll(s: seq<int>, b: int) {
    Far(b, NULL_BLOCK) && forall i :: 0 <= i < |s| ==> Far(s[i], b) && s[i] != b
  }

  lemma InsertChained(m: Memory, s: seq<int>, b: int)
    requires Chained(m, s) && NoDup(s) && FarAll(s, b) && FarAll(s, NULL_BLOCK)
    requires |s| > 0 ==> FarAll(s[1..], s[0])
    ensures Chained(InsertWords(m, b, At(s, 0)), [b] + s)
  {
    var m', t := InsertWords(m, b, At(s, 0)), [b] + s;
    forall i {:trigger LinkedAt(m', t, i)} | 0 <= i < |t| ensures LinkedAt(m', t, i) {
      if i > 0 {
        assert LinkedAt(m, s, i - 1) && t[i] == s[i - 1];
        assert Far(s[i - 1], b) && Far(s[i - 1], NULL_BLOCK);
        assert i > 1 ==> s[i - 1] == s[1..][i - 2];
      }
    }
  }

  lemma RemoveChained(m: Memory, s: seq<int>, j: int)
    requires Chained(m, s) && NoDup(s) && 0 <= j < |s| && FarAll(s, NULL_BLOCK)
    requires forall i, k :: 0 <= i < |s| && 0 <= k < |s| ==> Far(s[i], s[k])
    ensures Chained(RemoveWords(m, At(s, j + 1), At(s, j - 1)), s[..j] + s[j + 1..])
  {
    var m', t := RemoveWords(m, At(s, j + 1), At(s, j - 1)), s[..j] + s[j + 1..];
    forall i {:trigger LinkedAt(m', t, i)} | 0 <= i < |t| ensures LinkedAt(m', t, i) {
      var o := if i < j then i else i + 1;
      assert LinkedAt(m, s, o) && t[i] == s[o];
      assert At(t, i + 1) == if i == j - 1 then At(s, j + 1) else At(s, o + 1);
      assert At(t, i - 1) == if i == j then At(s, j - 1) else At(s, o - 1);
      assert Far(s[o], NULL_BLOCK) && s[o] != NULL_BLOCK;
      assert 0 < j ==> Far(s[o], s[j - 1]);
      assert j + 1 < |s| ==> Far(s[o], s[j + 1]);
    }
  }

  /** The blocks of a list, with `b` free as well. */
  lemma ListFar(h: Heap, X: set<int>, k: int, b: int)
    requires Phys(h) && Listed(h, X) && 0 <= k < LIST_COUNT
    requires b == NULL_BLOCK || IsFree(h, b)
    ensures b !in h.lists[k] ==> FarAll(h.lists[k], b)
    ensures NULL_BLOCK !in h.lists[k]
    ensures forall i :: 0 <= i < |h.lists[k]| ==> Far(h.lists[k][i], b)
  {
    var s := h.lists[k];
    assert ListOk(h, X, k);
    FarBlocks(h, b, NULL_BLOCK);
    forall i | 0 <= i < |s| ensures Far(s[i], b) && s[i] != NULL_BLOCK {
      FarBlocks(h, s[i], b);
      assert BlockOk(h, s[i]);
    }
  }

  /** A list without the blocks `b` and `c` is as before when only links of these change. */
  lemma OtherChain(m: Memory, m': Memory, h: Heap, h': Heap, X: set<int>, k: int, b: int, c: int)
    requires Phys(h) && Listed(h, X) && 0 <= k < LIST_COUNT && ChainOk(m, h, k)
    requires |h'.lists| == |h.lists| && h'.lists[k] == h.lists[k] && b !in h.lists[k] && c !in h.lists[k]
    requires b == NULL_BLOCK || IsFree(h, b)
    requires c == NULL_BLOCK || IsFree(h, c)
    requires SameBut(m, m', {b + 16, b + 24, c + 16, c + 24})
    ensures ChainOk(m', h', k)
  {
    var s := h.lists[k];
    ListFar(h, X, k, b);
    ListFar(h, X, k, c);
    forall i {:trigger LinkedAt(m', s, i)} | 0 <= i < |s| ensures LinkedAt(m', s, i) {
      assert LinkedAt(m, s, i) && Far(s[i], b) && Far(s[i], c);
    }
  }

  /** An element of one list, or the null block, is in no other list. */
  lemma OneList(h: Heap, X: set<int>, k: int, j: int, i: int)
    requires Phys(h) && Listed(h, X) && 0 <= k < LIST_COUNT && 0 <= j < LIST_COUNT && k != j
    ensures At(h.lists[j], i) !in h.lists[k]
    ensures At(h.lists[j], i) == NULL_BLOCK || IsFree(h, At(h.lists[j], i))
  {
    assert ListOk(h, X, k) && ListOk(h, X, j);
    ListFar(h, X, k, NULL_BLOCK);
  }

  /** `insert_free_block`. */
  lemma AttachHolds(m: Memory, m': Memory, h: Heap, b: int, X: set<int>)
    requires Inv(h, X) && IsFree(h, b) && b in X && Holds(m, h, {}) && 0 <= ClassOf(h, b) < |h.lists|
    requires m' == InsertWords(m, b, At(h.lists[ClassOf(h, b)], 0))
    ensures Holds(m', Attach(h, b), {}) && AllDataKept(m, m', h, {})
  {
    var h', k := Attach(h, b), ClassOf(h, b);
    var s := h.lists[k];
    var head := At(s, 0);
    assert ListOk(h, X, k) && ChainOk(m, h, k);
    LinkWrites(m, m', h, h', {}, b, b + 16, b, b + 24, head, head + 24);
    forall j {:trigger ChainOk(m', h', j)} | 0 <= j < LIST_COUNT ensures ChainOk(m', h', j) {
      if j == k {
        AttachChain(m, h, b, X);
      } else {
        assert ChainOk(m, h, j) && ListOk(h, X, j);
        OneList(h, X, j, k, 0);
        OtherChain(m, m', h, h', X, j, b, head);
      }
    }
  }

  lemma AttachChain(m: Memory, h: Heap, b: int, X: set<int>)
    requires Inv(h, X) && IsFree(h, b) && b in X && 0 <= ClassOf(h, b) < |h.lists| && ChainOk(m, h, ClassOf(h, b))
    ensures var s := h.lists[ClassOf(h, b)]; Chained(InsertWords(m, b, At(s, 0)), [b] + s)
  {
    var k := ClassOf(h, b);
    var s := h.lists[k];
    assert ListOk(h, X, k);
    ListFar(h, X, k, b);
    ListFar(h, X, k, NULL_BLOCK);
    if |s| > 0 {
      ListFar(h, X, k, s[0]);
      assert forall i :: 0 <= i < |s[1..]| ==> s[1..][i] == s[i + 1];
      FarBlocks(h, s[0], NULL_BLOCK);
    }
    InsertChained(m, s, b);
  }

  lemma {:induction false} WithoutAt(s: seq<int>, j: int)
    requires NoDup(s) && 0 <= j < |s|
    ensures Without(s, s[j]) == s[..j] + s[j + 1..]
  {
    if j > 0 {
      WithoutAt(s[1..], j - 1);
      assert s[1..][j - 1] == s[j];
      assert [s[0]] + (s[1..][..j - 1] + s[1..][j..]) == s[..j] + s[j + 1..];
    }
  }

  /** `remove_free_block`, from wherever the block is in its list. */
  lemma DetachHolds(m: Memory, m': Memory, h: Heap, b: int, X: set<int>, j: int)
    requires Inv(h, X) && IsFree(h, b) && b !in X && Holds(m, h, {}) && 0 <= ClassOf(h, b) < |h.lists|
    requires var s := h.lists[ClassOf(h, b)];
      0 <= j < |s| && s[j] == b && m' == RemoveWords(m, At(s, j + 1), At(s, j - 1))
    ensures Holds(m', Detach(h, b), {}) && AllDataKept(m, m', h, {})
  {
    var h', k := Detach(h, b), ClassOf(h, b);
    var s := h.lists[k];
    var next, prev := At(s, j + 1), At(s, j - 1);
    assert ListOk(h, X, k) && ChainOk(m, h, k);
    LinkWrites(m, m', h, h', {}, next, next + 24, prev, prev + 16, prev, prev + 16);
    forall i {:trigger ChainOk(m', h', i)} | 0 <= i < LIST_COUNT ensures ChainOk(m', h', i) {
      if i == k {
        DetachChain(m, h, b, X, j);
        WithoutAt(s, j);
      } else {
        assert ChainOk(m, h, i);
        OneList(h, X, i, k, j + 1);
        OneList(h, X, i, k, j - 1);
        OtherChain(m, m', h, h', X, i, next, prev);
      }
    }
  }

  lemma DetachChain(m: Memory, h: Heap, b: int, X: set<int>, j: int)
    requires Inv(h, X) && 0 <= ClassOf(h, b) < |h.lists| && ChainOk(m, h, ClassOf(h, b))
    requires 0 <= j < |h.lists[ClassOf(h, b)]|
    ensures var s := h.lists[ClassOf(h, b)]; Chained(RemoveWords(m, At(s, j + 1), At(s, j - 1)), s[..j] + s[j + 1..])
  {
    var k := ClassOf(h, b);
    var s := h.lists[k];
    assert ListOk(h, X, k);
    ListFar(h, X, k, NULL_BLOCK);
    forall i, o | 0 <= i < |s| && 0 <= o < |s| ensures Far(s[i], s[o]) {
      ListFar(h, X, k, s[o]);
    }
    RemoveChained(m, s, j);
  }

  /** The owner of a block may write its payload as it likes. */
  lemma PayloadWrites(m: Memory, m': Memory, h: Heap, b: int)
    requires Phys(h) && Listed(h, {}) && Holds(m, h, {}) && b in h.blocks && !IsFree(h, b) && Size(h, b) != 0
    requires m.Keys <= m'.Keys && forall a :: a in m && !(b + 16 <= a <= Next(h, b)) ==> m'[a] == m[a]
    ensures Holds(m', h, {}) && AllDataKept(m, m', h, {b})
  {
    assert BlockOk(h, b) && LinkOk(h, b);
    forall c {:trigger HeaderOk(m', h, {}, c)} | c in h.blocks ensures HeaderOk(m', h, {}, c) {
      assert HeaderOk(m, h, {}, c);
      HeaderVsData(h, b, c);
    }
    forall c {:trigger RoomOk(m', h, c)} | c in h.blocks ensures RoomOk(m', h, c) { assert RoomOk(m, h, c); }
    forall x {:trigger LinksKept(m, m', x)} | IsFree(h, x) && x !in {} ensures LinksKept(m, m', x) {
      assert BlockOk(h, x);
      SpacedAll(h, x, b);
    }
    forall k {:trigger ChainOk(m', h, k)} | 0 <= k < LIST_COUNT ensures ChainOk(m', h, k) {
      assert ChainOk(m, h, k);
      ChainsFrame(m, m', h, h, {}, k);
    }
    forall c {:trigger DataKept(m, m', h, {b}, c)} ensures DataKept(m, m', h, {b}, c) {
      if c in h.blocks && c != b {
        SpacedAll(h, b, c);
        assert LinkOk(h, c) && BlockOk(h, c);
      }
    }
  }
}
