/** The integrity checks of the allocator, on any words at all. */
module TlsfChecker {
  import opened TlsfMapping
  import opened TlsfHeap
  import opened TlsfLists
  import opened TlsfOps
  import opened TlsfMemory
  import opened TlsfControl

  /** `tlsf_insist`: what a test adds to the status. */
  function Insist(ok: bool): (r: int)
    ensures r <= 0 && (r == 0 <==> ok)
  {
    if ok then 0 else -1
  }

  // ---------- one block ----------

  /** The words exist that are read of a listed block: its header, its link, and the header after it. */
  predicate Readable(m: Memory, x: int) {
    x + 8 in m && x + 16 in m && m[x + 8].value >= 0 && x + 16 + m[x + 8].value in m
  }

  /** The block is free and its neighbours are not, and it is on the list of its size. */
  predicate BlockSound(m: Memory, x: int, i: int, j: int)
    requires Readable(m, x)
  {
    var word, above := m[x + 8], m[x + 16 + m[x + 8].value];
    && word.free && !word.prevFree && !above.free && above.prevFree
    && word.value >= 24 && MappingInsert(word.value) == (i, j)
  }

  /** The tests of one block of list (`i`, `j`). */
  method CheckBlock(m: Memory, x: int, i: nat, j: nat) returns (status: int)
    requires Readable(m, x)
    ensures status <= 0 && (status == 0 <==> BlockSound(m, x, i, j))
  {
    var next := x + 8 + m[x + 8].value;
    status := Insist(m[x + 8].free) + Insist(!m[x + 8].prevFree);
    status := status + Insist(!m[next + 8].free) + Insist(m[next + 8].prevFree);
    status := status + Insist(m[x + 8].value >= 24);
    var (fl, sl) := MappingInsert(m[x + 8].value);
    status := status + Insist(fl == i && sl == j);
  }

  // ---------- one list ----------

  ghost predicate NodeReadable(m: Memory, s: seq<int>, n: int) {
    0 <= n < |s| ==> s[n] != NULL_BLOCK && Readable(m, s[n]) && m[s[n] + 16].value == At(s, n + 1)
  }

  /** From `head` on the links lead through the blocks of `s` to the null block. */
  ghost predicate Walkable(m: Memory, head: int, s: seq<int>) {
    head == At(s, 0) && forall n {:trigger NodeReadable(m, s, n)} :: NodeReadable(m, s, n)
  }

  ghost predicate SoundAt(m: Memory, s: seq<int>, i: int, j: int, n: int) {
    0 <= n < |s| ==> Readable(m, s[n]) && BlockSound(m, s[n], i, j)
  }

  /** Both levels of bits say whether the list `s` is empty, and its blocks are as they should be. */
  ghost predicate ListSound(m: Memory, c: Control, s: seq<int>, i: int, j: int)
    requires 0 <= i < |c.sl|
  {
    && (i !in c.fl ==> j !in c.sl[i])
    && (j !in c.sl[i] <==> s == [])
    && forall n {:trigger SoundAt(m, s, i, j, n)} :: SoundAt(m, s, i, j, n)
  }

  method CheckList(m: Memory, c: Control, ghost s: seq<int>, i: nat, j: nat) returns (status: int)
    requires i < FL_COUNT && j < 32 && |c.sl| == FL_COUNT && |c.heads| == LIST_COUNT
    requires Walkable(m, c.heads[32 * i + j], s)
    ensures status <= 0 && (status == 0 ==> ListSound(m, c, s, i, j))
    ensures ListSound(m, c, s, i, j) ==> status == 0
  {
    var block := c.heads[32 * i + j];
    assert NodeReadable(m, s, 0);
    status := 0;
    if i !in c.fl {
      status := status + Insist(j !in c.sl[i]);
    }
    if j !in c.sl[i] {
      status := status + Insist(block == NULL_BLOCK);
      return;
    }
    status := status + Insist(c.sl[i] != {}) + Insist(block != NULL_BLOCK);
    ghost var n, first := 0, status;
    while block != NULL_BLOCK
      invariant 0 <= n <= |s| && block == At(s, n) && status <= first
      invariant status == first <==> forall k {:trigger SoundAt(m, s, i, j, k)} :: k < n ==> SoundAt(m, s, i, j, k)
      decreases |s| - n
    {
      assert NodeReadable(m, s, n) && NodeReadable(m, s, n + 1);
      var bad := CheckBlock(m, block, i, j);
      status := status + bad;
      assert SoundAt(m, s, i, j, n) <==> bad == 0;
      block := m[block + 16].value;
      n := n + 1;
    }
    assert NodeReadable(m, s, n);
  }

  // ---------- the whole table ----------

  ghost predicate EntrySound(m: Memory, c: Control, lists: seq<seq<int>>, i: int, j: int) {
    0 <= i < FL_COUNT && 0 <= j < 32 && |c.sl| == FL_COUNT && |lists| == LIST_COUNT ==>
      ListSound(m, c, lists[32 * i + j], i, j)
  }

  ghost predicate EntryWalkable(m: Memory, c: Control, lists: seq<seq<int>>, k: int) {
    0 <= k < LIST_COUNT && |c.heads| == |lists| == LIST_COUNT ==> Walkable(m, c.heads[k], lists[k])
  }

  /** All entries before (`i`, `j`) in the order of the loops. */
  ghost predicate SoundBefore(m: Memory, c: Control, lists: seq<seq<int>>, i: int, j: int) {
    forall f, s {:trigger EntrySound(m, c, lists, f, s)} :: f < i || (f == i && s < j) ==> EntrySound(m, c, lists, f, s)
  }

  /** `tlsf_check` on any words whose lists come to an end: it returns 0 exactly if every list is as it should be. */
  method Check(m: Memory, c: Control, ghost lists: seq<seq<int>>) returns (status: int)
    requires |c.sl| == FL_COUNT && |c.heads| == |lists| == LIST_COUNT
    requires forall k {:trigger EntryWalkable(m, c, lists, k)} :: EntryWalkable(m, c, lists, k)
    ensures status == 0 <==> forall i, j {:trigger EntrySound(m, c, lists, i, j)} :: EntrySound(m, c, lists, i, j)
  {
    status := 0;
    for i := 0 to FL_COUNT
      invariant status <= 0 && (status == 0 <==> SoundBefore(m, c, lists, i, 0))
    {
      for j := 0 to 32
        invariant status <= 0 && (status == 0 <==> SoundBefore(m, c, lists, i, j))
      {
        assert EntryWalkable(m, c, lists, 32 * i + j);
        var bad := CheckList(m, c, lists[32 * i + j], i, j);
        assert EntrySound(m, c, lists, i, j) <==> bad == 0;
        status := status + bad;
      }
    }
    if status == 0 {
      forall i, j {:trigger EntrySound(m, c, lists, i, j)} ensures EntrySound(m, c, lists, i, j) { }
    }
  }

  // ---------- the blocks of a pool ----------

  ghost predicate StepReadable(m: Memory, s: seq<int>, n: int) {
    0 <= n < |s| ==>
      && s[n] + 8 in m
      && if n < |s| - 1 then m[s[n] + 8].value != 0 && s[n + 1] == s[n] + 8 + m[s[n] + 8].value
         else m[s[n] + 8].value == 0
  }

  /** The sizes lead from block to block along `s`, up to one of size zero. */
  ghost predicate PoolWalkable(m: Memory, first: int, s: seq<int>) {
    |s| > 0 && s[0] == first && forall n {:trigger StepReadable(m, s, n)} :: StepReadable(m, s, n)
  }

  /** The flag of a block says whether the one before it is free. */
  ghost predicate FlagSound(m: Memory, s: seq<int>, n: int) {
    0 <= n < |s| - 1 && s[n] + 8 in m && (n > 0 ==> s[n - 1] + 8 in m) ==>
      m[s[n] + 8].prevFree == (n > 0 && m[s[n - 1] + 8].free)
  }

  /** `tlsf_check_pool` on any words whose walk comes to an end. */
  method CheckPool(m: Memory, pool: int, ghost s: seq<int>) returns (status: int, walk: seq<int>)
    requires PoolWalkable(m, pool - 8, s)
    ensures status == 0 <==> forall n {:trigger FlagSound(m, s, n)} :: FlagSound(m, s, n)
    ensures walk == s[..|s| - 1]
  {
    var block := pool - 8;
    var prevStatus := false;
    status, walk := 0, [];
    ghost var n := 0;
    assert StepReadable(m, s, 0);
    while m[block + 8].value != 0
      invariant 0 <= n < |s| && block == s[n] && block + 8 in m && walk == s[..n] && status <= 0
      invariant n > 0 ==> s[n - 1] + 8 in m
      invariant prevStatus == (n > 0 && m[s[n - 1] + 8].free)
      invariant status == 0 <==> forall k {:trigger FlagSound(m, s, k)} :: k < n ==> FlagSound(m, s, k)
      decreases |s| - n
    {
      assert StepReadable(m, s, n) && StepReadable(m, s, n + 1);
      assert n < |s| - 1;
      var bad := Insist(prevStatus == m[block + 8].prevFree);
      assert FlagSound(m, s, n) <==> bad == 0;
      status := status + bad;
      prevStatus := m[block + 8].free;
      walk := walk + [block];
      block := block + 8 + m[block + 8].value;
      n := n + 1;
    }
    assert StepReadable(m, s, n);
  }

  // ---------- what the integrity checks find ----------

  lemma ListedReadable(m: Memory, h: Heap, k: int, n: nat)
    requires Good(h) && Holds(m, h, {}) && 0 <= k < LIST_COUNT && n < |h.lists[k]|
    ensures var x := h.lists[k][n];
      && Readable(m, x) && x != NULL_BLOCK && m[x + 16].value == At(h.lists[k], n + 1)
      && m[x + 8].value == Size(h, x) && m[x + 8].free && !m[x + 8].prevFree
      && !m[x + 16 + Size(h, x)].free && m[x + 16 + Size(h, x)].prevFree && Size(h, x) >= 24 && ClassOf(h, x) == k
  {
    var x := h.lists[k][n];
    assert ListOk(h, {}, k) && ChainOk(m, h, k) && LinkedAt(m, h.lists[k], n);
    assert BlockOk(h, x) && LinkOk(h, x) && BackOk(h, x);
    FreeNeighbours(h, {}, x);
    assert HeaderOk(m, h, {}, x) && HeaderOk(m, h, {}, Next(h, x));
  }

  lemma ListWalkable(m: Memory, h: Heap, c: Control, k: int)
    requires Good(h) && Holds(m, h, {}) && ControlOk(c, h.lists) && 0 <= k < LIST_COUNT
    ensures Walkable(m, c.heads[k], h.lists[k])
  {
    assert EntryOk(c, h.lists, k / 32, k % 32);
    forall n {:trigger NodeReadable(m, h.lists[k], n)} ensures NodeReadable(m, h.lists[k], n) {
      if 0 <= n < |h.lists[k]| { ListedReadable(m, h, k, n); }
    }
  }

  lemma ClassIs(size: nat, i: nat, j: nat)
    requires Index(size) == 32 * i + j && j < 32
    ensures MappingInsert(size) == (i, j)
  {
    MappingInRange(size);
  }

  lemma ListIsSound(m: Memory, h: Heap, c: Control, i: nat, j: nat)
    requires Good(h) && Holds(m, h, {}) && ControlOk(c, h.lists) && i < FL_COUNT && j < 32
    ensures ListSound(m, c, h.lists[32 * i + j], i, j)
  {
    var s := h.lists[32 * i + j];
    assert EntryOk(c, h.lists, i, j) && RowOk(c, i);
    forall n {:trigger SoundAt(m, s, i, j, n)} ensures SoundAt(m, s, i, j, n) {
      if 0 <= n < |s| {
        ListedReadable(m, h, 32 * i + j, n);
        ClassIs(Size(h, s[n]), i, j);
      }
    }
  }

  function EndOf(h: Heap, b: int): int {
    if PoolOf(h, b) in h.pools then h.pools[PoolOf(h, b)] else b
  }

  /** The blocks of a pool from `b` on, in order. */
  ghost function BlocksFrom(h: Heap, b: int): (s: seq<int>)
    requires Phys(h) && b in h.blocks
    ensures |s| > 0 && s[0] == b
    decreases EndOf(h, b) - b
  {
    assert BlockOk(h, b) && LinkOk(h, b);
    if Size(h, b) == 0 then [b]
    else
      assert BlockOk(h, Next(h, b));
      [b] + BlocksFrom(h, Next(h, b))
  }

  ghost predicate InPoolAt(h: Heap, s: seq<int>, p: int, n: int) {
    0 <= n < |s| ==>
      && s[n] in h.blocks && PoolOf(h, s[n]) == p
      && if n < |s| - 1 then Size(h, s[n]) != 0 && s[n + 1] == Next(h, s[n]) else Size(h, s[n]) == 0
  }

  lemma {:induction false} BlocksInPool(h: Heap, b: int, n: int)
    requires Phys(h) && b in h.blocks
    ensures InPoolAt(h, BlocksFrom(h, b), PoolOf(h, b), n)
    decreases EndOf(h, b) - b
  {
    assert BlockOk(h, b) && LinkOk(h, b);
    if Size(h, b) != 0 {
      assert BlockOk(h, Next(h, b));
      BlocksInPool(h, Next(h, b), n - 1);
      assert BlocksFrom(h, b) == [b] + BlocksFrom(h, Next(h, b));
    }
  }

  /** These are all blocks of the pool from there on. */
  lemma {:induction false} BlocksMember(h: Heap, b: int, c: int)
    requires Phys(h) && b in h.blocks
    ensures c in BlocksFrom(h, b) <==> c in h.blocks && PoolOf(h, c) == PoolOf(h, b) && c >= b
    decreases EndOf(h, b) - b
  {
    assert BlockOk(h, b) && LinkOk(h, b);
    if c in h.blocks { assert BlockOk(h, c) && Apart(h, b, c); }
    if Size(h, b) != 0 {
      assert BlockOk(h, Next(h, b));
      BlocksMember(h, Next(h, b), c);
      assert BlocksFrom(h, b) == [b] + BlocksFrom(h, Next(h, b));
    }
  }

  lemma {:induction false} BlocksSorted(h: Heap, b: int, i: nat, j: nat)
    requires Phys(h) && b in h.blocks && i < j < |BlocksFrom(h, b)|
    ensures BlocksFrom(h, b)[i] < BlocksFrom(h, b)[j]
    decreases j
  {
    BlocksInPool(h, b, j - 1);
    if i < j - 1 { BlocksSorted(h, b, i, j - 1); }
  }

  lemma PoolIsWalkable(m: Memory, h: Heap, b: int)
    requires Good(h) && Holds(m, h, {}) && b in h.blocks
    ensures PoolWalkable(m, b, BlocksFrom(h, b))
  {
    var s := BlocksFrom(h, b);
    forall n {:trigger StepReadable(m, s, n)} ensures StepReadable(m, s, n) {
      BlocksInPool(h, b, n);
      if 0 <= n < |s| { assert HeaderOk(m, h, {}, s[n]); }
    }
  }

  lemma PoolFlags(m: Memory, h: Heap, b: int)
    requires Good(h) && Holds(m, h, {}) && b in h.pools
    ensures b in h.blocks
    ensures forall n {:trigger FlagSound(m, BlocksFrom(h, b), n)} :: FlagSound(m, BlocksFrom(h, b), n)
  {
    assert PoolOk(h, b) && BlockOk(h, b);
    assert 0 in h.blocks ==> BlockOk(h, 0);
    var s := BlocksFrom(h, b);
    forall n {:trigger FlagSound(m, s, n)} ensures FlagSound(m, s, n) {
      BlocksInPool(h, b, n);
      BlocksInPool(h, b, n - 1);
      if 0 <= n < |s| { assert HeaderOk(m, h, {}, s[n]); }
      if 0 < n < |s| { assert HeaderOk(m, h, {}, s[n - 1]) && LinkOk(h, s[n - 1]); }
    }
  }

  /** Without the block that ends the pool: those of the pool that have a size, in order. */
  lemma PoolWalk(h: Heap, b: int)
    requires Good(h) && b in h.pools
    ensures b in h.blocks
    ensures var walk := BlocksFrom(h, b)[..|BlocksFrom(h, b)| - 1];
      && (forall c :: c in walk <==> c in h.blocks && PoolOf(h, c) == b && Size(h, c) != 0)
      && forall i, j :: 0 <= i < j < |walk| ==> walk[i] < walk[j]
  {
    assert PoolOk(h, b) && BlockOk(h, b);
    var s := BlocksFrom(h, b);
    var walk := s[..|s| - 1];
    forall c ensures c in walk <==> c in h.blocks && PoolOf(h, c) == b && Size(h, c) != 0 { WalkMember(h, b, c); }
    forall i, j | 0 <= i < j < |walk| ensures walk[i] < walk[j] { BlocksSorted(h, b, i, j); }
  }

  lemma WalkMember(h: Heap, b: int, c: int)
    requires Good(h) && b in h.pools && b in h.blocks
    ensures c in BlocksFrom(h, b)[..|BlocksFrom(h, b)| - 1] <==> c in h.blocks && PoolOf(h, c) == b && Size(h, c) != 0
  {
    assert PoolOk(h, b);
    var s := BlocksFrom(h, b);
    BlocksMember(h, b, c);
    if c in h.blocks && PoolOf(h, c) == b { assert BlockOk(h, c); }
    if c in s {
      var n :| 0 <= n < |s| && s[n] == c;
      BlocksInPool(h, b, n);
      if n < |s| - 1 { assert s[..|s| - 1][n] == c; }
      BlocksInPool(h, b, |s| - 1);
      if c in s[..|s| - 1] {
        var k :| 0 <= k < |s| - 1 && s[k] == c;
        BlocksInPool(h, b, k);
      }
    }
  }
}
