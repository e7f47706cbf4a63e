/** The allocator itself: header words, free lists and bitmaps updated in place. */
module TlsfAllocator {
  import opened Arithmetic
  import opened TlsfMapping
  import opened TlsfHeap
  import opened TlsfLists
  import opened TlsfOps
  import opened TlsfExact
  import opened TlsfMemory
  import opened TlsfControl
  import TlsfChecker
  import opened TlsfAligned
  import opened TlsfRealloc
  import opened TlsfPools

  /** Blocks in use, those of `X` aside, stay in place and keep their size and their contents; no word disappears. */
  ghost predicate Frame(m: Memory, h: Heap, m': Memory, h': Heap, X: set<int>) {
    Kept(h, h', X) && AllDataKept(m, m', h, X) && m.Keys <= m'.Keys
  }

  lemma FrameTrans(m: Memory, h: Heap, m1: Memory, h1: Heap, m2: Memory, h2: Heap, X: set<int>)
    requires Frame(m, h, m1, h1, X) && Frame(m1, h1, m2, h2, X)
    ensures Frame(m, h, m2, h2, X)
  {
    KeptTrans(h, h1, h2, X);
    forall c {:trigger DataKept(m, m2, h, X, c)} ensures DataKept(m, m2, h, X, c) {
      assert DataKept(m, m1, h, X, c) && DataKept(m1, m2, h1, X, c) && KeptAt(h, h1, X, c);
    }
  }

  /** Blocks that were not in use need no exemption. */
  lemma FrameLess(m: Memory, h: Heap, m': Memory, h': Heap, X: set<int>, Y: set<int>)
    requires Frame(m, h, m', h', X)
    requires forall x :: x in X ==> x in Y || x !in h.blocks || IsFree(h, x)
    ensures Frame(m, h, m', h', Y)
  {
    forall c {:trigger KeptAt(h, h', Y, c)} ensures KeptAt(h, h', Y, c) { assert KeptAt(h, h', X, c); }
    forall c {:trigger DataKept(m, m', h, Y, c)} ensures DataKept(m, m', h, Y, c) { assert DataKept(m, m', h, X, c); }
  }

  /** The `i`-th word from `src` on, if there is one, is now the `i`-th from `dst` on. */
  ghost predicate CopiedAt(m: Memory, m': Memory, src: int, dst: int, i: int) {
    src + 8 * i in m ==> dst + 8 * i in m' && m'[dst + 8 * i] == m[src + 8 * i]
  }

  /** All words with a byte among the first `n`. */
  ghost predicate Copied(m: Memory, m': Memory, src: int, dst: int, n: int) {
    forall i {:trigger CopiedAt(m, m', src, dst, i)} :: 0 <= 8 * i < n ==> CopiedAt(m, m', src, dst, i)
  }

  /** `memcpy` of `n` bytes, a whole number of words, between ranges that do not overlap. */
  method CopyWords(m: Memory, dst: int, src: int, n: nat) returns (m': Memory)
    requires dst % 8 == 0 && src % 8 == 0 && n % 8 == 0 && (dst + n <= src || src + n <= dst)
    requires forall a :: src <= a < src + n && a % 8 == 0 ==> a in m
    ensures m.Keys <= m'.Keys && (forall a :: a in m && !(dst <= a <= dst + n - 8) ==> m'[a] == m[a])
    ensures Copied(m, m', src, dst, n)
  {
    m' := m;
    var i := 0;
    while 8 * i < n
      invariant 0 <= 8 * i <= n && m.Keys <= m'.Keys
      invariant forall a :: a in m && !(dst <= a <= dst + 8 * i - 8) ==> m'[a] == m[a]
      invariant Copied(m, m', src, dst, 8 * i)
    {
      ghost var m0 := m';
      m' := m'[dst + 8 * i := m'[src + 8 * i]];
      i := i + 1;
      forall k {:trigger CopiedAt(m, m', src, dst, k)} | 0 <= 8 * k < 8 * i ensures CopiedAt(m, m', src, dst, k) {
        assert k < i - 1 ==> CopiedAt(m, m0, src, dst, k);
      }
    }
  }

  class Allocator {
    var mem: Memory
    var heads: seq<int>
    var flBitmap: Bits
    var slBitmap: seq<Bits>
    ghost var heap: Heap

    ghost function View(): Control
      reads this
    {
      Control(heads, flBitmap, slBitmap)
    }

    /** Words, heads and bitmaps hold `heap`, with the blocks `X` in hand and those of `L` to be completed. */
    ghost predicate Sync(X: set<int>, L: set<int>)
      reads this
    {
      Inv(heap, X) && Holds(mem, heap, L) && ControlOk(View(), heap.lists)
    }

    ghost predicate Valid()
      reads this
    {
      Sync({}, {})
    }

    /** `control_construct`: all lists are empty and all bits clear. */
    constructor (m: Memory)
      ensures Valid() && heap == EmptyHeap()
      ensures m.Keys <= mem.Keys
      ensures forall a :: a in m && a != NULL_BLOCK + 16 && a != NULL_BLOCK + 24 ==> mem[a] == m[a]
    {
      var blocks, rows := [], [];
      while |rows| < FL_COUNT
        invariant |rows| <= FL_COUNT && |blocks| == 32 * |rows|
        invariant forall f :: 0 <= f < |rows| ==> rows[f] == {}
        invariant forall k :: 0 <= k < |blocks| ==> blocks[k] == NULL_BLOCK
      {
        rows := rows + [{}];
        var j := 0;
        while j < 32
          invariant 0 <= j <= 32 && |blocks| == 32 * (|rows| - 1) + j
          invariant forall k :: 0 <= k < |blocks| ==> blocks[k] == NULL_BLOCK
        {
          blocks := blocks + [NULL_BLOCK];
          j := j + 1;
        }
      }
      mem := m[NULL_BLOCK + 16 := Ptr(NULL_BLOCK)][NULL_BLOCK + 24 := Ptr(NULL_BLOCK)];
      flBitmap, slBitmap, heads := {}, rows, blocks;
      heap := EmptyHeap();
      new;
      EmptyAll(mem, View());
    }

    // ---------- headers ----------

    method MarkAsFree(b: int, ghost X: set<int>)
      requires Sync(X, {}) && b in X && b in heap.blocks && Size(heap, b) != 0
      modifies this`mem, this`heap
      ensures Sync(X, {}) && heap == SetFree(old(heap), b, true) && Frame(old(mem), old(heap), mem, heap, X)
    {
      ghost var m, h := mem, heap;
      MarkFreeHeader(m, h, b, b);
      assert HeaderOk(m, h, {}, b);
      var next := b + 8 + mem[b + 8].value;
      mem := mem[next := Ptr(b)];
      mem := mem[next + 8 := mem[next + 8].(prevFree := true)];
      mem := mem[b + 8 := mem[b + 8].(free := true)];
      heap := SetFree(heap, b, true);
      MarkHolds(m, mem, h, {}, b, true, X);
      SetFreeInv(h, b, true, X);
      KeptSteps(h, b, 0, true, X);
    }

    method MarkAsUsed(b: int, ghost X: set<int>, ghost L: set<int>)
      requires Sync(X, L) && b in X && b in heap.blocks && Size(heap, b) != 0 && L <= {Next(heap, b)}
      modifies this`mem, this`heap
      ensures Sync(X, {}) && heap == SetFree(old(heap), b, false) && Frame(old(mem), old(heap), mem, heap, X)
      ensures Same(old(mem), mem, b + 16, Next(old(heap), b))
    {
      ghost var m, h := mem, heap;
      MarkUsedHeader(m, h, L, b, b);
      assert HeaderOk(m, h, L, b);
      var next := b + 8 + mem[b + 8].value;
      mem := mem[next + 8 := mem[next + 8].(prevFree := false)];
      mem := mem[b + 8 := mem[b + 8].(free := false)];
      heap := SetFree(heap, b, false);
      MarkHolds(m, mem, h, L, b, false, X);
      SetFreeInv(h, b, false, X);
      KeptSteps(h, b, 0, false, X);
    }

    // ---------- free lists ----------

    /** `block_insert`, as writes to memory, heads and bitmaps. */
    method PutOnList(b: int)
      requires |heads| == LIST_COUNT && |slBitmap| == FL_COUNT && b + 8 in mem && 0 <= mem[b + 8].value < BLOCK_SIZE_MAX
      modifies this`mem, this`heads, this`flBitmap, this`slBitmap
      ensures var (fl, sl) := MappingInsert(old(mem[b + 8].value));
        && 0 <= fl < FL_COUNT && 0 <= sl < 32
        && mem == InsertWords(old(mem), b, old(heads)[32 * fl + sl]) && View() == Inserted(old(View()), fl, sl, b)
    {
      MappingInRange(mem[b + 8].value);
      var (fl, sl) := MappingInsert(mem[b + 8].value);
      var current := heads[32 * fl + sl];
      mem := mem[b + 16 := Ptr(current)];
      mem := mem[b + 24 := Ptr(NULL_BLOCK)];
      mem := mem[current + 24 := Ptr(b)];
      heads := heads[32 * fl + sl := b];
      flBitmap := flBitmap + {fl};
      slBitmap := slBitmap[fl := slBitmap[fl] + {sl}];
    }

    /** A free block goes to the head of the list of its size. */
    method InsertBlock(b: int, ghost X: set<int>)
      requires Sync(X, {}) && IsFree(heap, b) && b in X
      requires IsFree(heap, Next(heap, b)) ==> Next(heap, b) in X
      requires IsFree(heap, Prev(heap, b)) ==> Prev(heap, b) in X
      modifies this
      ensures Sync(X - {b}, {}) && heap == Attach(old(heap), b) && Frame(old(mem), old(heap), mem, heap, {})
    {
      assert HeaderOk(mem, heap, {}, b);
      ClassInRange(heap, b);
      AttachAll(mem, heap, View(), b, X);
      PutOnList(b);
      heap := Attach(heap, b);
    }

    /** `remove_free_block`: the block leaves its list, wherever in it it is. */
    method RemoveFreeBlock(b: int, fl: nat, sl: nat, ghost X: set<int>)
      requires Sync(X, {}) && IsFree(heap, b) && b !in X && fl < FL_COUNT && sl < 32 && ClassOf(heap, b) == 32 * fl + sl
      modifies this
      ensures Sync(X + {b}, {}) && heap == Detach(old(heap), b) && Frame(old(mem), old(heap), mem, heap, {})
    {
      ghost var m, h, c := mem, heap, View();
      ghost var j := Position(m, h, X, b);
      var prev, next := mem[b + 24].value, mem[b + 16].value;
      mem := mem[next + 24 := Ptr(prev)];
      mem := mem[prev + 16 := Ptr(next)];
      if heads[32 * fl + sl] == b {
        heads := heads[32 * fl + sl := next];
        if next == NULL_BLOCK {
          slBitmap := slBitmap[fl := slBitmap[fl] - {sl}];
          if slBitmap[fl] == {} {
            flBitmap := flBitmap - {fl};
          }
        }
      }
      heap := Detach(heap, b);
      assert View() == Removed(c, fl, sl, b, next);
      DetachAll(m, h, c, b, X, j, fl, sl);
    }

    method RemoveBlock(b: int, ghost X: set<int>)
      requires Sync(X, {}) && IsFree(heap, b) && b !in X
      modifies this
      ensures Sync(X + {b}, {}) && heap == Detach(old(heap), b) && Frame(old(mem), old(heap), mem, heap, {})
    {
      assert HeaderOk(mem, heap, {}, b);
      ClassInRange(heap, b);
      MappingInRange(Size(heap, b));
      var (fl, sl) := MappingInsert(mem[b + 8].value);
      RemoveFreeBlock(b, fl, sl, X);
    }

    // ---------- splitting and joining ----------

    method SplitBlock(b: int, size: nat, ghost X: set<int>) returns (r: int)
      requires Sync(X, {}) && SplitArgs(heap, b, size) && b in X
      modifies this`mem, this`heap
      ensures r == b + 8 + size && Sync(X + {r}, {r}) && heap == Split(old(heap), b, size)
      ensures Frame(old(mem), old(heap), mem, heap, X) && Same(old(mem), mem, b + 16, r)
    {
      SplitRoom(mem, heap, b, size);
      SplitAll(mem, heap, b, size, X);
      r := b + 8 + size;
      WriteSplit(b, size);
      heap := Split(heap, b, size);
    }

    /** The writes of `block_split`, with those of `block_mark_as_free`. */
    method WriteSplit(b: int, size: nat)
      requires b + 8 in mem && b + 16 + size in mem && b + 16 + mem[b + 8].value in mem && mem[b + 8].value >= 32 + size
      modifies this`mem
      ensures mem == SplitWords(old(mem), b, size)
    {
      var r, rest := b + 8 + size, mem[b + 8].value - (size + 8);
      mem := mem[r + 8 := mem[r + 8].(value := rest)];
      mem := mem[b + 8 := mem[b + 8].(value := size)];
      var next := r + 8 + mem[r + 8].value;
      mem := mem[next := Ptr(r)];
      mem := mem[next + 8 := mem[next + 8].(prevFree := true)];
      mem := mem[r + 8 := mem[r + 8].(free := true)];
    }

    /** `block_link_next(b)` and `block_set_prev_free` of the block above. */
    method LinkAboveFree(b: int, ghost X: set<int>)
      requires Sync(X, {Next(heap, b)}) && b in X && IsFree(heap, b)
      modifies this`mem
      ensures Sync(X, {}) && Frame(old(mem), heap, mem, heap, X)
    {
      ghost var m := mem;
      assert HeaderOk(m, heap, {Next(heap, b)}, b) && BlockOk(heap, b) && LinkOk(heap, b);
      var r := b + 8 + mem[b + 8].value;
      assert HeaderOk(m, heap, {r}, r);
      mem := mem[r := Ptr(b)];
      mem := mem[r + 8 := mem[r + 8].(prevFree := true)];
      LinkHolds(m, mem, heap, r, X);
      KeptSelf(heap, X);
    }

    /** `block_set_prev_used` of the block above. */
    method LinkAboveUsed(b: int, ghost X: set<int>)
      requires Sync(X, {Next(heap, b)}) && b in X && b in heap.blocks && !IsFree(heap, b) && Size(heap, b) != 0
      modifies this`mem
      ensures Sync(X, {}) && Frame(old(mem), heap, mem, heap, X) && Same(old(mem), mem, b + 16, Next(heap, b))
    {
      ghost var m := mem;
      assert HeaderOk(m, heap, {Next(heap, b)}, b) && BlockOk(heap, b) && LinkOk(heap, b);
      var r := b + 8 + mem[b + 8].value;
      assert HeaderOk(m, heap, {r}, r);
      mem := mem[r + 8 := mem[r + 8].(prevFree := false)];
      LinkHolds(m, mem, heap, r, X);
      KeptSelf(heap, X);
    }

    /** `block_absorb`: the free block above is swallowed. */
    method AbsorbBlock(b: int, ghost X: set<int>)
      requires Sync(X, {}) && AbsorbArgs(heap, b) && IsFree(heap, Next(heap, b)) && b in X && Next(heap, b) in X
      modifies this`mem, this`heap
      ensures Sync(X - {Next(old(heap), b)}, Stale(old(heap), b)) && heap == Absorb(old(heap), b)
      ensures Frame(old(mem), old(heap), mem, heap, X) && Same(old(mem), mem, b + 16, Next(old(heap), b))
    {
      ghost var m, h := mem, heap;
      assert HeaderOk(m, h, {}, b);
      var c := b + 8 + mem[b + 8].value;
      assert HeaderOk(m, h, {}, c);
      mem := mem[b + 8 := mem[b + 8].(value := mem[b + 8].value + mem[c + 8].value + 8)];
      var next := b + 8 + mem[b + 8].value;
      mem := mem[next := Ptr(b)];
      heap := Absorb(heap, b);
      AbsorbHolds(m, mem, h, b, X);
      AbsorbInv(h, b, X);
      KeptSteps(h, b, 0, true, X);
    }

    /** `block_merge_prev` of a free block in hand. */
    method MergeBelow(b: int) returns (c: int)
      requires Sync({b}, {}) && IsFree(heap, b)
      modifies this
      ensures (heap, c) == MergePrev(old(heap), b) && Sync({c}, {}) && Frame(old(mem), old(heap), mem, heap, {})
    {
      ghost var m, h := mem, heap;
      assert HeaderOk(m, h, {}, b) && BackOk(h, b) && BlockOk(h, b);
      MergePrevInv(h, b);
      c := b;
      if mem[b + 8].prevFree {
        var prev := mem[b].value;
        assert BlockOk(h, prev);
        RemoveBlock(prev, {b});
        ghost var m1, h1 := mem, heap;
        assert HeaderOk(m1, h1, {}, prev);
        AbsorbBlock(prev, {b} + {prev});
        FrameLess(m1, h1, mem, heap, {b} + {prev}, {});
        FrameTrans(m, h, m1, h1, mem, heap, {});
        assert {b} + {prev} - {b} == {prev};
        c := prev;
      } else {
        FrameSelf(m, h);
      }
    }

    /** `block_merge_next` of a block in hand; if the block is in use its header is to be completed. */
    method MergeAbove(b: int)
      requires Sync({b}, {}) && b in heap.blocks && Size(heap, b) != 0
      modifies this
      ensures heap == MergeNext(old(heap), b)
        && Sync({b}, if IsFree(old(heap), b) || heap == old(heap) then {} else {Next(heap, b)})
      ensures Frame(old(mem), old(heap), mem, heap, {b})
      ensures !IsFree(old(heap), b) ==> Same(old(mem), mem, b + 16, Next(old(heap), b))
    {
      ghost var m, h := mem, heap;
      assert HeaderOk(m, h, {}, b) && LinkOk(h, b) && BlockOk(h, b);
      MergeNextInv(h, b);
      var next := b + 8 + mem[b + 8].value;
      assert HeaderOk(m, h, {}, next);
      if mem[next + 8].free {
        assert BlockOk(h, next);
        RemoveBlock(next, {b});
        ghost var m1, h1 := mem, heap;
        AbsorbBlock(b, {b} + {next});
        FrameLess(m1, h1, mem, heap, {b} + {next}, {b});
        FrameLess(m, h, m1, h1, {}, {b});
        FrameTrans(m, h, m1, h1, mem, heap, {b});
        assert {b} + {next} - {next} == {b};
        assert DataKept(m, m1, h, {}, b);
      } else {
        FrameSelf(m, h);
        FrameLess(m, h, mem, heap, {}, {b});
      }
    }

    /** `block_split` of a free block in hand, with the link back from the second part. */
    method SplitFree(b: int, size: nat) returns (r: int)
      requires Sync({b}, {}) && SplitArgs(heap, b, size) && IsFree(heap, b)
      modifies this`mem, this`heap
      ensures r == b + 8 + size && Sync({b} + {r}, {}) && heap == Split(old(heap), b, size)
      ensures Frame(old(mem), old(heap), mem, heap, {})
    {
      ghost var m, h := mem, heap;
      SplitFresh(h, b, size);
      r := SplitBlock(b, size, {b});
      ghost var m1, h1 := mem, heap;
      LinkAboveFree(b, {b} + {r});
      FrameLess(m, h, m1, h1, {b}, {});
      FrameLess(m1, h1, mem, h1, {b} + {r}, {});
      FrameTrans(m, h, m1, h1, mem, h1, {});
    }

    /** `block_trim_free`. */
    method TrimFreeBlock(b: int, size: nat)
      requires Sync({b}, {}) && IsFree(heap, b) && size >= 24 && size % 8 == 0
      requires !IsFree(heap, Next(heap, b))
      modifies this
      ensures heap == TrimFree(old(heap), b, size) && Sync({b}, {}) && Frame(old(mem), old(heap), mem, heap, {})
    {
      ghost var m, h := mem, heap;
      assert HeaderOk(m, h, {}, b) && LinkOk(h, b) && BlockOk(h, b);
      if mem[b + 8].value >= 32 + size {
        SplitFresh(h, b, size);
        var r := SplitFree(b, size);
        ghost var m1, h1 := mem, heap;
        InsertBlock(r, {b} + {r});
        assert {b} + {r} - {r} == {b};
        FrameTrans(m, h, m1, h1, mem, heap, {});
      } else {
        FrameSelf(m, h);
      }
    }

    // ---------- the operations ----------

    /** `block_locate_free`: the first block of the first list that is large enough, taken off it. */
    method LocateFree(size: nat) returns (b: int)
      requires Valid() && size % 8 == 0
      modifies this
      ensures b == Locate(old(heap), size)
      ensures b == 0 ==> unchanged(this)
      ensures b != 0 ==> Sync({b}, {}) && heap == Detach(old(heap), b) && Frame(old(mem), old(heap), mem, heap, {})
    {
      b := 0;
      if size != 0 {
        SearchLocates(View(), heap, size);
        var (fl, sl) := MappingSearch(size);
        if fl < FL_COUNT {
          var (f, s) := Search(Control(heads, flBitmap, slBitmap), fl, sl);
          if f < FL_COUNT {
            b := heads[32 * f + s];
            RemoveFreeBlock(b, f, s, {});
            assert {} + {b} == {b};
          }
        }
      }
    }

    /** `block_prepare_used` of a block in hand. */
    method PrepareUsedBlock(b: int, size: nat)
      requires Sync({b}, {}) && IsFree(heap, b) && size >= 24 && size % 8 == 0
      requires !IsFree(heap, Next(heap, b))
      modifies this
      ensures heap == PrepareUsed(old(heap), b, size) && Valid() && Frame(old(mem), old(heap), mem, heap, {})
    {
      ghost var m, h := mem, heap;
      TrimFreeInv(h, b, size);
      TrimFreeBlock(b, size);
      ghost var m1, h1 := mem, heap;
      assert BlockOk(h1, b);
      MarkAsUsed(b, {b}, {});
      FrameLess(m1, h1, mem, heap, {b}, {});
      FrameTrans(m, h, m1, h1, mem, heap, {});
      UsedInHand(heap, b, {b});
      assert {b} - {b} == {};
    }

    /** A block of at least `size` bytes is found and taken into use, if there is one. */
    method TakeBlock(size: nat) returns (b: int)
      requires Valid() && size % 8 == 0 && (size == 0 || size >= 24)
      modifies this
      ensures b == Locate(old(heap), size) >= 0 && (b == 0 ==> unchanged(this))
      ensures b != 0 ==> heap == PrepareUsed(Detach(old(heap), b), b, size)
      ensures Valid() && Frame(old(mem), old(heap), mem, heap, {})
    {
      ghost var m, h := mem, heap;
      b := LocateFree(size);
      if b != 0 {
        ghost var m1, h1 := mem, heap;
        Located(h, size);
        PrepareUsedBlock(b, size);
        FrameTrans(m, h, m1, h1, mem, heap, {});
      } else {
        FrameSelf(m, h);
      }
    }

    /** `tlsf_malloc`. */
    method Malloc(size: U64) returns (p: int)
      requires Valid()
      modifies this
      ensures Valid() && (heap, p) == TlsfOps.Malloc(old(heap), size) && Frame(old(mem), old(heap), mem, heap, {})
      ensures p == 0 ==> unchanged(this)
      ensures Malloced(old(heap), size, (heap, p))
    {
      AdjustShape(size);
      ghost var h := heap;
      var b := TakeBlock(AdjustRequest(size, 8));
      p := if b != 0 then b + 16 else 0;
      MallocAll(h, size);
    }

    /** `tlsf_free`; freeing 0 does nothing. */
    method Free(p: int)
      requires Valid() && (p != 0 ==> Live(heap, p - 16))
      modifies this
      ensures Valid() && heap == (if p == 0 then old(heap) else TlsfOps.Free(old(heap), p - 16))
      ensures Frame(old(mem), old(heap), mem, heap, {p - 16})
      ensures p == 0 ==> unchanged(this)
      ensures p != 0 ==> Freed(old(heap), heap, p - 16) && !Live(heap, p - 16)
    {
      ghost var m, h := mem, heap;
      if p != 0 {
        var b := p - 16;
        FreeExact(h, b);
        UsedInHand(h, b, {});
        assert {} + {b} == {b};
        MarkAsFree(b, {b});
        ghost var m1, h1 := mem, heap;
        MergePrevInv(h1, b);
        var c := MergeBelow(b);
        ghost var m2, h2 := mem, heap;
        ReturnBlock(c);
        FrameTrans(m1, h1, m2, h2, mem, heap, {});
        FrameLess(m1, h1, mem, heap, {}, {b});
        FrameTrans(m, h, m1, h1, mem, heap, {b});
      } else {
        FrameSelf(m, h);
        FrameLess(m, h, m, h, {}, {p - 16});
      }
    }

    /** `block_trim_free_leading`: the first part goes back to the lists, the second is kept in hand. */
    method TrimLeadingBlock(b: int, gap: nat) returns (c: int)
      requires Sync({b}, {}) && IsFree(heap, b) && !IsFree(heap, Next(heap, b)) && !IsFree(heap, Prev(heap, b))
      requires gap >= 32 && gap % 8 == 0
      modifies this
      ensures (heap, c) == TrimLeading(old(heap), b, gap) && Sync({c}, {}) && Frame(old(mem), old(heap), mem, heap, {})
    {
      ghost var m, h := mem, heap;
      assert HeaderOk(m, h, {}, b) && LinkOk(h, b) && BlockOk(h, b) && BackOk(h, b);
      c := b;
      if mem[b + 8].value >= 32 + gap {
        LeadingSplit(h, b, gap);
        c := SplitFree(b, gap - 8);
        ghost var m1, h1 := mem, heap;
        InsertBlock(b, {b} + {c});
        assert {b} + {c} - {b} == {c};
        FrameTrans(m, h, m1, h1, mem, heap, {});
      } else {
        FrameSelf(m, h);
      }
    }

    /** `tlsf_memalign`. */
    method Memalign(align: U64, size: U64) returns (p: int)
      requires Valid() && IsPow2(align)
      modifies this
      ensures align > 0
      ensures Valid() && (heap, p) == TlsfAligned.Memalign(old(heap), align, size)
        && Frame(old(mem), old(heap), mem, heap, {})
      ensures p == 0 ==> unchanged(this)
      ensures AlignedResult(old(heap), align, size, (heap, p))
      ensures Sought(old(heap), align, AdjustRequest(size, 8), p)
    {
      AlignedSizeFacts(align, size);
      AlignedFound(heap, align, size);
      ghost var h := heap;
      p := TakeAligned(align, AlignedSize(align, size), AdjustRequest(size, 8));
      MemalignAll(h, align, size);
    }

    /** A block of at least `size` bytes is found and placed, if there is one. */
    method TakeAligned(align: U64, size: nat, adjust: nat) returns (p: int)
      requires Valid() && IsPow2(align) && align > 0 && size % 8 == 0
      requires Locate(heap, size) != 0 ==> adjust >= 24 && adjust % 8 == 0
      modifies this
      ensures Valid() && Frame(old(mem), old(heap), mem, heap, {})
      ensures var b := Locate(old(heap), size);
        if b == 0 then p == 0 && unchanged(this) else (heap, p) == PlaceAligned(Detach(old(heap), b), b, align, adjust)
    {
      ghost var m, h := mem, heap;
      var b := LocateFree(size);
      p := 0;
      if b != 0 {
        ghost var m1, h1 := mem, heap;
        Located(h, size);
        p := PlaceBlock(b, align, adjust);
        FrameTrans(m, h, m1, h1, mem, heap, {});
      } else {
        FrameSelf(m, h);
      }
    }

    /** The end of `tlsf_memalign`: the block in hand is cut to an aligned payload and taken into use. */
    method PlaceBlock(b: int, align: nat, adjust: nat) returns (p: int)
      requires Sync({b}, {}) && IsPow2(align) && align > 0 && IsFree(heap, b)
      requires !IsFree(heap, Next(heap, b)) && !IsFree(heap, Prev(heap, b))
      requires adjust >= 24 && adjust % 8 == 0
      modifies this
      ensures (heap, p) == PlaceAligned(old(heap), b, align, adjust) && Valid()
        && Frame(old(mem), old(heap), mem, heap, {})
    {
      ghost var m, h := mem, heap;
      assert BlockOk(h, b);
      GapFacts(b + 16, align);
      var gap := Gap(b + 16, align);
      var c := b;
      if gap > 0 {
        if CanSplit(h, b, gap) { TrimLeadingInv(h, b, gap); }
        c := TrimLeadingBlock(b, gap);
      } else {
        FrameSelf(m, h);
      }
      ghost var m1, h1 := mem, heap;
      PrepareUsedBlock(c, adjust);
      FrameTrans(m, h, m1, h1, mem, heap, {});
      p := c + 16;
    }

    /** `block_split` of a block in use, with the flag in the second part, which is in hand. */
    method SplitUsed(b: int, size: nat) returns (r: int)
      requires Valid() && Live(heap, b) && SplitArgs(heap, b, size)
      modifies this`mem, this`heap
      ensures r == b + 8 + size && heap == Split(old(heap), b, size) && Sync({r}, {})
      ensures Frame(old(mem), old(heap), mem, heap, {b}) && Same(old(mem), mem, b + 16, r)
    {
      ghost var m, h := mem, heap;
      SplitFresh(h, b, size);
      UsedInHand(h, b, {});
      assert {} + {b} == {b};
      r := SplitBlock(b, size, {b});
      ghost var m1, h1 := mem, heap;
      LinkAboveUsed(b, {b} + {r});
      FrameLess(m1, h1, mem, h1, {b} + {r}, {b});
      FrameTrans(m, h, m1, h1, mem, h1, {b});
      UsedInHand(h1, b, {b} + {r});
      assert {b} + {r} - {b} == {r};
    }

    /** `block_trim_used`. */
    method TrimUsedBlock(b: int, size: nat)
      requires Valid() && Live(heap, b) && (CanSplit(heap, b, size) ==> size >= 24 && size % 8 == 0)
      modifies this
      ensures heap == TrimUsed(old(heap), b, size) && Valid() && Frame(old(mem), old(heap), mem, heap, {b})
      ensures Same(old(mem), mem, b + 16, if CanSplit(old(heap), b, size) then b + 8 + size else Next(old(heap), b))
    {
      ghost var m, h := mem, heap;
      assert HeaderOk(m, h, {}, b) && LinkOk(h, b) && BlockOk(h, b);
      if mem[b + 8].value >= 32 + size {
        SplitFresh(h, b, size);
        var r := SplitUsed(b, size);
        ghost var m1, h1 := mem, heap;
        ReturnBlock(r);
        FrameLess(m1, h1, mem, heap, {}, {b});
        FrameTrans(m, h, m1, h1, mem, heap, {b});
        assert DataKept(m1, mem, h1, {}, b);
      } else {
        FrameSelf(m, h);
        FrameLess(m, h, m, h, {}, {b});
      }
    }

    /** A free block in hand is joined with a free block above and goes back to the lists. */
    method ReturnBlock(r: int)
      requires Sync({r}, {}) && IsFree(heap, r) && !IsFree(heap, Prev(heap, r))
      modifies this
      ensures heap == Attach(MergeNext(old(heap), r), r) && Valid() && Frame(old(mem), old(heap), mem, heap, {})
    {
      ghost var m, h := mem, heap;
      assert BlockOk(h, r);
      MergeNextInv(h, r);
      MergeAbove(r);
      ghost var m1, h1 := mem, heap;
      InsertBlock(r, {r});
      assert {r} - {r} == {};
      FrameLess(m, h, m1, h1, {r}, {});
      FrameTrans(m, h, m1, h1, mem, heap, {});
    }

    /** The `memcpy` of `tlsf_realloc`, between the payloads of two blocks in use. */
    method CopyPayload(dst: int, src: int, n: nat)
      requires Valid() && Live(heap, dst - 16) && Live(heap, src - 16) && dst != src
      requires n % 8 == 0 && n <= Size(heap, dst - 16) && n <= Size(heap, src - 16)
      modifies this`mem
      ensures Valid() && Frame(old(mem), heap, mem, heap, {dst - 16}) && Copied(old(mem), mem, src, dst, n)
    {
      ghost var m, b := mem, dst - 16;
      CopyReady(m, heap, dst, src, n);
      mem := CopyWords(mem, dst, src, n);
      PayloadWrites(m, mem, heap, b);
      KeptSelf(heap, {b});
    }

    method CopyAndFree(p: int, q: int, n: nat)
      requires Valid() && Live(heap, p - 16) && Live(heap, q - 16) && p != q && p != 0
      requires n == Size(heap, p - 16) <= Size(heap, q - 16)
      modifies this
      ensures Valid() && heap == TlsfOps.Free(old(heap), p - 16)
      ensures Frame(old(mem), old(heap), mem, heap, {p - 16, q - 16}) && Copied(old(mem), mem, p, q, n)
    {
      ghost var m, h, X := mem, heap, {p - 16, q - 16};
      assert BlockOk(h, p - 16) && BlockOk(h, q - 16);
      CopyPayload(q, p, n);
      ghost var m1 := mem;
      Free(p);
      assert DataKept(m1, mem, h, {p - 16}, q - 16);
      CopiedOn(m, m, m1, mem, p, q, n);
      FrameLess(m, h, m1, h, {q - 16}, X);
      FrameLess(m1, h, mem, heap, {p - 16}, X);
      FrameTrans(m, h, m1, h, mem, heap, X);
    }

    /** `tlsf_realloc` of a block in use that must move. */
    method Move(p: int, size: U64) returns (q: int)
      requires Valid() && Live(heap, p - 16) && p != 0 && size > 0 && MustMove(heap, p - 16, AdjustRequest(size, 8))
      modifies this
      ensures Valid() && (heap, q) == TlsfRealloc.Realloc(old(heap), p, size)
      ensures Frame(old(mem), old(heap), mem, heap, {p - 16})
      ensures Reallocated(old(heap), p - 16, AdjustRequest(size, 8), (heap, q))
      ensures q == 0 ==> unchanged(this)
      ensures q != 0 ==> Copied(old(mem), mem, p, q, Size(old(heap), p - 16))
    {
      ghost var m, h := mem, heap;
      var b := p - 16;
      ReallocExact(h, b, size);
      SizeExceeds(h, b, size);
      q := Malloc(size);
      if q != 0 {
        ghost var m1, h1 := mem, heap;
        assert KeptAt(h, h1, {}, b) && DataKept(m, m1, h, {}, b) && HeaderOk(m1, h1, {}, b) && BlockOk(h, b);
        var cursize := mem[b + 8].value;
        CopyAndFree(p, q, if cursize < size then cursize else size);
        CopiedOn(m, m1, mem, mem, p, q, Size(h, b));
        FrameLess(m, h, m1, h1, {}, {b, q - 16});
        FrameTrans(m, h, m1, h1, mem, heap, {b, q - 16});
        FrameLess(m, h, mem, heap, {b, q - 16}, {b});
      } else {
        FrameLess(m, h, mem, heap, {}, {b});
      }
    }

    /** `tlsf_realloc` of a block in use that need not move. */
    method ResizeBlock(b: int, adjust: nat)
      requires Valid() && Live(heap, b) && !MustMove(heap, b, adjust)
      requires (adjust >= 24 && adjust % 8 == 0) || (adjust == 0 && Size(heap, b) < 32)
      modifies this
      ensures Valid() && heap == Resize(old(heap), b, adjust) && Live(heap, b)
        && Frame(old(mem), old(heap), mem, heap, {b})
      ensures Same(old(mem), mem, b + 16,
                b + 8 + if adjust < Size(old(heap), b) && adjust != 0 then adjust else Size(old(heap), b))
    {
      ghost var m, h := mem, heap;
      assert HeaderOk(m, h, {}, b);
      if adjust > mem[b + 8].value {
        GrowBlock(b);
        ghost var m1, h1 := mem, heap;
        TrimUsedGood(h1, b, adjust);
        TrimUsedBlock(b, adjust);
        FrameTrans(m, h, m1, h1, mem, heap, {b});
      } else {
        TrimUsedBlock(b, adjust);
        if adjust != 0 { TrimUsedGood(h, b, adjust); }
      }
    }

    /** A block in use grows into the free block above it. */
    method GrowBlock(b: int)
      requires Valid() && Live(heap, b)
      modifies this
      ensures Valid() && heap == SetFree(MergeNext(old(heap), b), b, false)
        && Frame(old(mem), old(heap), mem, heap, {b})
      ensures Live(heap, b) && Size(heap, b) == Size(old(heap), b)
        + (if IsFree(old(heap), Next(old(heap), b)) then 8 + Size(old(heap), Next(old(heap), b)) else 0)
      ensures Same(old(mem), mem, b + 16, Next(old(heap), b))
    {
      ghost var m, h := mem, heap;
      GrowGood(h, b);
      UsedInHand(h, b, {});
      assert {} + {b} == {b};
      MergeNextInv(h, b);
      MergeAbove(b);
      ghost var m1, h1 := mem, heap;
      assert BlockOk(h1, b) && HeaderOk(m1, h1, if h1 == h then {} else {Next(h1, b)}, b);
      MarkAsUsed(b, {b}, if h1 == h then {} else {Next(h1, b)});
      FrameTrans(m, h, m1, h1, mem, heap, {b});
      UsedInHand(heap, b, {b});
      assert {b} - {b} == {};
    }

    /** `tlsf_realloc` of a block in use to a size other than 0. */
    method ReallocBlock(p: int, size: U64) returns (q: int)
      requires Valid() && p != 0 && Live(heap, p - 16) && Resizable(heap, p - 16, size) && size != 0
      modifies this
      ensures Valid() && (heap, q) == TlsfRealloc.Realloc(old(heap), p, size)
      ensures Reallocated(old(heap), p - 16, AdjustRequest(size, 8), (heap, q))
      ensures Frame(old(mem), old(heap), mem, heap, {p - 16})
      ensures q == 0 ==> unchanged(this)
      ensures q != 0 ==> Copied(old(mem), mem, p, q, Surviving(Size(old(heap), p - 16), size))
    {
      ghost var m, h := mem, heap;
      ReallocExact(h, p - 16, size);
      assert BlockOk(h, p - 16);
      var adjust := AdjustRequest(size, 8);
      AdjustFacts(size);
      var move := NeedsMove(p - 16, adjust);
      if move {
        q := Move(p, size);
        CopiedLess(m, mem, p, q, Size(h, p - 16), Surviving(Size(h, p - 16), size));
      } else {
        ResizeBlock(p - 16, adjust);
        CopiedSame(m, mem, p, Size(h, p - 16), adjust, size);
        q := p;
      }
    }

    /** `tlsf_realloc`: the contents up to the smaller of both sizes survive, and a failure changes nothing. */
    method Realloc(p: int, size: U64) returns (q: int)
      requires Valid() && (p != 0 ==> Live(heap, p - 16) && Resizable(heap, p - 16, size))
      modifies this
      ensures Valid() && (heap, q) == TlsfRealloc.Realloc(old(heap), p, size)
      ensures ReallocOk(old(heap), p - 16, size, (heap, q))
      ensures p != 0 && size != 0 ==> Reallocated(old(heap), p - 16, AdjustRequest(size, 8), (heap, q))
      ensures p != 0 && size == 0 ==> q == 0 && !Live(heap, p - 16)
      ensures p == 0 ==> (q != 0 <==> Obtainable(old(heap), AdjustRequest(size, 8)))
      ensures Frame(old(mem), old(heap), mem, heap, {p - 16})
      ensures q == 0 && size != 0 ==> unchanged(this)
      ensures q != 0 && p != 0 ==> Copied(old(mem), mem, p, q, Surviving(Size(old(heap), p - 16), size))
    {
      ghost var m, h := mem, heap;
      q := 0;
      if p != 0 && size == 0 {
        Free(p);
      } else if p == 0 {
        q := Malloc(size);
        FrameLess(m, h, mem, heap, {}, {p - 16});
      } else {
        q := ReallocBlock(p, size);
      }
      ReallocGood(h, p, size);
    }

    /** The test whether the block above, if free, offers enough space. */
    method NeedsMove(b: int, adjust: nat) returns (move: bool)
      requires Valid() && Live(heap, b)
      ensures move == MustMove(heap, b, adjust)
    {
      assert HeaderOk(mem, heap, {}, b) && LinkOk(heap, b);
      var cursize := mem[b + 8].value;
      var next := b + 8 + cursize;
      assert HeaderOk(mem, heap, {}, next);
      var combined := cursize + mem[next + 8].value + 8;
      move := adjust > cursize && (!mem[next + 8].free || adjust > combined);
    }

    /** `tlsf_add_pool`. */
    method AddPool(start: nat, bytes: U64) returns (pool: int)
      requires Valid() && start > 8
      requires PoolArgs(start, bytes) ==>
        PoolBytes(bytes) < BLOCK_SIZE_MAX && Unused(heap, start, PoolBytes(bytes))
          && PoolRoom(mem, start, PoolBytes(bytes))
      modifies this
      ensures pool == if PoolArgs(start, bytes) then start else 0
      ensures Valid() && heap == TlsfPools.AddPool(old(heap), start, bytes) && Frame(old(mem), old(heap), mem, heap, {})
      ensures pool == 0 ==> unchanged(this)
    {
      var size := PoolBytes(bytes);
      PoolBytesFacts(bytes);
      if start % 8 != 0 || size < 24 || size > BLOCK_SIZE_MAX {
        FrameSelf(mem, heap);
        return 0;
      }
      CreatePool(start, size);
      return start;
    }

    /** The blocks of a new pool. */
    method CreatePool(start: nat, size: nat)
      requires Valid() && Fits(heap, start, size) && PoolRoom(mem, start, size)
      modifies this
      ensures Valid() && heap == Attach(NewPool(old(heap), start, size), start - 8)
      ensures Frame(old(mem), old(heap), mem, heap, {})
    {
      PoolAll(mem, heap, View(), start, size);
      assert start in mem && start + size + 8 in mem;
      WritePool(start, size);
      heap := Attach(NewPool(heap, start, size), start - 8);
    }

    /** The words of the two headers, and the entry on a list. */
    method WritePool(start: nat, size: nat)
      requires |heads| == LIST_COUNT && |slBitmap| == FL_COUNT && start in mem && start + size + 8 in mem
        && size < BLOCK_SIZE_MAX
      modifies this`mem, this`heads, this`flBitmap, this`slBitmap
      ensures var (fl, sl) := MappingInsert(size);
        && 0 <= fl < FL_COUNT && 0 <= sl < 32
        && mem == PoolMemory(old(mem), start, size, old(heads)[32 * fl + sl])
          && View() == Inserted(old(View()), fl, sl, start - 8)
    {
      var b := start - 8;
      mem := mem[b + 8 := mem[b + 8].(value := size).(free := true).(prevFree := false)];
      PutOnList(b);
      var next := b + 8 + size;
      mem := mem[next := Ptr(b)];
      mem := mem[next + 8 := mem[next + 8].(value := 0).(free := false).(prevFree := true)];
    }

    /** The owner of a block writes a word of its payload. */
    method Store(p: int, i: nat, word: Word)
      requires Valid() && Live(heap, p - 16) && 8 * i < Size(heap, p - 16)
      modifies this`mem
      ensures Valid() && mem == old(mem)[p + 8 * i := word] && Frame(old(mem), heap, mem, heap, {p - 16})
    {
      ghost var m := mem;
      assert BlockOk(heap, p - 16);
      mem := mem[p + 8 * i := word];
      PayloadWrites(m, mem, heap, p - 16);
      KeptSelf(heap, {p - 16});
    }

    // ---------- integrity ----------

    /** `tlsf_check` finds nothing. */
    method Check() returns (status: int)
      requires Valid()
      ensures status == 0
    {
      ghost var c := View();
      forall k {:trigger TlsfChecker.EntryWalkable(mem, c, heap.lists, k)}
        ensures TlsfChecker.EntryWalkable(mem, c, heap.lists, k)
      {
        if 0 <= k < LIST_COUNT { TlsfChecker.ListWalkable(mem, heap, c, k); }
      }
      forall i, j {:trigger TlsfChecker.EntrySound(mem, c, heap.lists, i, j)}
        ensures TlsfChecker.EntrySound(mem, c, heap.lists, i, j)
      {
        if 0 <= i < FL_COUNT && 0 <= j < 32 { TlsfChecker.ListIsSound(mem, heap, c, i, j); }
      }
      status := TlsfChecker.Check(mem, Control(heads, flBitmap, slBitmap), heap.lists);
    }

    /**
     * `tlsf_check_pool` finds nothing, and its walk meets the blocks of the pool, each once, up to
     * the one that ends it.
     */
    method CheckPool(pool: int) returns (status: int, walk: seq<int>)
      requires Valid() && pool - 8 in heap.pools
      ensures status == 0
      ensures forall c :: c in walk <==> c in heap.blocks && PoolOf(heap, c) == pool - 8 && Size(heap, c) != 0
      ensures forall i, j :: 0 <= i < j < |walk| ==> walk[i] < walk[j]
    {
      assert PoolOk(heap, pool - 8);
      ghost var s := TlsfChecker.BlocksFrom(heap, pool - 8);
      TlsfChecker.PoolIsWalkable(mem, heap, pool - 8);
      status, walk := TlsfChecker.CheckPool(mem, pool, s);
      TlsfChecker.PoolFlags(mem, heap, pool - 8);
      TlsfChecker.PoolWalk(heap, pool - 8);
    }
  }

  lemma EmptyAll(m: Memory, c: Control)
    requires NULL_BLOCK + 16 in m && NULL_BLOCK + 24 in m
    requires |c.heads| == LIST_COUNT && |c.sl| == FL_COUNT && c.fl == {}
    requires (forall f :: 0 <= f < FL_COUNT ==> c.sl[f] == {})
      && forall k :: 0 <= k < LIST_COUNT ==> c.heads[k] == NULL_BLOCK
    ensures Good(EmptyHeap()) && Holds(m, EmptyHeap(), {}) && ControlOk(c, EmptyHeap().lists)
  {
    var h := EmptyHeap();
    EmptyGood();
    forall k {:trigger ChainOk(m, h, k)} | 0 <= k < LIST_COUNT ensures ChainOk(m, h, k) { }
    forall f {:trigger RowOk(c, f)} | 0 <= f < FL_COUNT ensures RowOk(c, f) { }
    forall f, s {:trigger EntryOk(c, h.lists, f, s)} | 0 <= f < FL_COUNT && 0 <= s < 32
      ensures EntryOk(c, h.lists, f, s) { }
  }

  /** A list head is nowhere near a new pool. */
  lemma HeadApart(h: Heap, c: Control, start: nat, size: nat, fl: nat, sl: nat)
    requires Good(h) && ControlOk(c, h.lists) && Fits(h, start, size) && fl < FL_COUNT && sl < 32
    ensures var head := c.heads[32 * fl + sl]; head + 24 < start - 8 || start + size + 8 < head + 24
  {
    var head := c.heads[32 * fl + sl];
    assert EntryOk(c, h.lists, fl, sl) && ListOk(h, {}, 32 * fl + sl);
    if head != NULL_BLOCK {
      assert BlockOk(h, head);
      OutOfTheWay(h, start, size, head);
    }
  }

  lemma PoolFrame(m: Memory, h: Heap, start: nat, size: nat)
    requires Good(h) && Holds(m, h, {}) && Fits(h, start, size) && PoolRoom(m, start, size)
    ensures var h1, m1 := NewPool(h, start, size), PoolWords(m, start, size);
      Inv(h1, {start - 8}) && Holds(m1, h1, {}) && h1.lists == h.lists && Frame(m, h, m1, h1, {})
  {
    NewPoolInv(h, start, size);
    PoolHolds(m, h, start, size);
  }

  /** The neighbours of the first block of a new pool are not free. */
  lemma PoolReady(h: Heap, start: nat, size: nat)
    requires Good(h) && Fits(h, start, size) && Inv(NewPool(h, start, size), {start - 8})
    ensures var h1, b := NewPool(h, start, size), start - 8;
      IsFree(h1, b) && Size(h1, b) == size && !IsFree(h1, Next(h1, b)) && !IsFree(h1, Prev(h1, b))
  {
    var h1 := NewPool(h, start, size);
    assert 0 in h1.blocks ==> BlockOk(h1, 0);
  }

  /** The headers of a new pool, and its block on a list. */
  lemma PoolInserted(m: Memory, h: Heap, c: Control, start: nat, size: nat)
    requires Good(h) && Holds(m, h, {}) && ControlOk(c, h.lists) && Fits(h, start, size) && PoolRoom(m, start, size)
    ensures var (fl, sl) := MappingInsert(size);
      && 0 <= fl < FL_COUNT && 0 <= sl < 32
      && var h', m' := Attach(NewPool(h, start, size), start - 8),
                       InsertWords(PoolWords(m, start, size), start - 8, c.heads[32 * fl + sl]);
         Good(h') && Holds(m', h', {}) && ControlOk(Inserted(c, fl, sl, start - 8), h'.lists) && Frame(m, h, m', h', {})
  {
    var b, h1, m1 := start - 8, NewPool(h, start, size), PoolWords(m, start, size);
    PoolFrame(m, h, start, size);
    PoolReady(h, start, size);
    AttachAll(m1, h1, c, b, {b});
    assert {b} - {b} == {};
    var (fl, sl) := MappingInsert(size);
    FrameTrans(m, h, m1, h1, InsertWords(m1, b, c.heads[32 * fl + sl]), Attach(h1, b), {});
  }

  /** All effects of a new pool together. */
  lemma PoolAll(m: Memory, h: Heap, c: Control, start: nat, size: nat)
    requires Good(h) && Holds(m, h, {}) && ControlOk(c, h.lists) && Fits(h, start, size) && PoolRoom(m, start, size)
    ensures var (fl, sl) := MappingInsert(size);
      && 0 <= fl < FL_COUNT && 0 <= sl < 32
      && var h', m' := Attach(NewPool(h, start, size), start - 8), PoolMemory(m, start, size, c.heads[32 * fl + sl]);
         Good(h') && Holds(m', h', {}) && ControlOk(Inserted(c, fl, sl, start - 8), h'.lists) && Frame(m, h, m', h', {})
  {
    PoolInserted(m, h, c, start, size);
    var (fl, sl) := MappingInsert(size);
    HeadApart(h, c, start, size, fl, sl);
    PoolOrder(m, start, size, c.heads[32 * fl + sl]);
  }

  lemma CopiedLess(m: Memory, m': Memory, src: int, dst: int, n: int, k: int)
    requires k <= n && (dst != 0 ==> Copied(m, m', src, dst, n))
    ensures dst != 0 ==> Copied(m, m', src, dst, k)
  {
  }

  lemma CopiedSame(m: Memory, m': Memory, p: int, cur: nat, adjust: nat, size: U64)
    requires cur % 8 == 0 && cur >= 24 && adjust % 8 == 0
    requires adjust == 0 || if size > WORD_LIMIT - 8 then adjust == 24 else adjust >= size
    requires Same(m, m', p, p - 8 + if adjust < cur && adjust != 0 then adjust else cur)
    ensures Copied(m, m', p, p, Surviving(cur, size))
  {
    forall i {:trigger CopiedAt(m, m', p, p, i)} | 0 <= 8 * i < Surviving(cur, size)
      ensures CopiedAt(m, m', p, p, i)
    {
    }
  }

  /** The head of a list found by the bitmaps. */
  lemma HeadOfList(c: Control, h: Heap, f: nat, s: nat)
    requires Good(h) && ControlOk(c, h.lists) && f < FL_COUNT && s < 32 && h.lists[32 * f + s] != []
    ensures var b := h.lists[32 * f + s][0];
      c.heads[32 * f + s] == b && b != 0 && IsFree(h, b) && ClassOf(h, b) == 32 * f + s
  {
    assert EntryOk(c, h.lists, f, s) && ListOk(h, {}, 32 * f + s) && BlockOk(h, h.lists[32 * f + s][0]);
  }

  /** The bitmaps lead to the block that the lists determine. */
  lemma SearchLocates(c: Control, h: Heap, size: nat)
    requires Good(h) && ControlOk(c, h.lists) && size != 0
    ensures var (fl, sl) := MappingSearch(size);
      && 0 <= fl && 0 <= sl < 32 && (fl >= FL_COUNT ==> Locate(h, size) == 0)
      && (fl < FL_COUNT ==>
            var (f, s) := Search(c, fl, sl);
            && (f >= FL_COUNT ==> Locate(h, size) == 0)
            && (f < FL_COUNT ==>
                  var b := Locate(h, size);
                  s < 32 && c.heads[32 * f + s] == b && b != 0 && IsFree(h, b) && ClassOf(h, b) == 32 * f + s))
  {
    MappingInRange(SearchSize(size));
    var (fl, sl) := MappingSearch(size);
    if fl < FL_COUNT {
      var (f, s) := Search(c, fl, sl);
      FoundAt(c, h, size, fl, sl, f, s);
    }
  }

  lemma FoundAt(c: Control, h: Heap, size: nat, fl: nat, sl: nat, f: nat, s: nat)
    requires Good(h) && ControlOk(c, h.lists) && size != 0 && fl < FL_COUNT && sl < 32
    requires MappingSearch(size) == (fl, sl) && Search(c, fl, sl) == (f, s)
    ensures f >= FL_COUNT ==> Locate(h, size) == 0
    ensures f < FL_COUNT ==>
      var b := Locate(h, size);
      s < 32 && c.heads[32 * f + s] == b && b != 0 && IsFree(h, b) && ClassOf(h, b) == 32 * f + s
  {
    SearchFirst(c, h.lists, fl, sl);
    LocateIs(h, size, fl, sl);
    if f < FL_COUNT {
      SearchHits(c, h.lists, fl, sl);
      HeadOfList(c, h, f, s);
    }
  }

  lemma LocateIs(h: Heap, size: nat, fl: nat, sl: nat)
    requires size != 0 && |h.lists| == LIST_COUNT && fl < FL_COUNT && sl < 32 && MappingSearch(size) == (fl, sl)
    ensures var j := FirstFrom(h.lists, 32 * fl + sl);
      Locate(h, size) == if j < LIST_COUNT then h.lists[j][0] else 0
  {
  }

  /** A block that must move is smaller than the request. */
  lemma SizeExceeds(h: Heap, b: int, size: U64)
    requires Phys(h) && b in h.blocks && Size(h, b) != 0 && MustMove(h, b, AdjustRequest(size, 8)) && size > 0
    ensures Size(h, b) < size <= WORD_LIMIT - 8
  {
    assert BlockOk(h, b);
    AdjustFacts(size);
    AdjustLess(size);
  }

  /** The two payloads are whole words apart from each other, and the words to be copied exist. */
  lemma CopyReady(m: Memory, h: Heap, dst: int, src: int, n: nat)
    requires Phys(h) && Holds(m, h, {}) && Live(h, dst - 16) && Live(h, src - 16) && dst != src
    requires n <= Size(h, dst - 16) && n <= Size(h, src - 16)
    ensures dst % 8 == 0 && src % 8 == 0 && (dst + n <= src || src + n <= dst)
    ensures dst + n - 8 <= Next(h, dst - 16)
    ensures forall a :: src <= a < src + n && a % 8 == 0 ==> a in m
  {
    assert BlockOk(h, dst - 16) && BlockOk(h, src - 16);
    SpacedAll(h, dst - 16, src - 16);
    PayloadThere(m, h, src - 16, n);
  }

  lemma PayloadThere(m: Memory, h: Heap, c: int, n: nat)
    requires Holds(m, h, {}) && c in h.blocks && n <= Size(h, c) && c % 8 == 0 && Size(h, c) % 8 == 0
    ensures forall a :: c + 16 <= a < c + 16 + n && a % 8 == 0 ==> a in m
  {
    assert RoomOk(m, h, c);
    forall a | c + 16 <= a < c + 16 + n && a % 8 == 0 ensures a in m {
      assert c + 8 <= a <= Next(h, c);
    }
  }

  /** Words stay the same before and after they are copied. */
  lemma CopiedOn(m: Memory, m1: Memory, m2: Memory, m3: Memory, src: int, dst: int, n: nat)
    requires Same(m, m1, src, src + n - 8) && Copied(m1, m2, src, dst, n) && Same(m2, m3, dst, dst + n - 8)
      && n % 8 == 0
    ensures Copied(m, m3, src, dst, n)
  {
    forall i {:trigger CopiedAt(m, m3, src, dst, i)} | 0 <= 8 * i < n ensures CopiedAt(m, m3, src, dst, i) {
      assert CopiedAt(m1, m2, src, dst, i);
    }
  }

  lemma FrameSelf(m: Memory, h: Heap)
    ensures Frame(m, h, m, h, {})
  {
    KeptSelf(h, {});
    forall c {:trigger DataKept(m, m, h, {}, c)} ensures DataKept(m, m, h, {}, c) { }
  }

  lemma KeptSelf(h: Heap, X: set<int>)
    ensures Kept(h, h, X)
  {
    forall c {:trigger KeptAt(h, h, X, c)} ensures KeptAt(h, h, X, c) { }
  }

  /** Where a free block is in its list, and what its links say. */
  ghost method Position(m: Memory, h: Heap, X: set<int>, b: int) returns (j: int)
    requires Inv(h, X) && Holds(m, h, {}) && IsFree(h, b) && b !in X
    ensures 0 <= ClassOf(h, b) < |h.lists|
    ensures var s := h.lists[ClassOf(h, b)];
      && 0 <= j < |s| && s[j] == b
      && b + 16 in m && m[b + 16] == Ptr(At(s, j + 1)) && b + 24 in m && m[b + 24] == Ptr(At(s, j - 1))
  {
    var k := ClassOf(h, b);
    assert InList(h, b);
    j :| 0 <= j < |h.lists[k]| && h.lists[k][j] == b;
    assert ChainOk(m, h, k) && LinkedAt(m, h.lists[k], j);
  }

  /** All effects of a split together. */
  lemma SplitAll(m: Memory, h: Heap, b: int, size: nat, X: set<int>)
    requires Inv(h, X) && Holds(m, h, {}) && SplitArgs(h, b, size) && b in X
    requires b + 8 in m && m[b + 8].value == Size(h, b) && b + 16 + size in m && b + 16 + Size(h, b) in m
    ensures var h', m', r := Split(h, b, size), SplitWords(m, b, size), b + 8 + size;
      Inv(h', X + {r}) && Holds(m', h', {r}) && h'.lists == h.lists && Frame(m, h, m', h', X) && Same(m, m', b + 16, r)
  {
    SplitSame(m, b, size);
    SplitHolds(m, SplitWords(m, b, size), h, b, size, X);
    SplitInv(h, b, size, X);
    KeptSteps(h, b, size, true, X);
  }

  /** All effects of an insertion together. */
  lemma AttachAll(m: Memory, h: Heap, c: Control, b: int, X: set<int>)
    requires Inv(h, X) && Holds(m, h, {}) && ControlOk(c, h.lists) && IsFree(h, b) && b in X
    requires IsFree(h, Next(h, b)) ==> Next(h, b) in X
    requires IsFree(h, Prev(h, b)) ==> Prev(h, b) in X
    ensures var (fl, sl) := MappingInsert(Size(h, b));
      && 0 <= fl < FL_COUNT && 0 <= sl < 32
      && var h', m' := Attach(h, b), InsertWords(m, b, c.heads[32 * fl + sl]);
         && Inv(h', X - {b}) && Holds(m', h', {}) && ControlOk(Inserted(c, fl, sl, b), h'.lists)
         && Frame(m, h, m', h', {})
  {
    ClassInRange(h, b);
    MappingInRange(Size(h, b));
    var (fl, sl) := MappingInsert(Size(h, b));
    assert EntryOk(c, h.lists, fl, sl);
    AttachHolds(m, InsertWords(m, b, c.heads[32 * fl + sl]), h, b, X);
    AttachInv(h, b, X);
    InsertedOk(c, h.lists, fl, sl, b);
    KeptSteps(h, b, 0, true, {b});
    KeptFree(h, Attach(h, b), b);
  }

  /** All effects of a removal together. */
  lemma DetachAll(m: Memory, h: Heap, c: Control, b: int, X: set<int>, j: int, fl: nat, sl: nat)
    requires Inv(h, X) && Holds(m, h, {}) && ControlOk(c, h.lists) && IsFree(h, b) && b !in X
    requires fl < FL_COUNT && sl < 32 && ClassOf(h, b) == 32 * fl + sl
    requires 0 <= j < |h.lists[ClassOf(h, b)]| && h.lists[ClassOf(h, b)][j] == b
    ensures var s, h' := h.lists[ClassOf(h, b)], Detach(h, b);
      var m' := RemoveWords(m, At(s, j + 1), At(s, j - 1));
      && Inv(h', X + {b}) && Holds(m', h', {}) && ControlOk(Removed(c, fl, sl, b, At(s, j + 1)), h'.lists)
      && Frame(m, h, m', h', {})
  {
    var k := ClassOf(h, b);
    var s, h' := h.lists[k], Detach(h, b);
    var m' := RemoveWords(m, At(s, j + 1), At(s, j - 1));
    DetachHolds(m, m', h, b, X, j);
    DetachInv(h, b, X);
    assert ListOk(h, X, k);
    ListFar(h, X, k, NULL_BLOCK);
    WithoutAt(s, j);
    RemovedOk(c, h.lists, fl, sl, j);
    KeptSteps(h, b, 0, true, {b});
    KeptFree(h, h', b);
  }
}
