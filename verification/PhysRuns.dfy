/** Runs of the frame allocator by clients that free what they hold. */
module PhysRuns {
  import opened Arithmetic
  import opened PhysMem

  datatype Op = Take(count: nat) | Give(frame: nat, count: nat)

  /** An allocation held: its first frame and its length. */
  type Holding = (nat, nat)

  predicate Covers(p: Holding, k: int) {
    p.0 <= k < p.0 + p.1
  }

  ghost predicate Covered(live: set<Holding>, k: int) {
    exists p :: p in live && Covers(p, k)
  }

  /** Holdings are not empty, do not overlap and are made of frames that were free at first. */
  ghost predicate LiveOk(live: set<Holding>, bits0: seq<bool>, top: nat) {
    && top <= |bits0|
    && (forall p :: p in live ==> p.0 > 0 && p.1 > 0 && FreeRun(bits0[..top], p.0, p.1))
    && (forall p, q, k :: p in live && q in live && Covers(p, k) && Covers(q, k) ==> p == q)
  }

  /** The bitmap marks the frames unavailable at first and those held, and no others. */
  ghost predicate Exact(bits: seq<bool>, bits0: seq<bool>, live: set<Holding>) {
    |bits| == |bits0| && forall k :: 0 <= k < |bits| ==> (bits[k] <==> bits0[k] || Covered(live, k))
  }

  lemma TakeOk(bits: seq<bool>, bits0: seq<bool>, top: nat, live: set<Holding>, j: nat, count: nat)
    requires LiveOk(live, bits0, top) && Exact(bits, bits0, live) && j > 0 && count > 0
      && FreeRun(bits[..top], j, count)
    ensures LiveOk(live + {(j, count)}, bits0, top) && Exact(Marked(bits, j, count, true), bits0, live + {(j, count)})
  {
    var p, bits' := (j, count), Marked(bits, j, count, true);
    forall k | Covers(p, k) ensures !bits0[k] && !Covered(live, k) { assert !bits[..top][k]; }
    forall k | 0 <= k < |bits| ensures bits'[k] <==> bits0[k] || Covered(live + {p}, k) {
      if Covers(p, k) {
        assert p in live + {p};
      } else if Covered(live, k) {
        var q :| q in live && Covers(q, k);
        assert q in live + {p};
      }
    }
  }

  lemma GiveOk(bits: seq<bool>, bits0: seq<bool>, top: nat, live: set<Holding>, p: Holding)
    requires LiveOk(live, bits0, top) && Exact(bits, bits0, live) && p in live
    ensures p.0 + p.1 <= |bits| && FreeRun(bits0, p.0, p.1)
    ensures forall k :: Covers(p, k) ==> bits[k]
    ensures LiveOk(live - {p}, bits0, top) && Exact(Marked(bits, p.0, p.1, false), bits0, live - {p})
  {
    var bits' := Marked(bits, p.0, p.1, false);
    assert forall k :: Covers(p, k) ==> !bits0[..top][k];
    forall k | 0 <= k < |bits| ensures bits'[k] <==> bits0[k] || Covered(live - {p}, k) {
      if Covers(p, k) {
        assert !Covered(live - {p}, k);
      } else if Covered(live, k) {
        var q :| q in live && Covers(q, k);
        assert q in live - {p};
      }
    }
  }

  /**
   Any run, up to the first allocation that fails: holdings never overlap, the bitmap and the
   counters are exact, and a failure means that no run of that length is free anywhere.
   */
  method Replay(a: FrameAllocator, ops: seq<Op>) returns (live: set<Holding>, done: nat)
    requires a.Counted() && (a.top > 0 ==> a.bitmap[0])
    modifies a, a.bitmap
    ensures a.Counted() && a.total == old(a.total)
    ensures LiveOk(live, old(a.bitmap[..]), a.top) && Exact(a.bitmap[..], old(a.bitmap[..]), live)
    ensures done <= |ops|
    ensures done < |ops| ==>
      ops[done].Take? && (ops[done].count == 0 || forall k :: !FreeRun(a.bitmap[..][..a.top], k, ops[done].count))
  {
    ghost var bits0 := a.bitmap[..];
    live, done := {}, 0;
    while done < |ops|
      invariant done <= |ops| && a.Counted() && a.total == old(a.total)
      invariant LiveOk(live, bits0, a.top) && Exact(a.bitmap[..], bits0, live)
    {
      ghost var bits := a.bitmap[..];
      assert a.top > 0 ==> bits[0];
      match ops[done] {
        case Take(count) =>
          assert !TakesZero(bits, a.top, a.last, count);
          AllocateOk(bits, a.top, a.last, count);
          var ret := a.AllocFrame(count);
          if ret == 0 {
            return;
          }
          TakeOk(bits, bits0, a.top, live, ret / 4096, count);
          live := live + {(ret / 4096, count)};
        case Give(frame, count) =>
          if (frame, count) in live {
            GiveOk(bits, bits0, a.top, live, (frame, count));
            AlignUpFacts(frame * 4096, 4096);
            assert AlignUp(frame * 4096, 4096) / 4096 == frame;
            MarkedClear(bits, frame, count, false);
            a.FreeFrame(frame * 4096, count);
            live := live - {(frame, count)};
          }
      }
      done := done + 1;
    }
  }
}
