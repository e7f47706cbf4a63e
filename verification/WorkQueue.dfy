/**
 The work queue under a test-and-set mutex, as atomic steps of any number of threads in any
 order. Thread 0 is the worker, the others enqueue.
 */
module WorkQueue {
  import opened Tailq

  /** The address of a work item. Null is refused before anything else. */
  type Item = x: int | x > 0 witness 1

  datatype Pc =
    // producer
    | Idle
    | Enter(item: Item)             // mutex_acquire
    | Check(item: Item)             // the test against max_work
    | Insert(item: Item)            // TAILQ_INSERT_TAIL
    | Count(item: Item)             // ++nwork
    | Leave                         // mutex_release
    // worker
    | Await                         // mutex_acquire
    | Peek                          // TAILQ_FIRST
    | Work(item: Item)              // wp->func
    | Unlink(item: Item)            // TAILQ_REMOVE
    | Uncount                       // --nwork
    | Yield                         // mutex_release

  /**
   * `accepted` and `executed` record what has been inserted and what has been executed, and
   * `removed` counts removals.
   */
  datatype State = State(
    lock: bool, links: Queue, nwork: int, max: nat, panicked: bool, pcs: seq<Pc>,
    accepted: seq<Item>, executed: seq<Item>, removed: nat)

  /** Between acquiring and releasing the mutex. */
  predicate Critical(pc: Pc) {
    !pc.Idle? && !pc.Enter? && !pc.Await?
  }

  predicate WorkerPc(pc: Pc) {
    pc.Await? || pc.Peek? || pc.Work? || pc.Unlink? || pc.Uncount? || pc.Yield?
  }

  predicate Init(s: State) {
    && !s.lock && Empty(s.links) && s.nwork == 0 && !s.panicked
    && s.accepted == [] && s.executed == [] && s.removed == 0
    && |s.pcs| > 0 && s.pcs[0] == Await && forall t :: 0 < t < |s.pcs| ==> s.pcs[t] == Idle
  }

  /**
   * Thread `t` takes a step; a producer that is idle starts to enqueue `item`. A thread that finds
   * the mutex taken tries again, and after a panic nothing happens.
   */
  function Step(s: State, t: nat, item: Item): State
    requires t < |s.pcs|
  {
    if s.panicked then s else
    match s.pcs[t]
    case Idle => Go(s, t, Enter(item))
    case Enter(x) => if s.lock then s else Go(s.(lock := true), t, Check(x))
    case Check(x) => Go(s, t, if s.nwork >= s.max then Leave else Insert(x))
    case Insert(x) => Go(s.(links := InsertTail(s.links, x), accepted := s.accepted + [x]), t, Count(x))
    case Count(x) => Go(s.(nwork := s.nwork + 1), t, Leave)
    case Leave => Go(s.(lock := false), t, Idle)
    case Await => if s.lock then s else Go(s.(lock := true), t, Peek)
    case Peek => Go(s, t, if First(s.links) > 0 then Work(First(s.links)) else Yield)
    case Work(x) => Go(s.(executed := s.executed + [x]), t, Unlink(x))
    case Unlink(x) => Go(s.(links := Remove(s.links, x), removed := s.removed + 1), t, Uncount)
    case Uncount =>
      if s.nwork - 1 < 0 then s.(nwork := s.nwork - 1, panicked := true)
      else Go(s.(nwork := s.nwork - 1), t, Yield)
    case Yield => Go(s.(lock := false), t, Await)
  }

  function Go(s: State, t: nat, pc: Pc): State
    requires t < |s.pcs|
  {
    s.(pcs := s.pcs[t := pc])
  }

  /** A schedule: which thread takes the next step, and what a producer would enqueue. */
  type Schedule = seq<(nat, Item)>

  function Move(s: State, move: (nat, Item)): (s': State)
    ensures |s'.pcs| == |s.pcs|
  {
    if move.0 < |s.pcs| then Step(s, move.0, move.1) else s
  }

  function Run(s: State, schedule: Schedule): (s': State)
    ensures |s'.pcs| == |s.pcs|
  {
    if schedule == [] then s else Move(Run(s, schedule[..|schedule| - 1]), schedule[|schedule| - 1])
  }

  // ---------- mutual exclusion, under every schedule ----------

  ghost predicate Alone(s: State, t: int, u: int) {
    0 <= t < |s.pcs| && 0 <= u < |s.pcs| && Critical(s.pcs[t]) && Critical(s.pcs[u]) ==> t == u
  }

  /** At most one thread is between acquiring and releasing the mutex, and one is exactly if it is taken. */
  ghost predicate Locked(s: State) {
    && |s.pcs| > 0
    && (forall t :: 0 <= t < |s.pcs| ==> (WorkerPc(s.pcs[t]) <==> t == 0))
    && (forall t, u {:trigger Alone(s, t, u)} :: Alone(s, t, u))
    && (s.lock <==> exists t :: 0 <= t < |s.pcs| && Critical(s.pcs[t]))
  }

  /** What a step does to the mutex. */
  lemma StepLock(s: State, t: nat, item: Item)
    requires Locked(s) && t < |s.pcs|
    ensures var s' := Step(s, t, item);
      && (forall u :: 0 <= u < |s.pcs| && u != t ==> s'.pcs[u] == s.pcs[u]) && |s'.pcs| == |s.pcs|
      && (WorkerPc(s'.pcs[t]) <==> t == 0)
      && (Critical(s'.pcs[t]) ==> s'.lock && forall u :: 0 <= u < |s.pcs| && u != t ==> !Critical(s.pcs[u]))
      && (!Critical(s'.pcs[t]) ==> s'.lock == (s.lock && !Critical(s.pcs[t])))
  {
    forall u | 0 <= u < |s.pcs| && u != t && Critical(s.pcs[t]) ensures !Critical(s.pcs[u]) { assert Alone(s, t, u); }
  }

  lemma StepLocked(s: State, t: nat, item: Item)
    requires Locked(s) && t < |s.pcs|
    ensures Locked(Step(s, t, item))
  {
    var s' := Step(s, t, item);
    StepLock(s, t, item);
    forall u, v {:trigger Alone(s', u, v)} ensures Alone(s', u, v) { assert Alone(s, u, v); }
    if s.lock && !Critical(s.pcs[t]) {
      var u :| 0 <= u < |s.pcs| && Critical(s.pcs[u]);
      assert Critical(s'.pcs[u]);
    }
    if Critical(s.pcs[t]) && !Critical(s'.pcs[t]) {
      forall u | 0 <= u < |s.pcs| ensures !Critical(s'.pcs[u]) { assert Alone(s, t, u); }
    }
  }

  /** Mutual exclusion holds under every schedule, whatever is enqueued. */
  lemma {:induction false} RunLocked(s: State, schedule: Schedule)
    requires Locked(s)
    ensures Locked(Run(s, schedule))
  {
    if schedule != [] {
      var n := |schedule| - 1;
      RunLocked(s, schedule[..n]);
      var s1 := Run(s, schedule[..n]);
      if schedule[n].0 < |s1.pcs| { StepLocked(s1, schedule[n].0, schedule[n].1); }
    }
  }

  // ---------- the queue ----------

  /** What has been accepted and not yet removed; an item that is being executed is still among it. */
  function Pending(s: State): seq<Item> {
    if s.removed <= |s.accepted| then s.accepted[s.removed..] else []
  }

  /** The links are those of the items accepted and not yet removed. */
  ghost predicate Held(s: State) {
    s.removed <= |s.accepted| && Holds(s.links, Pending(s))
  }

  /** The thread is about to insert an item that is still in the queue. */
  predicate Reinserts(s: State, t: nat) {
    t < |s.pcs| && !s.panicked && s.pcs[t].Insert? && s.pcs[t].item in Pending(s)
  }

  /** Step `n` of the schedule inserts an item that is still in the queue. */
  ghost predicate ReinsertsAt(s: State, schedule: Schedule, n: int) {
    0 <= n < |schedule| && Reinserts(Run(s, schedule[..n]), schedule[n].0)
  }

  /** No step of the schedule does. */
  ghost predicate Proper(s: State, schedule: Schedule) {
    forall n {:trigger ReinsertsAt(s, schedule, n)} :: !ReinsertsAt(s, schedule, n)
  }

  /** The first `n` items accepted are those executed. */
  predicate Ran(s: State, n: nat) {
    n <= |s.accepted| && s.executed == s.accepted[..n]
  }

  /** What holds of counts and records while the holder of the mutex, if any, is at `pc`. */
  ghost predicate Data(s: State, pc: Pc) {
    var q := Pending(s);
    match pc
    case Insert(x) => Ran(s, s.removed) && s.nwork == |q| < s.max
    case Count(x) => Ran(s, s.removed) && q != [] && s.nwork == |q| - 1 < s.max
    case Work(x) => Ran(s, s.removed) && s.nwork == |q| <= s.max && q != [] && q[0] == x
    case Unlink(x) =>
      q != [] && q[0] == x && Ran(s, s.removed + 1) && s.nwork == |q| <= s.max
    case Uncount => Ran(s, s.removed) && s.nwork == |q| + 1 <= s.max
    case _ => Ran(s, s.removed) && s.nwork == |q| <= s.max
  }

  ghost predicate DataAt(s: State, t: int) {
    0 <= t < |s.pcs| && Critical(s.pcs[t]) ==> Data(s, s.pcs[t])
  }

  /** Mutual exclusion, the links, and the counts at the place of the holder. */
  ghost predicate Inv(s: State) {
    && Locked(s) && Held(s) && !s.panicked
    && (!s.lock ==> Data(s, Idle))
    && (forall t {:trigger DataAt(s, t)} :: DataAt(s, t))
  }

  lemma InitInv(s: State)
    requires Init(s)
    ensures Inv(s)
  {
  }

  /** Steps other than insertions and removals leave the queue alone. */
  predicate Touches(pc: Pc) {
    pc.Insert? || pc.Unlink?
  }

  lemma StepElsewhere(s: State, t: nat, item: Item)
    requires t < |s.pcs| && !Touches(s.pcs[t])
    ensures var s' := Step(s, t, item); s'.links == s.links && s'.accepted == s.accepted && s'.removed == s.removed
  {
  }

  /** The links after a step are right exactly if it does not insert an item that is still in the queue. */
  lemma StepHeld(s: State, t: nat, item: Item)
    requires Inv(s) && t < |s.pcs|
    ensures Held(Step(s, t, item)) <==> !Reinserts(s, t)
  {
    var s', q := Step(s, t, item), Pending(s);
    if s.pcs[t].Insert? {
      var x := s.pcs[t].item;
      assert Pending(s') == q + [x];
      InsertExact(s.links, q, x);
    } else if s.pcs[t].Unlink? {
      assert DataAt(s, t);
      assert q[..0] + q[1..] == q[1..] && Pending(s') == q[1..];
      RemoveHolds(s.links, q, 0);
    } else {
      StepElsewhere(s, t, item);
    }
  }

  /** The effect of one step on the counts, at the place of the thread that takes it. */
  lemma StepData(s: State, t: nat, item: Item)
    requires Inv(s) && t < |s.pcs|
    ensures var s' := Step(s, t, item);
      !s'.panicked && (Critical(s.pcs[t]) || Critical(s'.pcs[t]) ==> Data(s', s'.pcs[t]))
  {
    assert DataAt(s, t);
    if Touches(s.pcs[t]) {
      QueueData(s, t, item);
    } else {
      if s.pcs[t].Peek? { FirstIs(s.links, Pending(s)); }
      if s.pcs[t].Work? { assert s.accepted[..s.removed + 1] == s.accepted[..s.removed] + [s.pcs[t].item]; }
      OtherData(s, t, item);
    }
  }

  lemma QueueData(s: State, t: nat, item: Item)
    requires t < |s.pcs| && Touches(s.pcs[t]) && Data(s, s.pcs[t]) && !s.panicked && s.removed <= |s.accepted|
    ensures var s' := Step(s, t, item); !s'.panicked && Data(s', s'.pcs[t])
  {
    var s', q := Step(s, t, item), Pending(s);
    if s.pcs[t].Insert? {
      assert Pending(s') == q + [s.pcs[t].item] && s'.accepted[..s.removed] == s.accepted[..s.removed];
    } else {
      assert Pending(s') == q[1..];
    }
  }

  lemma OtherData(s: State, t: nat, item: Item)
    requires t < |s.pcs| && !Touches(s.pcs[t]) && !s.panicked && s.removed <= |s.accepted|
    requires if Critical(s.pcs[t]) then Data(s, s.pcs[t]) else !s.lock ==> Data(s, Idle)
    requires s.pcs[t].Peek? ==> First(s.links) == if Pending(s) == [] then 0 else Pending(s)[0]
    requires s.pcs[t].Work? ==> s.accepted[..s.removed] + [s.pcs[t].item] == s.accepted[..s.removed + 1]
    ensures var s' := Step(s, t, item);
      !s'.panicked && (Critical(s.pcs[t]) || Critical(s'.pcs[t]) ==> Data(s', s'.pcs[t]))
  {
    StepElsewhere(s, t, item);
  }

  /** One step keeps the invariant exactly if it does not insert an item that is still in the queue. */
  lemma StepInv(s: State, t: nat, item: Item)
    requires Inv(s) && t < |s.pcs|
    ensures Inv(Step(s, t, item)) <==> !Reinserts(s, t)
  {
    var s' := Step(s, t, item);
    StepHeld(s, t, item);
    StepData(s, t, item);
    StepLocked(s, t, item);
    StepOthers(s, t, item);
  }

  lemma StepOthers(s: State, t: nat, item: Item)
    requires Inv(s) && t < |s.pcs|
    ensures var s' := Step(s, t, item);
      (!s'.lock ==> Data(s', Idle)) && forall u {:trigger DataAt(s', u)} :: DataAt(s', u)
  {
    var s' := Step(s, t, item);
    StepData(s, t, item);
    StepLock(s, t, item);
    if !Critical(s.pcs[t]) && !Critical(s'.pcs[t]) { StepAway(s, t, item); }
    forall u {:trigger DataAt(s', u)} ensures DataAt(s', u) { assert DataAt(s, u); }
  }

  /** A thread that neither holds nor gets the mutex changes nothing but its own place. */
  lemma StepAway(s: State, t: nat, item: Item)
    requires t < |s.pcs| && !Critical(s.pcs[t]) && !Critical(Step(s, t, item).pcs[t])
    ensures var s' := Step(s, t, item); s' == s.(pcs := s'.pcs)
  {
  }

  lemma PrefixAt(s: State, schedule: Schedule, m: nat, n: int)
    requires m <= |schedule|
    ensures ReinsertsAt(s, schedule[..m], n) <==> ReinsertsAt(s, schedule, n) && n < m
  {
    if 0 <= n < m { assert schedule[..m][..n] == schedule[..n]; }
  }

  lemma ProperPrefix(s: State, schedule: Schedule, m: nat)
    requires m <= |schedule|
    ensures Proper(s, schedule) ==> Proper(s, schedule[..m])
  {
    if Proper(s, schedule) {
      forall n {:trigger ReinsertsAt(s, schedule[..m], n)} ensures !ReinsertsAt(s, schedule[..m], n) {
        PrefixAt(s, schedule, m, n);
      }
    }
  }

  /** A schedule that never inserts an item that is still in the queue keeps the invariant. */
  lemma {:induction false} RunInv(s: State, schedule: Schedule)
    requires Inv(s) && Proper(s, schedule)
    ensures Inv(Run(s, schedule))
  {
    if schedule != [] {
      var n := |schedule| - 1;
      ProperPrefix(s, schedule, n);
      RunInv(s, schedule[..n]);
      assert !ReinsertsAt(s, schedule, n);
      MoveInv(Run(s, schedule[..n]), schedule[n]);
    }
  }

  lemma MoveInv(s: State, move: (nat, Item))
    requires Inv(s) && !Reinserts(s, move.0)
    ensures Inv(Move(s, move))
  {
    if move.0 < |s.pcs| { StepInv(s, move.0, move.1); }
  }

  lemma RunPrefix(s: State, schedule: Schedule, n: nat)
    requires n < |schedule|
    ensures Run(s, schedule[..n + 1]) == Move(Run(s, schedule[..n]), schedule[n])
  {
    assert schedule[..n + 1][..n] == schedule[..n];
  }

  /** After `n` steps the links hold what has been accepted and not removed. */
  ghost predicate HeldAt(s: State, schedule: Schedule, n: int) {
    0 <= n <= |schedule| ==> Held(Run(s, schedule[..n]))
  }

  /**
   * The links hold what has been accepted and not removed at every point of a run exactly if no
   * step inserts an item that is still in the queue.
   */
  lemma RunExact(s: State, schedule: Schedule)
    requires Inv(s)
    ensures Proper(s, schedule) <==> forall n {:trigger HeldAt(s, schedule, n)} :: HeldAt(s, schedule, n)
  {
    if Proper(s, schedule) {
      forall n {:trigger HeldAt(s, schedule, n)} ensures HeldAt(s, schedule, n) {
        if 0 <= n <= |schedule| {
          ProperPrefix(s, schedule, n);
          RunInv(s, schedule[..n]);
        }
      }
    } else {
      assert schedule[..|schedule|] == schedule;
      var n := FirstImproper(s, schedule, |schedule|);
      Lost(s, schedule, n);
    }
  }

  /** The first insertion of an item that is still in the queue ends that. */
  lemma Lost(s: State, schedule: Schedule, n: nat)
    requires Inv(s) && n < |schedule| && Proper(s, schedule[..n]) && ReinsertsAt(s, schedule, n)
    ensures !HeldAt(s, schedule, n + 1)
  {
    RunInv(s, schedule[..n]);
    RunPrefix(s, schedule, n);
    StepHeld(Run(s, schedule[..n]), schedule[n].0, schedule[n].1);
  }

  lemma {:induction false} FirstImproper(s: State, schedule: Schedule, m: nat) returns (n: nat)
    requires m <= |schedule| && !Proper(s, schedule[..m])
    ensures n < m && Proper(s, schedule[..n]) && ReinsertsAt(s, schedule, n)
    decreases m
  {
    var k :| ReinsertsAt(s, schedule[..m], k);
    PrefixAt(s, schedule, m, k);
    if Proper(s, schedule[..k]) { n := k; } else { n := FirstImproper(s, schedule, k); }
  }

  /**
   Under every schedule at most one thread is between acquiring and releasing the mutex. If no
   item is enqueued while it is still in the queue then items are executed in the order they were
   accepted, each once; the queue never holds more than the maximum; the worker never panics; and
   whenever the mutex is free what was executed and what is queued is what was accepted.
   */
  lemma Safe(s: State, schedule: Schedule)
    requires Init(s)
    ensures var s' := Run(s, schedule);
      && (forall t, u {:trigger Alone(s', t, u)} :: Alone(s', t, u))
      && (Proper(s, schedule) ==>
            && s'.executed <= s'.accepted && |Pending(s')| <= s'.max && 0 <= s'.nwork <= s'.max && !s'.panicked
            && Held(s') && (!s'.lock ==> s'.executed + Pending(s') == s'.accepted && s'.nwork == |Pending(s')|))
  {
    InitInv(s);
    RunLocked(s, schedule);
    if Proper(s, schedule) {
      RunInv(s, schedule);
      InvSafe(Run(s, schedule));
    }
  }

  lemma InvSafe(s: State)
    requires Inv(s)
    ensures s.executed <= s.accepted && |Pending(s)| <= s.max && 0 <= s.nwork <= s.max
    ensures !s.lock ==> s.executed + Pending(s) == s.accepted && s.nwork == |Pending(s)|
  {
    if s.lock {
      var t :| 0 <= t < |s.pcs| && Critical(s.pcs[t]);
      assert DataAt(s, t);
    }
  }

  /** Nothing accepted or executed is ever taken back. */
  lemma {:induction false} Grows(s: State, schedule: Schedule)
    ensures var s' := Run(s, schedule); s.accepted <= s'.accepted && s.executed <= s'.executed && s'.max == s.max
  {
    if schedule != [] {
      var n := |schedule| - 1;
      Grows(s, schedule[..n]);
      MoveGrows(Run(s, schedule[..n]), schedule[n]);
    }
  }

  lemma MoveGrows(s: State, move: (nat, Item))
    ensures var s' := Move(s, move); s.accepted <= s'.accepted && s.executed <= s'.executed && s'.max == s.max
  {
  }

  // ---------- an item enqueued twice ----------

  lemma {:induction false} RunConcat(s: State, a: Schedule, b: Schedule)
    ensures Run(s, a + b) == Run(Run(s, a), b)
  {
    if b == [] {
      assert a + b == a;
    } else {
      var n := |b| - 1;
      RunConcat(s, a, b[..n]);
      assert (a + b)[..|a + b| - 1] == a + b[..n];
    }
  }

  lemma RunOne(s: State, move: (nat, Item))
    ensures Run(s, [move]) == Move(s, move)
  {
    var one: Schedule := [move];
    assert one[..0] == [];
  }

  /** The same move three times, and six times. */
  function Three(s: State, move: (nat, Item)): State {
    Move(Move(Move(s, move), move), move)
  }

  function Six(move: (nat, Item)): Schedule {
    [move] + [move] + [move] + ([move] + [move] + [move])
  }

  lemma RunThree(s: State, move: (nat, Item))
    ensures Run(s, [move] + [move] + [move]) == Three(s, move)
  {
    RunConcat(s, [move] + [move], [move]);
    RunConcat(s, [move], [move]);
    RunOne(s, move);
    RunOne(Move(s, move), move);
    RunOne(Move(Move(s, move), move), move);
  }

  lemma RunSix(s: State, move: (nat, Item), s1: State, s2: State)
    requires Three(s, move) == s1 && Three(s1, move) == s2
    ensures Run(s, Six(move)) == s2
  {
    RunConcat(s, [move] + [move] + [move], [move] + [move] + [move]);
    RunThree(s, move);
    RunThree(s1, move);
  }

  /** A producer takes the mutex and passes the test. */
  lemma Entered(s: State, t: nat, x: Item)
    requires t < |s.pcs| && s.pcs[t] == Idle && !s.lock && !s.panicked && s.nwork < s.max
    ensures Three(s, (t, x)) == Go(s.(lock := true), t, Insert(x))
  {
    assert Three(s, (t, x)).pcs == s.pcs[t := Insert(x)];
  }

  /** It inserts its item, counts it and gives up the mutex. */
  lemma Inserted(s: State, t: nat, x: Item)
    requires t < |s.pcs| && !s.panicked && s.pcs[t] == Insert(x)
    ensures Three(s, (t, x)) == Enlisted(Go(s.(lock := false), t, Idle), x)
  {
    assert Three(s, (t, x)).pcs == s.pcs[t := Idle];
  }

  function Enlisted(s: State, x: Item): State {
    s.(links := InsertTail(s.links, x), nwork := s.nwork + 1, accepted := s.accepted + [x])
  }

  /** A producer enqueues an item without interruption. */
  lemma Enqueued(s: State, t: nat, x: Item)
    requires t < |s.pcs| && s.pcs[t] == Idle && !s.lock && !s.panicked && s.nwork < s.max
    ensures Run(s, Six((t, x))) == Enlisted(s, x)
  {
    var s1 := Go(s.(lock := true), t, Insert(x));
    Entered(s, t, x);
    Inserted(s1, t, x);
    RunSix(s, (t, x), s1, Enlisted(Go(s1.(lock := false), t, Idle), x));
    assert s.pcs[t := Insert(x)][t := Idle] == s.pcs;
  }

  /** The worker takes the mutex and executes the first item. */
  lemma Worked(s: State, x: Item)
    requires |s.pcs| > 0 && s.pcs[0] == Await && !s.lock && !s.panicked && First(s.links) == x
    ensures Three(s, (0, x)) == Go(s.(executed := s.executed + [x], lock := true), 0, Unlink(x))
  {
    assert Three(s, (0, x)).pcs == s.pcs[0 := Unlink(x)];
  }

  function Delisted(s: State, x: Item): State {
    s.(links := Remove(s.links, x), removed := s.removed + 1, nwork := s.nwork - 1)
  }

  /** It takes the item out, counts it off and gives up the mutex, or panics. */
  lemma Unlinked(s: State, x: Item)
    requires |s.pcs| > 0 && s.pcs[0] == Unlink(x) && !s.panicked
    ensures Three(s, (0, x))
         == if s.nwork > 0 then Delisted(Go(s.(lock := false), 0, Await), x)
           else Delisted(Go(s.(panicked := true), 0, Uncount), x)
  {
    assert Three(s, (0, x)).pcs == s.pcs[0 := if s.nwork > 0 then Await else Uncount];
  }

  lemma Rounded(s: State, x: Item)
    requires |s.pcs| > 0 && s.pcs[0] == Await && !s.lock
    ensures var s1 := Go(s.(executed := s.executed + [x], lock := true), 0, Unlink(x));
      Delisted(Go(s1.(lock := false), 0, Await), x) == Delisted(s, x).(executed := s.executed + [x])
  {
    assert s.pcs[0 := Unlink(x)][0 := Await] == s.pcs;
  }

  lemma ServedIn(s: State, x: Item, s1: State, s2: State)
    requires |s.pcs| > 0 && s.pcs[0] == Await && !s.lock && !s.panicked && First(s.links) == x && s.nwork > 0
    requires s1 == Go(s.(executed := s.executed + [x], lock := true), 0, Unlink(x))
    requires s2 == Delisted(Go(s1.(lock := false), 0, Await), x)
    ensures Run(s, Six((0, x))) == s2
  {
    Worked(s, x);
    Unlinked(s1, x);
    RunSix(s, (0, x), s1, s2);
  }

  /** A round of the worker without interruption. */
  lemma Served(s: State, x: Item)
    requires |s.pcs| > 0 && s.pcs[0] == Await && !s.lock && !s.panicked && First(s.links) == x && s.nwork > 0
    ensures Run(s, Six((0, x))) == Delisted(s, x).(executed := s.executed + [x])
  {
    var s1 := Go(s.(executed := s.executed + [x], lock := true), 0, Unlink(x));
    ServedIn(s, x, s1, Delisted(Go(s1.(lock := false), 0, Await), x));
    Rounded(s, x);
  }

  /** With the count at zero it panics. */
  lemma Underflows(s: State, x: Item)
    requires |s.pcs| > 0 && s.pcs[0] == Await && !s.lock && !s.panicked && First(s.links) == x && s.nwork == 0
    ensures var s' := Run(s, Six((0, x)));
      s'.panicked && s'.nwork == -1 && s'.executed == s.executed + [x] && s'.accepted == s.accepted
  {
    var s1 := Go(s.(executed := s.executed + [x], lock := true), 0, Unlink(x));
    Worked(s, x);
    Unlinked(s1, x);
    RunSix(s, (0, x), s1, Delisted(Go(s1.(panicked := true), 0, Uncount), x));
  }

  /** Two producers enqueue the same item, and then the worker has three rounds. */
  function Twice(x: Item): Schedule {
    Six((1, x)) + Six((2, x)) + Six((0, x)) + Six((0, x)) + Six((0, x))
  }

  /** After the second insertion the item leads to itself, and no removal changes that. */
  lemma TwiceLinks(l: Queue, x: Item)
    requires Empty(l)
    ensures var l' := InsertTail(InsertTail(l, x), x);
      First(l') == x && First(Remove(l', x)) == x && First(Remove(Remove(l', x), x)) == x
  {
  }

  lemma BothEnqueued(s: State, x: Item)
    requires |s.pcs| >= 3 && s.pcs[1] == s.pcs[2] == Idle && !s.lock && !s.panicked && s.nwork + 1 < s.max
    ensures Run(s, Six((1, x)) + Six((2, x))) == Enlisted(Enlisted(s, x), x)
  {
    RunConcat(s, Six((1, x)), Six((2, x)));
    Enqueued(s, 1, x);
    Enqueued(Enlisted(s, x), 2, x);
  }

  lemma ThreeRounds(s: State, x: Item)
    requires |s.pcs| > 0 && s.pcs[0] == Await && !s.lock && !s.panicked && s.nwork == 2
    requires First(s.links) == First(Remove(s.links, x)) == First(Remove(Remove(s.links, x), x)) == x
    ensures var s' := Run(Run(Run(s, Six((0, x))), Six((0, x))), Six((0, x)));
      s'.accepted == s.accepted && s'.executed == s.executed + [x] + [x] + [x] && s'.nwork == -1 && s'.panicked
  {
    Served(s, x);
    var s1 := Delisted(s, x).(executed := s.executed + [x]);
    Served(s1, x);
    Underflows(Delisted(s1, x).(executed := s1.executed + [x]), x);
  }

  lemma RunTwice(s: State, x: Item)
    ensures Run(s, Twice(x)) == Run(Run(Run(Run(s, Six((1, x)) + Six((2, x))), Six((0, x))), Six((0, x))), Six((0, x)))
  {
    var both, round := Six((1, x)) + Six((2, x)), Six((0, x));
    RunConcat(s, both + round + round, round);
    RunConcat(s, both + round, round);
    RunConcat(s, both, round);
  }

  /** The state after three rounds, from that after both insertions. */
  lemma TwiceServed(s: State, s2: State, x: Item)
    requires Init(s) && s.max >= 2 && s2 == Enlisted(Enlisted(s, x), x)
    ensures var s' := Run(Run(Run(s2, Six((0, x))), Six((0, x))), Six((0, x)));
      s'.accepted == [x, x] && s'.executed == [x, x, x] && s'.nwork == -1 && s'.panicked
  {
    TwiceLinks(s.links, x);
    ThreeRounds(s2, x);
  }

  lemma PanicImproper(s: State, schedule: Schedule)
    requires Init(s) && Run(s, schedule).panicked
    ensures !Proper(s, schedule)
  {
    if Proper(s, schedule) { Safe(s, schedule); }
  }

  /** The item, accepted twice, is executed three times; the count goes below zero, and the worker panics. */
  lemma TwiceInput(s: State, x: Item)
    requires Init(s) && |s.pcs| >= 3 && s.max >= 2
    ensures var s' := Run(s, Twice(x));
      s'.accepted == [x, x] && s'.executed == [x, x, x] && s'.nwork == -1 && s'.panicked
    ensures !Proper(s, Twice(x))
  {
    BothEnqueued(s, x);
    RunTwice(s, x);
    TwiceServed(s, Enlisted(Enlisted(s, x), x), x);
    PanicImproper(s, Twice(x));
  }
}
