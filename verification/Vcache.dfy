/** The vnode cache, global or per process, and the life of vnodes around it. */
module Vcache {
  /** `size` is -1 as long as the queue is not set up. */
  datatype Cache = Cache(size: int, q: seq<int>)

  datatype Mode = None | Proc | Global

  /** The key of the global cache; processes have their numbers. */
  const GLOBAL: int := -1

  /** Reference counts of the vnodes that exist, by address, and the caches that exist. */
  datatype State = State(mode: Mode, refs: map<int, nat>, caches: map<int, Cache>)

  const NEW_CACHE := Cache(-1, [])

  // ---------- one cache ----------

  ghost predicate CacheOk(c: Cache) {
    (c.size == -1 && c.q == []) || (c.size == |c.q| <= 64)
  }

  /** `vcache_pull`: the head, or 0. */
  function Pull(c: Cache): (Cache, int) {
    if c.size <= 0 || c.q == [] then (c, 0) else (Cache(c.size - 1, c.q[1..]), c.q[0])
  }

  /** `vcache_add`: the vnode goes to the tail; if the cache is full the old tail is evicted. */
  function Add(c: Cache, v: int): (Cache, int) {
    if c.size < 0 then (Cache(1, [v]), 0)
    else if c.size == 64 && c.q != [] then (Cache(64, c.q[..|c.q| - 1] + [v]), c.q[|c.q| - 1])
    else (Cache(c.size + 1, c.q + [v]), 0)
  }

  // ---------- the invariant ----------

  ghost predicate InCache(s: State, k: int, i: int) {
    k in s.caches && 0 <= i < |s.caches[k].q|
  }

  /** A cached vnode exists and has no references. */
  ghost predicate Idle(s: State, k: int, i: int) {
    InCache(s, k, i) ==> var v := s.caches[k].q[i]; v > 0 && v in s.refs && s.refs[v] == 0
  }

  /** A vnode is in one place at most. */
  ghost predicate OnePlace(s: State, k: int, i: int, l: int, j: int) {
    InCache(s, k, i) && InCache(s, l, j) && s.caches[k].q[i] == s.caches[l].q[j] ==> k == l && i == j
  }

  ghost predicate Inv(s: State) {
    && GLOBAL in s.caches && (forall v :: v in s.refs ==> v > 0)
    && (forall k :: k in s.caches ==> CacheOk(s.caches[k]))
    && (forall k, i {:trigger Idle(s, k, i)} :: Idle(s, k, i))
    && (forall k, i, l, j {:trigger OnePlace(s, k, i, l, j)} :: OnePlace(s, k, i, l, j))
  }

  // ---------- operations ----------

  /** A vnode without references goes to the cache of the mode, if any; `room` says whether a new cache can be made. */
  function Enter(s: State, pid: nat, v: int, room: bool): State {
    match s.mode
    case None => s
    case Proc =>
      if pid !in s.caches && !room then s
      else Put(s, pid, v)
    case Global => Put(s, GLOBAL, v)
  }

  function Put(s: State, k: int, v: int): State {
    var (c, out) := Add(if k in s.caches then s.caches[k] else NEW_CACHE, v);
    s.(caches := s.caches[k := c], refs := if out == 0 then s.refs else s.refs - {out})
  }

  function Take(s: State, k: int): (State, int) {
    if k !in s.caches then (s, 0)
    else
      var (c, v) := Pull(s.caches[k]);
      (s.(caches := s.caches[k := c]), v)
  }

  /** `vfs_recycle_vnode`: while caches of the other kind have entries these are used up first. */
  function Recycle(s: State, pid: nat, room: bool): (State, int) {
    match s.mode
    case None => (s, 0)
    case Proc =>
      if pid !in s.caches then (if room then s.(caches := s.caches[pid := NEW_CACHE]) else s, 0)
      else if GLOBAL in s.caches && s.caches[GLOBAL].q != [] then Take(s, GLOBAL)
      else Take(s, pid)
    case Global =>
      var s1 := if pid in s.caches && s.caches[pid].q == [] then s.(caches := s.caches - {pid}) else s;
      if pid in s1.caches then Take(s1, pid) else Take(s1, GLOBAL)
  }

  /** `vfs_alloc_vnode`; `got` is what the allocator would return, 0 if it fails. */
  function Alloc(s: State, pid: nat, room: bool, got: int): (State, int) {
    var (s1, v) := Recycle(s, pid, room);
    var w := if v != 0 then v else got;
    if w == 0 then (s1, 0) else (s1.(refs := s1.refs[w := 1]), w)
  }

  /** `vfs_release_vnode`; `reclaimed` is the status of the file system's own reclaim. */
  function Release(s: State, pid: nat, v: int, reclaimed: bool, room: bool): State {
    if v !in s.refs || s.refs[v] == 0 then s
    else
      var s1 := s.(refs := s.refs[v := s.refs[v] - 1]);
      if s.refs[v] > 1 || !reclaimed then s1 else Enter(s1, pid, v, room)
  }

  // ---------- preservation ----------

  lemma PullOk(c: Cache)
    requires CacheOk(c)
    ensures var (c', v) := Pull(c);
      CacheOk(c') && (v == 0 || (c.q != [] && v == c.q[0])) && c'.q == (if c.q == [] then [] else c.q[1..])
  {
  }

  lemma AddOk(c: Cache, v: int)
    requires CacheOk(c)
    ensures var (c', out) := Add(c, v);
      && CacheOk(c') && c'.q != [] && c'.q[|c'.q| - 1] == v
      && c'.q[..|c'.q| - 1] == (if |c.q| == 64 then c.q[..63] else c.q)
      && out == (if |c.q| == 64 then c.q[63] else 0)
  {
  }

  lemma TakeInv(s: State, k: int)
    requires Inv(s) && k in s.caches
    ensures var (s', v) := Take(s, k);
      && Inv(s') && s'.refs == s.refs && s'.mode == s.mode
      && (v != 0 ==> v > 0 && v in s.refs && s.refs[v] == 0 && Uncached(s', v))
  {
    var (s', v) := Take(s, k);
    PullOk(s.caches[k]);
    var d := if s.caches[k].q == [] then 0 else 1;
    assert s'.caches[k].q == s.caches[k].q[d..];
    forall l, i {:trigger Idle(s', l, i)} ensures Idle(s', l, i) {
      assert Idle(s, l, if l == k then i + d else i);
    }
    forall l, i, m, j {:trigger OnePlace(s', l, i, m, j)} ensures OnePlace(s', l, i, m, j) {
      assert OnePlace(s, l, if l == k then i + d else i, m, if m == k then j + d else j);
    }
    if v != 0 {
      assert Idle(s, k, 0);
      forall l, i {:trigger NotAt(s', l, i, v)} ensures NotAt(s', l, i, v) {
        assert OnePlace(s, k, 0, l, if l == k then i + d else i);
      }
    }
  }

  ghost predicate NotAt(s: State, k: int, i: int, v: int) {
    InCache(s, k, i) ==> s.caches[k].q[i] != v
  }

  ghost predicate Uncached(s: State, v: int) {
    forall k, i {:trigger NotAt(s, k, i, v)} :: NotAt(s, k, i, v)
  }

  /** After the addition to a cache: each entry was there before, at the same place, or is the new one. */
  lemma Added(c: Cache, v: int, x: int)
    requires CacheOk(c)
    ensures var (c', out) := Add(c, v);
      0 <= x < |c'.q| ==> (x == |c'.q| - 1 && c'.q[x] == v) || (x < |c.q| && x < 63 && c'.q[x] == c.q[x])
  {
    AddOk(c, v);
    var (c', out) := Add(c, v);
    if 0 <= x < |c'.q| - 1 { assert c'.q[x] == c'.q[..|c'.q| - 1][x]; }
  }

  lemma PutIdle(s: State, k: int, v: int, l: int, i: int)
    requires Inv(s) && v > 0 && v in s.refs && s.refs[v] == 0 && Uncached(s, v)
    ensures Idle(Put(s, k, v), l, i)
  {
    var c := if k in s.caches then s.caches[k] else NEW_CACHE;
    AddOk(c, v);
    Added(c, v, i);
    assert NotAt(s, k, 63, v) && Idle(s, k, 63);
    assert Idle(s, l, i) && OnePlace(s, l, i, k, 63);
  }

  lemma PutOnePlace(s: State, k: int, v: int, l: int, i: int, m: int, j: int)
    requires Inv(s) && Uncached(s, v)
    ensures OnePlace(Put(s, k, v), l, i, m, j)
  {
    var c := if k in s.caches then s.caches[k] else NEW_CACHE;
    AddOk(c, v);
    Added(c, v, i);
    Added(c, v, j);
    assert OnePlace(s, l, i, m, j) && NotAt(s, l, i, v) && NotAt(s, m, j, v);
  }

  lemma PutInv(s: State, k: int, v: int)
    requires Inv(s) && v > 0 && v in s.refs && s.refs[v] == 0 && Uncached(s, v)
    ensures Inv(Put(s, k, v))
  {
    var s' := Put(s, k, v);
    AddOk(if k in s.caches then s.caches[k] else NEW_CACHE, v);
    forall l, i {:trigger Idle(s', l, i)} ensures Idle(s', l, i) { PutIdle(s, k, v, l, i); }
    forall l, i, m, j {:trigger OnePlace(s', l, i, m, j)} ensures OnePlace(s', l, i, m, j) {
      PutOnePlace(s, k, v, l, i, m, j);
    }
  }

  /** Reference counts of vnodes outside the caches, and caches without entries, do not matter. */
  lemma SameInv(s: State, s': State)
    requires Inv(s) && GLOBAL in s'.caches && (forall k :: k in s'.caches ==> CacheOk(s'.caches[k]))
    requires forall v :: v in s'.refs ==> v > 0
    requires forall k :: k in s'.caches && s'.caches[k].q != [] ==> k in s.caches && s.caches[k] == s'.caches[k]
    requires forall k, i {:trigger InCache(s, k, i)} :: InCache(s, k, i) ==>
      var v := s.caches[k].q[i]; v in s.refs && v in s'.refs && s'.refs[v] == s.refs[v]
    ensures Inv(s')
  {
    forall k, i {:trigger Idle(s', k, i)}
      ensures Idle(s', k, i) { assert Idle(s, k, i) && (InCache(s', k, i) ==> InCache(s, k, i)); }
    forall k, i, l, j {:trigger OnePlace(s', k, i, l, j)}
      ensures OnePlace(s', k, i, l, j) { assert OnePlace(s, k, i, l, j); }
  }

  /** A vnode with references is in no cache. */
  lemma ReferencedUncached(s: State, v: int)
    requires Inv(s) && (v in s.refs ==> s.refs[v] > 0)
    ensures Uncached(s, v)
  {
    forall k, i {:trigger NotAt(s, k, i, v)} ensures NotAt(s, k, i, v) { assert Idle(s, k, i); }
  }

  /** A vnode in no cache may get any reference count. */
  lemma CountInv(s: State, v: int, n: nat)
    requires Inv(s) && Uncached(s, v) && v > 0
    ensures Inv(s.(refs := s.refs[v := n])) && Uncached(s.(refs := s.refs[v := n]), v)
  {
    var s' := s.(refs := s.refs[v := n]);
    forall k, i | InCache(s, k, i)
      ensures var w := s.caches[k].q[i]; w in s.refs && w in s'.refs && s'.refs[w] == s.refs[w]
    {
      assert Idle(s, k, i) && NotAt(s, k, i, v);
    }
    SameInv(s, s');
    forall k, i {:trigger NotAt(s', k, i, v)} ensures NotAt(s', k, i, v) { assert NotAt(s, k, i, v); }
  }

  /** A reference count other than zero is right exactly for a vnode in no cache. */
  lemma ReferenceExact(s: State, v: int, n: nat)
    requires Inv(s) && v in s.refs && n > 0
    ensures Inv(s.(refs := s.refs[v := n])) <==> Uncached(s, v)
  {
    var s' := s.(refs := s.refs[v := n]);
    if Uncached(s, v) {
      CountInv(s, v, n);
    } else {
      var k, i :| !NotAt(s, k, i, v);
      assert !Idle(s', k, i);
    }
  }

  /** One vnode, cached in the global cache: a reference to it breaks the invariant. */
  lemma ReferenceInput()
    ensures var s := State(Global, map[1 := 0], map[GLOBAL := Cache(1, [1])]);
      Inv(s) && !Inv(s.(refs := s.refs[1 := 1]))
  {
    var s := State(Global, map[1 := 0], map[GLOBAL := Cache(1, [1])]);
    forall k, i {:trigger Idle(s, k, i)} ensures Idle(s, k, i) { }
    forall k, i, l, j {:trigger OnePlace(s, k, i, l, j)} ensures OnePlace(s, k, i, l, j) { }
    assert !NotAt(s, GLOBAL, 0, 1);
    ReferenceExact(s, 1, 1);
  }

  lemma CachesInv(s: State, s': State)
    requires Inv(s) && s'.refs == s.refs && GLOBAL in s'.caches
      && (forall k :: k in s'.caches ==> CacheOk(s'.caches[k]))
    requires forall k :: k in s'.caches && s'.caches[k].q != [] ==> k in s.caches && s.caches[k] == s'.caches[k]
    ensures Inv(s')
  {
    forall k, i | InCache(s, k, i) ensures s.caches[k].q[i] in s.refs { assert Idle(s, k, i); }
    SameInv(s, s');
  }

  lemma RecycleInv(s: State, pid: nat, room: bool)
    requires Inv(s)
    ensures var (s', v) := Recycle(s, pid, room);
      && Inv(s') && s'.refs == s.refs && s'.mode == s.mode
      && (v != 0 ==> v > 0 && v in s.refs && s.refs[v] == 0 && Uncached(s', v))
  {
    match s.mode
    case None =>
    case Proc =>
      if pid !in s.caches {
        if room { CachesInv(s, s.(caches := s.caches[pid := NEW_CACHE])); }
      } else if s.caches[GLOBAL].q != [] {
        TakeInv(s, GLOBAL);
      } else {
        TakeInv(s, pid);
      }
    case Global =>
      var s1 := if pid in s.caches && s.caches[pid].q == [] then s.(caches := s.caches - {pid}) else s;
      CachesInv(s, s1);
      TakeInv(s1, if pid in s1.caches then pid else GLOBAL);
  }

  /** A vnode is handed out with one reference, not a referenced one again, and no other count changes. */
  lemma AllocInv(s: State, pid: nat, room: bool, got: int)
    requires Inv(s) && (got == 0 || (got > 0 && got !in s.refs))
    ensures var (s', v) := Alloc(s, pid, room, got);
      && Inv(s') && s'.mode == s.mode
      && (v == 0 ==> s'.refs == s.refs)
      && (v != 0 ==> v > 0 && (v in s.refs ==> s.refs[v] == 0) && s'.refs == s.refs[v := 1] && Uncached(s', v))
  {
    RecycleInv(s, pid, room);
    var (s1, v) := Recycle(s, pid, room);
    var w := if v != 0 then v else got;
    if w != 0 {
      if v == 0 { ReferencedUncached(s1, got); }
      CountInv(s1, w, 1);
    }
  }

  lemma ReleaseInv(s: State, pid: nat, v: int, reclaimed: bool, room: bool)
    requires Inv(s)
    ensures Inv(Release(s, pid, v, reclaimed, room)) && Release(s, pid, v, reclaimed, room).mode == s.mode
  {
    if v in s.refs && s.refs[v] > 0 {
      ReferencedUncached(s, v);
      CountInv(s, v, s.refs[v] - 1);
      var s1 := s.(refs := s.refs[v := s.refs[v] - 1]);
      if s.refs[v] == 1 && reclaimed {
        PutInv(s1, pid, v);
        PutInv(s1, GLOBAL, v);
      }
    }
  }

  // ---------- lazy migration ----------

  /** Caches of the kind that the mode does not use. */
  predicate Leftover(mode: Mode, k: int) {
    match mode
    case None => true
    case Proc => k == GLOBAL
    case Global => k != GLOBAL
  }

  ghost predicate ShrinksAt(s: State, s': State, k: int) {
    Leftover(s.mode, k) && k in s'.caches ==>
      && k in s.caches && |s'.caches[k].q| <= |s.caches[k].q|
      && s'.caches[k].q == s.caches[k].q[|s.caches[k].q| - |s'.caches[k].q|..]
  }

  /** Leftover caches only lose entries, from the head, or disappear. */
  ghost predicate Shrinks(s: State, s': State) {
    s'.mode == s.mode && forall k {:trigger ShrinksAt(s, s', k)} :: ShrinksAt(s, s', k)
  }

  lemma ShrinksTrans(s: State, s1: State, s2: State)
    requires Shrinks(s, s1) && Shrinks(s1, s2)
    ensures Shrinks(s, s2)
  {
    forall k {:trigger ShrinksAt(s, s2, k)} ensures ShrinksAt(s, s2, k) {
      assert ShrinksAt(s, s1, k) && ShrinksAt(s1, s2, k);
      if Leftover(s.mode, k) && k in s2.caches {
        var q, q1, q2 := s.caches[k].q, s1.caches[k].q, s2.caches[k].q;
        assert q[|q| - |q1|..][|q1| - |q2|..] == q[|q| - |q2|..];
      }
    }
  }

  /** Taking away a cache, or changing one of the kind in use. */
  lemma SameShrinks(s: State, s': State)
    requires s'.mode == s.mode
    requires forall k :: k in s'.caches && Leftover(s.mode, k) ==> k in s.caches && s'.caches[k] == s.caches[k]
    ensures Shrinks(s, s')
  {
    forall k {:trigger ShrinksAt(s, s', k)} ensures ShrinksAt(s, s', k) { }
  }

  lemma TakeShrinks(s: State, k: int)
    ensures Shrinks(s, Take(s, k).0)
  {
    var s' := Take(s, k).0;
    forall l {:trigger ShrinksAt(s, s', l)} ensures ShrinksAt(s, s', l) { }
  }

  lemma RecycleShrinks(s: State, pid: nat, room: bool)
    ensures Shrinks(s, Recycle(s, pid, room).0)
  {
    match s.mode
    case None =>
      SameShrinks(s, s);
    case Proc =>
      SameShrinks(s, s);
      SameShrinks(s, s.(caches := s.caches[pid := NEW_CACHE]));
      TakeShrinks(s, GLOBAL);
      TakeShrinks(s, pid);
    case Global =>
      var s1 := if pid in s.caches && s.caches[pid].q == [] then s.(caches := s.caches - {pid}) else s;
      SameShrinks(s, s1);
      var k := if pid in s1.caches then pid else GLOBAL;
      TakeShrinks(s1, k);
      ShrinksTrans(s, s1, Take(s1, k).0);
  }

  /** No operation adds to a cache of the other kind. */
  lemma AllocShrinks(s: State, pid: nat, room: bool, got: int)
    ensures Shrinks(s, Alloc(s, pid, room, got).0)
  {
    RecycleShrinks(s, pid, room);
    var s1 := Recycle(s, pid, room).0;
    SameShrinks(s1, Alloc(s, pid, room, got).0);
    ShrinksTrans(s, s1, Alloc(s, pid, room, got).0);
  }

  lemma ReleaseShrinks(s: State, pid: nat, v: int, reclaimed: bool, room: bool)
    ensures Shrinks(s, Release(s, pid, v, reclaimed, room))
  {
    SameShrinks(s, Release(s, pid, v, reclaimed, room));
  }

  /** While a leftover cache has entries, allocations by a process that can reach it use up its head. */
  lemma Drains(s: State, pid: nat, room: bool, got: int)
    requires Inv(s) && pid in s.caches
    ensures s.mode == Proc && s.caches[GLOBAL].q != [] ==>
      var (s', v) := Alloc(s, pid, room, got);
      v == s.caches[GLOBAL].q[0] && s'.caches[GLOBAL].q == s.caches[GLOBAL].q[1..]
    ensures s.mode == Global && s.caches[pid].q != [] ==>
      var (s', v) := Alloc(s, pid, room, got); v == s.caches[pid].q[0] && s'.caches[pid].q == s.caches[pid].q[1..]
    ensures s.mode == Global && s.caches[pid].q == [] ==> pid !in Alloc(s, pid, room, got).0.caches
  {
    PullOk(s.caches[GLOBAL]);
    PullOk(s.caches[pid]);
    if s.caches[GLOBAL].q != [] { assert Idle(s, GLOBAL, 0); }
    if s.caches[pid].q != [] { assert Idle(s, pid, 0); }
  }

  // ---------- the kernel's variables ----------

  // ---------- what a release and an allocation do, by the queues ----------

  function QueueOf(s: State, k: int): seq<int> {
    if k in s.caches then s.caches[k].q else []
  }

  /** No cache but that of `k` has changed, come or gone. */
  ghost predicate OnlyCache(s: State, s': State, k: int) {
    s'.mode == s.mode && forall l :: l != k ==>
      (l in s'.caches <==> l in s.caches) && (l in s.caches && l in s'.caches ==> s'.caches[l] == s.caches[l])
  }

  /** The cache of `k` is set up and holds `q`. */
  predicate Filled(s: State, k: int, q: seq<int>) {
    k in s.caches && s.caches[k] == Cache(|q|, q)
  }

  /** The last reference is given up, the vnode is reclaimed, and there is a cache for it. */
  predicate Retires(s: State, pid: nat, v: int, reclaimed: bool, room: bool) {
    && v in s.refs && s.refs[v] == 1 && reclaimed
    && (s.mode == Global || (s.mode == Proc && (pid in s.caches || room)))
  }

  /**
   * What giving up a reference to `v` leads to. The count is one less. A vnode that retires is then
   * the last of its cache, after those that were there; of a full cache exactly the old tail is gone,
   * from the queue and altogether. Otherwise there is no other change.
   */
  ghost predicate Released(s: State, pid: nat, v: int, reclaimed: bool, room: bool, s': State)
    requires v in s.refs && s.refs[v] > 0
  {
    var dropped := s.refs[v := s.refs[v] - 1];
    var k := if s.mode == Global then GLOBAL else pid;
    var q := QueueOf(s, k);
    if !Retires(s, pid, v, reclaimed, room) then s' == s.(refs := dropped)
    else
      && OnlyCache(s, s', k)
      && if |q| < 64 then Filled(s', k, q + [v]) && s'.refs == dropped
         else Filled(s', k, q[..63] + [v]) && s'.refs == dropped - {q[63]}
  }

  lemma ReleaseExact(s: State, pid: nat, v: int, reclaimed: bool, room: bool)
    requires Inv(s) && v in s.refs && s.refs[v] > 0
    ensures Released(s, pid, v, reclaimed, room, Release(s, pid, v, reclaimed, room))
  {
    var k := if s.mode == Global then GLOBAL else pid;
    if Retires(s, pid, v, reclaimed, room) {
      assert Idle(s, k, 63);
      PutExact(s.(refs := s.refs[v := 0]), k, v);
    }
  }

  lemma PutExact(s: State, k: int, v: int)
    requires k in s.caches ==> CacheOk(s.caches[k])
    requires |QueueOf(s, k)| == 64 ==> QueueOf(s, k)[63] != 0
    ensures var s', q := Put(s, k, v), QueueOf(s, k);
      && OnlyCache(s, s', k)
      && if |q| < 64 then Filled(s', k, q + [v]) && s'.refs == s.refs
         else Filled(s', k, q[..63] + [v]) && s'.refs == s.refs - {q[63]}
  {
    var c := if k in s.caches then s.caches[k] else NEW_CACHE;
    AddOk(c, v);
  }

  /** The cache an allocation takes a vnode from: a leftover one first, while it has any; `NOWHERE` if there is none. */
  const NOWHERE: int := -2

  function Source(s: State, pid: nat): int {
    var other, own := if s.mode == Proc then GLOBAL else pid, if s.mode == Proc then pid else GLOBAL;
    if s.mode == None || (s.mode == Proc && pid !in s.caches) then NOWHERE
    else if QueueOf(s, other) != [] then other
    else if QueueOf(s, own) != [] then own
    else NOWHERE
  }

  /**
   * The caches after a process's own has come or gone: it comes when it is needed, and goes when it
   * is left over and empty.
   */
  function Prepared(s: State, pid: nat, room: bool): map<int, Cache> {
    if s.mode == Proc && pid !in s.caches && room then s.caches[pid := NEW_CACHE]
    else if s.mode == Global && pid in s.caches && QueueOf(s, pid) == [] then s.caches - {pid}
    else s.caches
  }

  /** Of the queue taken from exactly the head is gone. */
  function Remaining(s: State, pid: nat, room: bool): map<int, Cache> {
    var k, caches := Source(s, pid), Prepared(s, pid, room);
    if k == NOWHERE then caches else caches[k := Cache(|QueueOf(s, k)| - 1, QueueOf(s, k)[1..])]
  }

  /** What an allocation leads to: the head of that queue, or what the allocator gives. */
  ghost predicate Allocated(s: State, pid: nat, room: bool, got: int, s': State, v: int) {
    var k := Source(s, pid);
    && s'.mode == s.mode
    && v == (if k == NOWHERE then got else QueueOf(s, k)[0])
    && s'.refs == (if v == 0 then s.refs else s.refs[v := 1])
    && s'.caches == Remaining(s, pid, room)
  }

  /** What taking from the cache of `k` leads to. */
  lemma TakeExact(s: State, k: int)
    requires Inv(s) && k in s.caches
    ensures
      var (s', v) := Take(s, k);
      var q := QueueOf(s, k);
      if q == [] then s' == s && v == 0
      else v == q[0] > 0 && s' == s.(caches := s.caches[k := Cache(|q| - 1, q[1..])])
  {
    assert s.caches[k := s.caches[k]] == s.caches;
    if QueueOf(s, k) != [] { assert Idle(s, k, 0); }
  }

  lemma RecycleExact(s: State, pid: nat, room: bool)
    requires Inv(s)
    ensures var (s', v) := Recycle(s, pid, room);
      && s'.mode == s.mode && s'.refs == s.refs
      && v == (if Source(s, pid) == NOWHERE then 0 else QueueOf(s, Source(s, pid))[0])
      && s'.caches == Remaining(s, pid, room)
      && (Source(s, pid) != NOWHERE ==> v > 0)
  {
    match s.mode
    case None =>
    case Proc =>
      if pid in s.caches {
        TakeExact(s, GLOBAL);
        TakeExact(s, pid);
      }
    case Global =>
      var s1 := s.(caches := Prepared(s, pid, room));
      CachesInv(s, s1);
      if pid in s1.caches { TakeExact(s1, pid); }
      TakeExact(s1, GLOBAL);
  }

  lemma AllocExact(s: State, pid: nat, room: bool, got: int)
    requires Inv(s)
    ensures var (s', v) := Alloc(s, pid, room, got); Allocated(s, pid, room, got, s', v)
  {
    RecycleExact(s, pid, room);
  }

  class VnodeTable {
    var mode: Mode
    var refs: map<int, nat>
    var caches: map<int, Cache>

    ghost function View(): State
      reads this
    {
      State(mode, refs, caches)
    }

    constructor ()
      ensures Inv(View()) && mode == None && refs == map[] && caches == map[GLOBAL := NEW_CACHE]
    {
      mode, refs, caches := None, map[], map[GLOBAL := NEW_CACHE];
      new;
      ghost var s := View();
      forall k, i {:trigger Idle(s, k, i)} ensures Idle(s, k, i) { assert !InCache(s, k, i); }
      forall k, i, l, j {:trigger OnePlace(s, k, i, l, j)} ensures OnePlace(s, k, i, l, j) { assert !InCache(s, k, i); }
    }

    /** `vcache_pull`. */
    method PullVnode(k: int) returns (v: int)
      requires k in caches && CacheOk(caches[k])
      modifies this`caches
      ensures (View(), v) == Take(old(View()), k)
    {
      var c := caches[k];
      if c.size <= 0 {
        assert caches[k := c] == caches;
        return 0;
      }
      caches := caches[k := Cache(c.size - 1, c.q[1..])];
      return c.q[0];
    }

    /** `vcache_add`. */
    method AddVnode(k: int, v: int)
      requires (k in caches ==> CacheOk(caches[k])) && 0 !in refs && Uncached(View(), v)
      modifies this`caches, this`refs
      ensures View() == Put(old(View()), k, v)
    {
      var c := if k in caches then caches[k] else NEW_CACHE;
      assert refs - {0} == refs && [] + [v] == [v];
      if c.size < 0 {
        c := Cache(0, []);
      } else if c.size == 64 {
        var tmp := c.q[|c.q| - 1];
        refs := refs - {tmp};
        c := Cache(c.size - 1, c.q[..|c.q| - 1]);
      }
      caches := caches[k := Cache(c.size + 1, c.q + [v])];
    }

    /** `vfs_vcache_enter`. */
    method EnterCache(pid: nat, v: int, room: bool)
      requires Inv(View()) && Uncached(View(), v)
      modifies this`caches, this`refs
      ensures View() == Enter(old(View()), pid, v, room)
    {
      if mode == Proc {
        if pid !in caches {
          if !room {
            return;
          }
        }
        AddVnode(pid, v);
      } else if mode == Global {
        AddVnode(GLOBAL, v);
      }
    }

    /** `vfs_recycle_vnode`. */
    method RecycleVnode(pid: nat, room: bool) returns (v: int)
      requires Inv(View())
      modifies this`caches
      ensures (View(), v) == Recycle(old(View()), pid, room)
    {
      v := 0;
      if mode == Proc {
        if pid !in caches {
          if room {
            caches := caches[pid := NEW_CACHE];
          }
          return;
        }
        if caches[GLOBAL].q != [] {
          v := PullVnode(GLOBAL);
        } else {
          v := PullVnode(pid);
        }
      } else if mode == Global {
        if pid in caches && caches[pid].q == [] {
          caches := caches - {pid};
        }
        if pid in caches {
          v := PullVnode(pid);
        } else {
          v := PullVnode(GLOBAL);
        }
      }
    }

    /** `vfs_alloc_vnode`: the vnode has one reference, had none before, and is in no cache. */
    method AllocVnode(pid: nat, room: bool, got: int) returns (v: int)
      requires Inv(View()) && (got == 0 || (got > 0 && got !in refs))
      modifies this
      ensures Inv(View()) && (View(), v) == Alloc(old(View()), pid, room, got) && Shrinks(old(View()), View())
      ensures Allocated(old(View()), pid, room, got, View(), v)
      ensures v != 0 ==> (v in old(refs) ==> old(refs)[v] == 0) && refs == old(refs)[v := 1] && Uncached(View(), v)
    {
      AllocInv(View(), pid, room, got);
      AllocShrinks(View(), pid, room, got);
      AllocExact(View(), pid, room, got);
      v := RecycleVnode(pid, room);
      if v == 0 {
        v := got;
      }
      if v == 0 {
        return;
      }
      refs := refs[v := 1];
    }

    /** `vfs_release_vnode`. */
    method ReleaseVnode(pid: nat, v: int, reclaimed: bool, room: bool)
      requires Inv(View()) && v in refs
      modifies this
      ensures Inv(View()) && View() == Release(old(View()), pid, v, reclaimed, room) && Shrinks(old(View()), View())
      ensures if old(refs)[v] > 0 then Released(old(View()), pid, v, reclaimed, room, View()) else unchanged(this)
    {
      ReleaseInv(View(), pid, v, reclaimed, room);
      ReleaseShrinks(View(), pid, v, reclaimed, room);
      if refs[v] == 0 {
        return;
      }
      ReleaseExact(View(), pid, v, reclaimed, room);
      ghost var s := View();
      ReferencedUncached(s, v);
      CountInv(s, v, refs[v] - 1);
      refs := refs[v := refs[v] - 1];
      if refs[v] > 0 {
        return;
      }
      if !reclaimed {
        return;
      }
      EnterCache(pid, v, room);
    }

    /** `vfs_vref`: the invariant is kept exactly if the vnode is in no cache, as one with references always is. */
    method Reference(v: int)
      requires Inv(View()) && v in refs
      modifies this`refs
      ensures refs == old(refs)[v := old(refs)[v] + 1] && Shrinks(old(View()), View())
      ensures Inv(View()) <==> Uncached(old(View()), v)
      ensures old(refs)[v] > 0 ==> Inv(View())
    {
      if refs[v] > 0 { ReferencedUncached(View(), v); }
      ReferenceExact(View(), v, refs[v] + 1);
      refs := refs[v := refs[v] + 1];
      SameShrinks(old(View()), View());
    }

    /** `vfs_vcache_migrate`: only the mode changes, and only to one that exists. */
    method Migrate(kind: int, accepted: bool) returns (ok: bool)
      requires Inv(View())
      modifies this`mode
      ensures Inv(View())
      ensures ok == (0 <= kind <= 2 && accepted)
      ensures mode == if !ok then old(mode) else if kind == 0 then None else if kind == 1 then Proc else Global
    {
      ghost var s := View();
      ok := 0 <= kind <= 2 && accepted;
      if ok {
        mode := if kind == 0 then None else if kind == 1 then Proc else Global;
      }
      ModeInv(s, View());
    }
  }

  lemma ModeInv(s: State, s': State)
    requires Inv(s) && s'.refs == s.refs && s'.caches == s.caches
    ensures Inv(s')
  {
    CachesInv(s, s');
  }

  datatype Op =
    | Allocate(pid: nat, room: bool, got: int)
    | Drop(pid: nat, v: int, reclaimed: bool, room: bool)
    | Hold(v: int)
    | Switch(kind: int, accepted: bool)

  /**
   Any run, by any number of processes and with any changes of mode, keeps the invariant: no
   vnode is both referenced and cached or cached twice, and size fields are right and at most 64.
   As long as the mode does not change, leftover caches only shrink.
   */
  method Replay(t: VnodeTable, ops: seq<Op>)
    requires Inv(t.View())
    modifies t
    ensures Inv(t.View())
    ensures (forall i :: 0 <= i < |ops| ==> !ops[i].Switch?) ==> Shrinks(old(t.View()), t.View())
  {
    SameShrinks(t.View(), t.View());
    for i := 0 to |ops|
      invariant Inv(t.View())
      invariant (forall j :: 0 <= j < i ==> !ops[j].Switch?) ==> Shrinks(old(t.View()), t.View())
    {
      ghost var s := t.View();
      SameShrinks(s, s);
      match ops[i] {
        case Allocate(pid, room, got) =>
          if got == 0 || (got > 0 && got !in t.refs) {
            var v := t.AllocVnode(pid, room, got);
          }
        case Drop(pid, v, reclaimed, room) =>
          if v in t.refs {
            t.ReleaseVnode(pid, v, reclaimed, room);
          }
        case Hold(v) =>
          if v in t.refs && t.refs[v] > 0 {
            t.Reference(v);
          }
        case Switch(kind, accepted) =>
          var ok := t.Migrate(kind, accepted);
      }
      if forall j :: 0 <= j <= i ==> !ops[j].Switch? {
        ShrinksTrans(old(t.View()), s, t.View());
      }
    }
  }
}
