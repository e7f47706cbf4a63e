/**
 Tail queues whose links are inside the elements.

 An element is its address. A slot is the address of a link that can point to an element: 0 for
 the one in the queue head, and `x` for the one to the next element in element `x`.
 */
module Tailq {
  import opened Sequences

  /**
   * `next` is what each slot holds, 0 for null; `back` is the slot that leads to an element; `last`
   * is the slot at the end.
   */
  datatype Queue = Queue(next: map<int, int>, back: map<int, int>, last: int)

  function Get(m: map<int, int>, k: int): int {
    if k in m then m[k] else 0
  }

  /** `TAILQ_FIRST`. */
  function First(l: Queue): int {
    Get(l.next, 0)
  }

  /** `TAILQ_INIT`. */
  predicate Empty(l: Queue) {
    First(l) == 0 && l.last == 0
  }

  /** `TAILQ_INSERT_TAIL`. */
  function InsertTail(l: Queue, x: int): Queue {
    var next := l.next[x := 0];
    Queue(next[l.last := x], l.back[x := l.last], x)
  }

  /** `TAILQ_REMOVE`. */
  function Remove(l: Queue, x: int): Queue {
    var n := Get(l.next, x);
    var l1 := if n != 0 then l.(back := l.back[n := Get(l.back, x)]) else l.(last := Get(l.back, x));
    l1.(next := l1.next[Get(l1.back, x) := n])
  }

  /** The slot that leads to the `i`-th element, or the one after the last. */
  function Slot(q: seq<int>, i: nat): int
    requires i <= |q|
  {
    if i == 0 then 0 else q[i - 1]
  }

  ghost predicate NodeOk(l: Queue, q: seq<int>, i: int) {
    0 <= i < |q| && q[i] > 0 && Get(l.next, Slot(q, i)) == q[i] && Get(l.back, q[i]) == Slot(q, i)
  }

  /** The links are those of the elements `q`, in order. */
  ghost predicate Holds(l: Queue, q: seq<int>) {
    && (forall i {:trigger NodeOk(l, q, i)} :: 0 <= i < |q| ==> NodeOk(l, q, i))
    && l.last == Slot(q, |q|) && Get(l.next, l.last) == 0
  }

  /** No element can be in a queue twice. */
  lemma HoldsNoDup(l: Queue, q: seq<int>)
    requires Holds(l, q)
    ensures NoDup(q)
  {
    forall i, j | 0 <= i < j < |q| ensures q[i] != q[j] { TwoPlaces(l, q, i, j); }
  }

  lemma {:induction false} TwoPlaces(l: Queue, q: seq<int>, i: nat, j: nat)
    requires Holds(l, q) && i < j < |q|
    ensures q[i] != q[j]
    decreases i
  {
    assert NodeOk(l, q, i) && NodeOk(l, q, j) && NodeOk(l, q, j - 1);
    if i > 0 { TwoPlaces(l, q, i - 1, j - 1); }
  }

  /** The links determine the elements. */
  lemma HoldsUnique(l: Queue, q: seq<int>, r: seq<int>)
    requires Holds(l, q) && Holds(l, r)
    ensures q == r
  {
    if |q| <= |r| {
      if |q| < |r| { assert NodeOk(l, r, |q|); }
      SamePrefix(l, q, r, |q|);
    } else {
      assert NodeOk(l, q, |r|);
      SamePrefix(l, r, q, |r|);
    }
  }

  lemma {:induction false} SamePrefix(l: Queue, q: seq<int>, r: seq<int>, n: nat)
    requires Holds(l, q) && Holds(l, r) && n <= |q| && n <= |r|
    ensures q[..n] == r[..n] && Slot(q, n) == Slot(r, n)
  {
    if n > 0 {
      SamePrefix(l, q, r, n - 1);
      assert NodeOk(l, q, n - 1) && NodeOk(l, r, n - 1);
      assert q[..n] == q[..n - 1] + [q[n - 1]] && r[..n] == r[..n - 1] + [r[n - 1]];
    }
  }

  /** What `TAILQ_FIRST` returns. */
  lemma FirstIs(l: Queue, q: seq<int>)
    requires Holds(l, q)
    ensures First(l) == if q == [] then 0 else q[0]
  {
    if q != [] { assert NodeOk(l, q, 0); }
  }

  /** An insertion at the tail does what it should exactly if the element is not in the queue yet. */
  lemma InsertExact(l: Queue, q: seq<int>, x: int)
    requires Holds(l, q) && x > 0
    ensures Holds(InsertTail(l, x), q + [x]) <==> x !in q
  {
    if x in q {
      var i :| 0 <= i < |q| && q[i] == x;
      assert (q + [x])[i] == (q + [x])[|q|];
      if Holds(InsertTail(l, x), q + [x]) { HoldsNoDup(InsertTail(l, x), q + [x]); }
    } else {
      InsertHolds(l, q, x);
    }
  }

  lemma InsertHolds(l: Queue, q: seq<int>, x: int)
    requires Holds(l, q) && x > 0 && x !in q
    ensures Holds(InsertTail(l, x), q + [x])
  {
    var l', r := InsertTail(l, x), q + [x];
    HoldsNoDup(l, q);
    forall i {:trigger NodeOk(l', r, i)} | 0 <= i < |r| ensures NodeOk(l', r, i) {
      if i < |q| {
        assert NodeOk(l, q, i) && Slot(r, i) == Slot(q, i);
        if i > 0 { assert q[i - 1] in q; }
      }
    }
  }

  /** A removal takes out the element, wherever it is. */
  lemma RemoveHolds(l: Queue, q: seq<int>, i: nat)
    requires Holds(l, q) && i < |q|
    ensures Holds(Remove(l, q[i]), q[..i] + q[i + 1..])
  {
    HoldsNoDup(l, q);
    var l', r := Remove(l, q[i]), q[..i] + q[i + 1..];
    RemovedLinks(l, q, i);
    forall k {:trigger NodeOk(l', r, k)} | 0 <= k < |r| ensures NodeOk(l', r, k) {
      RemovedNode(l, q, i, k);
    }
    assert Slot(r, |r|) == if i + 1 == |q| then Slot(q, i) else q[|q| - 1];
    if i + 1 < |q| {
      assert NodeOk(l, q, |q| - 1) && NodeOk(l, q, i + 1);
      if i > 0 { TwoPlaces(l, q, i - 1, |q| - 1); }
    }
  }

  /** The links a removal changes. */
  lemma RemovedLinks(l: Queue, q: seq<int>, i: nat)
    requires Holds(l, q) && i < |q|
    ensures var l' := Remove(l, q[i]); var n := if i + 1 < |q| then q[i + 1] else 0;
      && l'.next == l.next[Slot(q, i) := n]
      && l'.back == (if n != 0 then l.back[n := Slot(q, i)] else l.back)
      && l'.last == if n != 0 then l.last else Slot(q, i)
  {
    assert NodeOk(l, q, i);
    if i + 1 < |q| {
      assert NodeOk(l, q, i + 1);
      TwoPlaces(l, q, i, i + 1);
    }
  }

  lemma RemovedNode(l: Queue, q: seq<int>, i: nat, k: nat)
    requires Holds(l, q) && i < |q| && k < |q| - 1
    ensures NodeOk(Remove(l, q[i]), q[..i] + q[i + 1..], k)
  {
    var r := q[..i] + q[i + 1..];
    HoldsNoDup(l, q);
    RemovedLinks(l, q, i);
    assert NodeOk(l, q, i) && NodeOk(l, q, k) && NodeOk(l, q, k + 1);
    if i > 0 { assert NodeOk(l, q, i - 1); }
    assert r[k] == if k < i then q[k] else q[k + 1];
    assert Slot(r, k) == if k <= i then Slot(q, k) else q[k];
    if k > 0 { assert NodeOk(l, q, k - 1); }
    if i + 1 < |q| { assert NodeOk(l, q, i + 1); }
  }
}
