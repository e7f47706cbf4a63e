/** The per-process mmap ledger: a red-black tree of mappings and the number of bytes in them. */
module MmapLedger {
  import opened RbShape
  import opened RbOrder
  import opened RedBlackTree

  /** `mmap_entrycmp`. */
  function EntryCompare(a: int, b: int): int {
    if a < b then -1 else if a > b then 1 else 0
  }

  lemma EntryCompareIsOrder()
    ensures IsOrder(EntryCompare)
  {
  }

  datatype Status = Ok | Einval | AssertFailed

  function PageDown(addr: int): int {
    addr - addr % 4096
  }

  ghost function Sum(s: seq<Node>): nat {
    if s == [] then 0 else s[0].size + Sum(s[1..])
  }

  /** The mappings as a table from start address to size. */
  ghost function Book(s: seq<Node>): map<int, nat> {
    if s == [] then map[] else map[s[0].key := s[0].size] + Book(s[1..])
  }

  lemma UnionAssociative(x: map<int, nat>, y: map<int, nat>, z: map<int, nat>)
    ensures (x + y) + z == x + (y + z)
  {
  }

  lemma {:induction false} SumConcat(a: seq<Node>, b: seq<Node>)
    ensures Sum(a + b) == Sum(a) + Sum(b)
  {
    if a == [] {
      assert a + b == b;
    } else {
      SumConcat(a[1..], b);
      assert (a + b)[1..] == a[1..] + b;
    }
  }

  lemma {:induction false} BookConcat(a: seq<Node>, b: seq<Node>)
    ensures Book(a + b) == Book(a) + Book(b)
  {
    if a == [] {
      assert a + b == b;
    } else {
      BookConcat(a[1..], b);
      assert (a + b)[1..] == a[1..] + b;
      UnionAssociative(map[a[0].key := a[0].size], Book(a[1..]), Book(b));
    }
  }

  lemma {:induction false} BookKeys(s: seq<Node>, k: int)
    ensures k in Book(s) <==> exists i :: 0 <= i < |s| && s[i].key == k
  {
    if s != [] {
      BookKeys(s[1..], k);
      if k in Book(s[1..]) {
        var i :| 0 <= i < |s[1..]| && s[1..][i].key == k;
        assert s[i + 1].key == k;
      }
      forall i | 0 < i < |s| && s[i].key == k ensures k in Book(s[1..]) {
        assert s[1..][i - 1].key == k;
      }
    }
  }

  lemma UnionOneMore(x: map<int, nat>, k: int, n: nat, y: map<int, nat>)
    requires k !in x && k !in y
    ensures x + map[k := n] + y == (x + y)[k := n]
    ensures (x + y)[k := n] - {k} == x + y
  {
  }

  lemma KeyApart(a: seq<Node>, x: Node, b: seq<Node>)
    requires Sorted(EntryCompare, a + [x] + b)
    ensures x.key !in Book(a) && x.key !in Book(b)
  {
    SortedSplit(EntryCompare, a, x, b);
    BookKeys(a, x.key);
    BookKeys(b, x.key);
  }

  /** An entry more, or less, in the table and in the sum. */
  lemma OneSize(a: seq<Node>, x: Node, b: seq<Node>)
    ensures Sum(a + [x] + b) == Sum(a + b) + x.size
  {
    SumConcat(a, [x]);
    SumConcat(a + [x], b);
    SumConcat(a, b);
  }

  lemma OneEntry(a: seq<Node>, x: Node, b: seq<Node>)
    requires Sorted(EntryCompare, a + [x] + b)
    ensures x.key !in Book(a + b)
    ensures Book(a + [x] + b) == Book(a + b)[x.key := x.size]
    ensures Book(a + b) == Book(a + [x] + b) - {x.key}
  {
    KeyApart(a, x, b);
    assert Book(a + [x] + b) == Book(a) + map[x.key := x.size] + Book(b) by {
      BookConcat(a, [x]);
      BookConcat(a + [x], b);
      assert Book([x]) == map[x.key := x.size];
    }
    BookConcat(a, b);
    UnionOneMore(Book(a), x.key, x.size, Book(b));
  }

  lemma Inserted(s: seq<Node>, s': seq<Node>, x: Node, pos: nat)
    requires pos <= |s| && s' == s[..pos] + [x] + s[pos..] && Sorted(EntryCompare, s')
    ensures Sum(s') == Sum(s) + x.size && Book(s') == Book(s)[x.key := x.size]
  {
    assert s == s[..pos] + s[pos..];
    OneEntry(s[..pos], x, s[pos..]);
    OneSize(s[..pos], x, s[pos..]);
  }

  lemma Entered(s: seq<Node>, s': seq<Node>, x: Node, entered: bool, pos: nat)
    requires if entered then pos <= |s| && s' == s[..pos] + [x] + s[pos..] && Sorted(EntryCompare, s') else s' == s
    requires entered <==> forall n :: n in s ==> EntryCompare(x.key, n.key) != 0
    ensures entered == (x.key !in Book(s))
    ensures Book(s') == if entered then Book(s)[x.key := x.size] else Book(s)
    ensures Sum(s') == Sum(s) + if entered then x.size else 0
  {
    BookKeys(s, x.key);
    if entered {
      Inserted(s, s', x, pos);
    } else {
      var n :| n in s && EntryCompare(x.key, n.key) == 0;
      var i :| 0 <= i < |s| && s[i] == n;
    }
  }

  lemma Deleted(s: seq<Node>, s': seq<Node>, x: Node, pos: nat)
    requires pos < |s| && s[pos] == x && s' == s[..pos] + s[pos + 1..] && Sorted(EntryCompare, s)
    ensures Sum(s') == Sum(s) - x.size && x.key in Book(s) && Book(s') == Book(s) - {x.key}
  {
    assert s == s[..pos] + [x] + s[pos + 1..];
    OneEntry(s[..pos], x, s[pos + 1..]);
    OneSize(s[..pos], x, s[pos + 1..]);
  }

  class Ledger {
    const entries: RbTree
    var nbytes: nat

    ghost predicate Valid()
      reads this, entries, entries.links.Keys
    {
      && entries.compare == EntryCompare
      && entries.Valid()
      && nbytes == Sum(entries.Contents())
    }

    ghost function View(): map<int, nat>
      reads entries
    {
      Book(entries.Contents())
    }

    constructor ()
      ensures Valid() && View() == map[] && fresh(entries) && entries.links.Keys == {}
    {
      EntryCompareIsOrder();
      entries := new RbTree(EntryCompare);
      nbytes := 0;
    }

    /** `RBT_INSERT` on the ledger, seen as a change of the table. */
    method Enter(ep: Node) returns (entered: bool)
      requires Valid()
      modifies entries, entries.links.Keys, ep
      ensures entries.Valid() && entries.links.Keys <= old(entries.links.Keys) + {ep}
      ensures entered == (ep.key !in old(View()))
      ensures View() == if entered then old(View())[ep.key := ep.size] else old(View())
      ensures Sum(entries.Contents()) == old(nbytes) + if entered then ep.size else 0
    {
      ghost var s := entries.Contents();
      var tmp, pos := entries.Insert(ep);
      entered := tmp == null;
      Entered(s, entries.Contents(), ep, entered, pos);
    }

    /** `mmap_add` on an entry that is not empty: a second entry at the same address fails the assertion. */
    method AddEntry(ep: Node) returns (r: Status)
      requires Valid()
      modifies this, entries, entries.links.Keys, ep
      ensures Valid() && entries.links.Keys <= old(entries.links.Keys) + {ep}
      ensures r == if ep.key in old(View()) then AssertFailed else Ok
      ensures View() == if r == Ok then old(View())[ep.key := ep.size] else old(View())
      ensures nbytes == if r == Ok then old(nbytes) + ep.size else old(nbytes)
    {
      var entered := Enter(ep);
      r := if entered then Ok else AssertFailed;
      Charge(if entered then ep.size else 0);
    }

    /** `nbytes` changes; the tree does not. */
    method Charge(size: int)
      requires entries.compare == EntryCompare && entries.Valid() && Sum(entries.Contents()) == nbytes + size
      modifies this`nbytes
      ensures Valid() && nbytes == old(nbytes) + size && View() == old(View()) && entries.links == old(entries.links)
    {
      nbytes := nbytes + size;
    }

    /** `mmap_add`. */
    method Add(ep: Node) returns (r: Status)
      requires Valid()
      modifies this, entries, entries.links.Keys, ep
      ensures Valid() && entries.links.Keys <= old(entries.links.Keys) + {ep}
      ensures r == if ep.size == 0 then Einval else if ep.key in old(View()) then AssertFailed else Ok
      ensures View() == if r == Ok then old(View())[ep.key := ep.size] else old(View())
      ensures nbytes == if r == Ok then old(nbytes) + ep.size else old(nbytes)
    {
      if ep.size == 0 {
        r := Einval;
      } else {
        r := AddEntry(ep);
      }
    }

    /** `RBT_REMOVE` on the ledger. */
    method Strike(ep: Node)
      requires Valid() && ep in entries.Contents()
      modifies entries, entries.links.Keys
      ensures entries.Valid() && entries.links.Keys <= old(entries.links.Keys)
      ensures ep.key in old(View()) && View() == old(View()) - {ep.key}
      ensures Sum(entries.Contents()) == old(nbytes) - ep.size
    {
      ghost var s := entries.Contents();
      var old_, pos := entries.Remove(ep);
      Deleted(s, entries.Contents(), ep, pos);
    }

    /** `mmap_remove`. */
    method Remove(ep: Node)
      requires Valid() && ep in entries.Contents()
      modifies this, entries, entries.links.Keys
      ensures Valid() && entries.links.Keys <= old(entries.links.Keys)
      ensures ep.key in old(View()) && View() == old(View()) - {ep.key}
      ensures nbytes == old(nbytes) - ep.size
    {
      Strike(ep);
      var size: int := ep.size;
      Charge(-size);
    }

    /** The ledger part of `munmap`: the address is rounded down to a page and looked up. */
    method Unmap(addr: int, len: nat) returns (r: Status)
      requires Valid()
      modifies this, entries, entries.links.Keys
      ensures Valid()
      ensures r == if addr != 0 && len != 0 && PageDown(addr) in old(View()) then Ok else Einval
      ensures View() == if r == Ok then old(View()) - {PageDown(addr)} else old(View())
      ensures entries.links.Keys <= old(entries.links.Keys)
    {
      if addr == 0 || len == 0 {
        return Einval;
      }
      var res := Lookup(PageDown(addr));
      if res == null {
        return Einval;
      }
      Remove(res);
      return Ok;
    }

    /** `RBT_FIND` on the ledger. */
    method Lookup(va: int) returns (res: Node?)
      requires Valid()
      ensures res == null <==> va !in View()
      ensures res != null ==> res in entries.Contents() && res.key == va
    {
      BookKeys(entries.Contents(), va);
      res := entries.Find(va);
    }
  }

  datatype Op = Map(va: int, size: nat) | Unmap(addr: int, len: nat)

  /** The operation fails the assertion that no entry is at the address yet. */
  predicate Collides(book: map<int, nat>, op: Op) {
    op.Map? && op.size != 0 && op.va in book
  }

  /** One operation, and a whole run, on the table alone. */
  function Step(book: map<int, nat>, op: Op): map<int, nat> {
    match op
    case Map(va, size) => if size == 0 || va in book then book else book[va := size]
    case Unmap(addr, len) => if addr == 0 || len == 0 then book else book - {PageDown(addr)}
  }

  function Run(book: map<int, nat>, ops: seq<Op>): map<int, nat> {
    if ops == [] then book else Step(Run(book, ops[..|ops| - 1]), ops[|ops| - 1])
  }

  lemma RunStep(book: map<int, nat>, ops: seq<Op>, i: nat)
    requires i < |ops|
    ensures Run(book, ops[..i + 1]) == Step(Run(book, ops[..i]), ops[i])
  {
    assert ops[..i + 1][..i] == ops[..i];
  }

  lemma MinusAbsent(book: map<int, nat>, k: int)
    requires k !in book
    ensures book - {k} == book
  {
  }

  method Perform(ledger: Ledger, op: Op) returns (r: Status)
    requires ledger.Valid()
    modifies ledger, ledger.entries, ledger.entries.links.Keys
    ensures r == AssertFailed <==> Collides(old(ledger.View()), op)
    ensures ledger.Valid() && ledger.View() == Step(old(ledger.View()), op)
    ensures fresh(ledger.entries.links.Keys - old(ledger.entries.links.Keys))
  {
    if op.Map? {
      var ep := new Node(op.va, op.size);
      r := ledger.Add(ep);
    } else {
      if PageDown(op.addr) !in ledger.View() { MinusAbsent(ledger.View(), PageDown(op.addr)); }
      r := ledger.Unmap(op.addr, op.len);
    }
  }

  /** No operation before the `n`-th fails the assertion. */
  ghost predicate Runs(ops: seq<Op>, n: nat)
    requires n <= |ops|
  {
    forall i {:trigger ops[..i]} :: 0 <= i < n ==> !Collides(Run(map[], ops[..i]), ops[i])
  }

  /**
   * Every run of mappings and unmappings leaves the table it should, and the bytes that are in it.
   * It stops after `n` operations exactly where the next one fails the assertion.
   */
  method Replay(ops: seq<Op>) returns (ledger: Ledger, n: nat)
    ensures n <= |ops| && Runs(ops, n) && (n < |ops| ==> Collides(Run(map[], ops[..n]), ops[n]))
    ensures ledger.Valid() && ledger.View() == Run(map[], ops[..n])
    ensures fresh(ledger) && fresh(ledger.entries) && fresh(ledger.entries.links.Keys)
  {
    ledger := new Ledger();
    n := 0;
    while n < |ops|
      invariant n <= |ops| && Runs(ops, n)
      invariant ledger.Valid() && ledger.View() == Run(map[], ops[..n])
      invariant fresh(ledger) && fresh(ledger.entries) && fresh(ledger.entries.links.Keys)
    {
      RunStep(map[], ops, n);
      var r := Perform(ledger, ops[n]);
      if r == AssertFailed {
        break;
      }
      n := n + 1;
    }
  }
}
