/** The control structure: list heads and the two levels of bitmaps. A bitmap is the set of its one-bits. */
module TlsfControl {
  import opened Sequences
  import opened TlsfMapping
  import opened TlsfOps
  import opened TlsfMemory

  type Bits = set<nat>

  datatype Control = Control(heads: seq<int>, fl: Bits, sl: seq<Bits>)

  /** Entry (`f`, `s`) of the table: the head is that of the list, and the bit says whether there is one. */
  ghost predicate EntryOk(c: Control, lists: seq<seq<int>>, f: int, s: int) {
    && 0 <= f < FL_COUNT && 0 <= s < 32 && |c.sl| == FL_COUNT && |c.heads| == |lists| == LIST_COUNT
    && c.heads[32 * f + s] == At(lists[32 * f + s], 0)
    && (s in c.sl[f] <==> lists[32 * f + s] != [])
  }

  ghost predicate RowOk(c: Control, f: int) {
    && 0 <= f < |c.sl|
    && (f in c.fl <==> c.sl[f] != {})
    && (forall s :: s in c.sl[f] ==> s < 32)
  }

  /** Both levels of bitmaps mark exactly the lists that are not empty. */
  ghost predicate ControlOk(c: Control, lists: seq<seq<int>>) {
    && |c.sl| == FL_COUNT && |c.heads| == |lists| == LIST_COUNT
    && (forall f :: f in c.fl ==> f < FL_COUNT)
    && (forall f {:trigger RowOk(c, f)} :: 0 <= f < FL_COUNT ==> RowOk(c, f))
    && (forall f, s {:trigger EntryOk(c, lists, f, s)} :: 0 <= f < FL_COUNT && 0 <= s < 32 ==> EntryOk(c, lists, f, s))
  }

  // ---------- searching ----------

  /** `tlsf_ffs` of the bits from `i` on; 32 when there is none. */
  function LowestFrom(bits: Bits, i: nat): (j: nat)
    ensures i <= 32 ==> i <= j <= 32
    ensures i <= 32 && j < 32 ==> j in bits
    ensures forall x :: i <= x < j ==> x !in bits
    decreases 32 - i
  {
    if i >= 32 || i in bits then i else LowestFrom(bits, i + 1)
  }

  /** `search_suitable_block`: the entry to take a block from, if any. */
  function Search(c: Control, fl: nat, sl: nat): (r: (nat, nat))
    requires fl < FL_COUNT && |c.sl| == FL_COUNT && sl <= 32
  {
    var s := LowestFrom(c.sl[fl], sl);
    if s < 32 then (fl, s)
    else
      var f := LowestFrom(c.fl, fl + 1);
      if f >= FL_COUNT then (FL_COUNT, 0)
      else (f, LowestFrom(c.sl[f], 0))
  }

  /** The bitmaps lead to the first list that is not empty, in the order of the classes. */
  lemma SearchFirst(c: Control, lists: seq<seq<int>>, fl: nat, sl: nat)
    requires ControlOk(c, lists) && fl < FL_COUNT && sl < 32
    ensures var (f, s) := Search(c, fl, sl); 32 * f + s == FirstFrom(lists, 32 * fl + sl)
  {
    var (f, s) := Search(c, fl, sl);
    forall k | 32 * fl + sl <= k < 32 * f + s && k < LIST_COUNT ensures lists[k] == [] {
      SearchSkips(c, lists, fl, sl, k);
    }
    if f < FL_COUNT {
      SearchHits(c, lists, fl, sl);
    }
  }

  lemma SearchSkips(c: Control, lists: seq<seq<int>>, fl: nat, sl: nat, k: nat)
    requires ControlOk(c, lists) && fl < FL_COUNT && sl < 32 && k < LIST_COUNT
    requires var (f, s) := Search(c, fl, sl); 32 * fl + sl <= k < 32 * f + s
    ensures lists[k] == []
  {
    var (f, s) := Search(c, fl, sl);
    var g, t := k / 32, k % 32;
    assert k == 32 * g + t;
    assert EntryOk(c, lists, g, t) && RowOk(c, g) && RowOk(c, fl);
    if g == fl {
      assert t !in c.sl[g];
    } else if g < f {
      assert g !in c.fl;
    } else {
      assert t !in c.sl[g];
    }
  }

  lemma SearchHits(c: Control, lists: seq<seq<int>>, fl: nat, sl: nat)
    requires ControlOk(c, lists) && fl < FL_COUNT && sl < 32 && Search(c, fl, sl).0 < FL_COUNT
    ensures var (f, s) := Search(c, fl, sl); s < 32 && 32 * f + s < LIST_COUNT && lists[32 * f + s] != []
    ensures var (f, s) := Search(c, fl, sl); 32 * f + s >= 32 * fl + sl
  {
    var (f, s) := Search(c, fl, sl);
    assert RowOk(c, fl) && RowOk(c, f);
    if f != fl {
      assert f in c.fl;
      var x :| x in c.sl[f];
      assert x < 32;
    }
    assert EntryOk(c, lists, f, s);
  }

  // ---------- insertion and removal ----------

  /** The end of `insert_free_block`. */
  function Inserted(c: Control, fl: nat, sl: nat, b: int): Control
    requires fl < FL_COUNT && sl < 32 && |c.sl| == FL_COUNT && |c.heads| == LIST_COUNT
  {
    Control(c.heads[32 * fl + sl := b], c.fl + {fl}, c.sl[fl := c.sl[fl] + {sl}])
  }

  /** The end of `remove_free_block`. */
  function Removed(c: Control, fl: nat, sl: nat, b: int, next: int): Control
    requires fl < FL_COUNT && sl < 32 && |c.sl| == FL_COUNT && |c.heads| == LIST_COUNT
  {
    if c.heads[32 * fl + sl] != b then c
    else
      var heads := c.heads[32 * fl + sl := next];
      if next != NULL_BLOCK then c.(heads := heads)
      else
        var row := c.sl[fl] - {sl};
        Control(heads, if row == {} then c.fl - {fl} else c.fl, c.sl[fl := row])
  }

  lemma InsertedOk(c: Control, lists: seq<seq<int>>, fl: nat, sl: nat, b: int)
    requires ControlOk(c, lists) && fl < FL_COUNT && sl < 32
    ensures ControlOk(Inserted(c, fl, sl, b), lists[32 * fl + sl := [b] + lists[32 * fl + sl]])
  {
    var c', lists' := Inserted(c, fl, sl, b), lists[32 * fl + sl := [b] + lists[32 * fl + sl]];
    forall f {:trigger RowOk(c', f)} | 0 <= f < FL_COUNT ensures RowOk(c', f) { assert RowOk(c, f); }
    forall f, s {:trigger EntryOk(c', lists', f, s)} | 0 <= f < FL_COUNT && 0 <= s < 32
      ensures EntryOk(c', lists', f, s)
    {
      assert EntryOk(c, lists, f, s);
    }
  }

  lemma RemovedOk(c: Control, lists: seq<seq<int>>, fl: nat, sl: nat, j: nat)
    requires ControlOk(c, lists) && fl < FL_COUNT && sl < 32 && j < |lists[32 * fl + sl]|
    requires NoDup(lists[32 * fl + sl]) && NULL_BLOCK !in lists[32 * fl + sl]
    ensures var s := lists[32 * fl + sl];
      ControlOk(Removed(c, fl, sl, s[j], At(s, j + 1)), lists[32 * fl + sl := s[..j] + s[j + 1..]])
  {
    var k := 32 * fl + sl;
    var s := lists[k];
    var t := s[..j] + s[j + 1..];
    var c', lists' := Removed(c, fl, sl, s[j], At(s, j + 1)), lists[k := t];
    assert EntryOk(c, lists, fl, sl) && RowOk(c, fl);
    assert c.heads[k] == s[j] <==> j == 0;
    assert At(s, j + 1) == NULL_BLOCK <==> j + 1 == |s|;
    assert At(t, 0) == if j == 0 then At(s, 1) else At(s, 0);
    forall f {:trigger RowOk(c', f)} | 0 <= f < FL_COUNT ensures RowOk(c', f) { assert RowOk(c, f); }
    forall f, x {:trigger EntryOk(c', lists', f, x)} | 0 <= f < FL_COUNT && 0 <= x < 32
      ensures EntryOk(c', lists', f, x)
    {
      assert EntryOk(c, lists, f, x);
    }
  }

  /** The lists determine heads and bitmaps. */
  lemma ControlUnique(c: Control, c': Control, lists: seq<seq<int>>)
    requires ControlOk(c, lists) && ControlOk(c', lists)
    ensures c == c'
  {
    forall k | 0 <= k < LIST_COUNT ensures c.heads[k] == c'.heads[k] {
      assert EntryOk(c, lists, k / 32, k % 32) && EntryOk(c', lists, k / 32, k % 32);
    }
    assert c.heads == c'.heads;
    forall f | 0 <= f < FL_COUNT ensures c.sl[f] == c'.sl[f] { RowUnique(c, c', lists, f); }
    assert c.sl == c'.sl;
    forall f | f in c.fl || f in c'.fl ensures f in c.fl && f in c'.fl { assert RowOk(c, f) && RowOk(c', f); }
    assert c.fl == c'.fl;
  }

  lemma RowUnique(c: Control, c': Control, lists: seq<seq<int>>, f: nat)
    requires ControlOk(c, lists) && ControlOk(c', lists) && f < FL_COUNT
    ensures c.sl[f] == c'.sl[f]
  {
    assert RowOk(c, f) && RowOk(c', f);
    forall s | s in c.sl[f] || s in c'.sl[f] ensures s in c.sl[f] && s in c'.sl[f] {
      assert EntryOk(c, lists, f, s) && EntryOk(c', lists, f, s);
    }
  }
}
