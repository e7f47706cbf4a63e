/** Feeding bytes to a linear, injective step on words of any kind: what a cyclic redundancy check does. */
module CrcAlgebra {

  function Iter<W>(f: W -> W, n: nat, x: W): W {
    if n == 0 then x else Iter(f, n - 1, f(x))
  }

  ghost predicate LinearAt<W>(f: W -> W, xor: (W, W) -> W, x: W, y: W) {
    f(xor(x, y)) == xor(f(x), f(y))
  }

  ghost predicate Linear<W(!new)>(f: W -> W, xor: (W, W) -> W) {
    forall x, y {:trigger LinearAt(f, xor, x, y)} :: LinearAt(f, xor, x, y)
  }

  ghost predicate Inverse<W(!new)>(g: W -> W, f: W -> W) {
    forall x :: g(f(x)) == x
  }

  lemma {:induction false} IterLinear<W(!new)>(f: W -> W, xor: (W, W) -> W, n: nat, x: W, y: W)
    requires Linear(f, xor)
    ensures Iter(f, n, xor(x, y)) == xor(Iter(f, n, x), Iter(f, n, y))
  {
    if n > 0 {
      assert LinearAt(f, xor, x, y);
      IterLinear(f, xor, n - 1, f(x), f(y));
    }
  }

  function Sum4<W>(xor: (W, W) -> W, a: W, b: W, c: W, d: W): W {
    xor(xor(a, b), xor(c, d))
  }

  function Sum8<W>(xor: (W, W) -> W, a: W, b: W, c: W, d: W, e: W, f: W, g: W, h: W): W {
    xor(Sum4(xor, a, b, c, d), Sum4(xor, e, f, g, h))
  }

  lemma LinearSum4<W(!new)>(o: W -> W, xor: (W, W) -> W, a: W, b: W, c: W, d: W)
    requires Linear(o, xor)
    ensures o(Sum4(xor, a, b, c, d)) == Sum4(xor, o(a), o(b), o(c), o(d))
  {
    assert LinearAt(o, xor, xor(a, b), xor(c, d)) && LinearAt(o, xor, a, b) && LinearAt(o, xor, c, d);
  }

  lemma LinearSum8<W(!new)>(o: W -> W, xor: (W, W) -> W, a: W, b: W, c: W, d: W, e: W, f: W, g: W, h: W)
    requires Linear(o, xor)
    ensures o(Sum8(xor, a, b, c, d, e, f, g, h)) == Sum8(xor, o(a), o(b), o(c), o(d), o(e), o(f), o(g), o(h))
  {
    LinearSum4(o, xor, a, b, c, d);
    LinearSum4(o, xor, e, f, g, h);
    assert LinearAt(o, xor, Sum4(xor, a, b, c, d), Sum4(xor, e, f, g, h));
  }

  lemma {:induction false} IterInjective<W(!new)>(f: W -> W, g: W -> W, n: nat, x: W, y: W)
    requires Inverse(g, f) && Iter(f, n, x) == Iter(f, n, y)
    ensures x == y
  {
    if n > 0 {
      IterInjective(f, g, n - 1, f(x), f(y));
      assert g(f(x)) == x && g(f(y)) == y;
    }
  }

  lemma {:induction false} IterAdd<W>(f: W -> W, m: nat, n: nat, x: W)
    ensures Iter(f, m + n, x) == Iter(f, n, Iter(f, m, x))
  {
    if m > 0 { IterAdd(f, m - 1, n, f(x)); }
  }

  /** The bytes `data` one after the other: each is added to the word, then eight bits are stepped. */
  function Feed<W, B>(f: W -> W, xor: (W, W) -> W, emb: B -> W, s: W, data: seq<B>): W {
    if data == [] then s
    else Feed(f, xor, emb, Iter(f, 8, xor(s, emb(data[0]))), data[1..])
  }

  lemma {:induction false} FeedAppend<W, B>(f: W -> W, xor: (W, W) -> W, emb: B -> W, s: W, a: seq<B>, b: seq<B>)
    ensures Feed(f, xor, emb, s, a + b) == Feed(f, xor, emb, Feed(f, xor, emb, s, a), b)
    decreases |a|
  {
    if a == [] {
      assert a + b == b;
    } else {
      assert (a + b)[1..] == a[1..] + b;
      FeedAppend(f, xor, emb, Iter(f, 8, xor(s, emb(a[0]))), a[1..], b);
    }
  }

  lemma FeedLast<W, B>(f: W -> W, xor: (W, W) -> W, emb: B -> W, s: W, data: seq<B>)
    requires |data| > 0
    ensures Feed(f, xor, emb, s, data)
         == Iter(f, 8, xor(Feed(f, xor, emb, s, data[..|data| - 1]), emb(data[|data| - 1])))
  {
    var init, last := data[..|data| - 1], data[|data| - 1];
    FeedAppend(f, xor, emb, s, init, [last]);
    assert data == init + [last];
    var t := Feed(f, xor, emb, s, init);
    assert Feed(f, xor, emb, t, [last]) == Feed(f, xor, emb, Iter(f, 8, xor(t, emb(last))), []) by {
      assert [last][1..] == [];
    }
  }

  ghost predicate Cancels<W(!new)>(xor: (W, W) -> W) {
    forall x, y, e :: xor(x, e) == xor(y, e) ==> x == y
  }

  /** Different words stay different. */
  lemma {:induction false} FeedInjective<W(!new), B>(
    f: W -> W, g: W -> W, xor: (W, W) -> W, emb: B -> W, s: W, t: W, data: seq<B>)
    requires Inverse(g, f) && Cancels(xor) && Feed(f, xor, emb, s, data) == Feed(f, xor, emb, t, data)
    ensures s == t
    decreases |data|
  {
    if data != [] {
      var e := emb(data[0]);
      FeedInjective(f, g, xor, emb, Iter(f, 8, xor(s, e)), Iter(f, 8, xor(t, e)), data[1..]);
      IterInjective(f, g, 8, xor(s, e), xor(t, e));
    }
  }

  /** All bytes added at once, the `j`-th moved to where `j` bytes of steps bring it back from. */
  function Packed<W, B>(xor: (W, W) -> W, sh: (nat, B) -> W, s: W, data: seq<B>): W {
    if data == [] then s
    else xor(Packed(xor, sh, s, data[..|data| - 1]), sh(|data| - 1, data[|data| - 1]))
  }

  ghost predicate Moves<W(!new), B(!new)>(f: W -> W, emb: B -> W, sh: (nat, B) -> W, n: nat) {
    forall j: nat, b: B {:trigger sh(j, b)} :: j < n ==> Iter(f, 8 * j, sh(j, b)) == emb(b)
  }

  lemma {:induction false} FeedPacked<W(!new), B(!new)>(
    f: W -> W, xor: (W, W) -> W, emb: B -> W, sh: (nat, B) -> W, s: W, data: seq<B>, n: nat)
    requires Linear(f, xor) && Moves(f, emb, sh, n) && |data| <= n
    ensures Feed(f, xor, emb, s, data) == Iter(f, 8 * |data|, Packed(xor, sh, s, data))
    decreases |data|
  {
    if data != [] {
      var j := |data| - 1;
      var init, last := data[..j], data[j];
      FeedPacked(f, xor, emb, sh, s, init, n);
      FeedLast(f, xor, emb, s, data);
      var p := Packed(xor, sh, s, init);
      IterLinear(f, xor, 8 * j, p, sh(j, last));
      IterAdd(f, 8 * j, 8, xor(p, sh(j, last)));
    }
  }

  ghost predicate PackedApart<W(!new), B(!new)>(xor: (W, W) -> W, sh: (nat, B) -> W, n: nat) {
    forall s: W, u: seq<B>, v: seq<B> {:trigger Packed(xor, sh, s, u), Packed(xor, sh, s, v)} ::
      |u| == |v| <= n && Packed(xor, sh, s, u) == Packed(xor, sh, s, v) ==> u == v
  }

  /** Strings that differ within a window of at most `n` bytes only lead to different words. */
  lemma WindowDiffers<W(!new), B(!new)>(
    f: W -> W, g: W -> W, xor: (W, W) -> W, emb: B -> W, sh: (nat, B) -> W, n: nat, s: W,
    pre: seq<B>, u: seq<B>, v: seq<B>, post: seq<B>)
    requires Linear(f, xor) && Inverse(g, f) && Cancels(xor) && Moves(f, emb, sh, n) && PackedApart(xor, sh, n)
    requires |u| == |v| <= n && u != v
    ensures Feed(f, xor, emb, s, pre + u + post) != Feed(f, xor, emb, s, pre + v + post)
  {
    if Feed(f, xor, emb, s, pre + u + post) == Feed(f, xor, emb, s, pre + v + post) {
      FeedAppend(f, xor, emb, s, pre + u, post);
      FeedAppend(f, xor, emb, s, pre + v, post);
      FeedInjective(f, g, xor, emb, Feed(f, xor, emb, s, pre + u), Feed(f, xor, emb, s, pre + v), post);
      FeedAppend(f, xor, emb, s, pre, u);
      FeedAppend(f, xor, emb, s, pre, v);
      var t := Feed(f, xor, emb, s, pre);
      FeedPacked(f, xor, emb, sh, t, u, n);
      FeedPacked(f, xor, emb, sh, t, v, n);
      IterInjective(f, g, 8 * |u|, Packed(xor, sh, t, u), Packed(xor, sh, t, v));
    }
  }
}
