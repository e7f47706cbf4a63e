/** Machine words, powers of two and rounding to multiples. */
module Arithmetic {
  type Byte = x: int | 0 <= x < 256

  const WORD_LIMIT: nat := 0x1_0000_0000_0000_0000

  /** A 64-bit word, as `size_t` is. */
  type U64 = x: int | 0 <= x < 0x1_0000_0000_0000_0000

  /** What is left of a number in a 64-bit word. */
  function Wrap(x: int): U64 {
    x % WORD_LIMIT
  }

  function Pow2(n: nat): (p: nat)
    ensures p >= 1
  {
    if n == 0 then 1 else 2 * Pow2(n - 1)
  }

  lemma Pow2Next(n: nat)
    ensures Pow2(n + 1) == 2 * Pow2(n)
  {
  }

  lemma {:induction false} Pow2Mono(a: nat, b: nat)
    requires a <= b
    ensures Pow2(a) <= Pow2(b)
  {
    if a < b { Pow2Mono(a, b - 1); }
  }

  lemma {:induction false} Pow2Sum(a: nat, b: nat)
    ensures Pow2(a + b) == Pow2(a) * Pow2(b)
  {
    if b > 0 {
      Pow2Sum(a, b - 1);
      assert Pow2(a + b) == 2 * Pow2(a + b - 1);
      assert Pow2(b) == 2 * Pow2(b - 1);
      DoubleProduct(Pow2(a), Pow2(b - 1));
    }
  }

  lemma DoubleProduct(x: int, y: int)
    ensures 2 * (x * y) == x * (2 * y)
  {
  }

  lemma SquareMono(a: nat, b: nat)
    requires a <= b
    ensures a * a <= b * b
  {
    assert a * a <= a * b <= b * b;
  }

  lemma MulMono(a: int, b: int, p: nat)
    requires a <= b
    ensures a * p <= b * p
  {
  }

  /** The quotient decides how a multiple compares. */
  lemma QuotientCompare(n: nat, q: nat, p: nat)
    requires p > 0
    ensures n / p >= q <==> n >= q * p
  {
    var d := n / p;
    assert n == d * p + n % p;
    if d >= q {
      MulMono(q, d, p);
    } else {
      MulMono(d + 1, q, p);
      assert (d + 1) * p == d * p + p;
    }
  }

  /** The position of the highest one bit. */
  function Fls(n: nat): (f: nat)
    requires n > 0
    ensures Pow2(f) <= n < Pow2(f + 1)
  {
    if n == 1 then 0 else 1 + Fls(n / 2)
  }

  lemma FlsHalf(n: nat)
    requires n >= 2
    ensures Fls(n) == 1 + Fls(n / 2)
  {
  }

  lemma FlsUnique(n: nat, f: nat)
    requires n > 0 && Pow2(f) <= n < Pow2(f + 1)
    ensures Fls(n) == f
  {
    var g := Fls(n);
    if g < f { Pow2Mono(g + 1, f); }
    if f < g { Pow2Mono(f + 1, g); }
  }

  /** `x >> n`. */
  function ShiftRight(x: nat, n: nat): (r: nat)
    ensures r <= x
    decreases n
  {
    if n == 0 then x else ShiftRight(x / 2, n - 1)
  }

  lemma ShiftHalf(x: nat, n: nat)
    ensures ShiftRight(x, n + 1) == ShiftRight(x / 2, n)
  {
  }

  lemma {:induction false} ShiftCompare(x: nat, q: nat, n: nat)
    ensures ShiftRight(x, n) >= q <==> x >= q * Pow2(n)
  {
    if n > 0 {
      ShiftCompare(x / 2, q, n - 1);
      DoubleProduct(q, Pow2(n - 1));
    }
  }

  /** The largest multiple of `a` up to `x`, as `x - (x & (a - 1))` is for powers of two. */
  function AlignDown(x: nat, a: nat): (r: nat)
    requires a > 0
    ensures r <= x
  {
    if x < a then 0 else a + AlignDown(x - a, a)
  }

  /** The smallest multiple of `a` from `x` on, as `(x + a - 1) & ~(a - 1)` is for powers of two. */
  function AlignUp(x: nat, a: nat): (r: nat)
    requires a > 0
  {
    AlignDown(x + a - 1, a)
  }

  /** `align_up` on machine words. */
  function AlignUp64(x: U64, a: U64): U64
    requires a > 0
  {
    AlignDown(Wrap(x + a - 1), a)
  }

  /** `x` is a multiple of `a`; see `MultipleIff`. */
  predicate Multiple(x: nat, a: nat)
    requires a > 0
  {
    if x < a then x == 0 else Multiple(x - a, a)
  }

  lemma {:induction false} MultipleIff(x: nat, a: nat)
    requires a > 0
    ensures Multiple(x, a) <==> x % a == 0
    decreases x
  {
    if x >= a {
      MultipleIff(x - a, a);
      ModStep(x - a, a);
    }
  }

  lemma ModStep(x: nat, a: nat)
    requires a > 0
    ensures (x + a) % a == x % a
  {
    var q := x / a;
    assert x == q * a + x % a;
    assert (q + 1) * a == q * a + a;
    QuotientCompare(x + a, q + 1, a);
    QuotientCompare(x + a, q + 2, a);
    assert (q + 2) * a == q * a + a + a;
    assert (x + a) / a == q + 1;
  }

  lemma {:induction false} MultipleOf8(x: nat, a: nat)
    requires a > 0 && Multiple(x, a) && a % 8 == 0
    ensures x % 8 == 0
    decreases x
  {
    if x >= a {
      MultipleOf8(x - a, a);
      Sum8(x - a, a);
    }
  }

  lemma Sum8(x: nat, y: nat)
    requires x % 8 == 0 && y % 8 == 0
    ensures (x + y) % 8 == 0
  {
  }

  /** Multiples are at least `a` apart. */
  lemma {:induction false} MultiplesApart(x: nat, y: nat, a: nat)
    requires a > 0 && Multiple(x, a) && Multiple(y, a) && x < y
    ensures x + a <= y
    decreases x
  {
    if x >= a { MultiplesApart(x - a, y - a, a); }
  }

  lemma {:induction false} AlignDownBounds(x: nat, a: nat)
    requires a > 0
    ensures Multiple(AlignDown(x, a), a) && AlignDown(x, a) <= x < AlignDown(x, a) + a
    decreases x
  {
    if x >= a { AlignDownBounds(x - a, a); }
  }

  lemma AlignUpBounds(x: nat, a: nat)
    requires a > 0
    ensures Multiple(AlignUp(x, a), a) && x <= AlignUp(x, a) < x + a
  {
    AlignDownBounds(x + a - 1, a);
  }

  /** Multiples are left alone. */
  lemma {:induction false} AlignUpFixed(x: nat, a: nat)
    requires a > 0 && Multiple(x, a)
    ensures AlignUp(x, a) == x
    decreases x
  {
    if x >= a { AlignUpFixed(x - a, a); }
  }

  /** On machine words rounding up is what it should be exactly if the next boundary is not past the last word. */
  lemma AlignUp64Exact(x: U64, a: U64)
    requires a > 0
    ensures x + a <= WORD_LIMIT ==> AlignUp64(x, a) == AlignUp(x, a)
    ensures Multiple(AlignUp64(x, a), a) && (x <= AlignUp64(x, a) <==> x + a <= WORD_LIMIT)
  {
    AlignDownBounds(Wrap(x + a - 1), a);
    if x + a <= WORD_LIMIT { AlignUpBounds(x, a); }
  }

  /** Multiples do not change how the rest is rounded. */
  lemma {:induction false} AlignDownShift(x: nat, m: nat, a: nat)
    requires a > 0 && Multiple(m, a)
    ensures AlignDown(x + m, a) == AlignDown(x, a) + m
    decreases m
  {
    if m >= a { AlignDownShift(x, m - a, a); }
  }

  lemma AlignUpShift(x: nat, m: nat, a: nat)
    requires a > 0 && Multiple(m, a)
    ensures AlignUp(x + m, a) == AlignUp(x, a) + m
  {
    AlignDownShift(x + a - 1, m, a);
  }

  /** Rounding up on machine words is rounding up and then wrapping around, if the words are a multiple. */
  lemma AlignUp64Wraps(x: U64, a: U64)
    requires a > 0 && Multiple(WORD_LIMIT, a)
    ensures AlignUp64(x, a) == AlignUp(x, a) || AlignUp64(x, a) + WORD_LIMIT == AlignUp(x, a)
    ensures AlignUp64(x, a) < WORD_LIMIT
  {
    AlignDownBounds(Wrap(x + a - 1), a);
    if x + a > WORD_LIMIT { AlignDownShift(x + a - 1 - WORD_LIMIT, WORD_LIMIT, a); }
  }

  lemma {:induction false} MultiplePow2(e: nat, d: nat)
    ensures Multiple(Pow2(e + d), Pow2(e))
  {
    if d > 0 {
      MultiplePow2(e, d - 1);
      Pow2Next(e + d - 1);
      MultipleSum(Pow2(e + d - 1), Pow2(e + d - 1), Pow2(e));
    }
  }

  lemma {:induction false} MultipleSum(x: nat, y: nat, a: nat)
    requires a > 0 && Multiple(x, a) && Multiple(y, a)
    ensures Multiple(x + y, a)
    decreases x
  {
    if x >= a { MultipleSum(x - a, y, a); }
  }

  lemma Pow2Of32()
    ensures Pow2(32) == 0x1_0000_0000
  {
    assert Pow2(4) == 16;
    Pow2Sum(4, 4);
    Pow2Sum(8, 8);
    Pow2Sum(16, 16);
  }

  lemma Pow2Of64()
    ensures Pow2(62) == 0x4000_0000_0000_0000 && Pow2(63) == 0x8000_0000_0000_0000 && Pow2(64) == WORD_LIMIT
  {
    Pow2Of32();
    var n := 32;
    Pow2Sum(n, n);
    Pow2Next(n + n - 1);
    Pow2Next(n + n - 2);
  }

  lemma AlignDownFacts(x: nat, a: nat)
    requires a > 0
    ensures AlignDown(x, a) % a == 0 && AlignDown(x, a) <= x < AlignDown(x, a) + a
  {
    AlignDownBounds(x, a);
    MultipleIff(AlignDown(x, a), a);
  }

  lemma AlignUpFacts(x: nat, a: nat)
    requires a > 0
    ensures AlignUp(x, a) % a == 0 && x <= AlignUp(x, a) < x + a
  {
    AlignDownFacts(x + a - 1, a);
  }
}
