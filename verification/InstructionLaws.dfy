/** Laws of the OSMX64 instructions, independent of how they are computed. */
module InstructionLaws {
  import opened Arithmetic
  import opened Osmx64

  lemma WrapIs(q: int, r: int)
    requires 0 <= r < WORD_LIMIT
    ensures Wrap(q * WORD_LIMIT + r) == r
  {
  }

  /** One turn around the end of the register range. */
  lemma WrapOnce(x: int)
    requires 0 <= x + WORD_LIMIT < 3 * WORD_LIMIT
    ensures Wrap(x) == if x < 0 then x + WORD_LIMIT else if x < WORD_LIMIT then x else x - WORD_LIMIT
  {
    if x < 0 {
      WrapIs(-1, x + WORD_LIMIT);
    } else if x < WORD_LIMIT {
      WrapIs(0, x);
    } else {
      WrapIs(1, x - WORD_LIMIT);
    }
  }

  lemma UpAndDown(x: Reg, n: U16)
    ensures Wrap(Wrap(x + n) - n) == x && Wrap(Wrap(x - n) + n) == x
    ensures Wrap(x + n) == x + n <==> x + n < WORD_LIMIT
    ensures Wrap(x - n) == x - n <==> n <= x
  {
    WrapOnce(x + n);
    WrapOnce(x - n);
    WrapOnce(Wrap(x + n) - n);
    WrapOnce(Wrap(x - n) + n);
  }

  /** Adding and subtracting undo each other, around the end of the register range as well. */
  lemma AddSubLaw(x: Reg, imm: U16)
    ensures Value(Sub, Value(Add, x, imm), imm) == x && Value(Add, Value(Sub, x, imm), imm) == x
    ensures Value(Add, x, imm) == x + imm <==> x + imm < WORD_LIMIT
    ensures Value(Sub, x, imm) == x - imm <==> imm <= x
  {
    UpAndDown(x, imm);
  }

  lemma IncDecLaw(x: Reg)
    ensures Value(Dec, Value(Inc, x, 0), 0) == x && Value(Inc, Value(Dec, x, 0), 0) == x
    ensures Value(Inc, x, 0) == Value(Add, x, 1) && Value(Dec, x, 0) == Value(Sub, x, 1)
  {
    UpAndDown(x, 1);
  }

  /** A move is an addition to zero; instructions without effect on registers keep them. */
  lemma MovLaw(x: Reg, imm: U16)
    ensures Value(Mov, x, imm) == Value(Add, 0, imm) && Value(Sub, Value(Mov, x, imm), imm) == 0
    ensures x == Value(Nop, x, imm) == Value(Hlt, x, imm)
  {
    UpAndDown(0, imm);
  }

  /** Multiplying is repeated addition. */
  lemma MulLaw(x: Reg, imm: U16)
    ensures Value(Mul, x, 0) == 0
    ensures imm < 65535 ==> Value(Mul, x, imm + 1) == Wrap(Value(Mul, x, imm) + x)
  {
    assert x * (imm + 1) == x * imm + x;
    WrapAdd(x * imm, x);
  }

  lemma WrapAdd(a: int, b: int)
    ensures Wrap(Wrap(a) + b) == Wrap(a + b)
  {
  }

  /** A shift to the right of a multiple of the power and less than that. */
  lemma ShiftIs(q: nat, r: nat, n: nat)
    requires r < Pow2(n)
    ensures ShiftRight(q * Pow2(n) + r, n) == q
  {
    var x := q * Pow2(n) + r;
    ShiftCompare(x, q, n);
    ShiftCompare(x, q + 1, n);
    assert (q + 1) * Pow2(n) == q * Pow2(n) + Pow2(n);
  }

  lemma SplitWrap(x: int, p: nat, d: nat, q: nat, r: nat)
    requires d * p == WORD_LIMIT && x == q * d + r && r < d
    ensures Wrap(x * p) == r * p
  {
    Regroup(q, d, r, p);
    MulMono(r, d - 1, p);
    assert (d - 1) * p == d * p - p;
    WrapIs(q, r * p);
  }

  lemma SplitLeft(x: Reg, n: nat, q: nat, r: nat)
    requires n < 64 && x == q * Pow2(64 - n) + r && r < Pow2(64 - n)
    ensures ShiftedLeft(x, n) == r * Pow2(n)
  {
    Pow2Of64();
    Pow2Sum(64 - n, n);
    SplitWrap(x, Pow2(n), Pow2(64 - n), q, r);
  }

  lemma Regroup(q: int, d: int, r: int, p: int)
    ensures (q * d + r) * p == q * (d * p) + r * p
  {
    assert (q * d + r) * p == q * d * p + r * p;
  }

  /** A shift to the left and back drops exactly the high bits, one to the right and back exactly the low bits. */
  lemma ShiftLaw(x: Reg, n: U16)
    requires n < 64
    ensures Value(Lsr, Value(Lsl, x, n), n) == x % Pow2(64 - n)
    ensures Value(Lsl, Value(Lsr, x, n), n) == x - x % Pow2(n)
  {
    LeftRight(x, n);
    RightLeft(x, n);
  }

  lemma Split(x: nat, p: nat) returns (q: nat, r: nat)
    requires p > 0
    ensures x == q * p + r && r == x % p < p
  {
    QuotientBelow(x, p);
    q, r := x / p, x % p;
  }

  lemma LeftRight(x: Reg, n: U16)
    requires n < 64
    ensures Value(Lsr, Value(Lsl, x, n), n) == x % Pow2(64 - n)
  {
    var q, r := Split(x, Pow2(64 - n));
    SplitLeft(x, n, q, r);
    ShiftIs(r, 0, n);
  }

  lemma RightLeft(x: Reg, n: U16)
    requires n < 64
    ensures Value(Lsl, Value(Lsr, x, n), n) == x - x % Pow2(n)
  {
    var q, r := Split(x, Pow2(n));
    ShiftIs(q, r, n);
    WrapIs(0, q * Pow2(n));
  }

  lemma {:induction false} CombineBit(f: (bool, bool) -> bool, x: nat, y: nat, n: nat, i: nat)
    requires i < n
    ensures Bit(Combine(f, x, y, n), i) == f(Bit(x, i), Bit(y, i))
    decreases n
  {
    if i > 0 {
      CombineBit(f, x / 2, y / 2, n - 1, i - 1);
      ShiftHalf(Combine(f, x, y, n), i - 1);
      ShiftHalf(x, i - 1);
      ShiftHalf(y, i - 1);
    }
  }

  /** The logical instructions work on each bit of its own. */
  lemma LogicLaw(x: Reg, imm: U16, i: nat)
    requires i < 64
    ensures Bit(Value(And, x, imm), i) <==> Bit(x, i) && Bit(imm, i)
    ensures Bit(Value(Or, x, imm), i) <==> Bit(x, i) || Bit(imm, i)
    ensures Bit(Value(Xor, x, imm), i) <==> Bit(x, i) != Bit(imm, i)
  {
    CombineBit(Both, x, imm, 64, i);
    CombineBit(Either, x, imm, 64, i);
    CombineBit(OnlyOne, x, imm, 64, i);
  }

  lemma {:induction false} Toggle(x: nat, y: nat, n: nat)
    requires x < Pow2(n)
    ensures Combine(OnlyOne, Combine(OnlyOne, x, y, n), y, n) == x
    decreases n
  {
    if n > 0 { Toggle(x / 2, y / 2, n - 1); }
  }

  lemma XorLaw(x: Reg, imm: U16)
    ensures Value(Xor, Value(Xor, x, imm), imm) == x
  {
    Pow2Of64();
    Toggle(x, imm, 64);
  }

  lemma {:induction false} NoOnes(x: nat, n: nat)
    requires x < Pow2(n)
    ensures Combine(Either, x, 0, n) == x
    decreases n
  {
    if n > 0 { NoOnes(x / 2, n - 1); }
  }

  lemma EitherOdd(x: nat, p: nat, n: nat)
    requires n > 0 && p > 0
    ensures Combine(Either, x, 2 * p - 1, n) == 2 * Combine(Either, x / 2, p - 1, n - 1) + 1
  {
    assert (2 * p - 1) / 2 == p - 1 && (2 * p - 1) % 2 == 1;
  }

  /** All ones below, and `s` above. */
  predicate Ones(r: int, s: int, p: int) {
    r == s * p + p - 1
  }

  lemma OnesStep(s: int, p: int, c: int)
    requires Ones(c, s, p)
    ensures Ones(2 * c + 1, s, 2 * p)
  {
    DoubleProduct(s, p);
  }

  function SetLow(x: nat, k: nat): nat
    decreases k, x
  {
    if k == 0 then x else 2 * SetLow(x / 2, k - 1) + 1
  }

  lemma {:induction false} SetLowOnes(x: nat, k: nat)
    ensures Ones(SetLow(x, k), ShiftRight(x, k), Pow2(k))
    decreases k
  {
    if k > 0 {
      SetLowOnes(x / 2, k - 1);
      OnesStep(ShiftRight(x / 2, k - 1), Pow2(k - 1), SetLow(x / 2, k - 1));
    }
  }

  lemma {:induction false} LowOnes(x: nat, k: nat, n: nat)
    requires x < Pow2(n) && k <= n
    ensures Combine(Either, x, Pow2(k) - 1, n) == SetLow(x, k)
    decreases n
  {
    if k == 0 {
      NoOnes(x, n);
    } else {
      LowOnes(x / 2, k - 1, n - 1);
      EitherOdd(x, Pow2(k - 1), n);
    }
  }

  /** The lowest `k` bits set, and the rest kept. */
  lemma MaskSets(x: Reg, k: nat, p: nat)
    requires k <= 64 && p == Pow2(k) <= WORD_LIMIT
    ensures BitOr(x, p - 1) == x - x % p + (p - 1)
  {
    Pow2Of64();
    LowOnes(x, k, 64);
    SetLowOnes(x, k);
    var q, r := Split(x, Pow2(k));
    ShiftIs(q, r, k);
  }

  lemma ShortMasks(x: Reg)
    ensures BitOr(x, 0xFF) == x - x % 0x100 + 0xFF && BitOr(x, 0xFFFF) == x - x % 0x1_0000 + 0xFFFF
  {
    var n := 4;
    assert Pow2(n) == 16;
    Pow2Sum(n, n);
    Pow2Sum(n + n, n + n);
    MaskSets(x, n + n, 0x100);
    MaskSets(x, n + n + n + n, 0x1_0000);
  }

  lemma LongMasks(x: Reg)
    ensures BitOr(x, 0xFFFF_FFFF) == x - x % 0x1_0000_0000 + 0xFFFF_FFFF
    ensures BitOr(x, 0xFFFF_FFFF_FFFF_FFFF) == 0xFFFF_FFFF_FFFF_FFFF
  {
    Pow2Of32();
    Pow2Of64();
    MaskSets(x, 32, 0x1_0000_0000);
    MaskSets(x, 64, WORD_LIMIT);
  }

  /** A mask instruction sets the lowest 8, 16, 32 or 64 bits and keeps the rest; without the flag it does nothing. */
  lemma MaskLaw(x: Reg, imm: U16)
    ensures Value(Mrob, x, 1) == x - x % 0x100 + 0xFF
    ensures Value(Mrow, x, 1) == x - x % 0x1_0000 + 0xFFFF
    ensures Value(Mrod, x, 1) == x - x % 0x1_0000_0000 + 0xFFFF_FFFF
    ensures Value(Mroq, x, 1) == WORD_LIMIT - 1
    ensures imm != 1 ==> x == Value(Mrob, x, imm) == Value(Mrow, x, imm) == Value(Mrod, x, imm) == Value(Mroq, x, imm)
  {
    ShortMasks(x);
    LongMasks(x);
  }
}
