/** The OSMX64 instruction set: words, their meaning, and the tokens they are assembled from. */
module Osmx64 {
  import opened Arithmetic

  /** A 64-bit register. */
  type Reg = U64

  type RegNo = x: int | 0 <= x < 16

  type U16 = x: int | 0 <= x < 65536

  datatype Mnemonic =
    | Nop | Add | Sub | Mul | Div | Inc | Dec | Or | Xor | And | Mov | Hlt | Br
    | Mrob | Mrow | Mrod | Mroq | Lsr | Lsl

  function Code(m: Mnemonic): Byte {
    match m
    case Nop => 0x00
    case Add => 0x01
    case Sub => 0x02
    case Mul => 0x03
    case Div => 0x04
    case Inc => 0x05
    case Dec => 0x06
    case Or => 0x07
    case Xor => 0x08
    case And => 0x09
    case Mov => 0x0D
    case Hlt => 0x0E
    case Br => 0x0F
    case Mrob => 0x10
    case Mrow => 0x11
    case Mrod => 0x12
    case Mroq => 0x13
    case Lsr => 0x14
    case Lsl => 0x15
  }

  datatype Instr = Instr(m: Mnemonic, rd: RegNo, imm: U16)

  /** The number of operands: none, a register, or a register and an immediate value. */
  function Arity(m: Mnemonic): nat {
    match m
    case Nop => 0
    case Hlt => 0
    case Inc => 1
    case Dec => 1
    case Br => 1
    case _ => 2
  }

  /** Fields are zero where the instruction has no operand. */
  predicate InstrOk(i: Instr) {
    (Arity(i.m) < 1 ==> i.rd == 0) && (Arity(i.m) < 2 ==> i.imm == 0)
  }

  /** The instruction word as it is in memory: opcode, register, immediate value with its low byte first. */
  function Word(i: Instr): (w: seq<Byte>)
    ensures |w| == 4
  {
    [Code(i.m), i.rd, i.imm % 256, i.imm / 256]
  }

  function Words(prog: seq<Instr>): (w: seq<Byte>)
    ensures |w| == 4 * |prog|
  {
    if prog == [] then [] else Word(prog[0]) + Words(prog[1..])
  }

  // ---------- tokens ----------

  /** Tokens of other kinds, such as commas and labels, are skipped between instructions. */
  datatype Token = M(m: Mnemonic) | X(n: RegNo) | Imm(v: U16) | Other

  function Tokens(i: Instr): seq<Token> {
    [M(i.m)] + (if Arity(i.m) == 0 then [] else if Arity(i.m) == 1 then [X(i.rd)] else [X(i.rd), Imm(i.imm)])
  }

  function Source(prog: seq<Instr>): seq<Token> {
    if prog == [] then [] else Tokens(prog[0]) + Source(prog[1..])
  }

  // ---------- meaning ----------

  /** Bit `i` of a number. */
  predicate Bit(x: nat, i: nat) {
    ShiftRight(x, i) % 2 == 1
  }

  /** The lowest `n` bits of two numbers combined one by one. */
  function Combine(f: (bool, bool) -> bool, x: nat, y: nat, n: nat): (r: nat)
    ensures r < Pow2(n)
    decreases n, x
  {
    if n == 0 then 0
    else 2 * Combine(f, x / 2, y / 2, n - 1) + if f(x % 2 == 1, y % 2 == 1) then 1 else 0
  }

  predicate Both(a: bool, b: bool) {
    a && b
  }

  predicate Either(a: bool, b: bool) {
    a || b
  }

  predicate OnlyOne(a: bool, b: bool) {
    a != b
  }

  function BitAnd(x: Reg, y: Reg): Reg {
    Pow2Of64();
    Combine(Both, x, y, 64)
  }

  function BitOr(x: Reg, y: Reg): Reg {
    Pow2Of64();
    Combine(Either, x, y, 64)
  }

  function BitXor(x: Reg, y: Reg): Reg {
    Pow2Of64();
    Combine(OnlyOne, x, y, 64)
  }

  /** What an instruction makes of its register. */
  function Value(m: Mnemonic, x: Reg, imm: U16): Reg
    requires m == Div ==> imm > 0
  {
    match m
    case Mov => imm
    case Inc => Wrap(x + 1)
    case Dec => Wrap(x - 1)
    case Add => Wrap(x + imm)
    case Sub => Wrap(x - imm)
    case Mul => Wrap(x * imm)
    case Div => Divided(x, imm)
    case And => BitAnd(x, imm)
    case Or => BitOr(x, imm)
    case Xor => BitXor(x, imm)
    case Lsr => ShiftRight(x, imm)
    case Lsl => ShiftedLeft(x, imm)
    case Mrob => if imm == 1 then BitOr(x, 0xFF) else x
    case Mrow => if imm == 1 then BitOr(x, 0xFFFF) else x
    case Mrod => if imm == 1 then BitOr(x, 0xFFFF_FFFF) else x
    case Mroq => if imm == 1 then BitOr(x, 0xFFFF_FFFF_FFFF_FFFF) else x
    case _ => x
  }

  function ShiftedLeft(x: Reg, n: nat): Reg {
    Wrap(x * Pow2(n))
  }

  /** The test for zero looks at the lowest 16 bits of the dividend. */
  function Divided(x: Reg, imm: nat): Reg
    requires imm > 0
  {
    QuotientBelow(x, imm);
    if x % 65536 == 0 then x else x / imm
  }

  lemma QuotientBelow(x: nat, d: nat)
    requires d > 0
    ensures 0 <= x / d <= x && (x / d == x <==> x == 0 || d == 1)
  {
    QuotientCompare(x, 0, d);
    QuotientCompare(x, x, d);
    QuotientCompare(x, x + 1, d);
    MulMono(1, d, x + 1);
    if d > 1 { MulMono(2, d, x); }
  }

  /** So the quotient is right exactly if those bits are not all zero, or it makes no difference. */
  lemma DivideExact(x: Reg, imm: nat)
    requires imm > 0
    ensures Divided(x, imm) == x / imm <==> x % 65536 != 0 || x == 0 || imm == 1
  {
    QuotientBelow(x, imm);
  }

  /** 65536 divided by 2 is left alone. */
  lemma DivideInput()
    ensures Divided(65536, 2) == 65536 != 65536 / 2
  {
    assert 65536 % 65536 == 0;
  }

  /** What C leaves undefined is excluded: division by zero and shifts by the register width or more. */
  predicate Defined(i: Instr) {
    && (i.m == Div ==> i.imm > 0)
    && (i.m == Lsr || i.m == Lsl ==> i.imm < 64)
  }

  /** Register 0 always reads as zero. */
  function Meaning(i: Instr, regs: seq<Reg>): (r: seq<Reg>)
    requires Defined(i) && |regs| == 16
    ensures |r| == 16 && r[0] == regs[0]
  {
    if i.rd == 0 then regs else regs[i.rd := Value(i.m, regs[i.rd], i.imm)]
  }

  predicate Runs(prog: seq<Instr>) {
    forall i :: i in prog ==> InstrOk(i) && Defined(i) && i.m != Br
  }

  function Outcome(prog: seq<Instr>, regs: seq<Reg>): (r: seq<Reg>)
    requires Runs(prog) && |regs| == 16
    ensures |r| == 16 && r[0] == regs[0]
  {
    if prog == [] then regs else Meaning(prog[|prog| - 1], Outcome(prog[..|prog| - 1], regs))
  }
}
