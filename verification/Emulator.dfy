/** The emulator: fetch and execute until a halt. */
module Emulator {
  import opened Arithmetic
  import opened Osmx64
  import opened Assembler

  /** The words of a program, one after the other from address 0. */
  lemma {:induction false} WordAt(prog: seq<Instr>, k: nat)
    requires k < |prog|
    ensures Words(prog)[4 * k..4 * k + 4] == Word(prog[k])
  {
    var rest := Words(prog[1..]);
    if k > 0 {
      WordAt(prog[1..], k - 1);
      assert prog[1..][k - 1] == prog[k];
      assert (Word(prog[0]) + rest)[4 * k..4 * k + 4] == rest[4 * (k - 1)..4 * (k - 1) + 4];
    }
  }

  class Cpu {
    const xreg: array<Reg>
    var ip: nat

    ghost predicate Valid()
      reads this
    {
      xreg.Length == 16
    }

    /** `cpu_reset`: all registers are zero. */
    constructor ()
      ensures Valid() && fresh(xreg) && ip == 0 && xreg[..] == ZEROS
    {
      xreg := new Reg[16](_ => 0);
      ip := 0;
    }

    /** The dispatch of `cpu_kick` on an opcode other than a branch, with the instruction functions. */
    method Execute(opcode: Byte, rd: RegNo, imm: U16, ghost m: Mnemonic)
      requires Valid() && opcode == Code(m) && m != Br && Defined(Instr(m, rd, imm))
      modifies xreg
      ensures xreg[..] == old(xreg[..])[rd := Value(m, old(xreg[rd]), imm)]
    {
      var x := xreg[rd];
      if opcode == 0x07 || opcode == 0x08 || opcode == 0x09 {
        x := Bitwise(x, opcode, imm, m);
      } else if 0x10 <= opcode <= 0x13 {
        x := MaskReg(x, opcode, imm, m);
      } else {
        x := Arithmetic(x, opcode, imm, m);
      }
      xreg[rd] := x;
    }

    /**
     * `cpu_mov_imm`, `cpu_inc`, `cpu_dec`, `cpu_add`, `cpu_sub`, `cpu_mul`, `cpu_div` and
     * `cpu_lshift`; other opcodes do nothing.
     */
    method Arithmetic(x: Reg, opcode: Byte, imm: U16, ghost m: Mnemonic) returns (y: Reg)
      requires opcode == Code(m) && (m == Div ==> imm > 0)
      requires m != Or && m != Xor && m != And && m != Mrob && m != Mrow && m != Mrod && m != Mroq
      ensures y == Value(m, x, imm)
    {
      if opcode == 0x0D {
        return imm;
      } else if opcode == 0x05 {
        return Wrap(x + 1);
      } else if opcode == 0x06 {
        return Wrap(x - 1);
      } else if opcode == 0x01 {
        return Wrap(x + imm);
      } else if opcode == 0x02 {
        return Wrap(x - imm);
      } else if opcode == 0x03 {
        return Wrap(x * imm);
      } else if opcode == 0x04 {
        y := DivideReg(x, imm);
      } else if opcode == 0x15 {
        return ShiftedLeft(x, imm);
      } else if opcode == 0x14 {
        return ShiftRight(x, imm);
      } else {
        return x;
      }
    }

    /** `cpu_or`, `cpu_xor` and `cpu_and`. */
    method Bitwise(x: Reg, opcode: Byte, imm: U16, ghost m: Mnemonic) returns (y: Reg)
      requires opcode == Code(m) && (opcode == 0x07 || opcode == 0x08 || opcode == 0x09)
      ensures y == Value(m, x, imm)
    {
      if opcode == 0x07 {
        y := BitOr(x, imm);
      } else if opcode == 0x08 {
        y := BitXor(x, imm);
      } else {
        y := BitAnd(x, imm);
      }
    }

    /** `cpu_div`: nothing happens if the 16-bit copy of the dividend is zero. */
    method DivideReg(x: Reg, imm: U16) returns (y: Reg)
      requires imm > 0
      ensures y == Divided(x, imm)
    {
      var copy := x % 65536;
      if copy == 0 {
        return x;
      }
      QuotientBelow(x, imm);
      return x / imm;
    }

    /** `cpu_mro`: the mask is set if the immediate value is 1, and otherwise a mask of zero is cleared. */
    method MaskReg(x: Reg, opcode: Byte, imm: U16, ghost m: Mnemonic) returns (y: Reg)
      requires opcode == Code(m) && 0x10 <= opcode <= 0x13
      ensures y == Value(m, x, imm)
      ensures imm != 1 ==> y == x
    {
      if imm != 1 {
        return x;
      }
      var mask := if opcode == 0x10 then 0xFF else if opcode == 0x11 then 0xFFFF
                  else if opcode == 0x12 then 0xFFFF_FFFF else 0xFFFF_FFFF_FFFF_FFFF;
      return BitOr(x, mask);
    }

    /** An instruction other than a branch, and register 0 back to zero. */
    method Perform(opcode: Byte, rd: RegNo, imm: U16, ghost i: Instr)
      requires Valid() && xreg[0] == 0 && Defined(i) && i.m != Br && opcode == Code(i.m) && rd == i.rd && imm == i.imm
      modifies xreg
      ensures xreg[..] == Meaning(i, old(xreg[..]))
    {
      Execute(opcode, rd, imm, i.m);
      xreg[0] := 0;
    }

    /** The end of a round of `cpu_kick`: dispatch, and the instruction pointer unless it is a halt. */
    method Dispatch(opcode: Byte, rd: RegNo, imm: U16, ghost i: Instr) returns (stop: bool)
      requires Valid() && xreg[0] == 0 && ip < 512 && Defined(i) && InstrOk(i) && i.m != Br
      requires opcode == Code(i.m) && rd == i.rd && imm == i.imm
      modifies this, xreg
      ensures (stop <==> i.m == Hlt) && ip == (if stop then old(ip) else old(ip) + 4)
      ensures xreg[..] == Meaning(i, old(xreg[..]))
    {
      CodeOf(i.m);
      if opcode == 0x00 {
        ip := ip + 4;
        return false;
      }
      Perform(opcode, rd, imm, i);
      if opcode == 0x0E {
        return true;
      }
      if ip >= 512 {
        return true;
      }
      ip := ip + 4;
      return false;
    }

    /** One round of `cpu_kick`, at the `k`-th instruction. */
    method Cycle(mem: seq<Byte>, ghost prog: seq<Instr>, ghost k: nat) returns (stop: bool)
      requires Valid() && Straight(mem, prog) && k < |prog| && ip == 4 * k && xreg[0] == 0
      modifies this, xreg
      ensures Defined(prog[k]) && xreg[..] == Meaning(prog[k], old(xreg[..]))
      ensures (stop <==> k == |prog| - 1) && ip == if stop then 4 * k else 4 * (k + 1)
    {
      Fetched(mem, prog, k);
      stop := Dispatch(mem[ip], mem[ip + 1], Half(mem[ip + 2], mem[ip + 3]), prog[k]);
    }

    /**
     `cpu_kick` on a program without branches up to its first halt: it stops there, with the
     registers that the meanings of the instructions so far, one after the other, give.
     `trace` has the registers at each fetch.
     */
    method Kick(mem: seq<Byte>, ghost prog: seq<Instr>) returns (ghost trace: seq<seq<Reg>>)
      requires Valid() && ip == 0 && xreg[..] == ZEROS && Loaded(mem, prog)
      modifies this, xreg
      ensures ip == 4 * FirstHalt(prog) && xreg[..] == Outcome(UpToHalt(prog), ZEROS)
      ensures |trace| == FirstHalt(prog) + 1
      ensures forall k :: 0 <= k < |trace| ==> trace[k] == After(UpToHalt(prog), k) && trace[k][0] == 0
    {
      StraightPart(mem, prog);
      trace := Rounds(mem, UpToHalt(prog));
    }

    /** The loop of `cpu_kick`; only the last instruction of `prog` is a halt. */
    method Rounds(mem: seq<Byte>, ghost prog: seq<Instr>) returns (ghost trace: seq<seq<Reg>>)
      requires Valid() && ip == 0 && xreg[..] == ZEROS && Straight(mem, prog)
      modifies this, xreg
      ensures ip == 4 * (|prog| - 1) && xreg[..] == Outcome(prog, ZEROS)
      ensures |trace| == |prog| && forall k :: 0 <= k < |prog| ==> trace[k] == After(prog, k)
    {
      ghost var k := 0;
      trace := [];
      assert prog[..0] == [] && prog[..|prog|] == prog;
      var stop := false;
      while !stop
        invariant Valid() && 0 <= k <= |prog| && (stop <==> k == |prog|)
        invariant ip == (if stop then 4 * (k - 1) else 4 * k) && xreg[..] == After(prog, k)
        invariant |trace| == k && forall j :: 0 <= j < k ==> trace[j] == After(prog, j)
        decreases |prog| - k
      {
        trace := trace + [xreg[..]];
        assert xreg[0] == xreg[..][0];
        stop := Cycle(mem, prog, k);
        OutcomeNext(prog, k);
        k := k + 1;
      }
    }
  }

  const ZEROS: seq<Reg> := [0, 0, 0, 0, 0, 0, 0, 0, 0, 0, 0, 0, 0, 0, 0, 0]

  /** The registers after the first `k` instructions, from reset. */
  function After(prog: seq<Instr>, k: nat): (r: seq<Reg>)
    requires Runs(prog) && k <= |prog|
    ensures |r| == 16 && r[0] == 0
  {
    Outcome(prog[..k], ZEROS)
  }

  /** The place of the first halt, or the length of the program. */
  function FirstHalt(prog: seq<Instr>): (h: nat)
    ensures h <= |prog| && (h < |prog| ==> prog[h].m == Hlt)
    ensures forall k :: 0 <= k < h ==> prog[k].m != Hlt
  {
    if prog == [] || prog[0].m == Hlt then 0 else 1 + FirstHalt(prog[1..])
  }

  /** The instructions up to and including the first halt. */
  function UpToHalt(prog: seq<Instr>): seq<Instr> {
    var h := FirstHalt(prog);
    if h < |prog| then prog[..h + 1] else prog
  }

  /** There is a halt, and up to it no branch and nothing undefined. */
  predicate Halts(prog: seq<Instr>) {
    FirstHalt(prog) < |prog| && Runs(UpToHalt(prog))
  }

  /** A program that halts is in memory. */
  ghost predicate Loaded(mem: seq<Byte>, prog: seq<Instr>) {
    Halts(prog) && 4 * |prog| <= |mem| <= 512 && mem[..4 * |prog|] == Words(prog)
  }

  lemma {:induction false} WordsPrefix(prog: seq<Instr>, n: nat)
    requires n <= |prog|
    ensures Words(prog)[..4 * n] == Words(prog[..n])
  {
    if n > 0 {
      WordsPrefix(prog[1..], n - 1);
      assert prog[1..][..n - 1] == prog[..n][1..];
      assert (Word(prog[0]) + Words(prog[1..]))[..4 * n] == Word(prog[0]) + Words(prog[1..])[..4 * (n - 1)];
    }
  }

  lemma StraightPart(mem: seq<Byte>, prog: seq<Instr>)
    requires Loaded(mem, prog)
    ensures Straight(mem, UpToHalt(prog)) && |UpToHalt(prog)| == FirstHalt(prog) + 1
  {
    var n := FirstHalt(prog) + 1;
    WordsPrefix(prog, n);
    assert mem[..4 * n] == mem[..4 * |prog|][..4 * n];
  }

  /** A program without branches whose last instruction is its only halt is in memory. */
  ghost predicate Straight(mem: seq<Byte>, prog: seq<Instr>) {
    && Runs(prog) && prog != [] && prog[|prog| - 1].m == Hlt
    && (forall k :: 0 <= k < |prog| - 1 ==> prog[k].m != Hlt)
    && 4 * |prog| <= |mem| <= 512 && mem[..4 * |prog|] == Words(prog)
  }

  /** What a round needs to know about the instruction it fetches. */
  lemma Fetched(mem: seq<Byte>, prog: seq<Instr>, k: nat)
    requires Straight(mem, prog) && k < |prog|
    ensures var i, p := prog[k], 4 * k;
      && InstrOk(i) && Defined(i) && i.m != Br && (i.m == Hlt <==> k == |prog| - 1)
      && p + 4 <= |mem| <= 512 && mem[p] == Code(i.m) && mem[p + 1] == i.rd && Half(mem[p + 2], mem[p + 3]) == i.imm
  {
    assert prog[k] in prog;
    Fetch(mem, prog, k);
  }

  lemma OutcomeNext(prog: seq<Instr>, k: nat)
    requires Runs(prog) && k < |prog|
    ensures prog[k] in prog && After(prog, k + 1) == Meaning(prog[k], After(prog, k))
  {
    assert prog[..k + 1][..k] == prog[..k];
  }

  /** A 16-bit field with its low byte first. */
  function Half(lo: Byte, hi: Byte): U16 {
    var l: int, h: int := lo, hi;
    l + 256 * h
  }

  lemma CodeOf(m: Mnemonic)
    ensures (Code(m) == 0x00 <==> m == Nop) && (Code(m) == 0x0E <==> m == Hlt)
  {
  }

  /** What is fetched is the instruction assembled there. */
  lemma Fetch(mem: seq<Byte>, prog: seq<Instr>, k: nat)
    requires k < |prog| && 4 * |prog| <= |mem| && mem[..4 * |prog|] == Words(prog)
    ensures var i := prog[k]; var p := 4 * k;
      mem[p] == Code(i.m) && mem[p + 1] == i.rd && Half(mem[p + 2], mem[p + 3]) == i.imm
  {
    WordAt(prog, k);
    Four(mem, Words(prog), 4 * k, Word(prog[k]));
    WordFields(prog[k], Word(prog[k]));
  }

  lemma WordFields(i: Instr, w: seq<Byte>)
    requires w == Word(i)
    ensures |w| == 4 && w[0] == Code(i.m) && w[1] == i.rd && Half(w[2], w[3]) == i.imm
  {
  }

  lemma Four(mem: seq<Byte>, words: seq<Byte>, p: nat, w: seq<Byte>)
    requires |words| <= |mem| && mem[..|words|] == words && p + 4 <= |words| && words[p..p + 4] == w
    ensures |w| == 4 && mem[p] == w[0] && mem[p + 1] == w[1] && mem[p + 2] == w[2] && mem[p + 3] == w[3]
  {
    assert words[p] == mem[..|words|][p] && words[p + 1] == mem[..|words|][p + 1];
    assert words[p + 2] == mem[..|words|][p + 2] && words[p + 3] == mem[..|words|][p + 3];
  }

  /** Assembled and run: the registers in the end are those the program means up to its first halt. */
  method Run(prog: seq<Instr>) returns (cpu: Cpu, ghost trace: seq<seq<Reg>>)
    requires (forall i :: i in prog ==> InstrOk(i)) && Halts(prog) && |prog| <= 128
    ensures cpu.ip == 4 * FirstHalt(prog) && cpu.xreg[..] == Outcome(UpToHalt(prog), ZEROS)
    ensures |trace| == FirstHalt(prog) + 1
    ensures forall k :: 0 <= k < |trace| ==> |trace[k]| == 16 && trace[k][0] == 0
  {
    var image := Assemble(prog);
    cpu := new Cpu();
    assert image[..4 * |prog|] == image;
    trace := cpu.Kick(image, prog);
  }
}
