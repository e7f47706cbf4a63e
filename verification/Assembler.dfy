/** The back end of the assembler: a queue of tokens becomes instruction words. */
module Assembler {
  import opened Arithmetic
  import opened Osmx64

  /**
   * The words of the instruction that starts at token `i`, and the token after it, or -1 where the
   * encoder gives up.
   */
  function Encoding(ir: seq<Token>, i: nat): (r: (seq<Byte>, int))
    requires i < |ir|
    ensures r.1 == -1 || i < r.1 <= |ir|
  {
    if !ir[i].M? then ([], i + 1)
    else
      var m := ir[i].m;
      if Arity(m) == 0 then (Word(Instr(m, 0, 0)), i + 1)
      else if i + 1 >= |ir| || !ir[i + 1].X? then ([], -1)
      else if Arity(m) == 1 then (Word(Instr(m, ir[i + 1].n, 0)), i + 2)
      else if i + 2 >= |ir| || !ir[i + 2].Imm? then ([], -1)
      else (Word(Instr(m, ir[i + 1].n, ir[i + 2].v)), i + 3)
  }

  /** The output from token `i` on; it ends where an encoder gives up. */
  function Emitted(ir: seq<Token>, i: nat): seq<Byte>
    requires i <= |ir|
    decreases |ir| - i
  {
    if i == |ir| then []
    else
      var (word, next) := Encoding(ir, i);
      word + if next < 0 then [] else Emitted(ir, next)
  }

  class Emitter {
    const ir: seq<Token>
    var out: seq<Byte>

    constructor (tokens: seq<Token>)
      ensures ir == tokens && out == []
    {
      ir := tokens;
      out := [];
    }

    method EmitBytes(w: seq<Byte>)
      modifies this
      ensures out == old(out) + w
    {
      out := out + w;
    }

    /** `emit_encode_nop` and `emit_encode_hlt`: no operands. */
    method EncodePlain(i: nat) returns (next: int)
      requires i < |ir| && ir[i].M? && Arity(ir[i].m) == 0
      modifies this
      ensures (out, next) == (old(out) + Encoding(ir, i).0, Encoding(ir, i).1)
    {
      EmitBytes(Word(Instr(ir[i].m, 0, 0)));
      return i + 1;
    }

    /** `emit_encode_incdec` and `emit_encode_br`: a register. */
    method EncodeReg(i: nat) returns (next: int)
      requires i < |ir| && ir[i].M? && Arity(ir[i].m) == 1
      modifies this
      ensures (out, next) == (old(out) + Encoding(ir, i).0, Encoding(ir, i).1)
    {
      assert out + [] == out;
      if i + 1 >= |ir| || !ir[i + 1].X? {
        return -1;
      }
      EmitBytes(Word(Instr(ir[i].m, ir[i + 1].n, 0)));
      return i + 2;
    }

    /**
     * `emit_encode_mov`, `emit_encode_arith`, `emit_encode_bitw` and `emit_encode_mro`: a register
     * and an immediate value.
     */
    method EncodeRegImm(i: nat) returns (next: int)
      requires i < |ir| && ir[i].M? && Arity(ir[i].m) == 2
      modifies this
      ensures (out, next) == (old(out) + Encoding(ir, i).0, Encoding(ir, i).1)
    {
      assert out + [] == out;
      if i + 1 >= |ir| || !ir[i + 1].X? {
        return -1;
      }
      var rd := ir[i + 1].n;
      if i + 2 >= |ir| || !ir[i + 2].Imm? {
        return -1;
      }
      EmitBytes(Word(Instr(ir[i].m, rd, ir[i + 2].v)));
      return i + 3;
    }

    /** The dispatch in `emit_process`. */
    method EncodeAt(i: nat) returns (next: int)
      requires i < |ir|
      modifies this
      ensures out == old(out) + Encoding(ir, i).0 && next == Encoding(ir, i).1
    {
      var tok := ir[i];
      assert out + [] == out;
      if !tok.M? {
        next := i + 1;
      } else if tok.m == Nop || tok.m == Hlt {
        next := EncodePlain(i);
      } else if tok.m == Inc || tok.m == Dec || tok.m == Br {
        next := EncodeReg(i);
      } else {
        next := EncodeRegImm(i);
      }
    }

    /** `emit_process`. */
    method Process()
      modifies this
      ensures out == old(out) + Emitted(ir, 0)
    {
      var cur := 0;
      while 0 <= cur < |ir|
        invariant cur <= |ir|
        invariant old(out) + Emitted(ir, 0) == out + EmittedFrom(ir, cur)
        decreases if cur < 0 then 0 else |ir| - cur + 1
      {
        ghost var before, at := out, cur;
        cur := EncodeAt(cur);
        EmittedStep(ir, at);
        Regroup(before, Encoding(ir, at).0, EmittedFrom(ir, cur));
      }
      assert out + [] == out;
    }
  }

  /** The output from a token on, or none if there is no such token. */
  function EmittedFrom(ir: seq<Token>, i: int): seq<Byte>
    requires i <= |ir|
  {
    if i < 0 then [] else Emitted(ir, i)
  }

  lemma EmittedStep(ir: seq<Token>, i: nat)
    requires i < |ir|
    ensures Emitted(ir, i) == Encoding(ir, i).0 + EmittedFrom(ir, Encoding(ir, i).1)
  {
  }

  lemma Regroup<T>(a: seq<T>, b: seq<T>, c: seq<T>)
    ensures (a + b) + c == a + (b + c)
  {
  }

  lemma Prefix<T>(s: seq<T>, i: nat, a: seq<T>, b: seq<T>)
    requires i <= |s| && s[i..] == a + b
    ensures i + |a| <= |s| && s[i + |a|..] == b
    ensures forall k :: 0 <= k < |a| ==> s[i + k] == a[k]
  {
    assert |s[i..]| == |a| + |b|;
    forall k | 0 <= k < |a| ensures s[i + k] == a[k] { assert s[i..][k] == (a + b)[k]; }
    forall k | 0 <= k < |b| ensures s[i + |a| + k] == b[k] { assert s[i..][|a| + k] == (a + b)[|a| + k]; }
  }

  lemma SourceNext(prog: seq<Instr>)
    requires prog != []
    ensures Source(prog) == Tokens(prog[0]) + Source(prog[1..]) && Words(prog) == Word(prog[0]) + Words(prog[1..])
  {
  }

  /** If the tokens of `p` are at `j`, the output from there on is its word and the output after them. */
  ghost predicate StepAt(emitted: nat -> seq<Byte>, ir: seq<Token>, j: nat, p: Instr) {
    InstrOk(p) && j + |Tokens(p)| <= |ir| && (forall k :: 0 <= k < |Tokens(p)| ==> ir[j + k] == Tokens(p)[k]) ==>
      emitted(j) == Word(p) + emitted(j + |Tokens(p)|)
  }

  /** Any output that goes on so is the words of the program, one per instruction. */
  lemma {:induction false} StepsGiveWords(emitted: nat -> seq<Byte>, ir: seq<Token>, i: nat, prog: seq<Instr>)
    requires emitted(|ir|) == [] && forall j: nat, p {:trigger StepAt(emitted, ir, j, p)} :: StepAt(emitted, ir, j, p)
    requires forall k :: k in prog ==> InstrOk(k)
    requires i <= |ir| && ir[i..] == Source(prog)
    ensures emitted(i) == Words(prog)
    decreases |prog|
  {
    if prog != [] {
      var p := prog[0];
      SourceNext(prog);
      Prefix(ir, i, Tokens(p), Source(prog[1..]));
      assert StepAt(emitted, ir, i, p);
      StepsGiveWords(emitted, ir, i + |Tokens(p)|, prog[1..]);
    }
  }

  /** The output from each token on. */
  function Outputs(ir: seq<Token>): nat -> seq<Byte> {
    (j: nat) => if j <= |ir| then Emitted(ir, j) else []
  }

  lemma OutputStep(ir: seq<Token>, j: nat, p: Instr)
    ensures StepAt(Outputs(ir), ir, j, p)
  {
    if InstrOk(p) && j + |Tokens(p)| <= |ir| && forall k :: 0 <= k < |Tokens(p)| ==> ir[j + k] == Tokens(p)[k] {
      EncodesInstr(ir, j, p);
      EmittedNext(ir, j, Word(p), j + |Tokens(p)|);
    }
  }

  /** The tokens of a program, from any place in the queue, become its words in order, one per instruction. */
  lemma EmitsWords(ir: seq<Token>, i: nat, prog: seq<Instr>)
    requires forall k :: k in prog ==> InstrOk(k)
    requires i <= |ir| && ir[i..] == Source(prog)
    ensures Emitted(ir, i) == Words(prog)
  {
    var emitted := Outputs(ir);
    forall j: nat, p {:trigger StepAt(emitted, ir, j, p)} ensures StepAt(emitted, ir, j, p) { OutputStep(ir, j, p); }
    StepsGiveWords(emitted, ir, i, prog);
  }

  lemma EmittedNext(ir: seq<Token>, i: nat, word: seq<Byte>, next: nat)
    requires i < |ir| && next <= |ir| && Encoding(ir, i) == (word, next)
    ensures Emitted(ir, i) == word + Emitted(ir, next)
  {
  }

  lemma EncodesInstr(ir: seq<Token>, i: nat, p: Instr)
    requires InstrOk(p)
    requires i + |Tokens(p)| <= |ir| && forall k :: 0 <= k < |Tokens(p)| ==> ir[i + k] == Tokens(p)[k]
    ensures Encoding(ir, i) == (Word(p), i + |Tokens(p)|)
  {
    var n := |Tokens(p)|;
    assert ir[i + 0] == Tokens(p)[0];
    if n > 1 { assert ir[i + 1] == Tokens(p)[1]; }
    if n > 2 { assert ir[i + 2] == Tokens(p)[2]; }
  }

  /** Assembling the tokens of a program gives exactly its words. */
  method Assemble(prog: seq<Instr>) returns (image: seq<Byte>)
    requires forall k :: k in prog ==> InstrOk(k)
    ensures image == Words(prog)
  {
    var e := new Emitter(Source(prog));
    e.Process();
    assert e.ir[0..] == Source(prog);
    EmitsWords(e.ir, 0, prog);
    image := e.out;
  }
}
