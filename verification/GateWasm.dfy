/** From WebAssembly bytes to a value: an expression in the encoding of the WebAssembly
    specification, lowered and run, yields its value. */
module GateWasm {
  import opened Bits
  import opened GateIr
  import opened GateFrontend
  import opened GateCompile
  import opened GatePrograms

  /** `i32` expressions in the binary format of section 5.4 of the WebAssembly specification. */
  function Bytes(e: Expr): seq<byte>
  {
    match e
    case Lit(v) => [0x41] + EncodeS(if v < 0x8000_0000 then v else v - 0x1_0000_0000)
    case Local(i) => [0x20] + EncodeU(i)
    case Calc(op, l, r) => Bytes(l) + Bytes(r) + [Numeric(op)]
    case IsZero(x) => Bytes(x) + [0x45]
    case Peek(x, offset) => Bytes(x) + ([0x28] + (EncodeU(2) + EncodeU(offset)))
  }

  /** The opcodes i32.add, sub, mul, and, or, xor, shl, shr_u and lt_u. */
  function Numeric(op: Op): byte
  {
    match op
    case Add => 0x6a
    case Sub => 0x6b
    case Mul => 0x6c
    case And => 0x71
    case Or => 0x72
    case Xor => 0x73
    case Shl => 0x74
    case ShrU => 0x76
    case _ => 0x49
  }

  lemma {:induction false} AssembleAppend(a: seq<Inst>, b: seq<Inst>)
    ensures AssembleAll(a + b) == AssembleAll(a) + AssembleAll(b)
  {
    hide Assemble;
    if a == [] {
      assert a + b == b;
    } else {
      AssembleAppend(a[1..], b);
      assert (a + b)[1..] == a[1..] + b && (a + b)[0] == a[0];
      AssembleHead(a);
      AssembleHead(a + b);
      hide AssembleAll;
    }
  }

  lemma AssembleHead(code: seq<Inst>)
    requires code != []
    ensures AssembleAll(code) == Assemble(code[0]) + AssembleAll(code[1..])
  {
    hide Assemble;
  }

  lemma AssembleOne(i: Inst)
    ensures AssembleAll([i]) == Assemble(i)
  {
    hide Assemble;
    assert [i][1..] == [];
  }

  /** The bytes are those of the expression's code. */
  lemma {:induction false} BytesAreCode(e: Expr, nLocals: nat)
    requires Proper(e, nLocals)
    ensures AssembleAll(Code(e)) == Bytes(e)
  {
    hide AssembleAll, EncodeS, EncodeU;
    match e
    case Lit(v) => AssembleOne(Inst(Const, 0, v));
    case Local(i) => AssembleOne(Inst(LocalGet, i, 0));
    case Calc(op, l, r) =>
      NumericBytes(op);
      hide Assemble, Numeric;
      BytesAreCode(l, nLocals);
      BytesAreCode(r, nLocals);
      AssembleAppend(Code(l) + Code(r), [Inst(op, 0, 0)]);
      AssembleAppend(Code(l), Code(r));
      AssembleOne(Inst(op, 0, 0));
    case IsZero(x) =>
      BytesAreCode(x, nLocals);
      AssembleAppend(Code(x), [Inst(Eqz, 0, 0)]);
      AssembleOne(Inst(Eqz, 0, 0));
    case Peek(x, offset) =>
      BytesAreCode(x, nLocals);
      AssembleAppend(Code(x), [Inst(Load, 0, offset)]);
      AssembleOne(Inst(Load, 0, offset));
  }

  lemma NumericBytes(op: Op)
    requires IsBinary(op)
    ensures Assemble(Inst(op, 0, 0)) == [Numeric(op)]
  {
  }

  predicate AllPlain(code: seq<Inst>, nLocals: nat)
  {
    forall i | 0 <= i < |code| :: Plain(code[i], nLocals, true) && IsStraight(code[i].op)
  }

  lemma {:induction false} CodeIsPlain(e: Expr, nLocals: nat)
    requires Proper(e, nLocals)
    ensures AllPlain(Code(e), nLocals)
  {
    match e
    case Calc(op, l, r) =>
      CodeIsPlain(l, nLocals);
      CodeIsPlain(r, nLocals);
    case IsZero(x) => CodeIsPlain(x, nLocals);
    case Peek(x, _) => CodeIsPlain(x, nLocals);
    case _ =>
  }

  /** A body that is one expression is lowered to the expression's code. */
  lemma ExprLowers(e: Expr, rest: seq<byte>, nLocals: nat)
    requires Proper(e, nLocals) && nLocals <= 0x1_0000
    ensures DecodeBody(Bytes(e) + [0x0b] + rest, nLocals, true) == Some(Code(e) + [Inst(End, 0, 0)])
  {
    var code := Code(e) + [Inst(End, 0, 0)];
    CodeIsPlain(e, nLocals);
    BytesAreCode(e, nLocals);
    assert Plain(Inst(End, 0, 0), nLocals, true) && Assemble(Inst(End, 0, 0)) == [0x0b];
    assert forall i | 0 <= i < |code| :: Plain(code[i], nLocals, true) && code[i].a < 0x1_0000;
    hide Code, Bytes, Plain, AssembleAll, DecodeBody, Proper, Assemble;
    AssembleAppend(Code(e), [Inst(End, 0, 0)]);
    AssembleOne(Inst(End, 0, 0));
    LoweringInvertsIff(code, rest, nLocals, true);
  }

  /** The code of an expression as a module of its own. */
  function Alone(e: Expr, nLocals: nat, memSize: u32): Module
  {
    Module(Code(e) + [Inst(End, 0, 0)], nLocals, memSize, None, None, 0)
  }

  lemma {:induction false} AloneIsWhole(e: Expr, nLocals: nat, memSize: u32)
    ensures Whole(Skip, e, nLocals, memSize) == Alone(e, nLocals, memSize)
  {
    hide Code;
    assert Compiled(Skip, 0) + Code(e) == Code(e);
  }

  lemma {:induction false} SkipMeans(e: Expr, d: Data)
    requires Proper(e, |d.locals|) && !d.fault
    ensures ProperStmt(Skip, |d.locals|) && PeakStmt(Skip) == 0 && Meaning(Skip, d, 0) == Some(d)
    ensures Noted(d, e).fault == Misses(e, d.locals, d.mem)
  {
  }

  lemma {:induction false} AloneRuns(e: Expr, locals: seq<u32>, args: seq<u32>, mem: seq<byte>)
    requires Proper(e, |locals|) && Peak(e) < STACK_MAX && Initially(locals, args) && |mem| < 0x1_0000_0000
    ensures var m := Alone(e, |locals|, |mem|);
      && m.Shaped()
      && exists n: nat ::
           Run(m, Start(m, args, mem), n) == Done(Ok, Value(e, locals, mem), mem, Misses(e, locals, mem))
  {
    hide *;
    SkipMeans(e, Data(locals, mem, false));
    AloneIsWhole(e, |locals|, |mem|);
    WholeRuns(Skip, e, locals, args, mem, 0);
  }

  /** Lowered and run, the bytes of an expression yield its value. */
  lemma {:induction false} BytesToValue(e: Expr, rest: seq<byte>, locals: seq<u32>, args: seq<u32>, mem: seq<byte>)
    requires Proper(e, |locals|) && Peak(e) < STACK_MAX && |locals| <= 0x1_0000 && |mem| < 0x1_0000_0000
    requires Initially(locals, args)
    ensures var code := DecodeBody(Bytes(e) + [0x0b] + rest, |locals|, true);
      && code.Some?
      && var m := Module(code.value, |locals|, |mem|, None, None, 0);
      && m.Shaped()
      && exists n: nat ::
           Run(m, Start(m, args, mem), n) == Done(Ok, Value(e, locals, mem), mem, Misses(e, locals, mem))
  {
    hide Code, Bytes, DecodeBody, Proper, Run, Value, Misses, Peak, Start, Initially;
    ExprLowers(e, rest, |locals|);
    AloneRuns(e, locals, args, mem);
  }
}
