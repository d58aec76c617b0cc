/** What the machine computes, in numbers: the code of an expression leaves its value. */
module GateCompile {
  import opened Bits
  import opened Wire
  import opened GateIr

  // ----- expressions and their values

  datatype Expr =
    | Lit(v: u32)
    | Local(i: nat)
    | Calc(op: Op, l: Expr, r: Expr)
    | IsZero(e: Expr)
    | Peek(at: Expr, offset: u32)

  predicate Proper(e: Expr, nLocals: nat)
  {
    match e
    case Lit(_) => true
    case Local(i) => i < nLocals
    case Calc(op, l, r) => IsBinary(op) && Proper(l, nLocals) && Proper(r, nLocals)
    case IsZero(x) => Proper(x, nLocals)
    case Peek(x, _) => Proper(x, nLocals)
  }

  /** The operations as arithmetic modulo 2^32 and bit by bit. */
  function Apply(op: Op, x: u32, y: u32): u32
    requires IsBinary(op)
  {
    Pow2At32();
    ShiftedDown(x, y % 32);
    match op
    case Add => (x + y) % 0x1_0000_0000
    case Sub => (x - y) % 0x1_0000_0000
    case Mul => x * y % 0x1_0000_0000
    case And => Combined((a, b) => a && b, x, y, 32)
    case Or => Combined((a, b) => a || b, x, y, 32)
    case Xor => Combined((a, b) => a != b, x, y, 32)
    case Shl => x * Pow2(y % 32) % 0x1_0000_0000
    case ShrU => x / Pow2(y % 32)
    case _ => if x < y then 1 else 0
  }

  lemma ShiftedDown(x: u32, n: nat)
    ensures 0 <= x / Pow2(n) <= x
  {
    hide Pow2;
    NoLarger(x, Pow2(n));
  }

  lemma NoLarger(x: nat, p: nat)
    requires p >= 1
    ensures 0 <= x / p <= x
  {
    var q := x / p;
    assert x == p * q + x % p;
    if q > 0 {
      MulAtLeast(p, q);
    }
  }

  /** Four bytes at `a`, the first one the least significant, and 0 outside the memory. */
  function Fetched(mem: seq<byte>, a: nat): u32
  {
    if a + 4 <= |mem| then
      UnLeRoundTrip(mem[a..a + 4]);
      Pow256At(4);
      UnLe(mem[a..a + 4])
    else 0
  }

  function Value(e: Expr, locals: seq<u32>, mem: seq<byte>): u32
    requires Proper(e, |locals|)
  {
    match e
    case Lit(v) => v
    case Local(i) => locals[i]
    case Calc(op, l, r) => Apply(op, Value(l, locals, mem), Value(r, locals, mem))
    case IsZero(x) => if Value(x, locals, mem) == 0 then 1 else 0
    case Peek(x, offset) => Fetched(mem, (Value(x, locals, mem) + offset) % 0x1_0000_0000)
  }

  /** Some access of the expression lies outside the memory. */
  predicate Misses(e: Expr, locals: seq<u32>, mem: seq<byte>)
    requires Proper(e, |locals|)
  {
    match e
    case Lit(_) => false
    case Local(_) => false
    case Calc(_, l, r) => Misses(l, locals, mem) || Misses(r, locals, mem)
    case IsZero(x) => Misses(x, locals, mem)
    case Peek(x, offset) =>
      Misses(x, locals, mem) || (Value(x, locals, mem) + offset) % 0x1_0000_0000 + 4 > |mem|
  }

  /** The code, operands first. */
  function Code(e: Expr): (code: seq<Inst>)
    ensures |code| >= 1
  {
    match e
    case Lit(v) => [Inst(Const, 0, v)]
    case Local(i) => [Inst(LocalGet, i, 0)]
    case Calc(op, l, r) => Code(l) + Code(r) + [Inst(op, 0, 0)]
    case IsZero(x) => Code(x) + [Inst(Eqz, 0, 0)]
    case Peek(x, offset) => Code(x) + [Inst(Load, 0, offset)]
  }

  /** The most operands the code has on the stack at a time. */
  function Peak(e: Expr): (n: nat)
    ensures n >= 1
  {
    match e
    case Lit(_) => 1
    case Local(_) => 1
    case Calc(_, l, r) => if Peak(l) > 1 + Peak(r) then Peak(l) else 1 + Peak(r)
    case IsZero(x) => Peak(x)
    case Peek(x, _) => Peak(x)
  }

  // ----- the operations

  lemma {:induction false} ShiftLeftIs(x: u32, n: nat)
    ensures ShiftLeft(x, n) == x * Pow2(n) % 0x1_0000_0000
  {
    if n > 0 {
      ShiftLeftIs(x, n - 1);
      var p := Pow2(n - 1);
      assert Pow2(n) == 2 * p;
      hide Pow2, Wrap;
      DoubleWrapped(x * p);
      EvenShift(x, p, 2 * p);
      WrapIs(x * p);
      WrapIs(x * (2 * p));
    } else {
      assert Pow2(0) == 1;
    }
  }

  lemma WrapIs(z: int)
    ensures Wrap(z) == z % 0x1_0000_0000
  {
  }

  lemma DoubleWrapped(z: nat)
    ensures Wrap(2 * Wrap(z)) == Wrap(2 * z)
  {
    WrapShift(2 * Wrap(z), 2 * z, 2 * (z / 0x1_0000_0000));
  }

  lemma {:induction false} ShiftRightIs(x: u32, n: nat)
    ensures ShiftRight(x, n) == x / Pow2(n)
  {
    if n > 0 {
      ShiftRightIs(x, n - 1);
      HalveAgain(x, Pow2(n - 1));
    }
  }

  lemma HalveAgain(x: nat, p: nat)
    requires p >= 1
    ensures x / p / 2 == x / (2 * p)
  {
    var w := x / p;
    var q := w / 2;
    assert x == p * w + x % p && p * (2 * q) == q * (2 * p);
    if w % 2 == 0 {
      assert w == 2 * q;
      DivUnique(x, 2 * p, q, x % p);
    } else {
      assert w == 2 * q + 1 && p * (2 * q + 1) == p * (2 * q) + p;
      DivUnique(x, 2 * p, q, p + x % p);
    }
  }

  lemma ShiftCountIs(y: u32)
    ensures ShiftCount(y) == y % 32
  {
    assert IsPow2(32);
    MaskIsMod(32, y);
  }

  /** The executor's operations are these. */
  lemma BinaryIsApply(op: Op, x: u32, y: u32)
    requires IsBinary(op)
    ensures Binary(op, x, y) == Apply(op, x, y)
  {
    hide BitAnd, BitOr, BitXor, ShiftLeft, ShiftRight, ShiftCount, Combined, Pow2;
    Pow2At32();
    AndByBits(x, y, 32);
    OrByBits(x, y, 32);
    XorByBits(x, y, 32);
    ShiftCountIs(y);
    ShiftLeftIs(x, y % 32);
    ShiftRightIs(x, y % 32);
  }

  /** So are its loads. */
  lemma ReadIsFetched(mem: seq<byte>, a: nat)
    requires a + 4 <= |mem|
    ensures Read32(mem, a) == Fetched(mem, a)
  {
    var s := mem[a..a + 4];
    assert UnLe(s) == s[0] + 256 * UnLe(s[1..]);
    assert UnLe(s[1..]) == s[1] + 256 * UnLe(s[2..]) by { assert s[1..][1..] == s[2..]; }
    assert UnLe(s[2..]) == s[2] + 256 * UnLe(s[3..]) by { assert s[2..][1..] == s[3..]; }
    assert UnLe(s[3..]) == s[3] by { assert s[3..][1..] == []; }
  }

  // ----- running the code of an expression

  /** The code stands at `pc` in the module. */
  predicate Placed(m: Module, pc: nat, code: seq<Inst>)
  {
    pc + |code| <= |m.code| && m.code[pc..pc + |code|] == code
  }

  lemma PlacedSplit(m: Module, pc: nat, a: seq<Inst>, b: seq<Inst>)
    requires Placed(m, pc, a + b)
    ensures Placed(m, pc, a) && Placed(m, pc + |a|, b)
  {
    var all := m.code[pc..pc + |a + b|];
    assert all[..|a|] == a && all[|a|..] == b;
    assert m.code[pc..pc + |a|] == all[..|a|] && m.code[pc + |a|..pc + |a| + |b|] == all[|a|..];
  }

  lemma PlacedOne(m: Module, pc: nat, i: Inst)
    requires Placed(m, pc, [i])
    ensures pc < |m.code| && m.code[pc] == i
  {
    assert m.code[pc..pc + 1][0] == i;
  }

  /** A run goes on from where it stands. */
  lemma {:induction false} RunMore(m: Module, st: State, a: nat, b: nat)
    requires m.Shaped() && Run(m, st, a).Running?
    ensures Run(m, st, a + b) == Run(m, Run(m, st, a).st, b)
  {
    hide Step;
    if b > 0 {
      RunMore(m, st, a, b - 1);
    }
  }

  lemma RunOne(m: Module, st: State)
    requires m.Shaped()
    ensures Run(m, st, 1) == Step(m, st)
  {
    hide Step;
    assert Run(m, st, 0) == Running(st);
  }

  /** The run of `a` steps to `mid`, then one step to `o`. */
  lemma RunThenStep(m: Module, st: State, a: nat, mid: State, o: Outcome)
    requires m.Shaped() && Run(m, st, a) == Running(mid) && Step(m, mid) == o
    ensures Run(m, st, a + 1) == o
  {
    hide Step;
  }

  /** The state after `n` instructions that pushed `v`. */
  function Pushed(st: State, v: u32, n: nat, miss: bool): State
  {
    st.(stack := st.stack + [v], pc := st.pc + n, fault := st.fault || miss)
  }

  lemma {:induction false} StepLeaf(m: Module, e: Expr, st: State)
    requires m.Shaped() && (e.Lit? || e.Local?) && Proper(e, |st.locals|) && Placed(m, st.pc, Code(e))
    requires |st.stack| + 1 < STACK_MAX
    ensures Step(m, st) == Running(Pushed(st, Value(e, st.locals, st.mem), 1, false))
  {
    PlacedOne(m, st.pc, Code(e)[0]);
    hide Binary, DoLoad, DoStore, DoCall, Apply;
  }

  lemma StepCalc(m: Module, op: Op, st: State, s: seq<u32>, x: u32, y: u32)
    requires m.Shaped() && IsBinary(op) && st.stack == s + [x] + [y] && |st.stack| < STACK_MAX
    requires st.pc < |m.code| && m.code[st.pc] == Inst(op, 0, 0)
    ensures Step(m, st) == Running(st.(stack := s + [Apply(op, x, y)], pc := st.pc + 1))
  {
    BinaryIsApply(op, x, y);
    var n := |st.stack|;
    assert st.stack[n - 2] == x && st.stack[n - 1] == y && st.stack[..n - 2] == s;
    hide Binary, DoLoad, DoStore, DoCall, Apply;
  }

  lemma StepEqz(m: Module, st: State, s: seq<u32>, x: u32)
    requires m.Shaped() && st.stack == s + [x] && |st.stack| < STACK_MAX
    requires st.pc < |m.code| && m.code[st.pc] == Inst(Eqz, 0, 0)
    ensures Step(m, st) == Running(st.(stack := s + [if x == 0 then 1 else 0], pc := st.pc + 1))
  {
    hide Binary, DoLoad, DoStore, DoCall;
    assert st.stack[..|st.stack| - 1] == s;
  }

  lemma StepLoad(m: Module, st: State, s: seq<u32>, x: u32, offset: u32)
    requires m.Shaped() && st.stack == s + [x] && |st.stack| < STACK_MAX
    requires st.pc < |m.code| && m.code[st.pc] == Inst(Load, 0, offset)
    ensures var a := (x + offset) % 0x1_0000_0000;
      Step(m, st) == Running(st.(stack := s + [Fetched(st.mem, a)], pc := st.pc + 1,
                                 fault := st.fault || a + 4 > |st.mem|))
  {
    var a := (x + offset) % 0x1_0000_0000;
    if a + 4 <= |st.mem| {
      ReadIsFetched(st.mem, a);
    }
    assert st.stack[..|st.stack| - 1] == s;
    hide Binary, Read32, DoStore, DoCall, UnLe;
  }

  /** What an expression is made of. */
  lemma {:induction false} CalcParts(op: Op, l: Expr, r: Expr, locals: seq<u32>, mem: seq<byte>)
    requires Proper(Calc(op, l, r), |locals|)
    ensures var e := Calc(op, l, r);
      && IsBinary(op) && Proper(l, |locals|) && Proper(r, |locals|)
      && Code(e) == Code(l) + Code(r) + [Inst(op, 0, 0)] && Peak(e) >= Peak(l) && Peak(e) >= 1 + Peak(r)
      && Value(e, locals, mem) == Apply(op, Value(l, locals, mem), Value(r, locals, mem))
      && Misses(e, locals, mem) == (Misses(l, locals, mem) || Misses(r, locals, mem))
  {
    hide Apply, Fetched;
  }

  lemma {:induction false} UnaryParts(e: Expr, x: Expr, locals: seq<u32>, mem: seq<byte>)
    requires Proper(e, |locals|) && (e == IsZero(x) || (e.Peek? && e.at == x))
    ensures Proper(x, |locals|) && Peak(e) == Peak(x)
    ensures Code(e) == Code(x) + [if e.Peek? then Inst(Load, 0, e.offset) else Inst(Eqz, 0, 0)]
    ensures var v, hit := Value(x, locals, mem), Misses(x, locals, mem);
      if e.IsZero? then Value(e, locals, mem) == (if v == 0 then 1 else 0) && Misses(e, locals, mem) == hit
      else
        var a := (v + e.offset) % 0x1_0000_0000;
        Value(e, locals, mem) == Fetched(mem, a) && Misses(e, locals, mem) == (hit || a + 4 > |mem|)
  {
    hide Apply, Fetched;
  }

  /** Running the code of an expression pushes its value and changes nothing else but for the
      fault flag, which an access outside the memory sets. */
  lemma {:induction false} ExprRuns(m: Module, e: Expr, st: State)
    requires m.Shaped() && Proper(e, |st.locals|) && Placed(m, st.pc, Code(e)) && |st.stack| + Peak(e) < STACK_MAX
    ensures Run(m, st, |Code(e)|) ==
            Running(Pushed(st, Value(e, st.locals, st.mem), |Code(e)|, Misses(e, st.locals, st.mem)))
    decreases e, 1
  {
    match e
    case IsZero(x) =>
      hide *;
      UnaryRuns(m, e, x, st);
    case Peek(x, _) =>
      hide *;
      UnaryRuns(m, e, x, st);
    case Calc(op, l, r) =>
      hide *;
      CalcRuns(m, op, l, r, st);
    case _ =>
      hide Step, Run, Apply, Fetched, Placed;
      StepLeaf(m, e, st);
      RunOne(m, st);
  }

  lemma {:induction false} UnaryRuns(m: Module, e: Expr, x: Expr, st: State)
    requires m.Shaped() && Proper(e, |st.locals|) && Placed(m, st.pc, Code(e)) && |st.stack| + Peak(e) < STACK_MAX
    requires e == IsZero(x) || (e.Peek? && e.at == x)
    ensures Run(m, st, |Code(e)|) ==
            Running(Pushed(st, Value(e, st.locals, st.mem), |Code(e)|, Misses(e, st.locals, st.mem)))
    decreases e, 0
  {
    hide Step, Run, Apply, Fetched, Placed, Code, Peak, Value, Misses, Proper;
    UnaryParts(e, x, st.locals, st.mem);
    var n, last := |Code(x)|, if e.Peek? then Inst(Load, 0, e.offset) else Inst(Eqz, 0, 0);
    PlacedSplit(m, st.pc, Code(x), [last]);
    PlacedOne(m, st.pc + n, last);
    ExprRuns(m, x, st);
    var v := Value(x, st.locals, st.mem);
    var mid := Pushed(st, v, n, Misses(x, st.locals, st.mem));
    if e.Peek? {
      StepLoad(m, mid, st.stack, v, e.offset);
    } else {
      StepEqz(m, mid, st.stack, v);
    }
    RunThenStep(m, st, n, mid, Step(m, mid));
  }

  lemma {:induction false} CalcRuns(m: Module, op: Op, l: Expr, r: Expr, st: State)
    requires m.Shaped() && Proper(Calc(op, l, r), |st.locals|) && Placed(m, st.pc, Code(Calc(op, l, r)))
    requires |st.stack| + Peak(Calc(op, l, r)) < STACK_MAX
    ensures var e := Calc(op, l, r);
      Run(m, st, |Code(e)|) ==
      Running(Pushed(st, Value(e, st.locals, st.mem), |Code(e)|, Misses(e, st.locals, st.mem)))
    decreases Calc(op, l, r), 0
  {
    hide Step, Run, Apply, Fetched, Placed, Code, Peak, Value, Misses, Proper, IsBinary;
    CalcParts(op, l, r, st.locals, st.mem);
    var a, b, last := |Code(l)|, |Code(r)|, Inst(op, 0, 0);
    PlacedSplit(m, st.pc, Code(l) + Code(r), [last]);
    PlacedSplit(m, st.pc, Code(l), Code(r));
    PlacedOne(m, st.pc + a + b, last);
    var x, y := Value(l, st.locals, st.mem), Value(r, st.locals, st.mem);
    ExprRuns(m, l, st);
    var one := Pushed(st, x, a, Misses(l, st.locals, st.mem));
    ExprRuns(m, r, one);
    var two := Pushed(one, y, b, Misses(r, st.locals, st.mem));
    RunMore(m, st, a, b);
    StepCalc(m, op, two, st.stack, x, y);
    RunThenStep(m, st, a + b, two, Step(m, two));
  }

  // ----- without room the run is stopped

  lemma {:induction false} RunStays(m: Module, st: State, a: nat, b: nat)
    requires m.Shaped() && !Run(m, st, a).Running?
    ensures Run(m, st, a + b) == Run(m, st, a)
  {
    hide Step;
    if b > 0 {
      RunStays(m, st, a, b - 1);
    }
  }

  predicate Overflowed(o: Outcome)
  {
    o.Done? && o.status == RejectStack
  }

  lemma {:induction false} LeafOverflows(m: Module, e: Expr, st: State)
    requires m.Shaped() && (e.Lit? || e.Local?) && Proper(e, |st.locals|) && Placed(m, st.pc, Code(e))
    requires |st.stack| + 1 == STACK_MAX
    ensures Overflowed(Step(m, st))
  {
    PlacedOne(m, st.pc, Code(e)[0]);
    hide Binary, DoLoad, DoStore, DoCall, Apply;
  }

  /** The bound is exact: without that much room the run ends in a stack rejection. */
  lemma {:induction false} ExprOverflows(m: Module, e: Expr, st: State)
    requires m.Shaped() && Proper(e, |st.locals|) && Placed(m, st.pc, Code(e))
    requires |st.stack| < STACK_MAX <= |st.stack| + Peak(e)
    ensures Overflowed(Run(m, st, |Code(e)|))
    decreases e, 1
  {
    match e
    case IsZero(x) =>
      hide *;
      UnaryOverflows(m, e, x, st);
    case Peek(x, _) =>
      hide *;
      UnaryOverflows(m, e, x, st);
    case Calc(op, l, r) =>
      hide *;
      CalcOverflows(m, op, l, r, st);
    case _ =>
      hide Step, Run, Placed;
      LeafOverflows(m, e, st);
      RunOne(m, st);
  }

  lemma {:induction false} UnaryOverflows(m: Module, e: Expr, x: Expr, st: State)
    requires m.Shaped() && Proper(e, |st.locals|) && Placed(m, st.pc, Code(e))
    requires |st.stack| < STACK_MAX <= |st.stack| + Peak(e)
    requires e == IsZero(x) || (e.Peek? && e.at == x)
    ensures Overflowed(Run(m, st, |Code(e)|))
    decreases e, 0
  {
    hide Step, Run, Placed, Code, Peak, Value, Misses, Proper, Fetched;
    UnaryParts(e, x, st.locals, st.mem);
    PlacedSplit(m, st.pc, Code(x), [if e.Peek? then Inst(Load, 0, e.offset) else Inst(Eqz, 0, 0)]);
    ExprOverflows(m, x, st);
    RunStays(m, st, |Code(x)|, 1);
  }

  lemma {:induction false} CalcOverflows(m: Module, op: Op, l: Expr, r: Expr, st: State)
    requires m.Shaped() && Proper(Calc(op, l, r), |st.locals|) && Placed(m, st.pc, Code(Calc(op, l, r)))
    requires |st.stack| < STACK_MAX <= |st.stack| + Peak(Calc(op, l, r))
    ensures Overflowed(Run(m, st, |Code(Calc(op, l, r))|))
    decreases Calc(op, l, r), 0
  {
    PeakOf(op, l, r);
    hide Step, Run, Apply, Fetched, Placed, Code, Peak, Value, Misses, Proper, IsBinary;
    CalcParts(op, l, r, st.locals, st.mem);
    var a, b := |Code(l)|, |Code(r)|;
    PlacedSplit(m, st.pc, Code(l) + Code(r), [Inst(op, 0, 0)]);
    PlacedSplit(m, st.pc, Code(l), Code(r));
    if |st.stack| + Peak(l) >= STACK_MAX {
      ExprOverflows(m, l, st);
      RunStays(m, st, a, b + 1);
    } else {
      ExprRuns(m, l, st);
      ExprOverflows(m, r, Pushed(st, Value(l, st.locals, st.mem), a, Misses(l, st.locals, st.mem)));
      RunMore(m, st, a, b);
      RunStays(m, st, a + b, 1);
    }
  }

  lemma PeakOf(op: Op, l: Expr, r: Expr)
    ensures Peak(Calc(op, l, r)) == if Peak(l) > 1 + Peak(r) then Peak(l) else 1 + Peak(r)
  {
  }
}
