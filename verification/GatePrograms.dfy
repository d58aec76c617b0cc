/** Structured programs on the machine: the code of a program has the program's meaning. */
module GatePrograms {
  import opened Bits
  import opened Wire
  import opened GateIr
  import opened GateCompile

  datatype Stmt =
    | Skip
    | Set(i: nat, e: Expr)
    | Poke(at: Expr, offset: u32, e: Expr)
    | Discard(e: Expr)
    | Then(s: Stmt, t: Stmt)
    | If(c: Expr, s: Stmt, t: Stmt)
    | While(c: Expr, s: Stmt)

  predicate ProperStmt(s: Stmt, nLocals: nat)
  {
    match s
    case Skip => true
    case Set(i, e) => i < nLocals && Proper(e, nLocals)
    case Poke(at, _, e) => Proper(at, nLocals) && Proper(e, nLocals)
    case Discard(e) => Proper(e, nLocals)
    case Then(s, t) => ProperStmt(s, nLocals) && ProperStmt(t, nLocals)
    case If(c, s, t) => Proper(c, nLocals) && ProperStmt(s, nLocals) && ProperStmt(t, nLocals)
    case While(c, s) => Proper(c, nLocals) && ProperStmt(s, nLocals)
  }

  /** What a program works on. */
  datatype Data = Data(locals: seq<u32>, mem: seq<byte>, fault: bool)

  function Noted(d: Data, e: Expr): Data
    requires Proper(e, |d.locals|)
  {
    d.(fault := d.fault || Misses(e, d.locals, d.mem))
  }

  function Put(d: Data, a: nat, v: u32): Data
  {
    if a + 4 <= |d.mem| then d.(mem := d.mem[..a] + Le(v, 4) + d.mem[a + 4..]) else d.(fault := true)
  }

  /** The program's effect, given that no loop goes round more than `fuel` times in all. */
  function Meaning(s: Stmt, d: Data, fuel: nat): (r: Option<Data>)
    requires ProperStmt(s, |d.locals|)
    ensures r.Some? ==> |r.value.locals| == |d.locals|
    decreases fuel, s
  {
    match s
    case Skip => Some(d)
    case Set(i, e) => Some(Noted(d, e).(locals := d.locals[i := Value(e, d.locals, d.mem)]))
    case Poke(at, offset, e) =>
      var a := (Value(at, d.locals, d.mem) + offset) % 0x1_0000_0000;
      Some(Put(Noted(Noted(d, at), e), a, Value(e, d.locals, d.mem)))
    case Discard(e) => Some(Noted(d, e))
    case Then(s, t) =>
      var r := Meaning(s, d, fuel);
      if r.None? then None else Meaning(t, r.value, fuel)
    case If(c, s, t) => Meaning(if Value(c, d.locals, d.mem) != 0 then s else t, Noted(d, c), fuel)
    case While(c, b) =>
      if Value(c, d.locals, d.mem) == 0 then Some(Noted(d, c))
      else if fuel == 0 then None
      else
        var r := Meaning(b, Noted(d, c), fuel - 1);
        if r.None? then None else Meaning(s, r.value, fuel - 1)
  }

  function Size(s: Stmt): nat
  {
    match s
    case Skip => 0
    case Set(_, e) => |Code(e)| + 1
    case Poke(at, _, e) => |Code(at)| + |Code(e)| + 1
    case Discard(e) => |Code(e)| + 1
    case Then(s, t) => Size(s) + Size(t)
    case If(c, s, t) => |Code(c)| + Size(s) + Size(t) + 2
    case While(c, s) => |Code(c)| + Size(s) + 3
  }

  /** The code, with its first instruction at `pc`. */
  function Compiled(s: Stmt, pc: nat): (code: seq<Inst>)
    ensures |code| == Size(s)
  {
    match s
    case Skip => []
    case Set(i, e) => Code(e) + [Inst(LocalSet, i, 0)]
    case Poke(at, offset, e) => Code(at) + Code(e) + [Inst(Store, 0, offset)]
    case Discard(e) => Code(e) + [Inst(Drop, 0, 0)]
    case Then(s, t) => Compiled(s, pc) + Compiled(t, pc + Size(s))
    case If(c, s, t) =>
      var n := |Code(c)| + Size(t) + 2;
      Code(c) + [Inst(BrIf, pc + n, 0)]
      + (Compiled(t, pc + |Code(c)| + 1) + [Inst(Br, pc + n + Size(s), 0)] + Compiled(s, pc + n))
    case While(c, b) =>
      Code(c) + [Inst(Eqz, 0, 0), Inst(BrIf, pc + Size(s), 0)]
      + (Compiled(b, pc + |Code(c)| + 2) + [Inst(Br, pc, 0)])
  }

  function PeakStmt(s: Stmt): nat
  {
    match s
    case Skip => 0
    case Set(_, e) => Peak(e)
    case Poke(at, _, e) => Peak(Calc(Add, at, e))
    case Discard(e) => Peak(e)
    case Then(s, t) => Max(PeakStmt(s), PeakStmt(t))
    case If(c, s, t) => Max(Peak(c), Max(PeakStmt(s), PeakStmt(t)))
    case While(c, s) => Max(Peak(c), PeakStmt(s))
  }

  function Max(a: nat, b: nat): nat
  {
    if a > b then a else b
  }

  // ----- single steps

  /** The machine's state at `pc`. */
  function Place(stack: seq<u32>, pc: nat, d: Data): State
  {
    State(stack, d.locals, pc, d.mem, d.fault)
  }

  lemma {:induction false} EvalAt(m: Module, e: Expr, stack: seq<u32>, pc: nat, d: Data)
    requires m.Shaped() && Proper(e, |d.locals|) && Placed(m, pc, Code(e)) && |stack| + Peak(e) < STACK_MAX
    ensures Run(m, Place(stack, pc, d), |Code(e)|) ==
            Running(Place(stack + [Value(e, d.locals, d.mem)], pc + |Code(e)|, Noted(d, e)))
  {
    hide Run, Value, Misses, Code, Peak, Proper, Placed;
    ExprRuns(m, e, Place(stack, pc, d));
  }

  lemma PopBack(stack: seq<u32>, v: u32)
    ensures (stack + [v])[..|stack|] + [] == stack
  {
  }

  lemma StepSet(m: Module, i: nat, stack: seq<u32>, v: u32, pc: nat, d: Data)
    requires m.Shaped() && |stack| + 1 < STACK_MAX && i < |d.locals| && Placed(m, pc, [Inst(LocalSet, i, 0)])
    ensures Step(m, Place(stack + [v], pc, d)) == Running(Place(stack, pc + 1, d.(locals := d.locals[i := v])))
  {
    PlacedOne(m, pc, Inst(LocalSet, i, 0));
    PopBack(stack, v);
    hide Binary, DoLoad, DoStore, DoCall;
  }

  lemma StepDrop(m: Module, stack: seq<u32>, v: u32, pc: nat, d: Data)
    requires m.Shaped() && |stack| + 1 < STACK_MAX && Placed(m, pc, [Inst(Drop, 0, 0)])
    ensures Step(m, Place(stack + [v], pc, d)) == Running(Place(stack, pc + 1, d))
  {
    PlacedOne(m, pc, Inst(Drop, 0, 0));
    PopBack(stack, v);
    hide Binary, DoLoad, DoStore, DoCall;
  }

  lemma StepBr(m: Module, to: nat, stack: seq<u32>, pc: nat, d: Data)
    requires m.Shaped() && |stack| < STACK_MAX && Placed(m, pc, [Inst(Br, to, 0)])
    ensures Step(m, Place(stack, pc, d)) == Running(Place(stack, to, d))
  {
    PlacedOne(m, pc, Inst(Br, to, 0));
    hide Binary, DoLoad, DoStore, DoCall;
  }

  lemma StepBrIf(m: Module, to: nat, stack: seq<u32>, v: u32, pc: nat, d: Data)
    requires m.Shaped() && |stack| + 1 < STACK_MAX && Placed(m, pc, [Inst(BrIf, to, 0)])
    ensures Step(m, Place(stack + [v], pc, d)) == Running(Place(stack, if v != 0 then to else pc + 1, d))
  {
    PlacedOne(m, pc, Inst(BrIf, to, 0));
    PopBack(stack, v);
    hide Binary, DoLoad, DoStore, DoCall;
  }

  /** An indirect call pops the index and goes on at that table entry; outside the table, or with
      another type id, it traps. */
  lemma StepCall(m: Module, id: nat, stack: seq<u32>, x: u32, pc: nat, d: Data)
    requires m.Shaped() && |stack| + 1 < STACK_MAX && Placed(m, pc, [Inst(CallIndirect, id, 0)])
    ensures var there := m.table.Some? && x < m.tableLen && (m.tableTypes.Some? ==> m.tableTypes.value[x] == id);
      Step(m, Place(stack + [x], pc, d)) ==
      if there then Running(Place(stack, m.table.value[x], d)) else Done(Trap, 0, d.mem, d.fault)
  {
    PlacedOne(m, pc, Inst(CallIndirect, id, 0));
    PopBack(stack, x);
    hide Binary, DoLoad, DoStore;
  }

  /** Addition, subtraction and multiplication as the `int32_t` operations of the source: second
      operand and top, in that order, where the result fits. */
  lemma StepSigned(m: Module, op: Op, stack: seq<u32>, x: u32, y: u32, pc: nat, d: Data)
    requires m.Shaped() && (op.Add? || op.Sub? || op.Mul?) && |stack| + 2 < STACK_MAX
    requires Placed(m, pc, [Inst(op, 0, 0)])
    ensures var o := Step(m, Place(stack + [x] + [y], pc, d));
      && o.Running? && o.st.stack != [] && o.st.stack[..|o.st.stack| - 1] == stack
      && (FitsInt32(Exact(op, x, y)) ==> Signed(o.st.stack[|o.st.stack| - 1]) == Exact(op, x, y))
  {
    PlacedOne(m, pc, Inst(op, 0, 0));
    hide Step, Apply, Binary, Exact;
    StepCalc(m, op, Place(stack + [x] + [y], pc, d), stack, x, y);
    BinaryIsApply(op, x, y);
    WordIsExactIff(op, x, y);
  }

  /** A store leaves the four bytes of the number, the least significant first. */
  lemma WriteIsPut(mem: seq<byte>, a: nat, v: u32)
    requires a + 4 <= |mem|
    ensures Write32(mem, a, v) == mem[..a] + Le(v, 4) + mem[a + 4..]
  {
    FourBytes(v);
    hide Le;
    var r, s := Write32(mem, a, v), mem[..a] + Le(v, 4) + mem[a + 4..];
    assert |r| == |s|;
    assert forall i | 0 <= i < |r| :: r[i] == s[i];
  }

  lemma FourBytes(v: u32)
    ensures Le(v, 4) == [v % 0x100, v / 0x100 % 0x100, v / 0x1_0000 % 0x100, v / 0x100_0000]
  {
    var a := v / 0x100;
    var b := a / 0x100;
    var c := b / 0x100;
    assert b == v / 0x1_0000 && c == v / 0x100_0000 && c < 0x100;
    assert Le(v, 4) == [v % 0x100] + Le(a, 3);
    assert Le(a, 3) == [a % 0x100] + Le(b, 2);
    assert Le(b, 2) == [b % 0x100] + Le(c, 1);
    assert Le(c, 1) == [c % 0x100] + Le(c / 0x100, 0);
  }

  lemma StepStore(m: Module, offset: u32, stack: seq<u32>, x: u32, v: u32, pc: nat, d: Data)
    requires m.Shaped() && |stack| + 2 < STACK_MAX && Placed(m, pc, [Inst(Store, 0, offset)])
    ensures Step(m, Place(stack + [x] + [v], pc, d)) ==
            Running(Place(stack, pc + 1, Put(d, (x + offset) % 0x1_0000_0000, v)))
  {
    PlacedOne(m, pc, Inst(Store, 0, offset));
    var s, a := stack + [x] + [v], (x + offset) % 0x1_0000_0000;
    assert s[|s| - 2] == x && s[|s| - 1] == v && s[..|stack|] + [] == stack;
    if a + 4 <= |d.mem| {
      WriteIsPut(d.mem, a, v);
    }
    hide Binary, Write32, DoLoad, DoCall, Le;
  }

  // ----- whole programs

  ghost predicate Reaches(m: Module, a: State, b: State)
    requires m.Shaped()
  {
    exists n: nat :: Run(m, a, n) == Running(b)
  }

  lemma ReachHere(m: Module, a: State)
    requires m.Shaped()
    ensures Reaches(m, a, a)
  {
    assert Run(m, a, 0) == Running(a);
  }

  lemma ReachOn(m: Module, a: State, b: State, c: State)
    requires m.Shaped() && Reaches(m, a, b) && Reaches(m, b, c)
    ensures Reaches(m, a, c)
  {
    hide Run;
    var i: nat :| Run(m, a, i) == Running(b);
    var j: nat :| Run(m, b, j) == Running(c);
    RunMore(m, a, i, j);
  }

  lemma ReachStep(m: Module, a: State, b: State)
    requires m.Shaped() && Step(m, a) == Running(b)
    ensures Reaches(m, a, b)
  {
    hide Step, Run;
    RunOne(m, a);
  }

  lemma {:induction false} ReachValue(m: Module, e: Expr, stack: seq<u32>, pc: nat, d: Data)
    requires m.Shaped() && Proper(e, |d.locals|) && Placed(m, pc, Code(e)) && |stack| + Peak(e) < STACK_MAX
    ensures Reaches(m, Place(stack, pc, d),
                    Place(stack + [Value(e, d.locals, d.mem)], pc + |Code(e)|, Noted(d, e)))
  {
    hide Run, Place, Value, Code, Peak, Proper, Placed, Noted;
    EvalAt(m, e, stack, pc, d);
  }

  /** Where the program is placed, proper, has room and a meaning. */
  ghost predicate Ready(m: Module, s: Stmt, stack: seq<u32>, pc: nat, d: Data, fuel: nat)
  {
    && m.Shaped() && ProperStmt(s, |d.locals|) && Placed(m, pc, Compiled(s, pc))
    && |stack| + PeakStmt(s) < STACK_MAX && Meaning(s, d, fuel).Some?
  }

  ghost predicate Arrives(m: Module, s: Stmt, stack: seq<u32>, pc: nat, d: Data, fuel: nat)
    requires Ready(m, s, stack, pc, d, fuel)
  {
    Reaches(m, Place(stack, pc, d), Place(stack, pc + Size(s), Meaning(s, d, fuel).value))
  }

  lemma {:induction false} SetRuns(m: Module, i: nat, e: Expr, stack: seq<u32>, pc: nat, d: Data, fuel: nat)
    requires Ready(m, Set(i, e), stack, pc, d, fuel)
    ensures Arrives(m, Set(i, e), stack, pc, d, fuel)
  {
    hide Step, Run, Value, Misses, Code, Peak, Proper, Placed, Reaches;
    var v, n := Value(e, d.locals, d.mem), |Code(e)|;
    PlacedSplit(m, pc, Code(e), [Inst(LocalSet, i, 0)]);
    ReachValue(m, e, stack, pc, d);
    PeakPositive(e);
    StepSet(m, i, stack, v, pc + n, Noted(d, e));
    var a := Place(stack + [v], pc + n, Noted(d, e));
    var b := Place(stack, pc + Size(Set(i, e)), Meaning(Set(i, e), d, fuel).value);
    ReachStep(m, a, b);
    ReachOn(m, Place(stack, pc, d), a, b);
  }

  lemma PeakPositive(e: Expr)
    ensures Peak(e) >= 1
  {
  }

  lemma {:induction false} DiscardRuns(m: Module, e: Expr, stack: seq<u32>, pc: nat, d: Data, fuel: nat)
    requires Ready(m, Discard(e), stack, pc, d, fuel)
    ensures Arrives(m, Discard(e), stack, pc, d, fuel)
  {
    hide Step, Run, Value, Misses, Code, Peak, Proper, Placed, Reaches;
    var v, n := Value(e, d.locals, d.mem), |Code(e)|;
    PlacedSplit(m, pc, Code(e), [Inst(Drop, 0, 0)]);
    ReachValue(m, e, stack, pc, d);
    PeakPositive(e);
    StepDrop(m, stack, v, pc + n, Noted(d, e));
    var a, b := Place(stack + [v], pc + n, Noted(d, e)), Place(stack, pc + n + 1, Noted(d, e));
    ReachStep(m, a, b);
    ReachOn(m, Place(stack, pc, d), a, b);
  }

  lemma {:induction false} PokeRuns(m: Module, at: Expr, offset: u32, e: Expr, stack: seq<u32>, pc: nat, d: Data,
                                      fuel: nat)
    requires Ready(m, Poke(at, offset, e), stack, pc, d, fuel)
    ensures Arrives(m, Poke(at, offset, e), stack, pc, d, fuel)
  {
    PeakOf(Add, at, e);
    PeakPositive(e);
    hide Step, Run, Value, Misses, Code, Peak, Proper, Placed, Reaches, Put;
    var x, v, a, b := Value(at, d.locals, d.mem), Value(e, d.locals, d.mem), |Code(at)|, |Code(e)|;
    var d1 := Noted(d, at);
    var d2 := Noted(d1, e);
    PlacedSplit(m, pc, Code(at) + Code(e), [Inst(Store, 0, offset)]);
    PlacedSplit(m, pc, Code(at), Code(e));
    ReachValue(m, at, stack, pc, d);
    ReachValue(m, e, stack + [x], pc + a, d1);
    StepStore(m, offset, stack, x, v, pc + a + b, d2);
    var s0, s1, s2 := Place(stack, pc, d), Place(stack + [x], pc + a, d1), Place(stack + [x] + [v], pc + a + b, d2);
    var s3 := Place(stack, pc + a + b + 1, Put(d2, (x + offset) % 0x1_0000_0000, v));
    ReachOn(m, s0, s1, s2);
    ReachStep(m, s2, s3);
    ReachOn(m, s0, s2, s3);
  }

  /** Evaluating a condition and branching on it. */
  lemma {:induction false} Branches(m: Module, c: Expr, to: nat, stack: seq<u32>, pc: nat, d: Data)
    requires m.Shaped() && Proper(c, |d.locals|) && |stack| + Peak(c) < STACK_MAX
    requires Placed(m, pc, Code(c)) && Placed(m, pc + |Code(c)|, [Inst(BrIf, to, 0)])
    ensures var next := if Value(c, d.locals, d.mem) != 0 then to else pc + |Code(c)| + 1;
      Reaches(m, Place(stack, pc, d), Place(stack, next, Noted(d, c)))
  {
    PeakPositive(c);
    hide Step, Run, Value, Misses, Code, Peak, Proper, Placed, Reaches, Noted;
    var v, n, d1 := Value(c, d.locals, d.mem), |Code(c)|, Noted(d, c);
    ReachValue(m, c, stack, pc, d);
    StepBrIf(m, to, stack, v, pc + n, d1);
    var a, b := Place(stack + [v], pc + n, d1), Place(stack, if v != 0 then to else pc + n + 1, d1);
    ReachStep(m, a, b);
    ReachOn(m, Place(stack, pc, d), a, b);
  }

  lemma {:induction false} ThenParts(m: Module, s: Stmt, t: Stmt, stack: seq<u32>, pc: nat, d: Data, fuel: nat)
    requires Ready(m, Then(s, t), stack, pc, d, fuel)
    ensures Ready(m, s, stack, pc, d, fuel) && Ready(m, t, stack, pc + Size(s), Meaning(s, d, fuel).value, fuel)
    ensures Meaning(Then(s, t), d, fuel) == Meaning(t, Meaning(s, d, fuel).value, fuel)
    ensures Size(Then(s, t)) == Size(s) + Size(t)
  {
    hide Placed;
    PlacedSplit(m, pc, Compiled(s, pc), Compiled(t, pc + Size(s)));
  }

  lemma {:induction false} ThenRuns(m: Module, s: Stmt, t: Stmt, stack: seq<u32>, pc: nat, d: Data, fuel: nat)
    requires Ready(m, Then(s, t), stack, pc, d, fuel)
    ensures Arrives(m, Then(s, t), stack, pc, d, fuel)
    decreases fuel, Then(s, t), 0
  {
    hide Run, Placed, Reaches, Compiled, Meaning, Size, Place, ProperStmt, PeakStmt;
    ThenParts(m, s, t, stack, pc, d, fuel);
    var d1 := Meaning(s, d, fuel).value;
    StmtRuns(m, s, stack, pc, d, fuel);
    StmtRuns(m, t, stack, pc + Size(s), d1, fuel);
    ReachOn(m, Place(stack, pc, d), Place(stack, pc + Size(s), d1),
            Place(stack, pc + Size(s) + Size(t), Meaning(t, d1, fuel).value));
  }

  lemma {:induction false} IfPlaced(m: Module, c: Expr, s: Stmt, t: Stmt, pc: nat)
    requires Placed(m, pc, Compiled(If(c, s, t), pc))
    ensures var k, n := pc + |Code(c)|, pc + |Code(c)| + Size(t) + 2;
      && Placed(m, pc, Code(c)) && Placed(m, k, [Inst(BrIf, n, 0)]) && Placed(m, k + 1, Compiled(t, k + 1))
      && Placed(m, n - 1, [Inst(Br, n + Size(s), 0)]) && Placed(m, n, Compiled(s, n))
  {
    var k, n := pc + |Code(c)|, pc + |Code(c)| + Size(t) + 2;
    hide Placed, Code;
    IfCode(c, s, t, pc);
    hide Compiled, Size;
    PlacedParts(m, pc, Code(c), [Inst(BrIf, n, 0)], Compiled(t, k + 1), [Inst(Br, n + Size(s), 0)], Compiled(s, n));
  }

  lemma {:induction false} IfCode(c: Expr, s: Stmt, t: Stmt, pc: nat)
    ensures var k, n := pc + |Code(c)|, pc + |Code(c)| + Size(t) + 2;
      Compiled(If(c, s, t), pc) ==
      Code(c) + [Inst(BrIf, n, 0)] + (Compiled(t, k + 1) + [Inst(Br, n + Size(s), 0)] + Compiled(s, n))
  {
    hide Code;
  }

  lemma PlacedParts(m: Module, pc: nat, a: seq<Inst>, b: seq<Inst>, c: seq<Inst>, d: seq<Inst>, e: seq<Inst>)
    requires Placed(m, pc, a + b + (c + d + e))
    ensures Placed(m, pc, a) && Placed(m, pc + |a|, b) && Placed(m, pc + |a| + |b|, c)
    ensures Placed(m, pc + |a| + |b| + |c|, d) && Placed(m, pc + |a| + |b| + |c| + |d|, e)
  {
    hide Placed;
    PlacedSplit(m, pc, a + b, c + d + e);
    PlacedSplit(m, pc, a, b);
    PlacedSplit(m, pc + |a| + |b|, c + d, e);
    PlacedSplit(m, pc + |a| + |b|, c, d);
  }

  lemma {:induction false} IfRuns(m: Module, c: Expr, s: Stmt, t: Stmt, stack: seq<u32>, pc: nat, d: Data, fuel: nat)
    requires Ready(m, If(c, s, t), stack, pc, d, fuel)
    ensures Arrives(m, If(c, s, t), stack, pc, d, fuel)
    decreases fuel, If(c, s, t), 0
  {
    hide Step, Run, Value, Misses, Code, Peak, Proper, Placed, Reaches, Noted, Compiled;
    var k, n, d1 := pc + |Code(c)|, pc + |Code(c)| + Size(t) + 2, Noted(d, c);
    IfPlaced(m, c, s, t, pc);
    Branches(m, c, n, stack, pc, d);
    NotedLocals(d, c);
    var s0, last := Place(stack, pc, d), Place(stack, n + Size(s), Meaning(If(c, s, t), d, fuel).value);
    if Value(c, d.locals, d.mem) != 0 {
      StmtRuns(m, s, stack, n, d1, fuel);
      ReachOn(m, s0, Place(stack, n, d1), last);
    } else {
      StmtRuns(m, t, stack, k + 1, d1, fuel);
      var d2 := Meaning(t, d1, fuel).value;
      ReachOn(m, s0, Place(stack, k + 1, d1), Place(stack, n - 1, d2));
      StepBr(m, n + Size(s), stack, n - 1, d2);
      ReachStep(m, Place(stack, n - 1, d2), last);
      ReachOn(m, s0, Place(stack, n - 1, d2), last);
    }
  }

  lemma NotedLocals(d: Data, e: Expr)
    requires Proper(e, |d.locals|)
    ensures Noted(d, e).locals == d.locals && Noted(d, e).mem == d.mem
  {
  }

  lemma {:induction false} WhilePlaced(m: Module, c: Expr, s: Stmt, pc: nat)
    requires Placed(m, pc, Compiled(While(c, s), pc))
    ensures var k := pc + |Code(c)| + 1;
      && Placed(m, pc, Code(IsZero(c))) && Placed(m, k, [Inst(BrIf, pc + Size(While(c, s)), 0)])
      && Placed(m, k + 1, Compiled(s, k + 1)) && Placed(m, k + 1 + Size(s), [Inst(Br, pc, 0)])
  {
    var k, exit := pc + |Code(c)| + 1, pc + Size(While(c, s));
    hide Placed, Compiled, Code, Size;
    WhileCode(c, s, pc);
    PlacedParts(m, pc, Code(IsZero(c)), [Inst(BrIf, exit, 0)], Compiled(s, k + 1), [Inst(Br, pc, 0)], []);
  }

  lemma {:induction false} WhileCode(c: Expr, s: Stmt, pc: nat)
    ensures |Code(IsZero(c))| == |Code(c)| + 1
    ensures var k, exit := pc + |Code(c)| + 1, pc + Size(While(c, s));
      Compiled(While(c, s), pc) ==
      Code(IsZero(c)) + [Inst(BrIf, exit, 0)] + (Compiled(s, k + 1) + [Inst(Br, pc, 0)] + [])
  {
    var k, exit := pc + |Code(c)| + 1, pc + Size(While(c, s));
    var a, b, e, f := Code(c), Inst(Eqz, 0, 0), Inst(BrIf, exit, 0), Compiled(s, k + 1) + [Inst(Br, pc, 0)];
    assert Code(IsZero(c)) == a + [b] && Compiled(While(c, s), pc) == a + [b, e] + f;
    hide Code, Compiled, Size;
    TwoTails(a, b, e, f);
  }

  lemma TwoTails(a: seq<Inst>, b: Inst, e: Inst, f: seq<Inst>)
    ensures a + [b, e] + f == a + [b] + [e] + (f + [])
  {
  }

  /** A loop is left when its condition is 0, which the code tests the other way round. */
  lemma {:induction false} LoopTest(c: Expr, d: Data)
    requires Proper(c, |d.locals|)
    ensures Proper(IsZero(c), |d.locals|) && Peak(IsZero(c)) == Peak(c) && |Code(IsZero(c))| == |Code(c)| + 1
    ensures Value(IsZero(c), d.locals, d.mem) != 0 <==> Value(c, d.locals, d.mem) == 0
    ensures Noted(d, IsZero(c)) == Noted(d, c)
  {
  }

  lemma {:induction false} WhileRuns(m: Module, c: Expr, s: Stmt, stack: seq<u32>, pc: nat, d: Data, fuel: nat)
    requires Ready(m, While(c, s), stack, pc, d, fuel)
    ensures Arrives(m, While(c, s), stack, pc, d, fuel)
    decreases fuel, While(c, s), 0
  {
    hide Step, Run, Value, Misses, Code, Peak, Proper, Placed, Reaches, Noted, Compiled;
    var k, exit, d1 := pc + |Code(c)| + 1, pc + Size(While(c, s)), Noted(d, c);
    WhilePlaced(m, c, s, pc);
    LoopTest(c, d);
    Branches(m, IsZero(c), exit, stack, pc, d);
    NotedLocals(d, c);
    if Value(c, d.locals, d.mem) != 0 {
      var s0, d2 := Place(stack, pc, d), Meaning(s, d1, fuel - 1).value;
      StmtRuns(m, s, stack, k + 1, d1, fuel - 1);
      ReachOn(m, s0, Place(stack, k + 1, d1), Place(stack, k + 1 + Size(s), d2));
      StepBr(m, pc, stack, k + 1 + Size(s), d2);
      ReachStep(m, Place(stack, k + 1 + Size(s), d2), Place(stack, pc, d2));
      ReachOn(m, s0, Place(stack, k + 1 + Size(s), d2), Place(stack, pc, d2));
      StmtRuns(m, While(c, s), stack, pc, d2, fuel - 1);
      ReachOn(m, s0, Place(stack, pc, d2), Place(stack, exit, Meaning(While(c, s), d2, fuel - 1).value));
    }
  }

  /** Wherever a program has a meaning, its code runs to its end with that meaning, and leaves the
      operands below alone. */
  lemma {:induction false} StmtRuns(m: Module, s: Stmt, stack: seq<u32>, pc: nat, d: Data, fuel: nat)
    requires Ready(m, s, stack, pc, d, fuel)
    ensures Arrives(m, s, stack, pc, d, fuel)
    decreases fuel, s, 1
  {
    match s
    case Skip =>
      hide Run, Placed, Reaches;
      ReachHere(m, Place(stack, pc, d));
    case Set(i, e) =>
      hide *;
      SetRuns(m, i, e, stack, pc, d, fuel);
    case Poke(at, offset, e) =>
      hide *;
      PokeRuns(m, at, offset, e, stack, pc, d, fuel);
    case Discard(e) =>
      hide *;
      DiscardRuns(m, e, stack, pc, d, fuel);
    case Then(s, t) =>
      hide *;
      ThenRuns(m, s, t, stack, pc, d, fuel);
    case If(c, s, t) =>
      hide *;
      IfRuns(m, c, s, t, stack, pc, d, fuel);
    case While(c, b) =>
      hide *;
      WhileRuns(m, c, b, stack, pc, d, fuel);
  }

  /** A program that ends in an expression, as a module. */
  function Whole(s: Stmt, e: Expr, nLocals: nat, memSize: u32): Module
  {
    Module(Compiled(s, 0) + Code(e) + [Inst(End, 0, 0)], nLocals, memSize, None, None, 0)
  }

  lemma StepEnd(m: Module, stack: seq<u32>, v: u32, pc: nat, d: Data)
    requires m.Shaped() && |stack| + 1 < STACK_MAX
    requires Placed(m, pc, [Inst(End, 0, 0)]) || Placed(m, pc, [Inst(Return, 0, 0)]) || pc >= |m.code|
    ensures Step(m, Place(stack + [v], pc, d)) == Done(Ok, v, d.mem, d.fault)
  {
    if pc < |m.code| {
      PlacedOne(m, pc, m.code[pc]);
    }
    hide Binary, DoLoad, DoStore, DoCall;
  }

  /** The arguments, then zeros. */
  predicate Initially(locals: seq<u32>, args: seq<u32>)
  {
    forall i | 0 <= i < |locals| :: locals[i] == if i < |args| then args[i] else 0
  }

  /** The run of the module ends with the value of the expression in the program's final state. */
  lemma {:induction false} WholeRuns(s: Stmt, e: Expr, locals: seq<u32>, args: seq<u32>, mem: seq<byte>, fuel: nat)
    requires Initially(locals, args) && |mem| < 0x1_0000_0000 && ProperStmt(s, |locals|) && Proper(e, |locals|)
    requires PeakStmt(s) < STACK_MAX && Peak(e) < STACK_MAX && Meaning(s, Data(locals, mem, false), fuel).Some?
    ensures var m := Whole(s, e, |locals|, |mem|);
      var d := Meaning(s, Data(locals, mem, false), fuel).value;
      && m.Shaped()
      && exists n: nat :: Run(m, Start(m, args, mem), n) ==
                          Done(Ok, Value(e, d.locals, d.mem), d.mem, Noted(d, e).fault)
  {
    var m, d0 := Whole(s, e, |locals|, |mem|), Data(locals, mem, false);
    WholeIs(s, e, locals, args, mem);
    hide Whole, Start, InitLocals;
    WholeEnds(m, s, e, d0, fuel);
  }

  lemma {:induction false} WholeIs(s: Stmt, e: Expr, locals: seq<u32>, args: seq<u32>, mem: seq<byte>)
    requires Initially(locals, args) && |mem| < 0x1_0000_0000
    ensures var m := Whole(s, e, |locals|, |mem|);
      && m.Shaped() && Start(m, args, mem) == Place([], 0, Data(locals, mem, false))
      && Placed(m, 0, Compiled(s, 0) + Code(e) + [Inst(End, 0, 0)])
  {
    hide Compiled, Code;
    assert InitLocals(|locals|, args) == locals;
  }

  lemma {:induction false} WholeEnds(m: Module, s: Stmt, e: Expr, d0: Data, fuel: nat)
    requires m.Shaped() && Placed(m, 0, Compiled(s, 0) + Code(e) + [Inst(End, 0, 0)])
    requires ProperStmt(s, |d0.locals|) && Proper(e, |d0.locals|) && PeakStmt(s) < STACK_MAX && Peak(e) < STACK_MAX
    requires Meaning(s, d0, fuel).Some?
    ensures var d := Meaning(s, d0, fuel).value;
      exists n: nat :: Run(m, Place([], 0, d0), n) == Done(Ok, Value(e, d.locals, d.mem), d.mem, Noted(d, e).fault)
  {
    hide Run, Step, Place, Placed, Compiled, Code, Value, Peak, Noted, Proper, ProperStmt, PeakStmt, Meaning, Size;
    var d := Meaning(s, d0, fuel).value;
    var v, k, pc, d1 := Value(e, d.locals, d.mem), Size(s), Size(s) + |Code(e)|, Noted(d, e);
    PlacedSplit(m, 0, Compiled(s, 0) + Code(e), [Inst(End, 0, 0)]);
    PlacedSplit(m, 0, Compiled(s, 0), Code(e));
    var s0, s1, s2 := Place([], 0, d0), Place([], k, d), Place([] + [v], pc, d1);
    StmtRuns(m, s, [], 0, d0, fuel);
    ReachValue(m, e, [], k, d);
    ReachOn(m, s0, s1, s2);
    StepEnd(m, [], v, pc, d1);
    NotedLocals(d, e);
    var n: nat :| Run(m, s0, n) == Running(s2);
    RunThenStep(m, s0, n, s2, Done(Ok, v, d.mem, d1.fault));
  }
}
