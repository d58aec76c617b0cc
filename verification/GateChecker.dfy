/** The linear-time checker and what acceptance means for every run. */
module GateChecker {
  import opened Bits
  import opened GateIr

  /** How an instruction changes the modelled operand depth. */
  function Effect(op: Op): int
  {
    if IsBinary(op) || op.LocalSet? || op.Drop? || op.BrIf? || op.CallIndirect? then -1
    else if op.Const? || op.LocalGet? then 1
    else if op.Store? then -2
    else 0
  }

  function Needs(op: Op): nat
  {
    if IsBinary(op) || op.Store? then 2
    else if op.LocalSet? || op.Eqz? || op.Load? || op.Drop? || op.BrIf? || op.CallIndirect? then 1
    else 0
  }

  /** The modelled depth before instruction `i`: one linear pass, no joins. */
  function Depth(code: seq<Inst>, i: nat): int
    requires i <= |code|
  {
    if i == 0 then 0 else Depth(code, i - 1) + Effect(code[i - 1].op)
  }

  /** The verdict on one instruction at modelled depth `depth`, in the order of the checks. */
  function Verdict(m: Module, i: Inst, depth: int): Status
  {
    if i.op.CapForge? then RejectForge
    else if i.op.LoadRaw? || i.op.StoreRaw? || i.op.Unknown? then RejectOpcode
    else if (i.op.LocalGet? || i.op.LocalSet?) && i.a >= m.nLocals then RejectStack
    else if (i.op.Load? || i.op.Store?) && i.a != 0 then RejectMemslot
    else if (i.op.Br? || i.op.BrIf?) && i.a >= |m.code| then RejectCflow
    else if i.op.CallIndirect? && (m.table.None? || m.tableLen == 0) then RejectCflow
    else if Needs(i.op) > 0 && depth < Needs(i.op) then RejectStack
    else if depth + Effect(i.op) > STACK_MAX then RejectStack
    else Ok
  }

  predicate TableOk(m: Module)
    requires m.Shaped()
  {
    m.tableLen > 0 ==> m.table.Some? && forall t | 0 <= t < m.tableLen :: m.table.value[t] < |m.code|
  }

  predicate InstOk(m: Module, i: nat)
    requires i < |m.code|
  {
    Verdict(m, m.code[i], Depth(m.code, i)).Ok?
  }

  predicate Accepted(m: Module)
    requires m.Shaped()
  {
    TableOk(m) && forall i | 0 <= i < |m.code| :: InstOk(m, i)
  }

  /** `cvsasx_gate_check`: accepts exactly the modules every instruction of which passes at
      its linear depth, and otherwise reports the first instruction that does not. */
  method Check(m: Module) returns (status: Status)
    requires m.Shaped()
    ensures status.Ok? <==> Accepted(m)
    ensures !TableOk(m) ==> status.RejectCflow?
    ensures TableOk(m) && !status.Ok? ==>
              exists i | 0 <= i < |m.code| ::
                && status == Verdict(m, m.code[i], Depth(m.code, i))
                && forall j | 0 <= j < i :: InstOk(m, j)
  {
    for t := 0 to m.tableLen
      invariant t > 0 ==> m.table.Some?
      invariant forall k | 0 <= k < t :: m.table.value[k] < |m.code|
    {
      if m.table.None? || m.table.value[t] >= |m.code| {
        return RejectCflow;
      }
    }
    var depth := 0;
    for i := 0 to |m.code|
      invariant depth == Depth(m.code, i)
      invariant forall j | 0 <= j < i :: InstOk(m, j)
    {
      status := CheckInst(m, m.code[i], depth);
      if !status.Ok? {
        assert !InstOk(m, i);
        return;
      }
      depth := depth + Effect(m.code[i].op);
    }
    return Ok;
  }

  /** The switch of the main pass, case by case. */
  method CheckInst(m: Module, i: Inst, depth: int) returns (status: Status)
    ensures status == Verdict(m, i, depth)
  {
    var next := depth;
    match i.op {
      case Const => next := depth + 1;
      case LocalGet =>
        if i.a >= m.nLocals { return RejectStack; }
        next := depth + 1;
      case LocalSet =>
        if i.a >= m.nLocals || depth < 1 { return RejectStack; }
        next := depth - 1;
      case Eqz =>
        if depth < 1 { return RejectStack; }
      case Load =>
        if i.a != 0 { return RejectMemslot; }
        if depth < 1 { return RejectStack; }
      case Store =>
        if i.a != 0 { return RejectMemslot; }
        if depth < 2 { return RejectStack; }
        next := depth - 2;
      case Drop =>
        if depth < 1 { return RejectStack; }
        next := depth - 1;
      case Br =>
        if i.a >= |m.code| { return RejectCflow; }
      case BrIf =>
        if i.a >= |m.code| { return RejectCflow; }
        if depth < 1 { return RejectStack; }
        next := depth - 1;
      case Return =>
      case End =>
      case CallIndirect =>
        if m.table.None? || m.tableLen == 0 { return RejectCflow; }
        if depth < 1 { return RejectStack; }
        next := depth - 1;
      case CapForge => return RejectForge;
      case LoadRaw => return RejectOpcode;
      case StoreRaw => return RejectOpcode;
      case Unknown => return RejectOpcode;
      case _ =>
        if depth < 2 { return RejectStack; }
        next := depth - 1;
    }
    if next > STACK_MAX { return RejectStack; }
    return Ok;
  }

  /** The join condition that the checker leaves to the front end: along every branch and
      table entry that a step can take the linear depths agree. */
  predicate JoinsAgree(m: Module)
    requires m.Shaped()
  {
    forall i | 0 <= i < |m.code| :: EdgesAgree(m, i)
  }

  /** An indirect call with type id `a` can take table entry `t`. */
  predicate Callable(m: Module, a: nat, t: nat)
    requires m.Shaped()
  {
    m.table.Some? && t < m.tableLen && t < 0x1_0000_0000 && (m.tableTypes.Some? ==> m.tableTypes.value[t] == a)
  }

  /** At depth 512 the executor stops before the instruction, so its edges do not matter. */
  predicate EdgesAgree(m: Module, i: nat)
    requires m.Shaped() && i < |m.code|
  {
    var inst, after := m.code[i], Depth(m.code, i + 1);
    Depth(m.code, i) < STACK_MAX ==>
      && ((inst.op.Br? || inst.op.BrIf?) && inst.a < |m.code| ==> Depth(m.code, inst.a) == after)
      && (inst.op.CallIndirect? ==>
            forall t | 0 <= t < m.tableLen ::
              Callable(m, inst.a, t) && m.table.value[t] < |m.code| ==> Depth(m.code, m.table.value[t]) == after)
  }

  /** What holds of every reachable state of a checked module. */
  predicate Typed(m: Module, st: State)
  {
    && st.pc <= |m.code|
    && |st.stack| == Depth(m.code, st.pc)
    && |st.locals| == m.nLocals
    && |st.mem| == m.memSize
  }

  /** The facts about the instruction at `st.pc` that one step needs. */
  predicate Admitted(m: Module, st: State)
    requires m.Shaped()
  {
    && Typed(m, st) && st.pc < |m.code|
    && Verdict(m, m.code[st.pc], |st.stack|).Ok?
    && Depth(m.code, st.pc + 1) == |st.stack| + Effect(m.code[st.pc].op)
  }

  /** The step keeps the typing, or stops, but never goes wild. */
  predicate KeepsTyping(m: Module, o: Outcome)
  {
    !o.Wild? && (o.Running? ==> Typed(m, o.st))
  }

  lemma MemoryStepTyped(m: Module, st: State)
    requires m.Shaped() && Admitted(m, st) && (m.code[st.pc].op.Load? || m.code[st.pc].op.Store?)
    ensures KeepsTyping(m, Execute(m, st))
  {
    hide Binary, Depth, Read32, Write32, InBounds;
  }

  lemma JumpStepTyped(m: Module, st: State)
    requires m.Shaped() && Admitted(m, st) && EdgesAgree(m, st.pc) && TableOk(m) && |st.stack| < STACK_MAX
    requires m.code[st.pc].op.Br? || m.code[st.pc].op.BrIf? || m.code[st.pc].op.CallIndirect?
    ensures KeepsTyping(m, Execute(m, st))
  {
    hide Binary, Depth, DoLoad, DoStore;
  }

  lemma LocalStepTyped(m: Module, st: State)
    requires m.Shaped() && Admitted(m, st)
    requires m.code[st.pc].op in {Const, LocalGet, LocalSet, Drop, Return, End, Eqz}
    ensures KeepsTyping(m, Execute(m, st))
  {
    hide Binary, Depth, DoLoad, DoStore, DoCall;
  }

  lemma BinaryStepTyped(m: Module, st: State)
    requires m.Shaped() && Admitted(m, st) && IsBinary(m.code[st.pc].op)
    ensures KeepsTyping(m, Execute(m, st))
  {
    hide Binary, Depth, DoLoad, DoStore, DoCall;
  }

  lemma StepTyped(m: Module, st: State)
    requires m.Shaped() && Accepted(m) && JoinsAgree(m) && Typed(m, st)
    ensures KeepsTyping(m, Step(m, st))
  {
    if st.pc < |m.code| && |st.stack| < STACK_MAX {
      assert InstOk(m, st.pc) && EdgesAgree(m, st.pc);
      assert Depth(m.code, st.pc + 1) == Depth(m.code, st.pc) + Effect(m.code[st.pc].op);
      hide Depth, Execute;
      var op := m.code[st.pc].op;
      if op.Load? || op.Store? {
        MemoryStepTyped(m, st);
      } else if op.Br? || op.BrIf? || op.CallIndirect? {
        JumpStepTyped(m, st);
      } else if IsBinary(op) {
        BinaryStepTyped(m, st);
      } else {
        LocalStepTyped(m, st);
      }
    }
  }

  /** A state at instruction `i` with the checker's depth and `top` as every operand. */
  function Probe(m: Module, i: nat, top: u32): State
    requires i <= |m.code| && Depth(m.code, i) >= 0
  {
    State(seq(Depth(m.code, i), _ => top), seq(m.nLocals, _ => 0), i, seq(m.memSize, _ => 0), false)
  }

  lemma ProbeTyped(m: Module, i: nat, top: u32)
    requires i <= |m.code| && Depth(m.code, i) >= 0
    ensures Typed(m, Probe(m, i, top))
  {
    hide Depth;
  }

  lemma {:induction false} DepthNotNegative(m: Module, i: nat)
    requires m.Shaped() && Accepted(m) && i <= |m.code|
    ensures Depth(m.code, i) >= 0
  {
    if i > 0 {
      DepthNotNegative(m, i - 1);
      assert InstOk(m, i - 1);
    }
  }

  /** An edge that some typed state takes without losing its typing agrees. */
  lemma BranchForced(m: Module, i: nat)
    requires m.Shaped() && i < |m.code| && (m.code[i].op.Br? || m.code[i].op.BrIf?) && m.code[i].a < |m.code|
    requires 0 <= Depth(m.code, i) < STACK_MAX && (m.code[i].op.BrIf? ==> Depth(m.code, i) > 0)
    requires KeepsTyping(m, Step(m, Probe(m, i, 1)))
    ensures Depth(m.code, m.code[i].a) == Depth(m.code, i + 1)
  {
    assert Depth(m.code, i + 1) == Depth(m.code, i) + Effect(m.code[i].op);
    hide Depth, Binary, DoLoad, DoStore, DoCall;
  }

  lemma CallForced(m: Module, i: nat, t: nat)
    requires m.Shaped() && i < |m.code| && m.code[i].op.CallIndirect? && Callable(m, m.code[i].a, t)
    requires 0 < Depth(m.code, i) < STACK_MAX && m.table.value[t] < |m.code|
    requires KeepsTyping(m, Step(m, Probe(m, i, t)))
    ensures Depth(m.code, m.table.value[t]) == Depth(m.code, i + 1)
  {
    assert Depth(m.code, i + 1) == Depth(m.code, i) + Effect(m.code[i].op);
    hide Depth, Binary, DoLoad, DoStore;
  }

  lemma EdgesForced(m: Module, i: nat)
    requires m.Shaped() && Accepted(m) && i < |m.code|
    requires forall st | Typed(m, st) :: KeepsTyping(m, Step(m, st))
    ensures EdgesAgree(m, i)
  {
    DepthNotNegative(m, i);
    assert InstOk(m, i);
    hide Depth, Step, KeepsTyping, Accepted;
    var inst := m.code[i];
    if Depth(m.code, i) < STACK_MAX {
      if (inst.op.Br? || inst.op.BrIf?) && inst.a < |m.code| {
        ProbeTyped(m, i, 1);
        BranchForced(m, i);
      }
      if inst.op.CallIndirect? {
        forall t | 0 <= t < m.tableLen && Callable(m, inst.a, t) && m.table.value[t] < |m.code|
          ensures Depth(m.code, m.table.value[t]) == Depth(m.code, i + 1)
        {
          ProbeTyped(m, i, t);
          CallForced(m, i, t);
        }
      }
    }
  }

  /** For every accepted module the typing is kept by every step exactly when the joins
      agree: the condition is the right one, not just a sufficient one. */
  lemma TypingIffJoins(m: Module)
    requires m.Shaped() && Accepted(m)
    ensures (forall st | Typed(m, st) :: KeepsTyping(m, Step(m, st))) <==> JoinsAgree(m)
  {
    hide Step, Depth, EdgesAgree, KeepsTyping, Typed;
    if JoinsAgree(m) {
      forall st | Typed(m, st)
        ensures KeepsTyping(m, Step(m, st))
      {
        StepTyped(m, st);
      }
    }
    if forall st | Typed(m, st) :: KeepsTyping(m, Step(m, st)) {
      forall i | 0 <= i < |m.code|
        ensures EdgesAgree(m, i)
      {
        EdgesForced(m, i);
      }
    }
  }

  /** Every reachable state has the checker's depth at its program counter, all operands,
      locals and targets in range: no run of an accepted module goes wild. */
  lemma {:induction false} CheckedRunsAreSafe(m: Module, args: seq<u32>, mem: seq<byte>, n: nat)
    requires m.Shaped() && Accepted(m) && JoinsAgree(m) && |mem| == m.memSize
    ensures !Run(m, Start(m, args, mem), n).Wild?
    ensures Run(m, Start(m, args, mem), n).Running? ==> Typed(m, Run(m, Start(m, args, mem), n).st)
  {
    hide Step, Depth, InitLocals, JoinsAgree, Accepted;
    if n == 0 {
      assert Typed(m, Start(m, args, mem)) by { StartTyped(m, args, mem); }
    } else {
      CheckedRunsAreSafe(m, args, mem, n - 1);
      var o := Run(m, Start(m, args, mem), n - 1);
      if o.Running? {
        StepTyped(m, o.st);
      }
    }
  }

  lemma StartTyped(m: Module, args: seq<u32>, mem: seq<byte>)
    requires |mem| == m.memSize
    ensures Typed(m, Start(m, args, mem))
  {
  }

  /** Acceptance alone does not imply the join condition: this module is accepted, yet its
      branch skips the operand that the linear pass counted, and the run goes wild. */
  const skipsOperand := Module(
    [Inst(Br, 2, 0), Inst(Const, 0, 7), Inst(Eqz, 0, 0), Inst(End, 0, 0)], 0, 0, None, None, 0)

  lemma SkipsOperandDepths()
    ensures var c := skipsOperand.code;
      Depth(c, 0) == 0 && Depth(c, 1) == 0 && Depth(c, 2) == 1 && Depth(c, 3) == 1 && Depth(c, 4) == 1
  {
  }

  lemma JoinsAreNeeded()
    ensures skipsOperand.Shaped() && Accepted(skipsOperand) && !JoinsAgree(skipsOperand)
    ensures Run(skipsOperand, State([], [], 0, [], false), 2).Wild?
  {
    var m, st := skipsOperand, State([], [], 0, [], false);
    SkipsOperandDepths();
    hide Depth;
    assert InstOk(m, 0) && InstOk(m, 1) && InstOk(m, 2) && InstOk(m, 3);
    assert !EdgesAgree(m, 0);
    SkipsOperandRun(st);
  }

  lemma SkipsOperandRun(st: State)
    requires st.stack == [] && st.pc == 0
    ensures Run(skipsOperand, st, 2).Wild?
  {
    hide Binary, DoLoad, DoStore, DoCall;
    var m := skipsOperand;
    assert Step(m, st) == Running(st.(pc := 2)) && Step(m, st.(pc := 2)).Wild?;
    hide Step;
    assert Run(m, st, 1) == Running(st.(pc := 2));
  }
}
