/** The checker refuses nothing that the machine could run: a module passes exactly if, at the
    depths of one linear pass, no instruction can fail for want of operands, locals or meaning. */
module GateComplete {
  import opened Bits
  import opened GateIr
  import opened GateChecker

  /** What the gate demands of an instruction beyond its being runnable: no raw access, memory
      slot 0, branch targets inside the code, a table for indirect calls. */
  predicate Permitted(m: Module, i: Inst)
  {
    match i.op
    case LoadRaw => false
    case StoreRaw => false
    case Load => i.a == 0
    case Store => i.a == 0
    case Br => i.a < |m.code|
    case BrIf => i.a < |m.code|
    case CallIndirect => m.table.Some? && m.tableLen > 0
    case _ => true
  }

  /** A state at instruction `i` with `d` operands, locals and memory as the module says. */
  predicate At(m: Module, st: State, i: nat, d: int)
  {
    st.pc == i && |st.stack| == d && |st.locals| == m.nLocals && |st.mem| == m.memSize
  }

  /** The instruction fails: an access out of range, no such operation, or an operand missing
      from an empty stack. */
  predicate Fails(m: Module, st: State)
    requires m.Shaped() && st.pc < |m.code|
  {
    var o := Execute(m, st);
    o.Wild? || (o.Done? && (o.status == RejectOpcode || (o.status == RejectStack && st.stack == [])))
  }

  /** No state at instruction `i` with `d` operands fails. */
  ghost predicate NeverFails(m: Module, i: nat, d: int)
    requires m.Shaped() && i < |m.code|
  {
    forall st: State | At(m, st, i, d) :: !Fails(m, st)
  }

  /** Some state at `i` with `d` operands. */
  function Witness(m: Module, i: nat, d: nat): (st: State)
    ensures At(m, st, i, d)
  {
    State(seq(d, _ => 0), seq(m.nLocals, _ => 0), i, seq(m.memSize, _ => 0), false)
  }

  /** An instruction that passes does not fail, from any state. */
  lemma PassedRuns(m: Module, st: State, i: nat, d: nat)
    requires m.Shaped() && i < |m.code| && At(m, st, i, d) && Verdict(m, m.code[i], d).Ok?
    ensures !Fails(m, st)
  {
    hide Binary, Read32, Write32, InBounds;
  }

  /** One that is refused, though permitted and within the ceiling, fails from every state. */
  lemma RefusedFails(m: Module, st: State, i: nat, d: nat)
    requires m.Shaped() && i < |m.code| && At(m, st, i, d) && Permitted(m, m.code[i])
    requires d + Effect(m.code[i].op) <= STACK_MAX && !Verdict(m, m.code[i], d).Ok?
    ensures Fails(m, st)
  {
    hide Binary, Read32, Write32, InBounds;
  }

  lemma RefusedOutright(m: Module, i: Inst, d: int)
    ensures !Permitted(m, i) || d + Effect(i.op) > STACK_MAX ==> !Verdict(m, i, d).Ok?
  {
  }

  /** What a refusal says: forging first, then the operation itself, the local, the memory slot, the
      target; anything else is the stack. */
  lemma RefusalMeans(m: Module, i: Inst, d: int)
    ensures var v := Verdict(m, i, d);
      && (v == RejectForge <==> i.op.CapForge?)
      && (v == RejectOpcode <==> i.op in {LoadRaw, StoreRaw, Unknown})
      && (v == RejectMemslot <==> i.op in {Load, Store} && i.a != 0)
      && (v == RejectCflow <==>
            || (i.op in {Br, BrIf} && i.a >= |m.code|)
            || (i.op.CallIndirect? && (m.table.None? || m.tableLen == 0)))
      && v in {Ok, RejectForge, RejectOpcode, RejectMemslot, RejectCflow, RejectStack}
  {
  }

  /** An instruction passes at depth `d` exactly if it is permitted, can fail from no state with
      `d` operands, and leaves at most 512. */
  lemma PassesIff(m: Module, i: nat, d: nat)
    requires m.Shaped() && i < |m.code|
    ensures Verdict(m, m.code[i], d).Ok? <==>
            Permitted(m, m.code[i]) && NeverFails(m, i, d) && d + Effect(m.code[i].op) <= STACK_MAX
  {
    RefusedOutright(m, m.code[i], d);
    hide Verdict, Permitted, Fails, Effect;
    if Verdict(m, m.code[i], d).Ok? {
      forall st: State | At(m, st, i, d)
        ensures !Fails(m, st)
      {
        PassedRuns(m, st, i, d);
      }
    } else if Permitted(m, m.code[i]) && d + Effect(m.code[i].op) <= STACK_MAX {
      RefusedFails(m, Witness(m, i, d), i, d);
    }
  }

  /** The linear pass over instruction `i`, in terms of the machine. */
  ghost predicate Runnable(m: Module, i: nat)
    requires m.Shaped() && i < |m.code|
  {
    && Permitted(m, m.code[i])
    && NeverFails(m, i, Depth(m.code, i)) && Depth(m.code, i + 1) <= STACK_MAX
  }

  /** Where the machine goes on, the depth of the linear pass follows its stack; after an
      instruction that ends the run it stays. */
  lemma DepthFollows(m: Module, st: State, i: nat, d: nat)
    requires m.Shaped() && i < |m.code| && At(m, st, i, d) && Permitted(m, m.code[i])
    ensures Execute(m, st).Running? ==> |Execute(m, st).st.stack| == d + Effect(m.code[i].op)
    ensures m.code[i].op.Return? || m.code[i].op.End? ==> Effect(m.code[i].op) == 0
  {
    hide Binary, Read32, Write32, InBounds;
  }

  lemma DepthStep(m: Module, i: nat)
    requires i < |m.code|
    ensures Depth(m.code, i + 1) == Depth(m.code, i) + Effect(m.code[i].op)
  {
  }

  lemma RunnableIff(m: Module, i: nat)
    requires m.Shaped() && i < |m.code| && Depth(m.code, i) >= 0
    ensures InstOk(m, i) <==> Runnable(m, i)
  {
    hide Verdict, Permitted, NeverFails, Effect, Depth;
    DepthStep(m, i);
    PassesIff(m, i, Depth(m.code, i));
  }

  lemma {:induction false} RunnableDepth(m: Module, i: nat)
    requires m.Shaped() && i <= |m.code| && forall j | 0 <= j < i :: Runnable(m, j)
    ensures Depth(m.code, i) >= 0 && forall j | 0 <= j < i :: InstOk(m, j)
  {
    hide Runnable, InstOk, Verdict, Effect;
    if i > 0 {
      RunnableDepth(m, i - 1);
      hide Depth;
      RunnableIff(m, i - 1);
      assert Runnable(m, i - 1);
      EnoughOperands(m, i - 1);
    }
  }

  lemma EnoughOperands(m: Module, i: nat)
    requires i < |m.code| && InstOk(m, i) && Depth(m.code, i) >= 0
    ensures Depth(m.code, i + 1) >= 0
  {
  }

  /** The checker accepts exactly the modules with a good table every instruction of which is
      runnable at its linear depth. */
  lemma AcceptedIff(m: Module)
    requires m.Shaped()
    ensures Accepted(m) <==>
            && (m.tableLen == 0 || (m.table.Some? && forall t | 0 <= t < m.tableLen :: m.table.value[t] < |m.code|))
            && forall i | 0 <= i < |m.code| :: Runnable(m, i)
  {
    hide Runnable, InstOk, Depth;
    if forall i | 0 <= i < |m.code| :: Runnable(m, i) {
      RunnableDepth(m, |m.code|);
    }
    if Accepted(m) {
      forall i | 0 <= i < |m.code|
        ensures Runnable(m, i)
      {
        DepthNotNegative(m, i);
        RunnableIff(m, i);
      }
    }
  }
}
