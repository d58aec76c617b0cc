/** Static bounds-check elision: the constness pass, the rewriting it licenses, and the
    proof that the rewritten module runs exactly like the original. */
module GateOptimizer {
  import opened Bits
  import opened GateIr
  import opened GateChecker

  /** An abstract operand stack: `Some(v)` is a slot known to hold `v`. */
  type AbsStack = seq<Option<u32>>

  predicate IsBranch(i: Inst)
  {
    i.op.Br? || i.op.BrIf?
  }

  /** Only direct branches are marked; table entries are not. */
  predicate IsTarget(m: Module, t: nat)
  {
    exists i :: 0 <= i < |m.code| && IsBranch(m.code[i]) && m.code[i].a == t
  }

  function PopAbs(s: AbsStack, n: nat): AbsStack
  {
    if n <= |s| then s[..|s| - n] else []
  }

  function TopUnknown(s: AbsStack): AbsStack
  {
    if s == [] then s else s[|s| - 1 := None]
  }

  function PushAbs(s: AbsStack, x: Option<u32>): AbsStack
  {
    if |s| < STACK_MAX then s + [x] else s
  }

  function AllUnknown(s: AbsStack): (r: AbsStack)
    ensures |r| == |s|
  {
    seq(|s|, _ => None)
  }

  function Transfer(s: AbsStack, i: Inst): AbsStack
  {
    if i.op.Const? then PushAbs(s, Some(i.imm))
    else if i.op.LocalGet? then PushAbs(s, None)
    else if IsBinary(i.op) then TopUnknown(PopAbs(s, 1))
    else if i.op.Eqz? || i.op.Load? then TopUnknown(s)
    else if i.op.Store? then PopAbs(s, 2)
    else if i.op in {LocalSet, Drop, BrIf, CallIndirect} then PopAbs(s, 1)
    else s
  }

  function Meet(m: Module, i: nat, s: AbsStack): AbsStack
  {
    if IsTarget(m, i) then AllUnknown(s) else s
  }

  /** The abstract stack with which the pass looks at instruction `i`. */
  function AbsAt(m: Module, i: nat): AbsStack
    requires i <= |m.code|
  {
    if i == 0 then Meet(m, 0, []) else Meet(m, i, Transfer(AbsAt(m, i - 1), m.code[i - 1]))
  }

  predicate KnownInside(x: Option<u32>, imm: u32, memSize: u32)
  {
    x.Some? && (x.value as int) + imm + 4 <= memSize
  }

  /** The access at `i` has a constant address proved in bounds. */
  predicate Proven(m: Module, i: nat)
    requires i < |m.code|
  {
    var s, inst := AbsAt(m, i), m.code[i];
    || (inst.op.Load? && |s| >= 1 && KnownInside(s[|s| - 1], inst.imm, m.memSize))
    || (inst.op.Store? && |s| >= 2 && KnownInside(s[|s| - 2], inst.imm, m.memSize))
  }

  function Rewritten(m: Module, i: nat): Inst
    requires i < |m.code|
  {
    if !Proven(m, i) then m.code[i]
    else m.code[i].(op := if m.code[i].op.Load? then LoadRaw else StoreRaw)
  }

  /** The optimized module; above 4096 instructions it is a plain copy. */
  function Elided(m: Module): (r: Module)
    ensures |r.code| == |m.code|
  {
    if |m.code| > 4096 then m
    else m.(code := seq(|m.code|, i requires 0 <= i < |m.code| => Rewritten(m, i)))
  }

  // ----- soundness

  function Below<T>(s: seq<T>): seq<T>
    requires s != []
  {
    s[..|s| - 1]
  }

  function Last<T>(s: seq<T>): T
    requires s != []
  {
    s[|s| - 1]
  }

  /** Aligned from the top, every slot believed constant holds that constant. */
  predicate Sound(s: AbsStack, stack: seq<u32>)
  {
    s == [] || stack == [] ||
    ((Last(s).Some? ==> Last(stack) == Last(s).value) && Sound(Below(s), Below(stack)))
  }

  lemma SoundPop(s: AbsStack, stack: seq<u32>)
    requires Sound(s, stack) && stack != []
    ensures Sound(PopAbs(s, 1), Below(stack))
  {
  }

  lemma SoundPopTwo(s: AbsStack, stack: seq<u32>)
    requires Sound(s, stack) && |stack| >= 2
    ensures Sound(PopAbs(s, 2), stack[..|stack| - 2])
  {
    SoundPop(s, stack);
    SoundPop(PopAbs(s, 1), Below(stack));
    assert Below(Below(stack)) == stack[..|stack| - 2];
    assert PopAbs(PopAbs(s, 1), 1) == PopAbs(s, 2);
  }

  lemma SoundPush(s: AbsStack, stack: seq<u32>, x: Option<u32>, v: u32)
    requires Sound(s, stack) && |s| < STACK_MAX && (x.Some? ==> x.value == v)
    ensures Sound(PushAbs(s, x), stack + [v])
  {
    assert Below(s + [x]) == s && Below(stack + [v]) == stack;
  }

  /** Replacing the top operand by an unknown value. */
  lemma SoundReplace(s: AbsStack, stack: seq<u32>, v: u32)
    requires Sound(s, stack) && stack != []
    ensures Sound(TopUnknown(s), Below(stack) + [v])
  {
    assert Below(Below(stack) + [v]) == Below(stack);
    if s != [] {
      assert Below(TopUnknown(s)) == Below(s);
    }
  }

  lemma SoundReplaceTwo(s: AbsStack, stack: seq<u32>, v: u32)
    requires Sound(s, stack) && |stack| >= 2
    ensures Sound(TopUnknown(PopAbs(s, 1)), stack[..|stack| - 2] + [v])
  {
    SoundPop(s, stack);
    SoundReplace(PopAbs(s, 1), Below(stack), v);
    assert Below(Below(stack)) == stack[..|stack| - 2];
  }

  lemma {:induction false} NothingKnown(s: AbsStack, stack: seq<u32>)
    ensures Sound(AllUnknown(s), stack)
    decreases |s|
  {
    if s != [] && stack != [] {
      NothingKnown(Below(s), Below(stack));
      assert Below(AllUnknown(s)) == AllUnknown(Below(s));
    }
  }

  lemma SoundMeet(m: Module, i: nat, s: AbsStack, stack: seq<u32>)
    requires Sound(s, stack) || IsTarget(m, i)
    ensures Sound(Meet(m, i, s), stack)
  {
    NothingKnown(s, stack);
  }

  /** On an accepted module the pass tracks exactly the checker's depth, so it never
      refuses a push. */
  lemma {:induction false} AbsDepth(m: Module, i: nat)
    requires m.Shaped() && Accepted(m) && i <= |m.code|
    ensures |AbsAt(m, i)| == Depth(m.code, i)
  {
    if i > 0 {
      AbsDepth(m, i - 1);
      assert InstOk(m, i - 1);
      hide IsTarget;
      var s := AbsAt(m, i - 1);
      assert |AbsAt(m, i)| == |Transfer(s, m.code[i - 1])|;
      TransferDepth(m, m.code[i - 1], s);
    }
  }

  lemma TransferDepth(m: Module, i: Inst, s: AbsStack)
    requires Verdict(m, i, |s|).Ok?
    ensures |Transfer(s, i)| == |s| + Effect(i.op)
  {
  }

  /** Slot `k` from the top, if there is one and it is known. */
  function Known(s: AbsStack, k: nat): Option<u32>
  {
    if k < |s| then s[|s| - 1 - k] else None
  }

  /** Whatever `s'` knows of the top `STACK_MAX - 2` operands, `s` knows too. */
  predicate NoMoreSpecific(s': AbsStack, s: AbsStack)
  {
    forall k: nat | k < STACK_MAX - 2 :: Known(s', k).Some? ==> Known(s, k) == Known(s', k)
  }

  /** An indirect call at `i` can take entry `t`, as far as the pass knows its operand. */
  predicate CanTake(m: Module, i: nat, t: nat)
    requires m.Shaped() && i < |m.code|
  {
    m.code[i].op.CallIndirect? && Callable(m, m.code[i].a, t) && Known(AbsAt(m, i), 0) in {None, Some(t)}
  }

  /** Where an indirect call can land, the pass believes no more than right after the call. */
  predicate IndirectCovered(m: Module)
    requires m.Shaped()
  {
    forall i | 0 <= i < |m.code| :: CallCovered(m, i)
  }

  predicate CallCovered(m: Module, i: nat)
    requires m.Shaped() && i < |m.code|
  {
    forall t: nat | t < m.tableLen && CanTake(m, i, t) && m.table.value[t] < |m.code| ::
      NoMoreSpecific(AbsAt(m, m.table.value[t]), PopAbs(AbsAt(m, i), 1))
  }

  /** It is enough that every table entry is a branch target. */
  lemma TargetsSuffice(m: Module)
    requires m.Shaped() && (m.table.Some? ==> forall t | 0 <= t < m.tableLen :: IsTarget(m, m.table.value[t]))
    ensures IndirectCovered(m)
  {
    hide IsTarget, Transfer;
    forall i, t: nat | 0 <= i < |m.code| && t < m.tableLen && CanTake(m, i, t) && m.table.value[t] < |m.code|
      ensures NoMoreSpecific(AbsAt(m, m.table.value[t]), PopAbs(AbsAt(m, i), 1))
    {
      assert IsTarget(m, m.table.value[t]);
    }
  }

  /** Soundness, slot by slot from the top. */
  lemma {:induction false} SoundAt(s: AbsStack, stack: seq<u32>)
    ensures Sound(s, stack) <==>
      forall k: nat | k < |stack| :: Known(s, k).Some? ==> Known(s, k).value == stack[|stack| - 1 - k]
    decreases |s|
  {
    if s != [] && stack != [] {
      SoundAt(Below(s), Below(stack));
      forall k: nat | k < |stack| - 1
        ensures Known(Below(s), k) == Known(s, k + 1) && Below(stack)[|stack| - 2 - k] == stack[|stack| - 1 - (k + 1)]
      {
      }
      SoundShift(s, stack);
    }
  }

  lemma SoundShift(s: AbsStack, stack: seq<u32>)
    requires s != [] && stack != []
    ensures (forall k: nat | k < |stack| :: Known(s, k).Some? ==> Known(s, k).value == stack[|stack| - 1 - k]) <==>
            && (Last(s).Some? ==> Last(stack) == Last(s).value)
            && forall k: nat | k < |stack| - 1 ::
                 Known(Below(s), k).Some? ==> Known(Below(s), k).value == Below(stack)[|stack| - 2 - k]
  {
    if forall k: nat | k < |stack| :: Known(s, k).Some? ==> Known(s, k).value == stack[|stack| - 1 - k] {
      assert Known(s, 0) == Last(s);
      forall k: nat | k < |stack| - 1
        ensures Known(Below(s), k).Some? ==> Known(Below(s), k).value == Below(stack)[|stack| - 2 - k]
      {
        assert Known(Below(s), k) == Known(s, k + 1);
      }
    }
    if && (Last(s).Some? ==> Last(stack) == Last(s).value)
       && forall k: nat | k < |stack| - 1 ::
            Known(Below(s), k).Some? ==> Known(Below(s), k).value == Below(stack)[|stack| - 2 - k] {
      forall k: nat | k < |stack|
        ensures Known(s, k).Some? ==> Known(s, k).value == stack[|stack| - 1 - k]
      {
        if k > 0 {
          assert Known(Below(s), k - 1) == Known(s, k);
        }
      }
    }
  }

  lemma LessSpecificSound(s': AbsStack, s: AbsStack, stack: seq<u32>)
    requires NoMoreSpecific(s', s) && Sound(s, stack) && |stack| <= STACK_MAX - 2
    ensures Sound(s', stack)
  {
    hide Sound, Known;
    SoundAt(s, stack);
    SoundAt(s', stack);
  }

  /** What the pass believes holds in the state it describes. */
  predicate Believed(m: Module, st: State)
  {
    st.pc <= |m.code| && |st.mem| == m.memSize && Sound(AbsAt(m, st.pc), st.stack)
  }

  predicate StaysBelieved(m: Module, o: Outcome)
  {
    o.Running? ==> Believed(m, o.st)
  }

  lemma FallsThrough(m: Module, pc: nat, stack: seq<u32>)
    requires pc < |m.code| && Sound(Transfer(AbsAt(m, pc), m.code[pc]), stack)
    ensures Sound(AbsAt(m, pc + 1), stack)
  {
    hide Transfer, Sound, IsTarget;
    SoundMeet(m, pc + 1, Transfer(AbsAt(m, pc), m.code[pc]), stack);
  }

  lemma Lands(m: Module, t: nat, stack: seq<u32>)
    requires t <= |m.code| && IsTarget(m, t)
    ensures Sound(AbsAt(m, t), stack)
  {
    hide Transfer, Sound, IsTarget;
    if t == 0 {
      SoundMeet(m, 0, [], stack);
    } else {
      SoundMeet(m, t, Transfer(AbsAt(m, t - 1), m.code[t - 1]), stack);
    }
  }

  lemma PushFits(m: Module, i: nat)
    requires m.Shaped() && Accepted(m) && i < |m.code| && (m.code[i].op.Const? || m.code[i].op.LocalGet?)
    ensures |AbsAt(m, i)| < STACK_MAX
  {
    hide AbsAt, Depth;
    AbsDepth(m, i);
    assert InstOk(m, i);
  }

  lemma PushStep(m: Module, st: State)
    requires m.Shaped() && Accepted(m) && st.pc < |m.code| && Believed(m, st)
    requires m.code[st.pc].op.Const? || m.code[st.pc].op.LocalGet?
    ensures StaysBelieved(m, Execute(m, st))
  {
    hide AbsAt, Sound, Depth, Binary, DoLoad, DoStore, DoCall, Accepted;
    var i, s := m.code[st.pc], AbsAt(m, st.pc);
    PushFits(m, st.pc);
    if i.op.Const? {
      SoundPush(s, st.stack, Some(i.imm), i.imm);
      FallsThrough(m, st.pc, st.stack + [i.imm]);
    } else if i.a < |st.locals| {
      SoundPush(s, st.stack, None, st.locals[i.a]);
      FallsThrough(m, st.pc, st.stack + [st.locals[i.a]]);
    }
  }

  lemma PopStep(m: Module, st: State)
    requires m.Shaped() && st.pc < |m.code| && Believed(m, st)
    requires m.code[st.pc].op.LocalSet? || m.code[st.pc].op.Drop? || m.code[st.pc].op.Store?
    ensures StaysBelieved(m, Execute(m, st))
  {
    hide AbsAt, Sound, Binary, DoLoad, DoCall, InBounds, Write32;
    var i, s, stack := m.code[st.pc], AbsAt(m, st.pc), st.stack;
    if i.op.Store? {
      if |stack| >= 2 {
        SoundPopTwo(s, stack);
        assert stack[..|stack| - 2] + [] == stack[..|stack| - 2];
        FallsThrough(m, st.pc, stack[..|stack| - 2]);
      }
    } else if stack != [] {
      SoundPop(s, stack);
      assert Below(stack) + [] == Below(stack);
      FallsThrough(m, st.pc, Below(stack));
    }
  }

  /** `Eqz` and a checked load both leave some value in place of the top one. */
  lemma ReplacesTop(m: Module, st: State)
    requires m.Shaped() && st.pc < |m.code|
    requires m.code[st.pc].op.Eqz? || m.code[st.pc].op.Load?
    requires Execute(m, st).Running?
    ensures var r := Execute(m, st).st;
      && st.stack != [] && r.stack != [] && r.stack == Below(st.stack) + [Last(r.stack)]
      && r.pc == st.pc + 1 && |r.mem| == |st.mem|
  {
    hide Binary, DoStore, DoCall, InBounds, Read32;
  }

  lemma ReplaceStep(m: Module, st: State)
    requires m.Shaped() && st.pc < |m.code| && Believed(m, st)
    requires m.code[st.pc].op.Eqz? || m.code[st.pc].op.Load?
    ensures StaysBelieved(m, Execute(m, st))
  {
    hide AbsAt, Sound, Execute;
    var o := Execute(m, st);
    if o.Running? {
      ReplacesTop(m, st);
      SoundReplace(AbsAt(m, st.pc), st.stack, Last(o.st.stack));
      FallsThrough(m, st.pc, o.st.stack);
    }
  }

  lemma BinaryStep(m: Module, st: State)
    requires m.Shaped() && st.pc < |m.code| && Believed(m, st) && IsBinary(m.code[st.pc].op)
    ensures StaysBelieved(m, Execute(m, st))
  {
    hide AbsAt, Sound, Binary, DoLoad, DoStore, DoCall;
    var o := Execute(m, st);
    if o.Running? {
      var v := Last(o.st.stack);
      assert o.st.stack == st.stack[..|st.stack| - 2] + [v];
      SoundReplaceTwo(AbsAt(m, st.pc), st.stack, v);
      FallsThrough(m, st.pc, o.st.stack);
    }
  }

  lemma JumpStep(m: Module, st: State)
    requires m.Shaped() && Accepted(m) && st.pc < |m.code| && Believed(m, st)
    requires m.code[st.pc].op.Br? || m.code[st.pc].op.BrIf?
    ensures StaysBelieved(m, Execute(m, st))
  {
    hide AbsAt, Sound, Execute, Depth, Verdict, IsTarget;
    var i, o := m.code[st.pc], Execute(m, st);
    if o.Running? {
      JumpEffect(m, st);
      if o.st.pc != i.a {
        SoundPop(AbsAt(m, st.pc), st.stack);
        FallsThrough(m, st.pc, o.st.stack);
      } else {
        assert IsBranch(m.code[st.pc]) && m.code[st.pc].a == i.a;
        BranchIsTarget(m, st.pc);
        Lands(m, o.st.pc, o.st.stack);
      }
    }
  }

  lemma BranchIsTarget(m: Module, i: nat)
    requires i < |m.code| && IsBranch(m.code[i])
    ensures IsTarget(m, m.code[i].a)
  {
  }

  lemma JumpEffect(m: Module, st: State)
    requires m.Shaped() && Accepted(m) && st.pc < |m.code|
    requires m.code[st.pc].op.Br? || m.code[st.pc].op.BrIf?
    requires Execute(m, st).Running?
    ensures var r, a := Execute(m, st).st, m.code[st.pc].a;
      && r.pc <= |m.code| && r.mem == st.mem
      && (r.pc == a || (m.code[st.pc].op.BrIf? && r.pc == st.pc + 1 && st.stack != [] && r.stack == Below(st.stack)))
  {
    assert InstOk(m, st.pc);
    hide Binary, DoLoad, DoStore, Depth;
  }

  lemma CallStep(m: Module, st: State)
    requires m.Shaped() && Accepted(m) && st.pc < |m.code| && CallCovered(m, st.pc) && Believed(m, st)
    requires m.code[st.pc].op.CallIndirect? && |st.stack| < STACK_MAX
    ensures StaysBelieved(m, Execute(m, st))
  {
    hide AbsAt, Sound, Execute, Depth, Verdict, IsTarget, NoMoreSpecific;
    var o := Execute(m, st);
    if o.Running? {
      CallEffect(m, st);
      var idx, s := Last(st.stack), AbsAt(m, st.pc);
      KnownTop(s, st.stack);
      SoundPop(s, st.stack);
      assert CanTake(m, st.pc, idx);
      LessSpecificSound(AbsAt(m, o.st.pc), PopAbs(s, 1), Below(st.stack));
    }
  }

  lemma KnownTop(s: AbsStack, stack: seq<u32>)
    requires Sound(s, stack) && stack != []
    ensures Known(s, 0) in {None, Some(Last(stack))}
  {
  }

  lemma CallEffect(m: Module, st: State)
    requires m.Shaped() && Accepted(m) && st.pc < |m.code| && m.code[st.pc].op.CallIndirect?
    requires Execute(m, st).Running?
    ensures st.stack != []
    ensures var r, idx := Execute(m, st).st, Last(st.stack);
      && Callable(m, m.code[st.pc].a, idx) && r.pc == m.table.value[idx] < |m.code|
      && r.mem == st.mem && r.stack == Below(st.stack)
  {
    hide Binary, DoLoad, DoStore, Depth;
  }

  lemma StepBelieved(m: Module, st: State)
    requires m.Shaped() && Accepted(m) && IndirectCovered(m) && Believed(m, st)
    ensures StaysBelieved(m, Step(m, st))
  {
    if st.pc < |m.code| && |st.stack| < STACK_MAX {
      var op := m.code[st.pc].op;
      assert InstOk(m, st.pc) && CallCovered(m, st.pc);
      hide Believed, CallCovered;
      if op.Const? || op.LocalGet? {
        PushStep(m, st);
      } else if op.LocalSet? || op.Drop? || op.Store? {
        PopStep(m, st);
      } else if op.Eqz? || op.Load? {
        ReplaceStep(m, st);
      } else if IsBinary(op) {
        BinaryStep(m, st);
      } else if op.Br? || op.BrIf? {
        JumpStep(m, st);
      } else if op.CallIndirect? {
        CallStep(m, st);
      }
    }
  }

  /** A full stack that contradicts `s'` wherever `s` allows it. */
  function Contrary(s': AbsStack, s: AbsStack, n: nat): (stack: seq<u32>)
    ensures |stack| == n
  {
    seq(n, j requires 0 <= j < n =>
      var k := n - 1 - j;
      if Known(s, k).Some? then Known(s, k).value
      else if Known(s', k) == Some(0) then 1 else 0)
  }

  /** Only by believing no more does the landing stay right for that stack. */
  lemma ContraryShows(s': AbsStack, s: AbsStack)
    requires Sound(s', Contrary(s', s, STACK_MAX - 2))
    ensures NoMoreSpecific(s', s)
  {
    var n := STACK_MAX - 2;
    var stack := Contrary(s', s, n);
    SoundAt(s', stack);
    hide Sound, Known;
    forall k: nat | k < n && Known(s', k).Some?
      ensures Known(s, k) == Known(s', k)
    {
      assert stack[n - 1 - k] ==
        if Known(s, k).Some? then Known(s, k).value else if Known(s', k) == Some(0) then 1 else 0;
    }
  }

  lemma ContrarySound(s': AbsStack, s: AbsStack, t: u32)
    requires Known(s, 0) in {None, Some(t)}
    ensures Sound(s, Contrary(s', PopAbs(s, 1), STACK_MAX - 2) + [t])
  {
    var n := STACK_MAX - 2;
    var rest := Contrary(s', PopAbs(s, 1), n);
    SoundAt(s, rest + [t]);
    hide Sound;
    forall k: nat | k < n + 1 && Known(s, k).Some?
      ensures Known(s, k).value == (rest + [t])[n - k]
    {
      if k > 0 {
        assert Known(PopAbs(s, 1), k - 1) == Known(s, k);
        assert (rest + [t])[n - k] == rest[n - 1 - (k - 1)];
      }
    }
  }

  lemma CallForcesCover(m: Module, i: nat, t: nat)
    requires m.Shaped() && i < |m.code| && t < m.tableLen && CanTake(m, i, t) && m.table.value[t] < |m.code|
    requires forall st | Believed(m, st) :: StaysBelieved(m, Step(m, st))
    ensures NoMoreSpecific(AbsAt(m, m.table.value[t]), PopAbs(AbsAt(m, i), 1))
  {
    var s', s := AbsAt(m, m.table.value[t]), AbsAt(m, i);
    var rest := Contrary(s', PopAbs(s, 1), STACK_MAX - 2);
    var st := State(rest + [t], [], i, seq(m.memSize, _ => 0), false);
    ContrarySound(s', s, t);
    hide AbsAt, Sound, Contrary, NoMoreSpecific, Known;
    assert Believed(m, st);
    LandsAt(m, st, rest, t);
    ContraryShows(s', PopAbs(s, 1));
  }

  lemma LandsAt(m: Module, st: State, rest: seq<u32>, t: u32)
    requires m.Shaped() && st.pc < |m.code| && m.code[st.pc].op.CallIndirect? && Callable(m, m.code[st.pc].a, t)
    requires st.stack == rest + [t] && |rest| < STACK_MAX - 1
    ensures Step(m, st) == Running(st.(stack := rest, pc := m.table.value[t]))
  {
    hide Binary, DoLoad, DoStore;
  }

  /** For every accepted module, what the pass believes is kept by every step exactly when
      the indirect calls are covered. */
  lemma BeliefIffCovered(m: Module)
    requires m.Shaped() && Accepted(m)
    ensures (forall st | Believed(m, st) :: StaysBelieved(m, Step(m, st))) <==> IndirectCovered(m)
  {
    hide Step, Believed, AbsAt, CanTake, NoMoreSpecific;
    if IndirectCovered(m) {
      forall st | Believed(m, st)
        ensures StaysBelieved(m, Step(m, st))
      {
        StepBelieved(m, st);
      }
    }
    if forall st | Believed(m, st) :: StaysBelieved(m, Step(m, st)) {
      forall i, t: nat | 0 <= i < |m.code| && t < m.tableLen && CanTake(m, i, t) && m.table.value[t] < |m.code|
        ensures NoMoreSpecific(AbsAt(m, m.table.value[t]), PopAbs(AbsAt(m, i), 1))
      {
        CallForcesCover(m, i, t);
      }
    }
  }

  /** A known address that is inside is not wrapped and passes the check. */
  lemma KnownIsInBounds(x: Option<u32>, v: u32, imm: u32, size: u32)
    requires KnownInside(x, imm, size) && v == x.value
    ensures Wrap(v + imm) == (v as int) + imm && InBounds(Wrap(v + imm), size)
  {
  }

  lemma TopIsKnown(s: AbsStack, stack: seq<u32>)
    requires Sound(s, stack)
    ensures s != [] && stack != [] && Last(s).Some? ==> Last(stack) == Last(s).value
    ensures |s| >= 2 && |stack| >= 2 && s[|s| - 2].Some? ==> stack[|stack| - 2] == s[|s| - 2].value
  {
  }

  /** In a believed state the rewritten instruction does what the original does. */
  lemma SameStep(m: Module, st: State)
    requires m.Shaped() && Believed(m, st)
    ensures Step(m, st) == Step(Elided(m), st)
  {
    if st.pc < |m.code| && |st.stack| < STACK_MAX {
      ElidedCode(m, st.pc);
      hide AbsAt, Sound, Elided, Binary;
      if |m.code| <= 4096 && Proven(m, st.pc) {
        RawIsChecked(m, st);
        if m.code[st.pc].op.Load? {
          RawLoad(m, Elided(m), st);
        } else {
          RawStore(m, Elided(m), st);
        }
      } else {
        UnchangedStep(m, Elided(m), st);
      }
    }
  }

  lemma ElidedCode(m: Module, i: nat)
    requires i < |m.code|
    ensures Elided(m) == m.(code := Elided(m).code)
    ensures Elided(m).code[i] == if |m.code| <= 4096 then Rewritten(m, i) else m.code[i]
  {
  }

  lemma UnchangedStep(m: Module, m': Module, st: State)
    requires m.Shaped() && m'.Shaped() && m' == m.(code := m'.code) && st.pc < |m.code| == |m'.code|
    requires m.code[st.pc] == m'.code[st.pc]
    ensures Execute(m, st) == Execute(m', st)
  {
    hide Binary, DoLoad, DoStore, DoCall, Guarded;
    if st.stack != [] {
      SameCall(m, m', st, m.code[st.pc].a);
    }
  }

  lemma SameCall(m: Module, m': Module, st: State, typeId: nat)
    requires m.Shaped() && m'.Shaped() && m' == m.(code := m'.code) && st.stack != []
    ensures DoCall(m, st, typeId) == DoCall(m', st, typeId)
  {
  }

  /** The address operand of a proven access, if there is one, is inside the memory. */
  lemma RawIsChecked(m: Module, st: State)
    requires st.pc < |m.code| && Believed(m, st) && Proven(m, st.pc)
    ensures var n, s, i := |st.stack|, st.stack, m.code[st.pc];
      && (i.op.Load? && n >= 1 ==>
          (s[n - 1] as int) + i.imm + 4 <= m.memSize && InBounds(Wrap(s[n - 1] + i.imm), |st.mem|))
      && (i.op.Store? && n >= 2 ==>
          (s[n - 2] as int) + i.imm + 4 <= m.memSize && InBounds(Wrap(s[n - 2] + i.imm), |st.mem|))
  {
    hide AbsAt, Sound, InBounds;
    var n, s, i := |st.stack|, st.stack, m.code[st.pc];
    var abs := AbsAt(m, st.pc);
    TopIsKnown(abs, s);
    if i.op.Load? && n >= 1 {
      KnownIsInBounds(Last(abs), s[n - 1], i.imm, m.memSize);
    }
    if i.op.Store? && n >= 2 {
      KnownIsInBounds(abs[|abs| - 2], s[n - 2], i.imm, m.memSize);
    }
  }

  lemma RawLoad(m: Module, m': Module, st: State)
    requires m.Shaped() && m'.Shaped() && st.pc < |m.code| == |m'.code|
    requires m.code[st.pc].op.Load? && m'.code[st.pc] == m.code[st.pc].(op := LoadRaw)
    requires st.stack != [] ==> InBounds(Wrap(Last(st.stack) + m.code[st.pc].imm), |st.mem|)
    ensures Execute(m, st) == Execute(m', st)
  {
    hide Binary, InBounds, DoLoad, DoStore, DoCall, Guarded, Wrap;
  }

  lemma RawStore(m: Module, m': Module, st: State)
    requires m.Shaped() && m'.Shaped() && st.pc < |m.code| == |m'.code|
    requires m.code[st.pc].op.Store? && m'.code[st.pc] == m.code[st.pc].(op := StoreRaw)
    requires |st.stack| >= 2 ==> InBounds(Wrap(st.stack[|st.stack| - 2] + m.code[st.pc].imm), |st.mem|)
    ensures Execute(m, st) == Execute(m', st)
  {
    hide Binary, InBounds, DoLoad, DoStore, DoCall, Guarded, Wrap;
  }

  /** The memory bound at binding time is as long as the module says. */
  lemma StartBelieved(m: Module, args: seq<u32>, mem: seq<byte>)
    requires |mem| == m.memSize
    ensures Believed(m, Start(m, args, mem))
  {
  }

  lemma {:induction false} RunBelieved(m: Module, args: seq<u32>, mem: seq<byte>, n: nat)
    requires m.Shaped() && Accepted(m) && IndirectCovered(m) && |mem| == m.memSize
    ensures StaysBelieved(m, Run(m, Start(m, args, mem), n))
  {
    hide Step, Believed, IndirectCovered, Accepted;
    if n == 0 {
      StartBelieved(m, args, mem);
    } else {
      RunBelieved(m, args, mem, n - 1);
      var o := Run(m, Start(m, args, mem), n - 1);
      if o.Running? {
        StepBelieved(m, o.st);
      }
    }
  }

  /** Elision preserves meaning: after every number of steps the optimized module is in
      the same state, or has ended the same way, as the original. */
  lemma {:induction false} ElisionPreservesRuns(m: Module, args: seq<u32>, mem: seq<byte>, n: nat)
    requires m.Shaped() && Accepted(m) && IndirectCovered(m) && |mem| == m.memSize
    ensures Run(Elided(m), Start(m, args, mem), n) == Run(m, Start(m, args, mem), n)
  {
    hide Step, Believed, IndirectCovered, Accepted, Elided;
    assert Elided(m).Shaped() by { ElidedShape(m); }
    if n > 0 {
      ElisionPreservesRuns(m, args, mem, n - 1);
      RunBelieved(m, args, mem, n - 1);
      var o := Run(m, Start(m, args, mem), n - 1);
      if o.Running? {
        SameStep(m, o.st);
      }
    }
  }

  lemma ElidedShape(m: Module)
    ensures Elided(m) == m.(code := Elided(m).code)
  {
  }

  /** Every elided access that is executed lies inside the memory, its address unwrapped. */
  lemma ElidedAccessesInside(m: Module, args: seq<u32>, mem: seq<byte>, n: nat)
    requires m.Shaped() && Accepted(m) && IndirectCovered(m) && |mem| == m.memSize
    requires Run(m, Start(m, args, mem), n).Running?
    ensures var st := Run(m, Start(m, args, mem), n).st;
      var s, k := st.stack, |st.stack|;
      st.pc < |m.code| ==>
        var i := Elided(m).code[st.pc];
        && (i.op.LoadRaw? && k >= 1 ==> (s[k - 1] as int) + i.imm + 4 <= m.memSize)
        && (i.op.StoreRaw? && k >= 2 ==> (s[k - 2] as int) + i.imm + 4 <= m.memSize)
  {
    hide Run, Believed, IndirectCovered;
    RunBelieved(m, args, mem, n);
    var st := Run(m, Start(m, args, mem), n).st;
    if st.pc < |m.code| {
      RawInside(m, st);
    }
  }

  lemma RawInside(m: Module, st: State)
    requires m.Shaped() && Accepted(m) && Believed(m, st) && st.pc < |m.code|
    ensures var s, k, i := st.stack, |st.stack|, Elided(m).code[st.pc];
      && (i.op.LoadRaw? && k >= 1 ==> (s[k - 1] as int) + i.imm + 4 <= m.memSize)
      && (i.op.StoreRaw? && k >= 2 ==> (s[k - 2] as int) + i.imm + 4 <= m.memSize)
  {
    hide Believed, AbsAt, Depth, InBounds, KnownInside, Elided;
    assert InstOk(m, st.pc);
    ElidedCode(m, st.pc);
    if |m.code| <= 4096 && Proven(m, st.pc) {
      RawIsChecked(m, st);
    }
  }

  /** A checked module on which elision is unsound: the indirect call lands behind the
      constant that the pass takes for the address. */
  const landsBehindConst := Module(
    [Inst(Const, 0, 100), Inst(Const, 0, 0), Inst(CallIndirect, 0, 0), Inst(Const, 0, 0),
     Inst(Load, 0, 0), Inst(End, 0, 0)],
    0, 4, Some([4]), None, 1)

  lemma LandsBehindConstDepths()
    ensures var c := landsBehindConst.code;
      && Depth(c, 0) == 0 && Depth(c, 1) == 1 && Depth(c, 2) == 2 && Depth(c, 3) == 1
      && Depth(c, 4) == 2 && Depth(c, 5) == 2
  {
  }

  lemma LandsBehindConstChecked(i: nat)
    requires i < 6
    ensures InstOk(landsBehindConst, i)
  {
    LandsBehindConstDepths();
    hide Depth;
  }

  lemma LandsBehindConstAccepted()
    ensures landsBehindConst.Shaped() && Accepted(landsBehindConst)
    ensures forall t :: !IsTarget(landsBehindConst, t)
  {
    hide InstOk;
    forall i | 0 <= i < |landsBehindConst.code|
      ensures InstOk(landsBehindConst, i)
    {
      LandsBehindConstChecked(i);
    }
  }

  lemma LandsBehindConstElided()
    ensures Elided(landsBehindConst).code[..4] == landsBehindConst.code[..4]
    ensures Elided(landsBehindConst).code[4] == Inst(LoadRaw, 0, 0)
  {
    var m := landsBehindConst;
    LandsBehindConstAccepted();
    hide IsTarget;
    assert AbsAt(m, 0) == [] && AbsAt(m, 1) == [Some(100)] && AbsAt(m, 2) == [Some(100), Some(0)];
    assert AbsAt(m, 3) == [Some(100)] && AbsAt(m, 4) == [Some(100), Some(0)];
    hide AbsAt;
    assert Rewritten(m, 4) == Inst(LoadRaw, 0, 0);
  }

  lemma ConstStep(m: Module, st: State)
    requires m.Shaped() && st.pc < |m.code| && m.code[st.pc].op.Const? && |st.stack| < STACK_MAX - 1
    ensures Step(m, st) == Running(Push(st, m.code[st.pc].imm))
  {
    hide Binary, DoLoad, DoStore, DoCall;
  }

  /** Three steps take either code to the load with the operand 100. */
  lemma LandsBehindConstRun(m: Module, mem: seq<byte>)
    requires m == landsBehindConst.(code := m.code) && |m.code| == 6 && m.code[..4] == landsBehindConst.code[..4]
    ensures Run(m, State([], [], 0, mem, false), 3) == Running(State([100], [], 4, mem, false))
  {
    hide Step;
    var st0, st1 := State([], [], 0, mem, false), State([100], [], 1, mem, false);
    var st2 := State([100, 0], [], 2, mem, false);
    assert m.code[0] == m.code[..4][0] && m.code[1] == m.code[..4][1] && m.code[2] == m.code[..4][2];
    ConstStep(m, st0);
    ConstStep(m, st1);
    LandsAt(m, st2, [100], 0);
    assert Run(m, st0, 1) == Running(st1);
    assert Run(m, st0, 2) == Running(st2);
  }

  lemma LandsBehindConstUncovered()
    ensures !IndirectCovered(landsBehindConst)
  {
    var m := landsBehindConst;
    LandsBehindConstAccepted();
    hide IsTarget;
    assert AbsAt(m, 0) == [] && AbsAt(m, 1) == [Some(100)] && AbsAt(m, 2) == [Some(100), Some(0)];
    assert AbsAt(m, 3) == [Some(100)] && AbsAt(m, 4) == [Some(100), Some(0)];
    hide AbsAt;
    assert CanTake(m, 2, 0);
    assert Known(AbsAt(m, 4), 0) == Some(0) && Known(PopAbs(AbsAt(m, 2), 1), 0) == Some(100);
    assert !CallCovered(m, 2);
  }

  lemma LastStep(m: Module, mem: seq<byte>)
    requires m.Shaped() && |m.code| == 6 && |mem| == 4 && m.code[4] in {Inst(Load, 0, 0), Inst(LoadRaw, 0, 0)}
    ensures var o := Step(m, State([100], [], 4, mem, false));
      if m.code[4].op.Load? then o.Running? else o.Wild?
  {
    hide Binary, DoStore, DoCall, Read32;
  }

  lemma IndirectCallsBreakElision(mem: seq<byte>)
    requires |mem| == 4
    ensures landsBehindConst.Shaped() && Accepted(landsBehindConst) && !IndirectCovered(landsBehindConst)
    ensures Run(landsBehindConst, State([], [], 0, mem, false), 4).Running?
    ensures Run(Elided(landsBehindConst), State([], [], 0, mem, false), 4).Wild?
  {
    hide Elided, Accepted, IndirectCovered, IsTarget, Step;
    var m, e := landsBehindConst, Elided(landsBehindConst);
    LandsBehindConstAccepted();
    LandsBehindConstElided();
    ElidedShape(m);
    LandsBehindConstUncovered();
    LandsBehindConstRun(m, mem);
    LandsBehindConstRun(e, mem);
    LastStep(m, mem);
    LastStep(e, mem);
  }

  /** `cvsasx_gate_optimize` in its proving mode: mark the branch targets, then one pass
      with an abstract stack that rewrites in place. */
  method Optimize(m: Module, outCode: array<Inst>) returns (elided: nat)
    requires outCode.Length == |m.code|
    modifies outCode
    ensures m.(code := outCode[..]) == Elided(m)
    ensures elided == if |m.code| > 4096 then 0 else CountProven(m, |m.code|)
  {
    hide AbsAt, IsTarget, Transfer, Elided, Proven, Rewritten, CountProven;
    var n := |m.code|;
    forall i | 0 <= i < n {
      outCode[i] := m.code[i];
    }
    elided := 0;
    if n > 4096 {
      assert outCode[..] == m.code;
      ElidedCopy(m);
      return;
    }
    var isTarget := MarkTargets(m);
    var cs: AbsStack := [];
    AbsStart(m);
    CountStart(m);
    for i := 0 to n
      invariant cs == if i == 0 then [] else Transfer(AbsAt(m, i - 1), m.code[i - 1])
      invariant forall t | 0 <= t < n :: isTarget[t] <==> IsTarget(m, t)
      invariant elided == CountProven(m, i)
      invariant forall j | 0 <= j < i :: outCode[j] == Rewritten(m, j)
      invariant forall j | i <= j < n :: outCode[j] == m.code[j]
    {
      if isTarget[i] {
        cs := AllUnknown(cs);
      }
      AbsNext(m, i);
      RewriteStep(m, i);
      var inst := m.code[i];
      var prove := ProveAccess(m, i, cs);
      if prove {
        outCode[i] := inst.(op := if inst.op.Load? then LoadRaw else StoreRaw);
        elided := elided + 1;
      }
      cs := Transfer(cs, inst);
    }
    ElidedIs(m, outCode[..]);
  }

  lemma ElidedCopy(m: Module)
    requires |m.code| > 4096
    ensures Elided(m) == m
  {
  }

  lemma CountStart(m: Module)
    ensures CountProven(m, 0) == 0
  {
  }

  lemma RewriteStep(m: Module, i: nat)
    requires i < |m.code|
    ensures CountProven(m, i + 1) == CountProven(m, i) + if Proven(m, i) then 1 else 0
    ensures Rewritten(m, i) ==
      if Proven(m, i) then m.code[i].(op := if m.code[i].op.Load? then LoadRaw else StoreRaw) else m.code[i]
  {
    hide Proven;
  }

  lemma AbsStart(m: Module)
    ensures AbsAt(m, 0) == Meet(m, 0, [])
  {
  }

  lemma AbsNext(m: Module, i: nat)
    requires i <= |m.code|
    ensures AbsAt(m, i) == Meet(m, i, if i == 0 then [] else Transfer(AbsAt(m, i - 1), m.code[i - 1]))
  {
  }

  lemma ElidedIs(m: Module, code: seq<Inst>)
    requires |m.code| <= 4096 && |code| == |m.code| && forall j | 0 <= j < |code| :: code[j] == Rewritten(m, j)
    ensures m.(code := code) == Elided(m)
  {
    assert code == Elided(m).code;
  }

  /** The number of accesses among the first `n` that are proven. */
  function CountProven(m: Module, n: nat): nat
    requires n <= |m.code|
  {
    if n == 0 then 0 else CountProven(m, n - 1) + if Proven(m, n - 1) then 1 else 0
  }

  method MarkTargets(m: Module) returns (isTarget: array<bool>)
    ensures fresh(isTarget) && isTarget.Length == |m.code|
    ensures forall t | 0 <= t < |m.code| :: isTarget[t] <==> IsTarget(m, t)
  {
    isTarget := new bool[|m.code|](_ => false);
    for i := 0 to |m.code|
      invariant forall t | 0 <= t < |m.code| ::
                  isTarget[t] <==> exists j :: 0 <= j < i && IsBranch(m.code[j]) && m.code[j].a == t
    {
      if IsBranch(m.code[i]) && m.code[i].a < |m.code| {
        isTarget[m.code[i].a] := true;
      }
    }
  }

  /** The test of the pass, on its own stack, in 64-bit arithmetic. */
  method ProveAccess(m: Module, i: nat, cs: AbsStack) returns (prove: bool)
    requires i < |m.code| && cs == AbsAt(m, i)
    ensures prove <==> Proven(m, i)
  {
    hide AbsAt;
    var inst := m.code[i];
    prove := false;
    if inst.op.Load? && |cs| >= 1 {
      var x := cs[|cs| - 1];
      prove := x.Some? && (x.value as int) + inst.imm + 4 <= m.memSize;
    } else if inst.op.Store? && |cs| >= 2 {
      var x := cs[|cs| - 2];
      prove := x.Some? && (x.value as int) + inst.imm + 4 <= m.memSize;
    }
  }
}
