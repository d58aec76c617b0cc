/** The in-place executor over the software memory backend, proved step by step against
    the meaning of a run. */
module GateExecutor {
  import opened Bits
  import opened GateIr

  /** The software backend: bound memory and a sticky fault flag. */
  class Backend {
    const mem: array<byte>
    var fault: bool

    constructor (mem: array<byte>)
      ensures this.mem == mem && !fault
    {
      this.mem := mem;
      fault := false;
    }

    method Load32(addr: u32) returns (v: u32)
      modifies this`fault
      ensures fault == (old(fault) || !InBounds(addr, mem.Length))
      ensures v == if InBounds(addr, mem.Length) then Read32(mem[..], addr) else 0
    {
      if !InBounds(addr, mem.Length) {
        fault := true;
        return 0;
      }
      v := Load32Raw(addr);
    }

    method Store32(addr: u32, v: u32)
      modifies this`fault, mem
      ensures fault == (old(fault) || !InBounds(addr, mem.Length))
      ensures mem[..] == if InBounds(addr, mem.Length) then Write32(old(mem[..]), addr, v) else old(mem[..])
    {
      if !InBounds(addr, mem.Length) {
        fault := true;
        return;
      }
      Store32Raw(addr, v);
    }

    /** No check: only meaningful where the access is known to be inside. */
    method Load32Raw(addr: u32) returns (v: u32)
      requires InBounds(addr, mem.Length)
      ensures v == Read32(mem[..], addr)
    {
      v := Word(mem[addr], mem[addr + 1], mem[addr + 2], mem[addr + 3]);
    }

    method Store32Raw(addr: u32, v: u32)
      requires InBounds(addr, mem.Length)
      modifies mem
      ensures mem[..] == Write32(old(mem[..]), addr, v)
    {
      mem[addr] := v % 0x100;
      mem[addr + 1] := v / 0x100 % 0x100;
      mem[addr + 2] := v / 0x1_0000 % 0x100;
      mem[addr + 3] := v / 0x100_0000;
    }
  }

  /** What one step of the loop decides. */
  datatype Control = Continue | Halt(status: Status, result: u32) | Undefined

  class Machine {
    const m: Module
    const be: Backend
    const stack: array<u32>
    var sp: nat
    const locals: array<u32>
    var pc: nat

    ghost predicate Valid()
      reads this
    {
      && m.Shaped() && m.nLocals <= LOCALS_MAX
      && stack.Length == STACK_MAX && locals.Length == LOCALS_MAX && stack != locals && sp < STACK_MAX
      && be.mem as object != stack && be.mem as object != locals
    }

    ghost function State(): State
      requires Valid()
      reads this, stack, locals, be, be.mem
    {
      GateIr.State(stack[..sp], locals[..m.nLocals], pc, be.mem[..], be.fault)
    }

    /** `ctl` is what the step function says about the state before. */
    ghost predicate Agrees(o: Outcome, ctl: Control)
      reads this, stack, locals, be, be.mem
    {
      match ctl
      case Continue => Valid() && o == Running(State())
      case Halt(status, result) => o == Done(status, result, be.mem[..], be.fault)
      case Undefined => o.Wild?
    }

    constructor (m: Module, be: Backend, args: seq<u32>)
      requires m.Shaped() && m.nLocals <= LOCALS_MAX && !be.fault
      ensures Valid() && this.m == m && this.be == be && fresh(stack) && fresh(locals)
      ensures State() == Start(m, args, be.mem[..])
    {
      this.m := m;
      this.be := be;
      stack := new u32[STACK_MAX];
      locals := new u32[LOCALS_MAX];
      sp := 0;
      pc := 0;
      new;
      for i := 0 to m.nLocals
        modifies locals
        invariant forall k | 0 <= k < i :: locals[k] == if k < |args| then args[k] else 0
      {
        locals[i] := if i < |args| then args[i] else 0;
      }
      assert locals[..m.nLocals] == InitLocals(m.nLocals, args);
    }

    /** The guard after an instruction that left `sp` operands. */
    method Guard() returns (ctl: Control)
      requires m.Shaped() && m.nLocals <= LOCALS_MAX && stack.Length == STACK_MAX && locals.Length == LOCALS_MAX
      requires stack != locals && be.mem as object != stack && be.mem as object != locals && sp <= STACK_MAX
      ensures Agrees(Guarded(GateIr.State(stack[..sp], locals[..m.nLocals], pc, be.mem[..], be.fault)), ctl)
    {
      if sp >= STACK_MAX {
        return Halt(RejectStack, 0);
      }
      return Continue;
    }

    method PushValue(v: u32) returns (ctl: Control)
      requires Valid()
      modifies this`sp, this`pc, stack
      ensures Agrees(Guarded(Push(old(State()), v)), ctl)
    {
      ghost var before := stack[..sp];
      stack[sp] := v;
      sp, pc := sp + 1, pc + 1;
      assert stack[..sp] == before + [v];
      ctl := Guard();
    }

    /** Pop `n` operands and push `v`. */
    method ReplaceValues(n: nat, v: u32) returns (ctl: Control)
      requires Valid() && 1 <= n <= sp
      modifies this`sp, this`pc, stack
      ensures Agrees(Guarded(Replace(old(State()), n, [v])), ctl)
    {
      ghost var before := stack[..sp];
      stack[sp - n] := v;
      sp, pc := sp - n + 1, pc + 1;
      assert stack[..sp] == before[..|before| - n] + [v];
      ctl := Guard();
    }

    /** Pop `n` operands and continue at `next`. */
    method PopAndGo(n: nat, next: nat) returns (ctl: Control)
      requires Valid() && n <= sp
      modifies this`sp, this`pc
      ensures Agrees(Guarded(Replace(old(State()), n, []).(pc := next)), ctl)
    {
      ghost var before := stack[..sp];
      sp, pc := sp - n, next;
      assert stack[..sp] == before[..|before| - n] + [];
      ctl := Guard();
    }

    method ExecuteLoad(i: Inst) returns (ctl: Control)
      requires Valid() && pc < |m.code| && i == m.code[pc] && (i.op.Load? || i.op.LoadRaw?)
      modifies this, stack, be
      ensures Agrees(Execute(m, old(State())), ctl)
    {
      hide Binary, Read32, Write32, Guarded;
      if sp < 1 {
        return Undefined;
      }
      var addr := Wrap(stack[sp - 1] + i.imm);
      var v;
      if i.op.Load? {
        v := be.Load32(addr);
      } else {
        if !InBounds(addr, be.mem.Length) {
          return Undefined;
        }
        v := be.Load32Raw(addr);
      }
      ctl := ReplaceValues(1, v);
    }

    method ExecuteStore(i: Inst) returns (ctl: Control)
      requires Valid() && pc < |m.code| && i == m.code[pc] && (i.op.Store? || i.op.StoreRaw?)
      modifies this, be, be.mem
      ensures Agrees(Execute(m, old(State())), ctl)
    {
      hide Binary, Read32, Write32, Guarded;
      if sp < 2 {
        return Undefined;
      }
      var v, addr := stack[sp - 1], Wrap(stack[sp - 2] + i.imm);
      if i.op.Store? {
        be.Store32(addr, v);
      } else {
        if !InBounds(addr, be.mem.Length) {
          return Undefined;
        }
        be.Store32Raw(addr, v);
      }
      ctl := PopAndGo(2, pc + 1);
    }

    method ExecuteLocal(i: Inst) returns (ctl: Control)
      requires Valid() && pc < |m.code| && i == m.code[pc] && i.op in {Const, LocalGet, LocalSet, Drop, Eqz}
      modifies this, stack, locals
      ensures Agrees(Execute(m, old(State())), ctl)
    {
      hide Binary, Guarded, DoLoad, DoStore, DoCall;
      match i.op
      case Const =>
        ctl := PushValue(i.imm);
      case LocalGet =>
        if i.a >= m.nLocals {
          return Undefined;
        }
        ctl := PushValue(locals[i.a]);
      case LocalSet =>
        if i.a >= m.nLocals || sp < 1 {
          return Undefined;
        }
        ghost var before := locals[..m.nLocals];
        locals[i.a] := stack[sp - 1];
        assert locals[..m.nLocals] == before[i.a := stack[sp - 1]];
        ctl := PopAndGo(1, pc + 1);
      case Drop =>
        if sp < 1 {
          return Halt(RejectStack, 0);
        }
        ctl := PopAndGo(1, pc + 1);
      case Eqz =>
        if sp < 1 {
          return Undefined;
        }
        ctl := ReplaceValues(1, if stack[sp - 1] == 0 then 1 else 0);
    }

    method ExecuteJump(i: Inst) returns (ctl: Control)
      requires Valid() && pc < |m.code| && i == m.code[pc] && i.op in {Br, BrIf, CallIndirect}
      modifies this
      ensures Agrees(Execute(m, old(State())), ctl)
    {
      hide Binary, Guarded, DoLoad, DoStore;
      if i.op.Br? {
        assert stack[..sp][..sp] + [] == stack[..sp];
        ctl := PopAndGo(0, i.a);
        return;
      }
      if sp < 1 {
        return Undefined;
      }
      var x := stack[sp - 1];
      if i.op.BrIf? {
        ctl := PopAndGo(1, if x != 0 then i.a else pc + 1);
      } else if m.table.None? || x >= m.tableLen {
        return Halt(Trap, 0);
      } else if m.tableTypes.Some? && m.tableTypes.value[x] != i.a {
        return Halt(Trap, 0);
      } else {
        ctl := PopAndGo(1, m.table.value[x]);
      }
    }

    /** One round of the interpreter loop. */
    method StepInPlace() returns (ctl: Control)
      requires Valid()
      modifies this, stack, locals, be, be.mem
      ensures Agrees(Step(m, old(State())), ctl)
    {
      hide Binary, DoLoad, DoStore, DoCall;
      if pc >= |m.code| {
        return Halt(Ok, if sp > 0 then stack[sp - 1] else 0);
      }
      var i := m.code[pc];
      if i.op.Load? || i.op.LoadRaw? {
        hide Execute;
        ctl := ExecuteLoad(i);
      } else if i.op.Store? || i.op.StoreRaw? {
        hide Execute;
        ctl := ExecuteStore(i);
      } else if i.op in {Const, LocalGet, LocalSet, Drop, Eqz} {
        hide Execute;
        ctl := ExecuteLocal(i);
      } else if i.op in {Br, BrIf, CallIndirect} {
        hide Execute;
        ctl := ExecuteJump(i);
      } else if i.op.Return? || i.op.End? {
        return Halt(Ok, if sp > 0 then stack[sp - 1] else 0);
      } else if IsBinary(i.op) {
        if sp < 2 {
          return Undefined;
        }
        ctl := ReplaceValues(2, Binary(i.op, stack[sp - 2], stack[sp - 1]));
      } else {
        return Halt(RejectOpcode, 0);
      }
    }
  }

  /** `cvsasx_gate_exec`, cut off after `steps` rounds: it ends, or stands, where the run
      of that many steps does. */
  method Exec(m: Module, be: Backend, args: seq<u32>, steps: nat) returns (ctl: Control)
    requires m.Shaped() && !be.fault
    modifies be, be.mem
    ensures m.nLocals > LOCALS_MAX ==> ctl == Halt(NullArg, 0)
    ensures m.nLocals <= LOCALS_MAX ==>
              match Run(m, Start(m, args, old(be.mem[..])), steps)
              case Running(st) => ctl.Continue? && be.mem[..] == st.mem && be.fault == st.fault
              case Done(status, result, mem, fault) =>
                ctl == Halt(status, result) && be.mem[..] == mem && be.fault == fault
              case Wild => ctl.Undefined?
  {
    if m.nLocals > LOCALS_MAX {
      return Halt(NullArg, 0);
    }
    var machine := new Machine(m, be, args);
    ghost var start := machine.State();
    ctl := Continue;
    for n := 0 to steps
      invariant fresh(machine) && fresh(machine.stack) && fresh(machine.locals)
      invariant machine.m == m && machine.be == be
      invariant machine.Agrees(Run(m, start, n), ctl)
    {
      if ctl.Continue? {
        ctl := machine.StepInPlace();
      }
    }
  }
}
