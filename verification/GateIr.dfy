/** The gate's intermediate representation and the meaning of a run: the state after
    `n` steps of the stack machine over software-checked linear memory. */
module GateIr {
  import opened Bits

  datatype Op =
    | End | Const | LocalGet | LocalSet
    | Add | Sub | Mul | And | Or | Xor | Shl | ShrU | LtU
    | Eqz | Load | Store | Drop | Br | BrIf | Return | CallIndirect
    | CapForge | LoadRaw | StoreRaw | Unknown

  datatype Inst = Inst(op: Op, a: nat, imm: u32)

  datatype Status =
    | Ok | RejectValidation | RejectMemslot | RejectForge | RejectCflow
    | RejectStack | RejectOpcode | Trap | NullArg

  /** One lowered function. A null table pointer is `None`; a table has `tableLen` entries. */
  datatype Module = Module(
    code: seq<Inst>,
    nLocals: nat,
    memSize: u32,
    table: Option<seq<nat>>,
    tableTypes: Option<seq<nat>>,
    tableLen: nat)
  {
    predicate Shaped()
    {
      && (table.Some? ==> |table.value| == tableLen)
      && (tableTypes.Some? ==> |tableTypes.value| == tableLen)
    }
  }

  predicate IsBinary(op: Op)
  {
    op.Add? || op.Sub? || op.Mul? || op.And? || op.Or? || op.Xor? || op.Shl? || op.ShrU? || op.LtU?
  }

  function Wrap(x: int): u32
  {
    x % 0x1_0000_0000
  }

  /** Shifting left by one bit drops the highest. */
  function ShiftLeft(x: u32, n: nat): u32
  {
    if n == 0 then x else Wrap(2 * ShiftLeft(x, n - 1))
  }

  function ShiftRight(x: u32, n: nat): u32
  {
    if n == 0 then x else ShiftRight(x, n - 1) / 2
  }

  /** A shift uses the low five bits of its count. */
  function ShiftCount(y: u32): (n: nat)
    ensures n < 32
  {
    assert IsPow2(32);
    MaskIsMod(32, y);
    BitAnd(31, y)
  }

  /** And, or and exclusive or of words are words. */
  lemma BitwiseFits(x: u32, y: u32)
    ensures 0 <= BitAnd(x, y) < 0x1_0000_0000 && BitOr(x, y) < 0x1_0000_0000
    ensures 0 <= BitXor(x, y) < 0x1_0000_0000
  {
    hide Pow2, BitAnd, BitOr, BitXor;
    Pow2At32();
    AndByBits(x, y, 32);
    OrByBits(x, y, 32);
    XorByBits(x, y, 32);
  }

  function Binary(op: Op, x: u32, y: u32): u32
    requires IsBinary(op)
  {
    BitwiseFits(x, y);
    match op
    case Add => Wrap(x + y)
    case Sub => Wrap(x - y)
    case Mul => Wrap(x * y)
    case And => BitAnd(x, y)
    case Or => BitOr(x, y)
    case Xor => BitXor(x, y)
    case Shl => ShiftLeft(x, ShiftCount(y))
    case ShrU => ShiftRight(x, ShiftCount(y))
    case _ => if x < y then 1 else 0
  }

  // ----- C's signed arithmetic

  /** The `int32_t` with the same bits. */
  function Signed(x: u32): int
  {
    if x < 0x8000_0000 then x else x - 0x1_0000_0000
  }

  predicate FitsInt32(v: int)
  {
    -0x8000_0000 <= v < 0x8000_0000
  }

  /** The result before it is squeezed into 32 bits. */
  function Exact(op: Op, x: u32, y: u32): int
    requires op.Add? || op.Sub? || op.Mul?
  {
    if op.Add? then Signed(x) + Signed(y) else if op.Sub? then Signed(x) - Signed(y) else Signed(x) * Signed(y)
  }

  /** The executor adds, subtracts and multiplies `int32_t` values, which C defines only as
      long as the exact result fits; then, and only then, the word is that result. */
  lemma WordIsExactIff(op: Op, x: u32, y: u32)
    requires op.Add? || op.Sub? || op.Mul?
    ensures Signed(Binary(op, x, y)) == Exact(op, x, y) <==> FitsInt32(Exact(op, x, y))
  {
    var e := Exact(op, x, y);
    assert Binary(op, x, y) == Wrap(e) by {
      if op.Mul? {
        WrapSignedProduct(x, y);
      } else if op.Add? {
        WrapShift(Signed(x) + Signed(y), x + y, (x - Signed(x)) / 0x1_0000_0000 + (y - Signed(y)) / 0x1_0000_0000);
      } else {
        WrapShift(Signed(x) - Signed(y), x - y, (x - Signed(x)) / 0x1_0000_0000 - (y - Signed(y)) / 0x1_0000_0000);
      }
    }
    hide Binary, Exact;
    SignedOfWrap(e);
  }

  lemma SignedOfWrap(e: int)
    ensures Signed(Wrap(e)) == e <==> FitsInt32(e)
  {
  }

  lemma WrapShift(a: int, b: int, k: int)
    requires b == a + k * 0x1_0000_0000
    ensures Wrap(a) == Wrap(b)
  {
  }

  lemma WrapSignedProduct(x: u32, y: u32)
    ensures Wrap(x * y) == Wrap(Signed(x) * Signed(y))
  {
    var a, b, w := Signed(x), Signed(y), 0x1_0000_0000;
    var i, j := if x < 0x8000_0000 then 0 else 1, if y < 0x8000_0000 then 0 else 1;
    assert x * y == a * b + (i * b + j * a + i * j * w) * w by {
      if i == 1 && j == 1 {
        assert (a + w) * (b + w) == a * b + (b + a + w) * w;
      } else if i == 1 {
        assert (a + w) * b == a * b + b * w;
      } else if j == 1 {
        assert a * (b + w) == a * b + a * w;
      }
    }
    hide Signed;
    WrapShift(a * b, x * y, i * b + j * a + i * j * w);
  }

  // ----- software memory

  /** `sw_inb`: four bytes at `addr` lie within `size`. */
  predicate InBounds(addr: u32, size: nat)
  {
    !(addr > size || size - addr < 4)
  }

  /** Four bytes, least significant first. */
  function Word(b0: int, b1: int, b2: int, b3: int): int
  {
    b0 + 0x100 * b1 + 0x1_0000 * b2 + 0x100_0000 * b3
  }

  function Read32(mem: seq<byte>, addr: nat): u32
    requires addr + 4 <= |mem|
  {
    Word(mem[addr], mem[addr + 1], mem[addr + 2], mem[addr + 3])
  }

  function Write32(mem: seq<byte>, addr: nat, v: u32): (r: seq<byte>)
    requires addr + 4 <= |mem|
    ensures |r| == |mem|
  {
    mem[addr := v % 0x100][addr + 1 := v / 0x100 % 0x100][addr + 2 := v / 0x1_0000 % 0x100][addr + 3 := v / 0x100_0000]
  }

  /** A stored word is read back whole, and nothing else is touched. */
  lemma WriteThenRead(mem: seq<byte>, addr: nat, v: u32)
    requires addr + 4 <= |mem|
    ensures Read32(Write32(mem, addr, v), addr) == v
    ensures Write32(mem, addr, v)[..addr] == mem[..addr]
    ensures Write32(mem, addr, v)[addr + 4..] == mem[addr + 4..]
  {
    hide Word;
    var r := Write32(mem, addr, v);
    assert r[addr] == v % 0x100 && r[addr + 1] == v / 0x100 % 0x100;
    assert r[addr + 2] == v / 0x1_0000 % 0x100 && r[addr + 3] == v / 0x100_0000;
    WordOfBytes(v);
  }

  lemma WordOfBytes(v: u32)
    ensures Word(v % 0x100, v / 0x100 % 0x100, v / 0x1_0000 % 0x100, v / 0x100_0000) == v
  {
    assert v / 0x1_0000 == v / 0x100 / 0x100 && v / 0x100_0000 == v / 0x1_0000 / 0x100;
  }

  // ----- the machine

  const STACK_MAX: nat := 512
  const LOCALS_MAX: nat := 64

  datatype State = State(stack: seq<u32>, locals: seq<u32>, pc: nat, mem: seq<byte>, fault: bool)

  /** `Wild` stands for an access out of range: an operand below the stack, a local that does
      not exist, an unchecked access outside the memory. */
  datatype Outcome =
    | Running(st: State)
    | Done(status: Status, result: u32, mem: seq<byte>, fault: bool)
    | Wild

  function Stop(status: Status, result: u32, st: State): Outcome
  {
    Done(status, result, st.mem, st.fault)
  }

  function Top(st: State): u32
  {
    if st.stack == [] then 0 else st.stack[|st.stack| - 1]
  }

  /** The stack guard that follows every instruction. */
  function Guarded(st: State): Outcome
  {
    if |st.stack| >= STACK_MAX then Stop(RejectStack, 0, st) else Running(st)
  }

  function Push(st: State, v: u32): State
  {
    st.(stack := st.stack + [v], pc := st.pc + 1)
  }

  /** Drop `n` operands and push `vs`, then fall through. */
  function Replace(st: State, n: nat, vs: seq<u32>): State
    requires n <= |st.stack|
  {
    st.(stack := st.stack[..|st.stack| - n] + vs, pc := st.pc + 1)
  }

  function DoLoad(st: State, addr: u32): Outcome
    requires |st.stack| >= 1
  {
    if InBounds(addr, |st.mem|) then Guarded(Replace(st, 1, [Read32(st.mem, addr)]))
    else Guarded(Replace(st, 1, [0]).(fault := true))
  }

  function DoStore(st: State, addr: u32, v: u32): Outcome
    requires |st.stack| >= 2
  {
    if InBounds(addr, |st.mem|) then Guarded(Replace(st, 2, []).(mem := Write32(st.mem, addr, v)))
    else Guarded(Replace(st, 2, []).(fault := true))
  }

  function DoCall(m: Module, st: State, typeId: nat): Outcome
    requires |st.stack| >= 1 && m.Shaped()
  {
    var idx := st.stack[|st.stack| - 1];
    if m.table.None? || idx >= m.tableLen then Stop(Trap, 0, st)
    else if m.tableTypes.Some? && m.tableTypes.value[idx] != typeId then Stop(Trap, 0, st)
    else Guarded(Replace(st, 1, []).(pc := m.table.value[idx]))
  }

  /** One instruction, at a program counter inside the code and below the stack ceiling. */
  function Execute(m: Module, st: State): Outcome
    requires m.Shaped() && st.pc < |m.code|
  {
    var i, n, s := m.code[st.pc], |st.stack|, st.stack;
    match i.op
    case Const => Guarded(Push(st, i.imm))
    case LocalGet => if i.a < |st.locals| then Guarded(Push(st, st.locals[i.a])) else Wild
    case LocalSet =>
      if i.a < |st.locals| && n >= 1 then Guarded(Replace(st, 1, []).(locals := st.locals[i.a := s[n - 1]])) else Wild
    case Eqz => if n >= 1 then Guarded(Replace(st, 1, [if s[n - 1] == 0 then 1 else 0])) else Wild
    case Load => if n >= 1 then DoLoad(st, Wrap(s[n - 1] + i.imm)) else Wild
    case Store => if n >= 2 then DoStore(st, Wrap(s[n - 2] + i.imm), s[n - 1]) else Wild
    case LoadRaw =>
      if n >= 1 && InBounds(Wrap(s[n - 1] + i.imm), |st.mem|) then DoLoad(st, Wrap(s[n - 1] + i.imm)) else Wild
    case StoreRaw =>
      if n >= 2 && InBounds(Wrap(s[n - 2] + i.imm), |st.mem|) then DoStore(st, Wrap(s[n - 2] + i.imm), s[n - 1])
      else Wild
    case Drop => if n >= 1 then Guarded(Replace(st, 1, [])) else Stop(RejectStack, 0, st)
    case Br => Guarded(st.(pc := i.a))
    case BrIf =>
      if n >= 1 then Guarded(Replace(st, 1, []).(pc := if s[n - 1] != 0 then i.a else st.pc + 1)) else Wild
    case Return => Stop(Ok, Top(st), st)
    case End => Stop(Ok, Top(st), st)
    case CallIndirect => if n >= 1 then DoCall(m, st, i.a) else Wild
    case CapForge => Stop(RejectOpcode, 0, st)
    case Unknown => Stop(RejectOpcode, 0, st)
    case _ => if n >= 2 then Guarded(Replace(st, 2, [Binary(i.op, s[n - 2], s[n - 1])])) else Wild
  }

  function Step(m: Module, st: State): Outcome
    requires m.Shaped()
  {
    if st.pc >= |m.code| then Stop(Ok, Top(st), st)
    else if |st.stack| >= STACK_MAX then Stop(RejectStack, 0, st)
    else Execute(m, st)
  }

  /** The outcome after at most `n` steps. */
  function Run(m: Module, st: State, n: nat): Outcome
    requires m.Shaped()
  {
    if n == 0 then Running(st)
    else
      var o := Run(m, st, n - 1);
      if o.Running? then Step(m, o.st) else o
  }

  function InitLocals(nLocals: nat, args: seq<u32>): (l: seq<u32>)
    ensures |l| == nLocals
  {
    seq<u32>(nLocals, i requires 0 <= i => if i < |args| then args[i] else 0)
  }

  function Start(m: Module, args: seq<u32>, mem: seq<byte>): State
  {
    State([], InitLocals(m.nLocals, args), 0, mem, false)
  }
}
