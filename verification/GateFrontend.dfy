/** The lowering of one Wasm function body: LEB128 readers, the straight-line lowering
    loop, and what a checked lowered body does when it runs. */
module GateFrontend {
  import opened Bits
  import opened GateIr
  import opened GateChecker

  // ----- LEB128

  function Scale(k: nat): (r: nat)
    ensures r >= 1
  {
    if k == 0 then 1 else 128 * Scale(k - 1)
  }

  /** The groups of seven bits, least significant first. */
  function Groups(s: seq<byte>): (v: nat)
  {
    if s == [] then 0 else s[0] % 128 + 128 * Groups(s[1..])
  }

  /** The length of the encoding that `s` starts with; 0 if it never ends. */
  function LebLen(s: seq<byte>): (n: nat)
    ensures n <= |s|
    ensures n > 0 ==> s[n - 1] < 128 && forall i | 0 <= i < n - 1 :: s[i] >= 128
    ensures n == 0 ==> forall i | 0 <= i < |s| :: s[i] >= 128
  {
    if s == [] then 0
    else if s[0] < 128 then 1
    else
      var r := LebLen(s[1..]);
      if r == 0 then 0 else r + 1
  }

  /** The signed value: the last group carries its sign in bit 6. */
  function SignedGroups(s: seq<byte>): int
    requires s != []
  {
    if |s| == 1 then s[0] % 128 - (if s[0] % 128 >= 64 then 128 else 0)
    else s[0] % 128 + 128 * SignedGroups(s[1..])
  }

  function EncodeU(v: nat): (s: seq<byte>)
    ensures s != []
  {
    if v < 128 then [v] else [v % 128 + 128] + EncodeU(v / 128)
  }

  function EncodeS(v: int): (s: seq<byte>)
    ensures s != []
    decreases if v < 0 then -v else v
  {
    if -64 <= v < 64 then [v % 128] else [v % 128 + 128] + EncodeS(v / 128)
  }

  lemma {:induction false} GroupsAppend(s: seq<byte>, k: nat)
    requires k < |s|
    ensures Groups(s[..k + 1]) == Groups(s[..k]) + (s[k] % 128) * Scale(k)
  {
    if k == 0 {
      assert s[..1][1..] == [];
    } else {
      var t, g, c := s[1..], s[k] % 128, Scale(k - 1);
      GroupsAppend(t, k - 1);
      assert s[..k + 1][1..] == t[..k] && s[..k][1..] == t[..k - 1];
      assert Groups(s[..k + 1]) == s[0] % 128 + 128 * Groups(t[..k]);
      assert Groups(s[..k]) == s[0] % 128 + 128 * Groups(t[..k - 1]);
      hide Groups, Scale;
      ScaleStep(k);
      TimesScaled(g, c);
    }
  }

  lemma ScaleStep(k: nat)
    requires k > 0
    ensures Scale(k) == 128 * Scale(k - 1)
  {
  }

  lemma TimesScaled(g: int, c: int)
    ensures g * (128 * c) == 128 * (g * c)
  {
  }

  lemma {:induction false} ScaleVanishes(n: nat)
    requires n >= 5
    ensures Scale(n) % 0x1_0000_0000 == 0
  {
    if n == 5 {
      assert Scale(5) == 0x8_0000_0000;
    } else {
      ScaleVanishes(n - 1);
    }
  }

  /** One more continued group in front. */
  lemma LebCons(x: byte, s: seq<byte>)
    requires x >= 128 && LebLen(s) > 0
    ensures LebLen([x] + s) == LebLen(s) + 1
    ensures Groups([x] + s) == x % 128 + 128 * Groups(s)
    ensures SignedGroups([x] + s) == x % 128 + 128 * SignedGroups(s)
  {
    assert ([x] + s)[1..] == s;
  }

  lemma LebSingle(x: byte, rest: seq<byte>)
    requires x < 128
    ensures LebLen([x] + rest) == 1 && Groups([x]) == x
    ensures SignedGroups([x]) == x - (if x >= 64 then 128 else 0)
  {
    assert [x][1..] == [];
  }

  lemma LowGroup(v: int)
    ensures (v % 128 + 128) % 128 + 128 * (v / 128) == v
  {
  }

  lemma SmallSigned(v: int)
    requires -64 <= v < 64
    ensures v % 128 - (if v % 128 >= 64 then 128 else 0) == v
  {
  }

  /** Reading back an encoding: its length is found and the value recovered. */
  lemma {:induction false} UnsignedRoundTrip(v: nat, rest: seq<byte>)
    ensures LebLen(EncodeU(v) + rest) == LebLen(EncodeU(v)) == |EncodeU(v)|
    ensures Groups(EncodeU(v)) == v
  {
    hide LebLen, Groups;
    if v < 128 {
      LebSingle(v, rest);
      LebSingle(v, []);
      assert [v] + [] == [v];
    } else {
      var x, t := v % 128 + 128, EncodeU(v / 128);
      assert EncodeU(v) == [x] + t;
      hide EncodeU;
      LowGroup(v);
      UnsignedRoundTrip(v / 128, rest);
      LebCons(x, t);
      LebCons(x, t + rest);
      ConsAssoc(x, t, rest);
    }
  }

  lemma ConsAssoc(x: byte, t: seq<byte>, rest: seq<byte>)
    ensures [x] + t + rest == [x] + (t + rest)
    ensures ([x] + t + rest)[1..] == t + rest
  {
  }

  lemma SignedSplit(v: int)
    requires v < -64 || v >= 64
    ensures var q, x := v / 128, v % 128 + 128;
      && 128 <= x < 256 && x % 128 + 128 * q == v
      && (if q < 0 then -q else q) < (if v < 0 then -v else v)
  {
    LowGroup(v);
  }

  lemma {:induction false} SignedRoundTrip(v: int, rest: seq<byte>)
    ensures LebLen(EncodeS(v) + rest) == LebLen(EncodeS(v)) == |EncodeS(v)|
    ensures SignedGroups(EncodeS(v)) == v
    decreases if v < 0 then -v else v
  {
    hide LebLen, SignedGroups;
    if -64 <= v < 64 {
      var x: byte := v % 128;
      assert EncodeS(v) == [x];
      hide EncodeS;
      SmallSigned(v);
      LebSingle(x, rest);
      LebSingle(x, []);
      assert [x] + [] == [x];
    } else {
      SignedSplit(v);
      var q: int, x: byte := v / 128, v % 128 + 128;
      var t := EncodeS(q);
      assert EncodeS(v) == [x] + t;
      hide EncodeS;
      SignedRoundTrip(q, rest);
      LebCons(x, t);
      LebCons(x, t + rest);
      ConsAssoc(x, t, rest);
    }
  }

  lemma {:induction false} SignedIsGroups(s: seq<byte>)
    requires s != []
    ensures SignedGroups(s) == Groups(s) - (if s[|s| - 1] % 128 >= 64 then Scale(|s|) else 0)
  {
    if |s| == 1 {
      assert Groups(s[1..]) == 0;
    } else {
      SignedIsGroups(s[1..]);
    }
  }

  class Reader {
    const bytes: seq<byte>
    var pos: nat
    var err: bool

    constructor (bytes: seq<byte>)
      ensures this.bytes == bytes && pos == 0 && !err
    {
      this.bytes := bytes;
      pos := 0;
      err := false;
    }

    ghost predicate Valid()
      reads this
    {
      pos <= |bytes|
    }

    method ReadByte() returns (b: byte)
      requires Valid()
      modifies this
      ensures Valid() && err == (old(err) || old(pos) == |bytes|)
      ensures old(pos) < |bytes| ==> b == bytes[old(pos)] && pos == old(pos) + 1
      ensures old(pos) == |bytes| ==> b == 0 && pos == old(pos)
    {
      if pos >= |bytes| {
        err := true;
        return 0;
      }
      b := bytes[pos];
      pos := pos + 1;
    }

    /** `rd_u32`: at most five bytes, the value modulo 2^32. */
    method ReadU32() returns (v: u32)
      requires Valid()
      modifies this
      ensures Valid() && pos >= old(pos)
      ensures var n := LebLen(bytes[old(pos)..]);
        if 1 <= n <= 5 then v == Wrap(Groups(bytes[old(pos)..][..n])) && pos == old(pos) + n && err == old(err)
        else err && v == 0
    {
      ghost var s := bytes[pos..];
      var k := 0;
      v := 0;
      assert s[..k] == [];
      NoGroups();
      hide Groups, LebLen;
      while true
        invariant 0 <= k < 5 && k <= |s| && pos == old(pos) + k && Valid() && err == old(err)
        invariant v == Wrap(Groups(s[..k])) && forall i | 0 <= i < k :: s[i] >= 128
        decreases 5 - k
      {
        if pos >= |bytes| {
          err := true;
          return 0;
        }
        var b := bytes[pos];
        pos := pos + 1;
        GroupsAppend(s, k);
        v := OrShifted(v, b % 128, k, s);
        if b < 128 {
          LebLenIs(s, k + 1);
          return;
        }
        k := k + 1;
        if k >= 5 {
          LebLenLong(s, 5);
          err := true;
          return 0;
        }
      }
    }

    /** `rd_s32`: the two's complement of the signed value. Groups beyond the fifth are
        shifted out (C leaves such shifts undefined). */
    method ReadS32() returns (v: u32)
      requires Valid()
      modifies this
      ensures Valid() && pos >= old(pos)
      ensures var n := LebLen(bytes[old(pos)..]);
        if n >= 1 then v == Wrap(SignedGroups(bytes[old(pos)..][..n])) && pos == old(pos) + n && err == old(err)
        else err && v == 0
    {
      ghost var s := bytes[pos..];
      var k := 0;
      v := 0;
      while true
        invariant 0 <= k <= |s| && pos == old(pos) + k && Valid() && err == old(err)
        invariant v == Wrap(Groups(s[..k])) && forall i | 0 <= i < k :: s[i] >= 128
        decreases |s| - k
      {
        if pos >= |bytes| {
          LebLenLong(s, k);
          err := true;
          return 0;
        }
        var b := bytes[pos];
        pos := pos + 1;
        GroupsAppend(s, k);
        v := OrShifted(v, b % 128, k, s);
        k := k + 1;
        if b < 128 {
          LebLenIs(s, k);
          v := SignExtend(v, b, k, s);
          return;
        }
      }
    }

    method SignExtend(v: u32, b: byte, k: nat, ghost s: seq<byte>) returns (r: u32)
      requires 1 <= k <= |s| && b == s[k - 1] && b < 128 && v == Wrap(Groups(s[..k]))
      ensures r == Wrap(SignedGroups(s[..k]))
    {
      hide Groups, SignedGroups, Scale;
      SignedIsGroups(s[..k]);
      r := v;
      if k >= 5 {
        ScaleVanishes(k);
      } else if b >= 64 {
        r := Wrap(v - Scale(k));
      }
    }

    /** The bits below the group are free, so the or of the shifted group is a sum. */
    method OrShifted(v: u32, group: int, k: nat, ghost s: seq<byte>) returns (r: u32)
      requires k < |s| && group == s[k] % 128 && v == Wrap(Groups(s[..k]))
      ensures r == Wrap(Groups(s[..k]) + group * Scale(k))
    {
      hide Groups, Scale, BitOr;
      OrOfGroup(Groups(s[..k]), group, k, s[..k]);
      r := BitOr(v, Wrap(group * Scale(k)));
    }
  }

  lemma {:induction false} GroupsBelow(s: seq<byte>)
    ensures Groups(s) < Scale(|s|)
  {
    if s != [] {
      GroupsBelow(s[1..]);
    }
  }

  lemma {:induction false} ScaleIsPow2(k: nat)
    ensures Scale(k) == Pow2(7 * k)
  {
    if k > 0 {
      ScaleIsPow2(k - 1);
      assert Pow2(7) == 128;
      hide Pow2;
      Pow2Add(7, 7 * (k - 1));
    }
  }

  lemma SmallScales(k: nat)
    requires k <= 4
    ensures Scale(k) ==
      if k == 0 then 1 else if k == 1 then 0x80 else if k == 2 then 0x4000
      else if k == 3 then 0x20_0000 else 0x1000_0000
  {
    assert Scale(1) == 128;
    assert Scale(2) == 128 * Scale(1);
    assert Scale(3) == 128 * Scale(2);
  }

  /** The shifted group within 32 bits is a multiple of the scale. */
  lemma ShiftedGroup(group: nat, k: nat) returns (g: nat)
    requires k <= 4 && group < 128
    ensures Wrap(group * Scale(k)) == g * Scale(k) && (g + 1) * Scale(k) <= 0x1_0000_0000
  {
    SmallScales(k);
    hide Scale;
    g := if k == 4 then group % 16 else group;
  }

  lemma OrOfGroup(v: nat, group: nat, k: nat, s: seq<byte>)
    requires v == Groups(s) && k == |s| && group < 128
    ensures BitOr(Wrap(v), Wrap(group * Scale(k))) == Wrap(v + group * Scale(k)) < 0x1_0000_0000
  {
    hide Groups, Pow2, BitOr;
    if k >= 5 {
      ScaleVanishes(k);
      hide Scale;
      ShiftedOut(v, group, Scale(k));
      OrZero(Wrap(v));
    } else {
      GroupsBelow(s);
      ScaleIsPow2(k);
      SmallScales(k);
      hide Scale;
      var g := ShiftedGroup(group, k);
      OrIsPlus(v, g, 7 * k);
      SumFits(v, g, group, Scale(k));
    }
  }

  lemma OrZero(v: nat)
    ensures BitOr(v, 0) == v
  {
  }

  lemma ShiftedOut(v: nat, group: nat, scale: nat)
    requires scale % 0x1_0000_0000 == 0
    ensures Wrap(group * scale) == 0 && Wrap(v + group * scale) == Wrap(v)
  {
    var q := scale / 0x1_0000_0000;
    assert group * scale == (group * q) * 0x1_0000_0000;
  }

  lemma SumFits(v: nat, g: nat, group: nat, scale: nat)
    requires v < scale && (g + 1) * scale <= 0x1_0000_0000 && Wrap(group * scale) == g * scale
    ensures Wrap(v) == v && Wrap(v + group * scale) == v + g * scale
  {
    assert (g + 1) * scale == g * scale + scale;
    WrapSum(v, group * scale);
  }

  lemma WrapSum(a: int, b: int)
    ensures Wrap(Wrap(a) + Wrap(b)) == Wrap(a + b)
  {
  }

  lemma {:induction false} LebLenIs(s: seq<byte>, n: nat)
    requires 1 <= n <= |s| && s[n - 1] < 128 && forall i | 0 <= i < n - 1 :: s[i] >= 128
    ensures LebLen(s) == n
  {
    if n > 1 {
      LebLenIs(s[1..], n - 1);
    }
  }

  lemma NoGroups()
    ensures Groups([]) == 0
  {
  }

  lemma LebLenLong(s: seq<byte>, k: nat)
    requires k <= |s| && forall i | 0 <= i < k :: s[i] >= 128
    ensures LebLen(s) == 0 || LebLen(s) > k
  {
  }

  // ----- lowering

  /** What the lowering of the Wasm subset can emit before the final `End`. */
  predicate IsStraight(op: Op)
  {
    IsBinary(op) || op in {Const, LocalGet, LocalSet, Eqz, Load, Store, Drop, Return}
  }

  predicate StraightLine(code: seq<Inst>)
  {
    code != [] && code[|code| - 1].op.End? && forall i | 0 <= i < |code| - 1 :: IsStraight(code[i].op)
  }

  /** The opcode table of the subset; `None` is an unsupported byte. */
  function PlainOp(b: byte): Option<Op>
  {
    match b
    case 0x6a => Some(Add)
    case 0x6b => Some(Sub)
    case 0x6c => Some(Mul)
    case 0x71 => Some(And)
    case 0x72 => Some(Or)
    case 0x73 => Some(Xor)
    case 0x74 => Some(Shl)
    case 0x76 => Some(ShrU)
    case 0x45 => Some(Eqz)
    case 0x49 => Some(LtU)
    case 0x1a => Some(Drop)
    case 0x0f => Some(Return)
    case 0x0b => Some(End)
    case _ => None
  }

  /** The instruction at the head of `s` and the bytes it takes, if it is one of the subset. */
  function DecodeInst(s: seq<byte>, nLocals: nat, haveMemory: bool): (r: Option<(Inst, nat)>)
    ensures r.Some? ==> 1 <= r.value.1 <= |s|
  {
    if s == [] then None
    else
      var op, t := s[0], s[1..];
      var n := LebLen(t);
      if op == 0x41 then
        if n == 0 then None else Some((Inst(Const, 0, Wrap(SignedGroups(t[..n]))), 1 + n))
      else if op == 0x20 || op == 0x21 then
        if n == 0 || n > 5 || Wrap(Groups(t[..n])) >= nLocals then None
        else Some((Inst(if op == 0x20 then LocalGet else LocalSet, Wrap(Groups(t[..n])) % 0x1_0000, 0), 1 + n))
      else if op == 0x28 || op == 0x36 then
        var u := t[n..];
        var k := LebLen(u);
        if !haveMemory || n == 0 || n > 5 || k == 0 || k > 5 then None
        else Some((Inst(if op == 0x28 then Load else Store, 0, Wrap(Groups(u[..k]))), 1 + n + k))
      else
        var plain := PlainOp(op);
        if plain.None? then None else Some((Inst(plain.value, 0, 0), 1))
  }

  /** A whole body, up to and with its `end`. */
  function DecodeBody(s: seq<byte>, nLocals: nat, haveMemory: bool): (r: Option<seq<Inst>>)
    decreases |s|
  {
    var head := DecodeInst(s, nLocals, haveMemory);
    if head.None? then None
    else if s[0] == 0x0b then Some([head.value.0])
    else
      var rest := DecodeBody(s[head.value.1..], nLocals, haveMemory);
      if rest.None? then None else Some([head.value.0] + rest.value)
  }

  /** One instruction after its opcode was read. Where an operand runs off the end the
      reader's error flag is set instead. */
  method LowerOne(r: Reader, op: byte, nLocals: nat, haveMemory: bool) returns (inst: Option<Inst>)
    requires r.Valid() && !r.err
    modifies r
    ensures r.Valid() && r.pos >= old(r.pos)
    ensures var d := DecodeInst([op] + r.bytes[old(r.pos)..], nLocals, haveMemory);
      if d.Some? then inst == Some(d.value.0) && !r.err && r.pos == old(r.pos) + d.value.1 - 1
      else inst.None? || r.err
  {
    hide Groups, SignedGroups;
    ghost var s := [op] + r.bytes[r.pos..];
    assert s[1..] == r.bytes[r.pos..];
    if op == 0x41 {
      var c := r.ReadS32();
      return Some(Inst(Const, 0, c));
    } else if op == 0x20 || op == 0x21 {
      var i := r.ReadU32();
      if i >= nLocals {
        return None;
      }
      return Some(Inst(if op == 0x20 then LocalGet else LocalSet, i % 0x1_0000, 0));
    } else if op == 0x28 || op == 0x36 {
      if !haveMemory {
        return None;
      }
      ghost var t := r.bytes[r.pos..];
      var _ := r.ReadU32();
      assert !r.err ==> r.bytes[r.pos..] == t[LebLen(t)..];
      var offset := r.ReadU32();
      return Some(Inst(if op == 0x28 then Load else Store, 0, offset));
    }
    var plain := PlainOp(op);
    return if plain.Some? then Some(Inst(plain.value, 0, 0)) else None;
  }

  /** `lower_expr`: the number of instructions written to `out`, or -1 if the bytes are no
      body of the subset or the body does not fit. */
  method LowerExpr(r: Reader, out: array<Inst>, nLocals: nat, haveMemory: bool) returns (n: int)
    requires r.Valid() && !r.err
    modifies r, out
    ensures var d := DecodeBody(r.bytes[old(r.pos)..], nLocals, haveMemory);
      if d.Some? && |d.value| <= out.Length then n == |d.value| && out[..n] == d.value else n == -1
  {
    hide DecodeInst, DecodeBody;
    n := 0;
    ghost var all := DecodeBody(r.bytes[r.pos..], nLocals, haveMemory);
    PrefixedNone(all);
    assert out[..0] == [];
    while true
      invariant 0 <= n <= out.Length && r.Valid()
      invariant if r.err then all.None?
        else all == Prefixed(out[..n], DecodeBody(r.bytes[r.pos..], nLocals, haveMemory))
      decreases |r.bytes| - r.pos
    {
      if r.err {
        return -1;
      }
      ghost var s := r.bytes[r.pos..];
      BodyStep(s, nLocals, haveMemory);
      var op := r.ReadByte();
      if r.err {
        return -1;
      }
      assert [op] + r.bytes[r.pos..] == s;
      var inst := LowerOne(r, op, nLocals, haveMemory);
      if inst.None? || n >= out.Length {
        return -1;
      }
      ghost var code := out[..n];
      out[n] := inst.value;
      n := n + 1;
      assert out[..n] == code + [inst.value];
      PrefixedStep(code, inst.value, DecodeBody(r.bytes[r.pos..], nLocals, haveMemory));
      if op == 0x0b {
        return;
      }
      assert !r.err ==> r.bytes[r.pos..] == s[DecodeInst(s, nLocals, haveMemory).value.1..];
    }
  }

  lemma PrefixedNone(rest: Option<seq<Inst>>)
    ensures Prefixed([], rest) == rest
  {
    if rest.Some? {
      assert [] + rest.value == rest.value;
    }
  }

  lemma PrefixedStep(code: seq<Inst>, x: Inst, rest: Option<seq<Inst>>)
    ensures Prefixed(code + [x], rest) == Prefixed(code, Prefixed([x], rest))
  {
    if rest.Some? {
      assert code + [x] + rest.value == code + ([x] + rest.value);
    }
  }

  function Prefixed(code: seq<Inst>, rest: Option<seq<Inst>>): Option<seq<Inst>>
  {
    if rest.None? then None else Some(code + rest.value)
  }

  lemma BodyStep(s: seq<byte>, nLocals: nat, haveMemory: bool)
    ensures var head := DecodeInst(s, nLocals, haveMemory);
      && (s == [] ==> head.None?)
      && (s != [] && s[0] == 0x0b ==> head.Some?)
      && (head.None? ==> DecodeBody(s, nLocals, haveMemory).None?)
      && (head.Some? ==> head.value.1 <= |s|)
      && (head.Some? && s[0] == 0x0b ==>
          DecodeBody(s, nLocals, haveMemory) == Some([head.value.0]) && head.value.1 == 1)
      && (head.Some? && s[0] != 0x0b ==>
            DecodeBody(s, nLocals, haveMemory) ==
            Prefixed([head.value.0], DecodeBody(s[head.value.1..], nLocals, haveMemory)))
  {
  }

  // ----- what lowering means

  /** What decoding can produce: straight-line code with local indices and memory slots in order. */
  lemma {:induction false} DecodedIsStraight(s: seq<byte>, nLocals: nat, haveMemory: bool)
    requires DecodeBody(s, nLocals, haveMemory).Some?
    ensures var code := DecodeBody(s, nLocals, haveMemory).value;
      && StraightLine(code)
      && (forall i | 0 <= i < |code| :: code[i].op.LocalGet? || code[i].op.LocalSet? ==> code[i].a < nLocals)
      && (forall i | 0 <= i < |code| :: code[i].op.Load? || code[i].op.Store? ==> code[i].a == 0 && haveMemory)
    decreases |s|
  {
    hide Groups, SignedGroups, LebLen;
    InstIsStraight(s, nLocals, haveMemory);
    hide DecodeInst;
    var head := DecodeInst(s, nLocals, haveMemory);
    if s[0] != 0x0b {
      DecodedIsStraight(s[head.value.1..], nLocals, haveMemory);
    }
  }

  lemma InstIsStraight(s: seq<byte>, nLocals: nat, haveMemory: bool)
    requires DecodeInst(s, nLocals, haveMemory).Some?
    ensures var i := DecodeInst(s, nLocals, haveMemory).value.0;
      && (if s[0] == 0x0b then i.op.End? else IsStraight(i.op))
      && (i.op.LocalGet? || i.op.LocalSet? ==> i.a < nLocals)
      && (i.op.Load? || i.op.Store? ==> i.a == 0 && haveMemory)
  {
    hide Groups, SignedGroups, LebLen;
  }

  /** The opcode byte of an instruction, section 5.4 of the WebAssembly Core Specification. */
  function OpByte(op: Op): byte
  {
    match op
    case End => 0x0b
    case Return => 0x0f
    case Drop => 0x1a
    case LocalGet => 0x20
    case LocalSet => 0x21
    case Load => 0x28
    case Store => 0x36
    case Const => 0x41
    case Eqz => 0x45
    case LtU => 0x49
    case Add => 0x6a
    case Sub => 0x6b
    case Mul => 0x6c
    case And => 0x71
    case Or => 0x72
    case Xor => 0x73
    case Shl => 0x74
    case ShrU => 0x76
    case _ => 0
  }

  /** The encoding of an instruction; accesses are aligned to four bytes. */
  function Assemble(i: Inst): seq<byte>
  {
    [OpByte(i.op)] +
    match i.op
    case Const => EncodeS(if i.imm < 0x8000_0000 then i.imm else i.imm - 0x1_0000_0000)
    case LocalGet => EncodeU(i.a)
    case LocalSet => EncodeU(i.a)
    case Load => EncodeU(2) + EncodeU(i.imm)
    case Store => EncodeU(2) + EncodeU(i.imm)
    case _ => []
  }

  function AssembleAll(code: seq<Inst>): seq<byte>
  {
    if code == [] then [] else Assemble(code[0]) + AssembleAll(code[1..])
  }

  /** An instruction of the subset with nothing in its unused fields. */
  predicate Plain(i: Inst, nLocals: nat, haveMemory: bool)
  {
    && (i.op.End? || IsStraight(i.op))
    && (if i.op.LocalGet? || i.op.LocalSet? then i.a < nLocals else i.a == 0)
    && (i.op.Const? || i.op.Load? || i.op.Store? || i.imm == 0)
    && (i.op.Load? || i.op.Store? ==> haveMemory)
  }

  /** The instruction as it is emitted: a local index keeps its low 16 bits. */
  function Emitted(i: Inst): Inst
  {
    i.(a := i.a % 0x1_0000)
  }

  function EmittedAll(code: seq<Inst>): (r: seq<Inst>)
    ensures |r| == |code|
  {
    seq(|code|, i requires 0 <= i < |code| => Emitted(code[i]))
  }

  lemma {:induction false} EncodeULen(v: nat, k: nat)
    requires 1 <= k && v < Scale(k)
    ensures |EncodeU(v)| <= k
    decreases k
  {
    if v >= 128 {
      EncodeULen(v / 128, k - 1);
    }
  }

  lemma FiveGroups(v: u32)
    ensures |EncodeU(v)| <= 5
  {
    assert Scale(3) == 0x20_0000;
    assert Scale(5) == 128 * 128 * Scale(3);
    EncodeULen(v, 5);
  }

  /** An unsigned operand at the head of `s` is read back. */
  lemma OperandBack(v: u32, s: seq<byte>)
    ensures var n := LebLen(EncodeU(v) + s);
      && 1 <= n <= 5 && n == |EncodeU(v)| && (EncodeU(v) + s)[..n] == EncodeU(v) && (EncodeU(v) + s)[n..] == s
      && Wrap(Groups((EncodeU(v) + s)[..n])) == v
  {
    UnsignedRoundTrip(v, s);
    FiveGroups(v);
    hide EncodeU, LebLen, Groups;
    var e := EncodeU(v);
    assert (e + s)[..|e|] == e && (e + s)[|e|..] == s;
  }

  lemma SignedBack(imm: u32, s: seq<byte>)
    ensures var e := EncodeS(if imm < 0x8000_0000 then imm else imm - 0x1_0000_0000);
      var n := LebLen(e + s);
      n == |e| >= 1 && (e + s)[..n] == e && Wrap(SignedGroups((e + s)[..n])) == imm
  {
    var v := if imm < 0x8000_0000 then imm else imm - 0x1_0000_0000;
    SignedRoundTrip(v, s);
    hide EncodeS, LebLen, SignedGroups;
    assert (EncodeS(v) + s)[..|EncodeS(v)|] == EncodeS(v);
  }

  lemma InstBack(i: Inst, rest: seq<byte>, nLocals: u32, haveMemory: bool)
    requires Plain(i, nLocals, haveMemory)
    ensures DecodeInst(Assemble(i) + rest, nLocals, haveMemory) == Some((Emitted(i), |Assemble(i)|))
  {
    if i.op.Const? {
      ConstBack(i, rest, nLocals, haveMemory);
    } else if i.op.LocalGet? || i.op.LocalSet? {
      LocalBack(i, rest, nLocals, haveMemory);
    } else if i.op.Load? || i.op.Store? {
      AccessDecoded(i, rest, nLocals, haveMemory);
    } else {
      hide EncodeU, EncodeS, LebLen, Groups, SignedGroups;
    }
  }

  lemma ConstBack(i: Inst, rest: seq<byte>, nLocals: nat, haveMemory: bool)
    requires i.op.Const? && i.a == 0
    ensures DecodeInst(Assemble(i) + rest, nLocals, haveMemory) == Some((i, |Assemble(i)|))
  {
    hide EncodeS, LebLen, SignedGroups;
    SignedBack(i.imm, rest);
    assert (Assemble(i) + rest)[1..] == EncodeS(if i.imm < 0x8000_0000 then i.imm else i.imm - 0x1_0000_0000) + rest;
  }

  lemma LocalBack(i: Inst, rest: seq<byte>, nLocals: u32, haveMemory: bool)
    requires (i.op.LocalGet? || i.op.LocalSet?) && i.a < nLocals && i.imm == 0
    ensures DecodeInst(Assemble(i) + rest, nLocals, haveMemory) == Some((Emitted(i), |Assemble(i)|))
  {
    hide EncodeU, LebLen, Groups;
    OperandBack(i.a, rest);
    assert (Assemble(i) + rest)[1..] == EncodeU(i.a) + rest;
  }

  lemma FirstByte(i: Inst, rest: seq<byte>)
    requires i.op.End? || IsStraight(i.op)
    ensures (Assemble(i) + rest)[0] == 0x0b <==> i.op.End?
  {
    hide EncodeU, EncodeS;
  }

  lemma TwoOperands(v: u32, w: u32, rest: seq<byte>)
    ensures var t := EncodeU(v) + (EncodeU(w) + rest); var n := LebLen(t); var u := t[n..]; var k := LebLen(u);
      && 1 <= n <= 5 && n == |EncodeU(v)| && u == EncodeU(w) + rest
      && 1 <= k <= 5 && k == |EncodeU(w)| && Wrap(Groups(u[..k])) == w
  {
    hide EncodeU, LebLen, Groups, Wrap;
    OperandBack(v, EncodeU(w) + rest);
    OperandBack(w, rest);
  }

  lemma AccessTail(i: Inst, rest: seq<byte>)
    requires i.op.Load? || i.op.Store?
    ensures (Assemble(i) + rest)[1..] == EncodeU(2) + (EncodeU(i.imm) + rest)
    ensures |Assemble(i)| == 1 + |EncodeU(2)| + |EncodeU(i.imm)|
  {
    hide EncodeU;
    ConsAssoc(OpByte(i.op), EncodeU(2) + EncodeU(i.imm), rest);
  }

  lemma AccessBack(i: Inst, rest: seq<byte>)
    requires i.op.Load? || i.op.Store?
    ensures var t := (Assemble(i) + rest)[1..]; var n := LebLen(t); var u := t[n..]; var k := LebLen(u);
      1 <= n <= 5 && 1 <= k <= 5 && Wrap(Groups(u[..k])) == i.imm && |Assemble(i)| == 1 + n + k
  {
    hide EncodeU, LebLen, Groups, Wrap, Assemble;
    AccessTail(i, rest);
    TwoOperands(2, i.imm, rest);
  }

  lemma AccessDecoded(i: Inst, rest: seq<byte>, nLocals: nat, haveMemory: bool)
    requires (i.op.Load? || i.op.Store?) && i.a == 0 && haveMemory
    ensures DecodeInst(Assemble(i) + rest, nLocals, haveMemory) == Some((i, |Assemble(i)|))
  {
    hide EncodeU, LebLen, Groups, Wrap;
    AccessBack(i, rest);
    assert (Assemble(i) + rest)[0] == OpByte(i.op);
    hide Assemble;
  }

  /** Assembled straight-line code is lowered to itself, but for what is cut off its local
      indices, whatever follows it. */
  lemma {:induction false} LoweredAsEmitted(code: seq<Inst>, rest: seq<byte>, nLocals: u32, haveMemory: bool)
    requires StraightLine(code) && forall i | 0 <= i < |code| :: Plain(code[i], nLocals, haveMemory)
    ensures DecodeBody(AssembleAll(code) + rest, nLocals, haveMemory) == Some(EmittedAll(code))
    decreases |code|
  {
    hide Assemble, DecodeInst, Emitted;
    var tail := AssembleAll(code[1..]) + rest;
    var s := AssembleAll(code) + rest;
    assert s == Assemble(code[0]) + tail;
    InstBack(code[0], tail, nLocals, haveMemory);
    FirstByte(code[0], tail);
    if |code| > 1 {
      LoweredAsEmitted(code[1..], rest, nLocals, haveMemory);
      assert s[|Assemble(code[0])|..] == tail;
      assert EmittedAll(code) == [Emitted(code[0])] + EmittedAll(code[1..]);
    } else {
      assert EmittedAll(code) == [Emitted(code[0])];
    }
  }

  /** Lowering inverts assembly exactly when every local index is below 65536; others are cut
      to 16 bits and not rejected. */
  lemma LoweringInvertsIff(code: seq<Inst>, rest: seq<byte>, nLocals: u32, haveMemory: bool)
    requires StraightLine(code) && forall i | 0 <= i < |code| :: Plain(code[i], nLocals, haveMemory)
    ensures DecodeBody(AssembleAll(code) + rest, nLocals, haveMemory) == Some(code) <==>
            forall i | 0 <= i < |code| :: code[i].a < 0x1_0000
  {
    hide AssembleAll, DecodeBody, Plain;
    LoweredAsEmitted(code, rest, nLocals, haveMemory);
    if forall i | 0 <= i < |code| :: code[i].a < 0x1_0000 {
      assert EmittedAll(code) == code;
    } else {
      var i :| 0 <= i < |code| && code[i].a >= 0x1_0000;
      assert EmittedAll(code)[i] != code[i];
    }
  }

  /** The first index that is cut: local 65536 is read as local 0. */
  lemma BigLocalIsCut(rest: seq<byte>)
    ensures DecodeBody(AssembleAll([Inst(LocalGet, 0x1_0000, 0), Inst(End, 0, 0)]) + rest, 0x1_0001, false) ==
            Some([Inst(LocalGet, 0, 0), Inst(End, 0, 0)])
  {
    hide AssembleAll, DecodeBody;
    var code := [Inst(LocalGet, 0x1_0000, 0), Inst(End, 0, 0)];
    LoweredAsEmitted(code, rest, 0x1_0001, false);
    assert EmittedAll(code) == [Inst(LocalGet, 0, 0), Inst(End, 0, 0)];
  }

  // ----- running a lowered body

  /** The first instruction that leaves the function. */
  function Exit(code: seq<Inst>): (e: nat)
    requires StraightLine(code)
    ensures e < |code| && (code[e].op.Return? || code[e].op.End?)
    ensures forall i | 0 <= i < e :: IsStraight(code[i].op) && !code[i].op.Return?
  {
    ExitFrom(code, 0)
  }

  function ExitFrom(code: seq<Inst>, i: nat): (e: nat)
    requires StraightLine(code) && i < |code|
    ensures i <= e < |code| && (code[e].op.Return? || code[e].op.End?)
    ensures forall j | i <= j < e :: IsStraight(code[j].op) && !code[j].op.Return?
    decreases |code| - i
  {
    if code[i].op.Return? || code[i].op.End? then i else ExitFrom(code, i + 1)
  }

  lemma StraightJoins(m: Module)
    requires m.Shaped() && StraightLine(m.code)
    ensures JoinsAgree(m)
  {
    forall i | 0 <= i < |m.code|
      ensures EdgesAgree(m, i)
    {
      assert IsStraight(m.code[i].op) || m.code[i].op.End?;
    }
  }

  /** A straight instruction falls through unless it fills the stack. */
  lemma StraightStep(m: Module, st: State)
    requires m.Shaped() && Accepted(m) && JoinsAgree(m) && Typed(m, st) && st.pc < |m.code|
    requires IsStraight(m.code[st.pc].op) && !m.code[st.pc].op.Return? && |st.stack| < STACK_MAX
    ensures var o := Step(m, st);
      if Depth(m.code, st.pc + 1) < STACK_MAX then o.Running? && Typed(m, o.st) && o.st.pc == st.pc + 1
      else o.Done? && o.status.RejectStack?
  {
    StepTyped(m, st);
    assert InstOk(m, st.pc);
    assert Depth(m.code, st.pc + 1) == Depth(m.code, st.pc) + Effect(m.code[st.pc].op);
    hide Depth, JoinsAgree, Accepted;
    StraightExecute(m, st);
  }

  lemma StraightExecute(m: Module, st: State)
    requires m.Shaped() && st.pc < |m.code| && |st.locals| == m.nLocals
    requires IsStraight(m.code[st.pc].op) && !m.code[st.pc].op.Return?
    requires Verdict(m, m.code[st.pc], |st.stack|).Ok?
    ensures var o := Execute(m, st);
      if |st.stack| + Effect(m.code[st.pc].op) < STACK_MAX then o.Running? && o.st.pc == st.pc + 1
      else o.Done? && o.status.RejectStack?
  {
    hide Binary, Read32, Write32, InBounds, DoCall;
  }

  /** All modelled depths up to the exit stay below the executor's ceiling. */
  predicate Roomy(code: seq<Inst>, n: nat)
    requires n <= |code|
  {
    forall j | 0 <= j <= n :: Depth(code, j) < STACK_MAX
  }

  lemma {:induction false} StraightPrefix(m: Module, args: seq<u32>, mem: seq<byte>, n: nat)
    requires m.Shaped() && StraightLine(m.code) && Accepted(m) && |mem| == m.memSize && n <= Exit(m.code)
    ensures var o := Run(m, Start(m, args, mem), n);
      if Roomy(m.code, n) then o.Running? && Typed(m, o.st) && o.st.pc == n
      else o.Done? && o.status.RejectStack?
  {
    hide Step, Accepted, StraightLine, Exit, InitLocals;
    if n == 0 {
      StartTyped(m, args, mem);
    } else {
      StraightPrefix(m, args, mem, n - 1);
      hide Depth;
      var o := Run(m, Start(m, args, mem), n - 1);
      assert Roomy(m.code, n) <==> Roomy(m.code, n - 1) && Depth(m.code, n) < STACK_MAX;
      if o.Running? {
        StraightJoins(m);
        assert Depth(m.code, n - 1) < STACK_MAX;
        StraightStep(m, o.st);
      }
    }
  }

  /** Checked lowered code stops within its own length, and successfully exactly when no
      modelled depth up to its exit reaches the ceiling. */
  lemma LoweredCodeStops(m: Module, args: seq<u32>, mem: seq<byte>, n: nat)
    requires m.Shaped() && StraightLine(m.code) && Accepted(m) && |mem| == m.memSize && n >= |m.code|
    ensures var o := Run(m, Start(m, args, mem), n);
      o.Done? && o.status == if Roomy(m.code, Exit(m.code)) then Ok else RejectStack
  {
    hide Run, Accepted, StraightLine, Exit;
    var e, st := Exit(m.code), Start(m, args, mem);
    StraightPrefix(m, args, mem, e);
    ExitStep(m, st, e);
    DoneStays(m, st, e + 1, n);
  }

  lemma ExitStep(m: Module, st: State, e: nat)
    requires m.Shaped() && e < |m.code| && (m.code[e].op.Return? || m.code[e].op.End?)
    requires var o := Run(m, st, e);
      if Roomy(m.code, e) then o.Running? && Typed(m, o.st) && o.st.pc == e
      else o.Done? && o.status.RejectStack?
    ensures var o := Run(m, st, e + 1);
      o.Done? && o.status == if Roomy(m.code, e) then Ok else RejectStack
  {
    hide Depth, Binary, DoLoad, DoStore, DoCall, Guarded;
    if Roomy(m.code, e) {
      assert Depth(m.code, e) < STACK_MAX;
    }
  }

  lemma {:induction false} DoneStays(m: Module, st: State, k: nat, n: nat)
    requires m.Shaped() && k <= n && !Run(m, st, k).Running?
    ensures Run(m, st, n) == Run(m, st, k)
    decreases n
  {
    hide Step;
    if k < n {
      DoneStays(m, st, k, n - 1);
    }
  }
}
