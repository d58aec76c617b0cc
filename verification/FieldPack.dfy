/** Canonical bytes of a field element: `pack25519` yields the digits of the residue itself. */
module FieldPack {
  import opened Bits
  import opened Modular
  import opened Field25519

  // ----- digits

  predicate Digits(s: seq<int>)
  {
    forall i | 0 <= i < |s| :: 0 <= s[i] < 65536
  }

  lemma {:induction false} DigitsRange(s: seq<int>)
    requires Digits(s)
    ensures 0 <= Val(s) < Weight(|s|)
  {
    if s != [] {
      var i := |s| - 1;
      DigitsRange(s[..i]);
      assert Weight(|s|) == 65536 * Weight(i);
      hide Weight, Val;
      DigitTop(s[i], Weight(i), Val(s[..i]));
    }
  }

  lemma DigitTop(x: int, w: int, v: int)
    requires 0 <= x < 65536 && 0 <= v < w
    ensures 0 <= v + x * w < 65536 * w
  {
    MulMono(x, 65535, w, w);
  }

  /** Digits are determined by the number. */
  lemma {:induction false} DigitsUnique(s: seq<int>, t: seq<int>)
    requires |s| == |t| && Digits(s) && Digits(t) && Val(s) == Val(t)
    ensures s == t
  {
    if s != [] {
      var i := |s| - 1;
      var x, y := s[..i], t[..i];
      DigitsRange(x);
      DigitsRange(y);
      SameTop(s[i], t[i], Weight(i), Val(x), Val(y));
      DigitsUnique(x, y);
      assert s == x + [s[i]] && t == y + [t[i]];
    }
  }

  lemma SameTop(a: int, b: int, w: int, x: int, y: int)
    requires 0 <= x < w && 0 <= y < w && x + a * w == y + b * w
    ensures a == b && x == y
  {
    DivUnique(x + a * w, w, a, x);
    DivUnique(x + a * w, w, b, y);
  }

  // ----- a third pass leaves digits

  lemma {:induction false} OneCarry(s: seq<int>, i: nat)
    requires Reduced(s) && i < 16
    ensures Out(s, 0) == (if s[0] < 0 then -1 else if s[0] >= 65536 then 1 else 0)
    ensures Out(s, i) == 0 || Out(s, i) == Out(s, 0)
  {
    if i > 0 {
      OneCarry(s, i - 1);
      DigitCarry(s[i], Out(s, i - 1));
    }
  }

  lemma DigitCarry(x: int, c: int)
    requires 0 <= x < 65536 && -1 <= c <= 1
    ensures (x + c) / 65536 == 0 || (x + c) / 65536 == c
  {
  }

  lemma ThirdPass(s: seq<int>)
    requires Reduced(s)
    ensures Digits(Carried(s)) && Cong(Val(Carried(s)), Val(s))
  {
    CarriedCong(s);
    OneCarry(s, 15);
    KeptStep(s, 0);
    hide Val, Cong, Out, Kept;
  }

  lemma ThreePasses(s: seq<int>)
    requires |s| == 16 && Bounded(s, 0x7FFF_0000_0000_0000)
    ensures Bounded(Carried(s), 0x7FFF_0000_0000_0000) && Bounded(Carried(Carried(s)), 0x7FFF_0000_0000_0000)
    ensures Digits(Carried(Carried(Carried(s)))) && Cong(Val(Carried(Carried(Carried(s)))), Val(s))
  {
    TwoPasses(s);
    hide Val, Cong, Carried;
    var r := Carried(Carried(s));
    ThirdPass(r);
    CongTrans(Val(Carried(r)), Val(r), Val(s));
  }

  // ----- the digits of the prime

  function PrimeDigit(i: nat): int
  {
    if i == 0 then 0xFFED else if i == 15 then 0x7FFF else 0xFFFF
  }

  function PrimeDigits(n: nat): (s: seq<int>)
    ensures |s| == n
  {
    seq(n, i requires 0 <= i < n => PrimeDigit(i))
  }

  lemma {:induction false} PrimeLow(n: nat)
    requires 1 <= n <= 15
    ensures Val(PrimeDigits(n)) == Weight(n) - 19
  {
    var i := n - 1;
    var s := PrimeDigits(n);
    assert s[..i] == PrimeDigits(i);
    if i > 0 {
      PrimeLow(i);
      hide Val;
      assert Val(s) == Val(s[..i]) + s[i] * Weight(i) by {
        ValSnoc(s, i);
        assert s[..n] == s;
      }
    } else {
      assert Val(s[..0]) == 0;
    }
  }

  lemma PrimeVal()
    ensures Val(PrimeDigits(16)) == P()
  {
    var s := PrimeDigits(16);
    PrimeLow(15);
    ValSnoc(s, 15);
    assert s[..16] == s && s[..15] == PrimeDigits(15);
    hide Val, PrimeDigits;
    assert Weight(16) == 65536 * Weight(15);
    Weight16();
    hide Weight, P;
  }

  // ----- subtracting the prime

  function MinusPrime(t: seq<int>): (d: seq<int>)
    requires |t| == 16
    ensures |d| == 16
  {
    seq(16, i requires 0 <= i < 16 => t[i] - PrimeDigit(i))
  }

  lemma {:induction false} MinusPrimeVal(t: seq<int>, n: nat)
    requires |t| == 16 && n <= 16
    ensures Val(MinusPrime(t)[..n]) == Val(t[..n]) - Val(PrimeDigits(n))
  {
    var d := MinusPrime(t);
    if n == 0 {
      ValEmpty(d);
      ValEmpty(t);
    } else {
      var i := n - 1;
      var p := PrimeDigits(n);
      MinusPrimeVal(t, i);
      ValSnoc(d, i);
      ValSnoc(t, i);
      ValSnoc(p, i);
      assert p[..n] == p && p[..i] == PrimeDigits(i);
      hide Val, Weight, PrimeDigit;
      Distribute(d[i], p[i], Weight(i));
    }
  }

  /** The difference after borrowing: digits, but for a top limb that may be negative. */
  function Borrowed(t: seq<int>): (m: seq<int>)
    requires |t| == 16
    ensures |m| == 16
  {
    KeptUpTo(MinusPrime(t), 15) + [MinusPrime(t)[15] + Out(MinusPrime(t), 14)]
  }

  lemma {:induction false} BorrowRange(t: seq<int>, i: nat)
    requires |t| == 16 && Digits(t) && i < 16
    ensures -65536 <= MinusPrime(t)[i] + (if i == 0 then 0 else Out(MinusPrime(t), i - 1)) < 65536
    ensures -1 <= Out(MinusPrime(t), i) <= 0
  {
    if i > 0 {
      BorrowRange(t, i - 1);
    }
    DivBounds(MinusPrime(t)[i] + if i == 0 then 0 else Out(MinusPrime(t), i - 1), -1, 0);
  }

  lemma MinusPrimeWhole(t: seq<int>)
    requires |t| == 16
    ensures Val(MinusPrime(t)) == Val(t) - P()
  {
    hide Val, PrimeDigits, MinusPrime, P;
    MinusPrimeVal(t, 16);
    PrimeVal();
    Whole(t);
    Whole(MinusPrime(t));
  }

  lemma Whole(s: seq<int>)
    requires |s| == 16
    ensures s[..16] == s
  {
  }

  /** A list of fifteen limbs and a top limb. */
  lemma TopLimb(low: seq<int>, top: int)
    requires |low| == 15
    ensures Val(low + [top]) == Val(low) + top * Weight(15)
  {
    assert (low + [top])[..15] == low;
    hide Weight;
  }

  lemma BorrowedVal(t: seq<int>)
    requires |t| == 16
    ensures Val(Borrowed(t)) == Val(t) - P()
  {
    hide Val, Weight, Out, Kept, MinusPrime, KeptUpTo, P;
    var d := MinusPrime(t);
    var low, c, w := KeptUpTo(d, 15), Out(d, 14), Weight(15);
    MinusPrimeWhole(t);
    KeptVal(d, 15);
    TopLimb(low, d[15] + c);
    TopLimb(d[..15], d[15]);
    assert d[..15] + [d[15]] == d;
    Distribute(d[15], c, w);
  }

  /** The top limb is negative exactly when the prime does not go in. */
  lemma BorrowedSign(t: seq<int>)
    requires |t| == 16 && Digits(t)
    ensures Borrowed(t)[15] < 0 <==> Val(t) < P()
    ensures Borrowed(t)[15] >= 0 ==> Digits(Borrowed(t))
  {
    hide Val, Weight, Out, Kept, MinusPrime;
    var m := Borrowed(t);
    BorrowedVal(t);
    BorrowRange(t, 15);
    assert m[..15] == KeptUpTo(MinusPrime(t), 15);
    DigitsRange(m[..15]);
    ValSnoc(m, 15);
    assert m[..16] == m;
    TopSign(m[15], Weight(15), Val(m[..15]));
  }

  lemma TopSign(x: int, w: int, v: int)
    requires 0 <= v < w
    ensures x < 0 <==> v + x * w < 0
  {
    if x < 0 {
      MulAtLeast(-x, w);
    } else {
      MulMono(0, x, 0, w);
    }
  }

  /** The subtraction loop; the result says whether there was a borrow at the top. */
  method Subtract(t: array<i64>, m: array<i64>) returns (b: int)
    requires t.Length == m.Length == 16 && t != m && Digits(t[..])
    modifies m
    ensures m[..] == Borrowed(t[..]) && b == if Val(t[..]) < P() then 1 else 0
  {
    hide Out, Kept, Val, MinusPrime, P;
    ghost var ts: seq<int> := t[..];
    ghost var d := MinusPrime(ts);
    SubtractAt(ts, 0);
    m[0] := t[0] - 0xFFED;
    for i := 1 to 15
      invariant forall j | 0 <= j < i - 1 :: m[j] == Kept(d, j)
      invariant m[i - 1] == d[i - 1] + if i == 1 then 0 else Out(d, i - 2)
    {
      SubtractAt(ts, i - 1);
      SubtractAt(ts, i);
      var borrow := m[i - 1] / 65536 % 2;
      var x: i64 := t[i] - 0xFFFF - borrow;
      m[i] := x;
      m[i - 1] := m[i - 1] % 65536;
    }
    SubtractAt(ts, 14);
    SubtractAt(ts, 15);
    var top: i64 := t[15] - 0x7FFF - m[14] / 65536 % 2;
    m[15] := top;
    b := m[15] / 65536 % 2;
    m[14] := m[14] % 65536;
    assert m[..] == Borrowed(ts);
    BorrowedSign(ts);
  }

  /** One limb of the subtraction: the borrow bit and the masked limb. */
  lemma SubtractAt(t: seq<int>, i: nat)
    requires |t| == 16 && Digits(t) && i < 16
    ensures MinusPrime(t)[i] == t[i] - PrimeDigit(i)
    ensures var x := MinusPrime(t)[i] + (if i == 0 then 0 else Out(MinusPrime(t), i - 1));
      && -65536 <= x < 65536 && x / 65536 % 2 == -Out(MinusPrime(t), i) && x % 65536 == Kept(MinusPrime(t), i)
      && (x / 65536 % 2 == 1 <==> x < 0)
  {
    BorrowRange(t, i);
  }

  // ----- selection

  function Not(a: int): int
  {
    -a - 1
  }

  lemma {:induction false} XorCancels(a: int, b: int)
    ensures BitXor(a, BitXor(a, b)) == b
    decreases Magnitude(a) + Magnitude(b)
  {
    if !(a in {0, -1} && b in {0, -1}) {
      HalfSmaller(a);
      HalfSmaller(b);
      XorCancels(a / 2, b / 2);
      XorSplit(a, b);
      XorSplit(a, BitXor(a, b));
      hide BitXor;
      assert BitXor(a, b) / 2 == BitXor(a / 2, b / 2);
    }
  }

  lemma {:induction false} XorCommutes(a: int, b: int)
    ensures BitXor(a, b) == BitXor(b, a)
    decreases Magnitude(a) + Magnitude(b)
  {
    if !(a in {0, -1} && b in {0, -1}) {
      HalfSmaller(a);
      HalfSmaller(b);
      XorCommutes(a / 2, b / 2);
    }
  }

  lemma {:induction false} XorZero(a: int)
    ensures BitXor(a, 0) == a
    decreases Magnitude(a)
  {
    if a !in {0, -1} {
      HalfSmaller(a);
      XorZero(a / 2);
    }
  }

  /** The mask of a bit, `~(b - 1)`, exchanges two limbs or leaves them. */
  lemma MaskSelects(p: int, q: int, b: int)
    requires b == 0 || b == 1
    ensures var t := BitAnd(Not(b - 1), BitXor(p, q));
      if b == 1 then BitXor(p, t) == q && BitXor(q, t) == p else BitXor(p, t) == p && BitXor(q, t) == q
  {
    hide BitXor, BitAnd;
    AndMask(BitXor(p, q));
    XorCancels(p, q);
    XorCommutes(p, q);
    XorCancels(q, p);
    XorZero(p);
    XorZero(q);
  }

  /** `sel25519`: exchanges the two elements, or leaves them. */
  method Select(p: array<i64>, q: array<i64>, b: int)
    requires p.Length == q.Length == 16 && p != q && (b == 0 || b == 1)
    modifies p, q
    ensures if b == 1 then p[..] == old(q[..]) && q[..] == old(p[..]) else p[..] == old(p[..]) && q[..] == old(q[..])
  {
    hide BitXor, BitAnd, Not;
    var c := Not(b - 1);
    for i := 0 to 16
      invariant forall j | 0 <= j < i ::
        if b == 1 then p[j] == old(q[j]) && q[j] == old(p[j]) else p[j] == old(p[j]) && q[j] == old(q[j])
      invariant forall j | i <= j < 16 :: p[j] == old(p[j]) && q[j] == old(q[j])
    {
      MaskSelects(p[i], q[i], b);
      var t := BitAnd(c, BitXor(p[i], q[i]));
      var x, y := BitXor(p[i], t), BitXor(q[i], t);
      p[i] := x;
      q[i] := y;
    }
  }

  // ----- packing and unpacking

  function Limb(lo: byte, hi: byte): int
  {
    lo as int + 256 * (hi as int)
  }

  /** The limbs that 32 bytes stand for. */
  function Limbs(n: seq<byte>): (s: seq<int>)
    requires |n| == 32
    ensures |s| == 16
  {
    seq(16, i requires 0 <= i < 16 => Limb(n[2 * i], n[2 * i + 1]))
  }

  /** At most one subtraction of the prime. */
  method Reduce(t: array<i64>, m: array<i64>)
    requires t.Length == m.Length == 16 && t != m && Digits(t[..])
    modifies t, m
    ensures Digits(t[..]) && Val(t[..]) == Val(old(t[..])) - if Val(old(t[..])) >= P() then P() else 0
  {
    hide Val, P, Borrowed;
    ghost var ts: seq<int> := t[..];
    var b := Subtract(t, m);
    BorrowedVal(ts);
    BorrowedSign(ts);
    Select(t, m, 1 - b);
  }

  lemma CongIsMod(x: int, y: int)
    requires Cong(x, y) && 0 <= x < P()
    ensures x == y % P()
  {
    PPositive();
    var k := CongWitness(x, y);
    hide P, Cong;
    assert y == (-k) * P() + x;
    DivUnique(y, P(), -k, x);
  }

  lemma CongMinus(x: int, y: int)
    requires Cong(x, y)
    ensures Cong(x - P(), y)
  {
    var k := CongWitness(x, y);
    hide P, Cong;
    Distribute(k, -1, P());
    CongBy(x - P(), y, k - 1);
  }

  /** `pack25519`: the bytes of the residue modulo the prime. */
  method Pack(n: array<i64>) returns (o: seq<byte>)
    requires n.Length == 16 && Bounded(n[..], 0x7FFF_0000_0000_0000)
    ensures |o| == 32 && P() > 0 && Val(Limbs(o)) == Val(n[..]) % P() && Digits(Limbs(o))
  {
    PPositive();
    hide Val, P, Cong, Carried;
    ghost var s: seq<int> := n[..];
    var t := CopyOf(n);
    var m := new i64[16];
    ThreePasses(s);
    Carry(t);
    Carry(t);
    Carry(t);
    ghost var v := Val(t[..]);
    PackRange(t[..]);
    Reduce(t, m);
    Reduce(t, m);
    CongMinus(v, Val(s));
    CongMinus(v - P(), Val(s));
    CongIsMod(Val(t[..]), Val(s));
    o := ToBytes(t);
  }

  lemma PackRange(t: seq<int>)
    requires |t| == 16 && Digits(t)
    ensures 0 <= Val(t) < 2 * P() + 38 && 38 < P()
  {
    hide Weight, Val, P;
    DigitsRange(t);
    Weight16();
    PAbove38();
  }

  lemma PAbove38()
    ensures 38 < P()
  {
    hide Pow2;
    Pow2Add(54, 201);
    Pow2At54();
    MulAtLeast(Pow2(201), Pow2(54));
  }

  method ToBytes(t: array<i64>) returns (o: seq<byte>)
    requires t.Length == 16 && Digits(t[..])
    ensures |o| == 32 && Limbs(o) == t[..]
  {
    o := [];
    for i := 0 to 16
      invariant |o| == 2 * i && forall j | 0 <= j < i :: Limb(o[2 * j], o[2 * j + 1]) == t[j]
    {
      assert 0 <= t[..][i] < 65536;
      o := o + [t[i] % 256, t[i] / 256];
    }
  }

  lemma LimbRange(lo: byte, hi: byte)
    ensures 0 <= Limb(lo, hi) < 65536
  {
  }

  /** `unpack25519`: the low 255 bits. */
  method Unpack(n: seq<byte>) returns (o: array<i64>)
    requires |n| == 32
    ensures fresh(o) && o.Length == 16 && Digits(o[..]) && o[..] == Limbs(n)[15 := Limbs(n)[15] % 0x8000]
  {
    hide Limb;
    o := new i64[16](_ => 0);
    for i := 0 to 16
      invariant forall j | 0 <= j < i :: o[j] == Limbs(n)[j] && 0 <= o[j] < 65536
    {
      LimbRange(n[2 * i], n[2 * i + 1]);
      o[i] := Limb(n[2 * i], n[2 * i + 1]);
    }
    hide Limbs;
    assert o[..] == Limbs(n);
    o[15] := o[15] % 0x8000;
  }

  /** Packed bytes have the top bit clear, so unpacking them loses nothing. */
  lemma PackedTop(s: seq<int>)
    requires |s| == 16 && Digits(s) && Val(s) < P()
    ensures s[15] < 0x8000 && s[15 := s[15] % 0x8000] == s
  {
    hide Weight, Val, P;
    ValSnoc(s, 15);
    DigitsRange(s[..15]);
    assert s[..16] == s;
    HalfTop();
    TopDigit(s[15], Weight(15), Val(s[..15]));
  }

  lemma HalfTop()
    ensures P() == 0x8000 * Weight(15) - 19 && Weight(15) > 0
  {
    assert Weight(16) == 65536 * Weight(15);
    hide Weight, P;
    Weight16();
    PPositive();
  }

  lemma TopDigit(x: int, w: int, v: int)
    requires 0 <= v && w > 0 && v + x * w < 0x8000 * w
    ensures x < 0x8000
  {
    if x >= 0x8000 {
      MulMono(0x8000, x, w, w);
      assert false;
    }
  }

  /** There and back: the element that is unpacked is the residue of the one packed. */
  method PackUnpack(n: array<i64>) returns (o: array<i64>)
    requires n.Length == 16 && Bounded(n[..], 0x7FFF_0000_0000_0000)
    ensures fresh(o) && o.Length == 16 && Digits(o[..]) && P() > 0 && Val(o[..]) == Val(n[..]) % P()
  {
    hide Val, P, Limbs;
    var b := Pack(n);
    PackedTop(Limbs(b));
    o := Unpack(b);
  }

  /** Two elements pack to the same bytes exactly when they are congruent. */
  lemma PackedEqual(x: seq<byte>, y: seq<byte>, a: int, b: int)
    requires |x| == |y| == 32 && Digits(Limbs(x)) && Digits(Limbs(y)) && P() > 0
    requires Val(Limbs(x)) == a % P() && Val(Limbs(y)) == b % P()
    ensures x == y <==> Cong(a, b)
  {
    PPositive();
    hide Val, P;
    SameResidue(a, b);
    if Cong(a, b) {
      DigitsUnique(Limbs(x), Limbs(y));
      hide Cong;
      SameBytes(x, y);
    }
  }

  lemma SameResidue(a: int, b: int)
    requires P() > 0
    ensures Cong(a, b) <==> a % P() == b % P()
  {
    if Cong(a, b) {
      var k := CongWitness(a, b);
      hide P, Cong;
      var q, r := b / P(), b % P();
      assert a == (q + k) * P() + r by {
        Distribute(q, k, P());
      }
      DivUnique(a, P(), q + k, r);
    }
    if a % P() == b % P() {
      hide P, Cong;
      Distribute(a / P(), -(b / P()), P());
      CongBy(a, b, a / P() - b / P());
    }
  }

  lemma SameBytes(x: seq<byte>, y: seq<byte>)
    requires |x| == |y| == 32 && Limbs(x) == Limbs(y)
    ensures x == y
  {
    forall k | 0 <= k < 32
      ensures x[k] == y[k]
    {
      var i := k / 2;
      assert Limbs(x)[i] == Limbs(y)[i];
      assert k == 2 * i || k == 2 * i + 1;
    }
  }
}
