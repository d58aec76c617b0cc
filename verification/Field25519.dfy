/** Arithmetic modulo 2^255 - 19 on sixteen signed 64-bit limbs of 16 bits each. */
module Field25519 {
  import opened Bits
  import opened Modular

  /** A C `i64`; every intermediate value is held in one, so nothing overflows. */
  type i64 = x: int | -0x8000_0000_0000_0000 <= x < 0x8000_0000_0000_0000

  function P(): int
  {
    Pow2(255) - 19
  }

  lemma PPositive()
    ensures P() > 19
  {
    hide Pow2;
    Pow2Add(54, 201);
    Pow2At54();
    assert Pow2(255) >= Pow2(54) by {
      MulAtLeast(Pow2(201), Pow2(54));
    }
  }

  // ----- the number a list of limbs stands for

  function Weight(i: nat): int
  {
    if i == 0 then 1 else 65536 * Weight(i - 1)
  }

  function Val(s: seq<int>): int
  {
    if s == [] then 0 else Val(s[..|s| - 1]) + s[|s| - 1] * Weight(|s| - 1)
  }

  lemma {:induction false} WeightAdd(i: nat, j: nat)
    ensures Weight(i + j) == Weight(i) * Weight(j)
  {
    if j > 0 {
      WeightAdd(i, j - 1);
      ShiftFactor(Weight(i), Weight(j - 1));
    }
  }

  lemma ShiftFactor(x: int, y: int)
    ensures 65536 * (x * y) == x * (65536 * y)
  {
  }

  lemma Pow2At16()
    ensures Pow2(16) == 65536
  {
    assert Pow2(8) == 256;
    hide Pow2;
    Pow2Add(8, 8);
  }

  lemma {:induction false} WeightPow(i: nat)
    ensures Weight(i) == Pow2(16 * i)
  {
    if i > 0 {
      WeightPow(i - 1);
      Pow2At16();
      hide Pow2;
      Pow2Add(16, 16 * (i - 1));
    }
  }

  /** The weight just beyond the limbs is 38, modulo the prime. */
  lemma Weight16()
    ensures Weight(16) == 2 * P() + 38
  {
    WeightPow(16);
    assert Pow2(256) == 2 * Pow2(255);
  }

  lemma ValSnoc(s: seq<int>, i: nat)
    requires i < |s|
    ensures Val(s[..i + 1]) == Val(s[..i]) + s[i] * Weight(i)
  {
    assert s[..i + 1][..i] == s[..i];
  }

  lemma {:induction false} ValUpdate(s: seq<int>, i: nat, d: int)
    requires i < |s|
    ensures Val(s[i := s[i] + d]) == Val(s) + d * Weight(i)
  {
    var s' := s[i := s[i] + d];
    if i == |s| - 1 {
      assert s'[..i] == s[..i];
      Distribute(s[i], d, Weight(i));
    } else {
      ValUpdate(s[..|s| - 1], i, d);
      assert s'[..|s| - 1] == s[..|s| - 1][i := s[i] + d];
    }
  }

  // ----- congruence

  predicate Cong(x: int, y: int)
  {
    ModEq(x, y, P())
  }

  lemma CongBy(x: int, y: int, k: int)
    requires x == y + k * P()
    ensures Cong(x, y)
  {
    hide P;
    PPositive();
    ModEqBy(x, y, k, P());
  }

  lemma CongWitness(x: int, y: int) returns (k: int)
    requires Cong(x, y)
    ensures x == y + k * P()
  {
    hide P;
    k := ModEqWitness(x, y, P());
  }

  lemma CongTrans(x: int, y: int, z: int)
    requires Cong(x, y) && Cong(y, z)
    ensures Cong(x, z)
  {
    hide P, ModEq;
    ModEqTrans(x, y, z, P());
  }

  lemma CongMul(a: int, b: int, x: int, y: int)
    requires Cong(a, x) && Cong(b, y)
    ensures Cong(a * b, x * y)
  {
    hide P, ModEq;
    ModEqMul(a, b, x, y, P());
  }

  // ----- carrying

  /** The carry out of limb `i` in one pass from limb 0 up. */
  function Out(s: seq<int>, i: nat): int
    requires i < |s|
  {
    (s[i] + if i == 0 then 0 else Out(s, i - 1)) / 65536
  }

  /** What stays in limb `i`, before limb 0 takes the last carry. */
  function Kept(s: seq<int>, i: nat): (r: int)
    requires i < |s|
    ensures 0 <= r < 65536
  {
    (s[i] + if i == 0 then 0 else Out(s, i - 1)) % 65536
  }

  /** One pass; the carry out of the top limb comes back into limb 0 as 38 units. */
  function Carried(s: seq<int>): (r: seq<int>)
    requires |s| == 16
    ensures |r| == 16
  {
    var k := KeptUpTo(s, 16);
    k[0 := k[0] + 38 * Out(s, 15)]
  }

  function KeptUpTo(s: seq<int>, n: nat): (r: seq<int>)
    requires n <= |s|
    ensures |r| == n
  {
    seq(n, i requires 0 <= i < n => Kept(s, i))
  }

  lemma KeptStep(s: seq<int>, i: nat)
    requires i < |s|
    ensures Kept(s, i) == s[i] + (if i == 0 then 0 else Out(s, i - 1)) - 65536 * Out(s, i)
  {
  }

  /** A pass moves value upwards and loses only what leaves the last limb. */
  lemma {:induction false} KeptVal(s: seq<int>, n: nat)
    requires 1 <= n <= |s|
    ensures Val(KeptUpTo(s, n)) == Val(s[..n]) - Out(s, n - 1) * Weight(n)
  {
    var i := n - 1;
    var k := KeptUpTo(s, n);
    ValSnoc(k, i);
    ValSnoc(s, i);
    KeptStep(s, i);
    assert k[..n] == k && k[..i] == KeptUpTo(s, i) && Weight(n) == 65536 * Weight(i);
    if i > 0 {
      KeptVal(s, i);
      hide Val, Weight, Out, Kept;
      TelescopeStep(s[i], Out(s, i - 1), Out(s, i), Weight(i));
    } else {
      assert Val(s[..0]) == 0 && Val(KeptUpTo(s, 0)) == 0;
      hide Val, Weight, Out, Kept;
      TelescopeStep(s[i], 0, Out(s, i), Weight(i));
    }
  }

  lemma TelescopeStep(x: int, c: int, d: int, w: int)
    ensures (x + c - 65536 * d) * w == x * w + c * w - d * (65536 * w)
  {
  }

  lemma ValUpdateFirst(s: seq<int>, d: int)
    requires s != []
    ensures Val(s[0 := s[0] + d]) == Val(s) + d
  {
    ValUpdate(s, 0, d);
  }

  lemma KeptWhole(s: seq<int>)
    requires |s| == 16
    ensures Val(KeptUpTo(s, 16)) == Val(s) - Out(s, 15) * (2 * P() + 38)
  {
    hide Val, Out, Kept, P, KeptUpTo;
    KeptVal(s, 16);
    Weight16();
    assert s[..16] == s;
  }

  /** The pass keeps the residue. */
  lemma CarriedCong(s: seq<int>)
    requires |s| == 16
    ensures Cong(Val(Carried(s)), Val(s))
  {
    hide Val, Weight, Out, Kept, P, Cong, KeptUpTo;
    var q := Out(s, 15);
    KeptWhole(s);
    ValUpdateFirst(KeptUpTo(s, 16), 38 * q);
    DropCarry(q, P());
    CongBy(Val(Carried(s)), Val(s), -2 * q);
  }

  lemma DropCarry(q: int, p: int)
    ensures 38 * q - q * (2 * p + 38) == (-2 * q) * p
  {
  }

  // ----- how far carries reach

  predicate Bounded(s: seq<int>, b: int)
  {
    forall i | 0 <= i < |s| :: -b <= s[i] <= b
  }

  lemma DivBounds(x: int, lo: int, hi: int)
    requires lo * 65536 <= x < (hi + 1) * 65536
    ensures lo <= x / 65536 <= hi
  {
  }

  lemma {:induction false} OutBounded(s: seq<int>, i: nat)
    requires i < |s| && Bounded(s, 0x7FFF_0000_0000_0000)
    ensures -0x8000_0000_0000 <= Out(s, i) <= 0x8000_0000_0000
  {
    if i > 0 {
      OutBounded(s, i - 1);
    }
    DivBounds(s[i] + if i == 0 then 0 else Out(s, i - 1), -0x8000_0000_0000, 0x8000_0000_0000);
  }

  /** Limbs 1 to 15 are digits, limb 0 may be a little outside. */
  predicate Reduced(s: seq<int>)
  {
    |s| == 16 && -38 <= s[0] < 65536 + 38 && forall i | 1 <= i < 16 :: 0 <= s[i] < 65536
  }

  predicate AlmostReduced(s: seq<int>)
  {
    |s| == 16 && -0x20_0000_0000_0000 <= s[0] <= 0x20_0000_0000_0000 && forall i | 1 <= i < 16 :: 0 <= s[i] < 65536
  }

  lemma FirstPass(s: seq<int>)
    requires |s| == 16 && Bounded(s, 0x7FFF_0000_0000_0000)
    ensures AlmostReduced(Carried(s))
  {
    OutBounded(s, 15);
    hide Out, Kept;
  }

  lemma {:induction false} OutSmall(s: seq<int>, i: nat)
    requires AlmostReduced(s) && 3 <= i < 16
    ensures -1 <= Out(s, i) <= 1
  {
    if i == 3 {
      DivBounds(s[0], -0x20_0000_0000, 0x20_0000_0000);
      DivBounds(s[1] + Out(s, 0), -0x20_0001, 0x20_0001);
      DivBounds(s[2] + Out(s, 1), -33, 33);
      DivBounds(s[3] + Out(s, 2), -1, 1);
    } else {
      OutSmall(s, i - 1);
      DivBounds(s[i] + Out(s, i - 1), -1, 1);
    }
  }

  lemma SecondPass(s: seq<int>)
    requires AlmostReduced(s)
    ensures Reduced(Carried(s))
  {
    OutSmall(s, 15);
    hide Out, Kept;
  }

  // ----- the operations

  /** One pass of `car25519`, in place. The largest value on the way is that of limb 15 plus
      its carry; nothing leaves the 64-bit range. */
  method Carry(o: array<i64>)
    requires o.Length == 16 && Bounded(o[..], 0x7FFF_0000_0000_0000)
    modifies o
    ensures o[..] == Carried(old(o[..]))
  {
    hide Out, Kept;
    ghost var s: seq<int> := o[..];
    for i := 0 to 16
      invariant forall j | 0 <= j < i && (i < 16 || j > 0) :: o[j] == Kept(s, j)
      invariant i < 16 ==> o[i] == s[i] + if i == 0 then 0 else Out(s, i - 1)
      invariant forall j | i < j < 16 :: o[j] == s[j]
      invariant i == 16 ==> o[0] == Kept(s, 0) + 38 * Out(s, 15)
    {
      OutBounded(s, i);
      CarryStep(s, i);
      if i > 0 {
        OutBounded(s, i - 1);
      }
      var x: i64 := o[i] + 65536;
      var c: i64 := x / 65536;
      o[i] := x;
      if i < 15 {
        var y: i64 := o[i + 1] + (c - 1);
        o[i + 1] := y;
      } else {
        var z: i64 := 37 * (c - 1);
        var y: i64 := o[0] + (c - 1) + z;
        o[0] := y;
      }
      var back: i64 := c * 65536;
      o[i] := o[i] - back;
    }
    assert o[..] == Carried(s);
  }

  lemma CarryStep(s: seq<int>, i: nat)
    requires i < |s|
    ensures var x := s[i] + (if i == 0 then 0 else Out(s, i - 1));
      (x + 65536) / 65536 == Out(s, i) + 1 && Kept(s, i) == x - 65536 * Out(s, i)
  {
  }

  lemma TwoPasses(s: seq<int>)
    requires |s| == 16 && Bounded(s, 0x7FFF_0000_0000_0000)
    ensures Reduced(Carried(Carried(s))) && Cong(Val(Carried(Carried(s))), Val(s))
    ensures Bounded(Carried(s), 0x7FFF_0000_0000_0000)
  {
    FirstPass(s);
    SecondPass(Carried(s));
    CarriedCong(s);
    CarriedCong(Carried(s));
    hide Carried, Val, Cong;
    CongTrans(Val(Carried(Carried(s))), Val(Carried(s)), Val(s));
  }

  // ----- multiplication

  const LIMB: int := 0x3FF_FFFF

  lemma ProductBound(x: int, y: int)
    requires -LIMB <= x <= LIMB && -LIMB <= y <= LIMB
    ensures -0x10_0000_0000_0000 <= x * y <= 0x10_0000_0000_0000
  {
    var ax, ay := if x < 0 then -x else x, if y < 0 then -y else y;
    MulMono(ax, LIMB, ay, LIMB);
    SignOut(x, y);
  }

  lemma SignOut(x: int, y: int)
    ensures var p := (if x < 0 then -x else x) * (if y < 0 then -y else y); x * y == p || x * y == -p
  {
  }

  lemma MulMono(a: nat, b: nat, c: nat, d: nat)
    requires a <= b && c <= d
    ensures a * c <= b * d
  {
    assert a * c <= b * c by {
      assert (b - a) * c >= 0;
    }
    assert b * c <= b * d by {
      assert b * (d - c) >= 0;
    }
  }

  lemma RowStep(x: int, y: int, wi: int, wj: int, v: int)
    ensures x * wi * (v + y * wj) == x * wi * v + (x * y) * (wi * wj)
  {
    calc {
      x * wi * (v + y * wj);
      x * wi * v + (x * wi) * (y * wj);
      x * wi * v + (x * y) * (wi * wj);
    }
  }

  /** One row of the schoolbook product. */
  method AddRow(t: array<i64>, x: i64, b: array<i64>, i: nat)
    requires t.Length == 31 && b.Length == 16 && t != b && i < 16
    requires -LIMB <= x <= LIMB && Bounded(b[..], LIMB) && Bounded(t[..], i * 0x10_0000_0000_0000)
    modifies t
    ensures Bounded(t[..], (i + 1) * 0x10_0000_0000_0000)
    ensures Val(t[..]) == Val(old(t[..])) + x * Weight(i) * Val(b[..])
  {
    hide Val, Weight;
    ghost var v0 := Val(t[..]);
    ValEmpty(b[..]);
    for j := 0 to 16
      invariant forall k | 0 <= k < 31 :: -((i + 1) * 0x10_0000_0000_0000) <= t[k] <= (i + 1) * 0x10_0000_0000_0000
      invariant forall k | i + j <= k < 31 :: -(i * 0x10_0000_0000_0000) <= t[k] <= i * 0x10_0000_0000_0000
      invariant Val(t[..]) == v0 + x * Weight(i) * Val(b[..j])
    {
      ProductBound(x, b[j]);
      ghost var ts: seq<int> := t[..];
      var prod: i64 := x * b[j];
      var sum: i64 := t[i + j] + prod;
      t[i + j] := sum;
      assert t[..] == ts[i + j := ts[i + j] + prod];
      ValUpdate(ts, i + j, prod);
      WeightAdd(i, j);
      ValSnoc(b[..], j);
      assert b[..][..j] == b[..j] && b[..][..j + 1] == b[..j + 1];
      RowStep(x, b[j], Weight(i), Weight(j), Val(b[..j]));
    }
    assert b[..16] == b[..];
  }

  lemma ValEmpty(s: seq<int>)
    ensures Val(s[..0]) == 0
  {
  }

  /** The 31 columns of the product. */
  method Columns(a: array<i64>, b: array<i64>) returns (t: array<i64>)
    requires a.Length == b.Length == 16 && Bounded(a[..], LIMB) && Bounded(b[..], LIMB)
    ensures fresh(t) && t.Length == 31 && Bounded(t[..], 0x100_0000_0000_0000)
    ensures Val(t[..]) == Val(a[..]) * Val(b[..])
  {
    hide Val, Weight;
    t := new i64[31](_ => 0);
    ValZero(t[..]);
    ValEmpty(a[..]);
    for i := 0 to 16
      invariant fresh(t) && Bounded(t[..], i * 0x10_0000_0000_0000)
      invariant Val(t[..]) == Val(a[..i]) * Val(b[..])
    {
      AddRow(t, a[i], b, i);
      ValSnoc(a[..], i);
      assert a[..][..i] == a[..i] && a[..][..i + 1] == a[..i + 1];
      Distribute(Val(a[..i]), a[i] * Weight(i), Val(b[..]));
    }
    assert a[..16] == a[..];
  }

  lemma {:induction false} ValZero(s: seq<int>)
    requires forall i | 0 <= i < |s| :: s[i] == 0
    ensures Val(s) == 0
  {
    if s != [] {
      ValZero(s[..|s| - 1]);
    }
  }

  lemma {:induction false} ValSplit(s: seq<int>, n: nat)
    requires n <= |s|
    ensures Val(s) == Val(s[..n]) + Weight(n) * Val(s[n..])
    decreases |s|
  {
    if n == |s| {
      assert s[..n] == s && s[n..] == [];
    } else {
      var m := |s| - 1;
      var init := s[..m];
      ValSplit(init, n);
      assert init[..n] == s[..n] && init[n..] == s[n..m];
      ValSnoc(s[n..], m - n);
      assert s[n..][..m - n] == s[n..m] && s[n..][..m - n + 1] == s[n..];
      WeightAdd(n, m - n);
      hide Val, Weight;
      ShiftStep(Weight(n), Val(s[n..m]), s[m], Weight(m - n));
    }
  }

  lemma ShiftStep(w: int, v: int, x: int, u: int)
    ensures w * (v + x * u) == w * v + x * (w * u)
  {
    calc {
      w * (v + x * u);
      w * v + w * (x * u);
      w * v + x * (w * u);
    }
  }

  /** The upper columns folded onto the lower ones. */
  function Folded(t: seq<int>): (r: seq<int>)
    requires |t| == 31
    ensures |r| == 16
  {
    seq(16, i requires 0 <= i < 16 => if i < 15 then t[i] + 38 * t[i + 16] else t[15])
  }

  lemma {:induction false} FoldedVal(t: seq<int>, n: nat)
    requires |t| == 31 && n <= 15
    ensures Val(Folded(t)[..n]) == Val(t[..n]) + 38 * Val(t[16..16 + n])
  {
    hide Val, Weight, Folded;
    var r := Folded(t);
    if n == 0 {
      ValEmpty(r);
      ValEmpty(t);
      ValEmpty(t[16..]);
      assert t[16..16] == t[16..][..0];
    } else {
      var i, hi := n - 1, t[16..];
      FoldedVal(t, i);
      ValSnoc(r, i);
      ValSnoc(t, i);
      ValSnoc(hi, i);
      assert hi[..i] == t[16..16 + i] && hi[..n] == t[16..16 + n] && hi[i] == t[i + 16];
      FoldedAt(t, i);
      Distribute(t[i], 38 * t[i + 16], Weight(i));
    }
  }

  lemma FoldedAt(t: seq<int>, i: nat)
    requires |t| == 31 && i < 15
    ensures Folded(t)[i] == t[i] + 38 * t[i + 16]
  {
  }

  lemma FoldedCong(t: seq<int>)
    requires |t| == 31
    ensures Cong(Val(Folded(t)), Val(t))
  {
    hide Val, Weight, Folded, P, Cong;
    var r, hi := Folded(t), t[16..];
    FoldedVal(t, 15);
    FoldedLast(t);
    ValSnoc(r, 15);
    ValSnoc(t, 15);
    ValSplit(t, 16);
    assert r[..16] == r && t[16..31] == hi;
    Weight16();
    FoldDrop(Val(hi), P());
    CongBy(Val(r), Val(t), -2 * Val(hi));
  }

  lemma FoldedLast(t: seq<int>)
    requires |t| == 31
    ensures Folded(t)[15] == t[15]
  {
  }

  lemma FoldDrop(h: int, p: int)
    ensures 38 * h - (2 * p + 38) * h == (-2 * h) * p
  {
  }

  method FoldColumns(t: array<i64>)
    requires t.Length == 31 && Bounded(t[..], 0x100_0000_0000_0000)
    modifies t
    ensures t[..16] == Folded(old(t[..])) && Bounded(t[..16], 0x7FFF_0000_0000_0000)
  {
    ghost var s: seq<int> := t[..];
    for i := 0 to 15
      invariant forall j | 0 <= j < i :: t[j] == s[j] + 38 * s[j + 16]
      invariant forall j | i <= j < 31 :: t[j] == s[j]
    {
      var high: i64 := 38 * t[i + 16];
      var sum: i64 := t[i] + high;
      t[i] := sum;
    }
    assert t[..16] == Folded(s);
  }

  /** `M`; the output may be one of the inputs. */
  method Mul(o: array<i64>, a: array<i64>, b: array<i64>)
    requires o.Length == a.Length == b.Length == 16 && Bounded(a[..], LIMB) && Bounded(b[..], LIMB)
    modifies o
    ensures Reduced(o[..]) && Bounded(o[..], LIMB)
    ensures Cong(Val(o[..]), Val(old(a[..])) * Val(old(b[..])))
  {
    hide Val, Cong, Carried, Folded;
    var t := Columns(a, b);
    ghost var ts: seq<int> := t[..];
    FoldedCong(ts);
    FoldColumns(t);
    for i := 0 to 16
      invariant forall j | 0 <= j < i :: o[j] == t[j]
      invariant t[..16] == Folded(ts)
    {
      o[i] := t[i];
    }
    assert o[..] == Folded(ts);
    TwoPasses(Folded(ts));
    Carry(o);
    Carry(o);
    CongTrans(Val(o[..]), Val(Folded(ts)), Val(ts));
  }

  // ----- powers

  /** Square, and multiply by `x` if `odd`: the exponent doubles and may grow by one. */
  lemma PowerStep(v: int, squared: int, next: int, x: int, e: nat, odd: bool)
    requires Cong(v, Pow(x, e)) && Cong(squared, v * v)
    requires if odd then Cong(next, squared * x) else next == squared
    ensures Cong(next, Pow(x, 2 * e + if odd then 1 else 0))
  {
    CongMul(v, v, Pow(x, e), Pow(x, e));
    PowAdd(x, e, e);
    hide Pow;
    assert e + e == 2 * e;
    CongTrans(squared, v * v, Pow(x, 2 * e));
    if odd {
      PowNext(x, 2 * e);
      CongRefl(x);
      CongMul(squared, x, Pow(x, 2 * e), x);
      hide Cong;
      CongTrans(next, squared * x, Pow(x, 2 * e) * x);
    }
  }

  lemma PowNext(x: int, e: nat)
    ensures Pow(x, e + 1) == Pow(x, e) * x
  {
  }

  lemma PowOne(x: int)
    ensures Pow(x, 1) == x
  {
    assert Pow(x, 0) == 1;
  }

  lemma CongRefl(x: int)
    ensures Cong(x, x)
  {
    hide P;
    PPositive();
    ModEqRefl(x, P());
  }

  /** The exponent after the turns down to `a`, where turn `b` multiplies unless it is skipped. */
  function Exponent(top: nat, a: nat, skip: set<nat>): nat
    requires a <= top
    decreases top - a
  {
    if a == top then 1 else 2 * Exponent(top, a + 1, skip) + if a in skip then 0 else 1
  }

  /** Without a skipped turn the exponent is all ones. */
  lemma {:induction false} AllOnes(top: nat, a: nat, skip: set<nat>)
    requires a <= top && forall b | b in skip :: b < a
    ensures Exponent(top, a, skip) == Pow2(top - a + 1) - 1
    decreases top - a
  {
    if a < top {
      AllOnes(top, a + 1, skip);
      assert top - (a + 1) + 1 == top - a;
    } else {
      assert Pow2(1) == 2;
    }
  }

  lemma ExponentStep(top: nat, a: nat, skip: set<nat>)
    requires a < top
    ensures Exponent(top, a, skip) == 2 * Exponent(top, a + 1, skip) + if a in skip then 0 else 1
  {
  }

  lemma InverseExponent()
    ensures Exponent(254, 0, {2, 4}) == P() - 2
  {
    hide Exponent, Pow2;
    var skip := {2, 4};
    AllOnes(254, 5, skip);
    ExponentStep(254, 4, skip);
    ExponentStep(254, 3, skip);
    ExponentStep(254, 2, skip);
    ExponentStep(254, 1, skip);
    ExponentStep(254, 0, skip);
    Pow2Up(250, 5);
  }

  lemma RootExponent()
    ensures 8 * Exponent(251, 0, {1}) == P() - 5
  {
    hide Exponent, Pow2;
    var skip := {1};
    AllOnes(251, 2, skip);
    ExponentStep(251, 1, skip);
    ExponentStep(251, 0, skip);
    Pow2Up(250, 5);
  }

  lemma Pow2Up(n: nat, k: nat)
    requires k == 5
    ensures Pow2(n + k) == 32 * Pow2(n)
  {
    assert Pow2(5) == 32;
    hide Pow2;
    Pow2Add(n, k);
  }

  /** The square-and-multiply loop behind `inv25519` and `pow2523`. */
  method PowerLoop(c: array<i64>, i: array<i64>, top: nat, skip: set<nat>)
    requires c.Length == i.Length == 16 && c != i && Bounded(i[..], LIMB) && c[..] == i[..]
    modifies c
    ensures Bounded(c[..], LIMB) && (top > 0 ==> Reduced(c[..]))
    ensures Cong(Val(c[..]), Pow(Val(i[..]), Exponent(top, 0, skip)))
  {
    hide Val, Cong, Pow, Reduced;
    ghost var x := Val(i[..]);
    PowOne(x);
    CongRefl(x);
    var a := top;
    while a > 0
      invariant 0 <= a <= top && Bounded(c[..], LIMB) && (a < top ==> Reduced(c[..]))
      invariant Cong(Val(c[..]), Pow(x, Exponent(top, a, skip)))
    {
      a := a - 1;
      ghost var v := Val(c[..]);
      Mul(c, c, c);
      ghost var squared := Val(c[..]);
      if a !in skip {
        Mul(c, c, i);
      }
      PowerStep(v, squared, Val(c[..]), x, Exponent(top, a + 1, skip), a !in skip);
    }
  }

  /** `inv25519`: the power p - 2, which is the inverse if p is prime. */
  method Invert(o: array<i64>, i: array<i64>)
    requires o.Length == i.Length == 16 && Bounded(i[..], LIMB)
    modifies o
    ensures Reduced(o[..]) && Cong(Val(o[..]), Pow(Val(old(i[..])), P() - 2))
    ensures IsPrime(P()) && !Cong(Val(old(i[..])), 0) ==> Cong(Val(o[..]) * Val(old(i[..])), 1)
    ensures Cong(Val(old(i[..])), 0) ==> Cong(Val(o[..]), 0)
  {
    hide Val, Cong, Pow, Exponent, P, IsPrime;
    InverseExponent();
    ghost var x := Val(i[..]);
    var c := CopyOf(i);
    PowerLoop(c, i, 254, {2, 4});
    InverseMeans(x, Val(c[..]));
    CopyTo(o, c);
  }

  lemma InverseMeans(x: int, v: int)
    requires P() >= 2 && Cong(v, Pow(x, P() - 2))
    ensures IsPrime(P()) && !Cong(x, 0) ==> Cong(v * x, 1)
    ensures Cong(x, 0) ==> Cong(v, 0)
  {
    PPositive();
    hide P, Pow, IsPrime, ModEq;
    var e := P() - 2;
    CongRefl(x);
    CongMul(v, x, Pow(x, e), x);
    PowNext(x, e);
    if IsPrime(P()) && !Cong(x, 0) {
      Fermat(x, P());
      CongTrans(v * x, Pow(x, e + 1), 1);
    }
    if Cong(x, 0) {
      PowNext(x, e - 1);
      CongRefl(Pow(x, e - 1));
      CongMul(Pow(x, e - 1), x, Pow(x, e - 1), 0);
      CongTrans(v, Pow(x, e), 0);
    }
  }

  /** `pow2523`: the power (p - 5) / 8. */
  method PowRoot(o: array<i64>, i: array<i64>)
    requires o.Length == i.Length == 16 && Bounded(i[..], LIMB)
    modifies o
    ensures Reduced(o[..]) && Cong(Val(o[..]), Pow(Val(old(i[..])), (P() - 5) / 8))
  {
    hide Val, Cong, Pow, Exponent, P;
    RootExponent();
    var c := CopyOf(i);
    PowerLoop(c, i, 251, {1});
    CopyTo(o, c);
  }

  method CopyOf(i: array<i64>) returns (c: array<i64>)
    requires i.Length == 16
    ensures fresh(c) && c.Length == 16 && c[..] == i[..]
  {
    c := new i64[16](k requires 0 <= k < i.Length reads i => i[k]);
  }

  method CopyTo(o: array<i64>, c: array<i64>)
    requires o.Length == c.Length == 16 && o != c
    modifies o
    ensures o[..] == c[..]
  {
    for k := 0 to 16
      invariant o[..k] == c[..k]
    {
      o[k] := c[k];
    }
  }
}
