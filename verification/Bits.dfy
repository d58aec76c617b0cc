/** Machine integers, powers of two and the bit tricks of the C sources, over unbounded
    integers; and options. */
module Bits {

  type byte = x: int | 0 <= x < 256

  type u32 = x: int | 0 <= x < 0x1_0000_0000

  type u64 = x: int | 0 <= x < 0x1_0000_0000_0000_0000

  datatype Option<+T> = None | Some(value: T)

  predicate NoDup<T(==)>(s: seq<T>)
  {
    forall i, j | 0 <= i < j < |s| :: s[i] != s[j]
  }

  predicate IsPow2(n: nat)
  {
    n == 1 || (n > 1 && n % 2 == 0 && IsPow2(n / 2))
  }

  function Pow2(k: nat): (r: nat)
    ensures r >= 1
  {
    if k == 0 then 1 else 2 * Pow2(k - 1)
  }

  lemma {:induction false} Pow2Add(a: nat, b: nat)
    ensures Pow2(a + b) == Pow2(a) * Pow2(b)
  {
    if b > 0 {
      Pow2Add(a, b - 1);
    }
  }

  lemma Pow2At54()
    ensures Pow2(54) == 0x40_0000_0000_0000
  {
    hide Pow2;
    Pow2At3();
    Pow2Add(3, 3);
    Pow2Add(6, 3);
    Pow2Add(9, 9);
    Pow2Add(18, 18);
    Pow2Add(36, 18);
  }

  lemma Pow2At3()
    ensures Pow2(3) == 8
  {
  }

  lemma Pow2At8()
    ensures Pow2(8) == 256
  {
  }

  lemma Pow2At32()
    ensures Pow2(31) == 0x8000_0000 && Pow2(32) == 0x1_0000_0000
  {
    hide Pow2;
    Pow2At8();
    Pow2Add(8, 8);
    Pow2Add(16, 16);
    PowTwice(31);
  }

  lemma PowTwice(n: nat)
    ensures Pow2(n + 1) == 2 * Pow2(n) && Pow2(n + 1) >= 2
  {
  }

  /** `round_down_to_power_of_2`: the highest set bit, and 1 for 0. */
  function RoundDownPow2(x: nat): (r: nat)
    ensures IsPow2(r)
    ensures x >= 1 ==> r <= x < 2 * r
  {
    if x <= 1 then 1 else 2 * RoundDownPow2(x / 2)
  }

  /** A power of two is determined by the half-open octave it opens. */
  lemma {:induction false} Pow2Unique(a: nat, b: nat, x: nat)
    requires IsPow2(a) && IsPow2(b)
    requires a <= x < 2 * a && b <= x < 2 * b
    ensures a == b
  {
    if a > 1 && b > 1 {
      Pow2Unique(a / 2, b / 2, x / 2);
    }
  }

  lemma {:induction false} Pow2Below(a: nat, b: nat)
    requires IsPow2(a) && IsPow2(b) && a < b
    ensures b % 2 == 0 && IsPow2(b / 2) && a <= b / 2
  {
    if a > 1 {
      Pow2Below(a / 2, b / 2);
    }
  }

  lemma SelfMod(a: nat)
    requires a > 0
    ensures a % a == 0
  {
    DivUnique(a, a, 1, 0);
  }

  lemma {:induction false} Pow2Divides(a: nat, b: nat)
    requires IsPow2(a) && IsPow2(b) && a <= b
    ensures b % a == 0
    decreases b
  {
    if a == b {
      SelfMod(a);
    } else {
      Pow2Below(a, b);
      var h := b / 2;
      assert b == 2 * h;
      Pow2Divides(a, h);
      DoubleMod(h, a);
    }
  }

  /** A power of two of at least 1024 bytes is a power of two of 1024-byte chunks. */
  lemma {:induction false} Pow2Chunks(len: nat)
    requires IsPow2(len) && len >= 1024
    ensures len % 1024 == 0 && IsPow2(len / 1024)
  {
    if len == 1024 {
      assert IsPow2(1024 / 1024);
    } else {
      assert IsPow2(1024);
      Pow2Below(1024, len);
      Pow2Chunks(len / 2);
      assert len / 1024 == 2 * (len / 2 / 1024);
    }
  }

  lemma DoubleMod(h: nat, a: nat)
    requires a > 0 && h % a == 0
    ensures 2 * h % a == 0
  {
    var q := h / a;
    assert h == a * q;
    DivUnique(2 * h, a, 2 * q, 0);
  }

  lemma MulMod(k: int, a: int)
    requires a > 0
    ensures k * a % a == 0 && k * a / a == k
  {
    DivUnique(k * a, a, k, 0);
  }

  lemma MulAtLeast(k: int, a: int)
    requires k >= 1 && a > 0
    ensures k * a >= a
  {
  }

  lemma Factor(q: int, q': int, a: int)
    ensures q * a - q' * a == (q - q') * a
  {
  }

  /** Euclidean division is unique. */
  lemma DivUnique(x: int, a: int, q: int, r: int)
    requires a > 0 && x == q * a + r && 0 <= r < a
    ensures x / a == q && x % a == r
  {
    var q' := x / a;
    assert x == a * q' + x % a;
    Factor(q, q', a);
    Factor(q', q, a);
    if q > q' {
      MulAtLeast(q - q', a);
    } else if q < q' {
      MulAtLeast(q' - q, a);
    }
  }

  /** `popcnt`. */
  function Popcount(n: nat): nat
  {
    if n == 0 then 0 else n % 2 + Popcount(n / 2)
  }

  lemma {:induction false} PopcountBound(n: nat, k: nat)
    requires n < Pow2(k)
    ensures Popcount(n) <= k
  {
    if n > 0 {
      PopcountBound(n / 2, k - 1);
    }
  }

  function Magnitude(a: int): nat
  {
    if a < 0 then -a - 1 else a
  }

  lemma HalfSmaller(a: int)
    ensures Magnitude(a / 2) <= Magnitude(a) && (a !in {0, -1} ==> Magnitude(a / 2) < Magnitude(a))
  {
  }

  /** Bitwise and of two's complement numbers, bit by bit from the low end. */
  function BitAnd(a: int, b: int): int
    decreases Magnitude(a) + Magnitude(b)
  {
    if a in {0, -1} && b in {0, -1} then (if a == b then a else 0)
    else
      HalfSmaller(a);
      HalfSmaller(b);
      2 * BitAnd(a / 2, b / 2) + if a % 2 == 1 && b % 2 == 1 then 1 else 0
  }

  lemma AndSplit(a: int, b: int)
    ensures BitAnd(a, b) == 2 * BitAnd(a / 2, b / 2) + if a % 2 == 1 && b % 2 == 1 then 1 else 0
  {
  }

  lemma {:induction false} AndMask(x: int)
    ensures BitAnd(-1, x) == x && BitAnd(0, x) == 0
    decreases Magnitude(x)
  {
    if x !in {0, -1} {
      HalfSmaller(x);
      AndMask(x / 2);
    }
  }

  function BitOr(a: nat, b: nat): nat
  {
    if a == 0 then b else if b == 0 then a
    else (if a % 2 == 1 || b % 2 == 1 then 1 else 0) + 2 * BitOr(a / 2, b / 2)
  }

  /** Where the bits are disjoint, or is plus. */
  lemma {:induction false} OrIsPlus(a: nat, g: nat, k: nat)
    requires a < Pow2(k)
    ensures BitOr(a, g * Pow2(k)) == a + g * Pow2(k)
  {
    if k > 0 && a > 0 && g * Pow2(k) > 0 {
      OrIsPlus(a / 2, g, k - 1);
      EvenShift(g, Pow2(k - 1), Pow2(k));
    }
  }

  lemma EvenShift(g: nat, h: nat, p: nat)
    requires p == 2 * h
    ensures g * p % 2 == 0 && g * p / 2 == g * h
  {
    assert g * p == 2 * (g * h);
  }

  lemma {:induction false} Pow2IsPow2(n: nat)
    ensures IsPow2(Pow2(n))
  {
    if n > 0 {
      Pow2IsPow2(n - 1);
    }
  }

  lemma HalvedMod(c: nat, h: nat)
    requires h > 0
    ensures c % (2 * h) == 2 * (c / 2 % h) + c % 2
  {
    var q, r := c / 2 / h, c / 2 % h;
    assert c / 2 == h * q + r;
    assert 2 * (h * q) == q * (2 * h);
    DivUnique(c, 2 * h, q, 2 * r + c % 2);
  }

  /** The low bits of `c` below the power of two `p`. */
  function LowBits(p: nat, c: nat): nat
    requires IsPow2(p)
  {
    if p == 1 then 0 else c % 2 + 2 * LowBits(p / 2, c / 2)
  }

  lemma {:induction false} LowBitsIsMod(p: nat, c: nat)
    requires IsPow2(p)
    ensures LowBits(p, c) == c % p
  {
    if p > 1 {
      LowBitsIsMod(p / 2, c / 2);
      HalvedMod(c, p / 2);
    }
  }

  lemma {:induction false} MaskIsLowBits(p: nat, c: nat)
    requires IsPow2(p)
    ensures BitAnd(p - 1, c) == LowBits(p, c)
  {
    if p > 1 {
      MaskIsLowBits(p / 2, c / 2);
      AndSplit(p - 1, c);
      hide BitAnd;
      assert (p - 1) / 2 == p / 2 - 1;
    } else {
      AndMask(c);
    }
  }

  /** Masking with a power of two minus one is the remainder. */
  lemma MaskIsMod(p: nat, c: nat)
    requires IsPow2(p)
    ensures BitAnd(p - 1, c) == c % p
  {
    MaskIsLowBits(p, c);
    LowBitsIsMod(p, c);
  }

  // ----- words bit by bit

  /** Exclusive or of two's complement numbers, bit by bit from the low end. */
  function BitXor(a: int, b: int): int
    decreases Magnitude(a) + Magnitude(b)
  {
    if a in {0, -1} && b in {0, -1} then (if a == b then 0 else -1)
    else
      HalfSmaller(a);
      HalfSmaller(b);
      2 * BitXor(a / 2, b / 2) + if a % 2 == b % 2 then 0 else 1
  }

  function Bit(x: nat, i: nat): bool
  {
    x / Pow2(i) % 2 == 1
  }

  /** The number with these bits, the lowest first. */
  function FromBits(s: seq<bool>): (x: nat)
    ensures x < Pow2(|s|)
  {
    if s == [] then 0 else (if s[0] then 1 else 0) + 2 * FromBits(s[1..])
  }

  /** The low `n` bits of two numbers, combined bit by bit. */
  function Combined(f: (bool, bool) -> bool, x: nat, y: nat, n: nat): (r: nat)
    ensures r < Pow2(n)
  {
    FromBits(seq(n, i requires 0 <= i => f(Bit(x, i), Bit(y, i))))
  }

  lemma BitHalf(x: nat, i: nat)
    ensures Bit(x, i + 1) == Bit(x / 2, i) && Bit(x, 0) == (x % 2 == 1)
  {
    var p := Pow2(i);
    var q, r := x / 2 / p, x / 2 % p;
    assert x / 2 == p * q + r;
    assert 2 * (p * q) == q * (2 * p);
    DivUnique(x, 2 * p, q, 2 * r + x % 2);
    assert Pow2(0) == 1;
  }

  lemma CombinedStep(f: (bool, bool) -> bool, x: nat, y: nat, n: nat)
    ensures Combined(f, x, y, n + 1) == (if f(x % 2 == 1, y % 2 == 1) then 1 else 0) + 2 * Combined(f, x / 2, y / 2, n)
  {
    var s := seq(n + 1, i requires 0 <= i => f(Bit(x, i), Bit(y, i)));
    var t := seq(n, i requires 0 <= i => f(Bit(x / 2, i), Bit(y / 2, i)));
    BitHalf(x, 0);
    BitHalf(y, 0);
    hide Bit;
    forall i | 0 <= i < n
      ensures s[1..][i] == t[i]
    {
      BitHalf(x, i);
      BitHalf(y, i);
    }
    assert s[1..] == t;
  }

  lemma BitsBelow(x: nat, n: nat)
    requires x < Pow2(n)
    ensures n == 0 ==> x == 0
    ensures n > 0 ==> x / 2 < Pow2(n - 1)
  {
  }

  /** And, or and exclusive or are what they say, bit by bit. */
  lemma {:induction false} AndByBits(x: nat, y: nat, n: nat)
    requires x < Pow2(n) && y < Pow2(n)
    ensures BitAnd(x, y) == Combined((a, b) => a && b, x, y, n)
  {
    BitsBelow(x, n);
    BitsBelow(y, n);
    hide Pow2, Bit;
    if n > 0 {
      AndByBits(x / 2, y / 2, n - 1);
      AndSplit(x, y);
      CombinedStep((a, b) => a && b, x, y, n - 1);
      hide BitAnd, Combined;
    }
  }

  lemma {:induction false} OrByBits(x: nat, y: nat, n: nat)
    requires x < Pow2(n) && y < Pow2(n)
    ensures BitOr(x, y) == Combined((a, b) => a || b, x, y, n)
  {
    BitsBelow(x, n);
    BitsBelow(y, n);
    hide Pow2, Bit;
    if n > 0 {
      OrByBits(x / 2, y / 2, n - 1);
      OrSplit(x, y);
      CombinedStep((a, b) => a || b, x, y, n - 1);
      hide BitOr, Combined;
    }
  }

  lemma {:induction false} XorByBits(x: nat, y: nat, n: nat)
    requires x < Pow2(n) && y < Pow2(n)
    ensures BitXor(x, y) == Combined((a, b) => a != b, x, y, n)
  {
    BitsBelow(x, n);
    BitsBelow(y, n);
    hide Pow2, Bit;
    if n > 0 {
      XorByBits(x / 2, y / 2, n - 1);
      XorSplit(x, y);
      CombinedStep((a, b) => a != b, x, y, n - 1);
      hide BitXor, Combined;
    }
  }

  lemma OrSplit(a: nat, b: nat)
    ensures BitOr(a, b) == (if a % 2 == 1 || b % 2 == 1 then 1 else 0) + 2 * BitOr(a / 2, b / 2)
  {
  }

  lemma XorSplit(a: int, b: int)
    ensures BitXor(a, b) == 2 * BitXor(a / 2, b / 2) + if a % 2 == b % 2 then 0 else 1
  {
  }
}
