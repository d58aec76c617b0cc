/** Congruences, powers, and Fermat's little theorem. */
module Modular {
  import opened Bits

  predicate ModEq(x: int, y: int, m: int)
  {
    m > 0 && (x - y) % m == 0
  }

  lemma ModEqBy(x: int, y: int, k: int, m: int)
    requires m > 0 && x == y + k * m
    ensures ModEq(x, y, m)
  {
    MulMod(k, m);
  }

  lemma ModEqWitness(x: int, y: int, m: int) returns (k: int)
    requires ModEq(x, y, m)
    ensures x == y + k * m
  {
    k := (x - y) / m;
  }

  lemma ModEqTrans(x: int, y: int, z: int, m: int)
    requires ModEq(x, y, m) && ModEq(y, z, m)
    ensures ModEq(x, z, m)
  {
    var j := ModEqWitness(x, y, m);
    var k := ModEqWitness(y, z, m);
    hide ModEq;
    Distribute(j, k, m);
    ModEqBy(x, z, j + k, m);
  }

  lemma ModEqSym(x: int, y: int, m: int)
    requires ModEq(x, y, m)
    ensures ModEq(y, x, m)
  {
    var k := ModEqWitness(x, y, m);
    hide ModEq;
    Distribute(k, -k, m);
    ModEqBy(y, x, -k, m);
  }

  lemma ModEqMul(a: int, b: int, x: int, y: int, m: int)
    requires ModEq(a, x, m) && ModEq(b, y, m)
    ensures ModEq(a * b, x * y, m)
  {
    var j := ModEqWitness(a, x, m);
    var k := ModEqWitness(b, y, m);
    hide ModEq;
    ExpandMul(x, y, j, k, m);
    ModEqBy(a * b, x * y, x * k + j * y + j * k * m, m);
  }

  lemma ModEqRefl(x: int, m: int)
    requires m > 0
    ensures ModEq(x, x, m)
  {
    ModEqBy(x, x, 0, m);
  }

  lemma Distribute(x: int, y: int, w: int)
    ensures (x + y) * w == x * w + y * w
  {
  }

  lemma ExpandMul(x: int, y: int, j: int, k: int, p: int)
    ensures (x + j * p) * (y + k * p) == x * y + (x * k + j * y + j * k * p) * p
  {
    calc {
      (x + j * p) * (y + k * p);
      x * (y + k * p) + (j * p) * (y + k * p);
      x * y + x * (k * p) + (j * p) * y + (j * p) * (k * p);
      x * y + (x * k) * p + (j * y) * p + (j * k * p) * p;
      x * y + (x * k + j * y + j * k * p) * p;
    }
  }

  /** A number and its remainder. */
  lemma ModEqRemainder(x: int, m: int)
    requires m > 0
    ensures ModEq(x, x % m, m) && 0 <= x % m < m
  {
    ModEqBy(x, x % m, x / m, m);
  }

  lemma SmallModEq(x: int, y: int, m: int)
    requires ModEq(x, y, m) && 0 <= x < m && 0 <= y < m
    ensures x == y
  {
    var k := ModEqWitness(x, y, m);
    hide ModEq;
    DivUnique(x, m, k, y);
    DivUnique(x, m, 0, x);
  }

  // ----- powers

  function Pow(x: int, e: nat): int
  {
    if e == 0 then 1 else x * Pow(x, e - 1)
  }

  lemma {:induction false} PowAdd(x: int, d: nat, e: nat)
    ensures Pow(x, d + e) == Pow(x, d) * Pow(x, e)
  {
    if d > 0 {
      PowAdd(x, d - 1, e);
      Assoc(x, Pow(x, d - 1), Pow(x, e));
    }
  }

  lemma Assoc(x: int, y: int, z: int)
    ensures x * (y * z) == x * y * z
  {
  }

  // ----- primes

  predicate IsPrime(p: int)
  {
    p >= 2 && forall d | 2 <= d < p :: p % d != 0
  }

  /** A number between 0 and a prime has an inverse modulo it. */
  lemma {:induction false} Inverse(r: int, p: int) returns (k: int, c: int)
    requires IsPrime(p) && 0 < r < p
    ensures k * r == 1 + c * p
    decreases r
  {
    if r == 1 {
      k, c := 1, 0;
    } else {
      var q, s := p / r, p % r;
      assert p == q * r + s;
      hide IsPrime;
      var k', c' := Inverse(s, p);
      k, c := -(k' * q), c' - k';
      InverseStep(p, q, r, s, k', c');
    }
  }

  lemma InverseStep(p: int, q: int, r: int, s: int, k: int, c: int)
    requires p == q * r + s && k * s == 1 + c * p
    ensures -(k * q) * r == 1 + (c - k) * p
  {
    calc {
      -(k * q) * r;
      -(k * (q * r));
      -(k * (p - s));
      k * s - k * p;
      1 + (c - k) * p;
    }
  }

  /** A factor that is no multiple of the prime can be cancelled. */
  lemma Cancel(x: int, y: int, z: int, p: int)
    requires IsPrime(p) && !ModEq(x, 0, p) && ModEq(x * y, x * z, p)
    ensures ModEq(y, z, p)
  {
    ModEqRemainder(x, p);
    var r := x % p;
    var k, c := Inverse(r, p);
    hide ModEq, IsPrime;
    ModEqBy(k * r, 1, c, p);
    ModEqRefl(k, p);
    ModEqMul(k, x, k, r, p);
    ModEqTrans(k * x, k * r, 1, p);
    CancelSide(x, y, k, p);
    CancelSide(x, z, k, p);
    ModEqMul(k, x * y, k, x * z, p);
    ModEqSym(k * (x * y), y, p);
    ModEqTrans(y, k * (x * y), k * (x * z), p);
    ModEqTrans(y, k * (x * z), z, p);
  }

  lemma CancelSide(x: int, y: int, k: int, p: int)
    requires p > 0 && ModEq(k * x, 1, p)
    ensures ModEq(k * (x * y), y, p)
  {
    hide ModEq;
    ModEqRefl(y, p);
    ModEqMul(k * x, y, 1, y, p);
    Assoc(k, x, y);
  }

  // ----- Fermat: multiplication by `a` permutes the numbers below the prime

  function Times(a: int, k: int, p: int): int
    requires p > 0
  {
    a * k % p
  }

  function UpTo(n: nat): set<int>
  {
    if n == 0 then {} else UpTo(n - 1) + {n}
  }

  lemma {:induction false} UpToIs(n: nat, x: int)
    ensures x in UpTo(n) <==> 1 <= x <= n
  {
    if n > 0 {
      UpToIs(n - 1, x);
    }
  }

  function Images(a: int, n: nat, p: int): set<int>
    requires p > 0
  {
    if n == 0 then {} else Images(a, n - 1, p) + {Times(a, n, p)}
  }

  /** The product of the members of `s` between 1 and `n`. */
  function Product(s: set<int>, n: nat): int
  {
    if n == 0 then 1 else (if n in s then n else 1) * Product(s, n - 1)
  }

  lemma {:induction false} ProductWithout(s: set<int>, x: int, n: nat)
    requires x in s && 1 <= x <= n
    ensures Product(s, n) == x * Product(s - {x}, n)
  {
    if x == n {
      ProductSame(s, s - {x}, n - 1);
    } else {
      ProductWithout(s, x, n - 1);
      hide Product;
      ProductStep(s, n);
      ProductStep(s - {x}, n);
      Swap(if n in s then n else 1, x, Product(s - {x}, n - 1));
    }
  }

  lemma ProductStep(s: set<int>, n: nat)
    requires n > 0
    ensures Product(s, n) == (if n in s then n else 1) * Product(s, n - 1)
  {
  }

  lemma {:induction false} ProductSame(s: set<int>, t: set<int>, n: nat)
    requires forall k | 1 <= k <= n :: k in s <==> k in t
    ensures Product(s, n) == Product(t, n)
  {
    if n > 0 {
      ProductSame(s, t, n - 1);
    }
  }

  lemma Swap(x: int, y: int, z: int)
    ensures x * (y * z) == y * (x * z)
  {
  }

  /** Different numbers below the prime have different images, none of them 0. */
  lemma TimesInjective(a: int, i: int, j: int, p: int)
    requires IsPrime(p) && !ModEq(a, 0, p) && 0 <= i < p && 0 <= j < p && Times(a, i, p) == Times(a, j, p)
    ensures i == j
  {
    ModEqRemainder(a * i, p);
    ModEqRemainder(a * j, p);
    hide IsPrime;
    ModEqSym(a * j, a * j % p, p);
    hide ModEq;
    ModEqTrans(a * i, a * i % p, a * j, p);
    Cancel(a, i, j, p);
    SmallModEq(i, j, p);
  }

  lemma {:induction false} ImagesAre(a: int, n: nat, p: int, x: int)
    requires p > 0
    ensures x in Images(a, n, p) <==> exists k :: 1 <= k <= n && Times(a, k, p) == x
  {
    hide Times;
    if n > 0 {
      ImagesAre(a, n - 1, p, x);
      if x == Times(a, n, p) {
        assert 1 <= n <= n && Times(a, n, p) == x;
      }
    }
  }

  lemma TimesDiffer(a: int, i: int, j: int, p: int)
    requires IsPrime(p) && !ModEq(a, 0, p) && 0 <= i < j < p
    ensures Times(a, i, p) != Times(a, j, p)
  {
    hide IsPrime, ModEq, Times;
    if Times(a, i, p) == Times(a, j, p) {
      TimesInjective(a, i, j, p);
    }
  }

  lemma NewImage(a: int, n: nat, p: int)
    requires IsPrime(p) && !ModEq(a, 0, p) && 1 <= n < p
    ensures Times(a, n, p) !in Images(a, n - 1, p) && 1 <= Times(a, n, p) < p
  {
    hide IsPrime, ModEq, Times, Images;
    forall k | 1 <= k <= n - 1
      ensures Times(a, k, p) != Times(a, n, p)
    {
      TimesDiffer(a, k, n, p);
    }
    ImagesAre(a, n - 1, p, Times(a, n, p));
    TimesRange(a, n, p);
    TimesZero(a, p);
    TimesDiffer(a, 0, n, p);
  }

  lemma TimesRange(a: int, k: int, p: int)
    requires p > 0
    ensures 0 <= Times(a, k, p) < p
  {
  }

  lemma TimesZero(a: int, p: int)
    requires p > 0
    ensures Times(a, 0, p) == 0
  {
  }

  lemma {:induction false} ImagesCount(a: int, n: nat, p: int)
    requires IsPrime(p) && !ModEq(a, 0, p) && n < p
    ensures |Images(a, n, p)| == n && Images(a, n, p) <= UpTo(p - 1)
  {
    hide IsPrime, ModEq, Times;
    if n > 0 {
      NewImage(a, n, p);
      ImagesCount(a, n - 1, p);
      UpToIs(p - 1, Times(a, n, p));
      hide UpTo;
    }
  }

  lemma {:induction false} UpToCount(n: nat)
    ensures |UpTo(n)| == n
  {
    if n > 0 {
      UpToCount(n - 1);
      UpToIs(n - 1, n);
    }
  }

  lemma SubsetFull(s: set<int>, t: set<int>)
    requires s <= t && |s| == |t|
    ensures s == t
  {
    assert t == s + (t - s);
    assert |t| == |s| + |t - s|;
  }

  function Factorial(n: nat): int
  {
    if n == 0 then 1 else n * Factorial(n - 1)
  }

  lemma {:induction false} ProductUpTo(s: set<int>, n: nat)
    requires forall k | 1 <= k <= n :: k in s
    ensures Product(s, n) == Factorial(n)
  {
    if n > 0 {
      ProductUpTo(s, n - 1);
    }
  }

  lemma {:induction false} EmptyProduct(n: nat)
    ensures Product({}, n) == 1
  {
    if n > 0 {
      EmptyProduct(n - 1);
    }
  }

  lemma {:induction false} ProductImages(a: int, n: nat, p: int)
    requires IsPrime(p) && !ModEq(a, 0, p) && n < p
    ensures ModEq(Product(Images(a, n, p), p - 1), Pow(a, n) * Factorial(n), p)
  {
    if n == 0 {
      EmptyProduct(p - 1);
      ModEqRefl(1, p);
    } else {
      var s, x := Images(a, n, p), Times(a, n, p);
      NewImage(a, n, p);
      ProductWithout(s, x, p - 1);
      assert s - {x} == Images(a, n - 1, p);
      ProductImages(a, n - 1, p);
      ModEqRemainder(a * n, p);
      hide IsPrime, ModEq, Images, Product;
      ModEqSym(a * n, x, p);
      ModEqMul(x, Product(s - {x}, p - 1), a * n, Pow(a, n - 1) * Factorial(n - 1), p);
      FactorsRegroup(a, n, Pow(a, n - 1), Factorial(n - 1));
    }
  }

  lemma FactorsRegroup(a: int, n: int, x: int, f: int)
    ensures (a * n) * (x * f) == (a * x) * (n * f)
  {
  }

  lemma {:induction false} FactorialNotMultiple(n: nat, p: int)
    requires IsPrime(p) && n < p
    ensures !ModEq(Factorial(n), 0, p)
  {
    if n == 0 {
      if ModEq(1, 0, p) {
        SmallModEq(1, 0, p);
      }
    } else {
      FactorialNotMultiple(n - 1, p);
      if ModEq(Factorial(n), 0, p) {
        var f := Factorial(n - 1);
        assert f * n == Factorial(n) && f * 0 == 0;
        Cancel(f, n, 0, p);
        SmallModEq(n, 0, p);
      }
    }
  }

  /** For a prime `p` and `a` no multiple of it: a^(p-1) is 1 modulo p. */
  lemma Fermat(a: int, p: int)
    requires IsPrime(p) && !ModEq(a, 0, p)
    ensures ModEq(Pow(a, p - 1), 1, p)
  {
    var n, f := p - 1, Factorial(p - 1);
    ImagesCount(a, n, p);
    UpToCount(n);
    SubsetFull(Images(a, n, p), UpTo(n));
    ProductImages(a, n, p);
    forall k | 1 <= k <= n
      ensures k in UpTo(n)
    {
      UpToIs(n, k);
    }
    ProductUpTo(UpTo(n), n);
    FactorialNotMultiple(n, p);
    hide IsPrime, ModEq, Images, Product, Factorial, Pow, UpTo;
    ModEqSym(f, Pow(a, n) * f, p);
    CancelFront(f, Pow(a, n), p);
  }

  lemma CancelFront(f: int, x: int, p: int)
    requires IsPrime(p) && !ModEq(f, 0, p) && ModEq(x * f, f, p)
    ensures ModEq(x, 1, p)
  {
    hide IsPrime, ModEq;
    assert x * f == f * x && f * 1 == f;
    Cancel(f, x, 1, p);
  }
}
