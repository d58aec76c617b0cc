/** Little-endian fields of the signed records. */
module Wire {
  import opened Bits

  function Pow256(n: nat): (r: nat)
    ensures r >= 1
  {
    if n == 0 then 1 else 256 * Pow256(n - 1)
  }

  function Le(x: nat, n: nat): (s: seq<byte>)
    ensures |s| == n
  {
    if n == 0 then [] else [x % 256] + Le(x / 256, n - 1)
  }

  function UnLe(s: seq<byte>): nat
  {
    if s == [] then 0 else s[0] + 256 * UnLe(s[1..])
  }

  lemma {:induction false} LeRoundTrip(x: nat, n: nat)
    requires x < Pow256(n)
    ensures UnLe(Le(x, n)) == x
  {
    if n > 0 {
      LeRoundTrip(x / 256, n - 1);
      assert Le(x, n)[1..] == Le(x / 256, n - 1);
    }
  }

  lemma {:induction false} UnLeRoundTrip(s: seq<byte>)
    ensures UnLe(s) < Pow256(|s|) && Le(UnLe(s), |s|) == s
  {
    if s != [] {
      UnLeRoundTrip(s[1..]);
      var v := UnLe(s[1..]);
      assert UnLe(s) % 256 == s[0] && UnLe(s) / 256 == v;
    }
  }

  /** The least significant byte comes first. */
  lemma {:induction false} LeByte(x: nat, n: nat, i: nat)
    requires i < n
    ensures Le(x, n)[i] == x / Pow256(i) % 256
  {
    if i > 0 {
      LeByte(x / 256, n - 1, i - 1);
      DivTwice(x, Pow256(i - 1));
    }
  }

  lemma DivTwice(x: nat, p: nat)
    requires p >= 1
    ensures x / 256 / p == x / (256 * p)
  {
    var q, r := x / 256 / p, x / 256 % p;
    assert x / 256 == p * q + r && 256 * (p * q) == q * (256 * p);
    DivUnique(x, 256 * p, q, 256 * r + x % 256);
  }

  lemma Pow256At(n: nat)
    requires n == 4 || n == 8
    ensures Pow256(n) == if n == 4 then 0x1_0000_0000 else 0x1_0000_0000_0000_0000
  {
    assert Pow256(4) == 0x1_0000_0000;
    assert Pow256(5) == 0x100_0000_0000;
    assert Pow256(6) == 0x1_0000_0000_0000;
    assert Pow256(7) == 0x100_0000_0000_0000;
  }
}
