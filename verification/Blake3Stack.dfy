/** What the chaining value stack of the hasher holds: the subtrees of the binary
    decomposition of the chunks seen so far, merged lazily. `Decomposition(n, s)` is
    the decomposition of `n` units of `s` chunks; one merge and one roll-up step are
    the same step of its recursion. */
module Blake3Stack {
  import opened Bits
  import opened Blake3Spec

  /** The chaining value of the subtree over chunks `start .. start + size`. */
  function SubCv(p: Params, msg: Bytes, start: nat, size: nat): CV
    requires 1024 * (start + size) <= |msg|
  {
    TreeCv(p, start, msg[1024 * start..1024 * (start + size)])
  }

  lemma HalfUnits(n: nat, s: nat)
    ensures n % 2 == 0 ==> (n / 2) * (2 * s) == n * s
    ensures n % 2 == 1 ==> (n / 2) * (2 * s) == (n - 1) * s && (n - 1) * s + s == n * s
  {
    if n % 2 == 0 {
      assert n == 2 * (n / 2);
    } else {
      assert n - 1 == 2 * (n / 2);
    }
  }

  function Decomposition(p: Params, msg: Bytes, n: nat, s: nat): (l: seq<CV>)
    requires 1024 * (n * s) <= |msg|
    ensures |l| == Popcount(n)
    decreases n
  {
    HalfUnits(n, s);
    if n == 0 then []
    else if n % 2 == 0 then Decomposition(p, msg, n / 2, 2 * s)
    else Decomposition(p, msg, n / 2, 2 * s) + [SubCv(p, msg, (n - 1) * s, s)]
  }

  lemma DecompositionEven(p: Params, msg: Bytes, n: nat, s: nat)
    requires n % 2 == 0 && 1024 * (n * s) <= |msg|
    ensures (n / 2) * (2 * s) == n * s
    ensures Decomposition(p, msg, n, s) == Decomposition(p, msg, n / 2, 2 * s)
  {
    HalfUnits(n, s);
  }

  lemma DecompositionOdd(p: Params, msg: Bytes, n: nat, s: nat)
    requires n % 2 == 1 && 1024 * (n * s) <= |msg|
    ensures (n / 2) * (2 * s) == (n - 1) * s && (n - 1) * s + s == n * s
    ensures Decomposition(p, msg, n, s) ==
            Decomposition(p, msg, n / 2, 2 * s) + [SubCv(p, msg, (n - 1) * s, s)]
  {
    HalfUnits(n, s);
  }

  /** Units can be grouped by any power of two. */
  lemma {:induction false} Regroup(p: Params, msg: Bytes, n: nat, s: nat, q: nat)
    requires IsPow2(q) && 1024 * (n * (s * q)) <= |msg|
    ensures (n * q) * s == n * (s * q)
    ensures Decomposition(p, msg, n * q, s) == Decomposition(p, msg, n, s * q)
    decreases q
  {
    hide Decomposition;
    MulShuffle(n, s, q);
    if q == 1 {
      assert n * q == n && s * q == s;
    } else {
      var h := q / 2;
      DoubleProducts(n, s, q, h);
      var u, v := n * q, s * q;
      assert u / 2 == n * h && v == (2 * s) * h;
      Regroup(p, msg, n, 2 * s, h);
      DecompositionEven(p, msg, u, s);
    }
  }

  lemma MulShuffle(n: nat, s: nat, q: nat)
    ensures (n * q) * s == n * (s * q)
  {
  }

  lemma DoubleProducts(n: nat, s: nat, q: nat, h: nat)
    requires q == 2 * h
    ensures n * q == 2 * (n * h) && s * q == (2 * s) * h
  {
  }

  /** The decomposition only depends on the chunks it covers. */
  lemma {:induction false} DecompositionPrefix(p: Params, a: Bytes, b: Bytes, n: nat, s: nat)
    requires a <= b && 1024 * (n * s) <= |a|
    ensures Decomposition(p, a, n, s) == Decomposition(p, b, n, s)
    decreases n
  {
    hide Decomposition, SubCv;
    if n == 0 {
      assert Decomposition(p, a, n, s) == [] == Decomposition(p, b, n, s);
    } else if n % 2 == 0 {
      DecompositionEven(p, a, n, s);
      DecompositionEven(p, b, n, s);
      DecompositionPrefix(p, a, b, n / 2, 2 * s);
    } else {
      DecompositionOdd(p, a, n, s);
      DecompositionOdd(p, b, n, s);
      DecompositionPrefix(p, a, b, n / 2, 2 * s);
      SubCvPrefix(p, a, b, (n - 1) * s, s);
    }
  }

  lemma SubCvPrefix(p: Params, a: Bytes, b: Bytes, start: nat, size: nat)
    requires a <= b && 1024 * (start + size) <= |a|
    ensures SubCv(p, a, start, size) == SubCv(p, b, start, size)
  {
    assert a[1024 * start..1024 * (start + size)] == b[1024 * start..1024 * (start + size)];
  }

  /** Two adjacent subtrees of the same power-of-two size merge into one. */
  lemma SubCvMerge(p: Params, msg: Bytes, start: nat, size: nat)
    requires IsPow2(size) && 1024 * (start + size + size) <= |msg|
    ensures ParentCv(p, SubCv(p, msg, start, size), SubCv(p, msg, start + size, size)) ==
            SubCv(p, msg, start, 2 * size)
  {
    hide TreeOutput;
    var both := msg[1024 * start..1024 * (start + 2 * size)];
    var l := 1024 * size;
    assert both[..l] == msg[1024 * start..1024 * (start + size)];
    assert both[l..] == msg[1024 * (start + size)..1024 * (start + size + size)];
    assert l / 1024 == size;
    SplitAt(p, start, both, l);
  }

  /** The stack after a lazy push: `m` units merged, the next unit of `s` chunks on top. */
  function LazyStack(p: Params, msg: Bytes, m: nat, s: nat): (l: seq<CV>)
    requires 1024 * ((m + 1) * s) <= |msg|
    ensures |l| == Popcount(m) + 1
  {
    assert (m + 1) * s == m * s + s;
    Decomposition(p, msg, m, s) + [SubCv(p, msg, m * s, s)]
  }

  lemma LazyBounds(m: nat, s: nat)
    ensures (m + 1) * s == m * s + s
  {
  }

  /** With an even number of merged units a lazy stack is already merged. */
  lemma LazyEven(p: Params, msg: Bytes, m: nat, s: nat)
    requires m % 2 == 0 && 1024 * ((m + 1) * s) <= |msg|
    ensures LazyStack(p, msg, m, s) == Decomposition(p, msg, m + 1, s)
  {
    hide Decomposition, SubCv;
    LazyBounds(m, s);
    DecompositionEven(p, msg, m, s);
    DecompositionOdd(p, msg, m + 1, s);
  }

  /** With an odd number, one merge of the top pair gives the lazy stack of twice the unit. */
  lemma LazyOdd(p: Params, msg: Bytes, m: nat, s: nat, l: seq<CV>)
    requires m % 2 == 1 && IsPow2(s) && 1024 * ((m + 1) * s) <= |msg|
    requires l == LazyStack(p, msg, m, s)
    ensures (m / 2 + 1) * (2 * s) == (m + 1) * s
    ensures |l| >= 2
    ensures l[..|l| - 2] + [ParentCv(p, l[|l| - 2], l[|l| - 1])] == LazyStack(p, msg, m / 2, 2 * s)
  {
    hide Decomposition, SubCv, ParentCv, IsPow2;
    LazyBounds(m, s);
    HalfUnits(m + 1, s);
    LazyBounds(m / 2, 2 * s);
    DecompositionOdd(p, msg, m, s);
    SubCvMerge(p, msg, (m - 1) * s, s);
    var d := Decomposition(p, msg, m / 2, 2 * s);
    assert l == d + [SubCv(p, msg, (m - 1) * s, s), SubCv(p, msg, m * s, s)];
  }

  /** How a lazy stack over `n` chunks relates to the merged one: it is merged exactly
      when it is as short as the number of one bits of `n`. */
  lemma MergeCase(p: Params, msg: Bytes, n: nat, m: nat, s: nat)
    requires n == (m + 1) * s && 1024 * (n * 1) <= |msg|
    requires Decomposition(p, msg, m + 1, s) == Decomposition(p, msg, n, 1)
    ensures |LazyStack(p, msg, m, s)| > Popcount(n) <==> m % 2 == 1
    ensures m % 2 == 0 ==> LazyStack(p, msg, m, s) == Decomposition(p, msg, n, 1)
    ensures m % 2 == 1 ==>
              && (m / 2 + 1) * (2 * s) == n
              && Decomposition(p, msg, m / 2 + 1, 2 * s) == Decomposition(p, msg, n, 1)
  {
    hide Decomposition, LazyStack, Popcount;
    assert Popcount(m + 1) == Popcount(n);
    PopcountSucc(m);
    if m % 2 == 0 {
      LazyEven(p, msg, m, s);
    } else {
      var u := m + 1;
      DecompositionEven(p, msg, u, s);
      assert u / 2 == m / 2 + 1;
    }
  }

  lemma LazyPrefix(p: Params, a: Bytes, b: Bytes, m: nat, s: nat)
    requires a <= b && 1024 * ((m + 1) * s) <= |a|
    ensures LazyStack(p, a, m, s) == LazyStack(p, b, m, s)
  {
    hide Decomposition, SubCv;
    LazyBounds(m, s);
    DecompositionPrefix(p, a, b, m, s);
    SubCvPrefix(p, a, b, m * s, s);
  }

  lemma {:induction false} PopcountSucc(m: nat)
    ensures Popcount(m + 1) <= Popcount(m) + 1
    ensures m % 2 == 1 ==> Popcount(m + 1) <= Popcount(m)
  {
    PopcountStep(m);
    PopcountStep(m + 1);
    hide Popcount;
    if m % 2 == 1 {
      PopcountSucc(m / 2);
      assert (m + 1) / 2 == m / 2 + 1;
    } else {
      assert (m + 1) / 2 == m / 2;
    }
  }

  lemma PopcountStep(n: nat)
    ensures Popcount(n) == n % 2 + Popcount(n / 2)
  {
  }

  /** The merge of `finalize`: fold the stack from the top down onto an output. */
  function RollUp(p: Params, l: seq<CV>, o: Output): Output
  {
    if l == [] then o
    else RollUp(p, l[..|l| - 1], ParentOutput(p, l[|l| - 1], ChainingValue(p, o)))
  }

  lemma RollUpStep(p: Params, l: seq<CV>, x: CV, o: Output)
    ensures RollUp(p, l + [x], o) == RollUp(p, l, ParentOutput(p, x, ChainingValue(p, o)))
  {
    assert (l + [x])[..|l|] == l;
  }

  /** Rolling the decomposition up onto the tree of the rest gives the whole tree. */
  lemma {:induction false} RollUpIsTree(p: Params, msg: Bytes, n: nat, s: nat)
    requires IsPow2(s) && 1024 * (n * s) < |msg| <= 1024 * (n * s + s)
    ensures RollUp(p, Decomposition(p, msg, n, s), TreeOutput(p, n * s, msg[1024 * (n * s)..])) ==
            TreeOutput(p, 0, msg)
    decreases n
  {
    hide Decomposition, TreeOutput, SubCv, IsPow2, RollUp;
    if n == 0 {
      NothingRolled(p, msg, s);
    } else {
      DoubleIsPow2(s);
      if n % 2 == 0 {
        DecompositionEven(p, msg, n, s);
        RollUpIsTree(p, msg, n / 2, 2 * s);
      } else {
        DecompositionOdd(p, msg, n, s);
        RollUpIsTree(p, msg, n / 2, 2 * s);
        RollUpOdd(p, msg, (n - 1) * s, s, Decomposition(p, msg, n / 2, 2 * s));
      }
    }
  }

  lemma DoubleIsPow2(n: nat)
    requires IsPow2(n)
    ensures IsPow2(2 * n)
  {
  }

  lemma NothingRolled(p: Params, msg: Bytes, s: nat)
    ensures 0 * s == 0 && RollUp(p, Decomposition(p, msg, 0, s), TreeOutput(p, 0, msg[0..])) == TreeOutput(p, 0, msg)
  {
    hide TreeOutput;
    assert Decomposition(p, msg, 0, s) == [];
    assert msg[0..] == msg;
  }

  lemma RollUpOdd(p: Params, msg: Bytes, below: nat, s: nat, l: seq<CV>)
    requires IsPow2(s) && 1024 * (below + s) < |msg| <= 1024 * (below + s + s)
    requires RollUp(p, l, TreeOutput(p, below, msg[1024 * below..])) == TreeOutput(p, 0, msg)
    ensures var rest := TreeOutput(p, below + s, msg[1024 * (below + s)..]);
      RollUp(p, l + [SubCv(p, msg, below, s)], rest) == TreeOutput(p, 0, msg)
  {
    hide TreeOutput, SubCv, IsPow2, RollUp;
    RestSplits(p, msg, below, s);
    RollUpStep(p, l, SubCv(p, msg, below, s), TreeOutput(p, below + s, msg[1024 * (below + s)..]));
  }

  lemma RestSplits(p: Params, msg: Bytes, start: nat, s: nat)
    requires IsPow2(s) && 1024 * (start + s) < |msg| <= 1024 * (start + s + s)
    ensures TreeOutput(p, start, msg[1024 * start..]) ==
            ParentOutput(p, SubCv(p, msg, start, s),
                         ChainingValue(p, TreeOutput(p, start + s, msg[1024 * (start + s)..])))
  {
    hide TreeOutput;
    var rest, l := msg[1024 * start..], 1024 * s;
    assert rest[..l] == msg[1024 * start..1024 * (start + s)];
    assert rest[l..] == msg[1024 * (start + s)..];
    assert l / 1024 == s;
    SplitAt(p, start, rest, l);
  }

  /** The same from a lazy stack that covers the message exactly: `finalize` starts
      from the parent of the top two values. */
  lemma LazyRollUp(p: Params, msg: Bytes, m: nat, s: nat, l: seq<CV>)
    requires m > 0 && IsPow2(s) && |msg| == 1024 * ((m + 1) * s)
    requires l == LazyStack(p, msg, m, s)
    ensures |l| >= 2
    ensures RollUp(p, l[..|l| - 2], ParentOutput(p, l[|l| - 2], l[|l| - 1])) == TreeOutput(p, 0, msg)
  {
    hide Decomposition, TreeOutput;
    LazyBounds(m, s);
    var d := Decomposition(p, msg, m, s);
    var rest := msg[1024 * (m * s)..];
    assert rest == msg[1024 * (m * s)..1024 * (m * s + s)];
    PopcountPositive(m);
    RollUpIsTree(p, msg, m, s);
    RollUpStep(p, d[..|d| - 1], d[|d| - 1], TreeOutput(p, m * s, rest));
    assert d == d[..|d| - 1] + [d[|d| - 1]];
    assert l[..|l| - 2] == d[..|d| - 1];
  }

  lemma {:induction false} PopcountPositive(n: nat)
    requires n > 0
    ensures Popcount(n) > 0
  {
    if n % 2 == 0 {
      PopcountPositive(n / 2);
    }
  }
}
