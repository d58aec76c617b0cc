/** What the tree hash commits to: key, mode, position and message, short of a collision of the
    compression function; and that only the root is compressed as root. */
module Blake3Binding {
  import opened Bits
  import opened Blake3Spec

  // ----- the compressions below the root

  /** The input of the compression of block `i` of a chunk, for a block that is not the last. */
  function BlockInput(p: Params, counter: nat, data: Bytes, i: nat): Output
    requires 64 * (i + 1) <= |data|
  {
    Output(ChunkChain(p, counter, data, i), data[64 * i..64 * i + 64], 64, counter,
           if i == 0 then p.flags | 1 else p.flags)
  }

  function BlockInputs(p: Params, counter: nat, data: Bytes, n: nat): set<Output>
    requires 64 * n <= |data|
  {
    set i: nat | i < n :: BlockInput(p, counter, data, i)
  }

  /** Everything that is compressed for the tree over `data` before its root node is. */
  function Inputs(p: Params, counter: nat, data: Bytes): set<Output>
    decreases |data|
  {
    if |data| <= 1024 then BlockInputs(p, counter, data, BlocksBeforeLast(|data|))
    else
      var l := LeftLen(|data|);
      var left, right := data[..l], data[l..];
      Inputs(p, counter, left) + Inputs(p, counter + l / 1024, right)
      + {TreeOutput(p, counter, left), TreeOutput(p, counter + l / 1024, right)}
  }

  /** Two different inputs with the same chaining value, one from each side. */
  ghost predicate Clash(p: Params, xs: set<Output>, ys: set<Output>)
  {
    exists x, y :: x in xs && y in ys && x != y && ChainingValue(p, x) == ChainingValue(p, y)
  }

  lemma ClashGrows(p: Params, xs: set<Output>, ys: set<Output>, xs': set<Output>, ys': set<Output>)
    requires Clash(p, xs, ys) && xs <= xs' && ys <= ys'
    ensures Clash(p, xs', ys')
  {
    hide ChainingValue;
  }

  /** Mode flags that leave the four domain bits alone, and chaining values of 32 bytes. */
  ghost predicate Regular(p: Params)
  {
    p.flags & 15 == 0 && forall o: Output :: |ChainingValue(p, o).bytes| == 32
  }

  /** The same compression function, possibly another key and mode. */
  ghost predicate SameFunction(p: Params, q: Params)
  {
    q == p.(key := q.key, flags := q.flags)
  }

  lemma ChainIsInput(p: Params, counter: nat, data: Bytes, n: nat)
    requires 0 < n && 64 * n <= |data|
    ensures ChunkChain(p, counter, data, n) == ChainingValue(p, BlockInput(p, counter, data, n - 1))
  {
    NoFlag(p.flags);
    assert data[64 * (n - 1)..64 * n] == data[64 * (n - 1)..64 * (n - 1) + 64];
  }

  lemma NoFlag(f: bv8)
    ensures f | 0 == f
  {
  }

  // ----- flags

  lemma BlockFlags(f: bv8, g: bv8)
    requires f & 15 == 0 && g & 15 == 0
    ensures f | 1 != g && f != g | 1 && (f | 1 == g | 1 ==> f == g)
  {
  }

  lemma EndFlags(f: bv8, g: bv8)
    requires f & 15 == 0 && g & 15 == 0
    ensures f | 1 | 2 != g | 0 | 2 && f | 0 | 2 != g | 1 | 2
    ensures (f | 1 | 2 == g | 1 | 2 ==> f == g) && (f | 0 | 2 == g | 0 | 2 ==> f == g)
    ensures f | 1 | 2 != g | 4 && f | 0 | 2 != g | 4 && (f | 4 == g | 4 ==> f == g)
  {
  }

  // ----- chunks

  /** Chains of compressed blocks that end in the same value. */
  lemma {:induction false} ChainBinds(p: Params, q: Params, c: nat, d: nat, a: Bytes, b: Bytes, m: nat, n: nat)
    requires Regular(p) && Regular(q) && SameFunction(p, q)
    requires 0 < m && 64 * m <= |a| && 0 < n && 64 * n <= |b|
    requires ChunkChain(p, c, a, m) == ChunkChain(q, d, b, n)
    ensures Clash(p, BlockInputs(p, c, a, m), BlockInputs(q, d, b, n)) ||
            (p == q && c == d && m == n && a[..64 * m] == b[..64 * n])
  {
    hide ChainingValue, ChunkChain, Regular;
    var x, y := BlockInput(p, c, a, m - 1), BlockInput(q, d, b, n - 1);
    ChainIsInput(p, c, a, m);
    ChainIsInput(q, d, b, n);
    SameValues(p, q, y);
    if x == y {
      ModeOnly(p);
      ModeOnly(q);
      BlockFlags(p.flags, q.flags);
      LastBlocks(a, b, m, n);
      if m > 1 {
        ChainBinds(p, q, c, d, a, b, m - 1, n - 1);
        Fewer(p, c, a, m);
        Fewer(q, d, b, n);
        if Clash(p, BlockInputs(p, c, a, m - 1), BlockInputs(q, d, b, n - 1)) {
          ClashGrows(p, BlockInputs(p, c, a, m - 1), BlockInputs(q, d, b, n - 1),
                     BlockInputs(p, c, a, m), BlockInputs(q, d, b, n));
        }
      } else {
        NoChain(p, c, a);
        NoChain(q, d, b);
      }
    }
  }

  lemma SameValues(p: Params, q: Params, o: Output)
    requires SameFunction(p, q)
    ensures ChainingValue(p, o) == ChainingValue(q, o)
  {
  }

  lemma ModeOnly(p: Params)
    requires Regular(p)
    ensures p.flags & 15 == 0
  {
  }

  lemma NoChain(p: Params, c: nat, a: Bytes)
    ensures ChunkChain(p, c, a, 0) == p.key
  {
  }

  lemma Fewer(p: Params, c: nat, a: Bytes, n: nat)
    requires 0 < n && 64 * n <= |a|
    ensures BlockInputs(p, c, a, n - 1) <= BlockInputs(p, c, a, n)
  {
    hide BlockInput;
  }

  lemma LastBlocks(a: Bytes, b: Bytes, m: nat, n: nat)
    requires 0 < m && 64 * m <= |a| && 0 < n && 64 * n <= |b|
    requires a[64 * (m - 1)..64 * m] == b[64 * (n - 1)..64 * n]
    ensures m == n && a[..64 * (m - 1)] == b[..64 * (n - 1)] ==> a[..64 * m] == b[..64 * n]
  {
    assert a[..64 * m] == a[..64 * (m - 1)] + a[64 * (m - 1)..64 * m];
    assert b[..64 * n] == b[..64 * (n - 1)] + b[64 * (n - 1)..64 * n];
  }

  /** Padding and length together give back the block. */
  lemma PadBinds(x: Bytes, y: Bytes)
    requires |x| == |y| <= 64 && Pad(x) == Pad(y)
    ensures x == y
  {
    assert x == Pad(x)[..|x|] && y == Pad(y)[..|y|];
  }

  lemma ChunkFlags(p: Params, q: Params, m: nat, n: nat)
    requires p.flags & 15 == 0 && q.flags & 15 == 0
    requires p.flags | StartFlag(m) | CHUNK_END == q.flags | StartFlag(n) | CHUNK_END
    ensures p.flags == q.flags && (m == 0 <==> n == 0)
  {
    EndFlags(p.flags, q.flags);
  }

  /** The parts of a chunk: the chain before its last block, and that block. */
  lemma ChunkParts(p: Params, c: nat, a: Bytes)
    ensures var n, o := BlocksBeforeLast(|a|), ChunkOutput(p, c, a);
      && 64 * n <= |a| && |a[64 * n..]| <= 64
      && o.inputCv == ChunkChain(p, c, a, n) && o.block == Pad(a[64 * n..]) && o.blockLen == |a[64 * n..]|
      && o.counter == c && o.flags == p.flags | StartFlag(n) | CHUNK_END
  {
  }

  lemma ChunkBinds(p: Params, q: Params, c: nat, d: nat, a: Bytes, b: Bytes)
    requires Regular(p) && Regular(q) && SameFunction(p, q) && ChunkOutput(p, c, a) == ChunkOutput(q, d, b)
    ensures var m, n := BlocksBeforeLast(|a|), BlocksBeforeLast(|b|);
      || Clash(p, BlockInputs(p, c, a, m), BlockInputs(q, d, b, n))
      || (p == q && c == d && a == b)
  {
    var m, n := BlocksBeforeLast(|a|), BlocksBeforeLast(|b|);
    ChunkParts(p, c, a);
    ChunkParts(q, d, b);
    ModeOnly(p);
    ModeOnly(q);
    hide ChunkOutput, ChunkChain, Pad, Regular, Clash, BlocksBeforeLast, BlockInputs, StartFlag;
    ChunkFlags(p, q, m, n);
    PadBinds(a[64 * m..], b[64 * n..]);
    assert a == a[..64 * m] + a[64 * m..] && b == b[..64 * n] + b[64 * n..];
    if m > 0 {
      ChainBinds(p, q, c, d, a, b, m, n);
    } else {
      NoChain(p, c, a);
      NoChain(q, d, b);
      assert a[..0] == b[..0];
    }
  }

  // ----- the tree

  lemma TreeSplits(p: Params, c: nat, a: Bytes)
    requires |a| > 1024
    ensures var l := LeftLen(|a|); var e := c + l / 1024;
      && TreeOutput(p, c, a) == ParentOutput(p, TreeCv(p, c, a[..l]), TreeCv(p, e, a[l..]))
      && Inputs(p, c, a) == Inputs(p, c, a[..l]) + Inputs(p, e, a[l..])
                            + {TreeOutput(p, c, a[..l]), TreeOutput(p, e, a[l..])}
  {
    hide ParentOutput, ChainingValue;
  }

  /** A parent shows both children. */
  lemma ParentBinds(p: Params, q: Params, l: CV, r: CV, l': CV, r': CV)
    requires p.flags & 15 == 0 && q.flags & 15 == 0 && SameFunction(p, q)
    requires |l.bytes| == |r.bytes| == |l'.bytes| == |r'.bytes| == 32
    requires ParentOutput(p, l, r) == ParentOutput(q, l', r')
    ensures p == q && l == l' && r == r'
  {
    EndFlags(p.flags, q.flags);
    assert l.bytes == (l.bytes + r.bytes)[..32] && r.bytes == (l.bytes + r.bytes)[32..];
    assert l'.bytes == (l'.bytes + r'.bytes)[..32] && r'.bytes == (l'.bytes + r'.bytes)[32..];
  }

  /** A chunk is never taken for a parent. */
  lemma ChunkIsNoParent(p: Params, q: Params, c: nat, a: Bytes, l: CV, r: CV)
    requires p.flags & 15 == 0 && q.flags & 15 == 0
    ensures ChunkOutput(p, c, a) != ParentOutput(q, l, r)
  {
    hide ChunkChain, Pad;
    EndFlags(p.flags, q.flags);
  }

  /** Subtrees with the same chaining value: the same node, or a clash. */
  lemma NodesOrClash(p: Params, q: Params, c: nat, d: nat, a: Bytes, b: Bytes)
    requires SameFunction(p, q) && TreeCv(p, c, a) == TreeCv(q, d, b)
    ensures TreeOutput(p, c, a) == TreeOutput(q, d, b) || Clash(p, {TreeOutput(p, c, a)}, {TreeOutput(q, d, b)})
  {
    hide ChainingValue, TreeOutput;
    var x, y := TreeOutput(p, c, a), TreeOutput(q, d, b);
    SameValues(p, q, y);
    assert x in {x} && y in {y};
  }

  lemma CvLength(p: Params, c: nat, a: Bytes)
    requires Regular(p)
    ensures |TreeCv(p, c, a).bytes| == 32
  {
    hide ChainingValue, TreeOutput;
  }

  lemma OneChunk(p: Params, c: nat, a: Bytes)
    requires |a| <= 1024
    ensures TreeOutput(p, c, a) == ChunkOutput(p, c, a)
    ensures Inputs(p, c, a) == BlockInputs(p, c, a, BlocksBeforeLast(|a|))
  {
    hide ChunkOutput, BlockInputs;
  }

  /** The root node of the tree determines key, mode, position and message, whatever the
      lengths; or two different compression inputs below the two roots collide. */
  lemma {:induction false} TreeBinds(p: Params, q: Params, c: nat, d: nat, a: Bytes, b: Bytes)
    requires Regular(p) && Regular(q) && SameFunction(p, q) && TreeOutput(p, c, a) == TreeOutput(q, d, b)
    ensures Clash(p, Inputs(p, c, a), Inputs(q, d, b)) || (p == q && c == d && a == b)
    decreases |a|, 2
  {
    hide Regular, SameFunction, Clash, Inputs, TreeOutput, ChunkOutput, ParentOutput, BlockInputs, TreeCv;
    ModeOnly(p);
    ModeOnly(q);
    if |a| <= 1024 && |b| <= 1024 {
      OneChunk(p, c, a);
      OneChunk(q, d, b);
      ChunkBinds(p, q, c, d, a, b);
    } else if |a| <= 1024 {
      OneChunk(p, c, a);
      TreeSplits(q, d, b);
      var l := LeftLen(|b|);
      ChunkIsNoParent(p, q, c, a, TreeCv(q, d, b[..l]), TreeCv(q, d + l / 1024, b[l..]));
    } else if |b| <= 1024 {
      OneChunk(q, d, b);
      TreeSplits(p, c, a);
      var l := LeftLen(|a|);
      ChunkIsNoParent(q, p, d, b, TreeCv(p, c, a[..l]), TreeCv(p, c + l / 1024, a[l..]));
    } else {
      ParentsBind(p, q, c, d, a, b);
    }
  }

  lemma ParentsBind(p: Params, q: Params, c: nat, d: nat, a: Bytes, b: Bytes)
    requires Regular(p) && Regular(q) && SameFunction(p, q) && TreeOutput(p, c, a) == TreeOutput(q, d, b)
    requires |a| > 1024 && |b| > 1024
    ensures Clash(p, Inputs(p, c, a), Inputs(q, d, b)) || (p == q && c == d && a == b)
    decreases |a|, 1
  {
    hide Regular, Clash, Inputs, TreeOutput, ChunkOutput, ParentOutput, BlockInputs, TreeCv;
    var l, m := LeftLen(|a|), LeftLen(|b|);
    ModeOnly(p);
    ModeOnly(q);
    TreeSplits(p, c, a);
    TreeSplits(q, d, b);
    CvLength(p, c, a[..l]);
    CvLength(p, c + l / 1024, a[l..]);
    CvLength(q, d, b[..m]);
    CvLength(q, d + m / 1024, b[m..]);
    ParentBinds(p, q, TreeCv(p, c, a[..l]), TreeCv(p, c + l / 1024, a[l..]),
                TreeCv(q, d, b[..m]), TreeCv(q, d + m / 1024, b[m..]));
    HalfBinds(p, q, c, d, a[..l], b[..m], Inputs(p, c, a), Inputs(q, d, b));
    HalfBinds(p, q, c + l / 1024, d + m / 1024, a[l..], b[m..], Inputs(p, c, a), Inputs(q, d, b));
    assert a == a[..l] + a[l..] && b == b[..m] + b[m..];
  }

  lemma HalfBinds(p: Params, q: Params, c: nat, d: nat, a: Bytes, b: Bytes, xs: set<Output>, ys: set<Output>)
    requires Regular(p) && Regular(q) && SameFunction(p, q) && TreeCv(p, c, a) == TreeCv(q, d, b)
    requires Inputs(p, c, a) + {TreeOutput(p, c, a)} <= xs && Inputs(q, d, b) + {TreeOutput(q, d, b)} <= ys
    ensures Clash(p, xs, ys) || (p == q && c == d && a == b)
    decreases |a|, 3
  {
    hide Regular, SameFunction, Clash, Inputs, TreeOutput, TreeCv;
    NodesOrClash(p, q, c, d, a, b);
    if TreeOutput(p, c, a) == TreeOutput(q, d, b) {
      TreeBinds(p, q, c, d, a, b);
      if Clash(p, Inputs(p, c, a), Inputs(q, d, b)) {
        ClashGrows(p, Inputs(p, c, a), Inputs(q, d, b), xs, ys);
      }
    } else {
      ClashGrows(p, {TreeOutput(p, c, a)}, {TreeOutput(q, d, b)}, xs, ys);
    }
  }

  /** Two different root nodes with the same first `n` bytes of output. */
  ghost predicate RootClash(p: Params, x: Output, y: Output, n: nat)
  {
    x != y && RootBytes(p, x, 0, n) == RootBytes(p, y, 0, n)
  }

  /** Equal hashes: the same key, mode and message, or a collision at the root or below it. */
  lemma HashBinds(p: Params, q: Params, a: Bytes, b: Bytes, n: nat)
    requires Regular(p) && Regular(q) && SameFunction(p, q) && Hash(p, a, 0, n) == Hash(q, b, 0, n)
    ensures || (p == q && a == b)
            || RootClash(p, TreeOutput(p, 0, a), TreeOutput(q, 0, b), n)
            || Clash(p, Inputs(p, 0, a), Inputs(q, 0, b))
  {
    hide TreeOutput, Clash, Inputs, Regular, RootByte;
    if TreeOutput(p, 0, a) == TreeOutput(q, 0, b) {
      TreeBinds(p, q, 0, 0, a, b);
    } else {
      SameBytes(p, q, TreeOutput(q, 0, b), n);
    }
  }

  lemma SameBytes(p: Params, q: Params, o: Output, n: nat)
    requires SameFunction(p, q)
    ensures RootBytes(p, o, 0, n) == RootBytes(q, o, 0, n)
  {
    assert forall i: nat :: RootByte(p, o, i) == RootByte(q, o, i);
  }

  // ----- only the root is compressed as root

  lemma NoRootFlag(f: bv8)
    requires f & 15 == 0
    ensures f & 8 == 0 && (f | 1) & 8 == 0 && (f | 1 | 2) & 8 == 0 && (f | 0 | 2) & 8 == 0 && (f | 4) & 8 == 0
  {
  }

  lemma NodeFlags(p: Params, c: nat, a: Bytes)
    requires p.flags & 15 == 0
    ensures TreeOutput(p, c, a).flags & 8 == 0
  {
    hide ChunkChain, Pad, ChainingValue;
    NoRootFlag(p.flags);
  }

  /** Nothing below the root carries the root flag. */
  lemma {:induction false} NoRootBelow(p: Params, c: nat, a: Bytes, o: Output)
    requires p.flags & 15 == 0 && o in Inputs(p, c, a)
    ensures o.flags & 8 == 0
    decreases |a|
  {
    hide TreeOutput, ChunkChain;
    NoRootFlag(p.flags);
    if |a| > 1024 {
      var l := LeftLen(|a|);
      NodeFlags(p, c, a[..l]);
      NodeFlags(p, c + l / 1024, a[l..]);
      if o in Inputs(p, c, a[..l]) {
        NoRootBelow(p, c, a[..l], o);
      } else if o in Inputs(p, c + l / 1024, a[l..]) {
        NoRootBelow(p, c + l / 1024, a[l..], o);
      }
    }
  }

  /** Two sets of parameters that agree on compressions without the root flag, and on
      extendable compressions with it. */
  ghost predicate AgreeByRoot(p: Params, q: Params)
  {
    && p.key == q.key && p.flags == q.flags
    && (forall o: Output | o.flags & 8 == 0 :: ChainingValue(p, o) == ChainingValue(q, o))
    && (forall o: Output | o.flags & 8 == 8 ::
          p.xof(o.inputCv, o.block, o.blockLen, o.counter, o.flags) ==
          q.xof(o.inputCv, o.block, o.blockLen, o.counter, o.flags))
  }

  lemma {:induction false} SameChain(p: Params, q: Params, c: nat, a: Bytes, n: nat)
    requires AgreeByRoot(p, q) && p.flags & 15 == 0 && 64 * n <= |a|
    ensures ChunkChain(p, c, a, n) == ChunkChain(q, c, a, n)
  {
    if n == 0 {
      NoChain(p, c, a);
      NoChain(q, c, a);
    } else {
      SameChain(p, q, c, a, n - 1);
      ChainIsInput(p, c, a, n);
      ChainIsInput(q, c, a, n);
      hide ChunkChain, ChainingValue;
      NoRootFlag(p.flags);
      assert BlockInput(p, c, a, n - 1) == BlockInput(q, c, a, n - 1);
    }
  }

  lemma {:induction false} SameNode(p: Params, q: Params, c: nat, a: Bytes)
    requires AgreeByRoot(p, q) && p.flags & 15 == 0
    ensures TreeOutput(p, c, a) == TreeOutput(q, c, a)
    decreases |a|
  {
    hide *;
    if |a| <= 1024 {
      OneChunk(p, c, a);
      OneChunk(q, c, a);
      SameChunk(p, q, c, a);
    } else {
      var l := LeftLen(|a|);
      SameNode(p, q, c, a[..l]);
      SameNode(p, q, c + l / 1024, a[l..]);
      SameCv(p, q, c, a[..l]);
      SameCv(p, q, c + l / 1024, a[l..]);
      TreeSplits(p, c, a);
      TreeSplits(q, c, a);
      SameParent(p, q, TreeCv(p, c, a[..l]), TreeCv(p, c + l / 1024, a[l..]));
    }
  }

  lemma SameChunk(p: Params, q: Params, c: nat, a: Bytes)
    requires AgreeByRoot(p, q) && p.flags & 15 == 0
    ensures ChunkOutput(p, c, a) == ChunkOutput(q, c, a)
  {
    ChunkParts(p, c, a);
    ChunkParts(q, c, a);
    hide ChunkOutput, ChunkChain, Pad, StartFlag, ChainingValue;
    SameChain(p, q, c, a, BlocksBeforeLast(|a|));
  }

  lemma SameCv(p: Params, q: Params, c: nat, a: Bytes)
    requires AgreeByRoot(p, q) && p.flags & 15 == 0 && TreeOutput(p, c, a) == TreeOutput(q, c, a)
    ensures TreeCv(p, c, a) == TreeCv(q, c, a)
  {
    hide TreeOutput, ChainingValue;
    NodeFlags(p, c, a);
  }

  lemma SameParent(p: Params, q: Params, l: CV, r: CV)
    requires AgreeByRoot(p, q)
    ensures ParentOutput(p, l, r) == ParentOutput(q, l, r)
  {
    hide ChainingValue;
  }

  lemma RootFlag(f: bv8)
    ensures (f | 8) & 8 == 8
  {
  }

  /** The hash depends on the compression function only without the root flag, and on the
      extendable one only with it. */
  lemma RootIsApart(p: Params, q: Params, a: Bytes, seek: nat, n: nat)
    requires AgreeByRoot(p, q) && p.flags & 15 == 0
    ensures Hash(p, a, seek, n) == Hash(q, a, seek, n)
  {
    SameNode(p, q, 0, a);
    var o := TreeOutput(p, 0, a);
    hide TreeOutput, ChainingValue;
    forall i: nat
      ensures RootByte(p, o, i) == RootByte(q, o, i)
    {
      RootFlag(o.flags);
      var r := o.(counter := i / 64, flags := o.flags | 8);
      assert r.flags & 8 == 8;
      assert p.xof(r.inputCv, r.block, r.blockLen, r.counter, r.flags) ==
             q.xof(r.inputCv, r.block, r.blockLen, r.counter, r.flags);
    }
    hide RootByte;
  }

  // ----- what is where

  /** Output block `k` is one extendable compression of the root node, with counter `k`. */
  lemma OutputBlock(p: Params, a: Bytes, k: nat)
    requires forall o: Output :: |p.xof(o.inputCv, o.block, o.blockLen, o.counter, o.flags)| == 64
    ensures var o := TreeOutput(p, 0, a);
      Hash(p, a, 64 * k, 64) == p.xof(o.inputCv, o.block, o.blockLen, k, o.flags | 8)
  {
    var o := TreeOutput(p, 0, a);
    hide TreeOutput;
    var r := o.(counter := k, flags := o.flags | 8);
    var block := p.xof(r.inputCv, r.block, r.blockLen, r.counter, r.flags);
    assert |block| == 64 && XofBlock(p, o, k) == block;
    hide XofBlock;
    var h := Hash(p, a, 64 * k, 64);
    forall i | 0 <= i < 64
      ensures h[i] == block[i]
    {
      assert (64 * k + i) / 64 == k && (64 * k + i) % 64 == i;
    }
  }

  /** The left half of a root block depends on the left part of the message only, the right
      half on the right part. */
  lemma HalvesApart(p: Params, c: nat, a: Bytes, b: Bytes)
    requires Regular(p) && |a| == |b| > 1024
    ensures var l, x, y := LeftLen(|a|), TreeOutput(p, c, a).block, TreeOutput(p, c, b).block;
      && |x| == |y| == 64
      && (a[..l] == b[..l] ==> x[..32] == y[..32]) && (a[l..] == b[l..] ==> x[32..] == y[32..])
  {
    hide *;
    RootBlock(p, c, a);
    RootBlock(p, c, b);
  }

  lemma RootBlock(p: Params, c: nat, a: Bytes)
    requires Regular(p) && |a| > 1024
    ensures var l, x := LeftLen(|a|), TreeOutput(p, c, a).block;
      |x| == 64 && x[..32] == TreeCv(p, c, a[..l]).bytes && x[32..] == TreeCv(p, c + l / 1024, a[l..]).bytes
  {
    hide TreeOutput, Inputs, TreeCv, Regular, LeftLen;
    var l := LeftLen(|a|);
    TreeSplits(p, c, a);
    CvLength(p, c, a[..l]);
    CvLength(p, c + l / 1024, a[l..]);
  }

  function ChunkOf(a: Bytes, k: nat): Bytes
    requires 1024 * k < |a|
  {
    if 1024 * (k + 1) <= |a| then a[1024 * k..1024 * (k + 1)] else a[1024 * k..]
  }

  lemma ChunkOfLeft(a: Bytes, l: nat, k: nat)
    requires l % 1024 == 0 && 1024 * k < l <= |a|
    ensures ChunkOf(a[..l], k) == ChunkOf(a, k) && (l <= 1024 ==> ChunkOf(a[..l], k) == a[..l])
  {
  }

  lemma ChunkOfRight(a: Bytes, l: nat, k: nat)
    requires l % 1024 == 0 && l <= 1024 * k < |a|
    ensures k >= l / 1024 && 1024 * (k - l / 1024) < |a| - l
    ensures ChunkOf(a[l..], k - l / 1024) == ChunkOf(a, k)
    ensures |a| - l <= 1024 ==> k == l / 1024 && ChunkOf(a, k) == a[l..]
  {
  }

  /** Every chunk of a longer message is compressed as the chunk of its own number. */
  lemma {:induction false} ChunksInPlace(p: Params, c: nat, a: Bytes, k: nat)
    requires |a| > 1024 && 1024 * k < |a|
    ensures ChunkOutput(p, c + k, ChunkOf(a, k)) in Inputs(p, c, a)
    decreases |a|
  {
    hide *;
    var l := LeftLen(|a|);
    TreeSplits(p, c, a);
    if 1024 * k < l {
      ChunkOfLeft(a, l, k);
      if l <= 1024 {
        assert k == 0;
        OneChunk(p, c, a[..l]);
      } else {
        ChunksInPlace(p, c, a[..l], k);
      }
    } else {
      ChunkOfRight(a, l, k);
      var j, e := k - l / 1024, c + l / 1024;
      assert c + k == e + j;
      if |a| - l <= 1024 {
        OneChunk(p, e, a[l..]);
      } else {
        ChunksInPlace(p, e, a[l..], j);
      }
    }
  }
}
