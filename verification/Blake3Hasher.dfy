/** The incremental hasher of `blake3.c`: for every way of cutting a message into
    updates the result is the hash of the specification tree over the whole of it. */
module Blake3Hasher {
  import opened Bits
  import opened Blake3Spec
  import opened Blake3Chunk
  import opened Blake3Subtree
  import opened Blake3Stack

  class Hasher {
    const p: Params
    const degree: nat
    const maxDegree: nat
    const chunk: ChunkState
    const cvStack: array<CV>
    var cvStackLen: nat
    ghost var Msg: Bytes
    ghost var m: nat
    ghost var s: nat

    ghost predicate Wired()
    {
      chunk.p == p && cvStack.Length == 55 && ValidDegree(degree) && degree <= maxDegree
    }

    ghost predicate Holds(l: seq<CV>)
      requires Wired()
      reads this`cvStackLen, cvStack
    {
      cvStackLen <= 55 && cvStack[..cvStackLen] == l
    }

    /** The stack stands for the first `n` chunks, its last subtree not yet merged:
        `m` units of `s` chunks below, one such unit on top. */
    ghost predicate Lazy(msg: Bytes, n: nat)
      requires Wired()
      reads this`cvStackLen, this`m, this`s, cvStack
    {
      && 1024 * n <= |msg|
      && if n == 0 then cvStackLen == 0
         else IsPow2(s) && n == (m + 1) * s && Holds(LazyStack(p, msg, m, s))
    }

    /** The stack stands for the first `n` chunks, one value for each one bit of `n`. */
    ghost predicate Merged(msg: Bytes, n: nat)
      requires Wired()
      reads this`cvStackLen, cvStack
    {
      1024 * (n * 1) <= |msg| && Holds(Decomposition(p, msg, n, 1))
    }

    /** With bytes in the chunk state the stack is fully merged; without, and after any
        input, it ends in exactly one pair that is still to be merged. */
    ghost predicate Valid()
      reads this, chunk, cvStack
    {
      && Wired() && chunk.Valid() && |Msg| < 0x1_0000_0000_0000_0000
      && 1024 * chunk.counter + |chunk.Data| == |Msg| && Msg[1024 * chunk.counter..] == chunk.Data
      && Lazy(Msg, chunk.counter)
      && (chunk.Data != [] ==> Merged(Msg, chunk.counter))
      && (chunk.Data == [] && Msg != [] ==> m % 2 == 1)
    }

    constructor (p: Params, degree: nat, maxDegree: nat)
      requires ValidDegree(degree) && degree <= maxDegree
      ensures Valid() && Msg == [] && this.p == p && fresh(chunk) && fresh(cvStack)
    {
      hide Decomposition, LazyStack, IsPow2, ChunkChain, Pad, Popcount;
      this.p := p;
      this.degree := degree;
      this.maxDegree := maxDegree;
      chunk := new ChunkState(p, 0);
      cvStack := new CV[55];
      cvStackLen := 0;
      Msg := [];
    }

    /** `hasher_merge_cv_stack`. */
    method MergeCvStack(n: nat, ghost msg: Bytes)
      requires Wired() && Lazy(msg, n)
      modifies this`cvStackLen, this`m, this`s, cvStack
      ensures Lazy(msg, n) && Merged(msg, n) && cvStackLen == Popcount(n)
    {
      hide Decomposition, LazyStack, IsPow2;
      var target := Popcount(n);
      if n == 0 {
        return;
      }
      Regroup(p, msg, m + 1, 1, s);
      assert 1 * s == s;
      MergeLoop(n, target, msg);
    }

    method MergeLoop(n: nat, target: nat, ghost msg: Bytes)
      requires Wired() && Lazy(msg, n) && n > 0 && target == Popcount(n)
      requires Decomposition(p, msg, m + 1, s) == Decomposition(p, msg, n, 1)
      modifies this`cvStackLen, this`m, this`s, cvStack
      ensures Lazy(msg, n) && Merged(msg, n) && cvStackLen == target
    {
      hide Decomposition, LazyStack, Popcount, IsPow2;
      MergeCase(p, msg, n, m, s);
      while cvStackLen > target
        invariant Lazy(msg, n)
        invariant cvStackLen > target <==> m % 2 == 1
        invariant m % 2 == 0 ==> Merged(msg, n)
        invariant Decomposition(p, msg, m + 1, s) == Decomposition(p, msg, n, 1)
        decreases cvStackLen
      {
        MergeCase(p, msg, n, m, s);
        MergeOnce(n, msg);
        MergeCase(p, msg, n, m, s);
      }
    }

    /** The top two values become their parent; the unit doubles. */
    method MergeOnce(n: nat, ghost msg: Bytes)
      requires Wired() && Lazy(msg, n) && n > 0 && m % 2 == 1
      modifies this`cvStackLen, this`m, this`s, cvStack
      ensures Lazy(msg, n) && cvStackLen == old(cvStackLen) - 1 && m == old(m) / 2 && s == 2 * old(s)
    {
      hide Decomposition, LazyStack, IsPow2;
      ghost var l := cvStack[..cvStackLen];
      LazyOdd(p, msg, m, s, l);
      cvStack[cvStackLen - 2] := ParentCv(p, cvStack[cvStackLen - 2], cvStack[cvStackLen - 1]);
      cvStackLen := cvStackLen - 1;
      DoubleIsPow2(s);
      m, s := m / 2, 2 * s;
      assert cvStack[..cvStackLen] == LazyStack(p, msg, m, s);
    }

    /** `hasher_push_cv`: merge first, then put the subtree of `size` chunks on top. */
    method PushCv(cv: CV, n: nat, ghost msg: Bytes, ghost k: nat, ghost size: nat)
      requires Wired() && Lazy(msg, n) && |msg| < 0x1_0000_0000_0000_0000
      requires IsPow2(size) && n == k * size && 1024 * (n + size) <= |msg|
      requires cv == SubCv(p, msg, n, size)
      modifies this`cvStackLen, this`m, this`s, cvStack
      ensures Lazy(msg, n + size) && m == k && s == size
      ensures Holds(Decomposition(p, msg, k, size) + [cv])
    {
      hide Decomposition, SubCv, IsPow2, Popcount, LazyStack;
      MergeCvStack(n, msg);
      StackFits(n);
      Regroup(p, msg, k, 1, size);
      assert 1 * size == size;
      ghost var below := cvStack[..cvStackLen];
      cvStack[cvStackLen] := cv;
      cvStackLen := cvStackLen + 1;
      assert cvStack[..cvStackLen] == below + [cv];
      m, s := k, size;
      Pow2Positive(size);
      LazyBounds(k, size);
      LazyIs(p, msg, k, size);
    }

    /** Between a finished chunk and the rest of the input. */
    ghost predicate AtBoundary(msg: Bytes, rest: Bytes)
      reads this, chunk, cvStack
    {
      && Wired() && chunk.Valid() && chunk.Data == [] && |msg| < 0x1_0000_0000_0000_0000
      && 1024 * chunk.counter + |rest| == |msg| && msg[1024 * chunk.counter..] == rest
      && Lazy(msg, chunk.counter)
    }

    /** Push the chunk that is now complete and start the next one. */
    method FinishChunk(ghost msg: Bytes, ghost rest: Bytes)
      requires Wired() && chunk.Valid() && |chunk.Data| == 1024 && |msg| < 0x1_0000_0000_0000_0000
      requires 1024 * (chunk.counter + 1) + |rest| == |msg| && msg[1024 * chunk.counter..] == chunk.Data + rest
      requires Lazy(msg, chunk.counter)
      modifies this, chunk, cvStack
      ensures AtBoundary(msg, rest) && Msg == old(Msg)
    {
      hide Decomposition, LazyStack, Lazy;
      ghost var n := chunk.counter;
      ghost var tail := msg[1024 * n..];
      assert tail[..1024] == chunk.Data && tail[1024..] == rest;
      assert msg[1024 * n..1024 * (n + 1)] == tail[..1024];
      var o := chunk.Finish();
      OneChunk(p, msg, n, chunk.Data);
      PushCv(ChainingValue(p, o), chunk.counter, msg, n, 1);
      chunk.Reset(chunk.counter + 1);
      assert msg[1024 * (n + 1)..] == tail[1024..];
    }

    /** One round of the subtree loop: the largest aligned power-of-two subtree. */
    method AbsorbSubtree(rest: Bytes, ghost msg: Bytes) returns (len: nat)
      requires AtBoundary(msg, rest) && |rest| > 1024
      modifies this, chunk`counter, cvStack
      ensures 0 < len <= |rest| && AtBoundary(msg, rest[len..]) && Msg == old(Msg)
      ensures len == |rest| ==> m % 2 == 1
    {
      hide Decomposition, LazyStack, IsPow2, Lazy;
      ghost var k;
      len, k := SubtreeLen(|rest|, chunk.counter);
      ghost var n, size := chunk.counter, len / 1024;
      assert rest[..len] == msg[1024 * n..1024 * (n + size)];
      PushSubtree(rest[..len], chunk.counter, len / 1024, msg, k);
      chunk.Advance(len / 1024);
      assert rest[len..] == msg[1024 * (n + size)..];
    }

    method PushSubtree(part: Bytes, n: nat, size: nat, ghost msg: Bytes, ghost k: nat)
      requires Wired() && Lazy(msg, n) && |msg| < 0x1_0000_0000_0000_0000
      requires IsPow2(size) && n == k * size && 1024 * (n + size) <= |msg|
      requires part == msg[1024 * n..1024 * (n + size)]
      modifies this`cvStackLen, this`m, this`s, cvStack
      ensures Lazy(msg, n + size) && (size > 1 ==> m % 2 == 1)
    {
      hide Decomposition, LazyStack, TreeRoot, TreeCv, Lazy;
      if |part| <= 1024 {
        var cv := HashPartialChunk(p, n, part);
        PushCv(cv, n, msg, n, 1);
      } else {
        var left, right := CompressSubtreeToParentNode(p, degree, maxDegree, n, part);
        PushPair(left, right, n, size, msg, part, k);
      }
    }

    /** Push the two halves of a subtree of `size` chunks aligned at `n`. */
    method PushPair(left: CV, right: CV, n: nat, size: nat, ghost msg: Bytes, ghost part: Bytes, ghost k: nat)
      requires Wired() && Lazy(msg, n) && |msg| < 0x1_0000_0000_0000_0000
      requires size > 1 && IsPow2(size) && n == k * size && 1024 * (n + size) <= |msg|
      requires part == msg[1024 * n..1024 * (n + size)]
      requires Pair(left, right) == TreeRoot(p, n, part)
      modifies this`cvStackLen, this`m, this`s, cvStack
      ensures Lazy(msg, n + size) && m % 2 == 1 && s == size / 2
    {
      hide Decomposition, LazyStack, TreeRoot, Lazy, Holds, IsPow2;
      ghost var h: nat, k2: nat, k3: nat := PairUnits(k, size, n);
      PairIsHalves(p, msg, n, h, part, left, right);
      PushCv(left, n, msg, k2, h);
      PushCv(right, n + size / 2, msg, k3, h);
    }

    /** `blake3_hasher_update`. */
    method Update(input: Bytes)
      requires Valid() && |Msg| + |input| < 0x1_0000_0000_0000_0000
      modifies this, chunk, cvStack
      ensures Valid() && Msg == old(Msg) + input
    {
      hide Decomposition, LazyStack, IsPow2, Lazy, Merged, Popcount;
      if input == [] {
        return;
      }
      ghost var msg := Msg + input;
      ExtendLazy(msg, chunk.counter);
      assert msg[1024 * chunk.counter..] == chunk.Data + input;
      var rest := input;
      if chunk.Len() > 0 {
        rest := CompleteChunk(input, msg);
        if rest == [] {
          return;
        }
      }
      rest := AbsorbSubtrees(rest, msg);
      AbsorbTail(rest, msg);
    }

    lemma ExtendLazy(msg: Bytes, n: nat)
      requires Wired() && Lazy(Msg, n) && Msg <= msg
      ensures Lazy(msg, n)
    {
      hide LazyStack, IsPow2;
      if n > 0 {
        LazyPrefix(p, Msg, msg, m, s);
      }
    }

    /** Feed the partial chunk; push it only if more input follows. */
    method CompleteChunk(input: Bytes, ghost msg: Bytes) returns (rest: Bytes)
      requires Valid() && chunk.Data != [] && input != []
      requires |msg| < 0x1_0000_0000_0000_0000 && msg == Msg + input && Lazy(msg, chunk.counter)
      modifies this, chunk, cvStack
      ensures if rest == [] then Valid() && Msg == msg else AtBoundary(msg, rest) && Msg == old(Msg)
    {
      hide Decomposition, LazyStack, IsPow2, Lazy, Merged;
      var take := 1024 - chunk.Len();
      if take > |input| {
        take := |input|;
      }
      ghost var n := chunk.counter;
      assert msg[1024 * n..] == chunk.Data + input[..take] + input[take..];
      chunk.Update(input[..take]);
      rest := input[take..];
      if rest == [] {
        ExtendMerged(msg, n);
        Msg := msg;
      } else {
        FinishChunk(msg, rest);
      }
    }

    lemma ExtendMerged(msg: Bytes, n: nat)
      requires Wired() && Merged(Msg, n) && Msg <= msg
      ensures Merged(msg, n)
    {
      DecompositionPrefix(p, Msg, msg, n, 1);
    }

    method AbsorbSubtrees(input: Bytes, ghost msg: Bytes) returns (rest: Bytes)
      requires AtBoundary(msg, input) && input != []
      modifies this, chunk, cvStack
      ensures AtBoundary(msg, rest) && |rest| <= 1024 && Msg == old(Msg)
      ensures rest == [] ==> m % 2 == 1
    {
      hide Decomposition, LazyStack, IsPow2, Lazy;
      rest := input;
      while |rest| > 1024
        invariant AtBoundary(msg, rest) && Msg == old(Msg)
        invariant rest == [] ==> m % 2 == 1
        decreases |rest|
      {
        var len := AbsorbSubtree(rest, msg);
        rest := rest[len..];
      }
    }

    method AbsorbTail(rest: Bytes, ghost msg: Bytes)
      requires AtBoundary(msg, rest) && |rest| <= 1024 && (rest == [] ==> m % 2 == 1)
      modifies this, chunk, cvStack
      ensures Valid() && Msg == msg
    {
      hide Decomposition, LazyStack, IsPow2, Lazy, Merged, Popcount;
      if rest != [] {
        chunk.Update(rest);
        MergeCvStack(chunk.counter, msg);
      }
      Msg := msg;
    }

    /** `blake3_hasher_finalize_seek`: the hasher itself is left as it was. */
    method Finalize(seek: nat, outLen: nat) returns (out: Bytes)
      requires Valid()
      ensures out == Hash(p, Msg, seek, outLen)
    {
      hide TreeOutput, RootBytes;
      if outLen == 0 {
        out := [];
        NoBytes(p, TreeOutput(p, 0, Msg), seek);
        return;
      }
      var o := FinalOutput();
      out := RootOutput(p, o, seek, outLen);
    }

    method FinalOutput() returns (o: Output)
      requires Valid()
      ensures o == TreeOutput(p, 0, Msg)
    {
      hide Decomposition, LazyStack, IsPow2, TreeOutput, ChunkOutput, Popcount, RollUp;
      ghost var n := chunk.counter;
      var remaining: nat;
      if cvStackLen == 0 {
        o := chunk.Finish();
        assert n == 0 && Msg[0..] == Msg;
        SmallTree(p, 0, Msg);
        return;
      } else if chunk.Len() > 0 {
        remaining := cvStackLen;
        o := chunk.Finish();
        assert n * 1 == n;
        SmallTree(p, n, chunk.Data);
        assert IsPow2(1) by { OneIsPow2(); }
        RollUpIsTree(p, Msg, n, 1);
      } else {
        LazyRollUp(p, Msg, m, s, cvStack[..cvStackLen]);
        remaining := cvStackLen - 2;
        assert cvStack[..remaining] == cvStack[..cvStackLen][..cvStackLen - 2];
        o := ParentOutput(p, cvStack[remaining], cvStack[remaining + 1]);
      }
      while remaining > 0
        invariant remaining <= cvStackLen <= cvStack.Length
        invariant RollUp(p, cvStack[..remaining], o) == TreeOutput(p, 0, Msg)
      {
        remaining := remaining - 1;
        assert cvStack[..remaining + 1] == cvStack[..remaining] + [cvStack[remaining]];
        RollUpStep(p, cvStack[..remaining], cvStack[remaining], o);
        o := ParentOutput(p, cvStack[remaining], ChainingValue(p, o));
      }
      assert cvStack[..0] == [];
      RollUpNothing(p, o);
    }
  }

  lemma RollUpNothing(p: Params, o: Output)
    ensures RollUp(p, [], o) == o
  {
  }

  lemma OneIsPow2()
    ensures IsPow2(1)
  {
  }

  lemma SmallTree(p: Params, counter: nat, data: Bytes)
    requires |data| <= 1024
    ensures TreeOutput(p, counter, data) == ChunkOutput(p, counter, data)
  {
  }

  lemma NoBytes(p: Params, o: Output, seek: nat)
    ensures RootBytes(p, o, seek, 0) == []
  {
  }

  /** Output byte `seek + a` lies at `j` in block `c`; the next `k` bytes follow it there. */
  lemma RootBytesAppend(p: Params, o: Output, seek: nat, a: nat, c: nat, j: nat, k: nat)
    requires seek + a == 64 * c + j && j + k <= 64
    ensures RootBytes(p, o, seek, a + k) == RootBytes(p, o, seek, a) + XofBlock(p, o, c)[j..j + k]
  {
    hide XofBlock;
    var l, r := RootBytes(p, o, seek, a + k), RootBytes(p, o, seek, a) + XofBlock(p, o, c)[j..j + k];
    forall i | 0 <= i < |l|
      ensures l[i] == r[i]
    {
      if i >= a {
        var at := seek + i;
        assert at / 64 == c && at % 64 == j + (i - a);
        assert r[i] == XofBlock(p, o, c)[j..j + k][i - a] == XofBlock(p, o, c)[j + (i - a)];
      }
    }
  }

  /** `output_root_bytes`: a partial first block, whole blocks, a partial last one. */
  method RootOutput(p: Params, o: Output, seek: nat, outLen: nat) returns (out: Bytes)
    ensures out == RootBytes(p, o, seek, outLen)
  {
    hide RootBytes, XofBlock;
    out := [];
    NoBytes(p, o, seek);
    var counter, offset, left := seek / 64, seek % 64, outLen;
    if offset > 0 {
      var bytes := if left > 64 - offset then 64 - offset else left;
      RootBytesAppend(p, o, seek, 0, counter, offset, bytes);
      out := out + XofBlock(p, o, counter)[offset..offset + bytes];
      left, counter := left - bytes, counter + 1;
    }
    while left >= 64
      invariant 0 <= left <= outLen && out == RootBytes(p, o, seek, outLen - left)
      invariant left == 0 || seek + (outLen - left) == 64 * counter
    {
      RootBytesAppend(p, o, seek, outLen - left, counter, 0, 64);
      out := out + XofBlock(p, o, counter)[0..64];
      left, counter := left - 64, counter + 1;
    }
    if left > 0 {
      RootBytesAppend(p, o, seek, outLen - left, counter, 0, left);
      out := out + XofBlock(p, o, counter)[0..left];
      assert outLen - left + left == outLen;
    }
  }

  function Concat(pieces: seq<Bytes>): Bytes
  {
    if pieces == [] then [] else Concat(pieces[..|pieces| - 1]) + pieces[|pieces| - 1]
  }

  lemma {:induction false} ConcatPrefix(pieces: seq<Bytes>, k: nat)
    requires k <= |pieces|
    ensures |Concat(pieces[..k])| <= |Concat(pieces)|
    decreases |pieces|
  {
    if k == |pieces| {
      assert pieces[..k] == pieces;
    } else {
      var shorter := pieces[..|pieces| - 1];
      ConcatPrefix(shorter, k);
      assert shorter[..k] == pieces[..k];
    }
  }

  /** For every cut of a message into updates and every SIMD width: the hash of the whole. */
  method HashPieces(p: Params, degree: nat, maxDegree: nat, pieces: seq<Bytes>, seek: nat, outLen: nat)
      returns (out: Bytes)
    requires ValidDegree(degree) && degree <= maxDegree
    requires |Concat(pieces)| < 0x1_0000_0000_0000_0000
    ensures out == Hash(p, Concat(pieces), seek, outLen)
  {
    hide Hash, ValidDegree, Hasher.Valid;
    var hasher := new Hasher(p, degree, maxDegree);
    for i := 0 to |pieces|
      invariant hasher.Valid() && hasher.Msg == Concat(pieces[..i])
      invariant fresh(hasher) && fresh(hasher.chunk) && fresh(hasher.cvStack)
    {
      assert pieces[..i + 1][..i] == pieces[..i];
      ConcatPrefix(pieces, i + 1);
      hasher.Update(pieces[i]);
    }
    assert pieces[..|pieces|] == pieces;
    out := hasher.Finalize(seek, outLen);
  }

  /** `k` subtrees of `size` chunks, counted in halves. */
  lemma PairUnits(k: nat, size: nat, n: nat) returns (h: nat, k2: nat, k3: nat)
    requires size > 1 && IsPow2(size) && n == k * size
    ensures h == size / 2 && size == h + h && IsPow2(h)
    ensures n == k2 * h && n + h == k3 * h && k3 % 2 == 1
  {
    h, k2, k3 := size / 2, 2 * k, 2 * k + 1;
    TwiceUnits(k, h);
  }

  lemma TwiceUnits(k: nat, h: nat)
    ensures k * (2 * h) == (2 * k) * h && (2 * k) * h + h == (2 * k + 1) * h
  {
  }

  lemma PairIsHalves(p: Params, msg: Bytes, n: nat, h: nat, part: Bytes, left: CV, right: CV)
    requires IsPow2(h) && 1024 * (n + h + h) <= |msg| && part == msg[1024 * n..1024 * (n + h + h)]
    requires Pair(left, right) == TreeRoot(p, n, part)
    ensures left == SubCv(p, msg, n, h) && right == SubCv(p, msg, n + h, h)
  {
    hide TreeCv;
    Pow2Positive(h);
    var l := 1024 * h;
    assert l / 1024 == h;
    LeftLenIs(|part|, l);
    assert part[..l] == msg[1024 * n..1024 * (n + h)];
    assert part[l..] == msg[1024 * (n + h)..1024 * (n + h + h)];
  }

  /** The largest power of two within the input, halved until it divides the bytes so far. */
  method SubtreeLen(inputLen: nat, counter: nat) returns (len: nat, ghost k: nat)
    requires inputLen > 1024
    ensures 1024 <= len <= inputLen && len % 1024 == 0 && IsPow2(len / 1024)
    ensures len <= 1024 ==> len < inputLen
    ensures counter == k * (len / 1024)
    ensures forall l: nat | Aligned(l, inputLen, counter * 1024) :: l <= len
  {
    len := RoundDownPow2(inputLen);
    var countSoFar := counter * 1024;
    hide IsPow2, BitAnd, Aligned;
    BigEnough(inputLen);
    LargestFits(inputLen, countSoFar, len);
    while BitAnd(len - 1, countSoFar) != 0
      invariant IsPow2(len) && 1024 <= len <= inputLen
      invariant forall l: nat | Aligned(l, inputLen, countSoFar) :: l <= len
      decreases len
    {
      CanHalve(len, counter);
      NotThisOne(inputLen, countSoFar, len);
      len := len / 2;
    }
    Pow2Chunks(len);
    k := WholeSubtrees(counter, len, len / 1024);
  }

  /** A power of two that fits the input and divides the bytes before it. */
  predicate Aligned(l: nat, inputLen: nat, before: nat)
  {
    l > 0 && IsPow2(l) && l <= inputLen && before % l == 0
  }

  lemma LargestFits(inputLen: nat, before: nat, len: nat)
    requires inputLen >= 1 && len == RoundDownPow2(inputLen)
    ensures forall l: nat | Aligned(l, inputLen, before) :: l <= len
  {
    hide IsPow2, RoundDownPow2;
    forall l: nat | Aligned(l, inputLen, before)
      ensures l <= len
    {
      if len < l {
        Pow2Below(len, l);
      }
    }
  }

  /** If `len` does not divide, no power of two above its half does. */
  lemma NotThisOne(inputLen: nat, before: nat, len: nat)
    requires len > 1 && IsPow2(len) && BitAnd(len - 1, before) != 0
    requires forall l: nat | Aligned(l, inputLen, before) :: l <= len
    ensures forall l: nat | Aligned(l, inputLen, before) :: l <= len / 2
  {
    hide IsPow2, BitAnd;
    MaskIsMod(len, before);
    forall l: nat | Aligned(l, inputLen, before)
      ensures l <= len / 2
    {
      assert l != len;
      Pow2Below(l, len);
    }
  }

  lemma CanHalve(len: nat, counter: nat)
    requires IsPow2(len) && len >= 1024 && BitAnd(len - 1, counter * 1024) != 0
    ensures len / 2 >= 1024 && IsPow2(len / 2)
  {
    assert IsPow2(1024);
    MaskIsMod(len, counter * 1024);
    if len > 1024 {
      Pow2Below(1024, len);
    }
  }

  lemma WholeSubtrees(counter: nat, len: nat, size: nat) returns (k: nat)
    requires IsPow2(len) && len == size * 1024 && size > 0
    requires BitAnd(len - 1, counter * 1024) == 0
    ensures counter == k * size
  {
    MaskIsMod(len, counter * 1024);
    k := counter * 1024 / len;
    ExactDivision(counter * 1024, len);
    Reassociate(size, k);
  }

  lemma ExactDivision(x: nat, a: nat)
    requires a > 0 && x % a == 0
    ensures x == a * (x / a)
  {
  }

  lemma Reassociate(size: nat, k: nat)
    ensures (size * 1024) * k == (k * size) * 1024
  {
  }

  lemma BigEnough(n: nat)
    requires n >= 1024
    ensures RoundDownPow2(n) >= 1024
  {
    var r := RoundDownPow2(n);
    assert IsPow2(1024);
    if r < 1024 {
      Pow2Below(r, 1024);
    }
  }

  lemma OneChunk(p: Params, msg: Bytes, n: nat, data: Bytes)
    requires 1024 * (n + 1) <= |msg| && data == msg[1024 * n..1024 * (n + 1)]
    ensures n * 1 == n && ChainingValue(p, ChunkOutput(p, n, data)) == SubCv(p, msg, n, 1)
  {
    assert |data| == 1024;
    assert TreeOutput(p, n, data) == ChunkOutput(p, n, data);
  }

  lemma StackFits(n: nat)
    requires 1024 * n < 0x1_0000_0000_0000_0000
    ensures Popcount(n) <= 54
  {
    hide Popcount, Pow2;
    Pow2At54();
    PopcountBound(n, 54);
  }

  lemma Pow2Positive(n: nat)
    requires IsPow2(n)
    ensures n > 0
  {
  }

  lemma LazyIs(p: Params, msg: Bytes, m: nat, s: nat)
    requires 1024 * ((m + 1) * s) <= |msg|
    ensures m * s + s == (m + 1) * s
    ensures LazyStack(p, msg, m, s) == Decomposition(p, msg, m, s) + [SubCv(p, msg, m * s, s)]
  {
    LazyBounds(m, s);
  }
}
