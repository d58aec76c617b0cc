/** The SIMD-width dependent subtree compression of `blake3.c`. A list of chaining
    values stands for the left-balanced tree over it; pairing neighbours keeps that
    tree, so every width ends in the same two children of the specification tree. */
module Blake3Subtree {
  import opened Bits
  import opened Blake3Spec
  import opened Blake3Chunk

  /** Where the left-balanced tree over `n` leaves splits. */
  function SplitPoint(n: nat): (k: nat)
    requires n >= 2
    ensures IsPow2(k) && k < n <= 2 * k
  {
    RoundDownPow2(n - 1)
  }

  /** The root of a tree: a single chaining value or a pair of children. */
  datatype Root = Single(cv: CV) | Pair(left: CV, right: CV)

  function RootCv(p: Params, r: Root): CV
  {
    match r
    case Single(cv) => cv
    case Pair(left, right) => ParentCv(p, left, right)
  }

  /** The root of the left-balanced tree over a list of chaining values. */
  function ListRoot(p: Params, l: seq<CV>): Root
    requires l != []
    decreases |l|
  {
    if |l| == 1 then Single(l[0])
    else
      var k := SplitPoint(|l|);
      Pair(RootCv(p, ListRoot(p, l[..k])), RootCv(p, ListRoot(p, l[k..])))
  }

  /** The root of the specification tree. */
  function TreeRoot(p: Params, counter: nat, data: Bytes): Root
  {
    if |data| <= 1024 then Single(TreeCv(p, counter, data))
    else
      var l := LeftLen(|data|);
      Pair(TreeCv(p, counter, data[..l]), TreeCv(p, counter + l / 1024, data[l..]))
  }

  lemma TreeRootCv(p: Params, counter: nat, data: Bytes)
    ensures RootCv(p, TreeRoot(p, counter, data)) == TreeCv(p, counter, data)
  {
  }

  /** One layer of parents; an odd value at the end is carried over. */
  function Pairs(p: Params, l: seq<CV>): (r: seq<CV>)
    ensures |r| == (|l| + 1) / 2
  {
    if |l| < 2 then l else [ParentCv(p, l[0], l[1])] + Pairs(p, l[2..])
  }

  lemma PairsCons(p: Params, l: seq<CV>)
    requires |l| >= 2
    ensures Pairs(p, l) == [ParentCv(p, l[0], l[1])] + Pairs(p, l[2..])
  {
  }

  lemma PairsSingle(p: Params, x: CV)
    ensures Pairs(p, [x]) == [x]
  {
  }

  lemma {:induction false} PairsSplit(p: Params, l: seq<CV>, k: nat)
    requires k % 2 == 0 && k <= |l|
    ensures Pairs(p, l) == Pairs(p, l[..k]) + Pairs(p, l[k..])
  {
    hide Pairs, ParentCv;
    if k == 0 {
      assert l[0..] == l;
    } else {
      var rest, a, b := l[2..], l[..k], l[k..];
      PairsSplit(p, rest, k - 2);
      assert rest[..k - 2] == a[2..] && rest[k - 2..] == b;
      PairsCons(p, l);
      PairsCons(p, a);
    }
  }

  lemma SplitPointIs(n: nat, k: nat)
    requires IsPow2(k) && k < n <= 2 * k
    ensures SplitPoint(n) == k
  {
    Pow2Unique(k, SplitPoint(n), n - 1);
  }

  /** Joining a power-of-two list with one that is no longer puts a parent on top. */
  lemma JoinRoot(p: Params, a: seq<CV>, b: seq<CV>)
    requires b != [] && IsPow2(|a|) && |b| <= |a|
    ensures ListRoot(p, a + b) == Pair(RootCv(p, ListRoot(p, a)), RootCv(p, ListRoot(p, b)))
  {
    SplitPointIs(|a + b|, |a|);
    assert (a + b)[..|a|] == a && (a + b)[|a|..] == b;
  }

  lemma {:induction false} PairsValue(p: Params, l: seq<CV>)
    requires l != []
    ensures RootCv(p, ListRoot(p, Pairs(p, l))) == RootCv(p, ListRoot(p, l))
    decreases |l|, 1
  {
    if |l| == 2 {
      assert l[..1] == [l[0]] && l[1..] == [l[1]] && SplitPoint(2) == 1;
      assert Pairs(p, l) == [ParentCv(p, l[0], l[1])];
    } else if |l| > 2 {
      PairsRoot(p, l);
    }
  }

  /** Until two values are left, pairing keeps both children of the root. */
  lemma {:induction false} PairsRoot(p: Params, l: seq<CV>)
    requires |l| > 2
    ensures ListRoot(p, Pairs(p, l)) == ListRoot(p, l)
    decreases |l|, 0
  {
    hide SplitPoint, Pairs, ListRoot;
    var k := SplitPoint(|l|);
    var a, b := l[..k], l[k..];
    assert k > 1 && l == a + b;
    JoinRoot(p, a, b);
    PairsSplit(p, l, k);
    PairsValue(p, a);
    PairsValue(p, b);
    JoinRoot(p, Pairs(p, a), Pairs(p, b));
  }

  /** The chaining values of the chunks of `data`, the last one possibly partial. */
  function Leaves(p: Params, counter: nat, data: Bytes): (l: seq<CV>)
    ensures |l| == (|data| + 1023) / 1024
    decreases |data|
  {
    if data == [] then []
    else
      var c := if |data| < 1024 then |data| else 1024;
      [TreeCv(p, counter, data[..c])] + Leaves(p, counter + 1, data[c..])
  }

  lemma LeavesCons(p: Params, counter: nat, data: Bytes)
    requires |data| >= 1024
    ensures Leaves(p, counter, data) == [TreeCv(p, counter, data[..1024])] + Leaves(p, counter + 1, data[1024..])
  {
  }

  lemma LeavesSingle(p: Params, counter: nat, data: Bytes)
    requires 0 < |data| <= 1024
    ensures Leaves(p, counter, data) == [TreeCv(p, counter, data)]
  {
    assert data[..|data|] == data;
  }

  lemma {:induction false} LeavesSplit(p: Params, counter: nat, data: Bytes, l: nat)
    requires l % 1024 == 0 && l <= |data|
    ensures Leaves(p, counter, data) == Leaves(p, counter, data[..l]) + Leaves(p, counter + l / 1024, data[l..])
    decreases l
  {
    hide Leaves, TreeCv;
    if l == 0 {
      assert data[0..] == data;
    } else {
      var rest, a, b := data[1024..], data[..l], data[l..];
      LeavesSplit(p, counter + 1, rest, l - 1024);
      assert rest[..l - 1024] == a[1024..] && rest[l - 1024..] == b && a[..1024] == data[..1024];
      LeavesCons(p, counter, data);
      LeavesCons(p, counter, a);
    }
  }

  /** The tree over the chunk values is the specification tree. */
  lemma {:induction false} LeavesRoot(p: Params, counter: nat, data: Bytes)
    requires data != []
    ensures ListRoot(p, Leaves(p, counter, data)) == TreeRoot(p, counter, data)
    decreases |data|
  {
    hide Leaves, TreeCv, LeftLen, IsPow2;
    if |data| <= 1024 {
      LeavesSingle(p, counter, data);
    } else {
      var l := LeftLen(|data|);
      LeavesRoot(p, counter, data[..l]);
      LeavesRoot(p, counter + l / 1024, data[l..]);
      LeavesJoin(p, counter, data, l);
    }
  }

  lemma LeavesJoin(p: Params, counter: nat, data: Bytes, l: nat)
    requires |data| > 1024 && l == LeftLen(|data|)
    requires ListRoot(p, Leaves(p, counter, data[..l])) == TreeRoot(p, counter, data[..l])
    requires ListRoot(p, Leaves(p, counter + l / 1024, data[l..])) == TreeRoot(p, counter + l / 1024, data[l..])
    ensures ListRoot(p, Leaves(p, counter, data)) == TreeRoot(p, counter, data)
  {
    hide Leaves, ListRoot, TreeRoot, LeftLen, IsPow2;
    LeafCounts(|data|, l);
    LeavesSplit(p, counter, data, l);
    JoinTreeRoot(p, counter, data, l, Leaves(p, counter, data[..l]), Leaves(p, counter + l / 1024, data[l..]));
  }

  /** Lists for the two halves, side by side, stand for the whole. */
  lemma JoinTreeRoot(p: Params, counter: nat, data: Bytes, l: nat, a: seq<CV>, b: seq<CV>)
    requires |data| > 1024 && l == LeftLen(|data|)
    requires b != [] && IsPow2(|a|) && |b| <= |a|
    requires ListRoot(p, a) == TreeRoot(p, counter, data[..l])
    requires ListRoot(p, b) == TreeRoot(p, counter + l / 1024, data[l..])
    ensures ListRoot(p, a + b) == TreeRoot(p, counter, data)
  {
    hide ListRoot, TreeCv, RootCv, LeftLen, IsPow2;
    JoinRoot(p, a, b);
    TreeRootCv(p, counter, data[..l]);
    TreeRootCv(p, counter + l / 1024, data[l..]);
  }

  lemma LeafCounts(len: nat, l: nat)
    requires len > 1024 && l == LeftLen(len)
    ensures IsPow2((l + 1023) / 1024)
    ensures 1 <= (len - l + 1023) / 1024 <= (l + 1023) / 1024
  {
    assert (l + 1023) / 1024 == l / 1024;
  }

  lemma LeavesAppend(p: Params, counter: nat, data: Bytes, pos: nat, end: nat)
    requires pos % 1024 == 0 && pos < end <= |data| && end - pos <= 1024
    ensures Leaves(p, counter, data[..end]) ==
            Leaves(p, counter, data[..pos]) + [TreeCv(p, counter + pos / 1024, data[pos..end])]
  {
    hide Leaves, TreeCv;
    LeavesSplit(p, counter, data[..end], pos);
    assert data[..end][..pos] == data[..pos];
    assert data[..end][pos..] == data[pos..end];
    LeavesSingle(p, counter + pos / 1024, data[pos..end]);
  }

  /** `blake3_hash_many` over the first `count` whole chunks of the input. */
  method HashManyChunks(p: Params, counter: nat, input: Bytes, count: nat, out: array<CV>, at: nat)
    requires 1024 * count <= |input| && at + count <= out.Length
    modifies out
    ensures out[..at] == old(out[..at])
    ensures out[at..at + count] == Leaves(p, counter, input[..1024 * count])
  {
    hide Leaves, TreeCv;
    var n := 0;
    while n < count
      invariant n <= count
      invariant out[..at] == old(out[..at])
      invariant out[at..at + n] == Leaves(p, counter, input[..1024 * n])
    {
      var cv := HashWholeChunk(p, counter + n, input[1024 * n..1024 * (n + 1)]);
      LeavesAppend(p, counter, input, 1024 * n, 1024 * (n + 1));
      out[at + n] := cv;
      n := n + 1;
    }
  }

  /** `compress_chunks_parallel`: one chaining value a chunk, written at `out[at..]`. */
  method CompressChunksParallel(p: Params, counter: nat, input: Bytes, out: array<CV>, at: nat)
      returns (n: nat)
    requires input != [] && at + (|input| + 1023) / 1024 <= out.Length
    modifies out
    ensures n == (|input| + 1023) / 1024
    ensures out[..at] == old(out[..at]) && out[at..at + n] == Leaves(p, counter, input)
  {
    hide Leaves, TreeCv;
    n := |input| / 1024;
    var pos := 1024 * n;
    HashManyChunks(p, counter, input, n, out, at);
    assert input[..|input|] == input;
    if pos < |input| {
      LeavesAppend(p, counter, input, pos, |input|);
      ghost var before := out[at..at + n];
      var cv := HashPartialChunk(p, counter + n, input[pos..]);
      assert input[pos..|input|] == input[pos..];
      out[at + n] := cv;
      assert out[at..at + n + 1] == before + [cv];
      n := n + 1;
    }
  }

  /** `compress_parents_parallel`: one layer of parents over `cvs[..num]`. */
  method CompressParentsParallel(p: Params, cvs: array<CV>, num: nat, out: array<CV>, at: nat)
      returns (n: nat)
    requires num <= cvs.Length && out != cvs && at + (num + 1) / 2 <= out.Length
    modifies out
    ensures n == (num + 1) / 2
    ensures out[..at] == old(out[..at]) && out[at..at + n] == Pairs(p, cvs[..num])
  {
    hide Pairs, ParentCv;
    n := 0;
    while num - 2 * n >= 2
      invariant 2 * n <= num
      invariant out[..at] == old(out[..at])
      invariant out[at..at + n] == Pairs(p, cvs[..2 * n])
    {
      PairsAppend(p, cvs[..num], n);
      Prefixes(cvs[..], num, 2 * n);
      Prefixes(cvs[..], num, 2 * n + 2);
      out[at + n] := ParentCv(p, cvs[2 * n], cvs[2 * n + 1]);
      n := n + 1;
    }
    PairsSplit(p, cvs[..num], 2 * n);
    Prefixes(cvs[..], num, 2 * n);
    if num > 2 * n {
      out[at + n] := cvs[2 * n];
      assert cvs[..num][2 * n..] == [cvs[2 * n]];
      PairsSingle(p, cvs[2 * n]);
      n := n + 1;
    }
  }

  lemma Prefixes(l: seq<CV>, num: nat, k: nat)
    requires k <= num <= |l|
    ensures l[..num][..k] == l[..k]
  {
  }

  lemma PairsAppend(p: Params, l: seq<CV>, n: nat)
    requires 2 * n + 2 <= |l|
    ensures Pairs(p, l[..2 * n + 2]) == Pairs(p, l[..2 * n]) + [ParentCv(p, l[2 * n], l[2 * n + 1])]
  {
    hide ParentCv;
    var m := l[..2 * n + 2];
    PairsSplit(p, m, 2 * n);
    assert m[..2 * n] == l[..2 * n] && m[2 * n..] == [l[2 * n], l[2 * n + 1]];
  }

  /** A SIMD width the dispatcher may report. */
  predicate ValidDegree(d: nat)
  {
    d == 1 || d == 2 || d == 4 || d == 8 || d == 16
  }

  lemma DegreeIsPow2(d: nat)
    requires ValidDegree(d)
    ensures IsPow2(d) && IsPow2(2)
  {
    assert IsPow2(2) && IsPow2(4) && IsPow2(8);
  }

  function AtLeastTwo(d: nat): nat
  {
    if d < 2 then 2 else d
  }

  /** How many values a subtree whose chunks are a power of two, at least `d`, yields. */
  function FullCount(d: nat, len: nat): nat
  {
    if d == 1 && len > 1024 then 2 else d
  }

  ghost predicate PerfectSubtree(d: nat, len: nat)
  {
    len % 1024 == 0 && IsPow2(len / 1024) && len >= 1024 * d
  }

  /** Beyond `d` chunks the left half is perfect, and so is the right half of a perfect whole. */
  lemma LeftIsPerfect(d: nat, len: nat)
    requires ValidDegree(d) && len > 1024 * d
    ensures PerfectSubtree(d, LeftLen(len))
    ensures PerfectSubtree(d, len) ==> len - LeftLen(len) == LeftLen(len)
  {
    var l := LeftLen(len);
    var h := l / 1024;
    if h < d {
      Pow2Below(h, d);
    }
    if PerfectSubtree(d, len) {
      Pow2Below(h, len / 1024);
    }
  }

  /** The layer above two adjacent lists: the pair itself, or its parents. */
  method JoinLayers(p: Params, cvs: array<CV>, leftN: nat, rightN: nat, out: array<CV>, at: nat)
      returns (n: nat)
    requires 1 <= rightN <= leftN && leftN + rightN <= cvs.Length && IsPow2(leftN) && out != cvs
    requires at + AtLeastTwo(leftN) <= out.Length
    modifies out
    ensures if leftN == 1 then n == 2 else n == (leftN + rightN + 1) / 2
    ensures out[..at] == old(out[..at])
    ensures ListRoot(p, out[at..at + n]) == ListRoot(p, cvs[..leftN + rightN])
  {
    hide ListRoot, Pairs;
    if leftN == 1 {
      out[at], out[at + 1] := cvs[0], cvs[1];
      assert out[at..at + 2] == cvs[..2];
      return 2;
    }
    n := CompressParentsParallel(p, cvs, leftN + rightN, out, at);
    PairsRoot(p, cvs[..leftN + rightN]);
  }

  /** `blake3_compress_subtree_wide`: at most `FullCount` values, and exactly that many
      for a perfect subtree, written at `out[at..]`. */
  method CompressSubtreeWide(p: Params, degree: nat, maxDegree: nat, counter: nat, input: Bytes,
                             out: array<CV>, at: nat) returns (n: nat)
    requires ValidDegree(degree) && degree <= maxDegree && input != []
    requires at + AtLeastTwo(degree) <= out.Length
    modifies out
    ensures 1 <= n <= FullCount(degree, |input|)
    ensures PerfectSubtree(degree, |input|) ==> n == FullCount(degree, |input|)
    ensures out[..at] == old(out[..at])
    ensures ListRoot(p, out[at..at + n]) == TreeRoot(p, counter, input)
    decreases |input|
  {
    hide ListRoot, TreeRoot, Leaves, LeftLen, IsPow2;
    if |input| <= degree * 1024 {
      n := CompressChunksParallel(p, counter, input, out, at);
      LeavesRoot(p, counter, input);
      return;
    }
    var l := LeftLen(|input|);
    LeftIsPerfect(degree, |input|);
    DegreeIsPow2(degree);
    var cvs := new CV[2 * AtLeastTwo(maxDegree)];
    var width := degree;
    if l > 1024 && degree == 1 {
      width := 2;
    }
    var leftN := CompressSubtreeWide(p, degree, maxDegree, counter, input[..l], cvs, 0);
    ghost var a := cvs[0..leftN];
    var rightN := CompressSubtreeWide(p, degree, maxDegree, counter + l / 1024, input[l..], cvs, width);
    ghost var b := cvs[width..width + rightN];
    assert cvs[..leftN + rightN] == a + b;
    JoinTreeRoot(p, counter, input, l, a, b);
    n := JoinLayers(p, cvs, leftN, rightN, out, at);
  }

  /** `compress_subtree_to_parent_node`: the two children of the root of the subtree. */
  method CompressSubtreeToParentNode(p: Params, degree: nat, maxDegree: nat, counter: nat, input: Bytes)
      returns (left: CV, right: CV)
    requires ValidDegree(degree) && degree <= maxDegree && |input| > 1024
    ensures Pair(left, right) == TreeRoot(p, counter, input)
  {
    hide TreeRoot;
    var cvs := new CV[AtLeastTwo(maxDegree)];
    var n := CompressSubtreeWide(p, degree, maxDegree, counter, input, cvs, 0);
    assert cvs[..n] == cvs[0..0 + n];
    NotSingle(p, counter, input, cvs[..n]);
    Condense(p, cvs, n);
    left, right := cvs[0], cvs[1];
    assert cvs[..2] == [left] + [right];
    JoinRoot(p, [left], [right]);
  }

  lemma NotSingle(p: Params, counter: nat, data: Bytes, l: seq<CV>)
    requires |data| > 1024 && l != [] && ListRoot(p, l) == TreeRoot(p, counter, data)
    ensures |l| >= 2
  {
  }

  /** Pair the values up until two are left. */
  method Condense(p: Params, cvs: array<CV>, num: nat)
    requires 2 <= num <= cvs.Length
    modifies cvs
    ensures ListRoot(p, cvs[..2]) == ListRoot(p, old(cvs[..num]))
  {
    hide ListRoot, Pairs;
    var n := num;
    var half := new CV[(cvs.Length + 1) / 2];
    while n > 2
      invariant 2 <= n <= num
      invariant ListRoot(p, cvs[..n]) == ListRoot(p, old(cvs[..num]))
      decreases n
    {
      ghost var layer := cvs[..n];
      PairsRoot(p, layer);
      n := CompressParentsParallel(p, cvs, n, half, 0);
      forall i | 0 <= i < n {
        cvs[i] := half[i];
      }
      assert cvs[..n] == half[0..0 + n] == Pairs(p, layer);
    }
  }
}
