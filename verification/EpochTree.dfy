/** The incremental Merkle tree over a linear memory: a commit re-hashes the dirty chunks and
    the nodes above them, and ends in the tree of a full recompute. */
module EpochTree {
  import opened Bits
  import opened ObjectStore

  const TAG_LEAF: byte := 0
  const TAG_NODE: byte := 1
  const MAX_CHUNKS: nat := 256

  /** Domain-separated hashing: tag and content. */
  type TaggedHasher = (byte, seq<byte>) -> Hash

  // ----- the tree of a full recompute

  function ChunkAt(mem: seq<byte>, c: nat): seq<byte>
  {
    if 4096 * c >= |mem| then []
    else if 4096 * (c + 1) > |mem| then mem[4096 * c..]
    else mem[4096 * c..4096 * (c + 1)]
  }

  /** Leaf `c` of a tree over `nc` chunks; a padding leaf hashes the empty input. */
  function LeafValue(h: TaggedHasher, mem: seq<byte>, nc: nat, c: nat): Hash
  {
    h(TAG_LEAF, if c < nc then ChunkAt(mem, c) else [])
  }

  function InnerValue(h: TaggedHasher, left: seq<byte>, right: seq<byte>): Hash
  {
    h(TAG_NODE, left + right)
  }

  function NodeValue(h: TaggedHasher, mem: seq<byte>, nc: nat, leaves: nat, k: nat): Hash
    requires 1 <= k
    decreases 2 * leaves - k
  {
    if k >= leaves then LeafValue(h, mem, nc, k - leaves)
    else InnerValue(h, NodeValue(h, mem, nc, leaves, 2 * k), NodeValue(h, mem, nc, leaves, 2 * k + 1))
  }

  /** `tree` holds the full recompute of `mem`, node by node, from index 1. */
  predicate IsFullTree(h: TaggedHasher, mem: seq<byte>, nc: nat, leaves: nat, tree: seq<Hash>)
  {
    && |tree| == 2 * leaves
    && (forall j | leaves <= j < 2 * leaves :: tree[j] == LeafValue(h, mem, nc, j - leaves))
    && Layered(h, leaves, tree)
  }

  /** Every inner node hashes the two nodes below it. */
  predicate Layered(h: TaggedHasher, leaves: nat, tree: seq<Hash>)
    requires |tree| == 2 * leaves
  {
    forall k | 1 <= k < leaves :: tree[k] == InnerValue(h, tree[2 * k], tree[2 * k + 1])
  }

  function FullTree(h: TaggedHasher, mem: seq<byte>, nc: nat, leaves: nat): (tree: seq<Hash>)
    ensures IsFullTree(h, mem, nc, leaves, tree)
    ensures forall k | 1 <= k < 2 * leaves :: tree[k] == NodeValue(h, mem, nc, leaves, k)
  {
    seq<Hash>(2 * leaves, k requires 0 <= k => if k == 0 then h(TAG_LEAF, []) else NodeValue(h, mem, nc, leaves, k))
  }

  // ----- which nodes lie above changed leaves

  function Above(ch: seq<bool>, k: nat): bool
    requires 1 <= k < 2 * |ch|
    decreases 2 * |ch| - k
  {
    if k >= |ch| then ch[k - |ch|] else Above(ch, 2 * k) || Above(ch, 2 * k + 1)
  }

  /** The number of nodes in `lo .. hi` above a changed leaf. */
  function CountAbove(ch: seq<bool>, lo: nat, hi: nat): nat
    requires 1 <= lo <= hi <= 2 * |ch|
    decreases hi - lo
  {
    if lo == hi then 0 else (if Above(ch, lo) then 1 else 0) + CountAbove(ch, lo + 1, hi)
  }

  lemma {:induction false} CountSplit(ch: seq<bool>, lo: nat, mid: nat, hi: nat)
    requires 1 <= lo <= mid <= hi <= 2 * |ch|
    ensures CountAbove(ch, lo, hi) == CountAbove(ch, lo, mid) + CountAbove(ch, mid, hi)
    decreases mid - lo
  {
    hide Above;
    if lo < mid {
      CountSplit(ch, lo + 1, mid, hi);
    }
  }

  /** A node above a changed leaf has a child that is. */
  lemma {:induction false} LayerShrinks(ch: seq<bool>, lo: nat, hi: nat)
    requires 1 <= lo <= hi <= |ch|
    ensures CountAbove(ch, lo, hi) <= CountAbove(ch, 2 * lo, 2 * hi)
    decreases hi - lo
  {
    if lo < hi {
      LayerShrinks(ch, lo + 1, hi);
      CountSplit(ch, 2 * lo, 2 * lo + 2, 2 * hi);
      assert Above(ch, lo) == (Above(ch, 2 * lo) || Above(ch, 2 * lo + 1));
      hide Above;
      assert CountAbove(ch, 2 * lo, 2 * lo + 2) ==
             (if Above(ch, 2 * lo) then 1 else 0) + CountAbove(ch, 2 * lo + 1, 2 * lo + 2);
    }
  }

  /** The inner nodes above changed leaves are at most the changed leaves times the height. */
  lemma {:induction false} NodesAtMost(ch: seq<bool>, d: nat)
    requires 1 <= Pow2(d) <= |ch|
    ensures CountAbove(ch, 1, Pow2(d)) <= d * CountAbove(ch, Pow2(d), 2 * Pow2(d))
  {
    hide Above, CountAbove;
    if d == 0 {
      assert CountAbove(ch, 1, 1) == 0 by { CountNothing(ch, 1); }
    } else {
      var p := Pow2(d - 1);
      NodesAtMost(ch, d - 1);
      CountSplit(ch, 1, p, 2 * p);
      LayerShrinks(ch, p, 2 * p);
      var x, y := CountAbove(ch, p, 2 * p), CountAbove(ch, 2 * p, 4 * p);
      MulLe(d - 1, x, y);
    }
  }

  lemma CountNothing(ch: seq<bool>, k: nat)
    requires 1 <= k <= 2 * |ch|
    ensures CountAbove(ch, k, k) == 0
  {
  }

  lemma MulLe(a: nat, x: nat, y: nat)
    requires x <= y
    ensures a * x + x <= (a + 1) * y
  {
  }

  /** The positions that are set. */
  function Marked(s: seq<bool>): set<nat>
  {
    set c: nat | c < |s| && s[c]
  }

  lemma {:induction false} CountIsCard(ch: seq<bool>, n: nat)
    requires n <= |ch|
    ensures |ch| > 0 ==> CountAbove(ch, |ch|, |ch| + n) == |Marked(ch[..n])|
  {
    if n > 0 && |ch| > 0 {
      CountIsCard(ch, n - 1);
      CountSplit(ch, |ch|, |ch| + n - 1, |ch| + n);
      assert CountAbove(ch, |ch| + n, |ch| + n) == 0;
      assert CountAbove(ch, |ch| + n - 1, |ch| + n) == if ch[n - 1] then 1 else 0;
      if ch[n - 1] {
        assert Marked(ch[..n]) == Marked(ch[..n - 1]) + {n - 1};
      } else {
        assert Marked(ch[..n]) == Marked(ch[..n - 1]);
      }
    } else if |ch| > 0 {
      assert Marked(ch[..0]) == {};
    }
  }

  lemma {:induction false} AllAbove(ch: seq<bool>, k: nat)
    requires 1 <= k < 2 * |ch| && forall c | 0 <= c < |ch| :: ch[c]
    ensures Above(ch, k)
    decreases 2 * |ch| - k
  {
    if k < |ch| {
      AllAbove(ch, 2 * k);
    }
  }

  // ----- sizes

  function CeilChunks(len: nat): nat
  {
    (len + 4095) / 4096
  }

  /** The chunk count as computed in 64-bit and truncated to 32-bit arithmetic. */
  function ChunkCount32(len: nat): nat
  {
    var nc := (len + 4095) % 0x1_0000_0000_0000_0000 / 4096 % 0x1_0000_0000;
    if nc == 0 then 1 else nc
  }

  /** The truncated count is the true one exactly below 2^32 chunks. */
  lemma CountExact(len: nat)
    requires 0 < len < 0x1_0000_0000_0000_0000
    ensures ChunkCount32(len) == CeilChunks(len) <==> CeilChunks(len) < 0x1_0000_0000
  {
  }

  /** Every chunk that is counted starts inside the memory. */
  lemma CountedStartInside(len: nat)
    requires len < 0x1_0000_0000_0000_0000
    ensures 1 <= ChunkCount32(len) < 0x1_0000_0000 && 4096 * (ChunkCount32(len) - 1) <= len
  {
  }

  /** `p <<= 1` on 32 bits, `n` times from 1. */
  function Doubled(n: nat): u32
  {
    if n == 0 then 1 else 2 * Doubled(n - 1) % 0x1_0000_0000
  }

  lemma {:induction false} DoubledIs(n: nat)
    ensures Doubled(n) == if n < 32 then Pow2(n) else 0
    ensures n < 32 ==> Pow2(n) <= 0x8000_0000
  {
    hide Pow2, Doubled;
    DoubledStep(n);
    if n == 0 {
      PowNone();
    } else {
      DoubledIs(n - 1);
      if n < 32 {
        PowTwice(n - 1);
        PowBelow32(n);
      } else if n == 32 {
        Pow2At32();
      }
    }
  }

  lemma DoubledStep(n: nat)
    ensures Doubled(n) == if n == 0 then 1 else 2 * Doubled(n - 1) % 0x1_0000_0000
  {
  }

  lemma PowBelow32(n: nat)
    requires n < 32
    ensures Pow2(n) <= 0x8000_0000
  {
    hide Pow2;
    Pow2At32();
    Pow2Add(n, 32 - n);
    PowTwice(31 - n);
    PowerHalves(Pow2(n), Pow2(32 - n));
  }

  lemma PowNone()
    ensures Pow2(0) == 1
  {
  }

  lemma PowerHalves(a: nat, b: nat)
    requires a * b == 0x1_0000_0000 && b >= 2
    ensures a <= 0x8000_0000
  {
  }

  /** The search for a power of two not below `x` goes on for ever exactly above 2^31. */
  lemma DoublingLoopsIff(x: u32)
    ensures (forall n: nat :: Doubled(n) < x) <==> x > 0x8000_0000
  {
    hide Doubled, Pow2;
    Pow2At32();
    DoubledIs(31);
    if x > 0x8000_0000 {
      forall n: nat
        ensures Doubled(n) < x
      {
        DoubledIs(n);
      }
    }
  }

  /** `next_pow2`, where it returns. */
  method NextPow2(x: u32) returns (p: u32)
    requires 1 <= x <= 0x8000_0000
    ensures x <= p && IsPow2(p) && (p == 1 || p / 2 < x)
    ensures exists n: nat :: p == Doubled(n) && forall k: nat | k < n :: Doubled(k) < x
  {
    p := 1;
    ghost var n := 0;
    while p < x
      invariant IsPow2(p) && (p == 1 || p / 2 < x) && p <= 0x8000_0000
      invariant p == Doubled(n) && forall k: nat | k < n :: Doubled(k) < x
      decreases x - p
    {
      Pow2Fits(p);
      p := 2 * p % 0x1_0000_0000;
      n := n + 1;
    }
  }

  lemma Pow2Fits(p: nat)
    requires IsPow2(p) && p < 0x8000_0000
    ensures 2 * p <= 0x8000_0000
  {
    hide Pow2, IsPow2;
    Pow2At32();
    Pow2IsPow2(31);
    Pow2Below(p, 0x8000_0000);
  }

  // ----- which memories an epoch accepts, and whether it covers them

  /** `cvsasx_epoch_init` returns, and reports success. */
  predicate Accepts(len: nat)
  {
    ChunkCount32(len) <= MAX_CHUNKS
  }

  /** The source calls itself fail-closed; it accepts a memory beyond its 256 chunks exactly
      when the 32-bit count wraps around to at most 256. */
  lemma AcceptsWronglyIff(len: nat)
    requires len < 0x1_0000_0000_0000_0000
    ensures Accepts(len) && CeilChunks(len) > MAX_CHUNKS <==>
            CeilChunks(len) >= 0x1_0000_0000 && CeilChunks(len) % 0x1_0000_0000 <= MAX_CHUNKS
    ensures Accepts(len) && CeilChunks(len) <= MAX_CHUNKS <==> len <= 4096 * MAX_CHUNKS
    ensures Accepts(len) && CeilChunks(len) > MAX_CHUNKS ==> 4096 * ChunkCount32(len) < len
  {
  }

  /** At 2^44 bytes: accepted, with one chunk of 2^32. */
  lemma AcceptsSixteenTerabytes()
    ensures Accepts(0x1000_0000_0000) && ChunkCount32(0x1000_0000_0000) == 1
      && CeilChunks(0x1000_0000_0000) == 0x1_0000_0000
  {
  }

  /** Bytes beyond the chunks that are counted do not enter any node. */
  lemma {:induction false} BeyondIsInvisible(h: TaggedHasher, a: seq<byte>, b: seq<byte>, nc: nat, leaves: nat, k: nat)
    requires 1 <= k && |a| == |b| && 4096 * nc <= |a| && a[..4096 * nc] == b[..4096 * nc]
    ensures NodeValue(h, a, nc, leaves, k) == NodeValue(h, b, nc, leaves, k)
    decreases 2 * leaves - k
  {
    hide ChunkAt;
    if k < leaves {
      BeyondIsInvisible(h, a, b, nc, leaves, 2 * k);
      BeyondIsInvisible(h, a, b, nc, leaves, 2 * k + 1);
    } else if k - leaves < nc {
      SameChunk(a, b, nc, k - leaves);
    }
  }

  lemma SameChunk(a: seq<byte>, b: seq<byte>, nc: nat, c: nat)
    requires c < nc && |a| == |b| && 4096 * nc <= |a| && a[..4096 * nc] == b[..4096 * nc]
    ensures ChunkAt(a, c) == ChunkAt(b, c)
  {
    forall i | 4096 * c <= i < 4096 * (c + 1)
      ensures a[i] == b[i]
    {
      assert a[i] == a[..4096 * nc][i] && b[i] == b[..4096 * nc][i];
    }
    SameSlice(a, b, 4096 * c, 4096 * (c + 1));
  }

  function Log2(n: nat): (d: nat)
    requires IsPow2(n)
    ensures Pow2(d) == n
  {
    if n == 1 then 0 else 1 + Log2(n / 2)
  }

  /** The leaves that a commit hashes: the dirty chunks, and the padding the first time. */
  function ToHash(dirty: seq<bool>, nc: nat, leaves: nat, first: bool): (ch: seq<bool>)
    requires nc <= |dirty|
    ensures |ch| == leaves
  {
    seq(leaves, c requires 0 <= c => if c < nc then dirty[c] else first)
  }

  class Epoch {
    const h: TaggedHasher
    const mem: array<byte>
    const node: array<Hash>
    const dirty: array<bool>
    var nChunks: nat
    var nLeaves: nat
    var committed: bool
    var valid: bool
    var lastLeafHashes: nat
    var lastNodeHashes: nat

    ghost predicate Shape()
      reads this
    {
      && node.Length == 2 * MAX_CHUNKS && dirty.Length == MAX_CHUNKS
      && (valid ==>
            && 1 <= nChunks <= nLeaves <= MAX_CHUNKS && IsPow2(nLeaves)
            && nChunks == ChunkCount32(mem.Length) && mem.Length < 0x1_0000_0000_0000_0000)
    }

    ghost function Leaf(c: nat): Hash
      reads this, mem
    {
      LeafValue(h, mem[..], nChunks, c)
    }

    /** The value of node `k` in a full recompute of the current memory. */
    ghost function Full(k: nat): Hash
      requires 1 <= k
      reads this, mem
    {
      NodeValue(h, mem[..], nChunks, nLeaves, k)
    }

    /** Between commits every clean leaf still hashes its current chunk, and every inner
        node the two nodes below it; before the first commit every chunk is dirty. */
    ghost predicate Valid()
      reads this, mem, node, dirty
    {
      && Shape()
      && (valid && committed ==>
            && (forall j | nLeaves <= j < 2 * nLeaves ::
                  (j - nLeaves < nChunks && dirty[j - nLeaves]) || node[j] == Leaf(j - nLeaves))
            && (forall k | 1 <= k < nLeaves :: node[k] == InnerValue(h, node[2 * k], node[2 * k + 1])))
      && (valid && !committed ==> forall c | 0 <= c < nChunks :: dirty[c])
    }

    /** `cvsasx_epoch_init`, wherever it returns. */
    constructor (h: TaggedHasher, mem: array<byte>)
      requires mem.Length < 0x1_0000_0000_0000_0000 && ChunkCount32(mem.Length) <= 0x8000_0000
      ensures Valid() && this.h == h && this.mem == mem && !committed && fresh(node) && fresh(dirty)
      ensures valid <==> Accepts(mem.Length)
    {
      hide ChunkCount32, IsPow2, LeafValue;
      CountedStartInside(mem.Length);
      this.h := h;
      this.mem := mem;
      node := new Hash[2 * MAX_CHUNKS];
      dirty := new bool[MAX_CHUNKS];
      committed, valid, lastLeafHashes, lastNodeHashes := false, false, 0, 0;
      var nc := ChunkCount32(mem.Length);
      var nl := NextPow2(nc);
      nChunks, nLeaves := 0, 0;
      new;
      FitsIn256(nc, nl);
      if nl > MAX_CHUNKS {
        return;
      }
      nChunks, nLeaves := nc, nl;
      for i := 0 to nl
        modifies dirty
        invariant forall c | 0 <= c < i :: dirty[c] == (c < nc)
      {
        dirty[i] := i < nc;
      }
      valid := true;
    }

    /** `cvsasx_epoch_write`: no hashing; marks exactly the chunks it touches, and does
        nothing at all when out of range. */
    method Write(offset: nat, data: seq<byte>)
      requires Valid()
      modifies mem, dirty
      ensures Valid()
      ensures !valid ==> mem[..] == old(mem[..]) && dirty[..] == old(dirty[..])
      ensures valid ==>
                && mem[..] == AfterWrite(old(mem[..]), (offset, data))
                && forall c | 0 <= c < MAX_CHUNKS ::
                     dirty[c] <==> old(dirty[c]) || (c < nChunks && Touches(mem.Length, (offset, data), c))
    {
      hide ChunkCount32, IsPow2, LeafValue, AfterWrite, Touches;
      if !valid || data == [] {
        EmptyWrite(mem[..], offset);
        return;
      }
      if offset > mem.Length || |data| > mem.Length - offset {
        WriteOutside(mem[..], offset, data);
        return;
      }
      ghost var mem0, w := mem[..], (offset, data);
      CopyIn(offset, data);
      MarkRange(offset, data);
      forall c | 0 <= c < nLeaves && !(c < nChunks && Touches(|mem0|, w, c))
        ensures LeafValue(h, mem0, nChunks, c) == LeafValue(h, AfterWrite(mem0, w), nChunks, c)
      {
        UntouchedLeaf(h, nChunks, mem0, w, c);
      }
    }

    method CopyIn(offset: nat, data: seq<byte>)
      requires offset + |data| <= mem.Length
      modifies mem
      ensures mem[..] == AfterWrite(old(mem[..]), (offset, data))
    {
      ghost var mem0 := mem[..];
      forall i | 0 <= i < |data| {
        mem[offset + i] := data[i];
      }
      assert mem[..] == mem0[..offset] + data + mem0[offset + |data|..];
    }

    /** `cvsasx_epoch_commit`: afterwards every node is that of a full recompute; the work is
        the dirty chunks and, after the first commit, the inner nodes above them. */
    method Commit() returns (root: Option<Hash>)
      requires Valid()
      modifies this, node, dirty
      ensures Valid() && valid == old(valid) && nChunks == old(nChunks) && nLeaves == old(nLeaves)
      ensures !valid ==> root.None?
      ensures valid ==>
                && committed && root == Some(Full(1))
                && (forall k | 1 <= k < 2 * nLeaves :: node[k] == Full(k))
                && (forall c | 0 <= c < nChunks :: !dirty[c])
                && lastLeafHashes == |Marked(old(dirty[..nChunks]))|
      ensures valid && old(committed) ==>
                && lastNodeHashes == CountAbove(ToHash(old(dirty[..]), nChunks, nLeaves, false), 1, nLeaves)
                && lastNodeHashes <= lastLeafHashes * Log2(nLeaves)
    {
      if !valid {
        return None;
      }
      hide LeafValue, NodeValue, InnerValue, ChunkCount32, IsPow2, Above, CountAbove, Marked, IsFullTree, Valid;
      ShapeOf(this);
      ghost var tree := FullTree(h, mem[..], nChunks, nLeaves);
      ghost var marks := dirty[..nChunks];
      HashAndClimb(tree, ToHash(dirty[..], nChunks, nLeaves, !committed));
      if committed {
        CommitCost(ToHash(old(dirty[..]), nChunks, nLeaves, false), marks, nLeaves);
      }
      committed := true;
      root := Some(node[1]);
      FullIsValid(this, tree);
    }

    /** Leaves first, then the inner nodes above the changed ones. */
    method HashAndClimb(ghost tree: seq<Hash>, ghost ch: seq<bool>)
      requires Valid() && valid && IsFullTree(h, mem[..], nChunks, nLeaves, tree)
      requires ch == ToHash(dirty[..], nChunks, nLeaves, !committed)
      modifies this`lastLeafHashes, this`lastNodeHashes, node, dirty
      ensures forall k | 1 <= k < 2 * nLeaves :: node[k] == tree[k]
      ensures forall c | 0 <= c < nChunks :: !dirty[c]
      ensures lastLeafHashes == |Marked(old(dirty[..nChunks]))|
      ensures lastNodeHashes == CountAbove(ch, 1, nLeaves)
    {
      hide LeafValue, InnerValue, ChunkCount32, IsPow2, Above, CountAbove, Marked;
      ghost var node0 := node[..2 * nLeaves];
      var changed := new bool[2 * nLeaves](_ => false);
      RehashLeaves(changed, tree);
      if !committed {
        HashPadding(changed, tree);
        AllAreAbove(ch);
      }
      RecomputeInner(changed, ch, node0, tree);
    }

    /** The hash of one real chunk, the last one possibly short. */
    method HashChunk(c: nat) returns (r: Hash)
      requires Shape() && valid && c < nChunks
      ensures r == Leaf(c)
    {
      var off, clen := c * 4096, 4096;
      CountedStartInside(mem.Length);
      ChunkInside(mem[..], nChunks, c);
      if off + clen > mem.Length {
        clen := mem.Length - off;
      }
      r := h(TAG_LEAF, mem[off..off + clen]);
      assert mem[off..off + clen] == mem[..][off..off + clen];
    }

    method RehashOne(changed: array<bool>, ghost tree: seq<Hash>, c: nat)
      requires Shape() && valid && changed.Length == 2 * nLeaves && changed != dirty && c < nChunks
      requires |tree| == 2 * nLeaves && IsFullTree(h, mem[..], nChunks, nLeaves, tree)
      requires !changed[nLeaves + c]
      modifies this`lastLeafHashes, node, dirty, changed
      ensures dirty[..] == old(dirty[..])[c := false]
      ensures changed[..] == old(changed[..])[nLeaves + c := old(dirty[c])]
      ensures node[..] ==
        old(node[..])[nLeaves + c := if old(dirty[c]) then tree[nLeaves + c] else old(node[nLeaves + c])]
      ensures lastLeafHashes == old(lastLeafHashes) + if old(dirty[c]) then 1 else 0
    {
      hide IsPow2, ChunkCount32, LeafValue, IsFullTree;
      if dirty[c] {
        var leaf := HashChunk(c);
        LeafOf(h, mem[..], nChunks, nLeaves, tree, c);
        node[nLeaves + c] := leaf;
        dirty[c] := false;
        changed[nLeaves + c] := true;
        lastLeafHashes := lastLeafHashes + 1;
      }
    }

    method RehashLeaves(changed: array<bool>, ghost tree: seq<Hash>)
      requires Shape() && valid && changed.Length == 2 * nLeaves && changed != dirty
      requires forall j | 0 <= j < 2 * nLeaves :: !changed[j]
      requires |tree| == 2 * nLeaves && IsFullTree(h, mem[..], nChunks, nLeaves, tree)
      modifies this`lastLeafHashes, this`lastNodeHashes, node, dirty, changed
      ensures forall c | 0 <= c < nChunks :: !dirty[c]
      ensures forall j | nLeaves <= j < nLeaves + nChunks ::
                && changed[j] == old(dirty[j - nLeaves])
                && node[j] == (if old(dirty[j - nLeaves]) then tree[j] else old(node[j]))
      ensures forall j | 0 <= j < nLeaves || nLeaves + nChunks <= j < 2 * nLeaves ::
        !changed[j] && node[j] == old(node[j])
      ensures lastLeafHashes == |Marked(old(dirty[..nChunks]))| && lastNodeHashes == 0
    {
      hide IsPow2, ChunkCount32, LeafValue, IsFullTree, Marked;
      lastLeafHashes, lastNodeHashes := 0, 0;
      ghost var marks, nodes := dirty[..nChunks], node[..];
      assert Rehashed(nodes, node[..], changed[..], dirty[..], marks, tree, nLeaves, 0);
      hide Rehashed;
      RehashLoop(changed, tree, nodes, marks);
      RehashedAll(nodes, node[..], changed[..], dirty[..], marks, tree, nLeaves);
    }

    method RehashLoop(changed: array<bool>, ghost tree: seq<Hash>, ghost nodes: seq<Hash>, ghost marks: seq<bool>)
      requires Shape() && valid && changed.Length == 2 * nLeaves && changed != dirty
      requires |tree| == 2 * nLeaves && IsFullTree(h, mem[..], nChunks, nLeaves, tree) && |marks| == nChunks
      requires |nodes| == node.Length && lastLeafHashes == 0
      requires Rehashed(nodes, node[..], changed[..], dirty[..], marks, tree, nLeaves, 0)
      modifies this`lastLeafHashes, node, dirty, changed
      ensures Rehashed(nodes, node[..], changed[..], dirty[..], marks, tree, nLeaves, nChunks)
      ensures lastLeafHashes == |Marked(marks)|
    {
      hide IsPow2, ChunkCount32, LeafValue, IsFullTree, Marked, Rehashed;
      NothingMarked(marks);
      for c := 0 to nChunks
        invariant Rehashed(nodes, node[..], changed[..], dirty[..], marks, tree, nLeaves, c)
        invariant lastLeafHashes == |Marked(marks[..c])|
      {
        MarkedStep(marks, c);
        ghost var ns, cs, ds := node[..], changed[..], dirty[..];
        RehashedAt(nodes, ns, cs, ds, marks, tree, nLeaves, c);
        RehashOne(changed, tree, c);
        RehashStep(nodes, ns, cs, ds, marks, tree, nLeaves, c);
      }
      assert marks[..nChunks] == marks;
    }

    /** A whole epoch, from one commit to the next: the leaf hashes are as many as the chunks
        that some write touched, whatever the order, overlap or number of the writes. */
    method RunEpoch(writes: seq<(nat, seq<byte>)>) returns (root: Option<Hash>)
      requires Valid() && valid && committed && forall c | 0 <= c < nChunks :: !dirty[c]
      modifies this, mem, node, dirty
      ensures Valid() && valid && nChunks == old(nChunks) && nLeaves == old(nLeaves)
      ensures mem[..] == AfterWrites(old(mem[..]), writes)
      ensures root == Some(Full(1)) && forall k | 1 <= k < 2 * nLeaves :: node[k] == Full(k)
      ensures lastLeafHashes == |Touched(mem.Length, nChunks, writes)|
      ensures lastNodeHashes <= lastLeafHashes * Log2(nLeaves)
      ensures committed && forall c | 0 <= c < nChunks :: !dirty[c]
    {
      hide Valid, Leaf, Full, Marked, Above, CountAbove, ChunkCount32, IsPow2;
      hide AfterWrites, AfterWrite, Touched, Touches;
      ShapeOf(this);
      NoWrites(mem[..], nChunks);
      for i := 0 to |writes|
        invariant Valid() && Shape() && valid && committed && nChunks == old(nChunks) && nLeaves == old(nLeaves)
        invariant mem[..] == AfterWrites(old(mem[..]), writes[..i])
        invariant forall c: nat | c < nChunks :: dirty[c] <==> c in Touched(mem.Length, nChunks, writes[..i])
      {
        WriteStep(old(mem[..]), nChunks, writes, i);
        Write(writes[i].0, writes[i].1);
        assert (writes[i].0, writes[i].1) == writes[i];
      }
      assert writes[..|writes|] == writes;
      ghost var marks := dirty[..nChunks];
      MarkedIs(marks, mem.Length, writes);
      root := Commit();
    }

    method HashPadding(changed: array<bool>, ghost tree: seq<Hash>)
      requires Shape() && valid && changed.Length == 2 * nLeaves && changed != dirty
      requires IsFullTree(h, mem[..], nChunks, nLeaves, tree)
      modifies node, changed
      ensures forall j | nLeaves + nChunks <= j < 2 * nLeaves :: node[j] == tree[j] && changed[j]
      ensures forall j | 0 <= j < nLeaves + nChunks :: node[j] == old(node[j]) && changed[j] == old(changed[j])
    {
      hide IsPow2, ChunkCount32, Layered;
      for k := nLeaves + nChunks to 2 * nLeaves
        invariant forall j | nLeaves + nChunks <= j < k :: node[j] == tree[j] && changed[j]
        invariant forall j | 0 <= j < nLeaves + nChunks :: node[j] == old(node[j]) && changed[j] == old(changed[j])
      {
        node[k] := h(TAG_LEAF, []);
        changed[k] := true;
      }
    }

    /** Bottom-up over the inner nodes; one whose children kept their values keeps its own. */
    method RecomputeInner(changed: array<bool>, ghost ch: seq<bool>, ghost node0: seq<Hash>, ghost tree: seq<Hash>)
      requires 1 <= nLeaves && changed.Length == 2 * nLeaves <= node.Length && changed != dirty
      requires |ch| == nLeaves && |node0| == |tree| == 2 * nLeaves && lastNodeHashes == 0
      requires Layered(h, nLeaves, tree)
      requires forall j | nLeaves <= j < 2 * nLeaves ::
                 node[j] == tree[j] && changed[j] == ch[j - nLeaves] && (!changed[j] ==> tree[j] == node0[j])
      requires forall k | 1 <= k < nLeaves :: node[k] == node0[k] && !changed[k]
      requires StaleOnlyAbove(h, ch, node0)
      modifies this`lastNodeHashes, node, changed
      ensures forall k | 1 <= k < 2 * nLeaves :: node[k] == tree[k]
      ensures lastNodeHashes == CountAbove(ch, 1, nLeaves)
    {
      AboveLeaves(ch);
      CountNothing(ch, nLeaves);
      hide InnerValue, Above, CountAbove, Layered, StaleOnlyAbove;
      var k := nLeaves - 1;
      assert Climbed(node[..], changed[..], ch, node0, tree, k);
      hide Climbed, Finished;
      while k >= 1
        invariant 0 <= k < nLeaves
        invariant Climbed(node[..], changed[..], ch, node0, tree, k)
        invariant lastNodeHashes == CountAbove(ch, k + 1, nLeaves)
      {
        CountStep(ch, k, nLeaves);
        ghost var ns, cs := node[..], changed[..];
        ClimbedAt(ns, cs, ch, node0, tree, k);
        RecomputeOne(changed, ch, node0, tree, k);
        ClimbStep(ns, cs, node[..], changed[..], ch, node0, tree, k);
        k := k - 1;
      }
      ClimbedAll(node[..], changed[..], ch, node0, tree);
    }

    method RecomputeOne(changed: array<bool>, ghost ch: seq<bool>, ghost node0: seq<Hash>, ghost tree: seq<Hash>,
        k: nat)
      requires 1 <= k < nLeaves && changed.Length == 2 * nLeaves <= node.Length
      requires |ch| == nLeaves && |node0| == |tree| == 2 * nLeaves
      requires Layered(h, nLeaves, tree) && StaleOnlyAbove(h, ch, node0)
      requires Finished(node[2 * k], changed[2 * k], Above(ch, 2 * k), node0[2 * k], tree[2 * k])
      requires Finished(node[2 * k + 1], changed[2 * k + 1], Above(ch, 2 * k + 1), node0[2 * k + 1], tree[2 * k + 1])
      requires node[k] == node0[k] && !changed[k]
      modifies this`lastNodeHashes, node, changed
      ensures Finished(node[k], changed[k], Above(ch, k), node0[k], tree[k])
      ensures node[..] == old(node[..])[k := node[k]] && changed[..] == old(changed[..])[k := changed[k]]
      ensures lastNodeHashes == old(lastNodeHashes) + if Above(ch, k) then 1 else 0
    {
      InnerFinished(h, ch, node0, tree, k);
      hide InnerValue, Above, Layered, StaleOnlyAbove;
      if changed[2 * k] || changed[2 * k + 1] {
        node[k] := InnerValue(h, node[2 * k], node[2 * k + 1]);
        changed[k] := true;
        lastNodeHashes := lastNodeHashes + 1;
      }
    }

    method MarkRange(offset: nat, data: seq<byte>)
      requires Shape() && valid && data != [] && offset + |data| <= mem.Length
      modifies dirty
      ensures forall c | 0 <= c < MAX_CHUNKS ::
        dirty[c] <==> old(dirty[c]) || (c < nChunks && Touches(mem.Length, (offset, data), c))
    {
      hide IsPow2, ChunkCount32, Touches;
      var first, last := offset / 4096, (offset + |data| - 1) / 4096;
      forall c: nat
        ensures first <= c <= last <==> Touches(mem.Length, (offset, data), c)
      {
        TouchedRange(mem.Length, offset, data, c);
      }
      var c := first;
      while c <= last && c < nChunks
        invariant first <= c
        invariant forall i | 0 <= i < MAX_CHUNKS ::
          dirty[i] <==> old(dirty[i]) || (i < nChunks && first <= i < c && i <= last)
      {
        dirty[c] := true;
        c := c + 1;
      }
    }
  }

  /** The memory after a list of writes, those out of range ignored. */
  function AfterWrites(mem: seq<byte>, writes: seq<(nat, seq<byte>)>): (r: seq<byte>)
    ensures |r| == |mem|
  {
    if writes == [] then mem else AfterWrite(AfterWrites(mem, writes[..|writes| - 1]), writes[|writes| - 1])
  }

  /** The memory after one write, ignored if out of range. */
  function AfterWrite(mem: seq<byte>, w: (nat, seq<byte>)): (r: seq<byte>)
    ensures |r| == |mem|
  {
    if w.0 + |w.1| > |mem| then mem else mem[..w.0] + w.1 + mem[w.0 + |w.1|..]
  }

  /** Byte by byte: a write in range replaces the bytes it covers, any other changes nothing. */
  lemma WrittenBytes(mem: seq<byte>, w: (nat, seq<byte>), i: nat)
    requires i < |mem|
    ensures AfterWrite(mem, w)[i] ==
            if w.0 + |w.1| <= |mem| && w.0 <= i < w.0 + |w.1| then w.1[i - w.0] else mem[i]
  {
  }

  /** A write touches the chunks of the bytes it covers. */
  lemma TouchesIff(len: nat, w: (nat, seq<byte>), c: nat)
    ensures Touches(len, w, c) <==> w.0 + |w.1| <= len && exists i: nat :: w.0 <= i < w.0 + |w.1| && InChunk(i, c)
  {
    if Touches(len, w, c) {
      var i := if w.0 < 4096 * c then 4096 * c else w.0;
      assert InChunk(i, c);
    }
  }

  predicate InChunk(i: nat, c: nat)
  {
    i / 4096 == c
  }

  lemma WriteOutside(mem: seq<byte>, offset: nat, data: seq<byte>)
    requires offset + |data| > |mem|
    ensures AfterWrite(mem, (offset, data)) == mem && forall c: nat :: !Touches(|mem|, (offset, data), c)
  {
  }

  lemma EmptyWrite(mem: seq<byte>, offset: nat)
    ensures AfterWrite(mem, (offset, [])) == mem && forall c: nat :: !Touches(|mem|, (offset, []), c)
  {
    if offset <= |mem| {
      assert mem[..offset] + [] + mem[offset..] == mem;
    }
  }

  /** Write `w` is in range and covers some byte of chunk `c`. */
  predicate Touches(len: nat, w: (nat, seq<byte>), c: nat)
  {
    w.0 + |w.1| <= len && w.1 != [] && 4096 * c < w.0 + |w.1| && w.0 < 4096 * (c + 1)
  }

  /** The chunks some write of the list touches. */
  function Touched(len: nat, nc: nat, writes: seq<(nat, seq<byte>)>): set<nat>
  {
    set c: nat | c < nc && TouchedBy(len, writes, c)
  }

  predicate TouchedBy(len: nat, writes: seq<(nat, seq<byte>)>, c: nat)
  {
    exists i :: 0 <= i < |writes| && Touches(len, writes[i], c)
  }

  lemma NoWrites(mem: seq<byte>, nc: nat)
    ensures AfterWrites(mem, []) == mem && Touched(|mem|, nc, []) == {}
  {
  }

  lemma WriteStep(mem: seq<byte>, nc: nat, writes: seq<(nat, seq<byte>)>, i: nat)
    requires i < |writes|
    ensures AfterWrites(mem, writes[..i + 1]) == AfterWrite(AfterWrites(mem, writes[..i]), writes[i])
    ensures forall c: nat | c < nc :: c in Touched(|mem|, nc, writes[..i + 1]) <==>
              c in Touched(|mem|, nc, writes[..i]) || Touches(|mem|, writes[i], c)
  {
    hide AfterWrite, Touches;
    assert writes[..i + 1][..i] == writes[..i];
    var next := writes[..i + 1];
    forall c: nat | c < nc
      ensures c in Touched(|mem|, nc, next) <==> c in Touched(|mem|, nc, writes[..i]) || Touches(|mem|, writes[i], c)
    {
      if Touches(|mem|, writes[i], c) {
        assert Touches(|mem|, next[i], c);
      }
      if TouchedBy(|mem|, writes[..i], c) {
        var j :| 0 <= j < i && Touches(|mem|, writes[..i][j], c);
        assert Touches(|mem|, next[j], c);
      }
      if TouchedBy(|mem|, next, c) {
        var j :| 0 <= j < i + 1 && Touches(|mem|, next[j], c);
        assert j < i ==> Touches(|mem|, writes[..i][j], c);
      }
    }
  }

  lemma MarkedIs(s: seq<bool>, len: nat, writes: seq<(nat, seq<byte>)>)
    requires forall c: nat | c < |s| :: s[c] <==> c in Touched(len, |s|, writes)
    ensures Marked(s) == Touched(len, |s|, writes)
  {
    hide TouchedBy;
    var t := Touched(len, |s|, writes);
    forall c: nat
      ensures c in Marked(s) <==> c in t
    {
    }
  }

  lemma LeafOf(h: TaggedHasher, mem: seq<byte>, nc: nat, leaves: nat, tree: seq<Hash>, c: nat)
    requires c < leaves && IsFullTree(h, mem, nc, leaves, tree)
    ensures |tree| == 2 * leaves && tree[leaves + c] == LeafValue(h, mem, nc, c)
  {
  }

  lemma ShapeOf(e: Epoch)
    requires e.Valid()
    ensures e.Shape()
  {
  }

  lemma FullIsValid(e: Epoch, tree: seq<Hash>)
    requires e.Shape() && e.committed && e.valid && IsFullTree(e.h, e.mem[..], e.nChunks, e.nLeaves, tree)
    requires forall k | 1 <= k < 2 * e.nLeaves :: e.node[k] == tree[k]
    ensures e.Valid()
  {
    hide LeafValue, InnerValue, ChunkCount32, IsPow2;
    forall k | 1 <= k < e.nLeaves
      ensures e.node[k] == InnerValue(e.h, e.node[2 * k], e.node[2 * k + 1])
    {
      assert e.node[2 * k] == tree[2 * k] && e.node[2 * k + 1] == tree[2 * k + 1];
    }
  }

  /** A node that holds its final value and whose flag says whether it may have moved. */
  ghost predicate Finished(now: Hash, flag: bool, above: bool, before: Hash, final: Hash)
  {
    now == final && flag == above && (!flag ==> final == before)
  }

  /** The chunks before `c` are clean, their leaves rehashed if they were dirty, and nothing
      else is touched. */
  ghost predicate Rehashed(nodes: seq<Hash>, ns: seq<Hash>, cs: seq<bool>, ds: seq<bool>, marks: seq<bool>,
      tree: seq<Hash>, leaves: nat, c: nat)
    requires c <= |marks| <= |ds| && |marks| <= leaves && |cs| == |tree| == 2 * leaves <= |ns| == |nodes|
  {
    && (forall i | 0 <= i < |marks| :: ds[i] == (i >= c && marks[i]))
    && (forall j | 0 <= j < 2 * leaves ::
          cs[j] == (leaves <= j < leaves + c && marks[j - leaves]) && ns[j] == if cs[j] then tree[j] else nodes[j])
  }

  lemma RehashedAt(nodes: seq<Hash>, ns: seq<Hash>, cs: seq<bool>, ds: seq<bool>, marks: seq<bool>, tree: seq<Hash>,
      leaves: nat, c: nat)
    requires c < |marks| <= |ds| && |marks| <= leaves && |cs| == |tree| == 2 * leaves <= |ns| == |nodes|
    requires Rehashed(nodes, ns, cs, ds, marks, tree, leaves, c)
    ensures ds[c] == marks[c] && !cs[leaves + c] && ns[leaves + c] == nodes[leaves + c]
  {
  }

  lemma RehashStep(nodes: seq<Hash>, ns: seq<Hash>, cs: seq<bool>, ds: seq<bool>, marks: seq<bool>, tree: seq<Hash>,
      leaves: nat, c: nat)
    requires c < |marks| <= |ds| && |marks| <= leaves && |cs| == |tree| == 2 * leaves <= |ns| == |nodes|
    requires Rehashed(nodes, ns, cs, ds, marks, tree, leaves, c)
    ensures Rehashed(nodes, ns[leaves + c := if ds[c] then tree[leaves + c] else ns[leaves + c]],
                     cs[leaves + c := ds[c]], ds[c := false], marks, tree, leaves, c + 1)
  {
  }

  lemma RehashedAll(nodes: seq<Hash>, ns: seq<Hash>, cs: seq<bool>, ds: seq<bool>, marks: seq<bool>, tree: seq<Hash>,
      leaves: nat)
    requires |marks| <= |ds| && |marks| <= leaves && |cs| == |tree| == 2 * leaves <= |ns| == |nodes|
    requires Rehashed(nodes, ns, cs, ds, marks, tree, leaves, |marks|)
    ensures forall i | 0 <= i < |marks| :: !ds[i]
    ensures forall j | leaves <= j < leaves + |marks| ::
              cs[j] == marks[j - leaves] && ns[j] == if marks[j - leaves] then tree[j] else nodes[j]
    ensures forall j | 0 <= j < leaves || leaves + |marks| <= j < 2 * leaves :: !cs[j] && ns[j] == nodes[j]
  {
  }

  /** The nodes after `k` are settled and the inner ones up to `k` untouched. */
  ghost predicate Climbed(ns: seq<Hash>, cs: seq<bool>, ch: seq<bool>, node0: seq<Hash>, tree: seq<Hash>, k: nat)
    requires |node0| == |tree| == |cs| == 2 * |ch| <= |ns|
  {
    && (forall j | k < j < 2 * |ch| :: Finished(ns[j], cs[j], Above(ch, j), node0[j], tree[j]))
    && (forall j | 1 <= j <= k && j < 2 * |ch| :: ns[j] == node0[j] && !cs[j])
  }

  lemma ClimbedAt(ns: seq<Hash>, cs: seq<bool>, ch: seq<bool>, node0: seq<Hash>, tree: seq<Hash>, k: nat)
    requires |node0| == |tree| == |cs| == 2 * |ch| <= |ns| && 1 <= k < |ch|
    requires Climbed(ns, cs, ch, node0, tree, k)
    ensures Finished(ns[2 * k], cs[2 * k], Above(ch, 2 * k), node0[2 * k], tree[2 * k])
    ensures Finished(ns[2 * k + 1], cs[2 * k + 1], Above(ch, 2 * k + 1), node0[2 * k + 1], tree[2 * k + 1])
    ensures ns[k] == node0[k] && !cs[k]
  {
    hide Above, Finished;
  }

  lemma ClimbedAll(ns: seq<Hash>, cs: seq<bool>, ch: seq<bool>, node0: seq<Hash>, tree: seq<Hash>)
    requires |node0| == |tree| == |cs| == 2 * |ch| <= |ns|
    requires Climbed(ns, cs, ch, node0, tree, 0)
    ensures forall k | 1 <= k < 2 * |ch| :: ns[k] == tree[k]
  {
    hide Above;
  }

  lemma ClimbStep(ns: seq<Hash>, cs: seq<bool>, ns': seq<Hash>, cs': seq<bool>, ch: seq<bool>, node0: seq<Hash>,
      tree: seq<Hash>, k: nat)
    requires |node0| == |tree| == |cs| == |cs'| == 2 * |ch| <= |ns| == |ns'| && 1 <= k < |ch|
    requires Climbed(ns, cs, ch, node0, tree, k)
    requires ns' == ns[k := ns'[k]] && cs' == cs[k := cs'[k]]
    requires Finished(ns'[k], cs'[k], Above(ch, k), node0[k], tree[k])
    ensures Climbed(ns', cs', ch, node0, tree, k - 1)
  {
    hide Above, Finished;
  }

  /** An inner node not above a changed leaf was consistent with the nodes below it. */
  ghost predicate StaleOnlyAbove(h: TaggedHasher, ch: seq<bool>, node0: seq<Hash>)
    requires |node0| == 2 * |ch|
  {
    forall k | 1 <= k < |ch| :: Above(ch, k) || node0[k] == InnerValue(h, node0[2 * k], node0[2 * k + 1])
  }

  lemma InnerFinished(h: TaggedHasher, ch: seq<bool>, node0: seq<Hash>, tree: seq<Hash>, k: nat)
    requires |node0| == |tree| == 2 * |ch| && 1 <= k < |ch|
    requires Layered(h, |ch|, tree) && StaleOnlyAbove(h, ch, node0)
    ensures Above(ch, k) == (Above(ch, 2 * k) || Above(ch, 2 * k + 1))
    ensures tree[k] == InnerValue(h, tree[2 * k], tree[2 * k + 1])
    ensures tree[2 * k] == node0[2 * k] && tree[2 * k + 1] == node0[2 * k + 1] && !Above(ch, k) ==> tree[k] == node0[k]
  {
    AboveStep(ch, k);
    hide Above, InnerValue;
  }

  lemma AboveStep(ch: seq<bool>, k: nat)
    requires 1 <= k < |ch|
    ensures Above(ch, k) == (Above(ch, 2 * k) || Above(ch, 2 * k + 1))
  {
  }

  lemma AboveLeaves(ch: seq<bool>)
    ensures forall j | |ch| <= j < 2 * |ch| :: Above(ch, j) == ch[j - |ch|]
  {
  }

  lemma CountStep(ch: seq<bool>, lo: nat, hi: nat)
    requires 1 <= lo < hi <= 2 * |ch|
    ensures CountAbove(ch, lo, hi) == (if Above(ch, lo) then 1 else 0) + CountAbove(ch, lo + 1, hi)
  {
  }

  lemma NothingMarked(s: seq<bool>)
    ensures Marked(s[..0]) == {}
  {
  }

  lemma AllAreAbove(ch: seq<bool>)
    requires forall c | 0 <= c < |ch| :: ch[c]
    ensures forall k | 1 <= k < 2 * |ch| :: Above(ch, k)
  {
    forall k | 1 <= k < 2 * |ch|
      ensures Above(ch, k)
    {
      AllAbove(ch, k);
    }
  }

  lemma MarkedStep(s: seq<bool>, c: nat)
    requires c < |s|
    ensures |Marked(s[..c + 1])| == |Marked(s[..c])| + if s[c] then 1 else 0
  {
    if s[c] {
      assert Marked(s[..c + 1]) == Marked(s[..c]) + {c};
    } else {
      assert Marked(s[..c + 1]) == Marked(s[..c]);
    }
  }

  /** A real chunk starts inside the memory, and the short last one ends with it. */
  lemma ChunkInside(mem: seq<byte>, nc: nat, c: nat)
    requires c < nc && 4096 * (nc - 1) <= |mem|
    ensures c * 4096 <= |mem|
    ensures var end := if c * 4096 + 4096 > |mem| then |mem| else c * 4096 + 4096;
      ChunkAt(mem, c) == mem[c * 4096..end]
  {
  }

  /** After the first commit: inner hashes at most dirty chunks times the height. */
  lemma CommitCost(ch: seq<bool>, marks: seq<bool>, leaves: nat)
    requires |ch| == leaves && IsPow2(leaves) && |marks| <= leaves && marks == ch[..|marks|]
    ensures (forall c | |marks| <= c < leaves :: !ch[c]) ==> CountAbove(ch, 1, leaves) <= |Marked(marks)| * Log2(leaves)
  {
    if forall c | |marks| <= c < leaves :: !ch[c] {
      var d := Log2(leaves);
      NodesAtMost(ch, d);
      CountIsCard(ch, leaves);
      assert ch[..leaves] == ch;
      assert forall c: nat | c in Marked(ch) :: c < |marks| && marks[c];
      assert Marked(ch) == Marked(marks);
      assert d * |Marked(marks)| == |Marked(marks)| * d;
    }
  }

  lemma FitsIn256(nc: nat, nl: nat)
    requires 1 <= nc <= nl && IsPow2(nl) && (nl == 1 || nl / 2 < nc)
    ensures nl > MAX_CHUNKS <==> nc > MAX_CHUNKS
  {
    assert IsPow2(256);
    if nl > 256 {
      Pow2Below(256, nl);
    }
  }

  lemma TouchedRange(len: nat, offset: nat, data: seq<byte>, c: nat)
    requires data != [] && offset + |data| <= len
    ensures offset / 4096 <= c <= (offset + |data| - 1) / 4096 <==> Touches(len, (offset, data), c)
  {
  }

  lemma UntouchedLeaf(h: TaggedHasher, nc: nat, a: seq<byte>, w: (nat, seq<byte>), c: nat)
    requires w.1 != [] && w.0 + |w.1| <= |a| && !(c < nc && Touches(|a|, w, c))
    ensures LeafValue(h, a, nc, c) == LeafValue(h, AfterWrite(a, w), nc, c)
  {
    if c < nc {
      var b, e := AfterWrite(a, w), w.0 + |w.1|;
      assert a[..w.0] == b[..w.0] && a[e..] == b[e..];
      TouchedRange(|a|, w.0, w.1, c);
      hide AfterWrite, Touches, ChunkAt;
      UntouchedChunk(a, b, w.0, |w.1|, c);
    }
  }

  lemma UntouchedChunk(a: seq<byte>, b: seq<byte>, offset: nat, len: nat, c: nat)
    requires |a| == |b| && len > 0 && offset + len <= |a|
    requires a[..offset] == b[..offset] && a[offset + len..] == b[offset + len..]
    requires c < offset / 4096 || c > (offset + len - 1) / 4096
    ensures ChunkAt(a, c) == ChunkAt(b, c)
  {
    ChunkApart(offset, len, c);
    var lo, hi := 4096 * c, 4096 * (c + 1);
    forall k | lo <= k < hi && k < |a|
      ensures a[k] == b[k]
    {
      if k < offset {
        assert a[k] == a[..offset][k] && b[k] == b[..offset][k];
      } else {
        var e := offset + len;
        assert a[k] == a[e..][k - e] && b[k] == b[e..][k - e];
      }
    }
    if lo < |a| {
      SameSlice(a, b, lo, if hi > |a| then |a| else hi);
    }
  }

  lemma SameSlice(a: seq<byte>, b: seq<byte>, lo: nat, hi: nat)
    requires lo <= hi <= |a| == |b| && forall k | lo <= k < hi :: a[k] == b[k]
    ensures a[lo..hi] == b[lo..hi]
  {
  }

  lemma ChunkApart(offset: nat, len: nat, c: nat)
    requires len > 0 && (c < offset / 4096 || c > (offset + len - 1) / 4096)
    ensures 4096 * (c + 1) <= offset || offset + len <= 4096 * c
  {
  }
}
