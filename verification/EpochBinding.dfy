/** What the root of an epoch stands for: the Merkle root of the chunks in order, and thereby,
    short of a collision, the whole memory. */
module EpochBinding {
  import opened Bits
  import opened ObjectStore
  import opened EpochTree

  // ----- the root as a fold over the chunks

  /** The Merkle root of a list of contents, split in the middle. */
  function MerkleRoot(h: TaggedHasher, contents: seq<seq<byte>>): Hash
    requires contents != []
    decreases |contents|
  {
    if |contents| == 1 then h(0, contents[0])
    else
      var mid := |contents| / 2;
      h(1, MerkleRoot(h, contents[..mid]) + MerkleRoot(h, contents[mid..]))
  }

  /** The memory in pieces of 4096 bytes, the last one possibly short, then empty ones. */
  function Pieces(mem: seq<byte>, n: nat): (ps: seq<seq<byte>>)
    ensures |ps| == n
    decreases n
  {
    if n == 0 then []
    else
      var cut := if |mem| < 4096 then |mem| else 4096;
      [mem[..cut]] + Pieces(mem[cut..], n - 1)
  }

  lemma {:induction false} PieceIsChunk(mem: seq<byte>, n: nat, c: nat)
    requires c < n
    ensures Pieces(mem, n)[c] == ChunkAt(mem, c)
  {
    var cut := if |mem| < 4096 then |mem| else 4096;
    FirstPiece(mem, n);
    hide Pieces, ChunkAt;
    if c > 0 {
      PieceIsChunk(mem[cut..], n - 1, c - 1);
      NextChunk(mem, cut, c);
    }
  }

  lemma FirstPiece(mem: seq<byte>, n: nat)
    requires n > 0
    ensures var cut := if |mem| < 4096 then |mem| else 4096;
      Pieces(mem, n)[0] == ChunkAt(mem, 0) && Pieces(mem, n)[1..] == Pieces(mem[cut..], n - 1)
  {
  }

  lemma NextChunk(mem: seq<byte>, cut: nat, c: nat)
    requires c > 0 && cut == if |mem| < 4096 then |mem| else 4096
    ensures ChunkAt(mem[cut..], c - 1) == ChunkAt(mem, c)
  {
  }

  /** The chunks counted cover the memory. */
  predicate Covered(mem: seq<byte>, nc: nat, leaves: nat)
  {
    |mem| <= 4096 * nc && nc <= leaves
  }

  lemma LeafContent(h: TaggedHasher, mem: seq<byte>, nc: nat, leaves: nat, c: nat)
    requires Covered(mem, nc, leaves)
    ensures LeafValue(h, mem, nc, c) == h(0, ChunkAt(mem, c))
  {
  }

  lemma MerkleJoin(h: TaggedHasher, ps: seq<seq<byte>>, lo: nat, half: nat)
    requires half >= 1 && lo + 2 * half <= |ps|
    ensures MerkleRoot(h, ps[lo..lo + 2 * half]) ==
            h(1, MerkleRoot(h, ps[lo..lo + half]) + MerkleRoot(h, ps[lo + half..lo + 2 * half]))
  {
    var all, a, b := ps[lo..lo + 2 * half], ps[lo..lo + half], ps[lo + half..lo + 2 * half];
    assert all == a + b;
    MerkleTwo(h, a, b);
  }

  lemma MerkleTwo(h: TaggedHasher, a: seq<seq<byte>>, b: seq<seq<byte>>)
    requires |a| == |b| >= 1
    ensures MerkleRoot(h, a + b) == h(1, MerkleRoot(h, a) + MerkleRoot(h, b))
  {
    assert (a + b)[..|a|] == a && (a + b)[|a|..] == b;
  }

  lemma LeafIsMerkle(h: TaggedHasher, mem: seq<byte>, nc: nat, leaves: nat, c: nat)
    requires Covered(mem, nc, leaves) && c < leaves
    ensures NodeValue(h, mem, nc, leaves, leaves + c) == MerkleRoot(h, Pieces(mem, leaves)[c..c + 1])
  {
    hide LeafValue, ChunkAt, Pieces;
    PieceIsChunk(mem, leaves, c);
    LeafContent(h, mem, nc, leaves, c);
    assert Pieces(mem, leaves)[c..c + 1] == [ChunkAt(mem, c)];
  }

  /** Node `k` of the heap-ordered tree is `s` leaves wide, from leaf `lo` on. */
  predicate Spans(leaves: nat, k: nat, s: nat, lo: nat)
  {
    IsPow2(s) && k >= 1 && leaves + lo == k * s && lo + s <= leaves
  }

  lemma SpansBelow(leaves: nat, k: nat, s: nat, lo: nat)
    requires Spans(leaves, k, s, lo)
    ensures k >= 1 && s >= 1 && lo + s <= leaves && (s == 1 ==> k == leaves + lo)
    ensures s > 1 ==>
              && s == 2 * (s / 2) && k < leaves
              && Spans(leaves, 2 * k, s / 2, lo) && Spans(leaves, 2 * k + 1, s / 2, lo + s / 2)
  {
    if s > 1 {
      Halves(k, s / 2);
      InnerBelow(k, s, leaves, lo);
    }
  }

  lemma {:induction false} NodeIsMerkle(h: TaggedHasher, mem: seq<byte>, nc: nat, leaves: nat, k: nat, s: nat, lo: nat)
    requires Covered(mem, nc, leaves) && Spans(leaves, k, s, lo)
    ensures k >= 1 && 1 <= s && lo + s <= leaves
    ensures NodeValue(h, mem, nc, leaves, k) == MerkleRoot(h, Pieces(mem, leaves)[lo..lo + s])
    decreases s
  {
    hide MerkleRoot, Pieces, NodeValue, Spans, Covered;
    SpansBelow(leaves, k, s, lo);
    if s == 1 {
      LeafIsMerkle(h, mem, nc, leaves, lo);
    } else {
      HeapStep(h, mem, nc, leaves, k);
      NodeIsMerkle(h, mem, nc, leaves, 2 * k, s / 2, lo);
      NodeIsMerkle(h, mem, nc, leaves, 2 * k + 1, s / 2, lo + s / 2);
      MerkleJoin(h, Pieces(mem, leaves), lo, s / 2);
    }
  }

  lemma HeapStep(h: TaggedHasher, mem: seq<byte>, nc: nat, leaves: nat, k: nat)
    requires 1 <= k < leaves
    ensures NodeValue(h, mem, nc, leaves, k) ==
            h(1, NodeValue(h, mem, nc, leaves, 2 * k) + NodeValue(h, mem, nc, leaves, 2 * k + 1))
  {
  }

  lemma Halves(k: nat, half: nat)
    ensures (2 * k) * half == k * (2 * half) && (2 * k + 1) * half == k * (2 * half) + half
  {
  }

  lemma InnerBelow(k: nat, s: nat, leaves: nat, lo: nat)
    requires s >= 2 && leaves + lo == k * s && lo + s <= leaves
    ensures k < leaves
  {
    if k >= leaves {
      MulGrows(k, s);
    }
  }

  lemma MulGrows(k: nat, s: nat)
    requires s >= 2
    ensures k * s >= 2 * k
  {
  }

  /** The root is the Merkle root of the memory's pieces. */
  lemma RootIsMerkle(h: TaggedHasher, mem: seq<byte>, nc: nat, leaves: nat)
    requires Covered(mem, nc, leaves) && IsPow2(leaves)
    ensures NodeValue(h, mem, nc, leaves, 1) == MerkleRoot(h, Pieces(mem, leaves))
  {
    hide NodeValue, MerkleRoot, IsPow2;
    NodeIsMerkle(h, mem, nc, leaves, 1, leaves, 0);
    assert Pieces(mem, leaves)[..leaves] == Pieces(mem, leaves);
  }

  // ----- the root binds the memory

  /** A memory with the shape of its tree. */
  datatype Image = Image(mem: seq<byte>, nc: nat, leaves: nat)
  {
    predicate Ok()
    {
      Covered(mem, nc, leaves) && IsPow2(leaves)
    }
  }

  function Value(h: TaggedHasher, x: Image, k: nat): Hash
    requires 1 <= k
  {
    NodeValue(h, x.mem, x.nc, x.leaves, k)
  }

  /** What is hashed at node `k`: tag and content. */
  function Hashed(h: TaggedHasher, x: Image, k: nat): (byte, seq<byte>)
    requires 1 <= k
  {
    if k < x.leaves then (1, Value(h, x, 2 * k) + Value(h, x, 2 * k + 1)) else (0, ChunkAt(x.mem, k - x.leaves))
  }

  lemma ValueIsHashed(h: TaggedHasher, x: Image, k: nat)
    requires x.Ok() && 1 <= k
    ensures Value(h, x, k) == h(Hashed(h, x, k).0, Hashed(h, x, k).1)
  {
    if k >= x.leaves {
      LeafContent(h, x.mem, x.nc, x.leaves, k - x.leaves);
    }
  }

  /** At the same node of both trees different inputs got the same hash. */
  predicate Collision(h: TaggedHasher, x: Image, y: Image, k: nat)
    requires 1 <= k
  {
    var p, q := Hashed(h, x, k), Hashed(h, y, k);
    p != q && h(p.0, p.1) == h(q.0, q.1)
  }

  ghost predicate Collides(h: TaggedHasher, x: Image, y: Image)
  {
    exists k: nat | 1 <= k < 2 * x.leaves && k < 2 * y.leaves :: Collision(h, x, y, k)
  }

  /** Without a collision, equality goes from the root down to every node both trees have. */
  lemma {:induction false} SameBelow(h: TaggedHasher, x: Image, y: Image, k: nat)
    requires x.Ok() && y.Ok() && !Collides(h, x, y) && Value(h, x, 1) == Value(h, y, 1)
    requires 1 <= k < 2 * x.leaves && k < 2 * y.leaves
    ensures Value(h, x, k) == Value(h, y, k) && Hashed(h, x, k) == Hashed(h, y, k)
  {
    hide Value, ChunkAt;
    if k > 1 {
      var up := k / 2;
      SameBelow(h, x, y, up);
      var l, r := Value(h, x, 2 * up), Value(h, x, 2 * up + 1);
      var l', r' := Value(h, y, 2 * up), Value(h, y, 2 * up + 1);
      SplitEven(l, r, l', r');
    }
    ValueIsHashed(h, x, k);
    ValueIsHashed(h, y, k);
    assert !Collision(h, x, y, k);
  }

  lemma SplitEven(l: seq<byte>, r: seq<byte>, l': seq<byte>, r': seq<byte>)
    requires |l| == |r| == |l'| == |r'| == 32 && l + r == l' + r'
    ensures l == l' && r == r'
  {
    assert l == (l + r)[..32] && r == (l + r)[32..];
    assert l' == (l' + r')[..32] && r' == (l' + r')[32..];
  }

  /** Two memories, of whatever lengths, with the same root are the same, or the two trees show
      a collision of the hash function. */
  lemma RootBindsMemory(h: TaggedHasher, x: Image, y: Image)
    requires x.Ok() && y.Ok() && Value(h, x, 1) == Value(h, y, 1)
    ensures x.mem == y.mem || Collides(h, x, y)
  {
    hide Value, ChunkAt, IsPow2, Covered;
    if !Collides(h, x, y) {
      SameWidth(h, x, y);
      var n := x.leaves;
      forall c: nat | c < n
        ensures ChunkAt(x.mem, c) == ChunkAt(y.mem, c)
      {
        SameBelow(h, x, y, n + c);
      }
      CoveredLength(x);
      CoveredLength(y);
      ChunksTell(x.mem, y.mem, n);
    }
  }

  lemma CoveredLength(x: Image)
    requires x.Ok()
    ensures |x.mem| <= 4096 * x.leaves && x.leaves >= 1
  {
  }

  lemma SameWidth(h: TaggedHasher, x: Image, y: Image)
    requires x.Ok() && y.Ok() && !Collides(h, x, y) && Value(h, x, 1) == Value(h, y, 1)
    ensures x.leaves == y.leaves
  {
    hide Value, ChunkAt, Collides;
    CoveredLength(x);
    CoveredLength(y);
    var k := if x.leaves < y.leaves then x.leaves else y.leaves;
    SameBelow(h, x, y, k);
  }

  lemma ChunksTell(a: seq<byte>, b: seq<byte>, n: nat)
    requires |a| <= 4096 * n && |b| <= 4096 * n
    requires forall c: nat | c < n :: ChunkAt(a, c) == ChunkAt(b, c)
    ensures a == b
  {
    hide ChunkAt, Pieces;
    forall c | 0 <= c < n
      ensures Pieces(a, n)[c] == Pieces(b, n)[c]
    {
      PieceIsChunk(a, n, c);
      PieceIsChunk(b, n, c);
    }
    assert Pieces(a, n) == Pieces(b, n);
    PiecesTell(a, b, n);
  }

  /** Nothing is lost by cutting up. */
  lemma {:induction false} PiecesTell(a: seq<byte>, b: seq<byte>, n: nat)
    requires |a| <= 4096 * n && |b| <= 4096 * n && Pieces(a, n) == Pieces(b, n)
    ensures a == b
  {
    if n > 0 {
      var i, j := if |a| < 4096 then |a| else 4096, if |b| < 4096 then |b| else 4096;
      var ps, qs := Pieces(a, n), Pieces(b, n);
      assert ps[0] == a[..i] && qs[0] == b[..j] && ps[1..] == Pieces(a[i..], n - 1) && qs[1..] == Pieces(b[j..], n - 1);
      PiecesTell(a[i..], b[j..], n - 1);
      assert a == a[..i] + a[i..] && b == b[..j] + b[j..];
    }
  }

  // ----- carried to the epochs

  ghost function ImageOf(e: Epoch): Image
    reads e, e.mem
  {
    Image(e.mem[..], e.nChunks, e.nLeaves)
  }

  /** The epoch covers its memory: the count has not wrapped around. */
  ghost predicate Covering(e: Epoch)
    reads e
  {
    e.Shape() && e.valid && e.mem.Length <= 4096 * MAX_CHUNKS
  }

  lemma ImageIsOk(e: Epoch)
    requires Covering(e)
    ensures ImageOf(e).Ok() && e.Full(1) == Value(e.h, ImageOf(e), 1)
  {
    hide NodeValue, IsPow2;
  }

  /** A commit returns the Merkle root of the memory's pieces. */
  method CommitMerkle(e: Epoch) returns (root: Hash)
    requires e.Valid() && Covering(e)
    modifies e, e.node, e.dirty
    ensures e.Valid() && e.nLeaves == old(e.nLeaves) >= 1 && root == MerkleRoot(e.h, Pieces(e.mem[..], e.nLeaves))
  {
    hide Epoch.Valid, NodeValue, MerkleRoot, Pieces;
    var r := e.Commit();
    root := r.value;
    ShapeOf(e);
    ImageIsOk(e);
    hide IsPow2;
    RootIsMerkle(e.h, e.mem[..], e.nChunks, e.nLeaves);
  }

  /** Two commits under one hash function with the same root: the same memory, or a collision. */
  method CommitBoth(e: Epoch, f: Epoch) returns (same: bool)
    requires e.Valid() && f.Valid() && Covering(e) && Covering(f) && e.h == f.h
    requires e != f && e.node != f.node && e.dirty != f.dirty
    modifies e, e.node, e.dirty, f, f.node, f.dirty
    ensures same ==> e.mem[..] == f.mem[..] || Collides(e.h, ImageOf(e), ImageOf(f))
    ensures e.mem[..] == f.mem[..] && e.nLeaves == f.nLeaves ==> same
  {
    hide Epoch.Valid, NodeValue, Collides;
    ShapeOf(e);
    ShapeOf(f);
    var r := e.Commit();
    var s := f.Commit();
    same := r == s;
    ImageIsOk(e);
    ImageIsOk(f);
    if same {
      RootBindsMemory(e.h, ImageOf(e), ImageOf(f));
    }
  }

  /** The root after an epoch of writes is the one before exactly if the memory is, short of a
      collision. */
  method RootTracksMemory(e: Epoch, writes: seq<(nat, seq<byte>)>) returns (same: bool)
    requires e.Valid() && Covering(e) && e.committed && e.node[1] == e.Full(1)
    requires forall c | 0 <= c < e.nChunks :: !e.dirty[c]
    modifies e, e.mem, e.node, e.dirty
    ensures e.Valid() && e.mem[..] == AfterWrites(old(e.mem[..]), writes)
    ensures e.mem[..] == old(e.mem[..]) ==> same
    ensures same ==> e.mem[..] == old(e.mem[..]) || Collides(e.h, old(ImageOf(e)), ImageOf(e))
  {
    hide Epoch.Valid, NodeValue, AfterWrites, Collides;
    var before := e.node[1];
    ghost var x := ImageOf(e);
    ImageIsOk(e);
    var r := e.RunEpoch(writes);
    same := r.value == before;
    ShapeOf(e);
    ImageIsOk(e);
    if same {
      RootBindsMemory(e.h, x, ImageOf(e));
    }
  }
}
