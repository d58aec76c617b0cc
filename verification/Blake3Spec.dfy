/** The tree hash of the BLAKE3 specification: chunks (section 2.4), parent nodes
    (section 2.5) and the left-balanced binary tree over them (section 2.1). The
    compression function is a parameter: nothing here depends on its rounds.
    A block is 64 bytes and a chunk 1024. */
module Blake3Spec {
  import opened Bits

  const CHUNK_START: bv8 := 1
  const CHUNK_END: bv8 := 2
  const PARENT: bv8 := 4
  const ROOT: bv8 := 8

  type Bytes = seq<bv8>

  /** A chaining value, in the byte form in which it enters a parent block. */
  datatype CV = CV(bytes: Bytes)

  /** Compression of (chaining value, block, block length, counter, flags), in its
      32-byte and its 64-byte extendable form, with the key words and mode flags. */
  datatype Params = Params(
    compress: (CV, Bytes, nat, nat, bv8) -> CV,
    xof: (CV, Bytes, nat, nat, bv8) -> Bytes,
    key: CV,
    flags: bv8)

  /** A node whose last compression is still to be done, as root or as inner node. */
  datatype Output = Output(inputCv: CV, block: Bytes, blockLen: nat, counter: nat, flags: bv8)

  function ChainingValue(p: Params, o: Output): CV
  {
    p.compress(o.inputCv, o.block, o.blockLen, o.counter, o.flags)
  }

  function Zeros(n: nat): (s: Bytes)
    ensures |s| == n
  {
    seq(n, _ => 0)
  }

  function Pad(s: Bytes): (b: Bytes)
    requires |s| <= 64
    ensures |b| == 64
  {
    s + Zeros(64 - |s|)
  }

  function StartFlag(block: nat): bv8
  {
    if block == 0 then CHUNK_START else 0
  }

  /** The chaining value after the first `n` blocks of a chunk. */
  function ChunkChain(p: Params, counter: nat, data: Bytes, n: nat): CV
    requires 64 * n <= |data|
  {
    if n == 0 then p.key
    else p.compress(ChunkChain(p, counter, data, n - 1), data[64 * (n - 1)..64 * n],
                    64, counter, p.flags | StartFlag(n - 1))
  }

  /** The number of blocks before the last one, which is never empty unless the chunk is. */
  function BlocksBeforeLast(len: nat): nat
  {
    if len == 0 then 0 else (len - 1) / 64
  }

  function ChunkOutput(p: Params, counter: nat, data: Bytes): Output
  {
    var n := BlocksBeforeLast(|data|);
    var last := data[64 * n..];
    Output(ChunkChain(p, counter, data, n), Pad(last), |last|, counter, p.flags | StartFlag(n) | CHUNK_END)
  }

  function ParentOutput(p: Params, left: CV, right: CV): Output
  {
    Output(p.key, left.bytes + right.bytes, 64, 0, p.flags | PARENT)
  }

  function ParentCv(p: Params, left: CV, right: CV): CV
  {
    ChainingValue(p, ParentOutput(p, left, right))
  }

  /** The bytes of the left subtree: the largest power of two of whole chunks that
      leaves at least one byte for the right one. */
  function LeftLen(len: nat): (l: nat)
    requires len > 1024
    ensures 1024 <= l < len <= 2 * l
    ensures l % 1024 == 0 && IsPow2(l / 1024)
  {
    RoundDownPow2((len - 1) / 1024) * 1024
  }

  function TreeOutput(p: Params, counter: nat, data: Bytes): Output
    decreases |data|, 0
  {
    if |data| <= 1024 then ChunkOutput(p, counter, data)
    else
      var l := LeftLen(|data|);
      ParentOutput(p, TreeCv(p, counter, data[..l]), TreeCv(p, counter + l / 1024, data[l..]))
  }

  function TreeCv(p: Params, counter: nat, data: Bytes): CV
    decreases |data|, 1
  {
    ChainingValue(p, TreeOutput(p, counter, data))
  }

  /** Block `counter` of the extendable output of the root node `o`: 64 bytes. */
  function XofBlock(p: Params, o: Output, counter: nat): (b: Bytes)
    ensures |b| == 64
  {
    var b := p.xof(o.inputCv, o.block, o.blockLen, counter, o.flags | ROOT);
    if |b| == 64 then b else Zeros(64)
  }

  function RootByte(p: Params, o: Output, i: nat): bv8
  {
    XofBlock(p, o, i / 64)[i % 64]
  }

  /** Output bytes `seek .. seek + n` of the root node `o`. */
  function RootBytes(p: Params, o: Output, seek: nat, n: nat): (h: Bytes)
    ensures |h| == n && forall i :: 0 <= i < n ==> h[i] == RootByte(p, o, seek + i)
  {
    seq(n, i requires 0 <= i => RootByte(p, o, seek + i))
  }

  /** Output bytes `seek .. seek + n` of the hash of `data`. */
  function Hash(p: Params, data: Bytes, seek: nat, n: nat): Bytes
  {
    RootBytes(p, TreeOutput(p, 0, data), seek, n)
  }

  /** Any power-of-two split with the right part no longer than the left and not
      empty is the split of the tree. */
  lemma SplitAt(p: Params, counter: nat, data: Bytes, l: nat)
    requires l % 1024 == 0 && IsPow2(l / 1024) && l < |data| <= 2 * l
    ensures TreeOutput(p, counter, data) ==
            ParentOutput(p, TreeCv(p, counter, data[..l]), TreeCv(p, counter + l / 1024, data[l..]))
  {
    LeftLenIs(|data|, l);
  }

  lemma LeftLenIs(len: nat, l: nat)
    requires l % 1024 == 0 && IsPow2(l / 1024) && l < len <= 2 * l
    ensures LeftLen(len) == l
  {
    var full := (len - 1) / 1024;
    Pow2Unique(l / 1024, RoundDownPow2(full), full);
  }
}
