/** The incremental chunk state of `blake3.c`: up to one chunk is absorbed block by
    block, the last block always staying uncompressed in the buffer. */
module Blake3Chunk {
  import opened Bits
  import opened Blake3Spec

  class ChunkState {
    const p: Params
    var cv: CV
    var counter: nat
    var buf: Bytes
    var bufLen: nat
    var blocksCompressed: nat
    ghost var Data: Bytes

    /** The state holds the first `n` bytes of `data`, whole blocks compressed. */
    ghost predicate Absorbed(data: Bytes, n: nat)
      reads this`cv, this`counter, this`buf, this`bufLen, this`blocksCompressed
    {
      && n <= |data| && bufLen <= 64 && 64 * blocksCompressed + bufLen == n
      && cv == ChunkChain(p, counter, data, blocksCompressed)
      && buf == Pad(data[64 * blocksCompressed..n])
    }

    ghost predicate Valid()
      reads this
    {
      && |Data| <= 1024
      && Absorbed(Data, |Data|)
      && (Data != [] ==> bufLen > 0)
    }

    constructor (p: Params, counter: nat)
      ensures Valid() && Data == [] && this.p == p && this.counter == counter
    {
      this.p := p;
      cv := p.key;
      this.counter := counter;
      buf := Zeros(64);
      bufLen := 0;
      blocksCompressed := 0;
      Data := [];
    }

    method Reset(counter: nat)
      modifies this
      ensures Valid() && Data == [] && this.counter == counter
    {
      cv := p.key;
      this.counter := counter;
      blocksCompressed := 0;
      buf := Zeros(64);
      bufLen := 0;
      Data := [];
    }

    /** Move an empty chunk state past `chunks` chunks that were hashed directly. */
    method Advance(chunks: nat)
      requires Valid() && Data == []
      modifies this`counter
      ensures Valid() && counter == old(counter) + chunks
    {
      counter := counter + chunks;
    }

    function Len(): (n: nat)
      requires Valid()
      reads this
      ensures n == |Data|
    {
      64 * blocksCompressed + bufLen
    }

    function MaybeStartFlag(): bv8
      reads this
    {
      if blocksCompressed == 0 then CHUNK_START else 0
    }

    method FillBuf(input: Bytes, ghost data: Bytes, ghost n: nat) returns (take: nat)
      requires Absorbed(data, n) && n + |input| <= |data| && data[n..n + |input|] == input
      modifies this`buf, this`bufLen
      ensures take <= |input| && (take == |input| || bufLen == 64)
      ensures Absorbed(data, n + take)
      ensures bufLen == old(bufLen) + take
    {
      take := 64 - bufLen;
      if take > |input| {
        take := |input|;
      }
      buf := buf[..bufLen] + input[..take] + buf[bufLen + take..];
      bufLen := bufLen + take;
      assert data[n..n + take] == input[..take];
      assert data[64 * blocksCompressed..n + take] == data[64 * blocksCompressed..n] + data[n..n + take];
    }

    /** Compress one full block, taken from the buffer or straight from the input. */
    method CompressBlock(block: Bytes, ghost data: Bytes, ghost n: nat)
      requires bufLen == 0 && Absorbed(data, n) && n + 64 <= |data| && block == data[n..n + 64]
      modifies this`cv, this`blocksCompressed
      ensures Absorbed(data, n + 64)
    {
      cv := p.compress(cv, block, 64, counter, p.flags | MaybeStartFlag());
      blocksCompressed := blocksCompressed + 1;
    }

    method Update(input: Bytes)
      requires Valid() && |Data| + |input| <= 1024
      modifies this
      ensures Valid() && Data == old(Data) + input && counter == old(counter)
    {
      hide ChunkChain, Pad, Absorbed;
      ghost var data := Data + input;
      ghost var n := |Data|;
      Extend(data);
      Suffix(Data, input);
      var pos := TopUp(input, data, n);
      AbsorbRest(input[pos..], data, n + pos);
    }

    /** Fill a partly filled buffer and compress it if more input follows. */
    method TopUp(input: Bytes, ghost data: Bytes, ghost n: nat) returns (pos: nat)
      requires Absorbed(data, n) && |data| == n + |input| && data[n..] == input
      requires n > 0 ==> bufLen > 0
      modifies this
      ensures pos <= |input| && Absorbed(data, n + pos) && data[n + pos..] == input[pos..]
      ensures if bufLen == 0 then data == [] || pos < |input| else pos == |input|
      ensures counter == old(counter) && Data == old(Data)
    {
      pos := 0;
      if bufLen > 0 {
        pos := FillBuf(input, data, n);
        if pos < |input| {
          FlushBuf(data, n + pos);
        }
      }
    }

    method AbsorbRest(input: Bytes, ghost data: Bytes, ghost n: nat)
      requires Absorbed(data, n) && |data| == n + |input| && data[n..] == input
      requires if bufLen == 0 then data == [] || input != [] else input == []
      requires |data| <= 1024
      modifies this
      ensures Valid() && Data == data && counter == old(counter)
    {
      var pos := 0;
      while |input| - pos > 64
        invariant pos <= |input| && (input != [] ==> pos < |input|)
        invariant Absorbed(data, n + pos) && counter == old(counter) && bufLen == old(bufLen)
      {
        assert input[pos..pos + 64] == data[n + pos..n + pos + 64];
        CompressBlock(input[pos..pos + 64], data, n + pos);
        pos := pos + 64;
      }
      var _ := FillBuf(input[pos..], data, n + pos);
      Data := data;
    }

    method FlushBuf(ghost data: Bytes, ghost n: nat)
      requires Absorbed(data, n) && bufLen == 64
      modifies this
      ensures Absorbed(data, n) && bufLen == 0
      ensures counter == old(counter) && Data == old(Data)
    {
      assert buf == data[n - 64..n];
      cv := p.compress(cv, buf, 64, counter, p.flags | MaybeStartFlag());
      blocksCompressed := blocksCompressed + 1;
      bufLen := 0;
      buf := Zeros(64);
    }

    lemma Extend(data: Bytes)
      requires Valid() && Data <= data
      ensures Absorbed(data, |Data|)
    {
      ChunkChainPrefix(p, counter, Data, data, blocksCompressed);
    }

    /** `chunk_state_output`. */
    method Finish() returns (o: Output)
      requires Valid()
      ensures o == ChunkOutput(p, counter, Data)
    {
      o := Output(cv, buf, bufLen, counter, p.flags | MaybeStartFlag() | CHUNK_END);
      assert blocksCompressed == BlocksBeforeLast(|Data|);
    }
  }

  lemma Suffix(a: Bytes, b: Bytes)
    ensures (a + b)[|a|..] == b && a <= a + b
  {
  }

  lemma {:induction false} ChunkChainPrefix(p: Params, counter: nat, a: Bytes, b: Bytes, n: nat)
    requires a <= b && 64 * n <= |a|
    ensures ChunkChain(p, counter, a, n) == ChunkChain(p, counter, b, n)
  {
    if n > 0 {
      ChunkChainPrefix(p, counter, a, b, n - 1);
      assert a[64 * (n - 1)..64 * n] == b[64 * (n - 1)..64 * n];
    }
  }

  /** One lane of `blake3_hash_many` over a whole chunk of 16 blocks. */
  method HashWholeChunk(p: Params, counter: nat, data: Bytes) returns (cv: CV)
    requires |data| == 1024
    ensures cv == TreeCv(p, counter, data)
  {
    cv := HashBlocks(p, counter, data);
    WholeChunk(p, counter, data);
    cv := p.compress(cv, data[960..], 64, counter, p.flags | CHUNK_END);
  }

  method HashBlocks(p: Params, counter: nat, data: Bytes) returns (cv: CV)
    requires |data| == 1024
    ensures cv == ChunkChain(p, counter, data, 15)
  {
    cv := p.key;
    var flags := p.flags | CHUNK_START;
    var block := 0;
    while block < 15
      invariant 0 <= block <= 15
      invariant cv == ChunkChain(p, counter, data, block)
      invariant flags == p.flags | StartFlag(block)
    {
      cv := p.compress(cv, data[64 * block..64 * (block + 1)], 64, counter, flags);
      block := block + 1;
      flags := p.flags;
    }
  }

  lemma WholeChunk(p: Params, counter: nat, data: Bytes)
    requires |data| == 1024
    ensures TreeCv(p, counter, data) ==
            p.compress(ChunkChain(p, counter, data, 15), data[960..], 64, counter, p.flags | CHUNK_END)
  {
    var last := data[960..];
    assert Pad(last) == last;
    assert BlocksBeforeLast(|data|) == 15;
  }

  lemma OneChunkTree(p: Params, counter: nat, data: Bytes)
    requires |data| <= 1024
    ensures TreeCv(p, counter, data) == ChainingValue(p, ChunkOutput(p, counter, data))
  {
    hide ChunkOutput, ChainingValue;
  }

  /** A partial chunk hashed on its own. */
  method HashPartialChunk(p: Params, counter: nat, data: Bytes) returns (cv: CV)
    requires |data| <= 1024
    ensures cv == TreeCv(p, counter, data)
  {
    hide ChunkChain, Pad, ChunkState.Valid, ChunkOutput, ChainingValue, TreeOutput;
    var state := new ChunkState(p, counter);
    state.Update(data);
    assert state.Data == data;
    var o := state.Finish();
    cv := ChainingValue(p, o);
    OneChunkTree(p, counter, data);
  }
}
