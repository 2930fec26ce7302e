/** One chunk, fed incrementally (the chunk_state functions of blake3.c). */
module Chunks {
  import opened Bits
  import opened Tree
  import opened Words

  lemma {:induction false} ChainPrefix(m: Mode, a: seq<Byte>, b: seq<Byte>, counter: nat, n: nat)
    requires BLOCK_LEN * n <= |a|
    ensures ChainBlocks(m, a + b, counter, n) == ChainBlocks(m, a, counter, n)
  {
    if n > 0 {
      ChainPrefix(m, a, b, counter, n - 1);
      var lo, hi := BLOCK_LEN * (n - 1), BLOCK_LEN * n;
      assert (a + b)[lo..hi] == a[lo..hi];
    }
  }

  class ChunkState {
    const f: Compression
    var cv: CV
    var chunkCounter: nat
    const buf: array<Byte>
    var bufLen: nat
    var blocksCompressed: nat
    var flags: Flags
    /** The key the chunk was started with, and the bytes it was given since. */
    ghost var key: CV
    ghost var bytes: seq<Byte>

    ghost function CurrentMode(): Mode
      reads this
    {
      Mode(f, key, flags)
    }

    /** The fields stand for `bytes`: whole blocks folded into `cv`, the rest in the zero-padded buffer. */
    ghost predicate Holds()
      reads this, buf
    {
      && buf.Length == BLOCK_LEN
      && |bytes| <= CHUNK_LEN
      && BLOCK_LEN * blocksCompressed + bufLen == |bytes|
      && bufLen <= BLOCK_LEN
      && cv == ChainBlocks(CurrentMode(), bytes, chunkCounter, blocksCompressed)
      && buf[..] == Pad(bytes[BLOCK_LEN * blocksCompressed..])
    }

    /** Between calls the last block, full or not, is always held back in the buffer. */
    ghost predicate Valid()
      reads this, buf
    {
      Holds() && blocksCompressed == BlocksBeforeLast(|bytes|)
    }

    constructor (f: Compression, key: CV, flags: Flags)
      ensures Valid() && fresh(buf) && this.f == f && this.key == key && this.flags == flags
      ensures bytes == [] && chunkCounter == 0
    {
      this.f := f;
      cv := key;
      chunkCounter := 0;
      buf := new Byte[64](_ => 0);
      bufLen := 0;
      blocksCompressed := 0;
      this.flags := flags;
      this.key := key;
      bytes := [];
    }

    method Reset(key: CV, chunkCounter: nat)
      requires buf.Length == BLOCK_LEN
      modifies this, buf
      ensures Valid() && this.key == key && flags == old(flags) && this.chunkCounter == chunkCounter && bytes == []
    {
      cv := key;
      this.chunkCounter := chunkCounter;
      blocksCompressed := 0;
      ClearBuf();
      bufLen := 0;
      this.key := key;
      bytes := [];
    }

    method ClearBuf()
      requires buf.Length == BLOCK_LEN
      modifies buf
      ensures buf[..] == Pad([])
    {
      forall i | 0 <= i < buf.Length {
        buf[i] := 0;
      }
    }

    method Len() returns (n: nat)
      requires Holds()
      ensures n == |bytes|
    {
      n := BLOCK_LEN * blocksCompressed + bufLen;
    }

    method FillBuf(input: seq<Byte>) returns (take: nat)
      requires Holds() && |bytes| + |input| <= CHUNK_LEN
      modifies this`bufLen, this`bytes, buf
      ensures Holds() && take == (if |input| < BLOCK_LEN - old(bufLen) then |input| else BLOCK_LEN - old(bufLen))
      ensures bytes == old(bytes) + input[..take] && bufLen == old(bufLen) + take
    {
      hide ChainBlocks;
      take := BLOCK_LEN - bufLen;
      if take > |input| {
        take := |input|;
      }
      forall i | 0 <= i < take {
        buf[bufLen + i] := input[i];
      }
      ChainPrefix(CurrentMode(), bytes, input[..take], chunkCounter, blocksCompressed);
      bufLen := bufLen + take;
      bytes := bytes + input[..take];
    }

    function MaybeStartFlag(): Flags
      reads this
    {
      if blocksCompressed == 0 then CHUNK_START else 0
    }

    /** Compress a full buffer that turned out not to hold the last block. */
    method CompressBuf()
      requires Holds() && bufLen == BLOCK_LEN
      modifies this, buf
      ensures Holds() && bufLen == 0 && bytes == old(bytes)
      ensures key == old(key) && flags == old(flags) && chunkCounter == old(chunkCounter)
    {
      ghost var n := blocksCompressed;
      assert buf[..] == bytes[BLOCK_LEN * n..BLOCK_LEN * (n + 1)];
      cv := f.inPlace(cv, buf[..], BLOCK_LEN, chunkCounter, Or(flags, MaybeStartFlag()));
      blocksCompressed := blocksCompressed + 1;
      bufLen := 0;
      ClearBuf();
      assert bytes[BLOCK_LEN * (n + 1)..] == [];
    }

    /** Compress one block straight from the input. */
    method CompressBlock(block: seq<Byte>)
      requires Holds() && bufLen == 0 && |block| == BLOCK_LEN && |bytes| + BLOCK_LEN <= CHUNK_LEN
      modifies this
      ensures Holds() && bufLen == 0 && bytes == old(bytes) + block
      ensures key == old(key) && flags == old(flags) && chunkCounter == old(chunkCounter)
    {
      ghost var n := blocksCompressed;
      ChainPrefix(CurrentMode(), bytes, block, chunkCounter, n);
      cv := f.inPlace(cv, block, BLOCK_LEN, chunkCounter, Or(flags, MaybeStartFlag()));
      blocksCompressed := blocksCompressed + 1;
      bytes := bytes + block;
      assert bytes[BLOCK_LEN * n..BLOCK_LEN * (n + 1)] == block;
      assert bytes[BLOCK_LEN * (n + 1)..] == [];
    }

    /** Feeding more bytes; how they are cut into calls leaves no trace, since Valid() fixes every field from
        `bytes`. */
    method Update(input: seq<Byte>)
      requires Valid() && |bytes| + |input| <= CHUNK_LEN
      modifies this, buf
      ensures Valid() && bytes == old(bytes) + input
      ensures key == old(key) && flags == old(flags) && chunkCounter == old(chunkCounter)
    {
      hide ChainBlocks, Pad;
      var rest := input;
      if bufLen > 0 {
        var take := FillBuf(rest);
        rest := rest[take..];
        if |rest| > 0 {
          CompressBuf();
        }
      }
      assert bytes + rest == old(bytes) + input;
      while |rest| > BLOCK_LEN
        invariant Holds() && |bytes| + |rest| <= CHUNK_LEN
        invariant bytes + rest == old(bytes) + input
        invariant |rest| > 0 ==> bufLen == 0
        invariant bufLen == 0 && |rest| == 0 ==> bytes == []
        invariant key == old(key) && flags == old(flags) && chunkCounter == old(chunkCounter)
      {
        CompressBlock(rest[..BLOCK_LEN]);
        assert rest == rest[..BLOCK_LEN] + rest[BLOCK_LEN..];
        rest := rest[BLOCK_LEN..];
      }
      var take := FillBuf(rest);
      assert rest[..take] == rest;
    }

    method MakeOutput() returns (o: Output)
      requires Valid()
      ensures o == ChunkOutput(CurrentMode(), bytes, chunkCounter)
    {
      o := Output(cv, buf[..], bufLen, chunkCounter, Or(Or(flags, MaybeStartFlag()), CHUNK_END));
    }
  }

  /** At most sixteen blocks make a chunk, so at most fifteen are compressed before the last; both counters fit
      their eight bits. */
  lemma CountersFit(s: ChunkState)
    requires s.Valid()
    ensures s.blocksCompressed <= 15 && s.bufLen <= 64
    ensures s.bytes != [] ==> s.bufLen > 0
  {
  }

  /** Two chunk states that were given the same bytes, in whatever pieces, agree on every field. */
  lemma SplitInsensitive(s: ChunkState, t: ChunkState)
    requires s.Valid() && t.Valid()
    requires s.CurrentMode() == t.CurrentMode() && s.chunkCounter == t.chunkCounter && s.bytes == t.bytes
    ensures s.cv == t.cv && s.buf[..] == t.buf[..] && s.bufLen == t.bufLen && s.blocksCompressed == t.blocksCompressed
  {
  }
}
