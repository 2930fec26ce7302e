/** The public interface of blake3.h, and whole runs of it. */
module Calls {
  import opened Bits
  import opened Words
  import opened Tree
  import opened Wide
  import opened CvStack
  import opened Streaming

  method Init(f: Compression, p: Platform) returns (h: Hasher)
    requires p.Valid()
    ensures h.Valid() && h.Data() == [] && h.f == f && h.CurrentMode() == Mode(f, IV, 0)
    ensures fresh(h) && fresh(h.chunk) && fresh(h.chunk.buf) && fresh(h.cvStack)
  {
    h := new Hasher(f, p, IV, 0);
  }

  method InitKeyed(f: Compression, p: Platform, key: seq<Byte>) returns (h: Hasher)
    requires p.Valid() && |key| == 32
    ensures h.Valid() && h.Data() == [] && h.f == f && h.CurrentMode() == Mode(f, LoadKeyWords(key), 16)
    ensures fresh(h) && fresh(h.chunk) && fresh(h.chunk.buf) && fresh(h.cvStack)
  {
    h := new Hasher(f, p, LoadKeyWords(key), KEYED_HASH);
  }

  /** The key of the derived hasher is the hash of the context string in its own mode. */
  method InitDeriveKeyRaw(f: Compression, p: Platform, context: seq<Byte>) returns (h: Hasher)
    requires p.Valid() && |context| < 0x1_0000_0000_0000_0000
    ensures h.Valid() && h.Data() == [] && h.f == f
    ensures h.CurrentMode()
         == Mode(f, LoadKeyWords(Hash(Mode(f, IV, 32), context, 0, 32)), 64)
    ensures fresh(h) && fresh(h.chunk) && fresh(h.chunk.buf) && fresh(h.cvStack)
  {
    hide Hash, LoadKeyWords;
    var contextHasher := new Hasher(f, p, IV, DERIVE_KEY_CONTEXT);
    contextHasher.Update(context);
    assert contextHasher.Data() == context;
    var contextKey := new Byte[32];
    contextHasher.FinalizeSeek(0, contextKey, 32);
    assert contextKey[..] == Hash(Mode(f, IV, DERIVE_KEY_CONTEXT), context, 0, 32);
    h := new Hasher(f, p, LoadKeyWords(contextKey[..]), DERIVE_KEY_MATERIAL);
  }

  // ----- whole runs

  datatype Call = Update(input: seq<Byte>) | Finalize(seek: nat, n: nat) | Reset

  /** What a run of calls answers, one entry a finalization: the hash of everything since the last reset. */
  function Answers(m: Mode, data: seq<Byte>, calls: seq<Call>): seq<seq<Byte>>
    decreases |calls|
  {
    if |calls| == 0 then []
    else
      match calls[0]
      case Update(input) => Answers(m, data + input, calls[1..])
      case Finalize(seek, n) => [Hash(m, data, seek, n)] + Answers(m, data, calls[1..])
      case Reset => Answers(m, [], calls[1..])
  }

  /** The input since the last reset always stays below 2^64 bytes. */
  predicate Within(calls: seq<Call>, len: nat) {
    |calls| == 0 ||
    match calls[0]
    case Update(input) => len + |input| < 0x1_0000_0000_0000_0000 && Within(calls[1..], len + |input|)
    case Finalize(_, _) => Within(calls[1..], len)
    case Reset => Within(calls[1..], 0)
  }

  /** The input of the current run after one more call, and what that call answers. */
  function DataAfter(data: seq<Byte>, call: Call): seq<Byte> {
    match call
    case Update(input) => data + input
    case Finalize(_, _) => data
    case Reset => []
  }

  function AnswerOf(m: Mode, data: seq<Byte>, call: Call): seq<seq<Byte>> {
    match call
    case Finalize(seek, n) => [Hash(m, data, seek, n)]
    case _ => []
  }

  lemma AnswersStep(m: Mode, data: seq<Byte>, calls: seq<Call>, i: nat)
    requires i < |calls|
    ensures Answers(m, data, calls[i..])
         == AnswerOf(m, data, calls[i]) + Answers(m, DataAfter(data, calls[i]), calls[i + 1..])
    ensures Within(calls[i..], |data|) ==> Within(calls[i + 1..], |DataAfter(data, calls[i])|)
  {
    hide Hash;
    assert calls[i..][1..] == calls[i + 1..];
  }

  /** One call on a hasher. */
  method Perform(h: Hasher, call: Call) returns (answer: seq<seq<Byte>>)
    requires h.Valid() && (call.Update? ==> |h.Data()| + |call.input| < 0x1_0000_0000_0000_0000)
    modifies h, h.cvStack, h.chunk, h.chunk.buf
    ensures h.Valid() && h.CurrentMode() == old(h.CurrentMode()) && h.Data() == DataAfter(old(h.Data()), call)
    ensures answer == AnswerOf(h.CurrentMode(), old(h.Data()), call)
  {
    hide Hash, Covers, Lazy, Merged;
    answer := [];
    match call {
      case Update(input) => h.Update(input);
      case Finalize(seek, n) =>
        var out := new Byte[n];
        h.FinalizeSeek(seek, out, n);
        assert out[..] == Hash(h.CurrentMode(), h.Data(), seek, n);
        answer := [out[..]];
      case Reset => h.Reset();
    }
  }

  /** Every run of updates of any lengths, finalizations at any position and of any length, and resets, on any
      platform, answers what the recursive tree over the concatenated input answers. */
  method Run(f: Compression, p: Platform, key: CV, flags: Flags, calls: seq<Call>) returns (answers: seq<seq<Byte>>)
    requires p.Valid() && Within(calls, 0)
    ensures answers == Answers(Mode(f, key, flags), [], calls)
  {
    hide *;
    var h := new Hasher(f, p, key, flags);
    ghost var m := Mode(f, key, flags);
    answers := [];
    var i := 0;
    assert calls[0..] == calls;
    while i < |calls|
      invariant i <= |calls| && h.Valid() && h.CurrentMode() == m
      invariant fresh(h) && fresh(h.chunk) && fresh(h.chunk.buf) && fresh(h.cvStack)
      invariant Within(calls[i..], |h.Data()|)
      invariant answers + Answers(m, h.Data(), calls[i..]) == Answers(m, [], calls)
    {
      AnswersStep(m, h.Data(), calls, i);
      UpdateFits(m, h.Data(), calls, i);
      var answer := Perform(h, calls[i]);
      answers := answers + answer;
      i := i + 1;
    }
    NoCalls(m, h.Data(), calls);
  }

  lemma UpdateFits(m: Mode, data: seq<Byte>, calls: seq<Call>, i: nat)
    requires i < |calls| && Within(calls[i..], |data|)
    ensures calls[i].Update? ==> |data| + |calls[i].input| < 0x1_0000_0000_0000_0000
  {
  }

  lemma NoCalls(m: Mode, data: seq<Byte>, calls: seq<Call>)
    ensures Answers(m, data, calls[|calls|..]) == []
  {
  }

  // ----- what that says

  function Updates(pieces: seq<seq<Byte>>): (r: seq<Call>)
    ensures |r| == |pieces|
  {
    seq(|pieces|, i requires 0 <= i < |pieces| => Update(pieces[i]))
  }

  /** How the input is cut into updates does not matter. */
  lemma {:induction false} SplitDoesNotMatter(m: Mode, data: seq<Byte>, pieces: seq<seq<Byte>>, seek: nat, n: nat)
    ensures Answers(m, data, Updates(pieces) + [Finalize(seek, n)]) == [Hash(m, data + Concat(pieces), seek, n)]
    decreases |pieces|
  {
    hide Hash;
    var calls := Updates(pieces) + [Finalize(seek, n)];
    if |pieces| == 0 {
      assert data + Concat(pieces) == data;
      assert calls[1..] == [];
    } else {
      assert calls[1..] == Updates(pieces[1..]) + [Finalize(seek, n)];
      SplitDoesNotMatter(m, data + pieces[0], pieces[1..], seek, n);
      assert (data + pieces[0]) + Concat(pieces[1..]) == data + Concat(pieces);
    }
  }

  /** The run of calls that hashes `pieces` one after the other stays within 2^64 bytes if their total does. */
  lemma {:induction false} UpdatesStayWithin(pieces: seq<seq<Byte>>, seek: nat, n: nat, len: nat)
    requires len + |Concat(pieces)| < 0x1_0000_0000_0000_0000
    ensures Within(Updates(pieces) + [Finalize(seek, n)], len)
    decreases |pieces|
  {
    var calls := Updates(pieces) + [Finalize(seek, n)];
    if |pieces| == 0 {
      assert calls[1..] == [];
    } else {
      assert calls[1..] == Updates(pieces[1..]) + [Finalize(seek, n)];
      UpdatesStayWithin(pieces[1..], seek, n, len + |pieces[0]|);
    }
  }

  /** Hash pieces of input one update at a time, on any platform: only their concatenation matters. */
  method HashPieces(f: Compression, p: Platform, key: CV, flags: Flags, pieces: seq<seq<Byte>>, seek: nat, n: nat)
    returns (out: seq<Byte>)
    requires p.Valid() && |Concat(pieces)| < 0x1_0000_0000_0000_0000
    ensures out == Hash(Mode(f, key, flags), Concat(pieces), seek, n)
  {
    hide *;
    UpdatesStayWithin(pieces, seek, n, 0);
    var answers := Run(f, p, key, flags, Updates(pieces) + [Finalize(seek, n)]);
    SplitDoesNotMatter(Mode(f, key, flags), [], pieces, seek, n);
    assert [] + Concat(pieces) == Concat(pieces);
    out := answers[0];
  }

  /** Two reads of a hasher, the second where the first ended, give what one longer read gives. */
  method ReadOn(h: Hasher, seek: nat, first: array<Byte>, second: array<Byte>, both: array<Byte>)
    requires h.Valid() && first != h.chunk.buf && second != h.chunk.buf && both != h.chunk.buf
    requires first != second && both != first && both != second && both.Length == first.Length + second.Length
    modifies first, second, both
    ensures h.Valid() && h.Data() == old(h.Data())
    ensures both[..] == first[..] + second[..]
  {
    hide Hash, TreeOutput, RootBytes, Covers, Parts, Lazy, Merged, Paired;
    h.FinalizeSeek(seek, first, first.Length);
    h.FinalizeSeek(seek + first.Length, second, second.Length);
    h.FinalizeSeek(seek, both, both.Length);
    HashOfAdjacent(h.CurrentMode(), h.Data(), seek, first.Length, second.Length);
  }

  lemma HashOfAdjacent(m: Mode, input: seq<Byte>, seek: nat, n: nat, k: nat)
    ensures Hash(m, input, seek, n) + Hash(m, input, seek + n, k) == Hash(m, input, seek, n + k)
  {
    hide TreeOutput, RootBytes;
    AdjacentReads(m.f, TreeOutput(m, input, 0), seek, n, k);
  }

  // ----- what every reachable hasher keeps

  /** The stack never needs the last of its 55 slots. */
  lemma StackDepth(h: Hasher)
    requires h.Valid() || h.Midway()
    ensures h.cvStackLen <= MAX_DEPTH
  {
    hide Covers, Lazy;
    MergedIsLazy(h.chunk.chunkCounter);
    if h.chunk.chunkCounter == 0 {
      EmptyIsMerged([]);
    }
    DepthBound(h.chunk.chunkCounter, h.sizes);
  }

  /** But the one before it is: whatever the last input of 2^64 - 1 bytes is, hashing it at once leaves 54 entries. */
  method ReachDepth(f: Compression, p: Platform, input: seq<Byte>) returns (h: Hasher)
    requires p.Valid() && |input| == 0xffff_ffff_ffff_ffff
    ensures h.Valid() && h.Data() == input && h.cvStackLen == MAX_DEPTH
  {
    hide Covers, Merged, Paired;
    h := new Hasher(f, p, IV, 0);
    h.Update(input);
    assert h.Data() == input;
    assert h.chunk.chunkCounter == 0x3f_ffff_ffff_ffff && |h.chunk.bytes| == 1023;
    AllOnesMerged(h.chunk.chunkCounter, h.sizes);
  }

  /** With nothing in the chunk state the top of the stack need not be a chunk's hash: after four chunks hashed at once
      it stands for two. */
  method TopCanBeLarger(f: Compression, p: Platform, input: seq<Byte>) returns (h: Hasher)
    requires p.Valid() && |input| == 4 * CHUNK_LEN
    ensures h.Valid() && h.Data() == input && h.chunk.bytes == []
    ensures h.cvStackLen > 0 && h.sizes[h.cvStackLen - 1] == 2
  {
    hide Covers, Merged, Paired, IsPow2;
    h := new Hasher(f, p, IV, 0);
    FourChunksFit();
    h.Update(input);
  }

  lemma FourChunksFit()
    ensures Fits(4 * CHUNK_LEN, 4 * CHUNK_LEN, 0)
  {
    ChunkIsPow2();
    assert IsPow2(2 * CHUNK_LEN) && IsPow2(4 * CHUNK_LEN);
  }

  /** No entry of the stack covers the whole input, so no update compresses a node that could be the root; and
      with nothing in the chunk state a nonempty stack has two equal-sized siblings on top. */
  lemma RootNotCompressed(h: Hasher, i: nat)
    requires h.Valid() && i < h.cvStackLen
    ensures CHUNK_LEN * h.sizes[i] < |h.Data()|
    ensures h.chunk.bytes == [] ==> h.cvStackLen >= 2 && Last(Front(h.sizes)) == Last(h.sizes)
  {
    hide Covers, Lazy, Merged;
    EntriesFit(h.CurrentMode(), h.stacked, h.cvStack[..h.cvStackLen], h.sizes, i);
  }
}
