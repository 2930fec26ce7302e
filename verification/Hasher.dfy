/** The streaming hasher of blake3.c. */
module Streaming {
  import opened Bits
  import opened Tree
  import opened Chunks
  import opened Wide
  import opened CvStack
  import opened Words

  const MAX_DEPTH := 54
  const IV := CV(0x6A09E667, 0xBB67AE85, 0x3C6EF372, 0xA54FF53A, 0x510E527F, 0x9B05688C, 0x1F83D9AB, 0x5BE0CD19)

  /** `word` is the first 32 bits of the fraction of the square root of `n`, whose whole part is `whole`. */
  predicate IsRootFraction(n: nat, whole: nat, word: Word) {
    var x := whole * 0x1_0000_0000 + word as nat;
    x * x <= n * 0x1_0000_0000_0000_0000 < (x + 1) * (x + 1)
  }

  /** The words a hasher starts from are those of the first eight primes, in order. */
  lemma IVIsRootFractions()
    ensures IsRootFraction(2, 1, IV.w0) && IsRootFraction(3, 1, IV.w1) && IsRootFraction(5, 2, IV.w2)
    ensures IsRootFraction(7, 2, IV.w3) && IsRootFraction(11, 3, IV.w4) && IsRootFraction(13, 3, IV.w5)
    ensures IsRootFraction(17, 4, IV.w6) && IsRootFraction(19, 4, IV.w7)
  {
  }

  // ----- choosing the next subtree

  lemma Pow2Halves(x: nat)
    requires IsPow2(x) && x > CHUNK_LEN
    ensures IsPow2(x / 2) && x / 2 >= CHUNK_LEN && 2 * (x / 2) == x
  {
    assert IsPow2(1024) by { WordPowers(); Pow2Add(8, 2); Pow2IsPow2(10); }
    if x < 2 * CHUNK_LEN {
      FloorPow2Unique(1024, x);
      FloorPow2Unique(x, x);
    }
  }

  lemma SmallerPow2(p: nat, x: nat)
    requires IsPow2(p) && IsPow2(x) && p < x
    ensures p <= x / 2
  {
    if p > x / 2 {
      FloorPow2Unique(p, x);
      FloorPow2Unique(x, x);
    }
  }

  /** A candidate for the next subtree: a power of two of bytes that fits the input and divides the count so far. */
  predicate Fits(p: nat, inputLen: nat, countSoFar: nat) {
    IsPow2(p) && p <= inputLen && countSoFar % p == 0
  }

  ghost predicate NoneLarger(x: nat, inputLen: nat, countSoFar: nat) {
    forall p: nat :: Fits(p, inputLen, countSoFar) ==> p <= x
  }

  lemma RoundedIsLargest(inputLen: nat, countSoFar: nat)
    requires inputLen > CHUNK_LEN
    ensures NoneLarger(FloorPow2(inputLen), inputLen, countSoFar) && CHUNK_LEN <= FloorPow2(inputLen)
  {
    ChunkIsPow2();
    FloorPow2IsLargest(CHUNK_LEN, inputLen);
    forall p: nat | Fits(p, inputLen, countSoFar)
      ensures p <= FloorPow2(inputLen)
    {
      FloorPow2IsLargest(p, inputLen);
    }
  }

  lemma HalfIsLargest(x: nat, inputLen: nat, countSoFar: nat)
    requires IsPow2(x) && x >= CHUNK_LEN && NoneLarger(x, inputLen, countSoFar)
    requires countSoFar % x != 0 && countSoFar % CHUNK_LEN == 0
    ensures NoneLarger(x / 2, inputLen, countSoFar) && IsPow2(x / 2) && CHUNK_LEN <= x / 2
  {
    hide IsPow2;
    Pow2Halves(x);
    forall p: nat | Fits(p, inputLen, countSoFar)
      ensures p <= x / 2
    {
      SmallerPow2(p, x);
    }
  }

  /** Round the input length down to a power of two, then halve it until it divides the bytes hashed so far: the
      result is the largest candidate, and at least a whole chunk. */
  method SubtreeLen(inputLen: nat, countSoFar: nat) returns (subtreeLen: nat)
    requires CHUNK_LEN < inputLen < 0x1_0000_0000_0000_0000
    requires countSoFar < 0x1_0000_0000_0000_0000 && countSoFar % CHUNK_LEN == 0
    ensures CHUNK_LEN <= subtreeLen && Fits(subtreeLen, inputLen, countSoFar)
    ensures NoneLarger(subtreeLen, inputLen, countSoFar)
  {
    hide IsPow2, FloorPow2, And, NoneLarger;
    subtreeLen := RoundDownToPowerOf2(inputLen);
    RoundedIsLargest(inputLen, countSoFar);
    AndIsMod(subtreeLen, countSoFar);
    while And(subtreeLen - 1, countSoFar) != 0
      invariant IsPow2(subtreeLen) && CHUNK_LEN <= subtreeLen <= inputLen
      invariant And(subtreeLen - 1, countSoFar) == countSoFar % subtreeLen
      invariant NoneLarger(subtreeLen, inputLen, countSoFar)
      decreases subtreeLen
    {
      HalfIsLargest(subtreeLen, inputLen, countSoFar);
      subtreeLen := subtreeLen / 2;
      AndIsMod(subtreeLen, countSoFar);
    }
  }

  lemma ChunkIsPow2()
    ensures IsPow2(CHUNK_LEN)
  {
    WordPowers();
    Pow2Add(8, 2);
    Pow2IsPow2(10);
  }

  /** In chunks, the next subtree is an aligned power of two, split in two aligned halves if it is not one chunk. */
  lemma AlignedChunks(subtreeLen: nat, inputLen: nat, t: nat)
    requires subtreeLen >= CHUNK_LEN && Fits(subtreeLen, inputLen, t * CHUNK_LEN)
    ensures var c := subtreeLen / CHUNK_LEN;
            subtreeLen == c * CHUNK_LEN && IsPow2(c) && t % c == 0 && (c > 1 ==> IsPow2(c / 2) && c == 2 * (c / 2))
  {
    var c := subtreeLen / CHUNK_LEN;
    ChunkIsPow2();
    Pow2Quotient(CHUNK_LEN, subtreeLen);
    ScaledRemainder(t, c);
  }

  lemma ScaledRemainder(t: nat, c: nat)
    requires c > 0 && (t * CHUNK_LEN) % (c * CHUNK_LEN) == 0
    ensures t % c == 0
  {
    DivMod(t, c);
    var q, r := t / c, t % c;
    assert q * (c * CHUNK_LEN) == (q * c) * CHUNK_LEN;
    DivModUnique(t * CHUNK_LEN, c * CHUNK_LEN, q, r * CHUNK_LEN);
  }

  // ----- extendable output

  /** Within one block of output, the stream is a slice of the wide compression. */
  lemma BlockSlice(f: Compression, o: Output, start: nat, n: nat)
    requires start % 64 + n <= 64
    ensures f.xof(o.cv, o.block, o.blockLen, start / 64, Or(o.flags, ROOT))[start % 64..start % 64 + n]
         == RootBytes(f, o, start, n)
  {
    var wide, bytes := f.xof(o.cv, o.block, o.blockLen, start / 64, Or(o.flags, ROOT)), RootBytes(f, o, start, n);
    forall i | 0 <= i < n
      ensures wide[start % 64..start % 64 + n][i] == bytes[i]
    {
      assert bytes[i] == RootByte(f, o, start + i);
      assert (start + i) / 64 == start / 64 && (start + i) % 64 == start % 64 + i;
    }
  }

  /** Write bytes `seek` up to `seek + outLen` of the root's output stream to `out`, block by block. */
  method OutputRootBytes(f: Compression, o: Output, seek: nat, out: array<Byte>, outLen: nat)
    requires outLen <= out.Length
    modifies out
    ensures out[..] == RootBytes(f, o, seek, outLen) + old(out[outLen..])
  {
    hide RootBytes, Or;
    var outputBlockCounter: nat := seek / 64;
    var offsetWithinBlock: nat := seek % 64;
    var written := 0;
    assert RootBytes(f, o, seek, 0) == [] by { AdjacentReads(f, o, seek, 0, 0); }
    while written < outLen
      invariant written <= outLen && offsetWithinBlock < 64
      invariant written < outLen ==> outputBlockCounter * 64 + offsetWithinBlock == seek + written
      invariant out[..written] == RootBytes(f, o, seek, written)
      invariant out[outLen..] == old(out[outLen..])
    {
      var wideBuf: WideBlock := f.xof(o.cv, o.block, o.blockLen, outputBlockCounter, Or(o.flags, ROOT));
      var availableBytes := 64 - offsetWithinBlock;
      var copied := if outLen - written > availableBytes then availableBytes else outLen - written;
      var piece := wideBuf[offsetWithinBlock..offsetWithinBlock + copied];
      forall i | 0 <= i < |piece| {
        out[written + i] := piece[i];
      }
      BlockSlice(f, o, seek + written, copied);
      AdjacentReads(f, o, seek, written, copied);
      assert out[..written + copied] == out[..written] + piece;
      written := written + copied;
      outputBlockCounter := outputBlockCounter + 1;
      offsetWithinBlock := 0;
    }
    assert out[..] == out[..outLen] + out[outLen..];
  }

  /** The topmost entry stands for the second half of a subtree of `len` bytes. */
  predicate TopIsHalf(sizes: seq<nat>, len: nat) {
    |sizes| > 0 && 2 * Last(sizes) * CHUNK_LEN == len
  }

  class Hasher {
    const f: Compression
    const p: Platform
    var key: CV
    const chunk: ChunkState
    var cvStackLen: nat
    const cvStack: array<CV>
    /** The bytes the stack stands for, and the number of chunks of each of its entries. */
    ghost var stacked: seq<Byte>
    ghost var sizes: seq<nat>

    function CurrentMode(): Mode
      reads this, chunk
    {
      Mode(f, key, chunk.flags)
    }

    /** All bytes hashed since the last initialization. */
    ghost function Data(): seq<Byte>
      reads this, chunk
    {
      stacked + chunk.bytes
    }

    /** The stack entries are the chaining values of the subtrees they are recorded for. */
    ghost predicate StackHolds()
      reads this, chunk, cvStack
    {
      && cvStack.Length == MAX_DEPTH + 1
      && cvStackLen == |sizes| <= MAX_DEPTH + 1
      && |stacked| < 0x1_0000_0000_0000_0000
      && Covers(CurrentMode(), stacked, cvStack[..cvStackLen], sizes)
    }

    ghost predicate Holds()
      reads this, chunk, chunk.buf, cvStack
    {
      && p.Valid() && chunk.f == f && chunk.key == key && chunk.Valid()
      && StackHolds()
      && |stacked| == CHUNK_LEN * chunk.chunkCounter
    }

    /** In the middle of an update: nothing in the chunk state, the last push not merged yet. */
    ghost predicate Midway()
      reads this, chunk, chunk.buf, cvStack
    {
      Holds() && chunk.bytes == [] && Lazy(chunk.chunkCounter, sizes)
    }

    /** Between calls: a stack below chunk bytes is fully merged; with no chunk bytes its two topmost entries are
        unmerged siblings, so the root is never compressed before finalization. */
    ghost predicate Valid()
      reads this, chunk, chunk.buf, cvStack
    {
      && Holds()
      && |Data()| < 0x1_0000_0000_0000_0000
      && (chunk.bytes != [] ==> Merged(chunk.chunkCounter, sizes))
      && (chunk.bytes == [] ==>
            if chunk.chunkCounter == 0 then sizes == [] else Paired(chunk.chunkCounter, sizes))
    }

    /** hasher_init_base */
    constructor (f: Compression, p: Platform, key: CV, flags: Flags)
      requires p.Valid()
      ensures Valid() && Data() == [] && this.f == f && CurrentMode() == Mode(f, key, flags)
      ensures fresh(chunk) && fresh(chunk.buf) && fresh(cvStack)
    {
      this.f := f;
      this.p := p;
      this.key := key;
      chunk := new ChunkState(f, key, flags);
      cvStackLen := 0;
      cvStack := new CV[MAX_DEPTH + 1];
      stacked := [];
      sizes := [];
    }

    method Reset()
      requires Holds()
      modifies this, chunk, chunk.buf
      ensures Valid() && Data() == [] && CurrentMode() == old(CurrentMode())
    {
      chunk.Reset(key, 0);
      cvStackLen := 0;
      stacked := [];
      sizes := [];
    }

    /** Replace the two topmost entries, siblings of equal size, by their parent. */
    method MergeTwo()
      requires StackHolds() && |sizes| >= 2 && IsPow2(Last(sizes)) && Last(Front(sizes)) == Last(sizes)
      requires chunk.f == f
      modifies this`cvStackLen, this`sizes, cvStack
      ensures StackHolds() && sizes == Front(Front(old(sizes))) + [2 * Last(old(sizes))]
    {
      hide Covers, IsPow2;
      ghost var cvs := cvStack[..cvStackLen];
      CoversMerge(CurrentMode(), stacked, cvs, sizes);
      var top := cvStackLen - 2;
      var output := ParentOutput(CurrentMode(), cvStack[top], cvStack[top + 1]);
      cvStack[top] := ChainingValue(f, output);
      cvStackLen := cvStackLen - 1;
      sizes := Front(Front(sizes)) + [2 * Last(sizes)];
      assert cvStack[..cvStackLen] == Front(Front(cvs)) + [ParentCV(CurrentMode(), Last(Front(cvs)), Last(cvs))];
    }

    /** Merge the topmost entries until there is one for every set bit of the number of chunks. */
    method MergeCvStack(total: nat)
      requires StackHolds() && Lazy(total, sizes) && chunk.f == f
      modifies this`cvStackLen, this`sizes, cvStack
      ensures StackHolds() && Merged(total, sizes) && cvStackLen == PopCount(total)
    {
      hide Covers, Lazy, Parts, PopCount;
      var postMergeStackLen := PopCnt(total);
      if total == 0 {
        EmptyIsMerged(sizes);
      } else {
        CarryStep(total, sizes);
      }
      while cvStackLen > postMergeStackLen
        invariant StackHolds() && Lazy(total, sizes)
        invariant cvStackLen > postMergeStackLen ==> total > 0
        invariant cvStackLen <= postMergeStackLen ==> Merged(total, sizes) && cvStackLen == postMergeStackLen
        decreases cvStackLen
      {
        CarryStep(total, sizes);
        MergeTwo();
        CarryStep(total, sizes);
      }
    }

    /** Merge what the previous push left unmerged, then push the chaining value of the next `size` chunks. */
    method PushCv(newCv: CV, chunkCounter: nat, ghost piece: seq<Byte>, ghost size: nat)
      requires StackHolds() && Lazy(chunkCounter, sizes) && chunk.f == f
      requires |stacked| == CHUNK_LEN * chunkCounter && |piece| == CHUNK_LEN * size > 0
      requires |stacked| + |piece| < 0x1_0000_0000_0000_0000
      requires newCv == TreeCV(CurrentMode(), piece, chunkCounter)
      modifies this`cvStackLen, this`sizes, this`stacked, cvStack
      ensures StackHolds() && stacked == old(stacked) + piece && sizes == Parts(chunkCounter, 1) + [size]
      ensures cvStackLen <= MAX_DEPTH
    {
      hide Covers, Lazy, Parts, PopCount, TreeCV;
      MergeCvStack(chunkCounter);
      MergedIsLazy(chunkCounter);
      PushedDepth(chunkCounter, size);
      ghost var cvs := cvStack[..cvStackLen];
      CoversPush(CurrentMode(), stacked, cvs, sizes, piece, size);
      cvStack[cvStackLen] := newCv;
      cvStackLen := cvStackLen + 1;
      stacked := stacked + piece;
      sizes := sizes + [size];
      assert cvStack[..cvStackLen] == cvs + [newCv];
    }

    /** A full chunk state with more input coming: its chunk is not the root, push it. */
    method FinishChunk()
      requires Valid() && |chunk.bytes| == CHUNK_LEN && |Data()| + 1 < 0x1_0000_0000_0000_0000
      modifies this`cvStackLen, this`sizes, this`stacked, cvStack, chunk, chunk.buf
      ensures Midway() && Data() == old(Data()) && CurrentMode() == old(CurrentMode())
    {
      hide Covers, Lazy, Parts, ChunkOutput;
      MergedIsLazy(chunk.chunkCounter);
      var t := chunk.chunkCounter;
      var output := chunk.MakeOutput();
      var chunkCv := ChainingValue(f, output);
      assert chunkCv == TreeCV(CurrentMode(), chunk.bytes, t);
      PushCv(chunkCv, t, chunk.bytes, 1);
      PushOnMerged(t, 1);
      chunk.Reset(key, t + 1);
    }

    /** Push a full subtree as the two children of its root. */
    method PushSubtree(input: seq<Byte>, t: nat, half: nat)
      requires Holds() && t == chunk.chunkCounter && Lazy(t, sizes)
      requires IsPow2(half) && |input| == 2 * half * CHUNK_LEN && t % (2 * half) == 0
      requires |stacked| + |input| < 0x1_0000_0000_0000_0000
      modifies this`cvStackLen, this`sizes, this`stacked, cvStack
      ensures StackHolds() && stacked == old(stacked) + input
      ensures Paired(t + 2 * half, sizes) && TopIsHalf(sizes, |input|)
    {
      hide Covers, Lazy, Parts, TreeCV, Paired;
      PushPair(t, half);
      PushOnMerged(t, half);
      LeftLenOfFull(half, half * CHUNK_LEN);
      var left, right := CompressSubtreeToParentNode(CurrentMode(), p, input, t);
      PushCv(left, t, input[..half * CHUNK_LEN], half);
      PushCv(right, t + half, input[half * CHUNK_LEN..], half);
      assert input[..half * CHUNK_LEN] + input[half * CHUNK_LEN..] == input;
    }

    /** Push a single full chunk, hashed through a chunk state of its own. */
    method PushChunk(input: seq<Byte>, t: nat)
      requires Holds() && t == chunk.chunkCounter && Lazy(t, sizes)
      requires |input| == CHUNK_LEN && |stacked| + |input| < 0x1_0000_0000_0000_0000
      modifies this`cvStackLen, this`sizes, this`stacked, cvStack
      ensures StackHolds() && stacked == old(stacked) + input && Lazy(t + 1, sizes)
    {
      hide Covers, Lazy, Parts, ChunkOutput;
      var cv := HashChunk(CurrentMode(), input, t);
      PushCv(cv, t, input, 1);
      PushOnMerged(t, 1);
    }

    /** One round of the main loop: hash the largest aligned subtree the input still fills and push it, as one
        chunk or as the two children of its root. */
    method AbsorbSubtree(input: seq<Byte>) returns (taken: nat)
      requires Midway() && |input| > CHUNK_LEN && |stacked| + |input| < 0x1_0000_0000_0000_0000
      modifies this`cvStackLen, this`sizes, this`stacked, cvStack, chunk`chunkCounter
      ensures Midway() && 0 < taken <= |input| && Data() == old(Data()) + input[..taken]
      ensures taken == |input| ==> Paired(chunk.chunkCounter, sizes) && TopIsHalf(sizes, |input|)
      ensures Fits(|input|, |input|, old(|Data()|)) ==> taken == |input|
      ensures CurrentMode() == old(CurrentMode())
    {
      hide Covers, Lazy, Parts, IsPow2;
      var t := chunk.chunkCounter;
      var subtreeLen := SubtreeLen(|input|, t * CHUNK_LEN);
      taken := subtreeLen;
      var subtreeChunks := subtreeLen / CHUNK_LEN;
      AlignedChunks(subtreeLen, |input|, t);
      if subtreeLen <= CHUNK_LEN {
        PushChunk(input[..subtreeLen], t);
      } else {
        PushSubtree(input[..subtreeLen], t, subtreeChunks / 2);
      }
      chunk.chunkCounter := t + subtreeChunks;
    }

    /** Put as much input as fits into a partial chunk. */
    method TopUpChunk(input: seq<Byte>) returns (take: nat)
      requires Valid() && chunk.bytes != [] && |Data()| + |input| < 0x1_0000_0000_0000_0000
      modifies chunk, chunk.buf
      ensures take <= |input| && (take < |input| ==> |chunk.bytes| == CHUNK_LEN)
      ensures Valid() && Data() == old(Data()) + input[..take] && CurrentMode() == old(CurrentMode())
    {
      hide Covers, Parts, ChainBlocks, Pad;
      var len := chunk.Len();
      take := CHUNK_LEN - len;
      if take > |input| {
        take := |input|;
      }
      chunk.Update(input[..take]);
      assert stacked + (old(chunk.bytes) + input[..take]) == stacked + old(chunk.bytes) + input[..take];
    }

    /** Keep the last bytes, at most a chunk, in the chunk state and merge the stack below them. */
    method KeepTail(tail: seq<Byte>)
      requires Midway() && 0 < |tail| <= CHUNK_LEN && |Data()| + |tail| < 0x1_0000_0000_0000_0000
      modifies this`cvStackLen, this`sizes, cvStack, chunk, chunk.buf
      ensures Valid() && Data() == old(Data()) + tail && CurrentMode() == old(CurrentMode())
    {
      hide Covers, Parts, Lazy, Merged, Paired, PopCount, ChainBlocks, Pad;
      chunk.Update(tail);
      assert chunk.bytes == tail;
      MergeCvStack(chunk.chunkCounter);
    }

    /** The main loop: absorb subtrees until at most a chunk is left. */
    method AbsorbAll(input: seq<Byte>) returns (rest: seq<Byte>)
      requires Midway() && |input| > 0 && |Data()| + |input| < 0x1_0000_0000_0000_0000
      modifies this`cvStackLen, this`sizes, this`stacked, cvStack, chunk`chunkCounter
      ensures Midway() && |rest| <= CHUNK_LEN && Data() + rest == old(Data()) + input
      ensures rest == [] ==> Paired(chunk.chunkCounter, sizes)
      ensures |input| > CHUNK_LEN && Fits(|input|, |input|, old(|Data()|)) ==> rest == [] && TopIsHalf(sizes, |input|)
      ensures CurrentMode() == old(CurrentMode())
    {
      hide Covers, Lazy, Parts, Merged, Paired, ChainBlocks, Pad, Fits, TopIsHalf;
      ghost var whole := |input| > CHUNK_LEN && Fits(|input|, |input|, |Data()|);
      rest := input;
      while |rest| > CHUNK_LEN
        invariant Midway() && CurrentMode() == old(CurrentMode())
        invariant Data() + rest == old(Data()) + input
        invariant |rest| == 0 ==> Paired(chunk.chunkCounter, sizes)
        invariant whole ==> if rest == input then Data() == old(Data()) else rest == [] && TopIsHalf(sizes, |input|)
      {
        var taken := AbsorbSubtree(rest);
        assert rest == rest[..taken] + rest[taken..];
        rest := rest[taken..];
      }
    }

    /** Hash more input. */
    method Update(input: seq<Byte>)
      requires Valid() && |Data()| + |input| < 0x1_0000_0000_0000_0000
      modifies this`cvStackLen, this`sizes, this`stacked, cvStack, chunk, chunk.buf
      ensures Valid() && Data() == old(Data()) + input && CurrentMode() == old(CurrentMode())
      ensures old(chunk.bytes) == [] && |input| > CHUNK_LEN && Fits(|input|, |input|, old(|Data()|)) ==>
                chunk.bytes == [] && TopIsHalf(sizes, |input|)
    {
      hide Covers, Lazy, Parts, Merged, Paired, ChainBlocks, Pad, Fits, TopIsHalf;
      if |input| == 0 {
        return;
      }
      var rest := input;
      var len := chunk.Len();
      if len > 0 {
        var take := TopUpChunk(rest);
        rest := rest[take..];
        if |rest| == 0 {
          return;
        }
        FinishChunk();
      } else {
        StartMidway();
      }
      assert Data() + rest == old(Data()) + input;
      rest := AbsorbAll(rest);
      if |rest| > 0 {
        KeepTail(rest);
      }
    }

    lemma StartMidway()
      requires Valid() && chunk.bytes == []
      ensures Midway()
    {
    }

    /** The root node of everything hashed so far; nothing changes. */
    method RootOutput() returns (output: Output)
      requires Valid()
      ensures output == TreeOutput(CurrentMode(), Data(), 0)
    {
      hide Covers, Lazy, Parts, TreeOutput, ChunkOutput, ParentOutput;
      var len := chunk.Len();
      if cvStackLen == 0 {
        output := chunk.MakeOutput();
        SingleChunk();
        return;
      }
      ghost var cvs := cvStack[..cvStackLen];
      var cvsRemaining: nat;
      if len > 0 {
        cvsRemaining := cvStackLen;
        output := chunk.MakeOutput();
        RollUpMerged(CurrentMode(), stacked, cvs, chunk.chunkCounter, chunk.bytes);
      } else {
        TwoOnTop();
        cvsRemaining := cvStackLen - 2;
        output := ParentOutput(CurrentMode(), cvStack[cvsRemaining], cvStack[cvsRemaining + 1]);
        RollUpPaired(CurrentMode(), stacked, cvs, sizes, chunk.chunkCounter);
        assert Front(Front(cvs)) == cvStack[..cvsRemaining];
        assert Data() == stacked;
      }
      while cvsRemaining > 0
        invariant cvsRemaining <= cvStackLen
        invariant RollUp(CurrentMode(), cvStack[..cvsRemaining], output) == TreeOutput(CurrentMode(), Data(), 0)
      {
        cvsRemaining := cvsRemaining - 1;
        assert Front(cvStack[..cvsRemaining + 1]) == cvStack[..cvsRemaining];
        output := ParentOutput(CurrentMode(), cvStack[cvsRemaining], ChainingValue(f, output));
      }
    }

    lemma SingleChunk()
      requires Valid() && cvStackLen == 0
      ensures TreeOutput(CurrentMode(), Data(), 0) == ChunkOutput(CurrentMode(), chunk.bytes, chunk.chunkCounter)
    {
      if chunk.bytes != [] {
        PartsEmpty(chunk.chunkCounter);
      }
      assert stacked == [];
      assert Data() == chunk.bytes;
    }

    /** With an empty chunk state and a nonempty stack there are two equal-sized siblings on top. */
    lemma TwoOnTop()
      requires Valid() && cvStackLen > 0 && chunk.bytes == []
      ensures cvStackLen >= 2 && Last(Front(sizes)) == Last(sizes) && chunk.chunkCounter > 0
    {
    }

    /** Bytes `seek` up to `seek + outLen` of the extended output; the hasher can go on afterwards. */
    method FinalizeSeek(seek: nat, out: array<Byte>, outLen: nat)
      requires Valid() && outLen <= out.Length && out != chunk.buf
      modifies out
      ensures out[..] == Hash(CurrentMode(), Data(), seek, outLen) + old(out[outLen..])
      ensures Valid() && Data() == old(Data()) && CurrentMode() == old(CurrentMode())
    {
      hide Covers, TreeOutput, RootByte;
      if outLen == 0 {
        assert Hash(CurrentMode(), Data(), seek, outLen) == [];
        assert out[..] == out[0..];
        return;
      }
      var output := RootOutput();
      OutputRootBytes(f, output, seek, out, outLen);
    }
  }
}
