/** Hashing many inputs at once, and the wide subtree compressor of blake3.c: chunks and parents are hashed in
    batches of up to the SIMD degree, and subtrees come back as rows of chaining values. */
module Wide {
  import opened Bits
  import opened Tree
  import opened Words
  import opened Chunks

  /** The row `cvs` written over `s` from position `off`. */
  function Splice(s: seq<CV>, off: nat, cvs: seq<CV>): (r: seq<CV>)
    requires off + |cvs| <= |s|
    ensures |r| == |s|
  {
    s[..off] + cvs + s[off + |cvs|..]
  }

  lemma SpliceSnoc(s: seq<CV>, off: nat, cvs: seq<CV>, cv: CV)
    requires off + |cvs| < |s|
    ensures Splice(s, off, cvs)[off + |cvs| := cv] == Splice(s, off, cvs + [cv])
  {
  }

  /** Two rows written back to back from the start are one row. */
  lemma SpliceTwo(s: seq<CV>, a: seq<CV>, b: seq<CV>)
    requires |a| + |b| <= |s|
    ensures Splice(Splice(s, 0, a), |a|, b)[..|a| + |b|] == a + b
  {
  }

  // ----- blake3_portable.c

  /** The flags of block `i` of `blocks`: the start flag on the first, the end flag on the last. */
  function BlockFlags(i: nat, blocks: nat, flags: Flags, flagsStart: Flags, flagsEnd: Flags): Flags {
    var start := if i == 0 then Or(flags, flagsStart) else flags;
    if i + 1 == blocks then Or(start, flagsEnd) else start
  }

  /** The chaining value after `n` of `blocks` whole blocks. */
  function HashedBlocks(f: Compression, input: seq<Byte>, blocks: nat, key: CV, counter: nat, flags: Flags,
                        flagsStart: Flags, flagsEnd: Flags, n: nat): CV
    requires BLOCK_LEN * n <= |input|
  {
    if n == 0 then key
    else
      f.inPlace(HashedBlocks(f, input, blocks, key, counter, flags, flagsStart, flagsEnd, n - 1),
                input[BLOCK_LEN * (n - 1)..BLOCK_LEN * n], BLOCK_LEN, counter,
                BlockFlags(n - 1, blocks, flags, flagsStart, flagsEnd))
  }

  method HashOne(f: Compression, input: seq<Byte>, blocks: nat, key: CV, counter: nat, flags: Flags,
                 flagsStart: Flags, flagsEnd: Flags)
    returns (cv: CV)
    requires BLOCK_LEN * blocks <= |input|
    ensures cv == HashedBlocks(f, input, blocks, key, counter, flags, flagsStart, flagsEnd, blocks)
  {
    cv := key;
    var blockFlags := Or(flags, flagsStart);
    var rest, left := input, blocks;
    ghost var n := 0;
    while left > 0
      invariant n + left == blocks && rest == input[BLOCK_LEN * n..]
      invariant blockFlags == if n == 0 then Or(flags, flagsStart) else flags
      invariant cv == HashedBlocks(f, input, blocks, key, counter, flags, flagsStart, flagsEnd, n)
    {
      if left == 1 {
        blockFlags := Or(blockFlags, flagsEnd);
      }
      assert blockFlags == BlockFlags(n, blocks, flags, flagsStart, flagsEnd);
      assert rest[..BLOCK_LEN] == input[BLOCK_LEN * n..BLOCK_LEN * (n + 1)];
      cv := f.inPlace(cv, rest[..BLOCK_LEN], BLOCK_LEN, counter, blockFlags);
      rest := rest[BLOCK_LEN..];
      left, n := left - 1, n + 1;
      blockFlags := flags;
    }
  }

  /** On a full chunk the whole-chunk path and the incremental chunk state agree. */
  lemma FullChunk(m: Mode, chunk: seq<Byte>, counter: nat)
    requires |chunk| == CHUNK_LEN
    ensures HashedBlocks(m.f, chunk, 16, m.key, counter, m.flags, CHUNK_START, CHUNK_END, 16)
         == ChunkCV(m, chunk, counter)
  {
    BlocksAgree(m, chunk, counter, 15);
    assert Pad(chunk[960..]) == chunk[960..1024];
  }

  lemma {:induction false} BlocksAgree(m: Mode, chunk: seq<Byte>, counter: nat, n: nat)
    requires |chunk| == CHUNK_LEN && n < 16
    ensures HashedBlocks(m.f, chunk, 16, m.key, counter, m.flags, CHUNK_START, CHUNK_END, n)
         == ChainBlocks(m, chunk, counter, n)
  {
    if n > 0 {
      BlocksAgree(m, chunk, counter, n - 1);
    }
  }

  /** On a pair of chaining values it is the parent's chaining value. */
  lemma PairBlock(m: Mode, left: CV, right: CV)
    ensures HashedBlocks(m.f, StoreCV(left) + StoreCV(right), 1, m.key, 0, Or(m.flags, PARENT), 0, 0, 1)
         == ParentCV(m, left, right)
  {
    assert (StoreCV(left) + StoreCV(right))[0..64] == StoreCV(left) + StoreCV(right);
  }

  /** The chaining values of many inputs of the same number of blocks. */
  function HashedMany(f: Compression, inputs: seq<seq<Byte>>, blocks: nat, key: CV, counter: nat, increment: bool,
                      flags: Flags, flagsStart: Flags, flagsEnd: Flags): (r: seq<CV>)
    requires forall i :: 0 <= i < |inputs| ==> BLOCK_LEN * blocks <= |inputs[i]|
    ensures |r| == |inputs|
  {
    seq(|inputs|, i requires 0 <= i < |inputs| =>
      HashedBlocks(f, inputs[i], blocks, key, if increment then counter + i else counter,
                   flags, flagsStart, flagsEnd, blocks))
  }

  method HashMany(f: Compression, inputs: seq<seq<Byte>>, blocks: nat, key: CV, counter: nat, increment: bool,
                  flags: Flags, flagsStart: Flags, flagsEnd: Flags, out: array<CV>, off: nat)
    requires forall i :: 0 <= i < |inputs| ==> BLOCK_LEN * blocks <= |inputs[i]|
    requires off + |inputs| <= out.Length
    modifies out
    ensures out[..] == Splice(old(out[..]), off,
                              HashedMany(f, inputs, blocks, key, counter, increment, flags, flagsStart, flagsEnd))
  {
    hide HashedBlocks;
    ghost var all := HashedMany(f, inputs, blocks, key, counter, increment, flags, flagsStart, flagsEnd);
    var c, i := counter, 0;
    while i < |inputs|
      invariant i <= |inputs| && c == if increment then counter + i else counter
      invariant out[..] == Splice(old(out[..]), off, all[..i])
    {
      var cv := HashOne(f, inputs[i], blocks, key, c, flags, flagsStart, flagsEnd);
      SpliceSnoc(old(out[..]), off, all[..i], cv);
      assert all[..i] + [cv] == all[..i + 1];
      out[off + i] := cv;
      if increment {
        c := c + 1;
      }
      i := i + 1;
    }
    assert all[..i] == all;
  }

  // ----- blake3.c

  /** The SIMD degree found at run time and the compile-time maximum the scratch arrays are sized for. */
  datatype Platform = Platform(degree: nat, maxDegree: nat) {
    predicate Valid() {
      IsPow2(degree) && IsPow2(maxDegree) && degree <= maxDegree
    }

    function MaxDegreeOr2(): nat {
      if maxDegree > 2 then maxDegree else 2
    }
  }

  /** The first `n` whole chunks of `input`. */
  function WholeChunks(input: seq<Byte>, n: nat): (r: seq<seq<Byte>>)
    requires CHUNK_LEN * n <= |input|
    ensures |r| == n && forall i :: 0 <= i < n ==> |r[i]| == CHUNK_LEN
  {
    seq(n, i requires 0 <= i < n => input[CHUNK_LEN * i..CHUNK_LEN * (i + 1)])
  }

  lemma {:induction false} LeafAt(m: Mode, input: seq<Byte>, counter: nat, i: nat)
    requires CHUNK_LEN * i < |input|
    ensures LeafCVs(m, input, counter)[i]
         == ChunkCV(m, if |input| <= CHUNK_LEN * (i + 1) then input[CHUNK_LEN * i..]
                       else input[CHUNK_LEN * i..CHUNK_LEN * (i + 1)], counter + i)
  {
    hide ChunkCV;
    if i == 0 {
      assert input[0..] == input;
    } else {
      var rest := input[CHUNK_LEN..];
      LeafAt(m, rest, counter + 1, i - 1);
      assert rest[CHUNK_LEN * (i - 1)..] == input[CHUNK_LEN * i..];
      if |input| > CHUNK_LEN * (i + 1) {
        assert rest[CHUNK_LEN * (i - 1)..CHUNK_LEN * i] == input[CHUNK_LEN * i..CHUNK_LEN * (i + 1)];
      }
    }
  }

  /** Hashing the whole chunks in one batch gives the chaining values of the tree's leaves. */
  lemma WholeChunksHash(m: Mode, input: seq<Byte>, counter: nat, n: nat)
    requires 0 < |input| && CHUNK_LEN * n <= |input|
    ensures HashedMany(m.f, WholeChunks(input, n), 16, m.key, counter, true, m.flags, CHUNK_START, CHUNK_END)
         == LeafCVs(m, input, counter)[..n]
  {
    hide HashedBlocks, ChunkCV, LeafCVs;
    var chunks := WholeChunks(input, n);
    var h := HashedMany(m.f, chunks, 16, m.key, counter, true, m.flags, CHUNK_START, CHUNK_END);
    forall i | 0 <= i < n
      ensures h[i] == LeafCVs(m, input, counter)[i]
    {
      LeafAt(m, input, counter, i);
      FullChunk(m, chunks[i], counter + i);
      if |input| <= CHUNK_LEN * (i + 1) {
        assert input[CHUNK_LEN * i..] == chunks[i];
      }
    }
  }

  /** The whole chunks of the input, gathered in an array of MAX_SIMD_DEGREE entries. */
  method CollectChunks(p: Platform, input: seq<Byte>) returns (chunks: seq<seq<Byte>>)
    requires |input| <= p.maxDegree * CHUNK_LEN
    ensures chunks == WholeChunks(input, |input| / CHUNK_LEN)
  {
    var chunksArray, n := new seq<Byte>[p.maxDegree], 0;
    var position := 0;
    while |input| - position >= CHUNK_LEN
      invariant position == CHUNK_LEN * n <= |input|
      invariant chunksArray[..n] == WholeChunks(input, n)
    {
      chunksArray[n] := input[position..position + CHUNK_LEN];
      position := position + CHUNK_LEN;
      n := n + 1;
    }
    return chunksArray[..n];
  }

  /** Hash up to MAX_SIMD_DEGREE chunks, the last of which may be partial. */
  method CompressChunksParallel(m: Mode, p: Platform, input: seq<Byte>, counter: nat, out: array<CV>, off: nat)
    returns (n: nat)
    requires 0 < |input| <= p.maxDegree * CHUNK_LEN && off + (|input| - 1) / CHUNK_LEN + 1 <= out.Length
    modifies out
    ensures n == (|input| - 1) / CHUNK_LEN + 1
    ensures out[..] == Splice(old(out[..]), off, LeafCVs(m, input, counter))
  {
    hide HashedMany, LeafCVs;
    var chunks := CollectChunks(p, input);
    var position := CHUNK_LEN * |chunks|;
    n := |chunks|;
    ghost var leaves := LeafCVs(m, input, counter);
    HashMany(m.f, chunks, CHUNK_LEN / BLOCK_LEN, m.key, counter, true, m.flags, CHUNK_START, CHUNK_END, out, off);
    WholeChunksHash(m, input, counter, n);
    if |input| > position {
      var cv := HashChunk(m, input[position..], counter + n);
      LeafAt(m, input, counter, n);
      SpliceSnoc(old(out[..]), off, leaves[..n], cv);
      out[off + n] := cv;
      n := n + 1;
      assert leaves[..n - 1] + [cv] == leaves;
    } else {
      assert leaves[..n] == leaves;
    }
  }

  /** A chunk through a chunk state of its own. */
  method HashChunk(m: Mode, chunk: seq<Byte>, counter: nat) returns (cv: CV)
    requires |chunk| <= CHUNK_LEN
    ensures cv == ChunkCV(m, chunk, counter)
  {
    var state := new ChunkState(m.f, m.key, m.flags);
    state.chunkCounter := counter;
    state.Update(chunk);
    assert state.bytes == chunk;
    var output := state.MakeOutput();
    cv := ChainingValue(m.f, output);
  }

  // ----- parents

  /** The first `n` adjacent pairs of a row, each as one block. */
  function PairBlocks(cvs: seq<CV>, n: nat): (r: seq<seq<Byte>>)
    requires 2 * n <= |cvs|
    ensures |r| == n && forall i :: 0 <= i < n ==> |r[i]| == BLOCK_LEN
  {
    seq(n, i requires 0 <= i < n => StoreCV(cvs[2 * i]) + StoreCV(cvs[2 * i + 1]))
  }

  lemma PairBlocksHash(m: Mode, cvs: seq<CV>, n: nat)
    requires 2 * n <= |cvs|
    ensures HashedMany(m.f, PairBlocks(cvs, n), 1, m.key, 0, false, Or(m.flags, PARENT), 0, 0)
         == PairUp(m, cvs)[..n]
  {
    hide HashedBlocks, ParentCV, StoreCV, PairUp;
    var blocks := PairBlocks(cvs, n);
    var h := HashedMany(m.f, blocks, 1, m.key, 0, false, Or(m.flags, PARENT), 0, 0);
    forall i | 0 <= i < n
      ensures h[i] == PairUp(m, cvs)[i]
    {
      PairUpIndex(m, cvs, i);
      PairBlock(m, cvs[2 * i], cvs[2 * i + 1]);
    }
  }

  /** The adjacent pairs of a row, gathered in an array of MAX_SIMD_DEGREE_OR_2 entries. */
  method CollectPairs(p: Platform, children: array<CV>, num: nat) returns (parents: seq<seq<Byte>>)
    requires num <= children.Length && num <= 2 * p.MaxDegreeOr2()
    ensures parents == PairBlocks(children[..num], num / 2)
  {
    hide StoreCV;
    var parentsArray, n := new seq<Byte>[p.MaxDegreeOr2()], 0;
    while num - 2 * n >= 2
      invariant 2 * n <= num
      invariant parentsArray[..n] == PairBlocks(children[..num], n)
    {
      parentsArray[n] := StoreCV(children[2 * n]) + StoreCV(children[2 * n + 1]);
      n := n + 1;
    }
    return parentsArray[..n];
  }

  /** Hash one layer of parents; an odd chaining value left over is copied to the end. */
  method CompressParentsParallel(m: Mode, p: Platform, children: array<CV>, num: nat, out: array<CV>, off: nat)
    returns (n: nat)
    requires 2 <= num <= 2 * p.MaxDegreeOr2()
    requires out != children && num <= children.Length && off + (num + 1) / 2 <= out.Length
    modifies out
    ensures n == (num + 1) / 2
    ensures out[..] == Splice(old(out[..]), off, PairUp(m, children[..num]))
  {
    hide HashedMany, PairUp, StoreCV;
    ghost var cvs := children[..num];
    var parents := CollectPairs(p, children, num);
    n := |parents|;
    ghost var layer := PairUp(m, cvs);
    HashMany(m.f, parents, 1, m.key, 0, false, Or(m.flags, PARENT), 0, 0, out, off);
    PairBlocksHash(m, cvs, n);
    if num > 2 * n {
      PairUpIndex(m, cvs, n);
      SpliceSnoc(old(out[..]), off, layer[..n], children[2 * n]);
      out[off + n] := children[2 * n];
      n := n + 1;
      assert layer[..n - 1] + [children[2 * n - 2]] == layer;
    } else {
      assert layer[..n] == layer;
    }
  }

  // ----- subtrees

  /** The most chaining values a subtree can come back as. */
  function MaxWidth(degree: nat): nat {
    if degree > 2 then degree else 2
  }

  /** The number of chaining values of a subtree of a full power of two of chunks. */
  function FullWidth(degree: nat, chunks: nat): nat {
    if chunks <= degree then chunks else if degree == 1 then 2 else degree
  }

  function NumChunks(len: nat): nat
    requires len > 0
  {
    (len - 1) / CHUNK_LEN + 1
  }

  predicate IsFull(len: nat) {
    len % CHUNK_LEN == 0 && IsPow2(len / CHUNK_LEN)
  }

  /** A row of chaining values, at mixed levels of the tree, that stands for a subtree: the tree over the row has
      the subtree's value and, if there is more than one chunk, the subtree's two children. */
  ghost predicate StandsFor(m: Mode, cvs: seq<CV>, input: seq<Byte>, counter: nat)
    requires |input| > 0
  {
    && |cvs| > 0
    && Reduce(m, cvs) == TreeCV(m, input, counter)
    && (|input| > CHUNK_LEN ==> |cvs| >= 2 && Children(m, cvs) == TreeChildren(m, input, counter))
  }

  /** The number of chaining values in the row: never more than there are chunks or than the scratch arrays
      hold, and exactly known for a full subtree. */
  predicate FitsWidth(degree: nat, width: nat, len: nat)
    requires len > 0
  {
    && 1 <= width <= MaxWidth(degree)
    && width <= NumChunks(len)
    && (IsFull(len) ==> width == FullWidth(degree, len / CHUNK_LEN))
  }

  lemma LeavesStandFor(m: Mode, input: seq<Byte>, counter: nat)
    requires |input| > 0
    ensures StandsFor(m, LeafCVs(m, input, counter), input, counter)
  {
    hide Reduce, Children, TreeCV, TreeChildren, LeafCVs;
    ReduceLeaves(m, input, counter);
    if |input| > CHUNK_LEN {
      ChildrenOfLeaves(m, input, counter);
    }
  }

  /** Two rows standing for the two halves of a subtree, put side by side, stand for the whole. */
  lemma ConcatStandsFor(m: Mode, left: seq<CV>, right: seq<CV>, input: seq<Byte>, counter: nat)
    requires |input| > CHUNK_LEN && IsPow2(|left|) && 0 < |right| <= |left|
    requires var l := LeftLen(|input|);
             StandsFor(m, left, input[..l], counter) && StandsFor(m, right, input[l..], counter + l / CHUNK_LEN)
    ensures StandsFor(m, left + right, input, counter)
  {
    hide Reduce, Children, TreeOutput;
    ChildrenOfConcat(m, left, right);
    ReduceAt(m, left + right);
    TreeAt(m, input, counter);
  }

  /** So does the row after one more layer of parents, as long as it is not compressed to the root. */
  lemma PairUpStandsFor(m: Mode, cvs: seq<CV>, input: seq<Byte>, counter: nat)
    requires |input| > CHUNK_LEN && |cvs| >= 3 && StandsFor(m, cvs, input, counter)
    ensures StandsFor(m, PairUp(m, cvs), input, counter)
  {
    hide Reduce, Children, TreeCV, TreeChildren, PairUp;
    PairUpKeepsReduce(m, cvs);
    PairUpKeepsChildren(m, cvs);
  }

  /** Below a node that recurses, the left half comes back as exactly the width the code reserves for it. */
  lemma LeftWidth(degree: nat, len: nat)
    requires IsPow2(degree) && len > degree * CHUNK_LEN
    ensures len > CHUNK_LEN && var l := LeftLen(len);
            IsFull(l) && FullWidth(degree, l / CHUNK_LEN) == if l > CHUNK_LEN && degree == 1 then 2 else degree
  {
    FloorPow2IsLargest(degree, (len - 1) / CHUNK_LEN);
  }

  /** A row of chunks that is hashed in one batch has one value a chunk. */
  lemma LeavesFit(degree: nat, len: nat)
    requires 0 < len <= degree * CHUNK_LEN
    ensures FitsWidth(degree, NumChunks(len), len)
  {
  }

  /** A full subtree splits into two full halves. */
  lemma FullHalves(len: nat)
    requires len > CHUNK_LEN && IsFull(len)
    ensures LeftLen(len) * 2 == len && IsFull(LeftLen(len))
  {
    var c := len / CHUNK_LEN;
    FloorPow2Unique(c / 2, (len - 1) / CHUNK_LEN);
  }

  /** The width arithmetic of one recursive step. */
  lemma JoinWidths(degree: nat, len: nat, leftN: nat, rightN: nat)
    requires IsPow2(degree) && len > degree * CHUNK_LEN && len > CHUNK_LEN
    requires FitsWidth(degree, leftN, LeftLen(len)) && FitsWidth(degree, rightN, len - LeftLen(len))
    ensures leftN == (if LeftLen(len) > CHUNK_LEN && degree == 1 then 2 else degree)
    ensures IsPow2(leftN) && 1 <= rightN <= leftN
    ensures leftN == 1 ==> rightN == 1 && FitsWidth(degree, 2, len)
    ensures leftN > 1 ==> FitsWidth(degree, (leftN + rightN + 1) / 2, len)
  {
    hide IsPow2;
    LeftWidth(degree, len);
    assert IsPow2(2) by { Pow2IsPow2(1); assert Pow2(1) == 2; }
    if IsFull(len) {
      FullHalves(len);
    }
  }

  /** left_len: the number of bytes of the left subtree, by rounding down the number of chunks that leave a byte. */
  method LeftLength(contentLen: nat) returns (l: nat)
    requires CHUNK_LEN < contentLen < 0x1_0000_0000_0000_0000
    ensures l == LeftLen(contentLen)
  {
    var fullChunks := (contentLen - 1) / CHUNK_LEN;
    var p := RoundDownToPowerOf2(fullChunks);
    l := p * CHUNK_LEN;
  }

  /** Hash a subtree down to a row of chaining values.  What the row stands for does not depend on the degree. */
  method CompressSubtreeWide(m: Mode, p: Platform, input: seq<Byte>, counter: nat, out: array<CV>, off: nat)
    returns (n: nat, ghost cvs: seq<CV>)
    requires p.Valid() && 0 < |input| < 0x1_0000_0000_0000_0000 && off + MaxWidth(p.degree) <= out.Length
    modifies out
    ensures n == |cvs| && FitsWidth(p.degree, n, |input|) && StandsFor(m, cvs, input, counter)
    ensures off + n <= out.Length && out[..] == Splice(old(out[..]), off, cvs)
    decreases |input|
  {
    hide StandsFor, LeafCVs, PairUp, IsPow2, FitsWidth, LeftLen, Splice;
    if |input| <= p.degree * CHUNK_LEN {
      n := CompressChunksParallel(m, p, input, counter, out, off);
      cvs := LeafCVs(m, input, counter);
      LeavesStandFor(m, input, counter);
      LeavesFit(p.degree, |input|);
      return;
    }
    LeftWidth(p.degree, |input|);
    var leftLen := LeftLength(|input|);
    var rightCounter := counter + leftLen / CHUNK_LEN;
    var cvArray := new CV[2 * p.MaxDegreeOr2()];
    ghost var scratch := cvArray[..];
    var degree := p.degree;
    if leftLen > CHUNK_LEN && degree == 1 {
      degree := 2;
    }
    ghost var left, right;
    var leftN, rightN;
    leftN, left := CompressSubtreeWide(m, p, input[..leftLen], counter, cvArray, 0);
    rightN, right := CompressSubtreeWide(m, p, input[leftLen..], rightCounter, cvArray, degree);
    JoinWidths(p.degree, |input|, leftN, rightN);
    SpliceTwo(scratch, left, right);
    ConcatStandsFor(m, left, right, input, counter);
    if leftN == 1 {
      cvs := left + right;
      CopyRow(cvArray, out, off, 2);
      return 2, cvs;
    }
    cvs := PairUp(m, left + right);
    PairUpStandsFor(m, left + right, input, counter);
    n := CompressParentsParallel(m, p, cvArray, leftN + rightN, out, off);
  }

  /** Condense a subtree of more than one chunk to the chaining values of its two children, leaving the parent
      itself uncompressed. */
  method CompressSubtreeToParentNode(m: Mode, p: Platform, input: seq<Byte>, counter: nat)
    returns (left: CV, right: CV)
    requires p.Valid() && CHUNK_LEN < |input| < 0x1_0000_0000_0000_0000
    ensures (left, right) == TreeChildren(m, input, counter)
  {
    hide PairUp, TreeChildren, Reduce, TreeOutput, FloorPow2, IsFull, FullWidth;
    var cvArray := new CV[p.MaxDegreeOr2()];
    var num, cvs := CompressSubtreeWide(m, p, input, counter, cvArray, 0);
    var outArray := new CV[p.MaxDegreeOr2() / 2];
    assert cvArray[..num] == cvs;
    while num > 2 && num <= p.MaxDegreeOr2()
      invariant 2 <= num <= p.MaxDegreeOr2()
      invariant num == |cvs| && cvArray[..num] == cvs && StandsFor(m, cvs, input, counter)
    {
      PairUpStandsFor(m, cvs, input, counter);
      num := CompressParentsParallel(m, p, cvArray, num, outArray, 0);
      cvs := PairUp(m, cvs);
      assert outArray[..num] == cvs;
      CopyRow(outArray, cvArray, 0, num);
    }
    left, right := cvArray[0], cvArray[1];
    ChildrenOfTwo(m, cvs);
  }

  /** memcpy of the first `n` entries of `src` to position `off` of `dst`. */
  method CopyRow(src: array<CV>, dst: array<CV>, off: nat, n: nat)
    requires src != dst && n <= src.Length && off + n <= dst.Length
    modifies dst
    ensures dst[..] == Splice(old(dst[..]), off, src[..n])
  {
    forall i | 0 <= i < n {
      dst[off + i] := src[i];
    }
  }
}
