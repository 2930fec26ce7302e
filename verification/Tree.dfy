/** The BLAKE3 hash tree, as section 2 of the BLAKE3 paper defines it: chunks of at most 1024 bytes at the leaves,
    parents over pairs of chaining values, the left subtree of every parent a full power of two of chunks.
    The compression function is a parameter: every statement holds for all total compression functions. */
module Tree {
  import opened Bits
  import opened Words

  /** A mask of flag bits, combined with `Or`. */
  type Flags = nat
  /** A message block: 64 bytes, short ones padded with zeros. */
  type Block = seq<Byte>
  /** A block of extended output. */
  type WideBlock = s: seq<Byte> | |s| == 64 witness seq(64, _ => 0)

  const BLOCK_LEN := 64
  const CHUNK_LEN := 1024
  const CHUNK_START: Flags := 1
  const CHUNK_END: Flags := 2
  const PARENT: Flags := 4
  const ROOT: Flags := 8
  const KEYED_HASH: Flags := 16
  const DERIVE_KEY_CONTEXT: Flags := 32
  const DERIVE_KEY_MATERIAL: Flags := 64

  /** The two forms of the compression function: a new chaining value, or 64 output bytes.  Arguments are the
      input chaining value, the message block, the number of message bytes in it, the counter and the flags. */
  datatype Compression = Compression(
    inPlace: (CV, Block, nat, nat, Flags) -> CV,
    xof: (CV, Block, nat, nat, Flags) -> WideBlock)

  /** What one hash computation fixes: the compression function, the key words and the mode flags. */
  datatype Mode = Mode(f: Compression, key: CV, flags: Flags)

  /** A node whose last compression is still to be done. */
  datatype Output = Output(cv: CV, block: Block, blockLen: nat, counter: nat, flags: Flags)

  function ChainingValue(f: Compression, o: Output): CV {
    f.inPlace(o.cv, o.block, o.blockLen, o.counter, o.flags)
  }

  // ----- nodes

  function StartFlag(n: nat): Flags {
    if n == 0 then CHUNK_START else 0
  }

  /** The chaining value after the first `n` blocks of a chunk, none of which is the chunk's last. */
  function ChainBlocks(m: Mode, bytes: seq<Byte>, counter: nat, n: nat): CV
    requires BLOCK_LEN * n <= |bytes|
  {
    if n == 0 then m.key
    else
      m.f.inPlace(ChainBlocks(m, bytes, counter, n - 1), bytes[BLOCK_LEN * (n - 1)..BLOCK_LEN * n],
                  BLOCK_LEN, counter, Or(m.flags, StartFlag(n - 1)))
  }

  /** The number of blocks before the last one; an empty chunk has one empty block. */
  function BlocksBeforeLast(len: nat): (n: nat)
    ensures BLOCK_LEN * n <= len <= BLOCK_LEN * n + BLOCK_LEN
  {
    if len == 0 then 0 else (len - 1) / BLOCK_LEN
  }

  function Pad(bytes: seq<Byte>): (b: Block)
    requires |bytes| <= BLOCK_LEN
    ensures |b| == BLOCK_LEN
  {
    bytes + seq(BLOCK_LEN - |bytes|, _ => 0)
  }

  function ChunkOutput(m: Mode, bytes: seq<Byte>, counter: nat): Output {
    var n := BlocksBeforeLast(|bytes|);
    Output(ChainBlocks(m, bytes, counter, n), Pad(bytes[BLOCK_LEN * n..]), |bytes| - BLOCK_LEN * n, counter,
           Or(Or(m.flags, StartFlag(n)), CHUNK_END))
  }

  function ChunkCV(m: Mode, bytes: seq<Byte>, counter: nat): CV {
    ChainingValue(m.f, ChunkOutput(m, bytes, counter))
  }

  function ParentOutput(m: Mode, left: CV, right: CV): Output {
    Output(m.key, StoreCV(left) + StoreCV(right), BLOCK_LEN, 0, Or(m.flags, PARENT))
  }

  function ParentCV(m: Mode, left: CV, right: CV): CV {
    ChainingValue(m.f, ParentOutput(m, left, right))
  }

  // ----- the tree

  /** The number of bytes of the left subtree. */
  function LeftLen(len: nat): (l: nat)
    requires len > CHUNK_LEN
    ensures l % CHUNK_LEN == 0 && CHUNK_LEN <= l < len <= 2 * l && l / CHUNK_LEN == FloorPow2((len - 1) / CHUNK_LEN)
  {
    FloorPow2((len - 1) / CHUNK_LEN) * CHUNK_LEN
  }

  /** The left subtree is the largest power-of-two number of whole chunks that leaves a byte for the right one. */
  lemma LeftLenIsLargest(len: nat, chunks: nat)
    requires len > CHUNK_LEN && IsPow2(chunks) && chunks * CHUNK_LEN < len
    ensures IsPow2(LeftLen(len) / CHUNK_LEN) && LeftLen(len) < len && chunks * CHUNK_LEN <= LeftLen(len)
  {
    FloorPow2IsLargest(chunks, (len - 1) / CHUNK_LEN);
  }

  /** A full power of two of chunks followed by at least a byte and at most as much again splits right there. */
  lemma LeftLenOfFull(chunks: nat, rest: nat)
    requires IsPow2(chunks) && 0 < rest <= chunks * CHUNK_LEN
    ensures LeftLen(chunks * CHUNK_LEN + rest) == chunks * CHUNK_LEN
  {
    FloorPow2Unique(chunks, (chunks * CHUNK_LEN + rest - 1) / CHUNK_LEN);
  }

  /** The topmost node of the tree over `bytes`, whose first chunk has index `counter`. */
  function TreeOutput(m: Mode, bytes: seq<Byte>, counter: nat): Output
    decreases |bytes|
  {
    if |bytes| <= CHUNK_LEN then ChunkOutput(m, bytes, counter)
    else
      var l := LeftLen(|bytes|);
      ParentOutput(m, ChainingValue(m.f, TreeOutput(m, bytes[..l], counter)),
                   ChainingValue(m.f, TreeOutput(m, bytes[l..], counter + l / CHUNK_LEN)))
  }

  function TreeCV(m: Mode, bytes: seq<Byte>, counter: nat): CV {
    ChainingValue(m.f, TreeOutput(m, bytes, counter))
  }

  /** The chaining values of the two children of the root. */
  function TreeChildren(m: Mode, bytes: seq<Byte>, counter: nat): (CV, CV)
    requires |bytes| > CHUNK_LEN
  {
    var l := LeftLen(|bytes|);
    (TreeCV(m, bytes[..l], counter), TreeCV(m, bytes[l..], counter + l / CHUNK_LEN))
  }

  lemma TreeAt(m: Mode, bytes: seq<Byte>, counter: nat)
    requires |bytes| > CHUNK_LEN
    ensures var c := TreeChildren(m, bytes, counter); TreeOutput(m, bytes, counter) == ParentOutput(m, c.0, c.1)
  {
  }

  /** The tree over a full power of two of chunks followed by at most as much again. */
  lemma TreeOfFull(m: Mode, full: seq<Byte>, rest: seq<Byte>, chunks: nat, counter: nat)
    requires IsPow2(chunks) && |full| == chunks * CHUNK_LEN && 0 < |rest| <= |full|
    ensures TreeOutput(m, full + rest, counter)
         == ParentOutput(m, TreeCV(m, full, counter), TreeCV(m, rest, counter + chunks))
  {
    hide ChunkOutput, ChainingValue, TreeCV, TreeOutput, FloorPow2, IsPow2;
    LeftLenOfFull(chunks, |rest|);
    var bytes := full + rest;
    assert bytes[..|full|] == full && bytes[|full|..] == rest;
    TreeAt(m, bytes, counter);
  }

  // ----- extendable output (section 2.6)

  /** Byte `p` of the output stream of a root node. */
  function RootByte(f: Compression, o: Output, p: nat): Byte {
    f.xof(o.cv, o.block, o.blockLen, p / 64, Or(o.flags, ROOT))[p % 64]
  }

  /** Bytes `seek` up to `seek + n` of that stream. */
  function RootBytes(f: Compression, o: Output, seek: nat, n: nat): (r: seq<Byte>)
    ensures |r| == n
  {
    seq(n, i requires 0 <= i < n => RootByte(f, o, seek + i))
  }

  /** Adjacent reads concatenate to one longer read, so a shorter read is a prefix of a longer one. */
  lemma AdjacentReads(f: Compression, o: Output, seek: nat, n: nat, k: nat)
    ensures RootBytes(f, o, seek, n) + RootBytes(f, o, seek + n, k) == RootBytes(f, o, seek, n + k)
    ensures RootBytes(f, o, seek, n) <= RootBytes(f, o, seek, n + k)
  {
  }

  /** The hash of a whole input: `n` bytes of output from position `seek`. */
  function Hash(m: Mode, input: seq<Byte>, seek: nat, n: nat): seq<Byte> {
    RootBytes(m.f, TreeOutput(m, input, 0), seek, n)
  }

  // ----- the tree over a row of chaining values

  /** The left-balanced tree over a row of chaining values, all parents compressed. */
  function Reduce(m: Mode, cvs: seq<CV>): CV
    requires |cvs| > 0
    decreases |cvs|
  {
    if |cvs| == 1 then cvs[0]
    else
      var k := FloorPow2(|cvs| - 1);
      ParentCV(m, Reduce(m, cvs[..k]), Reduce(m, cvs[k..]))
  }

  /** The two children of the root of that tree. */
  function Children(m: Mode, cvs: seq<CV>): (CV, CV)
    requires |cvs| >= 2
  {
    var k := FloorPow2(|cvs| - 1);
    (Reduce(m, cvs[..k]), Reduce(m, cvs[k..]))
  }

  /** One layer of parents; an odd chaining value at the end is carried through. */
  function PairUp(m: Mode, cvs: seq<CV>): (r: seq<CV>)
    ensures |r| == (|cvs| + 1) / 2
  {
    if |cvs| < 2 then cvs else [ParentCV(m, cvs[0], cvs[1])] + PairUp(m, cvs[2..])
  }

  lemma PairUpStep(m: Mode, cvs: seq<CV>)
    requires |cvs| >= 2
    ensures PairUp(m, cvs) == [ParentCV(m, cvs[0], cvs[1])] + PairUp(m, cvs[2..])
  {
  }

  lemma {:induction false} PairUpConcat(m: Mode, a: seq<CV>, b: seq<CV>)
    requires |a| % 2 == 0
    ensures PairUp(m, a + b) == PairUp(m, a) + PairUp(m, b)
  {
    hide ParentCV;
    var ab := a + b;
    if |a| == 0 {
      assert ab == b;
    } else {
      PairUpStep(m, ab);
      PairUpStep(m, a);
      var rest := a[2..];
      assert ab[0] == a[0] && ab[1] == a[1] && ab[2..] == rest + b;
      PairUpConcat(m, rest, b);
    }
  }

  lemma {:induction false} PairUpIndex(m: Mode, cvs: seq<CV>, i: nat)
    requires 2 * i < |cvs|
    ensures PairUp(m, cvs)[i] == if 2 * i + 1 < |cvs| then ParentCV(m, cvs[2 * i], cvs[2 * i + 1]) else cvs[2 * i]
  {
    hide ParentCV;
    if i > 0 {
      PairUpIndex(m, cvs[2..], i - 1);
    }
  }

  lemma ChildrenAt(m: Mode, cvs: seq<CV>, k: nat)
    requires |cvs| >= 2 && k == FloorPow2(|cvs| - 1)
    ensures Children(m, cvs) == (Reduce(m, cvs[..k]), Reduce(m, cvs[k..]))
  {
  }

  lemma ReduceAt(m: Mode, cvs: seq<CV>)
    requires |cvs| >= 2
    ensures Reduce(m, cvs) == ParentCV(m, Children(m, cvs).0, Children(m, cvs).1)
  {
  }

  /** A row of a power of two of values, followed by at least one and at most as many, splits right there. */
  lemma ChildrenOfConcat(m: Mode, a: seq<CV>, b: seq<CV>)
    requires IsPow2(|a|) && 0 < |b| <= |a|
    ensures Children(m, a + b) == (Reduce(m, a), Reduce(m, b))
  {
    var ab := a + b;
    assert ab[..|a|] == a && ab[|a|..] == b;
    FloorPow2Unique(|a|, |ab| - 1);
    ChildrenAt(m, ab, |a|);
  }

  /** Where the tree over a row splits, and that pairing up splits it in the same place, half as far along. */
  lemma PairUpSplit(m: Mode, cvs: seq<CV>) returns (a: seq<CV>, b: seq<CV>)
    requires |cvs| >= 2
    ensures cvs == a + b && IsPow2(|a|) && 0 < |b| <= |a|
    ensures |cvs| >= 3 ==>
              PairUp(m, cvs) == PairUp(m, a) + PairUp(m, b) && IsPow2((|a| + 1) / 2) && |a| % 2 == 0
  {
    hide ParentCV, PairUp;
    var k := FloorPow2(|cvs| - 1);
    a, b := cvs[..k], cvs[k..];
    if |cvs| >= 3 {
      PairUpConcat(m, a, b);
    }
  }

  /** One layer of pairing, with an odd chaining value carried through, keeps the value of the tree. */
  lemma {:induction false} PairUpKeepsReduce(m: Mode, cvs: seq<CV>)
    requires |cvs| > 0
    ensures Reduce(m, PairUp(m, cvs)) == Reduce(m, cvs)
    decreases |cvs|, 1
  {
    if |cvs| == 2 {
      PairUpOfTwo(m, cvs);
    } else if |cvs| >= 3 {
      PairUpKeepsChildren(m, cvs);
      ReduceAt(m, cvs);
      ReduceAt(m, PairUp(m, cvs));
    }
  }

  lemma ChildrenOfTwo(m: Mode, cvs: seq<CV>)
    requires |cvs| == 2
    ensures Children(m, cvs) == (cvs[0], cvs[1])
  {
    assert cvs == [cvs[0]] + [cvs[1]];
    ChildrenOfConcat(m, [cvs[0]], [cvs[1]]);
  }

  lemma PairUpOfTwo(m: Mode, cvs: seq<CV>)
    requires |cvs| == 2
    ensures PairUp(m, cvs) == [Reduce(m, cvs)]
  {
    ChildrenOfTwo(m, cvs);
    ReduceAt(m, cvs);
  }

  /** As long as more than two chaining values are left, it also keeps both children of the root, so the root
      itself is never compressed. */
  lemma {:induction false} PairUpKeepsChildren(m: Mode, cvs: seq<CV>)
    requires |cvs| >= 3
    ensures Children(m, PairUp(m, cvs)) == Children(m, cvs)
    decreases |cvs|, 0
  {
    var a, b := PairUpSplit(m, cvs);
    PairUpKeepsReduce(m, a);
    PairUpKeepsReduce(m, b);
    ChildrenOfConcat(m, a, b);
    ChildrenOfConcat(m, PairUp(m, a), PairUp(m, b));
  }

  // ----- the row of all chunks

  /** The chaining values of the chunks of `bytes`, chunk `i` under counter `counter + i`. */
  function LeafCVs(m: Mode, bytes: seq<Byte>, counter: nat): (r: seq<CV>)
    requires |bytes| > 0
    ensures |r| == (|bytes| - 1) / CHUNK_LEN + 1
  {
    if |bytes| <= CHUNK_LEN then [ChunkCV(m, bytes, counter)]
    else [ChunkCV(m, bytes[..CHUNK_LEN], counter)] + LeafCVs(m, bytes[CHUNK_LEN..], counter + 1)
  }

  lemma {:induction false} LeafCVsConcat(m: Mode, a: seq<Byte>, b: seq<Byte>, chunks: nat, counter: nat)
    requires |a| == chunks * CHUNK_LEN && chunks > 0 && |b| > 0
    ensures LeafCVs(m, a + b, counter) == LeafCVs(m, a, counter) + LeafCVs(m, b, counter + chunks)
    decreases chunks
  {
    hide ChunkCV;
    var ab, first, rest := a + b, a[..CHUNK_LEN], a[CHUNK_LEN..];
    assert ab[..CHUNK_LEN] == first && ab[CHUNK_LEN..] == rest + b;
    LeafCVsStep(m, ab, counter);
    if chunks > 1 {
      LeafCVsStep(m, a, counter);
      LeafCVsConcat(m, rest, b, chunks - 1, counter + 1);
    } else {
      assert first == a && rest + b == b;
    }
  }

  lemma LeafCVsStep(m: Mode, bytes: seq<Byte>, counter: nat)
    requires |bytes| > CHUNK_LEN
    ensures LeafCVs(m, bytes, counter)
         == [ChunkCV(m, bytes[..CHUNK_LEN], counter)] + LeafCVs(m, bytes[CHUNK_LEN..], counter + 1)
  {
  }

  /** Where the tree over more than a chunk splits, and that the row of its chunks splits in the same place. */
  lemma LeavesSplit(m: Mode, bytes: seq<Byte>, counter: nat)
    returns (left: seq<Byte>, right: seq<Byte>, rightCounter: nat)
    requires |bytes| > CHUNK_LEN
    ensures bytes == left + right && 0 < |right| <= |left| < |bytes|
    ensures LeafCVs(m, bytes, counter) == LeafCVs(m, left, counter) + LeafCVs(m, right, rightCounter)
    ensures IsPow2(|LeafCVs(m, left, counter)|)
    ensures TreeChildren(m, bytes, counter) == (TreeCV(m, left, counter), TreeCV(m, right, rightCounter))
  {
    hide ChunkOutput, ChainingValue, TreeCV, ChunkCV, TreeOutput, LeafCVs;
    var l := LeftLen(|bytes|);
    left, right, rightCounter := bytes[..l], bytes[l..], counter + l / CHUNK_LEN;
    assert bytes == left + right;
    LeafCVsConcat(m, left, right, l / CHUNK_LEN, counter);
  }

  /** The row of all chunks has the tree's children. */
  lemma {:induction false} ChildrenOfLeaves(m: Mode, bytes: seq<Byte>, counter: nat)
    requires |bytes| > CHUNK_LEN
    ensures Children(m, LeafCVs(m, bytes, counter)) == TreeChildren(m, bytes, counter)
    decreases |bytes|, 0
  {
    var left, right, rc := LeavesSplit(m, bytes, counter);
    ReduceLeaves(m, left, counter);
    ReduceLeaves(m, right, rc);
    ChildrenOfConcat(m, LeafCVs(m, left, counter), LeafCVs(m, right, rc));
  }

  /** Reducing the row of all chunks gives the chaining value of the tree. */
  lemma {:induction false} ReduceLeaves(m: Mode, bytes: seq<Byte>, counter: nat)
    requires |bytes| > 0
    ensures Reduce(m, LeafCVs(m, bytes, counter)) == TreeCV(m, bytes, counter)
    decreases |bytes|, 1
  {
    if |bytes| > CHUNK_LEN {
      ChildrenOfLeaves(m, bytes, counter);
      ReduceAt(m, LeafCVs(m, bytes, counter));
      TreeAt(m, bytes, counter);
    }
  }
}
