/** What every compression of a BLAKE3 hash is given, in numbers: the blocks and their lengths, the counters, the flags.
    The tree is stated here once more without the names of the flags and the helper functions of its definition. */
module Layout {
  import opened Bits
  import opened Words
  import opened Tree

  /** The mode flags, which leave the four lowest bits free: 0, 16, 32 or 64. */
  predicate IsMode(flags: Flags) {
    flags % 16 == 0
  }

  /** The flags of blocks inside a chunk, of last blocks and parents, and of roots. */
  lemma FlagSums(flags: Flags)
    requires IsMode(flags)
    ensures Or(flags, StartFlag(0)) == flags + 1
    ensures forall n :: n > 0 ==> Or(flags, StartFlag(n)) == flags
    ensures Or(flags + 1, CHUNK_END) == flags + 3 && Or(flags, CHUNK_END) == flags + 2
    ensures Or(flags, PARENT) == flags + 4
    ensures Or(flags + 3, ROOT) == flags + 11 && Or(flags + 2, ROOT) == flags + 10 && Or(flags + 4, ROOT) == flags + 12
  {
    hide Or;
    var h := flags / 16;
    SixteenIsPow2();
    OrSmall();
    OrBelow(h, 16, 0, 0); OrBelow(h, 16, 0, 1); OrBelow(h, 16, 0, 2); OrBelow(h, 16, 0, 4);
    OrBelow(h, 16, 1, 2); OrBelow(h, 16, 3, 8); OrBelow(h, 16, 2, 8); OrBelow(h, 16, 4, 8);
  }

  lemma SixteenIsPow2()
    ensures IsPow2(16)
  {
    assert IsPow2(4);
  }

  lemma OrSmall()
    ensures Or(0, 0) == 0 && Or(0, 1) == 1 && Or(0, 2) == 2 && Or(0, 4) == 4
    ensures Or(1, 2) == 3 && Or(3, 8) == 11 && Or(2, 8) == 10 && Or(4, 8) == 12
  {
    LowOr(1, 2); LowOr(3, 8); LowOr(2, 8); LowOr(4, 8);
    LowOr(1, 4); LowOr(2, 4); LowOr(1, 2);
  }

  function Zeros(n: nat): seq<Byte> {
    seq(n, _ => 0)
  }

  // ----- one chunk

  /** The chaining values of a chunk's blocks, one after the other: the first block carries flag 1. */
  ghost predicate IsChain(m: Mode, bytes: seq<Byte>, counter: nat, cvs: seq<CV>) {
    && |cvs| > 0 && cvs[0] == m.key && 64 * (|cvs| - 1) <= |bytes|
    && forall i :: 0 <= i < |cvs| - 1 ==> cvs[i + 1] == BlockCV(m, cvs[i], bytes, counter, i)
  }

  function BlockCV(m: Mode, cv: CV, bytes: seq<Byte>, counter: nat, i: nat): CV
    requires 64 * i + 64 <= |bytes|
  {
    m.f.inPlace(cv, bytes[64 * i..64 * i + 64], 64, counter, if i == 0 then m.flags + 1 else m.flags)
  }

  lemma {:induction false} ChainIsUnique(m: Mode, bytes: seq<Byte>, counter: nat, cvs: seq<CV>, n: nat)
    requires IsMode(m.flags) && IsChain(m, bytes, counter, cvs) && n < |cvs|
    ensures ChainBlocks(m, bytes, counter, n) == cvs[n]
  {
    if n > 0 {
      hide Or;
      ChainIsUnique(m, bytes, counter, cvs, n - 1);
      FlagSums(m.flags);
      assert cvs[n - 1 + 1] == BlockCV(m, cvs[n - 1], bytes, counter, n - 1);
    }
  }

  /** At most 64 bytes: one block, padded with zeros, its length the number of bytes in it, both chunk flags. */
  lemma OneBlock(m: Mode, bytes: seq<Byte>, counter: nat)
    requires IsMode(m.flags) && |bytes| <= 64
    ensures TreeOutput(m, bytes, counter)
         == Output(m.key, bytes + Zeros(64 - |bytes|), |bytes|, counter, m.flags + 3)
  {
    hide Or;
    FlagSums(m.flags);
    assert bytes[0..] == bytes;
  }

  /** Up to 1024 bytes: the last block holds one to 64 of them and carries flag 2. */
  lemma OneChunk(m: Mode, bytes: seq<Byte>, counter: nat, cvs: seq<CV>)
    requires IsMode(m.flags) && 64 < |bytes| <= 1024
    requires IsChain(m, bytes, counter, cvs) && |cvs| == (|bytes| - 1) / 64 + 1
    ensures var last := 64 * (|cvs| - 1);
            && 0 < |bytes| - last <= 64
            && TreeOutput(m, bytes, counter)
            == Output(cvs[|cvs| - 1], bytes[last..] + Zeros(64 - (|bytes| - last)), |bytes| - last, counter,
                      m.flags + 2)
  {
    hide Or, ChainBlocks, IsChain;
    FlagSums(m.flags);
    ChainIsUnique(m, bytes, counter, cvs, |cvs| - 1);
  }

  /** More than 1024 bytes: a parent over the two chaining values, stored one after the other, left first, under the
      key, with counter 0 and flag 4. */
  lemma ManyChunks(m: Mode, bytes: seq<Byte>, counter: nat, l: nat)
    requires IsMode(m.flags) && |bytes| > 1024 && IsPow2(l) && 1024 * l < |bytes| <= 2048 * l
    ensures TreeOutput(m, bytes, counter)
         == Output(m.key, StoreCV(TreeCV(m, bytes[..1024 * l], counter)) +
                          StoreCV(TreeCV(m, bytes[1024 * l..], counter + l)), 64, 0, m.flags + 4)
  {
    hide Or, TreeOutput, TreeCV, StoreCV, IsPow2;
    FlagSums(m.flags);
    assert bytes[..1024 * l] + bytes[1024 * l..] == bytes;
    TreeOfFull(m, bytes[..1024 * l], bytes[1024 * l..], l, counter);
  }

  // ----- the output of the root

  lemma HashAt(m: Mode, input: seq<Byte>, seek: nat, n: nat, i: nat)
    requires i < n
    ensures Hash(m, input, seek, n)[i] == RootByte(m.f, TreeOutput(m, input, 0), seek + i)
  {
    hide TreeOutput, RootByte;
  }

  lemma RootByteAt(f: Compression, cv: CV, block: Block, len: nat, flags: Flags, p: nat)
    ensures RootByte(f, Output(cv, block, len, 0, flags), p) == f.xof(cv, block, len, p / 64, Or(flags, ROOT))[p % 64]
  {
    hide Or;
  }

  /** Byte `i` of a hash read from `seek` on, of at most 64 bytes of input. */
  lemma HashOfBlock(m: Mode, input: seq<Byte>, seek: nat, n: nat, i: nat)
    requires IsMode(m.flags) && |input| <= 64 && i < n
    ensures Hash(m, input, seek, n)[i]
         == m.f.xof(m.key, input + Zeros(64 - |input|), |input|, (seek + i) / 64, m.flags + 11)[(seek + i) % 64]
  {
    hide Or, TreeOutput, RootByte, Hash;
    OneBlock(m, input, 0);
    FlagSums(m.flags);
    HashAt(m, input, seek, n, i);
    RootByteAt(m.f, m.key, input + Zeros(64 - |input|), |input|, m.flags + 3, seek + i);
  }

  /** The first 64 bytes of it are one compression. */
  lemma FirstOutputBlock(m: Mode, input: seq<Byte>)
    requires IsMode(m.flags) && |input| <= 64
    ensures Hash(m, input, 0, 64) == m.f.xof(m.key, input + Zeros(64 - |input|), |input|, 0, m.flags + 11)
  {
    hide Or, TreeOutput, Hash;
    var wide := m.f.xof(m.key, input + Zeros(64 - |input|), |input|, 0, m.flags + 11);
    assert |Hash(m, input, 0, 64)| == 64 by { HashLength(m, input, 0, 64); }
    forall i | 0 <= i < 64
      ensures Hash(m, input, 0, 64)[i] == wide[i]
    {
      HashOfBlock(m, input, 0, 64, i);
    }
  }

  lemma HashLength(m: Mode, input: seq<Byte>, seek: nat, n: nat)
    ensures |Hash(m, input, seek, n)| == n
  {
  }

  /** Of a longer chunk. */
  lemma HashOfChunk(m: Mode, input: seq<Byte>, cvs: seq<CV>, seek: nat, n: nat, i: nat)
    requires IsMode(m.flags) && 64 < |input| <= 1024 && IsChain(m, input, 0, cvs) && |cvs| == (|input| - 1) / 64 + 1
    requires i < n
    ensures var last := 64 * (|cvs| - 1);
            && 0 < |input| - last <= 64
            && Hash(m, input, seek, n)[i]
            == m.f.xof(cvs[|cvs| - 1], input[last..] + Zeros(64 - (|input| - last)), |input| - last,
                       (seek + i) / 64, m.flags + 10)[(seek + i) % 64]
  {
    hide Or, TreeOutput, RootByte, Hash, IsChain;
    OneChunk(m, input, 0, cvs);
    FlagSums(m.flags);
    HashAt(m, input, seek, n, i);
    var last := 64 * (|cvs| - 1);
    var block := input[last..] + Zeros(64 - (|input| - last));
    RootByteAt(m.f, cvs[|cvs| - 1], block, |input| - last, m.flags + 2, seek + i);
  }

  /** Of more than one chunk. */
  lemma HashOfParent(m: Mode, input: seq<Byte>, l: nat, seek: nat, n: nat, i: nat)
    requires IsMode(m.flags) && |input| > 1024 && IsPow2(l) && 1024 * l < |input| <= 2048 * l && i < n
    ensures Hash(m, input, seek, n)[i]
         == m.f.xof(m.key, StoreCV(TreeCV(m, input[..1024 * l], 0)) + StoreCV(TreeCV(m, input[1024 * l..], l)), 64,
                    (seek + i) / 64, m.flags + 12)[(seek + i) % 64]
  {
    hide Or, TreeOutput, TreeCV, StoreCV, IsPow2, RootByte, Hash;
    ManyChunks(m, input, 0, l);
    FlagSums(m.flags);
    HashAt(m, input, seek, n, i);
    var left, right := TreeCV(m, input[..1024 * l], 0), TreeCV(m, input[1024 * l..], l);
    RootByteAt(m.f, m.key, StoreCV(left) + StoreCV(right), 64, m.flags + 4, seek + i);
  }

  // ----- which compressions a hash depends on

  /** Two compression functions agree wherever a chaining value is computed: on the mode flags plus 0 to 4. */
  ghost predicate SameInside(f: Compression, g: Compression, flags: Flags) {
    forall cv, block, len, counter, x ::
      x in {flags, flags + 1, flags + 2, flags + 3, flags + 4} ==>
        f.inPlace(cv, block, len, counter, x) == g.inPlace(cv, block, len, counter, x)
  }

  /** And wherever output is computed: on the mode flags plus 10, 11 or 12, all with bit 8. */
  ghost predicate SameAtRoot(f: Compression, g: Compression, flags: Flags) {
    forall cv, block, len, counter, x ::
      x in {flags + 10, flags + 11, flags + 12} ==>
        f.xof(cv, block, len, counter, x) == g.xof(cv, block, len, counter, x)
  }

  lemma {:induction false} SameChain(f: Compression, g: Compression, key: CV, flags: Flags, bytes: seq<Byte>,
                                     counter: nat, n: nat)
    requires IsMode(flags) && SameInside(f, g, flags) && 64 * n <= |bytes|
    ensures ChainBlocks(Mode(f, key, flags), bytes, counter, n) == ChainBlocks(Mode(g, key, flags), bytes, counter, n)
  {
    if n > 0 {
      hide Or;
      SameChain(f, g, key, flags, bytes, counter, n - 1);
      FlagSums(flags);
    }
  }

  lemma ChunkFlags(m: Mode, bytes: seq<Byte>, counter: nat)
    requires IsMode(m.flags)
    ensures ChunkOutput(m, bytes, counter).flags in {m.flags + 2, m.flags + 3}
  {
    hide Or, ChainBlocks;
    FlagSums(m.flags);
  }

  lemma SameChunk(f: Compression, g: Compression, key: CV, flags: Flags, bytes: seq<Byte>, counter: nat)
    requires IsMode(flags) && SameInside(f, g, flags)
    ensures ChunkOutput(Mode(f, key, flags), bytes, counter) == ChunkOutput(Mode(g, key, flags), bytes, counter)
  {
    hide Or, ChainBlocks, SameInside;
    SameChain(f, g, key, flags, bytes, counter, BlocksBeforeLast(|bytes|));
  }

  /** The topmost node of a tree does not depend on what the compression does with the root flag. */
  lemma {:induction false} SameTree(f: Compression, g: Compression, key: CV, flags: Flags, bytes: seq<Byte>,
                                    counter: nat)
    requires IsMode(flags) && SameInside(f, g, flags)
    ensures TreeOutput(Mode(f, key, flags), bytes, counter) == TreeOutput(Mode(g, key, flags), bytes, counter)
    ensures TreeOutput(Mode(f, key, flags), bytes, counter).flags in {flags + 2, flags + 3, flags + 4}
    ensures TreeCV(Mode(f, key, flags), bytes, counter) == TreeCV(Mode(g, key, flags), bytes, counter)
    decreases |bytes|
  {
    hide Or, ChunkOutput, StoreCV;
    FlagSums(flags);
    if |bytes| <= CHUNK_LEN {
      SameChunk(f, g, key, flags, bytes, counter);
      ChunkFlags(Mode(f, key, flags), bytes, counter);
    } else {
      var l := LeftLen(|bytes|);
      SameTree(f, g, key, flags, bytes[..l], counter);
      SameTree(f, g, key, flags, bytes[l..], counter + l / CHUNK_LEN);
    }
  }

  /** A hash depends on the compression only at the mode flags plus 0 to 4, for chaining values, and plus 10 to 12, for
      output: the two never mix, and neither do the modes, whose flags are 16 or more apart. */
  lemma HashDependsOn(f: Compression, g: Compression, key: CV, flags: Flags, input: seq<Byte>, seek: nat, n: nat)
    requires IsMode(flags) && SameInside(f, g, flags) && SameAtRoot(f, g, flags)
    ensures Hash(Mode(f, key, flags), input, seek, n) == Hash(Mode(g, key, flags), input, seek, n)
  {
    hide Or, TreeOutput, TreeCV, RootByte, Hash, SameInside;
    SameTree(f, g, key, flags, input, 0);
    var m, m' := Mode(f, key, flags), Mode(g, key, flags);
    HashLength(m, input, seek, n);
    HashLength(m', input, seek, n);
    forall i | 0 <= i < n
      ensures Hash(m, input, seek, n)[i] == Hash(m', input, seek, n)[i]
    {
      HashAt(m, input, seek, n, i);
      HashAt(m', input, seek, n, i);
      SameRootByte(f, g, flags, TreeOutput(m, input, 0), seek + i);
    }
  }

  lemma SameRootByte(f: Compression, g: Compression, flags: Flags, o: Output, p: nat)
    requires IsMode(flags) && SameAtRoot(f, g, flags) && o.flags in {flags + 2, flags + 3, flags + 4}
    ensures RootByte(f, o, p) == RootByte(g, o, p)
  {
    hide Or;
    FlagSums(flags);
  }
}
