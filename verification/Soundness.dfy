/** Two inputs with the same hash give two compressions with the same result: the tree leaves nothing about its input
    open, neither where it ends nor how it is cut into blocks, chunks and subtrees. */
module Soundness {
  import opened Bits
  import opened Words
  import opened Tree
  import opened Layout

  /** The compression of block `i` of a chunk, not its last. */
  function BlockNode(m: Mode, bytes: seq<Byte>, counter: nat, i: nat): Output
    requires BLOCK_LEN * (i + 1) <= |bytes|
  {
    Output(ChainBlocks(m, bytes, counter, i), bytes[BLOCK_LEN * i..BLOCK_LEN * (i + 1)], BLOCK_LEN, counter,
           Or(m.flags, StartFlag(i)))
  }

  lemma ChainStep(m: Mode, bytes: seq<Byte>, counter: nat, i: nat)
    requires BLOCK_LEN * (i + 1) <= |bytes|
    ensures ChainBlocks(m, bytes, counter, i + 1) == ChainingValue(m.f, BlockNode(m, bytes, counter, i))
  {
    hide Or;
  }

  function BlockNodes(m: Mode, bytes: seq<Byte>, counter: nat): set<Output> {
    set i | 0 <= i < BlocksBeforeLast(|bytes|) :: BlockNode(m, bytes, counter, i)
  }

  /** All compressions below the topmost one of a tree: the ones whose results are chaining values. */
  function Below(m: Mode, bytes: seq<Byte>, counter: nat): set<Output>
    decreases |bytes|
  {
    if |bytes| <= CHUNK_LEN then BlockNodes(m, bytes, counter)
    else
      var l := LeftLen(|bytes|);
      Below(m, bytes[..l], counter) + Below(m, bytes[l..], counter + l / CHUNK_LEN) +
      {TreeOutput(m, bytes[..l], counter), TreeOutput(m, bytes[l..], counter + l / CHUNK_LEN)}
  }

  /** No two of these compressions have the same result. */
  ghost predicate NoCollision(f: Compression, nodes: set<Output>) {
    forall o, o' :: o in nodes && o' in nodes && ChainingValue(f, o) == ChainingValue(f, o') ==> o == o'
  }

  // ----- chunks

  lemma SameBlock(m: Mode, a: seq<Byte>, b: seq<Byte>, counter: nat, i: nat, j: nat, nodes: set<Output>)
    requires IsMode(m.flags) && NoCollision(m.f, nodes)
    requires BLOCK_LEN * (i + 1) <= |a| && BLOCK_LEN * (j + 1) <= |b|
    requires BlockNode(m, a, counter, i) in nodes && BlockNode(m, b, counter, j) in nodes
    requires ChainBlocks(m, a, counter, i + 1) == ChainBlocks(m, b, counter, j + 1)
    ensures ChainBlocks(m, a, counter, i) == ChainBlocks(m, b, counter, j) && (i == 0 <==> j == 0)
    ensures a[BLOCK_LEN * i..BLOCK_LEN * (i + 1)] == b[BLOCK_LEN * j..BLOCK_LEN * (j + 1)]
  {
    hide Or, ChainBlocks, ChainingValue;
    ChainStep(m, a, counter, i);
    ChainStep(m, b, counter, j);
    assert BlockNode(m, a, counter, i) == BlockNode(m, b, counter, j);
    FlagSums(m.flags);
  }

  /** The same chaining value after `i` and `j` blocks: the same blocks, and as many. */
  lemma {:induction false} SameBlocks(m: Mode, a: seq<Byte>, b: seq<Byte>, counter: nat, i: nat, j: nat,
                                      nodes: set<Output>)
    requires IsMode(m.flags) && NoCollision(m.f, nodes)
    requires BLOCK_LEN * i <= |a| && BLOCK_LEN * j <= |b| && (i == 0 <==> j == 0)
    requires forall k :: 0 <= k < i ==> BlockNode(m, a, counter, k) in nodes
    requires forall k :: 0 <= k < j ==> BlockNode(m, b, counter, k) in nodes
    requires ChainBlocks(m, a, counter, i) == ChainBlocks(m, b, counter, j)
    ensures i == j && a[..BLOCK_LEN * i] == b[..BLOCK_LEN * j]
  {
    if i > 0 {
      hide ChainBlocks, BlockNode, NoCollision;
      SameBlock(m, a, b, counter, i - 1, j - 1, nodes);
      SameBlocks(m, a, b, counter, i - 1, j - 1, nodes);
      LastBlock(a, i);
      LastBlock(b, j);
    }
  }

  lemma LastBlock(a: seq<Byte>, i: nat)
    requires i > 0 && BLOCK_LEN * i <= |a|
    ensures a[..BLOCK_LEN * i] == a[..BLOCK_LEN * (i - 1)] + a[BLOCK_LEN * (i - 1)..BLOCK_LEN * i]
  {
  }

  lemma PadInjective(a: seq<Byte>, b: seq<Byte>)
    requires |a| == |b| <= BLOCK_LEN && Pad(a) == Pad(b)
    ensures a == b
  {
    assert a == Pad(a)[..|a|] && b == Pad(b)[..|b|];
  }

  lemma ChunkSound(m: Mode, a: seq<Byte>, b: seq<Byte>, i: nat, j: nat, nodes: set<Output>)
    requires IsMode(m.flags) && |a| <= CHUNK_LEN && |b| <= CHUNK_LEN
    requires NoCollision(m.f, nodes) && BlockNodes(m, a, i) <= nodes && BlockNodes(m, b, j) <= nodes
    requires ChunkOutput(m, a, i) == ChunkOutput(m, b, j)
    ensures a == b && i == j
  {
    hide Or, ChainBlocks, NoCollision, BlockNode, Pad;
    FlagSums(m.flags);
    var n, k := BlocksBeforeLast(|a|), BlocksBeforeLast(|b|);
    assert n == 0 <==> k == 0;
    forall x | 0 <= x < n
      ensures BlockNode(m, a, i, x) in nodes
    {
      assert BlockNode(m, a, i, x) in BlockNodes(m, a, i);
    }
    forall x | 0 <= x < k
      ensures BlockNode(m, b, i, x) in nodes
    {
      assert BlockNode(m, b, j, x) in BlockNodes(m, b, j);
    }
    SameBlocks(m, a, b, i, n, k, nodes);
    PadInjective(a[BLOCK_LEN * n..], b[BLOCK_LEN * k..]);
    assert a == a[..BLOCK_LEN * n] + a[BLOCK_LEN * n..] && b == b[..BLOCK_LEN * k] + b[BLOCK_LEN * k..];
  }

  // ----- trees

  lemma ParentInjective(m: Mode, l: CV, r: CV, l': CV, r': CV)
    requires ParentOutput(m, l, r) == ParentOutput(m, l', r')
    ensures l == l' && r == r'
  {
    hide Or, StoreCV;
    assert StoreCV(l) == (StoreCV(l) + StoreCV(r))[..32] && StoreCV(r) == (StoreCV(l) + StoreCV(r))[32..];
    assert StoreCV(l') == (StoreCV(l') + StoreCV(r'))[..32] && StoreCV(r') == (StoreCV(l') + StoreCV(r'))[32..];
    LoadStoreCV(l); LoadStoreCV(r); LoadStoreCV(l'); LoadStoreCV(r');
  }

  lemma ParentIsNoChunk(m: Mode, l: CV, r: CV, bytes: seq<Byte>, counter: nat)
    requires IsMode(m.flags)
    ensures ParentOutput(m, l, r) != ChunkOutput(m, bytes, counter)
  {
    hide Or, ChainBlocks;
    FlagSums(m.flags);
  }

  /** Trees with the same topmost node are over the same bytes at the same place, unless two of the compressions below
      collide. */
  lemma {:induction false} TreeSound(m: Mode, a: seq<Byte>, b: seq<Byte>, i: nat, j: nat, nodes: set<Output>)
    requires IsMode(m.flags) && NoCollision(m.f, nodes) && Below(m, a, i) <= nodes && Below(m, b, j) <= nodes
    requires TreeOutput(m, a, i) == TreeOutput(m, b, j)
    ensures a == b && i == j
    decreases |a|
  {
    hide ChunkOutput, ParentOutput, BlockNodes, IsMode, ChainingValue;
    if |a| <= CHUNK_LEN && |b| <= CHUNK_LEN {
      ChunkSound(m, a, b, i, j, nodes);
    } else if |a| <= CHUNK_LEN {
      var c := TreeChildren(m, b, j);
      TreeAt(m, b, j);
      ParentIsNoChunk(m, c.0, c.1, a, i);
    } else if |b| <= CHUNK_LEN {
      var c := TreeChildren(m, a, i);
      TreeAt(m, a, i);
      ParentIsNoChunk(m, c.0, c.1, b, j);
    } else {
      SubtreesSound(m, a, b, i, j, nodes);
    }
  }

  lemma BelowParts(m: Mode, bytes: seq<Byte>, i: nat)
    requires |bytes| > CHUNK_LEN
    ensures var l := LeftLen(|bytes|);
            && Below(m, bytes[..l], i) <= Below(m, bytes, i) && TreeOutput(m, bytes[..l], i) in Below(m, bytes, i)
            && Below(m, bytes[l..], i + l / CHUNK_LEN) <= Below(m, bytes, i)
            && TreeOutput(m, bytes[l..], i + l / CHUNK_LEN) in Below(m, bytes, i)
  {
    hide TreeOutput, LeftLen;
  }

  lemma SubtreesSound(m: Mode, a: seq<Byte>, b: seq<Byte>, i: nat, j: nat, nodes: set<Output>)
    requires IsMode(m.flags) && NoCollision(m.f, nodes) && Below(m, a, i) <= nodes && Below(m, b, j) <= nodes
    requires |a| > CHUNK_LEN && |b| > CHUNK_LEN && TreeOutput(m, a, i) == TreeOutput(m, b, j)
    ensures a == b && i == j
    decreases |a|, 0
  {
    hide ParentOutput, Below, IsMode, ChainingValue, TreeOutput, NoCollision, LeftLen;
    BelowParts(m, a, i);
    BelowParts(m, b, j);
    var l, k := LeftLen(|a|), LeftLen(|b|);
    var c, d := TreeChildren(m, a, i), TreeChildren(m, b, j);
    TreeAt(m, a, i);
    TreeAt(m, b, j);
    ParentInjective(m, c.0, c.1, d.0, d.1);
    Distinct(m.f, nodes, TreeOutput(m, a[..l], i), TreeOutput(m, b[..k], j));
    TreeSound(m, a[..l], b[..k], i, j, nodes);
    Distinct(m.f, nodes, TreeOutput(m, a[l..], i + l / CHUNK_LEN), TreeOutput(m, b[k..], j + k / CHUNK_LEN));
    TreeSound(m, a[l..], b[k..], i + l / CHUNK_LEN, j + k / CHUNK_LEN, nodes);
    assert a == a[..l] + a[l..] && b == b[..k] + b[k..];
  }

  lemma Distinct(f: Compression, nodes: set<Output>, o: Output, o': Output)
    requires NoCollision(f, nodes) && o in nodes && o' in nodes && ChainingValue(f, o) == ChainingValue(f, o')
    ensures o == o'
  {
  }

  /** For one block there is nothing that could collide. */
  lemma OneBlockSound(m: Mode, a: seq<Byte>, b: seq<Byte>)
    requires IsMode(m.flags) && |a| <= 64 && |b| <= 64 && TreeOutput(m, a, 0) == TreeOutput(m, b, 0)
    ensures a == b
  {
    hide TreeOutput, IsMode;
    assert Below(m, a, 0) == {} && Below(m, b, 0) == {};
    TreeSound(m, a, b, 0, 0, {});
  }

  /** So two different inputs with the same output give a collision: of two compressions inside the trees, or of the
      outputs of two different roots. */
  lemma CollisionInside(m: Mode, a: seq<Byte>, b: seq<Byte>, seek: nat, n: nat)
    requires IsMode(m.flags) && a != b && Hash(m, a, seek, n) == Hash(m, b, seek, n)
    ensures !NoCollision(m.f, Below(m, a, 0) + Below(m, b, 0)) ||
            (TreeOutput(m, a, 0) != TreeOutput(m, b, 0) &&
             RootBytes(m.f, TreeOutput(m, a, 0), seek, n) == RootBytes(m.f, TreeOutput(m, b, 0), seek, n))
  {
    hide TreeOutput, Below, NoCollision, RootBytes;
    var nodes := Below(m, a, 0) + Below(m, b, 0);
    if NoCollision(m.f, nodes) && TreeOutput(m, a, 0) == TreeOutput(m, b, 0) {
      TreeSound(m, a, b, 0, 0, nodes);
    }
  }
}
