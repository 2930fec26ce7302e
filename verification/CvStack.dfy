/** The lazily merged stack of chaining values: which subtrees its entries stand for, when two of them are merged,
    and what rolling it up yields. */
module CvStack {
  import opened Bits
  import opened Tree
  import opened Words

  function Last<T>(s: seq<T>): T
    requires |s| > 0
  {
    s[|s| - 1]
  }

  function Front<T>(s: seq<T>): seq<T>
    requires |s| > 0
  {
    s[..|s| - 1]
  }

  // ----- what the entries stand for

  /** The entries are the chaining values of consecutive subtrees of `sizes` chunks that make up `data`. */
  ghost predicate Covers(m: Mode, data: seq<Byte>, cvs: seq<CV>, sizes: seq<nat>)
    decreases |cvs|
  {
    && |cvs| == |sizes|
    && if |cvs| == 0 then data == []
       else
         && 0 < CHUNK_LEN * Last(sizes) <= |data|
         && var cut := |data| - CHUNK_LEN * Last(sizes);
            && cut % CHUNK_LEN == 0
            && Last(cvs) == TreeCV(m, data[cut..], cut / CHUNK_LEN)
            && Covers(m, data[..cut], Front(cvs), Front(sizes))
  }

  lemma CoversPush(m: Mode, data: seq<Byte>, cvs: seq<CV>, sizes: seq<nat>, piece: seq<Byte>, size: nat)
    requires Covers(m, data, cvs, sizes) && |data| % CHUNK_LEN == 0 && |piece| == CHUNK_LEN * size && size > 0
    ensures Covers(m, data + piece, cvs + [TreeCV(m, piece, |data| / CHUNK_LEN)], sizes + [size])
  {
    hide TreeCV;
    var all := data + piece;
    assert all[..|data|] == data && all[|data|..] == piece;
    assert Front(cvs + [TreeCV(m, piece, |data| / CHUNK_LEN)]) == cvs && Front(sizes + [size]) == sizes;
  }

  /** Taking the top entry off. */
  lemma CoversPop(m: Mode, data: seq<Byte>, cvs: seq<CV>, sizes: seq<nat>) returns (rest: seq<Byte>, piece: seq<Byte>)
    requires Covers(m, data, cvs, sizes) && |cvs| > 0
    ensures data == rest + piece && |piece| == CHUNK_LEN * Last(sizes) > 0 && |rest| % CHUNK_LEN == 0
    ensures Last(cvs) == TreeCV(m, piece, |rest| / CHUNK_LEN) && Covers(m, rest, Front(cvs), Front(sizes))
  {
    hide TreeCV;
    var cut := |data| - CHUNK_LEN * Last(sizes);
    rest, piece := data[..cut], data[cut..];
  }

  /** Merging the two topmost entries, when they stand for subtrees of the same power of two of chunks. */
  lemma CoversMerge(m: Mode, data: seq<Byte>, cvs: seq<CV>, sizes: seq<nat>)
    requires Covers(m, data, cvs, sizes) && |cvs| == |sizes| >= 2
    requires IsPow2(Last(sizes)) && Last(Front(sizes)) == Last(sizes)
    ensures Covers(m, data, Front(Front(cvs)) + [ParentCV(m, Last(Front(cvs)), Last(cvs))],
                   Front(Front(sizes)) + [2 * Last(sizes)])
  {
    hide TreeOutput, Covers;
    var rest, right := CoversPop(m, data, cvs, sizes);
    var rest', left := CoversPop(m, rest, Front(cvs), Front(sizes));
    TwoFull(m, left, right, Last(sizes), |rest'| / CHUNK_LEN, |rest| / CHUNK_LEN);
    CoversPush(m, rest', Front(Front(cvs)), Front(Front(sizes)), left + right, 2 * Last(sizes));
    assert rest' + (left + right) == data;
  }

  // ----- rolling the stack up

  /** Parents over the entries from the top down, starting from the node `o` to the right of them all. */
  function RollUp(m: Mode, cvs: seq<CV>, o: Output): Output {
    if |cvs| == 0 then o
    else RollUp(m, Front(cvs), ParentOutput(m, Last(cvs), ChainingValue(m.f, o)))
  }

  /** Every entry is a power of two of chunks at least as long as everything to its right, `tail` bytes included. */
  predicate Dominated(sizes: seq<nat>, tail: nat) {
    |sizes| == 0 ||
    (IsPow2(Last(sizes)) && tail <= CHUNK_LEN * Last(sizes) &&
     Dominated(Front(sizes), tail + CHUNK_LEN * Last(sizes)))
  }

  /** Then rolling up gives the tree over everything: every split falls where the tree splits. */
  lemma {:induction false} RollUpIsTree(m: Mode, data: seq<Byte>, cvs: seq<CV>, sizes: seq<nat>,
                                        rest: seq<Byte>, o: Output)
    requires Covers(m, data, cvs, sizes) && |data| % CHUNK_LEN == 0
    requires |rest| > 0 && Dominated(sizes, |rest|) && o == TreeOutput(m, rest, |data| / CHUNK_LEN)
    ensures RollUp(m, cvs, o) == TreeOutput(m, data + rest, 0)
    decreases |cvs|
  {
    hide TreeOutput, IsPow2, ParentOutput, ChainingValue;
    if |cvs| == 0 {
      assert data + rest == rest;
    } else {
      var data', piece := CoversPop(m, data, cvs, sizes);
      TreeOfFull(m, piece, rest, Last(sizes), |data'| / CHUNK_LEN);
      assert |data| / CHUNK_LEN == |data'| / CHUNK_LEN + Last(sizes);
      RollUpIsTree(m, data', Front(cvs), Front(sizes), piece + rest,
                   ParentOutput(m, Last(cvs), ChainingValue(m.f, o)));
      assert data' + (piece + rest) == data + rest;
    }
  }

  // ----- the shape of the stack

  /** After a push: the binary decomposition of the chunks before the last push, then the last push itself, which
      is aligned.  It need not be merged with its equals yet. */
  predicate Lazy(t: nat, sizes: seq<nat>) {
    if t == 0 then sizes == []
    else
      && |sizes| > 0
      && var s := Last(sizes);
         IsPow2(s) && s <= t && t % s == 0 && sizes == Parts(t - s, 1) + [s]
  }

  /** Fully merged: one entry for every set bit of the number of chunks. */
  predicate Merged(t: nat, sizes: seq<nat>) {
    sizes == Parts(t, 1)
  }

  /** Between updates with nothing in the chunk state: the two topmost entries are equal-sized siblings. */
  predicate Paired(t: nat, sizes: seq<nat>) {
    t > 0 ==> Lazy(t, sizes) && |sizes| >= 2 && Last(Front(sizes)) == Last(sizes)
  }

  lemma {:induction false} PartsAtLeast(q: nat, u: nat, i: nat)
    requires i < |Parts(q, u)| && u > 0
    ensures Parts(q, u)[i] >= u
  {
    if q > 0 && i < |Parts(q / 2, 2 * u)| {
      PartsAtLeast(q / 2, 2 * u, i);
    }
  }

  lemma PopCountSucc(x: nat)
    ensures PopCount(x + 1) <= PopCount(x) + 1
    ensures x % 2 == 0 ==> PopCount(x + 1) == PopCount(x) + 1
  {
    if x % 2 == 1 {
      assert (x + 1) / 2 == x / 2 + 1;
      PopCountSucc(x / 2);
    }
  }

  lemma EmptyIsMerged(sizes: seq<nat>)
    requires Lazy(0, sizes)
    ensures sizes == [] && Merged(0, sizes) && PopCount(0) == 0
  {
  }

  /** The last push, counted in units of its own size. */
  lemma LazyInUnits(t: nat, sizes: seq<nat>) returns (q: nat, s: nat)
    requires t > 0 && Lazy(t, sizes)
    ensures IsPow2(s) && s == Last(sizes) && t - s == q * s && t == (q + 1) * s
    ensures sizes == Parts(q, s) + [s] && PopCount(t) == PopCount(q + 1) && Parts(t, 1) == Parts(q + 1, s)
  {
    s := Last(sizes);
    q := t / s - 1;
    DivMod(t, s);
    MulSucc(q, s);
    PartsScale(q, s, 1);
    PartsScale(q + 1, s, 1);
  }

  /** Adding an aligned power of two carries into the binary decomposition exactly when the two topmost entries
      are equal, and then the number of entries exceeds the number of set bits; merging the two leaves the stack
      as if their union had been pushed.  Otherwise the stack is the binary decomposition already. */
  lemma CarryStep(t: nat, sizes: seq<nat>)
    requires t > 0 && Lazy(t, sizes)
    ensures |sizes| > PopCount(t) <==> |sizes| >= 2 && Last(Front(sizes)) == Last(sizes)
    ensures |sizes| > PopCount(t) ==>
              Lazy(t, Front(Front(sizes)) + [2 * Last(sizes)]) && IsPow2(Last(sizes))
    ensures |sizes| <= PopCount(t) ==> |sizes| == PopCount(t) && Merged(t, sizes)
  {
    var q, s := LazyInUnits(t, sizes);
    PartsLength(q, s);
    PopCountSucc(q);
    assert Front(sizes) == Parts(q, s);
    if q % 2 == 0 {
      PopCountDouble(q / 2);
      assert (q + 1) / 2 == q / 2;
      if |sizes| >= 2 {
        PartsAtLeast(q / 2, 2 * s, |sizes| - 2);
      }
    } else {
      CarryOdd(t, sizes, q, s);
    }
  }

  lemma OddUnits(q: nat, s: nat, t: nat)
    requires s > 0 && q % 2 == 1 && t == (q + 1) * s
    ensures t == (q / 2 + 1) * (2 * s) && t - 2 * s == q / 2 * (2 * s) && t % (2 * s) == 0 && 2 * s <= t
  {
    var h := q / 2;
    assert q + 1 == (h + 1) * 2;
    MulAssoc(h + 1, 2, s);
    MulSucc(h, 2 * s);
    DivModUnique(t, 2 * s, h + 1, 0);
  }

  lemma CarryOdd(t: nat, sizes: seq<nat>, q: nat, s: nat)
    requires IsPow2(s) && q % 2 == 1 && t == (q + 1) * s && sizes == Parts(q, s) + [s] && PopCount(t) == PopCount(q + 1)
    ensures |sizes| > PopCount(t) && |sizes| >= 2 && Last(Front(sizes)) == s
    ensures Lazy(t, Front(Front(sizes)) + [2 * s])
  {
    assert s > 0;
    hide PopCount, Parts, IsPow2;
    var h := q / 2;
    PartsLength(q, s);
    OddPopCount(q);
    OddUnits(q, s, t);
    PartsOdd(q, s);
    var top := Parts(h, 2 * s);
    LastOfSnoc(Parts(q, s), s);
    LastOfSnoc(top, s);
    LazyTop(t, h, 2 * s);
  }

  lemma LazyTop(t: nat, h: nat, s: nat)
    requires IsPow2(s / 2) && s % 2 == 0 && s <= t && t % s == 0 && t - s == h * s
    ensures Lazy(t, Parts(h, s) + [s])
  {
    hide Parts, IsPow2;
    LastOfSnoc(Parts(h, s), s);
    IsPow2Double(s / 2);
    PartsScale(h, s, 1);
  }

  lemma PartsOdd(q: nat, u: nat)
    requires q % 2 == 1
    ensures Parts(q, u) == Parts(q / 2, 2 * u) + [u]
  {
  }

  lemma OddPopCount(q: nat)
    requires q % 2 == 1
    ensures PopCount(q + 1) <= PopCount(q)
  {
    var h := q / 2;
    assert q == 2 * h + 1 && q + 1 == 2 * (h + 1);
    PopCountDouble(h);
    PopCountDouble(h + 1);
    PopCountSucc(h);
  }

  lemma IsPow2Double(s: nat)
    requires IsPow2(s)
    ensures IsPow2(2 * s)
  {
  }

  /** A merged stack is one whose last push had nothing to carry into. */
  lemma MergedIsLazy(t: nat)
    ensures Lazy(t, Parts(t, 1))
  {
    hide Parts, IsPow2;
    if t > 0 {
      var s := LowestPart(t, 1);
      LastOfSnoc(Parts(t - s, 1), s);
    } else {
      NoParts();
    }
  }

  lemma LastOfSnoc(a: seq<nat>, s: nat)
    ensures Last(a + [s]) == s && Front(a + [s]) == a
  {
  }

  lemma NoParts()
    ensures Parts(0, 1) == []
  {
  }

  lemma {:induction false} LowestPart(q: nat, u: nat) returns (s: nat)
    requires q > 0
    ensures IsPow2(s) && s <= q && q % s == 0 && Parts(q, u) == Parts(q - s, u) + [s * u]
    decreases q
  {
    if q % 2 == 1 {
      s := 1;
      assert (q - 1) / 2 == q / 2;
    } else {
      var h := LowestPart(q / 2, 2 * u);
      s := 2 * h;
      EvenDouble(q, h);
      IsPow2Double(h);
      MulAssoc(h, 2, u);
      hide Parts, IsPow2;
      PartsEven(q, u);
      PartsEven(q - s, u);
    }
  }

  lemma EvenDouble(q: nat, h: nat)
    requires q % 2 == 0 && 0 < h <= q / 2 && q / 2 % h == 0
    ensures 2 * h <= q && q % (2 * h) == 0 && (q - 2 * h) % 2 == 0 && (q - 2 * h) / 2 == q / 2 - h
  {
    Doubling(q / 2, h);
  }

  lemma PartsEven(q: nat, u: nat)
    requires q % 2 == 0
    ensures Parts(q, u) == Parts(q / 2, 2 * u)
  {
  }

  lemma AddUnit(t: nat, s: nat)
    requires s > 0 && t % s == 0
    ensures (t + s) % s == 0 && t == t / s * s && t + s == (t / s + 1) * s
  {
    DivMod(t, s);
    MulSucc(t / s, s);
    DivModUnique(t + s, s, t / s + 1, 0);
  }

  lemma HalfUnit(t: nat, s: nat)
    requires s > 0 && t % (2 * s) == 0
    ensures t % s == 0 && (t / s) % 2 == 0
  {
    DivMod(t, 2 * s);
    MulAssoc(t / (2 * s), 2, s);
    DivModUnique(t, s, t / (2 * s) * 2, 0);
  }

  /** Pushing an aligned subtree on a merged stack. */
  lemma PushOnMerged(t: nat, s: nat)
    requires IsPow2(s) && t % s == 0
    ensures Lazy(t + s, Parts(t, 1) + [s])
  {
    AddUnit(t, s);
    assert Last(Parts(t, 1) + [s]) == s;
  }

  /** When its sibling is still to come, there is nothing to merge. */
  lemma PushLeftSibling(t: nat, s: nat)
    requires IsPow2(s) && s > 0 && t % (2 * s) == 0
    ensures Merged(t + s, Parts(t, 1) + [s])
  {
    hide Parts, IsPow2;
    HalfUnit(t, s);
    AddUnit(t, s);
    var q := t / s;
    PartsScale(q, s, 1);
    PartsScale(q + 1, s, 1);
    PartsSucc(q, s);
  }

  lemma PartsSucc(q: nat, u: nat)
    requires q % 2 == 0
    ensures Parts(q + 1, u) == Parts(q, u) + [u]
  {
    assert (q + 1) / 2 == q / 2 && (q + 1) % 2 == 1;
    PartsEven(q, u);
  }

  /** The two siblings of a larger aligned subtree, pushed one after the other, end up side by side on top. */
  lemma PushPair(t: nat, s: nat)
    requires IsPow2(s) && t % (2 * s) == 0
    ensures t % s == 0 && (t + s) % s == 0
    ensures Merged(t + s, Parts(t, 1) + [s]) && Paired(t + 2 * s, Parts(t, 1) + [s] + [s])
  {
    hide Parts;
    HalfUnit(t, s);
    AddUnit(t, s);
    PushLeftSibling(t, s);
    PushOnMerged(t + s, s);
    var sizes := Parts(t, 1) + [s] + [s];
    assert Last(sizes) == s && Front(sizes) == Parts(t, 1) + [s];
  }

  /** With fewer than 2^64 bytes pushed the stack never holds more than 54 entries, one less than its 55 slots. */
  lemma DepthBound(t: nat, sizes: seq<nat>)
    requires Lazy(t, sizes) && CHUNK_LEN * t < 0x1_0000_0000_0000_0000
    ensures |sizes| <= 54
  {
    if t > 0 {
      PartsLength(t - Last(sizes), 1);
      WordPowers();
      PopCountBound(t - Last(sizes), 54);
    }
  }

  /** So has one entry more on a merged stack, as long as there is still a chunk to come for it. */
  lemma PushedDepth(t: nat, size: nat)
    requires size > 0 && CHUNK_LEN * (t + size) < 0x1_0000_0000_0000_0000
    ensures |Parts(t, 1)| + 1 <= 54
  {
    hide Parts, PopCount;
    PartsLength(t, 1);
    WordPowers();
    PopCountBound(t, 54);
  }

  /** A merged stack below one chunk less than 2^54 has 54 entries. */
  lemma AllOnesMerged(t: nat, sizes: seq<nat>)
    requires t == 0x40_0000_0000_0000 - 1 && Merged(t, sizes)
    ensures |sizes| == 54
  {
    hide Parts;
    WordPowers();
    AllOnes(54, 1);
  }

  lemma {:induction false} AllOnes(k: nat, u: nat)
    ensures |Parts(Pow2(k) - 1, u)| == k
  {
    if k > 0 {
      assert (Pow2(k) - 1) / 2 == Pow2(k - 1) - 1 && (Pow2(k) - 1) % 2 == 1;
      AllOnes(k - 1, 2 * u);
    }
  }

  // ----- the stack at finalization

  lemma {:induction false} PartsDominate(q: nat, u: nat, tail: nat)
    requires IsPow2(u) && tail <= CHUNK_LEN * u
    ensures Dominated(Parts(q, u), tail)
    decreases q
  {
    hide IsPow2;
    if q > 0 {
      IsPow2Double(u);
      if q % 2 == 1 {
        PartsDominate(q / 2, 2 * u, tail + CHUNK_LEN * u);
        assert Front(Parts(q, u)) == Parts(q / 2, 2 * u);
      } else {
        PartsDominate(q / 2, 2 * u, tail);
        assert Parts(q, u) == Parts(q / 2, 2 * u);
      }
    }
  }

  /** Below two equal siblings on top, the rest of the stack dominates the pair. */
  lemma PairedDominates(t: nat, sizes: seq<nat>)
    requires t > 0 && Paired(t, sizes)
    ensures |sizes| >= 2 && IsPow2(Last(sizes)) && Last(Front(sizes)) == Last(sizes)
    ensures |Front(sizes)| >= 1 && Dominated(Front(Front(sizes)), 2 * CHUNK_LEN * Last(sizes))
  {
    hide PopCount, Parts, Dominated;
    CarryStep(t, sizes);
    var merged := Front(Front(sizes)) + [2 * Last(sizes)];
    var q, s := LazyInUnits(t, merged);
    assert Front(Front(sizes)) == Front(merged) == Parts(q, s);
    PartsDominate(q, s, CHUNK_LEN * s);
  }

  lemma PartsEmpty(t: nat)
    requires Parts(t, 1) == []
    ensures t == 0
  {
    PartsLength(t, 1);
    PopCountZero(t);
  }

  lemma {:induction false} PopCountZero(x: nat)
    requires PopCount(x) == 0
    ensures x == 0
  {
    if x > 0 {
      PopCountZero(x / 2);
    }
  }

  /** Rolling up from the uncompressed parent of the two topmost siblings gives the whole tree. */
  lemma RollUpPaired(m: Mode, data: seq<Byte>, cvs: seq<CV>, sizes: seq<nat>, t: nat)
    requires Covers(m, data, cvs, sizes) && |data| == CHUNK_LEN * t > 0 && Paired(t, sizes) && |cvs| == |sizes|
    ensures |cvs| >= 2 && |Front(cvs)| >= 1
    ensures RollUp(m, Front(Front(cvs)), ParentOutput(m, Last(Front(cvs)), Last(cvs))) == TreeOutput(m, data, 0)
  {
    hide TreeOutput, Covers, Lazy, Dominated, Paired, RollUp, ParentOutput, ChainingValue, IsPow2;
    PairedDominates(t, sizes);
    var rest, right := CoversPop(m, data, cvs, sizes);
    var rest', left := CoversPop(m, rest, Front(cvs), Front(sizes));
    TwoFull(m, left, right, Last(sizes), |rest'| / CHUNK_LEN, |rest| / CHUNK_LEN);
    RollUpIsTree(m, rest', Front(Front(cvs)), Front(Front(sizes)), left + right,
                 ParentOutput(m, Last(Front(cvs)), Last(cvs)));
    assert rest' + (left + right) == data;
  }

  /** Two equal full subtrees side by side. */
  lemma TwoFull(m: Mode, left: seq<Byte>, right: seq<Byte>, size: nat, counter: nat, rightCounter: nat)
    requires IsPow2(size) && |left| == |right| == CHUNK_LEN * size && rightCounter == counter + size
    ensures TreeOutput(m, left + right, counter)
         == ParentOutput(m, TreeCV(m, left, counter), TreeCV(m, right, rightCounter))
  {
    hide TreeOutput, ParentOutput, TreeCV;
    TreeOfFull(m, left, right, size, counter);
  }

  /** Rolling a fully merged stack up from a last partial chunk gives the whole tree. */
  lemma RollUpMerged(m: Mode, data: seq<Byte>, cvs: seq<CV>, t: nat, last: seq<Byte>)
    requires Covers(m, data, cvs, Parts(t, 1)) && |data| == CHUNK_LEN * t && 0 < |last| <= CHUNK_LEN
    ensures RollUp(m, cvs, ChunkOutput(m, last, t)) == TreeOutput(m, data + last, 0)
  {
    hide ChunkOutput, Covers, Dominated, RollUp, Parts;
    PartsDominate(t, 1, |last|);
    assert |data| / CHUNK_LEN == t && |data| % CHUNK_LEN == 0;
    assert TreeOutput(m, last, t) == ChunkOutput(m, last, t);
    RollUpIsTree(m, data, cvs, Parts(t, 1), last, ChunkOutput(m, last, t));
  }

  /** No entry is longer than what the stack covers, and with two entries none covers all of it. */
  lemma {:induction false} EntriesFit(m: Mode, data: seq<Byte>, cvs: seq<CV>, sizes: seq<nat>, i: nat)
    requires Covers(m, data, cvs, sizes) && i < |sizes|
    ensures CHUNK_LEN * sizes[i] <= |data| && (|sizes| >= 2 ==> CHUNK_LEN * sizes[i] < |data|)
    decreases |cvs|
  {
    hide TreeCV;
    var rest, piece := CoversPop(m, data, cvs, sizes);
    if i < |sizes| - 1 {
      EntriesFit(m, rest, Front(cvs), Front(sizes), i);
    } else if |sizes| >= 2 {
      var rest', piece' := CoversPop(m, rest, Front(cvs), Front(sizes));
    }
  }
}
