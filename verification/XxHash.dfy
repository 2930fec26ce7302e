/** The streaming hasher of xxhash64.h against the one-shot definition. */
module XxHash {
  import opened Bits
  import opened Words
  import opened XxSpec
  import Mixing

  // ----- stripes of a concatenation

  lemma {:induction false} StripesConcat(l: Lanes, a: seq<Byte>, b: seq<Byte>)
    requires |a| % 32 == 0
    ensures Stripes(l, a + b) == Stripes(Stripes(l, a), b)
    decreases |a|
  {
    hide Stripe;
    var ab := a + b;
    if |a| == 0 {
      assert ab == b;
    } else {
      assert ab[..32] == a[..32] && ab[32..] == a[32..] + b;
      StripesConcat(Stripe(l, a[..32]), a[32..], b);
    }
  }

  /** One more stripe. */
  lemma StripesSnoc(l: Lanes, a: seq<Byte>, stripe: seq<Byte>)
    requires |a| % 32 == 0 && |stripe| == 32
    ensures Stripes(l, a + stripe) == Stripe(Stripes(l, a), stripe)
  {
    hide Stripe;
    StripesConcat(l, a, stripe);
    assert stripe[..32] == stripe && stripe[32..] == [];
  }

  /** A partial stripe does not count yet. */
  lemma StripesPartial(l: Lanes, a: seq<Byte>, b: seq<Byte>)
    requires |a| % 32 == 0 && |b| < 32
    ensures Stripes(l, a + b) == Stripes(l, a)
  {
    StripesConcat(l, a, b);
  }

  /** Bytes that do not complete a stripe leave the accumulators alone. */
  lemma StripesSame(l: Lanes, bytes: seq<Byte>, more: seq<Byte>)
    requires |bytes| % 32 + |more| < 32
    ensures Stripes(l, bytes + more) == Stripes(l, bytes)
    ensures WholeStripes(|bytes + more|) == WholeStripes(|bytes|)
  {
    hide Stripes;
    var whole, tail := bytes[..WholeStripes(|bytes|)], bytes[WholeStripes(|bytes|)..];
    assert bytes == whole + tail && bytes + more == whole + (tail + more);
    StripesPartial(l, whole, tail);
    StripesPartial(l, whole, tail + more);
  }

  /** The byte count, modulo 2^64, and the number of bytes agree on whether there was a whole stripe. */
  predicate CountsStripe(n: nat) {
    Wrap(n) >= 32 <==> n >= 32
  }

  /** The state kept while streaming gives XXH64 exactly if the byte count decides rightly whether there was a whole
      stripe, or, by chance, both ways to start the last steps give the same accumulator. */
  lemma DigestExact(seed: Word64, bytes: seq<Byte>)
    ensures var l := Stripes(InitLanes(seed), bytes);
            Digest(l, Wrap(|bytes|), bytes[WholeStripes(|bytes|)..]) == XXH64(seed, bytes) <==>
            CountsStripe(|bytes|) || Converge(l) == Wrap(l.s2 + PRIME5)
  {
    hide Avalanche, Tail, Converge, Wrap, Stripe, Stripes;
    var l, rest := Stripes(InitLanes(seed), bytes), bytes[WholeStripes(|bytes|)..];
    var full, short := Converge(l), Wrap(l.s2 + PRIME5);
    FinishWraps(full, |bytes|, rest);
    FinishWraps(short, |bytes|, rest);
    if |bytes| < 32 {
      ShortHasNoStripes(InitLanes(seed), bytes);
      SmallWrap(|bytes|);
    } else if Wrap(|bytes|) < 32 && Finish(full, |bytes|, rest) == Finish(short, |bytes|, rest) {
      Mixing.FinishInjective(full, short, |bytes|, rest);
    }
  }

  lemma DigestSteps(l: Lanes, total: Word64, rest: seq<Byte>)
    ensures var start := if total >= 32 then Converge(l) else Wrap(l.s2 + PRIME5);
            var a := Times(XorShift(Tail(Wrap(start + total), rest), 33), PRIME2);
            Digest(l, total, rest) == XorShift(Times(XorShift(a, 29), PRIME3), 32)
  {
    hide Converge, XorShift, Tail, Wrap, Times;
  }

  lemma FinishWraps(start: Word64, n: nat, rest: seq<Byte>)
    ensures Finish(start, Wrap(n), rest) == Finish(start, n, rest)
  {
    hide Avalanche, Tail;
    WrapTwice(start, n);
  }

  /** Whether the new bytes still fit in the buffer is decided by a 64-bit sum: rightly exactly if the sum stays
      below 2^64. */
  lemma FitsIsDecidedRightly(bufferSize: nat, length: Word64)
    requires bufferSize < MAX_BUFFER_SIZE
    ensures (Wrap(bufferSize + length) < MAX_BUFFER_SIZE <==> bufferSize + length < MAX_BUFFER_SIZE) <==>
            bufferSize + length < 0x1_0000_0000_0000_0000
  {
  }

  lemma ShortHasNoStripes(l: Lanes, bytes: seq<Byte>)
    requires |bytes| < 32
    ensures Stripes(l, bytes) == l
  {
  }

  // ----- the hasher

  class XXHash64 {
    const state: array<Word64>
    const buffer: array<Byte>
    var bufferSize: nat
    var totalLength: Word64
    /** The seed, and everything added so far. */
    ghost const seed: Word64
    ghost var bytes: seq<Byte>

    function CurrentLanes(): Lanes
      requires state.Length == 4
      reads state
    {
      Lanes(state[0], state[1], state[2], state[3])
    }

    /** The accumulators have taken every whole stripe, the buffer holds the rest. */
    ghost predicate Holds()
      reads this, state, buffer
    {
      && state.Length == 4 && buffer.Length == MAX_BUFFER_SIZE
      && bufferSize == |bytes| % 32
      && buffer[..bufferSize] == bytes[WholeStripes(|bytes|)..]
      && CurrentLanes() == Stripes(InitLanes(seed), bytes)
    }

    /** In the middle of an addition: only whole stripes so far, whatever is in the buffer. */
    ghost predicate AtStripe()
      reads this, state
    {
      && state.Length == 4 && buffer.Length == MAX_BUFFER_SIZE && |bytes| % 32 == 0
      && CurrentLanes() == Stripes(InitLanes(seed), bytes)
    }

    ghost predicate Valid()
      reads this, state, buffer
    {
      Holds() && totalLength == Wrap(|bytes|)
    }

    constructor (seed: Word64)
      ensures Valid() && this.seed == seed && bytes == [] && fresh(state) && fresh(buffer)
    {
      hide Stripe, Stripes, Wrap;
      state := new Word64[] [Wrap(seed + PRIME1 + PRIME2), Wrap(seed + PRIME2), seed, Wrap(seed - PRIME1)];
      buffer := new Byte[MAX_BUFFER_SIZE];
      bufferSize := 0;
      totalLength := 0;
      this.seed := seed;
      bytes := [];
      new;
      ShortHasNoStripes(InitLanes(seed), []);
      WrapZero();
    }

    /** Copy bytes to the end of the buffer. */
    method Fill(data: seq<Byte>)
      requires bufferSize + |data| <= buffer.Length
      modifies this`bufferSize, buffer
      ensures bufferSize == old(bufferSize) + |data| && buffer[..bufferSize] == old(buffer[..bufferSize]) + data
    {
      forall i | 0 <= i < |data| {
        buffer[bufferSize + i] := data[i];
      }
      bufferSize := bufferSize + |data|;
    }

    method SetLanes(l: Lanes)
      requires state.Length == 4
      modifies state
      ensures CurrentLanes() == l
    {
      state[0], state[1], state[2], state[3] := l.s0, l.s1, l.s2, l.s3;
    }

    /** Fill a partly filled buffer up to a whole stripe and process it. */
    method FillStripe(data: seq<Byte>)
      requires Holds() && bufferSize + |data| == MAX_BUFFER_SIZE
      modifies this`bufferSize, this`bytes, state, buffer
      ensures AtStripe() && bytes == old(bytes) + data
    {
      hide Stripes, Stripe, InitLanes;
      ghost var whole := bytes[..WholeStripes(|bytes|)];
      assert bytes == whole + buffer[..bufferSize];
      StripesPartial(InitLanes(seed), whole, buffer[..bufferSize]);
      Fill(data);
      assert buffer[..] == buffer[..bufferSize];
      StripesSnoc(InitLanes(seed), whole, buffer[..]);
      bytes := bytes + data;
      assert bytes == whole + buffer[..];
      SetLanes(Stripe(CurrentLanes(), buffer[..]));
    }

    /** Process every whole stripe of `data`; what is left is shorter than a stripe. */
    method ProcessStripes(data: seq<Byte>) returns (rest: seq<Byte>)
      requires AtStripe()
      modifies this`bytes, state
      ensures AtStripe() && |rest| < 32 && bytes + rest == old(bytes) + data
    {
      hide Stripes, Stripe, InitLanes;
      rest := data;
      var lanes := CurrentLanes();
      while |rest| >= 32
        invariant bytes + rest == old(bytes) + data && |bytes| % 32 == 0
        invariant lanes == Stripes(InitLanes(seed), bytes)
      {
        var stripe := rest[..32];
        StripesSnoc(InitLanes(seed), bytes, stripe);
        lanes := Stripe(lanes, stripe);
        bytes := bytes + stripe;
        assert rest == stripe + rest[32..];
        rest := rest[32..];
      }
      SetLanes(lanes);
    }

    /** Keep what is left over in the buffer. */
    method KeepRest(rest: seq<Byte>)
      requires AtStripe() && |rest| < 32
      modifies this`bufferSize, this`bytes, buffer
      ensures Holds() && bytes == old(bytes) + rest
    {
      hide Stripes, Stripe, InitLanes;
      bufferSize := 0;
      Fill(rest);
      StripesPartial(InitLanes(seed), bytes, rest);
      bytes := bytes + rest;
    }

    /** Add more bytes; false if there are none. */
    method Add(input: seq<Byte>) returns (ok: bool)
      requires Valid() && |bytes| % 32 + |input| < 0x1_0000_0000_0000_0000
      modifies this, state, buffer
      ensures Valid() && bytes == old(bytes) + input && ok == (input != [])
    {
      hide Stripes, Stripe, InitLanes, Wrap;
      if |input| == 0 {
        return false;
      }
      WrapTwice(|input|, |bytes|);
      totalLength := Wrap(totalLength + |input|);
      FitsIsDecidedRightly(bufferSize, |input|);
      if Wrap(bufferSize + |input|) < MAX_BUFFER_SIZE {
        StripesSame(InitLanes(seed), bytes, input);
        Fill(input);
        bytes := bytes + input;
        return true;
      }
      var data := input;
      if bufferSize > 0 {
        var fill := MAX_BUFFER_SIZE - bufferSize;
        FillStripe(data[..fill]);
        data := data[fill..];
      }
      assert bytes + data == old(bytes) + input;
      var rest := ProcessStripes(data);
      KeepRest(rest);
      return true;
    }

    /** Eat what is in the buffer, eight, then four, then one byte at a time. */
    method EatBuffer(start: Word64) returns (result: Word64)
      requires buffer.Length == MAX_BUFFER_SIZE && bufferSize <= MAX_BUFFER_SIZE
      ensures result == Tail(start, buffer[..bufferSize])
    {
      hide Eat8, Eat4, Eat1, Load, Tail;
      result := start;
      var bytes, data, stop := buffer[..], 0, bufferSize;
      ghost var all := Tail(start, bytes[..stop]);
      while data + 8 <= stop
        invariant data <= stop && Tail(result, bytes[data..stop]) == all
      {
        TailEight(result, bytes[data..stop]);
        Skip(bytes, data, stop, 8);
        result := Eat8(result, Load(bytes[data..data + 8]));
        data := data + 8;
      }
      if data + 4 <= stop {
        TailFour(result, bytes[data..stop]);
        Skip(bytes, data, stop, 4);
        result := Eat4(result, Load(bytes[data..data + 4]));
        data := data + 4;
      }
      while data != stop
        invariant data <= stop < data + 4 && Tail(result, bytes[data..stop]) == all
      {
        TailOne(result, bytes[data..stop]);
        Skip(bytes, data, stop, 1);
        result := Eat1(result, Load(bytes[data..data + 1]));
        data := data + 1;
      }
      TailEmpty(result, bytes[data..stop]);
      assert bytes[..stop] == buffer[..bufferSize];
    }

    /** The hash of everything added so far; nothing changes. */
    method Hash() returns (result: Word64)
      requires Valid()
      ensures result == Digest(Stripes(InitLanes(seed), bytes), Wrap(|bytes|), bytes[WholeStripes(|bytes|)..])
      ensures var l := Stripes(InitLanes(seed), bytes);
              result == XXH64(seed, bytes) <==> CountsStripe(|bytes|) || Converge(l) == Wrap(l.s2 + PRIME5)
    {
      hide Stripes, InitLanes, Converge, XorShift, Tail, Wrap, Times, XXH64, Digest, CountsStripe;
      DigestSteps(CurrentLanes(), totalLength, buffer[..bufferSize]);
      var start;
      if totalLength >= MAX_BUFFER_SIZE {
        start := Converge(CurrentLanes());
      } else {
        start := Wrap(state[2] + PRIME5);
      }
      result := Wrap(start + totalLength);
      result := EatBuffer(result);
      result := Times(XorShift(result, 33), PRIME2);
      result := Times(XorShift(result, 29), PRIME3);
      result := XorShift(result, 32);
      DigestExact(seed, bytes);
    }
  }

  // ----- whole runs

  /** Every addition leaves the sum of the buffered and the new bytes below 2^64. */
  predicate AdditionsFit(before: nat, pieces: seq<seq<Byte>>)
    decreases |pieces|
  {
    |pieces| == 0 ||
    (before % 32 + |pieces[0]| < 0x1_0000_0000_0000_0000 && AdditionsFit(before + |pieces[0]|, pieces[1..]))
  }

  /** With fewer than 2^64 bytes in all, they do. */
  lemma {:induction false} TotalFits(before: nat, pieces: seq<seq<Byte>>)
    requires before + |Concat(pieces)| < 0x1_0000_0000_0000_0000
    ensures AdditionsFit(before, pieces)
    decreases |pieces|
  {
    if |pieces| > 0 {
      TotalFits(before + |pieces[0]|, pieces[1..]);
    }
  }

  lemma AdditionsStep(before: nat, pieces: seq<seq<Byte>>, i: nat)
    requires i < |pieces| && AdditionsFit(before, pieces[i..])
    ensures before % 32 + |pieces[i]| < 0x1_0000_0000_0000_0000
    ensures AdditionsFit(before + |pieces[i]|, pieces[i + 1..])
  {
    assert pieces[i..][1..] == pieces[i + 1..];
  }

  /** Any run of additions, of any lengths, hashes the bytes put together. */
  method HashPieces(seed: Word64, pieces: seq<seq<Byte>>) returns (result: Word64)
    requires AdditionsFit(0, pieces)
    ensures var all := Concat(pieces); var l := Stripes(InitLanes(seed), all);
            result == XXH64(seed, all) <==> CountsStripe(|all|) || Converge(l) == Wrap(l.s2 + PRIME5)
  {
    hide *;
    var hasher := new XXHash64(seed);
    var i := 0;
    assert pieces[0..] == pieces;
    while i < |pieces|
      invariant i <= |pieces| && fresh(hasher) && fresh(hasher.state) && fresh(hasher.buffer)
      invariant hasher.Valid() && hasher.seed == seed
      invariant hasher.bytes + Concat(pieces[i..]) == Concat(pieces)
      invariant AdditionsFit(|hasher.bytes|, pieces[i..])
    {
      ConcatStep(pieces, i);
      AdditionsStep(|hasher.bytes|, pieces, i);
      var ok := hasher.Add(pieces[i]);
      i := i + 1;
    }
    ConcatEnd(pieces);
    assert hasher.bytes == Concat(pieces);
    result := hasher.Hash();
  }

  /** In particular, with fewer than 2^64 bytes in all the result is XXH64. */
  method HashAll(seed: Word64, pieces: seq<seq<Byte>>) returns (result: Word64)
    requires |Concat(pieces)| < 0x1_0000_0000_0000_0000
    ensures result == XXH64(seed, Concat(pieces))
  {
    hide *;
    TotalFits(0, pieces);
    result := HashPieces(seed, pieces);
    SmallCountsStripe(|Concat(pieces)|);
  }

  lemma SmallCountsStripe(n: nat)
    requires n < 0x1_0000_0000_0000_0000
    ensures CountsStripe(n)
  {
  }

  const UPDATE_LEN := 64 * 1024 * 1024

  predicate AtPiece(i: nat) {
    i % UPDATE_LEN == 0
  }

  /** At `i` the engine's loop, on `len` bytes, moves its index on without wrapping around. */
  predicate IndexKept(i: nat, len: Word64) {
    i < len && AtPiece(i) ==> Wrap(i + UPDATE_LEN) == i + UPDATE_LEN
  }

  /** The index wraps around, and the loop adds bytes past the end of its input, exactly if the input is longer than
      2^64 bytes less one piece. */
  lemma EngineIndexFits(len: Word64)
    ensures (forall i: nat :: IndexKept(i, len)) <==> len + UPDATE_LEN <= 0x1_0000_0000_0000_0000
  {
    if len + UPDATE_LEN > 0x1_0000_0000_0000_0000 {
      var last := 0x1_0000_0000_0000_0000 - UPDATE_LEN;
      assert last == 0x3f_ffff_ffff * 0x400_0000;
      assert !IndexKept(last, len);
    }
  }

  lemma NextIndex(i: nat, len: Word64)
    requires IndexKept(i, len) && i < len && AtPiece(i)
    ensures Wrap(i + UPDATE_LEN) == i + UPDATE_LEN && AtPiece(i + UPDATE_LEN)
  {
  }

  lemma AppendSlice(before: seq<Byte>, input: seq<Byte>, from: nat, to: nat)
    requires from <= to <= |input|
    ensures before + input[..from] + input[from..to] == before + input[..to]
  {
  }

  /** The engine's loop, which adds a long input in pieces of 64 MB. */
  method AddInPieces(hasher: XXHash64, input: seq<Byte>)
    requires hasher.Valid() && |input| + UPDATE_LEN <= 0x1_0000_0000_0000_0000
    modifies hasher, hasher.state, hasher.buffer
    ensures hasher.Valid() && hasher.bytes == old(hasher.bytes) + input
  {
    EngineIndexFits(|input|);
    assert AtPiece(0);
    assert UPDATE_LEN == 0x400_0000;
    hide *;
    var i := 0;
    ghost var done := 0;
    while i < |input|
      invariant hasher.Valid() && AtPiece(i)
      invariant done <= |input| && done == (if i < |input| then i else |input|)
      invariant hasher.bytes == old(hasher.bytes) + input[..done]
      decreases |input| - i
    {
      NextIndex(i, |input|);
      var length := if Wrap(i + UPDATE_LEN) >= |input| then |input| - i else UPDATE_LEN;
      AppendSlice(old(hasher.bytes), input, i, i + length);
      var ok := hasher.Add(input[i..i + length]);
      done := i + length;
      i := Wrap(i + UPDATE_LEN);
    }
    assert input[..done] == input;
  }

  /** The engine, for digests of at least eight bytes. */
  method EngineHash(input: seq<Byte>) returns (result: Word64)
    requires |input| + UPDATE_LEN <= 0x1_0000_0000_0000_0000
    ensures result == XXH64(0, input)
  {
    assert UPDATE_LEN == 0x400_0000;
    hide *;
    var hasher := new XXHash64(0);
    AddInPieces(hasher, input);
    assert hasher.bytes == input;
    result := hasher.Hash();
    SmallCountsStripe(|hasher.bytes|);
    assert result == XXH64(hasher.seed, hasher.bytes);
  }
}
