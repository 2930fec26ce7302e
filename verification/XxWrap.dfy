/** XXHash64 counts its bytes modulo 2^64.  Where the count has wrapped to less than a stripe there are inputs it does
    not hash to XXH64: a stripe that clears all four accumulators can be appended to any whole stripes. */
module XxWrap {
  import opened Bits
  import opened Words
  import opened XxSpec
  import opened XxHash
  import Mixing

  // ----- a word that cancels an accumulator

  /** The negated inverse of `PRIME2` modulo 2^64. */
  const MINUS_INVERSE2: Word64 := 17606945372732830801

  function Cancelling(previous: Word64): Word64 {
    Times(previous, MINUS_INVERSE2)
  }

  lemma Cancels(previous: Word64)
    ensures Wrap(previous + Times(Cancelling(previous), PRIME2)) == 0
  {
    hide Wrap;
    var w: int := Cancelling(previous);
    var q := WrapQuotient(previous * 17606945372732830801);
    var r := WrapQuotient(w * 14029467366897019727);
    var t := Times(w, PRIME2);
    var e := CancelSum(previous, w, t, q, r);
    MultipleWraps(e);
  }

  lemma WrapQuotient(x: int) returns (q: int)
    ensures x == 0x1_0000_0000_0000_0000 * q + Wrap(x)
  {
    q := x / 0x1_0000_0000_0000_0000;
  }

  lemma CancelSum(x: int, w: int, t: int, q: int, r: int) returns (e: int)
    requires x * 17606945372732830801 == 0x1_0000_0000_0000_0000 * q + w
    requires w * 14029467366897019727 == 0x1_0000_0000_0000_0000 * r + t
    ensures x + t == 0x1_0000_0000_0000_0000 * e
  {
    e := 13390767744728622408 * x - 14029467366897019727 * q - r;
  }

  lemma MultipleWraps(e: int)
    ensures Wrap(0x1_0000_0000_0000_0000 * e) == 0
  {
  }

  lemma RotateZero(bits: nat)
    requires 0 < bits < 64
    ensures RotateLeft(0, bits) == 0
  {
    hide RotateLeft, Pow2;
    Mixing.RotateIsSum(0, bits);
    DivModUnique(0, Pow2(64 - bits), 0, 0);
  }

  lemma RoundCancels(previous: Word64)
    ensures Round(previous, Cancelling(previous)) == 0
  {
    hide RotateLeft, Wrap, Cancelling;
    Cancels(previous);
    RotateZero(31);
    WrapZero();
    assert 0 * PRIME1 == 0;
  }

  // ----- little-endian stores

  function Store(x: nat, n: nat): (r: seq<Byte>)
    ensures |r| == n
  {
    if n == 0 then [] else [(x % 0x100) as Byte] + Store(x / 0x100, n - 1)
  }

  lemma QuotientFits(x: nat, m: nat)
    requires x < 0x100 * m
    ensures x / 0x100 < m
  {
  }

  lemma {:induction false} LoadStore(x: nat, n: nat)
    requires x < Pow2(8 * n)
    ensures Load(Store(x, n)) == x
  {
    hide Pow2;
    WordPowers();
    if n > 0 {
      hide Load;
      Pow2Add(8, 8 * n - 8);
      QuotientFits(x, Pow2(8 * n - 8));
      LoadStore(x / 0x100, n - 1);
      LoadCons((x % 0x100) as Byte, Store(x / 0x100, n - 1));
    }
  }

  lemma LoadWord(x: Word64)
    ensures Load(Store(x, 8)) == x
  {
    hide Load, Store, Pow2;
    WordPowers();
    LoadStore(x, 8);
  }

  // ----- a stripe that clears the accumulators

  const CLEARED := Lanes(0, 0, 0, 0)

  function Clearing(l: Lanes): (r: seq<Byte>)
    ensures |r| == 32
  {
    Store(Cancelling(l.s0), 8) + Store(Cancelling(l.s1), 8) + Store(Cancelling(l.s2), 8) + Store(Cancelling(l.s3), 8)
  }

  lemma ClearingLoads(l: Lanes)
    ensures var p := Clearing(l);
            Load(p[..8]) == Cancelling(l.s0) && Load(p[8..16]) == Cancelling(l.s1) &&
            Load(p[16..24]) == Cancelling(l.s2) && Load(p[24..]) == Cancelling(l.s3)
  {
    hide Store, Load, Cancelling;
    var p := Clearing(l);
    assert p[..8] == Store(Cancelling(l.s0), 8) && p[8..16] == Store(Cancelling(l.s1), 8);
    assert p[16..24] == Store(Cancelling(l.s2), 8) && p[24..] == Store(Cancelling(l.s3), 8);
    LoadWord(Cancelling(l.s0)); LoadWord(Cancelling(l.s1)); LoadWord(Cancelling(l.s2)); LoadWord(Cancelling(l.s3));
  }

  lemma StripeClears(l: Lanes)
    ensures Stripe(l, Clearing(l)) == CLEARED
  {
    hide Round, Load, Cancelling, Clearing;
    ClearingLoads(l);
    RoundCancels(l.s0); RoundCancels(l.s1); RoundCancels(l.s2); RoundCancels(l.s3);
  }

  lemma MergeZero(acc: Word64)
    ensures MergeRound(acc, 0) == Wrap(acc * PRIME1 + PRIME4)
  {
    hide RotateLeft;
    RotateZero(31);
    assert Round(0, 0) == 0;
    assert Xor64(acc, 0) == acc;
    Reduced(acc * PRIME1, PRIME4);
  }

  lemma Reduced(x: int, y: int)
    ensures Wrap(Wrap(x) + y) == Wrap(x + y)
  {
    WrapTwice(y, x);
  }

  /** From cleared accumulators the two ways to start the last steps differ. */
  lemma ClearedDiverges()
    ensures Converge(CLEARED) == 4152819969490635184 && Wrap(CLEARED.s2 + PRIME5) == PRIME5
  {
    hide RotateLeft, MergeRound;
    RotateZero(1); RotateZero(7); RotateZero(12); RotateZero(18);
    MergeZero(0);
    MergeZero(9650029242287828579);
    MergeZero(16886523136464896664);
    MergeZero(18343090187728206987);
  }

  // ----- where the count has wrapped

  /** What the hasher computes from these bytes. */
  function Computed(seed: Word64, bytes: seq<Byte>): Word64 {
    Digest(Stripes(InitLanes(seed), bytes), Wrap(|bytes|), bytes[WholeStripes(|bytes|)..])
  }

  /** With that stripe as the last whole one, the accumulators end up cleared. */
  lemma EndsCleared(seed: Word64, before: seq<Byte>, rest: seq<Byte>)
    requires |before| % 32 == 0 && |rest| < 32
    ensures Stripes(InitLanes(seed), before + Clearing(Stripes(InitLanes(seed), before)) + rest) == CLEARED
  {
    hide Stripes, Stripe, Clearing, InitLanes;
    var stripe := Clearing(Stripes(InitLanes(seed), before));
    StripesSnoc(InitLanes(seed), before, stripe);
    StripesPartial(InitLanes(seed), before + stripe, rest);
    StripeClears(Stripes(InitLanes(seed), before));
  }

  /** Where the count has wrapped below a stripe, the result is then wrong, whatever comes before and after it. */
  lemma ClearedIsWrong(seed: Word64, before: seq<Byte>, rest: seq<Byte>)
    requires |before| % 32 == 0 && |rest| < 32 && !CountsStripe(|before| + 32 + |rest|)
    ensures var bytes := before + Clearing(Stripes(InitLanes(seed), before)) + rest;
            Computed(seed, bytes) != XXH64(seed, bytes)
  {
    hide Stripes, Clearing, InitLanes, Converge, Digest, XXH64, CountsStripe;
    EndsCleared(seed, before, rest);
    ClearedDiverges();
    DigestExact(seed, before + Clearing(Stripes(InitLanes(seed), before)) + rest);
  }

  /** So the hasher computes XXH64 of every input of a given length exactly if the byte count decides rightly whether
      there was a whole stripe. */
  lemma CountDecides(seed: Word64, n: nat)
    ensures CountsStripe(n) <==> forall bytes: seq<Byte> | |bytes| == n :: Computed(seed, bytes) == XXH64(seed, bytes)
  {
    hide Stripes, InitLanes, Converge, Computed, XXH64, Clearing;
    if CountsStripe(n) {
      forall bytes: seq<Byte> | |bytes| == n
        ensures Computed(seed, bytes) == XXH64(seed, bytes)
      {
        ComputedExact(seed, bytes);
      }
    } else {
      var before, rest := seq<Byte>(WholeStripes(n) - 32, _ => 0), seq<Byte>(n % 32, _ => 0);
      ClearedIsWrong(seed, before, rest);
      assert |before + Clearing(Stripes(InitLanes(seed), before)) + rest| == n;
    }
  }

  lemma ComputedExact(seed: Word64, bytes: seq<Byte>)
    requires CountsStripe(|bytes|)
    ensures Computed(seed, bytes) == XXH64(seed, bytes)
  {
    hide Stripes, InitLanes, Converge, Digest, XXH64, Wrap, CountsStripe;
    DigestExact(seed, bytes);
  }

  /** Two additions, of 2^64 - 32 bytes and of one stripe, after which the hash is not XXH64. */
  method HashWrapped(seed: Word64, before: seq<Byte>) returns (stripe: seq<Byte>, result: Word64)
    requires |before| == 0x1_0000_0000_0000_0000 - 32
    ensures |stripe| == 32 && result != XXH64(seed, before + stripe)
  {
    hide Stripes, Clearing, InitLanes, Converge, XXH64;
    stripe := Clearing(Stripes(InitLanes(seed), before));
    TwoPieces(before, stripe);
    result := HashPieces(seed, [before, stripe]);
    EndsCleared(seed, before, []);
    assert before + stripe + [] == before + stripe;
    ClearedDiverges();
  }

  lemma TwoPieces(first: seq<Byte>, second: seq<Byte>)
    requires |first| < 0x1_0000_0000_0000_0000 && |second| <= 32
    ensures AdditionsFit(0, [first, second]) && Concat([first, second]) == first + second
  {
    assert [first, second][1..] == [second] && [second][1..] == [];
    assert Concat([second]) == second && Concat([]) == [];
  }
}
