/** XXH64 in numbers: every step of its definition as arithmetic on numerals, and how the steps follow each other. */
module XxNumbers {
  import opened Bits
  import opened Words
  import opened XxSpec
  import Mixing

  // ----- rotation

  /** `r` is the word `x` rotated to the left, `factor` being two to the number of bits: the product modulo 2^64 - 1,
      with zero and 2^64 - 1 kept apart. */
  predicate IsRotation(x: Word64, factor: nat, r: Word64) {
    (x * factor - r) % 0xffff_ffff_ffff_ffff == 0 && (r == 0 <==> x == 0)
  }

  lemma RotateIsProduct(x: Word64, bits: nat)
    requires 0 < bits < 64
    ensures IsRotation(x, Pow2(bits), RotateLeft(x, bits))
  {
    hide RotateLeft, Pow2;
    WordPowers();
    Pow2Add(bits, 64 - bits);
    Mixing.RotateIsSum(x, bits);
    ProductOfParts(x, Pow2(bits), Pow2(64 - bits));
  }

  lemma ProductOfParts(x: nat, p: nat, r: nat)
    requires p > 0 && r > 0 && p * r == 0x1_0000_0000_0000_0000
    ensures (x * p - (x % r * p + x / r)) % 0xffff_ffff_ffff_ffff == 0
    ensures x % r * p + x / r == 0 <==> x == 0
  {
    DivMod(x, r);
    var q, l := x / r, x % r;
    Mixing.MulSum(q * r, l, p);
    MulAssoc(q, r, p);
    assert r * p == 0x1_0000_0000_0000_0000;
    assert x * p - (l * p + q) == q * 0xffff_ffff_ffff_ffff;
    DivModUnique(q * 0xffff_ffff_ffff_ffff, 0xffff_ffff_ffff_ffff, q, 0);
  }

  /** The powers of two the rotations and shifts use. */
  lemma Powers()
    ensures Pow2(1) == 0x2 && Pow2(7) == 0x80 && Pow2(11) == 0x800 && Pow2(12) == 0x1000 && Pow2(18) == 0x4_0000
    ensures Pow2(23) == 0x80_0000 && Pow2(27) == 0x800_0000 && Pow2(29) == 0x2000_0000 && Pow2(31) == 0x8000_0000
    ensures Pow2(32) == 0x1_0000_0000 && Pow2(33) == 0x2_0000_0000 && Pow2(37) == 0x20_0000_0000
    ensures Pow2(41) == 0x200_0000_0000 && Pow2(46) == 0x4000_0000_0000 && Pow2(52) == 0x10_0000_0000_0000
    ensures Pow2(53) == 0x20_0000_0000_0000 && Pow2(57) == 0x200_0000_0000_0000
    ensures Pow2(63) == 0x8000_0000_0000_0000
  {
    WordPowers();
    SmallPowers();
    hide Pow2;
    Pow2Add(8, 3); Pow2Add(8, 4); Pow2Add(16, 2); Pow2Add(16, 7); Pow2Add(16, 11); Pow2Add(18, 11);
    Pow2Add(16, 16); Pow2Add(32, 1); Pow2Add(32, 5); Pow2Add(29, 2);
    Pow2Add(37, 4); Pow2Add(23, 23); Pow2Add(41, 11); Pow2Add(52, 1); Pow2Add(46, 11); Pow2Add(52, 11);
  }

  lemma SmallPowers()
    ensures Pow2(3) == 8 && Pow2(5) == 0x20 && Pow2(7) == 0x80
  {
  }

  // ----- the steps

  lemma RoundInNumbers(previous: Word64, x: nat) returns (r: Word64)
    ensures IsRotation((previous + x * 14029467366897019727) % 0x1_0000_0000_0000_0000, 0x8000_0000, r)
    ensures Round(previous, x) == r * 11400714785074694791 % 0x1_0000_0000_0000_0000
  {
    hide RotateLeft, IsRotation, Pow2;
    Powers();
    var sum := Wrap(previous + Times(x, PRIME2));
    WrapTwice(previous, x * PRIME2);
    RotateIsProduct(sum, 31);
    r := RotateLeft(sum, 31);
  }

  lemma Eat8InNumbers(acc: Word64, lane: nat) returns (r: Word64)
    ensures IsRotation(Xor64(acc, Round(0, lane)), 0x800_0000, r)
    ensures Eat8(acc, lane) == (r * 11400714785074694791 + 9650029242287828579) % 0x1_0000_0000_0000_0000
  {
    hide RotateLeft, IsRotation, Pow2, Round, Xor64;
    Powers();
    RotateIsProduct(Xor64(acc, Round(0, lane)), 27);
    r := RotateLeft(Xor64(acc, Round(0, lane)), 27);
    WrapTwice(9650029242287828579, r * PRIME1);
  }

  lemma Eat4InNumbers(acc: Word64, lane: nat) returns (r: Word64)
    ensures IsRotation(Xor64(acc, lane * 11400714785074694791 % 0x1_0000_0000_0000_0000), 0x80_0000, r)
    ensures Eat4(acc, lane) == (r * 14029467366897019727 + 1609587929392839161) % 0x1_0000_0000_0000_0000
  {
    hide RotateLeft, IsRotation, Pow2, Xor64;
    Powers();
    RotateIsProduct(Xor64(acc, Times(lane, PRIME1)), 23);
    r := RotateLeft(Xor64(acc, Times(lane, PRIME1)), 23);
    WrapTwice(1609587929392839161, r * PRIME2);
  }

  lemma Eat1InNumbers(acc: Word64, lane: nat) returns (r: Word64)
    ensures IsRotation(Xor64(acc, lane * 2870177450012600261 % 0x1_0000_0000_0000_0000), 0x800, r)
    ensures Eat1(acc, lane) == r * 11400714785074694791 % 0x1_0000_0000_0000_0000
  {
    hide RotateLeft, IsRotation, Pow2, Xor64;
    Powers();
    RotateIsProduct(Xor64(acc, Times(lane, PRIME5)), 11);
    r := RotateLeft(Xor64(acc, Times(lane, PRIME5)), 11);
  }

  lemma MergeInNumbers(acc: Word64, lane: Word64)
    ensures MergeRound(acc, lane)
         == (Xor64(acc, Round(0, lane)) * 11400714785074694791 + 9650029242287828579) % 0x1_0000_0000_0000_0000
  {
    hide Round, Xor64;
    WrapTwice(9650029242287828579, Xor64(acc, Round(0, lane)) * PRIME1);
  }

  /** The four rotations that start step 3. */
  lemma ConvergeInNumbers(l: Lanes) returns (r0: Word64, r1: Word64, r2: Word64, r3: Word64)
    ensures IsRotation(l.s0, 0x2, r0) && IsRotation(l.s1, 0x80, r1)
    ensures IsRotation(l.s2, 0x1000, r2) && IsRotation(l.s3, 0x4_0000, r3)
    ensures Converge(l) == MergeRound(MergeRound(MergeRound(MergeRound(
                             (r0 + r1 + r2 + r3) % 0x1_0000_0000_0000_0000, l.s0), l.s1), l.s2), l.s3)
  {
    hide RotateLeft, IsRotation, Pow2, MergeRound;
    Powers();
    RotateIsProduct(l.s0, 1); RotateIsProduct(l.s1, 7); RotateIsProduct(l.s2, 12); RotateIsProduct(l.s3, 18);
    r0, r1, r2, r3 := RotateLeft(l.s0, 1), RotateLeft(l.s1, 7), RotateLeft(l.s2, 12), RotateLeft(l.s3, 18);
  }

  lemma InitInNumbers(seed: Word64)
    ensures InitLanes(seed) == Lanes((seed + 6983438078262162902) % 0x1_0000_0000_0000_0000,
                                     (seed + 14029467366897019727) % 0x1_0000_0000_0000_0000,
                                     seed,
                                     (seed + 7046029288634856825) % 0x1_0000_0000_0000_0000)
  {
  }

  lemma AvalancheInNumbers(acc: Word64)
    ensures var a := Xor64(acc, acc / 0x2_0000_0000) * 14029467366897019727 % 0x1_0000_0000_0000_0000;
            var b := Xor64(a, a / 0x2000_0000) * 1609587929392839161 % 0x1_0000_0000_0000_0000;
            Avalanche(acc) == Xor64(b, b / 0x1_0000_0000)
  {
    hide Xor64, Pow2;
    Powers();
  }

  // ----- whole inputs

  /** Thirteen bytes, less than a stripe: eight, four and one of them, after the seed and the length. */
  lemma ShortInNumbers(seed: Word64, p: seq<Byte>)
    requires |p| == 13
    ensures var start := (seed + 2870177450012600261 + 13) % 0x1_0000_0000_0000_0000;
            XXH64(seed, p) == Avalanche(Eat1(Eat4(Eat8(start, Load(p[..8])), Load(p[8..12])), Load(p[12..])))
  {
    hide Avalanche, Eat8, Eat4, Eat1, Load, Tail;
    assert p[0..] == p;
    WrapTwice(13, seed + PRIME5);
    TailInNumbers((seed + 2870177450012600261 + 13) % 0x1_0000_0000_0000_0000, p);
  }

  /** Forty-five bytes: a stripe, one word of it to each lane in order, then the same with the length. */
  lemma LongInNumbers(seed: Word64, p: seq<Byte>)
    requires |p| == 45
    ensures var lanes := Lanes(Round((seed + 6983438078262162902) % 0x1_0000_0000_0000_0000, Load(p[..8])),
                               Round((seed + 14029467366897019727) % 0x1_0000_0000_0000_0000, Load(p[8..16])),
                               Round(seed, Load(p[16..24])),
                               Round((seed + 7046029288634856825) % 0x1_0000_0000_0000_0000, Load(p[24..32])));
            var start := (Converge(lanes) + 45) % 0x1_0000_0000_0000_0000;
            XXH64(seed, p) == Avalanche(Eat1(Eat4(Eat8(start, Load(p[32..40])), Load(p[40..44])), Load(p[44..])))
  {
    hide Avalanche, Eat8, Eat4, Eat1, Load, Tail, Round, Converge, InitLanes;
    InitInNumbers(seed);
    var rest, stripe := p[32..], p[..32];
    assert stripe[..8] == p[..8] && stripe[8..16] == p[8..16];
    assert stripe[16..24] == p[16..24] && stripe[24..] == p[24..32];
    assert rest[..8] == p[32..40] && rest[8..12] == p[40..44] && rest[12..] == p[44..];
    var lanes := Stripe(InitLanes(seed), stripe);
    assert Stripes(InitLanes(seed), p) == lanes;
    TailInNumbers((Converge(lanes) + 45) % 0x1_0000_0000_0000_0000, rest);
  }

  lemma TailInNumbers(acc: Word64, p: seq<Byte>)
    requires |p| == 13
    ensures Tail(acc, p) == Eat1(Eat4(Eat8(acc, Load(p[..8])), Load(p[8..12])), Load(p[12..]))
  {
    hide Eat8, Eat4, Eat1, Load, Tail;
    var q := p[8..];
    var a := Eat8(acc, Load(p[..8]));
    var b := Eat4(a, Load(q[..4]));
    TailEight(acc, p);
    TailFour(a, q);
    TailOne(b, q[4..]);
    TailEmpty(Eat1(b, Load(q[4..][..1])), q[4..][1..]);
    assert q[..4] == p[8..12] && q[4..][..1] == p[12..];
  }
}
