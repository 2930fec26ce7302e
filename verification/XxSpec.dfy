/** The XXH64 hash of a whole input, in the steps 1 to 6 of the XXH64 algorithm description. */
module XxSpec {
  import opened Bits
  import opened Words

  /** An unsigned 64-bit word; arithmetic on it wraps. */
  type Word64 = w: nat | w < 0x1_0000_0000_0000_0000

  const PRIME1: Word64 := 11400714785074694791
  const PRIME2: Word64 := 14029467366897019727
  const PRIME3: Word64 := 1609587929392839161
  const PRIME4: Word64 := 9650029242287828579
  const PRIME5: Word64 := 2870177450012600261
  const MAX_BUFFER_SIZE := 32

  function Wrap(n: int): Word64 {
    n % 0x1_0000_0000_0000_0000
  }

  function Times(x: nat, y: nat): Word64 {
    Wrap(x * y)
  }

  lemma WrapTwice(a: int, n: int)
    ensures Wrap(a + Wrap(n)) == Wrap(a + n) && Wrap(Wrap(n) + a) == Wrap(n + a)
  {
  }

  lemma SmallWrap(n: nat)
    requires n < 0x1_0000_0000_0000_0000
    ensures Wrap(n) == n
  {
  }

  lemma WrapZero()
    ensures Wrap(0) == 0
  {
  }

  function Xor64(x: Word64, y: Word64): Word64 {
    WordPowers();
    BitwiseBound(x, y, 64);
    Xor(x, y)
  }

  /** `x >> k`. */
  function ShiftRight(x: nat, k: nat): (r: nat)
    ensures r <= x
  {
    RightShiftBound(x, k);
    x / Pow2(k)
  }

  function RotateLeft(x: Word64, bits: nat): Word64
    requires 0 < bits < 64
  {
    WordPowers();
    BitwiseBound(Wrap(x * Pow2(bits)), ShiftRight(x, 64 - bits), 64);
    Or(Wrap(x * Pow2(bits)), ShiftRight(x, 64 - bits))
  }

  lemma RightShiftBound(x: nat, k: nat)
    ensures 0 <= x / Pow2(k) <= x
  {
    DivideBound(x, Pow2(k));
  }

  lemma DivideBound(x: nat, d: nat)
    requires d > 0
    ensures 0 <= x / d <= x
  {
    DivMod(x, d);
    MulMono(1, d, x / d);
  }

  // ----- the definition of XXH64

  datatype Lanes = Lanes(s0: Word64, s1: Word64, s2: Word64, s3: Word64)

  function Round(previous: Word64, input: nat): Word64 {
    Times(RotateLeft(Wrap(previous + Times(input, PRIME2)), 31), PRIME1)
  }

  /** Step 1: four accumulators from the seed. */
  function InitLanes(seed: Word64): Lanes {
    Lanes(Wrap(seed + PRIME1 + PRIME2), Wrap(seed + PRIME2), seed, Wrap(seed - PRIME1))
  }

  function Stripe(l: Lanes, p: seq<Byte>): Lanes
    requires |p| == 32
  {
    Lanes(Round(l.s0, Load(p[..8])), Round(l.s1, Load(p[8..16])),
          Round(l.s2, Load(p[16..24])), Round(l.s3, Load(p[24..])))
  }

  /** Step 2: every whole stripe of 32 bytes. */
  function Stripes(l: Lanes, bytes: seq<Byte>): Lanes
    decreases |bytes|
  {
    if |bytes| < 32 then l else Stripes(Stripe(l, bytes[..32]), bytes[32..])
  }

  function MergeRound(acc: Word64, lane: Word64): Word64 {
    Wrap(Times(Xor64(acc, Round(0, lane)), PRIME1) + PRIME4)
  }

  /** Step 3: one accumulator from the four. */
  function Converge(l: Lanes): Word64 {
    var acc := Wrap(RotateLeft(l.s0, 1) + RotateLeft(l.s1, 7) + RotateLeft(l.s2, 12) + RotateLeft(l.s3, 18));
    MergeRound(MergeRound(MergeRound(MergeRound(acc, l.s0), l.s1), l.s2), l.s3)
  }

  function Eat8(acc: Word64, lane: nat): Word64 {
    Wrap(Times(RotateLeft(Xor64(acc, Round(0, lane)), 27), PRIME1) + PRIME4)
  }

  function Eat4(acc: Word64, lane: nat): Word64 {
    Wrap(Times(RotateLeft(Xor64(acc, Times(lane, PRIME1)), 23), PRIME2) + PRIME3)
  }

  function Eat1(acc: Word64, lane: nat): Word64 {
    Times(RotateLeft(Xor64(acc, Times(lane, PRIME5)), 11), PRIME1)
  }

  /** Step 5: the bytes after the last stripe, eight, then four, then one at a time. */
  function Tail(acc: Word64, p: seq<Byte>): Word64
    decreases |p|
  {
    if |p| >= 8 then Tail(Eat8(acc, Load(p[..8])), p[8..])
    else if |p| >= 4 then Tail(Eat4(acc, Load(p[..4])), p[4..])
    else if |p| >= 1 then Tail(Eat1(acc, Load(p[..1])), p[1..])
    else acc
  }

  lemma TailEight(acc: Word64, p: seq<Byte>)
    requires |p| >= 8
    ensures Tail(acc, p) == Tail(Eat8(acc, Load(p[..8])), p[8..])
  {
    hide Eat8, Load;
  }

  lemma TailFour(acc: Word64, p: seq<Byte>)
    requires 4 <= |p| < 8
    ensures Tail(acc, p) == Tail(Eat4(acc, Load(p[..4])), p[4..])
  {
    hide Eat4, Load;
  }

  lemma TailOne(acc: Word64, p: seq<Byte>)
    requires 1 <= |p| < 4
    ensures Tail(acc, p) == Tail(Eat1(acc, Load(p[..1])), p[1..])
  {
    hide Eat1, Load;
  }

  lemma TailEmpty(acc: Word64, p: seq<Byte>)
    requires |p| == 0
    ensures Tail(acc, p) == acc
  {
  }

  lemma Skip(bytes: seq<Byte>, data: nat, stop: nat, n: nat)
    requires data + n <= stop <= |bytes|
    ensures bytes[data..stop][..n] == bytes[data..data + n] && bytes[data..stop][n..] == bytes[data + n..stop]
  {
  }

  /** Step 6: the final mix. */
  function Avalanche(acc: Word64): Word64 {
    var a := Times(XorShift(acc, 33), PRIME2);
    var b := Times(XorShift(a, 29), PRIME3);
    XorShift(b, 32)
  }

  function XorShift(x: Word64, k: nat): Word64 {
    Xor64(x, ShiftRight(x, k))
  }

  function WholeStripes(n: nat): nat {
    n - n % 32
  }

  /** Steps 3 to 6, given the accumulators, the seed, the length and what is left after the last stripe. */
  function Finish(start: Word64, len: nat, rest: seq<Byte>): Word64 {
    Avalanche(Tail(Wrap(start + len), rest))
  }

  /** What a hasher that has counted `total` bytes, modulo 2^64, computes from its accumulators. */
  function Digest(l: Lanes, total: Word64, rest: seq<Byte>): Word64 {
    Finish(if total >= 32 then Converge(l) else Wrap(l.s2 + PRIME5), total, rest)
  }

  function XXH64(seed: Word64, bytes: seq<Byte>): Word64 {
    var rest := bytes[WholeStripes(|bytes|)..];
    if |bytes| >= 32 then Finish(Converge(Stripes(InitLanes(seed), bytes)), |bytes|, rest)
    else Finish(Wrap(seed + PRIME5), |bytes|, rest)
  }
}
