/** The steps of XXH64 that fold into the accumulator lose nothing: each is injective in it. */
module Mixing {
  import opened Bits
  import opened Words
  import opened XxSpec

  // ----- exclusive or

  lemma {:induction false} XorTwice(x: nat, y: nat)
    ensures Xor(Xor(x, y), y) == x
    decreases x + y
  {
    if x == 0 {
      XorSelf(y);
    } else if y > 0 {
      XorTwice(x / 2, y / 2);
      LowXor(x, y);
      LowXor(Xor(x, y), y);
    }
  }

  lemma {:induction false} XorSelf(x: nat)
    ensures Xor(x, x) == 0
  {
    if x > 0 {
      XorSelf(x / 2);
    }
  }

  lemma XorInjective(x: nat, x': nat, y: nat)
    requires Xor(x, y) == Xor(x', y)
    ensures x == x'
  {
    XorTwice(x, y);
    XorTwice(x', y);
  }

  lemma ShiftStep(x: nat, j: nat)
    ensures ShiftRight(x, 0) == x
    ensures j > 0 ==> ShiftRight(x, j) == ShiftRight(x / 2, j - 1)
  {
    if j > 0 {
      Doubling(x / 2, Pow2(j - 1), x % 2);
    }
  }

  lemma {:induction false} XorShiftedRight(x: nat, y: nat, j: nat)
    ensures ShiftRight(Xor(x, y), j) == Xor(ShiftRight(x, j), ShiftRight(y, j))
  {
    hide ShiftRight, Xor;
    ShiftStep(x, j);
    ShiftStep(y, j);
    ShiftStep(Xor(x, y), j);
    if j > 0 {
      LowXor(x, y);
      XorShiftedRight(x / 2, y / 2, j - 1);
    }
  }

  lemma {:induction false} ShiftsAdd(x: nat, k: nat, j: nat)
    ensures ShiftRight(ShiftRight(x, k), j) == ShiftRight(x, k + j)
  {
    hide ShiftRight;
    ShiftStep(x, k);
    ShiftStep(x, k + j);
    if k > 0 {
      ShiftsAdd(x / 2, k - 1, j);
    }
  }

  /** Two words with the same `x ^ (x >> k)` agree from bit `j` on, going down from the top. */
  lemma {:induction false} XorShiftAgree(x: Word64, y: Word64, k: nat, j: nat)
    requires k > 0 && XorShift(x, k) == XorShift(y, k)
    ensures ShiftRight(x, j) == ShiftRight(y, j)
    decreases 64 - j
  {
    hide ShiftRight, Xor;
    if j >= 64 {
      AboveTop(x, j);
      AboveTop(y, j);
    } else {
      XorShiftAgree(x, y, k, k + j);
      ShiftsAdd(x, k, j);
      ShiftsAdd(y, k, j);
      XorShiftedRight(x, ShiftRight(x, k), j);
      XorShiftedRight(y, ShiftRight(y, k), j);
      XorInjective(ShiftRight(x, j), ShiftRight(y, j), ShiftRight(x, k + j));
    }
  }

  lemma AboveTop(x: Word64, j: nat)
    requires j >= 64
    ensures ShiftRight(x, j) == 0
  {
    WordPowers();
    Pow2Add(64, j - 64);
    MulMono(1, Pow2(j - 64), Pow2(64));
    DivModUnique(x, Pow2(j), 0, x);
  }

  lemma XorShiftInjective(x: Word64, y: Word64, k: nat)
    requires k > 0 && XorShift(x, k) == XorShift(y, k)
    ensures x == y
  {
    XorShiftAgree(x, y, k, 0);
    ShiftStep(x, 0);
    ShiftStep(y, 0);
  }

  // ----- multiplication by an odd prime

  lemma DifferenceIsMultiple(a: int, b: int, m: int) returns (d: int)
    requires m > 0 && a % m == b % m
    ensures a - b == m * d
  {
    d := a / m - b / m;
    assert a == m * (a / m) + a % m && b == m * (b / m) + b % m;
  }

  lemma SmallMultiple(x: int, e: int)
    requires x == 0x1_0000_0000_0000_0000 * e && -0x1_0000_0000_0000_0000 < x < 0x1_0000_0000_0000_0000
    ensures x == 0
  {
  }

  lemma Times1Injective(x: Word64, y: Word64)
    requires Times(x, PRIME1) == Times(y, PRIME1)
    ensures x == y
  {
    var d := DifferenceIsMultiple(x * 11400714785074694791, y * 11400714785074694791, 0x1_0000_0000_0000_0000);
    SmallMultiple(x - y, 614540362697595703 * d - 379806830464837242 * (x - y));
  }

  lemma Times2Injective(x: Word64, y: Word64)
    requires Times(x, PRIME2) == Times(y, PRIME2)
    ensures x == y
  {
    var d := DifferenceIsMultiple(x * 14029467366897019727, y * 14029467366897019727, 0x1_0000_0000_0000_0000);
    SmallMultiple(x - y, 839798700976720815 * d - 638699622168397319 * (x - y));
  }

  lemma Times3Injective(x: Word64, y: Word64)
    requires Times(x, PRIME3) == Times(y, PRIME3)
    ensures x == y
  {
    var d := DifferenceIsMultiple(x * 1609587929392839161, y * 1609587929392839161, 0x1_0000_0000_0000_0000);
    SmallMultiple(x - y, 16855272203555305545 * d - 1470722560960728959 * (x - y));
  }

  lemma AddInjective(x: Word64, y: Word64, c: int)
    requires Wrap(x + c) == Wrap(y + c)
    ensures x == y
  {
    var d := DifferenceIsMultiple(x + c, y + c, 0x1_0000_0000_0000_0000);
    SmallMultiple(x - y, d);
  }

  // ----- rotation

  /** `|` of a multiple of `2^b` and something below `2^b` is their sum. */
  lemma {:induction false} OrDisjoint(h: nat, l: nat, b: nat)
    requires l < Pow2(b)
    ensures Or(h * Pow2(b), l) == h * Pow2(b) + l
    decreases b
  {
    if b > 0 {
      hide Or;
      assert Pow2(b) == 2 * Pow2(b - 1);
      hide Pow2;
      OrDisjoint(h, l / 2, b - 1);
      MulAssoc(h, 2, Pow2(b - 1));
      OrEven(h * Pow2(b - 1), l);
    } else {
      assert l == 0 && h * Pow2(0) == h;
    }
  }

  lemma OrEven(m: nat, l: nat)
    ensures Or(2 * m, l) == 2 * Or(m, l / 2) + l % 2
  {
    assert (2 * m) / 2 == m && (2 * m) % 2 == 0;
  }

  lemma MulSum(a: nat, b: nat, c: nat)
    ensures (a + b) * c == a * c + b * c
  {
  }

  /** A word of `p * r` values, moved up by `p`, keeps its part below `r`; its part above fits below `p`. */
  lemma ShiftParts(x: nat, p: nat, r: nat, m: nat)
    requires p > 0 && r > 0 && m == p * r && x < m
    ensures (x * p) % m == x % r * p && x / r < p && x % r < r && x == x / r * r + x % r && x / r >= 0
  {
    DivMod(x, r);
    var q, l := x / r, x % r;
    MulSum(q * r, l, p);
    MulAssoc(q, r, p);
    assert r * p == m;
    MulMono(l + 1, r, p);
    MulSucc(l, p);
    DivModUnique(x * p, m, q, l * p);
    if q >= p {
      MulMono(p, q, r);
    }
  }

  lemma WordParts(x: Word64, bits: nat)
    requires 0 < bits < 64
    ensures var p, r := Pow2(bits), Pow2(64 - bits);
            Wrap(x * p) == x % r * p && x / r < p && x == x / r * r + x % r
  {
    WordPowers();
    Pow2Add(bits, 64 - bits);
    ShiftParts(x, Pow2(bits), Pow2(64 - bits), 0x1_0000_0000_0000_0000);
  }

  lemma RotateIsSum(x: Word64, bits: nat)
    requires 0 < bits < 64
    ensures var r := Pow2(64 - bits); RotateLeft(x, bits) == x % r * Pow2(bits) + ShiftRight(x, 64 - bits)
  {
    hide Or, Wrap, Pow2;
    WordParts(x, bits);
    var l, h := x % Pow2(64 - bits), ShiftRight(x, 64 - bits);
    OrDisjoint(l, h, bits);
  }

  lemma RotateInjective(x: Word64, y: Word64, bits: nat)
    requires 0 < bits < 64 && RotateLeft(x, bits) == RotateLeft(y, bits)
    ensures x == y
  {
    hide RotateLeft, Wrap, Pow2;
    RotateIsSum(x, bits);
    RotateIsSum(y, bits);
    WordParts(x, bits);
    WordParts(y, bits);
    var r := Pow2(64 - bits);
    SameQuotient(Pow2(bits), x % r, ShiftRight(x, 64 - bits), y % r, ShiftRight(y, 64 - bits));
  }

  // ----- the accumulator

  lemma Eat8Injective(x: Word64, y: Word64, lane: nat)
    requires Eat8(x, lane) == Eat8(y, lane)
    ensures x == y
  {
    hide Round, Times, Xor, RotateLeft;
    var a, b := Xor64(x, Round(0, lane)), Xor64(y, Round(0, lane));
    AddInjective(Times(RotateLeft(a, 27), PRIME1), Times(RotateLeft(b, 27), PRIME1), PRIME4);
    Times1Injective(RotateLeft(a, 27), RotateLeft(b, 27));
    RotateInjective(a, b, 27);
    XorInjective(x, y, Round(0, lane));
  }

  lemma Eat4Injective(x: Word64, y: Word64, lane: nat)
    requires Eat4(x, lane) == Eat4(y, lane)
    ensures x == y
  {
    hide Times, Xor, RotateLeft;
    var k := Times(lane, PRIME1);
    var a, b := Xor64(x, k), Xor64(y, k);
    AddInjective(Times(RotateLeft(a, 23), PRIME2), Times(RotateLeft(b, 23), PRIME2), PRIME3);
    Times2Injective(RotateLeft(a, 23), RotateLeft(b, 23));
    RotateInjective(a, b, 23);
    XorInjective(x, y, k);
  }

  lemma Eat1Injective(x: Word64, y: Word64, lane: nat)
    requires Eat1(x, lane) == Eat1(y, lane)
    ensures x == y
  {
    hide Times, Xor, RotateLeft;
    var k := Times(lane, PRIME5);
    var a, b := Xor64(x, k), Xor64(y, k);
    Times1Injective(RotateLeft(a, 11), RotateLeft(b, 11));
    RotateInjective(a, b, 11);
    XorInjective(x, y, k);
  }

  lemma {:induction false} TailInjective(x: Word64, y: Word64, p: seq<Byte>)
    requires Tail(x, p) == Tail(y, p)
    ensures x == y
    decreases |p|
  {
    hide Eat8, Eat4, Eat1, Load;
    if |p| >= 8 {
      TailInjective(Eat8(x, Load(p[..8])), Eat8(y, Load(p[..8])), p[8..]);
      Eat8Injective(x, y, Load(p[..8]));
    } else if |p| >= 4 {
      TailInjective(Eat4(x, Load(p[..4])), Eat4(y, Load(p[..4])), p[4..]);
      Eat4Injective(x, y, Load(p[..4]));
    } else if |p| >= 1 {
      TailInjective(Eat1(x, Load(p[..1])), Eat1(y, Load(p[..1])), p[1..]);
      Eat1Injective(x, y, Load(p[..1]));
    }
  }

  lemma AvalancheInjective(x: Word64, y: Word64)
    requires Avalanche(x) == Avalanche(y)
    ensures x == y
  {
    hide Times, XorShift;
    var a, b := Times(XorShift(x, 33), PRIME2), Times(XorShift(y, 33), PRIME2);
    XorShiftInjective(Times(XorShift(a, 29), PRIME3), Times(XorShift(b, 29), PRIME3), 32);
    Times3Injective(XorShift(a, 29), XorShift(b, 29));
    XorShiftInjective(a, b, 29);
    Times2Injective(XorShift(x, 33), XorShift(y, 33));
    XorShiftInjective(x, y, 33);
  }

  /** Two accumulators that finish to the same hash were the same. */
  lemma FinishInjective(x: Word64, y: Word64, len: nat, rest: seq<Byte>)
    requires Finish(x, len, rest) == Finish(y, len, rest)
    ensures x == y
  {
    hide Avalanche, Tail, Wrap;
    AvalancheInjective(Tail(Wrap(x + len), rest), Tail(Wrap(y + len), rest));
    TailInjective(Wrap(x + len), Wrap(y + len), rest);
    AddInjective(x, y, len);
  }
}
