/** The 64-bit word operations that the shape of the hash tree rests on.  A word is a natural number, and `&`
    and `|` are defined bit by bit, so every mask and shift of the source is written out as arithmetic. */
module Bits {

  // ----- powers of two

  function Pow2(n: nat): (p: nat)
    ensures p >= 1
  {
    if n == 0 then 1 else 2 * Pow2(n - 1)
  }

  predicate IsPow2(x: nat) {
    x == 1 || (x >= 2 && x % 2 == 0 && IsPow2(x / 2))
  }

  /** The largest power of two that is at most `x`. */
  function FloorPow2(x: nat): (p: nat)
    requires x >= 1
    ensures IsPow2(p) && p <= x < 2 * p
  {
    if x == 1 then 1 else 2 * FloorPow2(x / 2)
  }

  lemma {:induction false} FloorPow2Unique(p: nat, x: nat)
    requires IsPow2(p) && p <= x < 2 * p
    ensures FloorPow2(x) == p
  {
    if p >= 2 {
      FloorPow2Unique(p / 2, x / 2);
    }
  }

  lemma {:induction false} FloorPow2IsLargest(p: nat, x: nat)
    requires x >= 1 && IsPow2(p) && p <= x
    ensures p <= FloorPow2(x)
  {
    if p >= 2 {
      FloorPow2IsLargest(p / 2, x / 2);
    }
  }

  lemma {:induction false} Pow2IsPow2(n: nat)
    ensures IsPow2(Pow2(n))
  {
    if n > 0 {
      Pow2IsPow2(n - 1);
    }
  }

  lemma {:induction false} Pow2Add(a: nat, b: nat)
    ensures Pow2(a + b) == Pow2(a) * Pow2(b)
  {
    if a > 0 {
      Pow2Add(a - 1, b);
      assert 2 * (Pow2(a - 1) * Pow2(b)) == (2 * Pow2(a - 1)) * Pow2(b);
    }
  }

  /** The quotient of two powers of two is one too. */
  lemma {:induction false} Pow2Quotient(p: nat, q: nat)
    requires IsPow2(p) && IsPow2(q) && p <= q
    ensures IsPow2(q / p) && q == q / p * p
  {
    if p >= 2 {
      Pow2Quotient(p / 2, q / 2);
      Doubling(q / 2, p / 2);
      MulAssoc(q / p, 2, p / 2);
    }
  }

  lemma MulMono(a: nat, b: nat, c: nat)
    requires a <= b
    ensures a * c <= b * c
  {
  }

  lemma MulSucc(a: nat, c: nat)
    ensures (a + 1) * c == a * c + c
  {
  }

  lemma MulAssoc(a: nat, b: nat, c: nat)
    ensures (a * b) * c == a * (b * c) && a * (b * c) == b * (a * c)
  {
  }

  lemma DivMod(n: nat, d: nat)
    requires d > 0
    ensures n == n / d * d + n % d && n % d < d
  {
  }

  lemma SameQuotient(d: nat, q: nat, r: nat, q': nat, r': nat)
    requires r < d && r' < d && q * d + r == q' * d + r'
    ensures q == q' && r == r'
  {
    if q < q' {
      MulMono(q + 1, q', d);
      MulSucc(q, d);
    } else if q' < q {
      MulMono(q' + 1, q, d);
      MulSucc(q', d);
    }
  }

  lemma DivModUnique(n: nat, d: nat, q: nat, r: nat)
    requires r < d && n == q * d + r
    ensures n / d == q && n % d == r
  {
    DivMod(n, d);
    SameQuotient(d, q, r, n / d, n % d);
  }

  /** Doubling both sides of a division, with a low bit put back. */
  lemma Doubling(x: nat, p: nat, bit: nat := 0)
    requires p >= 1 && bit <= 1
    ensures (2 * x + bit) % (2 * p) == 2 * (x % p) + bit
    ensures (2 * x + bit) / (2 * p) == x / p
  {
    var q, r := x / p, x % p;
    assert x == q * p + r;
    assert q * (2 * p) == 2 * (q * p);
    DivModUnique(2 * x + bit, 2 * p, q, 2 * r + bit);
  }

  // ----- bitwise operators

  function And(x: nat, y: nat): nat {
    if x == 0 || y == 0 then 0
    else 2 * And(x / 2, y / 2) + (if x % 2 == 1 && y % 2 == 1 then 1 else 0)
  }

  function Or(x: nat, y: nat): nat
    decreases x + y
  {
    if x == 0 then y else if y == 0 then x
    else 2 * Or(x / 2, y / 2) + (if x % 2 == 1 || y % 2 == 1 then 1 else 0)
  }

  function Xor(x: nat, y: nat): nat
    decreases x + y
  {
    if x == 0 then y else if y == 0 then x
    else 2 * Xor(x / 2, y / 2) + (if x % 2 == y % 2 then 0 else 1)
  }

  /** Bitwise operators on `k`-bit words give `k`-bit words. */
  lemma {:induction false} BitwiseBound(x: nat, y: nat, k: nat)
    requires x < Pow2(k) && y < Pow2(k)
    ensures Or(x, y) < Pow2(k) && Xor(x, y) < Pow2(k)
  {
    if x > 0 && y > 0 {
      BitwiseBound(x / 2, y / 2, k - 1);
    }
  }

  /** Bit `k` of a word. */
  function Bit(x: nat, k: nat): nat {
    x / Pow2(k) % 2
  }

  lemma BitBelow(x: nat, k: nat)
    ensures Bit(x, k) == if k == 0 then x % 2 else Bit(x / 2, k - 1)
    ensures 0 <= Bit(x, k) <= 1
  {
    if k > 0 {
      Doubling(x / 2, Pow2(k - 1), x % 2);
    }
  }

  /** The bitwise operators, bit by bit. */
  lemma {:induction false} OperatorsBitwise(x: nat, y: nat, k: nat)
    ensures Bit(And(x, y), k) == if Bit(x, k) == 1 && Bit(y, k) == 1 then 1 else 0
    ensures Bit(Or(x, y), k) == if Bit(x, k) == 1 || Bit(y, k) == 1 then 1 else 0
    ensures Bit(Xor(x, y), k) == if Bit(x, k) == Bit(y, k) then 0 else 1
    decreases k
  {
    hide Bit, And, Or, Xor;
    BitBelow(x, k);
    BitBelow(y, k);
    BitBelow(And(x, y), k);
    BitBelow(Or(x, y), k);
    BitBelow(Xor(x, y), k);
    LowAnd(x, y);
    LowOr(x, y);
    LowXor(x, y);
    if k > 0 {
      OperatorsBitwise(x / 2, y / 2, k - 1);
    }
  }

  /** The low bit and the rest of what the operators give. */
  lemma LowAnd(x: nat, y: nat)
    ensures And(x, y) / 2 == And(x / 2, y / 2) && And(x, y) % 2 == if x % 2 == 1 && y % 2 == 1 then 1 else 0
  {
  }

  lemma LowOr(x: nat, y: nat)
    ensures Or(x, y) / 2 == Or(x / 2, y / 2) && Or(x, y) % 2 == if x % 2 == 1 || y % 2 == 1 then 1 else 0
  {
  }

  lemma LowXor(x: nat, y: nat)
    ensures Xor(x, y) / 2 == Xor(x / 2, y / 2) && Xor(x, y) % 2 == if x % 2 == y % 2 then 0 else 1
  {
  }

  lemma HalfTimes(h: nat, m: nat)
    requires m % 2 == 0
    ensures m * h == 2 * (m / 2 * h)
  {
    MulAssoc(2, m / 2, h);
  }

  lemma OrDouble(g: nat, a: nat, b: nat)
    requires Or(g + a / 2, b / 2) == g + Or(a / 2, b / 2)
    ensures Or(2 * g + a, b) == 2 * g + Or(a, b)
  {
    hide Or;
    LowOr(2 * g + a, b);
    LowOr(a, b);
    assert (2 * g + a) / 2 == g + a / 2;
  }

  /** Operands below a power of two leave the bits from there on alone. */
  lemma {:induction false} OrBelow(h: nat, m: nat, a: nat, b: nat)
    requires IsPow2(m) && a < m && b < m
    ensures Or(m * h + a, b) == m * h + Or(a, b)
    decreases m
  {
    hide Or;
    if m > 1 {
      HalfTimes(h, m);
      OrBelow(h, m / 2, a / 2, b / 2);
      OrDouble(m / 2 * h, a, b);
    } else {
      OrNone(m * h);
      OrNone(0);
    }
  }

  lemma OrNone(x: nat)
    ensures Or(x, 0) == x
  {
  }

  function PopCount(x: nat): nat {
    if x == 0 then 0 else x % 2 + PopCount(x / 2)
  }

  /** Masking with one less than a power of two takes the remainder. */
  lemma {:induction false} AndIsMod(p: nat, x: nat)
    requires IsPow2(p)
    ensures And(p - 1, x) == x % p
  {
    if p >= 2 {
      AndIsMod(p / 2, x / 2);
      AndOdd(p / 2 - 1, x);
      Doubling(x / 2, p / 2, x % 2);
    }
  }

  lemma AndOdd(m: nat, x: nat)
    ensures And(2 * m + 1, x) == 2 * And(m, x / 2) + x % 2
  {
    assert (2 * m + 1) / 2 == m && (2 * m + 1) % 2 == 1;
  }

  /** A mask of `k` ones above `j` zeros, applied to a word of `j + k` bits, keeps exactly the bits above `j`. */
  lemma {:induction false} AndHighMask(x: nat, j: nat, k: nat)
    requires x < Pow2(j + k)
    ensures And(x, (Pow2(k) - 1) * Pow2(j)) == x / Pow2(j) * Pow2(j)
  {
    if j == 0 {
      AndComm(x, Pow2(k) - 1);
      Pow2IsPow2(k);
      AndIsMod(Pow2(k), x);
      DivModUnique(x, Pow2(k), 0, x);
      assert (Pow2(k) - 1) * Pow2(0) == Pow2(k) - 1;
    } else {
      AndHighMask(x / 2, j - 1, k);
      Doubling(x / 2, Pow2(j - 1), x % 2);
      MulAssoc(Pow2(k) - 1, 2, Pow2(j - 1));
      MulAssoc(x / Pow2(j), 2, Pow2(j - 1));
      AndEven(x, (Pow2(k) - 1) * Pow2(j - 1));
    }
  }

  lemma AndEven(x: nat, m: nat)
    ensures And(x, 2 * m) == 2 * And(x / 2, m)
  {
    assert (2 * m) / 2 == m && (2 * m) % 2 == 0;
    if x > 0 && m > 0 {
      assert And(x, 2 * m) == 2 * And(x / 2, (2 * m) / 2);
    }
  }

  lemma {:induction false} AndComm(x: nat, y: nat)
    ensures And(x, y) == And(y, x)
  {
    if x > 0 && y > 0 {
      AndComm(x / 2, y / 2);
    }
  }

  lemma {:induction false} AndSelf(x: nat)
    ensures And(x, x) == x
  {
    if x > 0 {
      AndSelf(x / 2);
    }
  }

  lemma OrOne(x: nat)
    ensures Or(x, 1) == if x % 2 == 0 then x + 1 else x
  {
    if x > 0 {
      assert Or(x / 2, 0) == x / 2;
    }
  }

  /** `x & (x - 1)` clears exactly one set bit. */
  lemma {:induction false} ClearLowestBit(x: nat)
    requires x > 0
    ensures And(x, x - 1) < x && PopCount(And(x, x - 1)) + 1 == PopCount(x)
  {
    hide And, PopCount;
    var h := x / 2;
    if x % 2 == 1 {
      assert x == 2 * h + 1 && (x - 1) / 2 == h;
      AndEven(x, h);
      AndSelf(h);
      PopCountDouble(h);
    } else {
      ClearLowestBit(h);
      assert x - 1 == 2 * (h - 1) + 1;
      AndComm(x, x - 1);
      AndOdd(h - 1, x);
      AndComm(h, h - 1);
      PopCountDouble(And(h, h - 1));
      PopCountDouble(h);
    }
  }

  lemma PopCountDouble(x: nat)
    ensures PopCount(2 * x) == PopCount(x) && PopCount(2 * x + 1) == PopCount(x) + 1
  {
    assert (2 * x) / 2 == x && (2 * x + 1) / 2 == x;
  }

  /** A word below `2^k - 1` has a zero among its `k` low bits. */
  lemma {:induction false} PopCountBound(x: nat, k: nat)
    requires x < Pow2(k)
    ensures PopCount(x) <= k
    ensures x + 1 < Pow2(k) ==> PopCount(x) + 1 <= k
  {
    if x > 0 {
      PopCountBound(x / 2, k - 1);
    }
  }

  // ----- blake3_impl.h

  /** Counting set bits by clearing the lowest one until none is left. */
  method PopCnt(w: nat) returns (count: nat)
    ensures count == PopCount(w)
  {
    var x := w;
    count := 0;
    while x != 0
      invariant count + PopCount(x) == PopCount(w)
    {
      count := count + 1;
      ClearLowestBit(x);
      x := And(x, x - 1);
    }
  }

  /** `p << c`. */
  function ShiftLeft(p: nat, c: nat): nat {
    if c == 0 then p else 2 * ShiftLeft(p, c - 1)
  }

  lemma {:induction false} ShiftTwice(p: nat, a: nat, b: nat)
    ensures ShiftLeft(ShiftLeft(p, a), b) == ShiftLeft(p, a + b)
  {
    if b > 0 {
      ShiftTwice(p, a, b - 1);
    }
  }

  lemma {:induction false} ShiftOne(c: nat)
    ensures ShiftLeft(1, c) == Pow2(c)
  {
    if c > 0 {
      ShiftOne(c - 1);
    }
  }

  /** Dropping `k` low bits from a word that has a bit at or above `k` divides its highest power of two by `2^k`. */
  lemma {:induction false} FloorPow2Shift(x: nat, k: nat)
    requires Pow2(k) <= x
    ensures x / Pow2(k) >= 1 && FloorPow2(x) == ShiftLeft(FloorPow2(x / Pow2(k)), k)
  {
    if k > 0 {
      FloorPow2Shift(x / 2, k - 1);
      Doubling(x / 2, Pow2(k - 1), x % 2);
    }
  }

  /** `x & mask != 0`, for a mask of `k` ones above `j` zeros, asks whether a `j + k`-bit word reaches `2^j`. */
  lemma MaskTest(x: nat, j: nat, k: nat)
    requires x < Pow2(j + k)
    ensures And(x, (Pow2(k) - 1) * Pow2(j)) != 0 <==> x >= Pow2(j)
  {
    AndHighMask(x, j, k);
    DivMod(x, Pow2(j));
    if x >= Pow2(j) {
      if x / Pow2(j) == 0 {
        assert false;
      }
      MulMono(1, x / Pow2(j), Pow2(j));
    } else {
      DivModUnique(x, Pow2(j), 0, x);
    }
  }

  lemma Pow2PlusEight(k: nat)
    ensures Pow2(k + 8) == 0x100 * Pow2(k)
  {
    assert Pow2(k + 4) == 2 * Pow2(k + 3) == 4 * Pow2(k + 2) == 8 * Pow2(k + 1) == 16 * Pow2(k);
    assert Pow2(k + 8) == 2 * Pow2(k + 7) == 4 * Pow2(k + 6) == 8 * Pow2(k + 5) == 16 * Pow2(k + 4);
  }

  lemma WordPowers()
    ensures Pow2(0) == 1 && Pow2(1) == 2 && Pow2(2) == 4 && Pow2(4) == 0x10 && Pow2(8) == 0x100
    ensures Pow2(16) == 0x1_0000 && Pow2(32) == 0x1_0000_0000
    ensures Pow2(54) == 0x40_0000_0000_0000 && Pow2(64) == 0x1_0000_0000_0000_0000
  {
    Pow2PlusEight(0);
    Pow2PlusEight(8);
    Pow2PlusEight(16);
    Pow2PlusEight(24);
    Pow2PlusEight(32);
    Pow2PlusEight(40);
    Pow2PlusEight(48);
    Pow2PlusEight(56);
    assert Pow2(54) * 4 == 2 * Pow2(55) == Pow2(56);
  }

  /** One conditional line of the search, on a word of `2k` bits: `mask` selects its upper half. */
  method SearchStep(ghost w: nat, x: nat, c: nat, k: nat, mask: nat, half: nat) returns (x': nat, c': nat)
    requires 1 <= w && 1 <= x < half * half && half == Pow2(k) && mask == (half - 1) * half
    requires FloorPow2(w) == ShiftLeft(FloorPow2(x), c)
    ensures 1 <= x' < half && FloorPow2(w) == ShiftLeft(FloorPow2(x'), c') && c' <= c + k
  {
    Pow2Add(k, k);
    MaskTest(x, k, k);
    x', c' := x, c;
    if And(x, mask) != 0 {
      FloorPow2Shift(x, k);
      ShiftTwice(FloorPow2(x / half), k, c);
      DivMod(x, half);
      if x / half >= half {
        MulMono(half, x / half, half);
      }
      x', c' := x / half, c + k;
    }
  }

  /** The portable search for the index of the highest set bit. */
  method HighestOne(w: nat) returns (c: nat)
    requires 1 <= w < 0x1_0000_0000_0000_0000
    ensures c < 64 && Pow2(c) == FloorPow2(w)
  {
    var x := w;
    c := 0;
    WordPowers();
    hide *;
    NoShift(FloorPow2(w));
    x, c := SearchStep(w, x, c, 32, 0xffff_ffff_0000_0000, 0x1_0000_0000);
    x, c := SearchStep(w, x, c, 16, 0xffff_0000, 0x1_0000);
    x, c := SearchStep(w, x, c, 8, 0xff00, 0x100);
    x, c := SearchStep(w, x, c, 4, 0xf0, 0x10);
    x, c := SearchStep(w, x, c, 2, 0xc, 4);
    x, c := SearchStep(w, x, c, 1, 2, 2);
    ShiftOne(c);
    FloorPow2OfOne();
  }

  lemma NoShift(p: nat)
    ensures ShiftLeft(p, 0) == p
  {
  }

  lemma FloorPow2OfOne()
    ensures FloorPow2(1) == 1
  {
  }

  /** `1 << highest_one(x | 1)`: the largest power of two at most `x`, and 1 for 0. */
  method RoundDownToPowerOf2(x: nat) returns (p: nat)
    requires x < 0x1_0000_0000_0000_0000
    ensures p == if x == 0 then 1 else FloorPow2(x)
  {
    OrOne(x);
    var c := HighestOne(Or(x, 1));
    p := Pow2(c);
    if x > 0 && x % 2 == 0 {
      assert (x + 1) / 2 == x / 2;
    }
  }

  // ----- binary decomposition

  /** The set bits of `q`, each worth `u` times its power of two, largest first. */
  function Parts(q: nat, u: nat): seq<nat>
    decreases q
  {
    if q == 0 then [] else Parts(q / 2, 2 * u) + (if q % 2 == 1 then [u] else [])
  }

  lemma {:induction false} PartsLength(q: nat, u: nat)
    ensures |Parts(q, u)| == PopCount(q)
  {
    if q > 0 {
      PartsLength(q / 2, 2 * u);
    }
  }

  /** Multiplying the number by a power of two is the same as multiplying the unit. */
  lemma {:induction false} PartsScale(q: nat, s: nat, u: nat)
    requires IsPow2(s)
    ensures Parts(q * s, u) == Parts(q, s * u) && PopCount(q * s) == PopCount(q)
    decreases s
  {
    if s >= 2 {
      var h := s / 2;
      assert q * s == 2 * (q * h);
      assert (q * s) / 2 == q * h && (q * s) % 2 == 0;
      PartsScale(q, h, 2 * u);
      assert h * (2 * u) == s * u;
      PopCountDouble(q * h);
      assert Parts(q * s, u) == Parts(q * h, 2 * u);
    }
  }
}
