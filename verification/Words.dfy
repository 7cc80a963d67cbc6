/** Machine words as natural numbers, powers of two and bitwise "or".

    Every routine modelled here works on 32- or 64-bit unsigned words.  A word is a
    natural number below its base; wrap-around is written out. */
module Words {
  const B32 := 0x1_0000_0000
  const B64 := 0x1_0000_0000_0000_0000
  const B128 := 0x1_0000_0000_0000_0000_0000_0000_0000_0000
  const B192 := 0x1_0000_0000_0000_0000_0000_0000_0000_0000_0000_0000_0000_0000

  type word32 = n: nat | n < B32
  type word64 = n: nat | n < B64

  /** Addition and subtraction of 64-bit words, wrapping around at 2^64. */
  function Plus(a: word64, b: word64): word64 {
    if a + b < B64 then a + b else a + b - B64
  }

  function Minus(a: word64, b: word64): word64 {
    if a < b then a - b + B64 else a - b
  }

  /** Addition of 32-bit words. */
  function Plus32(a: word32, b: word32): word32 {
    if a + b < B32 then a + b else a + b - B32
  }

  /** The number formed by concatenating words, most significant first. */
  function Val2(z0: nat, z1: nat): nat { z0 * B64 + z1 }
  function Val3(z0: nat, z1: nat, z2: nat): nat { z0 * B128 + z1 * B64 + z2 }
  function Val4(z0: nat, z1: nat, z2: nat, z3: nat): nat { z0 * B192 + z1 * B128 + z2 * B64 + z3 }

  /** Concatenation is injective: a two-word result is determined by its value. */
  lemma Val2Unique(a0: word64, a1: word64, b0: word64, b1: word64)
    requires Val2(a0, a1) == Val2(b0, b1)
    ensures a0 == b0 && a1 == b1
  {
  }

  function Bit(b: bool): (r: nat)
    ensures r < 2
  {
    if b then 1 else 0
  }

  function Pow2(k: nat): (r: nat)
    ensures r > 0
  {
    if k == 0 then 1 else 2 * Pow2(k - 1)
  }

  lemma {:induction false} Pow2Add(i: nat, j: nat)
    ensures Pow2(i + j) == Pow2(i) * Pow2(j)
  {
    if i == 0 {
      assert Pow2(i) == 1;
    } else {
      Pow2Add(i - 1, j);
      assert Pow2(i + j) == 2 * Pow2(i - 1 + j);
      DoubleFactor(Pow2(i - 1), Pow2(j));
    }
  }

  lemma DoubleFactor(x: nat, y: nat)
    ensures 2 * (x * y) == (2 * x) * y
  {
  }

  lemma Pow2Values()
    ensures Pow2(32) == B32 && Pow2(63) == B64 / 2 && Pow2(64) == B64
  {
    assert Pow2(8) == 0x100;
    Pow2Add(8, 8);
    Pow2Add(16, 16);
    Pow2Add(32, 32);
    Pow2Add(1, 63);
    assert Pow2(1) == 2;
  }

  // ----- Shifts of unbounded numbers -----

  /** Left shift: doubling k times. */
  function Shl(a: nat, k: nat): nat
    decreases k, a
  {
    if k == 0 then a else 2 * Shl(a, k - 1)
  }

  /** A shifted number and what fills its lowest bits have the parity of the latter. */
  lemma ShlParity(a: nat, k: nat, x: nat)
    requires k > 0
    ensures (Shl(a, k) + x) % 2 == x % 2
  {
    var h := Shl(a, k - 1);
    assert (2 * h + x) % 2 == x % 2;
  }

  /** Right shift: halving k times. */
  function Shr(a: nat, k: nat): nat
    decreases k, a
  {
    if k == 0 then a else Shr(a / 2, k - 1)
  }

  /** The k bits a right shift loses. */
  function Low(a: nat, k: nat): nat
    decreases k, a
  {
    if k == 0 then 0 else 2 * Low(a / 2, k - 1) + a % 2
  }

  /** The shifts are multiplication and division by a power of two. */
  lemma {:induction false} ShlIsProduct(a: nat, k: nat)
    ensures Shl(a, k) == a * Pow2(k)
  {
    if k > 0 {
      ShlIsProduct(a, k - 1);
      assert a * Pow2(k) == 2 * (a * Pow2(k - 1));
    }
  }

  lemma ShrIsDivision(a: nat, k: nat)
    ensures Shr(a, k) == a / Pow2(k) && Low(a, k) == a % Pow2(k)
  {
    ShrLow(a, k);
    ShlIsProduct(Shr(a, k), k);
    ShlIsProduct(1, k);
    DivModUnique(a, Pow2(k), Shr(a, k), Low(a, k));
  }

  lemma ShlWords(a: nat)
    ensures Shl(a, 32) == a * B32 && Shl(a, 64) == a * B64
    ensures Shl(1, 32) == B32 && Shl(1, 63) == B64 / 2 && Shl(1, 64) == B64
  {
    Pow2Values();
    ShlIsProduct(a, 32);
    ShlIsProduct(a, 64);
    ShlIsProduct(1, 32);
    ShlIsProduct(1, 63);
    ShlIsProduct(1, 64);
  }

  lemma {:induction false} ShrLow(a: nat, k: nat)
    ensures a == Shl(Shr(a, k), k) + Low(a, k) && Low(a, k) < Shl(1, k)
    decreases k
  {
    if k > 0 { ShrLow(a / 2, k - 1); }
  }

  lemma {:induction false} ShlAdd(a: nat, i: nat, j: nat)
    ensures Shl(a, i + j) == Shl(Shl(a, i), j)
  {
    if j > 0 { ShlAdd(a, i, j - 1); }
  }

  lemma {:induction false} ShlPlus(a: nat, b: nat, k: nat)
    ensures Shl(a + b, k) == Shl(a, k) + Shl(b, k)
  {
    if k > 0 { ShlPlus(a, b, k - 1); }
  }

  lemma {:induction false} ShlOrder(a: nat, k: nat)
    ensures Shl(a, k) >= a && Shl(0, k) == 0
    ensures forall b: nat | a < b :: Shl(a, k) + Shl(1, k) <= Shl(b, k)
  {
    if k > 0 { ShlOrder(a, k - 1); }
  }

  lemma {:induction false} ShrAdd(a: nat, i: nat, j: nat)
    ensures Shr(a, i + j) == Shr(Shr(a, i), j)
    ensures Low(a, i + j) == Shl(Low(Shr(a, i), j), i) + Low(a, i)
    decreases i
  {
    if i > 0 { ShrAdd(a / 2, i - 1, j); }
  }

  /** Shifting everything out. */
  lemma {:induction false} ShrAll(a: nat, k: nat)
    requires a < Shl(1, k)
    ensures Shr(a, k) == 0 && Low(a, k) == a
    decreases k
  {
    if k > 0 { ShrAll(a / 2, k - 1); }
  }

  lemma {:induction false} ShrWithin(a: nat, k: nat)
    ensures Shr(a, k) <= a
    decreases k
  {
    if k > 0 { ShrWithin(a / 2, k - 1); }
  }

  lemma {:induction false} ShrBelow(a: nat, w: nat, k: nat)
    requires a < Shl(1, w) && k <= w
    ensures Shr(a, k) < Shl(1, w - k)
    decreases k
  {
    if k > 0 { ShrBelow(a / 2, w - 1, k - 1); }
  }

  /** Shifting a concatenation by at most the width of its low part. */
  lemma {:induction false} ShrConcat(hi: nat, lo: nat, w: nat, k: nat)
    requires k <= w && lo < Shl(1, w)
    ensures Shr(Shl(hi, w) + lo, k) == Shl(hi, w - k) + Shr(lo, k)
    ensures Low(Shl(hi, w) + lo, k) == Low(lo, k)
    decreases k
  {
    if k > 0 {
      assert (Shl(hi, w) + lo) / 2 == Shl(hi, w - 1) + lo / 2;
      ShrConcat(hi, lo / 2, w - 1, k - 1);
    }
  }

  // ----- Bitwise inclusive or -----

  /** Inclusive or, bit by bit from the least significant end. */
  function Or(x: nat, y: nat): nat {
    if x == 0 then y
    else if y == 0 then x
    else 2 * Or(x / 2, y / 2) + (if x % 2 == 1 || y % 2 == 1 then 1 else 0)
  }

  lemma {:induction false} OrIsZero(x: nat, y: nat)
    ensures Or(x, y) == 0 <==> x == 0 && y == 0
  {
    if x != 0 && y != 0 { OrIsZero(x / 2, y / 2); }
  }

  lemma {:induction false} OrBelow(x: nat, y: nat, k: nat)
    requires x < Shl(1, k) && y < Shl(1, k)
    ensures Or(x, y) < Shl(1, k)
  {
    if x != 0 && y != 0 { OrBelow(x / 2, y / 2, k - 1); }
  }

  /** Exclusive or. */
  function Xor(x: nat, y: nat): nat {
    if x == 0 then y
    else if y == 0 then x
    else 2 * Xor(x / 2, y / 2) + (x + y) % 2
  }

  /** Operands that share no bit position are simply added. */
  lemma {:induction false} OrDisjoint(c: nat, y: nat, k: nat)
    requires y < Shl(1, k)
    ensures Or(Shl(c, k), y) == Shl(c, k) + y
  {
    if k > 0 && y != 0 && Shl(c, k) != 0 { OrDisjoint(c, y / 2, k - 1); }
  }

  lemma {:induction false} XorSymmetric(x: nat, y: nat)
    ensures Xor(x, y) == Xor(y, x)
  {
    if x != 0 && y != 0 { XorSymmetric(x / 2, y / 2); }
  }

  /** The lowest bits where one operand has none. */
  lemma {:induction false} XorAbove(a: nat, b: nat, y: nat, k: nat)
    requires y < Shl(1, k)
    ensures Xor(Shl(a, k) + y, Shl(b, k)) == Shl(Xor(a, b), k) + y
  {
    if k > 0 {
      var x := Shl(a, k - 1) + y / 2;
      XorAbove(a, b, y / 2, k - 1);
      XorStep(x, y % 2, Shl(b, k - 1));
      assert 2 * x + y % 2 == Shl(a, k) + y;
    }
  }

  lemma XorStep(x: nat, bit: nat, y: nat)
    requires bit < 2
    ensures Xor(2 * x + bit, 2 * y) == 2 * Xor(x, y) + bit
  {
    assert (2 * x + bit) / 2 == x && 2 * y / 2 == y;
  }

  /** Or-ing 0 or 1 into a number only touches its lowest bit. */
  lemma OrBit(x: nat, b: nat)
    requires b < 2
    ensures Or(x, b) == if b == 1 && x % 2 == 0 then x + 1 else x
  {
    if x != 0 && b == 1 {
      assert Or(x / 2, 0) == x / 2;
    }
  }

  /** Or-ing a low half-word into a number whose low half-word is clear. */
  lemma OrHalves(x: nat, y: word32)
    ensures Or(x * B32, y) == x * B32 + y
  {
    ShlWords(x);
    OrDisjoint(x, y, 32);
  }

  lemma OrWords(x: word64, y: word64)
    ensures Or(x, y) < B64
  {
    ShlWords(0);
    OrBelow(x, y, 64);
  }

  // ----- Facts of integer arithmetic -----

  /** Quotient and remainder are determined by their defining equation. */
  lemma DivModUnique(x: int, d: nat, q: int, r: int)
    requires d > 0 && 0 <= r < d && x == q * d + r
    ensures x / d == q && x % d == r
  {
    var e := x / d - q;
    assert e * d == r - x % d by {
      assert x == (x / d) * d + x % d;
      assert e * d == (x / d) * d - q * d;
    }
    NonzeroMultiple(e, d);
  }

  lemma NonzeroMultiple(e: int, d: int)
    requires d > 0
    ensures e >= 1 ==> e * d >= d
    ensures e <= -1 ==> e * d <= -d
  {
  }

  /** A product is bounded by the product of its factors' bounds. */
  lemma MulBound(x: nat, y: nat, m: nat, n: nat)
    requires x <= m && y <= n
    ensures 0 <= x * y <= m * n
  {
    assert x * y <= m * y <= m * n;
  }

  lemma BelowFactor(x: int, d: int, m: int)
    requires d > 0 && x * d < m * d
    ensures x < m
  {
    assert (m - x) * d == m * d - x * d;
    NonzeroMultiple(m - x, d);
  }

  /** A quotient is the number of whole divisors that fit. */
  lemma QuotientBounds(r: nat, b: nat)
    requires b > 0
    ensures 0 <= (r / b) * b <= r < (r / b + 1) * b && 0 <= r / b <= r
  {
    assert r == (r / b) * b + r % b;
    assert (r / b + 1) * b == (r / b) * b + b;
    MulBound(r / b, 1, r / b, b);
  }
}
