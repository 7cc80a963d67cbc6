/** Multi-word arithmetic on 64-bit words (fpu/softfloat-macros.h).

    Every contract speaks of the concatenated value of its words, never of carries. */
module MultiWord {
  import opened Words

  /** Sum modulo 2^128. */
  method Add128(a0: word64, a1: word64, b0: word64, b1: word64) returns (z0: word64, z1: word64)
    ensures Val2(z0, z1) == (Val2(a0, a1) + Val2(b0, b1)) % B128
  {
    z1 := Plus(a1, b1);
    z0 := Plus(Plus(a0, b0), Bit(z1 < a1));
  }

  /** Difference modulo 2^128. */
  method Sub128(a0: word64, a1: word64, b0: word64, b1: word64) returns (z0: word64, z1: word64)
    ensures Val2(z0, z1) == (Val2(a0, a1) - Val2(b0, b1)) % B128
  {
    z1 := Minus(a1, b1);
    z0 := Minus(Minus(a0, b0), Bit(a1 < b1));
  }

  /** Sum modulo 2^192: two carry chains meet in the middle word. */
  method Add192(a0: word64, a1: word64, a2: word64, b0: word64, b1: word64, b2: word64)
    returns (z0: word64, z1: word64, z2: word64)
    ensures Val3(z0, z1, z2) == (Val3(a0, a1, a2) + Val3(b0, b1, b2)) % B192
  {
    z2 := Plus(a2, b2);
    var carry1 := Bit(z2 < a2);
    z1 := Plus(a1, b1);
    var carry0 := Bit(z1 < a1);
    z0 := Plus(a0, b0);
    z1 := Plus(z1, carry1);
    z0 := Plus(z0, Bit(z1 < carry1));
    z0 := Plus(z0, carry0);
    ghost var up1, up0 := a2 + b2 >= B64, a1 + b1 + carry1 >= B64;
    SumOfWords(a0, a1, a2, b0, b1, b2, z0, z1, z2, up1, up0, a0 + b0 + Bit(up0) >= B64);
  }

  /** Adding words one by one, with a carry from each into the next. */
  lemma SumOfWords(a0: word64, a1: word64, a2: word64, b0: word64, b1: word64, b2: word64,
                   z0: word64, z1: word64, z2: word64, up1: bool, up0: bool, lost: bool)
    requires a2 + b2 == z2 + if up1 then B64 else 0
    requires a1 + b1 + Bit(up1) == z1 + if up0 then B64 else 0
    requires a0 + b0 + Bit(up0) == z0 + if lost then B64 else 0
    ensures Val3(z0, z1, z2) == (Val3(a0, a1, a2) + Val3(b0, b1, b2)) % B192
  {
  }

  /** Difference modulo 2^192. */
  method Sub192(a0: word64, a1: word64, a2: word64, b0: word64, b1: word64, b2: word64)
    returns (z0: word64, z1: word64, z2: word64)
    ensures Val3(z0, z1, z2) == (Val3(a0, a1, a2) - Val3(b0, b1, b2)) % B192
  {
    z2 := Minus(a2, b2);
    var borrow1 := Bit(a2 < b2);
    z1 := Minus(a1, b1);
    var borrow0 := Bit(a1 < b1);
    z0 := Minus(a0, b0);
    z0 := Minus(z0, Bit(z1 < borrow1));
    z1 := Minus(z1, borrow1);
    z0 := Minus(z0, borrow0);
  }

  /** The product of two numbers split at 32 bits, as four partial products. */
  lemma SplitProduct(aHigh: nat, aLow: nat, bHigh: nat, bLow: nat)
    ensures (aHigh * B32 + aLow) * (bHigh * B32 + bLow)
         == aHigh * bHigh * B64 + (aLow * bHigh + aHigh * bLow) * B32 + aLow * bLow
  {
    var A := aHigh * B32;
    var B := bHigh * B32;
    assert (A + aLow) * (B + bLow) == A * B + A * bLow + aLow * B + aLow * bLow;
    assert A * B == aHigh * bHigh * B64;
    assert A * bLow == aHigh * bLow * B32;
    assert aLow * B == aLow * bHigh * B32;
  }

  /** Two factors below 2^32 have a product that fits a word with room for two more digits. */
  lemma DigitProduct(x: word32, y: word32)
    ensures 0 <= x * y <= (B32 - 1) * (B32 - 1)
  {
    MulBound(x, y, B32 - 1, B32 - 1);
  }

  /** The product of two words fits two words. */
  lemma WordProduct(a: word64, b: word64)
    ensures 0 <= a * b <= (B64 - 1) * (B64 - 1)
  {
    MulBound(a, b, B64 - 1, B64 - 1);
  }

  /** The exact 128-bit product: no carry between the partial products is lost. */
  method Mul64To128(a: word64, b: word64) returns (z0: word64, z1: word64)
    ensures Val2(z0, z1) == a * b
  {
    var aLow: word32, aHigh: word32 := a % B32, a / B32;
    var bLow: word32, bHigh: word32 := b % B32, b / B32;
    DigitProduct(aLow, bLow);
    DigitProduct(aLow, bHigh);
    DigitProduct(aHigh, bLow);
    DigitProduct(aHigh, bHigh);
    z1 := aLow * bLow;
    var zMiddleA: word64 := aLow * bHigh;
    var zMiddleB: word64 := aHigh * bLow;
    z0 := aHigh * bHigh;
    SplitProduct(aHigh, aLow, bHigh, bLow);
    WordProduct(a, b);
    z0, z1 := GatherPartials(z0, zMiddleA, zMiddleB, z1, a * b);
  }

  /** The second half of Mul64To128: adds up the partial products. */
  method GatherPartials(high: word64, middleA: word64, middleB: word64, low: word64, ghost product: nat)
    returns (z0: word64, z1: word64)
    requires product == high * B64 + (middleA + middleB) * B32 + low < B128
    ensures Val2(z0, z1) == product
  {
    z0, z1 := high, low;
    var zMiddleA := Plus(middleA, middleB);
    ghost var upper := high + Bit(zMiddleA < middleB) * B32 + zMiddleA / B32;
    ghost var lower := zMiddleA % B32 * B32;
    assert product == upper * B64 + lower + low;
    z0 := Plus(z0, Bit(zMiddleA < middleB) * B32 + zMiddleA / B32);
    assert z0 == upper;
    DivModUnique(zMiddleA * B32, B64, zMiddleA / B32, lower);
    zMiddleA := zMiddleA * B32 % B64;
    z1 := Plus(z1, zMiddleA);
    z0 := Plus(z0, Bit(z1 < zMiddleA));
  }

  /** Add128 of a single word to a product of two words, which cannot overflow. */
  method AddToProduct(z0: word64, z1: word64, w: word64, ghost x: word64, ghost y: word64)
    returns (s0: word64, s1: word64)
    requires Val2(z0, z1) == x * y
    ensures Val2(s0, s1) == x * y + w
  {
    WordProduct(x, y);
    s0, s1 := Add128(z0, z1, 0, w);
  }

  /** The exact 192-bit product of a two-word number and a word. */
  method Mul128By64To192(a0: word64, a1: word64, b: word64)
    returns (z0: word64, z1: word64, z2: word64)
    ensures Val3(z0, z1, z2) == Val2(a0, a1) * b
  {
    var more1;
    z1, z2 := Mul64To128(a1, b);
    z0, more1 := Mul64To128(a0, b);
    z0, z1 := AddToProduct(z0, more1, z1, a0, b);
    assert Val2(a0, a1) * b == a0 * b * B64 + a1 * b;
  }

  /** The exact 256-bit product. */
  method Mul128To256(a0: word64, a1: word64, b0: word64, b1: word64)
    returns (z0: word64, z1: word64, z2: word64, z3: word64)
    ensures Val4(z0, z1, z2, z3) == Val2(a0, a1) * Val2(b0, b1)
  {
    var more1, more2;
    z2, z3 := Mul64To128(a1, b1);
    z1, more2 := Mul64To128(a1, b0);
    z1, z2 := AddToProduct(z1, more2, z2, a1, b0);
    z0, more1 := Mul64To128(a0, b0);
    z0, z1 := AddToProduct(z0, more1, z1, a0, b0);
    more1, more2 := Mul64To128(a0, b1);
    more1, z2 := AddToProduct(more1, more2, z2, a0, b1);
    WideProduct(a0, a1, b0, b1);
    z0, z1 := AddTop(z0, z1, more1, z2, z3, Val2(a0, a1) * Val2(b0, b1));
  }

  /** The last addition of Mul128To256, which cannot overflow either. */
  method AddTop(z0: word64, z1: word64, w: word64, ghost z2: word64, ghost z3: word64, ghost product: nat)
    returns (s0: word64, s1: word64)
    requires product == (Val2(z0, z1) + w) * B128 + Val2(z2, z3) < B128 * B128
    ensures Val4(s0, s1, z2, z3) == product
  {
    s0, s1 := Add128(z0, z1, 0, w);
  }

  /** A 128x128-bit product as its four word products, and its size. */
  lemma WideProduct(a0: word64, a1: word64, b0: word64, b1: word64)
    ensures Val2(a0, a1) * Val2(b0, b1)
         == a0 * b0 * B128 + (a0 * b1 + a1 * b0) * B64 + a1 * b1
    ensures Val2(a0, a1) * Val2(b0, b1) < B128 * B128
  {
    var A := a0 * B64;
    var B := b0 * B64;
    assert (A + a1) * (B + b1) == A * B + A * b1 + a1 * B + a1 * b1;
    assert A * B == a0 * b0 * B128;
    assert A * b1 == a0 * b1 * B64;
    assert a1 * B == a1 * b0 * B64;
    var x, y := Val2(a0, a1), Val2(b0, b1);
    MulBound(x, y, B128 - 1, B128 - 1);
  }
}
