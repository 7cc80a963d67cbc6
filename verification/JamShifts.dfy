/** The sticky ("jamming") right shifts of fpu/softfloat-macros.h. */
module JamShifts {
  import opened Words

  /** The meaning of a jamming shift: the value shifted right, with its lowest bit
      set as well whenever a nonzero bit was shifted off. */
  function Jam(a: nat, count: nat): nat {
    Or(Shr(a, count), Bit(Low(a, count) != 0))
  }

  /** In terms of division: the quotient by 2^count, made odd if the division leaves a remainder. */
  lemma JamIsDivision(a: nat, count: nat)
    ensures var q := a / Pow2(count);
            Jam(a, count) == if a % Pow2(count) != 0 && q % 2 == 0 then q + 1 else q
  {
    ShrIsDivision(a, count);
    OrBit(Shr(a, count), Bit(Low(a, count) != 0));
  }

  /** Jamming by i and then by j is jamming by i + j: no sticky information is lost on the way. */
  lemma JamCompose(a: nat, i: nat, j: nat)
    ensures Jam(Jam(a, i), j) == Jam(a, i + j)
  {
    var x, b := Shr(a, i), Bit(Low(a, i) != 0);
    OrBit(x, b);
    ShrAdd(a, i, j);
    ShlOrder(Low(x, j), i);
    if j == 0 {
      OrBit(Jam(a, i), 0);
    } else {
      assert Jam(a, i) / 2 == x / 2;
    }
  }

  /** A left shift of a word; bits leaving at the top are lost. */
  function ShiftLeft(a: word64, count: nat): (z: word64)
    requires count <= 64
    ensures z == 0 <==> Low(a, 64 - count) == 0
  {
    LowFits(a, 64 - count);
    ShlOrder(Low(a, 64 - count), count);
    Shl(Low(a, 64 - count), count)
  }

  /** The low bits of a word, moved to its top, leave exactly the vacated bits free. */
  lemma LowFits(a: nat, k: nat)
    requires k <= 64
    ensures Shl(Low(a, k), 64 - k) + Shl(1, 64 - k) <= B64 && Shl(1, 64 - k) > 0
  {
    ShrLow(a, k);
    ShlOrder(Low(a, k), 64 - k);
    ShlOrder(1, 64 - k);
    ShlAdd(1, k, 64 - k);
    ShlWords(0);
  }

  /** As a product, a left shift is taken modulo 2^64. */
  lemma ShiftLeftWraps(a: word64, count: nat)
    requires count <= 64
    ensures ShiftLeft(a, count) == a * Pow2(count) % B64
  {
    var k := 64 - count;
    ShrLow(a, k);
    ShlPlus(Shl(Shr(a, k), k), Low(a, k), count);
    ShlAdd(Shr(a, k), k, count);
    ShlWords(Shr(a, k));
    ShlIsProduct(a, count);
    DivModUnique(a * Pow2(count), B64, Shr(a, k), ShiftLeft(a, count));
  }

  lemma WordIsLow(a: word64)
    ensures Low(a, 64) == a && ShiftLeft(a, 0) == a
  {
    ShlWords(0);
    ShrAll(a, 64);
  }

  method Shift64RightJamming(a: word64, count: nat) returns (z: word64)
    ensures z == Jam(a, count)
  {
    ShrWithin(a, count);
    if count == 0 {
      z := a;
    } else if count < 64 {
      z := OrSticky(Shr(a, count), ShiftLeft(a, 64 - count) != 0);
    } else {
      AllLost(a, count);
      z := Bit(a != 0);
    }
  }

  function OrSticky(x: word64, sticky: bool): (z: word64)
    ensures z == Or(x, Bit(sticky))
    ensures z == if sticky && x % 2 == 0 then x + 1 else x
  {
    OrBit(x, Bit(sticky));
    Or(x, Bit(sticky))
  }

  lemma AllLost(a: word64, count: nat)
    requires count >= 64
    ensures Shr(a, count) == 0 && Low(a, count) == a
  {
    ShlWords(0);
    ShlAdd(1, 64, count - 64);
    ShlOrder(B64, count - 64);
    ShrAll(a, count);
  }

  // ----- Two words -----

  function OrWord(x: word64, y: word64): (z: word64)
    ensures z == Or(x, y)
  {
    OrWords(x, y);
    Or(x, y)
  }

  const WORD_BITS: nat := 64

  /** The concatenation of a number and a word. */
  function Cat(hi: nat, lo: nat): nat {
    Shl(hi, WORD_BITS) + lo
  }

  lemma CatIsVal2(hi: nat, lo: nat)
    ensures Cat(hi, lo) == Val2(hi, lo)
  {
    ShlWords(hi);
  }

  /** Shifting two words right by less than a word, word by word. */
  lemma ShrTwoWords(a0: word64, a1: word64, count: nat)
    requires 0 < count < 64
    ensures Shr(a0, count) < B64 && Shr(a1, count) < B64
    ensures Cat(Shr(a0, count), OrWord(ShiftLeft(a0, 64 - count), Shr(a1, count))) == Shr(Cat(a0, a1), count)
    ensures Low(Cat(a0, a1), count) == Low(a1, count)
  {
    var q, l, k := Shr(a0, count), Low(a0, count), 64 - count;
    ShlWords(0);
    ShrConcat(a0, a1, 64, count);
    ShrBelow(a1, 64, count);
    ShrWithin(a0, count);
    ShrWithin(a1, count);
    OrDisjoint(l, Shr(a1, count), k);
    ShrLow(a0, count);
    ShlPlus(Shl(q, count), l, k);
    ShlAdd(q, count, k);
  }

  /** Shifting by at least one word only moves what is above the lowest word. */
  lemma UpperPart(hi: nat, lo: word64, k: nat)
    requires k >= 64
    ensures Shr(Cat(hi, lo), k) == Shr(hi, k - 64)
    ensures Low(Cat(hi, lo), k) == Cat(Low(hi, k - 64), lo)
  {
    ShlWords(0);
    ShrConcat(hi, lo, 64, 64);
    ShrAll(lo, 64);
    ShrAdd(Cat(hi, lo), 64, k - 64);
  }

  lemma CatIsZero(hi: nat, lo: nat)
    ensures Cat(hi, lo) == 0 <==> hi == 0 && lo == 0
  {
    ShlOrder(hi, 64);
  }

  /** A sticky bit reaches only the low word of a concatenation. */
  lemma OrStickyCat(hi: nat, lo: word64, sticky: bool)
    ensures Or(Cat(hi, lo), Bit(sticky)) == Cat(hi, OrSticky(lo, sticky))
  {
    OrBit(Cat(hi, lo), Bit(sticky));
    ShlParity(hi, WORD_BITS, lo);
  }

  method Shift128RightJamming(a0: word64, a1: word64, count: nat) returns (z0: word64, z1: word64)
    ensures Val2(z0, z1) == Jam(Val2(a0, a1), count)
  {
    CatIsVal2(a0, a1);
    if count == 0 {
      z1 := a1;
      z0 := a0;
    } else if count < 64 {
      ShrTwoWords(a0, a1, count);
      var shifted := OrWord(ShiftLeft(a0, 64 - count), Shr(a1, count));
      OrStickyCat(Shr(a0, count), shifted, ShiftLeft(a1, 64 - count) != 0);
      z1 := OrSticky(shifted, ShiftLeft(a1, 64 - count) != 0);
      z0 := Shr(a0, count);
    } else {
      z1 := JamUpperWord(a0, a1, count);
      CatOfZero(z1);
      z0 := 0;
    }
    CatIsVal2(z0, z1);
  }

  /** Counts from 64 on, where only the upper word survives. */
  method JamUpperWord(a0: word64, a1: word64, count: nat) returns (z1: word64)
    requires count >= 64
    ensures z1 == Jam(Cat(a0, a1), count)
  {
    JamOfCat(a0, a1, count);
    if count == 64 {
      z1 := OrSticky(a0, a1 != 0);
    } else if count < 128 {
      ShrWithin(a0, count - 64);
      OrIsZero(ShiftLeft(a0, 128 - count), a1);
      z1 := OrSticky(Shr(a0, count - 64), Or(ShiftLeft(a0, 128 - count), a1) != 0);
    } else {
      AllLost(a0, count - 64);
      OrIsZero(a0, a1);
      z1 := Bit(Or(a0, a1) != 0);
    }
  }

  lemma JamOfCat(a0: word64, a1: word64, count: nat)
    requires count >= 64
    ensures Jam(Cat(a0, a1), count) == Or(Shr(a0, count - 64), Bit(Low(a0, count - 64) != 0 || a1 != 0))
  {
    UpperPart(a0, a1, count);
    CatIsZero(Low(a0, count - 64), a1);
  }

  lemma CatOfZero(x: nat)
    ensures Cat(0, x) == x
  {
    ShlOrder(0, 64);
  }

  /** The plain shift loses the upper word for every count from 64 on, so it is a right shift
      exactly when the count is below 64 or that word would have been shifted out anyway. */
  method Shift128Right(a0: word64, a1: word64, count: nat) returns (z0: word64, z1: word64)
    ensures count < 64 ==> Val2(z0, z1) == Shr(Val2(a0, a1), count)
    ensures count >= 64 ==> Val2(z0, z1) == 0
    ensures count >= 64 ==> (Val2(z0, z1) == Shr(Val2(a0, a1), count) <==> Shr(a0, count - 64) == 0)
  {
    CatIsVal2(a0, a1);
    if count == 0 {
      z1 := a1;
      z0 := a0;
    } else if count < 64 {
      ShrTwoWords(a0, a1, count);
      z1 := OrWord(ShiftLeft(a0, 64 - count), Shr(a1, count));
      z0 := Shr(a0, count);
    } else {
      UpperWordLost(a0, a1, count);
      z1 := 0;
      z0 := 0;
    }
    CatIsVal2(z0, z1);
  }

  /** For example, 2^64 shifted right by 64 should be 1. */
  method LosesUpperWord() returns (z0: word64, z1: word64)
    ensures Val2(z0, z1) == 0 && Shr(Val2(1, 0), 64) == 1
  {
    z0, z1 := Shift128Right(1, 0, 64);
    CatIsVal2(1, 0);
    UpperPart(1, 0, 64);
  }

  lemma UpperWordLost(a0: word64, a1: word64, count: nat)
    requires count >= 64
    ensures Cat(0, 0) == Shr(Cat(a0, a1), count) <==> Shr(a0, count - 64) == 0
  {
    UpperPart(a0, a1, count);
    CatOfZero(0);
  }

  // ----- Three words -----

  const HALF := 0x8000_0000_0000_0000

  /** The 63 bits of a word below its top bit. */
  function OtherBits(z: word64): nat {
    if z >= HALF then z - HALF else z
  }

  /** The extra word of a shift: its top bit is the last bit shifted off, and its other
      bits say whether any bit before that was lost. */
  predicate ExtraWord(z: word64, last: nat, before: nat) {
    && (z >= HALF <==> last == 1)
    && (OtherBits(z) == 0 <==> before == 0)
  }

  /** Where the extra word comes from: a word shifted left by 64 - count has, on top, the last bit
      that a right shift by count loses, and below it the bits lost earlier. */
  lemma ExtraFromWord(a: word64, count: nat)
    requires 1 <= count <= 64
    ensures ExtraWord(ShiftLeft(a, 64 - count), Shr(a, count - 1) % 2, Low(a, count - 1))
  {
    var last, before, k := Shr(a, count - 1) % 2, Low(a, count - 1), 64 - count;
    ShrAdd(a, count - 1, 1);
    assert Low(a, count) == Shl(last, count - 1) + before;
    ShrLow(a, count - 1);
    ShlPlus(Shl(last, count - 1), before, k);
    ExtraParts(last, before, count - 1, k);
  }

  lemma ExtraParts(last: nat, before: nat, i: nat, k: nat)
    requires last < 2 && i + k == 63 && before < Shl(1, i)
    ensures Shl(Shl(last, i), k) + Shl(before, k) < B64
    ensures ExtraWord(Shl(Shl(last, i), k) + Shl(before, k), last, before)
  {
    ShlAdd(last, i, k);
    ShlAdd(1, i, k);
    ShlWords(0);
    ShlOrder(0, 63);
    ShlOrder(1, k);
    ShlOrder(before, k);
    assert Shl(before, k) + Shl(1, k) <= Shl(Shl(1, i), k);
  }

  /** The lowest word alone decides the bits below position 64. */
  lemma LowestWord(hi: nat, lo: word64, k: nat)
    requires k < 64
    ensures Shr(Cat(hi, lo), k) % 2 == Shr(lo, k) % 2
    ensures Low(Cat(hi, lo), k) == Low(lo, k)
  {
    ShlWords(0);
    ShrConcat(hi, lo, 64, k);
    ShlParity(hi, 64 - k, Shr(lo, k));
  }

  /** The shift by 64 + count of two words, with the lost bits summed up in the extra word. */
  method Shift64ExtraRightJamming(a0: word64, a1: word64, count: nat) returns (z0: word64, z1: word64)
    ensures z0 == Shr(Cat(a0, a1), 64 + count)
    ensures ExtraWord(z1, Shr(Cat(a0, a1), 63 + count) % 2, Low(Cat(a0, a1), 63 + count))
  {
    UpperPart(a0, a1, 64 + count);
    ShrWithin(a0, count);
    if count == 0 {
      LowestWord(a0, a1, 63);
      ExtraFromWord(a1, 64);
      WordIsLow(a1);
      z1 := a1;
      z0 := a0;
    } else {
      UpperPart(a0, a1, 63 + count);
      CatIsZero(Low(a0, count - 1), a1);
      z1 := ExtraOfUpper(a0, a1, count);
      if count >= 64 { AllLost(a0, count); }
      z0 := if count < 64 then Shr(a0, count) else 0;
    }
  }

  lemma StickyParts(x: word64, sticky: bool)
    ensures OrSticky(x, sticky) >= HALF <==> x >= HALF
    ensures OtherBits(OrSticky(x, sticky)) == 0 <==> OtherBits(x) == 0 && !sticky
  {
  }

  method ExtraOfUpper(a0: word64, a1: word64, count: nat) returns (z1: word64)
    requires count > 0
    ensures z1 >= HALF <==> Shr(a0, count - 1) % 2 == 1
    ensures OtherBits(z1) == 0 <==> Low(a0, count - 1) == 0 && a1 == 0
  {
    if count <= 64 {
      ExtraFromWord(a0, count);
      StickyParts(ShiftLeft(a0, 64 - count), a1 != 0);
      z1 := OrSticky(ShiftLeft(a0, 64 - count), a1 != 0);
    } else {
      AllLost(a0, count - 1);
      OrIsZero(a0, a1);
      z1 := Bit(Or(a0, a1) != 0);
    }
  }

  /** The shift by 64 + count of three words, with the lost bits summed up in the extra word. */
  method Shift128ExtraRightJamming(a0: word64, a1: word64, a2: word64, count: nat)
    returns (z0: word64, z1: word64, z2: word64)
    ensures Cat(z0, z1) == Shr(Cat(Cat(a0, a1), a2), 64 + count)
    ensures ExtraWord(z2, Shr(Cat(Cat(a0, a1), a2), 63 + count) % 2, Low(Cat(Cat(a0, a1), a2), 63 + count))
  {
    ghost var a := Cat(a0, a1);
    UpperPart(a, a2, 64 + count);
    if count == 0 {
      LowestWord(a, a2, 63);
      ExtraFromWord(a2, 64);
      WordIsLow(a2);
      z2 := a2;
      z1 := a1;
      z0 := a0;
    } else {
      UpperPart(a, a2, 63 + count);
      CatIsZero(Low(a, count - 1), a2);
      z0, z1, z2 := ShiftPair(a0, a1, count);
      var lost := if count <= 64 then a2 else OrWord(a2, a1);
      OrIsZero(a2, a1);
      z2 := OrSticky(z2, lost != 0);
    }
  }

  /** What a shift by a nonzero count leaves of two words, and the extra word before the sticky bit,
      which accounts for the bits of one word only. */
  method ShiftPair(a0: word64, a1: word64, count: nat) returns (z0: word64, z1: word64, z2: word64)
    requires count > 0
    ensures Cat(z0, z1) == Shr(Cat(a0, a1), count)
    ensures z2 >= HALF <==> Shr(Cat(a0, a1), count - 1) % 2 == 1
    ensures Low(Cat(a0, a1), count - 1) == 0 <==> OtherBits(z2) == 0 && (count > 64 ==> a1 == 0)
  {
    if count < 64 {
      ExtraFromWord(a1, count);
      LowestWord(a0, a1, count - 1);
      ShrTwoWords(a0, a1, count);
      z2 := ShiftLeft(a1, 64 - count);
      z1 := OrWord(ShiftLeft(a0, 64 - count), Shr(a1, count));
      z0 := Shr(a0, count);
    } else if count == 64 {
      UpperPart(a0, a1, 64);
      ExtraFromWord(a1, 64);
      WordIsLow(a1);
      LowestWord(a0, a1, 63);
      CatOfZero(a0);
      z2 := a1;
      z1 := a0;
      z0 := 0;
    } else {
      UpperPart(a0, a1, count - 1);
      CatIsZero(Low(a0, count - 65), a1);
      z1, z2 := ShiftUpper(a0, a1, count);
      CatOfZero(z1);
      z0 := 0;
    }
  }

  /** Counts above 64, where only the upper word survives. */
  method ShiftUpper(a0: word64, ghost a1: word64, count: nat) returns (z1: word64, z2: word64)
    requires count > 64
    ensures z1 == Shr(Cat(a0, a1), count)
    ensures ExtraWord(z2, Shr(a0, count - 65) % 2, Low(a0, count - 65))
  {
    UpperPart(a0, a1, count);
    if count < 128 {
      ExtraFromWord(a0, count - 64);
      ShrWithin(a0, count - 64);
      z2 := ShiftLeft(a0, 128 - count);
      z1 := Shr(a0, count - 64);
    } else {
      AllLost(a0, count - 64);
      if count == 128 {
        ExtraFromWord(a0, 64);
        WordIsLow(a0);
      } else {
        AllLost(a0, count - 65);
      }
      z2 := if count == 128 then a0 else Bit(a0 != 0);
      z1 := 0;
    }
  }
}
