/** Counting the zero bits above the most significant one (fpu/softfloat-macros.h). */
module LeadingZeros {
  import opened Words

  /** The number of binary digits of a number. */
  function Digits(a: nat): nat {
    if a == 0 then 0 else 1 + Digits(a / 2)
  }

  /** A number with n digits lies between two powers of two, and conversely. */
  lemma {:induction false} DigitsIff(a: nat, n: nat)
    ensures Digits(a) == n <==> a < Pow2(n) && (n > 0 ==> Pow2(n - 1) <= a)
    decreases a
  {
    if a > 0 && n > 0 { DigitsIff(a / 2, n - 1); }
  }

  lemma {:induction false} DigitsShifted(a: nat, k: nat)
    requires a > 0
    ensures Digits(Shl(a, k)) == Digits(a) + k
  {
    if k > 0 {
      DigitsShifted(a, k - 1);
      ShlOrder(a, k - 1);
      DigitsDoubled(Shl(a, k - 1));
    }
  }

  lemma DigitsDoubled(a: nat)
    requires a > 0
    ensures Digits(2 * a) == Digits(a) + 1
  {
    assert 2 * a / 2 == a;
  }

  lemma {:induction false} DigitsAbove(a: nat, k: nat)
    ensures Digits(Shr(a, k)) == if Digits(a) > k then Digits(a) - k else 0
    decreases k
  {
    if k > 0 { DigitsAbove(a / 2, k - 1); }
  }

  /** A number has at most n digits if it lies below the n-th power of two. */
  lemma {:induction false} DigitsAtMost(a: nat, n: nat)
    ensures Digits(a) <= n <==> a < Pow2(n)
    decreases a
  {
    if a > 0 && n > 0 { DigitsAtMost(a / 2, n - 1); }
  }

  lemma Powers(n: nat)
    ensures n == 8 ==> Pow2(n) == 0x100
    ensures n == 16 ==> Pow2(n) == 0x1_0000
    ensures n == 24 ==> Pow2(n) == 0x100_0000
  {
    assert Pow2(8) == 0x100;
    Pow2Add(8, 8);
    Pow2Add(8, 16);
  }

  /** Moving up a number of n fewer than 32 digits. */
  lemma MoveUp(a: nat, n: nat)
    requires Digits(a) + n <= 32
    ensures a * Pow2(n) < B32 && (a > 0 ==> Digits(a * Pow2(n)) == Digits(a) + n)
  {
    ShlIsProduct(a, n);
    if a > 0 { DigitsShifted(a, n); }
    DigitsAtMost(a * Pow2(n), 32);
    Pow2Values();
  }

  /** What remains of a number without its n lowest digits. */
  lemma UpperDigits(a: nat, n: nat, q: nat)
    requires q == a / Pow2(n)
    ensures Digits(q) == if Digits(a) > n then Digits(a) - n else 0
  {
    ShrIsDivision(a, n);
    DigitsAbove(a, n);
  }

  /** The table of leading zeros of a byte. */
  function HighTable(i: nat): (n: nat)
    requires i < 0x100
    ensures n == 8 - Digits(i)
  {
    if i == 0 then 8
    else if i < 2 then 7
    else if i < 4 then 6
    else if i < 8 then 5
    else if i < 16 then 4
    else if i < 32 then 3
    else if i < 64 then 2
    else if i < 128 then 1
    else 0
  }

  /** The number of digits that are missing to 32. */
  method CountLeadingZeros32(a0: word32) returns (shiftCount: nat)
    ensures shiftCount == 32 - Digits(a0)
  {
    var a: nat := a0;
    shiftCount := 0;
    Pow2Values();
    DigitsAtMost(a, 32);
    a, shiftCount := MoveIfBelow(a, shiftCount, 16);
    a, shiftCount := MoveIfBelow(a, shiftCount, 8);
    var high := HighByte(a);
    shiftCount := shiftCount + HighTable(high);
  }

  /** Moves a word up by n bits, unless one of its n upper bits is set. */
  method MoveIfBelow(a0: word32, shiftCount0: nat, n: nat) returns (a: word32, shiftCount: nat)
    requires n == 8 || n == 16
    ensures if Digits(a0) <= 32 - n then a0 > 0 ==> Digits(a) == Digits(a0) + n else a == a0
    ensures shiftCount == shiftCount0 + if Digits(a0) <= 32 - n then n else 0
    ensures a0 == 0 ==> a == 0
  {
    a, shiftCount := a0, shiftCount0;
    Powers(n);
    Powers(32 - n);
    DigitsAtMost(a, 32 - n);
    if a < (if n == 16 then 0x1_0000 else 0x100_0000) {
      MoveUp(a, n);
      shiftCount := shiftCount + n;
      a := a * if n == 16 then 0x1_0000 else 0x100;
    }
  }

  method HighByte(a: word32) returns (r: nat)
    ensures r < 0x100 && Digits(r) == if Digits(a) > 24 then Digits(a) - 24 else 0
  {
    Powers(24);
    Pow2Values();
    r := a / 0x100_0000;
    UpperDigits(a, 24, r);
  }

  /** The number of digits that are missing to 64. */
  method CountLeadingZeros64(a0: word64) returns (shiftCount: nat)
    ensures shiftCount == 64 - Digits(a0)
  {
    var a: nat := a0;
    shiftCount := 0;
    Pow2Values();
    DigitsAtMost(a, 32);
    if a < B32 {
      shiftCount := shiftCount + 32;
    } else {
      a := a / B32;
      UpperDigits(a0, 32, a);
    }
    var n := CountLeadingZeros32(a);
    shiftCount := shiftCount + n;
  }
}
