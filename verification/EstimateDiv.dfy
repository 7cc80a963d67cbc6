/** The two-digit division estimator of fpu/softfloat-macros.h.

    The quotient of a two-word number by a normalised word is estimated digit by digit
    in base 2^32.  Both digits use the same guess from the leading words, which is never
    too small and at most two too large; only the first digit is then corrected. */
module EstimateDiv {
  import opened Words
  import opened MultiWord

  /** The guess for one base-2^32 digit of r / b, from u = r / 2^32 and the high half of b. */
  function Guess(u: word64, b: word64): (g: word32)
    requires b >= B64 / 2
    ensures g * (b / B32) <= u && (g == B32 - 1 || u < (g + 1) * (b / B32))
  {
    var b0 := b / B32;
    QuotientBounds(u, b0);
    if b0 * B32 <= u then
      MulBound(B32 - 1, b0, B32, b0);
      B32 - 1
    else
      BelowFactor(u / b0, b0, B32);
      u / b0
  }

  /** A guessed digit is at least the true digit and exceeds it by at most two. */
  lemma GuessBounds(r: nat, b: word64)
    requires b >= B64 / 2 && r < b * B32
    ensures 0 <= r / B32 < B64 && r / b <= Guess(r / B32, b) <= r / b + 2
  {
    assert r / B32 < B64;
    var g := Guess(r / B32, b);
    QuotientBounds(r, b);
    if g == B32 - 1 {
      BelowFactor(r / b, b, B32);
    } else {
      GuessNotBelow(r, b, b / B32, b % B32, r / B32, g, r / b);
    }
    GuessNotFarAbove(r, b, b / B32, b % B32, r / B32, g, r / b);
  }

  lemma GuessNotBelow(r: nat, b: nat, b0: nat, bLow: nat, u: int, g: int, q: int)
    requires g >= 0 && b > 0 && b == b0 * B32 + bLow && q * b <= r < (u + 1) * B32 && u < (g + 1) * b0
    ensures q <= g
  {
    assert (u + 1) * B32 <= (g + 1) * b0 * B32;
    assert (g + 1) * b == (g + 1) * b0 * B32 + (g + 1) * bLow;
    MulBound(g + 1, bLow, g + 1, bLow);
    BelowFactor(q, b, g + 1);
  }

  lemma GuessNotFarAbove(r: nat, b: nat, b0: nat, bLow: word32, u: nat, g: word32, q: int)
    requires b == b0 * B32 + bLow && b >= B64 / 2 && u * B32 <= r < (q + 1) * b && g * b0 <= u
    ensures g <= q + 2
  {
    assert g * b == g * b0 * B32 + g * bLow;
    MulBound(g, bLow, B32 - 1, B32 - 1);
    assert (q + 3) * b == (q + 1) * b + 2 * b;
    BelowFactor(g, b, q + 3);
  }

  /** What is left after subtracting the guessed high digit is negative exactly if the guess is too large. */
  lemma HighRemainder(a: nat, b: word64, digit: int)
    requires b > 0 && 0 <= a / B32 / b <= digit <= a / B32 / b + 2
    ensures var rem := a - b * (digit * B32);
            && -2 * b * B32 <= rem < b * B32
            && (rem >= 0 <==> digit == a / B32 / b)
            && a - b * ((digit - 1) * B32) == rem + b * B32
            && (rem >= 0 ==> rem % B128 == rem)
            && (rem < 0 ==> rem % B128 == rem + B128)
  {
    QuotientBounds(a / B32, b);
    HighRemainderOf(a, b, b * B32, digit, a / B32 / b);
    assert b * B32 < B128 / 4;
  }

  lemma HighRemainderOf(a: nat, b: nat, m: nat, digit: int, q0: int)
    requires m == b * B32 > 0 && 0 <= q0 <= digit <= q0 + 2
    requires q0 * b <= a / B32 < (q0 + 1) * b
    ensures var rem := a - b * (digit * B32);
            && -2 * m <= rem < m
            && (rem >= 0 <==> digit == q0)
            && a - b * ((digit - 1) * B32) == rem + m
  {
    assert q0 * m == q0 * b * B32 && (q0 + 1) * m == (q0 + 1) * b * B32;
    assert q0 * m <= a < (q0 + 1) * m == q0 * m + m;
    assert b * (digit * B32) == digit * m && b * ((digit - 1) * B32) == (digit - 1) * m;
    assert (digit - 1) * m == digit * m - m;
    assert digit * m == q0 * m + (digit - q0) * m;
  }

  /** The quotient is its exact high digit followed by the quotient of the remainder. */
  lemma QuotientSplit(a: nat, b: nat, q0: int, rem: nat)
    requires b > 0 && q0 >= 0 && rem == a - b * (q0 * B32) && rem < b * B32
    ensures a / b == q0 * B32 + rem / b && rem / b < B32
    ensures a / b / B32 == q0
  {
    QuotientBounds(rem, b);
    BelowFactor(rem / b, b, B32);
    assert a == (q0 * B32 + rem / b) * b + rem % b;
    DivModUnique(a, b, q0 * B32 + rem / b, rem % b);
  }

  /** Shifting a remainder below 2^96 right by 32 bits loses nothing at the top. */
  lemma OrDisjointWords(rem0: word32, rem1: word64)
    ensures rem0 * B32 < B64
    ensures Or(rem0 * B32 % B64, rem1 / B32) == Val2(rem0, rem1) / B32
  {
    OrHalves(rem0, rem1 / B32);
  }

  /** The correction loop: while the remainder is negative, the high digit is lowered by one. */
  method CorrectHighDigit(guess: word32, r0: word64, r1: word64, b: word64, ghost a: nat)
    returns (z: word64, rem0: word64, rem1: word64, ghost rounds: nat)
    requires b >= B64 / 2 && 0 <= a / B32 / b <= guess <= a / B32 / b + 2
    requires Val2(r0, r1) == (a - b * (guess * B32)) % B128
    ensures z == a / B32 / b * B32
    ensures Val2(rem0, rem1) == a - b * z < b * B32
    ensures rounds <= 2
  {
    z, rem0, rem1 := guess * B32, r0, r1;
    rounds := 0;
    ghost var q0 := a / B32 / b;
    ghost var digit: int := guess;
    HighRemainder(a, b, digit);
    while rem0 >= B64 / 2
      invariant 0 <= q0 <= digit && digit + rounds == guess && z == digit * B32
      invariant Val2(rem0, rem1) == (a - b * (digit * B32)) % B128
      decreases digit
    {
      HighRemainder(a, b, digit);
      ghost var before := Val2(rem0, rem1);
      z := z - 0x1_0000_0000;
      var b0: word64, b1: word64 := b / B32, b * B32 % B64;
      DivModUnique(b * B32, B64, b0, b % B32 * B32);
      rem0, rem1 := Add128(rem0, rem1, b0, b1);
      digit := digit - 1;
      rounds := rounds + 1;
      HighRemainder(a, b, digit);
    }
    HighRemainder(a, b, digit);
  }

  /** The estimate lies between the true quotient and that quotient plus two; its high digit is
      exact, and the correction loop runs at most twice. */
  method EstimateDiv128To64(a0: word64, a1: word64, b: word64) returns (z: word64, ghost rounds: nat)
    requires b >= B64 / 2
    ensures a0 < b ==> Val2(a0, a1) / b <= z <= Val2(a0, a1) / b + 2
    ensures a0 < b ==> z / B32 == Val2(a0, a1) / b / B32
    ensures b <= a0 ==> z == B64 - 1 && Val2(a0, a1) / b >= B64
    ensures rounds <= 2
  {
    rounds := 0;
    ghost var a := Val2(a0, a1);
    if b <= a0 {
      QuotientBounds(a, b);
      BelowFactor(B64, b, a / b + 1);
      return B64 - 1, 0;
    }
    var high := HighGuess(a0, a1, b);
    var term0, term1 := Mul64To128(b, high * B32);
    var rem0, rem1 := Sub128(a0, a1, term0, term1);
    z, rem0, rem1, rounds := CorrectHighDigit(high, rem0, rem1, b, a);
    z := AppendLowDigit(z, rem0, rem1, b, a);
  }

  method HighGuess(a0: word64, a1: word64, b: word64) returns (high: word32)
    requires b >= B64 / 2 && a0 < b
    ensures 0 <= Val2(a0, a1) / B32 / b <= high <= Val2(a0, a1) / B32 / b + 2
  {
    var b0 := b / B32;
    ghost var r := Val2(a0, a1) / B32;
    assert r / B32 == a0 && r < b * B32;
    GuessBounds(r, b);
    QuotientBounds(r, b);
    high := Guess(a0, b);
  }

  method AppendLowDigit(high: word64, rem0: word64, rem1: word64, b: word64, ghost a: nat) returns (z: word64)
    requires b >= B64 / 2 && 0 <= a / B32 / b < B32 && high == a / B32 / b * B32
    requires Val2(rem0, rem1) == a - b * high < b * B32
    ensures a / b <= z <= a / b + 2
    ensures z / B32 == a / b / B32
  {
    ghost var rem: nat := Val2(rem0, rem1);
    QuotientSplit(a, b, a / B32 / b, rem);
    GuessBounds(rem, b);
    OrDisjointWords(rem0, rem1);
    var u := Or(rem0 * B32 % B64, rem1 / B32);
    var low := Guess(u, b);
    OrHalves(a / B32 / b, low);
    z := Or(high, low);
  }
}
