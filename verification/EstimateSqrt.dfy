/** The table-plus-Newton square-root estimator of fpu/softfloat-macros.h. */
module EstimateSqrt {
  import opened Words

  const ODD_ADJUSTMENTS: seq<nat> := [
    0x0004, 0x0022, 0x005D, 0x00B1, 0x011D, 0x019F, 0x0236, 0x02E0,
    0x039C, 0x0468, 0x0545, 0x0631, 0x072B, 0x0832, 0x0946, 0x0A67]

  const EVEN_ADJUSTMENTS: seq<nat> := [
    0x0A2D, 0x08AF, 0x075A, 0x0629, 0x051A, 0x0429, 0x0356, 0x029E,
    0x0200, 0x0179, 0x0109, 0x00AF, 0x0068, 0x0034, 0x0012, 0x0002]

  /** The number whose square root is estimated: odd exponents scale by 2^31, even ones by 2^32. */
  function Radicand(aExp: int, a: word32): nat {
    if aExp % 2 == 1 then a * 0x8000_0000 else a * B32
  }

  /** r lies strictly within 2 of the square root of n. */
  predicate NearRoot(r: int, n: int) {
    r >= 2 && (r - 2) * (r - 2) < n < (r + 2) * (r + 2)
  }

  /** For a square that is: within 2 of its root. */
  lemma NearRootOfSquare(r: nat, s: nat)
    ensures NearRoot(r, s * s) <==> r >= 2 && s - 2 < r < s + 2
  {
    if r >= 2 {
      SquareOrder(r - 2, s);
      SquareOrder(s, r + 2);
    }
  }

  lemma SquareOrder(a: nat, b: nat)
    ensures a * a < b * b <==> a < b
  {
  }

  // ----- One Newton step -----

  /** The arithmetic mean of z and n / z is never below the root of n. */
  lemma NewtonFromAbove(n: int, z: int, s: int)
    requires n >= 0 && z > 0 && s > 0 && 2 * (z * s) > n + z * z
    ensures n < s * s
  {
    SquareMonotone(n + z * z, 2 * (z * s));
    SumAndDifference(n, z * z);
    SquareOfProduct(z, s);
    assert (n - z * z) * (n - z * z) >= 0;
    BelowFactor(n, 4 * (z * z), s * s);
  }

  /** A Newton step from a good enough z is below the root of n after subtracting 2. */
  lemma NewtonFromBelow(n: int, z: int, r: int)
    requires n >= 0 && z > 0 && r >= 2 && 2 * (z * r) <= n + z * z
    requires (n - z * z) * (n - z * z) < 8 * (z * (n + z * z - 2 * z))
    ensures (r - 2) * (r - 2) < n
  {
    var m := n + z * z;
    var t, w := 2 * (z * (r - 2)), m - 4 * z;
    assert z * (r - 2) == z * r - 2 * z;
    assert 0 <= t <= w by { MulBound(z, 0, z, r - 2); }
    if t < w { SquareMonotone(t, w); }
    SquareOfProduct(z, r - 2);
    SquareOfReduced(m, z);
    SumAndDifference(n, z * z);
    BelowFactor((r - 2) * (r - 2), 4 * (z * z), n);
  }

  lemma SumAndDifference(x: int, y: int)
    ensures (x + y) * (x + y) == (x - y) * (x - y) + x * (4 * y)
  {
  }

  lemma SquareOfProduct(x: int, y: int)
    ensures (2 * (x * y)) * (2 * (x * y)) == (y * y) * (4 * (x * x))
  {
  }

  lemma SquareOfReduced(m: int, z: int)
    ensures (m - 4 * z) * (m - 4 * z) == m * m - 8 * (z * (m - 2 * z))
  {
  }

  lemma SquareMonotone(x: int, y: int)
    requires 0 <= x < y
    ensures x * x < y * y
  {
    assert x * x <= x * y < y * y;
  }

  /** The common last step: both truncations together cost less than two units. */
  lemma LastStep(n: int, d: int, z: int)
    requires 0x8000_0000 <= z < B32 && 0 <= d && 2 * d <= n <= 2 * d + 0x8000_0000
    requires n >= 0x4000_0000_0000_0000
    requires -0x1_0000_0000_0000 <= n - z * z <= 0x1_0000_0000_0000
    ensures NearRoot(d / z + z / 2, n)
  {
    var q, r := d / z, d / z + z / 2;
    assert q * z <= d < (q + 1) * z && q >= 0 by { QuotientBounds(d, z); }
    LastStepBounds(n, d, z, q, z / 2);
    NewtonFromAbove(n, z, r + 2);
    LastStepError(n, z);
    NewtonFromBelow(n, z, r);
  }

  /** The second guess is good enough for the Newton step to end within 2 below the root. */
  lemma LastStepError(n: int, z: int)
    requires 0x8000_0000 <= z < B32 && n >= 0x4000_0000_0000_0000
    requires -0x1_0000_0000_0000 <= n - z * z <= 0x1_0000_0000_0000
    ensures (n - z * z) * (n - z * z) < 8 * (z * (n + z * z - 2 * z))
  {
    SquareBound(n - z * z, 0x1_0000_0000_0000);
    assert z * z - 2 * z >= 0x3FFF_FFFF_0000_0000 by {
      assert z * z - 2 * z == z * (z - 2);
      MulBound(0x8000_0000, 0x7FFF_FFFE, z, z - 2);
    }
    MulBound(0x8000_0000, 0x7FFF_FFFF_0000_0000, z, n + z * z - 2 * z);
  }

  lemma LastStepBounds(n: int, d: int, z: int, q: int, h: int)
    requires z >= 0x8000_0000 && 2 * d <= n <= 2 * d + 0x8000_0000
    requires q * z <= d < (q + 1) * z && 2 * h <= z <= 2 * h + 1
    ensures 2 * (z * (q + h)) <= n + z * z < 2 * (z * (q + h + 2))
  {
    assert 2 * (z * (q + h)) == 2 * (q * z) + z * (2 * h);
    assert 2 * (z * (q + h + 2)) == 2 * (q * z) + z * (2 * h) + 4 * z;
    assert z * (2 * h) <= z * z <= z * (2 * h) + z by {
      assert z * (2 * h + 1) == z * (2 * h) + z;
      MulBound(z, 2 * h, z, z);
      MulBound(z, z, z, 2 * h + 1);
    }
    assert (q + 1) * z == q * z + z;
  }

  lemma SquareBound(e: int, m: int)
    requires -m <= e <= m
    ensures e * e <= m * m
  {
    if e >= 0 { MulBound(e, e, m, m); } else { MulBound(-e, -e, m, m); }
  }

  // ----- The table: how far the linear first guess is from the root -----

  /** Over an interval a square lies between its chord and the tangent at the middle. */
  lemma ChordAndTangent(h: int, lo: int, hi: int)
    requires lo <= h <= hi
    ensures h * h <= (lo + hi) * h - lo * hi
    ensures 4 * (h * h) >= 4 * ((lo + hi) * h) - (lo + hi) * (lo + hi)
  {
    assert (h - lo) * (hi - h) >= 0;
    var e := 2 * h - (lo + hi);
    assert e * e >= 0;
  }

  const ODD_ERROR := 28_000_000
  const EVEN_ERROR := 20_000_000

  /** For odd exponents the first guess approximates the root of a / 2. */
  function OddGuess(a: word32): int {
    0x4000 + a / 0x20000 - ODD_ADJUSTMENTS[a / 0x800_0000 % 16]
  }

  /** For even exponents the first guess approximates the root of a. */
  function EvenGuess(a: word32): int {
    0x8000 + a / 0x20000 - EVEN_ADJUSTMENTS[a / 0x800_0000 % 16]
  }

  /** Each of the sixteen table segments keeps the first guess within a fixed error. */
  lemma OddSegment(i: int, h: int)
    requires 0 <= i < 16 && 0x4000 + i * 0x400 <= h < 0x4000 + (i + 1) * 0x400
    ensures var z := 0x4000 + h - ODD_ADJUSTMENTS[i];
            && 32764 <= z <= 46500
            && 0x20000 * h + 0x1FFFF - ODD_ERROR <= 2 * (z * z) <= 0x20000 * h + ODD_ERROR
  {
    ChordAndTangent(h, 0x4000 + i * 0x400, 0x4000 + i * 0x400 + 0x3FF);
    var c := 0x4000 - ODD_ADJUSTMENTS[i];
    assert (h + c) * (h + c) == h * h + 2 * (c * h) + c * c;
    if i == 0 {} else if i == 1 {} else if i == 2 {} else if i == 3 {}
    else if i == 4 {} else if i == 5 {} else if i == 6 {} else if i == 7 {}
    else if i == 8 {} else if i == 9 {} else if i == 10 {} else if i == 11 {}
    else if i == 12 {} else if i == 13 {} else if i == 14 {} else {}
  }

  lemma EvenSegment(i: int, h: int)
    requires 0 <= i < 16 && 0x4000 + i * 0x400 <= h < 0x4000 + (i + 1) * 0x400
    ensures var z := 0x8000 + h - EVEN_ADJUSTMENTS[i];
            && 46500 <= z <= 65533
            && 0x20000 * h + 0x1FFFF - EVEN_ERROR <= z * z <= 0x20000 * h + EVEN_ERROR
  {
    ChordAndTangent(h, 0x4000 + i * 0x400, 0x4000 + i * 0x400 + 0x3FF);
    var c := 0x8000 - EVEN_ADJUSTMENTS[i];
    assert (h + c) * (h + c) == h * h + 2 * (c * h) + c * c;
    if i == 0 {} else if i == 1 {} else if i == 2 {} else if i == 3 {}
    else if i == 4 {} else if i == 5 {} else if i == 6 {} else if i == 7 {}
    else if i == 8 {} else if i == 9 {} else if i == 10 {} else if i == 11 {}
    else if i == 12 {} else if i == 13 {} else if i == 14 {} else {}
  }

  // ----- The second guess: a Newton step in 16-bit arithmetic -----

  /** The quotient a / z0 differs little from the multiple k * z0 it approximates. */
  lemma QuotientNearGuess(a: int, z0: int, k: int, error: int, d: int)
    requires z0 > 0 && a >= 0 && error >= 0 && d >= 0 && error + z0 < (d + 1) * z0
    requires a - error <= k * (z0 * z0) <= a + error
    ensures -d <= a / z0 - k * z0 <= d
  {
    var q := a / z0;
    QuotientBounds(a, z0);
    assert (q + 1) * z0 == q * z0 + z0;
    var e := q - k * z0;
    assert e * z0 == q * z0 - k * (z0 * z0);
    assert (-e) * z0 == -(e * z0);
    BelowFactor(e, z0, d + 1);
    BelowFactor(-e, z0, d + 1);
  }

  /** How far the square of the second guess is from a, in terms of its own error. */
  lemma SecondGuessError(a: int, z0: int, d: int)
    requires z0 > 0 && a >= 0 && d >= 0 && -d <= a / z0 - z0 <= d
    ensures -(d * d) <= 4 * a - (a / z0 + z0) * (a / z0 + z0) < 4 * z0
  {
    var q := a / z0;
    QuotientBounds(a, z0);
    SumAndDifference(q, z0);
    SquareBound(q - z0, d);
    assert q * (4 * z0) == 4 * (q * z0);
    assert (q - z0) * (q - z0) >= 0;
    assert (q + 1) * z0 == q * z0 + z0;
  }

  /** The same for odd exponents, where the divisor is half the root it stands for. */
  lemma SecondOddGuessError(a: int, z0: int, d: int)
    requires z0 > 0 && a >= 0 && d >= 0 && -d <= a / z0 - 2 * z0 <= d
    ensures -(d * d) <= 8 * a - (a / z0 + 2 * z0) * (a / z0 + 2 * z0) < 8 * z0
  {
    var q := a / z0;
    QuotientBounds(a, z0);
    SumAndDifference(q, 2 * z0);
    SquareBound(q - 2 * z0, d);
    assert q * (4 * (2 * z0)) == 8 * (q * z0);
    assert (q - 2 * z0) * (q - 2 * z0) >= 0;
    assert (q + 1) * z0 == q * z0 + z0;
  }

  lemma OddSecondGuess(a: word32)
    requires a >= 0x8000_0000
    ensures var z0 := OddGuess(a);
            && z0 > 0
            && var z := (a / z0 + 2 * z0) * 0x4000;
            && 0x8000_0000 <= z < B32
            && -0x1_0000_0000_0000 <= a * 0x8000_0000 - z * z <= 0x1_0000_0000_0000
  {
    var z0 := OddGuess(a);
    OddSegment(a / 0x800_0000 % 16, a / 0x20000);
    QuotientNearGuess(a, z0, 2, ODD_ERROR, 856);
    SecondOddGuessError(a, z0, 856);
    var w := a / z0 + 2 * z0;
    assert w >= 0x20000 by { OddSecondGuessLarge(a, z0); }
    assert -0x10_0000 <= 8 * a - w * w <= 0x10_0000;
    ScaledSquare(w, 0x4000);
  }

  lemma ScaledSquare(w: int, k: int)
    ensures (w * k) * (w * k) == (w * w) * (k * k)
  {
    assert (w * k) * (w * k) == w * (k * (w * k)) == w * (w * (k * k));
  }

  /** Whatever the first guess, the second one cannot fall below 2^17: x(2^17 - 2x) is at most 2^31. */
  lemma OddSecondGuessLarge(a: int, z0: int)
    requires a >= 0x8000_0000 && z0 > 0
    ensures a / z0 + 2 * z0 >= 0x20000
  {
    QuotientBounds(a, z0);
    var e := z0 - 0x8000;
    assert e * e >= 0;
    assert (0x20000 - 2 * z0) * z0 == 0x8000_0000 - 2 * (e * e);
    BelowFactor(0x20000 - 2 * z0, z0, a / z0 + 1);
  }

  lemma EvenSecondGuess(a: word32)
    requires a >= 0x8000_0000
    ensures var z0 := EvenGuess(a);
            && z0 > 0
            && var w := a / z0 + z0;
            && 0x10000 <= w
            && -0x40000 <= 4 * a - w * w <= 0x40000
  {
    var z0 := EvenGuess(a);
    EvenSegment(a / 0x800_0000 % 16, a / 0x20000);
    QuotientNearGuess(a, z0, 1, EVEN_ERROR, 431);
    SecondGuessError(a, z0, 431);
  }

  // ----- The routine -----

  /** The estimate is strictly within 2 of the exact root for every normalised significand. */
  method EstimateSqrt32(aExp: int, a: word32) returns (r: word32)
    requires a >= 0x8000_0000
    ensures NearRoot(r, Radicand(aExp, a))
  {
    var index := a / 0x800_0000 % 16;
    var z: int;
    if aExp % 2 == 1 {
      z := 0x4000 + a / 0x20000 - ODD_ADJUSTMENTS[index];
      OddSecondGuess(a);
      z := a / z * 0x4000 + z * 0x8000;
      LastStep(Radicand(aExp, a), a / 2 * 0x8000_0000, z);
      r := LastQuotient(a / 2, z);
    } else {
      z := 0x8000 + a / 0x20000 - EVEN_ADJUSTMENTS[index];
      EvenSecondGuess(a);
      z := a / z + z;
      ghost var w := z;
      z := if 0x20000 <= z then 0xFFFF_8000 else z * 0x8000;
      if z <= a {
        EarlyReturn(a, w);
        return HalfSigned(a);
      }
      EvenLastGuess(a, w);
      LastStep(Radicand(aExp, a), a * 0x8000_0000, z);
      r := LastQuotient(a, z);
    }
  }

  /** The last division, whose quotient fits in 31 bits. */
  method LastQuotient(a: word32, z: int) returns (r: word32)
    requires a < z < B32
    ensures r == a * 0x8000_0000 / z + z / 2
  {
    ghost var d := a * 0x8000_0000;
    QuotientBounds(d, z);
    BelowFactor(d / z, z, 0x8000_0000);
    r := a * 0x8000_0000 / z + z / 2;
  }

  /** An arithmetic right shift by one of a word whose sign bit is set. */
  function HalfSigned(a: word32): word32
    requires a >= 0x8000_0000
  {
    (a - B32) / 2 + B32
  }

  /** Close to 2^32 the mean of a and 2^32 is already near the root of their product. */
  lemma EarlyReturn(a: word32, w: int)
    requires a >= 0x8000_0000 && w >= 0x10000 && 4 * a - w * w <= 0x40000
    requires (if 0x20000 <= w then 0xFFFF_8000 else w * 0x8000) <= a
    ensures NearRoot(HalfSigned(a), a * B32)
  {
    var t := B32 - a;
    if w < 0x20000 {
      SquareBound(w * 0x8000, a);
      ScaledSquare(w, 0x8000);
      assert a * t == a * B32 - a * a;
      BelowFactor(t, a, 0x20001);
    }
    MeanNearRoot(t, B32 - HalfSigned(a));
  }

  lemma MeanNearRoot(t: int, c: int)
    requires 0 <= t <= 0x20000 && t <= 2 * c <= t + 1
    ensures NearRoot(B32 - c, (B32 - t) * B32)
  {
    assert (B32 - (c + 2)) * (B32 - (c + 2)) == B32 * B32 - 2 * B32 * (c + 2) + (c + 2) * (c + 2);
    assert (B32 - (c - 2)) * (B32 - (c - 2)) == B32 * B32 - 2 * B32 * (c - 2) + (c - 2) * (c - 2);
    SquareBound(c + 2, 0x10002);
    assert (c - 2) * (c - 2) >= 0;
  }

  lemma EvenLastGuess(a: word32, w: int)
    requires a >= 0x8000_0000 && 0x10000 <= w && -0x40000 <= 4 * a - w * w <= 0x40000
    ensures var z := if 0x20000 <= w then 0xFFFF_8000 else w * 0x8000;
            && 0x8000_0000 <= z < B32
            && -0x1_0000_0000_0000 <= a * B32 - z * z <= 0x1_0000_0000_0000
  {
    if 0x20000 <= w {
      SquareBound(0x20000, w);
    } else {
      ScaledSquare(w, 0x8000);
    }
  }
}
