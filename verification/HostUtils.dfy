/** The host's 64x64 to 128-bit multiplications (host-utils.c). */
module HostUtils {
  import opened Words
  import MultiWord

  const MIN64 := -0x8000_0000_0000_0000

  type int64 = n: int | MIN64 <= n < -MIN64

  /** Negation of a signed 64-bit number, wrapping around at its least value. */
  function Negate(a: int64): int64 {
    if a == MIN64 then a else -a
  }

  function Abs(a: int): nat {
    if a < 0 then -a else a
  }

  /** The two's-complement reading of a 128-bit number. */
  function Signed128(v: nat): (r: int)
    requires v < B128
    ensures -B128 / 2 <= r < B128 / 2 && (r == v || r == v - B128)
  {
    if v < B128 / 2 then v else v - B128
  }

  /** The pair of words behind the pointers "plow" and "phigh". */
  class Product {
    var low: word64
    var high: word64

    ghost function Value(): nat
      reads this
    {
      Val2(high, low)
    }

    constructor ()
      ensures Value() == 0
    {
      low, high := 0, 0;
    }

    method Add(a: word64, b: word64)
      modifies this
      ensures Value() == (old(Value()) + Val2(b, a)) % B128
    {
      low := Plus(low, a);
      if low < a {
        high := Plus(high, 1);
      }
      high := Plus(high, b);
    }

    method Neg()
      modifies this
      ensures Value() == if old(Value()) == 0 then 0 else B128 - old(Value())
    {
      low := B64 - 1 - low;
      high := B64 - 1 - high;
      Add(1, 0);
    }

    method Mulu64(a: word64, b: word64)
      modifies this
      ensures Value() == a * b
    {
      var a0: word32, a1: word32 := a % B32, a / B32;
      var b0: word32, b1: word32 := b % B32, b / B32;
      MultiWord.DigitProduct(a0, b0);
      MultiWord.DigitProduct(a0, b1);
      MultiWord.DigitProduct(a1, b0);
      MultiWord.DigitProduct(a1, b1);
      MultiWord.SplitProduct(a1, a0, b1, b0);
      MultiWord.WordProduct(a, b);
      var v: word64 := a0 * b0;
      low := v;
      high := 0;
      v := a0 * b1;
      AddShifted(v);
      v := a1 * b0;
      AddShifted(v);
      v := a1 * b1;
      high := Plus(high, v);
    }

    /** Adds v * 2^32, which the source passes as two words. */
    method AddShifted(v: word64)
      requires Value() + v * B32 < B128
      modifies this
      ensures Value() == old(Value()) + v * B32
    {
      var shifted := v * B32 % B64;
      DivModUnique(v * B32, B64, v / B32, v % B32 * B32);
      Add(shifted, v / B32);
    }

    /** The signed product is exact for every pair of operands, the least number included. */
    method Muls64(a: int64, b: int64)
      modifies this
      ensures Signed128(Value()) == a * b
    {
      var sa, sb := a < 0, b < 0;
      var a', b' := if sa then Negate(a) else a, if sb then Negate(b) else b;
      Mulu64(a' % B64, b' % B64);
      Magnitudes(a, b);
      if sa != sb {
        Neg();
      }
    }
  }

  /** After the sign has been stripped, the operands are read as unsigned magnitudes. */
  lemma Magnitudes(a: int64, b: int64)
    ensures var x := (if a < 0 then Negate(a) else a) % B64;
            var y := (if b < 0 then Negate(b) else b) % B64;
            && x == Abs(a) && y == Abs(b)
            && x * y == (if (a < 0) != (b < 0) then -(a * b) else a * b)
            && x * y <= B128 / 4
  {
    MulBound(Abs(a), Abs(b), B64 / 2, B64 / 2);
    SignOfProduct(a, b);
  }

  lemma SignOfProduct(a: int, b: int)
    ensures (-a) * b == -(a * b) && a * (-b) == -(a * b) && (-a) * (-b) == a * b
  {
  }

  /** The two unsigned multiplications of the repository agree word for word. */
  method MultiplyBothWays(a: word64, b: word64) returns (high: word64, low: word64, z0: word64, z1: word64)
    ensures high == z0 && low == z1 && Val2(high, low) == a * b
  {
    var p := new Product();
    p.Mulu64(a, b);
    high, low := p.high, p.low;
    z0, z1 := MultiWord.Mul64To128(a, b);
    Val2Unique(high, low, z0, z1);
  }
}
