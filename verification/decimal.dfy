/**
 `decodeDecimal`: the value of a decimal column as the change-data-capture
 connector sends it, a base 64 string of big-endian bytes holding the
 unscaled integer, which `decodeDecimal` reads as an unsigned integer,
 together with a scale. The result is the
 unscaled integer divided by 10 to the power of the scale, computed here as
 an exact real (the float64 rounding of the Go code is not modelled).
 A string that is not valid base 64 gives 0.
 */
module Decimal {
  import Base64
  import BigEndian
  import Bytes

  /** 10 to the power `k`. */
  function Pow10(k: nat): (p: nat)
    ensures p >= 1
  {
    if k == 0 then 1 else 10 * Pow10(k - 1)
  }

  /** `math.Pow(10, float64(scale))` taken exactly: 10 to the power `scale`,
      a fraction when the scale is negative. */
  function Divisor(scale: int): (d: real)
    ensures d > 0.0
  {
    if scale >= 0 then Pow10(scale) as real else 1.0 / Pow10(-scale) as real
  }

  /** Scale zero divides by one. */
  lemma DivisorZero()
    ensures Divisor(0) == 1.0
  {
  }

  /** One more digit of scale divides by ten more, for negative scales too. */
  lemma DivisorStep(s: int)
    ensures Divisor(s + 1) == 10.0 * Divisor(s)
  {
    if s < 0 {
      var p := Pow10(-s - 1) as real;
      assert Pow10(-s) as real == 10.0 * p;
      assert Divisor(s) == 1.0 / (10.0 * p);
      assert Divisor(s + 1) == 1.0 / p;
    }
  }

  /** The unscaled integer a decodable string carries. */
  function Unscaled(value: string): (n: nat)
    requires Base64.Decode(value).Some?
  {
    BigEndian.Unsigned(Base64.Decode(value).value)
  }

  /** The unscaled integer `n` taken down by `scale` decimal places: the
      number that times 10 to the power `scale` is `n`. */
  function Scaled(n: nat, scale: int): (r: real)
    ensures r >= 0.0
    ensures r * Divisor(scale) == n as real
  {
    QuotientTimes(n as real, Divisor(scale));
    n as real / Divisor(scale)
  }

  lemma QuotientTimes(n: real, d: real)
    requires n >= 0.0 && d > 0.0
    ensures n / d >= 0.0 && (n / d) * d == n
  {
  }

  lemma QuotientByTen(n: real, d: real)
    requires d > 0.0
    ensures n / (10.0 * d) == (n / d) / 10.0
  {
  }

  /** `Scaled` is the only such number. */
  lemma ScaledUnique(n: nat, scale: int, r: real)
    requires r * Divisor(scale) == n as real
    ensures r == Scaled(n, scale)
  {
    var d := Divisor(scale);
    assert (r - Scaled(n, scale)) * d == 0.0;
  }

  /** Scale zero leaves the integer as it is. */
  lemma ScaledZero(n: nat)
    ensures Scaled(n, 0) == n as real
  {
    DivisorZero();
  }

  /** One more decimal place divides by ten, for negative scales too. */
  lemma ScaledStep(n: nat, s: int)
    ensures Scaled(n, s + 1) == Scaled(n, s) / 10.0
  {
    DivisorStep(s);
    QuotientByTen(n as real, Divisor(s));
  }

  /** `decodeDecimal(value, scale)`: 0 when `value` is not valid base 64,
      otherwise the unscaled integer its bytes carry, taken down by `scale`
      decimal places. */
  function DecodeDecimal(value: string, scale: int): (r: real)
    ensures r >= 0.0
    ensures Base64.Decode(value).None? ==> r == 0.0
    ensures Base64.Decode(value).Some? ==> r == Scaled(Unscaled(value), scale)
  {
    match Base64.Decode(value)
    case None => 0.0
    case Some(b) => Scaled(BigEndian.Unsigned(b), scale)
  }

  /** With scale zero the result is the unscaled integer itself. */
  lemma DecodeDecimalScaleZero(value: string)
    requires Base64.Decode(value).Some?
    ensures DecodeDecimal(value, 0) == Unscaled(value) as real
  {
    ScaledZero(Unscaled(value));
  }

  /** Raising the scale by one divides the result by ten (an invalid string
      stays at 0). */
  lemma DecodeDecimalScaleStep(value: string, s: int)
    ensures DecodeDecimal(value, s + 1) == DecodeDecimal(value, s) / 10.0
  {
    if Base64.Decode(value).Some? {
      ScaledStep(Unscaled(value), s);
    }
  }

  /** Round trip: encoding the minimal bytes of `n` and decoding with scale
      `s` gives `n` divided by 10 to the power `s`. Bytes with extra leading
      zeros, such as a two's-complement encoding whose top byte is 0x80 or
      more, are covered by `DecodeDecimalLeadingZeros`. */
  lemma DecodeDecimalRoundTrip(n: nat, s: int)
    ensures DecodeDecimal(Base64.Encode(BigEndian.MinimalBytes(n)), s) == Scaled(n, s)
  {
    Base64.DecodeEncode(BigEndian.MinimalBytes(n));
    BigEndian.UnsignedMinimalBytes(n);
  }

  /** Leading zero bytes in the encoded value do not change the result. */
  lemma DecodeDecimalLeadingZeros(k: nat, b: seq<Bytes.byte>, s: int)
    ensures DecodeDecimal(Base64.Encode(BigEndian.Zeros(k) + b), s) == DecodeDecimal(Base64.Encode(b), s)
  {
    Base64.DecodeEncode(BigEndian.Zeros(k) + b);
    Base64.DecodeEncode(b);
    BigEndian.UnsignedLeadingZeros(k, b);
  }

  /** The price 10.50 of a NUMERIC(10, 2) column: unscaled 1050 is the bytes
      0x04 0x1A, sent as "BBo=". */
  lemma DecodeDecimalExample()
    ensures DecodeDecimal("BBo=", 2) == 10.5
  {
    Base64.EncodeExample();
    var b: seq<Bytes.byte> := [4, 26];
    Base64.DecodeEncode(b);
    assert b[..1] == [4] && [4][..0] == [];
    assert BigEndian.Unsigned(b) == 1050;
    ScaledExample();
  }

  lemma ScaledExample()
    ensures Scaled(1050, 2) == 10.5
  {
    var d := Divisor(2);
    assert d == 100.0;
    assert 10.5 * d == 1050 as real;
    ScaledUnique(1050, 2, 10.5);
  }

  /** `r` is `n` taken down by `scale` places, stated with whole powers of
      ten: `r` times 10 to the power `scale` is `n`, or, for a negative
      scale, `r` is `n` times 10 to the power of its magnitude. */
  predicate TakenDown(r: real, n: nat, scale: int) {
    && (scale >= 0 ==> r * Pow10(scale) as real == n as real)
    && (scale < 0 ==> r == n as real * Pow10(-scale) as real)
  }

  /** The steps of `decodeDecimal` in order: decode (0 on an error), read
      the bytes as an unsigned integer `n`, take it down by `scale` places.
      Besides the result `r`, the unscaled integer `n` is returned. */
  method DecodeDecimalSteps(value: string, scale: int) returns (r: real, n: nat)
    ensures Base64.Decode(value).None? ==> r == 0.0 && n == 0
    ensures Base64.Decode(value).Some? ==> n == BigEndian.Unsigned(Base64.Decode(value).value)
    ensures Base64.Decode(value).Some? ==> TakenDown(r, n, scale)
    ensures r == DecodeDecimal(value, scale)
  {
    var decoded := Base64.Decode(value);
    if decoded.None? {
      r, n := 0.0, 0;
    } else {
      n := BigEndian.SetBytes(decoded.value);
      r := TakeDown(n, scale);
    }
  }

  /** `Quo(num, 10^scale)`: raises 10 to the magnitude of the scale, then
      divides by that power, or multiplies by it when the scale is
      negative. */
  method TakeDown(n: nat, scale: int) returns (r: real)
    ensures TakenDown(r, n, scale)
    ensures r == Scaled(n, scale)
  {
    var k: nat := if scale >= 0 then scale else -scale;
    var p: nat := 1;
    var i := 0;
    while i < k
      invariant 0 <= i <= k
      invariant p == Pow10(i)
    {
      p := 10 * p;
      i := i + 1;
    }
    r := if scale >= 0 then n as real / p as real else n as real * p as real;
    StepsQuotient(n, scale, p as real, r);
  }

  /** Dividing by 10 to the power of a non-negative scale, or multiplying by
      10 to the power of the magnitude of a negative one, is `Scaled`. */
  lemma StepsQuotient(n: nat, scale: int, p: real, r: real)
    requires p == Pow10(if scale >= 0 then scale else -scale) as real
    requires r == if scale >= 0 then n as real / p else n as real * p
    ensures scale >= 0 ==> r * p == n as real
    ensures r == Scaled(n, scale)
  {
    if scale >= 0 {
      QuotientTimes(n as real, p);
    } else {
      MulInverse(n as real, p);
    }
    ScaledUnique(n, scale, r);
  }

  lemma MulInverse(x: real, p: real)
    requires p > 0.0
    ensures (x * p) * (1.0 / p) == x
  {
  }
}
