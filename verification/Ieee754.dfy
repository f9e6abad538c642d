/**
 The binary interchange formats of IEEE 754-2019, section 3.4, and the meaning of an
 encoding. An encoding is the natural number its bits spell. Every finite value of a
 format is a whole multiple of its smallest subnormal, so a magnitude is kept as an
 exact natural number in that unit and turned into a real only at the end.
 */
module Ieee754 {
  import opened Bits

  /** The two widths that `fp32.h`, `fp64.h` and `fp128.h` derive everything else from. */
  datatype Format = Format(significandBits: nat, exponentBits: nat) {
    predicate Valid() {
      significandBits > 0 && exponentBits > 1
    }

    function Width(): nat {
      1 + exponentBits + significandBits
    }

    function MaxExponent(): nat {
      Pow2(exponentBits) - 1
    }

    function Bias(): nat {
      MaxExponent() / 2
    }

    /** Every finite value is a whole multiple of `2^-Scale()`. */
    function Scale(): nat
      requires Valid()
    {
      BiasIsPositive(this);
      Bias() - 1 + significandBits
    }
  }

  const Binary32 := Format(23, 8)
  const Binary64 := Format(52, 11)
  const Binary128 := Format(112, 15)

  predicate IsEncoding(f: Format, w: nat) {
    w < Pow2(f.Width())
  }

  predicate IsNegative(f: Format, w: nat) {
    Shr(w, f.significandBits + f.exponentBits) % 2 == 1
  }

  function BiasedExponent(f: Format, w: nat): nat {
    Low(Shr(w, f.significandBits), f.exponentBits)
  }

  function Fraction(f: Format, w: nat): nat {
    Low(w, f.significandBits)
  }

  /** Neither an infinity nor a NaN. */
  predicate IsFinite(f: Format, w: nat) {
    BiasedExponent(f, w) != f.MaxExponent()
  }

  /**
   The magnitude in units of `2^-Scale()`: subnormals have no implicit bit. An all-ones
   exponent is read like any other, which puts infinities and NaNs above every finite value.
   */
  function Magnitude(f: Format, w: nat): nat {
    var e, m := BiasedExponent(f, w), Fraction(f, w);
    if e == 0 then m else (Pow2(f.significandBits) + m) * Pow2(e - 1)
  }

  function SignedMagnitude(f: Format, w: nat): int {
    var m: int := Magnitude(f, w);
    if IsNegative(f, w) then 0 - m else m
  }

  /** The real number a finite encoding stands for. */
  function Value(f: Format, w: nat): real
    requires f.Valid()
  {
    SignedMagnitude(f, w) as real / Pow2(f.Scale()) as real
  }

  /** The integer part of the magnitude. */
  function WholePart(f: Format, w: nat): nat
    requires f.Valid()
  {
    Shr(Magnitude(f, w), f.Scale())
  }

  /** The value rounded toward zero (IEEE 754-2019, section 5.8, roundTowardZero). */
  function Truncated(f: Format, w: nat): int
    requires f.Valid()
  {
    var t: int := WholePart(f, w);
    if IsNegative(f, w) then 0 - t else t
  }

  lemma BiasIsPositive(f: Format)
    requires f.Valid()
    ensures f.Bias() == Pow2(f.exponentBits - 1) - 1
    ensures f.Bias() >= 1
  {
    Pow2Monotone(1, f.exponentBits - 1);
    assert Pow2(f.exponentBits) == 2 * Pow2(f.exponentBits - 1);
  }

  /** The constant 1023 of the conversions to binary64. */
  lemma DoubleBias()
    ensures Binary64.Bias() == 1023
  {
  }

  /** `Truncated` is the integer part: same sign, and less than one away from the value. */
  lemma TruncatedIsIntegerPart(f: Format, w: nat)
    requires f.Valid()
    ensures var t, v := Truncated(f, w) as real, Value(f, w);
      if IsNegative(f, w) then t - 1.0 < v <= t <= 0.0 else 0.0 <= t <= v < t + 1.0
  {
    ShrIsDiv(Magnitude(f, w), f.Scale());
    IntegerPart(Magnitude(f, w), Pow2(f.Scale()));
  }

  lemma IntegerPart(m: int, s: int)
    requires m >= 0 && s > 0
    ensures (m / s) as real <= m as real / s as real < (m / s) as real + 1.0
    ensures (0 - m) as real / s as real == -(m as real / s as real)
    ensures (0 - m / s) as real == -((m / s) as real)
    ensures 0.0 <= (m / s) as real
  {
    var q, r := m / s, m % s;
    assert m == s * q + r;
    var mr, sr, qr, rr := m as real, s as real, q as real, r as real;
    assert (s * q) as real == sr * qr;
    RealQuotient(mr, sr, qr, rr);
    assert (0.0 - mr) / sr == -(mr / sr);
  }

  lemma RealQuotient(m: real, s: real, q: real, r: real)
    requires s > 0.0 && 0.0 <= r < s && m == s * q + r
    ensures q <= m / s < q + 1.0
  {
    assert (s * q) / s == q;
    assert m / s == q + r / s;
    var x := r / s;
    assert x * s == r;
    if x >= 1.0 { RealMulMonotone(1.0, x, s); }
    if x < 0.0 { RealMulMonotone(x, 0.0, s); }
  }

  lemma RealMulMonotone(x: real, y: real, s: real)
    requires x <= y && s > 0.0
    ensures x * s <= y * s
  {
    assert (y - x) * s >= 0.0;
  }

  /** Scaling a dividend by `2^c` and shifting it down by `c + d` is a shift by `d`. */
  lemma CancelPow2(m: nat, c: nat, d: nat)
    ensures Shr(m * Pow2(c), c + d) == Shr(m, d)
  {
    ShrOfProduct(m, c);
    ShrShr(m * Pow2(c), c, d);
  }

  /** Assembling a sign, an exponent and a fraction, and reading them back. */
  function Encode(f: Format, negative: bool, exponent: nat, fraction: nat): nat {
    (FromBool(negative) * Pow2(f.exponentBits) + exponent) * Pow2(f.significandBits) + fraction
  }

  lemma EncodeFields(f: Format, negative: bool, exponent: nat, fraction: nat)
    requires exponent < Pow2(f.exponentBits) && fraction < Pow2(f.significandBits)
    ensures var w := Encode(f, negative, exponent, fraction);
      && IsEncoding(f, w)
      && (IsNegative(f, w) <==> negative)
      && BiasedExponent(f, w) == exponent
      && Fraction(f, w) == fraction
  {
    var s, e := f.significandBits, f.exponentBits;
    var n := FromBool(negative);
    var w := Encode(f, negative, exponent, fraction);
    var high := n * Pow2(e) + exponent;
    SplitUnique(w, s, high, fraction);
    SplitUnique(high, e, n, exponent);
    ShrShr(w, s, e);
    Pow2Add(s, e);
    PackedBelow(Pow2(s), Pow2(e), high, fraction);
    assert f.Width() - 1 == s + e;
  }

  lemma PackedBelow(s: nat, e: nat, high: nat, low: nat)
    requires high < 2 * e && low < s
    ensures high * s + low < 2 * (s * e)
  {
    MulMonotone(high + 1, 2 * e, s);
    assert (high + 1) * s == high * s + s;
    assert (2 * e) * s == 2 * (s * e);
  }

  // ----- The three formats -----

  lemma One(f: Format, w: nat)
    requires f.Valid() && w == f.Bias() * Pow2(f.significandBits)
    ensures Value(f, w) == 1.0 && Truncated(f, w) == 1
  {
    OneMagnitude(f, w);
    ShrOfProduct(1, f.Scale());
    SelfQuotient(Pow2(f.Scale()));
  }

  lemma SelfQuotient(n: int)
    requires n > 0
    ensures n as real / n as real == 1.0
  {
  }

  lemma OneMagnitude(f: Format, w: nat)
    requires f.Valid() && w == f.Bias() * Pow2(f.significandBits)
    ensures Magnitude(f, w) == Pow2(f.Scale()) && !IsNegative(f, w)
  {
    var b, p := f.Bias(), Pow2(f.significandBits);
    BiasIsPositive(f);
    Pow2Monotone(f.exponentBits - 1, f.exponentBits);
    assert (FromBool(false) * Pow2(f.exponentBits) + b) * p + 0 == b * p;
    EncodeFields(f, false, b, 0);
    Pow2Add(f.significandBits, b - 1);
    assert (p + 0) * Pow2(b - 1) == p * Pow2(b - 1);
    assert f.significandBits + (b - 1) == f.Scale();
  }

  /** The encodings of one, as the three types have them. */
  lemma OneInEachFormat(single: nat, double: nat, quad: nat)
    requires single == 0x3F80_0000 && double == 0x3FF0_0000_0000_0000
    requires quad == 0x3FFF_0000_0000_0000_0000_0000_0000_0000
    ensures Value(Binary32, single) == 1.0 && Truncated(Binary32, single) == 1
    ensures Value(Binary64, double) == 1.0 && Truncated(Binary64, double) == 1
    ensures Value(Binary128, quad) == 1.0 && Truncated(Binary128, quad) == 1
  {
    SingleOne(single);
    DoubleOne(double);
    QuadOne(quad);
    One(Binary32, single);
    One(Binary64, double);
    One(Binary128, quad);
  }

  lemma SingleOne(w: nat)
    requires w == 0x3F80_0000
    ensures w == Binary32.Bias() * Pow2(Binary32.significandBits)
  {
    assert Pow2(8) == 0x100 && Pow2(15) == 0x8000;
    Pow2Add(8, 15);
  }

  lemma DoubleOne(w: nat)
    requires w == 0x3FF0_0000_0000_0000
    ensures w == Binary64.Bias() * Pow2(Binary64.significandBits)
  {
    assert Pow2(11) == 0x800 && Pow2(13) == 0x2000;
    Pow2Add(13, 13);
    Pow2Add(26, 26);
  }

  lemma QuadOne(w: nat)
    requires w == 0x3FFF_0000_0000_0000_0000_0000_0000_0000
    ensures w == Binary128.Bias() * Pow2(Binary128.significandBits)
  {
    assert Pow2(15) == 0x8000 && Pow2(14) == 0x4000;
    Pow2Add(14, 14);
    Pow2Add(28, 28);
    Pow2Add(56, 56);
  }
}
