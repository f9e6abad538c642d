/**
 What the conversion of an integer to floating point computes, stated by arithmetic for
 any format: a significand, an exponent and the encoding made of them.
 */
module FloatSpec {
  import opened Bits
  import opened Ieee754
  import opened Rounding

  /** The significand of `a > 0` rounded to `p` bits: a number of exactly `p` bits. */
  function Significand(a: nat, p: nat): nat
    requires a > 0 && p > 0
  {
    var sd := BitLength(a);
    if sd <= p then a * Pow2(p - sd)
    else
      var m := RoundHalfEven(a, sd - p);
      if m == Pow2(p) then Pow2(p - 1) else m
  }

  /** Its exponent: one more than that of `a` when rounding carries. */
  function Exponent(a: nat, p: nat): nat
    requires a > 0 && p > 0
  {
    var sd := BitLength(a);
    BitLengthBracket(a);
    if sd > p && RoundHalfEven(a, sd - p) == Pow2(p) then sd else sd - 1
  }

  /** The encoding of `a`, negated if `negative`, rounded to the precision of the format. */
  function FloatOf(f: Format, negative: bool, a: nat): nat {
    if a == 0 then 0
    else
      var p := f.significandBits + 1;
      SignificandIsNormal(a, p);
      Encode(f, negative, Exponent(a, p) + f.Bias(), Significand(a, p) - Pow2(f.significandBits))
  }

  /** The leading bit is always present: results are never subnormal. */
  lemma {:induction false} SignificandIsNormal(a: nat, p: nat)
    requires a > 0 && p > 0
    ensures Pow2(p - 1) <= Significand(a, p) < Pow2(p)
  {
    var sd := BitLength(a);
    if sd <= p {
      BitLengthBracket(a);
      ShortIsNormal(a, sd, p);
    } else {
      RoundedBracket(a, sd - p, p);
    }
  }

  lemma {:induction false} ShortIsNormal(a: nat, sd: nat, p: nat)
    requires 0 < sd <= p && Pow2(sd - 1) <= a < Pow2(sd)
    ensures Pow2(p - 1) <= a * Pow2(p - sd) < Pow2(p)
  {
    Pow2Add(sd - 1, p - sd);
    DoubleBracket(Pow2(sd - 1), a, Pow2(p - sd));
  }

  /** The format can hold every integer of up to `Bias()` bits without overflowing. */
  predicate Fits(f: Format, a: nat) {
    f.Valid() && BitLength(a) <= f.Bias()
  }

  lemma ExponentFits(f: Format, a: nat)
    requires a > 0 && Fits(f, a)
    ensures 1 <= Exponent(a, f.significandBits + 1) + f.Bias() < f.MaxExponent()
  {
    BiasIsPositive(f);
    BitLengthBracket(a);
    assert Pow2(f.exponentBits) == 2 * Pow2(f.exponentBits - 1);
  }

  /** The fields of the result: a normal number, finite, with the sign asked for. */
  lemma FloatFields(f: Format, negative: bool, a: nat)
    requires a > 0 && Fits(f, a)
    ensures var w := FloatOf(f, negative, a);
      && IsEncoding(f, w) && IsFinite(f, w)
      && IsNegative(f, w) == negative
      && BiasedExponent(f, w) == Exponent(a, f.significandBits + 1) + f.Bias()
      && Pow2(f.significandBits) + Fraction(f, w) == Significand(a, f.significandBits + 1)
  {
    var p := f.significandBits + 1;
    SignificandIsNormal(a, p);
    ExponentFits(f, a);
    EncodeFields(f, negative, Exponent(a, p) + f.Bias(), Significand(a, p) - Pow2(p - 1));
  }

  /** Significand and exponent together stand for `a` rounded to `p` bits. */
  lemma {:induction false} SignificandTimesPower(a: nat, p: nat)
    requires a > 0 && p > 0
    ensures Significand(a, p) * Pow2(Exponent(a, p)) == RoundToBits(a, p) * Pow2(p - 1)
  {
    var sd := BitLength(a);
    BitLengthBracket(a);
    if sd <= p {
      ShiftTwice(a, p - sd, sd - 1);
    } else {
      ShiftTwice(RoundHalfEven(a, sd - p), sd - p, p - 1);
      SamePower(p - 1, sd, p, sd - 1);
    }
  }

  lemma {:induction false} SamePower(a: nat, b: nat, c: nat, d: nat)
    requires a + b == c + d
    ensures Pow2(a) * Pow2(b) == Pow2(c) * Pow2(d)
  {
    Pow2Add(a, b);
    Pow2Add(c, d);
  }

  /** The magnitude of the result is `a` rounded half to even to the precision of the format. */
  lemma FloatMagnitude(f: Format, negative: bool, a: nat)
    requires Fits(f, a)
    ensures Magnitude(f, FloatOf(f, negative, a)) == RoundToBits(a, f.significandBits + 1) * Pow2(f.Scale())
  {
    BiasIsPositive(f);
    if a == 0 {
      ZeroFields(f);
    } else {
      FloatFields(f, negative, a);
      var p := f.significandBits + 1;
      var m, e, b := Significand(a, p), Exponent(a, p), f.Bias();
      SignificandTimesPower(a, p);
      Pow2Add(e, b - 1);
      Pow2Add(p - 1, b - 1);
      assert e + b - 1 == e + (b - 1);
      Regroup(m, Pow2(e), RoundToBits(a, p), Pow2(p - 1), Pow2(b - 1));
    }
  }

  lemma Regroup(m: nat, x: nat, r: nat, y: nat, z: nat)
    requires m * x == r * y
    ensures m * (x * z) == r * (y * z)
  {
    assert m * (x * z) == (m * x) * z;
    assert r * (y * z) == (r * y) * z;
  }

  lemma ZeroFields(f: Format)
    ensures Magnitude(f, 0) == 0 && !IsNegative(f, 0) && IsEncoding(f, 0)
    ensures BiasedExponent(f, 0) == 0 && Fraction(f, 0) == 0
  {
    LowIsIdentity(0, f.significandBits);
    LowIsIdentity(0, f.exponentBits);
    LowIsIdentity(0, f.significandBits + f.exponentBits);
  }
}
