/**
 Conversion of binary32, binary64 and binary128 encodings to signed and unsigned
 128-bit integers. The six C functions are one text instantiated by the macros of
 `fp32.h`, `fp64.h` and `fp128.h`; the model takes the format as a parameter.
 */
module FixTi {
  import opened Bits
  import opened Ieee754

  /** The width of `__int128`; the lemmas below hold for an integer type of any width. */
  const WIDTH: nat := 128

  function IntMax(width: nat): int
    requires width > 0
  {
    Pow2(width - 1) - 1
  }

  function IntMin(width: nat): int
    requires width > 0
  {
    0 - Pow2(width - 1)
  }

  function UIntMax(width: nat): nat {
    Pow2(width) - 1
  }

  /** Any integer reduced modulo `2^width` into the range of a signed number of that width. */
  function WrapSigned(x: int, width: nat): int
    requires width > 0
  {
    (x + Pow2(width - 1)) % Pow2(width) - Pow2(width - 1)
  }

  datatype Parts = Parts(negative: bool, exponent: int, significand: nat)

  /** Sign, unbiased exponent and significand, taken out with masks and a shift. */
  function Split(f: Format, a: nat): Parts {
    var implicitBit := Pow2(f.significandBits);
    var significandMask := implicitBit - 1;
    var signBit := Pow2(f.significandBits + f.exponentBits);
    var absMask := signBit - 1;
    var abs := And(a, absMask);
    Parts(And(a, signBit) != 0,
          Shr(abs, f.significandBits) - f.Bias(),
          Or(And(abs, significandMask), implicitBit))
  }

  /** The body of `___fixunssfti`, `___fixunsdfti` and `___fixunstfti`. */
  function FixUnsigned(f: Format, a: nat): nat {
    UnsignedFromParts(Split(f, a), f.significandBits, WIDTH)
  }

  function UnsignedFromParts(p: Parts, significandBits: nat, width: nat): nat {
    if p.negative || p.exponent < 0 then 0
    else if p.exponent >= width then UIntMax(width)
    else if p.exponent < significandBits then Shr(p.significand, significandBits - p.exponent)
    else Shl(p.significand, p.exponent - significandBits, width)
  }

  /** The body of `___fixsfti`, `___fixdfti` and `___fixtfti`. */
  function FixSigned(f: Format, a: nat): int {
    SignedFromParts(Split(f, a), f.significandBits, WIDTH)
  }

  /**
   The left shift and the product by the sign are taken modulo `2^width`, which matters
   only for exponent `width - 1`.
   */
  function SignedFromParts(p: Parts, significandBits: nat, width: nat): int
    requires width > 0
  {
    var sign := if p.negative then -1 else 1;
    if p.exponent < 0 then 0
    else if p.exponent >= width then (if sign == 1 then IntMax(width) else IntMin(width))
    else if p.exponent < significandBits then sign * Shr(p.significand, significandBits - p.exponent)
    else WrapSigned(sign * WrapSigned(Shl(p.significand, p.exponent - significandBits, width), width), width)
  }

  function Clamp(x: int, low: int, high: int): int {
    if x < low then low else if x > high then high else x
  }

  // ----- What the masks read -----

  /** The masks and shifts read the fields of the encoding. */
  lemma {:induction false} SplitReadsFields(f: Format, a: nat)
    ensures Split(f, a) == Parts(IsNegative(f, a),
                                 BiasedExponent(f, a) - f.Bias(),
                                 Pow2(f.significandBits) + Fraction(f, a))
  {
    var s, e := f.significandBits, f.exponentBits;
    AndBit(a, s + e);
    AndLowMask(a, s + e);
    FieldOfLow(a, s, e);
    AndLowMask(Low(a, s + e), s);
    ImplicitBit(a, s);
  }

  lemma {:induction false} ImplicitBit(a: nat, s: nat)
    ensures Or(Low(a, s), Pow2(s)) == Pow2(s) + Low(a, s)
  {
    SplitAt(a, s);
    OrCommutes(Low(a, s), Pow2(s));
    ShrOfProduct(1, s);
    OrDisjoint(Pow2(s), s, Low(a, s));
  }

  // ----- The integer part of a magnitude, by its exponent -----

  lemma WholePartByExponent(f: Format, a: nat)
    requires f.Valid()
    ensures var x, s, m := BiasedExponent(f, a) - f.Bias(), f.significandBits, Pow2(f.significandBits) + Fraction(f, a);
      WholePart(f, a) ==
        if x < 0 then 0
        else if x < s then Shr(m, s - x)
        else m * Pow2(x - s)
  {
    BiasIsPositive(f);
    var e := BiasedExponent(f, a);
    if e < f.Bias() {
      SmallMagnitude(f, a);
      LowIsIdentity(Magnitude(f, a), f.Scale());
    } else {
      ScaledQuotient(Pow2(f.significandBits) + Fraction(f, a), e, f.significandBits, f.Bias());
    }
  }

  lemma {:induction false} ScaledQuotient(m: nat, e: nat, s: nat, bias: nat)
    requires 1 <= bias <= e
    ensures Shr(m * Pow2(e - 1), bias - 1 + s) ==
            if e - bias < s then Shr(m, s - (e - bias)) else m * Pow2(e - bias - s)
  {
    if e - bias < s {
      CancelPow2(m, e - 1, s - (e - bias));
      assert e - 1 + (s - (e - bias)) == bias - 1 + s;
    } else {
      assert (e - bias - s) + (bias - 1 + s) == e - 1;
      ScaledProduct(m, e - bias - s, bias - 1 + s);
    }
  }

  lemma {:induction false} ScaledProduct(m: nat, k: nat, scale: nat)
    ensures Shr(m * Pow2(k + scale), scale) == m * Pow2(k)
  {
    ShiftTwice(m, k, scale);
    ShrOfProduct(m * Pow2(k), scale);
  }

  /** Below the bias the magnitude is less than one. */
  lemma SmallMagnitude(f: Format, a: nat)
    requires f.Valid() && BiasedExponent(f, a) < f.Bias()
    ensures Magnitude(f, a) < Pow2(f.Scale())
  {
    BiasIsPositive(f);
    var s, e := f.significandBits, BiasedExponent(f, a);
    SplitAt(a, s);
    if e == 0 {
      Pow2Monotone(s, f.Scale());
    } else {
      DoubleBracket(Pow2(s), Pow2(s) + Fraction(f, a), Pow2(e - 1));
      Pow2Add(s, e - 1);
      Pow2Monotone(s + e, f.Scale());
    }
  }

  /** A magnitude with unbiased exponent `x >= 0` lies in `[2^x, 2^(x+1))`. */
  lemma WholePartBracket(f: Format, a: nat)
    requires f.Valid() && BiasedExponent(f, a) >= f.Bias()
    ensures var x := BiasedExponent(f, a) - f.Bias();
      Pow2(x) <= WholePart(f, a) < Pow2(x + 1)
  {
    BiasIsPositive(f);
    var s, e, x := f.significandBits, BiasedExponent(f, a), BiasedExponent(f, a) - f.Bias();
    SplitAt(a, s);
    DoubleBracket(Pow2(s), Pow2(s) + Fraction(f, a), Pow2(e - 1));
    Pow2Add(s, e - 1);
    Pow2Add(x, f.Scale());
    Pow2Add(x + 1, f.Scale());
    ShrAtLeast(Magnitude(f, a), f.Scale(), Pow2(x));
    ShrAtLeast(Magnitude(f, a), f.Scale(), Pow2(x + 1));
    assert s + (e - 1) == x + f.Scale();
  }

  /** Comparing the exponent with `n` compares the integer part with `2^n`. */
  lemma ExponentAgainstWholePart(f: Format, a: nat, n: nat)
    requires f.Valid()
    ensures BiasedExponent(f, a) - f.Bias() < n <==> WholePart(f, a) < Pow2(n)
  {
    var x := BiasedExponent(f, a) - f.Bias();
    if x < 0 {
      WholePartByExponent(f, a);
    } else {
      WholePartBracket(f, a);
      if x < n { Pow2Monotone(x + 1, n); } else { Pow2Monotone(n, x); }
    }
  }

  /** `t` is the integer part of the magnitude that `p` describes. */
  ghost predicate IsWholePart(p: Parts, s: nat, t: nat, width: nat)
    requires width > 0
  {
    && t == (if p.exponent < 0 then 0
             else if p.exponent < s then Shr(p.significand, s - p.exponent)
             else p.significand * Pow2(p.exponent - s))
    && (p.exponent < width - 1 <==> t < Pow2(width - 1))
    && (p.exponent < width <==> t < Pow2(width))
  }

  lemma SplitWholePart(f: Format, a: nat, width: nat)
    requires f.Valid() && width > 0
    ensures Split(f, a).negative == IsNegative(f, a)
    ensures IsWholePart(Split(f, a), f.significandBits, WholePart(f, a), width)
  {
    SplitReadsFields(f, a);
    WholePartByExponent(f, a);
    ExponentAgainstWholePart(f, a, width - 1);
    ExponentAgainstWholePart(f, a, width);
  }

  // ----- Truncation -----

  lemma UnsignedPartsTruncate(p: Parts, s: nat, t: nat, width: nat)
    requires width > 0 && IsWholePart(p, s, t, width)
    ensures UnsignedFromParts(p, s, width) == Clamp(if p.negative then 0 - t else t, 0, UIntMax(width))
  {
    if s <= p.exponent < width { LowIsIdentity(t, width); }
  }

  /**
   The unsigned routines return the value truncated toward zero, with negative values
   giving zero and values of `2^128` and above, infinity and NaN included, the maximum.
   */
  lemma FixUnsignedTruncates(f: Format, a: nat)
    requires f.Valid()
    ensures FixUnsigned(f, a) == Clamp(Truncated(f, a), 0, UIntMax(WIDTH))
  {
    SplitWholePart(f, a, WIDTH);
    UnsignedPartsTruncate(Split(f, a), f.significandBits, WholePart(f, a), WIDTH);
  }

  /** What the signed routines compute, as a function of the sign and the integer part. */
  function SignedResult(negative: bool, t: nat, width: nat): int
    requires width > 0
  {
    var sign := if negative then -1 else 1;
    if t >= Pow2(width) then (if negative then IntMin(width) else IntMax(width))
    else if t >= Pow2(width - 1) then WrapSigned(sign * WrapSigned(t, width), width)
    else sign * t
  }

  lemma WrapIsIdentity(x: int, width: nat)
    requires width > 0 && IntMin(width) <= x <= IntMax(width)
    ensures WrapSigned(x, width) == x
  {
    DivModUnique(x + Pow2(width - 1), Pow2(width), 0, x + Pow2(width - 1));
  }

  lemma WrapUpperHalf(t: nat, width: nat)
    requires width > 0 && Pow2(width - 1) <= t < Pow2(width)
    ensures WrapSigned(t, width) == t - Pow2(width)
  {
    DivModUnique(t + Pow2(width - 1), Pow2(width), 1, t - Pow2(width - 1));
  }

  lemma SignedPartsResult(p: Parts, s: nat, t: nat, width: nat)
    requires s < width && IsWholePart(p, s, t, width)
    ensures SignedFromParts(p, s, width) == SignedResult(p.negative, t, width)
  {
    if s <= p.exponent < width {
      LowIsIdentity(t, width);
      if p.exponent < width - 1 { WrapIsIdentity(t, width); WrapIsIdentity(0 - t, width); }
    }
  }

  lemma FixSignedByWholePart(f: Format, a: nat)
    requires f.Valid() && f.significandBits < WIDTH
    ensures FixSigned(f, a) == SignedResult(IsNegative(f, a), WholePart(f, a), WIDTH)
  {
    SplitWholePart(f, a, WIDTH);
    SignedPartsResult(Split(f, a), f.significandBits, WholePart(f, a), WIDTH);
  }

  /** Between `2^(width-1)` and `2^width` the result wraps around unless the value is exactly `-2^(width-1)`. */
  lemma SignedResultSaturates(negative: bool, t: nat, width: nat)
    requires width > 0
    ensures SignedResult(negative, t, width) == Clamp(if negative then 0 - t else t, IntMin(width), IntMax(width))
      <==> !(Pow2(width - 1) <= t < Pow2(width)) || (negative && t == Pow2(width - 1))
  {
    if Pow2(width - 1) <= t < Pow2(width) {
      WrapUpperHalf(t, width);
      WrapIsIdentity(t - Pow2(width), width);
      if t == Pow2(width - 1) {
        assert -(t - Pow2(width)) == t;
      } else {
        WrapIsIdentity(Pow2(width) - t, width);
      }
    }
  }

  /** The exponent field puts the magnitude in `[2^127, 2^128)`. */
  predicate HasExponent127(f: Format, a: nat) {
    BiasedExponent(f, a) == f.Bias() + 127
  }

  /**
   The signed routines return the value truncated toward zero and saturated to the range
   of `__int128` exactly when the exponent is not 127 or the value is `-2^127` itself.
   */
  lemma FixSignedTruncates(f: Format, a: nat)
    requires f.Valid() && f.significandBits < WIDTH
    ensures FixSigned(f, a) == Clamp(Truncated(f, a), IntMin(WIDTH), IntMax(WIDTH))
      <==> !HasExponent127(f, a) || (IsNegative(f, a) && Fraction(f, a) == 0)
  {
    FixSignedByWholePart(f, a);
    SignedResultSaturates(IsNegative(f, a), WholePart(f, a), WIDTH);
    ExponentAgainstWholePart(f, a, 127);
    ExponentAgainstWholePart(f, a, 128);
    if HasExponent127(f, a) { WholePartAtExponent127(f, a); }
  }

  lemma WholePartAtExponent127(f: Format, a: nat)
    requires f.Valid() && f.significandBits < WIDTH && HasExponent127(f, a)
    ensures WholePart(f, a) == Pow2(127) <==> Fraction(f, a) == 0
  {
    WholePartByExponent(f, a);
    TopBitAlone(f.significandBits, Fraction(f, a), 127);
  }

  lemma TopBitAlone(s: nat, r: nat, x: nat)
    requires s <= x
    ensures (Pow2(s) + r) * Pow2(x - s) == Pow2(x) <==> r == 0
  {
    Pow2Add(s, x - s);
    StrictProduct(Pow2(s), r, Pow2(x - s));
  }

  lemma StrictProduct(p: nat, r: nat, u: nat)
    requires u > 0
    ensures (p + r) * u == p * u <==> r == 0
  {
    assert (p + r) * u == p * u + r * u;
    if r > 0 { MulAtLeast(u, r); }
  }

  /** `2^127` itself, as a double, is converted to the least integer instead of the greatest. */
  lemma {:induction false} SignedOverflowWraps()
    ensures var a := Encode(Binary64, false, 1150, 0);
      && IsEncoding(Binary64, a) && HasExponent127(Binary64, a) && Truncated(Binary64, a) == Pow2(127)
      && FixSigned(Binary64, a) == IntMin(WIDTH)
  {
    var a := Encode(Binary64, false, 1150, 0);
    DoubleBias();
    ElevenBits();
    EncodeFields(Binary64, false, 1150, 0);
    WholePartAtExponent127(Binary64, a);
    FixSignedByWholePart(Binary64, a);
    TopPowerWraps(WIDTH);
  }

  lemma {:induction false} ElevenBits()
    ensures Pow2(11) == 2048
  {
  }

  lemma {:induction false} TopPowerWraps(width: nat)
    requires width > 0
    ensures SignedResult(false, Pow2(width - 1), width) == IntMin(width)
  {
    WrapUpperHalf(Pow2(width - 1), width);
    WrapIsIdentity(Pow2(width - 1) - Pow2(width), width);
  }

  // ----- The six routines -----

  /** `___fixunssfti` */
  function FixUnsSfTi(a: nat): (r: nat)
    requires IsEncoding(Binary32, a)
    ensures r == Clamp(Truncated(Binary32, a), 0, UIntMax(WIDTH))
  {
    FixUnsignedTruncates(Binary32, a);
    FixUnsigned(Binary32, a)
  }

  /** `___fixunsdfti` */
  function FixUnsDfTi(a: nat): (r: nat)
    requires IsEncoding(Binary64, a)
    ensures r == Clamp(Truncated(Binary64, a), 0, UIntMax(WIDTH))
  {
    FixUnsignedTruncates(Binary64, a);
    FixUnsigned(Binary64, a)
  }

  /** `___fixunstfti` */
  function FixUnsTfTi(a: nat): (r: nat)
    requires IsEncoding(Binary128, a)
    ensures r == Clamp(Truncated(Binary128, a), 0, UIntMax(WIDTH))
  {
    FixUnsignedTruncates(Binary128, a);
    FixUnsigned(Binary128, a)
  }

  /** `___fixsfti` */
  function FixSfTi(a: nat): (r: int)
    requires IsEncoding(Binary32, a)
    ensures r == Clamp(Truncated(Binary32, a), IntMin(WIDTH), IntMax(WIDTH))
      <==> !HasExponent127(Binary32, a) || (IsNegative(Binary32, a) && Fraction(Binary32, a) == 0)
  {
    FixSignedTruncates(Binary32, a);
    FixSigned(Binary32, a)
  }

  /** `___fixdfti` */
  function FixDfTi(a: nat): (r: int)
    requires IsEncoding(Binary64, a)
    ensures r == Clamp(Truncated(Binary64, a), IntMin(WIDTH), IntMax(WIDTH))
      <==> !HasExponent127(Binary64, a) || (IsNegative(Binary64, a) && Fraction(Binary64, a) == 0)
  {
    FixSignedTruncates(Binary64, a);
    FixSigned(Binary64, a)
  }

  /** `___fixtfti` */
  function FixTfTi(a: nat): (r: int)
    requires IsEncoding(Binary128, a)
    ensures r == Clamp(Truncated(Binary128, a), IntMin(WIDTH), IntMax(WIDTH))
      <==> !HasExponent127(Binary128, a) || (IsNegative(Binary128, a) && Fraction(Binary128, a) == 0)
  {
    FixSignedTruncates(Binary128, a);
    FixSigned(Binary128, a)
  }

  // ----- Independence of the format -----

  /** Equal values have equal integer parts and, unless that is zero, equal signs. */
  lemma {:induction false} EqualValues(f: Format, a: nat, g: Format, b: nat)
    requires f.Valid() && g.Valid() && Value(f, a) == Value(g, b)
    ensures WholePart(f, a) == WholePart(g, b)
    ensures IsNegative(f, a) == IsNegative(g, b) || WholePart(f, a) == 0
  {
    CrossMultiply(SignedMagnitude(f, a), Pow2(f.Scale()), SignedMagnitude(g, b), Pow2(g.Scale()));
    EqualScaled(Magnitude(f, a), f.Scale(), IsNegative(f, a), Magnitude(g, b), g.Scale(), IsNegative(g, b));
  }

  lemma CrossMultiply(x: int, p: int, y: int, q: int)
    requires p > 0 && q > 0 && x as real / p as real == y as real / q as real
    ensures x * q == y * p
  {
    var xr, pr, yr, qr := x as real, p as real, y as real, q as real;
    var v := xr / pr;
    assert v * pr == xr;
    assert v * qr == yr;
    assert xr * qr == v * pr * qr == yr * pr;
    assert (x * q) as real == xr * qr;
    assert (y * p) as real == yr * pr;
  }

  lemma EqualScaled(m: nat, s: nat, mNegative: bool, n: nat, t: nat, nNegative: bool)
    requires (if mNegative then 0 - m else m) * Pow2(t) == (if nNegative then 0 - n else n) * Pow2(s)
    ensures Shr(m, s) == Shr(n, t)
    ensures mNegative == nNegative || Shr(m, s) == 0
  {
    MulNonNegative(m, Pow2(t));
    MulNonNegative(n, Pow2(s));
    assert (0 - m) * Pow2(t) == 0 - m * Pow2(t);
    assert (0 - n) * Pow2(s) == 0 - n * Pow2(s);
    assert m * Pow2(t) == n * Pow2(s);
    CancelPow2(m, t, s);
    CancelPow2(n, s, t);
    if mNegative != nNegative {
      if m > 0 { MulAtLeast(Pow2(t), m); }
      LowIsIdentity(0, s);
    }
  }

  /** Converters of one signedness agree across formats on equal values, subnormal or normal. */
  lemma FixIsFormatIndependent(f: Format, a: nat, g: Format, b: nat)
    requires f.Valid() && f.significandBits < WIDTH
    requires g.Valid() && g.significandBits < WIDTH
    requires Value(f, a) == Value(g, b)
    ensures FixUnsigned(f, a) == FixUnsigned(g, b)
    ensures FixSigned(f, a) == FixSigned(g, b)
  {
    EqualValues(f, a, g, b);
    FixUnsignedTruncates(f, a);
    FixUnsignedTruncates(g, b);
    FixSignedByWholePart(f, a);
    FixSignedByWholePart(g, b);
  }
}
