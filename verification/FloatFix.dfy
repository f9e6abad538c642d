/**
 Theorems that span both directions: converting an integer to floating point and back,
 the order of the results, their normal form, and the role of the sign.
 */
module FloatFix {
  import opened Bits
  import opened Ieee754
  import opened Rounding
  import opened FloatSpec
  import opened FixTi
  import opened CorrectRounding

  /** The whole part of the converted integer is the integer rounded to the format's precision. */
  lemma FloatWholePart(f: Format, negative: bool, a: nat)
    requires Fits(f, a)
    ensures WholePart(f, FloatOf(f, negative, a)) == RoundToBits(a, f.significandBits + 1)
  {
    FloatMagnitude(f, negative, a);
    ShrOfProduct(RoundToBits(a, f.significandBits + 1), f.Scale());
  }

  /**
   Back to an unsigned integer: the half-even rounding of `a`, except that a rounding that
   carries to `2^128` saturates.
   */
  lemma UnsignedRoundTrip(f: Format, a: nat)
    requires Fits(f, a) && a < Pow2(WIDTH)
    ensures var r := RoundToBits(a, f.significandBits + 1);
      && r <= Pow2(WIDTH)
      && FixUnsigned(f, FloatOf(f, false, a)) == if r == Pow2(WIDTH) then UIntMax(WIDTH) else r
  {
    FixUnsignedTruncates(f, FloatOf(f, false, a));
    FloatWholePart(f, false, a);
    if a == 0 { ZeroFields(f); } else { FloatFields(f, false, a); }
    RoundedAtMost(a, f.significandBits + 1, WIDTH);
  }

  /**
   Back to a signed integer: the half-even rounding of the magnitude with the sign, except
   exactly when a positive magnitude rounds up to `2^127`.
   */
  lemma {:induction false} SignedRoundTrip(f: Format, negative: bool, a: nat)
    requires Fits(f, a) && f.significandBits < WIDTH
    requires if negative then 0 < a <= Pow2(WIDTH - 1) else a < Pow2(WIDTH - 1)
    ensures var r := RoundToBits(a, f.significandBits + 1);
      (FixSigned(f, FloatOf(f, negative, a)) == if negative then 0 - r else r) <==> (negative || r != Pow2(WIDTH - 1))
  {
    SignedTrip(f, negative, a);
    RoundedAtMost(a, f.significandBits + 1, WIDTH - 1);
    TopResult(negative, RoundToBits(a, f.significandBits + 1), WIDTH);
  }

  /** The same on the integer itself: for precision 53 the unsigned conversion saturates from `2^128 - 2^74` on. */
  lemma {:induction false} UnsignedSaturates(f: Format, a: nat)
    requires Fits(f, a) && f.significandBits + 1 < WIDTH && a < Pow2(WIDTH)
    ensures FixUnsigned(f, FloatOf(f, false, a)) ==
      if a >= Pow2(WIDTH) - Pow2(WIDTH - f.significandBits - 2) then UIntMax(WIDTH)
      else RoundToBits(a, f.significandBits + 1)
  {
    SaturatesFrom(f, a, WIDTH);
  }

  lemma {:induction false} SaturatesFrom(f: Format, a: nat, width: nat)
    requires Fits(f, a) && f.significandBits + 1 < width && a < Pow2(width) && width == WIDTH
    ensures FixUnsigned(f, FloatOf(f, false, a)) ==
      if a >= Pow2(width) - Pow2(width - f.significandBits - 2) then UIntMax(width)
      else RoundToBits(a, f.significandBits + 1)
  {
    UnsignedRoundTrip(f, a);
    RoundsUpExactly(a, f.significandBits + 1, width);
  }

  /** And the signed conversion fails from `2^127 - 2^73` on. */
  lemma {:induction false} SignedFails(f: Format, negative: bool, a: nat)
    requires Fits(f, a) && f.significandBits + 1 < WIDTH - 1
    requires if negative then 0 < a <= Pow2(WIDTH - 1) else a < Pow2(WIDTH - 1)
    ensures var r := RoundToBits(a, f.significandBits + 1);
      (FixSigned(f, FloatOf(f, negative, a)) == if negative then 0 - r else r)
      <==> (negative || a < Pow2(WIDTH - 1) - Pow2(WIDTH - f.significandBits - 3))
  {
    SignedRoundTrip(f, negative, a);
    if !negative { RoundsUpExactly(a, f.significandBits + 1, WIDTH - 1); }
  }

  /** For doubles, the unsigned conversion of every integer of 128 bits and back. */
  lemma {:induction false} DoubleUnsignedRoundTrip(a: nat)
    requires a < Pow2(128)
    ensures FixUnsigned(Binary64, FloatOf(Binary64, false, a)) ==
      if a >= Pow2(128) - Pow2(74) then UIntMax(128) else RoundToBits(a, 53)
  {
    DoubleBias();
    BitLengthAtMost(a, 128);
    UnsignedSaturates(Binary64, a);
  }

  /** For doubles, the signed conversion of every positive integer of 128 bits and back. */
  lemma {:induction false} DoubleSignedRoundTrip(a: nat)
    requires a < Pow2(127)
    ensures FixSigned(Binary64, FloatOf(Binary64, false, a)) == RoundToBits(a, 53) <==> a < Pow2(127) - Pow2(73)
  {
    DoubleBias();
    BitLengthAtMost(a, 127);
    SignedFails(Binary64, false, a);
  }

  lemma {:induction false} SignedTrip(f: Format, negative: bool, a: nat)
    requires Fits(f, a) && f.significandBits < WIDTH && (negative ==> a > 0)
    ensures FixSigned(f, FloatOf(f, negative, a)) ==
            SignedResult(negative, RoundToBits(a, f.significandBits + 1), WIDTH)
  {
    FixSignedByWholePart(f, FloatOf(f, negative, a));
    FloatWholePart(f, negative, a);
    if a == 0 { ZeroFields(f); } else { FloatFields(f, negative, a); }
  }

  /** The greatest signed integer comes back as the least: it is rounded up to `2^127` on the way. */
  lemma {:induction false} GreatestIntegerWraps()
    ensures FixSigned(Binary64, FloatOf(Binary64, false, IntMax(WIDTH))) == IntMin(WIDTH)
  {
    DoubleBias();
    BitLengthUnique(IntMax(WIDTH), WIDTH - 1);
    GreatestWraps(Binary64, IntMax(WIDTH));
  }

  lemma {:induction false} GreatestWraps(f: Format, a: nat)
    requires Fits(f, a) && f.significandBits + 1 < WIDTH - 1 && a == IntMax(WIDTH) > 0
    ensures FixSigned(f, FloatOf(f, false, a)) == IntMin(WIDTH)
  {
    RoundsUpExactly(a, f.significandBits + 1, WIDTH - 1);
    SignedTrip(f, false, a);
    TopPowerWraps(WIDTH);
  }

  /**
   Exactly which numbers of at most `n` bits are rounded up to `2^n`: those at least half a unit of
   the last place above the greatest number with `p` significant bits.
   */
  lemma {:induction false} RoundsUpExactly(a: nat, p: nat, n: nat)
    requires 0 < p < n && a < Pow2(n)
    ensures RoundToBits(a, p) == Pow2(n) <==> a >= Pow2(n) - Pow2(n - p - 1)
  {
    BitLengthAtMost(a, n);
    if BitLength(a) < n { ShorterStaysBelow(a, p, n); } else { FullLengthRounded(a, p, n - p); }
  }

  lemma {:induction false} ShorterStaysBelow(a: nat, p: nat, n: nat)
    requires 0 < p < n && BitLength(a) < n
    ensures RoundToBits(a, p) < Pow2(n) && a < Pow2(n) - Pow2(n - p - 1)
  {
    RoundedBelowTop(a, p);
    Pow2Monotone(BitLength(a), n - 1);
    Pow2Monotone(n - p - 1, n - 1);
    assert Pow2(n) == 2 * Pow2(n - 1);
    if a > 0 { BitLengthBracket(a); }
  }

  lemma {:induction false} FullLengthRounded(a: nat, p: nat, k: nat)
    requires p > 0 && k > 0 && BitLength(a) == p + k
    ensures RoundToBits(a, p) == Pow2(p + k) <==> a >= Pow2(p + k) - Pow2(k - 1)
  {
    FullLengthRoundsUp(a, p, k);
    Pow2Add(p, k);
    RoundedBracket(a, k, p);
    TopProduct(RoundHalfEven(a, k), Pow2(p), Pow2(k));
  }

  lemma {:induction false} FullLengthRoundsUp(a: nat, p: nat, k: nat)
    requires p > 0 && k > 0 && BitLength(a) == p + k
    ensures RoundHalfEven(a, k) == Pow2(p) <==> a >= Pow2(p + k) - Pow2(k - 1)
  {
    var q, l, t, u := Shr(a, k), Low(a, k), Pow2(p), Pow2(k);
    Pow2Add(p, k);
    SplitAt(a, k);
    PowersAreEven(p);
    BitLengthBracket(a);
    ShrAtLeast(a, k, t);
    assert u == 2 * Pow2(k - 1);
    TopOfGrid(q, t, u, l);
  }

  lemma {:induction false} PowersAreEven(k: nat)
    requires k > 0
    ensures Pow2(k) >= 2 && (Pow2(k) - 1) % 2 == 1
  {
    assert Pow2(k) == 2 * Pow2(k - 1);
  }

  /** Where a number below `t * u` lies against half a unit below it. */
  lemma TopOfGrid(q: nat, t: nat, u: nat, l: nat)
    requires q < t && l < u
    ensures 2 * (q * u + l) >= 2 * (t * u) - u <==> q == t - 1 && 2 * l >= u
  {
    assert (t - 1) * u == t * u - u;
    if q < t - 1 {
      MulMonotone(q + 1, t - 1, u);
      assert (q + 1) * u == q * u + u;
    }
  }

  lemma TopProduct(m: nat, t: nat, u: nat)
    requires m <= t && u > 0
    ensures m * u == t * u <==> m == t
  {
    if m < t {
      MulMonotone(m + 1, t, u);
      assert (m + 1) * u == m * u + u;
    }
  }

  lemma TopResult(negative: bool, r: nat, width: nat)
    requires width > 0 && r <= Pow2(width - 1)
    ensures (SignedResult(negative, r, width) == if negative then 0 - r else r)
      <==> (negative || r != Pow2(width - 1))
  {
    SignedResultSaturates(negative, r, width);
    if r == Pow2(width - 1) { WrapUpperHalf(r, width); WrapIsIdentity(r - Pow2(width), width); }
  }

  /** Rounding does not leave the closed range up to a power of two. */
  lemma RoundedAtMost(a: nat, p: nat, n: nat)
    requires p > 0 && a <= Pow2(n)
    ensures RoundToBits(a, p) <= Pow2(n)
  {
    RoundToBitsMonotone(a, Pow2(n), p);
    PowersAreExact(n, p);
  }

  lemma PowersAreExact(n: nat, p: nat)
    requires p > 0
    ensures RoundToBits(Pow2(n), p) == Pow2(n)
  {
    BitLengthUnique(Pow2(n), n + 1);
    if n + 1 > p {
      var k := n + 1 - p;
      Pow2Add(p - 1, k);
      ShrOfProduct(Pow2(p - 1), k);
    }
  }

  /** An integer that already fits the precision survives the round trip unchanged. */
  lemma ShortIntegersRoundTrip(f: Format, a: nat)
    requires Fits(f, a) && BitLength(a) <= f.significandBits + 1 && a < Pow2(WIDTH)
    ensures FixUnsigned(f, FloatOf(f, false, a)) == a
  {
    UnsignedRoundTrip(f, a);
  }

  lemma RoundHalfEvenMonotone(a: nat, b: nat, k: nat)
    requires a <= b
    ensures RoundHalfEven(a, k) <= RoundHalfEven(b, k)
  {
    ShrMonotone(a, b, k);
    SplitAt(a, k);
    SplitAt(b, k);
  }

  lemma RoundToBitsMonotone(a: nat, b: nat, p: nat)
    requires a <= b && p > 0
    ensures RoundToBits(a, p) <= RoundToBits(b, p)
  {
    var sa, sb := BitLength(a), BitLength(b);
    BitLengthMonotone(a, b);
    if sb <= p {
    } else if sa == sb {
      RoundHalfEvenMonotone(a, b, sa - p);
      MulMonotone(RoundHalfEven(a, sa - p), RoundHalfEven(b, sa - p), Pow2(sa - p));
    } else {
      RoundedBelowTop(a, p);
      RoundedAboveBottom(b, p);
      Pow2Monotone(sa, sb - 1);
    }
  }

  lemma RoundedBelowTop(a: nat, p: nat)
    requires p > 0
    ensures RoundToBits(a, p) <= Pow2(BitLength(a))
  {
    var sd := BitLength(a);
    if sd <= p {
      if a > 0 { BitLengthBracket(a); }
    } else {
      RoundedBracket(a, sd - p, p);
      Pow2Add(p, sd - p);
      MulMonotone(RoundHalfEven(a, sd - p), Pow2(p), Pow2(sd - p));
    }
  }

  lemma RoundedAboveBottom(a: nat, p: nat)
    requires p > 0 && a > 0
    ensures BitLength(a) > 0 && Pow2(BitLength(a) - 1) <= RoundToBits(a, p)
  {
    var sd := BitLength(a);
    BitLengthBracket(a);
    if sd > p {
      RoundedBracket(a, sd - p, p);
      Pow2Add(p - 1, sd - p);
      MulMonotone(Pow2(p - 1), RoundHalfEven(a, sd - p), Pow2(sd - p));
    }
  }

  /** The conversion of a signed integer. */
  function FloatOfInt(f: Format, x: int): nat {
    FloatOf(f, x < 0, if x < 0 then -x else x)
  }

  /** Conversion to floating point never reverses an order. */
  lemma FloatIsMonotone(f: Format, x: int, y: int)
    requires x <= y
    requires Fits(f, if x < 0 then -x else x) && Fits(f, if y < 0 then -y else y)
    ensures Value(f, FloatOfInt(f, x)) <= Value(f, FloatOfInt(f, y))
  {
    var p, s := f.significandBits + 1, Pow2(f.Scale());
    var a, b := if x < 0 then -x else x, if y < 0 then -y else y;
    FloatSignedMagnitude(f, x < 0, a);
    FloatSignedMagnitude(f, y < 0, b);
    MulNonNegative(RoundToBits(a, p), s);
    MulNonNegative(RoundToBits(b, p), s);
    if x >= 0 {
      RoundToBitsMonotone(a, b, p);
      MulMonotone(RoundToBits(a, p), RoundToBits(b, p), s);
    } else if y < 0 {
      RoundToBitsMonotone(b, a, p);
      MulMonotone(RoundToBits(b, p), RoundToBits(a, p), s);
    }
    QuotientOrder(SignedMagnitude(f, FloatOfInt(f, x)), SignedMagnitude(f, FloatOfInt(f, y)), s);
  }

  /** The signed conversion is the unsigned conversion of the magnitude with the sign bit added. */
  lemma {:induction false} SignIsJoined(f: Format, a: nat)
    requires a > 0
    ensures FloatOf(f, true, a) == FloatOf(f, false, a) + Pow2(f.exponentBits + f.significandBits)
  {
    Pow2Add(f.exponentBits, f.significandBits);
    JoinedSum(Pow2(f.exponentBits), Exponent(a, f.significandBits + 1) + f.Bias(), Pow2(f.significandBits));
  }

  lemma JoinedSum(e: nat, x: nat, s: nat)
    ensures (1 * e + x) * s == (0 * e + x) * s + e * s
  {
  }

  /** Results for 128-bit integers are normal numbers with a biased exponent in 1023..1151. */
  lemma DoubleIsNormalised(negative: bool, a: nat)
    requires 0 < a < Pow2(128)
    ensures var w := FloatOf(Binary64, negative, a);
      && IsFinite(Binary64, w)
      && 1023 <= BiasedExponent(Binary64, w) <= 1151
      && Pow2(52) + Fraction(Binary64, w) == Significand(a, 53) < Pow2(53)
  {
    DoubleBias();
    BitLengthAtMost(a, 128);
    BitLengthBracket(a);
    FloatFields(Binary64, negative, a);
    SignificandIsNormal(a, 53);
  }
}
