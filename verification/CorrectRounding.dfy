/**
 The conversion to floating point is correctly rounded in the sense of IEEE 754-2019,
 section 4.3.1 (roundTiesToEven): compared with every finite encoding of the format, the
 result is nearest to the integer, and it has an even significand when another value is
 equally near. It is also monotone.
 */
module CorrectRounding {
  import opened Bits
  import opened Ieee754
  import opened Rounding
  import opened FloatSpec

  function Abs(x: real): real {
    if x < 0.0 then -x else x
  }

  /** The distance between the value of an encoding and `a`. */
  function Error(f: Format, w: nat, a: int): real
    requires f.Valid()
  {
    Abs(Value(f, w) - a as real)
  }

  /** `w` is the roundTiesToEven result for the integer `a`. */
  ghost predicate IsNearestEven(f: Format, w: nat, a: int)
    requires f.Valid()
  {
    && IsEncoding(f, w) && IsFinite(f, w)
    && forall v: nat :: IsEncoding(f, v) && IsFinite(f, v) ==>
         && Error(f, w, a) <= Error(f, v, a)
         && (Error(f, w, a) == Error(f, v, a) && Value(f, v) != Value(f, w) ==> Fraction(f, w) % 2 == 0)
  }

  // ----- The values of a format form a grid -----

  /** Every value of at least `2^(sd-1)` is a multiple of the spacing at that size. */
  lemma {:induction false} ValuesAreOnGrid(f: Format, v: nat, sd: nat) returns (n: nat)
    requires f.Valid() && sd > f.significandBits + 1
    requires Magnitude(f, v) >= Pow2(sd - 1) * Pow2(f.Scale())
    ensures Magnitude(f, v) == n * Pow2(sd - (f.significandBits + 1)) * Pow2(f.Scale())
  {
    var s, e, scale := f.significandBits, BiasedExponent(f, v), f.Scale();
    var p, k := s + 1, sd - (s + 1);
    Pow2Add(sd - 1, scale);
    SplitAt(v, s);
    n := 0;
    if e == 0 {
      Pow2Monotone(s, sd - 1 + scale);
    } else {
      var m := Pow2(s) + Fraction(f, v);
      DoubleBracket(Pow2(s), m, Pow2(e - 1));
      Pow2Add(s, e - 1);
      if e - 1 < k + scale {
        Pow2Monotone(s + e, sd - 1 + scale);
      } else {
        n := m * Pow2(e - 1 - k - scale);
        ShiftTwice(m, e - 1 - k - scale, k);
        ShiftTwice(m, e - 1 - scale, scale);
        assert e - 1 - k - scale + k == e - 1 - scale && e - 1 - scale + scale == e - 1;
      }
    }
  }

  // ----- Nearest, in exact integer units -----

  /** Against a point of the grid. */
  lemma {:induction false} NearestOnGrid(a: nat, p: nat, n: nat, s: nat)
    requires p > 1 && s > 0 && BitLength(a) > p
    ensures var r, x := RoundToBits(a, p) * s, n * Pow2(BitLength(a) - p) * s;
      && Dist(a * s, r) <= Dist(a * s, x)
      && (Dist(a * s, r) == Dist(a * s, x) && x != r ==> Significand(a, p) % 2 == 0)
  {
    NearestScaledMultiple(a, BitLength(a) - p, n, s);
    assert Pow2(p - 1) % 2 == 0;
  }

  /** Against anything below the power of two that starts the range of `a`. */
  lemma NearestBelowGrid(a: nat, p: nat, x: int, s: nat)
    requires p > 1 && s > 0 && BitLength(a) > p && x < Pow2(BitLength(a) - 1) * s
    ensures Dist(a * s, RoundToBits(a, p) * s) < Dist(a * s, x)
  {
    NearestToPower(a, p, s);
    BitLengthBracket(a);
    MulMonotone(Pow2(BitLength(a) - 1), a, s);
    Farther(a * s, Pow2(BitLength(a) - 1) * s, x);
  }

  lemma NearestToPower(a: nat, p: nat, s: nat)
    requires p > 1 && s > 0 && BitLength(a) > p
    ensures Dist(a * s, RoundToBits(a, p) * s) <= Dist(a * s, Pow2(BitLength(a) - 1) * s)
  {
    NearestOnGrid(a, p, Pow2(p - 1), s);
    Pow2Add(p - 1, BitLength(a) - p);
  }

  lemma Farther(a: int, y: int, x: int)
    requires x < y <= a
    ensures Dist(a, y) < Dist(a, x)
  {
  }

  /** Against `x`, the magnitude of some encoding or its negation. */
  lemma {:induction false} NearestInUnits(f: Format, a: nat, v: nat, x: int)
    requires f.Valid() && (x == Magnitude(f, v) || x == 0 - Magnitude(f, v))
    ensures var p, s := f.significandBits + 1, Pow2(f.Scale());
      var r := RoundToBits(a, p) * s;
      && Dist(a * s, r) <= Dist(a * s, x)
      && (Dist(a * s, r) == Dist(a * s, x) && x != r ==> a > 0 && Significand(a, p) % 2 == 0)
  {
    var p, s := f.significandBits + 1, Pow2(f.Scale());
    if BitLength(a) <= p {
    } else if x >= Pow2(BitLength(a) - 1) * s {
      MulNonNegative(Pow2(BitLength(a) - 1), s);
      var n := ValuesAreOnGrid(f, v, BitLength(a));
      NearestOnGrid(a, p, n, s);
    } else {
      NearestBelowGrid(a, p, x, s);
    }
  }

  // ----- Nearest, in real numbers -----

  lemma ErrorInUnits(f: Format, w: nat, a: int)
    requires f.Valid()
    ensures Error(f, w, a) == Dist(a * Pow2(f.Scale()), SignedMagnitude(f, w)) as real / Pow2(f.Scale()) as real
  {
    AbsQuotient(SignedMagnitude(f, w), a, Pow2(f.Scale()));
  }

  lemma AbsQuotient(m: int, a: int, s: int)
    requires s > 0
    ensures Abs(m as real / s as real - a as real) == Dist(a * s, m) as real / s as real
  {
    var mr, ar, sr := m as real, a as real, s as real;
    assert (a * s) as real == ar * sr;
    assert mr / sr - ar == (mr - ar * sr) / sr by {
      assert (ar * sr) / sr == ar;
    }
    var d := m - a * s;
    assert d as real == mr - ar * sr;
    QuotientSign(d as real, sr);
    assert (-(d as real)) / sr == -(d as real / sr);
  }

  lemma QuotientSign(x: real, s: real)
    requires s > 0.0
    ensures x / s < 0.0 <==> x < 0.0
  {
    var q := x / s;
    assert q * s == x;
    if q < 0.0 { NegativeProduct(q, s); } else { RealMulMonotone(0.0, q, s); }
  }

  lemma NegativeProduct(q: real, s: real)
    requires q < 0.0 && s > 0.0
    ensures q * s < 0.0
  {
  }

  lemma QuotientOrder(x: int, y: int, s: int)
    requires s > 0
    ensures x <= y <==> x as real / s as real <= y as real / s as real
    ensures x == y <==> x as real / s as real == y as real / s as real
  {
    var d := y as real - x as real;
    assert d / s as real == y as real / s as real - x as real / s as real;
    QuotientSign(d, s as real);
    QuotientSign(-d, s as real);
    assert (-d) / s as real == -(d / s as real);
  }

  /** The signed magnitude of the result. */
  lemma FloatSignedMagnitude(f: Format, negative: bool, a: nat)
    requires Fits(f, a)
    ensures var r := RoundToBits(a, f.significandBits + 1) * Pow2(f.Scale());
      SignedMagnitude(f, FloatOf(f, negative, a)) == if negative then 0 - r else r
  {
    FloatMagnitude(f, negative, a);
    if a == 0 { ZeroFields(f); } else { FloatFields(f, negative, a); }
  }

  /** Correct rounding of every integer whose magnitude fits, of either sign. */
  lemma FloatIsCorrectlyRounded(f: Format, negative: bool, a: nat)
    requires Fits(f, a)
    ensures IsNearestEven(f, FloatOf(f, negative, a), if negative then 0 - a else a)
  {
    var w, x := FloatOf(f, negative, a), if negative then 0 - a else a;
    if a == 0 { ZeroFields(f); BiasIsPositive(f); } else { FloatFields(f, negative, a); }
    forall v: nat | IsEncoding(f, v) && IsFinite(f, v)
      ensures Error(f, w, x) <= Error(f, v, x)
      ensures Error(f, w, x) == Error(f, v, x) && Value(f, v) != Value(f, w) ==> Fraction(f, w) % 2 == 0
    {
      NearerThan(f, negative, a, v);
    }
  }

  lemma NearerThan(f: Format, negative: bool, a: nat, v: nat)
    requires Fits(f, a)
    ensures var w, x := FloatOf(f, negative, a), if negative then 0 - a else a;
      && Error(f, w, x) <= Error(f, v, x)
      && (Error(f, w, x) == Error(f, v, x) && Value(f, v) != Value(f, w) ==> Fraction(f, w) % 2 == 0)
  {
    var w, x, s := FloatOf(f, negative, a), if negative then 0 - a else a, Pow2(f.Scale());
    var m, n := SignedMagnitude(f, w), SignedMagnitude(f, v);
    NearerInUnits(f, negative, a, v);
    ErrorInUnits(f, w, x);
    ErrorInUnits(f, v, x);
    QuotientOrder(Dist(x * s, m), Dist(x * s, n), s);
    QuotientOrder(m, n, s);
  }

  lemma {:induction false} NearerInUnits(f: Format, negative: bool, a: nat, v: nat)
    requires Fits(f, a)
    ensures var w, x, s := FloatOf(f, negative, a), if negative then 0 - a else a, Pow2(f.Scale());
      var m, n := SignedMagnitude(f, w), SignedMagnitude(f, v);
      && Dist(x * s, m) <= Dist(x * s, n)
      && (Dist(x * s, m) == Dist(x * s, n) && m != n ==> Fraction(f, w) % 2 == 0)
  {
    var s, n := Pow2(f.Scale()), SignedMagnitude(f, v);
    var r := RoundToBits(a, f.significandBits + 1) * s;
    FloatSignedMagnitude(f, negative, a);
    NearestInUnits(f, a, v, Mirror(negative, n));
    MirrorProduct(negative, a, s);
    MirrorDist(negative, a * s, r, n);
    if a > 0 && Significand(a, f.significandBits + 1) % 2 == 0 {
      EvenFraction(f, negative, a);
    }
  }

  function Mirror(negative: bool, x: int): int {
    if negative then 0 - x else x
  }

  lemma MirrorProduct(negative: bool, a: int, s: int)
    ensures Mirror(negative, a) * s == Mirror(negative, a * s)
  {
  }

  lemma MirrorDist(negative: bool, c: int, r: int, n: int)
    ensures Dist(Mirror(negative, c), Mirror(negative, r)) == Dist(c, r)
    ensures Dist(Mirror(negative, c), n) == Dist(c, Mirror(negative, n))
    ensures Mirror(negative, n) == r <==> n == Mirror(negative, r)
  {
  }

  lemma EvenFraction(f: Format, negative: bool, a: nat)
    requires a > 0 && Fits(f, a) && Significand(a, f.significandBits + 1) % 2 == 0
    ensures Fraction(f, FloatOf(f, negative, a)) % 2 == 0
  {
    FloatFields(f, negative, a);
    EvenAddend(f.significandBits, Fraction(f, FloatOf(f, negative, a)));
  }

  lemma EvenAddend(n: nat, x: nat)
    requires n > 0 && (Pow2(n) + x) % 2 == 0
    ensures x % 2 == 0
  {
  }
}
