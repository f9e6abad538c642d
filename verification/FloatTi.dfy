/**
 Conversion of 128-bit integers to binary64, `___floatuntidf` and `___floattidf`: methods
 that follow the C text step by step, proved to compute `FloatOf` and so to round correctly.
 */
module FloatTi {
  import opened Bits
  import opened Ieee754
  import opened Rounding
  import opened FloatSpec
  import opened CorrectRounding

  // ----- Counting leading zeros -----

  /** `__builtin_clzll` on a word of `h` bits, undefined for zero. */
  function ClzWord(x: nat, h: nat): nat
    requires 0 < x < Pow2(h)
  {
    BitLengthAtMost(x, h);
    h - BitLength(x)
  }

  /** The half of `a` that decides: the high one unless it is zero, chosen by the mask `f`. */
  function SelectedHalf(a: nat, h: nat): nat {
    var f := HighIsZeroMask(a, h);
    Or(And(Shr(a, h), Xor(f, Pow2(h) - 1)), And(Low(a, h), f))
  }

  /** `-(x.s.high == 0)` in a word of `h` bits. */
  function HighIsZeroMask(a: nat, h: nat): nat {
    if Shr(a, h) == 0 then Pow2(h) - 1 else 0
  }

  /** The branch-free `__clzti2`, for a double word of two times `h = 2^t` bits and `int` of `i` bits. */
  function ClzDouble(a: nat, t: nat, i: nat): (r: nat)
    requires 0 < a < Pow2(2 * Pow2(t)) && t < i <= Pow2(t)
    ensures r == 2 * Pow2(t) - BitLength(a)
  {
    var h := Pow2(t);
    SelectedHalfLength(a, h);
    SelectedOffset(a, t, i);
    ClzWord(SelectedHalf(a, h), h) + And(Low(HighIsZeroMask(a, h), i), h)
  }

  /** `__clzti2`: two words of 64 bits, `int32_t` for the offset. */
  function ClzTi2(a: nat): (r: nat)
    requires 0 < a < Pow2(128)
    ensures r == 128 - BitLength(a)
    ensures 0 <= r < 128 && Pow2(127 - r) <= a < Pow2(128 - r)
  {
    LeadingZeros(a, 128);
    SixtyFour();
    ClzDouble(a, 6, 32)
  }

  lemma {:induction false} SixtyFour()
    ensures Pow2(6) == 64
  {
  }

  lemma {:induction false} LeadingZeros(a: nat, n: nat)
    requires 0 < a < Pow2(n)
    ensures 0 < BitLength(a) <= n && Pow2(BitLength(a) - 1) <= a < Pow2(BitLength(a))
  {
    BitLengthBracket(a);
    BitLengthAtMost(a, n);
  }

  lemma {:induction false} SelectedHalfLength(a: nat, h: nat)
    requires 0 < a < Pow2(2 * h)
    ensures 0 < SelectedHalf(a, h) < Pow2(h)
    ensures BitLength(SelectedHalf(a, h)) == if Shr(a, h) == 0 then BitLength(a) else BitLength(a) - h
  {
    SplitAt(a, h);
    Pow2Add(h, h);
    ShrAtLeast(a, h, Pow2(h));
    if Shr(a, h) == 0 {
      SelectLow(a, h);
    } else {
      SelectHigh(a, h);
      BitLengthOfShr(a, h);
    }
  }

  lemma {:induction false} SelectLow(a: nat, h: nat)
    requires Shr(a, h) == 0
    ensures SelectedHalf(a, h) == Low(a, h)
  {
    SplitAt(a, h);
    XorAllOnes(Pow2(h) - 1, h);
    AndLowMask(Low(a, h), h);
    LowIsIdentity(Low(a, h), h);
  }

  lemma {:induction false} SelectHigh(a: nat, h: nat)
    requires 0 < Shr(a, h) < Pow2(h)
    ensures SelectedHalf(a, h) == Shr(a, h)
  {
    XorAllOnes(0, h);
    AndLowMask(Shr(a, h), h);
    LowIsIdentity(Shr(a, h), h);
  }

  lemma SelectedOffset(a: nat, t: nat, i: nat)
    requires t < i <= Pow2(t)
    ensures And(Low(HighIsZeroMask(a, Pow2(t)), i), Pow2(t)) == if Shr(a, Pow2(t)) == 0 then Pow2(t) else 0
  {
    if Shr(a, Pow2(t)) == 0 {
      BitOfAllOnes(Pow2(t), i, t);
    } else {
      LowIsIdentity(0, i);
    }
  }

  /** Any bit of an all-ones word, read after a narrowing conversion to `i` bits. */
  lemma BitOfAllOnes(width: nat, i: nat, t: nat)
    requires t < i <= width
    ensures And(Low(Pow2(width) - 1, i), Pow2(t)) == Pow2(t)
  {
    LowOfAllOnes(width, i);
    AndBit(Pow2(i) - 1, t);
    ShrAllOnes(i, t);
    assert Pow2(i - t) == 2 * Pow2(i - t - 1);
  }

  lemma LowOfAllOnes(n: nat, k: nat)
    requires k <= n
    ensures Low(Pow2(n) - 1, k) == Pow2(k) - 1
    decreases k
  {
    if k != 0 {
      assert (Pow2(n) - 1) / 2 == Pow2(n - 1) - 1 && (Pow2(n) - 1) % 2 == 1;
      LowOfAllOnes(n - 1, k - 1);
    }
  }

  // ----- Rounding -----

  /** Bring `input` to `p + 2` bits, the last one sticky, so that the two extra bits decide the rounding. */
  method Align(input: nat, sd: nat, width: nat, p: nat) returns (a: nat)
    requires 0 < input < Pow2(width) && sd == BitLength(input)
    requires 0 < p < sd && p + 3 <= width
    ensures Finish(a) == RoundHalfEven(input, sd - p)
  {
    BitLengthBracket(input);
    BitLengthAtMost(input, width);
    a := input;
    if sd == p + 1 {
      a := Shl(a, 1, width);
      DoublingFits(input, p + 2, width);
      DoubledRounds(input);
    } else if sd == p + 2 {
      FinishRounds(a);
    } else {
      ShrAllOnes(width, width + p + 2 - sd);
      a := Or(Shr(a, sd - (p + 2)), FromBool(And(a, Shr(Pow2(width) - 1, width + p + 2 - sd)) != 0));
      SqueezeRounds(input, sd - (p + 2));
      FinishRounds(a);
    }
  }

  /**
   The body both routines share: `a` has `sd` significant bits in a type of `width` bits and
   is rounded to `p` bits in place, with its exponent.
   */
  method RoundInPlace(input: nat, sd: nat, width: nat, p: nat) returns (a: nat, e: nat)
    requires 0 < input < Pow2(width) && sd == BitLength(input)
    requires 0 < p && p + 3 <= width
    ensures a == Significand(input, p) && e == Exponent(input, p)
  {
    a := input;
    e := sd - 1;
    if sd > p {
      a := Align(input, sd, width, p);
      RoundedBracket(input, sd - p, p);
      FinishFits(a, p, width);
      a := Or(a, FromBool(And(a, 4) != 0));
      a := Low(a + 1, width);
      a := Shr(a, 2);
      CarryBit(a, p, width);
      if And(a, Shl(1, p, width)) != 0 {
        a := Shr(a, 1);
        e := e + 1;
      }
    } else {
      a := Shl(a, p - sd, width);
      SignificandIsNormal(input, p);
      Pow2Monotone(p, width);
      LowIsIdentity(Significand(input, p), width);
    }
  }

  lemma DoublingFits(a: nat, n: nat, width: nat)
    requires 0 < n <= width && a < Pow2(n - 1)
    ensures Shl(a, 1, width) == 2 * a
  {
    Pow2Monotone(n, width);
    LowIsIdentity(2 * a, width);
  }

  /** A result of `Finish` that small comes from a sum that does not overflow. */
  lemma FinishFits(t: nat, p: nat, width: nat)
    requires Finish(t) <= Pow2(p) && p + 3 <= width
    ensures var u := Or(t, FromBool(And(t, 4) != 0)) + 1; Low(u, width) == u
  {
    var u := Or(t, FromBool(And(t, 4) != 0)) + 1;
    ShrIsDiv(u, 2);
    assert Pow2(2) == 4 && Pow2(p + 3) == 2 * Pow2(p + 2) == 4 * Pow2(p + 1) == 8 * Pow2(p);
    Pow2Monotone(p + 3, width);
    LowIsIdentity(u, width);
  }

  /** The test for a carry out of the mantissa. */
  lemma CarryBit(a: nat, p: nat, width: nat)
    requires 0 < p < width && Pow2(p - 1) <= a <= Pow2(p)
    ensures And(a, Shl(1, p, width)) != 0 <==> a == Pow2(p)
    ensures a == Pow2(p) ==> Shr(a, 1) == Pow2(p - 1)
  {
    Pow2StrictlyMonotone(p, width);
    LowIsIdentity(Pow2(p), width);
    AndBit(a, p);
    if a == Pow2(p) {
      ShrOfProduct(1, p);
      assert Shr(a, 1) == a / 2;
    } else {
      LowIsIdentity(a, p);
    }
  }

  // ----- Packing -----

  /** The high word of a double: sign, exponent, and the top `hb` bits of the fraction. */
  function PackHigh(signBits: nat, exponent: nat, a: nat, hb: nat, lb: nat): nat {
    Or(Or(signBits, exponent * Pow2(hb)), And(Low(Shr(a, lb), lb), Pow2(hb) - 1))
  }

  /** Sign, exponent and fraction share no bit, so or-ing them is adding them. */
  lemma {:induction false} HighFieldsDoNotOverlap(n: nat, exponent: nat, eb: nat, a: nat, hb: nat, lb: nat)
    requires exponent < Pow2(eb) && hb <= lb
    ensures PackHigh(n * Pow2(eb + hb), exponent, a, hb, lb) ==
            (n * Pow2(eb) + exponent) * Pow2(hb) + Low(Shr(a, lb), hb)
  {
    SignAndExponent(n, exponent, eb, hb);
    HighFraction(Shr(a, lb), hb, lb);
    OrBelow(n * Pow2(eb) + exponent, Shr(a, lb), hb);
  }

  lemma HighFraction(x: nat, hb: nat, lb: nat)
    requires hb <= lb
    ensures And(Low(x, lb), Pow2(hb) - 1) == Low(x, hb)
  {
    AndLowMask(Low(x, lb), hb);
    FieldOfLow(x, hb, lb - hb);
  }

  lemma OrBelow(top: nat, x: nat, hb: nat)
    ensures Or(top * Pow2(hb), Low(x, hb)) == top * Pow2(hb) + Low(x, hb)
  {
    SplitAt(x, hb);
    ShrOfProduct(top, hb);
    OrDisjoint(top * Pow2(hb), hb, Low(x, hb));
  }

  lemma SignAndExponent(n: nat, exponent: nat, eb: nat, hb: nat)
    requires exponent < Pow2(eb)
    ensures Or(n * Pow2(eb + hb), exponent * Pow2(hb)) == (n * Pow2(eb) + exponent) * Pow2(hb)
  {
    ShrOfProduct(n, eb + hb);
    Pow2Add(eb, hb);
    ProductBelow(exponent, Pow2(eb), Pow2(hb));
    OrDisjoint(n * Pow2(eb + hb), eb + hb, exponent * Pow2(hb));
    Distribute(n, Pow2(eb), exponent, Pow2(hb));
  }

  /** High and low word together spell the encoding. */
  lemma PackedWords(n: nat, exponent: nat, eb: nat, a: nat, hb: nat, lb: nat)
    requires exponent < Pow2(eb) && hb <= lb
    ensures PackHigh(n * Pow2(eb + hb), exponent, a, hb, lb) * Pow2(lb) + Low(a, lb) ==
            (n * Pow2(eb) + exponent) * Pow2(hb + lb) + Low(a, lb + hb)
  {
    HighFieldsDoNotOverlap(n, exponent, eb, a, hb, lb);
    ConcatWords(n * Pow2(eb) + exponent, a, hb, lb);
  }

  lemma ConcatWords(top: nat, a: nat, hb: nat, lb: nat)
    ensures (top * Pow2(hb) + Low(Shr(a, lb), hb)) * Pow2(lb) + Low(a, lb) == top * Pow2(hb + lb) + Low(a, lb + hb)
  {
    LowConcat(a, lb, hb);
    ShiftTwice(top, hb, lb);
    Distribute(1, top * Pow2(hb), Low(Shr(a, lb), hb), Pow2(lb));
  }

  lemma Distribute(n: nat, x: nat, y: nat, s: nat)
    ensures n * (x * s) + y * s == (n * x + y) * s
  {
    assert n * (x * s) == (n * x) * s;
  }

  /** `fb.u.s.high` and `fb.u.s.low` read as one encoding. */
  function PackWords(signBits: nat, exponent: nat, a: nat, hb: nat, lb: nat): nat {
    PackHigh(signBits, exponent, a, hb, lb) * Pow2(lb) + Low(a, lb)
  }

  /** Packing the rounded significand gives the encoding that `FloatOf` specifies. */
  lemma {:induction false} PackedIsFloat(f: Format, negative: bool, a: nat, hb: nat, lb: nat)
    requires a > 0 && Fits(f, a) && hb <= lb && f.significandBits == lb + hb
    ensures var p := f.significandBits + 1;
      var m, x, n := Significand(a, p), Exponent(a, p) + f.Bias(), FromBool(negative);
      PackWords(n * Pow2(f.exponentBits + hb), x, m, hb, lb) == FloatOf(f, negative, a)
  {
    var p := f.significandBits + 1;
    var m, x, n := Significand(a, p), Exponent(a, p) + f.Bias(), FromBool(negative);
    SignificandIsNormal(a, p);
    ExponentFits(f, a);
    PackedWords(n, x, f.exponentBits, m, hb, lb);
    SplitUnique(m, p - 1, 1, m - Pow2(p - 1));
  }

  // ----- The two routines -----

  /**
   From the absolute value on: round it, then pack it with the sign taken from the smeared
   sign `s`. `hb` and `lb` are the fraction bits of the high word and the width of the words.
   */
  method RoundAndPack(f: Format, negative: bool, s: nat, a0: nat, sd: nat, width: nat, hb: nat, lb: nat)
    returns (w: nat)
    requires 0 < a0 < Pow2(width) && sd == BitLength(a0) && Fits(f, a0)
    requires f.significandBits + 4 <= width && hb <= lb <= width
    requires f.significandBits == lb + hb && f.exponentBits + hb == lb - 1
    requires s == if negative then Pow2(width) - 1 else 0
    ensures w == FloatOf(f, negative, a0)
  {
    var a, e := RoundInPlace(a0, sd, width, f.significandBits + 1);
    w := PackWords(And(Low(s, lb), Pow2(lb - 1)), e + f.Bias(), a, hb, lb);
    if negative { BitOfAllOnes(width, lb, lb - 1); } else { LowIsIdentity(0, lb); }
    PackedIsFloat(f, negative, a0, hb, lb);
  }

  lemma DoubleIsNearest(x: int, n: nat)
    requires BitLength(n) <= 128 && (x == n || x == 0 - n)
    ensures IsNearestEven(Binary64, FloatOf(Binary64, x < 0, n), x)
  {
    DoubleBias();
    FloatIsCorrectlyRounded(Binary64, x < 0, n);
  }

  /** `___floatuntidf` */
  method FloatUnTiDf(a0: nat) returns (w: nat)
    requires a0 < Pow2(128)
    ensures w == FloatOf(Binary64, false, a0)
    ensures IsNearestEven(Binary64, w, a0)
  {
    BitLengthAtMost(a0, 128);
    DoubleIsNearest(a0, a0);
    if a0 == 0 {
      return 0;
    }
    var sd := 128 - ClzTi2(a0);
    DoubleBias();
    w := RoundAndPack(Binary64, false, 0, a0, sd, 128, 20, 32);
  }

  /** The bit pattern of a signed integer of `width` bits. */
  function Pattern(x: int, width: nat): nat
    requires width > 0 && 0 - Pow2(width - 1) <= x < Pow2(width - 1)
  {
    if x < 0 then x + Pow2(width) else x
  }

  /** `x >> (width - 1)` on a signed operand, as a pattern: the sign smeared over the word. */
  function SignSmear(u: nat, width: nat): nat
    requires width > 0
  {
    if Shr(u, width - 1) % 2 == 1 then Pow2(width) - 1 else 0
  }

  /** `(a ^ s) - s` is the absolute value, the minimum included, as an unsigned pattern. */
  lemma StripSign(x: int, width: nat)
    requires width > 0 && 0 - Pow2(width - 1) <= x < Pow2(width - 1)
    ensures var u := Pattern(x, width);
      var s := SignSmear(u, width);
      && s == (if x < 0 then Pow2(width) - 1 else 0)
      && Low(Xor(u, s) + Pow2(width) - s, width) == AbsInt(x)
  {
    var u := Pattern(x, width);
    if x < 0 {
      SplitUnique(u, width - 1, 1, u - Pow2(width - 1));
      XorAllOnes(u, width);
      LowIsIdentity(-x, width);
    } else {
      LowIsIdentity(u, width - 1);
      assert Xor(u, 0) == u;
      SplitUnique(u + Pow2(width), width, 1, u);
    }
  }

  function AbsInt(x: int): nat {
    if x < 0 then -x else x
  }

  /** The statements that set `s` and strip the sign from `a`. */
  method TakeAbsolute(x: int, width: nat) returns (a: nat, s: nat)
    requires width > 0 && 0 - Pow2(width - 1) <= x < Pow2(width - 1)
    ensures a == AbsInt(x) < Pow2(width)
    ensures s == if x < 0 then Pow2(width) - 1 else 0
  {
    a := Pattern(x, width);
    s := SignSmear(a, width);
    StripSign(x, width);
    a := Low(Xor(a, s) + Pow2(width) - s, width);
  }

  /** `___floattidf` */
  method FloatTiDf(x: int) returns (w: nat)
    requires 0 - Pow2(127) <= x < Pow2(127)
    ensures w == FloatOf(Binary64, x < 0, AbsInt(x))
    ensures IsNearestEven(Binary64, w, x)
  {
    BitLengthAtMost(AbsInt(x), 128);
    DoubleIsNearest(x, AbsInt(x));
    if x == 0 {
      return 0;
    }
    var a0, s := TakeAbsolute(x, 128);
    var sd := 128 - ClzTi2(a0);
    DoubleBias();
    w := RoundAndPack(Binary64, x < 0, s, a0, sd, 128, 20, 32);
  }
}
