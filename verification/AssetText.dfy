/**
 What asset texts mean: parsing is exact on every well-formed text, succeeds exactly within
 the permitted range, and undoes printing.
 */
module AssetText {
  import opened Bits
  import opened Decimal
  import opened Symbol
  import opened Asset
  import opened Trimming

  function Sign(negative: bool): string {
    if negative then "-" else ""
  }

  /** `[-]digits[.digits]` */
  function AmountText(negative: bool, whole: string, fraction: string): string {
    Sign(negative) + whole + if fraction == "" then "" else "." + fraction
  }

  /** `[-]digits[.digits] NAME` */
  function AssetText(negative: bool, whole: string, fraction: string, name: string): string {
    AmountText(negative, whole, fraction) + " " + name
  }

  predicate WellFormed(whole: string, fraction: string, name: string) {
    && AllDigits(whole) && whole != "" && AllDigits(fraction) && |fraction| <= INT64_MAX
    && AllUpper(name) && 0 < |name| <= MAX_NAME
  }

  function Signed(negative: bool, n: int): int {
    if negative then 0 - n else n
  }

  lemma TrimIsIdentity(s: string)
    requires s != "" && !IsSpace(s[0]) && !IsSpace(s[|s| - 1])
    ensures Trim(s) == s
  {
  }

  /** Reading signed digits. */
  lemma {:induction false} ToInt64OfDigits(negative: bool, digits: string)
    requires AllDigits(digits) && digits != ""
    ensures ToInt64(Sign(negative) + digits) == InRange(Signed(negative, Parse(digits)))
  {
    if negative {
      ToInt64OfMinus(digits);
    } else {
      assert Sign(negative) + digits == digits;
      ToInt64OfPlain(digits);
    }
  }

  lemma {:induction false} ToInt64OfPlain(digits: string)
    requires AllDigits(digits) && digits != ""
    ensures ToInt64(digits) == InRange(Parse(digits))
  {
    CStringIsIdentity(digits);
    assert IsDigit(digits[0]);
  }

  lemma {:induction false} ToInt64OfMinus(digits: string)
    requires AllDigits(digits) && digits != ""
    ensures ToInt64("-" + digits) == InRange(0 - Parse(digits))
  {
    var s := "-" + digits;
    CStringIsIdentity(s);
    assert s[0] == '-' && s[1..] == digits;
  }

  /** The symbol made of a digit count and a name; the count is taken modulo 256. */
  lemma {:induction false} SymbolOfCount(n: nat, name: string)
    requires n <= INT64_MAX && AllUpper(name)
    ensures SymbolFromString(Print(n) + "," + name) ==
            if n % 256 > MAX_PRECISION then Err(PrecisionTooLarge) else SymbolValue(n % 256, name)
  {
    PrintDigits(n);
    ParsePrint(n);
    SymbolSplits(Print(n), name);
    CStringIsIdentity(name);
    ToInt64OfPlain(Print(n));
  }

  lemma {:induction false} SymbolSplits(digits: string, name: string)
    requires AllDigits(digits) && digits != "" && (name == "" || !IsSpace(name[|name| - 1]))
    ensures SymbolFromString(digits + "," + name) == SymbolOf(ToInt64(digits), CString(name))
  {
    var s := digits + "," + name;
    assert s[0] == digits[0];
    assert s[|s| - 1] == if name == "" then ',' else name[|name| - 1];
    TrimIsIdentity(s);
    FindFirst(digits, ',', name);
    assert s == digits + [','] + name;
    assert s[..|digits|] == digits && s[|digits| + 1..] == name;
  }

  /** The value a well-formed amount stands for, in units of the last of `p` decimals. */
  function Units(whole: string, fraction: string, p: nat): nat
    requires AllDigits(whole) && AllDigits(fraction)
  {
    MulNonNegative(Parse(whole), Pow10(p));
    Parse(whole) * Pow10(p) + Parse(fraction)
  }

  /**
   What becomes of the whole part `w` and the fraction `f` that together are worth `v`: each must be a
   number of 64 bits, and so must the value.
   */
  function Within64Bits(negative: bool, w: nat, f: nat, v: nat): Result<int> {
    if f > INT64_MAX || (if negative then w > 0 - INT64_MIN else w > INT64_MAX) then Err(ParseError)
    else if negative && v > 0 - INT64_MIN then Err(Underflow)
    else if !negative && v > INT64_MAX then Err(Overflow)
    else Ok(Signed(negative, v))
  }

  /** The checked steps give the exact sum, or fail when it is out of range. */
  lemma {:induction false} CombineIsExact(negative: bool, w: nat, f: nat, p: nat)
    requires p > 0
    requires INT64_MIN <= Signed(negative, w) <= INT64_MAX && f <= INT64_MAX
    ensures w * p + f >= 0
    ensures Combine(Signed(negative, w), f, negative, p) == Within64Bits(negative, w, f, w * p + f)
  {
    MulNonNegative(w, p);
    assert (0 - w) * p == 0 - w * p;
  }

  /** A well-formed amount stands for its value, or fails when a number is out of range. */
  lemma {:induction false} AmountIsExact(negative: bool, whole: string, fraction: string, p: nat)
    requires AllDigits(whole) && whole != "" && AllDigits(fraction)
    ensures var text := AmountText(negative, whole, fraction);
      && Find(text, '.') == |Sign(negative) + whole|
      && ParseAmount(text, Find(text, '.'), Pow10(p))
         == Within64Bits(negative, Parse(whole), Parse(fraction), Units(whole, fraction, p))
  {
    if fraction == "" {
      WholeAmountIsExact(negative, whole, p);
    } else {
      FractionAmountIsExact(negative, whole, fraction, p);
    }
  }

  lemma {:induction false} WholeAmountIsExact(negative: bool, whole: string, p: nat)
    requires AllDigits(whole) && whole != ""
    ensures var text := AmountText(negative, whole, "");
      && Find(text, '.') == |Sign(negative) + whole|
      && ParseAmount(text, Find(text, '.'), Pow10(p)) == Within64Bits(negative, Parse(whole), 0, Units(whole, "", p))
  {
    var text, w := AmountText(negative, whole, ""), Parse(whole);
    assert text == Sign(negative) + whole;
    FindFirst(text, '.', "");
    ToInt64OfDigits(negative, whole);
    MulAtLeast(w, Pow10(p));
    if INT64_MIN <= Signed(negative, w) <= INT64_MAX {
      CombineIsExact(negative, w, 0, Pow10(p));
      NoFractionNoSign(Signed(negative, w), negative, Pow10(p));
    }
  }

  lemma NoFractionNoSign(x: int, negative: bool, p: nat)
    ensures Combine(x, 0, false, p) == Combine(x, 0, negative, p)
  {
  }

  /** Reading both parts and combining them, in terms of their values. */
  lemma {:induction false} PartsAreExact(negative: bool, w: nat, f: nat, p: nat)
    requires p > 0
    ensures w * p + f >= 0
    ensures CombineParts(InRange(Signed(negative, w)), InRange(f), negative, p)
      == Within64Bits(negative, w, f, w * p + f)
  {
    MulNonNegative(w, p);
    if INT64_MIN <= Signed(negative, w) <= INT64_MAX && f <= INT64_MAX {
      CombineIsExact(negative, w, f, p);
    }
  }

  lemma {:induction false} FractionAmountIsExact(negative: bool, whole: string, fraction: string, p: nat)
    requires AllDigits(whole) && whole != "" && AllDigits(fraction) && fraction != ""
    ensures var text := AmountText(negative, whole, fraction);
      && Find(text, '.') == |Sign(negative) + whole|
      && ParseAmount(text, Find(text, '.'), Pow10(p))
         == Within64Bits(negative, Parse(whole), Parse(fraction), Units(whole, fraction, p))
  {
    FractionParts(negative, whole, fraction, Pow10(p));
    PartsAreExact(negative, Parse(whole), Parse(fraction), Pow10(p));
  }

  lemma {:induction false} FractionParts(negative: bool, whole: string, fraction: string, precision: nat)
    requires AllDigits(whole) && whole != "" && AllDigits(fraction) && fraction != ""
    ensures var text := AmountText(negative, whole, fraction);
      && Find(text, '.') == |Sign(negative) + whole|
      && ParseAmount(text, Find(text, '.'), precision) ==
         CombineParts(InRange(Signed(negative, Parse(whole))), InRange(Parse(fraction)), negative, precision)
  {
    FractionSplits(negative, whole, fraction, precision);
    ToInt64OfDigits(negative, whole);
    ToInt64OfPlain(fraction);
  }

  lemma {:induction false} FractionSplits(negative: bool, whole: string, fraction: string, precision: nat)
    requires AllDigits(whole) && whole != "" && AllDigits(fraction) && fraction != ""
    ensures var text := AmountText(negative, whole, fraction);
      && Find(text, '.') == |Sign(negative) + whole|
      && ParseAmount(text, Find(text, '.'), precision) ==
         CombineParts(ToInt64(Sign(negative) + whole), ToInt64(fraction), negative, precision)
  {
    var front, text := Sign(negative) + whole, AmountText(negative, whole, fraction);
    FindFirst(front, '.', fraction);
    assert text == front + ['.'] + fraction;
    assert text[..|front|] == front && text[|front| + 1..] == fraction;
    assert text[0] == front[0] && (front[0] == '-' <==> negative);
  }

  /** No digit, sign or point is a space. */
  lemma AmountTextShape(negative: bool, whole: string, fraction: string)
    requires AllDigits(whole) && whole != "" && AllDigits(fraction)
    ensures var text := AmountText(negative, whole, fraction);
      text != "" && !IsSpace(text[0]) && ' ' !in text
  {
  }

  /** Splitting a well-formed text. */
  lemma {:induction false} FromStringSplits(negative: bool, whole: string, fraction: string, name: string)
    requires WellFormed(whole, fraction, name)
    ensures FromString(AssetText(negative, whole, fraction, name)) ==
            FromParts(AmountText(negative, whole, fraction), name)
  {
    var amount, s := AmountText(negative, whole, fraction), AssetText(negative, whole, fraction, name);
    AmountTextShape(negative, whole, fraction);
    assert s[0] == amount[0] && s[|s| - 1] == name[|name| - 1];
    TrimIsIdentity(s);
    TrimIsIdentity(name);
    FindFirst(amount, ' ', name);
    assert s == amount + [' '] + name;
    assert s[..|amount|] == amount && s[|amount| + 1..] == name;
  }

  /** The amount and the name, with a space and more white space between them and white space around. */
  function SpacedText(pre: string, amount: string, mid: string, name: string, post: string): string {
    pre + (amount + " " + (mid + name)) + post
  }

  /** White space around the amount and the name makes no difference. */
  lemma {:induction false} SpacedSplits(pre: string, amount: string, mid: string, name: string, post: string)
    requires AllSpace(pre) && AllSpace(mid) && AllSpace(post) && Trimmed(name) && name != ""
    requires amount != "" && !IsSpace(amount[0]) && ' ' !in amount
    ensures FromString(SpacedText(pre, amount, mid, name, post)) == FromParts(amount, name)
  {
    var rest := mid + name;
    var s := amount + " " + rest;
    assert s[0] == amount[0] && s[|s| - 1] == name[|name| - 1];
    TrimTakesOff(pre, s, post);
    assert mid + name + "" == rest;
    TrimTakesOff(mid, name, "");
    FindFirst(amount, ' ', rest);
    assert s == amount + [' '] + rest;
    assert s[..|amount|] == amount && s[|amount| + 1..] == rest;
  }

  /** The asset of value `v`, or why there is none. */
  function Worth(negative: bool, w: nat, f: nat, v: nat, p: nat, name: string): Result<Asset>
    requires AllUpper(name)
  {
    match Within64Bits(negative, w, f, v)
    case Err(e) => Err(e)
    case Ok(amount) => if v <= MAX_AMOUNT then Ok(Asset(amount, Pack(p, name))) else Err(AmountTooLarge)
  }

  /** Below the largest amount nothing else can go wrong. */
  lemma {:induction false} SmallIsWorthIt(negative: bool, whole: string, fraction: string, p: nat, name: string)
    requires AllDigits(whole) && AllDigits(fraction) && AllUpper(name) && Units(whole, fraction, p) <= MAX_AMOUNT
    ensures Worth(negative, Parse(whole), Parse(fraction), Units(whole, fraction, p), p, name)
      == Ok(Asset(Signed(negative, Units(whole, fraction, p)), Pack(p, name)))
  {
    MulAtLeast(Parse(whole), Pow10(p));
  }

  /**
   A well-formed text with `n` fraction digits, however spaced, is accepted exactly when `n` modulo 256 is
   at most 18 and the value is below `2^62` in magnitude; the result is that value. Otherwise the error is
   that of the first limit exceeded.
   */
  lemma {:induction false} ParsedExactly(pre: string, negative: bool, whole: string, fraction: string,
                                         mid: string, name: string, post: string)
    requires WellFormed(whole, fraction, name) && AllSpace(pre) && AllSpace(mid) && AllSpace(post)
    ensures var r := FromString(SpacedText(pre, AmountText(negative, whole, fraction), mid, name, post));
      var p := |fraction| % 256;
      && (p > MAX_PRECISION ==> r == Err(PrecisionTooLarge))
      && (p <= MAX_PRECISION ==>
            r == Worth(negative, Parse(whole), Parse(fraction), Units(whole, fraction, p), p, name))
  {
    AmountTextShape(negative, whole, fraction);
    SpacedSplits(pre, AmountText(negative, whole, fraction), mid, name, post);
    FromStringSplits(negative, whole, fraction, name);
    ParsedWith(negative, whole, fraction, name, |fraction| % 256);
  }

  lemma {:induction false} ParsedWith(negative: bool, whole: string, fraction: string, name: string, p: nat)
    requires WellFormed(whole, fraction, name) && p == |fraction| % 256
    ensures var r := FromString(AssetText(negative, whole, fraction, name));
      && (p > MAX_PRECISION ==> r == Err(PrecisionTooLarge))
      && (p <= MAX_PRECISION ==>
            r == Worth(negative, Parse(whole), Parse(fraction), Units(whole, fraction, p), p, name))
  {
    FromStringSplits(negative, whole, fraction, name);
    FromPartsSplits(negative, whole, fraction, name);
    SymbolOfCount(|fraction|, name);
    if p <= MAX_PRECISION {
      WithSymbolIsExact(negative, whole, fraction, name, p);
    }
  }

  lemma {:induction false} FromPartsSplits(negative: bool, whole: string, fraction: string, name: string)
    requires WellFormed(whole, fraction, name)
    ensures var amount := AmountText(negative, whole, fraction);
      FromParts(amount, name) ==
      WithSymbol(amount, Find(amount, '.'), SymbolFromString(Print(|fraction|) + "," + name))
  {
    var amount, n := AmountText(negative, whole, fraction), |fraction|;
    AmountIsExact(negative, whole, fraction, 0);
    assert |amount| == |Sign(negative) + whole| + if n == 0 then 0 else n + 1;
    assert Print(0) == "0";
  }

  lemma {:induction false} WithSymbolIsExact(negative: bool, whole: string, fraction: string, name: string, p: nat)
    requires WellFormed(whole, fraction, name) && p <= MAX_PRECISION
    ensures var amount := AmountText(negative, whole, fraction);
      WithSymbol(amount, Find(amount, '.'), SymbolValue(p, name))
      == Worth(negative, Parse(whole), Parse(fraction), Units(whole, fraction, p), p, name)
  {
    AmountIsExact(negative, whole, fraction, p);
    PackedDecimals(p, name);
  }

  lemma PackedDecimals(d: nat, name: string)
    requires d < 256 && AllUpper(name)
    ensures DecimalsOf(Pack(d, name)) == d
  {
  }

  /** A fraction of 256 zeros passes the check on the precision, which sees it as no decimals at all. */
  lemma LongFractionIsAccepted()
    ensures FromString(AssetText(false, "5", seq(256, _ => '0'), "CUR")) == Ok(Asset(5, Pack(0, "CUR")))
  {
    var zeros := seq(256, _ => '0');
    ZerosParse(zeros);
    ParsedWith(false, "5", zeros, "CUR", 0);
    assert "5"[..0] == "";
    assert Units("5", zeros, 0) == 5;
  }

  /** Two spaces before the name are accepted. */
  lemma TwoSpacesAreAccepted(from: string, name: string)
    requires from == "1000000000.00000  CUR" && name == "CUR"
    ensures FromString(from) == Ok(Asset(100_000_000_000_000, Pack(5, name)))
  {
    var amount := "1000000000.00000";
    assert from == SpacedText("", amount, " ", name, "");
    SpacedBillion(amount, "1000000000", "00000", " ", name);
  }

  lemma {:induction false} SpacedBillion(amount: string, whole: string, fraction: string, mid: string, name: string)
    requires amount == whole + "." + fraction && whole == "1000000000" && fraction == "00000"
    requires WellFormed(whole, fraction, name) && AllSpace(mid)
    ensures FromString(SpacedText("", amount, mid, name, "")) == Ok(Asset(100_000_000_000_000, Pack(5, name)))
  {
    BillionParses("1", "000000000", fraction);
    assert whole == "1" + "000000000";
    assert amount == AmountText(false, whole, fraction);
    SpacedShort(whole, fraction, mid, name, 5);
  }

  lemma {:induction false} SpacedShort(whole: string, fraction: string, mid: string, name: string, d: nat)
    requires WellFormed(whole, fraction, name) && AllSpace(mid) && |fraction| == d <= MAX_PRECISION
    requires Units(whole, fraction, d) <= MAX_AMOUNT
    ensures FromString(SpacedText("", AmountText(false, whole, fraction), mid, name, ""))
      == Ok(Asset(Units(whole, fraction, d), Pack(d, name)))
  {
    AmountTextShape(false, whole, fraction);
    SpacedSplits("", AmountText(false, whole, fraction), mid, name, "");
    FromStringSplits(false, whole, fraction, name);
    ParsedShort(false, whole, fraction, name, d);
  }

  lemma {:induction false} BillionParses(one: string, zeros: string, fraction: string)
    requires one == "1" && zeros == "000000000" && fraction == "00000"
    ensures AllDigits(one + zeros) && AllDigits(fraction)
    ensures Units(one + zeros, fraction, 5) == 100_000_000_000_000
  {
    ZerosParse(zeros);
    ZerosParse(fraction);
    assert one[..0] == "";
    ParseConcat(one, zeros);
    assert Pow10(9) == 1_000_000_000 && Pow10(5) == 100_000;
  }

  lemma {:induction false} ZerosParse(s: string)
    requires forall i :: 0 <= i < |s| ==> s[i] == '0'
    ensures AllDigits(s) && Parse(s) == 0
  {
    if s != "" { ZerosParse(s[..|s| - 1]); }
  }

  /** With at most 18 fraction digits the value is the decimal number written, in units of its last digit. */
  lemma {:induction false} UnitsAreTheDigits(whole: string, fraction: string)
    requires AllDigits(whole) && AllDigits(fraction) && |fraction| <= MAX_PRECISION
    ensures AllDigits(whole + fraction)
    ensures Units(whole, fraction, |fraction| % 256) == Parse(whole + fraction)
  {
    ParseConcat(whole, fraction);
  }

  /** The printed form is a well-formed text for the same value. */
  lemma FormatIsWellFormed(a: Asset)
    requires ValidAsset(a)
    ensures var n, d := Abs(a.amount), DecimalsOf(a.symbol);
      var whole, fraction := Print(Whole(n, d)), PrintFixed(Fraction(n, d), d);
      && AllDigits(whole) && whole != "" && AllDigits(fraction) && |fraction| == d
      && Units(whole, fraction, d) == n
      && Format(a) == AssetText(a.amount < 0, whole, fraction, NameOf(a.symbol))
  {
    var n, d := Abs(a.amount), DecimalsOf(a.symbol);
    DecimalSplit(n, d);
    ParsePrint(Whole(n, d));
    PrintDigits(Whole(n, d));
    PrintFixedDigits(Fraction(n, d), d);
    ParsePrintFixed(Fraction(n, d), d);
    var whole, fraction := Print(Whole(n, d)), PrintFixed(Fraction(n, d), d);
    var point := if d == 0 then "" else "." + fraction;
    assert Sign(a.amount < 0) + (whole + point) == Sign(a.amount < 0) + whole + point;
  }

  lemma NamedRoundTrip(a: Asset)
    requires ValidAsset(a) && NameOf(a.symbol) != ""
    ensures FromString(Format(a)) == Ok(a)
  {
    var n, d := Abs(a.amount), DecimalsOf(a.symbol);
    var whole, fraction := Print(Whole(n, d)), PrintFixed(Fraction(n, d), d);
    FormatIsWellFormed(a);
    ValidNameLength(a.symbol);
    ParsedShort(a.amount < 0, whole, fraction, NameOf(a.symbol), d);
    SymbolRoundTrip(d, NameOf(a.symbol), a.symbol);
    assert Signed(a.amount < 0, n) == a.amount;
  }

  lemma {:induction false} ParsedShort(negative: bool, whole: string, fraction: string, name: string, d: nat)
    requires WellFormed(whole, fraction, name) && |fraction| == d <= MAX_PRECISION
    requires Units(whole, fraction, d) <= MAX_AMOUNT
    ensures FromString(AssetText(negative, whole, fraction, name)) ==
            Ok(Asset(Signed(negative, Units(whole, fraction, d)), Pack(d, name)))
  {
    ParsedWith(negative, whole, fraction, name, d);
    SmallIsWorthIt(negative, whole, fraction, d, name);
  }

  /** Parsing undoes printing for every valid asset with a name, and for no other. */
  lemma PrintThenParse(a: Asset)
    requires ValidAsset(a)
    ensures FromString(Format(a)) == Ok(a) <==> NameOf(a.symbol) != ""
  {
    if NameOf(a.symbol) != "" {
      NamedRoundTrip(a);
    } else {
      var n, d := Abs(a.amount), DecimalsOf(a.symbol);
      FormatIsWellFormed(a);
      NamelessIsRejected(a.amount < 0, Print(Whole(n, d)), PrintFixed(Fraction(n, d), d));
    }
  }

  /** The largest amount is `2^62 - 1`, and the decimals allowed are those of powers of ten within 64 bits. */
  lemma {:induction false} Limits()
    ensures INT64_MAX == Pow2(63) - 1 && INT64_MIN == 0 - Pow2(63) && MAX_AMOUNT == Pow2(62) - 1
    ensures Pow10(MAX_PRECISION) <= INT64_MAX < Pow10(MAX_PRECISION + 1)
  {
    PowersOfTwo(31, 63);
    PowersOfTen(9, 18);
  }

  lemma {:induction false} PowersOfTwo(half: nat, n: nat)
    requires half == 31 && n == 63
    ensures Pow2(n - 1) == 0x4000_0000_0000_0000 && Pow2(n) == 0x8000_0000_0000_0000
  {
    assert Pow2(15) == 0x8000 && Pow2(16) == 0x1_0000;
    Pow2Add(15, 16);
    Pow2Add(half, half);
    Square(Pow2(half));
    assert Pow2(n) == 2 * Pow2(n - 1);
  }

  lemma Square(p: nat)
    requires p == 0x8000_0000
    ensures p * p == 0x4000_0000_0000_0000
  {
  }

  lemma {:induction false} PowersOfTen(half: nat, n: nat)
    requires half == 9 && n == 18
    ensures Pow10(n) == 1_000_000_000_000_000_000 && Pow10(n + 1) == 10_000_000_000_000_000_000
  {
    Pow10Add(half, half);
    assert Pow10(9) == 1_000_000_000;
  }

  /** Without a name the separating space is trimmed away. */
  lemma NamelessIsRejected(negative: bool, whole: string, fraction: string)
    requires AllDigits(whole) && whole != "" && AllDigits(fraction)
    ensures FromString(AssetText(negative, whole, fraction, "")) == Err(MissingSpace)
  {
    var amount := AmountText(negative, whole, fraction);
    var s := AssetText(negative, whole, fraction, "");
    AmountTextShape(negative, whole, fraction);
    assert s == amount + " ";
    assert s[0] == amount[0] && s[..|s| - 1] == amount;
    assert !IsSpace(amount[|amount| - 1]);
    assert TrimLeft(s) == s && TrimRight(s) == TrimRight(amount) == amount;
    FindFirst(amount, ' ', "");
  }
}
