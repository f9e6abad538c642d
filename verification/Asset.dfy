/**
 Asset quantities as text: `asset::to_string` and `asset::from_string`, with the checked
 64-bit arithmetic in between.
 */
module Asset {
  import opened Bits
  import opened Decimal
  import opened Symbol

  datatype Asset = Asset(amount: int, symbol: nat)

  const INT64_MAX: int := 0x7FFF_FFFF_FFFF_FFFF
  const INT64_MIN: int := -0x8000_0000_0000_0000
  const MAX_AMOUNT: int := 0x3FFF_FFFF_FFFF_FFFF

  predicate ValidAsset(a: Asset) {
    -MAX_AMOUNT <= a.amount <= MAX_AMOUNT && ValidSymbol(a.symbol)
  }

  // ----- Text helpers -----

  predicate IsSpace(c: char) {
    c == ' ' || '\t' <= c <= '\r'
  }

  function TrimLeft(s: string): string {
    if s != "" && IsSpace(s[0]) then TrimLeft(s[1..]) else s
  }

  function TrimRight(s: string): string {
    if s != "" && IsSpace(s[|s| - 1]) then TrimRight(s[..|s| - 1]) else s
  }

  /** `fc::trim` */
  function Trim(s: string): string {
    TrimRight(TrimLeft(s))
  }

  /** The position of the first `c`, or the length if there is none. */
  function Find(s: string, c: char): (k: nat)
    ensures k <= |s|
  {
    if s == "" || s[0] == c then 0 else 1 + Find(s[1..], c)
  }

  lemma {:induction false} FindFirst(s: string, c: char, t: string)
    requires c !in s
    ensures Find(s + [c] + t, c) == |s| && Find(s, c) == |s|
  {
    if s == "" {
      assert s + [c] + t == [c] + t;
    } else {
      assert (s + [c] + t)[1..] == s[1..] + [c] + t;
      FindFirst(s[1..], c, t);
    }
  }

  lemma {:induction false} CStringIsIdentity(s: string)
    requires '\0' !in s
    ensures CString(s) == s
  {
    if s != "" { CStringIsIdentity(s[1..]); }
  }

  function InRange(x: int): Result<int> {
    if INT64_MIN <= x <= INT64_MAX then Ok(x) else Err(ParseError)
  }

  /** `fc::to_int64`: an optional sign, then digits, within 64 bits. */
  function ToInt64(text: string): Result<int> {
    var s := CString(text);
    var signed := s != "" && (s[0] == '-' || s[0] == '+');
    var digits := if signed then s[1..] else s;
    if digits == "" || !AllDigits(digits) then Err(ParseError)
    else
      InRange(if signed && s[0] == '-' then 0 - Parse(digits) else Parse(digits))
  }

  /** The result of an operation on `safe<int64_t>`. */
  function Checked(x: int): Result<int> {
    if x > INT64_MAX then Err(Overflow) else if x < INT64_MIN then Err(Underflow) else Ok(x)
  }

  // ----- Parsing -----

  /** `symbol::from_string`; the precision is narrowed to eight bits before it is checked. */
  function SymbolFromString(from: string): Result<nat> {
    var s := Trim(from);
    if s == "" then Err(EmptySymbol)
    else
      var comma := Find(s, ',');
      if comma == |s| then Err(MissingComma)
      else
        SymbolOf(ToInt64(s[..comma]), CString(s[comma + 1..]))
  }

  function SymbolOf(count: Result<int>, name: string): Result<nat> {
    var wide :- count;
    var p := wide % 256;
    if p > MAX_PRECISION then Err(PrecisionTooLarge) else SymbolValue(p, name)
  }

  /** The constructor of `asset`. */
  function MakeAsset(amount: int, symbol: nat): Result<Asset> {
    if -MAX_AMOUNT <= amount <= MAX_AMOUNT then Ok(Asset(amount, symbol)) else Err(AmountTooLarge)
  }

  /** Scale the integer part by the precision, then add the fraction with the sign of the text. */
  function Combine(whole: int, fraction: int, negative: bool, precision: nat): Result<int> {
    var signedFraction :- if negative then Checked(fraction * -1) else Ok(fraction);
    var scaled :- Checked(whole * precision);
    Checked(scaled + signedFraction)
  }

  function ParseAmount(amount: string, dot: nat, precision: nat): Result<int>
    requires dot <= |amount|
  {
    if dot < |amount|
    then CombineParts(ToInt64(amount[..dot]), ToInt64(amount[dot + 1..]), amount[0] == '-', precision)
    else CombineParts(ToInt64(amount), Ok(0), false, precision)
  }

  function CombineParts(whole: Result<int>, fraction: Result<int>, negative: bool, precision: nat): Result<int> {
    var w :- whole;
    var f :- fraction;
    Combine(w, f, negative, precision)
  }

  function FromParts(amount: string, symbolName: string): Result<Asset> {
    var dot := Find(amount, '.');
    if dot < |amount| && dot == |amount| - 1 then Err(MissingFraction)
    else
      var digits := if dot < |amount| then Print(|amount| - dot - 1) else "0";
      WithSymbol(amount, dot, SymbolFromString(digits + "," + symbolName))
  }

  function WithSymbol(amount: string, dot: nat, parsed: Result<nat>): Result<Asset>
    requires dot <= |amount|
  {
    var symbol :- parsed;
    var value :- ParseAmount(amount, dot, Pow10(DecimalsOf(symbol)));
    MakeAsset(value, symbol)
  }

  /** `asset::from_string` */
  function FromString(from: string): Result<Asset> {
    var s := Trim(from);
    var space := Find(s, ' ');
    if space == |s| then Err(MissingSpace)
    else FromParts(s[..space], Trim(s[space + 1..]))
  }

  // ----- Printing -----

  function Abs(x: int): nat {
    if x < 0 then -x else x
  }

  /** Sign, integer part, point and padded fraction, space, name. */
  function Format(a: Asset): string {
    (if a.amount < 0 then "-" else "") + FormatAbs(Abs(a.amount), DecimalsOf(a.symbol)) + " " + NameOf(a.symbol)
  }

  function FormatAbs(n: nat, d: nat): string {
    Print(Whole(n, d)) + if d == 0 then "" else "." + PrintFixed(Fraction(n, d), d)
  }

  lemma DivisionSplits(n: nat, d: nat, p: nat)
    requires p == Pow10(d)
    ensures n / p == Whole(n, d) && n % p == Fraction(n, d) < p
  {
    DecimalSplit(n, d);
    DivModUnique(n, p, Whole(n, d), Fraction(n, d));
  }

  /** `asset::to_string`; the fraction is padded by adding the precision and erasing the leading digit. */
  method ToString(a: Asset) returns (result: string)
    requires ValidAsset(a)
    ensures result == Format(a)
  {
    var sign := if a.amount < 0 then "-" else "";
    var abs := Abs(a.amount);
    var precision := Precision(a.symbol);
    var p := precision.value;
    DivisionSplits(abs, DecimalsOf(a.symbol), p);
    result := Print(abs / p);
    if DecimalsOf(a.symbol) != 0 {
      var fract := abs % p;
      LeadingOne(fract, DecimalsOf(a.symbol));
      var padded := Print(p + fract)[1..];
      assert padded == PrintFixed(fract, DecimalsOf(a.symbol));
      result := result + ("." + padded);
    }
    assert result == FormatAbs(abs, DecimalsOf(a.symbol));
    var name := Name(a.symbol);
    result := sign + result + " " + name;
  }
}
