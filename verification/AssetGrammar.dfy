/**
 Exactly which strings are accepted as assets, well-formed or not. Numbers may carry a sign on
 either side of the point, and text behind a null character is not seen.
 */
module AssetGrammar {
  import opened Decimal
  import opened Symbol
  import opened Asset
  import opened AssetText
  import opened Trimming

  // ----- Numbers -----

  /** A sign or none. */
  predicate IsSign(sign: string) {
    sign == "" || sign == "-" || sign == "+"
  }

  /** Up to its first null character the text is a sign and digits that stand for `v`, within 64 bits. */
  ghost predicate Reads(text: string, v: int) {
    exists sign, digits :: Spells(text, sign, digits, v)
  }

  ghost predicate Spells(text: string, sign: string, digits: string, v: int) {
    && Shows(text, sign + digits) && IsSign(sign) && digits != "" && AllDigits(digits)
    && v == Signed(sign == "-", Parse(digits)) && INT64_MIN <= v <= INT64_MAX
  }

  lemma {:induction false} SpelledIsRead(text: string, sign: string, digits: string, v: int)
    requires Spells(text, sign, digits, v)
    ensures ToInt64(text) == Ok(v)
  {
    var s := CString(text);
    CStringExactly(text, sign + digits);
    assert IsDigit(digits[0]);
    if sign == "" {
      assert s == digits;
    } else {
      assert s[0] == sign[0] && s[1..] == digits;
    }
  }

  lemma {:induction false} ReadIsSpelled(text: string, v: int)
    requires ToInt64(text) == Ok(v)
    ensures Reads(text, v)
  {
    var s := CString(text);
    CStringShows(text);
    if s != "" && (s[0] == '-' || s[0] == '+') {
      SignedIsSpelled(text, s[..1], s[1..], v);
    } else {
      PlainIsSpelled(text, s, v);
    }
  }

  lemma {:induction false} SignedIsSpelled(text: string, sign: string, digits: string, v: int)
    requires ToInt64(text) == Ok(v) && CString(text) == sign + digits && (sign == "-" || sign == "+")
    requires Shows(text, sign + digits)
    ensures Spells(text, sign, digits, v)
  {
    var s := CString(text);
    assert s[0] == sign[0] && s[1..] == digits;
  }

  lemma {:induction false} PlainIsSpelled(text: string, digits: string, v: int)
    requires ToInt64(text) == Ok(v) && CString(text) == digits && Shows(text, digits)
    requires digits != "" ==> digits[0] != '-' && digits[0] != '+'
    ensures Spells(text, "", digits, v)
  {
    assert "" + digits == digits;
  }

  /** `to_int64` reads exactly these numbers. */
  lemma {:induction false} ReadExactly(text: string, v: int)
    ensures ToInt64(text) == Ok(v) <==> Reads(text, v)
  {
    if ToInt64(text) == Ok(v) { ReadIsSpelled(text, v); }
    if Reads(text, v) {
      var sign, digits :| Spells(text, sign, digits, v);
      SpelledIsRead(text, sign, digits, v);
    }
  }

  // ----- Amounts -----

  /** The value of a whole number and a fraction that takes the sign of the text, without overflow on the way. */
  predicate Combines(w: int, f: int, negative: bool, p: nat, v: int) {
    && v == w * Pow10(p) + Signed(negative, f)
    && (negative ==> f > INT64_MIN) && INT64_MIN <= w * Pow10(p) <= INT64_MAX && INT64_MIN <= v <= INT64_MAX
  }

  lemma {:induction false} CombinesExactly(w: int, f: int, negative: bool, p: nat, v: int)
    requires INT64_MIN <= f <= INT64_MAX
    ensures Combine(w, f, negative, Pow10(p)) == Ok(v) <==> Combines(w, f, negative, p, v)
  {
  }

  /** An amount without a point. */
  ghost predicate WholeReads(amount: string, v: int) {
    '.' !in amount && Reads(amount, v)
  }

  /** An amount with a point, as a number of units of which `Pow10(p)` make one. */
  ghost predicate PointReads(amount: string, whole: string, fraction: string, w: int, f: int, p: nat, v: int) {
    && amount == whole + "." + fraction && '.' !in whole && fraction != ""
    && Reads(whole, w) && Reads(fraction, f) && Combines(w, f, amount[0] == '-', p, v)
  }

  ghost predicate PointAmount(amount: string, whole: string, fraction: string, p: nat, v: int) {
    exists w, f :: PointReads(amount, whole, fraction, w, f, p, v)
  }

  lemma {:induction false} FindLast(s: string, c: char)
    ensures var k := Find(s, c); c !in s[..k] && (k < |s| ==> s[k] == c) && (k == |s| <==> c !in s)
  {
    if s != "" && s[0] != c {
      FindLast(s[1..], c);
      var k := Find(s[1..], c);
      assert s[..k + 1] == [s[0]] + s[1..][..k];
    }
  }

  lemma {:induction false} WholeExactly(amount: string, v: int)
    requires '.' !in amount
    ensures ParseAmount(amount, Find(amount, '.'), Pow10(0)) == Ok(v) <==> WholeReads(amount, v)
  {
    FindLast(amount, '.');
    ReadExactly(amount, v);
  }

  lemma {:induction false} PointExactly(whole: string, fraction: string, p: nat, v: int)
    requires '.' !in whole && fraction != ""
    ensures var amount := whole + "." + fraction;
      && Find(amount, '.') == |whole|
      && (ParseAmount(amount, |whole|, Pow10(p)) == Ok(v) <==> PointAmount(amount, whole, fraction, p, v))
  {
    var amount := whole + "." + fraction;
    FindFirst(whole, '.', fraction);
    assert amount == whole + ['.'] + fraction;
    assert amount[..|whole|] == whole && amount[|whole| + 1..] == fraction;
    forall w, f ensures PointReads(amount, whole, fraction, w, f, p, v)
      <==> ToInt64(whole) == Ok(w) && ToInt64(fraction) == Ok(f) && Combine(w, f, amount[0] == '-', Pow10(p)) == Ok(v)
    {
      ReadExactly(whole, w);
      ReadExactly(fraction, f);
      if ToInt64(fraction) == Ok(f) { CombinesExactly(w, f, amount[0] == '-', p, v); }
    }
  }

  // ----- Assets -----

  predicate IsName(name: string) {
    AllUpper(name) && |name| <= MAX_NAME
  }

  ghost predicate IsWholeAsset(amount: string, name: string, a: Asset) {
    && WholeReads(amount, a.amount) && IsName(name)
    && -MAX_AMOUNT <= a.amount <= MAX_AMOUNT && a.symbol == Pack(0, name)
  }

  /** The length of the fraction, modulo 256, is the precision. */
  ghost predicate IsPointAsset(amount: string, whole: string, fraction: string, name: string, a: Asset) {
    var p := |fraction| % 256;
    && PointAmount(amount, whole, fraction, p, a.amount) && IsName(name)
    && |fraction| <= INT64_MAX && p <= MAX_PRECISION
    && -MAX_AMOUNT <= a.amount <= MAX_AMOUNT && a.symbol == Pack(p, name)
  }

  ghost predicate IsAsset(amount: string, name: string, a: Asset) {
    IsWholeAsset(amount, name, a)
    || exists whole, fraction :: IsPointAsset(amount, whole, fraction, name, a)
  }

  lemma {:induction false} CountedSymbol(n: nat, name: string)
    requires name == "" || !IsSpace(name[|name| - 1])
    ensures SymbolFromString(Print(n) + "," + name) ==
      if n > INT64_MAX then Err(ParseError)
      else if n % 256 > MAX_PRECISION then Err(PrecisionTooLarge)
      else SymbolValue(n % 256, CString(name))
  {
    PrintDigits(n);
    ParsePrint(n);
    SymbolSplits(Print(n), name);
    ToInt64OfPlain(Print(n));
  }

  lemma {:induction false} WithSymbolExactly(amount: string, dot: nat, p: nat, name: string, a: Asset)
    requires dot <= |amount| && p <= MAX_PRECISION
    ensures WithSymbol(amount, dot, SymbolValue(p, name)) == Ok(a)
      <==> IsName(name) && ParseAmount(amount, dot, Pow10(p)) == Ok(a.amount)
           && -MAX_AMOUNT <= a.amount <= MAX_AMOUNT && a.symbol == Pack(p, name)
  {
    if IsName(name) { PackedDecimals(p, name); }
  }

  lemma {:induction false} WholePartsExactly(amount: string, name: string, a: Asset)
    requires '.' !in amount && (name == "" || !IsSpace(name[|name| - 1]))
    ensures FromParts(amount, name) == Ok(a) <==> IsWholeAsset(amount, CString(name), a)
  {
    FindLast(amount, '.');
    assert Print(0) == "0";
    CountedSymbol(0, name);
    WithSymbolExactly(amount, |amount|, 0, CString(name), a);
    WholeExactly(amount, a.amount);
  }

  lemma {:induction false} PointPartsExactly(whole: string, fraction: string, name: string, a: Asset)
    requires '.' !in whole && fraction != "" && (name == "" || !IsSpace(name[|name| - 1]))
    ensures var amount := whole + "." + fraction;
      FromParts(amount, name) == Ok(a) <==> IsPointAsset(amount, whole, fraction, CString(name), a)
  {
    var amount, n := whole + "." + fraction, |fraction|;
    PointExactly(whole, fraction, n % 256, a.amount);
    CountedSymbol(n, name);
    PointPartsSplit(whole, fraction, name);
    if n % 256 <= MAX_PRECISION { WithSymbolExactly(amount, |whole|, n % 256, CString(name), a); }
  }

  lemma {:induction false} PointPartsSplit(whole: string, fraction: string, name: string)
    requires '.' !in whole && fraction != ""
    ensures var amount := whole + "." + fraction;
      FromParts(amount, name) == WithSymbol(amount, |whole|, SymbolFromString(Print(|fraction|) + "," + name))
  {
    FindFirst(whole, '.', fraction);
    assert whole + "." + fraction == whole + ['.'] + fraction;
  }

  /** The point splits an amount in one way only. */
  lemma {:induction false} SplitIsUnique(amount: string, c: char, front: string, back: string)
    requires amount == front + [c] + back && c !in front
    ensures |front| == Find(amount, c) < |amount| && front == amount[..|front|] && back == amount[|front| + 1..]
  {
    FindFirst(front, c, back);
  }

  lemma {:induction false} PointSplitIsUnique(amount: string, whole: string, fraction: string, name: string, a: Asset)
    requires IsPointAsset(amount, whole, fraction, name, a)
    ensures var dot := Find(amount, '.'); dot < |amount| && whole == amount[..dot] && fraction == amount[dot + 1..]
  {
    assert amount == whole + ['.'] + fraction;
    SplitIsUnique(amount, '.', whole, fraction);
  }

  lemma {:induction false} PartsExactly(amount: string, name: string, a: Asset)
    requires name == "" || !IsSpace(name[|name| - 1])
    ensures FromParts(amount, name) == Ok(a) <==> IsAsset(amount, CString(name), a)
  {
    FindLast(amount, '.');
    var dot := Find(amount, '.');
    forall whole, fraction | IsPointAsset(amount, whole, fraction, CString(name), a)
      ensures dot < |amount| && whole == amount[..dot] && fraction == amount[dot + 1..]
    {
      PointSplitIsUnique(amount, whole, fraction, CString(name), a);
    }
    if dot == |amount| {
      WholePartsExactly(amount, name, a);
    } else {
      PointedPartsExactly(amount, name, a, dot);
    }
  }

  lemma {:induction false} PointedPartsExactly(amount: string, name: string, a: Asset, dot: nat)
    requires dot == Find(amount, '.') < |amount| && (name == "" || !IsSpace(name[|name| - 1]))
    ensures FromParts(amount, name) == Ok(a)
      <==> IsPointAsset(amount, amount[..dot], amount[dot + 1..], CString(name), a)
  {
    var whole, fraction := amount[..dot], amount[dot + 1..];
    FindLast(amount, '.');
    assert amount == whole + "." + fraction;
    if fraction != "" { PointPartsExactly(whole, fraction, name, a); }
  }

  /**
   The text is an amount, a space and what is shown of a name, with white space around both; the amount
   holds no space, and neither it nor the name begins or the name ends with white space.
   */
  ghost predicate IsAssetText(
    from: string, pre: string, amount: string, mid: string, name: string, post: string, shown: string, a: Asset)
  {
    && from == SpacedText(pre, amount, mid, name, post) && AllSpace(pre) && AllSpace(mid) && AllSpace(post)
    && amount != "" && !IsSpace(amount[0]) && ' ' !in amount && Trimmed(name) && name != ""
    && Shows(name, shown) && IsAsset(amount, shown, a)
  }

  ghost predicate SpellsAsset(from: string, a: Asset) {
    exists pre, amount, mid, name, post, shown :: IsAssetText(from, pre, amount, mid, name, post, shown, a)
  }

  lemma {:induction false} SpelledIsAccepted(
    from: string, pre: string, amount: string, mid: string, name: string, post: string, shown: string, a: Asset)
    requires IsAssetText(from, pre, amount, mid, name, post, shown, a)
    ensures FromString(from) == Ok(a)
  {
    SpacedSplits(pre, amount, mid, name, post);
    CStringExactly(name, shown);
    PartsExactly(amount, name, a);
  }

  /** A text that is split at all is split like this. */
  lemma {:induction false} SplitText(from: string)
    returns (pre: string, amount: string, mid: string, name: string, post: string)
    requires ' ' in Trim(from)
    ensures from == SpacedText(pre, amount, mid, name, post) && AllSpace(pre) && AllSpace(mid) && AllSpace(post)
    ensures amount != "" && !IsSpace(amount[0]) && ' ' !in amount && Trimmed(name) && name != ""
  {
    var s := Trim(from);
    pre, post := TrimLeaves(from);
    FindLast(s, ' ');
    var space := Find(s, ' ');
    amount := s[..space];
    var rest := s[space + 1..];
    assert s == amount + " " + rest;
    assert !IsSpace(s[|s| - 1]) && IsSpace(s[space]);
    assert rest != "" && rest[|rest| - 1] == s[|s| - 1];
    name := Trim(rest);
    var tail: string;
    mid, tail := TrimLeaves(rest);
    EndsInName(mid, name, tail);
    assert rest == mid + name;
  }

  lemma EndsInName(mid: string, name: string, tail: string)
    requires AllSpace(mid) && AllSpace(tail)
    requires var rest := mid + name + tail; rest != "" && !IsSpace(rest[|rest| - 1])
    ensures tail == "" && name != ""
  {
  }

  /** Every string: it is accepted as the asset `a` exactly when it spells `a`. */
  lemma {:induction false} AcceptedExactly(from: string, a: Asset)
    ensures FromString(from) == Ok(a) <==> SpellsAsset(from, a)
  {
    FindLast(Trim(from), ' ');
    if FromString(from) == Ok(a) {
      var pre, amount, mid, name, post := SplitText(from);
      SpacedSplits(pre, amount, mid, name, post);
      CStringShows(name);
      PartsExactly(amount, name, a);
      assert IsAssetText(from, pre, amount, mid, name, post, CString(name), a);
    }
    if SpellsAsset(from, a) {
      var pre, amount, mid, name, post, shown :| IsAssetText(from, pre, amount, mid, name, post, shown, a);
      SpelledIsAccepted(from, pre, amount, mid, name, post, shown, a);
    }
  }

  // ----- Texts that are not taken apart -----

  /** Neither reading the symbol nor reading the amount complains about a missing part of the text. */
  predicate Complete<T>(r: Result<T>) {
    r != Err(MissingSpace) && r != Err(MissingFraction)
  }

  lemma SymbolIsComplete(from: string)
    ensures Complete(SymbolFromString(from))
  {
  }

  lemma AmountIsComplete(amount: string, dot: nat, precision: nat)
    requires dot <= |amount|
    ensures Complete(ParseAmount(amount, dot, precision))
  {
    if dot < |amount| {
      NumberIsComplete(amount[..dot]);
      NumberIsComplete(amount[dot + 1..]);
    } else {
      NumberIsComplete(amount);
    }
  }

  lemma NumberIsComplete(text: string)
    ensures Complete(ToInt64(text))
  {
  }

  lemma PartsComplaint(amount: string, name: string)
    ensures FromParts(amount, name) != Err(MissingSpace)
    ensures FromParts(amount, name) == Err(MissingFraction)
      <==> Find(amount, '.') < |amount| && Find(amount, '.') == |amount| - 1
  {
    var dot := Find(amount, '.');
    if !(dot < |amount| && dot == |amount| - 1) {
      var digits := if dot < |amount| then Print(|amount| - dot - 1) else "0";
      var parsed := SymbolFromString(digits + "," + name);
      SymbolIsComplete(digits + "," + name);
      AssetIsComplete(amount, dot, parsed);
      assert FromParts(amount, name) == WithSymbol(amount, dot, parsed);
    }
  }

  lemma AssetIsComplete(amount: string, dot: nat, parsed: Result<nat>)
    requires dot <= |amount| && Complete(parsed)
    ensures Complete(WithSymbol(amount, dot, parsed))
  {
    if parsed.Ok? { AmountIsComplete(amount, dot, Pow10(DecimalsOf(parsed.value))); }
  }

  /** The separating space is missed exactly when there is none within the text. */
  lemma MissingSpaceExactly(pre: string, s: string, post: string)
    requires AllSpace(pre) && AllSpace(post) && Trimmed(s)
    ensures FromString(pre + s + post) == Err(MissingSpace) <==> ' ' !in s
  {
    TrimTakesOff(pre, s, post);
    if ' ' in s { SpaceIsFound(pre + s + post, s); } else { FindLast(s, ' '); }
  }

  lemma SpaceIsFound(from: string, s: string)
    requires Trim(from) == s && ' ' in s
    ensures FromString(from) != Err(MissingSpace)
  {
    FindLast(s, ' ');
    var space := Find(s, ' ');
    FromTrimmed(from, s, space);
    PartsComplaint(s[..space], Trim(s[space + 1..]));
  }

  lemma FromTrimmed(from: string, s: string, space: nat)
    requires Trim(from) == s && space == Find(s, ' ') < |s|
    ensures FromString(from) == FromParts(s[..space], Trim(s[space + 1..]))
  {
  }

  /** Digits after the point are missed exactly when the first point ends the amount. */
  lemma MissingFractionExactly(pre: string, amount: string, mid: string, name: string, post: string)
    requires AllSpace(pre) && AllSpace(mid) && AllSpace(post) && Trimmed(name) && name != ""
    requires amount != "" && !IsSpace(amount[0]) && ' ' !in amount
    ensures FromString(SpacedText(pre, amount, mid, name, post)) == Err(MissingFraction)
      <==> amount[|amount| - 1] == '.' && '.' !in amount[..|amount| - 1]
  {
    SpacedSplits(pre, amount, mid, name, post);
    PartsComplaint(amount, name);
    FindLast(amount, '.');
    if amount[|amount| - 1] == '.' && '.' !in amount[..|amount| - 1] {
      assert amount == amount[..|amount| - 1] + ['.'] + "";
      FindFirst(amount[..|amount| - 1], '.', "");
    }
  }

  /** A sign is taken in the fraction too: this is one unit less five hundredths. */
  lemma {:induction false} SignedFraction()
    ensures FromString("1.-5 CUR") == Ok(Asset(95, Pack(2, "CUR")))
  {
    var from, amount, whole, fraction, name := "1.-5 CUR", "1.-5", "1", "-5", "CUR";
    SignedFractionReads(amount, whole, fraction, 2);
    assert IsPointAsset(amount, whole, fraction, name, Asset(95, Pack(2, name)));
    assert from == SpacedText("", amount, "", name, "");
    SpelledIsAccepted(from, "", amount, "", name, "", name, Asset(95, Pack(2, name)));
  }

  lemma {:induction false} SignedFractionReads(amount: string, whole: string, fraction: string, p: nat)
    requires amount == "1.-5" && whole == "1" && fraction == "-5" && p == 2
    ensures PointAmount(amount, whole, fraction, p, 95)
  {
    CStringIsIdentity(whole);
    CStringIsIdentity(fraction);
    assert "1"[..0] == "" && "5"[..0] == "";
    assert Parse("1") == 1 && Parse("5") == 5;
    assert "1" == "" + "1" && "-5" == "-" + "5";
    assert Spells(whole, "", "1", 1);
    assert Spells(fraction, "-", "5", -5);
    assert Pow10(2) == 100;
    assert PointReads(amount, whole, fraction, 1, -5, p, 95);
  }
}
