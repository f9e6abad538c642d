/**
 Account names are 64-bit words of thirteen characters: twelve of five bits from the top and
 one of four bits. A zero character is a dot. `name_suffix` keeps what follows the last dot
 that is followed by something.
 */
module NameSuffix {
  import opened Bits

  /** Characters of five bits, most significant first, read as one number. */
  function Fold(cs: seq<nat>): nat {
    if cs == [] then 0 else Fold(cs[..|cs| - 1]) * 32 + cs[|cs| - 1]
  }

  /** The `k` lowest characters of five bits of `v`. */
  function Digits(v: nat, k: nat): (cs: seq<nat>)
    ensures |cs| == k
    decreases v, k
  {
    if k == 0 then [] else Digits(v / 32, k - 1) + [v % 32]
  }

  /** The thirteen characters of a name. */
  function Chars(n: nat): (cs: seq<nat>)
    ensures |cs| == 13
  {
    Digits(Shr(n, 4), 12) + [Low(n, 4)]
  }

  predicate IsName(cs: seq<nat>) {
    |cs| == 13 && (forall i :: 0 <= i < 12 ==> cs[i] < 32) && cs[12] < 16
  }

  function Encode(cs: seq<nat>): nat
    requires |cs| == 13
  {
    Fold(cs[..12]) * 16 + cs[12]
  }

  /** The position of the last dot among the first `i` characters, or -1. */
  function LastDot(cs: seq<nat>, i: nat): (d: int)
    requires i <= |cs|
    ensures -1 <= d < i
  {
    if i == 0 then -1 else if cs[i - 1] == 0 then i - 1 else LastDot(cs, i - 1)
  }

  /** The position of the last dot before the last character that is not a dot, or -1. */
  function SuffixDot(cs: seq<nat>, i: nat): (d: int)
    requires i <= |cs|
    ensures -1 <= d < i
  {
    if i == 0 then -1 else if cs[i - 1] != 0 then LastDot(cs, i - 1) else SuffixDot(cs, i - 1)
  }

  function Zeros(k: nat): (zs: seq<nat>)
    ensures |zs| == k && forall i :: 0 <= i < k ==> zs[i] == 0
  {
    if k == 0 then [] else Zeros(k - 1) + [0]
  }

  /** The characters after that dot, moved to the front and filled up with dots. */
  function Suffix(cs: seq<nat>): (s: seq<nat>)
    ensures |s| == |cs|
  {
    var d := SuffixDot(cs, |cs|);
    cs[d + 1..] + Zeros(d + 1)
  }

  // ----- Which dot that is -----

  /**
   What `SuffixDot` finds: behind the dot at `d` (or the start, for -1) there is a nonempty
   run of characters that are not dots, and nothing but dots behind that run; unless all
   characters are dots.
   */
  ghost predicate EndsInRun(cs: seq<nat>, i: nat, d: int, k: int)
    requires i <= |cs|
  {
    && -1 <= d < k < i
    && (d >= 0 ==> cs[d] == 0)
    && (forall j :: d < j <= k ==> cs[j] != 0)
    && (forall j :: k < j < i ==> cs[j] == 0)
  }

  lemma {:induction false} LastDotRun(cs: seq<nat>, i: nat)
    requires i <= |cs|
    ensures LastDot(cs, i) >= 0 ==> cs[LastDot(cs, i)] == 0
    ensures forall j :: LastDot(cs, i) < j < i ==> cs[j] != 0
  {
    if i > 0 && cs[i - 1] != 0 { LastDotRun(cs, i - 1); }
  }

  lemma {:induction false} SuffixDotMeaning(cs: seq<nat>, i: nat) returns (k: int)
    requires i <= |cs|
    ensures if forall j :: 0 <= j < i ==> cs[j] == 0 then SuffixDot(cs, i) == -1
            else EndsInRun(cs, i, SuffixDot(cs, i), k)
  {
    k := i - 1;
    if i > 0 {
      if cs[i - 1] != 0 {
        LastDotRun(cs, i - 1);
      } else {
        k := SuffixDotMeaning(cs, i - 1);
      }
    }
  }

  /** The run determines the dot. */
  lemma {:induction false} RunIsUnique(cs: seq<nat>, i: nat, d: int, k: int, d': int, k': int)
    requires i <= |cs| && EndsInRun(cs, i, d, k) && EndsInRun(cs, i, d', k')
    ensures d == d' && k == k'
  {
    assert cs[k] != 0 && cs[k'] != 0;
  }

  // ----- Encoding and decoding -----

  lemma {:induction false} FoldConcat(s: seq<nat>, t: seq<nat>)
    ensures Fold(s + t) == Fold(s) * Pow2(5 * |t|) + Fold(t)
    decreases |t|
  {
    if t == [] {
      assert s + t == s;
    } else {
      var n := |t| - 1;
      assert (s + t)[..|s + t| - 1] == s + t[..n];
      FoldConcat(s, t[..n]);
      Times32(Fold(s), 5 * n);
    }
  }

  lemma {:induction false} Times32(x: nat, k: nat)
    ensures x * Pow2(k + 5) == x * Pow2(k) * 32
  {
    Pow2Add(k, 5);
    assert Pow2(5) == 32;
    assert x * (Pow2(k) * 32) == x * Pow2(k) * 32;
  }

  lemma {:induction false} FoldBound(cs: seq<nat>)
    requires forall i :: 0 <= i < |cs| ==> cs[i] < 32
    ensures Fold(cs) < Pow2(5 * |cs|)
  {
    if cs != [] {
      FoldBound(cs[..|cs| - 1]);
      Times32(1, 5 * (|cs| - 1));
    }
  }

  lemma {:induction false} FoldZeros(k: nat)
    ensures Fold(Zeros(k)) == 0
  {
    if k > 0 {
      assert Zeros(k)[..k - 1] == Zeros(k - 1);
      FoldZeros(k - 1);
    }
  }

  lemma {:induction false} FoldDigits(v: nat, k: nat)
    requires v < Pow2(5 * k)
    ensures Fold(Digits(v, k)) == v
    decreases k
  {
    if k > 0 {
      Times32(1, 5 * (k - 1));
      FoldDigits(v / 32, k - 1);
    }
  }

  lemma {:induction false} DigitsFold(cs: seq<nat>)
    requires forall i :: 0 <= i < |cs| ==> cs[i] < 32
    ensures Digits(Fold(cs), |cs|) == cs
  {
    if cs != [] { DigitsFold(cs[..|cs| - 1]); }
  }

  lemma {:induction false} DigitsAt(v: nat, k: nat, i: nat)
    requires i < k
    ensures Digits(v, k)[i] == Low(Shr(v, 5 * (k - 1 - i)), 5)
    decreases k
  {
    if i == k - 1 {
      ShrIsDiv(v, 5);
      assert Pow2(5) == 32;
      assert Shr(v, 0) == v;
    } else {
      DigitsAt(v / 32, k - 1, i);
      ShrIsDiv(v, 5);
      assert Pow2(5) == 32;
      ShrShr(v, 5, 5 * (k - 2 - i));
    }
  }

  lemma {:induction false} DigitsBelow32(v: nat, k: nat)
    ensures forall i :: 0 <= i < k ==> Digits(v, k)[i] < 32
    decreases k
  {
    if k > 0 { DigitsBelow32(v / 32, k - 1); }
  }

  lemma {:induction false} CharsAreName(n: nat)
    ensures IsName(Chars(n))
  {
    DigitsBelow32(Shr(n, 4), 12);
    SplitAt(n, 4);
    assert Pow2(4) == 16;
  }

  lemma {:induction false} EncodeChars(n: nat)
    requires n < Pow2(64)
    ensures Encode(Chars(n)) == n
  {
    SplitAt(n, 4);
    Pow2Add(60, 4);
    ShrAtLeast(n, 4, Pow2(60));
    FoldDigits(Shr(n, 4), 12);
    assert Pow2(4) == 16;
    assert Chars(n)[..12] == Digits(Shr(n, 4), 12);
  }

  lemma {:induction false} CharsEncode(cs: seq<nat>)
    requires IsName(cs)
    ensures Chars(Encode(cs)) == cs
  {
    assert Pow2(4) == 16;
    SplitUnique(Encode(cs), 4, Fold(cs[..12]), cs[12]);
    DigitsFold(cs[..12]);
    assert cs == cs[..12] + [cs[12]];
  }

  // ----- The arithmetic of the result -----

  /** The low part of a name without its thirteenth character. */
  lemma {:induction false} LowChars(n: nat, d: nat)
    requires n < Pow2(64) && d <= 11
    ensures Low(Shr(n, 4), 5 * (11 - d)) == Fold(Chars(n)[d + 1..12])
    ensures Fold(Chars(n)[d + 1..12]) < Pow2(5 * (11 - d))
  {
    UpperChars(n);
    CharsAreName(n);
    LowFold(Chars(n)[..12], d + 1);
    assert Chars(n)[..12][d + 1..] == Chars(n)[d + 1..12];
  }

  lemma {:induction false} UpperChars(n: nat)
    requires n < Pow2(64)
    ensures Shr(n, 4) == Fold(Chars(n)[..12])
  {
    EncodeChars(n);
    CharsAreName(n);
    assert Pow2(4) == 16;
    SplitUnique(n, 4, Fold(Chars(n)[..12]), Chars(n)[12]);
  }

  /** The characters from the `i`th on are the low bits of the folded number. */
  lemma {:induction false} LowFold(cs: seq<nat>, i: nat)
    requires i <= |cs| && forall j :: 0 <= j < |cs| ==> cs[j] < 32
    ensures Low(Fold(cs), 5 * (|cs| - i)) == Fold(cs[i..]) < Pow2(5 * (|cs| - i))
  {
    assert cs == cs[..i] + cs[i..];
    FoldConcat(cs[..i], cs[i..]);
    FoldBound(cs[i..]);
    SplitUnique(Fold(cs), 5 * (|cs| - i), Fold(cs[..i]), Fold(cs[i..]));
  }

  /** The mask keeps the characters after position `d` except the thirteenth, in place. */
  lemma {:induction false} MaskedChars(n: nat, d: nat, k: nat)
    requires n < Pow2(64) && d <= 11 && k == 5 * (11 - d)
    ensures Pow2(k + 4) >= 16 && And(n, Pow2(k + 4) - 16) == Fold(Chars(n)[d + 1..12]) * 16
  {
    LowChars(n, d);
    MaskedField(n, k);
  }

  lemma {:induction false} MaskedField(n: nat, k: nat)
    ensures Pow2(k + 4) >= 16 && And(n, Pow2(k + 4) - 16) == Low(Shr(n, 4), k) * 16
  {
    Pow2Add(k, 4);
    assert Pow2(4) == 16;
    AndHighMask(n, 4, Pow2(k) - 1);
    AndLowMask(Shr(n, 4), k);
  }

  /** The encoding of the suffix: the kept characters, then the thirteenth in a slot of five bits. */
  lemma {:induction false} EncodedSuffix(cs: seq<nat>, d: nat)
    requires IsName(cs) && d == SuffixDot(cs, 13)
    ensures d <= 11 && IsName(Suffix(cs))
    ensures Encode(Suffix(cs)) == Assembled(Fold(cs[d + 1..12]), cs[12], Pow2(5 * d))
  {
    var k := SuffixDotMeaning(cs, 13);
    var s, kept := Suffix(cs), cs[d + 1..];
    assert Zeros(d + 1) == Zeros(d) + [0];
    assert s == kept + Zeros(d) + [0];
    KeptFold(kept, d);
    assert kept[..|kept| - 1] == cs[d + 1..12];
  }

  lemma {:induction false} KeptFold(kept: seq<nat>, d: nat)
    requires kept != []
    ensures Fold(kept + Zeros(d)) * 16 == Assembled(Fold(kept[..|kept| - 1]), kept[|kept| - 1], Pow2(5 * d))
  {
    FoldConcat(kept, Zeros(d));
    FoldZeros(d);
    Distribute(Fold(kept[..|kept| - 1]), kept[|kept| - 1], Pow2(5 * d));
  }

  /** Characters `f`, the thirteenth character `c` behind them, and the dots that `p` stands for. */
  function Assembled(f: nat, c: nat, p: nat): nat {
    MulNonNegative(f, p);
    MulNonNegative(c, p);
    512 * (f * p) + 16 * (c * p)
  }

  lemma {:induction false} Distribute(f: nat, c: nat, p: nat)
    ensures (f * 32 + c) * p == 32 * (f * p) + c * p
  {
  }

  /** The two shifts and the addition, which do not overflow. */
  lemma {:induction false} ShiftedSum(f: nat, c: nat, d: nat)
    requires d <= 11 && f < Pow2(5 * (11 - d)) && c < 16
    ensures Low(Shl(f * 16, 5 + 5 * d, 64) + Shl(c, 4 + 5 * d, 64), 64) == Assembled(f, c, Pow2(5 * d))
  {
    var p := Pow2(5 * d);
    AssembledBelow(f, c, d);
    FivePowers(d);
    ScaleBy(f, 16, 32, p);
    ScaleBy(c, 1, 16, p);
    MulNonNegative(f, p);
    MulNonNegative(c, p);
    ShlFits(f * 16, 5 + 5 * d, 64);
    ShlFits(c, 4 + 5 * d, 64);
    LowIsIdentity(Assembled(f, c, p), 64);
  }

  lemma {:induction false} ShlFits(a: nat, k: nat, width: nat)
    requires a * Pow2(k) < Pow2(width)
    ensures Shl(a, k, width) == a * Pow2(k)
  {
    LowIsIdentity(a * Pow2(k), width);
  }

  lemma {:induction false} ScaleBy(f: nat, x: nat, y: nat, p: nat)
    ensures (f * x) * (y * p) == (x * y) * (f * p)
  {
    assert (f * x) * (y * p) == f * x * y * p;
    assert (x * y) * (f * p) == f * x * y * p;
  }

  lemma {:induction false} FivePowers(d: nat)
    ensures Pow2(5 + 5 * d) == 32 * Pow2(5 * d) && Pow2(4 + 5 * d) == 16 * Pow2(5 * d)
  {
    Pow2Add(4, 5 * d);
    Pow2Add(5, 5 * d);
    assert Pow2(4) == 16 && Pow2(5) == 32;
  }

  lemma {:induction false} AssembledBelow(f: nat, c: nat, d: nat)
    requires d <= 11 && f < Pow2(5 * (11 - d)) && c < 16
    ensures Assembled(f, c, Pow2(5 * d)) < Pow2(64)
  {
    SixtyBits(d);
    ProductBelow(f * 32 + c, 32 * Pow2(5 * (11 - d)), Pow2(5 * d));
    Distribute(f, c, Pow2(5 * d));
  }

  lemma {:induction false} SixtyBits(d: nat)
    requires d <= 11
    ensures (32 * Pow2(5 * (11 - d))) * Pow2(5 * d) * 16 == Pow2(64)
  {
    var k := 5 * (11 - d);
    assert Pow2(5) == 32 && Pow2(4) == 16;
    Pow2Add(5, k);
    Pow2Add(5 + k, 5 * d);
    Pow2Add(60, 4);
    assert 5 + k + 5 * d == 60;
  }

  // ----- The routine -----

  /** How the loop records a dot: the number of bits to its right, or 0 for none. */
  function BitsAfter(d: int): nat
    requires -1 <= d <= 11
  {
    if d == -1 then 0 else 59 - 5 * d
  }

  lemma {:induction false} CharIsMasked(n: nat, i: nat)
    requires i < 12
    ensures And(Shr(n, 59 - 5 * i), 31) == Chars(n)[i]
  {
    assert Pow2(5) == 32;
    AndLowMask(Shr(n, 59 - 5 * i), 5);
    DigitsAt(Shr(n, 4), 12, i);
    ShrShr(n, 4, 5 * (11 - i));
  }

  /** The loop of `name_suffix` over the first twelve characters, and the thirteenth. */
  method FindDot(n: nat) returns (bitsAfterDot: nat)
    ensures SuffixDot(Chars(n), 13) <= 11
    ensures bitsAfterDot == BitsAfter(SuffixDot(Chars(n), 13))
  {
    ghost var cs, i := Chars(n), 0;
    bitsAfterDot := 0;
    var tmp, remainingBits := 0, 59;
    while remainingBits >= 4
      invariant 0 <= i <= 12 && remainingBits == 59 - 5 * i
      invariant tmp == BitsAfter(LastDot(cs, i)) && bitsAfterDot == BitsAfter(SuffixDot(cs, i))
    {
      CharIsMasked(n, i);
      var c := And(Shr(n, remainingBits), 31);
      if c == 0 {
        tmp := remainingBits;
      } else {
        bitsAfterDot := tmp;
      }
      remainingBits := remainingBits - 5;
      i := i + 1;
    }
    ThirteenthIsMasked(n);
    if And(n, 15) != 0 {
      bitsAfterDot := tmp;
    }
  }

  lemma {:induction false} ThirteenthIsMasked(n: nat)
    ensures And(n, 15) == Chars(n)[12] < 16
  {
    assert Pow2(4) == 16;
    AndLowMask(n, 4);
    SplitAt(n, 4);
  }

  /** `name_suffix` */
  method ComputeSuffix(n: nat) returns (r: nat)
    requires n < Pow2(64)
    ensures r == SuffixOf(n)
  {
    var bitsAfterDot := FindDot(n);
    if bitsAfterDot == 0 {
      NoDot(n);
      return n;
    }
    SuffixByShifts(n, SuffixDot(Chars(n), 13));
    r := ShiftOut(n, bitsAfterDot);
  }

  /** The closing statements: mask the characters after the dot and shift them to the top. */
  function ShiftOut(n: nat, bitsAfterDot: nat): nat
    requires 4 <= bitsAfterDot <= 59
  {
    Pow2Monotone(4, bitsAfterDot);
    assert Pow2(4) == 16;
    var thirteenth := And(n, 15);
    var mask := Pow2(bitsAfterDot) - 16;
    var shift := 64 - bitsAfterDot;
    Low(Shl(And(n, mask), shift, 64) + Shl(thirteenth, shift - 1, 64), 64)
  }

  /** What `ComputeSuffix` returns: the encoding of the suffix of the characters. */
  function SuffixOf(n: nat): nat {
    Encode(Suffix(Chars(n)))
  }

  lemma {:induction false} NoDot(n: nat)
    requires n < Pow2(64) && SuffixDot(Chars(n), 13) == -1
    ensures SuffixOf(n) == n
  {
    NothingCut(Chars(n));
    EncodeChars(n);
  }

  lemma {:induction false} SuffixByShifts(n: nat, d: nat)
    requires n < Pow2(64) && d == SuffixDot(Chars(n), 13) && d <= 11
    ensures ShiftOut(n, 59 - 5 * d) == SuffixOf(n)
  {
    CharsAreName(n);
    EncodedSuffix(Chars(n), d);
    ShiftOutOfChars(n, d);
  }

  lemma {:induction false} ShiftOutOfChars(n: nat, d: nat)
    requires n < Pow2(64) && d <= 11
    ensures ShiftOut(n, 59 - 5 * d) == Assembled(Fold(Chars(n)[d + 1..12]), Chars(n)[12], Pow2(5 * d))
  {
    ThirteenthIsMasked(n);
    LowChars(n, d);
    MaskedChars(n, d, 55 - 5 * d);
    ShiftedParts(n, d, 59 - 5 * d, Fold(Chars(n)[d + 1..12]), Chars(n)[12]);
  }

  lemma {:induction false} ShiftedParts(n: nat, d: nat, b: nat, f: nat, c: nat)
    requires d <= 11 && b == 59 - 5 * d && f < Pow2(5 * (11 - d)) && c < 16
    requires Pow2(b) >= 16 && And(n, Pow2(b) - 16) == f * 16 && And(n, 15) == c
    ensures ShiftOut(n, b) == Assembled(f, c, Pow2(5 * d))
  {
    ShiftedSum(f, c, d);
  }

  // ----- Idempotence -----

  /** A run at the end determines the dot that is found. */
  lemma {:induction false} RunGivesDot(cs: seq<nat>, d: int, k: int)
    requires EndsInRun(cs, |cs|, d, k)
    ensures SuffixDot(cs, |cs|) == d
  {
    var k' := SuffixDotMeaning(cs, |cs|);
    assert cs[k] != 0;
    RunIsUnique(cs, |cs|, d, k, SuffixDot(cs, |cs|), k');
  }

  /** Cutting off everything up to the dot brings the run to the front. */
  lemma {:induction false} RunOfSuffix(cs: seq<nat>, d: int, k: int)
    requires EndsInRun(cs, |cs|, d, k)
    ensures EndsInRun(cs[d + 1..] + Zeros(d + 1), |cs|, -1, k - (d + 1))
  {
    ShiftedRun(cs, cs[d + 1..] + Zeros(d + 1), d, k);
  }

  lemma {:induction false} ShiftedRun(cs: seq<nat>, s: seq<nat>, d: int, k: int)
    requires EndsInRun(cs, |cs|, d, k) && |s| == |cs|
    requires forall j {:trigger s[j]} :: 0 <= j < |cs| - (d + 1) ==> s[j] == cs[j + (d + 1)]
    requires forall j :: |cs| - (d + 1) <= j < |cs| ==> s[j] == 0
    ensures EndsInRun(s, |cs|, -1, k - (d + 1))
  {
  }

  /** In a suffix no dot comes before the last character. */
  lemma {:induction false} SuffixHasNoInnerDot(cs: seq<nat>)
    ensures SuffixDot(Suffix(cs), |cs|) == -1
  {
    var d := SuffixDot(cs, |cs|);
    if d == -1 {
      NothingCut(cs);
    } else {
      var k := SuffixDotMeaning(cs, |cs|);
      RunOfSuffix(cs, d, k);
      RunGivesDot(Suffix(cs), -1, k - (d + 1));
    }
  }

  lemma {:induction false} NothingCut(cs: seq<nat>)
    requires SuffixDot(cs, |cs|) == -1
    ensures Suffix(cs) == cs
  {
    assert cs[0..] == cs && cs + Zeros(0) == cs;
  }

  /** Taking the suffix twice is taking it once. */
  lemma {:induction false} SuffixIsIdempotent(cs: seq<nat>)
    ensures Suffix(Suffix(cs)) == Suffix(cs)
  {
    SuffixHasNoInnerDot(cs);
    NothingCut(Suffix(cs));
  }

  lemma {:induction false} NameSuffixIsIdempotent(n: nat)
    ensures SuffixOf(SuffixOf(n)) == SuffixOf(n)
  {
    var cs := Chars(n);
    CharsAreName(n);
    var d := SuffixDot(cs, 13);
    if d >= 0 {
      EncodedSuffix(cs, d);
    } else {
      NothingCut(cs);
    }
    CharsEncode(Suffix(cs));
    SuffixIsIdempotent(cs);
  }
}
