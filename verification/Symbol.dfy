/**
 Token symbols: a 64-bit word whose lowest byte is the number of decimals and whose other
 bytes spell the name, lowest byte first.
 */
module Symbol {
  import opened Bits
  import opened Decimal

  /** The exceptions of `symbol.hpp` and `asset.cpp`. */
  datatype Error =
    | MissingSpace | MissingFraction | EmptySymbol | MissingComma
    | PrecisionTooLarge | InvalidCharacter
    | NameTooLong          // the eighth letter would be shifted by 64 bits, which C++ leaves undefined
    | ParseError | Overflow | Underflow | AmountTooLarge

  datatype Result<T> = Ok(value: T) | Err(error: Error) {
    predicate IsFailure() { Err? }
    function PropagateFailure<U>(): Result<U> requires Err? { Err(error) }
    function Extract(): T requires Ok? { value }
  }

  const MAX_PRECISION: nat := 18
  const MAX_NAME: nat := 7

  predicate IsUpper(c: char) {
    'A' <= c <= 'Z'
  }

  predicate AllUpper(s: string) {
    forall i :: 0 <= i < |s| ==> IsUpper(s[i])
  }

  function DecimalsOf(symbol: nat): nat {
    symbol % 256
  }

  function NameOf(symbol: nat): string {
    Bytes(symbol / 256)
  }

  /** The bytes of `v`, lowest first, up to the highest nonzero one. */
  function Bytes(v: nat): string {
    if v == 0 then "" else [(v % 256) as char] + Bytes(v / 256)
  }

  /** `symbol::valid`, on a 64-bit word. */
  predicate ValidSymbol(symbol: nat) {
    symbol < Pow2(64) && DecimalsOf(symbol) <= MAX_PRECISION && AllUpper(NameOf(symbol))
  }

  function PackName(name: string): nat
    requires AllUpper(name)
  {
    if name == "" then 0 else name[0] as nat + 256 * PackName(name[1..])
  }

  function Pack(decimals: nat, name: string): nat
    requires AllUpper(name)
  {
    decimals + 256 * PackName(name)
  }

  lemma {:induction false} BytesOfPackedName(name: string)
    requires AllUpper(name)
    ensures Bytes(PackName(name)) == name
  {
    if name != "" {
      BytesOfPackedName(name[1..]);
      var v := PackName(name);
      assert v % 256 == name[0] as nat && v / 256 == PackName(name[1..]);
    }
  }

  lemma {:induction false} PackedNameOfBytes(v: nat)
    requires AllUpper(Bytes(v))
    ensures PackName(Bytes(v)) == v
  {
    if v != 0 {
      assert Bytes(v)[1..] == Bytes(v / 256);
      PackedNameOfBytes(v / 256);
    }
  }

  /** Packing and unpacking a symbol are inverse to each other. */
  lemma SymbolRoundTrip(decimals: nat, name: string, symbol: nat)
    requires decimals < 256 && AllUpper(name) && AllUpper(NameOf(symbol))
    ensures DecimalsOf(Pack(decimals, name)) == decimals && NameOf(Pack(decimals, name)) == name
    ensures Pack(DecimalsOf(symbol), NameOf(symbol)) == symbol
  {
    var v := Pack(decimals, name);
    assert v % 256 == decimals && v / 256 == PackName(name);
    BytesOfPackedName(name);
    PackedNameOfBytes(symbol / 256);
  }

  /** Byte 0 of a packed symbol holds the decimals, the bytes above it hold the letters in their order, then zeros. */
  lemma {:induction false} PackedBytes(decimals: nat, name: string, i: nat)
    requires decimals < 256 && AllUpper(name)
    ensures Byte(Pack(decimals, name), 0) == decimals
    ensures Byte(Pack(decimals, name), i + 1) == if i < |name| then name[i] as nat else 0
  {
    var v := Pack(decimals, name);
    assert v % 256 == decimals && v / 256 == PackName(name);
    LetterBytes(name, i);
  }

  lemma {:induction false} LetterBytes(name: string, i: nat)
    requires AllUpper(name)
    ensures Byte(PackName(name), i) == if i < |name| then name[i] as nat else 0
    decreases i
  {
    if name == "" {
      ZeroBytes(i);
    } else {
      var v := PackName(name);
      assert v % 256 == name[0] as nat && v / 256 == PackName(name[1..]);
      if i > 0 { LetterBytes(name[1..], i - 1); }
    }
  }

  lemma {:induction false} ZeroBytes(i: nat)
    ensures Byte(0, i) == 0
  {
    if i > 0 { ZeroBytes(i - 1); }
  }

  lemma {:induction false} PackedNameBound(name: string)
    requires AllUpper(name)
    ensures PackName(name) < Pow2(8 * |name|)
  {
    if name != "" {
      PackedNameBound(name[1..]);
      Pow2Byte(8 * |name[1..]|);
    }
  }

  lemma {:induction false} BytesLength(v: nat, n: nat)
    requires v < Pow2(8 * n)
    ensures |Bytes(v)| <= n
    decreases n
  {
    if v != 0 {
      Pow2Byte(8 * (n - 1));
      BytesLength(v / 256, n - 1);
    }
  }

  /** Names of at most seven capitals are exactly what fits next to the decimals. */
  lemma PackedFits(decimals: nat, name: string)
    requires decimals < 256 && AllUpper(name) && |name| <= MAX_NAME
    ensures Pack(decimals, name) < Pow2(64)
  {
    PackedNameBound(name);
    Pow2Monotone(8 * |name|, 56);
    Pow2Byte(56);
  }

  lemma ValidNameLength(symbol: nat)
    requires symbol < Pow2(64)
    ensures |NameOf(symbol)| <= MAX_NAME
  {
    Pow2Byte(56);
    BytesLength(symbol / 256, 7);
  }

  // ----- The loops of symbol.hpp -----

  /** `symbol::name` */
  method Name(symbol: nat) returns (result: string)
    ensures result == NameOf(symbol)
  {
    var v: nat := symbol / 256;
    result := "";
    while v > 0
      invariant NameOf(symbol) == result + Bytes(v)
    {
      result := result + [(v % 256) as char];
      v := v / 256;
    }
  }

  /** `symbol::precision` */
  method Precision(symbol: nat) returns (r: Result<nat>)
    ensures r == if DecimalsOf(symbol) <= MAX_PRECISION then Ok(Pow10(DecimalsOf(symbol))) else Err(PrecisionTooLarge)
  {
    if DecimalsOf(symbol) > MAX_PRECISION {
      return Err(PrecisionTooLarge);
    }
    var p10, p := 1, DecimalsOf(symbol);
    while p > 0
      invariant 0 <= p <= DecimalsOf(symbol) && p10 == Pow10(DecimalsOf(symbol) - p)
    {
      p10 := p10 * 10;
      p := p - 1;
    }
    r := Ok(p10);
  }

  /** Up to the first null character, as `c_str` hands a string to C code. */
  function CString(s: string): string {
    if s == "" || s[0] == '\0' then "" else [s[0]] + CString(s[1..])
  }

  /** What `string_to_symbol` makes of a name: the first letter that is not a capital, or the eighth, stops it. */
  function SymbolValue(decimals: nat, name: string): Result<nat> {
    if AllUpper(name) && |name| <= MAX_NAME then Ok(Pack(decimals, name))
    else if |name| > MAX_NAME && AllUpper(name[..MAX_NAME + 1]) then Err(NameTooLong)
    else Err(InvalidCharacter)
  }

  /** `string_to_symbol` */
  method StringToSymbol(decimals: nat, name: string) returns (r: Result<nat>)
    requires decimals < 256
    ensures r == SymbolValue(decimals, name)
  {
    var result, i := 0, 0;
    while i < |name|
      invariant 0 <= i <= |name| && i <= MAX_NAME
      invariant AllUpper(name[..i]) && result == 256 * PackName(name[..i])
    {
      if !IsUpper(name[i]) {
        assert i < |name[..i + 1]|;
        return Err(InvalidCharacter);
      }
      assert name[..i + 1] == name[..i] + [name[i]];
      if i == MAX_NAME {
        return Err(NameTooLong);
      }
      OrNextByte(name[..i], name[i]);
      result := Or(result, name[i] as nat * Pow2(8 * (i + 1)));
      i := i + 1;
    }
    assert name[..i] == name;
    OrLowestByte(PackName(name), decimals);
    r := Ok(Or(result, decimals));
  }

  /** Or-ing the next letter above the letters packed so far. */
  lemma OrNextByte(s: string, c: char)
    requires AllUpper(s + [c]) && AllUpper(s)
    ensures Or(256 * PackName(s), c as nat * Pow2(8 * (|s| + 1))) == 256 * PackName(s + [c])
  {
    PackedNameBound(s);
    PackNameAppend(s, c);
    NextByte(PackName(s), c as nat, 8 * |s|);
  }

  lemma NextByte(low: nat, c: nat, k: nat)
    requires low < Pow2(k)
    ensures Or(256 * low, c * Pow2(k + 8)) == 256 * (low + c * Pow2(k))
  {
    Pow2Byte(k);
    OrAbove(256 * low, k + 8, c);
    ScaleByte(c, Pow2(k));
  }

  lemma Pow2Byte(k: nat)
    ensures Pow2(k + 8) == 256 * Pow2(k)
  {
    Pow2Add(8, k);
    assert Pow2(8) == 256;
  }

  lemma ScaleByte(c: nat, p: nat)
    ensures c * (256 * p) == 256 * (c * p)
  {
  }

  lemma {:induction false} PackNameAppend(s: string, c: char)
    requires AllUpper(s) && AllUpper(s + [c])
    ensures PackName(s + [c]) == PackName(s) + c as nat * Pow2(8 * |s|)
  {
    if s == "" {
      assert s + [c] == [c] && [c][1..] == "";
    } else {
      assert (s + [c])[1..] == s[1..] + [c];
      PackNameAppend(s[1..], c);
      Pow2Byte(8 * |s[1..]|);
      ScaleByte(c as nat, Pow2(8 * |s[1..]|));
    }
  }

  lemma OrLowestByte(v: nat, b: nat)
    requires b < 256
    ensures Or(256 * v, b) == b + 256 * v
  {
    assert Pow2(8) == 256;
    ShrOfProduct(v, 8);
    OrDisjoint(v * Pow2(8), 8, b);
  }
}
