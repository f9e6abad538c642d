/**
 Block headers: the block number kept inside the block id, and the validation of header
 extensions.
 */
module BlockHeader {
  import opened Bits

  // ----- Byte order -----

  /** The `k` lowest bytes of `x`, lowest first. */
  function ToBytes(x: nat, k: nat): (bs: seq<nat>)
    ensures |bs| == k && forall i :: 0 <= i < k ==> bs[i] < 256
    decreases x, k
  {
    if k == 0 then [] else [x % 256] + ToBytes(x / 256, k - 1)
  }

  function FromBytes(bs: seq<nat>): nat {
    if bs == [] then 0 else bs[0] + 256 * FromBytes(bs[1..])
  }

  function Reverse(bs: seq<nat>): (r: seq<nat>)
    ensures |r| == |bs| && forall i :: 0 <= i < |bs| ==> r[i] == bs[|bs| - 1 - i]
  {
    if bs == [] then [] else Reverse(bs[1..]) + [bs[0]]
  }

  /** `fc::endian_reverse_u32`: the four bytes of a 32-bit word in the opposite order. */
  function EndianReverse(x: nat): nat {
    FromBytes(Reverse(ToBytes(x, 4)))
  }

  lemma {:induction false} BytesRoundTrip(bs: seq<nat>)
    requires forall i :: 0 <= i < |bs| ==> bs[i] < 256
    ensures ToBytes(FromBytes(bs), |bs|) == bs && FromBytes(bs) < Pow2(8 * |bs|)
  {
    if bs != [] {
      BytesRoundTrip(bs[1..]);
      Pow2Add(8, 8 * |bs[1..]|);
      assert Pow2(8) == 256;
    }
  }

  lemma {:induction false} FromToBytes(x: nat, k: nat)
    requires x < Pow2(8 * k)
    ensures FromBytes(ToBytes(x, k)) == x
    decreases k
  {
    if k > 0 {
      Pow2Add(8, 8 * (k - 1));
      assert Pow2(8) == 256;
      FromToBytes(x / 256, k - 1);
    }
  }

  /** Reversing the bytes of a 32-bit word twice gives it back. */
  lemma EndianReverseTwice(x: nat)
    requires x < Pow2(32)
    ensures EndianReverse(x) < Pow2(32) && EndianReverse(EndianReverse(x)) == x
  {
    var bs := ToBytes(x, 4);
    BytesRoundTrip(Reverse(bs));
    assert Reverse(Reverse(bs)) == bs;
    FromToBytes(x, 4);
  }

  lemma {:induction false} ByteOfBytes(x: nat, k: nat, i: nat)
    requires i < k
    ensures ToBytes(x, k)[i] == Byte(x, i)
    decreases i
  {
    if i > 0 { ByteOfBytes(x / 256, k - 1, i - 1); }
  }

  /** The four bytes come out in the opposite order. */
  lemma EndianReverseBytes(x: nat, i: nat)
    requires i < 4
    ensures Byte(EndianReverse(x), i) == Byte(x, 3 - i)
  {
    var bs := Reverse(ToBytes(x, 4));
    BytesRoundTrip(bs);
    ByteOfBytes(EndianReverse(x), 4, i);
    ByteOfBytes(x, 4, 3 - i);
  }

  /** The lowest `8 * k` bits hold the `k` lowest bytes. */
  lemma {:induction false} LowBytes(x: nat, k: nat, i: nat)
    requires i < k
    ensures Byte(Low(x, 8 * k), i) == Byte(x, i)
    decreases k
  {
    LowByteOff(x, k - 1);
    if i > 0 { LowBytes(x / 256, k - 1, i - 1); }
  }

  lemma {:induction false} LowByteOff(x: nat, k: nat)
    ensures Low(x, 8 * (k + 1)) % 256 == x % 256 && Low(x, 8 * (k + 1)) / 256 == Low(x / 256, 8 * k)
  {
    var n := 8 * (k + 1);
    var q, l, p := Shr(x, n), Low(x, n), Pow2(8 * k);
    SplitAt(x, n);
    Pow2Add(8, 8 * k);
    assert Pow2(8) == 256;
    ByteOff(q, p, l);
    SplitUnique(x / 256, 8 * k, q, l / 256);
  }

  lemma ByteOff(q: nat, p: nat, l: nat)
    requires l < 256 * p
    ensures var x := q * (256 * p) + l; x % 256 == l % 256 && x / 256 == q * p + l / 256 && l / 256 < p
  {
    assert q * (256 * p) == 256 * (q * p);
    DivModUnique(q * (256 * p) + l, 256, q * p + l / 256, l % 256);
  }

  // ----- Block ids -----

  /** A 256-bit digest as four 64-bit words. */
  datatype Digest = Digest(w0: nat, w1: nat, w2: nat, w3: nat) {
    predicate Valid() {
      w0 < Pow2(64) && w1 < Pow2(64) && w2 < Pow2(64) && w3 < Pow2(64)
    }
  }

  /** `block_header::num_from_id`: the argument is narrowed to 32 bits. */
  function NumFromId(id: Digest): nat {
    EndianReverse(Low(id.w0, 32))
  }

  /** `block_header::id`, for the digest of the header and its block number. */
  method Id(digest: Digest, blockNum: nat) returns (id: Digest)
    requires digest.Valid() && blockNum < Pow2(32)
    ensures id.Valid() && NumFromId(id) == blockNum
    ensures forall i :: 0 <= i < 4 ==> Byte(id.w0, i) == Byte(blockNum, 3 - i)
    ensures Shr(id.w0, 32) == Shr(digest.w0, 32)
    ensures id.w1 == digest.w1 && id.w2 == digest.w2 && id.w3 == digest.w3
  {
    EndianReverseTwice(blockNum);
    var w0 := StoreLow(digest.w0, EndianReverse(blockNum), 32);
    id := digest.(w0 := w0);
    forall i | 0 <= i < 4 ensures Byte(id.w0, i) == Byte(blockNum, 3 - i) {
      LowBytes(id.w0, 4, i);
      EndianReverseBytes(blockNum, i);
    }
  }

  /** Clear the low half of a word of `2 * h` bits with a mask, then add a number that fits there. */
  method StoreLow(word: nat, low: nat, h: nat) returns (w: nat)
    requires word < Pow2(2 * h) && low < Pow2(h)
    ensures w < Pow2(2 * h) && Shr(w, h) == Shr(word, h) && Low(w, h) == low
  {
    w := And(word, HighMask(h));
    ClearLow(word, h);
    StoredParts(w + low, Shr(word, h), low, h);
    w := Low(w + low, 2 * h);
  }

  /** Ones in the upper half of a word of `2 * h` bits. */
  function HighMask(h: nat): nat {
    MulNonNegative(Pow2(h) - 1, Pow2(h));
    (Pow2(h) - 1) * Pow2(h)
  }

  lemma ClearLow(x: nat, h: nat)
    requires x < Pow2(2 * h)
    ensures And(x, HighMask(h)) == Shr(x, h) * Pow2(h)
    ensures Shr(x, h) < Pow2(h)
  {
    Pow2Add(h, h);
    ShrAtLeast(x, h, Pow2(h));
    AndHighMask(x, h, Pow2(h) - 1);
    AndLowMask(Shr(x, h), h);
    LowIsIdentity(Shr(x, h), h);
  }

  lemma StoredParts(w: nat, high: nat, low: nat, h: nat)
    requires high < Pow2(h) && low < Pow2(h) && w == high * Pow2(h) + low
    ensures Low(w, 2 * h) == w < Pow2(2 * h)
    ensures Shr(w, h) == high && Low(w, h) == low
  {
    SplitUnique(w, h, high, low);
    TwoDigitsBelow(high, low, Pow2(h));
    Pow2Add(h, h);
    LowIsIdentity(w, 2 * h);
  }

  lemma TwoDigitsBelow(high: nat, low: nat, p: nat)
    requires high < p && low < p
    ensures high * p + low < p * p
  {
    MulMonotone(high + 1, p, p);
    assert (high + 1) * p == high * p + p;
  }

  // ----- Header extensions -----

  datatype RawExtension = RawExtension(id: nat, data: seq<nat>)

  /** The extension types known to the node, with whether a type may occur only once. */
  type Registry = map<nat, bool>

  datatype Extraction<E> =
    | Extracted(extensions: seq<E>)
    | OutOfOrder(at: nat)
    | NotSupported(at: nat)
    | Repeated(at: nat)

  /**
   The first `n` entries are in ascending order of type, all recognised, and no unique type
   occurs twice anywhere among them.
   */
  ghost predicate Acceptable(raw: seq<RawExtension>, registry: Registry, n: nat)
    requires n <= |raw|
  {
    && (forall i, j :: 0 <= i < j < n ==> raw[i].id <= raw[j].id)
    && (forall i :: 0 <= i < n ==> raw[i].id in registry)
    && (forall i, j :: 0 <= i < j < n && raw[i].id == raw[j].id ==> !IsUnique(registry, raw[i].id))
  }

  predicate IsUnique(registry: Registry, id: nat) {
    id in registry && registry[id]
  }

  /** Entry `k` is known and stands right after its predecessor. */
  predicate Follows(raw: seq<RawExtension>, registry: Registry, k: nat)
    requires k < |raw|
  {
    && raw[k].id in registry
    && (k > 0 ==> raw[k - 1].id <= raw[k].id)
    && (k > 0 && IsUnique(registry, raw[k].id) ==> raw[k - 1].id != raw[k].id)
  }

  /** Each of the first `n` entries stands right after its predecessor. */
  predicate Chained(raw: seq<RawExtension>, registry: Registry, n: nat)
    requires n <= |raw|
  {
    n == 0 || (Chained(raw, registry, n - 1) && Follows(raw, registry, n - 1))
  }

  lemma NextIsAcceptable(raw: seq<RawExtension>, registry: Registry, n: nat)
    requires n < |raw| && Acceptable(raw, registry, n)
    ensures Acceptable(raw, registry, n + 1) <==> Follows(raw, registry, n)
  {
    if n > 0 && raw[n - 1].id < raw[n].id {
      assert forall i :: 0 <= i < n ==> raw[i].id < raw[n].id;
    }
  }

  /** Comparing neighbours decides the property of all pairs. */
  lemma {:induction false} NeighboursSuffice(raw: seq<RawExtension>, registry: Registry, n: nat)
    requires n <= |raw|
    ensures Chained(raw, registry, n) <==> Acceptable(raw, registry, n)
    decreases n
  {
    if n > 0 {
      NeighboursSuffice(raw, registry, n - 1);
      if Acceptable(raw, registry, n - 1) { NextIsAcceptable(raw, registry, n - 1); }
    }
  }

  /** The first entry that does not follow its predecessor is a fault of the whole list. */
  lemma FirstFault(raw: seq<RawExtension>, registry: Registry, n: nat)
    requires n < |raw| && Chained(raw, registry, n) && !Follows(raw, registry, n)
    ensures Acceptable(raw, registry, n) && !Acceptable(raw, registry, n + 1) && !Acceptable(raw, registry, |raw|)
  {
    NeighboursSuffice(raw, registry, n);
    NextIsAcceptable(raw, registry, n);
  }

  /** `validate_and_extract_header_extensions`, with the decoder of extension data as a parameter. */
  method ValidateAndExtract<E>(raw: seq<RawExtension>, registry: Registry, decode: RawExtension -> E)
    returns (r: Extraction<E>)
    ensures r.Extracted? <==> Acceptable(raw, registry, |raw|)
    ensures r.Extracted? ==> |r.extensions| == |raw| && forall i :: 0 <= i < |raw| ==> r.extensions[i] == decode(raw[i])
    ensures !r.Extracted? ==> r.at < |raw| && Acceptable(raw, registry, r.at) && !Acceptable(raw, registry, r.at + 1)
    ensures r.OutOfOrder? ==> r.at > 0 && raw[r.at].id < raw[r.at - 1].id
    ensures r.NotSupported? ==> raw[r.at].id !in registry && (r.at > 0 ==> raw[r.at - 1].id <= raw[r.at].id)
    ensures r.Repeated? ==> r.at > 0 && raw[r.at].id == raw[r.at - 1].id && IsUnique(registry, raw[r.at].id)
  {
    var results := [];
    var lowerBound := 0;
    var i := 0;
    while i < |raw|
      invariant 0 <= i <= |raw| && |results| == i
      invariant lowerBound == if i == 0 then 0 else raw[i - 1].id
      invariant Chained(raw, registry, i)
      invariant forall j :: 0 <= j < i ==> results[j] == decode(raw[j])
    {
      var id := raw[i].id;
      if id < lowerBound {
        FirstFault(raw, registry, i);
        return OutOfOrder(i);
      }
      if id !in registry {
        FirstFault(raw, registry, i);
        return NotSupported(i);
      }
      results := results + [decode(raw[i])];
      if registry[id] && !(i == 0 || id > lowerBound) {
        FirstFault(raw, registry, i);
        return Repeated(i);
      }
      lowerBound := id;
      i := i + 1;
    }
    NeighboursSuffice(raw, registry, |raw|);
    r := Extracted(results);
  }
}
