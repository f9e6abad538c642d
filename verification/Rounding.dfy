/**
 Rounding an integer to a given number of significant bits, half to even, in two ways:
 by comparing the discarded remainder with half a unit, and by the sticky-bit squeeze
 that the conversion routines perform.
 */
module Rounding {
  import opened Bits

  /** `a / 2^k` rounded to the nearest integer, ties to even. */
  function RoundHalfEven(a: nat, k: nat): nat {
    var q, r := Shr(a, k), Low(a, k);
    if 2 * r > Pow2(k) || (2 * r == Pow2(k) && q % 2 == 1) then q + 1 else q
  }

  /** `a` rounded half to even to at most `p` significant bits. */
  function RoundToBits(a: nat, p: nat): nat {
    if BitLength(a) <= p then a
    else RoundHalfEven(a, BitLength(a) - p) * Pow2(BitLength(a) - p)
  }

  /** The squeeze: drop `j` bits, keeping their disjunction in the last place. */
  function Squeeze(a: nat, j: nat): nat {
    Or(Shr(a, j), FromBool(And(a, Pow2(j) - 1) != 0))
  }

  /** The finish: or bit P into bit R, add one, drop Q and R. */
  function Finish(t: nat): nat {
    Shr(Or(t, FromBool(And(t, 4) != 0)) + 1, 2)
  }

  lemma FinishRounds(t: nat)
    ensures Finish(t) == RoundHalfEven(t, 2)
  {
    AndBit(t, 2);
    assert Pow2(2) == 4;
    ShrIsDiv(t, 2);
    var b := And(t, 4) != 0;
    OrLowBit(t, b);
    ShrIsDiv(Or(t, FromBool(b)) + 1, 2);
  }

  /** Rounding after the squeeze is rounding before it. */
  lemma {:induction false} SqueezeRounds(a: nat, j: nat)
    ensures RoundHalfEven(Squeeze(a, j), 2) == RoundHalfEven(a, j + 2)
  {
    var b, l := Shr(a, j), Low(a, j);
    AndLowMask(a, j);
    OrLowBit(b, l != 0);
    SplitAt(a, j);
    QuarterOf(Squeeze(a, j));
    QuarterOf(b);
    ShrShr(a, j, 2);
    LowConcat(a, j, 2);
    RemainderAgainstHalf(b % 4, Pow2(j), l);
    assert Pow2(j + 2) == 4 * Pow2(j);
  }

  lemma {:induction false} QuarterOf(b: nat)
    ensures Shr(b, 2) == b / 4 && Low(b, 2) == b % 4 && Pow2(2) == 4
  {
    ShrIsDiv(b, 2);
  }

  lemma RemainderAgainstHalf(c: nat, p: nat, l: nat)
    requires c < 4 && l < p
    ensures 2 * (c * p + l) > 4 * p <==> c == 3 || (c == 2 && l > 0)
    ensures 2 * (c * p + l) == 4 * p <==> c == 2 && l == 0
  {
    if c == 0 {
    } else if c == 1 {
    } else if c == 2 {
    } else {
      assert c * p == 3 * p;
    }
  }

  /**
   The squeeze loses nothing: for every precision `p` and every `a` longer than `p + 2` bits,
   squeezing to `p + 2` bits and finishing is rounding `a` itself to `p` bits.
   */
  lemma StickySqueezeLosesNothing(a: nat, p: nat)
    requires BitLength(a) > p + 2
    ensures Finish(Squeeze(a, BitLength(a) - (p + 2))) * Pow2(BitLength(a) - p) == RoundToBits(a, p)
  {
    var j := BitLength(a) - (p + 2);
    SqueezeRounds(a, j);
    FinishRounds(Squeeze(a, j));
  }

  /** One bit too many: doubling makes room for the empty sticky bit. */
  lemma DoubledRounds(a: nat)
    ensures Finish(2 * a) == RoundHalfEven(a, 1)
  {
    FinishRounds(2 * a);
    ShrIsDiv(2 * a, 2);
    ShrIsDiv(a, 1);
    assert Pow2(1) == 2 && Pow2(2) == 4;
  }

  /** Rounding `p + k` bits to `p` stays within `p` bits, or carries to `2^p`. */
  lemma {:induction false} RoundedBracket(a: nat, k: nat, p: nat)
    requires p > 0 && BitLength(a) == p + k
    ensures Pow2(p - 1) <= RoundHalfEven(a, k) <= Pow2(p)
  {
    BitLengthBracket(a);
    Pow2Add(p - 1, k);
    Pow2Add(p, k);
    assert p - 1 + k == BitLength(a) - 1;
    ShrAtLeast(a, k, Pow2(p - 1));
    ShrAtLeast(a, k, Pow2(p));
  }

  function Dist(x: int, y: int): nat {
    if x <= y then y - x else x - y
  }

  /** No multiple of `2^k` is closer to `a` than the rounded one; if another is as close, it is even. */
  lemma {:induction false} NearestMultiple(a: nat, k: nat, n: nat)
    ensures var m, u := RoundHalfEven(a, k), Pow2(k);
      && Dist(a, m * u) <= Dist(a, n * u)
      && (Dist(a, m * u) == Dist(a, n * u) && n != m ==> m % 2 == 0)
  {
    SplitAt(a, k);
    var q, l, u := Shr(a, k), Low(a, k), Pow2(k);
    GridPosition(u, q, n);
    GridPosition(u, q, q + 1);
    NearestOfGrid(q * u, l, u, n * u, q % 2 == 1, q, n);
  }

  /** The arithmetic of `NearestMultiple`, with the products as numbers: `c` is the multiple below the point. */
  lemma NearestOfGrid(c: int, l: nat, u: nat, x: int, odd: bool, q: int, n: int)
    requires l < u && (odd <==> q % 2 == 1)
    requires n < q ==> x <= c - u
    requires n == q ==> x == c
    requires n == q + 1 ==> x == c + u
    requires n > q + 1 ==> x >= c + 2 * u
    ensures var up := 2 * l > u || (2 * l == u && odd);
      var m, y := if up then q + 1 else q, if up then c + u else c;
      && Dist(c + l, y) <= Dist(c + l, x)
      && (Dist(c + l, y) == Dist(c + l, x) && n != m ==> m % 2 == 0)
  {
  }

  /** Where `n * u` lies relative to the two multiples of `u` around a point between `q * u` and `(q + 1) * u`. */
  lemma GridPosition(u: nat, q: nat, n: nat)
    ensures n < q ==> n * u <= q * u - u
    ensures n == q + 1 ==> n * u == q * u + u
    ensures n > q + 1 ==> n * u >= q * u + 2 * u
  {
    if n < q {
      assert (n + 1) * u == n * u + u;
      MulMonotone(n + 1, q, u);
    } else if n > q + 1 {
      assert (q + 2) * u == q * u + 2 * u;
      MulMonotone(q + 2, n, u);
    } else if n == q + 1 {
      assert (q + 1) * u == q * u + u;
    }
  }

  /** The same with everything scaled by `s`, as `NearestMultiple` is used on magnitudes. */
  lemma {:induction false} NearestScaledMultiple(a: nat, k: nat, n: nat, s: nat)
    requires s > 0
    ensures var m, u := RoundHalfEven(a, k), Pow2(k);
      && Dist(a * s, m * u * s) <= Dist(a * s, n * u * s)
      && (Dist(a * s, m * u * s) == Dist(a * s, n * u * s) && n != m ==> m % 2 == 0)
  {
    NearestMultiple(a, k, n);
    var m, u := RoundHalfEven(a, k), Pow2(k);
    DistScales(a, m * u, s);
    DistScales(a, n * u, s);
    var d, e := Dist(a, m * u), Dist(a, n * u);
    MulMonotone(d, e, s);
    if d < e {
      assert (d + 1) * s == d * s + s;
      MulMonotone(d + 1, e, s);
    }
  }

  lemma DistScales(x: nat, y: nat, s: nat)
    ensures Dist(x * s, y * s) == Dist(x, y) * s
  {
    if x <= y {
      MulMonotone(x, y, s);
      assert (y - x) * s == y * s - x * s;
    } else {
      MulMonotone(y, x, s);
      assert (x - y) * s == x * s - y * s;
    }
  }
}
