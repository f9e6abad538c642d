/**
 Machine words as natural numbers: powers of two, the bitwise operators of C on
 non-negative operands, shifts, and the arithmetic meaning of the masks the
 repository's bit-level code uses.
 */
module Bits {

  function Pow2(n: nat): (p: nat)
    ensures p > 0
  {
    if n == 0 then 1 else 2 * Pow2(n - 1)
  }

  /** C's `a & b`. */
  function And(a: nat, b: nat): nat {
    if a == 0 || b == 0 then 0
    else 2 * And(a / 2, b / 2) + (if a % 2 == 1 && b % 2 == 1 then 1 else 0)
  }

  /** C's `a | b`. */
  function Or(a: nat, b: nat): nat
    decreases a + b
  {
    if a == 0 then b
    else if b == 0 then a
    else 2 * Or(a / 2, b / 2) + (if a % 2 == 1 || b % 2 == 1 then 1 else 0)
  }

  /** C's `a ^ b`. */
  function Xor(a: nat, b: nat): nat
    decreases a + b
  {
    if a == 0 then b
    else if b == 0 then a
    else 2 * Xor(a / 2, b / 2) + (if a % 2 != b % 2 then 1 else 0)
  }

  /** C's `a >> k` on an unsigned operand: the quotient of `a` by `2^k`. */
  function Shr(a: nat, k: nat): nat
    decreases a, k
  {
    if k == 0 then a else Shr(a / 2, k - 1)
  }

  /** The `k` lowest bits of `a`: the remainder of `a` by `2^k`. */
  function Low(a: nat, k: nat): nat
    decreases a, k
  {
    if k == 0 then 0 else 2 * Low(a / 2, k - 1) + a % 2
  }

  /** C's `a << k` on an unsigned operand of `width` bits. */
  function Shl(a: nat, k: nat, width: nat): nat {
    Low(a * Pow2(k), width)
  }

  /** The value C gives to a comparison. */
  function FromBool(b: bool): nat {
    if b then 1 else 0
  }

  /** The number of significant binary digits of `a`. */
  function BitLength(a: nat): nat {
    if a == 0 then 0 else 1 + BitLength(a / 2)
  }

  /** Byte `i` of a number, by division: byte 0 is the lowest. */
  function Byte(x: nat, i: nat): (b: nat)
    ensures b < 256
    decreases i
  {
    if i == 0 then x % 256 else Byte(x / 256, i - 1)
  }

  lemma {:induction false} Pow2Add(m: nat, n: nat)
    ensures Pow2(m + n) == Pow2(m) * Pow2(n)
  {
    if m != 0 {
      Pow2Add(m - 1, n);
      assert Pow2(m + n) == 2 * Pow2(m - 1 + n);
    }
  }

  /** Two left shifts in a row. */
  lemma ShiftTwice(x: nat, m: nat, n: nat)
    ensures x * Pow2(m) * Pow2(n) == x * Pow2(m + n)
  {
    Pow2Add(m, n);
    assert x * Pow2(m) * Pow2(n) == x * (Pow2(m) * Pow2(n));
  }

  lemma {:induction false} Pow2Monotone(m: nat, n: nat)
    requires m <= n
    ensures Pow2(m) <= Pow2(n)
    decreases n
  {
    if m < n { Pow2Monotone(m, n - 1); }
  }

  lemma Pow2StrictlyMonotone(m: nat, n: nat)
    requires m < n
    ensures 2 * Pow2(m) <= Pow2(n)
  {
    Pow2Monotone(m + 1, n);
  }

  /** A quotient and remainder are pinned down by the division equation. */
  lemma DivModUnique(a: int, d: int, q: int, r: int)
    requires d > 0 && 0 <= r < d && a == q * d + r
    ensures a / d == q && a % d == r
  {
    var q', r' := a / d, a % d;
    assert a == d * q' + r';
    assert d * (q - q') == r' - r;
    if q > q' {
      MulAtLeast(d, q - q');
    } else if q < q' {
      assert d * (q' - q) == r - r';
      MulAtLeast(d, q' - q);
    }
  }

  lemma MulAtLeast(d: int, k: int)
    requires d >= 0 && k >= 1
    ensures d * k >= d
  {
    assert d * k == d + d * (k - 1);
    MulNonNegative(d, k - 1);
  }

  lemma MulNonNegative(x: int, y: int)
    requires x >= 0 && y >= 0
    ensures x * y >= 0
  {
  }

  lemma MulMonotone(x: int, y: int, d: int)
    requires x <= y && d >= 0
    ensures x * d <= y * d
  {
    MulNonNegative(y - x, d);
    assert y * d - x * d == (y - x) * d;
  }

  lemma DoubleBracket(p: nat, m: nat, u: nat)
    requires p <= m < 2 * p && u > 0
    ensures p * u <= m * u < 2 * (p * u)
  {
    MulMonotone(p, m, u);
    assert (m + 1) * u == m * u + u;
    MulMonotone(m + 1, 2 * p, u);
  }

  /** Shifting out and masking split a number at bit `k`. */
  lemma {:induction false} SplitAt(a: nat, k: nat)
    ensures a == Shr(a, k) * Pow2(k) + Low(a, k)
    ensures Low(a, k) < Pow2(k)
    decreases k
  {
    if k != 0 {
      SplitAt(a / 2, k - 1);
      var q := Shr(a, k);
      assert q * Pow2(k) == 2 * (q * Pow2(k - 1));
    }
  }

  /** The split at bit `k` is unique. */
  lemma SplitUnique(a: nat, k: nat, q: nat, r: nat)
    requires a == q * Pow2(k) + r && r < Pow2(k)
    ensures Shr(a, k) == q && Low(a, k) == r
  {
    SplitAt(a, k);
    DivModUnique(a, Pow2(k), q, r);
    DivModUnique(a, Pow2(k), Shr(a, k), Low(a, k));
  }

  /** `Shr` and `Low` are division and remainder. */
  lemma ShrIsDiv(a: nat, k: nat)
    ensures Shr(a, k) == a / Pow2(k)
    ensures Low(a, k) == a % Pow2(k)
  {
    SplitAt(a, k);
    DivModUnique(a, Pow2(k), Shr(a, k), Low(a, k));
  }

  lemma LowIsIdentity(a: nat, k: nat)
    requires a < Pow2(k)
    ensures Low(a, k) == a && Shr(a, k) == 0
  {
    SplitUnique(a, k, 0, a);
  }

  /** Shifting a multiple of `2^k` back recovers it. */
  lemma ShrOfProduct(m: nat, k: nat)
    ensures Shr(m * Pow2(k), k) == m && Low(m * Pow2(k), k) == 0
  {
    SplitUnique(m * Pow2(k), k, m, 0);
  }

  /** `a >> m >> n` is `a >> (m + n)`. */
  lemma {:induction false} ShrShr(a: nat, m: nat, n: nat)
    ensures Shr(Shr(a, m), n) == Shr(a, m + n)
    decreases m
  {
    if m != 0 { ShrShr(a / 2, m - 1, n); }
  }

  /** A bit field can be shifted down before or after it is masked out. */
  lemma {:induction false} FieldOfLow(a: nat, m: nat, n: nat)
    ensures Shr(Low(a, m + n), m) == Low(Shr(a, m), n)
    ensures Low(Low(a, m + n), m) == Low(a, m)
    decreases m
  {
    if m != 0 {
      FieldOfLow(a / 2, m - 1, n);
      var l := Low(a, m + n);
      assert l / 2 == Low(a / 2, m - 1 + n) && l % 2 == a % 2;
    } else {
      assert Shr(Low(a, n), 0) == Low(a, n);
    }
  }

  /** Two adjacent fields, put back together. */
  lemma LowConcat(a: nat, m: nat, n: nat)
    ensures Low(a, m + n) == Low(Shr(a, m), n) * Pow2(m) + Low(a, m)
  {
    FieldOfLow(a, m, n);
    SplitAt(Low(a, m + n), m);
  }

  /** All ones shifted right are fewer ones. */
  lemma ShrAllOnes(n: nat, k: nat)
    requires k <= n
    ensures Shr(Pow2(n) - 1, k) == Pow2(n - k) - 1
    decreases k
  {
    if k != 0 {
      assert (Pow2(n) - 1) / 2 == Pow2(n - 1) - 1;
      ShrAllOnes(n - 1, k - 1);
    }
  }

  lemma ShrMonotone(a: nat, b: nat, k: nat)
    requires a <= b
    ensures Shr(a, k) <= Shr(b, k)
    decreases k
  {
    if k != 0 { ShrMonotone(a / 2, b / 2, k - 1); }
  }

  /** A quotient is at least `q` exactly when the dividend is at least `q * 2^k`. */
  lemma ShrAtLeast(a: nat, k: nat, q: nat)
    ensures Shr(a, k) >= q <==> a >= q * Pow2(k)
  {
    SplitAt(a, k);
    QuotientAtLeast(a, Pow2(k), Shr(a, k), Low(a, k), q);
  }

  lemma QuotientAtLeast(a: nat, p: nat, s: nat, r: nat, q: nat)
    requires a == s * p + r && r < p
    ensures s >= q <==> a >= q * p
  {
    if s >= q {
      MulMonotone(q, s, p);
    } else {
      assert (s + 1) * p == s * p + p;
      MulMonotone(s + 1, q, p);
    }
  }

  /** Masking with `2^k - 1` keeps the `k` lowest bits. */
  lemma {:induction false} AndLowMask(a: nat, k: nat)
    ensures And(a, Pow2(k) - 1) == Low(a, k)
    decreases k
  {
    if k != 0 {
      AndLowMask(a / 2, k - 1);
      assert (Pow2(k) - 1) / 2 == Pow2(k - 1) - 1 && (Pow2(k) - 1) % 2 == 1;
      if a == 0 { assert Low(0, k) == 0; }
    }
  }

  lemma {:induction false} AndCommutes(a: nat, b: nat)
    ensures And(a, b) == And(b, a)
  {
    if a != 0 && b != 0 { AndCommutes(a / 2, b / 2); }
  }

  lemma {:induction false} OrCommutes(a: nat, b: nat)
    ensures Or(a, b) == Or(b, a)
    decreases a + b
  {
    if a != 0 && b != 0 { OrCommutes(a / 2, b / 2); }
  }

  /** Masking with the single bit `2^k` reads bit `k`. */
  lemma {:induction false} AndBit(a: nat, k: nat)
    ensures And(a, Pow2(k)) == if Shr(a, k) % 2 == 1 then Pow2(k) else 0
    decreases k
  {
    if k == 0 {
      if a != 0 { assert And(a / 2, 0) == 0; assert And(a, 1) == a % 2; }
    } else {
      AndBit(a / 2, k - 1);
      assert Pow2(k) / 2 == Pow2(k - 1) && Pow2(k) % 2 == 0;
    }
  }

  /** Or-ing below a zero-filled gap is addition. */
  lemma {:induction false} OrDisjoint(high: nat, k: nat, low: nat)
    requires Low(high, k) == 0 && low < Pow2(k)
    ensures Or(high, low) == high + low
    decreases k
  {
    if high != 0 && low != 0 {
      OrDisjoint(high / 2, k - 1, low / 2);
    }
  }

  lemma OrAbove(low: nat, k: nat, high: nat)
    requires low < Pow2(k)
    ensures Or(low, high * Pow2(k)) == low + high * Pow2(k)
  {
    ShrOfProduct(high, k);
    OrDisjoint(high * Pow2(k), k, low);
    OrCommutes(low, high * Pow2(k));
  }

  /** Or-ing a truth value sets the lowest bit. */
  lemma OrLowBit(a: nat, b: bool)
    ensures Or(a, FromBool(b)) == if b && a % 2 == 0 then a + 1 else a
  {
    if a != 0 && b { assert Or(a / 2, 0) == a / 2; }
  }

  /** Exclusive or with all ones is the complement. */
  lemma {:induction false} XorAllOnes(a: nat, k: nat)
    requires a < Pow2(k)
    ensures Xor(a, Pow2(k) - 1) == Pow2(k) - 1 - a
  {
    if k != 0 && a != 0 {
      XorAllOnes(a / 2, k - 1);
      assert (Pow2(k) - 1) / 2 == Pow2(k - 1) - 1 && (Pow2(k) - 1) % 2 == 1;
    }
  }

  /** `BitLength(a) == n` brackets `a` between two powers of two. */
  lemma {:induction false} BitLengthBracket(a: nat)
    requires a > 0
    ensures BitLength(a) > 0
    ensures Pow2(BitLength(a) - 1) <= a < Pow2(BitLength(a))
  {
    if a > 1 { BitLengthBracket(a / 2); }
  }

  /** The bracket determines the bit length. */
  lemma BitLengthUnique(a: nat, n: nat)
    requires n > 0 && Pow2(n - 1) <= a < Pow2(n)
    ensures BitLength(a) == n
  {
    BitLengthBracket(a);
    var m := BitLength(a);
    if m < n {
      Pow2Monotone(m, n - 1);
    } else if n < m {
      Pow2Monotone(n, m - 1);
    }
  }

  lemma BitLengthAtMost(a: nat, n: nat)
    requires a < Pow2(n)
    ensures BitLength(a) <= n
  {
    if a > 0 {
      BitLengthBracket(a);
      var m: nat := BitLength(a) - 1;
      if n <= m { Pow2Monotone(n, m); }
    }
  }

  lemma ProductBelow(x: nat, y: nat, s: nat)
    requires x < y && s > 0
    ensures x * s < y * s
  {
    assert (x + 1) * s == x * s + s;
    MulMonotone(x + 1, y, s);
  }

  /** Masking above bit `k` is masking the shifted operand. */
  lemma {:induction false} AndHighMask(a: nat, k: nat, m: nat)
    ensures And(a, m * Pow2(k)) == And(Shr(a, k), m) * Pow2(k)
    decreases k
  {
    if k != 0 {
      AndHighMask(a / 2, k - 1, m);
      HalfProduct(m, k);
      HalfProduct(And(Shr(a, k), m), k);
      AndOfEven(a, m * Pow2(k - 1));
    }
  }

  lemma HalfProduct(x: nat, k: nat)
    requires k > 0
    ensures x * Pow2(k) == 2 * (x * Pow2(k - 1))
  {
  }

  lemma {:induction false} AndOfEven(a: nat, x: nat)
    ensures And(a, 2 * x) == 2 * And(a / 2, x)
  {
  }

  lemma {:induction false} BitLengthOfShr(a: nat, k: nat)
    requires Shr(a, k) > 0
    ensures BitLength(a) == BitLength(Shr(a, k)) + k
    decreases k
  {
    if k != 0 {
      LowIsIdentity(0, k);
      BitLengthOfShr(a / 2, k - 1);
    }
  }

  lemma BitLengthMonotone(a: nat, b: nat)
    requires a <= b
    ensures BitLength(a) <= BitLength(b)
  {
    if b > 0 {
      BitLengthBracket(b);
      BitLengthAtMost(a, BitLength(b));
    }
  }

  lemma OnesLength(l: nat)
    ensures BitLength(Pow2(l) - 1) == l
  {
    if l > 0 { BitLengthUnique(Pow2(l) - 1, l); }
  }
}
