/**
 The bit tricks with which `incremental_merkle.hpp` finds the depth of a tree: rounding up to
 a power of two by smearing the top bit, and the logarithm of a power of two by masks.
 */
module TreeDepth {
  import opened Bits

  /** How often a list of `n` digests must be halved, rounding up, to leave one. */
  function Levels(n: nat): nat {
    if n <= 1 then 0 else 1 + Levels((n + 1) / 2)
  }

  function SmearBy(x: nat, m: nat): nat {
    Or(x, Shr(x, m))
  }

  function Smear(x: nat): nat {
    SmearBy(SmearBy(SmearBy(SmearBy(SmearBy(SmearBy(x, 1), 2), 4), 8), 16), 32)
  }

  /** `next_power_of_2` in 64 bits, on a positive argument; above `2^63` the result wraps around to zero. */
  function NextPowerOf2(value: nat): nat
    requires value > 0
  {
    Low(Smear(value - 1) + 1, 64)
  }

  /** `clz_power_2`, which despite its name and comment counts trailing zeros. */
  function ClzPower2(value: nat): int {
    FromTests(value != 0,
              And(value, 0x0000_0000_FFFF_FFFF) != 0,
              And(value, 0x0000_FFFF_0000_FFFF) != 0,
              And(value, 0x00FF_00FF_00FF_00FF) != 0,
              And(value, 0x0F0F_0F0F_0F0F_0F0F) != 0,
              And(value, 0x3333_3333_3333_3333) != 0,
              And(value, 0x5555_5555_5555_5555) != 0)
  }

  /** The count left of 64 after the seven conditional subtractions. */
  function FromTests(any: bool, t32: bool, t16: bool, t8: bool, t4: bool, t2: bool, t1: bool): int {
    64 - FromBool(any) - 32 * FromBool(t32) - 16 * FromBool(t16) - 8 * FromBool(t8)
    - 4 * FromBool(t4) - 2 * FromBool(t2) - FromBool(t1)
  }

  /** `calcluate_max_depth` */
  function MaxDepth(nodeCount: nat): int {
    if nodeCount == 0 then 0 else ClzPower2(NextPowerOf2(nodeCount)) + 1
  }

  // ----- Smearing -----

  lemma {:induction false} ShrOfOr(a: nat, b: nat, k: nat)
    ensures Shr(Or(a, b), k) == Or(Shr(a, k), Shr(b, k))
    decreases k
  {
    if k != 0 {
      assert Or(a, b) / 2 == Or(a / 2, b / 2);
      ShrOfOr(a / 2, b / 2, k - 1);
    }
  }

  /** Or-ing `m` ones fills the `m` lowest bits. */
  lemma {:induction false} OrFill(a: nat, m: nat)
    ensures Or(a, Pow2(m) - 1) == Shr(a, m) * Pow2(m) + (Pow2(m) - 1)
    decreases m
  {
    if m != 0 {
      OrFill(a / 2, m - 1);
      OrOdd(a, Pow2(m - 1) - 1);
      HalfProduct(Shr(a, m), m);
    }
  }

  lemma {:induction false} OrOdd(a: nat, x: nat)
    ensures Or(a, 2 * x + 1) == 2 * Or(a / 2, x) + 1
  {
  }

  /** The `m` highest bits of `x`, or all of them if there are fewer, are ones. */
  ghost predicate TopOnes(x: nat, m: nat) {
    var l := BitLength(x);
    if m >= l then x == Pow2(l) - 1 else Shr(x, l - m) == Pow2(m) - 1
  }

  lemma {:induction false} SmearStep(x: nat, m: nat)
    requires m > 0 && TopOnes(x, m)
    ensures BitLength(SmearBy(x, m)) == BitLength(x) && TopOnes(SmearBy(x, m), 2 * m)
  {
    var l := BitLength(x);
    if m >= l {
      if x > 0 { BitLengthBracket(x); }
      Pow2Monotone(l, m);
      LowIsIdentity(x, m);
    } else if 2 * m >= l {
      SmearAll(x, m, l);
      OnesLength(l);
    } else {
      SmearSome(x, m, l);
    }
  }

  lemma {:induction false} SmearAll(x: nat, m: nat, l: nat)
    requires m < l <= 2 * m && Shr(x, l - m) == Pow2(m) - 1
    ensures SmearBy(x, m) == Pow2(l) - 1
  {
    ShrShr(x, l - m, 2 * m - l);
    ShrAllOnes(m, 2 * m - l);
    OrFill(x, l - m);
    Pow2Add(m, l - m);
    OneLess(Pow2(m), Pow2(l - m));
  }

  lemma OneLess(p: int, q: int)
    ensures (p - 1) * q == p * q - q
  {
  }

  lemma {:induction false} SmearSome(x: nat, m: nat, l: nat)
    requires 0 < m && 2 * m < l == BitLength(x) && Shr(x, l - m) == Pow2(m) - 1
    ensures BitLength(SmearBy(x, m)) == l
    ensures Shr(SmearBy(x, m), l - 2 * m) == Pow2(2 * m) - 1
  {
    var k := l - 2 * m;
    ShrOfOr(x, Shr(x, m), k);
    ShrShr(x, m, k);
    ShrShr(x, k, m);
    OrFill(Shr(x, k), m);
    Pow2Add(m, m);
    OneLess(Pow2(m), Pow2(m));
    OnesLength(2 * m);
    Pow2Monotone(1, 2 * m);
    BitLengthOfShr(SmearBy(x, m), k);
  }

  /** Smearing a 64-bit number sets every bit below its highest. */
  lemma {:induction false} SmearFills(x: nat)
    requires BitLength(x) <= 64
    ensures Smear(x) == Pow2(BitLength(x)) - 1
  {
    TopBitIsOne(x);
    SmearTwice(x, 1);
    var x4 := SmearBy(SmearBy(x, 1), 2);
    SmearTwice(x4, 4);
    var x16 := SmearBy(SmearBy(x4, 4), 8);
    SmearTwice(x16, 16);
    assert Smear(x) == SmearBy(SmearBy(x16, 16), 32);
  }

  lemma {:induction false} SmearTwice(x: nat, m: nat)
    requires m > 0 && TopOnes(x, m)
    ensures var y := SmearBy(SmearBy(x, m), 2 * m); BitLength(y) == BitLength(x) && TopOnes(y, 4 * m)
  {
    SmearStep(x, m);
    SmearStep(SmearBy(x, m), 2 * m);
  }

  lemma {:induction false} TopBitIsOne(x: nat)
    ensures TopOnes(x, 1)
  {
    if x > 1 {
      BitLengthBracket(x);
      TopBit(x, BitLength(x));
      assert BitLength(x) == 1 + BitLength(x / 2) && BitLength(x / 2) > 0;
    } else {
      assert BitLength(x) == x && Pow2(x) == x + 1;
    }
  }

  lemma {:induction false} TopBit(x: nat, l: nat)
    requires l > 0 && Pow2(l - 1) <= x < Pow2(l)
    ensures Shr(x, l - 1) == 1
  {
    Pow2Add(1, l - 1);
    SplitUnique(x, l - 1, 1, x - Pow2(l - 1));
  }

  /** The number of levels is the bit length of the predecessor. */
  lemma {:induction false} LevelsIsBitLength(n: nat)
    requires n > 0
    ensures Levels(n) == BitLength(n - 1)
  {
    if n > 1 {
      LevelsIsBitLength((n + 1) / 2);
      assert (n + 1) / 2 - 1 == (n - 1) / 2;
    }
  }

  // ----- The masks -----

  /** `n` blocks of `b` ones, each below `b` zeros. */
  function BlockMask(b: nat, n: nat): nat {
    if n == 0 then 0 else BlockMask(b, n - 1) * Pow2(2 * b) + (Pow2(b) - 1)
  }

  lemma {:induction false} BlockMaskBit(b: nat, n: nat, q: nat, r: nat)
    requires q < n && r < 2 * b
    ensures Shr(BlockMask(b, n), 2 * b * q + r) % 2 == 1 <==> r < b
    decreases q
  {
    var m := BlockMask(b, n);
    MaskParts(b, n);
    if q == 0 {
      LowestBlockBit(m, b, r);
    } else {
      BlockMaskBit(b, n - 1, q - 1, r);
      NextBlock(m, 2 * b, q, r);
    }
  }

  lemma {:induction false} MaskParts(b: nat, n: nat)
    requires b > 0 && n > 0
    ensures Shr(BlockMask(b, n), 2 * b) == BlockMask(b, n - 1) && Low(BlockMask(b, n), 2 * b) == Pow2(b) - 1
  {
    Pow2StrictlyMonotone(b, 2 * b);
    SplitUnique(BlockMask(b, n), 2 * b, BlockMask(b, n - 1), Pow2(b) - 1);
  }

  lemma {:induction false} NextBlock(m: nat, c: nat, q: nat, r: nat)
    requires q > 0
    ensures c * (q - 1) >= 0 && c * q >= 0
    ensures Shr(m, c * q + r) == Shr(Shr(m, c), c * (q - 1) + r)
  {
    MulNonNegative(c, q - 1);
    assert c * q == c * (q - 1) + c;
    ShrShr(m, c, c * (q - 1) + r);
  }

  lemma {:induction false} LowestBlockBit(m: nat, b: nat, r: nat)
    requires r < 2 * b && Low(m, 2 * b) == Pow2(b) - 1
    ensures Shr(m, r) % 2 == 1 <==> r < b
  {
    FieldOfLow(m, r, 2 * b - r);
    ParityOfLow(Shr(m, r), 2 * b - r);
    if r < b {
      ShrAllOnes(b, r);
      assert Pow2(b - r) == 2 * Pow2(b - r - 1);
    } else {
      Pow2Monotone(b, r);
      LowIsIdentity(Pow2(b) - 1, r);
    }
  }

  lemma ParityOfLow(a: nat, k: nat)
    requires k > 0
    ensures Low(a, k) % 2 == a % 2
  {
  }

  /** The mask is the quotient of an all-ones word by `2^b + 1`. */
  lemma {:induction false} BlockMaskClosed(b: nat, n: nat)
    ensures BlockMask(b, n) * (Pow2(b) + 1) == Pow2(2 * b * n) - 1
    decreases n
  {
    if n > 0 {
      BlockMaskClosed(b, n - 1);
      Pow2Add(b, b);
      OneMoreBlock(2 * b, n);
      MaskGrows(BlockMask(b, n - 1), Pow2(b), Pow2(2 * b), Pow2(2 * b * (n - 1)));
    }
  }

  lemma {:induction false} OneMoreBlock(c: nat, n: nat)
    requires n > 0
    ensures c * n >= 0 && c * (n - 1) >= 0 && Pow2(c * n) == Pow2(c) * Pow2(c * (n - 1))
  {
    MulNonNegative(c, n - 1);
    assert c * n == c + c * (n - 1);
    Pow2Add(c, c * (n - 1));
  }

  lemma MaskGrows(m: nat, x: nat, y: nat, z: nat)
    requires y == x * x && m * (x + 1) == z - 1
    ensures (m * y + (x - 1)) * (x + 1) == y * z - 1
  {
    assert (m * y) * (x + 1) == (m * (x + 1)) * y;
    assert (x - 1) * (x + 1) == x * x - 1;
  }

  /** The constant with `64 / b` blocks of `b` bits reads bit `k` as the parity of `k / b`. */
  lemma MaskTest(b: nat, n: nat, k: nat, q: nat, r: nat, mask: nat)
    requires 2 * b * n == 64 && mask * (Pow2(b) + 1) == Pow2(64) - 1
    requires q < n && r < 2 * b && k == 2 * b * q + r
    ensures And(Pow2(k), mask) != 0 <==> r < b
  {
    BlockMaskClosed(b, n);
    SameFactor(mask, BlockMask(b, n), Pow2(b) + 1);
    AndCommutes(Pow2(k), mask);
    AndBit(mask, k);
    BlockMaskBit(b, n, q, r);
  }

  lemma SameFactor(x: nat, y: nat, d: nat)
    requires d > 0 && x * d == y * d
    ensures x == y
  {
    if x < y { MulMonotone(x + 1, y, d); } else if y < x { MulMonotone(y + 1, x, d); }
  }

  lemma SmallPowers()
    ensures Pow2(1) == 2 && Pow2(2) == 4 && Pow2(4) == 16 && Pow2(8) == 256 && Pow2(16) == 65536
    ensures Pow2(32) == 0x1_0000_0000 && Pow2(64) == 0x1_0000_0000_0000_0000
  {
    assert Pow2(16) == 65536;
    Pow2Add(16, 16);
    Pow2Add(32, 32);
  }

  lemma Test32(k: nat, q: nat, r: nat)
    requires q < 1 && r < 64 && k == 64 * q + r
    ensures And(Pow2(k), 0x0000_0000_FFFF_FFFF) != 0 <==> r < 32
  {
    SmallPowers();
    MaskTest(32, 1, k, q, r, 0x0000_0000_FFFF_FFFF);
  }

  lemma Test16(k: nat, q: nat, r: nat)
    requires q < 2 && r < 32 && k == 32 * q + r
    ensures And(Pow2(k), 0x0000_FFFF_0000_FFFF) != 0 <==> r < 16
  {
    SmallPowers();
    MaskTest(16, 2, k, q, r, 0x0000_FFFF_0000_FFFF);
  }

  lemma Test8(k: nat, q: nat, r: nat)
    requires q < 4 && r < 16 && k == 16 * q + r
    ensures And(Pow2(k), 0x00FF_00FF_00FF_00FF) != 0 <==> r < 8
  {
    SmallPowers();
    MaskTest(8, 4, k, q, r, 0x00FF_00FF_00FF_00FF);
  }

  lemma Test4(k: nat, q: nat, r: nat)
    requires q < 8 && r < 8 && k == 8 * q + r
    ensures And(Pow2(k), 0x0F0F_0F0F_0F0F_0F0F) != 0 <==> r < 4
  {
    SmallPowers();
    MaskTest(4, 8, k, q, r, 0x0F0F_0F0F_0F0F_0F0F);
  }

  lemma Test2(k: nat, q: nat, r: nat)
    requires q < 16 && r < 4 && k == 4 * q + r
    ensures And(Pow2(k), 0x3333_3333_3333_3333) != 0 <==> r < 2
  {
    SmallPowers();
    MaskTest(2, 16, k, q, r, 0x3333_3333_3333_3333);
  }

  lemma Test1(k: nat, q: nat, r: nat)
    requires q < 32 && r < 2 && k == 2 * q + r
    ensures And(Pow2(k), 0x5555_5555_5555_5555) != 0 <==> r < 1
  {
    SmallPowers();
    MaskTest(1, 32, k, q, r, 0x5555_5555_5555_5555);
  }

  /** On a power of two the masks spell out its exponent, bit by bit. */
  lemma ClzOfPower(k: nat)
    requires k < 64
    ensures ClzPower2(Pow2(k)) == k
  {
    var k1 := k / 2;
    var k2 := k1 / 2;
    var k3 := k2 / 2;
    var k4 := k3 / 2;
    var k5 := k4 / 2;
    Test1(k, k1, k - 2 * k1);
    Test2(k, k2, k - 4 * k2);
    Test4(k, k3, k - 8 * k3);
    Test8(k, k4, k - 16 * k4);
    Test16(k, k5, k - 32 * k5);
    Test32(k, 0, k);
    BinaryDigits(k, k1, k2, k3, k4, k5);
  }

  lemma BinaryDigits(k: nat, k1: nat, k2: nat, k3: nat, k4: nat, k5: nat)
    requires k < 64
    requires 2 * k1 <= k < 2 * k1 + 2 && 2 * k2 <= k1 < 2 * k2 + 2 && 2 * k3 <= k2 < 2 * k3 + 2
    requires 2 * k4 <= k3 < 2 * k4 + 2 && 2 * k5 <= k4 < 2 * k5 + 2
    ensures FromTests(true, k < 32, k - 32 * k5 < 16, k - 16 * k4 < 8,
                      k - 8 * k3 < 4, k - 4 * k2 < 2, k - 2 * k1 < 1) == k
  {
  }

  /**
   The depth is one more than the number of levels, for every 64-bit count: where rounding up to a power
   of two wraps around to zero, the logarithm of zero is taken to be 64, which is the number of levels.
   */
  lemma {:induction false} MaxDepthIsLevels(n: nat)
    requires n > 0 && BitLength(n) <= 64
    ensures NextPowerOf2(n) == if Levels(n) < 64 then Pow2(Levels(n)) else 0
    ensures MaxDepth(n) == Levels(n) + 1
  {
    LevelsFit(n);
    RoundedUp(n);
    LogOfWord(NextPowerOf2(n), Levels(n));
  }

  lemma {:induction false} LevelsFit(n: nat)
    requires n > 0 && BitLength(n) <= 64
    ensures Levels(n) == BitLength(n - 1) <= 64
  {
    LevelsIsBitLength(n);
    BitLengthMonotone(n - 1, n);
  }

  lemma {:induction false} RoundedUp(n: nat)
    requires n > 0 && Levels(n) == BitLength(n - 1) <= 64
    ensures NextPowerOf2(n) == if Levels(n) < 64 then Pow2(Levels(n)) else 0
  {
    SmearFills(n - 1);
    WordOf(Smear(n - 1) + 1, Levels(n));
  }

  lemma {:induction false} WordOf(value: nat, k: nat)
    requires k <= 64 && value == Pow2(k)
    ensures Low(value, 64) == if k < 64 then Pow2(k) else 0
  {
    PowerInWord(k, 64);
  }

  lemma {:induction false} LogOfWord(value: nat, k: nat)
    requires k <= 64 && value == if k < 64 then Pow2(k) else 0
    ensures ClzPower2(value) == k
  {
    if k < 64 { ClzOfPower(k); } else { ClzOfZero(); }
  }

  lemma {:induction false} PowerInWord(k: nat, width: nat)
    requires k <= width
    ensures Low(Pow2(k), width) == if k < width then Pow2(k) else 0
  {
    if k < width {
      Pow2StrictlyMonotone(k, width);
      LowIsIdentity(Pow2(k), width);
    } else {
      SplitUnique(Pow2(k), width, 1, 0);
    }
  }

  lemma {:induction false} ClzOfZero()
    ensures ClzPower2(0) == 64
  {
  }
}
