/** Which producer a slot belongs to, and where a round of the schedule begins. */
module ProducerSchedule {
  import opened Bits
  import opened Sequences

  const PRODUCER_REPETITIONS: nat := 12

  /** The index computed by `get_expected_producer` for a schedule of `n` producers. */
  function Position(slot: nat, n: nat, repetitions: nat): (p: nat)
    requires n > 0 && repetitions > 0
    ensures p < n
  {
    MulAtLeast(n, repetitions);
    var inRound := slot % (n * repetitions);
    BlockOf(inRound, n, repetitions);
    inRound / repetitions
  }

  lemma BlockOf(x: nat, n: nat, repetitions: nat)
    requires n > 0 && repetitions > 0 && x < n * repetitions
    ensures 0 <= x / repetitions < n
  {
    var q := x / repetitions;
    assert x == repetitions * q + x % repetitions;
    if q >= n { MulMonotone(n, q, repetitions); }
    if q < 0 { MulMonotone(q, -1, repetitions); }
  }

  /** `get_expected_producer` */
  function ExpectedProducer<A>(schedule: seq<A>, slot: nat): A
    requires schedule != []
  {
    schedule[Position(slot, |schedule|, PRODUCER_REPETITIONS)]
  }

  /** How many of the slots `start .. start + length` belong to position `p`. */
  function Share(p: nat, start: nat, length: nat, n: nat, repetitions: nat): nat
    requires n > 0 && repetitions > 0
  {
    if length == 0 then 0
    else
      Share(p, start, length - 1, n, repetitions)
      + if Position(start + length - 1, n, repetitions) == p then 1 else 0
  }

  /** Within the first round, position `p` owns the slots from `p * repetitions` to `(p + 1) * repetitions`. */
  lemma {:induction false} FirstRoundShare(p: nat, length: nat, n: nat, repetitions: nat)
    requires n > 0 && repetitions > 0 && p < n && length <= n * repetitions
    ensures Share(p, 0, length, n, repetitions) ==
      if length <= p * repetitions then 0
      else if length <= p * repetitions + repetitions then length - p * repetitions
      else repetitions
    decreases length
  {
    if length > 0 {
      FirstRoundShare(p, length - 1, n, repetitions);
      PositionInFirstRound(length - 1, p, n, repetitions);
    }
    MulNonNegative(p, repetitions);
  }

  lemma PositionInFirstRound(x: nat, p: nat, n: nat, repetitions: nat)
    requires n > 0 && repetitions > 0 && x < n * repetitions
    ensures Position(x, n, repetitions) == p <==> p * repetitions <= x < p * repetitions + repetitions
  {
    DivModUnique(x, n * repetitions, 0, x);
    var q := x / repetitions;
    assert x == q * repetitions + x % repetitions;
    if p < q {
      MulMonotone(p + 1, q, repetitions);
      assert (p + 1) * repetitions == p * repetitions + repetitions;
    } else if q < p {
      MulMonotone(q + 1, p, repetitions);
      assert (q + 1) * repetitions == q * repetitions + repetitions;
    }
  }

  /** Slots a whole round apart belong to the same position. */
  lemma PositionIsPeriodic(slot: nat, n: nat, repetitions: nat)
    requires n > 0 && repetitions > 0
    ensures Position(slot + n * repetitions, n, repetitions) == Position(slot, n, repetitions)
  {
    var round := n * repetitions;
    MulAtLeast(n, repetitions);
    var q, r := slot / round, slot % round;
    assert slot == q * round + r;
    assert (q + 1) * round == q * round + round;
    DivModUnique(slot + round, round, q + 1, r);
  }

  /** Taking the first slot out of a window. */
  lemma {:induction false} ShareFromFront(p: nat, start: nat, length: nat, n: nat, repetitions: nat)
    requires n > 0 && repetitions > 0 && length > 0
    ensures Share(p, start, length, n, repetitions) ==
      (if Position(start, n, repetitions) == p then 1 else 0) + Share(p, start + 1, length - 1, n, repetitions)
    decreases length
  {
    if length > 1 { ShareFromFront(p, start, length - 1, n, repetitions); }
  }

  /** Every window as long as a round, wherever it starts, gives each position its repetitions. */
  lemma {:induction false} EveryRoundIsFair(p: nat, start: nat, n: nat, repetitions: nat)
    requires n > 0 && repetitions > 0 && p < n
    ensures Share(p, start, n * repetitions, n, repetitions) == repetitions
    decreases start
  {
    var round := n * repetitions;
    MulAtLeast(n, repetitions);
    if start == 0 {
      FirstRoundShare(p, round, n, repetitions);
      MulMonotone(p + 1, n, repetitions);
      assert (p + 1) * repetitions == p * repetitions + repetitions;
    } else {
      EveryRoundIsFair(p, start - 1, n, repetitions);
      ShareFromFront(p, start - 1, round, n, repetitions);
      PositionIsPeriodic(start - 1, n, repetitions);
    }
  }

  /** In every round the producers take their turns in the order of the schedule, twelve slots each. */
  lemma TurnsInOrder<A>(schedule: seq<A>, round: nat, p: nat, i: nat)
    requires p < |schedule| && i < 12
    ensures ExpectedProducer(schedule, (round * |schedule| + p) * 12 + i) == schedule[p]
  {
    var n := |schedule|;
    var x := p * 12 + i;
    assert (round * n + p) * 12 + i == round * (n * 12) + x;
    DivModUnique(round * (n * 12) + x, n * 12, round, x);
    DivModUnique(x, 12, p, i);
  }

  /** How many of the slots `start .. start + length` the schedule gives to the producer. */
  function Turns<A(==)>(schedule: seq<A>, producer: A, start: nat, length: nat): nat
    requires schedule != []
  {
    if length == 0 then 0
    else
      Turns(schedule, producer, start, length - 1)
      + if ExpectedProducer(schedule, start + length - 1) == producer then 1 else 0
  }

  lemma {:induction false} TurnsAreShare<A>(schedule: seq<A>, p: nat, start: nat, length: nat)
    requires Distinct(schedule) && p < |schedule|
    ensures Turns(schedule, schedule[p], start, length)
      == Share(p, start, length, |schedule|, PRODUCER_REPETITIONS)
    decreases length
  {
    if length > 0 {
      TurnsAreShare(schedule, p, start, length - 1);
      var q := Position(start + length - 1, |schedule|, PRODUCER_REPETITIONS);
      assert schedule[q] == schedule[p] <==> q == p;
    }
  }

  /** Every window as long as a round, wherever it starts, gives each scheduled producer its repetitions. */
  lemma {:induction false} EveryProducerHasItsTurns<A>(schedule: seq<A>, producer: A, start: nat)
    requires Distinct(schedule) && producer in schedule
    ensures Turns(schedule, producer, start, |schedule| * 12) == 12
  {
    var p :| 0 <= p < |schedule| && schedule[p] == producer;
    TurnsAreShare(schedule, p, start, |schedule| * PRODUCER_REPETITIONS);
    EveryRoundIsFair(p, start, |schedule|, PRODUCER_REPETITIONS);
  }

  /** `calc_block_num_of_next_round_first_block` */
  method NextRoundFirstBlock(headBlockNum: nat, n: nat) returns (res: nat)
    requires n > 0
    ensures res > headBlockNum && res % (n * PRODUCER_REPETITIONS) == 0
    ensures forall b :: headBlockNum < b < res ==> b % (n * PRODUCER_REPETITIONS) != 0
    ensures Position(res, n, PRODUCER_REPETITIONS) == 0
  {
    var blocksPerRound := n * PRODUCER_REPETITIONS;
    res := headBlockNum + 1;
    ghost var bound := NextMultiple(headBlockNum, blocksPerRound);
    while res % blocksPerRound != 0
      invariant headBlockNum < res <= bound && bound % blocksPerRound == 0
      invariant forall b :: headBlockNum < b < res ==> b % blocksPerRound != 0
      decreases bound - res
    {
      res := res + 1;
    }
    assert Position(res, n, PRODUCER_REPETITIONS) == 0 / PRODUCER_REPETITIONS;
  }

  ghost function NextMultiple(x: nat, d: nat): (m: nat)
    requires d > 0
    ensures m > x && m % d == 0
  {
    var q := x / d + 1;
    assert x == (x / d) * d + x % d;
    assert q * d == (x / d) * d + d;
    DivModUnique(q * d, d, q, 0);
    q * d
  }
}
