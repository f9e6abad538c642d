/**
 Two runs in which the round is done although its precommits do not come from a quorum of the producers
 of the best block: one key is counted twice, or keys of later producers are counted.
 */
module RandpaMiscounts {
  import opened Options
  import opened PrefixTree
  import opened Confirmations
  import opened RandpaRound
  import opened RandpaInvariant
  import opened RandpaSafety
  import opened RandpaClosing
  import opened RandpaProof
  import opened RandpaSteps
  import opened RandpaRuns

  // ----- A key counted twice -----

  /** A precommit with this node's own key 4 arrives; ending prevoting, this node precommits with it again. */
  const TWICE := Trace(0, [4], Chain(map[]), Some(1),
    [PrevoteMsg(0, BRANCH, [1]), PrevoteMsg(0, BRANCH, [2]),
     PrecommitMsg(0, 11, [4]), PrecommitMsg(0, 11, [1]), EndPrevote])

  ghost predicate IsTwice(events: seq<Event>) {
    && |events| == 5 && events[4] == EndPrevote
    && (forall i :: 0 <= i < 2 ==> events[i] == PrevoteMsg(0, BRANCH, [i + 1]))
    && events[2] == PrecommitMsg(0, 11, [4]) && events[3] == PrecommitMsg(0, 11, [1])
  }

  lemma TwiceIsTwice(x: Trace)
    requires x == TWICE
    ensures x == Trace(0, [4], Chain(map[]), Some(1), x.events) && IsTwice(x.events)
  {
  }

  lemma TwiceEndsOnce(events: seq<Event>)
    requires IsTwice(events)
    ensures EndsOnce(events, 4)
  {
  }

  /** The precommits in the order in which they are counted. */
  function TwiceCommits(n: nat): (ps: seq<Precommit>)
    requires n <= 3
    ensures |ps| == n && forall k :: k in KeysOf(ps) <==> (n >= 1 && k == 4) || (n >= 2 && k == 1)
  {
    if n == 0 then []
    else
      var p := Precommit(if n == 2 then 1 else 4, 11);
      KeysOfAppend(TwiceCommits(n - 1), p); TwiceCommits(n - 1) + [p]
  }

  /** The states that this run goes through. */
  function TwiceState(i: nat): (r: Round)
    requires i <= 5
    ensures BestKnown(r)
  {
    var r := ChainState(Votes(2));
    if i <= 2 then ChainState(Votes(i))
    else if i <= 4 then Committed(r, TwiceCommits(i - 2))
    else Committed(CloseProof(r), TwiceCommits(3))
  }

  lemma {:induction false} TwiceCommit(i: nat, key: Key)
    requires i < 2 && key == if i == 0 then 4 else 1
    ensures Step(TwiceState(i + 2), PrecommitMsg(0, 11, [key])) == TwiceState(i + 3)
  {
    var r := ChainState(Votes(2));
    assert TwiceCommits(0) == [] && KeysOf([]) == {};
    assert WithCommits(r, TwiceCommits(0)) == r;
    FourProducers();
    OneCommit(r, TwiceCommits(i), key, 11);
  }

  lemma {:induction false} TwiceClosing()
    ensures Step(TwiceState(4), EndPrevote) == TwiceState(5)
  {
    FourProducers();
    OwnCommit(ChainState(Votes(2)), TwiceCommits(2), 4);
  }

  lemma {:induction false} TwiceStep(events: seq<Event>, i: nat)
    requires IsTwice(events) && i < 5
    ensures Step(TwiceState(i), events[i]) == TwiceState(i + 1)
  {
    if i < 2 { ChainStep(Votes(i), i + 1); }
    else if i == 4 { TwiceClosing(); }
    else { TwiceCommit(i - 2, if i == 2 then 4 else 1); }
  }

  lemma {:induction false} TwiceVisits(r: Round, events: seq<Event>, n: nat)
    requires IsTwice(events) && r == TwiceState(0) && n <= 5
    ensures Run(r, events, n) == TwiceState(n)
  {
    var states := seq(6, i requires 0 <= i < 6 => TwiceState(i));
    forall i | 0 <= i < 5 ensures Step(states[i], events[i]) == states[i + 1] { TwiceStep(events, i); }
    RunVisits(events, states, n);
  }

  lemma TwiceRun(x: Trace, c: map<Key, Vote>, k: Key, n: nat)
    requires c == map[] && k == 4 && x == Trace(0, [k], Chain(c), Some(1), x.events) && IsTwice(x.events) && n <= 5
    ensures Startable(x) && After(x, n) == TwiceState(n)
  {
    ChainStart(c, k);
    TwiceVisits(Start(0, [k], Chain(c), Some(1)), x.events, n);
  }

  lemma TwiceOwnKey(r: Round)
    requires r == TwiceState(4)
    ensures r.phase == ReadyToPrecommit && r.best == Some(1) && !OwnKeysNew(r)
  {
    FourProducers();
    assert Counts(r, 0) && r.own[0] == 4 && 4 in r.precommitted;
  }

  lemma TwiceCounted(x: Trace)
    requires Startable(x) && Final(x) == TwiceState(5)
    ensures Finished(x) && Final(x).phase == Done && BestNode(x).id == 11 && BestNode(x).producers == PRODUCERS
    ensures Final(x).announced.value.prevotes == Votes(2) && Counted(x) == {1, 4} && !HasQuorum(x)
  {
    FourProducers();
    assert Counted(x) == KeysOf(TwiceCommits(3)) == {1, 4};
    assert {1, 4} * PRODUCERS == {1, 4};
  }

  lemma TwiceNotNew(x: Trace, n: nat)
    requires n == 4 && Startable(x) && |x.events| == 5 && After(x, n) == TwiceState(n)
    ensures !ClosesWell(x, n)
  {
    TwiceOwnKey(After(x, n));
  }

  lemma TwiceIsRefused(x: Trace, n: nat, t: Tree, ms: seq<SignedVote>)
    requires n == 4 && Startable(x) && |x.events| == 5 && EndsOnce(x.events, n)
    requires After(x, n) == TwiceState(n) && Final(x) == TwiceState(5)
    requires Find(t, 11).Some? && t[Find(t, 11).value].producers == PRODUCERS && Lists(ms, Votes(2))
    ensures Finished(x) && Final(x).phase == Done && BestNode(x).id == 11 && BestNode(x).producers == PRODUCERS
    ensures Counted(x) == {1, 4} && !HasQuorum(x)
    ensures !GoodProof(t, Message(Final(x).announced.value, ms))
  {
    TwiceNotNew(x, n);
    TwiceCounted(x);
    ClosedOnceRefused(x, n, t, ms);
  }

  lemma TwiceOutcome(x: Trace, c: map<Key, Vote>, k: Key, t: Tree, ms: seq<SignedVote>)
    requires c == map[] && k == 4 && x == Trace(0, [k], Chain(c), Some(1), x.events) && IsTwice(x.events)
    requires Find(t, 11).Some? && t[Find(t, 11).value].producers == PRODUCERS && Lists(ms, Votes(2))
    ensures Finished(x) && Final(x).phase == Done && BestNode(x).id == 11 && BestNode(x).producers == PRODUCERS
    ensures Counted(x) == {1, 4} && !HasQuorum(x)
    ensures !GoodProof(t, Message(Final(x).announced.value, ms))
  {
    var n := 4;
    TwiceRun(x, c, k, n);
    TwiceRun(x, c, k, |x.events|);
    TwiceEndsOnce(x.events);
    TwiceIsRefused(x, n, t, ms);
  }

  /**
   A precommit with the own key counts when it arrives and again when this node ends prevoting, so
   that two of four producers make the round done. No node that knows the block accepts the proof.
   */
  lemma OwnKeyTwice(x: Trace, t: Tree, ms: seq<SignedVote>)
    requires x == TWICE
    requires Find(t, 11).Some? && t[Find(t, 11).value].producers == PRODUCERS && Lists(ms, Votes(2))
    ensures Finished(x) && Final(x).phase == Done && BestNode(x).id == 11 && BestNode(x).producers == PRODUCERS
    ensures Counted(x) == {1, 4} && !HasQuorum(x)
    ensures !GoodProof(t, Message(Final(x).announced.value, ms))
  {
    TwiceIsTwice(x);
    TwiceOutcome(x, map[], 4, t, ms);
  }

  // ----- Keys of later producers -----

  const LATER: set<Key> := {5, 6, 7, 8}

  const LONG := Vote(10, [11, 12])

  /** Block 12, with other producers, on block 11 on block 10: `c` confirms 10 and 11, and `d` confirms 12. */
  function Handover(c: map<Key, Vote>, d: map<Key, Vote>): (t: Tree)
    ensures Valid(t)
  {
    [Node(10, 0, c, PRODUCERS), Node(11, 0, c, PRODUCERS), Node(12, 1, d, LATER)]
  }

  /** Producers 5 and 6 of block 12 vote for it, and with it for block 11, whose producers they are not. */
  const MIXED := Trace(0, [1], Handover(map[], map[]), Some(1),
    [PrevoteMsg(0, LONG, [5]), PrevoteMsg(0, LONG, [6]), EndPrevote,
     PrecommitMsg(0, 11, [5]), PrecommitMsg(0, 11, [6])])

  ghost predicate IsMixed(events: seq<Event>) {
    && |events| == 5 && events[2] == EndPrevote
    && (forall i :: 0 <= i < 2 ==> events[i] == PrevoteMsg(0, LONG, [i + 5]))
    && (forall i :: 3 <= i < 5 ==> events[i] == PrecommitMsg(0, 11, [i + 2]))
  }

  lemma MixedIsMixed(x: Trace)
    requires x == MIXED
    ensures x == Trace(0, [1], Handover(map[], map[]), Some(1), x.events) && IsMixed(x.events)
  {
  }

  lemma HandoverChildren(c: map<Key, Vote>, d: map<Key, Vote>)
    ensures var t := Handover(c, d); Path(t, 1, []) == [1] && Path(t, 1, [12]) == [1, 2]
    ensures var t := Handover(c, d); Find(t, 10) == Some(0) && Find(t, 11) == Some(1) && Find(t, 12) == Some(2)
    ensures var t := Handover(c, d); Child(t, 0, 11) == Some(1)
  {
    var t := Handover(c, d);
    FindIsUnique(t, 0);
    FindIsUnique(t, 1);
    FindIsUnique(t, 2);
    ChildIsUnique(t, 1);
    ChildIsUnique(t, 2);
    assert Path(t, 1, []) == [1] && Path(t, 2, []) == [2];
    assert [12][1..] == [];
    PathCons(t, 1, [12], 2);
  }

  lemma HandoverPaths(c: map<Key, Vote>, d: map<Key, Vote>)
    ensures VotePath(Handover(c, d), BRANCH) == [0, 1] && Branch(Handover(c, d), 1) == [11]
    ensures VotePath(Handover(c, d), LONG) == [0, 1, 2]
  {
    var t := Handover(c, d);
    HandoverChildren(c, d);
    assert [11][1..] == [] && [11, 12][1..] == [12];
    PathCons(t, 0, [11], 1);
    PathCons(t, 0, [11, 12], 1);
    assert Branch(t, 0) == [];
  }

  lemma HandoverOwnVote(c: map<Key, Vote>, d: map<Key, Vote>, k: Key)
    ensures RecordVote(Handover(c, d), BRANCH, k) == Handover(c[k := BRANCH], d)
  {
    var t := RecordVote(Handover(c, d), BRANCH, k);
    HandoverPaths(c, d);
    assert 2 !in [0, 1];
    assert t == [t[0], t[1], t[2]];
  }

  lemma HandoverVote(c: map<Key, Vote>, d: map<Key, Vote>, k: Key)
    ensures RecordVote(Handover(c, d), LONG, k) == Handover(c[k := LONG], d[k := LONG])
  {
    var t := RecordVote(Handover(c, d), LONG, k);
    HandoverPaths(c, d);
    assert t == [t[0], t[1], t[2]];
  }

  lemma HandoverOwnTaken(c: map<Key, Vote>, d: map<Key, Vote>, k: Key, path: seq<nat>)
    requires path == [0, 1]
    ensures Taken(Handover(c, d), Handover(c[k := BRANCH], d), BRANCH, k, path, 1)
  {
    HandoverPaths(c, d);
    HandoverOwnVote(c, d, k);
    HandoverMaxima(c[k := BRANCH], d);
    FourProducers();
  }

  lemma HandoverTaken(c: map<Key, Vote>, d: map<Key, Vote>, k: Key, path: seq<nat>)
    requires path == [0, 1, 2] && |d[k := LONG]| < |c[k := LONG]|
    ensures Taken(Handover(c, d), Handover(c[k := LONG], d[k := LONG]), LONG, k, path, 1)
  {
    HandoverPaths(c, d);
    HandoverVote(c, d, k);
    HandoverMaxima(c[k := LONG], d[k := LONG]);
    FourProducers();
  }

  lemma HandoverMaxima(c: map<Key, Vote>, d: map<Key, Vote>)
    ensures MostConfirmed(Handover(c, d), [0, 1]) == 1
    ensures |d| < |c| ==> MostConfirmed(Handover(c, d), [0, 1, 2]) == 1
  {
    assert [0, 1][..1] == [0] && [0, 1, 2][..2] == [0, 1];
  }

  /** The votes for block 12 after `n` messages. */
  function LongVotes(n: nat): (d: map<Key, Vote>)
    requires n <= 2
    ensures |d| == n && forall k :: k in d <==> 5 <= k < n + 5
  {
    if n == 0 then map[] else NewKeySize(LongVotes(n - 1), n + 4, LONG); LongVotes(n - 1)[n + 4 := LONG]
  }

  /** The votes for block 11 after `n` messages. */
  function MixedVotes(n: nat): (c: map<Key, Vote>)
    requires n <= 2
    ensures |c| == n + 1 && forall k :: k in c <==> k == 1 || 5 <= k < n + 5
  {
    if n == 0 then map[1 := BRANCH] else NewKeySize(MixedVotes(n - 1), n + 4, LONG); MixedVotes(n - 1)[n + 4 := LONG]
  }

  function MixedCommits(n: nat): (ps: seq<Precommit>)
    requires n <= 2
    ensures |ps| == n + 1 && forall k :: k in KeysOf(ps) <==> k == 1 || 5 <= k < n + 5
  {
    if n == 0 then KeysOfAppend([], Precommit(1, 11)); [Precommit(1, 11)]
    else KeysOfAppend(MixedCommits(n - 1), Precommit(n + 4, 11)); MixedCommits(n - 1) + [Precommit(n + 4, 11)]
  }

  function HandoverState(c: map<Key, Vote>, d: map<Key, Vote>): (r: Round)
    ensures BestKnown(r)
  {
    Voting(1, Handover(c, d), c.Keys, 1, |c| >= 3)
  }

  lemma HandoverAdds(c: map<Key, Vote>, d: map<Key, Vote>, k: Key, path: seq<nat>)
    requires k !in c && k !in d && |d| < |c| && path == [0, 1, 2]
    ensures AddPrevote(HandoverState(c, d), LONG, k) == HandoverState(c[k := LONG], d[k := LONG])
  {
    NewKeySize(c, k, LONG);
    NewKeySize(d, k, LONG);
    HandoverTaken(c, d, k, path);
    assert c[k := LONG].Keys == c.Keys + {k};
    VoteAdded(1, Handover(c, d), Handover(c[k := LONG], d[k := LONG]), c.Keys, |c| >= 3, LONG, k, path, 1);
  }

  lemma HandoverStep(c: map<Key, Vote>, d: map<Key, Vote>, k: Key)
    requires k in LATER && k !in c && k !in d && |d| < |c| < 3
    ensures Step(HandoverState(c, d), PrevoteMsg(0, LONG, [k])) == HandoverState(c[k := LONG], d[k := LONG])
  {
    HandoverChildren(c, d);
    OneVote(HandoverState(c, d), LONG, k);
    HandoverAdds(c, d, k, [0, 1, 2]);
  }

  lemma HandoverFirst(c: map<Key, Vote>, k: Key, path: seq<nat>)
    requires c == map[] && k == 1 && path == [0, 1]
    ensures AddPrevote(Fresh(0, [k], Handover(c, c)), BRANCH, k) == HandoverState(c[k := BRANCH], c)
  {
    var d := c[k := BRANCH];
    FreshIsVoting(k, Handover(c, c), 1);
    HandoverOwnTaken(c, c, k, path);
    NewKeySize(c, k, BRANCH);
    assert d.Keys == {} + {k};
    VoteAdded(k, Handover(c, c), Handover(d, c), {}, false, BRANCH, k, path, 1);
  }

  lemma HandoverStart(c: map<Key, Vote>, k: Key)
    requires c == map[] && k == 1
    ensures Start(0, [k], Handover(c, c), Some(1)) == HandoverState(c[k := BRANCH], c)
  {
    HandoverPaths(c, c);
    StartsWith(k, Handover(c, c), 1, BRANCH);
    HandoverFirst(c, k, [0, 1]);
  }

  /** The states that this run goes through. */
  function MixedState(i: nat): (r: Round)
    requires i <= 5
    ensures BestKnown(r)
  {
    if i <= 2 then HandoverState(MixedVotes(i), LongVotes(i))
    else Committed(CloseProof(HandoverState(MixedVotes(2), LongVotes(2))), MixedCommits(i - 3))
  }

  lemma {:induction false} MixedVote(i: nat)
    requires i < 2
    ensures Step(MixedState(i), PrevoteMsg(0, LONG, [i + 5])) == MixedState(i + 1)
  {
    HandoverStep(MixedVotes(i), LongVotes(i), i + 5);
  }

  lemma {:induction false} MixedClosing()
    ensures Step(MixedState(2), EndPrevote) == MixedState(3)
  {
    var r := MixedState(2);
    FourProducers();
    assert WithCommits(r, []) == r;
    OwnCommit(r, [], 1);
    assert [] + [Precommit(1, 11)] == MixedCommits(0);
  }

  lemma {:induction false} MixedCommit(i: nat)
    requires i < 2
    ensures Step(MixedState(i + 3), PrecommitMsg(0, 11, [i + 5])) == MixedState(i + 4)
  {
    FourProducers();
    OneCommit(CloseProof(HandoverState(MixedVotes(2), LongVotes(2))), MixedCommits(i), i + 5, 11);
  }

  lemma {:induction false} MixedStep(events: seq<Event>, i: nat)
    requires IsMixed(events) && i < 5
    ensures Step(MixedState(i), events[i]) == MixedState(i + 1)
  {
    if i < 2 {
      assert events[i] == PrevoteMsg(0, LONG, [i + 5]);
      MixedVote(i);
    } else if i == 2 {
      MixedClosing();
    } else {
      assert events[i] == PrecommitMsg(0, 11, [i + 2]);
      MixedCommit(i - 3);
    }
  }

  lemma {:induction false} MixedVisits(r: Round, events: seq<Event>, n: nat)
    requires IsMixed(events) && r == MixedState(0) && n <= 5
    ensures Run(r, events, n) == MixedState(n)
  {
    var states := seq(6, i requires 0 <= i < 6 => MixedState(i));
    forall i | 0 <= i < 5 ensures Step(states[i], events[i]) == states[i + 1] { MixedStep(events, i); }
    RunVisits(events, states, n);
  }

  lemma MixedRun(x: Trace, c: map<Key, Vote>, k: Key, n: nat)
    requires c == map[] && k == 1 && n <= 5
    requires x == Trace(0, [k], Handover(c, c), Some(1), x.events) && IsMixed(x.events)
    ensures Startable(x) && After(x, n) == MixedState(n)
  {
    HandoverStart(c, k);
    MixedVisits(Start(0, [k], Handover(c, c), Some(1)), x.events, n);
  }

  lemma MixedCounted(x: Trace)
    requires Startable(x) && Final(x) == MixedState(5)
    ensures Finished(x) && Final(x).phase == Done && BestNode(x).id == 11 && BestNode(x).producers == PRODUCERS
    ensures Final(x).announced.value.prevotes == MixedVotes(2) && Counted(x) == {1, 5, 6}
  {
    FourProducers();
    assert Counted(x) == KeysOf(MixedCommits(2)) == {1, 5, 6};
  }

  lemma MixedFewProducers(counted: set<Key>)
    requires counted == {1, 5, 6}
    ensures !Supermajority(|counted * PRODUCERS|, |PRODUCERS|)
  {
    FourProducers();
    assert counted * PRODUCERS == {1};
  }

  lemma MixedNotProducers(x: Trace, n: nat)
    requires n == 2 && Startable(x) && |x.events| == 5 && After(x, n) == MixedState(n)
    ensures !ClosesWell(x, n)
  {
    assert 5 in After(x, n).tree[1].confirmations;
  }

  lemma MixedIsRefused(x: Trace, n: nat, t: Tree, ms: seq<SignedVote>)
    requires n == 2 && Startable(x) && |x.events| == 5 && EndsOnce(x.events, n)
    requires After(x, n) == MixedState(n) && Final(x) == MixedState(5)
    requires Find(t, 11).Some? && t[Find(t, 11).value].producers == PRODUCERS && Lists(ms, MixedVotes(2))
    ensures Finished(x) && Final(x).phase == Done && BestNode(x).id == 11 && BestNode(x).producers == PRODUCERS
    ensures Counted(x) == {1, 5, 6} && !HasQuorum(x)
    ensures !GoodProof(t, Message(Final(x).announced.value, ms))
  {
    MixedNotProducers(x, n);
    MixedCounted(x);
    MixedFewProducers(Counted(x));
    ClosedOnceRefused(x, n, t, ms);
  }

  lemma MixedEndsOnce(events: seq<Event>)
    requires IsMixed(events)
    ensures EndsOnce(events, 2)
  {
  }

  lemma MixedOutcome(x: Trace, c: map<Key, Vote>, k: Key, t: Tree, ms: seq<SignedVote>)
    requires c == map[] && k == 1 && x == Trace(0, [k], Handover(c, c), Some(1), x.events) && IsMixed(x.events)
    requires Find(t, 11).Some? && t[Find(t, 11).value].producers == PRODUCERS && Lists(ms, MixedVotes(2))
    ensures Finished(x) && Final(x).phase == Done && BestNode(x).id == 11 && BestNode(x).producers == PRODUCERS
    ensures Counted(x) == {1, 5, 6} && !HasQuorum(x)
    ensures !GoodProof(t, Message(Final(x).announced.value, ms))
  {
    var n := 2;
    MixedRun(x, c, k, n);
    MixedRun(x, c, k, |x.events|);
    MixedEndsOnce(x.events);
    MixedIsRefused(x, n, t, ms);
  }

  /**
   Votes for a block count for its ancestors too, whoever produces those: one producer of block 11 and
   two of its successor make the round done. No node that knows the block accepts the proof.
   */
  lemma LaterProducersCount(x: Trace, t: Tree, ms: seq<SignedVote>)
    requires x == MIXED
    requires Find(t, 11).Some? && t[Find(t, 11).value].producers == PRODUCERS && Lists(ms, MixedVotes(2))
    ensures Finished(x) && Final(x).phase == Done && BestNode(x).id == 11 && BestNode(x).producers == PRODUCERS
    ensures Counted(x) == {1, 5, 6} && !HasQuorum(x)
    ensures !GoodProof(t, Message(Final(x).announced.value, ms))
  {
    MixedIsMixed(x);
    MixedOutcome(x, map[], 1, t, ms);
  }
}
