/**
 Two runs of a node that owns one of four producer keys, in which the round is done and yet no
 other node is convinced: the quorum of precommits comes before the end of prevoting, or the own
 key precommits to a block it did not vote for.
 */
module RandpaRuns {
  import opened Options
  import opened PrefixTree
  import opened Confirmations
  import opened RandpaRound
  import opened RandpaInvariant
  import opened RandpaSafety
  import opened RandpaClosing
  import opened RandpaProof
  import opened RandpaSteps

  const PRODUCERS: set<Key> := {1, 2, 3, 4}

  lemma FourProducers()
    ensures |PRODUCERS| == 4 && Quorum(|PRODUCERS|) == 3
  {
  }

  /** Only event `n` ends prevoting. */
  ghost predicate EndsOnce(events: seq<Event>, n: nat) {
    forall i :: 0 <= i < |events| && events[i].EndPrevote? ==> i == n
  }

  /** A proof closed once, and not well, is refused. */
  lemma ClosedOnceRefused(x: Trace, n: nat, t: Tree, ms: seq<SignedVote>)
    requires Finished(x) && Knows(t, x) && Lists(ms, Final(x).announced.value.prevotes)
    requires EndsOnce(x.events, n) && !ClosesWell(x, n)
    ensures !GoodProof(t, Message(Final(x).announced.value, ms))
  {
    ProofIsAccepted(x, t, ms);
  }

  // ----- A quorum before the end of prevoting -----

  const BRANCH := Vote(10, [11])

  /** Block 11 on block 10, both confirmed by the same keys. */
  function Chain(c: map<Key, Vote>): (t: Tree)
    ensures Valid(t)
  {
    [Node(10, 0, c, PRODUCERS), Node(11, 0, c, PRODUCERS)]
  }

  /** All four producers vote for block 11; those of keys 1, 2 and 3 precommit before this node ends prevoting. */
  const EARLY := Trace(0, [4], Chain(map[]), Some(1),
    [PrevoteMsg(0, BRANCH, [1]), PrevoteMsg(0, BRANCH, [2]), PrevoteMsg(0, BRANCH, [3]),
     PrecommitMsg(0, 11, [1]), PrecommitMsg(0, 11, [2]), PrecommitMsg(0, 11, [3])])

  ghost predicate IsEarly(events: seq<Event>) {
    && |events| == 6
    && (forall i :: 0 <= i < 3 ==> events[i] == PrevoteMsg(0, BRANCH, [i + 1]))
    && (forall i :: 3 <= i < 6 ==> events[i] == PrecommitMsg(0, 11, [i - 2]))
  }

  lemma ChainPath(c: map<Key, Vote>)
    ensures VotePath(Chain(c), BRANCH) == [0, 1] && LastKnown(Chain(c), 10, [11]) == Some(1)
  {
    var t := Chain(c);
    FindIsUnique(t, 0);
    FindIsUnique(t, 1);
    ChildIsUnique(t, 1);
    assert Path(t, 1, []) == [1];
    assert [11][1..] == [];
    PathCons(t, 0, [11], 1);
  }

  lemma ChainVote(c: map<Key, Vote>, k: Key)
    ensures RecordVote(Chain(c), BRANCH, k) == Chain(c[k := BRANCH])
  {
    ChainPath(c);
  }

  lemma ChainMaximum(c: map<Key, Vote>)
    ensures MostConfirmed(Chain(c), [0, 1]) == 1
  {
    assert [0, 1][..1] == [0];
  }

  function ChainState(c: map<Key, Vote>): (r: Round)
    ensures BestKnown(r)
  {
    Voting(4, Chain(c), c.Keys, 1, |c| >= 3)
  }

  lemma ChainTaken(c: map<Key, Vote>, k: Key, path: seq<nat>)
    requires path == [0, 1]
    ensures Taken(Chain(c), Chain(c[k := BRANCH]), BRANCH, k, path, 1)
  {
    ChainPath(c);
    ChainVote(c, k);
    ChainMaximum(c[k := BRANCH]);
    FourProducers();
  }

  lemma ChainAdds(c: map<Key, Vote>, k: Key, path: seq<nat>)
    requires k !in c && path == [0, 1]
    ensures AddPrevote(ChainState(c), BRANCH, k) == ChainState(c[k := BRANCH])
  {
    var d := c[k := BRANCH];
    ChainTaken(c, k, path);
    NewKeySize(c, k, BRANCH);
    assert d.Keys == c.Keys + {k};
    VoteAdded(4, Chain(c), Chain(d), c.Keys, |c| >= 3, BRANCH, k, path, 1);
  }

  lemma ChainStep(c: map<Key, Vote>, k: Key)
    requires k in PRODUCERS && k !in c
    ensures Step(ChainState(c), PrevoteMsg(0, BRANCH, [k])) == ChainState(c[k := BRANCH])
  {
    ChainPath(c);
    OneVote(ChainState(c), BRANCH, k);
    ChainAdds(c, k, [0, 1]);
  }

  lemma ChainStart(c: map<Key, Vote>, k: Key)
    requires c == map[] && k == 4
    ensures Start(0, [k], Chain(c), Some(1)) == ChainState(c[k := BRANCH])
  {
    ChainBranch(c);
    StartsWith(k, Chain(c), 1, BRANCH);
    FreshIsVoting(k, Chain(c), 1);
    ChainAdds(c, k, [0, 1]);
  }

  lemma ChainBranch(c: map<Key, Vote>)
    ensures Branch(Chain(c), 1) == [11]
  {
    assert Branch(Chain(c), 0) == [];
  }

  /** The votes recorded after `n` messages. */
  function Votes(n: nat): (c: map<Key, Vote>)
    requires n <= 3
    ensures |c| == n + 1 && 4 in c && forall k :: k in c <==> k == 4 || 1 <= k <= n
  {
    if n == 0 then map[4 := BRANCH] else NewKeySize(Votes(n - 1), n, BRANCH); Votes(n - 1)[n := BRANCH]
  }

  /** The precommits received after `n` further messages. */
  function Commits(n: nat): (ps: seq<Precommit>)
    requires n <= 3
    ensures |ps| == n && forall k :: k in KeysOf(ps) <==> 1 <= k <= n
  {
    if n == 0 then [] else KeysOfAppend(Commits(n - 1), Precommit(n, 11)); Commits(n - 1) + [Precommit(n, 11)]
  }

  /** The states that this run goes through. */
  function EarlyState(i: nat): (r: Round)
    requires i <= 6
    ensures BestKnown(r)
  {
    if i <= 3 then ChainState(Votes(i))
    else Committed(ChainState(Votes(3)), Commits(i - 3))
  }

  lemma {:induction false} EarlyVote(i: nat)
    requires i < 3
    ensures Step(EarlyState(i), PrevoteMsg(0, BRANCH, [i + 1])) == EarlyState(i + 1)
  {
    ChainStep(Votes(i), i + 1);
  }

  lemma {:induction false} EarlyCommit(i: nat)
    requires i < 3
    ensures Step(EarlyState(i + 3), PrecommitMsg(0, 11, [i + 1])) == EarlyState(i + 4)
  {
    assert Commits(0) == [] && KeysOf([]) == {};
    assert WithCommits(ChainState(Votes(3)), Commits(0)) == ChainState(Votes(3));
    FourProducers();
    OneCommit(ChainState(Votes(3)), Commits(i), i + 1, 11);
  }

  lemma {:induction false} EarlyVisits(r: Round, events: seq<Event>, n: nat)
    requires IsEarly(events) && r == EarlyState(0) && n <= 6
    ensures Run(r, events, n) == EarlyState(n)
  {
    var states := seq(7, i requires 0 <= i < 7 => EarlyState(i));
    forall i | 0 <= i < 6 ensures Step(states[i], events[i]) == states[i + 1] { EarlyStep(events, i); }
    RunVisits(events, states, n);
  }

  lemma {:induction false} EarlyStep(events: seq<Event>, i: nat)
    requires IsEarly(events) && i < 6
    ensures Step(EarlyState(i), events[i]) == EarlyState(i + 1)
  {
    if i < 3 { EarlyVote(i); } else { EarlyCommit(i - 3); }
  }

  /**
   The precommits reach their supermajority before this node ends prevoting. The round is done, but
   its proof names no block: it is not handed out, and nobody would accept it.
   */
  lemma EarlyQuorum(x: Trace, t: Tree, number: BlockId -> int, lib: BlockId)
    requires x == EARLY && number(ZERO_BLOCK) == 0 <= number(lib)
    ensures Finished(x) && Final(x).phase == Done && BestNode(x).id == 11
    ensures !HandedOut(number, lib, Final(x).announced.value)
    ensures !GoodProof(t, Message(Final(x).announced.value, []))
  {
    EarlyIsEarly(x);
    EarlyRun(x, map[], 4, |x.events|);
    HandedOutExactly(x, number, lib);
    EarlyProofIsRejected(x, t, []);
  }

  lemma EarlyIsEarly(x: Trace)
    requires x == EARLY
    ensures x == Trace(0, [4], Chain(map[]), Some(1), x.events) && IsEarly(x.events)
  {
  }

  lemma EarlyRun(x: Trace, c: map<Key, Vote>, k: Key, n: nat)
    requires c == map[] && k == 4 && x == Trace(0, [k], Chain(c), Some(1), x.events) && IsEarly(x.events) && n <= 6
    ensures Startable(x) && After(x, n) == EarlyState(n)
  {
    ChainStart(c, k);
    EarlyVisits(Start(0, [k], Chain(c), Some(1)), x.events, n);
  }

  // ----- A precommit without a vote -----

  const SOLE := Vote(12, [])

  /** Blocks 11 and 12 on block 10: `c` confirms 10 and 11, and `d` confirms 12. */
  function Fork(c: map<Key, Vote>, d: map<Key, Vote>): (t: Tree)
    ensures Valid(t)
  {
    [Node(10, 0, c, PRODUCERS), Node(11, 0, c, PRODUCERS), Node(12, 0, d, PRODUCERS)]
  }

  /**
   This node votes for block 11. The producers of keys 1, 2 and 3, whose last irreversible block is
   12 already, vote for that block, and this node goes on to precommit to it.
   */
  const STRAY := Trace(0, [4], Fork(map[], map[]), Some(1),
    [PrevoteMsg(0, SOLE, [1]), PrevoteMsg(0, SOLE, [2]), PrevoteMsg(0, SOLE, [3]), EndPrevote,
     PrecommitMsg(0, 12, [1]), PrecommitMsg(0, 12, [2])])

  ghost predicate IsStray(events: seq<Event>) {
    && |events| == 6 && events[3] == EndPrevote
    && (forall i :: 0 <= i < 3 ==> events[i] == PrevoteMsg(0, SOLE, [i + 1]))
    && (forall i :: 4 <= i < 6 ==> events[i] == PrecommitMsg(0, 12, [i - 3]))
  }

  lemma StrayEndsOnce(events: seq<Event>)
    requires IsStray(events)
    ensures EndsOnce(events, 3)
  {
  }

  lemma ForkPaths(c: map<Key, Vote>, d: map<Key, Vote>)
    ensures VotePath(Fork(c, d), BRANCH) == [0, 1] && Branch(Fork(c, d), 1) == [11]
    ensures VotePath(Fork(c, d), SOLE) == [2] && LastKnown(Fork(c, d), 12, []) == Some(2)
  {
    var t := Fork(c, d);
    FindIsUnique(t, 0);
    FindIsUnique(t, 1);
    FindIsUnique(t, 2);
    ChildIsUnique(t, 1);
    assert Path(t, 1, []) == [1] && Path(t, 2, []) == [2];
    assert [11][1..] == [];
    PathCons(t, 0, [11], 1);
    assert Branch(t, 0) == [];
  }

  lemma ForkBranchVote(c: map<Key, Vote>, d: map<Key, Vote>, k: Key)
    ensures RecordVote(Fork(c, d), BRANCH, k) == Fork(c[k := BRANCH], d)
  {
    var t := RecordVote(Fork(c, d), BRANCH, k);
    ForkPaths(c, d);
    assert 2 !in [0, 1];
    assert t == [t[0], t[1], t[2]];
  }

  lemma ForkSoleVote(c: map<Key, Vote>, d: map<Key, Vote>, k: Key)
    ensures RecordVote(Fork(c, d), SOLE, k) == Fork(c, d[k := SOLE])
  {
    var t := RecordVote(Fork(c, d), SOLE, k);
    ForkPaths(c, d);
    assert 0 !in [2] && 1 !in [2];
    assert t == [t[0], t[1], t[2]];
  }

  lemma ForkMaxima(c: map<Key, Vote>, d: map<Key, Vote>)
    ensures MostConfirmed(Fork(c, d), [0, 1]) == 1 && MostConfirmed(Fork(c, d), [2]) == 0
  {
    assert [0, 1][..1] == [0];
  }

  function ForkState(d: map<Key, Vote>): (r: Round)
    ensures BestKnown(r)
  {
    Voting(4, Fork(map[4 := BRANCH], d), {4} + d.Keys, 2, |d| >= 3)
  }

  lemma ForkStart(c: map<Key, Vote>, k: Key)
    requires c == map[] && k == 4
    ensures Start(0, [k], Fork(c, c), Some(1)) == ForkState(c)
  {
    ForkPaths(c, c);
    StartsWith(k, Fork(c, c), 1, BRANCH);
    ForkOwnVote(c, k);
  }

  lemma ForkOwnVote(c: map<Key, Vote>, k: Key)
    requires c == map[] && k == 4
    ensures AddPrevote(Fresh(0, [k], Fork(c, c)), BRANCH, k) == ForkState(c)
  {
    var d := c[k := BRANCH];
    ForkBranchTaken(c, c, k, [0, 1]);
    FreshIsVoting(k, Fork(c, c), 1);
    NewKeySize(c, k, BRANCH);
    VoteAdded(k, Fork(c, c), Fork(d, c), {}, false, BRANCH, k, [0, 1], 1);
    assert {} + {k} == {4} + c.Keys;
  }

  lemma ForkBranchTaken(c: map<Key, Vote>, d: map<Key, Vote>, k: Key, path: seq<nat>)
    requires path == [0, 1]
    ensures Taken(Fork(c, d), Fork(c[k := BRANCH], d), BRANCH, k, path, 1)
  {
    ForkPaths(c, d);
    ForkBranchVote(c, d, k);
    ForkMaxima(c[k := BRANCH], d);
    FourProducers();
  }

  lemma ForkSoleTaken(c: map<Key, Vote>, d: map<Key, Vote>, k: Key, path: seq<nat>)
    requires path == [2]
    ensures Taken(Fork(c, d), Fork(c, d[k := SOLE]), SOLE, k, path, 0)
  {
    ForkPaths(c, d);
    ForkSoleVote(c, d, k);
    ForkMaxima(c, d[k := SOLE]);
    FourProducers();
  }

  lemma ForkAdds(c: map<Key, Vote>, d: map<Key, Vote>, k: Key, path: seq<nat>)
    requires c == map[4 := BRANCH] && k !in d && path == [2]
    ensures AddPrevote(ForkState(d), SOLE, k) == ForkState(d[k := SOLE])
  {
    var e := d[k := SOLE];
    ForkSoleTaken(c, d, k, path);
    NewKeySize(d, k, SOLE);
    assert {4} + e.Keys == {4} + d.Keys + {k};
    VoteAdded(4, Fork(c, d), Fork(c, e), {4} + d.Keys, |d| >= 3, SOLE, k, path, 0);
  }

  lemma ForkStep(d: map<Key, Vote>, k: Key)
    requires k in PRODUCERS && k !in d && k != 4
    ensures Step(ForkState(d), PrevoteMsg(0, SOLE, [k])) == ForkState(d[k := SOLE])
  {
    ForkPaths(map[4 := BRANCH], d);
    OneVote(ForkState(d), SOLE, k);
    ForkAdds(map[4 := BRANCH], d, k, [2]);
  }

  /** The votes for block 12 after `n` messages. */
  function SoleVotes(n: nat): (d: map<Key, Vote>)
    requires n <= 3
    ensures |d| == n && forall k :: k in d <==> 1 <= k <= n
  {
    if n == 0 then map[] else NewKeySize(SoleVotes(n - 1), n, SOLE); SoleVotes(n - 1)[n := SOLE]
  }

  /** This node's own precommit, then those of keys 1 and 2. */
  function StrayCommits(n: nat): (ps: seq<Precommit>)
    requires n <= 2
    ensures |ps| == n + 1 && forall k :: k in KeysOf(ps) <==> k == 4 || 1 <= k <= n
  {
    if n == 0 then KeysOfAppend([], Precommit(4, 12)); [Precommit(4, 12)]
    else KeysOfAppend(StrayCommits(n - 1), Precommit(n, 12)); StrayCommits(n - 1) + [Precommit(n, 12)]
  }

  /** The states that this run goes through. */
  function StrayState(i: nat): (r: Round)
    requires i <= 6
    ensures BestKnown(r)
  {
    var s := CloseProof(ForkState(SoleVotes(3)));
    if i <= 3 then ForkState(SoleVotes(i))
    else Committed(s, StrayCommits(i - 4))
  }

  lemma {:induction false} StrayVote(i: nat)
    requires i < 3
    ensures Step(StrayState(i), PrevoteMsg(0, SOLE, [i + 1])) == StrayState(i + 1)
  {
    ForkStep(SoleVotes(i), i + 1);
  }

  lemma {:induction false} StrayClosing()
    ensures Step(StrayState(3), EndPrevote) == StrayState(4)
  {
    var r := StrayState(3);
    FourProducers();
    assert WithCommits(r, []) == r;
    OwnCommit(r, [], 4);
    assert [] + [Precommit(4, 12)] == StrayCommits(0);
  }

  lemma {:induction false} StrayCommit(i: nat)
    requires i < 2
    ensures Step(StrayState(i + 4), PrecommitMsg(0, 12, [i + 1])) == StrayState(i + 5)
  {
    FourProducers();
    OneCommit(CloseProof(ForkState(SoleVotes(3))), StrayCommits(i), i + 1, 12);
  }

  lemma {:induction false} StrayVisits(r: Round, events: seq<Event>, n: nat)
    requires IsStray(events) && r == StrayState(0) && n <= 6
    ensures Run(r, events, n) == StrayState(n)
  {
    var states := seq(7, i requires 0 <= i < 7 => StrayState(i));
    forall i | 0 <= i < 6 ensures Step(states[i], events[i]) == states[i + 1] { StrayStep(events, i); }
    RunVisits(events, states, n);
  }

  lemma {:induction false} StrayStep(events: seq<Event>, i: nat)
    requires IsStray(events) && i < 6
    ensures Step(StrayState(i), events[i]) == StrayState(i + 1)
  {
    if i < 3 {
      assert events[i] == PrevoteMsg(0, SOLE, [i + 1]);
      StrayVote(i);
    } else if i == 3 {
      StrayClosing();
    } else {
      assert events[i] == PrecommitMsg(0, 12, [i - 3]);
      StrayCommit(i - 4);
    }
  }

  lemma StrayRun(x: Trace, c: map<Key, Vote>, k: Key, n: nat)
    requires c == map[] && k == 4 && x == Trace(0, [k], Fork(c, c), Some(1), x.events) && IsStray(x.events) && n <= 6
    ensures Startable(x) && After(x, n) == StrayState(n)
  {
    ForkStartable(x, c);
    StrayBegins(c, k);
    StrayVisits(Start(0, [k], Fork(c, c), Some(1)), x.events, n);
  }

  lemma ForkStartable(x: Trace, c: map<Key, Vote>)
    requires c == map[] && x.tree == Fork(c, c) && x.head == Some(1) && |x.own| == 1
    ensures Startable(x)
  {
    forall i | 0 <= i < |x.tree| ensures x.tree[i].confirmations == c {
      assert i == 0 || i == 1 || i == 2;
    }
  }

  lemma StrayBegins(c: map<Key, Vote>, k: Key)
    requires c == map[] && k == 4
    ensures Start(0, [k], Fork(c, c), Some(1)) == StrayState(0)
  {
    ForkStart(c, k);
    assert SoleVotes(0) == c;
  }

  lemma StrayCounted(x: Trace)
    requires Startable(x) && Final(x) == StrayState(6)
    ensures Finished(x) && Final(x).phase == Done && BestNode(x).id == 12 && BestNode(x).producers == PRODUCERS
    ensures Final(x).announced.value.prevotes == SoleVotes(3)
  {
  }

  lemma StrayOwnKey(r: Round)
    requires r == ForkState(SoleVotes(3))
    ensures r.phase == ReadyToPrecommit && r.best == Some(2) && !OwnKeysVoted(r)
  {
    FourProducers();
    assert r.own[0] == 4 && 4 !in r.tree[2].confirmations;
  }

  lemma StrayIsRefused(x: Trace, n: nat, t: Tree, ms: seq<SignedVote>)
    requires n == 3 && Startable(x) && |x.events| == 6 && x.events[n] == EndPrevote && EndsOnce(x.events, n)
    requires After(x, n) == StrayState(n) && Final(x) == StrayState(6)
    requires Find(t, 12).Some? && t[Find(t, 12).value].producers == PRODUCERS && Lists(ms, SoleVotes(3))
    ensures Finished(x) && Final(x).phase == Done && BestNode(x).id == 12
    ensures Closes(x, n) && After(x, n).best.Some? && !OwnKeysVoted(After(x, n))
    ensures !GoodProof(t, Message(Final(x).announced.value, ms))
  {
    StrayOwnKey(After(x, n));
    StrayCounted(x);
    ClosedOnceRefused(x, n, t, ms);
  }

  lemma StrayOutcome(x: Trace, c: map<Key, Vote>, k: Key, n: nat, t: Tree, ms: seq<SignedVote>)
    requires c == map[] && k == 4 && x == Trace(0, [k], Fork(c, c), Some(1), x.events) && IsStray(x.events) && n == 3
    requires Find(t, 12).Some? && t[Find(t, 12).value].producers == PRODUCERS && Lists(ms, SoleVotes(3))
    ensures Finished(x) && Final(x).phase == Done && BestNode(x).id == 12
    ensures Closes(x, n) && After(x, n).best.Some? && !OwnKeysVoted(After(x, n))
    ensures !GoodProof(t, Message(Final(x).announced.value, ms))
  {
    StrayRun(x, c, k, n);
    StrayRun(x, c, k, |x.events|);
    StrayEndsOnce(x.events);
    StrayIsRefused(x, n, t, ms);
  }

  lemma StrayIsStray(x: Trace)
    requires x == STRAY
    ensures x == Trace(0, [4], Fork(map[], map[]), Some(1), x.events) && IsStray(x.events)
  {
  }

  /**
   The own key precommits to the block the others elected, for which it did not vote. The round is
   done and its proof names the block, but a node that knows the block does not accept it.
   */
  lemma StrayPrecommit(x: Trace, n: nat, t: Tree, ms: seq<SignedVote>)
    requires x == STRAY && n == 3
    requires Find(t, 12).Some? && t[Find(t, 12).value].producers == PRODUCERS && Lists(ms, SoleVotes(3))
    ensures Finished(x) && Final(x).phase == Done && BestNode(x).id == 12
    ensures Closes(x, n) && After(x, n).best.Some? && !OwnKeysVoted(After(x, n))
    ensures !GoodProof(t, Message(Final(x).announced.value, ms))
  {
    StrayIsStray(x);
    StrayOutcome(x, map[], 4, n, t, ms);
  }
}
