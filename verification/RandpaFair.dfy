/**
 Runs in which a finished round always has a quorum: all blocks have one set of producers, and
 nobody holds a precommit signed with this node's keys before the node precommits.
 */
module RandpaFair {
  import opened PrefixTree
  import opened Confirmations
  import opened RandpaRound
  import opened RandpaInvariant
  import opened RandpaSafety
  import opened RandpaClosing

  /** What is asked of an event. */
  predicate Fair(r: Round, e: Event, all: set<Key>) {
    && (e.Accepted? ==> e.producers == all)
    && (e.PrecommitMsg? && r.phase == ReadyToPrecommit ==> forall k :: k in e.keys ==> k !in r.own)
  }

  /** The first `n` events are fair, each in the state in which it arrives. */
  ghost predicate FairUpTo(x: Trace, all: set<Key>, n: nat)
    requires Startable(x) && n <= |x.events|
  {
    n == 0 || (FairUpTo(x, all, n - 1) && Fair(After(x, n - 1), x.events[n - 1], all))
  }

  ghost predicate FairRun(x: Trace, all: set<Key>) {
    && Startable(x) && FairUpTo(x, all, |x.events|)
    && (forall i :: 0 <= i < |x.tree| ==> x.tree[i].producers == all) && forall k :: k in x.own ==> k in all
  }

  /** Only producers are recorded, and the own keys have not signed before the node precommits. */
  ghost predicate Steady(r: Round, all: set<Key>) {
    && (forall i :: 0 <= i < |r.tree| ==> r.tree[i].producers == all && r.tree[i].confirmations.Keys <= all)
    && (forall k :: k in r.own ==> k in all)
    && (r.phase == Prevoting || r.phase == ReadyToPrecommit ==> forall k :: k in r.own ==> k !in r.precommitted)
  }

  lemma AddPrevoteIsSteady(r: Round, vote: Vote, key: Key, all: set<Key>)
    requires BestKnown(r) && Steady(r, all) && key in all && (r.phase == Prevoting || r.phase == ReadyToPrecommit)
    ensures Steady(AddPrevote(r, vote, key), all)
  {
    RecordedAreProducers(r.tree, vote, key, all);
  }

  lemma RecordedAreProducers(t: Tree, vote: Vote, key: Key, all: set<Key>)
    requires key in all && forall i :: 0 <= i < |t| ==> t[i].confirmations.Keys <= all
    ensures var u := RecordVote(t, vote, key); forall i :: 0 <= i < |u| ==> u[i].confirmations.Keys <= all
  {
    var u := RecordVote(t, vote, key);
    forall i | 0 <= i < |u| ensures u[i].confirmations.Keys <= all {
      assert t[i].confirmations.Keys <= all;
    }
  }

  lemma {:induction false} ReceivePrevotesAreSteady(r: Round, round: nat, vote: Vote, keys: seq<Key>, all: set<Key>)
    requires RoundInv(r) && Steady(r, all) && (r.phase == Prevoting || r.phase == ReadyToPrecommit)
    ensures Steady(ReceivePrevotes(r, round, vote, keys), all)
    decreases |keys|
  {
    if keys != [] {
      var n := |keys| - 1;
      ReceivePrevotesAreSteady(r, round, vote, keys[..n], all);
      ReceivePrevotesKeepsInv(r, round, vote, keys[..n]);
      var s := ReceivePrevotes(r, round, vote, keys[..n]);
      if ValidPrevote(s, round, vote, keys[n]) {
        AddPrevoteIsSteady(s, vote, keys[n], all);
      }
    }
  }

  lemma {:induction false} CastPrevotesAreSteady(r: Round, vote: Vote, keys: seq<Key>, all: set<Key>)
    requires BestKnown(r) && Steady(r, all) && (r.phase == Prevoting || r.phase == ReadyToPrecommit)
    requires forall k :: k in keys ==> k in all
    ensures var s := CastPrevotes(r, vote, keys);
      Steady(s, all) && (s.phase == Prevoting || s.phase == ReadyToPrecommit)
    decreases |keys|
  {
    if keys != [] {
      var n := |keys| - 1;
      CastPrevotesAreSteady(r, vote, keys[..n], all);
      AddPrevoteIsSteady(CastPrevotes(r, vote, keys[..n]), vote, keys[n], all);
    }
  }

  /** As long as the node waits to precommit, it has counted only keys of the messages. */
  lemma {:induction false} ReceivePrecommitsAreSteady(
    r: Round, round: nat, block: BlockId, keys: seq<Key>, all: set<Key>)
    requires RoundInv(r) && r.best.Some? && Steady(r, all)
    requires r.phase == ReadyToPrecommit ==> forall k :: k in keys ==> k !in r.own
    ensures var s := ReceivePrecommits(r, round, block, keys);
      Steady(s, all) && (s.phase == ReadyToPrecommit ==> r.phase == ReadyToPrecommit) && s.phase != Prevoting
    decreases |keys|
  {
    if keys != [] { ReceivePrecommitsAreSteady(r, round, block, keys[..|keys| - 1], all); }
  }

  lemma {:induction false} CastPrecommitsGoOn(r: Round, keys: seq<Key>)
    requires r.best.Some? && r.best.value < |r.tree| && (r.phase == Precommitting || r.phase == Done)
    ensures CastPrecommits(r, keys).phase == Precommitting || CastPrecommits(r, keys).phase == Done
    decreases |keys|
  {
    if keys != [] { CastPrecommitsGoOn(r, keys[..|keys| - 1]); }
  }

  lemma StepIsSteady(r: Round, e: Event, all: set<Key>)
    requires RoundInv(r) && Steady(r, all) && Fair(r, e, all)
    ensures Steady(Step(r, e), all)
  {
    match e
    case PrevoteMsg(round, vote, keys) =>
      if r.phase == Prevoting || r.phase == ReadyToPrecommit {
        ReceivePrevotesAreSteady(r, round, vote, keys, all);
      }
    case PrecommitMsg(round, block, keys) =>
      if r.phase == Precommitting || r.phase == ReadyToPrecommit {
        ReceivePrecommitsAreSteady(r, round, block, keys, all);
      }
    case EndPrevote => if r.phase == ReadyToPrecommit { CastPrecommitsGoOn(CloseProof(r), r.own); }
    case Accepted(prev, id, producers) =>
  }

  lemma StartIsSteady(x: Trace, all: set<Key>)
    requires FairRun(x, all)
    ensures Steady(Start(x.num, x.own, x.tree, x.head), all)
  {
    var r := Fresh(x.num, x.own, x.tree);
    assert Steady(r, all);
    if x.head.Some? { CastPrevotesAreSteady(r, OwnVote(x), x.own, all); }
  }

  lemma {:induction false} FairIsSteady(x: Trace, all: set<Key>, n: nat)
    requires FairRun(x, all) && n <= |x.events| && FairUpTo(x, all, n)
    ensures Steady(After(x, n), all)
    decreases n
  {
    if n == 0 {
      StartIsSteady(x, all);
    } else {
      FairIsSteady(x, all, n - 1);
      RunsAreSound(x, n - 1);
      StepIsSteady(After(x, n - 1), x.events[n - 1], all);
    }
  }

  lemma {:induction false} FairPrefix(x: Trace, all: set<Key>, n: nat, m: nat)
    requires Startable(x) && n <= m <= |x.events| && FairUpTo(x, all, m)
    ensures FairUpTo(x, all, n)
    decreases m
  {
    if n < m { FairPrefix(x, all, n, m - 1); }
  }

  /** A finished fair run has a quorum, its voters are producers, and its own keys were new when it closed. */
  lemma FairHasQuorum(x: Trace, all: set<Key>)
    requires FairRun(x, all) && Finished(x)
    ensures BestNode(x).producers == all && VotersAreProducers(BestNode(x)) && HasQuorum(x)
    ensures forall n: nat :: ClosedNew(x, n)
  {
    FairIsSteady(x, all, |x.events|);
    RunsAreSound(x, |x.events|);
    forall n: nat | Closes(x, n) ensures ClosedNew(x, n) {
      FairPrefix(x, all, n, |x.events|);
      FairIsSteady(x, all, n);
      RunsAreSound(x, n);
    }
    CountedAreProducers(Final(x), all);
    QuorumExactly(x);
  }

  lemma CountedAreProducers(r: Round, all: set<Key>)
    requires RoundInv(r) && Steady(r, all) && r.announced.Some?
    ensures KeysOf(r.announced.value.precommits) <= all
  {
    forall p | p in r.announced.value.precommits ensures p.key in all {
      assert p in r.proof.precommits;
    }
  }
}
