/**
 How the end of prevoting shapes the proof: the precommits held before it, then this node's own in
 the order of its keys, then those received later. The proof that is announced holds the first of
 them, just as many as make a supermajority; whether they come from a quorum of the producers, and
 whether they come from voters, can be told before prevoting is closed.
 */
module RandpaClosing {
  import opened PrefixTree
  import opened Confirmations
  import opened RandpaRound
  import opened RandpaInvariant
  import opened RandpaSafety
  import opened Sequences

  /** The `n`th event closes prevoting. */
  ghost predicate Closes(x: Trace, n: nat)
    requires Startable(x)
  {
    n < |x.events| && x.events[n].EndPrevote? && After(x, n).phase == ReadyToPrecommit
  }

  function SignedBy(keys: seq<Key>, block: BlockId): (ps: seq<Precommit>)
    ensures |ps| == |keys| && forall i :: 0 <= i < |keys| ==> ps[i] == Precommit(keys[i], block)
  {
    seq(|keys|, i requires 0 <= i < |keys| => Precommit(keys[i], block))
  }

  lemma {:induction false} CastPrecommitsList(r: Round, keys: seq<Key>)
    requires r.best.Some? && r.best.value < |r.tree|
    ensures CastPrecommits(r, keys).proof
      == r.proof.(precommits := r.proof.precommits + SignedBy(keys, r.tree[r.best.value].id))
    decreases |keys|
  {
    var block := r.tree[r.best.value].id;
    if keys == [] {
      assert r.proof.precommits + SignedBy(keys, block) == r.proof.precommits;
    } else {
      var n := |keys| - 1;
      CastPrecommitsList(r, keys[..n]);
      var ps := r.proof.precommits;
      assert ps + SignedBy(keys[..n], block) + [Precommit(keys[n], block)] == ps + SignedBy(keys, block);
    }
  }

  // ----- From the closing event on -----

  /** From position `c` on every key is new. */
  ghost predicate NewFrom(ps: seq<Precommit>, c: nat) {
    forall i, j :: 0 <= i < j < |ps| && c <= j ==> ps[i].key != ps[j].key
  }

  /** Prevoting is closed with the given prevotes; the proof begins with `base`, and only new keys follow. */
  ghost predicate Closed(r: Round, votes: map<Key, Vote>, base: seq<Precommit>) {
    Ended(r) && r.proof.prevotes == votes && base <= r.proof.precommits && NewFrom(r.proof.precommits, |base|)
  }

  lemma AppendNewKey(ps: seq<Precommit>, p: Precommit, c: nat)
    requires NewFrom(ps, c) && p.key !in KeysOf(ps)
    ensures NewFrom(ps + [p], c)
  {
    forall q | q in ps ensures q.key != p.key {
      assert q.key in KeysOf(ps);
    }
  }

  lemma {:induction false} ReceivedAfterClosing(
    r: Round, round: nat, block: BlockId, keys: seq<Key>, votes: map<Key, Vote>, base: seq<Precommit>)
    requires RoundInv(r) && r.best.Some? && r.phase != Failed && Closed(r, votes, base)
    ensures Closed(ReceivePrecommits(r, round, block, keys), votes, base)
    decreases |keys|
  {
    if keys != [] {
      var n := |keys| - 1;
      ReceivedAfterClosing(r, round, block, keys[..n], votes, base);
      ReceivePrecommitsKeepsInv(r, round, block, keys[..n]);
      var s := ReceivePrecommits(r, round, block, keys[..n]);
      if ValidPrecommit(s, round, block, keys[n]) {
        AppendNewKey(s.proof.precommits, Precommit(keys[n], block), |base|);
      }
    }
  }

  lemma ClosedStays(r: Round, e: Event, votes: map<Key, Vote>, base: seq<Precommit>)
    requires RoundInv(r) && Closed(r, votes, base)
    ensures Closed(Step(r, e), votes, base)
  {
    match e
    case PrevoteMsg(round, vote, keys) =>
    case PrecommitMsg(round, block, keys) =>
      if r.phase == Precommitting { ReceivedAfterClosing(r, round, block, keys, votes, base); }
    case EndPrevote =>
    case Accepted(prev, id, producers) =>
  }

  /** The proof right after the closing event. */
  lemma ClosingProof(r: Round)
    requires RoundInv(r) && r.phase == ReadyToPrecommit
    ensures var node := r.tree[r.best.value];
      Closed(ClosePrevoting(r), node.confirmations, r.proof.precommits + SignedBy(r.own, node.id))
  {
    CloseProofKeepsInv(r);
    CastPrecommitsList(CloseProof(r), r.own);
  }

  /** What the proof holds from the closing event on. */
  lemma {:induction false} ClosedFrom(x: Trace, n: nat, m: nat)
    requires Startable(x) && Closes(x, n) && n < m <= |x.events| && After(x, n).best.Some?
    ensures var r := After(x, n); var node := r.tree[r.best.value];
      Closed(After(x, m), node.confirmations, r.proof.precommits + SignedBy(x.own, node.id))
  {
    var r := After(x, n);
    var node := r.tree[r.best.value];
    RunsAreSound(x, n);
    ClosingProof(r);
    StaysClosed(x, n + 1, m, node.confirmations, r.proof.precommits + SignedBy(x.own, node.id));
  }

  lemma {:induction false} StaysClosed(x: Trace, n: nat, m: nat, votes: map<Key, Vote>, base: seq<Precommit>)
    requires Startable(x) && n <= m <= |x.events| && Closed(After(x, n), votes, base)
    ensures Closed(After(x, m), votes, base)
    decreases m - n
  {
    if n < m {
      NextIsClosed(x, n, votes, base);
      StaysClosed(x, n + 1, m, votes, base);
    }
  }

  lemma {:induction false} NextIsClosed(x: Trace, n: nat, votes: map<Key, Vote>, base: seq<Precommit>)
    requires Startable(x) && n < |x.events| && Closed(After(x, n), votes, base)
    ensures Closed(After(x, n + 1), votes, base)
  {
    RunsAreSound(x, n);
    ClosedStays(After(x, n), x.events[n], votes, base);
  }

  /** Nothing but a closing event puts prevotes into the proof. */
  lemma OnlyClosingEnds(r: Round, e: Event)
    requires RoundInv(r) && !Ended(r) && !(e.EndPrevote? && r.phase == ReadyToPrecommit)
    ensures !Ended(Step(r, e))
  {
    match e
    case PrevoteMsg(round, vote, keys) => PrevotesSignNothing(r, round, vote, keys);
    case PrecommitMsg(round, block, keys) =>
      if r.phase == Precommitting || r.phase == ReadyToPrecommit { ReceivedKeepsPrevotes(r, round, block, keys); }
    case EndPrevote =>
    case Accepted(prev, id, producers) =>
  }

  /** A proof with prevotes stems from a closing event. */
  lemma {:induction false} EndedWasClosed(x: Trace, n: nat) returns (m: nat)
    requires Startable(x) && n <= |x.events| && Ended(After(x, n))
    ensures m < n && Closes(x, m)
    decreases n
  {
    if n == 0 {
      StartHasNoProof(x);
      assert false;
    }
    m := n - 1;
    if !Closes(x, m) {
      RunsAreSound(x, m);
      if Ended(After(x, m)) {
        m := EndedWasClosed(x, m);
      } else {
        OnlyClosingEnds(After(x, m), x.events[m]);
        assert false;
      }
    }
  }

  lemma StartHasNoProof(x: Trace)
    requires Startable(x)
    ensures !Ended(Start(x.num, x.own, x.tree, x.head))
  {
    if x.head.Some? { CastPrevotesSignNothing(Fresh(x.num, x.own, x.tree), OwnVote(x), x.own); }
  }

  // ----- Tests on the state before prevoting is closed -----

  /** The own key at position `i` will be among the first precommits that make a supermajority. */
  predicate Counts(r: Round, i: nat)
    requires r.best.Some? && r.best.value < |r.tree|
  {
    i < |r.own| && |r.proof.precommits| + i < Quorum(|r.tree[r.best.value].producers|)
  }

  /** The own keys that count have voted for the best block. */
  predicate OwnKeysVoted(r: Round)
    requires r.best.Some? && r.best.value < |r.tree|
  {
    forall i :: 0 <= i < |r.own| && Counts(r, i) ==> r.own[i] in r.tree[r.best.value].confirmations
  }

  /** The own keys that count have not precommitted yet. */
  predicate OwnKeysNew(r: Round)
    requires r.best.Some? && r.best.value < |r.tree|
  {
    forall i :: 0 <= i < |r.own| && Counts(r, i) ==> r.own[i] !in r.precommitted
  }

  // ----- The first precommits of a closed proof -----

  /** The precommits `ps` go on from those of `r` with the own ones, then with new keys; `a` are the first of them. */
  ghost predicate FirstOf(a: seq<Precommit>, ps: seq<Precommit>, r: Round) {
    && r.best.Some? && r.best.value < |r.tree| && Distinct(r.own)
    && r.precommitted == KeysOf(r.proof.precommits) && DistinctKeys(r.proof.precommits)
    && var base := r.proof.precommits + SignedBy(r.own, r.tree[r.best.value].id);
    && base <= ps && NewFrom(ps, |base|)
    && a <= ps && |a| == Quorum(|r.tree[r.best.value].producers|)
  }

  lemma OwnPosition(a: seq<Precommit>, ps: seq<Precommit>, r: Round, i: nat)
    requires FirstOf(a, ps, r) && i < |r.own|
    ensures var c := |r.proof.precommits|;
      c + i < |ps| && ps[c + i].key == r.own[i] && (Counts(r, i) <==> c + i < |a|)
  {
    var base := r.proof.precommits + SignedBy(r.own, r.tree[r.best.value].id);
    assert base[|r.proof.precommits| + i] == Precommit(r.own[i], r.tree[r.best.value].id);
  }

  /** No key is counted twice exactly when the own keys that count were new. */
  lemma CountedOnce(a: seq<Precommit>, ps: seq<Precommit>, r: Round)
    requires FirstOf(a, ps, r)
    ensures DistinctKeys(a) <==> OwnKeysNew(r)
  {
    if OwnKeysNew(r) {
      forall i, j | 0 <= i < j < |a| ensures a[i].key != a[j].key { NotCountedTwice(a, ps, r, i, j); }
    }
    if DistinctKeys(a) {
      forall i | 0 <= i < |r.own| && Counts(r, i) ensures r.own[i] !in r.precommitted {
        OwnPosition(a, ps, r, i);
        OwnIsNew(a, ps, r, i);
      }
    }
  }

  lemma NotCountedTwice(a: seq<Precommit>, ps: seq<Precommit>, r: Round, i: nat, j: nat)
    requires FirstOf(a, ps, r) && OwnKeysNew(r) && i < j < |a|
    ensures a[i].key != a[j].key
  {
    var qs := r.proof.precommits;
    assert a[i] == ps[i] && a[j] == ps[j];
    if j < |qs| {
      assert ps[i] == qs[i] && ps[j] == qs[j];
    } else if j < |qs| + |r.own| {
      OwnPosition(a, ps, r, j - |qs|);
      if i < |qs| {
        assert ps[i] == qs[i] && qs[i] in qs;
        assert ps[i].key in KeysOf(qs);
      } else {
        OwnPosition(a, ps, r, i - |qs|);
      }
    }
  }

  lemma OwnIsNew(a: seq<Precommit>, ps: seq<Precommit>, r: Round, i: nat)
    requires FirstOf(a, ps, r) && DistinctKeys(a) && i < |r.own| && Counts(r, i)
    ensures r.own[i] !in r.precommitted
  {
    OwnPosition(a, ps, r, i);
    var qs := r.proof.precommits;
    forall q | q in qs ensures q.key != r.own[i] {
      var k :| 0 <= k < |qs| && qs[k] == q;
      assert a[k] == ps[k] == q && a[|qs| + i] == ps[|qs| + i];
    }
  }

  /** All counted keys are among `voters` exactly when the own keys that count are, if all others are. */
  lemma CountedVoters(a: seq<Precommit>, ps: seq<Precommit>, r: Round, voters: set<Key>)
    requires FirstOf(a, ps, r) && forall p :: p in ps && p.key !in r.own ==> p.key in voters
    requires forall p :: p in r.proof.precommits ==> p.key in voters
    ensures KeysOf(a) <= voters <==> forall i :: 0 <= i < |r.own| && Counts(r, i) ==> r.own[i] in voters
  {
    var c := |r.proof.precommits|;
    if forall i :: 0 <= i < |r.own| && Counts(r, i) ==> r.own[i] in voters {
      forall k | k in KeysOf(a) ensures k in voters {
        var p :| p in a && p.key == k;
        var j :| 0 <= j < |a| && a[j] == p;
        assert ps[j] == p && p in ps;
        if k in r.own { CountedOwnKey(a, ps, r, j, voters); }
      }
    }
    if KeysOf(a) <= voters {
      forall i | 0 <= i < |r.own| && Counts(r, i) ensures r.own[i] in voters {
        OwnPosition(a, ps, r, i);
        assert a[c + i] == ps[c + i] && a[c + i] in a;
        assert a[c + i].key in KeysOf(a);
      }
    }
  }

  lemma CountedOwnKey(a: seq<Precommit>, ps: seq<Precommit>, r: Round, j: nat, voters: set<Key>)
    requires FirstOf(a, ps, r) && j < |a| && ps[j].key in r.own
    requires forall p :: p in r.proof.precommits ==> p.key in voters
    requires forall i :: 0 <= i < |r.own| && Counts(r, i) ==> r.own[i] in voters
    ensures ps[j].key in voters
  {
    var qs := r.proof.precommits;
    if j < |qs| {
      assert ps[j] == qs[j] && qs[j] in qs;
    } else if j < |qs| + |r.own| {
      OwnPosition(a, ps, r, j - |qs|);
    } else {
      var i :| 0 <= i < |r.own| && r.own[i] == ps[j].key;
      OwnPosition(a, ps, r, i);
    }
  }

  // ----- Every finished round -----

  /** In a finished round that was closed, the announced precommits are the first after the closing event. */
  lemma ClosedFirst(x: Trace, n: nat)
    requires Finished(x) && Closes(x, n)
    ensures After(x, n).best.Some? && Ended(Final(x))
    ensures FirstOf(Final(x).announced.value.precommits, Final(x).proof.precommits, After(x, n))
    ensures var node := After(x, n).tree[After(x, n).best.value];
      BestNode(x).id == node.id && BestNode(x).producers == node.producers
      && BestNode(x).confirmations == node.confirmations
  {
    RunsAreSound(x, n);
    RunsAreSound(x, |x.events|);
    ClosedFrom(x, n, |x.events|);
    BestIsFinal(x, n);
  }

  lemma {:induction false} KeysSize(ps: seq<Precommit>)
    ensures |KeysOf(ps)| <= |ps| && (|KeysOf(ps)| == |ps| <==> DistinctKeys(ps))
    decreases |ps|
  {
    if ps != [] {
      var n := |ps| - 1;
      KeysSize(ps[..n]);
      assert ps == ps[..n] + [ps[n]];
      KeysOfAppend(ps[..n], ps[n]);
      if ps[n].key in KeysOf(ps[..n]) {
        var q :| q in ps[..n] && q.key == ps[n].key;
        var i :| 0 <= i < n && ps[i] == q;
      } else {
        if DistinctKeys(ps[..n]) { AppendDistinctKey(ps[..n], ps[n]); }
      }
    }
  }

  /** As many precommits as a quorum needs come from a quorum exactly when they are from different producers. */
  lemma {:induction false} QuorumOfProducers(ps: seq<Precommit>, producers: set<Key>)
    requires |ps| == Quorum(|producers|)
    ensures Supermajority(|KeysOf(ps) * producers|, |producers|) <==> DistinctKeys(ps) && KeysOf(ps) <= producers
  {
    var keys := KeysOf(ps);
    KeysSize(ps);
    SubsetSize(keys * producers, keys);
    if keys <= producers {
      assert keys * producers == keys;
    } else {
      var k :| k in keys && k !in producers;
      SubsetSize(keys * producers, keys - {k});
    }
  }

  /** If the event closes prevoting, the own keys that count were new. */
  ghost predicate ClosedNew(x: Trace, n: nat)
    requires Startable(x)
  {
    Closes(x, n) ==> After(x, n).best.Some? && OwnKeysNew(After(x, n))
  }

  /** No key is counted twice, exactly when no own key that counted had precommitted before prevoting was closed. */
  lemma FinishedOnce(x: Trace)
    requires Finished(x)
    ensures DistinctKeys(Final(x).announced.value.precommits) <==> forall n: nat :: ClosedNew(x, n)
  {
    RunsAreSound(x, |x.events|);
    var r := Final(x);
    var a := r.announced.value.precommits;
    forall n: nat | Closes(x, n) ensures Ended(r) && (DistinctKeys(a) <==> ClosedNew(x, n)) {
      ClosedFirst(x, n);
      CountedOnce(a, r.proof.precommits, After(x, n));
    }
    if Ended(r) {
      var n := EndedWasClosed(x, |x.events|);
      assert ClosedNew(x, n) <==> DistinctKeys(a);
    }
  }

  /**
   Every finished round: the counted keys include a quorum of the producers of the best block exactly
   when they are all producers, and no own key that counted had precommitted before prevoting was closed.
   */
  lemma QuorumExactly(x: Trace)
    requires Finished(x)
    ensures HasQuorum(x) <==> Counted(x) <= BestNode(x).producers && forall n: nat :: ClosedNew(x, n)
  {
    RunsAreSound(x, |x.events|);
    FinishedOnce(x);
    QuorumOfProducers(Final(x).announced.value.precommits, BestNode(x).producers);
  }

  /** The announced precommits come from voters of the best block exactly when the own keys that count do. */
  lemma AnnouncedVoters(x: Trace, n: nat)
    requires Finished(x) && Closes(x, n)
    ensures After(x, n).best.Some?
    ensures Counted(x) <= BestNode(x).confirmations.Keys <==> OwnKeysVoted(After(x, n))
  {
    RunsAreSound(x, n);
    RunsAreSound(x, |x.events|);
    ClosedFirst(x, n);
    var r, s := After(x, n), Final(x);
    CountedVoters(s.announced.value.precommits, s.proof.precommits, r, BestNode(x).confirmations.Keys);
  }
}
