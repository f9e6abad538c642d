/** What holds of a RANDPA round in every state it can reach, whatever messages arrive and in whatever order. */
module RandpaInvariant {
  import opened Options
  import opened PrefixTree
  import opened Confirmations
  import opened RandpaRound
  import opened Sequences

  function KeysOf(precommits: seq<Precommit>): (keys: set<Key>) {
    set p | p in precommits :: p.key
  }

  /** Prevoting has been closed, and the prevotes of the best block are in the proof. */
  predicate Ended(r: Round) {
    r.proof.prevotes != map[]
  }

  /** Phase, best block and proof belong together. */
  ghost predicate PhaseInv(r: Round) {
    && BestKnown(r)
    && (r.phase == Prevoting ==> r.best.None?)
    && (r.best.None? ==> !Ended(r) && r.proof.precommits == [] && r.announced.None?)
    && (r.best.Some? ==>
          Supermajority(|r.tree[r.best.value].confirmations|, |r.tree[r.best.value].producers|))
    && (r.phase == ReadyToPrecommit ==> !Ended(r))
    && (r.phase == Precommitting ==> Ended(r))
    && (r.phase == ReadyToPrecommit || r.phase == Precommitting ==>
          r.announced.None? && !Supermajority(|r.proof.precommits|, |r.tree[r.best.value].producers|))
    && (r.phase == Done ==> r.announced.Some?)
    && (!Ended(r) ==> r.proof.best == ZERO_BLOCK)
    && (Ended(r) ==>
          && r.best.Some? && r.phase != ReadyToPrecommit
          && r.proof.best == r.tree[r.best.value].id
          && r.proof.prevotes == r.tree[r.best.value].confirmations)
  }

  /** Precommits are for the best block, from keys that prevoted for it or from this node itself. */
  ghost predicate PrecommitInv(r: Round)
    requires BestKnown(r)
  {
    && r.precommitted == KeysOf(r.proof.precommits)
    && (r.best.Some? ==> forall p :: p in r.proof.precommits ==>
          && p.block == r.tree[r.best.value].id
          && (p.key in r.tree[r.best.value].confirmations || (Ended(r) && p.key in r.own)))
  }

  /** The announced proof is the proof as it was when its precommits were just enough for a supermajority. */
  ghost predicate AnnouncedInv(r: Round)
    requires BestKnown(r)
  {
    r.announced.Some? ==>
      var a := r.announced.value;
      && r.best.Some?
      && a.precommits <= r.proof.precommits
      && a == r.proof.(precommits := a.precommits)
      && |a.precommits| == Quorum(|r.tree[r.best.value].producers|)
  }

  ghost predicate RoundInv(r: Round) {
    Inv(r.tree, r.prevoted) && PhaseInv(r) && PrecommitInv(r) && AnnouncedInv(r)
  }

  // ----- Prevotes -----

  lemma UpdateSize(m: map<Key, Vote>, k: Key, v: Vote)
    ensures |m[k := v]| >= |m|
  {
    assert m[k := v].Keys == m.Keys + {k};
    SubsetSize(m.Keys, m[k := v].Keys);
    assert |m.Keys| == |m| && |m[k := v].Keys| == |m[k := v]|;
  }

  /**
   A prevote that validates is counted once: it reaches at least one node, raises the count of
   exactly the nodes on its path by one, and the same key is not valid again.
   */
  lemma ValidPrevoteCountsOnce(r: Round, round: nat, vote: Vote, key: Key)
    requires BestKnown(r) && Recorded(r.tree, r.prevoted) && ValidPrevote(r, round, vote, key)
    ensures var s, path := AddPrevote(r, vote, key), VotePath(r.tree, vote);
      && path != [] && s.prevoted == r.prevoted + {key} && !ValidPrevote(s, round, vote, key)
      && (forall i :: 0 <= i < |r.tree| ==> (key in s.tree[i].confirmations <==> i in path))
      && (forall i :: 0 <= i < |r.tree| ==>
            |s.tree[i].confirmations| == |r.tree[i].confirmations| + if i in path then 1 else 0)
  {
    KnownVoteIsInsertable(r.tree, vote);
    var s, path := AddPrevote(r, vote, key), VotePath(r.tree, vote);
    forall i | 0 <= i < |r.tree|
      ensures key in s.tree[i].confirmations <==> i in path
      ensures |s.tree[i].confirmations| == |r.tree[i].confirmations| + if i in path then 1 else 0
    {
      assert key !in r.tree[i].confirmations;
      NewKeySize(r.tree[i].confirmations, key, vote);
    }
  }

  lemma NewKeySize(m: map<Key, Vote>, k: Key, v: Vote)
    requires k !in m
    ensures |m[k := v]| == |m| + 1
  {
    assert m[k := v].Keys == m.Keys + {k};
    assert |m.Keys| == |m| && |m[k := v].Keys| == |m[k := v]|;
  }

  lemma RecordKeepsInv(r: Round, vote: Vote, key: Key)
    requires RoundInv(r) && key !in r.prevoted && (r.phase == Prevoting || r.phase == ReadyToPrecommit)
    ensures RoundInv(r.(tree := RecordVote(r.tree, vote, key), prevoted := r.prevoted + {key}))
  {
    VoteKeepsInv(r.tree, r.prevoted, vote, key);
    if r.best.Some? {
      UpdateSize(r.tree[r.best.value].confirmations, key, vote);
    }
  }

  lemma ElectKeepsInv(r: Round, max: nat)
    requires RoundInv(r) && max < |r.tree| && (r.phase == Prevoting || r.phase == ReadyToPrecommit)
    ensures RoundInv(Elect(r, max))
  {
  }

  lemma AddPrevoteKeepsInv(r: Round, vote: Vote, key: Key)
    requires RoundInv(r) && key !in r.prevoted
    requires r.phase == Prevoting || r.phase == ReadyToPrecommit
    ensures RoundInv(AddPrevote(r, vote, key))
    ensures var s := AddPrevote(r, vote, key);
      (s.phase == Prevoting || s.phase == ReadyToPrecommit) && s.prevoted <= r.prevoted + {key}
  {
    var path := VotePath(r.tree, vote);
    if path != [] {
      var s := r.(tree := RecordVote(r.tree, vote, key), prevoted := r.prevoted + {key});
      RecordKeepsInv(r, vote, key);
      ElectKeepsInv(s, path[MostConfirmed(s.tree, path)]);
    }
  }

  lemma {:induction false} ReceivePrevotesKeepsInv(r: Round, round: nat, vote: Vote, keys: seq<Key>)
    requires RoundInv(r) && (r.phase == Prevoting || r.phase == ReadyToPrecommit)
    ensures var s := ReceivePrevotes(r, round, vote, keys);
      RoundInv(s) && (s.phase == Prevoting || s.phase == ReadyToPrecommit)
    decreases |keys|
  {
    if keys != [] {
      var n := |keys| - 1;
      ReceivePrevotesKeepsInv(r, round, vote, keys[..n]);
      var s := ReceivePrevotes(r, round, vote, keys[..n]);
      if ValidPrevote(s, round, vote, keys[n]) {
        AddPrevoteKeepsInv(s, vote, keys[n]);
      }
    }
  }

  lemma {:induction false} CastPrevotesKeepsInv(r: Round, vote: Vote, keys: seq<Key>)
    requires RoundInv(r)
    requires r.phase == Prevoting || r.phase == ReadyToPrecommit
    requires Distinct(keys)
    requires forall k :: k in keys ==> k !in r.prevoted
    ensures var s := CastPrevotes(r, vote, keys);
      && RoundInv(s) && (s.phase == Prevoting || s.phase == ReadyToPrecommit)
      && (forall k :: k in s.prevoted ==> k in r.prevoted || k in keys)
    decreases |keys|
  {
    if keys != [] {
      var n := |keys| - 1;
      CastPrevotesKeepsInv(r, vote, keys[..n]);
      var s := CastPrevotes(r, vote, keys[..n]);
      assert keys[n] !in s.prevoted;
      AddPrevoteKeepsInv(s, vote, keys[n]);
      assert CastPrevotes(r, vote, keys) == AddPrevote(s, vote, keys[n]);
    }
  }

  // ----- Precommits -----

  lemma KeysOfAppend(ps: seq<Precommit>, p: Precommit)
    ensures KeysOf(ps + [p]) == KeysOf(ps) + {p.key}
  {
    forall k | k in KeysOf(ps) + {p.key} ensures k in KeysOf(ps + [p]) {
      if k == p.key {
        assert p in ps + [p];
      } else {
        var q :| q in ps && q.key == k;
        assert q in ps + [p];
      }
    }
  }

  lemma AddPrecommitKeepsInv(r: Round, key: Key, block: BlockId)
    requires RoundInv(r) && r.best.Some? && r.phase != Failed
    requires block == r.tree[r.best.value].id
    requires key in r.tree[r.best.value].confirmations || (Ended(r) && key in r.own)
    ensures var s := AddPrecommit(r, key, block);
      RoundInv(s) && s.phase != Failed && s.own == r.own && (Ended(s) <==> Ended(r))
  {
    KeysOfAppend(r.proof.precommits, Precommit(key, block));
  }

  lemma {:induction false} ReceivePrecommitsKeepsInv(r: Round, round: nat, block: BlockId, keys: seq<Key>)
    requires RoundInv(r) && r.best.Some? && r.phase != Failed
    ensures var s := ReceivePrecommits(r, round, block, keys); RoundInv(s) && s.phase != Failed
    decreases |keys|
  {
    if keys != [] {
      var n := |keys| - 1;
      ReceivePrecommitsKeepsInv(r, round, block, keys[..n]);
      var s := ReceivePrecommits(r, round, block, keys[..n]);
      if ValidPrecommit(s, round, block, keys[n]) {
        AddPrecommitKeepsInv(s, keys[n], block);
      }
    }
  }

  lemma {:induction false} CastPrecommitsKeepsInv(r: Round, keys: seq<Key>)
    requires RoundInv(r) && r.best.Some? && r.phase != Failed && Ended(r)
    requires forall k :: k in keys ==> k in r.own
    ensures var s := CastPrecommits(r, keys); RoundInv(s) && s.phase != Failed && Ended(s) && s.own == r.own
    decreases |keys|
  {
    if keys != [] {
      var n := |keys| - 1;
      CastPrecommitsKeepsInv(r, keys[..n]);
      AddPrecommitKeepsInv(CastPrecommits(r, keys[..n]), keys[n], r.tree[r.best.value].id);
    }
  }

  lemma CloseProofKeepsInv(r: Round)
    requires RoundInv(r) && r.phase == ReadyToPrecommit
    ensures RoundInv(CloseProof(r)) && Ended(CloseProof(r))
  {
    assert r.tree[r.best.value].confirmations != map[];
  }

  lemma ClosePrevotingKeepsInv(r: Round)
    requires RoundInv(r) && r.phase == ReadyToPrecommit
    ensures RoundInv(ClosePrevoting(r))
  {
    CloseProofKeepsInv(r);
    CastPrecommitsKeepsInv(CloseProof(r), r.own);
  }

  // ----- Runs -----

  /** Every step of a round keeps the invariant. */
  lemma StepKeepsInv(r: Round, e: Event)
    requires RoundInv(r)
    ensures RoundInv(Step(r, e))
  {
    match e
    case PrevoteMsg(round, vote, keys) =>
      if r.phase == Prevoting || r.phase == ReadyToPrecommit { ReceivePrevotesKeepsInv(r, round, vote, keys); }
    case PrecommitMsg(round, block, keys) =>
      if r.phase == Precommitting || r.phase == ReadyToPrecommit { ReceivePrecommitsKeepsInv(r, round, block, keys); }
    case EndPrevote =>
      if r.phase == ReadyToPrecommit { ClosePrevotingKeepsInv(r); }
    case Accepted(prev, id, producers) =>
      InsertKeepsInv(r.tree, r.prevoted, prev, id, producers);
  }

  /** So it holds at every point of every run. */
  lemma {:induction false} RunKeepsInv(r: Round, events: seq<Event>, n: nat)
    requires RoundInv(r) && n <= |events|
    ensures RoundInv(Run(r, events, n))
    decreases n
  {
    if n > 0 {
      RunKeepsInv(r, events, n - 1);
      StepKeepsInv(Run(r, events, n - 1), events[n - 1]);
    }
  }

  /** A fresh round satisfies the invariant, own prevotes included. */
  lemma StartEstablishesInv(num: nat, own: seq<Key>, tree: Tree, head: Option<nat>)
    requires Valid(tree) && (head.Some? ==> head.value < |tree|)
    requires forall i :: 0 <= i < |tree| ==> tree[i].confirmations == map[]
    requires Distinct(own)
    ensures RoundInv(Start(num, own, tree, head))
  {
    assert RoundInv(Fresh(num, own, tree));
    if head.Some? {
      CastPrevotesKeepsInv(Fresh(num, own, tree), Vote(tree[0].id, Branch(tree, head.value)), own);
    }
  }

  /** The best block is settled: node `i`, with the given id and producers. */
  predicate Settled(r: Round, i: nat, id: BlockId, producers: set<Key>) {
    && r.phase != Prevoting && r.best == Some(i) && i < |r.tree|
    && r.tree[i].id == id && r.tree[i].producers == producers
  }

  /** Once the best block is chosen it is never changed, so a node precommits to one block per round. */
  lemma {:induction false} BestIsStable(
    r: Round, events: seq<Event>, n: nat, m: nat, i: nat, id: BlockId, producers: set<Key>)
    requires BestKnown(r) && n <= m <= |events| && Settled(Run(r, events, n), i, id, producers)
    ensures Settled(Run(r, events, m), i, id, producers)
    decreases m
  {
    if n < m {
      BestIsStable(r, events, n, m - 1, i, id, producers);
      BestStays(r, events, m - 1, i, id, producers);
    }
  }

  lemma BestStays(r: Round, events: seq<Event>, n: nat, i: nat, id: BlockId, producers: set<Key>)
    requires BestKnown(r) && n < |events| && Settled(Run(r, events, n), i, id, producers)
    ensures Settled(Run(r, events, n + 1), i, id, producers)
  {
    BestIsKept(Run(r, events, n), events[n], i, id, producers);
  }

  lemma BestIsKept(r: Round, e: Event, i: nat, id: BlockId, producers: set<Key>)
    requires BestKnown(r) && Settled(r, i, id, producers)
    ensures Settled(Step(r, e), i, id, producers)
  {
    match e
    case PrevoteMsg(round, vote, keys) =>
      if r.phase == ReadyToPrecommit { PrevotesKeepBest(r, round, vote, keys); }
    case PrecommitMsg(round, block, keys) => ReceivePrecommitsGoOn(r, round, block, keys);
    case EndPrevote => if r.phase == ReadyToPrecommit { CastPrecommitsGoOn(CloseProof(r), r.own); }
    case Accepted(prev, block, keys) =>
  }

  lemma {:induction false} ReceivePrecommitsGoOn(r: Round, round: nat, block: BlockId, keys: seq<Key>)
    requires r.best.Some? && r.best.value < |r.tree| && r.phase != Prevoting
    ensures ReceivePrecommits(r, round, block, keys).phase != Prevoting
    decreases |keys|
  {
    if keys != [] { ReceivePrecommitsGoOn(r, round, block, keys[..|keys| - 1]); }
  }

  lemma {:induction false} CastPrecommitsGoOn(r: Round, keys: seq<Key>)
    requires r.best.Some? && r.best.value < |r.tree| && r.phase != Prevoting
    ensures CastPrecommits(r, keys).phase != Prevoting
    decreases |keys|
  {
    if keys != [] { CastPrecommitsGoOn(r, keys[..|keys| - 1]); }
  }

  lemma {:induction false} PrevotesKeepBest(r: Round, round: nat, vote: Vote, keys: seq<Key>)
    requires BestKnown(r) && r.phase == ReadyToPrecommit && r.best.Some?
    ensures var s := ReceivePrevotes(r, round, vote, keys);
      s.phase == ReadyToPrecommit && s.best == r.best && SameShape(r.tree, s.tree)
    decreases |keys|
  {
    if keys != [] { PrevotesKeepBest(r, round, vote, keys[..|keys| - 1]); }
  }
}
