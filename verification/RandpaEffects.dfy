/**
 What each event of a round does, exactly: who is counted by a message, when a vote elects a block, what
 the end of prevoting decides, and that a round that is over stays as it is.
 */
module RandpaEffects {
  import opened Options
  import opened PrefixTree
  import opened Confirmations
  import opened RandpaRound
  import opened RandpaInvariant
  import opened RandpaSafety
  import opened Sequences

  // ----- Prevotes -----

  /** The keys of the message that are counted: producers of its last known block that have not prevoted. */
  function NewVoters(r: Round, round: nat, vote: Vote, keys: seq<Key>): (more: set<Key>) {
    var last := LastKnown(r.tree, vote.base, vote.blocks);
    if round != r.num || last.None? then {} else Elems(keys) * r.tree[last.value].producers - r.prevoted
  }

  /** The confirmations of a node after `more` have voted along the path. */
  function WithVotes(c: map<Key, Vote>, onPath: bool, more: set<Key>, vote: Vote): (d: map<Key, Vote>) {
    if onPath then c + map k | k in more :: vote else c
  }

  /** The keys `more`, and nobody else, have voted. */
  ghost predicate Voted(r: Round, s: Round, vote: Vote, more: set<Key>) {
    && s.prevoted == r.prevoted + more && SameShape(r.tree, s.tree)
    && (forall i :: 0 <= i < |r.tree| ==>
          s.tree[i].confirmations == WithVotes(r.tree[i].confirmations, i in VotePath(r.tree, vote), more, vote))
    && s.num == r.num && s.own == r.own && s.proof == r.proof && s.precommitted == r.precommitted
    && s.announced == r.announced
  }

  lemma {:induction false} SameShapeLastKnown(t: Tree, u: Tree, base: BlockId, blocks: seq<BlockId>)
    requires SameShape(t, u)
    ensures LastKnown(t, base, blocks) == LastKnown(u, base, blocks)
    decreases |blocks|
  {
    if blocks == [] {
      SameShapeFind(t, u, base);
    } else {
      var n := |blocks| - 1;
      SameShapeFind(t, u, blocks[n]);
      SameShapeLastKnown(t, u, base, blocks[..n]);
    }
  }

  lemma OneMoreVoted(r: Round, s: Round, vote: Vote, more: set<Key>, key: Key)
    requires BestKnown(s) && Voted(r, s, vote, more) && VotePath(r.tree, vote) != []
    ensures Voted(r, AddPrevote(s, vote, key), vote, more + {key})
  {
    var path := VotePath(r.tree, vote);
    SameShapePath(r.tree, s.tree, vote);
    assert AddPrevote(s, vote, key).tree == RecordVote(s.tree, vote, key);
    forall i | 0 <= i < |r.tree|
      ensures RecordVote(s.tree, vote, key)[i].confirmations
        == WithVotes(r.tree[i].confirmations, i in path, more + {key}, vote)
    {
      OneMoreKey(r.tree[i].confirmations, i in path, more, key, vote);
    }
  }

  lemma OneMoreKey(c: map<Key, Vote>, onPath: bool, more: set<Key>, key: Key, vote: Vote)
    ensures WithVotes(c, onPath, more + {key}, vote)
      == if onPath then WithVotes(c, onPath, more, vote)[key := vote] else WithVotes(c, onPath, more, vote)
  {
  }

  lemma {:induction false} ReceivedVotes(r: Round, round: nat, vote: Vote, keys: seq<Key>)
    requires BestKnown(r)
    ensures Voted(r, ReceivePrevotes(r, round, vote, keys), vote, NewVoters(r, round, vote, keys))
    decreases |keys|
  {
    if keys != [] {
      var n := |keys| - 1;
      var s := ReceivePrevotes(r, round, vote, keys[..n]);
      ReceivedVotes(r, round, vote, keys[..n]);
      NextVoter(r, s, round, vote, keys, n);
    }
  }

  lemma {:induction false} NextVoter(r: Round, s: Round, round: nat, vote: Vote, keys: seq<Key>, n: nat)
    requires BestKnown(s) && n == |keys| - 1 && Voted(r, s, vote, NewVoters(r, round, vote, keys[..n]))
    ensures Voted(r, if ValidPrevote(s, round, vote, keys[n]) then AddPrevote(s, vote, keys[n]) else s, vote,
                  NewVoters(r, round, vote, keys))
  {
    ElemsStep(keys, n);
    assert keys[..n + 1] == keys;
    SameShapeLastKnown(r.tree, s.tree, vote.base, vote.blocks);
    KnownVoteIsInsertable(r.tree, vote);
    var earlier, more := NewVoters(r, round, vote, keys[..n]), NewVoters(r, round, vote, keys);
    if ValidPrevote(s, round, vote, keys[n]) {
      assert more == earlier + {keys[n]};
      OneMoreVoted(r, s, vote, earlier, keys[n]);
    } else {
      assert more == earlier;
    }
  }

  /**
   A prevote message counts exactly those of its keys that may vote, at exactly the nodes of its path, and
   touches nothing of the precommits; once prevoting is over, and from another round, it changes nothing.
   */
  lemma PrevotesTakenExactly(r: Round, round: nat, vote: Vote, keys: seq<Key>)
    requires BestKnown(r)
    ensures var s := Step(r, PrevoteMsg(round, vote, keys));
      && (r.phase == Prevoting || r.phase == ReadyToPrecommit ==>
            Voted(r, s, vote, NewVoters(r, round, vote, keys)))
      && (r.phase != Prevoting && r.phase != ReadyToPrecommit ==> s == r)
      && (round != r.num ==> s == r)
  {
    ReceivedVotes(r, round, vote, keys);
    if round != r.num { OtherRoundPrevotes(r, round, vote, keys); }
  }

  lemma {:induction false} OtherRoundPrevotes(r: Round, round: nat, vote: Vote, keys: seq<Key>)
    requires BestKnown(r) && round != r.num
    ensures ReceivePrevotes(r, round, vote, keys) == r
    decreases |keys|
  {
    if keys != [] { OtherRoundPrevotes(r, round, vote, keys[..|keys| - 1]); }
  }

  /**
   A recorded vote elects a block exactly when none is elected yet and the last of the most confirmed nodes
   on its path has more than two thirds of its producers behind it; that node is the one elected.
   */
  lemma ElectedExactly(r: Round, vote: Vote, key: Key, k: nat)
    requires BestKnown(r) && VotePath(r.tree, vote) != []
    requires var path := VotePath(r.tree, vote); IsMostConfirmed(RecordVote(r.tree, vote, key), path, k)
    ensures var s := AddPrevote(r, vote, key);
      var i := VotePath(r.tree, vote)[k];
      var elects := r.phase != ReadyToPrecommit && 3 * |s.tree[i].confirmations| > 2 * |s.tree[i].producers|;
      && (elects ==> s.phase == ReadyToPrecommit && s.best == Some(i))
      && (!elects ==> s.phase == r.phase && s.best == r.best)
  {
    var path, t := VotePath(r.tree, vote), RecordVote(r.tree, vote, key);
    var m := MostConfirmed(t, path);
    assert m == k by {
      assert IsMostConfirmed(t, path, m) && IsMostConfirmed(t, path, k);
    }
    MoreThanTwoThirds(|t[path[k]].confirmations|, |t[path[k]].producers|);
  }

  /** The round starts with the own votes: every own key at exactly the nodes from the root to the head. */
  lemma StartConfirmsBranch(x: Trace, i: nat)
    requires Startable(x) && x.head.Some? && Find(x.tree, x.tree[0].id) == Some(0) && i < |x.tree|
    ensures var r := Start(x.num, x.own, x.tree, x.head);
      && r.prevoted == Elems(x.own) && SameShape(x.tree, r.tree)
      && r.tree[i].confirmations.Keys == if IsAncestor(x.tree, i, x.head.value) then Elems(x.own) else {}
  {
    OwnVoteIsInsertable(x, x.tree);
    CastVotes(Fresh(x.num, x.own, x.tree), OwnVote(x), x.own);
    BranchConfirmsAncestors(x.tree, x.head.value, i);
    NoVotesBefore(x.tree[i].confirmations, i in VotePath(x.tree, OwnVote(x)), Elems(x.own), OwnVote(x));
  }

  /** Without a block of the primary the node does not vote. */
  lemma StartWithoutHead(x: Trace, i: nat)
    requires Startable(x) && x.head.None? && i < |x.tree|
    ensures var r := Start(x.num, x.own, x.tree, x.head);
      r.prevoted == {} && |r.tree| == |x.tree| && r.tree[i].confirmations == map[] && r.phase == Prevoting
  {
  }

  lemma NoVotesBefore(c: map<Key, Vote>, onPath: bool, more: set<Key>, vote: Vote)
    requires c == map[]
    ensures WithVotes(c, onPath, more, vote).Keys == if onPath then more else {}
  {
  }

  lemma {:induction false} CastVotes(r: Round, vote: Vote, keys: seq<Key>)
    requires BestKnown(r) && VotePath(r.tree, vote) != []
    ensures Voted(r, CastPrevotes(r, vote, keys), vote, Elems(keys))
    decreases |keys|
  {
    if keys != [] {
      var n := |keys| - 1;
      CastVotes(r, vote, keys[..n]);
      ElemsStep(keys, n);
      assert keys[..n + 1] == keys;
      OneMoreVoted(r, CastPrevotes(r, vote, keys[..n]), vote, Elems(keys[..n]), keys[n]);
    }
  }

  // ----- Precommits -----

  /** The keys of the message that are counted: voters for the best block that have not precommitted. */
  function NewCommitters(r: Round, round: nat, block: BlockId, keys: seq<Key>): (more: set<Key>)
    requires r.best.Some? && r.best.value < |r.tree|
  {
    var node := r.tree[r.best.value];
    if round != r.num || block != node.id then {} else Elems(keys) * node.confirmations.Keys - r.precommitted
  }

  /** The precommits `added`, one for each key of `more` and all for the block, go to the end of the proof. */
  ghost predicate Precommitted(r: Round, s: Round, block: BlockId, more: set<Key>, added: seq<Precommit>) {
    && s.proof == r.proof.(precommits := r.proof.precommits + added) && s.precommitted == r.precommitted + more
    && DistinctKeys(added) && KeysOf(added) == more && (forall p :: p in added ==> p.block == block)
    && s.num == r.num && s.own == r.own && s.tree == r.tree && s.best == r.best && s.prevoted == r.prevoted
  }

  lemma {:induction false} ReceivedCommits(r: Round, round: nat, block: BlockId, keys: seq<Key>)
    returns (added: seq<Precommit>)
    requires r.best.Some? && r.best.value < |r.tree|
    ensures Precommitted(r, ReceivePrecommits(r, round, block, keys), block,
                         NewCommitters(r, round, block, keys), added)
    decreases |keys|
  {
    if keys == [] {
      added := [];
      assert r.proof.precommits + [] == r.proof.precommits;
    } else {
      var n := |keys| - 1;
      var s := ReceivePrecommits(r, round, block, keys[..n]);
      var before := ReceivedCommits(r, round, block, keys[..n]);
      added := NextCommitter(r, s, round, block, keys, n, before);
    }
  }

  lemma {:induction false} NextCommitter(
    r: Round, s: Round, round: nat, block: BlockId, keys: seq<Key>, n: nat, before: seq<Precommit>)
    returns (added: seq<Precommit>)
    requires r.best.Some? && r.best.value < |r.tree| && n == |keys| - 1
    requires Precommitted(r, s, block, NewCommitters(r, round, block, keys[..n]), before)
    ensures Precommitted(r, if ValidPrecommit(s, round, block, keys[n]) then AddPrecommit(s, keys[n], block) else s,
                         block, NewCommitters(r, round, block, keys), added)
  {
    ElemsStep(keys, n);
    assert keys[..n + 1] == keys;
    var earlier, more := NewCommitters(r, round, block, keys[..n]), NewCommitters(r, round, block, keys);
    if ValidPrecommit(s, round, block, keys[n]) {
      var p := Precommit(keys[n], block);
      added := before + [p];
      assert more == earlier + {keys[n]};
      AppendDistinctKey(before, p);
      KeysOfAppend(before, p);
      assert r.proof.precommits + before + [p] == r.proof.precommits + added;
    } else {
      added := before;
      assert more == earlier;
    }
  }

  /**
   A precommit message counts exactly those of its keys that may precommit, once each, while precommits are
   taken; otherwise, and from another round, it changes nothing.
   */
  lemma PrecommitsTakenExactly(r: Round, round: nat, block: BlockId, keys: seq<Key>) returns (added: seq<Precommit>)
    requires BestKnown(r)
    ensures var s := Step(r, PrecommitMsg(round, block, keys));
      && (r.phase == Precommitting || r.phase == ReadyToPrecommit ==>
            Precommitted(r, s, block, NewCommitters(r, round, block, keys), added))
      && (r.phase != Precommitting && r.phase != ReadyToPrecommit ==> s == r)
      && (round != r.num ==> s == r)
  {
    added := [];
    if r.phase == Precommitting || r.phase == ReadyToPrecommit {
      added := ReceivedCommits(r, round, block, keys);
      if round != r.num { OtherRoundPrecommits(r, round, block, keys); }
    }
  }

  lemma {:induction false} OtherRoundPrecommits(r: Round, round: nat, block: BlockId, keys: seq<Key>)
    requires r.best.Some? && r.best.value < |r.tree| && round != r.num
    ensures ReceivePrecommits(r, round, block, keys) == r
    decreases |keys|
  {
    if keys != [] { OtherRoundPrecommits(r, round, block, keys[..|keys| - 1]); }
  }

  // ----- Blocks -----

  /** A block accepted during the round is in the tree from then on, and nothing else of the round changes. */
  lemma AcceptedIsInserted(x: Trace, n: nat, i: nat)
    requires Startable(x) && n < |x.events| && x.events[n].Accepted?
    requires Find(After(x, n).tree, x.events[n].prev) == Some(i)
    ensures var r, s, e := After(x, n), After(x, n + 1), x.events[n];
      && s == r.(tree := s.tree) && r.tree <= s.tree && Child(s.tree, i, e.id).Some?
      && (Child(r.tree, i, e.id).None? ==> s.tree[|s.tree| - 1].producers == e.producers)
  {
    RunsAreSound(x, n);
    var e := x.events[n];
    InsertedExactly(After(x, n).tree, e.prev, e.id, e.producers);
  }

  // ----- Rounds that are over -----

  predicate Over(r: Round) {
    r.phase == Done || r.phase == Failed
  }

  /** Nothing of the round has changed, except that it may have failed and that the tree may have grown. */
  ghost predicate Frozen(r: Round, s: Round) {
    && r.tree <= s.tree && s == r.(tree := s.tree, phase := s.phase)
    && (s.phase == r.phase || s.phase == Failed)
  }

  lemma StepFrozen(r: Round, e: Event)
    requires BestKnown(r) && Over(r)
    ensures Frozen(r, Step(r, e))
  {
  }

  /** A round that is done or has failed counts nothing any more, and a failed round stays failed. */
  lemma {:induction false} OverIsOver(x: Trace, n: nat, m: nat)
    requires Startable(x) && n <= m <= |x.events| && Over(After(x, n))
    ensures Frozen(After(x, n), After(x, m))
    decreases m - n
  {
    if n < m {
      StepFrozen(After(x, n), x.events[n]);
      OverIsOver(x, n + 1, m);
    }
  }

  /**
   If prevoting ends in any other state than with a block just elected, the round has failed for good, with
   what it had announced until then; if no block was elected, that is nothing.
   */
  lemma {:induction false} EndsInFailure(x: Trace, n: nat, m: nat)
    requires Startable(x) && n < m <= |x.events| && x.events[n].EndPrevote? && After(x, n).phase != ReadyToPrecommit
    ensures Frozen(After(x, n), After(x, m)) && After(x, m).phase == Failed
    ensures After(x, n).phase == Prevoting ==> After(x, m).best.None? && After(x, m).announced.None?
  {
    RunsAreSound(x, n);
    assert After(x, n + 1) == After(x, n).(phase := Failed);
    OverIsOver(x, n + 1, m);
  }

  // ----- The number of the round -----

  ghost predicate Numbered(r: Round, num: nat) {
    r.num == num && r.proof.round == if Ended(r) then num else 0
  }

  lemma {:induction false} CastPrecommitsKeepNumber(r: Round, keys: seq<Key>)
    requires r.best.Some? && r.best.value < |r.tree|
    ensures var s := CastPrecommits(r, keys);
      s.num == r.num && s.proof.round == r.proof.round && s.proof.prevotes == r.proof.prevotes
    decreases |keys|
  {
    if keys != [] { CastPrecommitsKeepNumber(r, keys[..|keys| - 1]); }
  }

  lemma StepIsNumbered(r: Round, e: Event, num: nat)
    requires RoundInv(r) && Numbered(r, num)
    ensures Numbered(Step(r, e), num)
  {
    match e
    case PrevoteMsg(round, vote, keys) => PrevotesTakenExactly(r, round, vote, keys);
    case PrecommitMsg(round, block, keys) => var _ := PrecommitsTakenExactly(r, round, block, keys);
    case EndPrevote =>
      if r.phase == ReadyToPrecommit {
        CloseProofKeepsInv(r);
        CastPrecommitsKeepNumber(CloseProof(r), r.own);
      }
    case Accepted(prev, id, producers) =>
  }

  /** In every run the proof carries the number of the round from the closing of prevoting on, and zero before. */
  lemma {:induction false} ProofHasItsRound(x: Trace, n: nat)
    requires Startable(x) && n <= |x.events|
    ensures Numbered(After(x, n), x.num)
    ensures After(x, n).announced.Some? ==>
      After(x, n).announced.value.round == if Ended(After(x, n)) then x.num else 0
  {
    RunsAreSound(x, n);
    RunIsNumbered(x, n);
  }

  lemma {:induction false} RunIsNumbered(x: Trace, n: nat)
    requires Startable(x) && n <= |x.events|
    ensures Numbered(After(x, n), x.num)
  {
    if n == 0 {
      StartIsNumbered(x);
    } else {
      RunIsNumbered(x, n - 1);
      NextIsNumbered(x, n - 1);
    }
  }

  lemma StartIsNumbered(x: Trace)
    requires Startable(x)
    ensures Numbered(Start(x.num, x.own, x.tree, x.head), x.num)
  {
    if x.head.Some? {
      OwnVoteIsInsertable(x, x.tree);
      CastVotes(Fresh(x.num, x.own, x.tree), OwnVote(x), x.own);
    }
  }

  lemma {:induction false} NextIsNumbered(x: Trace, n: nat)
    requires Startable(x) && n < |x.events| && Numbered(After(x, n), x.num)
    ensures Numbered(After(x, n + 1), x.num)
  {
    RunsAreSound(x, n);
    StepIsNumbered(After(x, n), x.events[n], x.num);
  }
}
