/**
 What the election of the best block means when every vote starts at the root of the tree, as the
 votes of nodes with the same last irreversible block do: the block elected is confirmed by every
 key that has prevoted so far, this node's own keys among them.
 */
module RandpaElection {
  import opened Options
  import opened PrefixTree
  import opened Confirmations
  import opened RandpaRound
  import opened RandpaInvariant
  import opened RandpaSafety
  import opened Sequences

  /** The root, and no other node, holds the block `root`. */
  ghost predicate RootIs(t: Tree, root: BlockId) {
    t != [] && t[0].id == root && forall i :: 0 < i < |t| ==> t[i].id != root
  }

  /** The root is still the block `root`, and every key that has prevoted confirms it. */
  ghost predicate Rooted(r: Round, root: BlockId) {
    RootIs(r.tree, root) && r.prevoted <= r.tree[0].confirmations.Keys
  }

  /** The keys have prevoted, and they confirm the best block if there is one. */
  ghost predicate Backed(r: Round, keys: set<Key>)
    requires BestKnown(r)
  {
    keys <= r.prevoted && (r.best.Some? ==> keys <= r.tree[r.best.value].confirmations.Keys)
  }

  lemma {:induction false} SameSizeSubset(a: set<Key>, b: set<Key>)
    requires a <= b && |a| >= |b|
    ensures a == b
  {
    assert b == a + (b - a);
    assert |b - a| == 0;
  }

  lemma RootedPath(t: Tree, vote: Vote)
    requires RootIs(t, vote.base)
    ensures VotePath(t, vote) != [] && VotePath(t, vote)[0] == 0
  {
    assert Find(t, vote.base) == Some(0);
  }

  /** A vote from the root keeps every prevoter at the root, and an election takes all of them along. */
  lemma ElectedByAll(r: Round, vote: Vote, key: Key)
    requires RoundInv(r) && Rooted(r, vote.base) && r.phase == Prevoting && key !in r.prevoted
    ensures var s := AddPrevote(r, vote, key);
      && Rooted(s, vote.base) && s.prevoted == r.prevoted + {key}
      && (s.best.Some? ==> s.tree[s.best.value].confirmations.Keys == s.prevoted)
  {
    var path, t := VotePath(r.tree, vote), RecordVote(r.tree, vote, key);
    RootedPath(r.tree, vote);
    VoteKeepsRecorded(r.tree, r.prevoted, vote, key);
    var k := MostConfirmed(t, path);
    MostConfirmedIsBacked(t, path, k, r.prevoted + {key});
  }

  lemma MostConfirmedIsBacked(t: Tree, path: seq<nat>, k: nat, prevoted: set<Key>)
    requires path != [] && path[0] == 0 && forall i :: 0 <= i < |path| ==> path[i] < |t|
    requires IsMostConfirmed(t, path, k) && Recorded(t, prevoted) && prevoted <= t[0].confirmations.Keys
    ensures t[path[k]].confirmations.Keys == prevoted
  {
    var a, b := t[0].confirmations, t[path[k]].confirmations;
    assert |a| <= |b|;
    assert |a.Keys| == |a| && |b.Keys| == |b|;
    SubsetSize(prevoted, a.Keys);
    assert b.Keys <= prevoted;
    SameSizeSubset(b.Keys, prevoted);
  }

  lemma RootedVote(r: Round, vote: Vote, key: Key, keys: set<Key>)
    requires RoundInv(r) && Rooted(r, vote.base) && Backed(r, keys) && key !in r.prevoted
    requires r.phase == Prevoting || r.phase == ReadyToPrecommit
    ensures var s := AddPrevote(r, vote, key); Rooted(s, vote.base) && Backed(s, keys)
  {
    if r.phase == Prevoting {
      ElectedByAll(r, vote, key);
    } else {
      RootedPath(r.tree, vote);
      LateVote(r, vote, key);
    }
  }

  // ----- Own votes -----

  /** While this node casts its own votes, an elected block lies on the path of those votes. */
  ghost predicate Casting(r: Round, vote: Vote, keys: set<Key>) {
    && RoundInv(r) && (r.phase == Prevoting || r.phase == ReadyToPrecommit)
    && Rooted(r, vote.base) && Backed(r, keys)
    && (r.best.Some? ==> r.best.value in VotePath(r.tree, vote))
  }

  lemma CastOne(r: Round, vote: Vote, key: Key, keys: set<Key>)
    requires Casting(r, vote, keys) && key !in r.prevoted
    ensures Casting(AddPrevote(r, vote, key), vote, keys + {key})
  {
    AddPrevoteKeepsInv(r, vote, key);
    SameShapePath(r.tree, AddPrevote(r, vote, key).tree, vote);
    if r.phase == Prevoting {
      ElectedByAll(r, vote, key);
      ElectedOnPath(r, vote, key);
    } else {
      CastForBest(r, vote, key);
    }
  }

  lemma ElectedOnPath(r: Round, vote: Vote, key: Key)
    requires RoundInv(r) && r.phase == Prevoting
    ensures var s := AddPrevote(r, vote, key); s.best.Some? ==> s.best.value in VotePath(r.tree, vote)
  {
  }

  /** A later own vote goes to the best block too, since it takes the same path. */
  lemma CastForBest(r: Round, vote: Vote, key: Key)
    requires RoundInv(r) && r.phase == ReadyToPrecommit && Rooted(r, vote.base)
    requires r.best.value in VotePath(r.tree, vote)
    ensures var s := AddPrevote(r, vote, key);
      && s.best == r.best && Rooted(s, vote.base) && s.prevoted == r.prevoted + {key}
      && s.tree[s.best.value].confirmations.Keys == r.tree[r.best.value].confirmations.Keys + {key}
  {
    RootedPath(r.tree, vote);
    LateVote(r, vote, key);
    var b, t := r.best.value, RecordVote(r.tree, vote, key);
    assert t[b].confirmations == r.tree[b].confirmations[key := vote];
    assert t[0].confirmations == r.tree[0].confirmations[key := vote];
  }

  /** Once a block is elected, a vote is only recorded. */
  lemma LateVote(r: Round, vote: Vote, key: Key)
    requires BestKnown(r) && r.phase == ReadyToPrecommit && VotePath(r.tree, vote) != []
    ensures AddPrevote(r, vote, key) == r.(tree := RecordVote(r.tree, vote, key), prevoted := r.prevoted + {key})
  {
  }

  lemma {:induction false} CastAll(r: Round, vote: Vote, keys: seq<Key>)
    requires Casting(r, vote, {}) && Distinct(keys) && forall k :: k in keys ==> k !in r.prevoted
    ensures Casting(CastPrevotes(r, vote, keys), vote, Elems(keys))
    decreases |keys|
  {
    if keys != [] {
      var n := |keys| - 1;
      var s := CastPrevotes(r, vote, keys[..n]);
      CastAll(r, vote, keys[..n]);
      CastPrevotesKeepsInv(r, vote, keys[..n]);
      ElemsStep(keys, n);
      assert keys[..n + 1] == keys;
      CastOne(s, vote, keys[n], Elems(keys[..n]));
      assert CastPrevotes(r, vote, keys) == AddPrevote(s, vote, keys[n]);
    }
  }

  /** After the start, every own key stands behind the best block. */
  lemma StartIsBacked(x: Trace)
    requires Startable(x) && x.head.Some? && RootIs(x.tree, x.tree[0].id)
    ensures var r := Start(x.num, x.own, x.tree, x.head); Rooted(r, x.tree[0].id) && Backed(r, Elems(x.own))
  {
    var r := Fresh(x.num, x.own, x.tree);
    assert RoundInv(r);
    CastAll(r, OwnVote(x), x.own);
  }

  // ----- Runs -----

  lemma {:induction false} RootedVotes(r: Round, round: nat, vote: Vote, votes: seq<Key>, keys: set<Key>)
    requires RoundInv(r) && Rooted(r, vote.base) && Backed(r, keys)
    requires r.phase == Prevoting || r.phase == ReadyToPrecommit
    ensures var s := ReceivePrevotes(r, round, vote, votes); Rooted(s, vote.base) && Backed(s, keys)
    decreases |votes|
  {
    if votes != [] {
      var n := |votes| - 1;
      RootedVotes(r, round, vote, votes[..n], keys);
      ReceivePrevotesKeepsInv(r, round, vote, votes[..n]);
      var s := ReceivePrevotes(r, round, vote, votes[..n]);
      if ValidPrevote(s, round, vote, votes[n]) {
        RootedVote(s, vote, votes[n], keys);
      }
    }
  }

  lemma RootedStep(r: Round, e: Event, root: BlockId, keys: set<Key>)
    requires RoundInv(r) && Rooted(r, root) && Backed(r, keys)
    requires (e.PrevoteMsg? ==> e.vote.base == root) && (e.Accepted? ==> e.id != root)
    ensures var s := Step(r, e); Rooted(s, root) && Backed(s, keys)
  {
    match e
    case PrevoteMsg(round, vote, votes) =>
      if r.phase == Prevoting || r.phase == ReadyToPrecommit { RootedVotes(r, round, vote, votes, keys); }
    case PrecommitMsg(round, block, _) =>
    case EndPrevote =>
    case Accepted(prev, id, producers) =>
      assert r.tree[0] == Insert(r.tree, prev, id, producers)[0];
  }

  /** Every prevote received starts at the root this node started from, which no other block is taken for. */
  ghost predicate VotesFromRoot(x: Trace)
    requires Startable(x)
  {
    && RootIs(x.tree, x.tree[0].id)
    && (forall i :: 0 <= i < |x.events| && x.events[i].PrevoteMsg? ==> x.events[i].vote.base == x.tree[0].id)
    && (forall i :: 0 <= i < |x.events| && x.events[i].Accepted? ==> x.events[i].id != x.tree[0].id)
  }

  /** In such a run every own key stands behind the best block as soon as there is one. */
  lemma {:induction false} OwnVotesStand(x: Trace, n: nat)
    requires Startable(x) && x.head.Some? && VotesFromRoot(x) && n <= |x.events|
    ensures Rooted(After(x, n), x.tree[0].id) && Backed(After(x, n), Elems(x.own))
  {
    if n == 0 {
      StartIsBacked(x);
    } else {
      var m := n - 1;
      OwnVotesStand(x, m);
      NextStands(x, m);
    }
  }

  lemma {:induction false} NextStands(x: Trace, n: nat)
    requires Startable(x) && VotesFromRoot(x) && n < |x.events|
    requires Rooted(After(x, n), x.tree[0].id) && Backed(After(x, n), Elems(x.own))
    ensures Rooted(After(x, n + 1), x.tree[0].id) && Backed(After(x, n + 1), Elems(x.own))
  {
    RunsAreSound(x, n);
    RootedStep(After(x, n), x.events[n], x.tree[0].id, Elems(x.own));
  }
}
