/**
 The steps of a round on a node with one key, for blocks with four producers: what a single prevote, a
 single precommit and the end of prevoting do. They serve to follow particular runs.
 */
module RandpaSteps {
  import opened Options
  import opened PrefixTree
  import opened Confirmations
  import opened RandpaRound
  import opened RandpaInvariant

  /** A round of the node with the given key, while prevotes are counted: `ready` once node `best` is elected. */
  function Voting(key: Key, tree: Tree, prevoted: set<Key>, best: nat, ready: bool): (r: Round)
    requires best < |tree|
    ensures BestKnown(r)
  {
    Fresh(0, [key], tree).(prevoted := prevoted,
      phase := if ready then ReadyToPrecommit else Prevoting, best := if ready then Some(best) else None)
  }

  lemma AddOne(r: Round, vote: Vote, key: Key, tree: Tree, path: seq<nat>, k: nat)
    requires BestKnown(r) && VotePath(r.tree, vote) == path != [] && RecordVote(r.tree, vote, key) == tree
    requires k < |path| && MostConfirmed(tree, path) == k
    ensures AddPrevote(r, vote, key) == Elect(r.(tree := tree, prevoted := r.prevoted + {key}), path[k])
  {
  }

  lemma ElectIn(key: Key, tree: Tree, prevoted: set<Key>, best: nat, ready: bool)
    requires best < |tree| && |tree[best].producers| == 4
    ensures Elect(Voting(key, tree, prevoted, best, ready), best)
      == Voting(key, tree, prevoted, best, ready || |tree[best].confirmations| >= 3)
  {
  }

  lemma VotingOn(key: Key, tree: Tree, next: Tree, prevoted: set<Key>, more: set<Key>, best: nat, ready: bool)
    requires best < |tree| && |tree| == |next|
    ensures Voting(key, tree, prevoted, best, ready).(tree := next, prevoted := more)
      == Voting(key, next, more, best, ready)
  {
  }

  /** The vote follows the path and turns the tree into `next`, where position `k` of the path is most confirmed. */
  predicate Taken(tree: Tree, next: Tree, vote: Vote, voter: Key, path: seq<nat>, k: nat) {
    && VotePath(tree, vote) == path && k < |path| && RecordVote(tree, vote, voter) == next
    && MostConfirmed(next, path) == k && |next[path[k]].producers| == 4
  }

  /** One more vote counted. */
  lemma VoteAdded(key: Key, tree: Tree, next: Tree, prevoted: set<Key>, ready: bool, vote: Vote, voter: Key,
                  path: seq<nat>, k: nat)
    requires Taken(tree, next, vote, voter, path, k)
    ensures AddPrevote(Voting(key, tree, prevoted, path[k], ready), vote, voter)
      == Voting(key, next, prevoted + {voter}, path[k], ready || |next[path[k]].confirmations| >= 3)
  {
    AddOne(Voting(key, tree, prevoted, path[k], ready), vote, voter, next, path, k);
    VotingOn(key, tree, next, prevoted, prevoted + {voter}, path[k], ready);
    ElectIn(key, next, prevoted + {voter}, path[k], ready);
  }

  /** A vote that arrives alone. */
  lemma OneVote(r: Round, vote: Vote, voter: Key)
    requires BestKnown(r) && (r.phase == Prevoting || r.phase == ReadyToPrecommit) && ValidPrevote(r, 0, vote, voter)
    ensures Step(r, PrevoteMsg(0, vote, [voter])) == AddPrevote(r, vote, voter)
  {
    assert [voter][..0] == [];
    assert ReceivePrevotes(r, 0, vote, [voter][..0]) == r;
  }

  /** A node with one key starts with the vote of that key. */
  lemma StartsWith(key: Key, tree: Tree, head: nat, vote: Vote)
    requires Valid(tree) && head < |tree| && vote == Vote(tree[0].id, Branch(tree, head))
    ensures Start(0, [key], tree, Some(head)) == AddPrevote(Fresh(0, [key], tree), vote, key)
  {
    var r := Fresh(0, [key], tree);
    assert [key][..0] == [];
    assert CastPrevotes(r, vote, [key][..0]) == r;
  }

  lemma FreshIsVoting(key: Key, tree: Tree, best: nat)
    requires best < |tree|
    ensures Fresh(0, [key], tree) == Voting(key, tree, {}, best, false)
  {
  }

  /** The round with the given precommits in its proof. */
  function WithCommits(r: Round, ps: seq<Precommit>): (s: Round) {
    r.(proof := r.proof.(precommits := ps), precommitted := KeysOf(ps))
  }

  /** One more precommit counted; the third makes the round done. */
  function Committed(r: Round, ps: seq<Precommit>): (s: Round) {
    if |ps| < 3 then WithCommits(r, ps)
    else WithCommits(r, ps).(phase := Done, announced := Some(r.proof.(precommits := ps)))
  }

  lemma CommitAdded(r: Round, ps: seq<Precommit>, key: Key, block: BlockId)
    requires r.best.Some? && r.best.value < |r.tree| && |r.tree[r.best.value].producers| == 4 && r.phase != Done
    ensures AddPrecommit(WithCommits(r, ps), key, block) == Committed(r, ps + [Precommit(key, block)])
  {
    KeysOfAppend(ps, Precommit(key, block));
  }

  /** A precommit that arrives alone. */
  lemma OneCommit(r: Round, ps: seq<Precommit>, key: Key, block: BlockId)
    requires BestKnown(r) && r.best.Some? && (r.phase == Precommitting || r.phase == ReadyToPrecommit)
    requires |r.tree[r.best.value].producers| == 4 && ValidPrecommit(WithCommits(r, ps), 0, block, key)
    ensures Step(WithCommits(r, ps), PrecommitMsg(0, block, [key])) == Committed(r, ps + [Precommit(key, block)])
  {
    assert [key][..0] == [];
    assert ReceivePrecommits(WithCommits(r, ps), 0, block, [key][..0]) == WithCommits(r, ps);
    CommitAdded(r, ps, key, block);
  }

  /** The end of prevoting, with the precommit of the one own key. */
  lemma OwnCommit(r: Round, ps: seq<Precommit>, key: Key)
    requires BestKnown(r) && r.phase == ReadyToPrecommit && r.best.Some? && r.own == [key]
    requires |r.tree[r.best.value].producers| == 4
    ensures Step(WithCommits(r, ps), EndPrevote)
      == Committed(CloseProof(r), ps + [Precommit(key, r.tree[r.best.value].id)])
  {
    var s := CloseProof(WithCommits(r, ps));
    assert s == WithCommits(CloseProof(r), ps);
    assert [key][..0] == [];
    assert CastPrecommits(s, [key][..0]) == s;
    CommitAdded(CloseProof(r), ps, key, r.tree[r.best.value].id);
  }

  /** A list of states that are steps of one another is what the run goes through. */
  lemma {:induction false} RunVisits(events: seq<Event>, states: seq<Round>, n: nat)
    requires n <= |events| && |states| == |events| + 1 && forall i :: 0 <= i < |states| ==> BestKnown(states[i])
    requires forall i :: 0 <= i < |events| ==> Step(states[i], events[i]) == states[i + 1]
    ensures Run(states[0], events, n) == states[n]
  {
    if n > 0 { RunVisits(events, states, n - 1); }
  }
}
