/**
 Runs of a RANDPA round on one node, and agreement between nodes: with fewer than a third of the
 producers faulty, nodes whose precommits come from a quorum of the producers finalise one block.
 Nothing is assumed of the events of a run.
 */
module RandpaSafety {
  import opened Options
  import opened PrefixTree
  import opened Confirmations
  import opened RandpaRound
  import opened RandpaInvariant
  import opened Sequences

  /** One node's run of a round: what it started from, and the events it saw. */
  datatype Trace = Trace(num: nat, own: seq<Key>, tree: Tree, head: Option<nat>, events: seq<Event>)

  /** The tree holds no votes yet, and the node signs with distinct keys. */
  ghost predicate Startable(x: Trace) {
    && Valid(x.tree) && (x.head.Some? ==> x.head.value < |x.tree|)
    && (forall i :: 0 <= i < |x.tree| ==> x.tree[i].confirmations == map[]) && Distinct(x.own)
  }

  /** The state after the first `n` events. */
  ghost function After(x: Trace, n: nat): (r: Round)
    requires Startable(x) && n <= |x.events|
    ensures BestKnown(r)
  {
    Run(Start(x.num, x.own, x.tree, x.head), x.events, n)
  }

  ghost function Final(x: Trace): (r: Round)
    requires Startable(x)
    ensures BestKnown(r)
  {
    After(x, |x.events|)
  }

  // ----- What holds in every run -----

  ghost predicate DistinctKeys(ps: seq<Precommit>) {
    forall i, j :: 0 <= i < j < |ps| ==> ps[i].key != ps[j].key
  }

  /** The invariant of the round; and until prevoting is closed no key precommits twice. */
  ghost predicate Sound(r: Round, own: seq<Key>) {
    RoundInv(r) && r.own == own && (!Ended(r) ==> DistinctKeys(r.proof.precommits))
  }

  lemma {:induction false} PrevotesSignNothing(r: Round, round: nat, vote: Vote, keys: seq<Key>)
    requires BestKnown(r)
    ensures var s := ReceivePrevotes(r, round, vote, keys);
      s.proof == r.proof && s.precommitted == r.precommitted && s.own == r.own
    decreases |keys|
  {
    if keys != [] { PrevotesSignNothing(r, round, vote, keys[..|keys| - 1]); }
  }

  lemma {:induction false} CastPrevotesSignNothing(r: Round, vote: Vote, keys: seq<Key>)
    requires BestKnown(r)
    ensures var s := CastPrevotes(r, vote, keys);
      s.proof == r.proof && s.precommitted == r.precommitted && s.own == r.own
    decreases |keys|
  {
    if keys != [] { CastPrevotesSignNothing(r, vote, keys[..|keys| - 1]); }
  }

  lemma AppendDistinctKey(ps: seq<Precommit>, p: Precommit)
    requires DistinctKeys(ps) && p.key !in KeysOf(ps)
    ensures DistinctKeys(ps + [p])
  {
    forall q | q in ps ensures q.key != p.key {
      assert q.key in KeysOf(ps);
    }
  }

  /** A received precommit is never from a key that has precommitted already. */
  lemma {:induction false} ReceivedOnce(r: Round, round: nat, block: BlockId, keys: seq<Key>)
    requires RoundInv(r) && r.best.Some? && r.phase != Failed && DistinctKeys(r.proof.precommits)
    ensures DistinctKeys(ReceivePrecommits(r, round, block, keys).proof.precommits)
    decreases |keys|
  {
    if keys != [] {
      var n := |keys| - 1;
      ReceivedOnce(r, round, block, keys[..n]);
      ReceivePrecommitsKeepsInv(r, round, block, keys[..n]);
      var s := ReceivePrecommits(r, round, block, keys[..n]);
      if ValidPrecommit(s, round, block, keys[n]) {
        AppendDistinctKey(s.proof.precommits, Precommit(keys[n], block));
      }
    }
  }

  /** Closing prevoting puts prevotes into the proof, and they stay. */
  lemma {:induction false} ReceivedKeepsPrevotes(r: Round, round: nat, block: BlockId, keys: seq<Key>)
    requires r.best.Some? && r.best.value < |r.tree|
    ensures ReceivePrecommits(r, round, block, keys).proof.prevotes == r.proof.prevotes
    decreases |keys|
  {
    if keys != [] { ReceivedKeepsPrevotes(r, round, block, keys[..|keys| - 1]); }
  }

  lemma StepIsSound(r: Round, e: Event, own: seq<Key>)
    requires Sound(r, own)
    ensures Sound(Step(r, e), own)
  {
    StepKeepsInv(r, e);
    match e
    case PrevoteMsg(round, vote, keys) => PrevotesSignNothing(r, round, vote, keys);
    case PrecommitMsg(round, block, keys) =>
      if r.phase == Precommitting || r.phase == ReadyToPrecommit {
        ReceivedKeepsPrevotes(r, round, block, keys);
        if !Ended(r) { ReceivedOnce(r, round, block, keys); }
      }
    case EndPrevote =>
      if r.phase == ReadyToPrecommit {
        CloseProofKeepsInv(r);
        CastPrecommitsKeepsInv(CloseProof(r), r.own);
      }
    case Accepted(prev, id, producers) =>
  }

  lemma StartIsSound(x: Trace)
    requires Startable(x)
    ensures Sound(Start(x.num, x.own, x.tree, x.head), x.own)
  {
    StartEstablishesInv(x.num, x.own, x.tree, x.head);
    if x.head.Some? { CastPrevotesSignNothing(Fresh(x.num, x.own, x.tree), OwnVote(x), x.own); }
  }

  /** Every state of every run is sound. */
  lemma {:induction false} RunsAreSound(x: Trace, n: nat)
    requires Startable(x) && n <= |x.events|
    ensures Sound(After(x, n), x.own)
    decreases n
  {
    if n == 0 {
      StartIsSound(x);
    } else {
      RunsAreSound(x, n - 1);
      StepIsSound(After(x, n - 1), x.events[n - 1], x.own);
    }
  }

  /** The vote a node casts in its own name, if the primary's last block is known to it. */
  function OwnVote(x: Trace): (vote: Vote)
    requires Valid(x.tree) && x.head.Some? && x.head.value < |x.tree|
  {
    Vote(x.tree[0].id, Branch(x.tree, x.head.value))
  }

  /** Every vote this node casts in its own name can be recorded, as can every one that validates. */
  lemma OwnVoteIsInsertable(x: Trace, t: Tree)
    requires Valid(x.tree) && x.head.Some? && x.head.value < |x.tree| && SameShape(x.tree, t)
    ensures VotePath(t, OwnVote(x)) != []
  {
    assert Find(x.tree, x.tree[0].id).Some?;
    SameShapePath(x.tree, t, OwnVote(x));
  }

  // ----- Finished rounds -----

  ghost predicate Finished(x: Trace) {
    Startable(x) && Final(x).announced.Some? && Final(x).best.Some?
  }

  ghost function BestNode(x: Trace): (node: Node)
    requires Startable(x) && Final(x).best.Some?
  {
    Final(x).tree[Final(x).best.value]
  }

  /** The keys whose precommits were counted when the round was done. */
  ghost function Counted(x: Trace): (keys: set<Key>)
    requires Finished(x)
  {
    KeysOf(Final(x).announced.value.precommits)
  }

  /** The counted keys include a supermajority of the producers of the best block. */
  ghost predicate HasQuorum(x: Trace)
    requires Finished(x)
  {
    var producers := BestNode(x).producers;
    Supermajority(|Counted(x) * producers|, |producers|)
  }

  /** A round that announced a proof has a best block, and the counted precommits are all for it. */
  lemma FinishedForBest(x: Trace)
    requires Startable(x) && Final(x).announced.Some?
    ensures Finished(x)
    ensures forall p :: p in Final(x).announced.value.precommits ==> p.block == BestNode(x).id
  {
    RunsAreSound(x, |x.events|);
    var r := Final(x);
    assert forall p :: p in r.announced.value.precommits ==> p in r.proof.precommits;
  }

  // ----- Agreement -----

  /**
   Signatures are not forged: a precommit by a key outside `faulty` is one that the node
   owning the key, following the protocol, has put into its own proof.
   */
  ghost predicate Unforged(p: Precommit, signers: map<Key, Trace>, faulty: set<Key>) {
    p.key !in faulty ==>
      && p.key in signers && Startable(signers[p.key]) && p.key in signers[p.key].own
      && exists n :: 0 <= n <= |signers[p.key].events| && p in After(signers[p.key], n).proof.precommits
  }

  /** Whatever a node has precommitted to at some time is its best block at the end. */
  lemma PrecommittedBlock(z: Trace, n: nat, p: Precommit)
    requires Startable(z) && n <= |z.events| && p in After(z, n).proof.precommits
    ensures Final(z).best.Some? && p.block == BestNode(z).id
  {
    RunsAreSound(z, n);
    BestIsFinal(z, n);
  }

  /** The best block stays, with its producers, to the end of the run. */
  lemma BestIsFinal(x: Trace, n: nat)
    requires Startable(x) && n <= |x.events| && After(x, n).best.Some?
    ensures Final(x).best == After(x, n).best
    ensures var node := After(x, n).tree[After(x, n).best.value];
      BestNode(x).id == node.id && BestNode(x).producers == node.producers
  {
    RunsAreSound(x, n);
    var r := After(x, n);
    var node := r.tree[r.best.value];
    BestIsStable(Start(x.num, x.own, x.tree, x.head), x.events, n, |x.events|, r.best.value, node.id, node.producers);
  }

  /** So a key outside `faulty` precommits to one block. */
  lemma HonestKeyPrecommitsOnce(p: Precommit, q: Precommit, signers: map<Key, Trace>, faulty: set<Key>)
    requires Unforged(p, signers, faulty) && Unforged(q, signers, faulty)
    requires p.key == q.key && p.key !in faulty
    ensures p.block == q.block
  {
    var z := signers[p.key];
    var n :| 0 <= n <= |z.events| && p in After(z, n).proof.precommits;
    var m :| 0 <= m <= |z.events| && q in After(z, m).proof.precommits;
    PrecommittedBlock(z, n, p);
    PrecommittedBlock(z, m, q);
  }

  ghost predicate UnforgedPrecommits(x: Trace, signers: map<Key, Trace>, faulty: set<Key>)
    requires Finished(x)
  {
    forall p :: p in Final(x).announced.value.precommits ==> Unforged(p, signers, faulty)
  }

  /** Two nodes that finish a round with a quorum of one set of producers, of whom fewer than a third are faulty. */
  lemma Agreement(x: Trace, y: Trace, signers: map<Key, Trace>, faulty: set<Key>)
    requires Finished(x) && Finished(y) && HasQuorum(x) && HasQuorum(y)
    requires BestNode(x).producers == BestNode(y).producers && 3 * |faulty| < |BestNode(x).producers|
    requires UnforgedPrecommits(x, signers, faulty) && UnforgedPrecommits(y, signers, faulty)
    ensures BestNode(x).id == BestNode(y).id
  {
    FinishedForBest(x);
    FinishedForBest(y);
    var all := BestNode(x).producers;
    var k := SupermajoritiesMeet(Counted(x) * all, Counted(y) * all, all, faulty);
    var p :| p in Final(x).announced.value.precommits && p.key == k;
    var q :| q in Final(y).announced.value.precommits && q.key == k;
    HonestKeyPrecommitsOnce(p, q, signers, faulty);
  }

  // ----- Before anything is precommitted -----

  /** The votes recorded for keys outside `faulty` are the ones their nodes cast. */
  ghost predicate UnforgedVotes(c: map<Key, Vote>, signers: map<Key, Trace>, faulty: set<Key>) {
    forall k :: k in c && k !in faulty ==>
      && k in signers && Startable(signers[k]) && k in signers[k].own
      && signers[k].head.Some? && c[k] == OwnVote(signers[k])
  }

  /** Every key that confirms the block is one of its producers. */
  predicate VotersAreProducers(node: Node) {
    node.confirmations.Keys <= node.producers
  }

  /** The votes for the best block: as many as a supermajority of its producers, each naming the block. */
  lemma BestHasVotes(x: Trace)
    requires Startable(x) && Final(x).best.Some?
    ensures var node := BestNode(x);
      && Supermajority(|node.confirmations.Keys|, |node.producers|)
      && (forall k :: k in node.confirmations ==> Names(node.confirmations[k], node.id))
  {
    RunsAreSound(x, |x.events|);
    var c := BestNode(x).confirmations;
    assert |c.Keys| == |c|;
  }

  /**
   The best blocks of two nodes are tied together before anything is precommitted: a producer
   outside `faulty` voted for a branch that holds both.
   */
  lemma BestBlocksShareAVote(x: Trace, y: Trace, signers: map<Key, Trace>, faulty: set<Key>) returns (k: Key)
    requires Startable(x) && Startable(y) && Final(x).best.Some? && Final(y).best.Some?
    requires VotersAreProducers(BestNode(x)) && VotersAreProducers(BestNode(y))
    requires BestNode(x).producers == BestNode(y).producers && 3 * |faulty| < |BestNode(x).producers|
    requires UnforgedVotes(BestNode(x).confirmations, signers, faulty)
    requires UnforgedVotes(BestNode(y).confirmations, signers, faulty)
    ensures k in BestNode(x).producers && k !in faulty
    ensures k in signers && Startable(signers[k]) && signers[k].head.Some?
    ensures Names(OwnVote(signers[k]), BestNode(x).id) && Names(OwnVote(signers[k]), BestNode(y).id)
  {
    BestHasVotes(x);
    BestHasVotes(y);
    k := SupermajoritiesMeet(BestNode(x).confirmations.Keys, BestNode(y).confirmations.Keys,
                             BestNode(x).producers, faulty);
  }
}
