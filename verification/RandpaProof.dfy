/**
 The finality proof of a finished round: when the node hands it out, when another node accepts it,
 and what an accepted proof is worth.
 */
module RandpaProof {
  import opened Options
  import opened PrefixTree
  import opened Confirmations
  import opened RandpaRound
  import opened RandpaInvariant
  import opened RandpaSafety
  import opened RandpaClosing
  import opened RandpaElection

  datatype SignedVote = SignedVote(vote: Vote, keys: seq<Key>)

  datatype SignedPrecommit = SignedPrecommit(block: BlockId, keys: seq<Key>)

  datatype ProofMsg = ProofMsg(
    round: nat, best: BlockId, prevotes: seq<SignedVote>, precommits: seq<SignedPrecommit>)

  function Voters(ms: seq<SignedVote>): (keys: set<Key>) {
    set i, k | 0 <= i < |ms| && k in ms[i].keys :: k
  }

  function Committers(ms: seq<SignedPrecommit>): (keys: set<Key>) {
    set i, k | 0 <= i < |ms| && k in ms[i].keys :: k
  }

  predicate GoodPrevote(m: SignedVote, best: BlockId, producers: set<Key>) {
    forall k :: k in m.keys ==> Names(m.vote, best) && k in producers
  }

  predicate GoodPrecommit(m: SignedPrecommit, voters: set<Key>, best: BlockId, producers: set<Key>) {
    forall k :: k in m.keys ==> k in voters && m.block == best && k in producers
  }

  /** A supermajority of the producers of the best block precommitted to it, each having voted for it. */
  predicate GoodProof(t: Tree, m: ProofMsg) {
    match Find(t, m.best)
    case None => false
    case Some(i) =>
      && (forall j :: 0 <= j < |m.prevotes| ==> GoodPrevote(m.prevotes[j], m.best, t[i].producers))
      && (forall j :: 0 <= j < |m.precommits| ==>
            GoodPrecommit(m.precommits[j], Voters(m.prevotes), m.best, t[i].producers))
      && Supermajority(|Committers(m.precommits)|, |t[i].producers|)
  }

  // ----- Validation -----

  method ValidatePrevote(m: SignedVote, best: BlockId, producers: set<Key>) returns (ok: bool, keys: set<Key>)
    ensures ok <==> GoodPrevote(m, best, producers)
    ensures ok ==> keys == set k | k in m.keys
  {
    keys := {};
    for n := 0 to |m.keys|
      invariant forall k :: k in m.keys[..n] ==> Names(m.vote, best) && k in producers
      invariant keys == set k | k in m.keys[..n]
    {
      var key := m.keys[n];
      assert key in m.keys;
      if !Names(m.vote, best) || key !in producers {
        return false, keys;
      }
      assert m.keys[..n + 1] == m.keys[..n] + [key];
      keys := keys + {key};
    }
    assert m.keys[..|m.keys|] == m.keys;
    ok := true;
  }

  method ValidatePrevotes(ms: seq<SignedVote>, best: BlockId, producers: set<Key>)
    returns (ok: bool, voters: set<Key>)
    ensures ok <==> forall j :: 0 <= j < |ms| ==> GoodPrevote(ms[j], best, producers)
    ensures ok ==> voters == Voters(ms)
  {
    voters := {};
    for i := 0 to |ms|
      invariant forall j :: 0 <= j < i ==> GoodPrevote(ms[j], best, producers)
      invariant voters == Voters(ms[..i])
    {
      var good, keys := ValidatePrevote(ms[i], best, producers);
      if !good {
        return false, voters;
      }
      assert ms[..i + 1] == ms[..i] + [ms[i]];
      VotersAppend(ms[..i], ms[i]);
      voters := voters + keys;
    }
    assert ms[..|ms|] == ms;
    ok := true;
  }

  lemma VotersAppend(ms: seq<SignedVote>, m: SignedVote)
    ensures Voters(ms + [m]) == Voters(ms) + (set k | k in m.keys)
  {
    var all := ms + [m];
    forall k | k in Voters(ms) + (set k | k in m.keys) ensures k in Voters(all) {
      if k in m.keys {
        assert k in all[|ms|].keys;
      } else {
        var i :| 0 <= i < |ms| && k in ms[i].keys;
        assert k in all[i].keys;
      }
    }
  }

  method ValidatePrecommit(m: SignedPrecommit, voters: set<Key>, best: BlockId, producers: set<Key>)
    returns (ok: bool, keys: set<Key>)
    ensures ok <==> GoodPrecommit(m, voters, best, producers)
    ensures ok ==> keys == set k | k in m.keys
  {
    keys := {};
    for n := 0 to |m.keys|
      invariant forall k :: k in m.keys[..n] ==> k in voters && m.block == best && k in producers
      invariant keys == set k | k in m.keys[..n]
    {
      var key := m.keys[n];
      assert key in m.keys;
      if key !in voters || m.block != best || key !in producers {
        return false, keys;
      }
      assert m.keys[..n + 1] == m.keys[..n] + [key];
      keys := keys + {key};
    }
    assert m.keys[..|m.keys|] == m.keys;
    ok := true;
  }

  method ValidatePrecommits(ms: seq<SignedPrecommit>, voters: set<Key>, best: BlockId, producers: set<Key>)
    returns (ok: bool, committers: set<Key>)
    ensures ok <==> forall j :: 0 <= j < |ms| ==> GoodPrecommit(ms[j], voters, best, producers)
    ensures ok ==> committers == Committers(ms)
  {
    committers := {};
    for i := 0 to |ms|
      invariant forall j :: 0 <= j < i ==> GoodPrecommit(ms[j], voters, best, producers)
      invariant committers == Committers(ms[..i])
    {
      var good, keys := ValidatePrecommit(ms[i], voters, best, producers);
      if !good {
        return false, committers;
      }
      assert ms[..i + 1] == ms[..i] + [ms[i]];
      CommittersAppend(ms[..i], ms[i]);
      committers := committers + keys;
    }
    assert ms[..|ms|] == ms;
    ok := true;
  }

  lemma CommittersAppend(ms: seq<SignedPrecommit>, m: SignedPrecommit)
    ensures Committers(ms + [m]) == Committers(ms) + (set k | k in m.keys)
  {
    var all := ms + [m];
    forall k | k in Committers(ms) + (set k | k in m.keys) ensures k in Committers(all) {
      if k in m.keys {
        assert k in all[|ms|].keys;
      } else {
        var i :| 0 <= i < |ms| && k in ms[i].keys;
        assert k in all[i].keys;
      }
    }
  }

  /** `validate_proof`. */
  method ValidateProof(t: Tree, m: ProofMsg) returns (ok: bool)
    ensures ok <==> GoodProof(t, m)
  {
    var node := Find(t, m.best);
    if node.None? {
      return false;
    }
    var producers := t[node.value].producers;
    var voters, committers: set<Key>;
    ok, voters := ValidatePrevotes(m.prevotes, m.best, producers);
    if ok {
      ok, committers := ValidatePrecommits(m.precommits, voters, m.best, producers);
      if ok {
        ok := Supermajority(|committers|, |producers|);
      }
    }
  }

  // ----- Proofs that are handed out -----

  /** `ms` holds the votes of `c`, one message for every key, in any order. */
  ghost predicate Lists(ms: seq<SignedVote>, c: map<Key, Vote>) {
    && (forall m :: m in ms ==> SingleVote(m, c))
    && (forall k :: k in c ==> SignedVote(c[k], [k]) in ms)
  }

  predicate SingleVote(m: SignedVote, c: map<Key, Vote>) {
    |m.keys| == 1 && m.keys[0] in c && m.vote == c[m.keys[0]]
  }

  /** The proof as it is sent, with its prevotes listed as `ms`. */
  function Message(p: Proof, ms: seq<SignedVote>): (m: ProofMsg)
    ensures |m.precommits| == |p.precommits|
  {
    ProofMsg(p.round, p.best, ms,
      seq(|p.precommits|, i requires 0 <= i < |p.precommits| =>
        SignedPrecommit(p.precommits[i].block, [p.precommits[i].key])))
  }

  lemma ListedVoters(ms: seq<SignedVote>, c: map<Key, Vote>)
    requires Lists(ms, c)
    ensures Voters(ms) == c.Keys
  {
    forall k | k in c ensures k in Voters(ms) {
      var j :| 0 <= j < |ms| && ms[j] == SignedVote(c[k], [k]);
      assert k in ms[j].keys;
    }
    forall k | k in Voters(ms) ensures k in c {
      var j :| 0 <= j < |ms| && k in ms[j].keys;
      assert SingleVote(ms[j], c);
    }
  }

  lemma MessageCommitters(p: Proof, ms: seq<SignedVote>)
    ensures Committers(Message(p, ms).precommits) == KeysOf(p.precommits)
  {
    var cs := Message(p, ms).precommits;
    forall k | k in KeysOf(p.precommits) ensures k in Committers(cs) {
      var q :| q in p.precommits && q.key == k;
      var i :| 0 <= i < |p.precommits| && p.precommits[i] == q;
      assert k in cs[i].keys;
    }
    forall k | k in Committers(cs) ensures k in KeysOf(p.precommits) {
      var i :| 0 <= i < |cs| && k in cs[i].keys;
      assert p.precommits[i] in p.precommits && p.precommits[i].key == k;
    }
  }

  lemma GoodVotes(ms: seq<SignedVote>, c: map<Key, Vote>, best: BlockId, producers: set<Key>)
    requires Lists(ms, c) && forall k :: k in c ==> Names(c[k], best)
    ensures (forall j :: 0 <= j < |ms| ==> GoodPrevote(ms[j], best, producers)) <==> c.Keys <= producers
  {
    if c.Keys <= producers {
      forall j | 0 <= j < |ms| ensures GoodPrevote(ms[j], best, producers) {
        assert SingleVote(ms[j], c);
      }
    }
    if forall j :: 0 <= j < |ms| ==> GoodPrevote(ms[j], best, producers) {
      forall k | k in c ensures k in producers {
        var j :| 0 <= j < |ms| && ms[j] == SignedVote(c[k], [k]);
        assert GoodPrevote(ms[j], best, producers) && k in ms[j].keys;
      }
    }
  }

  lemma GoodCommits(p: Proof, ms: seq<SignedVote>, voters: set<Key>, best: BlockId, all: set<Key>)
    requires voters <= all && forall q :: q in p.precommits ==> q.block == best
    ensures (forall j :: 0 <= j < |p.precommits| ==> GoodPrecommit(Message(p, ms).precommits[j], voters, best, all))
      <==> KeysOf(p.precommits) <= voters
  {
    var cs := Message(p, ms).precommits;
    if KeysOf(p.precommits) <= voters {
      forall j | 0 <= j < |cs| ensures GoodPrecommit(cs[j], voters, best, all) {
        assert p.precommits[j].key in KeysOf(p.precommits);
        assert p.precommits[j].block == best;
      }
    }
    if forall j :: 0 <= j < |cs| ==> GoodPrecommit(cs[j], voters, best, all) {
      forall k | k in KeysOf(p.precommits) ensures k in voters {
        var q :| q in p.precommits && q.key == k;
        var j :| 0 <= j < |cs| && p.precommits[j] == q;
        assert GoodPrecommit(cs[j], voters, best, all) && k in cs[j].keys;
      }
    }
  }

  /** A proof announced before prevoting was closed would be accepted by nobody. */
  lemma EarlyProofIsRejected(x: Trace, t: Tree, ms: seq<SignedVote>)
    requires Finished(x) && Lists(ms, Final(x).announced.value.prevotes) && !Ended(Final(x))
    ensures !GoodProof(t, Message(Final(x).announced.value, ms))
  {
    RunsAreSound(x, |x.events|);
    var a := Final(x).announced.value;
    ListedVoters(ms, a.prevotes);
    var c := Message(a, ms).precommits[0];
    assert c.keys == [a.precommits[0].key] && c.keys[0] in c.keys;
    forall best, producers ensures !GoodPrecommit(c, Voters(ms), best, producers) {
      assert c.keys[0] !in Voters(ms);
    }
  }

  /** The node knows the best block of the round, with the same producers. */
  ghost predicate Knows(t: Tree, x: Trace)
    requires Finished(x)
  {
    Find(t, BestNode(x).id).Some? && t[Find(t, BestNode(x).id).value].producers == BestNode(x).producers
  }

  /**
   A proof announced after prevoting was closed is accepted exactly when the voters are producers, and
   the precommits are from different keys, all of them voters.
   */
  lemma ClosedProofIsAccepted(x: Trace, t: Tree, ms: seq<SignedVote>)
    requires Finished(x) && Lists(ms, Final(x).announced.value.prevotes) && Ended(Final(x)) && Knows(t, x)
    ensures GoodProof(t, Message(Final(x).announced.value, ms)) <==>
      && VotersAreProducers(BestNode(x)) && Counted(x) <= BestNode(x).confirmations.Keys
      && DistinctKeys(Final(x).announced.value.precommits)
  {
    RunsAreSound(x, |x.events|);
    FinishedForBest(x);
    BestHasVotes(x);
    FullProofIsAccepted(Final(x).announced.value, BestNode(x), t, ms);
  }

  /** The same of any proof with the votes for a block and as many precommits for it as a quorum needs. */
  lemma FullProofIsAccepted(a: Proof, node: Node, t: Tree, ms: seq<SignedVote>)
    requires a.best == node.id && a.prevotes == node.confirmations && Lists(ms, a.prevotes)
    requires forall k :: k in node.confirmations ==> Names(node.confirmations[k], node.id)
    requires |a.precommits| == Quorum(|node.producers|) && forall p :: p in a.precommits ==> p.block == node.id
    requires Find(t, node.id).Some? && t[Find(t, node.id).value].producers == node.producers
    ensures GoodProof(t, Message(a, ms)) <==>
      VotersAreProducers(node) && KeysOf(a.precommits) <= node.confirmations.Keys && DistinctKeys(a.precommits)
  {
    ListedVoters(ms, a.prevotes);
    GoodVotes(ms, a.prevotes, node.id, node.producers);
    if VotersAreProducers(node) { GoodCommits(a, ms, Voters(ms), node.id, node.producers); }
    MessageCommitters(a, ms);
    KeysSize(a.precommits);
  }

  /**
   The `n`th event closes prevoting in a state in which all voters of the best block are its producers,
   and the own keys that count are voters and have not precommitted yet.
   */
  ghost predicate ClosesWell(x: Trace, n: nat)
    requires Startable(x)
  {
    && Closes(x, n) && After(x, n).best.Some?
    && VotersAreProducers(After(x, n).tree[After(x, n).best.value])
    && OwnKeysVoted(After(x, n)) && OwnKeysNew(After(x, n))
  }

  lemma ClosedWellIsAccepted(x: Trace, t: Tree, ms: seq<SignedVote>, n: nat)
    requires Finished(x) && Lists(ms, Final(x).announced.value.prevotes) && Knows(t, x) && Closes(x, n)
    ensures Ended(Final(x))
    ensures GoodProof(t, Message(Final(x).announced.value, ms)) <==> ClosesWell(x, n)
  {
    ClosedFirst(x, n);
    ClosedProofIsAccepted(x, t, ms);
    AnnouncedVoters(x, n);
    CountedOnce(Final(x).announced.value.precommits, Final(x).proof.precommits, After(x, n));
  }

  /** In every finished round: a node that knows the block accepts the proof exactly if prevoting was closed well. */
  lemma ProofIsAccepted(x: Trace, t: Tree, ms: seq<SignedVote>)
    requires Finished(x) && Lists(ms, Final(x).announced.value.prevotes) && Knows(t, x)
    ensures GoodProof(t, Message(Final(x).announced.value, ms)) <==> exists n: nat :: ClosesWell(x, n)
  {
    forall n: nat | Closes(x, n)
      ensures Ended(Final(x))
      ensures GoodProof(t, Message(Final(x).announced.value, ms)) <==> ClosesWell(x, n)
    {
      ClosedWellIsAccepted(x, t, ms, n);
    }
    if Ended(Final(x)) {
      var n := EndedWasClosed(x, |x.events|);
    } else {
      EarlyProofIsRejected(x, t, ms);
    }
  }

  /** An accepted proof has a quorum of the producers behind it. */
  lemma AcceptedHasQuorumBehind(x: Trace, t: Tree, ms: seq<SignedVote>)
    requires Finished(x) && Lists(ms, Final(x).announced.value.prevotes) && Knows(t, x)
    requires GoodProof(t, Message(Final(x).announced.value, ms))
    ensures HasQuorum(x)
  {
    RunsAreSound(x, |x.events|);
    if !Ended(Final(x)) {
      EarlyProofIsRejected(x, t, ms);
    } else {
      ClosedProofIsAccepted(x, t, ms);
      QuorumOfProducers(Final(x).announced.value.precommits, BestNode(x).producers);
    }
  }

  /** When every vote starts at the root, the own keys are voters, and the other two conditions remain. */
  lemma RootedProofIsAccepted(x: Trace, t: Tree, ms: seq<SignedVote>)
    requires Finished(x) && Lists(ms, Final(x).announced.value.prevotes) && Knows(t, x)
    requires x.head.Some? && VotesFromRoot(x)
    ensures GoodProof(t, Message(Final(x).announced.value, ms)) <==>
      VotersAreProducers(BestNode(x)) && exists n: nat :: Closes(x, n) && ClosedNew(x, n)
  {
    ProofIsAccepted(x, t, ms);
    forall n: nat | Closes(x, n)
      ensures ClosesWell(x, n) <==> VotersAreProducers(BestNode(x)) && ClosedNew(x, n)
    {
      RootedClosesWell(x, n);
    }
  }

  lemma RootedClosesWell(x: Trace, n: nat)
    requires Finished(x) && x.head.Some? && VotesFromRoot(x) && Closes(x, n)
    ensures ClosesWell(x, n) <==> VotersAreProducers(BestNode(x)) && ClosedNew(x, n)
  {
    RunsAreSound(x, n);
    ClosedFirst(x, n);
    OwnVotesStand(x, n);
  }

  // ----- Handing the proof out -----

  /** `finish_round` passes a proof on only if its block is above the last irreversible one. */
  predicate HandedOut(number: BlockId -> int, lib: BlockId, p: Proof) {
    number(lib) < number(p.best)
  }

  /** A finished round hands its proof out exactly when prevoting was closed and the best block is new. */
  lemma HandedOutExactly(x: Trace, number: BlockId -> int, lib: BlockId)
    requires Finished(x) && number(ZERO_BLOCK) == 0 <= number(lib)
    ensures HandedOut(number, lib, Final(x).announced.value)
      <==> Ended(Final(x)) && number(lib) < number(BestNode(x).id)
  {
    RunsAreSound(x, |x.events|);
  }

  // ----- What an accepted proof is worth -----

  /** Every precommit in the message, as it stands there, was made by its node unless its key is in `faulty`. */
  ghost predicate UnforgedProof(m: ProofMsg, signers: map<Key, Trace>, faulty: set<Key>) {
    forall j, k :: 0 <= j < |m.precommits| && k in m.precommits[j].keys ==>
      Unforged(Precommit(k, m.precommits[j].block), signers, faulty)
  }

  /**
   What an accepted message carries: whoever signed a prevote voted for a branch with the block, whoever
   signed a precommit signed one for the block and signed a prevote as well, and all are its producers.
   */
  lemma AcceptedMessage(t: Tree, m: ProofMsg)
    requires GoodProof(t, m)
    ensures Find(t, m.best).Some?
    ensures var producers := t[Find(t, m.best).value].producers;
      && (forall j, k :: 0 <= j < |m.prevotes| && k in m.prevotes[j].keys ==>
            (m.prevotes[j].vote.base == m.best || m.best in m.prevotes[j].vote.blocks) && k in producers)
      && (forall j, k :: 0 <= j < |m.precommits| && k in m.precommits[j].keys ==>
            m.precommits[j].block == m.best && k in Voters(m.prevotes) && k in producers)
      && 3 * |Committers(m.precommits)| > 2 * |producers|
  {
    var producers := t[Find(t, m.best).value].producers;
    forall j, k | 0 <= j < |m.prevotes| && k in m.prevotes[j].keys
      ensures (m.prevotes[j].vote.base == m.best || m.best in m.prevotes[j].vote.blocks) && k in producers
    {
      assert GoodPrevote(m.prevotes[j], m.best, producers);
    }
    forall j, k | 0 <= j < |m.precommits| && k in m.precommits[j].keys
      ensures m.precommits[j].block == m.best && k in Voters(m.prevotes) && k in producers
    {
      assert GoodPrecommit(m.precommits[j], Voters(m.prevotes), m.best, producers);
    }
  }

  /** A counted key stands for a precommit to the block, made by its node unless the key is faulty. */
  lemma CountedKeyPrecommitted(t: Tree, m: ProofMsg, k: Key, signers: map<Key, Trace>, faulty: set<Key>)
    requires GoodProof(t, m) && k in Committers(m.precommits) && UnforgedProof(m, signers, faulty)
    ensures Unforged(Precommit(k, m.best), signers, faulty)
  {
    AcceptedMessage(t, m);
    var j :| 0 <= j < |m.precommits| && k in m.precommits[j].keys;
    assert m.precommits[j].block == m.best;
  }

  ghost predicate AcceptedProof(t: Tree, m: ProofMsg, all: set<Key>) {
    GoodProof(t, m) && t[Find(t, m.best).value].producers == all
  }

  lemma AcceptedHasQuorum(t: Tree, m: ProofMsg, all: set<Key>)
    requires AcceptedProof(t, m, all)
    ensures Committers(m.precommits) <= all && Supermajority(|Committers(m.precommits)|, |all|)
  {
    forall k | k in Committers(m.precommits) ensures k in all {
      var j :| 0 <= j < |m.precommits| && k in m.precommits[j].keys;
      assert GoodPrecommit(m.precommits[j], Voters(m.prevotes), m.best, all);
    }
  }

  /** Two proofs that any two nodes accept name one block, if fewer than a third of the producers are faulty. */
  lemma AcceptedProofsAgree(
    t: Tree, m: ProofMsg, u: Tree, l: ProofMsg, signers: map<Key, Trace>, all: set<Key>, faulty: set<Key>)
    requires AcceptedProof(t, m, all) && AcceptedProof(u, l, all) && 3 * |faulty| < |all|
    requires UnforgedProof(m, signers, faulty) && UnforgedProof(l, signers, faulty)
    ensures m.best == l.best
  {
    AcceptedHasQuorum(t, m, all);
    AcceptedHasQuorum(u, l, all);
    var k := SupermajoritiesMeet(Committers(m.precommits), Committers(l.precommits), all, faulty);
    CountedKeyPrecommitted(t, m, k, signers, faulty);
    CountedKeyPrecommitted(u, l, k, signers, faulty);
    HonestKeyPrecommitsOnce(Precommit(k, m.best), Precommit(k, l.best), signers, faulty);
  }

  /** And that block is the best block of every node that finished the round itself with a quorum. */
  lemma AcceptedProofNamesBest(t: Tree, m: ProofMsg, x: Trace, signers: map<Key, Trace>, faulty: set<Key>)
    requires Finished(x) && HasQuorum(x) && AcceptedProof(t, m, BestNode(x).producers)
    requires 3 * |faulty| < |BestNode(x).producers|
    requires UnforgedProof(m, signers, faulty) && UnforgedPrecommits(x, signers, faulty)
    ensures m.best == BestNode(x).id
  {
    var all := BestNode(x).producers;
    AcceptedHasQuorum(t, m, all);
    FinishedForBest(x);
    var k := SupermajoritiesMeet(Committers(m.precommits), Counted(x) * all, all, faulty);
    var p :| p in Final(x).announced.value.precommits && p.key == k;
    CountedKeyPrecommitted(t, m, k, signers, faulty);
    HonestKeyPrecommitsOnce(Precommit(k, m.best), p, signers, faulty);
  }
}
