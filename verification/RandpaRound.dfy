/**
 One round of RANDPA finality as a state machine: prevotes are collected until a block holds
 a supermajority, then precommits for that block are collected until they are a supermajority.
 */
module RandpaRound {
  import opened Options
  import opened PrefixTree
  import opened Confirmations

  datatype Phase = Prevoting | ReadyToPrecommit | Precommitting | Done | Failed

  datatype Precommit = Precommit(key: Key, block: BlockId)

  /** The evidence of a finished round. Before prevoting ends it names the zero block and no prevotes. */
  datatype Proof = Proof(round: nat, best: BlockId, prevotes: map<Key, Vote>, precommits: seq<Precommit>)

  /** `own` are the keys this node signs with; `announced` is the proof at the moment the round was done. */
  datatype Round = Round(
    num: nat, own: seq<Key>, tree: Tree, phase: Phase, best: Option<nat>, proof: Proof,
    prevoted: set<Key>, precommitted: set<Key>, announced: Option<Proof>)

  datatype Event =
    | PrevoteMsg(round: nat, vote: Vote, keys: seq<Key>)
    | PrecommitMsg(round: nat, block: BlockId, keys: seq<Key>)
    | EndPrevote
    | Accepted(prev: BlockId, id: BlockId, producers: set<Key>)

  const ZERO_BLOCK: BlockId := 0

  /** The best block is there once prevoting has come to a result. */
  predicate BestKnown(r: Round) {
    (r.best.Some? ==> r.best.value < |r.tree|) && (r.best.None? ==> r.phase == Prevoting || r.phase == Failed)
  }

  // ----- Prevotes -----

  predicate ValidPrevote(r: Round, round: nat, vote: Vote, key: Key) {
    var last := LastKnown(r.tree, vote.base, vote.blocks);
    r.num == round && key !in r.prevoted && last.Some? && key in r.tree[last.value].producers
  }

  /** A vote for which no block is known would be refused; see `KnownVoteIsInsertable`. */
  function AddPrevote(r: Round, vote: Vote, key: Key): (s: Round)
    requires BestKnown(r)
    ensures BestKnown(s) && SameShape(r.tree, s.tree)
  {
    var path := VotePath(r.tree, vote);
    if path == [] then r
    else
      var tree := RecordVote(r.tree, vote, key);
      Elect(r.(tree := tree, prevoted := r.prevoted + {key}), path[MostConfirmed(tree, path)])
  }

  /** The first block seen with a supermajority of prevotes becomes the best block. */
  function Elect(r: Round, max: nat): (s: Round)
    requires BestKnown(r) && max < |r.tree|
    ensures BestKnown(s) && s.tree == r.tree && s.prevoted == r.prevoted
  {
    if r.phase != ReadyToPrecommit && Supermajority(|r.tree[max].confirmations|, |r.tree[max].producers|)
    then r.(phase := ReadyToPrecommit, best := Some(max))
    else r
  }

  /** The prevotes a message carries, one key after the other; keys that do not validate are skipped. */
  function ReceivePrevotes(r: Round, round: nat, vote: Vote, keys: seq<Key>): (s: Round)
    requires BestKnown(r)
    ensures BestKnown(s)
    decreases |keys|
  {
    if keys == [] then r
    else
      var n := |keys| - 1;
      var s := ReceivePrevotes(r, round, vote, keys[..n]);
      if ValidPrevote(s, round, vote, keys[n])
      then AddPrevote(s, vote, keys[n])
      else s
  }

  /** This node's own prevotes, which are not validated. */
  function CastPrevotes(r: Round, vote: Vote, keys: seq<Key>): (s: Round)
    requires BestKnown(r)
    ensures BestKnown(s)
    decreases |keys|
  {
    if keys == [] then r
    else AddPrevote(CastPrevotes(r, vote, keys[..|keys| - 1]), vote, keys[|keys| - 1])
  }

  function Fresh(num: nat, own: seq<Key>, tree: Tree): (r: Round) {
    Round(num, own, tree, Prevoting, None, Proof(0, ZERO_BLOCK, map[], []), {}, {}, None)
  }

  /** The round begins with this node's prevotes for the branch of the primary's last block, if it has one. */
  function Start(num: nat, own: seq<Key>, tree: Tree, head: Option<nat>): (r: Round)
    requires Valid(tree) && (head.Some? ==> head.value < |tree|)
    ensures BestKnown(r)
  {
    match head
    case None => Fresh(num, own, tree)
    case Some(h) => CastPrevotes(Fresh(num, own, tree), Vote(tree[0].id, Branch(tree, h)), own)
  }

  // ----- Precommits -----

  predicate ValidPrecommit(r: Round, round: nat, block: BlockId, key: Key)
    requires r.best.Some? && r.best.value < |r.tree|
  {
    var node := r.tree[r.best.value];
    r.num == round && key !in r.precommitted && block == node.id && key in node.confirmations
  }

  function AddPrecommit(r: Round, key: Key, block: BlockId): (s: Round)
    requires r.best.Some? && r.best.value < |r.tree|
    ensures s.best == r.best && s.tree == r.tree && s.prevoted == r.prevoted && s.own == r.own
  {
    var proof := r.proof.(precommits := r.proof.precommits + [Precommit(key, block)]);
    var s := r.(proof := proof, precommitted := r.precommitted + {key});
    if r.phase != Done && Supermajority(|proof.precommits|, |r.tree[r.best.value].producers|)
    then s.(phase := Done, announced := Some(proof))
    else s
  }

  function ReceivePrecommits(r: Round, round: nat, block: BlockId, keys: seq<Key>): (s: Round)
    requires r.best.Some? && r.best.value < |r.tree|
    ensures s.best == r.best && s.tree == r.tree && s.prevoted == r.prevoted && s.own == r.own
    decreases |keys|
  {
    if keys == [] then r
    else
      var n := |keys| - 1;
      var s := ReceivePrecommits(r, round, block, keys[..n]);
      if ValidPrecommit(s, round, block, keys[n]) then AddPrecommit(s, keys[n], block) else s
  }

  function CastPrecommits(r: Round, keys: seq<Key>): (s: Round)
    requires r.best.Some? && r.best.value < |r.tree|
    ensures s.best == r.best && s.tree == r.tree && s.prevoted == r.prevoted && s.own == r.own
    decreases |keys|
  {
    if keys == [] then r
    else
      var n := |keys| - 1;
      AddPrecommit(CastPrecommits(r, keys[..n]), keys[n], r.tree[r.best.value].id)
  }

  /** The prevotes of the best block go into the proof, and this node precommits. */
  function ClosePrevoting(r: Round): (s: Round)
    requires r.best.Some? && r.best.value < |r.tree|
    ensures s.best == r.best && s.tree == r.tree && s.prevoted == r.prevoted && s.own == r.own
  {
    CastPrecommits(CloseProof(r), r.own)
  }

  function CloseProof(r: Round): (s: Round)
    requires r.best.Some? && r.best.value < |r.tree|
    ensures s.best == r.best && s.tree == r.tree && s.prevoted == r.prevoted && s.own == r.own
  {
    var node := r.tree[r.best.value];
    r.(phase := Precommitting,
       proof := r.proof.(round := r.num, best := node.id, prevotes := node.confirmations))
  }

  // ----- Runs -----

  function Step(r: Round, e: Event): (s: Round)
    requires BestKnown(r)
    ensures BestKnown(s)
  {
    match e
    case PrevoteMsg(round, vote, keys) =>
      if r.phase == Prevoting || r.phase == ReadyToPrecommit then ReceivePrevotes(r, round, vote, keys) else r
    case PrecommitMsg(round, block, keys) =>
      if r.phase == Precommitting || r.phase == ReadyToPrecommit then ReceivePrecommits(r, round, block, keys) else r
    case EndPrevote =>
      if r.phase == ReadyToPrecommit then ClosePrevoting(r) else r.(phase := Failed)
    case Accepted(prev, id, producers) => r.(tree := Insert(r.tree, prev, id, producers))
  }

  /** The state after the first `n` events. */
  function Run(r: Round, events: seq<Event>, n: nat): (s: Round)
    requires BestKnown(r) && n <= |events|
    ensures BestKnown(s)
  {
    if n == 0 then r else Step(Run(r, events, n - 1), events[n - 1])
  }
}
