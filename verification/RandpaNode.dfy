/** The objects of a RANDPA node: the tree of blocks and the round that votes on it, updated in place. */
module RandpaNode {
  import opened Options
  import opened PrefixTree
  import opened Confirmations
  import opened RandpaRound

  lemma PathGrows(t: Tree, p: seq<nat>, i: nat, j: nat)
    requires Valid(t) && i < j < |p|
    requires forall k :: 0 <= k < |p| ==> p[k] < |t|
    requires forall k :: 0 < k < |p| ==> p[k] > 0 && t[p[k]].parent == p[k - 1]
    ensures p[i] < p[j]
    decreases j
  {
    if i < j - 1 { PathGrows(t, p, i, j - 1); }
  }

  /** Confirming the path node by node. */
  lemma ConfirmOneMore(t: Tree, p: seq<nat>, n: nat, key: Key, vote: Vote)
    requires n < |p| && p[n] < |t| && p[n] !in p[..n]
    ensures var u := Confirm(t, p[..n], key, vote);
      Confirm(t, p[..n + 1], key, vote) == Confirmed(u, p[n], key, vote)
  {
    assert p[..n + 1] == p[..n] + [p[n]];
  }

  lemma ConfirmFirst(t: Tree, p: seq<nat>, key: Key, vote: Vote)
    requires p != [] && p[0] < |t|
    ensures Confirm(t, p[..1], key, vote) == Confirmed(t, p[0], key, vote)
  {
    assert p[..1] == [p[0]];
  }

  /** The path goes on with the child that was found. */
  lemma PathNext(t: Tree, path: seq<nat>, blocks: seq<BlockId>, n: nat, node: nat, child: nat)
    requires n < |blocks| && n < |path| && node == path[n] < |t|
    requires path == path[..n] + Path(t, node, blocks[n..])
    requires Child(t, node, blocks[n]) == Some(child)
    ensures n + 1 < |path| && path[n + 1] == child && path == path[..n + 1] + Path(t, child, blocks[n + 1..])
  {
    assert blocks[n..][0] == blocks[n] && blocks[n..][1..] == blocks[n + 1..];
    var rest := Path(t, child, blocks[n + 1..]);
    assert Path(t, node, blocks[n..]) == [node] + rest;
    assert path[..n + 1] == path[..n] + [node];
  }

  lemma PathIsNew(t: Tree, p: seq<nat>, n: nat)
    requires Valid(t) && n < |p|
    requires forall k :: 0 <= k < |p| ==> p[k] < |t|
    requires forall k :: 0 < k < |p| ==> p[k] > 0 && t[p[k]].parent == p[k - 1]
    ensures p[n] !in p[..n]
  {
    forall k | 0 <= k < n ensures p[k] != p[n] { PathGrows(t, p, k, n); }
  }

  lemma MostConfirmedStep(t: Tree, p: seq<nat>, n: nat)
    requires 0 < n < |p| && forall k :: 0 <= k < |p| ==> p[k] < |t|
    ensures var k := MostConfirmed(t, p[..n]);
      MostConfirmed(t, p[..n + 1]) == if |t[p[k]].confirmations| <= |t[p[n]].confirmations| then n else k
  {
    var q := p[..n + 1];
    assert q[..n] == p[..n];
    assert |q| - 1 == n;
  }

  /** One node further, the most confirmed node is the new one or the one before. */
  lemma MostConfirmedNext(t: Tree, p: seq<nat>, n: nat, key: Key, vote: Vote)
    requires 0 < n < |p| && forall k :: 0 <= k < |p| ==> p[k] < |t|
    ensures var final, u := Confirm(t, p, key, vote), Confirm(t, p[..n + 1], key, vote);
      var k := MostConfirmed(final, p[..n]);
      MostConfirmed(final, p[..n + 1])
        == if |u[p[k]].confirmations| <= |u[p[n]].confirmations| then n else k
  {
    var final := Confirm(t, p, key, vote);
    MostConfirmedStep(final, p, n);
    SameCount(t, p, n, n, key, vote);
    SameCount(t, p, n, MostConfirmed(final, p[..n]), key, vote);
  }

  lemma SameCount(t: Tree, p: seq<nat>, n: nat, k: nat, key: Key, vote: Vote)
    requires k <= n < |p| && p[k] < |t|
    ensures Confirm(t, p, key, vote)[p[k]] == Confirm(t, p[..n + 1], key, vote)[p[k]]
  {
    assert p[..n + 1][k] == p[k];
  }

  function Confirmed(t: Tree, i: nat, key: Key, vote: Vote): (r: Tree)
    requires i < |t|
    ensures |r| == |t|
  {
    t[i := t[i].(confirmations := t[i].confirmations[key := vote])]
  }

  ghost predicate IsPath(t: Tree, path: seq<nat>) {
    && Valid(t) && (forall k :: 0 <= k < |path| ==> path[k] < |t|)
    && (forall k :: 0 < k < |path| ==> path[k] > 0 && t[path[k]].parent == path[k - 1])
  }

  /** The walk along the path stands at its `n`th node, with the rest of the blocks before it. */
  ghost predicate Walking(t: Tree, path: seq<nat>, blocks: seq<BlockId>, n: nat, node: nat) {
    && IsPath(t, path) && n <= |blocks| && n < |path| && node == path[n]
    && path == path[..n] + Path(t, node, blocks[n..])
  }

  /** The nodes of the path up to the `n`th are confirmed, and `max` is the most confirmed of them. */
  ghost predicate Counted(t: Tree, path: seq<nat>, key: Key, vote: Vote, n: nat, nodes: Tree, max: nat) {
    && IsPath(t, path) && n < |path|
    && nodes == Confirm(t, path[..n + 1], key, vote)
    && max == path[MostConfirmed(Confirm(t, path, key, vote), path[..n + 1])]
  }

  ghost predicate Followed(t: Tree, path: seq<nat>, key: Key, vote: Vote, nodes: Tree, max: nat) {
    && path != [] && (forall k :: 0 <= k < |path| ==> path[k] < |t|)
    && nodes == Confirm(t, path, key, vote) && max == path[MostConfirmed(nodes, path)]
  }

  lemma WalkFirst(t: Tree, start: nat, blocks: seq<BlockId>)
    requires Valid(t) && start < |t|
    ensures Walking(t, Path(t, start, blocks), blocks, 0, start)
  {
    assert blocks[0..] == blocks;
  }

  lemma CountFirst(t: Tree, path: seq<nat>, key: Key, vote: Vote)
    requires IsPath(t, path) && path != []
    ensures Counted(t, path, key, vote, 0, Confirmed(t, path[0], key, vote), path[0])
  {
    ConfirmFirst(t, path, key, vote);
    assert |path[..1]| == 1;
  }

  lemma CountNext(t: Tree, path: seq<nat>, key: Key, vote: Vote, n: nat, nodes: Tree, max: nat, c: nat)
    requires Counted(t, path, key, vote, n, nodes, max) && n + 1 < |path| && path[n + 1] == c
    ensures c < |nodes| && max < |nodes|
    ensures var u := Confirmed(nodes, c, key, vote);
      Counted(t, path, key, vote, n + 1, u, if |u[max].confirmations| <= |u[c].confirmations| then c else max)
  {
    PathIsNew(t, path, n + 1);
    ConfirmOneMore(t, path, n + 1, key, vote);
    MostConfirmedNext(t, path, n + 1, key, vote);
  }

  lemma WalkLast(
    t: Tree, path: seq<nat>, blocks: seq<BlockId>, key: Key, vote: Vote, n: nat, node: nat, nodes: Tree, max: nat)
    requires Walking(t, path, blocks, n, node) && Counted(t, path, key, vote, n, nodes, max)
    requires n == |blocks| || Child(t, node, blocks[n]).None?
    ensures Followed(t, path, key, vote, nodes, max)
  {
    assert n < |blocks| ==> blocks[n..][0] == blocks[n];
    assert Path(t, node, blocks[n..]) == [node];
    assert path == path[..n + 1];
  }

  /** One more turn: the child found in the tree as updated so far is the next node, or the walk is over. */
  lemma WalkNext(
    t: Tree, path: seq<nat>, blocks: seq<BlockId>, key: Key, vote: Vote, n: nat, node: nat, nodes: Tree, max: nat)
    requires Walking(t, path, blocks, n, node) && Counted(t, path, key, vote, n, nodes, max) && n < |blocks|
    ensures match Child(nodes, node, blocks[n])
      case None => Followed(t, path, key, vote, nodes, max)
      case Some(c) => Walking(t, path, blocks, n + 1, c) && n + 1 < |path| && path[n + 1] == c
  {
    SameChild(t, path[..n + 1], key, vote, node, blocks[n]);
    match Child(t, node, blocks[n])
    case None => WalkLast(t, path, blocks, key, vote, n, node, nodes, max);
    case Some(c) => WalkOn(t, path, blocks, n, node, c);
  }

  lemma SameChild(t: Tree, path: seq<nat>, key: Key, vote: Vote, node: nat, block: BlockId)
    ensures Child(Confirm(t, path, key, vote), node, block) == Child(t, node, block)
  {
    SameShapeChild(t, Confirm(t, path, key, vote), node, block);
  }

  lemma WalkOn(t: Tree, path: seq<nat>, blocks: seq<BlockId>, n: nat, node: nat, child: nat)
    requires Walking(t, path, blocks, n, node) && n < |blocks| && Child(t, node, blocks[n]) == Some(child)
    ensures Walking(t, path, blocks, n + 1, child) && n + 1 < |path| && path[n + 1] == child
  {
    PathNext(t, path, blocks, n, node, child);
  }

  class PrefixChainTree {
    var nodes: Tree

    constructor (root: Node)
      ensures nodes == [root] && Valid(nodes)
    {
      nodes := [root];
    }

    method ConfirmNode(i: nat, key: Key, vote: Vote)
      requires i < |nodes|
      modifies this
      ensures nodes == Confirmed(old(nodes), i, key, vote)
    {
      nodes := nodes[i := nodes[i].(confirmations := nodes[i].confirmations[key := vote])];
    }

    method AddConfirmations(vote: Vote, key: Key) returns (max: Option<nat>)
      requires Valid(nodes)
      modifies this
      ensures Valid(nodes) && nodes == RecordVote(old(nodes), vote, key)
      ensures max.None? <==> VotePath(old(nodes), vote) == []
      ensures max.Some? ==>
        var path := VotePath(old(nodes), vote); max.value == path[MostConfirmed(nodes, path)]
    {
      var start := StartOf(nodes, vote.base, vote.blocks);
      if start.None? {
        return None;
      }
      var i := Follow(start.value.0, start.value.1, key, vote);
      max := Some(i);
      SameShapeValid(old(nodes), nodes);
    }

    method Follow(start: nat, blocks: seq<BlockId>, key: Key, vote: Vote) returns (max: nat)
      requires Valid(nodes) && start < |nodes|
      modifies this
      ensures Followed(old(nodes), Path(old(nodes), start, blocks), key, vote, nodes, max)
    {
      ghost var t := nodes;
      ghost var path := Path(t, start, blocks);
      var node, n := start, 0;
      max := start;
      ConfirmNode(start, key, vote);
      WalkFirst(t, start, blocks);
      CountFirst(t, path, key, vote);
      while n < |blocks|
        invariant Walking(t, path, blocks, n, node) && Counted(t, path, key, vote, n, nodes, max)
        decreases |blocks| - n
      {
        var child := Child(nodes, node, blocks[n]);
        WalkNext(t, path, blocks, key, vote, n, node, nodes, max);
        if child.None? {
          return;
        }
        CountNext(t, path, key, vote, n, nodes, max, child.value);
        node := child.value;
        ConfirmNode(node, key, vote);
        if |nodes[max].confirmations| <= |nodes[node].confirmations| {
          max := node;
        }
        n := n + 1;
      }
      WalkLast(t, path, blocks, key, vote, n, node, nodes, max);
    }

    /** `insert` of an accepted block. */
    method InsertBlock(prev: BlockId, id: BlockId, producers: set<Key>)
      requires Valid(nodes)
      modifies this
      ensures Valid(nodes) && nodes == Insert(old(nodes), prev, id, producers)
      ensures Find(old(nodes), prev).Some? ==> Child(nodes, Find(old(nodes), prev).value, id).Some?
      ensures Find(old(nodes), prev).None? ==> nodes == old(nodes)
    {
      InsertedExactly(nodes, prev, id, producers);
      var parent := Find(nodes, prev);
      if parent.Some? && Child(nodes, parent.value, id).None? {
        nodes := nodes + [Node(id, parent.value, map[], producers)];
      }
    }

    /** `get_branch`. */
    method GetBranch(head: nat) returns (blocks: seq<BlockId>)
      requires Valid(nodes) && head < |nodes|
      ensures blocks == Branch(nodes, head)
    {
      var node: nat := head;
      blocks := [];
      while node != 0
        invariant node < |nodes| && Branch(nodes, head) == Branch(nodes, node) + blocks
        decreases node
      {
        blocks := [nodes[node].id] + blocks;
        node := nodes[node].parent;
      }
    }
  }

  class VotingRound {
    const num: nat
    const own: seq<Key>
    const tree: PrefixChainTree
    var phase: Phase
    var best: Option<nat>
    var proof: Proof
    var prevoted: set<Key>
    var precommitted: set<Key>
    var announced: Option<Proof>

    function State(): (r: Round)
      reads this, tree
    {
      Round(num, own, tree.nodes, phase, best, proof, prevoted, precommitted, announced)
    }

    ghost predicate Ready()
      reads this, tree
    {
      Valid(tree.nodes) && BestKnown(State())
    }

    /** A new round, which prevotes for the branch of the primary's last block. */
    constructor (num: nat, own: seq<Key>, tree: PrefixChainTree, head: Option<nat>)
      requires Valid(tree.nodes) && (head.Some? ==> head.value < |tree.nodes|)
      modifies tree
      ensures Ready() && this.tree == tree
      ensures State() == Start(num, own, old(tree.nodes), head)
    {
      this.num, this.own, this.tree := num, own, tree;
      phase, best, announced := Prevoting, None, None;
      proof := Proof(0, ZERO_BLOCK, map[], []);
      prevoted, precommitted := {}, {};
      new;
      if head.Some? {
        var blocks := tree.GetBranch(head.value);
        CastOwnPrevotes(Vote(tree.nodes[0].id, blocks));
      }
    }

    method AddPrevote(vote: Vote, key: Key)
      requires Ready()
      modifies this, tree
      ensures Ready() && State() == RandpaRound.AddPrevote(old(State()), vote, key)
    {
      var max := tree.AddConfirmations(vote, key);
      if max.None? {
        return;
      }
      prevoted := prevoted + {key};
      ElectBest(max.value);
    }

    method ElectBest(max: nat)
      requires Ready() && max < |tree.nodes|
      modifies this
      ensures Ready() && State() == Elect(old(State()), max)
    {
      var node := tree.nodes[max];
      if phase != ReadyToPrecommit && Supermajority(|node.confirmations|, |node.producers|) {
        phase, best := ReadyToPrecommit, Some(max);
      }
    }

    method CastOwnPrevotes(vote: Vote)
      requires Ready()
      modifies this, tree
      ensures Ready() && State() == CastPrevotes(old(State()), vote, own)
    {
      for n := 0 to |own|
        invariant Ready() && State() == CastPrevotes(old(State()), vote, own[..n])
      {
        assert own[..n + 1][..n] == own[..n];
        AddPrevote(vote, own[n]);
      }
      assert own[..|own|] == own;
    }

    method OnPrevote(round: nat, vote: Vote, keys: seq<Key>)
      requires Ready()
      modifies this, tree
      ensures Ready() && State() == Step(old(State()), PrevoteMsg(round, vote, keys))
    {
      if phase != Prevoting && phase != ReadyToPrecommit {
        return;
      }
      for n := 0 to |keys|
        invariant Ready() && State() == ReceivePrevotes(old(State()), round, vote, keys[..n])
      {
        assert keys[..n + 1][..n] == keys[..n];
        if ValidPrevote(State(), round, vote, keys[n]) {
          AddPrevote(vote, keys[n]);
        }
      }
      assert keys[..|keys|] == keys;
    }

    method AddPrecommit(key: Key, block: BlockId)
      requires Ready() && best.Some?
      modifies this
      ensures Ready() && State() == RandpaRound.AddPrecommit(old(State()), key, block)
    {
      precommitted := precommitted + {key};
      proof := proof.(precommits := proof.precommits + [Precommit(key, block)]);
      if phase != Done && Supermajority(|proof.precommits|, |tree.nodes[best.value].producers|) {
        phase, announced := Done, Some(proof);
      }
    }

    method OnPrecommit(round: nat, block: BlockId, keys: seq<Key>)
      requires Ready()
      modifies this
      ensures Ready() && State() == Step(old(State()), PrecommitMsg(round, block, keys))
    {
      if phase != Precommitting && phase != ReadyToPrecommit {
        return;
      }
      for n := 0 to |keys|
        invariant Ready() && best.Some? && State() == ReceivePrecommits(old(State()), round, block, keys[..n])
      {
        assert keys[..n + 1][..n] == keys[..n];
        if ValidPrecommit(State(), round, block, keys[n]) {
          AddPrecommit(keys[n], block);
        }
      }
      assert keys[..|keys|] == keys;
    }

    method EndOfPrevote()
      requires Ready()
      modifies this
      ensures Ready() && State() == Step(old(State()), EndPrevote)
    {
      if phase != ReadyToPrecommit {
        phase := Failed;
        return;
      }
      var node := tree.nodes[best.value];
      proof := proof.(round := num, best := node.id, prevotes := node.confirmations);
      phase := Precommitting;
      ghost var s := State();
      for n := 0 to |own|
        invariant Ready() && best.Some? && State() == CastPrecommits(s, own[..n])
      {
        assert own[..n + 1][..n] == own[..n];
        AddPrecommit(own[n], node.id);
      }
      assert own[..|own|] == own;
    }
  }
}
