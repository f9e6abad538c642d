/**
 The tree of blocks in which RANDPA collects prevotes. Nodes are kept in the order in which
 they were inserted, so that a parent always comes before its children; node 0 is the root,
 the last irreversible block.
 */
module PrefixTree {
  import opened Options

  type BlockId = nat
  type Key = nat

  /** The branch a producer votes for: a block and the chain of blocks on top of it. */
  datatype Vote = Vote(base: BlockId, blocks: seq<BlockId>)

  datatype Node = Node(id: BlockId, parent: nat, confirmations: map<Key, Vote>, producers: set<Key>)

  type Tree = seq<Node>

  /** Parents come first, and no node has two children with one id. */
  ghost predicate Valid(t: Tree) {
    && t != []
    && (forall i :: 0 < i < |t| ==> t[i].parent < i)
    && (forall i, j :: 0 < i < j < |t| && t[i].id == t[j].id ==> t[i].parent != t[j].parent)
  }

  /** `find`: the node inserted last for a block, which is the one the index of blocks points to. */
  function Find(t: Tree, id: BlockId): (r: Option<nat>)
    ensures r.Some? ==> r.value < |t| && t[r.value].id == id && forall i :: r.value < i < |t| ==> t[i].id != id
    ensures r.None? ==> forall i :: 0 <= i < |t| ==> t[i].id != id
  {
    if t == [] then None
    else if t[|t| - 1].id == id then Some(|t| - 1)
    else Find(t[..|t| - 1], id)
  }

  /** `get_matching_node`: the child of node `i` that holds the block. */
  function Child(t: Tree, i: nat, id: BlockId): (r: Option<nat>)
    ensures r.Some? ==> 0 < r.value < |t| && t[r.value].parent == i && t[r.value].id == id
    ensures r.None? ==> forall j :: 0 < j < |t| && t[j].id == id ==> t[j].parent != i
  {
    if t == [] then None
    else
      var n := |t| - 1;
      match Child(t[..n], i, id)
      case Some(j) => Some(j)
      case None => if n > 0 && t[n].parent == i && t[n].id == id then Some(n) else None
  }

  /** `get_tree_node`: the base if it is known, otherwise the first known block, and the blocks after it. */
  function StartOf(t: Tree, base: BlockId, blocks: seq<BlockId>): (r: Option<(nat, seq<BlockId>)>)
    ensures r.Some? ==> r.value.0 < |t| && |r.value.1| <= |blocks|
    ensures r.None? <==> Find(t, base).None? && forall i :: 0 <= i < |blocks| ==> Find(t, blocks[i]).None?
    decreases |blocks|
  {
    match Find(t, base)
    case Some(i) => Some((i, blocks))
    case None => if blocks == [] then None else StartOf(t, blocks[0], blocks[1..])
  }

  /** `find_last_node`: the last known block, otherwise the base. */
  function LastKnown(t: Tree, base: BlockId, blocks: seq<BlockId>): (r: Option<nat>)
    ensures r.Some? ==> r.value < |t|
    ensures r.None? <==> Find(t, base).None? && forall i :: 0 <= i < |blocks| ==> Find(t, blocks[i]).None?
    decreases |blocks|
  {
    if blocks == [] then Find(t, base)
    else
      var n := |blocks| - 1;
      match Find(t, blocks[n])
      case Some(i) => Some(i)
      case None => LastKnown(t, base, blocks[..n])
  }

  /** The nodes that a vote confirms: from its start, child by child, as far as the tree goes. */
  function Path(t: Tree, start: nat, blocks: seq<BlockId>): (p: seq<nat>)
    requires start < |t|
    ensures p != [] && p[0] == start
    ensures forall k :: 0 <= k < |p| ==> p[k] < |t|
    ensures forall k :: 0 < k < |p| ==> p[k] > 0 && t[p[k]].parent == p[k - 1]
    decreases |blocks|
  {
    if blocks == [] then [start]
    else match Child(t, start, blocks[0])
      case None => [start]
      case Some(c) => [start] + Path(t, c, blocks[1..])
  }

  // ----- Ancestry -----

  /** `a` lies on the branch from the root to `b`, `b` included. */
  predicate IsAncestor(t: Tree, a: nat, b: nat)
    requires Valid(t) && b < |t|
    decreases b
  {
    a == b || (b > 0 && IsAncestor(t, a, t[b].parent))
  }

  /** One of the two lies on the branch of the other. */
  predicate SameBranch(t: Tree, a: nat, b: nat)
    requires Valid(t) && a < |t| && b < |t|
  {
    IsAncestor(t, a, b) || IsAncestor(t, b, a)
  }

  /** The nodes a vote confirms lie on one branch. */
  lemma {:induction false} PathIsBranch(t: Tree, p: seq<nat>, i: nat, j: nat)
    requires Valid(t) && i <= j < |p|
    requires forall k :: 0 <= k < |p| ==> p[k] < |t|
    requires forall k :: 0 < k < |p| ==> p[k] > 0 && t[p[k]].parent == p[k - 1]
    ensures IsAncestor(t, p[i], p[j])
    decreases j
  {
    if i < j { PathIsBranch(t, p, i, j - 1); }
  }

  /** Every confirmed block is named in the vote. */
  lemma {:induction false} PathIsNamed(t: Tree, start: nat, blocks: seq<BlockId>, k: nat)
    requires start < |t| && k < |Path(t, start, blocks)|
    ensures t[Path(t, start, blocks)[k]].id == t[start].id || t[Path(t, start, blocks)[k]].id in blocks
    decreases |blocks|
  {
    if k > 0 {
      var c := Child(t, start, blocks[0]).value;
      PathIsNamed(t, c, blocks[1..], k - 1);
      assert Path(t, start, blocks)[k] == Path(t, c, blocks[1..])[k - 1];
    }
  }

  lemma {:induction false} StartIsNamed(t: Tree, base: BlockId, blocks: seq<BlockId>)
    requires StartOf(t, base, blocks).Some?
    ensures var (i, rest) := StartOf(t, base, blocks).value;
      && (t[i].id == base || t[i].id in blocks)
      && forall b :: b in rest ==> b in blocks
    decreases |blocks|
  {
    if Find(t, base).None? { StartIsNamed(t, blocks[0], blocks[1..]); }
  }

  // ----- Confirming -----

  /** The tree with a vote of `key` recorded at every node of `path`. */
  function Confirm(t: Tree, path: seq<nat>, key: Key, vote: Vote): (r: Tree)
    ensures |r| == |t|
    ensures forall i :: 0 <= i < |t| ==>
      r[i] == if i in path then t[i].(confirmations := t[i].confirmations[key := vote]) else t[i]
  {
    seq(|t|, i requires 0 <= i < |t| =>
      if i in path then t[i].(confirmations := t[i].confirmations[key := vote]) else t[i])
  }

  /** Only confirmations differ. */
  ghost predicate SameShape(t: Tree, r: Tree) {
    |t| == |r| && forall i :: 0 <= i < |t| ==>
      t[i].id == r[i].id && t[i].parent == r[i].parent && t[i].producers == r[i].producers
  }

  lemma {:induction false} SameShapeAncestor(t: Tree, r: Tree, a: nat, b: nat)
    requires Valid(t) && Valid(r) && SameShape(t, r) && b < |t|
    ensures IsAncestor(t, a, b) <==> IsAncestor(r, a, b)
    decreases b
  {
    if a != b && b > 0 { SameShapeAncestor(t, r, a, t[b].parent); }
  }

  /** `k` is the last position on the path with the most confirmations. */
  ghost predicate IsMostConfirmed(t: Tree, path: seq<nat>, k: nat)
    requires forall i :: 0 <= i < |path| ==> path[i] < |t|
  {
    && k < |path|
    && (forall i :: 0 <= i < k ==> |t[path[i]].confirmations| <= |t[path[k]].confirmations|)
    && (forall i :: k < i < |path| ==> |t[path[i]].confirmations| < |t[path[k]].confirmations|)
  }

  /** The position on the path whose node `_add_confirmations` returns. */
  function MostConfirmed(t: Tree, path: seq<nat>): (k: nat)
    requires path != [] && forall i :: 0 <= i < |path| ==> path[i] < |t|
    ensures k < |path| && IsMostConfirmed(t, path, k)
    decreases |path|
  {
    var n := |path| - 1;
    if n == 0 then 0
    else
      var k := MostConfirmed(t, path[..n]);
      if |t[path[k]].confirmations| <= |t[path[n]].confirmations| then n else k
  }

  /** The nodes that the vote confirms in this tree. */
  function VotePath(t: Tree, vote: Vote): (path: seq<nat>)
    ensures path == [] <==> StartOf(t, vote.base, vote.blocks).None?
    ensures forall k :: 0 <= k < |path| ==> path[k] < |t|
    ensures forall k :: 0 < k < |path| ==> path[k] > 0 && t[path[k]].parent == path[k - 1]
  {
    match StartOf(t, vote.base, vote.blocks)
    case None => []
    case Some((start, rest)) => Path(t, start, rest)
  }

  /** A vote for which a last known block is found can always be recorded. */
  lemma KnownVoteIsInsertable(t: Tree, vote: Vote)
    ensures LastKnown(t, vote.base, vote.blocks).Some? <==> VotePath(t, vote) != []
  {
  }

  lemma VotePathIsNamed(t: Tree, vote: Vote, k: nat)
    requires k < |VotePath(t, vote)|
    ensures t[VotePath(t, vote)[k]].id == vote.base || t[VotePath(t, vote)[k]].id in vote.blocks
  {
    var (start, rest) := StartOf(t, vote.base, vote.blocks).value;
    StartIsNamed(t, vote.base, vote.blocks);
    PathIsNamed(t, start, rest, k);
  }

  lemma {:induction false} SameShapeFind(t: Tree, r: Tree, id: BlockId)
    requires SameShape(t, r)
    ensures Find(t, id) == Find(r, id)
    decreases |t|
  {
    if t != [] {
      var n := |t| - 1;
      assert t[..n][..] == t[..n];
      SameShapeFind(t[..n], r[..n], id);
    }
  }

  /** Where a vote is recorded does not depend on the votes recorded before. */
  lemma {:induction false} SameShapePath(t: Tree, r: Tree, vote: Vote)
    requires SameShape(t, r)
    ensures VotePath(t, vote) == VotePath(r, vote)
  {
    SameShapeStart(t, r, vote.base, vote.blocks);
    match StartOf(t, vote.base, vote.blocks)
    case None =>
    case Some((start, rest)) => SameShapeWalk(t, r, start, rest);
  }

  lemma {:induction false} SameShapeStart(t: Tree, r: Tree, base: BlockId, blocks: seq<BlockId>)
    requires SameShape(t, r)
    ensures StartOf(t, base, blocks) == StartOf(r, base, blocks)
    decreases |blocks|
  {
    SameShapeFind(t, r, base);
    if Find(t, base).None? && blocks != [] { SameShapeStart(t, r, blocks[0], blocks[1..]); }
  }

  lemma {:induction false} SameShapeChild(t: Tree, r: Tree, i: nat, id: BlockId)
    requires SameShape(t, r)
    ensures Child(t, i, id) == Child(r, i, id)
    decreases |t|
  {
    if t != [] { SameShapeChild(t[..|t| - 1], r[..|t| - 1], i, id); }
  }

  lemma {:induction false} SameShapeWalk(t: Tree, r: Tree, start: nat, blocks: seq<BlockId>)
    requires SameShape(t, r) && start < |t|
    ensures Path(t, start, blocks) == Path(r, start, blocks)
    decreases |blocks|
  {
    if blocks != [] {
      SameShapeChild(t, r, start, blocks[0]);
      match Child(t, start, blocks[0])
      case None =>
      case Some(c) => SameShapeWalk(t, r, c, blocks[1..]);
    }
  }

  // ----- Branches and growth -----

  /** `get_branch`: the blocks above the root up to node `i`, oldest first. */
  function Branch(t: Tree, i: nat): (blocks: seq<BlockId>)
    requires Valid(t) && i < |t|
    decreases i
  {
    if i == 0 then [] else Branch(t, t[i].parent) + [t[i].id]
  }

  lemma {:induction false} FindIsUnique(t: Tree, i: nat)
    requires i < |t| && forall j :: 0 <= j < |t| && t[j].id == t[i].id ==> j == i
    ensures Find(t, t[i].id) == Some(i)
  {
    assert Find(t, t[i].id).Some?;
  }

  lemma {:induction false} ChildIsUnique(t: Tree, i: nat)
    requires Valid(t) && 0 < i < |t|
    ensures Child(t, t[i].parent, t[i].id) == Some(i)
  {
    assert Child(t, t[i].parent, t[i].id).Some?;
  }

  lemma PathCons(t: Tree, start: nat, blocks: seq<BlockId>, c: nat)
    requires start < |t| && blocks != [] && Child(t, start, blocks[0]) == Some(c)
    ensures Path(t, start, blocks) == [start] + Path(t, c, blocks[1..])
  {
  }

  /** A path that uses all its blocks goes on to the child that holds one block more. */
  lemma {:induction false} PathExtends(t: Tree, start: nat, blocks: seq<BlockId>, b: BlockId, last: nat, c: nat)
    requires start < |t|
    requires var p := Path(t, start, blocks); |p| == |blocks| + 1 && p[|blocks|] == last
    requires Child(t, last, b) == Some(c)
    ensures Path(t, start, blocks + [b]) == Path(t, start, blocks) + [c]
    decreases |blocks|
  {
    var all := blocks + [b];
    if blocks == [] {
      assert all[1..] == [];
      assert Path(t, c, []) == [c];
    } else {
      var next := Child(t, start, blocks[0]).value;
      PathCons(t, start, blocks, next);
      assert Path(t, next, blocks[1..])[|blocks| - 1] == last;
      PathExtends(t, next, blocks[1..], b, last, c);
      assert all[0] == blocks[0] && all[1..] == blocks[1..] + [b];
      PathExtendsStep(t, start, blocks, all, next, c);
    }
  }

  lemma {:induction false} PathExtendsStep(
    t: Tree, start: nat, blocks: seq<BlockId>, all: seq<BlockId>, next: nat, c: nat)
    requires start < |t| && blocks != [] && all != [] && all[0] == blocks[0]
    requires Child(t, start, blocks[0]) == Some(next)
    requires Path(t, next, all[1..]) == Path(t, next, blocks[1..]) + [c]
    ensures Path(t, start, all) == Path(t, start, blocks) + [c]
  {
    var rest := Path(t, next, blocks[1..]);
    PathCons(t, start, blocks, next);
    PathCons(t, start, all, next);
    assert [start] + (rest + [c]) == ([start] + rest) + [c];
  }

  /** Voting for the branch of a node confirms the path from the root to that node, all of it. */
  lemma {:induction false} BranchRoundTrip(t: Tree, i: nat)
    requires Valid(t) && i < |t|
    ensures var p := Path(t, 0, Branch(t, i));
      |p| == |Branch(t, i)| + 1 && p[|p| - 1] == i
    decreases i
  {
    if i > 0 {
      var q := t[i].parent;
      BranchRoundTrip(t, q);
      ChildIsUnique(t, i);
      PathExtends(t, 0, Branch(t, q), t[i].id, q, i);
    }
  }

  /** So the nodes on that path are exactly the ancestors of the node; a vote takes it if the root is found. */
  lemma {:induction false} BranchConfirmsAncestors(t: Tree, i: nat, a: nat)
    requires Valid(t) && i < |t|
    ensures a in Path(t, 0, Branch(t, i)) <==> IsAncestor(t, a, i)
    ensures Find(t, t[0].id) == Some(0) ==> VotePath(t, Vote(t[0].id, Branch(t, i))) == Path(t, 0, Branch(t, i))
    decreases i
  {
    BranchRoundTrip(t, i);
    if i > 0 {
      var q := t[i].parent;
      BranchRoundTrip(t, q);
      ChildIsUnique(t, i);
      PathExtends(t, 0, Branch(t, q), t[i].id, q, i);
      BranchConfirmsAncestors(t, q, a);
    }
  }

  /** `insert` of one accepted block on top of its predecessor. */
  function Insert(t: Tree, prev: BlockId, id: BlockId, producers: set<Key>): (r: Tree)
    ensures t <= r
  {
    match Find(t, prev)
    case None => t
    case Some(i) => if Child(t, i, id).Some? then t else t + [Node(id, i, map[], producers)]
  }

  /**
   An accepted block on a known predecessor is a child of it afterwards, and is found. If it was not a child
   before, it is a new last node with its producers and no votes; otherwise, or if the predecessor is not
   known, nothing changes.
   */
  lemma {:induction false} InsertedExactly(t: Tree, prev: BlockId, id: BlockId, producers: set<Key>)
    requires Valid(t)
    ensures var r := Insert(t, prev, id, producers);
      match Find(t, prev)
      case None => r == t
      case Some(i) =>
        && Child(r, i, id).Some? && Find(r, id).Some?
        && (Child(t, i, id).Some? ==> r == t)
        && (Child(t, i, id).None? ==>
              && |r| == |t| + 1 && t <= r && Child(r, i, id) == Some(|t|) && Find(r, id) == Some(|t|)
              && r[|t|].producers == producers && r[|t|].confirmations == map[])
  {
    var r := Insert(t, prev, id, producers);
    match Find(t, prev)
    case None =>
    case Some(i) =>
      if Child(t, i, id).None? { assert r[..|t|] == t; }
      if Find(r, id).None? { assert false; }
  }

  lemma {:induction false} PrefixBranch(t: Tree, r: Tree, i: nat)
    requires Valid(t) && Valid(r) && t <= r && i < |t|
    ensures Branch(t, i) == Branch(r, i)
    decreases i
  {
    assert t[i] == r[i];
    if i > 0 { PrefixBranch(t, r, t[i].parent); }
  }

  /** From then on a vote for the branch of the predecessor and the block on top of it ends at the block. */
  lemma {:induction false} InsertedIsVotable(t: Tree, prev: BlockId, id: BlockId, producers: set<Key>, i: nat)
    requires Valid(t) && Find(t, prev) == Some(i)
    ensures var r := Insert(t, prev, id, producers);
      var p := Path(r, 0, Branch(t, i) + [id]);
      Valid(r) && |p| == |Branch(t, i)| + 2 && Child(r, i, id) == Some(p[|p| - 1]) && p[|p| - 2] == i
  {
    var r := Insert(t, prev, id, producers);
    InsertedExactly(t, prev, id, producers);
    assert Valid(r);
    PrefixBranch(t, r, i);
    BranchRoundTrip(r, i);
    PathExtends(r, 0, Branch(r, i), id, i, Child(r, i, id).value);
  }

  /** A vote confirms the longest stretch of its blocks that are children of one another in the tree. */
  lemma {:induction false} PathIsLongest(t: Tree, start: nat, blocks: seq<BlockId>)
    requires start < |t|
    ensures var p := Path(t, start, blocks); var m := |p| - 1;
      && m <= |blocks| && (forall k :: 0 < k <= m ==> t[p[k]].id == blocks[k - 1])
      && (m < |blocks| ==> Child(t, p[m], blocks[m]).None?)
    decreases |blocks|
  {
    if blocks != [] {
      match Child(t, start, blocks[0])
      case None =>
      case Some(c) =>
        PathIsLongest(t, c, blocks[1..]);
        var p, q := Path(t, start, blocks), Path(t, c, blocks[1..]);
        assert p == [start] + q;
        forall k | 0 < k < |p| ensures t[p[k]].id == blocks[k - 1] {
          if k > 1 { assert p[k] == q[k - 1] && blocks[1..][k - 2] == blocks[k - 1]; }
        }
    }
  }

  /** A vote starts at its base if that is known, otherwise at the first of its blocks that is. */
  lemma {:induction false} StartsAtFirstKnown(t: Tree, base: BlockId, blocks: seq<BlockId>, k: nat)
    requires k <= |blocks| && Find(t, ([base] + blocks)[k]).Some?
    requires forall i :: 0 <= i < k ==> Find(t, ([base] + blocks)[i]).None?
    ensures StartOf(t, base, blocks) == Some((Find(t, ([base] + blocks)[k]).value, blocks[k..]))
    decreases k
  {
    if k == 0 {
      assert blocks[0..] == blocks;
    } else {
      assert ([base] + blocks)[0] == base;
      forall i | 0 <= i < k ensures ([blocks[0]] + blocks[1..])[i] == ([base] + blocks)[i + 1] {}
      StartsAtFirstKnown(t, blocks[0], blocks[1..], k - 1);
      assert ([blocks[0]] + blocks[1..])[k - 1] == ([base] + blocks)[k] && blocks[1..][k - 1..] == blocks[k..];
    }
  }

  /** It is checked against the last of its blocks that is known. */
  lemma {:induction false} ChecksLastKnown(t: Tree, base: BlockId, blocks: seq<BlockId>, k: nat)
    requires k <= |blocks| && Find(t, ([base] + blocks)[k]).Some?
    requires forall i :: k < i <= |blocks| ==> Find(t, ([base] + blocks)[i]).None?
    ensures LastKnown(t, base, blocks) == Find(t, ([base] + blocks)[k])
    decreases |blocks|
  {
    if k < |blocks| {
      var n := |blocks| - 1;
      assert ([base] + blocks)[n + 1] == blocks[n];
      assert [base] + blocks[..n] == ([base] + blocks)[..n + 1];
      ChecksLastKnown(t, base, blocks[..n], k);
    }
  }

  lemma {:induction false} PrefixAncestor(t: Tree, r: Tree, a: nat, b: nat)
    requires Valid(t) && Valid(r) && t <= r && b < |t|
    ensures IsAncestor(t, a, b) <==> IsAncestor(r, a, b)
    decreases b
  {
    assert t[b] == r[b];
    if a != b && b > 0 { PrefixAncestor(t, r, a, t[b].parent); }
  }
}
