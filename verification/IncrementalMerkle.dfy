/**
 The incremental Merkle tree of `incremental_merkle.hpp`: appending one digest at a time,
 keeping only the roots of complete subtrees, always yields the batch root of all digests
 appended so far.
 */
module IncrementalMerkle {
  import opened Bits
  import opened Merkle
  import opened TreeDepth

  /**
   The roots of the maximal complete subtrees over `nodes`, smallest first: one for each
   one-bit in the number of nodes.
   */
  function CompleteRoots<D>(h: (D, D) -> D, nodes: seq<D>): seq<D>
    decreases |nodes|
  {
    if nodes == [] then []
    else if |nodes| % 2 == 1 then [nodes[|nodes| - 1]] + CompleteRoots(h, Pairs(h, nodes))
    else CompleteRoots(h, Pairs(h, nodes))
  }

  /** What the tree stores: the complete roots, and the root of the whole unless it is among them. */
  function ActiveNodes<D>(h: (D, D) -> D, leaves: seq<D>): seq<D> {
    if leaves == [] then []
    else
      var roots := CompleteRoots(h, leaves);
      roots + if |roots| == 1 then [] else [Root(h, leaves)]
  }

  // ----- One level of the collapse -----

  /** A left node is paired with itself one level up. */
  lemma LevelUpLeft<D>(h: (D, D) -> D, nodes: seq<D>, top: D)
    requires |nodes| % 2 == 0
    ensures LevelUp(h, nodes + [top]) == Pairs(h, nodes) + [h(top, top)]
    ensures Pairs(h, nodes + [top]) == Pairs(h, nodes)
  {
    var all := nodes + [top];
    assert all + [all[|all| - 1]] == nodes + [top, top];
    PairsAppend(h, nodes, top, top);
    PairsIgnoreOdd(h, nodes, top);
  }

  /** A right node is paired with the complete root before it. */
  lemma LevelUpRight<D>(h: (D, D) -> D, nodes: seq<D>, top: D)
    requires |nodes| % 2 == 1
    ensures LevelUp(h, nodes + [top]) == Pairs(h, nodes) + [h(nodes[|nodes| - 1], top)]
    ensures Pairs(h, nodes + [top]) == Pairs(h, nodes) + [h(nodes[|nodes| - 1], top)]
  {
    var n := |nodes| - 1;
    assert nodes == nodes[..n] + [nodes[n]];
    assert nodes + [top] == nodes[..n] + [nodes[n], top];
    PairsAppend(h, nodes[..n], nodes[n], top);
    PairsIgnoreOdd(h, nodes[..n], nodes[n]);
  }

  lemma CompleteRootsLeft<D>(h: (D, D) -> D, nodes: seq<D>, top: D)
    requires |nodes| % 2 == 0
    ensures CompleteRoots(h, nodes + [top]) == [top] + CompleteRoots(h, nodes)
  {
    LevelUpLeft(h, nodes, top);
    assert nodes == [] ==> Pairs(h, nodes) == [];
  }

  /**
   The state of the collapse at some level: `nodes` are the complete nodes there, `top` the
   node being carried up, `rest` the active nodes not read yet, and `all` the leaves with the
   new one.
   */
  ghost predicate Collapsing<D>(h: (D, D) -> D, all: seq<D>, nodes: seq<D>, top: D, partial: bool,
                                updated: seq<D>, rest: seq<D>)
    requires all != []
  {
    && Root(h, nodes + [top]) == Root(h, all)
    && Carried(CompleteRoots(h, nodes), CompleteRoots(h, nodes + [top]), CompleteRoots(h, all), partial, updated, rest)
  }

  /** What has been stored so far, of the complete roots `target` in the end. */
  ghost predicate Carried<D>(roots: seq<D>, whole: seq<D>, target: seq<D>, partial: bool,
                             updated: seq<D>, rest: seq<D>)
  {
    && roots <= rest
    && if partial then updated + roots == target && |target| > 1 else updated == [] && whole == target
  }

  lemma CarryLeft<D>(roots: seq<D>, whole: seq<D>, later: seq<D>, target: seq<D>, top: D, partial: bool,
                     updated: seq<D>, rest: seq<D>)
    requires Carried(roots, whole, target, partial, updated, rest) && roots != [] && whole == [top] + roots
    ensures Carried(roots, later, target, true, if partial then updated else updated + [top], rest)
  {
    assert [] + [top] == [top];
  }

  lemma {:induction false} CollapseLeft<D>(h: (D, D) -> D, all: seq<D>, nodes: seq<D>, top: D, partial: bool,
                                           updated: seq<D>, rest: seq<D>)
    requires all != [] && Collapsing(h, all, nodes, top, partial, updated, rest)
    requires nodes != [] && |nodes| % 2 == 0
    ensures Collapsing(h, all, Pairs(h, nodes), h(top, top), true, if partial then updated else updated + [top], rest)
  {
    RootLeft(h, nodes, top);
    EvenRoots(h, nodes);
    CompleteRootsLeft(h, nodes, top);
    CompleteRootsExist(h, nodes);
    CarryLeft(CompleteRoots(h, nodes), CompleteRoots(h, nodes + [top]),
              CompleteRoots(h, Pairs(h, nodes) + [h(top, top)]), CompleteRoots(h, all), top, partial, updated, rest);
  }

  lemma {:induction false} EvenRoots<D>(h: (D, D) -> D, nodes: seq<D>)
    requires |nodes| % 2 == 0
    ensures CompleteRoots(h, Pairs(h, nodes)) == CompleteRoots(h, nodes)
  {
    assert nodes == [] ==> Pairs(h, nodes) == [];
  }

  lemma {:induction false} RootLeft<D>(h: (D, D) -> D, nodes: seq<D>, top: D)
    requires nodes != [] && |nodes| % 2 == 0
    ensures Root(h, nodes + [top]) == Root(h, Pairs(h, nodes) + [h(top, top)])
  {
    LevelUpLeft(h, nodes, top);
  }

  lemma CollapseRight<D>(h: (D, D) -> D, all: seq<D>, nodes: seq<D>, top: D, partial: bool,
                         updated: seq<D>, rest: seq<D>)
    requires all != [] && Collapsing(h, all, nodes, top, partial, updated, rest)
    requires |nodes| % 2 == 1
    ensures rest != []
    ensures Collapsing(h, all, Pairs(h, nodes), h(rest[0], top), partial,
                       if partial then updated + [rest[0]] else updated, rest[1..])
  {
    var left := nodes[|nodes| - 1];
    LevelUpRight(h, nodes, top);
    assert CompleteRoots(h, nodes) == [left] + CompleteRoots(h, Pairs(h, nodes));
    assert rest[0] == CompleteRoots(h, nodes)[0] == left;
    assert Root(h, nodes + [top]) == Root(h, Pairs(h, nodes) + [h(left, top)]);
    if partial {
      var above := CompleteRoots(h, Pairs(h, nodes));
      assert updated + ([left] + above) == (updated + [left]) + above;
    }
  }

  /** One level, on the left or on the right, with the active nodes read from position `next` on. */
  lemma {:induction false} CollapseLevel<D>(h: (D, D) -> D, all: seq<D>, nodes: seq<D>, top: D, partial: bool,
                                            updated: seq<D>, active: seq<D>, next: nat)
    requires all != [] && nodes != [] && next <= |active|
    requires Collapsing(h, all, nodes, top, partial, updated, active[next..])
    ensures |nodes| % 2 == 0 ==>
      Collapsing(h, all, Pairs(h, nodes), h(top, top), true,
                 if partial then updated else updated + [top], active[next..])
    ensures |nodes| % 2 == 1 ==>
      && next < |active|
      && Collapsing(h, all, Pairs(h, nodes), h(active[next], top), partial,
                    if partial then updated + [active[next]] else updated, active[next + 1..])
  {
    if |nodes| % 2 == 0 {
      CollapseLeft(h, all, nodes, top, partial, updated, active[next..]);
    } else {
      CollapseRight(h, all, nodes, top, partial, updated, active[next..]);
      assert active[next..][0] == active[next] && active[next..][1..] == active[next + 1..];
    }
  }

  /** At the top the updated list with the root appended is what the tree must store. */
  lemma CollapseDone<D>(h: (D, D) -> D, all: seq<D>, top: D, partial: bool, updated: seq<D>, rest: seq<D>)
    requires all != [] && Collapsing(h, all, [], top, partial, updated, rest)
    ensures updated + [top] == ActiveNodes(h, all) && top == Root(h, all)
  {
    assert [] + [top] == [top];
    CompleteRootsLeft(h, [], top);
  }

  lemma CompleteRootsExist<D>(h: (D, D) -> D, nodes: seq<D>)
    requires nodes != []
    ensures CompleteRoots(h, nodes) != []
    decreases |nodes|
  {
    if |nodes| % 2 == 0 { CompleteRootsExist(h, Pairs(h, nodes)); }
  }

  lemma CollapseStarts<D>(h: (D, D) -> D, leaves: seq<D>, digest: D)
    ensures Collapsing(h, leaves + [digest], leaves, digest, false, [], ActiveNodes(h, leaves)[0..])
  {
    assert ActiveNodes(h, leaves)[0..] == ActiveNodes(h, leaves);
  }

  method CalculateMaxDepth(n: nat) returns (depth: nat)
    requires n > 0 && BitLength(n) <= 64
    ensures depth == Levels(n) + 1
  {
    MaxDepthIsLevels(n);
    depth := MaxDepth(n);
  }

  /** One level up the depth is one less, until only the node carried up is left. */
  lemma {:induction false} OneLevelLess(n: nat)
    ensures n == 0 <==> Levels(n + 1) == 0
    ensures n > 0 ==> Levels(n / 2 + 1) == Levels(n + 1) - 1
  {
  }

  /** The loop of `append`: from the stored nodes and a new digest to the nodes to store next. */
  method Collapse<D>(h: (D, D) -> D, active: seq<D>, count: nat, digest: D, ghost leaves: seq<D>)
    returns (updated: seq<D>)
    requires count == |leaves| && active == ActiveNodes(h, leaves) && BitLength(count + 1) <= 64
    ensures updated == ActiveNodes(h, leaves + [digest])
    ensures updated != [] && updated[|updated| - 1] == Root(h, leaves + [digest])
  {
    var partial := false;
    var maxDepth := CalculateMaxDepth(count + 1);
    var currentDepth := maxDepth - 1;
    var index, top := count, digest;
    var next := 0;
    updated := [];
    ghost var nodes, all := leaves, leaves + [digest];
    CollapseStarts(h, leaves, digest);
    while currentDepth > 0
      invariant index == |nodes| && currentDepth == Levels(index + 1) && next <= |active|
      invariant Collapsing(h, all, nodes, top, partial, updated, active[next..])
      decreases currentDepth
    {
      OneLevelLess(index);
      CollapseLevel(h, all, nodes, top, partial, updated, active, next);
      if index % 2 == 0 {
        if !partial {
          updated := updated + [top];
        }
        top := h(top, top);
        partial := true;
      } else {
        var left := active[next];
        next := next + 1;
        if partial {
          updated := updated + [left];
        }
        top := h(left, top);
      }
      nodes := Pairs(h, nodes);
      currentDepth := currentDepth - 1;
      index := index / 2;
    }
    OneLevelLess(index);
    assert nodes == [];
    CollapseDone(h, all, top, partial, updated, active[next..]);
    updated := updated + [top];
  }

  class Tree<D> {
    const h: (D, D) -> D
    var nodeCount: nat
    var activeNodes: seq<D>
    ghost var leaves: seq<D>

    ghost predicate Valid()
      reads this
    {
      nodeCount == |leaves| && activeNodes == ActiveNodes(h, leaves)
    }

    constructor (h: (D, D) -> D)
      ensures Valid() && leaves == [] && this.h == h
    {
      this.h := h;
      nodeCount, activeNodes, leaves := 0, [], [];
    }

    /** `append`, as long as the number of leaves fits 64 bits. */
    method Append(digest: D) returns (root: D)
      requires Valid() && BitLength(nodeCount + 1) <= 64
      modifies this
      ensures Valid() && leaves == old(leaves) + [digest]
      ensures root == Root(h, leaves)
    {
      activeNodes := Collapse(h, activeNodes, nodeCount, digest, leaves);
      nodeCount := nodeCount + 1;
      leaves := leaves + [digest];
      root := activeNodes[|activeNodes| - 1];
    }

    /** `get_root`, with `none` for the default digest. */
    method GetRoot(none: D) returns (root: D)
      requires Valid()
      ensures root == if leaves == [] then none else Root(h, leaves)
    {
      if nodeCount > 0 {
        SingleCompleteRoot(h, leaves);
        CompleteRootsExist(h, leaves);
        root := activeNodes[|activeNodes| - 1];
      } else {
        root := none;
      }
    }
  }

  /** A single complete root is the root of everything. */
  lemma {:induction false} SingleCompleteRoot<D>(h: (D, D) -> D, nodes: seq<D>)
    requires nodes != []
    ensures |CompleteRoots(h, nodes)| == 1 ==> CompleteRoots(h, nodes)[0] == Root(h, nodes)
    decreases |nodes|
  {
    if |nodes| % 2 == 0 {
      SingleCompleteRoot(h, Pairs(h, nodes));
    } else if |nodes| > 1 {
      CompleteRootsExist(h, Pairs(h, nodes));
    }
  }
}
