/**
 What the confirmations recorded in the tree of blocks always satisfy during a round, and
 why two blocks that both hold a supermajority are on one branch.
 */
module Confirmations {
  import opened PrefixTree

  /** Strictly more than two thirds, in the integer arithmetic of the thresholds. */
  predicate Supermajority(count: nat, total: nat) {
    count >= Quorum(total)
  }

  /** The least number that is more than two thirds. */
  function Quorum(total: nat): (q: nat)
    ensures 3 * q > 2 * total && 3 * (q - 1) <= 2 * total
  {
    2 * total / 3 + 1
  }

  /** The threshold in integer division is the exact fraction. */
  lemma MoreThanTwoThirds(count: nat, total: nat)
    ensures Supermajority(count, total) <==> 3 * count > 2 * total
  {
  }

  /** The branch voted for holds the block. */
  predicate Names(vote: Vote, id: BlockId) {
    id == vote.base || id in vote.blocks
  }

  /** Every confirmation comes from a key that has prevoted, for a vote that names the block. */
  ghost predicate Recorded(t: Tree, prevoted: set<Key>) {
    forall i, k {:trigger k in t[i].confirmations} :: 0 <= i < |t| && k in t[i].confirmations ==>
      && k in prevoted
      && Names(t[i].confirmations[k], t[i].id)
  }

  /** A key confirms blocks of one branch only. */
  ghost predicate OneBranch(t: Tree)
    requires Valid(t)
  {
    forall i, j, k :: 0 <= i < |t| && 0 <= j < |t| && k in t[i].confirmations && k in t[j].confirmations ==>
      SameBranch(t, i, j)
  }

  ghost predicate Inv(t: Tree, prevoted: set<Key>) {
    Valid(t) && Recorded(t, prevoted) && OneBranch(t)
  }

  /** Recording the vote of a key that has not prevoted yet. */
  function RecordVote(t: Tree, vote: Vote, key: Key): (r: Tree)
    ensures SameShape(t, r)
  {
    Confirm(t, VotePath(t, vote), key, vote)
  }

  lemma PathOnOneBranch(t: Tree, p: seq<nat>, a: nat, b: nat)
    requires Valid(t) && a in p && b in p
    requires forall k :: 0 <= k < |p| ==> p[k] < |t|
    requires forall k :: 0 < k < |p| ==> p[k] > 0 && t[p[k]].parent == p[k - 1]
    ensures SameBranch(t, a, b)
  {
    var i :| 0 <= i < |p| && p[i] == a;
    var j :| 0 <= j < |p| && p[j] == b;
    if i <= j { PathIsBranch(t, p, i, j); } else { PathIsBranch(t, p, j, i); }
  }

  lemma SameShapeBranch(t: Tree, r: Tree, a: nat, b: nat)
    requires Valid(t) && Valid(r) && SameShape(t, r) && a < |t| && b < |t|
    ensures SameBranch(t, a, b) <==> SameBranch(r, a, b)
  {
    SameShapeAncestor(t, r, a, b);
    SameShapeAncestor(t, r, b, a);
  }

  lemma SameShapeValid(t: Tree, r: Tree)
    requires Valid(t) && SameShape(t, r)
    ensures Valid(r)
  {
  }

  lemma VoteKeepsRecorded(t: Tree, prevoted: set<Key>, vote: Vote, key: Key)
    requires Recorded(t, prevoted)
    ensures Recorded(RecordVote(t, vote, key), prevoted + {key})
  {
    var p, r := VotePath(t, vote), RecordVote(t, vote, key);
    forall i, k | 0 <= i < |r| && k in r[i].confirmations
      ensures k in prevoted + {key}
      ensures Names(r[i].confirmations[k], r[i].id)
    {
      if i in p && k == key {
        var n :| 0 <= n < |p| && p[n] == i;
        VotePathIsNamed(t, vote, n);
      } else {
        assert k in t[i].confirmations;
      }
    }
  }

  lemma VoteKeepsOneBranch(t: Tree, prevoted: set<Key>, vote: Vote, key: Key)
    requires Valid(t) && Recorded(t, prevoted) && OneBranch(t) && key !in prevoted
    ensures Valid(RecordVote(t, vote, key)) && OneBranch(RecordVote(t, vote, key))
  {
    var p, r := VotePath(t, vote), RecordVote(t, vote, key);
    SameShapeValid(t, r);
    forall i, j, k | 0 <= i < |r| && 0 <= j < |r| && k in r[i].confirmations && k in r[j].confirmations
      ensures SameBranch(r, i, j)
    {
      SameShapeBranch(t, r, i, j);
      if k == key {
        assert k !in t[i].confirmations && k !in t[j].confirmations;
        PathOnOneBranch(t, p, i, j);
      } else {
        assert k in t[i].confirmations && k in t[j].confirmations;
      }
    }
  }

  /** A first vote keeps the invariant. */
  lemma VoteKeepsInv(t: Tree, prevoted: set<Key>, vote: Vote, key: Key)
    requires Inv(t, prevoted) && key !in prevoted
    ensures Inv(RecordVote(t, vote, key), prevoted + {key})
  {
    VoteKeepsRecorded(t, prevoted, vote, key);
    VoteKeepsOneBranch(t, prevoted, vote, key);
  }

  lemma InsertKeepsValid(t: Tree, prev: BlockId, id: BlockId, producers: set<Key>)
    requires Valid(t)
    ensures Valid(Insert(t, prev, id, producers))
  {
  }

  lemma InsertKeepsRecorded(t: Tree, prevoted: set<Key>, prev: BlockId, id: BlockId, producers: set<Key>)
    requires Recorded(t, prevoted)
    ensures Recorded(Insert(t, prev, id, producers), prevoted)
  {
  }

  /** So does an accepted block. */
  lemma InsertKeepsInv(t: Tree, prevoted: set<Key>, prev: BlockId, id: BlockId, producers: set<Key>)
    requires Inv(t, prevoted)
    ensures Inv(Insert(t, prev, id, producers), prevoted)
  {
    var r := Insert(t, prev, id, producers);
    InsertKeepsValid(t, prev, id, producers);
    InsertKeepsRecorded(t, prevoted, prev, id, producers);
    forall i, j, k | 0 <= i < |r| && 0 <= j < |r| && k in r[i].confirmations && k in r[j].confirmations
      ensures SameBranch(r, i, j)
    {
      assert i < |t| && j < |t| && r[i] == t[i] && r[j] == t[j];
      PrefixAncestor(t, r, i, j);
      PrefixAncestor(t, r, j, i);
    }
  }

  // ----- Supermajorities meet -----

  lemma {:induction false} IntersectionSize(a: set<Key>, b: set<Key>, all: set<Key>)
    requires a <= all && b <= all
    ensures |a * b| + |all| >= |a| + |b|
  {
    assert |a + b| + |a * b| == |a| + |b|;
    SubsetSize(a + b, all);
  }

  lemma {:induction false} SubsetSize(a: set<Key>, b: set<Key>)
    requires a <= b
    ensures |a| <= |b|
  {
    if a != {} {
      var x :| x in a;
      SubsetSize(a - {x}, b - {x});
    }
  }

  /** Two supermajorities share a key outside any set of fewer than a third of the keys. */
  lemma SupermajoritiesMeet(a: set<Key>, b: set<Key>, all: set<Key>, faulty: set<Key>) returns (k: Key)
    requires a <= all && b <= all && 3 * |faulty| < |all|
    requires Supermajority(|a|, |all|) && Supermajority(|b|, |all|)
    ensures k in a && k in b && k !in faulty
  {
    IntersectionSize(a, b, all);
    if a * b <= faulty {
      SubsetSize(a * b, faulty);
      assert false;
    }
    k :| k in a * b && k !in faulty;
  }

  /** Two blocks of one tree confirmed by supermajorities of one set of producers are on one branch. */
  lemma SupermajoritiesAreOnOneBranch(t: Tree, prevoted: set<Key>, i: nat, j: nat, all: set<Key>)
    requires Inv(t, prevoted) && i < |t| && j < |t|
    requires t[i].confirmations.Keys <= all && t[j].confirmations.Keys <= all
    requires Supermajority(|t[i].confirmations|, |all|) && Supermajority(|t[j].confirmations|, |all|)
    ensures SameBranch(t, i, j)
  {
    SubsetSize(t[i].confirmations.Keys, all);
    assert |t[i].confirmations.Keys| == |t[i].confirmations|;
    assert |t[j].confirmations.Keys| == |t[j].confirmations|;
    var k := SupermajoritiesMeet(t[i].confirmations.Keys, t[j].confirmations.Keys, all, {});
  }
}
