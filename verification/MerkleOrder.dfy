/**
 The shape of a Merkle root, seen by hashing with concatenation in place of the digest function: the
 leaves stand in their order from the left, and all of them at the same depth.
 */
module MerkleOrder {
  import opened Bits
  import opened Merkle
  import opened TreeDepth

  function Join<T>(a: seq<T>, b: seq<T>): (r: seq<T>) {
    a + b
  }

  function Flatten<T>(ids: seq<seq<T>>): (r: seq<T>) {
    if ids == [] then [] else Flatten(ids[..|ids| - 1]) + ids[|ids| - 1]
  }

  ghost predicate AllOfLength<T>(ids: seq<seq<T>>, n: nat) {
    forall i :: 0 <= i < |ids| ==> |ids[i]| == n
  }

  lemma {:induction false} FlattenPairs<T>(ids: seq<seq<T>>)
    requires |ids| % 2 == 0
    ensures Flatten(Pairs(Join, ids)) == Flatten(ids)
  {
    if ids != [] {
      var n := |ids| - 2;
      var x, y := ids[n], ids[n + 1];
      assert ids == ids[..n] + [x, y];
      PairsAppend(Join, ids[..n], x, y);
      FlattenPairs(ids[..n]);
      assert ids[..n + 1][..n] == ids[..n];
      var pairs := Pairs(Join, ids);
      assert pairs[..|pairs| - 1] == Pairs(Join, ids[..n]);
    }
  }

  /** One level keeps the leaves in order, with the last node repeated behind them if their number is odd. */
  lemma {:induction false} FlattenLevel<T>(ids: seq<seq<T>>, n: nat)
    requires ids != [] && AllOfLength(ids, n)
    ensures Flatten(ids) <= Flatten(LevelUp(Join, ids)) && AllOfLength(LevelUp(Join, ids), 2 * n)
  {
    var full := if |ids| % 2 == 1 then ids + [ids[|ids| - 1]] else ids;
    FlattenPairs(full);
    if |ids| % 2 == 1 { assert full[..|full| - 1] == ids; }
  }

  lemma TwiceAsLong(n: nat, k: nat)
    ensures (2 * n) * Pow2(k) == n * Pow2(k + 1)
  {
    assert Pow2(k + 1) == 2 * Pow2(k);
  }

  lemma {:induction false} LeavesInOrder<T>(ids: seq<seq<T>>, n: nat)
    requires ids != [] && AllOfLength(ids, n)
    ensures Flatten(ids) <= Root(Join, ids) && |Root(Join, ids)| == n * Pow2(Levels(|ids|))
    decreases |ids|
  {
    if |ids| == 1 {
      assert ids[..0] == [];
      assert Flatten(ids) == [] + ids[0];
    } else {
      var up := LevelUp(Join, ids);
      FlattenLevel(ids, n);
      LeavesInOrder(up, 2 * n);
      TwiceAsLong(n, Levels(|up|));
    }
  }
}
