/**
 The batch Merkle root of `merkle.cpp`. The digest function on a canonical pair is a
 parameter `h`; nothing is assumed about it.
 */
module Merkle {

  /** The pairs of `ids` that are complete, hashed. */
  function Pairs<D>(h: (D, D) -> D, ids: seq<D>): (r: seq<D>)
    ensures |r| == |ids| / 2
  {
    seq(|ids| / 2, i requires 0 <= i < |ids| / 2 => h(ids[2 * i], ids[2 * i + 1]))
  }

  /** One level up: an odd last digest is paired with itself. */
  function LevelUp<D>(h: (D, D) -> D, ids: seq<D>): (r: seq<D>)
    ensures |r| == (|ids| + 1) / 2
  {
    Pairs(h, if |ids| % 2 == 1 then ids + [ids[|ids| - 1]] else ids)
  }

  /** The root of a nonempty list of digests. */
  function Root<D>(h: (D, D) -> D, ids: seq<D>): D
    requires ids != []
    decreases |ids|
  {
    if |ids| == 1 then ids[0] else Root(h, LevelUp(h, ids))
  }

  /** A complete pair appended to an even list adds its hash at the end. */
  lemma PairsAppend<D>(h: (D, D) -> D, ids: seq<D>, x: D, y: D)
    requires |ids| % 2 == 0
    ensures Pairs(h, ids + [x, y]) == Pairs(h, ids) + [h(x, y)]
  {
  }

  /** An incomplete pair at the end does not count. */
  lemma PairsIgnoreOdd<D>(h: (D, D) -> D, ids: seq<D>, x: D)
    requires |ids| % 2 == 0
    ensures Pairs(h, ids + [x]) == Pairs(h, ids)
  {
  }

  /** One level, computed in place in the front of the vector, which is then cut to half its size. */
  method HashPairs<D>(h: (D, D) -> D, full: seq<D>) returns (ids: seq<D>)
    requires |full| % 2 == 0
    ensures ids == Pairs(h, full)
  {
    ids := full;
    var i := 0;
    while i < |ids| / 2
      invariant 0 <= i <= |ids| / 2 && |ids| == |full|
      invariant forall j :: 0 <= j < i ==> ids[j] == Pairs(h, full)[j]
      invariant ids[i..] == full[i..]
    {
      assert ids[2 * i] == ids[i..][i] == full[2 * i];
      assert ids[2 * i + 1] == ids[i..][i + 1] == full[2 * i + 1];
      ids := ids[i := h(ids[2 * i], ids[2 * i + 1])];
      i := i + 1;
    }
    ids := ids[..|ids| / 2];
  }

  /** `merkle`, with `none` for the default digest of an empty list. */
  method ComputeRoot<D>(h: (D, D) -> D, none: D, input: seq<D>) returns (root: D)
    ensures root == if input == [] then none else Root(h, input)
  {
    if |input| == 0 {
      return none;
    }
    var ids := input;
    while |ids| > 1
      invariant ids != [] && Root(h, ids) == Root(h, input)
      decreases |ids|
    {
      var full := ids;
      if |full| % 2 == 1 {
        full := full + [full[|full| - 1]];
      }
      ids := HashPairs(h, full);
    }
    root := ids[0];
  }
}
