/** Distinctness, element sets and order-preserving removal, for any element type. */
module Sequences {

  ghost predicate Distinct<T>(s: seq<T>) {
    forall i, j :: 0 <= i < j < |s| ==> s[i] != s[j]
  }

  function Elems<T(==)>(s: seq<T>): set<T> {
    set x | x in s
  }

  /** `s` without the elements of `drop`, in the same order. */
  function Without<T(==)>(s: seq<T>, drop: set<T>): seq<T> {
    if s == [] then []
    else
      var init, last := Without(s[..|s| - 1], drop), s[|s| - 1];
      if last in drop then init else init + [last]
  }

  lemma ElemsStep<T>(s: seq<T>, k: nat)
    requires k < |s|
    ensures Elems(s[..k + 1]) == Elems(s[..k]) + {s[k]}
    ensures Distinct(s) ==> s[k] !in Elems(s[..k])
  {
    assert s[..k + 1] == s[..k] + [s[k]];
  }

  lemma WithoutStep<T>(s: seq<T>, k: nat, drop: set<T>)
    requires k < |s|
    ensures Without(s[..k + 1], drop) == Without(s[..k], drop) + if s[k] in drop then [] else [s[k]]
  {
    assert s[..k + 1][..k] == s[..k];
  }

  lemma {:induction false} WithoutMembers<T>(s: seq<T>, drop: set<T>, x: T)
    ensures x in Without(s, drop) <==> x in s && x !in drop
  {
    if s != [] {
      var n := |s| - 1;
      WithoutMembers(s[..n], drop, x);
      assert s == s[..n] + [s[n]];
    }
  }

  /** What is kept of a prefix is a prefix of what is kept. */
  lemma {:induction false} WithoutPrefix<T>(s: seq<T>, k: nat, drop: set<T>)
    requires k <= |s|
    ensures Without(s[..k], drop) <= Without(s, drop)
    ensures k < |s| && s[k] !in drop ==>
      |Without(s[..k], drop)| < |Without(s, drop)| && Without(s, drop)[|Without(s[..k], drop)|] == s[k]
    decreases |s| - k
  {
    if k == |s| {
      assert s[..k] == s;
    } else {
      WithoutStep(s, k, drop);
      WithoutPrefix(s, k + 1, drop);
    }
  }

  /** If nothing more is kept, everything after the prefix is dropped. */
  lemma WithoutRest<T>(s: seq<T>, k: nat, drop: set<T>)
    requires k <= |s| && Without(s[..k], drop) == Without(s, drop)
    ensures forall j :: k <= j < |s| ==> s[j] in drop
  {
    forall j | k <= j < |s|
      ensures s[j] in drop
    {
      WithoutPrefix(s, j, drop);
      assert s[..j][..k] == s[..k];
      WithoutPrefix(s[..j], k, drop);
    }
  }

  /** If everything after the prefix is dropped, nothing more is kept. */
  lemma {:induction false} WithoutDroppedRest<T>(s: seq<T>, k: nat, drop: set<T>)
    requires k <= |s| && forall j :: k <= j < |s| ==> s[j] in drop
    ensures Without(s[..k], drop) == Without(s, drop)
    decreases |s| - k
  {
    if k == |s| {
      assert s[..k] == s;
    } else {
      WithoutStep(s, k, drop);
      WithoutDroppedRest(s, k + 1, drop);
    }
  }

  lemma {:induction false} WithoutConcat<T>(s: seq<T>, t: seq<T>, drop: set<T>)
    ensures Without(s + t, drop) == Without(s, drop) + Without(t, drop)
  {
    if t == [] {
      assert s + t == s;
    } else {
      var n := |t| - 1;
      assert (s + t)[..|s + t| - 1] == s + t[..n];
      WithoutConcat(s, t[..n], drop);
    }
  }
}
