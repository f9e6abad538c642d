/**
 Which superfluous swap annotations the walk over a reflection catches: a swap that it turns down is
 never needed, but it accepts some that are not needed either.
 */
module ReflectionSwaps {
  import opened Sequences
  import opened ReflectionOrder

  /** The reflection is faithful without the swap of `x` as well. */
  ghost predicate Unneeded(F: seq<Field>, R: seq<Field>, S: set<Field>, I: set<Field>, x: Field) {
    x in S && Faithful(F, R, S - {x}, I)
  }

  // ----- What is caught is not needed -----

  lemma {:induction false} WithoutDistinct(s: seq<Field>, drop: set<Field>)
    requires Distinct(s)
    ensures Distinct(Without(s, drop))
  {
    if s != [] {
      var n := |s| - 1;
      WithoutDistinct(s[..n], drop);
      WithoutMembers(s[..n], drop, s[n]);
    }
  }

  lemma {:induction false} WithoutAbsent(s: seq<Field>, drop: set<Field>, x: Field)
    requires x !in s
    ensures Without(s, drop - {x}) == Without(s, drop)
  {
    if s != [] { WithoutAbsent(s[..|s| - 1], drop, x); }
  }

  /** What is kept around a dropped field, and what is kept if that field is kept too. */
  lemma WithoutAround(s: seq<Field>, i: nat, drop: set<Field>)
    requires Distinct(s) && i < |s| && s[i] in drop
    ensures Without(s, drop) == Without(s[..i], drop) + Without(s[i + 1..], drop)
    ensures Without(s, drop - {s[i]}) == Without(s[..i], drop) + [s[i]] + Without(s[i + 1..], drop)
  {
    var x, pre, suf := s[i], s[..i], s[i + 1..];
    assert s == pre + [x] + suf;
    WithoutConcat(pre + [x], suf, drop);
    WithoutConcat(pre, [x], drop);
    WithoutConcat(pre + [x], suf, drop - {x});
    WithoutConcat(pre, [x], drop - {x});
    WithoutAbsent(pre, drop, x);
    WithoutAbsent(suf, drop, x);
    assert [x][..0] == [];
  }

  /** Up to a field in its place the same fields are kept on both sides. */
  lemma SamePrefix(F: seq<Field>, R: seq<Field>, S: set<Field>, I: set<Field>, i: nat, i0: nat, j: nat)
    requires Distinct(F) && Faithful(F, R, S, I) && Fresh(F, R, S, i0, i, j)
    ensures Without(F[..i], I + S) == Without(R[..j], S)
  {
    var D, W := I + S, Without(R, S);
    assert F[..i][..i0] == F[..i0];
    WithoutDroppedRest(F[..i], i0, D);
    if j > 0 {
      var q := R[j - 1];
      assert q in Elems(R);
      WithoutStep(F, i0 - 1, D);
      WithoutStep(R, j - 1, S);
      WithoutPrefix(F, i0 - 1, D);
      WithoutPrefix(R, j - 1, S);
      WithoutDistinct(F, D);
    }
  }

  /** A swap that the walk turns down is not needed. */
  lemma CaughtSwapIsUnneeded(F: seq<Field>, R: seq<Field>, S: set<Field>, I: set<Field>, i: nat, i0: nat, j: nat)
    requires Distinct(F) && Distinct(R) && Faithful(F, R, S, I) && RedundantSwap(F, R, S, i, i0, j)
    ensures Unneeded(F, R, S, I, R[j])
  {
    var x := R[j];
    assert x in Elems(R);
    SamePrefix(F, R, S, I, i, i0, j);
    WithoutAround(F, i, I + S);
    WithoutAround(R, j, S);
    var P := Without(R[..j], S);
    assert Without(F, I + S)[|P|..] == Without(F[i + 1..], I + S);
    assert Without(R, S)[|P|..] == Without(R[j + 1..], S);
    assert I + S - {x} == I + (S - {x});
  }

  // ----- What is not needed may be accepted -----

  /** After an exchange that one swap explains, a swap of the field that follows is accepted as well. */
  lemma SwapAfterSwap(pre: seq<Field>, x: Field, y: Field, z: Field, suf: seq<Field>)
    requires Distinct(pre + [x, y, z] + suf) && Distinct(pre + [y, x, z] + suf)
    ensures var F, R := pre + [x, y, z] + suf, pre + [y, x, z] + suf;
      Check(F, R, {x, z}, {}) == Accepted && Unneeded(F, R, {x, z}, {}, z)
  {
    var F, R, n := pre + [x, y, z] + suf, pre + [y, x, z] + suf, |pre|;
    assert F == pre + [x, y] + ([z] + suf) && R == pre + [y, x] + ([z] + suf);
    assert F[n] == x && F[n + 1] == y && F[n + 2] == z && R[n] == y && R[n + 1] == x && R[n + 2] == z;
    ExchangedAndMore(pre, x, y, [z] + suf, {x, z});
    ExchangedAndMore(pre, x, y, [z] + suf, {x});
    assert {x, z} - {z} == {x};
    AcceptedExactly(F, R, {x, z}, {});
  }

  lemma ExchangedAndMore(pre: seq<Field>, x: Field, y: Field, suf: seq<Field>, S: set<Field>)
    requires x in S && S <= Elems([x] + suf)
    ensures Faithful(pre + [x, y] + suf, pre + [y, x] + suf, S, {})
  {
    WithoutConcat(pre + [x, y], suf, S);
    WithoutConcat(pre, [x, y], S);
    WithoutConcat(pre + [y, x], suf, S);
    WithoutConcat(pre, [y, x], S);
    WithoutPair(x, y, S);
    assert {} + S == S;
  }

  /** A swap of a field that stands right after an ignored one is accepted. */
  lemma SwapAfterIgnore(pre: seq<Field>, g: Field, x: Field, suf: seq<Field>)
    requires Distinct(pre + [g, x] + suf)
    ensures var F, R := pre + [g, x] + suf, pre + [x] + suf;
      Check(F, R, {x}, {g}) == Accepted && Unneeded(F, R, {x}, {g}, x)
  {
    var F, R, n := pre + [g, x] + suf, pre + [x] + suf, |pre|;
    assert F[n] == g && F[n + 1] == x && R[n] == x;
    IgnoredIsFaithful(pre, g, x, suf, {x});
    IgnoredIsFaithful(pre, g, x, suf, {});
    assert {x} - {x} == {};
    AcceptedExactly(F, R, {x}, {g});
  }

  lemma IgnoredIsFaithful(pre: seq<Field>, g: Field, x: Field, suf: seq<Field>, S: set<Field>)
    requires Distinct(pre + [g, x] + suf) && S <= {x}
    ensures Distinct(pre + [x] + suf) && Faithful(pre + [g, x] + suf, pre + [x] + suf, S, {g})
  {
    var F, R, n := pre + [g, x] + suf, pre + [x] + suf, |pre|;
    var rest := [x] + suf;
    assert F[n] == g && F[..n] == pre && F[n + 1..] == rest && R == pre + rest;
    OneLess(F, n, R);
    WithoutAround(F, n, {g} + S);
    WithoutConcat(pre, rest, {g} + S);
    WithoutAbsent(R, {g} + S, g);
    assert {g} + S - {g} == S;
  }

  lemma OneLess(F: seq<Field>, n: nat, R: seq<Field>)
    requires Distinct(F) && n < |F| && R == F[..n] + F[n + 1..]
    ensures Distinct(R) && Elems(R) == Elems(F) - {F[n]} && F[n] !in R
  {
    forall k | 0 <= k < |R| ensures R[k] == if k < n then F[k] else F[k + 1] {}
    forall k | 0 <= k < |F| && k != n ensures F[k] in R {
      assert F[k] == R[if k < n then k else k - 1];
    }
  }
}
