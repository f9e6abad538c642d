/** What the walk over a reflection reports for each single mistake. */
module ReflectionDiagnosis {
  import opened Sequences
  import opened ReflectionOrder

  /** Past a common beginning without annotations, both cursors stand behind it and nothing has been met. */
  lemma {:induction false} CommonStart(F: seq<Field>, R: seq<Field>, S: set<Field>, I: set<Field>, k: nat, n: nat)
    requires k <= n <= |F| && n <= |R| && F[..n] == R[..n] && forall i :: 0 <= i < n ==> F[i] !in S + I
    ensures Run(F, R, State(k, k, S, I, {}, {}, {})) == Run(F, R, State(n, n, S, I, {}, {}, {}))
    decreases n - k
  {
    if k < n {
      assert F[k] == F[..n][k] == R[k];
      assert Step(F, R, State(k, k, S, I, {}, {}, {})) == Go(State(k + 1, k + 1, S, I, {}, {}, {}));
      CommonStart(F, R, S, I, k + 1, n);
    }
  }

  /** The length of the longest common beginning. */
  function Common(F: seq<Field>, R: seq<Field>): (n: nat)
    ensures n <= |F| && n <= |R| && F[..n] == R[..n]
    ensures n < |F| && n < |R| ==> F[n] != R[n]
  {
    if F == [] || R == [] || F[0] != R[0] then 0
    else
      var n := Common(F[1..], R[1..]);
      assert F[..n + 1] == [F[0]] + F[1..][..n] && R[..n + 1] == [R[0]] + R[1..][..n];
      n + 1
  }

  /**
   Without annotations: the lists are the same, or the reflection goes on after the last class field, or
   there is a mismatch.
   */
  lemma NoAnnotations(F: seq<Field>, R: seq<Field>)
    ensures Check(F, R, {}, {}) ==
      if F == R then Accepted else if F <= R then Rejected(UnknownFields) else Rejected(Mismatch)
  {
    var n := Common(F, R);
    CommonStart(F, R, {}, {}, 0, n);
    if n == |F| {
      assert F == R[..n];
      if n == |R| { assert R[..n] == R; } else { assert R[n] !in State(n, n, {}, {}, {}, {}, {}).back; }
    } else {
      assert F[..n] == R[..n] && !(F <= R);
    }
  }

  /** In a reflection that needs none, one annotation is reported, for what it is. */
  lemma OneAnnotation(F: seq<Field>, x: Field)
    requires Distinct(F)
    ensures Check(F, F, {}, {x}) == Rejected(if x in F then IgnoreInOrder else ErroneousIgnores)
    ensures Check(F, F, {x}, {}) == Rejected(if x in F then SwapInOrder else ErroneousSwaps)
  {
    if x in F {
      var n :| 0 <= n < |F| && F[n] == x;
      CommonStart(F, F, {}, {x}, 0, n);
      CommonStart(F, F, {x}, {}, 0, n);
    } else {
      CommonStart(F, F, {}, {x}, 0, |F|);
      CommonStart(F, F, {x}, {}, 0, |F|);
      assert State(|F|, |F|, {}, {x}, {}, {}, {}).ignored != {};
      assert State(|F|, |F|, {x}, {}, {}, {}, {}).swapped != {};
    }
  }

  /** Of several mistakes erroneous ignores are reported first, then unknown fields, then erroneous swaps. */
  lemma FirstComplaint(F: seq<Field>, x: Field, y: Field, z: Field)
    requires x !in F && y !in F && z !in F && x != z && x != y
    ensures Check(F, F + [z], {x}, {y}) == Rejected(ErroneousIgnores)
    ensures Check(F, F + [z], {x}, {}) == Rejected(UnknownFields)
  {
    var R, n := F + [z], |F|;
    assert F[..n] == F == R[..n];
    CommonStart(F, R, {x}, {y}, 0, n);
    CommonStart(F, R, {x}, {}, 0, n);
    assert State(n, n, {x}, {y}, {}, {}, {}).ignored != {};
    assert R[n] !in State(n, n, {x}, {}, {}, {}, {}).back;
  }

  /** A class field that is not reflected: missed, unless it is ignored; a swap does not excuse it. */
  lemma NotReflected(pre: seq<Field>, x: Field, suf: seq<Field>)
    requires Distinct(pre + [x] + suf)
    ensures var F, R := pre + [x] + suf, pre + suf;
      && Check(F, R, {}, {}) == Rejected(Mismatch)
      && Check(F, R, {}, {x}) == Accepted
      && Check(F, R, {x}, {}) == Rejected(SwapNotReflected)
  {
    var F, R, n := pre + [x] + suf, pre + suf, |pre|;
    assert |F| > |R|;
    NoAnnotations(F, R);
    OneMore(pre, x, suf);
    LeftOut(F, R, x, n);
  }

  lemma OneMore(pre: seq<Field>, x: Field, suf: seq<Field>)
    requires Distinct(pre + [x] + suf)
    ensures var long, short, n := pre + [x] + suf, pre + suf, |pre|;
      && |long| == |short| + 1 && long[n] == x && long[..n] == short[..n] == pre && x !in short
      && forall i :: n <= i < |short| ==> short[i] == long[i + 1]
  {
    var long := pre + [x] + suf;
    assert forall i :: 0 <= i < |suf| ==> suf[i] == long[|pre| + 1 + i];
  }

  lemma LeftOut(F: seq<Field>, R: seq<Field>, x: Field, n: nat)
    requires n <= |R| && |F| == |R| + 1 && F[n] == x && F[..n] == R[..n] && x !in R
    requires forall i :: n <= i < |R| ==> R[i] == F[i + 1]
    ensures Check(F, R, {}, {x}) == Accepted && Check(F, R, {x}, {}) == Rejected(SwapNotReflected)
  {
    assert forall i :: 0 <= i < n ==> F[i] == R[..n][i];
    CommonStart(F, R, {x}, {}, 0, n);
    CommonStart(F, R, {}, {x}, 0, n);
    var st := State(n, n, {}, {x}, {}, {}, {});
    assert Step(F, R, st) == Go(State(n + 1, n, {}, {}, {}, {}, {x}));
    OneBehind(F, R, x, n);
  }

  /** After an ignored field the reflection is one behind. */
  lemma {:induction false} OneBehind(F: seq<Field>, R: seq<Field>, x: Field, k: nat)
    requires k <= |R| && |F| == |R| + 1 && x !in R[k..] && forall i :: k <= i < |R| ==> R[i] == F[i + 1]
    ensures Run(F, R, State(k + 1, k, {}, {}, {}, {}, {x})) == Accepted
    decreases |R| - k
  {
    var st := State(k + 1, k, {}, {}, {}, {}, {x});
    if k == |R| {
      assert Close(R, st) == Accepted;
    } else {
      assert R[k] == R[k..][0] != x;
      assert R[k + 1..] == R[k..][1..];
      assert Step(F, R, st) == Go(State(k + 2, k + 1, {}, {}, {}, {}, {x}));
      OneBehind(F, R, x, k + 1);
    }
  }

  /** The identifier of a chainbase object, left out of the reflection, is accepted exactly when it is ignored. */
  lemma ChainbaseId(pre: seq<Field>, suf: seq<Field>, ignoreId: bool)
    requires Distinct(pre + [Field("id")] + suf)
    ensures var F, R := pre + [Field("id")] + suf, pre + suf;
      Check(F, R, {}, if ignoreId then {Field("id")} else {}) == if ignoreId then Accepted else Rejected(Mismatch)
  {
    NotReflected(pre, Field("id"), suf);
  }

  /** A reflected field that the class does not have: swapped, it is reported once the class fields are used up. */
  lemma NotInClass(pre: seq<Field>, x: Field, suf: seq<Field>)
    requires Distinct(pre + [x] + suf)
    ensures var F, R := pre + suf, pre + [x] + suf;
      Check(F, R, {x}, {}) == Rejected(if suf == [] then UnknownFields else SwapNotInClass)
  {
    OneMore(pre, x, suf);
    PutIn(pre + suf, pre + [x] + suf, x, |pre|);
  }

  lemma PutIn(F: seq<Field>, R: seq<Field>, x: Field, n: nat)
    requires n <= |F| && |R| == |F| + 1 && R[n] == x && F[..n] == R[..n] && x !in F
    requires forall i :: n <= i < |F| ==> F[i] == R[i + 1]
    ensures Check(F, R, {x}, {}) == Rejected(if n == |F| then UnknownFields else SwapNotInClass)
  {
    assert forall i :: 0 <= i < n ==> F[i] == F[..n][i];
    CommonStart(F, R, {x}, {}, 0, n);
    var st := State(n, n, {x}, {}, {}, {}, {});
    if n == |F| {
      assert R[n] !in st.back;
    } else {
      assert Step(F, R, st) == Go(State(n, n + 1, {}, {}, {}, {x}, {}));
      OneAhead(F, R, x, n);
    }
  }

  /** After a swapped field met in the reflection only, the reflection is one ahead. */
  lemma {:induction false} OneAhead(F: seq<Field>, R: seq<Field>, x: Field, k: nat)
    requires k <= |F| && |R| == |F| + 1 && x !in F[k..] && forall i :: k <= i < |F| ==> F[i] == R[i + 1]
    ensures Run(F, R, State(k, k + 1, {}, {}, {}, {x}, {})) == Rejected(SwapNotInClass)
    decreases |F| - k
  {
    var st := State(k, k + 1, {}, {}, {}, {x}, {});
    if k == |F| {
      assert st.fwd != {} && R[st.r..] == [];
    } else {
      assert F[k] == F[k..][0] != x;
      assert F[k + 1..] == F[k..][1..];
      assert Step(F, R, st) == Go(State(k + 1, k + 2, {}, {}, {}, {x}, {}));
      OneAhead(F, R, x, k + 1);
    }
  }

  /** An ignored field that turns up later in the reflection, before the class fields are used up. */
  lemma IgnoredTurnsUp(pre: seq<Field>, x: Field, y: Field, z: Field, suf: seq<Field>)
    requires Distinct(pre + [x, y, z] + suf)
    ensures Check(pre + [x, y, z] + suf, pre + [y, x, z] + suf, {}, {x}) == Rejected(IgnoredIsReflected)
  {
    var F, R, n := pre + [x, y, z] + suf, pre + [y, x, z] + suf, |pre|;
    assert F[n] == x && F[n + 1] == y && F[n + 2] == z && R[n] == y && R[n + 1] == x;
    assert F[..n] == pre == R[..n] && x !in pre;
    CommonStart(F, R, {}, {x}, 0, n);
    var first, second, third := State(n, n, {}, {x}, {}, {}, {}), State(n + 1, n, {}, {}, {}, {}, {x}),
      State(n + 2, n + 1, {}, {}, {}, {}, {x});
    assert Step(F, R, first) == Go(second);
    assert Step(F, R, second) == Go(third);
    assert Step(F, R, third) == Stop(IgnoredIsReflected);
    assert Run(F, R, second) == Run(F, R, third);
  }

  /** A swapped field met in the class is always provided by the reflection: that complaint is never raised. */
  lemma {:induction false} AlwaysProvided(F: seq<Field>, R: seq<Field>, S: set<Field>, I: set<Field>, st: State)
    requires Ok(F, R, S, I) && Inv(F, R, S, I, st)
    ensures Run(F, R, st) != Rejected(SwapNeverProvided)
    decreases |F| - st.f + |R| - st.r
  {
    if st.f == |F| {
      assert R == R[..st.r] + R[st.r..];
      assert st.back <= Elems(R[st.r..]);
    } else if Step(F, R, st).Go? {
      StepInv(F, R, S, I, st);
      AlwaysProvided(F, R, S, I, Step(F, R, st).state);
    }
  }
}
