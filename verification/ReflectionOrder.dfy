/**
 The two-cursor walk with which `validate_reflection.py` compares the fields of a class
 with the fields of its FC_REFLECT macro, as a state machine over sets, and what
 acceptance by it means.
 */
module ReflectionOrder {
  import opened Sequences

  datatype Field = Field(name: string)

  /** The assertions of the walk, in the order of the source. */
  datatype Complaint =
    | SwapNotReflected     // indicates swapping a field that is not reflected
    | SwapInOrder          // indicates swapping a field that is in the correct order
    | IgnoredIsReflected   // ignored a field that turns up in the reflection
    | IgnoreInOrder        // indicates ignoring a field that is in the correct order
    | Mismatch             // neither swapped nor ignored, and out of order
    | ErroneousIgnores     // ignored fields that the class does not have
    | UnknownFields        // reflected fields that the class does not have
    | ErroneousSwaps       // swapped fields met on neither side
    | SwapNeverProvided    // swapped fields met in the class only
    | SwapNotInClass       // swapped fields met in the reflection only

  datatype Outcome = Accepted | Rejected(complaint: Complaint)

  /**
   The cursors and work lists: `f` and `r` index the class fields and the reflected fields;
   `swapped` and `ignored` are the annotations not met yet; `back` and `fwd` hold swapped
   fields met in the class only and in the reflection only; `met` holds the ignored fields
   passed so far.
   */
  datatype State = State(f: nat, r: nat, swapped: set<Field>, ignored: set<Field>,
                         back: set<Field>, fwd: set<Field>, met: set<Field>)

  datatype Next = Go(state: State) | Stop(complaint: Complaint)

  /** One iteration of the main loop. */
  function Step(F: seq<Field>, R: seq<Field>, st: State): Next
    requires st.f < |F| && st.r <= |R|
  {
    var x := F[st.f];
    if x in st.swapped then
      if x !in R then Stop(SwapNotReflected)
      else if st.r < |R| && R[st.r] == x then Stop(SwapInOrder)
      else Go(st.(f := st.f + 1, swapped := st.swapped - {x}, back := st.back + {x}))
    else if st.r < |R| && R[st.r] in st.swapped then
      Go(st.(r := st.r + 1, swapped := st.swapped - {R[st.r]}, fwd := st.fwd + {R[st.r]}))
    else if st.r < |R| && R[st.r] in st.met then Stop(IgnoredIsReflected)
    else if x in st.ignored then
      if st.r < |R| && R[st.r] == x then Stop(IgnoreInOrder)
      else Go(st.(f := st.f + 1, ignored := st.ignored - {x}, met := st.met + {x}))
    else if st.r < |R| && R[st.r] in st.back then Go(st.(r := st.r + 1, back := st.back - {R[st.r]}))
    else if x in st.fwd then Go(st.(f := st.f + 1, fwd := st.fwd - {x}))
    else if st.r < |R| && R[st.r] == x then Go(st.(f := st.f + 1, r := st.r + 1))
    else Stop(Mismatch)
  }

  /** The checks after the class fields are exhausted. */
  function Close(R: seq<Field>, st: State): Outcome
    requires st.r <= |R|
  {
    if st.ignored != {} then Rejected(ErroneousIgnores)
    else if exists j :: st.r <= j < |R| && R[j] !in st.back then Rejected(UnknownFields)
    else if st.swapped != {} then Rejected(ErroneousSwaps)
    else if st.back - Elems(R[st.r..]) != {} then Rejected(SwapNeverProvided)
    else if st.fwd != {} then Rejected(SwapNotInClass)
    else Accepted
  }

  function Run(F: seq<Field>, R: seq<Field>, st: State): Outcome
    requires st.f <= |F| && st.r <= |R|
    decreases |F| - st.f + |R| - st.r
  {
    if st.f == |F| then Close(R, st)
    else
      match Step(F, R, st)
      case Stop(c) => Rejected(c)
      case Go(next) => Run(F, R, next)
  }

  function Init(S: set<Field>, I: set<Field>): State {
    State(0, 0, S, I, {}, {}, {})
  }

  /** The verdict on class fields `F`, reflected fields `R`, swap annotations `S` and ignore annotations `I`. */
  function Check(F: seq<Field>, R: seq<Field>, S: set<Field>, I: set<Field>): Outcome {
    Run(F, R, Init(S, I))
  }

  // ----- What acceptance should mean -----

  /**
   The reflected fields are the class fields without the ignored ones, in class order once
   the swapped fields are set aside on both sides; every annotation names a field it can apply to.
   */
  ghost predicate Faithful(F: seq<Field>, R: seq<Field>, S: set<Field>, I: set<Field>) {
    && I <= Elems(F)
    && Elems(R) == Elems(F) - I
    && S <= Elems(R)
    && Without(F, I + S) == Without(R, S)
  }

  /**
   The swapped field at `R[j]` stands in its place already: it follows a field that is not
   swapped (or comes first), and in the class only swapped fields that are reflected later
   lie between that same field (or the start) and it.
   */
  ghost predicate RedundantSwap(F: seq<Field>, R: seq<Field>, S: set<Field>, i: nat, i0: nat, j: nat) {
    && j < |R| && i0 <= i < |F| && F[i] == R[j] && R[j] in S
    && Fresh(F, R, S, i0, i, j)
  }

  /** Both cursors stand just after the same unswapped field, up to swapped fields not met yet. */
  ghost predicate Fresh(F: seq<Field>, R: seq<Field>, S: set<Field>, i0: nat, i: nat, j: nat) {
    && i0 <= i <= |F| && j <= |R|
    && (if j == 0 then i0 == 0 else R[j - 1] !in S && i0 > 0 && F[i0 - 1] == R[j - 1])
    && forall k :: i0 <= k < i ==> F[k] in S && F[k] !in R[..j]
  }

  ghost predicate HasRedundantSwap(F: seq<Field>, R: seq<Field>, S: set<Field>) {
    exists i, i0, j :: RedundantSwap(F, R, S, i, i0, j)
  }

  // ----- What every step keeps -----

  /** The work lists are determined by the annotations and by what the cursors have passed. */
  ghost predicate Inv(F: seq<Field>, R: seq<Field>, S: set<Field>, I: set<Field>, st: State) {
    && st.f <= |F| && st.r <= |R|
    && var fs, rs := Elems(F[..st.f]), Elems(R[..st.r]);
    && st.swapped == S - fs - rs
    && st.ignored == I - fs
    && st.met == I * fs
    && st.back == S * fs - rs
    && st.fwd == S * rs - fs
    && S * fs <= Elems(R)
    && Without(F[..st.f], I + S) == Without(R[..st.r], S)
  }

  ghost predicate Ok(F: seq<Field>, R: seq<Field>, S: set<Field>, I: set<Field>) {
    Distinct(F) && Distinct(R) && S !! I
  }

  lemma InitInv(F: seq<Field>, R: seq<Field>, S: set<Field>, I: set<Field>)
    ensures Inv(F, R, S, I, Init(S, I))
  {
    assert F[..0] == [] && R[..0] == [];
  }

  lemma StepInv(F: seq<Field>, R: seq<Field>, S: set<Field>, I: set<Field>, st: State)
    requires Ok(F, R, S, I) && Inv(F, R, S, I, st) && st.f < |F|
    requires Step(F, R, st).Go?
    ensures Inv(F, R, S, I, Step(F, R, st).state)
  {
    var next := Step(F, R, st).state;
    if next.r == st.r {
      ClassMoves(F, R, S, I, st, next);
    } else if next.f == st.f {
      ReflectionMoves(F, R, S, I, st, next);
    } else {
      BothMove(F, R, S, I, st, next);
    }
  }

  lemma ClassMoves(F: seq<Field>, R: seq<Field>, S: set<Field>, I: set<Field>, st: State, next: State)
    requires Ok(F, R, S, I) && Inv(F, R, S, I, st) && st.f < |F| && Step(F, R, st) == Go(next) && next.r == st.r
    ensures Inv(F, R, S, I, next)
  {
    ElemsStep(F, st.f);
    WithoutStep(F, st.f, I + S);
  }

  lemma ReflectionMoves(F: seq<Field>, R: seq<Field>, S: set<Field>, I: set<Field>, st: State, next: State)
    requires Ok(F, R, S, I) && Inv(F, R, S, I, st) && st.f < |F| && Step(F, R, st) == Go(next)
    requires next.f == st.f && next.r == st.r + 1
    ensures Inv(F, R, S, I, next)
  {
    ElemsStep(R, st.r);
    WithoutStep(R, st.r, S);
  }

  lemma BothMove(F: seq<Field>, R: seq<Field>, S: set<Field>, I: set<Field>, st: State, next: State)
    requires Ok(F, R, S, I) && Inv(F, R, S, I, st) && st.f < |F| && Step(F, R, st) == Go(next)
    requires next.f == st.f + 1 && next.r == st.r + 1
    ensures Inv(F, R, S, I, next)
  {
    ElemsStep(F, st.f);
    WithoutStep(F, st.f, I + S);
    ElemsStep(R, st.r);
    WithoutStep(R, st.r, S);
  }

  // ----- Acceptance is sound -----

  lemma AcceptedCloseIsFaithful(F: seq<Field>, R: seq<Field>, S: set<Field>, I: set<Field>, st: State)
    requires Ok(F, R, S, I) && Inv(F, R, S, I, st) && st.f == |F| && Close(R, st) == Accepted
    ensures Faithful(F, R, S, I)
  {
    assert F[..st.f] == F;
    assert R == R[..st.r] + R[st.r..];
    forall j | st.r <= j < |R|
      ensures R[j] in S
    {
      assert R[j] in st.back;
    }
    WithoutDroppedRest(R, st.r, S);
    forall x | x in I
      ensures x in Elems(F)
    {
      assert x !in st.ignored;
    }
    forall x | x in S
      ensures x in Elems(F)
    {
      assert x !in st.swapped && x !in st.fwd;
    }
    SameElements(F, R, S, I);
  }

  lemma SameElements(F: seq<Field>, R: seq<Field>, S: set<Field>, I: set<Field>)
    requires S !! I && S <= Elems(F) && S <= Elems(R) && Without(F, I + S) == Without(R, S)
    ensures Elems(R) == Elems(F) - I
  {
    forall x: Field
      ensures x in Elems(R) <==> x in Elems(F) && x !in I
    {
      WithoutMembers(F, I + S, x);
      WithoutMembers(R, S, x);
    }
  }

  lemma {:induction false} AcceptedRunIsFaithful(F: seq<Field>, R: seq<Field>, S: set<Field>, I: set<Field>, st: State)
    requires Ok(F, R, S, I) && Inv(F, R, S, I, st) && Run(F, R, st) == Accepted
    ensures Faithful(F, R, S, I)
    decreases |F| - st.f + |R| - st.r
  {
    if st.f == |F| {
      AcceptedCloseIsFaithful(F, R, S, I, st);
    } else {
      StepInv(F, R, S, I, st);
      AcceptedRunIsFaithful(F, R, S, I, Step(F, R, st).state);
    }
  }

  // ----- A faithful reflection can only be rejected for a redundant swap -----

  lemma FaithfulStep(F: seq<Field>, R: seq<Field>, S: set<Field>, I: set<Field>, st: State)
    requires Ok(F, R, S, I) && Inv(F, R, S, I, st) && st.f < |F| && Faithful(F, R, S, I)
    ensures Step(F, R, st).Go? || Step(F, R, st) == Stop(SwapInOrder)
  {
    WithoutPrefix(F, st.f, I + S);
    WithoutPrefix(R, st.r, S);
    ElemsStep(F, st.f);
    if st.r < |R| {
      ElemsStep(R, st.r);
      assert R[st.r] in Elems(R);
    } else {
      assert R[..st.r] == R;
    }
  }

  lemma FaithfulClose(F: seq<Field>, R: seq<Field>, S: set<Field>, I: set<Field>, st: State)
    requires Ok(F, R, S, I) && Inv(F, R, S, I, st) && st.f == |F| && Faithful(F, R, S, I)
    ensures Close(R, st) == Accepted
  {
    assert F[..st.f] == F;
    assert R == R[..st.r] + R[st.r..];
    WithoutRest(R, st.r, S);
    forall j | st.r <= j < |R|
      ensures R[j] in st.back
    {
      assert R[j] in Elems(R);
      assert R[j] !in R[..st.r];
    }
  }

  // ----- When the complaint about a redundant swap is raised -----

  /**
   At any moment the cursors are fresh, or the class cursor is not on a swapped field still
   to be met, or the reflection cursor is not.
   */
  ghost predicate FreshOrPast(F: seq<Field>, R: seq<Field>, S: set<Field>, st: State) {
    || (exists i0 :: Fresh(F, R, S, i0, st.f, st.r))
    || (st.f < |F| ==> F[st.f] !in st.swapped)
    || (st.r < |R| ==> R[st.r] !in st.swapped)
  }

  lemma StepFreshOrPast(F: seq<Field>, R: seq<Field>, S: set<Field>, I: set<Field>, st: State)
    requires Ok(F, R, S, I) && Inv(F, R, S, I, st) && st.f < |F| && FreshOrPast(F, R, S, st)
    requires Step(F, R, st).Go?
    ensures FreshOrPast(F, R, S, Step(F, R, st).state)
  {
    var next := Step(F, R, st).state;
    var x := F[st.f];
    if next.r == st.r && x in st.swapped {
      if i0 :| Fresh(F, R, S, i0, st.f, st.r) {
        assert Fresh(F, R, S, i0, next.f, next.r);
      }
    } else if next.f == st.f + 1 && next.r == st.r + 1 {
      ElemsStep(F, st.f);
      ElemsStep(R, st.r);
      assert Fresh(F, R, S, next.f, next.f, next.r);
    }
  }

  lemma {:induction false} FaithfulRun(F: seq<Field>, R: seq<Field>, S: set<Field>, I: set<Field>, st: State)
    requires Ok(F, R, S, I) && Inv(F, R, S, I, st) && FreshOrPast(F, R, S, st) && Faithful(F, R, S, I)
    ensures Run(F, R, st) == Accepted || (Run(F, R, st) == Rejected(SwapInOrder) && HasRedundantSwap(F, R, S))
    decreases |F| - st.f + |R| - st.r
  {
    if st.f == |F| {
      FaithfulClose(F, R, S, I, st);
    } else {
      FaithfulStep(F, R, S, I, st);
      if Step(F, R, st).Go? {
        StepInv(F, R, S, I, st);
        StepFreshOrPast(F, R, S, I, st);
        FaithfulRun(F, R, S, I, Step(F, R, st).state);
      } else {
        var i0 :| Fresh(F, R, S, i0, st.f, st.r);
        assert RedundantSwap(F, R, S, st.f, i0, st.r);
      }
    }
  }

  /** Before the last common unswapped field, or in the stretch of swapped fields that leads to the redundant one. */
  ghost predicate HeadingFor(F: seq<Field>, i: nat, i0: nat, j: nat, st: State) {
    (i0 <= st.f <= i && st.r == j) || st.f < i0
  }

  lemma RedundantStep(F: seq<Field>, R: seq<Field>, S: set<Field>, I: set<Field>, i: nat, i0: nat, j: nat, st: State)
    requires Ok(F, R, S, I) && Inv(F, R, S, I, st) && Faithful(F, R, S, I)
    requires RedundantSwap(F, R, S, i, i0, j) && HeadingFor(F, i, i0, j, st)
    ensures st.f < |F|
    ensures Step(F, R, st).Go? ==> HeadingFor(F, i, i0, j, Step(F, R, st).state)
  {
    ElemsStep(F, st.f);
    if st.f >= i0 {
      assert F[st.f] in S;
    } else if st.f == i0 - 1 {
      var q := F[i0 - 1];
      assert q == R[j - 1];
      assert q in Elems(R);
      if st.r < |R| { ElemsStep(R, st.r); }
    }
  }

  lemma {:induction false} RedundantRunIsRejected(F: seq<Field>, R: seq<Field>, S: set<Field>, I: set<Field>,
                                                  i: nat, i0: nat, j: nat, st: State)
    requires Ok(F, R, S, I) && Inv(F, R, S, I, st) && Faithful(F, R, S, I)
    requires RedundantSwap(F, R, S, i, i0, j) && HeadingFor(F, i, i0, j, st)
    ensures Run(F, R, st) != Accepted
    decreases |F| - st.f + |R| - st.r
  {
    RedundantStep(F, R, S, I, i, i0, j, st);
    if Step(F, R, st).Go? {
      StepInv(F, R, S, I, st);
      RedundantRunIsRejected(F, R, S, I, i, i0, j, Step(F, R, st).state);
    }
  }

  // ----- A field annotated both ways is never accepted -----

  /** Such a field stays in one of the work lists that must end up empty. */
  ghost predicate BothWays(F: seq<Field>, z: Field, st: State) {
    && st.f <= |F|
    && (z in F[..st.f] ==> z in st.ignored || z in st.fwd)
    && (z !in F[..st.f] ==> z in st.ignored && (z in st.swapped || z in st.fwd))
  }

  lemma {:induction false} BothWaysIsRejected(F: seq<Field>, R: seq<Field>, z: Field, st: State)
    requires Distinct(F) && BothWays(F, z, st) && st.r <= |R|
    ensures Run(F, R, st) != Accepted
    decreases |F| - st.f + |R| - st.r
  {
    if st.f < |F| && Step(F, R, st).Go? {
      ElemsStep(F, st.f);
      assert F[..st.f + 1] == F[..st.f] + [F[st.f]];
      BothWaysIsRejected(F, R, z, Step(F, R, st).state);
    }
  }

  // ----- The theorem -----

  /**
   The walk accepts exactly the faithful reflections without a redundant swap, whatever the
   annotations; and a faithful reflection is only ever turned down for a redundant swap.
   */
  lemma AcceptedExactly(F: seq<Field>, R: seq<Field>, S: set<Field>, I: set<Field>)
    requires Distinct(F) && Distinct(R)
    ensures Check(F, R, S, I) == Accepted <==> Faithful(F, R, S, I) && !HasRedundantSwap(F, R, S)
    ensures Faithful(F, R, S, I) && HasRedundantSwap(F, R, S) ==> Check(F, R, S, I) == Rejected(SwapInOrder)
  {
    var st := Init(S, I);
    if S !! I {
      InitInv(F, R, S, I);
      if Check(F, R, S, I) == Accepted {
        AcceptedRunIsFaithful(F, R, S, I, st);
      }
      if Faithful(F, R, S, I) {
        assert Fresh(F, R, S, 0, 0, 0);
        FaithfulRun(F, R, S, I, st);
        if i, i0, j :| RedundantSwap(F, R, S, i, i0, j) {
          RedundantRunIsRejected(F, R, S, I, i, i0, j, st);
        }
      }
    } else {
      var z :| z in S && z in I;
      assert F[..0] == [];
      BothWaysIsRejected(F, R, z, st);
    }
  }

  // ----- Two neighbours exchanged -----

  /**
   For two neighbouring fields reflected in the opposite order, naming either one as swapped
   is accepted; naming both or neither is not.
   */
  lemma ExchangedNeighbours(pre: seq<Field>, x: Field, y: Field, suf: seq<Field>)
    requires Distinct(pre + [x, y] + suf) && Distinct(pre + [y, x] + suf)
    ensures var F, R := pre + [x, y] + suf, pre + [y, x] + suf;
      && Check(F, R, {x}, {}) == Accepted
      && Check(F, R, {y}, {}) == Accepted
      && Check(F, R, {x, y}, {}) == Rejected(SwapInOrder)
      && Check(F, R, {}, {}) != Accepted
  {
    ExchangedOneSwap(pre, x, y, suf, x);
    ExchangedOneSwap(pre, x, y, suf, y);
    ExchangedBothSwapped(pre, x, y, suf);
    ExchangedNoneSwapped(pre, x, y, suf);
  }

  lemma ExchangedOneSwap(pre: seq<Field>, x: Field, y: Field, suf: seq<Field>, z: Field)
    requires Distinct(pre + [x, y] + suf) && Distinct(pre + [y, x] + suf) && (z == x || z == y)
    ensures Check(pre + [x, y] + suf, pre + [y, x] + suf, {z}, {}) == Accepted
  {
    var F, R, n := pre + [x, y] + suf, pre + [y, x] + suf, |pre|;
    assert F[n] == x && F[n + 1] == y && R[n] == y && R[n + 1] == x;
    ExchangedIsFaithful(pre, x, y, suf, {z});
    AcceptedExactly(F, R, {z}, {});
  }

  lemma ExchangedBothSwapped(pre: seq<Field>, x: Field, y: Field, suf: seq<Field>)
    requires Distinct(pre + [x, y] + suf) && Distinct(pre + [y, x] + suf)
    ensures Check(pre + [x, y] + suf, pre + [y, x] + suf, {x, y}, {}) == Rejected(SwapInOrder)
  {
    var F, R, n := pre + [x, y] + suf, pre + [y, x] + suf, |pre|;
    assert F[n] == x && F[n + 1] == y && R[n] == y && R[n + 1] == x;
    assert R[..n] == pre && F[..n] == pre;
    assert RedundantSwap(F, R, {x, y}, n + 1, n, n);
    ExchangedIsFaithful(pre, x, y, suf, {x, y});
    AcceptedExactly(F, R, {x, y}, {});
  }

  lemma ExchangedNoneSwapped(pre: seq<Field>, x: Field, y: Field, suf: seq<Field>)
    requires Distinct(pre + [x, y] + suf) && Distinct(pre + [y, x] + suf)
    ensures Check(pre + [x, y] + suf, pre + [y, x] + suf, {}, {}) != Accepted
  {
    var F, R, n := pre + [x, y] + suf, pre + [y, x] + suf, |pre|;
    assert F[n] == x && F[n + 1] == y && R[n] == y;
    var none: set<Field> := {};
    assert none + none == none;
    WithoutNothing(F);
    WithoutNothing(R);
    assert !Faithful(F, R, none, none);
    AcceptedExactly(F, R, none, none);
  }

  lemma ExchangedIsFaithful(pre: seq<Field>, x: Field, y: Field, suf: seq<Field>, S: set<Field>)
    requires (x in S || y in S) && S <= {x, y}
    ensures Faithful(pre + [x, y] + suf, pre + [y, x] + suf, S, {})
  {
    WithoutConcat(pre + [x, y], suf, S);
    WithoutConcat(pre, [x, y], S);
    WithoutConcat(pre + [y, x], suf, S);
    WithoutConcat(pre, [y, x], S);
    WithoutPair(x, y, S);
    assert {} + S == S;
  }

  lemma WithoutPair(x: Field, y: Field, S: set<Field>)
    requires x in S || y in S
    ensures Without([x, y], S) == Without([y, x], S)
  {
    assert [x, y][..1] == [x] && [y, x][..1] == [y];
    assert [x][..0] == [] && [y][..0] == [];
  }

  lemma {:induction false} WithoutNothing(s: seq<Field>)
    ensures Without(s, {}) == s
  {
    if s != [] { WithoutNothing(s[..|s| - 1]); }
  }
}
