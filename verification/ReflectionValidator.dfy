/**
 The `Reflection` object that `validate_reflection.py` builds from an FC_REFLECT macro and
 its `@ignore` and `@swap` comments, and the loop of `validate_file` that consumes it.
 */
module ReflectionValidator {
  import opened Sequences
  import opened ReflectionOrder

  /** Python's `list.remove`: drop the first occurrence. */
  function Remove(s: seq<Field>, x: Field): seq<Field> {
    if s == [] then []
    else if s[0] == x then s[1..]
    else [s[0]] + Remove(s[1..], x)
  }

  lemma {:induction false} RemoveFromDistinct(s: seq<Field>, x: Field)
    requires Distinct(s)
    ensures Distinct(Remove(s, x))
    ensures Elems(Remove(s, x)) == Elems(s) - {x}
  {
    if s != [] {
      assert s == [s[0]] + s[1..];
      assert s[0] !in s[1..];
      RemoveFromDistinct(s[1..], x);
      assert s[0] !in Elems(Remove(s[1..], x));
      PrependDistinct(s[0], Remove(s[1..], x));
      PrependDistinct(s[0], s[1..]);
    }
  }

  lemma PrependDistinct(x: Field, s: seq<Field>)
    requires Distinct(s) && x !in s
    ensures Distinct([x] + s) && Elems([x] + s) == Elems(s) + {x}
  {
  }

  lemma AppendDistinct(s: seq<Field>, x: Field)
    requires Distinct(s) && x !in s
    ensures Distinct(s + [x]) && Elems(s + [x]) == Elems(s) + {x}
  {
  }

  class Reflection {
    var fields: seq<Field>
    var ignored: seq<Field>
    var swapped: seq<Field>

    /** No list repeats a field, and no field is annotated both ways. */
    ghost predicate Valid()
      reads this
    {
      && Distinct(fields) && Distinct(ignored) && Distinct(swapped)
      && Elems(ignored) !! Elems(swapped)
    }

    constructor ()
      ensures Valid() && fields == [] && ignored == [] && swapped == []
    {
      fields, ignored, swapped := [], [], [];
    }

    /** `add_field`: a repeated field is an assertion failure and changes nothing. */
    method AddField(field: Field) returns (ok: bool)
      requires Valid()
      modifies this
      ensures Valid()
      ensures ok == (field !in old(fields))
      ensures fields == old(fields) + if ok then [field] else []
      ensures ignored == old(ignored) && swapped == old(swapped)
    {
      ok := field !in fields;
      if ok {
        AppendDistinct(fields, field);
        fields := fields + [field];
      }
    }

    /**
     `add_ignore_swaps`: append the names of one comment to one of the two lists, up to the
     first that is already in either.
     */
    method AddIgnoreSwaps(names: seq<Field>, isIgnore: bool) returns (ok: bool)
      requires Valid()
      modifies this
      ensures Valid() && fields == old(fields)
      ensures ok <==> Distinct(names) && Elems(names) !! Elems(old(ignored)) + Elems(old(swapped))
      ensures ok ==> ignored == old(ignored) + if isIgnore then names else []
      ensures ok ==> swapped == old(swapped) + if isIgnore then [] else names
    {
      var current := 0;
      while current < |names|
        invariant 0 <= current <= |names|
        invariant Valid() && fields == old(fields)
        invariant Distinct(names[..current])
        invariant Elems(names[..current]) !! Elems(old(ignored)) + Elems(old(swapped))
        invariant ignored == old(ignored) + if isIgnore then names[..current] else []
        invariant swapped == old(swapped) + if isIgnore then [] else names[..current]
      {
        var name := names[current];
        assert names[..current + 1] == names[..current] + [name];
        if name in ignored || name in swapped {
          assert name in names[..current] || name in old(ignored) || name in old(swapped);
          assert name in Elems(names);
          return false;
        }
        if isIgnore {
          AppendDistinct(ignored, name);
          ignored := ignored + [name];
        } else {
          AppendDistinct(swapped, name);
          swapped := swapped + [name];
        }
        current := current + 1;
      }
      assert names[..current] == names;
      ok := true;
    }

    /**
     The body of the loop over reflected classes in `validate_file`: `ignoreId` is set for a
     chainbase object, whose `id` need not be mentioned.
     */
    method Validate(F: seq<Field>, ignoreId: bool) returns (outcome: Outcome)
      requires Valid() && Distinct(F)
      modifies this
      ensures fields == old(fields)
      ensures var S := Elems(old(swapped));
        var I := Elems(old(ignored)) + if ignoreId && Field("id") !in fields then {Field("id")} else {};
        && outcome == Check(F, fields, S, I)
        && (outcome == Accepted <==> Faithful(F, fields, S, I) && !HasRedundantSwap(F, fields, S))
      ensures outcome == Accepted ==> ignored == [] && swapped == []
    {
      var idField := Field("id");
      ghost var I := Elems(ignored) + if ignoreId && idField !in fields then {idField} else {};
      if ignoreId && idField !in ignored && idField !in fields {
        AppendDistinct(ignored, idField);
        ignored := ignored + [idField];
      }
      assert Elems(ignored) == I;
      AcceptedExactly(F, fields, Elems(swapped), I);
      outcome := Walk(F);
    }

    /** The two-cursor loop; `swapped` and `ignored` are consumed as annotations are met. */
    method Walk(F: seq<Field>) returns (outcome: Outcome)
      requires Distinct(fields) && Distinct(ignored) && Distinct(swapped) && Distinct(F)
      modifies `ignored, `swapped
      ensures outcome == Check(F, fields, Elems(old(swapped)), Elems(old(ignored)))
      ensures outcome == Accepted ==> ignored == [] && swapped == []
    {
      var R := fields;
      var f, r := 0, 0;
      var back, fwd, met := [], [], [];
      ghost var st := Init(Elems(swapped), Elems(ignored));
      ghost var verdict := Run(F, R, st);
      while f < |F|
        invariant f <= |F| && r <= |R|
        invariant Distinct(swapped) && Distinct(ignored) && Distinct(back) && Distinct(fwd)
        invariant st == State(f, r, Elems(swapped), Elems(ignored), Elems(back), Elems(fwd), Elems(met))
        invariant Elems(back) <= Elems(F[..f]) && Elems(fwd) <= Elems(R[..r])
        invariant Run(F, R, st) == verdict
        decreases |F| - f + |R| - r
      {
        var field := F[f];
        ElemsStep(F, f);
        if r < |R| { ElemsStep(R, r); }
        if field in swapped {
          RemoveFromDistinct(swapped, field);
          AppendDistinct(back, field);
          swapped := Remove(swapped, field);
          back := back + [field];
          if field !in R {
            return Rejected(SwapNotReflected);
          }
          if r < |R| && R[r] == field {
            return Rejected(SwapInOrder);
          }
          f := f + 1;
        } else if r < |R| && R[r] in swapped {
          RemoveFromDistinct(swapped, R[r]);
          AppendDistinct(fwd, R[r]);
          swapped := Remove(swapped, R[r]);
          fwd := fwd + [R[r]];
          r := r + 1;
        } else if r < |R| && R[r] in met {
          return Rejected(IgnoredIsReflected);
        } else if field in ignored {
          RemoveFromDistinct(ignored, field);
          ignored := Remove(ignored, field);
          met := met + [field];
          if r < |R| && R[r] == field {
            return Rejected(IgnoreInOrder);
          }
          f := f + 1;
        } else if r < |R| && R[r] in back {
          RemoveFromDistinct(back, R[r]);
          back := Remove(back, R[r]);
          r := r + 1;
        } else if field in fwd {
          RemoveFromDistinct(fwd, field);
          fwd := Remove(fwd, field);
          f := f + 1;
        } else {
          if !(r < |R| && R[r] == field) {
            return Rejected(Mismatch);
          }
          f, r := f + 1, r + 1;
        }
        assert Step(F, R, st) == Go(State(f, r, Elems(swapped), Elems(ignored), Elems(back), Elems(fwd), Elems(met)));
        st := Step(F, R, st).state;
      }
      outcome := Finish(r, back, fwd, st);
    }

    /** The checks after the main loop. */
    method Finish(start: nat, backSwapped: seq<Field>, fwd: seq<Field>, ghost st: State) returns (outcome: Outcome)
      requires Distinct(fields) && Distinct(backSwapped) && start == st.r <= |fields|
      requires st.swapped == Elems(swapped) && st.ignored == Elems(ignored)
      requires st.back == Elems(backSwapped) && st.fwd == Elems(fwd)
      ensures outcome == Close(fields, st)
      ensures outcome == Accepted ==> ignored == [] && swapped == []
    {
      EmptyElems(ignored);
      EmptyElems(swapped);
      EmptyElems(fwd);
      if |ignored| != 0 {
        return Rejected(ErroneousIgnores);
      }
      var r, back, unused := start, backSwapped, [];
      while r < |fields|
        invariant start <= r <= |fields|
        invariant Distinct(back)
        invariant Elems(back) == Elems(backSwapped) - Elems(fields[start..r])
        invariant unused == [] ==> forall j :: start <= j < r ==> fields[j] in st.back
        invariant unused != [] ==> exists j :: start <= j < r && fields[j] !in st.back
      {
        assert fields[start..r + 1] == fields[start..r] + [fields[r]];
        assert fields[r] !in fields[start..r];
        assert fields[r] in Elems(back) <==> fields[r] in st.back;
        if fields[r] in back {
          RemoveFromDistinct(back, fields[r]);
          back := Remove(back, fields[r]);
        } else {
          unused := unused + [fields[r]];
        }
        r := r + 1;
      }
      assert fields[start..r] == fields[start..];
      EmptyElems(back);
      if |unused| != 0 {
        outcome := Rejected(UnknownFields);
      } else if |swapped| != 0 {
        outcome := Rejected(ErroneousSwaps);
      } else if |back| != 0 {
        outcome := Rejected(SwapNeverProvided);
      } else if |fwd| != 0 {
        outcome := Rejected(SwapNotInClass);
      } else {
        outcome := Accepted;
      }
    }
  }

  lemma EmptyElems(s: seq<Field>)
    ensures Elems(s) == {} <==> |s| == 0
  {
    if |s| > 0 { assert s[0] in Elems(s); }
  }
}
