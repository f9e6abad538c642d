/**
 The visitor that records permissions while an authority is checked and takes back what was
 recorded in a branch that did not work out. Its undo stack holds sizes only; the reference
 it is measured against holds full copies of the list.
 */
module PermissionVisitor {
  import opened Options

  datatype PermissionLevel = PermissionLevel(actor: nat, permission: nat)

  /** The calls a checker makes. A repeated permission is reported but not recorded. */
  datatype Event = Visit(level: PermissionLevel) | VisitRepeat(level: PermissionLevel) | Push | Pop | Squash

  /** The fields of `permission_visitor`. */
  datatype State = State(permissions: seq<PermissionLevel>, sizes: seq<nat>)

  /** One call; `None` when the assertion in it fails or the empty stack is read. */
  function Step(st: State, e: Event): Option<State> {
    var n := |st.sizes|;
    match e
    case Visit(level) => Some(st.(permissions := st.permissions + [level]))
    case VisitRepeat(_) => Some(st)
    case Push => Some(st.(sizes := st.sizes + [|st.permissions|]))
    case Pop =>
      if n >= 1 && st.sizes[n - 1] <= |st.permissions|
      then Some(State(st.permissions[..st.sizes[n - 1]], st.sizes[..n - 1])) else None
    case Squash =>
      if n >= 1 then Some(st.(sizes := st.sizes[..n - 1])) else None
  }

  function Run(st: State, events: seq<Event>): Option<State>
    decreases |events|
  {
    if events == [] then Some(st)
    else match Step(st, events[0])
      case None => None
      case Some(next) => Run(next, events[1..])
  }

  /** The reference: every push saves a copy, every pop brings the copy back. */
  datatype Reference = Reference(current: seq<PermissionLevel>, saved: seq<seq<PermissionLevel>>)

  function ReferenceStep(st: Reference, e: Event): Option<Reference> {
    var n := |st.saved|;
    match e
    case Visit(level) => Some(st.(current := st.current + [level]))
    case VisitRepeat(_) => Some(st)
    case Push => Some(st.(saved := st.saved + [st.current]))
    case Pop => if n >= 1 then Some(Reference(st.saved[n - 1], st.saved[..n - 1])) else None
    case Squash => if n >= 1 then Some(st.(saved := st.saved[..n - 1])) else None
  }

  function ReferenceRun(st: Reference, events: seq<Event>): Option<Reference>
    decreases |events|
  {
    if events == [] then Some(st)
    else match ReferenceStep(st, events[0])
      case None => None
      case Some(next) => ReferenceRun(next, events[1..])
  }

  /** Sizes never decrease towards the top of the stack nor exceed the length of the list. */
  ghost predicate Ordered(st: State) {
    && (forall i, j :: 0 <= i < j < |st.sizes| ==> st.sizes[i] <= st.sizes[j])
    && (forall i :: 0 <= i < |st.sizes| ==> st.sizes[i] <= |st.permissions|)
  }

  /** Each size stands for the copy that the reference saved. */
  ghost predicate Represents(st: State, full: Reference) {
    && Ordered(st) && st.permissions == full.current && |st.sizes| == |full.saved|
    && forall i :: 0 <= i < |st.sizes| ==> full.saved[i] == st.permissions[..st.sizes[i]]
  }

  lemma {:induction false} StepRefines(st: State, full: Reference, e: Event)
    requires Represents(st, full)
    ensures Step(st, e).None? <==> ReferenceStep(full, e).None?
    ensures Step(st, e).Some? ==> Represents(Step(st, e).value, ReferenceStep(full, e).value)
  {
    if Step(st, e).Some? {
      var st', full' := Step(st, e).value, ReferenceStep(full, e).value;
      forall i | 0 <= i < |st'.sizes|
        ensures full'.saved[i] == st'.permissions[..st'.sizes[i]]
      {
      }
    }
  }

  /** Over every run the sizes do the work of full copies, and fail when they would. */
  lemma {:induction false} RunRefines(st: State, full: Reference, events: seq<Event>)
    requires Represents(st, full)
    ensures Run(st, events).None? <==> ReferenceRun(full, events).None?
    ensures Run(st, events).Some? ==> Represents(Run(st, events).value, ReferenceRun(full, events).value)
    decreases |events|
  {
    if events != [] {
      StepRefines(st, full, events[0]);
      if Step(st, events[0]).Some? {
        RunRefines(Step(st, events[0]).value, ReferenceStep(full, events[0]).value, events[1..]);
      }
    }
  }

  /** The permissions visited, in order. */
  function Visits(events: seq<Event>): (levels: seq<PermissionLevel>) {
    if events == [] then []
    else (if events[0].Visit? then [events[0].level] else []) + Visits(events[1..])
  }

  /** As long as nothing is undone, the list holds what was visited for the first time, in order. */
  lemma {:induction false} RunRecordsVisits(st: State, events: seq<Event>)
    requires Run(st, events).Some? && forall i :: 0 <= i < |events| ==> !events[i].Pop?
    ensures Run(st, events).value.permissions == st.permissions + Visits(events)
    decreases |events|
  {
    if events != [] { RunRecordsVisits(Step(st, events[0]).value, events[1..]); }
  }

  // ----- Nested runs -----

  /** Every pop and squash answers a push of the same run, and every push is answered. */
  predicate Balanced(events: seq<Event>, depth: nat) {
    if events == [] then depth == 0
    else match events[0]
      case Push => Balanced(events[1..], depth + 1)
      case Pop => depth > 0 && Balanced(events[1..], depth - 1)
      case Squash => depth > 0 && Balanced(events[1..], depth - 1)
      case _ => Balanced(events[1..], depth)
  }

  /** After `depth` pushes that are still open, none of which recorded less than `start`. */
  ghost predicate Above(st: State, start: seq<PermissionLevel>, depth: nat) {
    && start <= st.permissions && |st.sizes| == depth && Ordered(st)
    && forall i :: 0 <= i < depth ==> |start| <= st.sizes[i]
  }

  /** A balanced run never fails, only adds to the list it started from, and answers every push. */
  lemma {:induction false} BalancedRun(st: State, start: seq<PermissionLevel>, events: seq<Event>, depth: nat)
    requires Above(st, start, depth) && Balanced(events, depth)
    ensures Run(st, events).Some?
    ensures start <= Run(st, events).value.permissions && Run(st, events).value.sizes == []
    decreases |events|
  {
    if events != [] {
      var next := Step(st, events[0]).value;
      BalancedRun(next, start, events[1..],
                  if events[0].Push? then depth + 1
                  else if events[0].Pop? || events[0].Squash? then depth - 1
                  else depth);
    }
  }

  /** The same state with `base` underneath its stack. */
  function OnTopOf(base: seq<nat>, st: State): State {
    st.(sizes := base + st.sizes)
  }

  lemma {:induction false} StepFrame(base: seq<nat>, st: State, e: Event)
    requires Step(st, e).Some?
    ensures Step(OnTopOf(base, st), e) == Some(OnTopOf(base, Step(st, e).value))
  {
    var n := |st.sizes|;
    assert (base + st.sizes) + [|st.permissions|] == base + (st.sizes + [|st.permissions|]);
    if n >= 1 {
      assert (base + st.sizes)[..|base| + n - 1] == base + st.sizes[..n - 1];
    }
  }

  /** A run that succeeds does the same, and leaves `base` alone, on a deeper stack. */
  lemma {:induction false} RunFrame(base: seq<nat>, st: State, events: seq<Event>)
    requires Run(st, events).Some?
    ensures Run(OnTopOf(base, st), events) == Some(OnTopOf(base, Run(st, events).value))
    decreases |events|
  {
    if events != [] {
      StepFrame(base, st, events[0]);
      RunFrame(base, Step(st, events[0]).value, events[1..]);
    }
  }

  lemma {:induction false} RunConcat(st: State, first: seq<Event>, second: seq<Event>)
    requires Run(st, first).Some?
    ensures Run(st, first + second) == Run(Run(st, first).value, second)
    decreases |first|
  {
    if first == [] {
      assert first + second == second;
    } else {
      assert (first + second)[1..] == first[1..] + second;
      RunConcat(Step(st, first[0]).value, first[1..], second);
    }
  }

  /**
   Around any balanced run, push and pop restore the visitor exactly, while push and squash
   keep all that was recorded and give back the stack.
   */
  lemma {:induction false} PushPopAndPushSquash(st: State, body: seq<Event>)
    requires Balanced(body, 0)
    ensures Run(st, [Push] + body + [Pop]) == Some(st)
    ensures var kept := Run(st, body);
      && kept.Some? && st.permissions <= kept.value.permissions
      && Run(st, [Push] + body + [Squash]) == Some(State(kept.value.permissions, st.sizes))
  {
    var bare := State(st.permissions, []);
    var pushed := st.(sizes := st.sizes + [|st.permissions|]);
    BalancedRun(bare, st.permissions, body, 0);
    RunFrame(st.sizes, bare, body);
    RunFrame(pushed.sizes, bare, body);
    assert OnTopOf(st.sizes, bare) == st && OnTopOf(pushed.sizes, bare) == pushed;
    var done := Run(pushed, body).value;
    OneStep(st, Push);
    RunConcat(st, [Push], body);
    RunConcat(st, [Push] + body, [Pop]);
    RunConcat(st, [Push] + body, [Squash]);
    OneStep(done, Pop);
    OneStep(done, Squash);
    assert done.sizes[..|done.sizes| - 1] == st.sizes;
    assert done.permissions[..|st.permissions|] == st.permissions;
  }

  lemma {:induction false} OneStep(st: State, e: Event)
    ensures Run(st, [e]) == Step(st, e)
  {
    assert [e][1..] == [];
  }

  // ----- The class -----

  class Visitor {
    var permissions: seq<PermissionLevel>
    var sizeStack: seq<nat>

    ghost function Abstract(): State
      reads this
    {
      State(permissions, sizeStack)
    }

    constructor ()
      ensures Abstract() == State([], []) && Ordered(Abstract())
    {
      permissions, sizeStack := [], [];
    }

    method Visited(level: PermissionLevel)
      requires Ordered(Abstract())
      modifies this
      ensures Ordered(Abstract()) && Some(Abstract()) == Step(old(Abstract()), Visit(level))
    {
      permissions := permissions + [level];
    }

    method PushUndo()
      requires Ordered(Abstract())
      modifies this
      ensures Ordered(Abstract()) && Some(Abstract()) == Step(old(Abstract()), Push)
    {
      sizeStack := sizeStack + [|permissions|];
    }

    /** The last size is read before the stack is known not to be empty, so the caller must see to that. */
    method PopUndo()
      requires Ordered(Abstract()) && sizeStack != []
      modifies this
      ensures Ordered(Abstract()) && Some(Abstract()) == Step(old(Abstract()), Pop)
    {
      var size := sizeStack[|sizeStack| - 1];
      permissions := permissions[..size];
      sizeStack := sizeStack[..|sizeStack| - 1];
    }

    method SquashUndo() returns (ok: bool)
      requires Ordered(Abstract())
      modifies this
      ensures Ordered(Abstract()) && ok == Step(old(Abstract()), Squash).Some?
      ensures ok ==> Some(Abstract()) == Step(old(Abstract()), Squash)
      ensures !ok ==> Abstract() == old(Abstract())
    {
      ok := |sizeStack| >= 1;
      if ok {
        sizeStack := sizeStack[..|sizeStack| - 1];
      }
    }
  }
}
