/**
 The rebuild scheduler: requests are counted, a single loop waits for quiet and rebuilds until every
 counted request precedes a finished rebuild. Each step is one stretch of code between two awaits.
 */
module RebuildScheduler {
  import opened Options

  datatype Outcome = Built(changed: bool, generation: nat) | Threw

  /** One call of `rebuild`: the requests counted when it started, and how it ended. */
  datatype Rebuild = Rebuild(target: nat, outcome: Option<Outcome>)

  datatype Result = Result(changed: bool, generation: nat)

  /**
   Where the loop is: not running, in a quiet period that started at a request count, past the quiet period,
   rebuilding, or settled with its promise not yet forgotten.
   */
  datatype Phase =
    | Idle
    | Quieting(observed: nat)
    | Quiet
    | Building(target: nat)
    | Settled(result: Option<Result>)

  /** `rebuilds` are all calls so far and `first` is the first one of the current or last run. */
  datatype State = State(
    requested: nat, completed: nat, phase: Phase, changed: bool, rebuilds: seq<Rebuild>, first: nat, late: nat)

  const START: State := State(0, 0, Idle, false, [], 0, 0)

  // ----- steps

  function RequestStep(st: State): State {
    var counted := st.(requested := st.requested + 1);
    if st.phase.Idle? then
      counted.(phase := Quieting(counted.requested), changed := false, first := |st.rebuilds|, late := 0)
    else if st.phase.Settled? then counted.(late := st.late + 1)
    else counted
  }

  /** The delay is over: wait again if a request came in meanwhile. */
  function QuietStep(st: State): State {
    if !st.phase.Quieting? then st
    else if st.phase.observed != st.requested then st.(phase := Quieting(st.requested))
    else st.(phase := Quiet)
  }

  function BeginStep(st: State): State {
    if !st.phase.Quiet? then st
    else st.(phase := Building(st.requested), rebuilds := st.rebuilds + [Rebuild(st.requested, None)])
  }

  function Ended(rebuilds: seq<Rebuild>, outcome: Outcome): seq<Rebuild> {
    if rebuilds == [] then []
    else rebuilds[|rebuilds| - 1 := rebuilds[|rebuilds| - 1].(outcome := Some(outcome))]
  }

  /** A rebuild returned: go on while requests are not completed, otherwise settle; a throw settles at once. */
  function EndStep(st: State, outcome: Outcome): State {
    if !st.phase.Building? then st
    else
      var rebuilds := Ended(st.rebuilds, outcome);
      match outcome
      case Threw => st.(phase := Settled(None), rebuilds := rebuilds)
      case Built(built, generation) =>
        var changed := st.changed || built;
        st.(completed := st.phase.target, changed := changed, rebuilds := rebuilds,
          phase := if st.phase.target < st.requested then Quieting(st.requested) else Settled(Some(Result(changed, generation))))
  }

  /** The `finally` that forgets the promise. */
  function ForgetStep(st: State): State { if st.phase.Settled? then st.(phase := Idle) else st }

  datatype Step = Request | QuietElapsed | Begin | End(outcome: Outcome) | Forget

  function Advance(st: State, step: Step): State {
    match step
    case Request => RequestStep(st)
    case QuietElapsed => QuietStep(st)
    case Begin => BeginStep(st)
    case End(outcome) => EndStep(st, outcome)
    case Forget => ForgetStep(st)
  }

  function Run(steps: seq<Step>): State {
    if steps == [] then START else Advance(Run(steps[..|steps| - 1]), steps[|steps| - 1])
  }

  // ----- the invariant

  ghost predicate Succeeded(r: Rebuild) { r.outcome.Some? && r.outcome.value.Built? }

  /** Every one of the first `count` requests was counted before some successful rebuild started. */
  ghost predicate Covered(rebuilds: seq<Rebuild>, count: nat) {
    count == 0 || exists i :: 0 <= i < |rebuilds| && Succeeded(rebuilds[i]) && rebuilds[i].target >= count
  }

  /** Some rebuild of the run reported a change. */
  ghost predicate AnyChanged(rebuilds: seq<Rebuild>, first: nat) {
    exists i :: first <= i < |rebuilds| && Succeeded(rebuilds[i]) && rebuilds[i].outcome.value.changed
  }

  ghost predicate Inv(st: State) {
    && st.completed <= st.requested && st.first <= |st.rebuilds|
    && (forall i :: 0 <= i < |st.rebuilds| ==> st.rebuilds[i].target <= st.requested)
    && (forall i :: 0 <= i < |st.rebuilds| ==>
          (st.rebuilds[i].outcome.None? <==> st.phase.Building? && i == |st.rebuilds| - 1))
    && (st.phase.Building? ==>
          st.first < |st.rebuilds| && st.rebuilds[|st.rebuilds| - 1].target == st.phase.target && st.completed <= st.phase.target)
    && Covered(st.rebuilds, st.completed)
    && (!st.phase.Idle? ==> (st.changed <==> AnyChanged(st.rebuilds, st.first)))
    && (st.phase.Quieting? ==> st.phase.observed <= st.requested)
    && (st.phase.Quieting? || st.phase.Quiet? || st.phase.Building? ==> st.late == 0)
    && (st.phase.Settled? && st.phase.result.Some? ==>
          && st.phase.result.value.changed == st.changed && st.completed + st.late == st.requested
          && st.first < |st.rebuilds| && Succeeded(st.rebuilds[|st.rebuilds| - 1])
          && st.phase.result.value.generation == st.rebuilds[|st.rebuilds| - 1].outcome.value.generation)
  }

  lemma AnyChangedEnded(rebuilds: seq<Rebuild>, first: nat, outcome: Outcome)
    requires first < |rebuilds| && rebuilds[|rebuilds| - 1].outcome.None?
    ensures AnyChanged(Ended(rebuilds, outcome), first) <==>
      AnyChanged(rebuilds, first) || (outcome.Built? && outcome.changed)
  {
    var n := |rebuilds| - 1;
    var after := Ended(rebuilds, outcome);
    if AnyChanged(rebuilds, first) {
      var i :| first <= i < |rebuilds| && Succeeded(rebuilds[i]) && rebuilds[i].outcome.value.changed;
      assert after[i] == rebuilds[i];
    }
    if outcome.Built? && outcome.changed { assert Succeeded(after[n]) && after[n].outcome.value.changed; }
  }

  lemma CoveredStays(before: seq<Rebuild>, after: seq<Rebuild>, count: nat)
    requires Covered(before, count) && |before| <= |after|
    requires forall i :: 0 <= i < |before| && Succeeded(before[i]) ==> after[i] == before[i]
    ensures Covered(after, count)
  {
    if count > 0 {
      var i :| 0 <= i < |before| && Succeeded(before[i]) && before[i].target >= count;
      assert Succeeded(after[i]) && after[i].target >= count;
    }
  }

  lemma BeginKeeps(st: State)
    requires Inv(st) && st.phase.Quiet?
    ensures Inv(BeginStep(st))
  {
    var after := BeginStep(st);
    CoveredStays(st.rebuilds, after.rebuilds, st.completed);
    if AnyChanged(st.rebuilds, st.first) {
      var i :| st.first <= i < |st.rebuilds| && Succeeded(st.rebuilds[i]) && st.rebuilds[i].outcome.value.changed;
      assert after.rebuilds[i] == st.rebuilds[i];
    }
  }

  lemma EndKeeps(st: State, outcome: Outcome)
    requires Inv(st) && st.phase.Building?
    ensures Inv(EndStep(st, outcome))
  {
    hide Covered, AnyChanged;
    var n := |st.rebuilds| - 1;
    var rebuilds := Ended(st.rebuilds, outcome);
    assert st.rebuilds[n].target <= st.requested;
    AnyChangedEnded(st.rebuilds, st.first, outcome);
    CoveredStays(st.rebuilds, rebuilds, st.completed);
    if outcome.Built? { assert Covered(rebuilds, st.phase.target) by { LastCovers(rebuilds, st.phase.target); } }
  }

  lemma LastCovers(rebuilds: seq<Rebuild>, count: nat)
    requires rebuilds != [] && Succeeded(rebuilds[|rebuilds| - 1]) && rebuilds[|rebuilds| - 1].target >= count
    ensures Covered(rebuilds, count)
  {
  }

  lemma RequestKeeps(st: State)
    requires Inv(st)
    ensures Inv(RequestStep(st))
  {
    hide Covered;
    assert st.phase.Idle? ==> !AnyChanged(st.rebuilds, |st.rebuilds|);
  }

  lemma StepKeeps(st: State, step: Step)
    requires Inv(st)
    ensures Inv(Advance(st, step))
  {
    hide Covered, AnyChanged, Ended;
    match step
    case Request => RequestKeeps(st);
    case QuietElapsed =>
    case Begin => if st.phase.Quiet? { BeginKeeps(st); }
    case End(outcome) => if st.phase.Building? { EndKeeps(st, outcome); }
    case Forget =>
  }

  lemma {:induction false} RunKeeps(steps: seq<Step>)
    ensures Inv(Run(steps))
  {
    if steps == [] {
    } else {
      RunKeeps(steps[..|steps| - 1]);
      StepKeeps(Run(steps[..|steps| - 1]), steps[|steps| - 1]);
    }
  }

  // ----- what every run promises

  /** Across any run the completed count never passes the requested one, and at most one rebuild is unfinished. */
  lemma OneRebuildAtATime(steps: seq<Step>)
    ensures var st := Run(steps);
      && st.completed <= st.requested
      && (forall i :: 0 <= i < |st.rebuilds| - 1 ==> st.rebuilds[i].outcome.Some?)
      && (forall i :: 0 <= i < |st.rebuilds| && st.rebuilds[i].outcome.None? ==> st.phase == Building(st.rebuilds[i].target))
  {
    hide Covered, AnyChanged;
    RunKeeps(steps);
  }

  /**
   When the loop exits normally, every request counted by then precedes the start of a successful rebuild, the
   returned generation is that of the last rebuild and `changed` is the disjunction over the rebuilds of the run.
   */
  lemma NormalExitCoversAll(steps: seq<Step>, outcome: Outcome)
    requires Run(steps).phase.Building? && Advance(Run(steps), End(outcome)).phase.Settled? && outcome.Built?
    ensures var st := Advance(Run(steps), End(outcome));
      && st.completed == st.requested && Covered(st.rebuilds, st.requested)
      && st.phase.result == Some(Result(AnyChanged(st.rebuilds, st.first), outcome.generation))
  {
    hide Covered, AnyChanged, Ended;
    RunKeeps(steps);
    StepKeeps(Run(steps), End(outcome));
  }

  /** With the promise forgotten, requests are left over exactly when the run threw or some came after its loop had exited. */
  lemma LeftOverIff(steps: seq<Step>)
    requires Run(steps).phase.Settled?
    ensures var st := Advance(Run(steps), Forget);
      st.phase.Idle? && (Run(steps).phase.result.Some? ==> (st.completed == st.requested <==> Run(steps).late == 0))
  {
    hide Covered, AnyChanged;
    RunKeeps(steps);
  }

  /** Such a request is served by no loop: the scheduler is idle with a request that no rebuild will follow. */
  lemma LateRequestIsLeftOver() returns (steps: seq<Step>)
    ensures Run(steps).phase.Idle? && Run(steps).completed < Run(steps).requested
  {
    var built := End(Built(true, 1));
    steps := [Request, QuietElapsed, Begin, built, Request, Forget];
    var s1, s2, s3, s4, s5 := [Request], [Request, QuietElapsed], [Request, QuietElapsed, Begin],
      [Request, QuietElapsed, Begin, built], [Request, QuietElapsed, Begin, built, Request];
    assert s1[..0] == [] && s2[..1] == s1 && s3[..2] == s2 && s4[..3] == s3 && s5[..4] == s4 && steps[..5] == s5;
    assert Run(s1).phase == Quieting(1) && Run(s2).phase == Quiet;
    assert Run(s3).phase == Building(1) && Run(s3).requested == 1;
    assert Run(s4).phase.Settled? && Run(s5).phase.Settled? && Run(s5).requested == 2 && Run(s5).completed == 1;
  }

  // ----- the class

  class RebuildScheduler {
    var requested: nat
    var completed: nat
    var phase: Phase
    var changed: bool
    ghost var rebuilds: seq<Rebuild>
    ghost var first: nat
    ghost var late: nat

    ghost function Value(): State
      reads this
    {
      State(requested, completed, phase, changed, rebuilds, first, late)
    }

    ghost predicate Valid()
      reads this
    {
      Inv(Value())
    }

    constructor ()
      ensures Valid() && Value() == START
    {
      requested, completed, phase, changed, rebuilds, first, late := 0, 0, Idle, false, [], 0, 0;
    }

    /** Counts the request, and starts the loop unless its promise is still there. */
    method Request()
      requires Valid()
      modifies this
      ensures Valid() && Value() == RequestStep(old(Value()))
    {
      hide Inv;
      RequestKeeps(Value());
      requested := requested + 1;
      if !phase.Idle? {
        if phase.Settled? { late := late + 1; }
        return;
      }
      changed := false;
      first, late := |rebuilds|, 0;
      phase := Quieting(requested);
    }

    method QuietElapsed()
      requires Valid() && phase.Quieting?
      modifies this`phase
      ensures Valid() && Value() == QuietStep(old(Value()))
    {
      hide Inv;
      StepKeeps(Value(), Step.QuietElapsed);
      phase := if phase.observed != requested then Quieting(requested) else Quiet;
    }

    method Begin()
      requires Valid() && phase.Quiet?
      modifies this`phase, this`rebuilds
      ensures Valid() && Value() == BeginStep(old(Value()))
    {
      hide Inv;
      BeginKeeps(Value());
      var target := requested;
      rebuilds := rebuilds + [Rebuild(target, None)];
      phase := Building(target);
    }

    method End(outcome: Outcome)
      requires Valid() && phase.Building?
      modifies this
      ensures Valid() && Value() == EndStep(old(Value()), outcome)
    {
      hide Inv, Ended;
      EndKeeps(Value(), outcome);
      rebuilds := Ended(rebuilds, outcome);
      if outcome.Threw? {
        phase := Settled(None);
        return;
      }
      changed := changed || outcome.changed;
      completed := phase.target;
      phase := if completed < requested then Quieting(requested) else Settled(Some(Result(changed, outcome.generation)));
    }

    method Forget()
      requires Valid() && phase.Settled?
      modifies this`phase
      ensures Valid() && Value() == ForgetStep(old(Value()))
    {
      hide Inv;
      StepKeeps(Value(), Step.Forget);
      phase := Idle;
    }
  }
}
