/**
 Every run of the application service: when analyses are disposed of, and what is current.
 */
module ApplicationServiceRuns {
  import opened ApplicationService
  import opened InsertionMap
  import opened Options
  import opened Utf16

  // ----- runs

  datatype Step =
    | Publish(id: JsString, hasAnalysis: bool)
    | Resume
    | Open(wanted: Option<JsString>)
    | Close(reader: nat)
    | StartDispose
    | FinishDispose

  /** A publish waits for the one in flight; every other step may happen at any time. */
  ghost function Advance(st: State, maximum: nat, step: Step): State
    requires Inv(st, maximum)
  {
    match step
    case Publish(id, hasAnalysis) => if st.publishing.Idle? then PublishStep(st, maximum, id, hasAnalysis) else st
    case Resume => ResumeStep(st, maximum)
    case Open(wanted) =>
      OpenKeeps(st, maximum, wanted);
      OpenStep(st, wanted)
    case Close(reader) => CloseStep(st, reader)
    case StartDispose => StartDisposeStep(st)
    case FinishDispose => FinishDisposeStep(st)
  }

  lemma StepKeeps(st: State, maximum: nat, step: Step)
    requires Inv(st, maximum) && maximum >= 1
    ensures Inv(Advance(st, maximum, step), maximum)
  {
    hide Inv, PublishStep, ResumeStep, OpenStep, CloseStep, StartDisposeStep, FinishDisposeStep;
    match step
    case Publish(id, hasAnalysis) => if st.publishing.Idle? { PublishKeeps(st, maximum, id, hasAnalysis); }
    case Resume => ResumeKeeps(st, maximum);
    case Open(wanted) => OpenKeeps(st, maximum, wanted);
    case Close(reader) => CloseKeeps(st, maximum, reader);
    case StartDispose => StartDisposeKeeps(st, maximum);
    case FinishDispose => FinishDisposeKeeps(st, maximum);
  }

  ghost function Run(maximum: nat, steps: seq<Step>): (st: State)
    requires maximum >= 1
    ensures Inv(st, maximum)
  {
    if steps == [] then
      INITIAL
    else
      var before := Run(maximum, steps[..|steps| - 1]);
      StepKeeps(before, maximum, steps[|steps| - 1]);
      Advance(before, maximum, steps[|steps| - 1])
  }

  /**
   In every run: an analysis is disposed of at most once, and as soon as its record is evicted and unread;
   before the service is disposed, never earlier, so never under a live reader.
   */
  lemma DisposedExactlyWhenUnused(maximum: nat, steps: seq<Step>, at: nat)
    requires maximum >= 1 && at < |Run(maximum, steps).history|
    ensures var st := Run(maximum, steps);
      var r := st.history[at];
      && r.disposals <= 1 && (r.disposals == 1 <==> r.disposed && r.hasAnalysis)
      && r.readers == LiveReaders(st.readers, at)
      && (!IsRetained(st.records, at) && !st.disposed ==> (r.disposed <==> LiveReaders(st.readers, at) == 0))
      && (IsRetained(st.records, at) && !st.disposed ==> !r.disposed)
  {
    hide Run, LiveReaders, IsRetained;
    assert RecordKept(Run(maximum, steps), at);
  }

  /** At every step boundary the bound holds and the current snapshot is the most recently published retained one. */
  lemma CurrentIsMostRecent(maximum: nat, steps: seq<Step>)
    requires maximum >= 1
    ensures var st := Run(maximum, steps);
      && |st.records| <= maximum
      && (st.records != [] ==> st.current == Some(st.records[|st.records| - 1].0))
      && (st.records == [] ==> st.current.None?)
  {
    hide Run;
  }

  /** A publish that has nothing to await has made its snapshot the current one. */
  lemma PublishedIsCurrent(maximum: nat, steps: seq<Step>, id: JsString, hasAnalysis: bool)
    requires maximum >= 1 && Run(maximum, steps).publishing.Idle?
    ensures var after := Advance(Run(maximum, steps), maximum, Publish(id, hasAnalysis));
      after.publishing.Duplicate? || (after.current == Some(id) && Find(after.records, id).Some?)
  {
    hide Run, Inv, Find, Renewed;
    var st := Run(maximum, steps);
    StepKeeps(st, maximum, Publish(id, hasAnalysis));
    var after := Advance(st, maximum, Publish(id, hasAnalysis));
    if Find(st.records, id).None? {
      assert InHistory(Recorded(st, id, hasAnalysis)) by { InvIsInHistory(st, maximum); }
      EvictCurrent(Recorded(st, id, hasAnalysis), maximum);
      CurrentFound(after, maximum);
    } else if !hasAnalysis {
      assert after.current == Some(id) by { RenewedCurrent(st, id, Find(st.records, id).value); }
      CurrentFound(after, maximum);
    }
  }

  /** Resuming a publish of a known snapshot makes it current and retained; resuming an eviction changes neither. */
  lemma ResumedIsCurrent(maximum: nat, steps: seq<Step>)
    requires maximum >= 1
    ensures var st := Run(maximum, steps);
      var after := Advance(st, maximum, Resume);
      && (st.publishing.Duplicate? ==> after.current == Some(st.publishing.id) && Find(after.records, st.publishing.id).Some?)
      && (!st.publishing.Duplicate? ==> after.current == st.current && (after.current.Some? ==> Find(after.records, after.current.value).Some?))
  {
    hide Run, Inv, Find, Renewed;
    var st := Run(maximum, steps);
    StepKeeps(st, maximum, Resume);
    InvIsInHistory(st, maximum);
    var after := Advance(st, maximum, Resume);
    if st.publishing.Duplicate? { RenewedCurrent(st, st.publishing.id, st.publishing.record); }
    if st.publishing.Evicting? { EvictCurrent(st, maximum); }
    if after.current.Some? { CurrentFound(after, maximum); }
  }

  lemma RenewedCurrent(st: State, id: JsString, record: nat)
    ensures Renewed(st, id, record).current == Some(id)
  {
  }

  lemma {:induction false} EvictCurrent(st: State, maximum: nat)
    requires forall i :: 0 <= i < |st.records| ==> st.records[i].1 < |st.history|
    ensures Evict(st, maximum).current == st.current && !Evict(st, maximum).publishing.Duplicate?
    ensures Evict(st, maximum).closing == st.closing && Evict(st, maximum).disposed == st.disposed
    decreases |st.records|
  {
    if |st.records| <= maximum {
    } else {
      var oldest := st.records[0].1;
      var r := st.history[oldest].(retained := false);
      if r.readers != 0 {
        EvictCurrent(st.(records := st.records[1..], history := st.history[oldest := r]), maximum);
      }
    }
  }

  lemma CurrentFound(st: State, maximum: nat)
    requires Inv(st, maximum) && st.current.Some?
    ensures Find(st.records, st.current.value).Some?
  {
    FindAt(st.records, |st.records| - 1);
  }

  // ----- what readers read

  /** No step moves a reader to another record or changes which snapshot a record is of. */
  ghost predicate Steady(before: State, after: State) {
    && |before.history| <= |after.history| && |before.readers| <= |after.readers|
    && (forall at :: 0 <= at < |before.history| ==> after.history[at].snapshot == before.history[at].snapshot)
    && (forall k :: 0 <= k < |before.readers| ==> after.readers[k].record == before.readers[k].record)
  }

  lemma {:induction false} EvictSteady(st: State, maximum: nat)
    requires forall i :: 0 <= i < |st.records| ==> st.records[i].1 < |st.history|
    ensures Steady(st, Evict(st, maximum))
    decreases |st.records|
  {
    if |st.records| <= maximum {
    } else {
      var oldest := st.records[0].1;
      var r := st.history[oldest].(retained := false);
      if r.readers != 0 {
        EvictSteady(st.(records := st.records[1..], history := st.history[oldest := r]), maximum);
      }
    }
  }

  lemma StepSteady(st: State, maximum: nat, step: Step)
    requires Inv(st, maximum)
    ensures Steady(st, Advance(st, maximum, step))
  {
    hide Inv, Find, Drop, DisposeAll, LiveReaders;
    InvIsInHistory(st, maximum);
    match step
    case Publish(id, hasAnalysis) =>
      if st.publishing.Idle? && Find(st.records, id).None? { EvictSteady(Recorded(st, id, hasAnalysis), maximum); }
    case Resume => if st.publishing.Evicting? { EvictSteady(st, maximum); }
    case Open(wanted) => OpenKeeps(st, maximum, wanted);
    case Close(reader) =>
    case StartDispose =>
    case FinishDispose => DisposeAllAt(st.history, st.closing);
  }

  lemma {:induction false} RunSteady(maximum: nat, steps: seq<Step>, more: seq<Step>)
    requires maximum >= 1
    ensures Steady(Run(maximum, steps), Run(maximum, steps + more))
  {
    hide Run, Inv, Advance;
    if more == [] {
      assert steps + more == steps;
    } else {
      var n := |more| - 1;
      var all := steps + more;
      assert all[..|all| - 1] == steps + more[..n] && all[|all| - 1] == more[n];
      RunSteady(maximum, steps, more[..n]);
      RunNext(maximum, all);
      StepSteady(Run(maximum, steps + more[..n]), maximum, more[n]);
    }
  }

  /** In every run, a reader reads the snapshot it was opened for from then on, evictions and disposals notwithstanding. */
  lemma ReadsWhatItOpened(maximum: nat, steps: seq<Step>, id: Option<JsString>, snapshot: JsString, more: seq<Step>)
    requires maximum >= 1 && !Run(maximum, steps).disposed && Retains(Run(maximum, steps), snapshot)
    requires id == Some(snapshot) || (id.None? && Run(maximum, steps).current == Some(snapshot))
    ensures Reads(Run(maximum, steps + [Open(id)] + more), |Run(maximum, steps).readers|, snapshot)
  {
    hide Run, Inv, Retains;
    var before, start := Run(maximum, steps), steps + [Open(id)];
    assert start[..|start| - 1] == steps;
    RunNext(maximum, start);
    OpenAnswers(before, maximum, id);
    RunSteady(maximum, start, more);
  }

  // ----- disposing the service

  /**
   Disposing the service: when its disposal has finished, a record is left undisposed only if it is still read
   after its eviction, or was published by a refresh that was in flight when the disposal began.
   */
  lemma FinishedDisposal(maximum: nat, steps: seq<Step>, at: nat)
    requires maximum >= 1 && at < |Run(maximum, steps).history|
    ensures var st := Advance(Run(maximum, steps), maximum, FinishDispose);
      at < |st.history| && (st.disposed && !st.history[at].disposed ==>
        IsRetained(st.records, at) || (!st.history[at].retained && LiveReaders(st.readers, at) > 0))
  {
    hide Run, LiveReaders, IsRetained;
    FinishedRecord(Run(maximum, steps), maximum, at);
  }

  /** What a disposal captures when it starts stays captured until it finishes. */
  lemma {:induction false} CapturedStays(maximum: nat, before: seq<Step>, meanwhile: seq<Step>)
    requires maximum >= 1 && !Run(maximum, before).disposed && FinishDispose !in meanwhile
    ensures var st := Run(maximum, before + [StartDispose] + meanwhile);
      st.disposed && st.closing == Positions(Run(maximum, before).records)
  {
    hide Run, Positions;
    var start := before + [StartDispose];
    if meanwhile == [] {
      assert start + meanwhile == start && start[..|before|] == before;
      RunNext(maximum, start);
    } else {
      var n := |meanwhile| - 1;
      var steps := start + meanwhile;
      assert steps[..|steps| - 1] == start + meanwhile[..n] && steps[|steps| - 1] == meanwhile[n];
      assert meanwhile[n] in meanwhile;
      CapturedStays(maximum, before, meanwhile[..n]);
      RunNext(maximum, steps);
      ClosingStays(Run(maximum, start + meanwhile[..n]), maximum, meanwhile[n]);
    }
  }

  lemma RunNext(maximum: nat, steps: seq<Step>)
    requires maximum >= 1 && steps != []
    ensures Run(maximum, steps) == Advance(Run(maximum, steps[..|steps| - 1]), maximum, steps[|steps| - 1])
  {
  }

  lemma ClosingStays(st: State, maximum: nat, step: Step)
    requires Inv(st, maximum) && st.disposed && !step.FinishDispose?
    ensures Advance(st, maximum, step).disposed && Advance(st, maximum, step).closing == st.closing
  {
    hide Inv, Find, Drop;
    InvIsInHistory(st, maximum);
    if step.Publish? && st.publishing.Idle? && Find(st.records, step.id).None? {
      EvictCurrent(Recorded(st, step.id, step.hasAnalysis), maximum);
    }
    if step.Resume? && st.publishing.Evicting? { EvictCurrent(st, maximum); }
  }

  /**
   Exactly which records a finished disposal has disposed of: those disposed of before, and those that were retained
   when it started. A snapshot published since then is missed.
   */
  lemma FinishedDisposalIff(maximum: nat, before: seq<Step>, meanwhile: seq<Step>, at: nat)
    requires maximum >= 1 && !Run(maximum, before).disposed && FinishDispose !in meanwhile
    requires at < |Run(maximum, before + [StartDispose] + meanwhile).history|
    ensures var st := Run(maximum, before + [StartDispose] + meanwhile);
      var after := Advance(st, maximum, FinishDispose);
      && at < |after.history|
      && (after.history[at].disposed <==> st.history[at].disposed || at in st.closing)
      && (at in st.closing <==> IsRetained(Run(maximum, before).records, at))
  {
    hide Run;
    CapturedStays(maximum, before, meanwhile);
    var st, records := Run(maximum, before + [StartDispose] + meanwhile), Run(maximum, before).records;
    InvIsInHistory(st, maximum);
    DisposeAllAt(st.history, st.closing);
    if IsRetained(records, at) {
      var i :| 0 <= i < |records| && records[i].1 == at;
      assert Positions(records)[i] == at;
    }
  }

  /** A snapshot published by a refresh that was in flight when the disposal started is never disposed of by it. */
  lemma LatePublishIsMissed(maximum: nat, id: JsString) returns (steps: seq<Step>)
    requires maximum >= 1
    ensures var st := Run(maximum, steps);
      && StartDispose in steps && FinishDispose in steps && st.disposed && st.closing == []
      && |st.history| == 1 && !st.history[0].disposed && st.history[0].disposals == 0 && IsRetained(st.records, 0)
  {
    hide Run, Inv, PublishStep, StartDisposeStep, FinishDisposeStep;
    var s1, s2: seq<Step> := [StartDispose], [StartDispose, Publish(id, true)];
    steps := [StartDispose, Publish(id, true), FinishDispose];
    assert s1[..0] == [] && s2[..1] == s1 && steps[..2] == s2;
    RunStarts(maximum);
    RunNext(maximum, s1);
    RunNext(maximum, s2);
    RunNext(maximum, steps);
    LateSteps(maximum, id);
    assert LatePublished(id).records[0].1 == 0;
  }

  function LatePublished(id: JsString): State {
    State([(id, 0)], [Record(id, true, 0, true, false, 0)], [], Some(id), Idle, true, [])
  }

  lemma LateSteps(maximum: nat, id: JsString)
    requires maximum >= 1
    ensures var closed := INITIAL.(disposed := true);
      && StartDisposeStep(INITIAL) == closed && PublishStep(closed, maximum, id, true) == LatePublished(id)
      && FinishDisposeStep(LatePublished(id)) == LatePublished(id)
  {
    assert Positions([]) == [];
    var entry: (JsString, nat) := (id, 0);
    assert INITIAL.records + [entry] == [entry];
  }

  lemma RunStarts(maximum: nat)
    requires maximum >= 1
    ensures Run(maximum, []) == INITIAL
  {
  }

  lemma FinishedRecord(before: State, maximum: nat, at: nat)
    requires Inv(before, maximum) && at < |before.history|
    ensures var st := FinishDisposeStep(before);
      at < |st.history| && (st.disposed && !st.history[at].disposed ==>
        IsRetained(st.records, at) || (!st.history[at].retained && LiveReaders(st.readers, at) > 0))
  {
    hide LiveReaders, IsRetained, FinishDisposeStep;
    FinishDisposeKeeps(before, maximum);
    var st := FinishDisposeStep(before);
    FinishLength(before);
    assert RecordKept(st, at);
  }

  lemma FinishLength(before: State)
    requires InHistory(before)
    ensures |FinishDisposeStep(before).history| == |before.history| && FinishDisposeStep(before).closing == []
  {
    DisposeAllAt(before.history, before.closing);
  }
}
