/**
 Every run of the in-memory store: leases are exactly the live readers, nothing leased or current is
 dropped, and every collection ends within its bounds or with only exempt candidates left.
 */
module MemoryStoreRuns {
  import opened InsertionMap
  import opened MemoryStore
  import opened MemoryStoreSteps
  import opened Options
  import opened Utf16

  // ----- runs

  /** The store and its readers; a disposed reader holds nothing. */
  datatype World = World(store: State, readers: seq<seq<Hold>>)

  datatype Step =
    | Commit(tx: Transaction)
    | Open(universe: JsString, generation: Option<JsString>)
    | SnapshotSet(wanted: seq<(JsString, JsString)>)
    | DisposeReader(reader: nat)
    | DisposeStore

  ghost function Advance(config: Config, w: World, step: Step): World {
    match step
    case Commit(tx) => w.(store := CommitStep(config, w.store, tx).0)
    case Open(universe, generation) =>
      var after := OpenStep(w.store, universe, generation);
      World(after.0, if after.1.Some? then w.readers + [[after.1.value]] else w.readers)
    case SnapshotSet(wanted) =>
      var after := SnapshotSetStep(w.store, wanted);
      World(after.0, if after.1.Some? then w.readers + [after.1.value] else w.readers)
    case DisposeReader(reader) =>
      if reader < |w.readers| then
        World(ReleaseStep(config, w.store, w.readers[reader]), w.readers[reader := []])
      else w
    case DisposeStore => w.(store := DisposeStep(w.store))
  }

  ghost function Run(config: Config, w: World, steps: seq<Step>): World {
    if steps == [] then w else Advance(config, Run(config, w, steps[..|steps| - 1]), steps[|steps| - 1])
  }

  ghost function Held(readers: seq<seq<Hold>>): multiset<Hold> {
    if readers == [] then multiset{} else Held(readers[..|readers| - 1]) + multiset(readers[|readers| - 1])
  }

  /** Until the store is disposed its leases are the live readers; afterwards it is empty. */
  ghost predicate Consistent(w: World) {
    if w.store.disposed then w.store.universes == []
    else Inv(w.store) && Agree(w.store.universes, Held(w.readers))
  }

  lemma HeldSnoc(readers: seq<seq<Hold>>, holds: seq<Hold>)
    ensures Held(readers + [holds]) == Held(readers) + multiset(holds)
  {
    assert (readers + [holds])[..|readers|] == readers;
  }

  lemma {:induction false} HeldWithout(readers: seq<seq<Hold>>, k: nat)
    requires k < |readers|
    ensures multiset(readers[k]) <= Held(readers)
    ensures Held(readers[k := []]) == Held(readers) - multiset(readers[k])
  {
    var n := |readers| - 1;
    if k < n {
      HeldWithout(readers[..n], k);
      assert readers[k := []][..n] == readers[..n][k := []];
    } else {
      assert readers[k := []][..n] == readers[..n];
    }
  }

  lemma {:induction false} ReleaseAfterDispose(config: Config, st: State, holds: seq<Hold>)
    requires st.disposed && st.universes == []
    ensures ReleaseStep(config, st, holds).disposed && ReleaseStep(config, st, holds).universes == []
  {
    if holds == [] {
    } else {
      ReleaseAfterDispose(config, st, holds[..|holds| - 1]);
    }
  }

  lemma StepKeeps(config: Config, w: World, step: Step)
    requires Consistent(w)
    ensures Consistent(Advance(config, w, step))
  {
    hide Inv, Agree, CommitStep, OpenStep, ReleaseStep, Locate, AcquireAll, Held, LocateAll;
    var held := Held(w.readers);
    match step
    case Commit(tx) =>
      if w.store.disposed { DisposedRefuses(config, w.store, tx, [], None); } else {
        CommitKeeps(config, w.store, tx, held);
        OpenFlags(config, w.store, tx, [], None);
      }
    case Open(universe, generation) =>
      if w.store.disposed { DisposedRefuses(config, w.store, Transaction([], 0, [], false), universe, generation); } else {
        OpenKeeps(w.store, universe, generation, held);
        OpenFlags(config, w.store, Transaction([], 0, [], false), universe, generation);
        var after := OpenStep(w.store, universe, generation);
        if after.1.Some? {
          HeldSnoc(w.readers, [after.1.value]);
          assert multiset([after.1.value]) == multiset{after.1.value};
        }
      }
    case SnapshotSet(wanted) =>
      var after := SnapshotSetStep(w.store, wanted);
      if !w.store.disposed && after.1.Some? {
        LocateAllPresent(w.store, wanted);
        AcquireAllKeeps(w.store, after.1.value, held);
        HeldSnoc(w.readers, after.1.value);
      }
    case DisposeReader(reader) =>
      if reader < |w.readers| {
        if w.store.disposed { ReleaseAfterDispose(config, w.store, w.readers[reader]); } else {
          HeldWithout(w.readers, reader);
          ReleaseKeeps(config, w.store, w.readers[reader], held);
        }
      }
    case DisposeStore =>
  }

  lemma DisposedRefuses(config: Config, st: State, tx: Transaction, universe: JsString, generation: Option<JsString>)
    requires st.disposed
    ensures CommitStep(config, st, tx) == (st, false) && OpenStep(st, universe, generation) == (st, None)
  {
  }

  lemma OpenFlags(config: Config, st: State, tx: Transaction, universe: JsString, generation: Option<JsString>)
    requires !st.disposed
    ensures !CommitStep(config, st, tx).0.disposed && !OpenStep(st, universe, generation).0.disposed
  {
  }

  /** Every run from the empty store is consistent. */
  lemma {:induction false} RunIsConsistent(config: Config, steps: seq<Step>)
    ensures Consistent(Run(config, World(EMPTY, []), steps))
  {
    if steps == [] {
    } else {
      RunIsConsistent(config, steps[..|steps| - 1]);
      StepKeeps(config, Run(config, World(EMPTY, []), steps[..|steps| - 1]), steps[|steps| - 1]);
    }
  }

  /** In every run, before disposal, each generation a live reader holds and each current generation is retained. */
  lemma NothingInUseIsDropped(config: Config, steps: seq<Step>, h: Hold)
    ensures var w := Run(config, World(EMPTY, []), steps);
      !w.store.disposed ==>
        && LeasesAt(w.store.universes, h) == Held(w.readers)[h]
        && (h in Held(w.readers) ==> Present(w.store.universes, h))
        && (h.universe in w.store.current && w.store.current[h.universe] == h.sequence ==> Present(w.store.universes, h))
        && (Find(w.store.universes, h.universe).Some? <==> h.universe in w.store.current)
  {
    hide Run, Find, IsMap;
    RunIsConsistent(config, steps);
    var w := Run(config, World(EMPTY, []), steps);
    if !w.store.disposed { assert LeasesAt(w.store.universes, h) == Held(w.readers)[h]; }
  }

  /** A commit or the disposal of a reader ends with each touched universe and the universes settled. */
  lemma EveryCollectSettles(config: Config, steps: seq<Step>, step: Step)
    ensures var w := Run(config, World(EMPTY, []), steps);
      var after := Advance(config, w, step).store;
      && (!w.store.disposed && step.Commit? && CommitStep(config, w.store, step.tx).1 ==>
            Settled(config, after, step.tx.universe))
      && (!w.store.disposed && step.DisposeReader? && step.reader < |w.readers| ==>
            forall k :: 0 <= k < |w.readers[step.reader]| ==> Settled(config, after, w.readers[step.reader][k].universe))
  {
    hide Run, Inv, Agree, Settled, CommitStep, ReleaseStep, Held;
    RunIsConsistent(config, steps);
    var w := Run(config, World(EMPTY, []), steps);
    if !w.store.disposed {
      if step.Commit? { CommitKeeps(config, w.store, step.tx, Held(w.readers)); }
      if step.DisposeReader? && step.reader < |w.readers| {
        HeldWithout(w.readers, step.reader);
        ReleaseKeeps(config, w.store, w.readers[step.reader], Held(w.readers));
      }
    }
  }

  /** A commit never replaces a retained generation, and whatever it drops was neither leased nor current. */
  lemma CommitOnlyDropsUnused(config: Config, st: State, tx: Transaction, h: Hold)
    requires Inv(st) && CommitStep(config, st, tx).1 && EntryAt(st.universes, h).Some?
    ensures var after := CommitStep(config, st, tx).0;
      || EntryAt(after.universes, h) == EntryAt(st.universes, h)
      || (EntryAt(after.universes, h).None? && LeasesAt(st.universes, h) == 0
          && (h.universe !in after.current || after.current[h.universe] != h.sequence))
  {
    hide Inv, Find, Collect, CommitStep, Placed;
    CommitPlacesNew(config, st, tx);
    CollectKeeps(config, Placed(st, tx), tx.universe);
    assert EntryAt(CommitStep(config, st, tx).0.universes, h).Some? || EntryAt(CommitStep(config, st, tx).0.universes, h).None?;
    assert EntryAt(Placed(st, tx).universes, h) == EntryAt(st.universes, h);
  }

  // ----- opening does not collect

  /** In every run the universes stay settled through every step but an opening that was called outside the bound. */
  lemma OnlyOpeningUnsettles(config: Config, steps: seq<Step>, step: Step)
    requires UniversesSettled(config, Run(config, World(EMPTY, []), steps).store)
    ensures var w := Run(config, World(EMPTY, []), steps);
      UniversesSettled(config, Advance(config, w, step).store) <==>
        (step.Open? && OpenStep(w.store, step.universe, step.generation).1.Some? ==> OpensWithinBound(config, w.store, step.universe))
  {
    hide Run, Inv, Agree, CommitStep, OpenStep, ReleaseStep, Held, Locate, LocateAll, AcquireAll, UniversesSettled, OpensWithinBound;
    RunIsConsistent(config, steps);
    var w := Run(config, World(EMPTY, []), steps);
    var after := Advance(config, w, step).store;
    if w.store.disposed {
      StepKeeps(config, w, step);
      DisposedStays(config, w, step);
      NothingUnsettled(config, after);
    } else {
      match step
      case Commit(tx) =>
        CommitKeeps(config, w.store, tx, Held(w.readers));
        if !CommitStep(config, w.store, tx).1 { FailedCommit(config, w.store, tx); }
      case Open(universe, generation) =>
        if OpenStep(w.store, universe, generation).1.Some? {
          OpenSettlesIff(config, w.store, universe, generation);
        } else {
          FailedOpen(w.store, universe, generation);
        }
      case SnapshotSet(wanted) =>
        if LocateAll(w.store, wanted).Some? {
          LocateAllPresent(w.store, wanted);
          AcquireAllSettled(config, w.store, LocateAll(w.store, wanted).value);
        }
      case DisposeReader(reader) =>
        if reader < |w.readers| {
          EveryCollectSettles(config, steps, step);
          if w.readers[reader] != [] {
            assert Settled(config, after, w.readers[reader][0].universe);
          } else {
            NothingReleased(config, w.store);
          }
        }
      case DisposeStore => NothingUnsettled(config, after);
    }
  }

  lemma DisposedStays(config: Config, w: World, step: Step)
    requires w.store.disposed && w.store.universes == []
    ensures Advance(config, w, step).store.universes == []
    ensures step.Open? ==> OpenStep(w.store, step.universe, step.generation).1.None?
  {
    hide CommitStep, OpenStep;
    if step.Commit? { DisposedRefuses(config, w.store, step.tx, [], None); }
    if step.Open? { DisposedRefuses(config, w.store, Transaction([], 0, [], false), step.universe, step.generation); }
    if step.DisposeReader? && step.reader < |w.readers| { ReleaseAfterDispose(config, w.store, w.readers[step.reader]); }
  }

  lemma NothingUnsettled(config: Config, st: State)
    requires st.universes == []
    ensures UniversesSettled(config, st)
  {
  }

  lemma FailedOpen(st: State, universe: JsString, generation: Option<JsString>)
    requires OpenStep(st, universe, generation).1.None?
    ensures OpenStep(st, universe, generation).0 == st
  {
  }

  lemma NothingReleased(config: Config, st: State)
    ensures ReleaseStep(config, st, []) == st
  {
  }

  /**
   Opening an older universe makes it the most recent one without collecting, so the universe that was
   most recent can exceed the bound until the next collection.
   */
  lemma OpenLeavesBoundExceeded() returns (steps: seq<Step>)
    ensures var after := Run(Config(1, Some(1)), World(EMPTY, []), steps).store;
      |after.universes| == 2 && !Exempt(after.universes[0], after.recent)
  {
    hide CommitStep, OpenStep;
    var a, b, id: JsString := [65], [66], [71];
    var config, start := Config(1, Some(1)), World(EMPTY, []);
    var commitA, openA, commitB := Commit(Transaction(a, 1, id, true)), Open(a, None), Commit(Transaction(b, 1, id, true));
    CommitFirst(a, id);
    OpenFirst(a, id);
    CommitSecond(a, b, id);
    OpenAgain(a, b, id);
    assert Run(config, start, [commitA]) == World(Stage1(a, id), []) by { assert [] + [commitA] == [commitA]; }
    steps := [commitA, openA, commitB, openA];
    assert Run(config, start, [commitA, openA]) == World(Stage2(a, id), [[Hold(a, 1)]]);
    assert [commitA, openA] + [commitB] == [commitA, openA, commitB];
    assert [commitA, openA, commitB] + [openA] == steps;
    assert Run(config, start, [commitA, openA, commitB]) == World(Stage3(a, b, id), [[Hold(a, 1)]]);
    assert Run(config, start, steps).store == Stage4(a, b, id);
    assert Stage4(a, b, id).universes[0].1[0].1.leases == 0;
  }

  function One(id: JsString, leases: nat): Generations { [(1, Retained(id, leases))] }

  function Stage1(a: JsString, id: JsString): State { State([(a, One(id, 0))], map[a := 1], Some(a), false) }

  function Stage2(a: JsString, id: JsString): State { State([(a, One(id, 1))], map[a := 1], Some(a), false) }

  function Stage3(a: JsString, b: JsString, id: JsString): State {
    State([(a, One(id, 1)), (b, One(id, 0))], map[a := 1, b := 1], Some(b), false)
  }

  function Stage4(a: JsString, b: JsString, id: JsString): State {
    State([(b, One(id, 0)), (a, One(id, 2))], map[a := 1, b := 1], Some(a), false)
  }

  lemma FindOne(id: JsString, leases: nat, change: nat)
    ensures Find(One(id, leases), 1) == Some(Retained(id, leases))
    ensures Put(One(id, leases), 1, Retained(id, change)) == One(id, change)
  {
    assert One(id, leases)[1..] == [];
  }

  /** Collecting changes nothing while both bounds hold or everything is exempt. */
  lemma CollectNothing(config: Config, st: State, universe: JsString)
    requires Find(st.universes, universe).Some? && |Find(st.universes, universe).value| <= config.maximumRetained
    requires config.maximumUniverses.Some?
    requires forall i :: 0 <= i < |st.universes| ==> Exempt(st.universes[i], st.recent)
    ensures Collect(config, st, universe) == st
  {
    PutSame(st.universes, universe);
    EvictNothing(Tables(st.universes, st.current), st.recent, config.maximumUniverses.value, 0);
  }

  lemma {:induction false} EvictNothing(t: Tables, recent: Option<JsString>, maximum: nat, i: nat)
    requires forall k :: 0 <= k < |t.universes| ==> Exempt(t.universes[k], recent)
    ensures EvictFrom(t, recent, maximum, i) == t
    decreases |t.universes| - i
  {
    if i < |t.universes| && |t.universes| > maximum { EvictNothing(t, recent, maximum, i + 1); }
  }

  lemma CommitFirst(a: JsString, id: JsString)
    ensures CommitStep(Config(1, Some(1)), EMPTY, Transaction(a, 1, id, true)) == (Stage1(a, id), true)
  {
    hide Collect;
    FindEmpty<JsString, Generations>(a);
    var none: Generations := [];
    assert Put(none, 1, Retained(id, 0)) == One(id, 0);
    var u: Universes := [];
    assert Drop(u, a) + [(a, One(id, 0))] == [(a, One(id, 0))];
    CollectNothing(Config(1, Some(1)), Stage1(a, id), a);
  }

  lemma OpenFirst(a: JsString, id: JsString)
    ensures OpenStep(Stage1(a, id), a, None) == (Stage2(a, id), Some(Hold(a, 1)))
  {
    var u := Stage1(a, id).universes;
    FindOne(id, 0, 1);
    assert u[1..] == [] && Find(u, a) == Some(One(id, 0));
    var leased: Universes := [(a, One(id, 1))];
    assert SetLeases(u, Hold(a, 1), 1) == leased;
    assert Locate(Stage1(a, id), a, None) == Some(Hold(a, 1));
    assert leased[1..] == [] && Drop(leased, a) == [] && Find(leased, a) == Some(One(id, 1));
    assert Drop(leased, a) + [(a, One(id, 1))] == leased;
  }

  lemma CommitSecond(a: JsString, b: JsString, id: JsString)
    requires a != b
    ensures CommitStep(Config(1, Some(1)), Stage2(a, id), Transaction(b, 1, id, true)) == (Stage3(a, b, id), true)
  {
    hide Collect;
    var u := Stage2(a, id).universes;
    var none: Generations := [];
    assert Put(none, 1, Retained(id, 0)) == One(id, 0);
    DropEmpty<JsString, Generations>(b);
    assert u[1..] == [] && Find(u, b).None? && Drop(u[1..], b) == [];
    assert Drop(u, b) == u;
    var w := Stage3(a, b, id).universes;
    assert w[1..] == [(b, One(id, 0))] && Find(w, b) == Some(One(id, 0));
    assert u + [(b, One(id, 0))] == w && CurrentSequence(Stage2(a, id), b) == 0;
    assert HasLease(w[0].1) && Exempt(w[0], Some(b)) && Exempt(w[1], Some(b)) by { assert One(id, 1)[0].1.leases == 1; }
    assert One(id, 1)[0].1.leases > 0;
    CollectNothing(Config(1, Some(1)), Stage3(a, b, id), b);
  }

  lemma OpenAgain(a: JsString, b: JsString, id: JsString)
    requires a != b
    ensures OpenStep(Stage3(a, b, id), a, None) == (Stage4(a, b, id), Some(Hold(a, 1)))
  {
    var u := Stage3(a, b, id).universes;
    FindOne(id, 1, 2);
    assert u[1..] == [(b, One(id, 0))] && Find(u, a) == Some(One(id, 1));
    var leased: Universes := [(a, One(id, 2)), (b, One(id, 0))];
    assert SetLeases(u, Hold(a, 1), 1) == leased;
    assert leased[1..] == [(b, One(id, 0))] && Drop(leased, a) == [(b, One(id, 0))];
    assert Find(leased, a) == Some(One(id, 2));
    assert Locate(Stage3(a, b, id), a, None) == Some(Hold(a, 1));
    assert Drop(leased, a) + [(a, One(id, 2))] == Stage4(a, b, id).universes;
  }
}
