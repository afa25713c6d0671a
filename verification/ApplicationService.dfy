/**
 Publishing, reading and disposing application snapshots. Publishes are serialised; between two awaits
 every step is atomic, and readers and the disposal of the service interleave freely with a publish.

 A publish is cut at its awaits into a first step and resuming steps, and a disposal into two. The invariant ties
 each record to its live readers and to the table of retained records, and every step keeps it; what this means
 for whole runs is in `ApplicationServiceRuns`. The class at the end takes the same steps.
 */
module ApplicationService {
  import opened InsertionMap
  import opened Options
  import opened Utf16

  /** One published record; `disposals` counts the calls that dispose its analysis. */
  datatype Record = Record(
    snapshot: JsString, hasAnalysis: bool, readers: nat, retained: bool, disposed: bool, disposals: nat)

  datatype Reader = Reader(record: nat, disposed: bool)

  /** What a publish in flight waits for: the unused analysis of a known snapshot, or an evicted record. */
  datatype Publishing = Idle | Duplicate(id: JsString, record: nat) | Evicting

  /**
   `records` is the map of retained records, by position in `history`, oldest first; `closing` are the
   records a disposal of the service captured and has not disposed of yet.
   */
  datatype State = State(
    records: Entries<JsString, nat>, history: seq<Record>, readers: seq<Reader>, current: Option<JsString>,
    publishing: Publishing, disposed: bool, closing: seq<nat>)

  const INITIAL: State := State([], [], [], None, Idle, false, [])

  // ----- steps

  function DisposeRecord(r: Record): Record {
    if r.disposed then r else r.(disposed := true, disposals := r.disposals + if r.hasAnalysis then 1 else 0)
  }

  /** Moves a record's entry to the end. */
  function Renewed(st: State, id: JsString, record: nat): State {
    st.(records := Drop(st.records, id) + [(id, record)], current := Some(id), publishing := Idle)
  }

  /** Evicts the oldest records until the bound holds, or until a disposal has to be awaited. */
  function Evict(st: State, maximum: nat): State
    requires forall i :: 0 <= i < |st.records| ==> st.records[i].1 < |st.history|
    decreases |st.records|
  {
    if |st.records| <= maximum then st.(publishing := Idle)
    else
      var oldest := st.records[0].1;
      var r := st.history[oldest].(retained := false);
      if r.readers == 0 then
        st.(records := st.records[1..], history := st.history[oldest := DisposeRecord(r)], publishing := Evicting)
      else
        Evict(st.(records := st.records[1..], history := st.history[oldest := r]), maximum)
  }

  ghost predicate InHistory(st: State) {
    && (forall i :: 0 <= i < |st.records| ==> st.records[i].1 < |st.history|)
    && (forall i :: 0 <= i < |st.readers| ==> st.readers[i].record < |st.history|)
    && (forall i :: 0 <= i < |st.closing| ==> st.closing[i] < |st.history|)
    && (st.publishing.Duplicate? ==> st.publishing.record < |st.history|)
  }

  /** A new record, retained and current. */
  function Recorded(st: State, id: JsString, hasAnalysis: bool): State {
    var entry: (JsString, nat) := (id, |st.history|);
    st.(records := st.records + [entry], history := st.history + [Record(id, hasAnalysis, 0, true, false, 0)], current := Some(id))
  }

  /** Starts a publish, up to its first await. */
  function PublishStep(st: State, maximum: nat, id: JsString, hasAnalysis: bool): State
    requires InHistory(st)
  {
    var existing := Find(st.records, id);
    if existing.Some? then
      if hasAnalysis then st.(publishing := Duplicate(id, existing.value)) else Renewed(st, id, existing.value)
    else
      Evict(Recorded(st, id, hasAnalysis), maximum)
  }

  /** Continues a publish after an await. */
  function ResumeStep(st: State, maximum: nat): State
    requires InHistory(st)
  {
    match st.publishing
    case Idle => st
    case Duplicate(id, record) => Renewed(st, id, record)
    case Evicting => Evict(st, maximum)
  }

  /** A reader of the named or the current snapshot; absent when there is none to read. */
  function Opened(st: State, id: Option<JsString>): Option<nat> {
    var wanted := if id.Some? then id else st.current;
    if st.disposed || wanted.None? then None else Find(st.records, wanted.value)
  }

  ghost predicate Retains(st: State, id: JsString) { exists i :: 0 <= i < |st.records| && st.records[i].0 == id }

  /** The reader is on a record of the snapshot. */
  ghost predicate Reads(st: State, reader: nat, id: JsString) {
    && reader < |st.readers| && st.readers[reader].record < |st.history|
    && st.history[st.readers[reader].record].snapshot == id
  }

  /** A reader of the named snapshot, or of the current one, exactly when the service is open and retains it. */
  ghost predicate Answers(before: State, id: Option<JsString>, after: State, reader: Option<nat>) {
    && (id.Some? ==> (reader.Some? <==> !before.disposed && Retains(before, id.value)))
    && (id.Some? && reader.Some? ==> Reads(after, reader.value, id.value))
    && (id.None? ==> (reader.Some? <==> !before.disposed && before.current.Some? && Retains(before, before.current.value)))
    && (id.None? && reader.Some? ==> Reads(after, reader.value, before.current.value))
  }

  function OpenStep(st: State, id: Option<JsString>): State
    requires Opened(st, id).Some? ==> Opened(st, id).value < |st.history|
  {
    var record := Opened(st, id);
    if record.None? then st
    else
      var r := st.history[record.value];
      st.(history := st.history[record.value := r.(readers := r.readers + 1)], readers := st.readers + [Reader(record.value, false)])
  }

  /** Disposes a reader: the second time nothing happens. */
  function CloseStep(st: State, reader: nat): State
    requires InHistory(st)
  {
    if reader >= |st.readers| || st.readers[reader].disposed then st
    else
      var at := st.readers[reader].record;
      var r := st.history[at];
      var less := r.(readers := if r.readers == 0 then 0 else r.readers - 1);
      st.(readers := st.readers[reader := Reader(at, true)],
        history := st.history[at := if !less.retained && less.readers == 0 then DisposeRecord(less) else less])
  }

  function Positions(records: Entries<JsString, nat>): seq<nat> {
    seq(|records|, i requires 0 <= i < |records| => records[i].1)
  }

  function StartDisposeStep(st: State): State {
    if st.disposed then st else st.(disposed := true, current := None, closing := Positions(st.records), records := [])
  }

  function DisposeAll(history: seq<Record>, positions: seq<nat>): seq<Record>
    requires forall i :: 0 <= i < |positions| ==> positions[i] < |history|
  {
    if positions == [] then history
    else
      var n := |positions| - 1;
      var before := DisposeAll(history, positions[..n]);
      if positions[n] < |before| then before[positions[n] := DisposeRecord(before[positions[n]])] else before
  }

  function FinishDisposeStep(st: State): State
    requires InHistory(st)
  {
    st.(history := DisposeAll(st.history, st.closing), closing := [])
  }

  // ----- the invariant

  function LiveReaders(readers: seq<Reader>, record: nat): nat {
    if readers == [] then 0
    else
      var last := readers[|readers| - 1];
      LiveReaders(readers[..|readers| - 1], record) + if last.record == record && !last.disposed then 1 else 0
  }

  ghost predicate IsRetained(records: Entries<JsString, nat>, record: nat) {
    exists i :: 0 <= i < |records| && records[i].1 == record
  }

  /** What every step keeps about one record. */
  ghost predicate RecordKept(st: State, at: nat)
    requires at < |st.history|
  {
    var r := st.history[at];
    && r.readers == LiveReaders(st.readers, at)
    && r.disposals == (if r.disposed && r.hasAnalysis then 1 else 0)
    && (!r.retained && r.readers == 0 ==> r.disposed)
    && (!st.disposed && r.disposed ==> !r.retained && r.readers == 0)
    && (!st.disposed ==> (r.retained <==> IsRetained(st.records, at)))
    && (!r.retained ==> !IsRetained(st.records, at))
    && (st.disposed && r.retained && !r.disposed ==> at in st.closing || IsRetained(st.records, at))
  }

  ghost predicate CurrentIsNewest(st: State) {
    if st.records == [] then st.current.None? else st.current == Some(st.records[|st.records| - 1].0)
  }

  /** Each retained entry names its own record. */
  ghost predicate TablesMatch(st: State) {
    && IsMap(st.records)
    && (forall i, j :: 0 <= i < j < |st.records| ==> st.records[i].1 != st.records[j].1)
    && (forall i :: 0 <= i < |st.records| ==> st.records[i].1 < |st.history| && st.history[st.records[i].1].snapshot == st.records[i].0)
  }

  ghost predicate DuplicateKept(st: State) {
    st.publishing.Duplicate? ==>
      && st.publishing.record < |st.history| && st.history[st.publishing.record].snapshot == st.publishing.id
      && st.history[st.publishing.record].retained
      && (st.records == [] || Find(st.records, st.publishing.id) == Some(st.publishing.record))
  }

  ghost predicate Kept(st: State) {
    && InHistory(st) && TablesMatch(st) && CurrentIsNewest(st) && DuplicateKept(st)
    && (forall at: nat :: at < |st.history| ==> RecordKept(st, at))
    && (!st.disposed ==> st.closing == [])
  }

  ghost predicate Inv(st: State, maximum: nat) { Kept(st) && |st.records| <= maximum }

  // ----- entries and readers

  lemma RetainedSnoc(records: Entries<JsString, nat>, e: (JsString, nat), at: nat)
    ensures IsRetained(records + [e], at) <==> IsRetained(records, at) || at == e.1
  {
    if IsRetained(records, at) {
      var i :| 0 <= i < |records| && records[i].1 == at;
      assert (records + [e])[i] == records[i];
    }
    if at == e.1 { assert (records + [e])[|records|] == e; }
  }

  lemma {:induction false} LiveReadersSnoc(readers: seq<Reader>, r: Reader, record: nat)
    ensures LiveReaders(readers + [r], record) == LiveReaders(readers, record) + if r.record == record && !r.disposed then 1 else 0
  {
    assert (readers + [r])[..|readers|] == readers;
  }

  lemma {:induction false} LiveReadersClosed(readers: seq<Reader>, k: nat, record: nat)
    requires k < |readers| && !readers[k].disposed
    ensures LiveReaders(readers[k := readers[k].(disposed := true)], record) ==
      LiveReaders(readers, record) - if readers[k].record == record then 1 else 0
  {
    var n := |readers| - 1;
    var closed := readers[k := readers[k].(disposed := true)];
    if k < n {
      assert closed[..n] == readers[..n][k := readers[k].(disposed := true)];
      LiveReadersClosed(readers[..n], k, record);
    } else {
      assert closed[..n] == readers[..n];
    }
  }

  lemma {:induction false} NoReaders(readers: seq<Reader>, record: nat)
    requires forall i :: 0 <= i < |readers| ==> readers[i].record < record
    ensures LiveReaders(readers, record) == 0
  {
    if readers == [] {
    } else {
      NoReaders(readers[..|readers| - 1], record);
    }
  }

  // ----- eviction

  function OldestGone(st: State): State
    requires st.records != [] && st.records[0].1 < |st.history|
  {
    var oldest := st.records[0].1;
    var r := st.history[oldest].(retained := false);
    st.(records := st.records[1..], history := st.history[oldest := if r.readers == 0 then DisposeRecord(r) else r])
  }

  /** Evicting the oldest of at least two records keeps everything but the bound. */
  lemma OldestGoneKeeps(st: State)
    requires Kept(st) && |st.records| >= 2 && !st.publishing.Duplicate?
    ensures Kept(OldestGone(st))
  {
    hide IsMap, LiveReaders;
    var after := OldestGone(st);
    Uncons(st.records);
    assert TablesMatch(after) by {
      forall i | 0 <= i < |after.records| ensures after.records[i] == st.records[i + 1] {}
    }
    forall at: nat | at < |after.history| ensures RecordKept(after, at) {
      assert RecordKept(st, at);
      assert IsRetained(st.records, st.records[0].1);
    }
  }

  lemma {:induction false} EvictKeeps(st: State, maximum: nat)
    requires Kept(st) && maximum >= 1 && !st.publishing.Duplicate? && |st.records| <= maximum + 1
    ensures Inv(Evict(st, maximum), maximum) && !Evict(st, maximum).publishing.Duplicate?
    ensures Evict(st, maximum).disposed == st.disposed && |Evict(st, maximum).history| == |st.history|
  {
    hide TablesMatch, RecordKept, CurrentIsNewest;
    if |st.records| > maximum {
      OldestGoneKeeps(st);
      var after := OldestGone(st);
      PendingKeeps(after, Evicting);
      PendingKeeps(after, Idle);
    } else {
      PendingKeeps(st, Idle);
    }
  }

  /** What a publish waits for next does not matter, unless it is a duplicate. */
  lemma PendingKeeps(st: State, publishing: Publishing)
    requires Kept(st) && !publishing.Duplicate?
    ensures Kept(st.(publishing := publishing))
  {
    hide TablesMatch, LiveReaders, IsRetained;
    var after := st.(publishing := publishing);
    assert TablesMatch(after) by { SameTables(st, after); }
    forall at: nat | at < |after.history| ensures RecordKept(after, at) { assert RecordKept(st, at); }
  }

  lemma SameTables(a: State, b: State)
    requires TablesMatch(a) && b.records == a.records && b.history == a.history
    ensures TablesMatch(b)
  {
  }

  // ----- the steps keep the invariant

  lemma NewRecordKeeps(st: State, id: JsString, hasAnalysis: bool)
    requires Kept(st) && Find(st.records, id).None? && st.publishing.Idle?
    ensures Kept(Recorded(st, id, hasAnalysis)) && |Recorded(st, id, hasAnalysis).records| == |st.records| + 1
  {
    hide LiveReaders, IsMap;
    var after := Recorded(st, id, hasAnalysis);
    var entry: (JsString, nat) := (id, |st.history|);
    FindHas(st.records, id);
    SnocIsMap(st.records, entry);
    NoReaders(st.readers, |st.history|);
    forall at: nat | at < |after.history| ensures RecordKept(after, at) {
      if at < |st.history| { assert RecordKept(st, at); }
      RetainedSnoc(st.records, entry, at);
      if at == |st.history| { assert !IsRetained(st.records, at); }
    }
  }

  /** Dropping an entry and adding it at the end. */
  lemma RenewedTables(records: Entries<JsString, nat>, id: JsString, record: nat)
    requires IsMap(records) && forall i, j :: 0 <= i < j < |records| ==> records[i].1 != records[j].1
    requires records == [] || Find(records, id) == Some(record)
    ensures var after := Drop(records, id) + [(id, record)];
      && IsMap(after) && |after| == (if records == [] then 1 else |records|)
      && (forall i, j :: 0 <= i < j < |after| ==> after[i].1 != after[j].1)
      && (forall i :: 0 <= i < |after| ==> after[i] == (id, record) || after[i] in records)
      && (forall at :: IsRetained(after, at) <==> IsRetained(records, at) || at == record)
  {
    hide IsMap, Find, Drop;
    DropMeans(records, id);
    FindDrop(records, id, id);
    FindHas(Drop(records, id), id);
    SnocIsMap(Drop(records, id), (id, record));
    DropLength(records, id);
    if records == [] {
      DropEmpty<JsString, nat>(id);
    } else {
      var k := FindIndex(records, id);
      RemoveAtIsDrop(records, k);
      RemovedAt(records, k);
    }
    forall at: nat ensures IsRetained(Drop(records, id) + [(id, record)], at) <==> IsRetained(Drop(records, id), at) || at == record {
      RetainedSnoc(Drop(records, id), (id, record), at);
    }
  }

  lemma RemovedAt(records: Entries<JsString, nat>, k: nat)
    requires k < |records| && forall i, j :: 0 <= i < j < |records| ==> records[i].1 != records[j].1
    ensures var rest := records[..k] + records[k + 1..];
      && (forall i, j :: 0 <= i < j < |rest| ==> rest[i].1 != rest[j].1)
      && (forall i :: 0 <= i < |rest| ==> rest[i] in records && rest[i].1 != records[k].1)
      && (forall at :: IsRetained(rest, at) <==> IsRetained(records, at) && at != records[k].1)
  {
    var rest := records[..k] + records[k + 1..];
    assert forall i :: 0 <= i < |rest| ==> rest[i] == records[if i < k then i else i + 1];
    forall at | IsRetained(records, at) && at != records[k].1 ensures IsRetained(rest, at) {
      var i :| 0 <= i < |records| && records[i].1 == at;
      assert rest[if i < k then i else i - 1] == records[i];
    }
  }

  lemma RenewKeeps(st: State, maximum: nat, id: JsString, record: nat)
    requires Inv(st, maximum) && maximum >= 1
    requires record < |st.history| && st.history[record].snapshot == id && st.history[record].retained
    requires st.records == [] || Find(st.records, id) == Some(record)
    ensures Inv(Renewed(st, id, record), maximum)
  {
    hide IsMap, Find, Drop, LiveReaders;
    var after := Renewed(st, id, record);
    RenewedTables(st.records, id, record);
    forall i | 0 <= i < |after.records|
      ensures after.records[i].1 < |st.history| && st.history[after.records[i].1].snapshot == after.records[i].0
    {
      if after.records[i] != (id, record) { var k :| 0 <= k < |st.records| && st.records[k] == after.records[i]; }
    }
    forall at: nat | at < |after.history| ensures RecordKept(after, at) {
      assert RecordKept(st, at);
    }
  }

  lemma FoundRecord(st: State, id: JsString)
    requires Kept(st) && Find(st.records, id).Some?
    ensures var at := Find(st.records, id).value;
      at < |st.history| && st.history[at].snapshot == id && st.history[at].retained
  {
    hide LiveReaders, IsMap;
    var i := FindIndex(st.records, id);
    var at := Find(st.records, id).value;
    assert RecordKept(st, at);
    assert IsRetained(st.records, at);
  }

  lemma PublishKeeps(st: State, maximum: nat, id: JsString, hasAnalysis: bool)
    requires Inv(st, maximum) && maximum >= 1 && st.publishing.Idle?
    ensures Inv(PublishStep(st, maximum, id, hasAnalysis), maximum)
  {
    hide TablesMatch, RecordKept, CurrentIsNewest, Find, Renewed;
    if Find(st.records, id).Some? {
      FoundRecord(st, id);
      RenewKeeps(st, maximum, id, Find(st.records, id).value);
      DuplicateWaits(st, maximum, id);
    } else {
      NewRecordKeeps(st, id, hasAnalysis);
      EvictKeeps(Recorded(st, id, hasAnalysis), maximum);
    }
  }

  lemma DuplicateWaits(st: State, maximum: nat, id: JsString)
    requires Inv(st, maximum) && Find(st.records, id).Some?
    ensures Inv(st.(publishing := Duplicate(id, Find(st.records, id).value)), maximum)
  {
    hide LiveReaders, IsRetained, Find, IsMap;
    FoundRecord(st, id);
    var after := st.(publishing := Duplicate(id, Find(st.records, id).value));
    forall at: nat | at < |after.history| ensures RecordKept(after, at) { assert RecordKept(st, at); }
  }

  lemma ResumeKeeps(st: State, maximum: nat)
    requires Inv(st, maximum) && maximum >= 1
    ensures Inv(ResumeStep(st, maximum), maximum)
  {
    hide TablesMatch, RecordKept, CurrentIsNewest, Find, Renewed;
    match st.publishing
    case Idle =>
    case Duplicate(id, record) => RenewKeeps(st, maximum, id, record);
    case Evicting => EvictKeeps(st, maximum);
  }

  lemma OpenKeeps(st: State, maximum: nat, id: Option<JsString>)
    requires Inv(st, maximum)
    ensures Opened(st, id).Some? ==> Opened(st, id).value < |st.history|
    ensures Inv(OpenStep(st, id), maximum)
  {
    hide IsMap, Find, LiveReaders;
    if Opened(st, id).Some? {
      var wanted := if id.Some? then id.value else st.current.value;
      FoundRecord(st, wanted);
      var k := Opened(st, id).value;
      assert IsRetained(st.records, k) by { var i := FindIndex(st.records, wanted); }
      var after := OpenStep(st, id);
      forall at: nat | at < |after.history| ensures RecordKept(after, at) {
        assert RecordKept(st, at);
        LiveReadersSnoc(st.readers, Reader(k, false), at);
      }
    }
  }

  lemma RetainsIff(st: State, id: JsString)
    ensures Retains(st, id) <==> Find(st.records, id).Some?
  {
    FindHas(st.records, id);
    if Retains(st, id) {
      var i :| 0 <= i < |st.records| && st.records[i].0 == id;
      assert Keys(st.records)[i] == id;
    }
    if Find(st.records, id).Some? { var i := FindIndex(st.records, id); }
  }

  /** Opening reads the snapshot it names, or the current one. */
  lemma OpenAnswers(st: State, maximum: nat, id: Option<JsString>)
    requires Inv(st, maximum)
    ensures Opened(st, id).Some? ==> Opened(st, id).value < |st.history|
    ensures Answers(st, id, OpenStep(st, id), if Opened(st, id).Some? then Some(|st.readers|) else None)
  {
    hide IsMap, Find, LiveReaders, RecordKept;
    if id.Some? { RetainsIff(st, id.value); }
    if st.current.Some? { RetainsIff(st, st.current.value); }
    if Opened(st, id).Some? {
      var k := FindIndex(st.records, if id.Some? then id.value else st.current.value);
      assert st.records[k].1 == Opened(st, id).value;
    }
  }

  lemma CloseKeeps(st: State, maximum: nat, reader: nat)
    requires Inv(st, maximum)
    ensures Inv(CloseStep(st, reader), maximum)
  {
    hide IsMap, Find, LiveReaders, IsRetained;
    if reader < |st.readers| && !st.readers[reader].disposed {
      var after := CloseStep(st, reader);
      assert after.readers == st.readers[reader := st.readers[reader].(disposed := true)];
      forall at: nat | at < |after.history| ensures RecordKept(after, at) {
        assert RecordKept(st, at);
        LiveReadersClosed(st.readers, reader, at);
      }
    }
  }

  lemma StartDisposeKeeps(st: State, maximum: nat)
    requires Inv(st, maximum)
    ensures Inv(StartDisposeStep(st), maximum)
  {
    hide LiveReaders, Find;
    var after := StartDisposeStep(st);
    if !st.disposed {
      assert Keys<JsString, nat>([]) == [];
      forall at: nat | at < |after.history| ensures RecordKept(after, at) {
        assert RecordKept(st, at);
        if IsRetained(st.records, at) {
          var i :| 0 <= i < |st.records| && st.records[i].1 == at;
          assert Positions(st.records)[i] == at;
        }
      }
    }
  }

  lemma {:induction false} DisposeAllAt(history: seq<Record>, positions: seq<nat>)
    requires forall i :: 0 <= i < |positions| ==> positions[i] < |history|
    ensures |DisposeAll(history, positions)| == |history|
    ensures forall at :: 0 <= at < |history| ==>
      DisposeAll(history, positions)[at] == if at in positions then DisposeRecord(history[at]) else history[at]
  {
    if positions == [] {
    } else {
      DisposeAllAt(history, positions[..|positions| - 1]);
      assert positions == positions[..|positions| - 1] + [positions[|positions| - 1]];
    }
  }

  lemma FinishDisposeKeeps(st: State, maximum: nat)
    requires Inv(st, maximum)
    ensures Inv(FinishDisposeStep(st), maximum)
  {
    hide LiveReaders, IsRetained, Find, IsMap, DisposeAll;
    var after := FinishDisposeStep(st);
    DisposeAllAt(st.history, st.closing);
    forall at: nat | at < |after.history| ensures RecordKept(after, at) { assert RecordKept(st, at); }
  }

  // ----- the class

  /** The service between two awaits; a reader is known by its position. */
  class HeadlessApplicationService {
    const maximum: nat
    var records: Entries<JsString, nat>
    var history: seq<Record>
    var readers: seq<Reader>
    var current: Option<JsString>
    var publishing: Publishing
    var disposed: bool
    var closing: seq<nat>

    ghost function Value(): State
      reads this
    {
      State(records, history, readers, current, publishing, disposed, closing)
    }

    ghost predicate Valid()
      reads this
    {
      maximum >= 1 && Inv(Value(), maximum)
    }

    constructor (maximum: nat)
      requires maximum >= 1
      ensures Valid() && this.maximum == maximum && Value() == INITIAL
    {
      this.maximum := maximum;
      records, history, readers, current, publishing, disposed, closing := [], [], [], None, Idle, false, [];
      new;
    }

    method DisposeOf(record: nat)
      requires record < |history|
      modifies this`history
      ensures history == old(history)[record := DisposeRecord(old(history)[record])]
    {
      var r := history[record];
      if r.disposed { return; }
      history := history[record := r.(disposed := true, disposals := r.disposals + if r.hasAnalysis then 1 else 0)];
    }

    /** The eviction loop, up to the disposal it has to await. */
    method EvictOldest()
      requires InHistory(Value()) && !publishing.Duplicate?
      modifies this
      ensures Value() == Evict(old(Value()), maximum)
    {
      hide Find;
      while |records| > maximum
        invariant InHistory(Value()) && !publishing.Duplicate?
        invariant Evict(Value(), maximum) == Evict(old(Value()), maximum)
        decreases |records|
      {
        var oldest := records[0].1;
        records := records[1..];
        history := history[oldest := history[oldest].(retained := false)];
        if history[oldest].readers == 0 {
          DisposeOf(oldest);
          publishing := Evicting;
          return;
        }
      }
      publishing := Idle;
    }

    method Renew(id: JsString, record: nat)
      modifies this
      ensures Value() == Renewed(old(Value()), id, record)
    {
      records := Drop(records, id);
      records := records + [(id, record)];
      current := Some(id);
      publishing := Idle;
    }

    method Publish(id: JsString, hasAnalysis: bool)
      requires Valid() && publishing.Idle?
      modifies this
      ensures Valid() && Value() == PublishStep(old(Value()), maximum, id, hasAnalysis)
    {
      hide Find, Drop, Inv, Evict, Renewed;
      assert InHistory(Value()) by { InvIsInHistory(Value(), maximum); }
      PublishKeeps(Value(), maximum, id, hasAnalysis);
      var existing := Find(records, id);
      if existing.Some? {
        if hasAnalysis {
          publishing := Duplicate(id, existing.value);
        } else {
          Renew(id, existing.value);
        }
        return;
      }
      var entry: (JsString, nat) := (id, |history|);
      records := records + [entry];
      history := history + [Record(id, hasAnalysis, 0, true, false, 0)];
      current := Some(id);
      EvictOldest();
    }

    method ResumePublish()
      requires Valid()
      modifies this
      ensures Valid() && Value() == ResumeStep(old(Value()), maximum)
    {
      hide Inv, Evict, Renewed;
      assert InHistory(Value()) by { InvIsInHistory(Value(), maximum); }
      ResumeKeeps(Value(), maximum);
      match publishing
      case Idle =>
      case Duplicate(id, record) => Renew(id, record);
      case Evicting => EvictOldest();
    }

    method Open(id: Option<JsString>) returns (reader: Option<nat>)
      requires Valid()
      modifies this
      ensures Valid()
      ensures Opened(old(Value()), id).Some? ==> Opened(old(Value()), id).value < |old(history)|
      ensures Value() == OpenStep(old(Value()), id)
      ensures Answers(old(Value()), id, Value(), reader)
      ensures reader == if Opened(old(Value()), id).Some? then Some(|old(readers)|) else None
    {
      hide Inv, Find, Answers;
      OpenKeeps(Value(), maximum, id);
      OpenAnswers(Value(), maximum, id);
      if disposed { return None; }
      var wanted := if id.Some? then id else current;
      if wanted.None? { return None; }
      var record := Find(records, wanted.value);
      if record.None? { return None; }
      history := history[record.value := history[record.value].(readers := history[record.value].readers + 1)];
      reader := Some(|readers|);
      readers := readers + [Reader(record.value, false)];
    }

    method Close(reader: nat)
      requires Valid() && reader < |readers|
      modifies this
      ensures Valid() && Value() == CloseStep(old(Value()), reader)
    {
      hide Inv;
      assert InHistory(Value()) by { InvIsInHistory(Value(), maximum); }
      CloseKeeps(Value(), maximum, reader);
      if readers[reader].disposed { return; }
      var at := readers[reader].record;
      readers := readers[reader := Reader(at, true)];
      var r := history[at];
      history := history[at := r.(readers := if r.readers == 0 then 0 else r.readers - 1)];
      if !history[at].retained && history[at].readers == 0 {
        ghost var less := history[at];
        DisposeOf(at);
        assert history == old(history)[at := DisposeRecord(less)];
      }
    }

    method StartDispose()
      requires Valid()
      modifies this
      ensures Valid() && Value() == StartDisposeStep(old(Value()))
    {
      hide Inv;
      StartDisposeKeeps(Value(), maximum);
      if disposed { return; }
      disposed := true;
      current := None;
      closing := Positions(records);
      records := [];
    }

    method FinishDispose()
      requires Valid()
      modifies this
      ensures Valid()
      ensures InHistory(old(Value())) && Value() == FinishDisposeStep(old(Value()))
    {
      hide Inv;
      assert InHistory(Value()) by { InvIsInHistory(Value(), maximum); }
      FinishDisposeKeeps(Value(), maximum);
      for i := 0 to |closing|
        invariant Value() == old(Value()).(history := history)
        invariant |history| == |old(history)| && history == DisposeAll(old(history), closing[..i])
      {
        assert closing[..i + 1][..i] == closing[..i];
        DisposeOf(closing[i]);
      }
      assert closing[..|closing|] == closing;
      closing := [];
    }
  }

  lemma InvIsInHistory(st: State, maximum: nat)
    requires Inv(st, maximum)
    ensures InHistory(st)
  {
  }
}
