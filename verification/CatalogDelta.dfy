/**
 Patching a snapshot from changed specifications. Whenever a patch is accepted, the patched snapshot is
 exactly the fresh projection of the catalog with the changed specifications substituted.
 */
module CatalogDelta {
  import opened CatalogProjection
  import opened CatalogSnapshot
  import opened Options
  import opened Utf16
  import Sorting

  datatype UpdateResult = Declined | Threw | Updated(snapshot: Snapshot)

  // ----- substitution

  function Replace(changed: seq<Specification>): Specification -> Specification {
    (s: Specification) => if s.source in Table(changed, Itself()) then Table(changed, Itself())[s.source] else s
  }

  /** The catalog with each specification replaced by the changed one of the same source. */
  function Substitute(specs: seq<Specification>, changed: seq<Specification>): seq<Specification> {
    Sorting.Map(specs, Replace(changed))
  }

  function SourcesOf(specs: seq<Specification>): seq<JsString> { Sorting.Map(specs, SourceOf) }

  ghost predicate AllKnown(specs: seq<Specification>, changed: seq<Specification>) {
    forall j :: 0 <= j < |changed| ==> changed[j].source in SourcesOf(specs)
  }

  /** Position j of `changed` replaces position i, or nothing does. */
  lemma SubstituteAt(specs: seq<Specification>, changed: seq<Specification>, i: nat) returns (j: Option<nat>)
    requires DistinctSources(changed) && i < |specs|
    ensures Substitute(specs, changed)[i].source == specs[i].source
    ensures j.Some? ==> j.value < |changed| && changed[j.value].source == specs[i].source
    ensures j.Some? ==> Substitute(specs, changed)[i] == changed[j.value]
    ensures j.None? ==> Substitute(specs, changed)[i] == specs[i]
    ensures j.None? ==> forall k :: 0 <= k < |changed| ==> changed[k].source != specs[i].source
  {
    assert Substitute(specs, changed)[i] == Replace(changed)(specs[i]);
    if specs[i].source in Table(changed, Itself()) {
      var k := TableOnly(changed, Itself(), specs[i].source);
      assert Itself()(changed[k]) == changed[k];
      j := Some(k);
    } else {
      forall k | 0 <= k < |changed| ensures changed[k].source != specs[i].source { TableAt(changed, Itself(), k); }
      j := None;
    }
  }

  lemma SubstituteDistinct(specs: seq<Specification>, changed: seq<Specification>)
    requires DistinctSources(specs) && DistinctSources(changed)
    ensures DistinctSources(Substitute(specs, changed))
    ensures SourcesOf(Substitute(specs, changed)) == SourcesOf(specs)
  {
    hide Substitute;
    var next := Substitute(specs, changed);
    assert |next| == |specs| by { SubstituteLength(specs, changed); }
    forall i: nat | i < |specs| ensures next[i].source == specs[i].source && SourcesOf(next)[i] == SourcesOf(specs)[i] {
      var j := SubstituteAt(specs, changed, i);
      SourceAt(specs, i);
      SourceAt(next, i);
    }
  }

  lemma SubstituteLength(specs: seq<Specification>, changed: seq<Specification>)
    ensures |Substitute(specs, changed)| == |specs|
  {
  }

  lemma SourceAt(specs: seq<Specification>, i: nat)
    requires i < |specs|
    ensures |SourcesOf(specs)| == |specs| && SourcesOf(specs)[i] == specs[i].source
  {
    assert SourcesOf(specs)[i] == SourceOf(specs[i]);
  }

  /** Where a changed specification of a known source ends up. */
  lemma Position(specs: seq<Specification>, changed: seq<Specification>, j: nat) returns (i: nat)
    requires DistinctSources(specs) && DistinctSources(changed) && AllKnown(specs, changed) && j < |changed|
    ensures i < |specs| && specs[i].source == changed[j].source
    ensures |Substitute(specs, changed)| == |specs| && Substitute(specs, changed)[i] == changed[j]
  {
    hide Substitute;
    assert changed[j].source in SourcesOf(specs);
    i :| 0 <= i < |SourcesOf(specs)| && SourcesOf(specs)[i] == changed[j].source;
    SourceAt(specs, 0);
    SourceAt(specs, i);
    SubstituteLength(specs, changed);
    var k := SubstituteAt(specs, changed, i);
  }

  /** A table patched with the changed rows is the table of the substituted catalog. */
  lemma TableSubstitute<T>(specs: seq<Specification>, changed: seq<Specification>, f: Specification -> T)
    requires DistinctSources(specs) && DistinctSources(changed) && AllKnown(specs, changed)
    ensures Table(specs, f) + Table(changed, f) == Table(Substitute(specs, changed), f)
  {
    hide Substitute, Table, AllKnown;
    var next := Substitute(specs, changed);
    var patched, table := Table(specs, f) + Table(changed, f), Table(next, f);
    SubstituteDistinct(specs, changed);
    SubstituteLength(specs, changed);
    forall s | s in patched ensures s in table && table[s] == patched[s] {
      if s in Table(changed, f) {
        var j := TableOnly(changed, f, s);
        var i := Position(specs, changed, j);
        TableAt(next, f, i);
      } else {
        var i := TableOnly(specs, f, s);
        var j := SubstituteAt(specs, changed, i);
        if j.Some? { TableAt(changed, f, j.value); }
        TableAt(next, f, i);
      }
    }
    forall s | s in table ensures s in patched {
      var i := TableOnly(next, f, s);
      var j := SubstituteAt(specs, changed, i);
      TableAt(specs, f, i);
    }
  }

  lemma {:induction false} TableCount<T>(specs: seq<Specification>, f: Specification -> T)
    ensures |Table(specs, f)| <= |specs|
    ensures |Table(specs, f)| == |specs| <==> DistinctSources(specs)
  {
    if specs == [] {
    } else {
      var n := |specs| - 1;
      var front := specs[..n];
      TableCount(front, f);
      var t := Table(front, f);
      if specs[n].source in t {
        var i := TableOnly(front, f, specs[n].source);
        assert Table(specs, f).Keys == t.Keys;
        assert |Table(specs, f)| == |Table(specs, f).Keys| && |t| == |t.Keys|;
        assert specs[i].source == specs[n].source;
      } else {
        assert Table(specs, f).Keys == t.Keys + {specs[n].source};
        assert |Table(specs, f)| == |Table(specs, f).Keys| && |t| == |t.Keys|;
        if DistinctSources(front) { SnocDistinct(specs, f); }
      }
    }
  }

  lemma SnocDistinct<T>(specs: seq<Specification>, f: Specification -> T)
    requires specs != [] && DistinctSources(specs[..|specs| - 1])
    requires specs[|specs| - 1].source !in Table(specs[..|specs| - 1], f)
    ensures DistinctSources(specs)
  {
    var front := specs[..|specs| - 1];
    forall i: nat | i < |front| ensures specs[i].source != specs[|specs| - 1].source { TableAt(front, f, i); }
  }

  // ----- the patched tables

  function ProjectionSource(p: Projection): JsString { p.source }

  function ProjectChanged(p: Projector, bySource: map<JsString, Specification>): Projection -> Projection {
    (value: Projection) => if value.source in bySource then p.Project(bySource[value.source]) else value
  }

  /** Replacing the changed projections gives the projections of the substituted catalog. */
  lemma ProjectionsSubstitute(p: Projector, specs: seq<Specification>, changed: seq<Specification>)
    ensures Sorting.Map(p.Projections(specs), ProjectChanged(p, Table(changed, Itself()))) == p.Projections(Substitute(specs, changed))
  {
    hide Table;
    var projected := Sorting.Map(p.Projections(specs), ProjectChanged(p, Table(changed, Itself())));
    var next := p.Projections(Substitute(specs, changed));
    forall i | 0 <= i < |specs| ensures projected[i] == next[i] {
      assert p.Projections(specs)[i] == p.Project(specs[i]);
      assert Substitute(specs, changed)[i] == Replace(changed)(specs[i]);
      assert next[i] == p.Project(Substitute(specs, changed)[i]);
    }
  }

  lemma ProjectionSources(p: Projector, specs: seq<Specification>)
    ensures Sorting.Map(p.Projections(specs), ProjectionSource) == SourcesOf(specs)
  {
    forall i | 0 <= i < |specs| ensures ProjectionSource(p.Projections(specs)[i]) == SourceOf(specs[i]) {
      assert p.Projections(specs)[i] == p.Project(specs[i]);
    }
    assert forall i :: 0 <= i < |specs| ==> Sorting.Map(p.Projections(specs), ProjectionSource)[i] == ProjectionSource(p.Projections(specs)[i]);
    assert forall i :: 0 <= i < |specs| ==> SourcesOf(specs)[i] == SourceOf(specs[i]);
  }

  function PatchEntry(changes: map<JsString, Entry>): Entry -> Entry {
    (entry: Entry) => if entry.source in changes then changes[entry.source] else entry
  }

  lemma EntriesSubstitute(p: Projector, specs: seq<Specification>, changed: seq<Specification>, context: seq<Projection>)
    requires DistinctSources(specs) && DistinctSources(changed)
    ensures Sorting.Map(Entries(p, specs, context), PatchEntry(Table(changed, p.EntryIn(context)))) ==
      Entries(p, Substitute(specs, changed), context)
  {
    hide Substitute, Projector.EntryOf, Table;
    var next := Substitute(specs, changed);
    var changes := Table(changed, p.EntryIn(context));
    var patched, entries := Sorting.Map(Entries(p, specs, context), PatchEntry(changes)), Entries(p, next, context);
    SubstituteLength(specs, changed);
    forall i: nat | i < |specs| ensures patched[i] == entries[i] {
      var j := SubstituteAt(specs, changed, i);
      assert patched[i] == PatchEntry(changes)(Entries(p, specs, context)[i]);
      assert Entries(p, specs, context)[i] == p.EntryIn(context)(specs[i]) == p.EntryOf(specs[i], context);
      assert entries[i] == p.EntryIn(context)(next[i]) == p.EntryOf(next[i], context);
      EntrySource(p, specs[i], context);
      if j.Some? {
        TableAt(changed, p.EntryIn(context), j.value);
      } else if specs[i].source in changes {
        var k := TableOnly(changed, p.EntryIn(context), specs[i].source);
      }
    }
  }

  /** The payload keys of the replaced specifications. */
  function Outdated(entries: seq<Entry>, changed: seq<Specification>): set<JsString> {
    if changed == [] then {}
    else
      var entry := FindEntry(entries, changed[|changed| - 1].source);
      Outdated(entries, changed[..|changed| - 1]) +
        if entry.Some? then {PayloadKey(entry.value.source, entry.value.revision)} else {}
  }

  lemma {:induction false} OutdatedKeys(p: Projector, specs: seq<Specification>, changed: seq<Specification>, context: seq<Projection>, key: JsString)
    requires DistinctSources(specs) && AllKnown(specs, changed)
    ensures key in Outdated(Entries(p, specs, context), changed) <==> IsOutdated(p, specs, changed, context, key)
  {
    hide Projector.EntryOf, Projector.SpecKey, Entries, FindEntry, PayloadKey;
    if changed == [] {
    } else {
      var n := |changed| - 1;
      assert AllKnown(specs, changed[..n]);
      OutdatedKeys(p, specs, changed[..n], context, key);
      var i := KnownAt(specs, changed, n);
      EntryFound(p, specs, context, i);
      EntrySource(p, specs[i], context);
    }
  }

  lemma KnownAt(specs: seq<Specification>, changed: seq<Specification>, j: nat) returns (i: nat)
    requires AllKnown(specs, changed) && j < |changed|
    ensures i < |specs| && specs[i].source == changed[j].source
  {
    assert changed[j].source in SourcesOf(specs);
    i :| 0 <= i < |SourcesOf(specs)| && SourcesOf(specs)[i] == changed[j].source;
    SourceAt(specs, i);
  }

  /** The key belongs to a specification whose source changed. */
  ghost predicate IsOutdated(p: Projector, specs: seq<Specification>, changed: seq<Specification>, context: seq<Projection>, key: JsString) {
    exists i, j :: 0 <= i < |specs| && 0 <= j < |changed| && specs[i].source == changed[j].source && key == p.SpecKey(specs[i], context)
  }

  /** Removing the outdated payloads and adding the changed ones gives the payloads of the substituted catalog. */
  lemma PayloadsSubstitute(p: Projector, specs: seq<Specification>, changed: seq<Specification>, context: seq<Projection>)
    requires p.Lawful() && DistinctSources(specs) && DistinctSources(changed) && AllKnown(specs, changed)
    ensures (Payloads(p, specs, context) - Outdated(Entries(p, specs, context), changed)) + Payloads(p, changed, context) ==
      Payloads(p, Substitute(specs, changed), context)
  {
    hide Projector.Lawful, Substitute, Payloads, Outdated, Entries, AllKnown, Projector.SpecKey, Projector.PayloadOf, DistinctSources;
    var next := Substitute(specs, changed);
    var old1, old2 := Payloads(p, specs, context), Outdated(Entries(p, specs, context), changed);
    var patched, payloads := (old1 - old2) + Payloads(p, changed, context), Payloads(p, next, context);
    SubstituteDistinct(specs, changed);
    SubstituteLength(specs, changed);
    forall k | k in patched ensures k in payloads && payloads[k] == patched[k] {
      PatchedIsPayload(p, specs, changed, context, k);
    }
    forall k | k in payloads ensures k in patched {
      PayloadIsPatched(p, specs, changed, context, k);
    }
  }

  lemma PatchedIsPayload(p: Projector, specs: seq<Specification>, changed: seq<Specification>, context: seq<Projection>, k: JsString)
    requires p.Lawful() && DistinctSources(specs) && DistinctSources(changed) && AllKnown(specs, changed)
    requires k in (Payloads(p, specs, context) - Outdated(Entries(p, specs, context), changed)) + Payloads(p, changed, context)
    ensures k in Payloads(p, Substitute(specs, changed), context)
    ensures Payloads(p, Substitute(specs, changed), context)[k] ==
      ((Payloads(p, specs, context) - Outdated(Entries(p, specs, context), changed)) + Payloads(p, changed, context))[k]
  {
    hide Projector.Lawful, Substitute, Payloads, Outdated, Entries, AllKnown, Projector.SpecKey, Projector.PayloadOf, DistinctSources;
    var next := Substitute(specs, changed);
    SubstituteDistinct(specs, changed);
    SubstituteLength(specs, changed);
    if k in Payloads(p, changed, context) {
      var j := PayloadsOnly(p, changed, context, k);
      var i := Position(specs, changed, j);
      PayloadsAt(p, next, context, i);
      PayloadsAt(p, changed, context, j);
    } else {
      var i := PayloadsOnly(p, specs, context, k);
      PayloadsAt(p, specs, context, i);
      var j := SubstituteAt(specs, changed, i);
      OutdatedKeys(p, specs, changed, context, k);
      PayloadsAt(p, next, context, i);
    }
  }

  lemma PayloadIsPatched(p: Projector, specs: seq<Specification>, changed: seq<Specification>, context: seq<Projection>, k: JsString)
    requires p.Lawful() && DistinctSources(specs) && DistinctSources(changed) && AllKnown(specs, changed)
    requires k in Payloads(p, Substitute(specs, changed), context)
    ensures k in (Payloads(p, specs, context) - Outdated(Entries(p, specs, context), changed)) + Payloads(p, changed, context)
  {
    hide Projector.Lawful, Substitute, Payloads, Outdated, Entries, AllKnown, Projector.SpecKey, Projector.PayloadOf, DistinctSources;
    SubstituteLength(specs, changed);
    var i := PayloadsOnly(p, Substitute(specs, changed), context, k);
    var j := SubstituteAt(specs, changed, i);
    if j.Some? {
      PayloadsAt(p, changed, context, j.value);
    } else {
      PayloadsAt(p, specs, context, i);
      OutdatedKeys(p, specs, changed, context, k);
      if IsOutdated(p, specs, changed, context, k) {
        var a, b :| 0 <= a < |specs| && 0 <= b < |changed| && specs[a].source == changed[b].source && k == p.SpecKey(specs[a], context);
        SpecKeyInjective(p, specs[a], specs[i], context, context);
        assert false;
      }
    }
  }

  // ----- sources

  function FromRows<T>(rows: seq<(JsString, T)>): map<JsString, T> {
    if rows == [] then map[] else FromRows(rows[..|rows| - 1])[rows[|rows| - 1].0 := rows[|rows| - 1].1]
  }

  lemma {:induction false} FromRowsIsTable<T>(specs: seq<Specification>, f: Specification -> T)
    ensures FromRows(Rows(specs, f)) == Table(specs, f)
  {
    if specs == [] {
    } else {
      var n := |specs| - 1;
      assert Rows(specs, f)[..n] == Rows(specs[..n], f);
      FromRowsIsTable(specs[..n], f);
    }
  }

  function Listed(table: map<JsString, seq<JsString>>): set<JsString> { set s, k | s in table && k in table[s] :: k }

  /** The keys listed for the catalog's specifications are the ones they register. */
  lemma ListedIsRegistered(p: Projector, specs: seq<Specification>, context: seq<Projection>)
    requires DistinctSources(specs)
    ensures Listed(Table(specs, p.KeysIn(context))) == Registered(p, specs).Keys
  {
    hide Projector.PackedOf, Table, Registered, SourceKeysOf, DistinctSources;
    RegisteredKeys(p, specs);
    var table := Table(specs, p.KeysIn(context));
    forall k | k in Listed(table) ensures k in Registered(p, specs).Keys {
      var s :| s in table && k in table[s];
      var i := TableOnly(specs, p.KeysIn(context), s);
      assert p.KeysIn(context)(specs[i]) == SourceKeysOf(p.PackedOf(specs[i], context));
      SourceKeysMembers(p.PackedOf(specs[i], context), k);
      PackedKeys(p, specs[i], context);
      assert Registers(p, specs, k);
    }
    forall k | k in Registered(p, specs).Keys ensures k in Listed(table) {
      assert Registers(p, specs, k);
      var i :| 0 <= i < |specs| && k in p.ModelKeys(specs[i]);
      TableAt(specs, p.KeysIn(context), i);
      assert p.KeysIn(context)(specs[i]) == SourceKeysOf(p.PackedOf(specs[i], context));
      SourceKeysMembers(p.PackedOf(specs[i], context), k);
      PackedKeys(p, specs[i], context);
      assert specs[i].source in table && k in table[specs[i].source];
    }
  }

  lemma PackedKeys(p: Projector, s: Specification, context: seq<Projection>)
    ensures p.PackedOf(s, context).sourceKeys == p.ModelKeys(s)
  {
  }

  lemma ChangedRegister(p: Projector, specs: seq<Specification>, changed: seq<Specification>)
    requires DistinctSources(specs) && DistinctSources(changed) && AllKnown(specs, changed)
    ensures Registered(p, changed).Keys <= Registered(p, Substitute(specs, changed)).Keys
    ensures Registered(p, Substitute(specs, changed)).Keys <= Registered(p, specs).Keys + Registered(p, changed).Keys
  {
    hide Registered, Substitute, Projector.ModelKeys, AllKnown, DistinctSources;
    var next := Substitute(specs, changed);
    SubstituteLength(specs, changed);
    RegisteredKeys(p, specs);
    RegisteredKeys(p, changed);
    RegisteredKeys(p, next);
    forall k | k in Registered(p, changed).Keys ensures k in Registered(p, next).Keys {
      assert Registers(p, changed, k);
      var j :| 0 <= j < |changed| && k in p.ModelKeys(changed[j]);
      var i := Position(specs, changed, j);
      assert k in p.ModelKeys(next[i]);
      assert Registers(p, next, k);
    }
    forall k | k in Registered(p, next).Keys ensures k in Registered(p, specs).Keys + Registered(p, changed).Keys {
      assert Registers(p, next, k);
      var i :| 0 <= i < |next| && k in p.ModelKeys(next[i]);
      var j := SubstituteAt(specs, changed, i);
      if j.Some? { assert Registers(p, changed, k); } else { assert Registers(p, specs, k); }
    }
  }

  /** Dropping the unlisted sources and adding the changed ones leaves exactly the registered ones. */
  lemma SourcesSubstitute(p: Projector, specs: seq<Specification>, changed: seq<Specification>,
                          sources: map<JsString, SourcePayload>, removed: set<JsString>)
    requires p.Lawful() && DistinctSources(specs) && DistinctSources(changed) && AllKnown(specs, changed)
    requires Digested(p, sources) && Registered(p, specs).Keys <= sources.Keys
    requires removed == sources.Keys - Registered(p, Substitute(specs, changed)).Keys
    ensures (sources - removed) + Registered(p, changed) == Registered(p, Substitute(specs, changed))
  {
    hide Registered, Substitute, Projector.Lawful, AllKnown, DistinctSources;
    RegisteredKeys(p, changed);
    RegisteredKeys(p, Substitute(specs, changed));
    ChangedRegister(p, specs, changed);
    PatchedKeys(sources, removed, Registered(p, specs).Keys, Registered(p, changed), Registered(p, Substitute(specs, changed)).Keys);
    DigestedUnique(p, (sources - removed) + Registered(p, changed), Registered(p, Substitute(specs, changed)));
  }

  lemma PatchedKeys(sources: map<JsString, SourcePayload>, removed: set<JsString>, before: set<JsString>,
                    changed: map<JsString, SourcePayload>, after: set<JsString>)
    requires removed == sources.Keys - after && before <= sources.Keys
    requires changed.Keys <= after && after <= before + changed.Keys
    ensures ((sources - removed) + changed).Keys == after
  {
  }

  // ----- update

  function KeyRow(next: map<JsString, seq<JsString>>): JsString -> (JsString, seq<JsString>) {
    source => (source, if source in next then next[source] else [])
  }

  lemma RowsSubstitute(p: Projector, specs: seq<Specification>, changed: seq<Specification>, context: seq<Projection>)
    requires DistinctSources(specs) && DistinctSources(changed)
    ensures Sorting.Map(SourcesOf(specs), KeyRow(Table(Substitute(specs, changed), p.KeysIn(context)))) ==
      Rows(Substitute(specs, changed), p.KeysIn(context))
  {
    hide Substitute, Table, SourcesOf;
    var next := Substitute(specs, changed);
    var table := Table(next, p.KeysIn(context));
    SubstituteDistinct(specs, changed);
    SubstituteLength(specs, changed);
    assert |SourcesOf(specs)| == |specs| by { SourceCount(specs); }
    var rows := Sorting.Map(SourcesOf(specs), KeyRow(table));
    forall i: nat | i < |specs| ensures rows[i] == Rows(next, p.KeysIn(context))[i] {
      SourceAt(specs, i);
      SourceAt(next, i);
      TableAt(next, p.KeysIn(context), i);
      assert rows[i] == KeyRow(table)(SourcesOf(specs)[i]);
    }
  }

  lemma SourceCount(specs: seq<Specification>)
    ensures |SourcesOf(specs)| == |specs|
  {
  }

  /** When a patch is accepted: same format, same sources, known distinct changes, and an unchanged topology. */
  ghost predicate Accepts(p: Projector, previous: Snapshot, prior: seq<Specification>, changed: seq<Specification>, sources: seq<JsString>) {
    && CurrentTransport(previous) && sources == SourcesOf(prior)
    && DistinctSources(changed) && AllKnown(prior, changed)
    && p.Projections(Substitute(prior, changed)) == p.Projections(prior)
  }

  /** The maps built while going through the changed specifications. */
  datatype Changes = Changes(
    specs: map<JsString, SpecPayload>, removed: set<JsString>, sources: map<JsString, SourcePayload>,
    keys: map<JsString, seq<JsString>>, entries: map<JsString, Entry>)

  ghost predicate ChangesSoFar(p: Projector, prior: seq<Specification>, done: seq<Specification>, context: seq<Projection>, c: Changes) {
    && p.AllPack(done)
    && c.specs == Payloads(p, done, context) && c.removed == Outdated(Entries(p, prior, context), done)
    && Digested(p, c.sources) && c.sources == Registered(p, done)
    && c.keys == Table(prior, p.KeysIn(context)) + Table(done, p.KeysIn(context))
    && c.entries == Table(done, p.EntryIn(context))
  }

  method ProjectChanges(p: Projector, previous: Snapshot, changed: seq<Specification>, context: seq<Projection>,
                        ghost prior: seq<Specification>) returns (changes: Option<Changes>)
    requires p.Lawful() && DistinctSources(prior) && AllKnown(prior, changed)
    requires previous.index.specs == Entries(p, prior, context) && previous.sourceKeys == Rows(prior, p.KeysIn(context))
    ensures changes.Some? <==> p.AllPack(changed)
    ensures changes.Some? ==> ChangesSoFar(p, prior, changed, context, changes.value)
  {
    hide Projector.Lawful, Projector.EntryOf, Projector.PayloadOf, Projector.SpecKey, Projector.KeysIn, Projector.EntryIn,
      Projector.Models, Entries, Payloads, Rows, Table, Registered, SourceMap, Digested, Outdated, FindEntry, FromRows,
      DistinctSources, AllKnown, ChangesSoFar;
    var c := Changes(map[], {}, map[], FromRows(previous.sourceKeys), map[]);
    ChangesStart(p, prior, changed, context);
    for i := 0 to |changed|
      invariant ChangesSoFar(p, prior, changed[..i], context, c)
    {
      var spec := changed[i];
      var previousEntry := FindEntry(previous.index.specs, spec.source);
      PreviousEntryFound(p, prior, changed, context, i);
      if p.models(spec).None? { return None; }
      ChangesNext(p, prior, changed, i, context, c);
      var ok, sources := RegisterSources(p, c.sources, p.Models(spec));
      c := Changes(
        c.specs[p.SpecKey(spec, context) := p.PayloadOf(spec, context)],
        c.removed + {PayloadKey(previousEntry.value.source, previousEntry.value.revision)},
        sources,
        c.keys[spec.source := p.KeysIn(context)(spec)],
        c.entries[spec.source := p.EntryIn(context)(spec)]);
    }
    assert changed[..|changed|] == changed;
    ChangesPack(p, prior, changed, context, c);
    changes := Some(c);
  }

  lemma ChangesStart(p: Projector, prior: seq<Specification>, changed: seq<Specification>, context: seq<Projection>)
    ensures ChangesSoFar(p, prior, changed[..0], context, Changes(map[], {}, map[], FromRows(Rows(prior, p.KeysIn(context))), map[]))
  {
    hide Projector.KeysIn;
    FromRowsIsTable(prior, p.KeysIn(context));
  }

  lemma PreviousEntryFound(p: Projector, prior: seq<Specification>, changed: seq<Specification>, context: seq<Projection>, i: nat)
    requires DistinctSources(prior) && AllKnown(prior, changed) && i < |changed|
    ensures FindEntry(Entries(p, prior, context), changed[i].source).Some?
  {
    var j := KnownAt(prior, changed, i);
    EntryFound(p, prior, context, j);
  }

  lemma ChangesPack(p: Projector, prior: seq<Specification>, done: seq<Specification>, context: seq<Projection>, c: Changes)
    requires ChangesSoFar(p, prior, done, context, c)
    ensures p.AllPack(done)
  {
  }

  lemma ChangesNext(p: Projector, prior: seq<Specification>, changed: seq<Specification>, i: nat, context: seq<Projection>, c: Changes)
    requires DistinctSources(prior) && AllKnown(prior, changed)
    requires i < |changed| && ChangesSoFar(p, prior, changed[..i], context, c) && p.models(changed[i]).Some?
    ensures Digested(p, c.sources)
    ensures var spec, entry := changed[i], FindEntry(Entries(p, prior, context), changed[i].source);
      && entry.Some?
      && ChangesSoFar(p, prior, changed[..i + 1], context, Changes(
        c.specs[p.SpecKey(spec, context) := p.PayloadOf(spec, context)],
        c.removed + {PayloadKey(entry.value.source, entry.value.revision)},
        c.sources + SourceMap(p, p.Models(spec)),
        c.keys[spec.source := p.KeysIn(context)(spec)],
        c.entries[spec.source := p.EntryIn(context)(spec)]))
  {
    hide Projector.EntryOf, Projector.PayloadOf, Projector.SpecKey, Projector.KeysIn, Projector.EntryIn, Projector.Models,
      Entries, FindEntry, AllKnown, SourceMap, Digested, PayloadKey;
    PreviousEntryFound(p, prior, changed, context, i);
    var done := changed[..i + 1];
    assert done[..i] == changed[..i];
    RegisteredKeys(p, done);
  }

  /** The snapshot is the fresh projection of the catalog in everything but the inputs kept for reuse. */
  ghost predicate Projects(p: Projector, s: Snapshot, catalog: Catalog, adapter: Data, application: JsString) {
    Fresh(p, catalog, adapter, application).Some? && s == Fresh(p, catalog, adapter, application).value.(inputs := s.inputs)
  }

  /**
   Declines exactly when the patch is not accepted; otherwise the result is the fresh projection of the
   catalog with the changed specifications substituted, sources included. Only the inputs may be fewer: they are
   those of the previous snapshot, none if it was restored, and the changed ones.
   */
  method UpdateCatalogSnapshot(p: Projector, previous: Snapshot, changed: seq<Specification>, sources: seq<JsString>,
                               diagnostics: Data, adapter: Data, application: JsString, ghost prior: seq<Specification>)
    returns (result: UpdateResult)
    requires p.Lawful() && Coherent(p, previous, prior)
    ensures result.Declined? <==> !Accepts(p, previous, prior, changed, sources)
    ensures result.Updated? <==> Accepts(p, previous, prior, changed, sources) && p.AllPack(changed)
    ensures result.Updated? ==> var next := Substitute(prior, changed);
      && Coherent(p, result.snapshot, next)
      && Projects(p, result.snapshot, Catalog(next, diagnostics), adapter, application)
      && result.snapshot.inputs == previous.inputs + Table(changed, Itself())
      && IndexSays(p, result.snapshot.index, application, diagnostics)
      && result.snapshot.indexModule == p.indexModule(result.snapshot.index, adapter)
      && Navigable(p, result.snapshot, next)
      && forall key :: key in result.snapshot.sources <==> Registers(p, next, key)
  {
    hide Projector.Projections, Projector.Project, Entries, Payloads, Rows, Table, Registered, Substitute, SourcesOf, Outdated,
      FromRows, Projector.KeysIn, Projector.EntryIn, DistinctSources, Fresh, Projector.Lawful, InputsOf, Navigable,
      Registers;
    if !CurrentTransport(previous) { return Declined; }
    var expected := Sorting.Map(previous.specifications, ProjectionSource);
    ProjectionSources(p, prior);
    if expected != sources { return Declined; }
    var bySource := Table(changed, Itself());
    TableCount(changed, Itself());
    if DistinctSources(changed) { KnownIff(prior, changed); }
    if |bySource| != |changed| || exists source | source in bySource.Keys :: source !in expected { return Declined; }
    var projected := Sorting.Map(previous.specifications, ProjectChanged(p, bySource));
    ProjectionsSubstitute(p, prior, changed);
    var topology := p.topology(projected);
    SameTopology(p, p.Projections(prior), projected);
    if topology != previous.topology { return Declined; }
    var changes := ProjectChanges(p, previous, changed, projected, prior);
    if changes.None? { return Threw; }
    var c := changes.value;
    var listed := Listed(c.keys);
    var removedSources := set key | key in previous.sources && key !in listed;
    var entries := Sorting.Map(previous.index.specs, PatchEntry(c.entries));
    var index := IndexOf(p, entries, diagnostics, application);
    var snapshot := Snapshot(index, p.indexModule(index, adapter),
      (previous.specs - c.removed) + c.specs, (previous.sources - removedSources) + c.sources,
      previous.inputs + bySource, projected, Sorting.Map(expected, KeyRow(c.keys)), topology);
    PatchedIsFresh(p, previous, prior, changed, diagnostics, adapter, application, c, removedSources);
    ProjectedIsCoherent(p, prior, changed, Catalog(Substitute(prior, changed), diagnostics), adapter, application, snapshot);
    CoherentIsNavigable(p, snapshot, Substitute(prior, changed));
    PatchedSources(p, snapshot, Catalog(Substitute(prior, changed), diagnostics), adapter, application);
    result := Updated(snapshot);
  }

  lemma PatchedSources(p: Projector, s: Snapshot, catalog: Catalog, adapter: Data, application: JsString)
    requires Projects(p, s, catalog, adapter, application)
    ensures forall key :: key in s.sources <==> Registers(p, catalog.specs, key)
  {
    RegisteredKeys(p, catalog.specs);
  }

  lemma ProjectedIsCoherent(p: Projector, prior: seq<Specification>, changed: seq<Specification>, catalog: Catalog, adapter: Data,
                            application: JsString, s: Snapshot)
    requires DistinctSources(prior) && DistinctSources(changed) && catalog.specs == Substitute(prior, changed)
    requires Projects(p, s, catalog, adapter, application) && InputsOf(catalog.specs, s.inputs)
    ensures Coherent(p, s, catalog.specs)
  {
    hide Substitute, InputsOf;
    SubstituteDistinct(prior, changed);
    FreshIsCoherent(p, catalog, adapter, application);
  }

  lemma SameTopology(p: Projector, a: seq<Projection>, b: seq<Projection>)
    requires p.Lawful()
    ensures p.topology(a) == p.topology(b) <==> a == b
  {
  }

  lemma KnownIff(specs: seq<Specification>, changed: seq<Specification>)
    requires DistinctSources(changed)
    ensures AllKnown(specs, changed) <==> forall source :: source in Table(changed, Itself()) ==> source in SourcesOf(specs)
  {
    hide SourcesOf;
    if AllKnown(specs, changed) {
      forall source | source in Table(changed, Itself()) ensures source in SourcesOf(specs) {
        var j := TableOnly(changed, Itself(), source);
      }
    }
    if forall source :: source in Table(changed, Itself()) ==> source in SourcesOf(specs) {
      forall j | 0 <= j < |changed| ensures changed[j].source in SourcesOf(specs) { TableAt(changed, Itself(), j); }
    }
  }

  lemma PatchedIsFresh(p: Projector, previous: Snapshot, prior: seq<Specification>, changed: seq<Specification>, diagnostics: Data,
                       adapter: Data, application: JsString, c: Changes, removedSources: set<JsString>)
    requires p.Lawful() && Coherent(p, previous, prior) && DistinctSources(changed) && AllKnown(prior, changed)
    requires p.Projections(Substitute(prior, changed)) == p.Projections(prior)
    requires ChangesSoFar(p, prior, changed, p.Projections(prior), c)
    requires removedSources == previous.sources.Keys - Listed(c.keys)
    ensures var index := IndexOf(p, Sorting.Map(previous.index.specs, PatchEntry(c.entries)), diagnostics, application);
      var snapshot := Snapshot(
        index, p.indexModule(index, adapter), (previous.specs - c.removed) + c.specs,
        (previous.sources - removedSources) + c.sources, previous.inputs + Table(changed, Itself()),
        p.Projections(prior), Sorting.Map(SourcesOf(prior), KeyRow(c.keys)), p.topology(p.Projections(prior)));
      && Projects(p, snapshot, Catalog(Substitute(prior, changed), diagnostics), adapter, application)
      && InputsOf(Substitute(prior, changed), snapshot.inputs)
  {
    hide Projector.Projections, Entries, Payloads, Rows, Table, Registered, Substitute, SourcesOf, Outdated, Listed, Itself, Digested,
      Projector.KeysIn, Projector.EntryIn, DistinctSources, Projector.Lawful, AllKnown, KeyRow, PatchEntry;
    var context := p.Projections(prior);
    SubstituteDistinct(prior, changed);
    SubstitutePacks(p, prior, changed);
    EntriesSubstitute(p, prior, changed, context);
    PayloadsSubstitute(p, prior, changed, context);
    TableSubstitute(prior, changed, Itself());
    TableSubstitute(prior, changed, p.KeysIn(context));
    RowsSubstitute(p, prior, changed, context);
    ListedIsRegistered(p, Substitute(prior, changed), context);
    SourcesSubstitute(p, prior, changed, previous.sources, removedSources);
  }

  lemma SubstitutePacks(p: Projector, specs: seq<Specification>, changed: seq<Specification>)
    requires DistinctSources(changed) && p.AllPack(specs) && p.AllPack(changed)
    ensures p.AllPack(Substitute(specs, changed))
  {
    hide Substitute;
    SubstituteLength(specs, changed);
    forall i: nat | i < |specs| ensures p.models(Substitute(specs, changed)[i]).Some? { var j := SubstituteAt(specs, changed, i); }
  }

  // ----- chains of patches

  datatype Patch = Patch(changed: seq<Specification>, sources: seq<JsString>, diagnostics: Data, adapter: Data, application: JsString)

  function SubstituteAll(specs: seq<Specification>, patches: seq<Patch>): seq<Specification> {
    if patches == [] then specs
    else Substitute(SubstituteAll(specs, patches[..|patches| - 1]), patches[|patches| - 1].changed)
  }

  function InputsAll(inputs: map<JsString, Specification>, patches: seq<Patch>): map<JsString, Specification> {
    if patches == [] then inputs
    else InputsAll(inputs, patches[..|patches| - 1]) + Table(patches[|patches| - 1].changed, Itself())
  }

  /** Every patch is accepted where the ones before it lead, and packs. */
  ghost predicate AllAccepted(p: Projector, start: Snapshot, prior: seq<Specification>, patches: seq<Patch>) {
    forall i :: 0 <= i < |patches| ==> AcceptedAt(p, start, prior, patches, i)
  }

  ghost predicate AcceptedAt(p: Projector, start: Snapshot, prior: seq<Specification>, patches: seq<Patch>, i: nat)
    requires i < |patches|
  {
    && Accepts(p, start, SubstituteAll(prior, patches[..i]), patches[i].changed, patches[i].sources)
    && p.AllPack(patches[i].changed)
  }

  /**
   After any chain of patches, from a fresh snapshot or a restored one: the chain goes through exactly when each patch
   is accepted, and then the snapshot is the fresh projection of the catalog they lead to.
   */
  method UpdateAll(p: Projector, start: Snapshot, patches: seq<Patch>, ghost prior: seq<Specification>)
    returns (result: UpdateResult)
    requires p.Lawful() && Coherent(p, start, prior)
    ensures result.Updated? <==> AllAccepted(p, start, prior, patches)
    ensures result.Updated? ==>
      Coherent(p, result.snapshot, SubstituteAll(prior, patches)) && result.snapshot.inputs == InputsAll(start.inputs, patches)
    ensures result.Updated? && patches != [] ==> var last := patches[|patches| - 1];
      Projects(p, result.snapshot, Catalog(SubstituteAll(prior, patches), last.diagnostics), last.adapter, last.application)
  {
    hide Coherent, Substitute, Projects, Accepts, Table, Projector.AllPack, Projector.Lawful;
    result := Updated(start);
    for i := 0 to |patches|
      invariant result.Updated? && Coherent(p, result.snapshot, SubstituteAll(prior, patches[..i]))
      invariant result.snapshot.inputs == InputsAll(start.inputs, patches[..i])
      invariant CurrentTransport(result.snapshot) <==> i > 0 || CurrentTransport(start)
      invariant forall k :: 0 <= k < i ==> AcceptedAt(p, start, prior, patches, k)
      invariant i > 0 ==> Projects(p, result.snapshot, Catalog(SubstituteAll(prior, patches[..i]), patches[i - 1].diagnostics),
        patches[i - 1].adapter, patches[i - 1].application)
    {
      assert patches[..i + 1][..i] == patches[..i];
      var patch := patches[i];
      ghost var before, specs := result.snapshot, SubstituteAll(prior, patches[..i]);
      if i > 0 { AcceptedTransport(p, start, prior, patches, 0); }
      AcceptedFrom(p, start, before, specs, patch);
      result := UpdateCatalogSnapshot(p, result.snapshot, patch.changed, patch.sources, patch.diagnostics, patch.adapter, patch.application, specs);
      assert result.Updated? <==> AcceptedAt(p, start, prior, patches, i);
      if !result.Updated? { return; }
      ProjectedTransport(p, result.snapshot, Catalog(SubstituteAll(prior, patches[..i + 1]), patch.diagnostics), patch.adapter, patch.application);
    }
    assert patches[..|patches|] == patches;
  }

  lemma AcceptedTransport(p: Projector, start: Snapshot, prior: seq<Specification>, patches: seq<Patch>, i: nat)
    requires i < |patches| && AcceptedAt(p, start, prior, patches, i)
    ensures CurrentTransport(start)
  {
  }

  /** Of the previous snapshot only its format matters. */
  lemma AcceptedFrom(p: Projector, a: Snapshot, b: Snapshot, specs: seq<Specification>, patch: Patch)
    requires CurrentTransport(a) <==> CurrentTransport(b)
    ensures Accepts(p, a, specs, patch.changed, patch.sources) <==> Accepts(p, b, specs, patch.changed, patch.sources)
  {
  }

  lemma ProjectedTransport(p: Projector, s: Snapshot, catalog: Catalog, adapter: Data, application: JsString)
    requires Projects(p, s, catalog, adapter, application)
    ensures CurrentTransport(s)
  {
  }
}
