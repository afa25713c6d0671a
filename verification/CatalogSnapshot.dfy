/**
 Building a catalog snapshot, optionally reusing the payloads of a previous one, and patching a previous
 snapshot from changed specifications. Both agree with projecting the whole catalog from nothing.
 */
module CatalogSnapshot {
  import opened CatalogProjection
  import opened Options
  import opened Sequences
  import opened Utf16
  import Sorting

  /** The index says what it is of: its format, its content revision, the application snapshot and the diagnostics. */
  ghost predicate IndexSays(p: Projector, index: Index, application: JsString, diagnostics: Data) {
    && index.format == Ascii("astrale.spec.catalog-index") && index.version == 4
    && index.generation == p.indexRevision(diagnostics, index.specs)
    && index.application == application && index.diagnostics == diagnostics
  }

  /**
   What a client can follow in a snapshot of these specifications: an index entry for each, under its source, from the
   entry to the payload with its revision, and from the payload to each declaration source it lists.
   */
  ghost predicate Navigable(p: Projector, s: Snapshot, specs: seq<Specification>) {
    && |s.index.specs| == |specs| == |s.sourceKeys|
    && forall i :: 0 <= i < |specs| ==> Reaches(p, s, specs, i)
  }

  ghost predicate Reaches(p: Projector, s: Snapshot, specs: seq<Specification>, i: nat)
    requires i < |specs| && i < |s.index.specs| && i < |s.sourceKeys|
  {
    var entry, context := s.index.specs[i], p.Projections(specs);
    var key := entry.source + [0] + entry.revision;
    && entry.source == specs[i].source && entry.summary == p.summary(specs[i], context) && key in s.specs
    && var payload := s.specs[key];
      && payload.source == entry.source && payload.revision == entry.revision == p.specRevision(payload.spec, payload.semantic)
      && payload.semantic == p.references(specs[i], context).semantic
      && payload.spec.value == p.pack(specs[i], payload.spec.sourceKeys, p.references(specs[i], context).documents)
      && s.sourceKeys[i].0 == entry.source
      && ListsSources(p, s, specs[i], payload.spec.sourceKeys, s.sourceKeys[i].1)
  }

  /** The keys are the digests of the specification's sources, in order, and lead to them; the row lists each once, sorted. */
  ghost predicate ListsSources(p: Projector, s: Snapshot, spec: Specification, keys: seq<JsString>, row: seq<JsString>) {
    && |keys| == |p.Models(spec)|
    && (forall k :: 0 <= k < |keys| ==> keys[k] == p.sourceRevision(p.Models(spec)[k]))
    && (forall k :: 0 <= k < |keys| ==> keys[k] in s.sources && s.sources[keys[k]] == SourcePayload(keys[k], p.Models(spec)[k]))
    && Sorting.Ascending(row, Less) && forall key :: key in row <==> key in keys
  }

  /** The inputs kept for reuse are some of the specifications: all after a projection, none in a restored snapshot. */
  ghost predicate InputsOf(specs: seq<Specification>, inputs: map<JsString, Specification>) {
    forall source :: source in inputs ==> source in Table(specs, Itself()) && inputs[source] == Table(specs, Itself())[source]
  }

  /** A snapshot that projects the given specifications; it may keep sources none of them registers. */
  ghost predicate Coherent(p: Projector, s: Snapshot, specs: seq<Specification>) {
    var context := p.Projections(specs);
    && p.AllPack(specs) && DistinctSources(specs)
    && s.index.specs == Entries(p, specs, context) && s.specs == Payloads(p, specs, context)
    && InputsOf(specs, s.inputs) && s.specifications == context
    && s.sourceKeys == Rows(specs, p.KeysIn(context)) && s.topology == p.topology(context)
    && Digested(p, s.sources) && Registered(p, specs).Keys <= s.sources.Keys
  }

  lemma FreshIsCoherent(p: Projector, catalog: Catalog, adapter: Data, application: JsString)
    requires DistinctSources(catalog.specs) && p.AllPack(catalog.specs)
    ensures Coherent(p, Fresh(p, catalog, adapter, application).value, catalog.specs)
  {
    RegisteredKeys(p, catalog.specs);
  }

  /** A snapshot restored from a checkpoint has the persisted parts and no inputs. */
  lemma RestoredIsCoherent(p: Projector, s: Snapshot, specs: seq<Specification>)
    requires Coherent(p, s, specs)
    ensures Coherent(p, s.(inputs := map[]), specs)
  {
  }

  /** Every snapshot that projects a catalog can be followed from its index to its sources. */
  lemma CoherentIsNavigable(p: Projector, s: Snapshot, specs: seq<Specification>)
    requires p.Lawful() && Coherent(p, s, specs)
    ensures Navigable(p, s, specs)
  {
    hide Projector.Lawful, Entries, Payloads, Rows, Registered, Table, Reaches;
    assert |Entries(p, specs, p.Projections(specs))| == |specs| && |Rows(specs, p.KeysIn(p.Projections(specs)))| == |specs| by {
      TableLengths(p, specs, p.Projections(specs));
    }
    forall i | 0 <= i < |specs| ensures Reaches(p, s, specs, i) { EntryReaches(p, s, specs, i); }
  }

  lemma TableLengths(p: Projector, specs: seq<Specification>, context: seq<Projection>)
    ensures |Entries(p, specs, context)| == |specs| && |Rows(specs, p.KeysIn(context))| == |specs|
  {
  }

  lemma EntryReaches(p: Projector, s: Snapshot, specs: seq<Specification>, i: nat)
    requires p.Lawful() && Coherent(p, s, specs) && i < |specs| == |s.index.specs| == |s.sourceKeys|
    ensures Reaches(p, s, specs, i)
  {
    hide Projector.Lawful, Payloads, Registered, Table, ListsSources, SourceKeysOf, Projector.ModelKeys, Projector.Projections;
    var context := p.Projections(specs);
    PayloadsAt(p, specs, context, i);
    assert s.index.specs[i] == p.EntryIn(context)(specs[i]) == p.EntryOf(specs[i], context);
    assert s.sourceKeys[i] == (specs[i].source, p.KeysIn(context)(specs[i]));
    assert p.KeysIn(context)(specs[i]) == SourceKeysOf(p.PackedOf(specs[i], context));
    SourcesListed(p, s, specs, i);
  }

  lemma SourcesListed(p: Projector, s: Snapshot, specs: seq<Specification>, i: nat)
    requires p.Lawful() && Coherent(p, s, specs) && i < |specs|
    ensures ListsSources(p, s, specs[i], p.ModelKeys(specs[i]), SourceKeysOf(p.PackedOf(specs[i], p.Projections(specs))))
  {
    hide Payloads, Table, Entries, Rows, Projector.Projections;
    var keys, models := p.ModelKeys(specs[i]), p.Models(specs[i]);
    ModelKeysAre(p, specs[i]);
    RegisteredKeys(p, specs);
    forall k | 0 <= k < |keys| ensures keys[k] == p.sourceRevision(models[k]) && keys[k] in s.sources
      && s.sources[keys[k]] == SourcePayload(keys[k], models[k])
    {
      assert keys[k] in keys && Registers(p, specs, keys[k]);
      assert keys[k] in Registered(p, specs).Keys;
    }
    var packed := p.PackedOf(specs[i], p.Projections(specs));
    DeduplicateHolds(packed.sourceKeys);
    LessIsStrictOrder();
    Sorting.SortDistinct(Deduplicate(packed.sourceKeys), Less);
  }

  // ----- reuse

  function FindEntry(entries: seq<Entry>, source: JsString): Option<Entry> {
    if entries == [] then None
    else if entries[0].source == source then Some(entries[0]) else FindEntry(entries[1..], source)
  }

  function FindRow<T>(rows: seq<(JsString, T)>, source: JsString): Option<T> {
    if rows == [] then None else if rows[0].0 == source then Some(rows[0].1) else FindRow(rows[1..], source)
  }

  function ReusablePayload(p: Projector, previous: Option<Snapshot>, topology: JsString, s: Specification): Option<(Entry, SpecPayload)> {
    if previous.None? || previous.value.topology != topology || s.source !in previous.value.inputs
      || !p.identical(previous.value.inputs[s.source], s) then None
    else
      var entry := FindEntry(previous.value.index.specs, s.source);
      if entry.None? then None
      else
        var key := PayloadKey(entry.value.source, entry.value.revision);
        if key in previous.value.specs then Some((entry.value, previous.value.specs[key])) else None
  }

  lemma ReusedFrom(p: Projector, previous: Option<Snapshot>, topology: JsString, s: Specification)
    requires ReusablePayload(p, previous, topology, s).Some?
    ensures previous.Some? && previous.value.topology == topology
  {
  }

  lemma {:induction false} EntryFound(p: Projector, specs: seq<Specification>, context: seq<Projection>, i: nat)
    requires DistinctSources(specs) && i < |specs|
    ensures FindEntry(Entries(p, specs, context), specs[i].source) == Some(p.EntryOf(specs[i], context))
  {
    hide Projector.EntryOf;
    var entries := Entries(p, specs, context);
    assert entries[0] == p.EntryIn(context)(specs[0]) == p.EntryOf(specs[0], context);
    EntrySource(p, specs[0], context);
    if i == 0 {
    } else {
      assert entries[1..] == Entries(p, specs[1..], context);
      EntryFound(p, specs[1..], context, i - 1);
    }
  }

  lemma EntrySource(p: Projector, s: Specification, context: seq<Projection>)
    ensures p.EntryOf(s, context).source == s.source
    ensures PayloadKey(s.source, p.EntryOf(s, context).revision) == p.SpecKey(s, context)
  {
  }

  lemma {:induction false} RowFound<T>(specs: seq<Specification>, f: Specification -> T, i: nat)
    requires DistinctSources(specs) && i < |specs|
    ensures FindRow(Rows(specs, f), specs[i].source) == Some(f(specs[i]))
  {
    if i == 0 {
    } else {
      assert Rows(specs, f)[1..] == Rows(specs[1..], f);
      RowFound(specs[1..], f, i - 1);
    }
  }

  /** A reused payload is the one that projecting the specification again would give. */
  lemma ReuseIsRight(p: Projector, previous: Snapshot, prior: seq<Specification>, specs: seq<Specification>, s: Specification)
    requires p.Lawful() && Coherent(p, previous, prior)
    requires ReusablePayload(p, Some(previous), p.topology(p.Projections(specs)), s).Some?
    ensures var context := p.Projections(specs);
      && p.Projections(prior) == context && s in prior
      && ReusablePayload(p, Some(previous), p.topology(context), s) == Some((p.EntryOf(s, context), p.PayloadOf(s, context)))
      && FindRow(previous.sourceKeys, s.source) == Some(p.KeysIn(context)(s))
  {
    hide Projector.EntryOf, Projector.PayloadOf, Projector.SpecKey, Projector.Projections, Projector.KeysIn, PayloadKey, Rows,
      Table, Payloads, Entries, Registered, FindEntry, FindRow;
    var context := p.Projections(specs);
    assert p.Projections(prior) == context;
    var i := TableOnly(prior, Itself(), s.source);
    assert prior[i] == Itself()(prior[i]) == s;
    EntryFound(p, prior, context, i);
    EntrySource(p, s, context);
    PayloadsAt(p, prior, context, i);
    RowFound(prior, p.KeysIn(context), i);
  }

  /** `registerSource` for each source: an existing digest keeps its payload, and digests do not collide. */
  method RegisterSources(p: Projector, known: map<JsString, SourcePayload>, sources: seq<ApiSource>)
    returns (ok: bool, payloads: map<JsString, SourcePayload>)
    requires p.Lawful() && Digested(p, known)
    ensures ok && Digested(p, payloads) && payloads == known + SourceMap(p, sources)
  {
    hide Projector.Lawful;
    payloads := known;
    for i := 0 to |sources|
      invariant Digested(p, payloads) && payloads == known + SourceMap(p, sources[..i])
    {
      assert sources[..i + 1][..i] == sources[..i];
      var key := p.sourceRevision(sources[i]);
      if key in payloads {
        SameDigest(p, payloads[key].value, sources[i]);
        assert payloads[key] == SourcePayload(key, sources[i]);
        if payloads[key].value != sources[i] { return false, payloads; }
      } else {
        payloads := payloads[key := SourcePayload(key, sources[i])];
      }
    }
    assert sources[..|sources|] == sources;
    ok := true;
  }

  lemma SameDigest(p: Projector, a: ApiSource, b: ApiSource)
    requires p.Lawful() && p.sourceRevision(a) == p.sourceRevision(b)
    ensures a == b
  {
  }

  // ----- create

  function Reusable(previous: Option<Snapshot>): Option<Snapshot> {
    if previous.Some? && CurrentTransport(previous.value) then previous else None
  }

  /** The sources a new snapshot starts from. */
  function KeptSources(p: Projector, previous: Option<Snapshot>, specs: seq<Specification>): map<JsString, SourcePayload> {
    var reusable := Reusable(previous);
    if reusable.Some? && reusable.value.topology == p.topology(p.Projections(specs)) then reusable.value.sources else map[]
  }

  /** The previous snapshot is of the current format and its catalog has the same projections. */
  ghost predicate KeepsSources(p: Projector, previous: Option<Snapshot>, prior: seq<Specification>, specs: seq<Specification>) {
    && previous.Some? && previous.value.index.format == Ascii("astrale.spec.catalog-index") && previous.value.index.version == 4
    && p.Projections(prior) == p.Projections(specs)
  }

  lemma KeptSourcesAre(p: Projector, previous: Option<Snapshot>, prior: seq<Specification>, specs: seq<Specification>)
    requires p.Lawful() && (previous.Some? ==> Coherent(p, previous.value, prior))
    ensures KeptSources(p, previous, specs) == if KeepsSources(p, previous, prior, specs) then previous.value.sources else map[]
    ensures forall key :: key in Registered(p, specs) <==> Registers(p, specs, key)
  {
    hide Projector.Projections, Entries, Payloads, Rows, Registered, Table, Registers;
    RegisteredKeys(p, specs);
  }

  /** The part of a snapshot that one specification contributes to, after some specifications. */
  ghost predicate BuiltSoFar(p: Projector, done: seq<Specification>, context: seq<Projection>, entries: seq<Entry>,
                             specs: map<JsString, SpecPayload>, rows: seq<(JsString, seq<JsString>)>) {
    && p.AllPack(done) && entries == Entries(p, done, context) && specs == Payloads(p, done, context)
    && rows == Rows(done, p.KeysIn(context))
  }

  lemma BuiltNext(p: Projector, all: seq<Specification>, i: nat, context: seq<Projection>, entries: seq<Entry>,
                  specs: map<JsString, SpecPayload>, rows: seq<(JsString, seq<JsString>)>)
    requires i < |all| && BuiltSoFar(p, all[..i], context, entries, specs, rows) && p.models(all[i]).Some?
    ensures BuiltSoFar(p, all[..i + 1], context, entries + [p.EntryOf(all[i], context)],
      specs[p.SpecKey(all[i], context) := p.PayloadOf(all[i], context)], rows + [(all[i].source, p.KeysIn(context)(all[i]))])
  {
    hide Projector.EntryOf, Projector.PayloadOf, Projector.SpecKey, Projector.KeysIn;
    var after := all[..i + 1];
    assert after == all[..i] + [all[i]] && after[..i] == all[..i];
    Sorting.MapAppend(all[..i], all[i], p.EntryIn(context));
    assert p.EntryIn(context)(all[i]) == p.EntryOf(all[i], context);
    assert Rows(after, p.KeysIn(context)) == Rows(all[..i], p.KeysIn(context)) + [(all[i].source, p.KeysIn(context)(all[i]))];
  }

  ghost predicate SourcesSoFar(p: Projector, kept: map<JsString, SourcePayload>, done: seq<Specification>, sources: map<JsString, SourcePayload>) {
    Digested(p, sources) && sources.Keys == kept.Keys + Registered(p, done).Keys
  }

  lemma SourcesNext(p: Projector, kept: map<JsString, SourcePayload>, all: seq<Specification>, i: nat, sources: map<JsString, SourcePayload>)
    requires i < |all| && SourcesSoFar(p, kept, all[..i], sources)
    ensures Digested(p, sources + SourceMap(p, p.Models(all[i])))
    ensures SourcesSoFar(p, kept, all[..i + 1], sources + SourceMap(p, p.Models(all[i])))
  {
    SourceMapKeys(p, p.Models(all[i]));
    assert all[..i + 1][..i] == all[..i];
    var after := sources + SourceMap(p, p.Models(all[i]));
    assert after.Keys == sources.Keys + SourceMap(p, p.Models(all[i])).Keys;
  }

  /** A reused specification registers nothing new. */
  lemma SourcesKept(p: Projector, previous: Snapshot, prior: seq<Specification>, all: seq<Specification>, i: nat, sources: map<JsString, SourcePayload>)
    requires p.Lawful() && Coherent(p, previous, prior) && i < |all| && all[i] in prior
    requires SourcesSoFar(p, previous.sources, all[..i], sources)
    ensures SourcesSoFar(p, previous.sources, all[..i + 1], sources)
  {
    hide Payloads, Entries, Rows, Table, Projector.Projections, Projector.Models, Projector.ModelKeys;
    SourceMapKeys(p, p.Models(all[i]));
    RegisteredKeys(p, prior);
    assert all[..i + 1][..i] == all[..i];
    forall k | k in SourceMap(p, p.Models(all[i])) ensures k in previous.sources.Keys {
      ModelKeysAre(p, all[i]);
      assert Registers(p, prior, k);
      assert k in Registered(p, prior).Keys;
    }
  }

  lemma ModelKeysAre(p: Projector, s: Specification)
    ensures p.ModelKeys(s) == Sorting.Map(p.Models(s), p.sourceRevision)
  {
  }

  lemma SourcesDone(p: Projector, kept: map<JsString, SourcePayload>, done: seq<Specification>, sources: map<JsString, SourcePayload>)
    requires p.Lawful() && Digested(p, kept) && SourcesSoFar(p, kept, done, sources)
    ensures sources == kept + Registered(p, done)
  {
    RegisteredKeys(p, done);
    var expected := kept + Registered(p, done);
    assert expected.Keys == kept.Keys + Registered(p, done).Keys;
    DigestedUnique(p, sources, expected);
  }

  /**
   With or without a previous snapshot, the result is the anew projection of the catalog, except that it
   keeps the sources of a previous snapshot of the same topology.
   */
  method CreateCatalogSnapshot(p: Projector, catalog: Catalog, adapter: Data, application: JsString,
                               previous: Option<Snapshot>, ghost prior: seq<Specification>) returns (result: Option<Snapshot>)
    requires p.Lawful() && DistinctSources(catalog.specs)
    requires previous.Some? ==> Coherent(p, previous.value, prior)
    ensures result.Some? <==> p.AllPack(catalog.specs)
    ensures result.Some? ==> Coherent(p, result.value, catalog.specs)
    ensures result.Some? ==> var anew := Fresh(p, catalog, adapter, application).value;
      result.value == anew.(sources := KeptSources(p, previous, catalog.specs) + anew.sources)
    ensures result.Some? ==> IndexSays(p, result.value.index, application, catalog.diagnostics)
    ensures result.Some? ==> result.value.indexModule == p.indexModule(result.value.index, adapter)
    ensures result.Some? ==> Navigable(p, result.value, catalog.specs)
    ensures result.Some? ==> forall key :: key in result.value.sources <==>
      Registers(p, catalog.specs, key) || (KeepsSources(p, previous, prior, catalog.specs) && key in previous.value.sources)
  {
    hide Projector.Lawful, Projector.Projections, Projector.EntryOf, Projector.PayloadOf, Projector.SpecKey, Projector.KeysIn,
      Projector.Models, PayloadKey, Entries, Payloads, Rows, Table, Registered, SourceMap, Digested, SourcesSoFar, BuiltSoFar,
      ReusablePayload, FindRow, DistinctSources, Coherent, Navigable, Registers, KeepsSources;
    var reusable := Reusable(previous);
    var context := p.Projections(catalog.specs);
    var topology := p.topology(context);
    var sources := KeptSources(p, previous, catalog.specs);
    ghost var kept := sources;
    var specs, entries, rows := map[], [], [];
    CreateStarts(p, previous, prior, catalog.specs);
    for i := 0 to |catalog.specs|
      invariant BuiltSoFar(p, catalog.specs[..i], context, entries, specs, rows)
      invariant SourcesSoFar(p, kept, catalog.specs[..i], sources)
    {
      var spec := catalog.specs[i];
      var retained := ReusablePayload(p, reusable, topology, spec);
      if retained.Some? {
        ReusedFrom(p, reusable, topology, spec);
        Retained(p, reusable.value, prior, catalog.specs, i, sources);
        BuiltNext(p, catalog.specs, i, context, entries, specs, rows);
        specs := specs[PayloadKey(spec.source, retained.value.0.revision) := retained.value.1];
        entries := entries + [retained.value.0];
        var row := FindRow(reusable.value.sourceKeys, spec.source);
        rows := rows + [(spec.source, if row.Some? then row.value else [])];
      } else {
        if p.models(spec).None? { return None; }
        BuiltNext(p, catalog.specs, i, context, entries, specs, rows);
        SourcesNext(p, kept, catalog.specs, i, sources);
        assert Digested(p, sources) by { SourcesDigested(p, kept, catalog.specs[..i], sources); }
        var ok;
        ok, sources := RegisterSources(p, sources, p.Models(spec));
        var payload := p.PayloadOf(spec, context);
        EntrySource(p, spec, context);
        specs := specs[p.SpecKey(spec, context) := payload];
        rows := rows + [(spec.source, p.KeysIn(context)(spec))];
        entries := entries + [p.EntryOf(spec, context)];
      }
    }
    assert catalog.specs[..|catalog.specs|] == catalog.specs;
    var index := IndexOf(p, entries, catalog.diagnostics, application);
    result := Some(Snapshot(index, p.indexModule(index, adapter), specs, sources, Table(catalog.specs, Itself()), context, rows, topology));
    CreateEnds(p, catalog, adapter, application, kept, entries, specs, rows, sources);
    CoherentIsNavigable(p, result.value, catalog.specs);
    KeptSourcesAre(p, previous, prior, catalog.specs);
    FreshSources(p, catalog, adapter, application);
  }

  lemma FreshSources(p: Projector, catalog: Catalog, adapter: Data, application: JsString)
    requires p.AllPack(catalog.specs)
    ensures Fresh(p, catalog, adapter, application).value.sources == Registered(p, catalog.specs)
  {
  }

  lemma SourcesDigested(p: Projector, kept: map<JsString, SourcePayload>, done: seq<Specification>, sources: map<JsString, SourcePayload>)
    requires SourcesSoFar(p, kept, done, sources)
    ensures Digested(p, sources)
  {
  }

  lemma CreateStarts(p: Projector, previous: Option<Snapshot>, prior: seq<Specification>, specs: seq<Specification>)
    requires previous.Some? ==> Coherent(p, previous.value, prior)
    ensures Digested(p, KeptSources(p, previous, specs))
    ensures BuiltSoFar(p, specs[..0], p.Projections(specs), [], map[], [])
    ensures SourcesSoFar(p, KeptSources(p, previous, specs), specs[..0], KeptSources(p, previous, specs))
  {
  }

  lemma Retained(p: Projector, previous: Snapshot, prior: seq<Specification>, specs: seq<Specification>, i: nat, sources: map<JsString, SourcePayload>)
    requires p.Lawful() && Coherent(p, previous, prior) && i < |specs|
    requires ReusablePayload(p, Some(previous), p.topology(p.Projections(specs)), specs[i]).Some?
    requires previous.topology == p.topology(p.Projections(specs)) ==> SourcesSoFar(p, previous.sources, specs[..i], sources)
    ensures var context := p.Projections(specs);
      && ReusablePayload(p, Some(previous), p.topology(context), specs[i]) ==
         Some((p.EntryOf(specs[i], context), p.PayloadOf(specs[i], context)))
      && PayloadKey(specs[i].source, p.EntryOf(specs[i], context).revision) == p.SpecKey(specs[i], context)
      && FindRow(previous.sourceKeys, specs[i].source) == Some(p.KeysIn(context)(specs[i]))
      && p.models(specs[i]).Some? && previous.topology == p.topology(context)
    ensures SourcesSoFar(p, previous.sources, specs[..i + 1], sources)
  {
    hide Projector.EntryOf, Projector.PayloadOf, Projector.SpecKey, Projector.KeysIn, Entries, Payloads, Rows, Table, Registered,
      SourcesSoFar, FindRow, Projector.Projections;
    ReuseIsRight(p, previous, prior, specs, specs[i]);
    EntrySource(p, specs[i], p.Projections(specs));
    SourcesKept(p, previous, prior, specs, i, sources);
  }

  lemma CreateEnds(p: Projector, catalog: Catalog, adapter: Data, application: JsString, kept: map<JsString, SourcePayload>,
                   entries: seq<Entry>, specs: map<JsString, SpecPayload>, rows: seq<(JsString, seq<JsString>)>,
                   sources: map<JsString, SourcePayload>)
    requires p.Lawful() && DistinctSources(catalog.specs) && Digested(p, kept)
    requires BuiltSoFar(p, catalog.specs, p.Projections(catalog.specs), entries, specs, rows)
    requires SourcesSoFar(p, kept, catalog.specs, sources)
    ensures var context := p.Projections(catalog.specs);
      var index := IndexOf(p, entries, catalog.diagnostics, application);
      var result := Snapshot(index, p.indexModule(index, adapter), specs, sources, Table(catalog.specs, Itself()), context, rows,
        p.topology(context));
      var anew := Fresh(p, catalog, adapter, application);
      p.AllPack(catalog.specs) && anew.Some? && result == anew.value.(sources := kept + anew.value.sources)
        && Coherent(p, result, catalog.specs)
  {
    hide Entries, Payloads, Rows, Table, Registered, Digested, Projector.Lawful, Projector.Projections;
    SourcesDone(p, kept, catalog.specs, sources);
    SourcesDigested(p, kept, catalog.specs, sources);
  }
}
