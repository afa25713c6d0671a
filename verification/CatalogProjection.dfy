/**
 What a catalog snapshot contains: one entry and one payload for each specification, computed from it and
 the projection of the whole catalog, and the declaration sources they register. Packing, metrics, search text,
 reference projection and digests are parameters.
 */
module CatalogProjection {
  import opened Options
  import opened Sequences
  import opened Utf16
  import Sorting

  /** Any JSON value, of which only equality matters here. */
  type Data = JsString

  datatype Specification = Specification(source: JsString, content: Data)

  /** The part of a specification that other specifications' payloads depend on. */
  datatype Projection = Projection(source: JsString, modules: Data)

  datatype References = References(documents: Data, semantic: Option<Data>)

  datatype ApiSource = ApiSource(source: Data, tokens: Data)

  datatype SourcePayload = SourcePayload(key: JsString, value: ApiSource)

  datatype Packed = Packed(value: Data, sourceKeys: seq<JsString>)

  datatype SpecPayload = SpecPayload(source: JsString, revision: JsString, spec: Packed, semantic: Option<Data>)

  datatype Entry = Entry(source: JsString, revision: JsString, summary: Data)

  datatype Index = Index(
    format: JsString, version: nat, generation: JsString, application: JsString, specs: seq<Entry>, diagnostics: Data)

  datatype Catalog = Catalog(specs: seq<Specification>, diagnostics: Data)

  datatype Snapshot = Snapshot(
    index: Index, indexModule: Data, specs: map<JsString, SpecPayload>, sources: map<JsString, SourcePayload>,
    inputs: map<JsString, Specification>, specifications: seq<Projection>,
    sourceKeys: seq<(JsString, seq<JsString>)>, topology: JsString)

  /** The pure functions that project one catalog; `models` is absent when packing the specification throws. */
  datatype Projector = Projector(
    modules: Specification -> Data,
    topology: seq<Projection> -> JsString,
    references: (Specification, seq<Projection>) -> References,
    models: Specification -> Option<seq<ApiSource>>,
    sourceRevision: ApiSource -> JsString,
    pack: (Specification, seq<JsString>, Data) -> Data,
    specRevision: (Packed, Option<Data>) -> JsString,
    summary: (Specification, seq<Projection>) -> Data,
    indexRevision: (Data, seq<Entry>) -> JsString,
    indexModule: (Index, Data) -> Data,
    identical: (Specification, Specification) -> bool)
  {
    /** Digests do not collide, a revision has no NUL, and identical objects are equal. */
    ghost predicate Lawful() {
      && (forall a, b :: topology(a) == topology(b) ==> a == b)
      && (forall a, b :: sourceRevision(a) == sourceRevision(b) ==> a == b)
      && (forall packed, semantic :: 0 !in specRevision(packed, semantic))
      && (forall a, b :: identical(a, b) ==> a == b)
    }

    function Project(s: Specification): Projection { Projection(s.source, modules(s)) }

    function Projections(specs: seq<Specification>): seq<Projection> { Sorting.Map(specs, Project) }

    predicate AllPack(specs: seq<Specification>) { forall i :: 0 <= i < |specs| ==> models(specs[i]).Some? }

    function Models(s: Specification): seq<ApiSource> { if models(s).Some? then models(s).value else [] }

    function ModelKeys(s: Specification): seq<JsString> { Sorting.Map(Models(s), sourceRevision) }

    function PackedOf(s: Specification, context: seq<Projection>): Packed {
      Packed(pack(s, ModelKeys(s), references(s, context).documents), ModelKeys(s))
    }

    function PayloadOf(s: Specification, context: seq<Projection>): SpecPayload {
      var packed, semantic := PackedOf(s, context), references(s, context).semantic;
      SpecPayload(s.source, specRevision(packed, semantic), packed, semantic)
    }

    function EntryOf(s: Specification, context: seq<Projection>): Entry {
      Entry(s.source, PayloadOf(s, context).revision, summary(s, context))
    }

    function EntryIn(context: seq<Projection>): Specification -> Entry { s => EntryOf(s, context) }

    function KeysIn(context: seq<Projection>): Specification -> seq<JsString> {
      s => SourceKeysOf(PackedOf(s, context))
    }

    function SpecKey(s: Specification, context: seq<Projection>): JsString {
      PayloadKey(s.source, PayloadOf(s, context).revision)
    }
  }

  function PayloadKey(source: JsString, revision: JsString): JsString { source + [0] + revision }

  /** `packedSpecSourceKeys`. */
  function SourceKeysOf(packed: Packed): seq<JsString> { Sorting.Sort(Deduplicate(packed.sourceKeys), Less) }

  lemma SourceKeysMembers(packed: Packed, key: JsString)
    ensures key in SourceKeysOf(packed) <==> key in packed.sourceKeys
  {
    DeduplicateHolds(packed.sourceKeys);
    Sorting.SortPermutes(Deduplicate(packed.sourceKeys), Less);
  }

  function SourceOf(s: Specification): JsString { s.source }

  ghost predicate DistinctSources(specs: seq<Specification>) {
    forall i, j :: 0 <= i < j < |specs| ==> specs[i].source != specs[j].source
  }

  // ----- whole-catalog tables

  function Entries(p: Projector, specs: seq<Specification>, context: seq<Projection>): seq<Entry> {
    Sorting.Map(specs, p.EntryIn(context))
  }

  /** Each source with its value; with distinct sources, the `Map` built from the list. */
  function Table<T>(specs: seq<Specification>, f: Specification -> T): map<JsString, T> {
    if specs == [] then map[]
    else Table(specs[..|specs| - 1], f)[specs[|specs| - 1].source := f(specs[|specs| - 1])]
  }

  function Rows<T>(specs: seq<Specification>, f: Specification -> T): seq<(JsString, T)> {
    seq(|specs|, i requires 0 <= i < |specs| => (specs[i].source, f(specs[i])))
  }

  function Itself(): Specification -> Specification { s => s }

  function Payloads(p: Projector, specs: seq<Specification>, context: seq<Projection>): map<JsString, SpecPayload> {
    if specs == [] then map[]
    else
      var last := specs[|specs| - 1];
      Payloads(p, specs[..|specs| - 1], context)[p.SpecKey(last, context) := p.PayloadOf(last, context)]
  }

  function SourceMap(p: Projector, sources: seq<ApiSource>): map<JsString, SourcePayload> {
    if sources == [] then map[]
    else
      var last := sources[|sources| - 1];
      SourceMap(p, sources[..|sources| - 1])[p.sourceRevision(last) := SourcePayload(p.sourceRevision(last), last)]
  }

  function Registered(p: Projector, specs: seq<Specification>): map<JsString, SourcePayload> {
    if specs == [] then map[]
    else Registered(p, specs[..|specs| - 1]) + SourceMap(p, p.Models(specs[|specs| - 1]))
  }

  /** The snapshot of a catalog projected from nothing; absent when a specification cannot be packed. */
  function Fresh(p: Projector, catalog: Catalog, adapter: Data, application: JsString): Option<Snapshot> {
    if !p.AllPack(catalog.specs) then None
    else
      var context := p.Projections(catalog.specs);
      var index := IndexOf(p, Entries(p, catalog.specs, context), catalog.diagnostics, application);
      Some(Snapshot(index, p.indexModule(index, adapter), Payloads(p, catalog.specs, context),
        Registered(p, catalog.specs), Table(catalog.specs, Itself()), context,
        Rows(catalog.specs, p.KeysIn(context)), p.topology(context)))
  }

  const INDEX_FORMAT: JsString := Ascii("astrale.spec.catalog-index")
  const TRANSPORT_VERSION: nat := 4

  function IndexOf(p: Projector, entries: seq<Entry>, diagnostics: Data, application: JsString): Index {
    Index(INDEX_FORMAT, TRANSPORT_VERSION, p.indexRevision(diagnostics, entries), application, entries, diagnostics)
  }

  predicate CurrentTransport(s: Snapshot) { s.index.format == INDEX_FORMAT && s.index.version == TRANSPORT_VERSION }

  // ----- looking the tables up

  lemma PayloadKeyInjective(a: JsString, r: JsString, b: JsString, t: JsString)
    requires PayloadKey(a, r) == PayloadKey(b, t) && 0 !in r && 0 !in t
    ensures a == b && r == t
  {
    NulPosition(a, r);
    NulPosition(b, t);
    var k := PayloadKey(a, r);
    assert k[..|a|] == a && k[|a| + 1..] == r;
    assert k[..|b|] == b && k[|b| + 1..] == t;
  }

  /** The separator is the last NUL of a payload key. */
  lemma NulPosition(source: JsString, revision: JsString)
    requires 0 !in revision
    ensures var k := PayloadKey(source, revision);
      k[|source|] == 0 && forall i :: |source| < i < |k| ==> k[i] != 0
  {
    var k := PayloadKey(source, revision);
    forall i | |source| < i < |k| ensures k[i] != 0 { assert k[i] == revision[i - |source| - 1]; }
  }

  lemma SpecKeyInjective(p: Projector, s: Specification, t: Specification, c: seq<Projection>, d: seq<Projection>)
    requires p.Lawful() && p.SpecKey(s, c) == p.SpecKey(t, d)
    ensures s.source == t.source
  {
    PayloadKeyInjective(s.source, p.PayloadOf(s, c).revision, t.source, p.PayloadOf(t, d).revision);
  }

  lemma {:induction false} PayloadsAt(p: Projector, specs: seq<Specification>, context: seq<Projection>, i: nat)
    requires p.Lawful() && DistinctSources(specs) && i < |specs|
    ensures p.SpecKey(specs[i], context) in Payloads(p, specs, context)
    ensures Payloads(p, specs, context)[p.SpecKey(specs[i], context)] == p.PayloadOf(specs[i], context)
  {
    hide Projector.Lawful, Projector.PayloadOf, Projector.SpecKey;
    var n := |specs| - 1;
    if i < n {
      PayloadsAt(p, specs[..n], context, i);
      if p.SpecKey(specs[i], context) == p.SpecKey(specs[n], context) {
        SpecKeyInjective(p, specs[i], specs[n], context, context);
        assert false;
      }
    }
  }

  lemma {:induction false} PayloadsOnly(p: Projector, specs: seq<Specification>, context: seq<Projection>, key: JsString) returns (i: nat)
    requires key in Payloads(p, specs, context)
    ensures i < |specs| && key == p.SpecKey(specs[i], context)
  {
    hide Projector.PayloadOf, Projector.SpecKey;
    i := |specs| - 1;
    if key != p.SpecKey(specs[i], context) { i := PayloadsOnly(p, specs[..i], context, key); }
  }

  lemma {:induction false} TableAt<T>(specs: seq<Specification>, f: Specification -> T, i: nat)
    requires DistinctSources(specs) && i < |specs|
    ensures specs[i].source in Table(specs, f) && Table(specs, f)[specs[i].source] == f(specs[i])
  {
    if i < |specs| - 1 { TableAt(specs[..|specs| - 1], f, i); }
  }

  lemma {:induction false} TableOnly<T>(specs: seq<Specification>, f: Specification -> T, source: JsString) returns (i: nat)
    requires source in Table(specs, f)
    ensures i < |specs| && specs[i].source == source && Table(specs, f)[source] == f(specs[i])
  {
    i := |specs| - 1;
    if specs[i].source != source { i := TableOnly(specs[..i], f, source); }
  }

  // ----- registered sources

  /** Every source is stored under its digest. */
  ghost predicate Digested(p: Projector, m: map<JsString, SourcePayload>) {
    forall k :: k in m ==> m[k].key == k && p.sourceRevision(m[k].value) == k
  }

  /** ... so such a map is determined by its keys. */
  lemma DigestedUnique(p: Projector, a: map<JsString, SourcePayload>, b: map<JsString, SourcePayload>)
    requires p.Lawful() && Digested(p, a) && Digested(p, b) && a.Keys == b.Keys
    ensures a == b
  {
    forall k | k in a ensures a[k] == b[k] {
      assert k in b.Keys;
      assert p.sourceRevision(a[k].value) == p.sourceRevision(b[k].value);
    }
  }

  lemma {:induction false} SourceMapKeys(p: Projector, sources: seq<ApiSource>)
    ensures Digested(p, SourceMap(p, sources))
    ensures forall k :: k in SourceMap(p, sources) <==> k in Sorting.Map(sources, p.sourceRevision)
  {
    if sources == [] {
    } else {
      var n := |sources| - 1;
      SourceMapKeys(p, sources[..n]);
      Sorting.MapAppend(sources[..n], sources[n], p.sourceRevision);
      assert sources == sources[..n] + [sources[n]];
    }
  }

  ghost predicate Registers(p: Projector, specs: seq<Specification>, key: JsString) {
    exists i :: 0 <= i < |specs| && key in p.ModelKeys(specs[i])
  }

  lemma RegistersSnoc(p: Projector, specs: seq<Specification>, key: JsString)
    requires specs != []
    ensures Registers(p, specs, key) <==>
      Registers(p, specs[..|specs| - 1], key) || key in p.ModelKeys(specs[|specs| - 1])
  {
    hide Projector.ModelKeys;
    var front := specs[..|specs| - 1];
    if Registers(p, front, key) {
      var i :| 0 <= i < |front| && key in p.ModelKeys(front[i]);
      assert key in p.ModelKeys(specs[i]);
    }
    if Registers(p, specs, key) {
      var i :| 0 <= i < |specs| && key in p.ModelKeys(specs[i]);
      if i < |front| { assert key in p.ModelKeys(front[i]); }
    }
  }

  lemma {:induction false} RegisteredKeys(p: Projector, specs: seq<Specification>)
    ensures Digested(p, Registered(p, specs))
    ensures forall k :: k in Registered(p, specs) <==> Registers(p, specs, k)
  {
    hide Registers, SourceMap;
    if specs == [] {
      NothingRegistered(p, specs);
    } else {
      RegisteredKeys(p, specs[..|specs| - 1]);
      SourceMapKeys(p, p.Models(specs[|specs| - 1]));
      forall k ensures k in Registered(p, specs) <==> Registers(p, specs, k) { RegistersSnoc(p, specs, k); }
    }
  }

  lemma NothingRegistered(p: Projector, specs: seq<Specification>)
    requires specs == []
    ensures forall k :: !Registers(p, specs, k)
  {
  }
}
