/**
 Streaming a fact shard's identity: the fixed envelope is written around nested values, and the
 message hashed is the `StableText` of the whole identity object.

 The writer never sees that object. It writes the names of the envelope in an order fixed in the source, which is
 proved to be the canonical order of the object's keys, and it writes the facts one after the other.
 */
module FactShardIdentity {
  import opened Options
  import opened Utf16
  import opened StableJson
  import opened StableJsonInjective
  import opened OwnedWriter
  import opened JsonLength
  import opened Envelope
  import Sorting

  /** A fact without its generation, as the identity sees it. */
  datatype Fact = Fact(id: Value, namespace: Value, schemaVersion: Value, kind: Value, subject: Value,
                       completeness: Value, provenance: Value, payload: Value)

  datatype Shard = Shard(key: Value, namespace: Value, schemaVersion: Value, completion: Value,
                         facts: seq<Fact>, capabilities: Option<Value>)

  datatype Identity = Identity(message: seq<Byte>, semanticPayloadBytes: nat)

  // ----- the identity as one value

  function FactValue(f: Fact): Value {
    Object(true, [
      Field(Ascii("id"), f.id),
      Field(Ascii("namespace"), f.namespace),
      Field(Ascii("schemaVersion"), f.schemaVersion),
      Field(Ascii("kind"), f.kind),
      Field(Ascii("subject"), f.subject),
      Field(Ascii("completeness"), f.completeness),
      Field(Ascii("provenance"), f.provenance),
      Field(Ascii("payload"), f.payload)])
  }

  function FactValues(facts: seq<Fact>): (r: seq<Value>)
    ensures |r| == |facts| && forall i :: 0 <= i < |r| ==> r[i] == FactValue(facts[i])
  {
    seq(|facts|, i requires 0 <= i < |facts| => FactValue(facts[i]))
  }

  function ShardValue(s: Shard): Value {
    Object(true, [
      Field(Ascii("key"), s.key),
      Field(Ascii("namespace"), s.namespace),
      Field(Ascii("schemaVersion"), s.schemaVersion),
      Field(Ascii("completion"), s.completion),
      Field(Ascii("facts"), Array(true, FactValues(s.facts)))]
      + match s.capabilities case None => [] case Some(c) => [Field(Ascii("capabilities"), c)])
  }

  /** Every part is JSON data the writer finishes on. */
  predicate FactAccepted(f: Fact) {
    && Accepted(f.id) && Accepted(f.namespace) && Accepted(f.schemaVersion) && Accepted(f.kind)
    && Accepted(f.subject) && Accepted(f.completeness) && Accepted(f.provenance) && Accepted(f.payload)
  }

  predicate ShardAccepted(s: Shard) {
    && Accepted(s.key) && Accepted(s.namespace) && Accepted(s.schemaVersion) && Accepted(s.completion)
    && (s.capabilities.Some? ==> Accepted(s.capabilities.value))
    && forall i :: 0 <= i < |s.facts| ==> FactAccepted(s.facts[i])
  }

  ghost predicate FactProper(f: Fact) {
    && Proper(f.id) && Proper(f.namespace) && Proper(f.schemaVersion) && Proper(f.kind)
    && Proper(f.subject) && Proper(f.completeness) && Proper(f.provenance) && Proper(f.payload)
  }

  ghost predicate ShardProper(s: Shard) {
    && Proper(s.key) && Proper(s.namespace) && Proper(s.schemaVersion) && Proper(s.completion)
    && (s.capabilities.Some? ==> Proper(s.capabilities.value))
    && forall i :: 0 <= i < |s.facts| ==> FactProper(s.facts[i])
  }

  /** The sum of the payloads' ordinary JSON byte lengths. */
  function PayloadBytes(facts: seq<Fact>): nat
    requires forall i :: 0 <= i < |facts| ==> FactAccepted(facts[i])
  {
    if facts == [] then 0 else
      assert FactAccepted(facts[|facts| - 1]);
      PayloadBytes(facts[..|facts| - 1]) + OrdinaryBytes(facts[|facts| - 1].payload)
  }

  // ----- writing one labelled entry

  /** The writer stands behind the entries `keys` of `owner`. */
  ghost predicate At(w: Writer, start: JsString, keys: seq<JsString>, owner: Value)
    reads w, w.buffer
  {
    w.Faithful() && AllAccepted(keys, owner) &&
    w.text == if keys == [] then start else ObjectPrefix(start, keys, owner)
  }

  ghost predicate EntryIs(owner: Value, name: string, v: Value) {
    IsName(name) && owner.Object? && HasKey(owner.fields, Ascii(name)) && Get(owner.fields, Ascii(name)) == v
  }

  method WriteLabel(w: Writer, first: bool, name: string)
    requires IsName(name) && |name| <= 100 && w.Faithful()
    modifies w, w.buffer
    ensures w.Faithful() && w.text == old(w.text) + Label(first, name)
  {
    LabelIsFraming(first, name);
    w.Part(Label(first, name));
  }

  lemma AllAcceptedObject(keys: seq<JsString>, owner: Value)
    requires AllAccepted(keys, owner)
    ensures owner.Object?
  {
  }

  lemma EntryWritten(start: JsString, keys: seq<JsString>, name: string, owner: Value)
    requires IsName(name) && AllAccepted(keys, owner) && HasKey(owner.fields, Ascii(name))
    requires Accepted(Get(owner.fields, Ascii(name)))
    ensures AllAccepted(keys + [Ascii(name)], owner)
    ensures (if keys == [] then start else ObjectPrefix(start, keys, owner))
              + Label(keys == [], name) + CanonicalText(Get(owner.fields, Ascii(name)))
         == ObjectPrefix(start, keys + [Ascii(name)], owner)
  {
    hide CanonicalText, ObjectPrefix, Quote, Get, HasKey, Accepted, AllAccepted, Label;
    AllAcceptedObject(keys, owner);
    var value := CanonicalText(Get(owner.fields, Ascii(name)));
    LabelIsFraming(keys == [], name);
    ObjectPrefixStep(start, keys, Ascii(name), owner);
    if keys == [] {
      ObjectPrefixStart(start, owner);
      assert start + LBRACE + ([] + Quote(Ascii(name)) + COLON + value) == start + (LBRACE + Quote(Ascii(name)) + COLON) + value;
    } else {
      assert ObjectPrefix(start, keys, owner) + (COMMA + Quote(Ascii(name)) + COLON + value)
          == ObjectPrefix(start, keys, owner) + (COMMA + Quote(Ascii(name)) + COLON) + value;
    }
  }

  method WriteEntry(w: Writer, name: string, v: Value, ghost start: JsString, ghost keys: seq<JsString>, ghost owner: Value,
                    first: bool) returns (ok: bool)
    requires At(w, start, keys, owner) && Proper(v) && EntryIs(owner, name, v) && |name| <= 100 && first == (keys == [])
    modifies w, w.buffer
    ensures ok == Accepted(v)
    ensures ok ==> At(w, start, keys + [Ascii(name)], owner)
  {
    hide Encoded, Utf8, StringsSound, ShapesSound, CanonicalText, ObjectPrefix, Accepted, Get, HasKey, AllAccepted, Proper, Label;
    WriteLabel(w, first, name);
    ok := w.Value(v);
    if ok { EntryWritten(start, keys, name, owner); }
  }

  // ----- one fact

  const FACT_NAMES: seq<string> :=
    ["completeness", "id", "kind", "namespace", "payload", "provenance", "schemaVersion", "subject"]

  lemma FactNamesAreNames()
    ensures forall i :: 0 <= i < |FACT_NAMES| ==> IsName(FACT_NAMES[i]) && |FACT_NAMES[i]| <= 100
  {
  }

  /** The first keys of a fact, in canonical order. */
  function FactPrefix(count: nat): seq<JsString>
    requires count <= |FACT_NAMES|
  {
    FactNamesAreNames();
    Names(FACT_NAMES)[..count]
  }

  /** Each written entry appends its key; the arguments are what `WriteEntry` needs. */
  lemma FactStep(i: nat, name: string)
    requires i < |FACT_NAMES| && name == FACT_NAMES[i]
    ensures IsName(name) && |name| <= 100
    ensures FactPrefix(i + 1) == FactPrefix(i) + [Ascii(name)]
    ensures FactPrefix(i) == [] <==> i == 0
  {
    FactNamesAreNames();
  }

  lemma FactNames(f: Fact)
    ensures var names, keys := FactPrefix(8), Keys(FactValue(f).fields);
      && |names| == |keys| && (forall k :: k in names <==> k in keys)
      && (forall i :: 0 <= i < |names| - 1 ==> NamedBefore(names[i], names[i + 1]))
  {
    FactNamesAreNames();
    var fields, names := FactValue(f).fields, FactPrefix(8);
    hide NamedBefore;
    assert Keys(fields) == [names[1], names[3], names[6], names[2], names[7], names[0], names[5], names[4]];
    assert names == [names[0], names[1], names[2], names[3], names[4], names[5], names[6], names[7]];
  }

  lemma FactKeys(f: Fact)
    ensures Sorting.Distinct(Keys(FactValue(f).fields))
    ensures FactAccepted(f) ==> CanonicalKeys(FactValue(f).fields) == FactPrefix(8)
  {
    FactNames(f);
    EnvelopeDistinct(FactValue(f).fields, FactPrefix(8));
    if FactAccepted(f) { EnvelopeKeys(FactValue(f).fields, FactPrefix(8)); }
  }

  lemma FactEntries(f: Fact)
    ensures EntryIs(FactValue(f), "id", f.id) && EntryIs(FactValue(f), "namespace", f.namespace)
    ensures EntryIs(FactValue(f), "schemaVersion", f.schemaVersion) && EntryIs(FactValue(f), "kind", f.kind)
    ensures EntryIs(FactValue(f), "subject", f.subject) && EntryIs(FactValue(f), "completeness", f.completeness)
    ensures EntryIs(FactValue(f), "provenance", f.provenance) && EntryIs(FactValue(f), "payload", f.payload)
  {
    FactKeys(f);
    FactNamesAreNames();
    hide Get, HasKey, CanonicalKeys, NamedBefore;
    var fields := FactValue(f).fields;
    forall i | 0 <= i < 8 ensures HasKey(fields, fields[i].key) && Get(fields, fields[i].key) == fields[i].value {
      GetIs(fields, i);
    }
    assert IsName(FACT_NAMES[0]) && IsName(FACT_NAMES[1]) && IsName(FACT_NAMES[2]) && IsName(FACT_NAMES[3]);
    assert IsName(FACT_NAMES[4]) && IsName(FACT_NAMES[5]) && IsName(FACT_NAMES[6]) && IsName(FACT_NAMES[7]);
    assert fields[0].key == Ascii("id") && fields[1].key == Ascii("namespace") && fields[2].key == Ascii("schemaVersion");
    assert fields[3].key == Ascii("kind") && fields[4].key == Ascii("subject") && fields[5].key == Ascii("completeness");
    assert fields[6].key == Ascii("provenance") && fields[7].key == Ascii("payload");
  }

  lemma FactAcceptedValue(f: Fact)
    ensures FactProper(f) ==> Proper(FactValue(f))
    ensures FactAccepted(f) ==> Accepted(FactValue(f))
  {
    FactKeys(f);
    hide Proper, Accepted, Keys, CanonicalKeys, FactPrefix;
    var v := FactValue(f);
    if FactProper(f) { ObjectProper(v); }
    if FactAccepted(f) { ObjectAccepted(v); }
  }

  lemma ObjectProper(v: Value)
    requires v.Object? && Sorting.Distinct(Keys(v.fields)) && forall i :: 0 <= i < |v.fields| ==> Proper(v.fields[i].value)
    ensures Proper(v)
  {
  }

  lemma ObjectAccepted(v: Value)
    requires v.Object? && v.plain && forall i :: 0 <= i < |v.fields| ==> Accepted(v.fields[i].value)
    ensures Accepted(v)
  {
    assert forall i :: 0 <= i < |v.fields| ==> AcceptedEntry(v.fields[i]);
  }

  lemma FactDone(start: JsString, f: Fact, keys: seq<JsString>)
    requires FactProper(f) && FactAccepted(f)
    requires keys == FactPrefix(8) && AllAccepted(keys, FactValue(f))
    ensures ObjectPrefix(start, keys, FactValue(f)) + RBRACE == start + CanonicalText(FactValue(f))
  {
    FactKeys(f);
    FactAcceptedValue(f);
    hide Proper, Accepted, ObjectPrefix, CanonicalText, FactProper, FactAccepted;
    ObjectPrefixEnd(start, FactValue(f));
  }

  /** The next entry of a fact. */
  method WriteFactEntry(w: Writer, f: Fact, i: nat, name: string, v: Value, ghost start: JsString) returns (ok: bool)
    requires i < |FACT_NAMES| && name == FACT_NAMES[i] && EntryIs(FactValue(f), name, v) && Proper(v)
    requires At(w, start, FactPrefix(i), FactValue(f)) && |name| <= 100
    modifies w, w.buffer
    ensures ok == Accepted(v)
    ensures ok ==> At(w, start, FactPrefix(i + 1), FactValue(f))
  {
    FactStep(i, name);
    hide Accepted, Proper, At, EntryIs, FactValue, IsName, FactPrefix;
    ok := WriteEntry(w, name, v, start, FactPrefix(i), FactValue(f), i == 0);
  }

  /** The four entries before the payload. */
  method WriteFactHead(w: Writer, f: Fact, ghost start: JsString) returns (ok: bool)
    requires At(w, start, FactPrefix(0), FactValue(f)) && FactProper(f)
    modifies w, w.buffer
    ensures ok == (Accepted(f.completeness) && Accepted(f.id) && Accepted(f.kind) && Accepted(f.namespace))
    ensures ok ==> At(w, start, FactPrefix(4), FactValue(f))
  {
    FactEntries(f);
    hide Accepted, Proper, At, EntryIs, FactValue, IsName, FactPrefix;
    ok := WriteFactEntry(w, f, 0, "completeness", f.completeness, start);
    if !ok { return; }
    ok := WriteFactEntry(w, f, 1, "id", f.id, start);
    if !ok { return; }
    ok := WriteFactEntry(w, f, 2, "kind", f.kind, start);
    if !ok { return; }
    ok := WriteFactEntry(w, f, 3, "namespace", f.namespace, start);
  }

  /** The three entries after the payload. */
  method WriteFactTail(w: Writer, f: Fact, ghost start: JsString) returns (ok: bool)
    requires At(w, start, FactPrefix(5), FactValue(f)) && FactProper(f)
    modifies w, w.buffer
    ensures ok == (Accepted(f.provenance) && Accepted(f.schemaVersion) && Accepted(f.subject))
    ensures ok ==> At(w, start, FactPrefix(8), FactValue(f))
  {
    FactEntries(f);
    hide Accepted, Proper, At, EntryIs, FactValue, IsName, FactPrefix;
    ok := WriteFactEntry(w, f, 5, "provenance", f.provenance, start);
    if !ok { return; }
    ok := WriteFactEntry(w, f, 6, "schemaVersion", f.schemaVersion, start);
    if !ok { return; }
    ok := WriteFactEntry(w, f, 7, "subject", f.subject, start);
  }

  /** One fact object; `payloadBytes` is the ordinary length of what was written for the payload. */
  method WriteFact(w: Writer, f: Fact) returns (ok: bool, payloadBytes: nat)
    requires w.Faithful() && FactProper(f)
    modifies w, w.buffer
    ensures ok == FactAccepted(f)
    ensures ok ==> w.Faithful() && Accepted(FactValue(f)) && w.text == old(w.text) + CanonicalText(FactValue(f))
    ensures ok ==> payloadBytes == OrdinaryBytes(f.payload)
  {
    hide Encoded, Utf8, StringsSound, ShapesSound, CanonicalText, ObjectPrefix, Accepted, AllAccepted, Proper, OrdinaryBytes,
      FactValue, EntryIs, IsName;
    ghost var start := w.text;
    FactEntries(f);
    payloadBytes := 0;
    NothingWritten(f);
    ok := WriteFactHead(w, f, start);
    if !ok { return; }
    FactStep(4, "payload");
    ok, payloadBytes := WritePayload(w, f.payload, start, FactPrefix(4), FactValue(f));
    if !ok { return; }
    ok := WriteFactTail(w, f, start);
    if !ok { return; }
    FactAcceptedValue(f);
    FactDone(start, f, FactPrefix(8));
    w.Part(RBRACE);
  }

  lemma NothingWritten(f: Fact)
    ensures FactPrefix(0) == [] && AllAccepted(FactPrefix(0), FactValue(f))
  {
  }

  /** The payload entry, measured by the writer's own byte counter. */
  method WritePayload(w: Writer, v: Value, ghost start: JsString, ghost keys: seq<JsString>, ghost owner: Value)
    returns (ok: bool, payloadBytes: nat)
    requires At(w, start, keys, owner) && Proper(v) && EntryIs(owner, "payload", v) && keys != []
    modifies w, w.buffer
    ensures ok == Accepted(v)
    ensures ok ==> At(w, start, keys + [Ascii("payload")], owner) && payloadBytes == OrdinaryBytes(v)
  {
    hide Encoded, Utf8, StringsSound, ShapesSound, CanonicalText, ObjectPrefix, Accepted, Get, HasKey, AllAccepted, Proper, Label,
      OrdinaryBytes;
    WriteLabel(w, false, "payload");
    var before := w.bytes;
    ghost var prefix := w.text;
    ok := w.Value(v);
    payloadBytes := 0;
    if ok {
      EntryWritten(start, keys, "payload", owner);
      EncodedConcat(prefix, CanonicalText(v));
      CanonicalLengthIsOrdinary(v);
      payloadBytes := w.bytes - before;
    }
  }

  // ----- the shard

  const SHARD_NAMES: seq<string> := ["capabilities", "completion", "facts", "key", "namespace", "schemaVersion"]

  lemma ShardNamesAreNames()
    ensures forall i :: 0 <= i < |SHARD_NAMES| ==> IsName(SHARD_NAMES[i]) && |SHARD_NAMES[i]| <= 100
  {
  }

  /** The first keys of a shard, in canonical order; the first one only when it has capabilities. */
  function ShardPrefix(s: Shard, count: nat): seq<JsString>
    requires 1 <= count <= |SHARD_NAMES|
  {
    ShardNamesAreNames();
    Names(SHARD_NAMES)[if s.capabilities.Some? then 0 else 1..count]
  }

  lemma ShardStep(s: Shard, i: nat, name: string)
    requires 1 <= i < |SHARD_NAMES| && name == SHARD_NAMES[i]
    ensures IsName(name) && |name| <= 100
    ensures ShardPrefix(s, i + 1) == ShardPrefix(s, i) + [Ascii(name)]
    ensures ShardPrefix(s, i) == [] <==> i == 1 && s.capabilities.None?
  {
    ShardNamesAreNames();
  }

  /** The names in canonical order, and the same names in the object's own order. */
  lemma ShardNames(s: Shard)
    ensures var names, keys := ShardPrefix(s, 6), Keys(ShardValue(s).fields);
      && |names| == |keys| && (forall k :: k in names <==> k in keys)
      && (forall i :: 0 <= i < |names| - 1 ==> NamedBefore(names[i], names[i + 1]))
  {
    ShardNamesAreNames();
    var fields, all, names := ShardValue(s).fields, Names(SHARD_NAMES), ShardPrefix(s, 6);
    NamedInOrder();
    hide NamedBefore;
    if s.capabilities.Some? {
      assert Keys(fields) == [all[3], all[4], all[5], all[1], all[2], all[0]];
      assert names == [all[0], all[1], all[2], all[3], all[4], all[5]];
    } else {
      assert Keys(fields) == [all[3], all[4], all[5], all[1], all[2]];
      assert names == [all[1], all[2], all[3], all[4], all[5]];
    }
  }

  lemma NamedInOrder()
    ensures (ShardNamesAreNames(); var all := Names(SHARD_NAMES);
      forall i :: 0 <= i < 5 ==> NamedBefore(all[i], all[i + 1]))
  {
    ShardNamesAreNames();
  }

  lemma ShardKeys(s: Shard)
    ensures Sorting.Distinct(Keys(ShardValue(s).fields))
    ensures ShardAccepted(s) ==> CanonicalKeys(ShardValue(s).fields) == ShardPrefix(s, 6)
  {
    ShardNames(s);
    EnvelopeDistinct(ShardValue(s).fields, ShardPrefix(s, 6));
    if ShardAccepted(s) {
      FactsAccepted(s.facts);
      hide ShardPrefix, FactValue, Keys, NamedBefore, CanonicalKeys;
      EnvelopeKeys(ShardValue(s).fields, ShardPrefix(s, 6));
    }
  }

  lemma FactsAccepted(facts: seq<Fact>)
    requires forall i :: 0 <= i < |facts| ==> FactAccepted(facts[i])
    ensures Accepted(Array(true, FactValues(facts)))
  {
    hide FactAccepted, FactValue;
    forall i | 0 <= i < |facts| ensures Accepted(FactValue(facts[i])) { FactAcceptedValue(facts[i]); }
  }

  lemma ShardEntries(s: Shard)
    ensures EntryIs(ShardValue(s), "key", s.key) && EntryIs(ShardValue(s), "namespace", s.namespace)
    ensures EntryIs(ShardValue(s), "schemaVersion", s.schemaVersion) && EntryIs(ShardValue(s), "completion", s.completion)
    ensures EntryIs(ShardValue(s), "facts", Array(true, FactValues(s.facts)))
    ensures s.capabilities.Some? ==> EntryIs(ShardValue(s), "capabilities", s.capabilities.value)
  {
    ShardKeys(s);
    ShardNamesAreNames();
    hide Get, HasKey, CanonicalKeys, NamedBefore, ShardPrefix;
    var fields := ShardValue(s).fields;
    forall i | 0 <= i < |fields| ensures HasKey(fields, fields[i].key) && Get(fields, fields[i].key) == fields[i].value {
      GetIs(fields, i);
    }
    assert IsName(SHARD_NAMES[0]) && IsName(SHARD_NAMES[1]) && IsName(SHARD_NAMES[2]);
    assert IsName(SHARD_NAMES[3]) && IsName(SHARD_NAMES[4]) && IsName(SHARD_NAMES[5]);
    assert fields[0].key == Ascii("key") && fields[1].key == Ascii("namespace") && fields[2].key == Ascii("schemaVersion");
    assert fields[3].key == Ascii("completion") && fields[4].key == Ascii("facts");
    assert s.capabilities.Some? ==> fields[5].key == Ascii("capabilities");
  }

  lemma FactsEntry(s: Shard)
    ensures EntryIs(ShardValue(s), "facts", Array(true, FactValues(s.facts)))
  {
    ShardEntries(s);
  }

  lemma ShardAcceptedValue(s: Shard)
    ensures ShardProper(s) ==> Proper(ShardValue(s))
    ensures ShardAccepted(s) ==> Accepted(ShardValue(s))
  {
    ShardKeys(s);
    hide Proper, Accepted, FactValues, Keys, ShardPrefix, CanonicalKeys;
    var v := ShardValue(s);
    if ShardProper(s) {
      FactsProper(s.facts);
      assert forall i :: 0 <= i < |v.fields| ==> Proper(v.fields[i].value);
      ObjectProper(v);
    }
    if ShardAccepted(s) {
      FactsAccepted(s.facts);
      assert forall i :: 0 <= i < |v.fields| ==> Accepted(v.fields[i].value);
      ObjectAccepted(v);
    }
  }

  lemma FactsProper(facts: seq<Fact>)
    requires forall i :: 0 <= i < |facts| ==> FactProper(facts[i])
    ensures Proper(Array(true, FactValues(facts)))
  {
    hide FactProper, FactValue;
    forall i | 0 <= i < |facts| ensures Proper(FactValue(facts[i])) { FactAcceptedValue(facts[i]); }
  }

  lemma ShardDone(s: Shard)
    requires ShardProper(s) && ShardAccepted(s) && AllAccepted(ShardPrefix(s, 6), ShardValue(s))
    ensures Accepted(ShardValue(s)) && ShardPrefix(s, 6) != []
    ensures ObjectPrefix([], ShardPrefix(s, 6), ShardValue(s)) + RBRACE == CanonicalText(ShardValue(s))
    ensures StableText(ShardValue(s)) == Some(Separators(CanonicalText(ShardValue(s))))
  {
    ShardKeys(s);
    ShardAcceptedValue(s);
    AcceptedCanonical(ShardValue(s));
    ObjectPrefixEnd([], ShardValue(s));
    assert [] + CanonicalText(ShardValue(s)) == CanonicalText(ShardValue(s));
  }

  lemma PayloadBytesNext(facts: seq<Fact>, i: nat)
    requires i < |facts| && forall k :: 0 <= k <= i ==> FactAccepted(facts[k])
    ensures PayloadBytes(facts[..i + 1]) == PayloadBytes(facts[..i]) + OrdinaryBytes(facts[i].payload)
  {
    assert facts[..i + 1][..i] == facts[..i];
  }

  /** One fact of the array, behind its comma. */
  method WriteFactItem(w: Writer, facts: seq<Fact>, i: nat, ghost start: JsString) returns (ok: bool, payloadBytes: nat)
    requires i < |facts| && FactProper(facts[i])
    requires w.Faithful() && w.text == ArrayPrefix(start, FactValues(facts), i)
    modifies w, w.buffer
    ensures ok == FactAccepted(facts[i])
    ensures ok ==> w.Faithful() && w.text == ArrayPrefix(start, FactValues(facts), i + 1)
    ensures ok ==> payloadBytes == OrdinaryBytes(facts[i].payload)
  {
    hide Encoded, Utf8, StringsSound, ShapesSound, CanonicalText, ArrayPrefix, Accepted, OrdinaryBytes, FactValue, FactProper,
      FactAccepted;
    ghost var before := w.text;
    if i > 0 { w.Part(COMMA); }
    ghost var separated := w.text;
    ok, payloadBytes := WriteFact(w, facts[i]);
    if ok {
      ArrayPrefixStep(start, FactValues(facts), i);
    }
  }

  /** The facts array, and the sum of the payload lengths measured while writing it. */
  method WriteFacts(w: Writer, facts: seq<Fact>) returns (ok: bool, total: nat)
    requires w.Faithful() && forall i :: 0 <= i < |facts| ==> FactProper(facts[i])
    modifies w, w.buffer
    ensures ok == forall i :: 0 <= i < |facts| ==> FactAccepted(facts[i])
    ensures ok ==> w.Faithful() && total == PayloadBytes(facts)
    ensures ok ==> Accepted(Array(true, FactValues(facts))) && w.text == old(w.text) + CanonicalText(Array(true, FactValues(facts)))
  {
    hide Encoded, Utf8, StringsSound, ShapesSound, CanonicalText, ArrayPrefix, Accepted, OrdinaryBytes, FactValue, FactProper,
      FactAccepted, PayloadBytes, FactValues;
    ghost var start := w.text;
    w.Part(LBRACKET);
    ArrayPrefixStart(start, FactValues(facts));
    total := 0;
    NoPayloads(facts[..0]);
    var index := 0;
    while index < |facts|
      invariant w.Faithful() && index <= |facts|
      invariant forall i :: 0 <= i < index ==> FactAccepted(facts[i])
      invariant w.text == ArrayPrefix(start, FactValues(facts), index)
      invariant total == PayloadBytes(facts[..index])
    {
      var payloadBytes;
      ok, payloadBytes := WriteFactItem(w, facts, index, start);
      if !ok { return; }
      PayloadBytesNext(facts, index);
      total := total + payloadBytes;
      index := index + 1;
    }
    assert facts[..index] == facts;
    FactsAccepted(facts);
    ArrayPrefixEnd(start, Array(true, FactValues(facts)));
    w.Part(RBRACKET);
    ok := true;
  }

  lemma NoPayloads(facts: seq<Fact>)
    requires facts == []
    ensures PayloadBytes(facts) == 0
  {
  }

  /** The next scalar entry of a shard. */
  method WriteShardEntry(w: Writer, s: Shard, i: nat, name: string, v: Value) returns (ok: bool)
    requires 1 <= i < |SHARD_NAMES| && name == SHARD_NAMES[i] && EntryIs(ShardValue(s), name, v) && Proper(v)
    requires At(w, [], ShardPrefix(s, i), ShardValue(s))
    modifies w, w.buffer
    ensures ok == Accepted(v)
    ensures ok ==> At(w, [], ShardPrefix(s, i + 1), ShardValue(s))
  {
    ShardStep(s, i, name);
    hide Accepted, Proper, At, EntryIs, ShardValue, IsName, ShardPrefix;
    ok := WriteEntry(w, name, v, [], ShardPrefix(s, i), ShardValue(s), i == 1 && s.capabilities.None?);
  }

  /** The optional capabilities, before everything else. */
  method WriteCapabilities(w: Writer, s: Shard) returns (ok: bool)
    requires w.Faithful() && w.text == [] && ShardProper(s)
    modifies w, w.buffer
    ensures ok == (s.capabilities.Some? ==> Accepted(s.capabilities.value))
    ensures ok ==> At(w, [], ShardPrefix(s, 1), ShardValue(s))
  {
    ShardEntries(s);
    ShardNamesAreNames();
    ok := true;
    if s.capabilities.Some? {
      assert SHARD_NAMES[0] == "capabilities";
      assert ShardPrefix(s, 1) == [] + [Ascii("capabilities")];
      hide Accepted, Proper, EntryIs, IsName, ShardPrefix, Get, HasKey, Encoded, Utf8, StringsSound, ShapesSound;
      ok := WriteEntry(w, "capabilities", s.capabilities.value, [], [], ShardValue(s), true);
    }
  }

  /** The entry holding the facts array. */
  method WriteFactsEntry(w: Writer, facts: seq<Fact>, ghost keys: seq<JsString>, ghost owner: Value) returns (ok: bool, total: nat)
    requires At(w, [], keys, owner) && keys != [] && EntryIs(owner, "facts", Array(true, FactValues(facts)))
    requires forall i :: 0 <= i < |facts| ==> FactProper(facts[i])
    modifies w, w.buffer
    ensures ok == forall i :: 0 <= i < |facts| ==> FactAccepted(facts[i])
    ensures ok ==> At(w, [], keys + [Ascii("facts")], owner) && total == PayloadBytes(facts)
  {
    hide Encoded, Utf8, StringsSound, ShapesSound, CanonicalText, ObjectPrefix, Accepted, Get, HasKey, AllAccepted, Label,
      FactProper, FactAccepted, PayloadBytes, FactValues, FactValue;
    WriteLabel(w, false, "facts");
    ok, total := WriteFacts(w, facts);
    if ok { EntryWritten([], keys, "facts", owner); }
  }

  method WriteShardFacts(w: Writer, s: Shard) returns (ok: bool, total: nat)
    requires At(w, [], ShardPrefix(s, 2), ShardValue(s)) && ShardProper(s)
    modifies w, w.buffer
    ensures ok == forall i :: 0 <= i < |s.facts| ==> FactAccepted(s.facts[i])
    ensures ok ==> At(w, [], ShardPrefix(s, 3), ShardValue(s)) && total == PayloadBytes(s.facts)
  {
    hide At, EntryIs, ShardValue, ShardPrefix, FactProper, FactAccepted, PayloadBytes, FactValues, FactValue, IsName;
    FactsEntry(s);
    ShardStep(s, 2, "facts");
    ok, total := WriteFactsEntry(w, s.facts, ShardPrefix(s, 2), ShardValue(s));
  }

  method WriteShardTail(w: Writer, s: Shard) returns (ok: bool)
    requires At(w, [], ShardPrefix(s, 3), ShardValue(s)) && ShardProper(s)
    modifies w, w.buffer
    ensures ok == (Accepted(s.key) && Accepted(s.namespace) && Accepted(s.schemaVersion))
    ensures ok ==> At(w, [], ShardPrefix(s, 6), ShardValue(s))
  {
    ShardEntries(s);
    hide Accepted, Proper, At, EntryIs, ShardValue, IsName, ShardPrefix;
    ok := WriteShardEntry(w, s, 3, "key", s.key);
    if !ok { return; }
    ok := WriteShardEntry(w, s, 4, "namespace", s.namespace);
    if !ok { return; }
    ok := WriteShardEntry(w, s, 5, "schemaVersion", s.schemaVersion);
  }

  /**
   The streamed identity: it answers exactly on JSON data, the message hashed is the UTF-8 of the
   shard's `StableText`, and the counted bytes are the payloads' ordinary JSON lengths.
   */
  method WriteFactShardIdentity(s: Shard) returns (r: Option<Identity>)
    requires ShardProper(s)
    ensures r.Some? <==> ShardAccepted(s)
    ensures r.Some? ==> StableText(ShardValue(s)).Some? && r.value.message == Utf8(StableText(ShardValue(s)).value)
    ensures r.Some? ==> ReadMessage(r.value.message) == Canonical(ShardValue(s))
    ensures r.Some? ==> r.value.semanticPayloadBytes == PayloadBytes(s.facts)
  {
    hide ReadMessage, Canonical, Utf8, StringsSound, ShapesSound, CanonicalText, ObjectPrefix, Accepted, AllAccepted, Proper, EntryIs,
      ShardValue, ShardPrefix, StableText, FactAccepted, PayloadBytes, IsName;
    r := None;
    var w := new Writer();
    var ok := WriteCapabilities(w, s);
    if !ok { return; }
    ShardEntries(s);
    ok := WriteShardEntry(w, s, 1, "completion", s.completion);
    if !ok { return; }
    var total;
    ok, total := WriteShardFacts(w, s);
    if !ok { return; }
    ok := WriteShardTail(w, s);
    if !ok { return; }
    ShardDone(s);
    w.Part(RBRACE);
    var message := w.Finish();
    MessageReads(ShardValue(s));
    r := Some(Identity(message, total));
  }
}
