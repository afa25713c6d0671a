/**
 The generation identity: references are canonicalized once each and cached, the preimage is hashed
 in chunks, and the message is still the `StableText` of the whole identity object.

 A cached text is the text of the reference it is stored for, since references are frozen. Chunks are flushed when
 enough characters are pending, and where they are cut does not change the message.
 */
module GenerationIdentity {
  import opened Options
  import opened Utf16
  import opened StableJson
  import opened StableJsonInjective
  import opened Envelope

  /** A shard reference object: its identity in memory, and its value when it is passed. */
  datatype Reference = Reference(identity: nat, value: Value)

  datatype Input = Input(universe: Value, producer: Value, sourceManifest: Value,
                         capabilities: seq<Value>, manifest: seq<Reference>)

  const CHUNK: nat := 32_768

  function Values(manifest: seq<Reference>): (r: seq<Value>)
    ensures |r| == |manifest| && forall i :: 0 <= i < |r| ==> r[i] == manifest[i].value
  {
    seq(|manifest|, i requires 0 <= i < |manifest| => manifest[i].value)
  }

  function InputValue(i: Input): Value {
    Object(true, [
      Field(Ascii("universe"), i.universe),
      Field(Ascii("producer"), i.producer),
      Field(Ascii("sourceManifest"), i.sourceManifest),
      Field(Ascii("capabilities"), Array(true, i.capabilities)),
      Field(Ascii("manifest"), Array(true, Values(i.manifest)))])
  }

  // ----- the guards of the fast path

  predicate IsScalar(v: Value) { !v.Array? && !v.Object? && !v.Date? && !v.Callable? }

  predicate FlatRecord(v: Value) {
    v.Object? && v.plain && forall i :: 0 <= i < |v.fields| ==> IsScalar(v.fields[i].value)
  }

  predicate ImmutableScalarArray(v: Value) {
    v.Array? && v.native && forall i :: 0 <= i < |v.items| ==> IsScalar(v.items[i]) && !v.items[i].BigInt?
  }

  predicate ImmutableField(f: Field) {
    if f.key == Ascii("key") || f.key == Ascii("digest") || f.key == Ascii("namespace") then f.value.Str?
    else if f.key == Ascii("schemaVersion") || f.key == Ascii("facts") then f.value.Number? || f.value.NonFinite?
    else f.key == Ascii("capabilities") && (f.value.Undefined? || ImmutableScalarArray(f.value))
  }

  predicate ImmutableReference(v: Value) {
    v.Object? && v.plain && forall i :: 0 <= i < |v.fields| ==> ImmutableField(v.fields[i])
  }

  /** What may be cached: a flat reference, with text, numbers and an array of scalars where a reference has them. */
  lemma ImmutableIff(v: Value)
    ensures ImmutableReference(v) <==>
      && v.Object? && v.plain
      && forall f :: f in v.fields ==>
           || (f.value.Str? && f.key in {Ascii("key"), Ascii("digest"), Ascii("namespace")})
           || ((f.value.Number? || f.value.NonFinite?) && f.key in {Ascii("schemaVersion"), Ascii("facts")})
           || (f.key == Ascii("capabilities") && (f.value.Undefined? || IsScalarArray(f.value)))
  {
    hide ImmutableScalarArray;
    ReferenceKeysDiffer();
    if v.Array? { ScalarArrayIff(v); }
    forall f: Field ensures ImmutableScalarArray(f.value) <==> IsScalarArray(f.value) { ScalarArrayIff(f.value); }
    if v.Object? { assert forall i :: 0 <= i < |v.fields| ==> v.fields[i] in v.fields; }
  }

  lemma ReferenceKeysDiffer()
    ensures |Ascii("key")| == 3 && |Ascii("digest")| == 6 && |Ascii("namespace")| == 9
    ensures |Ascii("schemaVersion")| == 13 && |Ascii("facts")| == 5 && |Ascii("capabilities")| == 12
  {
  }

  ghost predicate IsScalarArray(v: Value) {
    v.Array? && v.native && forall x :: x in v.items ==> !(x.Array? || x.Object? || x.Date? || x.Callable? || x.BigInt?)
  }

  lemma ScalarArrayIff(v: Value)
    ensures ImmutableScalarArray(v) <==> IsScalarArray(v)
  {
    if v.Array? { assert forall i :: 0 <= i < |v.items| ==> v.items[i] in v.items; }
  }

  /** The fast path is taken exactly for texts, a flat producer and capabilities that are all text. */
  lemma FastIff(i: Input)
    ensures FastInput(i) <==>
      && i.universe.Str? && i.sourceManifest.Str? && (forall c :: c in i.capabilities ==> c.Str?)
      && i.producer.Object? && i.producer.plain
      && forall f :: f in i.producer.fields ==> !(f.value.Array? || f.value.Object? || f.value.Date? || f.value.Callable?)
  {
    assert forall k :: 0 <= k < |i.capabilities| ==> i.capabilities[k] in i.capabilities;
    if i.producer.Object? { assert forall k :: 0 <= k < |i.producer.fields| ==> i.producer.fields[k] in i.producer.fields; }
  }

  predicate FastInput(i: Input) {
    && i.universe.Str? && i.sourceManifest.Str? && FlatRecord(i.producer)
    && forall k :: 0 <= k < |i.capabilities| ==> i.capabilities[k].Str?
  }

  /** `stableJson` of a value that has JSON text. */
  function Text(v: Value): (r: JsString)
    requires Canonical(v).Some?
    ensures r != [] && !IsLow(r[0])
  {
    SeparatorsLast(Render(Canonical(v).value));
    Separators(Render(Canonical(v).value))
  }

  lemma TextIsStable(v: Value)
    requires Canonical(v).Some?
    ensures StableText(v) == Some(Text(v))
  {
  }

  // ----- the whole text, piece by piece

  /** The comma-separated reference texts. */
  function ReferenceTexts(manifest: seq<Reference>): JsString {
    Separators(RenderItems(CanonicalItems(Values(manifest))))
  }

  lemma {:induction false} CanonicalItemsNext(items: seq<Value>, v: Value)
    requires Canonical(v).Some?
    ensures CanonicalItems(items + [v]) == CanonicalItems(items) + [Canonical(v).value]
  {
    hide Canonical;
    if items == [] {
      assert items + [v] == [v];
    } else {
      assert (items + [v])[1..] == items[1..] + [v];
      CanonicalItemsNext(items[1..], v);
    }
  }

  lemma SeparatedItemsNext(items: seq<Json>, j: Json)
    ensures Separators(RenderItems(items + [j]))
         == Separators(RenderItems(items)) + ((if items == [] then [] else COMMA) + Separators(Render(j)))
  {
    hide Render, RenderItems, Separators;
    RenderItemsSnoc(items, j);
    NoItems();
    SeparatorsPlain([]);
    if items == [] {
      assert [] + Render(j) == Render(j);
    } else {
      SeparatorsConcat(RenderItems(items) + COMMA, Render(j));
      SeparatorsConcat(RenderItems(items), COMMA);
      SeparatorsPlain(COMMA);
    }
  }

  lemma ReferenceTextsNext(manifest: seq<Reference>, i: nat)
    requires i < |manifest| && Canonical(manifest[i].value).Some?
    ensures ReferenceTexts(manifest[..i + 1])
         == ReferenceTexts(manifest[..i]) + ((if i > 0 then COMMA else []) + Text(manifest[i].value))
  {
    hide Canonical, Render, RenderItems, CanonicalItems, Separators;
    var before, v := Values(manifest[..i]), manifest[i].value;
    assert Values(manifest[..i + 1]) == before + [v];
    CanonicalItemsNext(before, v);
    SeparatedItemsNext(CanonicalItems(before), Canonical(v).value);
  }

  lemma NoItems()
    ensures CanonicalItems([]) == [] && RenderItems([]) == []
  {
  }

  const GENERATION_NAMES: seq<string> := ["capabilities", "manifest", "producer", "sourceManifest", "universe"]

  lemma GenerationNamesAreNames()
    ensures forall k :: 0 <= k < |GENERATION_NAMES| ==> IsName(GENERATION_NAMES[k])
  {
  }

  function Order(): seq<JsString> {
    GenerationNamesAreNames();
    Names(GENERATION_NAMES)
  }

  /** The parts in canonical key order. */
  function Part(i: Input, k: nat): Value
    requires k < 5
  {
    if k == 0 then Array(true, i.capabilities)
    else if k == 1 then Array(true, Values(i.manifest))
    else if k == 2 then i.producer
    else if k == 3 then i.sourceManifest
    else i.universe
  }

  lemma InOrder()
    ensures |Order()| == 5 && forall k :: 0 <= k < 4 ==> NamedBefore(Order()[k], Order()[k + 1])
  {
    GenerationNamesAreNames();
  }

  lemma InputKeys(i: Input)
    requires FastInput(i)
    ensures CanonicalKeys(InputValue(i).fields) == Order()
    ensures forall k :: 0 <= k < 5 ==>
      HasKey(InputValue(i).fields, Order()[k]) && Get(InputValue(i).fields, Order()[k]) == Part(i, k)
  {
    hide NamedBefore, Get, HasKey, CanonicalKeys, Canonical;
    InOrder();
    var fields, names := InputValue(i).fields, Order();
    InputNames(i);
    EnvelopeDistinct(fields, names);
    EnvelopeKeys(fields, names);
    GetIs(fields, 0);
    GetIs(fields, 1);
    GetIs(fields, 2);
    GetIs(fields, 3);
    GetIs(fields, 4);
  }

  lemma InputNames(i: Input)
    ensures var fields, names := InputValue(i).fields, Order();
      && |names| == |fields| == 5 && (forall k :: k in names <==> k in Keys(fields))
      && fields[0].key == names[4] && fields[1].key == names[2] && fields[2].key == names[3]
      && fields[3].key == names[0] && fields[4].key == names[1]
  {
    GenerationNamesAreNames();
    var fields, names := InputValue(i).fields, Order();
    assert Keys(fields) == [names[4], names[2], names[3], names[0], names[1]];
    assert names == [names[0], names[1], names[2], names[3], names[4]];
  }

  lemma PartsHaveText(i: Input)
    requires FastInput(i)
    ensures forall k :: 0 <= k < 5 ==> Canonical(Part(i, k)).Some?
  {
  }

  function Members(i: Input, count: nat): seq<Member>
    requires count <= 5 && FastInput(i)
  {
    PartsHaveText(i);
    InOrder();
    seq(count, k requires 0 <= k < count => assert Canonical(Part(i, k)).Some?; Member(Order()[k], Canonical(Part(i, k)).value))
  }

  lemma {:induction false} CanonicalMembersAre(keys: seq<JsString>, owner: Value, members: seq<Member>)
    requires AllPresent(keys, owner) && |members| == |keys|
    requires forall k :: 0 <= k < |keys| ==> Canonical(Get(owner.fields, keys[k])) == Some(members[k].value) && members[k].key == keys[k]
    ensures CanonicalMembers(keys, owner) == members
  {
    hide Canonical, Get, HasKey;
    if keys == [] {
    } else {
      assert forall k :: 0 <= k < |keys[1..]| ==> keys[1..][k] == keys[k + 1] && members[1..][k] == members[k + 1];
      CanonicalMembersAre(keys[1..], owner, members[1..]);
    }
  }

  lemma InputMembers(i: Input)
    requires FastInput(i)
    ensures Canonical(InputValue(i)) == Some(JObject(Members(i, 5)))
  {
    hide Get, HasKey, CanonicalKeys, Part, NamedBefore, Order, InputValue, CanonicalMembers;
    InputKeys(i);
    InOrder();
    PartsHaveText(i);
    var v := InputValue(i);
    InputIsObject(i);
    assert AllPresent(Order(), v);
    CanonicalMembersAre(Order(), v, Members(i, 5));
  }

  lemma InputIsObject(i: Input)
    ensures InputValue(i).Object?
  {
  }

  /** The text before the part `count`. */
  function Prefix(i: Input, count: nat): JsString
    requires count <= 5 && FastInput(i)
  {
    Separators(LBRACE + RenderMembers(Members(i, count)))
  }

  lemma PrefixStep(i: Input, k: nat)
    requires k < 5 && FastInput(i)
    ensures IsName(GENERATION_NAMES[k]) && Canonical(Part(i, k)).Some?
    ensures Prefix(i, k + 1) == (if k == 0 then [] else Prefix(i, k)) + Label(k == 0, GENERATION_NAMES[k]) + Text(Part(i, k))
  {
    hide Canonical, Render, Quote, RenderMembers, Part, IsName, Label, Members;
    GenerationNamesAreNames();
    MembersNext(i, k);
    var name, j := GENERATION_NAMES[k], Canonical(Part(i, k)).value;
    LabelIsFraming(k == 0, name);
    hide Separators;
    SeparatedMembersNext(Members(i, k), Ascii(name), j, Label(k == 0, name));
  }

  lemma SeparatedMembersNext(members: seq<Member>, key: JsString, j: Json, framing: JsString)
    requires framing == (if members == [] then LBRACE else COMMA) + Quote(key) + COLON
    requires forall i :: 0 <= i < |framing| ==> framing[i] < 0x80
    ensures Separators(LBRACE + RenderMembers(members + [Member(key, j)]))
         == (if members == [] then [] else Separators(LBRACE + RenderMembers(members))) + framing + Separators(Render(j))
  {
    hide Render, RenderMembers, Separators, Quote;
    RenderMembersSnoc(members, key, j);
    var before := LBRACE + RenderMembers(members);
    if members == [] {
      NoMembers();
      assert LBRACE + RenderMembers(members + [Member(key, j)]) == framing + Render(j);
    } else {
      assert LBRACE + RenderMembers(members + [Member(key, j)]) == before + (framing + Render(j));
      SeparatorsConcat(before, framing + Render(j));
    }
    SeparatorsConcat(framing, Render(j));
    SeparatorsPlain(framing);
  }

  lemma MembersNext(i: Input, k: nat)
    requires k < 5 && FastInput(i)
    ensures IsName(GENERATION_NAMES[k]) && Canonical(Part(i, k)).Some?
    ensures Members(i, k + 1) == Members(i, k) + [Member(Ascii(GENERATION_NAMES[k]), Canonical(Part(i, k)).value)]
    ensures Members(i, k) == [] <==> k == 0
  {
    hide Canonical, Part;
    GenerationNamesAreNames();
    PartsHaveText(i);
  }

  lemma NoMembers()
    ensures RenderMembers([]) == []
  {
  }

  lemma PrefixEnd(i: Input)
    requires FastInput(i)
    ensures Canonical(InputValue(i)).Some? && Text(InputValue(i)) == Prefix(i, 5) + RBRACE
  {
    InputMembers(i);
    hide Canonical, RenderMembers;
    SeparatorsConcat(LBRACE + RenderMembers(Members(i, 5)), RBRACE);
    SeparatorsPlain(RBRACE);
  }

  /** The array of references between its brackets. */
  lemma ManifestText(i: Input)
    requires FastInput(i)
    ensures Canonical(Part(i, 1)).Some? && Text(Part(i, 1)) == LBRACKET + ReferenceTexts(i.manifest) + RBRACKET
  {
    hide RenderItems, CanonicalItems;
    var inner := RenderItems(CanonicalItems(Values(i.manifest)));
    SeparatorsConcat(LBRACKET + inner, RBRACKET);
    SeparatorsConcat(LBRACKET, inner);
    SeparatorsPlain(LBRACKET);
    SeparatorsPlain(RBRACKET);
  }

  // ----- chunked hashing

  function Join(pending: seq<JsString>): JsString {
    if pending == [] then [] else Join(pending[..|pending| - 1]) + pending[|pending| - 1]
  }

  /** What was hashed and what is pending spell `text`. */
  ghost predicate Spells(message: seq<Byte>, pending: seq<JsString>, text: JsString) {
    message + Utf8(Join(pending)) == Utf8(text)
  }

  lemma Push(message: seq<Byte>, pending: seq<JsString>, text: JsString, piece: JsString)
    requires Spells(message, pending, text) && (piece == [] || !IsLow(piece[0]))
    ensures Spells(message, pending + [piece], text + piece)
  {
    hide Utf8;
    assert (pending + [piece])[..|pending|] == pending;
    Utf8Concat(Join(pending), piece);
    Utf8Concat(text, piece);
  }

  lemma Utf8Nothing()
    ensures Utf8([]) == [] && Join([]) == []
  {
  }

  /** Hashing a piece at once is pushing and flushing it. */
  lemma Updated(message: seq<Byte>, text: JsString, piece: JsString)
    requires message == Utf8(text) && (piece == [] || !IsLow(piece[0]))
    ensures message + Utf8(piece) == Utf8(text + piece)
  {
    Utf8Concat(text, piece);
  }

  /**
   An object is passed with one value, and an object in the cache still has the value it was cached with: only
   immutable references are cached, and those are frozen.
   */
  ghost predicate Steady(values: map<nat, Value>, manifest: seq<Reference>) {
    && (forall i :: 0 <= i < |manifest| && manifest[i].identity in values ==> values[manifest[i].identity] == manifest[i].value)
    && (forall i, j :: 0 <= i < j < |manifest| && manifest[i].identity == manifest[j].identity ==> manifest[i].value == manifest[j].value)
  }

  predicate AllImmutable(manifest: seq<Reference>) {
    forall i :: 0 <= i < |manifest| ==> ImmutableReference(manifest[i].value)
  }

  class GenerationHasher {
    /** Canonical texts of the references seen before, by object. */
    var references: map<nat, JsString>
    /** What those objects contain. */
    ghost var values: map<nat, Value>

    ghost predicate Valid()
      reads this
    {
      references.Keys == values.Keys && forall o :: o in references ==> ImmutableReference(values[o]) && CachedText(values[o], references[o])
    }

    constructor ()
      ensures Valid() && references == map[]
    {
      references, values := map[], map[];
    }

    /** The canonical text of a reference, cached or not; None exactly when it is not immutable. */
    method Encode(reference: Reference) returns (encoded: Option<JsString>)
      requires Valid() && Steady(values, [reference])
      modifies this
      ensures Valid()
      ensures values == if encoded.Some? then old(values)[reference.identity := reference.value] else old(values)
      ensures encoded.Some? <==> ImmutableReference(reference.value)
      ensures encoded.Some? ==> CachedText(reference.value, encoded.value)
    {
      hide ImmutableReference, Text, Canonical;
      assert [reference][0] == reference;
      if reference.identity in references {
        assert values[reference.identity] == reference.value;
        assert values == values[reference.identity := reference.value];
        return Some(references[reference.identity]);
      }
      if !ImmutableReference(reference.value) {
        return None;
      }
      ImmutableHasText(reference.value);
      references := references[reference.identity := Text(reference.value)];
      values := values[reference.identity := reference.value];
      encoded := Some(Text(reference.value));
    }

    /** The manifest between its brackets, hashed in chunks; None exactly when a reference is not immutable. */
    method HashManifest(manifest: seq<Reference>, start: seq<Byte>, ghost text: JsString) returns (message: Option<seq<Byte>>)
      requires Valid() && start == Utf8(text) && Steady(values, manifest)
      modifies this
      ensures Valid()
      ensures message.Some? <==> AllImmutable(manifest)
      ensures message.Some? ==> message.value == Utf8(text + ReferenceTexts(manifest))
    {
      hide Utf8, ReferenceTexts, Text, ImmutableReference, Canonical, Steady;
      var hashed := start;
      var pending: seq<JsString> := [];
      var characters := 0;
      Utf8Nothing();
      ghost var written := text;
      NoReferences(manifest[..0]);
      var index := 0;
      while index < |manifest|
        invariant Valid() && Steady(values, manifest) && index <= |manifest|
        invariant forall k :: 0 <= k < index ==> ImmutableReference(manifest[k].value)
        invariant Spells(hashed, pending, written)
        invariant written == text + ReferenceTexts(manifest[..index])
      {
        SteadyAt(values, manifest, index);
        var encoded := Encode(manifest[index]);
        if encoded.None? { return None; }
        NextPiece(text, manifest, index);
        written := text + ReferenceTexts(manifest[..index + 1]);
        if index > 0 {
          Push(hashed, pending, text + ReferenceTexts(manifest[..index]), COMMA);
          pending := pending + [COMMA];
        }
        Push(hashed, pending, text + ReferenceTexts(manifest[..index]) + (if index > 0 then COMMA else []), encoded.value);
        pending := pending + [encoded.value];
        characters := characters + |encoded.value| + 1;
        if characters >= CHUNK {
          hashed := hashed + Utf8(Join(pending));
          pending := [];
          characters := 0;
        }
        index := index + 1;
      }
      assert manifest[..index] == manifest;
      if |pending| > 0 { hashed := hashed + Utf8(Join(pending)); }
      message := Some(hashed);
    }

    /** The message of the generation identity, by either path. */
    method HashGenerationIdentity(i: Input) returns (message: seq<Byte>)
      requires Valid() && Steady(values, i.manifest)
      modifies this
      ensures Valid() && StableText(InputValue(i)).Some? && message == Utf8(StableText(InputValue(i)).value)
      ensures ReadMessage(message) == Canonical(InputValue(i))
    {
      InputHasText(i);
      MessageReads(InputValue(i));
      hide ReadMessage, InputValue;
      if !FastInput(i) {
        return Utf8(StableText(InputValue(i)).value);
      }
      hide Utf8, Text, Prefix, Part, ReferenceTexts, Canonical, Label, IsName, StableText;
      ghost var text := HeadText(i);
      var head := HashHead(i);
      var manifest := HashManifest(i.manifest, head, text);
      if manifest.None? {
        return Utf8(StableText(InputValue(i)).value);
      }
      message := HashTail(manifest.value, i);
    }
  }

  lemma InputHasText(i: Input)
    ensures Canonical(InputValue(i)).Some? && StableText(InputValue(i)) == Some(Text(InputValue(i)))
  {
    TextIsStable(InputValue(i));
  }

  lemma ImmutableHasText(v: Value)
    requires ImmutableReference(v)
    ensures Canonical(v).Some?
  {
  }

  /** A reference of a steady manifest is steady by itself and may be cached. */
  lemma SteadyAt(values: map<nat, Value>, manifest: seq<Reference>, index: nat)
    requires Steady(values, manifest) && index < |manifest|
    ensures Steady(values, [manifest[index]]) && Steady(values[manifest[index].identity := manifest[index].value], manifest)
  {
  }

  ghost predicate CachedText(v: Value, text: JsString) { Canonical(v).Some? && text == Text(v) }

  /** The text up to the manifest's opening bracket. */
  ghost function HeadText(i: Input): JsString
    requires FastInput(i)
  {
    GenerationNamesAreNames();
    Prefix(i, 1) + (Label(false, GENERATION_NAMES[1]) + LBRACKET)
  }

  /** The first updates of the hash, up to the opening bracket. */
  method HashHead(i: Input) returns (message: seq<Byte>)
    requires FastInput(i)
    ensures message == Utf8(HeadText(i))
  {
    hide Utf8, Text, Part, Canonical, Label, IsName, Prefix;
    PrefixStep(i, 0);
    GenerationNamesAreNames();
    LabelIsFraming(true, GENERATION_NAMES[0]);
    LabelIsFraming(false, GENERATION_NAMES[1]);
    var framing, caps, open := Label(true, GENERATION_NAMES[0]), Text(Part(i, 0)), Label(false, GENERATION_NAMES[1]) + LBRACKET;
    message := Utf8(framing);
    Updated(message, framing, caps);
    assert [] + framing + caps == framing + caps;
    message := message + Utf8(caps);
    Updated(message, framing + caps, open);
    message := message + Utf8(open);
  }

  /** The closing bracket and the entries after the manifest. */
  method HashTail(start: seq<Byte>, i: Input) returns (message: seq<Byte>)
    requires FastInput(i) && start == Utf8(HeadText(i) + ReferenceTexts(i.manifest))
    ensures Canonical(InputValue(i)).Some? && message == Utf8(Text(InputValue(i)))
  {
    message := start + Utf8(RBRACKET);
    ClosedManifest(i);
    Updated(start, HeadText(i) + ReferenceTexts(i.manifest), RBRACKET);
    var k := 2;
    while k < 5
      invariant 2 <= k <= 5 && message == Utf8(Prefix(i, k))
    {
      PrefixStep(i, k);
      var framing, value := Label(false, GENERATION_NAMES[k]), Text(Part(i, k));
      LabelIsFraming(false, GENERATION_NAMES[k]);
      Updated(message, Prefix(i, k), framing);
      message := message + Utf8(framing);
      Updated(message, Prefix(i, k) + framing, value);
      message := message + Utf8(value);
      k := k + 1;
    }
    PrefixEnd(i);
    Updated(message, Prefix(i, 5), RBRACE);
    message := message + Utf8(RBRACE);
  }

  lemma ClosedManifest(i: Input)
    requires FastInput(i)
    ensures HeadText(i) + ReferenceTexts(i.manifest) + RBRACKET == Prefix(i, 2)
  {
    PrefixStep(i, 1);
    ManifestText(i);
    hide Prefix, Text, ReferenceTexts, Part, Canonical, Label, IsName;
    var framing := Label(false, GENERATION_NAMES[1]);
    assert Prefix(i, 1) + (framing + LBRACKET) + ReferenceTexts(i.manifest) + RBRACKET
        == Prefix(i, 1) + framing + (LBRACKET + ReferenceTexts(i.manifest) + RBRACKET);
  }

  lemma NoReferences(manifest: seq<Reference>)
    requires manifest == []
    ensures ReferenceTexts(manifest) == []
  {
    NoItems();
  }

  lemma NextPiece(text: JsString, manifest: seq<Reference>, index: nat)
    requires index < |manifest| && Canonical(manifest[index].value).Some?
    ensures text + ReferenceTexts(manifest[..index + 1])
         == text + ReferenceTexts(manifest[..index]) + (if index > 0 then COMMA else []) + Text(manifest[index].value)
  {
    hide ReferenceTexts, Text, Canonical;
    ReferenceTextsNext(manifest, index);
    var before, comma, last := ReferenceTexts(manifest[..index]), if index > 0 then COMMA else [], Text(manifest[index].value);
    assert text + (before + (comma + last)) == text + before + comma + last;
  }
}
