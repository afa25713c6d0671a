/**
 The streaming identity encoder: a writer with a fixed byte buffer, a string cache and a key-shape
 cache, proved to feed the hash exactly the bytes of `StableText` without building the text.

 The message hashed so far and the filled part of the buffer together are always the encoding of the text written,
 whatever the caches hold: a cached string is the token of that string, and a cached shape is a list of keys with
 the order in which they sort. A value that the canonicalizer rejects is rejected, and nothing is claimed then.
 */
module OwnedWriter {
  import opened Utf16
  import opened Sequences
  import opened StableJson
  import Sorting

  const CAPACITY: nat := 32_768
  const MAX_STRINGS: nat := 256
  const MAX_STRING_LENGTH: nat := 256
  const MAX_SHAPES: nat := 64
  const MAX_SHAPE_KEYS: nat := 32

  datatype EncodedString = EncodedString(canonical: seq<Byte>, bytes: nat)
  datatype ObjectShape = ObjectShape(keys: seq<JsString>, ordered: seq<JsString>)

  // ----- string facts the encoder relies on

  /** The code units `JSON_ESCAPES` matches. */
  predicate NeedsEscape(u: Unit) {
    u == 0x22 || u == 0x5C || u < 0x20 || u == 0x2028 || u == 0x2029 || IsSurrogate(u)
  }

  predicate HasEscape(s: JsString) { exists i :: 0 <= i < |s| && NeedsEscape(s[i]) }

  lemma {:induction false} PlainBody(s: JsString)
    requires !HasEscape(s)
    ensures QuoteBody(s) == s
  {
    if s == [] {
    } else {
      assert forall i :: 0 <= i < |s[1..]| ==> s[1..][i] == s[1 + i];
      assert !NeedsEscape(s[0]);
      PlainBody(s[1..]);
    }
  }

  lemma PlainQuote(s: JsString)
    requires !HasEscape(s)
    ensures Encoded(Quote(s)) == [0x22] + Utf8(s) + [0x22]
    ensures |Utf8(Quote(s))| == |Utf8(s)| + 2
  {
    PlainBody(s);
    assert forall i :: 0 <= i < |s| ==> !NeedsEscape(s[i]);
    SeparatorsPlain(Quote(s));
    Utf8Concat([0x22] + s, [0x22]);
    Utf8Concat([0x22], s);
    Utf8Ascii([0x22]);
  }

  lemma {:induction false} QuoteBodyBound(s: JsString)
    ensures |Separators(QuoteBody(s))| <= 6 * |s|
  {
    if s == [] {
    } else {
      if Step(s) == 2 {
        SeparatorsConcat(s[..2], QuoteBody(s[2..]));
        SeparatorsPlain(s[..2]);
        QuoteBodyBound(s[2..]);
      } else {
        SeparatorsConcat(QuoteUnit(s[0]), QuoteBody(s[1..]));
        if QuoteUnit(s[0]) != [s[0]] { SeparatorsPlain(QuoteUnit(s[0])); }
        assert QuoteUnit(s[0]) == [s[0]] ==> Separators(QuoteUnit(s[0])) == Separator(s[0]);
        QuoteBodyBound(s[1..]);
      }
    }
  }

  lemma TokenFits(s: JsString)
    requires |s| <= MAX_STRING_LENGTH
    ensures |Encoded(Quote(s))| <= CAPACITY
  {
    QuoteBodyBound(s);
    SeparatorsConcat([0x22] + QuoteBody(s), [0x22]);
    SeparatorsConcat([0x22], QuoteBody(s));
    SeparatorsPlain([0x22]);
    Utf8Bound(Separators(Quote(s)));
  }

  predicate TokenOf(s: JsString, token: EncodedString) {
    token.canonical == Encoded(Quote(s)) && token.bytes == |Utf8(Quote(s))|
  }

  datatype Encoding = Encoding(read: nat, written: seq<Byte>)

  /** `encodeInto`: whole code points while they fit; reports consumed units and written bytes. */
  function EncodeInto(s: JsString, room: nat): (r: Encoding)
    ensures r.read <= |s| && |r.written| <= room
    ensures room >= 4 && s != [] ==> r.read > 0
  {
    if s == [] || |PointBytes(Point(s))| > room then Encoding(0, []) else
      var rest := EncodeInto(s[Step(s)..], room - |PointBytes(Point(s))|);
      Encoding(Step(s) + rest.read, PointBytes(Point(s)) + rest.written)
  }

  lemma {:induction false} EncodeIntoSplits(s: JsString, room: nat)
    ensures EncodeInto(s, room).written + Utf8(s[EncodeInto(s, room).read..]) == Utf8(s)
  {
    hide PointBytes, Point;
    if s != [] && |PointBytes(Point(s))| <= room {
      var head, n := PointBytes(Point(s)), Step(s);
      var rest := EncodeInto(s[n..], room - |head|);
      EncodeIntoSplits(s[n..], room - |head|);
      assert s[n..][rest.read..] == s[n + rest.read..];
    }
  }

  lemma Utf8Empty(s: JsString)
    requires s == []
    ensures Utf8(s) == []
  {
  }

  lemma FilterNone<T>(s: seq<T>, keep: T -> bool)
    requires s == []
    ensures Filter(s, keep) == []
  {
  }

  lemma FilterAll(v: Value, ordered: seq<JsString>)
    requires v.Object? && Proper(v) && |ordered| == |SortedKeys(v.fields)|
    requires ordered == SortedKeys(v.fields)[..|ordered|]
    ensures Filter(ordered, DefinedIn(v.fields)) == CanonicalKeys(v.fields)
  {
    assert ordered == SortedKeys(v.fields);
    CanonicalKeysAreSortedThenSkipped(v.fields);
  }

  /** An object is accepted when the entries of its canonical keys are. */
  lemma AllFieldsAccepted(v: Value)
    requires Proper(v) && v.Object? && v.plain && AllAccepted(CanonicalKeys(v.fields), v)
    ensures Accepted(v)
  {
    var keys := CanonicalKeys(v.fields);
    forall i | 0 <= i < |v.fields| ensures AcceptedEntry(v.fields[i]) {
      GetIs(v.fields, i);
      if !v.fields[i].value.Undefined? {
        assert v.fields[i].key in keys;
        var k :| 0 <= k < |keys| && keys[k] == v.fields[i].key;
      }
    }
  }

  lemma ArrayAccepted(v: Value)
    requires v.Array? && v.native && Proper(v)
    ensures forall i :: 0 <= i < |v.items| ==> Proper(v.items[i])
    ensures Accepted(v) <==> forall i :: 0 <= i < |v.items| ==> Accepted(v.items[i])
  {
  }

  /** The text after an opening bracket and the first `count` items. */
  ghost function ArrayPrefix(start: JsString, items: seq<Value>, count: nat): JsString
    requires count <= |items|
  {
    start + LBRACKET + ItemsText(items[..count])
  }

  lemma ArrayPrefixStart(start: JsString, items: seq<Value>)
    ensures ArrayPrefix(start, items, 0) == start + LBRACKET
  {
    assert items[..0] == [];
    assert ItemsText([]) == [];
  }

  lemma ArrayPrefixStep(start: JsString, items: seq<Value>, index: nat)
    requires index < |items|
    ensures Accepted(items[index]) ==>
      ArrayPrefix(start, items, index + 1)
        == ArrayPrefix(start, items, index) + ((if index > 0 then COMMA else []) + CanonicalText(items[index]))
  {
    hide CanonicalText, ItemsText;
    if Accepted(items[index]) {
      ItemsTextSnoc(items[..index], items[index]);
      assert items[..index + 1] == items[..index] + [items[index]];
    }
  }

  lemma ArrayPrefixEnd(start: JsString, v: Value)
    requires v.Array?
    ensures Accepted(v) ==> ArrayPrefix(start, v.items, |v.items|) + RBRACKET == start + CanonicalText(v)
  {
    hide CanonicalText, ItemsText;
    if Accepted(v) {
      ArrayText(v);
      assert v.items[..|v.items|] == v.items;
    }
  }

  /** The text after an opening brace and the members of some keys. */
  ghost function ObjectPrefix(start: JsString, keys: seq<JsString>, v: Value): JsString
    requires AllAccepted(keys, v)
  {
    start + LBRACE + MembersText(keys, v)
  }

  lemma ObjectPrefixStart(start: JsString, v: Value)
    requires v.Object?
    ensures AllAccepted([], v) && ObjectPrefix(start, [], v) == start + LBRACE
  {
    assert MembersText([], v) == [];
  }

  lemma ObjectPrefixStep(start: JsString, keys: seq<JsString>, key: JsString, v: Value)
    requires v.Object? && AllAccepted(keys, v) && HasKey(v.fields, key) && Accepted(Get(v.fields, key))
    ensures AllAccepted(keys + [key], v)
    ensures ObjectPrefix(start, keys + [key], v) == ObjectPrefix(start, keys, v)
         + ((if keys != [] then COMMA else []) + Quote(key) + COLON + CanonicalText(Get(v.fields, key)))
  {
    hide CanonicalText, MembersText, Quote, Get, HasKey, Accepted, AllAccepted;
    MembersTextSnoc(keys, key, v);
  }

  /** A sorted key names an entry; the object is rejected with a defined entry that is not accepted. */
  lemma SortedKey(v: Value, index: nat)
    requires v.Object? && Proper(v) && index < |SortedKeys(v.fields)|
    ensures var key := SortedKeys(v.fields)[index];
      && HasKey(v.fields, key)
      && Proper(Get(v.fields, key))
      && (IsDefined(v.fields, key) <==> !Get(v.fields, key).Undefined?)
      && (Accepted(v) && !Get(v.fields, key).Undefined? ==> Accepted(Get(v.fields, key)))
  {
    var key := SortedKeys(v.fields)[index];
    assert key in SortedKeys(v.fields);
    Sorting.SortPermutes(Keys(v.fields), JsonKeyLess);
    GetEntry(v.fields, key);
    var i :| 0 <= i < |v.fields| && v.fields[i] == Field(key, Get(v.fields, key));
    assert Accepted(v) ==> AcceptedEntry(v.fields[i]);
  }

  lemma ObjectPrefixEnd(start: JsString, v: Value)
    requires Proper(v) && v.Object? && v.plain && AllAccepted(CanonicalKeys(v.fields), v)
    ensures Accepted(v)
    ensures ObjectPrefix(start, CanonicalKeys(v.fields), v) + RBRACE == start + CanonicalText(v)
  {
    hide CanonicalText, MembersText, CanonicalKeys;
    AllFieldsAccepted(v);
    ObjectText(v);
  }

  ghost predicate StringsSound(strings: map<JsString, EncodedString>) {
    forall s :: s in strings ==> Cacheable(s, strings[s])
  }

  ghost predicate Cacheable(s: JsString, token: EncodedString) {
    |s| <= MAX_STRING_LENGTH && TokenOf(s, token)
  }

  ghost predicate ShapesSound(shapes: map<nat, seq<ObjectShape>>) {
    forall n :: n in shapes ==> forall shape :: shape in shapes[n] ==> ShapeSound(n, shape)
  }

  ghost predicate ShapeSound(n: nat, shape: ObjectShape) {
    |shape.keys| == n && shape.ordered == Sorting.Sort(shape.keys, JsonKeyLess)
  }

  class Writer {
    const buffer: array<Byte>
    var offset: nat
    /** The message the hash has consumed: every flushed chunk, in order. */
    var hashed: seq<Byte>
    /** Ordinary JSON bytes, before the separator escapes. */
    var bytes: nat
    var strings: map<JsString, EncodedString>
    var shapes: map<nat, seq<ObjectShape>>
    var shapeCount: nat
    /** The JSON text written so far. */
    ghost var text: JsString

    ghost predicate Valid()
      reads this
    {
      buffer.Length == CAPACITY && offset <= CAPACITY && StringsSound(strings) && ShapesSound(shapes)
    }

    /** Everything written so far, flushed or not. */
    ghost function Emitted(): seq<Byte>
      reads this, buffer
      requires Valid()
    {
      hashed + buffer[..offset]
    }

    /** What was emitted is the encoding of the text, and `bytes` its ordinary length. */
    ghost predicate Faithful()
      reads this, buffer
    {
      Valid() && Emitted() == Encoded(text) && bytes == |Utf8(text)|
    }

    constructor ()
      ensures Faithful() && text == [] && fresh(buffer)
      ensures strings == map[] && shapes == map[]
    {
      buffer := new Byte[CAPACITY];
      offset, hashed, bytes, text := 0, [], 0, [];
      strings, shapes, shapeCount := map[], map[], 0;
    }

    method Flush()
      requires Valid()
      modifies this`offset, this`hashed
      ensures Valid() && offset == 0 && hashed == old(Emitted())
    {
      hashed := hashed + buffer[..offset];
      offset := 0;
    }

    /** Copy bytes that fit behind the filled prefix. */
    method Put(data: seq<Byte>)
      requires Valid() && |data| <= CAPACITY - offset
      modifies this`offset, buffer
      ensures Valid() && Emitted() == old(Emitted()) + data
    {
      forall i | 0 <= i < |data| {
        buffer[offset + i] := data[i];
      }
      assert buffer[..offset + |data|] == old(buffer[..offset]) + data;
      offset := offset + |data|;
    }

    /** Flush first when the bytes do not fit behind the prefix. */
    method Token(data: seq<Byte>)
      requires Valid() && |data| <= CAPACITY
      modifies this`offset, this`hashed, buffer
      ensures Valid() && Emitted() == old(Emitted()) + data
    {
      if |data| > CAPACITY - offset {
        Flush();
        assert hashed + buffer[..0] == hashed;
      }
      Put(data);
    }

    /** Framing and primitive tokens: one code unit is stored directly, longer ones are copied. */
    method PartBytes(value: seq<Byte>)
      requires Valid() && |value| <= CAPACITY
      modifies this`offset, this`hashed, buffer
      ensures Valid() && Emitted() == old(Emitted()) + value
    {
      if |value| > CAPACITY - offset {
        Flush();
        assert hashed + buffer[..0] == hashed;
      }
      if |value| == 1 {
        ghost var filled := buffer[..offset];
        buffer[offset] := value[0];
        assert buffer[..offset + 1] == filled + value;
        offset := offset + 1;
      } else {
        Put(value);
      }
    }

    method Part(value: JsString)
      requires Faithful() && |value| <= CAPACITY
      requires forall i :: 0 <= i < |value| ==> value[i] < 0x80
      modifies this`offset, this`hashed, this`bytes, this`text, buffer
      ensures Faithful() && text == old(text) + value
    {
      hide Encoded, Utf8, StringsSound, ShapesSound;
      EncodedAscii(value);
      EncodedConcat(text, value);
      bytes := bytes + |value|;
      PartBytes(value);
      text := text + value;
    }

    method WriteByte(value: Byte)
      requires Valid()
      modifies this`offset, this`hashed, buffer
      ensures Valid() && Emitted() == old(Emitted()) + [value]
    {
      if offset == CAPACITY {
        Flush();
        assert hashed + buffer[..0] == hashed;
      }
      Put([value]);
    }

    /** Text of any length, encoded chunk by chunk without splitting a code point. */
    method Text(value: JsString, size: nat)
      requires Valid() && size == |Utf8(value)|
      modifies this`offset, this`hashed, buffer
      ensures Valid() && Emitted() == old(Emitted()) + Utf8(value)
    {
      hide EncodeInto, Utf8, StringsSound, ShapesSound;
      if size <= CAPACITY {
        Token(Utf8(value));
        return;
      }
      ghost var total := Emitted() + Utf8(value);
      var read := 0;
      assert value[0..] == value;
      while read < |value|
        invariant Valid() && read <= |value|
        invariant Emitted() + Utf8(value[read..]) == total
        decreases |value| - read, offset
      {
        ghost var before, rest := Emitted(), value[read..];
        var result := EncodeInto(value[read..], CAPACITY - offset);
        EncodeIntoSplits(rest, CAPACITY - offset);
        assert rest[result.read..] == value[read + result.read..];
        Put(result.written);
        read := read + result.read;
        if read < |value| {
          ghost var whole := Emitted();
          Flush();
          assert Emitted() == whole;
        }
      }
      Utf8Empty(value[read..]);
    }

    /** A string without escapes that is not cached: quote, text, quote. */
    method PlainString(value: JsString, size: nat)
      requires Valid() && size == |Utf8(value)|
      modifies this`offset, this`hashed, buffer
      ensures Valid() && Emitted() == old(Emitted()) + ([0x22] + Utf8(value) + [0x22])
    {
      hide Utf8, StringsSound, ShapesSound;
      ghost var start := Emitted();
      WriteByte(0x22);
      Text(value, size);
      WriteByte(0x22);
      assert start + [0x22] + Utf8(value) + [0x22] == start + ([0x22] + Utf8(value) + [0x22]);
    }

    /** Write one encoded token, remembering it when it may be cached. */
    method Remember(value: JsString, token: EncodedString)
      requires Valid() && |value| <= MAX_STRING_LENGTH && TokenOf(value, token)
      modifies this`strings, this`offset, this`hashed, buffer
      ensures Valid() && Emitted() == old(Emitted()) + token.canonical
    {
      hide Utf8, Encoded, Quote;
      TokenFits(value);
      strings := strings[value := token];
      Token(token.canonical);
    }

    method StringBytes(value: JsString)
      requires Valid()
      modifies this`offset, this`hashed, this`bytes, this`strings, buffer
      ensures Valid() && Emitted() == old(Emitted()) + Encoded(Quote(value))
      ensures bytes == old(bytes) + |Utf8(Quote(value))|
    {
      hide Utf8, Separators, Quote, HasEscape;
      if |value| <= MAX_STRING_LENGTH && value in strings {
        var encoded := strings[value];
        bytes := bytes + encoded.bytes;
        TokenFits(value);
        Token(encoded.canonical);
        return;
      }
      var cache := |strings| < MAX_STRINGS && |value| <= MAX_STRING_LENGTH;
      if !HasEscape(value) {
        PlainQuote(value);
        var size := |Utf8(value)|;
        bytes := bytes + size + 2;
        if cache {
          Remember(value, EncodedString([0x22] + Utf8(value) + [0x22], size + 2));
        } else {
          PlainString(value, size);
        }
        return;
      }
      var json := Quote(value);
      var canonical := Separators(json);
      var canonicalBytes := |Utf8(canonical)|;
      var size := if canonical == json then canonicalBytes else |Utf8(json)|;
      bytes := bytes + size;
      if cache {
        Remember(value, EncodedString(Utf8(canonical), size));
      } else {
        Text(canonical, canonicalBytes);
      }
    }

    method String(value: JsString)
      requires Faithful()
      modifies this`offset, this`hashed, this`bytes, this`strings, this`text, buffer
      ensures Faithful() && text == old(text) + Quote(value)
    {
      hide Utf8, Encoded, Quote, StringsSound, ShapesSound;
      EncodedConcat(text, Quote(value));
      StringBytes(value);
      text := text + Quote(value);
    }

    /** The object's keys in canonical order, from the shape cache when these keys were seen before. */
    method OrderedKeys(fields: seq<Field>) returns (ordered: seq<JsString>)
      requires Valid()
      modifies this`shapes, this`shapeCount
      ensures Valid() && ordered == SortedKeys(fields)
    {
      hide Sorting.Sort, JsonKeyLess;
      var keys := Keys(fields);
      if |keys| in shapes {
        var known := shapes[|keys|];
        for i := 0 to |known| {
          var shape := known[i];
          assert shape in shapes[|keys|];
          var matches := true;
          var index := 0;
          while index < |keys| && matches
            invariant index <= |keys|
            invariant matches ==> keys[..index] == shape.keys[..index]
          {
            if keys[index] != shape.keys[index] { matches := false; }
            index := index + 1;
          }
          if matches {
            assert keys == shape.keys;
            return shape.ordered;
          }
        }
      }
      ordered := Sorting.Sort(keys, JsonKeyLess);
      if shapeCount < MAX_SHAPES && |keys| <= MAX_SHAPE_KEYS && forall key :: key in keys ==> |key| <= MAX_STRING_LENGTH {
        var shape := ObjectShape(keys, ordered);
        if |keys| in shapes {
          shapes := shapes[|keys| := shapes[|keys|] + [shape]];
        } else {
          shapes := shapes[|keys| := [shape]];
        }
        shapeCount := shapeCount + 1;
      }
    }

    /** One JSON value; stops without an answer where the original throws `UNSUPPORTED`. */
    method Value(v: StableJson.Value) returns (ok: bool)
      requires Faithful() && Proper(v)
      modifies this, buffer
      ensures ok == Accepted(v)
      ensures ok ==> Faithful() && text == old(text) + CanonicalText(v)
      decreases v, 1
    {
      hide Encoded, Utf8, Quote, StringsSound, ShapesSound;
      match v
      case Null => Part(Ascii("null")); return true;
      case NonFinite => Part(Ascii("null")); return true;
      case Number(numeral) => Part(numeral); return true;
      case Bool(b) => Part(if b then Ascii("true") else Ascii("false")); return true;
      case Str(s) => String(s); return true;
      case Array(native, _) =>
        if !native { return false; }
        ok := Items(v);
      case Object(plain, _) =>
        if !plain { return false; }
        ok := Fields(v);
      case _ => return false;
    }

    /** One array item behind its comma. */
    method Item(items: seq<StableJson.Value>, index: nat, ghost start: JsString) returns (ok: bool)
      requires index < |items| && Proper(items[index])
      requires Faithful() && text == ArrayPrefix(start, items, index)
      modifies this, buffer
      ensures ok == Accepted(items[index])
      ensures ok ==> Faithful() && text == ArrayPrefix(start, items, index + 1)
      decreases items[index], 2
    {
      hide Encoded, Utf8, StringsSound, ShapesSound, CanonicalText, ArrayPrefix, Proper, Accepted;
      if index > 0 { Part(COMMA); }
      ok := Value(items[index]);
      ArrayPrefixStep(start, items, index);
    }

    method Items(v: StableJson.Value) returns (ok: bool)
      requires Faithful() && Proper(v) && v.Array? && v.native
      modifies this, buffer
      ensures ok == Accepted(v)
      ensures ok ==> Faithful() && text == old(text) + CanonicalText(v)
      decreases v, 0
    {
      hide Encoded, Utf8, StringsSound, ShapesSound, CanonicalText, ArrayPrefix, Proper, Accepted;
      ArrayAccepted(v);
      ghost var start := text;
      Part(LBRACKET);
      ArrayPrefixStart(start, v.items);
      var index := 0;
      while index < |v.items|
        invariant Faithful() && index <= |v.items|
        invariant forall i :: 0 <= i < index ==> Accepted(v.items[i])
        invariant text == ArrayPrefix(start, v.items, index)
      {
        ok := Item(v.items, index, start);
        if !ok { return; }
        index := index + 1;
      }
      ArrayPrefixEnd(start, v);
      Part(RBRACKET);
      ok := true;
    }

    /** One object entry behind its comma; an undefined one is skipped. */
    method Entry(v: StableJson.Value, key: JsString, separator: bool, ghost start: JsString, ghost keys: seq<JsString>)
      returns (ok: bool)
      requires v.Object? && HasKey(v.fields, key) && Proper(Get(v.fields, key)) && AllAccepted(keys, v)
      requires Faithful() && text == ObjectPrefix(start, keys, v) && separator == (keys != [])
      modifies this, buffer
      ensures ok == Accepted(Get(v.fields, key))
      ensures ok ==> Faithful() && AllAccepted(keys + [key], v) && text == ObjectPrefix(start, keys + [key], v)
      decreases Get(v.fields, key), 2
    {
      hide Encoded, Utf8, StringsSound, ShapesSound, CanonicalText, ObjectPrefix, Proper, Accepted, Quote, AllAccepted;
      if separator { Part(COMMA); }
      String(key);
      Part(COLON);
      ok := Value(Get(v.fields, key));
      if ok { ObjectPrefixStep(start, keys, key, v); }
    }

    method Fields(v: StableJson.Value) returns (ok: bool)
      requires Faithful() && Proper(v) && v.Object? && v.plain
      modifies this, buffer
      ensures ok == Accepted(v)
      ensures ok ==> Faithful() && text == old(text) + CanonicalText(v)
      decreases v, 0
    {
      hide Encoded, Utf8, StringsSound, ShapesSound, CanonicalText, ObjectPrefix, Get, HasKey, Proper, Accepted,
        Filter, SortedKeys, CanonicalKeys, AllAccepted, IsDefined, Sorting.Distinct;
      ghost var keep := DefinedIn(v.fields);
      ghost var start := text;
      Part(LBRACE);
      var separator := false;
      var ordered := OrderedKeys(v.fields);
      ghost var keys: seq<JsString> := [];
      ObjectPrefixStart(start, v);
      FilterNone(ordered[..0], keep);
      var index := 0;
      while index < |ordered|
        invariant Faithful() && index <= |ordered|
        invariant keys == Filter(ordered[..index], keep) && AllAccepted(keys, v)
        invariant separator == (keys != [])
        invariant text == ObjectPrefix(start, keys, v)
      {
        var key := ordered[index];
        SortedKey(v, index);
        FilterNext(ordered, index, keep);
        index := index + 1;
        if Get(v.fields, key).Undefined? { continue; }
        GetEntry(v.fields, key);
        ok := Entry(v, key, separator, start, keys);
        if !ok { return; }
        keys := keys + [key];
        separator := true;
      }
      FilterAll(v, ordered[..index]);
      ObjectPrefixEnd(start, v);
      Part(RBRACE);
      ok := true;
    }

    /** The message the identity hash has consumed when the digest is taken. */
    method Finish() returns (message: seq<Byte>)
      requires Faithful()
      modifies this`offset, this`hashed
      ensures Faithful() && message == hashed == Encoded(text)
    {
      Flush();
      assert hashed + buffer[..0] == hashed;
      message := hashed;
    }
  }
}
