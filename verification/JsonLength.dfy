/**
 The ordinary JSON byte length of a payload does not depend on the canonical key order.

 The encoder counts the bytes of the canonical text as it writes them, before the separators are escaped, while
 the source promises the length of what `JSON.stringify` prints for the payload itself, in the order of its own
 keys and with undefined entries skipped. Both print the same entries, so the two lengths are the same sum.
 */
module JsonLength {
  import opened Utf16
  import opened Sequences
  import opened StableJson
  import Sorting

  /** What `JSON.stringify(v)` prints for plain data: own key order, undefined entries skipped. */
  function Ordinary(v: Value): Json
    requires Accepted(v)
    decreases v
  {
    match v
    case Null => JNull
    case Bool(b) => JBool(b)
    case NonFinite => JNull
    case Number(text) => JNumber(text)
    case Str(s) => JString(s)
    case Array(_, items) => JArray(seq(|items|, i requires 0 <= i < |items| => Ordinary(items[i])))
    case Object(_, fields) => JObject(OrdinaryMembers(fields))
  }

  function OrdinaryMembers(fields: seq<Field>): seq<Member>
    requires forall i :: 0 <= i < |fields| ==> AcceptedEntry(fields[i])
    decreases fields
  {
    if fields == [] then [] else
      assert AcceptedEntry(fields[0]);
      (if fields[0].value.Undefined? then [] else [Member(fields[0].key, Ordinary(fields[0].value))])
        + OrdinaryMembers(fields[1..])
  }

  /** `Buffer.byteLength(JSON.stringify(v))`. */
  function OrdinaryBytes(v: Value): nat
    requires Accepted(v)
  {
    |Utf8(Render(Ordinary(v)))|
  }

  // ----- length of a rendering as a sum over its parts

  function Size(j: Json): nat
    decreases j, 0
  {
    match j
    case JNull => 4
    case JBool(b) => if b then 4 else 5
    case JNumber(text) => |text|
    case JString(s) => |Utf8(Quote(s))|
    case JArray(items) => 2 + ItemsSize(items)
    case JObject(members) => 2 + MembersSize(members)
  }

  function Commas(count: nat): nat { if count == 0 then 0 else count - 1 }

  function ItemsSize(items: seq<Json>): nat
    decreases items, 0
  {
    if items == [] then 0 else Size(items[0]) + (if |items| == 1 then 0 else 1) + ItemsSize(items[1..])
  }

  function MemberSize(m: Member): nat
    decreases m, 0
  {
    |Utf8(Quote(m.key))| + 1 + Size(m.value)
  }

  function MembersSize(members: seq<Member>): nat
    decreases members, 0
  {
    if members == [] then 0 else MemberSize(members[0]) + (if |members| == 1 then 0 else 1) + MembersSize(members[1..])
  }

  lemma Concat3(a: JsString, b: JsString, c: JsString)
    requires a != [] && c != [] && !IsLow(c[0]) && (b == [] || !IsLow(b[0]))
    ensures |Utf8(a + b + c)| == |Utf8(a)| + |Utf8(b)| + |Utf8(c)|
  {
    Utf8Concat(a, b);
    Utf8Concat(a + b, c);
  }

  lemma {:induction false} SizeIsLength(j: Json)
    ensures |Utf8(Render(j))| == Size(j)
    decreases j, 0
  {
    hide Utf8;
    match j
    case JNull => Utf8Ascii(Ascii("null"));
    case JBool(b) => Utf8Ascii(Ascii(if b then "true" else "false"));
    case JNumber(text) => Utf8Ascii(text);
    case JString(_) =>
    case JArray(items) =>
      ItemsSizeIsLength(items);
      Bracketed(LBRACKET, RenderItems(items), RBRACKET);
    case JObject(members) =>
      MembersSizeIsLength(members);
      Bracketed(LBRACE, RenderMembers(members), RBRACE);
  }

  lemma Bracketed(open: JsString, text: JsString, close: JsString)
    requires |open| == 1 && open[0] < 0x80 && |close| == 1 && close[0] < 0x80 && (text == [] || !IsLow(text[0]))
    ensures |Utf8(open + text + close)| == 2 + |Utf8(text)|
  {
    Utf8Ascii(open);
    Utf8Ascii(close);
    Concat3(open, text, close);
  }

  lemma {:induction false} ItemsSizeIsLength(items: seq<Json>)
    ensures |Utf8(RenderItems(items))| == ItemsSize(items)
    ensures items != [] ==> RenderItems(items) != [] && !IsLow(RenderItems(items)[0])
    ensures items == [] ==> RenderItems(items) == []
    decreases items, 0
  {
    if items == [] {
    } else {
      SizeIsLength(items[0]);
      ItemsSizeIsLength(items[1..]);
      if |items| > 1 {
        Utf8Ascii(COMMA);
        Utf8Concat(Render(items[0]) + COMMA, RenderItems(items[1..]));
        Utf8Concat(Render(items[0]), COMMA);
      }
    }
  }

  lemma {:induction false} MembersSizeIsLength(members: seq<Member>)
    ensures |Utf8(RenderMembers(members))| == MembersSize(members)
    ensures members != [] ==> RenderMembers(members) != [] && !IsLow(RenderMembers(members)[0])
    ensures members == [] ==> RenderMembers(members) == []
    decreases members, 0
  {
    if members == [] {
    } else {
      var m := members[0];
      SizeIsLength(m.value);
      Utf8Ascii(COLON);
      Utf8Ascii(COMMA);
      Utf8Concat(Quote(m.key) + COLON, Render(m.value));
      Utf8Concat(Quote(m.key), COLON);
      MembersSizeIsLength(members[1..]);
      if |members| > 1 {
        Utf8Concat(RenderMember(m) + COMMA, RenderMembers(members[1..]));
        Utf8Concat(RenderMember(m), COMMA);
      }
    }
  }

  // ----- sums over keys do not depend on their order

  /** Total size of the entries some keys name. */
  function Total(keys: seq<JsString>, sizes: JsString -> nat): nat {
    if keys == [] then 0 else sizes(keys[0]) + Total(keys[1..], sizes)
  }

  lemma {:induction false} TotalRemove(keys: seq<JsString>, i: nat, sizes: JsString -> nat)
    requires i < |keys|
    ensures Total(keys, sizes) == sizes(keys[i]) + Total(keys[..i] + keys[i + 1..], sizes)
  {
    if i > 0 {
      TotalRemove(keys[1..], i - 1, sizes);
      assert (keys[..i] + keys[i + 1..])[1..] == keys[1..][..i - 1] + keys[1..][i..];
    } else {
      assert keys[..0] + keys[1..] == keys[1..];
    }
  }

  lemma {:induction false} TotalPermutes(a: seq<JsString>, b: seq<JsString>, sizes: JsString -> nat)
    requires multiset(a) == multiset(b)
    ensures Total(a, sizes) == Total(b, sizes) && |a| == |b|
  {
    Sorting.SameMultiset(a, b);
    if a == [] {
    } else {
      assert a[0] in b;
      var i :| 0 <= i < |b| && b[i] == a[0];
      var rest := b[..i] + b[i + 1..];
      TotalRemove(b, i, sizes);
      assert b == b[..i] + [b[i]] + b[i + 1..];
      assert multiset(b) == multiset(rest) + multiset{b[i]};
      Sorting.TailMultiset(a);
      TotalPermutes(a[1..], rest, sizes);
    }
  }

  function EntrySize(owner: Value, key: JsString): nat {
    if owner.Object? && HasKey(owner.fields, key) && Accepted(Get(owner.fields, key)) then
      AcceptedCanonical(Get(owner.fields, key));
      |Utf8(Quote(key))| + 1 + Size(Canonical(Get(owner.fields, key)).value)
    else 0
  }

  function Sizes(owner: Value): JsString -> nat { key => EntrySize(owner, key) }

  lemma {:induction false} CanonicalMembersSize(keys: seq<JsString>, owner: Value)
    requires AllAccepted(keys, owner)
    ensures MembersSize(CanonicalMembers(keys, owner)) == Commas(|keys|) + Total(keys, Sizes(owner))
    ensures |CanonicalMembers(keys, owner)| == |keys|
  {
    hide Utf8, Quote, Canonical, Accepted, Get;
    if keys == [] {
    } else {
      AcceptedCanonical(Get(owner.fields, keys[0]));
      assert AllAccepted(keys[1..], owner) by {
        assert forall i :: 0 <= i < |keys[1..]| ==> keys[1..][i] == keys[i + 1];
      }
      CanonicalMembersSize(keys[1..], owner);
    }
  }

  /** Both renderings of an accepted value have the same size. */
  ghost predicate SameSize(v: Value) {
    Accepted(v) && (AcceptedCanonical(v); Size(Canonical(v).value) == Size(Ordinary(v)))
  }

  ghost predicate SameEntrySize(f: Field) { f.value.Undefined? || SameSize(f.value) }

  /** The entry is the one its key names. */
  ghost predicate EntryOf(owner: Value, f: Field) {
    owner.Object? && HasKey(owner.fields, f.key) && Get(owner.fields, f.key) == f.value
  }

  /** Splitting off the first field, on both sides. */
  lemma HeadField(owner: Value, fields: seq<Field>)
    requires fields != [] && EntryOf(owner, fields[0]) && SameEntrySize(fields[0])
    requires forall i :: 0 <= i < |fields[1..]| ==> AcceptedEntry(fields[1..][i])
    ensures forall i :: 0 <= i < |fields| ==> AcceptedEntry(fields[i])
    ensures IsDefined(owner.fields, fields[0].key) == !fields[0].value.Undefined?
    ensures var keys, rest := Filter(Keys(fields), DefinedIn(owner.fields)), Filter(Keys(fields[1..]), DefinedIn(owner.fields));
      if fields[0].value.Undefined? then
        keys == rest && OrdinaryMembers(fields) == OrdinaryMembers(fields[1..])
      else
        Accepted(fields[0].value) &&
        var m := Member(fields[0].key, Ordinary(fields[0].value));
        && keys == [m.key] + rest && OrdinaryMembers(fields) == [m] + OrdinaryMembers(fields[1..])
        && MemberSize(m) == EntrySize(owner, m.key)
  {
    hide Canonical, Ordinary, Utf8, Quote, Accepted, Get, HasKey;
    assert forall i :: 0 < i < |fields| ==> fields[i] == fields[1..][i - 1];
    assert Keys(fields)[1..] == Keys(fields[1..]) && Keys(fields)[0] == fields[0].key;
  }

  lemma {:induction false} OrdinaryMembersSize(owner: Value, fields: seq<Field>)
    requires owner.Object? && forall i :: 0 <= i < |fields| ==> EntryOf(owner, fields[i]) && SameEntrySize(fields[i])
    ensures forall i :: 0 <= i < |fields| ==> AcceptedEntry(fields[i])
    ensures var keys := Filter(Keys(fields), DefinedIn(owner.fields));
      && |OrdinaryMembers(fields)| == |keys|
      && MembersSize(OrdinaryMembers(fields)) == Commas(|keys|) + Total(keys, Sizes(owner))
  {
    if fields == [] {
    } else {
      hide Ordinary, OrdinaryMembers, MembersSize, Total, MemberSize, EntrySize, Filter, EntryOf, SameEntrySize, AcceptedEntry;
      assert EntryOf(owner, fields[0]) && SameEntrySize(fields[0]);
      assert forall i :: 0 <= i < |fields[1..]| ==> fields[1..][i] == fields[i + 1];
      OrdinaryMembersSize(owner, fields[1..]);
      HeadField(owner, fields);
      if !fields[0].value.Undefined? {
      }
    }
  }

  /** Canonical and ordinary renderings of plain data have the same size. */
  lemma {:induction false} AcceptedSameSize(v: Value)
    requires Proper(v) && Accepted(v)
    ensures SameSize(v)
    decreases v
  {
    AcceptedCanonical(v);
    match v
    case Array(_, items) =>
      forall i | 0 <= i < |items| ensures SameSize(items[i]) {
        AcceptedSameSize(items[i]);
      }
      ItemsSameSize(items, seq(|items|, i requires 0 <= i < |items| => Ordinary(items[i])));
    case Object(_, fields) =>
      forall i | 0 <= i < |fields| ensures SameEntrySize(fields[i]) {
        assert AcceptedEntry(fields[i]);
        if !fields[i].value.Undefined? { AcceptedSameSize(fields[i].value); }
      }
      ObjectSameSize(v);
    case _ =>
  }

  lemma {:induction false} ItemsSameSize(items: seq<Value>, ordinary: seq<Json>)
    requires |ordinary| == |items|
    requires forall i :: 0 <= i < |items| ==> SameSize(items[i]) && ordinary[i] == Ordinary(items[i])
    ensures ItemsSize(CanonicalItems(items)) == ItemsSize(ordinary)
  {
    if items == [] {
    } else {
      assert SameSize(items[0]);
      AcceptedCanonical(items[0]);
      ItemsSameSize(items[1..], ordinary[1..]);
    }
  }

  lemma ObjectSameSize(v: Value)
    requires v.Object? && Proper(v) && Accepted(v)
    requires forall i :: 0 <= i < |v.fields| ==> SameEntrySize(v.fields[i])
    ensures AllPresent(CanonicalKeys(v.fields), v) && forall i :: 0 <= i < |v.fields| ==> AcceptedEntry(v.fields[i])
    ensures MembersSize(CanonicalMembers(CanonicalKeys(v.fields), v)) == MembersSize(OrdinaryMembers(v.fields))
  {
    var keys := CanonicalKeys(v.fields);
    forall i | 0 <= i < |keys| ensures HasKey(v.fields, keys[i]) && Accepted(Get(v.fields, keys[i])) {
      assert keys[i] in keys;
      GetEntry(v.fields, keys[i]);
      var k :| 0 <= k < |v.fields| && v.fields[k] == Field(keys[i], Get(v.fields, keys[i]));
      assert AcceptedEntry(v.fields[k]);
    }
    CanonicalMembersSize(keys, v);
    forall i | 0 <= i < |v.fields| ensures EntryOf(v, v.fields[i]) { GetIs(v.fields, i); }
    OrdinaryMembersSize(v, v.fields);
    DefinedPermutesCanonical(v.fields);
    TotalPermutes(keys, DefinedKeys(v.fields), Sizes(v));
  }

  lemma DefinedPermutesCanonical(fields: seq<Field>)
    requires Sorting.Distinct(Keys(fields))
    ensures multiset(CanonicalKeys(fields)) == multiset(DefinedKeys(fields))
  {
    CanonicalKeysDistinct(fields);
    FilterDistinct(Keys(fields), DefinedIn(fields));
    FilterMembers(Keys(fields), DefinedIn(fields));
    SameDistinct(CanonicalKeys(fields), DefinedKeys(fields));
  }

  lemma SameDistinct(a: seq<JsString>, b: seq<JsString>)
    requires Sorting.Distinct(a) && Sorting.Distinct(b) && forall x :: x in a <==> x in b
    ensures multiset(a) == multiset(b)
  {
    Sorting.DistinctMultiset(a);
    Sorting.DistinctMultiset(b);
    forall x ensures multiset(a)[x] == multiset(b)[x] {
      assert x in a <==> x in multiset(a);
      assert x in b <==> x in multiset(b);
    }
  }

  /** The canonical text, before its separator escapes, is exactly as long as the ordinary JSON. */
  lemma CanonicalLengthIsOrdinary(v: Value)
    requires Proper(v) && Accepted(v)
    ensures |Utf8(CanonicalText(v))| == OrdinaryBytes(v)
  {
    AcceptedCanonical(v);
    AcceptedSameSize(v);
    SizeIsLength(Canonical(v).value);
    SizeIsLength(Ordinary(v));
  }
}
