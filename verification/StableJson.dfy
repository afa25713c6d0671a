/**
 The canonical JSON text every analysis identity is a digest of: values, the canonicalizer,
 JSON rendering, and the key order both encoders have to agree on.
 */
module StableJson {
  import opened Options
  import opened Sequences
  import opened Utf16
  import Sorting

  predicate IsDigit(u: Unit) { 0x30 <= u < 0x3A }

  /** Digits, signs, the point and the exponent mark. */
  predicate IsNumeralUnit(u: Unit) { IsDigit(u) || u == 0x2B || u == 0x2D || u == 0x2E || u == 0x65 }

  /** The text `String(n)` gives a finite number: short, and starting with a digit or a minus sign. */
  type Numeral = s: JsString |
    0 < |s| <= 32 && (IsDigit(s[0]) || s[0] == 0x2D) && forall i :: 0 <= i < |s| ==> IsNumeralUnit(s[i])
    witness [0x30]

  /**
   A JavaScript value as the encoders see it. `native` and `plain` say whether the prototype is the
   built-in one; `Callable` is a function or symbol, which JSON drops.
   */
  datatype Value =
    | Undefined
    | Null
    | Bool(b: bool)
    | NonFinite
    | Number(text: Numeral)
    | Str(s: JsString)
    | BigInt(digits: JsString)
    | Date(iso: JsString)
    | Callable
    | Array(native: bool, items: seq<Value>)
    | Object(plain: bool, fields: seq<Field>)

  /** One own enumerable property; `fields` lists them in `Object.keys` order. */
  datatype Field = Field(key: JsString, value: Value)

  datatype Json =
    | JNull
    | JBool(b: bool)
    | JNumber(text: Numeral)
    | JString(s: JsString)
    | JArray(items: seq<Json>)
    | JObject(members: seq<Member>)

  datatype Member = Member(key: JsString, value: Json)

  // ----- object access

  function Keys(fields: seq<Field>): (r: seq<JsString>)
    ensures |r| == |fields| && forall i :: 0 <= i < |r| ==> r[i] == fields[i].key
  {
    seq(|fields|, i requires 0 <= i < |fields| => fields[i].key)
  }

  predicate HasKey(fields: seq<Field>, key: JsString) { key in Keys(fields) }

  function Get(fields: seq<Field>, key: JsString): Value
    requires HasKey(fields, key)
  {
    if fields[0].key == key then fields[0].value
    else
      assert Keys(fields)[1..] == Keys(fields[1..]);
      Get(fields[1..], key)
  }

  lemma {:induction false} GetEntry(fields: seq<Field>, key: JsString)
    requires HasKey(fields, key)
    ensures exists i :: 0 <= i < |fields| && fields[i] == Field(key, Get(fields, key))
  {
    if fields[0].key == key {
      assert fields[0] == Field(key, fields[0].value);
    } else {
      assert Keys(fields)[1..] == Keys(fields[1..]);
      GetEntry(fields[1..], key);
      var i :| 0 <= i < |fields[1..]| && fields[1..][i] == Field(key, Get(fields, key));
      assert fields[1 + i] == Field(key, Get(fields, key));
    }
  }

  lemma {:induction false} GetIs(fields: seq<Field>, i: nat)
    requires i < |fields| && Sorting.Distinct(Keys(fields))
    ensures HasKey(fields, fields[i].key) && Get(fields, fields[i].key) == fields[i].value
  {
    assert Keys(fields)[i] == fields[i].key;
    if i == 0 {
    } else {
      assert Keys(fields)[0] != Keys(fields)[i];
      assert Keys(fields)[1..] == Keys(fields[1..]);
      GetIs(fields[1..], i - 1);
    }
  }

  /** Object keys are distinct, at every depth. */
  ghost predicate Proper(v: Value) {
    match v
    case Array(_, items) => forall i :: 0 <= i < |items| ==> Proper(items[i])
    case Object(_, fields) => Sorting.Distinct(Keys(fields)) && forall i :: 0 <= i < |fields| ==> Proper(fields[i].value)
    case _ => true
  }

  predicate IsDefined(fields: seq<Field>, key: JsString) {
    HasKey(fields, key) && !Get(fields, key).Undefined?
  }

  function DefinedIn(fields: seq<Field>): JsString -> bool { key => IsDefined(fields, key) }

  function DefinedKeys(fields: seq<Field>): seq<JsString> {
    Filter(Keys(fields), DefinedIn(fields))
  }

  // ----- array-index keys

  /** `String(n)` for an integer in the exact range. */
  function Decimal(n: nat): (r: JsString)
    ensures r != []
  {
    if n < 10 then [0x30 + n] else Decimal(n / 10) + [0x30 + n % 10]
  }

  predicate AllDigits(s: JsString) { forall i :: 0 <= i < |s| ==> 0x30 <= s[i] < 0x3A }

  /** `Number(key)` of a string of decimal digits. */
  function DecimalValue(s: JsString): nat
    requires AllDigits(s)
  {
    if s == [] then 0 else 10 * DecimalValue(s[..|s| - 1]) + (s[|s| - 1] - 0x30)
  }

  /** The key spells an integer below 2^32 - 1 exactly as `String` would. */
  predicate IsArrayIndex(key: JsString) {
    AllDigits(key) && DecimalValue(key) < 0xFFFF_FFFF && Decimal(DecimalValue(key)) == key
  }

  function IndexValue(key: JsString): nat
    requires IsArrayIndex(key)
  {
    DecimalValue(key)
  }

  /** The order `compareJSONKeys` sorts by: array indices numerically first, then scalar order. */
  predicate JsonKeyLess(a: JsString, b: JsString) {
    if IsArrayIndex(a) then !IsArrayIndex(b) || IndexValue(a) < IndexValue(b)
    else !IsArrayIndex(b) && ScalarLess(a, b)
  }

  method CompareJsonKeys(left: JsString, right: JsString) returns (order: int)
    ensures order < 0 <==> JsonKeyLess(left, right)
    ensures order > 0 <==> JsonKeyLess(right, left)
    ensures order == 0 <==> left == right
  {
    if IsArrayIndex(left) {
      order := if IsArrayIndex(right) then IndexValue(left) as int - IndexValue(right) as int else -1;
    } else if IsArrayIndex(right) {
      order := 1;
    } else {
      order := CompareUnicodeScalars(left, right);
    }
  }

  lemma JsonKeyLessIsStrictOrder()
    ensures Sorting.StrictOrder(JsonKeyLess)
  {
    ScalarLessIsStrictOrder();
    forall x, y, z | JsonKeyLess(x, y) && JsonKeyLess(y, z) ensures JsonKeyLess(x, z) {
      if !IsArrayIndex(x) { assert ScalarLess(x, y) && ScalarLess(y, z); }
    }
    forall x, y ensures x == y || JsonKeyLess(x, y) || JsonKeyLess(y, x) {
      if !IsArrayIndex(x) && !IsArrayIndex(y) { assert x == y || ScalarLess(x, y) || ScalarLess(y, x); }
    }
  }

  function IndexValues(keys: seq<JsString>): (r: seq<nat>)
    ensures forall n :: n in r <==> exists k :: k in keys && IsArrayIndex(k) && IndexValue(k) == n
  {
    if keys == [] then [] else
      assert keys == [keys[0]] + keys[1..];
      (if IsArrayIndex(keys[0]) then [IndexValue(keys[0])] else []) + IndexValues(keys[1..])
  }

  function Decimals(values: seq<nat>): (r: seq<JsString>)
    ensures |r| == |values| && forall i :: 0 <= i < |r| ==> r[i] == Decimal(values[i])
  {
    seq(|values|, i requires 0 <= i < |values| => Decimal(values[i]))
  }

  /** The order in which an object created by inserting `keys` enumerates them. */
  function Enumerate(keys: seq<JsString>): seq<JsString> {
    Decimals(Sorting.Sort(IndexValues(keys), Sorting.NatLess)) + Filter(keys, key => !IsArrayIndex(key))
  }

  // ----- the canonicalizer

  /** Keys of the canonical object: drop undefined entries, sort by scalar value, rebuild the object. */
  function CanonicalKeys(fields: seq<Field>): (r: seq<JsString>)
    ensures forall k :: k in r <==> IsDefined(fields, k)
  {
    FilterMembers(Keys(fields), DefinedIn(fields));
    Sorting.SortPermutes(DefinedKeys(fields), ScalarLess);
    EnumerateMembers(Sorting.Sort(DefinedKeys(fields), ScalarLess));
    Enumerate(Sorting.Sort(DefinedKeys(fields), ScalarLess))
  }

  lemma {:induction false} FilterAscending<T(!new)>(s: seq<T>, keep: T -> bool, less: (T, T) -> bool)
    requires Sorting.Ascending(s, less)
    ensures Sorting.Ascending(Filter(s, keep), less)
  {
    if s == [] {
    } else {
      FilterAscending(s[1..], keep, less);
      FilterMembers(s[1..], keep);
      var r := Filter(s[1..], keep);
      forall x | x in r ensures less(s[0], x) {
        assert x in s[1..];
        var i :| 0 <= i < |s[1..]| && s[1..][i] == x;
        assert s[1 + i] == x;
      }
    }
  }

  lemma {:induction false} FilterDistinct<T>(s: seq<T>, keep: T -> bool)
    requires Sorting.Distinct(s)
    ensures Sorting.Distinct(Filter(s, keep))
  {
    if s == [] {
    } else {
      FilterDistinct(s[1..], keep);
      FilterMembers(s[1..], keep);
      assert s[0] !in s[1..];
    }
  }

  lemma {:induction false} IndexValuesDistinct(keys: seq<JsString>)
    requires Sorting.Distinct(keys)
    ensures Sorting.Distinct(IndexValues(keys))
  {
    if keys == [] {
    } else {
      IndexValuesDistinct(keys[1..]);
      if IsArrayIndex(keys[0]) {
        var r := IndexValues(keys[1..]);
        forall i | 0 <= i < |r| ensures r[i] != IndexValue(keys[0]) {
          assert r[i] in r;
          var k :| k in keys[1..] && IsArrayIndex(k) && IndexValue(k) == r[i];
          assert k != keys[0];
        }
      }
    }
  }

  lemma DecimalsOfIndices(keys: seq<JsString>)
    requires Sorting.Distinct(keys)
    ensures var d := Decimals(Sorting.Sort(IndexValues(keys), Sorting.NatLess));
      && Sorting.Ascending(d, JsonKeyLess)
      && (forall k :: k in d <==> k in keys && IsArrayIndex(k))
  {
    var sorted := Sorting.Sort(IndexValues(keys), Sorting.NatLess);
    IndexValuesDistinct(keys);
    Sorting.SortDistinct(IndexValues(keys), Sorting.NatLess);
    var d := Decimals(sorted);
    forall i | 0 <= i < |d| ensures d[i] in keys && IsArrayIndex(d[i]) && IndexValue(d[i]) == sorted[i] {
      assert sorted[i] in IndexValues(keys);
      var k :| k in keys && IsArrayIndex(k) && IndexValue(k) == sorted[i];
      assert d[i] == k;
    }
    forall i, j | 0 <= i < j < |d| ensures JsonKeyLess(d[i], d[j]) {
      assert Sorting.NatLess(sorted[i], sorted[j]);
    }
    forall k | k in keys && IsArrayIndex(k) ensures k in d {
      assert IndexValue(k) in sorted;
      var i :| 0 <= i < |sorted| && sorted[i] == IndexValue(k);
      assert d[i] == k;
    }
  }

  lemma EnumerateMembers(keys: seq<JsString>)
    ensures forall k :: k in Enumerate(keys) <==> k in keys
  {
    var values := Sorting.Sort(IndexValues(keys), Sorting.NatLess);
    Sorting.SortPermutes(IndexValues(keys), Sorting.NatLess);
    var d := Decimals(values);
    FilterMembers(keys, key => !IsArrayIndex(key));
    forall i | 0 <= i < |d| ensures d[i] in keys {
      assert values[i] in IndexValues(keys);
    }
    forall k | k in keys && IsArrayIndex(k) ensures k in d {
      assert IndexValue(k) in values;
      var i :| 0 <= i < |values| && values[i] == IndexValue(k);
      assert d[i] == k;
    }
  }

  lemma EnumerateAscending(s: seq<JsString>)
    requires Sorting.Ascending(s, ScalarLess) && Sorting.Distinct(s)
    ensures Sorting.Ascending(Enumerate(s), JsonKeyLess)
  {
    var d := Decimals(Sorting.Sort(IndexValues(s), Sorting.NatLess));
    var rest := Filter(s, key => !IsArrayIndex(key));
    DecimalsOfIndices(s);
    FilterMembers(s, key => !IsArrayIndex(key));
    FilterAscending(s, key => !IsArrayIndex(key), ScalarLess);
    forall i, j | 0 <= i < j < |Enumerate(s)| ensures JsonKeyLess(Enumerate(s)[i], Enumerate(s)[j]) {
      if j < |d| {
        assert JsonKeyLess(d[i], d[j]);
      } else if i < |d| {
        assert d[i] in d && rest[j - |d|] in rest;
      } else {
        assert rest[i - |d|] in rest && rest[j - |d|] in rest;
        assert ScalarLess(rest[i - |d|], rest[j - |d|]);
      }
    }
  }

  /** Scalar sorting followed by property enumeration is one sort by `JsonKeyLess`. */
  lemma EnumerateIsSort(keys: seq<JsString>)
    requires Sorting.Distinct(keys)
    ensures Enumerate(Sorting.Sort(keys, ScalarLess)) == Sorting.Sort(keys, JsonKeyLess)
  {
    var s := Sorting.Sort(keys, ScalarLess);
    ScalarLessIsStrictOrder();
    Sorting.SortDistinct(keys, ScalarLess);
    EnumerateAscending(s);
    EnumerateMembers(s);
    JsonKeyLessIsStrictOrder();
    Sorting.SortDistinct(keys, JsonKeyLess);
    Sorting.AscendingUnique(Enumerate(s), Sorting.Sort(keys, JsonKeyLess), JsonKeyLess);
  }

  /** Every key, sorted the way the streaming writer sorts them. */
  function SortedKeys(fields: seq<Field>): seq<JsString> {
    Sorting.Sort(Keys(fields), JsonKeyLess)
  }

  /**
   The key order of the canonical object equals sorting every key with `compareJSONKeys` and
   skipping the undefined entries afterwards, which is what the streaming writer does.
   */
  lemma CanonicalKeysAreSortedThenSkipped(fields: seq<Field>)
    requires Sorting.Distinct(Keys(fields))
    ensures CanonicalKeys(fields)
         == Filter(SortedKeys(fields), DefinedIn(fields))
  {
    JsonKeyLessIsStrictOrder();
    var keep := DefinedIn(fields);
    var keys := Keys(fields);
    FilterDistinct(keys, keep);
    FilterMembers(keys, keep);
    EnumerateIsSort(DefinedKeys(fields));
    Sorting.SortDistinct(DefinedKeys(fields), JsonKeyLess);
    Sorting.SortDistinct(keys, JsonKeyLess);
    var all := Sorting.Sort(keys, JsonKeyLess);
    FilterAscending(all, keep, JsonKeyLess);
    FilterMembers(all, keep);
    Sorting.AscendingUnique(Sorting.Sort(DefinedKeys(fields), JsonKeyLess), Filter(all, keep), JsonKeyLess);
  }

  lemma CanonicalKeysDistinct(fields: seq<Field>)
    requires Sorting.Distinct(Keys(fields))
    ensures Sorting.Distinct(CanonicalKeys(fields))
  {
    CanonicalKeysAreSortedThenSkipped(fields);
    JsonKeyLessIsStrictOrder();
    Sorting.SortDistinct(Keys(fields), JsonKeyLess);
    FilterDistinct(Sorting.Sort(Keys(fields), JsonKeyLess), DefinedIn(fields));
  }

  predicate AllPresent(keys: seq<JsString>, owner: Value) {
    owner.Object? && forall i :: 0 <= i < |keys| ==> HasKey(owner.fields, keys[i])
  }

  function Singleton(key: JsString, value: Json): Json { JObject([Member(key, value)]) }

  /**
   `canonical` followed by the projection `JSON.stringify` makes of its result; None where that
   projection is absent (functions and symbols).
   */
  function Canonical(v: Value): (r: Option<Json>)
    decreases v, 0
  {
    match v
    case Undefined => Some(Singleton(Ascii("$undefined"), JBool(true)))
    case Null => Some(JNull)
    case Bool(b) => Some(JBool(b))
    case NonFinite => Some(JNull)
    case Number(text) => Some(JNumber(text))
    case Str(s) => Some(JString(s))
    case BigInt(digits) => Some(Singleton(Ascii("$bigint"), JString(digits)))
    case Date(iso) => Some(Singleton(Ascii("$date"), JString(iso)))
    case Callable => None
    case Array(_, items) => Some(JArray(CanonicalItems(items)))
    case Object(_, fields) =>
      var keys := CanonicalKeys(fields);
      assert AllPresent(keys, v) by {
        forall i | 0 <= i < |keys| ensures HasKey(fields, keys[i]) { assert keys[i] in keys; }
      }
      Some(JObject(CanonicalMembers(keys, v)))
  }

  function CanonicalItems(items: seq<Value>): (r: seq<Json>)
    ensures |r| == |items|
    decreases items, 0
  {
    if items == [] then [] else
      var head := Canonical(items[0]);
      [if head.Some? then head.value else JNull] + CanonicalItems(items[1..])
  }

  /** Members for the given keys, in that order; absent projections are left out. */
  function CanonicalMembers(keys: seq<JsString>, owner: Value): (r: seq<Member>)
    requires AllPresent(keys, owner)
    decreases owner, 0, |keys|
  {
    if keys == [] then [] else
      GetEntry(owner.fields, keys[0]);
      var head := Canonical(Get(owner.fields, keys[0]));
      (if head.Some? then [Member(keys[0], head.value)] else []) + CanonicalMembers(keys[1..], owner)
  }

  // ----- rendering

  const LBRACE: JsString := [0x7B]
  const RBRACE: JsString := [0x7D]
  const LBRACKET: JsString := [0x5B]
  const RBRACKET: JsString := [0x5D]
  const COMMA: JsString := [0x2C]
  const COLON: JsString := [0x3A]

  function HexDigit(n: nat): Unit
    requires n < 16
  {
    if n < 10 then 0x30 + n else 0x57 + n
  }

  function HexEscape(u: Unit): (r: JsString)
    ensures |r| == 6 && forall i :: 0 <= i < 6 ==> r[i] < 0x80
  {
    [0x5C, 0x75, HexDigit(u / 0x1000), HexDigit(u / 0x100 % 0x10), HexDigit(u / 0x10 % 0x10), HexDigit(u % 0x10)]
  }

  /** `JSON.stringify` of one code unit that is not half of a pair. */
  function QuoteUnit(u: Unit): (r: JsString)
    ensures 1 <= |r| <= 6
    ensures r == [u] || forall i :: 0 <= i < |r| ==> r[i] < 0x80
    ensures !IsSurrogate(r[0]) && !IsSurrogate(r[|r| - 1])
  {
    if u == 0x22 || u == 0x5C then [0x5C, u]
    else if u == 0x08 then [0x5C, 0x62]
    else if u == 0x09 then [0x5C, 0x74]
    else if u == 0x0A then [0x5C, 0x6E]
    else if u == 0x0C then [0x5C, 0x66]
    else if u == 0x0D then [0x5C, 0x72]
    else if u < 0x20 || IsSurrogate(u) then HexEscape(u)
    else [u]
  }

  function QuoteBody(s: JsString): JsString {
    if s == [] then []
    else if Step(s) == 2 then s[..2] + QuoteBody(s[2..])
    else QuoteUnit(s[0]) + QuoteBody(s[1..])
  }

  function Quote(s: JsString): (r: JsString)
    ensures |r| >= 2 && r[0] == 0x22 && r[|r| - 1] == 0x22
  {
    [0x22] + QuoteBody(s) + [0x22]
  }

  function Render(j: Json): (r: JsString)
    ensures r != [] && !IsLow(r[0])
    decreases j, 0
  {
    match j
    case JNull => Ascii("null")
    case JBool(b) => if b then Ascii("true") else Ascii("false")
    case JNumber(text) => text
    case JString(s) => Quote(s)
    case JArray(items) => LBRACKET + RenderItems(items) + RBRACKET
    case JObject(members) => LBRACE + RenderMembers(members) + RBRACE
  }

  function RenderItems(items: seq<Json>): JsString
    decreases items, 0
  {
    if items == [] then []
    else if |items| == 1 then Render(items[0])
    else Render(items[0]) + COMMA + RenderItems(items[1..])
  }

  function RenderMember(m: Member): (r: JsString)
    ensures r != [] && !IsLow(r[0])
    decreases m, 0
  {
    Quote(m.key) + COLON + Render(m.value)
  }

  function RenderMembers(members: seq<Member>): JsString
    decreases members, 0
  {
    if members == [] then []
    else if |members| == 1 then RenderMember(members[0])
    else RenderMember(members[0]) + COMMA + RenderMembers(members[1..])
  }

  function Separator(u: Unit): (r: JsString)
    ensures 1 <= |r| <= 6
    ensures IsHigh(r[|r| - 1]) == IsHigh(u) && IsLow(r[0]) == IsLow(u)
  {
    if u == 0x2028 || u == 0x2029 then HexEscape(u) else [u]
  }

  /** Escape the two line separators, which Go's encoder also escapes. */
  function Separators(s: JsString): JsString {
    if s == [] then [] else Separator(s[0]) + Separators(s[1..])
  }

  /** `stableJson`; None where the original throws because there is no JSON text at all. */
  function StableText(v: Value): Option<JsString> {
    match Canonical(v)
    case None => None
    case Some(j) => Some(Separators(Render(j)))
  }

  /** The bytes the identity hash consumes for a rendered text. */
  function Encoded(s: JsString): seq<Byte> { Utf8(Separators(s)) }

  lemma {:induction false} SeparatorsConcat(a: JsString, b: JsString)
    ensures Separators(a + b) == Separators(a) + Separators(b)
  {
    if a == [] {
      assert a + b == b;
    } else {
      assert (a + b)[1..] == a[1..] + b;
      SeparatorsConcat(a[1..], b);
    }
  }

  lemma SeparatorsLast(a: JsString)
    requires a != []
    ensures Separators(a) != []
    ensures IsHigh(Separators(a)[|Separators(a)| - 1]) == IsHigh(a[|a| - 1])
    ensures IsLow(Separators(a)[0]) == IsLow(a[0])
  {
    var last := a[|a| - 1];
    assert a == a[..|a| - 1] + [last];
    SeparatorsConcat(a[..|a| - 1], [last]);
    assert Separators([last]) == Separator(last);
  }

  lemma EncodedConcat(a: JsString, b: JsString)
    requires CleanCut(a, b)
    ensures Encoded(a + b) == Encoded(a) + Encoded(b)
    ensures Utf8(a + b) == Utf8(a) + Utf8(b)
  {
    SeparatorsConcat(a, b);
    if a != [] { SeparatorsLast(a); }
    if b != [] { SeparatorsLast(b); }
    Utf8Concat(Separators(a), Separators(b));
    Utf8Concat(a, b);
  }

  lemma {:induction false} EncodedAscii(s: JsString)
    requires forall i :: 0 <= i < |s| ==> s[i] < 0x80
    ensures Encoded(s) == s && Utf8(s) == s
  {
    Utf8Ascii(s);
    SeparatorsPlain(s);
  }

  lemma {:induction false} SeparatorsPlain(s: JsString)
    requires forall i :: 0 <= i < |s| ==> s[i] != 0x2028 && s[i] != 0x2029
    ensures Separators(s) == s
  {
    if s == [] {
    } else {
      SeparatorsPlain(s[1..]);
    }
  }

  // ----- which values the streaming writer finishes on

  /** Plain JSON data: no undefined, bigint, date, function or foreign prototype where JSON would look. */
  predicate Accepted(v: Value)
    decreases v
  {
    match v
    case Undefined => false
    case BigInt(_) => false
    case Date(_) => false
    case Callable => false
    case Array(native, items) => native && forall i :: 0 <= i < |items| ==> Accepted(items[i])
    case Object(plain, fields) => plain && forall i :: 0 <= i < |fields| ==> AcceptedEntry(fields[i])
    case _ => true
  }

  predicate AcceptedEntry(f: Field)
    decreases f
  {
    f.value.Undefined? || Accepted(f.value)
  }

  lemma AcceptedCanonical(v: Value)
    requires Accepted(v)
    ensures Canonical(v).Some?
  {
  }

  /** The canonical text of an accepted value. */
  function CanonicalText(v: Value): (r: JsString)
    requires Accepted(v)
    ensures r != [] && !IsLow(r[0])
  {
    AcceptedCanonical(v);
    Render(Canonical(v).value)
  }

  // ----- growing lists at the end

  lemma {:induction false} RenderItemsSnoc(items: seq<Json>, j: Json)
    ensures RenderItems(items + [j]) == (if items == [] then [] else RenderItems(items) + COMMA) + Render(j)
  {
    hide Render;
    if |items| == 0 {
      assert items + [j] == [j];
    } else {
      assert (items + [j])[1..] == items[1..] + [j];
      RenderItemsSnoc(items[1..], j);
      if |items| == 1 { assert items[1..] == []; }
    }
  }

  lemma {:induction false} RenderMembersSnoc(members: seq<Member>, key: JsString, value: Json)
    ensures RenderMembers(members + [Member(key, value)])
         == RenderMembers(members) + ((if members == [] then [] else COMMA) + Quote(key) + COLON + Render(value))
  {
    hide Quote, Render;
    var m := Member(key, value);
    if |members| == 0 {
      assert members + [m] == [m];
      assert RenderMembers([]) == [];
    } else {
      var head := RenderMember(members[0]);
      assert (members + [m])[1..] == members[1..] + [m];
      RenderMembersSnoc(members[1..], key, value);
      if |members| == 1 {
        assert members[1..] == [] && RenderMembers([]) == [];
      } else {
        assert head + COMMA + (RenderMembers(members[1..]) + (COMMA + Quote(key) + COLON + Render(value)))
            == head + COMMA + RenderMembers(members[1..]) + (COMMA + Quote(key) + COLON + Render(value));
      }
    }
  }

  lemma {:induction false} CanonicalItemsSnoc(items: seq<Value>, v: Value)
    requires Accepted(v)
    ensures CanonicalItems(items + [v]) == (AcceptedCanonical(v); CanonicalItems(items) + [Canonical(v).value])
  {
    if items == [] {
      assert items + [v] == [v];
    } else {
      assert (items + [v])[1..] == items[1..] + [v];
      CanonicalItemsSnoc(items[1..], v);
    }
  }

  /** The comma-separated texts of array items. */
  function ItemsText(items: seq<Value>): JsString { RenderItems(CanonicalItems(items)) }

  lemma ItemsTextSnoc(items: seq<Value>, v: Value)
    requires Accepted(v)
    ensures ItemsText(items + [v]) == ItemsText(items) + ((if items == [] then [] else COMMA) + CanonicalText(v))
  {
    CanonicalItemsSnoc(items, v);
    AcceptedCanonical(v);
    RenderItemsSnoc(CanonicalItems(items), Canonical(v).value);
  }

  predicate AllAccepted(keys: seq<JsString>, owner: Value) {
    AllPresent(keys, owner) && forall i :: 0 <= i < |keys| ==> Accepted(Get(owner.fields, keys[i]))
  }

  lemma {:induction false} CanonicalMembersSnoc(keys: seq<JsString>, key: JsString, owner: Value)
    requires AllAccepted(keys, owner) && HasKey(owner.fields, key) && Accepted(Get(owner.fields, key))
    ensures AllAccepted(keys + [key], owner)
    ensures CanonicalMembers(keys + [key], owner) ==
      (AcceptedCanonical(Get(owner.fields, key));
       CanonicalMembers(keys, owner) + [Member(key, Canonical(Get(owner.fields, key)).value)])
    ensures |CanonicalMembers(keys, owner)| == |keys|
  {
    hide Canonical, Accepted, Get, HasKey;
    AcceptedCanonical(Get(owner.fields, key));
    assert forall i :: 0 <= i < |keys| ==> (keys + [key])[i] == keys[i];
    if keys == [] {
      assert keys + [key] == [key];
    } else {
      AcceptedCanonical(Get(owner.fields, keys[0]));
      assert (keys + [key])[1..] == keys[1..] + [key];
      assert forall i :: 0 <= i < |keys[1..]| ==> keys[1..][i] == keys[i + 1];
      CanonicalMembersSnoc(keys[1..], key, owner);
    }
  }

  /** The comma-separated members an object renders for some of its keys. */
  function MembersText(keys: seq<JsString>, owner: Value): JsString
    requires AllAccepted(keys, owner)
  {
    RenderMembers(CanonicalMembers(keys, owner))
  }

  lemma MembersTextSnoc(keys: seq<JsString>, key: JsString, owner: Value)
    requires AllAccepted(keys, owner) && HasKey(owner.fields, key) && Accepted(Get(owner.fields, key))
    ensures AllAccepted(keys + [key], owner)
    ensures MembersText(keys + [key], owner) == MembersText(keys, owner) +
      ((if keys == [] then [] else COMMA) + Quote(key) + COLON + CanonicalText(Get(owner.fields, key)))
  {
    hide Canonical, Accepted, Get, HasKey, CanonicalMembers, RenderMembers, Quote, Render;
    CanonicalMembersSnoc(keys, key, owner);
    AcceptedCanonical(Get(owner.fields, key));
    RenderMembersSnoc(CanonicalMembers(keys, owner), key, Canonical(Get(owner.fields, key)).value);
  }

  lemma ObjectText(v: Value)
    requires v.Object? && Accepted(v) && AllAccepted(CanonicalKeys(v.fields), v)
    ensures CanonicalText(v) == LBRACE + MembersText(CanonicalKeys(v.fields), v) + RBRACE
  {
    AcceptedCanonical(v);
  }

  lemma ArrayText(v: Value)
    requires v.Array? && Accepted(v)
    ensures CanonicalText(v) == LBRACKET + ItemsText(v.items) + RBRACKET
  {
    AcceptedCanonical(v);
  }
}
