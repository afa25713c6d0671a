/**
 Fixed objects with plain names: their canonical key order and the framing written before an entry.

 The names of an identity's envelope are ASCII, none of them looks like an array index, and the first two characters
 decide which of two names comes first. So their canonical order is checked by comparing neighbours, and the
 text of an object with such names is its framing and its values one after the other.
 */
module Envelope {
  import opened Utf16
  import opened StableJson
  import opened OwnedWriter
  import Sorting

  // ----- the order of the envelope's keys

  /** ASCII names decided by their first two characters. */
  predicate NamedBefore(a: JsString, b: JsString) {
    && |a| >= 2 && |b| >= 2
    && (forall i :: 0 <= i < |a| ==> a[i] < 0x80) && (forall i :: 0 <= i < |b| ==> b[i] < 0x80)
    && a[0] >= 0x3A && b[0] >= 0x3A
    && (a[0] < b[0] || (a[0] == b[0] && a[1] < b[1]))
  }

  lemma NamedBeforeIsLess(a: JsString, b: JsString)
    requires NamedBefore(a, b)
    ensures JsonKeyLess(a, b)
  {
    assert !AllDigits(a) && !AllDigits(b);
    assert Step(a) == 1 && Step(b) == 1 && Step(a[1..]) == 1 && Step(b[1..]) == 1;
    assert Points(a)[0] == a[0] && Points(b)[0] == b[0];
    assert Points(a)[1..] == Points(a[1..]) && Points(b)[1..] == Points(b[1..]);
    assert Points(a[1..])[0] == a[1] && Points(b[1..])[0] == b[1];
    assert a[0] == b[0] ==> LexLess(Points(a[1..]), Points(b[1..]));
  }

  lemma {:induction false} ChainAscending(names: seq<JsString>)
    requires forall i :: 0 <= i < |names| - 1 ==> NamedBefore(names[i], names[i + 1])
    ensures Sorting.Ascending(names, JsonKeyLess)
  {
    if |names| > 1 {
      JsonKeyLessIsStrictOrder();
      ChainAscending(names[1..]);
      NamedBeforeIsLess(names[0], names[1]);
      forall j | 1 <= j < |names| ensures JsonKeyLess(names[0], names[j]) {
        assert names[1..][0] == names[1] && names[1..][j - 1] == names[j];
        if j > 1 { assert JsonKeyLess(names[1], names[j]); }
      }
      forall i, j | 1 <= i < j < |names| ensures JsonKeyLess(names[i], names[j]) {
        assert names[1..][i - 1] == names[i] && names[1..][j - 1] == names[j];
      }
    }
  }

  lemma EnvelopeDistinct(fields: seq<Field>, names: seq<JsString>)
    requires forall i :: 0 <= i < |names| - 1 ==> NamedBefore(names[i], names[i + 1])
    requires |names| == |fields| && forall k :: k in names <==> k in Keys(fields)
    ensures Sorting.Distinct(Keys(fields))
  {
    ChainAscending(names);
    JsonKeyLessIsStrictOrder();
    SameLengthDistinct(names, Keys(fields));
  }

  /** An object without undefined entries enumerates its canonical keys in the given order. */
  lemma EnvelopeKeys(fields: seq<Field>, names: seq<JsString>)
    requires forall i :: 0 <= i < |fields| ==> !fields[i].value.Undefined?
    requires forall i :: 0 <= i < |names| - 1 ==> NamedBefore(names[i], names[i + 1])
    requires |names| == |fields| && forall k :: k in names <==> k in Keys(fields)
    ensures CanonicalKeys(fields) == names
  {
    EnvelopeDistinct(fields, names);
    ChainAscending(names);
    JsonKeyLessIsStrictOrder();
    CanonicalKeysAreSortedThenSkipped(fields);
    Sorting.SortDistinct(Keys(fields), JsonKeyLess);
    var canonical := CanonicalKeys(fields);
    FilterAscending(SortedKeys(fields), DefinedIn(fields), JsonKeyLess);
    forall k | k in names ensures k in canonical {
      var i :| 0 <= i < |fields| && Keys(fields)[i] == k;
      GetIs(fields, i);
    }
    Sorting.AscendingUnique(canonical, names, JsonKeyLess);
  }

  /** A list as long as a repetition-free one with the same members has no repetitions either. */
  lemma SameLengthDistinct(a: seq<JsString>, b: seq<JsString>)
    requires Sorting.Distinct(a) && |a| == |b| && forall k :: k in a <==> k in b
    ensures Sorting.Distinct(b)
  {
    Sorting.DistinctElements(a);
    assert Sorting.Elements(a) == Sorting.Elements(b);
    Sorting.FullElementsDistinct(b);
  }

  // ----- framing

  predicate IsName(s: string) {
    |s| >= 2 && forall i :: 0 <= i < |s| ==> 'A' <= s[i] <= 'Z' || 'a' <= s[i] <= 'z'
  }

  /** The framing before an entry: brace or comma, quoted name, colon. */
  function Label(first: bool, name: string): JsString
    requires IsName(name)
  {
    (if first then LBRACE else COMMA) + ([0x22] + Ascii(name) + [0x22]) + COLON
  }

  lemma LabelIsFraming(first: bool, name: string)
    requires IsName(name)
    ensures Label(first, name) == (if first then LBRACE else COMMA) + Quote(Ascii(name)) + COLON
    ensures forall i :: 0 <= i < |Label(first, name)| ==> Label(first, name)[i] < 0x80
  {
    PlainName(name);
  }

  lemma PlainName(name: string)
    requires IsName(name)
    ensures Quote(Ascii(name)) == [0x22] + Ascii(name) + [0x22]
  {
    assert !HasEscape(Ascii(name));
    PlainBody(Ascii(name));
  }

  function Names(names: seq<string>): (r: seq<JsString>)
    requires forall i :: 0 <= i < |names| ==> IsName(names[i])
    ensures |r| == |names| && forall i :: 0 <= i < |r| ==> IsName(names[i]) && r[i] == Ascii(names[i])
  {
    seq(|names|, i requires 0 <= i < |names| => assert IsName(names[i]); Ascii(names[i]))
  }
}
