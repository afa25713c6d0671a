/**
 What the original manifest comparison compares: the canonical texts of two lists of references are equal exactly
 when the lists are, whatever order the properties of the references are in.
 */
module ManifestText {
  import opened CanonicalObjects
  import opened Manifest
  import opened Options
  import opened StableJson
  import opened StableJsonInjective
  import opened Utf16
  import Sorting

  const KEY: JsString := Ascii("key")
  const DIGEST: JsString := Ascii("digest")
  const NAMESPACE: JsString := Ascii("namespace")
  const SCHEMA_VERSION: JsString := Ascii("schemaVersion")
  const FACTS: JsString := Ascii("facts")
  const CAPABILITIES: JsString := Ascii("capabilities")

  function Strings(s: seq<JsString>): (r: seq<Value>)
    ensures |r| == |s|
  {
    seq(|s|, i requires 0 <= i < |s| => Str(s[i]))
  }

  ghost predicate Carries(v: Value, key: JsString, entry: Value)
    requires v.Object?
  {
    HasKey(v.fields, key) && Get(v.fields, key) == entry
  }

  /** A flat reference record, in any property order; absent capabilities may also be undefined. */
  ghost predicate Represents(v: Value, r: Reference) {
    && v.Object? && Sorting.Distinct(Keys(v.fields))
    && (forall key :: HasKey(v.fields, key) ==> key in {KEY, DIGEST, NAMESPACE, SCHEMA_VERSION, FACTS, CAPABILITIES})
    && Carries(v, KEY, Str(r.key)) && Carries(v, DIGEST, Str(r.digest)) && Carries(v, NAMESPACE, Str(r.namespace))
    && Carries(v, SCHEMA_VERSION, Number(r.schemaVersion)) && Carries(v, FACTS, Number(r.facts))
    && (match r.capabilities
        case None => !IsDefined(v.fields, CAPABILITIES)
        case Some(c) => Carries(v, CAPABILITIES, Array(true, Strings(c))))
  }

  lemma {:induction false} StringItems(s: seq<JsString>)
    ensures |CanonicalItems(Strings(s))| == |s|
    ensures forall i :: 0 <= i < |s| ==> CanonicalItems(Strings(s))[i] == JString(s[i])
  {
    if s == [] {
    } else {
      assert Strings(s)[1..] == Strings(s[1..]);
      StringItems(s[1..]);
    }
  }

  /** The canonical forms of the six entries. */
  lemma Forms(v: Value, r: Reference)
    requires Represents(v, r)
    ensures EntryForm(v, KEY) == Some(JString(r.key)) && EntryForm(v, DIGEST) == Some(JString(r.digest))
    ensures EntryForm(v, NAMESPACE) == Some(JString(r.namespace))
    ensures EntryForm(v, SCHEMA_VERSION) == Some(JNumber(r.schemaVersion)) && EntryForm(v, FACTS) == Some(JNumber(r.facts))
    ensures EntryForm(v, CAPABILITIES) ==
      if r.capabilities.None? then None else Some(JArray(CanonicalItems(Strings(r.capabilities.value))))
    ensures forall key :: key !in {KEY, DIGEST, NAMESPACE, SCHEMA_VERSION, FACTS, CAPABILITIES} ==> EntryForm(v, key).None?
  {
    hide Get, HasKey;
  }

  lemma RepresentsIsPlain(v: Value, r: Reference)
    requires Represents(v, r)
    ensures PlainObject(v)
  {
    hide Get, HasKey, CanonicalKeys;
    Forms(v, r);
    forall key | key in CanonicalKeys(v.fields) ensures Canonical(Get(v.fields, key)).Some? {
      assert IsDefined(v.fields, key);
      assert EntryForm(v, key) == Canonical(Get(v.fields, key));
    }
  }

  /** Two records have one canonical form exactly when they represent one reference. */
  lemma ReferenceIff(v: Value, r: Reference, w: Value, s: Reference)
    requires Represents(v, r) && Represents(w, s)
    ensures Canonical(v) == Canonical(w) <==> r == s
  {
    hide Canonical, EntryForm, CanonicalItems, Get, HasKey, PlainObject;
    RepresentsIsPlain(v, r);
    RepresentsIsPlain(w, s);
    Forms(v, r);
    Forms(w, s);
    CanonicalIffEntries(v, w);
    if SameEntries(v, w) {
      assert EntryForm(v, KEY) == EntryForm(w, KEY) && EntryForm(v, DIGEST) == EntryForm(w, DIGEST);
      assert EntryForm(v, NAMESPACE) == EntryForm(w, NAMESPACE) && EntryForm(v, FACTS) == EntryForm(w, FACTS);
      assert EntryForm(v, SCHEMA_VERSION) == EntryForm(w, SCHEMA_VERSION);
      assert EntryForm(v, CAPABILITIES) == EntryForm(w, CAPABILITIES);
      if r.capabilities.Some? {
        SameStrings(r.capabilities.value, s.capabilities.value);
      }
    }
  }

  lemma SameStrings(a: seq<JsString>, b: seq<JsString>)
    requires CanonicalItems(Strings(a)) == CanonicalItems(Strings(b))
    ensures a == b
  {
    hide CanonicalItems, Strings;
    StringItems(a);
    StringItems(b);
    assert forall i :: 0 <= i < |a| ==> JString(a[i]) == JString(b[i]);
  }

  ghost predicate AllRepresent(vs: seq<Value>, refs: seq<Reference>) {
    |vs| == |refs| && forall i :: 0 <= i < |vs| ==> Represents(vs[i], refs[i])
  }

  lemma {:induction false} ItemsAre(vs: seq<Value>)
    requires forall i :: 0 <= i < |vs| ==> Canonical(vs[i]).Some?
    ensures forall i :: 0 <= i < |vs| ==> CanonicalItems(vs)[i] == Canonical(vs[i]).value
  {
    hide Canonical;
    if vs == [] {
    } else {
      assert forall i :: 0 <= i < |vs[1..]| ==> vs[1..][i] == vs[i + 1];
      ItemsAre(vs[1..]);
    }
  }

  /** `stableJson(a) === stableJson(b)` for two manifests exactly when they are equal entry by entry. */
  lemma TextsAgreeIff(vs: seq<Value>, a: seq<Reference>, ws: seq<Value>, b: seq<Reference>)
    requires AllRepresent(vs, a) && AllRepresent(ws, b)
    ensures StableText(Array(true, vs)) == StableText(Array(true, ws)) <==> a == b
  {
    hide Canonical, Represents, StableText, CanonicalItems;
    StableTextInjective(Array(true, vs), Array(true, ws));
    ArrayForm(vs);
    ArrayForm(ws);
    forall i | 0 <= i < |vs| ensures Canonical(vs[i]).Some? { HasForm(vs[i], a[i]); }
    forall i | 0 <= i < |ws| ensures Canonical(ws[i]).Some? { HasForm(ws[i], b[i]); }
    ItemsAre(vs);
    ItemsAre(ws);
    var p, q := CanonicalItems(vs), CanonicalItems(ws);
    if |a| == |b| {
      forall i | 0 <= i < |a| ensures p[i] == q[i] <==> a[i] == b[i] { ReferenceIff(vs[i], a[i], ws[i], b[i]); }
      if p == q { assert forall i :: 0 <= i < |a| ==> p[i] == q[i]; }
      if a == b { assert forall i :: 0 <= i < |p| ==> p[i] == q[i]; }
    }
  }

  lemma ArrayForm(vs: seq<Value>)
    ensures Canonical(Array(true, vs)) == Some(JArray(CanonicalItems(vs))) && |CanonicalItems(vs)| == |vs|
  {
  }

  lemma HasForm(v: Value, r: Reference)
    requires Represents(v, r)
    ensures Canonical(v).Some?
  {
    hide Get, HasKey, CanonicalKeys;
    RepresentsIsPlain(v, r);
    CanonicalIs(v);
  }
}
