/**
 The canonical form of a plain object is decided entry by entry, whatever order its properties are in, and two
 plain objects have one canonical form exactly if their entries agree. Other modules compare objects this way
 and do not unfold the filter, the sort and the enumeration that `StableJson` follows step by step.
 */
module CanonicalObjects {
  import opened Options
  import opened StableJson
  import opened Utf16
  import Sorting

  /** The canonical form of an entry; absent when the entry is absent, undefined or dropped by JSON. */
  function EntryForm(v: Value, key: JsString): Option<Json>
    requires v.Object?
  {
    if HasKey(v.fields, key) && IsDefined(v.fields, key) then Canonical(Get(v.fields, key)) else None
  }

  /** Distinct keys, and nothing that JSON drops. */
  ghost predicate PlainObject(v: Value) {
    && v.Object? && Sorting.Distinct(Keys(v.fields))
    && forall key :: key in CanonicalKeys(v.fields) ==> Canonical(Get(v.fields, key)).Some?
  }

  lemma KeysPresent(v: Value)
    requires v.Object?
    ensures AllPresent(CanonicalKeys(v.fields), v)
  {
    var keys := CanonicalKeys(v.fields);
    forall i | 0 <= i < |keys| ensures HasKey(v.fields, keys[i]) { assert keys[i] in keys; }
  }

  /** Every present entry becomes one member. */
  lemma {:induction false} MembersAre(keys: seq<JsString>, v: Value)
    requires AllPresent(keys, v) && forall i :: 0 <= i < |keys| ==> Canonical(Get(v.fields, keys[i])).Some?
    ensures |CanonicalMembers(keys, v)| == |keys|
    ensures forall i :: 0 <= i < |keys| ==>
      CanonicalMembers(keys, v)[i] == Member(keys[i], Canonical(Get(v.fields, keys[i])).value)
  {
    hide Canonical, Get, HasKey;
    if keys == [] {
    } else {
      assert forall i :: 0 <= i < |keys[1..]| ==> keys[1..][i] == keys[i + 1];
      MembersAre(keys[1..], v);
    }
  }

  /** An entry form is present exactly for the canonical keys. */
  lemma EntryFormIff(v: Value, key: JsString)
    requires PlainObject(v)
    ensures EntryForm(v, key).Some? <==> key in CanonicalKeys(v.fields)
    ensures key in CanonicalKeys(v.fields) ==> HasKey(v.fields, key) && EntryForm(v, key) == Canonical(Get(v.fields, key))
  {
    hide Canonical;
  }

  lemma KeysAscend(v: Value)
    requires PlainObject(v)
    ensures Sorting.Ascending(CanonicalKeys(v.fields), JsonKeyLess) && Sorting.StrictOrder(JsonKeyLess)
  {
    hide Canonical;
    JsonKeyLessIsStrictOrder();
    CanonicalKeysAreSortedThenSkipped(v.fields);
    Sorting.SortDistinct(Keys(v.fields), JsonKeyLess);
    FilterAscending(SortedKeys(v.fields), DefinedIn(v.fields), JsonKeyLess);
  }

  ghost predicate SameEntries(v: Value, w: Value)
    requires v.Object? && w.Object?
  {
    forall key :: EntryForm(v, key) == EntryForm(w, key)
  }

  lemma CanonicalIs(v: Value)
    requires PlainObject(v)
    ensures AllPresent(CanonicalKeys(v.fields), v)
    ensures Canonical(v) == Some(JObject(CanonicalMembers(CanonicalKeys(v.fields), v)))
  {
    KeysPresent(v);
  }

  /** Two plain objects have one canonical form exactly when all their entries agree. */
  lemma CanonicalIffEntries(v: Value, w: Value)
    requires PlainObject(v) && PlainObject(w)
    ensures Canonical(v) == Canonical(w) <==> SameEntries(v, w)
  {
    hide Canonical, CanonicalMembers, Get, HasKey, CanonicalKeys, EntryForm, IsDefined, JsonKeyLess;
    var p, q := CanonicalKeys(v.fields), CanonicalKeys(w.fields);
    CanonicalIs(v);
    CanonicalIs(w);
    forall key ensures (EntryForm(v, key).Some? <==> key in p) && (EntryForm(w, key).Some? <==> key in q)
    {
      EntryFormIff(v, key);
      EntryFormIff(w, key);
    }
    FormsAre(v);
    FormsAre(w);
    var a, b := CanonicalMembers(p, v), CanonicalMembers(q, w);
    if a == b {
      forall key ensures EntryForm(v, key) == EntryForm(w, key) {
        if key in p {
          var i :| 0 <= i < |p| && p[i] == key;
          assert a[i] == b[i];
        }
      }
    }
    if SameEntries(v, w) {
      KeysAscend(v);
      KeysAscend(w);
      forall key ensures key in p <==> key in q { assert EntryForm(v, key) == EntryForm(w, key); }
      Sorting.AscendingUnique(p, q, JsonKeyLess);
      assert a == b;
    }
  }

  /** Each member carries the entry form of its key. */
  lemma FormsAre(v: Value)
    requires PlainObject(v)
    ensures AllPresent(CanonicalKeys(v.fields), v)
    ensures var keys := CanonicalKeys(v.fields);
      var members := CanonicalMembers(keys, v);
      |members| == |keys| && forall i :: 0 <= i < |keys| ==>
        members[i].key == keys[i] && EntryForm(v, keys[i]) == Some(members[i].value)
  {
    hide Canonical, CanonicalMembers, Get, CanonicalKeys, IsDefined, EntryForm;
    KeysPresent(v);
    var keys := CanonicalKeys(v.fields);
    forall i | 0 <= i < |keys| ensures Canonical(Get(v.fields, keys[i])).Some? { assert keys[i] in keys; }
    MembersAre(keys, v);
    forall i | 0 <= i < |keys| ensures EntryForm(v, keys[i]) == Some(CanonicalMembers(keys, v)[i].value) {
      assert keys[i] in keys;
      EntryFormIff(v, keys[i]);
    }
  }
}
