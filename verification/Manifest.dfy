/**
 The manifest fast path: one pass over the manifest decides what building, sorting and comparing the
 shard references decides, unless two shard keys tie under `localeCompare`.
 */
module Manifest {
  import opened Collation
  import opened Options
  import opened Utf16
  import Sorting
  import StableJson

  type Numeral = StableJson.Numeral

  /** Numbers are known by their text; `facts` of a shard is the number of its facts. */
  datatype Shard = Shard(
    key: JsString, digest: JsString, namespace: JsString, schemaVersion: Numeral, facts: Numeral,
    capabilities: Option<seq<JsString>>)

  datatype Reference = Reference(
    key: JsString, digest: JsString, namespace: JsString, schemaVersion: Numeral, facts: Numeral,
    capabilities: Option<seq<JsString>>)

  /** A `Map` entry; the map lists its entries in insertion order and each key once. */
  datatype Entry = Entry(key: JsString, shard: Shard)

  function EntryKey(e: Entry): JsString { e.key }

  function ReferenceKey(r: Reference): JsString { r.key }

  ghost predicate IsMap(shards: seq<Entry>) { Sorting.Distinct(Sorting.Map(shards, EntryKey)) }

  /** Every shard is stored under its own key. */
  ghost predicate Keyed(shards: seq<Entry>) { forall i :: 0 <= i < |shards| ==> shards[i].shard.key == shards[i].key }

  function ShardReference(s: Shard): Reference {
    Reference(s.key, s.digest, s.namespace, s.schemaVersion, s.facts, s.capabilities)
  }

  function EntryReference(e: Entry): Reference { ShardReference(e.shard) }

  function References(shards: seq<Entry>): (r: seq<Reference>)
    ensures |r| == |shards|
  {
    Sorting.Map(shards, EntryReference)
  }

  function Earlier(collate: Collator): (Reference, Reference) -> bool { Sorting.ByKey(ReferenceKey, Before(collate)) }

  /** Build all references, sort them by key and compare the whole list. */
  predicate Original(collate: Collator, shards: seq<Entry>, manifest: seq<Reference>) {
    Sorting.Sort(References(shards), Earlier(collate)) == manifest
  }

  lemma ReferenceAt(shards: seq<Entry>, i: nat)
    requires i < |shards|
    ensures References(shards)[i] == ShardReference(shards[i].shard)
  {
    assert References(shards)[i] == EntryReference(shards[i]);
  }

  lemma EarlierIs(collate: Collator, a: Reference, b: Reference)
    ensures Earlier(collate)(a, b) <==> collate(a.key, b.key) < 0
  {
    assert ReferenceKey(a) == a.key && ReferenceKey(b) == b.key;
  }

  // ----- when the two agree

  /** `localeCompare` tells all the shard keys apart. */
  ghost predicate NoTies(collate: Collator, shards: seq<Entry>) {
    forall i, j :: 0 <= i < j < |shards| ==> collate(shards[i].key, shards[j].key) != 0
  }

  function Lookup(shards: seq<Entry>, key: JsString): (r: Option<Shard>)
  {
    if shards == [] then None else if shards[0].key == key then Some(shards[0].shard) else Lookup(shards[1..], key)
  }

  /** The reference is exactly that of the shard stored under its key. */
  predicate Describes(shards: seq<Entry>, r: Reference) {
    var shard := Lookup(shards, r.key);
    shard.Some? && r == ShardReference(shard.value).(key := r.key)
  }

  /** What the single pass over the manifest checks. */
  ghost predicate FastMatch(collate: Collator, shards: seq<Entry>, manifest: seq<Reference>) {
    |manifest| == |shards| && FastPrefix(collate, shards, manifest, |manifest|)
  }

  ghost predicate FastPrefix(collate: Collator, shards: seq<Entry>, manifest: seq<Reference>, count: nat)
    requires count <= |manifest|
  {
    && (forall i :: 0 < i < count ==> collate(manifest[i].key, manifest[i - 1].key) > 0)
    && (forall i :: 0 <= i < count ==> Describes(shards, manifest[i]))
  }

  lemma {:induction false} LookupFinds(shards: seq<Entry>, key: JsString)
    ensures Lookup(shards, key).Some? ==> Entry(key, Lookup(shards, key).value) in shards
  {
    if shards == [] {
    } else {
      LookupFinds(shards[1..], key);
    }
  }

  lemma {:induction false} LookupHas(shards: seq<Entry>, i: nat)
    requires i < |shards| && IsMap(shards)
    ensures Lookup(shards, shards[i].key) == Some(shards[i].shard)
  {
    if i == 0 {
    } else {
      var keys, rest := Sorting.Map(shards, EntryKey), Sorting.Map(shards[1..], EntryKey);
      assert keys[0] != keys[i];
      assert rest == keys[1..];
      LookupHas(shards[1..], i - 1);
    }
  }

  /** A described reference is one of the built ones, and every built one is described. */
  lemma DescribesIsMember(shards: seq<Entry>, r: Reference)
    requires IsMap(shards) && Keyed(shards)
    ensures Describes(shards, r) <==> r in References(shards)
  {
    LookupFinds(shards, r.key);
    if Describes(shards, r) {
      var e := Entry(r.key, Lookup(shards, r.key).value);
      var i :| 0 <= i < |shards| && shards[i] == e;
      assert shards[i].shard.key == shards[i].key;
      ReferenceAt(shards, i);
    }
    if r in References(shards) {
      var i :| 0 <= i < |References(shards)| && References(shards)[i] == r;
      ReferenceAt(shards, i);
      assert shards[i].shard.key == shards[i].key;
      LookupHas(shards, i);
    }
  }

  lemma {:induction false} StepsAscend(collate: Collator, manifest: seq<Reference>, i: nat, j: nat)
    requires TotalPreorder(collate) && i < j < |manifest|
    requires forall k :: 0 < k < |manifest| ==> collate(manifest[k].key, manifest[k - 1].key) > 0
    ensures Earlier(collate)(manifest[i], manifest[j])
    decreases j
  {
    EarlierIsWeakOrder(collate);
    assert collate(manifest[j].key, manifest[j - 1].key) > 0;
    EarlierIs(collate, manifest[j - 1], manifest[j]);
    if i < j - 1 { StepsAscend(collate, manifest, i, j - 1); }
  }

  lemma ReferencesDistinct(shards: seq<Entry>)
    requires IsMap(shards) && Keyed(shards)
    ensures Sorting.Distinct(References(shards))
  {
    hide References;
    var keys := Sorting.Map(shards, EntryKey);
    forall i: nat, j: nat | i < j < |shards| ensures References(shards)[i] != References(shards)[j] {
      ReferenceAt(shards, i);
      ReferenceAt(shards, j);
      assert keys[i] != keys[j];
      assert shards[i].shard.key == shards[i].key && shards[j].shard.key == shards[j].key;
    }
  }

  /** Strictly increasing references, all of them built ones and as many of them, are the built ones. */
  lemma FastIsPermutation(collate: Collator, shards: seq<Entry>, manifest: seq<Reference>)
    requires TotalPreorder(collate) && IsMap(shards) && Keyed(shards) && FastMatch(collate, shards, manifest)
    ensures Sorting.Ascending(manifest, Earlier(collate)) && Sorting.Distinct(manifest)
    ensures forall r :: r in manifest <==> r in References(shards)
  {
    var less := Earlier(collate);
    forall i, j | 0 <= i < j < |manifest| ensures less(manifest[i], manifest[j]) && manifest[i] != manifest[j] {
      StepsAscend(collate, manifest, i, j);
      EarlierIs(collate, manifest[i], manifest[j]);
      assert !Before(collate)(manifest[i].key, manifest[i].key);
    }
    forall r | r in manifest ensures r in References(shards) { DescribesIsMember(shards, r); }
    var all := References(shards);
    ReferencesDistinct(shards);
    Sorting.DistinctElements(manifest);
    Sorting.DistinctElements(all);
    assert Sorting.Elements(manifest) <= Sorting.Elements(all);
    SubsetOfSameSize(Sorting.Elements(manifest), Sorting.Elements(all));
    forall r | r in all ensures r in manifest { assert r in Sorting.Elements(manifest); }
  }

  lemma SubsetOfSameSize<T>(a: set<T>, b: set<T>)
    requires a <= b && |a| == |b|
    ensures a == b
  {
    if x :| x in b && x !in a {
      Sorting.SubsetSize(a, b - {x});
    }
  }

  lemma SortedWithoutTies(collate: Collator, shards: seq<Entry>)
    requires TotalPreorder(collate) && IsMap(shards) && Keyed(shards) && NoTies(collate, shards)
    ensures Sorting.Ascending(Sorting.Sort(References(shards), Earlier(collate)), Earlier(collate))
  {
    hide References, Earlier;
    var all, less := References(shards), Earlier(collate);
    var sorted := Sorting.Sort(all, less);
    EarlierIsWeakOrder(collate);
    Sorting.SortSorts(all, less);
    Sorting.SortPermutes(all, less);
    ReferencesDistinct(shards);
    Sorting.DistinctMultiset(all);
    Sorting.DistinctMultiset(sorted);
    forall i, j | 0 <= i < j < |sorted| ensures less(sorted[i], sorted[j]) {
      assert sorted[i] in all && sorted[j] in all && sorted[i] != sorted[j];
      DifferentKeysApart(collate, shards, sorted[i], sorted[j]);
      assert !less(sorted[j], sorted[i]);
    }
  }

  lemma DifferentKeysApart(collate: Collator, shards: seq<Entry>, r: Reference, s: Reference)
    requires TotalPreorder(collate) && Keyed(shards) && NoTies(collate, shards)
    requires r in References(shards) && s in References(shards) && r != s
    ensures Earlier(collate)(r, s) || Earlier(collate)(s, r)
  {
    hide References;
    var a: nat :| a < |References(shards)| && References(shards)[a] == r;
    var b: nat :| b < |References(shards)| && References(shards)[b] == s;
    ReferenceAt(shards, a);
    ReferenceAt(shards, b);
    assert shards[a].shard.key == shards[a].key && shards[b].shard.key == shards[b].key;
    EarlierIs(collate, r, s);
    EarlierIs(collate, s, r);
    if a < b { assert collate(shards[a].key, shards[b].key) != 0; } else { assert collate(shards[b].key, shards[a].key) != 0; }
  }

  lemma AscendingHasNoTies(collate: Collator, shards: seq<Entry>, manifest: seq<Reference>)
    requires TotalPreorder(collate) && IsMap(shards) && Keyed(shards)
    requires Sorting.Ascending(manifest, Earlier(collate)) && forall r :: r in References(shards) ==> r in manifest
    ensures NoTies(collate, shards)
  {
    hide References, Earlier;
    var all := References(shards);
    ReferencesDistinct(shards);
    forall i: nat, j: nat | i < j < |shards| ensures collate(shards[i].key, shards[j].key) != 0 {
      assert all[i] in manifest && all[j] in manifest && all[i] != all[j];
      ReferenceAt(shards, i);
      ReferenceAt(shards, j);
      assert shards[i].shard.key == shards[i].key && shards[j].shard.key == shards[j].key;
      EarlierIs(collate, all[i], all[j]);
      EarlierIs(collate, all[j], all[i]);
    }
  }

  /** The one pass accepts exactly what build, sort and compare accepts, provided no two keys tie. */
  lemma FastIsOriginal(collate: Collator, shards: seq<Entry>, manifest: seq<Reference>)
    requires TotalPreorder(collate) && IsMap(shards) && Keyed(shards)
    ensures FastMatch(collate, shards, manifest) <==> Original(collate, shards, manifest) && NoTies(collate, shards)
  {
    hide Earlier, Describes, Before, NoTies, TotalPreorder, References, IsMap, Keyed;
    var sorted := Sorting.Sort(References(shards), Earlier(collate));
    Sorting.SortPermutes(References(shards), Earlier(collate));
    if FastMatch(collate, shards, manifest) {
      FastIsPermutation(collate, shards, manifest);
      AscendingHasNoTies(collate, shards, manifest);
      SortedWithoutTies(collate, shards);
      EarlierIsWeakOrder(collate);
      Sorting.StrictlySame(manifest, sorted, Earlier(collate));
    }
    if sorted == manifest && NoTies(collate, shards) {
      SortedWithoutTies(collate, shards);
      SortedIsFast(collate, shards, manifest);
    }
  }

  lemma EarlierIsWeakOrder(collate: Collator)
    requires TotalPreorder(collate)
    ensures Sorting.WeakOrder(Earlier(collate))
  {
    Sorting.ByKeyIsWeakOrder(ReferenceKey, Before(collate));
  }

  lemma SortedIsFast(collate: Collator, shards: seq<Entry>, manifest: seq<Reference>)
    requires TotalPreorder(collate) && IsMap(shards) && Keyed(shards)
    requires Sorting.Ascending(manifest, Earlier(collate))
    requires |manifest| == |References(shards)| && forall r :: r in manifest <==> r in References(shards)
    ensures FastMatch(collate, shards, manifest)
  {
    hide Describes;
    forall i | 0 <= i < |manifest| ensures Describes(shards, manifest[i]) { DescribesIsMember(shards, manifest[i]); }
    forall i | 0 < i < |manifest| ensures collate(manifest[i].key, manifest[i - 1].key) > 0 {
      EarlierIs(collate, manifest[i - 1], manifest[i]);
    }
  }

  /** So the two agree on every manifest exactly when no two shard keys tie. */
  lemma AgreeOnAllManifestsIff(collate: Collator, shards: seq<Entry>)
    requires TotalPreorder(collate) && IsMap(shards) && Keyed(shards)
    ensures (forall manifest :: FastMatch(collate, shards, manifest) <==> Original(collate, shards, manifest))
      <==> NoTies(collate, shards)
  {
    hide FastMatch, NoTies, TotalPreorder, IsMap, Keyed;
    forall manifest ensures FastMatch(collate, shards, manifest) <==>
      Original(collate, shards, manifest) && NoTies(collate, shards)
    {
      FastIsOriginal(collate, shards, manifest);
    }
    var sorted := Sorting.Sort(References(shards), Earlier(collate));
    assert Original(collate, shards, sorted);
  }

  // ----- the operation

  method SameCapabilities(left: Option<seq<JsString>>, right: Option<seq<JsString>>) returns (same: bool)
    ensures same <==> left == right
  {
    if left.None? || right.None? { return left == right; }
    if |left.value| != |right.value| { return false; }
    for i := 0 to |left.value|
      invariant forall k :: 0 <= k < i ==> left.value[k] == right.value[k]
    {
      if left.value[i] != right.value[i] { return false; }
    }
    assert left.value == right.value;
    return true;
  }

  method MatchesReference(shards: seq<Entry>, r: Reference) returns (matches: bool)
    ensures matches <==> Describes(shards, r)
  {
    var shard := Lookup(shards, r.key);
    if shard.None? { return false; }
    var same := SameCapabilities(r.capabilities, shard.value.capabilities);
    matches := r.digest == shard.value.digest && r.namespace == shard.value.namespace
      && r.schemaVersion == shard.value.schemaVersion && r.facts == shard.value.facts && same;
  }

  /** Plain data: a shard stored under another key falls back to the original comparison. */
  method MatchesMaterializedManifest(collate: Collator, shards: seq<Entry>, manifest: seq<Reference>) returns (matches: bool)
    requires TotalPreorder(collate) && IsMap(shards)
    ensures !Keyed(shards) ==> matches == Original(collate, shards, manifest)
    ensures Keyed(shards) ==> (matches <==> Original(collate, shards, manifest) && NoTies(collate, shards))
  {
    hide TotalPreorder, NoTies, IsMap, Describes, Original;
    for i := 0 to |shards|
      invariant forall k :: 0 <= k < i ==> shards[k].shard.key == shards[k].key
    {
      if shards[i].shard.key != shards[i].key { return Original(collate, shards, manifest); }
    }
    matches := |manifest| == |shards|;
    var previous: Option<JsString> := None;
    for i := 0 to |manifest|
      invariant previous == if i == 0 then None else Some(manifest[i - 1].key)
      invariant matches <==> (|manifest| == |shards| && FastPrefix(collate, shards, manifest, i))
    {
      var reference := manifest[i];
      if previous.Some? && collate(reference.key, previous.value) <= 0 { matches := false; }
      previous := Some(reference.key);
      var described := MatchesReference(shards, reference);
      if !described { matches := false; }
    }
    FastIsOriginal(collate, shards, manifest);
  }
}
