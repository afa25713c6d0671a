/**
 The overlay map: a base map with a set of removed keys and a map of changes. An overlay of an overlay is
 flattened, so a chain of any length stays one level deep.
 */
module OverlayMap {
  import opened InsertionMap
  import opened Options
  import Sorting

  // ----- the flattened state

  /** A base, the changes on top of it and the base keys that were removed. */
  datatype Layers<K, V> = Layers(base: Entries<K, V>, changes: Entries<K, V>, removed: set<K>)

  ghost predicate WellLayered<K, V>(l: Layers<K, V>) {
    && IsMap(l.base) && IsMap(l.changes)
    && l.removed <= Meaning(l.base).Keys && l.removed !! Meaning(l.changes).Keys
  }

  ghost function LayersMean<K, V>(l: Layers<K, V>): map<K, V> { (Meaning(l.base) - l.removed) + Meaning(l.changes) }

  function RemoveKey<K(==), V>(l: Layers<K, V>, key: K): Layers<K, V> {
    Layers(l.base, Drop(l.changes, key),
      if Find(l.base, key).Some? then l.removed + {key} else l.removed - {key})
  }

  function ChangeKey<K(==), V>(l: Layers<K, V>, key: K, value: V): Layers<K, V> {
    Layers(l.base, Put(l.changes, key, value), l.removed - {key})
  }

  function RemoveAll<K(==), V>(l: Layers<K, V>, keys: seq<K>): Layers<K, V> {
    if keys == [] then l else RemoveKey(RemoveAll(l, keys[..|keys| - 1]), keys[|keys| - 1])
  }

  function ChangeAll<K(==), V>(l: Layers<K, V>, changes: Entries<K, V>): Layers<K, V> {
    if changes == [] then l
    else ChangeKey(ChangeAll(l, changes[..|changes| - 1]), changes[|changes| - 1].0, changes[|changes| - 1].1)
  }

  function Combine<K(==), V>(l: Layers<K, V>, changes: Entries<K, V>, removed: seq<K>): Layers<K, V> {
    ChangeAll(RemoveAll(l, removed), changes)
  }

  lemma RemoveKeyMeans<K, V>(l: Layers<K, V>, key: K)
    requires WellLayered(l)
    ensures WellLayered(RemoveKey(l, key)) && LayersMean(RemoveKey(l, key)) == LayersMean(l) - {key}
  {
    FindMeans(l.base, key);
    DropMeans(l.changes, key);
  }

  lemma ChangeKeyMeans<K, V>(l: Layers<K, V>, key: K, value: V)
    requires WellLayered(l)
    ensures WellLayered(ChangeKey(l, key, value)) && LayersMean(ChangeKey(l, key, value)) == LayersMean(l)[key := value]
  {
    PutMeans(l.changes, key, value);
  }

  lemma {:induction false} RemoveAllMeans<K, V>(l: Layers<K, V>, keys: seq<K>)
    requires WellLayered(l)
    ensures WellLayered(RemoveAll(l, keys)) && LayersMean(RemoveAll(l, keys)) == LayersMean(l) - Sorting.Elements(keys)
  {
    hide WellLayered, LayersMean;
    if keys == [] {
    } else {
      var front := keys[..|keys| - 1];
      RemoveAllMeans(l, front);
      RemoveKeyMeans(RemoveAll(l, front), keys[|keys| - 1]);
      assert Sorting.Elements(keys) == Sorting.Elements(front) + {keys[|keys| - 1]} by { assert keys == front + [keys[|keys| - 1]]; }
    }
  }

  lemma {:induction false} ChangeAllMeans<K, V>(l: Layers<K, V>, changes: Entries<K, V>)
    requires WellLayered(l) && IsMap(changes)
    ensures WellLayered(ChangeAll(l, changes)) && LayersMean(ChangeAll(l, changes)) == LayersMean(l) + Meaning(changes)
  {
    hide WellLayered, LayersMean, IsMap;
    if changes == [] {
    } else {
      var front, last := changes[..|changes| - 1], changes[|changes| - 1];
      MeaningSnoc(changes);
      ChangeAllMeans(l, front);
      ChangeKeyMeans(ChangeAll(l, front), last.0, last.1);
    }
  }

  /** Flattening agrees with taking keys out of the map and then putting the changes in. */
  lemma CombineMeans<K, V>(l: Layers<K, V>, changes: Entries<K, V>, removed: seq<K>)
    requires WellLayered(l) && IsMap(changes)
    ensures WellLayered(Combine(l, changes, removed))
    ensures LayersMean(Combine(l, changes, removed)) == (LayersMean(l) - Sorting.Elements(removed)) + Meaning(changes)
    ensures Combine(l, changes, removed).base == l.base
  {
    hide WellLayered, LayersMean;
    RemoveAllMeans(l, removed);
    ChangeAllMeans(RemoveAll(l, removed), changes);
    BaseStays(l, changes, removed);
  }

  lemma BaseStays<K, V>(l: Layers<K, V>, changes: Entries<K, V>, removed: seq<K>)
    ensures Combine(l, changes, removed).base == l.base
  {
    RemoveBaseStays(l, removed);
    ChangeBaseStays(RemoveAll(l, removed), changes);
  }

  lemma {:induction false} RemoveBaseStays<K, V>(l: Layers<K, V>, keys: seq<K>)
    ensures RemoveAll(l, keys).base == l.base
  {
    if keys == [] {
    } else {
      RemoveBaseStays(l, keys[..|keys| - 1]);
    }
  }

  lemma {:induction false} ChangeBaseStays<K, V>(l: Layers<K, V>, changes: Entries<K, V>)
    ensures ChangeAll(l, changes).base == l.base
  {
    if changes == [] {
    } else {
      ChangeBaseStays(l, changes[..|changes| - 1]);
    }
  }

  // ----- enumeration

  function Surviving<K(==), V>(base: Entries<K, V>, changes: Entries<K, V>, removed: set<K>): seq<K> {
    if base == [] then []
    else
      var front := Surviving(base[..|base| - 1], changes, removed);
      var key := base[|base| - 1].0;
      if key in removed || Find(changes, key).Some? then front else front + [key]
  }

  /** The surviving base keys in base order, then the changed keys in the order they were changed. */
  function KeyList<K(==), V>(l: Layers<K, V>): seq<K> { Surviving(l.base, l.changes, l.removed) + Keys(l.changes) }

  lemma {:induction false} SurvivingMembers<K, V>(base: Entries<K, V>, changes: Entries<K, V>, removed: set<K>, key: K)
    requires IsMap(base) && IsMap(changes)
    ensures key in Surviving(base, changes, removed) <==>
      key in Keys(base) && key !in removed && key !in Meaning(changes)
  {
    hide IsMap, Meaning;
    if base == [] {
    } else {
      MeaningSnoc(base);
      SurvivingMembers(base[..|base| - 1], changes, removed, key);
      FindMeans(changes, base[|base| - 1].0);
      KeysSnoc(base);
    }
  }

  lemma {:induction false} SurvivingDistinct<K, V>(base: Entries<K, V>, changes: Entries<K, V>, removed: set<K>)
    requires IsMap(base) && IsMap(changes)
    ensures Sorting.Distinct(Surviving(base, changes, removed))
  {
    hide IsMap, Sorting.Distinct;
    if base == [] {
      Sorting.EmptyDistinct<K>();
    } else {
      var front, key := base[..|base| - 1], base[|base| - 1].0;
      FrontIsMap(base);
      SurvivingDistinct(front, changes, removed);
      SurvivingMembers(front, changes, removed, key);
      Sorting.DistinctSnoc(Surviving(front, changes, removed), key);
    }
  }

  /** `keys` lists every key of the map once. */
  lemma KeyListIsKeys<K(!new), V>(l: Layers<K, V>)
    requires WellLayered(l)
    ensures Sorting.Distinct(KeyList(l))
    ensures forall key :: key in KeyList(l) <==> key in LayersMean(l)
  {
    hide Meaning, Surviving;
    forall key ensures key in KeyList(l) <==> key in LayersMean(l) {
      SurvivingMembers(l.base, l.changes, l.removed, key);
      MeaningHas(l.base, key);
      MeaningHas(l.changes, key);
    }
    var first, second := Surviving(l.base, l.changes, l.removed), Keys(l.changes);
    SurvivingDistinct(l.base, l.changes, l.removed);
    forall i, j | 0 <= i < j < |first + second| ensures (first + second)[i] != (first + second)[j] {
      if i < |first| <= j {
        SurvivingMembers(l.base, l.changes, l.removed, first[i]);
        MeaningHas(l.changes, first[i]);
        assert second[j - |first|] in second;
      }
    }
  }

  lemma SameSize<K(!new), V>(l: Layers<K, V>)
    requires WellLayered(l)
    ensures |KeyList(l)| == |LayersMean(l)|
  {
    hide WellLayered, LayersMean, KeyList;
    KeyListIsKeys(l);
    Sorting.DistinctElements(KeyList(l));
    assert LayersMean(l).Keys == Sorting.Elements(KeyList(l));
    assert |LayersMean(l)| == |LayersMean(l).Keys|;
  }

  // ----- the class

  /** What an overlay may be built on. */
  datatype Base<K(==,!new), V(!new)> = Plain(entries: Entries<K, V>) | Over(overlay: OverlayMap<K, V>)

  class OverlayMap<K(==,!new), V(!new)> {
    const base: Entries<K, V>
    const changes: Entries<K, V>
    const removed: set<K>

    ghost function State(): Layers<K, V> { Layers(base, changes, removed) }

    ghost predicate Valid() { WellLayered(State()) }

    ghost function Contents(): map<K, V> { LayersMean(State()) }

    static ghost predicate ValidBase(on: Base<K, V>) {
      match on
      case Plain(entries) => IsMap(entries)
      case Over(overlay) => overlay.Valid()
    }

    static ghost function BaseContents(on: Base<K, V>): map<K, V> {
      match on
      case Plain(entries) => Meaning(entries)
      case Over(overlay) => overlay.Contents()
    }

    constructor (on: Base<K, V>, changes: Entries<K, V>, removed: seq<K>)
      requires ValidBase(on) && IsMap(changes)
      ensures Valid()
      ensures Contents() == (BaseContents(on) - Sorting.Elements(removed)) + Meaning(changes)
      ensures base == if on.Plain? then on.entries else on.overlay.base
    {
      hide WellLayered, LayersMean;
      var bottom := if on.Plain? then on.entries else on.overlay.base;
      var combinedChanges: Entries<K, V> := if on.Plain? then [] else on.overlay.changes;
      var combinedRemoved: set<K> := if on.Plain? then {} else on.overlay.removed;
      ghost var prior := Layers(bottom, combinedChanges, combinedRemoved);
      assert WellLayered(prior) && LayersMean(prior) == BaseContents(on) by {
        if on.Plain? { NothingLayered(on.entries); }
      }
      for i := 0 to |removed|
        invariant RemoveAll(prior, removed[..i]) == Layers(bottom, combinedChanges, combinedRemoved)
      {
        assert removed[..i + 1][..i] == removed[..i];
        combinedChanges := Drop(combinedChanges, removed[i]);
        if Find(bottom, removed[i]).Some? {
          combinedRemoved := combinedRemoved + {removed[i]};
        } else {
          combinedRemoved := combinedRemoved - {removed[i]};
        }
      }
      assert removed[..|removed|] == removed;
      for i := 0 to |changes|
        invariant ChangeAll(RemoveAll(prior, removed), changes[..i]) == Layers(bottom, combinedChanges, combinedRemoved)
      {
        assert changes[..i + 1][..i] == changes[..i];
        combinedRemoved := combinedRemoved - {changes[i].0};
        combinedChanges := Put(combinedChanges, changes[i].0, changes[i].1);
      }
      assert changes[..|changes|] == changes;
      CombineMeans(prior, changes, removed);
      this.base := bottom;
      this.changes := combinedChanges;
      this.removed := combinedRemoved;
    }

    method Get(key: K) returns (value: Option<V>)
      requires Valid()
      ensures value == if key in Contents() then Some(Contents()[key]) else None
    {
      FindMeans(changes, key);
      FindMeans(base, key);
      var changed := Find(changes, key);
      if changed.Some? { return changed; }
      return if key in removed then None else Find(base, key);
    }

    method Has(key: K) returns (has: bool)
      requires Valid()
      ensures has <==> key in Contents()
    {
      FindMeans(changes, key);
      FindMeans(base, key);
      return Find(changes, key).Some? || (key !in removed && Find(base, key).Some?);
    }

    method EnumerateKeys() returns (keys: seq<K>)
      requires Valid()
      ensures keys == KeyList(State()) && Sorting.Distinct(keys) && forall key :: key in keys <==> key in Contents()
    {
      hide WellLayered, LayersMean;
      keys := [];
      var emitted: set<K> := {};
      for i := 0 to |base|
        invariant keys == Surviving(base[..i], changes, removed)
        invariant forall key :: key in emitted ==> key in keys
      {
        assert base[..i + 1][..i] == base[..i];
        var key := base[i].0;
        if key in removed || Find(changes, key).Some? { continue; }
        emitted := emitted + {key};
        keys := keys + [key];
      }
      assert base[..|base|] == base;
      KeyListIsKeys(State());
      NotEmitted(State());
      for i := 0 to |changes|
        invariant keys == Surviving(base, changes, removed) + Keys(changes[..i])
      {
        var key := changes[i].0;
        KeysSnoc(changes[..i + 1]);
        assert changes[..i + 1][..i] == changes[..i];
        KeyAt(changes, i);
        assert key !in emitted;
        keys := keys + [key];
      }
      assert changes[..|changes|] == changes;
    }

    method Size() returns (size: nat)
      requires Valid()
      ensures size == |Contents()|
    {
      hide KeyList, WellLayered, LayersMean;
      var keys := EnumerateKeys();
      SameSize(State());
      size := |keys|;
    }
  }

  /** No surviving base key is a changed key, so the second pass never skips one. */
  lemma NotEmitted<K(!new), V>(l: Layers<K, V>)
    requires WellLayered(l)
    ensures forall key :: key in Surviving(l.base, l.changes, l.removed) ==> key !in Keys(l.changes)
  {
    forall key | key in Surviving(l.base, l.changes, l.removed) ensures key !in Keys(l.changes) {
      SurvivingMembers(l.base, l.changes, l.removed, key);
      MeaningHas(l.changes, key);
    }
  }

  lemma NothingLayered<K, V>(entries: Entries<K, V>)
    requires IsMap(entries)
    ensures WellLayered(Layers(entries, [], {})) && LayersMean(Layers(entries, [], {})) == Meaning(entries)
  {
    assert Keys<K, V>([]) == [];
  }

  // ----- chains

  datatype Patch<K, V> = Patch(changes: Entries<K, V>, removed: seq<K>)

  ghost function ApplyAll<K, V>(m: map<K, V>, patches: seq<Patch<K, V>>): map<K, V> {
    if patches == [] then m
    else
      var last := patches[|patches| - 1];
      (ApplyAll(m, patches[..|patches| - 1]) - Sorting.Elements(last.removed)) + Meaning(last.changes)
  }

  /** Overlaying any number of patches gives the patched map, still directly over the plain base. */
  method OverlayAll<K(==,!new), V(!new)>(entries: Entries<K, V>, patches: seq<Patch<K, V>>) returns (result: Base<K, V>)
    requires IsMap(entries) && forall i :: 0 <= i < |patches| ==> IsMap(patches[i].changes)
    ensures OverlayMap.ValidBase(result) && OverlayMap.BaseContents(result) == ApplyAll(Meaning(entries), patches)
    ensures result.Plain? ==> patches == []
    ensures result.Over? ==> result.overlay.base == entries
  {
    hide WellLayered, LayersMean, Meaning, IsMap;
    result := Plain(entries);
    for i := 0 to |patches|
      invariant OverlayMap.ValidBase(result) && OverlayMap.BaseContents(result) == ApplyAll(Meaning(entries), patches[..i])
      invariant if result.Plain? then i == 0 && result.entries == entries else result.overlay.base == entries
    {
      assert patches[..i + 1][..i] == patches[..i];
      var overlay := new OverlayMap(result, patches[i].changes, patches[i].removed);
      result := Over(overlay);
    }
    assert patches[..|patches|] == patches;
  }
}
