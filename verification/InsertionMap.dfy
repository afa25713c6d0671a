/**
 A JavaScript `Map`: its entries in insertion order, each key once.

 Setting a key that is present replaces its value in place, and a new key goes to the end; deleting a key keeps
 the order of the others. The lemmas say what each operation means for looking up a key, that it keeps the keys
 distinct, and how it changes the size, so that the tables of a store can be followed without unfolding them. What
 the entries mean when their order is forgotten is a map.
 */
module InsertionMap {
  import opened Options
  import Sorting

  type Entries<K, V> = seq<(K, V)>

  function Keys<K, V>(m: Entries<K, V>): (r: seq<K>)
    ensures |r| == |m|
  {
    seq(|m|, i requires 0 <= i < |m| => m[i].0)
  }

  ghost predicate IsMap<K, V>(m: Entries<K, V>) { Sorting.Distinct(Keys(m)) }

  /** What the entries mean when their order is forgotten. */
  function Meaning<K, V>(m: Entries<K, V>): map<K, V> {
    if m == [] then map[] else Meaning(m[1..])[m[0].0 := m[0].1]
  }

  function Find<K(==), V>(m: Entries<K, V>, key: K): Option<V> {
    if m == [] then None else if m[0].0 == key then Some(m[0].1) else Find(m[1..], key)
  }

  /** `set`: an existing key keeps its place. */
  function Put<K(==), V>(m: Entries<K, V>, key: K, value: V): Entries<K, V> {
    if m == [] then [(key, value)]
    else if m[0].0 == key then [(key, value)] + m[1..] else [m[0]] + Put(m[1..], key, value)
  }

  /** `delete`. */
  function Drop<K(==), V>(m: Entries<K, V>, key: K): Entries<K, V> {
    if m == [] then [] else if m[0].0 == key then m[1..] else [m[0]] + Drop(m[1..], key)
  }

  // ----- laws

  lemma KeyAt<K, V>(m: Entries<K, V>, i: nat)
    requires i < |m|
    ensures Keys(m)[i] == m[i].0 && m[i].0 in Keys(m)
  {
    assert Keys(m)[i] == m[i].0;
  }

  lemma KeysCons<K, V>(m: Entries<K, V>)
    requires m != []
    ensures Keys(m) == [m[0].0] + Keys(m[1..])
  {
  }

  lemma Uncons<K, V>(m: Entries<K, V>)
    requires m != []
    ensures IsMap(m) <==> IsMap(m[1..]) && m[0].0 !in Keys(m[1..])
  {
    KeysCons(m);
    Sorting.DistinctCons(Keys(m));
  }

  lemma KeysSnoc<K, V>(m: Entries<K, V>)
    requires m != []
    ensures Keys(m) == Keys(m[..|m| - 1]) + [m[|m| - 1].0]
  {
  }

  lemma FrontIsMap<K, V>(m: Entries<K, V>)
    requires m != [] && IsMap(m)
    ensures IsMap(m[..|m| - 1]) && m[|m| - 1].0 !in Keys(m[..|m| - 1])
  {
    var all, front := Keys(m), Keys(m[..|m| - 1]);
    forall i, j | 0 <= i < j < |front| ensures front[i] != front[j] { assert all[i] != all[j]; }
    forall i | 0 <= i < |front| ensures front[i] != m[|m| - 1].0 { assert all[i] != all[|m| - 1]; }
  }

  lemma {:induction false} MeaningSnoc<K, V>(m: Entries<K, V>)
    requires m != [] && IsMap(m)
    ensures IsMap(m[..|m| - 1])
    ensures Meaning(m) == Meaning(m[..|m| - 1])[m[|m| - 1].0 := m[|m| - 1].1]
  {
    hide IsMap;
    var n := |m| - 1;
    FrontIsMap(m);
    if n == 0 {
    } else {
      Uncons(m);
      MeaningSnoc(m[1..]);
      assert m[1..][..n - 1] == m[..n][1..] && m[1..][n - 1] == m[n];
      KeysCons(m[..n]);
    }
  }

  lemma {:induction false} MeaningHas<K, V>(m: Entries<K, V>, key: K)
    ensures key in Meaning(m) <==> key in Keys(m)
  {
    if m == [] {
    } else {
      KeysCons(m);
      MeaningHas(m[1..], key);
    }
  }

  lemma {:induction false} FindMeans<K, V>(m: Entries<K, V>, key: K)
    requires IsMap(m)
    ensures Find(m, key) == if key in Meaning(m) then Some(Meaning(m)[key]) else None
  {
    if m == [] {
    } else {
      Uncons(m);
      FindMeans(m[1..], key);
    }
  }

  lemma {:induction false} PutKeys<K, V>(m: Entries<K, V>, key: K, value: V)
    ensures Keys(Put(m, key, value)) == if key in Keys(m) then Keys(m) else Keys(m) + [key]
  {
    hide Meaning, IsMap;
    if m == [] {
    } else {
      PutKeys(m[1..], key, value);
      KeysCons(m);
      if m[0].0 != key { KeysCons([m[0]] + Put(m[1..], key, value)); }
    }
  }

  lemma {:induction false} PutMeans<K, V>(m: Entries<K, V>, key: K, value: V)
    requires IsMap(m)
    ensures IsMap(Put(m, key, value)) && Meaning(Put(m, key, value)) == Meaning(m)[key := value]
  {
    hide Keys, IsMap;
    if m != [] {
      var r := Put(m, key, value);
      Uncons(m);
      Uncons(r);
      if m[0].0 == key {
        assert r[1..] == m[1..];
      } else {
        PutMeans(m[1..], key, value);
        PutKeys(m[1..], key, value);
        assert r[1..] == Put(m[1..], key, value);
      }
    } else {
      assert [(key, value)][1..] == [];
      OneIsMap(key, value);
    }
  }

  lemma OneIsMap<K, V>(key: K, value: V)
    ensures IsMap([(key, value)])
  {
  }

  lemma {:induction false} DropKeys<K, V>(m: Entries<K, V>, key: K, k: K)
    requires IsMap(m)
    ensures k in Keys(Drop(m, key)) <==> k in Keys(m) && k != key
  {
    hide Meaning, IsMap, Keys;
    if m == [] {
    } else {
      Uncons(m);
      KeysCons(m);
      if m[0].0 != key {
        DropKeys(m[1..], key, k);
        KeysCons([m[0]] + Drop(m[1..], key));
        assert ([m[0]] + Drop(m[1..], key))[1..] == Drop(m[1..], key);
      }
    }
  }

  lemma {:induction false} DropMeans<K, V>(m: Entries<K, V>, key: K)
    requires IsMap(m)
    ensures IsMap(Drop(m, key)) && Meaning(Drop(m, key)) == Meaning(m) - {key}
  {
    hide Keys, IsMap;
    if m == [] {
    } else {
      Uncons(m);
      MeaningHas(m[1..], m[0].0);
      if m[0].0 != key {
        var r := Drop(m, key);
        DropMeans(m[1..], key);
        DropKeys(m[1..], key, m[0].0);
        Uncons(r);
        assert r[1..] == Drop(m[1..], key);
      }
    }
  }

  // ----- lookups after an update

  lemma {:induction false} FindHas<K, V>(m: Entries<K, V>, key: K)
    ensures Find(m, key).Some? <==> key in Keys(m)
  {
    if m == [] {
    } else {
      KeysCons(m);
      FindHas(m[1..], key);
    }
  }

  lemma {:induction false} FindPut<K, V>(m: Entries<K, V>, key: K, value: V, k: K)
    ensures Find(Put(m, key, value), k) == if k == key then Some(value) else Find(m, k)
  {
    if m != [] && m[0].0 != key { FindPut(m[1..], key, value, k); }
  }

  lemma {:induction false} FindDrop<K, V>(m: Entries<K, V>, key: K, k: K)
    requires IsMap(m)
    ensures Find(Drop(m, key), k) == if k == key then None else Find(m, k)
  {
    hide IsMap, Keys;
    if m == [] {
    } else {
      Uncons(m);
      FindHas(m[1..], m[0].0);
      if m[0].0 != key { FindDrop(m[1..], key, k); }
    }
  }

  lemma {:induction false} FindSnoc<K, V>(m: Entries<K, V>, e: (K, V), k: K)
    ensures Find(m + [e], k) == if Find(m, k).Some? then Find(m, k) else if k == e.0 then Some(e.1) else None
  {
    if m == [] {
    } else {
      assert (m + [e])[1..] == m[1..] + [e];
      FindSnoc(m[1..], e, k);
    }
  }

  lemma {:induction false} FindAt<K, V>(m: Entries<K, V>, i: nat)
    requires IsMap(m) && i < |m|
    ensures Find(m, m[i].0) == Some(m[i].1)
  {
    if i == 0 {
    } else {
      Uncons(m);
      assert Keys(m[1..])[i - 1] == m[i].0;
      FindAt(m[1..], i - 1);
    }
  }

  lemma {:induction false} FindIndex<K, V>(m: Entries<K, V>, key: K) returns (i: nat)
    requires Find(m, key).Some?
    ensures i < |m| && m[i] == (key, Find(m, key).value)
  {
    if m[0].0 == key { return 0; }
    var j := FindIndex(m[1..], key);
    i := j + 1;
  }

  lemma DropEmpty<K, V>(key: K)
    ensures Drop<K, V>([], key) == []
  {
  }

  lemma {:induction false} DropLength<K, V>(m: Entries<K, V>, key: K)
    ensures |Drop(m, key)| == |m| - if Find(m, key).Some? then 1 else 0
  {
    if m != [] && m[0].0 != key { DropLength(m[1..], key); }
  }

  lemma SnocIsMap<K, V>(m: Entries<K, V>, e: (K, V))
    requires IsMap(m) && e.0 !in Keys(m)
    ensures IsMap(m + [e])
  {
    assert Keys(m + [e]) == Keys(m) + [e.0];
    Sorting.DistinctSnoc(Keys(m), e.0);
  }

  lemma {:induction false} RemoveAtIsDrop<K, V>(m: Entries<K, V>, i: nat)
    requires IsMap(m) && i < |m|
    ensures m[..i] + m[i + 1..] == Drop(m, m[i].0)
  {
    if i == 0 {
    } else {
      Uncons(m);
      assert Keys(m[1..])[i - 1] == m[i].0;
      RemoveAtIsDrop(m[1..], i - 1);
      assert m[..i] + m[i + 1..] == [m[0]] + (m[1..][..i - 1] + m[1..][i..]);
    }
  }
}
