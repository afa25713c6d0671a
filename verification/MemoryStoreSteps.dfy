/**
 What one operation of the in-memory store keeps: the tables stay healthy, the leases stay those of the holders, a
 multiset, and a collection drops only what is neither leased nor current, oldest first, until its bounds hold.
 `MemoryStoreRuns` puts the operations together and says what this means for its readers.
 */
module MemoryStoreSteps {
  import opened InsertionMap
  import opened MemoryStore
  import opened Options
  import opened Utf16
  import Sorting

  // ----- what the store keeps

  function EntryAt(universes: Universes, h: Hold): Option<Retained> {
    var found := Find(universes, h.universe);
    if found.None? then None else Find(found.value, h.sequence)
  }

  function LeasesAt(universes: Universes, h: Hold): nat {
    if EntryAt(universes, h).Some? then EntryAt(universes, h).value.leases else 0
  }

  /** The current generation is retained and is the newest one. */
  ghost predicate Healthy(values: Generations, current: nat) {
    IsMap(values) && Find(values, current).Some? && forall s: nat :: Find(values, s).Some? ==> 0 < s <= current
  }

  ghost predicate HealthyTables(t: Tables) {
    && IsMap(t.universes)
    && (forall u: JsString :: Find(t.universes, u).Some? <==> u in t.current)
    && (forall u: JsString :: Find(t.universes, u).Some? ==> Healthy(Find(t.universes, u).value, t.current[u]))
  }

  ghost predicate Inv(st: State) {
    HealthyTables(Tables(st.universes, st.current)) && (st.recent.Some? ==> st.recent.value in st.current)
  }

  /** The leases of every generation are the holds on it. */
  ghost predicate Agree(universes: Universes, held: multiset<Hold>) { forall h :: LeasesAt(universes, h) == held[h] }

  // ----- dropping generations

  ghost predicate Idle(values: Generations, current: Option<nat>, s: nat) {
    Find(values, s).Some? && Find(values, s).value.leases == 0 && current != Some(s)
  }

  lemma {:induction false} IdleSequencesAre(values: Generations, current: Option<nat>, s: nat)
    requires IsMap(values)
    ensures s in IdleSequences(values, current) <==> Idle(values, current, s)
  {
    hide IsMap;
    if values == [] {
    } else {
      var n := |values| - 1;
      FrontIsMap(values);
      IdleSequencesAre(values[..n], current, s);
      FindSnoc(values[..n], values[n], s);
      FindHas(values[..n], values[n].0);
      assert values == values[..n] + [values[n]];
    }
  }

  lemma {:induction false} IdleSequencesDistinct(values: Generations, current: Option<nat>)
    requires IsMap(values)
    ensures Sorting.Distinct(IdleSequences(values, current))
  {
    hide IsMap, Sorting.Distinct;
    if values == [] {
      Sorting.EmptyDistinct<nat>();
    } else {
      var n := |values| - 1;
      FrontIsMap(values);
      IdleSequencesDistinct(values[..n], current);
      IdleSequencesAre(values[..n], current, values[n].0);
      FindHas(values[..n], values[n].0);
      Sorting.DistinctSnoc(IdleSequences(values[..n], current), values[n].0);
      assert IdleSequences(values[..n], current) + [] == IdleSequences(values[..n], current);
    }
  }

  /** The candidates are the idle generations, oldest first. */
  lemma CandidatesAre(values: Generations, current: Option<nat>)
    requires IsMap(values)
    ensures Sorting.Ascending(Candidates(values, current), Sorting.NatLess)
    ensures forall s: nat :: s in Candidates(values, current) <==> Idle(values, current, s)
  {
    IdleSequencesDistinct(values, current);
    Sorting.SortDistinct(IdleSequences(values, current), Sorting.NatLess);
    forall s: nat ensures s in Candidates(values, current) <==> Idle(values, current, s) { IdleSequencesAre(values, current, s); }
  }

  /** Only candidates go, oldest first, no more than needed, until the bound holds or none is left. */
  ghost predicate Trimmed(before: Generations, after: Generations, candidates: seq<nat>, maximum: nat) {
    && IsMap(after)
    && (forall s: nat :: Find(after, s).Some? ==> Find(after, s) == Find(before, s))
    && (forall s: nat :: Find(before, s).Some? && Find(after, s).None? ==> s in candidates)
    && (|after| <= maximum || forall s: nat :: s in candidates ==> Find(after, s).None?)
    && (forall s: nat, t: nat :: s in candidates && t in candidates && Find(after, s).None? && Find(after, t).Some? ==> s < t)
    && (if |before| <= maximum then after == before else |after| >= maximum)
  }

  lemma {:induction false} DropOldestTrims(values: Generations, candidates: seq<nat>, maximum: nat)
    requires IsMap(values) && Sorting.Ascending(candidates, Sorting.NatLess)
    requires forall s: nat :: s in candidates ==> Find(values, s).Some?
    ensures Trimmed(values, DropOldest(values, candidates, maximum), candidates, maximum)
    decreases |candidates|
  {
    hide IsMap, Find, Drop;
    if |values| > maximum && candidates != [] {
      var c, rest := candidates[0], candidates[1..];
      var next := Drop(values, c);
      DropMeans(values, c);
      DropLength(values, c);
      forall s: nat ensures Find(next, s) == if s == c then None else Find(values, s) { FindDrop(values, c, s); }
      assert candidates == [c] + rest;
      RestIsLater(candidates);
      DropOldestTrims(next, rest, maximum);
      TrimmedStep(values, next, DropOldest(next, rest, maximum), candidates, maximum);
    }
  }

  lemma RestIsLater(candidates: seq<nat>)
    requires candidates != [] && Sorting.Ascending(candidates, Sorting.NatLess)
    ensures Sorting.Ascending(candidates[1..], Sorting.NatLess)
    ensures forall s: nat :: s in candidates[1..] ==> candidates[0] < s
  {
    forall s: nat | s in candidates[1..] ensures candidates[0] < s {
      var i :| 0 <= i < |candidates[1..]| && candidates[1..][i] == s;
      assert Sorting.NatLess(candidates[0], candidates[i + 1]);
    }
    forall i, j | 0 <= i < j < |candidates[1..]| ensures Sorting.NatLess(candidates[1..][i], candidates[1..][j]) {
      assert Sorting.NatLess(candidates[i + 1], candidates[j + 1]);
    }
  }

  lemma TrimmedStep(before: Generations, next: Generations, after: Generations, candidates: seq<nat>, maximum: nat)
    requires candidates != [] && |before| > maximum && |next| == |before| - 1
    requires forall s: nat :: Find(next, s) == if s == candidates[0] then None else Find(before, s)
    requires forall s: nat :: s in candidates[1..] ==> candidates[0] < s
    requires Trimmed(next, after, candidates[1..], maximum)
    ensures Trimmed(before, after, candidates, maximum)
  {
    hide IsMap, Find;
    assert candidates == [candidates[0]] + candidates[1..];
  }

  // ----- evicting universes

  /** Only universes that are neither recent nor leased go, until the bound holds or none is left. */
  ghost predicate Evicted(before: Tables, after: Tables, recent: Option<JsString>, maximum: nat) {
    && HealthyTables(after)
    && (forall u: JsString :: Find(after.universes, u).Some? ==>
          Find(after.universes, u) == Find(before.universes, u) && u in before.current && after.current[u] == before.current[u])
    && (forall u: JsString :: Find(before.universes, u).Some? && Find(after.universes, u).None? ==>
          recent != Some(u) && !HasLease(Find(before.universes, u).value))
    && (|after.universes| <= maximum || forall i :: 0 <= i < |after.universes| ==> Exempt(after.universes[i], recent))
    && (|before.universes| <= maximum ==> after == before)
  }

  lemma {:induction false} EvictFromEvicts(t: Tables, recent: Option<JsString>, maximum: nat, i: nat)
    requires HealthyTables(t) && i <= |t.universes|
    requires forall k :: 0 <= k < i ==> Exempt(t.universes[k], recent)
    ensures Evicted(t, EvictFrom(t, recent, maximum, i), recent, maximum)
    decreases |t.universes| - i
  {
    hide HealthyTables, Exempt;
    if i < |t.universes| && |t.universes| > maximum {
      if Exempt(t.universes[i], recent) {
        EvictFromEvicts(t, recent, maximum, i + 1);
      } else {
        var u := t.universes[i].0;
        var next := Tables(t.universes[..i] + t.universes[i + 1..], t.current - {u});
        OneEvicted(t, next, i);
        EvictFromEvicts(next, recent, maximum, i);
        EvictedStep(t, next, EvictFrom(next, recent, maximum, i), recent, maximum, i);
      }
    } else {
      NothingEvicted(t, recent, maximum);
    }
  }

  lemma NothingEvicted(t: Tables, recent: Option<JsString>, maximum: nat)
    requires HealthyTables(t)
    requires |t.universes| <= maximum || forall k :: 0 <= k < |t.universes| ==> Exempt(t.universes[k], recent)
    ensures Evicted(t, t, recent, maximum)
  {
  }

  lemma OneEvicted(t: Tables, next: Tables, i: nat)
    requires HealthyTables(t) && i < |t.universes|
    requires next == Tables(t.universes[..i] + t.universes[i + 1..], t.current - {t.universes[i].0})
    ensures HealthyTables(next) && Find(t.universes, t.universes[i].0) == Some(t.universes[i].1)
    ensures forall v: JsString :: Find(next.universes, v) == if v == t.universes[i].0 then None else Find(t.universes, v)
  {
    hide IsMap, Find, Drop, Healthy;
    var u := t.universes[i].0;
    RemoveAtIsDrop(t.universes, i);
    DropMeans(t.universes, u);
    FindAt(t.universes, i);
    forall v: JsString ensures Find(next.universes, v) == if v == u then None else Find(t.universes, v) { FindDrop(t.universes, u, v); }
  }

  lemma EvictedStep(t: Tables, next: Tables, after: Tables, recent: Option<JsString>, maximum: nat, i: nat)
    requires HealthyTables(t) && i < |t.universes| && |t.universes| > maximum && !Exempt(t.universes[i], recent)
    requires next == Tables(t.universes[..i] + t.universes[i + 1..], t.current - {t.universes[i].0})
    requires Find(t.universes, t.universes[i].0) == Some(t.universes[i].1)
    requires forall v: JsString :: Find(next.universes, v) == if v == t.universes[i].0 then None else Find(t.universes, v)
    requires Evicted(next, after, recent, maximum)
    ensures Evicted(t, after, recent, maximum)
  {
    hide IsMap, Find, HasLease, Healthy;
  }

  function ExemptOnly(universes: Universes, recent: Option<JsString>): Universes {
    if universes == [] then []
    else (if Exempt(universes[0], recent) then [universes[0]] else []) + ExemptOnly(universes[1..], recent)
  }

  /** Eviction goes from the least recently activated universe on, and stops as soon as the bound holds. */
  lemma {:induction false} EvictsOldestFirst(t: Tables, recent: Option<JsString>, maximum: nat, i: nat) returns (k: nat)
    requires i <= |t.universes|
    ensures i <= k <= |t.universes|
    ensures EvictFrom(t, recent, maximum, i).universes == t.universes[..i] + ExemptOnly(t.universes[i..k], recent) + t.universes[k..]
    ensures k < |t.universes| ==> |EvictFrom(t, recent, maximum, i).universes| <= maximum
    ensures |t.universes| > maximum ==> |EvictFrom(t, recent, maximum, i).universes| >= maximum
    decreases |t.universes| - i
  {
    hide Exempt, ExemptOnly;
    if i >= |t.universes| || |t.universes| <= maximum {
      NoneExempt(t.universes, i, recent);
      return i;
    }
    if Exempt(t.universes[i], recent) {
      k := EvictsOldestFirst(t, recent, maximum, i + 1);
      ExemptKept(t.universes, i, k, recent);
    } else {
      var next := Tables(t.universes[..i] + t.universes[i + 1..], t.current - {t.universes[i].0});
      var j := EvictsOldestFirst(next, recent, maximum, i);
      k := j + 1;
      IdleEvicted(t.universes, i, j, recent);
    }
  }

  lemma NoneExempt(u: Universes, i: nat, recent: Option<JsString>)
    requires i <= |u|
    ensures u == u[..i] + ExemptOnly(u[i..i], recent) + u[i..]
  {
    assert u[i..i] == [];
  }

  lemma ExemptKept(u: Universes, i: nat, k: nat, recent: Option<JsString>)
    requires i < k <= |u| && Exempt(u[i], recent)
    ensures u[..i + 1] + ExemptOnly(u[i + 1..k], recent) + u[k..] == u[..i] + ExemptOnly(u[i..k], recent) + u[k..]
  {
    var rest := ExemptOnly(u[i + 1..k], recent);
    assert u[i..k][1..] == u[i + 1..k];
    assert ExemptOnly(u[i..k], recent) == [u[i]] + rest;
    assert u[..i + 1] == u[..i] + [u[i]];
  }

  lemma IdleEvicted(u: Universes, i: nat, j: nat, recent: Option<JsString>)
    requires i < |u| && i <= j < |u| && !Exempt(u[i], recent)
    ensures var next := u[..i] + u[i + 1..];
      next[..i] + ExemptOnly(next[i..j], recent) + next[j..] == u[..i] + ExemptOnly(u[i..j + 1], recent) + u[j + 1..]
  {
    var next := u[..i] + u[i + 1..];
    assert u[i..j + 1][1..] == u[i + 1..j + 1] == next[i..j];
    assert ExemptOnly(u[i..j + 1], recent) == ExemptOnly(next[i..j], recent);
    assert next[..i] == u[..i] && next[j..] == u[j + 1..];
  }

  // ----- collecting

  /** Entries only disappear: with no lease, and together with their whole universe if they were current. */
  ghost predicate Shrunk(before: State, after: State) {
    && (forall h :: EntryAt(after.universes, h).Some? ==> EntryAt(after.universes, h) == EntryAt(before.universes, h))
    && (forall h :: EntryAt(before.universes, h).Some? && EntryAt(after.universes, h).None? ==>
          LeasesAt(before.universes, h) == 0 && (h.universe !in after.current || after.current[h.universe] != h.sequence))
    && (forall u: JsString :: u in after.current ==> u in before.current && after.current[u] == before.current[u])
    && after.recent == before.recent && after.disposed == before.disposed
  }

  ghost predicate GenerationsSettled(config: Config, st: State, universe: JsString) {
    Find(st.universes, universe).Some? ==>
      var values := Find(st.universes, universe).value;
      |values| <= config.maximumRetained || forall s: nat :: !Idle(values, CurrentOf(st, universe), s)
  }

  ghost predicate UniversesSettled(config: Config, st: State) {
    config.maximumUniverses.Some? ==>
      |st.universes| <= config.maximumUniverses.value || forall i :: 0 <= i < |st.universes| ==> Exempt(st.universes[i], st.recent)
  }

  /** Each bound holds, or every remaining candidate is exempt from it. */
  ghost predicate Settled(config: Config, st: State, universe: JsString) {
    GenerationsSettled(config, st, universe) && UniversesSettled(config, st)
  }

  lemma TrimKeeps(st: State, universe: JsString, maximum: nat)
    requires Inv(st) && Find(st.universes, universe).Some?
    ensures var values := Find(st.universes, universe).value;
      var kept := DropOldest(values, Candidates(values, CurrentOf(st, universe)), maximum);
      var after := st.(universes := Put(st.universes, universe, kept));
      && Inv(after) && Shrunk(st, after) && Find(after.universes, universe) == Some(kept)
      && (|kept| <= maximum || forall s: nat :: !Idle(kept, CurrentOf(after, universe), s))
  {
    hide IsMap, Find, Drop, Put, DropOldest, Candidates;
    var values := Find(st.universes, universe).value;
    var current := CurrentOf(st, universe);
    var candidates := Candidates(values, current);
    var kept := DropOldest(values, candidates, maximum);
    CandidatesAre(values, current);
    DropOldestTrims(values, candidates, maximum);
    PutMeans(st.universes, universe, kept);
    forall u: JsString ensures Find(Put(st.universes, universe, kept), u) == if u == universe then Some(kept) else Find(st.universes, u) {
      FindPut(st.universes, universe, kept, u);
    }
  }

  lemma ExemptLeases(values: Generations, s: nat)
    requires Find(values, s).Some? && Find(values, s).value.leases > 0
    ensures HasLease(values)
  {
    var i := FindIndex(values, s);
  }

  lemma EvictKeeps(st: State, maximum: nat)
    requires Inv(st)
    ensures var t := EvictFrom(Tables(st.universes, st.current), st.recent, maximum, 0);
      var after := st.(universes := t.universes, current := t.current);
      && Inv(after) && Shrunk(st, after)
      && (|after.universes| <= maximum || forall i :: 0 <= i < |after.universes| ==> Exempt(after.universes[i], st.recent))
      && forall u: JsString :: Find(after.universes, u).Some? ==> Find(after.universes, u) == Find(st.universes, u)
  {
    hide IsMap, Find, HasLease, EvictFrom;
    EvictFromEvicts(Tables(st.universes, st.current), st.recent, maximum, 0);
    var t := EvictFrom(Tables(st.universes, st.current), st.recent, maximum, 0);
    forall h | EntryAt(st.universes, h).Some? && EntryAt(t.universes, h).None? ensures LeasesAt(st.universes, h) == 0 {
      if LeasesAt(st.universes, h) > 0 { ExemptLeases(Find(st.universes, h.universe).value, h.sequence); }
    }
  }

  lemma ShrunkTwice(a: State, b: State, c: State)
    requires Shrunk(a, b) && Shrunk(b, c) && Inv(c)
    ensures Shrunk(a, c)
  {
    hide Find, IsMap, HealthyTables;
    forall h | EntryAt(a.universes, h).Some? && EntryAt(c.universes, h).None?
      ensures LeasesAt(a.universes, h) == 0 && (h.universe !in c.current || c.current[h.universe] != h.sequence)
    {
      assert EntryAt(b.universes, h).Some? || EntryAt(b.universes, h).None?;
    }
  }

  /** Collecting keeps the invariant, drops nothing leased or current, and settles the bounds. */
  lemma CollectKeeps(config: Config, st: State, universe: JsString)
    requires Inv(st)
    ensures Inv(Collect(config, st, universe)) && Shrunk(st, Collect(config, st, universe))
    ensures Find(st.universes, universe).Some? ==> Settled(config, Collect(config, st, universe), universe)
  {
    hide IsMap, Find, Put, DropOldest, Candidates, EvictFrom, Inv, Shrunk, Exempt;
    if Find(st.universes, universe).Some? {
      TrimKeeps(st, universe, config.maximumRetained);
      var values := Find(st.universes, universe).value;
      var kept := DropOldest(values, Candidates(values, CurrentOf(st, universe)), config.maximumRetained);
      var trimmed := st.(universes := Put(st.universes, universe, kept));
      if config.maximumUniverses.Some? {
        EvictKeeps(trimmed, config.maximumUniverses.value);
        ShrunkTwice(st, trimmed, Collect(config, st, universe));
        if Find(Collect(config, st, universe).universes, universe).Some? {
          SameCurrent(trimmed, Collect(config, st, universe), universe);
        }
      }
    } else {
      assert Shrunk(st, st) by { ShrunkSelf(st); }
    }
  }

  lemma ShrunkSelf(st: State)
    ensures Shrunk(st, st)
  {
  }

  lemma SameCurrent(before: State, after: State, universe: JsString)
    requires Shrunk(before, after) && Inv(after) && Find(after.universes, universe).Some?
    ensures CurrentOf(after, universe) == CurrentOf(before, universe)
  {
  }

  /** Collecting one universe leaves another as it is, or evicts it. */
  lemma CollectOther(config: Config, st: State, universe: JsString, other: JsString)
    requires Inv(st) && other != universe && Find(Collect(config, st, universe).universes, other).Some?
    ensures Find(Collect(config, st, universe).universes, other) == Find(st.universes, other)
    ensures CurrentOf(Collect(config, st, universe), other) == CurrentOf(st, other)
  {
    hide IsMap, Put, DropOldest, Candidates, EvictFrom, Shrunk, Exempt;
    CollectKeeps(config, st, universe);
    SameCurrent(st, Collect(config, st, universe), other);
    if Find(st.universes, universe).Some? {
      TrimKeeps(st, universe, config.maximumRetained);
      var values := Find(st.universes, universe).value;
      var kept := DropOldest(values, Candidates(values, CurrentOf(st, universe)), config.maximumRetained);
      FindPut(st.universes, universe, kept, other);
      if config.maximumUniverses.Some? {
        EvictKeeps(st.(universes := Put(st.universes, universe, kept)), config.maximumUniverses.value);
      }
    }
  }

  lemma CollectAgrees(config: Config, st: State, universe: JsString, held: multiset<Hold>)
    requires Inv(st) && Agree(st.universes, held)
    ensures Agree(Collect(config, st, universe).universes, held)
  {
    hide Collect, Inv, Find;
    CollectKeeps(config, st, universe);
    var after := Collect(config, st, universe);
    forall h ensures LeasesAt(after.universes, h) == held[h] {
      assert LeasesAt(st.universes, h) == held[h];
      assert EntryAt(after.universes, h).Some? || EntryAt(after.universes, h).None?;
    }
  }

  // ----- operations

  lemma SetLeasesAt(universes: Universes, h: Hold, change: int, k: Hold)
    requires Present(universes, h) && LeasesAt(universes, h) + change >= 0
    ensures EntryAt(SetLeases(universes, h, change), k) ==
      if k == h then Some(EntryAt(universes, h).value.(leases := LeasesAt(universes, h) + change)) else EntryAt(universes, k)
  {
    hide Put, Find;
    var values := Find(universes, h.universe).value;
    var r := Find(values, h.sequence).value;
    var r' := r.(leases := r.leases + change);
    FindPut(universes, h.universe, Put(values, h.sequence, r'), k.universe);
    FindPut(values, h.sequence, r', k.sequence);
  }

  lemma SetLeasesHealthy(st: State, h: Hold, change: int)
    requires Inv(st)
    ensures Inv(st.(universes := SetLeases(st.universes, h, change)))
  {
    hide Put, Find, IsMap;
    if Present(st.universes, h) {
      var values := Find(st.universes, h.universe).value;
      var r := Find(values, h.sequence).value;
      var r' := r.(leases := if r.leases + change < 0 then 0 else r.leases + change);
      PutMeans(values, h.sequence, r');
      PutMeans(st.universes, h.universe, Put(values, h.sequence, r'));
      forall u: JsString ensures Find(Put(st.universes, h.universe, Put(values, h.sequence, r')), u) ==
        if u == h.universe then Some(Put(values, h.sequence, r')) else Find(st.universes, u)
      {
        FindPut(st.universes, h.universe, Put(values, h.sequence, r'), u);
      }
      forall s: nat ensures Find(Put(values, h.sequence, r'), s) == if s == h.sequence then Some(r') else Find(values, s) {
        FindPut(values, h.sequence, r', s);
      }
    }
  }

  lemma SetLeasesAgrees(universes: Universes, h: Hold, held: multiset<Hold>)
    requires Agree(universes, held)
    ensures Present(universes, h) ==> Agree(SetLeases(universes, h, 1), held + multiset{h})
    ensures h in held ==> Present(universes, h) && Agree(SetLeases(universes, h, -1), held - multiset{h})
  {
    hide SetLeases, Find;
    assert LeasesAt(universes, h) == held[h];
    if Present(universes, h) {
      forall k ensures LeasesAt(SetLeases(universes, h, 1), k) == (held + multiset{h})[k] {
        SetLeasesAt(universes, h, 1, k);
        assert LeasesAt(universes, k) == held[k];
      }
    }
    if h in held {
      forall k ensures LeasesAt(SetLeases(universes, h, -1), k) == (held - multiset{h})[k] {
        SetLeasesAt(universes, h, -1, k);
        assert LeasesAt(universes, k) == held[k];
      }
    }
  }

  /** Moving a universe to the end keeps every other one. */
  lemma ActivatedAt(st: State, universe: JsString, values: Generations, u: JsString)
    requires IsMap(st.universes)
    ensures IsMap(Activated(st, universe, values).universes)
    ensures Find(Activated(st, universe, values).universes, u) == if u == universe then Some(values) else Find(st.universes, u)
  {
    hide IsMap, Find, Drop;
    DropMeans(st.universes, universe);
    FindDrop(st.universes, universe, u);
    FindSnoc(Drop(st.universes, universe), (universe, values), u);
    FindDrop(st.universes, universe, universe);
    FindHas(Drop(st.universes, universe), universe);
    SnocIsMap(Drop(st.universes, universe), (universe, values));
  }

  lemma CommitPlacesNew(config: Config, st: State, tx: Transaction)
    requires Inv(st) && CommitStep(config, st, tx).1
    ensures var placed := Placed(st, tx);
      && CommitStep(config, st, tx).0 == Collect(config, placed, tx.universe)
      && Inv(placed) && Find(placed.universes, tx.universe).Some?
      && EntryAt(st.universes, Hold(tx.universe, tx.sequence)).None?
      && forall h :: EntryAt(placed.universes, h) ==
           if h == Hold(tx.universe, tx.sequence) then Some(Retained(tx.id, 0)) else EntryAt(st.universes, h)
  {
    hide Find, IsMap, Put, Drop, Collect;
    var found := Find(st.universes, tx.universe);
    var old1 := if found.Some? then found.value else [];
    var values := Put(old1, tx.sequence, Retained(tx.id, 0));
    var placed := Placed(st, tx);
    assert IsMap(old1) by { if found.None? { EmptyIsMap<nat, Retained>(); } }
    PutMeans(old1, tx.sequence, Retained(tx.id, 0));
    forall s: nat ensures Find(values, s) == if s == tx.sequence then Some(Retained(tx.id, 0)) else Find(old1, s) {
      FindPut(old1, tx.sequence, Retained(tx.id, 0), s);
    }
    forall s: nat ensures found.None? ==> Find(old1, s).None? { FindEmpty<nat, Retained>(s); }
    forall u: JsString ensures Find(placed.universes, u) == if u == tx.universe then Some(values) else Find(st.universes, u) {
      ActivatedAt(st, tx.universe, values, u);
    }
    ActivatedAt(st, tx.universe, values, tx.universe);
    forall s: nat | EntryAt(st.universes, Hold(tx.universe, s)).Some? ensures s < tx.sequence { }
    forall s: nat | Find(values, s).Some? ensures 0 < s <= tx.sequence {
      if s != tx.sequence { assert EntryAt(st.universes, Hold(tx.universe, s)).Some?; }
    }
  }

  lemma EmptyIsMap<K, V>()
    ensures IsMap<K, V>([])
  {
  }

  lemma FindEmpty<K, V>(key: K)
    ensures Find<K, V>([], key).None?
  {
  }

  /** The committed generation put in place, before anything is collected. */
  function Placed(st: State, tx: Transaction): State {
    var found := Find(st.universes, tx.universe);
    Activated(st.(current := st.current[tx.universe := tx.sequence]), tx.universe,
      Put(if found.Some? then found.value else [], tx.sequence, Retained(tx.id, 0)))
  }

  lemma CommitKeeps(config: Config, st: State, tx: Transaction, held: multiset<Hold>)
    requires Inv(st) && Agree(st.universes, held)
    ensures var after := CommitStep(config, st, tx).0;
      && Inv(after) && Agree(after.universes, held)
      && (CommitStep(config, st, tx).1 ==> Settled(config, after, tx.universe))
  {
    hide Inv, Collect, Find, Settled, Placed, CommitStep;
    if CommitStep(config, st, tx).1 {
      CommitPlacesNew(config, st, tx);
      var placed := Placed(st, tx);
      assert Agree(placed.universes, held) by {
        forall h ensures LeasesAt(placed.universes, h) == held[h] { assert LeasesAt(st.universes, h) == held[h]; }
      }
      CollectKeeps(config, placed, tx.universe);
      CollectAgrees(config, placed, tx.universe, held);
    } else {
      FailedCommit(config, st, tx);
    }
  }

  lemma FailedCommit(config: Config, st: State, tx: Transaction)
    requires !CommitStep(config, st, tx).1
    ensures CommitStep(config, st, tx).0 == st
  {
  }

  lemma OpenKeeps(st: State, universe: JsString, generation: Option<JsString>, held: multiset<Hold>)
    requires Inv(st) && Agree(st.universes, held)
    ensures var after := OpenStep(st, universe, generation);
      && Inv(after.0)
      && Agree(after.0.universes, if after.1.Some? then held + multiset{after.1.value} else held)
  {
    hide IsMap, Find, Drop, Put, SetLeases, Healthy;
    var after := OpenStep(st, universe, generation);
    if after.1.Some? {
      var h := after.1.value;
      LocatedHold(st, universe, generation);
      SetLeasesHealthy(st, h, 1);
      SetLeasesAgrees(st.universes, h, held);
      LocatedStays(st, universe, generation);
      var leased := st.(universes := SetLeases(st.universes, h, 1));
      var values := Find(leased.universes, universe).value;
      forall u: JsString ensures Find(after.0.universes, u) == Find(leased.universes, u) { ActivatedAt(leased, universe, values, u); }
      ActivatedAt(leased, universe, values, universe);
    }
  }

  lemma {:induction false} AcquireAllKeeps(st: State, holds: seq<Hold>, held: multiset<Hold>)
    requires Inv(st) && Agree(st.universes, held) && AllPresent(st.universes, holds)
    ensures Inv(st.(universes := AcquireAll(st.universes, holds)))
    ensures Agree(AcquireAll(st.universes, holds), held + multiset(holds))
    decreases |holds|
  {
    hide Inv, Agree, SetLeases, Present;
    if holds == [] {
      assert held + multiset(holds) == held;
    } else {
      var next := st.(universes := SetLeases(st.universes, holds[0], 1));
      assert Present(st.universes, holds[0]);
      SetLeasesHealthy(st, holds[0], 1);
      SetLeasesAgrees(st.universes, holds[0], held);
      forall k ensures Present(next.universes, k) <==> Present(st.universes, k) { SetLeasesPresent(st.universes, holds[0], 1, k); }
      AcquireAllKeeps(next, holds[1..], held + multiset{holds[0]});
      assert holds == [holds[0]] + holds[1..];
      assert held + multiset{holds[0]} + multiset(holds[1..]) == held + multiset(holds);
    }
  }

  lemma {:induction false} LocateAllPresent(st: State, wanted: seq<(JsString, JsString)>)
    requires LocateAll(st, wanted).Some?
    ensures AllPresent(st.universes, LocateAll(st, wanted).value)
  {
    hide Locate, Present;
    if wanted == [] {
    } else {
      LocateAllPresent(st, wanted[..|wanted| - 1]);
      LocatedHold(st, wanted[|wanted| - 1].0, Some(wanted[|wanted| - 1].1));
    }
  }

  lemma {:induction false} ReleaseKeeps(config: Config, st: State, holds: seq<Hold>, held: multiset<Hold>)
    requires Inv(st) && Agree(st.universes, held) && multiset(holds) <= held
    ensures var after := ReleaseStep(config, st, holds);
      && Inv(after) && Agree(after.universes, held - multiset(holds)) && after.disposed == st.disposed
      && forall k :: 0 <= k < |holds| ==> Settled(config, after, holds[k].universe)
  {
    hide Inv, Agree, SetLeases, Collect, Settled, Present;
    if holds == [] {
      assert held - multiset(holds) == held;
    } else {
      var n := |holds| - 1;
      var last := holds[n];
      assert holds == holds[..n] + [last];
      assert multiset(holds) == multiset(holds[..n]) + multiset{last};
      ReleaseKeeps(config, st, holds[..n], held);
      var before := ReleaseStep(config, st, holds[..n]);
      var left := held - multiset(holds[..n]);
      assert last in left;
      SetLeasesHealthy(before, last, -1);
      SetLeasesAgrees(before.universes, last, left);
      SetLeasesPresent(before.universes, last, -1, last);
      var dropped := before.(universes := SetLeases(before.universes, last, -1));
      assert Find(dropped.universes, last.universe).Some? by { PresentUniverse(dropped.universes, last); }
      CollectKeeps(config, dropped, last.universe);
      CollectAgrees(config, dropped, last.universe, left - multiset{last});
      assert Collect(config, dropped, last.universe).disposed == dropped.disposed;
      assert left - multiset{last} == held - multiset(holds);
      forall k | 0 <= k < n ensures Settled(config, Collect(config, dropped, last.universe), holds[k].universe) {
        assert Settled(config, before, holds[..n][k].universe);
        SettledStays(config, before, last, holds[k].universe);
      }
    }
  }

  /** Giving up a lease and collecting its universe leaves every settled universe settled. */
  lemma SettledStays(config: Config, before: State, h: Hold, universe: JsString)
    requires Inv(before) && Inv(before.(universes := SetLeases(before.universes, h, -1))) && Settled(config, before, universe)
    requires var dropped := before.(universes := SetLeases(before.universes, h, -1));
      Settled(config, Collect(config, dropped, h.universe), h.universe)
    ensures var dropped := before.(universes := SetLeases(before.universes, h, -1));
      Settled(config, Collect(config, dropped, h.universe), universe)
  {
    hide Inv, SetLeases, Collect, Find, UniversesSettled;
    var dropped := before.(universes := SetLeases(before.universes, h, -1));
    var after := Collect(config, dropped, h.universe);
    if universe != h.universe && Find(after.universes, universe).Some? {
      SetLeasesOther(before.universes, h, -1, universe);
      CollectOther(config, dropped, h.universe, universe);
      assert Find(after.universes, universe) == Find(before.universes, universe);
      assert CurrentOf(after, universe) == CurrentOf(before, universe);
      assert GenerationsSettled(config, after, universe);
    }
  }

  lemma PresentUniverse(universes: Universes, h: Hold)
    requires Present(universes, h)
    ensures Find(universes, h.universe).Some?
  {
  }

  // ----- what is committed

  /** A transaction is committed exactly when it is valid and carries the sequence after the current one. */
  lemma CommitIff(config: Config, st: State, tx: Transaction)
    requires Inv(st)
    ensures CommitStep(config, st, tx).1 <==>
      !st.disposed && tx.valid && tx.sequence == 1 + if tx.universe in st.current then st.current[tx.universe] else 0
    ensures !CommitStep(config, st, tx).1 ==> CommitStep(config, st, tx).0 == st
  {
    hide IsMap, Find, Collect, Put, Drop;
  }

  /** Collecting never evicts the most recent universe, nor drops its current generation. */
  lemma CollectKeepsRecent(config: Config, st: State, universe: JsString)
    requires Inv(st) && st.recent == Some(universe) && Find(st.universes, universe).Some?
    ensures var after := Collect(config, st, universe);
      && after.recent == Some(universe) && Find(after.universes, universe).Some? && CurrentOf(after, universe) == CurrentOf(st, universe)
  {
    hide IsMap, Put, DropOldest, Candidates, EvictFrom, Shrunk, HasLease, Find;
    CollectKeeps(config, st, universe);
    TrimKeeps(st, universe, config.maximumRetained);
    var values := Find(st.universes, universe).value;
    var kept := DropOldest(values, Candidates(values, CurrentOf(st, universe)), config.maximumRetained);
    var trimmed := st.(universes := Put(st.universes, universe, kept));
    if config.maximumUniverses.Some? {
      EvictFromEvicts(Tables(trimmed.universes, trimmed.current), st.recent, config.maximumUniverses.value, 0);
    }
    SameCurrent(st, Collect(config, st, universe), universe);
    assert Collect(config, st, universe).recent == st.recent by { CollectKeepsFlags(config, st, universe); }
  }

  lemma CollectKeepsFlags(config: Config, st: State, universe: JsString)
    ensures Collect(config, st, universe).recent == st.recent && Collect(config, st, universe).disposed == st.disposed
  {
  }

  /** What was committed is the current generation of the most recent universe, under its id and without a lease. */
  lemma CommittedIsCurrent(config: Config, st: State, tx: Transaction)
    requires Inv(st) && CommitStep(config, st, tx).1
    ensures var after := CommitStep(config, st, tx).0;
      && after.recent == Some(tx.universe) && CurrentOf(after, tx.universe) == Some(tx.sequence)
      && EntryAt(after.universes, Hold(tx.universe, tx.sequence)) == Some(Retained(tx.id, 0))
  {
    hide Inv, Find, Collect, CommitStep;
    CommitPlacesNew(config, st, tx);
    var placed := Placed(st, tx);
    CollectKeeps(config, placed, tx.universe);
    CollectKeepsRecent(config, placed, tx.universe);
    var h := Hold(tx.universe, tx.sequence);
    assert EntryAt(Collect(config, placed, tx.universe).universes, h).Some? || EntryAt(Collect(config, placed, tx.universe).universes, h).None?;
  }

  // ----- what is opened

  /** The opened generation is retained with the id that was asked for, and no newer one is. */
  lemma OpenedIsAsked(st: State, universe: JsString, id: JsString, h: Hold, k: Hold)
    requires Inv(st) && id != [] && Answers(st, universe, Some(id), Some(h))
    ensures h.universe == universe && EntryAt(st.universes, h).Some? && EntryAt(st.universes, h).value.id == id
    ensures k.universe == universe && EntryAt(st.universes, k).Some? && EntryAt(st.universes, k).value.id == id ==> k.sequence <= h.sequence
  {
    hide Find, IsMap;
    var values := GenerationsOf(st, universe);
    var i :| 0 <= i < |values| && values[i].0 == h.sequence && values[i].1.id == id;
    FindAt(values, i);
    if k.universe == universe && EntryAt(st.universes, k).Some? { var j := FindIndex(values, k.sequence); }
  }

  /** A generation is absent exactly when none with the id is retained. */
  lemma NotOpenedIff(st: State, universe: JsString, id: JsString, hold: Option<Hold>)
    requires Inv(st) && id != [] && Answers(st, universe, Some(id), hold)
    ensures hold.None? <==> forall s: nat ::
      EntryAt(st.universes, Hold(universe, s)).Some? ==> EntryAt(st.universes, Hold(universe, s)).value.id != id
  {
    hide Find, IsMap;
    var values := GenerationsOf(st, universe);
    forall s: nat | EntryAt(st.universes, Hold(universe, s)).Some? && EntryAt(st.universes, Hold(universe, s)).value.id == id
      ensures hold.Some?
    {
      var j := FindIndex(values, s);
      assert values[j].0 > 0 && values[j].1.id == id;
    }
    if hold.Some? { OpenedIsAsked(st, universe, id, hold.value, hold.value); }
  }

  // ----- the bound on universes between collections

  lemma ExemptByKey(universes: Universes, recent: Option<JsString>)
    requires IsMap(universes)
    ensures (forall i :: 0 <= i < |universes| ==> Exempt(universes[i], recent)) <==>
      forall u: JsString :: Find(universes, u).Some? ==> recent == Some(u) || HasLease(Find(universes, u).value)
  {
    hide IsMap, HasLease, Find;
    if forall i :: 0 <= i < |universes| ==> Exempt(universes[i], recent) {
      forall u: JsString | Find(universes, u).Some? ensures recent == Some(u) || HasLease(Find(universes, u).value) {
        var i := FindIndex(universes, u);
        assert Exempt(universes[i], recent);
      }
    }
    if forall u: JsString :: Find(universes, u).Some? ==> recent == Some(u) || HasLease(Find(universes, u).value) {
      forall i | 0 <= i < |universes| ensures Exempt(universes[i], recent) { FindAt(universes, i); }
    }
  }

  lemma SetLeasesLength(universes: Universes, h: Hold, change: int)
    ensures |SetLeases(universes, h, change)| == |universes|
  {
    if Present(universes, h) {
      var values := Find(universes, h.universe).value;
      var r := Find(values, h.sequence).value;
      var kept := Put(values, h.sequence, r.(leases := if r.leases + change < 0 then 0 else r.leases + change));
      FindHas(universes, h.universe);
      PutKeys(universes, h.universe, kept);
      assert |Keys(Put(universes, h.universe, kept))| == |Keys(universes)|;
    }
  }

  /** What opening leaves of the tables: as many universes, the opened one leased and the others as they were. */
  lemma OpenedTables(st: State, universe: JsString, generation: Option<JsString>)
    requires Inv(st) && OpenStep(st, universe, generation).1.Some?
    ensures var after := OpenStep(st, universe, generation).0;
      && IsMap(after.universes) && |after.universes| == |st.universes| && after.recent == Some(universe)
      && forall u: JsString :: u != universe ==> Find(after.universes, u) == Find(st.universes, u)
  {
    hide IsMap, Find, Drop, SetLeases, Healthy;
    var h := OpenStep(st, universe, generation).1.value;
    LocatedHold(st, universe, generation);
    LocatedStays(st, universe, generation);
    SetLeasesHealthy(st, h, 1);
    SetLeasesLength(st.universes, h, 1);
    var leased := st.(universes := SetLeases(st.universes, h, 1));
    var values := Find(leased.universes, universe).value;
    DropLength(leased.universes, universe);
    forall u: JsString | u != universe ensures Find(OpenStep(st, universe, generation).0.universes, u) == Find(st.universes, u) {
      ActivatedAt(leased, universe, values, u);
      SetLeasesOther(st.universes, h, 1, u);
    }
    ActivatedAt(leased, universe, values, universe);
  }

  /** What a caller can check: the bound holds, or the universe that was most recent stays exempt. */
  ghost predicate OpensWithinBound(config: Config, st: State, universe: JsString) {
    || config.maximumUniverses.None? || |st.universes| <= config.maximumUniverses.value
    || st.recent.None? || st.recent.value == universe
    || (Find(st.universes, st.recent.value).Some? && HasLease(Find(st.universes, st.recent.value).value))
  }

  /** Opening does not collect; it leaves the universes settled exactly when it was called within the bound. */
  lemma OpenSettlesIff(config: Config, st: State, universe: JsString, generation: Option<JsString>)
    requires Inv(st) && UniversesSettled(config, st) && OpenStep(st, universe, generation).1.Some?
    ensures UniversesSettled(config, OpenStep(st, universe, generation).0) <==> OpensWithinBound(config, st, universe)
  {
    hide IsMap, Find, OpenStep, HasLease, Exempt, Healthy;
    OpenedTables(st, universe, generation);
    ExemptByKey(st.universes, st.recent);
    ExemptByKey(OpenStep(st, universe, generation).0.universes, Some(universe));
  }

  /** Taking leases unsettles nothing. */
  lemma {:induction false} AcquireAllSettled(config: Config, st: State, holds: seq<Hold>)
    requires Inv(st) && UniversesSettled(config, st) && AllPresent(st.universes, holds)
    ensures UniversesSettled(config, st.(universes := AcquireAll(st.universes, holds)))
    decreases |holds|
  {
    hide Inv, SetLeases, Present, UniversesSettled;
    if holds == [] {
    } else {
      var next := st.(universes := SetLeases(st.universes, holds[0], 1));
      assert Present(st.universes, holds[0]);
      SetLeasesHealthy(st, holds[0], 1);
      LeaseSettled(config, st, holds[0]);
      forall k ensures Present(next.universes, k) <==> Present(st.universes, k) { SetLeasesPresent(st.universes, holds[0], 1, k); }
      AcquireAllSettled(config, next, holds[1..]);
    }
  }

  lemma LeaseSettled(config: Config, st: State, h: Hold)
    requires Inv(st) && UniversesSettled(config, st) && Present(st.universes, h)
    ensures UniversesSettled(config, st.(universes := SetLeases(st.universes, h, 1)))
  {
    hide IsMap, Find, SetLeases, HasLease, Exempt, Healthy;
    var leased := SetLeases(st.universes, h, 1);
    SetLeasesHealthy(st, h, 1);
    SetLeasesLength(st.universes, h, 1);
    ExemptByKey(st.universes, st.recent);
    ExemptByKey(leased, st.recent);
    forall u: JsString | Find(leased, u).Some? && u != h.universe ensures Find(leased, u) == Find(st.universes, u) {
      SetLeasesOther(st.universes, h, 1, u);
    }
    SetLeasesAt(st.universes, h, 1, h);
    assert EntryAt(leased, h).Some? && EntryAt(leased, h).value.leases > 0;
    ExemptLeases(Find(leased, h.universe).value, h.sequence);
  }
}
