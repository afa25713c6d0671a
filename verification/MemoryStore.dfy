/**
 The in-memory analysis store: what each operation does to the retained generations and their leases, insertion
 order included, since eviction goes by it. A reader holds generations by universe and sequence number;
 `MemoryStoreSteps` proves what each operation keeps, and `MemoryStoreRuns` what every run promises.
 */
module MemoryStore {
  import opened InsertionMap
  import opened Options
  import opened Utf16
  import Sorting

  datatype Retained = Retained(id: JsString, leases: nat)

  type Generations = Entries<nat, Retained>

  type Universes = Entries<JsString, Generations>

  datatype State = State(universes: Universes, current: map<JsString, nat>, recent: Option<JsString>, disposed: bool)

  datatype Config = Config(maximumRetained: nat, maximumUniverses: Option<nat>)

  /** One lease: a generation of a universe. */
  datatype Hold = Hold(universe: JsString, sequence: nat)

  /** `valid` stands for every check of the transaction but that of its sequence number. */
  datatype Transaction = Transaction(universe: JsString, sequence: nat, id: JsString, valid: bool)

  const EMPTY: State := State([], map[], None, false)

  // ----- collecting

  function IdleSequences(values: Generations, current: Option<nat>): seq<nat> {
    if values == [] then []
    else
      var last := values[|values| - 1];
      IdleSequences(values[..|values| - 1], current) + if current != Some(last.0) && last.1.leases == 0 then [last.0] else []
  }

  /** The generations that are neither current nor leased, oldest first. */
  function Candidates(values: Generations, current: Option<nat>): seq<nat> {
    Sorting.Sort(IdleSequences(values, current), Sorting.NatLess)
  }

  function DropOldest(values: Generations, candidates: seq<nat>, maximum: nat): Generations
    decreases |candidates|
  {
    if |values| <= maximum || candidates == [] then values
    else DropOldest(Drop(values, candidates[0]), candidates[1..], maximum)
  }

  predicate HasLease(values: Generations) { exists i :: 0 <= i < |values| && values[i].1.leases > 0 }

  predicate Exempt(e: (JsString, Generations), recent: Option<JsString>) { recent == Some(e.0) || HasLease(e.1) }

  datatype Tables = Tables(universes: Universes, current: map<JsString, nat>)

  /** Visiting the universes in insertion order from position i. */
  function EvictFrom(t: Tables, recent: Option<JsString>, maximum: nat, i: nat): Tables
    decreases |t.universes| - i
  {
    if i >= |t.universes| || |t.universes| <= maximum then t
    else if Exempt(t.universes[i], recent) then EvictFrom(t, recent, maximum, i + 1)
    else EvictFrom(
      Tables(t.universes[..i] + t.universes[i + 1..], t.current - {t.universes[i].0}), recent, maximum, i)
  }

  function CurrentOf(st: State, universe: JsString): Option<nat> {
    if universe in st.current then Some(st.current[universe]) else None
  }

  function Collect(config: Config, st: State, universe: JsString): State {
    var values := Find(st.universes, universe);
    if values.None? then st
    else
      var kept := DropOldest(values.value, Candidates(values.value, CurrentOf(st, universe)), config.maximumRetained);
      var universes := Put(st.universes, universe, kept);
      if config.maximumUniverses.None? then st.(universes := universes)
      else
        var t := EvictFrom(Tables(universes, st.current), st.recent, config.maximumUniverses.value, 0);
        st.(universes := t.universes, current := t.current)
  }

  // ----- operations

  function Activated(st: State, universe: JsString, values: Generations): State {
    st.(universes := Drop(st.universes, universe) + [(universe, values)], recent := Some(universe))
  }

  /** `currentValue`'s sequence; zero is no generation. */
  function CurrentSequence(st: State, universe: JsString): nat {
    if universe in st.current && st.current[universe] != 0
      && Find(st.universes, universe).Some? && Find(Find(st.universes, universe).value, st.current[universe]).Some?
    then st.current[universe] else 0
  }

  /** Commits exactly the valid transaction that carries the next sequence number. */
  function CommitStep(config: Config, st: State, tx: Transaction): (State, bool) {
    if st.disposed || !tx.valid || tx.sequence != CurrentSequence(st, tx.universe) + 1 then (st, false)
    else
      var found := Find(st.universes, tx.universe);
      var values := Put(if found.Some? then found.value else [], tx.sequence, Retained(tx.id, 0));
      (Collect(config, Activated(st.(current := st.current[tx.universe := tx.sequence]), tx.universe, values), tx.universe), true)
  }

  /** The highest sequence retained under the id; zero is none. */
  function HighestWith(values: Generations, id: JsString): nat {
    if values == [] then 0
    else
      var rest := HighestWith(values[1..], id);
      if values[0].1.id == id && values[0].0 > rest then values[0].0 else rest
  }

  /** `retained`: the named generation, or the current one. */
  function Locate(st: State, universe: JsString, generation: Option<JsString>): Option<Hold> {
    var found := Find(st.universes, universe);
    var sequence: nat :=
      if generation.Some? && generation.value != [] then
        if found.Some? then HighestWith(found.value, generation.value) else 0
      else if universe in st.current then st.current[universe] else 0;
    if sequence == 0 || found.None? || Find(found.value, sequence).None? then None else Some(Hold(universe, sequence))
  }

  // ----- which generation is meant

  predicate Named(generation: Option<JsString>) { generation.Some? && generation.value != [] }

  /** Some retained generation has the id. */
  ghost predicate HasId(values: Generations, id: JsString) {
    exists i :: 0 <= i < |values| && values[i].0 > 0 && values[i].1.id == id
  }

  /** A generation with the id, of the highest sequence among those with it. */
  ghost predicate Newest(values: Generations, id: JsString, sequence: nat) {
    && (exists i :: 0 <= i < |values| && values[i].0 == sequence && values[i].1.id == id)
    && forall i :: 0 <= i < |values| && values[i].1.id == id ==> values[i].0 <= sequence
  }

  ghost function GenerationsOf(st: State, universe: JsString): Generations {
    if Find(st.universes, universe).Some? then Find(st.universes, universe).value else []
  }

  /** A named generation is the newest one retained under the id, an unnamed one the current one; absent if there is none. */
  ghost predicate Answers(st: State, universe: JsString, generation: Option<JsString>, hold: Option<Hold>) {
    var values := GenerationsOf(st, universe);
    && (hold.Some? ==> hold.value.universe == universe)
    && (Named(generation) ==> (hold.Some? <==> HasId(values, generation.value)))
    && (Named(generation) && hold.Some? ==> Newest(values, generation.value, hold.value.sequence))
    && (!Named(generation) ==> (hold.Some? <==> universe in st.current && st.current[universe] > 0 && Find(values, st.current[universe]).Some?))
    && (!Named(generation) && hold.Some? ==> hold.value.sequence == st.current[universe])
  }

  lemma {:induction false} HighestIsNewest(values: Generations, id: JsString)
    ensures HighestWith(values, id) == 0 <==> !HasId(values, id)
    ensures HighestWith(values, id) > 0 ==> Newest(values, id, HighestWith(values, id))
  {
    if values == [] {
    } else {
      var rest, highest := values[1..], HighestWith(values, id);
      HighestIsNewest(rest, id);
      assert forall i :: 0 <= i < |rest| ==> rest[i] == values[i + 1];
      assert forall i :: 0 < i < |values| ==> values[i] == rest[i - 1];
      if highest > 0 && highest == HighestWith(rest, id) {
        var i :| 0 <= i < |rest| && rest[i].0 == highest && rest[i].1.id == id;
        assert values[i + 1].0 == highest && values[i + 1].1.id == id;
      }
      if highest > 0 && highest != HighestWith(rest, id) { assert values[0].0 == highest && values[0].1.id == id; }
      if HasId(values, id) {
        var i :| 0 <= i < |values| && values[i].0 > 0 && values[i].1.id == id;
        if i > 0 { assert rest[i - 1].0 > 0 && rest[i - 1].1.id == id; }
      }
      if HighestWith(rest, id) == 0 && highest > 0 {
        forall i | 0 <= i < |values| && values[i].1.id == id ensures values[i].0 <= highest {
          if i > 0 { assert rest[i - 1].1.id == id; }
        }
      }
    }
  }

  lemma LocateAnswers(st: State, universe: JsString, generation: Option<JsString>)
    ensures Answers(st, universe, generation, Locate(st, universe, generation))
  {
    hide Find, HighestWith;
    var values := GenerationsOf(st, universe);
    if Named(generation) {
      HighestIsNewest(values, generation.value);
      NothingHighest(generation.value);
      if Locate(st, universe, generation).Some? || HighestWith(values, generation.value) > 0 {
        var sequence := HighestWith(values, generation.value);
        var i :| 0 <= i < |values| && values[i].0 == sequence && values[i].1.id == generation.value;
        FindHas(values, sequence);
        assert Keys(values)[i] == sequence;
      }
    } else if universe in st.current {
      NothingFound(st.current[universe]);
    }
  }

  lemma NothingFound(sequence: nat)
    ensures Find<nat, Retained>([], sequence).None?
  {
  }

  lemma NothingHighest(id: JsString)
    ensures HighestWith([], id) == 0
  {
  }

  lemma {:induction false} LocateAllAnswers(st: State, wanted: seq<(JsString, JsString)>)
    ensures var holds := LocateAll(st, wanted);
      && (holds.Some? ==> |holds.value| == |wanted|)
      && (holds.Some? ==> forall i :: 0 <= i < |wanted| ==> Answers(st, wanted[i].0, Some(wanted[i].1), Some(holds.value[i])))
      && (holds.None? ==> exists i :: 0 <= i < |wanted| && Answers(st, wanted[i].0, Some(wanted[i].1), None))
  {
    hide Answers, Locate;
    if wanted == [] {
    } else {
      var n := |wanted| - 1;
      LocateAllAnswers(st, wanted[..n]);
      LocateAnswers(st, wanted[n].0, Some(wanted[n].1));
      if LocateAll(st, wanted[..n]).None? {
        var i :| 0 <= i < n && Answers(st, wanted[..n][i].0, Some(wanted[..n][i].1), None);
        assert wanted[i] == wanted[..n][i];
      }
    }
  }

  /** The most recently activated universe is listed last, and the others keep their order. */
  lemma ActivatedIsLast(st: State, universe: JsString, values: Generations) returns (k: nat)
    requires Find(st.universes, universe).Some?
    requires IsMap(st.universes)
    ensures k < |st.universes| && st.universes[k].0 == universe
    ensures Activated(st, universe, values).universes == st.universes[..k] + st.universes[k + 1..] + [(universe, values)]
    ensures Activated(st, universe, values).recent == Some(universe)
  {
    hide IsMap;
    k := FindIndex(st.universes, universe);
    RemoveAtIsDrop(st.universes, k);
  }

  predicate Present(universes: Universes, h: Hold) {
    Find(universes, h.universe).Some? && Find(Find(universes, h.universe).value, h.sequence).Some?
  }

  /** The same generation with another lease count; a generation that is gone has none to change. */
  function SetLeases(universes: Universes, h: Hold, change: int): Universes {
    if !Present(universes, h) then universes
    else
      var values := Find(universes, h.universe).value;
      var r := Find(values, h.sequence).value;
      Put(universes, h.universe, Put(values, h.sequence, r.(leases := if r.leases + change < 0 then 0 else r.leases + change)))
  }

  function OpenStep(st: State, universe: JsString, generation: Option<JsString>): (State, Option<Hold>) {
    var hold := Locate(st, universe, generation);
    if st.disposed || hold.None? then (st, None)
    else
      var universes := SetLeases(st.universes, hold.value, 1);
      LocatedStays(st, universe, generation);
      (Activated(st.(universes := universes), universe, Find(universes, universe).value), hold)
  }

  function AcquireAll(universes: Universes, holds: seq<Hold>): Universes
    decreases |holds|
  {
    if holds == [] then universes else AcquireAll(SetLeases(universes, holds[0], 1), holds[1..])
  }

  function DropAll(universes: Universes, holds: seq<Hold>): Universes
    decreases |holds|
  {
    if holds == [] then universes else DropAll(SetLeases(universes, holds[0], -1), holds[1..])
  }

  /** The holds a snapshot set needs; absent when some generation is not retained. */
  function LocateAll(st: State, wanted: seq<(JsString, JsString)>): Option<seq<Hold>> {
    if wanted == [] then Some([])
    else
      var front := LocateAll(st, wanted[..|wanted| - 1]);
      var last := Locate(st, wanted[|wanted| - 1].0, Some(wanted[|wanted| - 1].1));
      if front.None? || last.None? then None else Some(front.value + [last.value])
  }

  /** All generations are leased, or the state is as before. */
  function SnapshotSetStep(st: State, wanted: seq<(JsString, JsString)>): (State, Option<seq<Hold>>) {
    var holds := LocateAll(st, wanted);
    if st.disposed || holds.None? then (st, None)
    else (st.(universes := AcquireAll(st.universes, holds.value)), holds)
  }

  /** Each hold in turn gives up its lease and its universe is collected. */
  function ReleaseStep(config: Config, st: State, holds: seq<Hold>): State {
    if holds == [] then st
    else
      var before := ReleaseStep(config, st, holds[..|holds| - 1]);
      var last := holds[|holds| - 1];
      Collect(config, before.(universes := SetLeases(before.universes, last, -1)), last.universe)
  }

  function DisposeStep(st: State): State {
    if st.disposed then st else st.(disposed := true, current := map[], universes := [])
  }

  // ----- what a failed snapshot set undoes

  lemma {:induction false} PutSame<K, V>(m: Entries<K, V>, key: K)
    requires Find(m, key).Some?
    ensures Put(m, key, Find(m, key).value) == m
  {
    if m[0].0 != key { PutSame(m[1..], key); }
  }

  lemma {:induction false} PutTwice<K, V>(m: Entries<K, V>, key: K, a: V, b: V)
    ensures Put(Put(m, key, a), key, b) == Put(m, key, b)
  {
    if m != [] && m[0].0 != key { PutTwice(m[1..], key, a, b); }
  }

  lemma {:induction false} PutCommutes<K, V>(m: Entries<K, V>, k: K, a: V, l: K, b: V)
    requires k != l && Find(m, k).Some? && Find(m, l).Some?
    ensures Put(Put(m, k, a), l, b) == Put(Put(m, l, b), k, a)
  {
    if m[0].0 != k && m[0].0 != l { PutCommutes(m[1..], k, a, l, b); }
  }

  lemma SetLeasesPresent(universes: Universes, h: Hold, change: int, k: Hold)
    ensures Present(SetLeases(universes, h, change), k) <==> Present(universes, k)
  {
    if Present(universes, h) {
      var values := Find(universes, h.universe).value;
      var r := Find(values, h.sequence).value;
      var r' := r.(leases := if r.leases + change < 0 then 0 else r.leases + change);
      FindPut(universes, h.universe, Put(values, h.sequence, r'), k.universe);
      FindPut(values, h.sequence, r', k.sequence);
    }
  }

  lemma SetLeasesOther(universes: Universes, h: Hold, change: int, universe: JsString)
    requires h.universe != universe
    ensures Find(SetLeases(universes, h, change), universe) == Find(universes, universe)
  {
    if Present(universes, h) {
      var values := Find(universes, h.universe).value;
      var r := Find(values, h.sequence).value;
      FindPut(universes, h.universe, Put(values, h.sequence, r.(leases := if r.leases + change < 0 then 0 else r.leases + change)), universe);
    }
  }

  lemma SetLeasesCommutes(universes: Universes, h: Hold, a: int, k: Hold, b: int)
    requires h.universe != k.universe && Present(universes, h) && Present(universes, k)
    ensures SetLeases(SetLeases(universes, h, a), k, b) == SetLeases(SetLeases(universes, k, b), h, a)
  {
    hide Put;
    SetLeasesOther(universes, h, a, k.universe);
    SetLeasesOther(universes, k, b, h.universe);
    var p, q := Find(universes, h.universe).value, Find(universes, k.universe).value;
    var r, s := Find(p, h.sequence).value, Find(q, k.sequence).value;
    PutCommutes(universes,
      h.universe, Put(p, h.sequence, r.(leases := if r.leases + a < 0 then 0 else r.leases + a)),
      k.universe, Put(q, k.sequence, s.(leases := if s.leases + b < 0 then 0 else s.leases + b)));
  }

  /** Taking a lease and giving it up changes nothing. */
  lemma LeaseUndone(universes: Universes, h: Hold)
    requires Present(universes, h)
    ensures SetLeases(SetLeases(universes, h, 1), h, -1) == universes
  {
    var values := Find(universes, h.universe).value;
    var r := Find(values, h.sequence).value;
    var values' := Put(values, h.sequence, r.(leases := r.leases + 1));
    FindPut(values, h.sequence, r.(leases := r.leases + 1), h.sequence);
    FindPut(universes, h.universe, values', h.universe);
    PutTwice(values, h.sequence, r.(leases := r.leases + 1), r);
    PutSame(values, h.sequence);
    PutTwice(universes, h.universe, values', values);
    PutSame(universes, h.universe);
  }

  ghost predicate OtherUniverses(h: Hold, holds: seq<Hold>) { forall i :: 0 <= i < |holds| ==> holds[i].universe != h.universe }

  ghost predicate DistinctUniverses(holds: seq<Hold>) {
    forall i, j :: 0 <= i < j < |holds| ==> holds[i].universe != holds[j].universe
  }

  ghost predicate AllPresent(universes: Universes, holds: seq<Hold>) {
    forall i :: 0 <= i < |holds| ==> Present(universes, holds[i])
  }

  lemma {:induction false} AcquireCommutes(universes: Universes, h: Hold, holds: seq<Hold>)
    requires Present(universes, h) && OtherUniverses(h, holds) && AllPresent(universes, holds)
    ensures SetLeases(AcquireAll(universes, holds), h, -1) == AcquireAll(SetLeases(universes, h, -1), holds)
    decreases |holds|
  {
    hide SetLeases, Present;
    if holds == [] {
    } else {
      var next := SetLeases(universes, holds[0], 1);
      assert holds[0].universe != h.universe && Present(universes, holds[0]);
      forall k ensures Present(next, k) <==> Present(universes, k) { SetLeasesPresent(universes, holds[0], 1, k); }
      AcquireCommutes(next, h, holds[1..]);
      SetLeasesCommutes(universes, holds[0], 1, h, -1);
    }
  }

  /** Giving up, in order, the leases taken in order restores the store exactly. */
  lemma {:induction false} UndoRestores(universes: Universes, holds: seq<Hold>)
    requires DistinctUniverses(holds) && AllPresent(universes, holds)
    ensures DropAll(AcquireAll(universes, holds), holds) == universes
    decreases |holds|
  {
    hide SetLeases, Present;
    if holds == [] {
    } else {
      var next := SetLeases(universes, holds[0], 1);
      assert Present(universes, holds[0]);
      forall k ensures Present(next, k) <==> Present(universes, k) { SetLeasesPresent(universes, holds[0], 1, k); }
      AcquireCommutes(next, holds[0], holds[1..]);
      LeaseUndone(universes, holds[0]);
      UndoRestores(universes, holds[1..]);
    }
  }

  // ----- the class

  class MemoryStore {
    const config: Config
    var universes: Universes
    var current: map<JsString, nat>
    var recent: Option<JsString>
    var disposed: bool

    ghost function Value(): State
      reads this
    {
      State(universes, current, recent, disposed)
    }

    constructor (config: Config)
      ensures this.config == config && Value() == EMPTY
    {
      this.config := config;
      universes, current, recent, disposed := [], map[], None, false;
    }

    method CollectUniverse(universe: JsString)
      modifies this
      ensures Value() == Collect(config, old(Value()), universe)
    {
      hide Put, Drop, Find, Candidates, Exempt;
      var found := Find(universes, universe);
      if found.None? { return; }
      var values := found.value;
      var candidates := Candidates(values, if universe in current then Some(current[universe]) else None);
      ghost var all := candidates;
      while |values| > config.maximumRetained && candidates != []
        invariant DropOldest(values, candidates, config.maximumRetained) == DropOldest(found.value, all, config.maximumRetained)
        decreases |candidates|
      {
        values := Drop(values, candidates[0]);
        candidates := candidates[1..];
      }
      universes := Put(universes, universe, values);
      if config.maximumUniverses.None? { return; }
      var maximum := config.maximumUniverses.value;
      ghost var tables := Tables(universes, current);
      var i := 0;
      while i < |universes| && |universes| > maximum
        invariant recent == old(recent) && disposed == old(disposed)
        invariant EvictFrom(Tables(universes, current), recent, maximum, i) == EvictFrom(tables, recent, maximum, 0)
        decreases |universes| - i
      {
        if Exempt(universes[i], recent) {
          i := i + 1;
        } else {
          current := current - {universes[i].0};
          universes := universes[..i] + universes[i + 1..];
        }
      }
    }

    method Activate(universe: JsString)
      requires Find(universes, universe).Some?
      modifies this
      ensures Value() == Activated(old(Value()), universe, Find(old(universes), universe).value)
    {
      hide Find, Drop;
      recent := Some(universe);
      var retained := Find(universes, universe).value;
      universes := Drop(universes, universe);
      universes := universes + [(universe, retained)];
    }

    /** Fails, changing nothing, when disposed or when the transaction is refused. */
    method Commit(tx: Transaction) returns (ok: bool)
      modifies this
      ensures (Value(), ok) == CommitStep(config, old(Value()), tx)
    {
      hide Find, Drop, Put, Collect;
      if disposed { return false; }
      ghost var before := Value();
      var sequence := CurrentSequenceOf(tx.universe);
      if !tx.valid || tx.sequence != sequence + 1 { return false; }
      var found := Find(universes, tx.universe);
      var retained := if found.Some? then found.value else [];
      CommitPlaces(universes, tx.universe, Put(retained, tx.sequence, Retained(tx.id, 0)));
      universes := Put(universes, tx.universe, Put(retained, tx.sequence, Retained(tx.id, 0)));
      current := current[tx.universe := tx.sequence];
      Activate(tx.universe);
      CollectUniverse(tx.universe);
      ok := true;
    }

    method CurrentSequenceOf(universe: JsString) returns (sequence: nat)
      ensures sequence == CurrentSequence(Value(), universe)
    {
      hide Find;
      if universe !in current || current[universe] == 0 { return 0; }
      var values := Find(universes, universe);
      if values.None? || Find(values.value, current[universe]).None? { return 0; }
      sequence := current[universe];
    }

    method LocateRetained(universe: JsString, generation: Option<JsString>) returns (hold: Option<Hold>)
      ensures hold == Locate(Value(), universe, generation)
    {
      hide Find, HighestWith;
      var values := Find(universes, universe);
      var sequence: nat;
      if generation.Some? && generation.value != [] {
        sequence := if values.Some? then HighestWith(values.value, generation.value) else 0;
      } else {
        sequence := if universe in current then current[universe] else 0;
      }
      if sequence == 0 { return None; }
      if values.None? || Find(values.value, sequence).None? { return None; }
      hold := Some(Hold(universe, sequence));
    }

    method Open(universe: JsString, generation: Option<JsString>) returns (hold: Option<Hold>)
      modifies this
      ensures (Value(), hold) == OpenStep(old(Value()), universe, generation)
      ensures old(disposed) ==> hold.None?
      ensures !old(disposed) ==> Answers(old(Value()), universe, generation, hold)
    {
      hide Find, Drop, SetLeases, Answers;
      LocateAnswers(Value(), universe, generation);
      if disposed { return None; }
      hold := LocateRetained(universe, generation);
      if hold.None? { return; }
      universes := SetLeases(universes, hold.value, 1);
      LocatedStays(old(Value()), universe, generation);
      Activate(universe);
    }

    /** Leases every wanted generation, or gives up the leases taken so far. */
    method SnapshotSet(wanted: seq<(JsString, JsString)>) returns (holds: Option<seq<Hold>>)
      requires forall i, j :: 0 <= i < j < |wanted| ==> wanted[i].0 != wanted[j].0
      modifies this
      ensures (Value(), holds) == SnapshotSetStep(old(Value()), wanted)
      ensures old(disposed) ==> holds.None?
      ensures holds.Some? ==> |holds.value| == |wanted|
      ensures holds.Some? ==> forall i :: 0 <= i < |wanted| ==>
        Answers(old(Value()), wanted[i].0, Some(wanted[i].1), Some(holds.value[i]))
      ensures holds.None? && !old(disposed) ==>
        exists i :: 0 <= i < |wanted| && Answers(old(Value()), wanted[i].0, Some(wanted[i].1), None)
    {
      hide Find, Drop, SetLeases, Locate, Present, AcquireAll, DropAll, Answers;
      LocateAllAnswers(Value(), wanted);
      if disposed { return None; }
      var taken: seq<Hold> := [];
      AcquireNone(universes);
      for i := 0 to |wanted|
        invariant LocateAll(old(Value()), wanted[..i]) == Some(taken)
        invariant Holds(old(universes), wanted, taken, i)
        invariant Value() == old(Value()).(universes := AcquireAll(old(universes), taken))
      {
        assert wanted[..i + 1][..i] == wanted[..i];
        LocateUnaffected(old(Value()), wanted, taken, i);
        var hold := LocateRetained(wanted[i].0, Some(wanted[i].1));
        if hold.None? {
          LocateAllFails(old(Value()), wanted, i + 1);
          GiveUp(taken);
          UndoRestores(old(universes), taken);
          return None;
        }
        AcquireSnoc(old(universes), taken, hold.value);
        LocatedHold(old(Value()), wanted[i].0, Some(wanted[i].1));
        universes := SetLeases(universes, hold.value, 1);
        taken := taken + [hold.value];
      }
      assert wanted[..|wanted|] == wanted;
      holds := Some(taken);
    }

    method GiveUp(holds: seq<Hold>)
      modifies this
      ensures Value() == old(Value()).(universes := DropAll(old(universes), holds))
    {
      hide SetLeases;
      for i := 0 to |holds|
        invariant Value() == old(Value()).(universes := universes)
        invariant DropAll(universes, holds[i..]) == DropAll(old(universes), holds)
      {
        assert holds[i..][1..] == holds[i + 1..];
        universes := SetLeases(universes, holds[i], -1);
      }
    }

    /** What disposing a reader does the first time; the second time it holds nothing. */
    method Release(holds: seq<Hold>)
      modifies this
      ensures Value() == ReleaseStep(config, old(Value()), holds)
    {
      hide SetLeases, Collect;
      for i := 0 to |holds|
        invariant Value() == ReleaseStep(config, old(Value()), holds[..i])
      {
        assert holds[..i + 1][..i] == holds[..i];
        universes := SetLeases(universes, holds[i], -1);
        CollectUniverse(holds[i].universe);
      }
      assert holds[..|holds|] == holds;
    }

    method Dispose()
      modifies this
      ensures Value() == DisposeStep(old(Value()))
    {
      if disposed { return; }
      disposed := true;
      current := map[];
      universes := [];
    }
  }

  lemma CommitPlaces(universes: Universes, universe: JsString, values: Generations)
    ensures Drop(Put(universes, universe, values), universe) == Drop(universes, universe)
    ensures Find(Put(universes, universe, values), universe) == Some(values)
  {
    FindPut(universes, universe, values, universe);
  }

  lemma LocatedStays(st: State, universe: JsString, generation: Option<JsString>)
    requires Locate(st, universe, generation).Some?
    ensures Find(SetLeases(st.universes, Locate(st, universe, generation).value, 1), universe).Some?
  {
    hide Find, HighestWith, SetLeases;
    var h := Locate(st, universe, generation).value;
    SetLeasesPresent(st.universes, h, 1, h);
  }

  lemma LocatedHold(st: State, universe: JsString, generation: Option<JsString>)
    requires Locate(st, universe, generation).Some?
    ensures Locate(st, universe, generation).value.universe == universe
    ensures Present(st.universes, Locate(st, universe, generation).value)
  {
    hide Find, HighestWith;
  }

  /** The holds taken so far, one for each wanted universe. */
  ghost predicate Holds(universes: Universes, wanted: seq<(JsString, JsString)>, taken: seq<Hold>, count: nat) {
    && |taken| == count <= |wanted| && DistinctUniverses(taken) && AllPresent(universes, taken)
    && forall k :: 0 <= k < count ==> taken[k].universe == wanted[k].0
  }

  /** Leases on other universes do not change what is located. */
  lemma LocateUnaffected(st: State, wanted: seq<(JsString, JsString)>, taken: seq<Hold>, i: nat)
    requires Holds(st.universes, wanted, taken, i) && i < |wanted|
    requires forall i, j :: 0 <= i < j < |wanted| ==> wanted[i].0 != wanted[j].0
    ensures Locate(st.(universes := AcquireAll(st.universes, taken)), wanted[i].0, Some(wanted[i].1)) ==
      Locate(st, wanted[i].0, Some(wanted[i].1))
  {
    hide AcquireAll, Find, HighestWith;
    AcquireOther(st.universes, taken, wanted[i].0);
  }

  lemma {:induction false} AcquireOther(universes: Universes, holds: seq<Hold>, universe: JsString)
    requires forall k :: 0 <= k < |holds| ==> holds[k].universe != universe
    ensures Find(AcquireAll(universes, holds), universe) == Find(universes, universe)
    decreases |holds|
  {
    hide SetLeases, Find;
    if holds == [] {
    } else {
      SetLeasesOther(universes, holds[0], 1, universe);
      AcquireOther(SetLeases(universes, holds[0], 1), holds[1..], universe);
    }
  }

  lemma AcquireNone(universes: Universes)
    ensures AcquireAll(universes, []) == universes
  {
  }

  lemma {:induction false} AcquireSnoc(universes: Universes, holds: seq<Hold>, h: Hold)
    ensures AcquireAll(universes, holds + [h]) == SetLeases(AcquireAll(universes, holds), h, 1)
    decreases |holds|
  {
    hide SetLeases;
    if holds == [] {
      assert (holds + [h])[1..] == [];
    } else {
      assert (holds + [h])[1..] == holds[1..] + [h];
      AcquireSnoc(SetLeases(universes, holds[0], 1), holds[1..], h);
    }
  }

  lemma {:induction false} LocateAllFails(st: State, wanted: seq<(JsString, JsString)>, i: nat)
    requires i <= |wanted| && LocateAll(st, wanted[..i]).None?
    ensures LocateAll(st, wanted).None?
    decreases |wanted|
  {
    hide Locate;
    if i < |wanted| {
      assert wanted[..|wanted| - 1][..i] == wanted[..i];
      LocateAllFails(st, wanted[..|wanted| - 1], i);
    } else {
      assert wanted[..i] == wanted;
    }
  }
}
