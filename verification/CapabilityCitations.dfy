/**
 The capabilities that cite given laws, found in rounds: round n admits the capabilities whose shortest
 chain of citations to one of the laws has n links.
 */
module CapabilityCitations {
  import opened Utf16
  import opened Capability
  import opened Sequences
  import Sorting

  // ----- chains of citations

  /** The entries considered and the keys of the given laws. */
  datatype Search = Search(entries: seq<Entry>, laws: set<JsString>) {

    predicate CitesLaw(i: nat)
      requires i < |entries|
    {
      exists l :: 0 <= l < |entries[i].laws| && Key(entries[i].laws[l]) in laws
    }

    predicate CitesKey(i: nat, key: JsString)
      requires i < |entries|
    {
      exists c :: 0 <= c < |entries[i].capabilities| && Key(entries[i].capabilities[c]) == key
    }

    function KeyOf(i: nat): JsString
      requires i < |entries|
    {
      Key(entries[i].at)
    }

    /** Each entry cites the key of the next, and the last one cites a given law. */
    ghost predicate Chain(path: seq<nat>) {
      && path != []
      && (forall k :: 0 <= k < |path| ==> path[k] < |entries|)
      && (forall k :: 0 <= k < |path| - 1 ==> CitesKey(path[k], KeyOf(path[k + 1])))
      && CitesLaw(path[|path| - 1])
    }

    /** Entry i has a chain of at most n links. */
    ghost predicate Starts(i: nat, n: nat) {
      exists path :: Chain(path) && |path| <= n && path[0] == i
    }

    /** Some entry declared under the key has a chain of at most n links. */
    ghost predicate Near(key: JsString, n: nat) {
      exists i: nat :: i < |entries| && KeyOf(i) == key && Starts(i, n)
    }

    ghost predicate Reaches(key: JsString) { exists n: nat :: Near(key, n) }

    /** The shortest chain from the key of entry i has n + 1 links, and one such chain starts at i. */
    ghost predicate At(i: nat, n: nat)
      requires i < |entries|
    {
      Starts(i, n + 1) && !Near(KeyOf(i), n)
    }

    /** One more link: cite a law, or cite a key that is near. */
    ghost predicate Admits(i: nat, n: nat)
      requires i < |entries|
    {
      CitesLaw(i) || exists c :: 0 <= c < |entries[i].capabilities| && Near(Key(entries[i].capabilities[c]), n)
    }
  }

  lemma NearMonotone(s: Search, key: JsString, m: nat, n: nat)
    requires m <= n && s.Near(key, m)
    ensures s.Near(key, n)
  {
    var i: nat :| i < |s.entries| && s.KeyOf(i) == key && s.Starts(i, m);
    var path :| s.Chain(path) && |path| <= m && path[0] == i;
    assert s.Starts(i, n);
  }

  lemma StartsIsAdmits(s: Search, i: nat, n: nat)
    requires i < |s.entries|
    ensures s.Starts(i, n + 1) <==> s.Admits(i, n)
  {
    if s.Starts(i, n + 1) { StartsAdmits(s, i, n); }
    if s.Admits(i, n) { AdmitsStarts(s, i, n); }
  }

  lemma StartsAdmits(s: Search, i: nat, n: nat)
    requires i < |s.entries| && s.Starts(i, n + 1)
    ensures s.Admits(i, n)
  {
    var path :| s.Chain(path) && |path| <= n + 1 && path[0] == i;
    if |path| > 1 {
      var rest := path[1..];
      assert s.CitesKey(path[0], s.KeyOf(path[1]));
      assert s.Chain(rest) by {
        forall k | 0 <= k < |rest| - 1 ensures s.CitesKey(rest[k], s.KeyOf(rest[k + 1])) {
          assert s.CitesKey(path[k + 1], s.KeyOf(path[k + 2]));
        }
      }
      assert s.Starts(rest[0], n);
      assert s.Near(s.KeyOf(rest[0]), n);
    }
  }

  lemma ChainPushed(s: Search, i: nat, path: seq<nat>)
    requires i < |s.entries| && s.Chain(path) && s.CitesKey(i, s.KeyOf(path[0]))
    ensures s.Chain([i] + path)
  {
    hide Search.CitesKey, Search.CitesLaw;
    var longer := [i] + path;
    forall k | 0 <= k < |longer| - 1 ensures s.CitesKey(longer[k], s.KeyOf(longer[k + 1])) {
      if k > 0 { assert longer[k] == path[k - 1] && longer[k + 1] == path[k]; }
    }
  }

  lemma AdmitsStarts(s: Search, i: nat, n: nat)
    requires i < |s.entries| && s.Admits(i, n)
    ensures s.Starts(i, n + 1)
  {
    if s.CitesLaw(i) {
      assert s.Chain([i]);
    } else {
      var c :| 0 <= c < |s.entries[i].capabilities| && s.Near(Key(s.entries[i].capabilities[c]), n);
      var key := Key(s.entries[i].capabilities[c]);
      var j: nat :| j < |s.entries| && s.KeyOf(j) == key && s.Starts(j, n);
      LinkAdded(s, i, j, n);
    }
  }

  lemma LinkAdded(s: Search, i: nat, j: nat, n: nat)
    requires i < |s.entries| && j < |s.entries| && s.CitesKey(i, s.KeyOf(j)) && s.Starts(j, n)
    ensures s.Starts(i, n + 1)
  {
    hide Search.CitesKey, Search.CitesLaw;
    var path :| s.Chain(path) && |path| <= n && path[0] == j;
    ChainPushed(s, i, path);
    assert ([i] + path)[0] == i;
  }

  /** Once a round admits nothing, no longer chain reaches anything new. */
  lemma {:induction false} Saturated(s: Search, round: nat, key: JsString, n: nat)
    requires forall i: nat :: i < |s.entries| ==> !s.At(i, round)
    requires s.Near(key, n)
    ensures s.Near(key, round)
    decreases n
  {
    if n <= round {
      NearMonotone(s, key, n, round);
    } else {
      var i: nat :| i < |s.entries| && s.KeyOf(i) == key && s.Starts(i, n);
      StartsIsAdmits(s, i, n - 1);
      if !s.CitesLaw(i) {
        var c :| 0 <= c < |s.entries[i].capabilities| && s.Near(Key(s.entries[i].capabilities[c]), n - 1);
        Saturated(s, round, Key(s.entries[i].capabilities[c]), n - 1);
      }
      assert s.Admits(i, round);
      StartsIsAdmits(s, i, round);
      assert !s.At(i, round);
    }
  }

  // ----- the rounds

  ghost predicate NearSet(s: Search, reached: set<JsString>, n: nat) {
    forall key :: key in reached <==> s.Near(key, n)
  }

  method SomeLaw(laws: seq<Coordinate>, keys: set<JsString>) returns (some: bool)
    ensures some <==> exists l :: 0 <= l < |laws| && Key(laws[l]) in keys
  {
    some := false;
    for l := 0 to |laws|
      invariant some <==> exists k :: 0 <= k < l && Key(laws[k]) in keys
    {
      some := some || Key(laws[l]) in keys;
    }
  }

  /** The entries admitted by round n, in entry order. */
  ghost predicate Admitted(s: Search, round: seq<nat>, n: nat) {
    && (forall k :: 0 <= k < |round| ==> round[k] < |s.entries| && s.At(round[k], n))
    && (forall i: nat :: i < |s.entries| && s.At(i, n) ==> i in round)
    && (forall a, b :: 0 <= a < b < |round| ==> round[a] < round[b])
  }

  /** The entries one link further from the laws than the reached keys, in entry order. */
  method Round(s: Search, reached: set<JsString>, ghost n: nat) returns (round: seq<nat>)
    requires NearSet(s, reached, n)
    ensures Admitted(s, round, n)
  {
    hide Search.Near, Search.Starts;
    round := [];
    for i := 0 to |s.entries|
      invariant forall k :: 0 <= k < |round| ==> round[k] < i && s.At(round[k], n)
      invariant forall k: nat :: k < i && s.At(k, n) ==> k in round
      invariant forall a, b :: 0 <= a < b < |round| ==> round[a] < round[b]
    {
      var law := SomeLaw(s.entries[i].laws, s.laws);
      var capability := SomeLaw(s.entries[i].capabilities, reached);
      StartsIsAdmits(s, i, n);
      if s.KeyOf(i) !in reached && (law || capability) { round := round + [i]; }
    }
  }

  ghost function KeysOf(s: Search, round: seq<nat>): set<JsString>
    requires forall k :: 0 <= k < |round| ==> round[k] < |s.entries|
  {
    set k | 0 <= k < |round| :: s.KeyOf(round[k])
  }

  method AddKeys(s: Search, reached: set<JsString>, round: seq<nat>) returns (wider: set<JsString>)
    requires forall k :: 0 <= k < |round| ==> round[k] < |s.entries|
    ensures wider == reached + KeysOf(s, round)
  {
    wider := reached;
    for k := 0 to |round|
      invariant wider == reached + KeysOf(s, round[..k])
    {
      wider := wider + {s.KeyOf(round[k])};
      assert KeysOf(s, round[..k + 1]) == KeysOf(s, round[..k]) + {s.KeyOf(round[k])} by {
        forall j | 0 <= j < k ensures s.KeyOf(round[j]) in KeysOf(s, round[..k]) && s.KeyOf(round[j]) in KeysOf(s, round[..k + 1]) {
          assert round[..k][j] == round[j] && round[..k + 1][j] == round[j];
        }
        assert round[..k + 1][k] == round[k];
        forall key | key in KeysOf(s, round[..k + 1]) ensures key in KeysOf(s, round[..k]) + {s.KeyOf(round[k])} {
          var j :| 0 <= j < k + 1 && s.KeyOf(round[..k + 1][j]) == key;
        }
      }
    }
    assert round[..|round|] == round;
  }

  lemma RoundAdvances(s: Search, reached: set<JsString>, n: nat, round: seq<nat>)
    requires NearSet(s, reached, n) && Admitted(s, round, n)
    ensures NearSet(s, reached + KeysOf(s, round), n + 1)
  {
    hide Search.Starts;
    forall key ensures key in reached + KeysOf(s, round) <==> s.Near(key, n + 1) {
      if key in reached { NearMonotone(s, key, n, n + 1); }
      if key in KeysOf(s, round) {
        var k :| 0 <= k < |round| && s.KeyOf(round[k]) == key;
        NearFromAt(s, round[k], n);
      }
      if s.Near(key, n + 1) && key !in reached {
        var i: nat :| i < |s.entries| && s.KeyOf(i) == key && s.Starts(i, n + 1);
        assert s.At(i, n);
        assert i in round;
        assert key in KeysOf(s, round);
      }
    }
  }

  ghost function AllKeys(s: Search): set<JsString> { set i | 0 <= i < |s.entries| :: s.KeyOf(i) }

  ghost predicate AtIn(s: Search, i: nat, n: nat) { i < |s.entries| && s.At(i, n) }

  /** Listed by the length of the shortest chain, then in entry order. */
  ghost predicate InOrder(s: Search, ordered: seq<nat>) {
    forall a, b, m: nat, n: nat ::
      0 <= a < b < |ordered| && AtIn(s, ordered[a], m) && AtIn(s, ordered[b], n) ==>
        m < n || (m == n && ordered[a] < ordered[b])
  }

  /** The length of the shortest chain is unique. */
  lemma AtUnique(s: Search, i: nat, m: nat, n: nat)
    requires i < |s.entries| && s.At(i, m) && s.At(i, n)
    ensures m == n
  {
    hide Search.Near, Search.Starts;
    assert s.Near(s.KeyOf(i), m + 1) && s.Near(s.KeyOf(i), n + 1) by { NearFromAt(s, i, m); NearFromAt(s, i, n); }
    if m < n { NearMonotone(s, s.KeyOf(i), m + 1, n); }
    if n < m { NearMonotone(s, s.KeyOf(i), n + 1, m); }
  }

  lemma NearFromAt(s: Search, i: nat, n: nat)
    requires i < |s.entries| && s.At(i, n)
    ensures s.Near(s.KeyOf(i), n + 1)
  {
  }

  ghost predicate AtBefore(s: Search, i: nat, n: nat) { exists r: nat :: r < n && AtIn(s, i, r) }

  /** Exactly the entries admitted before the given round. */
  ghost predicate Lists(s: Search, ordered: seq<nat>, n: nat) {
    && (forall k :: 0 <= k < |ordered| ==> AtBefore(s, ordered[k], n))
    && (forall i: nat, r: nat :: r < n && AtIn(s, i, r) ==> i in ordered)
  }

  lemma OrderAdvances(s: Search, ordered: seq<nat>, n: nat, round: seq<nat>)
    requires Lists(s, ordered, n) && InOrder(s, ordered)
    requires Admitted(s, round, n)
    ensures Lists(s, ordered + round, n + 1) && InOrder(s, ordered + round)
  {
    hide Search.Near, Search.Starts, Search.At;
    var all := ordered + round;
    forall k | 0 <= k < |all| ensures AtBefore(s, all[k], n + 1) {
      if k >= |ordered| {
        assert all[k] == round[k - |ordered|] && AtIn(s, all[k], n);
      } else {
        assert AtBefore(s, ordered[k], n);
      }
    }
    forall i: nat, r: nat | r < n + 1 && AtIn(s, i, r) ensures i in all {
      if r == n { assert i in round; } else { assert i in ordered; }
    }
    forall a, b, m: nat, r: nat | 0 <= a < b < |all| && AtIn(s, all[a], m) && AtIn(s, all[b], r)
      ensures m < r || (m == r && all[a] < all[b])
    {
      PairInOrder(s, ordered, n, round, a, b, m, r);
    }
  }

  lemma PairInOrder(s: Search, ordered: seq<nat>, n: nat, round: seq<nat>, a: nat, b: nat, m: nat, r: nat)
    requires Lists(s, ordered, n) && InOrder(s, ordered)
    requires Admitted(s, round, n)
    requires a < b < |ordered + round|
    requires AtIn(s, (ordered + round)[a], m) && AtIn(s, (ordered + round)[b], r)
    ensures m < r || (m == r && (ordered + round)[a] < (ordered + round)[b])
  {
    hide Search.Near, Search.Starts, Search.At;
    if b < |ordered| {
      assert AtIn(s, ordered[a], m) && AtIn(s, ordered[b], r);
    } else {
      assert (ordered + round)[b] == round[b - |ordered|];
      AtUnique(s, round[b - |ordered|], r, n);
      if a < |ordered| {
        var p: nat :| p < n && AtIn(s, ordered[a], p);
        AtUnique(s, ordered[a], m, p);
      } else {
        assert (ordered + round)[a] == round[a - |ordered|];
        AtUnique(s, round[a - |ordered|], m, n);
      }
    }
  }

  method Rounds(s: Search) returns (ordered: seq<nat>, reached: set<JsString>)
    ensures forall key :: key in reached <==> s.Reaches(key)
    ensures forall i: nat :: i in ordered <==> exists n: nat :: AtIn(s, i, n)
    ensures InOrder(s, ordered)
  {
    hide Search.Near, Search.Starts, Search.At, InOrder;
    reached, ordered := {}, [];
    ghost var n := 0;
    NothingNear(s);
    while true
      invariant NearSet(s, reached, n) && Lists(s, ordered, n) && InOrder(s, ordered)
      invariant reached <= AllKeys(s)
      decreases |AllKeys(s) - reached|
    {
      var round := Round(s, reached, n);
      if round == [] { break; }
      RoundAdvances(s, reached, n, round);
      OrderAdvances(s, ordered, n, round);
      RoundGrows(s, reached, n, round);
      reached := AddKeys(s, reached, round);
      ordered := ordered + round;
      n := n + 1;
    }
    RoundsEnd(s, reached, ordered, n);
  }

  lemma NothingNear(s: Search)
    ensures NearSet(s, {}, 0) && Lists(s, [], 0) && InOrder(s, [])
  {
  }

  lemma RoundGrows(s: Search, reached: set<JsString>, n: nat, round: seq<nat>)
    requires NearSet(s, reached, n) && Admitted(s, round, n) && reached <= AllKeys(s) && round != []
    ensures reached + KeysOf(s, round) <= AllKeys(s)
    ensures |AllKeys(s) - (reached + KeysOf(s, round))| < |AllKeys(s) - reached|
  {
    hide Search.Near, Search.Starts;
    forall key | key in KeysOf(s, round) ensures key in AllKeys(s) {
      var k :| 0 <= k < |round| && s.KeyOf(round[k]) == key;
      assert round[k] in round;
    }
    assert round[0] in round;
    var key := s.KeyOf(round[0]);
    assert key in KeysOf(s, round) && key !in reached;
    Shrinks(AllKeys(s), reached, KeysOf(s, round), key);
  }

  lemma Shrinks(all: set<JsString>, reached: set<JsString>, added: set<JsString>, key: JsString)
    requires key in all && key in added && key !in reached
    ensures |all - (reached + added)| < |all - reached|
  {
    Sorting.SubsetSize(all - (reached + added), (all - reached) - {key});
  }

  lemma RoundsEnd(s: Search, reached: set<JsString>, ordered: seq<nat>, n: nat)
    requires NearSet(s, reached, n) && Lists(s, ordered, n)
    requires forall i: nat :: i < |s.entries| ==> !s.At(i, n)
    ensures forall key :: key in reached <==> s.Reaches(key)
    ensures forall i: nat :: i in ordered <==> exists r: nat :: AtIn(s, i, r)
  {
    hide Search.Near, Search.Starts, Search.At;
    forall key | s.Reaches(key) ensures key in reached {
      var m: nat :| s.Near(key, m);
      Saturated(s, n, key, m);
    }
    forall i: nat, r: nat | AtIn(s, i, r) ensures i in ordered {
      if r >= n {
        NearFromAt(s, i, r);
        Saturated(s, n, s.KeyOf(i), r + 1);
        NotNearBefore(s, i, r, n);
      }
    }
  }

  lemma NotNearBefore(s: Search, i: nat, r: nat, n: nat)
    requires i < |s.entries| && s.At(i, r) && n <= r
    ensures !s.Near(s.KeyOf(i), n)
  {
    hide Search.Near, Search.Starts;
    if s.Near(s.KeyOf(i), n) { NearMonotone(s, s.KeyOf(i), n, r); }
  }

  // ----- the report

  datatype Citation = Citation(at: Coordinate, source: JsString, laws: seq<Coordinate>, capabilities: seq<Coordinate>)

  function KeyIn(keys: set<JsString>): Coordinate -> bool { c => Key(c) in keys }

  function Cite(s: Search, reached: set<JsString>, i: nat): Citation
    requires i < |s.entries|
  {
    var e := s.entries[i];
    Citation(e.at, e.source, Filter(e.laws, KeyIn(s.laws)), Filter(e.capabilities, KeyIn(reached)))
  }

  /** The report of an entry: what it is, and which of its citations lead to the laws. */
  ghost predicate Reports(s: Search, i: nat, c: Citation)
    requires i < |s.entries|
  {
    var e := s.entries[i];
    && c.at == e.at && c.source == e.source
    && (forall law :: law in c.laws <==> law in e.laws && Key(law) in s.laws)
    && (forall cited :: cited in c.capabilities <==> cited in e.capabilities && s.Reaches(Key(cited)))
  }

  lemma CiteReports(s: Search, reached: set<JsString>, i: nat)
    requires i < |s.entries| && forall key :: key in reached <==> s.Reaches(key)
    ensures Reports(s, i, Cite(s, reached, i))
  {
    hide Search.Reaches;
    var e := s.entries[i];
    FilterMembers(e.laws, KeyIn(s.laws));
    FilterMembers(e.capabilities, KeyIn(reached));
  }

  /** One citation per listed entry, with exactly the citations through which it reaches the laws. */
  method CapabilitiesCiting(entries: seq<Entry>, laws: seq<Coordinate>)
    returns (cited: seq<Citation>, ordered: seq<nat>, reached: set<JsString>)
    ensures var s := Search(entries, set l | 0 <= l < |laws| :: Key(laws[l]));
      && (forall key :: key in reached <==> s.Reaches(key))
      && (forall i: nat :: i in ordered <==> exists n: nat :: AtIn(s, i, n))
      && InOrder(s, ordered)
      && |cited| == |ordered|
      && (forall k :: 0 <= k < |cited| ==> ordered[k] in ordered && cited[k] == Cite(s, reached, ordered[k]))
      && forall k :: 0 <= k < |cited| ==> Reports(s, ordered[k], cited[k])
  {
    hide Search.At, InOrder, Search.Reaches, Reports;
    var s := Search(entries, set l | 0 <= l < |laws| :: Key(laws[l]));
    ordered, reached := Rounds(s);
    cited := [];
    for k := 0 to |ordered|
      invariant |cited| == k
      invariant forall j :: 0 <= j < k ==> ordered[j] in ordered && cited[j] == Cite(s, reached, ordered[j])
      invariant forall j :: 0 <= j < k ==> Reports(s, ordered[j], cited[j])
    {
      assert ordered[k] in ordered;
      CiteReports(s, reached, ordered[k]);
      cited := cited + [Cite(s, reached, ordered[k])];
    }
  }
}
