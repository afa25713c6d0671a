/**
 Capability statuses: a memoised depth-first derivation that cuts citation cycles, proved to compute
 the least fixed point of "cites something, every cited law active, every cited capability held".
 */
module Capability {
  import opened Options
  import opened Utf16
  import opened Sequences
  import Sorting

  datatype Coordinate = Coordinate(root: JsString, id: JsString)

  /** `${module}\0${id}`. */
  function Key(c: Coordinate): JsString { c.root + [0] + c.id }

  datatype Entry = Entry(at: Coordinate, source: JsString, laws: seq<Coordinate>, capabilities: seq<Coordinate>)

  datatype Law = Law(at: Coordinate, active: bool)

  datatype Status = Declared | Partial | Held

  datatype Derived = Derived(status: Status, laws: seq<Coordinate>, capabilities: seq<Coordinate>)

  // ----- the declared capabilities

  datatype Reference = Local(id: JsString) | Descendant(directory: JsString, id: JsString)

  datatype Definition = Definition(id: JsString, laws: seq<Reference>, capabilities: seq<Reference>)

  datatype Resource = Resource(source: JsString, definitions: seq<Definition>)

  datatype Root = Root(path: JsString, resources: seq<Resource>, laws: seq<(JsString, bool)>)

  const CATALOG_ROOT: JsString := [0x2E]

  function Resolve(root: JsString, r: Reference): Coordinate {
    match r
    case Local(id) => Coordinate(root, id)
    case Descendant(directory, id) =>
      Coordinate(if root == CATALOG_ROOT then directory else root + [0x2F] + directory, id)
  }

  function ResolveAll(root: JsString, s: seq<Reference>): seq<Coordinate> {
    Sorting.Map(s, r => Resolve(root, r))
  }

  function ResourceEntries(root: JsString, r: Resource): seq<Entry> {
    Sorting.Map(r.definitions, (d: Definition) =>
      Entry(Coordinate(root, d.id), r.source, ResolveAll(root, d.laws), ResolveAll(root, d.capabilities)))
  }

  function RootEntries(root: Root): seq<Entry> {
    Flatten(Sorting.Map(root.resources, r => ResourceEntries(root.path, r)))
  }

  function PathOf(root: Root): JsString { root.path }

  function RootLess(): (Root, Root) -> bool { Sorting.ByKey(PathOf, Less) }

  /** Every declared capability with its citations resolved, in the stable order of its root. */
  function DerivationEntries(roots: seq<Root>): seq<Entry> {
    Flatten(Sorting.Map(Sorting.Sort(roots, RootLess()), RootEntries))
  }

  function RootLaws(root: Root): seq<Law> {
    Sorting.Map(root.laws, (law: (JsString, bool)) => Law(Coordinate(root.path, law.0), law.1))
  }

  function DeclaredLaws(roots: seq<Root>): seq<Law> { Flatten(Sorting.Map(roots, RootLaws)) }

  /** Listing the roots in another order changes neither the entries nor their order. */
  lemma RootOrderIsIrrelevant(a: seq<Root>, b: seq<Root>)
    requires multiset(a) == multiset(b) && Sorting.Distinct(Sorting.Map(a, PathOf))
    ensures DerivationEntries(a) == DerivationEntries(b)
  {
    LessIsStrictOrder();
    Sorting.SameMultiset(a, b);
    Sorting.SameKeys(a, b, PathOf);
    Sorting.DistinctKeys(a, PathOf);
    var p, q := Sorting.Map(a, PathOf), Sorting.Map(b, PathOf);
    assert Sorting.Elements(p) == Sorting.Elements(q);
    Sorting.DistinctElements(p);
    Sorting.FullElementsDistinct(q);
    Sorting.SortByKeyUnique(a, b, PathOf, Less);
  }

  // ----- active laws

  /** Some declaration of the law has an active test. */
  ghost predicate IsActive(laws: seq<Law>, key: JsString) {
    exists i :: 0 <= i < |laws| && Key(laws[i].at) == key && laws[i].active
  }

  method ActiveLaws(laws: seq<Law>) returns (active: map<JsString, bool>)
    ensures forall key :: (key in active && active[key]) <==> IsActive(laws, key)
  {
    active := map[];
    for i := 0 to |laws|
      invariant forall key :: (key in active && active[key]) <==> IsActive(laws[..i], key)
    {
      var key := Key(laws[i].at);
      ghost var before := active;
      active := active[key := laws[i].active || (key in active && active[key])];
      forall k ensures (k in active && active[k]) <==> IsActive(laws[..i + 1], k) {
      }
    }
    assert laws[..|laws|] == laws;
  }

  // ----- the citation graph and its least fixed point

  /** Entries and active laws; the target of a key is the first entry that declares it. */
  datatype Graph = Graph(entries: seq<Entry>, active: map<JsString, bool>) {

    function TargetFrom(key: JsString, i: nat): (r: Option<nat>)
      ensures r.Some? ==> i <= r.value < |entries| && Key(entries[r.value].at) == key
      decreases |entries| - i
    {
      if i >= |entries| then None
      else if Key(entries[i].at) == key then Some(i) else TargetFrom(key, i + 1)
    }

    function Target(c: Coordinate): (r: Option<nat>)
      ensures r.Some? ==> r.value < |entries|
    {
      TargetFrom(Key(c), 0)
    }

    predicate LawActive(c: Coordinate) { Key(c) in active && active[Key(c)] }

    predicate CitesSomething(e: Entry) { |e.laws| + |e.capabilities| > 0 }

    predicate AllLawsActive(e: Entry) { forall i :: 0 <= i < |e.laws| ==> LawActive(e.laws[i]) }

    /** One application of the rule: every cited capability resolves into `held`. */
    ghost predicate Rule(i: nat, held: iset<nat>)
      requires i < |entries|
    {
      && CitesSomething(entries[i]) && AllLawsActive(entries[i])
      && forall c :: 0 <= c < |entries[i].capabilities| ==>
           Target(entries[i].capabilities[c]).Some? && Target(entries[i].capabilities[c]).value in held
    }

    /** Held by a derivation of the given depth. */
    ghost predicate HeldBy(i: nat, depth: nat)
      requires i < |entries|
      decreases depth, 0
    {
      && depth > 0 && CitesSomething(entries[i]) && AllLawsActive(entries[i])
      && forall c :: 0 <= c < |entries[i].capabilities| ==> CitedHeldBy(entries[i].capabilities[c], depth - 1)
    }

    ghost predicate CitedHeldBy(c: Coordinate, depth: nat)
      decreases depth, 1
    {
      Target(c).Some? && HeldBy(Target(c).value, depth)
    }

    ghost predicate Held(i: nat)
      requires i < |entries|
    {
      exists depth: nat :: HeldBy(i, depth)
    }

    ghost predicate CitedHeld(c: Coordinate) { Target(c).Some? && Held(Target(c).value) }

    ghost function HeldSet(): iset<nat> { iset i: nat | i < |entries| && Held(i) }

    /** Entry i cites entry j. */
    ghost predicate Cites(i: nat, j: nat)
      requires i < |entries|
    {
      exists c :: 0 <= c < |entries[i].capabilities| && Target(entries[i].capabilities[c]) == Some(j)
    }
  }

  lemma {:induction false} HeldByMonotone(g: Graph, i: nat, m: nat, n: nat)
    requires i < |g.entries| && m <= n && g.HeldBy(i, m)
    ensures g.HeldBy(i, n)
    decreases m
  {
    var e := g.entries[i];
    forall c | 0 <= c < |e.capabilities| ensures g.CitedHeldBy(e.capabilities[c], n - 1) {
      assert g.CitedHeldBy(e.capabilities[c], m - 1);
      HeldByMonotone(g, g.Target(e.capabilities[c]).value, m - 1, n - 1);
    }
  }

  /** A depth that holds all of the first cited capabilities. */
  lemma {:induction false} CommonDepth(g: Graph, e: Entry, count: nat) returns (depth: nat)
    requires count <= |e.capabilities| && forall c :: 0 <= c < count ==> g.CitedHeld(e.capabilities[c])
    ensures forall c :: 0 <= c < count ==> g.CitedHeldBy(e.capabilities[c], depth)
  {
    if count == 0 { return 0; }
    var before := CommonDepth(g, e, count - 1);
    assert g.CitedHeld(e.capabilities[count - 1]);
    var last: nat :| g.HeldBy(g.Target(e.capabilities[count - 1]).value, last);
    depth := if before < last then last else before;
    forall c | 0 <= c < count ensures g.CitedHeldBy(e.capabilities[c], depth) {
      HeldByMonotone(g, g.Target(e.capabilities[c]).value, if c < count - 1 then before else last, depth);
    }
  }

  /** `Held` is a fixed point of the rule. */
  lemma HeldIsFixedPoint(g: Graph, i: nat)
    requires i < |g.entries|
    ensures g.Held(i) <==> g.Rule(i, g.HeldSet())
  {
    var e := g.entries[i];
    if g.Held(i) {
      var depth: nat :| g.HeldBy(i, depth);
      forall c | 0 <= c < |e.capabilities|
        ensures g.Target(e.capabilities[c]).Some? && g.Target(e.capabilities[c]).value in g.HeldSet()
      {
        assert g.CitedHeldBy(e.capabilities[c], depth - 1);
        var shallower: nat := depth - 1;
        assert g.HeldBy(g.Target(e.capabilities[c]).value, shallower);
      }
    }
    if g.Rule(i, g.HeldSet()) {
      forall c | 0 <= c < |e.capabilities| ensures g.CitedHeld(e.capabilities[c]) {
        assert g.Target(e.capabilities[c]).value in g.HeldSet();
      }
      var depth := CommonDepth(g, e, |e.capabilities|);
      assert g.HeldBy(i, depth + 1);
    }
  }

  /** ... and it lies inside every set closed under the rule, so it is the least one. */
  lemma {:induction false} HeldIsLeast(g: Graph, closed: iset<nat>, i: nat, depth: nat)
    requires forall k: nat :: k < |g.entries| && g.Rule(k, closed) ==> k in closed
    requires i < |g.entries| && g.HeldBy(i, depth)
    ensures i in closed
    decreases depth
  {
    var e := g.entries[i];
    forall c | 0 <= c < |e.capabilities|
      ensures g.Target(e.capabilities[c]).Some? && g.Target(e.capabilities[c]).value in closed
    {
      assert g.CitedHeldBy(e.capabilities[c], depth - 1);
      HeldIsLeast(g, closed, g.Target(e.capabilities[c]).value, depth - 1);
    }
    assert g.Rule(i, closed);
  }

  // ----- cycles are never held

  /** Each entry on the path cites the next one. */
  ghost predicate IsPath(g: Graph, path: seq<nat>) {
    && (forall k :: 0 <= k < |path| ==> path[k] < |g.entries|)
    && (forall k :: 0 <= k < |path| - 1 ==> g.Cites(path[k], path[k + 1]))
  }

  lemma {:induction false} HeldAlongPath(g: Graph, path: seq<nat>, depth: nat)
    requires path != [] && IsPath(g, path) && g.HeldBy(path[0], depth)
    ensures depth >= |path| && g.HeldBy(path[|path| - 1], depth - (|path| - 1))
  {
    if |path| > 1 {
      assert g.Cites(path[0], path[1]);
      var e := g.entries[path[0]];
      var c :| 0 <= c < |e.capabilities| && g.Target(e.capabilities[c]) == Some(path[1]);
      assert g.CitedHeldBy(e.capabilities[c], depth - 1);
      assert IsPath(g, path[1..]) by {
        forall k | 0 <= k < |path[1..]| - 1 ensures g.Cites(path[1..][k], path[1..][k + 1]) {
          assert g.Cites(path[k + 1], path[k + 2]);
        }
      }
      HeldAlongPath(g, path[1..], depth - 1);
    }
  }

  lemma {:induction false} CycleIsNotHeldBy(g: Graph, cycle: seq<nat>, depth: nat)
    requires |cycle| >= 2 && IsPath(g, cycle) && cycle[0] == cycle[|cycle| - 1]
    ensures !g.HeldBy(cycle[0], depth)
    decreases depth
  {
    if g.HeldBy(cycle[0], depth) {
      HeldAlongPath(g, cycle, depth);
      CycleIsNotHeldBy(g, cycle, depth - (|cycle| - 1));
    }
  }

  /** An entry that reaches itself by citations is not held, so cutting the cycle there is right. */
  lemma CycleIsNotHeld(g: Graph, cycle: seq<nat>)
    requires |cycle| >= 2 && IsPath(g, cycle) && cycle[0] == cycle[|cycle| - 1]
    ensures !g.Held(cycle[0])
  {
    forall depth: nat ensures !g.HeldBy(cycle[0], depth) { CycleIsNotHeldBy(g, cycle, depth); }
  }

  // ----- the derivation

  function Blocked(g: Graph): Coordinate -> bool { c => !g.LawActive(c) }

  ghost function Unheld(g: Graph): Coordinate -> bool { c => !g.CitedHeld(c) }

  /** What the derivation reports for an entry, by the fixed point. */
  ghost predicate Correct(g: Graph, i: nat, d: Derived)
    requires i < |g.entries|
  {
    var e := g.entries[i];
    && d.laws == Filter(e.laws, Blocked(g))
    && d.capabilities == Filter(e.capabilities, Unheld(g))
    && (d.status == Held <==> g.Held(i))
    && (d.status == Declared <==> !g.CitesSomething(e))
  }

  lemma HeldIsNothingBlocking(g: Graph, i: nat)
    requires i < |g.entries|
    ensures var e := g.entries[i];
      g.Held(i) <==> g.CitesSomething(e) && Filter(e.laws, Blocked(g)) == [] && Filter(e.capabilities, Unheld(g)) == []
  {
    var e := g.entries[i];
    HeldIsFixedPoint(g, i);
    FilterEmpty(e.laws, Blocked(g));
    FilterEmpty(e.capabilities, Unheld(g));
    forall c | 0 <= c < |e.capabilities|
      ensures g.CitedHeld(e.capabilities[c]) <==>
        g.Target(e.capabilities[c]).Some? && g.Target(e.capabilities[c]).value in g.HeldSet()
    {
    }
  }

  function Report(e: Entry, laws: seq<Coordinate>, capabilities: seq<Coordinate>): Derived {
    Derived(
      if |e.laws| + |e.capabilities| == 0 then Declared
      else if |laws| + |capabilities| == 0 then Status.Held else Partial,
      laws, capabilities)
  }

  lemma ReportIsCorrect(g: Graph, i: nat)
    requires i < |g.entries|
    ensures var e := g.entries[i];
      Correct(g, i, Report(e, Filter(e.laws, Blocked(g)), Filter(e.capabilities, Unheld(g))))
  {
    HeldIsNothingBlocking(g, i);
    FilterEmpty(g.entries[i].laws, Blocked(g));
    FilterEmpty(g.entries[i].capabilities, Unheld(g));
  }

  lemma PathPushed(g: Graph, path: seq<nat>, i: nat)
    requires IsPath(g, path) && i < |g.entries| && (path != [] ==> g.Cites(path[|path| - 1], i))
    ensures IsPath(g, path + [i])
  {
    var longer := path + [i];
    forall k | 0 <= k < |longer| - 1 ensures g.Cites(longer[k], longer[k + 1]) {
      if k + 1 < |path| { assert longer[k] == path[k] && longer[k + 1] == path[k + 1]; }
    }
  }

  /** An entry met again while it is being derived closes a cycle. */
  lemma VisitingIsNotHeld(g: Graph, path: seq<nat>, target: nat)
    requires IsPath(g, path) && path != [] && g.Cites(path[|path| - 1], target) && target in path
    ensures target < |g.entries| && !g.Held(target)
  {
    var m :| 0 <= m < |path| && path[m] == target;
    var cycle := path[m..] + [target];
    forall k | 0 <= k < |cycle| - 1 ensures g.Cites(cycle[k], cycle[k + 1]) {
      if k < |path| - m - 1 {
        assert cycle[k] == path[m + k] && cycle[k + 1] == path[m + k + 1];
        assert g.Cites(path[m + k], path[m + k + 1]);
      }
    }
    CycleIsNotHeld(g, cycle);
  }

  /** The entries not being derived yet. */
  ghost function Remaining(count: nat, path: seq<nat>): nat {
    if count == 0 then 0 else Remaining(count - 1, path) + if count - 1 in path then 0 else 1
  }

  lemma {:induction false} RemainingPushed(count: nat, path: seq<nat>, i: nat)
    requires i !in path
    ensures Remaining(count, path + [i]) == Remaining(count, path) - if i < count then 1 else 0
  {
    if count == 0 {
    } else {
      RemainingPushed(count - 1, path, i);
    }
  }

  ghost predicate AllCorrect(g: Graph, derived: map<nat, Derived>) {
    forall i :: i in derived ==> i < |g.entries| && Correct(g, i, derived[i])
  }

  ghost predicate Extends(before: map<nat, Derived>, after: map<nat, Derived>) {
    forall i :: i in before ==> i in after && after[i] == before[i]
  }

  /** The memo and the cycle guard of one derivation. */
  class Deriver {
    const graph: Graph
    var derived: map<nat, Derived>
    var visiting: set<nat>
    /** The entries being derived, outermost first. */
    ghost var path: seq<nat>

    ghost predicate Valid()
      reads this
    {
      AllCorrect(graph, derived) && IsPath(graph, path) && forall i :: i in visiting <==> i in path
    }

    constructor (graph: Graph)
      ensures Valid() && this.graph == graph && visiting == {} && path == []
    {
      this.graph := graph;
      derived, visiting, path := map[], {}, [];
    }

    /** Whether a capability cited by the entry at the end of the path blocks it. */
    method Blocks(c: Coordinate) returns (blocks: bool)
      requires Valid() && path != []
      requires graph.Target(c).Some? ==> graph.Cites(path[|path| - 1], graph.Target(c).value)
      modifies this`derived, this`visiting, this`path
      ensures Valid() && visiting == old(visiting) && path == old(path) && Extends(old(derived), derived)
      ensures blocks == !graph.CitedHeld(c)
      decreases Remaining(|graph.entries|, path), 1
    {
      hide IsPath, Graph.Cites, Graph.Held, Graph.Target;
      var target := graph.Target(c);
      if target.None? { return true; }
      if target.value in visiting {
        VisitingIsNotHeld(graph, path, target.value);
        return true;
      }
      var d := Derive(target.value);
      blocks := d.status != Status.Held;
    }

    method Derive(i: nat) returns (d: Derived)
      requires Valid() && i < |graph.entries| && i !in visiting
      requires path != [] ==> graph.Cites(path[|path| - 1], i)
      modifies this`derived, this`visiting, this`path
      ensures Valid() && visiting == old(visiting) && path == old(path) && Extends(old(derived), derived)
      ensures Correct(graph, i, d) && i in derived && derived[i] == d
      decreases Remaining(|graph.entries|, path), 0
    {
      hide IsPath, Graph.Held, Graph.Target, Correct, Report, Filter;
      if i in derived { return derived[i]; }
      PathPushed(graph, path, i);
      RemainingPushed(|graph.entries|, path, i);
      ghost var outer := path;
      visiting := visiting + {i};
      path := path + [i];
      var entry := graph.entries[i];
      var blockingLaws := Filter(entry.laws, Blocked(graph));
      var blockingCapabilities := BlockingCapabilities(i);
      visiting := visiting - {i};
      path := outer;
      ReportIsCorrect(graph, i);
      d := Report(entry, blockingLaws, blockingCapabilities);
      derived := derived[i := d];
    }

    /** The cited capabilities that are not held. */
    method BlockingCapabilities(i: nat) returns (blocking: seq<Coordinate>)
      requires Valid() && i < |graph.entries| && path != [] && path[|path| - 1] == i
      modifies this`derived, this`visiting, this`path
      ensures Valid() && visiting == old(visiting) && path == old(path) && Extends(old(derived), derived)
      ensures blocking == Filter(graph.entries[i].capabilities, Unheld(graph))
      decreases Remaining(|graph.entries|, path), 2
    {
      hide IsPath, Graph.Held, Graph.Target, Correct;
      var cited := graph.entries[i].capabilities;
      blocking := [];
      var index := 0;
      while index < |cited|
        invariant index <= |cited| && Valid()
        invariant visiting == old(visiting) && path == old(path) && Extends(old(derived), derived)
        invariant blocking == Filter(cited[..index], Unheld(graph))
      {
        var blocks := Blocks(cited[index]);
        FilterNext(cited, index, Unheld(graph));
        if blocks { blocking := blocking + [cited[index]]; }
        index := index + 1;
      }
      assert cited[..index] == cited;
    }

    /** Every entry's report, whatever was derived before it. */
    method DeriveAll() returns (all: seq<Derived>)
      requires Valid() && visiting == {} && path == []
      modifies this
      ensures |all| == |graph.entries| && forall i :: 0 <= i < |all| ==> Correct(graph, i, all[i])
    {
      hide Correct, IsPath;
      all := [];
      for i := 0 to |graph.entries|
        invariant Valid() && visiting == {} && path == []
        invariant |all| == i && forall k :: 0 <= k < i ==> Correct(graph, k, all[k])
      {
        var d := Derive(i);
        all := all + [d];
      }
    }
  }

  /** The report of every declared capability, in entry order. */
  method DeriveCapabilityStatuses(roots: seq<Root>) returns (graph: Graph, all: seq<Derived>)
    ensures graph.entries == DerivationEntries(roots)
    ensures forall c :: graph.LawActive(c) <==> IsActive(DeclaredLaws(roots), Key(c))
    ensures |all| == |graph.entries| && forall i :: 0 <= i < |all| ==> Correct(graph, i, all[i])
  {
    hide Correct, IsActive, DeclaredLaws, DerivationEntries;
    var active := ActiveLaws(DeclaredLaws(roots));
    graph := Graph(DerivationEntries(roots), active);
    var deriver := new Deriver(graph);
    all := deriver.DeriveAll();
  }
}
