/**
 Where citations point: what the module roots declare, and which declaration a local or a descendant reference of a
 module means. Stated of the roots, with no mention of how references are resolved.
 */
module CapabilityRoots {
  import opened Capability
  import opened Options
  import opened Sequences
  import opened Utf16
  import Sorting

  /** The module declares the definition in one of its resources. */
  ghost predicate Declares(root: Root, resource: Resource, d: Definition) {
    resource in root.resources && d in resource.definitions
  }

  /** The root that a reference of a module means: its own, or the directory below it. */
  function CitedRoot(path: JsString, r: Reference): JsString {
    if r.Local? then path else if path == Ascii(".") then r.directory else path + Ascii("/") + r.directory
  }

  /** The coordinate names the reference's id in the cited root. */
  predicate PointsTo(path: JsString, r: Reference, c: Coordinate) { c.id == r.id && c.root == CitedRoot(path, r) }

  ghost predicate AllPoint(path: JsString, references: seq<Reference>, coordinates: seq<Coordinate>) {
    |coordinates| == |references| && forall k :: 0 <= k < |references| ==> PointsTo(path, references[k], coordinates[k])
  }

  /** The entry is the definition's, with its citations resolved in order. */
  ghost predicate IsEntryOf(e: Entry, root: Root, resource: Resource, d: Definition) {
    && e.at == Coordinate(root.path, d.id) && e.source == resource.source
    && AllPoint(root.path, d.laws, e.laws) && AllPoint(root.path, d.capabilities, e.capabilities)
  }

  ghost predicate HasEntry(entries: seq<Entry>, root: Root, resource: Resource, d: Definition) {
    exists i :: 0 <= i < |entries| && IsEntryOf(entries[i], root, resource, d)
  }

  ghost predicate ComesFrom(e: Entry, roots: seq<Root>) {
    exists root, resource, d :: root in roots && Declares(root, resource, d) && IsEntryOf(e, root, resource, d)
  }

  lemma {:induction false} FlattenMember<T>(a: seq<seq<T>>, x: T) returns (k: nat)
    requires x in Flatten(a)
    ensures k < |a| && x in a[k]
  {
    if x in a[0] { return 0; }
    var j := FlattenMember(a[1..], x);
    k := j + 1;
  }

  lemma ResolvePoints(path: JsString, r: Reference)
    ensures PointsTo(path, r, Resolve(path, r))
  {
  }

  lemma ResolveAllPoint(path: JsString, references: seq<Reference>)
    ensures AllPoint(path, references, ResolveAll(path, references))
  {
    hide Resolve, PointsTo;
    forall k | 0 <= k < |references| ensures PointsTo(path, references[k], ResolveAll(path, references)[k]) {
      assert ResolveAll(path, references)[k] == Resolve(path, references[k]);
      ResolvePoints(path, references[k]);
    }
  }

  lemma ResourceEntry(root: Root, resource: Resource, k: nat)
    requires k < |resource.definitions|
    ensures |ResourceEntries(root.path, resource)| == |resource.definitions|
    ensures IsEntryOf(ResourceEntries(root.path, resource)[k], root, resource, resource.definitions[k])
  {
    hide AllPoint, ResolveAll;
    var d := resource.definitions[k];
    ResolveAllPoint(root.path, d.laws);
    ResolveAllPoint(root.path, d.capabilities);
  }

  lemma RootEntry(root: Root, resource: Resource, d: Definition) returns (e: Entry)
    requires Declares(root, resource, d)
    ensures e in RootEntries(root) && IsEntryOf(e, root, resource, d)
  {
    hide ResourceEntries, IsEntryOf;
    var lists := Sorting.Map(root.resources, r => ResourceEntries(root.path, r));
    var k :| 0 <= k < |root.resources| && root.resources[k] == resource;
    var m :| 0 <= m < |resource.definitions| && resource.definitions[m] == d;
    ResourceEntry(root, resource, m);
    e := ResourceEntries(root.path, resource)[m];
    assert lists[k] == ResourceEntries(root.path, resource);
    FlattenHas(lists, k, e);
  }

  lemma RootEntryIs(root: Root, e: Entry) returns (resource: Resource, d: Definition)
    requires e in RootEntries(root)
    ensures Declares(root, resource, d) && IsEntryOf(e, root, resource, d)
  {
    hide ResourceEntries, IsEntryOf;
    var lists := Sorting.Map(root.resources, r => ResourceEntries(root.path, r));
    var k := FlattenMember(lists, e);
    resource := root.resources[k];
    assert lists[k] == ResourceEntries(root.path, resource);
    var m :| 0 <= m < |lists[k]| && lists[k][m] == e;
    EntryCount(root.path, resource);
    ResourceEntry(root, resource, m);
    d := resource.definitions[m];
  }

  lemma EntryCount(path: JsString, resource: Resource)
    ensures |ResourceEntries(path, resource)| == |resource.definitions|
  {
  }

  /** There is an entry for every definition of every root, and no other. */
  lemma EntriesAreDefinitions(roots: seq<Root>)
    ensures forall root, resource, d :: root in roots && Declares(root, resource, d) ==> HasEntry(DerivationEntries(roots), root, resource, d)
    ensures forall i :: 0 <= i < |DerivationEntries(roots)| ==> ComesFrom(DerivationEntries(roots)[i], roots)
  {
    hide Declares, IsEntryOf, RootEntries;
    var sorted := Sorting.Sort(roots, RootLess());
    var lists, entries := Sorting.Map(sorted, RootEntries), DerivationEntries(roots);
    Sorting.SortPermutes(roots, RootLess());
    forall root, resource, d | root in roots && Declares(root, resource, d) ensures HasEntry(entries, root, resource, d) {
      assert root in sorted;
      var k :| 0 <= k < |sorted| && sorted[k] == root;
      var e := RootEntry(root, resource, d);
      assert lists[k] == RootEntries(root);
      FlattenHas(lists, k, e);
      var i :| 0 <= i < |entries| && entries[i] == e;
    }
    forall i | 0 <= i < |entries| ensures ComesFrom(entries[i], roots) {
      assert entries[i] in entries;
      var k := FlattenMember(lists, entries[i]);
      assert lists[k] == RootEntries(sorted[k]) && sorted[k] in sorted;
      var resource, d := RootEntryIs(sorted[k], entries[i]);
    }
  }

  /** The entries are listed root by root, in ascending order of the paths. */
  lemma EntriesByRoot(roots: seq<Root>) returns (ordered: seq<Root>)
    ensures multiset(ordered) == multiset(roots) && DerivationEntries(roots) == Flatten(Sorting.Map(ordered, RootEntries))
    ensures forall i, j :: 0 <= i < j < |ordered| ==> !Less(ordered[j].path, ordered[i].path)
  {
    ordered := Sorting.Sort(roots, RootLess());
    LessIsStrictOrder();
    Sorting.ByKeyIsWeakOrder(PathOf, Less);
    Sorting.SortPermutes(roots, RootLess());
    Sorting.SortSorts(roots, RootLess());
    forall i, j | 0 <= i < j < |ordered| ensures !Less(ordered[j].path, ordered[i].path) {
      assert !RootLess()(ordered[j], ordered[i]);
      RootLessIs(ordered[j], ordered[i]);
    }
  }

  lemma RootLessIs(a: Root, b: Root)
    ensures RootLess()(a, b) <==> Less(a.path, b.path)
  {
    hide Less;
    assert PathOf(a) == a.path && PathOf(b) == b.path;
  }

  // ----- the targets of citations

  /** The root declares the id. */
  ghost predicate DeclaredIn(roots: seq<Root>, path: JsString, id: JsString) {
    exists root, resource, d :: root in roots && root.path == path && Declares(root, resource, d) && d.id == id
  }

  ghost predicate PathsHaveNoNul(roots: seq<Root>) { forall root :: root in roots ==> 0 !in root.path }

  lemma KeyInjective(a: Coordinate, b: Coordinate)
    requires 0 !in a.root && 0 !in b.root && Key(a) == Key(b)
    ensures a == b
  {
    FirstNul(a);
    FirstNul(b);
    assert |a.root| == |b.root|;
    assert a.root == Key(a)[..|a.root|] && a.id == Key(a)[|a.root| + 1..];
    assert b.root == Key(b)[..|b.root|] && b.id == Key(b)[|b.root| + 1..];
  }

  lemma FirstNul(c: Coordinate)
    requires 0 !in c.root
    ensures Key(c)[|c.root|] == 0 && forall i :: 0 <= i < |c.root| ==> Key(c)[i] != 0
  {
    forall i | 0 <= i < |c.root| ensures Key(c)[i] != 0 { assert Key(c)[i] == c.root[i] && c.root[i] in c.root; }
  }

  /** The target is the first entry under the key. */
  lemma {:induction false} TargetIsFirst(g: Graph, key: JsString, i: nat)
    requires i <= |g.entries|
    ensures g.TargetFrom(key, i).None? ==> forall k :: i <= k < |g.entries| ==> Key(g.entries[k].at) != key
    ensures g.TargetFrom(key, i).Some? ==> forall k :: i <= k < g.TargetFrom(key, i).value ==> Key(g.entries[k].at) != key
    decreases |g.entries| - i
  {
    if i == |g.entries| || Key(g.entries[i].at) == key {
    } else {
      TargetIsFirst(g, key, i + 1);
    }
  }

  /** A citation has a target exactly when the root it means declares the id, and the target is the first such declaration. */
  lemma CitationTargets(roots: seq<Root>, g: Graph, path: JsString, r: Reference, c: Coordinate)
    requires g.entries == DerivationEntries(roots) && PathsHaveNoNul(roots)
    requires PointsTo(path, r, c) && 0 !in CitedRoot(path, r)
    ensures g.Target(c).Some? <==> DeclaredIn(roots, CitedRoot(path, r), r.id)
    ensures g.Target(c).Some? ==> g.entries[g.Target(c).value].at == Coordinate(CitedRoot(path, r), r.id)
    ensures g.Target(c).Some? ==> forall k :: 0 <= k < g.Target(c).value ==> g.entries[k].at != g.entries[g.Target(c).value].at
  {
    hide Declares, DerivationEntries, CitedRoot, Key, Graph.TargetFrom;
    EntriesAreDefinitions(roots);
    TargetIsFirst(g, Key(c), 0);
    if g.Target(c).Some? {
      var i := g.Target(c).value;
      assert ComesFrom(g.entries[i], roots);
      KeyInjective(g.entries[i].at, c);
    }
    if DeclaredIn(roots, CitedRoot(path, r), r.id) {
      var root, resource, d :| root in roots && root.path == CitedRoot(path, r) && Declares(root, resource, d) && d.id == r.id;
      assert HasEntry(g.entries, root, resource, d);
      var i :| 0 <= i < |g.entries| && IsEntryOf(g.entries[i], root, resource, d);
      assert g.entries[i].at == c;
    }
  }

  /** The root declares the law with an active test. */
  ghost predicate ActiveIn(roots: seq<Root>, path: JsString, id: JsString) {
    exists root :: root in roots && root.path == path && (id, true) in root.laws
  }

  lemma LawsAreDeclared(roots: seq<Root>, c: Coordinate)
    requires PathsHaveNoNul(roots) && 0 !in c.root
    ensures IsActive(DeclaredLaws(roots), Key(c)) <==> ActiveIn(roots, c.root, c.id)
  {
    hide Key, Flatten;
    var lists, laws := Sorting.Map(roots, RootLaws), DeclaredLaws(roots);
    if IsActive(laws, Key(c)) {
      var i :| 0 <= i < |laws| && Key(laws[i].at) == Key(c) && laws[i].active;
      assert laws[i] in laws;
      var k := FlattenMember(lists, laws[i]);
      assert lists[k] == RootLaws(roots[k]) && roots[k] in roots;
      var m :| 0 <= m < |lists[k]| && lists[k][m] == laws[i];
      KeyInjective(laws[i].at, c);
      assert roots[k].laws[m] == (c.id, true);
    }
    if ActiveIn(roots, c.root, c.id) {
      var root :| root in roots && root.path == c.root && (c.id, true) in root.laws;
      var k :| 0 <= k < |roots| && roots[k] == root;
      var m :| 0 <= m < |root.laws| && root.laws[m] == (c.id, true);
      assert lists[k] == RootLaws(root);
      assert lists[k][m] == Law(c, true);
      FlattenHas(lists, k, Law(c, true));
      var i :| 0 <= i < |laws| && laws[i] == Law(c, true);
    }
  }

  /** The citing references are well formed: no directory contains a NUL. */
  ghost predicate NoNul(path: JsString, references: seq<Reference>) {
    forall k :: 0 <= k < |references| ==> 0 !in CitedRoot(path, references[k])
  }

  /** A cited capability is held: the first declaration of its id in the root that the reference means. */
  ghost predicate CitedIsHeld(g: Graph, roots: seq<Root>, path: JsString, r: Reference) {
    exists i: nat :: i < |g.entries| && IsFirstAt(g, i, Coordinate(CitedRoot(path, r), r.id)) && g.Held(i)
  }

  ghost predicate IsFirstAt(g: Graph, i: nat, c: Coordinate)
    requires i < |g.entries|
  {
    g.entries[i].at == c && forall k :: 0 <= k < i ==> g.entries[k].at != c
  }

  /**
   The rule, read off the roots: a declared capability is held exactly when it cites something, every law it cites is
   declared with an active test where the reference points, and every capability it cites is held there.
   */
  lemma HeldByItsCitations(roots: seq<Root>, g: Graph, i: nat, root: Root, resource: Resource, d: Definition)
    requires g.entries == DerivationEntries(roots) && PathsHaveNoNul(roots)
    requires forall c :: g.LawActive(c) <==> IsActive(DeclaredLaws(roots), Key(c))
    requires i < |g.entries| && IsEntryOf(g.entries[i], root, resource, d)
    requires NoNul(root.path, d.laws) && NoNul(root.path, d.capabilities)
    ensures g.Held(i) <==>
      && |d.laws| + |d.capabilities| > 0
      && (forall k :: 0 <= k < |d.laws| ==> ActiveIn(roots, CitedRoot(root.path, d.laws[k]), d.laws[k].id))
      && forall k :: 0 <= k < |d.capabilities| ==> CitedIsHeld(g, roots, root.path, d.capabilities[k])
  {
    hide Graph.Held, Graph.LawActive, DerivationEntries, DeclaredLaws, ActiveIn, CitedRoot, CitedIsHeld, IsActive, Graph.Target, Key;
    var e := g.entries[i];
    HeldIsFixedPoint(g, i);
    forall k | 0 <= k < |d.laws| ensures g.LawActive(e.laws[k]) <==> ActiveIn(roots, CitedRoot(root.path, d.laws[k]), d.laws[k].id) {
      assert PointsTo(root.path, d.laws[k], e.laws[k]);
      LawsAreDeclared(roots, e.laws[k]);
    }
    forall k | 0 <= k < |d.capabilities|
      ensures g.CitedHeld(e.capabilities[k]) <==> CitedIsHeld(g, roots, root.path, d.capabilities[k])
    {
      assert PointsTo(root.path, d.capabilities[k], e.capabilities[k]);
      CitationHeld(roots, g, root.path, d.capabilities[k], e.capabilities[k]);
    }
    assert forall k :: 0 <= k < |e.capabilities| ==> (g.CitedHeld(e.capabilities[k]) <==>
      (g.Target(e.capabilities[k]).Some? && g.Target(e.capabilities[k]).value in g.HeldSet()));
  }

  lemma CitationHeld(roots: seq<Root>, g: Graph, path: JsString, r: Reference, c: Coordinate)
    requires g.entries == DerivationEntries(roots) && PathsHaveNoNul(roots)
    requires PointsTo(path, r, c) && 0 !in CitedRoot(path, r)
    ensures g.CitedHeld(c) <==> CitedIsHeld(g, roots, path, r)
  {
    hide Graph.Held, DerivationEntries, CitedRoot, Graph.Target, DeclaredIn;
    CitationTargets(roots, g, path, r, c);
    if CitedIsHeld(g, roots, path, r) {
      var i: nat :| i < |g.entries| && IsFirstAt(g, i, Coordinate(CitedRoot(path, r), r.id)) && g.Held(i);
      EntryIsDeclared(roots, g, i);
      assert DeclaredIn(roots, CitedRoot(path, r), r.id);
      assert g.Target(c).value == i;
    }
  }

  lemma EntryIsDeclared(roots: seq<Root>, g: Graph, i: nat)
    requires g.entries == DerivationEntries(roots) && i < |g.entries|
    ensures DeclaredIn(roots, g.entries[i].at.root, g.entries[i].at.id)
  {
    hide DerivationEntries, Declares;
    EntriesAreDefinitions(roots);
    assert ComesFrom(g.entries[i], roots);
  }
}
