/**
 Partitioning declaration entries into compatible groups by first fit, and planning compiler universes from
 the partitions of each project.
 */
module DeclarationPartition {
  import opened Options
  import opened Sequences
  import opened Utf16

  datatype Prepared = Prepared(index: nat, mainFile: JsString, projectRoot: JsString)

  /** A discovered entry: its rendered external modules by specifier, and the roots it references. */
  datatype Entry = Entry(ambientEffects: bool, modules: map<JsString, JsString>, rootReferences: set<JsString>)

  datatype Group = Group(
    requests: seq<Prepared>, modules: map<JsString, JsString>, roots: set<JsString>, rootReferences: set<JsString>)

  type Corpus = map<JsString, Entry>

  ghost predicate Discovered(requests: seq<Prepared>, entries: Corpus) {
    forall i :: 0 <= i < |requests| ==> requests[i].mainFile in entries
  }

  // ----- compatibility

  predicate SameSources(a: map<JsString, JsString>, b: map<JsString, JsString>) {
    forall s :: s in a && s in b ==> a[s] == b[s]
  }

  /** They agree on every common specifier and neither is a root reference of the other. */
  predicate Compatible(a: Prepared, b: Prepared, entries: Corpus)
    requires a.mainFile in entries && b.mainFile in entries
  {
    && SameSources(entries[a.mainFile].modules, entries[b.mainFile].modules)
    && a.mainFile !in entries[b.mainFile].rootReferences && b.mainFile !in entries[a.mainFile].rootReferences
  }

  /** What the search for a group checks. */
  predicate Accepts(g: Group, r: Prepared, entry: Entry) {
    && SameSources(entry.modules, g.modules)
    && (forall reference :: reference in entry.rootReferences ==> reference !in g.roots)
    && r.mainFile !in g.rootReferences
  }

  function Open(r: Prepared, entry: Entry): Group { Group([r], entry.modules, {r.mainFile}, entry.rootReferences) }

  function Join(g: Group, r: Prepared, entry: Entry): Group {
    Group(g.requests + [r], g.modules + entry.modules, g.roots + {r.mainFile}, g.rootReferences + entry.rootReferences)
  }

  /** The group's tables collect its members, which are pairwise compatible and without ambient effects. */
  ghost predicate GroupOk(g: Group, entries: Corpus) {
    && g.requests != [] && Discovered(g.requests, entries)
    && (forall i :: 0 <= i < |g.requests| ==> Collected(g, entries[g.requests[i].mainFile], g.requests[i].mainFile))
    && (forall s :: s in g.modules ==> HasModule(g.requests, entries, s))
    && (forall f :: f in g.roots ==> HasRoot(g.requests, f))
    && (forall f :: f in g.rootReferences ==> HasReference(g.requests, entries, f))
    && PairwiseCompatible(g.requests, entries)
  }

  ghost predicate PairwiseCompatible(requests: seq<Prepared>, entries: Corpus)
    requires Discovered(requests, entries)
  {
    && (forall i :: 0 <= i < |requests| ==> !entries[requests[i].mainFile].ambientEffects)
    && (forall i, j :: 0 <= i < j < |requests| ==> Compatible(requests[i], requests[j], entries))
  }

  ghost predicate Collected(g: Group, entry: Entry, mainFile: JsString) {
    && (forall s :: s in entry.modules ==> s in g.modules && g.modules[s] == entry.modules[s])
    && mainFile in g.roots && entry.rootReferences <= g.rootReferences
  }

  ghost predicate HasModule(requests: seq<Prepared>, entries: Corpus, s: JsString)
    requires Discovered(requests, entries)
  {
    exists i :: 0 <= i < |requests| && s in entries[requests[i].mainFile].modules
  }

  ghost predicate HasRoot(requests: seq<Prepared>, f: JsString) {
    exists i :: 0 <= i < |requests| && requests[i].mainFile == f
  }

  ghost predicate HasReference(requests: seq<Prepared>, entries: Corpus, f: JsString)
    requires Discovered(requests, entries)
  {
    exists i :: 0 <= i < |requests| && f in entries[requests[i].mainFile].rootReferences
  }

  /** The tables decide compatibility with every member at once. */
  lemma AcceptsIff(g: Group, r: Prepared, entries: Corpus)
    requires GroupOk(g, entries) && r.mainFile in entries
    ensures Accepts(g, r, entries[r.mainFile]) <==>
      forall i :: 0 <= i < |g.requests| ==> Compatible(g.requests[i], r, entries)
  {
    hide PairwiseCompatible;
    var entry := entries[r.mainFile];
    if Accepts(g, r, entry) {
      forall i | 0 <= i < |g.requests| ensures Compatible(g.requests[i], r, entries) {
        assert Collected(g, entries[g.requests[i].mainFile], g.requests[i].mainFile);
      }
    }
    if forall i :: 0 <= i < |g.requests| ==> Compatible(g.requests[i], r, entries) {
      forall s | s in entry.modules && s in g.modules ensures entry.modules[s] == g.modules[s] {
        assert HasModule(g.requests, entries, s);
        var i :| 0 <= i < |g.requests| && s in entries[g.requests[i].mainFile].modules;
        assert Collected(g, entries[g.requests[i].mainFile], g.requests[i].mainFile);
      }
      forall reference | reference in entry.rootReferences ensures reference !in g.roots {
        if reference in g.roots { assert false; }
      }
      if r.mainFile in g.rootReferences { assert false; }
    }
  }

  lemma OpenOk(r: Prepared, entries: Corpus)
    requires r.mainFile in entries && !entries[r.mainFile].ambientEffects
    ensures GroupOk(Open(r, entries[r.mainFile]), entries)
  {
    var g := Open(r, entries[r.mainFile]);
    assert g.requests[0] == r;
  }

  lemma MembersStay(requests: seq<Prepared>, r: Prepared, entries: Corpus)
    requires Discovered(requests, entries) && r.mainFile in entries
    ensures Discovered(requests + [r], entries)
    ensures forall s :: HasModule(requests, entries, s) || s in entries[r.mainFile].modules ==> HasModule(requests + [r], entries, s)
    ensures forall f :: HasRoot(requests, f) || f == r.mainFile ==> HasRoot(requests + [r], f)
    ensures forall f :: HasReference(requests, entries, f) || f in entries[r.mainFile].rootReferences ==>
      HasReference(requests + [r], entries, f)
  {
    var all := requests + [r];
    assert all[|requests|] == r;
    forall s | HasModule(requests, entries, s) || s in entries[r.mainFile].modules ensures HasModule(all, entries, s) {
      if HasModule(requests, entries, s) {
        var i :| 0 <= i < |requests| && s in entries[requests[i].mainFile].modules;
        assert all[i] == requests[i];
      }
    }
    forall f | HasRoot(requests, f) || f == r.mainFile ensures HasRoot(all, f) {
      if HasRoot(requests, f) {
        var i :| 0 <= i < |requests| && requests[i].mainFile == f;
        assert all[i] == requests[i];
      }
    }
    forall f | HasReference(requests, entries, f) || f in entries[r.mainFile].rootReferences ensures HasReference(all, entries, f) {
      if HasReference(requests, entries, f) {
        var i :| 0 <= i < |requests| && f in entries[requests[i].mainFile].rootReferences;
        assert all[i] == requests[i];
      }
    }
  }

  lemma JoinOk(g: Group, r: Prepared, entries: Corpus)
    requires GroupOk(g, entries) && r.mainFile in entries && !entries[r.mainFile].ambientEffects
    requires Accepts(g, r, entries[r.mainFile])
    ensures GroupOk(Join(g, r, entries[r.mainFile]), entries)
  {
    hide HasModule, HasRoot, HasReference, Compatible;
    var entry := entries[r.mainFile];
    var after := Join(g, r, entry);
    MembersStay(g.requests, r, entries);
    AcceptsIff(g, r, entries);
    forall i | 0 <= i < |after.requests|
      ensures Collected(after, entries[after.requests[i].mainFile], after.requests[i].mainFile)
    {
      if i < |g.requests| { assert Collected(g, entries[g.requests[i].mainFile], g.requests[i].mainFile); }
    }
    forall i, j | 0 <= i < j < |after.requests| ensures Compatible(after.requests[i], after.requests[j], entries) {
      assert after.requests[i] == g.requests[i];
    }
  }

  // ----- first fit

  function RequestLists(groups: seq<Group>): (r: seq<seq<Prepared>>)
    ensures |r| == |groups|
  {
    seq(|groups|, i requires 0 <= i < |groups| => groups[i].requests)
  }

  /** Some member conflicts with the request, now and after the group has grown. */
  ghost predicate Conflicts(requests: seq<Prepared>, r: Prepared, entries: Corpus) {
    && Discovered(requests, entries) && r.mainFile in entries
    && exists i :: 0 <= i < |requests| && !Compatible(requests[i], r, entries)
  }

  /** The request that opened a group conflicted with every group before it. */
  ghost predicate FirstFit(groups: seq<Group>, entries: Corpus) {
    forall i, j :: 0 <= i < j < |groups| ==>
      groups[j].requests != [] && Conflicts(groups[i].requests, groups[j].requests[0], entries)
  }

  ghost predicate GroupsOk(groups: seq<Group>, entries: Corpus) {
    (forall k :: 0 <= k < |groups| ==> GroupOk(groups[k], entries)) && FirstFit(groups, entries)
  }

  ghost predicate IsolatedOk(isolated: seq<seq<Prepared>>, entries: Corpus) {
    forall k :: 0 <= k < |isolated| ==>
      |isolated[k]| == 1 && isolated[k][0].mainFile in entries && entries[isolated[k][0].mainFile].ambientEffects
  }

  method FindGroup(groups: seq<Group>, r: Prepared, entries: Corpus) returns (found: Option<nat>)
    requires GroupsOk(groups, entries) && r.mainFile in entries
    ensures found.Some? ==> found.value < |groups| && Accepts(groups[found.value], r, entries[r.mainFile])
    ensures found.None? ==> forall k :: 0 <= k < |groups| ==> Conflicts(groups[k].requests, r, entries)
  {
    hide FirstFit, GroupOk, Accepts;
    for k := 0 to |groups|
      invariant forall j :: 0 <= j < k ==> Conflicts(groups[j].requests, r, entries)
    {
      OkIsDiscovered(groups[k], entries);
      if Accepts(groups[k], r, entries[r.mainFile]) { return Some(k); }
      AcceptsIff(groups[k], r, entries);
    }
    found := None;
  }

  ghost predicate GroupDiscovered(g: Group, entries: Corpus) { Discovered(g.requests, entries) }

  lemma OkIsDiscovered(g: Group, entries: Corpus)
    requires GroupOk(g, entries)
    ensures Discovered(g.requests, entries) && g.requests != []
  {
  }

  lemma OpenGroup(groups: seq<Group>, r: Prepared, entries: Corpus)
    requires GroupsOk(groups, entries) && r.mainFile in entries && !entries[r.mainFile].ambientEffects
    requires forall k :: 0 <= k < |groups| ==> Conflicts(groups[k].requests, r, entries)
    ensures GroupsOk(groups + [Open(r, entries[r.mainFile])], entries)
    ensures RequestLists(groups + [Open(r, entries[r.mainFile])]) == RequestLists(groups) + [[r]]
  {
    hide GroupOk, Conflicts;
    OpenOk(r, entries);
    var after := groups + [Open(r, entries[r.mainFile])];
    forall k | 0 <= k < |after| ensures GroupDiscovered(after[k], entries) && after[k].requests != [] { OkIsDiscovered(after[k], entries); }
    forall i, j | 0 <= i < j < |after| ensures Conflicts(after[i].requests, after[j].requests[0], entries) {
      if j == |groups| { assert after[j].requests[0] == r; }
    }
  }

  lemma JoinGroup(groups: seq<Group>, k: nat, r: Prepared, entries: Corpus)
    requires GroupsOk(groups, entries) && r.mainFile in entries && !entries[r.mainFile].ambientEffects
    requires k < |groups| && Accepts(groups[k], r, entries[r.mainFile])
    ensures GroupsOk(groups[k := Join(groups[k], r, entries[r.mainFile])], entries)
    ensures RequestLists(groups[k := Join(groups[k], r, entries[r.mainFile])]) ==
      RequestLists(groups)[k := RequestLists(groups)[k] + [r]]
  {
    hide GroupOk, Accepts;
    JoinOk(groups[k], r, entries);
    var after := groups[k := Join(groups[k], r, entries[r.mainFile])];
    forall i | 0 <= i < |after| ensures GroupDiscovered(after[i], entries) && after[i].requests != [] { OkIsDiscovered(after[i], entries); }
    forall i | 0 <= i < |groups| ensures GroupDiscovered(groups[i], entries) && groups[i].requests != [] { OkIsDiscovered(groups[i], entries); }
    forall i, j | 0 <= i < j < |after| ensures Conflicts(after[i].requests, after[j].requests[0], entries) {
      assert Conflicts(groups[i].requests, groups[j].requests[0], entries);
      var m :| 0 <= m < |groups[i].requests| && !Compatible(groups[i].requests[m], groups[j].requests[0], entries);
      assert after[i].requests[m] == groups[i].requests[m];
    }
  }

  /** What a partition promises. */
  ghost predicate IsPartition(parts: seq<seq<Prepared>>, requests: seq<Prepared>, entries: Corpus) {
    && multiset(Flatten(parts)) == multiset(requests)
    && forall k :: 0 <= k < |parts| ==> PartOk(parts[k], entries)
  }

  /** Alone because of ambient effects, or pairwise compatible. */
  ghost predicate PartOk(part: seq<Prepared>, entries: Corpus) {
    && part != [] && Discovered(part, entries)
    && ((|part| == 1 && entries[part[0].mainFile].ambientEffects) || PairwiseCompatible(part, entries))
  }

  /**
   Every request is in exactly one partition; shared partitions are pairwise compatible; entries with ambient
   effects are alone; and no two compatible partitions could have been one.
   */
  method PartitionDeclarationEntries(requests: seq<Prepared>, entries: Corpus) returns (parts: seq<seq<Prepared>>)
    requires Discovered(requests, entries)
    ensures IsPartition(parts, requests, entries)
    ensures forall i, j :: 0 <= i < j < |parts| ==> !CouldMerge(parts[i], parts[j], entries)
  {
    hide GroupsOk, Accepts, Flatten;
    var groups: seq<Group> := [];
    var isolated: seq<seq<Prepared>> := [];
    assert GroupsOk(groups, entries) by { NoGroups(entries); }
    NothingFlat();
    for i := 0 to |requests|
      invariant GroupsOk(groups, entries) && IsolatedOk(isolated, entries)
      invariant multiset(Flatten(RequestLists(groups))) + multiset(Flatten(isolated)) == multiset(requests[..i])
    {
      var r := requests[i];
      assert requests[..i + 1] == requests[..i] + [r];
      var entry := entries[r.mainFile];
      if entry.ambientEffects {
        FlattenSnoc(isolated, [r]);
        isolated := isolated + [[r]];
        continue;
      }
      var found := FindGroup(groups, r, entries);
      if found.None? {
        OpenGroup(groups, r, entries);
        FlattenSnoc(RequestLists(groups), [r]);
        groups := groups + [Open(r, entry)];
      } else {
        JoinGroup(groups, found.value, r, entries);
        FlattenGrow(RequestLists(groups), found.value, r);
        groups := groups[found.value := Join(groups[found.value], r, entry)];
      }
    }
    assert requests[..|requests|] == requests;
    parts := RequestLists(groups) + isolated;
    FlattenAppend(RequestLists(groups), isolated);
    PartsAreOk(groups, isolated, entries);
  }

  lemma NoGroups(entries: Corpus)
    ensures GroupsOk([], entries)
  {
  }

  lemma NothingFlat()
    ensures Flatten(RequestLists([])) == [] && Flatten<Prepared>([]) == []
  {
    assert RequestLists([]) == [];
  }

  /** Both partitions are without ambient effects and all their members together are pairwise compatible. */
  ghost predicate CouldMerge(a: seq<Prepared>, b: seq<Prepared>, entries: Corpus) {
    Discovered(a + b, entries) && PairwiseCompatible(a + b, entries)
  }

  lemma PartsAreOk(groups: seq<Group>, isolated: seq<seq<Prepared>>, entries: Corpus)
    requires GroupsOk(groups, entries) && IsolatedOk(isolated, entries)
    ensures var parts := RequestLists(groups) + isolated;
      && (forall k :: 0 <= k < |parts| ==> PartOk(parts[k], entries))
      && (forall i, j :: 0 <= i < j < |parts| ==> !CouldMerge(parts[i], parts[j], entries))
  {
    var parts := RequestLists(groups) + isolated;
    forall k | 0 <= k < |parts| ensures PartOk(parts[k], entries) {
      if k < |groups| { assert GroupOk(groups[k], entries); assert parts[k] == groups[k].requests; } else { assert parts[k] == isolated[k - |groups|]; }
    }
    forall i, j | 0 <= i < j < |parts| ensures !CouldMerge(parts[i], parts[j], entries) {
      if j < |groups| {
        assert GroupOk(groups[i], entries) && GroupOk(groups[j], entries);
        assert Conflicts(groups[i].requests, groups[j].requests[0], entries);
        ConflictBlocks(groups[i].requests, groups[j].requests, entries);
      } else {
        assert parts[j] == isolated[j - |groups|];
        AmbientBlocks(parts[i], parts[j], entries);
      }
    }
  }

  lemma ConflictBlocks(a: seq<Prepared>, b: seq<Prepared>, entries: Corpus)
    requires Discovered(a, entries) && Discovered(b, entries) && b != [] && Conflicts(a, b[0], entries)
    ensures !CouldMerge(a, b, entries)
  {
    hide Compatible;
    var m :| 0 <= m < |a| && !Compatible(a[m], b[0], entries);
    assert (a + b)[m] == a[m] && (a + b)[|a|] == b[0];
  }

  lemma AmbientBlocks(a: seq<Prepared>, b: seq<Prepared>, entries: Corpus)
    requires |b| == 1 && b[0].mainFile in entries && entries[b[0].mainFile].ambientEffects
    ensures !CouldMerge(a, b, entries)
  {
    assert (a + b)[|a|] == b[0];
  }
}
