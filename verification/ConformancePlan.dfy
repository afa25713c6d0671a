/**
 Planning conformance: which profile manifests are accepted, and the depth-first plan that lists the
 dependency closure of the requested profiles with every dependency before its dependents.
 */
module ConformancePlan {
  import opened Options
  import opened Sequences
  import opened Utf16
  import Sorting

  datatype Requirement = Requirement(capability: JsString, partial: bool, accepted: Option<seq<JsString>>)

  datatype Manifest = Manifest(
    id: JsString, version: JsString, rules: seq<JsString>, requirements: seq<Requirement>, dependsOn: seq<JsString>)

  datatype PlanError =
    | InvalidManifest
    | InstalledTwice(id: JsString)
    | DuplicateRules(id: JsString)
    | InvalidRequirement(id: JsString)
    | RequestMissing(id: JsString)
    | Cycle(id: JsString)
    | DependencyMissing(id: JsString)

  // ----- installing manifests

  ghost predicate ValidRequirement(r: Requirement) {
    && r.capability != []
    && (r.accepted.Some? ==> r.partial && r.accepted.value != [] && Sorting.Distinct(r.accepted.value))
  }

  ghost predicate ValidManifest(m: Manifest) {
    && m.id != [] && m.version != [] && m.rules != [] && Sorting.Distinct(m.rules)
    && forall i :: 0 <= i < |m.requirements| ==> ValidRequirement(m.requirements[i])
  }

  function IdOf(m: Manifest): JsString { m.id }

  ghost predicate ValidProfiles(profiles: seq<Manifest>) {
    && (forall i :: 0 <= i < |profiles| ==> ValidManifest(profiles[i]))
    && Sorting.Distinct(Sorting.Map(profiles, IdOf))
  }

  /** The first problem of a manifest installed after the given ones, in the order the checks are made. */
  ghost function Problem(before: seq<Manifest>, m: Manifest): Option<PlanError> {
    if m.id == [] || m.version == [] || m.rules == [] then Some(InvalidManifest)
    else if m.id in Sorting.Map(before, IdOf) then Some(InstalledTwice(m.id))
    else if !Sorting.Distinct(m.rules) then Some(DuplicateRules(m.id))
    else if exists i :: 0 <= i < |m.requirements| && !ValidRequirement(m.requirements[i]) then
      Some(InvalidRequirement(m.id))
    else None
  }

  ghost predicate IsFirstProblem(profiles: seq<Manifest>, error: PlanError) {
    exists i :: 0 <= i < |profiles| && ValidProfiles(profiles[..i]) && Problem(profiles[..i], profiles[i]) == Some(error)
  }

  type Installed = map<JsString, Manifest>

  function Install(profiles: seq<Manifest>): Installed {
    if profiles == [] then map[]
    else Install(profiles[..|profiles| - 1])[profiles[|profiles| - 1].id := profiles[|profiles| - 1]]
  }

  lemma MembersCount<T>(s: seq<T>)
    ensures |Sorting.Elements(s)| == |s| <==> Sorting.Distinct(s)
  {
    Sorting.FullElementsDistinct(s);
    if Sorting.Distinct(s) { Sorting.DistinctElements(s); }
  }

  lemma {:induction false} InstallHolds(profiles: seq<Manifest>, id: JsString)
    ensures id in Install(profiles) <==> id in Sorting.Map(profiles, IdOf)
    ensures id in Install(profiles) ==> Install(profiles)[id] in profiles && Install(profiles)[id].id == id
  {
    if profiles == [] {
    } else {
      var n := |profiles| - 1;
      InstallHolds(profiles[..n], id);
      var ids := Sorting.Map(profiles, IdOf);
      assert profiles == profiles[..n] + [profiles[n]];
      Sorting.MapAppend(profiles[..n], profiles[n], IdOf);
    }
  }

  method RequirementsValid(m: Manifest) returns (ok: bool)
    ensures ok <==> forall i :: 0 <= i < |m.requirements| ==> ValidRequirement(m.requirements[i])
  {
    for i := 0 to |m.requirements|
      invariant forall k :: 0 <= k < i ==> ValidRequirement(m.requirements[k])
    {
      var r := m.requirements[i];
      if r.accepted.Some? { MembersCount(r.accepted.value); }
      if r.capability == [] || (r.accepted.Some? && (!r.partial || r.accepted.value == []
        || |Sorting.Elements(r.accepted.value)| != |r.accepted.value|)) {
        return false;
      }
    }
    return true;
  }

  /** Accepts exactly the valid profile lists, and otherwise reports the first problem. */
  method InstallAll(profiles: seq<Manifest>) returns (installed: Installed, error: Option<PlanError>)
    ensures error.None? <==> ValidProfiles(profiles)
    ensures error.None? ==> installed == Install(profiles)
    ensures error.Some? ==> IsFirstProblem(profiles, error.value)
  {
    installed := map[];
    for i := 0 to |profiles|
      invariant installed == Install(profiles[..i]) && ValidProfiles(profiles[..i])
    {
      var m := profiles[i];
      InstallHolds(profiles[..i], m.id);
      ProfilesNext(profiles, i);
      if m.id == [] || m.version == [] || m.rules == [] { return installed, Some(InvalidManifest); }
      if m.id in installed { return installed, Some(InstalledTwice(m.id)); }
      MembersCount(m.rules);
      if |Sorting.Elements(m.rules)| != |m.rules| { return installed, Some(DuplicateRules(m.id)); }
      var valid := RequirementsValid(m);
      if !valid { return installed, Some(InvalidRequirement(m.id)); }
      installed := installed[m.id := m];
      assert profiles[..i + 1][..i] == profiles[..i];
    }
    assert profiles[..|profiles|] == profiles;
    return installed, None;
  }

  /** A prefix stays valid exactly when the next manifest has no problem; a bad prefix is never repaired. */
  lemma ProfilesNext(profiles: seq<Manifest>, i: nat)
    requires i < |profiles| && ValidProfiles(profiles[..i])
    ensures ValidProfiles(profiles[..i + 1]) <==> Problem(profiles[..i], profiles[i]).None?
    ensures Problem(profiles[..i], profiles[i]).Some? ==> !ValidProfiles(profiles)
  {
    var before, after := profiles[..i], profiles[..i + 1];
    var ids, more, all := Sorting.Map(before, IdOf), Sorting.Map(after, IdOf), Sorting.Map(profiles, IdOf);
    assert after == before + [profiles[i]];
    Sorting.MapAppend(before, profiles[i], IdOf);
    assert more == ids + [profiles[i].id] && more <= all;
    if Problem(before, profiles[i]).None? {
      assert ValidManifest(profiles[i]);
      forall a, b | 0 <= a < b < |more| ensures more[a] != more[b] {
        if b < i { assert ids[a] != ids[b]; } else { assert more[a] == ids[a] && ids[a] in ids; }
      }
    } else if profiles[i].id in ids {
      var a :| 0 <= a < i && ids[a] == profiles[i].id;
      assert more[a] == more[i] && all[a] == all[i];
    } else {
      assert !ValidManifest(profiles[i]);
      assert after[i] == profiles[i];
    }
  }

  // ----- the dependency graph

  ghost predicate DependsOn(g: Installed, a: JsString, b: JsString) { a in g && b in g[a].dependsOn }

  ghost predicate IsWalk(g: Installed, walk: seq<JsString>) {
    walk != [] && forall i :: 0 <= i < |walk| - 1 ==> DependsOn(g, walk[i], walk[i + 1])
  }

  ghost predicate Leads(g: Installed, walk: seq<JsString>, a: JsString, b: JsString) {
    IsWalk(g, walk) && walk[0] == a && walk[|walk| - 1] == b
  }

  ghost predicate Reaches(g: Installed, a: JsString, b: JsString) { exists walk :: Leads(g, walk, a, b) }

  ghost predicate OnCycle(g: Installed, a: JsString) { exists walk :: |walk| >= 2 && Leads(g, walk, a, a) }

  /** Every profile reachable from the id is installed and lies on no cycle. */
  ghost predicate Sound(g: Installed, a: JsString) { forall b :: Reaches(g, a, b) ==> b in g && !OnCycle(g, b) }

  lemma ReachesSelf(g: Installed, a: JsString)
    ensures Reaches(g, a, a)
  {
    assert Leads(g, [a], a, a);
  }

  lemma ReachesStep(g: Installed, a: JsString, b: JsString, c: JsString)
    requires DependsOn(g, a, b) && Reaches(g, b, c)
    ensures Reaches(g, a, c)
  {
    var walk :| Leads(g, walk, b, c);
    var longer := [a] + walk;
    forall i | 0 <= i < |longer| - 1 ensures DependsOn(g, longer[i], longer[i + 1]) {
      if i > 0 { assert longer[i] == walk[i - 1] && longer[i + 1] == walk[i]; }
    }
    assert Leads(g, longer, a, c);
  }

  // ----- the visit

  datatype Outcome = Planned(ordered: seq<JsString>) | Failed(error: PlanError)

  function Dependencies(g: Installed, id: JsString): seq<JsString>
    requires id in g
  {
    Sorting.Sort(g[id].dependsOn, Less)
  }

  /** What a visit does to the list of planned profiles, given the profiles being visited. */
  function VisitOne(g: Installed, id: JsString, visiting: set<JsString>, ordered: seq<JsString>): Outcome
    decreases |g.Keys - visiting|, 0
  {
    if id in ordered then Planned(ordered)
    else if id in visiting then Failed(Cycle(id))
    else if id !in g then Failed(DependencyMissing(id))
    else
      SmallerLeft(g, id, visiting);
      var below := VisitAll(g, Dependencies(g, id), visiting + {id}, ordered);
      if below.Failed? then below else Planned(below.ordered + [id])
  }

  function VisitAll(g: Installed, ids: seq<JsString>, visiting: set<JsString>, ordered: seq<JsString>): Outcome
    decreases |g.Keys - visiting|, 1 + |ids|
  {
    if ids == [] then Planned(ordered)
    else
      var first := VisitAll(g, ids[..|ids| - 1], visiting, ordered);
      if first.Failed? then first else VisitOne(g, ids[|ids| - 1], visiting, first.ordered)
  }

  lemma SmallerLeft(g: Installed, id: JsString, visiting: set<JsString>)
    requires id in g && id !in visiting
    ensures |g.Keys - (visiting + {id})| < |g.Keys - visiting|
  {
    assert g.Keys - visiting == (g.Keys - (visiting + {id})) + {id};
  }

  lemma SameDependencies(g: Installed, id: JsString)
    requires id in g
    ensures forall d :: d in Dependencies(g, id) <==> DependsOn(g, id, d)
  {
    Sorting.SortPermutes(g[id].dependsOn, Less);
  }

  /** Dependencies are visited in ascending order of their ids, each as often as it is listed. */
  lemma DependenciesAscend(g: Installed, id: JsString)
    requires id in g
    ensures multiset(Dependencies(g, id)) == multiset(g[id].dependsOn)
    ensures forall i, j :: 0 <= i < j < |Dependencies(g, id)| ==> !Less(Dependencies(g, id)[j], Dependencies(g, id)[i])
  {
    LessIsStrictOrder();
    Sorting.SortPermutes(g[id].dependsOn, Less);
    Sorting.SortSorts(g[id].dependsOn, Less);
  }

  /** Listed once each, installed, and after everything they depend on. */
  ghost predicate DependencyOrdered(g: Installed, ordered: seq<JsString>) {
    && Sorting.Distinct(ordered)
    && (forall k :: 0 <= k < |ordered| ==> ordered[k] in g)
    && (forall k, d :: 0 <= k < |ordered| && DependsOn(g, ordered[k], d) ==> d in ordered[..k])
  }

  ghost predicate ReachedFrom(g: Installed, ids: seq<JsString>, x: JsString) {
    exists i :: 0 <= i < |ids| && Reaches(g, ids[i], x)
  }

  /** The list is extended in dependency order by profiles that the roots reach. */
  ghost predicate Extended(g: Installed, roots: seq<JsString>, visiting: set<JsString>, before: seq<JsString>, after: seq<JsString>) {
    && before <= after && DependencyOrdered(g, after)
    && (forall id :: id in roots ==> id in after)
    && (forall x :: x in after ==> x in before || ReachedFrom(g, roots, x))
    && (forall x :: x in visiting ==> x !in after)
  }

  lemma Appended(g: Installed, id: JsString, visiting: set<JsString>, before: seq<JsString>, below: seq<JsString>)
    requires id in g && id !in visiting
    requires Extended(g, Dependencies(g, id), visiting + {id}, before, below)
    ensures Extended(g, [id], visiting, before, below + [id])
  {
    hide Reaches, Dependencies;
    SameDependencies(g, id);
    var after := below + [id];
    assert forall k :: 0 <= k <= |below| ==> after[..k] == below[..k];
    forall k, d | 0 <= k < |after| && DependsOn(g, after[k], d) ensures d in after[..k] {
      if k == |below| { assert d in below; }
    }
    forall x | x in after ensures x in before || ReachedFrom(g, [id], x) {
      assert [id][0] == id;
      if x == id {
        ReachesSelf(g, id);
      } else if x !in before {
        var i :| 0 <= i < |Dependencies(g, id)| && Reaches(g, Dependencies(g, id)[i], x);
        assert Dependencies(g, id)[i] in Dependencies(g, id);
        ReachesStep(g, id, Dependencies(g, id)[i], x);
      }
    }
  }

  lemma Joined(g: Installed, ids: seq<JsString>, visiting: set<JsString>, a: seq<JsString>, b: seq<JsString>, c: seq<JsString>)
    requires ids != []
    requires Extended(g, ids[..|ids| - 1], visiting, a, b) && Extended(g, [ids[|ids| - 1]], visiting, b, c)
    ensures Extended(g, ids, visiting, a, c)
  {
    hide Reaches, DependencyOrdered;
    var front, last := ids[..|ids| - 1], ids[|ids| - 1];
    forall id | id in ids ensures id in c {
      if id != last { assert id in front; assert id in b; } else { assert id in [last]; }
    }
    forall x | x in c ensures x in a || ReachedFrom(g, ids, x) {
      if x !in b {
        assert ReachedFrom(g, [last], x);
        assert Reaches(g, ids[|ids| - 1], x);
      } else if x !in a {
        var i :| 0 <= i < |front| && Reaches(g, front[i], x);
        assert Reaches(g, ids[i], x);
      }
    }
  }

  lemma {:induction false} VisitOneExtends(g: Installed, id: JsString, visiting: set<JsString>, ordered: seq<JsString>)
    requires DependencyOrdered(g, ordered) && forall x :: x in visiting ==> x !in ordered
    requires VisitOne(g, id, visiting, ordered).Planned?
    ensures Extended(g, [id], visiting, ordered, VisitOne(g, id, visiting, ordered).ordered)
    decreases |g.Keys - visiting|, 0
  {
    hide DependencyOrdered, Dependencies, ReachedFrom;
    if id !in ordered {
      SmallerLeft(g, id, visiting);
      VisitAllExtends(g, Dependencies(g, id), visiting + {id}, ordered);
      var below := VisitAll(g, Dependencies(g, id), visiting + {id}, ordered);
      Appended(g, id, visiting, ordered, below.ordered);
    }
  }

  lemma {:induction false} VisitAllExtends(g: Installed, ids: seq<JsString>, visiting: set<JsString>, ordered: seq<JsString>)
    requires DependencyOrdered(g, ordered) && forall x :: x in visiting ==> x !in ordered
    requires VisitAll(g, ids, visiting, ordered).Planned?
    ensures Extended(g, ids, visiting, ordered, VisitAll(g, ids, visiting, ordered).ordered)
    decreases |g.Keys - visiting|, 1 + |ids|
  {
    hide DependencyOrdered, VisitOne, ReachedFrom;
    if ids == [] {
    } else {
      var first := VisitAll(g, ids[..|ids| - 1], visiting, ordered);
      VisitAllExtends(g, ids[..|ids| - 1], visiting, ordered);
      VisitOneExtends(g, ids[|ids| - 1], visiting, first.ordered);
      Joined(g, ids, visiting, ordered, first.ordered, VisitAll(g, ids, visiting, ordered).ordered);
    }
  }

  // ----- why a visit fails

  /** The error names a profile that the id reaches and that is missing or on a cycle. */
  ghost predicate Justified(g: Installed, id: JsString, error: PlanError) {
    || (error.DependencyMissing? && Reaches(g, id, error.id) && error.id !in g)
    || (error.Cycle? && Reaches(g, id, error.id) && OnCycle(g, error.id))
  }

  /** The profiles being visited, outermost first, each depending on the next and the last on the id. */
  ghost predicate OnPath(g: Installed, path: seq<JsString>, visiting: set<JsString>, id: JsString) {
    && (forall x :: x in visiting <==> x in path)
    && IsWalk(g, path + [id])
  }

  lemma CycleClosed(g: Installed, path: seq<JsString>, visiting: set<JsString>, id: JsString)
    requires OnPath(g, path, visiting, id) && id in visiting
    ensures OnCycle(g, id)
  {
    var m :| 0 <= m < |path| && path[m] == id;
    var walk := (path + [id])[m..];
    forall i | 0 <= i < |walk| - 1 ensures DependsOn(g, walk[i], walk[i + 1]) {
      assert walk[i] == (path + [id])[m + i] && walk[i + 1] == (path + [id])[m + i + 1];
    }
    assert Leads(g, walk, id, id);
  }

  lemma PathExtended(g: Installed, path: seq<JsString>, visiting: set<JsString>, id: JsString, d: JsString)
    requires OnPath(g, path, visiting, id) && DependsOn(g, id, d)
    ensures OnPath(g, path + [id], visiting + {id}, d)
  {
    var walk := path + [id] + [d];
    forall i | 0 <= i < |walk| - 1 ensures DependsOn(g, walk[i], walk[i + 1]) {
      if i < |path| { assert walk[i] == (path + [id])[i] && walk[i + 1] == (path + [id])[i + 1]; }
    }
  }

  lemma JustifiedAbove(g: Installed, id: JsString, d: JsString, error: PlanError)
    requires DependsOn(g, id, d) && Justified(g, d, error)
    ensures Justified(g, id, error)
  {
    hide Reaches;
    ReachesStep(g, id, d, error.id);
  }

  lemma {:induction false} VisitOneFails(g: Installed, path: seq<JsString>, id: JsString, visiting: set<JsString>, ordered: seq<JsString>)
    requires OnPath(g, path, visiting, id)
    requires VisitOne(g, id, visiting, ordered).Failed?
    ensures Justified(g, id, VisitOne(g, id, visiting, ordered).error)
    decreases |g.Keys - visiting|, 0
  {
    hide Reaches, OnPath, OnCycle, DependsOn, Dependencies;
    ReachesSelf(g, id);
    if id in visiting {
      CycleClosed(g, path, visiting, id);
    } else if id in g {
      SmallerLeft(g, id, visiting);
      SameDependencies(g, id);
      forall d | d in Dependencies(g, id) ensures OnPath(g, path + [id], visiting + {id}, d) {
        PathExtended(g, path, visiting, id, d);
      }
      var d := VisitAllFails(g, path + [id], Dependencies(g, id), visiting + {id}, ordered);
      JustifiedAbove(g, id, d, VisitOne(g, id, visiting, ordered).error);
    }
  }

  lemma {:induction false} VisitAllFails(g: Installed, path: seq<JsString>, ids: seq<JsString>, visiting: set<JsString>, ordered: seq<JsString>)
    returns (id: JsString)
    requires forall id :: id in ids ==> OnPath(g, path, visiting, id)
    requires VisitAll(g, ids, visiting, ordered).Failed?
    ensures id in ids && Justified(g, id, VisitAll(g, ids, visiting, ordered).error)
    decreases |g.Keys - visiting|, 1 + |ids|
  {
    hide Justified, OnPath, VisitOne;
    var front := ids[..|ids| - 1];
    var first := VisitAll(g, front, visiting, ordered);
    assert ids[|ids| - 1] in ids && forall x :: x in front ==> x in ids;
    if first.Failed? {
      id := VisitAllFails(g, path, front, visiting, ordered);
    } else {
      id := ids[|ids| - 1];
      VisitOneFails(g, path, id, visiting, first.ordered);
    }
  }

  // ----- the plan of a list of requests

  function PlanIds(g: Installed, requested: seq<JsString>): Outcome { VisitAll(g, requested, {}, []) }

  /** A walk inside a dependency-ordered list moves strictly towards its front. */
  lemma {:induction false} WalkDescends(g: Installed, ordered: seq<JsString>, walk: seq<JsString>, k: nat) returns (m: nat)
    requires DependencyOrdered(g, ordered) && IsWalk(g, walk)
    requires k < |ordered| && walk[0] == ordered[k]
    ensures m <= k && ordered[m] == walk[|walk| - 1] && (|walk| >= 2 ==> m < k)
    decreases |walk|
  {
    if |walk| == 1 { return k; }
    assert DependsOn(g, walk[0], walk[1]);
    assert walk[1] in ordered[..k];
    var next: nat :| next < k && ordered[next] == walk[1];
    forall i | 0 <= i < |walk[1..]| - 1 ensures DependsOn(g, walk[1..][i], walk[1..][i + 1]) {
      assert DependsOn(g, walk[i + 1], walk[i + 2]);
    }
    m := WalkDescends(g, ordered, walk[1..], next);
  }

  lemma OrderedReaches(g: Installed, ordered: seq<JsString>, a: JsString, b: JsString)
    requires DependencyOrdered(g, ordered) && a in ordered && Reaches(g, a, b)
    ensures b in ordered && b in g
  {
    var k: nat :| k < |ordered| && ordered[k] == a;
    var walk :| Leads(g, walk, a, b);
    var m := WalkDescends(g, ordered, walk, k);
  }

  lemma OrderedIsAcyclic(g: Installed, ordered: seq<JsString>, a: JsString)
    requires DependencyOrdered(g, ordered) && a in ordered
    ensures !OnCycle(g, a)
  {
    if OnCycle(g, a) {
      var k: nat :| k < |ordered| && ordered[k] == a;
      var walk :| |walk| >= 2 && Leads(g, walk, a, a);
      var m := WalkDescends(g, ordered, walk, k);
      assert false;
    }
  }

  lemma OrderedIsSound(g: Installed, ordered: seq<JsString>, a: JsString)
    requires DependencyOrdered(g, ordered) && a in ordered
    ensures Sound(g, a)
  {
    forall b | Reaches(g, a, b) ensures b in g && !OnCycle(g, b) {
      OrderedReaches(g, ordered, a, b);
      OrderedIsAcyclic(g, ordered, b);
    }
  }

  /** Planning succeeds exactly when everything the requests reach is installed and acyclic. */
  lemma PlanSucceedsIff(g: Installed, requested: seq<JsString>)
    ensures PlanIds(g, requested).Planned? <==> forall id :: id in requested ==> Sound(g, id)
  {
    hide VisitAll, Sound, DependencyOrdered, Reaches;
    assert DependencyOrdered(g, []) by { EmptyIsOrdered(g); }
    if PlanIds(g, requested).Planned? {
      VisitAllExtends(g, requested, {}, []);
      forall id | id in requested ensures Sound(g, id) { OrderedIsSound(g, PlanIds(g, requested).ordered, id); }
    } else {
      forall id | id in requested ensures OnPath(g, [], {}, id) { assert IsWalk(g, [] + [id]); }
      var id := VisitAllFails(g, [], requested, {}, []);
      assert !Sound(g, id) by { NotSound(g, id, PlanIds(g, requested).error); }
    }
  }

  lemma EmptyIsOrdered(g: Installed)
    ensures DependencyOrdered(g, [])
  {
  }

  lemma NotSound(g: Installed, id: JsString, error: PlanError)
    requires Justified(g, id, error)
    ensures !Sound(g, id)
  {
    assert Reaches(g, id, error.id);
  }

  /** The plan is the dependency closure of the requests, each profile once and after its dependencies. */
  lemma PlanIsClosure(g: Installed, requested: seq<JsString>)
    requires PlanIds(g, requested).Planned?
    ensures DependencyOrdered(g, PlanIds(g, requested).ordered)
    ensures forall x :: x in PlanIds(g, requested).ordered <==> ReachedFrom(g, requested, x)
  {
    hide DependencyOrdered, Reaches, VisitAll;
    EmptyIsOrdered(g);
    VisitAllExtends(g, requested, {}, []);
    var ordered := PlanIds(g, requested).ordered;
    forall x | ReachedFrom(g, requested, x) ensures x in ordered {
      var i :| 0 <= i < |requested| && Reaches(g, requested[i], x);
      assert requested[i] in requested;
      OrderedReaches(g, ordered, requested[i], x);
    }
  }

  /** A failed plan names a profile that some request reaches and that is missing or on a cycle. */
  lemma PlanFailureIsJustified(g: Installed, requested: seq<JsString>) returns (id: JsString)
    requires PlanIds(g, requested).Failed?
    ensures id in requested && Justified(g, id, PlanIds(g, requested).error)
  {
    hide VisitAll, Justified;
    forall id | id in requested ensures OnPath(g, [], {}, id) { assert IsWalk(g, [] + [id]); }
    id := VisitAllFails(g, [], requested, {}, []);
  }

  // ----- the planner

  class Planner {
    const installed: Installed
    var included: set<JsString>
    var visiting: set<JsString>
    var ordered: seq<JsString>

    constructor (installed: Installed)
      ensures this.installed == installed && included == {} && visiting == {} && ordered == []
    {
      this.installed := installed;
      included, visiting, ordered := {}, {}, [];
    }

    ghost predicate Valid()
      reads this
    {
      included == Sorting.Elements(ordered)
    }

    method Visit(id: JsString) returns (error: Option<PlanError>)
      requires Valid()
      modifies this
      ensures error.None? ==> Valid() && visiting == old(visiting)
      ensures VisitOne(installed, id, old(visiting), old(ordered)) ==
        if error.None? then Planned(ordered) else Failed(error.value)
      decreases |installed.Keys - visiting|, 0
    {
      hide Dependencies, VisitAll;
      if id in included { return None; }
      if id in visiting { return Some(Cycle(id)); }
      if id !in installed { return Some(DependencyMissing(id)); }
      SmallerLeft(installed, id, visiting);
      ghost var outer := visiting;
      visiting := visiting + {id};
      error := VisitEach(Dependencies(installed, id));
      if error.Some? { return; }
      assert visiting - {id} == outer;
      visiting := visiting - {id};
      included := included + {id};
      ordered := ordered + [id];
    }

    method VisitEach(ids: seq<JsString>) returns (error: Option<PlanError>)
      requires Valid()
      modifies this
      ensures error.None? ==> Valid() && visiting == old(visiting)
      ensures VisitAll(installed, ids, old(visiting), old(ordered)) ==
        if error.None? then Planned(ordered) else Failed(error.value)
      decreases |installed.Keys - visiting|, 1
    {
      hide VisitOne, VisitAll, Dependencies;
      error := None;
      assert VisitAll(installed, ids[..0], visiting, ordered) == Planned(ordered) by { AllStarts(installed, ids, visiting, ordered); }
      for i := 0 to |ids|
        invariant error.None? && Valid() && visiting == old(visiting)
        invariant VisitAll(installed, ids[..i], old(visiting), old(ordered)) == Planned(ordered)
      {
        AllNext(installed, ids, i, old(visiting), old(ordered));
        error := Visit(ids[i]);
        if error.Some? {
          FailureStays(installed, ids, i + 1, old(visiting), old(ordered));
          return;
        }
      }
      assert ids[..|ids|] == ids;
    }
  }

  lemma AllStarts(g: Installed, ids: seq<JsString>, visiting: set<JsString>, ordered: seq<JsString>)
    ensures VisitAll(g, ids[..0], visiting, ordered) == Planned(ordered)
  {
  }

  lemma AllNext(g: Installed, ids: seq<JsString>, i: nat, visiting: set<JsString>, ordered: seq<JsString>)
    requires i < |ids| && VisitAll(g, ids[..i], visiting, ordered).Planned?
    ensures VisitAll(g, ids[..i + 1], visiting, ordered) ==
      VisitOne(g, ids[i], visiting, VisitAll(g, ids[..i], visiting, ordered).ordered)
  {
    hide VisitOne;
    assert ids[..i + 1][..i] == ids[..i];
  }

  lemma {:induction false} FailureStays(g: Installed, ids: seq<JsString>, i: nat, visiting: set<JsString>, ordered: seq<JsString>)
    requires i <= |ids| && VisitAll(g, ids[..i], visiting, ordered).Failed?
    ensures VisitAll(g, ids, visiting, ordered) == VisitAll(g, ids[..i], visiting, ordered)
    decreases |ids|
  {
    if i < |ids| {
      var n := |ids| - 1;
      assert ids[..n][..i] == ids[..i];
      FailureStays(g, ids[..n], i, visiting, ordered);
    } else {
      assert ids[..i] == ids;
    }
  }

  // ----- the whole operation

  datatype Scope = Full | Focused(requested: seq<JsString>, included: seq<JsString>, support: seq<JsString>)

  datatype Result = Plan(ordered: seq<JsString>, scope: Scope) | Rejected(error: PlanError)

  function NotIn(drop: seq<JsString>): JsString -> bool { id => id !in drop }

  /** The strictly ascending list of the members. */
  ghost predicate SortedMembers(ids: seq<JsString>, members: set<JsString>) {
    Sorting.Ascending(ids, Less) && forall id :: id in ids <==> id in members
  }

  /** The requests to plan: the named ones, or every installed profile. */
  function Requests(profiles: seq<Manifest>, requested: Option<seq<JsString>>): seq<JsString> {
    Sorting.Sort(Deduplicate(if requested.Some? then requested.value else Sorting.Map(profiles, IdOf)), Less)
  }

  lemma RequestsAreSorted(profiles: seq<Manifest>, requested: Option<seq<JsString>>)
    ensures SortedMembers(Requests(profiles, requested),
      Sorting.Elements(if requested.Some? then requested.value else Sorting.Map(profiles, IdOf)))
  {
    LessIsStrictOrder();
    var ids := if requested.Some? then requested.value else Sorting.Map(profiles, IdOf);
    DeduplicateHolds(ids);
    Sorting.SortDistinct(Deduplicate(ids), Less);
  }

  /** The first request that is not installed, in order. */
  function FirstMissing(g: Installed, ids: seq<JsString>): Option<JsString> {
    if ids == [] then None else if ids[0] !in g then Some(ids[0]) else FirstMissing(g, ids[1..])
  }

  lemma {:induction false} FirstMissingIff(g: Installed, ids: seq<JsString>)
    ensures FirstMissing(g, ids).None? <==> forall id :: id in ids ==> id in g
    ensures FirstMissing(g, ids).Some? ==> FirstMissing(g, ids).value in ids && FirstMissing(g, ids).value !in g
  {
    if ids == [] {
    } else {
      FirstMissingIff(g, ids[1..]);
      assert ids == [ids[0]] + ids[1..];
    }
  }

  ghost function ScopeOf(requested: Option<seq<JsString>>, requests: seq<JsString>, ordered: seq<JsString>): Scope {
    if requested.None? then Full else Focused(requests, ordered, Filter(ordered, NotIn(requests)))
  }

  /** The outcome for accepted profiles. */
  ghost function Planning(profiles: seq<Manifest>, requested: Option<seq<JsString>>): Result {
    var g, requests := Install(profiles), Requests(profiles, requested);
    if FirstMissing(g, requests).Some? then Rejected(RequestMissing(FirstMissing(g, requests).value))
    else match PlanIds(g, requests)
      case Failed(error) => Rejected(error)
      case Planned(ordered) => Plan(ordered, ScopeOf(requested, requests, ordered))
  }

  method PlanConformance(profiles: seq<Manifest>, requested: Option<seq<JsString>>) returns (result: Result)
    ensures ValidProfiles(profiles) ==> result == Planning(profiles, requested)
    ensures !ValidProfiles(profiles) ==> result.Rejected? && IsFirstProblem(profiles, result.error)
  {
    hide ValidProfiles, IsFirstProblem, VisitAll;
    var installed, error := InstallAll(profiles);
    if error.Some? { return Rejected(error.value); }
    var requests := Requests(profiles, requested);
    var missing := FirstMissing(installed, requests);
    if missing.Some? { return Rejected(RequestMissing(missing.value)); }
    var planner := new Planner(installed);
    error := planner.VisitEach(requests);
    if error.Some? { return Rejected(error.value); }
    return Plan(planner.ordered,
      if requested.None? then Full else Focused(requests, planner.ordered, Filter(planner.ordered, NotIn(requests))));
  }

  // ----- what the operation promises

  ghost function Named(profiles: seq<Manifest>, requested: Option<seq<JsString>>): set<JsString> {
    Sorting.Elements(if requested.Some? then requested.value else Sorting.Map(profiles, IdOf))
  }

  /** For accepted profiles a plan exists exactly when every named profile is sound. */
  lemma PlanningSucceedsIff(profiles: seq<Manifest>, requested: Option<seq<JsString>>)
    ensures Planning(profiles, requested).Plan? <==> forall id :: id in Named(profiles, requested) ==> Sound(Install(profiles), id)
  {
    hide VisitAll, Sound, Requests, Deduplicate;
    var g, requests := Install(profiles), Requests(profiles, requested);
    RequestsAreSorted(profiles, requested);
    FirstMissingIff(g, requests);
    PlanSucceedsIff(g, requests);
    forall id | Sound(g, id) ensures id in g { SoundIsInstalled(g, id); }
    assert forall id :: id in requests <==> id in Named(profiles, requested);
    if FirstMissing(g, requests).Some? { assert !Sound(g, FirstMissing(g, requests).value); }
  }

  lemma SoundIsInstalled(g: Installed, id: JsString)
    requires Sound(g, id)
    ensures id in g
  {
    ReachesSelf(g, id);
  }

  /** The scope lists the requests in order, the plan, and the planned profiles that were not requested. */
  ghost predicate IsFocus(scope: Scope, requested: seq<JsString>, ordered: seq<JsString>) {
    && scope.Focused? && SortedMembers(scope.requested, Sorting.Elements(requested)) && scope.included == ordered
    && forall x :: x in scope.support <==> x in ordered && x !in requested
  }

  /** ... and it lists exactly the profiles the named ones reach, in dependency order. */
  lemma PlanningIsClosure(profiles: seq<Manifest>, requested: Option<seq<JsString>>)
    requires Planning(profiles, requested).Plan?
    ensures var plan := Planning(profiles, requested);
      && DependencyOrdered(Install(profiles), plan.ordered)
      && (forall x :: x in plan.ordered <==>
           exists id :: id in Named(profiles, requested) && Reaches(Install(profiles), id, x))
      && (requested.None? ==> plan.scope == Full)
      && (requested.Some? ==> IsFocus(plan.scope, requested.value, plan.ordered))
  {
    hide VisitAll, DependencyOrdered, Requests, Reaches, Filter;
    var g, requests := Install(profiles), Requests(profiles, requested);
    RequestsAreSorted(profiles, requested);
    PlanIsClosure(g, requests);
    var ordered := PlanIds(g, requests).ordered;
    forall x ensures x in ordered <==> exists id :: id in Named(profiles, requested) && Reaches(g, id, x) {
      if x in ordered {
        var i :| 0 <= i < |requests| && Reaches(g, requests[i], x);
        assert requests[i] in requests;
      }
      if id :| id in Named(profiles, requested) && Reaches(g, id, x) {
        var i :| 0 <= i < |requests| && requests[i] == id;
        assert ReachedFrom(g, requests, x);
      }
    }
    FilterMembers(ordered, NotIn(requests));
  }

  /** Neither the order of the profiles nor the order or repetition of the requests matters. */
  lemma OrderIsIrrelevant(a: seq<Manifest>, b: seq<Manifest>, p: Option<seq<JsString>>, q: Option<seq<JsString>>)
    requires multiset(a) == multiset(b)
    requires p.Some? <==> q.Some?
    requires p.Some? ==> Sorting.Elements(p.value) == Sorting.Elements(q.value)
    ensures ValidProfiles(a) <==> ValidProfiles(b)
    ensures ValidProfiles(a) ==> Planning(a, p) == Planning(b, q)
  {
    hide ValidManifest, Install, PlanIds, FirstMissing, Requests;
    if ValidProfiles(b) { ValidInAnyOrder(b, a); }
    if ValidProfiles(a) {
      ValidInAnyOrder(a, b);
      SameInstall(a, b);
      Sorting.SameMultiset(a, b);
      Sorting.SameKeys(a, b, IdOf);
      RequestsAreSorted(a, p);
      RequestsAreSorted(b, q);
      LessIsStrictOrder();
      Sorting.AscendingUnique(Requests(a, p), Requests(b, q), Less);
    }
  }

  lemma ValidInAnyOrder(a: seq<Manifest>, b: seq<Manifest>)
    requires multiset(a) == multiset(b) && ValidProfiles(a)
    ensures ValidProfiles(b)
  {
    hide ValidManifest;
    Sorting.SameMultiset(a, b);
    forall i | 0 <= i < |b| ensures ValidManifest(b[i]) { assert b[i] in a; }
    Sorting.SameKeys(a, b, IdOf);
    var p, q := Sorting.Map(a, IdOf), Sorting.Map(b, IdOf);
    assert Sorting.Elements(p) == Sorting.Elements(q);
    MembersCount(p);
    MembersCount(q);
  }

  lemma SameInstall(a: seq<Manifest>, b: seq<Manifest>)
    requires multiset(a) == multiset(b) && Sorting.Distinct(Sorting.Map(a, IdOf))
    ensures Install(a) == Install(b)
  {
    Sorting.SameMultiset(a, b);
    Sorting.SameKeys(a, b, IdOf);
    forall id ensures id in Install(a) <==> id in Install(b) {
      InstallHolds(a, id);
      InstallHolds(b, id);
    }
    forall id | id in Install(a) ensures Install(a)[id] == Install(b)[id] {
      InstallHolds(a, id);
      InstallHolds(b, id);
      Sorting.SameKeySame(a, IdOf, Install(a)[id], Install(b)[id]);
    }
  }
}
