/**
 Planning compiler universes: requests are grouped by project, each group is partitioned, and the batches of all
 groups are listed by their first request. A request that cannot be located is compiled alone, and so is one whose
 entry cannot be discovered. Nothing is lost or planned twice.
 */
module CompilerUniverses {
  import opened DeclarationPartition
  import opened InsertionMap
  import opened Options
  import opened Sequences
  import opened Utf16
  import Sorting

  datatype Located = Located(mainFile: JsString, projectRoot: JsString)

  /**
   What the file system says: where a request's main file and project are, absent when it is not an admissible
   declaration file, and what an entry of a project is, absent when discovering it throws.
   */
  datatype Files = Files(
    locate: nat -> Option<Located>, discover: (JsString, JsString) -> Option<Entry>)

  type Groups = Entries<JsString, seq<Prepared>>

  function GroupLists(groups: Groups): (r: seq<seq<Prepared>>)
    ensures |r| == |groups|
  {
    seq(|groups|, i requires 0 <= i < |groups| => groups[i].1)
  }

  function IndexOf(p: Prepared): nat { p.index }

  function Indexes(s: seq<Prepared>): seq<nat> { Sorting.Map(s, IndexOf) }

  function AddTo(groups: Groups, p: Prepared): Groups {
    var found := Find(groups, p.projectRoot);
    Put(groups, p.projectRoot, (if found.Some? then found.value else []) + [p])
  }

  lemma {:induction false} AddToMultiset(groups: Groups, p: Prepared)
    ensures multiset(Flatten(GroupLists(AddTo(groups, p)))) == multiset(Flatten(GroupLists(groups))) + multiset{p}
  {
    hide Flatten;
    if groups == [] {
      assert [] + [p] == [p];
      assert AddTo(groups, p) == [(p.projectRoot, [p])];
      assert GroupLists(AddTo(groups, p)) == [[p]] && GroupLists(groups) == [];
      FlattenOne([p]);
      NothingFlattened();
    } else if groups[0].0 == p.projectRoot {
      var after := AddTo(groups, p);
      assert GroupLists(after) == GroupLists(groups)[0 := GroupLists(groups)[0] + [p]];
      FlattenGrow(GroupLists(groups), 0, p);
    } else {
      var after := AddTo(groups, p);
      assert after == [groups[0]] + AddTo(groups[1..], p);
      AddToMultiset(groups[1..], p);
      assert GroupLists(after) == [groups[0].1] + GroupLists(after[1..]);
      assert GroupLists(groups) == [groups[0].1] + GroupLists(groups[1..]);
      FlattenHead(GroupLists(after));
      FlattenHead(GroupLists(groups));
    }
  }

  /** Every group holds located requests of its own project. */
  ghost predicate GroupsLocated(files: Files, groups: Groups) {
    forall k, i :: 0 <= k < |groups| && 0 <= i < |groups[k].1| ==> IsLocated(files, groups[k].1[i], groups[k].0)
  }

  ghost predicate IsLocated(files: Files, p: Prepared, root: JsString) {
    p.projectRoot == root && files.locate(p.index) == Some(Located(p.mainFile, root))
  }

  lemma {:induction false} AddToLocated(files: Files, groups: Groups, p: Prepared)
    requires GroupsLocated(files, groups) && IsLocated(files, p, p.projectRoot)
    ensures GroupsLocated(files, AddTo(groups, p))
  {
    if groups == [] {
    } else {
      var after := AddTo(groups, p);
      if groups[0].0 == p.projectRoot {
        assert after == [(p.projectRoot, groups[0].1 + [p])] + groups[1..];
      } else {
        assert GroupsLocated(files, groups[1..]) by {
          forall k, i | 0 <= k < |groups[1..]| && 0 <= i < |groups[1..][k].1|
            ensures IsLocated(files, groups[1..][k].1[i], groups[1..][k].0)
          {
            assert IsLocated(files, groups[k + 1].1[i], groups[k + 1].0);
          }
        }
        AddToLocated(files, groups[1..], p);
        assert after == [groups[0]] + AddTo(groups[1..], p);
      }
    }
  }

  // ----- compatible batches

  /** Two requests of one project whose entries may share a compiler universe. */
  ghost predicate Related(files: Files, a: nat, b: nat) {
    var la, lb := files.locate(a), files.locate(b);
    && la.Some? && lb.Some? && la.value.projectRoot == lb.value.projectRoot
    && var ea, eb := files.discover(la.value.projectRoot, la.value.mainFile), files.discover(lb.value.projectRoot, lb.value.mainFile);
      && ea.Some? && eb.Some? && !ea.value.ambientEffects && !eb.value.ambientEffects
      && SameSources(ea.value.modules, eb.value.modules)
      && la.value.mainFile !in eb.value.rootReferences && lb.value.mainFile !in ea.value.rootReferences
  }

  ghost predicate BatchOk(files: Files, batch: seq<nat>) {
    batch != [] && (|batch| == 1 || forall i, j :: 0 <= i < j < |batch| ==> Related(files, batch[i], batch[j]))
  }

  ghost predicate BatchesOk(files: Files, batches: seq<seq<nat>>) {
    forall k :: 0 <= k < |batches| ==> BatchOk(files, batches[k])
  }

  /** The entries are what discovery says about the valid requests. */
  ghost predicate CorpusOk(files: Files, root: JsString, valid: seq<Prepared>, entries: Corpus) {
    && (forall i :: 0 <= i < |valid| ==> IsLocated(files, valid[i], root) && valid[i].mainFile in entries)
    && (forall f :: f in entries ==> files.discover(root, f) == Some(entries[f]))
  }

  lemma PartIsBatch(files: Files, root: JsString, part: seq<Prepared>, entries: Corpus)
    requires PartOk(part, entries) && (forall f :: f in entries ==> files.discover(root, f) == Some(entries[f]))
    requires forall i :: 0 <= i < |part| ==> IsLocated(files, part[i], root)
    ensures BatchOk(files, Indexes(part))
  {
    var batch := Indexes(part);
    assert forall i :: 0 <= i < |part| ==> batch[i] == IndexOf(part[i]);
    if |part| > 1 {
      forall i, j | 0 <= i < j < |part| ensures Related(files, batch[i], batch[j]) {
        assert IsLocated(files, part[i], root) && IsLocated(files, part[j], root);
        assert Compatible(part[i], part[j], entries);
      }
    }
  }

  function IndexBatches(parts: seq<seq<Prepared>>): seq<seq<nat>> { Sorting.Map(parts, Indexes) }

  lemma IndexBatchesFlatten(parts: seq<seq<Prepared>>)
    ensures Flatten(IndexBatches(parts)) == Indexes(Flatten(parts))
  {
    MapFlatten(parts, IndexOf, Indexes);
  }

  /** One project: the entries that cannot be discovered fall back to batches of their own. */
  method PlanProject(files: Files, root: JsString, requests: seq<Prepared>) returns (components: seq<seq<nat>>, fallback: seq<seq<nat>>)
    requires forall i :: 0 <= i < |requests| ==> IsLocated(files, requests[i], root)
    ensures multiset(Flatten(components)) + multiset(Flatten(fallback)) == multiset(Indexes(requests))
    ensures BatchesOk(files, components) && BatchesOk(files, fallback)
  {
    hide IsPartition, Flatten, CouldMerge, BatchOk, Indexes;
    var entries: Corpus := map[];
    var valid: seq<Prepared> := [];
    fallback := [];
    assert multiset(Indexes(valid)) + multiset(Flatten(fallback)) == multiset(Indexes(requests[..0])) by { NothingIndexed(requests); }
    for i := 0 to |requests|
      invariant CorpusOk(files, root, valid, entries) && BatchesOk(files, fallback)
      invariant multiset(Indexes(valid)) + multiset(Flatten(fallback)) == multiset(Indexes(requests[..i]))
    {
      var r := requests[i];
      assert requests[..i + 1] == requests[..i] + [r];
      IndexesSnoc(requests[..i], r);
      IndexesSnoc(valid, r);
      FlattenSnoc(fallback, [r.index]);
      OneIsBatch(files, r.index);
      assert IsLocated(files, r, root);
      var entry := files.discover(root, r.mainFile);
      if entry.Some? {
        entries := entries[r.mainFile := entry.value];
        valid := valid + [r];
      } else {
        fallback := fallback + [[r.index]];
      }
    }
    assert requests[..|requests|] == requests;
    var parts := PartitionDeclarationEntries(valid, entries);
    components := IndexBatches(parts);
    PartitionIsBatches(files, root, valid, entries, parts);
  }

  lemma NothingIndexed(requests: seq<Prepared>)
    ensures Indexes([]) == [] && Indexes(requests[..0]) == [] && Flatten<nat>([]) == []
  {
  }

  lemma IndexesSnoc(s: seq<Prepared>, p: Prepared)
    ensures Indexes(s + [p]) == Indexes(s) + [p.index]
  {
    MapConcat(s, [p], IndexOf);
    assert Sorting.Map([p], IndexOf) == [IndexOf(p)];
  }

  lemma OneIsBatch(files: Files, index: nat)
    ensures BatchOk(files, [index])
  {
  }

  lemma PartitionIsBatches(files: Files, root: JsString, valid: seq<Prepared>, entries: Corpus, parts: seq<seq<Prepared>>)
    requires CorpusOk(files, root, valid, entries) && IsPartition(parts, valid, entries)
    ensures BatchesOk(files, IndexBatches(parts))
    ensures multiset(Flatten(IndexBatches(parts))) == multiset(Indexes(valid))
  {
    hide Indexes, BatchOk, PartOk, Flatten;
    IndexBatchesFlatten(parts);
    assert multiset(Indexes(Flatten(parts))) == multiset(Indexes(valid)) by { IndexesRearranged(Flatten(parts), valid); }
    forall k | 0 <= k < |parts| ensures BatchOk(files, IndexBatches(parts)[k]) {
      forall i | 0 <= i < |parts[k]| ensures IsLocated(files, parts[k][i], root) {
        FlattenHas(parts, k, parts[k][i]);
        assert parts[k][i] in multiset(Flatten(parts));
        assert parts[k][i] in valid;
      }
      PartIsBatch(files, root, parts[k], entries);
      assert IndexBatches(parts)[k] == Indexes(parts[k]);
    }
  }

  lemma IndexesRearranged(a: seq<Prepared>, b: seq<Prepared>)
    requires multiset(a) == multiset(b)
    ensures multiset(Indexes(a)) == multiset(Indexes(b))
  {
    MapRearranged(a, b, IndexOf);
  }

  // ----- the plan

  function First(batch: seq<nat>): nat { if batch == [] then 0 else batch[0] }

  function ByFirst(): (seq<nat>, seq<nat>) -> bool { Sorting.ByKey(First, Sorting.NatLess) }

  /** Every request index occurs exactly once. */
  ghost predicate ExactlyOnce(batches: seq<seq<nat>>, count: nat) { multiset(Flatten(batches)) == multiset(Upto(count)) }

  lemma UptoDistinct(count: nat)
    ensures Sorting.Distinct(Upto(count)) && forall i :: i in Upto(count) <==> 0 <= i < count
  {
    forall i | 0 <= i < count ensures i in Upto(count) { assert Upto(count)[i] == i; }
  }

  /** Exactly once means pairwise different and complete. */
  lemma ExactlyOnceIs(batches: seq<seq<nat>>, count: nat)
    requires ExactlyOnce(batches, count)
    ensures Sorting.Distinct(Flatten(batches)) && |Flatten(batches)| == count
    ensures forall i: nat :: i in Flatten(batches) <==> i < count
  {
    hide Flatten, Upto;
    UptoDistinct(count);
    Sorting.DistinctMultiset(Flatten(batches));
    Sorting.DistinctMultiset(Upto(count));
    Sorting.SameMultiset(Flatten(batches), Upto(count));
  }

  /** Non-empty batches with pairwise different elements have pairwise different first elements. */
  lemma {:induction false} FirstsDistinct(batches: seq<seq<nat>>)
    requires Sorting.Distinct(Flatten(batches)) && forall k :: 0 <= k < |batches| ==> batches[k] != []
    ensures Sorting.Distinct(Sorting.Map(batches, First))
  {
    if batches == [] {
    } else {
      var rest := batches[1..];
      var firsts := Sorting.Map(batches, First);
      assert Flatten(batches)[|batches[0]|..] == Flatten(rest);
      forall i, j | 0 <= i < j < |Flatten(rest)| ensures Flatten(rest)[i] != Flatten(rest)[j] {
        assert Flatten(batches)[|batches[0]| + i] == Flatten(rest)[i] && Flatten(batches)[|batches[0]| + j] == Flatten(rest)[j];
      }
      FirstsDistinct(rest);
      assert firsts == [First(batches[0])] + Sorting.Map(rest, First);
      forall k: nat | k < |rest| ensures First(batches[0]) != Sorting.Map(rest, First)[k] {
        assert rest[k] == batches[k + 1];
        assert Sorting.Map(rest, First)[k] == First(rest[k]) == rest[k][0];
        FlattenHas(rest, k, rest[k][0]);
        var m :| 0 <= m < |Flatten(rest)| && Flatten(rest)[m] == rest[k][0];
        assert Flatten(batches)[0] == batches[0][0] && Flatten(batches)[|batches[0]| + m] == rest[k][0];
      }
      Sorting.DistinctCons(firsts);
    }
  }

  /** Sorting by first index keeps the batches and makes their first indices ascend. */
  lemma SortedBatches(files: Files, batches: seq<seq<nat>>, count: nat)
    requires ExactlyOnce(batches, count) && BatchesOk(files, batches)
    ensures var sorted := Sorting.Sort(batches, ByFirst());
      ExactlyOnce(sorted, count) && BatchesOk(files, sorted)
      && forall i, j :: 0 <= i < j < |sorted| ==> First(sorted[i]) < First(sorted[j])
  {
    hide Flatten, BatchOk, Related;
    var sorted := Sorting.Sort(batches, ByFirst());
    Sorting.SortPermutes(batches, ByFirst());
    FlattenRearranged(sorted, batches);
    ExactlyOnceIs(batches, count);
    forall k | 0 <= k < |batches| ensures batches[k] != [] { BatchNotEmpty(files, batches[k]); }
    FirstsDistinct(batches);
    Sorting.SortByKeyAscends(batches, First, Sorting.NatLess);
    forall k | 0 <= k < |sorted| ensures BatchOk(files, sorted[k]) { assert sorted[k] in batches; }
    forall i, j | 0 <= i < j < |sorted| ensures First(sorted[i]) < First(sorted[j]) {
      assert Sorting.NatLess(Sorting.Map(sorted, First)[i], Sorting.Map(sorted, First)[j]);
    }
  }

  lemma BatchNotEmpty(files: Files, batch: seq<nat>)
    requires BatchOk(files, batch)
    ensures batch != []
  {
  }

  /** Every request is in exactly one batch; the members of a shared batch are pairwise related. */
  method PlanDeclarationCompilerUniverses(files: Files, count: nat) returns (batches: seq<seq<nat>>)
    ensures ExactlyOnce(batches, count) && BatchesOk(files, batches)
    ensures forall i, j :: 0 <= i < j < |batches| ==> First(batches[i]) < First(batches[j])
  {
    hide Flatten, BatchOk, AddTo, GroupsLocated, Planned;
    var groups: Groups := [];
    var fallback: seq<seq<nat>> := [];
    NothingPlanned(files);
    for i := 0 to count
      invariant GroupsLocated(files, groups) && BatchesOk(files, fallback) && Planned(groups, fallback, i)
    {
      var located := files.locate(i);
      if located.None? {
        AlonePlanned(files, groups, fallback, i);
        fallback := fallback + [[i]];
      } else {
        var p := Prepared(i, located.value.mainFile, located.value.projectRoot);
        GroupPlanned(files, groups, fallback, p);
        groups := AddTo(groups, p);
      }
    }
    var components, more := PlanProjects(files, groups);
    PlannedOnce(groups, fallback, components, more, count);
    var all := components + (fallback + more);
    assert components + fallback + more == all;
    SortedBatches(files, all, count);
    batches := Sorting.Sort(all, ByFirst());
  }

  /** Every index so far is in a group or falls back, once. */
  ghost predicate Planned(groups: Groups, fallback: seq<seq<nat>>, count: nat) {
    multiset(Indexes(Flatten(GroupLists(groups)))) + multiset(Flatten(fallback)) == multiset(Upto(count))
  }

  lemma NothingPlanned(files: Files)
    ensures GroupsLocated(files, []) && BatchesOk(files, []) && Planned([], [], 0)
  {
    assert GroupLists([]) == [];
  }

  lemma AlonePlanned(files: Files, groups: Groups, fallback: seq<seq<nat>>, i: nat)
    requires Planned(groups, fallback, i)
    ensures Planned(groups, fallback + [[i]], i + 1) && BatchOk(files, [i])
  {
    hide Flatten, Indexes, GroupLists, Upto;
    FlattenSnoc(fallback, [i]);
    UptoNext(i);
    OneIsBatch(files, i);
    assert multiset(Flatten(fallback) + [i]) == multiset(Flatten(fallback)) + multiset{i};
  }

  lemma GroupPlanned(files: Files, groups: Groups, fallback: seq<seq<nat>>, p: Prepared)
    requires Planned(groups, fallback, p.index) && GroupsLocated(files, groups) && IsLocated(files, p, p.projectRoot)
    ensures Planned(AddTo(groups, p), fallback, p.index + 1) && GroupsLocated(files, AddTo(groups, p))
  {
    hide Flatten, AddTo, Indexes, GroupLists, GroupsLocated, Upto;
    AddToLocated(files, groups, p);
    AddToMultiset(groups, p);
    var before := Flatten(GroupLists(groups));
    IndexesSnoc(before, p);
    assert multiset(before + [p]) == multiset(before) + multiset{p};
    IndexesRearranged(Flatten(GroupLists(AddTo(groups, p))), before + [p]);
    UptoNext(p.index);
    assert multiset(Indexes(before) + [p.index]) == multiset(Indexes(before)) + multiset{p.index};
  }

  lemma PlannedOnce(groups: Groups, fallback: seq<seq<nat>>, components: seq<seq<nat>>, more: seq<seq<nat>>, count: nat)
    requires Planned(groups, fallback, count)
    requires multiset(Flatten(components)) + multiset(Flatten(more)) == multiset(Indexes(Flatten(GroupLists(groups))))
    ensures ExactlyOnce(components + (fallback + more), count)
  {
    hide Flatten, Indexes, GroupLists, Upto;
    FlattenAppend(components, fallback + more);
    FlattenAppend(fallback, more);
    var a, b, c := Flatten(components), Flatten(fallback), Flatten(more);
    assert multiset(a + (b + c)) == multiset(a) + multiset(b) + multiset(c);
  }

  method PlanProjects(files: Files, groups: Groups) returns (components: seq<seq<nat>>, fallback: seq<seq<nat>>)
    requires GroupsLocated(files, groups)
    ensures multiset(Flatten(components)) + multiset(Flatten(fallback)) == multiset(Indexes(Flatten(GroupLists(groups))))
    ensures BatchesOk(files, components) && BatchesOk(files, fallback)
  {
    hide Flatten, BatchOk, Indexes, GroupLists, IsLocated;
    components, fallback := [], [];
    assert groups[..0] == [];
    NothingFlattened();
    for k := 0 to |groups|
      invariant BatchesOk(files, components) && BatchesOk(files, fallback)
      invariant multiset(Flatten(components)) + multiset(Flatten(fallback)) == multiset(Indexes(Flatten(GroupLists(groups[..k]))))
    {
      var more, alone := PlanProject(files, groups[k].0, groups[k].1);
      GroupsNext(groups, k);
      FlattenAppend(components, more);
      FlattenAppend(fallback, alone);
      components := components + more;
      fallback := fallback + alone;
    }
    assert groups[..|groups|] == groups;
  }

  lemma NothingFlattened()
    ensures Flatten<nat>([]) == [] && Indexes(Flatten(GroupLists([]))) == []
  {
    assert GroupLists([]) == [];
  }

  lemma GroupsNext(groups: Groups, k: nat)
    requires k < |groups|
    ensures Indexes(Flatten(GroupLists(groups[..k + 1]))) == Indexes(Flatten(GroupLists(groups[..k]))) + Indexes(groups[k].1)
  {
    assert GroupLists(groups[..k + 1]) == GroupLists(groups[..k]) + [groups[k].1];
    FlattenSnoc(GroupLists(groups[..k]), groups[k].1);
    MapConcat(Flatten(GroupLists(groups[..k])), groups[k].1, IndexOf);
  }
}
