/**
 Sequences: flattening, counting up and keeping first occurrences.

 Flattening distributes over concatenation, and rearranging the lists rearranges what is flattened, each element
 as often as before. Deduplicating keeps the first occurrence of each element, like a `Set` built from an array, so
 the result is distinct and has the same elements. Filtering keeps the order and is stated for the end of a
 sequence, where loops extend it. Mapping commutes with all of this.
 */
module Sequences {
  import Sorting

  function Flatten<T>(s: seq<seq<T>>): seq<T> { if s == [] then [] else s[0] + Flatten(s[1..]) }

  /** 0, 1, ..., n - 1. */
  function Upto(n: nat): (r: seq<nat>)
    ensures |r| == n
  {
    seq(n, i requires 0 <= i < n => i)
  }

  /** The first occurrence of each element, in order. */
  function Deduplicate<T(==)>(s: seq<T>): seq<T> {
    if s == [] then []
    else
      var front := Deduplicate(s[..|s| - 1]);
      if s[|s| - 1] in front then front else front + [s[|s| - 1]]
  }

  lemma {:induction false} DeduplicateHolds<T(!new)>(s: seq<T>)
    ensures forall i, j :: 0 <= i < j < |Deduplicate(s)| ==> Deduplicate(s)[i] != Deduplicate(s)[j]
    ensures forall x :: x in Deduplicate(s) <==> x in s
  {
    if s == [] {
    } else {
      DeduplicateHolds(s[..|s| - 1]);
      assert s == s[..|s| - 1] + [s[|s| - 1]];
    }
  }

  lemma UptoNext(n: nat)
    ensures Upto(n + 1) == Upto(n) + [n] && multiset(Upto(n + 1)) == multiset(Upto(n)) + multiset{n}
  {
    assert Upto(n + 1) == Upto(n) + [n];
  }

  lemma {:induction false} FlattenAppend<T>(a: seq<seq<T>>, b: seq<seq<T>>)
    ensures Flatten(a + b) == Flatten(a) + Flatten(b)
  {
    if a == [] {
      assert a + b == b;
    } else {
      assert (a + b)[1..] == a[1..] + b;
      FlattenAppend(a[1..], b);
    }
  }

  lemma FlattenOne<T>(s: seq<T>)
    ensures Flatten([s]) == s
  {
    assert [s][1..] == [];
  }

  lemma FlattenSnoc<T>(a: seq<seq<T>>, s: seq<T>)
    ensures Flatten(a + [s]) == Flatten(a) + s
  {
    FlattenAppend(a, [s]);
    FlattenOne(s);
  }

  /** Adding an element to one of the lists adds it once to the whole. */
  lemma {:induction false} FlattenGrow<T>(a: seq<seq<T>>, k: nat, x: T)
    requires k < |a|
    ensures multiset(Flatten(a[k := a[k] + [x]])) == multiset(Flatten(a)) + multiset{x}
  {
    var grown := a[k := a[k] + [x]];
    if k == 0 {
      assert grown[1..] == a[1..];
    } else {
      assert grown[1..] == a[1..][k - 1 := a[k] + [x]];
      FlattenGrow(a[1..], k - 1, x);
    }
  }

  lemma {:induction false} FlattenHas<T>(a: seq<seq<T>>, k: nat, x: T)
    requires k < |a| && x in a[k]
    ensures x in Flatten(a)
  {
    if k == 0 {
    } else {
      FlattenHas(a[1..], k - 1, x);
    }
  }

  // ----- rearrangements

  lemma WithoutAt<T>(s: seq<T>, k: nat)
    requires k < |s|
    ensures multiset(s) == multiset(s[..k] + s[k + 1..]) + multiset{s[k]}
  {
    assert s == s[..k] + [s[k]] + s[k + 1..];
  }

  lemma SameRest<T>(a: seq<T>, b: seq<T>, k: nat)
    requires a != [] && multiset(a) == multiset(b) && k < |b| && b[k] == a[0]
    ensures multiset(a[1..]) == multiset(b[..k] + b[k + 1..])
  {
    WithoutAt(a, 0);
    WithoutAt(b, k);
    assert a[..0] + a[1..] == a[1..];
    assert multiset(a[1..]) == multiset(a) - multiset{a[0]};
    assert multiset(b[..k] + b[k + 1..]) == multiset(b) - multiset{b[k]};
  }

  /** Rearranging the lists rearranges their elements. */
  lemma {:induction false} FlattenRearranged<T>(a: seq<seq<T>>, b: seq<seq<T>>)
    requires multiset(a) == multiset(b)
    ensures multiset(Flatten(a)) == multiset(Flatten(b))
  {
    hide Flatten;
    if a == [] {
      assert |multiset(b)| == 0;
      assert b == [];
    } else {
      assert a == [a[0]] + a[1..];
      assert a[0] in multiset(b);
      var k :| 0 <= k < |b| && b[k] == a[0];
      SameRest(a, b, k);
      var rest := b[..k] + b[k + 1..];
      FlattenRearranged(a[1..], rest);
      FlattenAppend(b[..k], b[k + 1..]);
      FlattenSplit(b, k);
      FlattenHead(a);
    }
  }

  lemma FlattenSplit<T>(b: seq<seq<T>>, k: nat)
    requires k < |b|
    ensures multiset(Flatten(b)) == multiset(Flatten(b[..k])) + multiset(b[k]) + multiset(Flatten(b[k + 1..]))
  {
    hide Flatten;
    assert b == b[..k] + b[k..];
    FlattenAppend(b[..k], b[k..]);
    FlattenHead(b[k..]);
    assert b[k..][1..] == b[k + 1..];
  }

  lemma FlattenHead<T>(b: seq<seq<T>>)
    requires b != []
    ensures Flatten(b) == b[0] + Flatten(b[1..])
  {
  }

  lemma MapConcat<T, U>(a: seq<T>, b: seq<T>, f: T -> U)
    ensures Sorting.Map(a + b, f) == Sorting.Map(a, f) + Sorting.Map(b, f)
  {
  }

  lemma {:induction false} MapRearranged<T, U>(a: seq<T>, b: seq<T>, f: T -> U)
    requires multiset(a) == multiset(b)
    ensures multiset(Sorting.Map(a, f)) == multiset(Sorting.Map(b, f))
  {
    if a == [] {
      assert |multiset(b)| == 0;
      assert b == [];
    } else {
      assert a == [a[0]] + a[1..];
      assert a[0] in multiset(b);
      var k :| 0 <= k < |b| && b[k] == a[0];
      SameRest(a, b, k);
      var rest := b[..k] + b[k + 1..];
      MapRearranged(a[1..], rest, f);
      MapConcat([a[0]], a[1..], f);
      MapConcat(b[..k], b[k + 1..], f);
      assert b == b[..k] + ([b[k]] + b[k + 1..]);
      MapConcat(b[..k], [b[k]] + b[k + 1..], f);
      MapConcat([b[k]], b[k + 1..], f);
      assert Sorting.Map([a[0]], f) == Sorting.Map([b[k]], f);
    }
  }

  lemma {:induction false} MapFlatten<T, U>(a: seq<seq<T>>, f: T -> U, each: seq<T> -> seq<U>)
    requires forall s :: each(s) == Sorting.Map(s, f)
    ensures Flatten(Sorting.Map(a, each)) == Sorting.Map(Flatten(a), f)
  {
    if a == [] {
    } else {
      assert Sorting.Map(a, each)[1..] == Sorting.Map(a[1..], each);
      MapFlatten(a[1..], f, each);
      MapConcat(a[0], Flatten(a[1..]), f);
    }
  }

  // ----- filtering

  function Filter<T>(s: seq<T>, keep: T -> bool): (r: seq<T>) {
    if s == [] then [] else (if keep(s[0]) then [s[0]] else []) + Filter(s[1..], keep)
  }

  lemma {:induction false} FilterMembers<T>(s: seq<T>, keep: T -> bool)
    ensures forall x :: x in Filter(s, keep) <==> x in s && keep(x)
  {
    if s == [] {
    } else {
      assert s == [s[0]] + s[1..];
      FilterMembers(s[1..], keep);
    }
  }

  lemma {:induction false} FilterSnoc<T>(s: seq<T>, x: T, keep: T -> bool)
    ensures Filter(s + [x], keep) == Filter(s, keep) + (if keep(x) then [x] else [])
  {
    if s == [] {
      assert s + [x] == [x];
    } else {
      assert (s + [x])[1..] == s[1..] + [x];
      FilterSnoc(s[1..], x, keep);
    }
  }

  lemma FilterNext<T>(s: seq<T>, index: nat, keep: T -> bool)
    requires index < |s|
    ensures Filter(s[..index + 1], keep) == Filter(s[..index], keep) + (if keep(s[index]) then [s[index]] else [])
  {
    FilterSnoc(s[..index], s[index], keep);
    assert s[..index + 1] == s[..index] + [s[index]];
  }

  lemma {:induction false} FilterEmpty<T>(s: seq<T>, keep: T -> bool)
    ensures Filter(s, keep) == [] <==> forall i :: 0 <= i < |s| ==> !keep(s[i])
  {
    if s == [] {
    } else {
      FilterEmpty(s[1..], keep);
    }
  }
}
