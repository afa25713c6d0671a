/**
 Sorting by a strict total order, and why any correct sort returns the same list.

 A list is sorted by inserting its elements one after the other. By a strict total order there is only one sorted
 list of given elements, so the source's sort returns this one, whatever its algorithm. Under a comparator that may
 tie there can be several, and inserting keeps tied elements in their order, as JavaScript requires of its own sort.
 When elements are compared by a key, distinct keys again leave only one list.
 */
module Sorting {

  ghost predicate StrictOrder<T(!new)>(less: (T, T) -> bool) {
    && (forall x :: !less(x, x))
    && (forall x, y, z :: less(x, y) && less(y, z) ==> less(x, z))
    && (forall x, y :: x == y || less(x, y) || less(y, x))
  }

  /** A comparator that may tie: irreflexive, transitive, and ties are transitive too. */
  ghost predicate WeakOrder<T(!new)>(less: (T, T) -> bool) {
    && (forall x :: !less(x, x))
    && (forall x, y, z :: less(x, y) && less(y, z) ==> less(x, z))
    && (forall x, y, z :: less(x, z) ==> less(x, y) || less(y, z))
  }

  predicate Distinct<T(==)>(s: seq<T>) {
    forall i, j :: 0 <= i < j < |s| ==> s[i] != s[j]
  }

  /** No later element is below an earlier one. */
  predicate Sorted<T>(s: seq<T>, less: (T, T) -> bool) {
    forall i, j :: 0 <= i < j < |s| ==> !less(s[j], s[i])
  }

  predicate Ascending<T>(s: seq<T>, less: (T, T) -> bool) {
    forall i, j :: 0 <= i < j < |s| ==> less(s[i], s[j])
  }

  function Insert<T>(x: T, s: seq<T>, less: (T, T) -> bool): seq<T> {
    if s != [] && less(s[0], x) then [s[0]] + Insert(x, s[1..], less) else [x] + s
  }

  function Sort<T>(s: seq<T>, less: (T, T) -> bool): seq<T> {
    if s == [] then [] else Insert(s[0], Sort(s[1..], less), less)
  }

  lemma {:induction false} InsertPermutes<T>(x: T, s: seq<T>, less: (T, T) -> bool)
    ensures multiset(Insert(x, s, less)) == multiset([x] + s)
  {
    if s != [] && less(s[0], x) {
      InsertPermutes(x, s[1..], less);
      assert [x] + s == [x] + [s[0]] + s[1..];
    }
  }

  /** Sorting rearranges: same elements, same number of times. */
  lemma {:induction false} SortPermutes<T(!new)>(s: seq<T>, less: (T, T) -> bool)
    ensures multiset(Sort(s, less)) == multiset(s)
    ensures |Sort(s, less)| == |s|
    ensures forall x :: x in Sort(s, less) <==> x in s
  {
    if s == [] {
    } else {
      SortPermutes(s[1..], less);
      InsertPermutes(s[0], Sort(s[1..], less), less);
      assert s == [s[0]] + s[1..];
    }
    SameMultiset(Sort(s, less), s);
  }

  lemma SameMultiset<T>(a: seq<T>, b: seq<T>)
    requires multiset(a) == multiset(b)
    ensures |a| == |b|
    ensures forall x :: x in a <==> x in b
  {
    assert |multiset(a)| == |a| && |multiset(b)| == |b|;
    assert forall x :: x in a <==> x in multiset(a);
    assert forall x :: x in b <==> x in multiset(b);
  }

  lemma {:induction false} InsertSorted<T(!new)>(x: T, s: seq<T>, less: (T, T) -> bool)
    requires WeakOrder(less) && Sorted(s, less)
    ensures Sorted(Insert(x, s, less), less)
  {
    if s != [] && less(s[0], x) {
      InsertSorted(x, s[1..], less);
      var t := Insert(x, s[1..], less);
      InsertPermutes(x, s[1..], less);
      SameMultiset(t, [x] + s[1..]);
      forall y | y in t ensures !less(y, s[0]) {
        var h := s[0];
        assert less(x, h) && less(h, x) ==> less(h, h);
      }
    } else if s != [] {
      forall y | y in s ensures !less(y, x) {
        var i :| 0 <= i < |s| && s[i] == y;
        assert !less(y, s[0]);
        var h := s[0];
        assert less(y, x) ==> less(y, h) || less(h, x);
      }
    }
  }

  lemma {:induction false} SortSorts<T(!new)>(s: seq<T>, less: (T, T) -> bool)
    requires WeakOrder(less)
    ensures Sorted(Sort(s, less), less)
  {
    if s == [] {
    } else {
      SortSorts(s[1..], less);
      InsertSorted(s[0], Sort(s[1..], less), less);
    }
  }

  lemma {:induction false} DistinctMultiset<T>(s: seq<T>)
    ensures Distinct(s) <==> forall x :: multiset(s)[x] <= 1
  {
    if s == [] {
    } else {
      assert s == [s[0]] + s[1..];
      DistinctMultiset(s[1..]);
      assert multiset(s) == multiset{s[0]} + multiset(s[1..]);
      if Distinct(s) {
        assert s[0] !in s[1..];
      } else {
        var i, j :| 0 <= i < j < |s| && s[i] == s[j];
        if i == 0 {
          assert s[1..][j - 1] == s[0];
          assert s[0] in multiset(s[1..]);
          assert multiset(s)[s[0]] >= 2;
        } else {
          assert s[1..][i - 1] == s[1..][j - 1];
          var x :| multiset(s[1..])[x] > 1;
          assert multiset(s)[x] > 1;
        }
      }
    }
  }

  /** A sorted arrangement of given elements is unique, so the algorithm a runtime uses is irrelevant. */
  lemma {:induction false} SortedUnique<T(!new)>(a: seq<T>, b: seq<T>, less: (T, T) -> bool)
    requires StrictOrder(less) && Sorted(a, less) && Sorted(b, less)
    requires multiset(a) == multiset(b)
    ensures a == b
  {
    SameMultiset(a, b);
    if a == [] {
    } else {
      SameHead(a, b, less);
      TailMultiset(a);
      TailMultiset(b);
      SortedUnique(a[1..], b[1..], less);
      assert a == [a[0]] + a[1..] && b == [b[0]] + b[1..];
    }
  }

  lemma TailMultiset<T>(s: seq<T>)
    requires s != []
    ensures multiset(s[1..]) == multiset(s) - multiset{s[0]}
  {
    assert s == [s[0]] + s[1..];
  }

  lemma SameHead<T(!new)>(a: seq<T>, b: seq<T>, less: (T, T) -> bool)
    requires forall x, y :: x == y || less(x, y) || less(y, x)
    requires Sorted(a, less) && Sorted(b, less)
    requires a != [] && b != [] && a[0] in b && b[0] in a
    ensures a[0] == b[0]
  {
    var i :| 0 <= i < |b| && b[i] == a[0];
    var j :| 0 <= j < |a| && a[j] == b[0];
    assert i > 0 ==> !less(b[i], b[0]);
    assert j > 0 ==> !less(a[j], a[0]);
  }

  lemma {:induction false} SortDistinct<T(!new)>(s: seq<T>, less: (T, T) -> bool)
    requires StrictOrder(less) && Distinct(s)
    ensures Ascending(Sort(s, less), less) && Distinct(Sort(s, less))
    ensures forall x :: x in Sort(s, less) <==> x in s
  {
    SortSorts(s, less);
    SortPermutes(s, less);
    DistinctMultiset(s);
    DistinctMultiset(Sort(s, less));
  }

  /** Two strictly ascending lists with the same members are the same list. */
  lemma AscendingUnique<T(!new)>(a: seq<T>, b: seq<T>, less: (T, T) -> bool)
    requires StrictOrder(less) && Ascending(a, less) && Ascending(b, less)
    requires forall x :: x in a <==> x in b
    ensures a == b
  {
    DistinctMultiset(a);
    DistinctMultiset(b);
    forall x ensures multiset(a)[x] == multiset(b)[x] {
      assert x in a <==> x in multiset(a);
      assert x in b <==> x in multiset(b);
    }
    SortedUnique(a, b, less);
  }

  /** The same without totality: strict lists with the same members agree even under a comparator that ties. */
  lemma {:induction false} StrictlySame<T(!new)>(a: seq<T>, b: seq<T>, less: (T, T) -> bool)
    requires WeakOrder(less) && Ascending(a, less) && Ascending(b, less)
    requires forall x :: x in a <==> x in b
    ensures a == b
  {
    assert b != [] ==> b[0] in b;
    if a == [] {
    } else {
      assert a[0] in b;
      assert b[0] in a;
      var i :| 0 <= i < |b| && b[i] == a[0];
      var j :| 0 <= j < |a| && a[j] == b[0];
      var p, q := a[0], b[0];
      assert less(p, q) && less(q, p) ==> less(p, p);
      assert p == q;
      forall x ensures x in a[1..] <==> x in b[1..] {
        TailMembers(a, less, x);
        TailMembers(b, less, x);
      }
      StrictlySame(a[1..], b[1..], less);
      assert a == [a[0]] + a[1..] && b == [b[0]] + b[1..];
    }
  }

  lemma TailMembers<T(!new)>(s: seq<T>, less: (T, T) -> bool, x: T)
    requires WeakOrder(less) && s != [] && Ascending(s, less)
    ensures x in s[1..] <==> x in s && x != s[0]
  {
    assert s == [s[0]] + s[1..];
    if x in s[1..] {
      var i :| 0 <= i < |s[1..]| && s[1..][i] == x;
      assert less(s[0], s[i + 1]);
    }
  }

  predicate NatLess(a: nat, b: nat) { a < b }

  // ----- sorting records by a key

  function ByKey<T, K>(key: T -> K, less: (K, K) -> bool): (T, T) -> bool {
    (a, b) => less(key(a), key(b))
  }

  function Map<T, K>(s: seq<T>, f: T -> K): (r: seq<K>)
    ensures |r| == |s|
  {
    seq(|s|, i requires 0 <= i < |s| => f(s[i]))
  }

  lemma MapAppend<T, K>(s: seq<T>, x: T, f: T -> K)
    ensures Map(s + [x], f) == Map(s, f) + [f(x)]
  {
  }

  lemma ByKeyIsWeakOrder<T(!new), K(!new)>(key: T -> K, less: (K, K) -> bool)
    requires WeakOrder(less)
    ensures WeakOrder(ByKey(key, less))
  {
  }

  /** Sorting records with distinct keys leaves the keys strictly ascending. */
  lemma SortByKeyAscends<T(!new), K(!new)>(s: seq<T>, key: T -> K, less: (K, K) -> bool)
    requires StrictOrder(less) && Distinct(Map(s, key))
    ensures Ascending(Map(Sort(s, ByKey(key, less)), key), less)
  {
    ByKeyIsWeakOrder(key, less);
    var sorted := Sort(s, ByKey(key, less));
    SortSorts(s, ByKey(key, less));
    SortPermutes(s, ByKey(key, less));
    DistinctKeys(s, key);
    DistinctMultiset(s);
    DistinctMultiset(sorted);
    forall i, j | 0 <= i < j < |sorted| ensures less(key(sorted[i]), key(sorted[j])) {
      assert !ByKey(key, less)(sorted[j], sorted[i]);
      if key(sorted[i]) == key(sorted[j]) {
        assert sorted[i] in s && sorted[j] in s;
        SameKeySame(s, key, sorted[i], sorted[j]);
      }
    }
  }

  lemma DistinctKeys<T(!new), K(!new)>(s: seq<T>, key: T -> K)
    requires Distinct(Map(s, key))
    ensures Distinct(s)
  {
    forall i, j | 0 <= i < j < |s| ensures s[i] != s[j] { assert Map(s, key)[i] != Map(s, key)[j]; }
  }

  lemma SameKeySame<T(!new), K(!new)>(s: seq<T>, key: T -> K, x: T, y: T)
    requires Distinct(Map(s, key)) && x in s && y in s && key(x) == key(y)
    ensures x == y
  {
    var i :| 0 <= i < |s| && s[i] == x;
    var j :| 0 <= j < |s| && s[j] == y;
    var keys := Map(s, key);
    assert keys[i] == keys[j];
  }

  /** The sort of records with distinct keys depends only on which records there are. */
  lemma SortByKeyUnique<T(!new), K(!new)>(a: seq<T>, b: seq<T>, key: T -> K, less: (K, K) -> bool)
    requires StrictOrder(less) && Distinct(Map(a, key)) && Distinct(Map(b, key))
    requires forall x :: x in a <==> x in b
    ensures Sort(a, ByKey(key, less)) == Sort(b, ByKey(key, less))
  {
    var p, q := Sort(a, ByKey(key, less)), Sort(b, ByKey(key, less));
    SortByKeyAscends(a, key, less);
    SortByKeyAscends(b, key, less);
    SortPermutes(a, ByKey(key, less));
    SortPermutes(b, ByKey(key, less));
    var pk, qk := Map(p, key), Map(q, key);
    SameKeys(p, q, key);
    AscendingUnique(pk, qk, less);
    forall i | 0 <= i < |p| ensures p[i] == q[i] {
      assert key(p[i]) == pk[i] == qk[i] == key(q[i]);
      assert p[i] in a && q[i] in a;
      SameKeySame(a, key, p[i], q[i]);
    }
  }

  lemma SameKeys<T(!new), K(!new)>(p: seq<T>, q: seq<T>, key: T -> K)
    requires forall x :: x in p <==> x in q
    ensures forall k :: k in Map(p, key) <==> k in Map(q, key)
  {
    forall k | k in Map(p, key) ensures k in Map(q, key) {
      var i :| 0 <= i < |p| && Map(p, key)[i] == k;
      assert p[i] in q;
      var j :| 0 <= j < |q| && q[j] == p[i];
      assert Map(q, key)[j] == k;
    }
    forall k | k in Map(q, key) ensures k in Map(p, key) {
      var i :| 0 <= i < |q| && Map(q, key)[i] == k;
      assert q[i] in p;
      var j :| 0 <= j < |p| && p[j] == q[i];
      assert Map(p, key)[j] == k;
    }
  }

  // ----- counting

  function Elements<T(==)>(s: seq<T>): set<T> { set x | x in s }

  lemma {:induction false} SubsetSize<T>(a: set<T>, b: set<T>)
    requires a <= b
    ensures |a| <= |b|
  {
    if x :| x in a { SubsetSize(a - {x}, b - {x}); }
  }

  lemma ElementsCons<T>(s: seq<T>)
    requires s != []
    ensures Elements(s) == {s[0]} + Elements(s[1..])
  {
    assert s == [s[0]] + s[1..];
  }

  lemma {:induction false} DistinctElements<T>(s: seq<T>)
    requires Distinct(s)
    ensures |Elements(s)| == |s|
  {
    if s == [] {
    } else {
      ElementsCons(s);
      DistinctElements(s[1..]);
      assert s[0] !in s[1..];
    }
  }

  lemma {:induction false} FullElementsDistinct<T>(s: seq<T>)
    ensures |Elements(s)| <= |s|
    ensures |Elements(s)| == |s| ==> Distinct(s)
  {
    if s == [] {
    } else {
      ElementsCons(s);
      FullElementsDistinct(s[1..]);
      if s[0] in s[1..] {
        assert Elements(s) == Elements(s[1..]);
      } else {
        assert |Elements(s)| == 1 + |Elements(s[1..])|;
      }
    }
  }

  lemma EmptyDistinct<T>()
    ensures Distinct<T>([])
  {
  }

  lemma DistinctSnoc<T>(s: seq<T>, x: T)
    requires Distinct(s) && x !in s
    ensures Distinct(s + [x])
  {
  }

  lemma DistinctCons<T>(s: seq<T>)
    requires s != []
    ensures Distinct(s) <==> s[0] !in s[1..] && Distinct(s[1..])
  {
    if Distinct(s) {
      forall i | 0 <= i < |s[1..]| ensures s[1..][i] != s[0] { assert s[1..][i] == s[i + 1]; }
      forall i, j | 0 <= i < j < |s[1..]| ensures s[1..][i] != s[1..][j] { assert s[i + 1] != s[j + 1]; }
    }
  }
}
