/**
 The persistent ordered map: an AVL tree of immutable nodes with cached heights and sizes.
 `localeCompare` is a parameter of which only a total preorder is assumed.
 */
module OrderedMap {
  import opened Options
  import opened Collation
  import opened Utf16
  import Sorting

  function CompareKeys(collate: Collator, left: JsString, right: JsString): int {
    if left == right then 0
    else if collate(left, right) != 0 then collate(left, right)
    else if Less(left, right) then -1 else 1
  }

  predicate KeyLess(collate: Collator, left: JsString, right: JsString) { CompareKeys(collate, left, right) < 0 }

  /** Code units break the ties of the collation, so `compareKeys` is a total order and only equal keys compare equal. */
  lemma CompareKeysIsTotal(collate: Collator)
    requires TotalPreorder(collate)
    ensures Sorting.StrictOrder((a, b) => KeyLess(collate, a, b))
    ensures forall a, b :: CompareKeys(collate, a, b) == 0 <==> a == b
    ensures forall a, b :: CompareKeys(collate, a, b) > 0 <==> KeyLess(collate, b, a)
    ensures forall a, b :: collate(a, b) < 0 ==> CompareKeys(collate, a, b) < 0
    ensures forall a, b :: collate(a, b) == 0 ==> (CompareKeys(collate, a, b) < 0 <==> Less(a, b))
  {
    LessIsStrictOrder();
    forall a: JsString, b: JsString ensures a == b || KeyLess(collate, a, b) || KeyLess(collate, b, a) {
      if a != b { assert Less(a, b) || Less(b, a); }
    }
    forall a: JsString, b: JsString ensures CompareKeys(collate, a, b) > 0 <==> KeyLess(collate, b, a) {
      LexTrichotomy(a, b);
    }
    forall a: JsString, b: JsString, c: JsString | KeyLess(collate, a, b) && KeyLess(collate, b, c) ensures KeyLess(collate, a, c) {
      LexTrichotomy(a, b);
      if collate(a, b) == 0 && collate(b, c) == 0 {
        LexTransitive(a, b, c);
        LexTrichotomy(a, a);
      } else {
        assert collate(a, b) <= 0 && collate(b, c) <= 0;
        assert collate(c, a) <= 0 ==> collate(c, b) <= 0 && collate(b, a) <= 0;
      }
    }
  }

  datatype Tree<V> =
    | Leaf
    | Node(key: JsString, value: V, left: Tree<V>, right: Tree<V>, height: nat, size: nat)

  function H<V>(t: Tree<V>): nat { if t.Leaf? then 0 else t.height }
  function Size<V>(t: Tree<V>): nat { if t.Leaf? then 0 else t.size }
  function Max(a: nat, b: nat): nat { if a < b then b else a }

  function MakeNode<V>(key: JsString, value: V, left: Tree<V>, right: Tree<V>): Tree<V> {
    Node(key, value, left, right, Max(H(left), H(right)) + 1, Size(left) + Size(right) + 1)
  }

  // ----- what a tree means, and when it is well formed

  function Contents<V>(t: Tree<V>): seq<(JsString, V)> {
    match t
    case Leaf => []
    case Node(k, v, l, r, _, _) => Contents(l) + [(k, v)] + Contents(r)
  }

  ghost function Map<V>(t: Tree<V>): map<JsString, V> {
    match t
    case Leaf => map[]
    case Node(k, v, l, r, _, _) => Map(l) + Map(r) + map[k := v]
  }

  ghost predicate Cached<V>(t: Tree<V>) {
    t.Node? ==>
      && Cached(t.left) && Cached(t.right)
      && t.height == Max(H(t.left), H(t.right)) + 1 && t.size == Size(t.left) + Size(t.right) + 1
  }

  ghost predicate Balanced<V>(t: Tree<V>) {
    t.Node? ==> Balanced(t.left) && Balanced(t.right) && H(t.left) <= H(t.right) + 1 && H(t.right) <= H(t.left) + 1
  }

  ghost predicate AllLess<V>(collate: Collator, m: map<JsString, V>, key: JsString) {
    forall k :: k in m ==> KeyLess(collate, k, key)
  }

  ghost predicate AllGreater<V>(collate: Collator, m: map<JsString, V>, key: JsString) {
    forall k :: k in m ==> KeyLess(collate, key, k)
  }

  ghost predicate Ordered<V>(collate: Collator, t: Tree<V>) {
    t.Node? ==>
      && Ordered(collate, t.left) && Ordered(collate, t.right)
      && AllLess(collate, Map(t.left), t.key) && AllGreater(collate, Map(t.right), t.key)
  }

  ghost predicate Valid<V>(collate: Collator, t: Tree<V>) {
    Cached(t) && Balanced(t) && Ordered(collate, t)
  }

  // ----- rebalancing

  function RotateLeft<V>(t: Tree<V>): Tree<V>
    requires t.Node? && t.right.Node?
  {
    var r := t.right;
    MakeNode(r.key, r.value, MakeNode(t.key, t.value, t.left, r.left), r.right)
  }

  function RotateRight<V>(t: Tree<V>): Tree<V>
    requires t.Node? && t.left.Node?
  {
    var l := t.left;
    MakeNode(l.key, l.value, l.left, MakeNode(t.key, t.value, l.right, t.right))
  }

  function Balance<V>(t: Tree<V>): Tree<V>
    requires t.Node?
  {
    if H(t.left) > H(t.right) + 1 then
      var left := if H(t.left.left) < H(t.left.right) then RotateLeft(t.left) else t.left;
      RotateRight(MakeNode(t.key, t.value, left, t.right))
    else if H(t.right) > H(t.left) + 1 then
      var right := if H(t.right.right) < H(t.right.left) then RotateRight(t.right) else t.right;
      RotateLeft(MakeNode(t.key, t.value, t.left, right))
    else t
  }

  /** Subtrees whose heights differ by at most two are rebalanced, at most one level lower. */
  lemma BalanceHeights<V>(t: Tree<V>)
    requires t.Node? && Cached(t) && Balanced(t.left) && Balanced(t.right)
    requires H(t.left) <= H(t.right) + 2 && H(t.right) <= H(t.left) + 2
    ensures var b := Balance(t);
      && b.Node? && Cached(b) && Balanced(b) && H(t) - 1 <= H(b) <= H(t)
      && (H(t.left) <= H(t.right) + 1 && H(t.right) <= H(t.left) + 1 ==> b == t)
  {
    if H(t.left) > H(t.right) + 1 {
      LeftHeavy(t);
    } else if H(t.right) > H(t.left) + 1 {
      RightHeavy(t);
    }
  }

  lemma LeftHeavy<V>(t: Tree<V>)
    requires t.Node? && Cached(t) && Balanced(t.left) && Balanced(t.right) && H(t.left) == H(t.right) + 2
    ensures var b := Balance(t);
      b.Node? && Cached(b) && Balanced(b) && H(t) - 1 <= H(b) <= H(t)
  {
    var l := t.left;
    assert Cached(l.left) && Cached(l.right) && Balanced(l.left) && Balanced(l.right);
    if H(l.left) < H(l.right) {
      var m := l.right;
      assert Cached(m.left) && Cached(m.right) && Balanced(m.left) && Balanced(m.right);
      var x, y := MakeNode(l.key, l.value, l.left, m.left), MakeNode(t.key, t.value, m.right, t.right);
      assert Cached(x) && Balanced(x) && Cached(y) && Balanced(y);
      assert Balance(t) == MakeNode(m.key, m.value, x, y);
    } else {
      var y := MakeNode(t.key, t.value, l.right, t.right);
      assert Cached(y) && Balanced(y);
      assert Balance(t) == MakeNode(l.key, l.value, l.left, y);
    }
  }

  lemma RightHeavy<V>(t: Tree<V>)
    requires t.Node? && Cached(t) && Balanced(t.left) && Balanced(t.right) && H(t.right) == H(t.left) + 2
    ensures var b := Balance(t);
      b.Node? && Cached(b) && Balanced(b) && H(t) - 1 <= H(b) <= H(t)
  {
    var r := t.right;
    assert Cached(r.left) && Cached(r.right) && Balanced(r.left) && Balanced(r.right);
    if H(r.right) < H(r.left) {
      var m := r.left;
      assert Cached(m.left) && Cached(m.right) && Balanced(m.left) && Balanced(m.right);
      var x, y := MakeNode(t.key, t.value, t.left, m.left), MakeNode(r.key, r.value, m.right, r.right);
      assert Cached(x) && Balanced(x) && Cached(y) && Balanced(y);
      assert Balance(t) == MakeNode(m.key, m.value, x, y);
    } else {
      var x := MakeNode(t.key, t.value, t.left, r.left);
      assert Cached(x) && Balanced(x);
      assert Balance(t) == MakeNode(r.key, r.value, x, r.right);
    }
  }

  lemma KeyLessLaws(collate: Collator, a: JsString, b: JsString, c: JsString)
    requires TotalPreorder(collate)
    ensures !KeyLess(collate, a, a)
    ensures KeyLess(collate, a, b) && KeyLess(collate, b, c) ==> KeyLess(collate, a, c)
  {
    CompareKeysIsTotal(collate);
    var less := (x, y) => KeyLess(collate, x, y);
    assert less(a, b) && less(b, c) ==> less(a, c);
  }

  /** In an ordered node the two subtrees and the root key have no key in common. */
  lemma NodeDisjoint<V>(collate: Collator, t: Tree<V>)
    requires TotalPreorder(collate) && t.Node? && Ordered(collate, t)
    ensures t.key !in Map(t.left) && t.key !in Map(t.right) && Map(t.left).Keys !! Map(t.right).Keys
  {
    hide KeyLess;
    KeyLessLaws(collate, t.key, t.key, t.key);
    forall k | k in Map(t.left) && k in Map(t.right) ensures false { KeyLessLaws(collate, k, t.key, k); }
  }

  /** The maps of a node and of its left rotation, over the three subtrees. */
  lemma RotatedMap<V>(a: map<JsString, V>, b: map<JsString, V>, c: map<JsString, V>, x: JsString, v: V, y: JsString, w: V)
    requires x !in c && x != y
    ensures a + (b + c + map[y := w]) + map[x := v] == a + b + map[x := v] + c + map[y := w]
  {
  }

  lemma RotatedContents<V>(a: seq<(JsString, V)>, x: (JsString, V), b: seq<(JsString, V)>, y: (JsString, V), c: seq<(JsString, V)>)
    ensures a + [x] + (b + [y] + c) == a + [x] + b + [y] + c
  {
  }

  lemma RotateLeftKeeps<V>(collate: Collator, t: Tree<V>)
    requires TotalPreorder(collate) && t.Node? && t.right.Node? && Ordered(collate, t)
    ensures Ordered(collate, RotateLeft(t)) && Map(RotateLeft(t)) == Map(t) && Contents(RotateLeft(t)) == Contents(t)
  {
    hide KeyLess;
    var r := t.right;
    assert r.key in Map(r);
    NodeDisjoint(collate, t);
    forall k | k in Map(t.left) ensures KeyLess(collate, k, r.key) { KeyLessLaws(collate, k, t.key, r.key); }
    RotatedMap(Map(t.left), Map(r.left), Map(r.right), t.key, t.value, r.key, r.value);
    RotatedContents(Contents(t.left), (t.key, t.value), Contents(r.left), (r.key, r.value), Contents(r.right));
  }

  lemma RotateRightKeeps<V>(collate: Collator, t: Tree<V>)
    requires TotalPreorder(collate) && t.Node? && t.left.Node? && Ordered(collate, t)
    ensures Ordered(collate, RotateRight(t)) && Map(RotateRight(t)) == Map(t) && Contents(RotateRight(t)) == Contents(t)
  {
    hide KeyLess;
    var l := t.left;
    assert l.key in Map(l);
    NodeDisjoint(collate, t);
    forall k | k in Map(t.right) ensures KeyLess(collate, l.key, k) { KeyLessLaws(collate, l.key, t.key, k); }
    NodeDisjoint(collate, l);
    RotatedMap(Map(l.left), Map(l.right), Map(t.right), l.key, l.value, t.key, t.value);
    RotatedContents(Contents(l.left), (l.key, l.value), Contents(l.right), (t.key, t.value), Contents(t.right));
  }

  lemma BalanceKeeps<V>(collate: Collator, t: Tree<V>)
    requires TotalPreorder(collate) && t.Node? && Cached(t) && Ordered(collate, t)
    ensures Ordered(collate, Balance(t)) && Map(Balance(t)) == Map(t) && Contents(Balance(t)) == Contents(t)
  {
    hide KeyLess;
    if H(t.left) > H(t.right) + 1 {
      var l := t.left;
      if H(l.left) < H(l.right) {
        RotateLeftKeeps(collate, l);
        RotateRightKeeps(collate, MakeNode(t.key, t.value, RotateLeft(l), t.right));
      } else {
        RotateRightKeeps(collate, t);
      }
    } else if H(t.right) > H(t.left) + 1 {
      var r := t.right;
      if H(r.right) < H(r.left) {
        RotateRightKeeps(collate, r);
        RotateLeftKeeps(collate, MakeNode(t.key, t.value, t.left, RotateRight(r)));
      } else {
        RotateLeftKeeps(collate, t);
      }
    }
  }

  // ----- updates

  /** An update either hands back the very node it was given or builds another tree. */
  datatype Update<V> = Same | New(tree: Tree<V>)

  function Apply<V>(u: Update<V>, t: Tree<V>): Tree<V> { if u.Same? then t else u.tree }

  /** The recursive writer of `set`; `Same` is the identical reference. */
  function Write<V(==)>(collate: Collator, t: Tree<V>, key: JsString, value: V): Update<V> {
    if t.Leaf? then New(MakeNode(key, value, Leaf, Leaf))
    else
      var order := CompareKeys(collate, key, t.key);
      if order == 0 then
        if t.value == value then Same else New(MakeNode(key, value, t.left, t.right))
      else
        var next := Write(collate, if order < 0 then t.left else t.right, key, value);
        if next.Same? then Same
        else New(Balance(if order < 0 then MakeNode(t.key, t.value, next.tree, t.right)
                         else MakeNode(t.key, t.value, t.left, next.tree)))
  }

  /** `set`. */
  function Set<V(==)>(collate: Collator, t: Tree<V>, key: JsString, value: V): Tree<V> {
    Apply(Write(collate, t, key, value), t)
  }

  function First<V>(t: Tree<V>): Tree<V>
    requires t.Node?
    ensures First(t).Node?
  {
    if t.left.Leaf? then t else First(t.left)
  }

  function RemoveFirst<V>(t: Tree<V>): Tree<V>
    requires t.Node?
  {
    if t.left.Leaf? then t.right
    else Balance(MakeNode(t.key, t.value, RemoveFirst(t.left), t.right))
  }

  /** The recursive remover of `delete`. */
  function Remove<V>(collate: Collator, t: Tree<V>, key: JsString): Update<V> {
    if t.Leaf? then Same
    else
      var order := CompareKeys(collate, key, t.key);
      if order == 0 then
        if t.left.Leaf? then New(t.right)
        else if t.right.Leaf? then New(t.left)
        else New(Balance(MakeNode(First(t.right).key, First(t.right).value, t.left, RemoveFirst(t.right))))
      else
        var next := Remove(collate, if order < 0 then t.left else t.right, key);
        if next.Same? then Same
        else New(Balance(if order < 0 then MakeNode(t.key, t.value, next.tree, t.right)
                         else MakeNode(t.key, t.value, t.left, next.tree)))
  }

  /** `delete`. */
  function Delete<V>(collate: Collator, t: Tree<V>, key: JsString): Tree<V> {
    Apply(Remove(collate, t, key), t)
  }

  lemma RootKey(collate: Collator, key: JsString, root: JsString)
    requires TotalPreorder(collate)
    ensures CompareKeys(collate, key, root) == 0 <==> key == root
    ensures CompareKeys(collate, key, root) < 0 <==> KeyLess(collate, key, root)
    ensures CompareKeys(collate, key, root) > 0 <==> KeyLess(collate, root, key)
  {
    CompareKeysIsTotal(collate);
  }

  /** A node rebuilt over subtrees whose heights differ by at most two. */
  lemma Rebuilt<V>(collate: Collator, t: Tree<V>)
    requires TotalPreorder(collate) && t.Node? && Cached(t) && Ordered(collate, t) && Balanced(t.left) && Balanced(t.right)
    requires H(t.left) <= H(t.right) + 2 && H(t.right) <= H(t.left) + 2
    ensures Valid(collate, Balance(t)) && Map(Balance(t)) == Map(t) && H(t) - 1 <= H(Balance(t)) <= H(t)
    ensures H(t.left) <= H(t.right) + 1 && H(t.right) <= H(t.left) + 1 ==> Balance(t) == t
  {
    hide KeyLess, Balance;
    BalanceHeights(t);
    BalanceKeeps(collate, t);
  }

  /** The height of a rebuilt node moves with the replaced subtree, by at most one. */
  ghost predicate Moved(before: nat, after: nat, childBefore: nat, childAfter: nat) {
    && (childAfter == childBefore + 1 ==> before <= after <= before + 1)
    && (childAfter == childBefore ==> after == before)
    && (childAfter == childBefore - 1 ==> before - 1 <= after <= before)
  }

  lemma ReplaceLeft<V>(collate: Collator, t: Tree<V>, left: Tree<V>)
    requires TotalPreorder(collate) && Valid(collate, t) && t.Node? && Valid(collate, left)
    requires H(t.left) - 1 <= H(left) <= H(t.left) + 1 && AllLess(collate, Map(left), t.key)
    ensures var r := Balance(MakeNode(t.key, t.value, left, t.right));
      && Valid(collate, r) && Map(r) == Map(left) + Map(t.right) + map[t.key := t.value] && Moved(H(t), H(r), H(t.left), H(left))
  {
    hide KeyLess, Balance, Map;
    var n := MakeNode(t.key, t.value, left, t.right);
    Rebuilt(collate, n);
    NodeMap(n);
  }

  lemma ReplaceRight<V>(collate: Collator, t: Tree<V>, right: Tree<V>)
    requires TotalPreorder(collate) && Valid(collate, t) && t.Node? && Valid(collate, right)
    requires H(t.right) - 1 <= H(right) <= H(t.right) + 1 && AllGreater(collate, Map(right), t.key)
    ensures var r := Balance(MakeNode(t.key, t.value, t.left, right));
      && Valid(collate, r) && Map(r) == Map(t.left) + Map(right) + map[t.key := t.value] && Moved(H(t), H(r), H(t.right), H(right))
  {
    hide KeyLess, Balance, Map;
    var n := MakeNode(t.key, t.value, t.left, right);
    Rebuilt(collate, n);
    NodeMap(n);
  }

  lemma NodeMap<V>(t: Tree<V>)
    requires t.Node?
    ensures Map(t) == Map(t.left) + Map(t.right) + map[t.key := t.value]
  {
  }

  lemma SetIn<V>(a: map<JsString, V>, b: map<JsString, V>, x: JsString, v: V, key: JsString, value: V)
    requires key != x
    ensures key !in b ==> a[key := value] + b + map[x := v] == (a + b + map[x := v])[key := value]
    ensures key !in a ==> b + a[key := value] + map[x := v] == (b + a + map[x := v])[key := value]
    ensures b + a[key := value] + map[x := v] == (b + a + map[x := v])[key := value]
  {
  }

  lemma RemoveIn<V>(a: map<JsString, V>, b: map<JsString, V>, x: JsString, v: V, key: JsString)
    requires key != x && key !in b
    ensures (a - {key}) + b + map[x := v] == a + b + map[x := v] - {key}
    ensures b + (a - {key}) + map[x := v] == b + a + map[x := v] - {key}
  {
  }

  /**
   `set` keeps order, balance and caches, means the map update, and hands back the same root exactly
   when the key already held that value.
   */
  lemma {:induction false} SetIsUpdate<V>(collate: Collator, t: Tree<V>, key: JsString, value: V)
    requires TotalPreorder(collate) && Valid(collate, t)
    ensures var r := Set(collate, t, key, value);
      && Valid(collate, r) && Map(r) == Map(t)[key := value] && H(t) <= H(r) <= H(t) + 1
      && (Write(collate, t, key, value).Same? <==> key in Map(t) && Map(t)[key] == value)
  {
    hide KeyLess, CompareKeys, Balance;
    if t.Node? {
      RootKey(collate, key, t.key);
      NodeDisjoint(collate, t);
      if key == t.key {
      } else if CompareKeys(collate, key, t.key) < 0 {
        SetIsUpdate(collate, t.left, key, value);
        KeyLessLaws(collate, key, t.key, key);
        SetIn(Map(t.left), Map(t.right), t.key, t.value, key, value);
        if Write(collate, t.left, key, value).New? { ReplaceLeft(collate, t, Set(collate, t.left, key, value)); }
      } else {
        SetIsUpdate(collate, t.right, key, value);
        KeyLessLaws(collate, t.key, key, t.key);
        SetIn(Map(t.right), Map(t.left), t.key, t.value, key, value);
        if Write(collate, t.right, key, value).New? { ReplaceRight(collate, t, Set(collate, t.right, key, value)); }
      }
    }
  }

  lemma {:induction false} FirstIsLeast<V>(collate: Collator, t: Tree<V>)
    requires TotalPreorder(collate) && Valid(collate, t) && t.Node?
    ensures First(t).key in Map(t) && Map(t)[First(t).key] == First(t).value
    ensures Valid(collate, RemoveFirst(t)) && H(t) - 1 <= H(RemoveFirst(t)) <= H(t)
    ensures Map(RemoveFirst(t)) == Map(t) - {First(t).key}
    ensures AllGreater(collate, Map(RemoveFirst(t)), First(t).key)
  {
    hide KeyLess, Balance;
    NodeDisjoint(collate, t);
    if t.left.Node? {
      FirstIsLeast(collate, t.left);
      var first := First(t.left);
      forall k | k in Map(t.right) ensures KeyLess(collate, first.key, k) { KeyLessLaws(collate, first.key, t.key, k); }
      RemoveIn(Map(t.left), Map(t.right), t.key, t.value, first.key);
      ReplaceLeft(collate, t, RemoveFirst(t.left));
    }
  }

  /** Removing the root: its successor takes its place. */
  lemma RootRemoved<V>(collate: Collator, t: Tree<V>)
    requires TotalPreorder(collate) && Valid(collate, t) && t.Node? && t.left.Node? && t.right.Node?
    ensures var first := First(t.right);
      var r := Balance(MakeNode(first.key, first.value, t.left, RemoveFirst(t.right)));
      Valid(collate, r) && Map(r) == Map(t) - {t.key} && H(t) - 1 <= H(r) <= H(t)
  {
    hide KeyLess, Balance;
    FirstIsLeast(collate, t.right);
    NodeDisjoint(collate, t);
    var first := First(t.right);
    forall k | k in Map(t.left) ensures KeyLess(collate, k, first.key) { KeyLessLaws(collate, k, t.key, first.key); }
    var n := MakeNode(first.key, first.value, t.left, RemoveFirst(t.right));
    Rebuilt(collate, n);
    SuccessorIn(Map(t.left), Map(t.right), t.key, t.value, first.key);
  }

  lemma SuccessorIn<V>(a: map<JsString, V>, b: map<JsString, V>, x: JsString, v: V, first: JsString)
    requires x !in a && x !in b && first in b
    ensures a + (b - {first}) + map[first := b[first]] == a + b + map[x := v] - {x}
  {
  }

  /**
   `delete` keeps order, balance and caches, removes exactly the key, and hands back the same root
   exactly when the key was absent.
   */
  lemma {:induction false} DeleteIsRemoval<V>(collate: Collator, t: Tree<V>, key: JsString)
    requires TotalPreorder(collate) && Valid(collate, t)
    ensures var r := Delete(collate, t, key);
      && Valid(collate, r) && Map(r) == Map(t) - {key} && H(t) - 1 <= H(r) <= H(t)
      && (Remove(collate, t, key).Same? <==> key !in Map(t))
  {
    hide KeyLess, CompareKeys, Balance;
    if t.Node? {
      RootKey(collate, key, t.key);
      NodeDisjoint(collate, t);
      if key == t.key {
        if t.left.Node? && t.right.Node? { RootRemoved(collate, t); }
      } else if CompareKeys(collate, key, t.key) < 0 {
        DeleteIsRemoval(collate, t.left, key);
        KeyLessLaws(collate, key, t.key, key);
        RemoveIn(Map(t.left), Map(t.right), t.key, t.value, key);
        if Remove(collate, t.left, key).New? { ReplaceLeft(collate, t, Delete(collate, t.left, key)); }
      } else {
        DeleteIsRemoval(collate, t.right, key);
        KeyLessLaws(collate, t.key, key, t.key);
        RemoveIn(Map(t.right), Map(t.left), t.key, t.value, key);
        if Remove(collate, t.right, key).New? { ReplaceRight(collate, t, Delete(collate, t.right, key)); }
      }
    }
  }

  // ----- in-order contents

  ghost predicate AscendingEntries<V>(collate: Collator, entries: seq<(JsString, V)>) {
    forall i, j :: 0 <= i < j < |entries| ==> KeyLess(collate, entries[i].0, entries[j].0)
  }

  lemma AscendingAround<V>(collate: Collator, l: seq<(JsString, V)>, e: (JsString, V), r: seq<(JsString, V)>)
    requires TotalPreorder(collate) && AscendingEntries(collate, l) && AscendingEntries(collate, r)
    requires forall i :: 0 <= i < |l| ==> KeyLess(collate, l[i].0, e.0)
    requires forall i :: 0 <= i < |r| ==> KeyLess(collate, e.0, r[i].0)
    ensures AscendingEntries(collate, l + [e] + r)
  {
    hide KeyLess;
    var c := l + [e] + r;
    forall i, j | 0 <= i < j < |c| ensures KeyLess(collate, c[i].0, c[j].0) {
      if i < |l| && j > |l| {
        KeyLessLaws(collate, l[i].0, e.0, r[j - |l| - 1].0);
      }
    }
  }

  /** An association list lists a map when it has exactly the map's keys, with their values. */
  ghost predicate Lists<V>(entries: seq<(JsString, V)>, m: map<JsString, V>) {
    && (forall i :: 0 <= i < |entries| ==> entries[i].0 in m && m[entries[i].0] == entries[i].1)
    && (forall k :: k in m ==> exists i :: 0 <= i < |entries| && entries[i].0 == k)
  }

  lemma ListsAround<V>(l: seq<(JsString, V)>, x: JsString, v: V, r: seq<(JsString, V)>, a: map<JsString, V>, b: map<JsString, V>)
    requires Lists(l, a) && Lists(r, b) && a.Keys !! b.Keys && x !in a && x !in b
    ensures Lists(l + [(x, v)] + r, a + b + map[x := v])
  {
    var c, m := l + [(x, v)] + r, a + b + map[x := v];
    forall i | 0 <= i < |c| ensures c[i].0 in m && m[c[i].0] == c[i].1 {
      assert i > |l| ==> c[i] == r[i - |l| - 1];
    }
    forall k | k in m ensures exists i :: 0 <= i < |c| && c[i].0 == k {
      if k == x {
        assert c[|l|].0 == k;
      } else if k in b {
        var i :| 0 <= i < |r| && r[i].0 == k;
        assert c[|l| + 1 + i].0 == k;
      } else {
        var i :| 0 <= i < |l| && l[i].0 == k;
        assert c[i].0 == k;
      }
    }
  }

  /** The contents list the map, in strict key order, and are as many as the cached size says. */
  lemma {:induction false} ContentsAreSorted<V>(collate: Collator, t: Tree<V>)
    requires TotalPreorder(collate) && Valid(collate, t)
    ensures AscendingEntries(collate, Contents(t)) && Lists(Contents(t), Map(t)) && |Contents(t)| == Size(t)
  {
    hide KeyLess, AscendingEntries;
    if t.Node? {
      ContentsAreSorted(collate, t.left);
      ContentsAreSorted(collate, t.right);
      NodeDisjoint(collate, t);
      AscendingAround(collate, Contents(t.left), (t.key, t.value), Contents(t.right));
      ListsAround(Contents(t.left), t.key, t.value, Contents(t.right), Map(t.left), Map(t.right));
    } else {
      NoEntries<V>(collate);
    }
  }

  lemma NoEntries<V>(collate: Collator)
    ensures AscendingEntries<V>(collate, [])
  {
  }

  function Fib(n: nat): nat { if n < 2 then n else Fib(n - 1) + Fib(n - 2) }

  lemma {:induction false} FibMonotone(m: nat, n: nat)
    requires m <= n
    ensures Fib(m) <= Fib(n)
  {
    if n >= 2 && m < n { FibMonotone(m, n - 1); }
  }

  /** A balanced tree of height h holds at least Fib(h + 2) - 1 entries. */
  lemma {:induction false} BalancedIsShallow<V>(t: Tree<V>)
    requires Cached(t) && Balanced(t)
    ensures Fib(H(t) + 2) <= Size(t) + 1
  {
    if t.Node? {
      BalancedIsShallow(t.left);
      BalancedIsShallow(t.right);
      var h := H(t);
      FibMonotone(h, H(t.left) + 2);
      FibMonotone(h, H(t.right) + 2);
      assert Fib(h + 2) == Fib(h + 1) + Fib(h);
    }
  }

  /** Lookup follows one path, no longer than the tree is high. */
  method Get<V>(collate: Collator, t: Tree<V>, key: JsString) returns (value: Option<V>, ghost visited: nat)
    requires TotalPreorder(collate) && Valid(collate, t)
    ensures value == if key in Map(t) then Some(Map(t)[key]) else None
    ensures visited <= H(t) && Fib(visited + 2) <= Size(t) + 1
  {
    var current := t;
    visited := 0;
    BalancedIsShallow(t);
    while current.Node?
      invariant Valid(collate, current)
      invariant key in Map(t) <==> key in Map(current)
      invariant key in Map(current) ==> Map(t)[key] == Map(current)[key]
      invariant visited + H(current) <= H(t)
      decreases current
    {
      var order := CompareKeys(collate, key, current.key);
      RootKey(collate, key, current.key);
      NodeDisjoint(collate, current);
      KeyLessLaws(collate, key, current.key, key);
      visited := visited + 1;
      FibMonotone(visited + 2, H(t) + 2);
      if order == 0 { return Some(current.value), visited; }
      current := if order < 0 then current.left else current.right;
    }
    FibMonotone(visited + 2, H(t) + 2);
    value := None;
  }

  // ----- iteration with an explicit stack

  /** What a stack still has to yield, from its top down. */
  ghost function Rest<V>(pending: seq<Tree<V>>): seq<(JsString, V)>
    requires forall i :: 0 <= i < |pending| ==> pending[i].Node?
  {
    if pending == [] then [] else
      var top := pending[|pending| - 1];
      [(top.key, top.value)] + Contents(top.right) + Rest(pending[..|pending| - 1])
  }

  lemma RestTop<V>(pending: seq<Tree<V>>, t: Tree<V>)
    requires (forall i :: 0 <= i < |pending| ==> pending[i].Node?) && t.Node?
    ensures Rest(pending + [t]) == [(t.key, t.value)] + Contents(t.right) + Rest(pending)
  {
    hide Contents;
    assert (pending + [t])[..|pending|] == pending;
  }

  lemma RestPush<V>(pending: seq<Tree<V>>, t: Tree<V>)
    requires (forall i :: 0 <= i < |pending| ==> pending[i].Node?) && t.Node?
    ensures Contents(t) + Rest(pending) == Contents(t.left) + Rest(pending + [t])
  {
    hide Rest;
    RestTop(pending, t);
    Regroup(Contents(t.left), [(t.key, t.value)], Contents(t.right), Rest(pending));
  }

  lemma Regroup<T>(a: seq<T>, b: seq<T>, c: seq<T>, d: seq<T>)
    ensures a + b + c + d == a + (b + c + d)
  {
  }

  /** The stack never holds more nodes than the tree is high. */
  ghost predicate StackBounded<V>(pending: seq<Tree<V>>, h: nat) {
    forall i :: 0 <= i < |pending| ==> pending[i].Node? && Cached(pending[i]) && H(pending[i]) <= h - i
  }

  lemma StackPush<V>(pending: seq<Tree<V>>, t: Tree<V>, h: nat)
    requires StackBounded(pending, h) && t.Node? && Cached(t) && H(t) <= h - |pending|
    ensures StackBounded(pending + [t], h) && |pending| + 1 <= h
    ensures Cached(t.left) && H(t.left) <= h - |pending| - 1
  {
  }

  lemma StackPop<V>(pending: seq<Tree<V>>, h: nat)
    requires StackBounded(pending, h) && pending != []
    ensures var top, front := pending[|pending| - 1], pending[..|pending| - 1];
      top.Node? && Cached(top.right) && StackBounded(front, h) && H(top.right) <= h - |front|
  {
  }

  lemma YieldNext<V>(yielded: seq<(JsString, V)>, pending: seq<Tree<V>>)
    requires (forall i :: 0 <= i < |pending| ==> pending[i].Node?) && pending != []
    ensures var top, front := pending[|pending| - 1], pending[..|pending| - 1];
      && yielded + (Contents<V>(Leaf) + Rest(pending)) == yielded + [(top.key, top.value)] + (Contents(top.right) + Rest(front))
      && |Contents(top.right) + Rest(front)| < |Contents<V>(Leaf) + Rest(pending)|
  {
    var top, front := pending[|pending| - 1], pending[..|pending| - 1];
    assert Rest(pending) == [(top.key, top.value)] + (Contents(top.right) + Rest(front));
  }

  /** The generator yields exactly the in-order association list. */
  method Entries<V>(t: Tree<V>) returns (yielded: seq<(JsString, V)>, ghost deepest: nat)
    requires Cached(t)
    ensures yielded == Contents(t) && deepest <= H(t)
  {
    hide Contents, Rest, StackBounded, Cached, H;
    var pending: seq<Tree<V>> := [];
    var current := t;
    yielded, deepest := [], 0;
    assert StackBounded(pending, H(t)) && yielded + (Contents(current) + Rest(pending)) == Contents(t) by { IterationStarts(t); }
    while current.Node? || |pending| > 0
      invariant forall i :: 0 <= i < |pending| ==> pending[i].Node?
      invariant StackBounded(pending, H(t)) && Cached(current) && H(current) <= H(t) - |pending|
      invariant yielded + (Contents(current) + Rest(pending)) == Contents(t)
      invariant deepest <= H(t)
      decreases |Contents(current) + Rest(pending)|
    {
      ghost var left := |Contents(current) + Rest(pending)|;
      while current.Node?
        invariant forall i :: 0 <= i < |pending| ==> pending[i].Node?
        invariant StackBounded(pending, H(t)) && Cached(current) && H(current) <= H(t) - |pending|
        invariant yielded + (Contents(current) + Rest(pending)) == Contents(t)
        invariant |Contents(current) + Rest(pending)| == left
        invariant current.Node? || |pending| > 0
        invariant deepest <= H(t)
        decreases current
      {
        RestPush(pending, current);
        StackPush(pending, current, H(t));
        pending := pending + [current];
        current := current.left;
        if |pending| > deepest { deepest := |pending|; }
      }
      YieldNext(yielded, pending);
      StackPop(pending, H(t));
      var next := pending[|pending| - 1];
      pending := pending[..|pending| - 1];
      yielded := yielded + [(next.key, next.value)];
      current := next.right;
    }
    IterationEnds<V>(yielded);
  }

  lemma IterationStarts<V>(t: Tree<V>)
    ensures StackBounded<V>([], H(t)) && [] + (Contents(t) + Rest<V>([])) == Contents(t)
  {
  }

  lemma IterationEnds<V>(yielded: seq<(JsString, V)>)
    ensures yielded + (Contents<V>(Leaf) + Rest<V>([])) == yielded
  {
  }

  // ----- building from a sorted list

  /** `(start + end) >>> 1`, which keeps only 32 bits of the sum. */
  function Middle(start: nat, end: nat): nat { (start + end) % 0x1_0000_0000 / 2 }

  /** Every range the recursion visits contains its middle. */
  ghost predicate Splits(start: nat, end: nat)
    requires start <= end
    decreases end - start
  {
    start == end || (start <= Middle(start, end) < end && Splits(start, Middle(start, end)) && Splits(Middle(start, end) + 1, end))
  }

  lemma {:induction false} SplitsBelow(start: nat, end: nat)
    requires start <= end <= 0x8000_0000
    ensures Splits(start, end)
    decreases end - start
  {
    if start < end {
      assert start + end < 0x1_0000_0000;
      SplitsBelow(start, Middle(start, end));
      SplitsBelow(Middle(start, end) + 1, end);
    }
  }

  lemma {:induction false} SplitsFailAbove(start: nat, end: nat)
    requires start < end && 0x8000_0000 < end < 0x1_0000_0000
    ensures !Splits(start, end)
    decreases end - start
  {
    if start + end < 0x1_0000_0000 {
      assert Middle(start, end) == (start + end) / 2;
      SplitsFailAbove(Middle(start, end) + 1, end);
    } else {
      assert (start + end) % 0x1_0000_0000 == start + end - 0x1_0000_0000;
    }
  }

  /** The 32-bit midpoint works exactly up to 2^31 entries. */
  lemma SplitsExactly(length: nat)
    requires length < 0x1_0000_0000
    ensures Splits(0, length) <==> length <= 0x8000_0000
  {
    if length <= 0x8000_0000 { SplitsBelow(0, length); } else { SplitsFailAbove(0, length); }
  }

  function Build<V>(entries: seq<(JsString, V)>, start: nat, end: nat): Tree<V>
    requires start <= end <= |entries| && Splits(start, end)
    decreases end - start
  {
    if start == end then Leaf
    else
      var middle := Middle(start, end);
      MakeNode(entries[middle].0, entries[middle].1, Build(entries, start, middle), Build(entries, middle + 1, end))
  }

  function FromSorted<V>(entries: seq<(JsString, V)>): Tree<V>
    requires |entries| <= 0x8000_0000
  {
    SplitsBelow(0, |entries|);
    Build(entries, 0, |entries|)
  }

  /** Height of a tree built over n entries. */
  function Levels(n: nat): nat { if n == 0 then 0 else 1 + Levels(n / 2) }

  lemma {:induction false} LevelsStep(n: nat)
    ensures Levels(n) <= Levels(n + 1) <= Levels(n) + 1
  {
    if n == 0 {
    } else {
      LevelsStep(n / 2);
      assert (n + 1) / 2 == n / 2 || (n + 1) / 2 == n / 2 + 1;
    }
  }

  lemma MiddleHalves(start: nat, end: nat)
    requires start < end <= 0x8000_0000
    ensures start <= Middle(start, end) < end
    ensures Middle(start, end) - start == (end - start) / 2 && end - Middle(start, end) - 1 == (end - start - 1) / 2
  {
    assert start + end < 0x1_0000_0000;
  }

  lemma LevelsUnfold(n: nat)
    requires n > 0
    ensures Levels(n) == 1 + Levels(n / 2)
  {
  }

  lemma Halves(n: nat)
    requires n > 0
    ensures n / 2 == (n - 1) / 2 || n / 2 == (n - 1) / 2 + 1
  {
  }

  lemma LevelsHalves(n: nat)
    requires n > 0
    ensures Levels((n - 1) / 2) <= Levels(n / 2) <= Levels((n - 1) / 2) + 1
    ensures Levels(n) == Levels(n / 2) + 1
  {
    hide Levels;
    LevelsUnfold(n);
    Halves(n);
    LevelsNear((n - 1) / 2, n / 2);
  }

  lemma LevelsNear(low: nat, high: nat)
    requires high == low || high == low + 1
    ensures Levels(low) <= Levels(high) <= Levels(low) + 1
  {
    hide Levels;
    LevelsStep(low);
  }

  lemma {:induction false} BuildIsBalanced<V>(entries: seq<(JsString, V)>, start: nat, end: nat)
    requires start <= end <= |entries| <= 0x8000_0000 && Splits(start, end)
    ensures var t := Build(entries, start, end);
      Cached(t) && Balanced(t) && H(t) == Levels(end - start)
    decreases end - start
  {
    hide Levels, Middle;
    if start < end {
      MiddleHalves(start, end);
      LevelsHalves(end - start);
      BuildIsBalanced(entries, start, Middle(start, end));
      BuildIsBalanced(entries, Middle(start, end) + 1, end);
    } else {
      NoLevels();
    }
  }

  lemma {:induction false} BuildContents<V>(entries: seq<(JsString, V)>, start: nat, end: nat)
    requires start <= end <= |entries| && Splits(start, end)
    ensures Contents(Build(entries, start, end)) == entries[start..end]
    decreases end - start
  {
    hide Middle;
    if start < end {
      var middle := Middle(start, end);
      BuildContents(entries, start, middle);
      BuildContents(entries, middle + 1, end);
      assert entries[start..end] == entries[start..middle] + [entries[middle]] + entries[middle + 1..end];
    }
  }

  lemma NoLevels()
    ensures Levels(0) == 0
  {
  }

  lemma AscendingParts<V>(collate: Collator, l: seq<(JsString, V)>, e: (JsString, V), r: seq<(JsString, V)>)
    requires AscendingEntries(collate, l + [e] + r)
    ensures AscendingEntries(collate, l) && AscendingEntries(collate, r)
    ensures forall i :: 0 <= i < |l| ==> KeyLess(collate, l[i].0, e.0)
    ensures forall i :: 0 <= i < |r| ==> KeyLess(collate, e.0, r[i].0)
  {
    hide KeyLess;
    var c := l + [e] + r;
    assert c[|l|] == e;
    assert forall i :: 0 <= i < |l| ==> c[i] == l[i];
    assert forall i :: 0 <= i < |r| ==> c[|l| + 1 + i] == r[i];
  }

  /** A tree whose contents ascend is ordered; with caches and balance it is valid. */
  lemma {:induction false} AscendingIsOrdered<V>(collate: Collator, t: Tree<V>)
    requires TotalPreorder(collate) && Cached(t) && Balanced(t) && AscendingEntries(collate, Contents(t))
    ensures Valid(collate, t)
  {
    hide KeyLess, AscendingEntries;
    if t.Node? {
      AscendingParts(collate, Contents(t.left), (t.key, t.value), Contents(t.right));
      AscendingIsOrdered(collate, t.left);
      AscendingIsOrdered(collate, t.right);
      ContentsAreSorted(collate, t.left);
      ContentsAreSorted(collate, t.right);
    }
  }

  /** `fromSorted` of a strictly sorted list is a valid tree with exactly that content. */
  lemma FromSortedIsValid<V>(collate: Collator, entries: seq<(JsString, V)>)
    requires TotalPreorder(collate) && AscendingEntries(collate, entries) && |entries| <= 0x8000_0000
    ensures var t := FromSorted(entries);
      Valid(collate, t) && Contents(t) == entries && Lists(entries, Map(t))
  {
    SplitsBelow(0, |entries|);
    BuildIsBalanced(entries, 0, |entries|);
    BuildContents(entries, 0, |entries|);
    assert entries[0..|entries|] == entries;
    AscendingIsOrdered(collate, FromSorted(entries));
    ContentsAreSorted(collate, FromSorted(entries));
  }

  // ----- whole runs

  datatype Step<V> = SetKey(key: JsString, value: V) | DeleteKey(key: JsString)

  function Run<V(==)>(collate: Collator, t: Tree<V>, steps: seq<Step<V>>): Tree<V> {
    if steps == [] then t
    else
      var before := Run(collate, t, steps[..|steps| - 1]);
      match steps[|steps| - 1]
      case SetKey(k, v) => Set(collate, before, k, v)
      case DeleteKey(k) => Delete(collate, before, k)
  }

  ghost function RunMap<V>(m: map<JsString, V>, steps: seq<Step<V>>): map<JsString, V> {
    if steps == [] then m
    else
      var before := RunMap(m, steps[..|steps| - 1]);
      match steps[|steps| - 1]
      case SetKey(k, v) => before[k := v]
      case DeleteKey(k) => before - {k}
  }

  lemma {:induction false} RunMeansMap<V>(collate: Collator, t: Tree<V>, steps: seq<Step<V>>)
    requires TotalPreorder(collate) && Valid(collate, t)
    ensures Valid(collate, Run(collate, t, steps)) && Map(Run(collate, t, steps)) == RunMap(Map(t), steps)
  {
    hide Set, Delete, Valid, Map;
    if steps == [] {
    } else {
      var before := Run(collate, t, steps[..|steps| - 1]);
      RunMeansMap(collate, t, steps[..|steps| - 1]);
      match steps[|steps| - 1]
      case SetKey(k, v) => SetIsUpdate(collate, before, k, v);
      case DeleteKey(k) => DeleteIsRemoval(collate, before, k);
    }
  }

  /** Every tree reachable from a valid one is valid, shallow, and means the map of the same updates. */
  lemma RunsStayValid<V>(collate: Collator, t: Tree<V>, steps: seq<Step<V>>)
    requires TotalPreorder(collate) && Valid(collate, t)
    ensures var r := Run(collate, t, steps);
      && Valid(collate, r) && Map(r) == RunMap(Map(t), steps)
      && AscendingEntries(collate, Contents(r)) && Lists(Contents(r), Map(r)) && |Contents(r)| == Size(r)
      && Fib(H(r) + 2) <= Size(r) + 1
  {
    hide KeyLess, Run, RunMap, Map, Contents, AscendingEntries, Lists, Fib, Ordered, Cached, Balanced;
    RunMeansMap(collate, t, steps);
    ContentsAreSorted(collate, Run(collate, t, steps));
    BalancedIsShallow(Run(collate, t, steps));
  }
}
