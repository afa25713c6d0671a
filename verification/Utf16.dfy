/**
 JavaScript strings as sequences of UTF-16 code units: their code points, the two orders the
 program uses on them, and their UTF-8 encoding.
 */
module Utf16 {
  import Sorting

  type Unit = n: nat | n < 0x1_0000
  type Byte = n: nat | n < 0x100
  type JsString = seq<Unit>

  predicate IsHigh(u: Unit) { 0xD800 <= u < 0xDC00 }
  predicate IsLow(u: Unit) { 0xDC00 <= u < 0xE000 }
  predicate IsSurrogate(u: Unit) { 0xD800 <= u < 0xE000 }

  /** A string literal of the program, all of whose characters are ASCII. */
  function Ascii(s: string): (r: JsString)
    requires forall i :: 0 <= i < |s| ==> s[i] < 128 as char
    ensures |r| == |s| && forall i :: 0 <= i < |r| ==> r[i] == s[i] as int
  {
    seq(|s|, i requires 0 <= i < |s| => s[i] as int)
  }

  // ----- code points

  /** Code units the first code point of a non-empty string occupies. */
  function Step(s: JsString): (n: nat)
    requires s != []
    ensures 1 <= n <= 2 && n <= |s|
  {
    if IsHigh(s[0]) && |s| > 1 && IsLow(s[1]) then 2 else 1
  }

  /** `codePointAt(0)`; an unpaired surrogate is its own code point. */
  function Point(s: JsString): (p: nat)
    requires s != []
    ensures p < 0x11_0000 && (p >= 0x1_0000 <==> Step(s) == 2)
  {
    if Step(s) == 2 then 0x1_0000 + (s[0] as int - 0xD800) * 0x400 + (s[1] as int - 0xDC00) else s[0]
  }

  function Points(s: JsString): seq<nat> {
    if s == [] then [] else [Point(s)] + Points(s[Step(s)..])
  }

  lemma {:induction false} PointsInjective(a: JsString, b: JsString)
    requires Points(a) == Points(b)
    ensures a == b
  {
    if a != [] && b != [] {
      assert Points(a)[0] == Point(a) && Points(b)[0] == Point(b);
      assert Points(a)[1..] == Points(a[Step(a)..]) && Points(b)[1..] == Points(b[Step(b)..]);
      PointsInjective(a[Step(a)..], b[Step(b)..]);
      assert a == a[..Step(a)] + a[Step(a)..] && b == b[..Step(b)] + b[Step(b)..];
      assert a[..Step(a)] == b[..Step(b)];
    }
  }

  // ----- lexicographic orders

  predicate LexLess(a: seq<nat>, b: seq<nat>) {
    b != [] && (a == [] || a[0] < b[0] || (a[0] == b[0] && LexLess(a[1..], b[1..])))
  }

  /** The `<` operator on strings, which compares UTF-16 code units. */
  predicate Less(a: JsString, b: JsString) { LexLess(a, b) }

  /** The order of code points, which is the order of the strings' UTF-8 bytes. */
  predicate ScalarLess(a: JsString, b: JsString) { LexLess(Points(a), Points(b)) }

  lemma {:induction false} LexTransitive(a: seq<nat>, b: seq<nat>, c: seq<nat>)
    requires LexLess(a, b) && LexLess(b, c)
    ensures LexLess(a, c)
  {
    if a != [] && a[0] == b[0] && b[0] == c[0] {
      LexTransitive(a[1..], b[1..], c[1..]);
    }
  }

  lemma {:induction false} LexTrichotomy(a: seq<nat>, b: seq<nat>)
    ensures !LexLess(a, a)
    ensures a == b || LexLess(a, b) || LexLess(b, a)
    ensures !(LexLess(a, b) && LexLess(b, a))
    decreases |a| + |b|
  {
    if a == [] {
    } else {
      LexTrichotomy(a[1..], []);
      if b != [] && a[0] == b[0] {
        LexTrichotomy(a[1..], b[1..]);
        assert a == [a[0]] + a[1..] && b == [b[0]] + b[1..];
      }
    }
  }

  lemma LessIsStrictOrder()
    ensures Sorting.StrictOrder(Less)
  {
    forall x: JsString ensures !Less(x, x) { LexTrichotomy(x, x); }
    forall x: JsString, y: JsString, z: JsString | Less(x, y) && Less(y, z) ensures Less(x, z) { LexTransitive(x, y, z); }
    forall x: JsString, y: JsString ensures x == y || Less(x, y) || Less(y, x) { LexTrichotomy(x, y); }
  }

  lemma ScalarLessIsStrictOrder()
    ensures Sorting.StrictOrder(ScalarLess)
  {
    forall x ensures !ScalarLess(x, x) { LexTrichotomy(Points(x), Points(x)); }
    forall x, y, z | ScalarLess(x, y) && ScalarLess(y, z) ensures ScalarLess(x, z) {
      LexTransitive(Points(x), Points(y), Points(z));
    }
    forall x, y ensures x == y || ScalarLess(x, y) || ScalarLess(y, x) {
      LexTrichotomy(Points(x), Points(y));
      if Points(x) == Points(y) { PointsInjective(x, y); }
    }
  }

  /** The two-index loop computes the sign of the code-point lexicographic order. */
  method CompareUnicodeScalars(left: JsString, right: JsString) returns (order: int)
    ensures order < 0 <==> ScalarLess(left, right)
    ensures order > 0 <==> ScalarLess(right, left)
    ensures order == 0 <==> left == right
  {
    var a, b := 0, 0;
    while a < |left| && b < |right|
      invariant a == b <= |left| && b <= |right|
      invariant left[..a] == right[..b]
      invariant ScalarLess(left, right) <==> ScalarLess(left[a..], right[b..])
      invariant ScalarLess(right, left) <==> ScalarLess(right[b..], left[a..])
      decreases |left| - a
    {
      var leftPoint := Point(left[a..]);
      var rightPoint := Point(right[b..]);
      LexTrichotomy(Points(left), Points(right));
      assert Points(left[a..])[0] == leftPoint && Points(right[b..])[0] == rightPoint;
      var difference: int := leftPoint as int - rightPoint as int;
      if difference != 0 {
        return difference;
      }
      var n := Step(left[a..]);
      assert left[a..][n..] == left[a + n..] && right[b..][n..] == right[b + n..];
      assert left[a..][..n] == right[b..][..n];
      assert left[..a + n] == left[..a] + left[a..][..n];
      assert right[..b + n] == right[..b] + right[b..][..n];
      a := a + (if leftPoint > 0xFFFF then 2 else 1);
      b := b + (if rightPoint > 0xFFFF then 2 else 1);
    }
    if a < |left| {
      order := 1;
      assert right[b..] == [];
    } else if b < |right| {
      order := -1;
      assert left[a..] == [];
    } else {
      order := 0;
      assert left == left[..a] && right == right[..b];
    }
    LexTrichotomy(Points(left[a..]), Points(right[b..]));
  }

  // ----- UTF-8

  /** The UTF-8 bytes of one code point; an unpaired surrogate becomes U+FFFD. */
  function PointBytes(p: nat): (r: seq<Byte>)
    requires p < 0x11_0000
    ensures 1 <= |r| <= 4
  {
    if p < 0x80 then [p]
    else if 0xD800 <= p < 0xE000 then [0xEF, 0xBF, 0xBD]
    else if p < 0x800 then [0xC0 + p / 0x40, 0x80 + p % 0x40]
    else if p < 0x1_0000 then [0xE0 + p / 0x1000, 0x80 + p / 0x40 % 0x40, 0x80 + p % 0x40]
    else [0xF0 + p / 0x4_0000, 0x80 + p / 0x1000 % 0x40, 0x80 + p / 0x40 % 0x40, 0x80 + p % 0x40]
  }

  function Utf8(s: JsString): seq<Byte> {
    if s == [] then [] else PointBytes(Point(s)) + Utf8(s[Step(s)..])
  }

  /** Cutting between two strings does not cut a surrogate pair. */
  predicate CleanCut(a: JsString, b: JsString) {
    a == [] || b == [] || !IsHigh(a[|a| - 1]) || !IsLow(b[0])
  }

  lemma {:induction false} Utf8Concat(a: JsString, b: JsString)
    requires CleanCut(a, b)
    ensures Utf8(a + b) == Utf8(a) + Utf8(b)
  {
    if a == [] {
      assert a + b == b;
    } else {
      var n := Step(a);
      assert Step(a + b) == n && Point(a + b) == Point(a);
      assert (a + b)[n..] == a[n..] + b;
      Utf8Concat(a[n..], b);
    }
  }

  lemma {:induction false} Utf8Ascii(s: JsString)
    requires forall i :: 0 <= i < |s| ==> s[i] < 0x80
    ensures Utf8(s) == s
  {
    if s == [] {
    } else {
      Utf8Ascii(s[1..]);
    }
  }

  /** At most three bytes a code unit. */
  lemma {:induction false} Utf8Bound(s: JsString)
    ensures |s| <= |Utf8(s)| <= 3 * |s|
  {
    if s == [] {
    } else {
      Utf8Bound(s[Step(s)..]);
    }
  }
}
