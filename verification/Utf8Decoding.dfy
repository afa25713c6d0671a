/**
 Decoding UTF-8 (RFC 3629), written down from the layout of its byte sequences. Strings without half surrogate pairs,
 which is what the canonical texts are, come back from their bytes.
 */
module Utf8Decoding {
  import opened Options
  import opened Utf16

  predicate Continues(b: Byte) { 0x80 <= b < 0xC0 }

  /** The six bits that a continuation byte carries. */
  function Six(b: Byte): (n: nat)
    requires Continues(b)
    ensures n < 0x40
  {
    b as int - 0x80
  }

  /** A code point and the number of its bytes; over-long forms are not refused. */
  function DecodePoint(b: seq<Byte>): (r: Option<(nat, nat)>)
    requires b != []
    ensures r.Some? ==> r.value.0 < 0x11_0000 && 1 <= r.value.1 <= |b|
  {
    var first := b[0] as int;
    if first < 0x80 then Some((first, 1))
    else if 0xC0 <= first < 0xE0 && |b| >= 2 && Continues(b[1]) then Some(((first - 0xC0) * 0x40 + Six(b[1]), 2))
    else if 0xE0 <= first < 0xF0 && |b| >= 3 && Continues(b[1]) && Continues(b[2]) then
      Some((((first - 0xE0) * 0x40 + Six(b[1])) * 0x40 + Six(b[2]), 3))
    else if 0xF0 <= first && |b| >= 4 && Continues(b[1]) && Continues(b[2]) && Continues(b[3]) then
      var p := (((first - 0xF0) * 0x40 + Six(b[1])) * 0x40 + Six(b[2])) * 0x40 + Six(b[3]);
      if p < 0x11_0000 then Some((p, 4)) else None
    else None
  }

  /** The UTF-16 code units of a code point. */
  function Units(p: nat): JsString
    requires p < 0x11_0000
  {
    if p < 0x1_0000 then [p] else [0xD800 + (p - 0x1_0000) / 0x400, 0xDC00 + (p - 0x1_0000) % 0x400]
  }

  function Decode(b: seq<Byte>): Option<JsString> {
    if b == [] then Some([])
    else
      var point := DecodePoint(b);
      if point.None? then None
      else
        var rest := Decode(b[point.value.1..]);
        if rest.None? then None else Some(Units(point.value.0) + rest.value)
  }

  // ----- strings without half pairs

  predicate Paired(s: JsString) {
    s == [] || ((Step(s) == 2 || !IsSurrogate(s[0])) && Paired(s[Step(s)..]))
  }

  lemma {:induction false} PairedConcat(a: JsString, b: JsString)
    requires Paired(a) && Paired(b)
    ensures Paired(a + b)
  {
    if a == [] {
      assert a + b == b;
    } else {
      assert (a + b)[Step(a)..] == a[Step(a)..] + b;
      PairedConcat(a[Step(a)..], b);
    }
  }

  lemma {:induction false} PlainIsPaired(s: JsString)
    requires forall i :: 0 <= i < |s| ==> !IsSurrogate(s[i])
    ensures Paired(s)
  {
    if s == [] {
    } else {
      PlainIsPaired(s[1..]);
    }
  }

  lemma PointDecodes(p: nat, rest: seq<Byte>)
    requires p < 0x11_0000 && !(0xD800 <= p < 0xE000)
    ensures DecodePoint(PointBytes(p) + rest) == Some((p, |PointBytes(p)|))
  {
    if p >= 0x1_0000 {
      Base64Digits(p);
    } else if p >= 0x800 {
      assert p / 0x1000 == p / 0x40 / 0x40;
    }
  }

  lemma Base64Digits(p: nat)
    ensures p == ((p / 0x4_0000 * 0x40 + p / 0x1000 % 0x40) * 0x40 + p / 0x40 % 0x40) * 0x40 + p % 0x40
  {
    assert p / 0x1000 == p / 0x40 / 0x40;
    assert p / 0x4_0000 == p / 0x1000 / 0x40;
  }

  lemma PointUnits(s: JsString)
    requires s != [] && (Step(s) == 2 || !IsSurrogate(s[0]))
    ensures Units(Point(s)) == s[..Step(s)] && !(0xD800 <= Point(s) < 0xE000)
  {
  }

  /** A string without half pairs comes back from its bytes. */
  lemma {:induction false} Utf8Decodes(s: JsString)
    requires Paired(s)
    ensures Decode(Utf8(s)) == Some(s)
  {
    hide PointBytes, Point, Units, DecodePoint;
    if s == [] {
    } else {
      var n, bytes := Step(s), PointBytes(Point(s));
      Utf8Decodes(s[n..]);
      PointUnits(s);
      PointDecodes(Point(s), Utf8(s[n..]));
      assert Utf8(s)[|bytes|..] == Utf8(s[n..]);
      assert s == s[..n] + s[n..];
    }
  }
}
