/**
 JSON Pointers (sections 3 and 4 of RFC 6901): pointers and paths are two forms of the same thing, and reading a
 pointer follows the path it stands for.
 */
module JsonPointer {
  import opened Options
  import opened Splitting
  import opened Utf16
  import StableJson

  const SLASH: Unit := 0x2F
  const TILDE: Unit := 0x7E
  const ZERO: Unit := 0x30
  const ONE: Unit := 0x31

  // ----- one segment

  /** `replaceAll` of a two-character pattern. */
  function ReplacePair(s: JsString, a: Unit, b: Unit, instead: Unit): JsString {
    if s == [] then []
    else if |s| >= 2 && s[0] == a && s[1] == b then [instead] + ReplacePair(s[2..], a, b, instead)
    else [s[0]] + ReplacePair(s[1..], a, b, instead)
  }

  /** `replaceAll` of one character. */
  function ReplaceUnit(s: JsString, a: Unit, instead: JsString): JsString {
    if s == [] then [] else (if s[0] == a then instead else [s[0]]) + ReplaceUnit(s[1..], a, instead)
  }

  /** `~1` first, then `~0`. */
  function Unescape(s: JsString): JsString { ReplacePair(ReplacePair(s, TILDE, ONE, SLASH), TILDE, ZERO, TILDE) }

  function Escape(s: JsString): JsString { ReplaceUnit(ReplaceUnit(s, TILDE, [TILDE, ZERO]), SLASH, [TILDE, ONE]) }

  /** Every tilde starts one of the two escapes. */
  predicate ValidSegment(s: JsString) {
    s == [] || (
      if s[0] == TILDE then |s| >= 2 && (s[1] == ZERO || s[1] == ONE) && ValidSegment(s[2..])
      else ValidSegment(s[1..]))
  }

  /** The single left-to-right decoding. */
  function Decode(s: JsString): JsString
    requires ValidSegment(s)
  {
    if s == [] then []
    else if s[0] == TILDE then [if s[1] == ONE then SLASH else TILDE] + Decode(s[2..])
    else [s[0]] + Decode(s[1..])
  }

  function EncodeUnit(u: Unit): JsString {
    if u == TILDE then [TILDE, ZERO] else if u == SLASH then [TILDE, ONE] else [u]
  }

  function Encode(s: JsString): JsString { if s == [] then [] else EncodeUnit(s[0]) + Encode(s[1..]) }

  lemma {:induction false} ReplaceUnitAppend(a: JsString, b: JsString, u: Unit, instead: JsString)
    ensures ReplaceUnit(a + b, u, instead) == ReplaceUnit(a, u, instead) + ReplaceUnit(b, u, instead)
  {
    if a == [] {
      assert a + b == b;
    } else {
      assert (a + b)[1..] == a[1..] + b;
      ReplaceUnitAppend(a[1..], b, u, instead);
    }
  }

  /** The two replacements in a row escape each character once. */
  lemma {:induction false} EscapeIsEncode(s: JsString)
    ensures Escape(s) == Encode(s)
  {
    if s == [] {
    } else {
      var first := if s[0] == TILDE then [TILDE, ZERO] else [s[0]];
      var rest := ReplaceUnit(s[1..], TILDE, [TILDE, ZERO]);
      EscapeIsEncode(s[1..]);
      ReplaceUnitAppend(first, rest, SLASH, [TILDE, ONE]);
      assert [s[0]][1..] == [];
      if s[0] == TILDE {
        assert first[1..] == [ZERO] && [ZERO][1..] == [];
        assert ReplaceUnit([ZERO], SLASH, [TILDE, ONE]) == [ZERO];
      }
      assert ReplaceUnit(first, SLASH, [TILDE, ONE]) == EncodeUnit(s[0]);
    }
  }

  /** What the first replacement leaves: slashes for `~1`, and `~0` still escaped. */
  function HalfDecoded(s: JsString): JsString
    requires ValidSegment(s)
  {
    if s == [] then []
    else if s[0] == TILDE then (if s[1] == ONE then [SLASH] else [TILDE, ZERO]) + HalfDecoded(s[2..])
    else [s[0]] + HalfDecoded(s[1..])
  }

  lemma {:induction false} FirstPass(s: JsString)
    requires ValidSegment(s)
    ensures ReplacePair(s, TILDE, ONE, SLASH) == HalfDecoded(s)
  {
    if s == [] {
    } else {
      if s[0] == TILDE {
        FirstPass(s[2..]);
        if s[1] == ZERO {
          assert s[1..][1..] == s[2..];
          assert ReplacePair(s[1..], TILDE, ONE, SLASH) == [ZERO] + ReplacePair(s[2..], TILDE, ONE, SLASH);
        }
      } else {
        FirstPass(s[1..]);
      }
    }
  }

  lemma {:induction false} SecondPass(s: JsString)
    requires ValidSegment(s)
    ensures ReplacePair(HalfDecoded(s), TILDE, ZERO, TILDE) == Decode(s)
  {
    if s == [] {
    } else {
      var half := HalfDecoded(s);
      if s[0] == TILDE {
        SecondPass(s[2..]);
        if s[1] == ONE { assert half[1..] == HalfDecoded(s[2..]); } else { assert half[2..] == HalfDecoded(s[2..]); }
      } else {
        SecondPass(s[1..]);
        assert half[1..] == HalfDecoded(s[1..]);
      }
    }
  }

  /** Replacing `~1` and then `~0` is the single left-to-right decoding. */
  lemma UnescapeIsDecode(s: JsString)
    requires ValidSegment(s)
    ensures Unescape(s) == Decode(s)
  {
    FirstPass(s);
    SecondPass(s);
  }

  /** The other order would decode `~01` to a slash. */
  lemma OrderOfReplacementsMatters()
    ensures var s: JsString := [TILDE, ZERO, ONE];
      ValidSegment(s) && Unescape(s) == [TILDE, ONE]
      && ReplacePair(ReplacePair(s, TILDE, ZERO, TILDE), TILDE, ONE, SLASH) == [SLASH]
  {
    var s: JsString := [TILDE, ZERO, ONE];
    assert s[1..] == [ZERO, ONE] && s[2..] == [ONE] && [ZERO, ONE][1..] == [ONE];
    var t: JsString := [TILDE, ONE];
    assert t[1..] == [ONE] && t[2..] == [];
    assert ReplacePair([ONE], TILDE, ONE, SLASH) == [ONE] && ReplacePair([ONE], TILDE, ZERO, TILDE) == [ONE];
    assert ReplacePair([ZERO, ONE], TILDE, ONE, SLASH) == [ZERO, ONE];
    assert ReplacePair(s, TILDE, ONE, SLASH) == s;
    assert ReplacePair(s, TILDE, ZERO, TILDE) == t;
    assert ReplacePair(t, TILDE, ONE, SLASH) == [SLASH];
  }

  lemma {:induction false} DecodeEncode(s: JsString)
    ensures ValidSegment(Encode(s)) && SLASH !in Encode(s) && Decode(Encode(s)) == s
  {
    if s == [] {
    } else {
      DecodeEncode(s[1..]);
      var e := Encode(s);
      if s[0] == TILDE || s[0] == SLASH { assert e[2..] == Encode(s[1..]); } else { assert e[1..] == Encode(s[1..]); }
      assert s == [s[0]] + s[1..];
    }
  }

  lemma {:induction false} EncodeDecode(s: JsString)
    requires ValidSegment(s) && SLASH !in s
    ensures Encode(Decode(s)) == s
  {
    if s == [] {
    } else {
      if s[0] == TILDE {
        EncodeDecode(s[2..]);
        assert Decode(s)[1..] == Decode(s[2..]);
        assert s == [s[0], s[1]] + s[2..];
      } else {
        EncodeDecode(s[1..]);
        assert Decode(s)[1..] == Decode(s[1..]);
        assert s == [s[0]] + s[1..];
      }
    }
  }

  // ----- pointers and paths

  datatype PointerError = NoLeadingSlash | InvalidEscape

  datatype Segments = Segments(parts: seq<JsString>) | Invalid(error: PointerError)

  predicate ValidSegments(parts: seq<JsString>) { forall i :: 0 <= i < |parts| ==> ValidSegment(parts[i]) }

  function Unescaped(parts: seq<JsString>): (r: seq<JsString>)
    ensures |r| == |parts|
  {
    seq(|parts|, i requires 0 <= i < |parts| => Unescape(parts[i]))
  }

  function PointerSegments(pointer: JsString): Segments {
    if pointer == [] then Segments([])
    else if pointer[0] != SLASH then Invalid(NoLeadingSlash)
    else
      var parts := Split(pointer[1..], SLASH);
      if ValidSegments(parts) then Segments(Unescaped(parts)) else Invalid(InvalidEscape)
  }

  /** A path names object members and array positions. */
  datatype Part = Name(name: JsString) | Index(index: nat)

  /** `String(part)`. */
  function Text(part: Part): JsString {
    match part
    case Name(name) => name
    case Index(index) => StableJson.Decimal(index)
  }

  function Texts(path: seq<Part>): (r: seq<JsString>)
    ensures |r| == |path|
  {
    seq(|path|, i requires 0 <= i < |path| => Text(path[i]))
  }

  function Escaped(parts: seq<JsString>): (r: seq<JsString>)
    ensures |r| == |parts|
  {
    seq(|parts|, i requires 0 <= i < |parts| => Escape(parts[i]))
  }

  function PointerFromPath(path: seq<Part>): JsString {
    if path == [] then [] else [SLASH] + Join(Escaped(Texts(path)), SLASH)
  }

  function Names(parts: seq<JsString>): (r: seq<Part>)
    ensures |r| == |parts|
  {
    seq(|parts|, i requires 0 <= i < |parts| => Name(parts[i]))
  }

  /** A path comes back from its pointer as the texts of its parts. */
  lemma PathRoundTrip(path: seq<Part>)
    ensures PointerSegments(PointerFromPath(path)) == Segments(Texts(path))
  {
    if path == [] {
      assert Texts(path) == [];
    } else {
      var escaped := Escaped(Texts(path));
      forall i | 0 <= i < |path| ensures SLASH !in escaped[i] && ValidSegment(escaped[i]) && Unescape(escaped[i]) == Texts(path)[i] {
        EscapeIsEncode(Texts(path)[i]);
        DecodeEncode(Texts(path)[i]);
        UnescapeIsDecode(escaped[i]);
      }
      SplitJoin(escaped, SLASH);
      assert PointerFromPath(path)[1..] == Join(escaped, SLASH);
      assert Unescaped(escaped) == Texts(path);
    }
  }

  /** A valid pointer comes back from its segments. */
  lemma PointerRoundTrip(pointer: JsString)
    requires PointerSegments(pointer).Segments?
    ensures PointerFromPath(Names(PointerSegments(pointer).parts)) == pointer
  {
    if pointer != [] {
      var parts := Split(pointer[1..], SLASH);
      PartsHaveNone(pointer[1..], SLASH);
      JoinSplit(pointer[1..], SLASH);
      var path := Names(Unescaped(parts));
      forall i | 0 <= i < |parts| ensures Escaped(Texts(path))[i] == parts[i] {
        UnescapeIsDecode(parts[i]);
        EscapeIsEncode(Unescape(parts[i]));
        EncodeDecode(parts[i]);
        assert Texts(path)[i] == Text(path[i]) == Unescape(parts[i]);
      }
      assert Escaped(Texts(path)) == parts;
      assert pointer == [SLASH] + pointer[1..];
    }
  }

  // ----- reading

  datatype Node = Leaf(value: JsString) | Array(items: seq<Node>) | Object(members: seq<(JsString, Node)>)

  function Member(members: seq<(JsString, Node)>, name: JsString): Option<Node> {
    if members == [] then None
    else if members[0].0 == name then Some(members[0].1) else Member(members[1..], name)
  }

  /** A member is the first one of its name. */
  lemma {:induction false} MemberIsFirst(members: seq<(JsString, Node)>, name: JsString)
    ensures Member(members, name).None? <==> forall i :: 0 <= i < |members| ==> members[i].0 != name
    ensures Member(members, name).Some? ==>
      exists i :: 0 <= i < |members| && members[i] == (name, Member(members, name).value)
        && forall j :: 0 <= j < i ==> members[j].0 != name
  {
    if members == [] {
    } else {
      var rest := members[1..];
      MemberIsFirst(rest, name);
      assert forall i :: 0 < i < |members| ==> members[i] == rest[i - 1];
      if members[0].0 == name {
        assert members[0] == (name, Member(members, name).value);
      } else if Member(rest, name).Some? {
        var i :| 0 <= i < |rest| && rest[i] == (name, Member(rest, name).value) && forall j :: 0 <= j < i ==> rest[j].0 != name;
        assert members[i + 1] == (name, Member(members, name).value);
      }
    }
  }

  /** The node a path leads to: names select members of objects and indices items of arrays. */
  function At(node: Node, path: seq<Part>): Option<Node>
    decreases |path|
  {
    if path == [] then Some(node)
    else match (node, path[0])
      case (Array(items), Index(index)) => if index < |items| then At(items[index], path[1..]) else None
      case (Object(members), Name(name)) =>
        var member := Member(members, name);
        if member.Some? then At(member.value, path[1..]) else None
      case _ => None
  }

  /** `^(0|[1-9]\d*)$`. */
  predicate IsIndexText(s: JsString) { s != [] && StableJson.AllDigits(s) && (|s| == 1 || s[0] != ZERO) }

  /** One step of the reading loop. */
  function Descend(current: Node, segment: JsString): Option<Node> {
    match current
    case Leaf(value) => None
    case Array(items) =>
      if IsIndexText(segment) && StableJson.DecimalValue(segment) < |items| then
        Some(items[StableJson.DecimalValue(segment)])
      else None
    case Object(members) => Member(members, segment)
  }

  /** Index texts are exactly the texts of array positions. */
  lemma {:induction false} IndexTextIsDecimal(s: JsString)
    ensures IsIndexText(s) <==> StableJson.AllDigits(s) && s == StableJson.Decimal(StableJson.DecimalValue(s))
  {
    if |s| == 1 && StableJson.AllDigits(s) {
      assert s[..0] == [];
    } else if |s| > 1 && StableJson.AllDigits(s) {
      var front := s[..|s| - 1];
      assert s == front + [s[|s| - 1]];
      IndexTextIsDecimal(front);
      var value := StableJson.DecimalValue(front);
      assert StableJson.DecimalValue(s) / 10 == value && StableJson.DecimalValue(s) % 10 == s[|s| - 1] - 0x30;
      if IsIndexText(s) {
      } else {
        assert s[0] == ZERO;
      }
    }
  }

  lemma {:induction false} DecimalIsIndexText(n: nat)
    ensures IsIndexText(StableJson.Decimal(n)) && StableJson.DecimalValue(StableJson.Decimal(n)) == n
  {
    if n < 10 {
      assert StableJson.Decimal(n)[..0] == [];
    } else {
      DecimalIsIndexText(n / 10);
      var d := StableJson.Decimal(n);
      assert d[..|d| - 1] == StableJson.Decimal(n / 10);
    }
  }

  datatype ReadResult = Found(value: Node) | NotFound | Malformed(error: PointerError)

  function Follow(node: Node, segments: seq<JsString>): Option<Node> {
    if segments == [] then Some(node)
    else
      var before := Follow(node, segments[..|segments| - 1]);
      if before.None? then None else Descend(before.value, segments[|segments| - 1])
  }

  method ReadPointer(value: Node, pointer: JsString) returns (result: ReadResult)
    ensures result.Malformed? <==> PointerSegments(pointer).Invalid?
    ensures result.Malformed? ==> result.error == PointerSegments(pointer).error
    ensures !result.Malformed? ==> Follow(value, PointerSegments(pointer).parts) == if result.Found? then Some(result.value) else None
  {
    hide Descend, PointerSegments;
    var segments := PointerSegments(pointer);
    if segments.Invalid? { return Malformed(segments.error); }
    var current := value;
    var parts := segments.parts;
    for i := 0 to |parts|
      invariant Follow(value, parts[..i]) == Some(current)
    {
      assert parts[..i + 1][..i] == parts[..i];
      var next := Descend(current, parts[i]);
      if next.None? {
        FollowStops(value, parts, i + 1);
        return NotFound;
      }
      current := next.value;
    }
    assert parts[..|parts|] == parts;
    result := Found(current);
  }

  lemma {:induction false} FollowStops(node: Node, segments: seq<JsString>, i: nat)
    requires i <= |segments| && Follow(node, segments[..i]).None?
    ensures Follow(node, segments).None?
    decreases |segments|
  {
    if i < |segments| {
      assert segments[..|segments| - 1][..i] == segments[..i];
      FollowStops(node, segments[..|segments| - 1], i);
    } else {
      assert segments[..i] == segments;
    }
  }

  lemma {:induction false} AtSnoc(node: Node, path: seq<Part>, last: Part)
    ensures At(node, path + [last]) == if At(node, path).None? then None else At(At(node, path).value, [last])
    decreases |path|
  {
    if path == [] {
      assert path + [last] == [last];
    } else {
      assert (path + [last])[1..] == path[1..] + [last];
      match (node, path[0])
      case (Array(items), Index(index)) => if index < |items| { AtSnoc(items[index], path[1..], last); }
      case (Object(members), Name(name)) =>
        var member := Member(members, name);
        if member.Some? { AtSnoc(member.value, path[1..], last); }
      case _ =>
    }
  }

  /** Following the texts of a path reaches what the path leads to. */
  lemma {:induction false} PathIsFollowed(node: Node, path: seq<Part>)
    requires At(node, path).Some?
    ensures Follow(node, Texts(path)) == At(node, path)
  {
    if path == [] {
      assert Texts(path) == [];
    } else {
      var front, last := path[..|path| - 1], path[|path| - 1];
      assert path == front + [last] && Texts(path)[..|path| - 1] == Texts(front);
      AtSnoc(node, front, last);
      PathIsFollowed(node, front);
      assert [last][1..] == [];
      if last.Index? { DecimalIsIndexText(last.index); }
    }
  }

  /** Whatever is reached lies on a path with those texts. */
  lemma {:induction false} FollowedIsPath(node: Node, segments: seq<JsString>) returns (path: seq<Part>)
    requires Follow(node, segments).Some?
    ensures Texts(path) == segments && At(node, path) == Follow(node, segments)
  {
    if segments == [] { return []; }
    var front, last := segments[..|segments| - 1], segments[|segments| - 1];
    var before := FollowedIsPath(node, front);
    var current := At(node, before).value;
    var part := if current.Array? then Index(StableJson.DecimalValue(last)) else Name(last);
    IndexTextIsDecimal(last);
    path := before + [part];
    AtSnoc(node, before, part);
    assert [part][1..] == [];
    assert Texts(path) == Texts(before) + [Text(part)];
  }

  /** A pointer reads a node exactly when it is the pointer of a path that leads to it. */
  lemma ReadsExactlyThePath(node: Node, pointer: JsString, target: Node)
    ensures (PointerSegments(pointer).Segments? && Follow(node, PointerSegments(pointer).parts) == Some(target)) <==>
      exists path :: PointerFromPath(path) == pointer && At(node, path) == Some(target)
  {
    if path :| PointerFromPath(path) == pointer && At(node, path) == Some(target) {
      PathRoundTrip(path);
      PathIsFollowed(node, path);
    }
    if PointerSegments(pointer).Segments? && Follow(node, PointerSegments(pointer).parts) == Some(target) {
      var segments := PointerSegments(pointer).parts;
      var path := FollowedIsPath(node, segments);
      PointerRoundTrip(pointer);
      assert Texts(Names(segments)) == segments;
      SameTexts(path, Names(segments));
      assert PointerFromPath(path) == pointer;
    }
  }

  lemma SameTexts(a: seq<Part>, b: seq<Part>)
    requires Texts(a) == Texts(b)
    ensures PointerFromPath(a) == PointerFromPath(b)
  {
    assert |Texts(a)| == |a| && |Texts(b)| == |b|;
  }
}
