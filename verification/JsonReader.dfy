/**
 A reader of UTF-8 JSON text, written down from its grammar (RFC 8259) and not from the encoders. It gives their
 texts a meaning: what `JSON.stringify` prints for a value reads back as that value.
 */
module JsonReader {
  import opened Options
  import opened StableJson
  import opened Utf16

  // ----- strings

  /** The escapes of two characters, section 7 of RFC 8259. */
  function Escaped(c: Unit): Option<Unit> {
    if c == '\"' as int then Some(0x22)
    else if c == '\\' as int then Some(0x5C)
    else if c == '/' as int then Some(0x2F)
    else if c == 'b' as int then Some(0x08)
    else if c == 'f' as int then Some(0x0C)
    else if c == 'n' as int then Some(0x0A)
    else if c == 'r' as int then Some(0x0D)
    else if c == 't' as int then Some(0x09)
    else None
  }

  function HexValue(c: Unit): (r: Option<nat>)
    ensures r.Some? ==> r.value < 16
  {
    if '0' as int <= c <= '9' as int then Some(c - '0' as int)
    else if 'a' as int <= c <= 'f' as int then Some(10 + c - 'a' as int)
    else if 'A' as int <= c <= 'F' as int then Some(10 + c - 'A' as int)
    else None
  }

  /** The code unit of four hexadecimal digits. */
  function HexUnit(t: JsString): Option<Unit>
    requires |t| == 4
  {
    var a, b, c, d := HexValue(t[0]), HexValue(t[1]), HexValue(t[2]), HexValue(t[3]);
    if a.None? || b.None? || c.None? || d.None? then None
    else Some(((a.value * 16 + b.value) * 16 + c.value) * 16 + d.value)
  }

  /** One code unit inside a string, and how many characters spell it. */
  function ReadUnit(t: JsString): (r: Option<(Unit, nat)>)
    requires t != []
    ensures r.Some? ==> 1 <= r.value.1 <= |t|
  {
    if t[0] < 0x20 then None
    else if t[0] != '\\' as int then Some((t[0], 1))
    else if |t| >= 2 && t[1] != 'u' as int then
      var unit := Escaped(t[1]);
      if unit.None? then None else Some((unit.value, 2))
    else if |t| >= 6 then
      var unit := HexUnit(t[2..6]);
      if unit.None? then None else Some((unit.value, 6))
    else None
  }

  /** A string after its opening quote, and what follows its closing quote. */
  function ReadString(t: JsString): (r: Option<(JsString, JsString)>)
    ensures r.Some? ==> |r.value.1| < |t|
    decreases |t|
  {
    if t == [] then None
    else if t[0] == '\"' as int then Some(([], t[1..]))
    else
      var unit := ReadUnit(t);
      if unit.None? then None
      else
        var more := ReadString(t[unit.value.1..]);
        if more.None? then None else Some(([unit.value.0] + more.value.0, more.value.1))
  }

  // ----- values

  function NumeralLength(t: JsString): (n: nat)
    ensures n <= |t| && forall i :: 0 <= i < n ==> IsNumeralUnit(t[i])
  {
    if t != [] && IsNumeralUnit(t[0]) then 1 + NumeralLength(t[1..]) else 0
  }

  /** A number is known by its text. */
  function ReadNumber(t: JsString): (r: Option<(Json, JsString)>)
    requires t != []
    ensures r.Some? ==> |r.value.1| < |t|
  {
    var n := NumeralLength(t);
    if 0 < n <= 32 && (IsDigit(t[0]) || t[0] == '-' as int) then Some((JNumber(t[..n]), t[n..])) else None
  }

  function ReadLiteral(t: JsString, literal: JsString, j: Json): (r: Option<(Json, JsString)>)
    requires literal != []
    ensures r.Some? ==> |r.value.1| < |t|
  {
    if literal <= t then Some((j, t[|literal|..])) else None
  }

  /** A value, and what follows it. */
  function ReadValue(t: JsString): (r: Option<(Json, JsString)>)
    ensures r.Some? ==> |r.value.1| < |t|
    decreases |t|, 1
  {
    if t == [] then None
    else if t[0] == '\"' as int then
      var s := ReadString(t[1..]);
      if s.None? then None else Some((JString(s.value.0), s.value.1))
    else if t[0] == '[' as int then
      if |t| > 1 && t[1] == ']' as int then Some((JArray([]), t[2..]))
      else
        var items := ReadItems(t[1..]);
        if items.None? then None else Some((JArray(items.value.0), items.value.1))
    else if t[0] == '{' as int then
      if |t| > 1 && t[1] == '}' as int then Some((JObject([]), t[2..]))
      else
        var members := ReadMembers(t[1..]);
        if members.None? then None else Some((JObject(members.value.0), members.value.1))
    else if t[0] == 'n' as int then ReadLiteral(t, Ascii("null"), JNull)
    else if t[0] == 't' as int then ReadLiteral(t, Ascii("true"), JBool(true))
    else if t[0] == 'f' as int then ReadLiteral(t, Ascii("false"), JBool(false))
    else ReadNumber(t)
  }

  /** One or more items up to the closing bracket. */
  function ReadItems(t: JsString): (r: Option<(seq<Json>, JsString)>)
    ensures r.Some? ==> |r.value.1| < |t|
    decreases |t|, 2
  {
    var item := ReadValue(t);
    if item.None? || item.value.1 == [] then None
    else if item.value.1[0] == ']' as int then Some(([item.value.0], item.value.1[1..]))
    else if item.value.1[0] == ',' as int then
      var more := ReadItems(item.value.1[1..]);
      if more.None? then None else Some(([item.value.0] + more.value.0, more.value.1))
    else None
  }

  function ReadMember(t: JsString): (r: Option<(Member, JsString)>)
    ensures r.Some? ==> |r.value.1| < |t|
    decreases |t|, 2
  {
    if t == [] || t[0] != '\"' as int then None
    else
      var key := ReadString(t[1..]);
      if key.None? || key.value.1 == [] || key.value.1[0] != ':' as int then None
      else
        var value := ReadValue(key.value.1[1..]);
        if value.None? then None else Some((Member(key.value.0, value.value.0), value.value.1))
  }

  /** One or more members up to the closing brace. */
  function ReadMembers(t: JsString): (r: Option<(seq<Member>, JsString)>)
    ensures r.Some? ==> |r.value.1| < |t|
    decreases |t|, 3
  {
    var member := ReadMember(t);
    if member.None? || member.value.1 == [] then None
    else if member.value.1[0] == '}' as int then Some(([member.value.0], member.value.1[1..]))
    else if member.value.1[0] == ',' as int then
      var more := ReadMembers(member.value.1[1..]);
      if more.None? then None else Some(([member.value.0] + more.value.0, more.value.1))
    else None
  }

  /** The value a whole text spells. */
  function ReadText(t: JsString): Option<Json> {
    var r := ReadValue(t);
    if r.Some? && r.value.1 == [] then Some(r.value.0) else None
  }

  // ----- texts that differ only in how strings are quoted

  function TextOf(j: Json, quote: JsString -> JsString): JsString
    decreases j, 0
  {
    match j
    case JNull => Ascii("null")
    case JBool(b) => if b then Ascii("true") else Ascii("false")
    case JNumber(text) => text
    case JString(s) => quote(s)
    case JArray(items) => LBRACKET + ItemsOf(items, quote) + RBRACKET
    case JObject(members) => LBRACE + MembersOf(members, quote) + RBRACE
  }

  function ItemsOf(items: seq<Json>, quote: JsString -> JsString): JsString
    decreases items, 0
  {
    if items == [] then []
    else if |items| == 1 then TextOf(items[0], quote)
    else TextOf(items[0], quote) + COMMA + ItemsOf(items[1..], quote)
  }

  function MemberOf(m: Member, quote: JsString -> JsString): JsString
    decreases m, 0
  {
    quote(m.key) + COLON + TextOf(m.value, quote)
  }

  function MembersOf(members: seq<Member>, quote: JsString -> JsString): JsString
    decreases members, 0
  {
    if members == [] then []
    else if |members| == 1 then MemberOf(members[0], quote)
    else MemberOf(members[0], quote) + COMMA + MembersOf(members[1..], quote)
  }

  /** The quoted string starts with a quote, and the rest reads as the string, whatever follows. */
  ghost predicate ReadsBack(quote: JsString -> JsString) { forall s, rest :: QuotedReads(quote(s), s, rest) }

  ghost predicate QuotedReads(quoted: JsString, s: JsString, rest: JsString) {
    quoted != [] && quoted[0] == '\"' as int && ReadString(quoted[1..] + rest) == Some((s, rest))
  }

  /** What may follow a value: nothing, a comma or a closing bracket. */
  predicate Terminated(x: JsString) { x == [] || x[0] == 0x2C || x[0] == 0x5D || x[0] == 0x7D }

  lemma {:induction false} NumeralEnds(t: JsString, rest: JsString)
    requires (forall i :: 0 <= i < |t| ==> IsNumeralUnit(t[i])) && Terminated(rest)
    ensures NumeralLength(t + rest) == |t|
  {
    if t == [] {
      assert t + rest == rest;
    } else {
      assert (t + rest)[1..] == t[1..] + rest;
      NumeralEnds(t[1..], rest);
    }
  }

  lemma NumberReads(text: Numeral, rest: JsString)
    requires Terminated(rest)
    ensures ReadValue(text + rest) == Some((JNumber(text), rest))
  {
    NumeralEnds(text, rest);
    assert (text + rest)[..|text|] == text && (text + rest)[|text|..] == rest;
  }

  lemma LiteralReads(t: JsString, literal: JsString, rest: JsString, j: Json)
    requires literal != [] && t == literal + rest
    ensures ReadLiteral(t, literal, j) == Some((j, rest))
  {
    assert t[|literal|..] == rest;
  }

  lemma StringReads(quoted: JsString, s: JsString, rest: JsString)
    requires QuotedReads(quoted, s, rest)
    ensures ReadValue(quoted + rest) == Some((JString(s), rest))
  {
    assert (quoted + rest)[1..] == quoted[1..] + rest;
  }

  /** The text of a value reads back as the value. */
  lemma {:induction false} ValueReads(j: Json, quote: JsString -> JsString, rest: JsString)
    requires ReadsBack(quote) && Terminated(rest)
    ensures TextOf(j, quote) != [] && TextOf(j, quote)[0] != ']' as int
    ensures ReadValue(TextOf(j, quote) + rest) == Some((j, rest))
    decreases j, 0
  {
    hide ReadsBack, ReadValue, ReadItems, ReadMembers;
    var t := TextOf(j, quote) + rest;
    match j
    case JNull => LiteralValue(t, rest);
    case JBool(b) => LiteralValue(t, rest);
    case JNumber(text) => NumberReads(text, rest);
    case JString(s) =>
      QuotedBack(quote, s, rest);
      StringReads(quote(s), s, rest);
    case JArray(items) =>
      assert t == LBRACKET + (ItemsOf(items, quote) + RBRACKET + rest);
      if items == [] {
        EmptyReads(t, rest);
      } else {
        ItemsRead(items, quote, rest);
        ArrayReads(items, ItemsOf(items, quote), rest);
      }
    case JObject(members) =>
      assert t == LBRACE + (MembersOf(members, quote) + RBRACE + rest);
      if members == [] {
        EmptyReads(t, rest);
      } else {
        MembersRead(members, quote, rest);
        ObjectReads(members, MembersOf(members, quote), rest);
      }
  }

  lemma QuotedBack(quote: JsString -> JsString, s: JsString, rest: JsString)
    requires ReadsBack(quote)
    ensures QuotedReads(quote(s), s, rest)
  {
  }

  lemma LiteralValue(t: JsString, rest: JsString)
    ensures t == Ascii("null") + rest ==> ReadValue(t) == Some((JNull, rest))
    ensures t == Ascii("true") + rest ==> ReadValue(t) == Some((JBool(true), rest))
    ensures t == Ascii("false") + rest ==> ReadValue(t) == Some((JBool(false), rest))
  {
    if t == Ascii("null") + rest { LiteralReads(t, Ascii("null"), rest, JNull); }
    if t == Ascii("true") + rest { LiteralReads(t, Ascii("true"), rest, JBool(true)); }
    if t == Ascii("false") + rest { LiteralReads(t, Ascii("false"), rest, JBool(false)); }
  }

  lemma EmptyReads(t: JsString, rest: JsString)
    ensures t == LBRACKET + ([] + RBRACKET + rest) ==> ReadValue(t) == Some((JArray([]), rest))
    ensures t == LBRACE + ([] + RBRACE + rest) ==> ReadValue(t) == Some((JObject([]), rest))
  {
    if t == LBRACKET + ([] + RBRACKET + rest) { assert t == [0x5B, 0x5D] + rest && t[2..] == rest; }
    if t == LBRACE + ([] + RBRACE + rest) { assert t == [0x7B, 0x7D] + rest && t[2..] == rest; }
  }

  lemma ArrayReads(items: seq<Json>, text: JsString, rest: JsString)
    requires text != [] && text[0] != ']' as int && ReadItems(text + RBRACKET + rest) == Some((items, rest))
    ensures ReadValue(LBRACKET + (text + RBRACKET + rest)) == Some((JArray(items), rest))
  {
    hide ReadItems;
    var t := LBRACKET + (text + RBRACKET + rest);
    assert t[1..] == text + RBRACKET + rest && t[1] == text[0];
  }

  lemma ObjectReads(members: seq<Member>, text: JsString, rest: JsString)
    requires text != [] && text[0] == '\"' as int && ReadMembers(text + RBRACE + rest) == Some((members, rest))
    ensures ReadValue(LBRACE + (text + RBRACE + rest)) == Some((JObject(members), rest))
  {
    hide ReadMembers;
    var t := LBRACE + (text + RBRACE + rest);
    assert t[1..] == text + RBRACE + rest && t[1] == text[0];
  }

  /** What follows the first of several items or members. */
  function After(more: JsString, last: bool, close: JsString, rest: JsString): JsString {
    if last then close + rest else COMMA + (more + close + rest)
  }

  lemma FirstThenAfter(first: JsString, more: JsString, close: JsString, rest: JsString)
    requires close == RBRACKET || close == RBRACE
    ensures first + close + rest == first + After(more, true, close, rest)
    ensures first + COMMA + more + close + rest == first + After(more, false, close, rest)
    ensures Terminated(After(more, true, close, rest)) && Terminated(After(more, false, close, rest))
    ensures After(more, true, close, rest)[1..] == rest && After(more, true, close, rest)[0] == close[0]
    ensures After(more, false, close, rest)[1..] == more + close + rest && After(more, false, close, rest)[0] == ',' as int
  {
    assert first + close + rest == first + (close + rest);
    assert first + COMMA + more + close + rest == first + (COMMA + (more + close + rest));
  }

  lemma {:induction false} ItemsRead(items: seq<Json>, quote: JsString -> JsString, rest: JsString)
    requires ReadsBack(quote) && items != []
    ensures ItemsOf(items, quote) != [] && ItemsOf(items, quote)[0] != ']' as int
    ensures ReadItems(ItemsOf(items, quote) + RBRACKET + rest) == Some((items, rest))
    decreases items, 0
  {
    hide ReadsBack, ReadValue, TextOf, After;
    var last, more := |items| == 1, ItemsOf(items[1..], quote);
    FirstThenAfter(TextOf(items[0], quote), more, RBRACKET, rest);
    ValueReads(items[0], quote, After(more, last, RBRACKET, rest));
    assert items == [items[0]] + items[1..];
    if last {
      assert ItemsOf(items, quote) == TextOf(items[0], quote) && items == [items[0]];
    } else {
      ItemsRead(items[1..], quote, rest);
      assert ItemsOf(items, quote) == TextOf(items[0], quote) + COMMA + more;
    }
  }

  lemma MemberReads(m: Member, quote: JsString -> JsString, rest: JsString)
    requires ReadsBack(quote) && Terminated(rest)
    requires ReadValue(TextOf(m.value, quote) + rest) == Some((m.value, rest))
    ensures MemberOf(m, quote) != [] && MemberOf(m, quote)[0] == '\"' as int
    ensures ReadMember(MemberOf(m, quote) + rest) == Some((m, rest))
  {
    hide ReadsBack, ReadValue, TextOf, ReadString;
    var after := COLON + (TextOf(m.value, quote) + rest);
    QuotedBack(quote, m.key, after);
    assert MemberOf(m, quote) + rest == quote(m.key) + after;
    assert (quote(m.key) + after)[1..] == quote(m.key)[1..] + after;
    assert after[1..] == TextOf(m.value, quote) + rest;
  }

  lemma {:induction false} MembersRead(members: seq<Member>, quote: JsString -> JsString, rest: JsString)
    requires ReadsBack(quote) && members != []
    ensures MembersOf(members, quote) != [] && MembersOf(members, quote)[0] == '\"' as int
    ensures ReadMembers(MembersOf(members, quote) + RBRACE + rest) == Some((members, rest))
    decreases members, 0
  {
    hide ReadsBack, ReadValue, TextOf, After, ReadMember, MemberOf;
    var last, more := |members| == 1, MembersOf(members[1..], quote);
    var after := After(more, last, RBRACE, rest);
    FirstThenAfter(MemberOf(members[0], quote), more, RBRACE, rest);
    ValueReads(members[0].value, quote, after);
    MemberReads(members[0], quote, after);
    assert members == [members[0]] + members[1..];
    if last {
      assert MembersOf(members, quote) == MemberOf(members[0], quote) && members == [members[0]];
    } else {
      MembersRead(members[1..], quote, rest);
      assert MembersOf(members, quote) == MemberOf(members[0], quote) + COMMA + more;
    }
  }

  // ----- the texts of `JSON.stringify`

  lemma HexReads(u: Unit)
    ensures HexUnit(HexEscape(u)[2..6]) == Some(u) && HexEscape(u)[0] == '\\' as int && HexEscape(u)[1] == 'u' as int
  {
    Nibbles(u);
    var t := HexEscape(u)[2..6];
    assert HexValue(t[0]) == Some(u / 0x1000) && HexValue(t[1]) == Some(u / 0x100 % 0x10);
    assert HexValue(t[2]) == Some(u / 0x10 % 0x10) && HexValue(t[3]) == Some(u % 0x10);
  }

  lemma Nibbles(u: Unit)
    ensures u == u / 0x1000 * 0x1000 + u / 0x100 % 0x10 * 0x100 + u / 0x10 % 0x10 * 0x10 + u % 0x10
  {
    Quotients(u, 0x10);
    Quotients(u, 0x100);
    assert u == 0x10 * (u / 0x10) + u % 0x10;
  }

  lemma Quotients(u: int, d: int)
    requires u >= 0 && d in {0x10, 0x100}
    ensures u / d == 0x10 * (u / (0x10 * d)) + u / d % 0x10
  {
    assert u / d / 0x10 == u / (0x10 * d) by { QuotientTwice(u, d); }
  }

  lemma QuotientTwice(u: int, d: int)
    requires u >= 0 && d in {0x10, 0x100}
    ensures u / d / 0x10 == u / (0x10 * d)
  {
    var q := u / (0x10 * d);
    assert 0x10 * d * q <= u < 0x10 * d * (q + 1);
    if d == 0x10 {
      assert 0x10 * q <= u / 0x10 < 0x10 * (q + 1);
    } else {
      assert 0x10 * q <= u / 0x100 < 0x10 * (q + 1);
    }
  }

  /** A text spells one unit: it reads as that unit, and is no quote. */
  ghost predicate SpellsUnit(text: JsString, u: Unit) {
    text != [] && text[0] != '\"' as int && forall rest: JsString :: ReadUnit(text + rest) == Some((u, |text|))
  }

  lemma EscapeSpells(u: Unit)
    ensures SpellsUnit(HexEscape(u), u)
  {
    hide HexEscape, HexUnit;
    HexReads(u);
    forall rest: JsString ensures ReadUnit(HexEscape(u) + rest) == Some((u, 6)) {
      assert (HexEscape(u) + rest)[2..6] == HexEscape(u)[2..6];
    }
  }

  lemma QuoteUnitSpells(u: Unit)
    ensures SpellsUnit(QuoteUnit(u), u)
  {
    hide HexEscape, HexUnit;
    EscapeSpells(u);
  }

  lemma UnitThenString(text: JsString, u: Unit, t: JsString, s: JsString, rest: JsString)
    requires SpellsUnit(text, u) && ReadString(t) == Some((s, rest))
    ensures ReadString(text + t) == Some(([u] + s, rest))
  {
    hide ReadUnit;
    assert ReadUnit(text + t) == Some((u, |text|));
    assert (text + t)[|text|..] == t && (text + t)[0] == text[0];
  }

  /** A surrogate pair is spelled by itself. */
  lemma PairThenString(pair: JsString, t: JsString, s: JsString, rest: JsString)
    requires |pair| == 2 && IsSurrogate(pair[0]) && IsSurrogate(pair[1]) && ReadString(t) == Some((s, rest))
    ensures ReadString(pair + t) == Some((pair + s, rest))
  {
    assert SpellsUnit([pair[1]], pair[1]) && SpellsUnit([pair[0]], pair[0]);
    UnitThenString([pair[1]], pair[1], t, s, rest);
    UnitThenString([pair[0]], pair[0], [pair[1]] + t, [pair[1]] + s, rest);
    assert [pair[0]] + ([pair[1]] + t) == pair + t && [pair[0]] + ([pair[1]] + s) == pair + s;
  }

  /** A string body in which pairs stay as they are and every other unit is spelled. */
  function BodyOf(s: JsString, spell: Unit -> JsString): JsString {
    if s == [] then []
    else if Step(s) == 2 then s[..2] + BodyOf(s[2..], spell)
    else spell(s[0]) + BodyOf(s[1..], spell)
  }

  lemma BodyUnfolds(s: JsString, spell: Unit -> JsString)
    ensures s == [] ==> BodyOf(s, spell) == []
    ensures s != [] && Step(s) == 2 ==> BodyOf(s, spell) == s[..2] + BodyOf(s[2..], spell) && IsSurrogate(s[0]) && IsSurrogate(s[1])
    ensures s != [] && Step(s) == 1 ==> BodyOf(s, spell) == spell(s[0]) + BodyOf(s[1..], spell)
  {
  }

  lemma CloseReads(rest: JsString)
    ensures ReadString([0x22] + rest) == Some(([], rest))
  {
    assert ([0x22] + rest)[1..] == rest;
  }

  lemma {:induction false} BodyReads(s: JsString, spell: Unit -> JsString, rest: JsString)
    requires forall u :: SpellsUnit(spell(u), u)
    ensures ReadString(BodyOf(s, spell) + ([0x22] + rest)) == Some((s, rest))
  {
    hide SpellsUnit, ReadString, BodyOf;
    var close := [0x22] + rest;
    BodyUnfolds(s, spell);
    if s == [] {
      CloseReads(rest);
      assert BodyOf(s, spell) + close == close;
    } else if Step(s) == 2 {
      BodyReads(s[2..], spell, rest);
      PairThenString(s[..2], BodyOf(s[2..], spell) + close, s[2..], rest);
      assert BodyOf(s, spell) + close == s[..2] + (BodyOf(s[2..], spell) + close) && s == s[..2] + s[2..];
    } else {
      BodyReads(s[1..], spell, rest);
      UnitThenString(spell(s[0]), s[0], BodyOf(s[1..], spell) + close, s[1..], rest);
      assert BodyOf(s, spell) + close == spell(s[0]) + (BodyOf(s[1..], spell) + close) && s == [s[0]] + s[1..];
    }
  }

  lemma {:induction false} QuoteBodyIs(s: JsString)
    ensures QuoteBody(s) == BodyOf(s, QuoteUnit)
  {
    hide QuoteUnit;
    if s == [] {
    } else {
      QuoteBodyIs(s[Step(s)..]);
    }
  }

  /** Every string reads back from its quoted form. */
  lemma QuoteReads()
    ensures ReadsBack(Quote)
  {
    hide QuoteBody, BodyOf, ReadString, SpellsUnit;
    forall u ensures SpellsUnit(QuoteUnit(u), u) { QuoteUnitSpells(u); }
    forall s, rest ensures QuotedReads(Quote(s), s, rest) {
      QuoteBodyIs(s);
      BodyReads(s, QuoteUnit, rest);
      assert Quote(s)[1..] + rest == QuoteBody(s) + ([0x22] + rest);
    }
  }

  lemma {:induction false} RenderIsText(j: Json)
    ensures Render(j) == TextOf(j, Quote)
    decreases j, 0
  {
    hide Quote;
    match j
    case JArray(items) => ItemsAreText(items);
    case JObject(members) => MembersAreText(members);
    case _ =>
  }

  lemma {:induction false} ItemsAreText(items: seq<Json>)
    ensures RenderItems(items) == ItemsOf(items, Quote)
    decreases items, 0
  {
    hide Render, TextOf;
    if items == [] {
    } else {
      RenderIsText(items[0]);
      ItemsAreText(items[1..]);
    }
  }

  lemma {:induction false} MembersAreText(members: seq<Member>)
    ensures RenderMembers(members) == MembersOf(members, Quote)
    decreases members, 0
  {
    hide Render, TextOf, Quote;
    if members == [] {
    } else {
      RenderIsText(members[0].value);
      MembersAreText(members[1..]);
    }
  }

  /** The text of a value reads back as the value. */
  lemma RenderReads(j: Json)
    ensures ReadText(Render(j)) == Some(j)
  {
    hide Render, TextOf, ReadValue, ReadsBack;
    QuoteReads();
    RenderIsText(j);
    ValueReads(j, Quote, []);
    assert TextOf(j, Quote) + [] == TextOf(j, Quote);
  }

  lemma QuotedUnit(u: Unit)
    ensures Quote([u]) == [0x22] + QuoteUnit(u) + [0x22]
  {
    hide QuoteUnit;
    assert [u][1..] == [];
    assert QuoteBody([u]) == QuoteUnit(u) + QuoteBody([]);
  }

  /** Which of the spellings that read alike is chosen: the short one for the characters that have one. */
  lemma ShortEscapes()
    ensures Quote([0x08]) == Ascii("\"\\b\"") && Quote([0x09]) == Ascii("\"\\t\"") && Quote([0x0A]) == Ascii("\"\\n\"")
    ensures Quote([0x0C]) == Ascii("\"\\f\"") && Quote([0x0D]) == Ascii("\"\\r\"")
    ensures Quote([0x22]) == Ascii("\"\\\"\"") && Quote([0x5C]) == Ascii("\"\\\\\"")
  {
    hide Quote;
    QuotedUnit(0x08);
    QuotedUnit(0x09);
    QuotedUnit(0x0A);
    QuotedUnit(0x0C);
    QuotedUnit(0x0D);
    QuotedUnit(0x22);
    QuotedUnit(0x5C);
  }

  /** ... four lower-case digits for the other control characters and for half pairs, and the rest as it is. */
  lemma OtherUnits(u: Unit)
    ensures (u < 0x20 && u !in {0x08, 0x09, 0x0A, 0x0C, 0x0D}) || IsSurrogate(u) ==>
      && |Quote([u])| == 8 && Quote([u])[1..3] == Ascii("\\u")
      && forall i :: 3 <= i < 7 ==> IsDigit(Quote([u])[i]) || 'a' as int <= Quote([u])[i] <= 'f' as int
    ensures u >= 0x20 && u != 0x22 && u != 0x5C && !IsSurrogate(u) ==> Quote([u]) == [0x22, u, 0x22]
  {
    hide Quote;
    QuotedUnit(u);
  }

  /** A surrogate pair is printed as it is. */
  lemma PairsArePlain(s: JsString)
    requires s != [] && Step(s) == 2
    ensures Quote(s) == [0x22] + s[..2] + Quote(s[2..])[1..]
  {
  }
}
