/**
 The canonical text tells canonical values apart: two values have the same `stableJson` exactly when their
 canonical forms are equal, so comparing texts, or digests of texts, compares values. The text is spelled with its
 separators escaped, and the spelling is a prefix code.
 */
module StableJsonInjective {
  import opened JsonReader
  import opened Options
  import opened StableJson
  import opened Utf16
  import opened Utf8Decoding

  const QUOTE: JsString := [0x22]

  // ----- the text with its separators escaped, spelled directly

  function SpellUnit(u: Unit): (r: JsString)
    ensures r != [] && r[0] != 0x22 && !IsSurrogate(r[0])
  {
    if u == 0x2028 || u == 0x2029 then HexEscape(u) else QuoteUnit(u)
  }

  function SpellString(s: JsString): JsString { QUOTE + BodyOf(s, SpellUnit) + QUOTE }

  function Spell(j: Json): JsString { TextOf(j, SpellString) }

  lemma SeparatorsOne(u: Unit)
    ensures Separators([u]) == Separator(u)
  {
    assert [u][1..] == [];
  }

  lemma {:induction false} BodySpelled(s: JsString)
    ensures Separators(QuoteBody(s)) == BodyOf(s, SpellUnit)
  {
    if s == [] {
    } else {
      if Step(s) == 2 {
        BodySpelled(s[2..]);
        SeparatorsConcat(s[..2], QuoteBody(s[2..]));
        SeparatorsPlain(s[..2]);
      } else {
        BodySpelled(s[1..]);
        SeparatorsConcat(QuoteUnit(s[0]), QuoteBody(s[1..]));
        UnitSpelled(s[0]);
      }
    }
  }

  lemma UnitSpelled(u: Unit)
    ensures Separators(QuoteUnit(u)) == SpellUnit(u)
  {
    if u == 0x2028 || u == 0x2029 {
      assert QuoteUnit(u) == [u];
      SeparatorsOne(u);
    } else {
      SeparatorsPlain(QuoteUnit(u));
    }
  }

  lemma StringSpelled(s: JsString)
    ensures Separators(Quote(s)) == SpellString(s)
  {
    BodySpelled(s);
    SeparatorsPlain(QUOTE);
    SeparatorsConcat(QUOTE, QuoteBody(s));
    SeparatorsConcat(QUOTE + QuoteBody(s), QUOTE);
  }

  lemma Around(open: JsString, text: JsString, close: JsString)
    requires |open| == 1 && open[0] < 0x80 && |close| == 1 && close[0] < 0x80
    ensures Separators(open + text + close) == open + Separators(text) + close
  {
    SeparatorsPlain(open);
    SeparatorsPlain(close);
    SeparatorsConcat(open, text);
    SeparatorsConcat(open + text, close);
  }

  /** Escaping the separators of a rendered text spells it. */
  lemma {:induction false} RenderSpelled(j: Json)
    ensures Separators(Render(j)) == Spell(j)
    decreases j, 0
  {
    match j
    case JNull => SeparatorsPlain(Ascii("null"));
    case JBool(b) => SeparatorsPlain(Ascii("true")); SeparatorsPlain(Ascii("false"));
    case JNumber(text) => SeparatorsPlain(text);
    case JString(s) => StringSpelled(s);
    case JArray(items) =>
      ItemsSpelled(items);
      Around(LBRACKET, RenderItems(items), RBRACKET);
    case JObject(members) =>
      MembersSpelled(members);
      Around(LBRACE, RenderMembers(members), RBRACE);
  }

  lemma {:induction false} ItemsSpelled(items: seq<Json>)
    ensures Separators(RenderItems(items)) == ItemsOf(items, SpellString)
    decreases items, 0
  {
    if items == [] {
    } else {
      RenderSpelled(items[0]);
      if |items| > 1 {
        ItemsSpelled(items[1..]);
        Between(Render(items[0]), RenderItems(items[1..]));
      }
    }
  }

  lemma Between(a: JsString, b: JsString)
    ensures Separators(a + COMMA + b) == Separators(a) + COMMA + Separators(b)
    ensures Separators(a + COLON + b) == Separators(a) + COLON + Separators(b)
  {
    SeparatorsPlain(COMMA);
    SeparatorsPlain(COLON);
    SeparatorsConcat(a, COMMA);
    SeparatorsConcat(a + COMMA, b);
    SeparatorsConcat(a, COLON);
    SeparatorsConcat(a + COLON, b);
  }

  lemma {:induction false} MembersSpelled(members: seq<Member>)
    ensures Separators(RenderMembers(members)) == MembersOf(members, SpellString)
    decreases members, 0
  {
    if members == [] {
    } else {
      var m := members[0];
      RenderSpelled(m.value);
      StringSpelled(m.key);
      Between(Quote(m.key), Render(m.value));
      if |members| > 1 {
        MembersSpelled(members[1..]);
        Between(RenderMember(m), RenderMembers(members[1..]));
      }
    }
  }

  // ----- reading the text back

  lemma SpellUnitSpells(u: Unit)
    ensures SpellsUnit(SpellUnit(u), u)
  {
    hide QuoteUnit, HexEscape, SpellsUnit;
    EscapeSpells(u);
    QuoteUnitSpells(u);
  }

  lemma SpellStringReads()
    ensures ReadsBack(SpellString)
  {
    hide BodyOf, ReadString, SpellsUnit;
    forall u ensures SpellsUnit(SpellUnit(u), u) { SpellUnitSpells(u); }
    forall s, rest ensures QuotedReads(SpellString(s), s, rest) {
      BodyReads(s, SpellUnit, rest);
      assert SpellString(s)[1..] + rest == BodyOf(s, SpellUnit) + ([0x22] + rest);
    }
  }

  /** The canonical text reads as the canonical form. */
  lemma StableTextReads(v: Value)
    requires StableText(v).Some?
    ensures ReadText(StableText(v).value) == Canonical(v)
  {
    hide Canonical, TextOf, ReadValue, ReadsBack, Separators, Render;
    var j := Canonical(v).value;
    RenderSpelled(j);
    SpellStringReads();
    ValueReads(j, SpellString, []);
    assert Spell(j) + [] == Spell(j);
  }

  /** Spelled values are a prefix code among terminated texts. */
  lemma ValuePrefix(a: Json, b: Json, x: JsString, y: JsString)
    requires Spell(a) + x == Spell(b) + y && Terminated(x) && Terminated(y)
    ensures a == b && x == y
  {
    hide TextOf, ReadValue, ReadsBack;
    SpellStringReads();
    ValueReads(a, SpellString, x);
    ValueReads(b, SpellString, y);
  }

  /** Two values have one canonical text exactly when they have one canonical form. */
  lemma StableTextInjective(v: Value, w: Value)
    ensures StableText(v) == StableText(w) <==> Canonical(v) == Canonical(w)
  {
    hide Canonical, ReadText, Separators, Render;
    if StableText(v).Some? { StableTextReads(v); }
    if StableText(w).Some? { StableTextReads(w); }
  }

  // ----- the bytes of the text

  lemma UnitPlain(u: Unit)
    ensures forall i :: 0 <= i < |SpellUnit(u)| ==> !IsSurrogate(SpellUnit(u)[i]) && SpellUnit(u)[i] != 0x2028 && SpellUnit(u)[i] != 0x2029
  {
  }

  lemma {:induction false} BodyPaired(s: JsString)
    ensures Paired(BodyOf(s, SpellUnit))
  {
    hide SpellUnit, BodyOf;
    BodyUnfolds(s, SpellUnit);
    if s == [] {
    } else if Step(s) == 2 {
      BodyPaired(s[2..]);
      assert Paired(s[..2]) by { assert s[..2][2..] == []; }
      PairedConcat(s[..2], BodyOf(s[2..], SpellUnit));
    } else {
      BodyPaired(s[1..]);
      UnitPlain(s[0]);
      PlainIsPaired(SpellUnit(s[0]));
      PairedConcat(SpellUnit(s[0]), BodyOf(s[1..], SpellUnit));
    }
  }

  lemma StringPaired(s: JsString)
    ensures Paired(SpellString(s))
  {
    hide BodyOf;
    BodyPaired(s);
    AroundPaired(QUOTE, BodyOf(s, SpellUnit), QUOTE);
  }

  lemma AroundPaired(open: JsString, text: JsString, close: JsString)
    requires |open| == 1 && open[0] < 0x80 && |close| == 1 && close[0] < 0x80 && Paired(text)
    ensures Paired(open + text + close)
  {
    PlainIsPaired(open);
    PlainIsPaired(close);
    PairedConcat(open, text);
    PairedConcat(open + text, close);
  }

  lemma BetweenPaired(a: JsString, mark: JsString, b: JsString)
    requires |mark| == 1 && mark[0] < 0x80 && Paired(a) && Paired(b)
    ensures Paired(a + mark + b)
  {
    PlainIsPaired(mark);
    PairedConcat(a, mark);
    PairedConcat(a + mark, b);
  }

  lemma {:induction false} TextPaired(j: Json)
    ensures Paired(TextOf(j, SpellString))
    decreases j, 0
  {
    hide SpellString, Paired;
    match j
    case JNull => PlainIsPaired(Ascii("null"));
    case JBool(b) => PlainIsPaired(Ascii("true")); PlainIsPaired(Ascii("false"));
    case JNumber(text) => PlainIsPaired(text);
    case JString(s) => StringPaired(s);
    case JArray(items) =>
      ItemsPaired(items);
      AroundPaired(LBRACKET, ItemsOf(items, SpellString), RBRACKET);
    case JObject(members) =>
      MembersPaired(members);
      AroundPaired(LBRACE, MembersOf(members, SpellString), RBRACE);
  }

  lemma {:induction false} ItemsPaired(items: seq<Json>)
    ensures Paired(ItemsOf(items, SpellString))
    decreases items, 0
  {
    hide SpellString, Paired, TextOf;
    if items == [] {
      PlainIsPaired([]);
    } else {
      TextPaired(items[0]);
      ItemsPaired(items[1..]);
      BetweenPaired(TextOf(items[0], SpellString), COMMA, ItemsOf(items[1..], SpellString));
    }
  }

  lemma {:induction false} MembersPaired(members: seq<Member>)
    ensures Paired(MembersOf(members, SpellString))
    decreases members, 0
  {
    hide SpellString, Paired, TextOf;
    if members == [] {
      PlainIsPaired([]);
    } else {
      var m := members[0];
      StringPaired(m.key);
      TextPaired(m.value);
      BetweenPaired(SpellString(m.key), COLON, TextOf(m.value, SpellString));
      MembersPaired(members[1..]);
      BetweenPaired(MemberOf(m, SpellString), COMMA, MembersOf(members[1..], SpellString));
    }
  }

  /** What a hashed message says to a reader of UTF-8 JSON. */
  function ReadMessage(message: seq<Byte>): Option<Json> {
    var text := Decode(message);
    if text.None? then None else ReadText(text.value)
  }

  /** The bytes of the canonical text read as the canonical form. */
  lemma MessageReads(v: Value)
    requires StableText(v).Some?
    ensures ReadMessage(Utf8(StableText(v).value)) == Canonical(v)
  {
    hide Canonical, ReadText, Separators, Render, Decode, Paired, TextOf, Utf8;
    var j := Canonical(v).value;
    RenderSpelled(j);
    TextPaired(j);
    Utf8Decodes(Spell(j));
    StableTextReads(v);
  }

  /** The separators that Go escapes are escaped, in whatever text. */
  lemma {:induction false} SeparatorsGone(s: JsString)
    ensures forall i :: 0 <= i < |Separators(s)| ==> Separators(s)[i] != 0x2028 && Separators(s)[i] != 0x2029
  {
    if s == [] {
    } else {
      SeparatorsGone(s[1..]);
    }
  }
}
