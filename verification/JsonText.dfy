/** The text that a fingerprint is taken of, read from the side of JSON (RFC 8259): what its strings,
    numbers and key order are (packages/designer-runtime/src/fingerprint.ts:41-69). */
module JsonText {
  import opened Fingerprint
  import opened Lists

  // ----- strings -----

  function HexDigit(u: CodeUnit): int {
    if 48 <= u < 58 then u as int - 48 else if 97 <= u < 103 then u as int - 87 else 0
  }

  function HexValue(a: CodeUnit, b: CodeUnit, c: CodeUnit, d: CodeUnit): (u: int)
    ensures 0 <= u < 0x10000
  {
    4096 * HexDigit(a) + 256 * HexDigit(b) + 16 * HexDigit(c) + HexDigit(d)
  }

  /** What a backslash and one more character stand for. */
  function Short(u: CodeUnit): CodeUnit {
    if u == 'b' as int as CodeUnit then 8
    else if u == 't' as int as CodeUnit then 9
    else if u == 'n' as int as CodeUnit then 10
    else if u == 'f' as int as CodeUnit then 12
    else if u == 'r' as int as CodeUnit then 13
    else u
  }

  /** The string that the inside of a JSON string stands for (section 7 of RFC 8259). */
  function Unescape(t: Text): Text {
    if t == [] then []
    else if t[0] != '\\' as int as CodeUnit || |t| == 1 then [t[0]] + Unescape(t[1..])
    else if t[1] == 'u' as int as CodeUnit && |t| >= 6 then
      [HexValue(t[2], t[3], t[4], t[5]) as CodeUnit] + Unescape(t[6..])
    else [Short(t[1])] + Unescape(t[2..])
  }

  lemma HexReads(u: CodeUnit)
    ensures HexValue(Hex(u / 4096), Hex(u / 256 % 16), Hex(u / 16 % 16), Hex(u % 16)) == u as int
  {
    HexDigitReads(u / 4096);
    HexDigitReads(u / 256 % 16);
    HexDigitReads(u / 16 % 16);
    HexDigitReads(u % 16);
    FourDigits(u as int);
    assert (u / 4096) as int == u as int / 4096 && (u / 256 % 16) as int == u as int / 256 % 16;
    assert (u / 16 % 16) as int == u as int / 16 % 16 && (u % 16) as int == u as int % 16;
    hide HexDigit, Hex;
  }

  lemma FourDigits(n: nat)
    ensures 4096 * (n / 4096) + 256 * (n / 256 % 16) + 16 * (n / 16 % 16) + n % 16 == n
  {
    assert n / 256 / 16 == n / 4096 && n / 16 / 16 == n / 256;
  }

  lemma HexDigitReads(d: CodeUnit)
    requires d < 16
    ensures HexDigit(Hex(d)) == d as int
  {}

  lemma UnitReads(u: CodeUnit, rest: Text)
    ensures Unescape(EscapeUnit(u) + rest) == [u] + Unescape(rest)
  {
    var t := EscapeUnit(u) + rest;
    if |EscapeUnit(u)| == 6 {
      HexReads(u);
      hide HexValue, Hex;
      assert t[6..] == rest;
    } else if |EscapeUnit(u)| == 2 {
      assert t[2..] == rest;
    } else {
      assert t[1..] == rest;
    }
  }

  lemma PairReads(high: CodeUnit, low: CodeUnit, rest: Text)
    requires High(high) && Low(low)
    ensures Unescape([high, low] + rest) == [high, low] + Unescape(rest)
  {
    var t := [high, low] + rest;
    assert t[1..] == [low] + rest && t[1..][1..] == rest;
  }

  /** Every string is read back from its quoted text. */
  lemma {:induction false} EscapeReads(s: Text)
    ensures Unescape(Escape(s)) == s
    decreases |s|
  {
    hide Unescape, EscapeUnit;
    if s == [] {
      assert Unescape([]) == [] by {
        NothingReads();
      }
    } else if |s| > 1 && High(s[0]) && Low(s[1]) {
      EscapeReads(s[2..]);
      PairReads(s[0], s[1], Escape(s[2..]));
      assert s == [s[0], s[1]] + s[2..];
    } else {
      EscapeReads(s[1..]);
      UnitReads(s[0], Escape(s[1..]));
      assert s == [s[0]] + s[1..];
    }
  }

  lemma NothingReads()
    ensures Unescape([]) == []
  {}

  /** Only what must be is escaped: the quote, the backslash, control characters and halves of surrogate pairs;
      with a letter where JSON has one for it, and in hexadecimal otherwise. */
  lemma UnitIs(u: CodeUnit)
    ensures EscapeUnit(u) == [u] <==> u >= 32 && u != 34 && u != 92 && !(0xd800 <= u < 0xe000)
    ensures |EscapeUnit(u)| == 2 <==> u in {8, 9, 10, 12, 13, 34, 92}
    ensures |EscapeUnit(u)| in {1, 2, 6}
  {
  }

  /** A quoted text holds no control character and no half of a surrogate pair by itself, so that it is
      JSON and well formed. */
  predicate Plain(t: Text) {
    t == [] || (if |t| > 1 && 0xd800 <= t[0] < 0xdc00 && 0xdc00 <= t[1] < 0xe000 then Plain(t[2..])
                else t[0] >= 32 && !(0xd800 <= t[0] < 0xe000) && Plain(t[1..]))
  }

  lemma PrefixPlain(u: CodeUnit, rest: Text)
    requires 32 <= u < 128 && Plain(rest)
    ensures Plain([u] + rest)
  {
    assert ([u] + rest)[1..] == rest;
  }

  lemma {:induction false} AsciiPlain(t: Text, rest: Text)
    requires (forall k :: 0 <= k < |t| ==> 32 <= t[k] < 128) && Plain(rest)
    ensures Plain(t + rest)
  {
    if t == [] {
      assert t + rest == rest;
    } else {
      AsciiPlain(t[1..], rest);
      PrefixPlain(t[0], t[1..] + rest);
      assert t + rest == [t[0]] + (t[1..] + rest);
    }
  }

  lemma UnitPlain(u: CodeUnit, rest: Text)
    requires Plain(rest)
    ensures Plain(EscapeUnit(u) + rest)
  {
    if |EscapeUnit(u)| == 1 {
      assert (EscapeUnit(u) + rest)[1..] == rest;
    } else {
      AsciiPlain(EscapeUnit(u), rest);
    }
  }

  lemma {:induction false} EscapeIsPlain(s: Text)
    ensures Plain(Escape(s))
    decreases |s|
  {
    hide EscapeUnit;
    if s == [] {
    } else if |s| > 1 && High(s[0]) && Low(s[1]) {
      EscapeIsPlain(s[2..]);
      assert ([s[0], s[1]] + Escape(s[2..]))[2..] == Escape(s[2..]);
    } else {
      EscapeIsPlain(s[1..]);
      UnitPlain(s[0], Escape(s[1..]));
    }
  }

  // ----- numbers -----

  function Number(t: Text): int {
    if t == [] then 0 else 10 * Number(t[..|t| - 1]) + t[|t| - 1] as int - '0' as int
  }

  /** The digits of a number are read back as that number, and none but 0 begins with a zero. */
  lemma {:induction false} DigitsRead(n: nat)
    ensures Number(Digits(n)) == n
    ensures n > 0 ==> Digits(n)[0] != '0' as int as CodeUnit
  {
    if n < 10 {
      assert Digits(n)[..0] == [];
    } else {
      DigitsRead(n / 10);
      var d := Digits(n / 10);
      assert Digits(n)[..|d|] == d;
    }
  }

  // ----- the order of keys, and the whole text -----

  /** One key is before another when it is shorter and the same as far as it goes, or smaller in the first
      code unit where they differ. */
  lemma {:induction false} LessIs(a: Text, b: Text)
    ensures Less(a, b) <==> a < b || exists k :: FirstDifference(a, b, k) && a[k] < b[k]
  {
    if a == [] || b == [] {
    } else if a[0] != b[0] {
      assert FirstDifference(a, b, 0);
    } else {
      var u, v := a[1..], b[1..];
      LessIs(u, v);
      assert a < b <==> u < v;
      if k :| FirstDifference(u, v, k) && u[k] < v[k] {
        FirstDifferenceOn(a, b, k);
      }
      if k :| FirstDifference(a, b, k) && a[k] < b[k] {
        assert k > 0;
        FirstDifferenceOn(a, b, k - 1);
      }
    }
  }

  predicate FirstDifference(a: Text, b: Text, k: int) {
    0 <= k < |a| && k < |b| && a[k] != b[k] && a[..k] == b[..k]
  }

  lemma FirstDifferenceOn(a: Text, b: Text, k: nat)
    requires a != [] && b != [] && a[0] == b[0]
    ensures FirstDifference(a[1..], b[1..], k) <==> FirstDifference(a, b, k + 1)
    ensures k < |a| - 1 ==> a[1..][k] == a[k + 1]
    ensures k < |b| - 1 ==> b[1..][k] == b[k + 1]
  {
    if k < |a| - 1 && k < |b| - 1 {
      assert a[..k + 1] == [a[0]] + a[1..][..k] && b[..k + 1] == [b[0]] + b[1..][..k];
      assert a[1..][..k] == a[..k + 1][1..] && b[1..][..k] == b[..k + 1][1..];
    }
  }

  /** An object's text is its defined properties, each once, in strictly ascending order of their keys. */
  lemma KeysAscend(entries: seq<Entry>)
    requires DistinctKeys(entries)
    ensures var parts := SortParts(Parts(entries));
      && Canonical(Obj(entries)) == Ascii("{") + JoinParts(parts) + Ascii("}")
      && Ordered(parts) && PartsOf(parts, entries)
      && forall e :: e in entries && !e.value.Undefined? ==> PartOf(e) in parts
  {
    Words();
    ObjectText(entries);
    PartsDistinct(entries);
    SortOrdered(Parts(entries));
    SortedFrom(entries);
    SortKeeps(Parts(entries));
    SameMembers(SortParts(Parts(entries)), Parts(entries));
    hide SortParts, JoinParts, Canonical, Ordered, PartsOf, Ascii;
    forall e | e in entries && !e.value.Undefined? ensures PartOf(e) in Parts(entries) {
      PartIn(entries, e);
    }
  }

  lemma {:induction false} PartIn(entries: seq<Entry>, e: Entry)
    requires e in entries && !e.value.Undefined?
    ensures PartOf(e) in Parts(entries)
  {
    hide Canonical;
    var rest := entries[1..];
    assert entries == [entries[0]] + rest;
    if e == entries[0] {
    } else {
      PartIn(rest, e);
    }
  }

  /** The characters JSON is written with. */
  lemma Words()
    ensures [QUOTE] == Ascii("\"") && [COMMA] == Ascii(",") && [COLON] == Ascii(":") && [MINUS] == Ascii("-")
    ensures [OPEN_BRACKET] == Ascii("[") && [CLOSE_BRACKET] == Ascii("]")
    ensures [OPEN_BRACE] == Ascii("{") && [CLOSE_BRACE] == Ascii("}")
    ensures NULL_TEXT == Ascii("null") && TRUE_TEXT == Ascii("true") && FALSE_TEXT == Ascii("false")
  {}

  /** A key as the text writes it, with its colon. */
  function KeyText(key: string): Text
    requires forall c :: c in key ==> c < 128 as char
  {
    Ascii("\"") + Ascii(key) + Ascii("\":")
  }

  lemma HeadsDecide(a: Text, b: Text)
    requires a != [] && b != [] && a[0] < b[0]
    ensures Less(a, b) && !Less(b, a)
  {}

  lemma SortFive(v: Part, t: Part, d: Part, b: Part, f: Part)
    requires v.key != [] && t.key != [] && d.key != [] && b.key != [] && f.key != []
    requires b.key[0] < d.key[0] < f.key[0] < t.key[0] < v.key[0]
    ensures SortParts([v, t, d, b, f]) == [b, d, f, t, v]
  {
    HeadsDecide(b.key, f.key);
    HeadsDecide(b.key, d.key);
    HeadsDecide(d.key, f.key);
    HeadsDecide(f.key, t.key);
    HeadsDecide(d.key, t.key);
    HeadsDecide(b.key, t.key);
    HeadsDecide(b.key, v.key);
    HeadsDecide(d.key, v.key);
    HeadsDecide(f.key, v.key);
    HeadsDecide(t.key, v.key);
    hide Less;
    SortLater(f, []);
    SortLater(b, [f]);
    SortLater(d, [b, f]);
    SortLater(t, [d, b, f]);
    SortLater(v, [t, d, b, f]);
    assert SortParts([]) == [];
    hide SortParts;
    assert InsertPart(f, []) == [f];
    assert InsertPart(b, [f]) == [b, f];
    InsertLater(d, b, [f]);
    assert InsertPart(d, [f]) == [d, f];
    InsertLater(t, b, [d, f]);
    InsertLater(t, d, [f]);
    InsertLater(t, f, []);
    InsertLater(v, b, [d, f, t]);
    InsertLater(v, d, [f, t]);
    InsertLater(v, f, [t]);
    InsertLater(v, t, []);
  }

  lemma SortLater(p: Part, rest: seq<Part>)
    ensures SortParts([p] + rest) == InsertPart(p, SortParts(rest))
  {
    assert ([p] + rest)[1..] == rest;
  }

  lemma InsertLater(p: Part, first: Part, rest: seq<Part>)
    requires Less(first.key, p.key)
    ensures InsertPart(p, []) == [p] && InsertPart(p, [first] + rest) == [first] + InsertPart(p, rest)
  {
    assert ([first] + rest)[1..] == rest;
  }

  /** A key that needs no escapes. */
  predicate Bare(key: string) {
    forall c :: c in key ==> 'a' <= c <= 'z' || 'A' <= c <= 'Z'
  }

  lemma {:induction false} BareStays(t: Text)
    requires forall k :: 0 <= k < |t| ==> 65 <= t[k] < 91 || 97 <= t[k] < 123
    ensures Escape(t) == t
  {
    if t == [] {
    } else {
      BareStays(t[1..]);
      assert t == [t[0]] + t[1..];
    }
  }

  lemma PartIsKeyText(key: string, text: Text)
    requires Bare(key)
    ensures PartText(Part(Ascii(key), text)) == KeyText(key) + text
  {
    var t := Ascii(key);
    forall k | 0 <= k < |t| ensures 65 <= t[k] < 91 || 97 <= t[k] < 123 {
      assert key[k] in key;
    }
    BareStays(t);
    assert [QUOTE] == Ascii("\"");
    assert [QUOTE] + [COLON] == Ascii("\":");
    assert [QUOTE] + t + [QUOTE] + [COLON] == [QUOTE] + t + ([QUOTE] + [COLON]);
    hide Ascii;
  }

  lemma PartsLater(e: Entry, rest: seq<Entry>)
    requires !e.value.Undefined?
    ensures Parts([e] + rest) == [PartOf(e)] + Parts(rest)
    ensures Parts([]) == []
  {
    var all := [e] + rest;
    assert all[1..] == rest && all[0] == e;
    assert Parts(all) == [PartOf(all[0])] + Parts(all[1..]);
  }

  lemma PartsOfFive(a: Entry, b: Entry, c: Entry, d: Entry, e: Entry)
    requires !a.value.Undefined? && !b.value.Undefined? && !c.value.Undefined? && !d.value.Undefined? && !e.value.Undefined?
    ensures Parts([a, b, c, d, e]) == [PartOf(a), PartOf(b), PartOf(c), PartOf(d), PartOf(e)]
  {
    hide Canonical, Parts, PartOf;
    assert [e] + [] == [e] && [d] + [e] == [d, e] && [c] + [d, e] == [c, d, e];
    assert [b] + [c, d, e] == [b, c, d, e] && [a] + [b, c, d, e] == [a, b, c, d, e];
    PartsLater(e, []);
    PartsLater(d, [e]);
    PartsLater(c, [d, e]);
    PartsLater(b, [c, d, e]);
    PartsLater(a, [b, c, d, e]);
  }

  function PartOf(e: Entry): Part {
    Part(e.key, Canonical(e.value))
  }

  lemma JoinLater(p: Part, rest: seq<Part>)
    requires rest != []
    ensures JoinParts([p] + rest) == PartText(p) + [COMMA] + JoinParts(rest)
  {
    assert ([p] + rest)[1..] == rest;
  }

  lemma JoinFive(a: Part, b: Part, c: Part, d: Part, e: Part)
    ensures JoinParts([a, b, c, d, e]) ==
      PartText(a) + [COMMA] + (PartText(b) + [COMMA] + (PartText(c) + [COMMA] + (PartText(d) + [COMMA] + PartText(e))))
  {
    assert JoinParts([e]) == PartText(e);
    hide PartText, JoinParts;
    JoinLater(d, [e]);
    JoinLater(c, [d, e]);
    JoinLater(b, [c, d, e]);
    JoinLater(a, [b, c, d, e]);
  }

  lemma SortedFields(source: Source)
    ensures var e := Fields(source);
      SortParts(Parts(e)) == [PartOf(e[3]), PartOf(e[2]), PartOf(e[4]), PartOf(e[1]), PartOf(e[0])]
  {
    FieldKeys(source);
    var e := Fields(source);
    PartsOfFive(e[0], e[1], e[2], e[3], e[4]);
    assert e == [e[0], e[1], e[2], e[3], e[4]];
    assert e[0].key[0] == 118 && e[1].key[0] == 116 && e[2].key[0] == 100 && e[3].key[0] == 98 && e[4].key[0] == 102;
    hide Fields, Parts, SortParts, Canonical;
    SortFive(PartOf(e[0]), PartOf(e[1]), PartOf(e[2]), PartOf(e[3]), PartOf(e[4]));
  }

  lemma FieldsAre(source: Source)
    ensures var e := Fields(source);
      && PartOf(e[0]) == Part(Ascii("v"), Ascii("1"))
      && PartOf(e[1]) == Part(Ascii("templateVersionId"), TemplateText(source.template))
      && PartOf(e[2]) == Part(Ascii("document"), Canonical(Obj(source.document)))
      && PartOf(e[3]) == Part(Ascii("bindings"), Canonical(Obj(source.bindings)))
      && PartOf(e[4]) == Part(Ascii("fonts"), Canonical(Arr(Strings(SortTexts(source.fonts)))))
  {
    assert Canonical(Int(1)) == Ascii("1");
    TemplateIs(source.template);
    hide Canonical, TemplateText, SortTexts, Strings;
  }

  lemma TemplateIs(template: Template)
    ensures Canonical(match template case NoTemplate => Null case TemplateVersion(id) => Str(id)) == TemplateText(template)
  {
    Words();
    hide Ascii, Escape;
  }

  lemma FieldTexts(source: Source)
    ensures var e := Fields(source);
      && PartText(PartOf(e[0])) == KeyText("v") + Ascii("1")
      && PartText(PartOf(e[2])) == KeyText("document") + Canonical(Obj(source.document))
      && PartText(PartOf(e[3])) == KeyText("bindings") + Canonical(Obj(source.bindings))
      && PartText(PartOf(e[4])) == KeyText("fonts") + Canonical(Arr(Strings(SortTexts(source.fonts))))
  {
    FieldsAre(source);
    hide Canonical, PartText, KeyText, SortTexts, Strings, Fields, PartOf;
    PartIsKeyText("v", Ascii("1"));
    PartIsKeyText("document", Canonical(Obj(source.document)));
    PartIsKeyText("bindings", Canonical(Obj(source.bindings)));
    PartIsKeyText("fonts", Canonical(Arr(Strings(SortTexts(source.fonts)))));
  }

  lemma TemplateFieldText(source: Source)
    ensures PartText(PartOf(Fields(source)[1])) == KeyText("templateVersionId") + TemplateText(source.template)
  {
    FieldsAre(source);
    hide Canonical, PartText, KeyText, TemplateText, Fields, PartOf;
    PartIsKeyText("templateVersionId", TemplateText(source.template));
  }

  /** The whole text: five keys in ascending order, each with its value. */
  lemma SourceText(source: Source)
    ensures FingerprintSource(source) ==
      Ascii("{")
      + (KeyText("bindings") + Canonical(Obj(source.bindings)) + Ascii(",")
         + (KeyText("document") + Canonical(Obj(source.document)) + Ascii(",")
            + (KeyText("fonts") + Canonical(Arr(Strings(SortTexts(source.fonts)))) + Ascii(",")
               + (KeyText("templateVersionId") + TemplateText(source.template) + Ascii(",")
                  + (KeyText("v") + Ascii("1"))))))
      + Ascii("}")
  {
    Words();
    SortedFields(source);
    FieldTexts(source);
    TemplateFieldText(source);
    var e := Fields(source);
    JoinFive(PartOf(e[3]), PartOf(e[2]), PartOf(e[4]), PartOf(e[1]), PartOf(e[0]));
    ObjectText(e);
    hide *;
  }

  lemma ObjectText(e: seq<Entry>)
    ensures Canonical(Obj(e)) == [OPEN_BRACE] + JoinParts(SortParts(Parts(e))) + [CLOSE_BRACE]
  {}

  function TemplateText(template: Template): Text {
    match template
    case NoTemplate => Ascii("null")
    case TemplateVersion(id) => Ascii("\"") + Escape(id) + Ascii("\"")
  }
}
