/** The cache key of a rendered design (packages/designer-runtime/src/fingerprint.ts). */
module Fingerprint {
  import opened Lists

  // ----- JavaScript strings and values -----

  newtype CodeUnit = u: int | 0 <= u < 0x10000

  /** A string is its UTF-16 code units. */
  type Text = seq<CodeUnit>

  /** What `canonical` is given: a JSON value, or undefined.  An object lists its properties in
      insertion order. */
  datatype Value =
    | Undefined
    | Null
    | Bool(b: bool)
    | Int(n: int)
    | Str(s: Text)
    | Arr(items: seq<Value>)
    | Obj(entries: seq<Entry>)

  datatype Entry = Entry(key: Text, value: Value)

  /** The order of `<` on strings: by code unit. */
  predicate Less(a: Text, b: Text) {
    if b == [] then false else a == [] || a[0] < b[0] || (a[0] == b[0] && Less(a[1..], b[1..]))
  }

  lemma {:induction false} LessTotal(a: Text, b: Text)
    ensures (Less(a, b) && !Less(b, a) && a != b) || (Less(b, a) && !Less(a, b) && a != b) || (a == b && !Less(a, b))
  {
    if a == [] || b == [] || a[0] != b[0] {
    } else {
      LessTotal(a[1..], b[1..]);
      assert a == [a[0]] + a[1..] && b == [b[0]] + b[1..];
    }
  }

  lemma {:induction false} LessTransitive(a: Text, b: Text, c: Text)
    requires Less(a, b) && Less(b, c)
    ensures Less(a, c)
  {
    if a == [] || a[0] != b[0] || b[0] != c[0] {
    } else {
      LessTransitive(a[1..], b[1..], c[1..]);
    }
  }

  // ----- JSON.stringify on strings and numbers -----

  const QUOTE: CodeUnit := 34
  const COMMA: CodeUnit := 44
  const MINUS: CodeUnit := 45
  const ZERO: CodeUnit := 48
  const COLON: CodeUnit := 58
  const OPEN_BRACKET: CodeUnit := 91
  const BACKSLASH: CodeUnit := 92
  const CLOSE_BRACKET: CodeUnit := 93
  const OPEN_BRACE: CodeUnit := 123
  const CLOSE_BRACE: CodeUnit := 125
  const LOWER_U: CodeUnit := 117
  const NULL_TEXT: Text := [110, 117, 108, 108]
  const TRUE_TEXT: Text := [116, 114, 117, 101]
  const FALSE_TEXT: Text := [102, 97, 108, 115, 101]

  predicate High(u: CodeUnit) { 0xd800 <= u < 0xdc00 }

  predicate Low(u: CodeUnit) { 0xdc00 <= u < 0xe000 }

  function Hex(d: CodeUnit): CodeUnit
    requires d < 16
  {
    if d < 10 then ZERO + d else 87 + d
  }

  /** One code unit of a quoted string: a control character, a quote, a backslash or an unpaired
      surrogate is escaped. */
  function EscapeUnit(u: CodeUnit): (r: Text)
    ensures r != [] && r[0] != QUOTE
  {
    if u == QUOTE || u == BACKSLASH then [BACKSLASH, u]
    else if u == 8 then [BACKSLASH, 98]
    else if u == 9 then [BACKSLASH, 116]
    else if u == 10 then [BACKSLASH, 110]
    else if u == 12 then [BACKSLASH, 102]
    else if u == 13 then [BACKSLASH, 114]
    else if u < 32 || High(u) || Low(u) then
      [BACKSLASH, LOWER_U, Hex(u / 4096), Hex(u / 256 % 16), Hex(u / 16 % 16), Hex(u % 16)]
    else [u]
  }

  function Escape(s: Text): Text
    decreases |s|
  {
    if s == [] then []
    else if |s| > 1 && High(s[0]) && Low(s[1]) then [s[0], s[1]] + Escape(s[2..])
    else EscapeUnit(s[0]) + Escape(s[1..])
  }

  function Quote(s: Text): Text {
    [QUOTE] + Escape(s) + [QUOTE]
  }

  function Digits(n: nat): (r: Text)
    ensures r != [] && forall k :: 0 <= k < |r| ==> IsDigit(r[k])
  {
    if n < 10 then [ZERO + n as CodeUnit] else Digits(n / 10) + [ZERO + (n % 10) as CodeUnit]
  }

  predicate IsDigit(u: CodeUnit) { 48 <= u < 58 }

  function Decimal(n: int): Text {
    if n < 0 then [MINUS] + Digits(-n) else Digits(n)
  }

  // ----- canonical -----

  datatype Part = Part(key: Text, text: Text)

  function Canonical(v: Value): Text {
    match v
    case Undefined => NULL_TEXT
    case Null => NULL_TEXT
    case Bool(b) => if b then TRUE_TEXT else FALSE_TEXT
    case Int(n) => Decimal(n)
    case Str(s) => Quote(s)
    case Arr(items) => [OPEN_BRACKET] + CanonicalItems(items) + [CLOSE_BRACKET]
    case Obj(entries) => [OPEN_BRACE] + JoinParts(SortParts(Parts(entries))) + [CLOSE_BRACE]
  }

  /** `items.map(canonical).join(',')` */
  function CanonicalItems(items: seq<Value>): Text {
    if items == [] then [] else if |items| == 1 then Canonical(items[0])
    else Canonical(items[0]) + [COMMA] + CanonicalItems(items[1..])
  }

  /** The properties that are not undefined, each with its own text. */
  function Parts(entries: seq<Entry>): seq<Part> {
    if entries == [] then []
    else (if entries[0].value.Undefined? then [] else [Part(entries[0].key, Canonical(entries[0].value))]) + Parts(entries[1..])
  }

  function InsertPart(p: Part, s: seq<Part>): seq<Part> {
    if s == [] || !Less(s[0].key, p.key) then [p] + s else [s[0]] + InsertPart(p, s[1..])
  }

  /** A stable sort by key. */
  function SortParts(s: seq<Part>): seq<Part> {
    if s == [] then [] else InsertPart(s[0], SortParts(s[1..]))
  }

  function PartText(p: Part): Text { Quote(p.key) + [COLON] + p.text }

  function JoinParts(s: seq<Part>): Text {
    if s == [] then [] else if |s| == 1 then PartText(s[0]) else PartText(s[0]) + [COMMA] + JoinParts(s[1..])
  }

  // ----- the text is unambiguous: no value's text is a proper prefix of another's -----

  /** What may follow a value inside a text. */
  predicate Stop(r: Text) {
    r == [] || r[0] == COMMA || r[0] == CLOSE_BRACKET || r[0] == CLOSE_BRACE
  }

  lemma SplitAt(a: Text, b: Text, x: Text, y: Text)
    requires a + x == b + y && |a| == |b|
    ensures a == b && x == y
  {
    assert a == (a + x)[..|a|] && b == (b + y)[..|b|];
    assert x == (a + x)[|a|..] && y == (b + y)[|b|..];
  }

  lemma Assoc(a: Text, b: Text, c: Text)
    ensures a + b + c == a + (b + c)
  {}

  lemma First(a: Text, b: Text)
    requires a != []
    ensures (a + b)[0] == a[0]
  {}

  lemma HexDigits(d: CodeUnit, e: CodeUnit)
    requires d < 16 && e < 16 && Hex(d) == Hex(e)
    ensures d == e
  {}

  lemma HexSum(u: int)
    requires 0 <= u < 0x10000
    ensures u == u / 4096 * 4096 + u / 256 % 16 * 256 + u / 16 % 16 * 16 + u % 16
  {
    Sixteens(u);
    Sixteens(u / 16);
    Sixteens(u / 256);
  }

  lemma Sixteens(u: int)
    requires u >= 0
    ensures u / 256 == u / 16 / 16 && u / 4096 == u / 256 / 16 && u == u / 16 * 16 + u % 16
  {
  }

  lemma HexInjective(u: CodeUnit, v: CodeUnit)
    requires Hex(u / 4096) == Hex(v / 4096) && Hex(u / 256 % 16) == Hex(v / 256 % 16)
    requires Hex(u / 16 % 16) == Hex(v / 16 % 16) && Hex(u % 16) == Hex(v % 16)
    ensures u == v
  {
    hide Hex;
    HexDigits(u / 4096, v / 4096);
    HexDigits(u / 256 % 16, v / 256 % 16);
    HexDigits(u / 16 % 16, v / 16 % 16);
    HexDigits(u % 16, v % 16);
    HexSum(u as int);
    HexSum(v as int);
  }

  /** The escape of one code unit can be read off the front of a text. */
  lemma EscapeUnitUnique(u: CodeUnit, v: CodeUnit, x: Text, y: Text)
    requires EscapeUnit(u) + x == EscapeUnit(v) + y
    ensures u == v && x == y
  {
    var a, b := EscapeUnit(u), EscapeUnit(v);
    assert a[0] == (a + x)[0] == (b + y)[0] == b[0];
    if |a| > 1 && |b| > 1 {
      assert a[1] == (a + x)[1] == (b + y)[1] == b[1];
      if |a| == 6 && |b| == 6 {
        SplitAt(a, b, x, y);
        assert a[2] == b[2] && a[3] == b[3] && a[4] == b[4] && a[5] == b[5];
        HexInjective(u, v);
      }
    }
    SplitAt(a, b, x, y);
  }

  lemma {:induction false} EscapeUnique(s: Text, t: Text, x: Text, y: Text)
    requires Escape(s) + ([QUOTE] + x) == Escape(t) + ([QUOTE] + y)
    ensures s == t && x == y
    decreases |s| + |t|
  {
    var l, r := Escape(s) + ([QUOTE] + x), Escape(t) + ([QUOTE] + y);
    assert l[0] == r[0];
    if s == [] || t == [] {
      EscapeEnds(s, x);
      EscapeEnds(t, y);
      SplitAt([QUOTE], [QUOTE], x, y);
    } else {
      if Pair(s) {
        EscapePair(s, x);
      } else {
        EscapeOne(s, x);
      }
      if Pair(t) {
        EscapePair(t, y);
      } else {
        EscapeOne(t, y);
      }
      if Pair(s) && Pair(t) {
        assert l[1] == r[1];
        SplitAt(s[..2], t[..2], Escape(s[2..]) + ([QUOTE] + x), Escape(t[2..]) + ([QUOTE] + y));
        EscapeUnique(s[2..], t[2..], x, y);
        assert s == s[..2] + s[2..] && t == t[..2] + t[2..];
      } else if !Pair(s) && !Pair(t) {
        EscapeUnitUnique(s[0], t[0], Escape(s[1..]) + ([QUOTE] + x), Escape(t[1..]) + ([QUOTE] + y));
        EscapeUnique(s[1..], t[1..], x, y);
        assert s == [s[0]] + s[1..] && t == [t[0]] + t[1..];
      }
    }
  }

  predicate Pair(s: Text) { |s| > 1 && High(s[0]) && Low(s[1]) }

  lemma EscapeEnds(s: Text, x: Text)
    ensures (Escape(s) + ([QUOTE] + x))[0] == QUOTE <==> s == []
    ensures s == [] ==> Escape(s) + ([QUOTE] + x) == [QUOTE] + x
  {}

  lemma EscapePair(s: Text, x: Text)
    requires Pair(s)
    ensures Escape(s) + ([QUOTE] + x) == s[..2] + (Escape(s[2..]) + ([QUOTE] + x))
  {
    assert s[..2] == [s[0], s[1]];
    assert [s[0], s[1]] + Escape(s[2..]) + ([QUOTE] + x) == [s[0], s[1]] + (Escape(s[2..]) + ([QUOTE] + x));
  }

  lemma EscapeOne(s: Text, x: Text)
    requires s != [] && !Pair(s)
    ensures Escape(s) + ([QUOTE] + x) == EscapeUnit(s[0]) + (Escape(s[1..]) + ([QUOTE] + x))
    ensures !High(EscapeUnit(s[0])[0])
  {
    assert EscapeUnit(s[0]) + Escape(s[1..]) + ([QUOTE] + x) == EscapeUnit(s[0]) + (Escape(s[1..]) + ([QUOTE] + x));
  }

  lemma QuoteUnique(s: Text, t: Text, x: Text, y: Text)
    requires Quote(s) + x == Quote(t) + y
    ensures s == t && x == y
  {
    assert Quote(s) + x == [QUOTE] + (Escape(s) + ([QUOTE] + x));
    assert Quote(t) + y == [QUOTE] + (Escape(t) + ([QUOTE] + y));
    SplitAt([QUOTE], [QUOTE], Escape(s) + ([QUOTE] + x), Escape(t) + ([QUOTE] + y));
    EscapeUnique(s, t, x, y);
  }

  lemma DigitsLength(n: nat)
    ensures |Digits(n)| > 1 <==> n >= 10
  {}

  lemma {:induction false} DigitsInjective(m: nat, n: nat)
    requires Digits(m) == Digits(n)
    ensures m == n
  {
    DigitsLength(m);
    DigitsLength(n);
    if m < 10 {
    } else {
      var a, b := Digits(m), Digits(n);
      assert a[..|a| - 1] == Digits(m / 10) && b[..|b| - 1] == Digits(n / 10);
      DigitsInjective(m / 10, n / 10);
    }
  }

  lemma DigitRun(a: Text, b: Text, x: Text, y: Text)
    requires a + x == b + y && Stop(x) && Stop(y)
    requires (forall k :: 0 <= k < |a| ==> IsDigit(a[k])) && forall k :: 0 <= k < |b| ==> IsDigit(b[k])
    ensures a == b && x == y
  {
    var t := a + x;
    assert t == b + y;
    assert (forall k :: 0 <= k < |a| ==> IsDigit(t[k])) && (|a| < |t| ==> t[|a|] == x[0]);
    assert (forall k :: 0 <= k < |b| ==> IsDigit(t[k])) && (|b| < |t| ==> t[|b|] == y[0]);
    SplitAt(a, b, x, y);
  }

  lemma DecimalHead(n: int, x: Text)
    ensures (Decimal(n) + x)[0] == MINUS <==> n < 0
    ensures n < 0 ==> Decimal(n) + x == [MINUS] + (Digits(-n) + x)
  {
    if n < 0 {
      Assoc([MINUS], Digits(-n), x);
    } else {
      First(Digits(n), x);
    }
  }

  lemma DecimalUnique(m: int, n: int, x: Text, y: Text)
    requires Decimal(m) + x == Decimal(n) + y && Stop(x) && Stop(y)
    ensures m == n && x == y
  {
    hide Digits;
    var a, b := if m < 0 then -m else m, if n < 0 then -n else n;
    DecimalHead(m, x);
    DecimalHead(n, y);
    if m < 0 {
      SplitAt([MINUS], [MINUS], Digits(a) + x, Digits(b) + y);
    }
    DigitRun(Digits(a), Digits(b), x, y);
    DigitsInjective(a, b);
  }

  /** What a value's text can start with, by kind. */
  lemma Heads(v: Value)
    ensures var t := Canonical(v);
            && t != [] && !Stop(t)
            && (t[0] == QUOTE <==> v.Str?) && (t[0] == OPEN_BRACKET <==> v.Arr?) && (t[0] == OPEN_BRACE <==> v.Obj?)
            && (t[0] == NULL_TEXT[0] <==> v.Null? || v.Undefined?)
            && (t[0] == TRUE_TEXT[0] <==> v == Bool(true)) && (t[0] == FALSE_TEXT[0] <==> v == Bool(false))
  {}

  /** No value's text is a proper prefix of another's, and what follows can be told apart. */
  lemma {:induction false} PrefixFree(v: Value, w: Value, x: Text, y: Text)
    requires Canonical(v) + x == Canonical(w) + y && Stop(x) && Stop(y)
    ensures Canonical(v) == Canonical(w) && x == y
    decreases v, 1
  {
    var s, t := Canonical(v), Canonical(w);
    Heads(v);
    Heads(w);
    assert s[0] == (s + x)[0] == (t + y)[0] == t[0];
    match v {
      case Int(m) =>
        assert w.Int?;
        DecimalUnique(m, w.n, x, y);
      case Str(a) =>
        QuoteUnique(a, w.s, x, y);
      case Arr(items) =>
        ArrayPrefixFree(items, w.items, x, y);
      case Obj(entries) =>
        ObjectPrefixFree(entries, w.entries, x, y);
      case _ =>
        SplitAt(s, t, x, y);
    }
  }

  lemma {:induction false} ArrayPrefixFree(v: seq<Value>, w: seq<Value>, x: Text, y: Text)
    requires Canonical(Arr(v)) + x == Canonical(Arr(w)) + y && Stop(x) && Stop(y)
    ensures Canonical(Arr(v)) == Canonical(Arr(w)) && x == y
    decreases v, 1
  {
    hide CanonicalItems;
    var a, b := CanonicalItems(v) + ([CLOSE_BRACKET] + x), CanonicalItems(w) + ([CLOSE_BRACKET] + y);
    assert Canonical(Arr(v)) + x == [OPEN_BRACKET] + a && Canonical(Arr(w)) + y == [OPEN_BRACKET] + b;
    SplitAt([OPEN_BRACKET], [OPEN_BRACKET], a, b);
    ItemsPrefixFree(v, w, x, y);
  }

  lemma {:induction false} ObjectPrefixFree(v: seq<Entry>, w: seq<Entry>, x: Text, y: Text)
    requires Canonical(Obj(v)) + x == Canonical(Obj(w)) + y && Stop(x) && Stop(y)
    ensures Canonical(Obj(v)) == Canonical(Obj(w)) && x == y
    decreases v, 1
  {
    hide JoinParts, SortParts, Parts;
    var a, b := JoinParts(SortParts(Parts(v))) + ([CLOSE_BRACE] + x), JoinParts(SortParts(Parts(w))) + ([CLOSE_BRACE] + y);
    assert Canonical(Obj(v)) + x == [OPEN_BRACE] + a && Canonical(Obj(w)) + y == [OPEN_BRACE] + b;
    SplitAt([OPEN_BRACE], [OPEN_BRACE], a, b);
    SortedFrom(v);
    SortedFrom(w);
    PartsPrefixFree(v, SortParts(Parts(v)), w, SortParts(Parts(w)), x, y);
  }

  lemma {:induction false} ItemsPrefixFree(a: seq<Value>, b: seq<Value>, x: Text, y: Text)
    requires CanonicalItems(a) + ([CLOSE_BRACKET] + x) == CanonicalItems(b) + ([CLOSE_BRACKET] + y)
    ensures x == y && |a| == |b| && forall k :: 0 <= k < |a| ==> Canonical(a[k]) == Canonical(b[k])
    ensures CanonicalItems(a) == CanonicalItems(b)
    decreases a, 0
  {
    ItemsSteps(a, x);
    ItemsSteps(b, y);
    if a != [] && b != [] {
      PrefixFree(a[0], b[0], ItemsTail(a, x), ItemsTail(b, y));
      if |a| > 1 {
        SplitAt([COMMA], [COMMA], CanonicalItems(a[1..]) + ([CLOSE_BRACKET] + x), CanonicalItems(b[1..]) + ([CLOSE_BRACKET] + y));
        ItemsPrefixFree(a[1..], b[1..], x, y);
        assert forall k :: 0 < k < |a| ==> a[k] == a[1..][k - 1] && b[k] == b[1..][k - 1];
      } else {
        SplitAt([CLOSE_BRACKET], [CLOSE_BRACKET], x, y);
      }
    } else {
      SplitAt([CLOSE_BRACKET], [CLOSE_BRACKET], x, y);
    }
  }

  function ItemsTail(a: seq<Value>, x: Text): Text
    requires a != []
  {
    if |a| == 1 then [CLOSE_BRACKET] + x else [COMMA] + (CanonicalItems(a[1..]) + ([CLOSE_BRACKET] + x))
  }

  lemma ItemsSteps(a: seq<Value>, x: Text)
    ensures var t := CanonicalItems(a) + ([CLOSE_BRACKET] + x);
            && (a == [] ==> t == [CLOSE_BRACKET] + x)
            && (a != [] ==> t == Canonical(a[0]) + ItemsTail(a, x) && t[0] != CLOSE_BRACKET && Stop(ItemsTail(a, x)))
            && (a != [] ==> (ItemsTail(a, x)[0] == COMMA <==> |a| > 1))
  {
    var close := [CLOSE_BRACKET] + x;
    if a != [] {
      Heads(a[0]);
      hide Canonical;
      First(Canonical(a[0]), ItemsTail(a, x));
      if |a| > 1 {
        Assoc(Canonical(a[0]), [COMMA], CanonicalItems(a[1..]));
        Assoc(Canonical(a[0]), [COMMA] + CanonicalItems(a[1..]), close);
        Assoc([COMMA], CanonicalItems(a[1..]), close);
      }
    } else {
      assert [] + close == close;
    }
  }

  /** Every part carries the text of some property. */
  ghost predicate PartsOf(s: seq<Part>, entries: seq<Entry>) {
    forall p :: p in s ==> exists e :: e in entries && PartIs(p, e)
  }

  ghost predicate PartIs(p: Part, e: Entry) {
    !e.value.Undefined? && p == Part(e.key, Canonical(e.value))
  }

  lemma {:induction false} PartsAreEntries(entries: seq<Entry>)
    ensures PartsOf(Parts(entries), entries)
    ensures forall e :: e in entries && !e.value.Undefined? ==> Part(e.key, Canonical(e.value)) in Parts(entries)
  {
    if entries == [] {
    } else {
      PartsAreEntries(entries[1..]);
      assert entries == [entries[0]] + entries[1..];
      forall p | p in Parts(entries) ensures exists e :: e in entries && PartIs(p, e) {
        if p in Parts(entries[1..]) {
          var e :| e in entries[1..] && PartIs(p, e);
          assert e in entries;
        } else {
          assert PartIs(p, entries[0]);
        }
      }
    }
  }

  lemma {:induction false} InsertKeeps(p: Part, s: seq<Part>)
    ensures multiset(InsertPart(p, s)) == multiset(s) + multiset{p}
  {
    if s == [] {
    } else {
      InsertKeeps(p, s[1..]);
      assert s == [s[0]] + s[1..];
    }
  }

  lemma {:induction false} SortKeeps(s: seq<Part>)
    ensures multiset(SortParts(s)) == multiset(s)
  {
    if s == [] {
    } else {
      SortKeeps(s[1..]);
      InsertKeeps(s[0], SortParts(s[1..]));
      assert s == [s[0]] + s[1..];
    }
  }

  lemma SortedFrom(entries: seq<Entry>)
    ensures PartsOf(SortParts(Parts(entries)), entries)
  {
    PartsAreEntries(entries);
    SortKeeps(Parts(entries));
    SameMembers(SortParts(Parts(entries)), Parts(entries));
  }

  function PartsTail(s: seq<Part>, x: Text): Text
    requires s != []
  {
    if |s| == 1 then [CLOSE_BRACE] + x else [COMMA] + (JoinParts(s[1..]) + ([CLOSE_BRACE] + x))
  }

  lemma PartsSteps(s: seq<Part>, x: Text)
    ensures var t := JoinParts(s) + ([CLOSE_BRACE] + x);
            && (s == [] ==> t == [CLOSE_BRACE] + x)
            && (s != [] ==> t == Quote(s[0].key) + ([COLON] + (s[0].text + PartsTail(s, x))) && t[0] == QUOTE && Stop(PartsTail(s, x)))
            && (s != [] ==> (PartsTail(s, x)[0] == COMMA <==> |s| > 1))
  {
    var close := [CLOSE_BRACE] + x;
    if s != [] {
      var k, v, tail := Quote(s[0].key), s[0].text, PartsTail(s, x);
      First(k, [COLON] + (v + tail));
      PartJoined(s, x);
    } else {
      assert [] + close == close;
    }
  }

  lemma PartJoined(s: seq<Part>, x: Text)
    requires s != []
    ensures JoinParts(s) + ([CLOSE_BRACE] + x) == Quote(s[0].key) + ([COLON] + (s[0].text + PartsTail(s, x)))
  {
    hide Quote;
    var k, v, tail, close := Quote(s[0].key), s[0].text, PartsTail(s, x), [CLOSE_BRACE] + x;
    if |s| > 1 {
      var rest := JoinParts(s[1..]);
      Assoc(PartText(s[0]), [COMMA], rest);
      Assoc(PartText(s[0]), [COMMA] + rest, close);
      Assoc([COMMA], rest, close);
    }
    Assoc(k + [COLON], v, tail);
    Assoc(k, [COLON], v + tail);
  }

  lemma PartsOfTail(s: seq<Part>, entries: seq<Entry>)
    requires PartsOf(s, entries) && s != []
    ensures PartsOf(s[1..], entries)
  {
    hide PartIs;
    assert forall p :: p in s[1..] ==> p in s;
  }

  lemma {:induction false} FirstPartUnique(e: seq<Entry>, p: Part, f: seq<Entry>, q: Part, x: Text, y: Text)
    requires (exists d :: d in e && PartIs(p, d)) && (exists g :: g in f && PartIs(q, g))
    requires Quote(p.key) + ([COLON] + (p.text + x)) == Quote(q.key) + ([COLON] + (q.text + y))
    requires Stop(x) && Stop(y)
    ensures p == q && x == y
    decreases e, 0
  {
    hide Quote, Canonical;
    QuoteUnique(p.key, q.key, [COLON] + (p.text + x), [COLON] + (q.text + y));
    SplitAt([COLON], [COLON], p.text + x, q.text + y);
    var d :| d in e && PartIs(p, d);
    var g :| g in f && PartIs(q, g);
    PrefixFree(d.value, g.value, x, y);
  }

  lemma {:induction false} PartsPrefixFree(e: seq<Entry>, a: seq<Part>, f: seq<Entry>, b: seq<Part>, x: Text, y: Text)
    requires PartsOf(a, e) && PartsOf(b, f)
    requires JoinParts(a) + ([CLOSE_BRACE] + x) == JoinParts(b) + ([CLOSE_BRACE] + y)
    ensures a == b && x == y
    decreases e, 1, |a|
  {
    hide Quote, Canonical, JoinParts, PartIs;
    PartsSteps(a, x);
    PartsSteps(b, y);
    if a != [] && b != [] {
      assert a[0] in a && b[0] in b;
      FirstPartUnique(e, a[0], f, b[0], PartsTail(a, x), PartsTail(b, y));
      if |a| > 1 {
        SplitAt([COMMA], [COMMA], JoinParts(a[1..]) + ([CLOSE_BRACE] + x), JoinParts(b[1..]) + ([CLOSE_BRACE] + y));
        PartsOfTail(a, e);
        PartsOfTail(b, f);
        PartsPrefixFree(e, a[1..], f, b[1..], x, y);
        assert a == [a[0]] + a[1..] && b == [b[0]] + b[1..];
      } else {
        SplitAt([CLOSE_BRACE], [CLOSE_BRACE], x, y);
      }
    } else {
      SplitAt([CLOSE_BRACE], [CLOSE_BRACE], x, y);
    }
  }

  // ----- equal texts mean equal values -----

  /** Equal up to the order of properties, with a property set to undefined counting as absent;
      anywhere else undefined is written, and so counts, as null. */
  ghost predicate Same(v: Value, w: Value)
    decreases v
  {
    match v
    case Undefined => w.Undefined? || w.Null?
    case Null => w.Undefined? || w.Null?
    case Bool(b) => w == Bool(b)
    case Int(n) => w == Int(n)
    case Str(s) => w == Str(s)
    case Arr(items) =>
      w.Arr? && |items| == |w.items| && forall k :: 0 <= k < |items| ==> Same(items[k], w.items[k])
    case Obj(entries) =>
      w.Obj?
      && (forall e :: e in entries && !e.value.Undefined? ==> exists f :: f in w.entries && Matches(e, f))
      && (forall f :: f in w.entries && !f.value.Undefined? ==> exists e :: e in entries && Matches(e, f))
  }

  ghost predicate Matches(e: Entry, f: Entry)
    decreases e
  {
    !e.value.Undefined? && !f.value.Undefined? && e.key == f.key && Same(e.value, f.value)
  }

  lemma {:induction false} EqualTextMeansSame(v: Value, w: Value)
    requires Canonical(v) == Canonical(w)
    ensures Same(v, w)
    decreases v
  {
    Heads(v);
    Heads(w);
    match v {
      case Int(m) =>
        assert w.Int?;
        DecimalUnique(m, w.n, [], []);
      case Str(a) =>
        QuoteUnique(a, w.s, [], []);
      case Arr(items) =>
        ArrayTexts(items, w.items);
        forall k | 0 <= k < |items| ensures Same(items[k], w.items[k]) {
          EqualTextMeansSame(items[k], w.items[k]);
        }
      case Obj(entries) =>
        ObjectTexts(entries, w.entries);
        forall e | e in entries && !e.value.Undefined? ensures exists f :: f in w.entries && Matches(e, f) {
          var f := Counterpart(e, entries, w.entries);
          EqualTextMeansSame(e.value, f.value);
          assert Matches(e, f);
        }
        forall f | f in w.entries && !f.value.Undefined? ensures exists e :: e in entries && Matches(e, f) {
          var e := Counterpart(f, w.entries, entries);
          EqualTextMeansSame(e.value, f.value);
          assert Matches(e, f);
        }
      case _ =>
    }
  }

  lemma ArrayTexts(a: seq<Value>, b: seq<Value>)
    requires Canonical(Arr(a)) == Canonical(Arr(b))
    ensures |a| == |b| && forall k :: 0 <= k < |a| ==> Canonical(a[k]) == Canonical(b[k])
  {
    var x, y := CanonicalItems(a) + [CLOSE_BRACKET], CanonicalItems(b) + [CLOSE_BRACKET];
    Assoc([OPEN_BRACKET], CanonicalItems(a), [CLOSE_BRACKET]);
    Assoc([OPEN_BRACKET], CanonicalItems(b), [CLOSE_BRACKET]);
    SplitAt([OPEN_BRACKET], [OPEN_BRACKET], x, y);
    assert [CLOSE_BRACKET] + [] == [CLOSE_BRACKET];
    ItemsPrefixFree(a, b, [], []);
  }

  lemma ObjectTexts(e: seq<Entry>, f: seq<Entry>)
    requires Canonical(Obj(e)) == Canonical(Obj(f))
    ensures SortParts(Parts(e)) == SortParts(Parts(f))
  {
    var a, b := SortParts(Parts(e)), SortParts(Parts(f));
    var x, y := JoinParts(a) + [CLOSE_BRACE], JoinParts(b) + [CLOSE_BRACE];
    Assoc([OPEN_BRACE], JoinParts(a), [CLOSE_BRACE]);
    Assoc([OPEN_BRACE], JoinParts(b), [CLOSE_BRACE]);
    SplitAt([OPEN_BRACE], [OPEN_BRACE], x, y);
    assert [CLOSE_BRACE] + [] == [CLOSE_BRACE];
    SortedFrom(e);
    SortedFrom(f);
    PartsPrefixFree(e, a, f, b, [], []);
  }

  lemma Counterpart(e: Entry, entries: seq<Entry>, others: seq<Entry>) returns (f: Entry)
    requires e in entries && !e.value.Undefined? && SortParts(Parts(entries)) == SortParts(Parts(others))
    ensures f in others && !f.value.Undefined? && f.key == e.key && Canonical(f.value) == Canonical(e.value)
  {
    hide Canonical, Parts, SortParts;
    PartsAreEntries(entries);
    PartsAreEntries(others);
    SortKeeps(Parts(entries));
    SortKeeps(Parts(others));
    SameMembers(Parts(entries), Parts(others));
    var p := Part(e.key, Canonical(e.value));
    assert p in Parts(others);
    f :| f in others && PartIs(p, f);
  }

  // ----- and equal values have equal texts -----

  /** An object has one value for each of its keys. */
  ghost predicate WellFormed(v: Value)
    decreases v
  {
    match v
    case Arr(items) => forall k :: 0 <= k < |items| ==> WellFormed(items[k])
    case Obj(entries) => DistinctKeys(entries) && forall e :: e in entries ==> EntryWellFormed(e)
    case _ => true
  }

  ghost predicate EntryWellFormed(e: Entry)
    decreases e
  {
    WellFormed(e.value)
  }

  ghost predicate DistinctKeys(entries: seq<Entry>) {
    forall i, j :: 0 <= i < j < |entries| ==> entries[i].key != entries[j].key
  }

  ghost predicate Ordered(s: seq<Part>) {
    forall i, j :: 0 <= i < j < |s| ==> Less(s[i].key, s[j].key)
  }

  lemma {:induction false} InsertOrdered(p: Part, s: seq<Part>)
    requires Ordered(s) && forall q :: q in s ==> q.key != p.key
    ensures Ordered(InsertPart(p, s))
  {
    hide Less;
    if s == [] {
    } else {
      LessTotal(s[0].key, p.key);
      var r := InsertPart(p, s);
      if Less(s[0].key, p.key) {
        InsertOrdered(p, s[1..]);
        InsertKeeps(p, s[1..]);
        SameMembers(r[1..], s[1..] + [p]);
        forall j | 1 <= j < |r| ensures Less(r[0].key, r[j].key) {
          assert r[j] in r[1..];
          var q :| q in s[1..] + [p] && q == r[j];
          if q in s[1..] {
            var k :| 0 <= k < |s[1..]| && s[1..][k] == q;
            assert Less(s[0].key, s[k + 1].key);
          }
        }
      } else {
        forall j | 1 <= j < |r| ensures Less(r[0].key, r[j].key) {
          if j > 1 {
            LessTransitive(p.key, s[0].key, s[j - 1].key);
          }
        }
      }
    }
  }

  ghost predicate DistinctParts(s: seq<Part>) {
    forall i, j :: 0 <= i < j < |s| ==> s[i].key != s[j].key
  }

  lemma {:induction false} SortOrdered(s: seq<Part>)
    requires DistinctParts(s)
    ensures Ordered(SortParts(s))
  {
    if s == [] {
    } else {
      SortOrdered(s[1..]);
      SortKeeps(s[1..]);
      SameMembers(SortParts(s[1..]), s[1..]);
      InsertOrdered(s[0], SortParts(s[1..]));
    }
  }

  /** Two strictly ordered lists of the same parts are the same list. */
  lemma {:induction false} OrderedUnique(a: seq<Part>, b: seq<Part>)
    requires Ordered(a) && Ordered(b) && forall p :: p in a <==> p in b
    ensures a == b
  {
    assert (a != [] ==> a[0] in a) && (b != [] ==> b[0] in b);
    if a == [] || b == [] {
    } else {
      var i :| 0 <= i < |b| && b[i] == a[0];
      var j :| 0 <= j < |a| && a[j] == b[0];
      LessTotal(a[0].key, b[0].key);
      assert a[0] == b[0];
      forall p ensures p in a[1..] <==> p in b[1..] {
        TailMembers(a, p);
        TailMembers(b, p);
      }
      OrderedUnique(a[1..], b[1..]);
      assert a == [a[0]] + a[1..] && b == [b[0]] + b[1..];
    }
  }

  lemma TailMembers(s: seq<Part>, p: Part)
    requires Ordered(s) && s != []
    ensures p in s[1..] <==> p in s && p != s[0]
  {
    LessTotal(s[0].key, s[0].key);
    assert s == [s[0]] + s[1..];
  }

  lemma {:induction false} PartsDistinct(entries: seq<Entry>)
    requires DistinctKeys(entries)
    ensures DistinctParts(Parts(entries))
  {
    hide Canonical;
    if entries == [] {
    } else {
      PartsDistinct(entries[1..]);
      PartsAreEntries(entries[1..]);
      forall p | p in Parts(entries[1..]) ensures p.key != entries[0].key {
        var e :| e in entries[1..] && PartIs(p, e);
        var k :| 0 <= k < |entries[1..]| && entries[1..][k] == e;
        assert entries[k + 1] == e;
      }
    }
  }

  lemma {:induction false} SameMeansEqualText(v: Value, w: Value)
    requires WellFormed(v) && WellFormed(w) && Same(v, w)
    ensures Canonical(v) == Canonical(w)
    decreases v
  {
    match v {
      case Arr(items) =>
        forall k | 0 <= k < |items| ensures Canonical(items[k]) == Canonical(w.items[k]) {
          SameMeansEqualText(items[k], w.items[k]);
        }
        EqualItems(items, w.items);
      case Obj(entries) =>
        forall e | e in entries && !e.value.Undefined? ensures exists f :: f in w.entries && Link(e, f) {
          var f :| f in w.entries && Matches(e, f);
          assert EntryWellFormed(e) && EntryWellFormed(f);
          SameMeansEqualText(e.value, f.value);
          assert Link(e, f);
        }
        forall f | f in w.entries && !f.value.Undefined? ensures exists e :: e in entries && Link(f, e) {
          var e :| e in entries && Matches(e, f);
          assert EntryWellFormed(e) && EntryWellFormed(f);
          SameMeansEqualText(e.value, f.value);
          assert Link(f, e);
        }
        LinkedObjects(entries, w.entries);
      case _ =>
    }
  }

  lemma LinkedObjects(e: seq<Entry>, f: seq<Entry>)
    requires Linked(e, f) && Linked(f, e) && DistinctKeys(e) && DistinctKeys(f)
    ensures SortParts(Parts(e)) == SortParts(Parts(f))
  {
    hide Canonical, Parts, SortParts, Linked, Ordered, DistinctKeys, DistinctParts;
    var a, b := Parts(e), Parts(f);
    forall p ensures p in a <==> p in b {
      if p in a { LinkedParts(e, f, p); }
      if p in b { LinkedParts(f, e, p); }
    }
    PartsDistinct(e);
    PartsDistinct(f);
    SortOrdered(a);
    SortOrdered(b);
    SortKeeps(a);
    SortKeeps(b);
    SameMembers(SortParts(a), a);
    SameMembers(SortParts(b), b);
    OrderedUnique(SortParts(a), SortParts(b));
  }

  lemma {:induction false} EqualItems(a: seq<Value>, b: seq<Value>)
    requires |a| == |b| && forall k :: 0 <= k < |a| ==> Canonical(a[k]) == Canonical(b[k])
    ensures CanonicalItems(a) == CanonicalItems(b)
  {
    hide Canonical;
    if |a| <= 1 {
    } else {
      EqualItems(a[1..], b[1..]);
    }
  }

  ghost predicate Link(e: Entry, f: Entry) {
    !f.value.Undefined? && e.key == f.key && Canonical(e.value) == Canonical(f.value)
  }

  /** Every property that is written has a counterpart with the same text. */
  ghost predicate Linked(entries: seq<Entry>, others: seq<Entry>) {
    forall e :: e in entries && !e.value.Undefined? ==> exists f :: f in others && Link(e, f)
  }

  lemma LinkedParts(entries: seq<Entry>, others: seq<Entry>, p: Part)
    requires Linked(entries, others) && p in Parts(entries)
    ensures p in Parts(others)
  {
    hide Canonical, Parts;
    PartsAreEntries(entries);
    var e :| e in entries && PartIs(p, e);
    var f :| f in others && Link(e, f);
    PartsAreEntries(others);
  }

  /** Two values have the same canonical text exactly when they are the same up to the order of
      object keys and properties set to undefined. */
  lemma CanonicalDecides(v: Value, w: Value)
    requires WellFormed(v) && WellFormed(w)
    ensures Canonical(v) == Canonical(w) <==> Same(v, w)
  {
    if Canonical(v) == Canonical(w) {
      EqualTextMeansSame(v, w);
    } else if Same(v, w) {
      SameMeansEqualText(v, w);
    }
  }

  // ----- the fingerprint of a render -----

  /** A document and its bindings are objects; the template is absent for an uploaded poster;
      the fonts are listed in any order. */
  datatype Source = Source(document: seq<Entry>, template: Template, bindings: seq<Entry>, fonts: seq<Text>)

  datatype Template = NoTemplate | TemplateVersion(id: Text)

  function InsertText(t: Text, s: seq<Text>): seq<Text> {
    if s == [] || !Less(s[0], t) then [t] + s else [s[0]] + InsertText(t, s[1..])
  }

  /** `[...fontHashes].sort()` */
  function SortTexts(s: seq<Text>): seq<Text> {
    if s == [] then [] else InsertText(s[0], SortTexts(s[1..]))
  }

  function Strings(s: seq<Text>): (r: seq<Value>)
    ensures |r| == |s| && forall k :: 0 <= k < |r| ==> r[k] == Str(s[k])
  {
    seq(|s|, k requires 0 <= k < |s| => Str(s[k]))
  }

  function Ascii(s: string): (t: Text)
    requires forall c :: c in s ==> c < 128 as char
    ensures |t| == |s|
  {
    seq(|s|, k requires 0 <= k < |s| => (assert s[k] in s; s[k] as int as CodeUnit))
  }

  function Fields(source: Source): (r: seq<Entry>)
    ensures |r| == 5
  {
    [Entry(Ascii("v"), Int(1)),
     Entry(Ascii("templateVersionId"), match source.template case NoTemplate => Null case TemplateVersion(id) => Str(id)),
     Entry(Ascii("document"), Obj(source.document)),
     Entry(Ascii("bindings"), Obj(source.bindings)),
     Entry(Ascii("fonts"), Arr(Strings(SortTexts(source.fonts))))]
  }

  function FingerprintSource(source: Source): Text {
    Canonical(Obj(Fields(source)))
  }

  ghost predicate Ascending(s: seq<Text>) {
    forall i, j :: 0 <= i < j < |s| ==> !Less(s[j], s[i])
  }

  lemma NotLessTransitive(a: Text, b: Text, c: Text)
    requires !Less(b, a) && !Less(c, b)
    ensures !Less(c, a)
  {
    LessTotal(a, b);
    LessTotal(b, c);
    LessTotal(a, c);
    if Less(c, a) && b != c {
      LessTransitive(b, c, a);
    }
  }

  lemma {:induction false} InsertTextKeeps(t: Text, s: seq<Text>)
    ensures multiset(InsertText(t, s)) == multiset(s) + multiset{t}
  {
    hide Less;
    if s == [] {
    } else {
      InsertTextKeeps(t, s[1..]);
      assert s == [s[0]] + s[1..];
    }
  }

  lemma {:induction false} InsertTextAscending(t: Text, s: seq<Text>)
    requires Ascending(s)
    ensures Ascending(InsertText(t, s))
  {
    hide Less;
    if s == [] {
    } else {
      var r := InsertText(t, s);
      InsertTextAscending(t, s[1..]);
      InsertTextKeeps(t, s[1..]);
      LessTotal(s[0], t);
      if Less(s[0], t) {
        forall j | 1 <= j < |r| ensures !Less(r[j], r[0]) {
          assert r[j] in multiset(r[1..]);
          if r[j] != t {
            var k :| 0 <= k < |s[1..]| && s[1..][k] == r[j];
            assert !Less(s[k + 1], s[0]);
          }
        }
      } else {
        forall j | 2 <= j < |r| ensures !Less(r[j], r[0]) {
          NotLessTransitive(t, s[0], s[j - 1]);
        }
      }
    }
  }

  lemma {:induction false} SortTextsAscending(s: seq<Text>)
    ensures Ascending(SortTexts(s)) && multiset(SortTexts(s)) == multiset(s)
  {
    if s == [] {
    } else {
      SortTextsAscending(s[1..]);
      InsertTextAscending(s[0], SortTexts(s[1..]));
      InsertTextKeeps(s[0], SortTexts(s[1..]));
      assert s == [s[0]] + s[1..];
    }
  }

  lemma AscendingHead(a: seq<Text>, b: seq<Text>)
    requires Ascending(a) && Ascending(b) && a != [] && b != [] && forall t :: t in a <==> t in b
    ensures a[0] == b[0]
  {
    hide Less;
    assert a[0] in a && b[0] in b;
    var i :| 0 <= i < |b| && b[i] == a[0];
    var j :| 0 <= j < |a| && a[j] == b[0];
    LessTotal(a[0], b[0]);
  }

  lemma {:induction false} AscendingUnique(a: seq<Text>, b: seq<Text>)
    requires Ascending(a) && Ascending(b) && multiset(a) == multiset(b)
    ensures a == b
  {
    hide Less;
    assert |a| == |multiset(a)| && |b| == |multiset(b)|;
    if a == [] {
    } else {
      SameMembers(a, b);
      AscendingHead(a, b);
      SameTail(a, b);
      AscendingUnique(a[1..], b[1..]);
      assert a == [a[0]] + a[1..] && b == [b[0]] + b[1..];
    }
  }

  /** Sorting forgets the order of the fonts and nothing else. */
  lemma SortTextsDecides(a: seq<Text>, b: seq<Text>)
    ensures SortTexts(a) == SortTexts(b) <==> multiset(a) == multiset(b)
  {
    SortTextsAscending(a);
    SortTextsAscending(b);
    if multiset(a) == multiset(b) {
      AscendingUnique(SortTexts(a), SortTexts(b));
    }
  }

  lemma StringsSame(a: seq<Text>, b: seq<Text>)
    ensures Same(Arr(Strings(a)), Arr(Strings(b))) <==> a == b
  {
    if Same(Arr(Strings(a)), Arr(Strings(b))) {
      forall k | 0 <= k < |a| ensures a[k] == b[k] {
        assert Same(Strings(a)[k], Strings(b)[k]);
      }
    }
  }

  lemma FieldKeys(source: Source)
    ensures DistinctKeys(Fields(source)) && forall k :: 0 <= k < 5 ==> !Fields(source)[k].value.Undefined?
  {
    assert Ascii("document")[0] == 100 && Ascii("bindings")[0] == 98;
  }

  ghost predicate Aligned(e: seq<Entry>, f: seq<Entry>) {
    && |e| == |f| && DistinctKeys(e)
    && forall k :: 0 <= k < |e| ==> e[k].key == f[k].key && !e[k].value.Undefined? && !f[k].value.Undefined?
  }

  lemma HasMatch(e: seq<Entry>, f: seq<Entry>, d: Entry)
    requires Same(Obj(e), Obj(f)) && d in e && !d.value.Undefined?
    ensures exists g :: g in f && Matches(d, g)
  {}

  /** Objects with the same distinct keys, none undefined, are the same field by field. */
  lemma SameFields(e: seq<Entry>, f: seq<Entry>, k: nat)
    requires Aligned(e, f) && Same(Obj(e), Obj(f)) && k < |e|
    ensures Same(e[k].value, f[k].value)
  {
    hide Same;
    HasMatch(e, f, e[k]);
    var g :| g in f && Matches(e[k], g);
    var j :| 0 <= j < |f| && f[j] == g;
    assert e[j].key == f[j].key == e[k].key;
    assert j == k;
  }

  lemma FieldsSame(e: seq<Entry>, f: seq<Entry>)
    requires Aligned(e, f) && forall k :: 0 <= k < |e| ==> Same(e[k].value, f[k].value)
    ensures Same(Obj(e), Obj(f))
  {
    forall d | d in e ensures exists g :: g in f && Matches(d, g) {
      var k :| 0 <= k < |e| && e[k] == d;
      assert f[k] in f && Matches(d, f[k]);
    }
    forall g | g in f ensures exists d :: d in e && Matches(d, g) {
      var k :| 0 <= k < |f| && f[k] == g;
      assert e[k] in e && Matches(e[k], g);
    }
  }

  ghost predicate GoodSource(source: Source) {
    WellFormed(Obj(source.document)) && WellFormed(Obj(source.bindings))
  }

  /** Two renders share a fingerprint exactly when they have the same template version, the same
      document, the same bindings and the same fonts, each as often. */
  lemma FingerprintDecides(a: Source, b: Source)
    requires GoodSource(a) && GoodSource(b)
    ensures FingerprintSource(a) == FingerprintSource(b) <==>
            && a.template == b.template
            && Same(Obj(a.document), Obj(b.document))
            && Same(Obj(a.bindings), Obj(b.bindings))
            && multiset(a.fonts) == multiset(b.fonts)
  {
    hide Same, Canonical, WellFormed, Fields, Aligned;
    SourceWellFormed(a);
    SourceWellFormed(b);
    CanonicalDecides(Obj(Fields(a)), Obj(Fields(b)));
    FieldsAligned(a, b);
    FieldValues(a, b);
    if Same(Obj(Fields(a)), Obj(Fields(b))) {
      SameFields(Fields(a), Fields(b), 1);
      SameFields(Fields(a), Fields(b), 2);
      SameFields(Fields(a), Fields(b), 3);
      SameFields(Fields(a), Fields(b), 4);
    }
    if forall k :: 0 <= k < 5 ==> Same(Fields(a)[k].value, Fields(b)[k].value) {
      FieldsSame(Fields(a), Fields(b));
    }
  }

  lemma FieldsAligned(a: Source, b: Source)
    ensures Aligned(Fields(a), Fields(b))
  {
    FieldKeys(a);
    FieldKeys(b);
  }

  lemma FieldValues(a: Source, b: Source)
    ensures Same(Fields(a)[0].value, Fields(b)[0].value)
    ensures Same(Fields(a)[1].value, Fields(b)[1].value) <==> a.template == b.template
    ensures Same(Fields(a)[2].value, Fields(b)[2].value) <==> Same(Obj(a.document), Obj(b.document))
    ensures Same(Fields(a)[3].value, Fields(b)[3].value) <==> Same(Obj(a.bindings), Obj(b.bindings))
    ensures Same(Fields(a)[4].value, Fields(b)[4].value) <==> multiset(a.fonts) == multiset(b.fonts)
  {
    HeaderFields(a, b);
    StringsSame(SortTexts(a.fonts), SortTexts(b.fonts));
    SortTextsDecides(a.fonts, b.fonts);
    hide Same;
  }

  lemma HeaderFields(a: Source, b: Source)
    ensures Same(Fields(a)[0].value, Fields(b)[0].value)
    ensures Same(Fields(a)[1].value, Fields(b)[1].value) <==> a.template == b.template
  {}

  lemma SourceWellFormed(source: Source)
    requires GoodSource(source)
    ensures WellFormed(Obj(Fields(source)))
  {
    FieldKeys(source);
    var e := Fields(source);
    assert WellFormed(e[0].value) && WellFormed(e[1].value) && WellFormed(e[2].value) && WellFormed(e[3].value) && WellFormed(e[4].value);
    hide Fields;
    forall d | d in e ensures EntryWellFormed(d) {
      var k :| 0 <= k < 5 && e[k] == d;
    }
  }
}
