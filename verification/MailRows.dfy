/** Rows laid over a mail's flat list of blocks (packages/mail-runtime/src/layout.ts:16-69). */
module MailRows {
  import opened Lists
  import opened Outcomes

  /** A value of a parsed document, which may be anything. */
  datatype Raw = Text(s: string) | List(items: seq<Raw>) | Record(fields: map<string, Raw>) | Other

  /** A block: its id, and the rest of it, which is only carried along. */
  datatype Block = Block(id: string, content: int)

  datatype LayoutRow = Single(block: Block) | Columns(id: string, layout: string, columns: seq<seq<Block>>)

  function Field(r: Raw, name: string): Raw {
    if r.Record? && name in r.fields then r.fields[name] else Other
  }

  /** How many columns a layout has, for every name that `in` finds: the four layouts, and the
      names every object inherits, whose values are functions (or, for the prototype itself, an
      object without a length). */
  function ColumnCount(name: string): Option<int> {
    if name == "1" then Some(1)
    else if name == "1/1" || name == "1/2" then Some(2)
    else if name == "1/1/1" then Some(3)
    else if name in {"toString", "toLocaleString", "valueOf"} then Some(0)
    else if name in {"constructor", "hasOwnProperty", "isPrototypeOf", "propertyIsEnumerable"} then Some(1)
    else if name in {"__lookupGetter__", "__lookupSetter__"} then Some(1)
    else if name in {"__defineGetter__", "__defineSetter__"} then Some(2)
    else if name == "__proto__" then Some(-1)
    else None
  }

  // ----- the walk -----

  /** The last block with this id: a later entry of a Map replaces an earlier one. */
  function Lookup(blocks: seq<Block>, id: string): Option<Block> {
    if blocks == [] then None
    else if blocks[|blocks| - 1].id == id then Some(blocks[|blocks| - 1])
    else Lookup(blocks[..|blocks| - 1], id)
  }

  function Take(blocks: seq<Block>, used: set<string>, id: Raw): Option<Block> {
    if !id.Text? || id.s in used then None else Lookup(blocks, id.s)
  }

  /** The blocks taken, and every id used so far. */
  datatype Taken<T> = Taken(got: seq<T>, used: set<string>)

  function TakeAll(blocks: seq<Block>, used: set<string>, ids: seq<Raw>): Taken<Block> {
    if ids == [] then Taken([], used)
    else
      var before := TakeAll(blocks, used, ids[..|ids| - 1]);
      var block := Take(blocks, before.used, ids[|ids| - 1]);
      if block.Some? then Taken(before.got + [block.value], before.used + {block.value.id}) else before
  }

  function TakeColumns(blocks: seq<Block>, used: set<string>, columns: seq<seq<Raw>>): Taken<seq<Block>> {
    if columns == [] then Taken([], used)
    else
      var before := TakeColumns(blocks, used, columns[..|columns| - 1]);
      var column := TakeAll(blocks, before.used, columns[|columns| - 1]);
      Taken(before.got + [column.got], column.used)
  }

  function Singles(blocks: seq<Block>): (rows: seq<LayoutRow>)
    ensures |rows| == |blocks| && forall k :: 0 <= k < |rows| ==> rows[k] == Single(blocks[k])
  {
    seq(|blocks|, k requires 0 <= k < |blocks| => Single(blocks[k]))
  }

  function ItemsOf(column: Raw): seq<Raw> { if column.List? then column.items else [] }

  function ColumnsOf(raw: Raw): (columns: seq<seq<Raw>>) {
    var items := ItemsOf(Field(raw, "columns"));
    seq(|items|, k requires 0 <= k < |items| => ItemsOf(items[k]))
  }

  predicate IsRow(raw: Raw) { raw.Record? && Field(raw, "columns").List? }

  /** The row can be laid out side by side as it is written. */
  predicate SideBySide(raw: Raw) {
    var layout := Field(raw, "layout");
    layout.Text? && layout.s != "1" && ColumnCount(layout.s) == Some(|ColumnsOf(raw)|)
  }

  function TextOf(r: Raw): string { if r.Text? then r.s else "" }

  predicate AllEmpty(columns: seq<seq<Block>>) {
    forall c :: c in columns ==> c == []
  }

  function WalkRow(blocks: seq<Block>, used: set<string>, raw: Raw, keepEmpty: bool): Taken<LayoutRow> {
    if !IsRow(raw) then Taken([], used)
    else if !SideBySide(raw) then
      var t := TakeAll(blocks, used, Concat(ColumnsOf(raw)));
      Taken(Singles(t.got), t.used)
    else
      var t := TakeColumns(blocks, used, ColumnsOf(raw));
      if !keepEmpty && AllEmpty(t.got) then Taken([], t.used)
      else Taken([Columns(TextOf(Field(raw, "id")), Field(raw, "layout").s, t.got)], t.used)
  }

  function Walk(blocks: seq<Block>, raws: seq<Raw>, keepEmpty: bool): Taken<LayoutRow> {
    if raws == [] then Taken([], {})
    else
      var before := Walk(blocks, raws[..|raws| - 1], keepEmpty);
      var row := WalkRow(blocks, before.used, raws[|raws| - 1], keepEmpty);
      Taken(before.got + row.got, row.used)
  }

  function Without(blocks: seq<Block>, used: set<string>): seq<Block> {
    if blocks == [] then []
    else Without(blocks[..|blocks| - 1], used) + if blocks[|blocks| - 1].id in used then [] else [blocks[|blocks| - 1]]
  }

  function Rows(document: Raw, blocks: seq<Block>, keepEmpty: bool): Option<seq<LayoutRow>> {
    var raws := Field(document, "rows");
    if !raws.List? then None
    else
      var walk := Walk(blocks, raws.items, keepEmpty);
      Some(walk.got + Singles(Without(blocks, walk.used)))
  }

  // ----- what comes out: the named blocks in overlay order, then the rest in document order -----

  function RowBlocks(row: LayoutRow): seq<Block> {
    if row.Single? then [row.block] else Concat(row.columns)
  }

  function FlatBlocks(rows: seq<LayoutRow>): seq<Block> {
    if rows == [] then [] else FlatBlocks(rows[..|rows| - 1]) + RowBlocks(rows[|rows| - 1])
  }

  function Strings(ids: seq<Raw>): seq<string> {
    if ids == [] then [] else Strings(ids[..|ids| - 1]) + if ids[|ids| - 1].Text? then [ids[|ids| - 1].s] else []
  }

  function RowNames(raw: Raw): seq<string> { if IsRow(raw) then Strings(Concat(ColumnsOf(raw))) else [] }

  /** Every name in the overlay, in the order it is written. */
  function Names(raws: seq<Raw>): seq<string> {
    if raws == [] then []
    else Names(raws[..|raws| - 1]) + RowNames(raws[|raws| - 1])
  }

  predicate Known(blocks: seq<Block>, id: string) { Lookup(blocks, id).Some? }

  /** The block of each known name, where the name is written first. */
  function Named(blocks: seq<Block>, names: seq<string>): seq<Block> {
    if names == [] then []
    else
      var n := |names| - 1;
      Named(blocks, names[..n]) + if names[n] in names[..n] || !Known(blocks, names[n]) then [] else [Lookup(blocks, names[n]).value]
  }

  ghost function KnownNames(blocks: seq<Block>, names: seq<string>): set<string> {
    set n | n in names && Known(blocks, n)
  }

  lemma {:induction false} LookupId(blocks: seq<Block>, id: string)
    ensures Known(blocks, id) ==> Lookup(blocks, id).value.id == id && Lookup(blocks, id).value in blocks
    ensures (exists b :: b in blocks && b.id == id) ==> Known(blocks, id)
  {
    if blocks == [] {
    } else {
      LookupId(blocks[..|blocks| - 1], id);
      assert blocks == blocks[..|blocks| - 1] + [blocks[|blocks| - 1]];
    }
  }

  /** Of the blocks with an id the last one counts, as in a map that is filled in order. */
  lemma {:induction false} LookupIsLast(blocks: seq<Block>, id: string, k: nat)
    requires k < |blocks| && blocks[k].id == id && forall j :: k < j < |blocks| ==> blocks[j].id != id
    ensures Lookup(blocks, id) == Some(blocks[k])
  {
    if k == |blocks| - 1 {
    } else {
      LookupIsLast(blocks[..|blocks| - 1], id, k);
    }
  }

  lemma {:induction false} StringsConcat(a: seq<Raw>, b: seq<Raw>)
    ensures Strings(a + b) == Strings(a) + Strings(b)
  {
    if b == [] {
      assert a + b == a;
    } else {
      assert (a + b)[..|a + b| - 1] == a + b[..|b| - 1];
      StringsConcat(a, b[..|b| - 1]);
    }
  }

  lemma NamedOne(blocks: seq<Block>, names: seq<string>, id: string)
    ensures Named(blocks, names + [id]) ==
      Named(blocks, names) + (if id in names || !Known(blocks, id) then [] else [Lookup(blocks, id).value])
    ensures KnownNames(blocks, names + [id]) == KnownNames(blocks, names) + if Known(blocks, id) then {id} else {}
  {
    assert (names + [id])[..|names|] == names;
  }

  /** Taking a list of ids, after the names `before`, takes what naming them says. */
  lemma {:induction false} TakeAllNames(blocks: seq<Block>, before: seq<string>, ids: seq<Raw>)
    ensures var t := TakeAll(blocks, KnownNames(blocks, before), ids);
            && Named(blocks, before + Strings(ids)) == Named(blocks, before) + t.got
            && t.used == KnownNames(blocks, before + Strings(ids))
  {
    hide Named, Lookup;
    if ids == [] {
      assert before + Strings(ids) == before;
    } else {
      var n := |ids| - 1;
      TakeAllNames(blocks, before, ids[..n]);
      var names := before + Strings(ids[..n]);
      if ids[n].Text? {
        NamedOne(blocks, names, ids[n].s);
        LookupId(blocks, ids[n].s);
        assert before + Strings(ids) == names + [ids[n].s];
      } else {
        assert before + Strings(ids) == names;
      }
    }
  }

  lemma {:induction false} TakeColumnsIsTakeAll(blocks: seq<Block>, used: set<string>, columns: seq<seq<Raw>>)
    ensures var t := TakeColumns(blocks, used, columns);
            TakeAll(blocks, used, Concat(columns)) == Taken(Concat(t.got), t.used)
  {
    if columns == [] {
    } else {
      var n := |columns| - 1;
      TakeColumnsIsTakeAll(blocks, used, columns[..n]);
      TakeAllConcat(blocks, used, Concat(columns[..n]), columns[n]);
      assert columns == columns[..n] + [columns[n]];
      ConcatLast(columns[..n], columns[n]);
      var before := TakeColumns(blocks, used, columns[..n]);
      ConcatLast(before.got, TakeAll(blocks, before.used, columns[n]).got);
    }
  }

  lemma {:induction false} TakeAllConcat(blocks: seq<Block>, used: set<string>, a: seq<Raw>, b: seq<Raw>)
    ensures var t := TakeAll(blocks, used, a);
            var u := TakeAll(blocks, t.used, b);
            TakeAll(blocks, used, a + b) == Taken(t.got + u.got, u.used)
  {
    if b == [] {
      assert a + b == a;
    } else {
      assert (a + b)[..|a + b| - 1] == a + b[..|b| - 1];
      TakeAllConcat(blocks, used, a, b[..|b| - 1]);
    }
  }

  lemma {:induction false} FlatSingles(blocks: seq<Block>)
    ensures FlatBlocks(Singles(blocks)) == blocks
  {
    if blocks == [] {
    } else {
      FlatSingles(blocks[..|blocks| - 1]);
      assert Singles(blocks)[..|blocks| - 1] == Singles(blocks[..|blocks| - 1]);
    }
  }

  lemma {:induction false} FlatConcat(a: seq<LayoutRow>, b: seq<LayoutRow>)
    ensures FlatBlocks(a + b) == FlatBlocks(a) + FlatBlocks(b)
  {
    hide RowBlocks;
    if b == [] {
      assert a + b == a;
    } else {
      assert (a + b)[..|a + b| - 1] == a + b[..|b| - 1];
      FlatConcat(a, b[..|b| - 1]);
    }
  }

  lemma {:induction false} EmptyConcat(columns: seq<seq<Block>>)
    requires AllEmpty(columns)
    ensures Concat(columns) == []
  {
    if columns == [] {
    } else {
      var rest := columns[1..];
      assert columns[0] in columns;
      forall c | c in rest ensures c == [] {
        assert c in columns;
      }
      EmptyConcat(rest);
    }
  }

  /** One row hands over the blocks of the ids it names, dropped rows none. */
  lemma WalkRowBlocks(blocks: seq<Block>, used: set<string>, raw: Raw, keepEmpty: bool)
    requires IsRow(raw)
    ensures var t := TakeAll(blocks, used, Concat(ColumnsOf(raw)));
            var r := WalkRow(blocks, used, raw, keepEmpty);
            FlatBlocks(r.got) == t.got && r.used == t.used
  {
    SideBySideHasText(raw);
    hide TakeAll, TakeColumns, ColumnsOf, SideBySide, Field, Concat, TextOf, FlatBlocks, Singles;
    var t := TakeAll(blocks, used, Concat(ColumnsOf(raw)));
    if !SideBySide(raw) {
      FlatSingles(t.got);
    } else {
      TakeColumnsIsTakeAll(blocks, used, ColumnsOf(raw));
      var c := TakeColumns(blocks, used, ColumnsOf(raw));
      if !keepEmpty && AllEmpty(c.got) {
        EmptyConcat(c.got);
        FlatNothing();
      } else {
        FlatColumns(TextOf(Field(raw, "id")), Field(raw, "layout").s, c.got);
      }
    }
  }

  lemma SideBySideHasText(raw: Raw)
    ensures SideBySide(raw) ==> Field(raw, "layout").Text?
  {}

  lemma FlatNothing()
    ensures FlatBlocks([]) == []
  {}

  lemma FlatColumns(id: string, layout: string, columns: seq<seq<Block>>)
    ensures FlatBlocks([Columns(id, layout, columns)]) == Concat(columns)
  {
    hide Concat;
    var row := Columns(id, layout, columns);
    assert [row][..0] == [];
  }

  lemma WalkRowNames(blocks: seq<Block>, before: seq<string>, raw: Raw, keepEmpty: bool)
    ensures var r := WalkRow(blocks, KnownNames(blocks, before), raw, keepEmpty);
            && Named(blocks, before + RowNames(raw)) == Named(blocks, before) + FlatBlocks(r.got)
            && r.used == KnownNames(blocks, before + RowNames(raw))
  {
    hide TakeAll, Strings, KnownNames, Named;
    if IsRow(raw) {
      hide WalkRow, FlatBlocks;
      WalkRowBlocks(blocks, KnownNames(blocks, before), raw, keepEmpty);
      TakeAllNames(blocks, before, Concat(ColumnsOf(raw)));
    } else {
      assert before + [] == before;
      assert Named(blocks, before) + [] == Named(blocks, before);
    }
  }

  lemma {:induction false} WalkNames(blocks: seq<Block>, raws: seq<Raw>, keepEmpty: bool)
    ensures var w := Walk(blocks, raws, keepEmpty);
            FlatBlocks(w.got) == Named(blocks, Names(raws)) && w.used == KnownNames(blocks, Names(raws))
  {
    if raws == [] {
      assert KnownNames(blocks, []) == {};
    } else {
      hide WalkRow, FlatBlocks, Strings, KnownNames, Named, IsRow, ColumnsOf;
      var n := |raws| - 1;
      var before := Walk(blocks, raws[..n], keepEmpty);
      WalkNames(blocks, raws[..n], keepEmpty);
      WalkRowNames(blocks, Names(raws[..n]), raws[n], keepEmpty);
      FlatConcat(before.got, WalkRow(blocks, before.used, raws[n], keepEmpty).got);
    }
  }

  /** Whatever the overlay, the rows hold first the known blocks it names, in the order it names
      them first, then every other block in document order. */
  lemma RowsFlatten(document: Raw, blocks: seq<Block>, keepEmpty: bool)
    requires Field(document, "rows").List?
    ensures var names := Names(Field(document, "rows").items);
            FlatBlocks(Rows(document, blocks, keepEmpty).value) == Named(blocks, names) + Without(blocks, KnownNames(blocks, names))
  {
    var raws := Field(document, "rows").items;
    var w := Walk(blocks, raws, keepEmpty);
    WalkNames(blocks, raws, keepEmpty);
    FlatConcat(w.got, Singles(Without(blocks, w.used)));
    FlatSingles(Without(blocks, w.used));
  }

  // ----- which rows keep their columns, and what is in each -----

  /** The layouts that have columns, and how many: the three that are offered, and by accident the functions
      every object inherits, whose length is the number of their parameters. */
  predicate Wide(layout: string, n: nat) {
    match n
    case 0 => layout in {"toString", "toLocaleString", "valueOf"}
    case 1 => layout in {"constructor", "hasOwnProperty", "isPrototypeOf", "propertyIsEnumerable", "__lookupGetter__", "__lookupSetter__"}
    case 2 => layout in {"1/1", "1/2", "__defineGetter__", "__defineSetter__"}
    case 3 => layout == "1/1/1"
    case _ => false
  }

  lemma WideIsSideBySide(raw: Raw)
    requires IsRow(raw)
    ensures SideBySide(raw) <==> Field(raw, "layout").Text? && Wide(Field(raw, "layout").s, |ColumnsOf(raw)|)
  {
    hide ColumnsOf, Field;
    var layout, n := Field(raw, "layout"), |ColumnsOf(raw)|;
    if layout.Text? {
      CountIsWidth(layout.s, n);
    }
    hide ColumnCount, Wide;
  }

  lemma CountIsWidth(layout: string, n: nat)
    ensures layout != "1" && ColumnCount(layout) == Some(n) <==> Wide(layout, n)
  {
  }

  /** Column `j` takes the known blocks that it is the first to name. */
  ghost predicate FirstNamed(blocks: seq<Block>, before: seq<string>, columns: seq<seq<Raw>>, j: nat, got: seq<Block>)
    requires j < |columns|
  {
    Named(blocks, before + Strings(Concat(columns[..j])) + Strings(columns[j]))
      == Named(blocks, before + Strings(Concat(columns[..j]))) + got
  }

  lemma FirstNamedPrefix(blocks: seq<Block>, before: seq<string>, columns: seq<seq<Raw>>, n: nat, j: nat, got: seq<Block>)
    requires j < n <= |columns| && FirstNamed(blocks, before, columns[..n], j, got)
    ensures FirstNamed(blocks, before, columns, j, got)
  {
    assert columns[..n][..j] == columns[..j] && columns[..n][j] == columns[j];
    hide Named, Strings, Concat;
  }

  lemma LastColumn(blocks: seq<Block>, before: seq<string>, columns: seq<seq<Raw>>)
    requires columns != []
    ensures var n := |columns| - 1;
      var names := before + Strings(Concat(columns[..n]));
      var t := TakeAll(blocks, KnownNames(blocks, names), columns[n]);
      && FirstNamed(blocks, before, columns, n, t.got)
      && t.used == KnownNames(blocks, before + Strings(Concat(columns)))
  {
    hide Named, KnownNames, TakeAll, Strings, Concat;
    var n := |columns| - 1;
    var names := before + Strings(Concat(columns[..n]));
    TakeAllNames(blocks, names, columns[n]);
    assert columns == columns[..n] + [columns[n]];
    ConcatLast(columns[..n], columns[n]);
    StringsConcat(Concat(columns[..n]), columns[n]);
    assert before + Strings(Concat(columns)) == names + Strings(columns[n]);
  }

  lemma TakeLastColumn(blocks: seq<Block>, used: set<string>, columns: seq<seq<Raw>>)
    requires columns != []
    ensures var n := |columns| - 1;
      var before := TakeColumns(blocks, used, columns[..n]);
      var last := TakeAll(blocks, before.used, columns[n]);
      TakeColumns(blocks, used, columns) == Taken(before.got + [last.got], last.used)
  {
    hide TakeAll;
  }

  lemma {:induction false} TakeColumnsNames(blocks: seq<Block>, before: seq<string>, columns: seq<seq<Raw>>)
    ensures var t := TakeColumns(blocks, KnownNames(blocks, before), columns);
      && |t.got| == |columns| && t.used == KnownNames(blocks, before + Strings(Concat(columns)))
      && forall j :: 0 <= j < |columns| ==> FirstNamed(blocks, before, columns, j, t.got[j])
  {
    if columns == [] {
      assert before + [] == before;
    } else {
      hide *;
      var n, used := |columns| - 1, KnownNames(blocks, before);
      TakeColumnsNames(blocks, before, columns[..n]);
      LastColumn(blocks, before, columns);
      TakeLastColumn(blocks, used, columns);
      var t, rest := TakeColumns(blocks, used, columns), TakeColumns(blocks, used, columns[..n]);
      forall j | 0 <= j < n ensures FirstNamed(blocks, before, columns, j, t.got[j]) {
        FirstNamedPrefix(blocks, before, columns, n, j, rest.got[j]);
      }
    }
  }

  lemma {:induction false} WalkGrows(blocks: seq<Block>, raws: seq<Raw>, keepEmpty: bool, n: nat)
    requires n <= |raws|
    ensures Walk(blocks, raws[..n], keepEmpty).got <= Walk(blocks, raws, keepEmpty).got
    decreases |raws|
  {
    if n == |raws| {
      assert raws[..n] == raws;
    } else {
      var last := |raws| - 1;
      WalkGrows(blocks, raws[..last], keepEmpty, n);
      assert raws[..last][..n] == raws[..n];
    }
  }

  /** The rows up to the `n`th record of the overlay. */
  function RowsBefore(blocks: seq<Block>, raws: seq<Raw>, keepEmpty: bool, n: nat): seq<LayoutRow>
    requires n <= |raws|
  {
    Walk(blocks, raws[..n], keepEmpty).got
  }

  lemma OneRecord(blocks: seq<Block>, raws: seq<Raw>, keepEmpty: bool, n: nat)
    requires n < |raws|
    ensures RowsBefore(blocks, raws, keepEmpty, n + 1) == RowsBefore(blocks, raws, keepEmpty, n)
      + WalkRow(blocks, KnownNames(blocks, Names(raws[..n])), raws[n], keepEmpty).got
    ensures RowsBefore(blocks, raws, keepEmpty, n + 1) <= Walk(blocks, raws, keepEmpty).got
  {
    hide WalkRow, KnownNames, Names, Named, FlatBlocks;
    assert raws[..n + 1][..n] == raws[..n];
    WalkNames(blocks, raws[..n], keepEmpty);
    WalkGrows(blocks, raws, keepEmpty, n + 1);
  }

  /** A record with as many lists of ids as its layout has columns is one row of that many columns, under its
      own id and layout, each with the known blocks it is the first to name; unless nothing is in any
      of them, and then it is no row, or is kept for the canvas. */
  lemma ColumnsAsWritten(document: Raw, blocks: seq<Block>, keepEmpty: bool, n: nat)
    returns (columns: seq<seq<Block>>)
    requires Field(document, "rows").List? && n < |Field(document, "rows").items|
    requires var raw := Field(document, "rows").items[n];
      IsRow(raw) && Field(raw, "layout").Text? && Wide(Field(raw, "layout").s, |ColumnsOf(raw)|)
    ensures var raws := Field(document, "rows").items;
      var raw := raws[n];
      && |columns| == |ColumnsOf(raw)|
      && (forall j :: 0 <= j < |columns| ==> FirstNamed(blocks, Names(raws[..n]), ColumnsOf(raw), j, columns[j]))
      && RowsBefore(blocks, raws, keepEmpty, n + 1) == RowsBefore(blocks, raws, keepEmpty, n)
           + (if !keepEmpty && forall c :: c in columns ==> c == [] then []
              else [Columns(if Field(raw, "id").Text? then Field(raw, "id").s else "", Field(raw, "layout").s, columns)])
      && RowsBefore(blocks, raws, keepEmpty, n + 1) <= Rows(document, blocks, keepEmpty).value
  {
    var raws := Field(document, "rows").items;
    var raw, before := raws[n], Names(raws[..n]);
    WideIsSideBySide(raw);
    columns := TakeColumns(blocks, KnownNames(blocks, before), ColumnsOf(raw)).got;
    hide TakeColumns, ColumnsOf, Names, KnownNames, RowsBefore, Walk, FirstNamed, Wide, SideBySide, IsRow;
    TakeColumnsNames(blocks, before, ColumnsOf(raw));
    OneRecord(blocks, raws, keepEmpty, n);
  }

  /** Any other record with a list of columns, of the one-column layout, of an unknown one, of none or with the
      wrong number of them, is one row for each known block that it is the first to name, in its order. */
  lemma SinglesOtherwise(document: Raw, blocks: seq<Block>, keepEmpty: bool, n: nat)
    returns (got: seq<Block>)
    requires Field(document, "rows").List? && n < |Field(document, "rows").items|
    requires var raw := Field(document, "rows").items[n];
      IsRow(raw) && (Field(raw, "layout").Text? ==> !Wide(Field(raw, "layout").s, |ColumnsOf(raw)|))
    ensures var raws := Field(document, "rows").items;
      var before, names := Names(raws[..n]), Strings(Concat(ColumnsOf(raws[n])));
      && Named(blocks, before + names) == Named(blocks, before) + got
      && RowsBefore(blocks, raws, keepEmpty, n + 1) == RowsBefore(blocks, raws, keepEmpty, n) + Singles(got)
      && RowsBefore(blocks, raws, keepEmpty, n + 1) <= Rows(document, blocks, keepEmpty).value
  {
    var raws := Field(document, "rows").items;
    var raw, before := raws[n], Names(raws[..n]);
    WideIsSideBySide(raw);
    got := TakeAll(blocks, KnownNames(blocks, before), Concat(ColumnsOf(raw))).got;
    hide TakeAll, ColumnsOf, Names, KnownNames, RowsBefore, Walk, Wide, SideBySide, IsRow, Named, Strings, Concat, Singles;
    TakeAllNames(blocks, before, Concat(ColumnsOf(raw)));
    OneRecord(blocks, raws, keepEmpty, n);
  }

  lemma WidthOfRow(blocks: seq<Block>, used: set<string>, raw: Raw, keepEmpty: bool, row: LayoutRow)
    requires row in WalkRow(blocks, used, raw, keepEmpty).got && row.Columns?
    ensures Wide(row.layout, |row.columns|)
  {
    assert SideBySide(raw);
    WideIsSideBySide(raw);
    TakeColumnsLength(blocks, used, ColumnsOf(raw));
    hide TakeColumns, ColumnsOf, Field, TakeAll, Wide, SideBySide;
  }

  lemma {:induction false} WalkWidths(blocks: seq<Block>, raws: seq<Raw>, keepEmpty: bool, row: LayoutRow)
    requires row in Walk(blocks, raws, keepEmpty).got && row.Columns?
    ensures Wide(row.layout, |row.columns|)
  {
    hide WalkRow, Wide;
    if raws == [] {
    } else {
      var n := |raws| - 1;
      var before := Walk(blocks, raws[..n], keepEmpty);
      if row in before.got {
        WalkWidths(blocks, raws[..n], keepEmpty, row);
      } else {
        WidthOfRow(blocks, before.used, raws[n], keepEmpty, row);
      }
    }
  }

  /** And so a row with columns has as many as its layout says. */
  lemma RowWidths(document: Raw, blocks: seq<Block>, keepEmpty: bool, row: LayoutRow)
    requires Field(document, "rows").List? && row in Rows(document, blocks, keepEmpty).value && row.Columns?
    ensures Wide(row.layout, |row.columns|)
  {
    var raws := Field(document, "rows").items;
    var walk := Walk(blocks, raws, keepEmpty);
    hide Walk, Without, Field, Wide;
    assert row in walk.got;
    WalkWidths(blocks, raws, keepEmpty, row);
  }

  lemma {:induction false} TakeColumnsLength(blocks: seq<Block>, used: set<string>, columns: seq<seq<Raw>>)
    ensures |TakeColumns(blocks, used, columns).got| == |columns|
  {
    if columns == [] {
    } else {
      TakeColumnsLength(blocks, used, columns[..|columns| - 1]);
    }
  }

  // ----- no block is lost, and none sent twice -----

  lemma CountAppend(s: seq<Block>, own: seq<Block>, b: Block)
    requires |own| <= 1
    ensures multiset(s + own)[b] == multiset(s)[b] + if own == [b] then 1 else 0
  {}

  lemma InPrefix(names: seq<string>, id: string)
    requires names != []
    ensures id in names <==> id in names[..|names| - 1] || id == names[|names| - 1]
  {
    assert names == names[..|names| - 1] + [names[|names| - 1]];
  }

  lemma NamedLast(blocks: seq<Block>, names: seq<string>)
    requires names != []
    ensures var n := |names| - 1;
      Named(blocks, names) == Named(blocks, names[..n])
        + if names[n] in names[..n] || !Known(blocks, names[n]) then [] else [Lookup(blocks, names[n]).value]
  {
    hide Known, Lookup;
  }

  lemma {:induction false} NamedCount(blocks: seq<Block>, names: seq<string>, b: Block)
    ensures multiset(Named(blocks, names))[b] == if b.id in names && Lookup(blocks, b.id) == Some(b) then 1 else 0
  {
    if names == [] {
    } else {
      var n := |names| - 1;
      var before := names[..n];
      NamedCount(blocks, before, b);
      LookupId(blocks, names[n]);
      NamedLast(blocks, names);
      InPrefix(names, b.id);
      hide Lookup, Named;
      var own := if names[n] in before || !Known(blocks, names[n]) then [] else [Lookup(blocks, names[n]).value];
      CountAppend(Named(blocks, before), own, b);
    }
  }

  lemma WithoutLast(before: seq<Block>, last: Block, used: set<string>)
    ensures Without(before + [last], used) == Without(before, used) + if last.id in used then [] else [last]
  {
    assert (before + [last])[..|before|] == before;
  }

  lemma {:induction false} WithoutCount(blocks: seq<Block>, used: set<string>, b: Block)
    ensures multiset(Without(blocks, used))[b] == if b.id in used then 0 else multiset(blocks)[b]
  {
    if blocks == [] {
    } else {
      var before, last := blocks[..|blocks| - 1], blocks[|blocks| - 1];
      assert blocks == before + [last];
      WithoutCount(before, used, b);
      WithoutLast(before, last, used);
      hide Without;
      CountAppend(Without(before, used), if last.id in used then [] else [last], b);
      CountAppend(before, [last], b);
    }
  }

  /** Two blocks share an id that the overlay names. */
  ghost predicate NamedTwins(blocks: seq<Block>, names: seq<string>, i: int, j: int) {
    0 <= i < j < |blocks| && blocks[i].id == blocks[j].id && blocks[i].id in names
  }

  lemma {:induction false} OnlyOne(blocks: seq<Block>, i: nat)
    requires i < |blocks| && forall j :: 0 <= j < |blocks| && j != i ==> blocks[j].id != blocks[i].id
    ensures multiset(blocks)[blocks[i]] == 1 && Lookup(blocks, blocks[i].id) == Some(blocks[i])
  {
    var n := |blocks| - 1;
    assert blocks == blocks[..n] + [blocks[n]];
    if i < n {
      OnlyOne(blocks[..n], i);
    } else {
      assert blocks[i] !in blocks[..n];
    }
  }

  lemma CountedTwice(blocks: seq<Block>, i: nat, j: nat)
    requires i < j < |blocks| && blocks[i] == blocks[j]
    ensures multiset(blocks)[blocks[i]] >= 2
  {
    assert blocks == blocks[..i] + [blocks[i]] + blocks[i + 1..j] + [blocks[j]] + blocks[j + 1..];
  }

  lemma FlatCount(blocks: seq<Block>, names: seq<string>, b: Block)
    ensures multiset(Named(blocks, names) + Without(blocks, KnownNames(blocks, names)))[b] ==
            if b.id in names then (if Lookup(blocks, b.id) == Some(b) then 1 else 0) else multiset(blocks)[b]
  {
    NamedCount(blocks, names, b);
    WithoutCount(blocks, KnownNames(blocks, names), b);
    LookupId(blocks, b.id);
    assert multiset(blocks)[b] > 0 ==> b in blocks;
  }

  lemma TwinsLoseABlock(blocks: seq<Block>, names: seq<string>, i: int, j: int)
    requires NamedTwins(blocks, names, i, j)
    ensures multiset(Named(blocks, names) + Without(blocks, KnownNames(blocks, names))) != multiset(blocks)
  {
    FlatCount(blocks, names, blocks[i]);
    FlatCount(blocks, names, blocks[j]);
    assert blocks[i] in multiset(blocks) && blocks[j] in multiset(blocks);
    if blocks[i] == blocks[j] {
      CountedTwice(blocks, i, j);
    }
  }

  lemma NoTwinsKeepAll(blocks: seq<Block>, names: seq<string>)
    requires forall i, j :: !NamedTwins(blocks, names, i, j)
    ensures multiset(Named(blocks, names) + Without(blocks, KnownNames(blocks, names))) == multiset(blocks)
  {
    var flat := Named(blocks, names) + Without(blocks, KnownNames(blocks, names));
    forall b ensures multiset(flat)[b] == multiset(blocks)[b] {
      FlatCount(blocks, names, b);
      LookupId(blocks, b.id);
      if b.id in names && b in blocks {
        var i :| 0 <= i < |blocks| && blocks[i] == b;
        forall j | 0 <= j < |blocks| && j != i ensures blocks[j].id != b.id {
          assert !NamedTwins(blocks, names, i, j) && !NamedTwins(blocks, names, j, i);
        }
        OnlyOne(blocks, i);
      }
    }
  }

  /** The rows hold exactly the document's blocks, none lost and none twice, if and only if no
      two blocks share an id that the overlay names.  In particular they do for any overlay, when
      the ids are distinct. */
  lemma RowsKeepBlocksIff(document: Raw, blocks: seq<Block>, keepEmpty: bool)
    requires Field(document, "rows").List?
    ensures var names := Names(Field(document, "rows").items);
            multiset(FlatBlocks(Rows(document, blocks, keepEmpty).value)) == multiset(blocks) <==>
            forall i, j :: !NamedTwins(blocks, names, i, j)
  {
    hide Rows, Names, Named, Without, FlatBlocks;
    var names := Names(Field(document, "rows").items);
    RowsFlatten(document, blocks, keepEmpty);
    if forall i, j :: !NamedTwins(blocks, names, i, j) {
      NoTwinsKeepAll(blocks, names);
    } else {
      var i, j :| NamedTwins(blocks, names, i, j);
      TwinsLoseABlock(blocks, names, i, j);
    }
  }

  ghost predicate DistinctIds(blocks: seq<Block>) {
    forall i, j :: 0 <= i < j < |blocks| ==> blocks[i].id != blocks[j].id
  }

  // ----- one-column rows in document order are the flat document -----

  ghost predicate OneColumn(raw: Raw, id: string) {
    Field(raw, "layout") == Text("1") && Field(raw, "columns") == List([List([Text(id)])])
  }

  lemma TakeOneColumn(blocks: seq<Block>, used: set<string>, raw: Raw, b: Block, keepEmpty: bool)
    requires OneColumn(raw, b.id) && b.id !in used && Lookup(blocks, b.id) == Some(b)
    ensures WalkRow(blocks, used, raw, keepEmpty) == Taken([Single(b)], used + {b.id})
  {
    var ids := [Text(b.id)];
    assert ColumnsOf(raw) == [ids];
    assert Concat([ids]) == ids by {
      var one := [ids];
      assert one[1..] == [];
    }
    assert ids[..0] == [];
    assert TakeAll(blocks, used, ids) == Taken([b], used + {b.id});
  }

  ghost function FirstIds(blocks: seq<Block>, n: nat): set<string>
    requires n <= |blocks|
  {
    set k | 0 <= k < n :: blocks[k].id
  }

  lemma {:induction false} OneColumnWalk(blocks: seq<Block>, raws: seq<Raw>, n: nat, keepEmpty: bool)
    requires DistinctIds(blocks) && n <= |raws| == |blocks|
    requires forall k :: 0 <= k < |raws| ==> OneColumn(raws[k], blocks[k].id)
    ensures Walk(blocks, raws[..n], keepEmpty) == Taken(Singles(blocks[..n]), FirstIds(blocks, n))
  {
    hide WalkRow, Lookup, Singles, OneColumn;
    if n == 0 {
    } else {
      OneColumnWalk(blocks, raws, n - 1, keepEmpty);
      assert raws[..n][..n - 1] == raws[..n - 1];
      OnlyOne(blocks, n - 1);
      TakeOneColumn(blocks, FirstIds(blocks, n - 1), raws[n - 1], blocks[n - 1], keepEmpty);
      assert Singles(blocks[..n]) == Singles(blocks[..n - 1]) + [Single(blocks[n - 1])];
    }
  }

  lemma {:induction false} NothingLeft(blocks: seq<Block>, used: set<string>)
    requires forall k :: 0 <= k < |blocks| ==> blocks[k].id in used
    ensures Without(blocks, used) == []
  {
    if blocks == [] {
    } else {
      NothingLeft(blocks[..|blocks| - 1], used);
    }
  }

  lemma OneColumnRowsAreFlat(document: Raw, blocks: seq<Block>, keepEmpty: bool)
    requires DistinctIds(blocks) && Field(document, "rows").List?
    requires var raws := Field(document, "rows").items;
             |raws| == |blocks| && forall k :: 0 <= k < |raws| ==> OneColumn(raws[k], blocks[k].id)
    ensures Rows(document, blocks, keepEmpty) == Some(Singles(blocks))
  {
    var raws := Field(document, "rows").items;
    OneColumnWalk(blocks, raws, |raws|, keepEmpty);
    assert raws[..|raws|] == raws && blocks[..|blocks|] == blocks;
    NothingLeft(blocks, FirstIds(blocks, |blocks|));
    assert Singles(blocks) + Singles([]) == Singles(blocks);
  }

  // ----- the source's loops -----

  /** The ids used so far, which `take` adds to. */
  class Used {
    var ids: set<string>

    constructor ()
      ensures ids == {}
    {
      ids := {};
    }

    method TakeBlock(blocks: seq<Block>, id: Raw) returns (block: Option<Block>)
      modifies this
      ensures block == Take(blocks, old(ids), id)
      ensures ids == if block.Some? then old(ids) + {block.value.id} else old(ids)
    {
      if !id.Text? || id.s in ids {
        return None;
      }
      block := Lookup(blocks, id.s);
      LookupId(blocks, id.s);
      if block.Some? {
        ids := ids + {id.s};
      }
    }

    method TakeList(blocks: seq<Block>, list: seq<Raw>) returns (got: seq<Block>)
      modifies this
      ensures Taken(got, ids) == TakeAll(blocks, old(ids), list)
    {
      got := [];
      for k := 0 to |list|
        invariant Taken(got, ids) == TakeAll(blocks, old(ids), list[..k])
      {
        assert list[..k + 1][..k] == list[..k];
        var block := TakeBlock(blocks, list[k]);
        if block.Some? {
          got := got + [block.value];
        }
      }
      assert list[..|list|] == list;
    }
  }

  lemma NothingWalked(blocks: seq<Block>, keepEmpty: bool)
    ensures Walk(blocks, [], keepEmpty) == Taken([], {}) && forall used :: Without([], used) == []
  {}

  lemma NextRow(blocks: seq<Block>, raws: seq<Raw>, n: nat, keepEmpty: bool)
    requires n < |raws|
    ensures var before := Walk(blocks, raws[..n], keepEmpty);
      var row := WalkRow(blocks, before.used, raws[n], keepEmpty);
      Walk(blocks, raws[..n + 1], keepEmpty) == Taken(before.got + row.got, row.used)
  {
    hide WalkRow;
    assert raws[..n + 1][..n] == raws[..n];
  }

  lemma NextLeft(blocks: seq<Block>, used: set<string>, k: nat)
    requires k < |blocks|
    ensures Without(blocks[..k + 1], used) == Without(blocks[..k], used) + if blocks[k].id in used then [] else [blocks[k]]
  {
    assert blocks[..k + 1][..k] == blocks[..k];
  }

  method ReadRows(document: Raw, blocks: seq<Block>, keepEmpty: bool) returns (r: Option<seq<LayoutRow>>)
    ensures r == Rows(document, blocks, keepEmpty)
  {
    hide Walk, Without, TakeAll, ColumnsOf, SideBySide, Concat;
    if !document.Record? || !Field(document, "rows").List? {
      return None;
    }
    var raws := Field(document, "rows").items;
    var used := new Used();
    var rows: seq<LayoutRow> := [];
    NothingWalked(blocks, keepEmpty);
    for n := 0 to |raws|
      invariant Taken(rows, used.ids) == Walk(blocks, raws[..n], keepEmpty)
    {
      var raw := raws[n];
      NextRow(blocks, raws, n, keepEmpty);
      SideBySideHasText(raw);
      if !IsRow(raw) { continue; }
      var columns := ColumnsOf(raw);
      if !SideBySide(raw) {
        var got := used.TakeList(blocks, Concat(columns));
        rows := rows + Singles(got);
        continue;
      }
      var resolved: seq<seq<Block>> := [];
      ghost var before := used.ids;
      for k := 0 to |columns|
        invariant Taken(resolved, used.ids) == TakeColumns(blocks, before, columns[..k])
      {
        assert columns[..k + 1][..k] == columns[..k];
        var column := used.TakeList(blocks, columns[k]);
        resolved := resolved + [column];
      }
      assert columns[..|columns|] == columns;
      if !keepEmpty && AllEmpty(resolved) { continue; }
      rows := rows + [Columns(TextOf(Field(raw, "id")), Field(raw, "layout").s, resolved)];
    }
    assert raws[..|raws|] == raws;
    ghost var walk := Taken(rows, used.ids);
    for k := 0 to |blocks|
      invariant used.ids == walk.used
      invariant rows == walk.got + Singles(Without(blocks[..k], walk.used))
    {
      NextLeft(blocks, walk.used, k);
      if blocks[k].id !in used.ids {
        rows := rows + [Single(blocks[k])];
      }
    }
    assert blocks[..|blocks|] == blocks;
    r := Some(rows);
  }
}
