/** Where everything goes in a symbol of versions 1-10: which modules the function patterns
    reserve, and the zigzag that visits the rest (packages/designer-runtime/src/qr.ts:117-118,
    188-246, 281-298). */
module SymbolLayout {
  import opened Capacity

  datatype Pos = Pos(x: int, y: int)

  function Size(version: Version): nat { 4 * version + 17 }

  predicate InGrid(size: nat, x: int, y: int) { 0 <= x < size && 0 <= y < size }

  // ----- what is reserved -----

  const ALIGNMENT: seq<seq<int>> :=
    [[], [], [6, 18], [6, 22], [6, 26], [6, 30], [6, 34], [6, 22, 38], [6, 24, 42], [6, 26, 46], [6, 28, 50]]

  /** None in version 1; from then on the first line of centres is the timing line, the last is seven from
      the far edge, and from version 7 one lies halfway between. */
  lemma AlignmentCentres(version: Version)
    ensures ALIGNMENT[version] ==
      if version == 1 then [] else if version < 7 then [6, Size(version) - 7] else [6, (Size(version) - 1) / 2, Size(version) - 7]
  {
    match version case 1 => case 2 => case 3 => case 4 => case 5 => case 6 => case 7 => case 8 => case 9 => case 10 =>
  }

  function Abs(a: int): nat { if a < 0 then -a else a }

  function Max(a: int, b: int): int { if a >= b then a else b }

  /** The three finder patterns with their separators. */
  predicate InFinder(size: nat, x: int, y: int) {
    (x < 8 && y < 8) || (x >= size - 8 && y < 8) || (x < 8 && y >= size - 8)
  }

  predicate InTiming(size: nat, x: int, y: int) {
    (y == 6 && 8 <= x < size - 8) || (x == 6 && 8 <= y < size - 8)
  }

  /** The alignment pattern that would sit at `(cx, cy)` sits on a finder. */
  predicate OnFinder(size: nat, cx: int, cy: int) {
    (cx == 6 && cy == 6) || (cx == 6 && cy == size - 7) || (cx == size - 7 && cy == 6)
  }

  predicate Covers(version: Version, cx: int, cy: int, x: int, y: int) {
    cx in ALIGNMENT[version] && cy in ALIGNMENT[version] && !OnFinder(Size(version), cx, cy)
    && Abs(x - cx) <= 2 && Abs(y - cy) <= 2
  }

  ghost predicate InAlignment(version: Version, x: int, y: int) {
    exists cx, cy :: Covers(version, cx, cy, x, y)
  }

  /** The two strips for the format word, where they do not cross the timing patterns, and the
      dark module. */
  predicate InFormat(size: nat, x: int, y: int) {
    (y == 8 && (x < 9 || x >= size - 8) && x != 6) || (x == 8 && (y < 9 || y >= size - 8) && y != 6)
  }

  predicate InVersion(version: Version, x: int, y: int) {
    var size := Size(version);
    version >= 7 && ((size - 11 <= y < size - 8 && x < 6) || (size - 11 <= x < size - 8 && y < 6))
  }

  ghost predicate Reserved(version: Version, x: int, y: int) {
    var size := Size(version);
    InFinder(size, x, y) || InTiming(size, x, y) || InAlignment(version, x, y) || InFormat(size, x, y) || InVersion(version, x, y)
  }

  /** The vertical timing column is reserved from top to bottom. */
  lemma ColumnSixReserved(version: Version, y: int)
    requires InGrid(Size(version), 6, y)
    ensures Reserved(version, 6, y)
  {}

  // ----- the zigzag -----

  /** The right-hand column of the `p`-th pair of columns, counted from the right; column 6 is
      skipped. */
  function PairRight(size: nat, p: nat): int {
    if size - 1 - 2 * p > 6 then size - 1 - 2 * p else size - 2 - 2 * p
  }

  /** The modules of step `s` of pair `p`: up the even pairs, down the odd ones. */
  function Step(size: nat, p: nat, s: nat): (r: seq<Pos>)
    ensures |r| == 2
  {
    var y := if p % 2 == 0 then size - 1 - s else s;
    [Pos(PairRight(size, p), y), Pos(PairRight(size, p) - 1, y)]
  }

  function PairPath(size: nat, p: nat, steps: nat): seq<Pos> {
    if steps == 0 then [] else PairPath(size, p, steps - 1) + Step(size, p, steps - 1)
  }

  function Path(size: nat, pairs: nat): seq<Pos> {
    if pairs == 0 then [] else Path(size, pairs - 1) + PairPath(size, pairs - 1, size)
  }

  function Pairs(version: Version): nat { (Size(version) - 1) / 2 }

  ghost function Free(version: Version, path: seq<Pos>): seq<Pos> {
    if path == [] then []
    else
      var last := path[|path| - 1];
      Free(version, path[..|path| - 1]) + if Reserved(version, last.x, last.y) then [] else [last]
  }

  /** The data modules, in the order they are filled. */
  ghost function FreeCells(version: Version): seq<Pos> {
    Free(version, Path(Size(version), Pairs(version)))
  }

  // ----- every data module is visited exactly once -----

  ghost predicate Distinct<T>(s: seq<T>) {
    forall i, j :: 0 <= i < j < |s| ==> s[i] != s[j]
  }

  lemma {:induction false} InPairPath(size: nat, p: nat, steps: nat, c: Pos)
    requires steps <= size
    ensures c in PairPath(size, p, steps) <==>
            && (c.x == PairRight(size, p) || c.x == PairRight(size, p) - 1)
            && (if p % 2 == 0 then size - steps <= c.y < size else 0 <= c.y < steps)
  {
    if steps == 0 {
    } else {
      InPairPath(size, p, steps - 1, c);
    }
  }

  lemma {:induction false} PairPathDistinct(size: nat, p: nat, steps: nat)
    requires steps <= size
    ensures Distinct(PairPath(size, p, steps))
  {
    if steps == 0 {
    } else {
      PairPathDistinct(size, p, steps - 1);
      var s := Step(size, p, steps - 1);
      InPairPath(size, p, steps - 1, s[0]);
      InPairPath(size, p, steps - 1, s[1]);
    }
  }

  lemma {:induction false} InPath(size: nat, pairs: nat, c: Pos)
    requires size % 2 == 1 && size >= 21 && pairs <= (size - 1) / 2
    ensures c in Path(size, pairs) <==>
            && 0 <= c.y < size && c.x != 6 && c.x < size
            && (if size - 1 - 2 * pairs >= 6 then size - 1 - 2 * pairs < c.x else size - 2 - 2 * pairs < c.x)
  {
    if pairs == 0 {
    } else {
      InPath(size, pairs - 1, c);
      InPairPath(size, pairs - 1, size, c);
    }
  }

  lemma {:induction false} PathDistinct(size: nat, pairs: nat)
    requires size % 2 == 1 && size >= 21 && pairs <= (size - 1) / 2
    ensures Distinct(Path(size, pairs))
  {
    if pairs == 0 {
    } else {
      PathDistinct(size, pairs - 1);
      PairPathDistinct(size, pairs - 1, size);
      var u, v := Path(size, pairs - 1), PairPath(size, pairs - 1, size);
      assert Path(size, pairs) == u + v;
      hide Path, PairPath, Distinct;
      forall c ensures c !in u || c !in v {
        PairsApart(size, pairs - 1, c);
      }
      DistinctConcat(u, v);
    }
  }

  lemma PairsApart(size: nat, p: nat, c: Pos)
    requires size % 2 == 1 && size >= 21 && p < (size - 1) / 2
    ensures c !in Path(size, p) || c !in PairPath(size, p, size)
  {
    hide Path, PairPath;
    InPath(size, p, c);
    InPairPath(size, p, size, c);
  }

  lemma DistinctConcat(u: seq<Pos>, v: seq<Pos>)
    requires Distinct(u) && Distinct(v) && forall c :: c !in u || c !in v
    ensures Distinct(u + v)
  {
    forall i, j | 0 <= i < |u| && 0 <= j < |v| ensures u[i] != v[j] {
      assert u[i] in u && v[j] in v;
    }
  }

  lemma {:induction false} InFree(version: Version, path: seq<Pos>, c: Pos)
    ensures c in Free(version, path) <==> c in path && !Reserved(version, c.x, c.y)
  {
    hide Reserved;
    if path == [] {
    } else {
      InFree(version, path[..|path| - 1], c);
      assert path == path[..|path| - 1] + [path[|path| - 1]];
    }
  }

  lemma {:induction false} FreeDistinct(version: Version, path: seq<Pos>)
    requires Distinct(path)
    ensures Distinct(Free(version, path))
  {
    hide Reserved;
    if path == [] {
    } else {
      FreeDistinct(version, path[..|path| - 1]);
      InFree(version, path[..|path| - 1], path[|path| - 1]);
    }
  }

  lemma FreeCell(version: Version, x: int, y: int)
    ensures Pos(x, y) in FreeCells(version) <==> InGrid(Size(version), x, y) && !Reserved(version, x, y)
  {
    hide Reserved, Path, Free;
    var size := Size(version);
    InFree(version, Path(size, Pairs(version)), Pos(x, y));
    InPath(size, Pairs(version), Pos(x, y));
    if x == 6 && InGrid(size, x, y) {
      ColumnSixReserved(version, y);
    }
  }

  /** The zigzag visits every unreserved module of the grid exactly once, and no other. */
  lemma ZigzagVisitsOnce(version: Version)
    ensures Distinct(FreeCells(version))
    ensures forall x, y :: Pos(x, y) in FreeCells(version) <==> InGrid(Size(version), x, y) && !Reserved(version, x, y)
  {
    hide Reserved, Path, Free, Distinct;
    PathDistinct(Size(version), Pairs(version));
    FreeDistinct(version, Path(Size(version), Pairs(version)));
    forall x, y
      ensures Pos(x, y) in FreeCells(version) <==> InGrid(Size(version), x, y) && !Reserved(version, x, y)
    {
      FreeCell(version, x, y);
    }
  }

  // ----- there is room for every bit -----

  datatype Rect = Rect(x: int, y: int, w: nat, h: nat)

  function Extent(r: Rect): nat { r.w * r.h }

  function Area(rects: seq<Rect>): nat {
    if rects == [] then 0 else Extent(rects[0]) + Area(rects[1..])
  }

  predicate InRect(r: Rect, c: Pos) {
    r.x <= c.x < r.x + r.w && r.y <= c.y < r.y + r.h
  }

  ghost function Row(x: int, y: int, w: nat): set<Pos> {
    if w == 0 then {} else Row(x, y, w - 1) + {Pos(x + w - 1, y)}
  }

  ghost function Block(r: Rect): set<Pos>
    decreases r.h
  {
    if r.h == 0 then {} else Block(r.(h := r.h - 1)) + Row(r.x, r.y + r.h - 1, r.w)
  }

  lemma {:induction false} InRow(x: int, y: int, w: nat, c: Pos)
    ensures c in Row(x, y, w) <==> x <= c.x < x + w && c.y == y
  {
    if w == 0 {
    } else {
      InRow(x, y, w - 1, c);
    }
  }

  lemma {:induction false} RowSize(x: int, y: int, w: nat)
    ensures |Row(x, y, w)| == w
  {
    if w == 0 {
    } else {
      RowSize(x, y, w - 1);
      InRow(x, y, w - 1, Pos(x + w - 1, y));
    }
  }

  lemma {:induction false} InBlock(r: Rect, c: Pos)
    ensures c in Block(r) <==> InRect(r, c)
    decreases r.h
  {
    hide Row;
    if r.h == 0 {
    } else {
      InBlock(r.(h := r.h - 1), c);
      InRow(r.x, r.y + r.h - 1, r.w, c);
    }
  }

  lemma DisjointSize<T>(a: set<T>, b: set<T>)
    requires a !! b
    ensures |a + b| == |a| + |b|
  {}

  lemma RowBelow(r: Rect)
    requires r.h > 0
    ensures Block(r.(h := r.h - 1)) !! Row(r.x, r.y + r.h - 1, r.w)
  {
    hide Row, Block;
    var upper, row := Block(r.(h := r.h - 1)), Row(r.x, r.y + r.h - 1, r.w);
    forall c | c in row ensures c !in upper {
      InRow(r.x, r.y + r.h - 1, r.w, c);
      InBlock(r.(h := r.h - 1), c);
    }
  }

  lemma ExtentGrows(r: Rect)
    ensures Extent(r) == if r.h == 0 then 0 else Extent(r.(h := r.h - 1)) + r.w
  {}

  lemma {:induction false} BlockSize(r: Rect)
    ensures |Block(r)| == Extent(r)
    decreases r.h
  {
    ExtentGrows(r);
    hide Row, Extent;
    if r.h == 0 {
    } else {
      BlockSize(r.(h := r.h - 1));
      RowSize(r.x, r.y + r.h - 1, r.w);
      RowBelow(r);
      DisjointSize(Block(r.(h := r.h - 1)), Row(r.x, r.y + r.h - 1, r.w));
    }
  }

  ghost function Union(rects: seq<Rect>): set<Pos> {
    if rects == [] then {} else Block(rects[0]) + Union(rects[1..])
  }

  lemma {:induction false} UnionSize(rects: seq<Rect>)
    ensures |Union(rects)| <= Area(rects)
  {
    hide Block;
    if rects == [] {
    } else {
      BlockSize(rects[0]);
      UnionSize(rects[1..]);
    }
  }

  lemma {:induction false} InUnion(rects: seq<Rect>, k: nat, c: Pos)
    requires k < |rects| && InRect(rects[k], c)
    ensures c in Union(rects)
  {
    hide Block, InRect;
    if k == 0 {
      InBlock(rects[0], c);
    } else {
      InUnion(rects[1..], k - 1, c);
    }
  }

  lemma {:induction false} UnionConcat(u: seq<Rect>, v: seq<Rect>)
    ensures Union(u + v) == Union(u) + Union(v) && Area(u + v) == Area(u) + Area(v)
  {
    hide Block;
    if u == [] {
      assert u + v == v;
    } else {
      assert (u + v)[1..] == u[1..] + v;
      UnionConcat(u[1..], v);
    }
  }

  // Rectangles that cover the reserved modules without overlapping.

  function FinderRects(size: nat): seq<Rect> {
    [Rect(0, 0, 8, 8), Rect(size - 8, 0, 8, 8), Rect(0, size - 8, 8, 8)]
  }

  function TimingRects(size: nat): seq<Rect>
    requires size >= 16
  {
    [Rect(8, 6, size - 16, 1), Rect(6, 8, 1, size - 16)]
  }

  function FormatRects(size: nat): seq<Rect> {
    [Rect(0, 8, 6, 1), Rect(7, 8, 2, 1), Rect(8, 0, 1, 6), Rect(8, 7, 1, 1), Rect(size - 8, 8, 8, 1), Rect(8, size - 8, 1, 8)]
  }

  function VersionRects(version: Version): seq<Rect> {
    var size := Size(version);
    if version < 7 then [] else [Rect(0, size - 11, 6, 3), Rect(size - 11, 0, 3, 6)]
  }

  /** An alignment pattern that straddles a timing pattern is counted either side of it. */
  function AlignmentRects(version: Version): seq<Rect> {
    if version == 1 then []
    else if version < 7 then
      var p := ALIGNMENT[version][1];
      [Rect(p - 2, p - 2, 5, 5)]
    else StraddlingRects(ALIGNMENT[version][1]) + CornerRects(ALIGNMENT[version][1], ALIGNMENT[version][2])
  }

  function StraddlingRects(p: int): seq<Rect> {
    [Rect(p - 2, 4, 5, 2), Rect(p - 2, 7, 5, 2), Rect(4, p - 2, 2, 5), Rect(7, p - 2, 2, 5)]
  }

  function CornerRects(p: int, q: int): seq<Rect> {
    [Rect(p - 2, p - 2, 5, 5), Rect(p - 2, q - 2, 5, 5), Rect(q - 2, p - 2, 5, 5), Rect(q - 2, q - 2, 5, 5)]
  }

  function ReservedRects(version: Version): seq<Rect> {
    var size := Size(version);
    FinderRects(size) + (TimingRects(size) + (FormatRects(size) + (VersionRects(version) + AlignmentRects(version))))
  }

  ghost function ReservedUnion(version: Version): set<Pos> {
    var size := Size(version);
    Union(FinderRects(size)) + Union(TimingRects(size)) + Union(FormatRects(size))
    + Union(VersionRects(version)) + Union(AlignmentRects(version))
  }

  lemma ReservedParts(version: Version)
    ensures Union(ReservedRects(version)) == ReservedUnion(version)
    ensures Area(ReservedRects(version)) ==
            var size := Size(version);
            Area(FinderRects(size)) + Area(TimingRects(size)) + Area(FormatRects(size))
            + Area(VersionRects(version)) + Area(AlignmentRects(version))
  {
    hide Union, Area, FinderRects, TimingRects, FormatRects, VersionRects, AlignmentRects;
    var size := Size(version);
    var a, b, c, d, e := FinderRects(size), TimingRects(size), FormatRects(size), VersionRects(version), AlignmentRects(version);
    UnionConcat(a, b + (c + (d + e)));
    UnionConcat(b, c + (d + e));
    UnionConcat(c, d + e);
    UnionConcat(d, e);
  }

  lemma FixedCovered(size: nat, x: int, y: int)
    requires size >= 21 && InGrid(size, x, y)
    ensures InFinder(size, x, y) ==> Pos(x, y) in Union(FinderRects(size))
    ensures InTiming(size, x, y) ==> Pos(x, y) in Union(TimingRects(size))
    ensures InFormat(size, x, y) ==> Pos(x, y) in Union(FormatRects(size))
  {
    hide Union;
    var c := Pos(x, y);
    if InFinder(size, x, y) {
      InUnion(FinderRects(size), if x >= size - 8 then 1 else if y >= size - 8 then 2 else 0, c);
    }
    if InTiming(size, x, y) {
      InUnion(TimingRects(size), if y == 6 then 0 else 1, c);
    }
    if InFormat(size, x, y) {
      var k := if y == 8 then (if x < 6 then 0 else if x < 9 then 1 else 4) else if y < 6 then 2 else if y < 9 then 3 else 5;
      InUnion(FormatRects(size), k, c);
    }
  }

  lemma VersionCovered(version: Version, x: int, y: int)
    requires InGrid(Size(version), x, y) && InVersion(version, x, y)
    ensures Pos(x, y) in Union(VersionRects(version))
  {
    InUnion(VersionRects(version), if x < 6 then 0 else 1, Pos(x, y));
  }

  lemma AlignmentCovered(version: Version, x: int, y: int)
    requires InAlignment(version, x, y)
    ensures InTiming(Size(version), x, y) || Pos(x, y) in Union(AlignmentRects(version))
  {
    hide Union;
    var cx, cy :| Covers(version, cx, cy, x, y);
    if version < 7 {
      assert version > 1 && cx == cy == ALIGNMENT[version][1];
      InUnion(AlignmentRects(version), 0, Pos(x, y));
    } else {
      var p, q := ALIGNMENT[version][1], ALIGNMENT[version][2];
      TableCentres(version, cx);
      TableCentres(version, cy);
      UnionConcat(StraddlingRects(p), CornerRects(p, q));
      hide AlignmentRects;
      PatternCovered(p, q, cx, cy, Size(version), x, y);
      hide Covers;
    }
  }

  lemma TableCentres(version: Version, c: int)
    requires version >= 7 && c in ALIGNMENT[version]
    ensures var p, q := ALIGNMENT[version][1], ALIGNMENT[version][2];
            (c == 6 || c == p || c == q) && q == Size(version) - 7 && 18 <= p < q - 4
  {}

  lemma PatternCovered(p: int, q: int, cx: int, cy: int, size: nat, x: int, y: int)
    requires q == size - 7 && 18 <= p < q - 4 && !OnFinder(size, cx, cy)
    requires (cx == 6 || cx == p || cx == q) && (cy == 6 || cy == p || cy == q)
    requires Abs(x - cx) <= 2 && Abs(y - cy) <= 2
    ensures InTiming(size, x, y) || Pos(x, y) in Union(StraddlingRects(p)) + Union(CornerRects(p, q))
  {
    hide Union;
    var c := Pos(x, y);
    if !InTiming(size, x, y) {
      if cx == 6 || cy == 6 {
        InUnion(StraddlingRects(p), if cy == 6 then (if y < 6 then 0 else 1) else if x < 6 then 2 else 3, c);
      } else {
        InUnion(CornerRects(p, q), if cx == p then (if cy == p then 0 else 1) else if cy == p then 2 else 3, c);
      }
    }
  }

  lemma ReservedCovered(version: Version, x: int, y: int)
    requires InGrid(Size(version), x, y) && Reserved(version, x, y)
    ensures Pos(x, y) in Union(ReservedRects(version))
  {
    hide Union, ReservedRects, InFinder, InTiming, InFormat, InVersion, InAlignment;
    ReservedParts(version);
    FixedCovered(Size(version), x, y);
    if InVersion(version, x, y) {
      VersionCovered(version, x, y);
    }
    if InAlignment(version, x, y) {
      AlignmentCovered(version, x, y);
    }
  }

  ghost function Elements<T>(s: seq<T>): set<T> {
    set c | c in s
  }

  lemma {:induction false} DistinctSize<T>(s: seq<T>)
    requires Distinct(s)
    ensures |Elements(s)| == |s|
  {
    if s == [] {
    } else {
      var n := |s| - 1;
      DistinctSize(s[..n]);
      assert s == s[..n] + [s[n]];
      assert Elements(s) == Elements(s[..n]) + {s[n]};
    }
  }

  /** Every data module is outside the rectangles, so there are at least this many. */
  lemma FreeCellsBound(version: Version)
    ensures |FreeCells(version)| >= Size(version) * Size(version) - Area(ReservedRects(version))
  {
    hide Reserved, FreeCells, ReservedRects, Union, Block, Area;
    var size := Size(version);
    var whole, rects, free := Rect(0, 0, size, size), ReservedRects(version), FreeCells(version);
    BlockSize(whole);
    UnionSize(rects);
    ZigzagVisitsOnce(version);
    DistinctSize(free);
    assert Block(whole) <= Elements(free) + Union(rects) by {
      forall c | c in Block(whole) ensures c in Elements(free) + Union(rects) {
        InBlock(whole, c);
        assert c == Pos(c.x, c.y) && InGrid(size, c.x, c.y);
        if Reserved(version, c.x, c.y) {
          ReservedCovered(version, c.x, c.y);
        }
      }
    }
    SubsetSize(Block(whole), Elements(free) + Union(rects));
  }

  lemma SubsetSize<T>(a: set<T>, b: set<T>)
    requires a <= b
    ensures |a| <= |b|
  {
    assert b == a + (b - a);
  }

  /** No bit is dropped: the data modules hold every word of the symbol. */
  lemma RoomForEveryBit(version: Version)
    ensures |FreeCells(version)| >= 8 * TotalWords(version)
  {
    FreeCellsBound(version);
    ReservedArea(version);
  }

  lemma ReservedArea(version: Version)
    ensures Size(version) * Size(version) - Area(ReservedRects(version)) >= 8 * TotalWords(version)
  {
    hide Area, FinderRects, TimingRects, FormatRects, VersionRects, AlignmentRects, ReservedRects, Union;
    ReservedParts(version);
    FixedArea(Size(version));
    AlignmentArea(version);
    match version case 1 => case 2 => case 3 => case 4 => case 5 => case 6 => case 7 => case 8 => case 9 => case 10 =>
  }

  lemma AreaOfOne(a: Rect)
    ensures Area([a]) == Extent(a)
  {
    hide Extent;
    assert [a][1..] == [] && Area([]) == 0;
  }

  lemma AreaOfTwo(a: Rect, b: Rect)
    ensures Area([a, b]) == Extent(a) + Extent(b) && Area([a]) == Extent(a)
  {
    AreaOfOne(a);
    AreaOfOne(b);
    hide Extent;
    assert [a, b][1..] == [b];
  }

  lemma AreaOfFour(a: Rect, b: Rect, c: Rect, d: Rect)
    ensures Area([a, b, c, d]) == Extent(a) + Extent(b) + Extent(c) + Extent(d)
  {
    hide Area, Extent;
    AreaOfTwo(a, b);
    AreaOfTwo(c, d);
    UnionConcat([a, b], [c, d]);
    assert [a, b, c, d] == [a, b] + [c, d];
  }

  lemma FixedArea(size: nat)
    requires size >= 16
    ensures Area(FinderRects(size)) == 192 && Area(TimingRects(size)) == 2 * (size - 16) && Area(FormatRects(size)) == 31
  {
    FinderArea(size);
    FormatArea(size);
    var t := TimingRects(size);
    hide Area;
    AreaOfTwo(t[0], t[1]);
    assert t == [t[0], t[1]];
  }

  lemma FinderArea(size: nat)
    ensures Area(FinderRects(size)) == 192
  {
    hide Area;
    var f := FinderRects(size);
    AreaOfTwo(f[0], f[1]);
    AreaOfTwo(f[2], f[2]);
    UnionConcat([f[0], f[1]], [f[2]]);
    assert f == [f[0], f[1]] + [f[2]];
  }

  lemma FormatArea(size: nat)
    ensures Area(FormatRects(size)) == 31
  {
    hide Area;
    var r := FormatRects(size);
    AreaOfFour(r[0], r[1], r[2], r[3]);
    AreaOfTwo(r[4], r[5]);
    UnionConcat([r[0], r[1], r[2], r[3]], [r[4], r[5]]);
    assert r == [r[0], r[1], r[2], r[3]] + [r[4], r[5]];
  }

  lemma AlignmentArea(version: Version)
    ensures Area(AlignmentRects(version)) == if version == 1 then 0 else if version < 7 then 25 else 140
    ensures Area(VersionRects(version)) == if version < 7 then 0 else 36
  {
    var v := VersionRects(version);
    assert Area([]) == 0;
    hide Area;
    if version >= 7 {
      AreaOfTwo(v[0], v[1]);
      assert v == [v[0], v[1]];
      hide VersionRects;
      LargeAlignmentArea(ALIGNMENT[version][1], ALIGNMENT[version][2]);
    } else if version > 1 {
      var a := AlignmentRects(version);
      AreaOfTwo(a[0], a[0]);
      assert a == [a[0]];
    }
  }

  lemma LargeAlignmentArea(p: int, q: int)
    ensures Area(StraddlingRects(p) + CornerRects(p, q)) == 140
  {
    hide Area;
    var s, c := StraddlingRects(p), CornerRects(p, q);
    AreaOfFour(s[0], s[1], s[2], s[3]);
    AreaOfFour(c[0], c[1], c[2], c[3]);
    UnionConcat(s, c);
    assert s == [s[0], s[1], s[2], s[3]] && c == [c[0], c[1], c[2], c[3]];
  }
}
