/** The module matrix, and the writes that fill it
    (packages/designer-runtime/src/qr.ts:179-298). */
module Grids {
  import opened Capacity
  import opened BitStream
  import opened SymbolLayout
  import opened FormatWords
  import opened SymbolPicture

  class Grid {
    const size: nat
    const modules: array<int>
    const reserved: array<int>

    ghost predicate Valid() {
      modules.Length == size * size && reserved.Length == size * size && modules != reserved
    }

    predicate Dark(x: int, y: int)
      requires Valid() && InGrid(size, x, y)
      reads modules
    {
      Inside(size, x, y);
      modules[y * size + x] == 1
    }

    predicate Taken(x: int, y: int)
      requires Valid() && InGrid(size, x, y)
      reads reserved
    {
      Inside(size, x, y);
      reserved[y * size + x] != 0
    }

    /** The modules row by row, `true` for dark. */
    ghost function Picture(): (dark: seq<bool>)
      requires Valid()
      reads modules
      ensures |dark| == size * size
      ensures forall x, y :: InGrid(size, x, y) ==> At(dark, size, x, y) == Dark(x, y)
    {
      var dark := Darks(modules[..]);
      assert forall x, y :: InGrid(size, x, y) ==> At(dark, size, x, y) == Dark(x, y) by {
        forall x, y | InGrid(size, x, y) ensures At(dark, size, x, y) == Dark(x, y) {
          Inside(size, x, y);
        }
      }
      dark
    }

    method ToMatrix() returns (dark: seq<bool>)
      requires Valid()
      ensures dark == Picture()
    {
      dark := [];
      for k := 0 to modules.Length
        invariant |dark| == k && forall j :: 0 <= j < k ==> dark[j] == (modules[j] == 1)
      {
        dark := dark + [modules[k] == 1];
      }
    }

    constructor (size: nat)
      ensures Valid() && this.size == size && fresh(modules) && fresh(reserved)
      ensures forall x, y :: InGrid(size, x, y) ==> !Dark(x, y) && !Taken(x, y)
    {
      this.size := size;
      modules := new int[size * size](_ => 0);
      reserved := new int[size * size](_ => 0);
      new;
      forall x, y | InGrid(size, x, y) ensures !Dark(x, y) && !Taken(x, y) {
        Inside(size, x, y);
      }
    }

    /** Writes one module, and reserves it. */
    method Set(x: int, y: int, dark: bool)
      requires Valid() && InGrid(size, x, y)
      modifies modules, reserved
      ensures forall u, v :: InGrid(size, u, v) ==> Dark(u, v) == if u == x && v == y then dark else old(Dark(u, v))
      ensures forall u, v :: InGrid(size, u, v) ==> Taken(u, v) == ((u == x && v == y) || old(Taken(u, v)))
    {
      Inside(size, x, y);
      Apart(size, x, y);
      modules[y * size + x] := if dark then 1 else 0;
      reserved[y * size + x] := 1;
    }

    /** Writes one module without reserving it. */
    method SetData(x: int, y: int, dark: bool)
      requires Valid() && InGrid(size, x, y)
      modifies modules
      ensures forall u, v :: InGrid(size, u, v) ==> Dark(u, v) == if u == x && v == y then dark else old(Dark(u, v))
    {
      Inside(size, x, y);
      Apart(size, x, y);
      modules[y * size + x] := if dark then 1 else 0;
    }
  }

  function Darks(modules: seq<int>): (dark: seq<bool>)
    ensures |dark| == |modules| && forall k :: 0 <= k < |dark| ==> dark[k] == (modules[k] == 1)
  {
    seq(|modules|, k requires 0 <= k < |modules| => modules[k] == 1)
  }

  /** Different modules live at different indices. */
  lemma Apart(size: nat, x: int, y: int)
    requires InGrid(size, x, y)
    ensures forall u, v :: InGrid(size, u, v) && v * size + u == y * size + x ==> u == x && v == y
  {
    forall u, v | InGrid(size, u, v) && v * size + u == y * size + x ensures u == x && v == y {
      DivUnique(y * size + x, size, y, x);
      DivUnique(y * size + x, size, v, u);
    }
  }

  method PlaceFinder(g: Grid, ox: int, oy: int)
    requires g.Valid() && g.size >= 21
    requires (ox == 0 || ox == g.size - 7) && (oy == 0 || oy == g.size - 7)
    modifies g.modules, g.reserved
    ensures forall u, v :: InGrid(g.size, u, v) ==>
              g.Dark(u, v) == if NearFinder(ox, oy, u, v) then FinderDark(g.size, u, v) else old(g.Dark(u, v))
    ensures forall u, v :: InGrid(g.size, u, v) ==> g.Taken(u, v) == (NearFinder(ox, oy, u, v) || old(g.Taken(u, v)))
  {
    hide FinderDark;
    for y := -1 to 8
      invariant forall u, v :: InGrid(g.size, u, v) ==>
                  g.Dark(u, v) == if NearFinder(ox, oy, u, v) && v < oy + y then FinderDark(g.size, u, v) else old(g.Dark(u, v))
      invariant forall u, v :: InGrid(g.size, u, v) ==>
                  g.Taken(u, v) == ((NearFinder(ox, oy, u, v) && v < oy + y) || old(g.Taken(u, v)))
    {
      for x := -1 to 8
        invariant forall u, v :: InGrid(g.size, u, v) ==>
                    g.Dark(u, v) == if NearFinder(ox, oy, u, v) && (v < oy + y || (v == oy + y && u < ox + x))
                                    then FinderDark(g.size, u, v) else old(g.Dark(u, v))
        invariant forall u, v :: InGrid(g.size, u, v) ==>
                    g.Taken(u, v) == ((NearFinder(ox, oy, u, v) && (v < oy + y || (v == oy + y && u < ox + x))) || old(g.Taken(u, v)))
      {
        var px, py := ox + x, oy + y;
        if px < 0 || py < 0 || px >= g.size || py >= g.size { continue; }
        var ring := Max(Abs(x - 3), Abs(y - 3));
        FinderRing(g.size, ox, oy, x, y);
        g.Set(px, py, ring != 2 && ring <= 3);
      }
    }
  }

  lemma FinderRing(size: nat, ox: int, oy: int, x: int, y: int)
    requires size >= 21 && (ox == 0 || ox == size - 7) && (oy == 0 || oy == size - 7) && -1 <= x <= 7 && -1 <= y <= 7
    ensures InGrid(size, ox + x, oy + y) ==>
      (FinderDark(size, ox + x, oy + y) <==> Max(Abs(x - 3), Abs(y - 3)) != 2 && Max(Abs(x - 3), Abs(y - 3)) <= 3)
  {}

  predicate NearFinder(ox: int, oy: int, u: int, v: int) {
    ox - 1 <= u <= ox + 7 && oy - 1 <= v <= oy + 7
  }

  method PlaceTiming(g: Grid)
    requires g.Valid() && g.size >= 21
    modifies g.modules, g.reserved
    ensures forall u, v :: InGrid(g.size, u, v) ==>
              g.Dark(u, v) == if InTiming(g.size, u, v) then TimingDark(u, v) else old(g.Dark(u, v))
    ensures forall u, v :: InGrid(g.size, u, v) ==> g.Taken(u, v) == (InTiming(g.size, u, v) || old(g.Taken(u, v)))
  {
    for i := 8 to g.size - 8
      invariant forall u, v :: InGrid(g.size, u, v) ==>
                  g.Dark(u, v) == if InTiming(g.size, u, v) && u < i && v < i then TimingDark(u, v) else old(g.Dark(u, v))
      invariant forall u, v :: InGrid(g.size, u, v) ==>
                  g.Taken(u, v) == ((InTiming(g.size, u, v) && u < i && v < i) || old(g.Taken(u, v)))
    {
      g.Set(i, 6, i % 2 == 0);
      g.Set(6, i, i % 2 == 0);
    }
  }

  predicate NearCentre(cx: int, cy: int, u: int, v: int) {
    Abs(u - cx) <= 2 && Abs(v - cy) <= 2
  }

  method PlaceAlignment(g: Grid, cx: int, cy: int)
    requires g.Valid() && 2 <= cx < g.size - 2 && 2 <= cy < g.size - 2
    modifies g.modules, g.reserved
    ensures forall u, v :: InGrid(g.size, u, v) ==>
              g.Dark(u, v) == if NearCentre(cx, cy, u, v) then Ring(u - cx, v - cy) != 1 else old(g.Dark(u, v))
    ensures forall u, v :: InGrid(g.size, u, v) ==> g.Taken(u, v) == (NearCentre(cx, cy, u, v) || old(g.Taken(u, v)))
  {
    for y := -2 to 3
      invariant forall u, v :: InGrid(g.size, u, v) ==>
                  g.Dark(u, v) == if NearCentre(cx, cy, u, v) && v < cy + y then Ring(u - cx, v - cy) != 1 else old(g.Dark(u, v))
      invariant forall u, v :: InGrid(g.size, u, v) ==>
                  g.Taken(u, v) == ((NearCentre(cx, cy, u, v) && v < cy + y) || old(g.Taken(u, v)))
    {
      for x := -2 to 3
        invariant forall u, v :: InGrid(g.size, u, v) ==>
                    g.Dark(u, v) == if NearCentre(cx, cy, u, v) && (v < cy + y || (v == cy + y && u < cx + x))
                                    then Ring(u - cx, v - cy) != 1 else old(g.Dark(u, v))
        invariant forall u, v :: InGrid(g.size, u, v) ==>
                    g.Taken(u, v) == ((NearCentre(cx, cy, u, v) && (v < cy + y || (v == cy + y && u < cx + x))) || old(g.Taken(u, v)))
      {
        g.Set(cx + x, cy + y, Max(Abs(x), Abs(y)) != 1);
      }
    }
  }

  /** The pattern at row `a` and column `b` of the centre table covers `(u, v)`. */
  predicate CoversAt(version: Version, a: int, b: int, u: int, v: int) {
    && 0 <= a < |ALIGNMENT[version]| && 0 <= b < |ALIGNMENT[version]|
    && Covers(version, ALIGNMENT[version][b], ALIGNMENT[version][a], u, v)
  }

  /** ... and is among those placed before row `i`, column `j`. */
  ghost predicate PlacedBefore(version: Version, i: nat, j: nat, u: int, v: int) {
    exists a, b :: (a < i || (a == i && b < j)) && CoversAt(version, a, b, u, v)
  }

  /** Alignment patterns do not overlap. */
  lemma CoversUnique(version: Version, cx: int, cy: int, dx: int, dy: int, u: int, v: int)
    requires Covers(version, cx, cy, u, v) && Covers(version, dx, dy, u, v)
    ensures dx == cx && dy == cy
  {
    CentresApart(version, cx, dx);
    CentresApart(version, cy, dy);
  }

  lemma CentresApart(version: Version, a: int, b: int)
    requires a in ALIGNMENT[version] && b in ALIGNMENT[version] && Abs(a - b) <= 4
    ensures a == b
  {}

  lemma AlignmentRing(version: Version, cx: int, cy: int, u: int, v: int)
    requires Covers(version, cx, cy, u, v)
    ensures AlignmentDark(version, u, v) == (Ring(u - cx, v - cy) != 1)
  {
    hide Covers, Ring;
    if AlignmentDark(version, u, v) {
      var dx, dy :| Covers(version, dx, dy, u, v) && Ring(u - dx, v - dy) != 1;
      CoversUnique(version, cx, cy, dx, dy, u, v);
    }
  }

  lemma OneMorePlaced(version: Version, i: nat, j: nat, u: int, v: int)
    requires i < |ALIGNMENT[version]| && j < |ALIGNMENT[version]|
    ensures PlacedBefore(version, i, j + 1, u, v) == (PlacedBefore(version, i, j, u, v) || CoversAt(version, i, j, u, v))
  {
    hide CoversAt;
    if PlacedBefore(version, i, j + 1, u, v) {
      var a, b :| (a < i || (a == i && b < j + 1)) && CoversAt(version, a, b, u, v);
      assert CoversAt(version, a, b, u, v);
    }
  }

  lemma RowPlaced(version: Version, i: nat, u: int, v: int)
    ensures PlacedBefore(version, i, |ALIGNMENT[version]|, u, v) == PlacedBefore(version, i + 1, 0, u, v)
  {
    if PlacedBefore(version, i + 1, 0, u, v) {
      var a, b :| a < i + 1 && CoversAt(version, a, b, u, v);
      assert CoversAt(version, a, b, u, v);
    }
  }

  lemma AllPlaced(version: Version, u: int, v: int)
    ensures PlacedBefore(version, |ALIGNMENT[version]|, 0, u, v) == InAlignment(version, u, v)
    ensures !PlacedBefore(version, 0, 0, u, v)
  {
    if InAlignment(version, u, v) {
      var cx, cy :| Covers(version, cx, cy, u, v);
      var a :| 0 <= a < |ALIGNMENT[version]| && ALIGNMENT[version][a] == cy;
      var b :| 0 <= b < |ALIGNMENT[version]| && ALIGNMENT[version][b] == cx;
      assert CoversAt(version, a, b, u, v);
    }
  }

  method PlaceAlignments(g: Grid, version: Version)
    requires g.Valid() && g.size == Size(version)
    modifies g.modules, g.reserved
    ensures forall u, v :: InGrid(g.size, u, v) ==>
              g.Dark(u, v) == if InAlignment(version, u, v) then AlignmentDark(version, u, v) else old(g.Dark(u, v))
    ensures forall u, v :: InGrid(g.size, u, v) ==> g.Taken(u, v) == (InAlignment(version, u, v) || old(g.Taken(u, v)))
  {
    hide PlacedBefore, InAlignment, AlignmentDark, NearCentre;
    var centres := ALIGNMENT[version];
    forall u, v { AllPlaced(version, u, v); }
    for i := 0 to |centres|
      invariant forall u, v :: InGrid(g.size, u, v) ==>
                  g.Dark(u, v) == if PlacedBefore(version, i, 0, u, v) then AlignmentDark(version, u, v) else old(g.Dark(u, v))
      invariant forall u, v :: InGrid(g.size, u, v) ==> g.Taken(u, v) == (PlacedBefore(version, i, 0, u, v) || old(g.Taken(u, v)))
    {
      for j := 0 to |centres|
        invariant forall u, v :: InGrid(g.size, u, v) ==>
                    g.Dark(u, v) == if PlacedBefore(version, i, j, u, v) then AlignmentDark(version, u, v) else old(g.Dark(u, v))
        invariant forall u, v :: InGrid(g.size, u, v) ==> g.Taken(u, v) == (PlacedBefore(version, i, j, u, v) || old(g.Taken(u, v)))
      {
        forall u, v { OneMorePlaced(version, i, j, u, v); }
        if OnFinder(g.size, centres[j], centres[i]) {
          forall u, v ensures !CoversAt(version, i, j, u, v) {}
          continue;
        }
        CoversNear(version, i, j);
        PlaceAlignment(g, centres[j], centres[i]);
      }
      forall u, v { RowPlaced(version, i, u, v); }
    }
  }

  lemma CoversNear(version: Version, i: nat, j: nat)
    requires i < |ALIGNMENT[version]| && j < |ALIGNMENT[version]|
    requires !OnFinder(Size(version), ALIGNMENT[version][j], ALIGNMENT[version][i])
    ensures var cx, cy := ALIGNMENT[version][j], ALIGNMENT[version][i];
            && 2 <= cx < Size(version) - 2 && 2 <= cy < Size(version) - 2
            && (forall u, v :: CoversAt(version, i, j, u, v) <==> NearCentre(cx, cy, u, v))
            && (forall u, v :: CoversAt(version, i, j, u, v) ==> AlignmentDark(version, u, v) == (Ring(u - cx, v - cy) != 1))
  {
    var cx, cy := ALIGNMENT[version][j], ALIGNMENT[version][i];
    forall u, v | CoversAt(version, i, j, u, v) ensures AlignmentDark(version, u, v) == (Ring(u - cx, v - cy) != 1) {
      AlignmentRing(version, cx, cy, u, v);
    }
  }

  /** The modules around the top-left finder that the first `i` rounds reserve. */
  predicate StripBefore(size: nat, i: int, u: int, v: int) {
    InFormat(size, u, v) && u < 9 && v < 9 && (u < i || v < i) && (u != 8 || v < i) && (v != 8 || u < i)
  }

  /** Reserves the strips for the format word, light for now, and sets the dark module. */
  method ReserveFormat(g: Grid)
    requires g.Valid() && g.size >= 21
    modifies g.modules, g.reserved
    ensures forall u, v :: InGrid(g.size, u, v) ==>
              g.Dark(u, v) == if InFormat(g.size, u, v) then u == 8 && v == g.size - 8 else old(g.Dark(u, v))
    ensures forall u, v :: InGrid(g.size, u, v) ==> g.Taken(u, v) == (InFormat(g.size, u, v) || old(g.Taken(u, v)))
  {
    for i := 0 to 9
      invariant forall u, v :: InGrid(g.size, u, v) ==>
                  g.Dark(u, v) == (!StripBefore(g.size, i, u, v) && old(g.Dark(u, v)))
      invariant forall u, v :: InGrid(g.size, u, v) ==>
                  g.Taken(u, v) == (StripBefore(g.size, i, u, v) || old(g.Taken(u, v)))
    {
      if i != 6 {
        g.Set(i, 8, false);
        g.Set(8, i, false);
      }
    }
    label Corner:
    for i := 0 to 8
      invariant forall u, v :: InGrid(g.size, u, v) ==>
                  g.Dark(u, v) == (!(v == 8 && u > g.size - 1 - i) && old@Corner(g.Dark(u, v)))
      invariant forall u, v :: InGrid(g.size, u, v) ==>
                  g.Taken(u, v) == ((v == 8 && u > g.size - 1 - i) || old@Corner(g.Taken(u, v)))
    {
      g.Set(g.size - 1 - i, 8, false);
    }
    label Right:
    for i := 0 to 7
      invariant forall u, v :: InGrid(g.size, u, v) ==>
                  g.Dark(u, v) == (!(u == 8 && v > g.size - 1 - i) && old@Right(g.Dark(u, v)))
      invariant forall u, v :: InGrid(g.size, u, v) ==>
                  g.Taken(u, v) == ((u == 8 && v > g.size - 1 - i) || old@Right(g.Taken(u, v)))
    {
      g.Set(8, g.size - 1 - i, false);
    }
    g.Set(8, g.size - 8, true);
  }

  method ComputeVersionWord(version: Version) returns (bits: bv32)
    ensures bits == VersionWord(version)
  {
    hide VersionRound, Systematic;
    var value := version as bv32;
    for i := 0 to 12
      invariant value == VersionRounds(version as bv32, i)
    {
      value := VersionRound(value);
    }
    bits := Systematic(version as bv32, value);
  }

  method PlaceVersion(g: Grid, version: Version)
    requires g.Valid() && g.size == Size(version)
    modifies g.modules, g.reserved
    ensures forall u, v :: InGrid(g.size, u, v) ==>
              g.Dark(u, v) == if InVersion(version, u, v) then VersionDark(version, u, v) else old(g.Dark(u, v))
    ensures forall u, v :: InGrid(g.size, u, v) ==> g.Taken(u, v) == (InVersion(version, u, v) || old(g.Taken(u, v)))
  {
    hide VersionWord, WordBit, InVersion, VersionIndex, VersionDark;
    NoVersionWord(version);
    if version >= 7 {
      var bits := ComputeVersionWord(version);
      var far := g.size - 11;
      for i := 0 to 18
        invariant forall u, v :: InGrid(g.size, u, v) ==>
                    g.Dark(u, v) == if InVersion(version, u, v) && VersionIndex(version, u, v) < i
                                    then VersionDark(version, u, v) else old(g.Dark(u, v))
        invariant forall u, v :: InGrid(g.size, u, v) ==>
                    g.Taken(u, v) == ((InVersion(version, u, v) && VersionIndex(version, u, v) < i) || old(g.Taken(u, v)))
      {
        var dark := WordBit(bits, i);
        VersionPlaces(version, i);
        g.Set(i / 3, far + i % 3, dark);
        g.Set(far + i % 3, i / 3, dark);
      }
    }
  }

  lemma NoVersionWord(version: Version)
    ensures version < 7 ==> forall u, v :: InGrid(Size(version), u, v) ==> !InVersion(version, u, v)
  {}

  /** Bit `i` of the version word has two places, and no others. */
  lemma VersionPlaces(version: Version, i: nat)
    requires version >= 7 && i < 18
    ensures var far := Size(version) - 11;
      && InGrid(Size(version), i / 3, far + i % 3) && InGrid(Size(version), far + i % 3, i / 3)
      && forall u, v :: InGrid(Size(version), u, v) ==>
           ((u == i / 3 && v == far + i % 3) || (u == far + i % 3 && v == i / 3)
            <==> InVersion(version, u, v) && VersionIndex(version, u, v) == i)
    ensures forall u, v :: InGrid(Size(version), u, v) && InVersion(version, u, v) && VersionIndex(version, u, v) == i ==>
      VersionDark(version, u, v) == WordBit(VersionWord(version), i)
  {
    hide VersionWord, WordBit;
  }

  /** All the function patterns, in the source's order, leave the picture's function modules,
      all of them reserved and nothing else. */
  method PlaceFunctionPatterns(g: Grid, version: Version)
    requires g.Valid() && g.size == Size(version)
    requires forall u, v :: InGrid(g.size, u, v) ==> !g.Dark(u, v) && !g.Taken(u, v)
    modifies g.modules, g.reserved
    ensures forall u, v :: InGrid(g.size, u, v) ==> g.Dark(u, v) == FunctionDark(version, u, v)
    ensures forall u, v :: InGrid(g.size, u, v) ==> g.Taken(u, v) == Reserved(version, u, v)
  {
    hide FinderDark, TimingDark, AlignmentDark, InAlignment, VersionDark, InVersion, InTiming, InFormat;
    PlaceFinder(g, 0, 0);
    PlaceFinder(g, g.size - 7, 0);
    PlaceFinder(g, 0, g.size - 7);
    PlaceTiming(g);
    PlaceAlignments(g, version);
    ReserveFormat(g);
    PlaceVersion(g, version);
  }

  method ComputeFormatWord(level: EcLevel, mask: Mask) returns (bits: bv16)
    ensures bits == FormatWord(level, mask) == PublishedFormat(level, mask)
  {
    FormatIsPublished(level, mask);
    var data := (EcBits(level) << 3) | mask as bv16;
    FormatDataRange(level, mask);
    RoundsAreDivision(data);
    hide Round, FormatRemainder;
    var value := data;
    for i := 0 to 10
      invariant value == Rounds(data, i)
    {
      value := Round(value);
    }
    bits := ((data << 10) | value) ^ FORMAT_MASK;
  }

  lemma FormatDataRange(level: EcLevel, mask: Mask)
    ensures FormatData(level, mask) < 32
  {
    assert mask as bv16 < 8;
  }

  /** Overwrites the format strips, which are reserved already, and nothing else: not the dark
      module, and no module's reservation. */
  method PlaceFormat(g: Grid, level: EcLevel, mask: Mask)
    requires g.Valid() && g.size >= 21
    requires forall u, v :: InGrid(g.size, u, v) && HoldsFormat(g.size, u, v) ==> g.Taken(u, v)
    modifies g.modules, g.reserved
    ensures forall u, v :: InGrid(g.size, u, v) ==>
              g.Dark(u, v) == if HoldsFormat(g.size, u, v)
                              then FormatBits(level, mask)[FormatIndex(g.size, u, v)] else old(g.Dark(u, v))
    ensures forall u, v :: InGrid(g.size, u, v) ==> g.Taken(u, v) == old(g.Taken(u, v))
  {
    hide FormatWord, LowBits, ShiftBit;
    var bits := ComputeFormatWord(level, mask);
    for i := 0 to 15
      invariant forall u, v :: InGrid(g.size, u, v) ==>
                  g.Dark(u, v) == if HoldsFormat(g.size, u, v) && FormatIndex(g.size, u, v) < i
                                  then FormatBits(level, mask)[FormatIndex(g.size, u, v)] else old(g.Dark(u, v))
      invariant forall u, v :: InGrid(g.size, u, v) ==> g.Taken(u, v) == old(g.Taken(u, v))
    {
      LowBitsAt(bits, 15, i);
      var dark := ShiftBit(bits, i);
      if i < 6 {
        g.Set(8, i, dark);
      } else if i < 8 {
        g.Set(8, i + 1, dark);
      } else if i == 8 {
        g.Set(7, 8, dark);
      } else {
        g.Set(14 - i, 8, dark);
      }
      if i < 8 {
        g.Set(g.size - 1 - i, 8, dark);
      } else {
        g.Set(8, g.size - 15 + i, dark);
      }
    }
  }

  // ----- data placement -----

  lemma {:induction false} PairPathPrefix(size: nat, p: nat, s: nat, n: nat)
    requires s <= n
    ensures PairPath(size, p, s) <= PairPath(size, p, n)
  {
    if s == n {
    } else {
      PairPathPrefix(size, p, s, n - 1);
    }
  }

  /** The part of the zigzag before module `k` of step `s` of pair `p`. */
  function Walked(size: nat, p: nat, s: nat, k: nat): seq<Pos>
    requires k <= 2
  {
    Path(size, p) + PairPath(size, p, s) + Step(size, p, s)[..k]
  }

  /** The next module is in the grid and has not been visited. */
  lemma NextModule(size: nat, p: nat, s: nat, k: nat)
    requires size % 2 == 1 && size >= 21 && p < (size - 1) / 2 && s < size && k < 2
    ensures var c := Step(size, p, s)[k];
            Walked(size, p, s, k + 1) == Walked(size, p, s, k) + [c] && c !in Walked(size, p, s, k)
            && InGrid(size, c.x, c.y)
  {
    var c, walked := Step(size, p, s)[k], Walked(size, p, s, k);
    hide Step, Distinct;
    PathDistinct(size, p + 1);
    WalkedPrefix(size, p, s, k);
    NotYet(walked, c, Path(size, p + 1));
    InPath(size, p + 1, c);
    assert Step(size, p, s)[..k + 1] == Step(size, p, s)[..k] + [c];
  }

  lemma WalkedPrefix(size: nat, p: nat, s: nat, k: nat)
    requires s < size && k < 2
    ensures Walked(size, p, s, k) + [Step(size, p, s)[k]] <= Path(size, p + 1)
  {
    hide Step;
    var before, pair, step := Path(size, p), PairPath(size, p, size), Step(size, p, s);
    PairPathPrefix(size, p, s + 1, size);
    assert Path(size, p + 1) == before + pair;
    assert PairPath(size, p, s) + step <= pair;
    assert PairPath(size, p, s) + (step[..k] + [step[k]]) <= PairPath(size, p, s) + step;
    assert Walked(size, p, s, k) + [step[k]] == before + (PairPath(size, p, s) + (step[..k] + [step[k]]));
  }

  lemma NotYet<T>(walked: seq<T>, c: T, whole: seq<T>)
    requires walked + [c] <= whole && Distinct(whole)
    ensures c !in walked && c in whole
  {
    assert whole[|walked|] == c;
    forall j | 0 <= j < |walked| ensures walked[j] != c {
      assert walked[j] == whole[j];
    }
  }

  lemma WalkOn(size: nat, p: nat, s: nat)
    ensures Walked(size, p, s, 2) == Walked(size, p, s + 1, 0)
    ensures Walked(size, p, 0, 0) == Path(size, p)
    ensures Path(size, 0) == []
    ensures Walked(size, p, size, 0) == Path(size, p + 1)
  {}

  ghost predicate Filled(g: Grid, version: Version, codewords: seq<bv8>, mask: Mask, cells: seq<Pos>)
    requires g.Valid() && g.size == Size(version)
    reads g.modules
  {
    forall i :: 0 <= i < |cells| && InGrid(g.size, cells[i].x, cells[i].y) ==>
      g.Dark(cells[i].x, cells[i].y) == (DataBit(codewords, i) != MaskBit(mask, cells[i].x, cells[i].y))
  }

  method PlaceData(g: Grid, version: Version, codewords: seq<bv8>, mask: Mask)
    requires g.Valid() && g.size == Size(version)
    requires forall u, v :: InGrid(g.size, u, v) ==> g.Taken(u, v) == Reserved(version, u, v)
    modifies g.modules
    ensures Filled(g, version, codewords, mask, FreeCells(version))
    ensures forall u, v :: InGrid(g.size, u, v) && Reserved(version, u, v) ==> g.Dark(u, v) == old(g.Dark(u, v))
  {
    hide Reserved, Path, PairPath, Step, Filled, Walked, Free;
    FreeCellsAre(version);
    var size := g.size;
    var bit := 0;
    var upward := true;
    var right: int := size - 1;
    ghost var p: int := 0;
    WalkOn(size, 0, 0);
    NothingFilled(g, version, codewords, mask);
    while right >= 1
      invariant 0 <= p <= (size - 1) / 2 && upward == (p % 2 == 0)
      invariant right == if size - 1 - 2 * p >= 6 then size - 1 - 2 * p else size - 2 - 2 * p
      invariant bit == |Free(version, Path(size, p))|
      invariant Filled(g, version, codewords, mask, Free(version, Path(size, p)))
      invariant forall u, v :: InGrid(size, u, v) && Reserved(version, u, v) ==> g.Dark(u, v) == old(g.Dark(u, v))
      decreases right
    {
      if right == 6 {
        right := 5;
      }
      WalkOn(size, p, 0);
      bit := PlacePair(g, version, codewords, mask, right, upward, bit, p);
      WalkOn(size, p, 0);
      upward := !upward;
      right := right - 2;
      p := p + 1;
    }
  }

  /** One pair of columns, walked up or down. */
  method PlacePair(g: Grid, version: Version, codewords: seq<bv8>, mask: Mask, right: int, upward: bool, bit: nat, ghost p: nat)
    returns (next: nat)
    requires g.Valid() && g.size == Size(version) && p < (g.size - 1) / 2
    requires right == PairRight(g.size, p) && upward == (p % 2 == 0)
    requires forall u, v :: InGrid(g.size, u, v) ==> g.Taken(u, v) == Reserved(version, u, v)
    requires bit == |Free(version, Walked(g.size, p, 0, 0))|
    requires Filled(g, version, codewords, mask, Free(version, Walked(g.size, p, 0, 0)))
    modifies g.modules
    ensures next == |Free(version, Walked(g.size, p, g.size, 0))|
    ensures Filled(g, version, codewords, mask, Free(version, Walked(g.size, p, g.size, 0)))
    ensures forall u, v :: InGrid(g.size, u, v) && Reserved(version, u, v) ==> g.Dark(u, v) == old(g.Dark(u, v))
  {
    hide Reserved, Path, PairPath, Step, Filled, Walked, Free, PairRight;
    next := bit;
    for step := 0 to g.size
      invariant next == |Free(version, Walked(g.size, p, step, 0))|
      invariant Filled(g, version, codewords, mask, Free(version, Walked(g.size, p, step, 0)))
      invariant forall u, v :: InGrid(g.size, u, v) && Reserved(version, u, v) ==> g.Dark(u, v) == old(g.Dark(u, v))
    {
      var y := if upward then g.size - 1 - step else step;
      for k := 0 to 2
        invariant next == |Free(version, Walked(g.size, p, step, k))|
        invariant Filled(g, version, codewords, mask, Free(version, Walked(g.size, p, step, k)))
        invariant forall u, v :: InGrid(g.size, u, v) && Reserved(version, u, v) ==> g.Dark(u, v) == old(g.Dark(u, v))
      {
        NextVisit(g.size, p, step, k);
        next := PlaceModule(g, version, codewords, mask, right - k, y, next, Walked(g.size, p, step, k));
      }
      WalkOn(g.size, p, step);
    }
  }

  lemma FreeCellsAre(version: Version)
    ensures FreeCells(version) == Free(version, Path(Size(version), Pairs(version)))
  {}

  lemma NothingFilled(g: Grid, version: Version, codewords: seq<bv8>, mask: Mask)
    requires g.Valid() && g.size == Size(version)
    ensures Free(version, []) == [] && Filled(g, version, codewords, mask, [])
  {}

  /** One module of the walk: skipped if it is reserved, else the next bit, masked. */
  method PlaceModule(g: Grid, version: Version, codewords: seq<bv8>, mask: Mask, x: int, y: int, bit: nat, ghost walked: seq<Pos>)
    returns (next: nat)
    requires g.Valid() && g.size == Size(version) && InGrid(g.size, x, y)
    requires g.Taken(x, y) == Reserved(version, x, y)
    requires Pos(x, y) !in walked && bit == |Free(version, walked)|
    requires Filled(g, version, codewords, mask, Free(version, walked))
    modifies g.modules
    ensures next == |Free(version, walked + [Pos(x, y)])|
    ensures Filled(g, version, codewords, mask, Free(version, walked + [Pos(x, y)]))
    ensures forall u, v :: InGrid(g.size, u, v) && Reserved(version, u, v) ==> g.Dark(u, v) == old(g.Dark(u, v))
  {
    hide Reserved, DataBit, MaskBit, Free;
    FreeNext(version, walked, Pos(x, y));
    next := bit;
    if !g.Taken(x, y) {
      var byte := if bit / 8 < |codewords| then codewords[bit / 8] else 0;
      var dark := Shr(byte as int, 7 - bit % 8) % 2 == 1;
      DataBitIsShift(codewords, bit);
      g.SetData(x, y, dark != MaskBit(mask, x, y));
      next := bit + 1;
    }
  }

  lemma NextVisit(size: nat, p: nat, s: nat, k: nat)
    requires size % 2 == 1 && size >= 21 && p < (size - 1) / 2 && s < size && k < 2
    ensures var c := Pos(PairRight(size, p) - k, if p % 2 == 0 then size - 1 - s else s);
            && Walked(size, p, s, k + 1) == Walked(size, p, s, k) + [c] && c !in Walked(size, p, s, k)
            && InGrid(size, c.x, c.y)
  {
    hide Walked, PairRight;
    StepAt(size, p, s, k);
    NextModule(size, p, s, k);
  }

  lemma StepAt(size: nat, p: nat, s: nat, k: nat)
    requires k < 2
    ensures Step(size, p, s)[k] == Pos(PairRight(size, p) - k, if p % 2 == 0 then size - 1 - s else s)
  {}

  lemma FreeNext(version: Version, walked: seq<Pos>, c: Pos)
    requires c !in walked
    ensures Free(version, walked + [c]) == Free(version, walked) + if Reserved(version, c.x, c.y) then [] else [c]
    ensures c !in Free(version, walked)
  {
    assert (walked + [c])[..|walked|] == walked;
    InFree(version, walked, c);
  }
}
