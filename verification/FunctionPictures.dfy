/** The function patterns of a symbol as section 6.3 of ISO/IEC 18004:2015 draws them, and the proof that the
    rings and parities of packages/designer-runtime/src/qr.ts:188-233 draw the same. */
module FunctionPictures {
  import opened Capacity
  import opened SymbolLayout
  import opened FormatWords
  import opened SymbolPicture
  import Grids

  /** The finder pattern of the upper left corner with its separator; the other two are its mirror images. */
  const FINDER: seq<string> := [
    "#######.",
    "#.....#.",
    "#.###.#.",
    "#.###.#.",
    "#.###.#.",
    "#.....#.",
    "#######.",
    "........"
  ]

  const CENTRED: seq<string> := [
    "#####",
    "#...#",
    "#.#.#",
    "#...#",
    "#####"
  ]

  lemma FinderIsDrawn(size: nat, x: nat, y: nat)
    requires size >= 21 && x < 8 && y < 8
    ensures FinderDark(size, x, y) <==> FINDER[y][x] == '#'
    ensures FinderDark(size, size - 1 - x, y) <==> FINDER[y][x] == '#'
    ensures FinderDark(size, x, size - 1 - y) <==> FINDER[y][x] == '#'
  {
    match y case 0 => case 1 => case 2 => case 3 => case 4 => case 5 => case 6 => case 7 =>
  }

  lemma RingIsDrawn(dx: int, dy: int)
    requires -2 <= dx <= 2 && -2 <= dy <= 2
    ensures Ring(dx, dy) != 1 <==> CENTRED[dy + 2][dx + 2] == '#'
  {
    match dy case -2 => case -1 => case 0 => case 1 => case 2 =>
  }

  /** The three corners of every symbol. */
  lemma FinderCorners(version: Version, level: EcLevel, mask: Mask, codewords: seq<bv8>, x: nat, y: nat)
    requires x < 8 && y < 8
    ensures var dark, size := Symbol(version, level, mask, codewords), Size(version);
      && (At(dark, size, x, y) <==> FINDER[y][x] == '#')
      && (At(dark, size, size - 1 - x, y) <==> FINDER[y][x] == '#')
      && (At(dark, size, x, size - 1 - y) <==> FINDER[y][x] == '#')
  {
    hide Symbol, At, FormatBits, FreeCells, MaskBit, DataBit, IndexOf, VersionDark, AlignmentDark, FinderDark;
    var size := Size(version);
    FinderIsDrawn(size, x, y);
    InCorner(version, level, mask, codewords, x, y);
    InCorner(version, level, mask, codewords, size - 1 - x, y);
    InCorner(version, level, mask, codewords, x, size - 1 - y);
  }

  lemma InCorner(version: Version, level: EcLevel, mask: Mask, codewords: seq<bv8>, x: nat, y: nat)
    requires InGrid(Size(version), x, y) && InFinder(Size(version), x, y)
    ensures At(Symbol(version, level, mask, codewords), Size(version), x, y) == FinderDark(Size(version), x, y)
  {
    hide Symbol, At, FormatBits, FreeCells, MaskBit, DataBit, IndexOf, VersionDark, AlignmentDark, FinderDark;
    SymbolAt(version, level, mask, codewords, x, y);
    NoAlignmentInFinder(version, x, y);
  }

  lemma NoAlignmentInFinder(version: Version, x: int, y: int)
    requires InFinder(Size(version), x, y) && InGrid(Size(version), x, y)
    ensures !InAlignment(version, x, y)
  {
    AlignmentCentres(version);
  }

  /** Every alignment pattern off the finders. */
  lemma AlignmentSquares(version: Version, level: EcLevel, mask: Mask, codewords: seq<bv8>, cx: int, cy: int, dx: int, dy: int)
    requires cx in ALIGNMENT[version] && cy in ALIGNMENT[version] && !OnFinder(Size(version), cx, cy)
    requires -2 <= dx <= 2 && -2 <= dy <= 2
    ensures InGrid(Size(version), cx + dx, cy + dy)
    ensures At(Symbol(version, level, mask, codewords), Size(version), cx + dx, cy + dy) <==> CENTRED[dy + 2][dx + 2] == '#'
  {
    hide Symbol, At, FormatBits, FreeCells, MaskBit, DataBit, IndexOf, VersionDark, AlignmentDark, FinderDark, Ring;
    var x, y := cx + dx, cy + dy;
    assert Covers(version, cx, cy, x, y);
    AlignmentAlone(version, cx, cy, x, y);
    SymbolAt(version, level, mask, codewords, x, y);
    Grids.AlignmentRing(version, cx, cy, x, y);
    RingIsDrawn(dx, dy);
  }

  lemma AlignmentAlone(version: Version, cx: int, cy: int, x: int, y: int)
    requires Covers(version, cx, cy, x, y)
    ensures InGrid(Size(version), x, y) && !InVersion(version, x, y) && !InFormat(Size(version), x, y)
  {
    AlignmentCentres(version);
  }

  /** The two timing lines alternate from finder to finder, through the alignment patterns that lie on them. */
  lemma TimingLines(version: Version, level: EcLevel, mask: Mask, codewords: seq<bv8>, k: nat)
    requires 8 <= k < Size(version) - 8
    ensures var dark, size := Symbol(version, level, mask, codewords), Size(version);
      (At(dark, size, k, 6) <==> k % 2 == 0) && (At(dark, size, 6, k) <==> k % 2 == 0)
  {
    hide Symbol, At, FormatBits, FreeCells, MaskBit, DataBit, IndexOf, VersionDark, AlignmentDark, FinderDark;
    SymbolAt(version, level, mask, codewords, k, 6);
    SymbolAt(version, level, mask, codewords, 6, k);
    if InAlignment(version, k, 6) {
      TimingThroughAlignment(version, k, 6);
    }
    if InAlignment(version, 6, k) {
      TimingThroughAlignment(version, 6, k);
    }
  }

  lemma TimingThroughAlignment(version: Version, x: int, y: int)
    requires InTiming(Size(version), x, y) && InAlignment(version, x, y)
    ensures AlignmentDark(version, x, y) <==> (if y == 6 then x else y) % 2 == 0
  {
    hide AlignmentDark;
    var cx, cy :| Covers(version, cx, cy, x, y);
    AlignmentCentres(version);
    Grids.AlignmentRing(version, cx, cy, x, y);
  }

  /** The dark module. */
  lemma DarkModule(version: Version, level: EcLevel, mask: Mask, codewords: seq<bv8>)
    ensures At(Symbol(version, level, mask, codewords), Size(version), 8, Size(version) - 8)
  {
    hide Symbol, At, FormatBits, FreeCells, MaskBit, DataBit, IndexOf;
    SymbolAt(version, level, mask, codewords, 8, Size(version) - 8);
  }
}
