/** What a finished symbol looks like, module by module, as ISO/IEC 18004 draws it: the picture
    that the writes of packages/designer-runtime/src/qr.ts:182-298 are proved to leave. */
module SymbolPicture {
  import opened Capacity
  import opened BitStream
  import opened SymbolLayout
  import opened FormatWords

  // ----- function patterns -----

  /** Rings of a pattern around its centre: ring 0 is the centre module. */
  function Ring(dx: int, dy: int): nat { Max(Abs(dx), Abs(dy)) }

  /** A finder is dark but for its ring 2; ring 4 is the separator. */
  predicate FinderDark(size: nat, x: int, y: int) {
    var ring := Ring(x - if x < 8 then 3 else size - 4, y - if y < 8 then 3 else size - 4);
    ring != 2 && ring <= 3
  }

  predicate TimingDark(x: int, y: int) {
    (if y == 6 then x else y) % 2 == 0
  }

  ghost predicate AlignmentDark(version: Version, x: int, y: int) {
    exists cx, cy :: Covers(version, cx, cy, x, y) && Ring(x - cx, y - cy) != 1
  }

  predicate VersionBit(version: Version, i: nat)
    requires i < 18
  {
    WordBit(VersionWord(version), i)
  }

  predicate WordBit(word: bv32, i: nat)
    requires i < 32
  {
    (word >> i) & 1 == 1
  }

  /** The two copies of the version word, three modules wide, transposes of each other. */
  /** The eighteen bits of annex D of ISO/IEC 18004:2015, the highest first. */
  function PublishedVersion(version: Version): (bits: string)
    requires version >= 7
    ensures |bits| == 18
  {
    match version
    case 7 => "000111110010010100"
    case 8 => "001000010110111100"
    case 9 => "001001101010011001"
    case 10 => "001010010011010011"
  }

  /** The bits that are printed are those. */
  lemma VersionBitIsPublished(version: Version, i: nat)
    requires version >= 7 && i < 18
    ensures VersionBit(version, i) <==> PublishedVersion(version)[17 - i] == '1'
  {
    VersionValues();
    hide VersionWord;
    match version {
      case 7 => Bits7(i);
      case 8 => Bits8(i);
      case 9 => Bits9(i);
      case 10 => Bits10(i);
    }
  }

  lemma Bits7(i: nat)
    requires i < 18
    ensures WordBit(0x7c94, i) <==> PublishedVersion(7)[17 - i] == '1'
  {
    match i
    case 0 => case 1 => case 2 => case 3 => case 4 => case 5 => case 6 => case 7 => case 8 => case 9 =>
    case 10 => case 11 => case 12 => case 13 => case 14 => case 15 => case 16 => case 17 =>
  }

  lemma Bits8(i: nat)
    requires i < 18
    ensures WordBit(0x85bc, i) <==> PublishedVersion(8)[17 - i] == '1'
  {
    match i
    case 0 => case 1 => case 2 => case 3 => case 4 => case 5 => case 6 => case 7 => case 8 => case 9 =>
    case 10 => case 11 => case 12 => case 13 => case 14 => case 15 => case 16 => case 17 =>
  }

  lemma Bits9(i: nat)
    requires i < 18
    ensures WordBit(0x9a99, i) <==> PublishedVersion(9)[17 - i] == '1'
  {
    match i
    case 0 => case 1 => case 2 => case 3 => case 4 => case 5 => case 6 => case 7 => case 8 => case 9 =>
    case 10 => case 11 => case 12 => case 13 => case 14 => case 15 => case 16 => case 17 =>
  }

  lemma Bits10(i: nat)
    requires i < 18
    ensures WordBit(0xa4d3, i) <==> PublishedVersion(10)[17 - i] == '1'
  {
    match i
    case 0 => case 1 => case 2 => case 3 => case 4 => case 5 => case 6 => case 7 => case 8 => case 9 =>
    case 10 => case 11 => case 12 => case 13 => case 14 => case 15 => case 16 => case 17 =>
  }

  predicate VersionDark(version: Version, x: int, y: int)
    requires InGrid(Size(version), x, y) && InVersion(version, x, y)
  {
    VersionBit(version, VersionIndex(version, x, y))
  }

  function VersionIndex(version: Version, x: int, y: int): (i: nat)
    requires InGrid(Size(version), x, y) && InVersion(version, x, y)
    ensures i < 18
  {
    var far := Size(version) - 11;
    if x < 6 then 3 * x + y - far else 3 * y + x - far
  }

  /** The function patterns: where two overlap, the one placed last. */
  ghost predicate FunctionDark(version: Version, x: int, y: int)
    requires InGrid(Size(version), x, y)
  {
    var size := Size(version);
    if InVersion(version, x, y) then VersionDark(version, x, y)
    else if InFormat(size, x, y) then x == 8 && y == size - 8
    else if InAlignment(version, x, y) then AlignmentDark(version, x, y)
    else if InTiming(size, x, y) then TimingDark(x, y)
    else InFinder(size, x, y) && FinderDark(size, x, y)
  }

  // ----- the format strips -----

  /** The copy around the top-left finder. */
  function Copy1(i: nat): Pos
    requires i < 15
  {
    if i < 6 then Pos(8, i) else if i < 8 then Pos(8, i + 1) else if i == 8 then Pos(7, 8) else Pos(14 - i, 8)
  }

  /** The copy split between the other two. */
  function Copy2(size: nat, i: nat): Pos
    requires i < 15
  {
    if i < 8 then Pos(size - 1 - i, 8) else Pos(8, size - 15 + i)
  }

  /** The format strips less the dark module. */
  predicate HoldsFormat(size: nat, x: int, y: int) {
    InFormat(size, x, y) && !(x == 8 && y == size - 8)
  }

  /** The bit of the format word that a strip module holds. */
  function FormatIndex(size: nat, x: int, y: int): (i: nat)
    requires size >= 21 && InGrid(size, x, y) && HoldsFormat(size, x, y)
    ensures i < 15
  {
    if x == 8 then (if y < 6 then y else if y < 9 then y - 1 else y - size + 15)
    else (if x < 6 then 14 - x else if x == 7 then 8 else size - 1 - x)
  }

  /** Both copies lie on reserved modules, side by side, clear of the dark module, and each
      strip module holds one bit of one copy. */
  lemma FormatStrips(size: nat, i: nat)
    requires size >= 21 && i < 15
    ensures forall c :: c == Copy1(i) || c == Copy2(size, i) ==>
              InGrid(size, c.x, c.y) && HoldsFormat(size, c.x, c.y) && FormatIndex(size, c.x, c.y) == i
    ensures Copy1(i) != Copy2(size, i)
  {}

  lemma StripsAreCopies(size: nat, x: int, y: int)
    requires size >= 21 && InGrid(size, x, y) && HoldsFormat(size, x, y)
    ensures var i := FormatIndex(size, x, y); Pos(x, y) == Copy1(i) || Pos(x, y) == Copy2(size, i)
  {}

  // ----- data and mask -----

  predicate MaskBit(mask: Mask, x: nat, y: nat) {
    match mask
    case 0 => (x + y) % 2 == 0
    case 1 => y % 2 == 0
    case 2 => x % 3 == 0
    case 3 => (x + y) % 3 == 0
    case 4 => (y / 2 + x / 3) % 2 == 0
    case 5 => (x * y) % 2 + (x * y) % 3 == 0
    case 6 => ((x * y) % 2 + (x * y) % 3) % 2 == 0
    case 7 => ((x + y) % 2 + (x * y) % 3) % 2 == 0
  }

  /** Bit `i` of the codewords; zero past their end. */
  predicate DataBit(codewords: seq<bv8>, i: nat) {
    i / 8 < |codewords| && BitsOf(codewords[i / 8])[i % 8]
  }

  /** ... that is, `(codewords[i >> 3] >> (7 - (i & 7))) & 1`. */
  lemma DataBitIsShift(codewords: seq<bv8>, i: nat)
    ensures DataBit(codewords, i) <==> Shr((if i / 8 < |codewords| then codewords[i / 8] else 0) as int, 7 - i % 8) % 2 == 1
  {
    var byte := if i / 8 < |codewords| then codewords[i / 8] else 0;
    ToBitsAt(byte as int, 8, i % 8);
    ShrZero(7 - i % 8);
  }

  lemma {:induction false} ShrZero(n: nat)
    ensures Shr(0, n) == 0
  {
    if n == 0 {
    } else {
      ShrZero(n - 1);
    }
  }

  function IndexOf(cells: seq<Pos>, c: Pos): (i: nat)
    requires c in cells
    ensures i < |cells| && cells[i] == c
  {
    if cells[0] == c then 0 else 1 + IndexOf(cells[1..], c)
  }

  lemma FreeHasIndex(version: Version, x: int, y: int)
    requires InGrid(Size(version), x, y) && !Reserved(version, x, y)
    ensures Pos(x, y) in FreeCells(version)
  {
    FreeCell(version, x, y);
  }

  /** The whole symbol. */
  ghost predicate SymbolDark(version: Version, level: EcLevel, mask: Mask, codewords: seq<bv8>, x: int, y: int)
    requires InGrid(Size(version), x, y)
  {
    var size := Size(version);
    if HoldsFormat(size, x, y) then FormatBits(level, mask)[FormatIndex(size, x, y)]
    else if Reserved(version, x, y) then FunctionDark(version, x, y)
    else
      FreeHasIndex(version, x, y);
      DataBit(codewords, IndexOf(FreeCells(version), Pos(x, y))) != MaskBit(mask, x, y)
  }

  /** The symbol row by row, as `encodeQr` returns it. */
  ghost function Symbol(version: Version, level: EcLevel, mask: Mask, codewords: seq<bv8>): (dark: seq<bool>)
    ensures |dark| == Size(version) * Size(version)
  {
    var size := Size(version);
    seq(size * size, k requires 0 <= k < size * size =>
      RowOf(size, k);
      SymbolDark(version, level, mask, codewords, k % size, k / size))
  }

  lemma RowOf(size: nat, k: nat)
    requires size > 0 && k < size * size
    ensures InGrid(size, k % size, k / size) && k / size * size + k % size == k
  {
    MulMonotone(size, k / size, size);
  }

  lemma MulMonotone(a: int, b: int, d: nat)
    ensures a <= b ==> a * d <= b * d
  {}

  /** The module at `(x, y)` of a symbol listed row by row. */
  predicate At(dark: seq<bool>, size: nat, x: int, y: int)
    requires |dark| == size * size && InGrid(size, x, y)
  {
    Inside(size, x, y);
    dark[y * size + x]
  }

  lemma Inside(size: nat, x: int, y: int)
    requires InGrid(size, x, y)
    ensures 0 <= y * size + x < size * size
  {
    MulMonotone(y, size - 1, size);
  }

  lemma SymbolAt(version: Version, level: EcLevel, mask: Mask, codewords: seq<bv8>, x: int, y: int)
    requires InGrid(Size(version), x, y)
    ensures At(Symbol(version, level, mask, codewords), Size(version), x, y) == SymbolDark(version, level, mask, codewords, x, y)
  {
    var size := Size(version);
    var k := y * size + x;
    Inside(size, x, y);
    DivUnique(k, size, y, x);
  }

  lemma DivUnique(k: int, size: int, y: int, x: int)
    requires k == y * size + x && 0 <= x < size
    ensures k / size == y && k % size == x
  {
    var q, r := k / size, k % size;
    assert (y - q) * size == r - x;
    MulMonotone(1, y - q, size);
    MulMonotone(y - q, -1, size);
  }
}
