/** The capacity tables for versions 1-10 (packages/designer-runtime/src/qr.ts:95-123). */
module Capacity {
  datatype EcLevel = L | M | Q | H

  /** Error-correction words per block, and the two groups of blocks: how many, and how many
      data words each. */
  datatype Spec = Spec(ec: nat, g1: nat, w1: nat, g2: nat, w2: nat)

  type Version = v: int | 1 <= v <= 10 witness 1

  const SPECS_L := [
    Spec(7, 1, 19, 0, 0), Spec(10, 1, 34, 0, 0), Spec(15, 1, 55, 0, 0), Spec(20, 1, 80, 0, 0), Spec(26, 1, 108, 0, 0),
    Spec(18, 2, 68, 0, 0), Spec(20, 2, 78, 0, 0), Spec(24, 2, 97, 0, 0), Spec(30, 2, 116, 0, 0), Spec(18, 2, 68, 2, 69)
  ]
  const SPECS_M := [
    Spec(10, 1, 16, 0, 0), Spec(16, 1, 28, 0, 0), Spec(26, 1, 44, 0, 0), Spec(18, 2, 32, 0, 0), Spec(24, 2, 43, 0, 0),
    Spec(16, 4, 27, 0, 0), Spec(18, 4, 31, 0, 0), Spec(22, 2, 38, 2, 39), Spec(22, 3, 36, 2, 37), Spec(26, 4, 43, 1, 44)
  ]
  const SPECS_Q := [
    Spec(13, 1, 13, 0, 0), Spec(22, 1, 22, 0, 0), Spec(18, 2, 17, 0, 0), Spec(26, 2, 24, 0, 0), Spec(18, 2, 15, 2, 16),
    Spec(24, 4, 19, 0, 0), Spec(18, 2, 14, 4, 15), Spec(22, 4, 18, 2, 19), Spec(20, 4, 16, 4, 17), Spec(24, 6, 19, 2, 20)
  ]
  const SPECS_H := [
    Spec(17, 1, 9, 0, 0), Spec(28, 1, 16, 0, 0), Spec(22, 2, 13, 0, 0), Spec(16, 4, 9, 0, 0), Spec(22, 2, 11, 2, 12),
    Spec(28, 4, 15, 0, 0), Spec(26, 4, 13, 1, 14), Spec(26, 4, 14, 2, 15), Spec(24, 4, 12, 4, 13), Spec(28, 6, 15, 2, 16)
  ]

  function SpecOf(version: Version, level: EcLevel): Spec {
    match level
    case L => SPECS_L[version - 1]
    case M => SPECS_M[version - 1]
    case Q => SPECS_Q[version - 1]
    case H => SPECS_H[version - 1]
  }

  function DataCapacity(version: Version, level: EcLevel): nat {
    var s := SpecOf(version, level);
    s.g1 * s.w1 + s.g2 * s.w2
  }

  /** Words in a whole symbol, data and error correction: fixed by the version alone. */
  function TotalWords(version: Version): nat {
    [26, 44, 70, 100, 134, 172, 196, 242, 292, 346][version - 1]
  }

  /** Every row of the table fills its version's symbol exactly, whatever the level; its blocks
      are short enough for the code to correct; and it carries error correction. */
  lemma RowsFillTheSymbol(version: Version, level: EcLevel)
    ensures var s := SpecOf(version, level);
            && DataCapacity(version, level) + s.ec * (s.g1 + s.g2) == TotalWords(version)
            && s.g1 > 0 && s.ec > 0
            && s.w1 + s.ec <= 255 && s.w2 + s.ec <= 255
            && (s.g2 > 0 ==> s.w2 == s.w1 + 1)
  {
    match level {
      case L => RowsL(version);
      case M => RowsM(version);
      case Q => RowsQ(version);
      case H => RowsH(version);
    }
  }

  ghost predicate GoodRow(s: Spec, total: nat) {
    && s.g1 * s.w1 + s.g2 * s.w2 + s.ec * (s.g1 + s.g2) == total
    && s.g1 > 0 && s.ec > 0
    && s.w1 + s.ec <= 255 && s.w2 + s.ec <= 255
    && (s.g2 > 0 ==> s.w2 == s.w1 + 1)
  }

  lemma RowsL(version: Version)
    ensures GoodRow(SpecOf(version, L), TotalWords(version))
  {
    match version case 1 => case 2 => case 3 => case 4 => case 5 => case 6 => case 7 => case 8 => case 9 => case 10 =>
  }

  lemma RowsM(version: Version)
    ensures GoodRow(SpecOf(version, M), TotalWords(version))
  {
    match version case 1 => case 2 => case 3 => case 4 => case 5 => case 6 => case 7 => case 8 => case 9 => case 10 =>
  }

  lemma RowsQ(version: Version)
    ensures GoodRow(SpecOf(version, Q), TotalWords(version))
  {
    match version case 1 => case 2 => case 3 => case 4 => case 5 => case 6 => case 7 => case 8 => case 9 => case 10 =>
  }

  lemma RowsH(version: Version)
    ensures GoodRow(SpecOf(version, H), TotalWords(version))
  {
    match version case 1 => case 2 => case 3 => case 4 => case 5 => case 6 => case 7 => case 8 => case 9 => case 10 =>
  }

  // ----- the same table from the standard's two columns -----

  /** All error-correction words of a symbol (table 9 of ISO/IEC 18004:2015). */
  function PublishedEcWords(version: Version, level: EcLevel): nat {
    match level
    case L => [7, 10, 15, 20, 26, 36, 40, 48, 60, 72][version - 1]
    case M => [10, 16, 26, 36, 48, 64, 72, 88, 110, 130][version - 1]
    case Q => [13, 22, 36, 52, 72, 96, 108, 132, 160, 192][version - 1]
    case H => [17, 28, 44, 64, 88, 112, 130, 156, 192, 224][version - 1]
  }

  /** How many blocks they protect. */
  function PublishedBlocks(version: Version, level: EcLevel): (n: nat)
    ensures n > 0
  {
    match level
    case L => [1, 1, 1, 1, 1, 2, 2, 2, 2, 4][version - 1]
    case M => [1, 1, 1, 2, 2, 4, 4, 4, 5, 5][version - 1]
    case Q => [1, 1, 2, 2, 4, 4, 6, 6, 8, 8][version - 1]
    case H => [1, 1, 2, 4, 4, 4, 5, 6, 8, 8][version - 1]
  }

  /** As many words to each block as can be, the longer blocks last. */
  function EvenSplit(data: nat, ec: nat, blocks: nat): Spec
    requires blocks > 0
  {
    var longer := data % blocks;
    Spec(ec / blocks, blocks - longer, data / blocks, longer, if longer == 0 then 0 else data / blocks + 1)
  }

  function PublishedSpec(version: Version, level: EcLevel): Spec {
    var ec := PublishedEcWords(version, level);
    EvenSplit(if ec <= TotalWords(version) then TotalWords(version) - ec else 0, ec, PublishedBlocks(version, level))
  }

  lemma SplitIs(s: Spec, data: nat)
    requires s.g1 > 0 && data == s.g1 * s.w1 + s.g2 * s.w2 && s.w2 == if s.g2 == 0 then 0 else s.w1 + 1
    ensures EvenSplit(data, s.ec * (s.g1 + s.g2), s.g1 + s.g2) == s
  {
    var n := s.g1 + s.g2;
    assert data == n * s.w1 + s.g2;
    DivideExactly(data, n, s.w1, s.g2);
    DivideExactly(s.ec * n, n, s.ec, 0);
  }

  lemma DivideExactly(a: nat, n: nat, q: nat, r: nat)
    requires r < n && a == n * q + r
    ensures a / n == q && a % n == r
  {
    var d := a / n - q;
    assert a == n * (a / n) + a % n;
    assert n * d == r - a % n;
    LeastMultiple(n, d);
  }

  lemma LeastMultiple(n: nat, d: int)
    ensures (d > 0 ==> n * d >= n) && (d < 0 ==> n * d + n <= 0)
  {}

  /** Every row of the source's table is the even split of what the version leaves for data. */
  lemma RowsAreEvenSplits(version: Version, level: EcLevel)
    ensures SpecOf(version, level) == PublishedSpec(version, level)
  {
    RowsFillTheSymbol(version, level);
    match level {
      case L => ColumnsL(version);
      case M => ColumnsM(version);
      case Q => ColumnsQ(version);
      case H => ColumnsH(version);
    }
    hide SpecOf, TotalWords, PublishedEcWords, PublishedBlocks, EvenSplit;
    SplitIs(SpecOf(version, level), DataCapacity(version, level));
  }

  ghost predicate MatchesColumns(s: Spec, ec: nat, blocks: nat) {
    s.g1 + s.g2 == blocks && s.ec * (s.g1 + s.g2) == ec && s.w2 == if s.g2 == 0 then 0 else s.w1 + 1
  }

  lemma ColumnsL(version: Version)
    ensures MatchesColumns(SpecOf(version, L), PublishedEcWords(version, L), PublishedBlocks(version, L))
  {
    match version case 1 => case 2 => case 3 => case 4 => case 5 => case 6 => case 7 => case 8 => case 9 => case 10 =>
  }

  lemma ColumnsM(version: Version)
    ensures MatchesColumns(SpecOf(version, M), PublishedEcWords(version, M), PublishedBlocks(version, M))
  {
    match version case 1 => case 2 => case 3 => case 4 => case 5 => case 6 => case 7 => case 8 => case 9 => case 10 =>
  }

  lemma ColumnsQ(version: Version)
    ensures MatchesColumns(SpecOf(version, Q), PublishedEcWords(version, Q), PublishedBlocks(version, Q))
  {
    match version case 1 => case 2 => case 3 => case 4 => case 5 => case 6 => case 7 => case 8 => case 9 => case 10 =>
  }

  lemma ColumnsH(version: Version)
    ensures MatchesColumns(SpecOf(version, H), PublishedEcWords(version, H), PublishedBlocks(version, H))
  {
    match version case 1 => case 2 => case 3 => case 4 => case 5 => case 6 => case 7 => case 8 => case 9 => case 10 =>
  }
}
