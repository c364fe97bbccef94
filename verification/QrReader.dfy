/** A model reader of QR symbols, written from the standard's side (sections 7.3 to 7.9 of
    ISO/IEC 18004:2015, read backwards, with its tables of format strings, mask pictures and
    blocks), and the proof that it undoes the encoder of packages/designer-runtime/src/qr.ts. */
module QrReader {
  import opened Capacity
  import opened BitStream
  import opened Outcomes
  import opened ReedSolomon
  import opened Interleaving
  import opened Lists
  import opened SymbolLayout
  import opened FormatWords
  import opened SymbolPicture
  import opened MaskPictures

  datatype Message = Message(level: EcLevel, mask: Mask, bytes: seq<bv8>)

  // ----- reading the modules -----

  function FormatStrip(dark: seq<bool>, size: nat): (bits: seq<bool>)
    requires |dark| == size * size && size >= 21
    ensures |bits| == 15
  {
    seq(15, i requires 0 <= i < 15 => FormatStrips(size, i); At(dark, size, Copy1(i).x, Copy1(i).y))
  }

  /** The copy that is split between the other two corners. */
  function SecondStrip(dark: seq<bool>, size: nat): (bits: seq<bool>)
    requires |dark| == size * size && size >= 21
    ensures |bits| == 15
  {
    seq(15, i requires 0 <= i < 15 => FormatStrips(size, i); At(dark, size, Copy2(size, i).x, Copy2(size, i).y))
  }

  /** The bit under the mask at data module `i`. */
  ghost predicate Unmasked(dark: seq<bool>, version: Version, mask: Mask, i: nat)
    requires |dark| == Size(version) * Size(version) && i < |FreeCells(version)|
  {
    var c := FreeCells(version)[i];
    DataCellInGrid(version, i);
    At(dark, Size(version), c.x, c.y) != PictureBit(mask, c.x, c.y)
  }

  lemma DataCellInGrid(version: Version, i: nat)
    requires i < |FreeCells(version)|
    ensures var c := FreeCells(version)[i]; InGrid(Size(version), c.x, c.y) && !Reserved(version, c.x, c.y)
  {
    hide FreeCells, Reserved;
    var c := FreeCells(version)[i];
    assert c == Pos(c.x, c.y);
    FreeCell(version, c.x, c.y);
  }

  /** The symbol's words, read along the zigzag with the mask taken off. */
  ghost function WordsRead(dark: seq<bool>, version: Version, mask: Mask): (words: seq<bv8>)
    requires |dark| == Size(version) * Size(version)
    ensures |words| == TotalWords(version)
  {
    hide FreeCells, Unmasked;
    RoomForEveryBit(version);
    Group(UnmaskedBits(dark, version, mask, 8 * TotalWords(version)))
  }

  ghost function UnmaskedBits(dark: seq<bool>, version: Version, mask: Mask, n: nat): (bits: seq<bool>)
    requires |dark| == Size(version) * Size(version) && n <= |FreeCells(version)|
    ensures |bits| == n && forall i :: 0 <= i < n ==> bits[i] == Unmasked(dark, version, mask, i)
  {
    hide FreeCells, Unmasked;
    seq(n, i requires 0 <= i < n => Unmasked(dark, version, mask, i))
  }

  // ----- correcting the blocks -----

  /** The codeword that `word` is a damaged copy of, if it is within half the number of
      error-correction words of one. */
  ghost function CorrectBlock(word: seq<bv8>, count: nat): (r: seq<bv8>)
    ensures |r| == |word|
  {
    if exists c :: IsCorrection(word, c, count) then
      var c :| IsCorrection(word, c, count);
      c
    else word
  }

  ghost predicate IsCorrection(word: seq<bv8>, c: seq<bv8>, count: nat) {
    |c| == |word| && Codeword(c, count) && 2 * Distance(word, c) <= count
  }

  ghost function CorrectedData(r: Received, count: nat): (data: seq<seq<bv8>>)
    requires |r.data| == |r.ec|
    ensures |data| == |r.data|
    ensures forall b :: 0 <= b < |data| ==> data[b] == CorrectBlock(r.data[b] + r.ec[b], count)[..|r.data[b]|]
  {
    seq(|r.data|, b requires 0 <= b < |r.data| => CorrectBlock(r.data[b] + r.ec[b], count)[..|r.data[b]|])
  }

  /** The message, once the format is known. */
  ghost function ReadMessage(dark: seq<bool>, version: Version, format: Result<Format>): Result<Message>
    requires |dark| == Size(version) * Size(version)
  {
    if format.Failure? then Failure("format")
    else
      var level, mask := format.value.level, format.value.mask;
      var s := PublishedSpec(version, level);
      ReceiveLengths(WordsRead(dark, version, mask), s);
      var data := Concat(CorrectedData(Receive(WordsRead(dark, version, mask), s), s.ec));
      var bytes := ReadData(data, version);
      if bytes.Failure? then Failure("data") else Success(Message(level, mask, bytes.value))
  }

  ghost function ReadVersion(dark: seq<bool>, version: Version): Result<Message>
    requires |dark| == Size(version) * Size(version)
  {
    ReadMessage(dark, version, ReadFormat(FormatStrip(dark, Size(version)), 1))
  }

  /** A reader that weighs both copies of the format. */
  ghost function ReadBothCopies(dark: seq<bool>, version: Version): Result<Message>
    requires |dark| == Size(version) * Size(version)
  {
    ReadMessage(dark, version, ReadFormat(FormatStrip(dark, Size(version)) + SecondStrip(dark, Size(version)), 2))
  }

  /** The whole reader, given a square of modules and nothing else. */
  ghost function Read(dark: seq<bool>, size: nat): Result<Message>
    requires |dark| == size * size
  {
    if size % 4 != 1 || !(21 <= size <= 57) then Failure("size")
    else
      var version: Version := (size - 17) / 4;
      assert Size(version) == size;
      ReadVersion(dark, version)
  }

  // ----- the reader undoes the encoder -----

  /** The words of the symbol that carries `bytes`. */
  function Codewords(bytes: seq<bv8>, version: Version, level: EcLevel): seq<bv8>
    requires Fits(|bytes|, version, level)
  {
    Interleaved(DataWords(bytes, version, level), SpecOf(version, level))
  }

  /** In every block at most half as many wrong words as there are error-correction words. */
  ghost predicate BlocksClose(dark: seq<bool>, bytes: seq<bv8>, version: Version, level: EcLevel, mask: Mask)
    requires |dark| == Size(version) * Size(version) && Fits(|bytes|, version, level)
  {
    var s := SpecOf(version, level);
    var sent, got := Receive(Codewords(bytes, version, level), s), Receive(WordsRead(dark, version, mask), s);
    forall b :: 0 <= b < |got.data| ==> Close(got.data[b] + got.ec[b], sent.data[b] + sent.ec[b], s.ec)
  }

  /** `dark` is a damaged copy of the symbol: at most three wrong modules in the format strip
      it is read from, and its blocks are close. */
  ghost predicate Readable(dark: seq<bool>, bytes: seq<bv8>, version: Version, level: EcLevel, mask: Mask)
    requires |dark| == Size(version) * Size(version) && Fits(|bytes|, version, level)
  {
    Distance(FormatStrip(dark, Size(version)), FormatBits(level, mask)) <= 3 && BlocksClose(dark, bytes, version, level, mask)
  }

  ghost predicate Close(u: seq<bv8>, v: seq<bv8>, count: nat) {
    |u| == |v| && 2 * Distance(u, v) <= count
  }

  lemma CorrectionIsUnique(word: seq<bv8>, c: seq<bv8>, count: nat)
    requires |word| <= 255 && IsCorrection(word, c, count)
    ensures CorrectBlock(word, count) == c
  {
    var r := CorrectBlock(word, count);
    assert IsCorrection(word, r, count);
    CorrectsErrors(c, word, r, count);
  }

  /** A damaged symbol reads as the message it was made from. */
  lemma DamagedSymbolReads(dark: seq<bool>, bytes: seq<bv8>, version: Version, level: EcLevel, mask: Mask)
    requires |dark| == Size(version) * Size(version) && Fits(|bytes|, version, level)
    requires Readable(dark, bytes, version, level, mask)
    ensures Read(dark, Size(version)) == Success(Message(level, mask, bytes))
  {
    hide Read;
    DamagedVersionReads(dark, bytes, version, level, mask);
    SizeGivesVersion(dark, version);
  }

  lemma SizeGivesVersion(dark: seq<bool>, version: Version)
    requires |dark| == Size(version) * Size(version)
    ensures Read(dark, Size(version)) == ReadVersion(dark, version)
  {
    hide ReadVersion;
    assert (Size(version) - 17) / 4 == version;
  }

  lemma DamagedVersionReads(dark: seq<bool>, bytes: seq<bv8>, version: Version, level: EcLevel, mask: Mask)
    requires |dark| == Size(version) * Size(version) && Fits(|bytes|, version, level)
    requires Readable(dark, bytes, version, level, mask)
    ensures ReadVersion(dark, version) == Success(Message(level, mask, bytes))
  {
    hide FormatStrip, FormatBits, BlocksClose, ReadMessage, Copies, Distance, Fits;
    OneCopy(level, mask);
    DamagedFormatReads(FormatStrip(dark, Size(version)), 1, level, mask);
    MessageReads(dark, bytes, version, level, mask);
  }

  /** Once the format is known, close blocks give the message. */
  lemma MessageReads(dark: seq<bool>, bytes: seq<bv8>, version: Version, level: EcLevel, mask: Mask)
    requires |dark| == Size(version) * Size(version) && Fits(|bytes|, version, level)
    requires BlocksClose(dark, bytes, version, level, mask)
    ensures ReadMessage(dark, version, Success(Format(level, mask))) == Success(Message(level, mask, bytes))
  {
    hide WordsRead, Receive, CorrectedData, Concat, DataWords, ReadData, Interleaved, SpecOf, PublishedSpec, Fits, Close, BlocksClose;
    RowsAreEvenSplits(version, level);
    DamagedBlocksRead(dark, bytes, version, level, mask);
    ReadDataWords(bytes, version, level);
  }

  lemma CorrectedIs(got: Received, sent: Received, count: nat)
    requires |got.data| == |got.ec| == |sent.data| == |sent.ec|
    requires forall b :: 0 <= b < |got.data| ==>
      && |got.data[b]| == |sent.data[b]| && |got.data[b] + got.ec[b]| <= 255
      && IsCorrection(got.data[b] + got.ec[b], sent.data[b] + sent.ec[b], count)
    ensures CorrectedData(got, count) == sent.data
  {
    hide IsCorrection, CorrectedData;
    forall b | 0 <= b < |got.data| ensures CorrectedData(got, count)[b] == sent.data[b] {
      CorrectionIsUnique(got.data[b] + got.ec[b], sent.data[b] + sent.ec[b], count);
      assert (sent.data[b] + sent.ec[b])[..|sent.data[b]|] == sent.data[b];
    }
  }

  lemma DamagedBlocksRead(dark: seq<bool>, bytes: seq<bv8>, version: Version, level: EcLevel, mask: Mask)
    requires |dark| == Size(version) * Size(version) && Fits(|bytes|, version, level)
    requires BlocksClose(dark, bytes, version, level, mask)
    ensures var s := SpecOf(version, level);
            Concat(CorrectedData(Receive(WordsRead(dark, version, mask), s), s.ec)) == DataWords(bytes, version, level)
  {
    var s := SpecOf(version, level);
    var words := DataWords(bytes, version, level);
    RowsFillTheSymbol(version, level);
    InterleaveInvertible(words, s);
    var sent, got := Receive(Codewords(bytes, version, level), s), Receive(WordsRead(dark, version, mask), s);
    hide WordsRead, Receive, Concat, DataWords, Interleaved, SpecOf, Fits, FormatStrip, Distance;
    ReceiveLengths(WordsRead(dark, version, mask), s);
    ReceiveLengths(Codewords(bytes, version, level), s);
    forall b | 0 <= b < |got.data|
      ensures |got.data[b]| == |sent.data[b]| && |got.data[b] + got.ec[b]| <= 255
      ensures IsCorrection(got.data[b] + got.ec[b], sent.data[b] + sent.ec[b], s.ec)
    {
      assert Close(got.data[b] + got.ec[b], sent.data[b] + sent.ec[b], s.ec);
    }
    CorrectedIs(got, sent, s.ec);
  }

  lemma ReceiveLengths(words: seq<bv8>, s: Spec)
    ensures var r := Receive(words, s);
            && |r.data| == |r.ec| == s.g1 + s.g2
            && forall b :: 0 <= b < |r.data| ==> |r.data[b]| == (if b < s.g1 then s.w1 else s.w2) && |r.ec[b]| == s.ec
  {}

  // ----- an undamaged symbol is readable -----

  lemma SymbolFormat(version: Version, level: EcLevel, mask: Mask, codewords: seq<bv8>)
    ensures FormatStrip(Symbol(version, level, mask, codewords), Size(version)) == FormatBits(level, mask)
  {
    hide Symbol, FormatBits, At, FormatIndex, HoldsFormat;
    var size, dark := Size(version), Symbol(version, level, mask, codewords);
    forall i | 0 <= i < 15 ensures FormatStrip(dark, size)[i] == FormatBits(level, mask)[i] {
      FormatStrips(size, i);
      SymbolAt(version, level, mask, codewords, Copy1(i).x, Copy1(i).y);
    }
  }

  lemma SymbolSecondFormat(version: Version, level: EcLevel, mask: Mask, codewords: seq<bv8>)
    ensures SecondStrip(Symbol(version, level, mask, codewords), Size(version)) == FormatBits(level, mask)
  {
    hide Symbol, FormatBits, At, FormatIndex, HoldsFormat;
    var size, dark := Size(version), Symbol(version, level, mask, codewords);
    forall i | 0 <= i < 15 ensures SecondStrip(dark, size)[i] == FormatBits(level, mask)[i] {
      FormatStrips(size, i);
      SymbolAt(version, level, mask, codewords, Copy2(size, i).x, Copy2(size, i).y);
    }
  }

  /** Both strips of a symbol spell the published format word of its level and mask. */
  lemma StripsSpellFormat(version: Version, level: EcLevel, mask: Mask, codewords: seq<bv8>)
    ensures var dark := Symbol(version, level, mask, codewords);
      && Spelled(FormatStrip(dark, Size(version))) == PublishedFormat(level, mask)
      && Spelled(SecondStrip(dark, Size(version))) == PublishedFormat(level, mask)
  {
    hide Symbol, FormatStrip, SecondStrip, FormatBits, PublishedFormat, Spelled;
    SymbolFormat(version, level, mask, codewords);
    SymbolSecondFormat(version, level, mask, codewords);
    FormatSpells(level, mask);
  }

  /** From version 7 on both corners hold the published version word, three modules to a line. */
  lemma CornersSpellVersion(version: Version, level: EcLevel, mask: Mask, codewords: seq<bv8>, i: nat)
    requires version >= 7 && i < 18
    ensures var dark, size := Symbol(version, level, mask, codewords), Size(version);
      && (At(dark, size, i / 3, size - 11 + i % 3) <==> PublishedVersion(version)[17 - i] == '1')
      && (At(dark, size, size - 11 + i % 3, i / 3) <==> PublishedVersion(version)[17 - i] == '1')
  {
    hide Symbol, At, FormatBits, FreeCells, MaskBit, DataBit, IndexOf, PublishedVersion, VersionWord, WordBit, InAlignment;
    var far := Size(version) - 11;
    SymbolAt(version, level, mask, codewords, i / 3, far + i % 3);
    SymbolAt(version, level, mask, codewords, far + i % 3, i / 3);
    VersionBitIsPublished(version, i);
  }

  lemma IndexOfDistinct(cells: seq<Pos>, i: nat)
    requires Distinct(cells) && i < |cells|
    ensures IndexOf(cells, cells[i]) == i
  {}

  lemma SymbolBit(version: Version, level: EcLevel, mask: Mask, codewords: seq<bv8>, i: nat)
    requires i < |FreeCells(version)|
    ensures Unmasked(Symbol(version, level, mask, codewords), version, mask, i) == DataBit(codewords, i)
  {
    hide FreeCells, Symbol, At, DataBit, MaskBit, PictureBit, InFinder, InTiming, InAlignment, InVersion, FormatBits, FunctionDark, IndexOf, Distinct;
    var c := FreeCells(version)[i];
    DataCellInGrid(version, i);
    SymbolAt(version, level, mask, codewords, c.x, c.y);
    ZigzagVisitsOnce(version);
    IndexOfDistinct(FreeCells(version), i);
    MaskIsPicture(mask, c.x, c.y);
  }

  lemma SymbolWords(version: Version, level: EcLevel, mask: Mask, codewords: seq<bv8>)
    requires |codewords| == TotalWords(version)
    ensures WordsRead(Symbol(version, level, mask, codewords), version, mask) == codewords
  {
    hide FreeCells, Symbol, Unmasked, TotalWords, Flatten;
    var dark, n := Symbol(version, level, mask, codewords), 8 * TotalWords(version);
    RoomForEveryBit(version);
    forall i | 0 <= i < n ensures UnmaskedBits(dark, version, mask, n)[i] == Flatten(codewords)[i] {
      SymbolBit(version, level, mask, codewords, i);
      FlattenAt(codewords, i);
    }
    assert UnmaskedBits(dark, version, mask, n) == Flatten(codewords);
    GroupFlatten(codewords);
  }

  lemma CodewordsFill(bytes: seq<bv8>, version: Version, level: EcLevel)
    requires Fits(|bytes|, version, level)
    ensures |Codewords(bytes, version, level)| == TotalWords(version)
  {
    hide Interleaved, TotalWords, DataWords, SpecOf;
    RowsFillTheSymbol(version, level);
    InterleavedLength(DataWords(bytes, version, level), SpecOf(version, level));
  }

  lemma UndamagedIsClose(dark: seq<bool>, bytes: seq<bv8>, version: Version, level: EcLevel, mask: Mask)
    requires |dark| == Size(version) * Size(version) && Fits(|bytes|, version, level)
    requires WordsRead(dark, version, mask) == Codewords(bytes, version, level)
    ensures BlocksClose(dark, bytes, version, level, mask)
  {
    hide Codewords, WordsRead, SpecOf, Fits, Distance, Receive, Size;
    var got := Receive(Codewords(bytes, version, level), SpecOf(version, level));
    ReceiveLengths(Codewords(bytes, version, level), SpecOf(version, level));
    forall b | 0 <= b < |got.data| ensures Close(got.data[b] + got.ec[b], got.data[b] + got.ec[b], SpecOf(version, level).ec) {
      ZeroDistance(got.data[b] + got.ec[b], got.data[b] + got.ec[b]);
    }
  }

  /** The symbol that carries a message, at any level and under any mask, reads as exactly
      that level, that mask and those bytes. */
  lemma SymbolReads(bytes: seq<bv8>, version: Version, level: EcLevel, mask: Mask)
    requires Fits(|bytes|, version, level)
    ensures Read(Symbol(version, level, mask, Codewords(bytes, version, level)), Size(version)) == Success(Message(level, mask, bytes))
  {
    var words := Codewords(bytes, version, level);
    var dark := Symbol(version, level, mask, words);
    CodewordsFill(bytes, version, level);
    hide Codewords, Symbol, WordsRead, FormatStrip, FormatBits, SpecOf, Fits, Distance, TotalWords, Read, Receive, Size;
    SymbolFormat(version, level, mask, words);
    SymbolWords(version, level, mask, words);
    ZeroDistance(FormatBits(level, mask), FormatBits(level, mask));
    UndamagedIsClose(dark, bytes, version, level, mask);
    hide BlocksClose;
    DamagedSymbolReads(dark, bytes, version, level, mask);
  }

  /** So symbols of different messages, levels or masks are different symbols. */
  lemma SymbolsDiffer(b1: seq<bv8>, l1: EcLevel, m1: Mask, b2: seq<bv8>, l2: EcLevel, m2: Mask, version: Version)
    requires Fits(|b1|, version, l1) && Fits(|b2|, version, l2)
    requires Symbol(version, l1, m1, Codewords(b1, version, l1)) == Symbol(version, l2, m2, Codewords(b2, version, l2))
    ensures b1 == b2 && l1 == l2 && m1 == m2
  {
    hide Read, Symbol, Codewords, Fits;
    SymbolReads(b1, version, l1, m1);
    SymbolReads(b2, version, l2, m2);
  }
}
