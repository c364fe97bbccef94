/** `encodeQr`: the smallest version that fits, and the mask of least penalty
    (packages/designer-runtime/src/qr.ts:357-401). */
module QrEncoder {
  import opened Capacity
  import opened BitStream
  import opened Outcomes
  import opened GaloisField
  import opened Interleaving
  import opened SymbolLayout
  import opened FormatWords
  import opened SymbolPicture
  import opened Grids
  import opened Penalties
  import opened QrReader

  datatype QrMatrix = QrMatrix(size: nat, dark: seq<bool>, version: Version, level: EcLevel)

  ghost function Score(version: Version, level: EcLevel, mask: Mask, codewords: seq<bv8>): nat {
    Penalty(Symbol(version, level, mask, codewords), Size(version))
  }

  /** `mask` is the first of the least penalty among those below `n`. */
  ghost predicate FirstBest(version: Version, level: EcLevel, codewords: seq<bv8>, mask: Mask, n: nat) {
    mask < n && forall k: Mask :: k < n ==>
      Score(version, level, mask, codewords) <= Score(version, level, k, codewords)
      && (k < mask ==> Score(version, level, mask, codewords) < Score(version, level, k, codewords))
  }

  ghost predicate SmallestFit(n: nat, version: Version, level: EcLevel) {
    Fits(n, version, level) && forall v: Version :: v < version ==> !Fits(n, v, level)
  }

  /** One candidate symbol. */
  method DrawSymbol(version: Version, level: EcLevel, mask: Mask, codewords: seq<bv8>) returns (g: Grid)
    ensures fresh(g) && fresh(g.modules) && g.Valid() && g.size == Size(version)
    ensures g.Picture() == Symbol(version, level, mask, codewords)
  {
    hide Reserved, FunctionDark, Filled, HoldsFormat, At, FormatIndex, FormatBits, FreeCells, DataBit, MaskBit;
    g := new Grid(4 * version + 17);
    PlaceFunctionPatterns(g, version);
    PlaceData(g, version, codewords, mask);
    forall u, v | InGrid(g.size, u, v) && HoldsFormat(g.size, u, v) ensures Reserved(version, u, v) {
      FormatReserved(version, u, v);
    }
    forall u, v | InGrid(g.size, u, v) && !Reserved(version, u, v)
      ensures Pos(u, v) in FreeCells(version)
      ensures g.Dark(u, v) == (DataBit(codewords, IndexOf(FreeCells(version), Pos(u, v))) != MaskBit(mask, u, v))
    {
      FilledAt(g, version, codewords, mask, u, v);
    }
    PlaceFormat(g, level, mask);
    SamePicture(g.Picture(), version, level, mask, codewords);
  }

  lemma FormatReserved(version: Version, u: int, v: int)
    requires InGrid(Size(version), u, v) && HoldsFormat(Size(version), u, v)
    ensures Reserved(version, u, v)
  {}

  lemma FilledAt(g: Grid, version: Version, codewords: seq<bv8>, mask: Mask, u: int, v: int)
    requires g.Valid() && g.size == Size(version) && Filled(g, version, codewords, mask, FreeCells(version))
    requires InGrid(g.size, u, v) && !Reserved(version, u, v)
    ensures Pos(u, v) in FreeCells(version)
    ensures g.Dark(u, v) == (DataBit(codewords, IndexOf(FreeCells(version), Pos(u, v))) != MaskBit(mask, u, v))
  {
    hide Reserved, FreeCells;
    FreeCell(version, u, v);
  }

  lemma SamePicture(dark: seq<bool>, version: Version, level: EcLevel, mask: Mask, codewords: seq<bv8>)
    requires |dark| == Size(version) * Size(version)
    requires forall u, v :: InGrid(Size(version), u, v) ==>
      At(dark, Size(version), u, v) == SymbolDark(version, level, mask, codewords, u, v)
    ensures dark == Symbol(version, level, mask, codewords)
  {
    hide SymbolDark;
    var size := Size(version);
    forall k | 0 <= k < |dark| ensures dark[k] == Symbol(version, level, mask, codewords)[k] {
      RowOf(size, k);
      assert At(dark, size, k % size, k / size) == dark[k];
    }
  }

  /** No version fits exactly when version 10, which holds the most, does not. */
  lemma TooLong(n: nat, level: EcLevel)
    ensures (forall v: Version :: !Fits(n, v, level)) <==> n > PublishedBytes(10, level)
  {
    hide Fits, PublishedBytes;
    forall v: Version ensures Fits(n, v, level) ==> n <= PublishedBytes(10, level) {
      BytesThatFit(n, v, level);
      LastHoldsMost(v, level);
    }
    BytesThatFit(n, 10, level);
  }

  lemma LastHoldsMost(version: Version, level: EcLevel)
    ensures PublishedBytes(version, level) <= PublishedBytes(10, level)
  {}

  method ChooseVersion(n: nat, level: EcLevel) returns (version: int)
    ensures version == 0 ==> forall v: Version :: !Fits(n, v, level)
    ensures version != 0 ==> 1 <= version <= 10 && SmallestFit(n, version, level)
  {
    hide DataCapacity;
    version := 0;
    for v := 1 to 11
      invariant forall u: Version :: u < v ==> !Fits(n, u, level)
    {
      var overhead := 4 + if v < 10 then 8 else 16;
      if n * 8 + overhead <= DataCapacity(v, level) * 8 {
        return v;
      }
    }
  }

  /** The matrix carries the message: the version is the smallest that fits, the mask the first
      of least penalty, and a reader gets level, mask and bytes back.  A refusal means that no
      version fits. */
  method EncodeQr(tables: Tables, bytes: seq<bv8>, level: EcLevel) returns (r: Result<QrMatrix>)
    requires tables.Valid()
    ensures r.Failure? <==> forall v: Version :: !Fits(|bytes|, v, level)
    ensures r.Failure? <==> |bytes| > PublishedBytes(10, level)
    ensures r.Success? ==>
              var m := r.value;
              && m.level == level && m.size == Size(m.version) && SmallestFit(|bytes|, m.version, level)
              && exists mask: Mask ::
                   && FirstBest(m.version, level, Codewords(bytes, m.version, level), mask, 8)
                   && m.dark == Symbol(m.version, level, mask, Codewords(bytes, m.version, level))
                   && Read(m.dark, m.size) == Success(Message(level, mask, bytes))
  {
    TooLong(|bytes|, level);
    hide PublishedBytes;
    var chosen := ChooseVersion(|bytes|, level);
    if chosen == 0 {
      return Failure("qr: too long");
    }
    var version: Version := chosen;
    var data := EncodeData(bytes, version, level);
    var codewords := Interleave(tables, data.value, version, level);
    var dark, mask := ChooseMask(version, level, codewords);
    SymbolReads(bytes, version, level, mask);
    r := Success(QrMatrix(4 * version + 17, dark, version, level));
  }

  method ChooseMask(version: Version, level: EcLevel, codewords: seq<bv8>) returns (dark: seq<bool>, chosen: Mask)
    ensures FirstBest(version, level, codewords, chosen, 8)
    ensures dark == Symbol(version, level, chosen, codewords)
  {
    hide Symbol, Penalty;
    var best: Grid? := null;
    var bestScore := 0;
    chosen := 0;
    for mask := 0 to 8
      invariant best == null <==> mask == 0
      invariant best != null ==>
                  && best.Valid() && best.size == Size(version)
                  && best.Picture() == Symbol(version, level, chosen, codewords)
                  && bestScore == Score(version, level, chosen, codewords)
                  && FirstBest(version, level, codewords, chosen, mask)
    {
      var g := DrawSymbol(version, level, mask, codewords);
      var score := ScorePenalty(g);
      if best == null || score < bestScore {
        bestScore, best, chosen := score, g, mask;
      }
    }
    dark := best.ToMatrix();
  }
}
