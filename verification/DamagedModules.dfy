/** Damage counted on the printed symbol, module by module, instead of on the words a reader makes of
    it (packages/designer-runtime/src/qr.ts:21-39, 281-298). */
module DamagedModules {
  import opened Capacity
  import opened BitStream
  import opened Outcomes
  import opened Interleaving
  import opened Lists
  import opened SymbolLayout
  import opened FormatWords
  import opened SymbolPicture
  import opened MaskPictures
  import opened QrReader

  // ----- which word carries which place of a block -----

  /** The index, among all the words of the symbol, of word `j` of block `b`: first its data words,
      then its error-correction words. */
  function Carrier(s: Spec, b: nat, j: nat): nat
    requires b < s.g1 + s.g2
  {
    if j < Layout(s)[b] then Position(Layout(s), b, j)
    else Total(Layout(s)) + Position(EcLayout(s), b, j - Layout(s)[b])
  }

  function BlockLength(s: Spec, b: nat): nat
    requires b < s.g1 + s.g2
  {
    Layout(s)[b] + s.ec
  }

  lemma {:induction false} AtMostAll(lens: seq<nat>, b: nat, i: nat)
    requires b < |lens| && i < lens[b]
    ensures Position(lens, b, i) < Total(lens)
  {
    var n := Highest(lens);
    NextPosition(lens, b, i);
    BeforeRises(lens, i + 1, n);
    AllColumns(lens, n);
  }

  function Highest(lens: seq<nat>): (n: nat)
    ensures forall b :: 0 <= b < |lens| ==> lens[b] <= n
  {
    if lens == [] then 0
    else
      var n := Highest(lens[1..]);
      assert forall b :: 1 <= b < |lens| ==> lens[b] == lens[1..][b - 1];
      if lens[0] > n then lens[0] else n
  }

  lemma {:induction false} BeforeRises(lens: seq<nat>, i: nat, n: nat)
    requires i <= n
    ensures Before(lens, i) <= Before(lens, n)
    decreases n - i
  {
    hide Taller;
    if i == n {
    } else {
      BeforeRises(lens, i, n - 1);
    }
  }

  /** Different places of a block are carried by different words. */
  lemma CarriersDiffer(s: Spec, b: nat, i: nat, j: nat)
    requires b < s.g1 + s.g2 && i < j < BlockLength(s, b)
    ensures Carrier(s, b, i) < Carrier(s, b, j)
  {
    hide Position, Total;
    var w := Layout(s)[b];
    if j < w {
      SpreadApart(Layout(s), b, i, j);
    } else if i < w {
      AtMostAll(Layout(s), b, i);
    } else {
      SpreadApart(EcLayout(s), b, i - w, j - w);
    }
  }

  /** Block `b` as a reader puts it together. */
  function BlockOf(words: seq<bv8>, s: Spec, b: nat): (r: seq<bv8>)
    requires b < s.g1 + s.g2
  {
    Receive(words, s).data[b] + Receive(words, s).ec[b]
  }

  function WordOr0(words: seq<bv8>, k: nat): bv8 {
    if k < |words| then words[k] else 0
  }

  lemma BlockIs(words: seq<bv8>, s: Spec, b: nat)
    requires b < s.g1 + s.g2
    ensures |BlockOf(words, s, b)| == BlockLength(s, b)
    ensures forall j :: 0 <= j < BlockLength(s, b) ==> BlockOf(words, s, b)[j] == WordOr0(words, Carrier(s, b, j))
  {
    hide Position, Total;
    ReceiveLengths(words, s);
    var r, w := Receive(words, s), Layout(s)[b];
    forall j | 0 <= j < BlockLength(s, b) ensures BlockOf(words, s, b)[j] == WordOr0(words, Carrier(s, b, j)) {
      if j < w {
        assert r.data[b][j] == WordAt(words, Layout(s), b, j, 0);
      } else {
        var split := Total(Layout(s));
        var rest := if split <= |words| then words[split..] else [];
        assert r.ec[b][j - w] == WordAt(rest, EcLayout(s), b, j - w, 0);
      }
    }
  }

  // ----- damage counted in modules -----

  /** Data module `i` looks different. */
  ghost predicate Damaged(dark: seq<bool>, printed: seq<bool>, version: Version, i: nat)
    requires |dark| == |printed| == Size(version) * Size(version) && i < |FreeCells(version)|
  {
    DataCellInGrid(version, i);
    var c := FreeCells(version)[i];
    At(dark, Size(version), c.x, c.y) != At(printed, Size(version), c.x, c.y)
  }

  /** Data module `i` holds a bit of block `b`. */
  ghost predicate Holds(s: Spec, b: nat, i: nat)
    requires b < s.g1 + s.g2
  {
    exists j :: 0 <= j < BlockLength(s, b) && Carrier(s, b, j) == i / 8
  }

  /** The damaged modules among those of block `b`. */
  ghost function DamageTo(dark: seq<bool>, printed: seq<bool>, version: Version, level: EcLevel, b: nat): set<nat>
    requires |dark| == |printed| == Size(version) * Size(version)
    requires b < SpecOf(version, level).g1 + SpecOf(version, level).g2
  {
    RoomForEveryBit(version);
    set i: nat | i < 8 * TotalWords(version) && Holds(SpecOf(version, level), b, i) && Damaged(dark, printed, version, i)
  }

  lemma {:induction false} GroupAt(bits: seq<bool>, k: nat)
    requires |bits| % 8 == 0 && 8 * k + 8 <= |bits|
    ensures Group(bits)[k] == ByteOf(bits[8 * k..8 * k + 8])
  {
    hide ByteOf;
    if k == 0 {
    } else {
      var rest := bits[8..];
      GroupAt(rest, k - 1);
      assert Group(bits)[k] == Group(rest)[k - 1];
      assert rest[8 * (k - 1)..8 * (k - 1) + 8] == bits[8 * k..8 * k + 8];
    }
  }

  lemma BitUndamaged(dark: seq<bool>, printed: seq<bool>, version: Version, mask: Mask, i: nat)
    requires |dark| == |printed| == Size(version) * Size(version) && i < |FreeCells(version)|
    requires !Damaged(dark, printed, version, i)
    ensures Unmasked(dark, version, mask, i) == Unmasked(printed, version, mask, i)
  {
    hide FreeCells, At, PictureBit;
  }

  /** A word reads differently only if one of its eight modules looks different. */
  lemma WordDamaged(dark: seq<bool>, printed: seq<bool>, version: Version, mask: Mask, k: nat)
    requires |dark| == |printed| == Size(version) * Size(version) && k < TotalWords(version)
    requires 8 * TotalWords(version) <= |FreeCells(version)|
    requires forall i :: 8 * k <= i < 8 * k + 8 ==> !Damaged(dark, printed, version, i)
    ensures WordsRead(dark, version, mask)[k] == WordsRead(printed, version, mask)[k]
  {
    hide FreeCells, TotalWords, Group, Damaged, Unmasked;
    var n := 8 * TotalWords(version);
    var d, p := UnmaskedBits(dark, version, mask, n), UnmaskedBits(printed, version, mask, n);
    forall i | 8 * k <= i < 8 * k + 8 ensures d[i] == p[i] {
      BitUndamaged(dark, printed, version, mask, i);
    }
    assert d[8 * k..8 * k + 8] == p[8 * k..8 * k + 8];
    GroupAt(d, k);
    GroupAt(p, k);
  }

  /** Words that differ, each with a damaged module of its own, are no more than the damaged modules. */
  lemma {:induction false} CountDamage(u: seq<bv8>, v: seq<bv8>, carriers: seq<nat>, damage: set<nat>)
    requires |u| == |v| == |carriers|
    requires forall i, j :: 0 <= i < j < |carriers| ==> carriers[i] != carriers[j]
    requires forall j :: 0 <= j < |u| && u[j] != v[j] ==> exists m :: m in damage && m / 8 == carriers[j]
    ensures Distance(u, v) <= |damage|
  {
    if u == [] {
    } else {
      var own := set m | m in damage && m / 8 == carriers[0];
      var rest := damage - own;
      forall j | 0 <= j < |u| - 1 && u[1..][j] != v[1..][j] ensures exists m :: m in rest && m / 8 == carriers[1..][j] {
        assert u[j + 1] != v[j + 1];
        var m :| m in damage && m / 8 == carriers[j + 1];
        assert m in rest && m / 8 == carriers[1..][j];
      }
      CountDamage(u[1..], v[1..], carriers[1..], rest);
      if u[0] != v[0] {
        var m :| m in damage && m / 8 == carriers[0];
        assert m in own && rest <= damage - {m};
        SubsetSize(rest, damage - {m});
      } else {
        SubsetSize(rest, damage);
      }
    }
  }

  /** A block reads wrong in no more words than it has damaged modules. */
  lemma BlockDamage(dark: seq<bool>, printed: seq<bool>, version: Version, level: EcLevel, mask: Mask, b: nat)
    requires |dark| == |printed| == Size(version) * Size(version)
    requires b < SpecOf(version, level).g1 + SpecOf(version, level).g2
    ensures var s := SpecOf(version, level);
      var u, v := BlockOf(WordsRead(dark, version, mask), s, b), BlockOf(WordsRead(printed, version, mask), s, b);
      |u| == |v| == BlockLength(s, b) && Distance(u, v) <= |DamageTo(dark, printed, version, level, b)|
  {
    hide FreeCells, TotalWords, SpecOf, BlockOf, Carrier, WordsRead, Damaged, Distance, BlockLength;
    RoomForEveryBit(version);
    var s := SpecOf(version, level);
    var got, sent := WordsRead(dark, version, mask), WordsRead(printed, version, mask);
    var u, v := BlockOf(got, s, b), BlockOf(sent, s, b);
    BlockIs(got, s, b);
    BlockIs(sent, s, b);
    var carriers := seq(BlockLength(s, b), j requires 0 <= j < BlockLength(s, b) => Carrier(s, b, j));
    forall i, j | 0 <= i < j < |carriers| ensures carriers[i] != carriers[j] {
      CarriersDiffer(s, b, i, j);
    }
    var damage := DamageTo(dark, printed, version, level, b);
    forall j | 0 <= j < |u| && u[j] != v[j] ensures exists m :: m in damage && m / 8 == carriers[j] {
      var k := Carrier(s, b, j);
      var m := DamagedIn(dark, printed, version, mask, k);
      assert Holds(s, b, m);
      assert m in damage && m / 8 == carriers[j];
    }
    CountDamage(u, v, carriers, damage);
  }

  lemma DamagedIn(dark: seq<bool>, printed: seq<bool>, version: Version, mask: Mask, k: nat) returns (m: nat)
    requires |dark| == |printed| == Size(version) * Size(version)
    requires WordOr0(WordsRead(dark, version, mask), k) != WordOr0(WordsRead(printed, version, mask), k)
    requires 8 * TotalWords(version) <= |FreeCells(version)|
    ensures m < 8 * TotalWords(version) && m / 8 == k && Damaged(dark, printed, version, m)
  {
    hide FreeCells, TotalWords, WordsRead, Damaged;
    if i :| 8 * k <= i < 8 * k + 8 && Damaged(dark, printed, version, i) {
      m := i;
    } else {
      WordDamaged(dark, printed, version, mask, k);
      assert false;
    }
  }

  /** In every block at most half as many modules look different as it has error-correction words. */
  ghost predicate LittleDamage(dark: seq<bool>, printed: seq<bool>, version: Version, level: EcLevel)
    requires |dark| == |printed| == Size(version) * Size(version)
  {
    forall b :: 0 <= b < SpecOf(version, level).g1 + SpecOf(version, level).g2 ==>
      2 * |DamageTo(dark, printed, version, level, b)| <= SpecOf(version, level).ec
  }

  lemma LittleDamageIsClose(dark: seq<bool>, bytes: seq<bv8>, version: Version, level: EcLevel, mask: Mask)
    requires |dark| == Size(version) * Size(version) && Fits(|bytes|, version, level)
    requires LittleDamage(dark, Symbol(version, level, mask, Codewords(bytes, version, level)), version, level)
    ensures BlocksClose(dark, bytes, version, level, mask)
  {
    var words := Codewords(bytes, version, level);
    CodewordsFill(bytes, version, level);
    hide Codewords, Symbol, WordsRead, SpecOf, Fits, Distance, TotalWords, Receive, DamageTo, BlockLength;
    var s, printed := SpecOf(version, level), Symbol(version, level, mask, words);
    SymbolWords(version, level, mask, words);
    hide BlockOf, Close, BlocksClose;
    forall b | 0 <= b < s.g1 + s.g2
      ensures Close(BlockOf(WordsRead(dark, version, mask), s, b), BlockOf(words, s, b), s.ec)
    {
      BlockDamage(dark, printed, version, level, mask, b);
      CloseBlocks(BlockOf(WordsRead(dark, version, mask), s, b), BlockOf(words, s, b), s.ec);
    }
    CloseByBlocks(dark, bytes, version, level, mask);
  }

  /** A symbol reads as the message it was printed with as long as at most three modules of the format
      strip look different and there is little damage to the blocks; the damage elsewhere does not
      matter. */
  lemma DamagedModulesRead(dark: seq<bool>, bytes: seq<bv8>, version: Version, level: EcLevel, mask: Mask)
    requires |dark| == Size(version) * Size(version) && Fits(|bytes|, version, level)
    requires var printed := Symbol(version, level, mask, Codewords(bytes, version, level));
      && Distance(FormatStrip(dark, Size(version)), FormatStrip(printed, Size(version))) <= 3
      && LittleDamage(dark, printed, version, level)
    ensures Read(dark, Size(version)) == Success(Message(level, mask, bytes))
  {
    hide Codewords, Symbol, FormatStrip, Fits, Distance, Read, LittleDamage, BlocksClose;
    SymbolFormat(version, level, mask, Codewords(bytes, version, level));
    LittleDamageIsClose(dark, bytes, version, level, mask);
    DamagedSymbolReads(dark, bytes, version, level, mask);
  }

  /** The second copy is there so that a damaged corner does not lose the format.  A reader that weighs both
      copies bears any six modules of the thirty, all of them in one copy if need be. */
  lemma BothCopiesRead(dark: seq<bool>, bytes: seq<bv8>, version: Version, level: EcLevel, mask: Mask)
    requires |dark| == Size(version) * Size(version) && Fits(|bytes|, version, level)
    requires var printed, size := Symbol(version, level, mask, Codewords(bytes, version, level)), Size(version);
      && Distance(FormatStrip(dark, size), FormatStrip(printed, size))
         + Distance(SecondStrip(dark, size), SecondStrip(printed, size)) <= 6
      && LittleDamage(dark, printed, version, level)
    ensures ReadBothCopies(dark, version) == Success(Message(level, mask, bytes))
  {
    hide Codewords, Symbol, FormatStrip, SecondStrip, FormatBits, Fits, Distance, LittleDamage, BlocksClose, ReadMessage, Copies;
    var size, bits, words := Size(version), FormatBits(level, mask), Codewords(bytes, version, level);
    SymbolFormat(version, level, mask, words);
    SymbolSecondFormat(version, level, mask, words);
    LittleDamageIsClose(dark, bytes, version, level, mask);
    OneCopy(level, mask);
    DistanceConcat(FormatStrip(dark, size), bits, SecondStrip(dark, size), bits);
    DamagedFormatReads(FormatStrip(dark, size) + SecondStrip(dark, size), 2, level, mask);
    MessageReads(dark, bytes, version, level, mask);
  }

  /** And a corner that is lost altogether leaves the copy that is not in it, which reads on its own. */
  lemma OtherCopyReads(dark: seq<bool>, version: Version, level: EcLevel, mask: Mask, codewords: seq<bv8>)
    requires |dark| == Size(version) * Size(version)
    requires var printed, size := Symbol(version, level, mask, codewords), Size(version);
      Distance(SecondStrip(dark, size), SecondStrip(printed, size)) <= 3
    ensures ReadFormat(SecondStrip(dark, Size(version)), 1) == Success(Format(level, mask))
  {
    hide Symbol, SecondStrip, FormatBits, Distance, Copies;
    SymbolSecondFormat(version, level, mask, codewords);
    OneCopy(level, mask);
    DamagedFormatReads(SecondStrip(dark, Size(version)), 1, level, mask);
  }

  lemma CloseBlocks(u: seq<bv8>, v: seq<bv8>, count: nat)
    requires |u| == |v| && 2 * Distance(u, v) <= count
    ensures Close(u, v, count)
  {}

  lemma CloseByBlocks(dark: seq<bool>, bytes: seq<bv8>, version: Version, level: EcLevel, mask: Mask)
    requires |dark| == Size(version) * Size(version) && Fits(|bytes|, version, level)
    requires var s, words := SpecOf(version, level), Codewords(bytes, version, level);
      forall b :: 0 <= b < s.g1 + s.g2 ==> Close(BlockOf(WordsRead(dark, version, mask), s, b), BlockOf(words, s, b), s.ec)
    ensures BlocksClose(dark, bytes, version, level, mask)
  {
    hide Codewords, WordsRead, SpecOf, Fits, Distance, Receive, Close;
    var s, words := SpecOf(version, level), Codewords(bytes, version, level);
    var sent, got := Receive(words, s), Receive(WordsRead(dark, version, mask), s);
    ReceiveLengths(WordsRead(dark, version, mask), s);
    ReceiveLengths(words, s);
    forall b | 0 <= b < |got.data| ensures Close(got.data[b] + got.ec[b], sent.data[b] + sent.ec[b], s.ec) {
      assert Close(BlockOf(WordsRead(dark, version, mask), s, b), BlockOf(words, s, b), s.ec);
    }
  }
}
