/** Splitting the data words into blocks and interleaving them
    (packages/designer-runtime/src/qr.ts:161-177). */
module Interleaving {
  import opened GaloisField
  import opened Capacity
  import opened Lists
  import opened ReedSolomon

  // ----- interleaving -----

  /** The `i`-th word of every block that is that long, in block order. */
  function Column<T>(blocks: seq<seq<T>>, i: nat): seq<T> {
    if blocks == [] then []
    else (if i < |blocks[0]| then [blocks[0][i]] else []) + Column(blocks[1..], i)
  }

  /** The first `n` columns, one after the other. */
  function Columns<T>(blocks: seq<seq<T>>, n: nat): seq<T> {
    if n == 0 then [] else Columns(blocks, n - 1) + Column(blocks, n - 1)
  }

  function Lengths<T>(blocks: seq<seq<T>>): (r: seq<nat>)
    ensures |r| == |blocks| && forall b :: 0 <= b < |r| ==> r[b] == |blocks[b]|
  {
    seq(|blocks|, b requires 0 <= b < |blocks| => |blocks[b]|)
  }

  // ----- undoing it, from the block lengths alone -----

  /** How many of the blocks have an `i`-th word. */
  function Taller(lens: seq<nat>, i: nat): nat {
    if lens == [] then 0 else (if i < lens[0] then 1 else 0) + Taller(lens[1..], i)
  }

  /** The words in the first `n` columns. */
  function Before(lens: seq<nat>, n: nat): nat {
    if n == 0 then 0 else Before(lens, n - 1) + Taller(lens, n - 1)
  }

  /** Where the `i`-th word of block `b` went. */
  function Position(lens: seq<nat>, b: nat, i: nat): nat
    requires b < |lens|
  {
    Before(lens, i) + Taller(lens[..b], i)
  }

  function Total(lens: seq<nat>): nat {
    if lens == [] then 0 else lens[0] + Total(lens[1..])
  }

  lemma {:induction false} ColumnLength<T>(blocks: seq<seq<T>>, i: nat)
    ensures |Column(blocks, i)| == Taller(Lengths(blocks), i)
  {
    if blocks == [] {
    } else {
      ColumnLength(blocks[1..], i);
      assert Lengths(blocks)[1..] == Lengths(blocks[1..]);
    }
  }

  lemma {:induction false} ColumnsLength<T>(blocks: seq<seq<T>>, n: nat)
    ensures |Columns(blocks, n)| == Before(Lengths(blocks), n)
  {
    hide Column, Taller, Lengths;
    if n == 0 {
    } else {
      ColumnsLength(blocks, n - 1);
      ColumnLength(blocks, n - 1);
    }
  }

  lemma {:induction false} ColumnAt<T>(blocks: seq<seq<T>>, b: nat, i: nat)
    requires b < |blocks| && i < |blocks[b]|
    ensures var k := Taller(Lengths(blocks)[..b], i);
            k < |Column(blocks, i)| && Column(blocks, i)[k] == blocks[b][i]
  {
    if b == 0 {
    } else {
      ColumnAt(blocks[1..], b - 1, i);
      assert Lengths(blocks)[..b][1..] == Lengths(blocks[1..])[..b - 1];
    }
  }

  lemma {:induction false} ColumnsAt<T>(blocks: seq<seq<T>>, n: nat, b: nat, i: nat)
    requires b < |blocks| && i < |blocks[b]| && i < n
    ensures var k := Position(Lengths(blocks), b, i);
            k < |Columns(blocks, n)| && Columns(blocks, n)[k] == blocks[b][i]
  {
    hide Column, Taller;
    if i < n - 1 {
      ColumnsAt(blocks, n - 1, b, i);
    } else {
      ColumnAt(blocks, b, i);
      ColumnsLength(blocks, i);
    }
  }

  lemma {:induction false} BeforeCons(len: nat, lens: seq<nat>, n: nat)
    ensures Before([len] + lens, n) == (if n < len then n else len) + Before(lens, n)
  {
    if n == 0 {
    } else {
      BeforeCons(len, lens, n - 1);
      assert ([len] + lens)[1..] == lens;
    }
  }

  /** Enough columns hold every word. */
  lemma {:induction false} AllColumns(lens: seq<nat>, n: nat)
    requires forall b :: 0 <= b < |lens| ==> lens[b] <= n
    ensures Before(lens, n) == Total(lens)
  {
    if lens == [] {
      NoBlocks(n);
    } else {
      AllColumns(lens[1..], n);
      BeforeCons(lens[0], lens[1..], n);
      assert [lens[0]] + lens[1..] == lens;
    }
  }

  lemma {:induction false} NoBlocks(n: nat)
    ensures Before([], n) == 0
  {
    if n == 0 {
    } else {
      NoBlocks(n - 1);
    }
  }

  /** The `i`-th word of block `b`, read from the interleaved words. */
  function WordAt<T>(words: seq<T>, lens: seq<nat>, b: nat, i: nat, default: T): T
    requires b < |lens|
  {
    var k := Position(lens, b, i);
    if k < |words| then words[k] else default
  }

  function Deinterleave<T>(words: seq<T>, lens: seq<nat>, default: T): (blocks: seq<seq<T>>)
    ensures |blocks| == |lens|
    ensures forall b :: 0 <= b < |lens| ==> |blocks[b]| == lens[b]
  {
    seq(|lens|, b requires 0 <= b < |lens| =>
      seq(lens[b], i requires 0 <= i < lens[b] => WordAt(words, lens, b, i, default)))
  }

  /** De-interleaving returns every block, whatever the block lengths, and whatever follows. */
  lemma DeinterleaveColumns<T>(blocks: seq<seq<T>>, n: nat, tail: seq<T>, default: T)
    requires forall b :: 0 <= b < |blocks| ==> |blocks[b]| <= n
    ensures Deinterleave(Columns(blocks, n) + tail, Lengths(blocks), default) == blocks
    ensures |Columns(blocks, n)| == Total(Lengths(blocks))
  {
    var lens := Lengths(blocks);
    var out := Deinterleave(Columns(blocks, n) + tail, lens, default);
    forall b | 0 <= b < |blocks| ensures out[b] == blocks[b] {
      forall i | 0 <= i < |blocks[b]| ensures out[b][i] == blocks[b][i] {
        ColumnsAt(blocks, n, b, i);
      }
    }
    ColumnsLength(blocks, n);
    AllColumns(lens, n);
  }

  /** The words of `n` blocks, or of `n` rounds, of `width` words each. */
  function Span(n: nat, width: nat): nat { n * width }

  lemma SpanStep(n: nat, width: nat)
    ensures Span(0, width) == 0 && Span(n + 1, width) == Span(n, width) + width
  {}

  // ----- how far apart a block's words are -----

  lemma {:induction false} TallerSplit(lens: seq<nat>, b: nat, i: nat)
    requires b <= |lens|
    ensures Taller(lens, i) == Taller(lens[..b], i) + Taller(lens[b..], i)
  {
    if b == 0 {
      assert lens[..0] == [] && lens[0..] == lens;
    } else {
      TallerSplit(lens[1..], b - 1, i);
      assert lens[..b][1..] == lens[1..][..b - 1] && lens[b..] == lens[1..][b - 1..];
    }
  }

  lemma {:induction false} TallerFalls(lens: seq<nat>, i: nat)
    ensures Taller(lens, i + 1) <= Taller(lens, i)
  {
    if lens == [] {
    } else {
      TallerFalls(lens[1..], i);
    }
  }

  /** The next word of a block comes after one word of every block that has a next one, and is a
      later word. */
  lemma NextPosition(lens: seq<nat>, b: nat, i: nat)
    requires b < |lens| && i < lens[b]
    ensures Position(lens, b, i + 1) >= Position(lens, b, i) + Taller(lens, i + 1)
    ensures Position(lens, b, i) < Position(lens, b, i + 1)
    ensures Position(lens, b, i) < Before(lens, i + 1)
  {
    TallerSplit(lens, b, i);
    TallerSplit(lens, b, i + 1);
    var rest := lens[b..];
    TallerFalls(rest, i);
    assert Taller(rest, i) >= 1;
  }

  lemma {:induction false} TallerFallsTo(lens: seq<nat>, i: nat, j: nat)
    requires i <= j
    ensures Taller(lens, j) <= Taller(lens, i)
    decreases j - i
  {
    if i == j {
    } else {
      TallerFalls(lens, i);
      TallerFallsTo(lens, i + 1, j);
    }
  }

  /** Words `i` and `j` of a block are at least as far apart as there are rounds between them, each of
      one word of every block that reaches `j`. */
  lemma {:induction false} SpreadApart(lens: seq<nat>, b: nat, i: nat, j: nat)
    requires b < |lens| && i <= j < lens[b]
    ensures Position(lens, b, j) >= Position(lens, b, i) + Span(j - i, Taller(lens, j))
    ensures i < j ==> Position(lens, b, i) < Position(lens, b, j)
    decreases j - i
  {
    SpanStep(j - i, Taller(lens, j));
    if i == j {
    } else {
      SpanStep(j - i - 1, Taller(lens, j));
      hide Span, Position, Taller;
      SpreadApart(lens, b, i + 1, j);
      NextPosition(lens, b, i);
      TallerFallsTo(lens, i + 1, j);
    }
  }

  lemma {:induction false} AllTaller(lens: seq<nat>, i: nat)
    requires forall b :: 0 <= b < |lens| ==> lens[b] > i
    ensures Taller(lens, i) == |lens|
  {
    if lens == [] {
    } else {
      AllTaller(lens[1..], i);
    }
  }

  /** The indices of the words of block `b` that a burst of `length` words from `start` on damages. */
  ghost function Burst(lens: seq<nat>, b: nat, start: nat, length: nat): set<nat>
    requires b < |lens|
  {
    set i: nat | i < lens[b] && start <= Position(lens, b, i) < start + length
  }

  /** Every row of SPECS has blocks of `width` or `width` + 1 words. */
  ghost predicate NearlyEqual(lens: seq<nat>, width: nat) {
    forall b :: 0 <= b < |lens| ==> width <= lens[b] <= width + 1
  }

  /** `length` words in rounds of `n`, the last one counted in full. */
  function RoundsOf(length: nat, n: nat): nat
    requires n > 0
  {
    (length + n - 1) / n
  }

  /** A burst of damage lands across the blocks: it takes at most one word in `|lens|` from each, rounded
      up, and from a block with a word more than the others that last word besides. */
  lemma BurstSpreads(lens: seq<nat>, width: nat, b: nat, start: nat, length: nat)
    requires b < |lens| && NearlyEqual(lens, width)
    ensures |Burst(lens, b, start, length)| <= RoundsOf(length, |lens|) + lens[b] - width
  {
    var all := Burst(lens, b, start, length);
    var hit := all - {width};
    forall i | i in all ensures i <= width && (i == width ==> lens[b] == width + 1) {
      InBurst(lens, b, start, length, i);
    }
    hide RoundsOf, Burst;
    if hit != {} {
      CommonRounds(lens, width, b, start, length, hit);
    }
    assert all == if width in all then hit + {width} else hit;
  }

  lemma InBurst(lens: seq<nat>, b: nat, start: nat, length: nat, i: nat)
    requires b < |lens| && i in Burst(lens, b, start, length)
    ensures i < lens[b] && start <= Position(lens, b, i) < start + length
  {}

  /** Of the words before `width`, which all blocks have. */
  lemma CommonRounds(lens: seq<nat>, width: nat, b: nat, start: nat, length: nat, hit: set<nat>)
    requires b < |lens| && NearlyEqual(lens, width) && hit != {}
    requires forall i :: i in hit ==> i < width && i in Burst(lens, b, start, length)
    ensures |hit| <= RoundsOf(length, |lens|)
  {
    hide RoundsOf, Position, Taller, Before, Span, Burst;
    var i := LeastOf(hit);
    var j := GreatestOf(hit);
    InBurst(lens, b, start, length, i);
    InBurst(lens, b, start, length, j);
    SpreadApart(lens, b, i, j);
    AllTaller(lens, j);
    BetweenSize(hit, i, j);
    Rounds(j - i, |lens|, length);
  }

  /** So it does in every symbol, for the data words and for the error-correction words. */
  lemma SymbolBurst(version: Version, level: EcLevel, b: nat, start: nat, length: nat)
    requires b < SpecOf(version, level).g1 + SpecOf(version, level).g2
    ensures var s := SpecOf(version, level);
      && |Burst(Layout(s), b, start, length)| <= RoundsOf(length, s.g1 + s.g2) + (if b < s.g1 then 0 else 1)
      && |Burst(EcLayout(s), b, start, length)| <= RoundsOf(length, s.g1 + s.g2)
  {
    var s := SpecOf(version, level);
    TwoWidths(version, level);
    hide Burst, SpecOf, RoundsOf;
    BurstSpreads(Layout(s), s.w1, b, start, length);
    BurstSpreads(EcLayout(s), s.ec, b, start, length);
  }

  /** Every block of a symbol has as many error-correction words. */
  function EcLayout(s: Spec): (r: seq<nat>)
    ensures |r| == s.g1 + s.g2 && forall b :: 0 <= b < |r| ==> r[b] == s.ec
  {
    seq(s.g1 + s.g2, _ => s.ec)
  }

  lemma TwoWidths(version: Version, level: EcLevel)
    ensures var s := SpecOf(version, level); s.g1 > 0 && (s.g2 > 0 ==> s.w2 == s.w1 + 1)
  {
    match version case 1 => case 2 => case 3 => case 4 => case 5 => case 6 => case 7 => case 8 => case 9 => case 10 =>
  }

  lemma Rounds(rounds: nat, n: nat, length: nat)
    requires n > 0 && Span(rounds, n) < length
    ensures rounds + 1 <= RoundsOf(length, n)
  {
    var a := length + n - 1;
    var q := a / n;
    SpanStep(rounds, n);
    SpanStep(q, n);
    assert a < Span(q + 1, n);
    SpanOrder(q + 1, rounds + 1, n);
  }

  lemma SpanOrder(a: nat, b: nat, n: nat)
    ensures a <= b ==> Span(a, n) <= Span(b, n)
  {}

  lemma {:induction false} LeastOf(s: set<nat>) returns (i: nat)
    requires s != {}
    ensures i in s && forall j :: j in s ==> i <= j
    decreases |s|
  {
    i :| i in s;
    var rest := s - {i};
    assert s == rest + {i};
    if rest == {} {
    } else {
      var j := LeastOf(rest);
      i := if j < i then j else i;
    }
  }

  lemma {:induction false} GreatestOf(s: set<nat>) returns (i: nat)
    requires s != {}
    ensures i in s && forall j :: j in s ==> j <= i
    decreases |s|
  {
    i :| i in s;
    var rest := s - {i};
    assert s == rest + {i};
    if rest == {} {
    } else {
      var j := GreatestOf(rest);
      i := if j > i then j else i;
    }
  }

  lemma {:induction false} BetweenSize(s: set<nat>, i: nat, j: nat)
    requires forall k :: k in s ==> i <= k <= j
    requires i <= j + 1
    ensures |s| <= j + 1 - i
    decreases j + 1 - i
  {
    if i == j + 1 {
      assert s == {};
    } else {
      BetweenSize(s - {i}, i + 1, j);
    }
  }

  /** Nothing is lost and nothing is duplicated. */
  lemma {:induction false} ColumnsKeepWords<T>(blocks: seq<seq<T>>, n: nat)
    ensures multiset(Columns(blocks, n)) == multiset(Concat(Truncate(blocks, n)))
  {
    hide Column, Truncate, Concat;
    if n == 0 {
      NoWords(blocks);
    } else {
      ColumnsKeepWords(blocks, n - 1);
      ColumnKeepsWords(blocks, n - 1);
    }
  }

  function Truncate<T>(blocks: seq<seq<T>>, n: nat): (r: seq<seq<T>>)
    ensures |r| == |blocks|
  {
    if blocks == [] then []
    else [if n < |blocks[0]| then blocks[0][..n] else blocks[0]] + Truncate(blocks[1..], n)
  }

  lemma {:induction false} NoWords<T>(blocks: seq<seq<T>>)
    ensures Concat(Truncate(blocks, 0)) == []
  {
    if blocks == [] {
    } else {
      NoWords(blocks[1..]);
      assert Truncate(blocks, 0)[1..] == Truncate(blocks[1..], 0);
    }
  }

  function Own<T>(block: seq<T>, i: nat): seq<T> {
    if i < |block| then [block[i]] else []
  }

  lemma TruncateCons<T>(blocks: seq<seq<T>>, i: nat)
    requires blocks != []
    ensures Concat(Truncate(blocks, i)) == Truncate([blocks[0]], i)[0] + Concat(Truncate(blocks[1..], i))
    ensures Truncate([blocks[0]], i + 1)[0] == Truncate([blocks[0]], i)[0] + Own(blocks[0], i)
    ensures Column(blocks, i) == Own(blocks[0], i) + Column(blocks[1..], i)
  {
    assert Truncate(blocks, i)[1..] == Truncate(blocks[1..], i);
  }

  lemma MultisetStep<T>(a: seq<T>, own: seq<T>, before: seq<T>, after: seq<T>, column: seq<T>)
    requires multiset(after) == multiset(before) + multiset(column)
    ensures multiset((a + own) + after) == multiset(a + before) + multiset(own + column)
  {}

  lemma {:induction false} ColumnKeepsWords<T>(blocks: seq<seq<T>>, i: nat)
    ensures multiset(Concat(Truncate(blocks, i + 1))) == multiset(Concat(Truncate(blocks, i))) + multiset(Column(blocks, i))
  {
    if blocks == [] {
    } else {
      var rest := blocks[1..];
      TruncateCons(blocks, i);
      TruncateCons(blocks, i + 1);
      hide Truncate, Column, Concat, Own;
      ColumnKeepsWords(rest, i);
      var head, own := Truncate([blocks[0]], i)[0], Own(blocks[0], i);
      MultisetStep(head, own, Concat(Truncate(rest, i)), Concat(Truncate(rest, i + 1)), Column(rest, i));
    }
  }

  lemma {:induction false} TruncateNothing<T>(blocks: seq<seq<T>>, n: nat)
    requires forall b :: 0 <= b < |blocks| ==> |blocks[b]| <= n
    ensures Truncate(blocks, n) == blocks
  {
    if blocks == [] {
    } else {
      TruncateNothing(blocks[1..], n);
    }
  }

  // ----- the blocks of a symbol -----

  /** The source's `slice`: clipped to what there is. */
  function Slice(words: seq<bv8>, at: nat, width: nat): seq<bv8> {
    if |words| <= at then [] else if |words| <= at + width then words[at..] else words[at..at + width]
  }

  function Cut(words: seq<bv8>, at: nat, n: nat, width: nat): (r: seq<seq<bv8>>)
    ensures |r| == n
  {
    if n == 0 then [] else Cut(words, at, n - 1, width) + [Slice(words, at + Span(n - 1, width), width)]
  }

  function Blocks(words: seq<bv8>, s: Spec): seq<seq<bv8>> {
    Cut(words, 0, s.g1, s.w1) + Cut(words, Span(s.g1, s.w1), s.g2, s.w2)
  }

  function EcBlocks(blocks: seq<seq<bv8>>, ec: nat): (r: seq<seq<bv8>>)
    ensures |r| == |blocks| && forall b :: 0 <= b < |r| ==> r[b] == Ec(blocks[b], ec)
  {
    seq(|blocks|, b requires 0 <= b < |blocks| => Ec(blocks[b], ec))
  }

  /** The block lengths a row of the table prescribes. */
  function Layout(s: Spec): (r: seq<nat>)
    ensures |r| == s.g1 + s.g2
  {
    seq(s.g1, _ => s.w1) + seq(s.g2, _ => s.w2)
  }

  function Longest(s: Spec): nat {
    if s.w1 >= s.w2 then s.w1 else s.w2
  }

  function Interleaved(words: seq<bv8>, s: Spec): seq<bv8> {
    var blocks := Blocks(words, s);
    Columns(blocks, Longest(s)) + Columns(EcBlocks(blocks, s.ec), s.ec)
  }

  /** What a reader that knows the row of the table makes of a symbol's words. */
  datatype Received = Received(data: seq<seq<bv8>>, ec: seq<seq<bv8>>)

  function Receive(words: seq<bv8>, s: Spec): Received {
    var split := Total(Layout(s));
    Received(Deinterleave(words, Layout(s), 0),
             Deinterleave(if split <= |words| then words[split..] else [], EcLayout(s), 0))
  }

  lemma {:induction false} CutWhole(words: seq<bv8>, at: nat, n: nat, width: nat)
    requires at + Span(n, width) <= |words|
    ensures Concat(Cut(words, at, n, width)) == words[at..at + Span(n, width)]
    ensures forall b :: 0 <= b < n ==> |Cut(words, at, n, width)[b]| == width
  {
    hide Span, Concat;
    if n == 0 {
      SpanStep(n, width);
      ConcatNone<bv8>();
    } else {
      SpanStep(n - 1, width);
      var m := at + Span(n - 1, width);
      CutWhole(words, at, n - 1, width);
      var before, last := Cut(words, at, n - 1, width), Slice(words, m, width);
      assert Cut(words, at, n, width) == before + [last] && last == words[m..m + width];
      hide Cut, Slice;
      ConcatLast(before, last);
      assert words[at..m] + words[m..m + width] == words[at..m + width];
    }
  }

  /** The blocks are the words, cut as the row prescribes. */
  lemma BlocksAreWords(words: seq<bv8>, s: Spec)
    requires |words| == s.g1 * s.w1 + s.g2 * s.w2
    ensures Concat(Blocks(words, s)) == words && Lengths(Blocks(words, s)) == Layout(s)
  {
    var m, k := Span(s.g1, s.w1), Span(s.g2, s.w2);
    assert |words| == m + k;
    hide Span, Concat, Cut;
    CutWhole(words, 0, s.g1, s.w1);
    CutWhole(words, m, s.g2, s.w2);
    ConcatTwo(Cut(words, 0, s.g1, s.w1), Cut(words, m, s.g2, s.w2));
    assert words[0..m] + words[m..m + k] == words;
  }

  lemma {:induction false} TotalRepeated(n: nat, width: nat)
    ensures Total(seq(n, _ => width)) == n * width
  {
    if n == 0 {
    } else {
      assert seq(n, _ => width)[1..] == seq(n - 1, _ => width);
      TotalRepeated(n - 1, width);
    }
  }

  lemma {:induction false} TotalTwo(u: seq<nat>, v: seq<nat>)
    ensures Total(u + v) == Total(u) + Total(v)
  {
    if u == [] {
      assert u + v == v;
    } else {
      assert (u + v)[1..] == u[1..] + v;
      TotalTwo(u[1..], v);
    }
  }

  lemma TotalLayout(s: Spec)
    ensures Total(Layout(s)) == s.g1 * s.w1 + s.g2 * s.w2
  {
    TotalTwo(seq(s.g1, _ => s.w1), seq(s.g2, _ => s.w2));
    TotalRepeated(s.g1, s.w1);
    TotalRepeated(s.g2, s.w2);
  }

  lemma BlocksFit(words: seq<bv8>, s: Spec)
    requires |words| == s.g1 * s.w1 + s.g2 * s.w2
    ensures forall b :: 0 <= b < |Blocks(words, s)| ==> |Blocks(words, s)[b]| <= Longest(s)
  {
    BlocksAreWords(words, s);
    forall b | 0 <= b < |Blocks(words, s)| ensures |Blocks(words, s)[b]| <= Longest(s) {
      assert |Blocks(words, s)[b]| == Lengths(Blocks(words, s))[b] == Layout(s)[b];
    }
  }

  lemma ReceiveColumns(blocks: seq<seq<bv8>>, ecs: seq<seq<bv8>>, n: nat, s: Spec)
    requires Lengths(blocks) == Layout(s) && forall b :: 0 <= b < |blocks| ==> |blocks[b]| <= n
    requires |ecs| == |blocks| && forall b :: 0 <= b < |ecs| ==> |ecs[b]| == s.ec
    ensures Receive(Columns(blocks, n) + Columns(ecs, s.ec), s) == Received(blocks, ecs)
  {
    hide Columns, Total, Deinterleave, Layout;
    var first, second := Columns(blocks, n), Columns(ecs, s.ec);
    DeinterleaveColumns(blocks, n, second, 0);
    DeinterleaveColumns(ecs, s.ec, [], 0);
    assert Lengths(ecs) == EcLayout(s);
    assert (first + second)[|first|..] == second == second + [];
  }

  /** De-interleaving a symbol's words returns its blocks and their error-correction words. */
  lemma ReceiveInterleaved(words: seq<bv8>, s: Spec)
    requires |words| == s.g1 * s.w1 + s.g2 * s.w2 && s.ec > 0
    ensures Receive(Interleaved(words, s), s) == Received(Blocks(words, s), EcBlocks(Blocks(words, s), s.ec))
  {
    hide Blocks, Columns, Longest, Ec, Receive;
    BlocksAreWords(words, s);
    BlocksFit(words, s);
    var blocks := Blocks(words, s);
    ReceiveColumns(blocks, EcBlocks(blocks, s.ec), Longest(s), s);
  }

  lemma InterleavedLength(words: seq<bv8>, s: Spec)
    requires |words| == s.g1 * s.w1 + s.g2 * s.w2 && s.ec > 0
    ensures |Interleaved(words, s)| == |words| + (s.g1 + s.g2) * s.ec
  {
    hide Blocks, Columns, Longest, Ec, Layout, Total, Deinterleave;
    BlocksAreWords(words, s);
    BlocksFit(words, s);
    TotalLayout(s);
    var blocks := Blocks(words, s);
    var ecs := EcBlocks(blocks, s.ec);
    DeinterleaveColumns(blocks, Longest(s), [], 0);
    DeinterleaveColumns(ecs, s.ec, [], 0);
    assert Lengths(ecs) == EcLayout(s);
    TotalRepeated(s.g1 + s.g2, s.ec);
  }

  /** So a reader gets the data words back, block by block and in order, each block with its
      own error-correction words, and every such pair is a codeword; and the words number as
      many as the row says. */
  lemma InterleaveInvertible(words: seq<bv8>, s: Spec)
    requires |words| == s.g1 * s.w1 + s.g2 * s.w2 && s.ec > 0
    ensures var r := Receive(Interleaved(words, s), s);
            && Concat(r.data) == words && Lengths(r.data) == Layout(s)
            && |r.data| == |r.ec| == s.g1 + s.g2
            && forall b :: 0 <= b < |r.data| ==> r.ec[b] == Ec(r.data[b], s.ec) && Codeword(r.data[b] + r.ec[b], s.ec)
    ensures |Interleaved(words, s)| == |words| + (s.g1 + s.g2) * s.ec
  {
    hide Blocks, Columns, Ec, Receive, Interleaved, Codeword;
    InterleavedLength(words, s);
    var blocks := Blocks(words, s);
    ReceiveInterleaved(words, s);
    BlocksAreWords(words, s);
    forall b | 0 <= b < |blocks| ensures Codeword(blocks[b] + Ec(blocks[b], s.ec), s.ec) {
      SyndromesVanish(blocks[b], s.ec);
    }
  }

  /** No word is lost and none is duplicated on the way. */
  lemma InterleaveKeepsWords(words: seq<bv8>, s: Spec)
    requires |words| == s.g1 * s.w1 + s.g2 * s.w2
    ensures multiset(Columns(Blocks(words, s), Longest(s))) == multiset(words)
  {
    hide Blocks, Columns, Column, Ec, Longest;
    var blocks := Blocks(words, s);
    BlocksAreWords(words, s);
    BlocksFit(words, s);
    ColumnsKeepWords(blocks, Longest(s));
    TruncateNothing(blocks, Longest(s));
  }

  // ----- the source's loops -----

  method SplitBlocks(words: seq<bv8>, s: Spec) returns (blocks: seq<seq<bv8>>)
    ensures blocks == Blocks(words, s)
  {
    var group1, at := CutGroup(words, 0, s.g1, s.w1);
    var group2, end := CutGroup(words, at, s.g2, s.w2);
    blocks := group1 + group2;
  }

  method CutGroup(words: seq<bv8>, start: nat, n: nat, width: nat) returns (blocks: seq<seq<bv8>>, at: nat)
    ensures blocks == Cut(words, start, n, width) && at == start + Span(n, width)
  {
    SpanStep(0, width);
    hide Span;
    blocks, at := [], start;
    for i := 0 to n
      invariant blocks == Cut(words, start, i, width) && at == start + Span(i, width)
    {
      SpanStep(i, width);
      blocks := blocks + [Slice(words, at, width)];
      at := at + width;
    }
  }

  lemma ColumnStep<T>(out: seq<T>, blocks: seq<seq<T>>, b: nat, i: nat)
    requires b < |blocks|
    ensures out + Column(blocks[b..], i) == (out + Own(blocks[b], i)) + Column(blocks[b + 1..], i)
  {
    assert blocks[b..][1..] == blocks[b + 1..];
    assert out + (Own(blocks[b], i) + Column(blocks[b + 1..], i)) == (out + Own(blocks[b], i)) + Column(blocks[b + 1..], i);
  }

  lemma ColumnEnds<T>(blocks: seq<seq<T>>, i: nat)
    ensures Column(blocks[0..], i) == Column(blocks, i) && Column(blocks[|blocks|..], i) == []
  {
    assert blocks[0..] == blocks;
  }

  /** Reads `blocks` column by column; `n` columns of them. */
  method TakeColumns(blocks: seq<seq<bv8>>, n: nat) returns (out: seq<bv8>)
    ensures out == Columns(blocks, n)
  {
    hide Column;
    out := [];
    for i := 0 to n
      invariant out == Columns(blocks, i)
    {
      ColumnEnds(blocks, i);
      for b := 0 to |blocks|
        invariant out + Column(blocks[b..], i) == Columns(blocks, i + 1)
      {
        ColumnStep(out, blocks, b, i);
        if i < |blocks[b]| {
          out := out + [blocks[b][i]];
        }
      }
    }
  }

  method Interleave(tables: Tables, words: seq<bv8>, version: Version, level: EcLevel) returns (out: seq<bv8>)
    requires tables.Valid()
    ensures out == Interleaved(words, SpecOf(version, level))
  {
    hide Blocks, Columns, SpecOf, Ec;
    var s := SpecOf(version, level);
    var blocks := SplitBlocks(words, s);
    var ecBlocks: seq<seq<bv8>> := [];
    for b := 0 to |blocks|
      invariant |ecBlocks| == b && forall k :: 0 <= k < b ==> ecBlocks[k] == Ec(blocks[k], s.ec)
    {
      var ec := EcCodewords(tables, blocks[b], s.ec);
      ecBlocks := ecBlocks + [ec];
    }
    assert ecBlocks == EcBlocks(blocks, s.ec);
    var data := TakeColumns(blocks, if s.w1 >= s.w2 then s.w1 else s.w2);
    var ec := TakeColumns(ecBlocks, s.ec);
    out := data + ec;
  }
}
