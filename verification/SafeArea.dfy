/** The safe-area check, and when a derived layer fails it
    (packages/designer-runtime/src/presets.ts:199-342). */
module SafeArea {
  import opened Frames
  import opened Outcomes
  import opened Presets

  datatype SafeEdge = InlineStartEdge | InlineEndEdge | BlockStartEdge | BlockEndEdge

  datatype Overflow = Overflow(edge: SafeEdge, px: int)

  datatype Violation = Violation(layerId: string, edges: seq<Overflow>)

  /** `derive`: the layers that survive on this page, as they are there. */
  function Derive(src: Box, target: PresetName, layers: seq<Layer>): seq<Layer>
    requires src.w > 0 && src.h > 0 && forall l :: l in layers ==> l.frame.w > 0
  {
    if layers == [] then []
    else
      (if target in layers[0].hideAt then [] else [DerivedLayer(src, target, layers[0])])
      + Derive(src, target, layers[1..])
  }

  /** By how much a frame crosses an edge of the box. */
  function Crossing(box: Box, f: Frame, edge: SafeEdge): int {
    match edge
    case InlineStartEdge => box.x - f.x
    case InlineEndEdge => f.x + f.w - (box.x + box.w)
    case BlockStartEdge => box.y - f.y
    case BlockEndEdge => f.y + f.h - (box.y + box.h)
  }

  function Overflows(box: Box, f: Frame): (edges: seq<Overflow>)
    ensures forall edge, px :: Overflow(edge, px) in edges <==> px == Crossing(box, f, edge) > 0
    ensures edges == [] <==> Inside(box, f)
  {
    OverflowOf(box, f, InlineStartEdge) + OverflowOf(box, f, BlockStartEdge)
    + OverflowOf(box, f, InlineEndEdge) + OverflowOf(box, f, BlockEndEdge)
  }

  function OverflowOf(box: Box, f: Frame, edge: SafeEdge): seq<Overflow> {
    if Crossing(box, f, edge) > 0 then [Overflow(edge, Crossing(box, f, edge))] else []
  }

  /** One report, in document order, for each visible layer that crosses an edge. */
  function Violations(box: Box, layers: seq<Layer>): seq<Violation> {
    if layers == [] then []
    else
      var last := layers[|layers| - 1];
      Violations(box, layers[..|layers| - 1])
      + if last.hidden || Inside(box, last.frame) then [] else [Violation(last.id, Overflows(box, last.frame))]
  }

  method EdgesOf(box: Box, f: Frame) returns (edges: seq<Overflow>)
    ensures edges == Overflows(box, f)
  {
    hide Inside;
    var a, b := OverflowOf(box, f, InlineStartEdge), OverflowOf(box, f, BlockStartEdge);
    edges := [];
    if f.x < box.x {
      edges := edges + [Overflow(InlineStartEdge, box.x - f.x)];
    }
    assert edges == a;
    if f.y < box.y {
      edges := edges + [Overflow(BlockStartEdge, box.y - f.y)];
    }
    assert edges == a + b;
    if f.x + f.w > box.x + box.w {
      edges := edges + [Overflow(InlineEndEdge, f.x + f.w - (box.x + box.w))];
    }
    assert edges == a + b + OverflowOf(box, f, InlineEndEdge);
    if f.y + f.h > box.y + box.h {
      edges := edges + [Overflow(BlockEndEdge, f.y + f.h - (box.y + box.h))];
    }
  }

  method SafeAreaViolations(doc: Doc, target: PresetName) returns (out: seq<Violation>)
    requires Valid(doc)
    ensures SourceSafeBox(doc).w > 0 && SourceSafeBox(doc).h > 0
    ensures out == Violations(SafeBox(PresetOf(target)), Derive(SourceSafeBox(doc), target, doc.layers))
  {
    BoxesHaveRoom(doc, target);
    var box := SafeBox(PresetOf(target));
    var derived := Derive(SourceSafeBox(doc), target, doc.layers);
    hide SafeBox, SourceSafeBox, PresetOf, Derive;
    out := [];
    for i := 0 to |derived|
      invariant out == Violations(box, derived[..i])
    {
      var layer := derived[i];
      assert derived[..i + 1][..i] == derived[..i];
      if layer.hidden {
        continue;
      }
      var f := layer.frame;
      var edges := EdgesOf(box, f);
      if edges != [] {
        out := out + [Violation(layer.id, edges)];
      }
    }
    assert derived[..|derived|] == derived;
  }

  lemma {:induction false} DerivedFrom(src: Box, target: PresetName, layers: seq<Layer>, d: Layer) returns (l: Layer)
    requires src.w > 0 && src.h > 0 && forall l :: l in layers ==> l.frame.w > 0
    requires d in Derive(src, target, layers)
    ensures l in layers && target !in l.hideAt && d == DerivedLayer(src, target, l)
  {
    var rest := layers[1..];
    if target !in layers[0].hideAt && d == DerivedLayer(src, target, layers[0]) {
      l := layers[0];
    } else {
      l := DerivedFrom(src, target, rest, d);
    }
  }

  lemma {:induction false} ReportedFrom(box: Box, layers: seq<Layer>, v: Violation) returns (l: Layer)
    requires v in Violations(box, layers)
    ensures l in layers && !l.hidden && !Inside(box, l.frame) && v == Violation(l.id, Overflows(box, l.frame))
  {
    var n := |layers| - 1;
    if v in Violations(box, layers[..n]) {
      l := ReportedFrom(box, layers[..n], v);
    } else {
      l := layers[n];
    }
  }

  // ----- the pixel that rounding adds -----

  predicate Half(x: real) { x - x.Floor as real == 0.5 }

  /** On one axis, rounding passes an end edge exactly when the part is flush with it and its size
      ends in a half: then its start does too, and both round up. */
  lemma AxisPixel(end: int, at: real, size: real)
    requires at + size <= end as real
    ensures Round(at) + Round(size) > end <==> at + size == end as real && Half(size)
    ensures Round(at) + Round(size) <= end + 1
  {
    RoundUpAtHalf(at);
    RoundUpAtHalf(size);
    hide Round;
    var i, j := at.Floor, size.Floor;
    var a, b := at - i as real, size - j as real;
    assert (i + j) as real + a + b <= end as real;
    if a >= 0.5 && b >= 0.5 {
      assert i + j + 1 <= end;
    }
  }

  lemma RoundUpAtHalf(x: real)
    ensures Round(x) == x.Floor + if x - x.Floor as real >= 0.5 then 1 else 0
  {
  }

  /** So a frame that is inside the box before it is rounded keeps both start edges, and crosses an
      end edge, by one pixel, in just that case. */
  lemma RoundedCrosses(box: Box, f: Frame, e: Exact)
    requires ExactlyInside(box, e)
    ensures var r := Rounded(f, e);
      && box.x <= r.x && r.x + r.w <= box.x + box.w + 1
      && box.y <= r.y && r.y + r.h <= box.y + box.h + 1
      && (r.x + r.w > box.x + box.w <==> e.x + e.w == (box.x + box.w) as real && Half(e.w))
      && (r.y + r.h > box.y + box.h <==> e.y + e.h == (box.y + box.h) as real && Half(e.h))
  {
    AxisPixel(box.x + box.w, e.x, e.w);
    AxisPixel(box.y + box.h, e.y, e.h);
  }

  /** The source frame is flush with the end of the source's safe box, stays flush on the target, and
      scales to a width that ends in a half. */
  predicate InlinePixel(src: Box, dst: Box, f: Frame, b: Settled)
    requires src.w > 0 && src.h > 0
  {
    && f.x + f.w == src.x + src.w
    && (b.inlineAnchor == End || Shrink(src, dst) == Ratio(dst.w, src.w))
    && Half(Times(f.w, Shrink(src, dst)))
  }

  /** The same on the block axis, where a centred layer is never flush at half a pixel. */
  predicate BlockPixel(src: Box, dst: Box, f: Frame, b: Settled)
    requires src.w > 0 && src.h > 0
  {
    && b.anchor != Center
    && f.y + f.h == src.y + src.h
    && (b.anchor == BlockEnd || Shrink(src, dst) == Ratio(dst.h, src.h))
    && Half(Times(f.h, Shrink(src, dst)))
  }

  lemma FlushWhen(offset: int, size: int, whole: int, room: int, k: real)
    requires 0 <= offset && 0 <= size && offset + size <= whole && whole > 0 && 0.0 < k <= Ratio(room, whole) && room > 0
    ensures Times(offset, k) + Times(size, k) == room as real <==> offset + size == whole && k == Ratio(room, whole)
    ensures Times(offset, k) == 0.0 <==> offset == 0
  {
    var part, full := offset + size, Ratio(room, whole);
    Spread(offset, size, k);
    assert Times(whole, full) == room as real;
    if part < whole {
      assert part as real * k < whole as real * k;
      assert whole as real * k <= whole as real * full;
    } else if k < full {
      assert whole as real * k < whole as real * full;
    }
  }

  /** A proportional layer inside the source's safe box is reported at no start edge, and at an end edge
      exactly when its source frame says so, by one pixel. */
  lemma CrossesExactly(src: Box, dst: Box, f: Frame, b: Settled)
    requires src.w > 0 && src.h > 0 && dst.w > 0 && dst.h > 0 && f.w > 0 && f.h > 0
    requires b.scale == Proportional && Inside(src, f)
    ensures var r := Rounded(f, ExactFrame(src, dst, f, b));
      && Crossing(dst, r, InlineStartEdge) <= 0 && Crossing(dst, r, BlockStartEdge) <= 0
      && (if InlinePixel(src, dst, f, b) then Crossing(dst, r, InlineEndEdge) == 1 else Crossing(dst, r, InlineEndEdge) <= 0)
      && (if BlockPixel(src, dst, f, b) then Crossing(dst, r, BlockEndEdge) == 1 else Crossing(dst, r, BlockEndEdge) <= 0)
  {
    var e, k := ExactFrame(src, dst, f, b), Shrink(src, dst);
    ProportionalStaysInside(src, dst, f, b);
    RoundedCrosses(dst, f, e);
    FlushInline(src, dst, f, b);
    FlushBlock(src, dst, f, b);
  }

  lemma FlushInline(src: Box, dst: Box, f: Frame, b: Settled)
    requires src.w > 0 && src.h > 0 && dst.w > 0 && dst.h > 0 && f.w > 0 && f.h > 0
    requires b.scale == Proportional && Inside(src, f)
    ensures var e := ExactFrame(src, dst, f, b);
      e.x + e.w == (dst.x + dst.w) as real && Half(e.w) <==> InlinePixel(src, dst, f, b)
  {
    var k := Shrink(src, dst);
    assert Ratio(dst.w, src.w) > 0.0 && Ratio(dst.h, src.h) > 0.0;
    ProportionalStaysInside(src, dst, f, b);
    hide Ratio, Times, Pulled, Half;
    FlushWhen(f.x - src.x, f.w, src.w, dst.w, k);
    FlushWhen(src.x + src.w - (f.x + f.w), f.w, src.w, dst.w, k);
  }

  lemma FlushBlock(src: Box, dst: Box, f: Frame, b: Settled)
    requires src.w > 0 && src.h > 0 && dst.w > 0 && dst.h > 0 && f.w > 0 && f.h > 0
    requires b.scale == Proportional && Inside(src, f)
    ensures var e := ExactFrame(src, dst, f, b);
      e.y + e.h == (dst.y + dst.h) as real && Half(e.h) <==> BlockPixel(src, dst, f, b)
  {
    var k := Shrink(src, dst);
    assert Ratio(dst.w, src.w) > 0.0 && Ratio(dst.h, src.h) > 0.0;
    assert !Half(dst.h as real);
    hide Ratio, Times, Pulled, Half;
    FlushWhen(f.y - src.y, f.h, src.h, dst.h, k);
    FlushWhen(src.y + src.h - (f.y + f.h), f.h, src.h, dst.h, k);
  }

  // ----- what is reported -----

  /** Each report is about a visible layer that survives on the page, and lists exactly the edges its
      derived frame crosses.  If that layer is proportional and inside the source's safe box, whatever
      the others are, those are end edges, by one pixel, and its source frame says which. */
  lemma ReportSays(doc: Doc, target: PresetName, v: Violation) returns (l: Layer)
    requires Valid(doc) && SourceSafeBox(doc).w > 0 && SourceSafeBox(doc).h > 0
    requires v in Violations(SafeBox(PresetOf(target)), Derive(SourceSafeBox(doc), target, doc.layers))
    ensures var src, dst, b := SourceSafeBox(doc), SafeBox(PresetOf(target)), BehaviourFor(l, target);
      && l in doc.layers && !l.hidden && target !in l.hideAt
      && v == Violation(l.id, Overflows(dst, Derived(src, target, l)))
      && (b.scale == Proportional && Inside(src, l.frame) ==> forall o :: o in v.edges ==>
            && o.px == 1
            && ((o.edge == InlineEndEdge && InlinePixel(src, dst, l.frame, b))
                || (o.edge == BlockEndEdge && BlockPixel(src, dst, l.frame, b))))
  {
    hide SourceSafeBox, SafeBox, PresetOf, BehaviourFor, Shrink, InlinePixel, BlockPixel;
    BoxesHaveRoom(doc, target);
    var src, dst := SourceSafeBox(doc), SafeBox(PresetOf(target));
    var d := ReportedFrom(dst, Derive(src, target, doc.layers), v);
    l := DerivedFrom(src, target, doc.layers, d);
    var b := BehaviourFor(l, target);
    if b.scale == Proportional && Inside(src, l.frame) {
      CrossesExactly(src, dst, l.frame, b);
      forall o | o in v.edges
        ensures o.px == 1 && ((o.edge == InlineEndEdge && InlinePixel(src, dst, l.frame, b))
                              || (o.edge == BlockEndEdge && BlockPixel(src, dst, l.frame, b)))
      {
        assert Overflow(o.edge, o.px) in Overflows(dst, d.frame);
      }
    }
  }

  /** A visible, proportional layer inside the source's safe box is reported exactly when one of the two
      conditions on its source frame holds. */
  lemma ReportedWhen(doc: Doc, target: PresetName, l: Layer)
    requires Valid(doc) && SourceSafeBox(doc).w > 0 && SourceSafeBox(doc).h > 0
    requires l in doc.layers && !l.hidden && target !in l.hideAt
    requires BehaviourFor(l, target).scale == Proportional && Inside(SourceSafeBox(doc), l.frame)
    ensures var src, dst, b := SourceSafeBox(doc), SafeBox(PresetOf(target)), BehaviourFor(l, target);
      Violation(l.id, Overflows(dst, Derived(src, target, l))) in Violations(dst, Derive(src, target, doc.layers))
      <==> InlinePixel(src, dst, l.frame, b) || BlockPixel(src, dst, l.frame, b)
  {
    hide SourceSafeBox, SafeBox, PresetOf, BehaviourFor, Shrink, InlinePixel, BlockPixel, ExactFrame;
    BoxesHaveRoom(doc, target);
    var src, dst, b := SourceSafeBox(doc), SafeBox(PresetOf(target)), BehaviourFor(l, target);
    CrossesExactly(src, dst, l.frame, b);
    InListIffOutside(doc, target, l);
  }

  lemma {:induction false} DeriveKeeps(src: Box, target: PresetName, layers: seq<Layer>, l: Layer)
    requires src.w > 0 && src.h > 0 && forall l :: l in layers ==> l.frame.w > 0
    requires l in layers && target !in l.hideAt
    ensures DerivedLayer(src, target, l) in Derive(src, target, layers)
  {
    hide DerivedLayer;
    var rest := layers[1..];
    assert layers == [layers[0]] + rest;
    if l == layers[0] {
    } else {
      DeriveKeeps(src, target, rest, l);
    }
  }

  lemma {:induction false} CrossingIsReported(box: Box, layers: seq<Layer>, d: Layer)
    requires d in layers && !d.hidden && !Inside(box, d.frame)
    ensures Violation(d.id, Overflows(box, d.frame)) in Violations(box, layers)
  {
    hide Overflows, Inside;
    var n := |layers| - 1;
    var rest := layers[..n];
    assert layers == rest + [layers[n]];
    if d == layers[n] {
    } else {
      CrossingIsReported(box, rest, d);
    }
  }

  /** Such a layer is flush with the end of the poster's safe box and 230 px wide: on A4 it comes to
      half pixels, and both its start and its width round up. */
  lemma OnePixelHappens(doc: Doc, l: Layer)
    requires doc == Doc(1080, 1350, [l]) && l.frame == Frame(770, 80, 230, 100, None)
    requires l.id == "a" && !l.hidden && l.hideAt == {} && l.fallback == NOTHING_DECLARED && l.declared == map[]
    ensures Valid(doc) && SourceSafeBox(doc).w > 0 && SourceSafeBox(doc).h > 0 && Inside(SourceSafeBox(doc), l.frame)
    ensures Violations(SafeBox(PresetOf(A4)), Derive(SourceSafeBox(doc), A4, doc.layers))
      == [Violation("a", [Overflow(InlineEndEdge, 1)])]
  {
    AtHome(doc, Master);
    var src, dst := SourceSafeBox(doc), SafeBox(PresetOf(A4));
    assert src == Box(80, 80, 920, 1190) && dst == Box(59, 59, 2362, 3390);
    assert Shrink(src, dst) == 2362.0 / 920.0;
    assert Times(690, 2362.0 / 920.0) == 1771.5 && Times(230, 2362.0 / 920.0) == 590.5;
    var e := ExactFrame(src, dst, l.frame, BehaviourFor(l, A4));
    assert e.x == 1830.5 && e.w == 590.5;
    var d := DerivedLayer(src, A4, l);
    assert Derive(src, A4, doc.layers) == [d];
    assert d.frame == Frame(1831, 59, 591, 257, None);
    assert [d][..0] == [] && Violations(dst, [d][..0]) == [];
    assert Overflows(dst, d.frame) == [Overflow(InlineEndEdge, 1)];
  }

  // ----- every mode but `Page`, edge by edge -----

  /** On one axis, rounding passes the end edge exactly from this place on. */
  lemma AxisEnd(end: int, at: real, size: real)
    ensures Round(at) + Round(size) > end <==> at >= (end - Round(size)) as real + 0.5
  {
    hide Round;
    RoundFrom(at, end - Round(size) + 1);
  }

  lemma RoundFrom(x: real, n: int)
    ensures Round(x) >= n <==> x >= n as real - 0.5
  {
  }

  /** Nothing passes the inline start edge; the end edge is passed by a layer that is still wider than the
      box when rounded, or by one that reaches the edge, or is pulled to it, with half a pixel in its width. */
  predicate InlineEndCrossed(src: Box, dst: Box, f: Frame, b: Settled)
    requires src.w > 0 && src.h > 0 && f.w > 0
  {
    var k := Factor(src, dst, f, b.scale);
    var w := if b.scale == Fill then dst.w as real else Times(f.w, k);
    var x := if b.scale == Fill then dst.x as real else Across(src, dst, f, b.inlineAnchor, k, w);
    if w > dst.w as real then Round(w) > dst.w else Half(w) && x + w >= (dst.x + dst.w) as real
  }

  /** Nothing pulls a layer on the block axis: it passes the start edge when it sat more than half a pixel
      past it, scaled, or reaches that far up from the end, or is that much too high to be centred. */
  predicate BlockStartCrossed(src: Box, dst: Box, f: Frame, b: Settled)
    requires src.w > 0 && src.h > 0 && f.w > 0
  {
    var k := Factor(src, dst, f, b.scale);
    match b.anchor
    case BlockStart => Times(f.y - src.y, k) < -0.5
    case BlockEnd => Times(src.y + src.h - f.y, k) > dst.h as real + 0.5
    case Center => Times(f.h, k) > dst.h as real + 1.0
  }

  predicate BlockEndCrossed(src: Box, dst: Box, f: Frame, b: Settled)
    requires src.w > 0 && src.h > 0 && f.w > 0
  {
    var k := Factor(src, dst, f, b.scale);
    var h := Times(f.h, k);
    match b.anchor
    case BlockStart => Times(f.y - src.y, k) >= (dst.h - Round(h)) as real + 0.5
    case BlockEnd => Times(src.y + src.h - (f.y + f.h), k) <= Round(h) as real - h - 0.5
    case Center => Round(h) as real - h / 2.0 >= dst.h as real / 2.0 + 0.5
  }

  /** Which edges a derived layer crosses, read off its source frame: for every mode but `Page`, every
      anchor, and a layer anywhere. */
  lemma EdgesCrossed(src: Box, dst: Box, f: Frame, b: Settled)
    requires src.w > 0 && src.h > 0 && dst.w > 0 && dst.h > 0 && f.w > 0
    ensures var r := Rounded(f, ExactFrame(src, dst, f, b));
      && Crossing(dst, r, InlineStartEdge) <= 0
      && (Crossing(dst, r, InlineEndEdge) > 0 <==> InlineEndCrossed(src, dst, f, b))
      && (Crossing(dst, r, BlockStartEdge) > 0 <==> BlockStartCrossed(src, dst, f, b))
      && (Crossing(dst, r, BlockEndEdge) > 0 <==> BlockEndCrossed(src, dst, f, b))
  {
    var k := Factor(src, dst, f, b.scale);
    var w := if b.scale == Fill then dst.w as real else Times(f.w, k);
    var x := if b.scale == Fill then dst.x as real else Across(src, dst, f, b.inlineAnchor, k, w);
    PulledEnd(dst, x, w);
    BlockAxis(src, dst, f, b);
    hide Factor, Times, Across, Down, Pulled, Round, Half;
  }

  lemma PulledEnd(dst: Box, x: real, w: real)
    requires dst.w > 0
    ensures Round(Pulled(x, w, dst)) >= dst.x
    ensures Round(Pulled(x, w, dst)) + Round(w) > dst.x + dst.w <==>
      if w > dst.w as real then Round(w) > dst.w else Half(w) && x + w >= (dst.x + dst.w) as real
  {
    var p := Pulled(x, w, dst);
    RoundFrom(p, dst.x);
    if w > dst.w as real {
      assert p == dst.x as real;
      RoundFrom(p, dst.x + 1);
    } else {
      AxisPixel(dst.x + dst.w, p, w);
      assert w == dst.w as real ==> !Half(w);
    }
  }

  lemma BlockAxis(src: Box, dst: Box, f: Frame, b: Settled)
    requires src.w > 0 && src.h > 0 && dst.w > 0 && dst.h > 0 && f.w > 0
    ensures var k := Factor(src, dst, f, b.scale);
      var h := Times(f.h, k);
      var y := Down(src, dst, f, b.anchor, k, h);
      && (dst.y > Round(y) <==> BlockStartCrossed(src, dst, f, b))
      && (Round(y) + Round(h) > dst.y + dst.h <==> BlockEndCrossed(src, dst, f, b))
  {
    var k := Factor(src, dst, f, b.scale);
    var h := Times(f.h, k);
    var y := Down(src, dst, f, b.anchor, k, h);
    Spread(src.y + src.h - (f.y + f.h), f.h, k);
    RoundFrom(y, dst.y);
    AxisEnd(dst.y + dst.h, y, h);
    hide Factor, Times, Round;
  }

  predicate EdgeCrossed(src: Box, dst: Box, f: Frame, b: Settled)
    requires src.w > 0 && src.h > 0 && f.w > 0
  {
    b.scale == Page || InlineEndCrossed(src, dst, f, b) || BlockStartCrossed(src, dst, f, b) || BlockEndCrossed(src, dst, f, b)
  }

  /** Every visible layer that survives on the page, whatever its mode and wherever it is, is reported
      exactly when its source frame says so. */
  lemma ReportedIff(doc: Doc, target: PresetName, l: Layer)
    requires Valid(doc) && SourceSafeBox(doc).w > 0 && SourceSafeBox(doc).h > 0
    requires l in doc.layers && !l.hidden && target !in l.hideAt
    ensures var src, dst := SourceSafeBox(doc), SafeBox(PresetOf(target));
      Violation(l.id, Overflows(dst, Derived(src, target, l))) in Violations(dst, Derive(src, target, doc.layers))
      <==> EdgeCrossed(src, dst, l.frame, BehaviourFor(l, target))
  {
    BoxesHaveRoom(doc, target);
    var src, dst, b := SourceSafeBox(doc), SafeBox(PresetOf(target)), BehaviourFor(l, target);
    if b.scale == Page {
      PageAlwaysReported(src, target, l);
    }
    hide SourceSafeBox, SafeBox, PresetOf, BehaviourFor, InlineEndCrossed, BlockStartCrossed, BlockEndCrossed, ExactFrame;
    EdgesCrossed(src, dst, l.frame, b);
    InListIffOutside(doc, target, l);
  }

  lemma InListIffOutside(doc: Doc, target: PresetName, l: Layer)
    requires Valid(doc) && SourceSafeBox(doc).w > 0 && SourceSafeBox(doc).h > 0
    requires l in doc.layers && !l.hidden && target !in l.hideAt
    ensures var src, dst := SourceSafeBox(doc), SafeBox(PresetOf(target));
      Violation(l.id, Overflows(dst, Derived(src, target, l))) in Violations(dst, Derive(src, target, doc.layers))
      <==> !Inside(dst, Derived(src, target, l))
  {
    hide SourceSafeBox, SafeBox, PresetOf, BehaviourFor, Derive, Violations, Derived;
    var src, dst := SourceSafeBox(doc), SafeBox(PresetOf(target));
    var d := DerivedLayer(src, target, l);
    DeriveKeeps(src, target, doc.layers, l);
    var v := Violation(d.id, Overflows(dst, d.frame));
    if Inside(dst, d.frame) {
      if v in Violations(dst, Derive(src, target, doc.layers)) {
        var other := ReportedFrom(dst, Derive(src, target, doc.layers), v);
      }
    } else {
      CrossingIsReported(dst, Derive(src, target, doc.layers), d);
    }
  }

  /** A fixed layer no larger than the box leaves it exactly when, held at one block edge, it sat outside
      that edge or reaches further from it than the box is high. */
  predicate FixedLeaves(src: Box, dst: Box, f: Frame, anchor: Anchor) {
    match anchor
    case BlockStart => f.y < src.y || f.y + f.h - src.y > dst.h
    case BlockEnd => f.y + f.h > src.y + src.h || src.y + src.h - f.y > dst.h
    case Center => false
  }

  /** So size alone does not decide it. */
  lemma FixedReportedIff(doc: Doc, target: PresetName, l: Layer)
    requires Valid(doc) && SourceSafeBox(doc).w > 0 && SourceSafeBox(doc).h > 0
    requires l in doc.layers && !l.hidden && target !in l.hideAt && BehaviourFor(l, target).scale == Fixed
    requires l.frame.w <= SafeBox(PresetOf(target)).w && l.frame.h <= SafeBox(PresetOf(target)).h
    ensures var src, dst := SourceSafeBox(doc), SafeBox(PresetOf(target));
      Violation(l.id, Overflows(dst, Derived(src, target, l))) in Violations(dst, Derive(src, target, doc.layers))
      <==> FixedLeaves(src, dst, l.frame, BehaviourFor(l, target).anchor)
  {
    BoxesHaveRoom(doc, target);
    hide SourceSafeBox, SafeBox, PresetOf, BehaviourFor, Violations, Derive, Derived;
    var src, dst, f, b := SourceSafeBox(doc), SafeBox(PresetOf(target)), l.frame, BehaviourFor(l, target);
    ReportedIff(doc, target, l);
    FixedEdges(src, dst, f, b);
  }

  lemma FixedEdges(src: Box, dst: Box, f: Frame, b: Settled)
    requires src.w > 0 && src.h > 0 && dst.w > 0 && dst.h > 0 && f.w > 0 && f.h > 0 && b.scale == Fixed
    requires f.w <= dst.w && f.h <= dst.h
    ensures EdgeCrossed(src, dst, f, b) <==> FixedLeaves(src, dst, f, b.anchor)
  {
    WholeTimes(f.w);
    WholeTimes(f.h);
    WholeTimes(f.y - src.y);
    WholeTimes(src.y + src.h - f.y);
    WholeTimes(src.y + src.h - (f.y + f.h));
    assert !Half(f.w as real);
    hide Times;
  }

  lemma WholeTimes(a: int)
    ensures Times(a, 1.0) == a as real
  {
  }

  /** Nothing pulls a layer towards the box on the block axis.  Held at one edge, it keeps that edge
      exactly when it did so in the source, and the other exactly when it reaches no further than the
      box is high; centred, it keeps both exactly when it is no higher than the box. */
  lemma BlockEdgesHold(src: Box, dst: Box, f: Frame, b: Settled)
    requires src.w > 0 && src.h > 0 && dst.w > 0 && dst.h > 0 && f.w > 0
    ensures var e, k := ExactFrame(src, dst, f, b), Factor(src, dst, f, b.scale);
      var startHolds, endHolds := dst.y as real <= e.y, e.y + e.h <= (dst.y + dst.h) as real;
      match b.anchor
      case BlockStart =>
        (startHolds <==> src.y <= f.y) && (endHolds <==> Times(f.y + f.h - src.y, k) <= dst.h as real)
      case BlockEnd =>
        (endHolds <==> f.y + f.h <= src.y + src.h) && (startHolds <==> Times(src.y + src.h - f.y, k) <= dst.h as real)
      case Center =>
        (startHolds <==> e.h <= dst.h as real) && (endHolds <==> e.h <= dst.h as real)
  {
    var k := Factor(src, dst, f, b.scale);
    assert k > 0.0;
    TimesSign(f.y - src.y, k);
    TimesSign(src.y + src.h - (f.y + f.h), k);
    Spread(f.y - src.y, f.h, k);
    Spread(src.y + src.h - (f.y + f.h), f.h, k);
    hide Factor, Times, Pulled, Ratio;
  }

  lemma TimesSign(a: int, k: real)
    requires k > 0.0
    ensures Times(a, k) >= 0.0 <==> a >= 0
  {
  }

  /** So a small layer can leave the page altogether: a fixed one, 120 px high and low on a story, is
      derived 922 px below the end of the Open Graph card. */
  lemma FixedFallsOff(doc: Doc, l: Layer)
    requires doc == Doc(1080, 1920, [l]) && l.frame == Frame(100, 1600, 120, 120, None)
    requires l.fallback == NOTHING_DECLARED.(scale := Some(Fixed)) && l.declared == map[]
    ensures Valid(doc) && SourceSafeBox(doc).w > 0 && SourceSafeBox(doc).h > 0 && Inside(SourceSafeBox(doc), l.frame)
    ensures var f := Derived(SourceSafeBox(doc), Og, l);
      f.h == 120 < SafeBox(PresetOf(Og)).h && f.y == PresetOf(Og).height + 922
  {
    AtHome(doc, Story);
    TimesOne(l.frame);
    var src, dst := SourceSafeBox(doc), SafeBox(PresetOf(Og));
    assert src == Box(80, 120, 920, 1680) && dst == Box(72, 72, 1056, 486);
    assert Times(1480, 1.0) == 1480.0;
  }

  /** A `page` layer is always reported, at all four edges: it bleeds off the page on purpose. */
  lemma PageAlwaysReported(src: Box, target: PresetName, l: Layer)
    requires src.w > 0 && src.h > 0 && l.frame.w > 0 && BehaviourFor(l, target).scale == Page
    ensures var p := PresetOf(target);
      var f := Derived(src, target, l);
      && Crossing(SafeBox(p), f, InlineStartEdge) == Crossing(SafeBox(p), f, InlineEndEdge) == p.inline > 0
      && Crossing(SafeBox(p), f, BlockStartEdge) == Crossing(SafeBox(p), f, BlockEndEdge) == p.block > 0
  {
    var p := PresetOf(target);
    assert p.inline > 0 && p.block > 0;
    var f := Derived(src, target, l);
    assert f == Frame(0, 0, p.width, p.height, None);
    assert Crossing(SafeBox(p), f, InlineStartEdge) == p.inline;
    assert Crossing(SafeBox(p), f, InlineEndEdge) == p.inline;
    assert Crossing(SafeBox(p), f, BlockStartEdge) == p.block;
    assert Crossing(SafeBox(p), f, BlockEndEdge) == p.block;
  }
}
