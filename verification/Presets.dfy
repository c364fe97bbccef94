/** How one design derives every page size (packages/designer-runtime/src/presets.ts:48-152, 199-341). */
module Presets {
  import opened Frames
  import opened Outcomes

  datatype PresetName = Master | Square | Story | Landscape | Og | A4 | A3 | CertLandscape | CertPortrait

  /** A page and its safe insets; purpose, dpi and bleed do not enter the derivation. */
  datatype Preset = Preset(width: int, height: int, block: int, inline: int)

  datatype Box = Box(x: int, y: int, w: int, h: int)

  datatype Anchor = BlockStart | BlockEnd | Center

  datatype InlineAnchor = Start | End

  datatype ScaleMode = Proportional | Fixed | Fill | Page

  /** The point of an image that a crop centres on. */
  datatype Focal = Focal(x: real, y: real)

  datatype Font = Font(size: real, minSize: Option<real>)

  datatype Kind = Text | Image | Shape | Qr | DynamicField

  datatype Behaviour = Behaviour(anchor: Option<Anchor>, inlineAnchor: Option<InlineAnchor>, scale: Option<ScaleMode>,
                                 focal: Option<Focal>)

  datatype Settled = Settled(anchor: Anchor, inlineAnchor: InlineAnchor, scale: ScaleMode, focal: Option<Focal>)

  /** `focal` is read on images and `font` on the two kinds of text; the rest of a layer is carried along. */
  datatype Layer = Layer(id: string, kind: Kind, hidden: bool, hideAt: set<PresetName>, frame: Frame,
                         focal: Option<Focal>, font: Font, fallback: Behaviour, declared: map<PresetName, Behaviour>)

  datatype Doc = Doc(width: int, height: int, layers: seq<Layer>)

  /** What validate.ts:65 and 293 demand. */
  predicate Valid(doc: Doc) {
    doc.width > 0 && doc.height > 0 && forall l :: l in doc.layers ==> l.frame.w > 0 && l.frame.h > 0
  }

  // ----- the pages -----

  function Mm(value: real, dpi: real): int {
    Round(value * dpi / 25.4)
  }

  function Print(width: int, height: int): Preset {
    var inset := Mm(5.0, 300.0);
    Preset(width, height, inset, inset)
  }

  function PresetOf(name: PresetName): Preset {
    match name
    case Master => Preset(1080, 1350, 80, 80)
    case Square => Preset(1080, 1080, 80, 80)
    case Story => Preset(1080, 1920, 120, 80)
    case Landscape => Preset(1920, 1080, 100, 100)
    case Og => Preset(1200, 630, 72, 72)
    case A4 => Print(2480, 3508)
    case A3 => Print(3508, 4961)
    case CertLandscape => Print(3508, 2480)
    case CertPortrait => Print(2480, 3508)
  }

  const NAMES := [Master, Square, Story, Landscape, Og, A4, A3, CertLandscape, CertPortrait]

  function SafeBox(p: Preset): Box {
    Box(p.inline, p.block, p.width - p.inline - p.inline, p.height - p.block - p.block)
  }

  /** The safe boxes of the nine pages in pixels; on paper five millimetres at 300 dpi are 59. */
  lemma SafeBoxes(name: PresetName)
    ensures SafeBox(PresetOf(name)) ==
      match name
      case Master => Box(80, 80, 920, 1190)
      case Square => Box(80, 80, 920, 920)
      case Story => Box(80, 120, 920, 1680)
      case Landscape => Box(100, 100, 1720, 880)
      case Og => Box(72, 72, 1056, 486)
      case A4 => Box(59, 59, 2362, 3390)
      case A3 => Box(59, 59, 3390, 4843)
      case CertLandscape => Box(59, 59, 3390, 2362)
      case CertPortrait => Box(59, 59, 2362, 3390)
  {
  }

  function Matching(names: seq<PresetName>, width: int, height: int): Option<Preset> {
    if names == [] then None
    else if PresetOf(names[0]).width == width && PresetOf(names[0]).height == height then Some(PresetOf(names[0]))
    else Matching(names[1..], width, height)
  }

  function SourceSafeBox(doc: Doc): Box {
    match Matching(NAMES, doc.width, doc.height)
    case Some(p) => SafeBox(p)
    case None =>
      var inline := Round((80.0 / 1080.0) * doc.width as real);
      var block := Round((80.0 / 1350.0) * doc.height as real);
      Box(inline, block, doc.width - inline * 2, doc.height - block * 2)
  }

  /** A page of no preset's size keeps the master's proportion of inset, 80 of 1080 and 80 of 1350, to the
      nearest pixel, the same on both sides. */
  lemma InsetsInProportion(doc: Doc)
    requires forall n: PresetName :: PresetOf(n).width != doc.width || PresetOf(n).height != doc.height
    ensures var box := SourceSafeBox(doc);
      && -540 <= 80 * doc.width - 1080 * box.x < 540 && 2 * box.x + box.w == doc.width
      && -675 <= 80 * doc.height - 1350 * box.y < 675 && 2 * box.y + box.h == doc.height
  {
    MatchingIsAPreset(NAMES, doc.width, doc.height);
    hide Matching, PresetOf;
  }

  /** Every page leaves a safe box with something in it, whatever the size. */
  lemma BoxesHaveRoom(doc: Doc, target: PresetName)
    requires doc.width > 0 && doc.height > 0
    ensures SourceSafeBox(doc).w > 0 && SourceSafeBox(doc).h > 0
    ensures SafeBox(PresetOf(target)).w > 0 && SafeBox(PresetOf(target)).h > 0
  {
    MatchingIsAPreset(NAMES, doc.width, doc.height);
  }

  lemma {:induction false} MatchingIsAPreset(names: seq<PresetName>, width: int, height: int)
    ensures var m := Matching(names, width, height);
      && (m.Some? ==> m.value.width == width && m.value.height == height && exists n :: m.value == PresetOf(n))
      && (m.None? ==> forall n :: n in names ==> PresetOf(n).width != width || PresetOf(n).height != height)
  {
    if names == [] {
    } else {
      MatchingIsAPreset(names[1..], width, height);
    }
  }

  /** A page authored at a preset's size has that preset's safe box. */
  lemma AtHome(doc: Doc, target: PresetName)
    requires doc.width == PresetOf(target).width && doc.height == PresetOf(target).height
    ensures SourceSafeBox(doc) == SafeBox(PresetOf(target))
  {
    MatchingIsAPreset(NAMES, doc.width, doc.height);
    assert target in NAMES;
    hide Matching, PresetOf, SafeBox;
    var m := Matching(NAMES, doc.width, doc.height);
    var n :| m.value == PresetOf(n);
    SizeTells(n, target);
  }

  lemma SizeTells(a: PresetName, b: PresetName)
    requires PresetOf(a).width == PresetOf(b).width && PresetOf(a).height == PresetOf(b).height
    ensures PresetOf(a) == PresetOf(b)
  {
    hide Mm;
  }

  // ----- one layer -----

  function Either<T>(first: Option<T>, second: Option<T>, last: T): T {
    if first.Some? then first.value else if second.Some? then second.value else last
  }

  const NOTHING_DECLARED := Behaviour(None, None, None, None)

  function BehaviourFor(l: Layer, target: PresetName): Settled {
    var declared := if target in l.declared then l.declared[target] else NOTHING_DECLARED;
    Settled(Either(declared.anchor, l.fallback.anchor, BlockStart),
            Either(declared.inlineAnchor, l.fallback.inlineAnchor, Start),
            Either(declared.scale, l.fallback.scale, Proportional),
            if declared.focal.Some? then declared.focal else l.fallback.focal)
  }

  /** An entry for a preset overrides the default field by field: one that declares only a crop moves
      nothing, and changes nothing at any other preset. */
  lemma CropAloneMovesNothing(l: Layer, target: PresetName, focal: Focal, other: PresetName)
    requires target !in l.declared
    ensures var cropped := l.(declared := l.declared[target := NOTHING_DECLARED.(focal := Some(focal))]);
      && BehaviourFor(cropped, target) == BehaviourFor(l, target).(focal := Some(focal))
      && (other != target ==> BehaviourFor(cropped, other) == BehaviourFor(l, other))
  {
  }

  /** A layer that declares nothing anywhere is held at the block start and the inline start, in proportion,
      and brings no crop. */
  lemma NothingDeclared(l: Layer, target: PresetName)
    requires l.fallback == NOTHING_DECLARED && (target in l.declared ==> l.declared[target] == NOTHING_DECLARED)
    ensures BehaviourFor(l, target) == Settled(BlockStart, Start, Proportional, None)
  {
  }

  /** A frame before it is rounded. */
  datatype Exact = Exact(x: real, y: real, w: real, h: real)

  function Min(a: real, b: real): real {
    if a < b then a else b
  }

  function Ratio(a: int, b: int): real
    requires b > 0
  {
    a as real / b as real
  }

  function Times(a: int, k: real): real {
    a as real * k
  }

  /** The one factor of a proportional layer: the largest at which the whole source box fits. */
  function Shrink(src: Box, dst: Box): real
    requires src.w > 0 && src.h > 0
  {
    Min(Ratio(dst.w, src.w), Ratio(dst.h, src.h))
  }

  function Factor(src: Box, dst: Box, f: Frame, scale: ScaleMode): real
    requires src.w > 0 && src.h > 0 && f.w > 0
  {
    match scale
    case Fixed => 1.0
    case Fill => Ratio(dst.w, f.w)
    case _ => Shrink(src, dst)
  }

  /** Moved back from the end edge of `dst`, and then never before its start edge. */
  function Pulled(x: real, w: real, dst: Box): real {
    var atEnd := if x + w > (dst.x + dst.w) as real then (dst.x + dst.w) as real - w else x;
    if atEnd < dst.x as real then dst.x as real else atEnd
  }

  /** On the inline axis a layer holds its distance from one edge of the source box. */
  function Across(src: Box, dst: Box, f: Frame, anchor: InlineAnchor, k: real, w: real): real {
    if anchor == End then (dst.x + dst.w) as real - Times(src.x + src.w - (f.x + f.w), k) - w
    else dst.x as real + Times(f.x - src.x, k)
  }

  function Down(src: Box, dst: Box, f: Frame, anchor: Anchor, k: real, h: real): real {
    match anchor
    case Center => dst.y as real + (dst.h as real - h) / 2.0
    case BlockEnd => (dst.y + dst.h) as real - Times(src.y + src.h - (f.y + f.h), k) - h
    case BlockStart => dst.y as real + Times(f.y - src.y, k)
  }

  /** The frame on the target page, for every mode but `Page`. */
  function ExactFrame(src: Box, dst: Box, f: Frame, b: Settled): Exact
    requires src.w > 0 && src.h > 0 && f.w > 0
  {
    var k := Factor(src, dst, f, b.scale);
    var w := if b.scale == Fill then dst.w as real else Times(f.w, k);
    var h := Times(f.h, k);
    var x := if b.scale == Fill then dst.x as real else Across(src, dst, f, b.inlineAnchor, k, w);
    Exact(Pulled(x, w, dst), Down(src, dst, f, b.anchor, k, h), w, h)
  }

  function Rounded(f: Frame, e: Exact): Frame {
    f.(x := Round(e.x), y := Round(e.y), w := Round(e.w), h := Round(e.h))
  }

  /** The frame of one layer on the target page. */
  function Derived(src: Box, target: PresetName, l: Layer): Frame
    requires src.w > 0 && src.h > 0 && l.frame.w > 0
  {
    var b := BehaviourFor(l, target);
    if b.scale == Page then Frame(0, 0, PresetOf(target).width, PresetOf(target).height, None)
    else Rounded(l.frame, ExactFrame(src, SafeBox(PresetOf(target)), l.frame, b))
  }

  function Refit(font: Font, k: real): Font {
    Font(Fitted(font.size, k), if font.minSize.Some? then Some(Fitted(font.minSize.value, k)) else None)
  }

  /** A type size scaled to a whole number of pixels, at least one. */
  function Fitted(size: real, k: real): real {
    AtLeastOne(size * k)
  }

  function AtLeastOne(x: real): real {
    if Round(x) < 1 then 1.0 else Round(x) as real
  }

  predicate IsText(l: Layer) {
    l.kind == Text || l.kind == DynamicField
  }

  /** The layer on the target page: its frame, the crop declared for that page, and its type refitted. */
  function DerivedLayer(src: Box, target: PresetName, l: Layer): Layer
    requires src.w > 0 && src.h > 0 && l.frame.w > 0
  {
    var b := BehaviourFor(l, target);
    var factor := Factor(src, SafeBox(PresetOf(target)), l.frame, b.scale);
    l.(frame := Derived(src, target, l),
       focal := if l.kind == Image && b.focal.Some? then b.focal else l.focal,
       font := if IsText(l) && b.scale != Page && factor != 1.0 then Refit(l.font, factor) else l.font)
  }

  /** What the layer declares for the page wins over its default, field by field: whatever the default says
      of a field declared for the page, the layer derives the same. */
  lemma DeclaredWins(src: Box, target: PresetName, l: Layer, other: Behaviour)
    requires src.w > 0 && src.h > 0 && l.frame.w > 0 && target in l.declared
    ensures var own, d := l.declared[target], DerivedLayer(src, target, l);
      var told := l.(fallback := Behaviour(
        if own.anchor.Some? then other.anchor else l.fallback.anchor,
        if own.inlineAnchor.Some? then other.inlineAnchor else l.fallback.inlineAnchor,
        if own.scale.Some? then other.scale else l.fallback.scale,
        if own.focal.Some? then other.focal else l.fallback.focal));
      DerivedLayer(src, target, told) == d.(fallback := told.fallback)
  {
    hide ExactFrame, Factor, Rounded, Refit, SafeBox, PresetOf;
  }

  /** A field that is not declared for the page is the default's: declaring there what the default says
      changes nothing, and what is declared for other pages does not matter. */
  lemma DefaultFills(src: Box, target: PresetName, l: Layer)
    requires src.w > 0 && src.h > 0 && l.frame.w > 0
    ensures var own := if target in l.declared then l.declared[target] else NOTHING_DECLARED;
      var told := l.(declared := map[target := Behaviour(
        if own.anchor.Some? then own.anchor else l.fallback.anchor,
        if own.inlineAnchor.Some? then own.inlineAnchor else l.fallback.inlineAnchor,
        if own.scale.Some? then own.scale else l.fallback.scale,
        if own.focal.Some? then own.focal else l.fallback.focal)], fallback := NOTHING_DECLARED);
      DerivedLayer(src, target, told)
        == DerivedLayer(src, target, l).(declared := told.declared, fallback := NOTHING_DECLARED)
  {
    hide ExactFrame, Factor, Rounded, Refit, SafeBox, PresetOf;
  }

  /** What each kind of layer can change besides its frame: an image its crop, the two kinds of text their
      type, and nothing else anything.  A declared crop is the crop of every image, `page` or not. */
  lemma KindsChange(src: Box, target: PresetName, l: Layer, crop: Focal)
    requires src.w > 0 && src.h > 0 && l.frame.w > 0
    ensures var d := DerivedLayer(src, target, l);
      && d == l.(frame := d.frame, focal := d.focal, font := d.font)
      && (l.kind != Image ==> d.focal == l.focal)
      && (l.kind != Text && l.kind != DynamicField ==> d.font == l.font)
      && (l.kind == Image && target in l.declared && l.declared[target].focal == Some(crop) ==> d.focal == Some(crop))
  {
    hide ExactFrame, Factor, Rounded, Refit, SafeBox, PresetOf;
  }

  lemma WidthTells(w: int, k: real)
    requires w > 0
    ensures Times(w, k) / w as real == k && (Times(w, k) == w as real <==> k == 1.0)
  {
    var x := w as real;
    assert x * k / x == k;
    assert x * k == x <==> x * (k - 1.0) == 0.0;
  }

  lemma FillTells(w: int, whole: int)
    requires w > 0
    ensures Times(w, Ratio(whole, w)) == whole as real
  {
  }

  /** How text is refitted: not at all when it is the page or keeps its size, and otherwise by the factor its
      frame is scaled by. */
  lemma TextFollowsFrame(src: Box, target: PresetName, l: Layer)
    requires src.w > 0 && src.h > 0 && l.frame.w > 0 && (l.kind == Text || l.kind == DynamicField)
    ensures var d, b, dst := DerivedLayer(src, target, l), BehaviourFor(l, target), SafeBox(PresetOf(target));
      && (b.scale == Page || b.scale == Fixed ==> d.font == l.font)
      && (b.scale == Proportional || b.scale == Fill ==>
            var e := ExactFrame(src, dst, l.frame, b);
            d.font == if e.w == l.frame.w as real then l.font else Refit(l.font, e.w / l.frame.w as real))
  {
    hide Shrink, Across, Down, Pulled, Rounded, Refit, SafeBox, PresetOf, BehaviourFor, Ratio, Times;
    var dst := SafeBox(PresetOf(target));
    WidthTells(l.frame.w, Shrink(src, dst));
    WidthTells(l.frame.w, Ratio(dst.w, l.frame.w));
    FillTells(l.frame.w, dst.w);
  }

  /** The frame of a layer in every mode but `Page`, and the factor its type is refitted by. */
  method PlaceFrame(src: Box, dst: Box, f: Frame, b: Settled) returns (frame: Frame, factor: real)
    requires src.w > 0 && src.h > 0 && f.w > 0 && b.scale != Page
    ensures frame == Rounded(f, ExactFrame(src, dst, f, b)) && factor == Factor(src, dst, f, b.scale)
  {
    TimesOne(f);
    hide Ratio, Times, Round;
    var w, h;
    if b.scale == Fixed {
      w := f.w as real;
      h := f.h as real;
      factor := 1.0;
    } else if b.scale == Fill {
      factor := Ratio(dst.w, f.w);
      w := dst.w as real;
      h := Times(f.h, factor);
    } else {
      factor := Min(Ratio(dst.w, src.w), Ratio(dst.h, src.h));
      w := Times(f.w, factor);
      h := Times(f.h, factor);
    }
    var fromInlineEnd := src.x + src.w - (f.x + f.w);
    var x := if b.scale == Fill then dst.x as real
             else if b.inlineAnchor == End then (dst.x + dst.w) as real - Times(fromInlineEnd, factor) - w
             else dst.x as real + Times(f.x - src.x, factor);
    if x + w > (dst.x + dst.w) as real {
      x := (dst.x + dst.w) as real - w;
    }
    if x < dst.x as real {
      x := dst.x as real;
    }
    var y;
    if b.anchor == Center {
      y := dst.y as real + (dst.h as real - h) / 2.0;
    } else if b.anchor == BlockEnd {
      var fromBottom := src.y + src.h - (f.y + f.h);
      y := (dst.y + dst.h) as real - Times(fromBottom, factor) - h;
    } else {
      y := dst.y as real + Times(f.y - src.y, factor);
    }
    frame := f.(x := Round(x), y := Round(y), w := Round(w), h := Round(h));
  }

  method DeriveLayer(src: Box, target: PresetName, l: Layer) returns (scaled: Layer)
    requires src.w > 0 && src.h > 0 && l.frame.w > 0
    ensures scaled == DerivedLayer(src, target, l)
  {
    hide SafeBox, PresetOf, BehaviourFor, Refit, Rounded, ExactFrame, Factor;
    var preset := PresetOf(target);
    var b := BehaviourFor(l, target);
    if b.scale == Page {
      scaled := l.(frame := Frame(0, 0, preset.width, preset.height, None));
      if b.focal.Some? && scaled.kind == Image {
        scaled := scaled.(focal := b.focal);
      }
      return;
    }
    var frame, factor := PlaceFrame(src, SafeBox(preset), l.frame, b);
    scaled := l.(frame := frame);
    if b.focal.Some? && scaled.kind == Image {
      scaled := scaled.(focal := b.focal);
    }
    if IsText(scaled) && factor != 1.0 {
      scaled := scaled.(font := Refit(scaled.font, factor));
    }
  }

  /** Type is refitted to a whole number of pixels, at least one and otherwise within half a pixel of
      the scaled size, and a smallest size stays no larger than the size. */
  lemma TypeRefits(font: Font, k: real)
    requires k > 0.0
    ensures var r := Refit(font, k);
      && r.size >= 1.0 && r.size == r.size.Floor as real
      && (r.size == 1.0 || -0.5 < r.size - font.size * k <= 0.5)
      && (font.minSize.Some? && font.minSize.value <= font.size ==> r.minSize.Some? && 1.0 <= r.minSize.value <= r.size)
  {
    WholePixels(font.size * k);
    if font.minSize.Some? && font.minSize.value <= font.size {
      WholePixels(font.minSize.value * k);
      SmallerFits(font.minSize.value, font.size, k);
    }
    hide AtLeastOne;
  }

  lemma WholePixels(x: real)
    ensures var r := AtLeastOne(x); r >= 1.0 && r == r.Floor as real && (r == 1.0 || -0.5 < r - x <= 0.5)
  {
  }

  lemma SmallerFits(a: real, b: real, k: real)
    requires a <= b && k > 0.0
    ensures Fitted(a, k) <= Fitted(b, k)
  {
    assert (b - a) * k >= 0.0;
    RoundMonotone(a * k, b * k);
    hide Round;
  }

  lemma RoundMonotone(x: real, y: real)
    requires x <= y
    ensures Round(x) <= Round(y)
  {
  }

  lemma TimesOne(f: Frame)
    ensures Times(f.w, 1.0) == f.w as real && Times(f.h, 1.0) == f.h as real
  {
  }

  // ----- what the derivation keeps -----

  predicate Inside(box: Box, f: Frame) {
    && box.x <= f.x && f.x + f.w <= box.x + box.w
    && box.y <= f.y && f.y + f.h <= box.y + box.h
  }

  predicate ExactlyInside(box: Box, e: Exact) {
    && box.x as real <= e.x && e.x + e.w <= (box.x + box.w) as real
    && box.y as real <= e.y && e.y + e.h <= (box.y + box.h) as real
  }

  lemma Scaled(part: int, whole: int, room: int, k: real)
    requires 0 <= part <= whole && whole > 0 && 0.0 <= k <= Ratio(room, whole)
    ensures 0.0 <= Times(part, k) <= room as real
  {
    assert part as real * k <= whole as real * k;
    assert whole as real * k <= whole as real * Ratio(room, whole) == room as real;
  }

  lemma Spread(a: int, b: int, k: real)
    ensures Times(a + b, k) == Times(a, k) + Times(b, k)
  {
  }

  /** One axis: a part of the source box, held at either edge or centred, stays inside the target box. */
  lemma Along(offset: int, size: int, whole: int, room: int, k: real)
    requires 0 <= offset && 0 <= size && offset + size <= whole && whole > 0 && 0.0 <= k <= Ratio(room, whole)
    ensures 0.0 <= Times(offset, k) && Times(offset, k) + Times(size, k) <= room as real
  {
    Scaled(offset, whole, room, k);
    Scaled(offset + size, whole, room, k);
    Spread(offset, size, k);
  }

  /** A proportional layer that keeps inside the source's safe box lands inside the target's,
      whichever way it is anchored, and the pull towards the box never has to act. */
  lemma ProportionalStaysInside(src: Box, dst: Box, f: Frame, b: Settled)
    requires src.w > 0 && src.h > 0 && dst.w > 0 && dst.h > 0 && f.w > 0 && f.h > 0
    requires b.scale == Proportional && Inside(src, f)
    ensures var e := ExactFrame(src, dst, f, b);
      ExactlyInside(dst, e) && e.x == Across(src, dst, f, b.inlineAnchor, Shrink(src, dst), e.w)
  {
    var k := Shrink(src, dst);
    assert Ratio(dst.w, src.w) > 0.0 && Ratio(dst.h, src.h) > 0.0;
    hide Ratio, Times;
    Along(f.x - src.x, f.w, src.w, dst.w, k);
    Along(f.y - src.y, f.h, src.h, dst.h, k);
    Along(src.x + src.w - (f.x + f.w), f.w, src.w, dst.w, k);
    Along(src.y + src.h - (f.y + f.h), f.h, src.h, dst.h, k);
    Scaled(f.h, src.h, dst.h, k);
  }

  /** However it scales, a layer that is not the whole page starts inside the box's inline edges,
      and ends inside them exactly when it is no wider than the box. */
  lemma InlineEdgesHold(src: Box, dst: Box, f: Frame, b: Settled)
    requires src.w > 0 && src.h > 0 && dst.w > 0 && f.w > 0
    ensures var e, r := ExactFrame(src, dst, f, b), Rounded(f, ExactFrame(src, dst, f, b));
      && dst.x as real <= e.x && dst.x <= r.x
      && (e.x + e.w <= (dst.x + dst.w) as real <==> e.w <= dst.w as real)
      && (b.scale == Fill ==> r.x == dst.x && r.w == dst.w)
      && (b.scale == Fixed ==> r.w == f.w && r.h == f.h)
      && (b.scale == Fixed && f.w <= dst.w ==> r.x + r.w <= dst.x + dst.w)
  {
    TimesOne(f);
    hide Ratio, Shrink;
    if b.scale == Fixed {
      var x := WholeAcross(src, dst, f, b.inlineAnchor);
    }
  }

  lemma WholeAcross(src: Box, dst: Box, f: Frame, anchor: InlineAnchor) returns (x: int)
    ensures Across(src, dst, f, anchor, 1.0, f.w as real) == x as real
  {
    x := if anchor == End then dst.x + dst.w - (src.x + src.w - (f.x + f.w)) - f.w else dst.x + (f.x - src.x);
  }

  /** The factor of a proportional layer is the largest at which the source box fits the target box: scaled
      by it, the box fits, and fills one of the two sides. */
  lemma ShrinkIsLargest(src: Box, dst: Box)
    requires src.w > 0 && src.h > 0
    ensures var w, h := Times(src.w, Shrink(src, dst)), Times(src.h, Shrink(src, dst));
      w <= dst.w as real && h <= dst.h as real && (w == dst.w as real || h == dst.h as real)
  {
    var k := Shrink(src, dst);
    assert src.w as real * Ratio(dst.w, src.w) == dst.w as real && src.h as real * Ratio(dst.h, src.h) == dst.h as real;
    assert src.w as real * k <= src.w as real * Ratio(dst.w, src.w) && src.h as real * k <= src.h as real * Ratio(dst.h, src.h);
  }

  /** A proportional layer keeps its shape. */
  lemma ShapeKept(src: Box, dst: Box, f: Frame, b: Settled)
    requires src.w > 0 && src.h > 0 && f.w > 0 && b.scale == Proportional
    ensures var e := ExactFrame(src, dst, f, b); e.w * f.h as real == e.h * f.w as real
  {
    var k := Shrink(src, dst);
    hide Shrink;
    assert f.w as real * k * f.h as real == f.h as real * k * f.w as real;
  }

  /** The spacing of two proportional layers held at the same edges scales with the layers. */
  lemma SpacingScales(src: Box, dst: Box, f: Frame, g: Frame, b: Settled)
    requires src.w > 0 && src.h > 0 && dst.w > 0 && dst.h > 0
    requires f.w > 0 && f.h > 0 && g.w > 0 && g.h > 0
    requires b.scale == Proportional && Inside(src, f) && Inside(src, g)
    ensures var k, e, d := Shrink(src, dst), ExactFrame(src, dst, f, b), ExactFrame(src, dst, g, b);
      && d.x - (e.x + e.w) == Times(g.x - (f.x + f.w), k)
      && (b.anchor != Center ==> d.y - (e.y + e.h) == Times(g.y - (f.y + f.h), k))
  {
    hide Shrink, Times, Ratio, Pulled;
    var k := Shrink(src, dst);
    ProportionalStaysInside(src, dst, f, b);
    ProportionalStaysInside(src, dst, g, b);
    Stretch(f.x - src.x, f.w, g.x - (f.x + f.w), k);
    Stretch(src.x + src.w - (g.x + g.w), g.w, g.x - (f.x + f.w), k);
    Stretch(f.y - src.y, f.h, g.y - (f.y + f.h), k);
    Stretch(src.y + src.h - (g.y + g.h), g.h, g.y - (f.y + f.h), k);
  }

  lemma Stretch(a: int, b: int, c: int, k: real)
    ensures Times(a + b + c, k) == Times(a, k) + Times(b, k) + Times(c, k)
  {
  }

  lemma ShrinkAtHome(box: Box)
    requires box.w > 0 && box.h > 0
    ensures Shrink(box, box) == 1.0 && forall a :: Times(a, 1.0) == a as real
  {
    assert forall n | n > 0 :: Ratio(n, n) == 1.0;
  }

  /** At its own preset a layer keeps its place and its factor is one. */
  lemma HomeKeepsFrame(box: Box, target: PresetName, l: Layer)
    requires box == SafeBox(PresetOf(target)) && box.w > 0 && box.h > 0 && Inside(box, l.frame) && l.frame.w > 0
    requires var b := BehaviourFor(l, target); (b.scale == Proportional || b.scale == Fixed) && b.anchor != Center
    ensures Derived(box, target, l) == l.frame
    ensures Factor(box, SafeBox(PresetOf(target)), l.frame, BehaviourFor(l, target).scale) == 1.0
  {
    hide SafeBox, BehaviourFor, PresetOf, ExactFrame, Factor;
    var f, b := l.frame, BehaviourFor(l, target);
    ExactHome(box, f, b);
    assert Rounded(f, Exact(f.x as real, f.y as real, f.w as real, f.h as real)) == f;
  }

  /** At the size it was authored for, a proportional or fixed layer inside the safe box stays as it is,
      unless it asks to be centred there or declares a crop. */
  lemma HomeKeepsLayers(doc: Doc, target: PresetName, l: Layer)
    requires Valid(doc) && l in doc.layers
    requires doc.width == PresetOf(target).width && doc.height == PresetOf(target).height
    requires var b := BehaviourFor(l, target);
      (b.scale == Proportional || b.scale == Fixed) && b.anchor != Center && b.focal.None?
    requires SourceSafeBox(doc).w > 0 && SourceSafeBox(doc).h > 0 && Inside(SourceSafeBox(doc), l.frame)
    ensures DerivedLayer(SourceSafeBox(doc), target, l) == l
  {
    AtHome(doc, target);
    hide SafeBox, SourceSafeBox, BehaviourFor, PresetOf, Inside, Derived, Factor;
    HomeKeepsFrame(SourceSafeBox(doc), target, l);
  }

  lemma ExactHome(box: Box, f: Frame, b: Settled)
    requires box.w > 0 && box.h > 0 && f.w > 0 && Inside(box, f)
    requires (b.scale == Proportional || b.scale == Fixed) && b.anchor != Center
    ensures Factor(box, box, f, b.scale) == 1.0
    ensures ExactFrame(box, box, f, b) == Exact(f.x as real, f.y as real, f.w as real, f.h as real)
  {
    ShrinkAtHome(box);
    hide Shrink, Times;
    assert Times(f.w, 1.0) == f.w as real && Times(f.h, 1.0) == f.h as real;
    var right, below := box.x + box.w - (f.x + f.w), box.y + box.h - (f.y + f.h);
    assert Times(right, 1.0) == right as real && Times(below, 1.0) == below as real;
    assert Times(f.x - box.x, 1.0) == (f.x - box.x) as real && Times(f.y - box.y, 1.0) == (f.y - box.y) as real;
  }
}
