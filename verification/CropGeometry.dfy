/** The avatar crop's gestures (src/components/avatar-picker/crop-geometry.ts:12-78). */
module CropGeometry {
  datatype Image = Image(width: real, height: real)

  /** `zoom` relative to just covering the circle; `x`, `y` the image centre's offset on the stage. */
  datatype View = View(zoom: real, x: real, y: real)

  datatype Square = Square(sx: real, sy: real, side: real)

  const ZOOM_MIN := 1.0
  const ZOOM_MAX := 3.0

  predicate Sized(image: Image, circle: real) {
    image.width > 0.0 && image.height > 0.0 && circle > 0.0
  }

  function Min(a: real, b: real): real {
    if a < b then a else b
  }

  function Max(a: real, b: real): real {
    if a < b then b else a
  }

  function Clamp(value: real, min: real, max: real): real {
    Min(max, Max(min, value))
  }

  function Times(a: real, b: real): real {
    a * b
  }

  function Over(a: real, b: real): real
    requires b > 0.0
  {
    a / b
  }

  function ViewScale(image: Image, circle: real, zoom: real): (s: real)
    requires Sized(image, circle)
    ensures zoom > 0.0 ==> s > 0.0
  {
    var cover := Over(circle, Min(image.width, image.height));
    assert cover > 0.0;
    Times(cover, zoom)
  }

  /** How far the image's centre may move along one axis with the image still covering the circle. */
  function Overhang(length: real, scale: real, circle: real): real {
    Max(0.0, (Times(length, scale) - circle) / 2.0)
  }

  function ClampView(image: Image, circle: real, view: View): View
    requires Sized(image, circle)
  {
    var zoom := Clamp(view.zoom, ZOOM_MIN, ZOOM_MAX);
    var scale := ViewScale(image, circle, zoom);
    var maxX, maxY := Overhang(image.width, scale, circle), Overhang(image.height, scale, circle);
    View(zoom, Clamp(view.x, -maxX, maxX), Clamp(view.y, -maxY, maxY))
  }

  function ZoomAbout(image: Image, circle: real, view: View, zoom: real): View
    requires Sized(image, circle) && view.zoom > 0.0
  {
    var next := Clamp(zoom, ZOOM_MIN, ZOOM_MAX);
    var ratio := Over(next, view.zoom);
    ClampView(image, circle, View(next, Times(view.x, ratio), Times(view.y, ratio)))
  }

  function PanBy(image: Image, circle: real, view: View, dx: real, dy: real): View
    requires Sized(image, circle)
  {
    ClampView(image, circle, view.(x := view.x + dx, y := view.y + dy))
  }

  function CentreOn(image: Image, circle: real, view: View, px: real, py: real): View
    requires Sized(image, circle)
  {
    PanBy(image, circle, view, -px, -py)
  }

  function SourceSquare(image: Image, circle: real, view: View): Square
    requires Sized(image, circle) && view.zoom > 0.0
  {
    var scale := ViewScale(image, circle, view.zoom);
    var side := Over(circle, scale);
    Square(image.width / 2.0 - Over(view.x, scale) - side / 2.0, image.height / 2.0 - Over(view.y, scale) - side / 2.0, side)
  }

  // ----- covering the circle -----

  ghost predicate InsideImage(image: Image, q: Square) {
    0.0 <= q.sx && q.sx + q.side <= image.width && 0.0 <= q.sy && q.sy + q.side <= image.height
  }

  /** The zoom is in range and the clamp has nothing to do. */
  ghost predicate Settled(image: Image, circle: real, view: View)
    requires Sized(image, circle)
  {
    ClampView(image, circle, view) == view
  }

  /** At any zoom in range the image is at least as long as the circle, both ways. */
  lemma Covers(image: Image, circle: real, zoom: real)
    requires Sized(image, circle) && zoom >= 1.0
    ensures var s := ViewScale(image, circle, zoom);
      Times(image.width, s) >= circle && Times(image.height, s) >= circle
  {
    var m := Min(image.width, image.height);
    var cover := circle / m;
    assert m * cover == circle;
    assert cover * zoom >= cover;
    var s := ViewScale(image, circle, zoom);
    assert s == cover * zoom >= cover;
    Grows(m, cover, s);
    Widens(m, image.width, s);
    Widens(m, image.height, s);
  }

  lemma Grows(a: real, x: real, y: real)
    requires a > 0.0 && x <= y
    ensures Times(a, x) <= Times(a, y)
  {
  }

  lemma Widens(a: real, b: real, x: real)
    requires x > 0.0 && a <= b
    ensures Times(a, x) <= Times(b, x)
  {
  }

  /** One axis of the square: inside the image just when the offset is within the overhang. */
  lemma AxisInside(length: real, s: real, circle: real, x: real)
    requires s > 0.0 && Times(length, s) >= circle
    ensures var start := length / 2.0 - Over(x, s) - Over(circle, s) / 2.0;
      (0.0 <= start && start + Over(circle, s) <= length)
      <==> (-Overhang(length, s, circle) <= x <= Overhang(length, s, circle))
  {
    var x', c' := x / s, circle / s;
    assert x == x' * s && circle == c' * s;
    var start := length / 2.0 - x' - c' / 2.0;
    assert start * s == length * s / 2.0 - x - circle / 2.0;
    assert (length - (start + c')) * s == length * s / 2.0 + x - circle / 2.0;
    SameSign(start, s);
    SameSign(length - (start + c'), s);
  }

  lemma SameSign(a: real, s: real)
    requires s > 0.0
    ensures a >= 0.0 <==> a * s >= 0.0
  {
  }

  /** A view whose zoom is in range is settled exactly when the square it saves lies in the image. */
  lemma SettledIff(image: Image, circle: real, view: View)
    requires Sized(image, circle) && ZOOM_MIN <= view.zoom <= ZOOM_MAX
    ensures Settled(image, circle, view) <==> InsideImage(image, SourceSquare(image, circle, view))
  {
    var s := ViewScale(image, circle, view.zoom);
    Covers(image, circle, view.zoom);
    AxisInside(image.width, s, circle, view.x);
    AxisInside(image.height, s, circle, view.y);
    hide Times, Over, ViewScale;
  }

  /** Clamping twice is clamping once. */
  lemma ClampSettles(image: Image, circle: real, view: View)
    requires Sized(image, circle)
    ensures var v := ClampView(image, circle, view);
      ZOOM_MIN <= v.zoom <= ZOOM_MAX && Settled(image, circle, v) && InsideImage(image, SourceSquare(image, circle, v))
  {
    hide Times, Over, ViewScale, Overhang, SourceSquare, InsideImage;
    SettledIff(image, circle, ClampView(image, circle, view));
  }

  // ----- every run of gestures -----

  datatype Gesture = Zoom(zoom: real) | Pan(dx: real, dy: real) | Centre(px: real, py: real)

  /** A gesture and the circle as it measured then: a resize of the stage can change it. */
  datatype Step = Step(circle: real, gesture: Gesture)

  function After(image: Image, view: View, g: Gesture, circle: real): View
    requires Sized(image, circle) && view.zoom > 0.0
  {
    match g
    case Zoom(z) => ZoomAbout(image, circle, view, z)
    case Pan(dx, dy) => PanBy(image, circle, view, dx, dy)
    case Centre(px, py) => CentreOn(image, circle, view, px, py)
  }

  const INITIAL := View(1.0, 0.0, 0.0)

  function Run(image: Image, steps: seq<Step>): (v: View)
    requires forall st :: st in steps ==> Sized(image, st.circle)
    ensures ZOOM_MIN <= v.zoom <= ZOOM_MAX
  {
    if steps == [] then INITIAL
    else
      var last := steps[|steps| - 1];
      After(image, Run(image, steps[..|steps| - 1]), last.gesture, last.circle)
  }

  /** What is drawn and saved, `clampView` of the view for the circle as it measures now, never has an
      empty corner, whatever gestures and resizes came before; and while the circle stays as it was,
      it is the view itself. */
  lemma SavedSquareIsInside(image: Image, steps: seq<Step>, now: real)
    requires forall st :: st in steps ==> Sized(image, st.circle)
    requires Sized(image, now)
    ensures var v := Run(image, steps);
      var shown := ClampView(image, now, v);
      && shown.zoom == v.zoom && InsideImage(image, SourceSquare(image, now, shown))
      && (steps != [] && steps[|steps| - 1].circle == now ==> shown == v)
      && (steps == [] ==> shown == v)
  {
    var v := Run(image, steps);
    hide Times, Over, ViewScale, SourceSquare, InsideImage;
    ClampSettles(image, now, v);
    if steps != [] {
      var last := steps[|steps| - 1];
      var before := Run(image, steps[..|steps| - 1]);
      match last.gesture
      case Zoom(z) =>
        var next := Clamp(z, ZOOM_MIN, ZOOM_MAX);
        var ratio := Over(next, before.zoom);
        ClampSettles(image, last.circle, View(next, Times(before.x, ratio), Times(before.y, ratio)));
      case Pan(dx, dy) => ClampSettles(image, last.circle, before.(x := before.x + dx, y := before.y + dy));
      case Centre(px, py) => ClampSettles(image, last.circle, before.(x := before.x - px, y := before.y - py));
    }
  }

  // ----- what stays under the centre -----

  /** The image point under the stage point `px`, `py` from the circle's centre. */
  function Under(image: Image, circle: real, view: View, px: real, py: real): (real, real)
    requires Sized(image, circle) && view.zoom > 0.0
  {
    var s := ViewScale(image, circle, view.zoom);
    (image.width / 2.0 + Over(px - view.x, s), image.height / 2.0 + Over(py - view.y, s))
  }

  /** It is the middle of the saved square that is under the circle's centre. */
  lemma UnderCentre(image: Image, circle: real, view: View)
    requires Sized(image, circle) && view.zoom > 0.0
    ensures var q := SourceSquare(image, circle, view);
      Under(image, circle, view, 0.0, 0.0) == (q.sx + q.side / 2.0, q.sy + q.side / 2.0)
  {
    var s := ViewScale(image, circle, view.zoom);
    OverMinus(0.0, view.x, s);
    OverMinus(0.0, view.y, s);
  }

  lemma OverMinus(a: real, b: real, s: real)
    requires s > 0.0
    ensures Over(a - b, s) == Over(a, s) - Over(b, s) && Over(0.0, s) == 0.0
  {
  }

  lemma OverEqual(a: real, b: real, s: real)
    requires s > 0.0
    ensures Over(a, s) == Over(b, s) <==> a == b
  {
    assert Over(a, s) * s == a && Over(b, s) * s == b;
  }

  /** A tap brings the point under it to the centre exactly when the square around that point lies in
      the image; otherwise the clamp stops short of it. */
  lemma TapCentres(image: Image, circle: real, view: View, px: real, py: real)
    requires Sized(image, circle) && ZOOM_MIN <= view.zoom <= ZOOM_MAX
    ensures var r := CentreOn(image, circle, view, px, py);
      r.zoom == view.zoom &&
      (Under(image, circle, r, 0.0, 0.0) == Under(image, circle, view, px, py)
       <==> InsideImage(image, SourceSquare(image, circle, View(view.zoom, view.x - px, view.y - py))))
  {
    var s := ViewScale(image, circle, view.zoom);
    var r := CentreOn(image, circle, view, px, py);
    hide Times, Over, ViewScale, Overhang, SourceSquare, InsideImage;
    OverEqual(0.0 - r.x, px - view.x, s);
    OverEqual(0.0 - r.y, py - view.y, s);
    SettledIff(image, circle, View(view.zoom, view.x - px, view.y - py));
  }

  lemma RatioCancels(x: real, s: real, zoom: real, next: real, cover: real)
    requires zoom > 0.0 && next > 0.0 && cover > 0.0
    ensures Over(0.0 - Times(x, Over(next, zoom)), Times(cover, next)) == Over(0.0 - x, Times(cover, zoom))
  {
    var k := next / zoom;
    assert k * zoom == next;
    var p := cover * zoom;
    assert p > 0.0 && k > 0.0 && cover * next == p * k;
    assert (-x * k) / (p * k) == -x / p by {
      var q := -x / p;
      assert q * p == -x;
      assert q * (p * k) == -x * k;
    }
  }

  /** Zooming keeps the image point under the centre exactly when the scaled offset needs no clamp. */
  lemma ZoomKeepsPoint(image: Image, circle: real, view: View, zoom: real)
    requires Sized(image, circle) && ZOOM_MIN <= view.zoom <= ZOOM_MAX
    ensures var next := Clamp(zoom, ZOOM_MIN, ZOOM_MAX);
      var ratio := Over(next, view.zoom);
      var r := ZoomAbout(image, circle, view, zoom);
      r.zoom == next &&
      (Under(image, circle, r, 0.0, 0.0) == Under(image, circle, view, 0.0, 0.0)
       <==> Settled(image, circle, View(next, Times(view.x, ratio), Times(view.y, ratio))))
  {
    var next := Clamp(zoom, ZOOM_MIN, ZOOM_MAX);
    var ratio := Over(next, view.zoom);
    var r := ZoomAbout(image, circle, view, zoom);
    var cover := Over(circle, Min(image.width, image.height));
    assert cover > 0.0;
    var s := ViewScale(image, circle, next);
    assert s == Times(cover, next) && ViewScale(image, circle, view.zoom) == Times(cover, view.zoom);
    hide Times, Over, ViewScale, Overhang;
    RatioCancels(view.x, s, view.zoom, next, cover);
    RatioCancels(view.y, s, view.zoom, next, cover);
    OverEqual(0.0 - r.x, 0.0 - Times(view.x, ratio), s);
    OverEqual(0.0 - r.y, 0.0 - Times(view.y, ratio), s);
  }

  lemma OverhangGrows(length: real, s: real, circle: real, x: real, k: real)
    requires circle > 0.0 && k >= 1.0 && Times(length, s) >= circle
    requires -Overhang(length, s, circle) <= x <= Overhang(length, s, circle)
    ensures -Overhang(length, Times(s, k), circle) <= Times(x, k) <= Overhang(length, Times(s, k), circle)
  {
    var q := length * s;
    var o := (q - circle) / 2.0;
    assert -o <= x <= o;
    assert Times(length, Times(s, k)) == q * k;
    NotNegative(o - x, k);
    NotNegative(o + x, k);
    NotNegative(circle, k - 1.0);
    assert o * k == (q * k - circle * k) / 2.0;
    assert (o - x) * k == o * k - x * k && (o + x) * k == o * k + x * k;
    assert circle * (k - 1.0) == circle * k - circle;
  }

  lemma NotNegative(a: real, b: real)
    requires a >= 0.0 && b >= 0.0
    ensures a * b >= 0.0
  {
  }

  /** Zooming in from a settled view never meets the clamp: the point under the centre stays, and
      zooming back out to where it was gives the same view again. */
  lemma ZoomInKeepsPoint(image: Image, circle: real, view: View, zoom: real)
    requires Sized(image, circle) && ZOOM_MIN <= view.zoom <= ZOOM_MAX && Settled(image, circle, view)
    requires zoom >= view.zoom
    ensures var r := ZoomAbout(image, circle, view, zoom);
      && Under(image, circle, r, 0.0, 0.0) == Under(image, circle, view, 0.0, 0.0)
      && r.zoom > 0.0 && ZoomAbout(image, circle, r, view.zoom) == view
  {
    var next := Clamp(zoom, ZOOM_MIN, ZOOM_MAX);
    var ratio := Over(next, view.zoom);
    var s, t := ViewScale(image, circle, view.zoom), ViewScale(image, circle, next);
    ScaleBy(image, circle, view.zoom, next);
    Covers(image, circle, view.zoom);
    Back(view.x, view.zoom, next);
    Back(view.y, view.zoom, next);
    hide Times, Over, ViewScale;
    assert Settled(image, circle, view);
    OverhangGrows(image.width, s, circle, view.x, ratio);
    OverhangGrows(image.height, s, circle, view.y, ratio);
    ZoomKeepsPoint(image, circle, view, zoom);
  }

  lemma ScaleBy(image: Image, circle: real, zoom: real, next: real)
    requires Sized(image, circle) && 0.0 < zoom <= next
    ensures Over(next, zoom) >= 1.0
    ensures ViewScale(image, circle, next) == Times(ViewScale(image, circle, zoom), Over(next, zoom))
  {
    var cover := Over(circle, Min(image.width, image.height));
    var k := next / zoom;
    assert k * zoom == next;
    assert cover * next == (cover * zoom) * k;
  }

  lemma Back(x: real, zoom: real, next: real)
    requires zoom > 0.0 && next > 0.0
    ensures Times(Times(x, Over(next, zoom)), Over(zoom, next)) == x
  {
    var k, j := next / zoom, zoom / next;
    assert k * zoom == next && j * next == zoom;
    Inverse(k, j, zoom, next);
    assert (x * k) * j == x * (k * j);
  }

  lemma Inverse(k: real, j: real, zoom: real, next: real)
    requires zoom > 0.0 && k * zoom == next && j * next == zoom
    ensures k * j == 1.0
  {
    var m := k * j;
    calc {
      m * zoom;
      j * (k * zoom);
      j * next;
      zoom;
    }
    assert (m - 1.0) * zoom == 0.0;
  }

  lemma SideTimesZoom(circle: real, shorter: real, zoom: real)
    requires circle > 0.0 && shorter > 0.0 && zoom > 0.0
    ensures Over(circle, shorter) > 0.0 && Times(Over(circle, shorter), zoom) > 0.0
    ensures Over(circle, Times(Over(circle, shorter), zoom)) * zoom == shorter
  {
    var cover := Over(circle, shorter);
    assert cover > 0.0 && cover * shorter == circle;
    var scale := Times(cover, zoom);
    assert scale > 0.0;
    var side := Over(circle, scale);
    assert side * scale == circle;
    assert side * zoom * cover == shorter * cover;
    Cancels(side * zoom, shorter, cover);
  }

  lemma Cancels(a: real, b: real, k: real)
    requires k > 0.0 && a * k == b * k
    ensures a == b
  {
    assert (a - b) * k == 0.0;
  }

  /** At zoom 1 the saved square is as long as the image's shorter side, at zoom 3 a third of it; it is never
      anything beyond, and between them it is that side divided by the zoom. */
  lemma SavedSide(image: Image, steps: seq<Step>, now: real)
    requires forall st :: st in steps ==> Sized(image, st.circle)
    requires Sized(image, now)
    ensures var v := ClampView(image, now, Run(image, steps));
      var side := SourceSquare(image, now, v).side;
      var shorter := if image.width < image.height then image.width else image.height;
      side * v.zoom == shorter && side <= shorter <= side * 3.0
  {
    hide ClampView, Run, Over, Times, SourceSquare, ViewScale;
    var v := ClampView(image, now, Run(image, steps));
    ZoomInRange(image, now, Run(image, steps));
    SideOfView(image, now, v);
  }

  lemma SideOfView(image: Image, circle: real, view: View)
    requires Sized(image, circle) && 1.0 <= view.zoom <= 3.0
    ensures var side := SourceSquare(image, circle, view).side;
      var shorter := if image.width < image.height then image.width else image.height;
      side * view.zoom == shorter && side <= shorter <= side * 3.0
  {
    hide Over, Times, SourceSquare, ViewScale;
    var shorter := Min(image.width, image.height);
    SideTimesZoom(circle, shorter, view.zoom);
    SideIs(image, circle, view);
    Bounded(SourceSquare(image, circle, view).side, view.zoom, shorter);
  }

  lemma ZoomInRange(image: Image, circle: real, view: View)
    requires Sized(image, circle)
    ensures 1.0 <= ClampView(image, circle, view).zoom <= 3.0
  {
    hide ViewScale, Overhang;
  }

  lemma SideIs(image: Image, circle: real, view: View)
    requires Sized(image, circle) && view.zoom > 0.0
    ensures var cover := Over(circle, Min(image.width, image.height));
      Times(cover, view.zoom) > 0.0 && SourceSquare(image, circle, view).side == Over(circle, Times(cover, view.zoom))
  {
    assert ViewScale(image, circle, view.zoom) > 0.0;
    hide Over, Times;
  }

  lemma Bounded(side: real, zoom: real, shorter: real)
    requires side * zoom == shorter && 1.0 <= zoom <= 3.0 && shorter > 0.0
    ensures side <= shorter <= side * 3.0
  {
    assert side > 0.0 by {
      Positive(side, zoom);
    }
    NotNegative(side, zoom - 1.0);
    NotNegative(side, 3.0 - zoom);
  }

  lemma Positive(a: real, b: real)
    requires a * b > 0.0 && b > 0.0
    ensures a > 0.0
  {
  }

  /** A drag takes the image with it: what was under a point is then under the point the pointer went to,
      unless the clamp acts. */
  lemma PanFollows(image: Image, circle: real, view: View, dx: real, dy: real, px: real, py: real)
    requires Sized(image, circle) && ZOOM_MIN <= view.zoom <= ZOOM_MAX
    ensures var r := PanBy(image, circle, view, dx, dy);
      r.zoom == view.zoom &&
      (Under(image, circle, r, px + dx, py + dy) == Under(image, circle, view, px, py)
       <==> InsideImage(image, SourceSquare(image, circle, View(view.zoom, view.x + dx, view.y + dy))))
  {
    var s := ViewScale(image, circle, view.zoom);
    var r := PanBy(image, circle, view, dx, dy);
    hide Times, Over, ViewScale, Overhang, SourceSquare, InsideImage;
    OverEqual(px + dx - r.x, px - view.x, s);
    OverEqual(py + dy - r.y, py - view.y, s);
    SettledIff(image, circle, View(view.zoom, view.x + dx, view.y + dy));
  }

  /** Where the image's corner lies on the stage, and what of the image is under a point of it. */
  lemma UnderIs(image: Image, circle: real, view: View, px: real, py: real)
    requires Sized(image, circle) && view.zoom > 0.0
    ensures var s, under := ViewScale(image, circle, view.zoom), Under(image, circle, view, px, py);
      && px == view.x - image.width * s / 2.0 + under.0 * s
      && py == view.y - image.height * s / 2.0 + under.1 * s
  {
    var s := ViewScale(image, circle, view.zoom);
    OverTimes(px - view.x, s);
    OverTimes(py - view.y, s);
    Distribute(image.width / 2.0, Over(px - view.x, s), s);
    Distribute(image.height / 2.0, Over(py - view.y, s), s);
    hide Over, ViewScale;
  }

  lemma OverTimes(a: real, s: real)
    requires s > 0.0
    ensures Over(a, s) * s == a
  {
  }

  lemma Distribute(a: real, b: real, k: real)
    ensures (a + b) * k == a * k + b * k
  {
  }
}
