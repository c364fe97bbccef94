/** Dragging and resizing a rotated layer (packages/designer-runtime/src/geometry.ts:24-126).  The
    cosine and sine of a rotation are given as numbers. */
module Geometry {
  import opened Frames
  import opened Outcomes

  /** A frame on the page, `left` from its left edge. */
  datatype Physical = Physical(left: real, top: real, width: real, height: real, rotation: real)

  datatype Direction = Ltr | Rtl

  datatype PageOf = PageOf(direction: Direction, width: int)

  datatype Handle = N | S | E | W | NE | NW | SE | SW

  // ----- rotations -----

  /** The one stored form of an angle: congruent to it, in (-180, 180]. */
  function Normal(degrees: int): (r: int)
    ensures -180 < r <= 180 && (degrees - r) % 360 == 0
  {
    (degrees + 179) % 360 - 179
  }

  /** JavaScript's `%` takes the sign of the dividend. */
  function Remainder(a: int, b: int): int
    requires b > 0
  {
    if a >= 0 then a % b else -((-a) % b)
  }

  method NormaliseRotation(degrees: real) returns (r: int)
    ensures r == Normal(Round(degrees))
  {
    hide Round, Remainder, Normal;
    r := Remainder(Round(degrees), 360);
    RemainderRange(Round(degrees));
    if r > 180 {
      r := r - 360;
    }
    if r <= -180 {
      r := r + 360;
    }
  }

  lemma RemainderRange(a: int)
    ensures var r := Remainder(a, 360);
      && -360 < r < 360
      && Normal(a) == if r > 180 then r - 360 else if r <= -180 then r + 360 else r
  {
    var q := if a >= 0 then a / 360 else -((-a) / 360);
    assert a == 360 * q + Remainder(a, 360);
  }

  lemma NormalIsCanonical(a: int, b: int)
    ensures Normal(a) == Normal(b) <==> (a - b) % 360 == 0
    ensures Normal(Normal(a)) == Normal(a)
    ensures Normal(a) == a <==> -180 < a <= 180
  {
  }

  // ----- between the document and the page -----

  function ToPhysical(f: Frame, page: PageOf): Physical {
    var left := if page.direction == Rtl then page.width - f.x - f.w else f.x;
    Physical(left as real, f.y as real, f.w as real, f.h as real, (if f.rotation.Some? then f.rotation.value else 0) as real)
  }

  function Max(a: int, b: int): int {
    if a < b then b else a
  }

  function ToLogical(box: Physical, page: PageOf, previous: Option<Frame>): Frame {
    var w, h, left := Max(1, Round(box.width)), Max(1, Round(box.height)), Round(box.left);
    var rotation := Normal(Round(box.rotation));
    Frame(if page.direction == Rtl then page.width - left - w else left, Round(box.top), w, h,
          if rotation != 0 || (previous.Some? && previous.value.rotation.Some?) then Some(rotation) else None)
  }

  /** What a stored frame looks like. */
  predicate Stored(f: Frame) {
    f.w >= 1 && f.h >= 1 && (f.rotation.Some? ==> -180 < f.rotation.value <= 180)
  }

  predicate WholeBox(box: Physical) {
    && box.left == Round(box.left) as real && box.top == Round(box.top) as real
    && box.width == Round(box.width) as real && box.width >= 1.0
    && box.height == Round(box.height) as real && box.height >= 1.0
    && box.rotation == Round(box.rotation) as real && -180.0 < box.rotation <= 180.0
  }

  lemma RoundWhole(n: int)
    ensures Round(n as real) == n
  {
  }

  /** To the page and back is the same frame, key for key, just when it is a stored one. */
  lemma LogicalAgain(f: Frame, page: PageOf)
    ensures ToLogical(ToPhysical(f, page), page, Some(f)) == f <==> Stored(f)
  {
    RoundWhole(f.x);
    RoundWhole(f.y);
    RoundWhole(f.w);
    RoundWhole(f.h);
    RoundWhole(page.width - f.x - f.w);
    var r := if f.rotation.Some? then f.rotation.value else 0;
    RoundWhole(r);
    NormalIsCanonical(r, r);
  }

  lemma PhysicalAgain(box: Physical, page: PageOf, previous: Option<Frame>)
    requires WholeBox(box)
    ensures Stored(ToLogical(box, page, previous)) && ToPhysical(ToLogical(box, page, previous), page) == box
  {
    NormalIsCanonical(Round(box.rotation), 0);
  }

  /** A stored frame is within half a pixel of the box it was made from, on the page. */
  lemma LogicalIsNear(box: Physical, page: PageOf, previous: Option<Frame>)
    requires box.width >= 1.0 && box.height >= 1.0
    ensures var near := ToPhysical(ToLogical(box, page, previous), page);
      && -0.5 < near.left - box.left <= 0.5 && -0.5 < near.top - box.top <= 0.5
      && -0.5 < near.width - box.width <= 0.5 && -0.5 < near.height - box.height <= 0.5
      && near.rotation == Normal(Round(box.rotation)) as real
      && Stored(ToLogical(box, page, previous))
  {
  }

  // ----- moving -----

  /** A stored frame keeps its size and rotation, and moves on the page by the delta, rounded. */
  method MoveFrame(f: Frame, dx: real, dy: real, page: PageOf) returns (r: Frame)
    ensures r == Moved(f, dx, dy, page)
    ensures Stored(f) ==>
      && Stored(r) && r == f.(x := r.x, y := r.y)
      && ToPhysical(r, page).left == ToPhysical(f, page).left + Round(dx) as real
      && ToPhysical(r, page).top == ToPhysical(f, page).top + Round(dy) as real
  {
    if Stored(f) {
      MovedOnPage(f, dx, dy, page);
    }
    var box := ToPhysical(f, page);
    r := ToLogical(box.(left := box.left + dx, top := box.top + dy), page, Some(f));
  }

  function Moved(f: Frame, dx: real, dy: real, page: PageOf): Frame {
    var box := ToPhysical(f, page);
    ToLogical(box.(left := box.left + dx, top := box.top + dy), page, Some(f))
  }

  /** A stored frame keeps its size and rotation, and its place on the page moves by the delta, right
      being right in both directions. */
  lemma MovedOnPage(f: Frame, dx: real, dy: real, page: PageOf)
    requires Stored(f)
    ensures var r := Moved(f, dx, dy, page);
      && r == f.(x := r.x, y := r.y) && Stored(r)
      && ToPhysical(r, page).left == ToPhysical(f, page).left + Round(dx) as real
      && ToPhysical(r, page).top == ToPhysical(f, page).top + Round(dy) as real
      && r.x == (if page.direction == Rtl then f.x - Round(dx) else f.x + Round(dx))
      && r.y == f.y + Round(dy)
  {
    LogicalAgain(f, page);
    var left := if page.direction == Rtl then page.width - f.x - f.w else f.x;
    RoundShift(left, dx);
    RoundShift(f.y, dy);
  }

  lemma RoundShift(n: int, d: real)
    ensures Round(n as real + d) == n + Round(d)
  {
  }

  /** Whole-pixel moves add up, so one and its opposite cancel. */
  lemma MovesAdd(f: Frame, dx: int, dy: int, dx': int, dy': int, page: PageOf)
    requires Stored(f)
    ensures Moved(Moved(f, dx as real, dy as real, page), dx' as real, dy' as real, page)
      == Moved(f, (dx + dx') as real, (dy + dy') as real, page)
    ensures Moved(Moved(f, dx as real, dy as real, page), (-dx) as real, (-dy) as real, page) == f
  {
    hide Moved, ToPhysical, Stored, Round;
    var r := Moved(f, dx as real, dy as real, page);
    MovedOnPage(f, dx as real, dy as real, page);
    MovedOnPage(r, dx' as real, dy' as real, page);
    MovedOnPage(r, (-dx) as real, (-dy) as real, page);
    MovedOnPage(f, (dx + dx') as real, (dy + dy') as real, page);
    RoundWhole(dx);
    RoundWhole(dy);
    RoundWhole(dx');
    RoundWhole(dy');
    RoundWhole(-dx);
    RoundWhole(-dy);
    RoundWhole(dx + dx');
    RoundWhole(dy + dy');
  }

  // ----- resizing -----

  datatype Vec = Vec(x: real, y: real)

  /** Turned by the rotation whose cosine and sine are given. */
  function Turn(c: real, s: real, v: Vec): Vec {
    Vec(v.x * c - v.y * s, v.x * s + v.y * c)
  }

  /** Turned back. */
  function Unturn(c: real, s: real, v: Vec): Vec {
    Vec(v.x * c + v.y * s, -v.x * s + v.y * c)
  }

  function Sx(h: Handle): int {
    match h
    case E | NE | SE => 1
    case W | NW | SW => -1
    case _ => 0
  }

  function Sy(h: Handle): int {
    match h
    case S | SE | SW => 1
    case N | NE | NW => -1
    case _ => 0
  }

  /** `sign * x`, for a sign of -1, 0 or 1. */
  function Signed(sign: int, x: real): real {
    if sign == 1 then x else if sign == -1 then -x else 0.0
  }

  /** Where on the page the point of the box is that lies `v` from its centre along its own axes. */
  function OnPage(box: Physical, c: real, s: real, v: Vec): Vec {
    var t := Turn(c, s, v);
    Vec(box.left + box.width / 2.0 + t.x, box.top + box.height / 2.0 + t.y)
  }

  /** The corner or the middle of the side where the handle is, from the centre. */
  function At(handle: Handle, size: Vec): Vec {
    Vec(Signed(Sx(handle), size.x) / 2.0, Signed(Sy(handle), size.y) / 2.0)
  }

  /** The corner or the middle of the side across from the handle. */
  function Across(handle: Handle, size: Vec): Vec {
    Vec(-Signed(Sx(handle), size.x) / 2.0, -Signed(Sy(handle), size.y) / 2.0)
  }

  function SizeOf(box: Physical): Vec {
    Vec(box.width, box.height)
  }

  predicate Corner(handle: Handle) {
    Sx(handle) != 0 && Sy(handle) != 0
  }

  function MaxReal(a: real, b: real): real {
    if a < b then b else a
  }

  /** The larger of the two proportions of growth. */
  function Scale(size: Vec, from: Vec): real
    requires from.x > 0.0 && from.y > 0.0
  {
    MaxReal(size.x / from.x, size.y / from.y)
  }

  function Times(size: Vec, k: real): Vec {
    Vec(size.x * k, size.y * k)
  }

  /** The new size after the handle moved by `local` along the layer's own axes. */
  function Resized(from: Vec, handle: Handle, local: Vec, keepRatio: bool, min: real): Vec
    requires from.x > 0.0 && from.y > 0.0
  {
    var free := Vec(MaxReal(min, from.x + Signed(Sx(handle), local.x)), MaxReal(min, from.y + Signed(Sy(handle), local.y)));
    if keepRatio && Corner(handle) then
      var held := Times(from, Scale(free, from));
      Vec(MaxReal(min, held.x), MaxReal(min, held.y))
    else free
  }

  /** A box of a new size with its centre moved by half the growth, along its own axes. */
  function Grown(box: Physical, handle: Handle, c: real, s: real, size: Vec): Physical {
    var shift := Turn(c, s, At(handle, Vec(size.x - box.width, size.y - box.height)));
    Physical(box.left + box.width / 2.0 + shift.x - size.x / 2.0, box.top + box.height / 2.0 + shift.y - size.y / 2.0,
             size.x, size.y, box.rotation)
  }

  function ResizedBox(box: Physical, handle: Handle, dx: real, dy: real, c: real, s: real, keepRatio: bool, min: real): Physical
    requires box.width > 0.0 && box.height > 0.0
  {
    Grown(box, handle, c, s, Resized(SizeOf(box), handle, Unturn(c, s, Vec(dx, dy)), keepRatio, min))
  }

  method ResizeFrame(f: Frame, handle: Handle, dx: real, dy: real, page: PageOf, c: real, s: real,
                     keepRatio: bool, minSize: Option<real>) returns (r: Frame)
    requires f.w > 0 && f.h > 0
    ensures var min := MaxReal(1.0, if minSize.Some? then minSize.value else 1.0);
      r == ToLogical(ResizedBox(ToPhysical(f, page), handle, dx, dy, c, s, keepRatio, min), page, Some(f))
  {
    hide Turn, Unturn, Times, Scale, ToLogical, Signed, MaxReal, Sx, Sy;
    var min := MaxReal(1.0, if minSize.Some? then minSize.value else 1.0);
    var box := ToPhysical(f, page);
    var l := Unturn(c, s, Vec(dx, dy));
    var sx, sy := Sx(handle), Sy(handle);
    var w := MaxReal(min, box.width + Signed(sx, l.x));
    var h := MaxReal(min, box.height + Signed(sy, l.y));
    if keepRatio && sx != 0 && sy != 0 {
      var scale := Scale(Vec(w, h), SizeOf(box));
      w := MaxReal(min, Times(SizeOf(box), scale).x);
      h := MaxReal(min, Times(SizeOf(box), scale).y);
    }
    var dw := w - box.width;
    var dh := h - box.height;
    var turned := Turn(c, s, Vec(Signed(sx, dw) / 2.0, Signed(sy, dh) / 2.0));
    var cx := box.left + box.width / 2.0 + turned.x;
    var cy := box.top + box.height / 2.0 + turned.y;
    r := ToLogical(Physical(cx - w / 2.0, cy - h / 2.0, w, h, box.rotation), page, Some(f));
  }

  lemma TurnAdds(c: real, s: real, v: Vec, w: Vec)
    ensures Turn(c, s, Vec(v.x + w.x, v.y + w.y)) == Vec(Turn(c, s, v).x + Turn(c, s, w).x, Turn(c, s, v).y + Turn(c, s, w).y)
  {
  }

  /** Whatever the new size, the rotation and the page, the point opposite the handle stays where it
      was: the opposite corner, or the middle of the opposite side. */
  lemma OppositeStays(box: Physical, handle: Handle, c: real, s: real, size: Vec)
    ensures var r := Grown(box, handle, c, s, size);
      OnPage(r, c, s, Across(handle, size)) == OnPage(box, c, s, Across(handle, SizeOf(box)))
  {
    hide Turn;
    TurnAdds(c, s, At(handle, Vec(size.x - box.width, size.y - box.height)), Across(handle, size));
    assert Vec(At(handle, Vec(size.x - box.width, size.y - box.height)).x + Across(handle, size).x,
               At(handle, Vec(size.x - box.width, size.y - box.height)).y + Across(handle, size).y)
        == Across(handle, SizeOf(box));
  }

  /** The size across a side handle's own axis. */
  function AcrossSize(handle: Handle, size: Vec): real {
    if Sy(handle) == 0 then size.y else size.x
  }

  /** A side handle keeps the opposite side where it was: every point of it, `d` away from its middle,
      stays; and the side keeps its length, and with it both its ends, exactly when it is not shorter
      than the minimum. */
  lemma OppositeSideStays(box: Physical, handle: Handle, dx: real, dy: real, c: real, s: real, keepRatio: bool, min: real)
    requires box.width > 0.0 && box.height > 0.0 && (handle == N || handle == S || handle == E || handle == W)
    ensures var r := ResizedBox(box, handle, dx, dy, c, s, keepRatio, min);
      && (AcrossSize(handle, SizeOf(r)) == AcrossSize(handle, SizeOf(box)) <==> AcrossSize(handle, SizeOf(box)) >= min)
      && forall d: real :: SidePoint(r, handle, c, s, d) == SidePoint(box, handle, c, s, d)
  {
    assert !Corner(handle);
    hide Unturn, Turn, Times, Scale, Signed, OnPage, Across, Grown, Sx, Sy;
    var size := Resized(SizeOf(box), handle, Unturn(c, s, Vec(dx, dy)), keepRatio, min);
    AcrossSizeKept(SizeOf(box), handle, Unturn(c, s, Vec(dx, dy)), keepRatio, min);
    GrownSize(box, handle, c, s, size);
    forall d: real
      ensures SidePoint(Grown(box, handle, c, s, size), handle, c, s, d) == SidePoint(box, handle, c, s, d)
    {
      SidePointStays(box, handle, c, s, size, d);
    }
  }

  lemma AcrossSizeKept(from: Vec, handle: Handle, local: Vec, keepRatio: bool, min: real)
    requires from.x > 0.0 && from.y > 0.0 && !Corner(handle)
    ensures AcrossSize(handle, Resized(from, handle, local, keepRatio, min)) == AcrossSize(handle, from)
      <==> AcrossSize(handle, from) >= min
  {
    hide Times, Scale;
  }

  lemma GrownSize(box: Physical, handle: Handle, c: real, s: real, size: Vec)
    ensures SizeOf(Grown(box, handle, c, s, size)) == size
  {
    hide Turn;
  }

  lemma SidePointStays(box: Physical, handle: Handle, c: real, s: real, size: Vec, d: real)
    ensures SidePoint(Grown(box, handle, c, s, size), handle, c, s, d) == SidePoint(box, handle, c, s, d)
  {
    OppositeStays(box, handle, c, s, size);
    GrownSize(box, handle, c, s, size);
    hide Turn, Across, Grown, Sx, Sy;
    var along := if Sy(handle) == 0 then Vec(0.0, d) else Vec(d, 0.0);
    TurnAdds(c, s, Across(handle, size), along);
    TurnAdds(c, s, Across(handle, SizeOf(box)), along);
  }

  /** The point of the side across from the handle that lies `d` from its middle. */
  function SidePoint(box: Physical, handle: Handle, c: real, s: real, d: real): Vec {
    var middle := Across(handle, SizeOf(box));
    OnPage(box, c, s, if Sy(handle) == 0 then Vec(middle.x, middle.y + d) else Vec(middle.x + d, middle.y))
  }

  lemma TurnUnturn(c: real, s: real, v: Vec)
    requires c * c + s * s == 1.0
    ensures Turn(c, s, Unturn(c, s, v)) == v
  {
    var x, y := v.x, v.y;
    assert (x * c + y * s) * c - (-x * s + y * c) * s == x * (c * c + s * s);
    assert (x * c + y * s) * s + (-x * s + y * c) * c == y * (c * c + s * s);
  }

  /** Where the minimum does not act and no proportion is held, a corner goes where the pointer takes it. */
  lemma CornerFollowsPointer(box: Physical, handle: Handle, dx: real, dy: real, c: real, s: real, min: real)
    requires box.width > 0.0 && box.height > 0.0 && c * c + s * s == 1.0 && (handle == NE || handle == NW || handle == SE || handle == SW)
    requires var l := Unturn(c, s, Vec(dx, dy));
      box.width + Signed(Sx(handle), l.x) >= min && box.height + Signed(Sy(handle), l.y) >= min
    ensures var r := ResizedBox(box, handle, dx, dy, c, s, false, min);
      var to, from := OnPage(r, c, s, At(handle, SizeOf(r))), OnPage(box, c, s, At(handle, SizeOf(box)));
      to == Vec(from.x + dx, from.y + dy)
  {
    TurnUnturn(c, s, Vec(dx, dy));
    hide Turn, Unturn;
    var l := Unturn(c, s, Vec(dx, dy));
    var r := ResizedBox(box, handle, dx, dy, c, s, false, min);
    var growth := At(handle, Vec(r.width - box.width, r.height - box.height));
    TurnAdds(c, s, growth, At(handle, SizeOf(r)));
    TurnAdds(c, s, At(handle, SizeOf(box)), l);
    assert Vec(growth.x + At(handle, SizeOf(r)).x, growth.y + At(handle, SizeOf(r)).y)
        == Vec(At(handle, SizeOf(box)).x + l.x, At(handle, SizeOf(box)).y + l.y);
  }

  lemma UnturnIs(c: real, s: real, dx: real, dy: real)
    ensures Unturn(c, s, Vec(dx, dy)) == Vec(dx * c + dy * s, dy * c - dx * s)
  {
    assert -dx * s == -(dx * s);
  }

  /** The size a drag gives, handle by handle, unless a corner holds its proportion: `lx` and `ly` are the
      pointer's movement along the layer's own width and height, east and south making it larger, west and
      north smaller. */
  lemma FreeSize(box: Physical, handle: Handle, dx: real, dy: real, c: real, s: real, keepRatio: bool, min: real)
    requires box.width > 0.0 && box.height > 0.0
    requires keepRatio ==> handle == N || handle == S || handle == E || handle == W
    ensures var r := ResizedBox(box, handle, dx, dy, c, s, keepRatio, min);
      var lx, ly := dx * c + dy * s, dy * c - dx * s;
      var width := if handle == E || handle == NE || handle == SE then box.width + lx
                   else if handle == W || handle == NW || handle == SW then box.width - lx else box.width;
      var height := if handle == S || handle == SE || handle == SW then box.height + ly
                    else if handle == N || handle == NE || handle == NW then box.height - ly else box.height;
      && r.width == (if width < min then min else width)
      && r.height == (if height < min then min else height)
      && r.rotation == box.rotation
  {
    var l := Unturn(c, s, Vec(dx, dy));
    UnturnIs(c, s, dx, dy);
    hide Times, Scale, Turn, Unturn;
    var size := Resized(SizeOf(box), handle, l, keepRatio, min);
    GrownSize(box, handle, c, s, size);
    hide Grown;
  }

  /** On a layer that is not turned, the sides a handle does not name stay where they are: dragging the right
      side leaves the left one, and so on round; along the other axis the middle stays. */
  lemma SidesStay(box: Physical, handle: Handle, dx: real, dy: real, keepRatio: bool, min: real)
    requires box.width > 0.0 && box.height > 0.0
    ensures var r := ResizedBox(box, handle, dx, dy, 1.0, 0.0, keepRatio, min);
      && (handle == E || handle == NE || handle == SE ==> r.left == box.left)
      && (handle == W || handle == NW || handle == SW ==> r.left + r.width == box.left + box.width)
      && (handle == N || handle == S ==> r.left + r.width / 2.0 == box.left + box.width / 2.0)
      && (handle == S || handle == SE || handle == SW ==> r.top == box.top)
      && (handle == N || handle == NE || handle == NW ==> r.top + r.height == box.top + box.height)
      && (handle == E || handle == W ==> r.top + r.height / 2.0 == box.top + box.height / 2.0)
  {
    hide Times, Scale;
    var size := Resized(SizeOf(box), handle, Unturn(1.0, 0.0, Vec(dx, dy)), keepRatio, min);
    NotTurned(At(handle, Vec(size.x - box.width, size.y - box.height)));
    hide Turn, Resized, Unturn;
  }

  lemma NotTurned(v: Vec)
    ensures Turn(1.0, 0.0, v) == v
  {
  }

  /** A layer turned by a quarter, clockwise on the page: its right side points down, so pulling it down makes
      the layer wider, and the end of the layer that points up stays. */
  lemma QuarterTurned(box: Physical, dx: real, dy: real, min: real)
    requires box.width > 0.0 && box.height > 0.0
    ensures var r := ResizedBox(box, E, dx, dy, 0.0, 1.0, false, min);
      && r.width == (if box.width + dy < min then min else box.width + dy)
      && r.top + r.height / 2.0 - r.width / 2.0 == box.top + box.height / 2.0 - box.width / 2.0
      && r.left + r.width / 2.0 == box.left + box.width / 2.0
  {
  }

  /** On the page `x` is measured from the side where lines begin. */
  lemma FromInlineStart(f: Frame, page: PageOf)
    ensures var box := ToPhysical(f, page);
      && (if page.direction == Ltr then box.left == f.x as real
          else page.width as real - (box.left + box.width) == f.x as real)
      && box.top == f.y as real && box.width == f.w as real && box.height == f.h as real
      && box.rotation == (if f.rotation == None then 0.0 else f.rotation.value as real)
  {
  }

  lemma ScaleReaches(size: Vec, from: Vec)
    requires from.x > 0.0 && from.y > 0.0
    ensures var held := Times(from, Scale(size, from));
      held.x >= size.x && held.y >= size.y && (held.x == size.x || held.y == size.y) && held.x * from.y == held.y * from.x
  {
    var k := Scale(size, from);
    assert from.x * (size.x / from.x) == size.x && from.y * (size.y / from.y) == size.y;
    Monotone(from.x, size.x / from.x, k);
    Monotone(from.y, size.y / from.y, k);
    assert from.x * k * from.y == from.y * k * from.x;
  }

  lemma Monotone(a: real, x: real, y: real)
    requires a > 0.0 && x <= y
    ensures a * x <= a * y
  {
  }

  /** A corner with its proportion held keeps it exactly: the minimum never stretches one side alone. */
  lemma RatioHeld(from: Vec, handle: Handle, local: Vec, min: real)
    requires from.x > 0.0 && from.y > 0.0 && (handle == NE || handle == NW || handle == SE || handle == SW)
    ensures var size, free := Resized(from, handle, local, true, min), Resized(from, handle, local, false, min);
      && size.x * from.y == size.y * from.x
      && size.x >= free.x >= min && size.y >= free.y >= min && (size.x == free.x || size.y == free.y)
  {
    hide Times, Scale;
    ScaleReaches(Resized(from, handle, local, false, min), from);
  }

  /** What is stored after a resize: within half a pixel, on the page, of the box whose opposite point
      stayed, with the rotation untouched. */
  lemma ResizeStored(f: Frame, handle: Handle, dx: real, dy: real, page: PageOf, c: real, s: real, keepRatio: bool, min: real)
    requires Stored(f) && min >= 1.0
    ensures var box := ToPhysical(f, page);
      var exact := ResizedBox(box, handle, dx, dy, c, s, keepRatio, min);
      var r := ToLogical(exact, page, Some(f));
      var near := ToPhysical(r, page);
      && OnPage(exact, c, s, Across(handle, SizeOf(exact))) == OnPage(box, c, s, Across(handle, SizeOf(box)))
      && -0.5 < near.left - exact.left <= 0.5 && -0.5 < near.top - exact.top <= 0.5
      && -0.5 < near.width - exact.width <= 0.5 && -0.5 < near.height - exact.height <= 0.5
      && Stored(r) && r.rotation == f.rotation
  {
    hide Turn, Unturn, Times, Scale;
    var box := ToPhysical(f, page);
    var size := Resized(SizeOf(box), handle, Unturn(c, s, Vec(dx, dy)), keepRatio, min);
    OppositeStays(box, handle, c, s, size);
    LogicalIsNear(ResizedBox(box, handle, dx, dy, c, s, keepRatio, min), page, Some(f));
    var r := if f.rotation.Some? then f.rotation.value else 0;
    RoundWhole(r);
    NormalIsCanonical(r, r);
  }
}
