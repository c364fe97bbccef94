/** Equal gaps between layers (packages/designer-runtime/src/arrange.ts:177-209). */
module LayerSpacing {
  import opened Frames
  import opened LayerStacking

  datatype Axis = Inline | Block

  function Start(f: Frame, axis: Axis): int {
    if axis == Inline then f.x else f.y
  }

  function Size(f: Frame, axis: Axis): int {
    if axis == Inline then f.w else f.h
  }

  function StartingAt(f: Frame, axis: Axis, at: int): Frame {
    if axis == Inline then f.(x := at) else f.(y := at)
  }

  /** The places of the named layers among the first `n` of the document, in document order. */
  function MembersUpTo(layers: seq<Layer>, ids: seq<string>, n: nat): (r: seq<nat>)
    requires n <= |layers|
    ensures forall i :: i in r <==> 0 <= i < n && layers[i].id in ids
    ensures forall j, k :: 0 <= j < k < |r| ==> r[j] < r[k]
  {
    if n == 0 then []
    else
      var rest := MembersUpTo(layers, ids, n - 1);
      assert forall j :: 0 <= j < |rest| ==> rest[j] in rest;
      rest + if layers[n - 1].id in ids then [n - 1] else []
  }

  function Members(layers: seq<Layer>, ids: seq<string>): (r: seq<nat>)
    ensures forall i :: i in r <==> 0 <= i < |layers| && layers[i].id in ids
    ensures forall k :: 0 <= k < |r| ==> r[k] < |layers|
  {
    var r := MembersUpTo(layers, ids, |layers|);
    assert forall k :: 0 <= k < |r| ==> r[k] in r;
    r
  }

  function Starts(layers: seq<Layer>, members: seq<nat>, axis: Axis): (r: seq<int>)
    requires forall k :: 0 <= k < |members| ==> members[k] < |layers|
    ensures |r| == |members| && forall k :: 0 <= k < |r| ==> r[k] == Start(layers[members[k]].frame, axis)
  {
    seq(|members|, k requires 0 <= k < |members| => Start(layers[members[k]].frame, axis))
  }

  /** The places of the named layers by their starts, ties in document order. */
  function Arranged(layers: seq<Layer>, ids: seq<string>, axis: Axis): (r: seq<nat>)
    ensures |r| == |Members(layers, ids)| && forall k :: 0 <= k < |r| ==> r[k] < |layers|
  {
    var members := Members(layers, ids);
    var p := Order(Starts(layers, members, axis));
    seq(|p|, k requires 0 <= k < |p| => members[p[k]])
  }

  /** Of two layers at places `i` and `j`, the one that comes first on an axis. */
  predicate StartsFirst(f: Frame, i: nat, g: Frame, j: nat, axis: Axis) {
    match axis
    case Inline => f.x < g.x || (f.x == g.x && i < j)
    case Block => f.y < g.y || (f.y == g.y && i < j)
  }

  lemma ArrangedPair(layers: seq<Layer>, ids: seq<string>, axis: Axis, j: nat, k: nat)
    requires j < k < |Arranged(layers, ids, axis)|
    ensures var r := Arranged(layers, ids, axis);
      r[j] != r[k] && StartsFirst(layers[r[j]].frame, r[j], layers[r[k]].frame, r[k], axis)
  {
    var members := Members(layers, ids);
    var starts := Starts(layers, members, axis);
    OrderUpToSorts(starts, |starts|);
    var p := Order(starts);
    assert Less(starts, p[j], p[k]);
    hide Order;
    var r := Arranged(layers, ids, axis);
    assert r[j] == members[p[j]] && r[k] == members[p[k]];
  }

  lemma ArrangedHolds(layers: seq<Layer>, ids: seq<string>, axis: Axis, i: nat)
    ensures i in Arranged(layers, ids, axis) <==> i < |layers| && layers[i].id in ids
  {
    var members, r := Members(layers, ids), Arranged(layers, ids, axis);
    var starts := Starts(layers, members, axis);
    OrderUpToSorts(starts, |starts|);
    var p := Order(starts);
    hide Order, Starts, Members;
    if i in members {
      var k :| 0 <= k < |members| && members[k] == i;
      assert k in p;
      var j :| 0 <= j < |p| && p[j] == k;
      assert r[j] == i;
    }
    if i in r {
      var j :| 0 <= j < |r| && r[j] == i;
      assert r[j] == members[p[j]];
    }
  }

  lemma ArrangedAre(layers: seq<Layer>, ids: seq<string>, axis: Axis)
    ensures var r := Arranged(layers, ids, axis);
      && (forall i :: i in r <==> 0 <= i < |layers| && layers[i].id in ids)
      && (forall j, k :: 0 <= j < k < |r| ==> r[j] != r[k])
      && (forall j, k :: 0 <= j < k < |r| ==>
            StartsFirst(layers[r[j]].frame, r[j], layers[r[k]].frame, r[k], axis))
  {
    var r := Arranged(layers, ids, axis);
    hide Arranged, StartsFirst;
    forall i ensures i in r <==> 0 <= i < |layers| && layers[i].id in ids {
      if i >= 0 {
        ArrangedHolds(layers, ids, axis, i);
      }
    }
    forall j, k | 0 <= j < k < |r|
      ensures r[j] != r[k] && StartsFirst(layers[r[j]].frame, r[j], layers[r[k]].frame, r[k], axis)
    {
      ArrangedPair(layers, ids, axis, j, k);
    }
  }

  lemma ArrangedNamed(layers: seq<Layer>, ids: seq<string>, axis: Axis)
    ensures var r := Arranged(layers, ids, axis);
      && (forall k :: 0 <= k < |r| ==> layers[r[k]].id in ids)
      && (forall j, k :: 0 <= j < k < |r| ==> r[j] != r[k])
  {
    ArrangedAre(layers, ids, axis);
    var r := Arranged(layers, ids, axis);
    assert forall k :: 0 <= k < |r| ==> r[k] in r;
  }

  /** The sizes of the first `n` arranged layers together. */
  function Total(layers: seq<Layer>, order: seq<nat>, axis: Axis, n: nat): int
    requires n <= |order| && forall k :: 0 <= k < |order| ==> order[k] < |layers|
  {
    if n == 0 then 0 else Total(layers, order, axis, n - 1) + Size(layers[order[n - 1]].frame, axis)
  }

  /** The equal gap, not a whole number in general. */
  function Gap(layers: seq<Layer>, order: seq<nat>, axis: Axis): real
    requires |order| >= 2 && forall k :: 0 <= k < |order| ==> order[k] < |layers|
  {
    var first, last := layers[order[0]].frame, layers[order[|order| - 1]].frame;
    var span := Start(last, axis) + Size(last, axis) - Start(first, axis);
    (span - Total(layers, order, axis, |order|)) as real / (|order| - 1) as real
  }

  /** Where the `k`th layer would start with exactly equal gaps. */
  function Ideal(layers: seq<Layer>, order: seq<nat>, axis: Axis, k: nat): real
    requires |order| >= 2 && k <= |order| && forall k :: 0 <= k < |order| ==> order[k] < |layers|
  {
    Start(layers[order[0]].frame, axis) as real + Total(layers, order, axis, k) as real
      + k as real * Gap(layers, order, axis)
  }

  /** `r` is the document with its named layers at the nearest whole pixel to their ideal starts. */
  ghost predicate Distributed(layers: seq<Layer>, ids: seq<string>, axis: Axis, r: seq<Layer>) {
    var order := Arranged(layers, ids, axis);
    if |order| < 3 then r == layers
    else
      && |r| == |layers|
      && (forall i :: 0 <= i < |layers| && layers[i].id !in ids ==> r[i] == layers[i])
      && forall k :: 0 <= k < |order| ==>
           r[order[k]] == layers[order[k]].(frame :=
             StartingAt(layers[order[k]].frame, axis, Round(Ideal(layers, order, axis, k))))
  }

  lemma NextIdeal(layers: seq<Layer>, order: seq<nat>, axis: Axis, k: nat)
    requires |order| >= 2 && k < |order| && forall k :: 0 <= k < |order| ==> order[k] < |layers|
    ensures Ideal(layers, order, axis, k + 1) ==
      Ideal(layers, order, axis, k) + Size(layers[order[k]].frame, axis) as real + Gap(layers, order, axis)
  {
    hide Gap;
    var gap := Gap(layers, order, axis);
    assert (k + 1) as real * gap == k as real * gap + gap;
  }

  lemma FirstIdeal(layers: seq<Layer>, order: seq<nat>, axis: Axis)
    requires |order| >= 2 && forall k :: 0 <= k < |order| ==> order[k] < |layers|
    ensures Ideal(layers, order, axis, 0) == Start(layers[order[0]].frame, axis) as real
  {
    hide Gap;
    assert 0 as real * Gap(layers, order, axis) == 0.0;
  }

  lemma DistinctAt(layers: seq<Layer>, order: seq<nat>, k: nat)
    requires DistinctIds(layers) && k < |order| && forall k :: 0 <= k < |order| ==> order[k] < |layers|
    requires forall j, k :: 0 <= j < k < |order| ==> order[j] != order[k]
    ensures forall j :: 0 <= j < k ==> layers[order[j]].id != layers[order[k]].id
  {
  }

  /** The loop of `distributeLayers`: the cursor walks the arranged layers and `placed` fills. */
  method Place(doc: seq<Layer>, ids: seq<string>, order: seq<nat>, axis: Axis, gap: real)
    returns (placed: map<string, int>)
    requires DistinctIds(doc) && |order| >= 2 && forall k :: 0 <= k < |order| ==> order[k] < |doc|
    requires forall j, k :: 0 <= j < k < |order| ==> order[j] != order[k]
    requires gap == Gap(doc, order, axis) && forall k :: 0 <= k < |order| ==> doc[order[k]].id in ids
    ensures forall k :: 0 <= k < |order| ==>
      doc[order[k]].id in placed && placed[doc[order[k]].id] == Round(Ideal(doc, order, axis, k))
    ensures forall id :: id in placed ==> id in ids
  {
    hide Gap, Ideal, Total, Round, DistinctIds;
    placed := map[];
    var cursor := Start(doc[order[0]].frame, axis) as real;
    FirstIdeal(doc, order, axis);
    for k := 0 to |order|
      invariant cursor == Ideal(doc, order, axis, k)
      invariant forall j :: 0 <= j < k ==>
        doc[order[j]].id in placed && placed[doc[order[j]].id] == Round(Ideal(doc, order, axis, j))
      invariant forall id :: id in placed ==> id in ids
    {
      var l := doc[order[k]];
      NextIdeal(doc, order, axis, k);
      DistinctAt(doc, order, k);
      placed := placed[l.id := Round(cursor)];
      cursor := cursor + (Size(l.frame, axis) as real + gap);
    }
  }

  function WithStarts(layers: seq<Layer>, axis: Axis, placed: map<string, int>): (r: seq<Layer>)
    ensures |r| == |layers|
    ensures forall i :: 0 <= i < |r| ==>
      (r[i] == if layers[i].id in placed
               then layers[i].(frame := StartingAt(layers[i].frame, axis, placed[layers[i].id]))
               else layers[i])
  {
    seq(|layers|, i requires 0 <= i < |layers| =>
      if layers[i].id in placed
      then layers[i].(frame := StartingAt(layers[i].frame, axis, placed[layers[i].id]))
      else layers[i])
  }

  lemma WithStartsDistributes(layers: seq<Layer>, ids: seq<string>, axis: Axis, placed: map<string, int>)
    requires var order := Arranged(layers, ids, axis);
      && |order| >= 3
      && (forall id :: id in placed ==> id in ids)
      && forall k :: 0 <= k < |order| ==>
           layers[order[k]].id in placed && placed[layers[order[k]].id] == Round(Ideal(layers, order, axis, k))
    ensures Distributed(layers, ids, axis, WithStarts(layers, axis, placed))
  {
    hide Ideal, Arranged, Round, StartingAt, WithStarts;
  }

  method DistributeLayers(doc: seq<Layer>, ids: seq<string>, axis: Axis) returns (r: seq<Layer>)
    requires DistinctIds(doc)
    ensures Distributed(doc, ids, axis, r)
  {
    var order := Arranged(doc, ids, axis);
    if |order| < 3 {
      return doc;
    }
    hide *;
    ArrangedNamed(doc, ids, axis);
    var placed := Place(doc, ids, order, axis, Gap(doc, order, axis));
    r := WithStarts(doc, axis, placed);
    WithStartsDistributes(doc, ids, axis, placed);
  }

  /** The cursor telescopes to the last layer's own start. */
  lemma LastIdeal(layers: seq<Layer>, order: seq<nat>, axis: Axis)
    requires |order| >= 2 && forall k :: 0 <= k < |order| ==> order[k] < |layers|
    ensures Ideal(layers, order, axis, |order| - 1) == Start(layers[order[|order| - 1]].frame, axis) as real
  {
    var n := (|order| - 1) as real;
    var gap := Gap(layers, order, axis);
    var last := layers[order[|order| - 1]].frame;
    var span := Start(last, axis) + Size(last, axis) - Start(layers[order[0]].frame, axis);
    var left := (span - Total(layers, order, axis, |order|)) as real;
    assert n * (left / n) == left;
    assert n * gap == left;
  }

  /** The gap on the page after the `k`th of the arranged layers. */
  function GapAfter(layers: seq<Layer>, order: seq<nat>, axis: Axis, k: nat): int
    requires k + 1 < |order| && forall k :: 0 <= k < |order| ==> order[k] < |layers|
  {
    var f, next := layers[order[k]].frame, layers[order[k + 1]].frame;
    match axis
    case Inline => next.x - (f.x + f.w)
    case Block => next.y - (f.y + f.h)
  }

  /** The first `n` gaps together. */
  function GapsUpTo(layers: seq<Layer>, order: seq<nat>, axis: Axis, n: nat): int
    requires n < |order| && forall k :: 0 <= k < |order| ==> order[k] < |layers|
  {
    if n == 0 then 0 else GapsUpTo(layers, order, axis, n - 1) + GapAfter(layers, order, axis, n - 1)
  }

  /** Starts, sizes and gaps measure one page. */
  lemma {:induction false} GapsTelescope(layers: seq<Layer>, order: seq<nat>, axis: Axis, n: nat)
    requires n < |order| && forall k :: 0 <= k < |order| ==> order[k] < |layers|
    ensures GapsUpTo(layers, order, axis, n) + Total(layers, order, axis, n)
      == Start(layers[order[n]].frame, axis) - Start(layers[order[0]].frame, axis)
  {
    if n == 0 {
    } else {
      GapsTelescope(layers, order, axis, n - 1);
    }
  }

  function AverageGap(layers: seq<Layer>, order: seq<nat>, axis: Axis): real
    requires |order| >= 2 && forall k :: 0 <= k < |order| ==> order[k] < |layers|
  {
    GapsUpTo(layers, order, axis, |order| - 1) as real / (|order| - 1) as real
  }

  /** The equal gap is the average of the gaps there were. */
  lemma GapIsAverage(layers: seq<Layer>, order: seq<nat>, axis: Axis)
    requires |order| >= 2 && forall k :: 0 <= k < |order| ==> order[k] < |layers|
    ensures Gap(layers, order, axis) == AverageGap(layers, order, axis)
  {
    GapsTelescope(layers, order, axis, |order| - 1);
  }

  lemma GapBetween(layers: seq<Layer>, ids: seq<string>, axis: Axis, r: seq<Layer>, k: nat)
    requires Distributed(layers, ids, axis, r) && |Arranged(layers, ids, axis)| >= 3
    requires k + 1 < |Arranged(layers, ids, axis)|
    ensures var order := Arranged(layers, ids, axis);
      var gap := Gap(layers, order, axis);
      && gap - 1.0 < GapAfter(r, order, axis, k) as real < gap + 1.0
      && (gap >= 0.0 ==> GapAfter(r, order, axis, k) >= 0)
  {
    var order := Arranged(layers, ids, axis);
    hide Gap, Ideal, Arranged;
    var size := Size(layers[order[k]].frame, axis);
    NextIdeal(layers, order, axis, k);
    assert r[order[k]] == layers[order[k]].(frame :=
      StartingAt(layers[order[k]].frame, axis, Round(Ideal(layers, order, axis, k))));
    assert r[order[k + 1]] == layers[order[k + 1]].(frame :=
      StartingAt(layers[order[k + 1]].frame, axis, Round(Ideal(layers, order, axis, k + 1))));
  }

  /** The outermost two stay where they were; every gap on the page is the average of the gaps there were,
      rounded one way or the other, and none is an overlap unless the average is. */
  lemma EqualGaps(layers: seq<Layer>, ids: seq<string>, axis: Axis, r: seq<Layer>)
    requires Distributed(layers, ids, axis, r) && |Arranged(layers, ids, axis)| >= 3
    ensures var order := Arranged(layers, ids, axis);
      var gap := AverageGap(layers, order, axis);
      && r[order[0]] == layers[order[0]]
      && r[order[|order| - 1]] == layers[order[|order| - 1]]
      && (forall k :: 0 <= k < |order| - 1 ==> gap - 1.0 < GapAfter(r, order, axis, k) as real < gap + 1.0)
      && (gap >= 0.0 ==> forall k :: 0 <= k < |order| - 1 ==> GapAfter(r, order, axis, k) >= 0)
  {
    var order := Arranged(layers, ids, axis);
    var gap := Gap(layers, order, axis);
    GapIsAverage(layers, order, axis);
    FirstIdeal(layers, order, axis);
    LastIdeal(layers, order, axis);
    hide Gap, AverageGap, GapAfter, Ideal, Arranged;
    forall k | 0 <= k < |order| - 1
      ensures gap - 1.0 < GapAfter(r, order, axis, k) as real < gap + 1.0
      ensures gap >= 0.0 ==> GapAfter(r, order, axis, k) >= 0
    {
      GapBetween(layers, ids, axis, r, k);
    }
  }

  /** Only the named layers can change, on the inline axis only their x and on the block axis only their y,
      and the paint order does not. */
  lemma NothingElseMoves(layers: seq<Layer>, ids: seq<string>, axis: Axis, r: seq<Layer>)
    requires DistinctIds(layers) && Distributed(layers, ids, axis, r)
    ensures |r| == |layers|
    ensures forall i :: 0 <= i < |layers| ==>
      && (match axis
          case Inline => r[i] == layers[i].(frame := layers[i].frame.(x := r[i].frame.x))
          case Block => r[i] == layers[i].(frame := layers[i].frame.(y := r[i].frame.y)))
      && (layers[i].id !in ids ==> r[i] == layers[i])
    ensures Ids(PaintOrder(r)) == Ids(PaintOrder(layers))
  {
    var order := Arranged(layers, ids, axis);
    hide Gap, Ideal, Arranged, Round, DistinctIds;
    ArrangedAre(layers, ids, axis);
    forall i | 0 <= i < |layers|
      ensures r[i] == layers[i].(frame := StartingAt(layers[i].frame, axis, Start(r[i].frame, axis)))
    {
      if |order| >= 3 && layers[i].id in ids {
        assert i in order;
        var k :| 0 <= k < |order| && order[k] == i;
        assert r[order[k]] == layers[order[k]].(frame :=
          StartingAt(layers[order[k]].frame, axis, Round(Ideal(layers, order, axis, k))));
      }
    }
    assert Zs(r) == Zs(layers);
  }
}
