/** The paint order of a design's layers, and the four ways to move one in it
    (packages/designer-runtime/src/arrange.ts:79-132). */
module LayerStacking {
  import opened Frames
  import opened Outcomes

  /** `content` is the rest of the layer, which is only carried along. */
  datatype Layer = Layer(id: string, z: Option<int>, frame: Frame, content: int)

  datatype Move = Forward | Backward | Front | Back

  // ----- the order of indices by value, ties by position -----

  predicate Less(zs: seq<int>, a: nat, b: nat)
    requires a < |zs| && b < |zs|
  {
    zs[a] < zs[b] || (zs[a] == zs[b] && a < b)
  }

  function InsertIndex(zs: seq<int>, order: seq<nat>, a: nat): (r: seq<nat>)
    requires a < |zs| && forall k :: 0 <= k < |order| ==> order[k] < |zs|
    ensures |r| == |order| + 1 && forall k :: 0 <= k < |r| ==> r[k] < |zs|
  {
    if order == [] || Less(zs, a, order[0]) then [a] + order else [order[0]] + InsertIndex(zs, order[1..], a)
  }

  /** The first `n` indices, sorted. */
  function OrderUpTo(zs: seq<int>, n: nat): (r: seq<nat>)
    requires n <= |zs|
    ensures |r| == n && forall k :: 0 <= k < n ==> r[k] < |zs|
  {
    if n == 0 then [] else InsertIndex(zs, OrderUpTo(zs, n - 1), n - 1)
  }

  function Order(zs: seq<int>): (r: seq<nat>)
    ensures |r| == |zs| && forall k :: 0 <= k < |r| ==> r[k] < |zs|
  {
    OrderUpTo(zs, |zs|)
  }

  ghost predicate Ascending(zs: seq<int>, p: seq<nat>) {
    (forall k :: 0 <= k < |p| ==> p[k] < |zs|) && forall i, j :: 0 <= i < j < |p| ==> Less(zs, p[i], p[j])
  }

  lemma {:induction false} InsertMembers(zs: seq<int>, order: seq<nat>, a: nat, b: nat)
    requires a < |zs| && forall k :: 0 <= k < |order| ==> order[k] < |zs|
    ensures b in InsertIndex(zs, order, a) <==> b == a || b in order
  {
    if order == [] {
    } else {
      InsertMembers(zs, order[1..], a, b);
      assert order == [order[0]] + order[1..];
    }
  }

  lemma {:induction false} InsertAscending(zs: seq<int>, order: seq<nat>, a: nat)
    requires a < |zs| && Ascending(zs, order) && a !in order
    ensures Ascending(zs, InsertIndex(zs, order, a))
  {
    if order == [] {
    } else {
      var rest := order[1..];
      assert order == [order[0]] + rest;
      if Less(zs, a, order[0]) {
        assert InsertIndex(zs, order, a) == [a] + order;
        assert forall j :: 0 <= j < |order| ==> Less(zs, a, order[j]);
      } else {
        InsertAscending(zs, rest, a);
        forall b | b in InsertIndex(zs, rest, a) ensures b < |zs| && Less(zs, order[0], b) {
          InsertMembers(zs, rest, a, b);
          if b != a {
            var k :| 0 <= k < |rest| && rest[k] == b;
            assert Less(zs, order[0], order[k + 1]);
          }
        }
        AscendingCons(zs, order[0], InsertIndex(zs, rest, a));
      }
    }
  }

  lemma AscendingCons(zs: seq<int>, a: nat, order: seq<nat>)
    requires a < |zs| && Ascending(zs, order) && forall b :: b in order ==> b < |zs| && Less(zs, a, b)
    ensures Ascending(zs, [a] + order)
  {
    assert forall j :: 0 <= j < |order| ==> order[j] in order;
  }

  lemma {:induction false} OrderUpToSorts(zs: seq<int>, n: nat)
    requires n <= |zs|
    ensures Ascending(zs, OrderUpTo(zs, n)) && forall a :: a in OrderUpTo(zs, n) <==> 0 <= a < n
  {
    if n == 0 {
    } else {
      OrderUpToSorts(zs, n - 1);
      InsertAscending(zs, OrderUpTo(zs, n - 1), n - 1);
      forall a ensures a in OrderUpTo(zs, n) <==> 0 <= a < n {
        if a >= 0 {
          InsertMembers(zs, OrderUpTo(zs, n - 1), n - 1, a);
        }
      }
    }
  }

  lemma {:induction false} AscendingUnique(zs: seq<int>, p: seq<nat>, q: seq<nat>)
    requires Ascending(zs, p) && Ascending(zs, q) && forall a :: a in p <==> a in q
    ensures p == q
  {
    assert (p != [] ==> p[0] in p) && (q != [] ==> q[0] in q);
    if p == [] || q == [] {
    } else {
      var i :| 0 <= i < |q| && q[i] == p[0];
      var j :| 0 <= j < |p| && p[j] == q[0];
      assert p[0] == q[0];
      forall a ensures a in p[1..] <==> a in q[1..] {
        AscendingTail(zs, p, a);
        AscendingTail(zs, q, a);
      }
      AscendingUnique(zs, p[1..], q[1..]);
      assert p == [p[0]] + p[1..] && q == [q[0]] + q[1..];
    }
  }

  lemma AscendingTail(zs: seq<int>, p: seq<nat>, a: int)
    requires Ascending(zs, p) && p != []
    ensures a in p[1..] <==> a in p && a != p[0]
  {
    assert p == [p[0]] + p[1..];
    if a in p[1..] {
      var k :| 0 <= k < |p[1..]| && p[1..][k] == a;
      assert Less(zs, p[0], p[k + 1]);
    }
  }

  /** The order is the only ascending list of all the indices. */
  lemma OrderIs(zs: seq<int>, p: seq<nat>)
    requires Ascending(zs, p) && forall a :: a in p <==> 0 <= a < |zs|
    ensures Order(zs) == p
  {
    OrderUpToSorts(zs, |zs|);
    AscendingUnique(zs, Order(zs), p);
  }

  lemma OrderedPlaces(zs: seq<int>, i: nat, j: nat)
    requires i < |zs| && j < |zs|
    ensures Less(zs, Order(zs)[i], Order(zs)[j]) <==> i < j
  {
    OrderUpToSorts(zs, |zs|);
    var p := Order(zs);
    if i < j {
      assert Less(zs, p[i], p[j]);
    } else if j < i {
      assert Less(zs, p[j], p[i]);
    }
  }

  // ----- swapping two neighbours' values -----

  /** Exchanging the values of the neighbours `p[k]` and `p[k+1]`, which differ, exchanges their
      places and nothing else just when the upper one comes last, by position, among the layers
      of the lower value, and the lower one first among those of the upper value. */
  ghost predicate CleanSwap(zs: seq<int>, a: nat, b: nat)
    requires a < |zs| && b < |zs|
  {
    && (forall c :: 0 <= c < |zs| && c != a && c != b && zs[c] == zs[a] ==> c < b)
    && (forall c :: 0 <= c < |zs| && c != a && c != b && zs[c] == zs[b] ==> a < c)
  }

  function SwapValues(zs: seq<int>, a: nat, b: nat): (r: seq<int>)
    requires a < |zs| && b < |zs|
    ensures |r| == |zs|
  {
    zs[a := zs[b]][b := zs[a]]
  }

  function SwapPlaces<T>(p: seq<T>, k: nat): (r: seq<T>)
    requires k + 1 < |p|
    ensures |r| == |p|
  {
    p[k := p[k + 1]][k + 1 := p[k]]
  }

  lemma SwapMembers(p: seq<nat>, k: nat)
    requires k + 1 < |p|
    ensures forall a :: a in SwapPlaces(p, k) <==> a in p
  {
    var q := SwapPlaces(p, k);
    assert q[k] == p[k + 1] && q[k + 1] == p[k];
    forall a ensures a in q <==> a in p {
      if a in p {
        var i :| 0 <= i < |p| && p[i] == a;
        assert q[if i == k then k + 1 else if i == k + 1 then k else i] == a;
      }
      if a in q {
        var i :| 0 <= i < |q| && q[i] == a;
        assert p[if i == k then k + 1 else if i == k + 1 then k else i] == a;
      }
    }
  }

  lemma SwapIsClean(zs: seq<int>, k: nat)
    requires k + 1 < |zs|
    requires var p := Order(zs); zs[p[k]] < zs[p[k + 1]] && CleanSwap(zs, p[k], p[k + 1])
    ensures var p := Order(zs); Order(SwapValues(zs, p[k], p[k + 1])) == SwapPlaces(p, k)
  {
    var p := Order(zs);
    OrderUpToSorts(zs, |zs|);
    var a, b := p[k], p[k + 1];
    var ws, q := SwapValues(zs, a, b), SwapPlaces(p, k);
    SwapMembers(p, k);
    forall i, j | 0 <= i < j < |q| ensures Less(ws, q[i], q[j]) {
      assert i != k && i != k + 1 ==> q[i] == p[i] && p[i] != a && p[i] != b;
      assert j != k && j != k + 1 ==> q[j] == p[j] && p[j] != a && p[j] != b;
      if i < k {
        assert Less(zs, p[i], a);
      }
      if j > k + 1 {
        assert Less(zs, b, p[j]);
      }
      if i != k && i != k + 1 && j != k && j != k + 1 {
        assert Less(zs, p[i], p[j]);
      }
    }
    OrderIs(ws, q);
  }

  lemma OnlyCleanSwaps(zs: seq<int>, k: nat)
    requires k + 1 < |zs|
    requires var p := Order(zs); zs[p[k]] < zs[p[k + 1]] && Order(SwapValues(zs, p[k], p[k + 1])) == SwapPlaces(p, k)
    ensures var p := Order(zs); CleanSwap(zs, p[k], p[k + 1])
  {
    var p := Order(zs);
    OrderUpToSorts(zs, |zs|);
    var a, b := p[k], p[k + 1];
    var ws, q := SwapValues(zs, a, b), SwapPlaces(p, k);
    OrderUpToSorts(ws, |ws|);
    forall c | 0 <= c < |zs| && c != a && c != b && (zs[c] == zs[a] || zs[c] == zs[b])
      ensures (zs[c] == zs[a] ==> c < b) && (zs[c] == zs[b] ==> a < c)
    {
      assert c in p;
      var i :| 0 <= i < |p| && p[i] == c;
      assert i != k && i != k + 1 && q[i] == c;
      if i < k {
        assert Less(zs, p[i], p[k]) && Less(ws, q[i], q[k]);
      } else {
        assert Less(zs, p[k + 1], p[i]) && Less(ws, q[k + 1], q[i]);
      }
    }
  }

  // ----- the paint order -----

  function Z(l: Layer): int {
    match l.z case None => 0 case Some(z) => z
  }

  function Zs(layers: seq<Layer>): (r: seq<int>)
    ensures |r| == |layers| && forall i :: 0 <= i < |r| ==> r[i] == Z(layers[i])
  {
    seq(|layers|, i requires 0 <= i < |layers| => Z(layers[i]))
  }

  function Ids(layers: seq<Layer>): (r: seq<string>)
    ensures |r| == |layers| && forall i :: 0 <= i < |r| ==> r[i] == layers[i].id
  {
    seq(|layers|, i requires 0 <= i < |layers| => layers[i].id)
  }

  /** Back first, front last. */
  function PaintOrder(layers: seq<Layer>): (r: seq<Layer>)
    ensures |r| == |layers| && forall k :: 0 <= k < |r| ==> r[k] == layers[Order(Zs(layers))[k]]
  {
    var p := Order(Zs(layers));
    seq(|layers|, k requires 0 <= k < |layers| => layers[p[k]])
  }

  /** Documents whose layers share an id are refused (validate.ts:121). */
  ghost predicate DistinctIds(layers: seq<Layer>) {
    forall i, j :: 0 <= i < j < |layers| ==> layers[i].id != layers[j].id
  }

  /** `x` is painted before `y`. */
  ghost predicate Under(layers: seq<Layer>, x: string, y: string) {
    var order := PaintOrder(layers);
    exists i, j :: 0 <= i < j < |order| && order[i].id == x && order[j].id == y
  }

  lemma OrderOfLayers(layers: seq<Layer>)
    ensures var p := Order(Zs(layers)); Ascending(Zs(layers), p) && forall a :: a in p <==> 0 <= a < |layers|
  {
    OrderUpToSorts(Zs(layers), |layers|);
  }

  lemma PaintedIdsDistinct(layers: seq<Layer>)
    requires DistinctIds(layers)
    ensures DistinctIds(PaintOrder(layers))
  {
    OrderOfLayers(layers);
    var p := Order(Zs(layers));
    forall i, j | 0 <= i < j < |p| ensures layers[p[i]].id != layers[p[j]].id {
      assert Less(Zs(layers), p[i], p[j]);
    }
  }

  /** The paint order of two layers is the order of their `z`, ties by their places in the document. */
  lemma UnderIsLess(layers: seq<Layer>, a: nat, b: nat)
    requires DistinctIds(layers) && a < |layers| && b < |layers|
    ensures Under(layers, layers[a].id, layers[b].id) <==> Less(Zs(layers), a, b)
  {
    hide Less, Order, Zs, PaintOrder, DistinctIds;
    var zs, p, order := Zs(layers), Order(Zs(layers)), PaintOrder(layers);
    var i, j := PlaceOf(layers, a), PlaceOf(layers, b);
    OrderedPlaces(zs, i, j);
    if Under(layers, layers[a].id, layers[b].id) {
      var i', j' :| 0 <= i' < j' < |order| && order[i'].id == layers[a].id && order[j'].id == layers[b].id;
      OnlyPlace(layers, i, i');
      OnlyPlace(layers, j, j');
    }
    assert order[i].id == layers[a].id && order[j].id == layers[b].id;
  }

  /** What is painted under what, in the document's own terms: the smaller `z` first, a layer without one
      counting as 0, and the earlier of two in the document when they are equal. */
  lemma PaintedByZ(layers: seq<Layer>, a: nat, b: nat)
    requires DistinctIds(layers) && a < |layers| && b < |layers|
    ensures var y := if layers[a].z == None then 0 else layers[a].z.value;
      var z := if layers[b].z == None then 0 else layers[b].z.value;
      Under(layers, layers[a].id, layers[b].id) <==> y < z || (y == z && a < b)
  {
    hide Order, PaintOrder, DistinctIds, Under;
    UnderIsLess(layers, a, b);
  }

  ghost function PlaceOf(layers: seq<Layer>, a: nat): (i: nat)
    requires a < |layers|
    ensures i < |layers| && Order(Zs(layers))[i] == a
  {
    OrderOfLayers(layers);
    assert a in Order(Zs(layers));
    var i :| 0 <= i < |layers| && Order(Zs(layers))[i] == a;
    i
  }

  lemma OnlyPlace(layers: seq<Layer>, i: nat, j: nat)
    requires DistinctIds(layers) && i < |layers| && j < |layers| && PaintOrder(layers)[i].id == PaintOrder(layers)[j].id
    ensures i == j
  {
    PaintedIdsDistinct(layers);
  }

  lemma SameIdsSameUnder(layers: seq<Layer>, others: seq<Layer>, x: string, y: string)
    requires Ids(PaintOrder(layers)) == Ids(PaintOrder(others)) && Under(layers, x, y)
    ensures Under(others, x, y)
  {
    hide Order, Zs, PaintOrder;
    var i, j :| 0 <= i < j < |PaintOrder(layers)| && PaintOrder(layers)[i].id == x && PaintOrder(layers)[j].id == y;
    assert Ids(PaintOrder(layers))[i] == PaintOrder(others)[i].id && Ids(PaintOrder(layers))[j] == PaintOrder(others)[j].id;
  }

  // ----- reordering -----

  /** The first place of a layer with this id. */
  function Find(layers: seq<Layer>, id: string): (r: Option<nat>)
    ensures r.Some? ==> r.value < |layers| && layers[r.value].id == id
    ensures r.None? <==> forall i :: 0 <= i < |layers| ==> layers[i].id != id
  {
    if layers == [] then None
    else if layers[0].id == id then Some(0)
    else match Find(layers[1..], id) case None => None case Some(i) => Some(i + 1)
  }

  /** `withLayer`: every layer of this id takes the new `z`. */
  function WithZ(layers: seq<Layer>, id: string, z: int): (r: seq<Layer>)
    ensures |r| == |layers|
    ensures forall i :: 0 <= i < |r| ==> r[i] == if layers[i].id == id then layers[i].(z := Some(z)) else layers[i]
  {
    seq(|layers|, i requires 0 <= i < |layers| => if layers[i].id == id then layers[i].(z := Some(z)) else layers[i])
  }

  function Without(layers: seq<Layer>, id: string): seq<Layer> {
    if layers == [] then [] else (if layers[0].id == id then [] else [layers[0]]) + Without(layers[1..], id)
  }

  lemma {:induction false} WithoutMembers(layers: seq<Layer>, id: string, l: Layer)
    ensures l in Without(layers, id) <==> l in layers && l.id != id
  {
    if layers == [] {
    } else {
      assert layers == [layers[0]] + layers[1..];
      WithoutMembers(layers[1..], id, l);
    }
  }

  function Greatest(s: seq<int>): (r: int)
    requires s != []
    ensures r in s && forall x :: x in s ==> x <= r
  {
    if |s| == 1 then s[0] else
      assert s == [s[0]] + s[1..];
      var m := Greatest(s[1..]); if s[0] > m then s[0] else m
  }

  function Least(s: seq<int>): (r: int)
    requires s != []
    ensures r in s && forall x :: x in s ==> r <= x
  {
    if |s| == 1 then s[0] else
      assert s == [s[0]] + s[1..];
      var m := Least(s[1..]); if s[0] < m then s[0] else m
  }

  /** One past the others; there always are others, since the ids are distinct (`MovedZ`). */
  function Beyond(others: seq<int>, front: bool): int {
    if others == [] then 0 else if front then Greatest(others) + 1 else Least(others) - 1
  }

  /** The layers of id `x` take `zx`, those of id `y` take `zy`. */
  function WithBothZ(layers: seq<Layer>, x: string, zx: int, y: string, zy: int): (r: seq<Layer>)
    ensures |r| == |layers|
    ensures forall i :: 0 <= i < |r| ==>
      (r[i] == if layers[i].id == x then layers[i].(z := Some(zx))
               else if layers[i].id == y then layers[i].(z := Some(zy)) else layers[i])
  {
    seq(|layers|, i requires 0 <= i < |layers| =>
      if layers[i].id == x then layers[i].(z := Some(zx))
      else if layers[i].id == y then layers[i].(z := Some(zy)) else layers[i])
  }

  /** Two neighbours trade: their `z` when it differs, their places in the document when it does not. */
  function Traded(layers: seq<Layer>, a: Layer, b: Layer): (r: seq<Layer>)
    requires a in layers && b in layers
    ensures |r| == |layers|
  {
    if Z(a) != Z(b) then WithBothZ(layers, a.id, Z(b), b.id, Z(a))
    else
      var i, j := Find(layers, a.id).value, Find(layers, b.id).value;
      layers[i := b][j := a]
  }

  function Reordered(layers: seq<Layer>, id: string, move: Move): (r: seq<Layer>)
    requires DistinctIds(layers)
  {
    var order := PaintOrder(layers);
    match Find(order, id)
    case None => layers
    case Some(at) =>
      match move
      case Front => if at == |order| - 1 then layers else WithZ(layers, id, Beyond(Zs(Without(order, id)), true))
      case Back => if at == 0 then layers else WithZ(layers, id, Beyond(Zs(Without(order, id)), false))
      case Forward => if at + 1 == |order| then layers else Traded(layers, order[at], order[at + 1])
      case Backward => if at == 0 then layers else Traded(layers, order[at], order[at - 1])
  }

  lemma Present(layers: seq<Layer>, l: Layer)
    requires l in layers
    ensures Find(layers, l.id).Some?
  {
    var i :| 0 <= i < |layers| && layers[i] == l;
    assert layers[i].id == l.id;
  }

  method ReorderLayer(doc: seq<Layer>, id: string, move: Move) returns (r: seq<Layer>)
    requires DistinctIds(doc)
    ensures r == Reordered(doc, id, move)
  {
    hide Order, Zs, WithZ, WithBothZ, PaintOrder, Find, Without, Greatest, Least, DistinctIds;
    var order := PaintOrder(doc);
    var found := Find(order, id);
    if found.None? {
      return doc;
    }
    var at: int := found.value;
    var layer, z := order[at], Z(order[at]);
    if move == Front || move == Back {
      if (move == Front && at == |order| - 1) || (move == Back && at == 0) {
        return doc;
      }
      var others := Without(order, id);
      return WithZ(doc, id, Beyond(Zs(others), move == Front));
    }
    var neighbourAt := if move == Forward then at + 1 else at - 1;
    if neighbourAt < 0 || neighbourAt >= |order| {
      return doc;
    }
    var neighbour := order[neighbourAt];
    assert layer in doc && neighbour in doc;
    var nz := Z(neighbour);
    if nz != z {
      return WithBothZ(doc, id, nz, neighbour.id, z);
    }
    Present(doc, layer);
    Present(doc, neighbour);
    var i, j := Find(doc, id).value, Find(doc, neighbour.id).value;
    var layers := doc;
    layers := layers[i := neighbour];
    layers := layers[j := layer];
    return layers;
  }

  // ----- what a reordering does -----

  lemma FindAt(layers: seq<Layer>, k: nat)
    requires DistinctIds(layers) && k < |layers|
    ensures Find(layers, layers[k].id) == Some(k)
  {
    var f := Find(layers, layers[k].id);
    assert f.Some?;
    assert f.value == k;
  }

  /** Trading the places `k` and `k+1` of the paint order, whose indices are `a` and `b`. */
  lemma TradeAt(layers: seq<Layer>, k: nat)
    requires DistinctIds(layers) && k + 1 < |layers|
    ensures var order, p := PaintOrder(layers), Order(Zs(layers));
      var a, b := p[k], p[k + 1];
      var r := Traded(layers, order[k], order[k + 1]);
      && a != b && r == Traded(layers, order[k + 1], order[k])
      && (Z(layers[a]) == Z(layers[b]) ==> r == layers[a := layers[b]][b := layers[a]])
      && (Z(layers[a]) != Z(layers[b]) ==>
            && Ids(r) == Ids(layers) && Zs(r) == SwapValues(Zs(layers), a, b) && Z(layers[a]) < Z(layers[b])
            && Less(Zs(layers), a, b) && Less(Zs(r), b, a))
  {
    hide Order, PaintOrder, Find, DistinctIds, Ids, SwapValues, WithBothZ;
    var order, p := PaintOrder(layers), Order(Zs(layers));
    var a, b := p[k], p[k + 1];
    OrderedPlaces(Zs(layers), k, k + 1);
    FindAt(layers, a);
    FindAt(layers, b);
    IdsApart(layers, a, b);
    if Z(layers[a]) != Z(layers[b]) {
      TradedNumbers(layers, a, b);
      TradedNumbers(layers, b, a);
    }
  }

  lemma IdsApart(layers: seq<Layer>, a: nat, b: nat)
    requires DistinctIds(layers) && a < |layers| && b < |layers|
    ensures layers[a].id == layers[b].id <==> a == b
  {
  }

  lemma TradedNumbers(layers: seq<Layer>, a: nat, b: nat)
    requires DistinctIds(layers) && a < |layers| && b < |layers| && a != b
    ensures var r := WithBothZ(layers, layers[a].id, Z(layers[b]), layers[b].id, Z(layers[a]));
      && Ids(r) == Ids(layers) && Zs(r) == SwapValues(Zs(layers), a, b)
      && r == WithBothZ(layers, layers[b].id, Z(layers[a]), layers[a].id, Z(layers[b]))
  {
    hide Ids, Zs, WithBothZ, DistinctIds;
    forall i | 0 <= i < |layers| ensures (layers[i].id == layers[a].id <==> i == a) && (layers[i].id == layers[b].id <==> i == b) {
      IdsApart(layers, i, a);
      IdsApart(layers, i, b);
    }
  }

  lemma TradedZsOneStep(layers: seq<Layer>, r: seq<Layer>, k: nat)
    requires DistinctIds(layers) && k + 1 < |layers| && Ids(r) == Ids(layers)
    requires var p := Order(Zs(layers)); Zs(r) == SwapValues(Zs(layers), p[k], p[k + 1])
    requires Z(PaintOrder(layers)[k]) < Z(PaintOrder(layers)[k + 1])
    ensures Ids(PaintOrder(r)) == SwapPlaces(Ids(PaintOrder(layers)), k)
      <==> CleanSwap(Zs(layers), Order(Zs(layers))[k], Order(Zs(layers))[k + 1])
  {
    var order, p, zs, q := PaintOrder(layers), Order(Zs(layers)), Zs(layers), Order(Zs(r));
    if CleanSwap(zs, p[k], p[k + 1]) {
      SwapIsClean(zs, k);
      forall i | 0 <= i < |q| ensures Ids(PaintOrder(r))[i] == SwapPlaces(Ids(order), k)[i] {
        assert Ids(PaintOrder(r))[i] == Ids(r)[q[i]] == Ids(layers)[q[i]];
      }
    }
    if Ids(PaintOrder(r)) == SwapPlaces(Ids(order), k) {
      forall i | 0 <= i < |q| ensures q[i] == SwapPlaces(p, k)[i] {
        assert Ids(PaintOrder(r))[i] == Ids(r)[q[i]] == Ids(layers)[q[i]];
        assert SwapPlaces(Ids(order), k)[i] == layers[SwapPlaces(p, k)[i]].id;
      }
      OnlyCleanSwaps(zs, k);
    }
  }

  /** Forward and backward are one exchange of neighbours in the paint order, always when the two
      have equal `z`, and otherwise just when no third layer's tie is decided between them. */
  /** Two layers of one `z` that change places are painted in each other's turn. */
  lemma EqualTradeIsOneStep(layers: seq<Layer>, k: nat)
    requires DistinctIds(layers) && k + 1 < |layers|
    requires Z(PaintOrder(layers)[k]) == Z(PaintOrder(layers)[k + 1])
    ensures var p := Order(Zs(layers));
      var r := layers[p[k] := layers[p[k + 1]]][p[k + 1] := layers[p[k]]];
      DistinctIds(r) && Ids(PaintOrder(r)) == SwapPlaces(Ids(PaintOrder(layers)), k)
  {
    var p := Order(Zs(layers));
    OrderOfLayers(layers);
    OrderedPlaces(Zs(layers), k, k + 1);
    var r := layers[p[k] := layers[p[k + 1]]][p[k + 1] := layers[p[k]]];
    assert Zs(r) == Zs(layers);
    forall i | 0 <= i < |layers| ensures Ids(PaintOrder(r))[i] == SwapPlaces(Ids(PaintOrder(layers)), k)[i] {
      OrderedPlaces(Zs(layers), i, k);
      OrderedPlaces(Zs(layers), i, k + 1);
    }
  }

  lemma IdsDecideDistinct(layers: seq<Layer>, r: seq<Layer>)
    requires DistinctIds(layers) && Ids(r) == Ids(layers)
    ensures DistinctIds(r)
  {
    assert forall i :: 0 <= i < |r| ==> r[i].id == Ids(r)[i] == layers[i].id;
  }

  /** All that a step writes: with equal `z` the two layers change places in the document, and otherwise each
      takes the other's number where it is. */
  lemma StepWrites(layers: seq<Layer>, k: nat)
    requires DistinctIds(layers) && k + 1 < |layers|
    ensures var order, p := PaintOrder(layers), Order(Zs(layers));
      var a, b, r := p[k], p[k + 1], Reordered(layers, order[k].id, Forward);
      r == if Z(layers[a]) == Z(layers[b]) then layers[a := layers[b]][b := layers[a]]
           else layers[a := layers[a].(z := Some(Z(layers[b])))][b := layers[b].(z := Some(Z(layers[a])))]
  {
    PaintedIdsDistinct(layers);
    FindAt(PaintOrder(layers), k);
    TradeAt(layers, k);
    var order, p := PaintOrder(layers), Order(Zs(layers));
    var a, b, r := p[k], p[k + 1], Reordered(layers, order[k].id, Forward);
    hide Order, Reordered, SwapValues;
    if Z(layers[a]) != Z(layers[b]) {
      hide PaintOrder, Zs, Ids;
      forall i | 0 <= i < |layers| ensures (layers[i].id == layers[a].id <==> i == a) && (layers[i].id == layers[b].id <==> i == b) {
        IdsApart(layers, i, a);
        IdsApart(layers, i, b);
      }
      assert r == WithBothZ(layers, layers[a].id, Z(layers[b]), layers[b].id, Z(layers[a]));
    }
  }

  lemma TradeIsOneStep(layers: seq<Layer>, k: nat)
    requires DistinctIds(layers) && k + 1 < |layers|
    ensures var order, p := PaintOrder(layers), Order(Zs(layers));
      var r := Traded(layers, order[k], order[k + 1]);
      && DistinctIds(r)
      && (Ids(PaintOrder(r)) == SwapPlaces(Ids(order), k)
          <==> Z(order[k]) == Z(order[k + 1]) || CleanSwap(Zs(layers), p[k], p[k + 1]))
  {
    hide Order, PaintOrder, Ids, Zs, Traded, DistinctIds, CleanSwap, SwapPlaces, SwapValues;
    TradeAt(layers, k);
    var order := PaintOrder(layers);
    var r := Traded(layers, order[k], order[k + 1]);
    if Z(order[k]) == Z(order[k + 1]) {
      EqualTradeIsOneStep(layers, k);
    } else {
      IdsDecideDistinct(layers, r);
      TradedZsOneStep(layers, r, k);
    }
  }

  /** The layers with their numbering taken away. */
  ghost function Looks(layers: seq<Layer>): set<Layer> {
    set l | l in layers :: l.(z := None)
  }

  lemma LooksKept(layers: seq<Layer>, r: seq<Layer>)
    requires |r| == |layers| && forall i :: 0 <= i < |r| ==> r[i].(z := None) == layers[i].(z := None)
    ensures Looks(r) == Looks(layers) && (DistinctIds(layers) ==> DistinctIds(r))
  {
    assert forall i :: 0 <= i < |r| ==> r[i].id == r[i].(z := None).id == layers[i].id;
    forall l | l in layers ensures l.(z := None) in Looks(r) {
      var i :| 0 <= i < |layers| && layers[i] == l;
      assert r[i] in r;
    }
    forall l | l in r ensures l.(z := None) in Looks(layers) {
      var i :| 0 <= i < |r| && r[i] == l;
      assert layers[i] in layers;
    }
  }

  lemma SwapKeepsLooks(layers: seq<Layer>, a: nat, b: nat)
    requires a < |layers| && b < |layers|
    ensures Looks(layers[a := layers[b]][b := layers[a]]) == Looks(layers)
  {
    var r := layers[a := layers[b]][b := layers[a]];
    forall l ensures l in r <==> l in layers {
      if l in layers {
        var i :| 0 <= i < |layers| && layers[i] == l;
        assert r[if i == a then b else if i == b then a else i] == l;
      }
      if l in r {
        var i :| 0 <= i < |r| && r[i] == l;
        assert layers[if i == a then b else if i == b then a else i] == l;
      }
    }
  }

  lemma TradeKeepsLayers(layers: seq<Layer>, k: nat)
    requires DistinctIds(layers) && k + 1 < |layers|
    ensures var order := PaintOrder(layers);
      var r := Traded(layers, order[k], order[k + 1]);
      |r| == |layers| && DistinctIds(r) && Looks(r) == Looks(layers)
  {
    var order, p := PaintOrder(layers), Order(Zs(layers));
    TradeAt(layers, k);
    TradeIsOneStep(layers, k);
    if Z(order[k]) == Z(order[k + 1]) {
      SwapKeepsLooks(layers, p[k], p[k + 1]);
    } else {
      LooksKept(layers, Traded(layers, order[k], order[k + 1]));
    }
  }

  /** Whatever the move: the same layers under the same ids, only `z` may differ. */
  lemma SameLayers(layers: seq<Layer>, id: string, move: Move)
    requires DistinctIds(layers)
    ensures var r := Reordered(layers, id, move);
      |r| == |layers| && DistinctIds(r) && Looks(r) == Looks(layers)
  {
    hide Looks, Zs, Order, Without, WithZ, Beyond, Find, Traded, DistinctIds, PaintOrder;
    var order, r := PaintOrder(layers), Reordered(layers, id, move);
    var found := Find(order, id);
    if found.Some? {
      var at: int := found.value;
      if move == Front || move == Back {
        LooksKept(layers, r);
      } else if move == Forward {
        if at + 1 < |order| {
          TradeKeepsLayers(layers, at);
        }
      } else if at > 0 {
        TradeAt(layers, at - 1);
        TradeKeepsLayers(layers, at - 1);
      }
    }
  }

  function Dropped<T>(s: seq<T>, k: nat): (r: seq<T>)
    requires k < |s|
    ensures |r| == |s| - 1 && forall i :: 0 <= i < |r| ==> r[i] == s[if i < k then i else i + 1]
  {
    s[..k] + s[k + 1..]
  }

  /** The order `p` with its place `k` moved to the end (or the start). */
  function MovedToEnd<T>(p: seq<T>, k: nat, last: bool): (r: seq<T>)
    requires k < |p|
    ensures |r| == |p|
  {
    if last then Dropped(p, k) + [p[k]] else [p[k]] + Dropped(p, k)
  }

  lemma MovedMembers(p: seq<nat>, k: nat, last: bool, a: int)
    requires k < |p|
    ensures a in MovedToEnd(p, k, last) <==> a in p
  {
    assert p == p[..k] + [p[k]] + p[k + 1..];
  }

  lemma ExtremeAscends(zs: seq<int>, p: seq<nat>, k: nat, z: int, last: bool)
    requires Ascending(zs, p) && k < |p|
    requires forall j :: 0 <= j < |p| && j != k ==> if last then zs[p[j]] < z else z < zs[p[j]]
    ensures Ascending(zs[p[k] := z], MovedToEnd(p, k, last))
  {
    var ws, q, d := zs[p[k] := z], MovedToEnd(p, k, last), Dropped(p, k);
    forall j | 0 <= j < |p| && j != k ensures p[j] != p[k] && ws[p[j]] == zs[p[j]] {
      assert Less(zs, p[if j < k then j else k], p[if j < k then k else j]);
    }
    forall i, j | 0 <= i < j < |d| ensures Less(ws, d[i], d[j]) {
      var i', j' := if i < k then i else i + 1, if j < k then j else j + 1;
      assert d[i] == p[i'] && d[j] == p[j'] && Less(zs, p[i'], p[j']);
    }
    forall i | 0 <= i < |d| ensures if last then Less(ws, d[i], p[k]) else Less(ws, p[k], d[i]) {
      assert d[i] == p[if i < k then i else i + 1];
    }
    if last {
      assert forall i :: 0 <= i < |d| ==> q[i] == d[i];
    } else {
      assert forall i :: 1 <= i < |q| ==> q[i] == d[i - 1];
    }
  }

  lemma NewExtreme(zs: seq<int>, k: nat, z: int, last: bool)
    requires k < |zs|
    requires var p := Order(zs); forall j :: 0 <= j < |p| && j != k ==> if last then zs[p[j]] < z else z < zs[p[j]]
    ensures var p := Order(zs); Order(zs[p[k] := z]) == MovedToEnd(p, k, last)
  {
    OrderUpToSorts(zs, |zs|);
    var p := Order(zs);
    hide Order, Ascending, MovedToEnd, Less;
    ExtremeAscends(zs, p, k, z, last);
    forall a ensures a in MovedToEnd(p, k, last) <==> 0 <= a < |zs| {
      MovedMembers(p, k, last, a);
    }
    OrderIs(zs[p[k] := z], MovedToEnd(p, k, last));
  }

  lemma MovedZ(layers: seq<Layer>, k: nat, move: Move) returns (z: int)
    requires DistinctIds(layers) && k < |layers|
    requires (move == Front && k + 1 < |layers|) || (move == Back && k > 0)
    ensures var order, p := PaintOrder(layers), Order(Zs(layers));
      var r := Reordered(layers, order[k].id, move);
      && Ids(r) == Ids(layers) && Zs(r) == Zs(layers)[p[k] := z]
      && forall j :: 0 <= j < |order| && j != k ==> if move == Front then Zs(layers)[p[j]] < z else z < Zs(layers)[p[j]]
  {
    PaintedIdsDistinct(layers);
    var order, p := PaintOrder(layers), Order(Zs(layers));
    FindAt(order, k);
    var r := Reordered(layers, order[k].id, move);
    z := Zs(r)[p[k]];
    forall j | 0 <= j < |order| && j != k
      ensures if move == Front then Zs(layers)[p[j]] < z else z < Zs(layers)[p[j]]
    {
      var others := Without(order, order[k].id);
      WithoutMembers(order, order[k].id, order[j]);
      var i :| 0 <= i < |others| && others[i] == order[j];
      assert Zs(others)[i] == Z(order[j]) && Zs(others)[i] in Zs(others);
    }
    assert Zs(r) == Zs(layers)[p[k] := z];
  }

  /** A layer that is sent to an end gets the one number past all the others': one more than the greatest, or
      one less than the least. */
  lemma NumberPastTheOthers(layers: seq<Layer>, k: nat, move: Move)
    requires DistinctIds(layers) && k < |layers|
    requires (move == Front && k + 1 < |layers|) || (move == Back && k > 0)
    ensures var order := PaintOrder(layers);
      exists z :: Reordered(layers, order[k].id, move) == WithZ(layers, order[k].id, z)
        && (forall j :: 0 <= j < |order| && j != k ==> if move == Front then Z(order[j]) < z else z < Z(order[j]))
        && (exists j :: 0 <= j < |order| && j != k && Z(order[j]) == if move == Front then z - 1 else z + 1)
  {
    PaintedIdsDistinct(layers);
    var order := PaintOrder(layers);
    FindAt(order, k);
    hide Order, PaintOrder, WithZ, Without, Beyond, Zs, DistinctIds;
    var z := Beyond(Zs(Without(order, order[k].id)), move == Front);
    var j := BeyondOthers(order, k, move == Front);
    assert Reordered(layers, order[k].id, move) == WithZ(layers, order[k].id, z);
  }

  lemma BeyondOthers(order: seq<Layer>, k: nat, front: bool) returns (next: nat)
    requires DistinctIds(order) && k < |order| && |order| > 1
    ensures var z := Beyond(Zs(Without(order, order[k].id)), front);
      && (forall j :: 0 <= j < |order| && j != k ==> if front then Z(order[j]) < z else z < Z(order[j]))
      && next < |order| && next != k && Z(order[next]) == if front then z - 1 else z + 1
  {
    var others := Without(order, order[k].id);
    forall j | 0 <= j < |order| && j != k ensures Z(order[j]) in Zs(others) {
      WithoutMembers(order, order[k].id, order[j]);
      var i :| 0 <= i < |others| && others[i] == order[j];
      assert Zs(others)[i] == Z(order[j]);
    }
    assert Z(order[if k == 0 then 1 else 0]) in Zs(others);
    var extreme := if front then Greatest(Zs(others)) else Least(Zs(others));
    hide Without;
    var i :| 0 <= i < |others| && Z(others[i]) == extreme;
    WithoutMembers(order, order[k].id, others[i]);
    next :| 0 <= next < |order| && order[next] == others[i];
  }

  /** Front and back take the named layer out of the paint order and put it at the end; the others
      keep their order, and every other layer is left exactly as it was. */
  lemma FrontAndBack(layers: seq<Layer>, k: nat, move: Move)
    requires DistinctIds(layers) && (move == Front || move == Back) && k < |layers|
    ensures var order := PaintOrder(layers);
      var r := Reordered(layers, order[k].id, move);
      && (|r| == |layers| && forall i :: 0 <= i < |layers| && layers[i].id != order[k].id ==> r[i] == layers[i])
      && Ids(PaintOrder(r)) == MovedToEnd(Ids(order), k, move == Front)
  {
    hide Order, Less, Zs, Beyond, Without;
    var order := PaintOrder(layers);
    PaintedIdsDistinct(layers);
    FindAt(order, k);
    if (if move == Front then k + 1 < |order| else k > 0) {
      var z := MovedZ(layers, k, move);
      MovedInOrder(layers, Reordered(layers, order[k].id, move), k, z, move == Front);
    }
  }

  lemma MovedInOrder(layers: seq<Layer>, r: seq<Layer>, k: nat, z: int, last: bool)
    requires k < |layers| && Ids(r) == Ids(layers)
    requires var p := Order(Zs(layers));
      && Zs(r) == Zs(layers)[p[k] := z]
      && forall j :: 0 <= j < |p| && j != k ==> if last then Zs(layers)[p[j]] < z else z < Zs(layers)[p[j]]
    ensures Ids(PaintOrder(r)) == MovedToEnd(Ids(PaintOrder(layers)), k, last)
  {
    hide Order, Zs, MovedToEnd, Ids, PaintOrder;
    var order, p, q := PaintOrder(layers), Order(Zs(layers)), Order(Zs(r));
    NewExtreme(Zs(layers), k, z, last);
    var moved := MovedToEnd(Ids(order), k, last);
    forall i | 0 <= i < |q| ensures Ids(PaintOrder(r))[i] == moved[i] {
      MovedFrom(p, k, last, i);
      MovedFrom(Ids(order), k, last, i);
      assert Ids(PaintOrder(r))[i] == Ids(r)[q[i]] == Ids(layers)[q[i]];
    }
  }

  /** Where the place `i` of the moved order came from. */
  function OldPlace(n: nat, k: nat, last: bool, i: nat): (j: nat)
    requires k < n && i < n
    ensures j < n
  {
    if last then (if i == n - 1 then k else if i < k then i else i + 1)
    else if i == 0 then k else if i - 1 < k then i - 1 else i
  }

  lemma MovedFrom<T>(s: seq<T>, k: nat, last: bool, i: nat)
    requires k < |s| && i < |s|
    ensures MovedToEnd(s, k, last)[i] == s[OldPlace(|s|, k, last, i)]
  {
    hide Dropped;
  }

  /** ▲ on a layer and ▼ on the one painted just above it are the same edit: one exchange in the
      paint order, always when the two have equal `z`, and otherwise just when `CleanSwap`. */
  lemma StepIs(layers: seq<Layer>, k: nat)
    requires DistinctIds(layers) && k + 1 < |layers|
    ensures var order, p := PaintOrder(layers), Order(Zs(layers));
      var r := Reordered(layers, order[k].id, Forward);
      && r == Reordered(layers, order[k + 1].id, Backward) == Traded(layers, order[k], order[k + 1])
      && DistinctIds(r)
      && (Ids(PaintOrder(r)) == SwapPlaces(Ids(order), k)
          <==> Z(order[k]) == Z(order[k + 1]) || CleanSwap(Zs(layers), p[k], p[k + 1]))
  {
    hide Order, Zs, Less, CleanSwap, Traded;
    PaintedIdsDistinct(layers);
    FindAt(PaintOrder(layers), k);
    FindAt(PaintOrder(layers), k + 1);
    TradeAt(layers, k);
    TradeIsOneStep(layers, k);
  }

  /** At the end it is already at, or for an id no layer has, nothing changes. */
  lemma NoStep(layers: seq<Layer>, id: string, move: Move)
    requires DistinctIds(layers)
    requires var order := PaintOrder(layers);
      || (forall l :: l in layers ==> l.id != id)
      || ((move == Forward || move == Front) && id == order[|order| - 1].id)
      || ((move == Backward || move == Back) && id == order[0].id)
    ensures Reordered(layers, id, move) == layers
  {
    var order := PaintOrder(layers);
    PaintedIdsDistinct(layers);
    if layers != [] {
      FindAt(order, 0);
      FindAt(order, |order| - 1);
    }
    if Find(order, id).Some? {
      assert layers[Order(Zs(layers))[Find(order, id).value]] in layers;
    }
  }

  /** ▲ followed by ▼ on the same layer paints everything as before just when ▲ was one step (or
      there was nothing else to pass). */
  lemma ForwardThenBackward(layers: seq<Layer>, k: nat)
    requires DistinctIds(layers) && k < |layers|
    ensures var order, p := PaintOrder(layers), Order(Zs(layers));
      var up := Reordered(layers, order[k].id, Forward);
      DistinctIds(up) &&
      (Ids(PaintOrder(Reordered(up, order[k].id, Backward))) == Ids(order)
       <==> |layers| == 1
            || (k + 1 < |layers| && (Z(order[k]) == Z(order[k + 1]) || CleanSwap(Zs(layers), p[k], p[k + 1]))))
  {
    hide Order, Zs, Less, CleanSwap, Traded, Reordered;
    var order, p := PaintOrder(layers), Order(Zs(layers));
    if k + 1 == |layers| {
      NoStep(layers, order[k].id, Forward);
      if k == 0 {
        NoStep(layers, order[k].id, Backward);
      } else {
        DownChanges(layers, k);
      }
    } else {
      StepIs(layers, k);
      var up := Reordered(layers, order[k].id, Forward);
      if Ids(PaintOrder(up)) == SwapPlaces(Ids(order), k) {
        StepUndone(layers, k);
      } else {
        StepNotUndone(layers, k);
      }
    }
  }

  lemma Turned(layers: seq<Layer>, r: seq<Layer>, a: nat, b: nat)
    requires DistinctIds(layers) && DistinctIds(r) && Ids(r) == Ids(layers) && a < |layers| && b < |layers|
    requires Less(Zs(layers), a, b) && Less(Zs(r), b, a)
    ensures Ids(PaintOrder(r)) != Ids(PaintOrder(layers))
  {
    hide Order, Under;
    UnderIsLess(layers, a, b);
    assert r[a].id == Ids(r)[a] == layers[a].id && r[b].id == Ids(r)[b] == layers[b].id;
    UnderIsLess(r, a, b);
    NotSame(layers, r, layers[a].id, layers[b].id);
  }

  /** ▼ on a layer with another one below it always changes the paint order. */
  lemma DownChanges(layers: seq<Layer>, k: nat)
    requires DistinctIds(layers) && 0 < k < |layers|
    ensures var order := PaintOrder(layers);
      Ids(PaintOrder(Reordered(layers, order[k].id, Backward))) != Ids(order)
  {
    hide Order, Reordered, Zs, CleanSwap, Less, Traded, Z, SwapValues;
    var order, p := PaintOrder(layers), Order(Zs(layers));
    StepIs(layers, k - 1);
    TradeAt(layers, k - 1);
    var r := Reordered(layers, order[k].id, Backward);
    PaintedIdsDistinct(layers);
    if Z(order[k - 1]) == Z(order[k]) {
      assert Ids(PaintOrder(r))[k] == Ids(order)[k - 1];
    } else {
      Turned(layers, r, p[k - 1], p[k]);
    }
  }

  lemma StepUndone(layers: seq<Layer>, k: nat)
    requires DistinctIds(layers) && k + 1 < |layers|
    requires var order := PaintOrder(layers);
      Ids(PaintOrder(Reordered(layers, order[k].id, Forward))) == SwapPlaces(Ids(order), k)
    ensures var order := PaintOrder(layers);
      var up := Reordered(layers, order[k].id, Forward);
      DistinctIds(up) && Ids(PaintOrder(Reordered(up, order[k].id, Backward))) == Ids(order)
  {
    hide Order, Reordered, Zs, CleanSwap, Less, Traded, Z, SwapValues;
    var order := PaintOrder(layers);
    var up := Reordered(layers, order[k].id, Forward);
    StepIs(layers, k);
    var above := PaintOrder(up);
    assert above[k].id == Ids(above)[k] == order[k + 1].id && above[k + 1].id == Ids(above)[k + 1] == order[k].id;
    StepIs(up, k);
    TradedBack(layers, k);
  }

  lemma TradedBack(layers: seq<Layer>, k: nat)
    requires DistinctIds(layers) && k + 1 < |layers|
    requires var order := PaintOrder(layers);
      Ids(PaintOrder(Traded(layers, order[k], order[k + 1]))) == SwapPlaces(Ids(order), k)
    ensures var up := Traded(layers, PaintOrder(layers)[k], PaintOrder(layers)[k + 1]);
      Ids(PaintOrder(Traded(up, PaintOrder(up)[k], PaintOrder(up)[k + 1]))) == Ids(PaintOrder(layers))
  {
    hide Order, CleanSwap, Less, Traded;
    var order, p := PaintOrder(layers), Order(Zs(layers));
    var up := Traded(layers, order[k], order[k + 1]);
    var above, q := PaintOrder(up), Order(Zs(up));
    TradeAt(layers, k);
    TradeIsOneStep(layers, k);
    TradeAt(up, k);
    var r := Traded(up, above[k], above[k + 1]);
    if Z(order[k]) == Z(order[k + 1]) {
      assert Zs(up) == Zs(layers);
      assert r == layers;
    } else {
      assert Ids(up)[q[k]] == Ids(above)[k] == layers[p[k + 1]].id;
      assert Ids(up)[q[k + 1]] == Ids(above)[k + 1] == layers[p[k]].id;
      SameNumbersSameOrder(layers, r);
    }
  }

  lemma SameNumbersSameOrder(layers: seq<Layer>, r: seq<Layer>)
    requires Ids(r) == Ids(layers) && Zs(r) == Zs(layers)
    ensures Ids(PaintOrder(r)) == Ids(PaintOrder(layers))
  {
    var q := Order(Zs(r));
    assert forall i :: 0 <= i < |q| ==> Ids(PaintOrder(r))[i] == Ids(r)[q[i]] == Ids(layers)[q[i]];
  }

  /** No third index comes between two neighbours. */
  lemma Neighbours(zs: seq<int>, k: nat, c: nat)
    requires k + 1 < |zs| && c < |zs|
    ensures var p := Order(zs);
      && Less(zs, p[k], p[k + 1])
      && (c == p[k] || c == p[k + 1] || (Less(zs, c, p[k]) && Less(zs, c, p[k + 1]))
          || (Less(zs, p[k], c) && Less(zs, p[k + 1], c)))
  {
    OrderUpToSorts(zs, |zs|);
    var p := Order(zs);
    assert c in p;
    var i :| 0 <= i < |p| && p[i] == c;
    assert i < k ==> Less(zs, p[i], p[k]) && Less(zs, p[i], p[k + 1]);
    assert i > k + 1 ==> Less(zs, p[k], p[i]) && Less(zs, p[k + 1], p[i]);
  }

  /** After the exchange the lower index is somewhere above the upper one, and next to it only
      when the exchange was clean. */
  lemma RaisedAbove(zs: seq<int>, a: nat, b: nat, m: nat)
    requires a < |zs| && b < |zs| && zs[a] < zs[b]
    requires m < |zs| && Order(SwapValues(zs, a, b))[m] == a
    ensures m > 0 && (Order(SwapValues(zs, a, b))[m - 1] == b ==> CleanSwap(zs, a, b))
  {
    var ws := SwapValues(zs, a, b);
    var p := Order(ws);
    OrderUpToSorts(ws, |ws|);
    assert b in p;
    var i :| 0 <= i < |p| && p[i] == b;
    OrderedPlaces(ws, i, m);
    if p[m - 1] == b {
      forall c | 0 <= c < |zs| && c != a && c != b ensures (zs[c] == zs[a] ==> c < b) && (zs[c] == zs[b] ==> a < c) {
        Neighbours(ws, m - 1, c);
      }
    }
  }

  /** Otherwise ▼ meets some third layer below the raised one, and the exchange with it leaves a
      pair the wrong way round. */
  lemma StepNotUndone(layers: seq<Layer>, k: nat)
    requires DistinctIds(layers) && k + 1 < |layers|
    requires var order := PaintOrder(layers);
      Ids(PaintOrder(Reordered(layers, order[k].id, Forward))) != SwapPlaces(Ids(order), k)
    ensures var order := PaintOrder(layers);
      var up := Reordered(layers, order[k].id, Forward);
      DistinctIds(up) && Ids(PaintOrder(Reordered(up, order[k].id, Backward))) != Ids(order)
  {
    hide *;
    var order, p, zs := PaintOrder(layers), Order(Zs(layers)), Zs(layers);
    var a, b := p[k], p[k + 1];
    var up := Reordered(layers, order[k].id, Forward);
    StepIs(layers, k);
    TradeAt(layers, k);
    var q := Order(Zs(up));
    OrderOfLayers(up);
    assert a in q;
    var m :| 0 <= m < |q| && q[m] == a;
    RaisedAbove(zs, a, b, m);
    assert PaintOrder(up)[m].id == Ids(up)[a] == Ids(layers)[a] == order[k].id;
    StepIs(up, m - 1);
    Misplaced(layers, up, k, m - 1);
  }

  lemma Misplaced(layers: seq<Layer>, up: seq<Layer>, k: nat, m: nat)
    requires DistinctIds(layers) && DistinctIds(up) && Ids(up) == Ids(layers) && k + 1 < |layers| && m + 1 < |layers|
    requires var p, q := Order(Zs(layers)), Order(Zs(up));
      && Zs(layers)[p[k]] < Zs(layers)[p[k + 1]] && Zs(up) == SwapValues(Zs(layers), p[k], p[k + 1])
      && q[m + 1] == p[k] && q[m] != p[k + 1]
    ensures Ids(PaintOrder(Traded(up, PaintOrder(up)[m], PaintOrder(up)[m + 1]))) != Ids(PaintOrder(layers))
  {
    hide Order, Traded;
    var zs, ws := Zs(layers), Zs(up);
    var a, b, n := Order(zs)[k], Order(zs)[k + 1], Order(ws)[m];
    var r := Traded(up, PaintOrder(up)[m], PaintOrder(up)[m + 1]);
    TradeAt(up, m);
    TradeIsOneStep(up, m);
    Neighbours(ws, m, b);
    Neighbours(zs, k, n);
    var x, y, z := layers[a].id, layers[b].id, layers[n].id;
    assert up[a].id == Ids(up)[a] == x && up[b].id == Ids(up)[b] == y && up[n].id == Ids(up)[n] == z;
    UnderIsLess(layers, a, b);
    UnderIsLess(layers, n, a);
    if ws[n] == ws[a] {
      assert r[n].id == x && r[b].id == y && Zs(r)[b] < Zs(r)[n];
      UnderIsLess(r, n, b);
      NotSame(layers, r, x, y);
    } else {
      assert r[n].id == Ids(r)[n] == z && r[a].id == Ids(r)[a] == x && Zs(r)[a] < Zs(r)[n];
      UnderIsLess(r, n, a);
      NotSame(layers, r, z, x);
    }
  }

  lemma NotSame(layers: seq<Layer>, others: seq<Layer>, x: string, y: string)
    requires Under(layers, x, y) && !Under(others, x, y)
    ensures Ids(PaintOrder(others)) != Ids(PaintOrder(layers))
  {
    if Ids(PaintOrder(others)) == Ids(PaintOrder(layers)) {
      SameIdsSameUnder(layers, others, x, y);
    }
  }
}
