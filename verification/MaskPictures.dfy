/** The mask patterns as section 7.8.2 of ISO/IEC 18004:2015 draws them, each a small picture that repeats
    in both directions, and the proof that the formulas of packages/designer-runtime/src/qr.ts:270-279
    draw the same. */
module MaskPictures {
  import opened FormatWords
  import opened SymbolPicture

  /** `#` where a module is to be reversed. */
  function MaskPicture(mask: Mask): (rows: seq<string>)
    ensures |rows| == (if mask == 4 then 4 else 6) && forall k :: 0 <= k < |rows| ==> |rows[k]| == 6
  {
    match mask
    case 0 => ["#.#.#.", ".#.#.#", "#.#.#.", ".#.#.#", "#.#.#.", ".#.#.#"]
    case 1 => ["######", "......", "######", "......", "######", "......"]
    case 2 => ["#..#..", "#..#..", "#..#..", "#..#..", "#..#..", "#..#.."]
    case 3 => ["#..#..", "..#..#", ".#..#.", "#..#..", "..#..#", ".#..#."]
    case 4 => ["###...", "###...", "...###", "...###"]
    case 5 => ["######", "#.....", "#..#..", "#.#.#.", "#..#..", "#....."]
    case 6 => ["######", "###...", "##.##.", "#.#.#.", "#.##.#", "#...##"]
    case 7 => ["#.#.#.", "...###", "#...##", ".#.#.#", "###...", ".###.."]
  }

  predicate PictureBit(mask: Mask, x: nat, y: nat) {
    MaskPicture(mask)[y % |MaskPicture(mask)|][x % 6] == '#'
  }

  /** The source's formulas draw those pictures, everywhere. */
  lemma MaskIsPicture(mask: Mask, x: nat, y: nat)
    ensures MaskBit(mask, x, y) == PictureBit(mask, x, y)
  {
    var h := |MaskPicture(mask)|;
    hide MaskBit, MaskPicture;
    if mask == 4 {
      MaskFourRepeats(x, y);
    } else {
      MaskRepeats(mask, x, y);
    }
    MaskCorner(mask, x % 6, y % h);
  }

  lemma MaskFourRepeats(x: nat, y: nat)
    ensures MaskBit(4, x, y) == MaskBit(4, x % 6, y % 4)
  {
    assert x / 3 == 2 * (x / 6) + x % 6 / 3 && y / 2 == 2 * (y / 4) + y % 4 / 2;
  }

  lemma MaskRepeats(mask: Mask, x: nat, y: nat)
    requires mask != 4
    ensures MaskBit(mask, x, y) == MaskBit(mask, x % 6, y % 6)
  {
    SumRepeats(x, y);
    if mask >= 5 {
      ProductRepeats(x, y);
      var t, w := x * y, (x % 6) * (y % 6);
      MaskOfProduct(mask, x, y, t);
      MaskOfProduct(mask, x % 6, y % 6, w);
    }
  }

  /** The masks that depend on the product of the coordinates. */
  predicate ByProduct(mask: Mask, sum: nat, product: nat) {
    if mask == 5 then product % 2 + product % 3 == 0
    else if mask == 6 then (product % 2 + product % 3) % 2 == 0
    else (sum % 2 + product % 3) % 2 == 0
  }

  lemma MaskOfProduct(mask: Mask, x: nat, y: nat, t: nat)
    requires mask >= 5 && t == x * y
    ensures MaskBit(mask, x, y) == ByProduct(mask, x + y, t)
  {
  }

  lemma SumRepeats(x: nat, y: nat)
    ensures (x + y) % 2 == (x % 6 + y % 6) % 2 && (x + y) % 3 == (x % 6 + y % 6) % 3
    ensures x % 6 % 3 == x % 3 && y % 6 % 2 == y % 2
  {
    SixAway(x + y, x % 6 + y % 6, x / 6 + y / 6);
    SixAway(x, x % 6, x / 6);
    SixAway(y, y % 6, y / 6);
  }

  lemma ProductRepeats(x: nat, y: nat)
    ensures (x * y) % 2 == ((x % 6) * (y % 6)) % 2 && (x * y) % 3 == ((x % 6) * (y % 6)) % 3
  {
    var p, q, u, v := x / 6, y / 6, x % 6, y % 6;
    var t, w, m := x * y, u * v, p * (6 * q + v) + q * u;
    assert x == 6 * p + u && y == 6 * q + v;
    SplitProduct(p, q, u, v);
    assert t == 6 * m + w;
    SixAway(t, w, m);
  }

  lemma SixAway(t: int, w: int, m: int)
    requires t == 6 * m + w
    ensures t % 2 == w % 2 && t % 3 == w % 3
  {
    Halves(t, w, 3 * m);
    Thirds(t, w, 2 * m);
  }

  lemma Halves(t: int, w: int, m: int)
    requires t == 2 * m + w
    ensures t % 2 == w % 2
  {}

  lemma Thirds(t: int, w: int, m: int)
    requires t == 3 * m + w
    ensures t % 3 == w % 3
  {}

  lemma SplitProduct(p: nat, q: nat, u: nat, v: nat)
    ensures (6 * p + u) * (6 * q + v) == 6 * (p * (6 * q + v) + q * u) + u * v
  {
  }

  lemma MaskCorner(mask: Mask, x: nat, y: nat)
    requires x < 6 && y < |MaskPicture(mask)|
    ensures MaskBit(mask, x, y) <==> MaskPicture(mask)[y][x] == '#'
  {
    match mask {
      case 0 => Corner0(x, y);
      case 1 => Corner1(x, y);
      case 2 => Corner2(x, y);
      case 3 => Corner3(x, y);
      case 4 => Corner4(x, y);
      case 5 => Corner5(x, y);
      case 6 => Corner6(x, y);
      case 7 => Corner7(x, y);
    }
  }

  lemma Corner0(x: nat, y: nat)
    requires x < 6 && y < 6
    ensures MaskBit(0, x, y) <==> MaskPicture(0)[y][x] == '#'
  {
    match y case 0 => case 1 => case 2 => case 3 => case 4 => case 5 =>
  }

  lemma Corner1(x: nat, y: nat)
    requires x < 6 && y < 6
    ensures MaskBit(1, x, y) <==> MaskPicture(1)[y][x] == '#'
  {
    match y case 0 => case 1 => case 2 => case 3 => case 4 => case 5 =>
  }

  lemma Corner2(x: nat, y: nat)
    requires x < 6 && y < 6
    ensures MaskBit(2, x, y) <==> MaskPicture(2)[y][x] == '#'
  {
    match y case 0 => case 1 => case 2 => case 3 => case 4 => case 5 =>
  }

  lemma Corner3(x: nat, y: nat)
    requires x < 6 && y < 6
    ensures MaskBit(3, x, y) <==> MaskPicture(3)[y][x] == '#'
  {
    match y case 0 => case 1 => case 2 => case 3 => case 4 => case 5 =>
  }

  lemma Corner4(x: nat, y: nat)
    requires x < 6 && y < 4
    ensures MaskBit(4, x, y) <==> MaskPicture(4)[y][x] == '#'
  {
    match y case 0 => case 1 => case 2 => case 3 =>
  }

  lemma Corner5(x: nat, y: nat)
    requires x < 6 && y < 6
    ensures MaskBit(5, x, y) <==> MaskPicture(5)[y][x] == '#'
  {
    if y < 3 {
      Corner5Upper(x, y);
    } else {
      Corner5Lower(x, y);
    }
  }

  lemma Corner5Upper(x: nat, y: nat)
    requires x < 6 && y < 3
    ensures MaskBit(5, x, y) <==> MaskPicture(5)[y][x] == '#'
  {
    hide MaskBit;
    match y {
      case 0 => MaskOfProduct(5, x, 0, 0);
      case 1 => MaskOfProduct(5, x, 1, x);
      case 2 => MaskOfProduct(5, x, 2, 2 * x);
    }
  }

  lemma Corner5Lower(x: nat, y: nat)
    requires x < 6 && 3 <= y < 6
    ensures MaskBit(5, x, y) <==> MaskPicture(5)[y][x] == '#'
  {
    hide MaskBit;
    match y {
      case 3 => MaskOfProduct(5, x, 3, 3 * x);
      case 4 => MaskOfProduct(5, x, 4, 4 * x);
      case 5 => MaskOfProduct(5, x, 5, 5 * x);
    }
  }

  lemma Corner6(x: nat, y: nat)
    requires x < 6 && y < 6
    ensures MaskBit(6, x, y) <==> MaskPicture(6)[y][x] == '#'
  {
    if y < 3 {
      Corner6Upper(x, y);
    } else {
      Corner6Lower(x, y);
    }
  }

  lemma Corner6Upper(x: nat, y: nat)
    requires x < 6 && y < 3
    ensures MaskBit(6, x, y) <==> MaskPicture(6)[y][x] == '#'
  {
    hide MaskBit;
    match y {
      case 0 => MaskOfProduct(6, x, 0, 0);
      case 1 => MaskOfProduct(6, x, 1, x);
      case 2 => MaskOfProduct(6, x, 2, 2 * x);
    }
  }

  lemma Corner6Lower(x: nat, y: nat)
    requires x < 6 && 3 <= y < 6
    ensures MaskBit(6, x, y) <==> MaskPicture(6)[y][x] == '#'
  {
    hide MaskBit;
    match y {
      case 3 => MaskOfProduct(6, x, 3, 3 * x);
      case 4 => MaskOfProduct(6, x, 4, 4 * x);
      case 5 => MaskOfProduct(6, x, 5, 5 * x);
    }
  }

  lemma Corner7(x: nat, y: nat)
    requires x < 6 && y < 6
    ensures MaskBit(7, x, y) <==> MaskPicture(7)[y][x] == '#'
  {
    if y < 2 {
      Corner7Upper(x, y);
    } else if y < 4 {
      Corner7Middle(x, y);
    } else {
      Corner7Lower(x, y);
    }
  }

  lemma Corner7Upper(x: nat, y: nat)
    requires x < 6 && y < 2
    ensures MaskBit(7, x, y) <==> MaskPicture(7)[y][x] == '#'
  {
    hide MaskBit;
    match y {
      case 0 => MaskOfProduct(7, x, 0, 0);
        match x { case 0 => case 1 => case 2 => case 3 => case 4 => case 5 => }
      case 1 => MaskOfProduct(7, x, 1, x);
        match x { case 0 => case 1 => case 2 => case 3 => case 4 => case 5 => }
    }
  }

  lemma Corner7Middle(x: nat, y: nat)
    requires x < 6 && 2 <= y < 4
    ensures MaskBit(7, x, y) <==> MaskPicture(7)[y][x] == '#'
  {
    hide MaskBit;
    match y {
      case 2 => MaskOfProduct(7, x, 2, 2 * x);
        match x { case 0 => case 1 => case 2 => case 3 => case 4 => case 5 => }
      case 3 => MaskOfProduct(7, x, 3, 3 * x);
        match x { case 0 => case 1 => case 2 => case 3 => case 4 => case 5 => }
    }
  }

  lemma Corner7Lower(x: nat, y: nat)
    requires x < 6 && 4 <= y < 6
    ensures MaskBit(7, x, y) <==> MaskPicture(7)[y][x] == '#'
  {
    hide MaskBit;
    match y {
      case 4 => MaskOfProduct(7, x, 4, 4 * x);
        match x { case 0 => case 1 => case 2 => case 3 => case 4 => case 5 => }
      case 5 => MaskOfProduct(7, x, 5, 5 * x);
        match x { case 0 => case 1 => case 2 => case 3 => case 4 => case 5 => }
    }
  }
}
