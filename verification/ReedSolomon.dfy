/** The Reed-Solomon code of a QR symbol: the generator polynomial and the shift-register
    division of packages/designer-runtime/src/qr.ts:60-93, and what they are for. */
module ReedSolomon {
  import opened GaloisField
  import opened Lists

  // ----- polynomials over GF(256), highest degree first -----

  function Eval(p: seq<bv8>, x: bv8): bv8 {
    if p == [] then 0 else Add(Mul(Eval(p[..|p| - 1], x), x), p[|p| - 1])
  }

  function Power(x: bv8, n: nat): bv8 {
    if n == 0 then 1 else Mul(Power(x, n - 1), x)
  }

  function Reverse(s: seq<bv8>): (r: seq<bv8>)
    ensures |r| == |s|
  {
    if s == [] then [] else Reverse(s[1..]) + [s[0]]
  }

  lemma {:induction false} EvalConcat(p: seq<bv8>, q: seq<bv8>, x: bv8)
    ensures Eval(p + q, x) == Add(Mul(Eval(p, x), Power(x, |q|)), Eval(q, x))
  {
    hide Add, Mul;
    var e := Eval(p, x);
    if q == [] {
      assert p + q == p;
      MulUnits(e);
      AddLaws(e, 0, 0);
    } else {
      var n := |q| - 1;
      assert (p + q)[..|p + q| - 1] == p + q[..n];
      EvalConcat(p, q[..n], x);
      MulDistributes(Mul(e, Power(x, n)), Eval(q[..n], x), x);
      MulDistributesLeft(Mul(e, Power(x, n)), Eval(q[..n], x), x);
      MulAssociates(e, Power(x, n), x);
      AddLaws(Mul(e, Power(x, n + 1)), Mul(Eval(q[..n], x), x), q[n]);
    }
  }

  lemma MulUnits(a: bv8)
    ensures Mul(a, 1) == a == Mul(1, a)
  {
    hide Mul;
    MulOne(a);
    MulCommutes(a, 1);
  }

  lemma MulDistributesLeft(a: bv8, b: bv8, c: bv8)
    ensures Mul(Add(a, b), c) == Add(Mul(a, c), Mul(b, c))
  {
    hide Add, Mul;
    MulDistributes(a, b, c);
  }

  lemma {:induction false} EvalReverse(p: seq<bv8>, x: bv8)
    ensures Eval(Reverse(p), x) == EvalLow(p, x)
  {
    hide Add, Mul;
    if p == [] {
    } else {
      var r := Reverse(p[1..]);
      assert (r + [p[0]])[..|r|] == r;
      EvalReverse(p[1..], x);
    }
  }

  /** The value of a polynomial listed lowest degree first. */
  function EvalLow(p: seq<bv8>, x: bv8): bv8 {
    if p == [] then 0 else Add(Mul(EvalLow(p[1..], x), x), p[0])
  }

  // ----- the generator -----

  /** `prev` plus the product of `p`, lowest degree first, and (x + e). */
  function TimesRoot(p: seq<bv8>, e: bv8, prev: bv8): (r: seq<bv8>)
    ensures |r| == |p| + 1
  {
    if p == [] then [prev] else [Add(prev, Mul(p[0], e))] + TimesRoot(p[1..], e, p[0])
  }

  lemma {:induction false} TimesRootAt(p: seq<bv8>, e: bv8, prev: bv8, k: nat)
    requires k <= |p|
    ensures TimesRoot(p, e, prev)[k] ==
            var low := if k == 0 then prev else p[k - 1]; if k < |p| then Add(low, Mul(p[k], e)) else low
  {
    hide Add, Mul;
    if k == 0 {
    } else {
      TimesRootAt(p[1..], e, p[0], k - 1);
    }
  }

  lemma {:induction false} EvalTimesRoot(p: seq<bv8>, e: bv8, prev: bv8, x: bv8)
    ensures EvalLow(TimesRoot(p, e, prev), x) == Add(Mul(EvalLow(p, x), Add(x, e)), prev)
  {
    hide Add, Mul;
    if p == [] {
      MulZero(x);
      MulZero(Add(x, e));
    } else {
      EvalTimesRoot(p[1..], e, p[0], x);
      var v, z := EvalLow(p[1..], x), Add(x, e);
      assert TimesRoot(p, e, prev)[1..] == TimesRoot(p[1..], e, p[0]);
      // (v z + p0) x + (prev + p0 e) == (v x + p0) z + prev
      RootStep(v, p[0], x, e, prev);
    }
  }

  lemma RootStep(v: bv8, c: bv8, x: bv8, e: bv8, prev: bv8)
    ensures Add(Mul(Add(Mul(v, Add(x, e)), c), x), Add(prev, Mul(c, e)))
         == Add(Mul(Add(Mul(v, x), c), Add(x, e)), prev)
  {
    hide Add, Mul;
    var z := Add(x, e);
    MulDistributesLeft(Mul(v, z), c, x);
    MulDistributesLeft(Mul(v, x), c, z);
    MulAssociates(v, z, x);
    MulAssociates(v, x, z);
    MulCommutes(x, z);
    MulDistributes(c, x, e);
    var a, b, d := Mul(Mul(v, z), x), Mul(c, x), Mul(c, e);
    AddLaws(prev, d, 0);
    AddLaws(Add(a, b), d, prev);
    AddLaws(a, b, d);
  }

  /** EXP[i] as the generator loop uses it.  The table has 512 entries; past its end the lookup
      is undefined, and multiplying by undefined contributes nothing to an XOR. */
  function Root(i: nat): bv8 {
    if i < 512 then Alpha(i) else 0
  }

  /** The product of (x + EXP[i]) for i < degree, lowest degree first. */
  function GeneratorLow(degree: nat): (p: seq<bv8>)
    ensures |p| == degree + 1
  {
    if degree == 0 then [1] else TimesRoot(GeneratorLow(degree - 1), Root(degree - 1), 0)
  }

  function Generator(degree: nat): (p: seq<bv8>)
    ensures |p| == degree + 1
  {
    Reverse(GeneratorLow(degree))
  }

  lemma {:induction false} ReverseEnds(p: seq<bv8>)
    requires p != []
    ensures Reverse(p)[0] == p[|p| - 1]
  {
    if |p| == 1 {
    } else {
      ReverseEnds(p[1..]);
    }
  }

  // ----- a row of the published table -----

  /** `row` is `low` times (x + EXP[n]), coefficient by coefficient. */
  predicate NextRow(low: seq<bv8>, n: nat, row: seq<bv8>) {
    |row| == |low| + 1
    && forall k :: 0 <= k < |row| ==>
         row[k] == Add(if k == 0 then 0 else low[k - 1], if k < |low| then Iter(n, low[k]) else 0)
  }

  lemma GeneratorStep(n: nat, low: seq<bv8>, row: seq<bv8>)
    requires n < 512 && GeneratorLow(n) == low && NextRow(low, n, row)
    ensures GeneratorLow(n + 1) == row
  {
    hide Add, Mul, Iter, GeneratorLow;
    var next := TimesRoot(low, Alpha(n), 0);
    forall k | 0 <= k < |row| ensures next[k] == row[k] {
      TimesRootAt(low, Alpha(n), 0, k);
      assert row[k] == Add(if k == 0 then 0 else low[k - 1], if k < |low| then Iter(n, low[k]) else 0);
      if k < |low| {
        MulAlpha(n, low[k]);
        MulCommutes(low[k], Alpha(n));
      } else {
        AddLaws(low[k - 1], 0, 0);
      }
    }
    assert next == row;
    NextGenerator(n);
  }

  lemma NextGenerator(n: nat)
    requires n < 512
    ensures GeneratorLow(0) == [1] && GeneratorLow(n + 1) == TimesRoot(GeneratorLow(n), Alpha(n), 0)
  {}

  lemma Row2()
    ensures NextRow([1, 1], 1, [2, 3, 1])
  {
    assert Iter(1, 1) == 2 && Iter(1, 1) == 2;
  }

  lemma Row3()
    ensures NextRow([2, 3, 1], 2, [8, 14, 7, 1])
  {
    assert Iter(1, 2) == 4 && Iter(1, 3) == 6 && Iter(1, 1) == 2;
    assert Iter(2, 2) == 8 && Iter(2, 3) == 12 && Iter(2, 1) == 4;
  }

  lemma Row4()
    ensures NextRow([8, 14, 7, 1], 3, [64, 120, 54, 15, 1])
  {
    assert Iter(1, 8) == 16 && Iter(1, 14) == 28 && Iter(1, 7) == 14 && Iter(1, 1) == 2;
    assert Iter(2, 8) == 32 && Iter(2, 14) == 56 && Iter(2, 7) == 28 && Iter(2, 1) == 4;
    assert Iter(3, 8) == 64 && Iter(3, 14) == 112 && Iter(3, 7) == 56 && Iter(3, 1) == 8;
  }

  lemma Steps4()
    ensures Iter(4, 64) == 116 && Iter(4, 120) == 211 && Iter(4, 54) == 71 && Iter(4, 15) == 240 && Iter(4, 1) == 16
  {
    assert Iter(1, 64) == 128 && Iter(1, 120) == 240 && Iter(1, 54) == 108 && Iter(1, 15) == 30 && Iter(1, 1) == 2;
    assert Iter(2, 64) == 29 && Iter(2, 120) == 253 && Iter(2, 54) == 216 && Iter(2, 15) == 60 && Iter(2, 1) == 4;
    assert Iter(3, 64) == 58 && Iter(3, 120) == 231 && Iter(3, 54) == 173 && Iter(3, 15) == 120 && Iter(3, 1) == 8;
  }

  lemma SumsIn5()
    ensures Add(0, 116) == 116 && Add(64, 211) == 147 && Add(120, 71) == 63 && Add(54, 240) == 198 && Add(15, 16) == 31 && Add(1, 0) == 1
  {}

  lemma Row5()
    ensures NextRow([64, 120, 54, 15, 1], 4, [116, 147, 63, 198, 31, 1])
  {
    Steps4();
    hide Iter, TimesX;
    SumsIn5();
    hide Add;
  }

  lemma Steps5Low()
    ensures Iter(5, 116) == 38 && Iter(5, 147) == 151 && Iter(5, 63) == 179
  {
    assert Iter(1, 116) == 232 && Iter(1, 147) == 59 && Iter(1, 63) == 126;
    assert Iter(2, 116) == 205 && Iter(2, 147) == 118 && Iter(2, 63) == 252;
    assert Iter(3, 116) == 135 && Iter(3, 147) == 236 && Iter(3, 63) == 229;
    assert Iter(4, 116) == 19 && Iter(4, 147) == 197 && Iter(4, 63) == 215;
  }

  lemma Steps5High()
    ensures Iter(5, 198) == 229 && Iter(5, 31) == 199 && Iter(5, 1) == 32
  {
    assert Iter(1, 198) == 145 && Iter(1, 31) == 62 && Iter(1, 1) == 2;
    assert Iter(2, 198) == 63 && Iter(2, 31) == 124 && Iter(2, 1) == 4;
    assert Iter(3, 198) == 126 && Iter(3, 31) == 248 && Iter(3, 1) == 8;
    assert Iter(4, 198) == 252 && Iter(4, 31) == 237 && Iter(4, 1) == 16;
  }

  lemma SumsIn6()
    ensures Add(0, 38) == 38 && Add(116, 151) == 227 && Add(147, 179) == 32 && Add(63, 229) == 218 && Add(198, 199) == 1 && Add(31, 32) == 63 && Add(1, 0) == 1
  {}

  lemma Row6()
    ensures NextRow([116, 147, 63, 198, 31, 1], 5, [38, 227, 32, 218, 1, 63, 1])
  {
    Steps5Low();
    Steps5High();
    hide Iter, TimesX;
    SumsIn6();
    hide Add;
  }

  lemma Steps6Low()
    ensures Iter(6, 38) == 117 && Iter(6, 227) == 98 && Iter(6, 32) == 232 && Iter(6, 218) == 132
  {
    assert Iter(1, 38) == 76 && Iter(1, 227) == 219 && Iter(1, 32) == 64 && Iter(1, 218) == 169;
    assert Iter(2, 38) == 152 && Iter(2, 227) == 171 && Iter(2, 32) == 128 && Iter(2, 218) == 79;
    assert Iter(3, 38) == 45 && Iter(3, 227) == 75 && Iter(3, 32) == 29 && Iter(3, 218) == 158;
    assert Iter(4, 38) == 90 && Iter(4, 227) == 150 && Iter(4, 32) == 58 && Iter(4, 218) == 33;
    assert Iter(5, 38) == 180 && Iter(5, 227) == 49 && Iter(5, 32) == 116 && Iter(5, 218) == 66;
  }

  lemma Steps6High()
    ensures Iter(6, 1) == 64 && Iter(6, 63) == 123 && Iter(6, 1) == 64
  {
    assert Iter(1, 1) == 2 && Iter(1, 63) == 126 && Iter(1, 1) == 2;
    assert Iter(2, 1) == 4 && Iter(2, 63) == 252 && Iter(2, 1) == 4;
    assert Iter(3, 1) == 8 && Iter(3, 63) == 229 && Iter(3, 1) == 8;
    assert Iter(4, 1) == 16 && Iter(4, 63) == 215 && Iter(4, 1) == 16;
    assert Iter(5, 1) == 32 && Iter(5, 63) == 179 && Iter(5, 1) == 32;
  }

  lemma SumsIn7()
    ensures Add(0, 117) == 117 && Add(38, 98) == 68 && Add(227, 232) == 11 && Add(32, 132) == 164 && Add(218, 64) == 154 && Add(1, 123) == 122 && Add(63, 64) == 127 && Add(1, 0) == 1
  {}

  lemma Row7()
    ensures NextRow([38, 227, 32, 218, 1, 63, 1], 6, [117, 68, 11, 164, 154, 122, 127, 1])
  {
    Steps6Low();
    Steps6High();
    hide Iter, TimesX;
    SumsIn7();
    hide Add;
  }

  /** The row of the published table for seven error-correction words. */
  lemma GeneratorOfSeven()
    ensures Generator(7) == [1, 127, 122, 154, 164, 11, 68, 117]
  {
    NextGenerator(0);
    assert NextRow([1], 0, [1, 1]);
    Row2();
    Row3();
    Row4();
    Row5();
    Row6();
    Row7();
    hide *;
    GeneratorStep(0, [1], [1, 1]);
    GeneratorStep(1, [1, 1], [2, 3, 1]);
    GeneratorStep(2, [2, 3, 1], [8, 14, 7, 1]);
    GeneratorStep(3, [8, 14, 7, 1], [64, 120, 54, 15, 1]);
    GeneratorStep(4, [64, 120, 54, 15, 1], [116, 147, 63, 198, 31, 1]);
    GeneratorStep(5, [116, 147, 63, 198, 31, 1], [38, 227, 32, 218, 1, 63, 1]);
    GeneratorStep(6, [38, 227, 32, 218, 1, 63, 1], [117, 68, 11, 164, 154, 122, 127, 1]);
    ReverseEight(117, 68, 11, 164, 154, 122, 127, 1);
  }

  lemma ReverseEight(a: bv8, b: bv8, c: bv8, d: bv8, e: bv8, f: bv8, g: bv8, h: bv8)
    ensures Reverse([a, b, c, d, e, f, g, h]) == [h, g, f, e, d, c, b, a]
  {
    assert Reverse([g, h]) == [h, g];
    assert Reverse([e, f, g, h]) == [h, g, f, e];
    assert Reverse([c, d, e, f, g, h]) == [h, g, f, e, d, c];
  }

  /** The generator is monic. */
  lemma {:induction false} GeneratorMonic(degree: nat)
    ensures Generator(degree)[0] == 1
  {
    hide Add, Mul, Alpha;
    ReverseEnds(GeneratorLow(degree));
    if degree == 0 {
    } else {
      ReverseEnds(GeneratorLow(degree - 1));
      GeneratorMonic(degree - 1);
      TimesRootAt(GeneratorLow(degree - 1), Root(degree - 1), 0, degree);
    }
  }

  /** The product of (x + EXP[i]) for i < degree. */
  function RootProduct(degree: nat, x: bv8): bv8 {
    if degree == 0 then 1 else Mul(RootProduct(degree - 1, x), Add(x, Root(degree - 1)))
  }

  /** The generator is the product of its linear factors. */
  lemma {:induction false} GeneratorIsProduct(degree: nat, x: bv8)
    ensures Eval(Generator(degree), x) == RootProduct(degree, x)
  {
    hide Add, Mul, Root;
    EvalReverse(GeneratorLow(degree), x);
    if degree == 0 {
      MulZero(x);
      assert EvalLow([1], x) == Add(Mul(0, x), 1);
      AddLaws(0, 1, 0);
      AddLaws(1, 0, 0);
    } else {
      EvalReverse(GeneratorLow(degree - 1), x);
      GeneratorIsProduct(degree - 1, x);
      EvalTimesRoot(GeneratorLow(degree - 1), Root(degree - 1), 0, x);
      AddLaws(RootProduct(degree, x), 0, 0);
    }
  }

  lemma {:induction false} ProductVanishes(degree: nat, i: nat)
    requires i < degree && i < 512
    ensures RootProduct(degree, Alpha(i)) == 0
  {
    hide Add, Mul, Alpha;
    if i == degree - 1 {
      AddLaws(Alpha(i), 0, 0);
      MulZero(RootProduct(i, Alpha(i)));
    } else {
      ProductVanishes(degree - 1, i);
      MulZero(Add(Alpha(i), Root(degree - 1)));
    }
  }

  /** x^0 ... x^(degree-1) are roots of the generator, for every degree. */
  lemma GeneratorRoots(degree: nat, i: nat)
    requires i < degree
    ensures Eval(Generator(degree), Alpha(i)) == 0
  {
    hide Add, Mul, Alpha;
    AlphaModulo(i);
    ProductVanishes(degree, i % 255);
    GeneratorIsProduct(degree, Alpha(i));
  }

  // ----- the division -----

  /** The register after one more data word: shifted by one, and the generator, times the word
      that fell out, added.  (With no error-correction words the source's register still
      grows to one word, which the loop then never touches.) */
  function Shift(out: seq<bv8>, gen: seq<bv8>, byte: bv8, count: nat): (r: seq<bv8>)
    requires |gen| == count + 1 && count <= |out| <= count + 1
    requires count > 0 ==> |out| == count
    ensures |r| == if count == 0 then 1 else count
  {
    var factor := Add(byte, if out == [] then 0 else out[0]);
    var moved := (if out == [] then [] else out[1..]) + [0];
    if count == 0 then moved else PlusScaled(moved, gen[1..], factor)
  }

  function PlusScaled(s: seq<bv8>, g: seq<bv8>, factor: bv8): (r: seq<bv8>)
    requires |s| == |g|
    ensures |r| == |s|
    ensures forall i :: 0 <= i < |r| ==> r[i] == Add(s[i], Mul(g[i], factor))
  {
    seq(|s|, i requires 0 <= i < |s| => Add(s[i], Mul(g[i], factor)))
  }

  /** The error-correction words of a data block. */
  function Ec(data: seq<bv8>, count: nat): (r: seq<bv8>)
    ensures |r| == count || (count == 0 && |r| == 1)
  {
    if data == [] then seq(count, _ => 0)
    else Shift(Ec(data[..|data| - 1], count), Generator(count), data[|data| - 1], count)
  }

  lemma {:induction false} EvalPlusScaled(s: seq<bv8>, g: seq<bv8>, factor: bv8, x: bv8)
    requires |s| == |g|
    ensures Eval(PlusScaled(s, g, factor), x) == Add(Eval(s, x), Mul(Eval(g, x), factor))
  {
    hide Add, Mul;
    if s == [] {
      MulZero(factor);
      AddLaws(0, 0, 0);
    } else {
      var n := |s| - 1;
      EvalPlusScaled(s[..n], g[..n], factor, x);
      assert PlusScaled(s, g, factor)[..n] == PlusScaled(s[..n], g[..n], factor);
      var u, v := Eval(s[..n], x), Eval(g[..n], x);
      MulDistributesLeft(u, Mul(v, factor), x);
      MulAssociates(v, factor, x);
      MulCommutes(factor, x);
      MulAssociates(v, x, factor);
      MulDistributesLeft(Mul(v, x), g[n], factor);
      AddSwap(Mul(u, x), Mul(Mul(v, x), factor), s[n], Mul(g[n], factor));
    }
  }

  lemma {:induction false} EvalZeros(n: nat, x: bv8)
    ensures Eval(seq(n, _ => 0), x) == 0
  {
    hide Mul;
    if n == 0 {
    } else {
      EvalZeros(n - 1, x);
      var zeros := seq(n, _ => 0 as bv8);
      assert zeros[..n - 1] == seq(n - 1, _ => 0 as bv8);
      MulZero(x);
    }
  }

  /** At a root of the generator its lower coefficients are worth x^count. */
  lemma MonicTail(count: nat, x: bv8)
    requires Eval(Generator(count), x) == 0
    ensures Eval(Generator(count)[1..], x) == Power(x, count)
  {
    hide Add, Mul;
    var g := Generator(count);
    GeneratorMonic(count);
    assert g == [1] + g[1..];
    EvalConcat([1], g[1..], x);
    EvalOne(1, x);
    MulUnits(Power(x, count));
    AddLaws(Power(x, count), Eval(g[1..], x), 0);
  }

  lemma EvalOne(c: bv8, x: bv8)
    ensures Eval([c], x) == c
  {
    hide Add, Mul;
    assert [c][..0] == [];
    MulZero(x);
    AddLaws(0, c, 0);
    AddLaws(c, 0, 0);
  }

  lemma HeadFirst(p: seq<bv8>, x: bv8)
    requires p != []
    ensures Eval(p, x) == Add(Mul(p[0], Power(x, |p| - 1)), Eval(p[1..], x))
  {
    hide Add, Mul, Eval, Power;
    assert p == [p[0]] + p[1..];
    EvalConcat([p[0]], p[1..], x);
    EvalOne(p[0], x);
  }

  lemma EvalShifted(p: seq<bv8>, x: bv8)
    ensures Eval(p + [0], x) == Mul(Eval(p, x), x)
  {
    hide Add, Mul;
    assert (p + [0])[..|p|] == p;
    AddLaws(Mul(Eval(p, x), x), 0, 0);
  }

  lemma PowerNext(c: bv8, x: bv8, n: nat)
    requires n > 0
    ensures Mul(Mul(c, Power(x, n - 1)), x) == Mul(c, Power(x, n))
  {
    hide Mul;
    MulAssociates(c, Power(x, n - 1), x);
  }

  /** One step of the register keeps it congruent, at a root, to the data shifted by `count`. */
  lemma ShiftStep(out: seq<bv8>, count: nat, byte: bv8, x: bv8)
    requires count > 0 && |out| == count
    requires Eval(Generator(count), x) == 0
    ensures Eval(Shift(out, Generator(count), byte, count), x)
         == Add(Mul(Eval(out, x), x), Mul(byte, Power(x, count)))
  {
    hide Add, Mul, Eval, Power, Generator;
    var p, rest, c := Power(x, count), out[1..], out[0];
    EvalPlusScaled(rest + [0], Generator(count)[1..], Add(byte, c), x);
    MonicTail(count, x);
    HeadFirst(out, x);
    EvalShifted(rest, x);
    PowerNext(c, x, count);
    var r, q := Eval(rest, x), Mul(c, Power(x, count - 1));
    ShiftAlgebra(r, x, c, byte, p, q);
  }

  /** r x + p (byte + c) == (q + r) x + byte p, where q x is c p. */
  lemma ShiftAlgebra(r: bv8, x: bv8, c: bv8, byte: bv8, p: bv8, q: bv8)
    requires Mul(q, x) == Mul(c, p)
    ensures Add(Mul(r, x), Mul(p, Add(byte, c))) == Add(Mul(Add(q, r), x), Mul(byte, p))
  {
    hide Add, Mul;
    var cp, bp := Mul(c, p), Mul(byte, p);
    MulDistributesLeft(q, r, x);
    MulCommutes(p, Add(byte, c));
    MulDistributesLeft(byte, c, p);
    AddLaws(Mul(r, x), Add(bp, cp), 0);
    AddLaws(bp, cp, 0);
    AddLaws(cp, Mul(r, x), bp);
    AddLaws(Mul(r, x), cp, bp);
  }

  lemma {:induction false} RegisterCongruent(data: seq<bv8>, count: nat, x: bv8)
    requires count > 0 && Eval(Generator(count), x) == 0
    ensures Eval(Ec(data, count), x) == Mul(Eval(data, x), Power(x, count))
  {
    hide Add, Mul, Shift;
    var p := Power(x, count);
    if data == [] {
      EvalZeros(count, x);
      MulZero(p);
    } else {
      var n := |data| - 1;
      var e := Eval(data[..n], x);
      RegisterCongruent(data[..n], count, x);
      ShiftStep(Ec(data[..n], count), count, data[n], x);
      MulAssociates(e, p, x);
      MulCommutes(p, x);
      MulAssociates(e, x, p);
      MulDistributesLeft(Mul(e, x), data[n], p);
    }
  }

  /** A codeword: its syndromes at x^0 ... x^(count-1) all vanish. */
  ghost predicate Codeword(word: seq<bv8>, count: nat) {
    forall i :: 0 <= i < count ==> Eval(word, Alpha(i)) == 0
  }

  /** Every data block, followed by its error-correction words, is a codeword. */
  lemma SyndromesVanish(data: seq<bv8>, count: nat)
    ensures Codeword(data + Ec(data, count), count)
  {
    hide Add, Mul, Alpha, Shift;
    forall i | 0 <= i < count ensures Eval(data + Ec(data, count), Alpha(i)) == 0 {
      var x := Alpha(i);
      GeneratorRoots(count, i);
      RegisterCongruent(data, count, x);
      EvalConcat(data, Ec(data, count), x);
      AddLaws(Eval(Ec(data, count), x), 0, 0);
    }
  }

  // ----- the code corrects errors: two codewords differ in more than `count` places -----

  /** A nonzero coefficient and its degree. */
  datatype Term = Term(coef: bv8, degree: nat)

  function Terms(p: seq<bv8>): (ts: seq<Term>)
    ensures forall k :: 0 <= k < |ts| ==> ts[k].coef != 0 && ts[k].degree < |p|
    ensures forall j, k :: 0 <= j < k < |ts| ==> ts[j].degree != ts[k].degree
  {
    if p == [] then []
    else (if p[0] != 0 then [Term(p[0], |p| - 1)] else []) + Terms(p[1..])
  }

  /** The sum of coef * x^(i * degree): the polynomial's value at x^i. */
  function Value(ts: seq<Term>, i: nat): bv8 {
    if ts == [] then 0 else Add(Mul(ts[0].coef, Alpha(i * ts[0].degree)), Value(ts[1..], i))
  }

  lemma {:induction false} PowerOfAlpha(i: nat, n: nat)
    ensures Power(Alpha(i), n) == Alpha(i * n)
  {
    AlphaZero();
    hide Alpha, Mul;
    if n == 0 {
      assert i * n == 0;
    } else {
      PowerOfAlpha(i, n - 1);
      MulAlphas(i * (n - 1), i);
      assert i * (n - 1) + i == i * n;
    }
  }

  lemma {:induction false} ValueIsEval(p: seq<bv8>, i: nat)
    ensures Value(Terms(p), i) == Eval(p, Alpha(i))
  {
    hide Add, Mul, Alpha;
    if p == [] {
    } else {
      var x := Alpha(i);
      assert p == [p[0]] + p[1..];
      EvalConcat([p[0]], p[1..], x);
      EvalOne(p[0], x);
      PowerOfAlpha(i, |p| - 1);
      ValueIsEval(p[1..], i);
      if p[0] == 0 {
        MulZero(Power(x, |p| - 1));
        AddLaws(Eval(p[1..], x), 0, 0);
        AddLaws(0, Eval(p[1..], x), 0);
        assert Terms(p) == Terms(p[1..]);
      } else {
        assert Terms(p)[1..] == Terms(p[1..]);
      }
    }
  }

  /** The terms with each coefficient multiplied by x^degree + x^d: what is left of
      Value(ts, i + 1) + x^d * Value(ts, i), a combination in which degree d has cancelled. */
  function Eliminate(ts: seq<Term>, d: nat): (r: seq<Term>)
    ensures |r| == |ts| && forall k :: 0 <= k < |r| ==> r[k].degree == ts[k].degree
  {
    if ts == [] then []
    else [ts[0].(coef := Mul(ts[0].coef, Add(Alpha(ts[0].degree), Alpha(d))))] + Eliminate(ts[1..], d)
  }

  lemma {:induction false} EliminateValue(ts: seq<Term>, d: nat, i: nat)
    ensures Value(Eliminate(ts, d), i) == Add(Value(ts, i + 1), Mul(Alpha(d), Value(ts, i)))
  {
    hide Add, Mul, Alpha;
    if ts == [] {
      MulZero(Alpha(d));
      AddLaws(0, 0, 0);
    } else {
      EliminateValue(ts[1..], d, i);
      var t := ts[0];
      assert Eliminate(ts, d)[1..] == Eliminate(ts[1..], d);
      var y, a, b := Alpha(i * t.degree), Alpha(t.degree), Alpha(d);
      MulDistributes(t.coef, a, b);
      MulDistributesLeft(Mul(t.coef, a), Mul(t.coef, b), y);
      // the new term of Value(ts, i + 1)
      MulAssociates(t.coef, a, y);
      MulAlphas(t.degree, i * t.degree);
      assert t.degree + i * t.degree == (i + 1) * t.degree;
      // the new term of x^d * Value(ts, i)
      MulCommutes(t.coef, b);
      MulAssociates(b, t.coef, y);
      MulDistributes(b, Mul(t.coef, y), Value(ts[1..], i));
      AddSwap(Mul(t.coef, Alpha((i + 1) * t.degree)), Mul(b, Mul(t.coef, y)),
              Value(ts[1..], i + 1), Mul(b, Value(ts[1..], i)));
    }
  }

  lemma {:induction false} EliminateNonzero(ts: seq<Term>, d: nat)
    requires d < 255 && forall k :: 0 <= k < |ts| ==> ts[k].coef != 0 && ts[k].degree < 255 && ts[k].degree != d
    ensures forall k :: 0 <= k < |ts| ==> Eliminate(ts, d)[k].coef != 0
  {
    hide Add, Mul, Alpha;
    if ts == [] {
    } else {
      var t := ts[0];
      EliminateNonzero(ts[1..], d);
      AddLaws(Alpha(t.degree), Alpha(d), 0);
      if Add(Alpha(t.degree), Alpha(d)) == 0 {
        AlphaInjective(t.degree, d);
      }
      if Mul(t.coef, Add(Alpha(t.degree), Alpha(d))) == 0 {
        NoZeroDivisors(t.coef, Add(Alpha(t.degree), Alpha(d)));
      }
    }
  }

  lemma EliminateVanishes(ts: seq<Term>, i: nat)
    requires ts != [] && Value(ts, i) == 0 && Value(ts, i + 1) == 0
    ensures Value(Eliminate(ts[1..], ts[0].degree), i) == 0
  {
    hide Add, Mul, Alpha;
    var t := ts[0];
    var next := Eliminate(ts[1..], t.degree);
    assert Eliminate(ts, t.degree)[1..] == next;
    EliminateValue(ts, t.degree, i);
    AddLaws(Alpha(t.degree), 0, 0);
    MulZero(t.coef);
    MulZero(Alpha(i * t.degree));
    MulZero(Alpha(t.degree));
    AddLaws(Value(next, i), 0, 0);
    AddLaws(0, Value(next, i), 0);
  }

  /** The Vandermonde argument: a polynomial of degree below 255 with n nonzero terms cannot
      vanish at x^0 ... x^(n-1), unless it is zero. */
  lemma {:induction false} FewTermsDoNotVanish(ts: seq<Term>)
    requires forall k :: 0 <= k < |ts| ==> ts[k].coef != 0 && ts[k].degree < 255
    requires forall j, k :: 0 <= j < k < |ts| ==> ts[j].degree != ts[k].degree
    requires forall i :: 0 <= i < |ts| ==> Value(ts, i) == 0
    ensures ts == []
    decreases |ts|
  {
    hide Add, Mul, Alpha, Eliminate;
    if |ts| == 1 {
      assert ts == [ts[0]];
      SingleTerm(ts[0]);
    } else if ts != [] {
      var t, rest := ts[0], ts[1..];
      EliminateNonzero(rest, t.degree);
      forall i | 0 <= i < |rest| ensures Value(Eliminate(rest, t.degree), i) == 0 {
        EliminateVanishes(ts, i);
      }
      FewTermsDoNotVanish(Eliminate(rest, t.degree));
    }
  }

  lemma SingleTerm(t: Term)
    ensures Value([t], 0) == t.coef
  {
    AlphaZero();
    hide Add, Mul, Alpha;
    assert 0 * t.degree == 0;
    MulUnits(t.coef);
    AddLaws(t.coef, 0, 0);
  }

  function Sum(u: seq<bv8>, v: seq<bv8>): (r: seq<bv8>)
    requires |u| == |v|
    ensures |r| == |u| && forall k :: 0 <= k < |r| ==> r[k] == Add(u[k], v[k])
  {
    seq(|u|, k requires 0 <= k < |u| => Add(u[k], v[k]))
  }

  lemma {:induction false} SumTerms(u: seq<bv8>, v: seq<bv8>)
    requires |u| == |v|
    ensures |Terms(Sum(u, v))| == Distance(u, v)
  {
    hide Add;
    if u == [] {
    } else {
      SumTerms(u[1..], v[1..]);
      assert Sum(u, v)[1..] == Sum(u[1..], v[1..]);
      AddLaws(u[0], v[0], 0);
      AddLaws(u[0], u[0], 0);
    }
  }

  lemma {:induction false} EvalSum(u: seq<bv8>, v: seq<bv8>, x: bv8)
    requires |u| == |v|
    ensures Eval(Sum(u, v), x) == Add(Eval(u, x), Eval(v, x))
  {
    hide Add, Mul;
    if u == [] {
      AddLaws(0, 0, 0);
    } else {
      var n := |u| - 1;
      EvalSum(u[..n], v[..n], x);
      assert Sum(u, v)[..n] == Sum(u[..n], v[..n]);
      MulDistributesLeft(Eval(u[..n], x), Eval(v[..n], x), x);
      AddSwap(Mul(Eval(u[..n], x), x), Mul(Eval(v[..n], x), x), u[n], v[n]);
    }
  }

  /** Two different codewords of at most 255 words differ in more than `count` places. */
  lemma MinimumDistance(u: seq<bv8>, v: seq<bv8>, count: nat)
    requires |u| == |v| <= 255 && Codeword(u, count) && Codeword(v, count) && u != v
    ensures Distance(u, v) > count
  {
    hide Add, Mul, Alpha, Eval;
    if Distance(u, v) <= count {
      var ts := Terms(Sum(u, v));
      SumTerms(u, v);
      forall i | 0 <= i < |ts| ensures Value(ts, i) == 0 {
        ValueIsEval(Sum(u, v), i);
        EvalSum(u, v, Alpha(i));
        AddLaws(0, 0, 0);
      }
      FewTermsDoNotVanish(ts);
      ZeroDistance(u, v);
    }
  }

  /** So a word damaged in at most count / 2 places has one codeword that close, and it is the
      one that was printed. */
  lemma CorrectsErrors(printed: seq<bv8>, damaged: seq<bv8>, other: seq<bv8>, count: nat)
    requires |printed| == |damaged| == |other| <= 255
    requires Codeword(printed, count) && Codeword(other, count)
    requires 2 * Distance(damaged, printed) <= count && 2 * Distance(damaged, other) <= count
    ensures other == printed
  {
    Triangle(printed, damaged, other);
    if printed != other {
      MinimumDistance(printed, other, count);
    }
  }

  lemma {:induction false} PrefixDistance(p: seq<bv8>, u: seq<bv8>, v: seq<bv8>)
    requires |u| == |v|
    ensures Distance(p + u, p + v) == Distance(u, v) <= |u|
  {
    if p == [] {
      assert p + u == u && p + v == v;
      if u != [] {
        PrefixDistance([], u[1..], v[1..]);
        assert [] + u[1..] == u[1..] && [] + v[1..] == v[1..];
      }
    } else {
      assert (p + u)[1..] == p[1..] + u && (p + v)[1..] == p[1..] + v;
      PrefixDistance(p[1..], u, v);
    }
  }

  /** The error-correction words are the only `count` words that complete the block to a
      codeword: they are the remainder of the shifted data by the generator. */
  lemma EcIsUnique(data: seq<bv8>, count: nat, ec: seq<bv8>)
    requires |ec| == count > 0 && |data| + count <= 255
    ensures Codeword(data + ec, count) <==> ec == Ec(data, count)
  {
    SyndromesVanish(data, count);
    if Codeword(data + ec, count) && ec != Ec(data, count) {
      assert (data + ec)[|data|..] == ec && (data + Ec(data, count))[|data|..] == Ec(data, count);
      MinimumDistance(data + ec, data + Ec(data, count), count);
      PrefixDistance(data, ec, Ec(data, count));
    }
  }

  // ----- the source's loops -----

  method ComputeGenerator(tables: Tables, degree: nat) returns (gen: seq<bv8>)
    requires tables.Valid()
    ensures gen == Generator(degree)
  {
    hide Add, Mul, Alpha, TimesRoot;
    var poly: seq<bv8> := [1];
    for i := 0 to degree
      invariant poly == GeneratorLow(i)
    {
      poly := MultiplyByRoot(tables, poly, if i < 512 then tables.exp[i] else 0);
    }
    gen := Reverse(poly);
  }

  method MultiplyByRoot(tables: Tables, poly: seq<bv8>, e: bv8) returns (r: seq<bv8>)
    requires tables.Valid() && poly != []
    ensures r == TimesRoot(poly, e, 0)
  {
    hide Add, Mul, Alpha, TimesRoot;
    var next := new bv8[|poly| + 1](_ => 0);
    for j := 0 to |poly|
      invariant forall k :: 0 <= k < j ==> next[k] == TimesRoot(poly, e, 0)[k]
      invariant next[j] == if j == 0 then 0 else poly[j - 1]
      invariant forall k :: j < k <= |poly| ==> next[k] == 0
    {
      TimesRootAt(poly, e, 0, j);
      next[j] := Add(next[j], tables.Times(poly[j], e));
      AddLaws(0, poly[j], 0);
      AddLaws(poly[j], 0, 0);
      next[j + 1] := Add(next[j + 1], poly[j]);
    }
    TimesRootAt(poly, e, 0, |poly|);
    r := next[..];
  }

  method EcCodewords(tables: Tables, data: seq<bv8>, count: nat) returns (out: seq<bv8>)
    requires tables.Valid()
    ensures out == Ec(data, count)
  {
    hide Add, Mul, Alpha;
    var gen := ComputeGenerator(tables, count);
    out := seq(count, _ => 0);
    for n := 0 to |data|
      invariant out == Ec(data[..n], count)
    {
      ghost var before := out;
      assert data[..n + 1][..n] == data[..n];
      var factor := Add(data[n], if out == [] then 0 else out[0]);
      out := (if out == [] then [] else out[1..]) + [0];
      ghost var moved := out;
      for i := 0 to count
        invariant |out| == |moved|
        invariant forall k :: 0 <= k < i ==> out[k] == Add(moved[k], Mul(gen[k + 1], factor))
        invariant forall k :: i <= k < |out| ==> out[k] == moved[k]
      {
        out := out[i := Add(out[i], tables.Times(gen[i + 1], factor))];
      }
      assert out == Shift(before, gen, data[n], count);
    }
    assert data[..|data|] == data;
  }
}
