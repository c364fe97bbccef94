/** What the shift register of packages/designer-runtime/src/qr.ts:83-93 computes: polynomial division
    by the generator, coefficient by coefficient. */
module PolynomialDivision {
  import opened GaloisField
  import opened ReedSolomon

  // ----- products of polynomials, highest degree first -----

  function Zeros(n: nat): (r: seq<bv8>)
    ensures |r| == n && forall i :: 0 <= i < n ==> r[i] == 0
  {
    seq(n, _ => 0)
  }

  function Scaled(g: seq<bv8>, c: bv8): (r: seq<bv8>)
    ensures |r| == |g| && forall i :: 0 <= i < |r| ==> r[i] == Mul(g[i], c)
  {
    seq(|g|, i requires 0 <= i < |g| => Mul(g[i], c))
  }

  /** (q x + c) g = (q g) x + c g, for the last coefficient c. */
  function Convolved(q: seq<bv8>, g: seq<bv8>): (r: seq<bv8>)
    requires g != []
    ensures |r| == |q| + |g| - 1
  {
    if q == [] then Zeros(|g| - 1)
    else
      var n := |q| - 1;
      Sum(Convolved(q[..n], g) + [0], Zeros(n) + Scaled(g, q[n]))
  }

  lemma {:induction false} EvalScaled(g: seq<bv8>, c: bv8, x: bv8)
    ensures Eval(Scaled(g, c), x) == Mul(Eval(g, x), c)
  {
    hide Add, Mul;
    if g == [] {
      MulZero(c);
    } else {
      var n := |g| - 1;
      var e := Eval(g[..n], x);
      EvalScaled(g[..n], c, x);
      assert Scaled(g, c)[..n] == Scaled(g[..n], c);
      MulAssociates(e, c, x);
      MulCommutes(c, x);
      MulAssociates(e, x, c);
      MulDistributesLeft(Mul(e, x), g[n], c);
    }
  }

  lemma EvalPadded(n: nat, p: seq<bv8>, x: bv8)
    ensures Eval(Zeros(n) + p, x) == Eval(p, x)
  {
    hide Add, Mul;
    EvalConcat(Zeros(n), p, x);
    assert Zeros(n) == seq(n, _ => 0);
    EvalZeros(n, x);
    MulZero(Power(x, |p|));
    AddLaws(0, Eval(p, x), 0);
    AddLaws(Eval(p, x), 0, 0);
  }

  /** It is the product: at every point its value is the product of the values. */
  lemma {:induction false} EvalProduct(q: seq<bv8>, g: seq<bv8>, x: bv8)
    requires g != []
    ensures Eval(Convolved(q, g), x) == Mul(Eval(q, x), Eval(g, x))
  {
    hide Add, Mul;
    if q == [] {
      assert Zeros(|g| - 1) == seq(|g| - 1, _ => 0);
      EvalZeros(|g| - 1, x);
      MulZero(Eval(g, x));
    } else {
      var n := |q| - 1;
      var a, c, e := Eval(q[..n], x), q[n], Eval(g, x);
      EvalProduct(q[..n], g, x);
      EvalSum(Convolved(q[..n], g) + [0], Zeros(n) + Scaled(g, c), x);
      EvalShifted(Convolved(q[..n], g), x);
      EvalPadded(n, Scaled(g, c), x);
      EvalScaled(g, c, x);
      // (a e) x + e c == (a x + c) e
      MulAssociates(a, e, x);
      MulCommutes(e, x);
      MulAssociates(a, x, e);
      MulCommutes(e, c);
      MulDistributesLeft(Mul(a, x), c, e);
    }
  }

  // ----- division by a monic polynomial has one answer -----

  /** `q` g + `r`, with `r` of lower degree than g. */
  function Recomposed(q: seq<bv8>, g: seq<bv8>, r: seq<bv8>): (p: seq<bv8>)
    requires g != [] && |r| == |g| - 1
    ensures |p| == |q| + |r|
  {
    Sum(Convolved(q, g), Zeros(|q|) + r)
  }

  /** A further coefficient leaves the leading ones of the product alone, and is read off the next. */
  lemma LeadingOf(q: seq<bv8>, c: bv8, g: seq<bv8>)
    requires g != [] && g[0] == 1
    ensures var before, after := Convolved(q, g), Convolved(q + [c], g);
      after[..|q|] == before[..|q|] && after[|q|] == Add((before + [0])[|q|], c)
  {
    hide Add, Mul;
    var n := |q|;
    assert (q + [c])[..n] == q;
    var before, after := Convolved(q, g), Convolved(q + [c], g);
    var high, low := before + [0], Zeros(n) + Scaled(g, c);
    assert after == Sum(high, low);
    hide Convolved;
    MulUnits(c);
    assert low[n] == Mul(g[0], c);
    forall i | 0 <= i < n ensures after[i] == before[i] {
      AddLaws(before[i], 0, 0);
      assert high[i] == before[i] && low[i] == 0;
    }
    assert after[..n] == before[..n];
  }

  lemma {:induction false} LeadingDetermines(p: seq<bv8>, q: seq<bv8>, g: seq<bv8>)
    requires g != [] && g[0] == 1 && |p| == |q| && Convolved(p, g)[..|p|] == Convolved(q, g)[..|q|]
    ensures p == q
  {
    hide Add, Convolved;
    if p == [] {
    } else {
      var n := |p| - 1;
      var u, v := p[..n], q[..n];
      assert p == u + [p[n]] && q == v + [q[n]];
      LeadingOf(u, p[n], g);
      LeadingOf(v, q[n], g);
      var s, t := Convolved(p, g), Convolved(q, g);
      assert s[..n] == s[..n + 1][..n] && t[..n] == t[..n + 1][..n];
      LeadingDetermines(u, v, g);
      assert s[n] == s[..n + 1][n] && t[n] == t[..n + 1][n];
      CancelLeft((Convolved(u, g) + [0])[n], p[n], q[n]);
    }
  }

  lemma CancelLeft(w: bv8, a: bv8, b: bv8)
    requires Add(w, a) == Add(w, b)
    ensures a == b
  {}

  /** Quotient and remainder are determined. */
  lemma DivisionIsUnique(p: seq<bv8>, q: seq<bv8>, g: seq<bv8>, r: seq<bv8>, s: seq<bv8>)
    requires g != [] && g[0] == 1 && |p| == |q| && |r| == |s| == |g| - 1
    requires Recomposed(p, g, r) == Recomposed(q, g, s)
    ensures p == q && r == s
  {
    hide Add, Mul, Convolved;
    var n := |p|;
    forall i | 0 <= i < n ensures Convolved(p, g)[i] == Convolved(q, g)[i] {
      assert Recomposed(p, g, r)[i] == Recomposed(q, g, s)[i];
      AddLaws(Convolved(p, g)[i], 0, 0);
      AddLaws(Convolved(q, g)[i], 0, 0);
    }
    assert Convolved(p, g)[..n] == Convolved(q, g)[..n];
    LeadingDetermines(p, q, g);
    forall j | 0 <= j < |r| ensures r[j] == s[j] {
      assert Recomposed(p, g, r)[n + j] == Recomposed(q, g, s)[n + j];
      CancelLeft(Convolved(p, g)[n + j], r[j], s[j]);
    }
  }

  // ----- the register divides -----

  /** The factors the register multiplies the generator by, one for each data word. */
  function Quotient(data: seq<bv8>, count: nat): (q: seq<bv8>)
    requires count > 0
    ensures |q| == |data|
  {
    if data == [] then []
    else
      var n := |data| - 1;
      Quotient(data[..n], count) + [Add(data[n], Ec(data[..n], count)[0])]
  }

  /** For every data block and every count: data x^count = quotient * generator + error-correction words. */
  lemma {:induction false} RegisterDivides(data: seq<bv8>, count: nat)
    requires count > 0
    ensures Recomposed(Quotient(data, count), Generator(count), Ec(data, count)) == data + Zeros(count)
  {
    hide Add, Mul, Generator;
    if data == [] {
      forall i | 0 <= i < count ensures Recomposed([], Generator(count), Ec([], count))[i] == 0 {
        AddLaws(0, 0, 0);
      }
    } else {
      var n := |data| - 1;
      RegisterDivides(data[..n], count);
      RegisterStep(Quotient(data[..n], count), data[..n], data[n], Ec(data[..n], count), count);
      assert data == data[..n] + [data[n]];
    }
  }

  lemma ConvolvedNext(q: seq<bv8>, c: bv8, g: seq<bv8>, i: nat)
    requires g != [] && i < |q| + |g|
    ensures var t := Convolved(q, g);
      Convolved(q + [c], g)[i] == if i < |q| then t[i] else Add(if i < |t| then t[i] else 0, Mul(g[i - |q|], c))
  {
    hide Add, Mul;
    assert (q + [c])[..|q|] == q;
    var high, low := Convolved(q, g) + [0], Zeros(|q|) + Scaled(g, c);
    assert Convolved(q + [c], g)[i] == Add(high[i], low[i]);
    AddLaws(high[i], 0, 0);
  }

  lemma RecomposedAt(q: seq<bv8>, g: seq<bv8>, r: seq<bv8>, i: nat)
    requires g != [] && |r| == |g| - 1 && i < |q| + |r|
    ensures var t := Convolved(q, g)[i]; Recomposed(q, g, r)[i] == if i < |q| then t else Add(t, r[i - |q|])
  {
    hide Add, Convolved;
    var t := Convolved(q, g)[i];
    AddLaws(t, 0, 0);
  }

  lemma RegisterStep(q: seq<bv8>, data: seq<bv8>, byte: bv8, out: seq<bv8>, count: nat)
    requires count > 0 && |out| == count && |q| == |data|
    requires Recomposed(q, Generator(count), out) == data + Zeros(count)
    ensures Recomposed(q + [Add(byte, out[0])], Generator(count), ReedSolomon.Shift(out, Generator(count), byte, count))
      == data + [byte] + Zeros(count)
  {
    GeneratorMonic(count);
    hide Add, Mul, Generator, ReedSolomon.Shift, Recomposed, Convolved;
    var g, factor, n := Generator(count), Add(byte, out[0]), |data|;
    var t, next := Convolved(q, g), ReedSolomon.Shift(out, g, byte, count);
    var r, r' := Recomposed(q, g, out), Recomposed(q + [factor], g, next);
    var whole, whole' := data + Zeros(count), data + [byte] + Zeros(count);
    forall i | 0 <= i < n + 1 + count ensures r'[i] == whole'[i] {
      ConvolvedNext(q, factor, g, i);
      RecomposedAt(q + [factor], g, next, i);
      if i < n + count {
        RecomposedAt(q, g, out, i);
        assert r[i] == whole[i];
      }
      if i == n {
        MulUnits(factor);
        HeadStep(t[n], out[0], byte);
      } else if i > n {
        var j := i - n - 1;
        TailAt(out, g, byte, count, j);
        if j < count - 1 {
          TailStep(t[i], out[j + 1], Mul(g[j + 1], factor));
        } else {
          TailStep(0, 0, Mul(g[j + 1], factor));
        }
      }
    }
    assert r' == whole';
  }

  /** A coefficient of the register after a step. */
  lemma TailAt(out: seq<bv8>, g: seq<bv8>, byte: bv8, count: nat, j: nat)
    requires |g| == count + 1 && |out| == count && j < count
    ensures ReedSolomon.Shift(out, g, byte, count)[j]
      == Add(if j < count - 1 then out[j + 1] else 0, Mul(g[j + 1], Add(byte, out[0])))
  {
    hide Add, Mul;
  }

  lemma HeadStep(t: bv8, o: bv8, byte: bv8)
    ensures Add(t, o) == 0 ==> Add(t, Add(byte, o)) == byte
  {}

  lemma TailStep(t: bv8, o: bv8, m: bv8)
    ensures Add(t, o) == 0 ==> Add(Add(t, m), Add(o, m)) == 0
    ensures Add(0, 0) == 0
  {}

  /** The error-correction words are the remainder of the shifted data by the generator, and nothing
      else is: for every data block and every count. */
  lemma EcIsRemainder(data: seq<bv8>, count: nat, q: seq<bv8>, r: seq<bv8>)
    requires count > 0 && |q| == |data| && |r| == count
    ensures Recomposed(q, Generator(count), r) == data + Zeros(count)
      <==> q == Quotient(data, count) && r == Ec(data, count)
  {
    hide Recomposed, Generator, Ec, Quotient;
    GeneratorMonic(count);
    RegisterDivides(data, count);
    if Recomposed(q, Generator(count), r) == data + Zeros(count) {
      DivisionIsUnique(q, Quotient(data, count), Generator(count), r, Ec(data, count));
    }
  }
}
