/** GF(256), the field the QR error-correction words are computed in
    (packages/designer-runtime/src/qr.ts:43-58).

    The field itself is `Add` and `Mul`: addition and multiplication of polynomials over
    GF(2), a product being followed by long division by 0x11d.  The source never multiplies
    that way; it adds discrete logarithms looked up in two tables.  `Tables` is that code, and
    its `Times` is proved to be the field's. */
module GaloisField {

  // ----- polynomials over GF(2): a set bit k is the term x^k -----

  function Add(a: bv8, b: bv8): bv8 { a ^ b }

  function Plus(p: bv16, q: bv16): bv16 { p ^ q }

  function Shift(p: bv16): bv16 { p << 1 }

  /** The product of `p` and the `n` lowest terms of `b`, unreduced. */
  function Product(p: bv16, b: bv8, n: nat): bv16
    decreases n
  {
    if n == 0 then 0 else Plus(if b & 1 != 0 then p else 0, Product(Shift(p), b >> 1, n - 1))
  }

  /** The term x^(8+k). */
  function Top(k: nat): bv16
    requires k < 7
  {
    match k
    case 0 => 0x100 case 1 => 0x200 case 2 => 0x400 case 3 => 0x800 case 4 => 0x1000 case 5 => 0x2000
    case 6 => 0x4000
  }

  /** x^8 + x^4 + x^3 + x^2 + 1, multiplied by x^k. */
  function Divisor(k: nat): bv16
    requires k < 7
  {
    match k
    case 0 => 0x11d case 1 => 0x23a case 2 => 0x474 case 3 => 0x8e8 case 4 => 0x11d0 case 5 => 0x23a0
    case 6 => 0x4740
  }

  predicate Has(p: bv16, k: nat)
    requires k < 7
  {
    Mask(p, Top(k)) != 0
  }

  function Mask(p: bv16, term: bv16): bv16 { p & term }

  /** `p` has no term x^(8+k) or higher. */
  predicate Below(p: bv16, k: nat)
    requires k < 7
  {
    p < Top(k)
  }

  /** One step of long division: cancels the term x^(8+k). */
  function Cancel(p: bv16, k: nat): bv16
    requires k < 7
  {
    if Has(p, k) then Plus(p, Divisor(k)) else p
  }

  /** Long division of the terms x^(8+n-1) down to x^8. */
  function Divide(p: bv16, n: nat): bv16
    requires n <= 7
    decreases n
  {
    if n == 0 then p else Divide(Cancel(p, n - 1), n - 1)
  }

  /** The remainder of `p`, of degree at most 14. */
  function Remainder(p: bv16): bv8 {
    Low(Divide(p, 7))
  }

  function Low(p: bv16): bv8 { (p & 0xff) as bv8 }

  /** Multiplication in GF(256). */
  function Mul(a: bv8, b: bv8): bv8 {
    Remainder(Product(a as bv16, b, 8))
  }

  /** Multiplication by x, the field element 2. */
  function TimesX(a: bv8): bv8 {
    Add(a << 1, if a & 0x80 != 0 then 0x1d else 0)
  }

  /** `a` multiplied by x, `n` times over. */
  function Iter(n: nat, a: bv8): bv8 {
    if n == 0 then a else TimesX(Iter(n - 1, a))
  }

  /** x^i. */
  function Alpha(i: nat): bv8 {
    Iter(i, 1)
  }

  // ----- addition -----

  lemma AddLaws(a: bv8, b: bv8, c: bv8)
    ensures Add(a, b) == Add(b, a) && Add(Add(a, b), c) == Add(a, Add(b, c))
    ensures Add(a, 0) == a && Add(a, a) == 0
    ensures Add(a, b) == 0 ==> a == b
  {}

  lemma AddSwap(a: bv8, b: bv8, c: bv8, d: bv8)
    ensures Add(Add(a, b), Add(c, d)) == Add(Add(a, c), Add(b, d))
  {
    assert (a ^ b) ^ (c ^ d) == (a ^ c) ^ (b ^ d);
  }

  // ----- multiplication by x -----

  lemma TimesXAdd(a: bv8, b: bv8)
    ensures TimesX(Add(a, b)) == Add(TimesX(a), TimesX(b))
  {
    assert (a ^ b) & 0x80 == (a & 0x80) ^ (b & 0x80);
    assert (a ^ b) << 1 == (a << 1) ^ (b << 1);
    assert (a & 0x80 == 0 || a & 0x80 == 0x80) && (b & 0x80 == 0 || b & 0x80 == 0x80);
  }

  lemma TimesXInjective(a: bv8, b: bv8)
    requires TimesX(a) == TimesX(b)
    ensures a == b
  {}

  lemma {:induction false} IterAddition(n: nat, a: bv8, b: bv8)
    ensures Iter(n, Add(a, b)) == Add(Iter(n, a), Iter(n, b))
  {
    hide Add, TimesX;
    if n == 0 {
    } else {
      IterAddition(n - 1, a, b);
      TimesXAdd(Iter(n - 1, a), Iter(n - 1, b));
    }
  }

  lemma {:induction false} IterTwice(m: nat, n: nat, a: bv8)
    ensures Iter(m + n, a) == Iter(m, Iter(n, a))
  {
    hide TimesX;
    if m == 0 {
    } else {
      IterTwice(m - 1, n, a);
    }
  }

  lemma {:induction false} IterInjective(n: nat, a: bv8, b: bv8)
    requires Iter(n, a) == Iter(n, b)
    ensures a == b
  {
    hide TimesX;
    if n == 0 {
    } else {
      TimesXInjective(Iter(n - 1, a), Iter(n - 1, b));
      IterInjective(n - 1, a, b);
    }
  }

  lemma {:induction false} IterZero(n: nat)
    ensures Iter(n, 0) == 0
  {
    if n == 0 {
    } else {
      IterZero(n - 1);
    }
  }

  lemma AlphaNonzero(i: nat)
    ensures Alpha(i) != 0
  {
    if Alpha(i) == 0 {
      IterZero(i);
      IterInjective(i, 1, 0);
    }
  }

  // ----- long division is linear, and turns a shift into TimesX -----

  lemma PlusAssociative(p: bv16, q: bv16, d: bv16)
    ensures Plus(Plus(p, q), d) == Plus(p, Plus(q, d))
  {
    assert (p ^ q) ^ d == p ^ (q ^ d);
  }

  lemma PlusCommutative(p: bv16, q: bv16)
    ensures Plus(p, q) == Plus(q, p)
  {}

  lemma PlusZero(p: bv16)
    ensures Plus(p, 0) == p == Plus(0, p) && Plus(p, p) == 0
  {}

  lemma PlusTwice(p: bv16, q: bv16, d: bv16)
    ensures Plus(Plus(p, d), Plus(q, d)) == Plus(p, q)
  {
    assert (p ^ d) ^ (q ^ d) == p ^ q;
  }

  lemma MaskPlus(p: bv16, q: bv16, term: bv16)
    ensures Mask(Plus(p, q), term) == Plus(Mask(p, term), Mask(q, term))
  {
    assert (p ^ q) & term == (p & term) ^ (q & term);
  }

  lemma SingleTerm(p: bv16, k: nat)
    requires k < 7
    ensures Mask(p, Top(k)) == 0 || Mask(p, Top(k)) == Top(k) != 0
  {
    match k case 0 => case 1 => case 2 => case 3 => case 4 => case 5 => case 6 =>
  }

  lemma HasPlus(p: bv16, q: bv16, k: nat)
    requires k < 7
    ensures Has(Plus(p, q), k) <==> Has(p, k) != Has(q, k)
  {
    hide Plus, Mask, Top;
    SingleTerm(p, k);
    SingleTerm(q, k);
    MaskPlus(p, q, Top(k));
    PlusZero(0);
    PlusZero(Top(k));
  }

  lemma CancelPlus(p: bv16, q: bv16, k: nat)
    requires k < 7
    ensures Cancel(Plus(p, q), k) == Plus(Cancel(p, k), Cancel(q, k))
  {
    hide Plus, Divisor, Has;
    var d := Divisor(k);
    HasPlus(p, q, k);
    if Has(p, k) && Has(q, k) {
      PlusTwice(p, q, d);
    } else if Has(p, k) {
      PlusAssociative(p, d, q);
      PlusCommutative(d, q);
      PlusAssociative(p, q, d);
    } else if Has(q, k) {
      PlusAssociative(p, q, d);
    }
  }

  lemma {:induction false} DividePlus(p: bv16, q: bv16, n: nat)
    requires n <= 7
    ensures Divide(Plus(p, q), n) == Plus(Divide(p, n), Divide(q, n))
    decreases n
  {
    hide Cancel, Plus;
    if n == 0 {
    } else {
      CancelPlus(p, q, n - 1);
      DividePlus(Cancel(p, n - 1), Cancel(q, n - 1), n - 1);
    }
  }

  lemma ShiftPlus(p: bv16, q: bv16)
    ensures Plus(Shift(p), Shift(q)) == Shift(Plus(p, q))
  {
    assert (p << 1) ^ (q << 1) == (p ^ q) << 1;
  }

  lemma DivisorShift(k: nat)
    requires k < 6
    ensures Divisor(k + 1) == Shift(Divisor(k))
  {}

  lemma TopShift(k: nat)
    requires k < 6
    ensures Top(k + 1) == Shift(Top(k)) && Below(Top(k), 6)
  {}

  lemma MaskShift(p: bv16, term: bv16)
    requires Below(term, 6)
    ensures Mask(Shift(p), Shift(term)) == 0 <==> Mask(p, term) == 0
  {}

  lemma HasShift(p: bv16, k: nat)
    requires k < 6
    ensures Has(Shift(p), k + 1) == Has(p, k)
  {
    hide Mask, Shift, Top, Below;
    TopShift(k);
    MaskShift(p, Top(k));
  }

  lemma CancelShift(p: bv16, k: nat)
    requires k < 6
    ensures Cancel(Shift(p), k + 1) == Shift(Cancel(p, k))
  {
    hide Plus, Shift, Divisor, Has;
    HasShift(p, k);
    DivisorShift(k);
    ShiftPlus(p, Divisor(k));
  }

  lemma CancelBelow(p: bv16, k: nat)
    requires k < 6 && Below(p, k + 1)
    ensures Below(Cancel(p, k), k)
  {
    if k == 0 {
    } else if k == 1 {
    } else if k == 2 {
    } else if k == 3 {
    } else if k == 4 {
    } else {
    }
  }

  lemma CancelLast(p: bv16)
    requires Below(p, 0)
    ensures Low(Cancel(Shift(p), 0)) == TimesX(Low(p))
  {}

  lemma {:induction false} DivideShift(p: bv16, n: nat)
    requires n < 7 && Below(p, n)
    ensures Low(Divide(Shift(p), n + 1)) == TimesX(Low(Divide(p, n)))
    decreases n
  {
    hide Cancel, TimesX, Plus, Below, Shift, Low;
    if n == 0 {
      CancelLast(p);
    } else {
      CancelBelow(p, n - 1);
      CancelShift(p, n - 1);
      DivideShift(Cancel(p, n - 1), n - 1);
    }
  }

  /** Shift-and-add: the sum of x^k * a over the terms x^k of the lowest `n` of `b`. */
  function ShiftAdd(a: bv8, b: bv8, n: nat): bv8
    decreases n
  {
    if n == 0 then 0 else Add(if b & 1 != 0 then a else 0, ShiftAdd(TimesX(a), b >> 1, n - 1))
  }

  lemma DivideTop(p: bv16)
    requires Below(p, 6)
    ensures Divide(p, 7) == Divide(p, 6)
  {}

  lemma LowPlus(p: bv16, q: bv16)
    ensures Low(Plus(p, q)) == Add(Low(p), Low(q))
  {
    assert (p ^ q) & 0xff == (p & 0xff) ^ (q & 0xff);
  }

  lemma RemainderPlus(p: bv16, q: bv16)
    ensures Remainder(Plus(p, q)) == Add(Remainder(p), Remainder(q))
  {
    hide Plus, Add, Divide, Low;
    DividePlus(p, q, 7);
    LowPlus(Divide(p, 7), Divide(q, 7));
  }

  lemma RemainderShift(p: bv16)
    requires Below(p, 6)
    ensures Remainder(Shift(p)) == TimesX(Remainder(p))
  {
    hide Shift, TimesX, Divide, Low, Below;
    DivideTop(p);
    DivideShift(p, 6);
  }

  lemma ShiftBelow(p: bv16, k: nat)
    requires k < 6 && Below(p, k)
    ensures Below(Shift(p), k + 1)
  {
    match k case 0 => case 1 => case 2 => case 3 => case 4 => case 5 =>
  }

  lemma Below6(p: bv16, k: nat)
    requires k < 7 && Below(p, k)
    ensures Below(p, 6)
  {
    match k case 0 => case 1 => case 2 => case 3 => case 4 => case 5 => case 6 =>
  }

  lemma RemainderZero()
    ensures Remainder(0) == 0
  {
    assert forall k | 0 <= k < 7 :: !Has(0, k);
  }

  lemma {:induction false} ProductIsShiftAdd(p: bv16, b: bv8, n: nat)
    requires 1 <= n <= 8 && (n > 1 ==> Below(p, 8 - n))
    ensures Remainder(Product(p, b, n)) == ShiftAdd(Remainder(p), b, n)
    decreases n
  {
    hide Plus, Add, Remainder, Shift, TimesX, Below;
    RemainderZero();
    var rest := Product(Shift(p), b >> 1, n - 1);
    RemainderPlus(if b & 1 != 0 then p else 0, rest);
    if n > 1 {
      Below6(p, 8 - n);
      RemainderShift(p);
      if n > 2 {
        ShiftBelow(p, 8 - n);
      }
      ProductIsShiftAdd(Shift(p), b >> 1, n - 1);
    }
  }

  lemma MulIsShiftAdd(a: bv8, b: bv8)
    ensures Mul(a, b) == ShiftAdd(a, b, 8)
  {
    var p := a as bv16;
    assert Remainder(p) == a by {
      assert forall k | 0 <= k < 7 :: !Has(p, k);
    }
    ProductIsShiftAdd(p, b, 8);
  }

  // ----- Mul is bilinear, and x^i * b is b multiplied by x, i times over -----

  lemma {:induction false} ShiftAddTimesX(a: bv8, b: bv8, n: nat)
    ensures ShiftAdd(TimesX(a), b, n) == TimesX(ShiftAdd(a, b, n))
    decreases n
  {
    TimesXZero();
    hide Add, TimesX;
    if n == 0 {
    } else {
      ShiftAddTimesX(TimesX(a), b >> 1, n - 1);
      TimesXAdd(if b & 1 != 0 then a else 0, ShiftAdd(TimesX(a), b >> 1, n - 1));
    }
  }

  lemma TimesXZero()
    ensures TimesX(0) == 0 == Add(0, 0)
  {}

  lemma {:induction false} ShiftAddLeft(a: bv8, c: bv8, b: bv8, n: nat)
    ensures ShiftAdd(Add(a, c), b, n) == Add(ShiftAdd(a, b, n), ShiftAdd(c, b, n))
    decreases n
  {
    TimesXZero();
    hide Add, TimesX;
    if n == 0 {
    } else {
      TimesXAdd(a, c);
      ShiftAddLeft(TimesX(a), TimesX(c), b >> 1, n - 1);
      var u, v := if b & 1 != 0 then a else 0, if b & 1 != 0 then c else 0;
      AddSwap(u, ShiftAdd(TimesX(a), b >> 1, n - 1), v, ShiftAdd(TimesX(c), b >> 1, n - 1));
    }
  }

  lemma LowBit(b: bv8, c: bv8)
    ensures Add(b, c) & 1 != 0 <==> (b & 1 != 0) != (c & 1 != 0)
    ensures Add(b, c) >> 1 == Add(b >> 1, c >> 1)
  {
    assert (b ^ c) >> 1 == (b >> 1) ^ (c >> 1);
    assert (b ^ c) & 1 == (b & 1) ^ (c & 1);
    assert (b & 1 == 0 || b & 1 == 1) && (c & 1 == 0 || c & 1 == 1);
  }

  lemma {:induction false} ShiftAddRight(a: bv8, b: bv8, c: bv8, n: nat)
    ensures ShiftAdd(a, Add(b, c), n) == Add(ShiftAdd(a, b, n), ShiftAdd(a, c, n))
    decreases n
  {
    TimesXZero();
    AddLaws(a, a, a);
    AddLaws(0, a, a);
    hide Add, TimesX;
    if n == 0 {
    } else {
      LowBit(b, c);
      ShiftAddRight(TimesX(a), b >> 1, c >> 1, n - 1);
      var u, v := if b & 1 != 0 then a else 0, if c & 1 != 0 then a else 0;
      AddSwap(u, ShiftAdd(TimesX(a), b >> 1, n - 1), v, ShiftAdd(TimesX(a), c >> 1, n - 1));
    }
  }

  /** Multiplication distributes over addition, on both sides. */
  lemma MulDistributes(a: bv8, b: bv8, c: bv8)
    ensures Mul(a, Add(b, c)) == Add(Mul(a, b), Mul(a, c))
    ensures Mul(Add(a, b), c) == Add(Mul(a, c), Mul(b, c))
  {
    hide Mul, ShiftAdd, Add;
    MulIsShiftAdd(a, b);
    MulIsShiftAdd(a, c);
    MulIsShiftAdd(b, c);
    MulIsShiftAdd(a, Add(b, c));
    MulIsShiftAdd(Add(a, b), c);
    ShiftAddRight(a, b, c, 8);
    ShiftAddLeft(a, b, c, 8);
  }

  lemma MulOne(b: bv8)
    ensures Mul(1, b) == b
  {
    hide Mul;
    MulIsShiftAdd(1, b);
  }

  lemma MulTimesX(a: bv8, b: bv8)
    ensures Mul(TimesX(a), b) == TimesX(Mul(a, b))
  {
    hide Mul, ShiftAdd, TimesX;
    MulIsShiftAdd(a, b);
    MulIsShiftAdd(TimesX(a), b);
    ShiftAddTimesX(a, b, 8);
  }

  lemma {:induction false} MulIter(n: nat, a: bv8, b: bv8)
    ensures Mul(Iter(n, a), b) == Iter(n, Mul(a, b))
  {
    hide Mul, TimesX;
    if n == 0 {
    } else {
      MulIter(n - 1, a, b);
      MulTimesX(Iter(n - 1, a), b);
    }
  }

  lemma MulAlpha(n: nat, b: bv8)
    ensures Mul(Alpha(n), b) == Iter(n, b)
  {
    hide Mul, TimesX;
    MulIter(n, 1, b);
    MulOne(b);
  }

  // ----- x has order exactly 255 = 3 * 5 * 17 -----

  lemma Fifteen(a: bv8, b: bv8, c: bv8)
    requires Iter(8, a) == b && Iter(7, b) == c
    ensures Iter(15, a) == c
  {
    hide Iter, TimesX;
    IterTwice(7, 8, a);
  }

  lemma FifteenStepsFrom0()
    ensures Iter(15, 0x01) == 0x26
    ensures Iter(15, 0x26) == 0x60
    ensures Iter(15, 0x60) == 0xc1
    ensures Iter(15, 0xc1) == 0xb9
    ensures Iter(15, 0xb9) == 0x0f
  {
    assert Iter(8, 0x01) == 0x1d && Iter(7, 0x1d) == 0x26;
    assert Iter(8, 0x26) == 0xc9 && Iter(7, 0xc9) == 0x60;
    assert Iter(8, 0x60) == 0x94 && Iter(7, 0x94) == 0xc1;
    assert Iter(8, 0xc1) == 0x28 && Iter(7, 0x28) == 0xb9;
    assert Iter(8, 0xb9) == 0x99 && Iter(7, 0x99) == 0x0f;
    hide Iter, TimesX;
    Fifteen(0x01, 0x1d, 0x26);
    Fifteen(0x26, 0xc9, 0x60);
    Fifteen(0x60, 0x94, 0xc1);
    Fifteen(0xc1, 0x28, 0xb9);
    Fifteen(0xb9, 0x99, 0x0f);
  }

  lemma FifteenStepsFrom75()
    ensures Iter(15, 0x0f) == 0xdf
    ensures Iter(15, 0xdf) == 0x1a
    ensures Iter(15, 0x1a) == 0x3b
    ensures Iter(15, 0x3b) == 0xa9
  {
    assert Iter(8, 0x0f) == 0xbb && Iter(7, 0xbb) == 0xdf;
    assert Iter(8, 0xdf) == 0x43 && Iter(7, 0x43) == 0x1a;
    assert Iter(8, 0x1a) == 0x1f && Iter(7, 0x1f) == 0x3b;
    assert Iter(8, 0x3b) == 0x85 && Iter(7, 0x85) == 0xa9;
    hide Iter, TimesX;
    Fifteen(0x0f, 0xbb, 0xdf);
    Fifteen(0xdf, 0x43, 0x1a);
    Fifteen(0x1a, 0x1f, 0x3b);
    Fifteen(0x3b, 0x85, 0xa9);
  }

  lemma FifteenStepsFrom135()
    ensures Iter(15, 0xa9) == 0x55
    ensures Iter(15, 0x55) == 0x91
    ensures Iter(15, 0x91) == 0x96
    ensures Iter(15, 0x96) == 0x64
  {
    assert Iter(8, 0xa9) == 0x54 && Iter(7, 0x54) == 0x55;
    assert Iter(8, 0x55) == 0xb7 && Iter(7, 0xb7) == 0x91;
    assert Iter(8, 0x91) == 0xf6 && Iter(7, 0xf6) == 0x96;
    assert Iter(8, 0x96) == 0xa5 && Iter(7, 0xa5) == 0x64;
    hide Iter, TimesX;
    Fifteen(0xa9, 0x54, 0x55);
    Fifteen(0x55, 0xb7, 0x91);
    Fifteen(0x91, 0xf6, 0x96);
    Fifteen(0x96, 0xa5, 0x64);
  }

  lemma FifteenStepsFrom195()
    ensures Iter(15, 0x64) == 0x59
    ensures Iter(15, 0x59) == 0x24
    ensures Iter(15, 0x24) == 0x2c
    ensures Iter(15, 0x2c) == 0x01
  {
    assert Iter(8, 0x64) == 0xe0 && Iter(7, 0xe0) == 0x59;
    assert Iter(8, 0x59) == 0x2b && Iter(7, 0x2b) == 0x24;
    assert Iter(8, 0x24) == 0xf3 && Iter(7, 0xf3) == 0x2c;
    assert Iter(8, 0x2c) == 0x1b && Iter(7, 0x1b) == 0x01;
    hide Iter, TimesX;
    Fifteen(0x64, 0xe0, 0x59);
    Fifteen(0x59, 0x2b, 0x24);
    Fifteen(0x24, 0xf3, 0x2c);
    Fifteen(0x2c, 0x1b, 0x01);
  }

  lemma FifteenSteps()
    ensures Iter(15, 0x01) == 0x26
    ensures Iter(15, 0x26) == 0x60
    ensures Iter(15, 0x60) == 0xc1
    ensures Iter(15, 0xc1) == 0xb9
    ensures Iter(15, 0xb9) == 0x0f
    ensures Iter(15, 0x0f) == 0xdf
    ensures Iter(15, 0xdf) == 0x1a
    ensures Iter(15, 0x1a) == 0x3b
    ensures Iter(15, 0x3b) == 0xa9
    ensures Iter(15, 0xa9) == 0x55
    ensures Iter(15, 0x55) == 0x91
    ensures Iter(15, 0x91) == 0x96
    ensures Iter(15, 0x96) == 0x64
    ensures Iter(15, 0x64) == 0x59
    ensures Iter(15, 0x59) == 0x24
    ensures Iter(15, 0x24) == 0x2c
    ensures Iter(15, 0x2c) == 0x01
  {
    hide Iter, TimesX;
    FifteenStepsFrom0();
    FifteenStepsFrom75();
    FifteenStepsFrom135();
    FifteenStepsFrom195();
  }

  lemma OtherSteps()
    ensures Iter(6, 0xc1) == 0x0a
    ensures Iter(12, 0xdf) == 0x44
    ensures Iter(3, 0x55) == 0x92
    ensures Iter(9, 0x64) == 0xdd
    ensures Iter(10, 0x0f) == 0xd6
    ensures Iter(5, 0x91) == 0xd7
  {}

  /** The multiples of 15: x^(15 j) is back at 1 when j = 17, and not before. */
  lemma Multiples15()
    ensures Alpha(15) == 0x26
    ensures Alpha(30) == 0x60
    ensures Alpha(45) == 0xc1
    ensures Alpha(60) == 0xb9
    ensures Alpha(75) == 0x0f
    ensures Alpha(90) == 0xdf
    ensures Alpha(105) == 0x1a
    ensures Alpha(120) == 0x3b
    ensures Alpha(135) == 0xa9
    ensures Alpha(150) == 0x55
    ensures Alpha(165) == 0x91
    ensures Alpha(180) == 0x96
    ensures Alpha(195) == 0x64
    ensures Alpha(210) == 0x59
    ensures Alpha(225) == 0x24
    ensures Alpha(240) == 0x2c
    ensures Alpha(255) == 0x01
  {
    assert Iter(0, 1) == 1;
    hide TimesX, Iter;
    FifteenSteps();
    IterTwice(15, 0, 1);
    IterTwice(15, 15, 1);
    IterTwice(15, 30, 1);
    IterTwice(15, 45, 1);
    IterTwice(15, 60, 1);
    IterTwice(15, 75, 1);
    IterTwice(15, 90, 1);
    IterTwice(15, 105, 1);
    IterTwice(15, 120, 1);
    IterTwice(15, 135, 1);
    IterTwice(15, 150, 1);
    IterTwice(15, 165, 1);
    IterTwice(15, 180, 1);
    IterTwice(15, 195, 1);
    IterTwice(15, 210, 1);
    IterTwice(15, 225, 1);
    IterTwice(15, 240, 1);
  }

  lemma Alpha255()
    ensures Alpha(255) == 1
  {
    hide TimesX, Iter;
    Multiples15();
  }

  /** The multiples of 51 and of 85 below 255. */
  lemma Multiples51And85()
    ensures Alpha(51) == 0x0a
    ensures Alpha(102) == 0x44
    ensures Alpha(153) == 0x92
    ensures Alpha(204) == 0xdd
    ensures Alpha(85) == 0xd6
    ensures Alpha(170) == 0xd7
  {
    hide TimesX, Iter;
    Multiples15();
    OtherSteps();
    IterTwice(6, 45, 1);
    IterTwice(12, 90, 1);
    IterTwice(3, 150, 1);
    IterTwice(9, 195, 1);
    IterTwice(10, 75, 1);
    IterTwice(5, 165, 1);
  }

  lemma {:induction false} IterPeriod(d: nat, q: nat, r: nat)
    requires Alpha(d) == 1
    ensures Alpha(d * q + r) == Alpha(r)
  {
    hide TimesX;
    if q == 0 {
    } else {
      IterPeriod(d, q - 1, r);
      assert d * q + r == (d * (q - 1) + r) + d;
      IterTwice(d * (q - 1) + r, d, 1);
    }
  }

  /** If x^d is 1 then so is x^(d m), and with it x^(d m mod 255). */
  lemma PowerOfOne(d: nat, m: nat, q: nat, r: nat)
    requires Alpha(d) == 1 && d * m == 255 * q + r
    ensures Alpha(r) == 1
  {
    AlphaZero();
    Alpha255();
    hide TimesX, Iter, Alpha;
    IterPeriod(d, m, 0);
    IterPeriod(255, q, r);
  }

  /** 255 = 3 * 5 * 17 and x^85, x^51 and x^15 are not 1, so no smaller power is. */
  lemma OrderOfX(d: nat)
    requires 0 < d < 255
    ensures Alpha(d) != 1
  {
    hide Iter, TimesX;
    if Alpha(d) == 1 {
      CommonMultiple(d);
      if d % 3 != 0 {
        PowerOfOne(d, 85, d / 3, 85 * (d % 3));
        NotOne85(d % 3);
      } else if d % 5 != 0 {
        PowerOfOne(d, 51, d / 5, 51 * (d % 5));
        NotOne51(d % 5);
      } else {
        PowerOfOne(d, 15, d / 17, 15 * (d % 17));
        NotOne15(d % 17);
      }
    }
  }

  lemma NotOne85(k: nat)
    requires 0 < k < 3
    ensures Alpha(85 * k) != 1
  {
    Multiples51And85();
    hide Iter, TimesX;
    assert k == 1 || k == 2;
  }

  lemma NotOne51(k: nat)
    requires 0 < k < 5
    ensures Alpha(51 * k) != 1
  {
    Multiples51And85();
    hide Iter, TimesX;
    assert k == 1 || k == 2 || k == 3 || k == 4;
  }

  lemma NotOne15(k: nat)
    requires 0 < k < 17
    ensures Alpha(15 * k) != 1
  {
    Multiples15();
    hide Iter, TimesX;
    if k < 9 {
      assert k == 1 || k == 2 || k == 3 || k == 4 || k == 5 || k == 6 || k == 7 || k == 8;
    } else {
      assert k == 9 || k == 10 || k == 11 || k == 12 || k == 13 || k == 14 || k == 15 || k == 16;
    }
  }

  lemma CommonMultiple(d: nat)
    requires 0 < d < 255
    ensures d % 3 != 0 || d % 5 != 0 || d % 17 != 0
  {
    if d % 3 == 0 && d % 5 == 0 {
      var e := 2 * (d / 5) - d / 3;
      assert d == 15 * e;
    }
  }

  /** The powers of x below 255 are distinct. */
  lemma AlphaInjective(i: nat, j: nat)
    requires i < 255 && j < 255 && Alpha(i) == Alpha(j)
    ensures i == j
  {
    hide TimesX;
    if i < j {
      IterTwice(i, j - i, 1);
      IterInjective(i, 1, Alpha(j - i));
      OrderOfX(j - i);
    } else if j < i {
      AlphaInjective(j, i);
    }
  }

  // ----- so they are all 255 nonzero elements, and every one has a logarithm -----

  ghost function UpTo(n: nat): set<int> {
    if n == 0 then {} else UpTo(n - 1) + {n}
  }

  lemma {:induction false} UpToMembers(n: nat, k: int)
    ensures k in UpTo(n) <==> 1 <= k <= n
  {
    if n == 0 {
    } else {
      UpToMembers(n - 1, k);
    }
  }

  lemma {:induction false} UpToSize(n: nat)
    ensures |UpTo(n)| == n
  {
    if n == 0 {
    } else {
      UpToSize(n - 1);
      UpToMembers(n - 1, n);
    }
  }

  ghost function AlphaInt(i: nat): int { Alpha(i) as int }

  ghost function Reached(n: nat): set<int> { set i | 0 <= i < n :: AlphaInt(i) }

  lemma AlphaIntInjective(i: nat, j: nat)
    requires i < 255 && j < 255 && AlphaInt(i) == AlphaInt(j)
    ensures i == j
  {
    hide Alpha;
    AlphaInjective(i, j);
  }

  lemma AlphaIntRange(i: nat)
    ensures 1 <= AlphaInt(i) <= 255
  {
    hide Alpha;
    AlphaNonzero(i);
  }

  lemma {:induction false} ReachedSize(n: nat)
    requires n <= 255
    ensures |Reached(n)| == n && Reached(n) <= UpTo(255)
  {
    hide AlphaInt, UpTo;
    if n == 0 {
    } else {
      ReachedSize(n - 1);
      var value := AlphaInt(n - 1);
      AlphaIntRange(n - 1);
      UpToMembers(255, value);
      assert value !in Reached(n - 1) by {
        if value in Reached(n - 1) {
          var i :| 0 <= i < n - 1 && AlphaInt(i) == value;
          AlphaIntInjective(i, n - 1);
        }
      }
      assert Reached(n) == Reached(n - 1) + {value};
    }
  }

  lemma SubsetOfSameSize(a: set<int>, b: set<int>)
    requires a <= b && |a| == |b|
    ensures a == b
  {
    assert b == a + (b - a);
  }

  lemma LogExists(a: bv8)
    requires a != 0
    ensures exists i :: 0 <= i < 255 && Alpha(i) == a
  {
    hide Iter, TimesX, UpTo;
    ReachedSize(255);
    UpToSize(255);
    UpToMembers(255, a as int);
    SubsetOfSameSize(Reached(255), UpTo(255));
    assert a as int in Reached(255);
    var i :| 0 <= i < 255 && AlphaInt(i) == a as int;
    assert Alpha(i) == a;
  }

  /** The discrete logarithm of `a`. */
  ghost function Log(a: bv8): (i: nat)
    requires a != 0
    ensures i < 255 && Alpha(i) == a
  {
    LogExists(a);
    var i :| 0 <= i < 255 && Alpha(i) == a;
    i
  }

  // ----- the field laws -----

  lemma AsPower(a: bv8, b: bv8)
    requires a != 0
    ensures Mul(a, b) == Iter(Log(a), b)
  {
    hide Mul, TimesX;
    MulAlpha(Log(a), b);
  }

  lemma MulZero(a: bv8)
    ensures Mul(0, a) == 0 == Mul(a, 0)
  {
    hide Mul, TimesX, Add;
    MulIsShiftAdd(0, a);
    ShiftAddLeft(0, 0, a, 8);
    MulDistributes(0, 0, a);
    MulDistributes(a, 0, 0);
    AddLaws(Mul(0, a), Mul(0, a), 0);
    AddLaws(Mul(a, 0), Mul(a, 0), 0);
    AddLaws(0, 0, 0);
  }

  /** The product of two powers of x adds their exponents, modulo 255. */
  lemma MulAlphas(i: nat, j: nat)
    ensures Mul(Alpha(i), Alpha(j)) == Alpha(i + j) == Alpha((i + j) % 255)
  {
    hide Mul, TimesX;
    MulAlpha(i, Alpha(j));
    IterTwice(i, j, 1);
    AlphaModulo(i + j);
  }

  lemma AlphaModulo(i: nat)
    ensures Alpha(i) == Alpha(i % 255)
  {
    Alpha255();
    hide TimesX, Iter, Alpha;
    IterPeriod(255, i / 255, i % 255);
  }

  lemma MulCommutes(a: bv8, b: bv8)
    ensures Mul(a, b) == Mul(b, a)
  {
    hide Mul, TimesX;
    if a == 0 {
      MulZero(b);
    } else if b == 0 {
      MulZero(a);
    } else {
      MulAlphas(Log(a), Log(b));
      MulAlphas(Log(b), Log(a));
    }
  }

  lemma MulAssociates(a: bv8, b: bv8, c: bv8)
    ensures Mul(Mul(a, b), c) == Mul(a, Mul(b, c))
  {
    hide Mul, TimesX;
    if a == 0 {
      MulZero(b);
      MulZero(c);
      MulZero(Mul(b, c));
    } else {
      AsPower(a, b);
      AsPower(a, Mul(b, c));
      MulIter(Log(a), b, c);
    }
  }

  lemma NoZeroDivisors(a: bv8, b: bv8)
    requires Mul(a, b) == 0
    ensures a == 0 || b == 0
  {
    hide Mul, TimesX;
    if a != 0 {
      AsPower(a, b);
      IterZero(Log(a));
      IterInjective(Log(a), b, 0);
    }
  }

  // ----- the source's tables -----

  /** EXP and LOG, filled once when the module is loaded. */
  class Tables {
    const exp: array<bv8>
    const log: array<nat>

    /** EXP lists the powers of x, and LOG undoes it. */
    ghost predicate Valid()
      reads exp, log
    {
      && exp.Length == 512 && log.Length == 256
      && (forall i :: 0 <= i < 512 ==> exp[i] == Alpha(i))
      && (forall i :: 0 <= i < 255 ==> 0 <= AlphaInt(i) < 256 && log[AlphaInt(i)] == i)
    }

    constructor ()
      ensures Valid() && fresh(exp) && fresh(log)
    {
      exp := new bv8[512];
      log := new nat[256];
      new;
      var x: bv16 := 1;
      FirstPower();
      hide Alpha, AlphaInt, IsPower, Low, Index, Doubled;
      for i := 0 to 255
        invariant IsPower(x, i)
        invariant forall j :: 0 <= j < i ==> exp[j] == Alpha(j)
        invariant forall j :: 0 <= j < i ==> 0 <= AlphaInt(j) < 256 && log[AlphaInt(j)] == j
      {
        FreshPower(i, x);
        exp[i] := Low(x);
        log[Index(x)] := i;
        NextPower(i, x);
        x := Doubled(x);
      }
      for i := 255 to 512
        invariant forall j :: 0 <= j < i ==> exp[j] == Alpha(j)
        invariant forall j :: 0 <= j < 255 ==> 0 <= AlphaInt(j) < 256 && log[AlphaInt(j)] == j
      {
        AlphaModulo(i);
        AlphaModulo(i - 255);
        exp[i] := exp[i - 255];
      }
    }

    /** The source's product is the field's. */
    function Times(a: bv8, b: bv8): (r: bv8)
      requires Valid()
      reads exp, log
      ensures r == Mul(a, b)
    {
      hide Mul, Iter, TimesX;
      if a == 0 || b == 0 then
        MulZero(a);
        MulZero(b);
        0
      else
        MulAlphas(Log(a), Log(b));
        assert log[AlphaInt(Log(a))] == Log(a) && log[AlphaInt(Log(b))] == Log(b);
        exp[(log[a as int] + log[b as int]) % 255]
    }
  }

  function Index(x: bv16): nat { x as nat }

  /** Shifted left, and reduced when the shift carries out of eight bits. */
  function Doubled(x: bv16): bv16 {
    var y := x << 1;
    if y & 0x100 != 0 then y ^ 0x11d else y
  }

  /** The loop's `x` is x^i. */
  ghost predicate IsPower(x: bv16, i: nat) {
    x < 0x100 && x as bv8 == Alpha(i)
  }

  lemma AlphaZero()
    ensures Alpha(0) == 1
  {}

  lemma FirstPower()
    ensures IsPower(1, 0)
  {}

  /** x^i, with i < 255, is none of the powers before it. */
  lemma FreshPower(i: nat, x: bv16)
    requires i < 255 && IsPower(x, i)
    ensures Low(x) == Alpha(i) && Index(x) == AlphaInt(i) < 256 && forall j :: 0 <= j < i ==> AlphaInt(j) != AlphaInt(i)
  {
    LowOfByte(x);
    hide Alpha, Low;
    assert x as bv8 as int == x as int;
    forall j | 0 <= j < i ensures AlphaInt(j) != AlphaInt(i) {
      if AlphaInt(j) == AlphaInt(i) {
        AlphaIntInjective(i, j);
      }
    }
  }

  lemma LowOfByte(x: bv16)
    requires x < 0x100
    ensures Low(x) == x as bv8
  {}

  lemma NextPower(i: nat, x: bv16)
    requires IsPower(x, i)
    ensures IsPower(Doubled(x), i + 1)
  {
    var a := x as bv8;
    assert Alpha(i + 1) == TimesX(a);
    Doubling(x);
  }

  lemma Doubling(x: bv16)
    requires x < 0x100
    ensures Doubled(x) < 0x100 && Doubled(x) as bv8 == TimesX(x as bv8)
  {}
}
