/** The format word and the version word: BCH codes that tell a reader how to read the rest
    (packages/designer-runtime/src/qr.ts:235-268). */
module FormatWords {
  import opened Capacity
  import opened Lists
  import opened Outcomes

  type Mask = m: int | 0 <= m < 8 witness 0

  function EcBits(level: EcLevel): bv16 {
    match level case L => 1 case M => 0 case Q => 3 case H => 2
  }

  const FORMAT_MASK: bv16 := 0x5412

  function FormatData(level: EcLevel, mask: Mask): bv16 {
    (EcBits(level) << 3) | mask as bv16
  }

  // ----- the code, as polynomial division -----

  function Xor(a: bv16, b: bv16): bv16 { a ^ b }

  /** One step of long division: cancels the term `term`, if it is there, with `divisor`. */
  function Cancel(p: bv16, term: bv16, divisor: bv16): bv16 {
    if And(p, term) != 0 then Xor(p, divisor) else p
  }

  function And(p: bv16, q: bv16): bv16 { p & q }

  function Times10(p: bv16): bv16 { p << 10 }

  /** The remainder of `data` * x^10 by x^10 + x^8 + x^5 + x^4 + x^2 + x + 1. */
  function FormatRemainder(data: bv16): bv16 {
    var p := Cancel(Times10(data), 0x4000, 0x5370);
    var p := Cancel(p, 0x2000, 0x29b8);
    var p := Cancel(p, 0x1000, 0x14dc);
    var p := Cancel(p, 0x0800, 0x0a6e);
    Cancel(p, 0x0400, 0x0537)
  }

  /** The systematic codeword of five data bits. */
  function FormatCode(data: bv16): bv16 {
    Systematic10(data, FormatRemainder(data))
  }

  function Systematic10(data: bv16, remainder: bv16): bv16 {
    (data << 10) | remainder
  }

  function FormatWord(level: EcLevel, mask: Mask): bv16 {
    Xor(FormatCode(FormatData(level, mask)), FORMAT_MASK)
  }

  /** What the source's loop makes of the data in `n` rounds. */
  function Rounds(data: bv16, n: nat): bv16 {
    if n == 0 then data else Round(Rounds(data, n - 1))
  }

  function Round(value: bv16): bv16 {
    (value << 1) ^ ((value >> 9) * 0x537)
  }

  /** The loop divides: the source's ten rounds leave the remainder. */
  lemma RoundsAreDivision(data: bv16)
    requires data < 32
    ensures Rounds(data, 10) == FormatRemainder(data)
  {
    EarlyRounds(data);
    LateRounds(data << 5, data);
  }

  lemma EarlyRounds(data: bv16)
    requires data < 32
    ensures Rounds(data, 5) == data << 5
  {
    assert Rounds(data, 1) == data << 1;
    assert Rounds(data, 2) == data << 2;
    assert Rounds(data, 3) == data << 3;
    assert Rounds(data, 4) == data << 4;
  }

  lemma LateRounds(value: bv16, data: bv16)
    requires data < 32 && value == data << 5 && Rounds(data, 5) == value
    ensures Rounds(data, 10) == FormatRemainder(data)
  {
    assert Rounds(data, 6) == Round(value);
    assert Rounds(data, 7) == Round(Round(value));
    assert Rounds(data, 8) == Round(Round(Round(value)));
    assert Rounds(data, 9) == Round(Round(Round(Round(value))));
  }

  lemma CancelLinear(p: bv16, q: bv16, term: bv16, divisor: bv16)
    requires term == 0x4000 || term == 0x2000 || term == 0x1000 || term == 0x0800 || term == 0x0400
    ensures Xor(Cancel(p, term, divisor), Cancel(q, term, divisor)) == Cancel(Xor(p, q), term, divisor)
  {
    hide Xor, And;
    OneTerm(p, q, term);
    XorSwap(p, q, divisor, divisor);
    XorCommutes(divisor, divisor);
    XorCommutes(Xor(p, q), 0);
    XorAssociates(p, divisor, q);
    XorAssociates(p, q, divisor);
    XorCommutes(divisor, q);
  }

  lemma OneTerm(p: bv16, q: bv16, term: bv16)
    requires term == 0x4000 || term == 0x2000 || term == 0x1000 || term == 0x0800 || term == 0x0400
    ensures And(Xor(p, q), term) != 0 <==> (And(p, term) != 0) != (And(q, term) != 0)
  {
    assert (p ^ q) & term == (p & term) ^ (q & term);
    assert p & term == 0 || p & term == term;
    assert q & term == 0 || q & term == term;
  }

  lemma XorAssociates(p: bv16, q: bv16, d: bv16)
    ensures Xor(Xor(p, q), d) == Xor(p, Xor(q, d))
  {}

  lemma XorCommutes(p: bv16, q: bv16)
    ensures Xor(p, q) == Xor(q, p) && Xor(p, p) == 0 && Xor(p, 0) == p
  {}

  lemma XorSwap(p: bv16, q: bv16, d: bv16, e: bv16)
    ensures Xor(Xor(p, d), Xor(q, e)) == Xor(Xor(p, q), Xor(d, e))
  {
    hide Xor;
    XorAssociates(p, d, Xor(q, e));
    XorAssociates(d, q, e);
    XorCommutes(d, q);
    XorAssociates(q, d, e);
    XorAssociates(p, q, Xor(d, e));
  }

  lemma RemainderLinear(a: bv16, b: bv16)
    ensures Xor(FormatRemainder(a), FormatRemainder(b)) == FormatRemainder(Xor(a, b))
  {
    Times10Linear(a, b);
    hide Xor, Cancel, Times10;
    var p, q := Times10(a), Times10(b);
    CancelLinear(p, q, 0x4000, 0x5370);
    p, q := Cancel(p, 0x4000, 0x5370), Cancel(q, 0x4000, 0x5370);
    CancelLinear(p, q, 0x2000, 0x29b8);
    p, q := Cancel(p, 0x2000, 0x29b8), Cancel(q, 0x2000, 0x29b8);
    CancelLinear(p, q, 0x1000, 0x14dc);
    p, q := Cancel(p, 0x1000, 0x14dc), Cancel(q, 0x1000, 0x14dc);
    CancelLinear(p, q, 0x0800, 0x0a6e);
    p, q := Cancel(p, 0x0800, 0x0a6e), Cancel(q, 0x0800, 0x0a6e);
    CancelLinear(p, q, 0x0400, 0x0537);
  }

  lemma Times10Linear(a: bv16, b: bv16)
    ensures Xor(Times10(a), Times10(b)) == Times10(Xor(a, b))
  {}

  lemma CancelLowers(p: bv16, term: bv16, divisor: bv16)
    requires (term == 0x4000 && divisor == 0x5370) || (term == 0x2000 && divisor == 0x29b8)
             || (term == 0x1000 && divisor == 0x14dc) || (term == 0x0800 && divisor == 0x0a6e)
             || (term == 0x0400 && divisor == 0x0537)
    requires p < term << 1
    ensures Cancel(p, term, divisor) < term
  {
    if term == 0x4000 {
    } else if term == 0x2000 {
    } else if term == 0x1000 {
    } else if term == 0x0800 {
    } else {
    }
  }

  lemma Times10Small(a: bv16)
    requires a < 32
    ensures Times10(a) < 0x8000
  {}

  lemma RemainderSmall(a: bv16)
    requires a < 32
    ensures FormatRemainder(a) < 0x400
  {
    Times10Small(a);
    hide Cancel, Times10;
    var p := Times10(a);
    CancelLowers(p, 0x4000, 0x5370);
    p := Cancel(p, 0x4000, 0x5370);
    CancelLowers(p, 0x2000, 0x29b8);
    p := Cancel(p, 0x2000, 0x29b8);
    CancelLowers(p, 0x1000, 0x14dc);
    p := Cancel(p, 0x1000, 0x14dc);
    CancelLowers(p, 0x0800, 0x0a6e);
    p := Cancel(p, 0x0800, 0x0a6e);
    CancelLowers(p, 0x0400, 0x0537);
  }

  lemma SystematicIsSum(a: bv16, r: bv16)
    requires a < 32 && r < 0x400
    ensures Systematic10(a, r) == Xor(Times10(a), r)
  {}

  lemma SmallSum(r: bv16, s: bv16)
    ensures r < 0x400 && s < 0x400 ==> Xor(r, s) < 0x400
    ensures r < 32 && s < 32 ==> Xor(r, s) < 32
  {}

  lemma SystematicSum(a: bv16, r: bv16, b: bv16, s: bv16)
    requires a < 32 && b < 32 && r < 0x400 && s < 0x400
    ensures Xor(Systematic10(a, r), Systematic10(b, s)) == Systematic10(Xor(a, b), Xor(r, s))
  {
    hide Xor, Systematic10, Times10;
    SystematicIsSum(a, r);
    SystematicIsSum(b, s);
    XorSwap(Times10(a), Times10(b), r, s);
    Times10Linear(a, b);
    SmallSum(r, s);
    SmallSum(a, b);
    SystematicIsSum(Xor(a, b), Xor(r, s));
  }

  /** The code is linear: the sum of two codewords is the codeword of the sum. */
  lemma CodeLinear(a: bv16, b: bv16)
    requires a < 32 && b < 32
    ensures Xor(FormatCode(a), FormatCode(b)) == FormatCode(Xor(a, b))
  {
    RemainderSmall(a);
    RemainderSmall(b);
    RemainderLinear(a, b);
    hide FormatRemainder, Xor, Systematic10;
    SystematicSum(a, FormatRemainder(a), b, FormatRemainder(b));
  }

  // ----- the thirty-two format strings are at distance seven -----

  /** The `n` low bits, the lowest first. */
  function LowBits(w: bv16, n: nat): (r: seq<bool>)
    ensures |r| == n
    decreases n
  {
    if n == 0 then [] else [w & 1 == 1] + LowBits(w >> 1, n - 1)
  }

  predicate ShiftBit(w: bv16, i: nat)
    requires i < 16
  {
    (w >> i) & 1 == 1
  }

  lemma ShiftOn(w: bv16, i: nat)
    requires i < 15
    ensures ShiftBit(w >> 1, i) == ShiftBit(w, i + 1)
  {
    match i
    case 0 => case 1 => case 2 => case 3 => case 4 => case 5 => case 6 => case 7 => case 8 => case 9 =>
    case 10 => case 11 => case 12 => case 13 => case 14 =>
  }

  lemma {:induction false} LowBitsAt(w: bv16, n: nat, i: nat)
    requires i < n <= 15
    ensures LowBits(w, n)[i] == ShiftBit(w, i)
    decreases n
  {
    if i == 0 {
      assert w >> 0 == w;
    } else {
      LowBitsAt(w >> 1, n - 1, i - 1);
      ShiftOn(w, i - 1);
    }
  }

  function Weight(w: bv16, n: nat): nat
    decreases n
  {
    if n == 0 then 0 else (if w & 1 == 1 then 1 else 0) + Weight(w >> 1, n - 1)
  }

  lemma LowestOfXor(a: bv16, b: bv16)
    ensures Xor(a, b) & 1 == 1 <==> (a & 1 == 1) != (b & 1 == 1)
  {
    assert (a ^ b) & 1 == (a & 1) ^ (b & 1);
  }

  lemma UpperOfXor(a: bv16, b: bv16)
    ensures Xor(a, b) >> 1 == Xor(a >> 1, b >> 1)
  {}

  lemma {:induction false} DistanceIsWeight(a: bv16, b: bv16, n: nat)
    ensures Distance(LowBits(a, n), LowBits(b, n)) == Weight(Xor(a, b), n)
    decreases n
  {
    hide Xor;
    if n == 0 {
    } else {
      LowestOfXor(a, b);
      UpperOfXor(a, b);
      DistanceIsWeight(a >> 1, b >> 1, n - 1);
      assert LowBits(a, n)[1..] == LowBits(a >> 1, n - 1) && LowBits(b, n)[1..] == LowBits(b >> 1, n - 1);
    }
  }

  /** The weight of the five lowest bits. */
  function Five(w: bv16): nat {
    (if w & 1 != 0 then 1 else 0) + (if w & 2 != 0 then 1 else 0) + (if w & 4 != 0 then 1 else 0)
    + (if w & 8 != 0 then 1 else 0) + (if w & 16 != 0 then 1 else 0)
  }

  lemma WeightByFives(w: bv16, n: nat)
    ensures Weight(w, n + 5) == Five(w) + Weight(w >> 5, n)
  {
    assert Weight(w, n + 5) == (if w & 1 != 0 then 1 else 0) + Weight(w >> 1, n + 4);
    assert Weight(w >> 1, n + 4) == (if w & 2 != 0 then 1 else 0) + Weight(w >> 2, n + 3);
    assert Weight(w >> 2, n + 3) == (if w & 4 != 0 then 1 else 0) + Weight(w >> 3, n + 2);
    assert Weight(w >> 3, n + 2) == (if w & 8 != 0 then 1 else 0) + Weight(w >> 4, n + 1);
    assert Weight(w >> 4, n + 1) == (if w & 16 != 0 then 1 else 0) + Weight(w >> 5, n);
  }

  lemma Weight15(w: bv16)
    ensures Weight(w, 15) == Five(w) + Five(w >> 5) + Five(w >> 10)
  {
    hide Five;
    WeightByFives(w, 10);
    WeightByFives(w >> 5, 5);
    WeightByFives(w >> 10, 0);
  }

  lemma Codes0()
    ensures FormatCode(1) == 0x0537 && Five(0x0537) + Five(0x0537 >> 5) + Five(0x0537 >> 10) == 7
    ensures FormatCode(2) == 0x0a6e && Five(0x0a6e) + Five(0x0a6e >> 5) + Five(0x0a6e >> 10) == 7
    ensures FormatCode(3) == 0x0f59 && Five(0x0f59) + Five(0x0f59 >> 5) + Five(0x0f59 >> 10) == 8
    ensures FormatCode(4) == 0x11eb && Five(0x11eb) + Five(0x11eb >> 5) + Five(0x11eb >> 10) == 8
    ensures FormatCode(5) == 0x14dc && Five(0x14dc) + Five(0x14dc >> 5) + Five(0x14dc >> 10) == 7
    ensures FormatCode(6) == 0x1b85 && Five(0x1b85) + Five(0x1b85 >> 5) + Five(0x1b85 >> 10) == 7
    ensures FormatCode(7) == 0x1eb2 && Five(0x1eb2) + Five(0x1eb2 >> 5) + Five(0x1eb2 >> 10) == 8
  {}

  lemma Codes8()
    ensures FormatCode(8) == 0x23d6 && Five(0x23d6) + Five(0x23d6 >> 5) + Five(0x23d6 >> 10) == 8
    ensures FormatCode(9) == 0x26e1 && Five(0x26e1) + Five(0x26e1 >> 5) + Five(0x26e1 >> 10) == 7
    ensures FormatCode(10) == 0x29b8 && Five(0x29b8) + Five(0x29b8 >> 5) + Five(0x29b8 >> 10) == 7
    ensures FormatCode(11) == 0x2c8f && Five(0x2c8f) + Five(0x2c8f >> 5) + Five(0x2c8f >> 10) == 8
    ensures FormatCode(12) == 0x323d && Five(0x323d) + Five(0x323d >> 5) + Five(0x323d >> 10) == 8
    ensures FormatCode(13) == 0x370a && Five(0x370a) + Five(0x370a >> 5) + Five(0x370a >> 10) == 7
    ensures FormatCode(14) == 0x3853 && Five(0x3853) + Five(0x3853 >> 5) + Five(0x3853 >> 10) == 7
    ensures FormatCode(15) == 0x3d64 && Five(0x3d64) + Five(0x3d64 >> 5) + Five(0x3d64 >> 10) == 8
  {}

  lemma Codes16()
    ensures FormatCode(16) == 0x429b && Five(0x429b) + Five(0x429b >> 5) + Five(0x429b >> 10) == 7
    ensures FormatCode(17) == 0x47ac && Five(0x47ac) + Five(0x47ac >> 5) + Five(0x47ac >> 10) == 8
    ensures FormatCode(18) == 0x48f5 && Five(0x48f5) + Five(0x48f5 >> 5) + Five(0x48f5 >> 10) == 8
    ensures FormatCode(19) == 0x4dc2 && Five(0x4dc2) + Five(0x4dc2 >> 5) + Five(0x4dc2 >> 10) == 7
    ensures FormatCode(20) == 0x5370 && Five(0x5370) + Five(0x5370 >> 5) + Five(0x5370 >> 10) == 7
    ensures FormatCode(21) == 0x5647 && Five(0x5647) + Five(0x5647 >> 5) + Five(0x5647 >> 10) == 8
    ensures FormatCode(22) == 0x591e && Five(0x591e) + Five(0x591e >> 5) + Five(0x591e >> 10) == 8
    ensures FormatCode(23) == 0x5c29 && Five(0x5c29) + Five(0x5c29 >> 5) + Five(0x5c29 >> 10) == 7
  {}

  lemma Codes24()
    ensures FormatCode(24) == 0x614d && Five(0x614d) + Five(0x614d >> 5) + Five(0x614d >> 10) == 7
    ensures FormatCode(25) == 0x647a && Five(0x647a) + Five(0x647a >> 5) + Five(0x647a >> 10) == 8
    ensures FormatCode(26) == 0x6b23 && Five(0x6b23) + Five(0x6b23 >> 5) + Five(0x6b23 >> 10) == 8
    ensures FormatCode(27) == 0x6e14 && Five(0x6e14) + Five(0x6e14 >> 5) + Five(0x6e14 >> 10) == 7
    ensures FormatCode(28) == 0x70a6 && Five(0x70a6) + Five(0x70a6 >> 5) + Five(0x70a6 >> 10) == 7
    ensures FormatCode(29) == 0x7591 && Five(0x7591) + Five(0x7591 >> 5) + Five(0x7591 >> 10) == 8
    ensures FormatCode(30) == 0x7ac8 && Five(0x7ac8) + Five(0x7ac8 >> 5) + Five(0x7ac8 >> 10) == 8
    ensures FormatCode(31) == 0x7fff && Five(0x7fff) + Five(0x7fff >> 5) + Five(0x7fff >> 10) == 15
  {}

  /** No codeword but zero is lighter than seven. */
  lemma CodeWeight(d: bv16)
    requires 0 < d < 32
    ensures Weight(FormatCode(d), 15) >= 7
  {
    Weight15(FormatCode(d));
    hide Weight, FormatCode, Five;
    if d < 8 {
      Codes0();
    } else if d < 16 {
      Codes8();
    } else if d < 24 {
      Codes16();
    } else {
      Codes24();
    }
  }

  function FormatBits(level: EcLevel, mask: Mask): (r: seq<bool>)
    ensures |r| == 15
  {
    LowBits(FormatWord(level, mask), 15)
  }

  lemma XorCancels(a: bv16, b: bv16, m: bv16)
    ensures Xor(Xor(a, m), Xor(b, m)) == Xor(a, b)
  {
    assert (a ^ m) ^ (b ^ m) == a ^ b;
  }

  lemma DataInjective(l1: EcLevel, m1: Mask, l2: EcLevel, m2: Mask)
    requires l1 != l2 || m1 != m2
    ensures FormatData(l1, m1) < 32 && FormatData(l2, m2) < 32 && 0 < Xor(FormatData(l1, m1), FormatData(l2, m2)) < 32
  {
    var a, b := m1 as bv16, m2 as bv16;
    assert a < 8 && b < 8 && (m1 != m2 ==> a != b);
  }

  /** Any two of the thirty-two format strings differ in at least seven places. */
  lemma FormatDistance(l1: EcLevel, m1: Mask, l2: EcLevel, m2: Mask)
    requires l1 != l2 || m1 != m2
    ensures Distance(FormatBits(l1, m1), FormatBits(l2, m2)) >= 7
  {
    var a, b := FormatData(l1, m1), FormatData(l2, m2);
    DataInjective(l1, m1, l2, m2);
    hide Xor, FormatCode, FormatData, Weight, LowBits, Distance;
    DistanceIsWeight(FormatWord(l1, m1), FormatWord(l2, m2), 15);
    XorCancels(FormatCode(a), FormatCode(b), FORMAT_MASK);
    CodeLinear(a, b);
    CodeWeight(Xor(a, b));
  }

  // ----- reading a format string, damaged or not -----

  datatype Format = Format(level: EcLevel, mask: Mask)

  function FormatOf(k: nat): Format
    requires k < 32
  {
    Format([L, M, Q, H][k / 8], k % 8)
  }

  /** The thirty-two format strings as annex C of ISO/IEC 18004:2015 prints them, by level and then mask. */
  function PublishedFormat(level: EcLevel, mask: Mask): bv16 {
    match level
    case L => [0x77c4, 0x72f3, 0x7daa, 0x789d, 0x662f, 0x6318, 0x6c41, 0x6976][mask]
    case M => [0x5412, 0x5125, 0x5e7c, 0x5b4b, 0x45f9, 0x40ce, 0x4f97, 0x4aa0][mask]
    case Q => [0x355f, 0x3068, 0x3f31, 0x3a06, 0x24b4, 0x2183, 0x2eda, 0x2bed][mask]
    case H => [0x1689, 0x13be, 0x1ce7, 0x19d0, 0x0762, 0x0255, 0x0d0c, 0x083b][mask]
  }

  lemma PublishedL(mask: Mask)
    ensures FormatWord(L, mask) == PublishedFormat(L, mask)
  {
    Codes8();
    hide FormatCode, Five;
    match mask case 0 => case 1 => case 2 => case 3 => case 4 => case 5 => case 6 => case 7 =>
  }

  lemma CodeOfZero()
    ensures FormatCode(0) == 0
  {}

  lemma PublishedM(mask: Mask)
    ensures FormatWord(M, mask) == PublishedFormat(M, mask)
  {
    CodeOfZero();
    Codes0();
    hide FormatCode, Five;
    match mask case 0 => case 1 => case 2 => case 3 => case 4 => case 5 => case 6 => case 7 =>
  }

  lemma PublishedQ(mask: Mask)
    ensures FormatWord(Q, mask) == PublishedFormat(Q, mask)
  {
    Codes24();
    hide FormatCode, Five;
    match mask case 0 => case 1 => case 2 => case 3 => case 4 => case 5 => case 6 => case 7 =>
  }

  lemma PublishedH(mask: Mask)
    ensures FormatWord(H, mask) == PublishedFormat(H, mask)
  {
    Codes16();
    hide FormatCode, Five;
    match mask case 0 => case 1 => case 2 => case 3 => case 4 => case 5 => case 6 => case 7 =>
  }

  /** The word the encoder computes is the one the standard publishes, for each level and mask. */
  lemma FormatIsPublished(level: EcLevel, mask: Mask)
    ensures FormatWord(level, mask) == PublishedFormat(level, mask)
    ensures FormatBits(level, mask) == PublishedBits(level, mask)
  {
    match level {
      case L => PublishedL(mask);
      case M => PublishedM(mask);
      case Q => PublishedQ(mask);
      case H => PublishedH(mask);
    }
    hide FormatWord, PublishedFormat, LowBits;
  }

  function PublishedBits(level: EcLevel, mask: Mask): (r: seq<bool>)
    ensures |r| == 15
  {
    LowBits(PublishedFormat(level, mask), 15)
  }

  /** The word whose bits these are, the lowest first. */
  function Spelled(bits: seq<bool>): bv16 {
    if bits == [] then 0 else Joined(bits[0], Spelled(bits[1..]))
  }

  function Joined(low: bool, high: bv16): bv16 {
    (high << 1) | if low then 1 else 0
  }

  /** A word of at most `n` bits. */
  predicate Narrow(w: bv16, n: nat)
    decreases n
  {
    if n == 0 then w == 0 else Narrow(w >> 1, n - 1)
  }

  lemma SplitJoined(w: bv16)
    ensures Joined(w & 1 == 1, w >> 1) == w
  {
    assert w & 1 == 0 || w & 1 == 1;
    assert ((w >> 1) << 1) | (w & 1) == w;
  }

  lemma {:induction false} LowBitsSpell(w: bv16, n: nat)
    requires Narrow(w, n)
    ensures Spelled(LowBits(w, n)) == w
    decreases n
  {
    hide Joined;
    if n == 0 {
    } else {
      LowBitsSpell(w >> 1, n - 1);
      SplitJoined(w);
      assert LowBits(w, n)[1..] == LowBits(w >> 1, n - 1);
    }
  }

  lemma NarrowByFives(w: bv16, n: nat)
    ensures Narrow(w, n + 5) == Narrow(w >> 5, n)
  {
    assert Narrow(w, n + 5) == Narrow(w >> 1, n + 4);
    assert Narrow(w >> 1, n + 4) == Narrow(w >> 2, n + 3);
    assert Narrow(w >> 2, n + 3) == Narrow(w >> 3, n + 2);
    assert Narrow(w >> 3, n + 2) == Narrow(w >> 4, n + 1);
  }

  lemma FifteenBits(w: bv16)
    requires w < 0x8000
    ensures Narrow(w, 15)
  {
    NarrowByFives(w, 10);
    NarrowByFives(w >> 5, 5);
    NarrowByFives(w >> 10, 0);
    assert (w >> 5) >> 5 == w >> 10 && (w >> 10) >> 5 == 0;
  }

  lemma PublishedSmall(level: EcLevel, mask: Mask)
    ensures PublishedFormat(level, mask) < 0x8000
  {
    match level case L => case M => case Q => case H =>
  }

  lemma SpelledBits(level: EcLevel, mask: Mask)
    ensures FormatBits(level, mask) == LowBits(PublishedFormat(level, mask), 15)
  {
    FormatIsPublished(level, mask);
    hide FormatWord, PublishedFormat, LowBits;
  }

  /** The fifteen bits that are printed spell the published word. */
  lemma FormatSpells(level: EcLevel, mask: Mask)
    ensures Spelled(FormatBits(level, mask)) == PublishedFormat(level, mask)
  {
    FormatIsPublished(level, mask);
    PublishedSmall(level, mask);
    hide PublishedFormat, FormatBits, PublishedBits;
    assert FormatBits(level, mask) == LowBits(PublishedFormat(level, mask), 15) by {
      SpelledBits(level, mask);
    }
    FifteenBits(PublishedFormat(level, mask));
    LowBitsSpell(PublishedFormat(level, mask), 15);
  }

  /** A published format string `copies` times over. */
  function Copies(level: EcLevel, mask: Mask, copies: nat): (r: seq<bool>)
    ensures |r| == 15 * copies
  {
    if copies == 0 then [] else PublishedBits(level, mask) + Copies(level, mask, copies - 1)
  }

  /** The first format, from the `k`-th on, whose copies are within three places a copy of `bits`. */
  function NearestFormat(bits: seq<bool>, copies: nat, k: nat): (r: Result<Format>)
    requires |bits| == 15 * copies && k <= 32
    ensures r.Success? ==> Distance(bits, Copies(r.value.level, r.value.mask, copies)) <= 3 * copies
    decreases 32 - k
  {
    if k == 32 then Failure("format")
    else if Distance(bits, Copies(FormatOf(k).level, FormatOf(k).mask, copies)) <= 3 * copies then Success(FormatOf(k))
    else NearestFormat(bits, copies, k + 1)
  }

  /** Reads a format from some number of copies of it, one after the other. */
  function ReadFormat(bits: seq<bool>, copies: nat): Result<Format>
    requires |bits| == 15 * copies
  {
    NearestFormat(bits, copies, 0)
  }

  lemma {:induction false} NearestFound(bits: seq<bool>, copies: nat, k: nat, j: nat)
    requires |bits| == 15 * copies && k <= j < 32
    requires Distance(bits, Copies(FormatOf(j).level, FormatOf(j).mask, copies)) <= 3 * copies
    ensures NearestFormat(bits, copies, k).Success?
    decreases 32 - k
  {
    hide Copies, Distance;
    if k == j {
    } else {
      NearestFound(bits, copies, k + 1, j);
    }
  }

  lemma {:induction false} CopiesDistance(l1: EcLevel, m1: Mask, l2: EcLevel, m2: Mask, copies: nat)
    requires l1 != l2 || m1 != m2
    ensures Distance(Copies(l1, m1, copies), Copies(l2, m2, copies)) >= 7 * copies
  {
    hide FormatBits, PublishedBits, Distance;
    if copies == 0 {
    } else {
      CopiesDistance(l1, m1, l2, m2, copies - 1);
      FormatDistance(l1, m1, l2, m2);
      FormatIsPublished(l1, m1);
      FormatIsPublished(l2, m2);
      DistanceConcat(FormatBits(l1, m1), FormatBits(l2, m2), Copies(l1, m1, copies - 1), Copies(l2, m2, copies - 1));
    }
  }

  /** A format with up to three wrong modules a copy, wherever they are among the copies, still reads as
      what was printed. */
  lemma DamagedFormatReads(bits: seq<bool>, copies: nat, level: EcLevel, mask: Mask)
    requires copies > 0 && |bits| == 15 * copies && Distance(bits, Copies(level, mask, copies)) <= 3 * copies
    ensures ReadFormat(bits, copies) == Success(Format(level, mask))
  {
    hide Copies, Distance, NearestFormat;
    var r := ReadFormat(bits, copies);
    var k := 8 * (match level case L => 0 case M => 1 case Q => 2 case H => 3) + mask;
    assert FormatOf(k) == Format(level, mask);
    NearestFound(bits, copies, 0, k);
    if r.value != Format(level, mask) {
      Triangle(Copies(level, mask, copies), bits, Copies(r.value.level, r.value.mask, copies));
      CopiesDistance(level, mask, r.value.level, r.value.mask, copies);
    }
  }

  lemma OneCopy(level: EcLevel, mask: Mask)
    ensures Copies(level, mask, 1) == FormatBits(level, mask)
    ensures Copies(level, mask, 2) == FormatBits(level, mask) + FormatBits(level, mask)
  {
    FormatIsPublished(level, mask);
    hide FormatBits, PublishedBits;
    var none := Copies(level, mask, 0);
    assert FormatBits(level, mask) + none == FormatBits(level, mask);
    assert Copies(level, mask, 1) == FormatBits(level, mask) + none;
    assert Copies(level, mask, 2) == FormatBits(level, mask) + Copies(level, mask, 1);
  }

  // ----- the version word -----

  function VersionRound(value: bv32): bv32 {
    (value << 1) ^ ((value >> 11) * 0x1f25)
  }

  function VersionRounds(version: bv32, n: nat): bv32 {
    if n == 0 then version else VersionRound(VersionRounds(version, n - 1))
  }

  function VersionWord(version: Version): bv32 {
    Systematic(version as bv32, VersionRounds(version as bv32, 12))
  }

  function Systematic(version: bv32, remainder: bv32): bv32 {
    (version << 12) | remainder
  }

  /** The remainder of a word of eighteen bits by
      x^12 + x^11 + x^10 + x^9 + x^8 + x^5 + x^2 + 1. */
  function VersionRemainder(word: bv32): bv32 {
    var p := word;
    var p := if p & 0x20000 != 0 then p ^ (0x1f25 << 5) else p;
    var p := if p & 0x10000 != 0 then p ^ (0x1f25 << 4) else p;
    var p := if p & 0x08000 != 0 then p ^ (0x1f25 << 3) else p;
    var p := if p & 0x04000 != 0 then p ^ (0x1f25 << 2) else p;
    var p := if p & 0x02000 != 0 then p ^ (0x1f25 << 1) else p;
    if p & 0x01000 != 0 then p ^ 0x1f25 else p
  }

  /** The version word starts with the version and is divisible by the generator. */
  lemma VersionWordIsCodeword(version: Version)
    requires version >= 7
    ensures VersionPrefix(VersionWord(version)) == version && VersionRemainder(VersionWord(version)) == 0
  {
    VersionValues();
    PrefixValues();
    hide VersionWord, VersionRemainder, VersionPrefix;
    assert version == 7 || version == 8 || version == 9 || version == 10;
  }

  function VersionPrefix(word: bv32): nat { (word >> 12) as nat }

  lemma PrefixValues()
    ensures VersionPrefix(0x7c94) == 7 && VersionPrefix(0x85bc) == 8 && VersionPrefix(0x9a99) == 9 && VersionPrefix(0xa4d3) == 10
    ensures VersionRemainder(0x7c94) == 0 && VersionRemainder(0x85bc) == 0 && VersionRemainder(0x9a99) == 0 && VersionRemainder(0xa4d3) == 0
  {}

  /** The words the encoder computes are those that annex D of ISO/IEC 18004:2015 publishes. */
  lemma VersionValues()
    ensures VersionWord(7) == 0x7c94 && VersionWord(8) == 0x85bc && VersionWord(9) == 0x9a99 && VersionWord(10) == 0xa4d3
  {
    assert VersionRounds(7, 4) == 0x70;
    assert VersionRounds(7, 8) == 0x700;
    assert VersionRounds(7, 12) == 0xc94;
    assert VersionRounds(8, 4) == 0x80;
    assert VersionRounds(8, 8) == 0x800;
    assert VersionRounds(8, 12) == 0x5bc;
    assert VersionRounds(9, 4) == 0x90;
    assert VersionRounds(9, 8) == 0x900;
    assert VersionRounds(9, 12) == 0xa99;
    assert VersionRounds(10, 4) == 0xa0;
    assert VersionRounds(10, 8) == 0xa00;
    assert VersionRounds(10, 12) == 0x4d3;
  }
}
