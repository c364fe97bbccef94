/** The byte-mode bit stream of a symbol (packages/designer-runtime/src/qr.ts:125-159). */
module BitStream {
  import opened Bytes
  import opened Capacity
  import opened Outcomes

  // ----- numbers and their bits, most significant first -----

  function Pow2(n: nat): nat
    ensures Pow2(n) > 0
  {
    if n == 0 then 1 else 2 * Pow2(n - 1)
  }

  /** The `n` low bits of `v`. */
  function ToBits(v: nat, n: nat): (r: seq<bool>)
    ensures |r| == n
  {
    if n == 0 then [] else ToBits(v / 2, n - 1) + [v % 2 == 1]
  }

  function FromBits(s: seq<bool>): nat {
    if s == [] then 0 else 2 * FromBits(s[..|s| - 1]) + (if s[|s| - 1] then 1 else 0)
  }

  lemma {:induction false} FromToBits(v: nat, n: nat)
    requires v < Pow2(n)
    ensures FromBits(ToBits(v, n)) == v
  {
    if n == 0 {
    } else {
      FromToBits(v / 2, n - 1);
      assert ToBits(v, n)[..n - 1] == ToBits(v / 2, n - 1);
    }
  }

  lemma {:induction false} ToFromBits(s: seq<bool>)
    ensures FromBits(s) < Pow2(|s|) && ToBits(FromBits(s), |s|) == s
  {
    if s == [] {
    } else {
      ToFromBits(s[..|s| - 1]);
    }
  }

  /** `v >> i`. */
  function Shr(v: nat, i: nat): nat {
    if i == 0 then v else Shr(v, i - 1) / 2
  }

  lemma {:induction false} ShrHalf(v: nat, i: nat)
    ensures Shr(v / 2, i) == Shr(v, i + 1)
  {
    if i == 0 {
    } else {
      ShrHalf(v, i - 1);
    }
  }

  /** Bit `k` of an `n`-bit field, counted from the top, is `(v >> (n - 1 - k)) & 1`. */
  lemma {:induction false} ToBitsAt(v: nat, n: nat, k: nat)
    requires k < n
    ensures ToBits(v, n)[k] <==> Shr(v, n - 1 - k) % 2 == 1
  {
    if k == n - 1 {
    } else {
      ToBitsAt(v / 2, n - 1, k);
      ShrHalf(v, n - 2 - k);
    }
  }

  // ----- words and their bits -----

  function BitsOf(b: bv8): (r: seq<bool>)
    ensures |r| == 8
  {
    ToBits(b as int, 8)
  }

  function ByteOf(bits: seq<bool>): bv8
    requires |bits| == 8
  {
    EightBits(bits);
    FromBits(bits) as bv8
  }

  lemma EightBits(bits: seq<bool>)
    requires |bits| == 8
    ensures FromBits(bits) < 256
  {
    ToFromBits(bits);
    assert Pow2(8) == 256;
  }

  lemma ByteOfBits(b: bv8)
    ensures ByteOf(BitsOf(b)) == b
  {
    assert Pow2(8) == 256;
    hide ToBits, FromBits, Pow2;
    FromToBits(b as int, 8);
  }

  lemma BitsOfByte(bits: seq<bool>)
    requires |bits| == 8
    ensures BitsOf(ByteOf(bits)) == bits
  {
    EightBits(bits);
    ToFromBits(bits);
    IntByteInt(FromBits(bits));
  }

  function Flatten(words: seq<bv8>): (r: seq<bool>)
    ensures |r| == 8 * |words|
  {
    if words == [] then [] else BitsOf(words[0]) + Flatten(words[1..])
  }

  function Group(bits: seq<bool>): (r: seq<bv8>)
    requires |bits| % 8 == 0
    ensures |r| == |bits| / 8
  {
    if bits == [] then [] else [ByteOf(bits[..8])] + Group(bits[8..])
  }

  lemma {:induction false} FlattenGroup(bits: seq<bool>)
    requires |bits| % 8 == 0
    ensures Flatten(Group(bits)) == bits
  {
    hide BitsOf, ByteOf;
    if bits == [] {
    } else {
      BitsOfByte(bits[..8]);
      FlattenGroup(bits[8..]);
      assert bits == bits[..8] + bits[8..];
      assert Group(bits)[1..] == Group(bits[8..]);
    }
  }

  lemma {:induction false} GroupFlatten(words: seq<bv8>)
    ensures Group(Flatten(words)) == words
  {
    hide BitsOf, ByteOf;
    if words == [] {
    } else {
      ByteOfBits(words[0]);
      assert Flatten(words)[..8] == BitsOf(words[0]) && Flatten(words)[8..] == Flatten(words[1..]);
      GroupFlatten(words[1..]);
    }
  }

  lemma {:induction false} FlattenConcat(u: seq<bv8>, v: seq<bv8>)
    ensures Flatten(u + v) == Flatten(u) + Flatten(v)
  {
    if u == [] {
      assert u + v == v;
    } else {
      assert (u + v)[1..] == u[1..] + v;
      FlattenConcat(u[1..], v);
    }
  }

  lemma {:induction false} FlattenAt(words: seq<bv8>, k: nat)
    requires k < 8 * |words|
    ensures Flatten(words)[k] == BitsOf(words[k / 8])[k % 8]
  {
    hide BitsOf;
    if k < 8 {
    } else {
      FlattenAt(words[1..], k - 8);
    }
  }

  lemma {:induction false} GroupConcat(u: seq<bool>, v: seq<bool>)
    requires |u| % 8 == 0 && |v| % 8 == 0
    ensures Group(u + v) == Group(u) + Group(v)
  {
    FlattenGroup(u);
    FlattenGroup(v);
    FlattenConcat(Group(u), Group(v));
    GroupFlatten(Group(u) + Group(v));
  }

  // ----- the stream -----

  /** The width of the character count: 8 bits, and 16 from version 10 up. */
  function CountWidth(version: Version): nat {
    if version < 10 then 8 else 16
  }

  /** Mode, character count and payload. */
  function Header(bytes: seq<bv8>, version: Version): seq<bool> {
    ToBits(4, 4) + ToBits(|bytes|, CountWidth(version)) + Flatten(bytes)
  }

  function Zeros(n: nat): (r: seq<bool>)
    ensures |r| == n
  {
    seq(n, _ => false)
  }

  predicate Fits(n: nat, version: Version, level: EcLevel) {
    4 + CountWidth(version) + 8 * n <= 8 * DataCapacity(version, level)
  }

  function Aligned(n: nat): (r: nat)
    ensures r % 8 == 0 && n <= r < n + 8
  {
    (n + 7) / 8 * 8
  }

  /** Zero bits after the payload: a terminator of four, or what is left, then up to the byte. */
  function Terminated(bits: seq<bool>, total: nat): (r: seq<bool>)
    requires |bits| <= total && total % 8 == 0
    ensures |r| % 8 == 0 && |r| <= total && bits <= r
  {
    var t := |bits| + if total - |bits| < 4 then total - |bits| else 4;
    bits + Zeros(Aligned(t) - |bits|)
  }

  /** `n` filler words, alternating 0xEC and 0x11. */
  function Filler(n: nat): (r: seq<bv8>)
    ensures |r| == n
    ensures forall k :: 0 <= k < n ==> r[k] == if k % 2 == 0 then 0xec else 0x11
  {
    seq(n, k => if k % 2 == 0 then 0xec else 0x11)
  }

  function DataWords(bytes: seq<bv8>, version: Version, level: EcLevel): (words: seq<bv8>)
    requires Fits(|bytes|, version, level)
    ensures |words| == DataCapacity(version, level)
  {
    var capacity := DataCapacity(version, level);
    var stream := Group(Terminated(Header(bytes, version), 8 * capacity));
    stream + Filler(capacity - |stream|)
  }

  // ----- reading it back -----

  /** What a reader makes of the bits: the mode must be byte mode, and the count must not run
      past the end. */
  function ReadBits(bits: seq<bool>, width: nat): Result<seq<bv8>> {
    if |bits| < 4 + width || FromBits(bits[..4]) != 4 then Failure("mode")
    else
      var count, rest := FromBits(bits[4..4 + width]), bits[4 + width..];
      if |rest| < 8 * count then Failure("count") else Success(Group(rest[..8 * count]))
  }

  function ReadData(words: seq<bv8>, version: Version): Result<seq<bv8>> {
    ReadBits(Flatten(words), CountWidth(version))
  }

  /** The count of anything that fits, fits its field. */
  lemma CountFits(n: nat, version: Version, level: EcLevel)
    requires Fits(n, version, level)
    ensures n < Pow2(CountWidth(version))
  {
    assert Pow2(8) == 256;
    assert Pow2(16) == 256 * Pow2(8) by {
      assert Pow2(12) == 16 * Pow2(8);
    }
    CapacityBound(version, level);
  }

  lemma CapacityBound(version: Version, level: EcLevel)
    ensures DataCapacity(version, level) <= 274
    ensures version < 10 ==> DataCapacity(version, level) <= 232
  {
    RowsFillTheSymbol(version, level);
    if version == 9 {
      match level case L => case M => case Q => case H =>
    } else if version == 10 {
      match level case L => case M => case Q => case H =>
    } else if version == 8 {
      match level case L => case M => case Q => case H =>
    }
  }

  /** How many bytes a symbol holds in byte mode (table 7 of ISO/IEC 18004:2015). */
  function PublishedBytes(version: Version, level: EcLevel): nat {
    match level
    case L => [17, 32, 53, 78, 106, 134, 154, 192, 230, 271][version - 1]
    case M => [14, 26, 42, 62, 84, 106, 122, 152, 180, 213][version - 1]
    case Q => [11, 20, 32, 46, 60, 74, 86, 108, 130, 151][version - 1]
    case H => [7, 14, 24, 34, 44, 58, 64, 84, 98, 119][version - 1]
  }

  /** What fits is what the standard says fits: 213 bytes in version 10 at level M, say. */
  lemma BytesThatFit(n: nat, version: Version, level: EcLevel)
    ensures Fits(n, version, level) <==> n <= PublishedBytes(version, level)
  {
    match level {
      case L => BytesL(version);
      case M => BytesM(version);
      case Q => BytesQ(version);
      case H => BytesH(version);
    }
    hide DataCapacity, PublishedBytes;
  }

  lemma BytesL(version: Version)
    ensures PublishedBytes(version, L) + (if version < 10 then 2 else 3) == DataCapacity(version, L)
  {
    match version case 1 => case 2 => case 3 => case 4 => case 5 => case 6 => case 7 => case 8 => case 9 => case 10 =>
  }

  lemma BytesM(version: Version)
    ensures PublishedBytes(version, M) + (if version < 10 then 2 else 3) == DataCapacity(version, M)
  {
    match version case 1 => case 2 => case 3 => case 4 => case 5 => case 6 => case 7 => case 8 => case 9 => case 10 =>
  }

  lemma BytesQ(version: Version)
    ensures PublishedBytes(version, Q) + (if version < 10 then 2 else 3) == DataCapacity(version, Q)
  {
    match version case 1 => case 2 => case 3 => case 4 => case 5 => case 6 => case 7 => case 8 => case 9 => case 10 =>
  }

  lemma BytesH(version: Version)
    ensures PublishedBytes(version, H) + (if version < 10 then 2 else 3) == DataCapacity(version, H)
  {
    match version case 1 => case 2 => case 3 => case 4 => case 5 => case 6 => case 7 => case 8 => case 9 => case 10 =>
  }

  /** The message is the head of the data words' bits. */
  lemma HeaderIsPrefix(bytes: seq<bv8>, version: Version, level: EcLevel)
    requires Fits(|bytes|, version, level)
    ensures Header(bytes, version) <= Flatten(DataWords(bytes, version, level))
  {
    hide Header, Flatten, Group;
    var capacity := DataCapacity(version, level);
    HeaderLength(bytes, version);
    var padded := Terminated(Header(bytes, version), 8 * capacity);
    var stream := Group(padded);
    FlattenGroup(padded);
    FlattenConcat(stream, Filler(capacity - |stream|));
  }

  lemma HeaderLength(bytes: seq<bv8>, version: Version)
    ensures |Header(bytes, version)| == 4 + CountWidth(version) + 8 * |bytes|
  {}

  lemma ReadHeader(bytes: seq<bv8>, width: nat, bits: seq<bool>)
    requires |bytes| < Pow2(width) && ToBits(4, 4) + ToBits(|bytes|, width) + Flatten(bytes) <= bits
    ensures ReadBits(bits, width) == Success(bytes)
  {
    assert Pow2(4) == 16;
    hide ToBits, FromBits, Pow2, Flatten, Group;
    FromToBits(4, 4);
    FromToBits(|bytes|, width);
    GroupFlatten(bytes);
    Parts(ToBits(4, 4), ToBits(|bytes|, width), Flatten(bytes), bits);
  }

  lemma Parts<T>(a: seq<T>, b: seq<T>, c: seq<T>, s: seq<T>)
    requires a + b + c <= s
    ensures s[..|a|] == a && s[|a|..|a| + |b|] == b && s[|a| + |b|..][..|c|] == c
  {
    assert (a + b + c)[..|a|] == a;
    assert (a + b + c)[|a|..|a| + |b|] == b;
    assert (a + b + c)[|a| + |b|..] == c;
  }

  /** Reading the mode, the count and the payload back returns the bytes that were encoded. */
  lemma ReadDataWords(bytes: seq<bv8>, version: Version, level: EcLevel)
    requires Fits(|bytes|, version, level)
    ensures ReadData(DataWords(bytes, version, level), version) == Success(bytes)
  {
    hide ToBits, FromBits, Pow2, Flatten, Group, DataWords, ReadBits;
    CountFits(|bytes|, version, level);
    HeaderIsPrefix(bytes, version, level);
    ReadHeader(bytes, CountWidth(version), Flatten(DataWords(bytes, version, level)));
  }

  /** So two messages never share their data words. */
  lemma DataWordsInjective(a: seq<bv8>, b: seq<bv8>, version: Version, level: EcLevel)
    requires Fits(|a|, version, level) && Fits(|b|, version, level)
    requires DataWords(a, version, level) == DataWords(b, version, level)
    ensures a == b
  {
    ReadDataWords(a, version, level);
    ReadDataWords(b, version, level);
  }

  // ----- the source's stream -----

  class Bits {
    var bits: seq<bool>

    constructor ()
      ensures bits == []
    {
      bits := [];
    }

    method Push(value: nat, length: nat)
      modifies this
      ensures bits == old(bits) + ToBits(value, length)
    {
      for i := length downto 0
        invariant bits == old(bits) + ToBits(Shr(value, i), length - i)
      {
        bits := bits + [Shr(value, i) % 2 == 1];
      }
    }
  }

  lemma HeaderFits(bytes: seq<bv8>, version: Version, level: EcLevel)
    ensures Fits(|bytes|, version, level) <==> |Header(bytes, version)| <= 8 * DataCapacity(version, level)
    ensures Fits(|bytes|, version, level) ==>
      var capacity := DataCapacity(version, level);
      var stream := Group(Terminated(Header(bytes, version), 8 * capacity));
      |stream| <= capacity && DataWords(bytes, version, level) == stream + Filler(capacity - |stream|)
  {
    hide Header, Group, DataCapacity, Terminated, Filler;
    HeaderLength(bytes, version);
  }

  method EncodeData(bytes: seq<bv8>, version: Version, level: EcLevel) returns (r: Result<seq<bv8>>)
    ensures r.Success? <==> Fits(|bytes|, version, level)
    ensures r.Success? ==> r.value == DataWords(bytes, version, level)
  {
    hide Header, Group, DataCapacity, Terminated, Filler, DataWords;
    var capacity := DataCapacity(version, level);
    var bits := new Bits();
    PushHeader(bits, bytes, version);
    HeaderFits(bytes, version, level);
    var total := capacity * 8;
    if |bits.bits| > total {
      return Failure("qr: data does not fit");
    }
    Terminate(bits, total);
    var words := GatherWords(bits.bits);
    words := Pad(words, |bits.bits| / 8, capacity);
    return Success(words);
  }

  /** Pads a stream of `length` words to the capacity, with 0xEC and 0x11 in turn. */
  method Pad(stream: seq<bv8>, length: nat, capacity: nat) returns (words: seq<bv8>)
    requires |stream| == length <= capacity
    ensures words == stream + Filler(capacity - length)
    ensures |words| == capacity && words[..length] == stream
    ensures forall k :: 0 <= k < capacity - length ==> words[length + k] == if k % 2 == 0 then 0xec else 0x11
  {
    words := stream;
    while |words| < capacity
      invariant length <= |words| <= capacity
      invariant words == stream + Filler(|words| - length)
      invariant forall k :: 0 <= k < |words| - length ==> words[length + k] == if k % 2 == 0 then 0xec else 0x11
    {
      words := words + [if (|words| - length) % 2 == 0 then 0xec else 0x11];
    }
  }

  method PushHeader(bits: Bits, bytes: seq<bv8>, version: Version)
    requires bits.bits == []
    modifies bits
    ensures bits.bits == Header(bytes, version)
  {
    hide ToBits;
    bits.Push(4, 4);
    bits.Push(|bytes|, if version < 10 then 8 else 16);
    for n := 0 to |bytes|
      invariant bits.bits == ToBits(4, 4) + ToBits(|bytes|, CountWidth(version)) + Flatten(bytes[..n])
    {
      bits.Push(bytes[n] as int, 8);
      assert Flatten([bytes[n]]) == BitsOf(bytes[n]);
      assert bytes[..n + 1] == bytes[..n] + [bytes[n]];
      FlattenConcat(bytes[..n], [bytes[n]]);
    }
    assert bytes[..|bytes|] == bytes;
  }

  lemma OneMoreZero(message: seq<bool>, n: nat)
    ensures message + Zeros(0) == message && (message + Zeros(n)) + [false] == message + Zeros(n + 1)
  {
    assert Zeros(n + 1) == Zeros(n) + [false];
  }

  method Terminate(bits: Bits, total: nat)
    requires |bits.bits| <= total && total % 8 == 0
    modifies bits
    ensures bits.bits == Terminated(old(bits.bits), total)
  {
    hide Zeros, Aligned;
    ghost var message := bits.bits;
    var i := 0;
    OneMoreZero(message, 0);
    while i < 4 && |bits.bits| < total
      invariant i <= 4 && |message| + i <= total
      invariant bits.bits == message + Zeros(i) && |bits.bits| == |message| + i
    {
      OneMoreZero(message, i);
      bits.bits := bits.bits + [false];
      i := i + 1;
    }
    ghost var t := |bits.bits|;
    ghost var n := i;
    while |bits.bits| % 8 != 0
      invariant t <= |bits.bits| <= Aligned(t)
      invariant bits.bits == message + Zeros(n) && |bits.bits| == |message| + n
      decreases Aligned(t) - |bits.bits|
    {
      OneMoreZero(message, n);
      bits.bits := bits.bits + [false];
      n := n + 1;
    }
  }

  method GatherWords(stream: seq<bool>) returns (words: seq<bv8>)
    requires |stream| % 8 == 0
    ensures words == Group(stream)
  {
    hide ToBits, Group, Pow2;
    words := [];
    GroupEnds(stream);
    var at := 0;
    while at < |stream|
      invariant at % 8 == 0 && at <= |stream| && words == Group(stream[..at])
    {
      var byte: nat := 0;
      for j := 0 to 8
        invariant byte == FromBits(stream[at..at + j])
      {
        assert stream[at..at + j + 1][..j] == stream[at..at + j];
        byte := 2 * byte + if stream[at + j] then 1 else 0;
      }
      var next := stream[at..at + 8];
      GroupEnds(next);
      GroupConcat(stream[..at], next);
      assert stream[..at + 8] == stream[..at] + next;
      words := words + [byte as bv8];
      at := at + 8;
    }
    assert stream[..at] == stream;
  }

  lemma GroupEnds(bits: seq<bool>)
    ensures Group(bits[..0]) == []
    ensures |bits| == 8 ==> FromBits(bits) < 256 && Group(bits) == [FromBits(bits) as bv8]
  {
    if |bits| == 8 {
      EightBits(bits);
      assert bits[..8] == bits && bits[8..] == [];
    }
  }
}
