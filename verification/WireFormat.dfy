/**
 The bytes that yuyu/bytearray.cc puts on the wire, said position by position, and that the encoders produce exactly
 them.
 */
module WireFormat {
  import opened Bytes
  import opened Codec

  // ---- digits ----

  /** The byte of `v` that counts 256^i. */
  function ByteOf(v: nat, i: nat): (b: byte) {
    v / Pow2(8 * i) % 256
  }

  lemma NextByte(v: nat, i: nat)
    ensures ByteOf(v, i + 1) == ByteOf(v / 256, i)
  {
    Pow2Adds(8, 8 * i);
    assert Pow2(8) == 256;
    DivDiv(v, 256, Pow2(8 * i));
  }

  lemma {:induction false} LittleAt(v: nat, width: nat, i: nat)
    requires i < width
    ensures LittleBytes(v, width)[i] == ByteOf(v, i)
    decreases width
  {
    if i > 0 {
      LittleAt(v / 256, width - 1, i - 1);
      NextByte(v, i - 1);
    }
  }

  /** Byte `i` of the number is at `i` in little-endian order, and at `i` from the end in big-endian order. */
  lemma FixedAt(v: nat, width: nat, i: nat)
    requires i < width
    ensures FixedBytes(v, width, true)[i] == ByteOf(v, i)
    ensures FixedBytes(v, width, false)[width - 1 - i] == ByteOf(v, i)
  {
    hide LittleBytes, Reversed;
    LittleAt(v, width, i);
  }

  /** Reading puts each byte back where it counts. */
  lemma FromFixedAt(bs: seq<byte>, little: bool, i: nat)
    requires i < |bs|
    ensures ByteOf(FromFixed(bs, little), i) == bs[if little then i else |bs| - 1 - i]
  {
    hide FromLittle, LittleBytes, Reversed;
    var order := if little then bs else Reversed(bs);
    LittleIsOnto(order);
    LittleAt(FromLittle(order), |bs|, i);
  }

  /** byteswap exchanges the bytes that count 256^i and 256^(width - 1 - i). */
  lemma SwapAt(v: nat, width: nat, i: nat)
    requires i < width
    ensures ByteOf(ByteSwap(v, width), i) == ByteOf(v, width - 1 - i)
  {
    hide LittleBytes, ByteSwap, Reversed;
    SwapReverses(v, width);
    LittleAt(ByteSwap(v, width), width, i);
    LittleAt(v, width, width - 1 - i);
  }

  /** The seven bits of `v` that count 128^i. */
  function SevenOf(v: nat, i: nat): (n: nat)
    ensures n < 128
  {
    v / Pow2(7 * i) % 128
  }

  lemma NextSeven(v: nat, i: nat)
    ensures SevenOf(v, i + 1) == SevenOf(v / 128, i)
  {
    Pow2Adds(7, 7 * i);
    assert Pow2(7) == 128;
    DivDiv(v, 128, Pow2(7 * i));
  }

  // ---- varints ----

  /** The fewest groups of seven bits, low ones first, with the top bit set on all but the last. */
  ghost predicate VarintOf(v: nat, bs: seq<byte>) {
    && bs != [] && v < Pow2(7 * |bs|) && (|bs| > 1 ==> v >= Pow2(7 * (|bs| - 1)))
    && forall i :: 0 <= i < |bs| ==> bs[i] == SevenOf(v, i) + if i < |bs| - 1 then 128 else 0
  }

  lemma {:induction false} VarintIs(v: nat)
    ensures VarintOf(v, EncodeVarint(v))
    decreases v
  {
    hide SevenOf, Pow2;
    if v < 128 {
      OneByte(v);
    } else {
      VarintIs(v / 128);
      VarintLonger(v, EncodeVarint(v / 128));
    }
  }

  lemma OneByte(v: nat)
    requires v < 128
    ensures VarintOf(v, [v])
  {
    assert Pow2(7) == 128;
  }

  lemma VarintLonger(v: nat, rest: seq<byte>)
    requires v >= 128 && VarintOf(v / 128, rest)
    ensures VarintOf(v, [v % 128 + 128] + rest)
  {
    hide SevenOf, Pow2;
    var bs := [v % 128 + 128] + rest;
    VarintGrows(v, |rest|);
    forall i | 0 <= i < |bs|
      ensures bs[i] == SevenOf(v, i) + if i < |bs| - 1 then 128 else 0
    {
      if i == 0 {
        LowSeven(v);
      } else {
        NextSeven(v, i - 1);
        assert bs[i] == rest[i - 1];
      }
    }
  }

  lemma LowSeven(v: nat)
    ensures SevenOf(v, 0) == v % 128
  {
  }

  lemma VarintGrows(v: nat, n: nat)
    requires n > 0 && v >= 128 && v / 128 < Pow2(7 * n) && (n > 1 ==> v / 128 >= Pow2(7 * (n - 1)))
    ensures Pow2(7 * n) <= v < Pow2(7 * (n + 1))
  {
    assert Pow2(7) == 128;
    Pow2Adds(7, 7 * n);
    Pow2Adds(7, 7 * (n - 1));
  }

  lemma VarintIsOne(v: nat, a: seq<byte>, b: seq<byte>)
    requires VarintOf(v, a) && VarintOf(v, b)
    ensures a == b
  {
    hide SevenOf;
    NotShorter(v, a, b);
    NotShorter(v, b, a);
  }

  lemma NotShorter(v: nat, a: seq<byte>, b: seq<byte>)
    requires VarintOf(v, a) && VarintOf(v, b)
    ensures |a| >= |b|
  {
    if |a| < |b| - 1 {
      Pow2Grows(7 * |a|, 7 * (|b| - 1));
    }
  }

  /** The number that groups of seven bits stand for. */
  function Sum(bs: seq<byte>): (n: nat) {
    if bs == [] then 0 else bs[0] % 128 + 128 * Sum(bs[1..])
  }

  lemma ModMultiple(a: nat, p: nat, m: nat)
    requires p > 0 && m > 0
    ensures m * p > 0 && (a * p) % (m * p) == (a % m) * p
  {
    var q, r := a / m, a % m;
    assert a == q * m + r;
    assert a * p == q * (m * p) + r * p by {
      Spread(q, m, r, p);
    }
    assert r * p < m * p;
    QuotientUnique(a * p, m * p, q, r * p);
  }

  lemma Spread(q: nat, m: nat, r: nat, p: nat)
    ensures (q * m + r) * p == q * (m * p) + r * p
  {
  }

  lemma ReduceParts(low: nat, rest: nat, p: nat, q: nat, m: nat, all: nat)
    requires low < 128 && p > 0 && q == 128 * p && m > 0 && all == m * q
    ensures all > 0 && low * p < q && (low + 128 * rest) * p % all == low * p + rest * q % all
  {
    var k, r := rest / m, rest % m;
    ModMultiple(rest, q, m);
    assert rest == k * m + r;
    Parts(low, rest, p, q, k, m, r);
    Below(q, m, r, low * p);
    QuotientUnique((low + 128 * rest) * p, all, k, low * p + r * q);
  }

  /** A digit below the rest can be added after the rest was reduced. */
  lemma ReduceRest(low: nat, rest: nat, bits: nat, i: nat)
    requires low < 128 && i + 7 <= bits
    ensures low * Pow2(i) < Pow2(i + 7) <= Pow2(bits)
    ensures (low + 128 * rest) * Pow2(i) % Pow2(bits) == low * Pow2(i) + rest * Pow2(i + 7) % Pow2(bits)
  {
    hide Pow2;
    SevenBits(i);
    SplitPower(bits - i - 7, i + 7, bits);
    ReduceParts(low, rest, Pow2(i), Pow2(i + 7), Pow2(bits - i - 7), Pow2(bits));
    if i + 7 < bits {
      Pow2Grows(i + 7, bits);
    }
  }

  lemma SplitPower(a: nat, b: nat, c: nat)
    requires c == a + b
    ensures Pow2(c) == Pow2(a) * Pow2(b)
  {
    Pow2Adds(a, b);
  }

  lemma SevenBits(i: nat)
    ensures Pow2(i + 7) == 128 * Pow2(i)
  {
    Pow2Adds(7, i);
    assert Pow2(7) == 128;
  }

  lemma Parts(low: nat, rest: nat, p: nat, q: nat, k: nat, m: nat, r: nat)
    requires q == 128 * p && rest == k * m + r
    ensures (low + 128 * rest) * p == k * (m * q) + (low * p + r * q)
  {
    assert (low + 128 * rest) * p == low * p + rest * q;
    Spread(k, m, r, q);
  }

  /** The first `n` bytes from bit `i` on, reduced to the width. */
  function Reduced(bs: seq<byte>, n: nat, bits: nat, i: nat): (v: nat)
    requires n <= |bs|
  {
    Sum(bs[..n]) * Pow2(i) % Pow2(bits)
  }

  lemma NoBytes(bs: seq<byte>, bits: nat, i: nat)
    ensures Reduced(bs, 0, bits, i) == 0
  {
    hide Pow2;
    assert Sum(bs[..0]) == 0;
    QuotientUnique(0, Pow2(bits), 0, 0);
  }

  lemma FirstByte(bs: seq<byte>, bits: nat, i: nat)
    requires bs != []
    ensures Codec.Digit(bs[0], bits, i) == Reduced(bs, 1, bits, i)
  {
    hide Pow2;
    var one := bs[..1];
    assert one[0] == bs[0] && one[1..] == [];
    assert Sum(one) == bs[0] % 128;
  }

  lemma MoreBytes(bs: seq<byte>, bits: nat, i: nat, n: nat)
    requires 0 < n <= |bs| && i < bits && (n > 1 ==> i + 7 < bits)
    ensures Reduced(bs, n, bits, i) == Codec.Digit(bs[0], bits, i) + Reduced(bs[1..], n - 1, bits, i + 7)
  {
    hide Pow2;
    var low, rest := bs[0] % 128, Sum(bs[1..][..n - 1]);
    assert bs[..n][1..] == bs[1..][..n - 1];
    if n == 1 {
      NoBytes(bs[1..], bits, i + 7);
      FirstByte(bs, bits, i);
    } else {
      ReduceRest(low, rest, bits, i);
      QuotientUnique(low * Pow2(i), Pow2(bits), 0, low * Pow2(i));
    }
  }

  /** A byte read at bit `i` has its top bit set, and there is room for more. */
  predicate GoesOn(b: byte, bits: nat, i: nat) {
    b >= 128 && i + 7 < bits
  }

  /** How far a read goes: as long as top bits are set and the width is not full. */
  ghost predicate Extent(bs: seq<byte>, bits: nat, i: nat, r: Varint) {
    && r.used <= |bs|
    && (forall j :: 0 <= j < r.used - 1 ==> GoesOn(bs[j], bits, i + 7 * j))
    && (r.used > 0 ==> i < bits)
    && (r.Whole? ==> i + 7 * r.used >= bits || (r.used > 0 && bs[r.used - 1] < 128))
    && (r.Cut? ==> r.used == |bs| && i + 7 * |bs| < bits && (bs != [] ==> bs[|bs| - 1] >= 128))
  }

  /** Reading any bytes: what it has looked at, as a number reduced to the width, is the result. */
  lemma {:induction false} VarintReadMeans(bs: seq<byte>, bits: nat, i: nat, sofar: nat)
    ensures var r := DecodeVarint(bs, bits, i, sofar);
      Extent(bs, bits, i, r) && (r.Whole? ==> r.value == sofar + Reduced(bs, r.used, bits, i))
    decreases |bs|
  {
    hide Reduced, Codec.Digit;
    if i >= bits {
      NoBytes(bs, bits, i);
    } else if bs != [] {
      FirstByte(bs, bits, i);
      if bs[0] >= 128 {
        var rest := bs[1..];
        VarintReadMeans(rest, bits, i + 7, sofar + Codec.Digit(bs[0], bits, i));
        var r' := DecodeVarint(rest, bits, i + 7, sofar + Codec.Digit(bs[0], bits, i));
        FurtherExtent(bs, bits, i, r');
        if r'.Whole? {
          MoreBytes(bs, bits, i, r'.used + 1);
        }
      }
    }
  }

  lemma FurtherExtent(bs: seq<byte>, bits: nat, i: nat, r: Varint)
    requires bs != [] && i < bits && bs[0] >= 128 && Extent(bs[1..], bits, i + 7, r)
    ensures Extent(bs, bits, i, r.(used := r.used + 1))
  {
    var rest, r' := bs[1..], r.(used := r.used + 1);
    forall j | 0 <= j < r'.used - 1
      ensures GoesOn(bs[j], bits, i + 7 * j)
    {
      if j > 0 {
        var k := j - 1;
        assert GoesOn(rest[k], bits, i + 7 + 7 * k);
        assert bs[j] == rest[k];
      }
    }
    if r.used > 0 {
      assert bs[r'.used - 1] == rest[r.used - 1];
    }
    if rest != [] {
      assert bs[|bs| - 1] == rest[|rest| - 1];
    }
  }

  // ---- values ----

  /** Two's complement. */
  ghost function Raw(n: int, bits: nat): (raw: int) {
    if n < 0 then n + Pow2(bits) else n
  }

  ghost predicate FixedOnWire(raw: nat, width: nat, little: bool, bs: seq<byte>) {
    |bs| == width && forall i :: 0 <= i < width ==> bs[if little then i else width - 1 - i] == ByteOf(raw, i)
  }

  /** A length in front of a string: in 2, 4 or 8 bytes, or as a varint. */
  ghost predicate PrefixOnWire(prefix: Prefix, length: nat, little: bool, bs: seq<byte>) {
    match prefix
    case F16 => FixedOnWire(length % 0x1_0000, 2, little, bs)
    case F32 => FixedOnWire(length % 0x1_0000_0000, 4, little, bs)
    case F64 => FixedOnWire(length % 0x1_0000_0000_0000_0000, 8, little, bs)
    case Vint => VarintOf(length % 0x1_0000_0000_0000_0000, bs)
  }

  /** What each typed writer has to put on the wire. */
  ghost predicate OnWire(v: Value, little: bool, bs: seq<byte>)
    requires Writable(v)
  {
    match v
    case Fixed(width, _, n) => FixedOnWire(Raw(n, 8 * width), width, little, bs)
    case Var(_, signed, n) => VarintOf(if !signed then n else if n < 0 then -2 * n - 1 else 2 * n, bs)
    case Str(prefix, s) =>
      var k := |bs| - |s|;
      k >= 0 && PrefixOnWire(prefix, |s|, little, bs[..k]) && bs[k..] == s
  }

  lemma FixedIff(raw: nat, width: nat, little: bool, bs: seq<byte>)
    ensures bs == FixedBytes(raw, width, little) <==> FixedOnWire(raw, width, little, bs)
  {
    hide FixedBytes, ByteOf;
    var encoded := FixedBytes(raw, width, little);
    forall i | 0 <= i < width
      ensures encoded[if little then i else width - 1 - i] == ByteOf(raw, i)
    {
      FixedAt(raw, width, i);
    }
    if FixedOnWire(raw, width, little, bs) {
      forall j | 0 <= j < width
        ensures bs[j] == encoded[j]
      {
        var i := if little then j else width - 1 - j;
        assert bs[if little then i else width - 1 - i] == ByteOf(raw, i);
      }
    }
  }

  lemma VarintIff(v: nat, bs: seq<byte>)
    ensures bs == EncodeVarint(v) <==> VarintOf(v, bs)
  {
    hide VarintOf;
    VarintIs(v);
    if VarintOf(v, bs) {
      VarintIsOne(v, bs, EncodeVarint(v));
    }
  }

  lemma Powers()
    ensures Pow2(16) == 0x1_0000 && Pow2(32) == 0x1_0000_0000 && Pow2(64) == 0x1_0000_0000_0000_0000
  {
    Pow2Adds(8, 8);
    assert Pow2(8) == 256;
    Pow2Adds(16, 16);
    Pow2Adds(32, 32);
  }

  lemma PrefixIff(prefix: Prefix, length: nat, little: bool, bs: seq<byte>)
    ensures bs == PrefixBytes(prefix, length, little) <==> PrefixOnWire(prefix, length, little, bs)
  {
    hide FixedBytes, FixedOnWire, VarintOf, EncodeVarint, Pow2;
    Powers();
    match prefix
    case F16 => FixedIff(length % 0x1_0000, 2, little, bs);
    case F32 => FixedIff(length % 0x1_0000_0000, 4, little, bs);
    case F64 => FixedIff(length % 0x1_0000_0000_0000_0000, 8, little, bs);
    case Vint => VarintIff(length % 0x1_0000_0000_0000_0000, bs);
  }

  /** The encoding of a value is what belongs on the wire, and nothing else is. */
  lemma EncodeIff(v: Value, little: bool, bs: seq<byte>)
    requires Writable(v)
    ensures bs == Encode(v, little) <==> OnWire(v, little, bs)
  {
    hide FixedBytes, FixedOnWire, VarintOf, EncodeVarint, PrefixBytes, PrefixOnWire, Pow2, EncodeZigzag;
    match v
    case Fixed(width, signed, n) =>
      Wraps(n, Pow2(8 * width));
      FixedIff(Raw(n, 8 * width), width, little, bs);
    case Var(bits, signed, n) =>
      if signed {
        ZigzagInterleaves(n, bits);
      } else {
        Wraps(n, Pow2(bits));
      }
      VarintIff(VarRaw(n, bits, signed), bs);
    case Str(prefix, s) =>
      var k := |bs| - |s|;
      if k >= 0 {
        PrefixIff(prefix, |s|, little, bs[..k]);
        assert bs == bs[..k] + bs[k..];
        var head := PrefixBytes(prefix, |s|, little);
        if bs == head + s {
          assert bs[..k] == head && bs[k..] == s;
        }
      }
  }

  lemma FixedIsOnto(bs: seq<byte>, little: bool)
    ensures FixedBytes(FromFixed(bs, little), |bs|, little) == bs
  {
    hide LittleBytes, FromLittle, Reversed;
    LittleIsOnto(if little then bs else Reversed(bs));
    ReversedTwice(bs);
  }

  lemma UnsignedOfSigned(raw: nat, bits: nat)
    requires raw < Pow2(bits)
    ensures Unsigned(Signed(raw, bits), bits) == raw && FitsSigned(Signed(raw, bits), bits)
  {
    Wraps(Signed(raw, bits), Pow2(bits));
  }

  /** The other way round: a field of fixed width that was read from any bytes stands for just these bytes. */
  lemma FixedReadsWire(bs: seq<byte>, width: nat, signed: bool, little: bool)
    requires width in {1, 2, 4, 8} && |bs| >= width
    ensures var r := Decode(bs, FixedKind(width, signed), little);
      r.Decoded? && r.used == width && r.v.Kind() == FixedKind(width, signed) && Writable(r.v) && OnWire(r.v, little, bs[..width])
  {
    hide FixedBytes, FromFixed, OnWire, Pow2;
    var raw := FromFixed(bs[..width], little);
    FixedIsOnto(bs[..width], little);
    UnsignedOfSigned(raw, 8 * width);
    Wraps(raw, Pow2(8 * width));
    EncodeIff(Decode(bs, FixedKind(width, signed), little).v, little, bs[..width]);
  }
}
