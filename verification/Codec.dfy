/**
 The byte formats of yuyu/bytearray.cc and yuyu/endian.h, on values: byte order, varints, zigzag
 and the prefixed strings. Integers are unbounded here, so every wrap of a fixed width is written out.
 */
module Codec {
  import opened Bytes

  function Pow2(n: nat): (p: nat)
    ensures p > 0
  {
    if n == 0 then 1 else 2 * Pow2(n - 1)
  }

  lemma {:induction false} Pow2Adds(a: nat, b: nat)
    ensures Pow2(a + b) == Pow2(a) * Pow2(b)
  {
    if a > 0 {
      Pow2Adds(a - 1, b);
      assert Pow2(a + b) == 2 * Pow2(a - 1 + b);
    }
  }

  lemma {:induction false} Pow2Grows(a: nat, b: nat)
    requires a < b
    ensures Pow2(a) < Pow2(b)
  {
    if a < b - 1 {
      Pow2Grows(a, b - 1);
    }
  }

  // ---- byte order ----

  /** How a little-endian machine lays out the low `width` bytes of `v`. */
  function LittleBytes(v: nat, width: nat): (bs: seq<byte>)
    ensures |bs| == width
  {
    if width == 0 then [] else [v % 256] + LittleBytes(v / 256, width - 1)
  }

  function FromLittle(bs: seq<byte>): (v: nat)
    ensures v < Pow2(8 * |bs|)
  {
    if bs == [] then 0
    else
      assert Pow2(8 * |bs|) == 256 * Pow2(8 * (|bs| - 1)) by { Pow2Adds(8, 8 * (|bs| - 1)); }
      bs[0] + 256 * FromLittle(bs[1..])
  }

  function Reversed<T>(s: seq<T>): (r: seq<T>)
    ensures |r| == |s| && forall i :: 0 <= i < |s| ==> r[i] == s[|s| - 1 - i]
  {
    if s == [] then [] else Reversed(s[1..]) + [s[0]]
  }

  /** byteswap() of yuyu/endian.h. */
  function ByteSwap(v: nat, width: nat): (r: nat)
    ensures r < Pow2(8 * width)
  {
    FromLittle(Reversed(LittleBytes(v, width)))
  }

  /** The bytes of `raw` in a byte order: on the wire, or in memory of a host. */
  function FixedBytes(raw: nat, width: nat, little: bool): (bs: seq<byte>)
    ensures |bs| == width
  {
    if little then LittleBytes(raw, width) else Reversed(LittleBytes(raw, width))
  }

  function FromFixed(bs: seq<byte>, little: bool): (raw: nat)
    ensures raw < Pow2(8 * |bs|)
  {
    if little then FromLittle(bs) else FromLittle(Reversed(bs))
  }

  lemma {:induction false} LittleRoundTrip(v: nat, width: nat)
    requires v < Pow2(8 * width)
    ensures FromLittle(LittleBytes(v, width)) == v
  {
    if width > 0 {
      Pow2Adds(8, 8 * (width - 1));
      LittleRoundTrip(v / 256, width - 1);
      assert LittleBytes(v, width)[1..] == LittleBytes(v / 256, width - 1);
    }
  }

  lemma LowByte(rest: nat, b: byte)
    ensures (256 * rest + b) / 256 == rest && (256 * rest + b) % 256 == b
  {
  }

  lemma {:induction false} LittleIsOnto(bs: seq<byte>)
    ensures LittleBytes(FromLittle(bs), |bs|) == bs
  {
    if bs != [] {
      LittleIsOnto(bs[1..]);
      var rest := FromLittle(bs[1..]);
      LowByte(rest, bs[0]);
      assert LittleBytes(256 * rest + bs[0], |bs|) == [bs[0]] + LittleBytes(rest, |bs| - 1);
    }
  }

  lemma ReversedTwice<T>(s: seq<T>)
    ensures Reversed(Reversed(s)) == s
  {
    hide Reversed;
  }

  /** Swapping reverses the bytes. */
  lemma SwapReverses(v: nat, width: nat)
    ensures LittleBytes(ByteSwap(v, width), width) == Reversed(LittleBytes(v, width))
  {
    hide LittleBytes, FromLittle, Reversed;
    LittleIsOnto(Reversed(LittleBytes(v, width)));
  }

  /** The bytes on the wire depend on the chosen order only, never on the host. */
  lemma HostDoesNotMatter(v: nat, width: nat, little: bool, hostLittle: bool)
    ensures FixedBytes(if little != hostLittle then ByteSwap(v, width) else v, width, hostLittle) == FixedBytes(v, width, little)
  {
    hide LittleBytes, ByteSwap, Reversed;
    SwapReverses(v, width);
    ReversedTwice(LittleBytes(v, width));
  }

  lemma SwapTwice(v: nat, width: nat)
    requires v < Pow2(8 * width)
    ensures ByteSwap(ByteSwap(v, width), width) == v
  {
    hide LittleBytes, FromLittle, Reversed;
    SwapReverses(v, width);
    ReversedTwice(LittleBytes(v, width));
    LittleRoundTrip(v, width);
  }

  // ---- two's complement and zigzag ----

  function Unsigned(v: int, bits: nat): (raw: nat) {
    v % Pow2(bits)
  }

  function Signed(raw: nat, bits: nat): (v: int) {
    if 2 * raw >= Pow2(bits) then raw - Pow2(bits) else raw
  }

  ghost predicate FitsSigned(v: int, bits: nat) {
    0 <= 2 * v + Pow2(bits) && 2 * v < Pow2(bits)
  }

  ghost predicate FitsUnsigned(v: int, bits: nat) {
    0 <= v < Pow2(bits)
  }

  lemma SignedRoundTrip(v: int, bits: nat)
    requires FitsSigned(v, bits)
    ensures Signed(Unsigned(v, bits), bits) == v
  {
    Wraps(v, Pow2(bits));
  }

  /** Reduction of a number less than one modulus out of range. */
  lemma Wraps(v: int, m: nat)
    requires m > 0 && -1 * m <= v < m
    ensures v % m == if v < 0 then v + m else v
  {
    if v < 0 {
      QuotientUnique(v, m, -1, v + m);
    } else {
      QuotientUnique(v, m, 0, v);
    }
  }

  /** Bitwise exclusive or of the low `bits` bits. */
  function Xor(a: nat, b: nat, bits: nat): (r: nat)
    ensures r < Pow2(bits)
  {
    if bits == 0 then 0 else (if a % 2 != b % 2 then 1 else 0) + 2 * Xor(a / 2, b / 2, bits - 1)
  }

  lemma {:induction false} XorZeros(a: nat, bits: nat)
    requires a < Pow2(bits)
    ensures Xor(a, 0, bits) == a
  {
    if bits > 0 {
      XorZeros(a / 2, bits - 1);
    }
  }

  lemma OddHalf(p: nat)
    requires p > 0
    ensures (2 * p - 1) / 2 == p - 1 && (2 * p - 1) % 2 == 1
  {
  }

  lemma {:induction false} XorOnes(a: nat, bits: nat)
    requires a < Pow2(bits)
    ensures Xor(a, Pow2(bits) - 1, bits) == Pow2(bits) - 1 - a
  {
    if bits > 0 {
      var p := Pow2(bits - 1);
      XorOnes(a / 2, bits - 1);
      OddHalf(p);
      assert Xor(a, 2 * p - 1, bits) == (if a % 2 != 1 then 1 else 0) + 2 * Xor(a / 2, p - 1, bits - 1);
    }
  }

  /** EncodeZigzag32 and EncodeZigzag64; negation wraps at the minimum. */
  function EncodeZigzag(v: int, bits: nat): (n: nat) {
    if v < 0 then Unsigned(Unsigned(-v, bits) * 2 - 1, bits) else Unsigned(v * 2, bits)
  }

  /** DecodeZigzag32 and DecodeZigzag64: (n >> 1) ^ -(n & 1). */
  function DecodeZigzag(n: nat, bits: nat): (v: int) {
    Signed(Xor(n / 2, Unsigned(-(n % 2), bits), bits), bits)
  }

  /** Zigzag interleaves: 0, -1, 1, -2, 2, ... */
  lemma ZigzagInterleaves(v: int, bits: nat)
    requires bits > 0 && FitsSigned(v, bits)
    ensures EncodeZigzag(v, bits) == if v < 0 then -2 * v - 1 else 2 * v
    ensures EncodeZigzag(v, bits) < Pow2(bits)
  {
    var m := Pow2(bits);
    if v < 0 {
      Wraps(-v, m);
      Wraps(-2 * v - 1, m);
    } else {
      Wraps(2 * v, m);
    }
  }

  lemma ZigzagRoundTrip(v: int, bits: nat)
    requires bits > 0 && FitsSigned(v, bits)
    ensures DecodeZigzag(EncodeZigzag(v, bits), bits) == v
  {
    ZigzagInterleaves(v, bits);
    var n := EncodeZigzag(v, bits);
    if v < 0 {
      assert n % 2 == 1 && n / 2 == -v - 1;
      Wraps(-1, Pow2(bits));
      XorOnes(n / 2, bits);
    } else {
      assert n % 2 == 0 && n / 2 == v;
      Wraps(0, Pow2(bits));
      XorZeros(n / 2, bits);
    }
  }

  // ---- varints ----

  /** writeUint32 and writeUint64: seven bits a byte, low bits first, the top bit set on all but the last. */
  function EncodeVarint(v: nat): (bs: seq<byte>)
    ensures |bs| > 0
  {
    if v >= 0x80 then [v % 0x80 + 0x80] + EncodeVarint(v / 0x80) else [v]
  }

  datatype Varint =
    | Whole(value: nat, used: nat)
    | Cut(used: nat)              // the bytes end before the varint does

  /** The seven bits of `b`, shifted to bit `i`; what passes bit `bits` is lost. */
  function Digit(b: byte, bits: nat, i: nat): (n: nat) {
    (b % 0x80) * Pow2(i) % Pow2(bits)
  }

  lemma DigitOf(low: nat, bits: nat, i: nat)
    requires low < 0x80 && low * Pow2(i) < Pow2(bits)
    ensures Digit(low, bits, i) == Digit(low + 0x80, bits, i) == low * Pow2(i)
  {
    var n := low * Pow2(i);
    Wraps(n, Pow2(bits));
    SameDigit(low, low, bits, i, n);
    SameDigit(low + 0x80, low, bits, i, n);
  }

  lemma SameDigit(b: byte, low: nat, bits: nat, i: nat, n: nat)
    requires b % 0x80 == low && n == low * Pow2(i) && n % Pow2(bits) == n
    ensures Digit(b, bits, i) == n
  {
  }

  /** readUint32 and readUint64 from the loop count `i` on: at most ceil(bits / 7) bytes are looked at. */
  function DecodeVarint(bs: seq<byte>, bits: nat, i: nat, sofar: nat): (r: Varint)
    ensures r.Whole? ==> r.used <= |bs|
    decreases |bs|
  {
    if i >= bits then Whole(sofar, 0)
    else if bs == [] then Cut(0)
    else
      var more := sofar + Digit(bs[0], bits, i);
      if bs[0] < 0x80 then Whole(more, 1)
      else
        match DecodeVarint(bs[1..], bits, i + 7, more)
        case Whole(value, used) => Whole(value, used + 1)
        case Cut(used) => Cut(used + 1)
  }

  lemma {:induction false} VarintRoundTrip(v: nat, bits: nat, i: nat, sofar: nat, rest: seq<byte>)
    requires i < bits && v * Pow2(i) < Pow2(bits)
    ensures DecodeVarint(EncodeVarint(v) + rest, bits, i, sofar) == Whole(sofar + v * Pow2(i), |EncodeVarint(v)|)
    decreases v
  {
    var bs := EncodeVarint(v) + rest;
    if v < 0x80 {
      DigitOf(v, bits, i);
    } else {
      var low, high := v % 0x80, v / 0x80;
      assert bs[0] == low + 0x80 && bs[1..] == EncodeVarint(high) + rest;
      HighPart(v, low, high, bits, i);
      DigitOf(low, bits, i);
      VarintRoundTrip(high, bits, i + 7, sofar + low * Pow2(i), rest);
    }
  }

  /** Splitting off seven bits keeps both parts inside `bits`. */
  lemma HighPart(v: nat, low: nat, high: nat, bits: nat, i: nat)
    requires high > 0 && v == high * 0x80 + low && v * Pow2(i) < Pow2(bits)
    ensures low * Pow2(i) < Pow2(bits) && high * Pow2(i + 7) < Pow2(bits) && i + 7 < bits
    ensures v * Pow2(i) == low * Pow2(i) + high * Pow2(i + 7)
  {
    Pow2Adds(7, i);
    assert Pow2(7) == 0x80;
    SplitProduct(v, low, high, Pow2(i), Pow2(i + 7));
    if i + 7 > bits {
      Pow2Grows(bits, i + 7);
    }
  }

  lemma SplitProduct(v: nat, low: nat, high: nat, p: nat, q: nat)
    requires high > 0 && v == high * 0x80 + low && q == 0x80 * p
    ensures v * p == low * p + high * q && q <= high * q && 0 <= low * p
  {
    assert v * p == high * 0x80 * p + low * p;
    assert high * q == high * 0x80 * p;
  }

  /** A value below 2^(7n) takes at most n bytes: 5 for 32 bits, 10 for 64. */
  lemma {:induction false} VarintLength(v: nat, n: nat)
    requires n > 0 && v < Pow2(7 * n)
    ensures |EncodeVarint(v)| <= n
    decreases n
  {
    if v >= 0x80 {
      assert Pow2(7) == 0x80;
      if n > 1 {
        Pow2Adds(7, 7 * (n - 1));
        VarintLength(v / 0x80, n - 1);
      }
    }
  }

  /** Whatever the bytes are, a read looks at no more than `limit` of them. */
  lemma {:induction false} VarintReadBounded(bs: seq<byte>, bits: nat, i: nat, sofar: nat, limit: nat)
    requires i + 7 * limit >= bits
    ensures DecodeVarint(bs, bits, i, sofar).used <= limit
    decreases |bs|
  {
    if i < bits && bs != [] && bs[0] >= 0x80 {
      VarintReadBounded(bs[1..], bits, i + 7, sofar + Digit(bs[0], bits, i), limit - 1);
    }
  }

  // ---- values ----

  datatype Prefix = F16 | F32 | F64 | Vint

  datatype Kind =
    | FixedKind(width: nat, signed: bool)
    | VarKind(bits: nat, signed: bool)
    | StrKind(prefix: Prefix)

  datatype Value =
    | Fixed(width: nat, signed: bool, n: int)   // writeFint8 ... writeFuint64
    | Var(bits: nat, signed: bool, n: int)      // writeInt32 ... writeUint64
    | Str(prefix: Prefix, s: seq<byte>)         // writeStringF16 ... writeStringVint
  {
    function Kind(): (k: Kind) {
      match this
      case Fixed(width, signed, _) => FixedKind(width, signed)
      case Var(bits, signed, _) => VarKind(bits, signed)
      case Str(prefix, _) => StrKind(prefix)
    }
  }

  ghost predicate Fits(n: int, bits: nat, signed: bool) {
    if signed then FitsSigned(n, bits) else FitsUnsigned(n, bits)
  }

  /** The largest length a prefix can carry, plus one. */
  function PrefixBits(prefix: Prefix): (bits: nat) {
    match prefix case F16 => 16 case F32 => 32 case F64 => 64 case Vint => 64
  }

  /** The values that the typed writers take: numbers of their width, and any string. */
  ghost predicate Writable(v: Value) {
    match v
    case Fixed(width, signed, n) => width in {1, 2, 4, 8} && Fits(n, 8 * width, signed)
    case Var(bits, signed, n) => bits in {32, 64} && Fits(n, bits, signed)
    case Str(prefix, s) => true
  }

  /** Those that can be read back: strings no longer than their prefix can say. */
  ghost predicate InRange(v: Value) {
    Writable(v) && (v.Str? ==> |v.s| < Pow2(PrefixBits(v.prefix)))
  }

  /** The length in front of a string, reduced to what the prefix can hold. */
  function PrefixBytes(prefix: Prefix, length: nat, little: bool): (bs: seq<byte>)
    ensures |bs| > 0
  {
    match prefix
    case F16 => FixedBytes(Unsigned(length, 16), 2, little)
    case F32 => FixedBytes(Unsigned(length, 32), 4, little)
    case F64 => FixedBytes(Unsigned(length, 64), 8, little)
    case Vint => EncodeVarint(Unsigned(length, 64))
  }

  function VarRaw(n: int, bits: nat, signed: bool): (raw: nat) {
    if signed then EncodeZigzag(n, bits) else Unsigned(n, bits)
  }

  function Encode(v: Value, little: bool): (bs: seq<byte>) {
    match v
    case Fixed(width, _, n) => FixedBytes(Unsigned(n, 8 * width), width, little)
    case Var(bits, signed, n) => EncodeVarint(VarRaw(n, bits, signed))
    case Str(prefix, s) => PrefixBytes(prefix, |s|, little) + s
  }

  function EncodeAll(vs: seq<Value>, little: bool): (bs: seq<byte>) {
    if vs == [] then [] else Encode(vs[0], little) + EncodeAll(vs[1..], little)
  }

  /** A fixed-width field; the readers stop before it when it is not all there. */
  function DecodeFixed(bs: seq<byte>, width: nat, little: bool): (r: Varint) {
    if |bs| < width then Cut(0) else Whole(FromFixed(bs[..width], little), width)
  }

  function DecodePrefix(bs: seq<byte>, prefix: Prefix, little: bool): (r: Varint) {
    match prefix
    case F16 => DecodeFixed(bs, 2, little)
    case F32 => DecodeFixed(bs, 4, little)
    case F64 => DecodeFixed(bs, 8, little)
    case Vint => DecodeVarint(bs, 64, 0, 0)
  }

  datatype Decoded = Decoded(v: Value, used: nat) | Missing(used: nat)

  function Decode(bs: seq<byte>, kind: Kind, little: bool): (r: Decoded) {
    match kind
    case FixedKind(width, signed) =>
      (match DecodeFixed(bs, width, little)
       case Whole(raw, used) => Decoded(Fixed(width, signed, if signed then Signed(raw, 8 * width) else raw), used)
       case Cut(used) => Missing(used))
    case VarKind(bits, signed) =>
      (match DecodeVarint(bs, bits, 0, 0)
       case Whole(raw, used) => Decoded(Var(bits, signed, if signed then DecodeZigzag(raw, bits) else raw), used)
       case Cut(used) => Missing(used))
    case StrKind(prefix) =>
      (match DecodePrefix(bs, prefix, little)
       case Whole(length, used) =>
         if used + length <= |bs| then Decoded(Str(prefix, bs[used..used + length]), used + length) else Missing(used)
       case Cut(used) => Missing(used))
  }

  lemma FixedRoundTrip(raw: nat, width: nat, little: bool, rest: seq<byte>)
    requires raw < Pow2(8 * width)
    ensures DecodeFixed(FixedBytes(raw, width, little) + rest, width, little) == Whole(raw, width)
  {
    var bs := FixedBytes(raw, width, little);
    assert (bs + rest)[..width] == bs;
    LittleRoundTrip(raw, width);
    assert Reversed(Reversed(LittleBytes(raw, width))) == LittleBytes(raw, width);
  }

  lemma WholeVarint(raw: nat, bits: nat, rest: seq<byte>)
    requires 0 < bits && raw < Pow2(bits)
    ensures DecodeVarint(EncodeVarint(raw) + rest, bits, 0, 0) == Whole(raw, |EncodeVarint(raw)|)
  {
    VarintRoundTrip(raw, bits, 0, 0, rest);
  }

  lemma PrefixRoundTrip(prefix: Prefix, length: nat, little: bool, rest: seq<byte>)
    ensures DecodePrefix(PrefixBytes(prefix, length, little) + rest, prefix, little)
         == Whole(Kept(prefix, length), |PrefixBytes(prefix, length, little)|)
  {
    match prefix
    case F16 => FixedRoundTrip(Unsigned(length, 16), 2, little, rest);
    case F32 => FixedRoundTrip(Unsigned(length, 32), 4, little, rest);
    case F64 => FixedRoundTrip(Unsigned(length, 64), 8, little, rest);
    case Vint => WholeVarint(Unsigned(length, 64), 64, rest);
  }

  /** How much of a string of length `n` its prefix announces. */
  function Kept(prefix: Prefix, n: nat): (k: nat)
    ensures k <= n
  {
    ModBelow(n, Pow2(PrefixBits(prefix)));
    n % Pow2(PrefixBits(prefix))
  }

  /** A string too long for its prefix comes back cut to its length modulo the prefix. */
  lemma StringRoundTrip(prefix: Prefix, s: seq<byte>, little: bool, rest: seq<byte>)
    ensures Decode(Encode(Str(prefix, s), little) + rest, StrKind(prefix), little)
         == Decoded(Str(prefix, s[..Kept(prefix, |s|)]), |PrefixBytes(prefix, |s|, little)| + Kept(prefix, |s|))
  {
    hide Kept, DecodePrefix, PrefixBytes;
    var head := PrefixBytes(prefix, |s|, little);
    var kept := Kept(prefix, |s|);
    var tail := s + rest;
    assert Encode(Str(prefix, s), little) + rest == head + tail;
    PrefixRoundTrip(prefix, |s|, little, tail);
    assert (head + tail)[|head|..|head| + kept] == tail[..kept] == s[..kept];
  }

  lemma ModBelow(n: nat, m: nat)
    requires m > 0
    ensures n % m <= n
  {
  }

  /** Reading back one value, whatever follows it. */
  lemma ValueRoundTrip(v: Value, little: bool, rest: seq<byte>)
    requires InRange(v)
    ensures Decode(Encode(v, little) + rest, v.Kind(), little) == Decoded(v, |Encode(v, little)|)
  {
    match v
    case Fixed(width, signed, n) =>
      var m := Pow2(8 * width);
      Wraps(n, m);
      FixedRoundTrip(Unsigned(n, 8 * width), width, little, rest);
      if signed {
        SignedRoundTrip(n, 8 * width);
      }
    case Var(bits, signed, n) =>
      if signed {
        ZigzagInterleaves(n, bits);
        ZigzagRoundTrip(n, bits);
      } else {
        Wraps(n, Pow2(bits));
      }
      WholeVarint(VarRaw(n, bits, signed), bits, rest);
    case Str(prefix, s) =>
      Wraps(|s|, Pow2(PrefixBits(prefix)));
      StringRoundTrip(prefix, s, little, rest);
      assert s[..|s|] == s;
  }
}
