/** The typed readers and writers of yuyu/bytearray.cc, on top of write() and read(). */
module TypedIo {
  import opened Bytes
  import opened ByteArrays
  import opened Codec
  import opened WireFormat

  /** What the typed layer can see of a ByteArray. */
  datatype View = View(content: seq<byte>, position: nat, capacity: nat)

  ghost function Seen(ba: ByteArray): (v: View)
    requires ba.Valid()
    reads ba, ba.Repr
    ensures v.position <= |v.content| <= v.capacity
  {
    View(ba.Content(), ba.position, ba.capacity)
  }

  /** `data` went in at the position, and nodes were added only as needed. */
  ghost predicate Wrote(before: View, after: View, base: nat, data: seq<byte>)
    requires before.position <= |before.content|
  {
    && after.content == Overwrite(before.content, before.position, data)
    && after.position == before.position + |data|
    && (after.position <= before.capacity ==> after.capacity == before.capacity)
    && (after.position > before.capacity ==> after.capacity - base < after.position)
  }

  lemma WroteBoth(a: View, b: View, c: View, base: nat, first: seq<byte>, second: seq<byte>)
    requires a.position <= |a.content| && b.position <= |b.content| && b.position <= b.capacity
    requires Wrote(a, b, base, first) && Wrote(b, c, base, second)
    ensures Wrote(a, c, base, first + second)
  {
    hide Overwrite;
    OverwriteTwice(a.content, a.position, first, second);
  }

  method WriteFixed(ba: ByteArray, raw: nat, width: nat, hostLittle: bool)
    requires ba.Valid()
    modifies ba, ba.Repr
    ensures ba.Valid() && fresh(ba.Repr - old(ba.Repr)) && ba.littleEndian == old(ba.littleEndian)
    ensures Wrote(old(Seen(ba)), Seen(ba), ba.baseSize, FixedBytes(raw, width, ba.littleEndian))
  {
    var value := raw;
    if ba.littleEndian != hostLittle {
      value := ByteSwap(value, width);
    }
    HostDoesNotMatter(raw, width, ba.littleEndian, hostLittle);
    ba.Write(FixedBytes(value, width, hostLittle));
  }

  /** The loop of writeUint32 with its buffer of 5 bytes, and of writeUint64 with 10: no byte falls outside. */
  method VarintBytes(v: nat, limit: nat) returns (bs: seq<byte>)
    requires 0 < limit && v < Pow2(7 * limit)
    ensures bs == EncodeVarint(v) && |bs| <= limit
  {
    var tmp := new byte[limit](_ => 0);
    var i, value := 0, v;
    while value >= 0x80
      invariant 0 <= i < limit && 0 <= value < Pow2(7 * (limit - i))
      invariant tmp[..i] + EncodeVarint(value) == EncodeVarint(v)
      decreases value
    {
      ShrinkVarint(value, limit - i);
      tmp[i] := value % 0x80 + 0x80;
      i := i + 1;
      value := value / 0x80;
    }
    tmp[i] := value;
    i := i + 1;
    bs := tmp[..i];
  }

  method WriteVarint(ba: ByteArray, v: nat, limit: nat)
    requires ba.Valid() && 0 < limit && v < Pow2(7 * limit)
    modifies ba, ba.Repr
    ensures ba.Valid() && fresh(ba.Repr - old(ba.Repr)) && ba.littleEndian == old(ba.littleEndian)
    ensures Wrote(old(Seen(ba)), Seen(ba), ba.baseSize, EncodeVarint(v))
  {
    var bs := VarintBytes(v, limit);
    ba.Write(bs);
  }

  lemma ShrinkVarint(v: nat, n: nat)
    requires 0x80 <= v < Pow2(7 * n) && 0 < n
    ensures 1 < n && v / 0x80 < Pow2(7 * (n - 1))
  {
    assert Pow2(7) == 0x80;
    if n > 1 {
      Pow2Adds(7, 7 * (n - 1));
    }
  }

  method WritePrefix(ba: ByteArray, prefix: Prefix, length: nat, hostLittle: bool)
    requires ba.Valid()
    modifies ba, ba.Repr
    ensures ba.Valid() && fresh(ba.Repr - old(ba.Repr)) && ba.littleEndian == old(ba.littleEndian)
    ensures Wrote(old(Seen(ba)), Seen(ba), ba.baseSize, PrefixBytes(prefix, length, ba.littleEndian))
  {
    hide ByteArray.Spine, ByteArray.Cursor, ByteArray.Flat, Wrote;
    match prefix
    case F16 => WriteFixed(ba, Unsigned(length, 16), 2, hostLittle);
    case F32 => WriteFixed(ba, Unsigned(length, 32), 4, hostLittle);
    case F64 => WriteFixed(ba, Unsigned(length, 64), 8, hostLittle);
    case Vint =>
      Pow2Grows(64, 70);
      WriteVarint(ba, Unsigned(length, 64), 10);
  }

  method WriteEncoded(ba: ByteArray, v: Value, hostLittle: bool)
    requires ba.Valid() && Writable(v)
    modifies ba, ba.Repr
    ensures ba.Valid() && fresh(ba.Repr - old(ba.Repr)) && ba.littleEndian == old(ba.littleEndian)
    ensures Wrote(old(Seen(ba)), Seen(ba), ba.baseSize, Encode(v, ba.littleEndian))
  {
    match v
    case Fixed(width, _, n) =>
      WriteFixed(ba, Unsigned(n, 8 * width), width, hostLittle);
    case Var(bits, signed, n) =>
      RawFits(n, bits, signed);
      WriteVarint(ba, VarRaw(n, bits, signed), if bits == 32 then 5 else 10);
    case Str(prefix, s) =>
      WritePrefix(ba, prefix, |s|, hostLittle);
      ghost var between := Seen(ba);
      ba.Write(s);
      WroteBoth(old(Seen(ba)), between, Seen(ba), ba.baseSize, PrefixBytes(prefix, |s|, ba.littleEndian), s);
  }

  lemma RawFits(n: int, bits: nat, signed: bool)
    requires bits in {32, 64} && Fits(n, bits, signed)
    ensures VarRaw(n, bits, signed) < Pow2(if bits == 32 then 35 else 70)
  {
    if signed {
      ZigzagInterleaves(n, bits);
    }
    Pow2Grows(bits, if bits == 32 then 35 else 70);
  }

  /** Every typed write: the bytes that belong on the wire are in the content from the old head to the new one. */
  method WriteValue(ba: ByteArray, v: Value, hostLittle: bool)
    requires ba.Valid() && Writable(v)
    modifies ba, ba.Repr
    ensures ba.Valid() && fresh(ba.Repr - old(ba.Repr)) && ba.littleEndian == old(ba.littleEndian)
    ensures Wrote(old(Seen(ba)), Seen(ba), ba.baseSize, Encode(v, ba.littleEndian))
    ensures old(ba.position) <= ba.position <= |ba.Content()| && OnWire(v, ba.littleEndian, ba.Content()[old(ba.position)..ba.position])
  {
    hide OnWire;
    WriteEncoded(ba, v, hostLittle);
    ghost var bs := Encode(v, ba.littleEndian);
    EncodeIff(v, ba.littleEndian, bs);
    WrittenSlice(old(Seen(ba)), Seen(ba), ba.baseSize, bs);
  }

  lemma WrittenSlice(before: View, after: View, base: nat, data: seq<byte>)
    requires before.position <= |before.content| && Wrote(before, after, base, data)
    ensures before.position <= after.position <= |after.content| && after.content[before.position..after.position] == data
  {
  }

  /** What a typed read returns: a number, std::out_of_range, or a null cursor dereferenced. */
  datatype Got<T> = Value(v: T) | Threw | Crashed

  method ReadFixed(ba: ByteArray, width: nat, hostLittle: bool) returns (r: Varint)
    requires ba.Valid() && width > 0
    modifies ba`position, ba`cur, ba`at
    ensures ba.Valid() && ba.Content() == old(ba.Content())
    ensures r == DecodeFixed(ba.Content()[old(ba.position)..], width, ba.littleEndian)
    ensures ba.position == old(ba.position) + r.used
  {
    var got := ba.Read(width);
    match got
    case Data(bytes) =>
      var v := FromFixed(bytes, hostLittle);
      if ba.littleEndian != hostLittle {
        v := ByteSwap(v, width);
      }
      SwapOnRead(bytes, ba.littleEndian, hostLittle);
      assert bytes == ba.Content()[old(ba.position)..][..width];
      r := Whole(v, width);
    case OutOfRange =>
      r := Cut(0);
  }

  /** Reading undoes the host order the same way writing does. */
  lemma SwapOnRead(bs: seq<byte>, little: bool, hostLittle: bool)
    ensures (if little != hostLittle then ByteSwap(FromFixed(bs, hostLittle), |bs|) else FromFixed(bs, hostLittle))
         == FromFixed(bs, little)
  {
    LittleIsOnto(bs);
    LittleIsOnto(Reversed(bs));
    assert Reversed(Reversed(bs)) == bs;
  }

  /** readUint32 and readUint64: one readFuint8 for each seven bits. */
  method ReadVarint(ba: ByteArray, bits: nat) returns (r: Varint)
    requires ba.Valid()
    modifies ba`position, ba`cur, ba`at
    ensures ba.Valid() && ba.Content() == old(ba.Content())
    ensures r == DecodeVarint(ba.Content()[old(ba.position)..], bits, 0, 0)
    ensures ba.position == old(ba.position) + r.used
  {
    hide ByteArray.Spine, ByteArray.Cursor, ByteArray.Flat;
    var result, i, start := 0, 0, ba.position;
    ghost var content := ba.Content();
    while i < bits
      invariant 0 <= i && 0 <= result && ba.Valid() && ba.Content() == content && start <= ba.position
      invariant Later(DecodeVarint(content[ba.position..], bits, i, result), ba.position - start)
             == DecodeVarint(content[start..], bits, 0, 0)
    {
      ghost var rest := content[ba.position..];
      var got := ba.Read(1);
      if got.OutOfRange? {
        return Cut(ba.position - start);
      }
      var b := got.bytes[0];
      assert rest[0] == b && rest[1..] == content[ba.position..];
      result := result + Digit(b, bits, i);
      if b < 0x80 {
        return Whole(result, ba.position - start);
      }
      i := i + 7;
    }
    r := Whole(result, ba.position - start);
  }

  function Later(r: Varint, n: nat): (s: Varint) {
    r.(used := r.used + n)
  }

  method ReadPrefix(ba: ByteArray, prefix: Prefix, hostLittle: bool) returns (r: Varint)
    requires ba.Valid()
    modifies ba`position, ba`cur, ba`at
    ensures ba.Valid() && ba.Content() == old(ba.Content())
    ensures r == DecodePrefix(ba.Content()[old(ba.position)..], prefix, ba.littleEndian)
    ensures ba.position == old(ba.position) + r.used
  {
    match prefix
    case F16 => r := ReadFixed(ba, 2, hostLittle);
    case F32 => r := ReadFixed(ba, 4, hostLittle);
    case F64 => r := ReadFixed(ba, 8, hostLittle);
    case Vint => r := ReadVarint(ba, 64);
  }

  /** What readers return at `v`: the decoded value, unless an empty string is read with the cursor already null. */
  ghost function Reading(before: View, kind: Kind, little: bool): (r: Got<Codec.Value>)
    requires before.position <= |before.content|
  {
    match Decode(before.content[before.position..], kind, little)
    case Missing(_) => Threw
    case Decoded(v, used) =>
      if v.Str? && v.s == [] && before.position + used == before.capacity then Crashed else Value(v)
  }

  method ReadString(ba: ByteArray, prefix: Prefix, hostLittle: bool) returns (r: Got<Codec.Value>)
    requires ba.Valid()
    modifies ba`position, ba`cur, ba`at
    ensures ba.Valid() && ba.Content() == old(ba.Content())
    ensures r == Reading(old(Seen(ba)), StrKind(prefix), ba.littleEndian)
    ensures ba.position == old(ba.position) + Decode(ba.Content()[old(ba.position)..], StrKind(prefix), ba.littleEndian).used
  {
    hide ByteArray.Spine, ByteArray.Cursor, ByteArray.Flat, DecodePrefix;
    ghost var rest := ba.Content()[ba.position..];
    var length := ReadPrefix(ba, prefix, hostLittle);
    if length.Cut? {
      return Threw;
    }
    var got := ba.Read(length.value);
    match got
    case Data(bytes) =>
      assert bytes == rest[length.used..length.used + length.value];
      r := Value(Str(prefix, bytes));
    case OutOfRange =>
      r := Threw;
    case NullCursor =>
      r := Crashed;
  }

  method ReadValue(ba: ByteArray, kind: Kind, hostLittle: bool) returns (r: Got<Codec.Value>)
    requires ba.Valid() && (kind.FixedKind? ==> kind.width > 0)
    modifies ba`position, ba`cur, ba`at
    ensures ba.Valid() && ba.Content() == old(ba.Content())
    ensures r == Reading(old(Seen(ba)), kind, ba.littleEndian)
    ensures ba.position == old(ba.position) + Decode(ba.Content()[old(ba.position)..], kind, ba.littleEndian).used
  {
    match kind
    case FixedKind(width, signed) =>
      var raw := ReadFixed(ba, width, hostLittle);
      r := if raw.Cut? then Threw else Value(Fixed(width, signed, if signed then Signed(raw.value, 8 * width) else raw.value));
    case VarKind(bits, signed) =>
      var raw := ReadVarint(ba, bits);
      r := if raw.Cut? then Threw else Value(Var(bits, signed, if signed then DecodeZigzag(raw.value, bits) else raw.value));
    case StrKind(prefix) =>
      r := ReadString(ba, prefix, hostLittle);
  }
}
