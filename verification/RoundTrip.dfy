/** Writing a list of mixed values, rewinding, and reading the same kinds back. */
module RoundTrips {
  import opened ByteArrays
  import opened Codec
  import opened TypedIo
  import opened WireFormat

  lemma {:induction false} EncodeAllAppends(a: seq<Codec.Value>, b: seq<Codec.Value>, little: bool)
    ensures EncodeAll(a + b, little) == EncodeAll(a, little) + EncodeAll(b, little)
  {
    if a == [] {
      assert a + b == b;
    } else {
      assert (a + b)[1..] == a[1..] + b;
      EncodeAllAppends(a[1..], b, little);
    }
  }

  /** The encoding of a list, cut in front of value `i` and behind it. */
  lemma EncodeAllAround(vs: seq<Codec.Value>, i: nat, little: bool)
    requires i < |vs|
    ensures EncodeAll(vs[..i + 1], little) == EncodeAll(vs[..i], little) + Encode(vs[i], little)
    ensures EncodeAll(vs, little) == EncodeAll(vs[..i + 1], little) + EncodeAll(vs[i + 1..], little)
  {
    hide EncodeAll, Codec.Encode;
    assert vs[..i + 1] == vs[..i] + [vs[i]];
    EncodeAllAppends(vs[..i], [vs[i]], little);
    EncodeAllOne(vs[i], little);
    assert vs == vs[..i + 1] + vs[i + 1..];
    EncodeAllAppends(vs[..i + 1], vs[i + 1..], little);
  }

  lemma NothingEncoded(little: bool)
    ensures EncodeAll([], little) == []
  {
  }

  lemma EncodeAllOne(v: Codec.Value, little: bool)
    ensures EncodeAll([v], little) == Encode(v, little)
  {
    hide Codec.Encode;
    assert [v][1..] == [];
  }

  lemma EncodeIsNotEmpty(v: Codec.Value, little: bool)
    requires Writable(v)
    ensures |Encode(v, little)| > 0
    ensures v.Fixed? ==> v.width > 0
  {
  }

  ghost predicate AllInRange(vs: seq<Codec.Value>) {
    forall i :: 0 <= i < |vs| ==> InRange(vs[i])
  }

  ghost predicate AllWritable(vs: seq<Codec.Value>) {
    forall i :: 0 <= i < |vs| ==> Writable(vs[i])
  }

  lemma InRangeIsWritable(vs: seq<Codec.Value>)
    requires AllInRange(vs)
    ensures AllWritable(vs)
  {
  }

  /** The last value is a string without a byte of its own. */
  predicate EndsWithEmptyString(vs: seq<Codec.Value>) {
    vs != [] && vs[|vs| - 1].Str? && vs[|vs| - 1].s == []
  }

  /** A new array with setIsLittleEndian called on it. */
  method Fresh(base: nat, little: bool) returns (ba: ByteArray)
    requires base > 0
    ensures ba.Valid() && fresh(ba) && fresh(ba.Repr)
    ensures ba.littleEndian == little && ba.baseSize == base == ba.capacity && ba.Content() == [] && ba.position == 0
  {
    ba := new ByteArray(base);
    ba.littleEndian := little;
  }

  method WriteAll(base: nat, little: bool, hostLittle: bool, vs: seq<Codec.Value>) returns (ba: ByteArray)
    requires base > 0 && AllWritable(vs)
    ensures ba.Valid() && fresh(ba) && fresh(ba.Repr)
    ensures ba.littleEndian == little && ba.baseSize == base
    ensures ba.Content() == EncodeAll(vs, little) && ba.position == ba.size
    ensures ba.position == ba.capacity <==> vs != [] && |EncodeAll(vs, little)| % base == 0
  {
    hide ByteArray.Spine, ByteArray.Cursor, ByteArray.Flat, Encode, Writable, OnWire, EncodeAll;
    ba := Fresh(base, little);
    NothingEncoded(little);
    assert vs[..0] == [];
    for i := 0 to |vs|
      invariant ba.Valid() && fresh(ba) && fresh(ba.Repr) && ba.littleEndian == little && ba.baseSize == base
      invariant ba.Content() == EncodeAll(vs[..i], little) && ba.position == ba.size
      invariant if i == 0 then ba.position == 0 && ba.capacity == base
                else ba.position > 0 && ba.capacity - base < ba.position
    {
      EncodeAllAround(vs, i, little);
      EncodeIsNotEmpty(vs[i], little);
      WriteValue(ba, vs[i], hostLittle);
    }
    assert vs[..|vs|] == vs;
    if vs != [] {
      ba.TightCapacity();
    }
  }

  /** Reads values of the given kinds until the list ends or the cursor turns out null. */
  method ReadAll(ba: ByteArray, hostLittle: bool, vs: seq<Codec.Value>) returns (outs: seq<Codec.Value>, crashed: bool)
    requires ba.Valid() && ba.position == 0 && AllInRange(vs)
    requires ba.Content() == EncodeAll(vs, ba.littleEndian)
    modifies ba
    ensures ba.Valid() && ba.size == old(ba.size) && ba.capacity == old(ba.capacity)
    ensures crashed <==> EndsWithEmptyString(vs) && ba.size == ba.capacity
    ensures outs == if crashed then vs[..|vs| - 1] else vs
    ensures ba.position == ba.size
  {
    hide ByteArray.Spine, ByteArray.Cursor, ByteArray.Flat, Encode, Decode, InRange, Writable;
    outs := [];
    InRangeIsWritable(vs);
    ghost var content, little, capacity := ba.Content(), ba.littleEndian, ba.capacity;
    for i := 0 to |vs|
      invariant ba.Valid() && ba.littleEndian == little && ba.capacity == capacity && ba.size == old(ba.size)
      invariant ba.Content() == content && outs == vs[..i]
      invariant ba.position == |EncodeAll(vs[..i], little)|
      invariant i == |vs| ==> !(EndsWithEmptyString(vs) && ba.size == capacity)
    {
      EncodeAllAround(vs, i, little);
      ValueRoundTrip(vs[i], little, EncodeAll(vs[i + 1..], little));
      EncodeIsNotEmpty(vs[i], little);
      Behind(vs, i, little);
      ghost var rest := content[ba.position..];
      assert rest == Encode(vs[i], little) + EncodeAll(vs[i + 1..], little);
      var r := ReadValue(ba, vs[i].Kind(), hostLittle);
      if r.Crashed? {
        return outs, true;
      }
      outs := outs + [r.v];
    }
    crashed := false;
    assert vs[..|vs|] == vs;
  }

  /** Nothing lies behind value `i` exactly when it is the last. */
  lemma Behind(vs: seq<Codec.Value>, i: nat, little: bool)
    requires AllInRange(vs) && i < |vs|
    ensures EncodeAll(vs[i + 1..], little) == [] <==> i + 1 == |vs|
  {
    InRangeIsWritable(vs);
    if i + 1 < |vs| {
      EncodeIsNotEmpty(vs[i + 1], little);
    }
  }

  /**
   For any values, base size, byte order and host: the same values come back and nothing is left to read,
   unless the list ends with an empty string and its bytes exactly fill the nodes; then the last read
   dereferences a null cursor.
   */
  method RoundTrip(base: nat, little: bool, hostLittle: bool, vs: seq<Codec.Value>)
    returns (outs: seq<Codec.Value>, crashed: bool, left: nat)
    requires base > 0 && AllInRange(vs)
    ensures crashed <==> EndsWithEmptyString(vs) && |EncodeAll(vs, little)| % base == 0
    ensures !crashed <==> outs == vs
    ensures left == 0
  {
    hide ByteArray.Spine, ByteArray.Cursor, Encode, InRange;
    InRangeIsWritable(vs);
    var ba := WriteAll(base, little, hostLittle, vs);
    var ok := ba.SetPosition(0);
    outs, crashed := ReadAll(ba, hostLittle, vs);
    left := ba.size - ba.position;
  }
}
