/** A byte stream that delivers its bytes in pieces of any size, and the loops that read a fixed number of them. */
module Streams {
  import opened Bytes

  predicate NonEmpty(packets: seq<seq<byte>>) {
    forall i :: 0 <= i < |packets| ==> packets[i] != []
  }

  /** One read of at most `n` bytes: what it gives, and what is still to come. */
  function Piece(packets: seq<seq<byte>>, n: nat): (piece: seq<byte>)
    requires packets != []
  {
    if n < |packets[0]| then packets[0][..n] else packets[0]
  }

  function After(packets: seq<seq<byte>>, n: nat): (rest: seq<seq<byte>>)
    requires packets != []
  {
    if n < |packets[0]| then [packets[0][n..]] + packets[1..] else packets[1..]
  }

  lemma PieceAndAfter(packets: seq<seq<byte>>, n: nat)
    requires packets != [] && NonEmpty(packets) && n > 0
    ensures Piece(packets, n) + Concat(After(packets, n)) == Concat(packets)
    ensures 0 < |Piece(packets, n)| <= n && NonEmpty(After(packets, n))
    ensures |Concat(After(packets, n))| < |Concat(packets)|
  {
    var first := packets[0];
    if n < |first| {
      assert first[..n] + first[n..] == first;
      assert After(packets, n)[1..] == packets[1..];
    }
  }

  lemma SomethingComes(packets: seq<seq<byte>>)
    requires NonEmpty(packets)
    ensures Concat(packets) == [] <==> packets == []
  {
  }

  /** The conversion to int of a size_t or int64_t. */
  function ToInt(x: int): (i: int)
    ensures -0x8000_0000 <= i < 0x8000_0000
    ensures -0x8000_0000 <= x < 0x8000_0000 ==> i == x
    ensures (x - i) % 0x1_0000_0000 == 0
  {
    (x + 0x8000_0000) % 0x1_0000_0000 - 0x8000_0000
  }

  class Stream {
    var packets: seq<seq<byte>>   // how the bytes still to come will arrive
    const end: int                // what read returns after them: end of file or an error

    constructor (packets: seq<seq<byte>>, end: int)
      requires NonEmpty(packets) && -0x8000_0000 <= end <= 0
      ensures Valid() && this.packets == packets && this.end == end
    {
      this.packets, this.end := packets, end;
    }

    ghost predicate Valid()
      reads this
    {
      NonEmpty(packets) && -0x8000_0000 <= end <= 0
    }

    method Read(dst: array<byte>, at: nat, n: nat) returns (rt: int)
      requires Valid() && at + n <= dst.Length
      modifies `packets, dst
      ensures Valid()
      ensures rt <= 0 <==> n == 0 || old(packets) == []
      ensures rt <= 0 ==> packets == old(packets) && dst[..] == old(dst[..])
      ensures n > 0 && rt <= 0 ==> rt == end
      ensures rt > 0 ==> rt == |Piece(old(packets), n)| <= n && packets == After(old(packets), n)
      ensures rt > 0 ==> dst[..] == Splice(old(dst[..]), at, Piece(old(packets), n))
    {
      if n == 0 {
        return 0;
      }
      if packets == [] {
        return end;
      }
      PieceAndAfter(packets, n);
      var piece := Piece(packets, n);
      forall i | 0 <= i < |piece| {
        dst[at + i] := piece[i];
      }
      packets := After(packets, n);
      rt := |piece|;
    }

    /** One read, in terms of the bytes still to come. */
    method ReadNext(dst: array<byte>, at: nat, n: nat) returns (rt: int)
      requires Valid() && at + n <= dst.Length && n > 0
      modifies `packets, dst
      ensures Valid() && rt <= n
      ensures rt <= 0 <==> old(packets) == []
      ensures rt <= 0 ==> rt == end && packets == old(packets) && dst[..] == old(dst[..])
      ensures rt > 0 ==> rt <= |Concat(old(packets))| && Concat(packets) == Concat(old(packets))[rt..]
      ensures rt > 0 ==> dst[..] == Splice(old(dst[..]), at, Concat(old(packets))[..rt])
    {
      hide Concat, Splice;
      if packets != [] {
        PieceAndAfter(packets, n);
      }
      rt := Read(dst, at, n);
    }

    /** Stream::readFixSize: for every way the bytes may arrive, the first `length` of them or the end's return value. */
    method ReadFixSize(dst: array<byte>, at: nat, length: nat) returns (rt: int)
      requires Valid() && at + length <= dst.Length
      modifies `packets, dst
      ensures Valid() && dst[..at] == old(dst[..at])
      ensures length <= |Concat(old(packets))| ==> rt == ToInt(length) && dst[at..at + length] == Concat(old(packets))[..length]
      ensures length <= |Concat(old(packets))| ==> Concat(packets) == Concat(old(packets))[length..]
      ensures length > |Concat(old(packets))| ==> rt == end && packets == []
    {
      hide Concat, Piece, After;
      var offset, left := 0, length;
      ghost var input := Concat(packets);
      while left > 0
        invariant 0 <= left <= length && offset == length - left && offset <= |input| && Valid()
        invariant dst[..at] == old(dst[..at])
        invariant dst[at..at + offset] == input[..offset] && Concat(packets) == input[offset..]
      {
        SomethingComes(packets);
        ghost var was, coming := dst[..], Concat(packets);
        var len := ReadNext(dst, at + offset, left);
        if len <= 0 {
          return len;
        }
        Filled(was, dst[..], at, offset, coming[..len]);
        NextPart(input, offset, len);
        offset := offset + len;
        left := left - len;
      }
      rt := ToInt(length);
    }
  }

  lemma NextPart(input: seq<byte>, offset: nat, n: nat)
    requires offset + n <= |input|
    ensures input[..offset + n] == input[..offset] + input[offset..][..n]
    ensures input[offset..][n..] == input[offset + n..]
  {
  }

  lemma Filled(was: seq<byte>, now: seq<byte>, at: nat, offset: nat, piece: seq<byte>)
    requires at + offset + |piece| <= |was| && now == Splice(was, at + offset, piece)
    ensures now[..at] == was[..at]
    ensures now[at..at + offset + |piece|] == was[at..at + offset] + piece
  {
  }
}
