/** HttpSession::recvRequest from the first header line on: the read loop around the parser, then the body. */
module Session {
  import opened Options
  import opened Bytes
  import opened Streams
  import opened HeaderMachine
  import opened HeaderText

  // ---- one buffer ----

  /** memmove of the bytes that were not consumed to the front of the buffer. */
  method MoveToFront(data: array<byte>, from: nat, len: nat)
    requires from <= len <= data.Length
    modifies data
    ensures data[..len - from] == old(data[from..len])
  {
    forall i | 0 <= i < len - from {
      data[i] := data[from + i];
    }
  }

  /** HttpRequestParser::execute. */
  method Execute(parser: Parser, data: array<byte>, len: nat) returns (n: nat)
    requires parser.Valid() && parser.cs != 348 && 0 < len <= data.Length && parser.bodyStart <= len
    modifies parser, data
    ensures parser.Valid() && n <= len && (parser.cs == 348 || parser.bodyStart == old(parser.bodyStart))
    ensures var o := Parse(old(parser.cs), old(parser.fields), old(data[..len]));
      o.cs == parser.cs && o.fields == parser.fields && o.consumed == n && (o.done <==> parser.cs == 348)
    ensures data[..len - n] == old(data[..len])[n..]
  {
    n := parser.ParserExecute(data, len);
    MoveToFront(data, n, len);
  }

  // ---- the read loop ----

  /** The buffers that a loop reading at most `size` bytes at a time sees. */
  function Reads(packets: seq<seq<byte>>, size: nat): (buffers: seq<seq<byte>>)
    requires NonEmpty(packets) && size > 0
    decreases |Concat(packets)|
  {
    if packets == [] then []
    else
      PieceAndAfter(packets, size);
      [Piece(packets, size)] + Reads(After(packets, size), size)
  }

  lemma {:induction false} ReadsKeepTheText(packets: seq<seq<byte>>, size: nat)
    requires NonEmpty(packets) && size > 0
    ensures Concat(Reads(packets, size)) == Concat(packets)
    decreases |Concat(packets)|
  {
    if packets != [] {
      PieceAndAfter(packets, size);
      ReadsKeepTheText(After(packets, size), size);
      assert Reads(packets, size)[1..] == Reads(After(packets, size), size);
    }
  }

  /** One more read and parse, on the specification. */
  lemma FeedStep(cs: nat, fields: seq<Field>, packets: seq<seq<byte>>, size: nat)
    requires NonEmpty(packets) && packets != [] && size > 0 && IsState(cs)
    ensures NonEmpty(After(packets, size))
    ensures var o := Parse(cs, fields, Piece(packets, size));
      var rest := After(packets, size);
      Feed(cs, fields, Reads(packets, size)) ==
        if o.cs == 0 || o.done then Fed(o.cs, o.done, o.fields, Piece(packets, size)[o.consumed..] + Concat(rest))
        else Feed(o.cs, o.fields, Reads(rest, size))
  {
    hide Parse;
    PieceAndAfter(packets, size);
    var rest := After(packets, size);
    assert Reads(packets, size)[1..] == Reads(rest, size);
    ReadsKeepTheText(rest, size);
  }

  /** read(data + offset, buff_size - offset). */
  method ReadSome(s: Stream, data: array<byte>, offset: nat) returns (len: int)
    requires s.Valid() && offset < data.Length
    modifies s`packets, data
    ensures s.Valid() && len <= data.Length - offset
    ensures len <= 0 <==> old(s.packets) == []
    ensures len > 0 ==> s.packets == After(old(s.packets), data.Length - offset)
    ensures len > 0 ==> data[..offset + len] == old(data[..offset]) + Piece(old(s.packets), data.Length - offset)
    ensures len > 0 ==> |Concat(s.packets)| < |Concat(old(s.packets))|
  {
    if s.packets != [] {
      PieceAndAfter(s.packets, data.Length - offset);
    }
    len := s.Read(data, offset, data.Length - offset);
  }

  /** The loop. On success `offset` bytes of what follows the header block are at the front of the buffer. */
  method RecvHeaders(s: Stream, parser: Parser, data: array<byte>) returns (offset: nat, ok: bool)
    requires s.Valid() && parser.Valid() && parser.cs != 348 && parser.cs != 0 && parser.bodyStart == 0 && data.Length > 0
    modifies s, parser, data
    ensures s.Valid() && offset <= data.Length
    ensures var f := Feed(old(parser.cs), old(parser.fields), Reads(old(s.packets), data.Length));
      (ok <==> f.done) && (ok ==> parser.fields == f.fields && data[..offset] + Concat(s.packets) == f.leftover)
  {
    hide Parse, Reads, Feed, Piece, After, Concat, NonEmpty;
    offset := 0;
    ghost var f := Feed(parser.cs, parser.fields, Reads(s.packets, data.Length));
    while true
      invariant s.Valid() && parser.Valid() && parser.cs != 348 && parser.cs != 0 && parser.bodyStart == 0 && offset == 0
      invariant f == Feed(parser.cs, parser.fields, Reads(s.packets, data.Length))
      decreases |Concat(s.packets)|
    {
      ghost var packets := s.packets;
      FeedEnd(parser.cs, parser.fields, data.Length);
      ghost var empty := data[..offset];
      var len := ReadSome(s, data, offset);
      if len <= 0 {
        return 0, false;
      }
      assert empty + Piece(packets, data.Length) == Piece(packets, data.Length);
      FeedStep(parser.cs, parser.fields, packets, data.Length);
      len := len + offset;
      BlankLineIsConsumed(parser.cs, parser.fields, data[..len]);
      var n := Execute(parser, data, len);
      if parser.cs == 0 {
        return 0, false;
      }
      offset := len - n;
      if offset == data.Length {
        assert false;
        return offset, false;
      }
      if parser.cs == 348 {
        return offset, true;
      }
    }
  }

  lemma BlankLineIsConsumed(cs: nat, fields: seq<Field>, b: seq<byte>)
    requires IsState(cs) && b != []
    ensures Parse(cs, fields, b).done ==> Parse(cs, fields, b).consumed > 0
  {
    hide NameByte;
    var m := Machine(cs, 0, 0, 0, false, fields);
    if m.cs != 0 {
      var m' := Move(m, b, 0);
    }
  }

  lemma FeedEnd(cs: nat, fields: seq<Field>, size: nat)
    requires IsState(cs) && size > 0
    ensures Feed(cs, fields, Reads([], size)) == Fed(cs, false, fields, [])
  {
  }

  // ---- the body ----

  /** The read of the missing `n` bytes is taken for a failure when its size, as an int, is not positive. */
  predicate SizeReadsAsFailure(n: int) {
    n > 0 && ToInt(n) <= 0
  }

  /**
   A body of `length` bytes: first the `offset` bytes already in the buffer, then the stream.
   It is the first `length` bytes of what follows the header block, however they arrive.
   */
  method ReadBody(s: Stream, data: array<byte>, offset: nat, length: int) returns (body: Option<seq<byte>>)
    requires s.Valid() && offset <= data.Length
    modifies s`packets
    ensures s.Valid()
    ensures length <= 0 ==> body == Some([]) && s.packets == old(s.packets)
    ensures length > 0 ==>
      var input := data[..offset] + Concat(old(s.packets));
      (body.Some? <==> length <= |input| && !SizeReadsAsFailure(length - offset)) && (body.Some? ==> body.value == input[..length])
    ensures length > offset && body.Some? ==> Concat(s.packets) == Concat(old(s.packets))[length - offset..]
    ensures length <= offset ==> s.packets == old(s.packets)
  {
    hide Concat, ToInt, NonEmpty;
    if length <= 0 {
      return Some([]);
    }
    var text := new byte[length];
    ghost var input := data[..offset] + Concat(s.packets);
    var len := if length >= offset then offset else length;
    forall i | 0 <= i < len {
      text[i] := data[i];
    }
    assert text[..len] == data[..len];
    var left := length - offset;
    if left > 0 {
      ghost var coming := Concat(s.packets);
      var rt := s.ReadFixSize(text, len, left);
      if rt <= 0 {
        return None;
      }
      assert text[..] == text[..len] + text[len..length];
      assert input[..length] == data[..offset] + coming[..left];
    } else {
      assert text[..] == text[..len];
      assert input[..length] == data[..length];
    }
    body := Some(text[..]);
  }

  datatype Request = Request(fields: seq<Field>, body: seq<byte>)

  /**
   recvRequest after the start line. `contentLength` is what the request object makes of its fields.
   Below 2^31 bytes the outcome depends only on the bytes, as far as the read loop left the fields intact.
   */
  method RecvRequest(s: Stream, buffSize: nat, contentLength: seq<Field> -> int) returns (r: Option<Request>)
    requires s.Valid() && buffSize > 0
    modifies s
    ensures var f := Feed(13, [], Reads(old(s.packets), buffSize));
      var n := contentLength(f.fields);
      && (r.Some? ==> f.done && r.value == Request(f.fields, if n <= 0 then [] else if n <= |f.leftover| then f.leftover[..n] else []))
      && (n < 0x8000_0000 ==> (r.Some? <==> f.done && n <= |f.leftover|))
  {
    hide Reads, Feed, Parse;
    var parser := new Parser();
    var data := new byte[buffSize];
    var offset, ok := RecvHeaders(s, parser, data);
    if !ok {
      return None;
    }
    var body := ReadBody(s, data, offset, contentLength(parser.fields));
    if body.None? {
      return None;
    }
    r := Some(Request(parser.fields, body.value));
  }

  /**
   End to end: a printed block in any packets that are not cut inside a header line, with a body of the announced
   length and anything after it, is received as the fields and the body that were printed.
   */
  lemma PrintedRequestIsReceived(fs: seq<Field>, body: seq<byte>, more: seq<byte>, packets: seq<seq<byte>>, buffSize: nat)
    requires Good(fs) && NonEmpty(packets) && buffSize > 0
    requires Concat(packets) == Block(fs, body + more) && SafelyCut(13, [], Reads(packets, buffSize))
    ensures var f := Feed(13, [], Reads(packets, buffSize));
      f.done && f.fields == Read(fs) && |body| <= |f.leftover| && f.leftover[..|body|] == body
  {
    hide Parse, GoodName, GoodValue, Lines;
    ReadsKeepTheText(packets, buffSize);
    RoundTrip(fs, body + more);
    PacketsDoNotMatter(13, [], Reads(packets, buffSize));
  }
}
