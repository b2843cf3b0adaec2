/** The chunked branch of HttpConnection::recvResponse. */
module Chunked {
  import opened Bytes
  import opened Streams
  import opened ChunkLine
  import Session

  /** The pieces without their first `n` bytes. */
  function Drop(pieces: seq<seq<byte>>, n: nat): (rest: seq<seq<byte>>)
    ensures NonEmpty(pieces) ==> NonEmpty(rest)
    decreases |pieces|
  {
    if n == 0 || pieces == [] then pieces
    else if n < |pieces[0]| then [pieces[0][n..]] + pieces[1..]
    else Drop(pieces[1..], n - |pieces[0]|)
  }

  lemma {:induction false} DropText(pieces: seq<seq<byte>>, n: nat)
    requires n <= |Concat(pieces)|
    ensures Concat(Drop(pieces, n)) == Concat(pieces)[n..]
    decreases |pieces|
  {
    if n > 0 && pieces != [] {
      if n < |pieces[0]| {
        assert Drop(pieces, n)[1..] == pieces[1..];
      } else {
        DropText(pieces[1..], n - |pieces[0]|);
      }
    }
  }

  lemma {:induction false} DropTwice(pieces: seq<seq<byte>>, a: nat, b: nat)
    requires NonEmpty(pieces)
    ensures Drop(Drop(pieces, a), b) == Drop(pieces, a + b)
    decreases |pieces|
  {
    if a > 0 && pieces != [] {
      if a < |pieces[0]| {
        var rest := Drop(pieces, a);
        assert rest[0] == pieces[0][a..] && rest[1..] == pieces[1..];
        if b > 0 && a + b < |pieces[0]| {
          assert pieces[0][a..][b..] == pieces[0][a + b..];
        }
      } else {
        DropTwice(pieces[1..], a - |pieces[0]|, b);
      }
    }
  }

  /** One read drops its bytes from the packets. */
  lemma ReadDrops(packets: seq<seq<byte>>, n: nat)
    requires packets != [] && NonEmpty(packets) && n > 0
    ensures After(packets, n) == Drop(packets, |Piece(packets, n)|)
    ensures Piece(packets, n) == Concat(packets)[..|Piece(packets, n)|]
  {
    PieceAndAfter(packets, n);
    assert Drop(packets[1..], 0) == packets[1..];
  }

  /** What is still to be read: the bytes in the buffer, and then the packets of the stream. */
  datatype Source = Source(buffered: seq<byte>, packets: seq<seq<byte>>)

  function Remaining(src: Source): (text: seq<byte>) {
    src.buffered + Concat(src.packets)
  }

  /** A search for a size line reads once when the buffer is empty, as much as fits. */
  function Loaded(src: Source, buffSize: nat): (r: Source) {
    if src.buffered == [] && src.packets != [] then Source(Piece(src.packets, buffSize), After(src.packets, buffSize)) else src
  }

  /** The first `n` bytes taken off: from the buffer, and what it lacks from the stream, no byte more. */
  function Consumed(src: Source, n: nat): (r: Source) {
    if n <= |src.buffered| then Source(src.buffered[n..], src.packets)
    else Source([], Drop(src.packets, n - |src.buffered|))
  }

  lemma LoadedText(src: Source, buffSize: nat)
    requires NonEmpty(src.packets) && buffSize > 0
    ensures Remaining(Loaded(src, buffSize)) == Remaining(src) && NonEmpty(Loaded(src, buffSize).packets)
  {
    if src.buffered == [] && src.packets != [] {
      PieceAndAfter(src.packets, buffSize);
    }
  }

  lemma ConsumedText(src: Source, n: nat)
    requires n <= |Remaining(src)|
    ensures Remaining(Consumed(src, n)) == Remaining(src)[n..]
  {
    if n > |src.buffered| {
      DropText(src.packets, n - |src.buffered|);
    }
  }

  lemma ConsumedTwice(src: Source, a: nat, b: nat)
    requires NonEmpty(src.packets) && a <= |src.buffered|
    ensures Consumed(Consumed(src, a), b) == Consumed(src, a + b)
  {
    if a + b <= |src.buffered| {
      assert src.buffered[a..][b..] == src.buffered[a + b..];
    }
  }

  // ---- the size line ----

  /** execute on what the buffer holds, for any call of the inner loop; `n` bytes are consumed. */
  method ExecuteLine(data: array<byte>, len: nat) returns (l: Line, n: nat)
    requires 0 < len <= data.Length
    modifies data
    ensures l == Parse(old(data[..len])) && n <= len
    ensures l.Complete? ==> n == l.consumed > 0
    ensures l.Unfinished? ==> n == len
    ensures data[..len - n] == old(data[..len])[n..]
  {
    l := Execute(data, len);
    n := if l.Complete? then l.consumed else if l.Unfinished? then len else 0;
    Session.MoveToFront(data, n, len);
  }

  ghost function Held(s: Stream, data: array<byte>, len: nat): (src: Source)
    requires len <= data.Length
    reads s, data
  {
    Source(data[..len], s.packets)
  }

  /**
   The inner loop. A line that is whole once the buffer has been loaded is found, and exactly its bytes are consumed.
   Unfinished here means that the stream ended.
   */
  method ReadLine(s: Stream, data: array<byte>, buffSize: nat, offset: nat) returns (l: Line, len: nat)
    requires s.Valid() && 0 < buffSize <= data.Length && offset <= buffSize
    modifies s`packets, data
    ensures s.Valid() && len <= buffSize
    ensures l.Complete? ==> |Remaining(Held(s, data, len))| < |Remaining(old(Held(s, data, offset)))|
    ensures var src := Loaded(old(Held(s, data, offset)), buffSize);
      Parse(src.buffered).Complete? ==> l == Parse(src.buffered) && Held(s, data, len) == Source(src.buffered[l.consumed..], src.packets)
  {
    hide Parse, Concat, Piece, After, NonEmpty;
    len := offset;
    ghost var start := Held(s, data, len);
    ghost var src := Loaded(start, buffSize);
    LoadedText(start, buffSize);
    NothingToParse();
    var begin := true;
    while true
      invariant s.Valid() && len <= buffSize && (begin || len == 0)
      invariant begin ==> Held(s, data, len) == start
      invariant !begin ==> !Parse(src.buffered).Complete?
      invariant |Remaining(Held(s, data, len))| <= |Remaining(start)|
      decreases |Concat(s.packets)|, len
    {
      ghost var before := Held(s, data, len);
      if !begin || len == 0 {
        var rt := ReadMore(s, data, buffSize, len);
        if rt <= 0 {
          assert begin ==> src.buffered == [];
          return Unfinished, 0;
        }
        len := len + rt;
      }
      assert begin ==> Held(s, data, len) == src;
      ghost var buffered := data[..len];
      var n: nat;
      l, n := ExecuteLine(data, len);
      if l.Malformed? || l.StatusLine? {
        return l, 0;
      }
      len := len - n;
      if len == buffSize {
        assert false;
        return l, len;
      }
      if l.Complete? {
        return;
      }
      begin := false;
    }
  }

  lemma NothingToParse()
    ensures !Parse([]).Complete?
  {
  }

  /** read(data + len, buff_size - len), with an empty buffer. */
  method ReadMore(s: Stream, data: array<byte>, buffSize: nat, len: nat) returns (rt: int)
    requires s.Valid() && 0 < buffSize <= data.Length && len == 0
    modifies s`packets, data
    ensures s.Valid() && rt <= buffSize
    ensures rt <= 0 <==> old(s.packets) == []
    ensures rt <= 0 ==> s.packets == old(s.packets)
    ensures rt > 0 ==> Held(s, data, rt) == Loaded(Source([], old(s.packets)), buffSize)
    ensures rt > 0 ==> rt + |Concat(s.packets)| == |Concat(old(s.packets))|
  {
    if s.packets != [] {
      PieceAndAfter(s.packets, buffSize);
    }
    rt := s.Read(data, len, buffSize - len);
  }

  // ---- the data of a chunk ----

  /** The reads that complete a chunk take exactly `missing` bytes from the stream, or run into its end. */
  method ReadRest(s: Stream, data: array<byte>, buffSize: nat, missing: nat) returns (ok: bool, bytes: seq<byte>)
    requires s.Valid() && 0 < buffSize <= data.Length
    modifies s`packets, data
    ensures s.Valid()
    ensures ok <==> missing <= |Concat(old(s.packets))|
    ensures ok ==> bytes == Concat(old(s.packets))[..missing] && s.packets == Drop(old(s.packets), missing)
  {
    hide Concat, Drop, Piece, After, NonEmpty;
    ghost var all, text := s.packets, Concat(s.packets);
    var left: nat := missing;
    bytes := [];
    DropNone(all);
    while left > 0
      invariant 0 <= left <= missing && s.Valid() && missing - left <= |text|
      invariant bytes == text[..missing - left] && s.packets == Drop(all, missing - left)
    {
      ghost var packets, done := s.packets, missing - left;
      DropText(all, done);
      SomethingComes(packets);
      var n := if left > buffSize then buffSize else left;
      var rt := ReadPiece(s, data, n);
      if rt <= 0 {
        return false, [];
      }
      DropTwice(all, done, rt);
      assert text[..done + rt] == text[..done] + text[done..][..rt];
      bytes := bytes + data[..rt];
      left := left - rt;
    }
    ok := true;
  }

  lemma DropNone(pieces: seq<seq<byte>>)
    ensures Drop(pieces, 0) == pieces
  {
  }

  method ReadPiece(s: Stream, data: array<byte>, n: nat) returns (rt: int)
    requires s.Valid() && 0 < n <= data.Length
    modifies s`packets, data
    ensures s.Valid() && rt <= n
    ensures rt <= 0 <==> old(s.packets) == []
    ensures rt > 0 ==> s.packets == Drop(old(s.packets), rt) && rt <= |Concat(old(s.packets))| && data[..rt] == Concat(old(s.packets))[..rt]
  {
    if s.packets != [] {
      PieceAndAfter(s.packets, n);
      ReadDrops(s.packets, n);
    }
    rt := s.Read(data, 0, n);
  }

  /**
   The data of a chunk of `size` bytes and its CRLF: the data is what was asked for, and not a byte after the CRLF
   has been taken from the stream unless it was in the buffer before.
   */
  method TakeChunk(s: Stream, data: array<byte>, buffSize: nat, offset: nat, size: nat)
    returns (ok: bool, bytes: seq<byte>, len: nat)
    requires s.Valid() && 0 < buffSize <= data.Length && offset <= buffSize
    modifies s`packets, data
    ensures s.Valid() && len <= buffSize
    ensures var src := old(Held(s, data, offset));
      (ok <==> size + 2 <= |Remaining(src)|) && (ok ==> bytes == Remaining(src)[..size] && Held(s, data, len) == Consumed(src, size + 2))
  {
    hide Concat, Drop, NonEmpty;
    len := offset;
    ghost var buffered, packets := data[..len], s.packets;
    ghost var text := buffered + Concat(packets);
    if size + 2 <= len {
      bytes := data[..size];
      Session.MoveToFront(data, size + 2, len);
      len := len - (size + 2);
      return true, bytes, len;
    }
    bytes := data[..len];
    var left := size - len + 2;
    var rest: seq<byte>;
    ok, rest := ReadRest(s, data, buffSize, left);
    if !ok {
      return false, [], 0;
    }
    assert bytes + rest == text[..size + 2];
    bytes := (bytes + rest)[..size];
    len := 0;
  }

  // ---- the body ----

  /** A chunk as it is sent: a size line for its data, extensions included, the data and CRLF. */
  datatype Chunk = Chunk(line: seq<byte>, data: seq<byte>)

  function Sent(c: Chunk): (b: seq<byte>) {
    c.line + c.data + [13, 10]
  }

  function Text(chunks: seq<Chunk>): (b: seq<byte>) {
    if chunks == [] then [] else Sent(chunks[0]) + Text(chunks[1..])
  }

  function Datas(chunks: seq<Chunk>): (b: seq<byte>) {
    if chunks == [] then [] else chunks[0].data + Datas(chunks[1..])
  }

  /** Sizes as announced, and an empty chunk at the end and only there. */
  predicate WellFormed(chunks: seq<Chunk>) {
    && chunks != []
    && IsLine(chunks[0].line, |chunks[0].data|) && |chunks[0].data| + 2 < 0x8000_0000
    && (chunks[0].data == [] <==> |chunks| == 1)
    && (|chunks| > 1 ==> WellFormed(chunks[1..]))
  }

  /** Whenever a size line is looked for, the buffer then holds it whole. Data and CRLFs may be cut anywhere. */
  predicate LinesWhole(src: Source, chunks: seq<Chunk>, buffSize: nat)
    decreases |chunks|
  {
    chunks == [] ||
    var loaded := Loaded(src, buffSize);
    |chunks[0].line| <= |loaded.buffered| && LinesWhole(Consumed(loaded, |Sent(chunks[0])|), chunks[1..], buffSize)
  }

  /** A body sent in pieces: each with its size in hexadecimal, and an empty one at the end. */
  function InChunks(datas: seq<seq<byte>>): (chunks: seq<Chunk>)
    ensures chunks != []
  {
    if datas == [] then [OneChunk([])] else [OneChunk(datas[0])] + InChunks(datas[1..])
  }

  function OneChunk(data: seq<byte>): (c: Chunk) {
    Chunk(Printed(|data|) + [13, 10], data)
  }

  /** It is what RecvChunked asks for, and its data is the body. */
  lemma {:induction false} InChunksIsWellFormed(datas: seq<seq<byte>>)
    requires forall i :: 0 <= i < |datas| ==> 0 < |datas[i]| < 0x7FFF_FFFE
    ensures WellFormed(InChunks(datas)) && Datas(InChunks(datas)) == Concat(datas)
    decreases |datas|
  {
    hide IsLine;
    if datas == [] {
      OneIsLine([]);
      assert Datas([OneChunk([])][1..]) == [];
    } else {
      OneIsLine(datas[0]);
      InChunksIsWellFormed(datas[1..]);
      assert InChunks(datas)[1..] == InChunks(datas[1..]);
    }
  }

  lemma OneIsLine(data: seq<byte>)
    requires |data| < 0x8000_0000
    ensures IsLine(OneChunk(data).line, |data|)
  {
    hide IsLine;
    PrintedIsHex(|data|);
    PlainLine(Printed(|data|));
  }

  /** All in the buffer already: every line is whole when it is looked for. */
  lemma {:induction false} BufferedLinesAreWhole(chunks: seq<Chunk>, more: seq<byte>, packets: seq<seq<byte>>, buffSize: nat)
    ensures LinesWhole(Source(Text(chunks) + more, packets), chunks, buffSize)
    decreases |chunks|
  {
    if chunks != [] {
      var src, rest := Source(Text(chunks) + more, packets), Source(Text(chunks[1..]) + more, packets);
      var n := |Sent(chunks[0])|;
      assert src.buffered == Sent(chunks[0]) + rest.buffered;
      assert Loaded(src, buffSize) == src && Consumed(src, n) == rest;
      BufferedLinesAreWhole(chunks[1..], more, packets, buffSize);
    }
  }

  datatype Received = Body(bytes: seq<byte>) | Closed | Undefined   // a status line, or a size that int cannot hold

  /** One turn of the outer loop. */
  method NextChunk(s: Stream, data: array<byte>, buffSize: nat, offset: nat, ghost c: Chunk, ghost more: seq<byte>)
    returns (r: Received, last: bool, len: nat)
    requires s.Valid() && 0 < buffSize <= data.Length && offset <= buffSize
    modifies s`packets, data
    ensures s.Valid() && len <= buffSize
    ensures r.Body? ==> |Remaining(Held(s, data, len))| < |Remaining(old(Held(s, data, offset)))|
    ensures var src := old(Held(s, data, offset));
      Starts(src, c, more, buffSize) ==>
        r == Body(c.data) && (last <==> c.data == []) && Held(s, data, len) == Consumed(Loaded(src, buffSize), |Sent(c)|)
  {
    hide Concat, Drop, NonEmpty, Parse, IsLine, Piece, After;
    ghost var src := Loaded(Held(s, data, offset), buffSize);
    ghost var starts := Starts(Held(s, data, offset), c, more, buffSize);
    LoadedText(Held(s, data, offset), buffSize);
    if starts {
      FirstLine(src, c, more);
    }
    var l: Line;
    l, len := ReadLine(s, data, buffSize, offset);
    if !l.Complete? {
      return if l.StatusLine? then Undefined else Closed, true, 0;
    }
    if l.size < 0 || l.size + 2 >= 0x8000_0000 {
      return Undefined, true, 0;
    }
    ghost var rest := Held(s, data, len);
    if starts {
      ConsumedText(src, |c.line|);
      ConsumedTwice(src, |c.line|, |c.data| + 2);
      AfterLine(c, more);
    }
    var ok, bytes;
    ok, bytes, len := TakeChunk(s, data, buffSize, len, l.size);
    if !ok {
      return Closed, true, 0;
    }
    ConsumedText(rest, l.size + 2);
    r, last := Body(bytes), l.size <= 0;
  }

  /** The text begins with a chunk whose size line is whole once the buffer is loaded. */
  predicate Starts(src: Source, c: Chunk, more: seq<byte>, buffSize: nat) {
    && |c.line| <= |Loaded(src, buffSize).buffered|
    && IsLine(c.line, |c.data|) && |c.data| + 2 < 0x8000_0000
    && Remaining(src) == Sent(c) + more
  }

  lemma FirstLine(src: Source, c: Chunk, more: seq<byte>)
    requires |c.line| <= |src.buffered| && IsLine(c.line, |c.data|) && Remaining(src) == Sent(c) + more
    ensures Parse(src.buffered) == Complete(|c.data|, |c.line|)
  {
    hide Parse, Concat;
    var n := |c.line|;
    var text := Remaining(src);
    assert text[..n] == c.line && src.buffered[..n] == text[..n];
    assert src.buffered == c.line + src.buffered[n..];
    LineInBuffer(c.line, |c.data|, src.buffered[n..]);
  }

  lemma AfterLine(c: Chunk, more: seq<byte>)
    ensures (Sent(c) + more)[|c.line|..] == c.data + [13, 10] + more
    ensures (c.data + [13, 10] + more)[..|c.data|] == c.data
  {
  }

  /** What the loop leaves in place once it has taken the chunks. */
  function AfterChunks(src: Source, chunks: seq<Chunk>, buffSize: nat): (r: Source)
    decreases |chunks|
  {
    if chunks == [] then src else AfterChunks(Consumed(Loaded(src, buffSize), |Sent(chunks[0])|), chunks[1..], buffSize)
  }

  /** The bytes left in place are exactly those behind the last chunk. */
  lemma {:induction false} AfterChunksText(src: Source, chunks: seq<Chunk>, more: seq<byte>, buffSize: nat)
    requires NonEmpty(src.packets) && buffSize > 0 && Remaining(src) == Text(chunks) + more
    ensures Remaining(AfterChunks(src, chunks, buffSize)) == more
    decreases |chunks|
  {
    hide Loaded, Sent, Remaining, Consumed;
    if chunks == [] {
      assert Text(chunks) + more == more;
    } else {
      var c, loaded := chunks[0], Loaded(src, buffSize);
      LoadedText(src, buffSize);
      TextBegins(chunks, more);
      ConsumedText(loaded, |Sent(c)|);
      ConsumedPackets(loaded, |Sent(c)|);
      AfterChunksText(Consumed(loaded, |Sent(c)|), chunks[1..], more, buffSize);
    }
  }

  lemma ConsumedPackets(src: Source, n: nat)
    requires NonEmpty(src.packets)
    ensures NonEmpty(Consumed(src, n).packets)
  {
  }

  /** What the outer loop keeps while it works through well-formed chunks: these are `left`, and `more` follows. */
  ghost predicate OnTrack(src: Source, body: seq<byte>, left: seq<Chunk>, more: seq<byte>, buffSize: nat, all: seq<Chunk>, end: Source) {
    && body + Datas(left) == Datas(all)
    && Remaining(src) == Text(left) + more
    && LinesWhole(src, left, buffSize)
    && AfterChunks(src, left, buffSize) == end
  }

  lemma TrackStarts(src: Source, body: seq<byte>, left: seq<Chunk>, more: seq<byte>, buffSize: nat, all: seq<Chunk>, end: Source)
    requires OnTrack(src, body, left, more, buffSize, all, end) && WellFormed(left)
    ensures Starts(src, left[0], Text(left[1..]) + more, buffSize)
  {
    hide Remaining, Loaded, Consumed, IsLine, Sent, Datas, AfterChunks;
    assert Sent(left[0]) + Text(left[1..]) + more == Sent(left[0]) + (Text(left[1..]) + more);
  }

  lemma TrackContinues(src: Source, body: seq<byte>, left: seq<Chunk>, more: seq<byte>, buffSize: nat, all: seq<Chunk>, end: Source)
    requires OnTrack(src, body, left, more, buffSize, all, end) && left != [] && NonEmpty(src.packets) && buffSize > 0
    ensures OnTrack(Consumed(Loaded(src, buffSize), |Sent(left[0])|), body + left[0].data, left[1..], more, buffSize, all, end)
  {
    hide Remaining, Loaded, Consumed, IsLine, Sent, NonEmpty, Text, Datas;
    var c, rest := left[0], left[1..];
    LoadedText(src, buffSize);
    TextBegins(left, more);
    DatasBegin(body, left);
    ConsumedText(Loaded(src, buffSize), |Sent(c)|);
  }

  lemma TextBegins(chunks: seq<Chunk>, more: seq<byte>)
    requires chunks != []
    ensures var all := Text(chunks) + more;
      |Sent(chunks[0])| <= |all| && all[|Sent(chunks[0])|..] == Text(chunks[1..]) + more
  {
    hide Sent;
    assert Text(chunks) + more == Sent(chunks[0]) + (Text(chunks[1..]) + more);
  }

  lemma DatasBegin(body: seq<byte>, chunks: seq<Chunk>)
    requires chunks != []
    ensures body + Datas(chunks) == (body + chunks[0].data) + Datas(chunks[1..])
  {
  }

  /**
   The chunked branch. For every list of chunks and every way their data and CRLFs may be cut, as long as each size
   line is whole in the read that looks for it, the body is the data of all chunks; AfterChunksText says that what is
   left in buffer and stream is what follows the last chunk.
   */
  method RecvChunked(s: Stream, data: array<byte>, buffSize: nat, offset: nat, ghost chunks: seq<Chunk>, ghost more: seq<byte>)
    returns (r: Received, len: nat)
    requires s.Valid() && 0 < buffSize <= data.Length && offset <= buffSize
    modifies s`packets, data
    ensures s.Valid() && len <= buffSize
    ensures var src := old(Held(s, data, offset));
      WellFormed(chunks) && Remaining(src) == Text(chunks) + more && LinesWhole(src, chunks, buffSize) ==>
        r == Body(Datas(chunks)) && Held(s, data, len) == AfterChunks(src, chunks, buffSize)
  {
    hide Remaining, LinesWhole, Starts, OnTrack, Text, Datas, IsLine, Sent, NonEmpty, Loaded, Consumed, AfterChunks;
    len := offset;
    ghost var start := Held(s, data, len);
    ghost var end := AfterChunks(start, chunks, buffSize);
    ghost var fine := WellFormed(chunks) && Remaining(start) == Text(chunks) + more && LinesWhole(start, chunks, buffSize);
    if fine {
      TrackBegins(start, chunks, more, buffSize);
    }
    ghost var left := chunks;
    var body: seq<byte> := [];
    while true
      invariant s.Valid() && len <= buffSize
      invariant fine ==> WellFormed(left) && OnTrack(Held(s, data, len), body, left, more, buffSize, chunks, end)
      decreases |Remaining(Held(s, data, len))|
    {
      ghost var src := Held(s, data, len);
      ghost var c := if fine then left[0] else Chunk([], []);
      ghost var behind := if fine then Text(left[1..]) + more else [];
      if fine {
        TrackStarts(src, body, left, more, buffSize, chunks, end);
        TrackContinues(src, body, left, more, buffSize, chunks, end);
      }
      var one, last;
      one, last, len := NextChunk(s, data, buffSize, len, c, behind);
      if !one.Body? {
        return one, len;
      }
      body := body + one.bytes;
      if fine {
        left := left[1..];
      }
      if last {
        if fine {
          assert left == [];
          TrackEnds(Held(s, data, len), body, more, buffSize, chunks, end);
        }
        return Body(body), len;
      }
    }
  }

  lemma TrackBegins(start: Source, chunks: seq<Chunk>, more: seq<byte>, buffSize: nat)
    requires Remaining(start) == Text(chunks) + more && LinesWhole(start, chunks, buffSize)
    ensures OnTrack(start, [], chunks, more, buffSize, chunks, AfterChunks(start, chunks, buffSize))
  {
    hide Remaining, LinesWhole, Text, AfterChunks;
    assert [] + Datas(chunks) == Datas(chunks);
  }

  lemma TrackEnds(src: Source, body: seq<byte>, more: seq<byte>, buffSize: nat, all: seq<Chunk>, end: Source)
    requires OnTrack(src, body, [], more, buffSize, all, end)
    ensures src == end && body == Datas(all)
  {
    hide Remaining, LinesWhole;
    assert body + [] == body;
  }
}
