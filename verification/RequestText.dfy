/** HttpRequest::dump below the start line, and what a session that receives the text makes of it. */
module RequestText {
  import opened Ascii
  import opened Options
  import opened Bytes
  import opened CaseInsensitive
  import opened Streams
  import opened HeaderMachine
  import opened HeaderText
  import opened Session

  const CONNECTION: seq<byte> := [99, 111, 110, 110, 101, 99, 116, 105, 111, 110]                           // connection
  const CLOSE: seq<byte> := [99, 108, 111, 115, 101]                                                        // close
  const KEEP_ALIVE: seq<byte> := [107, 101, 101, 112, 45, 97, 108, 105, 118, 101]                           // keep-alive
  const CONTENT_LENGTH: seq<byte> := [99, 111, 110, 116, 101, 110, 116, 45, 108, 101, 110, 103, 116, 104]   // content-length

  /** The names and values of the headers that dump adds. */
  lemma Spelled()
    ensures CONNECTION == Chars("connection") && CLOSE == Chars("close") && KEEP_ALIVE == Chars("keep-alive")
    ensures CONTENT_LENGTH == Chars("content-length")
  {
  }

  datatype HttpRequest = HttpRequest(websocket: bool, close: bool, headers: seq<Field>, body: seq<byte>)

  /** The headers that dump prints: all, or all but `connection`. */
  function Others(headers: seq<Field>): (fs: seq<Field>) {
    if headers == [] then []
    else (if SameKey(headers[0].name, CONNECTION) then [] else [headers[0]]) + Others(headers[1..])
  }

  function Dumped(r: HttpRequest): (fs: seq<Field>) {
    (if r.websocket then r.headers else [Field(CONNECTION, if r.close then CLOSE else KEEP_ALIVE)] + Others(r.headers))
    + (if r.body == [] then [] else [Field(CONTENT_LENGTH, Decimal(|r.body|))])
  }

  function Text(r: HttpRequest): (b: seq<byte>) {
    Block(Dumped(r), r.body)
  }

  // ---- numbers ----

  function Decimal(n: nat): (b: seq<byte>)
    ensures b != []
  {
    if n < 10 then [48 + n] else Decimal(n / 10) + [48 + n % 10]
  }

  predicate AllDigits(b: seq<byte>) {
    b != [] && forall i :: 0 <= i < |b| ==> 48 <= b[i] <= 57
  }

  function Value(b: seq<byte>): (n: nat)
    requires forall i :: 0 <= i < |b| ==> 48 <= b[i] <= 57
  {
    if b == [] then 0 else Value(b[..|b| - 1]) * 10 + (b[|b| - 1] - 48)
  }

  lemma {:induction false} DecimalRoundTrip(n: nat)
    ensures AllDigits(Decimal(n)) && Value(Decimal(n)) == n
  {
    var b := Decimal(n);
    if n < 10 {
      assert b[..0] == [];
    } else {
      DecimalRoundTrip(n / 10);
      assert b[..|b| - 1] == Decimal(n / 10);
    }
  }

  function Pow10(i: nat): (p: nat)
    ensures p > 0
  {
    if i == 0 then 1 else 10 * Pow10(i - 1)
  }

  lemma NextDigit(n: nat, i: nat)
    requires i > 0
    ensures n / Pow10(i) == n / 10 / Pow10(i - 1)
  {
    DivDiv(n, 10, Pow10(i - 1));
  }

  /** Counted from the end, digit `i` is how often 10^i goes in, and there is no leading zero. */
  lemma {:induction false} DecimalAt(n: nat, i: nat)
    requires i < |Decimal(n)|
    ensures Decimal(n)[|Decimal(n)| - 1 - i] == '0' as int + n / Pow10(i) % 10
    ensures n >= 10 ==> Decimal(n)[0] != '0' as int
    decreases n
  {
    if n >= 10 {
      hide Pow10;
      var rest := Decimal(n / 10);
      DecimalAt(n / 10, if i > 0 then i - 1 else 0);
      assert Decimal(n)[0] == rest[0];
      if i > 0 {
        NextDigit(n, i);
        assert Decimal(n)[|Decimal(n)| - 1 - i] == rest[|rest| - i];
      } else {
        NoPower(n);
      }
    } else {
      NoPower(n);
    }
  }

  lemma NoPower(n: nat)
    ensures n / Pow10(0) == n
  {
  }

  // ---- lookup ----

  /** setHeader overwrites, so the last field with a name counts. */
  function Lookup(fields: seq<Field>, name: seq<byte>): (v: Option<seq<byte>>) {
    if fields == [] then None
    else
      var last := fields[|fields| - 1];
      if SameKey(last.name, name) then Some(last.value) else Lookup(fields[..|fields| - 1], name)
  }

  /** getContentLength, for values that are absent or made of digits; anything else counts as absent here. */
  function ContentLength(fields: seq<Field>): (n: nat) {
    var v := Lookup(fields, CONTENT_LENGTH);
    if v.Some? && AllDigits(v.value) && Value(v.value) < 0x1_0000_0000_0000_0000 then Value(v.value) else 0
  }

  lemma {:induction false} LookupAppend(a: seq<Field>, b: seq<Field>, name: seq<byte>)
    ensures Lookup(a + b, name) == if Lookup(b, name).Some? then Lookup(b, name) else Lookup(a, name)
    decreases |b|
  {
    hide SameKey;
    if b == [] {
      assert a + b == a;
    } else {
      assert (a + b)[..|a + b| - 1] == a + b[..|b| - 1];
      LookupAppend(a, b[..|b| - 1], name);
    }
  }

  lemma LookupOne(f: Field, name: seq<byte>)
    ensures Lookup([f], name) == if SameKey(f.name, name) then Some(f.value) else None
  {
    assert [f][..0] == [];
  }

  lemma KeysDiffer()
    ensures !SameKey(CONNECTION, CONTENT_LENGTH)
  {
    hide Folded;
    FoldedLength(CONNECTION);
    FoldedLength(CONTENT_LENGTH);
  }

  /** Leaving `connection` out does not change what is found under any other name. */
  lemma {:induction false} OthersKeep(headers: seq<Field>, name: seq<byte>)
    requires !SameKey(CONNECTION, name)
    ensures Lookup(Read(Others(headers)), name) == Lookup(Read(headers), name)
    decreases |headers|
  {
    hide SameKey, Lookup;
    if headers != [] {
      var h, rest := headers[0], headers[1..];
      OthersKeep(rest, name);
      assert headers == [h] + rest;
      ReadAppend([h], rest);
      LookupAppend(Read([h]), Read(rest), name);
      if SameKey(h.name, CONNECTION) {
        assert Others(headers) == Others(rest);
        NotUnder(h, name);
      } else {
        ReadAppend([h], Others(rest));
        LookupAppend(Read([h]), Read(Others(rest)), name);
      }
    }
  }

  /** No other header is called `connection`. */
  lemma {:induction false} OthersHaveNone(headers: seq<Field>)
    ensures Lookup(Read(Others(headers)), CONNECTION) == None
    decreases |headers|
  {
    hide SameKey, Lookup;
    if headers == [] {
      assert Lookup(Read(Others(headers)), CONNECTION) == None by {
        NothingFound(CONNECTION);
      }
    } else {
      var h, rest := headers[0], headers[1..];
      OthersHaveNone(rest);
      if SameKey(h.name, CONNECTION) {
        assert Others(headers) == Others(rest);
      } else {
        ReadAppend([h], Others(rest));
        LookupAppend(Read([h]), Read(Others(rest)), CONNECTION);
        UnderOne(h, CONNECTION);
      }
    }
  }

  lemma NothingFound(name: seq<byte>)
    ensures Lookup(Read([]), name) == None
  {
  }

  /** What one printed header is found under. */
  lemma UnderOne(h: Field, name: seq<byte>)
    ensures Lookup(Read([h]), name) == if SameKey(h.name, name) then Some(Stripped(h.value)) else None
  {
    assert [h][1..] == [];
    assert Read([h]) == [Delivered(h)];
    LookupOne(Delivered(h), name);
  }

  lemma NotUnder(h: Field, name: seq<byte>)
    requires SameKey(h.name, CONNECTION) && !SameKey(CONNECTION, name)
    ensures Lookup(Read([h]), name) == None
  {
    hide Lookup;
    UnderOne(h, name);
  }

  // ---- the printed fields ----

  lemma {:induction false} OthersGood(headers: seq<Field>)
    requires Good(headers)
    ensures Good(Others(headers))
    decreases |headers|
  {
    hide GoodName, GoodValue, SameKey;
    if headers != [] {
      assert headers == [headers[0]] + headers[1..];
      GoodParts([headers[0]], headers[1..]);
      OthersGood(headers[1..]);
      GoodParts([headers[0]], Others(headers[1..]));
    }
  }

  lemma DumpedGood(r: HttpRequest)
    requires Good(r.headers)
    ensures Good(Dumped(r))
  {
    hide Others;
    var c := Field(CONNECTION, if r.close then CLOSE else KEEP_ALIVE);
    var l := Field(CONTENT_LENGTH, Decimal(|r.body|));
    DecimalRoundTrip(|r.body|);
    assert Good([c]) && Good([l]);
    OthersGood(r.headers);
    GoodParts([c], Others(r.headers));
    GoodParts(r.headers, [l]);
    GoodParts([c] + Others(r.headers), [l]);
    assert r.headers + [] == r.headers && [c] + Others(r.headers) + [] == [c] + Others(r.headers);
  }

  /**
   What a receiver finds under each name: `connection` says whether it is closed, `content-length` how long the body
   is unless that is empty, and all else is as in the request's own headers. A websocket request keeps its `connection`.
   */
  lemma DumpKeepsHeaders(r: HttpRequest, name: seq<byte>)
    ensures Lookup(Read(Dumped(r)), name) ==
      if r.body != [] && SameKey(CONTENT_LENGTH, name) then Some(Decimal(|r.body|))
      else if !r.websocket && SameKey(CONNECTION, name) then Some(if r.close then CLOSE else KEEP_ALIVE)
      else Lookup(Read(r.headers), name)
  {
    hide Lookup, Others, Read, Stripped, Decimal, Folded;
    var c := Field(CONNECTION, if r.close then CLOSE else KEEP_ALIVE);
    var head := if r.websocket then r.headers else [c] + Others(r.headers);
    HeadFound(r, c, name);
    if r.body != [] {
      var l := Field(CONTENT_LENGTH, Decimal(|r.body|));
      DecimalRoundTrip(|r.body|);
      NoBlankInFront(l.value);
      ReadAppend(head, [l]);
      LookupAppend(Read(head), Read([l]), name);
      UnderOne(l, name);
    } else {
      assert Dumped(r) == head;
    }
  }

  lemma HeadFound(r: HttpRequest, c: Field, name: seq<byte>)
    requires c == Field(CONNECTION, if r.close then CLOSE else KEEP_ALIVE)
    ensures Lookup(Read([c] + Others(r.headers)), name) == if SameKey(CONNECTION, name) then Some(c.value) else Lookup(Read(r.headers), name)
  {
    hide Lookup, Others, Read, Folded;
    ReadAppend([c], Others(r.headers));
    LookupAppend(Read([c]), Read(Others(r.headers)), name);
    UnderOne(c, name);
    if SameKey(CONNECTION, name) {
      OthersHaveNone(r.headers);
      SameLookup(Read(Others(r.headers)), CONNECTION, name);
    } else {
      OthersKeep(r.headers, name);
    }
  }

  lemma {:induction false} SameLookup(fields: seq<Field>, a: seq<byte>, b: seq<byte>)
    requires SameKey(a, b)
    ensures Lookup(fields, a) == Lookup(fields, b)
    decreases |fields|
  {
    if fields != [] {
      SameLookup(fields[..|fields| - 1], a, b);
    }
  }

  lemma NoBlankInFront(v: seq<byte>)
    requires AllDigits(v)
    ensures Stripped(v) == v
  {
  }

  /** The length a receiver finds: that of the body, or with an empty body whatever the request's own headers say. */
  lemma AnnouncedLength(r: HttpRequest)
    requires |r.body| < 0x1_0000_0000_0000_0000
    ensures ContentLength(Read(Dumped(r))) == if r.body != [] then |r.body| else ContentLength(Read(r.headers))
  {
    hide Lookup, Dumped, Read, Decimal, Folded;
    DumpKeepsHeaders(r, CONTENT_LENGTH);
    DecimalRoundTrip(|r.body|);
    KeysDiffer();
  }

  /** What recvRequest returns for bytes that follow the start line, as its contract says. */
  predicate Receives(packets: seq<seq<byte>>, buffSize: nat, r: Option<Request>)
    requires NonEmpty(packets) && buffSize > 0
  {
    var f := Feed(13, [], Reads(packets, buffSize));
    var n := ContentLength(f.fields);
    r == if f.done && n <= |f.leftover| then Some(Request(f.fields, f.leftover[..n])) else None
  }

  method Receive(s: Stream, buffSize: nat) returns (r: Option<Request>)
    requires s.Valid() && buffSize > 0
    modifies s
    ensures ContentLength(Feed(13, [], Reads(old(s.packets), buffSize)).fields) < 0x8000_0000 ==> Receives(old(s.packets), buffSize, r)
  {
    hide Feed, Reads, ContentLength;
    r := RecvRequest(s, buffSize, fields => ContentLength(fields));
  }

  /**
   A request printed by dump and followed by anything, in packets that are not cut inside a header line, arrives with
   its fields; it arrives with its body if and only if that is not empty or the headers do not announce a length.
   */
  lemma DumpIsReceived(r: HttpRequest, more: seq<byte>, packets: seq<seq<byte>>, buffSize: nat, got: Option<Request>)
    requires Good(r.headers) && |r.body| < 0x8000_0000 && NonEmpty(packets) && buffSize > 0
    requires Concat(packets) == Text(r) + more && SafelyCut(13, [], Reads(packets, buffSize))
    requires Receives(packets, buffSize, got)
    ensures got == Some(Request(Read(Dumped(r)), r.body)) <==> r.body != [] || ContentLength(Read(r.headers)) == 0
  {
    hide Feed, Reads, ContentLength, SafelyCut, Dumped, Lines, Good;
    var fs := Dumped(r);
    DumpedGood(r);
    AnnouncedLength(r);
    assert Text(r) + more == Block(fs, r.body + more);
    PrintedRequestIsReceived(fs, r.body, more, packets, buffSize);
    var f := Feed(13, [], Reads(packets, buffSize));
    assert f.leftover[..|r.body|] == r.body;
  }
}
