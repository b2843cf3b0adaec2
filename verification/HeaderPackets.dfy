/** A printed header block that arrives in any number of packets, cut anywhere. */
module HeaderPackets {
  import opened Bytes
  import opened HeaderMachine
  import opened HeaderText
  import opened HeaderCuts

  // ---- one line ----

  /** The last place of a line at which a cut is inside it: before its carriage return. */
  function Inner(f: Field): (k: nat) {
    |f.name| + |f.value| + 2
  }

  /** The parts of a line from byte `k` to `e`, when that ends before its carriage return. */
  lemma InnerParts(f: Field, k: nat, e: nat)
    requires GoodName(f.name) && GoodValue(f.value) && 0 < k <= e <= Inner(f) && e <= |Line(f)|
    ensures var b, n := Line(f)[k..e], |f.name| - k;
      if e <= |f.name| then NameBytes(b, 0, |b|)
      else if n >= 0 then NameBytes(b, 0, n) && n < |b| && b[n] == COLON && ValueBytes(b, n + 1, |b|)
      else ValueBytes(b, 0, |b|)
  {
    hide NameByte, ValueByte, Line;
    LineParts(f, k);
    var b := Line(f)[k..e];
    assert forall i :: 0 <= i < |b| ==> b[i] == Line(f)[k..][i];
  }

  lemma MiddlePart(cs: nat, fields: seq<Field>, f: Field, k: nat, e: nat)
    requires GoodName(f.name) && GoodValue(f.value) && 0 < k <= e <= Inner(f) && e <= |Line(f)| && InLine(cs, f, k)
    ensures var o := Parse(cs, fields, Line(f)[k..e]);
      !o.done && o.fields == fields && InLine(o.cs, f, e)
  {
    hide NameBytes, ValueBytes, Line, GoodName, GoodValue, Stripped, Move;
    InnerParts(f, k, e);
    var b, n := Line(f)[k..e], |f.name| - k;
    var m := Machine(cs, 0, 0, 0, false, fields);
    if e <= |f.name| {
      NameRun(m, b, 0, |b|);
    } else if n >= 0 {
      NameRun(m, b, 0, n);
      Colon(m, b, n);
      var m2 := ValueRun(m.(cs := 15, len := n), b, n + 1, |b|);
    } else {
      var m2 := ValueRun(m, b, 0, |b|);
    }
  }

  /** From the start of a line or from inside it. */
  predicate UpTo(cs: nat, f: Field, k: nat) {
    if k == 0 then cs == 13 else InLine(cs, f, k)
  }

  /** What is delivered at a line's carriage return, when its last cut was at `k`. */
  function Delivery(f: Field, k: nat): (r: seq<Field>) {
    if k == 0 then [Delivered(f)] else Remnant(f, k)
  }

  /** A packet that ends inside the line delivers nothing; one that reaches the carriage return delivers what it holds of the field. */
  lemma Piece(cs: nat, fields: seq<Field>, f: Field, k: nat, e: nat)
    requires GoodName(f.name) && GoodValue(f.value) && k <= Inner(f) && k <= e <= |Line(f)| && UpTo(cs, f, k)
    ensures var o := Parse(cs, fields, Line(f)[k..e]);
      if e <= Inner(f) then !o.done && o.fields == fields && UpTo(o.cs, f, e)
      else o == Outcome(if e == |Line(f)| then 13 else 17, false, fields + Delivery(f, k), e - k)
  {
    hide Parse, Line, GoodName, GoodValue, InLine, Remnant;
    LineLength(f);
    if e == 0 {
      assert Line(f)[k..e] == [];
      NothingYet(fields);
    } else if k == 0 {
      assert Line(f)[0..e] == Line(f)[..e];
      if e <= Inner(f) {
        FirstPart(fields, f, e);
      } else {
        LineTaken(fields, f, e);
      }
    } else if e <= Inner(f) {
      MiddlePart(cs, fields, f, k, e);
    } else {
      LastPart(cs, fields, f, k, e);
    }
  }

  /** Where the cuts between packets are, counted from `at`. */
  function Cuts(packets: seq<seq<byte>>, at: nat): (cuts: set<nat>)
    decreases |packets|
  {
    if |packets| <= 1 then {} else {at + |packets[0]|} + Cuts(packets[1..], at + |packets[0]|)
  }

  /** Some cut of a line, read from byte `k` on, falls inside it. */
  predicate Cut(f: Field, k: nat, packets: seq<seq<byte>>) {
    exists c :: c in Cuts(packets, k) && 0 < c <= Inner(f)
  }

  /** Either the whole field, or something that can be told apart from it. */
  predicate Spoiled(f: Field, r: seq<Field>) {
    r == [] || (|r| == 1 && |r[0].name| < |f.name|)
  }

  lemma EmptyPackets(cs: nat, fields: seq<Field>, packets: seq<seq<byte>>)
    requires IsState(cs) && cs != 0 && Concat(packets) == []
    ensures Feed(cs, fields, packets) == Fed(cs, false, fields, [])
    decreases |packets|
  {
    if packets != [] {
      EmptyPackets(cs, fields, packets[1..]);
    }
  }

  lemma {:induction false} OnlyLineFeed(fields: seq<Field>, packets: seq<seq<byte>>)
    requires Concat(packets) == [LF]
    ensures Feed(17, fields, packets) == Fed(13, false, fields, [])
    decreases |packets|
  {
    var p := packets[0];
    if p == [] {
      OnlyLineFeed(fields, packets[1..]);
    } else {
      assert p == [LF] && Concat(packets[1..]) == [];
      var m := Machine(17, 0, 0, 0, false, fields);
      assert Run(m.(cs := 13), p, 1) == (m.(cs := 13), 1);
      EmptyPackets(13, fields, packets[1..]);
    }
  }

  /** The cuts lie within the packets. */
  lemma {:induction false} CutsWithin(packets: seq<seq<byte>>, at: nat, c: nat)
    requires c in Cuts(packets, at)
    ensures at <= c <= at + |Concat(packets)|
    decreases |packets|
  {
    if |packets| > 1 && c != at + |packets[0]| {
      CutsWithin(packets[1..], at + |packets[0]|, c);
    }
  }

  lemma {:induction false} CutsMoved(packets: seq<seq<byte>>, at: nat, d: nat, c: nat)
    ensures c in Cuts(packets, at) <==> c + d in Cuts(packets, at + d)
    decreases |packets|
  {
    if |packets| > 1 {
      CutsMoved(packets[1..], at + |packets[0]|, d, c);
    }
  }

  /** What the packets of a line, read from byte `k` on, deliver: it depends on the last cut inside the line alone. */
  function LineFields(f: Field, k: nat, packets: seq<seq<byte>>): (r: seq<Field>)
    decreases |packets|
  {
    if packets == [] then []
    else
      var e := k + |packets[0]|;
      if e > Inner(f) then Delivery(f, k) else LineFields(f, e, packets[1..])
  }

  lemma {:induction false} LineFed(cs: nat, fields: seq<Field>, f: Field, k: nat, packets: seq<seq<byte>>)
    requires GoodName(f.name) && GoodValue(f.value) && k <= Inner(f) && UpTo(cs, f, k)
    requires k <= |Line(f)| && Concat(packets) == Line(f)[k..]
    ensures Feed(cs, fields, packets) == Fed(13, false, fields + LineFields(f, k, packets), [])
    decreases |packets|
  {
    hide Parse, Line, GoodName, GoodValue, Delivery;
    LineLength(f);
    var p, more := packets[0], packets[1..];
    var e := k + |p|;
    assert p == Concat(packets)[..|p|] && Concat(more) == Concat(packets)[|p|..];
    assert p == Line(f)[k..e] && Concat(more) == Line(f)[e..];
    Piece(cs, fields, f, k, e);
    if e <= Inner(f) {
      LineFed(Parse(cs, fields, p).cs, fields, f, e, more);
    } else if e == |Line(f)| {
      EmptyPackets(13, fields + Delivery(f, k), more);
    } else {
      LineFeedLeft(f);
      OnlyLineFeed(fields + Delivery(f, k), more);
    }
  }

  lemma LineFeedLeft(f: Field)
    ensures |Line(f)| > 0 && Line(f)[|Line(f)| - 1..] == [LF]
  {
  }

  /** A line delivers its field exactly when it is not cut inside. */
  lemma {:induction false} LineSurvives(f: Field, k: nat, packets: seq<seq<byte>>)
    requires k <= Inner(f) && |Concat(packets)| == Inner(f) + 2 - k && f.name != []
    ensures var r := LineFields(f, k, packets);
      if k == 0 && !Cut(f, k, packets) then r == [Delivered(f)] else Spoiled(f, r)
    decreases |packets|
  {
    hide Stripped;
    var more, e := packets[1..], k + |packets[0]|;
    if e > Inner(f) {
      forall c | c in Cuts(packets, k)
        ensures c > Inner(f)
      {
        if c != e {
          CutsWithin(more, e, c);
        }
      }
    } else {
      assert |packets| > 1;
      assert e in Cuts(packets, k);
      assert Cuts(packets, k) == {e} + Cuts(more, e);
      LineSurvives(f, e, more);
    }
  }

  // ---- packets taken apart at a byte ----

  function Before(packets: seq<seq<byte>>, n: nat): (r: seq<seq<byte>>)
    requires n <= |Concat(packets)|
    ensures Concat(r) == Concat(packets)[..n]
    decreases |packets|
  {
    if n == 0 then []
    else if n <= |packets[0]| then [packets[0][..n]]
    else [packets[0]] + Before(packets[1..], n - |packets[0]|)
  }

  function After(packets: seq<seq<byte>>, n: nat): (r: seq<seq<byte>>)
    requires n <= |Concat(packets)|
    ensures Concat(r) == Concat(packets)[n..]
    decreases |packets|
  {
    if n == 0 then packets
    else if n <= |packets[0]| then [packets[0][n..]] + packets[1..]
    else After(packets[1..], n - |packets[0]|)
  }

  /** A further cut between lines changes nothing. */
  lemma {:induction false} TakenApart(cs: nat, fields: seq<Field>, packets: seq<seq<byte>>, n: nat, fields': seq<Field>)
    requires IsState(cs) && n <= |Concat(packets)| && Feed(cs, fields, Before(packets, n)) == Fed(13, false, fields', [])
    ensures Feed(cs, fields, packets) == Feed(13, fields', After(packets, n))
    decreases |packets|
  {
    hide Parse;
    if n > 0 {
      var p, more := packets[0], packets[1..];
      if n <= |p| {
        assert Before(packets, n)[1..] == [];
        CutIsInvisible(cs, fields, p, n);
        var o, o' := Parse(cs, fields, p), Parse(13, fields', p[n..]);
        assert After(packets, n)[1..] == more;
        assert p[o.consumed..] == p[n..][o'.consumed..];
      } else {
        assert Before(packets, n)[1..] == Before(more, n - |p|);
        var o := Parse(cs, fields, p);
        TakenApart(o.cs, o.fields, more, n - |p|, fields');
      }
    }
  }

  lemma CutsAfterFirst(first: seq<byte>, more: seq<seq<byte>>, at: nat)
    ensures Cuts([first] + more, at) == if more == [] then {} else {at + |first|} + Cuts(more, at + |first|)
  {
    assert ([first] + more)[1..] == more;
  }

  lemma SomethingBefore(packets: seq<seq<byte>>, n: nat)
    requires 0 < n <= |Concat(packets)|
    ensures packets != [] && Before(packets, n) != []
  {
  }

  lemma ApartLater(packets: seq<seq<byte>>, n: nat)
    requires packets != [] && |packets[0]| < n <= |Concat(packets)|
    ensures n - |packets[0]| <= |Concat(packets[1..])|
    ensures Before(packets, n) == [packets[0]] + Before(packets[1..], n - |packets[0]|)
    ensures After(packets, n) == After(packets[1..], n - |packets[0]|)
  {
  }

  lemma CutsApartInFirst(packets: seq<seq<byte>>, at: nat, n: nat)
    requires packets != [] && 0 < n <= |packets[0]| && n <= |Concat(packets)|
    ensures Cuts(Before(packets, n), at) == {} && Cuts(After(packets, n), at + n) == Cuts(packets, at)
  {
    hide Cuts, Concat;
    var p, more := packets[0], packets[1..];
    assert packets == [p] + more;
    CutsAfterFirst(p, more, at);
    CutsAfterFirst(p[n..], more, at + n);
    CutsAfterFirst(p[..n], [], at);
    assert [p[..n]] == [p[..n]] + [];
  }

  lemma NothingBefore(packets: seq<seq<byte>>, at: nat)
    ensures Cuts(Before(packets, 0), at) == {} && After(packets, 0) == packets
  {
  }

  /** The cuts of both parts are the cuts of the whole, but for the place where it was taken apart. */
  lemma {:induction false} CutsTakenApart(packets: seq<seq<byte>>, at: nat, n: nat, c: nat)
    requires n <= |Concat(packets)| && c != at + n
    ensures c in Cuts(packets, at) <==> c in Cuts(Before(packets, n), at) || c in Cuts(After(packets, n), at + n)
    decreases |packets|
  {
    hide Cuts, Before, After, Concat;
    if n == 0 {
      NothingBefore(packets, at);
    } else {
      SomethingBefore(packets, n);
      var p, more := packets[0], packets[1..];
      if n <= |p| {
        CutsApartInFirst(packets, at, n);
      } else {
        ApartLater(packets, n);
        SomethingBefore(more, n - |p|);
        CutsTakenApart(more, at + |p|, n - |p|, c);
        CutsAfterFirst(p, more, at);
        assert packets == [p] + more;
        CutsAfterFirst(p, Before(more, n - |p|), at);
      }
    }
  }

  // ---- the whole block ----

  /** A cut at `c` is inside one of the lines, the first of which starts at `at`. */
  predicate InsideLine(fs: seq<Field>, at: nat, c: nat)
    ensures InsideLine(fs, at, c) ==> at < c
  {
    fs != [] && (at < c <= at + Inner(fs[0]) || InsideLine(fs[1..], at + Inner(fs[0]) + 2, c))
  }

  predicate NoneInside(fs: seq<Field>, at: nat, packets: seq<seq<byte>>) {
    forall c :: c in Cuts(packets, at) ==> !InsideLine(fs, at, c)
  }

  lemma InsideOne(fs: seq<Field>, at: nat, packets: seq<seq<byte>>, c: nat)
    requires fs != [] && Inner(fs[0]) + 2 <= |Concat(packets)|
    ensures var n := Inner(fs[0]) + 2;
      c in Cuts(packets, at) && InsideLine(fs, at, c) <==>
      (at < c <= at + Inner(fs[0]) && c in Cuts(Before(packets, n), at)) ||
      (InsideLine(fs[1..], at + n, c) && c in Cuts(After(packets, n), at + n))
  {
    hide Cuts, Before, After, Inner;
    var n := Inner(fs[0]) + 2;
    if c != at + n {
      CutsTakenApart(packets, at, n, c);
      if c in Cuts(Before(packets, n), at) {
        CutsWithin(Before(packets, n), at, c);
      }
      if c in Cuts(After(packets, n), at + n) {
        CutsWithin(After(packets, n), at + n, c);
      }
    }
  }

  lemma NoneInsideIff(fs: seq<Field>, at: nat, packets: seq<seq<byte>>)
    requires fs != [] && Inner(fs[0]) + 2 <= |Concat(packets)|
    ensures var n := Inner(fs[0]) + 2;
      NoneInside(fs, at, packets) <==> !Cut(fs[0], 0, Before(packets, n)) && NoneInside(fs[1..], at + n, After(packets, n))
  {
    hide Cuts, Before, After, Inner, InsideLine;
    var f, n := fs[0], Inner(fs[0]) + 2;
    var a, b := Before(packets, n), After(packets, n);
    if NoneInside(fs, at, packets) {
      forall c | c in Cuts(a, 0)
        ensures !(0 < c <= Inner(f))
      {
        CutsMoved(a, 0, at, c);
        InsideOne(fs, at, packets, c + at);
      }
      var later := at + n;
      forall c | c in Cuts(b, later)
        ensures !InsideLine(fs[1..], later, c)
      {
        InsideOne(fs, at, packets, c);
      }
    } else {
      var c :| c in Cuts(packets, at) && InsideLine(fs, at, c);
      InsideOne(fs, at, packets, c);
      if at < c <= at + Inner(f) && c in Cuts(a, at) {
        CutsMoved(a, 0, at, c - at);
      }
    }
  }

  lemma {:induction false} LastLineFeed(fields: seq<Field>, body: seq<byte>, packets: seq<seq<byte>>)
    requires Concat(packets) == [LF] + body
    ensures Feed(18, fields, packets) == Fed(348, true, fields, body)
    decreases |packets|
  {
    hide Move;
    var p, more := packets[0], packets[1..];
    if p == [] {
      LastLineFeed(fields, body, more);
    } else {
      assert p[0] == Concat(packets)[0];
      BlankLineEnds(Machine(18, 0, 0, 0, false, fields), p, 0);
      assert p[1..] + Concat(more) == Concat(packets)[1..] == body;
    }
  }

  /** The blank line ends the block however it is cut, and so does what follows it. */
  lemma {:induction false} BlankLineFed(fields: seq<Field>, body: seq<byte>, packets: seq<seq<byte>>)
    requires Concat(packets) == [CR, LF] + body
    ensures Feed(13, fields, packets) == Fed(348, true, fields, body)
    decreases |packets|
  {
    hide Parse;
    var p, more := packets[0], packets[1..];
    if p == [] {
      NothingYet(fields);
      BlankLineFed(fields, body, more);
    } else if |p| == 1 {
      ReturnOnly(fields);
      assert p == Concat(packets)[..1] == [CR] && Concat(more) == Concat(packets)[1..] == [LF] + body;
      LastLineFeed(fields, body, more);
    } else {
      assert p[..2] == Concat(packets)[..2] == [CR, LF];
      assert p == [CR, LF] + p[2..];
      BlankLine(fields, p[2..]);
      assert p[2..] + Concat(more) == Concat(packets)[2..] == body;
    }
  }

  lemma ReturnOnly(fields: seq<Field>)
    ensures Parse(13, fields, [CR]) == Outcome(18, false, fields, 1)
  {
    var m := Machine(13, 0, 0, 0, false, fields);
    assert Move(m, [CR], 0) == m.(cs := 18);
    assert Run(m.(cs := 18), [CR], 1) == (m.(cs := 18), 1);
  }

  /**
   The exact condition, for any packets of any printed block: every field is read as it was printed if and only if no
   cut falls inside a line. Whatever the cuts, the block ends where it ends and the body is left.
   */
  lemma {:induction false} PacketsSurviveIff(fields: seq<Field>, fs: seq<Field>, body: seq<byte>, packets: seq<seq<byte>>, at: nat)
    requires Good(fs) && Concat(packets) == Block(fs, body)
    ensures var r := Feed(13, fields, packets);
      && r.cs == 348 && r.done && r.leftover == body
      && fields <= r.fields && |r.fields| <= |fields| + |fs|
      && (r.fields == fields + Read(fs) <==> NoneInside(fs, at, packets))
    decreases |fs|
  {
    hide Feed, Line, Block, GoodName, GoodValue, Cuts, Before, After, NoneInside, Cut, LineFields, Read, Delivered;
    if fs == [] {
      EmptyBlock(body);
      BlankLineFed(fields, body, packets);
      NothingInside(at, packets);
      assert fields + Read(fs) == fields;
    } else {
      var f, rest := fs[0], fs[1..];
      var n := |Line(f)|;
      LineLength(f);
      FirstLineApart(fs, body, packets);
      var a, b := Before(packets, n), After(packets, n);
      var got := LineFields(f, 0, a);
      LineFed(13, fields, f, 0, a);
      TakenApart(13, fields, packets, n, fields + got);
      PacketsSurviveIff(fields + got, rest, body, b, at + n);
      GoodHasName(f);
      LineSurvives(f, 0, a);
      NoneInsideIff(fs, at, packets);
      SpoiledShows(fields, got, f, Feed(13, fields, packets).fields, Read(rest));
      ReadFirst(fields, fs);
    }
  }

  lemma EmptyBlock(body: seq<byte>)
    ensures Block([], body) == [CR, LF] + body
  {
  }

  lemma ReadFirst(fields: seq<Field>, fs: seq<Field>)
    requires fs != []
    ensures fields + Read(fs) == fields + [Delivered(fs[0])] + Read(fs[1..])
  {
  }

  lemma FirstLineApart(fs: seq<Field>, body: seq<byte>, packets: seq<seq<byte>>)
    requires fs != [] && Concat(packets) == Block(fs, body)
    ensures var n := |Line(fs[0])|;
      && n <= |Concat(packets)|
      && Concat(Before(packets, n)) == Line(fs[0])[0..]
      && Concat(After(packets, n)) == Block(fs[1..], body)
  {
    hide Line, Before, After, Concat;
    assert Block(fs, body) == Line(fs[0]) + Block(fs[1..], body);
  }

  lemma NothingInside(at: nat, packets: seq<seq<byte>>)
    ensures NoneInside([], at, packets)
  {
  }

  lemma GoodHasName(f: Field)
    requires GoodName(f.name)
    ensures f.name != []
  {
  }

  /** A spoiled line cannot be made up for by the lines after it. */
  lemma SpoiledShows(fields: seq<Field>, got: seq<Field>, f: Field, all: seq<Field>, others: seq<Field>)
    requires fields + got <= all && |all| <= |fields| + |got| + |others|
    ensures Spoiled(f, got) ==> all != fields + [Delivered(f)] + others
  {
    hide Stripped;
    if Spoiled(f, got) && |got| == 1 {
      assert (fields + got)[|fields|] == got[0];
      assert (fields + [Delivered(f)] + others)[|fields|] == Delivered(f);
    }
  }
}
