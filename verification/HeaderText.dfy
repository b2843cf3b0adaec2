/** What the header machine makes of printed header lines, whole and cut into packets. */
module HeaderText {
  import opened Ascii
  import opened Bytes
  import opened HeaderMachine

  // ---- a run that starts in the middle of a text ----

  /** `m` reads a text at some place, `n` the text without its first `c` bytes, and they cannot be told apart. */
  predicate Shifted(m: Machine, n: Machine, c: nat) {
    && m.cs == n.cs && m.done == n.done && m.fields == n.fields
    && (m.cs in {14, 15, 16, 18} ==> m.start == n.start + c)
    && (m.cs in {15, 16} ==> m.len == n.len)
    && (m.cs == 16 ==> m.mark == n.mark + c)
  }

  lemma SameDelivery(m: Machine, n: Machine, b: seq<byte>, c: nat, p: nat)
    requires c + p <= |b| && m.mark == n.mark + c && m.start == n.start + c && m.len == n.len && m.fields == n.fields
    requires n.mark <= p && n.start + n.len <= p
    ensures Deliver(m, b, c + p).fields == Deliver(n, b[c..], p).fields
  {
    assert b[m.start..m.start + m.len] == b[c..][n.start..n.start + n.len];
    assert b[m.mark..c + p] == b[c..][n.mark..p];
  }

  lemma ShiftedMove(m: Machine, n: Machine, b: seq<byte>, c: nat, p: nat)
    requires Marked(m, c + p) && Marked(n, p) && c + p < |b| && m.cs != 0 && m.cs != 348 && Shifted(m, n, c)
    ensures Shifted(Move(m, b, c + p), Move(n, b[c..], p), c)
  {
    hide IsToken, NameByte;
    assert b[c..][p] == b[c + p];
    if m.cs == 15 {
      SameDelivery(m.(mark := c + p), n.(mark := p), b, c, p);
    } else if m.cs == 16 {
      SameDelivery(m, n, b, c, p);
    }
  }

  lemma NotFinalAgain(m: Machine, b: seq<byte>, p: nat)
    requires Marked(m, p) && p < |b| && m.cs != 0
    ensures Move(m, b, p).cs == 348 ==> Move(m, b, p).done
  {
  }

  lemma {:induction false} ShiftedRun(m: Machine, n: Machine, b: seq<byte>, c: nat, p: nat)
    requires Marked(m, c + p) && Marked(n, p) && c + p <= |b| && Shifted(m, n, c) && (m.cs == 348 ==> m.done)
    ensures Shifted(Run(m, b, c + p).0, Run(n, b[c..], p).0, c)
    ensures Run(m, b, c + p).1 == c + Run(n, b[c..], p).1
    decreases |b| - p
  {
    hide Move;
    if c + p < |b| && m.cs != 0 && !m.done {
      ShiftedMove(m, n, b, c, p);
      NotFinalAgain(m, b, c + p);
      if Move(m, b, c + p).cs != 0 {
        ShiftedRun(Move(m, b, c + p), Move(n, b[c..], p), b, c, p + 1);
      }
    }
  }

  lemma PrefixMove(m: Machine, b: seq<byte>, c: nat, p: nat)
    requires Marked(m, p) && p < c <= |b| && m.cs != 0
    ensures Move(m, b[..c], p) == Move(m, b, p)
  {
    hide IsToken, NameByte;
    if m.cs == 15 || m.cs == 16 {
      assert b[..c][m.start..m.start + m.len] == b[m.start..m.start + m.len];
      assert b[..c][m.mark..p] == b[m.mark..p];
      assert b[..c][p..p] == b[p..p];
    }
  }

  /** What is done with a prefix is done with the whole text. */
  lemma {:induction false} PrefixRun(m: Machine, b: seq<byte>, c: nat, p: nat)
    requires Marked(m, p) && p <= c <= |b|
    ensures var r := Run(m, b[..c], p);
      Run(m, b, p) == if r.0.cs == 0 || r.0.done then r else Run(r.0, b, c)
    decreases c - p
  {
    hide Move;
    if p < c && m.cs != 0 && !m.done {
      PrefixMove(m, b, c, p);
      if Move(m, b, p).cs != 0 {
        PrefixRun(Move(m, b, p), b, c, p + 1);
      }
    }
  }

  /** States in which the marks do not matter, given the bytes that follow. */
  predicate SafeCut(cs: nat, next: seq<byte>) {
    cs == 13 || cs == 17 || (cs == 18 && next != [] && next[0] == LF)
  }

  function Plus(o: Outcome, c: nat): (r: Outcome) {
    o.(consumed := o.consumed + c)
  }

  /** The line feed that ends the block does not look at the marks either. */
  lemma BlankLineEnds(m: Machine, b: seq<byte>, p: nat)
    requires Marked(m, p) && p < |b| && m.cs == 18 && b[p] == LF && !m.done
    ensures Run(m, b, p) == (m.(cs := 348, done := true), p + 1)
  {
    assert Move(m, b, p) == m.(cs := 348, done := true);
  }

  /** For any text: a cut where the machine is between lines changes nothing. */
  lemma CutIsInvisible(cs: nat, fields: seq<Field>, b: seq<byte>, c: nat)
    requires IsState(cs) && c <= |b|
    requires var o := Parse(cs, fields, b[..c]); !o.done && SafeCut(o.cs, b[c..])
    ensures var o := Parse(cs, fields, b[..c]);
      Parse(cs, fields, b) == Plus(Parse(o.cs, o.fields, b[c..]), c)
  {
    hide Move;
    var m := Machine(cs, 0, 0, 0, false, fields);
    var r := Run(m, b[..c], 0);
    PrefixRun(m, b, c, 0);
    var n := Machine(r.0.cs, 0, 0, 0, false, r.0.fields);
    if r.0.cs == 18 {
      BlankLineEnds(r.0, b, c);
      BlankLineEnds(n, b[c..], 0);
    } else {
      ShiftedRun(r.0, n, b, c, 0);
    }
  }

  // ---- packets ----

  datatype Fed = Fed(cs: nat, done: bool, fields: seq<Field>, leftover: seq<byte>)

  /** execute on one packet after another, until the blank line or an error; what was not consumed stays. */
  function Feed(cs: nat, fields: seq<Field>, packets: seq<seq<byte>>): (f: Fed)
    requires IsState(cs)
    decreases |packets|
  {
    if packets == [] then Fed(cs, false, fields, [])
    else
      var o := Parse(cs, fields, packets[0]);
      if o.cs == 0 || o.done then Fed(o.cs, o.done, o.fields, packets[0][o.consumed..] + Concat(packets[1..]))
      else Feed(o.cs, o.fields, packets[1..])
  }

  /** Every packet but the last ends between lines. */
  predicate SafelyCut(cs: nat, fields: seq<Field>, packets: seq<seq<byte>>)
    requires IsState(cs)
    decreases |packets|
  {
    |packets| <= 1 ||
    var o := Parse(cs, fields, packets[0]);
    o.cs == 0 || o.done || (SafeCut(o.cs, Concat(packets[1..])) && SafelyCut(o.cs, o.fields, packets[1..]))
  }

  function Whole(cs: nat, fields: seq<Field>, b: seq<byte>): (f: Fed)
    requires IsState(cs)
  {
    var o := Parse(cs, fields, b);
    Fed(o.cs, o.done, o.fields, b[o.consumed..])
  }

  lemma StopsInPrefix(cs: nat, fields: seq<Field>, b: seq<byte>, c: nat)
    requires IsState(cs) && c <= |b|
    requires var o := Parse(cs, fields, b[..c]); o.cs == 0 || o.done
    ensures Parse(cs, fields, b) == Parse(cs, fields, b[..c])
  {
    PrefixRun(Machine(cs, 0, 0, 0, false, fields), b, c, 0);
  }

  /** For any text, and any number of packets cut between lines: the same as one buffer holding it all. */
  lemma {:induction false} PacketsDoNotMatter(cs: nat, fields: seq<Field>, packets: seq<seq<byte>>)
    requires IsState(cs) && packets != [] && SafelyCut(cs, fields, packets)
    ensures Feed(cs, fields, packets) == Whole(cs, fields, Concat(packets))
    decreases |packets|
  {
    hide Parse;
    var b := Concat(packets);
    var first, rest := packets[0], Concat(packets[1..]);
    var o := Parse(cs, fields, first);
    assert b[..|first|] == first && b[|first|..] == rest;
    if o.cs == 0 || o.done {
      StopsInPrefix(cs, fields, b, |first|);
      assert b[o.consumed..] == first[o.consumed..] + rest;
    } else if |packets| > 1 {
      CutIsInvisible(cs, fields, b, |first|);
      PacketsDoNotMatter(o.cs, o.fields, packets[1..]);
      var o' := Parse(o.cs, o.fields, rest);
      assert b[o'.consumed + |first|..] == rest[o'.consumed..];
    } else {
      assert packets[1..] == [] && b == first && o.consumed == |first|;
    }
  }

  // ---- printed lines ----

  predicate GoodName(name: seq<byte>) {
    name != [] && NameStart(name[0]) && forall i :: 0 <= i < |name| ==> NameByte(name[i])
  }

  predicate GoodValue(value: seq<byte>) {
    forall i :: 0 <= i < |value| ==> ValueByte(value[i])
  }

  predicate Good(fields: seq<Field>) {
    forall i :: 0 <= i < |fields| ==> GoodName(fields[i].name) && GoodValue(fields[i].value)
  }

  function Line(f: Field): (b: seq<byte>) {
    f.name + [COLON, SPACE] + f.value + [CR, LF]
  }

  function Lines(fields: seq<Field>): (b: seq<byte>) {
    if fields == [] then [] else Line(fields[0]) + Lines(fields[1..])
  }

  function Block(fields: seq<Field>, body: seq<byte>): (b: seq<byte>) {
    Lines(fields) + [CR, LF] + body
  }

  function Stripped(value: seq<byte>): (s: seq<byte>)
    ensures s == value <==> value == [] || !Blank(value[0])
    ensures |s| <= |value|
  {
    if value != [] && Blank(value[0]) then Stripped(value[1..]) else value
  }

  /** What the machine delivers for a field: the value loses its leading blanks. */
  function Read(fields: seq<Field>): (r: seq<Field>)
    ensures |r| == |fields|
  {
    if fields == [] then [] else [Delivered(fields[0])] + Read(fields[1..])
  }

  function Delivered(f: Field): (d: Field) {
    Field(f.name, Stripped(f.value))
  }

  lemma {:induction false} ReadAppend(a: seq<Field>, b: seq<Field>)
    ensures Read(a + b) == Read(a) + Read(b)
    decreases |a|
  {
    if a == [] {
      assert a + b == b;
    } else {
      assert (a + b)[1..] == a[1..] + b;
      ReadAppend(a[1..], b);
    }
  }

  /** Reading gives back what was printed exactly when no value starts with a blank. */
  lemma {:induction false} ReadIsIdentity(fs: seq<Field>)
    ensures Read(fs) == fs <==> forall i :: 0 <= i < |fs| && fs[i].value != [] ==> !Blank(fs[i].value[0])
    decreases |fs|
  {
    if fs != [] {
      var rest := fs[1..];
      ReadIsIdentity(rest);
      assert fs == [fs[0]] + rest;
      assert Read(fs)[0] == Delivered(fs[0]) && Read(fs)[1..] == Read(rest);
      assert forall i :: 0 < i < |fs| ==> fs[i] == rest[i - 1];
      assert forall i :: 0 <= i < |rest| ==> rest[i] == fs[i + 1];
      assert Read(fs) == fs <==> Delivered(fs[0]) == fs[0] && Read(rest) == rest;
    }
  }

  predicate ValueBytes(b: seq<byte>, p: nat, e: nat) {
    p <= e <= |b| && forall i :: p <= i < e ==> ValueByte(b[i])
  }

  predicate NameBytes(b: seq<byte>, p: nat, e: nat) {
    p <= e <= |b| && forall i :: p <= i < e ==> NameByte(b[i])
  }

  lemma {:induction false} NameRun(m: Machine, b: seq<byte>, p: nat, e: nat)
    requires Marked(m, p) && NameBytes(b, p, e) && m.cs == 14 && !m.done
    ensures Run(m, b, p) == Run(m, b, e)
    decreases e - p
  {
    if p < e {
      assert Move(m, b, p) == m;
      NameRun(m, b, p + 1, e);
    }
  }

  /** Inside a value nothing is delivered and no mark of the name changes. */
  lemma {:induction false} ValueRun(m: Machine, b: seq<byte>, p: nat, e: nat) returns (n: Machine)
    requires Marked(m, p) && ValueBytes(b, p, e) && (m.cs == 15 || m.cs == 16) && !m.done
    ensures Marked(n, e) && Run(m, b, p) == Run(n, b, e)
    ensures n == m.(cs := n.cs, mark := n.mark) && (n.cs == 15 || n.cs == 16)
    ensures m.cs == 16 ==> n == m
    ensures m.cs == 15 && n.cs == 15 ==> Stripped(b[p..e]) == []
    ensures m.cs == 15 && n.cs == 16 ==> n.mark <= e && Stripped(b[p..e]) == b[n.mark..e]
    decreases e - p
  {
    n := m;
    if p < e {
      var m' := Move(m, b, p);
      assert b[p..e][1..] == b[p + 1..e];
      n := ValueRun(m', b, p + 1, e);
    }
  }

  /** A line goes on to its carriage return at `e`, or to the line feed after it. */
  predicate EndsAt(b: seq<byte>, e: nat) {
    e < |b| <= e + 2 && b[e] == CR && (|b| == e + 2 ==> b[e + 1] == LF)
  }

  /** The state once such a text has been read. */
  function Ended(b: seq<byte>, e: nat): (cs: nat) {
    if |b| == e + 2 then 13 else 17
  }

  /** The carriage return delivers the field. */
  lemma AtReturn(m: Machine, b: seq<byte>, e: nat)
    requires Marked(m, e) && (m.cs == 15 || m.cs == 16) && e < |b| && b[e] == CR
    ensures var v := if m.cs == 16 then b[m.mark..e] else [];
      var m' := Move(m, b, e);
      m'.cs == 17 && m'.done == m.done
      && m'.fields == if m.len == 0 then m.fields else m.fields + [Field(b[m.start..m.start + m.len], v)]
  {
    hide NameByte, IsToken;
    assert b[e..e] == [];
  }

  lemma AtLineFeed(m: Machine, b: seq<byte>, p: nat)
    requires Marked(m, p) && m.cs == 17 && p < |b| && b[p] == LF
    ensures Move(m, b, p) == m.(cs := 13)
  {
  }

  /** The end of a line, from inside its value. */
  lemma LineEnd(m: Machine, b: seq<byte>, e: nat)
    requires Marked(m, e) && (m.cs == 15 || m.cs == 16) && !m.done && EndsAt(b, e)
    ensures var v := if m.cs == 16 then b[m.mark..e] else [];
      var r := Run(m, b, e);
      r.1 == |b| && r.0.cs == Ended(b, e) && !r.0.done
      && r.0.fields == if m.len == 0 then m.fields else m.fields + [Field(b[m.start..m.start + m.len], v)]
  {
    hide Move;
    var m1 := Move(m, b, e);
    AtReturn(m, b, e);
    if |b| == e + 2 {
      AtLineFeed(m1, b, e + 1);
      var m2 := m1.(cs := 13);
      assert Run(m2, b, e + 2) == (m2, e + 2);
    } else {
      assert Run(m1, b, e + 1) == (m1, e + 1);
    }
  }

  /** From the byte after a name's colon to the end of the line. */
  lemma RestOfLine(m: Machine, b: seq<byte>, p: nat, e: nat)
    requires Marked(m, p) && ValueBytes(b, p, e) && (m.cs == 15 || m.cs == 16) && !m.done && EndsAt(b, e)
    ensures var r := Run(m, b, p);
      r.1 == |b| && r.0.cs == Ended(b, e) && !r.0.done
      && (m.len == 0 ==> r.0.fields == m.fields)
      && (m.len > 0 && m.cs == 15 ==> r.0.fields == m.fields + [Field(b[m.start..m.start + m.len], Stripped(b[p..e]))])
  {
    hide Move, Run, Ended, ValueByte, Stripped, Marked, IsState;
    var n := ValueRun(m, b, p, e);
    LineEnd(n, b, e);
  }

  /** From inside a name to the end of the line. */
  lemma RestFromName(m: Machine, b: seq<byte>, p: nat, e: nat, f: nat)
    requires Marked(m, p) && NameBytes(b, p, e) && m.cs == 14 && !m.done
    requires ValueBytes(b, e + 1, f) && e < f && b[e] == COLON && EndsAt(b, f)
    ensures var r := Run(m, b, p);
      r.1 == |b| && r.0.cs == Ended(b, f) && !r.0.done
      && r.0.fields == if m.start == e then m.fields else m.fields + [Field(b[m.start..e], Stripped(b[e + 1..f]))]
  {
    hide NameByte, ValueByte, Move, Stripped;
    NameRun(m, b, p, e);
    Colon(m, b, e);
    RestOfLine(m.(cs := 15, len := e - m.start), b, e + 1, f);
  }

  lemma Colon(m: Machine, b: seq<byte>, p: nat)
    requires Marked(m, p) && p < |b| && m.cs == 14 && b[p] == COLON
    ensures Move(m, b, p) == m.(cs := 15, len := p - m.start)
  {
  }

  lemma LineParts(f: Field, k: nat)
    requires GoodName(f.name) && GoodValue(f.value) && k <= |f.name| + 2 + |f.value|
    ensures var b := Line(f)[k..];
      var n := |f.name| - k;
      && |b| == n + |f.value| + 4 && b[|b| - 2] == CR && b[|b| - 1] == LF
      && (n >= 0 ==> NameBytes(b, 0, n) && b[..n] == f.name[k..] && b[n] == COLON && b[n + 1] == SPACE && ValueBytes(b, n + 1, |b| - 2) && b[n + 2..|b| - 2] == f.value)
      && (n < 0 ==> ValueBytes(b, 0, |b| - 2))
  {
    hide NameByte, NameStart;
    var b := Line(f)[k..];
    assert forall i :: 0 <= i < |b| ==> b[i] == Line(f)[k + i];
  }

  lemma LineLength(f: Field)
    ensures |Line(f)| == |f.name| + |f.value| + 4
  {
  }

  /** The parts of a line from byte `k` to `e`, when that has its carriage return. */
  lemma EndParts(f: Field, k: nat, e: nat)
    requires GoodName(f.name) && GoodValue(f.value) && k <= |f.name| + 2 + |f.value| && |Line(f)| - 1 <= e <= |Line(f)|
    ensures var b, n, r := Line(f)[k..e], |f.name| - k, |f.name| + |f.value| + 2 - k;
      && EndsAt(b, r)
      && (n >= 0 ==> NameBytes(b, 0, n) && b[0..n] == f.name[k..] && b[n] == COLON && ValueBytes(b, n + 1, r) && b[n + 1..r] == [SPACE] + f.value)
      && (n < 0 ==> ValueBytes(b, 0, r))
  {
    hide NameByte, ValueByte, Line;
    LineLength(f);
    var b, n, r := Line(f)[k..e], |f.name| - k, |f.name| + |f.value| + 2 - k;
    LineParts(f, k);
    assert forall i :: 0 <= i < |b| ==> b[i] == Line(f)[k..][i];
    if n >= 0 {
      SliceAfter(Line(f)[k..], b, n + 1, r);
      assert b[0..n] == Line(f)[k..][..n];
    }
  }

  lemma SliceAfter<T>(whole: seq<T>, part: seq<T>, p: nat, q: nat)
    requires p < q <= |part| <= |whole| && forall i :: 0 <= i < |part| ==> part[i] == whole[i]
    ensures part[p..q] == [whole[p]] + whole[p + 1..q]
  {
  }

  /** A line, from between lines, with or without its line feed. */
  lemma LineTaken(fields: seq<Field>, f: Field, k: nat)
    requires GoodName(f.name) && GoodValue(f.value) && |Line(f)| - 1 <= k <= |Line(f)|
    ensures Parse(13, fields, Line(f)[..k]) == Outcome(if k == |Line(f)| then 13 else 17, false, fields + [Delivered(f)], k)
  {
    hide NameByte, NameBytes, ValueBytes, EndsAt, Line, Stripped;
    var b, e := Line(f)[..k], |f.name| + |f.value| + 2;
    LineLength(f);
    EndParts(f, 0, k);
    assert Line(f)[0..k] == b && f.name[0..] == f.name && b[0] == b[0..|f.name|][0];
    var m := Machine(13, 0, 0, 0, false, fields);
    assert Move(m, b, 0) == m.(cs := 14);
    AfterFirst(b, |f.name|);
    RestFromName(m.(cs := 14), b, 1, |f.name|, e);
    BlankIsStripped(f.value);
  }

  lemma AfterFirst(b: seq<byte>, n: nat)
    requires NameBytes(b, 0, n) && n > 0
    ensures NameBytes(b, 1, n)
  {
  }

  lemma BlankIsStripped(value: seq<byte>)
    ensures Stripped([SPACE] + value) == Stripped(value)
  {
    assert ([SPACE] + value)[1..] == value;
  }

  lemma LineParsed(fields: seq<Field>, f: Field)
    requires GoodName(f.name) && GoodValue(f.value)
    ensures Parse(13, fields, Line(f)) == Outcome(13, false, fields + [Delivered(f)], |Line(f)|)
  {
    hide Parse, Line, GoodName, GoodValue;
    LineTaken(fields, f, |Line(f)|);
    assert Line(f)[..|Line(f)|] == Line(f);
  }

  /** Lines, then anything: the machine is between lines again when it gets there. */
  lemma {:induction false} LinesThen(fields: seq<Field>, fs: seq<Field>, rest: seq<byte>)
    requires Good(fs)
    ensures Parse(13, fields, Lines(fs) + rest) == Plus(Parse(13, fields + Read(fs), rest), |Lines(fs)|)
    decreases |fs|
  {
    hide Parse, Line, GoodName, GoodValue, Delivered;
    if fs == [] {
      assert Lines(fs) + rest == rest && fields + Read(fs) == fields;
    } else {
      var first, more := Line(fs[0]), Lines(fs[1..]) + rest;
      OneLineThen(fields, fs[0], more);
      LinesThen(fields + [Delivered(fs[0])], fs[1..], rest);
      assert Lines(fs) + rest == first + more;
      assert fields + [Delivered(fs[0])] + Read(fs[1..]) == fields + Read(fs);
    }
  }

  lemma OneLineThen(fields: seq<Field>, f: Field, rest: seq<byte>)
    requires GoodName(f.name) && GoodValue(f.value)
    ensures Parse(13, fields, Line(f) + rest) == Plus(Parse(13, fields + [Delivered(f)], rest), |Line(f)|)
  {
    hide Parse, Line, GoodName, GoodValue, Delivered;
    var b := Line(f) + rest;
    assert b[..|Line(f)|] == Line(f) && b[|Line(f)|..] == rest;
    LineParsed(fields, f);
    CutIsInvisible(13, fields, b, |Line(f)|);
  }

  lemma BlankLine(fields: seq<Field>, body: seq<byte>)
    ensures Parse(13, fields, [CR, LF] + body) == Outcome(348, true, fields, 2)
  {
    var b := [CR, LF] + body;
    var m := Machine(13, 0, 0, 0, false, fields);
    assert Move(m, b, 0) == m.(cs := 18);
    BlankLineEnds(m.(cs := 18), b, 1);
  }

  /** Print and parse: exactly the printed fields, and the body is what is left. */
  lemma RoundTrip(fs: seq<Field>, body: seq<byte>)
    requires Good(fs)
    ensures Whole(13, [], Block(fs, body)) == Fed(348, true, Read(fs), body)
    ensures Read(fs) == fs <==> forall i :: 0 <= i < |fs| && fs[i].value != [] ==> !Blank(fs[i].value[0])
  {
    hide Parse, Lines, GoodName, GoodValue, Read, Blank;
    var b := Block(fs, body);
    BlockParsed([], fs, body);
    assert [] + Read(fs) == Read(fs) && b[|Lines(fs)| + 2..] == body;
    ReadIsIdentity(fs);
  }

  lemma BlockParsed(fields: seq<Field>, fs: seq<Field>, body: seq<byte>)
    requires Good(fs)
    ensures Parse(13, fields, Block(fs, body)) == Outcome(348, true, fields + Read(fs), |Lines(fs)| + 2)
  {
    hide Parse, Lines, GoodName, GoodValue, Read;
    assert Block(fs, body) == Lines(fs) + ([CR, LF] + body);
    LinesThen(fields, fs, [CR, LF] + body);
    BlankLine(fields + Read(fs), body);
  }

  /** The packets of a block printed a few lines at a time. */
  function Grouped(groups: seq<seq<Field>>, tail: seq<seq<byte>>): (packets: seq<seq<byte>>)
    ensures |packets| == |groups| + |tail|
  {
    if groups == [] then tail else [Lines(groups[0])] + Grouped(groups[1..], tail)
  }

  /** Any number of cuts after line ends, and any cuts in the body, give the same fields and leave the same bytes. */
  lemma {:induction false} CutsAtLineEnds(fields: seq<Field>, groups: seq<seq<Field>>, last: seq<Field>, body: seq<byte>, tail: seq<seq<byte>>)
    requires Good(Concat(groups)) && Good(last)
    ensures Feed(13, fields, Grouped(groups, [Block(last, body)] + tail))
         == Fed(348, true, fields + Read(Concat(groups)) + Read(last), body + Concat(tail))
    decreases |groups|
  {
    hide Parse, Lines, GoodName, GoodValue, Read;
    var packets := Grouped(groups, [Block(last, body)] + tail);
    if groups == [] {
      BlockParsed(fields, last, body);
      assert packets[1..] == tail;
      assert Block(last, body)[|Lines(last)| + 2..] == body;
      ReadAppend([], last);
      assert fields + Read([]) + Read(last) == fields + (Read([]) + Read(last)) && [] + last == last;
    } else {
      var g, more := groups[0], Concat(groups[1..]);
      GoodParts(g, more);
      GroupParsed(fields, g);
      assert packets[1..] == Grouped(groups[1..], [Block(last, body)] + tail);
      CutsAtLineEnds(fields + Read(g), groups[1..], last, body, tail);
      ReadAppend(g, more);
      assert fields + Read(g) + Read(more) == fields + (Read(g) + Read(more));
    }
  }

  lemma GroupParsed(fields: seq<Field>, g: seq<Field>)
    requires Good(g)
    ensures Parse(13, fields, Lines(g)) == Outcome(13, false, fields + Read(g), |Lines(g)|)
  {
    hide Lines, GoodName, GoodValue, Read;
    LinesThen(fields, g, []);
    assert Lines(g) + [] == Lines(g);
  }

  lemma GoodParts(a: seq<Field>, b: seq<Field>)
    ensures Good(a + b) <==> Good(a) && Good(b)
  {
    hide GoodName, GoodValue;
    assert forall i :: 0 <= i < |a| ==> (a + b)[i] == a[i];
    assert forall i :: 0 <= i < |b| ==> (a + b)[|a| + i] == b[i];
  }
}
