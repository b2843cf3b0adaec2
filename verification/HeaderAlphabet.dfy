/** Which bytes the header machine takes and which it refuses, in the terms of sections 2.2 and 4.2 of RFC 2616. */
module HeaderAlphabet {
  import opened Ascii
  import opened Bytes
  import opened HeaderMachine
  import opened HeaderText

  /** ( ) < > @ , ; : \ " / [ ] ? = { } space and tab */
  predicate Separator(c: byte) {
    c in [40, 41, 60, 62, 64, 44, 59, 58, 92, 34, 47, 91, 93, 63, 61, 123, 125, 32, 9]
  }

  predicate Control(c: byte) {
    c <= 31 || c == 127
  }

  lemma TokenIff(c: byte)
    ensures IsToken(c) <==> c < 128 && !Control(c) && !Separator(c)
  {
  }

  /** The bytes that are an error in a state. */
  predicate Refused(cs: nat, c: byte) {
    match cs
    case 13 => c == 0 || c >= 127 || Separator(c)
    case 14 => c == 0 || c >= 127 || (Separator(c) && c != ':' as int)
    case 15 => c == 0 || c == 127
    case 16 => c == 0 || c == 127
    case 17 => c != '\n' as int
    case 18 => c == 0 || c >= 127 || (Separator(c) && c != ':' as int)
    case _ => false
  }

  /** The machine stops with an error at just these bytes: control characters pass in a name, and so do bytes above 127 in a value. */
  lemma RefusedIff(m: Machine, b: seq<byte>, p: nat)
    requires Marked(m, p) && p < |b| && 13 <= m.cs <= 18
    ensures Move(m, b, p).cs == 0 <==> Refused(m.cs, b[p])
  {
    hide Separator, IsToken;
    TokenIff(b[p]);
    SeparatorsAre(b[p]);
  }

  lemma SeparatorsAre(c: byte)
    ensures Separator(c) ==> c == 9 || 32 <= c < 127
    ensures Separator(58) && Separator(32) && Separator(9)
  {
  }

  /** How a line is printed. */
  lemma LineIs(f: Field)
    ensures Line(f) == f.name + Chars(": ") + f.value + Chars("\r\n")
  {
    assert Chars(": ") == [58, 32] && Chars("\r\n") == [13, 10];
  }

  /** Letters, digits and hyphens. */
  predicate PlainByte(c: byte) {
    65 <= c <= 90 || 97 <= c <= 122 || 48 <= c <= 57 || c == 45
  }

  predicate PlainName(name: seq<byte>) {
    name != [] && forall i :: 0 <= i < |name| ==> PlainByte(name[i])
  }

  lemma PlainIsGood(name: seq<byte>)
    requires PlainName(name)
    ensures GoodName(name)
  {
    assert PlainByte(name[0]);
  }

  /** The names that are read as printed: no NUL, separator, DEL or byte above, and no line break in front. */
  lemma GoodNameIff(name: seq<byte>)
    ensures GoodName(name) <==>
      name != [] && name[0] != CR && name[0] != LF && forall i :: 0 <= i < |name| ==> !(name[i] == 0 || name[i] >= 127 || Separator(name[i]))
  {
    hide Separator, IsToken;
    forall i | 0 <= i < |name|
      ensures NameByte(name[i]) <==> !(name[i] == 0 || name[i] >= 127 || Separator(name[i]))
    {
      TokenIff(name[i]);
      SeparatorsAre(name[i]);
    }
  }

  /** Fields as requests have them: plain names, and values of visible characters, spaces, tabs and bytes above 127. */
  predicate PlainFields(fs: seq<Field>) {
    forall i :: 0 <= i < |fs| ==>
      PlainName(fs[i].name) && forall j :: 0 <= j < |fs[i].value| ==> fs[i].value[j] == TAB || 32 <= fs[i].value[j] <= 126 || fs[i].value[j] > 127
  }

  /** Printed headers with such fields are read back. */
  lemma PlainFieldsAreRead(fs: seq<Field>, body: seq<byte>)
    requires PlainFields(fs)
    ensures Good(fs) && Whole(13, [], Block(fs, body)) == Fed(348, true, Read(fs), body)
  {
    hide Whole, Block, Read;
    forall i | 0 <= i < |fs|
      ensures GoodName(fs[i].name) && GoodValue(fs[i].value)
    {
      PlainIsGood(fs[i].name);
    }
    RoundTrip(fs, body);
  }

  /** A value loses the spaces and tabs in front of it, all of them and nothing else. */
  lemma {:induction false} StrippedIs(value: seq<byte>)
    ensures exists k: nat :: StrippedBy(value, k)
    decreases |value|
  {
    if value != [] && (value[0] == 32 || value[0] == 9) {
      StrippedIs(value[1..]);
      var k: nat :| StrippedBy(value[1..], k);
      assert forall i :: 0 < i <= k ==> value[i] == value[1..][i - 1];
      assert value[1..][k..] == value[k + 1..];
      assert StrippedBy(value, k + 1);
    } else {
      assert value[0..] == value;
      assert StrippedBy(value, 0);
    }
  }

  ghost predicate StrippedBy(value: seq<byte>, k: nat) {
    && k <= |value| && Stripped(value) == value[k..]
    && (forall i :: 0 <= i < k ==> value[i] == 32 || value[i] == 9)
    && (k < |value| ==> value[k] != 32 && value[k] != 9)
  }

  // ---- lines that end with a line feed alone ----

  function BareLine(f: Field): (b: seq<byte>) {
    f.name + [COLON, SPACE] + f.value + [LF]
  }

  lemma BareParts(f: Field)
    requires GoodName(f.name) && GoodValue(f.value)
    ensures var b, n, e := BareLine(f), |f.name|, |f.name| + |f.value| + 2;
      && |b| == e + 1 && b[e] == LF && b[n] == COLON && b[0] == f.name[0] && b[0..n] == f.name && b[n + 1..e] == [SPACE] + f.value
      && NameBytes(b, 1, n) && ValueBytes(b, n + 1, e)
  {
    hide NameByte, NameStart;
  }

  /** From the name's second byte on. */
  lemma BareRest(m: Machine, b: seq<byte>, n: nat, e: nat)
    requires m.cs == 14 && m.start == 0 && !m.done && 0 < n < e && |b| == e + 1 && b[e] == LF && b[n] == COLON && Marked(m, 1)
    requires NameBytes(b, 1, n) && ValueBytes(b, n + 1, e)
    ensures var r := Run(m, b, 1);
      r.1 == |b| && r.0.cs == 13 && !r.0.done && r.0.fields == m.fields + [Field(b[0..n], Stripped(b[n + 1..e]))]
  {
    hide NameByte, ValueByte, Stripped, Move;
    NameRun(m, b, 1, n);
    Colon(m, b, n);
    var m2 := m.(cs := 15, len := n);
    var m3 := ValueRun(m2, b, n + 1, e);
    BareEnd(m3, b, e);
  }

  /** The machine also takes a line without its carriage return, with the same result. */
  lemma BareLineParsed(fields: seq<Field>, f: Field)
    requires GoodName(f.name) && GoodValue(f.value)
    ensures Parse(13, fields, BareLine(f)) == Outcome(13, false, fields + [Delivered(f)], |BareLine(f)|)
  {
    hide NameBytes, ValueBytes, Stripped, BareLine, NameByte;
    var b := BareLine(f);
    BareParts(f);
    var m := Machine(13, 0, 0, 0, false, fields);
    assert Move(m, b, 0) == m.(cs := 14);
    BareRest(m.(cs := 14), b, |f.name|, |f.name| + |f.value| + 2);
    BlankIsStripped(f.value);
  }

  lemma BareEnd(m: Machine, b: seq<byte>, e: nat)
    requires Marked(m, e) && (m.cs == 15 || m.cs == 16) && !m.done && |b| == e + 1 && b[e] == LF && m.len > 0
    ensures var v := if m.cs == 16 then b[m.mark..e] else [];
      var r := Run(m, b, e);
      r.1 == |b| && r.0.cs == 13 && !r.0.done && r.0.fields == m.fields + [Field(b[m.start..m.start + m.len], v)]
  {
    hide NameByte, IsToken;
    var m1 := Move(m, b, e);
    assert b[e..e] == [];
    assert Run(m1, b, e + 1) == (m1, e + 1);
  }

  /** A line feed between lines ends the block, as a carriage return and a line feed do. */
  lemma BareBlankLine(fields: seq<Field>, body: seq<byte>)
    ensures Parse(13, fields, [LF] + body) == Outcome(348, true, fields, 1)
  {
    var b := [LF] + body;
    var m := Machine(13, 0, 0, 0, false, fields);
    var m1 := m.(cs := 348, done := true);
    assert Move(m, b, 0) == m1;
    assert Run(m1, b, 1) == (m1, 1);
  }
}
