/**
 A header block that arrives in two packets, cut at any byte of any line. The marks are cleared between the two
 calls, so a field whose name or value is cut is not delivered as it was printed.
 */
module HeaderCuts {
  import opened Bytes
  import opened HeaderMachine
  import opened HeaderText

  /** Where the machine is inside a line, after its first `k` bytes. */
  predicate InLine(cs: nat, f: Field, k: nat) {
    if k <= |f.name| then cs == 14 else cs == 15 || cs == 16
  }

  /** Where the machine is after the first `k` bytes of a line; nothing has been delivered yet. */
  lemma FirstPart(fields: seq<Field>, f: Field, k: nat)
    requires GoodName(f.name) && GoodValue(f.value) && 0 < k <= |f.name| + 2 + |f.value|
    ensures var o := Parse(13, fields, Line(f)[..k]);
      !o.done && o.fields == fields && InLine(o.cs, f, k)
  {
    hide NameByte, ValueByte;
    var b, n := Line(f)[..k], |f.name|;
    LineParts(f, 0);
    assert Line(f)[0..] == Line(f);
    var m := Machine(13, 0, 0, 0, false, fields);
    assert b[0] == f.name[0];
    var m1 := m.(cs := 14);
    assert Move(m, b, 0) == m1;
    if k <= n {
      NameRun(m1, b, 1, k);
    } else {
      NameRun(m1, b, 1, n);
      var m2 := m1.(cs := 15, len := n);
      assert Move(m1, b, n) == m2;
      var m3 := ValueRun(m2, b, n + 1, k);
    }
  }

  /** What a line cut after `k` bytes still delivers: the rest of its name, or nothing. */
  function Remnant(f: Field, k: nat): (r: seq<Field>) {
    if k < |f.name| then [Field(f.name[k..], Stripped(f.value))] else []
  }

  /** From byte `k` of a line to its end, with or without its line feed. */
  lemma LastPart(cs: nat, fields: seq<Field>, f: Field, k: nat, e: nat)
    requires GoodName(f.name) && GoodValue(f.value) && 0 < k <= |f.name| + 2 + |f.value| && |Line(f)| - 1 <= e <= |Line(f)|
    requires InLine(cs, f, k)
    ensures Parse(cs, fields, Line(f)[k..e]) == Outcome(if e == |Line(f)| then 13 else 17, false, fields + Remnant(f, k), e - k)
  {
    hide NameBytes, ValueBytes, EndsAt, Line, GoodName, GoodValue, Stripped, Run;
    LineLength(f);
    EndParts(f, k, e);
    var b, n, r := Line(f)[k..e], |f.name| - k, |f.name| + |f.value| + 2 - k;
    var m := Machine(cs, 0, 0, 0, false, fields);
    if n >= 0 {
      RestFromName(m, b, 0, n, r);
      BlankIsStripped(f.value);
    } else {
      RestOfLine(m, b, 0, r);
    }
  }

  lemma SecondPart(cs: nat, fields: seq<Field>, f: Field, k: nat)
    requires GoodName(f.name) && GoodValue(f.value) && 0 < k <= |f.name| + 2 + |f.value| && InLine(cs, f, k)
    ensures Parse(cs, fields, Line(f)[k..]) == Outcome(13, false, fields + Remnant(f, k), |Line(f)| - k)
  {
    hide Parse, Line, GoodName, GoodValue, InLine, Remnant;
    LineLength(f);
    LastPart(cs, fields, f, k, |Line(f)|);
    assert Line(f)[k..|Line(f)|] == Line(f)[k..];
  }

  /** The cut lies at the start of the line, before its line feed or after it. */
  predicate BetweenLines(f: Field, k: nat) {
    k == 0 || k >= |f.name| + |f.value| + 3
  }

  function First(before: seq<Field>, f: Field, k: nat): (packet: seq<byte>)
    requires k <= |Line(f)|
  {
    Lines(before) + Line(f)[..k]
  }

  function Second(f: Field, k: nat, after: seq<Field>, body: seq<byte>): (packet: seq<byte>)
    requires k <= |Line(f)|
  {
    Line(f)[k..] + Block(after, body)
  }

  lemma TheWholeBlock(before: seq<Field>, f: Field, after: seq<Field>, body: seq<byte>, k: nat)
    requires k <= |Line(f)|
    ensures First(before, f, k) + Second(f, k, after, body) == Block(before + [f] + after, body)
  {
    hide Line, Lines;
    LinesAppend(before + [f], after);
    LinesAppend(before, [f]);
    OneLine(f);
    Regroup(Lines(before), Line(f), k, Lines(after), [CR, LF] + body);
    assert Block(after, body) == Lines(after) + ([CR, LF] + body);
    assert Block(before + [f] + after, body) == Lines(before) + Line(f) + Lines(after) + ([CR, LF] + body);
  }

  lemma OneLine(f: Field)
    ensures Lines([f]) == Line(f)
  {
    hide Line;
    assert Lines([f][1..]) == [];
  }

  lemma Regroup<T>(a: seq<T>, b: seq<T>, k: nat, c: seq<T>, d: seq<T>)
    requires k <= |b|
    ensures (a + b[..k]) + (b[k..] + (c + d)) == a + b + c + d
  {
    assert b == b[..k] + b[k..];
  }

  lemma {:induction false} LinesAppend(a: seq<Field>, b: seq<Field>)
    ensures Lines(a + b) == Lines(a) + Lines(b)
    decreases |a|
  {
    hide Line;
    if a == [] {
      assert a + b == b;
    } else {
      assert (a + b)[1..] == a[1..] + b;
      LinesAppend(a[1..], b);
    }
  }

  /** A cut between lines: as if there were none. */
  lemma HarmlessCut(before: seq<Field>, f: Field, after: seq<Field>, body: seq<byte>, k: nat)
    requires Good(before + [f] + after) && k <= |Line(f)| && BetweenLines(f, k)
    ensures Feed(13, [], [First(before, f, k), Second(f, k, after, body)])
         == Fed(348, true, Read(before + [f] + after), body)
  {
    hide Parse, Line, Lines, GoodName, GoodValue, Read;
    var all := before + [f] + after;
    GoodParts(before + [f], after);
    GoodParts(before, [f]);
    assert [f][0] == f;
    var first, second := First(before, f, k), Second(f, k, after, body);
    TheWholeBlock(before, f, after, body, k);
    RoundTrip(all, body);
    LinesThen([], before, Line(f)[..k]);
    assert [] + Read(before) == Read(before);
    LineLength(f);
    if k == 0 {
      assert Line(f)[..k] == [];
      NothingYet(Read(before));
    } else {
      LineTaken(Read(before), f, k);
    }
    PacketsDoNotMatter(13, [], [first, second]);
    assert [first, second][1..] == [second];
    assert Concat([first, second]) == first + second by {
      assert Concat([second]) == second + Concat([]);
    }
  }

  lemma NothingYet(fields: seq<Field>)
    ensures Parse(13, fields, []) == Outcome(13, false, fields, 0)
  {
  }

  /** A cut inside a line: the rest of the name is delivered in place of the field, or the field is lost. */
  lemma HarmfulCut(before: seq<Field>, f: Field, after: seq<Field>, body: seq<byte>, k: nat)
    requires Good(before + [f] + after) && k <= |Line(f)| && !BetweenLines(f, k)
    ensures Feed(13, [], [First(before, f, k), Second(f, k, after, body)])
         == Fed(348, true, Read(before) + Remnant(f, k) + Read(after), body)
  {
    hide Parse, Line, Lines, GoodName, GoodValue, Read, Remnant;
    GoodParts(before + [f], after);
    GoodParts(before, [f]);
    assert [f][0] == f;
    var first, second := First(before, f, k), Second(f, k, after, body);
    var fs := Read(before);
    LinesThen([], before, Line(f)[..k]);
    assert [] + fs == fs;
    FirstPart(fs, f, k);
    var o := Parse(13, [], first);
    SecondPart(o.cs, fs, f, k);
    var rest := Line(f)[k..];
    assert second[..|rest|] == rest && second[|rest|..] == Block(after, body);
    CutIsInvisible(o.cs, fs, second, |rest|);
    BlockParsed(fs + Remnant(f, k), after, body);
    assert [first, second][1..] == [second];
    FeedOne(o.cs, fs, second);
    assert second[|rest| + |Lines(after)| + 2..] == body;
  }

  lemma FeedOne(cs: nat, fields: seq<Field>, packet: seq<byte>)
    requires IsState(cs) && Parse(cs, fields, packet).done
    ensures Feed(cs, fields, [packet]) == Whole(cs, fields, packet)
  {
    hide Parse;
    var o := Parse(cs, fields, packet);
    assert [packet][1..] == [];
    assert packet[o.consumed..] + [] == packet[o.consumed..];
  }

  /** The exact condition: the fields survive a cut if and only if it does not fall inside a line. */
  lemma CutSurvivesIff(before: seq<Field>, f: Field, after: seq<Field>, body: seq<byte>, k: nat)
    requires Good(before + [f] + after) && k <= |Line(f)|
    ensures var r := Feed(13, [], [First(before, f, k), Second(f, k, after, body)]);
      r.done && r.leftover == body && (r.fields == Read(before + [f] + after) <==> BetweenLines(f, k))
  {
    hide Feed, Line, First, Second, GoodName, GoodValue, Read, Stripped;
    if BetweenLines(f, k) {
      HarmlessCut(before, f, after, body, k);
    } else {
      HarmfulCut(before, f, after, body, k);
      ReadAppend(before + [f], after);
      ReadAppend(before, [f]);
      ReadOne(f);
      var got, wanted := Read(before) + Remnant(f, k) + Read(after), Read(before) + [Delivered(f)] + Read(after);
      if k < |f.name| {
        assert got[|before|] == Remnant(f, k)[0] && wanted[|before|] == Delivered(f);
        assert |Remnant(f, k)[0].name| < |f.name|;
      } else {
        assert |got| < |wanted|;
      }
    }
  }

  lemma ReadOne(f: Field)
    ensures Read([f]) == [Delivered(f)]
  {
    assert Read([f][1..]) == [];
  }
}
