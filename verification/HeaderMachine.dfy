/**
 The header part of the HTTP/1.1 request machine: states 13 to 18, the final state 348 and the error state 0.
 A run is started by each http_parser_execute call, which keeps the state but clears the marks.
 */
module HeaderMachine {
  import opened Ascii
  import opened Bytes

  const LF: byte := 10
  const CR: byte := 13
  const COLON: byte := 58
  const SPACE: byte := 32
  const TAB: byte := 9

  datatype Field = Field(name: seq<byte>, value: seq<byte>)

  /** The parser's state while it reads a buffer; `fields` are the ones handed to the callback and kept. */
  datatype Machine = Machine(cs: nat, mark: nat, start: nat, len: nat, done: bool, fields: seq<Field>)

  predicate IsState(cs: nat) {
    cs == 0 || 13 <= cs <= 18 || cs == 348
  }

  /** States 14 and 348: the table also lets control characters through, line feed among them. */
  predicate NameByte(c: byte) {
    1 <= c <= 8 || 10 <= c <= 31 || IsToken(c)
  }

  /** State 13. */
  predicate NameStart(c: byte) {
    NameByte(c) && c != LF && c != CR
  }

  predicate ValueByte(c: byte) {
    c != 0 && c != 127 && c != CR && c != LF
  }

  predicate Blank(c: byte) {
    c == SPACE || c == TAB
  }

  /** Marks that the next actions will use lie inside what was read. */
  predicate Marked(m: Machine, p: nat) {
    && IsState(m.cs)
    && m.mark <= p && m.start <= p
    && (m.cs == 15 || m.cs == 16 ==> m.start + m.len <= p)
  }

  /** The write_value action: the callback drops a field with an empty name. */
  function Deliver(m: Machine, b: seq<byte>, p: nat): (m': Machine)
    requires m.mark <= p <= |b| && m.start + m.len <= p
  {
    if m.len == 0 then m else m.(fields := m.fields + [Field(b[m.start..m.start + m.len], b[m.mark..p])])
  }

  /** One byte: the transition out of m.cs, with its actions. */
  function Move(m: Machine, b: seq<byte>, p: nat): (m': Machine)
    requires Marked(m, p) && p < |b| && m.cs != 0
    ensures Marked(m', p) && (m'.len <= p || m'.len == m.len)
  {
    var c := b[p];
    match m.cs
    case 13 =>
      if c == LF then m.(start := p, cs := 348, done := true)
      else if c == CR then m.(start := p, cs := 18)
      else if NameStart(c) then m.(start := p, cs := 14)
      else m.(cs := 0)
    case 14 => InName(m, c, p)
    case 15 =>
      if c == 0 || c == 127 then m.(cs := 0)
      else if Blank(c) then m.(mark := p)
      else if c == LF then Deliver(m.(mark := p), b, p).(cs := 13)
      else if c == CR then Deliver(m.(mark := p), b, p).(cs := 17)
      else m.(mark := p, cs := 16)
    case 16 =>
      if c == 0 || c == 127 then m.(cs := 0)
      else if c == LF then Deliver(m, b, p).(cs := 13)
      else if c == CR then Deliver(m, b, p).(cs := 17)
      else m
    case 17 => if c == LF then m.(cs := 13) else m.(cs := 0)
    case 18 => if c == LF then m.(cs := 348, done := true) else InName(m, c, p)
    case _ => InName(m, c, p)
  }

  function InName(m: Machine, c: byte, p: nat): (m': Machine) {
    if c == COLON then m.(len := if m.start <= p then p - m.start else 0, cs := 15)
    else if NameByte(c) then m.(cs := 14)
    else m.(cs := 0)
  }

  /** The machine from byte `p` on, and where it stops: at the end, after the blank line, or at a byte in error. */
  function Run(m: Machine, b: seq<byte>, p: nat): (r: (Machine, nat))
    requires Marked(m, p) && p <= |b|
    ensures p <= r.1 <= |b| && Marked(r.0, r.1)
    ensures r.0.cs == 0 || r.0.done || r.1 == |b|
    decreases |b| - p
  {
    if p == |b| || m.cs == 0 || m.done then (m, p)
    else
      var m' := Move(m, b, p);
      if m'.cs == 0 then (m', p) else Run(m', b, p + 1)
  }

  /** One http_parser_execute call on a buffer, from its state and the fields so far. */
  datatype Outcome = Outcome(cs: nat, done: bool, fields: seq<Field>, consumed: nat)

  function Parse(cs: nat, fields: seq<Field>, b: seq<byte>): (o: Outcome)
    requires IsState(cs)
    ensures IsState(o.cs) && o.consumed <= |b|
    ensures o.cs == 0 || o.done || o.consumed == |b|
  {
    var r := Run(Machine(cs, 0, 0, 0, false, fields), b, 0);
    Outcome(r.0.cs, r.0.done, r.0.fields, r.1)
  }

  class Parser {
    var cs: nat
    var mark: nat
    var fieldStart: nat
    var fieldLen: nat
    var bodyStart: nat
    var nread: nat
    var fields: seq<Field>

    /** The parser once the start line has been read. */
    constructor ()
      ensures Valid() && cs == 13 && bodyStart == 0 && fields == []
    {
      cs, mark, fieldStart, fieldLen, bodyStart, nread, fields := 13, 0, 0, 0, 0, 0, [];
    }

    ghost predicate Valid()
      reads this
    {
      IsState(cs)
    }

    ghost function View(done: bool): (m: Machine)
      reads this
    {
      Machine(cs, mark, fieldStart, fieldLen, done, fields)
    }

    /** One transition; the C code's jumps, with `go` false where it leaves the loop. */
    method Advance(buffer: array<byte>, len: nat, p: nat) returns (go: bool)
      requires p < len <= buffer.Length && cs != 0 && Marked(View(false), p)
      modifies this
      ensures View(!go && cs == 348) == Move(old(View(false)), buffer[..len], p)
      ensures go ==> bodyStart == old(bodyStart) && cs != 0 && cs != 348
      ensures !go ==> (cs == 0 && bodyStart == old(bodyStart)) || (cs == 348 && bodyStart == p + 1)
    {
      var c := buffer[p];
      go := true;
      match cs
      case 13 =>
        if c == 10 {
          fieldStart := p;
          bodyStart, cs, go := p + 1, 348, false;
        } else if c == 13 {
          fieldStart, cs := p, 18;
        } else if NameStart(c) {
          fieldStart, cs := p, 14;
        } else {
          cs, go := 0, false;
        }
      case 15 =>
        if c == 0 || c == 127 {
          cs, go := 0, false;
        } else {
          mark := p;
          if c == 10 {
            WriteValue(buffer, len, p);
            cs := 13;
          } else if c == 13 {
            WriteValue(buffer, len, p);
            cs := 17;
          } else if c != 9 && c != 32 {
            cs := 16;
          }
        }
      case 16 =>
        if c == 0 || c == 127 {
          cs, go := 0, false;
        } else if c == 10 {
          WriteValue(buffer, len, p);
          cs := 13;
        } else if c == 13 {
          WriteValue(buffer, len, p);
          cs := 17;
        }
      case 17 =>
        if c == 10 {
          cs := 13;
        } else {
          cs, go := 0, false;
        }
      case _ =>   // 14, 18, 348
        if cs == 18 && c == 10 {
          bodyStart, cs, go := p + 1, 348, false;
        } else if c == 58 {
          fieldLen := p - fieldStart;
          cs := 15;
        } else if NameByte(c) {
          cs := 14;
        } else {
          cs, go := 0, false;
        }
    }

    method WriteValue(buffer: array<byte>, len: nat, p: nat)
      requires mark <= p < len <= buffer.Length && fieldStart + fieldLen <= p
      modifies `fields
      ensures View(false) == Deliver(old(View(false)), buffer[..len], p)
    {
      if fieldLen != 0 {
        var field := Field(buffer[fieldStart..fieldStart + fieldLen], buffer[mark..p]);
        assert field == Field(buffer[..len][fieldStart..fieldStart + fieldLen], buffer[..len][mark..p]);
        fields := fields + [field];
      }
    }

    ghost predicate Agrees(o: Outcome, n: nat)
      reads this
    {
      o.cs == cs && o.fields == fields && o.consumed == n && (o.done ==> cs == 348 && bodyStart == n)
    }

    /** http_parser_execute with offset 0. Its closing assertions are the last ensures clause. */
    method ParserExecute(buffer: array<byte>, len: nat) returns (n: nat)
      requires Valid() && len <= buffer.Length && bodyStart <= len
      modifies this
      ensures Valid()
      ensures len == 0 ==> n == 0 && cs == old(cs) && fields == old(fields)
      ensures len > 0 ==> Agrees(Parse(old(cs), old(fields), buffer[..len]), n)
      ensures len > 0 && old(cs) != 348 ==> (Parse(old(cs), old(fields), buffer[..len]).done <==> cs == 348)
      ensures cs == 348 || bodyStart == old(bodyStart)
      ensures len > 0 ==> nread == n <= len && bodyStart <= len && mark < len && fieldLen <= len && fieldStart < len
    {
      hide Move, InName, Deliver;
      if len == 0 {
        return 0;
      }
      nread, mark, fieldLen, fieldStart := 0, 0, 0, 0;
      var p := 0;
      var go := cs != 0;
      ghost var b := buffer[..len];
      ghost var m0 := View(false);
      while p < len && go
        invariant 0 <= p <= len && mark < len && fieldLen <= len && fieldStart < len && bodyStart <= len
        invariant go ==> cs != 0 && Marked(View(false), p) && Run(m0, b, 0) == Run(View(false), b, p)
        invariant bodyStart == old(bodyStart) || (!go && cs == 348)
        invariant go && m0.cs != 348 ==> cs != 348
        invariant !go ==> Run(m0, b, 0) == (View(cs == 348), p) && (cs == 348 ==> bodyStart == p) && IsState(cs)
        decreases len - p, go
      {
        go := Advance(buffer, len, p);
        if cs != 0 {
          p := p + 1;
        }
      }
      nread := p;
      n := p;
    }
  }
}
