/** The chunk-size line of the response machine: states 1 to 7, the final state 120 and the error state 0. */
module ChunkLine {
  import opened Ascii
  import opened Bytes
  import opened Streams

  /** The number that hexadecimal digits denote. */
  function Hex(digits: seq<byte>): (n: nat) {
    if digits == [] then 0 else Hex(digits[..|digits| - 1]) * 16 + Digit(digits[|digits| - 1])
  }

  /** strtol stops at the largest long; the result is stored in an int. */
  function Strtol(digits: seq<byte>): (n: int) {
    ToInt(if Hex(digits) > 0x7FFF_FFFF_FFFF_FFFF then 0x7FFF_FFFF_FFFF_FFFF else Hex(digits))
  }

  /** Up to 2^31 the number itself, then its low 32 bits as an int, and -1 from 2^63 on. */
  lemma StrtolMeans(digits: seq<byte>)
    ensures Hex(digits) < 0x8000_0000 ==> Strtol(digits) == Hex(digits)
    ensures Hex(digits) < 0x8000_0000_0000_0000 ==> -0x8000_0000 <= Strtol(digits) < 0x8000_0000 && (Hex(digits) - Strtol(digits)) % 0x1_0000_0000 == 0
    ensures Hex(digits) >= 0x8000_0000_0000_0000 ==> Strtol(digits) == -1
  {
    hide Hex;
  }

  /** How an execute call on a buffer ends. */
  datatype Line =
    | Complete(size: int, consumed: nat)
    | Unfinished                  // the buffer ended first; all of it is consumed
    | Malformed
    | StatusLine                  // the buffer starts with the H of a status line

  /** The state after one byte, or 0. Bytes that end the digits also set the size. */
  function Next(cs: nat, c: byte): (cs': nat) {
    match cs
    case 1 => if IsHex(c) then 2 else 0
    case 2 => if c == 10 then 120 else if c == 13 then 3 else if c == 59 then 4 else if IsHex(c) then 2 else 0
    case 3 => if c == 10 then 120 else 0
    case 4 => if IsToken(c) then 5 else 0
    case 5 => if c == 10 then 120 else if c == 13 then 3 else if c == 59 then 4 else if c == 61 then 6 else if IsToken(c) then 5 else 0
    case 6 => if IsToken(c) then 7 else 0
    case 7 => if c == 10 then 120 else if c == 13 then 3 else if c == 59 then 4 else if IsToken(c) then 7 else 0
    case _ => 0
  }

  /** The machine from byte `p` on, with the size found so far. */
  function Scan(cs: nat, size: int, b: seq<byte>, p: nat): (l: Line)
    requires p <= |b|
    ensures l.Complete? ==> p < l.consumed <= |b|
    decreases |b| - p
  {
    if p == |b| then Unfinished
    else
      var cs' := Next(cs, b[p]);
      var size' := if cs == 2 && cs' != 2 then Strtol(b[..p]) else size;
      if cs' == 0 then Malformed
      else if cs' == 120 then Complete(size', p + 1)
      else Scan(cs', size', b, p + 1)
  }

  /** httpclient_parser_execute on a buffer, after httpclient_parser_init. */
  function Parse(b: seq<byte>): (l: Line)
    ensures l.Complete? ==> l.consumed <= |b|
  {
    if b != [] && b[0] == 72 then StatusLine else Scan(1, -1, b, 0)
  }

  /** The automaton as a loop over the buffer. */
  method Execute(data: array<byte>, len: nat) returns (l: Line)
    requires 0 < len <= data.Length
    ensures l == Parse(data[..len])
  {
    if data[0] == 72 {
      return StatusLine;
    }
    var cs, size, p := 1, -1, 0;
    ghost var b := data[..len];
    while p < len
      invariant 0 <= p <= len && Scan(1, -1, b, 0) == Scan(cs, size, b, p)
    {
      var c := data[p];
      var next := Next(cs, c);
      if cs == 2 && next != 2 {
        size := Strtol(data[..p]);
        assert data[..p] == b[..p];
      }
      if next == 0 {
        return Malformed;
      }
      if next == 120 {
        return Complete(size, p + 1);
      }
      cs := next;
      p := p + 1;
    }
    l := Unfinished;
  }

  // ---- lines inside a buffer ----

  /** A line that came to its end is read the same whatever follows it. */
  lemma {:induction false} WhatFollowsDoesNotMatter(cs: nat, size: int, b: seq<byte>, rest: seq<byte>, p: nat)
    requires p <= |b| && Scan(cs, size, b, p).Complete?
    ensures Scan(cs, size, b + rest, p) == Scan(cs, size, b, p)
    decreases |b| - p
  {
    hide Next, Strtol;
    if p < |b| {
      assert (b + rest)[p] == b[p] && (b + rest)[..p] == b[..p];
      var cs' := Next(cs, b[p]);
      if cs' != 0 && cs' != 120 {
        WhatFollowsDoesNotMatter(cs', if cs == 2 && cs' != 2 then Strtol(b[..p]) else size, b, rest, p + 1);
      }
    }
  }

  /** `line` is one whole size line for `n` bytes, extensions included. */
  predicate IsLine(line: seq<byte>, n: int) {
    Parse(line) == Complete(n, |line|)
  }

  lemma LineInBuffer(line: seq<byte>, n: int, rest: seq<byte>)
    requires IsLine(line, n)
    ensures Parse(line + rest) == Complete(n, |line|)
  {
    if line != [] {
      assert (line + rest)[0] == line[0];
    }
    WhatFollowsDoesNotMatter(1, -1, line, rest, 0);
  }

  predicate AllHex(digits: seq<byte>) {
    forall i :: 0 <= i < |digits| ==> IsHex(digits[i])
  }

  lemma {:induction false} DigitsScanned(cs: nat, size: int, b: seq<byte>, p: nat, e: nat)
    requires (cs == 1 || cs == 2) && p < e <= |b| && AllHex(b[..e])
    ensures Scan(cs, size, b, p) == Scan(2, size, b, e)
    decreases e - p
  {
    hide Strtol;
    assert b[..e][p] == b[p];
    if p + 1 < e {
      DigitsScanned(2, size, b, p + 1, e);
    }
  }

  /** The plain form of a line, as section 7.1 of RFC 9112 has it. */
  lemma PlainLine(digits: seq<byte>)
    requires AllHex(digits) && digits != [] && Hex(digits) < 0x8000_0000
    ensures IsLine(digits + [13, 10], Hex(digits))
  {
    hide Hex;
    var b, n := digits + [13, 10], |digits|;
    assert b[..n] == digits && b[0] == digits[0];
    DigitsScanned(1, -1, b, 0, n);
    assert Scan(3, Strtol(digits), b, n + 1) == Complete(Strtol(digits), n + 2);
    assert Scan(2, -1, b, n) == Scan(3, Strtol(digits), b, n + 1);
  }

  // ---- a line cut in two ----

  /** How many hexadecimal digits a text starts with. */
  function Lead(b: seq<byte>): (h: nat)
    ensures h <= |b| && AllHex(b[..h]) && (h < |b| ==> !IsHex(b[h]))
  {
    if b == [] || !IsHex(b[0]) then 0
    else
      var h := Lead(b[1..]);
      assert b[..h + 1] == [b[0]] + b[1..][..h];
      h + 1
  }

  /** The bytes that end the digits of a size. */
  predicate EndsDigits(c: byte) {
    c == 10 || c == 13 || c == 59
  }

  /** On the way through a whole line the machine is in none of its last states, and after a digit it takes what ends one. */
  lemma {:induction false} OnTheWay(cs: nat, size: int, b: seq<byte>, p: nat, k: nat) returns (cs': nat, size': int)
    requires p <= k < |b| && Scan(cs, size, b, p).Complete? && Scan(cs, size, b, p).consumed == |b|
    ensures Scan(cs, size, b, p) == Scan(cs', size', b, k)
    ensures if p == k then cs' == cs else IsHex(b[k - 1]) ==> cs' == 2 || cs' == 5 || cs' == 7
    ensures Scan(cs, size, b[..k], p) == Unfinished
    decreases k - p
  {
    hide Strtol, IsToken;
    cs', size' := cs, size;
    if p < k {
      assert b[..k][p] == b[p] && b[..k][..p] == b[..p];
      var next := Next(cs, b[p]);
      cs', size' := OnTheWay(next, if cs == 2 && next != 2 then Strtol(b[..p]) else size, b, p + 1, k);
    }
  }

  lemma {:induction false} LastIsLineFeed(cs: nat, size: int, b: seq<byte>, p: nat)
    requires p <= |b| && Scan(cs, size, b, p).Complete? && Scan(cs, size, b, p).consumed == |b|
    ensures b[|b| - 1] == 10
    decreases |b| - p
  {
    hide Strtol, IsToken, IsHex;
    var next := Next(cs, b[p]);
    if next != 120 {
      LastIsLineFeed(next, if cs == 2 && next != 2 then Strtol(b[..p]) else size, b, p + 1);
    }
  }

  /** Past its digits a line is read the same whatever stood before, and the size stays. */
  lemma {:induction false} SameEnd(cs: nat, size: int, b: seq<byte>, c: nat, size': int, p: nat)
    requires 3 <= cs <= 7 && c + p <= |b| && Scan(cs, size, b, c + p).Complete? && Scan(cs, size, b, c + p).consumed == |b|
    ensures Scan(cs, size', b[c..], p) == Complete(size', |b| - c)
    decreases |b| - p
  {
    hide Strtol, IsToken, IsHex;
    assert b[c..][p] == b[c + p];
    var next := Next(cs, b[c + p]);
    if next != 120 {
      SameEnd(next, size, b, c, size', p + 1);
    }
  }

  /** The two parts of any size line, extensions included: the first is kept for more, the second is read on its own. */
  lemma CutLine(line: seq<byte>, n: int, k: nat)
    requires IsLine(line, n) && 0 < k < |line|
    ensures Parse(line[..k]) == Unfinished
    ensures var rest := line[k..];
      var h := Lead(rest);
      && h < |rest|
      && (if h > 0 && EndsDigits(rest[h]) then Parse(rest) == Complete(Strtol(rest[..h]), |rest|) else !Parse(rest).Complete?)
  {
    hide Strtol, IsToken, Lead;
    var rest := line[k..];
    var h := Lead(rest);
    var cs, size := OnTheWay(1, -1, line, 0, k);
    LastIsLineFeed(1, -1, line, 0);
    assert line[..k][0] == line[0];
    assert rest[|rest| - 1] == 10;
    if h > 0 {
      assert rest[..h][h - 1] == rest[h - 1] == line[k + h - 1] && rest[h] == line[k + h];
      assert rest[..h][0] == rest[0];
      DigitsScanned(1, -1, rest, 0, h);
      if EndsDigits(rest[h]) {
        cs, size := OnTheWay(1, -1, line, 0, k + h);
        EndOfDigits(cs, size, line, k, h);
      }
    }
  }

  lemma EndOfDigits(cs: nat, size: int, line: seq<byte>, k: nat, h: nat)
    requires k + h < |line| && EndsDigits(line[k + h]) && (cs == 2 || cs == 5 || cs == 7)
    requires Scan(cs, size, line, k + h).Complete? && Scan(cs, size, line, k + h).consumed == |line|
    ensures Scan(2, -1, line[k..], h) == Complete(Strtol(line[k..][..h]), |line| - k)
  {
    hide Strtol, IsToken;
    var rest, next := line[k..], Next(2, line[k + h]);
    assert rest[h] == line[k + h] && Next(cs, line[k + h]) == next;
    if next != 120 {
      SameEnd(next, if cs == 2 then Strtol(line[..k + h]) else size, line, k, Strtol(rest[..h]), h + 1);
    }
  }

  /** The exact condition under which a cut size line is still understood: what is left starts with the same number. */
  lemma CutLineSurvivesIff(line: seq<byte>, n: int, k: nat)
    requires IsLine(line, n) && 0 < k < |line|
    ensures var rest := line[k..];
      var h := Lead(rest);
      && h < |rest|
      && (Parse(rest) == Complete(n, |rest|) <==> h > 0 && EndsDigits(rest[h]) && Strtol(rest[..h]) == n)
      && (Parse(rest) == Complete(n, |rest|) <==> Parse(rest).Complete? && Parse(rest).size == n)
  {
    hide Parse, Strtol, Lead;
    CutLine(line, n, k);
  }

  /** The digits of a line are its size. */
  lemma SizeOfLine(line: seq<byte>, n: int)
    requires IsLine(line, n)
    ensures 0 < Lead(line) < |line| && EndsDigits(line[Lead(line)]) && n == Strtol(line[..Lead(line)])
  {
    hide Strtol, IsToken, Lead;
    var d := Lead(line);
    LastIsLineFeed(1, -1, line, 0);
    assert d > 0;
    DigitsScanned(1, -1, line, 0, d);
    var next := Next(2, line[d]);
    if next != 120 {
      SizeStays(next, Strtol(line[..d]), line, d + 1);
    }
  }

  lemma {:induction false} SizeStays(cs: nat, size: int, b: seq<byte>, p: nat)
    requires 3 <= cs <= 7 && p <= |b| && Scan(cs, size, b, p).Complete?
    ensures Scan(cs, size, b, p).size == size
    decreases |b| - p
  {
    hide Strtol, IsToken, IsHex;
    var next := Next(cs, b[p]);
    if next != 120 {
      SizeStays(next, size, b, p + 1);
    }
  }

  function Pow16(n: nat): (r: nat)
    ensures r > 0
  {
    if n == 0 then 1 else Pow16(n - 1) * 16
  }

  lemma {:induction false} HexAppend(a: seq<byte>, b: seq<byte>)
    ensures Hex(a + b) == Hex(a) * Pow16(|b|) + Hex(b)
    decreases |b|
  {
    if b == [] {
      assert a + b == a;
    } else {
      var c := b[..|b| - 1];
      assert (a + b)[..|a + b| - 1] == a + c;
      HexAppend(a, c);
      Distribute(Hex(a), Pow16(|c|), Hex(c));
    }
  }

  lemma Distribute(a: nat, p: nat, c: nat)
    ensures (a * p + c) * 16 == a * (p * 16) + c * 16
  {
  }

  lemma {:induction false} HexZero(a: seq<byte>)
    requires AllHex(a)
    ensures Hex(a) == 0 <==> forall i :: 0 <= i < |a| ==> a[i] == 48
    decreases |a|
  {
    if a != [] {
      var b := a[..|a| - 1];
      assert a == b + [a[|a| - 1]];
      HexZero(b);
      assert forall i :: 0 <= i < |b| ==> b[i] == a[i];
    }
  }

  lemma {:induction false} LeadOfRest(b: seq<byte>, k: nat)
    requires k <= Lead(b)
    ensures Lead(b[k..]) == Lead(b) - k
    decreases k
  {
    if k == 0 {
      assert b[0..] == b;
    } else {
      LeadOfRest(b[1..], k - 1);
      assert b[1..][k - 1..] == b[k..];
    }
  }

  /** A cut between the digits does no harm exactly when it cuts off nothing but zeros. */
  lemma CutInDigitsSurvivesIff(line: seq<byte>, n: int, k: nat)
    requires IsLine(line, n) && 0 < k < Lead(line) && Hex(line[..Lead(line)]) < 0x8000_0000
    ensures Parse(line[k..]) == Complete(n, |line| - k) <==> forall i :: 0 <= i < k ==> line[i] == 48
  {
    hide Hex, Parse, ToInt, Lead;
    var d := Lead(line);
    SizeOfLine(line, n);
    CutLineSurvivesIff(line, n, k);
    LeadOfRest(line, k);
    var a, b := line[..k], line[k..][..d - k];
    assert line[..d] == a + b && line[k..][d - k] == line[d];
    SameValueIff(a, b);
    assert AllHex(a) by {
      assert forall i :: 0 <= i < k ==> a[i] == line[..d][i];
    }
    HexZero(a);
    assert forall i :: 0 <= i < k ==> a[i] == line[i];
  }

  lemma SameValueIff(a: seq<byte>, b: seq<byte>)
    ensures Hex(b) <= Hex(a + b) && (Hex(a + b) == Hex(b) <==> Hex(a) == 0)
  {
    hide Hex, Pow16;
    HexAppend(a, b);
    Positive(Hex(a), Pow16(|b|));
  }

  lemma Positive(x: nat, p: nat)
    requires p > 0
    ensures x * p == 0 <==> x == 0
  {
  }

  /** Counted from the end, digit `i` is how often 16^i goes in. */
  lemma {:induction false} HexAt(digits: seq<byte>, i: nat)
    requires i < |digits|
    ensures Hex(digits) / Pow16(i) % 16 == Digit(digits[|digits| - 1 - i])
    decreases i
  {
    hide Digit;
    var rest, last := digits[..|digits| - 1], Digit(digits[|digits| - 1]);
    QuotientUnique(Hex(digits), 16, Hex(rest), last);
    if i > 0 {
      HexAt(rest, i - 1);
      DivDiv(Hex(digits), 16, Pow16(i - 1));
    }
  }

  /** A number in hexadecimal digits, as a server prints the size of a chunk. */
  function Printed(n: nat): (b: seq<byte>)
    ensures b != []
  {
    (if n < 16 then [] else Printed(n / 16)) + [if n % 16 < 10 then 48 + n % 16 else 87 + n % 16]
  }

  lemma {:induction false} PrintedIsHex(n: nat)
    ensures AllHex(Printed(n)) && Hex(Printed(n)) == n
    decreases n
  {
    var b := Printed(n);
    if n >= 16 {
      PrintedIsHex(n / 16);
      assert b[..|b| - 1] == Printed(n / 16);
    } else {
      assert b[..0] == [];
    }
  }
}
