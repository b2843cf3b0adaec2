/** Which lines the machine for chunk sizes takes: those of section 7.1 of RFC 9112, and a bare line feed at their end. */
module ChunkGrammar {
  import opened Ascii
  import opened Bytes
  import opened ChunkLine

  /** An extension: a semicolon and a name, with or without a value. */
  datatype Extension = Extension(name: seq<byte>, value: seq<byte>)

  predicate AllToken(b: seq<byte>) {
    forall i :: 0 <= i < |b| ==> IsToken(b[i])
  }

  predicate GoodExtension(x: Extension) {
    x.name != [] && AllToken(x.name) && AllToken(x.value)
  }

  function ExtensionText(x: Extension): (b: seq<byte>) {
    [59] + x.name + if x.value == [] then [] else [61] + x.value
  }

  function ExtensionsText(xs: seq<Extension>): (b: seq<byte>) {
    if xs == [] then [] else ExtensionText(xs[0]) + ExtensionsText(xs[1..])
  }

  lemma NotSpecial(c: byte)
    requires IsToken(c)
    ensures c != 10 && c != 13 && c != 59 && c != 61
  {
  }

  /** Past the digits: the machine in state `cs` comes to the end of the line with the last byte of `s`. */
  predicate Completes(cs: nat, s: seq<byte>)
    decreases |s|
  {
    s != [] &&
    var next := Next(cs, s[0]);
    if next == 120 then |s| == 1 else 3 <= next <= 7 && Completes(next, s[1..])
  }

  lemma {:induction false} CompletesIs(cs: nat, size: int, b: seq<byte>, p: nat)
    requires 3 <= cs <= 7 && p <= |b| && Completes(cs, b[p..])
    ensures Scan(cs, size, b, p) == Complete(size, |b|)
    decreases |b| - p
  {
    hide Strtol, Next;
    assert b[p] == b[p..][0] && b[p + 1..] == b[p..][1..];
    if Next(cs, b[p]) != 120 {
      CompletesIs(Next(cs, b[p]), size, b, p + 1);
    }
  }

  lemma {:induction false} TokensPass(cs: nat, t: seq<byte>, s: seq<byte>)
    requires AllToken(t) && (cs == 5 || cs == 7) && Completes(cs, s)
    ensures Completes(cs, t + s)
    decreases |t|
  {
    hide IsToken;
    if t == [] {
      assert t + s == s;
    } else {
      NotSpecial(t[0]);
      TokensPass(cs, t[1..], s);
      assert (t + s)[1..] == t[1..] + s;
    }
  }

  /** A state before a token, and the token. */
  lemma TokenPasses(cs: nat, t: seq<byte>, s: seq<byte>)
    requires t != [] && AllToken(t) && (cs == 4 || cs == 6) && Completes(cs + 1, s)
    ensures Completes(cs, t + s)
  {
    hide IsToken;
    TokensPass(cs + 1, t[1..], s);
    assert (t + s)[1..] == t[1..] + s;
  }

  lemma OneMore(cs: nat, c: byte, s: seq<byte>)
    requires 3 <= Next(cs, c) <= 7 && Completes(Next(cs, c), s)
    ensures Completes(cs, [c] + s)
  {
    assert ([c] + s)[1..] == s;
  }

  lemma ExtensionPasses(cs: nat, x: Extension, s: seq<byte>)
    requires (cs == 5 || cs == 7) && GoodExtension(x) && Completes(5, s) && Completes(7, s)
    ensures Completes(cs, ExtensionText(x) + s)
  {
    hide IsToken, Completes;
    var v := if x.value == [] then s else [61] + (x.value + s);
    if x.value != [] {
      TokenPasses(6, x.value, s);
      OneMore(5, 61, x.value + s);
    }
    TokenPasses(4, x.name, v);
    OneMore(cs, 59, x.name + v);
    assert ExtensionText(x) + s == [59] + (x.name + v);
  }

  /** The end of a line, with or without a carriage return. */
  function LineEnding(bare: bool): (b: seq<byte>) {
    if bare then [10] else [13, 10]
  }

  /** Extensions and the end of the line, behind a name or a value. */
  lemma {:induction false} RestPasses(cs: nat, xs: seq<Extension>, bare: bool)
    requires (cs == 5 || cs == 7) && (forall i :: 0 <= i < |xs| ==> GoodExtension(xs[i]))
    ensures Completes(cs, ExtensionsText(xs) + LineEnding(bare))
    decreases |xs|
  {
    hide ExtensionText, GoodExtension, Completes;
    if xs == [] {
      EndPasses(cs, bare);
      assert [] + LineEnding(bare) == LineEnding(bare);
    } else {
      var s := ExtensionsText(xs[1..]) + LineEnding(bare);
      RestPasses(5, xs[1..], bare);
      RestPasses(7, xs[1..], bare);
      ExtensionPasses(cs, xs[0], s);
      assert ExtensionsText(xs) + LineEnding(bare) == ExtensionText(xs[0]) + s;
    }
  }

  lemma EndPasses(cs: nat, bare: bool)
    requires cs == 5 || cs == 7
    ensures Completes(cs, LineEnding(bare))
  {
    if !bare {
      assert LineEnding(bare)[1..] == [10];
      assert Completes(3, [10]);
    }
  }

  /** The lines of section 7.1 of RFC 9112: digits, any extensions and the end of the line are a size line for their number. */
  lemma GrammarLine(digits: seq<byte>, xs: seq<Extension>, bare: bool)
    requires AllHex(digits) && digits != [] && (forall i :: 0 <= i < |xs| ==> GoodExtension(xs[i]))
    ensures IsLine(digits + ExtensionsText(xs) + LineEnding(bare), Strtol(digits))
  {
    hide Strtol, ExtensionsText, GoodExtension, IsHex, LineEnding;
    var b, n := digits + ExtensionsText(xs) + LineEnding(bare), |digits|;
    SplitAfter(digits, ExtensionsText(xs), LineEnding(bare));
    DigitsScanned(1, -1, b, 0, n);
    AfterDigits(b, n, xs, bare);
    NotAStatusLine(digits[0]);
  }

  lemma NotAStatusLine(c: byte)
    requires IsHex(c)
    ensures c != 72
  {
  }

  lemma SplitAfter<T>(a: seq<T>, b: seq<T>, c: seq<T>)
    ensures var s := a + b + c; s[..|a|] == a && s[|a|..] == b + c && (a != [] ==> s[0] == a[0])
    ensures var s := a + b + c; |s| == |a| + |b| + |c|
  {
  }

  /** Behind the digits it goes on as behind a name, with the size set. */
  lemma AfterDigits(b: seq<byte>, n: nat, xs: seq<Extension>, bare: bool)
    requires 0 < n <= |b| && (forall i :: 0 <= i < |xs| ==> GoodExtension(xs[i])) && b[n..] == ExtensionsText(xs) + LineEnding(bare)
    ensures Scan(2, -1, b, n) == Complete(Strtol(b[..n]), |b|)
  {
    hide Strtol, ExtensionText, GoodExtension, IsToken, IsHex;
    hide Completes;
    var size := Strtol(b[..n]);
    RestPasses(5, xs, bare);
    CompletesIs(5, size, b, n);
    FirstOfRest(xs, bare);
    assert b[n] == b[n..][0];
    assert Next(2, b[n]) == Next(5, b[n]) && Next(2, b[n]) != 2;
  }

  lemma FirstOfRest(xs: seq<Extension>, bare: bool)
    ensures var r := ExtensionsText(xs) + LineEnding(bare); r != [] && EndsDigits(r[0])
  {
  }

  // ---- and nothing else ----

  lemma {:induction false} ScanCompletes(cs: nat, size: int, b: seq<byte>, p: nat)
    requires 3 <= cs <= 7 && p <= |b| && Scan(cs, size, b, p).Complete? && Scan(cs, size, b, p).consumed == |b|
    ensures Completes(cs, b[p..])
    decreases |b| - p
  {
    hide Strtol;
    assert b[p] == b[p..][0] && b[p + 1..] == b[p..][1..];
    if Next(cs, b[p]) != 120 {
      ScanCompletes(Next(cs, b[p]), size, b, p + 1);
    }
  }

  ghost predicate AllGood(xs: seq<Extension>) {
    forall i :: 0 <= i < |xs| ==> GoodExtension(xs[i])
  }

  function Valued(value: seq<byte>): (b: seq<byte>) {
    if value == [] then [] else [61] + value
  }

  /** Extensions and the end of the line. */
  function Tail(xs: seq<Extension>, bare: bool): (b: seq<byte>) {
    ExtensionsText(xs) + LineEnding(bare)
  }

  /** What is left behind a part of a name, and behind a part of a value. */
  ghost predicate NameRest(s: seq<byte>, name: seq<byte>, value: seq<byte>, xs: seq<Extension>, bare: bool) {
    AllToken(name) && AllToken(value) && AllGood(xs) && s == name + (Valued(value) + Tail(xs, bare))
  }

  ghost predicate ValueRest(s: seq<byte>, value: seq<byte>, xs: seq<Extension>, bare: bool) {
    AllToken(value) && AllGood(xs) && s == value + Tail(xs, bare)
  }

  /** The end of the line, right here. */
  lemma EndOnly(cs: nat, s: seq<byte>) returns (bare: bool)
    requires (cs == 5 || cs == 7) && Completes(cs, s) && (s[0] == 10 || s[0] == 13)
    ensures AllGood([]) && s == Tail([], bare) && NameRest(s, [], [], [], bare) && ValueRest(s, [], [], bare)
  {
    bare := s[0] == 10;
    assert s == [s[0]] + s[1..];
    assert s == Tail([], bare);
    assert [] + (Valued([]) + Tail([], bare)) == [] + Tail([], bare) == Tail([], bare);
  }

  lemma Longer(c: byte, t: seq<byte>, rest: seq<byte>)
    ensures [c] + (t + rest) == ([c] + t) + rest
    ensures IsToken(c) && AllToken(t) ==> AllToken([c] + t)
  {
  }

  lemma {:induction false} BehindValue(s: seq<byte>) returns (value: seq<byte>, xs: seq<Extension>, bare: bool)
    requires Completes(7, s)
    ensures ValueRest(s, value, xs, bare)
    decreases |s|, 0
  {
    hide Tail, IsToken, AllGood, AllToken;
    var c, rest := s[0], s[1..];
    assert s == [c] + rest;
    if c == 10 || c == 13 {
      value, xs := [], [];
      bare := EndOnly(7, s);
    } else if c == 59 {
      var x;
      x, xs, bare := BehindSemicolon(rest);
      value := [];
      OneExtension(x, xs, bare);
      xs := [x] + xs;
    } else {
      value, xs, bare := BehindValue(rest);
      Longer(c, value, Tail(xs, bare));
      value := [c] + value;
    }
  }

  lemma {:induction false} BehindName(s: seq<byte>) returns (name: seq<byte>, value: seq<byte>, xs: seq<Extension>, bare: bool)
    requires Completes(5, s)
    ensures NameRest(s, name, value, xs, bare)
    decreases |s|, 0
  {
    hide Tail, IsToken, AllGood, AllToken, Valued;
    var c, rest := s[0], s[1..];
    assert s == [c] + rest;
    if c == 10 || c == 13 {
      name, value, xs := [], [], [];
      bare := EndOnly(5, s);
    } else if c == 59 {
      var x;
      x, xs, bare := BehindSemicolon(rest);
      name, value := [], [];
      OneExtension(x, xs, bare);
      xs := [x] + xs;
    } else if c == 61 {
      name := [];
      value, xs, bare := BehindEquals(rest);
      WithValue(value, Tail(xs, bare));
    } else {
      name, value, xs, bare := BehindName(rest);
      Longer(c, name, Valued(value) + Tail(xs, bare));
      name := [c] + name;
    }
  }

  lemma WithValue(value: seq<byte>, rest: seq<byte>)
    requires value != []
    ensures AllToken([]) && [61] + (value + rest) == [] + (Valued(value) + rest)
  {
  }

  lemma {:induction false} BehindEquals(s: seq<byte>) returns (value: seq<byte>, xs: seq<Extension>, bare: bool)
    requires Completes(6, s)
    ensures ValueRest(s, value, xs, bare) && value != []
    decreases |s|, 1
  {
    hide Tail, IsToken, AllGood, AllToken;
    value, xs, bare := BehindValue(s[1..]);
    assert s == [s[0]] + s[1..];
    Longer(s[0], value, Tail(xs, bare));
    value := [s[0]] + value;
  }

  lemma {:induction false} BehindSemicolon(s: seq<byte>) returns (x: Extension, xs: seq<Extension>, bare: bool)
    requires Completes(4, s)
    ensures GoodExtension(x) && NameRest(s, x.name, x.value, xs, bare)
    decreases |s|, 1
  {
    hide Tail, IsToken, AllGood, AllToken, Valued;
    var name, value;
    name, value, xs, bare := BehindName(s[1..]);
    assert s == [s[0]] + s[1..];
    Longer(s[0], name, Valued(value) + Tail(xs, bare));
    x := Extension([s[0]] + name, value);
  }

  lemma OneExtension(x: Extension, xs: seq<Extension>, bare: bool)
    requires GoodExtension(x) && AllGood(xs)
    ensures var s := [59] + (x.name + (Valued(x.value) + Tail(xs, bare)));
      NameRest(s, [], [], [x] + xs, bare) && ValueRest(s, [], [x] + xs, bare)
  {
    hide GoodExtension;
    assert ([x] + xs)[1..] == xs;
    var s := [59] + (x.name + (Valued(x.value) + Tail(xs, bare)));
    assert s == ([59] + x.name + Valued(x.value)) + ExtensionsText(xs) + LineEnding(bare);
    assert s == Tail([x] + xs, bare);
    assert [] + (Valued([]) + s) == [] + s == s;
  }

  /** A size line is digits, any extensions and the end of the line. */
  ghost predicate Grammar(line: seq<byte>, n: int, digits: seq<byte>, xs: seq<Extension>, bare: bool) {
    digits != [] && AllHex(digits) && AllGood(xs) && line == digits + ExtensionsText(xs) + LineEnding(bare) && n == Strtol(digits)
  }

  lemma LineHasGrammar(line: seq<byte>, n: int) returns (digits: seq<byte>, xs: seq<Extension>, bare: bool)
    requires IsLine(line, n)
    ensures Grammar(line, n, digits, xs, bare)
  {
    hide Strtol, IsToken, IsHex, Lead, ExtensionsText, AllGood, AllToken, Completes, LineEnding, NameRest, Parse, Scan;
    SizeOfLine(line, n);
    var d := Lead(line);
    digits := line[..d];
    var rest := line[d..];
    WholeScan(line, n, d);
    RestCompletes(line, d);
    var name, value;
    name, value, xs, bare := BehindName(rest);
    NothingBetween(rest, name, value, xs, bare);
    JoinAgain(line, d, ExtensionsText(xs), LineEnding(bare));
  }

  lemma JoinAgain<T>(s: seq<T>, d: nat, b: seq<T>, c: seq<T>)
    requires d <= |s| && s[d..] == b + c
    ensures s == s[..d] + b + c
  {
    assert s == s[..d] + s[d..];
  }

  lemma WholeScan(line: seq<byte>, n: int, d: nat)
    requires IsLine(line, n) && 0 < d < |line| && AllHex(line[..d])
    ensures Scan(2, -1, line, d) == Complete(n, |line|)
  {
    hide Scan, Strtol;
    DigitsScanned(1, -1, line, 0, d);
  }

  lemma RestCompletes(line: seq<byte>, d: nat)
    requires d < |line| && EndsDigits(line[d]) && Scan(2, -1, line, d).Complete? && Scan(2, -1, line, d).consumed == |line|
    ensures Completes(5, line[d..])
  {
    hide Strtol, IsToken;
    var next := Next(2, line[d]);
    assert Next(5, line[d]) == next && line[d] == line[d..][0] && line[d..][1..] == line[d + 1..];
    if next != 120 {
      ScanCompletes(next, Strtol(line[..d]), line, d + 1);
    }
  }

  lemma NothingBetween(s: seq<byte>, name: seq<byte>, value: seq<byte>, xs: seq<Extension>, bare: bool)
    requires NameRest(s, name, value, xs, bare) && s != [] && EndsDigits(s[0])
    ensures s == ExtensionsText(xs) + LineEnding(bare) && AllGood(xs)
  {
    hide Tail, IsToken;
    if name != [] {
      NotSpecial(name[0]);
      assert false;
    } else {
      assert s == Valued(value) + Tail(xs, bare);
    }
    TailIs(xs, bare);
  }

  lemma TailIs(xs: seq<Extension>, bare: bool)
    ensures Tail(xs, bare) == ExtensionsText(xs) + LineEnding(bare)
  {
  }

  /** What the machine takes for a size line is that grammar, and the size is the number of its digits. */
  lemma LineIff(line: seq<byte>, n: int)
    ensures IsLine(line, n) <==> exists digits, xs, bare :: Grammar(line, n, digits, xs, bare)
  {
    if IsLine(line, n) {
      var digits, xs, bare := LineHasGrammar(line, n);
    }
    if exists digits, xs, bare :: Grammar(line, n, digits, xs, bare) {
      var digits, xs, bare :| Grammar(line, n, digits, xs, bare);
      GrammarLine(digits, xs, bare);
    }
  }

  // ---- buffers that hold no whole line ----

  /** Bytes that lead from a state to the end of a line. */
  function WayOut(cs: nat): (r: seq<byte>) {
    if cs == 1 then [48, 10] else if cs == 4 || cs == 6 then [97, 10] else [10]
  }

  lemma WayOutCompletes(cs: nat, size: int, b: seq<byte>)
    requires 1 <= cs <= 7
    ensures Scan(cs, size, b + WayOut(cs), |b|).Complete?
  {
    hide Strtol;
    var t := b + WayOut(cs);
    assert t[|b|] == WayOut(cs)[0];
    if |WayOut(cs)| == 2 {
      assert t[|b| + 1] == 10;
      var next := Next(cs, t[|b|]);
      assert Scan(next, size, t, |b| + 1).Complete?;
    }
  }

  /** An unfinished line can still become one, and one with an error cannot. */
  lemma {:induction false} GoOn(cs: nat, size: int, b: seq<byte>, p: nat) returns (r: seq<byte>)
    requires 1 <= cs <= 7 && p <= |b|
    ensures Scan(cs, size, b, p).Unfinished? ==> Scan(cs, size, b + r, p).Complete?
    decreases |b| - p
  {
    hide Strtol, Next;
    if p == |b| {
      r := WayOut(cs);
      WayOutCompletes(cs, size, b);
    } else {
      r := [];
      var next := Next(cs, b[p]);
      NextIs(cs, b[p]);
      if next != 0 && next != 120 {
        r := GoOn(next, if cs == 2 && next != 2 then Strtol(b[..p]) else size, b, p + 1);
        assert (b + r)[p] == b[p] && (b + r)[..p] == b[..p];
      }
    }
  }

  lemma NextIs(cs: nat, c: byte)
    requires 1 <= cs <= 7
    ensures Next(cs, c) == 0 || Next(cs, c) == 120 || 1 <= Next(cs, c) <= 7
  {
  }

  lemma {:induction false} StaysMalformed(cs: nat, size: int, b: seq<byte>, p: nat, r: seq<byte>)
    requires p <= |b| && Scan(cs, size, b, p).Malformed?
    ensures Scan(cs, size, b + r, p).Malformed?
    decreases |b| - p
  {
    hide Strtol, Next;
    assert (b + r)[p] == b[p] && (b + r)[..p] == b[..p];
    var next := Next(cs, b[p]);
    if next != 0 {
      StaysMalformed(next, if cs == 2 && next != 2 then Strtol(b[..p]) else size, b, p + 1, r);
    }
  }

  /**
   How a buffer is taken: as a status line exactly when it begins with an H; otherwise it is malformed exactly when
   nothing that could follow makes its beginning a size line.
   */
  lemma Taken(b: seq<byte>)
    ensures Parse(b) == StatusLine <==> b != [] && b[0] == 'H' as int
    ensures b != [] && b[0] != 'H' as int ==> (Parse(b).Malformed? <==> forall r :: !Parse(b + r).Complete?)
  {
    hide Scan;
    ScanEnds(1, -1, b, 0);
    if b != [] && b[0] != 72 {
      if Parse(b).Malformed? {
        forall r
          ensures !Parse(b + r).Complete?
        {
          StaysMalformed(1, -1, b, 0, r);
        }
      } else if Parse(b).Complete? {
        assert b + [] == b;
      } else {
        var r := GoOn(1, -1, b, 0);
        assert (b + r)[0] == b[0];
        assert Parse(b + r).Complete?;
      }
    }
  }

  lemma {:induction false} ScanEnds(cs: nat, size: int, b: seq<byte>, p: nat)
    requires p <= |b|
    ensures !Scan(cs, size, b, p).StatusLine?
    decreases |b| - p
  {
    hide Strtol, Next;
    if p < |b| {
      var next := Next(cs, b[p]);
      if next != 0 && next != 120 {
        ScanEnds(next, if cs == 2 && next != 2 then Strtol(b[..p]) else size, b, p + 1);
      }
    }
  }
}
