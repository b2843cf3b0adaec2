/** StringUtil::UrlEncode and UrlDecode. */
module Url {
  import opened Ascii
  import opened Options
  import opened Bytes

  const PERCENT: byte := 37
  const PLUS: byte := 43
  const SPACE: byte := 32

  /** The table of section 2.3 of RFC 3986, and `=`, which the code's table has as well. */
  predicate IsUnreserved(c: byte) {
    c == 45 || c == 46 || 48 <= c <= 57 || c == 61 || 65 <= c <= 90 || c == 95 || 97 <= c <= 122 || c == 126
  }

  function HexDigit(n: nat): (c: byte)
    requires n < 16
    ensures IsHex(c) && Digit(c) == n
  {
    if n < 10 then 48 + n else 55 + n
  }

  /** One byte, encoded on its own. */
  function EncodeByte(c: byte, spaceAsPlus: bool): (e: seq<byte>)
    ensures e != []
  {
    if IsUnreserved(c) then [c]
    else if c == SPACE && spaceAsPlus then [PLUS]
    else [PERCENT, HexDigit(c / 16), HexDigit(c % 16)]
  }

  function Encode(s: seq<byte>, spaceAsPlus: bool): (e: seq<byte>) {
    if s == [] then [] else EncodeByte(s[0], spaceAsPlus) + Encode(s[1..], spaceAsPlus)
  }

  /** `s` starts with a percent sign and two hexadecimal digits. */
  predicate Escape(s: seq<byte>) {
    |s| > 2 && s[0] == PERCENT && IsHex(s[1]) && IsHex(s[2])
  }

  /** The byte that the start of `s` stands for, and how many bytes of `s` that takes. */
  function Unit(s: seq<byte>, spaceAsPlus: bool): (u: (byte, nat))
    requires s != []
    ensures 0 < u.1 <= |s|
  {
    if s[0] == PLUS && spaceAsPlus then (SPACE, 1)
    else if Escape(s) then (Digit(s[1]) * 16 + Digit(s[2]), 3)
    else (s[0], 1)
  }

  function Decode(s: seq<byte>, spaceAsPlus: bool): (d: seq<byte>) {
    if s == [] then []
    else
      var u := Unit(s, spaceAsPlus);
      [u.0] + Decode(s[u.1..], spaceAsPlus)
  }

  lemma {:induction false} EncodeAppend(a: seq<byte>, c: byte, spaceAsPlus: bool)
    ensures Encode(a + [c], spaceAsPlus) == Encode(a, spaceAsPlus) + EncodeByte(c, spaceAsPlus)
  {
    hide EncodeByte;
    if a == [] {
      assert a + [c] == [c] && [c][1..] == [];
    } else {
      assert (a + [c])[1..] == a[1..] + [c];
      EncodeAppend(a[1..], c, spaceAsPlus);
    }
  }

  lemma EncodeNothing(spaceAsPlus: bool)
    ensures Encode([], spaceAsPlus) == []
  {
  }

  /** The loop, with the output made only when a byte has to be escaped: the same as encoding each byte on its own. */
  method UrlEncode(str: seq<byte>, spaceAsPlus: bool) returns (r: seq<byte>)
    ensures r == Encode(str, spaceAsPlus)
  {
    hide Encode, HexDigit, IsUnreserved;
    var ss: Option<seq<byte>> := None;
    var i := 0;
    EncodeNothing(spaceAsPlus);
    assert str[..0] == [];
    while i < |str|
      invariant 0 <= i <= |str|
      invariant Encode(str[..i], spaceAsPlus) == if ss.None? then str[..i] else ss.value
    {
      var c := str[i];
      EncodeAppend(str[..i], c, spaceAsPlus);
      assert str[..i + 1] == str[..i] + [c];
      if !IsUnreserved(c) {
        var out := if ss.None? then str[..i] else ss.value;
        if c == SPACE && spaceAsPlus {
          ss := Some(out + [PLUS]);
        } else {
          ss := Some(out + [PERCENT] + [HexDigit(c / 16)] + [HexDigit(c % 16)]);
        }
      } else if ss.Some? {
        ss := Some(ss.value + [c]);
      }
      i := i + 1;
    }
    assert str[..i] == str;
    r := if ss.None? then str else ss.value;
  }

  method UrlDecode(str: seq<byte>, spaceAsPlus: bool) returns (r: seq<byte>)
    ensures r == Decode(str, spaceAsPlus)
  {
    hide Decode, Digit;
    var ss: Option<seq<byte>> := None;
    var i := 0;
    ghost var done: seq<byte> := [];
    assert str[0..] == str;
    while i < |str|
      invariant 0 <= i <= |str|
      invariant done == if ss.None? then str[..i] else ss.value
      invariant Decode(str, spaceAsPlus) == done + Decode(str[i..], spaceAsPlus)
    {
      var c := str[i];
      var out := if ss.None? then str[..i] else ss.value;
      DecodeNext(str, i, done, spaceAsPlus);
      if c == PLUS && spaceAsPlus {
        ss := Some(out + [SPACE]);
        done := done + [SPACE];
        i := i + 1;
      } else if c == PERCENT && i + 2 < |str| && IsHex(str[i + 1]) && IsHex(str[i + 2]) {
        var d: byte := Digit(str[i + 1]) * 16 + Digit(str[i + 2]);
        ss := Some(out + [d]);
        done := done + [d];
        i := i + 3;
      } else {
        assert str[..i + 1] == str[..i] + [c];
        if ss.Some? {
          ss := Some(ss.value + [c]);
        }
        done := done + [c];
        i := i + 1;
      }
    }
    assert str[i..] == [] && str[..i] == str;
    DecodeNothing(spaceAsPlus);
    r := if ss.None? then str else ss.value;
  }

  lemma DecodeNothing(spaceAsPlus: bool)
    ensures Decode([], spaceAsPlus) == []
  {
  }

  /** One unit further. */
  lemma DecodeNext(str: seq<byte>, i: nat, done: seq<byte>, spaceAsPlus: bool)
    requires i < |str|
    ensures var u := Unit(str[i..], spaceAsPlus);
      i + u.1 <= |str| && done + Decode(str[i..], spaceAsPlus) == done + [u.0] + Decode(str[i + u.1..], spaceAsPlus)
  {
    hide Unit;
    var u := Unit(str[i..], spaceAsPlus);
    assert str[i..][u.1..] == str[i + u.1..];
  }

  /** What decoding makes of one encoded byte: it gets it back, except for a plus that is not read as a space. */
  lemma DecodeOne(c: byte, rest: seq<byte>, encodePlus: bool, decodePlus: bool)
    ensures Decode(EncodeByte(c, encodePlus) + rest, decodePlus)
         == [if c == SPACE && encodePlus && !decodePlus then PLUS else c] + Decode(rest, decodePlus)
  {
    hide HexDigit, Digit;
    var e := EncodeByte(c, encodePlus);
    var s := e + rest;
    if IsUnreserved(c) || (c == SPACE && encodePlus) {
      assert s[0] == e[0] && s[1..] == rest;
    } else {
      assert s[0] == PERCENT && s[1] == HexDigit(c / 16) && s[2] == HexDigit(c % 16) && s[3..] == rest;
      assert c / 16 * 16 + c % 16 == c;
    }
  }

  /** The exact condition: every byte string comes back unless a space was sent as a plus and that is not undone. */
  lemma {:induction false} RoundTrip(s: seq<byte>, encodePlus: bool, decodePlus: bool)
    ensures Decode(Encode(s, encodePlus), decodePlus) == s <==> (encodePlus && SPACE in s ==> decodePlus)
  {
    hide EncodeByte;
    if s != [] {
      RoundTrip(s[1..], encodePlus, decodePlus);
      DecodeOne(s[0], Encode(s[1..], encodePlus), encodePlus, decodePlus);
      assert s == [s[0]] + s[1..];
      var back := Decode(Encode(s, encodePlus), decodePlus);
      assert back[1..] == Decode(Encode(s[1..], encodePlus), decodePlus);
      assert back == s <==> back[0] == s[0] && back[1..] == s[1..];
      assert SPACE in s <==> s[0] == SPACE || SPACE in s[1..];
    }
  }

  /** An encoded text is made of unreserved bytes, percent signs and pluses. */
  predicate IsPlain(e: seq<byte>) {
    forall i :: 0 <= i < |e| ==> IsUnreserved(e[i]) || e[i] == PERCENT || e[i] == PLUS
  }

  lemma {:induction false} EncodedIsPlain(s: seq<byte>, spaceAsPlus: bool)
    ensures IsPlain(Encode(s, spaceAsPlus))
  {
    if s != [] {
      EncodedIsPlain(s[1..], spaceAsPlus);
      var e := EncodeByte(s[0], spaceAsPlus);
      assert forall i :: 0 <= i < |e| ==> IsUnreserved(e[i]) || e[i] == PERCENT || e[i] == PLUS;
    }
  }

  // ---- the two tables ----

  predicate Letter(c: byte) {
    'A' <= c as char <= 'Z' || 'a' <= c as char <= 'z'
  }

  /** A byte is sent as it is exactly when it is a letter, a digit or one of - . _ ~ = */
  lemma SentAsItIsIff(c: byte, spaceAsPlus: bool)
    ensures EncodeByte(c, spaceAsPlus) == [c] <==>
      Letter(c) || '0' <= c as char <= '9' || c as char in ['-', '.', '_', '~', '=']
  {
  }

  /** Any other byte but a space sent as a plus is a percent sign and its two digits, in upper case. */
  lemma Escaped(c: byte, spaceAsPlus: bool)
    requires EncodeByte(c, spaceAsPlus) != [c] && !(c == SPACE && spaceAsPlus)
    ensures var e := EncodeByte(c, spaceAsPlus);
      e == ['%' as int, "0123456789ABCDEF"[c / 16] as int, "0123456789ABCDEF"[c % 16] as int]
  {
  }

  /** Decoding takes the digits of an escape in either case. */
  lemma EscapeDecoded(x: byte, y: byte, hi: nat, lo: nat, rest: seq<byte>, spaceAsPlus: bool)
    requires hi < 16 && lo < 16
    requires x == "0123456789abcdef"[hi] as int || x == "0123456789ABCDEF"[hi] as int
    requires y == "0123456789abcdef"[lo] as int || y == "0123456789ABCDEF"[lo] as int
    ensures Decode(['%' as int, x, y] + rest, spaceAsPlus) == [16 * hi + lo] + Decode(rest, spaceAsPlus)
  {
    hide IsHex, Digit;
    HexDigits(x, hi);
    HexDigits(y, lo);
    var s := ['%' as int, x, y] + rest;
    assert s[3..] == rest && s[0] == PERCENT && s[1] == x && s[2] == y;
  }

  /** What is no escape is taken as it is, and a plus as a space where that is asked for. */
  lemma OtherDecoded(s: seq<byte>, spaceAsPlus: bool)
    requires s != [] && (s[0] != '%' as int || |s| < 3 || !IsHex(s[1]) || !IsHex(s[2]))
    ensures Decode(s, spaceAsPlus) == [if s[0] == '+' as int && spaceAsPlus then ' ' as int else s[0]] + Decode(s[1..], spaceAsPlus)
  {
  }
}
