/** Classes of bytes that several tables of the code share. */
module Ascii {
  import opened Bytes

  predicate IsHex(c: byte) {
    48 <= c <= 57 || 65 <= c <= 70 || 97 <= c <= 102
  }

  /** The value of a hexadecimal digit, and 0 for other bytes. */
  function Digit(c: byte): (d: nat)
    ensures d < 16
  {
    if 48 <= c <= 57 then c - 48 else if 65 <= c <= 70 then c - 55 else if 97 <= c <= 102 then c - 87 else 0
  }

  /** The bytes of a token that are not control characters. */
  predicate IsToken(c: byte) {
    c == 33 || 35 <= c <= 39 || c == 42 || c == 43 || c == 45 || c == 46
    || 48 <= c <= 57 || 65 <= c <= 90 || 94 <= c <= 122 || c == 124 || c == 126
  }

  /** The hexadecimal digits are these, in either case, with these values. */
  lemma HexDigits(c: byte, d: nat)
    requires d < 16
    ensures IsHex(c) && Digit(c) == d <==> c == "0123456789abcdef"[d] as int || c == "0123456789ABCDEF"[d] as int
  {
  }

  /** A text as bytes. */
  function Chars(s: string): (b: seq<byte>)
    requires forall i :: 0 <= i < |s| ==> s[i] as int < 128
    ensures |b| == |s| && forall i :: 0 <= i < |s| ==> b[i] == s[i] as int
  {
    seq(|s|, i requires 0 <= i < |s| => s[i] as int)
  }
}
