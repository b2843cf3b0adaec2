/** Keys compared by strcasecmp, as the header and parameter maps do. */
module CaseInsensitive {
  import opened Bytes

  function Lower(c: byte): (l: byte) {
    if 65 <= c <= 90 then c + 32 else c
  }

  /** What strcasecmp sees of a string: the bytes before its first NUL, in lower case. */
  function Folded(s: seq<byte>): (f: seq<byte>)
    ensures |f| <= |s|
  {
    if s == [] || s[0] == 0 then [] else [Lower(s[0])] + Folded(s[1..])
  }

  predicate SameKey(a: seq<byte>, b: seq<byte>) {
    Folded(a) == Folded(b)
  }

  lemma {:induction false} FoldedLength(s: seq<byte>)
    requires forall i :: 0 <= i < |s| ==> s[i] != 0
    ensures |Folded(s)| == |s|
    decreases |s|
  {
    if s != [] {
      FoldedLength(s[1..]);
    }
  }

  /** The same byte, or the two cases of one letter. */
  predicate SameLetter(a: byte, b: byte) {
    a == b || ('A' <= a as char <= 'Z' && b == a + 32) || ('A' <= b as char <= 'Z' && a == b + 32)
  }

  lemma LowerIff(a: byte, b: byte)
    ensures Lower(a) == Lower(b) <==> SameLetter(a, b)
  {
  }

  /** A C string ends at its first NUL. */
  function UpToNul(s: seq<byte>): (c: seq<byte>)
    ensures 0 !in c && c <= s && (|c| < |s| ==> s[|c|] == 0)
  {
    if s == [] || s[0] == 0 then [] else [s[0]] + UpToNul(s[1..])
  }

  predicate SameText(a: seq<byte>, b: seq<byte>) {
    |a| == |b| && forall i :: 0 <= i < |a| ==> SameLetter(a[i], b[i])
  }

  /** Two keys are the same exactly when their C strings differ in the case of letters at most. */
  lemma {:induction false} SameKeyIff(a: seq<byte>, b: seq<byte>)
    ensures SameKey(a, b) <==> SameText(UpToNul(a), UpToNul(b))
    decreases |a|
  {
    hide Lower, SameLetter;
    if a != [] && a[0] != 0 && b != [] && b[0] != 0 {
      SameKeyIff(a[1..], b[1..]);
      LowerIff(a[0], b[0]);
      var p, q := UpToNul(a[1..]), UpToNul(b[1..]);
      FirstAndRest(a[0], p, b[0], q);
      assert Folded(a)[1..] == Folded(a[1..]) && Folded(b)[1..] == Folded(b[1..]);
    }
  }

  lemma FirstAndRest(x: byte, p: seq<byte>, y: byte, q: seq<byte>)
    ensures SameText([x] + p, [y] + q) <==> SameLetter(x, y) && SameText(p, q)
  {
    hide SameLetter;
    var a, b := [x] + p, [y] + q;
    if SameText(a, b) {
      assert SameLetter(a[0], b[0]);
      assert forall i :: 0 <= i < |p| ==> p[i] == a[i + 1] && q[i] == b[i + 1];
    } else if |p| == |q| {
      var i :| 0 <= i < |a| && !SameLetter(a[i], b[i]);
      assert i > 0 ==> p[i - 1] == a[i] && q[i - 1] == b[i];
    }
  }
}
