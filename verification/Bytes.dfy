/** Byte sequences, and the flat view of a list of equally long chunks. */
module Bytes {

  type byte = x: int | 0 <= x < 256

  /** The bytes of all chunks, first chunk first. */
  function Concat<T>(chunks: seq<seq<T>>): (flat: seq<T>) {
    if chunks == [] then [] else chunks[0] + Concat(chunks[1..])
  }

  /** `flat` with the bytes from `at` on replaced by `data`; the length stays. */
  function Splice<T>(flat: seq<T>, at: nat, data: seq<T>): (r: seq<T>)
    requires at + |data| <= |flat|
    ensures |r| == |flat|
  {
    flat[..at] + data + flat[at + |data|..]
  }

  /** `content` with `data` written at `at`; grows when `data` reaches past the end. */
  function Overwrite<T>(content: seq<T>, at: nat, data: seq<T>): (r: seq<T>)
    requires at <= |content|
    ensures |r| == if at + |data| <= |content| then |content| else at + |data|
  {
    if at + |data| <= |content| then Splice(content, at, data) else content[..at] + data
  }

  ghost predicate Uniform<T>(chunks: seq<seq<T>>, width: nat) {
    forall i :: 0 <= i < |chunks| ==> |chunks[i]| == width
  }

  /** Where chunk `k` starts in the flat view: `k * width`. */
  function Start(k: nat, width: nat): (r: nat) {
    if k == 0 then 0 else Start(k - 1, width) + width
  }

  lemma {:induction false} StartMonotone(i: nat, j: nat, width: nat)
    requires i < j
    ensures Start(i, width) + width <= Start(j, width)
  {
    if i < j - 1 {
      StartMonotone(i, j - 1, width);
    }
  }

  lemma {:induction false} StartIsProduct(k: nat, width: nat)
    ensures Start(k, width) == k * width
  {
    if k > 0 {
      StartIsProduct(k - 1, width);
    }
  }

  /** A position inside chunk `k` has quotient `k`, and the offset in the chunk as remainder. */
  lemma PositionInChunk(position: nat, width: nat, k: nat)
    requires Start(k, width) <= position < Start(k, width) + width
    ensures position / width == k && position % width == position - Start(k, width)
  {
    StartIsProduct(k, width);
    QuotientUnique(position, width, k, position - Start(k, width));
  }

  lemma QuotientUnique(n: int, d: int, q: int, r: int)
    requires n == q * d + r && 0 <= r < d
    ensures n / d == q && n % d == r
  {
    MultipleBelow(n / d - q, d, r - n % d);
  }

  lemma MultipleBelow(m: int, d: int, e: int)
    requires m * d == e && -d < e < d
    ensures m == 0
  {
  }

  lemma DivDiv(v: nat, a: nat, b: nat)
    requires a > 0 && b > 0
    ensures a * b > 0 && v / a / b == v / (a * b)
  {
    var q, r := v / a / b, v / a % b;
    assert v / a == b * q + r;
    assert v == a * (b * q + r) + v % a;
    Regroup(a, b, q, r);
    Below(a, b, r, v % a);
    QuotientUnique(v, a * b, q, a * r + v % a);
  }

  lemma Regroup(a: nat, b: nat, q: nat, r: nat)
    ensures a * (b * q + r) == q * (a * b) + a * r
  {
  }

  lemma Below(a: nat, b: nat, r: nat, s: nat)
    requires r < b && s < a
    ensures a * r + s < a * b
  {
    assert a * (r + 1) <= a * b;
  }

  lemma {:induction false} ConcatAppend<T>(a: seq<seq<T>>, b: seq<seq<T>>)
    ensures Concat(a + b) == Concat(a) + Concat(b)
  {
    if a == [] {
      assert a + b == b;
    } else {
      assert (a + b)[1..] == a[1..] + b;
      ConcatAppend(a[1..], b);
    }
  }

  lemma {:induction false} ConcatLength<T>(chunks: seq<seq<T>>, width: nat)
    requires Uniform(chunks, width)
    ensures |Concat(chunks)| == Start(|chunks|, width)
  {
    if chunks != [] {
      ConcatLength(chunks[1..], width);
    }
  }

  lemma ConcatAround<T>(chunks: seq<seq<T>>, width: nat, k: nat)
    requires Uniform(chunks, width) && k < |chunks|
    ensures Concat(chunks) == Concat(chunks[..k]) + chunks[k] + Concat(chunks[k + 1..])
    ensures |Concat(chunks[..k])| == Start(k, width)
    ensures Start(k, width) + width <= |Concat(chunks)| == Start(|chunks|, width)
  {
    assert chunks == chunks[..k] + chunks[k..];
    ConcatAppend(chunks[..k], chunks[k..]);
    ConcatLength(chunks[..k], width);
    ConcatLength(chunks, width);
    StartMonotone(k, |chunks|, width);
  }

  lemma SliceMiddle<T>(a: seq<T>, b: seq<T>, c: seq<T>, lo: nat, hi: nat)
    requires lo <= hi <= |b|
    ensures (a + b + c)[|a| + lo..|a| + hi] == b[lo..hi]
  {
  }

  /** A range inside chunk `k` is the same range of the flat view, shifted by where the chunk starts. */
  lemma SliceOfChunk<T>(chunks: seq<seq<T>>, width: nat, k: nat, lo: nat, hi: nat)
    requires Uniform(chunks, width) && k < |chunks| && lo <= hi <= width
    ensures Start(k, width) + width <= |Concat(chunks)|
    ensures Concat(chunks)[Start(k, width) + lo..Start(k, width) + hi] == chunks[k][lo..hi]
  {
    ConcatAround(chunks, width, k);
    SliceMiddle(Concat(chunks[..k]), chunks[k], Concat(chunks[k + 1..]), lo, hi);
  }

  lemma SpliceMiddle<T>(a: seq<T>, b: seq<T>, c: seq<T>, lo: nat, data: seq<T>)
    requires lo + |data| <= |b|
    ensures Splice(a + b + c, |a| + lo, data) == a + Splice(b, lo, data) + c
  {
  }

  lemma ConcatUpdate<T>(chunks: seq<seq<T>>, width: nat, k: nat, changed: seq<T>)
    requires Uniform(chunks, width) && k < |chunks| && |changed| == width
    ensures Concat(chunks[k := changed]) == Concat(chunks[..k]) + changed + Concat(chunks[k + 1..])
  {
    var after := chunks[k := changed];
    assert after[..k] == chunks[..k] && after[k + 1..] == chunks[k + 1..];
    ConcatAround(after, width, k);
  }

  /** Overwriting a range of chunk `k` splices the flat view. */
  lemma SpliceOfChunk<T>(chunks: seq<seq<T>>, width: nat, k: nat, lo: nat, data: seq<T>)
    requires Uniform(chunks, width) && k < |chunks| && lo + |data| <= width
    ensures Start(k, width) + width <= |Concat(chunks)|
    ensures Concat(chunks[k := Splice(chunks[k], lo, data)]) == Splice(Concat(chunks), Start(k, width) + lo, data)
  {
    hide Splice, Concat;
    ConcatAround(chunks, width, k);
    ConcatUpdate(chunks, width, k, Splice(chunks[k], lo, data));
    SpliceMiddle(Concat(chunks[..k]), chunks[k], Concat(chunks[k + 1..]), lo, data);
  }

  lemma SpliceNothing<T>(flat: seq<T>, at: nat)
    requires at <= |flat|
    ensures Splice(flat, at, []) == flat
  {
  }

  /** Two adjoining splices are one. */
  lemma SpliceTwice<T>(flat: seq<T>, at: nat, first: seq<T>, second: seq<T>)
    requires at + |first| + |second| <= |flat|
    ensures Splice(Splice(flat, at, first), at + |first|, second) == Splice(flat, at, first + second)
  {
  }

  /** So are two adjoining overwrites, which may grow the content. */
  lemma OverwriteTwice<T>(content: seq<T>, at: nat, first: seq<T>, second: seq<T>)
    requires at <= |content|
    ensures Overwrite(Overwrite(content, at, first), at + |first|, second) == Overwrite(content, at, first + second)
  {
    if at + |first| + |second| <= |content| {
      hide Splice;
      SpliceTwice(content, at, first, second);
    } else {
      var once := Overwrite(content, at, first);
      assert once[..at + |first|] == content[..at] + first;
      if at + |first| + |second| <= |once| {
        assert second == [];
      }
    }
  }

  lemma OverwriteNothing<T>(content: seq<T>, at: nat)
    requires at <= |content|
    ensures Overwrite(content, at, []) == content
  {
  }

  /** Splicing into a grown flat view overwrites the view it grew from, and leaves what was added behind that. */
  lemma SpliceGrown<T>(flat: seq<T>, grown: seq<T>, at: nat, data: seq<T>)
    requires at <= |flat| <= |grown| && at + |data| <= |grown| && grown[..|flat|] == flat
    ensures Overwrite(flat, at, data) <= Splice(grown, at, data)
  {
    var s := Splice(grown, at, data);
    var o := Overwrite(flat, at, data);
    assert forall i :: 0 <= i < |flat| ==> flat[i] == grown[i];
    assert forall i :: 0 <= i < |o| ==> o[i] == s[i];
  }

  /** Splicing into a grown flat view overwrites the part of it that is in use. */
  lemma OverwriteBySplice<T>(flat: seq<T>, grown: seq<T>, used: nat, at: nat, data: seq<T>)
    requires at <= used <= |flat| <= |grown| && at + |data| <= |grown|
    requires grown[..|flat|] == flat
    ensures var end := if at + |data| <= used then used else at + |data|;
            Splice(grown, at, data)[..end] == Overwrite(flat[..used], at, data)
  {
    assert flat[..used] == grown[..used];
  }

  /** The fewest chunks of `width` bytes that hold `n` bytes. */
  function ChunksFor(n: nat, width: nat): (count: nat)
    requires n > 0 && width > 0
    ensures count > 0 && n <= Start(count, width) < n + width
  {
    var count := (n + width - 1) / width;
    StartIsProduct(count, width);
    count
  }
}
