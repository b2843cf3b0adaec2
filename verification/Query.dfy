/** The parameter parser that initQueryParam and initBodyParam share, and its map. */
module Query {
  import opened Bytes
  import opened CaseInsensitive
  import opened Url

  const EQUALS: byte := 61
  const AMPERSAND: byte := 38

  datatype Param = Param(key: seq<byte>, value: seq<byte>)

  /** std::string::find: the first position of `c`, or the length when there is none. */
  function Find(s: seq<byte>, c: byte): (i: nat)
    ensures i <= |s| && (i < |s| ==> s[i] == c)
  {
    if s == [] || s[0] == c then 0 else 1 + Find(s[1..], c)
  }

  lemma {:induction false} FindUnique(s: seq<byte>, c: byte, i: nat)
    requires i <= |s| && c !in s[..i] && (i < |s| ==> s[i] == c)
    ensures Find(s, c) == i
    decreases |s|
  {
    if i > 0 {
      assert s[..i][0] == s[0] && s[..i][1..] == s[1..][..i - 1];
      FindUnique(s[1..], c, i - 1);
    }
  }

  lemma {:induction false} FindFinds(s: seq<byte>, c: byte)
    requires c in s
    ensures Find(s, c) < |s| && s[Find(s, c)] == c && c !in s[..Find(s, c)]
    decreases |s|
  {
    if s[0] != c {
      FindFinds(s[1..], c);
      var i := Find(s, c);
      assert s[..i] == [s[0]] + s[1..][..i - 1];
    }
  }

  /** What comes after a separator at `e`; nothing when there is none. */
  function Beyond(s: seq<byte>, e: nat): (rest: seq<byte>)
    requires e <= |s|
    ensures |s| > 0 ==> |rest| < |s|
  {
    if e == |s| then [] else s[e + 1..]
  }

  /** The first pair of a text, and the text behind its separator. */
  datatype First = Missing | Found(param: Param, rest: seq<byte>)

  /** A key runs to the next `=`, its value from there to the next separator. */
  function FirstPair(str: seq<byte>, flag: byte): (f: First)
    ensures f.Found? ==> |f.rest| < |str|
  {
    var k := Find(str, EQUALS);
    if k == |str| then Missing
    else
      var e := k + 1 + Find(str[k + 1..], flag);
      Found(Param(str[..k], Decode(str[k + 1..e], true)), Beyond(str, e))
  }

  function Pairs(str: seq<byte>, flag: byte): (ps: seq<Param>)
    decreases |str|
  {
    var f := FirstPair(str, flag);
    if f.Missing? then [] else [f.param] + Pairs(f.rest, flag)
  }

  type Params = map<seq<byte>, Param>   // by folded key

  /** std::map::insert: a key that is there already keeps its value. */
  function Insert(m: Params, p: Param): (m': Params) {
    if Folded(p.key) in m then m else m[Folded(p.key) := p]
  }

  function InsertAll(m: Params, ps: seq<Param>): (m': Params)
    decreases |ps|
  {
    if ps == [] then m else InsertAll(Insert(m, ps[0]), ps[1..])
  }

  method FindFrom(str: seq<byte>, c: byte, from: nat) returns (i: nat)
    requires from <= |str|
    ensures i == from + Find(str[from..], c)
  {
    i := from;
    while i < |str| && str[i] != c
      invariant from <= i <= |str| && c !in str[from..i]
    {
      assert str[from..i + 1] == str[from..i] + [str[i]];
      i := i + 1;
    }
    assert str[from..][..i - from] == str[from..i];
    FindUnique(str[from..], c, i - from);
  }

  /** The loop of PARSE_PARAM, with the length in the place of npos. */
  method ParseParam(str: seq<byte>, flag: byte, before: Params) returns (m: Params)
    requires flag != EQUALS
    ensures m == InsertAll(before, Pairs(str, flag))
  {
    hide Find, Decode, Insert, FirstPair, Beyond;
    m := before;
    var pos := 0;
    assert str[0..] == str;
    while true
      invariant 0 <= pos <= |str|
      invariant InsertAll(before, Pairs(str, flag)) == InsertAll(m, Pairs(str[pos..], flag))
      decreases |str| - pos
    {
      var last := pos;
      pos := FindFrom(str, EQUALS, pos);
      NextPair(str, flag, last, pos);
      ghost var f := FirstPair(str[last..], flag);
      if pos == |str| {
        break;
      }
      var key := pos;
      pos := FindFrom(str, flag, pos);
      SeparatorComesLater(str[key..], flag);
      var value := UrlDecode(str[key + 1..pos], true);
      InsertNext(m, str[last..], flag);
      m := Insert(m, Param(str[last..key], value));
      BeyondIs(str, pos);
      if pos == |str| {
        NoPairs(flag);
        break;
      }
      pos := pos + 1;
    }
  }

  lemma BeyondIs(s: seq<byte>, e: nat)
    requires e <= |s|
    ensures Beyond(s, e) == if e == |s| then [] else s[e + 1..]
  {
  }

  lemma InsertNext(m: Params, s: seq<byte>, flag: byte)
    ensures var f := FirstPair(s, flag);
      InsertAll(m, Pairs(s, flag)) == if f.Missing? then m else InsertAll(Insert(m, f.param), Pairs(f.rest, flag))
  {
    hide FirstPair, Insert;
    var f := FirstPair(s, flag);
    if f.Found? {
      assert ([f.param] + Pairs(f.rest, flag))[1..] == Pairs(f.rest, flag);
    }
  }

  /** The first pair from position `last` on, given where the next `=` is. */
  lemma NextPair(str: seq<byte>, flag: byte, last: nat, key: nat)
    requires last <= |str| && key == last + Find(str[last..], EQUALS) && flag != EQUALS
    ensures key == |str| ==> FirstPair(str[last..], flag) == Missing
    ensures key < |str| ==>
      var e := key + Find(str[key..], flag);
      key < e && FirstPair(str[last..], flag) == Found(Param(str[last..key], Decode(str[key + 1..e], true)), Beyond(str, e))
  {
    hide Find, Decode;
    var rest := str[last..];
    if key < |str| {
      var e := key + Find(str[key..], flag);
      SeparatorComesLater(str[key..], flag);
      assert rest[key + 1 - last..] == str[key..][1..];
      SubSlices(str, last, key, e);
    }
  }

  lemma SubSlices<T>(s: seq<T>, last: nat, key: nat, e: nat)
    requires last <= key < e <= |s|
    ensures s[last..][..key - last] == s[last..key] && s[last..][key + 1 - last..e - last] == s[key + 1..e]
    ensures e < |s| ==> s[last..][e + 1 - last..] == s[e + 1..]
  {
  }

  lemma SeparatorComesLater(s: seq<byte>, flag: byte)
    requires s != [] && s[0] != flag
    ensures Find(s, flag) == 1 + Find(s[1..], flag)
  {
  }

  // ---- printing ----

  predicate KeysFine(ps: seq<Param>) {
    forall i :: 0 <= i < |ps| ==> EQUALS !in ps[i].key
  }

  function Item(p: Param, spaceAsPlus: bool): (s: seq<byte>) {
    p.key + [EQUALS] + Encode(p.value, spaceAsPlus)
  }

  function Text(ps: seq<Param>, spaceAsPlus: bool): (s: seq<byte>) {
    if ps == [] then []
    else if |ps| == 1 then Item(ps[0], spaceAsPlus)
    else Item(ps[0], spaceAsPlus) + [AMPERSAND] + Text(ps[1..], spaceAsPlus)
  }

  /** One item at the front of a text, with a separator after it or at the end. */
  lemma ItemFirst(p: Param, spaceAsPlus: bool, tail: seq<byte>)
    requires EQUALS !in p.key && (tail == [] || tail[0] == AMPERSAND)
    ensures FirstPair(Item(p, spaceAsPlus) + tail, AMPERSAND) == Found(p, if tail == [] then [] else tail[1..])
  {
    hide Find, Encode, Decode;
    var v := Encode(p.value, spaceAsPlus);
    var s := Item(p, spaceAsPlus) + tail;
    var k := |p.key|;
    assert s[..k] == p.key && s[k] == EQUALS;
    FindUnique(s, EQUALS, k);
    EncodedIsPlain(p.value, spaceAsPlus);
    var after := s[k + 1..];
    assert after == v + tail && after[..|v|] == v;
    FindUnique(after, AMPERSAND, |v|);
    var e := k + |v| + 1;
    assert s[k + 1..e] == v;
    RoundTrip(p.value, spaceAsPlus, true);
    assert tail != [] ==> s[e + 1..] == tail[1..];
  }

  /** A key with `=` in it comes back shorter. */
  lemma KeyIsCut(p: Param, spaceAsPlus: bool, tail: seq<byte>)
    requires EQUALS in p.key
    ensures var ps := Pairs(Item(p, spaceAsPlus) + tail, AMPERSAND);
      ps != [] && |ps[0].key| < |p.key|
  {
    hide Encode, Decode;
    var s := Item(p, spaceAsPlus) + tail;
    var k := Find(p.key, EQUALS);
    FindFinds(p.key, EQUALS);
    assert s[..k] == p.key[..k] && s[k] == EQUALS;
    FindUnique(s, EQUALS, k);
  }

  /** Printing and parsing gives back the parameters, in order, exactly when no key contains `=`. */
  lemma {:induction false} QueryRoundTrip(ps: seq<Param>, spaceAsPlus: bool)
    ensures Pairs(Text(ps, spaceAsPlus), '&' as int) == ps <==> forall i :: 0 <= i < |ps| ==> '=' as int !in ps[i].key
    decreases |ps|
  {
    hide FirstPair, Item;
    assert KeysFine(ps) <==> forall i :: 0 <= i < |ps| ==> '=' as int !in ps[i].key;
    if ps == [] {
      NoPairs(AMPERSAND);
    } else {
      var p, rest := ps[0], ps[1..];
      var tail := if rest == [] then [] else [AMPERSAND] + Text(rest, spaceAsPlus);
      assert Text(ps, spaceAsPlus) == Item(p, spaceAsPlus) + tail;
      QueryRoundTrip(rest, spaceAsPlus);
      assert ps == [p] + rest;
      if EQUALS in p.key {
        KeyIsCut(p, spaceAsPlus, tail);
      } else {
        ItemFirst(p, spaceAsPlus, tail);
        assert (if tail == [] then [] else tail[1..]) == Text(rest, spaceAsPlus);
        assert KeysFine(ps) <==> KeysFine(rest) by {
          assert forall i :: 0 < i < |ps| ==> ps[i] == rest[i - 1];
          assert forall i :: 0 <= i < |rest| ==> rest[i] == ps[i + 1];
        }
        assert ([p] + Pairs(Text(rest, spaceAsPlus), AMPERSAND))[1..] == Pairs(Text(rest, spaceAsPlus), AMPERSAND);
      }
    }
  }

  lemma NoPairs(flag: byte)
    ensures Pairs([], flag) == []
  {
  }

  // ---- the map ----

  /** `p` is the first of the parameters with its key. */
  predicate IsFirst(ps: seq<Param>, i: nat) {
    i < |ps| && forall j :: 0 <= j < i ==> !SameKey(ps[j].key, ps[i].key)
  }

  /** The first parameter with a key wins, keys being compared without regard to case. */
  lemma {:induction false} FirstWins(m: Params, ps: seq<Param>, i: nat)
    requires IsFirst(ps, i) && Folded(ps[i].key) !in m
    ensures Folded(ps[i].key) in InsertAll(m, ps) && InsertAll(m, ps)[Folded(ps[i].key)] == ps[i]
    decreases |ps|
  {
    hide Folded;
    if i == 0 {
      KeepsKeys(Insert(m, ps[0]), ps[1..], Folded(ps[0].key));
    } else {
      assert !SameKey(ps[0].key, ps[i].key);
      FirstWins(Insert(m, ps[0]), ps[1..], i - 1);
    }
  }

  lemma {:induction false} KeepsKeys(m: Params, ps: seq<Param>, k: seq<byte>)
    requires k in m
    ensures k in InsertAll(m, ps) && InsertAll(m, ps)[k] == m[k]
    decreases |ps|
  {
    if ps != [] {
      KeepsKeys(Insert(m, ps[0]), ps[1..], k);
    }
  }

  lemma {:induction false} OnlyThese(m: Params, ps: seq<Param>, k: seq<byte>)
    requires k in InsertAll(m, ps) && k !in m
    ensures exists i: nat :: IsFirst(ps, i) && Folded(ps[i].key) == k
    decreases |ps|
  {
    hide Folded;
    if ps != [] {
      if Folded(ps[0].key) == k {
        assert IsFirst(ps, 0);
      } else {
        OnlyThese(Insert(m, ps[0]), ps[1..], k);
        var i: nat :| IsFirst(ps[1..], i) && Folded(ps[1..][i].key) == k;
        assert IsFirst(ps, i + 1);
      }
    }
  }

  /** A printed query, parsed into an empty map: under each key, in any case, the first value given for it. */
  lemma PrintedQueryIsParsed(ps: seq<Param>, spaceAsPlus: bool, k: seq<byte>)
    requires KeysFine(ps)
    ensures var m := InsertAll(map[], Pairs(Text(ps, spaceAsPlus), '&' as int));
      && (k in m <==> exists i: nat :: IsFirst(ps, i) && Folded(ps[i].key) == k)
      && (forall i: nat :: IsFirst(ps, i) ==> Folded(ps[i].key) in m && m[Folded(ps[i].key)] == ps[i])
  {
    hide Pairs, Text, Folded, InsertAll, SameKey;
    QueryRoundTrip(ps, spaceAsPlus);
    var m := InsertAll(map[], ps);
    forall i: nat | IsFirst(ps, i) ensures Folded(ps[i].key) in m && m[Folded(ps[i].key)] == ps[i] {
      FirstWins(map[], ps, i);
    }
    if k in m {
      OnlyThese(map[], ps, k);
    }
  }
}
