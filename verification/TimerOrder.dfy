/** The order of yuyu/timer.cc's timer set, and where the probe timer lands in it. */
module TimerOrder {
  import opened Options

  /** What the set compares: the deadline, and the address of the timer object. */
  datatype Key = Key(next: nat, address: nat)

  /** Timer::Comparator; None is a null pointer. */
  predicate Before(lhs: Option<Key>, rhs: Option<Key>) {
    if lhs.None? && rhs.None? then false
    else if lhs.None? then true
    else if rhs.None? then false
    else if lhs.value.next < rhs.value.next then true
    else if lhs.value.next > rhs.value.next then false
    else lhs.value.address < rhs.value.address
  }

  predicate Less(a: Key, b: Key) {
    Before(Some(a), Some(b))
  }

  /** std::set needs a strict weak order; with the address as tie-break it is even total. */
  lemma ComparatorIsStrictTotalOrder(a: Option<Key>, b: Option<Key>, c: Option<Key>)
    ensures !Before(a, a)
    ensures Before(a, b) && Before(b, c) ==> Before(a, c)
    ensures a != b ==> Before(a, b) != Before(b, a)
  {
  }

  /** Null pointers come first, then earlier deadlines, then lower addresses. */
  lemma ComparatorOrdersBy(a: Key, b: Key)
    ensures Before(None, Some(a)) && !Before(Some(a), None)
    ensures a.next < b.next ==> Before(Some(a), Some(b))
    ensures a.next == b.next ==> (Before(Some(a), Some(b)) <==> a.address < b.address)
  {
  }

  ghost predicate Ascending(keys: seq<Key>) {
    forall i, j :: 0 <= i < j < |keys| ==> Less(keys[i], keys[j])
  }

  /** std::set::lower_bound: the first element not before the probe. */
  function LowerBound(keys: seq<Key>, probe: Key): (at: nat)
    ensures at <= |keys|
    ensures forall i :: 0 <= i < at ==> Less(keys[i], probe)
    ensures at < |keys| ==> !Less(keys[at], probe)
  {
    if keys == [] || !Less(keys[0], probe) then 0 else 1 + LowerBound(keys[1..], probe)
  }

  /** The loop behind it in listExpiredCb: on over the elements due exactly now. */
  function SkipEqual(keys: seq<Key>, at: nat, now: nat): (end: nat)
    requires at <= |keys|
    ensures at <= end <= |keys|
    ensures forall i :: at <= i < end ==> keys[i].next == now
    ensures end < |keys| ==> keys[end].next != now
    decreases |keys| - at
  {
    if at < |keys| && keys[at].next == now then SkipEqual(keys, at + 1, now) else at
  }

  /** Wherever the probe's address falls among equal deadlines, what lies before the end is exactly what is due. */
  lemma ProbeSplitsDue(keys: seq<Key>, now: nat, address: nat)
    requires Ascending(keys)
    ensures var end := SkipEqual(keys, LowerBound(keys, Key(now, address)), now);
            forall i :: 0 <= i < |keys| ==> (i < end <==> keys[i].next <= now)
  {
    var at := LowerBound(keys, Key(now, address));
    var end := SkipEqual(keys, at, now);
    if end < |keys| {
      assert at <= end;
      assert keys[at].next >= now;
      forall i | end <= i < |keys|
        ensures keys[i].next > now
      {
        assert i == end || Less(keys[end], keys[i]);
        assert at == end || Less(keys[at], keys[end]);
      }
    }
  }
}
