/** When the base size of a ByteArray can be told from outside, and when the bytes read cannot depend on it. */
module BaseSize {
  import opened Bytes
  import opened ByteArrays
  import opened ByteArrayRuns

  // ---- results, position and size without the bytes ----

  datatype Shape = Shape(head: nat, size: nat, capacity: nat)

  datatype Kind = Fine | Short | Null | Denied

  function KindOf(r: Result): (k: Kind) {
    match r
    case Done => Fine
    case Refused => Denied
    case Got(got) => if got.OutOfRange? then Short else if got.NullCursor? then Null else Fine
  }

  function Outcome(s: Shape, op: Op): (k: Kind) {
    match op
    case Get(n) => if s.head + n > s.size then Short else if n == 0 && s.head == s.capacity then Null else Fine
    case Seek(v) => if v <= s.capacity then Fine else Denied
    case _ => Fine
  }

  function Next(base: nat, s: Shape, op: Op): (s': Shape)
    requires base > 0
  {
    match op
    case Put(data) => Shape(s.head + |data|, Max(s.size, s.head + |data|), Capacity(base, s.capacity, s.head + |data|))
    case Get(n) => if Outcome(s, op).Fine? then s.(head := s.head + n) else s
    case Seek(v) => if v <= s.capacity then s.(head := v, size := Max(s.size, v)) else s
    case Reserve(len) => s.(capacity := Capacity(base, s.capacity, s.head + len))
    case Receive(len, data) => Shape(s.head + |data|, Max(s.size, s.head + |data|), Capacity(base, s.capacity, s.head + len))
    case Reset => Shape(0, 0, base)
  }

  function ShapeOf(t: Tape): (s: Shape) {
    Shape(t.head, t.size, |t.memory|)
  }

  /** The bytes have no part in it. */
  lemma MovesShape(base: nat, t: Tape, op: Op, t': Tape, r: Result)
    requires base > 0 && Fits(t) && Moves(base, t, op, t', r)
    ensures ShapeOf(t') == Next(base, ShapeOf(t), op) && KindOf(r) == Outcome(ShapeOf(t), op)
  {
    hide Capacity, Overwrite;
  }

  /** What a caller sees of an operation: how it ended, and position and size afterwards. */
  datatype Sight = Sight(kind: Kind, head: nat, size: nat)

  function Observed(base: nat, s: Shape, ops: seq<Op>): (seen: seq<Sight>)
    requires base > 0
    ensures |seen| == |ops|
    decreases |ops|
  {
    if ops == [] then []
    else
      var s' := Next(base, s, ops[0]);
      [Sight(Outcome(s, ops[0]), s'.head, s'.size)] + Observed(base, s', ops[1..])
  }

  /** Of every run of a ByteArray exactly this is seen. */
  lemma {:induction false} TraceIsObserved(base: nat, tapes: seq<Tape>, ops: seq<Op>, rs: seq<Result>, i: nat)
    requires base > 0 && IsTrace(base, tapes, ops, rs) && i < |ops|
    ensures Observed(base, ShapeOf(tapes[0]), ops)[i] == Sight(KindOf(rs[i]), tapes[i + 1].head, tapes[i + 1].size)
    decreases |ops|
  {
    hide Moves, Next, Outcome;
    TraceTail(base, tapes, ops, rs);
    MovesShape(base, tapes[0], ops[0], tapes[1], rs[0]);
    if i > 0 {
      TraceIsObserved(base, tapes[1..], ops[1..], rs[1..], i - 1);
    }
  }

  // ---- a description without the base size ----

  /** Head, size, and how far the writes and reservations since the last clear() reached. */
  datatype Mark = Mark(head: nat, size: nat, reach: nat)

  function Sure(m: Mark): (n: nat)
    ensures n > 0
  {
    Max(1, m.reach)
  }

  predicate MarkOk(m: Mark) {
    m.head <= m.size <= Sure(m)
  }

  function ShapeAt(base: nat, m: Mark): (s: Shape)
    requires base > 0
  {
    Shape(m.head, m.size, Ceil(Sure(m), base))
  }

  /** A seek within what was reached, and no empty read at its end. */
  predicate Modest(m: Mark, op: Op) {
    match op
    case Get(n) => n == 0 ==> m.head < Sure(m)
    case Seek(v) => v <= Sure(m)
    case _ => true
  }

  function NextMark(m: Mark, op: Op): (m': Mark) {
    match op
    case Put(data) => Mark(m.head + |data|, Max(m.size, m.head + |data|), Max(m.reach, m.head + |data|))
    case Get(n) => if m.head + n > m.size then m else m.(head := m.head + n)
    case Seek(v) => m.(head := v, size := Max(m.size, v))
    case Reserve(len) => m.(reach := Max(m.reach, m.head + len))
    case Receive(len, data) => Mark(m.head + |data|, Max(m.size, m.head + |data|), Max(m.reach, m.head + len))
    case Reset => Mark(0, 0, 0)
  }

  function Ending(m: Mark, op: Op): (k: Kind) {
    if op.Get? && m.head + op.n > m.size then Short else Fine
  }

  lemma CeilOf(base: nat, n: nat)
    requires base > 0 && 0 < n <= base
    ensures Ceil(n, base) == base
  {
    assert Start(1, base) == base;
    CeilUnique(1, n, base);
  }

  lemma CeilByOne(n: nat)
    requires n > 0
    ensures Ceil(n, 1) == n
  {
  }

  /** Growing to what is needed keeps the capacity the least that covers what was reached. */
  lemma CapacityIsCeil(base: nat, sure: nat, need: nat)
    requires base > 0 && sure > 0
    ensures Capacity(base, Ceil(sure, base), need) == Ceil(Max(sure, need), base)
  {
    if sure < need <= Ceil(sure, base) {
      CeilUnique(ChunksFor(sure, base), need, base);
    }
  }

  lemma MarkStays(m: Mark, op: Op)
    requires MarkOk(m) && Modest(m, op) && Sensible(op)
    ensures MarkOk(NextMark(m, op))
  {
  }

  lemma ModestStep(base: nat, m: Mark, op: Op)
    requires base > 0 && MarkOk(m) && Modest(m, op) && Sensible(op)
    ensures Outcome(ShapeAt(base, m), op) == Ending(m, op)
    ensures Next(base, ShapeAt(base, m), op) == ShapeAt(base, NextMark(m, op)) && MarkOk(NextMark(m, op))
  {
    hide Ceil, Capacity;
    MarkStays(m, op);
    hide MarkOk;
    match op
    case Put(data) => CapacityIsCeil(base, Sure(m), m.head + |data|);
    case Reserve(len) => CapacityIsCeil(base, Sure(m), m.head + len);
    case Receive(len, data) => CapacityIsCeil(base, Sure(m), m.head + len);
    case Reset => CeilOf(base, 1);
    case _ =>
  }

  /** Otherwise some base size gives another result than base size 1. */
  lemma ImmodestShows(m: Mark, op: Op) returns (base: nat)
    requires MarkOk(m) && !Modest(m, op)
    ensures base > 0 && Outcome(ShapeAt(base, m), op) != Outcome(ShapeAt(1, m), op)
  {
    hide Ceil;
    CeilByOne(Sure(m));
    base := if op.Seek? then op.v else Sure(m) + 1;
    CeilOf(base, Sure(m));
  }

  predicate ModestRun(m: Mark, ops: seq<Op>)
    decreases |ops|
  {
    ops == [] || (Modest(m, ops[0]) && ModestRun(NextMark(m, ops[0]), ops[1..]))
  }

  lemma {:induction false} ModestIsSame(base: nat, m: Mark, ops: seq<Op>)
    requires base > 0 && MarkOk(m) && AllSensible(ops) && ModestRun(m, ops)
    ensures Observed(base, ShapeAt(base, m), ops) == Observed(1, ShapeAt(1, m), ops)
    decreases |ops|
  {
    hide Next, Outcome, NextMark, Modest, MarkOk, Ending;
    if ops != [] {
      ModestStep(base, m, ops[0]);
      ModestStep(1, m, ops[0]);
      ModestIsSame(base, NextMark(m, ops[0]), ops[1..]);
    }
  }

  lemma {:induction false} OthersDiffer(m: Mark, ops: seq<Op>) returns (base: nat)
    requires MarkOk(m) && AllSensible(ops) && !ModestRun(m, ops)
    ensures base > 0 && Observed(base, ShapeAt(base, m), ops) != Observed(1, ShapeAt(1, m), ops)
    decreases |ops|
  {
    hide Next, Outcome, NextMark, Modest, MarkOk, Ending;
    if Modest(m, ops[0]) {
      ModestStep(1, m, ops[0]);
      base := OthersDiffer(NextMark(m, ops[0]), ops[1..]);
      ModestStep(base, m, ops[0]);
      assert Observed(base, ShapeAt(base, m), ops)[1..] == Observed(base, ShapeAt(base, NextMark(m, ops[0])), ops[1..]);
      assert Observed(1, ShapeAt(1, m), ops)[1..] == Observed(1, ShapeAt(1, NextMark(m, ops[0])), ops[1..]);
    } else {
      base := ImmodestShows(m, ops[0]);
      assert Observed(base, ShapeAt(base, m), ops)[0] != Observed(1, ShapeAt(1, m), ops)[0];
    }
  }

  /** A run on a fresh array of the given base size. */
  function Fresh(base: nat): (s: Shape) {
    Shape(0, 0, base)
  }

  /**
   The exact condition: results, positions and sizes are the same for all base sizes if and only if no seek goes past
   what was reached since the last clear(), or past 1, and no empty read happens at that end.
   */
  lemma BaseSizeIsHiddenIff(ops: seq<Op>)
    requires AllSensible(ops)
    ensures (forall base: nat :: base > 0 ==> Observed(base, Fresh(base), ops) == Observed(1, Fresh(1), ops)) <==> ModestRun(Mark(0, 0, 0), ops)
  {
    hide Observed, ModestRun;
    var m := Mark(0, 0, 0);
    CeilOf(1, 1);
    if ModestRun(m, ops) {
      forall base: nat | base > 0
        ensures Observed(base, Fresh(base), ops) == Observed(1, Fresh(1), ops)
      {
        CeilOf(base, 1);
        ModestIsSame(base, m, ops);
      }
    } else {
      var base := OthersDiffer(m, ops);
      CeilOf(base, 1);
      assert Observed(base, Fresh(base), ops) != Observed(1, Fresh(1), ops);
    }
  }

  // ---- the bytes ----

  /** A byte string with a head: what a run sees that does not move the head past the size. */
  datatype Text = Text(bytes: seq<byte>, head: nat)

  function View(t: Tape): (v: Text)
    requires Fits(t)
  {
    Text(t.memory[..t.size], t.head)
  }

  function MoveText(v: Text, op: Op): (v': Text)
    requires v.head <= |v.bytes|
  {
    match op
    case Put(data) => Text(Overwrite(v.bytes, v.head, data), v.head + |data|)
    case Get(n) => if v.head + n <= |v.bytes| then v.(head := v.head + n) else v
    case Seek(p) => v.(head := p)
    case Reserve(_) => v
    case Receive(_, data) => Text(Overwrite(v.bytes, v.head, data), v.head + |data|)
    case Reset => Text([], 0)
  }

  function Said(v: Text, op: Op): (r: Result)
    requires v.head <= |v.bytes|
  {
    match op
    case Get(n) => Got(if v.head + n <= |v.bytes| then Data(v.bytes[v.head..v.head + n]) else OutOfRange)
    case _ => Done
  }

  /** No seek past the size, and no empty read at a non-zero end. */
  predicate Plain(v: Text, op: Op) {
    match op
    case Get(n) => n > 0 || v.head < |v.bytes| || v.head == 0
    case Seek(p) => p <= |v.bytes|
    case _ => true
  }

  /** Every such operation has the effect and the result it has on the byte string, bytes included. */
  lemma PlainMove(base: nat, t: Tape, op: Op, t': Tape, r: Result)
    requires base > 0 && Fits(t) && Fits(t') && |t.memory| > 0 && Moves(base, t, op, t', r) && Plain(View(t), op)
    ensures View(t') == MoveText(View(t), op) && r == Said(View(t), op) && |t'.memory| > 0
  {
    hide Capacity;
    match op
    case Put(data) => PrefixOverwritten(t.memory, t'.memory, t.size, t.head, data);
    case Receive(_, data) => PrefixOverwritten(t.memory, t'.memory, t.size, t.head, data);
    case Get(n) =>
      SliceOfPrefix(t.memory, t.size, t.head, n);
    case Reserve(_) => assert t'.memory[..t.size] == t.memory[..t.size];
    case _ =>
  }

  lemma SliceOfPrefix<T>(s: seq<T>, size: nat, at: nat, n: nat)
    requires size <= |s|
    ensures at + n <= size ==> s[at..at + n] == s[..size][at..at + n]
  {
  }

  lemma PrefixOverwritten(memory: seq<byte>, memory': seq<byte>, size: nat, at: nat, data: seq<byte>)
    requires at <= size <= |memory| && Overwrite(memory, at, data) <= memory'
    ensures Max(size, at + |data|) <= |memory'| && memory'[..Max(size, at + |data|)] == Overwrite(memory[..size], at, data)
  {
    var o := Overwrite(memory, at, data);
    assert memory'[..|o|] == o;
    assert o[..Max(size, at + |data|)] == Overwrite(memory[..size], at, data);
  }

  ghost predicate PlainRun(v: Text, ops: seq<Op>)
    requires v.head <= |v.bytes|
    decreases |ops|
  {
    ops != [] ==> Plain(v, ops[0]) && PlainRun(MoveText(v, ops[0]), ops[1..])
  }

  ghost function Results(v: Text, ops: seq<Op>): (rs: seq<Result>)
    requires v.head <= |v.bytes| && PlainRun(v, ops)
    decreases |ops|
  {
    if ops == [] then [] else [Said(v, ops[0])] + Results(MoveText(v, ops[0]), ops[1..])
  }

  /** Runs of such operations: all results, bytes included, are those of the byte string, for every base size. */
  lemma {:induction false} PlainRunsAreText(base: nat, tapes: seq<Tape>, ops: seq<Op>, rs: seq<Result>)
    requires base > 0 && IsTrace(base, tapes, ops, rs) && |tapes[0].memory| > 0 && PlainRun(View(tapes[0]), ops)
    ensures rs == Results(View(tapes[0]), ops)
    decreases |ops|
  {
    hide Moves, MoveText, Said, Plain;
    if ops != [] {
      TraceTail(base, tapes, ops, rs);
      PlainMove(base, tapes[0], ops[0], tapes[1], rs[0]);
      PlainRunsAreText(base, tapes[1..], ops[1..], rs[1..]);
      assert rs == [rs[0]] + rs[1..];
    }
  }

  // ---- bytes written, in any modest run ----

  /** The bytes written since the last clear(), by position. */
  type Known = map<nat, byte>

  /** What is known once `data` is written at `at`. */
  function Stamp(known: Known, at: nat, data: seq<byte>): (k: Known)
    decreases |data|
  {
    var n := |data|;
    if n == 0 then known else Stamp(known, at, data[..n - 1])[at + n - 1 := data[n - 1]]
  }

  function Learn(m: Mark, known: Known, op: Op): (k: Known) {
    match op
    case Put(data) => Stamp(known, m.head, data)
    case Receive(_, data) => Stamp(known, m.head, data)
    case Reset => map[]
    case _ => known
  }

  /** The memory has the known bytes. */
  ghost predicate Shows(t: Tape, known: Known) {
    forall p :: p in known ==> p < |t.memory| && t.memory[p] == known[p]
  }

  lemma {:induction false} StampHas(known: Known, at: nat, data: seq<byte>, p: nat)
    ensures at <= p < at + |data| ==> p in Stamp(known, at, data) && Stamp(known, at, data)[p] == data[p - at]
    ensures !(at <= p < at + |data|) ==> (p in Stamp(known, at, data) <==> p in known)
    ensures !(at <= p < at + |data|) && p in known ==> Stamp(known, at, data)[p] == known[p]
    decreases |data|
  {
    if data != [] {
      StampHas(known, at, data[..|data| - 1], p);
    }
  }

  lemma StampShows(memory: seq<byte>, memory': seq<byte>, known: Known, at: nat, data: seq<byte>)
    requires at <= |memory| && Overwrite(memory, at, data) <= memory'
    requires forall p :: p in known ==> p < |memory| && memory[p] == known[p]
    ensures forall p :: p in Stamp(known, at, data) ==> p < |memory'| && memory'[p] == Stamp(known, at, data)[p]
  {
    hide Stamp;
    var o := Overwrite(memory, at, data);
    forall p | p in Stamp(known, at, data)
      ensures p < |o| && o[p] == Stamp(known, at, data)[p]
    {
      StampHas(known, at, data, p);
    }
  }

  lemma ShowsStep(base: nat, t: Tape, op: Op, t': Tape, r: Result, m: Mark, known: Known)
    requires base > 0 && Fits(t) && Moves(base, t, op, t', r) && ShapeOf(t) == ShapeAt(base, m) && Shows(t, known)
    ensures Shows(t', Learn(m, known, op))
  {
    hide Capacity, Overwrite, Stamp, Ceil;
    match op
    case Put(data) => StampShows(t.memory, t'.memory, known, t.head, data);
    case Receive(_, data) => StampShows(t.memory, t'.memory, known, t.head, data);
    case _ =>
  }

  /** Where a run is before its operation `i`, and what has been written by then; the base size has no part in it. */
  function Before(m: Mark, known: Known, ops: seq<Op>, i: nat): (r: (Mark, Known))
    requires i <= |ops|
    decreases i
  {
    if i == 0 then (m, known) else Before(NextMark(m, ops[0]), Learn(m, known, ops[0]), ops[1..], i - 1)
  }

  /** What a read must give where it reads bytes that were written. */
  predicate ReadsKnown(bytes: seq<byte>, m: Mark, known: Known) {
    forall j :: 0 <= j < |bytes| && m.head + j in known ==> bytes[j] == known[m.head + j]
  }

  /**
   In every modest run, for every base size, a read gives the bytes that were last written where it reads, wherever the
   head had been moved for it.
   */
  lemma {:induction false} WrittenIsRead(base: nat, tapes: seq<Tape>, ops: seq<Op>, rs: seq<Result>, m: Mark, known: Known, i: nat)
    requires base > 0 && IsTrace(base, tapes, ops, rs) && AllSensible(ops) && MarkOk(m) && ModestRun(m, ops)
    requires ShapeOf(tapes[0]) == ShapeAt(base, m) && Shows(tapes[0], known)
    requires i < |ops| && ops[i].Get? && rs[i].Got? && rs[i].r.Data?
    ensures |rs[i].r.bytes| == ops[i].n && ReadsKnown(rs[i].r.bytes, Before(m, known, ops, i).0, Before(m, known, ops, i).1)
    decreases i
  {
    TraceTail(base, tapes, ops, rs);
    if i > 0 {
      hide Moves, NextMark, Learn, Modest, MarkOk, Shows, ReadsKnown;
      MovesShape(base, tapes[0], ops[0], tapes[1], rs[0]);
      ModestStep(base, m, ops[0]);
      ShowsStep(base, tapes[0], ops[0], tapes[1], rs[0], m, known);
      WrittenIsRead(base, tapes[1..], ops[1..], rs[1..], NextMark(m, ops[0]), Learn(m, known, ops[0]), i - 1);
    }
  }

  /** The same on a fresh array: what a read gives where bytes were written is the same for any two base sizes. */
  lemma BytesAgree(a: nat, ta: seq<Tape>, ra: seq<Result>, b: nat, tb: seq<Tape>, rb: seq<Result>, ops: seq<Op>, i: nat, j: nat)
    requires a > 0 && b > 0 && IsTrace(a, ta, ops, ra) && IsTrace(b, tb, ops, rb) && AllSensible(ops) && ModestRun(Mark(0, 0, 0), ops)
    requires ShapeOf(ta[0]) == Fresh(a) && ShapeOf(tb[0]) == Fresh(b)
    requires i < |ops| && ops[i].Get? && ra[i].Got? && ra[i].r.Data? && rb[i].Got? && rb[i].r.Data?
    requires var r := Before(Mark(0, 0, 0), map[], ops, i); j < ops[i].n && r.0.head + j in r.1
    ensures j < |ra[i].r.bytes| && j < |rb[i].r.bytes| && ra[i].r.bytes[j] == rb[i].r.bytes[j]
  {
    hide IsTrace, ModestRun, Before;
    CeilOf(a, 1);
    CeilOf(b, 1);
    WrittenIsRead(a, ta, ops, ra, Mark(0, 0, 0), map[], i);
    WrittenIsRead(b, tb, ops, rb, Mark(0, 0, 0), map[], i);
  }
}
