/**
 Whole runs of a ByteArray against a flat memory with a head and a size. The memory's length is computed from the base
 size; nodes, links and cursor are not in it.
 */
module ByteArrayRuns {
  import opened Bytes
  import opened ByteArrays

  datatype Op =
    | Put(data: seq<byte>)                     // write
    | Get(n: nat)                              // read
    | Seek(v: nat)                             // setPosition
    | Reserve(len: nat)                        // getWriteBuffers, its regions left alone
    | Receive(len: nat, data: seq<byte>)       // getWriteBuffers, then some bytes filled in and the head moved past them
    | Reset                                    // clear

  /** Filling a region with more bytes than it has is not an operation. */
  predicate Sensible(op: Op) {
    op.Receive? ==> |op.data| <= op.len
  }

  datatype Result = Done | Refused | Got(r: ReadResult)

  /** The least multiple of the base size that is not below `n`. */
  function Ceil(n: nat, base: nat): (c: nat)
    requires n > 0 && base > 0
    ensures n <= c < n + base
  {
    Start(ChunksFor(n, base), base)
  }

  lemma CeilUnique(k: nat, n: nat, base: nat)
    requires n > 0 && base > 0 && n <= Start(k, base) < n + base
    ensures Start(k, base) == Ceil(n, base)
  {
    var c := ChunksFor(n, base);
    if k < c {
      StartMonotone(k, c, base);
    } else if c < k {
      StartMonotone(c, k, base);
    }
  }

  /** The capacity once `need` bytes fit. */
  function Capacity(base: nat, cap: nat, need: nat): (c: nat)
    requires base > 0
    ensures c >= cap && c >= need
  {
    if need <= cap then cap else Ceil(need, base)
  }

  // ---- the flat memory ----

  datatype Tape = Tape(memory: seq<byte>, head: nat, size: nat)

  predicate Fits(t: Tape) {
    t.head <= t.size <= |t.memory|
  }

  function Max(a: nat, b: nat): (m: nat) {
    if a > b then a else b
  }

  /** Reading: short of bytes, at the null cursor, or the bytes at the head. */
  function ReadAt(t: Tape, n: nat): (r: ReadResult)
    requires Fits(t)
  {
    if t.head + n > t.size then OutOfRange
    else if n == 0 && t.head == |t.memory| then NullCursor
    else Data(t.memory[t.head..t.head + n])
  }

  /** One operation. The bytes of memory that is added are whatever they are. */
  predicate Moves(base: nat, t: Tape, op: Op, t': Tape, r: Result)
    requires base > 0 && Fits(t)
  {
    match op
    case Put(data) =>
      && r == Done && t'.head == t.head + |data| && t'.size == Max(t.size, t'.head)
      && |t'.memory| == Capacity(base, |t.memory|, t'.head) && Overwrite(t.memory, t.head, data) <= t'.memory
    case Get(n) =>
      && r == Got(ReadAt(t, n)) && t'.memory == t.memory && t'.size == t.size
      && t'.head == t.head + (if r.r.Data? then n else 0)
    case Seek(v) =>
      if v <= |t.memory| then r == Done && t' == Tape(t.memory, v, Max(t.size, v)) else r == Refused && t' == t
    case Reserve(len) =>
      && r == Done && t'.head == t.head && t'.size == t.size
      && |t'.memory| == Capacity(base, |t.memory|, t.head + len) && t.memory <= t'.memory
    case Receive(len, data) =>
      && r == Done && t'.head == t.head + |data| && t'.size == Max(t.size, t'.head)
      && |t'.memory| == Capacity(base, |t.memory|, t.head + len) && Overwrite(t.memory, t.head, data) <= t'.memory
    case Reset =>
      r == Done && base <= |t.memory| && t' == Tape(t.memory[..base], 0, 0)
  }

  ghost function Seen(ba: ByteArray): (t: Tape)
    requires ba.Valid()
    reads ba, ba.Repr
    ensures Fits(t)
  {
    Tape(ba.Flat(), ba.position, ba.size)
  }

  lemma GrownCapacity(ba: ByteArray, was: nat, need: nat)
    requires ba.Valid()
    requires need <= was ==> ba.capacity == was
    requires need > was ==> ba.capacity - ba.baseSize < need <= ba.capacity
    ensures ba.baseSize > 0 && ba.capacity == Capacity(ba.baseSize, was, need)
  {
    if need > was {
      CeilUnique(|ba.nodes|, need, ba.baseSize);
    }
  }

  method PerformPut(ba: ByteArray, data: seq<byte>)
    requires ba.Valid()
    modifies ba, ba.Repr
    ensures ba.Valid() && fresh(ba.Repr - old(ba.Repr)) && Moves(ba.baseSize, old(Seen(ba)), Put(data), Seen(ba), Done)
  {
    hide ByteArray.Spine, ByteArray.Cursor, ByteArray.Flat, Overwrite, Capacity;
    ghost var was := ba.capacity;
    ba.Write(data);
    GrownCapacity(ba, was, ba.position);
  }

  method PerformReserve(ba: ByteArray, len: nat) returns (iovs: seq<Iovec>)
    requires ba.Valid()
    modifies ba, ba.Repr
    ensures ba.Valid() && fresh(ba.Repr - old(ba.Repr)) && Moves(ba.baseSize, old(Seen(ba)), Reserve(len), Seen(ba), Done)
    ensures ba.position == old(ba.position) && ba.size == old(ba.size)
    ensures len == 0 ==> iovs == []
    ensures len > 0 ==> ba.Covers(iovs) && |iovs| > 0 && ba.EndOf(iovs) == ba.position + len <= ba.capacity
  {
    hide ByteArray.Spine, ByteArray.Cursor, ByteArray.Flat, ByteArray.Covers, ByteArray.EndOf, Capacity;
    ghost var was, memory := ba.capacity, ba.Flat();
    iovs := ba.GetWriteBuffers(len);
    assert memory <= ba.Flat();
    GrownCapacity(ba, was, ba.position + len);
  }

  /** As SocketStream::read does: the kernel fills the regions, and the head moves by what it filled. */
  method PerformReceive(ba: ByteArray, len: nat, data: seq<byte>)
    requires ba.Valid() && |data| <= len
    modifies ba, ba.Repr
    ensures ba.Valid() && fresh(ba.Repr - old(ba.Repr)) && Moves(ba.baseSize, old(Seen(ba)), Receive(len, data), Seen(ba), Done)
  {
    hide ByteArray.Spine, ByteArray.Cursor, ByteArray.Flat, ByteArray.Covers, ByteArray.EndOf, Overwrite, Capacity, Splice;
    ghost var before := Seen(ba);
    var iovs := PerformReserve(ba, len);
    ghost var grown := ba.Flat();
    if data == [] {
      OverwriteNothing(before.memory, before.head);
    } else {
      Fill(ba, iovs, data);
      SpliceGrown(before.memory, grown, before.head, data);
    }
  }

  method Fill(ba: ByteArray, iovs: seq<Iovec>, data: seq<byte>)
    requires ba.Valid() && ba.Covers(iovs) && |iovs| > 0 && ba.position + |data| <= ba.EndOf(iovs)
    modifies ba, ba.Repr
    ensures ba.Valid() && ba.Repr == old(ba.Repr) && ba.position == old(ba.position) + |data| && ba.size == Max(old(ba.size), ba.position)
    ensures ba.position <= |old(ba.Flat())| && ba.Flat() == Splice(old(ba.Flat()), old(ba.position), data)
  {
    ba.Scatter(iovs, data);
    var ok := ba.SetPosition(ba.position + |data|);
  }

  /** Every operation on the node list is one move of the flat memory, whatever its arguments. */
  method Perform(ba: ByteArray, op: Op) returns (r: Result)
    requires ba.Valid() && Sensible(op)
    modifies ba, ba.Repr
    ensures ba.Valid() && fresh(ba.Repr - old(ba.Repr)) && Moves(ba.baseSize, old(Seen(ba)), op, Seen(ba), r)
  {
    hide ByteArray.Spine, ByteArray.Cursor, Overwrite, Capacity;
    r := Done;
    match op
    case Put(data) =>
      PerformPut(ba, data);
    case Get(n) =>
      var got := ba.Read(n);
      r := Got(got);
    case Seek(v) =>
      var ok := ba.SetPosition(v);
      if !ok {
        r := Refused;
      }
    case Reserve(len) =>
      var iovs := PerformReserve(ba, len);
    case Receive(len, data) =>
      PerformReceive(ba, len, data);
    case Reset =>
      PerformReset(ba);
  }

  method PerformReset(ba: ByteArray)
    requires ba.Valid()
    modifies ba, ba.Repr
    ensures ba.Valid() && ba.Repr == old(ba.Repr) && Moves(ba.baseSize, old(Seen(ba)), Reset, Seen(ba), Done)
  {
    ba.Clear();
  }

  // ---- runs ----

  predicate AllSensible(ops: seq<Op>) {
    forall i :: 0 <= i < |ops| ==> Sensible(ops[i])
  }

  /** The memory before and after each operation, and its result. */
  ghost predicate IsTrace(base: nat, tapes: seq<Tape>, ops: seq<Op>, rs: seq<Result>)
    requires base > 0
  {
    && |tapes| == |ops| + 1 && |rs| == |ops|
    && (forall i :: 0 <= i < |tapes| ==> Fits(tapes[i]))
    && (forall i :: 0 <= i < |ops| ==> MovesAt(base, tapes, ops, rs, i))
  }

  ghost predicate MovesAt(base: nat, tapes: seq<Tape>, ops: seq<Op>, rs: seq<Result>, i: nat)
    requires base > 0 && |tapes| == |ops| + 1 && |rs| == |ops| && i < |ops| && Fits(tapes[i])
  {
    Moves(base, tapes[i], ops[i], tapes[i + 1], rs[i])
  }

  /** What is left of a run after its first operation. */
  lemma TraceTail(base: nat, tapes: seq<Tape>, ops: seq<Op>, rs: seq<Result>)
    requires base > 0 && IsTrace(base, tapes, ops, rs) && ops != []
    ensures IsTrace(base, tapes[1..], ops[1..], rs[1..]) && Moves(base, tapes[0], ops[0], tapes[1], rs[0])
  {
    hide Moves;
    assert MovesAt(base, tapes, ops, rs, 0);
    forall i | 0 <= i < |ops| - 1
      ensures MovesAt(base, tapes[1..], ops[1..], rs[1..], i)
    {
      assert MovesAt(base, tapes, ops, rs, i + 1);
    }
  }

  lemma TraceGrows(base: nat, tapes: seq<Tape>, ops: seq<Op>, rs: seq<Result>, op: Op, t: Tape, r: Result)
    requires base > 0 && IsTrace(base, tapes, ops, rs) && Fits(t) && Moves(base, tapes[|ops|], op, t, r)
    ensures IsTrace(base, tapes + [t], ops + [op], rs + [r])
  {
    hide Moves;
    forall i | 0 <= i < |ops|
      ensures MovesAt(base, tapes + [t], ops + [op], rs + [r], i)
    {
      assert MovesAt(base, tapes, ops, rs, i);
    }
  }

  /** Every run, for every base size: its results, position, size and unread bytes are those of the flat memory. */
  method Execute(base: nat, ops: seq<Op>) returns (rs: seq<Result>, position: nat, size: nat, unread: seq<byte>, ghost tapes: seq<Tape>)
    requires base > 0 && AllSensible(ops)
    ensures IsTrace(base, tapes, ops, rs)
    ensures |tapes[0].memory| == base && tapes[0].head == tapes[0].size == 0
    ensures var end := tapes[|ops|];
      position == end.head && size == end.size && unread == end.memory[end.head..end.size]
  {
    hide ByteArray.Spine, ByteArray.Cursor, ByteArray.Flat, Moves;
    var ba := new ByteArray(base);
    tapes := [Seen(ba)];
    rs := [];
    var i := 0;
    while i < |ops|
      invariant 0 <= i <= |ops| && ba.Valid() && fresh(ba) && fresh(ba.Repr) && ba.baseSize == base
      invariant IsTrace(base, tapes, ops[..i], rs) && tapes[i] == Seen(ba)
      invariant |tapes[0].memory| == base && tapes[0].head == tapes[0].size == 0
    {
      var r := Perform(ba, ops[i]);
      TraceGrows(base, tapes, ops[..i], rs, ops[i], Seen(ba), r);
      assert ops[..i + 1] == ops[..i] + [ops[i]];
      tapes := tapes + [Seen(ba)];
      rs := rs + [r];
      i := i + 1;
    }
    assert ops[..i] == ops;
    position, size := ba.position, ba.size;
    unread := ba.ToString();
  }

  /** An empty read behind the last byte meets the null cursor exactly when the bytes fill their nodes. */
  method EmptyReadAtEnd(base: nat, data: seq<byte>) returns (r: ReadResult)
    requires base > 0
    ensures r == if data != [] && |data| % base == 0 then NullCursor else Data([])
  {
    var ba := new ByteArray(base);
    ba.Write(data);
    if data != [] {
      ba.TightCapacity();
    }
    r := ba.Read(0);
  }
}
