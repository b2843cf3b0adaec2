/**
 The chunked buffer of yuyu/bytearray.cc: a singly linked list of fixed-size nodes
 with a cached cursor node, a position, a size and a capacity.
 */
module ByteArrays {
  import opened Bytes

  class Node {
    const buf: array<byte>
    const size: nat
    var next: Node?

    constructor (s: nat)
      ensures size == s == buf.Length && fresh(buf) && next == null
    {
      buf := new byte[s](_ => 0);
      size := s;
      next := null;
    }
  }

  /** Each node points to the following one, the last to none. */
  ghost predicate Chain(nodes: seq<Node>)
    reads nodes
  {
    forall i {:trigger nodes[i].next} :: 0 <= i < |nodes| ==> nodes[i].next == if i + 1 < |nodes| then nodes[i + 1] else null
  }

  lemma Following(nodes: seq<Node>, i: nat)
    requires Chain(nodes) && i < |nodes|
    ensures nodes[i].next == if i + 1 < |nodes| then nodes[i + 1] else null
  {
  }

  method Memcpy(dst: array<byte>, offset: nat, src: seq<byte>)
    requires offset + |src| <= dst.Length
    modifies dst
    ensures dst[..] == Splice(old(dst[..]), offset, src)
  {
    forall i | 0 <= i < |src| {
      dst[offset + i] := src[i];
    }
  }

  /** A region of one node, as `struct iovec` describes it. */
  datatype Iovec = Iovec(buf: array<byte>, offset: nat, len: nat)

  datatype ReadResult =
    | Data(bytes: seq<byte>)
    | OutOfRange   // std::out_of_range thrown
    | NullCursor   // the cursor is null and is dereferenced

  class ByteArray {
    const baseSize: nat
    var position: nat
    var capacity: nat
    var size: nat
    var littleEndian: bool
    const root: Node
    var cur: Node?

    ghost var nodes: seq<Node>
    ghost var image: seq<seq<byte>> // what the buffers hold, node by node
    ghost var at: nat          // index of the cursor node, |nodes| when the cursor is null
    ghost var Repr: set<object> // the nodes and their buffers

    /** The node list is well formed and its length is the capacity. */
    ghost predicate Spine()
      reads `nodes, `capacity, `image, `Repr, Repr
    {
      && this !in Repr
      && baseSize > 0
      && |nodes| > 0 && nodes[0] == root
      && capacity == Start(|nodes|, baseSize)
      && (forall i :: 0 <= i < |nodes| ==> nodes[i] in Repr && nodes[i].buf in Repr)
      && (forall i :: 0 <= i < |nodes| ==> nodes[i].size == nodes[i].buf.Length == baseSize)
      && |image| == |nodes| && (forall i :: 0 <= i < |nodes| ==> image[i] == nodes[i].buf[..])
      && (forall i, j :: 0 <= i < j < |nodes| ==> nodes[i] != nodes[j] && nodes[i].buf != nodes[j].buf)
      && Chain(nodes)
    }

    /** The cursor is the node that holds `position`, and null when no node does. */
    ghost predicate Cursor()
      reads `nodes, `at, `position, `capacity, `cur
    {
      && at <= |nodes| && Start(at, baseSize) <= position <= capacity
      && (at < |nodes| ==> cur == nodes[at] && position < Start(at, baseSize) + baseSize)
      && (at == |nodes| ==> cur == null)
    }

    ghost predicate Linked()
      reads this, Repr
    {
      Spine() && Cursor()
    }

    ghost predicate Valid()
      reads this, Repr
    {
      Linked() && position <= size <= capacity
    }

    /** All bytes the nodes hold, written or not. */
    ghost function Flat(): (flat: seq<byte>)
      requires Spine()
      reads `nodes, `capacity, `image, `Repr, Repr
      ensures |flat| == capacity
    {
      ConcatLength(image, baseSize);
      Concat(image)
    }

    /** The bytes up to `size`: what a reader that rewinds to 0 can see. */
    ghost function Content(): (content: seq<byte>)
      requires Valid()
      reads this, Repr
      ensures |content| == size
    {
      Flat()[..size]
    }

    constructor (base: nat)
      requires base > 0
      ensures Valid() && fresh(Repr)
      ensures baseSize == base == capacity && Content() == [] && position == 0 && !littleEndian
    {
      baseSize := base;
      position, capacity, size := 0, base, 0;
      littleEndian := false;
      var n := new Node(base);
      root := n;
      cur := n;
      nodes, image, at := [n], [n.buf[..]], 0;
      Repr := {n, n.buf};
    }

    /** All that the loops below need to know of the node list. */
    lemma NodeAt(k: nat)
      requires Spine() && k < |nodes|
      ensures nodes[k].size == nodes[k].buf.Length == baseSize > 0
      ensures Start(k, baseSize) + baseSize <= capacity
      ensures k + 1 < |nodes| ==> nodes[k].next == nodes[k + 1]
      ensures k + 1 == |nodes| ==> nodes[k].next == null && Start(k, baseSize) + baseSize == capacity
    {
      Following(nodes, k);
      StartMonotone(k, |nodes|, baseSize);
    }

    lemma CursorNode()
      requires Linked() && position < capacity
      ensures at < |nodes| && cur.size == baseSize > 0
    {
    }

    /** In every valid state the cursor is node position / baseSize, or null exactly at capacity. */
    lemma CursorIsQuotient()
      requires Valid()
      ensures cur == null <==> position == capacity
      ensures cur != null ==> position / baseSize < |nodes| && cur == nodes[position / baseSize]
    {
      if at < |nodes| {
        PositionInChunk(position, baseSize, at);
        StartMonotone(at, |nodes|, baseSize);
      }
    }

    /** When the last node is in use, the head is at capacity exactly when it is a multiple of the base size. */
    lemma TightCapacity()
      requires Valid() && capacity - baseSize < position
      ensures position == capacity <==> position % baseSize == 0
    {
      var last := |nodes| - 1;
      StartIsProduct(last, baseSize);
      StartIsProduct(|nodes|, baseSize);
      if position < capacity {
        PositionInChunk(position, baseSize, last);
      } else {
        QuotientUnique(position, baseSize, |nodes|, 0);
      }
    }

    /** Walks the nodes behind the root, which clear() deletes. */
    method FreeTail()
      requires Spine()
      modifies `cur
    {
      var tmp := root.next;
      ghost var i := 1;
      Following(nodes, 0);
      while tmp != null
        invariant 1 <= i <= |nodes| && Chain(nodes)
        invariant tmp == if i < |nodes| then nodes[i] else null
        decreases |nodes| - i
      {
        cur := tmp;
        Following(nodes, i);
        tmp := tmp.next;
        i := i + 1;
      }
    }

    /** The root node's bytes are the first of the flat view. */
    lemma FirstNode()
      requires Spine()
      ensures baseSize <= capacity && Flat()[..baseSize] == image[0] == Concat(image[..1])
    {
      NodeAt(0);
      ConcatLength(image, baseSize);
      assert image[..1][1..] == [];
    }

    method Clear()
      requires Valid()
      modifies `position, `size, `capacity, `cur, `nodes, `image, `at, root`next
      ensures Valid()
      ensures Content() == [] && position == 0 && capacity == baseSize
      ensures baseSize <= old(capacity) && Flat() == old(Flat())[..baseSize]
    {
      FirstNode();
      FreeTail();
      position, size := 0, 0;
      capacity := baseSize;
      cur := root;
      root.next := null;
      nodes, image, at := [root], image[..1], 0;
    }

    /** One pass of the loop in addCapacity: a new node behind the last one. */
    method AppendNode(last: Node) returns (node: Node)
      requires Spine() && last == nodes[|nodes| - 1]
      modifies last`next, `capacity, `nodes, `image, `Repr
      ensures Spine() && fresh(node) && fresh(node.buf)
      ensures nodes == old(nodes) + [node] && Repr == old(Repr) + {node, node.buf}
      ensures capacity == old(capacity) + baseSize
      ensures Flat()[..old(capacity)] == old(Flat())
    {
      node := new Node(baseSize);
      last.next := node;
      nodes := nodes + [node];
      capacity := capacity + baseSize;
      Repr := Repr + {node, node.buf};
      assert Chain(nodes) by {
        forall i | 0 <= i < |nodes|
          ensures nodes[i].next == if i + 1 < |nodes| then nodes[i + 1] else null
        {
        }
      }
      ConcatAppend(image, [node.buf[..]]);
      ConcatLength(image, baseSize);
      image := image + [node.buf[..]];
    }

    method LastNode() returns (last: Node)
      requires Spine()
      ensures last == nodes[|nodes| - 1]
    {
      last := root;
      ghost var i := 0;
      Following(nodes, 0);
      while last.next != null
        invariant i < |nodes| && last == nodes[i]
        invariant last.next == if i + 1 < |nodes| then nodes[i + 1] else null
        decreases |nodes| - i
      {
        Following(nodes, i + 1);
        last := last.next;
        i := i + 1;
      }
    }

    method AppendNodes(last: Node, count: nat) returns (first: Node?)
      requires Spine() && last == nodes[|nodes| - 1]
      modifies `capacity, `nodes, `image, `Repr, Repr
      ensures Spine() && fresh(Repr - old(Repr))
      ensures old(nodes) <= nodes && |nodes| == |old(nodes)| + count
      ensures capacity == old(capacity) + Start(count, baseSize)
      ensures Flat()[..old(capacity)] == old(Flat())
      ensures first == if count == 0 then null else nodes[|old(nodes)|]
    {
      first := null;
      var tmp := last;
      for k := 0 to count
        invariant Spine() && fresh(Repr - old(Repr)) && old(Repr) <= Repr
        invariant old(nodes) <= nodes && |nodes| == |old(nodes)| + k && tmp == nodes[|nodes| - 1]
        invariant capacity == old(capacity) + Start(k, baseSize)
        invariant Flat()[..old(capacity)] == old(Flat())
        invariant first == if k == 0 then null else nodes[|old(nodes)|]
      {
        var node := AppendNode(tmp);
        if first == null {
          first := node;
        }
        tmp := node;
      }
    }

    method AddCapacity(n: nat)
      requires Valid()
      modifies `capacity, `cur, `nodes, `image, `Repr, Repr
      ensures Valid() && fresh(Repr - old(Repr))
      ensures old(nodes) <= nodes && capacity >= old(capacity) && Flat()[..old(capacity)] == old(Flat())
      ensures old(capacity - position) >= n ==> capacity == old(capacity)
      ensures old(capacity - position) < n ==> capacity - baseSize < position + n <= capacity
    {
      if n == 0 {
        return;
      }
      var room := capacity - position;
      if room >= n {
        return;
      }
      var missing := n - room;
      var count := ChunksFor(missing, baseSize);
      if at < |nodes| {
        StartMonotone(at, |nodes|, baseSize);
      }
      var last := LastNode();
      var first := AppendNodes(last, count);
      if room == 0 {
        cur := first;
      }
    }

    /** memcpy into node `k`, `npos` bytes in. */
    method CopyIn(buf: array<byte>, npos: nat, chunk: seq<byte>, ghost k: nat)
      requires Linked() && k < |nodes| && buf == nodes[k].buf && npos + |chunk| <= baseSize
      modifies `image, buf
      ensures Linked() && Start(k, baseSize) + npos + |chunk| <= capacity
      ensures Flat() == Splice(old(Flat()), Start(k, baseSize) + npos, chunk)
    {
      hide Splice, Concat, Start;
      StartMonotone(k, |nodes|, baseSize);
      SpliceOfChunk(image, baseSize, k, npos, chunk);
      Memcpy(buf, npos, chunk);
      image := image[k := buf[..]];
    }

    /** memcpy out of node `k`. */
    method CopyOut(buf: array<byte>, npos: nat, n: nat, ghost k: nat) returns (chunk: seq<byte>)
      requires Spine() && k < |nodes| && buf == nodes[k].buf && npos + n <= baseSize
      ensures Start(k, baseSize) + npos + n <= capacity
      ensures chunk == Flat()[Start(k, baseSize) + npos..Start(k, baseSize) + npos + n]
    {
      chunk := buf[npos..npos + n];
      StartMonotone(k, |nodes|, baseSize);
      SliceOfChunk(image, baseSize, k, npos, npos + n);
    }

    /** Moves past `n` bytes of the cursor node, and on to the next node once this one is used up. */
    method Advance(npos: nat, n: nat)
      requires Linked() && cur != null
      requires npos == position - Start(at, baseSize) && npos + n <= baseSize
      modifies `position, `cur, `at
      ensures Linked() && position == old(position) + n
      ensures npos + n == baseSize ==> position == Start(at, baseSize)
    {
      Following(nodes, at);
      StartMonotone(at, |nodes|, baseSize);
      if cur.size == npos + n {
        cur := cur.next;
        at := at + 1;
      }
      position := position + n;
    }

    /** The copy loop of write(): the room is there already. */
    method Fill(data: seq<byte>)
      requires Linked() && |data| > 0 && position + |data| <= capacity
      modifies `position, `cur, `at, `image, set n | n in nodes :: n.buf
      ensures Linked() && position == old(position) + |data|
      ensures Flat() == Splice(old(Flat()), old(position), data)
    {
      hide Splice, Chain, Flat;
      ghost var start, flat := position, Flat();
      var npos := position % baseSize;
      PositionInChunk(position, baseSize, at);
      var ncap := cur.size - npos;
      var bpos, left: nat := 0, |data|;
      SpliceNothing(flat, start);
      assert data[..0] == [];
      while left > 0
        invariant Linked() && bpos + left == |data| && position == start + bpos
        invariant left > 0 ==> cur != null && npos == position - Start(at, baseSize) && ncap == baseSize - npos
        invariant Flat() == Splice(flat, start, data[..bpos])
      {
        if ncap >= left {
          FillNode(data, bpos, left, npos, flat, start);
          bpos := bpos + left;
          left := 0;
        } else {
          FillNode(data, bpos, ncap, npos, flat, start);
          bpos := bpos + ncap;
          left := left - ncap;
          ncap := cur.size;
          npos := 0;
        }
      }
      assert data[..|data|] == data;
    }

    method FillNode(data: seq<byte>, bpos: nat, n: nat, npos: nat, ghost flat: seq<byte>, ghost start: nat)
      requires Linked() && cur != null && bpos + n <= |data| && position == start + bpos
      requires npos == position - Start(at, baseSize) && npos + n <= baseSize
      requires start + |data| <= |flat| == capacity && Flat() == Splice(flat, start, data[..bpos])
      modifies `position, `cur, `at, `image, cur.buf
      ensures Linked() && position == old(position) + n
      ensures Flat() == Splice(flat, start, data[..bpos + n])
      ensures npos + n == baseSize ==> position == Start(at, baseSize)
    {
      assert data[..bpos] + data[bpos..bpos + n] == data[..bpos + n];
      SpliceTwice(flat, start, data[..bpos], data[bpos..bpos + n]);
      CopyIn(cur.buf, npos, data[bpos..bpos + n], at);
      Advance(npos, n);
    }

    method Write(data: seq<byte>)
      requires Valid()
      modifies `position, `size, `capacity, `cur, `at, `nodes, `image, `Repr, Repr
      ensures Valid() && fresh(Repr - old(Repr))
      ensures Content() == Overwrite(old(Content()), old(position), data)
      ensures Overwrite(old(Flat()), old(position), data) <= Flat()
      ensures position == old(position) + |data| && size == if position > old(size) then position else old(size)
      ensures position <= old(capacity) ==> capacity == old(capacity)
      ensures position > old(capacity) ==> capacity - baseSize < position
    {
      hide Overwrite, Splice, Start, Chain;
      if |data| == 0 {
        OverwriteNothing(Content(), position);
        OverwriteNothing(Flat(), position);
        return;
      }
      AddCapacity(|data|);
      OverwriteBySplice(old(Flat()), Flat(), size, position, data);
      SpliceGrown(old(Flat()), Flat(), position, data);
      Fill(data);
      if position > size {
        size := position;
      }
    }

    /** The copy loop of read(): `n` bytes are there. */
    method Drain(n: nat) returns (bytes: seq<byte>)
      requires Linked() && cur != null && position + n <= capacity
      modifies `position, `cur, `at
      ensures Linked() && position == old(position) + n
      ensures bytes == Flat()[old(position)..old(position) + n]
    {
      var npos := position % baseSize;
      PositionInChunk(position, baseSize, at);
      var ncap := cur.size - npos;
      var left: nat := n;
      ghost var start := position;
      bytes := [];
      while left > 0
        invariant Linked() && |bytes| + left == n && position == start + |bytes|
        invariant left > 0 ==> cur != null && npos == position - Start(at, baseSize) && ncap == baseSize - npos
        invariant bytes == Flat()[start..position]
      {
        if ncap >= left {
          bytes := DrainNode(bytes, npos, left, start);
          left := 0;
        } else {
          bytes := DrainNode(bytes, npos, ncap, start);
          left := left - ncap;
          ncap := cur.size;
          npos := 0;
        }
      }
    }

    method DrainNode(bytes: seq<byte>, npos: nat, n: nat, ghost start: nat) returns (more: seq<byte>)
      requires Linked() && cur != null && start <= position && bytes == Flat()[start..position]
      requires npos == position - Start(at, baseSize) && npos + n <= baseSize
      modifies `position, `cur, `at
      ensures Linked() && position == old(position) + n
      ensures more == Flat()[start..position] && Flat() == old(Flat())
      ensures npos + n == baseSize ==> position == Start(at, baseSize)
    {
      var chunk := CopyOut(cur.buf, npos, n, at);
      more := bytes + chunk;
      assert more == Flat()[start..position + n];
      Advance(npos, n);
    }

    method Read(n: nat) returns (r: ReadResult)
      requires Valid()
      modifies `position, `cur, `at
      ensures Valid() && Content() == old(Content())
      ensures old(position) + n > size ==> r == OutOfRange && position == old(position)
      ensures n == 0 && old(position) == capacity ==> r == NullCursor && position == old(position)
      ensures old(position) + n <= size && (n > 0 || old(position) < capacity) ==>
                r == Data(Content()[old(position)..old(position) + n]) && position == old(position) + n
    {
      CursorIsQuotient();
      if n > size - position {
        return OutOfRange;
      }
      if cur == null {
        return NullCursor;
      }
      var bytes := Drain(n);
      r := Data(bytes);
    }

    method SetPosition(v: nat) returns (ok: bool)
      requires Valid()
      modifies `position, `size, `cur, `at
      ensures Valid() && Flat() == old(Flat())
      ensures ok == (v <= capacity)
      ensures ok ==> position == v && size == if v > old(size) then v else old(size)
      ensures !ok ==> position == old(position) && size == old(size)
    {
      if v > capacity {
        return false;
      }
      position := v;
      if position > size {
        size := position;
      }
      cur, at := Seek(v);
      ok := true;
    }

    /** The walk of setPosition(): finds the node for position `v` again, from the root. */
    method Seek(v: nat) returns (node: Node?, ghost k: nat)
      requires Spine() && v <= capacity
      ensures k <= |nodes| && Start(k, baseSize) <= v
      ensures k < |nodes| ==> node == nodes[k] && v < Start(k, baseSize) + baseSize
      ensures k == |nodes| ==> node == null
    {
      hide Spine;
      RootNode();
      node, k := root, 0;
      var left: nat := v;
      while left > node.size
        invariant k < |nodes| && node == nodes[k] && left + Start(k, baseSize) == v
        decreases |nodes| - k
      {
        NodeAt(k);
        left := left - node.size;
        node, k := node.next, k + 1;
      }
      NodeAt(k);
      if left == node.size {
        node, k := node.next, k + 1;
      }
    }

    lemma RootNode()
      requires Spine()
      ensures |nodes| > 0 && nodes[0] == root
    {
    }

    /** Appends `n` bytes of node `k` to the bytes that lie before them. */
    method CopyMore(bytes: seq<byte>, buf: array<byte>, npos: nat, n: nat, ghost k: nat, ghost start: nat)
      returns (more: seq<byte>)
      requires Spine() && k < |nodes| && buf == nodes[k].buf && npos + n <= baseSize
      requires start + |bytes| == Start(k, baseSize) + npos <= capacity
      requires bytes == Flat()[start..start + |bytes|]
      ensures start + |more| == Start(k, baseSize) + npos + n <= capacity
      ensures more == Flat()[start..start + |more|]
    {
      var chunk := CopyOut(buf, npos, n, k);
      more := bytes + chunk;
    }

    /** The unread bytes, copied through a local cursor; nothing moves. */
    method ToString() returns (s: seq<byte>)
      requires Valid()
      ensures s == Content()[position..]
    {
      hide Spine, Flat;
      var left: nat := size - position;
      s := [];
      if left == 0 {
        return;
      }
      CursorNode();
      var node, npos := cur, position % baseSize;
      PositionInChunk(position, baseSize, at);
      var ncap := node.size - npos;
      ghost var k: nat := at;
      while left > 0
        invariant position + |s| + left == size
        invariant s == Flat()[position..position + |s|]
        invariant left > 0 ==> k < |nodes| && node == nodes[k] && ncap == baseSize - npos
        invariant left > 0 ==> 0 <= npos < baseSize && Start(k, baseSize) + npos == position + |s|
      {
        NodeAt(k);
        if ncap >= left {
          s := CopyMore(s, node.buf, npos, left, k, position);
          left := 0;
        } else {
          s := CopyMore(s, node.buf, npos, ncap, k, position);
          left := left - ncap;
          node, k := node.next, k + 1;
          NodeAt(k);
          ncap := node.size;
          npos := 0;
        }
      }
    }

    /** The regions lie one per node from the cursor on, and all but the last reach the end of their node. */
    ghost predicate Covers(iovs: seq<Iovec>)
      reads `nodes, `at, `position
    {
      at + |iovs| <= |nodes| && forall j :: 0 <= j < |iovs| ==> Region(iovs[j], j, j < |iovs| - 1)
    }

    /** Region `j` behind the head; one that is not the last reaches to the end of its node. */
    ghost predicate Region(iov: Iovec, j: nat, more: bool)
      requires at + j < |nodes|
      reads `nodes, `at, `position
    {
      && iov.buf == nodes[at + j].buf
      && iov.offset == (if j == 0 then position - Start(at, baseSize) else 0)
      && iov.offset + iov.len <= baseSize
      && (more ==> iov.offset + iov.len == baseSize)
    }

    /** Where the last region ends in the flat view. */
    ghost function EndOf(iovs: seq<Iovec>): (end: nat)
      requires |iovs| > 0
      reads `at
    {
      Start(at + |iovs| - 1, baseSize) + iovs[|iovs| - 1].offset + iovs[|iovs| - 1].len
    }

    lemma RegionAt(iovs: seq<Iovec>, j: nat)
      requires Covers(iovs) && j < |iovs|
      ensures at + j < |nodes| && iovs[j].buf == nodes[at + j].buf
      ensures iovs[j].offset + iovs[j].len <= baseSize
      ensures var end := Start(at + j, baseSize) + iovs[j].offset + iovs[j].len;
              end == if j + 1 < |iovs| then Start(at + j + 1, baseSize) + iovs[j + 1].offset else EndOf(iovs)
      ensures j == 0 && Cursor() ==> position == Start(at, baseSize) + iovs[0].offset
    {
    }

    lemma EndInside(iovs: seq<Iovec>)
      requires Linked() && Covers(iovs) && |iovs| > 0
      ensures EndOf(iovs) <= capacity
    {
      NodeAt(at + |iovs| - 1);
    }

    ghost predicate Full(iovs: seq<Iovec>)
      reads `nodes, `at, `position
    {
      at + |iovs| <= |nodes| && forall j :: 0 <= j < |iovs| ==> Region(iovs[j], j, true)
    }

    lemma AddRegion(iovs: seq<Iovec>, iov: Iovec)
      requires Full(iovs) && at + |iovs| < |nodes| && iov.buf == nodes[at + |iovs|].buf
      requires iov.offset == if iovs == [] then position - Start(at, baseSize) else 0
      requires iov.offset + iov.len <= baseSize
      ensures Covers(iovs + [iov]) && (iov.offset + iov.len == baseSize ==> Full(iovs + [iov]))
      ensures EndOf(iovs + [iov]) == Start(at + |iovs|, baseSize) + iov.offset + iov.len
    {
      hide Start;
      var all := iovs + [iov];
      forall j | 0 <= j < |all|
        ensures Region(all[j], j, j < |all| - 1) && (iov.offset + iov.len == baseSize ==> Region(all[j], j, true))
      {
        if j < |iovs| {
          assert all[j] == iovs[j] && Region(iovs[j], j, true);
        }
      }
    }

    /** The loop of getReadBuffers() and getWriteBuffers(). */
    method Regions(len: nat) returns (iovs: seq<Iovec>)
      requires Linked() && 0 < len && position + len <= capacity
      ensures Covers(iovs) && |iovs| > 0 && EndOf(iovs) == position + len
    {
      hide Spine, Covers, Full, EndOf;
      CursorNode();
      var node, npos := cur, position % baseSize;
      PositionInChunk(position, baseSize, at);
      var ncap := node.size - npos;
      var left: nat := len;
      iovs := [];
      assert Full(iovs) by { NoRegions(); }
      while left > 0
        invariant left > 0 ==> Full(iovs) && at + |iovs| < |nodes| && node == nodes[at + |iovs|]
        invariant left > 0 ==> ncap == baseSize - npos
        invariant left > 0 ==> npos == if iovs == [] then position - Start(at, baseSize) else 0
        invariant left > 0 ==> Start(at + |iovs|, baseSize) + npos + left == position + len
        invariant left == 0 ==> Covers(iovs) && |iovs| > 0 && EndOf(iovs) == position + len
      {
        NodeAt(at + |iovs|);
        if ncap >= left {
          AddRegion(iovs, Iovec(node.buf, npos, left));
          iovs := iovs + [Iovec(node.buf, npos, left)];
          left := 0;
        } else {
          AddRegion(iovs, Iovec(node.buf, npos, ncap));
          iovs := iovs + [Iovec(node.buf, npos, ncap)];
          left := left - ncap;
          NodeAt(at + |iovs|);
          node := node.next;
          ncap := node.size;
          npos := 0;
        }
      }
    }

    lemma NoRegions()
      requires Cursor()
      ensures Full([])
    {
    }

    method GetReadBuffers(len: nat) returns (iovs: seq<Iovec>, total: nat)
      requires Valid()
      ensures total == (if len > size - position then size - position else len)
      ensures total == 0 ==> iovs == []
      ensures total > 0 ==> Covers(iovs) && |iovs| > 0 && EndOf(iovs) == position + total
    {
      total := if len > size - position then size - position else len;
      iovs := [];
      if total > 0 {
        iovs := Regions(total);
      }
    }

    method GetWriteBuffers(len: nat) returns (iovs: seq<Iovec>)
      requires Valid()
      modifies `capacity, `cur, `nodes, `image, `Repr, Repr
      ensures Valid() && fresh(Repr - old(Repr)) && Content() == old(Content())
      ensures len == 0 ==> iovs == []
      ensures len > 0 ==> Covers(iovs) && |iovs| > 0 && EndOf(iovs) == position + len <= capacity
      ensures capacity >= old(capacity) && Flat()[..old(capacity)] == old(Flat()) && position == old(position) && size == old(size)
      ensures position + len <= old(capacity) ==> capacity == old(capacity)
      ensures position + len > old(capacity) ==> capacity - baseSize < position + len <= capacity
    {
      iovs := [];
      if len > 0 {
        AddCapacity(len);
        assert Content() == old(Content());
        iovs := Regions(len);
      }
    }

    /** What the kernel does on readv: fills the regions with `data`, in order, as far as it goes. */
    method Scatter(iovs: seq<Iovec>, data: seq<byte>)
      requires Linked() && Covers(iovs) && |iovs| > 0 && position + |data| <= EndOf(iovs)
      modifies `image, set n | n in nodes :: n.buf
      ensures Linked() && position + |data| <= capacity
      ensures Flat() == Splice(old(Flat()), position, data)
    {
      hide Spine, Flat, Covers, EndOf, Start, Splice;
      var j, done := 0, 0;
      ghost var flat := Flat();
      SpliceNothing(flat, position);
      assert data[..0] == [];
      EndInside(iovs);
      RegionAt(iovs, 0);
      while done < |data|
        invariant 0 <= done <= |data| && 0 <= j <= |iovs|
        invariant Linked() && position + |data| <= |flat| == capacity
        invariant Flat() == Splice(flat, position, data[..done])
        invariant done < |data| ==> j < |iovs| && position + done == Start(at + j, baseSize) + iovs[j].offset
        decreases |iovs| - j
      {
        RegionAt(iovs, j);
        var n := if iovs[j].len < |data| - done then iovs[j].len else |data| - done;
        ScatterInto(iovs[j].buf, iovs[j].offset, data, done, n, at + j, flat);
        done := done + n;
        j := j + 1;
      }
      assert data[..done] == data;
    }

    method ScatterInto(buf: array<byte>, offset: nat, data: seq<byte>, done: nat, n: nat, ghost k: nat, ghost flat: seq<byte>)
      requires Linked() && k < |nodes| && buf == nodes[k].buf && offset + n <= baseSize
      requires done + n <= |data| && position + |data| <= |flat| == capacity
      requires Flat() == Splice(flat, position, data[..done])
      requires position + done == Start(k, baseSize) + offset
      modifies `image, buf
      ensures Linked() && Flat() == Splice(flat, position, data[..done + n])
    {
      hide Splice, Start, Spine, Flat;
      assert data[..done] + data[done..done + n] == data[..done + n];
      SpliceTwice(flat, position, data[..done], data[done..done + n]);
      CopyIn(buf, offset, data[done..done + n], k);
    }

    /** What the kernel does on writev: the bytes of the regions, in order. */
    method Gather(iovs: seq<Iovec>) returns (bytes: seq<byte>)
      requires Linked() && Covers(iovs) && |iovs| > 0
      ensures position <= EndOf(iovs) <= capacity && bytes == Flat()[position..EndOf(iovs)]
    {
      hide Spine, Flat, Covers, EndOf, Start;
      bytes := [];
      var j := 0;
      EndInside(iovs);
      RegionAt(iovs, 0);
      while j < |iovs|
        invariant 0 <= j <= |iovs| && position + |bytes| <= capacity
        invariant j < |iovs| ==> position + |bytes| == Start(at + j, baseSize) + iovs[j].offset
        invariant j == |iovs| ==> position + |bytes| == EndOf(iovs)
        invariant bytes == Flat()[position..position + |bytes|]
      {
        RegionAt(iovs, j);
        bytes := CopyMore(bytes, iovs[j].buf, iovs[j].offset, iovs[j].len, at + j, position);
        j := j + 1;
      }
    }
  }
}
