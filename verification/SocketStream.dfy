/**
 The zero-copy paths of yuyu/streams/socket_stream.cc: a ByteArray lends its nodes to
 readv and writev as regions, and its position is moved afterwards.
 */
module SocketStreams {
  import opened Bytes
  import opened ByteArrays

  /**
   SocketStream::read(ByteArray, length); recv returns `received`, which is not positive at the end of the stream and
   on an error, and has then delivered nothing.
   */
  method ReadInto(ba: ByteArray, length: nat, connected: bool, received: int, incoming: seq<byte>) returns (rt: int)
    requires ba.Valid() && 0 < length && received <= length && |incoming| == if received > 0 then received else 0
    modifies ba, ba.Repr
    ensures ba.Valid() && fresh(ba.Repr - old(ba.Repr))
    ensures rt == if connected then received else -1
    ensures rt > 0 ==> ba.Content() == Overwrite(old(ba.Content()), old(ba.position), incoming)
    ensures rt > 0 ==> ba.position == old(ba.position) + |incoming|
    ensures rt <= 0 ==> ba.Content() == old(ba.Content()) && ba.position == old(ba.position)
  {
    if !connected {
      return -1;
    }
    var iovs := ba.GetWriteBuffers(length);
    rt := received;
    ghost var flat := ba.Flat();
    ba.Scatter(iovs, incoming);
    if rt > 0 {
      OverwriteBySplice(flat, flat, ba.size, ba.position, incoming);
      var ok := ba.SetPosition(ba.position + rt);
    } else {
      OverwriteBySplice(flat, flat, ba.size, ba.position, incoming);
      OverwriteNothing(old(ba.Content()), ba.position);
    }
  }

  /** SocketStream::write(ByteArray, length); send returns `accepted`, how many bytes it took, or a negative value. */
  method WriteFrom(ba: ByteArray, length: nat, connected: bool, accepted: int)
    returns (rt: int, sent: seq<byte>)
    requires ba.Valid() && 0 < length && ba.position < ba.size
    requires accepted <= length && ba.position + accepted <= ba.size
    modifies ba, ba.Repr
    ensures ba.Valid() && ba.Content() == old(ba.Content())
    ensures rt == if connected then accepted else -1
    ensures rt >= 0 ==> sent == ba.Content()[old(ba.position)..old(ba.position) + accepted]
    ensures rt >= 0 ==> ba.position == old(ba.position) + accepted
    ensures rt < 0 ==> ba.position == old(ba.position) && sent == []
  {
    hide ByteArray.Cursor, ByteArray.Covers, ByteArray.EndOf;
    if !connected {
      return -1, [];
    }
    var iovs, total := ba.GetReadBuffers(length);
    var offered := ba.Gather(iovs);
    rt := accepted;
    sent := if rt < 0 then [] else offered[..rt];
    if rt >= 0 {
      Offered(ba.Flat(), ba.size, ba.position, ba.position + total, rt);
    }
    if rt > 0 {
      var ok := ba.SetPosition(ba.position + rt);
    }
  }

  lemma Offered(flat: seq<byte>, size: nat, from: nat, to: nat, n: nat)
    requires from <= to <= size <= |flat| && from + n <= to
    ensures flat[from..to][..n] == flat[..size][from..from + n]
  {
  }
}
