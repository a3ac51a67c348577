/** `ByteStream` and the write side of `TcpSocket`: a queue of buffers drained by partial sends. */
module ByteStreams {
  import opened Bytes
  import opened ByteBuffers

  class ByteStream {
    var buffersQueue: seq<NativeByteBuffer>

    ghost predicate Valid()
      reads this, buffersQueue
    {
      && (forall k :: 0 <= k < |buffersQueue| ==> buffersQueue[k].Valid())
      && (forall j, k :: 0 <= j < k < |buffersQueue| ==> buffersQueue[j] != buffersQueue[k])
    }

    /** Everything still to be sent, in order. */
    static ghost function Joined(q: seq<NativeByteBuffer>): seq<Byte>
      reads q, set b | b in q :: b.bytes
      requires forall k :: 0 <= k < |q| ==> q[k].Valid()
    {
      if q == [] then [] else q[0].Remaining() + Joined(q[1..])
    }

    ghost function Contents(): seq<Byte>
      reads this, buffersQueue, set b | b in buffersQueue :: b.bytes
      requires Valid()
    {
      Joined(buffersQueue)
    }

    constructor ()
      ensures Valid() && buffersQueue == []
    {
      buffersQueue := [];
    }

    method Append(buffer: NativeByteBuffer)
      requires Valid() && buffer.Valid() && buffer !in buffersQueue
      modifies this
      ensures Valid() && buffersQueue == old(buffersQueue) + [buffer]
      ensures Contents() == old(Contents()) + buffer.Remaining()
    {
      JoinedAppend(buffersQueue, buffer);
      buffersQueue := buffersQueue + [buffer];
    }

    static lemma {:induction false} JoinedAppend(q: seq<NativeByteBuffer>, b: NativeByteBuffer)
      requires forall k :: 0 <= k < |q| ==> q[k].Valid()
      requires b.Valid()
      ensures Joined(q + [b]) == Joined(q) + b.Remaining()
    {
      if q == [] {
        assert q + [b] == [b];
      } else {
        var r := q + [b];
        assert r[0] == q[0] && r[1..] == q[1..] + [b];
        JoinedAppend(q[1..], b);
        assert q[0].Remaining() + (Joined(q[1..]) + b.Remaining()) == Joined(q) + b.Remaining();
      }
    }

    /** The same bytes with the heap left out. */
    static ghost predicate Holds(q: seq<NativeByteBuffer>, pieces: seq<seq<Byte>>)
      reads q, set b | b in q :: b.bytes
    {
      |pieces| == |q| && forall k :: 0 <= k < |q| ==> q[k].Valid() && q[k].Remaining() == pieces[k]
    }

    static lemma {:induction false} JoinedFlat(q: seq<NativeByteBuffer>, pieces: seq<seq<Byte>>)
      requires Holds(q, pieces)
      ensures Joined(q) == Flatten(pieces)
    {
      if q != [] {
        JoinedFlat(q[1..], pieces[1..]);
      }
    }

    ghost method Pieces() returns (pieces: seq<seq<Byte>>)
      requires Valid()
      ensures Holds(buffersQueue, pieces) && Contents() == Flatten(pieces)
    {
      pieces := seq(|buffersQueue|, k requires 0 <= k < |buffersQueue| && buffersQueue[k].Valid()
                                      reads this, buffersQueue, set b | b in buffersQueue :: b.bytes
                                      => buffersQueue[k].Remaining());
      JoinedFlat(buffersQueue, pieces);
    }

    method HasData() returns (has: bool)
      requires Valid()
      ensures has <==> Contents() != []
    {
      var i := 0;
      while i < |buffersQueue|
        invariant i <= |buffersQueue|
        invariant Contents() == Joined(buffersQueue[i..])
      {
        if buffersQueue[i].position < buffersQueue[i].limit {
          return true;
        }
        assert buffersQueue[i..][1..] == buffersQueue[i + 1..];
        i := i + 1;
      }
      return false;
    }

    static function FirstOf(s: seq<Byte>, n: nat): seq<Byte> {
      if |s| <= n then s else s[..n]
    }

    static lemma FirstOfConcat(before: seq<Byte>, piece: seq<Byte>, rest: seq<Byte>, room: nat)
      ensures |piece| >= room ==> FirstOf(piece + rest, room) == FirstOf(piece, room)
      ensures |piece| < room ==>
        before + FirstOf(piece + rest, room) == before + piece + FirstOf(rest, room - |piece|)
    {
    }

    /** What `dst` holds once as much of `s` as fits has been copied behind it. */
    static ghost function Filled(dst: NativeByteBuffer, s: seq<Byte>): seq<Byte>
      reads dst, dst.bytes
      requires dst.Valid()
    {
      dst.Written() + FirstOf(s, dst.limit - dst.position)
    }

    /** The body of the loop of `get`: copies one buffer, or as much of it as fits. */
    static method CopyOne(buffer: NativeByteBuffer, dst: NativeByteBuffer, ghost rest: seq<Byte>) returns (more: bool)
      requires buffer.Valid() && dst.Valid() && buffer != dst && buffer.bytes != dst.bytes
      modifies dst`position, dst.bytes
      ensures dst.Valid()
      ensures old(Filled(dst, buffer.Remaining() + rest)) == if more then Filled(dst, rest) else dst.Written()
    {
      FirstOfConcat(dst.Written(), buffer.Remaining(), rest, dst.limit - dst.position);
      if buffer.limit - buffer.position > dst.limit - dst.position {
        dst.WriteSlice(buffer.bytes, buffer.position, dst.limit - dst.position);
        return false;
      }
      dst.WriteSlice(buffer.bytes, buffer.position, buffer.limit - buffer.position);
      more := dst.position < dst.limit;
    }

    /** The loop of `get`. */
    static method CopyAll(q: seq<NativeByteBuffer>, dst: NativeByteBuffer, ghost pieces: seq<seq<Byte>>)
      requires dst.Valid() && Holds(q, pieces)
      requires forall k :: 0 <= k < |q| ==> q[k] != dst && q[k].bytes != dst.bytes
      modifies dst`position, dst.bytes
      ensures dst.Valid() && Holds(q, pieces)
      ensures dst.Written() == old(Filled(dst, Flatten(pieces)))
    {
      ghost var goal := Filled(dst, Flatten(pieces));
      var i := 0;
      assert pieces[i..] == pieces;
      while i < |q|
        invariant i <= |q| && dst.Valid() && Holds(q, pieces)
        invariant goal == Filled(dst, Flatten(pieces[i..]))
      {
        assert pieces[i..] == [pieces[i]] + pieces[i + 1..];
        var more := CopyOne(q[i], dst, Flatten(pieces[i + 1..]));
        if !more {
          return;
        }
        i := i + 1;
      }
    }

    /** Copies as much of the stream as fits into `dst` and leaves the stream as it was. */
    method Get(dst: NativeByteBuffer)
      requires Valid() && dst.Valid()
      requires dst !in buffersQueue && forall b :: b in buffersQueue ==> b.bytes != dst.bytes
      modifies dst`position, dst.bytes
      ensures Valid() && dst.Valid() && Contents() == old(Contents())
      ensures dst.Written() == old(Filled(dst, Contents()))
    {
      ghost var pieces := Pieces();
      CopyAll(buffersQueue, dst, pieces);
      JoinedFlat(buffersQueue, pieces);
    }

    /** Drops bytes of the first buffer only. */
    method Advance(count: nat)
      requires Valid() && buffersQueue != [] && count <= |buffersQueue[0].Remaining()|
      modifies buffersQueue[0]
      ensures Valid() && Contents() == old(Contents())[count..]
    {
      var buffer := buffersQueue[0];
      ghost var piece, tail := buffer.Remaining(), Joined(buffersQueue[1..]);
      buffer.SetPosition(buffer.position + count);
      assert buffer.Remaining() == piece[count..] && Joined(buffersQueue[1..]) == tail;
      assert piece[count..] + tail == (piece + tail)[count..];
    }

    /**
     * Drops the first `count` bytes; the socket never reports more as sent than `Get` gave
     * it. Each buffer is given back, once and when it is used up, or is still queued.
     */
    method Discard(count: nat) returns (ghost given: seq<NativeByteBuffer>)
      requires Valid() && count <= |Contents()|
      modifies this, buffersQueue
      ensures Valid() && Contents() == old(Contents())[count..]
      ensures given + buffersQueue == old(buffersQueue)
    {
      var left: nat := count;
      given := [];
      while left > 0
        invariant Valid() && left <= count
        invariant |given| <= |old(buffersQueue)| && buffersQueue == old(buffersQueue)[|given|..]
        invariant given == old(buffersQueue)[..|given|]
        invariant unchanged(old(buffersQueue))
        invariant left <= |Contents()| && Contents()[left..] == old(Contents())[count..]
        decreases |buffersQueue|
      {
        var buffer := buffersQueue[0];
        var remaining := buffer.limit - buffer.position;
        if left < remaining {
          Advance(left);
          return;
        }
        assert Contents()[left..] == Joined(buffersQueue[1..])[left - remaining..];
        given := given + [buffer];
        buffersQueue := buffersQueue[1..];
        left := left - remaining;
      }
    }

    /** Puts what fits of the stream into the network buffer. */
    method Offer(net: NativeByteBuffer)
      requires Valid() && net.Valid()
      requires net !in buffersQueue && forall b :: b in buffersQueue ==> b.bytes != net.bytes
      modifies net, net.bytes
      ensures Valid() && net.Valid() && net.position == 0
      ensures Contents() == old(Contents()) && net.Remaining() == FirstOf(Contents(), net.bytes.Length)
    {
      net.Clear();
      Get(net);
      net.Flip();
    }

    /**
     * The writable event of the socket: fills the network buffer, offers it to `send`,
     * which takes `accepted` bytes of it or as many as there are, and drops those from
     * the stream. What was taken and what is left make up what was there; a buffer sent
     * whole is given back, and the others stay.
     */
    method OnWritable(net: NativeByteBuffer, accepted: nat) returns (sent: seq<Byte>, ghost given: seq<NativeByteBuffer>)
      requires Valid() && net.Valid()
      requires net !in buffersQueue && forall b :: b in buffersQueue ==> b.bytes != net.bytes
      modifies this, buffersQueue, net, net.bytes
      ensures Valid() && net.Valid() && sent + Contents() == old(Contents())
      ensures |sent| == Least(accepted, Least(|old(Contents())|, net.bytes.Length))
      ensures given + buffersQueue == old(buffersQueue)
    {
      Offer(net);
      ghost var all := Contents();
      var remaining := net.limit - net.position;
      sent, given := [], [];
      if remaining > 0 {
        var length := if accepted <= remaining then accepted else remaining;
        sent := net.bytes[..length];
        assert sent == net.Remaining()[..length] == all[..length];
        given := Discard(length);
      }
    }
  }
}
