/** `TcpConnection`: reassembly of packets from the chunks the socket delivers. */
module TcpConnections {
  import opened Bytes
  import opened Wire
  import opened ByteBuffers
  import opened BufferStorages

  datatype Outcome = Delivered | Waiting | Rejected

  lemma Cut(s: seq<Byte>, h: nat, n: nat)
    requires h + n <= |s|
    ensures s[h..][..n] == s[h..h + n] && s[h..][n..] == s[h + n..]
  {
  }

  lemma TailOf(s: seq<Byte>, p: nat, n: nat, end: nat)
    requires p + n <= end <= |s|
    ensures s[p..end][..n] == s[p..p + n] && s[p..end][n..] == s[p + n..end]
  {
  }

  class TcpConnection {
    var resetOfData: NativeByteBuffer?
    var lastPacketLength: nat
    /** False once a rejected header has made the connection drop itself. */
    var open: bool
    /** The packets handed to `onConnectionRecviedData`, oldest first. */
    var delivered: seq<Packet>
    /** The buffers taken from the pool and not given back. */
    ghost var held: set<NativeByteBuffer>

    /** Every buffer taken was given back once, but for the carry-over. */
    ghost predicate Balanced()
      reads this
    {
      held == if resetOfData == null then {} else {resetOfData}
    }

    /** `getBuffer`. */
    method TakeBuffer(size: nat) returns (b: NativeByteBuffer)
      modifies this`held
      ensures fresh(b) && fresh(b.bytes) && b.Valid() && held == old(held) + {b}
      ensures b.position == 0 && b.limit == size && b.bytes.Length == ClassCapacity(size)
    {
      b := Acquire(size);
      held := held + {b};
    }

    /** `reuse`: only a buffer that is held can be given back. */
    method GiveBack(b: NativeByteBuffer)
      requires b in held
      modifies this`held
      ensures held == old(held) - {b}
    {
      held := held - {b};
    }

    ghost function Repr(): set<object>
      reads this
    {
      if resetOfData == null then {} else {resetOfData, resetOfData.bytes}
    }

    /** The carry-over: bytes received and not yet delivered. */
    ghost function Pending(): seq<Byte>
      reads this, if resetOfData == null then {} else {resetOfData, resetOfData.bytes}
      requires resetOfData != null ==> resetOfData.Valid()
    {
      if resetOfData == null then [] else resetOfData.Written()
    }

    /** Between calls the carry-over is an unfinished header or an unfinished packet. */
    ghost predicate Valid()
      reads this, Repr()
    {
      Balanced() && (resetOfData != null ==>
        && resetOfData.Valid()
        && if lastPacketLength == 0 then
             0 < resetOfData.position == resetOfData.limit && ShortHeader(Pending())
           else
             && resetOfData.limit == lastPacketLength
             && Partial(Pending())
             && PkgLen(Pending()) == lastPacketLength)
    }

    /** Inside the parse loop the carry-over, if any, is the buffer being parsed, from its start. */
    ghost predicate Parsing(buffer: NativeByteBuffer)
      reads this, buffer, buffer.bytes
    {
      && buffer.Valid() && Balanced()
      && (resetOfData != null ==>
            && resetOfData == buffer
            && buffer.position == 0 < buffer.limit
            && (lastPacketLength != 0 ==>
                  Complete(buffer.Remaining()) && PkgLen(buffer.Remaining()) == lastPacketLength == buffer.limit))
    }

    constructor ()
      ensures Valid() && open && resetOfData == null && delivered == []
    {
      resetOfData := null;
      lastPacketLength := 0;
      open := true;
      delivered, held := [], {};
    }

    /** `restHeader`: keeps the start of a header for the next call. */
    method RestHeader(buffer: NativeByteBuffer)
      requires Parsing(buffer) && buffer.position < buffer.limit
      requires ShortHeader(buffer.Remaining())
      requires resetOfData != null ==> lastPacketLength == 0
      modifies this, buffer
      ensures Valid() && Pending() == old(buffer.Remaining())
      ensures buffer.limit == old(buffer.limit) && buffer.Valid()
      ensures open == old(open) && delivered == old(delivered)
      ensures resetOfData == null || resetOfData == old(resetOfData) || fresh(Repr())
    {
      if resetOfData == null || resetOfData.position != 0 {
        resetOfData := TakeBuffer(16 * 1028);
        resetOfData.WriteBytes(buffer);
        resetOfData.SetLimit(resetOfData.position);
        lastPacketLength := 0;
      } else {
        resetOfData.SetPosition(resetOfData.limit);
      }
    }

    /** A new buffer with room for `len` bytes that starts with those of `buffer` from `mark`. */
    method CopyFrom(buffer: NativeByteBuffer, mark: nat, len: nat) returns (copy: NativeByteBuffer)
      requires buffer.Valid() && mark <= buffer.position && buffer.limit - mark <= len
      modifies this`held, buffer`position
      ensures held == old(held) + {copy}
      ensures buffer.Valid() && fresh(copy) && fresh(copy.bytes) && copy.Valid()
      ensures copy.limit == len && copy.Written() == buffer.bytes[mark..buffer.limit]
    {
      buffer.SetPosition(mark);
      copy := TakeBuffer(len);
      copy.WriteBytes(buffer);
    }

    /** Keeps the unfinished packet `s`, `len` bytes long when complete, that starts at `mark`. */
    method KeepPartial(buffer: NativeByteBuffer, mark: nat, len: nat, ghost s: seq<Byte>)
      requires buffer.Valid() && mark <= buffer.position && Balanced()
      requires resetOfData != null ==> resetOfData == buffer && mark == 0
      requires s == buffer.bytes[mark..buffer.limit] && Partial(s) && PkgLen(s) == len
      modifies this, buffer
      ensures Valid() && Pending() == s
      ensures buffer.Valid()
      ensures old(resetOfData) == null ==> buffer.limit == old(buffer.limit)
      ensures open == old(open) && delivered == old(delivered)
      ensures resetOfData == null || resetOfData == old(resetOfData) || fresh(Repr())
    {
      var reuseLater: NativeByteBuffer? := null;
      if resetOfData != null && resetOfData.bytes.Length < len {
        reuseLater := resetOfData;
        resetOfData := null;
      }
      if resetOfData == null {
        resetOfData := CopyFrom(buffer, mark, len);
      } else {
        resetOfData.SetPosition(resetOfData.limit);
        resetOfData.SetLimit(len);
      }
      lastPacketLength := len;
      if reuseLater != null {
        GiveBack(reuseLater);
      }
      assert Pending() == s;
    }

    /** After a delivery: gives the carry-over back when it is used up, else moves its tail to the front. */
    method Settle(buffer: NativeByteBuffer)
      requires buffer.Valid() && Balanced()
      requires resetOfData != null ==> resetOfData == buffer
      requires resetOfData != null && lastPacketLength != 0 ==> buffer.position == buffer.limit == lastPacketLength
      modifies this, buffer, Repr()
      ensures Parsing(buffer) && buffer.Remaining() == old(buffer.Remaining())
      ensures resetOfData == null || (resetOfData == old(resetOfData) && lastPacketLength == 0)
      ensures resetOfData == null ==> buffer.limit == old(buffer.limit)
      ensures old(resetOfData) != null && resetOfData == null ==> buffer.Remaining() == []
      ensures open == old(open) && delivered == old(delivered)
    {
      if resetOfData != null {
        if (lastPacketLength != 0 && resetOfData.position == lastPacketLength)
           || (lastPacketLength == 0 && !(resetOfData.position < resetOfData.limit))
        {
          GiveBack(resetOfData);
          resetOfData := null;
        } else {
          resetOfData.Compact();
          resetOfData.SetLimit(resetOfData.position);
          resetOfData.SetPosition(0);
        }
      }
    }

    /** Hands the packet `s` starts with to the manager; the position is already past its header. */
    method Deliver(buffer: NativeByteBuffer, cmd: Int32, seqNo: Uint32, packetLength: nat, ghost s: seq<Byte>)
      requires buffer.Valid() && Balanced() && (resetOfData != null ==> resetOfData == buffer)
      requires Complete(s) && packetLength == PkgLen(s) - HeadLen(s)
      requires cmd == ToInt32(Field32(s, 4)) && seqNo == Field32(s, 16)
      requires buffer.Remaining() == s[HeadLen(s)..]
      requires resetOfData != null && lastPacketLength != 0 ==>
        buffer.position == HeadLen(s) && PkgLen(s) == lastPacketLength == buffer.limit
      modifies this, buffer, Repr()
      ensures Parsing(buffer) && (old(resetOfData) == null ==> buffer.limit == old(buffer.limit))
      ensures buffer.Remaining() == s[PkgLen(s)..]
      ensures old(resetOfData) != null && resetOfData == null ==> buffer.Remaining() == []
      ensures delivered == old(delivered) + [PacketOf(s)] && open == old(open)
      ensures resetOfData == null || (resetOfData == old(resetOfData) && lastPacketLength == 0)
    {
      var oldLimit := buffer.limit;
      ghost var mark, rest := buffer.position, buffer.Remaining();
      assert rest == buffer.bytes[..][mark..oldLimit];
      Cut(s, HeadLen(s), packetLength);
      TailOf(buffer.bytes[..], mark, packetLength, oldLimit);
      buffer.SetLimit(buffer.position + packetLength);
      var body := buffer.bytes[buffer.position..buffer.limit];
      assert body == buffer.bytes[..][mark..mark + packetLength];
      delivered := delivered + [Packet(cmd, seqNo, body)];
      buffer.SetPosition(buffer.limit);
      buffer.SetLimit(oldLimit);
      assert buffer.Remaining() == buffer.bytes[..][mark + packetLength..oldLimit];
      Settle(buffer);
    }

    /** The part of a round behind `checkHeader`: the header of `s` is valid. */
    method TakePacket(buffer: NativeByteBuffer, header: seq<Byte>, ghost s: seq<Byte>) returns (outcome: Outcome)
      requires Parsing(buffer) && s == buffer.Remaining()
      requires |header| == HEADER_LENGTH <= |s| && HeaderOk(header) && HeaderOk(s)
      requires HeadLen(header) == HeadLen(s) && PkgLen(header) == PkgLen(s)
      requires Field32(header, 4) == Field32(s, 4) && Field32(header, 16) == Field32(s, 16)
      modifies this, buffer, Repr()
      ensures buffer.Valid() && (old(resetOfData) == null ==> buffer.limit == old(buffer.limit))
      ensures resetOfData == null || resetOfData == old(resetOfData) || fresh(Repr())
      ensures RoundDone(outcome, buffer, s, old(delivered), old(open)) && !outcome.Rejected?
      ensures outcome.Delivered? && old(resetOfData) != null && resetOfData == null ==> buffer.Remaining() == []
    {
      var mark := buffer.position;
      var headLength := HeadLen(header);
      if headLength > HEADER_LENGTH {
        if buffer.limit - buffer.position < headLength {
          RestHeader(buffer);
          return Waiting;
        }
      }
      buffer.SetPosition(mark + headLength);
      var packetLength := PkgLen(header) - headLength;
      if packetLength > buffer.limit - buffer.position {
        KeepPartial(buffer, mark, packetLength + headLength, s);
        return Waiting;
      }
      assert buffer.Remaining() == s[headLength..];
      Deliver(buffer, ToInt32(Field32(header, 4)), Field32(header, 16), packetLength, s);
      return Delivered;
    }

    /** One round of the parse loop of `onRecvData`. */
    method ParseOne(buffer: NativeByteBuffer) returns (outcome: Outcome)
      requires Parsing(buffer) && buffer.position < buffer.limit
      modifies this, buffer, Repr()
      ensures buffer.Valid() && (old(resetOfData) == null ==> buffer.limit == old(buffer.limit))
      ensures resetOfData == null || resetOfData == old(resetOfData) || fresh(Repr())
      ensures RoundDone(outcome, buffer, old(buffer.Remaining()), old(delivered), old(open))
      ensures outcome.Delivered? && old(resetOfData) != null && resetOfData == null ==> buffer.Remaining() == []
    {
      var mark := buffer.position;
      ghost var s := buffer.Remaining();
      if buffer.limit - buffer.position < HEADER_LENGTH {
        RestHeader(buffer);
        return Waiting;
      }
      var header := buffer.bytes[mark..mark + HEADER_LENGTH];
      assert s == header + s[HEADER_LENGTH..];
      HeaderStable(header, s[HEADER_LENGTH..]);
      if !HeaderOk(header) {
        if resetOfData != null {
          GiveBack(resetOfData);
          resetOfData := null;
        }
        lastPacketLength := 0;
        open := false;
        return Rejected;
      }
      outcome := TakePacket(buffer, header, s);
    }

    /** What a round leaves behind, given the bytes `s` it started from. */
    ghost predicate RoundDone(outcome: Outcome, buffer: NativeByteBuffer, s: seq<Byte>, before: seq<Packet>, wasOpen: bool)
      reads this, buffer, buffer.bytes, Repr()
    {
      match outcome
      case Delivered =>
        && Complete(s)
        && delivered == before + [PacketOf(s)] && open == wasOpen
        && Parsing(buffer) && buffer.Remaining() == s[PkgLen(s)..]
        && (resetOfData != null ==> lastPacketLength == 0)
      case Waiting =>
        && ParseStream(s) == Parsed([], s, true)
        && delivered == before && open == wasOpen
        && Valid() && Pending() == s
      case Rejected =>
        && ParseStream(s) == Parsed([], s, false)
        && delivered == before && !open && resetOfData == null && Balanced()
    }

    /** The branch for an unfinished header: the chunk is appended to the carry-over, which grows if it must. */
    method JoinHeader(chunk: NativeByteBuffer)
      requires Valid() && resetOfData != null && lastPacketLength == 0
      requires chunk.Valid() && chunk.position == 0 && {chunk, chunk.bytes} !! Repr()
      modifies this`resetOfData, this`held, chunk`position, Repr()
      ensures resetOfData != null && resetOfData.Valid() && Balanced()
      ensures 0 < resetOfData.position == resetOfData.limit
      ensures Pending() == old(Pending() + chunk.Remaining()) && chunk.Valid()
      ensures resetOfData == null || resetOfData == old(resetOfData) || fresh(Repr())
    {
      if resetOfData.bytes.Length - resetOfData.position >= chunk.limit {
        resetOfData.SetLimit(resetOfData.position + chunk.limit);
        resetOfData.WriteBytes(chunk);
      } else {
        var newBuffer := TakeBuffer(resetOfData.limit + chunk.limit);
        resetOfData.Rewind();
        newBuffer.WriteBytes(resetOfData);
        newBuffer.WriteBytes(chunk);
        GiveBack(resetOfData);
        resetOfData := newBuffer;
      }
    }

    /** The branch for an unfinished packet: takes what the packet still lacks from the chunk. */
    method FillPacket(chunk: NativeByteBuffer)
      requires Valid() && resetOfData != null && lastPacketLength != 0
      requires chunk.Valid() && chunk.position == 0 && {chunk, chunk.bytes} !! Repr()
      modifies chunk, Repr()
      ensures resetOfData.Valid() && resetOfData.limit == lastPacketLength
      ensures chunk.Valid() && chunk.limit == old(chunk.limit)
      ensures Pending() + chunk.Remaining() == old(Pending() + chunk.Remaining())
      ensures old(Pending()) <= Pending()
      ensures resetOfData.position < lastPacketLength ==> chunk.position == chunk.limit
    {
      var len: nat;
      if lastPacketLength - resetOfData.position <= chunk.limit {
        len := lastPacketLength - resetOfData.position;
      } else {
        len := chunk.limit;
      }
      var oldLimit := chunk.limit;
      chunk.SetLimit(len);
      resetOfData.WriteBytes(chunk);
      chunk.SetLimit(oldLimit);
      assert old(chunk.Remaining()) == chunk.bytes[..len] + chunk.bytes[len..oldLimit];
    }

    /** All deliveries so far and the carry-over are those of the parse `p`. */
    ghost predicate Reached(p: Parsed)
      reads this, Repr()
    {
      && Valid()
      && delivered == p.packets
      && open == p.ok
      && Pending() == if p.ok then p.rest else []
    }

    static ghost function Rest(buffer: NativeByteBuffer, later: NativeByteBuffer?): seq<Byte>
      reads buffer, buffer.bytes, later, if later == null then {} else {later.bytes}
      requires buffer.Valid() && (later != null ==> later.Valid())
    {
      buffer.Remaining() + if later == null then [] else later.Remaining()
    }

    /** The loop's state: the postponed chunk is only ever waiting while a refilled packet is parsed. */
    ghost predicate Looping(buffer: NativeByteBuffer, later: NativeByteBuffer?, goal: Parsed)
      reads this, buffer, buffer.bytes, later, if later == null then {} else {later.bytes}
    {
      && open && Parsing(buffer)
      && (later != null ==>
            && later.Valid() && {later, later.bytes} !! {buffer, buffer.bytes}
            && resetOfData == buffer && lastPacketLength != 0)
      && goal == After(delivered, Rest(buffer, later))
    }

    /** One turn of the loop: a round, then the switch to the postponed chunk. */
    method Turn(buffer: NativeByteBuffer, later: NativeByteBuffer?, ghost goal: Parsed)
      returns (next: NativeByteBuffer?)
      requires Looping(buffer, later, goal) && buffer.position < buffer.limit
      modifies this, buffer, Repr()
      ensures buffer.Valid()
      ensures resetOfData == null || resetOfData == old(resetOfData) || fresh(Repr())
      ensures next == null ==> Reached(goal) && (goal.ok ==> goal.rest != [])
      ensures next == buffer && old(resetOfData) != null && resetOfData == null ==>
        buffer.position == buffer.limit && goal.ok && goal.rest == []
      ensures next != null ==>
        && next == (if later == null then buffer else later)
        && Looping(next, null, goal) && |next.Remaining()| < old(|Rest(buffer, later)|)
        && (resetOfData == null || resetOfData == old(resetOfData))
    {
      ghost var before, s := delivered, buffer.Remaining();
      ghost var t := if later == null then [] else later.Remaining();
      var outcome := ParseOne(buffer);
      if outcome.Delivered? {
        OnePacketOn(before, s, t);
        next := if later == null then buffer else later;
        assert next.Remaining() == Rest(next, null) == s[PkgLen(s)..] + t;
        AfterMeans(delivered, next.Remaining());
      } else {
        assert t == [] && s + t == s;
        AfterMeans(before, s);
        next := null;
      }
    }

    /**
     * The loop of `onRecvData`: parses `first`, then the postponed chunk if there is one.
     * `stale` tells whether its last test looks at a buffer already given back.
     */
    method ParseLoop(first: NativeByteBuffer, postponed: NativeByteBuffer?, ghost goal: Parsed) returns (ghost stale: bool)
      requires Looping(first, postponed, goal)
      modifies this, first, postponed, Repr()
      ensures Reached(goal)
      ensures stale <==> old(resetOfData) != null && postponed == null && goal.ok && goal.rest == []
      ensures first.Valid() && (postponed != null ==> postponed.Valid())
      ensures resetOfData == null || resetOfData == old(resetOfData) || fresh(Repr())
    {
      var buffer: NativeByteBuffer, parseLater := first, postponed;
      stale := false;
      while buffer.position < buffer.limit
        invariant parseLater == null || parseLater == postponed
        invariant Looping(buffer, parseLater, goal)
        invariant first.Valid() && (postponed != null ==> postponed.Valid())
        invariant resetOfData == null || resetOfData == old(resetOfData)
        invariant stale ==> old(resetOfData) != null && postponed == null
        invariant stale ==> goal.ok && goal.rest == [] && buffer.position == buffer.limit
        invariant if postponed == null then buffer == first && (stale || resetOfData == old(resetOfData))
                  else if parseLater == null then buffer == postponed && resetOfData == null
                  else buffer == first
        decreases |Rest(buffer, parseLater)|
      {
        ghost var held := resetOfData;
        var next := Turn(buffer, parseLater, goal);
        if next == null {
          stale := false;
          return;
        }
        stale := held != null && resetOfData == null && next == buffer;
        buffer, parseLater := next, null;
      }
      assert Rest(buffer, parseLater) == [];
    }

    /** The chunk goes to the unfinished packet; tells whether that is then complete, and ready to be parsed. */
    method AbsorbPacket(chunk: NativeByteBuffer, ghost all: seq<Byte>, ghost goal: Parsed) returns (complete: bool)
      requires Valid() && open && resetOfData != null && lastPacketLength != 0
      requires chunk.Valid() && chunk.position == 0 && {chunk, chunk.bytes} !! Repr()
      requires all == Pending() + chunk.Remaining() && goal == After(delivered, all)
      modifies chunk, Repr()
      ensures chunk.Valid()
      ensures if complete then Parsing(resetOfData) && resetOfData.Remaining() + chunk.Remaining() == all
              else Reached(goal) && goal.rest != []
      ensures complete ==> (chunk.position == chunk.limit <==> |all| == lastPacketLength)
    {
      ghost var had := Pending();
      FillPacket(chunk);
      assert Pending() == had + Pending()[|had|..];
      HeaderStable(had, Pending()[|had|..]);
      complete := resetOfData.position == lastPacketLength;
      if complete {
        resetOfData.Rewind();
      } else {
        assert chunk.Remaining() == [] && Pending() == all;
        AfterMeans(delivered, all);
      }
    }

    /**
     * Brings the chunk and the carry-over together: `buffer` is what to parse first,
     * or null when the chunk did not finish the packet being waited for.
     */
    method Absorb(chunk: NativeByteBuffer, ghost all: seq<Byte>, ghost goal: Parsed)
      returns (buffer: NativeByteBuffer?, parseLater: NativeByteBuffer?)
      requires Valid() && open
      requires chunk.Valid() && chunk.position == 0 && {chunk, chunk.bytes} !! Repr()
      requires all == Pending() + chunk.Remaining() && goal == After(delivered, all)
      modifies this`resetOfData, this`held, chunk, Repr()
      ensures chunk.Valid()
      ensures resetOfData == null || resetOfData == old(resetOfData) || fresh(Repr())
      ensures buffer == null ==> Reached(goal) && goal.rest != []
      ensures buffer != null ==>
        && (buffer == chunk || buffer == resetOfData) && (parseLater == null || parseLater == chunk)
        && Looping(buffer, parseLater, goal)
        && (resetOfData == null <==> old(resetOfData) == null)
        && (resetOfData != null ==> (parseLater == null <==> lastPacketLength == 0 || |all| == lastPacketLength))
    {
      parseLater := null;
      if resetOfData == null {
        chunk.Rewind();
        buffer := chunk;
        assert Rest(buffer, null) == all;
      } else if lastPacketLength == 0 {
        JoinHeader(chunk);
        resetOfData.Rewind();
        buffer := resetOfData;
        assert Rest(buffer, null) == all;
      } else {
        var complete := AbsorbPacket(chunk, all, goal);
        if complete {
          parseLater := if chunk.position < chunk.limit then chunk else null;
          buffer := resetOfData;
          assert Rest(buffer, parseLater) == all;
        } else {
          buffer := null;
        }
      }
    }

    /** The chunk completes the carry-over, and nothing is left of it nor, for an unfinished packet, of the chunk. */
    ghost predicate LooksBack(chunk: seq<Byte>)
      reads this, if resetOfData == null then {} else {resetOfData, resetOfData.bytes}
      requires resetOfData != null ==> resetOfData.Valid()
    {
      var all := Pending() + chunk;
      && resetOfData != null
      && ParseStream(all).ok && ParseStream(all).rest == []
      && (lastPacketLength != 0 ==> |all| == lastPacketLength)
    }

    /** So it is whenever a message arrives in two pieces. */
    lemma TwoPiecesLookBack(m: Message, k: nat)
      requires Valid() && |m.body| <= MAX_BODY && k <= |Encode(m)|
      requires resetOfData != null && Pending() == Encode(m)[..k]
      ensures LooksBack(Encode(m)[k..])
    {
      assert Encode(m)[..k] + Encode(m)[k..] == Encode(m);
      PrintedWhole(m);
      if lastPacketLength != 0 {
        PrintedLength(m, k);
      }
    }

    /** The body of `onRecvData`, towards the outcome `goal` of parsing `all` that is there. */
    method Receive(chunk: NativeByteBuffer, ghost all: seq<Byte>, ghost goal: Parsed) returns (ghost stale: bool)
      requires Valid() && open
      requires chunk.Valid() && chunk.position == 0 && {chunk, chunk.bytes} !! Repr()
      requires all == Pending() + chunk.Remaining() && goal == After(delivered, all)
      modifies this, chunk, Repr()
      ensures Reached(goal)
      ensures stale <==> old(resetOfData) != null && goal.ok && goal.rest == []
                         && (old(lastPacketLength) != 0 ==> |all| == old(lastPacketLength))
      ensures chunk.Valid()
      ensures resetOfData == null || resetOfData == old(resetOfData) || fresh(Repr())
    {
      var buffer, parseLater := Absorb(chunk, all, goal);
      if buffer == null {
        stale := false;
        return;
      }
      stale := ParseLoop(buffer, parseLater, goal);
    }

    /**
     * Whatever has been carried over, and whatever the chunk holds, the packets
     * delivered are those of the one-shot parse of the two together, and what that
     * parse leaves over is carried to the next call. The last test of the loop looks at a
     * buffer already given back exactly when the carry-over is used up to its end.
     */
    method OnRecvData(chunk: NativeByteBuffer) returns (ghost stale: bool)
      requires Valid() && open
      requires chunk.Valid() && chunk.position == 0 && {chunk, chunk.bytes} !! Repr()
      modifies this, chunk, Repr()
      ensures Reached(After(old(delivered), old(Pending() + chunk.Remaining())))
      ensures stale <==> old(LooksBack(chunk.Remaining()))
      ensures chunk.Valid()
      ensures resetOfData == null || resetOfData == old(resetOfData) || fresh(Repr())
    {
      ghost var all := Pending() + chunk.Remaining();
      AfterMeans(delivered, all);
      stale := Receive(chunk, all, After(delivered, all));
    }

    /** `recv` into the network buffer. */
    static method Recv(net: NativeByteBuffer, chunk: seq<Byte>)
      requires net.Valid() && |chunk| <= net.bytes.Length
      modifies net, net.bytes
      ensures net.Valid() && net.position == 0 && net.Remaining() == chunk
    {
      net.Rewind();
      forall k | 0 <= k < |chunk| {
        net.bytes[k] := chunk[k];
      }
      net.SetLimit(|chunk|);
    }

    /** One turn of the read loop: the chunk lands in the shared network buffer and is parsed from there. */
    method ReceiveOne(net: NativeByteBuffer, chunk: seq<Byte>)
      requires Valid() && open && net.Valid() && {net, net.bytes} !! Repr() && |chunk| <= net.bytes.Length
      modifies this, net, net.bytes, Repr()
      ensures Valid() && net.Valid() && {net, net.bytes} !! Repr()
      ensures Reached(After(old(delivered), old(Pending()) + chunk))
      ensures resetOfData == null || resetOfData == old(resetOfData) || fresh(Repr())
    {
      Recv(net, chunk);
      ghost var stale := OnRecvData(net);
    }

    /** The next chunk of a stream: what is reached in the end stays the same. */
    method ReceiveNext(net: NativeByteBuffer, chunk: seq<Byte>, ghost later: seq<Byte>)
      requires Valid() && open && net.Valid() && {net, net.bytes} !! Repr() && |chunk| <= net.bytes.Length
      modifies this, net, net.bytes, Repr()
      ensures Valid() && net.Valid() && {net, net.bytes} !! Repr()
      ensures resetOfData == null || resetOfData == old(resetOfData) || fresh(Repr())
      ensures var goal := After(old(delivered), old(Pending()) + (chunk + later));
              if open then goal == After(delivered, Pending() + later) else Reached(goal)
    {
      OneChunkOn(delivered, Pending() + chunk, later);
      assert Pending() + (chunk + later) == Pending() + chunk + later;
      ReceiveOne(net, chunk);
    }

    /**
     * The read loop of the socket. However the stream is cut into chunks, the
     * outcome is that of parsing it in one piece.
     */
    method ReceiveAll(net: NativeByteBuffer, chunks: seq<seq<Byte>>)
      requires Valid() && open && net.Valid() && {net, net.bytes} !! Repr()
      requires forall k :: 0 <= k < |chunks| ==> |chunks[k]| <= net.bytes.Length
      modifies this, net, net.bytes, Repr()
      ensures Reached(After(old(delivered), old(Pending()) + Flatten(chunks)))
    {
      var i := 0;
      ghost var goal := After(delivered, Pending() + Flatten(chunks));
      assert chunks == chunks[i..];
      while i < |chunks|
        invariant i <= |chunks| && Valid() && open && net.Valid() && {net, net.bytes} !! Repr()
        invariant resetOfData == null || resetOfData == old(resetOfData) || fresh(Repr())
        invariant goal == After(delivered, Pending() + Flatten(chunks[i..]))
      {
        assert chunks[i..][1..] == chunks[i + 1..];
        ReceiveNext(net, chunks[i], Flatten(chunks[i + 1..]));
        if !open {
          return;
        }
        i := i + 1;
      }
      assert chunks[i..] == [] && Pending() + [] == Pending();
    }
  }
}
