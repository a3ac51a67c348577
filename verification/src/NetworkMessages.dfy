/** `NetworkMessage::serializeToBuffer` and the batching of `sendMessageToConnection`. */
module NetworkMessages {
  import opened Bytes
  import opened Wire
  import opened ByteBuffers
  import opened BufferStorages
  import opened ByteStreams

  const MAX_SINGLE_PACK_SIZE: nat := 3 * 1024

  class NetworkMessage {
    var outgoingBody: NativeByteBuffer
    var cmdId: Int32
    var messageSeq: Int32
    var packLength: nat

    constructor (body: NativeByteBuffer, cmd: Int32, s: Int32)
      ensures outgoingBody == body && cmdId == cmd && messageSeq == s
    {
      outgoingBody, cmdId, messageSeq, packLength := body, cmd, s, 0;
    }

    /** The length field is 16 bits wide: 20 plus the body's limit, reduced modulo 65536. */
    static function PackLength(limit: nat): (n: nat)
      ensures n < TWO_16
    {
      (HEADER_LENGTH + limit % TWO_16) % TWO_16
    }

    /**
     * The printed packet is the message, and parses back to it, exactly when the
     * 16-bit length field can tell the truth about the bytes that remain in the body.
     */
    static ghost predicate Prints(out: seq<Byte>, m: Message) {
      && (|out| == HEADER_LENGTH + |m.body| ==> out == Encode(m))
      && (|out| == HEADER_LENGTH + |m.body| <==> ParseStream(out).packets == [Received(m)])
    }

    static ghost function BodyOf(buffer: NativeByteBuffer?): seq<Byte>
      reads buffer, if buffer == null then {} else {buffer.bytes}
      requires buffer != null ==> buffer.Valid()
    {
      if buffer == null then [] else buffer.Remaining()
    }

    /** A missing body counts as an empty one. */
    method SerializeToBuffer(buffer: NativeByteBuffer?, uin: Uint64)
      requires buffer != null ==> buffer.Valid()
      modifies this, buffer
      ensures fresh(outgoingBody) && fresh(outgoingBody.bytes) && outgoingBody.Valid()
      ensures cmdId == old(cmdId) && messageSeq == old(messageSeq)
      ensures outgoingBody.limit == packLength
      ensures packLength == PackLength(old(if buffer == null then 0 else buffer.limit))
      ensures Prints(outgoingBody.bytes[..packLength], Message(cmdId, uin, messageSeq, old(BodyOf(buffer))))
      ensures packLength >= HEADER_LENGTH ==>
        Says(outgoingBody.bytes[..packLength], packLength, 20, 1, cmdId, uin, messageSeq)
    {
      if buffer == null {
        packLength := HEADER_LENGTH;
      } else {
        packLength := PackLength(buffer.limit);
      }
      outgoingBody := Acquire(packLength);
      WritePacket(outgoingBody, buffer, uin);
    }

    /** The header, then the body; a body that does not fit is dropped. */
    method WritePacket(out: NativeByteBuffer, buffer: NativeByteBuffer?, uin: Uint64)
      requires out.Valid() && out.position == 0 && out.limit < TWO_16
      requires buffer != null ==> buffer.Valid() && buffer != out && buffer.bytes != out.bytes
      modifies out`position, out.bytes, buffer
      ensures out.Valid() && Prints(out.bytes[..out.limit], Message(cmdId, uin, messageSeq, old(BodyOf(buffer))))
      ensures out.limit >= HEADER_LENGTH ==> Says(out.bytes[..out.limit], out.limit, 20, 1, cmdId, uin, messageSeq)
      ensures buffer != null ==> buffer.Valid()
    {
      ghost var m := Message(cmdId, uin, messageSeq, BodyOf(buffer));
      WriteHeader(out, out.limit, uin);
      ghost var h := out.Written();
      if buffer != null {
        out.WriteBytes(buffer);
      }
      ghost var all := out.bytes[..out.limit];
      assert out.Written() == all[..out.position] && all[..|h|] == h;
      RoundTripIffTrueLength(m, out.limit, all);
      if out.limit >= HEADER_LENGTH {
        StillSays(h, all, out.limit, cmdId, uin, messageSeq);
      }
    }

    static lemma StillSays(h: seq<Byte>, all: seq<Byte>, n: nat, cmd: Int32, uin: Uint64, seqNo: Int32)
      requires HEADER_LENGTH <= n < TWO_16 && h == Header(n, cmd, uin, seqNo) && h <= all
      ensures Says(all, n, 20, 1, cmd, uin, seqNo)
    {
      HeaderFields(n, cmd, uin, seqNo);
      assert all == h + all[HEADER_LENGTH..] && all[8..16] == h[8..16];
      HeaderStable(h, all[HEADER_LENGTH..]);
    }

    /** The six header writes; each one is dropped when the buffer is too small for it. */
    method WriteHeader(out: NativeByteBuffer, pkgLen: nat, uin: Uint64)
      requires out.Valid() && out.position == 0
      modifies out`position, out.bytes
      ensures out.Valid()
      ensures out.limit >= HEADER_LENGTH ==> out.Written() == Header(pkgLen, cmdId, uin, messageSeq)
      ensures out.limit >= HEADER_LENGTH && HEADER_LENGTH <= pkgLen < TWO_16 ==>
        Says(out.Written(), pkgLen, 20, 1, cmdId, uin, messageSeq)
    {
      out.WriteAll(Be16(pkgLen));
      out.WriteByte(HEADER_LENGTH);
      out.WriteByte(1);
      out.WriteAll(Be32(cmdId));
      out.WriteAll(Be64(uin));
      out.WriteAll(Be32(messageSeq));
      assert out.limit >= HEADER_LENGTH ==> out.Written() == Header(pkgLen, cmdId, uin, messageSeq);
      if HEADER_LENGTH <= pkgLen < TWO_16 {
        HeaderFields(pkgLen, cmdId, uin, messageSeq);
      }
    }

    static lemma RoundTripIffTrueLength(m: Message, packLength: nat, out: seq<Byte>)
      requires packLength == |out| < TWO_16
      requires packLength >= HEADER_LENGTH ==> out[..HEADER_LENGTH] == Header(packLength, m.cmd, m.uin, m.seqNo)
      requires packLength == HEADER_LENGTH + |m.body| ==> out[HEADER_LENGTH..] == m.body
      ensures Prints(out, m)
    {
      if packLength >= HEADER_LENGTH {
        var sent := m.(body := out[HEADER_LENGTH..]);
        assert out == Encode(sent) && out + [] == out;
        ParsePrinted(sent, []);
        assert ParseStream(out).packets == [Received(sent)];
      }
    }

    /** A body of which one byte has been read already is announced one byte too long and does not come back. */
    static lemma ReadBodyLost(m: Message, out: seq<Byte>)
      requires |out| == PackLength(|m.body| + 1) && |m.body| + 1 + HEADER_LENGTH < TWO_16
      requires out[..HEADER_LENGTH] == Header(|out|, m.cmd, m.uin, m.seqNo)
      ensures ParseStream(out).packets != [Received(m)]
    {
      RoundTripIffTrueLength(m, |out|, out);
    }

    /** The shortest body that is too long: its packet is announced, and printed, as empty. */
    static lemma LongBodyLost(m: Message)
      requires |m.body| == 65516
      ensures PackLength(|m.body|) == 0 && ParseStream([]).packets != [Received(m)]
    {
      RoundTripIffTrueLength(m, 0, []);
    }
  }

  /**
   * Message `k` is the bytes `texts[k]`, whatever its buffer's position. Both places
   * that make a message set `packLength` to the limit of `outgoingBody`, so the
   * buffers stand for the messages.
   */
  ghost predicate Printed(bodies: seq<NativeByteBuffer>, texts: seq<seq<Byte>>)
    reads bodies, set b | b in bodies :: b.bytes
  {
    && |texts| == |bodies|
    && forall k :: 0 <= k < |bodies| ==> 
         bodies[k].limit <= bodies[k].bytes.Length && bodies[k].bytes[..bodies[k].limit] == texts[k]
  }

  /** Groups of whole messages: each but the last reaches the batch size, and none would without its last message. */
  ghost predicate WellBatched(groups: seq<seq<seq<Byte>>>) {
    forall k :: 0 <= k < |groups| ==>
      && groups[k] != []
      && |Flatten(groups[k][..|groups[k]| - 1])| < 3072
      && (k < |groups| - 1 ==> |Flatten(groups[k])| >= 3072)
  }

  /** Copies a whole message, from its start. */
  method AddBody(body: NativeByteBuffer, out: NativeByteBuffer, ghost text: seq<Byte>)
    requires body.limit <= body.bytes.Length && body.bytes[..body.limit] == text
    requires out.Valid() && out.position + |text| <= out.limit && body != out && body.bytes != out.bytes
    modifies body`position, out`position, out.bytes
    ensures out.Valid() && out.Written() == old(out.Written()) + text
  {
    body.Rewind();
    out.WriteBytes(body);
  }

  /** The inner loop: copies a group of messages into one buffer of exactly their total size. */
  method FillBatch(group: seq<NativeByteBuffer>, size: nat, ghost texts: seq<seq<Byte>>) returns (sendBuffer: NativeByteBuffer)
    requires Printed(group, texts) && size == |Flatten(texts)|
    modifies group`position
    ensures Printed(group, texts)
    ensures fresh(sendBuffer) && fresh(sendBuffer.bytes) && sendBuffer.Valid()
    ensures sendBuffer.position == 0 && sendBuffer.Remaining() == Flatten(texts)
  {
    sendBuffer := Acquire(size);
    var j := 0;
    assert texts[..0] == [] && texts[..|texts|] == texts;
    while j < |group|
      invariant j <= |group| && Printed(group, texts)
      invariant sendBuffer.Valid() && sendBuffer.limit == size
      invariant sendBuffer.Written() == Flatten(texts[..j])
    {
      FlattenNext(texts, j);
      FlattenPart(texts, j + 1);
      AddBody(group[j], sendBuffer, texts[j]);
      assert Printed(group, texts);
      j := j + 1;
    }
    sendBuffer.Rewind();
  }

  lemma FlattenPart(texts: seq<seq<Byte>>, j: nat)
    requires j <= |texts|
    ensures |Flatten(texts[..j])| <= |Flatten(texts)|
  {
    FlattenAppend(texts[..j], texts[j..]);
    assert texts == texts[..j] + texts[j..];
  }

  /** How a list of messages is cut into batches when `open` is already waiting to be sent. */
  function BatchesFrom(open: seq<seq<Byte>>, texts: seq<seq<Byte>>): seq<seq<seq<Byte>>>
    decreases |texts|
  {
    if texts == [] then if open == [] then [] else [open]
    else
      var g := open + [texts[0]];
      if |Flatten(g)| >= MAX_SINGLE_PACK_SIZE then [g] + BatchesFrom([], texts[1..])
      else BatchesFrom(g, texts[1..])
  }

  lemma {:induction false} BatchesAreWellFormed(open: seq<seq<Byte>>, texts: seq<seq<Byte>>)
    requires |Flatten(open)| < MAX_SINGLE_PACK_SIZE
    ensures Flatten(BatchesFrom(open, texts)) == open + texts
    ensures WellBatched(BatchesFrom(open, texts))
    decreases |texts|
  {
    if texts == [] {
      if open != [] {
        FlattenPart(open, |open| - 1);
      }
    } else {
      var g := open + [texts[0]];
      assert g[..|g| - 1] == open;
      if |Flatten(g)| >= MAX_SINGLE_PACK_SIZE {
        BatchesAreWellFormed([], texts[1..]);
      } else {
        BatchesAreWellFormed(g, texts[1..]);
      }
    }
  }

  /** The buffers queued for sending hold one batch each. */
  ghost predicate Queued(q: seq<NativeByteBuffer>, groups: seq<seq<seq<Byte>>>)
    reads q, set b | b in q :: b.bytes
  {
    && |q| == |groups|
    && forall k :: 0 <= k < |q| ==> q[k].Valid() && q[k].position == 0 && q[k].Remaining() == Flatten(groups[k])
  }

  /** Taking the next message into the open batch, and closing it when it is full or the list ends. */
  lemma NextMessage(groups: seq<seq<seq<Byte>>>, texts: seq<seq<Byte>>, first: nat, i: nat)
    requires first <= i < |texts|
    ensures var g := texts[first..i + 1];
            |Flatten(g)| == |Flatten(texts[first..i])| + |texts[i]| &&
            groups + BatchesFrom(texts[first..i], texts[i..]) ==
              if |Flatten(g)| >= MAX_SINGLE_PACK_SIZE || i == |texts| - 1
              then groups + [g] + BatchesFrom(texts[i + 1..i + 1], texts[i + 1..])
              else groups + BatchesFrom(g, texts[i + 1..])
  {
    var g := texts[first..i + 1];
    FlattenNext(g, |g| - 1);
    assert g[..|g| - 1] == texts[first..i] && g[|g| - 1] == texts[i];
    assert g[..|g|] == g && g == texts[first..i] + [texts[i]];
    assert texts[i..][1..] == texts[i + 1..] && texts[i + 1..i + 1] == [];
    assert groups + ([g] + BatchesFrom([], texts[i + 1..])) == groups + [g] + BatchesFrom([], texts[i + 1..]);
  }

  lemma ClosedBytes(before: seq<Byte>, texts: seq<seq<Byte>>, first: nat, i: nat)
    requires first <= i <= |texts|
    ensures before + Flatten(texts[first..i]) + Flatten(texts[i..]) == before + Flatten(texts[first..])
  {
    FlattenAppend(texts[first..i], texts[i..]);
    assert texts[first..] == texts[first..i] + texts[i..];
  }

  ghost predicate Outside(q: seq<NativeByteBuffer>, known: set<object>) {
    forall k :: 0 <= k < |q| ==> q[k] !in known && q[k].bytes !in known
  }

  ghost predicate Apart(a: seq<NativeByteBuffer>, b: seq<NativeByteBuffer>) {
    forall i, k :: 0 <= i < |a| && 0 <= k < |b| ==> a[i] != b[k]
  }

  lemma QueuedNext(q: seq<NativeByteBuffer>, start: nat, b: NativeByteBuffer, groups: seq<seq<seq<Byte>>>, open: seq<seq<Byte>>)
    requires start <= |q| && Queued(q[start..], groups)
    requires b.Valid() && b.position == 0 && b.Remaining() == Flatten(open)
    ensures (q + [b])[start..] == q[start..] + [b] && Queued((q + [b])[start..], groups + [open])
  {
  }

  /** Fills one new buffer with a batch and queues it. */
  method QueueBatch(group: seq<NativeByteBuffer>, size: nat, out: ByteStream, ghost known: set<object>, ghost start: nat,
                    ghost open: seq<seq<Byte>>, ghost groups: seq<seq<seq<Byte>>>)
    requires Printed(group, open) && size == |Flatten(open)| && out.Valid() && start <= |out.buffersQueue|
    requires Queued(out.buffersQueue[start..], groups) && Apart(group, out.buffersQueue)
    requires Outside(out.buffersQueue[start..], known)
    modifies group`position, out
    ensures out.Valid() && |out.buffersQueue| == old(|out.buffersQueue|) + 1 && old(out.buffersQueue) <= out.buffersQueue
    ensures fresh(out.buffersQueue[|old(out.buffersQueue)|]) && Outside(out.buffersQueue[start..], known)
    ensures Queued(out.buffersQueue[start..], groups + [open])
    ensures out.Contents() == old(out.Contents()) + Flatten(open)
  {
    ghost var q := out.buffersQueue;
    var sendBuffer := FillBatch(group, size, open);
    assert out.buffersQueue == q && out.Valid() && Queued(q[start..], groups) && out.Contents() == old(out.Contents());
    out.Append(sendBuffer);
    assert out.buffersQueue == q + [sendBuffer];
    QueuedNext(q, start, sendBuffer, groups, open);
  }

  /** Closes the batch of messages `first` to `end`: what they say has moved into the stream. */
  method Close(messages: seq<NativeByteBuffer>, out: ByteStream, first: nat, end: nat, size: nat,
               ghost texts: seq<seq<Byte>>, ghost known: set<object>, ghost start: nat, ghost groups: seq<seq<seq<Byte>>>)
    requires Printed(messages, texts) && first <= end <= |messages| && size == |Flatten(texts[first..end])|
    requires out.Valid() && start <= |out.buffersQueue| && Apart(messages, out.buffersQueue)
    requires Queued(out.buffersQueue[start..], groups) && Outside(out.buffersQueue[start..], known)
    modifies messages`position, out
    ensures Printed(messages, texts) && Apart(messages, out.buffersQueue)
    ensures out.Valid() && old(out.buffersQueue) <= out.buffersQueue && Outside(out.buffersQueue[start..], known)
    ensures Queued(out.buffersQueue[start..], groups + [texts[first..end]])
    ensures out.Contents() + Flatten(texts[end..]) == old(out.Contents()) + Flatten(texts[first..])
  {
    ClosedBytes(out.Contents(), texts, first, end);
    QueueBatch(messages[first..end], size, out, known, start, texts[first..end], groups);
  }

  /** Messages before `first` are queued in closed batches, those from `first` to `i` are in the open one. */
  ghost predicate Batching(messages: seq<NativeByteBuffer>, texts: seq<seq<Byte>>, q: seq<NativeByteBuffer>,
                           plan: seq<seq<seq<Byte>>>, groups: seq<seq<seq<Byte>>>, first: nat, i: nat)
    reads messages, set b | b in messages :: b.bytes, q, set b | b in q :: b.bytes
  {
    && first <= i <= |messages| && Printed(messages, texts)
    && Queued(q, groups)
    && plan == groups + BatchesFrom(texts[first..i], texts[i..])
    && (i == |messages| ==> first == i)
  }

  /** One turn of the loop of `sendMessageToConnection`. */
  method TakeMessage(messages: seq<NativeByteBuffer>, out: ByteStream, first: nat, i: nat, currentSize: nat,
                     ghost texts: seq<seq<Byte>>, ghost known: set<object>, ghost start: nat,
                     ghost plan: seq<seq<seq<Byte>>>, ghost groups: seq<seq<seq<Byte>>>)
    returns (next: nat, size: nat, ghost closed: seq<seq<seq<Byte>>>)
    requires out.Valid() && start <= |out.buffersQueue| && Apart(messages, out.buffersQueue) && i < |messages|
    requires Outside(out.buffersQueue[start..], known)
    requires Batching(messages, texts, out.buffersQueue[start..], plan, groups, first, i)
    requires currentSize == |Flatten(texts[first..i])|
    modifies messages`position, out
    ensures out.Valid() && Apart(messages, out.buffersQueue)
    ensures start <= |out.buffersQueue| && out.buffersQueue[..start] == old(out.buffersQueue[..start])
    ensures Outside(out.buffersQueue[start..], known)
    ensures Batching(messages, texts, out.buffersQueue[start..], plan, closed, next, i + 1)
    ensures size == |Flatten(texts[next..i + 1])|
    ensures out.Contents() + Flatten(texts[next..]) == old(out.Contents()) + Flatten(texts[first..])
  {
    next, size, closed := first, currentSize + messages[i].limit, groups;
    NextMessage(groups, texts, first, i);
    if size >= MAX_SINGLE_PACK_SIZE || i == |messages| - 1 {
      Close(messages, out, first, i + 1, size, texts, known, start, groups);
      next, size, closed := i + 1, 0, groups + [texts[first..i + 1]];
      assert texts[i + 1..i + 1] == [];
      assert Batching(messages, texts, out.buffersQueue[start..], plan, closed, next, i + 1);
    }
  }

  /**
   * The stream to be sent grows by exactly the messages, in order; they travel in the
   * batches `BatchesFrom` cuts, each in a buffer that is none of those already `known`.
   */
  method SendMessages(messages: seq<NativeByteBuffer>, out: ByteStream, ghost texts: seq<seq<Byte>>, ghost known: set<object>)
    requires Printed(messages, texts) && out.Valid() && Apart(messages, out.buffersQueue)
    modifies messages`position, out
    ensures Printed(messages, texts) && out.Valid()
    ensures old(out.buffersQueue) <= out.buffersQueue
    ensures Queued(out.buffersQueue[|old(out.buffersQueue)|..], BatchesFrom([], texts))
    ensures Outside(out.buffersQueue[|old(out.buffersQueue)|..], known)
    ensures out.Contents() == old(out.Contents()) + Flatten(texts)
  {
    ghost var before, plan, goal := out.buffersQueue, BatchesFrom([], texts), out.Contents() + Flatten(texts);
    NothingTaken(texts, plan);
    assert before[..|before|] == before && before[|before|..] == [];
    ghost var groups, first, size := SendLoop(messages, out, texts, known, before, plan, goal);
    AllTaken(texts, groups);
  }

  /**
   * The state of the loop before message `i`: what was queued before is still there, and
   * the bytes to come complete `goal`. Written `Going(..) == true` it is handed on whole:
   * the verifier does not take it apart and prove its parts again at every turn.
   */
  ghost predicate Going(messages: seq<NativeByteBuffer>, out: ByteStream, texts: seq<seq<Byte>>,
                        known: set<object>, before: seq<NativeByteBuffer>, plan: seq<seq<seq<Byte>>>, goal: seq<Byte>,
                        groups: seq<seq<seq<Byte>>>, first: nat, i: nat, currentSize: nat)
    reads *
  {
    && out.Valid() && Apart(messages, out.buffersQueue) && i <= |messages|
    && |before| <= |out.buffersQueue| && out.buffersQueue[..|before|] == before
    && Outside(out.buffersQueue[|before|..], known)
    && Batching(messages, texts, out.buffersQueue[|before|..], plan, groups, first, i)
    && currentSize == |Flatten(texts[first..i])|
    && out.Contents() + Flatten(texts[first..]) == goal
  }

  method Turn(messages: seq<NativeByteBuffer>, out: ByteStream, ghost texts: seq<seq<Byte>>,
              ghost known: set<object>, ghost before: seq<NativeByteBuffer>, ghost plan: seq<seq<seq<Byte>>>, ghost goal: seq<Byte>,
              ghost groups: seq<seq<seq<Byte>>>, first: nat, i: nat, currentSize: nat)
    returns (next: nat, size: nat, ghost closed: seq<seq<seq<Byte>>>)
    requires i < |messages|
    requires Going(messages, out, texts, known, before, plan, goal, groups, first, i, currentSize) == true
    modifies messages`position, out
    ensures Going(messages, out, texts, known, before, plan, goal, closed, next, i + 1, size)
  {
    next, size, closed := TakeMessage(messages, out, first, i, currentSize, texts, known, |before|, plan, groups);
  }

  /** The loop of `sendMessageToConnection`. */
  method SendLoop(messages: seq<NativeByteBuffer>, out: ByteStream, ghost texts: seq<seq<Byte>>,
                  ghost known: set<object>, ghost before: seq<NativeByteBuffer>, ghost plan: seq<seq<seq<Byte>>>, ghost goal: seq<Byte>)
    returns (ghost groups: seq<seq<seq<Byte>>>, ghost first: nat, ghost size: nat)
    requires Going(messages, out, texts, known, before, plan, goal, [], 0, 0, 0)
    modifies messages`position, out
    ensures Going(messages, out, texts, known, before, plan, goal, groups, first, |messages|, size) == true
  {
    var i, begin: nat, currentSize := 0, 0, 0;
    groups := [];
    while i < |messages|
      invariant i <= |messages|
      invariant Going(messages, out, texts, known, before, plan, goal, groups, begin, i, currentSize) == true
    {
      begin, currentSize, groups := Turn(messages, out, texts, known, before, plan, goal, groups, begin, i, currentSize);
      i := i + 1;
    }
    first, size := begin, currentSize;
  }

  lemma NothingTaken(texts: seq<seq<Byte>>, plan: seq<seq<seq<Byte>>>)
    requires plan == BatchesFrom([], texts)
    ensures texts[0..] == texts && texts[0..0] == [] && plan == [] + BatchesFrom(texts[0..0], texts[0..])
  {
    assert texts[0..] == texts;
  }

  lemma AllTaken(texts: seq<seq<Byte>>, groups: seq<seq<seq<Byte>>>)
    ensures var n := |texts|;
            Flatten(texts[n..]) == [] && groups + BatchesFrom(texts[n..n], texts[n..]) == groups
  {
    assert texts[|texts|..] == [];
  }
}
