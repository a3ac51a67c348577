/** One direction of the long link as the code runs it, from the messages of the sender to the packets of the receiver. */
module Channels {
  import opened Bytes
  import opened Wire
  import opened ByteBuffers
  import opened ByteStreams
  import opened NetworkMessages
  import opened TcpConnections
  import opened Links

  /** A new buffer that holds `body`, ready to be read. */
  method BodyBuffer(body: seq<Byte>) returns (buffer: NativeByteBuffer)
    ensures fresh(buffer) && fresh(buffer.bytes) && buffer.Valid()
    ensures buffer.limit == |body| && buffer.Remaining() == body
  {
    buffer := new NativeByteBuffer(|body|);
    forall k | 0 <= k < |body| {
      buffer.bytes[k] := body[k];
    }
  }

  /** What a message is serialised to: its printed form, if the 16-bit length is true. */
  ghost predicate SerialisedTo(m: Message, text: seq<Byte>) {
    |text| == NetworkMessage.PackLength(|m.body|) && (|m.body| <= MAX_BODY ==> text == Encode(m))
  }

  ghost predicate AllSerialisedTo(ms: seq<Message>, texts: seq<seq<Byte>>) {
    |texts| == |ms| && forall k | 0 <= k < |ms| :: SerialisedTo(ms[k], texts[k])
  }

  lemma TrueLength(n: nat)
    requires n <= MAX_BODY
    ensures NetworkMessage.PackLength(n) == HEADER_LENGTH + n
  {
  }

  lemma PrintedTrue(text: seq<Byte>, m: Message)
    requires NetworkMessage.Prints(text, m) && |text| == NetworkMessage.PackLength(|m.body|)
    ensures SerialisedTo(m, text)
  {
    if |m.body| <= MAX_BODY { TrueLength(|m.body|); }
  }

  method Print(m: Message) returns (out: NativeByteBuffer)
    ensures fresh(out) && fresh(out.bytes)
    ensures out.limit <= out.bytes.Length && SerialisedTo(m, out.bytes[..out.limit])
  {
    var body := BodyBuffer(m.body);
    var message := new NetworkMessage(body, m.cmd, m.seqNo);
    message.SerializeToBuffer(body, m.uin);
    out := message.outgoingBody;
    PrintedTrue(out.bytes[..out.limit], m);
  }

  /** The buffers of a list of messages, each with one of its own. */
  method PrintAll(ms: seq<Message>) returns (bodies: seq<NativeByteBuffer>, ghost texts: seq<seq<Byte>>)
    ensures Printed(bodies, texts) && AllSerialisedTo(ms, texts)
    ensures forall k :: 0 <= k < |bodies| ==> fresh(bodies[k]) && fresh(bodies[k].bytes)
  {
    bodies, texts := [], [];
    var i := 0;
    while i < |ms|
      invariant i <= |ms| && Printed(bodies, texts) && AllSerialisedTo(ms[..i], texts)
      invariant forall k :: 0 <= k < |bodies| ==> fresh(bodies[k]) && fresh(bodies[k].bytes)
    {
      var out := Print(ms[i]);
      bodies, texts := bodies + [out], texts + [out.bytes[..out.limit]];
      assert ms[..i + 1] == ms[..i] + [ms[i]];
      i := i + 1;
    }
    assert ms[..i] == ms;
  }

  /** Of messages that all fit the bytes are the printed list. */
  lemma {:induction false} AllPrinted(ms: seq<Message>, texts: seq<seq<Byte>>)
    requires AllSerialisedTo(ms, texts) && AllFit(ms)
    ensures Flatten(texts) == EncodeAll(ms)
  {
    if ms != [] {
      assert SerialisedTo(ms[0], texts[0]);
      AllPrinted(ms[1..], texts[1..]);
    }
  }

  /** Serialised, batched and queued, the messages are what they were serialised to. */
  method QueueAll(ms: seq<Message>, out: ByteStream, ghost known: set<object>) returns (ghost texts: seq<seq<Byte>>)
    requires out.Valid() && Outside(out.buffersQueue, known)
    modifies out
    ensures AllSerialisedTo(ms, texts)
    ensures out.Valid() && out.Contents() == old(out.Contents()) + Flatten(texts)
    ensures Outside(out.buffersQueue, known)
  {
    ghost var queue := out.buffersQueue;
    var bodies;
    bodies, texts := PrintAll(ms);
    SendMessages(bodies, out, texts, known);
    AlsoOutside(queue, out.buffersQueue, known);
  }

  lemma AlsoOutside(q: seq<NativeByteBuffer>, r: seq<NativeByteBuffer>, known: set<object>)
    requires q <= r && Outside(q, known) && Outside(r[|q|..], known)
    ensures Outside(r, known)
  {
    forall k | 0 <= k < |r| ensures r[k] !in known && r[k].bytes !in known {
      if k >= |q| { assert r[k] == r[|q|..][k - |q|]; }
    }
  }

  lemma StillOutside(q: seq<NativeByteBuffer>, n: nat, known: set<object>)
    requires Outside(q, known) && n <= |q|
    ensures Outside(q[n..], known)
  {
  }

  /** What a socket that accepts some bytes takes from the front of the stream. */
  method DrainSome(out: ByteStream, net: NativeByteBuffer, accepted: nat, ghost known: set<object>, ghost other: TcpConnection)
    returns (bytes: seq<Byte>)
    requires out.Valid() && net.Valid() && {net, net.bytes} <= known && Outside(out.buffersQueue, known)
    requires other.Valid() && other.Repr() <= known - {net, net.bytes}
    modifies out, out.buffersQueue, net, net.bytes
    ensures out.Valid() && net.Valid() && Outside(out.buffersQueue, known)
    ensures other.Valid() && other.Pending() == old(other.Pending())
    ensures var n := Least(accepted, Least(|old(out.Contents())|, net.bytes.Length));
            bytes == old(out.Contents())[..n] && out.Contents() == old(out.Contents())[n..]
  {
    ghost var all, queue := out.Contents(), out.buffersQueue;
    ghost var given;
    bytes, given := out.OnWritable(net, accepted);
    assert out.buffersQueue == queue[|given|..];
    StillOutside(queue, |given|, known);
    assert bytes == all[..|bytes|] && out.Contents() == all[|bytes|..];
  }

  lemma Drained(l: Link, n: nat)
    requires n <= |l.queued|
    ensures Step(l, Drain(n)) == l.(queued := l.queued[n..], flight := l.flight + l.queued[..n])
  {
  }

  /**
   * Both sides and what is between them. Every message has a buffer of its own until it is
   * copied into its batch, as the messages of requests that want an ack have;
   * `PooledMessages` says which others do.
   */
  class Channel {
    const outgoing: ByteStream
    const outNet: NativeByteBuffer
    const receiver: TcpConnection
    const inNet: NativeByteBuffer
    /** What the socket has taken and not yet handed to the other side. */
    var flight: seq<Byte>
    ghost var sent: seq<Message>
    ghost var history: seq<Event>

    /** What the queue of the sender must not share. */
    ghost function Others(): set<object>
      reads receiver
    {
      {outNet, outNet.bytes, inNet, inNet.bytes} + receiver.Repr()
    }

    /** The two sides share nothing but the bytes in flight. */
    ghost predicate Separate()
      reads outgoing, receiver
    {
      && outNet != inNet && outNet.bytes != inNet.bytes
      && Outside(outgoing.buffersQueue, Others())
      && {outNet, outNet.bytes, inNet, inNet.bytes} !! receiver.Repr()
    }

    ghost predicate Ready()
      reads outgoing, outgoing.buffersQueue, outNet, inNet, receiver, receiver.Repr()
    {
      outgoing.Valid() && outNet.Valid() && inNet.Valid() && receiver.Valid() && Separate()
    }

    ghost function View(): Link
      reads this, outgoing, outgoing.buffersQueue, set b | b in outgoing.buffersQueue :: b.bytes
      reads outNet, inNet, receiver, receiver.Repr()
      requires Ready()
    {
      Link(sent, outgoing.Contents(), flight, receiver.Pending(), receiver.delivered, receiver.open)
    }

    /** The object is where the machine is after the steps taken so far. */
    ghost predicate Valid()
      reads this, outgoing, outgoing.buffersQueue, set b | b in outgoing.buffersQueue :: b.bytes
      reads outNet, inNet, receiver, receiver.Repr()
    {
      Ready() && View() == Run(Idle, history) && Honest(history)
    }

    constructor (size: nat)
      ensures Valid() && history == [] && fresh(this)
    {
      outgoing := new ByteStream();
      outNet := new NativeByteBuffer(size);
      receiver := new TcpConnection();
      inNet := new NativeByteBuffer(size);
      flight, sent, history := [], [], [];
    }

    lemma Extended(e: Event)
      ensures Run(Idle, history + [e]) == Step(Run(Idle, history), e)
      ensures SentIn(history + [e]) == SentIn(history) + if e.Send? then e.messages else []
    {
      assert (history + [e])[..|history|] == history;
    }

    /** The messages are serialised, batched and queued. */
    method SendNow(ms: seq<Message>) returns (ghost text: seq<Byte>)
      requires Ready()
      modifies this`sent, outgoing
      ensures AllFit(ms) ==> text == EncodeAll(ms)
      ensures Ready() && View() == Step(old(View()), Send(ms, text))
    {
      ghost var texts := QueueAll(ms, outgoing, Others());
      if AllFit(ms) { AllPrinted(ms, texts); }
      text := Flatten(texts);
      sent := sent + ms;
    }

    /** The sender's side of it. */
    method TakeBytes(accepted: nat) returns (bytes: seq<Byte>)
      requires Ready()
      modifies outgoing, outgoing.buffersQueue, outNet, outNet.bytes
      ensures Ready() && receiver.Pending() == old(receiver.Pending())
      ensures var all, n := old(outgoing.Contents()), Least(accepted, Least(|old(outgoing.Contents())|, outNet.bytes.Length));
              bytes == all[..n] && outgoing.Contents() == all[n..]
    {
      assert inNet !in outgoing.buffersQueue;
      bytes := DrainSome(outgoing, outNet, accepted, Others(), receiver);
    }

    method SetFlight(bytes: seq<Byte>)
      requires Ready()
      modifies this`flight
      ensures Ready() && View() == old(View()).(flight := bytes)
    {
      flight := bytes;
    }

    /** The socket is writable and takes `accepted` bytes, or as many as the network buffer offers it. */
    method DrainNow(accepted: nat) returns (taken: nat)
      requires Ready()
      modifies this`flight, outgoing, outgoing.buffersQueue, outNet, outNet.bytes
      ensures taken == Least(accepted, Least(|old(outgoing.Contents())|, outNet.bytes.Length))
      ensures Ready() && View() == Step(old(View()), Drain(taken))
    {
      ghost var l := View();
      var bytes := TakeBytes(accepted);
      taken := |bytes|;
      Drained(l, taken);
      SetFlight(flight + bytes);
    }

    /** The other side reads at most a network buffer full of what is in flight, if it is still connected. */
    method ArriveNow(count: nat)
      requires Ready() && count <= inNet.bytes.Length
      modifies this`flight, receiver, receiver.Repr(), inNet, inNet.bytes
      ensures Ready() && View() == Step(old(View()), Arrive(count))
    {
      if receiver.open {
        var n := Least(count, |flight|);
        var chunk := flight[..n];
        SetFlight(flight[n..]);
        HandOn(chunk);
      }
    }

    /** The receiver's side of it. */
    method HandOn(chunk: seq<Byte>)
      requires Ready() && receiver.open && |chunk| <= inNet.bytes.Length
      modifies receiver, receiver.Repr(), inNet, inNet.bytes
      ensures Ready() && outgoing.Contents() == old(outgoing.Contents())
      ensures receiver.Reached(After(old(receiver.delivered), old(receiver.Pending()) + chunk))
    {
      receiver.ReceiveOne(inNet, chunk);
      assert Separate();
    }

    /** The step just taken goes into the history. */
    ghost method Record(l: Link, e: Event)
      requires Ready() && l == Run(Idle, history) && View() == Step(l, e)
      requires Honest(history) && (e.Send? && AllFit(e.messages) ==> e.text == EncodeAll(e.messages))
      modifies this`history
      ensures Valid() && history == old(history) + [e]
    {
      ghost var h := history;
      Extended(e);
      ghost var now := View();
      history := h + [e];
      assert View() == now;
    }

    method SendAll(ms: seq<Message>) returns (ghost text: seq<Byte>)
      requires Valid()
      modifies this, outgoing
      ensures Valid() && history == old(history) + [Send(ms, text)]
    {
      ghost var l := View();
      text := SendNow(ms);
      Record(l, Send(ms, text));
    }

    method Writable(accepted: nat)
      requires Valid()
      modifies this, outgoing, outgoing.buffersQueue, outNet, outNet.bytes
      ensures Valid()
      ensures history == old(history) + [Drain(Least(accepted, Least(|old(outgoing.Contents())|, outNet.bytes.Length)))]
    {
      ghost var l := View();
      var taken := DrainNow(accepted);
      Record(l, Drain(taken));
    }

    method Readable(count: nat)
      requires Valid() && count <= inNet.bytes.Length
      modifies this, receiver, receiver.Repr(), inNet, inNet.bytes
      ensures Valid() && history == old(history) + [Arrive(count)]
    {
      ghost var l := View();
      ArriveNow(count);
      Record(l, Arrive(count));
    }

    /** In every state it can be in, if all messages fitted, the receiver is connected and has the first of them, in order. */
    lemma Delivers()
      requires Valid() && AllFit(SentIn(history))
      ensures receiver.open && sent == SentIn(history) && receiver.delivered <= ReceivedAll(sent)
      ensures flight == [] && outgoing.Contents() == [] ==> receiver.delivered == ReceivedAll(sent) && receiver.Pending() == []
    {
      var seen := RunConserves(history);
      EndToEnd(history);
    }
  }
}
