/** One direction of the long link from end to end, at the level of bytes and events. */
module Links {
  import opened Bytes
  import opened Wire

  /**
   * `queued` is the sender's `ByteStream`, `flight` is on its way, `carry` and
   * `delivered` are the receiver's. The class `Channel` takes these steps by running
   * the code of both sides.
   */
  datatype Link = Link(sent: seq<Message>, queued: seq<Byte>, flight: seq<Byte>,
                       carry: seq<Byte>, delivered: seq<Packet>, open: bool)

  /** Sending queues the bytes the messages were serialised to. */
  datatype Event = Send(messages: seq<Message>, text: seq<Byte>) | Drain(count: nat) | Arrive(count: nat)

  const Idle: Link := Link([], [], [], [], [], true)

  function Step(l: Link, e: Event): Link {
    match e
    case Send(ms, text) => l.(sent := l.sent + ms, queued := l.queued + text)
    case Drain(count) =>
      var n := Least(count, |l.queued|);
      l.(queued := l.queued[n..], flight := l.flight + l.queued[..n])
    case Arrive(count) =>
      if !l.open then l
      else
        var n := Least(count, |l.flight|);
        var p := After(l.delivered, l.carry + l.flight[..n]);
        l.(flight := l.flight[n..], carry := if p.ok then p.rest else [], delivered := p.packets, open := p.ok)
  }

  function Run(l: Link, events: seq<Event>): Link
    decreases |events|
  {
    if events == [] then l else Step(Run(l, events[..|events| - 1]), events[|events| - 1])
  }

  function SentIn(events: seq<Event>): seq<Message>
    decreases |events|
  {
    if events == [] then []
    else
      var before := SentIn(events[..|events| - 1]);
      if events[|events| - 1].Send? then before + events[|events| - 1].messages else before
  }

  /** No byte is lost, doubled or reordered: what was printed is what was seen, then what flies, then what waits. */
  ghost predicate Conserved(l: Link, seen: seq<Byte>) {
    && l.open
    && EncodeAll(l.sent) == seen + (l.flight + l.queued)
    && ParseStream(seen) == Parsed(l.delivered, l.carry, true)
  }

  /** Messages that fit are serialised to their printed form. */
  ghost predicate Honest(events: seq<Event>) {
    forall e :: e in events && e.Send? && AllFit(e.messages) ==> e.text == EncodeAll(e.messages)
  }

  lemma SendKeeps(l: Link, ms: seq<Message>, seen: seq<Byte>)
    requires Conserved(l, seen)
    ensures Conserved(Step(l, Send(ms, EncodeAll(ms))), seen)
  {
    FlatMapAppend(Encode, l.sent, ms);
    Regroup(seen, l.flight, l.queued, EncodeAll(ms));
  }

  lemma Regroup(a: seq<Byte>, b: seq<Byte>, c: seq<Byte>, d: seq<Byte>)
    ensures a + (b + c) + d == a + (b + (c + d))
  {
  }

  lemma DrainKeeps(l: Link, count: nat, seen: seq<Byte>)
    requires Conserved(l, seen)
    ensures Conserved(Step(l, Drain(count)), seen)
  {
    var n := Least(count, |l.queued|);
    assert l.flight + l.queued == l.flight + l.queued[..n] + l.queued[n..];
  }

  lemma ArriveKeeps(l: Link, count: nat, seen: seq<Byte>)
    requires Conserved(l, seen) && AllFit(l.sent)
    ensures Conserved(Step(l, Arrive(count)), seen + l.flight[..Least(count, |l.flight|)])
  {
    var n := Least(count, |l.flight|);
    var chunk := l.flight[..n];
    var rest := l.flight[n..] + l.queued;
    assert seen + (l.flight + l.queued) == seen + chunk + rest;
    ParseAppend(seen, chunk);
    ParsePrefix(l.sent, seen + chunk, rest);
  }

  lemma PartFits(a: seq<Message>, b: seq<Message>)
    requires AllFit(a + b)
    ensures AllFit(b)
  {
    assert forall k | 0 <= k < |b| :: (a + b)[|a| + k] == b[k];
  }

  lemma {:induction false} RunConserves(events: seq<Event>) returns (seen: seq<Byte>)
    requires AllFit(SentIn(events)) && Honest(events)
    ensures Conserved(Run(Idle, events), seen) && Run(Idle, events).sent == SentIn(events)
    decreases |events|
  {
    if events == [] {
      seen := [];
    } else {
      var before, e := events[..|events| - 1], events[|events| - 1];
      assert AllFit(SentIn(before)) by {
        assert SentIn(before) <= SentIn(events);
      }
      seen := RunConserves(before);
      var l := Run(Idle, before);
      match e {
        case Send(ms, text) =>
          assert SentIn(events) == SentIn(before) + ms;
          PartFits(SentIn(before), ms);
          assert e in events;
          SendKeeps(l, ms, seen);
        case Drain(count) => DrainKeeps(l, count, seen);
        case Arrive(count) =>
          ArriveKeeps(l, count, seen);
          seen := seen + l.flight[..Least(count, |l.flight|)];
      }
    }
  }

  /**
   * In every run, however sends, partial drains and arrivals interleave, the receiver
   * never drops the connection and has delivered a prefix of the messages sent, in
   * order; once nothing waits or flies it has delivered all of them.
   */
  lemma EndToEnd(events: seq<Event>)
    requires AllFit(SentIn(events)) && Honest(events)
    ensures var l := Run(Idle, events);
            && l.open
            && l.delivered <= ReceivedAll(SentIn(events))
            && (l.queued == [] && l.flight == [] ==> l.delivered == ReceivedAll(SentIn(events)) && l.carry == [])
  {
    var seen := RunConserves(events);
    var l := Run(Idle, events);
    ParsePrefix(l.sent, seen, l.flight + l.queued);
  }
}
