/** What becomes of the messages one pass over the requests makes: which socket gets them, and how often. */
module RequestSendings {
  import opened RequestLifecycle
  import opened RequestInvariants

  // ---- during the two loops ----

  /** Since `before` the log has no writings, and messages were made for `token` only. */
  ghost predicate Grown(before: seq<Entry>, log: seq<Entry>, token: nat) {
    && |before| <= |log| && log[..|before|] == before
    && forall k | |before| <= k < |log| :: !log[k].Written? && (log[k].Enqueued? ==> log[k].token == token)
  }

  lemma GrownAppend(before: seq<Entry>, log: seq<Entry>, token: nat, e: Entry)
    requires Grown(before, log, token) && !e.Written? && (e.Enqueued? ==> e.token == token)
    ensures Grown(before, log + [e], token)
  {
    assert (log + [e])[..|before|] == log[..|before|];
  }

  /** A state inside the loops: the connection is the one they began with. */
  ghost predicate Passing(before: seq<Entry>, token: nat, s: State) {
    Live(s) && !s.handshake.HandshakeIdle? && s.token == token && Grown(before, s.log, token)
  }

  lemma ConnectPasses(before: seq<Entry>, token: nat, s: State, opens: bool)
    requires Passing(before, token, s)
    ensures Passing(before, token, Connect(s, opens))
  {
    ConnectKeeps(s, opens);
    GrownAppend(before, s.log, token, ConnectionClosed);
  }

  lemma HandleRunningGrows(before: seq<Entry>, s: State, i: nat, now: int)
    requires Grown(before, s.log, s.token) && i < |s.running|
    ensures var t := HandleRunning(s, i, now).0;
            Grown(before, t.log, s.token) && t.token == s.token && t.handshake == s.handshake
  {
    var r := s.running[i];
    GrownAppend(before, s.log, s.token, Enqueued(r.id, s.token, !r.flags.withoutLogin));
    GrownAppend(before, s.log, s.token, Completed(r.id, ConnectFail));
    GrownAppend(before, s.log, s.token, Completed(r.id, RequestTimeout));
    GrownAppend(before, s.log, s.token, Completed(r.id, RequestRetryLimit));
  }

  lemma HandleRunningPasses(before: seq<Entry>, token: nat, s: State, i: nat, now: int)
    requires Passing(before, token, s) && i < |s.running|
    ensures Passing(before, token, HandleRunning(s, i, now).0)
  {
    HandleRunningKeeps(s, i, now);
    HandleRunningGrows(before, s, i, now);
  }

  lemma HandleQueuedGrows(before: seq<Entry>, s: State, i: nat, later: int)
    requires Grown(before, s.log, s.token) && i < |s.queue|
    ensures var t := HandleQueued(s, i, later);
            Grown(before, t.log, s.token) && t.token == s.token && t.handshake == s.handshake
  {
    var r := s.queue[i];
    var e := Enqueued(r.id, s.token, !r.flags.withoutLogin);
    GrownAppend(before, s.log, s.token, e);
    GrownAppend(before, s.log + [e], s.token, Completed(r.id, Done));
    GrownAppend(before, s.log, s.token, Completed(r.id, WithoutConnection));
    GrownAppend(before, s.log, s.token, Completed(r.id, WithoutLogin));
  }

  lemma HandleQueuedPasses(before: seq<Entry>, token: nat, s: State, i: nat, later: int)
    requires Passing(before, token, s) && i < |s.queue|
    ensures Passing(before, token, HandleQueued(s, i, later))
  {
    HandleQueuedKeeps(s, i, later);
    HandleQueuedGrows(before, s, i, later);
  }

  lemma PassesPass(s: State, w: World)
    requires Live(s) && !s.handshake.HandshakeIdle?
    ensures var t := RunningPass(s, 0, w, 0);
            Passing(s.log, s.token, t) && Passing(s.log, s.token, QueuePass(t, 0, w, |s.running|))
  {
    var before, token := s.log, s.token;
    var P := (t: State) => Passing(before, token, t);
    forall t: State, opens | P(t) ensures P(Connect(t, opens)) {
      ConnectPasses(before, token, t, opens);
    }
    forall t: State, i, now | P(t) && 0 <= i < |t.running| ensures P(HandleRunning(t, i, now).0) {
      HandleRunningPasses(before, token, t, i, now);
    }
    forall t: State, i, later | P(t) && 0 <= i < |t.queue| && !t.handshake.HandshakeIdle?
      ensures P(HandleQueued(t, i, later))
    {
      HandleQueuedPasses(before, token, t, i, later);
    }
    assert s.log[..|s.log|] == s.log;
    PassesKeep(P, s, w);
  }

  // ---- the messages they made ----

  lemma {:induction false} MadeConcat(a: seq<Entry>, b: seq<Entry>)
    ensures Made(a + b) == Made(a) + Made(b)
  {
    if a == [] {
      assert a + b == b;
    } else {
      var c := a + b;
      assert c[0] == a[0] && c[1..] == a[1..] + b;
      MadeConcat(a[1..], b);
      var first := if a[0].Enqueued? then [a[0].id] else [];
      assert Made(c) == first + (Made(a[1..]) + Made(b));
      assert Made(a) == first + Made(a[1..]);
    }
  }

  lemma {:induction false} MadeFrom(log: seq<Entry>, id: nat)
    requires id in Made(log)
    ensures exists k :: SendsOf(log, id, k)
  {
    if log[0].Enqueued? && log[0].id == id {
      assert SendsOf(log, id, 0);
    } else {
      MadeFrom(log[1..], id);
      var k :| SendsOf(log[1..], id, k);
      assert SendsOf(log, id, k + 1);
    }
  }

  lemma MadeOne(log: seq<Entry>, n: nat, id: nat, token: nat, needsLogin: bool)
    requires n <= |log| && log[n..] == [Enqueued(id, token, needsLogin)]
    ensures MadeSince(log, n) == [id]
  {
    assert log[n..][1..] == [] && Made([]) == [];
  }

  ghost predicate Distinct(ids: seq<nat>) {
    forall i, j | 0 <= i < j < |ids| :: ids[i] != ids[j]
  }

  lemma {:induction false} MadeDistinct(log: seq<Entry>)
    requires forall id, i, j :: SendsOf(log, id, i) && SendsOf(log, id, j) ==> i == j
    ensures Distinct(Made(log))
  {
    if log != [] {
      var rest := log[1..];
      forall id, i, j | SendsOf(rest, id, i) && SendsOf(rest, id, j) ensures i == j {
        assert SendsOf(log, id, i + 1) && SendsOf(log, id, j + 1);
      }
      MadeDistinct(rest);
      if log[0].Enqueued? && log[0].id in Made(rest) {
        MadeFrom(rest, log[0].id);
        var k :| SendsOf(rest, log[0].id, k);
        assert SendsOf(log, log[0].id, 0) && SendsOf(log, log[0].id, k + 1);
      }
    }
  }

  /** A request has not yet been written to a newer socket than `newest`, nor to that one with `token`. */
  ghost predicate Unwritten(log: seq<Entry>, id: nat, newest: nat, token: nat) {
    forall k :: WritesAt(log, k) && log[k].id == id ==>
      log[k].socket <= newest && (log[k].socket == newest ==> log[k].token != token)
  }

  /** The request was made into a message for `token`. */
  ghost predicate MadeFor(log: seq<Entry>, id: nat, token: nat) {
    exists k :: SendsOf(log, id, k) && log[k].token == token
  }

  /**
   * A state inside the hand-over of messages, all made for `token` and for distinct
   * requests, none of which is written yet. While the socket is the one the hand-over
   * began with, its token is that of the messages; a newer one has none yet.
   */
  ghost predicate Handing(s: State, messages: seq<nat>, newest: nat, token: nat) {
    && Distinct(messages)
    && (forall id :: id in messages ==> MadeFor(s.log, id, token) && Unwritten(s.log, id, newest, token))
    && s.socket >= newest && !s.handshake.HandshakeIdle?
    && (SocketOpen(s) ==> s.token == if s.socket == newest then token else 0)
  }

  /** A message made in this pass is not written yet: its request was never made into one for this token before. */
  lemma NewIsUnwritten(before: seq<Entry>, log: seq<Entry>, id: nat, j: nat, socket: nat, token: nat)
    requires History(log) && Grown(before, log, token) && |before| <= j && SendsOf(log, id, j)
    requires forall k :: WritesAt(log, k) ==> log[k].socket <= socket
    ensures Unwritten(log, id, socket, token)
  {
    AlwaysAllowed(log, j);
    forall k | WritesAt(log, k) && log[k].id == id && log[k].socket == socket ensures log[k].token != token {
      AlwaysAllowed(log, k);
      var i :| SendsOf(log[..k], id, i) && (log[k].token != 0 ==> log[..k][i].token == log[k].token);
      assert SendsOf(log[..j], id, i);
    }
  }

  /** No request is made into two messages in one pass. */
  lemma NewAreDistinct(before: seq<Entry>, log: seq<Entry>, token: nat, id: nat, i: nat, j: nat)
    requires History(log) && Grown(before, log, token) && |before| <= i && |before| <= j
    requires SendsOf(log, id, i) && SendsOf(log, id, j)
    ensures i == j
  {
    if i < j {
      AlwaysAllowed(log, j);
      assert SendsOf(log[..j], id, i);
    } else if j < i {
      AlwaysAllowed(log, i);
      assert SendsOf(log[..i], id, j);
    }
  }

  /** What the loops made is ready to be handed over. */
  lemma StartHanding(before: seq<Entry>, token: nat, u: State, c: State)
    requires Passing(before, token, u) && Passing(before, token, c) && u.log <= c.log
    ensures Handing(c, MadeSince(u.log, |before|), c.socket, token)
  {
    var recent, n := u.log[|before|..], |before|;
    forall id | id in Made(recent) ensures MadeFor(c.log, id, token) && Unwritten(c.log, id, c.socket, token) {
      MadeFrom(recent, id);
      var k :| SendsOf(recent, id, k);
      assert SendsOf(c.log, id, n + k) && c.log[n + k] == u.log[n + k];
      NewIsUnwritten(before, c.log, id, n + k, c.socket, token);
    }
    forall id, i, j | SendsOf(recent, id, i) && SendsOf(recent, id, j) ensures i == j {
      assert SendsOf(u.log, id, n + i) && SendsOf(u.log, id, n + j);
      NewAreDistinct(before, u.log, token, id, n + i, n + j);
    }
    MadeDistinct(recent);
  }

  // ---- handing over keeps the invariant ----

  lemma WrittenAllowed(s: State, id: nat, newest: nat, token: nat)
    requires Live(s) && SocketOpen(s) && Handing(s, [id], newest, token)
    ensures Allowed(s.log, Written(id, s.socket, s.token))
  {
    assert id in [id];
    var j :| SendsOf(s.log, id, j) && s.log[j].token == token;
  }

  lemma WrittenKeeps(s: State, id: nat, newest: nat, token: nat)
    requires Live(s) && SocketOpen(s) && Handing(s, [id], newest, token)
    ensures Live(s.(log := s.log + [Written(id, s.socket, s.token)]))
  {
    var w := Written(id, s.socket, s.token);
    WrittenAllowed(s, id, newest, token);
    DoneAppend(s.log, w);
    NoSendAppend(s.log, w);
    HistoryAppend(s.log, w);
    LoggedInAppend(s.log, w);
    assert forall k | WritesAt(s.log + [w], k) && k < |s.log| :: WritesAt(s.log, k);
  }

  /** Another entry about another request takes nothing from what is still to be written. */
  lemma OtherEntry(log: seq<Entry>, e: Entry, id: nat, newest: nat, token: nat)
    requires MadeFor(log, id, token) && Unwritten(log, id, newest, token) && !(e.Written? && e.id == id)
    ensures MadeFor(log + [e], id, token) && Unwritten(log + [e], id, newest, token)
  {
    var k :| SendsOf(log, id, k) && log[k].token == token;
    assert SendsOf(log + [e], id, k) && (log + [e])[k] == log[k];
    assert forall j | WritesAt(log + [e], j) && (log + [e])[j].id == id :: WritesAt(log, j) && (log + [e])[j] == log[j];
  }

  lemma WrittenHands(s: State, id: nat, rest: seq<nat>, newest: nat, token: nat)
    requires Handing(s, [id] + rest, newest, token)
    ensures Handing(s, [id], newest, token)
    ensures Handing(s.(log := s.log + [Written(id, s.socket, s.token)]), rest, newest, token)
  {
    var all := [id] + rest;
    assert all[0] == id && forall i | 0 <= i < |rest| :: all[i + 1] == rest[i];
    forall other | other in rest
      ensures MadeFor(s.log + [Written(id, s.socket, s.token)], other, token)
      ensures Unwritten(s.log + [Written(id, s.socket, s.token)], other, newest, token)
    {
      assert other in all;
      OtherEntry(s.log, Written(id, s.socket, s.token), other, newest, token);
    }
  }

  lemma {:induction false} WriteAllKeeps(s: State, batch: seq<nat>, rest: seq<nat>, newest: nat, token: nat)
    requires Live(s) && SocketOpen(s) && Handing(s, batch + rest, newest, token)
    ensures var t := WriteAll(s, batch);
            Live(t) && Handing(t, rest, newest, token) && t == s.(log := t.log)
    decreases |batch|
  {
    if batch == [] {
      assert batch + rest == rest;
    } else {
      assert batch + rest == [batch[0]] + (batch[1..] + rest);
      WrittenHands(s, batch[0], batch[1..] + rest, newest, token);
      WrittenKeeps(s, batch[0], newest, token);
      WriteAllKeeps(s.(log := s.log + [Written(batch[0], s.socket, s.token)]), batch[1..], rest, newest, token);
    }
  }

  /** The hand-over goes on after the connection was lost, or a new one was opened. */
  lemma HandingOn(s: State, t: State, messages: seq<nat>, newest: nat, token: nat)
    requires Handing(s, messages, newest, token)
    requires t.log == s.log || t.log == s.log + [ConnectionClosed]
    requires t.socket >= s.socket && !t.handshake.HandshakeIdle? && (SocketOpen(t) ==> t.socket > newest && t.token == 0)
    ensures Handing(t, messages, newest, token)
  {
    forall id | id in messages ensures MadeFor(t.log, id, token) && Unwritten(t.log, id, newest, token) {
      OtherEntry(s.log, ConnectionClosed, id, newest, token);
    }
  }

  lemma Rest(s: State, batch: seq<nat>, rest: seq<nat>, newest: nat, token: nat)
    requires Handing(s, batch + rest, newest, token)
    ensures Handing(s, rest, newest, token)
  {
    var all, n := batch + rest, |batch|;
    assert forall i | 0 <= i < |rest| :: rest[i] == all[n + i];
    assert forall id | id in rest :: id in all;
  }

  /** Without a socket the batch is dropped, and perhaps a new one opened. */
  lemma DroppedKeeps(s: State, rest: seq<nat>, opens: bool, newest: nat, token: nat)
    requires Live(s) && Handing(s, rest, newest, token) && !SocketOpen(s)
    ensures Live(Connect(s, opens)) && Handing(Connect(s, opens), rest, newest, token)
  {
    ConnectKeeps(s, opens);
    var t := Connect(s, opens);
    assert t.log == s.log || t.log == s.log + [ConnectionClosed];
    assert SocketOpen(t) ==> t.socket == s.socket + 1 && t.token == 0;
    HandingOn(s, t, rest, newest, token);
  }

  lemma LostKeeps(s: State, rest: seq<nat>, newest: nat, token: nat)
    requires Live(s) && Handing(s, rest, newest, token)
    ensures Live(OnDisconnected(s)) && Handing(OnDisconnected(s), rest, newest, token)
  {
    DisconnectedKeeps(s);
    var t := OnDisconnected(s);
    assert t.log == s.log + [ConnectionClosed] && !SocketOpen(t) && t.socket == s.socket && t.crashed == s.crashed;
    HandingOn(s, t, rest, newest, token);
  }

  lemma OpenSends(s: State, batch: seq<nat>, rest: seq<nat>, fails: bool, newest: nat, token: nat)
    requires Live(s) && SocketOpen(s) && Handing(s, batch + rest, newest, token)
    ensures var t := if fails then OnDisconnected(WriteAll(s, batch)) else WriteAll(s, batch);
            Live(t) && Handing(t, rest, newest, token)
  {
    WriteAllKeeps(s, batch, rest, newest, token);
    if fails {
      LostKeeps(WriteAll(s, batch), rest, newest, token);
    }
  }

  /** What holds of the outcome in each of its three cases holds of the outcome. */
  lemma SendDataFrom(P: State -> bool, s: State, batch: seq<nat>, opens: bool, fails: bool)
    requires if !SocketOpen(s) then P(Connect(s, opens))
             else if fails then P(OnDisconnected(WriteAll(s, batch))) else P(WriteAll(s, batch))
    ensures P(SendData(s, batch, opens, fails))
  {
  }

  lemma SendDataKeeps(s: State, batch: seq<nat>, rest: seq<nat>, opens: bool, fails: bool, newest: nat, token: nat)
    requires Live(s) && Handing(s, batch + rest, newest, token)
    ensures var t := SendData(s, batch, opens, fails); Live(t) && Handing(t, rest, newest, token)
  {
    var P := (t: State) => Live(t) && Handing(t, rest, newest, token);
    if !SocketOpen(s) {
      Rest(s, batch, rest, newest, token);
      DroppedKeeps(s, rest, opens, newest, token);
      assert P(Connect(s, opens));
    } else {
      OpenSends(s, batch, rest, fails, newest, token);
      assert P(if fails then OnDisconnected(WriteAll(s, batch)) else WriteAll(s, batch));
    }
    SendDataFrom(P, s, batch, opens, fails);
  }

  lemma {:induction false} HandOverKeeps(s: State, messages: seq<nat>, batches: seq<Batch>, newest: nat, token: nat)
    requires Live(s) && Handing(s, messages, newest, token)
    ensures Live(HandOver(s, messages, batches))
    decreases |messages|
  {
    if messages != [] {
      if batches == [] {
        assert messages + [] == messages;
        SendDataKeeps(s, messages, [], false, false, newest, token);
      } else {
        var b := batches[0];
        var n := BatchSize(b.size, |messages|);
        assert messages[..n] + messages[n..] == messages;
        SendDataKeeps(s, messages[..n], messages[n..], b.opens, b.fails, newest, token);
        HandOverKeeps(SendData(s, messages[..n], b.opens, b.fails), messages[n..], batches[1..], newest, token);
      }
    }
  }

  lemma ConnectLog(s: State, opens: bool)
    ensures s.log <= Connect(s, opens).log
  {
  }

  lemma {:induction false} IdleQueue(s: State, i: nat, w: World, k: nat)
    requires s.handshake.HandshakeIdle? && i <= |s.queue|
    ensures QueuePass(s, i, w, k) == s
    decreases |s.queue| - i
  {
    if i < |s.queue| { IdleQueue(s, i + 1, w, k); }
  }

  /** What holds of a state and of its hand-over holds of sending, with messages or without. */
  lemma SendMessagesFrom(P: State -> bool, s: State, messages: seq<nat>, w: World)
    requires !s.handshake.HandshakeIdle? && P(s) && P(HandOver(Connect(s, w.first), messages, w.batches))
    ensures P(SendMessages(s, messages, w))
  {
  }

  /** What the loops made is handed over without crashing. */
  lemma SendMessagesKeeps(before: seq<Entry>, token: nat, u: State, w: World)
    requires Passing(before, token, u)
    ensures Live(SendMessages(u, MadeSince(u.log, |before|), w))
  {
    var c, messages := Connect(u, w.first), MadeSince(u.log, |before|);
    ConnectPasses(before, token, u, w.first);
    ConnectLog(u, w.first);
    StartHanding(before, token, u, c);
    HandOverKeeps(c, messages, w.batches, c.socket, token);
    SendMessagesFrom(Live, u, messages, w);
  }

  lemma IdleProcess(s: State, w: World)
    requires Live(s) && s.handshake.HandshakeIdle?
    ensures Process(s, w) == s
  {
    IdleQueue(s, 0, w, 0);
    assert s.log[|s.log|..] == [];
  }

  /** What holds after the two loops and the hand-over, taken one by one, holds of the pass. */
  lemma ProcessFrom(P: State -> bool, s: State, t: State, u: State, w: World)
    requires t == RunningPass(s, 0, w, 0) && !t.crashed && u == QueuePass(t, 0, w, |s.running|)
    requires P(SendMessages(u, MadeSince(u.log, |s.log|), w))
    ensures P(Process(s, w))
  {
  }

  /** `processRequestQueue` keeps the invariant and does not crash. */
  lemma LiveProcess(s: State, w: World)
    requires Live(s)
    ensures Live(Process(s, w))
  {
    if s.handshake.HandshakeIdle? {
      IdleProcess(s, w);
    } else {
      PassesPass(s, w);
      var t := RunningPass(s, 0, w, 0);
      var u := QueuePass(t, 0, w, |s.running|);
      SendMessagesKeeps(s.log, s.token, u, w);
      ProcessFrom(Live, s, t, u, w);
    }
  }

  // ---- how often a request reaches a socket ----

  /** The tokens under which a request was written to a socket, oldest first. */
  function Writings(log: seq<Entry>, id: nat, socket: nat): seq<nat>
    decreases |log|
  {
    if log == [] then []
    else
      var last, before := log[|log| - 1], Writings(log[..|log| - 1], id, socket);
      if last.Written? && last.id == id && last.socket == socket then before + [last.token] else before
  }

  lemma {:induction false} WritingFrom(log: seq<Entry>, id: nat, socket: nat, i: nat) returns (k: nat)
    requires i < |Writings(log, id, socket)|
    ensures WritesAt(log, k) && log[k].id == id && log[k].socket == socket && log[k].token == Writings(log, id, socket)[i]
    decreases |log|
  {
    var last, before := log[|log| - 1], Writings(log[..|log| - 1], id, socket);
    if i < |before| {
      k := WritingFrom(log[..|log| - 1], id, socket, i);
    } else {
      k := |log| - 1;
    }
  }

  /** At most two tokens, the first 0 if there are two, the other not. */
  predicate OnceBeforeOnceAfter(tokens: seq<nat>) {
    |tokens| <= 1 || (|tokens| == 2 && tokens[0] == 0 && tokens[1] != 0)
  }

  /** A socket gets a request at most twice: once before it is connected, and once on its token. */
  lemma {:induction false} WrittenAtMostTwice(log: seq<Entry>, id: nat, socket: nat)
    requires History(log)
    ensures OnceBeforeOnceAfter(Writings(log, id, socket))
    decreases |log|
  {
    if log != [] {
      var init, last := log[..|log| - 1], log[|log| - 1];
      WrittenAtMostTwice(init, id, socket);
      var before := Writings(init, id, socket);
      if last.Written? && last.id == id && last.socket == socket {
        assert Allowed(init, last);
        forall i | 0 <= i < |before| ensures before[i] == 0 && last.token != 0 {
          var k := WritingFrom(init, id, socket, i);
          assert WritesAt(init, k) && init[k].token == before[i];
        }
        assert |before| >= 1 ==> before[0] == 0 && last.token != 0;
      }
    }
  }
}
