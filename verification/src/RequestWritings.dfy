/** Exactly which requests one pass of `processRequestQueue` writes to the open socket. */
module RequestWritings {
  import opened RequestLifecycle
  import opened RequestInvariants
  import opened RequestSendings
  import opened RequestRuns

  // ---- which requests become messages ----

  /** The guard of the resending branch: without the network the handshake counts as undone, and only some requests stay. */
  predicate Resends(s: State, r: Request) {
    && s.token > 0 && s.token != r.token
    && if s.networkAvailable then s.handshake.HandshakeSuccessed? || r.flags.withoutLogin
       else r.flags.reSend && r.flags.withoutLogin
  }

  /** A queued request starts before the socket is connected if it may be resent, and after that as it may be sent. */
  predicate Starts(s: State, r: Request) {
    if s.token == 0 then r.flags.reSend
    else (s.networkAvailable && s.handshake.HandshakeSuccessed?) || r.flags.withoutLogin
  }

  predicate AnyResends(s: State, rs: seq<Request>, id: nat) {
    rs != [] && ((rs[0].id == id && Resends(s, rs[0])) || AnyResends(s, rs[1..], id))
  }

  predicate AnyStarts(s: State, rs: seq<Request>, id: nat) {
    rs != [] && ((rs[0].id == id && Starts(s, rs[0])) || AnyStarts(s, rs[1..], id))
  }

  /** A state of the pass that began in `s`, with its socket open. */
  ghost predicate During(s: State, t: State) {
    && SocketOpen(s) && t.status == s.status && t.socket == s.socket && t.token == s.token
    && t.networkAvailable == s.networkAvailable && !t.handshake.HandshakeIdle? && !t.crashed
    && (s.networkAvailable ==> t.handshake == s.handshake)
    && |s.log| <= |t.log|
  }

  lemma MadeMore(log: seq<Entry>, n: nat, e: Entry)
    requires n <= |log|
    ensures MadeSince(log + [e], n) == MadeSince(log, n) + if e.Enqueued? then [e.id] else []
  {
    assert (log + [e])[n..] == log[n..] + [e];
    MadeConcat(log[n..], [e]);
    assert [e][1..] == [] && Made([e]) == if e.Enqueued? then [e.id] else [];
  }

  lemma ConnectDuring(s: State, t: State, opens: bool)
    requires During(s, t)
    ensures var c := Connect(t, opens);
            && During(s, c) && c.running == t.running && c.queue == t.queue
            && (!s.networkAvailable ==> c.handshake.HandshakeIng?)
            && MadeSince(c.log, |s.log|) == MadeSince(t.log, |s.log|)
  {
    MadeMore(t.log, |s.log|, ConnectionClosed);
  }

  /** The same connection and network, and one entry more in the log. */
  ghost predicate Logs(c: State, t: State, e: Entry) {
    && t.status == c.status && t.socket == c.socket && t.token == c.token && t.networkAvailable == c.networkAvailable
    && t.handshake == c.handshake && t.crashed == c.crashed && t.log == c.log + [e]
  }

  lemma LogsDuring(s: State, c: State, t: State, e: Entry)
    requires During(s, c) && Logs(c, t, e)
    ensures During(s, t) && MadeSince(t.log, |s.log|) == MadeSince(c.log, |s.log|) + if e.Enqueued? then [e.id] else []
  {
    MadeMore(c.log, |s.log|, e);
  }

  lemma ExpireMakes(s: State, c: State, i: nat, now: int)
    requires During(s, c) && i < |c.running|
    ensures var (t, stays) := Expire(c, i, now);
            && During(s, t) && t.queue == c.queue
            && t.running[if stays then i + 1 else i..] == c.running[i + 1..]
            && MadeSince(t.log, |s.log|) == MadeSince(c.log, |s.log|)
  {
    var r, t := c.running[i], Expire(c, i, now).0;
    ExpireCases(c, i, now);
    if !r.flags.reSend {
      LogsDuring(s, c, t, Completed(r.id, RequestTimeout));
    } else if !CanRetry(r.retryCount + 1) {
      LogsDuring(s, c, t, Completed(r.id, RequestRetryLimit));
    }
  }

  /** One turn of the first loop: the request is made into a message exactly under its guard. */
  lemma RunningTurnMakes(s: State, c: State, i: nat, now: int)
    requires During(s, c) && i < |c.running| && (!s.networkAvailable ==> c.handshake.HandshakeIng?)
    ensures var (t, stays) := HandleRunning(c, i, now);
            && During(s, t) && t.queue == c.queue
            && t.running[if stays then i + 1 else i..] == c.running[i + 1..]
            && MadeSince(t.log, |s.log|)
               == MadeSince(c.log, |s.log|) + if Resends(s, c.running[i]) then [c.running[i].id] else []
  {
    var r, m := c.running[i], MadeSince(c.log, |s.log|);
    assert m + [] == m;
    if (!c.networkAvailable || c.token == 0) && !r.flags.reSend {
      var t := CompleteRunning(c, i, ConnectFail);
      LogsDuring(s, c, t, Completed(r.id, ConnectFail));
      assert HandleRunning(c, i, now) == (t, false) && !Resends(s, r);
    } else if c.token > 0 && c.token != r.token && (c.handshake.HandshakeSuccessed? || r.flags.withoutLogin) {
      var t := Resend(c, i, now);
      LogsDuring(s, c, t, Enqueued(r.id, c.token, !r.flags.withoutLogin));
      assert HandleRunning(c, i, now) == (t, true) && Resends(s, r);
    } else {
      assert !Resends(s, r);
      ExpireMakes(s, c, i, now);
      assert HandleRunning(c, i, now) == if IsTimeout(r, now) then Expire(c, i, now) else (c, true);
    }
  }

  /** The turn with the opening of the connection before it. */
  lemma WholeRunningTurn(s: State, t: State, i: nat, w: World, k: nat, id: nat) returns (v: State, j: nat)
    requires During(s, t) && i < |t.running|
    ensures During(s, v) && v.queue == t.queue && j <= |v.running| && v.running[j..] == t.running[i + 1..]
    ensures id in MadeSince(v.log, |s.log|) <==>
            id in MadeSince(t.log, |s.log|) || (Resends(s, t.running[i]) && t.running[i].id == id)
    ensures RunningPass(t, i, w, k) == RunningPass(v, j, w, k + 1)
  {
    var c := Connect(t, Opens(w, k));
    ConnectDuring(s, t, Opens(w, k));
    RunningTurnMakes(s, c, i, w.now);
    var (u, stays) := HandleRunning(c, i, w.now);
    v, j := u, if stays then i + 1 else i;
  }

  lemma {:induction false} RunningMakes(s: State, t: State, i: nat, w: World, k: nat, id: nat)
    requires During(s, t) && i <= |t.running|
    ensures var u := RunningPass(t, i, w, k);
            && During(s, u) && u.queue == t.queue
            && (id in MadeSince(u.log, |s.log|) <==>
                id in MadeSince(t.log, |s.log|) || AnyResends(s, t.running[i..], id))
    decreases |t.running| - i
  {
    if i < |t.running| {
      var v, j := WholeRunningTurn(s, t, i, w, k, id);
      assert t.running[i..][1..] == t.running[i + 1..] && |v.running[j..]| == |t.running[i + 1..]|;
      RunningMakes(s, v, j, w, k + 1, id);
    }
  }

  lemma StartMakes(s: State, c: State, later: int)
    requires During(s, c) && c.queue != []
    ensures var t := Start(c, 0, later);
            && During(s, t) && t.queue == c.queue[1..]
            && MadeSince(t.log, |s.log|) == MadeSince(c.log, |s.log|) + [c.queue[0].id]
  {
    var r, t := c.queue[0], Start(c, 0, later);
    var e := Enqueued(r.id, c.token, !r.flags.withoutLogin);
    var u := t.(log := c.log + [e]);
    LogsDuring(s, c, u, e);
    if r.flags.withoutAck {
      LogsDuring(s, u, t, Completed(r.id, Done));
    } else {
      assert t == u;
    }
  }

  /** One turn of the second loop, likewise. */
  lemma QueueTurnMakes(s: State, c: State, later: int)
    requires During(s, c) && c.queue != [] && (!s.networkAvailable ==> c.handshake.HandshakeIng?)
    ensures var t := HandleQueued(c, 0, later);
            && During(s, t) && t.queue == c.queue[1..]
            && MadeSince(t.log, |s.log|)
               == MadeSince(c.log, |s.log|) + if Starts(s, c.queue[0]) then [c.queue[0].id] else []
  {
    var r, m := c.queue[0], MadeSince(c.log, |s.log|);
    if Starts(s, r) {
      StartMakes(s, c, later);
      assert HandleQueued(c, 0, later) == Start(c, 0, later);
    } else {
      var code := if c.token == 0 then WithoutConnection else WithoutLogin;
      var t := CompleteQueued(c, 0, code);
      LogsDuring(s, c, t, Completed(r.id, code));
      assert m + [] == m;
      assert HandleQueued(c, 0, later) == t;
    }
  }

  lemma {:induction false} QueueMakes(s: State, t: State, w: World, k: nat, id: nat)
    requires During(s, t)
    ensures var u := QueuePass(t, 0, w, k);
            && During(s, u)
            && (id in MadeSince(u.log, |s.log|) <==> id in MadeSince(t.log, |s.log|) || AnyStarts(s, t.queue, id))
    decreases |t.queue|
  {
    if t.queue != [] {
      var c := Connect(t, Opens(w, k));
      ConnectDuring(s, t, Opens(w, k));
      QueueTurnMakes(s, c, Later(w, k));
      QueueMakes(s, HandleQueued(c, 0, Later(w, k)), w, k + 1, id);
    }
  }

  // ---- and are written ----

  lemma WritingsMore(log: seq<Entry>, e: Entry, id: nat, socket: nat)
    ensures Writings(log + [e], id, socket)
         == Writings(log, id, socket) + if e.Written? && e.id == id && e.socket == socket then [e.token] else []
  {
    assert (log + [e])[..|log|] == log;
  }

  /** A batch that goes to one socket is written there, each of its messages once. */
  lemma {:induction false} WriteAllWrites(s: State, batch: seq<nat>, id: nat, socket: nat)
    requires Distinct(batch)
    ensures var t := WriteAll(s, batch);
            && t == s.(log := t.log)
            && Writings(t.log, id, socket)
               == Writings(s.log, id, socket) + if s.socket == socket && id in batch then [s.token] else []
    decreases |batch|
  {
    if batch != [] {
      var e := Written(batch[0], s.socket, s.token);
      WritingsMore(s.log, e, id, socket);
      assert Distinct(batch[1..]) && batch[0] !in batch[1..];
      assert batch == [batch[0]] + batch[1..];
      WriteAllWrites(s.(log := s.log + [e]), batch[1..], id, socket);
    }
  }

  /** How many messages are handed over up to and with the first batch that fails. */
  function Handed(n: nat, batches: seq<Batch>): (h: nat)
    ensures h <= n
    decreases n
  {
    if n == 0 then 0
    else if batches == [] then n
    else
      var size := BatchSize(batches[0].size, n);
      if batches[0].fails then size else size + Handed(n - size, batches[1..])
  }

  predicate NoneFails(batches: seq<Batch>) {
    forall b :: b in batches ==> !b.fails
  }

  lemma {:induction false} AllHanded(n: nat, batches: seq<Batch>)
    requires NoneFails(batches)
    ensures Handed(n, batches) == n
    decreases n
  {
    if n > 0 && batches != [] {
      AllHanded(n - BatchSize(batches[0].size, n), batches[1..]);
    }
  }

  /** The socket numbered `n` is gone. */
  ghost predicate Gone(s: State, n: nat) {
    s.socket >= n && (SocketOpen(s) ==> s.socket > n)
  }

  lemma ConnectGone(s: State, opens: bool, n: nat, id: nat)
    requires Gone(s, n)
    ensures Gone(Connect(s, opens), n) && Writings(Connect(s, opens).log, id, n) == Writings(s.log, id, n)
  {
    WritingsMore(s.log, ConnectionClosed, id, n);
  }

  lemma LostGone(s: State, n: nat, id: nat)
    requires s.socket >= n
    ensures Gone(OnDisconnected(s), n) && Writings(OnDisconnected(s).log, id, n) == Writings(s.log, id, n)
  {
    WritingsMore(s.log, ConnectionClosed, id, n);
  }

  lemma SendDataGone(s: State, batch: seq<nat>, opens: bool, fails: bool, n: nat, id: nat)
    requires Gone(s, n) && Distinct(batch)
    ensures var t := SendData(s, batch, opens, fails); Gone(t, n) && Writings(t.log, id, n) == Writings(s.log, id, n)
  {
    ConnectGone(s, opens, n, id);
    WriteAllWrites(s, batch, id, n);
    LostGone(WriteAll(s, batch), n, id);
  }

  lemma Cut(messages: seq<nat>, n: nat)
    requires Distinct(messages) && n <= |messages|
    ensures Distinct(messages[..n]) && Distinct(messages[n..])
    ensures forall id | id in messages[..n] :: id !in messages[n..]
  {
    var rest := messages[n..];
    assert forall i | 0 <= i < |rest| :: rest[i] == messages[n + i];
  }

  /** Nothing more is written to a socket that is gone. */
  lemma {:induction false} HandOverGone(s: State, messages: seq<nat>, batches: seq<Batch>, n: nat, id: nat)
    requires Gone(s, n) && Distinct(messages)
    ensures Writings(HandOver(s, messages, batches).log, id, n) == Writings(s.log, id, n)
    decreases |messages|
  {
    if messages != [] {
      if batches == [] {
        SendDataGone(s, messages, false, false, n, id);
      } else {
        var b := batches[0];
        var size := BatchSize(b.size, |messages|);
        Cut(messages, size);
        SendDataGone(s, messages[..size], b.opens, b.fails, n, id);
        HandOverGone(SendData(s, messages[..size], b.opens, b.fails), messages[size..], batches[1..], n, id);
      }
    }
  }

  lemma InParts(messages: seq<nat>, n: nat, h: nat, id: nat)
    requires n + h <= |messages|
    ensures id in messages[..n + h] <==> id in messages[..n] || id in messages[n..][..h]
  {
    assert messages[..n + h] == messages[..n] + messages[n..][..h];
  }

  lemma OneBatch(s: State, messages: seq<nat>, batches: seq<Batch>, size: nat)
    requires SocketOpen(s) && messages != [] && batches != [] && size == BatchSize(batches[0].size, |messages|)
    ensures var t, rest := WriteAll(s, messages[..size]), messages[size..];
            HandOver(s, messages, batches)
            == HandOver(if batches[0].fails then OnDisconnected(t) else t, rest, batches[1..])
  {
  }

  /** An open socket gets exactly the messages handed over up to the first batch that fails. */
  lemma {:induction false} HandOverWrites(s: State, messages: seq<nat>, batches: seq<Batch>, id: nat)
    requires SocketOpen(s) && Distinct(messages)
    ensures Writings(HandOver(s, messages, batches).log, id, s.socket)
         == Writings(s.log, id, s.socket) + if id in messages[..Handed(|messages|, batches)] then [s.token] else []
    decreases |messages|
  {
    if messages != [] {
      if batches == [] {
        WriteAllWrites(s, messages, id, s.socket);
        assert messages[..|messages|] == messages;
      } else {
        NextBatchWrites(s, messages, batches, BatchSize(batches[0].size, |messages|), id);
      }
    }
  }

  lemma {:induction false} NextBatchWrites(s: State, messages: seq<nat>, batches: seq<Batch>, size: nat, id: nat)
    requires SocketOpen(s) && Distinct(messages) && messages != [] && batches != []
    requires size == BatchSize(batches[0].size, |messages|)
    ensures Writings(HandOver(s, messages, batches).log, id, s.socket)
         == Writings(s.log, id, s.socket) + if id in messages[..Handed(|messages|, batches)] then [s.token] else []
    decreases |messages|, 0
  {
    var batch, rest := messages[..size], messages[size..];
    Cut(messages, size);
    OneBatch(s, messages, batches, size);
    WriteAllWrites(s, batch, id, s.socket);
    var t := WriteAll(s, batch);
    if batches[0].fails {
      assert Handed(|messages|, batches) == size;
      LostGone(t, s.socket, id);
      HandOverGone(OnDisconnected(t), rest, batches[1..], s.socket, id);
    } else {
      var h := Handed(|rest|, batches[1..]);
      assert Handed(|messages|, batches) == size + h;
      InParts(messages, size, h, id);
      HandOverWrites(t, rest, batches[1..], id);
      assert id in batch ==> id !in rest[..h];
    }
  }

  // ---- the whole pass ----

  /** The messages a pass makes, in order. */
  function Messages(s: State, w: World): seq<nat> {
    MadeSince(QueuePass(RunningPass(s, 0, w, 0), 0, w, |s.running|).log, |s.log|)
  }

  /** They are those of the running requests that are resent and of the queued ones that start. */
  lemma MessagesExactly(s: State, w: World, id: nat)
    requires Live(s) && !s.handshake.HandshakeIdle? && SocketOpen(s)
    ensures id in Messages(s, w) <==> AnyResends(s, s.running, id) || AnyStarts(s, s.queue, id)
  {
    assert s.running[0..] == s.running && MadeSince(s.log, |s.log|) == [];
    RunningMakes(s, s, 0, w, 0, id);
    QueueMakes(s, RunningPass(s, 0, w, 0), w, |s.running|, id);
  }

  lemma {:induction false} GrownWritings(before: seq<Entry>, log: seq<Entry>, token: nat, id: nat, socket: nat)
    requires Grown(before, log, token)
    ensures Writings(log, id, socket) == Writings(before, id, socket)
    decreases |log|
  {
    if |before| < |log| {
      var init := log[..|log| - 1];
      assert init[..|before|] == before;
      GrownWritings(before, init, token, id, socket);
    } else {
      assert log == before;
    }
  }

  /** The messages are there to be handed over, to the socket the pass began with. */
  lemma PassGathers(s: State, w: World, u: State, c: State)
    requires Live(s) && !s.handshake.HandshakeIdle? && SocketOpen(s)
    requires u == QueuePass(RunningPass(s, 0, w, 0), 0, w, |s.running|) && c == Connect(u, w.first)
    ensures !RunningPass(s, 0, w, 0).crashed && !u.handshake.HandshakeIdle?
    ensures Grown(s.log, u.log, s.token) && Grown(s.log, c.log, s.token) && Distinct(Messages(s, w))
    ensures SocketOpen(c) && c.socket == s.socket && c.token == s.token
  {
    PassesPass(s, w);
    ConnectPasses(s.log, s.token, u, w.first);
    ConnectLog(u, w.first);
    StartHanding(s.log, s.token, u, c);
    assert s.running[0..] == s.running;
    RunningMakes(s, s, 0, w, 0, 0);
    QueueMakes(s, RunningPass(s, 0, w, 0), w, |s.running|, 0);
    ConnectDuring(s, u, w.first);
  }

  lemma ProcessIs(s: State, w: World, u: State)
    requires !RunningPass(s, 0, w, 0).crashed && u == QueuePass(RunningPass(s, 0, w, 0), 0, w, |s.running|)
    requires !u.handshake.HandshakeIdle?
    ensures Process(s, w) == if Messages(s, w) == [] then u else HandOver(Connect(u, w.first), Messages(s, w), w.batches)
  {
  }

  /** Exactly the messages handed over before a failure reach the socket, each under its token and once. */
  lemma PassWrites(s: State, w: World, id: nat)
    requires Live(s) && !s.handshake.HandshakeIdle? && SocketOpen(s)
    ensures var m := Messages(s, w);
            Writings(Process(s, w).log, id, s.socket)
            == Writings(s.log, id, s.socket) + if id in m[..Handed(|m|, w.batches)] then [s.token] else []
  {
    var u := QueuePass(RunningPass(s, 0, w, 0), 0, w, |s.running|);
    var c, m := Connect(u, w.first), Messages(s, w);
    PassGathers(s, w, u, c);
    ProcessIs(s, w, u);
    GrownWritings(s.log, u.log, s.token, id, s.socket);
    GrownWritings(s.log, c.log, s.token, id, s.socket);
    if m != [] {
      HandOverWrites(c, m, w.batches, id);
    }
  }

  /** Running requests have distinct numbers, which no queued one has. */
  lemma {:induction false} OnlyThatOne(s: State, rs: seq<Request>, r: Request, p: nat)
    requires p < |rs| && rs[p] == r && forall i | 0 <= i < |rs| && i != p :: rs[i].id != r.id
    ensures AnyResends(s, rs, r.id) <==> Resends(s, r)
  {
    if p > 0 {
      assert forall i | 0 <= i < |rs[1..]| && i != p - 1 :: rs[1..][i].id != r.id;
      OnlyThatOne(s, rs[1..], r, p - 1);
    } else {
      NoneThere(s, rs[1..], r.id);
    }
  }

  lemma {:induction false} NoneThere(s: State, rs: seq<Request>, id: nat)
    requires forall i | 0 <= i < |rs| :: rs[i].id != id
    ensures !AnyResends(s, rs, id) && !AnyStarts(s, rs, id)
  {
    if rs != [] {
      NoneThere(s, rs[1..], id);
    }
  }

  lemma RunningMade(s: State, w: World, j: nat)
    requires Live(s) && !s.handshake.HandshakeIdle? && SocketOpen(s) && j < |s.running|
    ensures s.running[j].id in Messages(s, w) <==> Resends(s, s.running[j])
  {
    var r := s.running[j];
    RunningIsOnlyThere(s, j);
    forall i | 0 <= i < |s.running| && i != j ensures s.running[i].id != r.id {
      assert Without(s.running, j)[if i < j then i else i - 1] == s.running[i];
    }
    OnlyThatOne(s, s.running, r, j);
    NoneThere(s, s.queue, r.id);
    MessagesExactly(s, w, r.id);
  }

  /**
   * What a pass over an open socket writes of a running request: nothing, unless the
   * guard of the resending branch holds, and then, if no batch fails, the request once
   * more, under the token of the socket.
   */
  lemma RunningWritten(s: State, w: World, j: nat)
    requires Live(s) && !s.handshake.HandshakeIdle? && SocketOpen(s) && j < |s.running|
    ensures var r := s.running[j];
            var before, after := Writings(s.log, r.id, s.socket), Writings(Process(s, w).log, r.id, s.socket);
            && (!Resends(s, r) ==> after == before)
            && (NoneFails(w.batches) ==> after == before + if Resends(s, r) then [s.token] else [])
  {
    var m, id := Messages(s, w), s.running[j].id;
    RunningMade(s, w, j);
    PassWrites(s, w, id);
    var h := Handed(|m|, w.batches);
    assert id in m[..h] ==> id in m;
    if NoneFails(w.batches) {
      AllHanded(|m|, w.batches);
      assert m[..|m|] == m;
    }
  }

  /** The same of a queued request, which starts on a socket still connecting exactly if it may be resent. */
  lemma QueuedWritten(s: State, w: World, j: nat)
    requires Live(s) && !s.handshake.HandshakeIdle? && SocketOpen(s) && j < |s.queue|
    ensures var r := s.queue[j];
            var before, after := Writings(s.log, r.id, s.socket), Writings(Process(s, w).log, r.id, s.socket);
            && (!Starts(s, r) ==> after == before)
            && (NoneFails(w.batches) ==> after == before + if Starts(s, r) then [s.token] else [])
  {
    var m, id := Messages(s, w), s.queue[j].id;
    QueuedMade(s, w, j);
    PassWrites(s, w, id);
    var h := Handed(|m|, w.batches);
    assert id in m[..h] ==> id in m;
    if NoneFails(w.batches) {
      AllHanded(|m|, w.batches);
      assert m[..|m|] == m;
    }
  }

  lemma {:induction false} OnlyThatOneStarts(s: State, rs: seq<Request>, r: Request, p: nat)
    requires p < |rs| && rs[p] == r && forall i | 0 <= i < |rs| && i != p :: rs[i].id != r.id
    ensures AnyStarts(s, rs, r.id) <==> Starts(s, r)
  {
    if p > 0 {
      assert forall i | 0 <= i < |rs[1..]| && i != p - 1 :: rs[1..][i].id != r.id;
      OnlyThatOneStarts(s, rs[1..], r, p - 1);
    } else {
      NoneThere(s, rs[1..], r.id);
    }
  }

  lemma QueuedMade(s: State, w: World, j: nat)
    requires Live(s) && !s.handshake.HandshakeIdle? && SocketOpen(s) && j < |s.queue|
    ensures s.queue[j].id in Messages(s, w) <==> Starts(s, s.queue[j])
  {
    var r := s.queue[j];
    QueuedIsOnlyThere(s, j);
    forall i | 0 <= i < |s.queue| && i != j ensures s.queue[i].id != r.id {
      assert Without(s.queue, j)[if i < j then i else i - 1] == s.queue[i];
    }
    OnlyThatOneStarts(s, s.queue, r, j);
    NoneThere(s, s.running, r.id);
    MessagesExactly(s, w, r.id);
  }

  /**
   * In every run: a request that the socket got before it was connected gets there a
   * second time at the end of `select` exactly under the guard of the resending branch.
   */
  lemma DoubledExactly(uid: nat, events: seq<Event>, w: World, j: nat)
    requires var s := Run(Initial(uid), events);
             && !s.crashed && s.status.Connected? && !s.handshake.HandshakeIdle? && j < |s.running|
             && Writings(s.log, s.running[j].id, s.socket) == [0] && NoneFails(w.batches)
    ensures var s := Run(Initial(uid), events);
            var tokens := Writings(Run(Initial(uid), events + [Idling(w)]).log, s.running[j].id, s.socket);
            && (tokens == [0, s.token] <==> Resends(s, s.running[j]))
            && (tokens == [0] <==> !Resends(s, s.running[j]))
  {
    var s := Run(Initial(uid), events);
    RunKeeps(uid, events);
    RunExtended(Initial(uid), events, Idling(w));
    IdlingProcesses(s, w);
    RunningWritten(s, w, j);
  }

  lemma IdlingProcesses(s: State, w: World)
    requires !s.crashed && !s.handshake.HandshakeIdle?
    ensures Step(s, Idling(w)) == Process(s, w)
  {
  }
}
