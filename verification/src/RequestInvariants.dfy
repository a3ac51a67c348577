/** What every run of the request state machine keeps. */
module RequestInvariants {
  import opened RequestLifecycle

  // ---- where a request is ----

  function Ids(rs: seq<Request>): seq<nat> {
    seq(|rs|, i requires 0 <= i < |rs| => rs[i].id)
  }

  function TaskIds(tasks: seq<Task>): seq<nat> {
    if tasks == [] then []
    else if tasks[0].SendTask? then [tasks[0].request.id] + TaskIds(tasks[1..])
    else TaskIds(tasks[1..])
  }

  function DoneIds(log: seq<Entry>): seq<nat>
    decreases |log|
  {
    if log == [] then []
    else
      var before := DoneIds(log[..|log| - 1]);
      if log[|log| - 1].Completed? then before + [log[|log| - 1].id] else before
  }

  function Everywhere(s: State): multiset<nat> {
    multiset(TaskIds(s.tasks)) + multiset(Ids(s.queue)) + multiset(Ids(s.running)) + multiset(DoneIds(s.log))
  }

  /** Every id handed out so far, once. */
  function Everyone(n: nat): multiset<nat> {
    multiset(seq(n, i => i))
  }

  ghost predicate Conserved(s: State) {
    Everywhere(s) == Everyone(s.submitted)
  }

  lemma EveryoneOnce(n: nat, id: nat)
    ensures Everyone(n)[id] == if id < n then 1 else 0
  {
    if n == 0 {
      assert seq(0, i => i) == [];
    } else {
      EveryoneOnce(n - 1, id);
      assert seq(n, i => i) == seq(n - 1, i => i) + [n - 1];
    }
  }

  lemma DoneAppend(log: seq<Entry>, e: Entry)
    ensures DoneIds(log + [e]) == if e.Completed? then DoneIds(log) + [e.id] else DoneIds(log)
  {
    assert (log + [e])[..|log|] == log;
  }

  lemma IdsWithout(rs: seq<Request>, i: nat)
    requires i < |rs|
    ensures multiset(Ids(rs)) == multiset(Ids(Without(rs, i))) + multiset{rs[i].id}
  {
    assert Ids(rs) == Ids(rs[..i]) + [rs[i].id] + Ids(rs[i + 1..]);
    assert Ids(Without(rs, i)) == Ids(rs[..i]) + Ids(rs[i + 1..]);
  }

  lemma IdsAppend(rs: seq<Request>, r: Request)
    ensures Ids(rs + [r]) == Ids(rs) + [r.id]
  {
  }

  lemma {:induction false} TaskIdsAppend(tasks: seq<Task>, t: Task)
    ensures TaskIds(tasks + [t]) == TaskIds(tasks) + if t.SendTask? then [t.request.id] else []
  {
    if tasks != [] {
      assert (tasks + [t])[1..] == tasks[1..] + [t];
      TaskIdsAppend(tasks[1..], t);
    }
  }

  // ---- what the history may look like ----

  /** The last thing heard about the handshake is that it succeeded. */
  predicate LoggedIn(log: seq<Entry>)
    decreases |log|
  {
    && log != []
    && var last := log[|log| - 1];
       last.HandshakeOk? || (!last.ConnectionClosed? && LoggedIn(log[..|log| - 1]))
  }

  predicate SendsOf(log: seq<Entry>, id: nat, k: int) {
    0 <= k < |log| && log[k].Enqueued? && log[k].id == id
  }

  /** Every sending of request `id` was on a token of at most `t`. */
  ghost predicate NoSendAbove(log: seq<Entry>, id: nat, t: int) {
    forall k :: SendsOf(log, id, k) ==> log[k].token <= t
  }

  predicate WritesAt(log: seq<Entry>, k: int) {
    0 <= k < |log| && log[k].Written?
  }

  /**
   * What may happen next. A completed request is neither completed nor made into a
   * message again. A request is made into a message for no connection at most once, and
   * then first of all, and at most once for a connection's token; in the latter case,
   * unless it is allowed without login, only after a handshake that no loss of the
   * connection has undone. A message is written to a socket at most once before the
   * socket is connected and at most once after, and a socket has one token.
   */
  ghost predicate Allowed(before: seq<Entry>, e: Entry) {
    match e
    case Completed(id, _) => id !in DoneIds(before)
    case Enqueued(id, token, needsLogin) =>
      && id !in DoneIds(before)
      && (forall k :: SendsOf(before, id, k) ==> token != 0 && before[k].token != token)
      && (token != 0 && needsLogin ==> LoggedIn(before))
    case Written(id, socket, token) =>
      && (exists k :: SendsOf(before, id, k) && (token != 0 ==> before[k].token == token))
      && (forall k :: WritesAt(before, k) && before[k].socket == socket ==>
            && (before[k].token == 0 || before[k].token == token)
            && (before[k].id == id ==> before[k].token != token))
    case _ => true
  }

  ghost predicate History(log: seq<Entry>)
    decreases |log|
  {
    log != [] ==> History(log[..|log| - 1]) && Allowed(log[..|log| - 1], log[|log| - 1])
  }

  lemma HistoryAppend(log: seq<Entry>, e: Entry)
    requires History(log) && Allowed(log, e)
    ensures History(log + [e])
  {
    assert (log + [e])[..|log|] == log;
  }

  /** Everything in such a history was allowed when it happened. */
  lemma {:induction false} AlwaysAllowed(log: seq<Entry>, k: nat)
    requires History(log) && k < |log|
    ensures Allowed(log[..k], log[k])
    decreases |log|
  {
    if k < |log| - 1 {
      var before := log[..|log| - 1];
      AlwaysAllowed(before, k);
      assert before[..k] == log[..k];
    }
  }

  lemma LoggedInAppend(log: seq<Entry>, e: Entry)
    ensures LoggedIn(log + [e]) == (e.HandshakeOk? || (!e.ConnectionClosed? && LoggedIn(log)))
  {
    assert (log + [e])[..|log|] == log;
  }

  // ---- the invariant ----

  /** Sequence numbers of running requests are distinct, never negative, and retries are bounded. */
  ghost predicate Numbers(s: State) {
    && (forall i :: 0 <= i < |s.running| ==>
          0 <= s.running[i].messageSeq < s.nextSeq && 0 <= s.running[i].retryCount <= DEFAULT_RETRY_COUNT)
    && (forall i, j :: 0 <= i < j < |s.running| ==> s.running[i].messageSeq != s.running[j].messageSeq)
    && (forall i :: 0 <= i < |s.queue| ==> s.queue[i].retryCount == 0)
    && (forall i :: 0 <= i < |s.tasks| && s.tasks[i].SendTask? ==> s.tasks[i].request.retryCount == 0)
  }

  /** The token is that of the newest connection, and no request was sent on a newer one than it remembers. */
  ghost predicate Tokens(s: State) {
    && s.nextToken >= 1
    && (s.token == 0 || (s.status.Connected? && s.token == s.nextToken - 1))
    && (forall i :: 0 <= i < |s.running| ==>
          s.running[i].token < s.nextToken && NoSendAbove(s.log, s.running[i].id, s.running[i].token))
    && (forall i :: 0 <= i < |s.queue| ==> NoSendAbove(s.log, s.queue[i].id, -1))
    && (forall i :: 0 <= i < |s.tasks| && s.tasks[i].SendTask? ==> NoSendAbove(s.log, s.tasks[i].request.id, -1))
    && (forall id :: id >= s.submitted ==> NoSendAbove(s.log, id, -1))
  }

  /** What was written to the newest socket, while it is open, was written before it had its token or on it. */
  ghost predicate Sockets(log: seq<Entry>, socket: nat, token: nat, open: bool) {
    forall k :: WritesAt(log, k) ==>
      && log[k].socket <= socket
      && (open && log[k].socket == socket ==> log[k].token == 0 || log[k].token == token)
  }

  ghost predicate Inv(s: State) {
    && Conserved(s) && Numbers(s) && Tokens(s) && History(s.log)
    && Sockets(s.log, s.socket, s.token, SocketOpen(s))
    && (s.status.Connected? ==> s.token != 0)
    && (s.handshake.HandshakeSuccessed? ==> LoggedIn(s.log))
    && (s.handshake.HandshakeIdle? ==> s.running == [])
  }

  ghost predicate IdIn(rs: seq<Request>, id: nat) {
    exists k :: 0 <= k < |rs| && rs[k].id == id
  }

  ghost predicate IdInTasks(tasks: seq<Task>, id: nat) {
    exists k :: 0 <= k < |tasks| && tasks[k].SendTask? && tasks[k].request.id == id
  }

  lemma IdCounted(rs: seq<Request>, id: nat)
    ensures IdIn(rs, id) <==> multiset(Ids(rs))[id] > 0
  {
    if IdIn(rs, id) {
      var k :| 0 <= k < |rs| && rs[k].id == id;
      assert Ids(rs)[k] == id;
    } else {
      assert id !in Ids(rs);
    }
  }

  lemma {:induction false} TaskIdCounted(tasks: seq<Task>, id: nat)
    requires IdInTasks(tasks, id)
    ensures multiset(TaskIds(tasks))[id] > 0
  {
    var k :| 0 <= k < |tasks| && tasks[k].SendTask? && tasks[k].request.id == id;
    if k > 0 {
      assert tasks[1..][k - 1] == tasks[k];
      TaskIdCounted(tasks[1..], id);
    }
  }

  /** A request is in one place only: the multiset of places counts its id once. */
  ghost predicate Nowhere(tasks: seq<Task>, queue: seq<Request>, running: seq<Request>, log: seq<Entry>, id: nat) {
    !IdInTasks(tasks, id) && !IdIn(queue, id) && !IdIn(running, id) && id !in DoneIds(log)
  }

  lemma NowhereElse(s: State, id: nat)
    requires Everywhere(s)[id] == 0
    ensures Nowhere(s.tasks, s.queue, s.running, s.log, id)
  {
    IdCounted(s.queue, id);
    IdCounted(s.running, id);
    if IdInTasks(s.tasks, id) {
      TaskIdCounted(s.tasks, id);
    }
  }

  lemma RunningIsOnlyThere(s: State, i: nat)
    requires Conserved(s) && i < |s.running|
    ensures s.running[i].id < s.submitted
    ensures Nowhere(s.tasks, s.queue, Without(s.running, i), s.log, s.running[i].id)
  {
    IdsWithout(s.running, i);
    EveryoneOnce(s.submitted, s.running[i].id);
    NowhereElse(s.(running := Without(s.running, i)), s.running[i].id);
  }

  lemma QueuedIsOnlyThere(s: State, i: nat)
    requires Conserved(s) && i < |s.queue|
    ensures s.queue[i].id < s.submitted
    ensures Nowhere(s.tasks, Without(s.queue, i), s.running, s.log, s.queue[i].id)
  {
    IdsWithout(s.queue, i);
    EveryoneOnce(s.submitted, s.queue[i].id);
    NowhereElse(s.(queue := Without(s.queue, i)), s.queue[i].id);
  }

  // ---- conservation, operation by operation ----

  lemma CompleteRunningConserves(s: State, i: nat, code: Code)
    requires Conserved(s) && i < |s.running|
    ensures Conserved(CompleteRunning(s, i, code))
  {
    IdsWithout(s.running, i);
    DoneAppend(s.log, Completed(s.running[i].id, code));
  }

  lemma CompleteQueuedConserves(s: State, i: nat, code: Code)
    requires Conserved(s) && i < |s.queue|
    ensures Conserved(CompleteQueued(s, i, code))
  {
    IdsWithout(s.queue, i);
    DoneAppend(s.log, Completed(s.queue[i].id, code));
  }

  /** The start of a queued request before a request without ack is completed. */
  function Moved(s: State, i: nat, later: int): State
    requires i < |s.queue|
  {
    var r := s.queue[i];
    s.(queue := Without(s.queue, i), nextSeq := s.nextSeq + 1,
       running := s.running + [r.(token := s.token, messageSeq := s.nextSeq, startTime := later)],
       log := s.log + [Enqueued(r.id, s.token, !r.flags.withoutLogin)])
  }

  lemma StartIsMoved(s: State, i: nat, later: int)
    requires i < |s.queue|
    ensures var t := Moved(s, i, later);
            var u := if s.queue[i].flags.withoutAck then CompleteRunning(t, |s.running|, Done) else t;
            Start(s, i, later) == u.(pingArmed := Start(s, i, later).pingArmed)
  {
    assert Without(Moved(s, i, later).running, |s.running|) == s.running;
  }

  lemma MovedConserves(s: State, i: nat, later: int)
    requires Conserved(s) && i < |s.queue|
    ensures Conserved(Moved(s, i, later))
  {
    var r := s.queue[i];
    IdsWithout(s.queue, i);
    DoneAppend(s.log, Enqueued(r.id, s.token, !r.flags.withoutLogin));
    IdsAppend(s.running, r.(token := s.token, messageSeq := s.nextSeq, startTime := later));
  }

  // ---- every operation keeps the invariant ----

  lemma SocketsAppend(log: seq<Entry>, e: Entry)
    requires !e.Written?
    ensures forall n, t, open | Sockets(log, n, t, open) :: Sockets(log + [e], n, t, open)
  {
    forall n, t, open | Sockets(log, n, t, open) ensures Sockets(log + [e], n, t, open) {
      assert forall k | WritesAt(log + [e], k) :: WritesAt(log, k) && (log + [e])[k] == log[k];
    }
  }

  lemma NoSendAppend(log: seq<Entry>, e: Entry)
    ensures forall id, t | NoSendAbove(log, id, t) && !(e.Enqueued? && e.id == id) :: NoSendAbove(log + [e], id, t)
  {
    forall id, t | NoSendAbove(log, id, t) && !(e.Enqueued? && e.id == id) ensures NoSendAbove(log + [e], id, t) {
      forall k | SendsOf(log + [e], id, k) ensures (log + [e])[k].token <= t {
        assert SendsOf(log, id, k);
      }
    }
  }

  lemma ClosedKeeps(s: State)
    requires Inv(s)
    ensures Inv(OnConnectionClosed(s))
  {
    DoneAppend(s.log, ConnectionClosed);
    NoSendAppend(s.log, ConnectionClosed);
    SocketsAppend(s.log, ConnectionClosed);
    HistoryAppend(s.log, ConnectionClosed);
  }

  /** Without an open socket there is no token. */
  lemma ReleasedKeeps(s: State, status: Status)
    requires Inv(s) && (status.StatusIdle? || status.Reconnecting?)
    ensures Inv(s.(token := 0, status := status))
  {
  }

  lemma DisconnectedKeeps(s: State)
    requires Inv(s)
    ensures Inv(OnDisconnected(s))
  {
    var t := s.(token := 0, status := StatusIdle);
    ReleasedKeeps(s, StatusIdle);
    ClosedKeeps(t);
    var u := OnConnectionClosed(t);
    if !u.handshake.HandshakeIdle? {
      ReleasedKeeps(u, Reconnecting);
      assert OnDisconnected(s) == u.(token := 0, status := Reconnecting);
    } else {
      assert OnDisconnected(s) == u;
    }
  }

  lemma ConnectKeeps(s: State, opens: bool)
    requires Inv(s)
    ensures Inv(Connect(s, opens))
  {
    if !s.networkAvailable {
      ClosedKeeps(s);
    } else if !opens {
      DisconnectedKeeps(s);
    }
  }

  lemma CloseConnectKeeps(s: State)
    requires Inv(s)
    ensures Inv(CloseConnect(s))
  {
    DisconnectedKeeps(s);
    ClosedKeeps(OnDisconnected(s));
  }

  lemma CompleteRunningLists(s: State, i: nat, code: Code)
    requires Numbers(s) && Tokens(s) && i < |s.running|
    ensures Numbers(CompleteRunning(s, i, code)) && Tokens(CompleteRunning(s, i, code))
  {
    NoSendAppend(s.log, Completed(s.running[i].id, code));
  }

  lemma CompleteQueuedLists(s: State, i: nat, code: Code)
    requires Numbers(s) && Tokens(s) && i < |s.queue|
    ensures Numbers(CompleteQueued(s, i, code)) && Tokens(CompleteQueued(s, i, code))
  {
    NoSendAppend(s.log, Completed(s.queue[i].id, code));
  }

  lemma CompleteRunningKeeps(s: State, i: nat, code: Code)
    requires Inv(s) && i < |s.running|
    ensures Inv(CompleteRunning(s, i, code))
  {
    var e := Completed(s.running[i].id, code);
    CompleteRunningConserves(s, i, code);
    CompleteRunningLists(s, i, code);
    RunningIsOnlyThere(s, i);
    SocketsAppend(s.log, e);
    HistoryAppend(s.log, e);
    LoggedInAppend(s.log, e);
  }

  lemma CompleteQueuedKeeps(s: State, i: nat, code: Code)
    requires Inv(s) && i < |s.queue|
    ensures Inv(CompleteQueued(s, i, code))
  {
    var e := Completed(s.queue[i].id, code);
    CompleteQueuedConserves(s, i, code);
    CompleteQueuedLists(s, i, code);
    QueuedIsOnlyThere(s, i);
    SocketsAppend(s.log, e);
    HistoryAppend(s.log, e);
    LoggedInAppend(s.log, e);
  }

  lemma RetryKeeps(s: State, i: nat, now: int)
    requires Inv(s) && i < |s.running| && CanRetry(s.running[i].retryCount + 1)
    ensures var r := s.running[i].(retryCount := s.running[i].retryCount + 1, startTime := now);
            Inv(s.(running := s.running[i := r]))
  {
    var r := s.running[i].(retryCount := s.running[i].retryCount + 1, startTime := now);
    assert Ids(s.running[i := r]) == Ids(s.running);
  }

  lemma ResendKeeps(s: State, i: nat, now: int)
    requires Inv(s) && i < |s.running| && s.token > 0 && s.token != s.running[i].token
    requires s.handshake.HandshakeSuccessed? || s.running[i].flags.withoutLogin
    ensures Inv(Resend(s, i, now))
  {
    var r := s.running[i];
    var e := Enqueued(r.id, s.token, !r.flags.withoutLogin);
    var t := Resend(s, i, now);
    assert Ids(t.running) == Ids(s.running);
    DoneAppend(s.log, e);
    RunningIsOnlyThere(s, i);
    HistoryAppend(s.log, e);
    LoggedInAppend(s.log, e);
    NoSendAppend(s.log, e);
    SocketsAppend(s.log, e);
    forall j | 0 <= j < |t.running| ensures NoSendAbove(t.log, t.running[j].id, t.running[j].token) {
      if j == i {
        forall k | SendsOf(t.log, r.id, k) ensures t.log[k].token <= s.token {
          assert k < |s.log| ==> SendsOf(s.log, r.id, k);
        }
      } else {
        assert Without(s.running, i)[if j < i then j else j - 1] == s.running[j];
      }
    }
  }

  lemma MovedTokens(s: State, i: nat, later: int)
    requires Conserved(s) && Tokens(s) && i < |s.queue|
    ensures Tokens(Moved(s, i, later))
  {
    var r := s.queue[i];
    var t := Moved(s, i, later);
    QueuedIsOnlyThere(s, i);
    NoSendAppend(s.log, Enqueued(r.id, s.token, !r.flags.withoutLogin));
    forall k | SendsOf(t.log, r.id, k) ensures t.log[k].token <= s.token {
      assert k < |s.log| ==> SendsOf(s.log, r.id, k);
    }
  }

  lemma MovedKeeps(s: State, i: nat, later: int)
    requires Inv(s) && i < |s.queue| && !s.handshake.HandshakeIdle?
    requires s.token == 0 || s.handshake.HandshakeSuccessed? || s.queue[i].flags.withoutLogin
    ensures Inv(Moved(s, i, later))
  {
    var e := Enqueued(s.queue[i].id, s.token, !s.queue[i].flags.withoutLogin);
    MovedConserves(s, i, later);
    MovedTokens(s, i, later);
    QueuedIsOnlyThere(s, i);
    SocketsAppend(s.log, e);
    HistoryAppend(s.log, e);
    LoggedInAppend(s.log, e);
  }

  /** The invariant does not depend on the account, the network, the ping clock or a crash. */
  lemma FlagsKeep(s: State, uin: nat, network: bool, ping: bool, crashed: bool)
    requires Inv(s)
    ensures Inv(s.(uin := uin, networkAvailable := network, pingArmed := ping, crashed := crashed))
  {
  }

  /** Nor on the pause clock. */
  lemma PauseKeeps(s: State, armed: bool, paused: bool, crashed: bool)
    requires Inv(s)
    ensures Inv(s.(pauseArmed := armed, paused := paused, crashed := crashed))
  {
  }

  /** Starting keeps whatever moving, completing and arming the ping clock keep. */
  lemma StartFrom(P: State -> bool, s: State, i: nat, later: int)
    requires i < |s.queue| && P(Moved(s, i, later))
    requires forall t: State, k, code :: P(t) && 0 <= k < |t.running| ==> P(CompleteRunning(t, k, code))
    requires forall t: State, ping :: P(t) ==> P(t.(pingArmed := ping))
    ensures P(Start(s, i, later))
  {
    StartIsMoved(s, i, later);
    var t := Moved(s, i, later);
    var u := if s.queue[i].flags.withoutAck then CompleteRunning(t, |s.running|, Done) else t;
    assert P(u);
    assert Start(s, i, later) == u.(pingArmed := Start(s, i, later).pingArmed);
  }

  lemma StartKeeps(s: State, i: nat, later: int)
    requires Inv(s) && i < |s.queue| && !s.handshake.HandshakeIdle?
    requires s.token == 0 || s.handshake.HandshakeSuccessed? || s.queue[i].flags.withoutLogin
    ensures Inv(Start(s, i, later))
  {
    MovedKeeps(s, i, later);
    forall t: State, k, code | Inv(t) && 0 <= k < |t.running| ensures Inv(CompleteRunning(t, k, code)) {
      CompleteRunningKeeps(t, k, code);
    }
    forall t: State, ping | Inv(t) ensures Inv(t.(pingArmed := ping)) {
      FlagsKeep(t, t.uin, t.networkAvailable, ping, t.crashed);
    }
    StartFrom(Inv, s, i, later);
  }

  // ---- the passes keep whatever their steps keep ----

  ghost predicate KeptByConnect(P: State -> bool) {
    forall s: State, opens :: P(s) ==> P(Connect(s, opens))
  }

  ghost predicate KeptWhileRunning(P: State -> bool) {
    && (forall s: State :: P(s) && s.handshake.HandshakeIdle? ==> s.running == [])
    && (forall s: State, i, now :: P(s) && 0 <= i < |s.running| ==> P(HandleRunning(s, i, now).0))
  }

  ghost predicate KeptWhileQueued(P: State -> bool) {
    forall s: State, i, later :: P(s) && 0 <= i < |s.queue| && !s.handshake.HandshakeIdle? ==> P(HandleQueued(s, i, later))
  }

  lemma {:induction false} RunningPassKeeps(P: State -> bool, s: State, i: nat, w: World, k: nat)
    requires KeptByConnect(P) && KeptWhileRunning(P) && P(s) && i <= |s.running|
    ensures P(RunningPass(s, i, w, k))
    decreases |s.running| - i
  {
    if i < |s.running| {
      var c := Connect(s, Opens(w, k));
      var (t, stays) := HandleRunning(c, i, w.now);
      assert P(c) && P(t);
      RunningPassKeeps(P, t, if stays then i + 1 else i, w, k + 1);
    }
  }

  lemma {:induction false} QueuePassKeeps(P: State -> bool, s: State, i: nat, w: World, k: nat)
    requires KeptByConnect(P) && KeptWhileQueued(P) && P(s) && i <= |s.queue|
    ensures P(QueuePass(s, i, w, k))
    decreases |s.queue| - i
  {
    if i < |s.queue| {
      if s.handshake.HandshakeIdle? {
        QueuePassKeeps(P, s, i + 1, w, k);
      } else {
        var c := Connect(s, Opens(w, k));
        assert P(c) && !c.handshake.HandshakeIdle?;
        QueuePassKeeps(P, HandleQueued(c, i, Later(w, k)), i, w, k + 1);
      }
    }
  }

  lemma PassesKeep(P: State -> bool, s: State, w: World)
    requires KeptByConnect(P) && KeptWhileRunning(P) && KeptWhileQueued(P) && P(s)
    ensures var t := RunningPass(s, 0, w, 0); P(t) && P(QueuePass(t, 0, w, |s.running|))
  {
    RunningPassKeeps(P, s, 0, w, 0);
    QueuePassKeeps(P, RunningPass(s, 0, w, 0), 0, w, |s.running|);
  }

  // ---- and their steps keep the invariant ----

  ghost predicate Live(s: State) {
    Inv(s) && !s.crashed
  }

  lemma ExpireCases(s: State, i: nat, now: int)
    requires i < |s.running|
    ensures var r, t := s.running[i], Expire(s, i, now).0;
            if !r.flags.reSend then t == CompleteRunning(s, i, RequestTimeout)
            else if CanRetry(r.retryCount + 1) then
              t == s.(running := s.running[i := r.(retryCount := r.retryCount + 1, startTime := now)])
            else t == CompleteRunning(s, i, RequestRetryLimit)
  {
  }

  lemma ExpireKeeps(s: State, i: nat, now: int)
    requires Live(s) && i < |s.running|
    ensures Live(Expire(s, i, now).0)
  {
    ExpireCases(s, i, now);
    var r := s.running[i];
    if !r.flags.reSend {
      CompleteRunningKeeps(s, i, RequestTimeout);
    } else if CanRetry(r.retryCount + 1) {
      RetryKeeps(s, i, now);
    } else {
      CompleteRunningKeeps(s, i, RequestRetryLimit);
    }
  }

  lemma HandleRunningKeeps(s: State, i: nat, now: int)
    requires Live(s) && i < |s.running|
    ensures Live(HandleRunning(s, i, now).0)
  {
    var r, t := s.running[i], HandleRunning(s, i, now).0;
    if (!s.networkAvailable || s.token == 0) && !r.flags.reSend {
      CompleteRunningKeeps(s, i, ConnectFail);
      assert t == CompleteRunning(s, i, ConnectFail);
    } else if s.token > 0 && s.token != r.token && (s.handshake.HandshakeSuccessed? || r.flags.withoutLogin) {
      ResendKeeps(s, i, now);
      assert t == Resend(s, i, now);
    } else if IsTimeout(r, now) {
      ExpireKeeps(s, i, now);
      assert t == Expire(s, i, now).0;
    }
  }

  lemma HandleQueuedKeeps(s: State, i: nat, later: int)
    requires Live(s) && i < |s.queue| && !s.handshake.HandshakeIdle?
    ensures Live(HandleQueued(s, i, later))
  {
    var r, t := s.queue[i], HandleQueued(s, i, later);
    if s.token == 0 && !r.flags.reSend {
      CompleteQueuedKeeps(s, i, WithoutConnection);
      assert t == CompleteQueued(s, i, WithoutConnection);
    } else if s.token == 0 || s.handshake.HandshakeSuccessed? || r.flags.withoutLogin {
      StartKeeps(s, i, later);
      assert t == Start(s, i, later);
    } else {
      CompleteQueuedKeeps(s, i, WithoutLogin);
      assert t == CompleteQueued(s, i, WithoutLogin);
    }
  }
}
