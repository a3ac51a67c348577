/** What the other events answer: replies, logout, submission. */
module RequestAnswers {
  import opened Bytes
  import opened RequestLifecycle
  import opened RequestInvariants
  import opened RequestSendings
  import opened RequestRuns
  import opened RequestFates

  // ---- replies ----

  /** The reply to a request carries its sequence number and the command one above its own. */
  predicate Answers(r: Request, cmd: int, seqNo: Uint32) {
    r.messageSeq == seqNo && r.cmdId + 1 == cmd
  }

  /** The answer to a handshake under way, or to a ping. */
  predicate OwnReply(s: State, seqNo: Uint32) {
    (seqNo == 0xFFFF_FFFF && s.handshake.HandshakeIng?) || (seqNo == 0xFFFF_FFFE && s.handshake.HandshakeSuccessed?)
  }

  /** The one running request that is answered is completed and leaves the list; every other stays as it is. */
  lemma ReplyExactly(s: State, cmd: int, seqNo: Uint32, accepted: bool, opens: bool, j: nat)
    requires Live(s) && SocketOpen(s) && j < |s.running| && !OwnReply(s, seqNo)
    ensures var r := s.running[j];
            Meets(Step(s, Packet(cmd, seqNo, accepted, opens)), r.id, if Answers(r, cmd, seqNo) then Over(Done) else Runs(r))
  {
    var r, k := s.running[j], MatchFrom(s.running, 0, cmd, seqNo);
    var t := Step(s, Packet(cmd, seqNo, accepted, opens));
    Begins(s, j);
    assert Alone(s.running, j, r, r.id);
    if k < |s.running| {
      var turn := Over(Done);
      assert t == CompleteRunning(s, k, Done) && Turned(s, k, t, turn);
      if k == j {
        OwnTurn(s, k, t, turn, r, r.id);
      } else {
        OtherTurn(s, k, t, turn, r.id, Runs(r));
      }
    } else {
      assert t == s;
    }
  }

  /** The answer to a handshake logs in; a refusal closes the connection and tries again. */
  lemma HandshakeAnswered(s: State, cmd: int, accepted: bool, opens: bool)
    requires Live(s) && SocketOpen(s) && s.handshake.HandshakeIng?
    ensures var t := Step(s, Packet(cmd, 0xFFFF_FFFF, accepted, opens));
            && t.running == s.running && t.queue == s.queue
            && if accepted then
                 t.handshake.HandshakeSuccessed? && LoggedIn(t.log) && t.token == s.token && t.socket == s.socket && SocketOpen(t)
               else
                 && t.handshake.HandshakeIng? && t.token == 0 && !LoggedIn(t.log)
                 && (SocketOpen(t) <==> s.networkAvailable && opens) && (SocketOpen(t) ==> t.socket == s.socket + 1)
  {
    if accepted {
      LoggedInAppend(s.log, HandshakeOk);
    } else {
      var u := CloseConnect(s);
      ClosedDown(s);
      ConnectExactly(u, opens);
      LoggedInAppend(u.log, ConnectionClosed);
      assert Step(s, Packet(cmd, 0xFFFF_FFFF, accepted, opens)) == Connect(u, opens);
    }
  }

  lemma ClosedDown(s: State)
    requires SocketOpen(s) && s.handshake.HandshakeIng?
    ensures var u := CloseConnect(s);
            && u.running == s.running && u.queue == s.queue && u.networkAvailable == s.networkAvailable
            && !SocketOpen(u) && u.token == 0 && u.socket == s.socket && u.handshake.HandshakeIng? && !LoggedIn(u.log)
  {
    LoggedInAppend(s.log, ConnectionClosed);
    LoggedInAppend(s.log + [ConnectionClosed], ConnectionClosed);
  }

  // ---- logout ----

  /** Each of these requests is over for want of a login, in order. */
  function Drops(rs: seq<Request>): seq<Entry> {
    seq(|rs|, i requires 0 <= i < |rs| => Completed(rs[i].id, WithoutLogin))
  }

  lemma DropsFirst(log: seq<Entry>, rs: seq<Request>)
    requires rs != []
    ensures log + [Completed(rs[0].id, WithoutLogin)] + Drops(rs[1..]) == log + Drops(rs)
  {
    assert Drops(rs) == [Completed(rs[0].id, WithoutLogin)] + Drops(rs[1..]);
  }

  lemma {:induction false} QueuedDropped(s: State)
    ensures CompleteAllQueued(s) == s.(queue := [], log := s.log + Drops(s.queue))
    decreases |s.queue|
  {
    if s.queue != [] {
      var u := CompleteQueued(s, 0, WithoutLogin);
      assert u == s.(queue := s.queue[1..], log := s.log + [Completed(s.queue[0].id, WithoutLogin)]);
      QueuedDropped(u);
      DropsFirst(s.log, s.queue);
    } else {
      assert s.log + Drops([]) == s.log;
    }
  }

  lemma {:induction false} RunningDropped(s: State)
    ensures CompleteAllRunning(s) == s.(running := [], log := s.log + Drops(s.running))
    decreases |s.running|
  {
    if s.running != [] {
      var u := CompleteRunning(s, 0, WithoutLogin);
      assert u == s.(running := s.running[1..], log := s.log + [Completed(s.running[0].id, WithoutLogin)]);
      RunningDropped(u);
      DropsFirst(s.log, s.running);
    } else {
      assert s.log + Drops([]) == s.log;
    }
  }

  /** The completions logout logs: first the queue, then the running list, each in order. */
  function Dropped(s: State): seq<Entry> {
    Drops(s.queue) + Drops(s.running)
  }

  /** Logging out completes every request there is, forgets the account, and leaves no connection and no handshake. */
  lemma LogoutExactly(s: State)
    requires Live(s) && !s.handshake.HandshakeIdle?
    ensures var t := ClearUp(s);
            && t.uin == 0 && t.queue == [] && t.running == [] && t.handshake.HandshakeIdle? && !t.crashed
            && t.token == 0 && !SocketOpen(t) && t.tasks == s.tasks
            && |s.log + Dropped(s)| <= |t.log| && t.log[..|s.log + Dropped(s)|] == s.log + Dropped(s)
            && forall k | |s.log + Dropped(s)| <= k < |t.log| :: t.log[k].ConnectionClosed?
  {
    var u := s.(uin := 0);
    QueuedDropped(u);
    RunningDropped(CompleteAllQueued(u));
    var v := CompleteAllRunning(CompleteAllQueued(u));
    assert v.log == s.log + Dropped(s);
    HungUp(v);
  }

  lemma HungUp(v: State)
    requires !v.handshake.HandshakeIdle? && (v.token != 0 ==> v.status.Connected?)
    ensures var t := CloseConnect(v);
            && t == v.(token := t.token, status := t.status, handshake := t.handshake, log := t.log)
            && t.token == 0 && !SocketOpen(t) && |v.log| <= |t.log| && t.log[..|v.log|] == v.log
            && forall k | |v.log| <= k < |t.log| :: t.log[k].ConnectionClosed?
  {
    if !v.status.StatusIdle? {
      assert CloseConnect(v).log == v.log + [ConnectionClosed] + [ConnectionClosed];
    }
  }

  // ---- the connection ----

  /** The manager hears of the loss unless there is no handshake; a login is then undone. */
  ghost predicate HeardOfLoss(s: State, t: State, heard: bool) {
    && t.log == (if heard then s.log + [ConnectionClosed] else s.log)
    && t.handshake == (if heard then HandshakeIng else s.handshake)
  }

  /**
   * A connection is tried only with the network, and only when there is none; a try that
   * fails, and a try without the network, count as a loss.
   */
  lemma ConnectExactly(s: State, opens: bool)
    ensures var t, tries := Connect(s, opens), s.networkAvailable && !SocketOpen(s);
            && (SocketOpen(t) <==> SocketOpen(s) || (tries && opens))
            && t.socket == s.socket + (if tries && opens then 1 else 0)
            && t.token == (if tries && !opens then 0 else s.token)
            && (tries && opens ==> t.status.Connecting?)
            && (tries && !opens ==> t.status == if s.handshake.HandshakeIdle? then StatusIdle else Reconnecting)
            && (!tries ==> t.status == s.status)
            && HeardOfLoss(s, t, !s.handshake.HandshakeIdle? && (!s.networkAvailable || (tries && !opens)))
  {
  }

  /** A lost connection has no token, and is tried again later as long as there is a handshake. */
  lemma LostExactly(s: State)
    requires Live(s)
    ensures var t := Step(s, SocketClosed);
            && t.token == 0 && t.socket == s.socket && t.running == s.running && t.queue == s.queue
            && t.status == (if s.handshake.HandshakeIdle? then StatusIdle else Reconnecting)
            && HeardOfLoss(s, t, !s.handshake.HandshakeIdle?)
  {
  }

  /** The timer tries again exactly while the connection is lost. */
  lemma TriedAgainExactly(s: State, opens: bool)
    requires Live(s)
    ensures var t := Step(s, ReconnectTimer(opens));
            && (SocketOpen(t) && !SocketOpen(s) <==> s.status.Reconnecting? && s.networkAvailable && opens)
            && (!s.status.Reconnecting? ==> t == s)
  {
    ConnectExactly(s, opens);
  }

  /** A header that is refused, and a forced change of server, give up the connection and at once try for another. */
  lemma ReopenedExactly(s: State, opens: bool)
    requires Live(s) && !s.handshake.HandshakeIdle?
    ensures var t := Reconnect(s, opens);
            && t.token == 0 && (SocketOpen(s) ==> t.handshake.HandshakeIng?)
            && (SocketOpen(t) <==> s.networkAvailable && opens)
            && t.socket == s.socket + (if SocketOpen(t) then 1 else 0)
            && (!SocketOpen(t) ==> t.status.Reconnecting?)
            && t.running == s.running && t.queue == s.queue
  {
    var u := CloseConnect(s).(status := Reconnecting);
    assert u.token == 0 && u.socket == s.socket && u.handshake.HandshakeIdle? == s.handshake.HandshakeIdle?;
    ConnectExactly(u, opens);
  }

  /** A refused header gives up an open connection; there is none without an open socket. */
  lemma HeaderRefusedExactly(s: State, opens: bool)
    requires Live(s) && !s.handshake.HandshakeIdle?
    ensures var t := Step(s, HeaderRejected(opens));
            if SocketOpen(s) then t.token == 0 && t.handshake.HandshakeIng? && (SocketOpen(t) <==> s.networkAvailable && opens)
            else t == s
  {
    ReopenedExactly(s, opens);
  }

  /** A socket that gets connected has a token no connection had before; the handshake goes out on it unless it is done. */
  lemma ConnectedExactly(s: State, fails: bool, w: World)
    requires Live(s) && s.status.Connecting? && !s.handshake.HandshakeIdle?
    ensures var t := Step(s, SocketConnected(fails, w));
            && t.nextToken == s.nextToken + 1 && t.socket == s.socket && t.running == s.running && t.queue == s.queue
            && if fails && s.handshake.HandshakeIng? then t.token == 0 && t.status.Reconnecting?
               else t.token == s.nextToken && t.status.Connected? && t.handshake == s.handshake
  {
    var u := s.(status := Connected, token := s.nextToken, nextToken := s.nextToken + 1, pingArmed := true);
    assert WriteAll(u, []) == u;
  }

  // ---- submission ----

  /** Without an account a request is refused at once; with one it is scheduled as it was asked for, by default for thirty seconds. */
  lemma SubmittedExactly(s: State, cmdId: Int32, flags: Flags, timeout: Uint64)
    requires Live(s)
    ensures var t := Step(s, CallSend(cmdId, flags, timeout));
            && t.submitted == s.submitted + 1 && t.queue == s.queue && t.running == s.running
            && if s.uin == 0 then t.log == s.log + [Completed(s.submitted, WithoutLogin)] && t.tasks == s.tasks
               else
                 && t.log == s.log && |t.tasks| == |s.tasks| + 1 && t.tasks[..|s.tasks|] == s.tasks && t.tasks[|s.tasks|].SendTask?
                 && var r := t.tasks[|s.tasks|].request;
                    && r.id == s.submitted && r.cmdId == cmdId && r.flags == flags
                    && r.timeout == (if timeout == 0 then 30_000 else timeout)
                    && r.startTime == r.retryCount == r.token == r.messageSeq == 0
  {
  }

  lemma SendTaskIs(s: State, w: World, t: State)
    requires !s.crashed && s.tasks != [] && s.tasks[0].SendTask?
    requires t == s.(tasks := s.tasks[1..], queue := s.queue + [s.tasks[0].request])
    ensures Step(s, RunTask(w)) == Process(t, w)
  {
  }

  /** The task of a submission: the request joins the queue, and with a handshake it meets its fate at once. */
  lemma SendTaskExactly(s: State, w: World, r: Request, t: State, j: nat, u: State)
    requires Live(s) && s.tasks != [] && s.tasks[0] == SendTask(r) && Clocked(s.running, w.now) && j == |s.queue|
    requires t == s.(tasks := s.tasks[1..], queue := s.queue + [r]) && u == Step(s, RunTask(w))
    ensures if s.handshake.HandshakeIdle? then u == t
            else Meets(u, r.id, QueuedFate(t, r, Number(t, j), Later(w, |t.running| + j))) == true
  {
    SendTaskTaken(s);
    SendTaskIs(s, w, t);
    JoinedMeets(t, w, j, r, u);
  }

  lemma JoinedMeets(t: State, w: World, j: nat, r: Request, u: State)
    requires Live(t) && j < |t.queue| && t.queue[j] == r && Clocked(t.running, w.now) && u == Process(t, w)
    ensures if t.handshake.HandshakeIdle? then u == t
            else Meets(u, r.id, QueuedFate(t, r, Number(t, j), Later(w, |t.running| + j))) == true
  {
    if t.handshake.HandshakeIdle? {
      IdleProcess(t, w);
    } else {
      QueuedMeets(t, w, j, r);
    }
  }

  // ---- the hand-over ----

  function Joined(parts: seq<seq<nat>>): seq<nat> {
    if parts == [] then [] else parts[0] + Joined(parts[1..])
  }

  /** One call of `sendData` after the other. */
  function SendAll(s: State, parts: seq<seq<nat>>, batches: seq<Batch>): State
    requires |parts| == |batches|
    decreases |parts|
  {
    if parts == [] then s
    else SendAll(SendData(s, parts[0], batches[0].opens, batches[0].fails), parts[1..], batches[1..])
  }

  /** However the messages are cut into batches, the hand-over sends these batches in this order. */
  lemma {:induction false} EveryCut(s: State, parts: seq<seq<nat>>, batches: seq<Batch>)
    requires |parts| == |batches| && forall k | 0 <= k < |parts| :: 1 <= |parts[k]| == batches[k].size
    ensures HandOver(s, Joined(parts), batches) == SendAll(s, parts, batches)
    decreases |parts|
  {
    if parts != [] {
      var messages, n := Joined(parts), |parts[0]|;
      assert messages[..n] == parts[0] && messages[n..] == Joined(parts[1..]);
      EveryCut(SendData(s, parts[0], batches[0].opens, batches[0].fails), parts[1..], batches[1..]);
    }
  }

  /** The account and the network are what they were set to; with an account and a handshake a returning network is tried at once. */
  lemma SetExactly(s: State, w: World)
    requires Live(s) && s.tasks != []
    ensures var t := Step(s, RunTask(w));
            && (s.tasks[0].SetUinTask? ==> t == s.(tasks := s.tasks[1..], uin := s.tasks[0].uid))
            && (s.tasks[0].SetNetworkTask? ==>
                  && t.networkAvailable == s.tasks[0].available && t.uin == s.uin
                  && t.running == s.running && t.queue == s.queue
                  && (SocketOpen(t) <==>
                      (SocketOpen(s) || (t.networkAvailable && !s.handshake.HandshakeIdle? && s.uin != 0 && Opens(w, 0)))))
  {
    if s.tasks[0].SetNetworkTask? {
      ConnectExactly(s.(tasks := s.tasks[1..], networkAvailable := s.tasks[0].available), Opens(w, 0));
    }
  }

  /** An account is set by the next task, unless it is none or set already; it is never taken back that way. */
  lemma AccountExactly(s: State, uid: nat, w: World)
    requires Live(s) && s.tasks == []
    ensures Step(s, CallSetUin(uid)) == s <==> uid == 0 || uid == s.uin
    ensures Step(Step(s, CallSetUin(uid)), RunTask(w)) == s.(uin := if uid == 0 then s.uin else uid)
  {
    var t := Step(s, CallSetUin(uid));
    if uid != 0 && uid != s.uin {
      assert t.tasks == [SetUinTask(uid)] && t.tasks[1..] == [];
    }
  }

  // ---- the end of select ----

  /** What the end of `select` comes to when nothing crashes. */
  lemma SelectIs(s: State, t: State, pauseDue: bool, pingDue: bool, opens: bool, fails: bool, w: World)
    requires !s.crashed && t == PauseCheck(s, pauseDue) && !t.crashed
    ensures Step(s, SelectTail(pauseDue, pingDue, opens, fails, w)) == SelectEnd(t, pingDue, opens, fails, w)
  {
  }

  lemma BeginsNow(s: State, pingDue: bool, opens: bool, fails: bool, w: World)
    requires Live(s) && s.handshake.HandshakeIdle? && s.uin != 0
    ensures var t := SelectEnd(s, pingDue, opens, fails, w);
            t.handshake.HandshakeIng? && t.token == 0 && t.queue == s.queue && t.running == []
            && (SocketOpen(t) <==> s.networkAvailable && Opens(w, 0))
  {
    var u := CloseConnect(s.(handshake := HandshakeIng));
    assert u.token == 0 && !SocketOpen(u) && u.handshake.HandshakeIng? && u.networkAvailable == s.networkAvailable;
    assert u.queue == s.queue && u.running == s.running;
    ConnectExactly(u, Opens(w, 0));
    assert SelectEnd(s, pingDue, opens, fails, w) == Connect(u, Opens(w, 0));
  }

  lemma NothingBegins(s: State, pingDue: bool, opens: bool, fails: bool, w: World)
    requires Live(s) && s.handshake.HandshakeIdle? && s.uin == 0 && !(pingDue && s.pingArmed)
    ensures SelectEnd(s, pingDue, opens, fails, w) == s
  {
    IdleProcess(s, w);
  }

  /** From the start nothing happens without an account, however often `select` returns and whatever is due. */
  lemma {:induction false} NothingWithoutAccount(events: seq<Event>)
    requires forall k | 0 <= k < |events| :: events[k].SelectTail?
    ensures Run(Initial(0), events) == Initial(0)
    decreases |events|
  {
    if events != [] {
      NothingWithoutAccount(events[..|events| - 1]);
      RunKeeps(0, events[..|events| - 1]);
      var e := events[|events| - 1];
      BegunExactly(Initial(0), e.pauseDue, e.pingDue, e.pingOpens, e.pingFails, e.world);
    }
  }

  /** Without a handshake one begins exactly if there is an account; without an account nothing happens at all. */
  lemma BegunExactly(s: State, pauseDue: bool, pingDue: bool, opens: bool, fails: bool, w: World)
    requires Live(s) && s.handshake.HandshakeIdle? && !Crashes(s, SelectTail(pauseDue, pingDue, opens, fails, w))
    ensures var t := Step(s, SelectTail(pauseDue, pingDue, opens, fails, w));
            if s.uin == 0 then t == s
            else t.handshake.HandshakeIng? && t.token == 0 && t.queue == s.queue && t.running == []
                 && (SocketOpen(t) <==> s.networkAvailable && Opens(w, 0))
  {
    SelectIs(s, s, pauseDue, pingDue, opens, fails, w);
    if s.uin == 0 {
      NothingBegins(s, pingDue, opens, fails, w);
    } else {
      BeginsNow(s, pingDue, opens, fails, w);
    }
  }

  /** A ping opens a connection that is missing, can lose one, and otherwise only ends a pause. */
  lemma PingExactly(s: State, opens: bool, fails: bool)
    requires Live(s) && !s.handshake.HandshakeIdle?
    ensures var t := Ping(s, opens, fails);
            && t.running == s.running && t.queue == s.queue && !t.paused && (t.pauseArmed <==> s.pauseArmed || s.paused)
            && (SocketOpen(t) <==> if SocketOpen(s) then !fails else s.networkAvailable && opens)
            && (SocketOpen(s) && !fails ==> t.token == s.token && t.handshake == s.handshake && t.log == s.log)
            && (SocketOpen(s) && fails ==> t.token == 0 && t.handshake.HandshakeIng?)
  {
    assert WriteAll(s, []) == s;
    ConnectExactly(s, opens);
  }

  /** The state in which the pass at the end of `select` begins. */
  function PassStart(s: State, pauseDue: bool, pingDue: bool, opens: bool, fails: bool): State {
    var t := PauseCheck(s, pauseDue);
    if pingDue && s.pingArmed then Ping(t, opens, fails) else t
  }

  /** With a handshake every running request meets its fate at the end of `select`, after the ping if one is due. */
  lemma SelectMeets(s: State, pauseDue: bool, pingDue: bool, opens: bool, fails: bool, w: World, j: nat)
    requires Live(s) && j < |s.running| && Clocked(s.running, w.now)
    ensures var u, r := PassStart(s, pauseDue, pingDue, opens, fails), s.running[j];
            Meets(Step(s, SelectTail(pauseDue, pingDue, opens, fails, w)), r.id, RunningFate(u, r, w.now))
  {
    var u := PassStart(s, pauseDue, pingDue, opens, fails);
    PassStartKeeps(s, pauseDue, pingDue, opens, fails);
    PauseCheckKeeps(s, pauseDue);
    SelectIs(s, PauseCheck(s, pauseDue), pauseDue, pingDue, opens, fails, w);
    EndIsPass(PauseCheck(s, pauseDue), pingDue, opens, fails, w, u);
    RunningMeets(u, w, j);
  }

  lemma EndIsPass(t: State, pingDue: bool, opens: bool, fails: bool, w: World, u: State)
    requires !t.handshake.HandshakeIdle? && u == if pingDue && t.pingArmed then Ping(t, opens, fails) else t
    ensures SelectEnd(t, pingDue, opens, fails, w) == Process(u, w)
  {
  }

  lemma PassStartKeeps(s: State, pauseDue: bool, pingDue: bool, opens: bool, fails: bool)
    requires Live(s) && !s.handshake.HandshakeIdle?
    ensures var u := PassStart(s, pauseDue, pingDue, opens, fails);
            Live(u) && u.running == s.running && u.queue == s.queue && !u.handshake.HandshakeIdle?
  {
    var t := PauseCheck(s, pauseDue);
    PauseCheckKeeps(s, pauseDue);
    if pingDue && s.pingArmed {
      PingKeeps(t, opens, fails);
      PingExactly(t, opens, fails);
      SendNothingKeeps(t, opens, fails);
    }
  }

  // ---- pauses ----

  /** A pause begins when it is due, only after it was asked for, and ends with a resumption. */
  lemma PausedExactly(s: State, due: bool, isPush: bool)
    requires Live(s) && !s.handshake.HandshakeIdle? && (s.paused ==> s.pauseArmed)
    ensures PauseCheck(s, due).paused <==> s.paused || (due && s.pauseArmed)
    ensures !Resume(s, isPush).paused && (Resume(s, isPush).pauseArmed <==> isPush && s.pauseArmed)
    ensures Step(s, CallPause).pauseArmed
  {
  }
}
