/** Every event keeps the invariant of the requests, and what follows for every run. */
module RequestRuns {
  import opened Bytes
  import opened RequestLifecycle
  import opened RequestInvariants
  import opened RequestSendings

  // ---- crashes ----

  /** Logging out, resuming by the user and setting the only server look at the connection. */
  predicate NeedsConnection(task: Task) {
    task.ClearUpTask? || task == ResumeTask(false) || task == SetServerTask(true)
  }

  /**
   * The ways to crash, all while there is no handshake and so no connection: a task that
   * looks at the connection, a pause that begins, or a ping that is due.
   */
  predicate Crashes(s: State, e: Event) {
    s.handshake.HandshakeIdle? &&
    match e
    case RunTask(_) => s.tasks != [] && NeedsConnection(s.tasks[0])
    case SelectTail(pauseDue, pingDue, _, _, _) =>
      (pauseDue && s.pauseArmed && !s.paused) || (pingDue && s.pingArmed && s.uin == 0)
    case _ => false
  }

  /** The invariant holds and the client has crashed exactly if `crashes`. */
  ghost predicate Ends(s: State, crashes: bool) {
    Inv(s) && s.crashed == crashes
  }

  // ---- every event keeps the invariant ----

  lemma {:induction false} CompleteAllKeeps(s: State)
    requires Live(s)
    ensures var t := CompleteAllRunning(CompleteAllQueued(s));
            Live(t) && t.handshake == s.handshake && t.running == [] && t.queue == []
    decreases |s.queue| + |s.running|
  {
    if s.queue != [] {
      CompleteQueuedKeeps(s, 0, WithoutLogin);
      CompleteAllKeeps(CompleteQueued(s, 0, WithoutLogin));
    } else if s.running != [] {
      CompleteRunningKeeps(s, 0, WithoutLogin);
      var t := CompleteRunning(s, 0, WithoutLogin);
      assert CompleteAllQueued(t) == t;
      CompleteAllKeeps(t);
    }
  }

  lemma ClosedDownKeeps(t: State)
    requires Live(t) && t.running == [] && t.queue == [] && !t.handshake.HandshakeIdle?
    ensures Live(CloseConnect(t).(handshake := HandshakeIdle))
  {
    CloseConnectKeeps(t);
  }

  lemma ClearUpKeeps(s: State)
    requires Live(s)
    ensures Ends(ClearUp(s), s.handshake.HandshakeIdle?)
  {
    FlagsKeep(s, 0, s.networkAvailable, s.pingArmed, s.crashed);
    CompleteAllKeeps(s.(uin := 0));
    var t := CompleteAllRunning(CompleteAllQueued(s.(uin := 0)));
    if t.handshake.HandshakeIdle? {
      FlagsKeep(t, t.uin, t.networkAvailable, t.pingArmed, true);
      assert ClearUp(s) == t.(crashed := true);
    } else {
      ClosedDownKeeps(t);
      assert ClearUp(s) == CloseConnect(t).(handshake := HandshakeIdle);
    }
  }

  lemma SendTaskConserves(s: State)
    requires Conserved(s) && s.tasks != [] && s.tasks[0].SendTask?
    ensures Conserved(s.(tasks := s.tasks[1..], queue := s.queue + [s.tasks[0].request]))
  {
    IdsAppend(s.queue, s.tasks[0].request);
    assert TaskIds(s.tasks) == [s.tasks[0].request.id] + TaskIds(s.tasks[1..]);
  }

  lemma SendTaskNumbers(s: State, t: State)
    requires Numbers(s) && Tokens(s) && s.tasks != [] && s.tasks[0].SendTask?
    requires t == s.(tasks := s.tasks[1..], queue := s.queue + [s.tasks[0].request])
    ensures Numbers(t) && Tokens(t)
  {
  }

  lemma SendTaskTaken(s: State)
    requires Live(s) && s.tasks != [] && s.tasks[0].SendTask?
    ensures Live(s.(tasks := s.tasks[1..], queue := s.queue + [s.tasks[0].request]))
  {
    SendTaskConserves(s);
    SendTaskNumbers(s, s.(tasks := s.tasks[1..], queue := s.queue + [s.tasks[0].request]));
  }

  lemma OtherTaskTaken(s: State)
    requires Live(s) && s.tasks != [] && !s.tasks[0].SendTask?
    ensures Live(s.(tasks := s.tasks[1..]))
  {
  }

  lemma TaskAdded(s: State, task: Task)
    requires Live(s) && !task.SendTask?
    ensures Live(s.(tasks := s.tasks + [task]))
  {
    var t := s.(tasks := s.tasks + [task]);
    TaskIdsAppend(s.tasks, task);
    assert Conserved(t);
    assert forall i | 0 <= i < |t.tasks| && t.tasks[i].SendTask? :: i < |s.tasks| && t.tasks[i] == s.tasks[i];
    assert Numbers(t) && Tokens(t);
  }

  lemma EveryoneGrows(n: nat)
    ensures Everyone(n + 1) == Everyone(n) + multiset{n}
  {
    assert seq(n + 1, i => i) == seq(n, i => i) + [n];
  }

  lemma RefusedConserves(s: State, e: Entry)
    requires Conserved(s) && e.Completed? && e.id == s.submitted
    ensures Conserved(s.(submitted := s.submitted + 1, log := s.log + [e]))
  {
    EveryoneGrows(s.submitted);
    DoneAppend(s.log, e);
  }

  lemma RefusedNumbers(s: State, t: State, e: Entry)
    requires Inv(s) && e.Completed? && e.id == s.submitted && t == s.(submitted := s.submitted + 1, log := s.log + [e])
    ensures Numbers(t) && Tokens(t)
  {
    EveryoneOnce(s.submitted, s.submitted);
    NowhereElse(s, s.submitted);
    NoSendAppend(s.log, e);
  }

  lemma RefusedLogged(s: State, t: State, e: Entry)
    requires Inv(s) && e.Completed? && e.id == s.submitted && t == s.(submitted := s.submitted + 1, log := s.log + [e])
    ensures History(t.log) && Sockets(t.log, t.socket, t.token, SocketOpen(t)) && (LoggedIn(s.log) ==> LoggedIn(t.log))
  {
    EveryoneOnce(s.submitted, s.submitted);
    NowhereElse(s, s.submitted);
    NoSendAppend(s.log, e);
    SocketsAppend(s.log, e);
    HistoryAppend(s.log, e);
    LoggedInAppend(s.log, e);
  }

  lemma RefusedKeeps(s: State, cmdId: Int32, flags: Flags, timeout: Uint64)
    requires Live(s) && s.uin == 0
    ensures Live(Submit(s, cmdId, flags, timeout))
  {
    var t, e := Submit(s, cmdId, flags, timeout), Completed(s.submitted, WithoutLogin);
    RefusedConserves(s, e);
    RefusedNumbers(s, t, e);
    RefusedLogged(s, t, e);
  }

  lemma AcceptedConserves(s: State, r: Request)
    requires Conserved(s) && r.id == s.submitted
    ensures Conserved(s.(submitted := s.submitted + 1, tasks := s.tasks + [SendTask(r)]))
  {
    EveryoneGrows(s.submitted);
    TaskIdsAppend(s.tasks, SendTask(r));
  }

  lemma AcceptedKeeps(s: State, cmdId: Int32, flags: Flags, timeout: Uint64)
    requires Live(s) && s.uin != 0
    ensures Live(Submit(s, cmdId, flags, timeout))
  {
    var r, t := NewRequest(s.submitted, cmdId, flags, timeout), Submit(s, cmdId, flags, timeout);
    AcceptedConserves(s, r);
    assert Conserved(t);
    assert forall i | 0 <= i < |t.tasks| && t.tasks[i].SendTask? ::
             if i < |s.tasks| then t.tasks[i] == s.tasks[i] else t.tasks[i].request == r;
    assert Numbers(t) && Tokens(t);
  }

  lemma HandshakeOkKeeps(s: State)
    requires Live(s) && s.handshake.HandshakeIng?
    ensures Live(s.(handshake := HandshakeSuccessed, log := s.log + [HandshakeOk]))
  {
    DoneAppend(s.log, HandshakeOk);
    NoSendAppend(s.log, HandshakeOk);
    SocketsAppend(s.log, HandshakeOk);
    HistoryAppend(s.log, HandshakeOk);
    LoggedInAppend(s.log, HandshakeOk);
  }

  lemma PacketKeeps(s: State, cmd: int, seqNo: Uint32, accepted: bool, opens: bool)
    requires Live(s)
    ensures Live(OnPacket(s, cmd, seqNo, accepted, opens))
  {
    var t := OnPacket(s, cmd, seqNo, accepted, opens);
    if seqNo == HANDSHAKE_SEQ && s.handshake.HandshakeIng? {
      if accepted {
        HandshakeOkKeeps(s);
      } else {
        CloseConnectKeeps(s);
        ConnectKeeps(CloseConnect(s), opens);
        assert t == Connect(CloseConnect(s), opens);
      }
    } else if seqNo == PING_SEQ && s.handshake.HandshakeSuccessed? {
      assert t == s;
    } else {
      var k := MatchFrom(s.running, 0, cmd, seqNo);
      if k < |s.running| {
        CompleteRunningKeeps(s, k, Done);
        assert t == CompleteRunning(s, k, Done);
      }
    }
  }

  /** Handing over nothing can still open a connection or lose it. */
  lemma SendNothingKeeps(s: State, opens: bool, fails: bool)
    requires Live(s)
    ensures Live(SendData(s, [], opens, fails))
    ensures SendData(s, [], opens, fails).handshake.HandshakeIdle? == s.handshake.HandshakeIdle?
  {
    assert WriteAll(s, []) == s;
    if s.status.StatusIdle? || s.status.Reconnecting? {
      ConnectKeeps(s, opens);
    } else if fails {
      ClosedByPeerKeeps(s);
    }
  }

  lemma GreetKeeps(t: State, fails: bool, w: World)
    requires Live(t)
    ensures Live(Greet(t, fails, w))
  {
    match t.handshake {
      case HandshakeIdle =>
        LiveProcess(t, w);
        assert Greet(t, fails, w) == Process(t, w);
      case HandshakeIng =>
        FlagsKeep(t, t.uin, t.networkAvailable, true, t.crashed);
        SendNothingKeeps(t.(pingArmed := true), false, fails);
        assert Greet(t, fails, w) == SendData(t.(pingArmed := true), [], false, fails);
      case HandshakeSuccessed =>
        assert Greet(t, fails, w) == t;
    }
  }

  lemma NewToken(s: State)
    requires Live(s) && s.status.Connecting?
    ensures Live(s.(status := Connected, token := s.nextToken, nextToken := s.nextToken + 1))
  {
  }

  lemma SocketConnectedKeeps(s: State, fails: bool, w: World)
    requires Live(s) && s.status.Connecting?
    ensures Live(OnSocketConnected(s, fails, w))
  {
    var t := s.(status := Connected, token := s.nextToken, nextToken := s.nextToken + 1);
    NewToken(s);
    GreetKeeps(t, fails, w);
    assert OnSocketConnected(s, fails, w) == Greet(t, fails, w);
  }

  lemma PingKeeps(s: State, opens: bool, fails: bool)
    requires Live(s)
    ensures Live(Ping(s, opens, fails))
  {
    SendNothingKeeps(s, opens, fails);
    var t := SendData(s, [], opens, fails);
    PauseKeeps(t, s.pauseArmed || s.paused, false, t.crashed);
  }

  lemma SelectEndKeeps(s: State, pingDue: bool, pingOpens: bool, pingFails: bool, w: World)
    requires Live(s)
    ensures Ends(SelectEnd(s, pingDue, pingOpens, pingFails, w), pingDue && s.pingArmed && s.handshake.HandshakeIdle? && s.uin == 0)
  {
    var t := SelectEnd(s, pingDue, pingOpens, pingFails, w);
    if s.handshake.HandshakeIdle? && s.uin != 0 {
      var begun := s.(handshake := HandshakeIng);
      CloseConnectKeeps(begun);
      ConnectKeeps(CloseConnect(begun), Opens(w, 0));
      assert t == Connect(CloseConnect(begun), Opens(w, 0));
    } else if pingDue && s.pingArmed {
      if s.handshake.HandshakeIdle? {
        FlagsKeep(s, s.uin, s.networkAvailable, s.pingArmed, true);
        assert t == s.(crashed := true);
      } else {
        PingKeeps(s, pingOpens, pingFails);
        LiveProcess(Ping(s, pingOpens, pingFails), w);
        assert t == Process(Ping(s, pingOpens, pingFails), w);
      }
    } else {
      LiveProcess(s, w);
      assert t == Process(s, w);
    }
  }

  lemma PauseCheckKeeps(s: State, due: bool)
    requires Live(s)
    ensures var t := PauseCheck(s, due);
            && Ends(t, due && s.pauseArmed && !s.paused && s.handshake.HandshakeIdle?)
            && t.handshake == s.handshake && t.pingArmed == s.pingArmed && t.uin == s.uin
  {
    PauseKeeps(s, s.pauseArmed, true, s.handshake.HandshakeIdle?);
  }

  /** What holds of the crash or of the rest of `select` holds of the end of `select`. */
  lemma SelectTailFrom(P: State -> bool, s: State, t: State, pauseDue: bool, pingDue: bool, pingOpens: bool, pingFails: bool, w: World)
    requires t == PauseCheck(s, pauseDue) && if t.crashed then P(t) else P(SelectEnd(t, pingDue, pingOpens, pingFails, w))
    ensures P(OnSelectTail(s, pauseDue, pingDue, pingOpens, pingFails, w))
  {
  }

  lemma SelectTailKeeps(s: State, pauseDue: bool, pingDue: bool, pingOpens: bool, pingFails: bool, w: World, crashes: bool)
    requires Live(s) && crashes == Crashes(s, SelectTail(pauseDue, pingDue, pingOpens, pingFails, w))
    ensures Ends(OnSelectTail(s, pauseDue, pingDue, pingOpens, pingFails, w), crashes)
  {
    var t := PauseCheck(s, pauseDue);
    PauseCheckKeeps(s, pauseDue);
    if t.crashed {
      assert Ends(t, crashes);
    } else {
      SelectEndKeeps(t, pingDue, pingOpens, pingFails, w);
      assert Ends(SelectEnd(t, pingDue, pingOpens, pingFails, w), crashes);
    }
    SelectTailFrom((u: State) => Ends(u, crashes), s, t, pauseDue, pingDue, pingOpens, pingFails, w);
  }

  lemma SetNetworkFrom(P: State -> bool, s: State, t: State, available: bool, w: World)
    requires t == s.(networkAvailable := available) && P(t) && P(Connect(t, Opens(w, 0)))
    ensures P(DoTask(s, SetNetworkTask(available), w))
  {
  }

  lemma SetNetworkKeeps(s: State, available: bool, w: World)
    requires Live(s)
    ensures Live(DoTask(s, SetNetworkTask(available), w)) == true
  {
    var t := s.(networkAvailable := available);
    FlagsKeep(s, s.uin, available, s.pingArmed, s.crashed);
    ConnectKeeps(t, Opens(w, 0));
    SetNetworkFrom((u: State) => Live(u), s, t, available, w);
  }

  lemma ReconnectKeeps(s: State, opens: bool)
    requires Live(s)
    ensures Live(Reconnect(s, opens))
  {
    CloseConnectKeeps(s);
    var t := CloseConnect(s);
    assert t.token == 0 && !t.crashed;
    ReleasedKeeps(t, Reconnecting);
    assert t.(token := 0, status := Reconnecting) == t.(status := Reconnecting);
    ConnectKeeps(t.(status := Reconnecting), opens);
  }

  lemma ResumeKeeps(s: State, isPush: bool)
    requires Live(s)
    ensures Ends(Resume(s, isPush), !isPush && s.handshake.HandshakeIdle?)
  {
    PauseKeeps(s, s.pauseArmed || s.paused, false, false);
    PauseKeeps(s, false, false, false);
    PauseKeeps(s, false, false, true);
  }

  lemma SetServerKeeps(s: State, single: bool, w: World)
    requires Live(s)
    ensures Ends(DoTask(s, SetServerTask(single), w), single && s.handshake.HandshakeIdle?)
  {
    if single && s.handshake.HandshakeIdle? {
      PauseKeeps(s, s.pauseArmed, s.paused, true);
      assert DoTask(s, SetServerTask(single), w) == s.(crashed := true);
    } else if single {
      ReconnectKeeps(s, Opens(w, 0));
      assert DoTask(s, SetServerTask(single), w) == Reconnect(s, Opens(w, 0));
    }
  }

  lemma SendTaskKeeps(s: State, w: World)
    requires Live(s) && s.tasks != [] && s.tasks[0].SendTask?
    ensures Live(DoTask(s.(tasks := s.tasks[1..]), s.tasks[0], w))
  {
    SendTaskTaken(s);
    LiveProcess(s.(tasks := s.tasks[1..], queue := s.queue + [s.tasks[0].request]), w);
  }

  lemma OtherTaskFrom(P: State -> bool, s: State, task: Task, w: World)
    requires match task
             case ClearUpTask => P(ClearUp(s))
             case SetUinTask(uid) => P(s.(uin := uid))
             case ResumeTask(isPush) => P(Resume(s, isPush))
             case _ => P(DoTask(s, task, w))
    ensures P(DoTask(s, task, w))
  {
  }

  lemma OtherTaskKeeps(s: State, task: Task, w: World, crashes: bool)
    requires Live(s) && !task.SendTask? && crashes == (NeedsConnection(task) && s.handshake.HandshakeIdle?)
    ensures Ends(DoTask(s, task, w), crashes) == true
  {
    match task {
      case ClearUpTask => ClearUpKeeps(s);
      case SetUinTask(uid) => FlagsKeep(s, uid, s.networkAvailable, s.pingArmed, s.crashed);
      case SetNetworkTask(available) => SetNetworkKeeps(s, available, w);
      case ResumeTask(isPush) => ResumeKeeps(s, isPush);
      case SetServerTask(single) => SetServerKeeps(s, single, w);
    }
    OtherTaskFrom((t: State) => Ends(t, crashes), s, task, w);
  }

  lemma TaskKeeps(s: State, w: World)
    requires Live(s) && s.tasks != []
    ensures Ends(DoTask(s.(tasks := s.tasks[1..]), s.tasks[0], w), NeedsConnection(s.tasks[0]) && s.handshake.HandshakeIdle?)
  {
    if s.tasks[0].SendTask? {
      SendTaskKeeps(s, w);
    } else {
      OtherTaskTaken(s);
      OtherTaskKeeps(s.(tasks := s.tasks[1..]), s.tasks[0], w, NeedsConnection(s.tasks[0]) && s.handshake.HandshakeIdle?);
    }
  }

  lemma ClosedByPeerKeeps(s: State)
    requires Live(s)
    ensures Live(OnDisconnected(s))
  {
    DisconnectedKeeps(s);
    assert OnDisconnected(s).crashed == s.crashed;
  }

  /** What an event of the socket comes to, if the socket can raise it. */
  lemma SocketEventFrom(P: State -> bool, s: State, e: Event)
    requires !s.crashed && P(s)
    requires match e
             case SocketConnected(fails, w) => s.status.Connecting? ==> P(OnSocketConnected(s, fails, w))
             case SocketClosed => P(OnDisconnected(s))
             case ReconnectTimer(opens) => P(Connect(s, opens))
             case HeaderRejected(opens) => P(Reconnect(s, opens))
             case Packet(cmd, seqNo, accepted, opens) => P(OnPacket(s, cmd, seqNo, accepted, opens))
             case _ => false
    ensures P(Step(s, e))
  {
  }

  lemma SocketEventKeeps(s: State, e: Event)
    requires Live(s)
    requires e.SocketConnected? || e.SocketClosed? || e.ReconnectTimer? || e.HeaderRejected? || e.Packet?
    ensures Live(Step(s, e)) == true
  {
    match e {
      case SocketConnected(fails, w) => if s.status.Connecting? { SocketConnectedKeeps(s, fails, w); }
      case SocketClosed => ClosedByPeerKeeps(s);
      case ReconnectTimer(opens) => ConnectKeeps(s, opens);
      case HeaderRejected(opens) => ReconnectKeeps(s, opens);
      case Packet(cmd, seqNo, accepted, opens) => PacketKeeps(s, cmd, seqNo, accepted, opens);
    }
    SocketEventFrom((t: State) => Live(t), s, e);
  }

  predicate IsCall(e: Event) {
    e.CallSend? || e.CallClearUp? || e.CallSetUin? || e.CallSetNetwork? || e.CallPause? || e.CallResume? || e.CallSetServer?
  }

  lemma CallKeeps(s: State, e: Event)
    requires Live(s) && IsCall(e)
    ensures Live(Step(s, e))
  {
    match e {
      case CallSend(cmdId, flags, timeout) =>
        assert Step(s, e) == Submit(s, cmdId, flags, timeout);
        if s.uin == 0 {
          RefusedKeeps(s, cmdId, flags, timeout);
        } else {
          AcceptedKeeps(s, cmdId, flags, timeout);
        }
      case CallClearUp => TaskAdded(s, ClearUpTask);
      case CallSetUin(uid) => TaskAdded(s, SetUinTask(uid));
      case CallSetNetwork(available) => TaskAdded(s, SetNetworkTask(available));
      case CallPause => PauseKeeps(s, true, s.paused, s.crashed);
      case CallResume(isPush) => TaskAdded(s, ResumeTask(isPush));
      case CallSetServer(single) => TaskAdded(s, SetServerTask(single));
    }
  }

  lemma StepKeeps(s: State, e: Event)
    requires Live(s)
    ensures Ends(Step(s, e), Crashes(s, e))
  {
    match e {
      case RunTask(w) =>
        if s.tasks != [] {
          TaskKeeps(s, w);
          assert Step(s, e) == DoTask(s.(tasks := s.tasks[1..]), s.tasks[0], w);
        } else {
          assert Step(s, e) == s;
        }
      case SelectTail(pauseDue, pingDue, pingOpens, pingFails, w) =>
        SelectTailKeeps(s, pauseDue, pingDue, pingOpens, pingFails, w, Crashes(s, e));
        assert Step(s, e) == OnSelectTail(s, pauseDue, pingDue, pingOpens, pingFails, w);
      case _ =>
        if IsCall(e) {
          CallKeeps(s, e);
        } else {
          SocketEventKeeps(s, e);
        }
    }
  }

  lemma {:induction false} RunKeeps(uid: nat, events: seq<Event>)
    ensures Inv(Run(Initial(uid), events))
    decreases |events|
  {
    if events == [] {
      assert Everyone(0) == multiset{} && Ids([]) == [];
    } else {
      var before := events[..|events| - 1];
      RunKeeps(uid, before);
      var s := Run(Initial(uid), before);
      if !s.crashed {
        StepKeeps(s, events[|events| - 1]);
      }
    }
  }

  // ---- what a user of the client can rely on ----

  /**
   * In every run each submitted request is in exactly one place: scheduled, queued,
   * running or completed, and in the last case it was completed exactly once.
   */
  lemma ExactlyOnePlace(uid: nat, events: seq<Event>, id: nat)
    ensures var s := Run(Initial(uid), events);
            multiset(TaskIds(s.tasks))[id] + multiset(Ids(s.queue))[id] + multiset(Ids(s.running))[id]
              + multiset(DoneIds(s.log))[id] == if id < s.submitted then 1 else 0
  {
    RunKeeps(uid, events);
    EveryoneOnce(Run(Initial(uid), events).submitted, id);
  }

  lemma RunIsAllowed(uid: nat, events: seq<Event>, k: nat)
    requires k < |Run(Initial(uid), events).log|
    ensures var log := Run(Initial(uid), events).log; Allowed(log[..k], log[k])
  {
    RunKeeps(uid, events);
    AlwaysAllowed(Run(Initial(uid), events).log, k);
  }

  /**
   * In every reachable state running requests need a handshake, carry distinct
   * sequence numbers and bounded retry counts; while fewer than 2^31 requests have
   * been sent, no reply with the handshake or ping number answers one of them.
   */
  lemma RunningDiscipline(uid: nat, events: seq<Event>)
    ensures var s := Run(Initial(uid), events);
            && (s.handshake.HandshakeIdle? ==> s.running == [])
            && (forall i :: 0 <= i < |s.running| ==>
                  s.running[i].messageSeq >= 0 && s.running[i].retryCount <= DEFAULT_RETRY_COUNT)
            && (forall i, j :: 0 <= i < j < |s.running| ==> s.running[i].messageSeq != s.running[j].messageSeq)
            && (s.nextSeq <= 0x8000_0000 ==> forall cmd ::
                  MatchFrom(s.running, 0, cmd, HANDSHAKE_SEQ) == MatchFrom(s.running, 0, cmd, PING_SEQ) == |s.running|)
  {
    RunKeeps(uid, events);
  }

  /** A run that has not crashed crashes at the next event exactly under the stated condition. */
  lemma CrashesExactlyWhen(uid: nat, events: seq<Event>, e: Event)
    requires !Run(Initial(uid), events).crashed
    ensures Run(Initial(uid), events + [e]).crashed <==> Crashes(Run(Initial(uid), events), e)
  {
    RunKeeps(uid, events);
    StepKeeps(Run(Initial(uid), events), e);
    assert (events + [e])[..|events|] == events;
  }

  lemma RunExtended(s: State, events: seq<Event>, e: Event)
    ensures Run(s, events + [e]) == Step(Run(s, events), e)
  {
    assert (events + [e])[..|events|] == events;
  }

  lemma RunTwo(s: State, a: Event, b: Event)
    ensures Run(s, [a, b]) == Step(Step(s, a), b)
  {
    RunExtended(s, [], a);
    RunExtended(s, [a], b);
    assert [] + [a] == [a] && [a] + [b] == [a, b];
  }

  /** Logging out, resuming or setting the only server before the first handshake crashes the client. */
  lemma TasksBeforeHandshakeCrash(uid: nat, w: World)
    ensures Run(Initial(uid), [CallClearUp, RunTask(w)]).crashed
    ensures Run(Initial(uid), [CallResume(false), RunTask(w)]).crashed
    ensures Run(Initial(uid), [CallSetServer(true), RunTask(w)]).crashed
  {
    RunTwo(Initial(uid), CallClearUp, RunTask(w));
    RunTwo(Initial(uid), CallResume(false), RunTask(w));
    RunTwo(Initial(uid), CallSetServer(true), RunTask(w));
  }

  /** So does a pause that begins before it. */
  lemma PauseBeforeHandshakeCrashes(uid: nat, pingDue: bool, opens: bool, fails: bool, w: World)
    ensures Run(Initial(uid), [CallPause, SelectTail(true, pingDue, opens, fails, w)]).crashed
  {
    RunTwo(Initial(uid), CallPause, SelectTail(true, pingDue, opens, fails, w));
  }

  /** The end of `select` with nothing due. */
  function Idling(w: World): Event {
    SelectTail(false, false, false, false, w)
  }

  lemma HandshakeBegins(s: State, w: World)
    requires s.handshake.HandshakeIdle? && s.status.StatusIdle? && s.uin != 0 && s.networkAvailable && !s.crashed && Opens(w, 0)
    ensures Step(s, Idling(w)) == s.(handshake := HandshakeIng, status := Connecting, socket := s.socket + 1)
  {
  }

  lemma HandshakeGoesOut(s: State, w: World)
    requires s.handshake.HandshakeIng? && s.status.Connecting? && !s.crashed
    ensures Step(s, SocketConnected(false, w))
         == s.(status := Connected, token := s.nextToken, nextToken := s.nextToken + 1, pingArmed := true)
  {
    var t := s.(status := Connected, token := s.nextToken, nextToken := s.nextToken + 1, pingArmed := true);
    assert WriteAll(t, []) == t;
  }

  lemma HandshakeSucceeds(s: State, cmd: int)
    requires s.handshake.HandshakeIng? && SocketOpen(s) && !s.crashed
    ensures Step(s, Packet(cmd, HANDSHAKE_SEQ, true, false))
         == s.(handshake := HandshakeSuccessed, log := s.log + [HandshakeOk])
  {
  }

  /** After logging in, connecting and logging out the ping clock still runs. */
  lemma LogoutAfterLogin(uid: nat, w: World)
    requires uid != 0 && Opens(w, 0)
    ensures var s := Run(Initial(uid), [Idling(w), SocketConnected(false, w), CallClearUp, RunTask(w)]);
            s.handshake.HandshakeIdle? && s.pingArmed && s.uin == 0 && !s.crashed
  {
    var s0 := Initial(uid);
    HandshakeBegins(s0, w);
    var s1 := Step(s0, Idling(w));
    HandshakeGoesOut(s1, w);
    RunTwo(s0, Idling(w), SocketConnected(false, w));
    RunExtended(s0, [Idling(w), SocketConnected(false, w)], CallClearUp);
    RunExtended(s0, [Idling(w), SocketConnected(false, w), CallClearUp], RunTask(w));
    assert [Idling(w), SocketConnected(false, w)] + [CallClearUp] == [Idling(w), SocketConnected(false, w), CallClearUp];
    assert [Idling(w), SocketConnected(false, w), CallClearUp] + [RunTask(w)]
        == [Idling(w), SocketConnected(false, w), CallClearUp, RunTask(w)];
  }

  /** Log in, log out, and let the ping come due: the client crashes. */
  lemma PingAfterLogoutCrashes(uid: nat, opens: bool, fails: bool, w: World)
    requires uid != 0 && Opens(w, 0)
    ensures Run(Initial(uid), [Idling(w), SocketConnected(false, w), CallClearUp, RunTask(w)]
                              + [SelectTail(false, true, opens, fails, w)]).crashed
  {
    LogoutAfterLogin(uid, w);
    CrashesExactlyWhen(uid, [Idling(w), SocketConnected(false, w), CallClearUp, RunTask(w)],
                       SelectTail(false, true, opens, fails, w));
  }

  /** In every run a socket gets a request at most twice, and twice only if once before it was connected. */
  lemma RunWritesAtMostTwice(uid: nat, events: seq<Event>, id: nat, socket: nat)
    ensures OnceBeforeOnceAfter(Writings(Run(Initial(uid), events).log, id, socket))
  {
    RunKeeps(uid, events);
    WrittenAtMostTwice(Run(Initial(uid), events).log, id, socket);
  }

  // ---- a request that reaches one socket twice ----

  /** A queued request that may be resent goes to the socket although it is not connected. */
  lemma SentEarly(s: State, r: Request, w: World)
    requires s.running == [] && s.queue == [r] && r.flags == Flags(false, true, false) && w.batches == []
    requires s.networkAvailable && s.status.Connecting? && s.token == 0 && !s.handshake.HandshakeIdle? && !s.crashed
    ensures var t := Process(s, w);
            && t == s.(queue := [], nextSeq := s.nextSeq + 1, pingArmed := true, running := t.running, log := t.log)
            && t.running == [r.(messageSeq := s.nextSeq, startTime := Later(w, 0), token := 0)]
            && t.log == s.log + [Enqueued(r.id, 0, true), Written(r.id, s.socket, 0)]
  {
    var u := Start(s, 0, Later(w, 0));
    assert RunningPass(s, 0, w, 0) == s;
    assert Connect(s, Opens(w, 0)) == s && HandleQueued(s, 0, Later(w, 0)) == u && u.queue == [];
    assert QueuePass(s, 0, w, 0) == QueuePass(u, 0, w, 1) == u;
    MadeOne(u.log, |s.log|, r.id, 0, true);
    assert WriteAll(u, [r.id]) == u.(log := u.log + [Written(r.id, s.socket, 0)]);
  }

  /** On the new token it goes to the same socket again. */
  lemma SentAgain(s: State, r: Request, w: World)
    requires s.queue == [] && s.running == [r] && r.flags == Flags(false, true, false) && w.batches == [] && r.token == 0
    requires s.networkAvailable && s.status.Connected? && s.token > 0 && s.handshake.HandshakeSuccessed? && !s.crashed
    ensures Process(s, w).log == s.log + [Enqueued(r.id, s.token, true), Written(r.id, s.socket, s.token)]
  {
    var u := Resend(s, 0, w.now);
    assert Connect(s, Opens(w, 0)) == s && HandleRunning(s, 0, w.now) == (u, true);
    assert RunningPass(s, 0, w, 0) == RunningPass(u, 1, w, 1) == u;
    assert QueuePass(u, 0, w, 1) == u;
    MadeOne(u.log, |s.log|, r.id, s.token, true);
    assert WriteAll(u, [r.id]) == u.(log := u.log + [Written(r.id, s.socket, s.token)]);
  }

  /** Submit a request that may be resent, log in, and let the network thread send it before the socket is connected. */
  function EarlyRun(cmdId: Int32, timeout: Uint64, w: World): seq<Event> {
    [CallSend(cmdId, Flags(false, true, false), timeout)] + [Idling(w)] + [RunTask(w)]
  }

  lemma EarlyRunSends(uid: nat, cmdId: Int32, timeout: Uint64, w: World)
    requires uid != 0 && Opens(w, 0) && w.batches == []
    ensures var s, r := Run(Initial(uid), EarlyRun(cmdId, timeout, w)), NewRequest(0, cmdId, Flags(false, true, false), timeout);
            && s.running == [r.(messageSeq := 0, startTime := Later(w, 0), token := 0)] && s.queue == []
            && s.log == [Enqueued(0, 0, true), Written(0, 1, 0)]
            && s.networkAvailable && s.status.Connecting? && s.handshake.HandshakeIng? && s.socket == 1 && s.nextToken == 1
            && !s.pauseArmed && !s.crashed
  {
    var s0, r := Initial(uid), NewRequest(0, cmdId, Flags(false, true, false), timeout);
    var send := CallSend(cmdId, Flags(false, true, false), timeout);
    var s1 := Step(s0, send);
    assert s1 == s0.(submitted := 1, tasks := [SendTask(r)]);
    HandshakeBegins(s1, w);
    var s2 := Step(s1, Idling(w));
    SentEarly(s2.(tasks := [], queue := [r]), r, w);
    assert Step(s2, RunTask(w)) == Process(s2.(tasks := [], queue := [r]), w);
    RunTwo(s0, send, Idling(w));
    assert [send] + [Idling(w)] == [send, Idling(w)];
    RunExtended(s0, [send, Idling(w)], RunTask(w));
  }

  /** Then the socket is connected, the handshake succeeds, and the request goes to the same socket again. */
  lemma WrittenTwice(uid: nat, cmdId: Int32, timeout: Uint64, w: World)
    requires uid != 0 && Opens(w, 0) && w.batches == []
    ensures var events := EarlyRun(cmdId, timeout, w) + [SocketConnected(false, w)]
                        + [Packet(0, HANDSHAKE_SEQ, true, false)] + [Idling(w)];
            var log := Run(Initial(uid), events).log;
            && log == [Enqueued(0, 0, true), Written(0, 1, 0), HandshakeOk, Enqueued(0, 1, true), Written(0, 1, 1)]
            && Writings(log, 0, 1) == [0, 1]
  {
    var s0, events := Initial(uid), EarlyRun(cmdId, timeout, w);
    EarlyRunSends(uid, cmdId, timeout, w);
    var s3 := Run(s0, events);
    RunExtended(s0, events, SocketConnected(false, w));
    HandshakeGoesOut(s3, w);
    var s4 := Step(s3, SocketConnected(false, w));
    var packet := Packet(0, HANDSHAKE_SEQ, true, false);
    RunExtended(s0, events + [SocketConnected(false, w)], packet);
    HandshakeSucceeds(s4, 0);
    var s5 := Step(s4, packet);
    RunExtended(s0, events + [SocketConnected(false, w)] + [packet], Idling(w));
    assert Step(s5, Idling(w)) == Process(s5, w);
    SentAgain(s5, s5.running[0], w);
    WritingsShown(s5.log + [Enqueued(0, 1, true), Written(0, 1, 1)]);
  }

  lemma WritingsLast(log: seq<Entry>, more: seq<Entry>, e: Entry, id: nat, socket: nat)
    requires more == log + [e]
    ensures Writings(more, id, socket)
         == if e.Written? && e.id == id && e.socket == socket then Writings(log, id, socket) + [e.token] else Writings(log, id, socket)
  {
    assert more[..|more| - 1] == log;
  }

  lemma WritingsShown(log: seq<Entry>)
    requires log == [Enqueued(0, 0, true), Written(0, 1, 0), HandshakeOk, Enqueued(0, 1, true), Written(0, 1, 1)]
    ensures Writings(log, 0, 1) == [0, 1]
  {
    var l4, l3, l2, l1 := log[..4], log[..3], log[..2], log[..1];
    WritingsLast([], l1, log[0], 0, 1);
    WritingsLast(l1, l2, log[1], 0, 1);
    WritingsLast(l2, l3, log[2], 0, 1);
    WritingsLast(l3, l4, log[3], 0, 1);
    WritingsLast(l4, log, log[4], 0, 1);
  }
}
