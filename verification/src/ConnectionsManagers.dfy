/** `ConnectionsManager`, with the parts of `Datacenter` and `TcpConnection` it steers, as it updates its fields. */
module ConnectionsManagers {
  import opened Bytes
  import opened RequestLifecycle
  import RequestSendings

  // ---- the messages gathered for the hand-over ----

  /** The messages pushed are those the log gained. */
  ghost predicate Gathers(before: seq<Entry>, pushed: seq<nat>, after: seq<Entry>, now: seq<nat>) {
    |before| <= |after| && after[..|before|] == before && now == pushed + Made(after[|before|..])
  }

  lemma GathersNothing(before: seq<Entry>, pushed: seq<nat>)
    ensures Gathers(before, pushed, before, pushed)
  {
    assert before[..|before|] == before && before[|before|..] == [];
  }

  lemma GathersEntry(before: seq<Entry>, pushed: seq<nat>, e: Entry)
    ensures Gathers(before, pushed, before + [e], pushed + if e.Enqueued? then [e.id] else [])
  {
    assert (before + [e])[..|before|] == before && (before + [e])[|before|..] == [e] && [e][1..] == [];
  }

  lemma PrefixOfPrefix(a: seq<Entry>, b: seq<Entry>, c: seq<Entry>)
    requires |a| <= |b| <= |c| && b[..|a|] == a && c[..|b|] == b
    ensures c[..|a|] == a && c[|a|..] == b[|a|..] + c[|b|..]
  {
    assert c == b + c[|b|..];
  }

  lemma GathersMore(a: seq<Entry>, m: seq<nat>, b: seq<Entry>, n: seq<nat>, c: seq<Entry>, o: seq<nat>)
    requires Gathers(a, m, b, n) && Gathers(b, n, c, o)
    ensures Gathers(a, m, c, o)
  {
    PrefixOfPrefix(a, b, c);
    RequestSendings.MadeConcat(b[|a|..], c[|b|..]);
  }

  class ConnectionsManager {
    var uin: nat
    var networkAvailable: bool
    var handshakeState: Handshake
    var status: Status
    var socket: nat
    var connectionToken: nat
    var lastConnectionToken: nat
    var seqNo: nat
    var pingArmed: bool
    var pauseArmed: bool
    var networkPaused: bool
    var tasks: seq<Task>
    var requestsQueue: seq<Request>
    var runningRequests: seq<Request>
    var submitted: nat
    var log: seq<Entry>
    var crashed: bool
    var neededSendMessages: seq<nat>

    /** The state of the machine this object is in. */
    ghost function View(): State
      reads this
    {
      State(uin, networkAvailable, handshakeState, status, socket, connectionToken, lastConnectionToken, seqNo, pingArmed,
            pauseArmed, networkPaused, tasks, requestsQueue, runningRequests, submitted, log, crashed)
    }

    constructor (uid: nat)
      ensures View() == Initial(uid)
    {
      uin, networkAvailable, handshakeState, status := uid, true, HandshakeIdle, StatusIdle;
      socket, connectionToken, lastConnectionToken, seqNo := 0, 0, 1, 0;
      pingArmed, pauseArmed, networkPaused := false, false, false;
      tasks, requestsQueue, runningRequests := [], [], [];
      submitted, log, crashed, neededSendMessages := 0, [], false, [];
    }

    method ConnectionClosed()
      modifies this
      ensures View() == OnConnectionClosed(old(View())) && neededSendMessages == old(neededSendMessages)
    {
      if handshakeState != HandshakeIdle {
        handshakeState := HandshakeIng;
        log := log + [Entry.ConnectionClosed];
      }
    }

    method Disconnected()
      modifies this
      ensures View() == OnDisconnected(old(View())) && neededSendMessages == old(neededSendMessages)
    {
      connectionToken := 0;
      status := StatusIdle;
      ConnectionClosed();
      if handshakeState != HandshakeIdle {
        status := Reconnecting;
      }
    }

    method OpenConnection(opens: bool)
      modifies this
      ensures View() == Connect(old(View()), opens) && neededSendMessages == old(neededSendMessages)
    {
      if !networkAvailable {
        ConnectionClosed();
        return;
      }
      if status == Connected || status == Connecting {
        return;
      }
      status := Connecting;
      if opens {
        socket := socket + 1;
      } else {
        Disconnected();
      }
    }

    method CloseConnection()
      modifies this
      ensures View() == CloseConnect(old(View()))
    {
      if status == StatusIdle {
        return;
      }
      Disconnected();
      ConnectionClosed();
    }

    method Reopen(opens: bool)
      modifies this
      ensures View() == Reconnect(old(View()), opens)
    {
      CloseConnection();
      status := Reconnecting;
      OpenConnection(opens);
    }

    /** One turn of the first loop; tells whether request `i` stays in the list. */
    method RunningTurn(i: nat, now: int) returns (stays: bool)
      requires i < |runningRequests|
      modifies this
      ensures (View(), stays) == HandleRunning(old(View()), i, now)
      ensures Gathers(old(log), old(neededSendMessages), log, neededSendMessages)
    {
      var request := runningRequests[i];
      if !networkAvailable || connectionToken == 0 {
        if !request.flags.reSend {
          CompleteAt(i, ConnectFail);
          return false;
        }
      }
      if connectionToken > 0 && connectionToken != request.token {
        if handshakeState == HandshakeSuccessed || request.flags.withoutLogin {
          if !request.flags.withoutAck {
            pingArmed := true;
          }
          neededSendMessages := neededSendMessages + [request.id];
          log := log + [Enqueued(request.id, connectionToken, !request.flags.withoutLogin)];
          runningRequests := runningRequests[i := request.(token := connectionToken, startTime := now)];
          GathersEntry(old(log), old(neededSendMessages), Enqueued(request.id, connectionToken, !request.flags.withoutLogin));
          return true;
        }
      }
      GathersNothing(log, neededSendMessages);
      if IsTimeout(request, now) {
        stays := ExpireTurn(i, now);
        return;
      }
      return true;
    }

    /** The callback runs and the request leaves the running list. */
    method CompleteAt(i: nat, code: Code)
      requires i < |runningRequests|
      modifies this
      ensures View() == CompleteRunning(old(View()), i, code)
      ensures Gathers(old(log), old(neededSendMessages), log, neededSendMessages)
    {
      var e := Completed(runningRequests[i].id, code);
      log := log + [e];
      runningRequests := runningRequests[..i] + runningRequests[i + 1..];
      GathersEntry(old(log), old(neededSendMessages), e);
    }

    method ExpireTurn(i: nat, now: int) returns (stays: bool)
      requires i < |runningRequests|
      modifies this
      ensures (View(), stays) == Expire(old(View()), i, now)
      ensures Gathers(old(log), old(neededSendMessages), log, neededSendMessages)
    {
      var request := runningRequests[i];
      if request.flags.reSend {
        request := request.(retryCount := request.retryCount + 1);
        if !CanRetry(request.retryCount) {
          CompleteAt(i, RequestRetryLimit);
          return false;
        }
        runningRequests := runningRequests[i := request.(startTime := now)];
        GathersNothing(log, neededSendMessages);
        return true;
      } else {
        CompleteAt(i, RequestTimeout);
        return false;
      }
    }

    /** The message of a queued request is made and pushed, and the request leaves the queue. */
    method TakeFromQueue(i: nat) returns (messageSeq: nat)
      requires i < |requestsQueue|
      modifies this
      ensures messageSeq == old(seqNo)
      ensures var r := old(requestsQueue)[i];
              View() == old(View()).(queue := Without(old(requestsQueue), i), nextSeq := messageSeq + 1,
                                     log := old(log) + [Enqueued(r.id, connectionToken, !r.flags.withoutLogin)])
      ensures Gathers(old(log), old(neededSendMessages), log, neededSendMessages)
    {
      var request := requestsQueue[i];
      var e := Enqueued(request.id, connectionToken, !request.flags.withoutLogin);
      messageSeq := seqNo;
      seqNo := seqNo + 1;
      log := log + [e];
      neededSendMessages := neededSendMessages + [request.id];
      requestsQueue := requestsQueue[..i] + requestsQueue[i + 1..];
      GathersEntry(old(log), old(neededSendMessages), e);
    }

    /** A queued request starts: it waits for its reply, or is complete without one. */
    method StartTurn(i: nat, later: int)
      requires i < |requestsQueue|
      modifies this
      ensures View() == Start(old(View()), i, later)
      ensures Gathers(old(log), old(neededSendMessages), log, neededSendMessages)
    {
      var request := requestsQueue[i];
      var messageSeq := TakeFromQueue(i);
      if !request.flags.withoutAck {
        runningRequests := runningRequests + [request.(token := connectionToken, messageSeq := messageSeq, startTime := later)];
        pingArmed := true;
      } else {
        ghost var l, m := log, neededSendMessages;
        log := log + [Completed(request.id, Done)];
        GathersEntry(l, m, Completed(request.id, Done));
        assert m + [] == m;
        GathersMore(old(log), old(neededSendMessages), l, m, log, m);
      }
    }

    method RefuseTurn(i: nat, code: Code)
      requires i < |requestsQueue|
      modifies this
      ensures View() == CompleteQueued(old(View()), i, code)
      ensures Gathers(old(log), old(neededSendMessages), log, neededSendMessages)
    {
      var e := Completed(requestsQueue[i].id, code);
      log := log + [e];
      requestsQueue := requestsQueue[..i] + requestsQueue[i + 1..];
      GathersEntry(old(log), old(neededSendMessages), e);
    }

    /** One turn of the second loop: the request leaves the queue one way or the other. */
    method QueueTurn(i: nat, later: int)
      requires i < |requestsQueue|
      modifies this
      ensures View() == HandleQueued(old(View()), i, later)
      ensures Gathers(old(log), old(neededSendMessages), log, neededSendMessages)
    {
      var request := requestsQueue[i];
      if connectionToken == 0 {
        if !request.flags.reSend {
          RefuseTurn(i, WithoutConnection);
        } else {
          StartTurn(i, later);
        }
      } else if handshakeState == HandshakeSuccessed || request.flags.withoutLogin {
        StartTurn(i, later);
      } else {
        RefuseTurn(i, WithoutLogin);
      }
    }

    /** `getConnection(true)` as the loops call it. */
    method LoopConnection(opens: bool)
      modifies this
      ensures View() == Connect(old(View()), opens)
      ensures Gathers(old(log), old(neededSendMessages), log, neededSendMessages)
    {
      GathersNothing(log, neededSendMessages);
      GathersEntry(log, neededSendMessages, Entry.ConnectionClosed);
      OpenConnection(opens);
      assert log == old(log) || log == old(log) + [Entry.ConnectionClosed];
    }

    method ConnectedTurn(i: nat, opens: bool, now: int) returns (stays: bool)
      requires i < |runningRequests|
      modifies this
      ensures (View(), stays) == HandleRunning(Connect(old(View()), opens), i, now)
      ensures Gathers(old(log), old(neededSendMessages), log, neededSendMessages)
    {
      LoopConnection(opens);
      ghost var l, m := log, neededSendMessages;
      stays := RunningTurn(i, now);
      GathersMore(old(log), old(neededSendMessages), l, m, log, neededSendMessages);
    }

    method ConnectedQueueTurn(i: nat, opens: bool, later: int)
      requires i < |requestsQueue|
      modifies this
      ensures View() == HandleQueued(Connect(old(View()), opens), i, later)
      ensures Gathers(old(log), old(neededSendMessages), log, neededSendMessages)
    {
      LoopConnection(opens);
      ghost var l, m := log, neededSendMessages;
      QueueTurn(i, later);
      GathersMore(old(log), old(neededSendMessages), l, m, log, neededSendMessages);
    }

    /** The first loop of `processRequestQueue`. */
    method ProcessRunning(w: World) returns (k: nat)
      modifies this
      ensures View() == RunningPass(old(View()), 0, w, 0) && k == old(|runningRequests|)
      ensures Gathers(old(log), old(neededSendMessages), log, neededSendMessages)
    {
      var i: nat := 0;
      k := |runningRequests|;
      var turns := 0;
      ghost var goal := RunningPass(View(), 0, w, 0);
      GathersNothing(log, neededSendMessages);
      while i < |runningRequests|
        invariant i <= |runningRequests|
        invariant goal == RunningPass(View(), i, w, turns)
        invariant Gathers(old(log), old(neededSendMessages), log, neededSendMessages)
        decreases |runningRequests| - i
      {
        if handshakeState == HandshakeIdle {
          crashed := true;
          return;
        }
        ghost var l, m := log, neededSendMessages;
        var stays := ConnectedTurn(i, Opens(w, turns), w.now);
        GathersMore(old(log), old(neededSendMessages), l, m, log, neededSendMessages);
        i := if stays then i + 1 else i;
        turns := turns + 1;
      }
    }

    /** The second loop of `processRequestQueue`. */
    method ProcessQueued(w: World, k: nat)
      modifies this
      ensures View() == QueuePass(old(View()), 0, w, k)
      ensures Gathers(old(log), old(neededSendMessages), log, neededSendMessages)
    {
      var i: nat := 0;
      var turns := k;
      ghost var goal := QueuePass(View(), 0, w, k);
      GathersNothing(log, neededSendMessages);
      while i < |requestsQueue|
        invariant i <= |requestsQueue|
        invariant goal == QueuePass(View(), i, w, turns)
        invariant Gathers(old(log), old(neededSendMessages), log, neededSendMessages)
        decreases |requestsQueue| - i
      {
        if handshakeState == HandshakeIdle {
          i := i + 1;
        } else {
          ghost var l, m := log, neededSendMessages;
          ConnectedQueueTurn(i, Opens(w, turns), Later(w, turns));
          GathersMore(old(log), old(neededSendMessages), l, m, log, neededSendMessages);
          turns := turns + 1;
        }
      }
    }

    /** The messages of a batch go to the stream of the socket. */
    method WriteBuffer(batch: seq<nat>)
      modifies this
      ensures View() == WriteAll(old(View()), batch)
    {
      var i := 0;
      while i < |batch|
        invariant i <= |batch| && WriteAll(old(View()), batch) == WriteAll(View(), batch[i..])
      {
        log := log + [Written(batch[i], socket, connectionToken)];
        assert batch[i..][1..] == batch[i + 1..];
        i := i + 1;
      }
    }

    method SendBatch(batch: seq<nat>, opens: bool, fails: bool)
      modifies this
      ensures View() == SendData(old(View()), batch, opens, fails)
    {
      if status == StatusIdle || status == Reconnecting {
        OpenConnection(opens);
        return;
      }
      WriteBuffer(batch);
      if fails {
        Disconnected();
      }
    }

    method SendBatches(messages: seq<nat>, batches: seq<Batch>)
      modifies this
      ensures View() == HandOver(old(View()), messages, batches)
    {
      var i, j := 0, 0;
      while i < |messages|
        invariant i <= |messages| && j <= |batches|
        invariant HandOver(old(View()), messages, batches) == HandOver(View(), messages[i..], batches[j..])
        decreases |messages| - i
      {
        if j == |batches| {
          SendBatch(messages[i..], false, false);
          return;
        }
        var n := BatchSize(batches[j].size, |messages| - i);
        assert messages[i..][..n] == messages[i..i + n] && messages[i..][n..] == messages[i + n..];
        assert batches[j..][1..] == batches[j + 1..];
        SendBatch(messages[i..i + n], batches[j].opens, batches[j].fails);
        i, j := i + n, j + 1;
      }
    }

    method SendMessageToConnection(w: World)
      modifies this
      ensures View() == SendMessages(old(View()), old(neededSendMessages), w)
    {
      if neededSendMessages == [] {
        return;
      }
      if handshakeState == HandshakeIdle {
        crashed := true;
        return;
      }
      var messages := neededSendMessages;
      OpenConnection(w.first);
      SendBatches(messages, w.batches);
    }

    method ProcessRequestQueue(w: World)
      modifies this
      ensures View() == Process(old(View()), w)
    {
      neededSendMessages := [];
      var k := ProcessRunning(w);
      if crashed {
        return;
      }
      ghost var l, m := log, neededSendMessages;
      ProcessQueued(w, k);
      GathersMore(old(log), [], l, m, log, neededSendMessages);
      assert neededSendMessages == MadeSince(log, |old(log)|);
      SendMessageToConnection(w);
    }

    /** The matching part of `onConnectionRecviedData`: the first request answered is completed and erased. */
    method OnReply(cmd: int, reply: Uint32) returns (found: bool)
      modifies this
      ensures var k := MatchFrom(old(runningRequests), 0, cmd, reply);
              found == (k < old(|runningRequests|)) &&
              View() == if k < old(|runningRequests|) then CompleteRunning(old(View()), k, Done) else old(View())
    {
      var i: nat := 0;
      while i < |runningRequests|
        invariant i <= |runningRequests| && View() == old(View())
        invariant MatchFrom(runningRequests, 0, cmd, reply) == MatchFrom(runningRequests, i, cmd, reply)
      {
        if runningRequests[i].messageSeq == reply && runningRequests[i].cmdId == cmd - 1 {
          CompleteAt(i, Done);
          return true;
        }
        i := i + 1;
      }
      return false;
    }

    /** `onConnectionRecviedData`. */
    method OnData(cmd: int, reply: Uint32, accepted: bool, opens: bool)
      modifies this
      ensures View() == OnPacket(old(View()), cmd, reply, accepted, opens)
    {
      if reply == HANDSHAKE_SEQ && handshakeState == HandshakeIng {
        if accepted {
          handshakeState := HandshakeSuccessed;
          log := log + [HandshakeOk];
        } else {
          CloseConnection();
          OpenConnection(opens);
        }
      } else if reply == PING_SEQ && handshakeState == HandshakeSuccessed {
        return;
      } else {
        var _ := OnReply(cmd, reply);
      }
    }

    method DropQueued()
      modifies this
      ensures View() == CompleteAllQueued(old(View()))
    {
      while requestsQueue != []
        invariant CompleteAllQueued(old(View())) == CompleteAllQueued(View())
        decreases |requestsQueue|
      {
        RefuseTurn(0, WithoutLogin);
      }
    }

    method DropRunning()
      modifies this
      ensures View() == CompleteAllRunning(old(View()))
    {
      while runningRequests != []
        invariant CompleteAllRunning(old(View())) == CompleteAllRunning(View())
        decreases |runningRequests|
      {
        CompleteAt(0, WithoutLogin);
      }
    }

    /** The body of what `clearUp` schedules, with running requests removed from the running list. */
    method DoClearUp()
      modifies this
      ensures View() == ClearUp(old(View()))
    {
      uin := 0;
      DropQueued();
      DropRunning();
      HangUp();
    }

    method HangUp()
      modifies this
      ensures View() == if old(handshakeState).HandshakeIdle? then old(View()).(crashed := true)
                        else CloseConnect(old(View())).(handshake := HandshakeIdle)
    {
      if handshakeState == HandshakeIdle {
        crashed := true;
        return;
      }
      CloseConnection();
      handshakeState := HandshakeIdle;
    }

    /** The body of what `resumeNetwork` schedules. */
    method DoResume(isPush: bool)
      modifies this
      ensures View() == Resume(old(View()), isPush)
    {
      if isPush {
        if networkPaused {
          pauseArmed := true;
          networkPaused := false;
        }
      } else {
        pauseArmed := false;
        networkPaused := false;
        if handshakeState == HandshakeIdle {
          crashed := true;
        }
      }
    }

    method DoSetNetwork(available: bool, w: World)
      modifies this
      ensures View() == DoTask(old(View()), SetNetworkTask(available), w)
    {
      networkAvailable := available;
      if networkAvailable && handshakeState != HandshakeIdle && uin != 0 {
        OpenConnection(Opens(w, 0));
      }
    }

    method DoSetServer(single: bool, w: World)
      modifies this
      ensures View() == DoTask(old(View()), SetServerTask(single), w)
    {
      if single {
        if handshakeState == HandshakeIdle {
          crashed := true;
        } else {
          Reopen(Opens(w, 0));
        }
      }
    }

    method DoSend(request: Request, w: World)
      modifies this
      ensures View() == DoTask(old(View()), SendTask(request), w)
    {
      requestsQueue := requestsQueue + [request];
      ProcessRequestQueue(w);
    }

    method RunOne(task: Task, w: World)
      modifies this
      ensures View() == DoTask(old(View()), task, w)
    {
      match task {
        case SendTask(request) => DoSend(request, w);
        case ClearUpTask => DoClearUp();
        case SetUinTask(uid) => uin := uid;
        case SetNetworkTask(available) => DoSetNetwork(available, w);
        case ResumeTask(isPush) => DoResume(isPush);
        case SetServerTask(single) => DoSetServer(single, w);
      }
    }

    /** The task at the head of the list is taken off and run. */
    method RunPendingTask(w: World)
      modifies this
      ensures View() == if old(tasks) == [] then old(View())
                        else DoTask(old(View()).(tasks := old(tasks)[1..]), old(tasks)[0], w)
    {
      if tasks == [] {
        return;
      }
      var task := tasks[0];
      tasks := tasks[1..];
      RunOne(task, w);
    }

    method DoPing(opens: bool, fails: bool)
      modifies this
      ensures View() == Ping(old(View()), opens, fails)
    {
      var armed := pauseArmed || networkPaused;
      SendBatch([], opens, fails);
      pauseArmed := armed;
      networkPaused := false;
    }

    /** The end of `select` after the pause test. */
    method FinishSelect(pingDue: bool, pingOpens: bool, pingFails: bool, w: World)
      modifies this
      ensures View() == SelectEnd(old(View()), pingDue, pingOpens, pingFails, w)
    {
      if handshakeState == HandshakeIdle && uin != 0 {
        handshakeState := HandshakeIng;
        CloseConnection();
        OpenConnection(Opens(w, 0));
        return;
      }
      if pingDue && pingArmed {
        if handshakeState == HandshakeIdle {
          crashed := true;
          return;
        }
        DoPing(pingOpens, pingFails);
      }
      ProcessRequestQueue(w);
    }

    /** The part of `select` from the pause test on. */
    method SelectRest(pauseDue: bool, pingDue: bool, pingOpens: bool, pingFails: bool, w: World)
      requires !crashed
      modifies this
      ensures View() == OnSelectTail(old(View()), pauseDue, pingDue, pingOpens, pingFails, w)
    {
      if pauseArmed && pauseDue && !networkPaused {
        networkPaused := true;
        if handshakeState == HandshakeIdle {
          crashed := true;
          return;
        }
      }
      FinishSelect(pingDue, pingOpens, pingFails, w);
    }

    method GreetServer(fails: bool, w: World)
      modifies this
      ensures View() == Greet(old(View()), fails, w)
    {
      if handshakeState == HandshakeIng {
        pingArmed := true;
        SendBatch([], false, fails);
      } else if handshakeState == HandshakeIdle {
        ProcessRequestQueue(w);
      }
    }

    /** `onConnected`. */
    method OnConnected(fails: bool, w: World)
      modifies this
      ensures View() == OnSocketConnected(old(View()), fails, w)
    {
      status := Connected;
      connectionToken := lastConnectionToken;
      lastConnectionToken := lastConnectionToken + 1;
      GreetServer(fails, w);
    }

    /** `senRequest`. */
    method SendRequest(cmdId: Int32, flags: Flags, timeout: Uint64)
      modifies this
      ensures View() == Submit(old(View()), cmdId, flags, timeout)
    {
      var id := submitted;
      submitted := submitted + 1;
      if uin == 0 {
        log := log + [Completed(id, WithoutLogin)];
        return;
      }
      tasks := tasks + [SendTask(NewRequest(id, cmdId, flags, timeout))];
    }

    /** A call from outside: all but a submission and a pause only schedule a task. */
    method Call(e: Event)
      requires !crashed
      requires e.CallSend? || e.CallClearUp? || e.CallSetUin? || e.CallSetNetwork? || e.CallPause? || e.CallResume? || e.CallSetServer?
      modifies this
      ensures View() == Step(old(View()), e)
    {
      match e {
        case CallSend(cmdId, flags, timeout) => SendRequest(cmdId, flags, timeout);
        case CallClearUp => tasks := tasks + [ClearUpTask];
        case CallSetUin(uid) =>
          if uid != 0 && uid != uin {
            tasks := tasks + [SetUinTask(uid)];
          }
        case CallSetNetwork(available) => tasks := tasks + [SetNetworkTask(available)];
        case CallPause => pauseArmed := true;
        case CallResume(isPush) => tasks := tasks + [ResumeTask(isPush)];
        case CallSetServer(single) => tasks := tasks + [SetServerTask(single)];
      }
    }

    /** Whatever happens, the object takes the step of the machine. */
    method Handle(e: Event)
      modifies this
      ensures View() == Step(old(View()), e)
    {
      if crashed {
        return;
      }
      match e {
        case RunTask(w) => RunPendingTask(w);
        case SelectTail(pauseDue, pingDue, pingOpens, pingFails, w) => SelectRest(pauseDue, pingDue, pingOpens, pingFails, w);
        case SocketConnected(fails, w) =>
          if status == Connecting {
            OnConnected(fails, w);
          }
        case SocketClosed => Disconnected();
        case ReconnectTimer(opens) =>
          if status == Reconnecting {
            OpenConnection(opens);
          }
        case HeaderRejected(opens) =>
          if status == Connecting || status == Connected {
            Reopen(opens);
          }
        case Packet(cmd, reply, accepted, opens) =>
          if status == Connecting || status == Connected {
            OnData(cmd, reply, accepted, opens);
          }
        case _ => Call(e);
      }
    }
  }
}
