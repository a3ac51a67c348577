/**
 * The life of a request: submission, the queue, the running list, replies, logout, and
 * the handshake and connection tokens that steer them, as one state machine.
 */
module RequestLifecycle {
  import opened Bytes

  const DEFAULT_RETRY_COUNT: int := 3
  const DEFAULT_PACK_TIMEOUT: Uint64 := 30 * 1000
  const HANDSHAKE_SEQ: Uint32 := 0xFFFF_FFFF
  const PING_SEQ: Uint32 := 0xFFFF_FFFE

  datatype Handshake = HandshakeIdle | HandshakeIng | HandshakeSuccessed
  datatype Status = StatusIdle | Connecting | Reconnecting | Connected

  datatype Code = Done | WithoutConnection | WithoutLogin | ConnectFail | RequestTimeout | RequestRetryLimit

  datatype Flags = Flags(withoutAck: bool, reSend: bool, withoutLogin: bool)

  datatype Request = Request(id: nat, cmdId: Int32, flags: Flags, timeout: Uint64,
                             startTime: int, retryCount: int, token: nat, messageSeq: int)

  datatype Task =
    | SendTask(request: Request)
    | ClearUpTask
    | SetUinTask(uid: nat)
    | SetNetworkTask(available: bool)
    | ResumeTask(isPush: bool)
    | SetServerTask(single: bool)

  /**
   * What an observer can see happening, oldest first. A request is enqueued when its
   * message is made, for the connection with that token, 0 for none; it is written when
   * the message is handed to a socket, whose token is 0 until it is connected.
   */
  datatype Entry =
    | Completed(id: nat, code: Code)
    | Enqueued(id: nat, token: nat, needsLogin: bool)
    | Written(id: nat, socket: nat, token: nat)
    | HandshakeOk
    | ConnectionClosed

  datatype State = State(
    uin: nat, networkAvailable: bool, handshake: Handshake, status: Status, socket: nat, token: nat, nextToken: nat,
    nextSeq: nat, pingArmed: bool, pauseArmed: bool, paused: bool, tasks: seq<Task>, queue: seq<Request>, running: seq<Request>,
    submitted: nat, log: seq<Entry>, crashed: bool)

  /** How many messages a batch takes, whether a socket opens for it, and whether handing it to the socket fails. */
  datatype Batch = Batch(size: nat, opens: bool, fails: bool)

  /**
   * What the network thread meets: the clock at the first pass and at each turn of the
   * second, whether each attempt of theirs to open a socket succeeds at once, the same
   * for the first attempt of the hand-over, and the batches it makes.
   */
  datatype World = World(now: int, later: seq<int>, opens: seq<bool>, first: bool, batches: seq<Batch>)

  datatype Event =
    | CallSend(cmdId: Int32, flags: Flags, timeout: Uint64)
    | CallClearUp
    | CallSetUin(uid: nat)
    | CallSetNetwork(available: bool)
    | CallPause
    | CallResume(isPush: bool)
    | CallSetServer(single: bool)
    | RunTask(world: World)
    | SelectTail(pauseDue: bool, pingDue: bool, pingOpens: bool, pingFails: bool, world: World)
    | SocketConnected(fails: bool, world: World)
    | SocketClosed
    | ReconnectTimer(opens: bool)
    | HeaderRejected(opens: bool)
    | Packet(cmd: int, seqNo: Uint32, accepted: bool, opens: bool)

  function Initial(uid: nat): State {
    State(uid, true, HandshakeIdle, StatusIdle, 0, 0, 1, 0, false, false, false, [], [], [], 0, [], false)
  }

  function Opens(w: World, k: nat): bool {
    k < |w.opens| && w.opens[k]
  }

  function Later(w: World, k: nat): int {
    if k < |w.later| then w.later[k] else w.now
  }

  /** How many of `n` messages the next batch takes; the sizes of the messages decide it. */
  function BatchSize(size: nat, n: nat): (taken: nat)
    requires n > 0
    ensures 1 <= taken <= n
  {
    if 1 <= size <= n then size else n
  }

  // ---- the connection ----

  /** `onConnectionClosed`: a handshake that was under way or done counts as under way again. */
  function OnConnectionClosed(s: State): State {
    if s.handshake.HandshakeIdle? then s
    else s.(handshake := HandshakeIng, log := s.log + [ConnectionClosed])
  }

  function OnDisconnected(s: State): State {
    var t := OnConnectionClosed(s.(token := 0, status := StatusIdle));
    if t.handshake.HandshakeIdle? then t else t.(status := Reconnecting)
  }

  function Connect(s: State, opens: bool): (t: State)
    ensures t.running == s.running && t.queue == s.queue && t.crashed == s.crashed
    ensures t.handshake.HandshakeIdle? == s.handshake.HandshakeIdle?
  {
    if !s.networkAvailable then OnConnectionClosed(s)
    else if s.status.Connected? || s.status.Connecting? then s
    else if opens then s.(status := Connecting, socket := s.socket + 1)
    else OnDisconnected(s)
  }

  function CloseConnect(s: State): State {
    if s.status.StatusIdle? then s else OnConnectionClosed(OnDisconnected(s))
  }

  function Reconnect(s: State, opens: bool): State {
    Connect(CloseConnect(s).(status := Reconnecting), opens)
  }

  // ---- completing and sending ----

  function Without<T>(xs: seq<T>, i: nat): seq<T>
    requires i < |xs|
  {
    xs[..i] + xs[i + 1..]
  }

  function CompleteRunning(s: State, i: nat, code: Code): State
    requires i < |s.running|
  {
    s.(running := Without(s.running, i), log := s.log + [Completed(s.running[i].id, code)])
  }

  function CompleteQueued(s: State, i: nat, code: Code): State
    requires i < |s.queue|
  {
    s.(queue := Without(s.queue, i), log := s.log + [Completed(s.queue[i].id, code)])
  }

  predicate IsTimeout(r: Request, now: int) {
    r.timeout != 0 && (now - r.startTime) % TWO_64 >= r.timeout
  }

  predicate CanRetry(count: int) {
    !(count != 0 && count > DEFAULT_RETRY_COUNT)
  }

  /** The request goes out again on a new connection. */
  function Resend(s: State, i: nat, now: int): State
    requires i < |s.running|
  {
    var r := s.running[i];
    s.(running := s.running[i := r.(token := s.token, startTime := now)],
       log := s.log + [Enqueued(r.id, s.token, !r.flags.withoutLogin)],
       pingArmed := s.pingArmed || !r.flags.withoutAck)
  }

  /** A request that has timed out is tried again as often as it may, if it may. */
  function Expire(s: State, i: nat, now: int): (r: (State, bool))
    requires i < |s.running|
    ensures |r.0.running| == if r.1 then |s.running| else |s.running| - 1
    ensures r.0.queue == s.queue && r.0.crashed == s.crashed
  {
    var r := s.running[i];
    if r.flags.reSend then
      if CanRetry(r.retryCount + 1) then
        (s.(running := s.running[i := r.(retryCount := r.retryCount + 1, startTime := now)]), true)
      else (CompleteRunning(s, i, RequestRetryLimit), false)
    else (CompleteRunning(s, i, RequestTimeout), false)
  }

  /** What becomes of running request `i`; the flag says that it stays in the list. */
  function HandleRunning(s: State, i: nat, now: int): (r: (State, bool))
    requires i < |s.running|
    ensures |r.0.running| == if r.1 then |s.running| else |s.running| - 1
    ensures r.0.queue == s.queue && r.0.crashed == s.crashed
  {
    var r := s.running[i];
    if (!s.networkAvailable || s.token == 0) && !r.flags.reSend then
      (CompleteRunning(s, i, ConnectFail), false)
    else if s.token > 0 && s.token != r.token && (s.handshake.HandshakeSuccessed? || r.flags.withoutLogin) then
      (Resend(s, i, now), true)
    else if IsTimeout(r, now) then Expire(s, i, now)
    else (s, true)
  }

  /** The first loop of `processRequestQueue`. Without a connection object it would dereference null. */
  function RunningPass(s: State, i: nat, w: World, k: nat): State
    requires i <= |s.running|
    decreases |s.running| - i
  {
    if i == |s.running| then s
    else if s.handshake.HandshakeIdle? then s.(crashed := true)
    else
      var (t, stays) := HandleRunning(Connect(s, Opens(w, k)), i, w.now);
      RunningPass(t, if stays then i + 1 else i, w, k + 1)
  }

  /** The request gets its sequence number and goes out; without ack it is complete at once. */
  function Start(s: State, i: nat, later: int): State
    requires i < |s.queue|
  {
    var r := s.queue[i];
    var t := s.(queue := Without(s.queue, i), nextSeq := s.nextSeq + 1,
                log := s.log + [Enqueued(r.id, s.token, !r.flags.withoutLogin)]);
    if r.flags.withoutAck then t.(log := t.log + [Completed(r.id, Done)])
    else t.(running := t.running + [r.(token := s.token, messageSeq := s.nextSeq, startTime := later)],
            pingArmed := true)
  }

  function HandleQueued(s: State, i: nat, later: int): (t: State)
    requires i < |s.queue|
    ensures |t.queue| == |s.queue| - 1 && t.crashed == s.crashed
  {
    var r := s.queue[i];
    if s.token == 0 then
      if r.flags.reSend then Start(s, i, later) else CompleteQueued(s, i, WithoutConnection)
    else if s.handshake.HandshakeSuccessed? || r.flags.withoutLogin then Start(s, i, later)
    else CompleteQueued(s, i, WithoutLogin)
  }

  /** The second loop: without a handshake there is no connection and every request waits on. */
  function QueuePass(s: State, i: nat, w: World, k: nat): State
    requires i <= |s.queue|
    decreases |s.queue| - i
  {
    if i == |s.queue| then s
    else if s.handshake.HandshakeIdle? then QueuePass(s, i + 1, w, k)
    else QueuePass(HandleQueued(Connect(s, Opens(w, k)), i, Later(w, k)), i, w, k + 1)
  }

  // ---- handing over ----

  /** The requests made into messages, oldest first. */
  function Made(log: seq<Entry>): seq<nat> {
    if log == [] then [] else (if log[0].Enqueued? then [log[0].id] else []) + Made(log[1..])
  }

  function MadeSince(log: seq<Entry>, n: nat): seq<nat> {
    if n <= |log| then Made(log[n..]) else []
  }

  function WriteAll(s: State, batch: seq<nat>): State
    decreases |batch|
  {
    if batch == [] then s else WriteAll(s.(log := s.log + [Written(batch[0], s.socket, s.token)]), batch[1..])
  }

  /** `sendData`: without a socket the batch is dropped and a connection attempted. */
  function SendData(s: State, batch: seq<nat>, opens: bool, fails: bool): State {
    if s.status.StatusIdle? || s.status.Reconnecting? then Connect(s, opens)
    else if fails then OnDisconnected(WriteAll(s, batch))
    else WriteAll(s, batch)
  }

  /** The loop of `sendMessageToConnection` over its batches. */
  function HandOver(s: State, messages: seq<nat>, batches: seq<Batch>): State
    decreases |messages|
  {
    if messages == [] then s
    else if batches == [] then SendData(s, messages, false, false)
    else
      var n := BatchSize(batches[0].size, |messages|);
      HandOver(SendData(s, messages[..n], batches[0].opens, batches[0].fails), messages[n..], batches[1..])
  }

  /** `sendMessageToConnection`. Without a handshake it would dereference null. */
  function SendMessages(s: State, messages: seq<nat>, w: World): State {
    if messages == [] then s
    else if s.handshake.HandshakeIdle? then s.(crashed := true)
    else HandOver(Connect(s, w.first), messages, w.batches)
  }

  /** `processRequestQueue`. */
  function Process(s: State, w: World): State {
    var t := RunningPass(s, 0, w, 0);
    if t.crashed then t
    else
      var u := QueuePass(t, 0, w, |s.running|);
      SendMessages(u, MadeSince(u.log, |s.log|), w)
  }

  // ---- the events ----

  /** The first running request the reply answers, or the length of the list. */
  function MatchFrom(running: seq<Request>, i: nat, cmd: int, seqNo: Uint32): (k: nat)
    requires i <= |running|
    ensures i <= k <= |running|
    ensures k < |running| ==> running[k].messageSeq == seqNo && running[k].cmdId == cmd - 1
    ensures forall j :: i <= j < k ==> !(running[j].messageSeq == seqNo && running[j].cmdId == cmd - 1)
    decreases |running| - i
  {
    if i == |running| then i
    else if running[i].messageSeq == seqNo && running[i].cmdId == cmd - 1 then i
    else MatchFrom(running, i + 1, cmd, seqNo)
  }

  /** `onConnectionRecviedData`. */
  function OnPacket(s: State, cmd: int, seqNo: Uint32, accepted: bool, opens: bool): State {
    if seqNo == HANDSHAKE_SEQ && s.handshake.HandshakeIng? then
      if accepted then s.(handshake := HandshakeSuccessed, log := s.log + [HandshakeOk])
      else Connect(CloseConnect(s), opens)
    else if seqNo == PING_SEQ && s.handshake.HandshakeSuccessed? then s
    else
      var k := MatchFrom(s.running, 0, cmd, seqNo);
      if k < |s.running| then CompleteRunning(s, k, Done) else s
  }

  function CompleteAllQueued(s: State): State
    decreases |s.queue|
  {
    if s.queue == [] then s else CompleteAllQueued(CompleteQueued(s, 0, WithoutLogin))
  }

  function CompleteAllRunning(s: State): State
    decreases |s.running|
  {
    if s.running == [] then s else CompleteAllRunning(CompleteRunning(s, 0, WithoutLogin))
  }

  /** What `clearUp` schedules; with an idle handshake it would dereference a null connection. */
  function ClearUp(s: State): State {
    var t := CompleteAllRunning(CompleteAllQueued(s.(uin := 0)));
    if t.handshake.HandshakeIdle? then t.(crashed := true)
    else CloseConnect(t).(handshake := HandshakeIdle)
  }

  /** What `resumeNetwork` schedules; only a resumption by the user looks at the connection. */
  function Resume(s: State, isPush: bool): State {
    if isPush then s.(pauseArmed := s.pauseArmed || s.paused, paused := false)
    else
      var t := s.(pauseArmed := false, paused := false);
      if t.handshake.HandshakeIdle? then t.(crashed := true) else t
  }

  function DoTask(s: State, task: Task, w: World): State {
    match task
    case SendTask(r) => Process(s.(queue := s.queue + [r]), w)
    case ClearUpTask => ClearUp(s)
    case SetUinTask(uid) => s.(uin := uid)
    case SetNetworkTask(available) =>
      var t := s.(networkAvailable := available);
      if available && !t.handshake.HandshakeIdle? && t.uin != 0 then Connect(t, Opens(w, 0)) else t
    case ResumeTask(isPush) => Resume(s, isPush)
    case SetServerTask(single) =>
      if !single then s
      else if s.handshake.HandshakeIdle? then s.(crashed := true)
      else Reconnect(s, Opens(w, 0))
  }

  /** The pause test of `select`, which looks at the connection when the pause begins. */
  function PauseCheck(s: State, due: bool): State {
    if s.pauseArmed && due && !s.paused then s.(paused := true, crashed := s.handshake.HandshakeIdle?) else s
  }

  /** `sendPing`, and what it means for a pause. */
  function Ping(s: State, opens: bool, fails: bool): State {
    var t := SendData(s, [], opens, fails);
    t.(pauseArmed := s.pauseArmed || s.paused, paused := false)
  }

  /** The end of `select`: start the handshake, or ping when due and work off the queues. */
  function SelectEnd(s: State, pingDue: bool, pingOpens: bool, pingFails: bool, w: World): State {
    if s.handshake.HandshakeIdle? && s.uin != 0 then
      Connect(CloseConnect(s.(handshake := HandshakeIng)), Opens(w, 0))
    else if pingDue && s.pingArmed then
      if s.handshake.HandshakeIdle? then s.(crashed := true) else Process(Ping(s, pingOpens, pingFails), w)
    else Process(s, w)
  }

  function OnSelectTail(s: State, pauseDue: bool, pingDue: bool, pingOpens: bool, pingFails: bool, w: World): State {
    var t := PauseCheck(s, pauseDue);
    if t.crashed then t else SelectEnd(t, pingDue, pingOpens, pingFails, w)
  }

  function Greet(s: State, fails: bool, w: World): State {
    match s.handshake
    case HandshakeIdle => Process(s, w)
    case HandshakeIng => SendData(s.(pingArmed := true), [], false, fails)
    case HandshakeSuccessed => s
  }

  /** `onConnected`: the socket gets its token, and the handshake goes out unless it is done. */
  function OnSocketConnected(s: State, fails: bool, w: World): State {
    Greet(s.(status := Connected, token := s.nextToken, nextToken := s.nextToken + 1), fails, w)
  }

  function NewRequest(id: nat, cmdId: Int32, flags: Flags, timeout: Uint64): Request {
    Request(id, cmdId, flags, if timeout > 0 then timeout else DEFAULT_PACK_TIMEOUT, 0, 0, 0, 0)
  }

  /** A request refused because nobody is logged in is complete at once; any other waits for the network thread. */
  function Submit(s: State, cmdId: Int32, flags: Flags, timeout: Uint64): State {
    var t := s.(submitted := s.submitted + 1);
    if s.uin == 0 then t.(log := s.log + [Completed(s.submitted, WithoutLogin)])
    else t.(tasks := s.tasks + [SendTask(NewRequest(s.submitted, cmdId, flags, timeout))])
  }

  predicate SocketOpen(s: State) {
    s.status.Connecting? || s.status.Connected?
  }

  /** One event. An event that the socket cannot raise in this state changes nothing. */
  function Step(s: State, e: Event): State {
    if s.crashed then s
    else match e
      case CallSend(cmdId, flags, timeout) => Submit(s, cmdId, flags, timeout)
      case CallClearUp => s.(tasks := s.tasks + [ClearUpTask])
      case CallSetUin(uid) => if uid != 0 && uid != s.uin then s.(tasks := s.tasks + [SetUinTask(uid)]) else s
      case CallSetNetwork(available) => s.(tasks := s.tasks + [SetNetworkTask(available)])
      case CallPause => s.(pauseArmed := true)
      case CallResume(isPush) => s.(tasks := s.tasks + [ResumeTask(isPush)])
      case CallSetServer(single) => s.(tasks := s.tasks + [SetServerTask(single)])
      case RunTask(w) => if s.tasks == [] then s else DoTask(s.(tasks := s.tasks[1..]), s.tasks[0], w)
      case SelectTail(pauseDue, pingDue, pingOpens, pingFails, w) =>
        OnSelectTail(s, pauseDue, pingDue, pingOpens, pingFails, w)
      case SocketConnected(fails, w) => if s.status.Connecting? then OnSocketConnected(s, fails, w) else s
      case SocketClosed => OnDisconnected(s)
      case ReconnectTimer(opens) => if s.status.Reconnecting? then Connect(s, opens) else s
      case HeaderRejected(opens) => if SocketOpen(s) then Reconnect(s, opens) else s
      case Packet(cmd, seqNo, accepted, opens) => if SocketOpen(s) then OnPacket(s, cmd, seqNo, accepted, opens) else s
  }

  function Run(s: State, events: seq<Event>): State
    decreases |events|
  {
    if events == [] then s else Step(Run(s, events[..|events| - 1]), events[|events| - 1])
  }
}
