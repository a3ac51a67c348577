/** What one pass of `processRequestQueue` makes of each request, told by the clock, the flags and the connection. */
module RequestFates {
  import opened Bytes
  import opened RequestLifecycle
  import opened RequestInvariants
  import opened RequestSendings
  import opened RequestWritings

  /** A request is over with a code, or runs on as `request`. */
  datatype Fate = Over(code: Code) | Runs(request: Request)

  ghost predicate Unfinished(log: seq<Entry>, id: nat) {
    forall code :: Completed(id, code) !in log
  }

  /**
   * Request `id` has met its fate: it ran to exactly one completion, or is in the running
   * list once. Where it is only handed on it is written `Meets(..) == true`, so that the
   * verifier hands it on whole and does not prove its parts again.
   */
  ghost predicate Meets(t: State, id: nat, fate: Fate) {
    match fate
    case Over(code) => (forall c :: Completed(id, c) in t.log <==> c == code) && Absent(t.running, id)
    case Runs(r) => Unfinished(t.log, id) && exists p :: Alone(t.running, p, r, id)
  }

  ghost predicate Absent(rs: seq<Request>, id: nat) {
    forall k | 0 <= k < |rs| :: rs[k].id != id
  }

  ghost predicate Alone(rs: seq<Request>, p: nat, r: Request, id: nat) {
    p < |rs| && rs[p] == r && r.id == id && forall k | 0 <= k < |rs| && k != p :: rs[k].id != id
  }

  /** What a fate depends on stays as it was while the pass goes on. */
  ghost predicate Steady(s: State, t: State) {
    && t.token == s.token && t.networkAvailable == s.networkAvailable
    && !t.handshake.HandshakeIdle? && !t.crashed
    && (s.token > 0 ==> t.status.Connected? && (s.networkAvailable ==> t.handshake == s.handshake))
  }

  // ---- the clock ----

  /** The time is up; an unsigned comparison takes a clock that was set back for one that ran on. */
  predicate Due(r: Request, now: int) {
    r.timeout != 0 && if now >= r.startTime then now - r.startTime >= r.timeout else r.startTime - now <= TWO_64 - r.timeout
  }

  lemma DueExactly(r: Request, now: int)
    requires -TWO_64 <= now - r.startTime < TWO_64
    ensures IsTimeout(r, now) <==> Due(r, now)
  {
    var d := now - r.startTime;
    ModUnique(d, TWO_64, if d >= 0 then 0 else -1, if d >= 0 then d else d + TWO_64);
  }

  /** One millisecond back is enough for any timeout there is. */
  lemma SetBackExpires(r: Request, now: int)
    requires r.timeout > 0 && now == r.startTime - 1
    ensures IsTimeout(r, now)
  {
    DueExactly(r, now);
  }

  // ---- running requests ----

  function RunningFate(s: State, r: Request, now: int): Fate {
    if (!s.networkAvailable || s.token == 0) && !r.flags.reSend then Over(ConnectFail)
    else if Resends(s, r) then Runs(r.(token := s.token, startTime := now))
    else if !Due(r, now) then Runs(r)
    else if !r.flags.reSend then Over(RequestTimeout)
    else if r.retryCount < 3 then Runs(r.(retryCount := r.retryCount + 1, startTime := now))
    else Over(RequestRetryLimit)
  }

  lemma ConnectSteady(s: State, t: State, opens: bool, id: nat, fate: Fate)
    requires Steady(s, t)
    ensures var c := Connect(t, opens);
            && Steady(s, c) && c.running == t.running && c.queue == t.queue && c.nextSeq == t.nextSeq
            && (s.token > 0 && !s.networkAvailable ==> c.handshake.HandshakeIng?)
            && (Meets(t, id, fate) ==> Meets(c, id, fate)) && (Unfinished(t.log, id) ==> Unfinished(c.log, id))
  {
  }

  /** The lists and the log after a turn over request `i`, which stays as `q` or ends with `code`. */
  ghost predicate Turned(c: State, i: nat, t: State, fate: Fate)
    requires i < |c.running|
  {
    && t.queue == c.queue && t.nextSeq == c.nextSeq
    && match fate
       case Over(code) => t.running == Without(c.running, i) && t.log == c.log + [Completed(c.running[i].id, code)]
       case Runs(q) => t.running == c.running[i := q] && q.id == c.running[i].id
                       && (t.log == c.log || t.log == c.log + [Enqueued(q.id, c.token, !q.flags.withoutLogin)])
  }

  lemma TurnFate(s: State, c: State, i: nat, now: int)
    requires Steady(s, c) && i < |c.running| && c.running[i].retryCount >= 0
    requires s.token > 0 && !s.networkAvailable ==> c.handshake.HandshakeIng?
    requires -TWO_64 <= now - c.running[i].startTime < TWO_64
    ensures var (t, stays) := HandleRunning(c, i, now);
            var fate := RunningFate(s, c.running[i], now);
            Steady(s, t) && Turned(c, i, t, fate) && stays == fate.Runs?
  {
    var r := c.running[i];
    DueExactly(r, now);
    assert c.running[i := r] == c.running;
    if !((!c.networkAvailable || c.token == 0) && !r.flags.reSend) && !Resends(s, r) && IsTimeout(r, now) {
      ExpireCases(c, i, now);
    }
  }

  /** A turn over another request leaves this one alone. */
  lemma OtherTurn(c: State, i: nat, t: State, turn: Fate, id: nat, fate: Fate)
    requires i < |c.running| && Turned(c, i, t, turn) && c.running[i].id != id
    ensures Unfinished(c.log, id) ==> Unfinished(t.log, id)
    ensures Meets(c, id, fate) ==> Meets(t, id, fate)
  {
    if Meets(c, id, fate) && fate.Runs? {
      var p: nat :| Alone(c.running, p, fate.request, id);
      StillAlone(c.running, i, t.running, turn, id, p, fate.request);
    }
    if Absent(c.running, id) && turn.Over? {
      assert forall k | 0 <= k < |t.running| :: t.running[k] == c.running[if k < i then k else k + 1];
    }
  }

  lemma StillAlone(before: seq<Request>, i: nat, after: seq<Request>, turn: Fate, id: nat, p: nat, r: Request)
    requires i < |before| && before[i].id != id && Alone(before, p, r, id)
    requires match turn case Over(_) => after == Without(before, i) case Runs(q) => after == before[i := q] && q.id == before[i].id
    ensures Alone(after, if turn.Over? && p > i then p - 1 else p, r, id)
  {
    if turn.Over? {
      assert forall k | 0 <= k < |after| :: after[k] == before[if k < i then k else k + 1];
    }
  }

  /** A turn over this request brings its fate. */
  lemma OwnTurn(c: State, i: nat, t: State, fate: Fate, r: Request, id: nat)
    requires Alone(c.running, i, r, id) && Unfinished(c.log, id) && Turned(c, i, t, fate)
    ensures Meets(t, id, fate)
    ensures forall k | (if fate.Runs? then i + 1 else i) <= k < |t.running| :: t.running[k].id != id
  {
    match fate {
      case Over(code) =>
        assert forall k | 0 <= k < |t.running| :: t.running[k] == c.running[if k < i then k else k + 1];
      case Runs(q) =>
        assert Alone(t.running, i, q, id);
    }
  }

  /** The clock does not run wild, and retries are counted from zero. */
  ghost predicate Clocked(rs: seq<Request>, now: int) {
    forall k | 0 <= k < |rs| :: rs[k].retryCount >= 0 && -TWO_64 <= now - rs[k].startTime < TWO_64
  }

  lemma ClockedTurn(c: State, i: nat, t: State, s: State, now: int)
    requires i < |c.running| && Clocked(c.running, now) && Turned(c, i, t, RunningFate(s, c.running[i], now))
    ensures Clocked(t.running, now)
  {
    if RunningFate(s, c.running[i], now).Over? {
      assert forall k | 0 <= k < |t.running| :: t.running[k] == c.running[if k < i then k else k + 1];
    }
  }

  lemma NoneBehind(before: seq<Request>, i: nat, after: seq<Request>, turn: Fate, id: nat, next: nat)
    requires i < |before| && next == (if turn.Runs? then i + 1 else i) && forall n | i <= n < |before| :: before[n].id != id
    requires match turn case Over(_) => after == Without(before, i) case Runs(q) => after == before[i := q]
    ensures forall n | next <= n < |after| :: after[n].id != id
  {
    assert forall n | next <= n < |after| :: after[n] == before[if turn.Runs? then n else n + 1];
  }

  /** One turn of the first loop, opening the connection included. */
  lemma WholeTurn(s: State, t: State, i: nat, w: World, k: nat, id: nat, fate: Fate) returns (c: State, v: State, turn: Fate)
    requires Steady(s, t) && i < |t.running| && Clocked(t.running, w.now)
    ensures c == Connect(t, Opens(w, k)) && HandleRunning(c, i, w.now) == (v, turn.Runs?)
    ensures c.running == t.running && c.queue == t.queue && c.nextSeq == t.nextSeq
    ensures Steady(s, v) && turn == RunningFate(s, t.running[i], w.now) && Turned(c, i, v, turn) && Clocked(v.running, w.now)
    ensures (Meets(t, id, fate) ==> Meets(c, id, fate)) && (Unfinished(t.log, id) ==> Unfinished(c.log, id))
    ensures |v.running| == if turn.Runs? then |t.running| else |t.running| - 1
    ensures RunningPass(t, i, w, k) == RunningPass(v, if turn.Runs? then i + 1 else i, w, k + 1)
  {
    c := Connect(t, Opens(w, k));
    ConnectSteady(s, t, Opens(w, k), id, fate);
    TurnFate(s, c, i, w.now);
    turn := RunningFate(s, c.running[i], w.now);
    v := HandleRunning(c, i, w.now).0;
    ClockedTurn(c, i, v, s, w.now);
  }

  lemma {:induction false} PassAfter(s: State, t: State, i: nat, w: World, k: nat, id: nat, fate: Fate)
    requires Steady(s, t) && i <= |t.running| && Clocked(t.running, w.now) && Meets(t, id, fate)
    requires forall n | i <= n < |t.running| :: t.running[n].id != id
    ensures var u := RunningPass(t, i, w, k);
            Steady(s, u) && Meets(u, id, fate) && u.queue == t.queue && u.nextSeq == t.nextSeq
    decreases |t.running| - i
  {
    if i < |t.running| {
      var c, v, turn := WholeTurn(s, t, i, w, k, id, fate);
      OtherTurn(c, i, v, turn, id, fate);
      var next := if turn.Runs? then i + 1 else i;
      NoneBehind(c.running, i, v.running, turn, id, next);
      PassAfter(s, v, next, w, k + 1, id, fate);
    }
  }

  lemma {:induction false} PassFate(s: State, t: State, i: nat, p: nat, w: World, k: nat, r: Request, fate: Fate)
    requires Steady(s, t) && i <= p && Clocked(t.running, w.now) && Alone(t.running, p, r, r.id) && Unfinished(t.log, r.id)
    requires fate == RunningFate(s, r, w.now)
    ensures var u := RunningPass(t, i, w, k);
            Steady(s, u) && Meets(u, r.id, fate) && u.queue == t.queue && u.nextSeq == t.nextSeq
    decreases |t.running| - i
  {
    var c, v, turn := WholeTurn(s, t, i, w, k, r.id, fate);
    var next := if turn.Runs? then i + 1 else i;
    if i == p {
      OwnTurn(c, i, v, fate, r, r.id);
      PassAfter(s, v, next, w, k + 1, r.id, fate);
    } else {
      OtherTurn(c, i, v, turn, r.id, fate);
      StillAlone(c.running, i, v.running, turn, r.id, p, r);
      PassFate(s, v, next, if turn.Runs? then p else p - 1, w, k + 1, r, fate);
    }
  }

  // ---- the second loop ----

  lemma {:induction false} QueueLeaves(t: State, i: nat, w: World, k: nat, id: nat, fate: Fate)
    requires i <= |t.queue| && Meets(t, id, fate) == true && Absent(t.queue[i..], id)
    ensures Meets(QueuePass(t, i, w, k), id, fate) == true
    decreases |t.queue| - i
  {
    if i < |t.queue| {
      assert t.queue[i..][1..] == t.queue[i + 1..] && t.queue[i..][0] == t.queue[i];
      if t.handshake.HandshakeIdle? {
        QueueLeaves(t, i + 1, w, k, id, fate);
      } else {
        var c := Connect(t, Opens(w, k));
        ConnectLeaves(t, Opens(w, k), id, fate);
        var v := HandleQueued(c, i, Later(w, k));
        OtherQueued(c, i, Later(w, k), id, fate);
        assert v.queue[i..] == t.queue[i..][1..];
        QueueLeaves(v, i, w, k + 1, id, fate);
      }
    }
  }

  lemma ConnectLeaves(t: State, opens: bool, id: nat, fate: Fate)
    requires Meets(t, id, fate)
    ensures Meets(Connect(t, opens), id, fate)
  {
  }

  lemma MeetsMore(t: State, u: State, id: nat, fate: Fate)
    requires Meets(t, id, fate)
    requires t.running <= u.running && forall k | |t.running| <= k < |u.running| :: u.running[k].id != id
    requires t.log <= u.log && forall k | |t.log| <= k < |u.log| :: !(u.log[k].Completed? && u.log[k].id == id)
    ensures Meets(u, id, fate)
  {
    forall c ensures Completed(id, c) in u.log <==> Completed(id, c) in t.log {
      if Completed(id, c) in u.log {
        var k :| 0 <= k < |u.log| && u.log[k] == Completed(id, c);
        assert k < |t.log| && t.log[k] == u.log[k];
      }
    }
    if fate.Runs? {
      var p :| Alone(t.running, p, fate.request, id);
      assert Alone(u.running, p, fate.request, id);
    }
  }

  /** What a turn over a queued request can log and move. */
  ghost predicate TurnedQueued(c: State, i: nat, t: State)
    requires i < |c.queue|
  {
    var r := c.queue[i];
    && t.queue == Without(c.queue, i) && c.running <= t.running && c.log <= t.log
    && (forall k | |c.running| <= k < |t.running| :: t.running[k].id == r.id)
    && (forall k | |c.log| <= k < |t.log| :: t.log[k].Completed? ==> t.log[k].id == r.id)
  }

  lemma StartTurned(c: State, i: nat, later: int)
    requires i < |c.queue|
    ensures TurnedQueued(c, i, Start(c, i, later))
  {
  }

  lemma QueuedTurned(c: State, i: nat, later: int)
    requires i < |c.queue|
    ensures TurnedQueued(c, i, HandleQueued(c, i, later))
  {
    StartTurned(c, i, later);
  }

  lemma OtherQueued(c: State, i: nat, later: int, id: nat, fate: Fate)
    requires i < |c.queue| && c.queue[i].id != id && Meets(c, id, fate)
    ensures var t := HandleQueued(c, i, later); Meets(t, id, fate) && t.queue == Without(c.queue, i)
  {
    QueuedTurned(c, i, later);
    MeetsMore(c, HandleQueued(c, i, later), id, fate);
  }

  /** A queued request is refused for want of a connection or a login, or starts; without ack it is then over. */
  function QueuedFate(s: State, r: Request, seqNo: nat, later: int): Fate {
    if !Starts(s, r) then Over(if s.token == 0 then WithoutConnection else WithoutLogin)
    else if r.flags.withoutAck then Over(Done)
    else Runs(r.(token := s.token, messageSeq := seqNo, startTime := later))
  }

  /** How many of these requests start, and so take a sequence number. */
  function Started(s: State, rs: seq<Request>): nat {
    if rs == [] then 0 else (if Starts(s, rs[0]) then 1 else 0) + Started(s, rs[1..])
  }

  /** The first request of the queue leaves it one way or the other. */
  ghost predicate LeavesQueue(c: State, t: State, starts: bool, fate: Fate)
    requires c.queue != []
  {
    var r := c.queue[0];
    var log := if starts then c.log + [Enqueued(r.id, c.token, !r.flags.withoutLogin)] else c.log;
    && t.nextSeq == c.nextSeq + (if starts then 1 else 0)
    && match fate
       case Over(code) => t.running == c.running && t.log == log + [Completed(r.id, code)]
       case Runs(q) => t.running == c.running + [q] && t.log == log
  }

  lemma StartFate(s: State, c: State, later: int)
    requires Steady(s, c) && c.queue != [] && Starts(s, c.queue[0])
    ensures var t := Start(c, 0, later);
            Steady(s, t) && LeavesQueue(c, t, true, QueuedFate(s, c.queue[0], c.nextSeq, later))
  {
  }

  lemma RefuseFate(s: State, c: State, code: Code)
    requires Steady(s, c) && c.queue != []
    ensures Steady(s, CompleteQueued(c, 0, code)) && LeavesQueue(c, CompleteQueued(c, 0, code), false, Over(code))
  {
  }

  lemma QueuedTurnFate(s: State, c: State, later: int)
    requires Steady(s, c) && c.queue != [] && (s.token > 0 && !s.networkAvailable ==> c.handshake.HandshakeIng?)
    ensures var r, t := c.queue[0], HandleQueued(c, 0, later);
            Steady(s, t) && LeavesQueue(c, t, Starts(s, r), QueuedFate(s, r, c.nextSeq, later))
  {
    var r := c.queue[0];
    if Starts(s, r) {
      StartFate(s, c, later);
      assert HandleQueued(c, 0, later) == Start(c, 0, later);
    } else {
      var code := if s.token == 0 then WithoutConnection else WithoutLogin;
      RefuseFate(s, c, code);
      assert HandleQueued(c, 0, later) == CompleteQueued(c, 0, code);
    }
  }

  lemma OwnQueuedTurn(s: State, c: State, r: Request, seqNo: nat, later: int, fate: Fate)
    requires Steady(s, c) && c.queue != [] && (s.token > 0 && !s.networkAvailable ==> c.handshake.HandshakeIng?)
    requires c.queue[0] == r && c.nextSeq == seqNo && Absent(c.running, r.id) && Unfinished(c.log, r.id)
    requires fate == QueuedFate(s, r, seqNo, later)
    ensures Meets(HandleQueued(c, 0, later), r.id, fate)
  {
    QueuedTurnFate(s, c, later);
    var t := HandleQueued(c, 0, later);
    if fate.Runs? {
      assert Alone(t.running, |c.running|, fate.request, r.id);
    }
  }

  lemma AbsentMore(c: State, i: nat, t: State, id: nat)
    requires i < |c.queue| && TurnedQueued(c, i, t) && c.queue[i].id != id && Absent(c.running, id) && Unfinished(c.log, id)
    ensures Absent(t.running, id) && Unfinished(t.log, id)
  {
  }

  /** What holds of the loop from one turn on holds of it from the turn before. */
  ghost predicate Backward(P: (State, nat) -> bool, w: World) {
    forall t: State, k: nat {:trigger HandleQueued(Connect(t, Opens(w, k)), 0, Later(w, k))} ::
      t.queue != [] && !t.handshake.HandshakeIdle? && P(HandleQueued(Connect(t, Opens(w, k)), 0, Later(w, k)), k + 1) ==> P(t, k)
  }

  /** It holds once the request has met its fate and left the queue. */
  ghost predicate Settles(P: (State, nat) -> bool, id: nat, fate: Fate) {
    forall t: State, k: nat {:trigger Meets(t, id, fate), P(t, k)} :: Meets(t, id, fate) && Absent(t.queue, id) ==> P(t, k)
  }

  lemma {:induction false} QueueFate(P: (State, nat) -> bool, s: State, t: State, front: seq<Request>, w: World, k: nat, r: Request,
                                     n: nat, seqNo: nat, later: int, fate: Fate)
    requires Backward(P, w) && Settles(P, r.id, fate)
    requires Steady(s, t) && Alone(t.queue, |front|, r, r.id) && Absent(t.running, r.id) && Unfinished(t.log, r.id)
    requires front == t.queue[..|front|] && n == Started(s, front) && seqNo == t.nextSeq + n
    requires later == Later(w, k + |front|) && fate == QueuedFate(s, r, seqNo, later)
    ensures P(t, k)
    decreases |front|
  {
    if front == [] {
      OwnQueueTurn(P, s, t, w, k, r, seqNo, later, fate);
    } else {
      var rest, m := FrontNext(s, t.queue, t.queue[1..], front, r, n);
      var v := OtherQueueTurn(P, s, t, w, k, r.id);
      QueueFate(P, s, v, rest, w, k + 1, r, m, seqNo, later, fate);
    }
  }

  /** The turn of the request itself, and the turn of another one. */
  lemma OwnQueueTurn(P: (State, nat) -> bool, s: State, t: State, w: World, k: nat, r: Request, seqNo: nat, later: int, fate: Fate)
    requires Backward(P, w) && Settles(P, r.id, fate)
    requires Steady(s, t) && Alone(t.queue, 0, r, r.id) && Absent(t.running, r.id) && Unfinished(t.log, r.id)
    requires seqNo == t.nextSeq && later == Later(w, k) && fate == QueuedFate(s, r, seqNo, later)
    ensures P(t, k)
  {
    var c, v := WholeQueueTurn(P, s, t, w, k, r.id);
    OwnQueuedTurn(s, c, r, seqNo, later, fate);
  }

  lemma OtherQueueTurn(P: (State, nat) -> bool, s: State, t: State, w: World, k: nat, id: nat) returns (v: State)
    requires Backward(P, w)
    requires Steady(s, t) && t.queue != [] && t.queue[0].id != id && Absent(t.running, id) && Unfinished(t.log, id)
    ensures Steady(s, v) && v.queue == t.queue[1..] && v.nextSeq == t.nextSeq + if Starts(s, t.queue[0]) then 1 else 0
    ensures Absent(v.running, id) && Unfinished(v.log, id)
    ensures P(v, k + 1) ==> P(t, k)
  {
    var c;
    c, v := WholeQueueTurn(P, s, t, w, k, id);
    AbsentMore(c, 0, v, id);
  }

  lemma FrontNext(s: State, before: seq<Request>, after: seq<Request>, front: seq<Request>, r: Request, n: nat)
    returns (rest: seq<Request>, m: nat)
    requires front != [] && Alone(before, |front|, r, r.id) && front == before[..|front|] && after == before[1..]
    requires n == Started(s, front)
    ensures before[0].id != r.id && |rest| == |front| - 1 && rest == after[..|rest|] && Alone(after, |rest|, r, r.id)
    ensures m == Started(s, rest) && n == m + if Starts(s, before[0]) then 1 else 0
  {
    rest := front[1..];
    m := Started(s, rest);
    assert front[0] == before[0];
    assert forall k | 0 <= k < |after| :: after[k] == before[k + 1];
  }

  /** One turn of the second loop, opening the connection included. */
  lemma WholeQueueTurn(P: (State, nat) -> bool, s: State, t: State, w: World, k: nat, id: nat) returns (c: State, v: State)
    requires Backward(P, w) && Steady(s, t) && t.queue != []
    ensures c == Connect(t, Opens(w, k)) && v == HandleQueued(c, 0, Later(w, k))
    ensures c.queue == t.queue && c.running == t.running && c.nextSeq == t.nextSeq && (Unfinished(t.log, id) ==> Unfinished(c.log, id))
    ensures Steady(s, c) && (s.token > 0 && !s.networkAvailable ==> c.handshake.HandshakeIng?)
    ensures Steady(s, v) && TurnedQueued(c, 0, v) && v.queue == t.queue[1..]
    ensures v.nextSeq == t.nextSeq + if Starts(s, t.queue[0]) then 1 else 0
    ensures P(v, k + 1) ==> P(t, k)
  {
    c := Connect(t, Opens(w, k));
    ConnectSteady(s, t, Opens(w, k), id, Over(Done));
    v := HandleQueued(c, 0, Later(w, k));
    QueuedTurned(c, 0, Later(w, k));
    QueuedTurnFate(s, c, Later(w, k));
  }

  // ---- the hand-over ----

  /** Nothing but writings and losses of the connection is logged, and the lists stay. */
  ghost predicate OnlySends(s: State, t: State) {
    && t.running == s.running && t.queue == s.queue && s.log <= t.log
    && forall k | |s.log| <= k < |t.log| :: t.log[k].Written? || t.log[k].ConnectionClosed?
  }

  lemma OnlySendsMore(s: State, t: State, u: State)
    requires OnlySends(s, t) && OnlySends(t, u)
    ensures OnlySends(s, u)
  {
    forall k | |s.log| <= k < |u.log| ensures u.log[k].Written? || u.log[k].ConnectionClosed? {
      if k < |t.log| { assert u.log[k] == t.log[k]; }
    }
  }

  lemma {:induction false} WriteAllOnlySends(s: State, batch: seq<nat>)
    ensures OnlySends(s, WriteAll(s, batch))
    decreases |batch|
  {
    if batch != [] {
      var t := s.(log := s.log + [Written(batch[0], s.socket, s.token)]);
      WriteAllOnlySends(t, batch[1..]);
      OnlySendsMore(s, t, WriteAll(t, batch[1..]));
    }
  }

  lemma LostOnlySends(s: State)
    ensures OnlySends(s, OnDisconnected(s))
  {
  }

  lemma ConnectOnlySends(s: State, opens: bool)
    ensures OnlySends(s, Connect(s, opens))
  {
    LostOnlySends(s);
  }

  lemma SendDataOnlySends(s: State, batch: seq<nat>, opens: bool, fails: bool)
    ensures OnlySends(s, SendData(s, batch, opens, fails))
  {
    var t := WriteAll(s, batch);
    WriteAllOnlySends(s, batch);
    LostOnlySends(t);
    OnlySendsMore(s, t, OnDisconnected(t));
    ConnectOnlySends(s, opens);
    SendDataFrom((u: State) => OnlySends(s, u), s, batch, opens, fails);
  }

  lemma {:induction false} HandOverOnlySends(s: State, messages: seq<nat>, batches: seq<Batch>)
    ensures OnlySends(s, HandOver(s, messages, batches))
    decreases |messages|
  {
    if messages != [] {
      if batches == [] {
        SendDataOnlySends(s, messages, false, false);
      } else {
        var b := batches[0];
        var n := BatchSize(b.size, |messages|);
        var t := SendData(s, messages[..n], b.opens, b.fails);
        SendDataOnlySends(s, messages[..n], b.opens, b.fails);
        HandOverOnlySends(t, messages[n..], batches[1..]);
        OnlySendsMore(s, t, HandOver(t, messages[n..], batches[1..]));
      }
    }
  }

  lemma SendMessagesOnlySends(s: State, messages: seq<nat>, w: World)
    requires !s.handshake.HandshakeIdle?
    ensures OnlySends(s, SendMessages(s, messages, w))
  {
    var c := Connect(s, w.first);
    ConnectOnlySends(s, w.first);
    HandOverOnlySends(c, messages, w.batches);
    OnlySendsMore(s, c, HandOver(c, messages, w.batches));
  }

  // ---- the whole pass ----

  lemma NotDone(log: seq<Entry>, id: nat)
    requires id !in DoneIds(log)
    ensures Unfinished(log, id)
  {
    forall code ensures Completed(id, code) !in log {
      if Completed(id, code) in log {
        DoneHas(log, id, code);
      }
    }
  }

  lemma {:induction false} DoneHas(log: seq<Entry>, id: nat, code: Code)
    requires Completed(id, code) in log
    ensures id in DoneIds(log)
    decreases |log|
  {
    var n := |log| - 1;
    if log[n] != Completed(id, code) {
      assert log == log[..n] + [log[n]];
      DoneHas(log[..n], id, code);
    }
  }

  lemma Begins(s: State, j: nat)
    requires Live(s) && j < |s.running|
    ensures Steady(s, s) && Alone(s.running, j, s.running[j], s.running[j].id)
    ensures Unfinished(s.log, s.running[j].id) && Absent(s.queue, s.running[j].id)
  {
    RunningIsOnlyThere(s, j);
    forall i | 0 <= i < |s.running| && i != j ensures s.running[i].id != s.running[j].id {
      assert Without(s.running, j)[if i < j then i else i - 1] == s.running[i];
    }
    NotDone(s.log, s.running[j].id);
  }

  lemma ProcessSends(s: State, w: World, t: State, u: State)
    requires t == RunningPass(s, 0, w, 0) && !t.crashed && u == QueuePass(t, 0, w, |s.running|) && !u.handshake.HandshakeIdle?
    ensures OnlySends(u, Process(s, w))
  {
    SendMessagesOnlySends(u, MadeSince(u.log, |s.log|), w);
    ProcessFrom((v: State) => OnlySends(u, v), s, t, u, w);
  }

  /** The hand-over changes nothing about it. */
  lemma StillMeets(s: State, w: World, t: State, u: State, id: nat, fate: Fate)
    requires Live(s) && !s.handshake.HandshakeIdle? && Meets(u, id, fate)
    requires t == RunningPass(s, 0, w, 0) && u == QueuePass(t, 0, w, |s.running|)
    ensures Meets(Process(s, w), id, fate)
  {
    PassesPass(s, w);
    ProcessSends(s, w, t, u);
    MeetsMore(u, Process(s, w), id, fate);
  }

  lemma SteadyAtFirst(s: State)
    requires Live(s) && !s.handshake.HandshakeIdle?
    ensures Steady(s, s)
  {
  }

  /** Every running request meets its fate in a pass, whatever the network does. */
  lemma RunningMeets(s: State, w: World, j: nat)
    requires Live(s) && j < |s.running| && Clocked(s.running, w.now)
    ensures Meets(Process(s, w), s.running[j].id, RunningFate(s, s.running[j], w.now))
  {
    var r := s.running[j];
    var fate := RunningFate(s, r, w.now);
    Begins(s, j);
    PassFate(s, s, 0, j, w, 0, r, fate);
    var t := RunningPass(s, 0, w, 0);
    var u := QueuePass(t, 0, w, |s.running|);
    assert t.queue[0..] == t.queue;
    QueueLeaves(t, 0, w, |s.running|, r.id, fate);
    StillMeets(s, w, t, u, r.id, fate);
  }

  lemma BeginsQueued(s: State, j: nat)
    requires Live(s) && j < |s.queue|
    ensures Alone(s.queue, j, s.queue[j], s.queue[j].id)
    ensures Unfinished(s.log, s.queue[j].id) && Absent(s.running, s.queue[j].id)
  {
    QueuedIsOnlyThere(s, j);
    forall i | 0 <= i < |s.queue| && i != j ensures s.queue[i].id != s.queue[j].id {
      assert Without(s.queue, j)[if i < j then i else i - 1] == s.queue[i];
    }
    NotDone(s.log, s.queue[j].id);
  }

  /** The first loop leaves a request that is not in its list alone. */
  lemma {:induction false} PassAbsent(s: State, t: State, i: nat, w: World, k: nat, id: nat)
    requires Steady(s, t) && i <= |t.running| && Clocked(t.running, w.now) && Absent(t.running, id) && Unfinished(t.log, id)
    ensures var u := RunningPass(t, i, w, k);
            Steady(s, u) && Absent(u.running, id) && Unfinished(u.log, id) && u.queue == t.queue && u.nextSeq == t.nextSeq
    decreases |t.running| - i
  {
    if i < |t.running| {
      var c, v, turn := WholeTurn(s, t, i, w, k, id, Over(Done));
      OtherTurn(c, i, v, turn, id, Over(Done));
      AbsentTurned(c, i, v, turn, id);
      PassAbsent(s, v, if turn.Runs? then i + 1 else i, w, k + 1, id);
    }
  }

  lemma AbsentTurned(c: State, i: nat, t: State, turn: Fate, id: nat)
    requires i < |c.running| && Turned(c, i, t, turn) && Absent(c.running, id)
    ensures Absent(t.running, id)
  {
    if turn.Over? {
      assert forall k | 0 <= k < |t.running| :: t.running[k] == c.running[if k < i then k else k + 1];
    }
  }

  /** The sequence number of a queued request counts the requests that start before it. */
  function Number(s: State, j: nat): nat
    requires j < |s.queue|
  {
    s.nextSeq + Started(s, s.queue[..j])
  }

  lemma EndsAsMet(s: State, n: nat, w: World, u: State, id: nat, fate: Fate) returns (P: (State, nat) -> bool)
    requires u == QueuePass(s, 0, w, n)
    ensures P(s, n) ==> Meets(u, id, fate) == true
    ensures Backward(P, w) && Settles(P, id, fate)
  {
    P := (t: State, k: nat) => Meets(QueuePass(t, 0, w, k), id, fate);
    forall t: State, k: nat | Meets(t, id, fate) && Absent(t.queue, id) ensures P(t, k) {
      assert t.queue[0..] == t.queue;
      QueueLeaves(t, 0, w, k, id, fate);
    }
  }

  lemma QueueFateIn(s: State, k: nat, w: World, j: nat, t: State, u: State, r: Request, seqNo: nat, later: int, fate: Fate)
    requires Steady(s, t) && t.queue == s.queue && t.nextSeq == s.nextSeq && u == QueuePass(t, 0, w, k)
    requires Alone(s.queue, j, r, r.id) && Absent(t.running, r.id) && Unfinished(t.log, r.id)
    requires seqNo == Number(s, j) && later == Later(w, k + j) && fate == QueuedFate(s, r, seqNo, later)
    ensures Meets(u, r.id, fate)
  {
    var front := s.queue[..j];
    var P := EndsAsMet(t, k, w, u, r.id, fate);
    QueueFate(P, s, t, front, w, k, r, Started(s, front), seqNo, later, fate);
  }

  lemma AfterFirstLoop(s: State, w: World, j: nat, t: State, id: nat)
    requires Live(s) && j < |s.queue| && !s.handshake.HandshakeIdle? && Clocked(s.running, w.now)
    requires t == RunningPass(s, 0, w, 0) && id == s.queue[j].id
    ensures Steady(s, t) && t.queue == s.queue && t.nextSeq == s.nextSeq
    ensures Alone(s.queue, j, s.queue[j], id) && Absent(t.running, id) && Unfinished(t.log, id)
  {
    BeginsQueued(s, j);
    SteadyAtFirst(s);
    PassAbsent(s, s, 0, w, 0, id);
  }

  /** Every queued request meets its fate in a pass, whatever the network does; the clock is read at its turn. */
  lemma QueuedMeets(s: State, w: World, j: nat, r: Request)
    requires Live(s) && j < |s.queue| && s.queue[j] == r && !s.handshake.HandshakeIdle? && Clocked(s.running, w.now)
    ensures Meets(Process(s, w), r.id, QueuedFate(s, r, Number(s, j), Later(w, |s.running| + j)))
  {
    var seqNo, later := Number(s, j), Later(w, |s.running| + j);
    var fate, t := QueuedFate(s, r, seqNo, later), RunningPass(s, 0, w, 0);
    var u := QueuePass(t, 0, w, |s.running|);
    AfterFirstLoop(s, w, j, t, r.id);
    QueueFateIn(s, |s.running|, w, j, t, u, r, seqNo, later, fate);
    StillMeets(s, w, t, u, r.id, fate);
  }

  /**
   * The clock decides: on its own connection a running request is left as it was exactly
   * while its time is not up; then it is completed with a timeout, or, if it may be
   * resent, tried again with the clock restarted, three times, and then completed.
   */
  lemma TimedOutExactly(s: State, w: World, j: nat)
    requires Live(s) && j < |s.running| && Clocked(s.running, w.now)
    requires s.networkAvailable && s.token > 0 && s.running[j].token == s.token
    requires s.running[j].timeout > 0 && w.now >= s.running[j].startTime
    ensures var r, t := s.running[j], Process(s, w);
            var up := w.now >= r.startTime + r.timeout;
            && (Completed(r.id, RequestTimeout) in t.log <==> up && !r.flags.reSend)
            && (Completed(r.id, RequestRetryLimit) in t.log <==> up && r.flags.reSend && r.retryCount == 3)
            && (r.(retryCount := r.retryCount + 1, startTime := w.now) in t.running <==> up && r.flags.reSend && r.retryCount < 3)
            && (r in t.running <==> !up)
  {
    var r, t := s.running[j], Process(s, w);
    RunningMeets(s, w, j);
    if !r.flags.reSend && RunningFate(s, r, w.now).Over? {
      assert Absent(t.running, r.id);
    }
  }
}
