/**
 * The compare-and-swap reference count (`refcount_c11.c`): any number of threads over
 * one shared word. Each step is one access to the word together with the local tests
 * that follow it; a weak compare-exchange may also fail for no reason.
 */
module RefCounts {
  import opened Bytes

  const MAX: int := 0xFFFF_FFFF

  type Thread = nat

  /** Where a thread is: out, in the loop of an operation with the value it expects, or crashed. */
  datatype Place = Out | Incrementing(expected: Uint32) | Decrementing(expected: Uint32) | Aborted

  /** What took effect, in the order it did: by whom, and what a decrement reported. */
  datatype Effect = Inc(who: Thread) | Dec(who: Thread, zero: bool) | Crash(who: Thread)

  datatype State = State(count: Uint32, at: map<Thread, Place>, log: seq<Effect>)

  datatype Event = CallInc(who: Thread) | CallDec(who: Thread) | Exchange(who: Thread, spurious: bool)

  function PlaceOf(s: State, t: Thread): Place {
    if t in s.at then s.at[t] else Out
  }

  function Move(s: State, t: Thread, p: Place): State {
    s.(at := s.at[t := p])
  }

  function Done(s: State, t: Thread, e: Effect): State {
    Move(s, t, Out).(log := s.log + [e])
  }

  /** The value just read, compared at the head of the increment's loop. */
  function SawInc(s: State, t: Thread): State {
    if s.count == MAX then Done(s, t, Inc(t)) else Move(s, t, Incrementing(s.count))
  }

  /** The value just read, compared in the decrement's loop. */
  function SawDec(s: State, t: Thread): State {
    if s.count == 0 then Move(s, t, Aborted).(log := s.log + [Crash(t)])
    else if s.count == MAX then Done(s, t, Dec(t, false))
    else Move(s, t, Decrementing(s.count))
  }

  /** The compare-exchange of the thread's loop, which may fail with nobody to blame. */
  function Try(s: State, t: Thread, spurious: bool): State
    requires Inv(s)
  {
    match PlaceOf(s, t)
    case Incrementing(expected) =>
      if s.count == expected && !spurious then Done(s, t, Inc(t)).(count := expected + 1) else SawInc(s, t)
    case Decrementing(expected) =>
      if s.count == expected && !spurious then Done(s, t, Dec(t, expected - 1 == 0)).(count := expected - 1)
      else SawDec(s, t)
    case _ => s
  }

  function Step(s: State, e: Event): State
    requires Inv(s)
  {
    match e
    case CallInc(t) => if PlaceOf(s, t).Out? then SawInc(s, t) else s
    case CallDec(t) => if PlaceOf(s, t).Out? then SawDec(s, t) else s
    case Exchange(t, spurious) => Try(s, t, spurious)
  }

  /** A thread in a loop expects a value it may change. */
  ghost predicate Inv(s: State) {
    forall t: Thread ::
      && (PlaceOf(s, t).Incrementing? ==> PlaceOf(s, t).expected < MAX)
      && (PlaceOf(s, t).Decrementing? ==> 0 < PlaceOf(s, t).expected < MAX)
  }

  lemma StepKeeps(s: State, e: Event)
    requires Inv(s)
    ensures Inv(Step(s, e))
  {
    var s' := Step(s, e);
    assert forall u: Thread | u != e.who :: PlaceOf(s', u) == PlaceOf(s, u);
  }

  function Run(s: State, events: seq<Event>): (s': State)
    requires Inv(s)
    ensures Inv(s')
    decreases |events|
  {
    if events == [] then s
    else
      StepKeeps(s, events[0]);
      Run(Step(s, events[0]), events[1..])
  }

  // ---- the documented counter ----

  /** The counter one operation at a time: what is left of it, if the operation could report what it did. */
  datatype Counter = At(count: nat) | Refused

  function Apply(c: Counter, e: Effect): Counter {
    match c
    case Refused => Refused
    case At(n) =>
      match e
      case Inc(_) => if n == MAX then c else At(n + 1)
      case Dec(_, zero) =>
        if n == 0 then Refused
        else if n == MAX then (if zero then Refused else c)
        else if zero == (n - 1 == 0) then At(n - 1)
        else Refused
      case Crash(_) => if n == 0 then c else Refused
  }

  function Replay(c: Counter, log: seq<Effect>): Counter {
    if log == [] then c else Apply(Replay(c, log[..|log| - 1]), log[|log| - 1])
  }

  lemma ReplayMore(c: Counter, log: seq<Effect>, e: Effect)
    ensures Replay(c, log + [e]) == Apply(Replay(c, log), e)
  {
    assert (log + [e])[..|log|] == log;
  }

  lemma SawLinearises(s: State, t: Thread, c: Counter)
    requires Linear(c, s)
    ensures var s' := SawInc(s, t); Linear(c, s') && s.log <= s'.log && |s'.log| <= |s.log| + 1
    ensures var s' := SawDec(s, t); Linear(c, s') && s.log <= s'.log && |s'.log| <= |s.log| + 1
  {
    ReplayMore(c, s.log, Inc(t));
    ReplayMore(c, s.log, Crash(t));
    ReplayMore(c, s.log, Dec(t, false));
  }

  lemma ExchangeLinearises(s: State, t: Thread, c: Counter)
    requires Linear(c, s)
    ensures s.count < MAX ==> Replay(c, Done(s, t, Inc(t)).log) == At(s.count + 1)
    ensures 0 < s.count < MAX ==> Replay(c, Done(s, t, Dec(t, s.count - 1 == 0)).log) == At(s.count - 1)
  {
    ReplayMore(c, s.log, Inc(t));
    ReplayMore(c, s.log, Dec(t, s.count - 1 == 0));
  }

  /** The documented counter, run on the effects so far, is where the word is. */
  ghost predicate Linear(c: Counter, s: State) { Replay(c, s.log) == At(s.count) }

  lemma TryLinearises(s: State, t: Thread, spurious: bool, c: Counter)
    requires Inv(s) && Linear(c, s)
    ensures var s' := Try(s, t, spurious); Linear(c, s') && s.log <= s'.log && |s'.log| <= |s.log| + 1
  {
    SawLinearises(s, t, c);
    ExchangeLinearises(s, t, c);
  }

  lemma StepLinearises(s: State, e: Event, c: Counter)
    requires Inv(s) && Linear(c, s)
    ensures var s' := Step(s, e); Linear(c, s') && s.log <= s'.log && |s'.log| <= |s.log| + 1
  {
    match e {
      case Exchange(t, spurious) => TryLinearises(s, t, spurious, c);
      case _ => SawLinearises(s, e.who, c);
    }
  }

  /**
   * The loops linearise: in every run, the effects in the order they took place are
   * what the documented counter does one operation at a time, with the same reports.
   */
  lemma {:induction false} Linearises(s: State, events: seq<Event>, c: Counter)
    requires Inv(s) && Linear(c, s)
    ensures var s' := Run(s, events); Linear(c, s') && s.log <= s'.log
    decreases |events|
  {
    if events != [] {
      StepKeeps(s, events[0]);
      StepLinearises(s, events[0], c);
      Linearises(Step(s, events[0]), events[1..], c);
    }
  }

  /** Exactly the call that completes puts its effect in the log, in the step that lets its thread out. */
  lemma EffectIsTheCallers(s: State, e: Event)
    requires Inv(s)
    ensures var s' := Step(s, e);
            && (s'.log != s.log <==>
                (PlaceOf(s, e.who) != Out && PlaceOf(s', e.who) == Out) ||
                (PlaceOf(s', e.who) == Aborted && PlaceOf(s, e.who) != Aborted) ||
                (PlaceOf(s, e.who) == Out && s.count == MAX && !e.Exchange?))
            && (s'.log != s.log ==> s'.log[|s.log|].who == e.who)
            && forall u: Thread | u != e.who :: PlaceOf(s', u) == PlaceOf(s, u)
  {
  }

  // ---- who reaches zero ----

  function Zeros(log: seq<Effect>): nat {
    if log == [] then 0
    else Zeros(log[..|log| - 1]) + if log[|log| - 1].Dec? && log[|log| - 1].zero then 1 else 0
  }

  /** Increments that found the counter at zero. */
  function Revivals(c: Counter, log: seq<Effect>): nat {
    if log == [] then 0
    else
      var front := log[..|log| - 1];
      Revivals(c, front) + if log[|log| - 1].Inc? && Replay(c, front) == At(0) then 1 else 0
  }

  /** The counter never stood at its maximum. */
  predicate NeverSaturates(c: Counter, log: seq<Effect>) {
    Replay(c, log) != At(MAX) && (log == [] || NeverSaturates(c, log[..|log| - 1]))
  }

  function Incs(log: seq<Effect>): nat {
    if log == [] then 0 else Incs(log[..|log| - 1]) + if log[|log| - 1].Inc? then 1 else 0
  }

  function Decs(log: seq<Effect>): nat {
    if log == [] then 0 else Decs(log[..|log| - 1]) + if log[|log| - 1].Dec? then 1 else 0
  }

  /** Without saturation the count is the balance of the operations. */
  lemma {:induction false} Balance(c: Counter, log: seq<Effect>)
    requires c.At? && Replay(c, log).At? && NeverSaturates(c, log)
    ensures Replay(c, log).count == c.count + Incs(log) - Decs(log)
  {
    if log != [] {
      Balance(c, log[..|log| - 1]);
    }
  }

  function Nought(c: Counter): nat { if c == At(0) then 1 else 0 }

  /** Reports of zero and increments from zero alternate, saturated or not. */
  lemma {:induction false} ZerosCount(c: Counter, log: seq<Effect>)
    requires Replay(c, log).At?
    ensures Zeros(log) + Nought(c) == Revivals(c, log) + Nought(Replay(c, log))
  {
    if log != [] {
      ZerosCount(c, log[..|log| - 1]);
    }
  }

  /**
   * From a positive count, the reports of zero are one more than the increments from
   * zero when the count is zero, and as many when it is not.
   */
  lemma Reports(s: State, events: seq<Event>)
    requires Inv(s) && s.log == [] && s.count > 0
    ensures var s' := Run(s, events);
            Zeros(s'.log) == Revivals(At(s.count), s'.log) + if s'.count == 0 then 1 else 0
  {
    Linearises(s, events, At(s.count));
    ZerosCount(At(s.count), Run(s, events).log);
  }

  /**
   * So in a run that never saturates, in which nobody increments a count that reached
   * zero, exactly one decrement reports zero if and only if every reference there was
   * and every one added has been given up; until then none does.
   */
  lemma ExactlyOneReport(s: State, events: seq<Event>)
    requires Inv(s) && s.log == [] && s.count > 0
    requires NeverSaturates(At(s.count), Run(s, events).log) && Revivals(At(s.count), Run(s, events).log) == 0
    ensures var log := Run(s, events).log;
            Zeros(log) == if Decs(log) == s.count + Incs(log) then 1 else 0
  {
    Linearises(s, events, At(s.count));
    Reports(s, events);
    Balance(At(s.count), Run(s, events).log);
  }

  ghost predicate Quiet(s: State) { forall t: Thread :: PlaceOf(s, t) == Out }

  /** A call with nobody else about. */
  lemma Alone(s: State, a: Event)
    requires Quiet(s) && ((a.CallDec? && s.count == 1) || (a.CallInc? && s.count == 0))
    ensures Inv(s)
    ensures var s' := Run(s, [a, Exchange(a.who, false)]);
            && Quiet(s') && s'.count == 1 - s.count
            && s'.log == s.log + [if a.CallDec? then Dec(a.who, true) else Inc(a.who)]
  {
    var b := Exchange(a.who, false);
    StepKeeps(s, a);
    var s1 := Step(s, a);
    StepKeeps(s1, b);
    var s' := Step(s1, b);
    assert [a, b][1..] == [b] && [b][1..] == [];
    assert Run(s1, [b]) == Run(s', []) == s';
    assert Run(s, [a, b]) == s';
    assert forall t: Thread | t != a.who :: PlaceOf(s', t) == PlaceOf(s1, t) == PlaceOf(s, t);
  }

  lemma ZerosMore(log: seq<Effect>, e: Effect)
    ensures Zeros(log + [e]) == Zeros(log) + if e.Dec? && e.zero then 1 else 0
  {
    assert (log + [e])[..|log|] == log;
  }

  /** A decrement to zero, an increment back and another decrement: both decrements report zero. */
  lemma TwoReports(s: State, x: Thread, y: Thread, z: Thread)
    requires Quiet(s) && s.count == 1 && s.log == []
    ensures Inv(s)
    ensures var s2 := Run(s, [CallDec(x), Exchange(x, false)]);
            var s4 := Run(s2, [CallInc(y), Exchange(y, false)]);
            Zeros(Run(s4, [CallDec(z), Exchange(z, false)]).log) == 2
  {
    Alone(s, CallDec(x));
    ZerosMore(s.log, Dec(x, true));
    var s2 := Run(s, [CallDec(x), Exchange(x, false)]);
    Alone(s2, CallInc(y));
    ZerosMore(s2.log, Inc(y));
    var s4 := Run(s2, [CallInc(y), Exchange(y, false)]);
    Alone(s4, CallDec(z));
    ZerosMore(s4.log, Dec(z, true));
  }
}
