/**
 * `run_once` (`thread_win.c`): any number of threads over one shared word, every
 * access to which is one atomic step. The word starts at zero.
 */
module RunOnce {
  type Thread = nat

  /** Where a thread is: at the first read, at the compare-exchange, inside `init`, at the final store, or out. */
  datatype Place = Outside | Checking | Trying | Initialising | Storing | Returned | Aborted

  datatype State = State(once: int, at: map<Thread, Place>, begun: nat, finished: nat)

  const START := State(0, map[], 0, 0)

  function PlaceOf(s: State, t: Thread): Place {
    if t in s.at then s.at[t] else Outside
  }

  function Move(s: State, t: Thread, p: Place): State {
    s.(at := s.at[t := p])
  }

  /** One step of one thread; a thread that is out calls again. */
  function Step(s: State, t: Thread): State {
    match PlaceOf(s, t)
    case Outside => Move(s, t, Checking)
    case Returned => Move(s, t, Checking)
    case Checking => Move(s, t, if s.once == 1 then Returned else Trying)
    case Trying =>
      if s.once == 0 then Move(s, t, Initialising).(once := 2, begun := s.begun + 1)
      else if s.once == 1 then Move(s, t, Returned)
      else if s.once == 2 then s
      else Move(s, t, Aborted)
    case Initialising => Move(s, t, Storing).(finished := s.finished + 1)
    case Storing => Move(s, t, Returned).(once := 1)
    case Aborted => s
  }

  function Run(s: State, schedule: seq<Thread>): State
    decreases |schedule|
  {
    if schedule == [] then s else Run(Step(s, schedule[0]), schedule[1..])
  }

  predicate Inside(p: Place) { p.Initialising? || p.Storing? }

  /** What the word says: 0 untouched, 2 one thread is inside, 1 the initialisation is over. */
  ghost predicate Inv(s: State) {
    && 0 <= s.once <= 2
    && s.begun == (if s.once == 0 then 0 else 1)
    && (s.once != 2 ==> s.finished == s.once)
    && (s.once != 2 ==> forall t: Thread :: !Inside(PlaceOf(s, t)))
    && (s.once == 2 ==> exists t: Thread :: Owner(s, t))
    && forall t: Thread :: !PlaceOf(s, t).Aborted? && (PlaceOf(s, t).Returned? ==> s.once == 1)
  }

  /** The one thread inside; `init` has finished once it is at the store. */
  ghost predicate Owner(s: State, t: Thread) {
    && Inside(PlaceOf(s, t))
    && s.finished == (if PlaceOf(s, t).Storing? then 1 else 0)
    && forall u: Thread :: Inside(PlaceOf(s, u)) ==> u == t
  }

  lemma StepKeeps(s: State, t: Thread)
    requires Inv(s)
    ensures Inv(Step(s, t))
  {
    var s' := Step(s, t);
    assert PlaceOf(s', t) == s'.at[t] || s' == s;
    assert forall u: Thread | u != t :: PlaceOf(s', u) == PlaceOf(s, u);
    if s'.once == 2 {
      var o: Thread := if s.once == 0 then t else var o: Thread :| Owner(s, o); o;
      assert Owner(s', o);
    }
  }

  lemma {:induction false} RunKeeps(s: State, schedule: seq<Thread>)
    requires Inv(s)
    ensures Inv(Run(s, schedule))
    decreases |schedule|
  {
    if schedule != [] {
      StepKeeps(s, schedule[0]);
      RunKeeps(Step(s, schedule[0]), schedule[1..]);
    }
  }

  /**
   * Whatever the interleaving: `init` is begun at most once, no caller is out before
   * it has finished, and so exactly once when some caller is out; nobody aborts.
   */
  lemma ExactlyOnce(schedule: seq<Thread>)
    ensures var s := Run(START, schedule);
            && s.finished <= s.begun <= 1
            && (forall t: Thread :: PlaceOf(s, t).Returned? ==> s.begun == 1 && s.finished == 1)
            && forall t: Thread :: !PlaceOf(s, t).Aborted?
  {
    RunKeeps(START, schedule);
    var s := Run(START, schedule);
    if s.once == 2 {
      var o: Thread :| Owner(s, o);
    }
  }

  lemma RunThree(s: State, a: Thread, b: Thread, c: Thread)
    ensures Run(s, [a]) == Step(s, a)
    ensures Run(s, [a, b]) == Step(Step(s, a), b)
    ensures Run(s, [a, b, c]) == Step(Step(Step(s, a), b), c)
  {
    assert [a][1..] == [] && [a, b][1..] == [b] && [a, b, c][1..] == [b, c] && [b, c][1..] == [c];
    assert forall x: State :: Run(x, []) == x;
    assert forall x: State :: [c][1..] == [] && Run(x, [c]) == Step(x, c);
    assert forall x: State :: [b][1..] == [] && Run(x, [b]) == Step(x, b);
  }

  /** Nobody is stuck: from wherever a run has come, three steps are enough to let a waiting caller out. */
  lemma Progress(schedule: seq<Thread>, t: Thread)
    requires PlaceOf(Run(START, schedule), t).Trying?
    ensures exists more: seq<Thread> :: |more| <= 3 && PlaceOf(Run(Run(START, schedule), more), t).Returned?
  {
    RunKeeps(START, schedule);
    var s := Run(START, schedule);
    var o: Thread := if s.once == 2 then var o: Thread :| Owner(s, o); o else t;
    RunThree(s, o, o, t);
    RunThree(s, o, t, t);
    if s.once == 1 || (s.once == 2 && PlaceOf(s, o).Storing?) {
      var more := if s.once == 1 then [o] else [o, t];
      assert PlaceOf(Run(s, more), t).Returned?;
    } else {
      assert PlaceOf(Run(s, [o, o, t]), t).Returned?;
    }
  }
}
