/**
 * The loop that all six conversions of `convert_UTF.c` share, over any turn of the
 * loop: a conversion that runs out of room can be resumed, and a conversion whose
 * turns are undone by another's turns is undone by it.
 */
module UtfLoops {
  datatype Result = ConversionOk | SourceExhausted | TargetExhausted | SourceIllegal

  /** One turn of a conversion loop: stop, or write units for `used` source units, perhaps noting an error. */
  datatype Turn<T> = Halt(result: Result) | Emit(units: seq<T>, used: nat, marked: bool)

  /** What a conversion has done: its output, where the source pointer is, why it stopped, and whether an error was noted. */
  datatype Outcome<T> = Outcome(out: seq<T>, end: nat, stop: Result, marked: bool)

  /** A turn sees the source, the source pointer and the room left in the target. */
  type Step<!S, !T> = (seq<S>, nat, nat) -> Turn<T>

  ghost predicate Steady<S(!new), T(!new)>(step: Step<S, T>, src: seq<S>, i: nat, room: nat) {
    var t := step(src, i, room);
    if t.Halt? then !t.result.ConversionOk?
    else
      && 1 <= t.used && i + t.used <= |src| && 1 <= room && |t.units| <= room
      && forall other: nat :: other >= 1 && other >= |t.units| ==> step(src, i, other) == t
  }

  /** A turn uses something, writes what fits, and would write the same into any room it fits. */
  ghost predicate Sound<S(!new), T(!new)>(step: Step<S, T>) {
    forall src: seq<S>, i: nat, room: nat :: i < |src| ==> Steady(step, src, i, room)
  }

  /** A turn and then what follows it. */
  function Joined<T>(t: Turn<T>, rest: Outcome<T>): Outcome<T>
    requires t.Emit?
  {
    Outcome(t.units + rest.out, rest.end, rest.stop, t.marked || rest.marked)
  }

  function Convert<S(!new), T(!new)>(step: Step<S, T>, src: seq<S>, i: nat, room: nat): (o: Outcome<T>)
    requires Sound(step) && i <= |src|
    ensures i <= o.end <= |src| && |o.out| <= room
    ensures o.stop.ConversionOk? ==> o.end == |src|
    decreases |src| - i
  {
    if i == |src| then Outcome([], i, ConversionOk, false)
    else
      var t := step(src, i, room);
      assert Steady(step, src, i, room);
      match t
      case Halt(result) => Outcome([], i, result, false)
      case Emit(units, used, _) => Joined(t, Convert(step, src, i + used, room - |units|))
  }

  /** The code a conversion returns: an error noted on the way shows only when the end is reached. */
  function Reported<T>(o: Outcome<T>): Result {
    if o.stop.ConversionOk? && o.marked then SourceIllegal else o.stop
  }

  /** A conversion that does not reach the end stops with the code of the turn it stops at. */
  lemma {:induction false} StopIsTheTurns<S(!new), T(!new)>(step: Step<S, T>, src: seq<S>, i: nat, room: nat)
    requires Sound(step) && i <= |src|
    ensures var o := Convert(step, src, i, room);
            if o.end == |src| then o.stop == ConversionOk
            else step(src, o.end, room - |o.out|) == Halt(o.stop) && !o.stop.ConversionOk?
    decreases |src| - i
  {
    if i < |src| {
      var t := step(src, i, room);
      assert Steady(step, src, i, room);
      if t.Emit? {
        StopIsTheTurns(step, src, i + t.used, room - |t.units|);
        assert Convert(step, src, i, room) == Joined(t, Convert(step, src, i + t.used, room - |t.units|));
      }
    }
  }

  // ---- resuming ----

  /** One run after the other. */
  function Then<T>(a: Outcome<T>, b: Outcome<T>): Outcome<T> {
    Outcome(a.out + b.out, b.end, b.stop, a.marked || b.marked)
  }

  lemma OneMoreTurn<S(!new), T(!new)>(step: Step<S, T>, src: seq<S>, i: nat, room: nat, other: nat)
    requires Sound(step) && i < |src| && step(src, i, room).Emit?
    requires other == room || (other >= 1 && other >= |step(src, i, room).units|)
    ensures var t := step(src, i, room);
            1 <= t.used && i + t.used <= |src| && |t.units| <= room &&
            Convert(step, src, i, other) == Joined(t, Convert(step, src, i + t.used, other - |t.units|))
  {
    assert Steady(step, src, i, room);
    assert step(src, i, other) == step(src, i, room);
  }

  lemma JoinedThen<T>(t: Turn<T>, a: Outcome<T>, b: Outcome<T>)
    requires t.Emit?
    ensures Joined(t, Then(a, b)) == Then(Joined(t, a), b)
  {
    assert t.units + (a.out + b.out) == t.units + a.out + b.out;
  }

  lemma ThenFromNothing<T>(a: Outcome<T>, b: Outcome<T>)
    requires a.out == [] && !a.marked
    ensures Then(a, b) == b
  {
    assert [] + b.out == b.out;
  }

  lemma ResumeTurn<S(!new), T(!new)>(
    step: Step<S, T>, src: seq<S>, i: nat, room: nat, more: nat, t: Turn<T>, rest: Outcome<T>, b: Outcome<T>)
    requires Sound(step) && i < |src| && more >= 1 && t == step(src, i, room) && t.Emit?
    requires i + t.used <= |src| && Convert(step, src, i + t.used, |rest.out| + more) == Then(rest, b)
    ensures Convert(step, src, i, |Joined(t, rest).out| + more) == Then(Joined(t, rest), b)
  {
    var all := |rest.out| + more;
    JoinedThen(t, rest, b);
    assert |Joined(t, rest).out| + more == |t.units| + all;
    OneMoreTurn(step, src, i, room, |t.units| + all);
  }

  /**
   * Resuming: a run that stopped for lack of room, and a second run from the returned
   * source pointer into `more` further units, do together what one run into all that
   * room does.
   */
  lemma {:induction false} Resume<S(!new), T(!new)>(
    step: Step<S, T>, src: seq<S>, i: nat, room: nat, a: Outcome<T>, more: nat)
    requires Sound(step) && i <= |src| && more >= 1
    requires a == Convert(step, src, i, room) && a.stop.TargetExhausted?
    ensures Convert(step, src, i, |a.out| + more) == Then(a, Convert(step, src, a.end, more))
    decreases |src| - i
  {
    var t := step(src, i, room);
    if t.Emit? {
      OneMoreTurn(step, src, i, room, room);
      var rest := Convert(step, src, i + t.used, room - |t.units|);
      Resume(step, src, i + t.used, room - |t.units|, rest, more);
      ResumeTurn(step, src, i, room, more, t, rest, Convert(step, src, rest.end, more));
    } else {
      ThenFromNothing(a, Convert(step, src, i, more));
    }
  }

  /** The returned code is a different matter: an error noted before the break may not show again after it. */
  lemma ResumedCode<S(!new), T(!new)>(step: Step<S, T>, src: seq<S>, i: nat, room: nat, more: nat)
    requires Sound(step) && i <= |src| && more >= 1
    requires Convert(step, src, i, room).stop.TargetExhausted?
    ensures var a := Convert(step, src, i, room);
            var b := Convert(step, src, a.end, more);
            (Reported(Convert(step, src, i, |a.out| + more)) == Reported(b)) <==>
            (!a.marked || Reported(b) != ConversionOk)
  {
    Resume(step, src, i, room, Convert(step, src, i, room), more);
  }

  // ---- the returned code, from the source ----

  /** A run and the run that resumes it end with the code of one run into the room of both. */
  ghost predicate SameCode<S(!new), T(!new)>(step: Step<S, T>, src: seq<S>, i: nat, room: nat, more: nat)
    requires Sound(step) && i <= |src|
  {
    var a := Convert(step, src, i, room);
    Reported(Convert(step, src, i, |a.out| + more)) == Reported(Convert(step, src, a.end, more))
  }

  ghost predicate NeverMarks<S(!new), T(!new)>(step: Step<S, T>) {
    forall src: seq<S>, i: nat, room: nat :: i < |src| && step(src, i, room).Emit? ==> !step(src, i, room).marked
  }

  lemma {:induction false} Unmarked<S(!new), T(!new)>(step: Step<S, T>, src: seq<S>, i: nat, room: nat)
    requires Sound(step) && NeverMarks(step) && i <= |src|
    ensures !Convert(step, src, i, room).marked
    decreases |src| - i
  {
    if i < |src| {
      var t := step(src, i, room);
      assert Steady(step, src, i, room);
      if t.Emit? {
        Unmarked(step, src, i + t.used, room - |t.units|);
      }
    }
  }

  /** A conversion that never notes an error loses none: the second run's code is that of the one run. */
  lemma ResumedCodeKept<S(!new), T(!new)>(step: Step<S, T>, src: seq<S>, i: nat, room: nat, more: nat)
    requires Sound(step) && NeverMarks(step) && i <= |src| && more >= 1
    requires Convert(step, src, i, room).stop.TargetExhausted?
    ensures SameCode(step, src, i, room, more)
  {
    Unmarked(step, src, i, room);
    ResumedCode(step, src, i, room, more);
  }

  /** One source unit a turn: a good one takes `cost` units, one that is noted is bad, and any other stops the loop. */
  ghost predicate UnitTurn<S(!new), T(!new)>(
    step: Step<S, T>, good: S -> bool, noted: S -> bool, cost: S -> nat, src: seq<S>, i: nat, room: nat)
    requires i < |src|
  {
    var t, x := step(src, i, room), src[i];
    && (t.Emit? ==> t.used == 1 && t.marked == noted(x) && (good(x) || noted(x)))
    && (good(x) ==> !noted(x) && (t.Emit? <==> cost(x) <= room) && (t.Emit? ==> |t.units| == cost(x)))
  }

  ghost predicate ByUnits<S(!new), T(!new)>(step: Step<S, T>, good: S -> bool, noted: S -> bool, cost: S -> nat) {
    forall src: seq<S>, i: nat, room: nat :: i < |src| ==> UnitTurn(step, good, noted, cost, src, i, room)
  }

  /** The run notes an error exactly if it has passed a unit that is noted. */
  lemma {:induction false} MarkedExactly<S(!new), T(!new)>(
    step: Step<S, T>, good: S -> bool, noted: S -> bool, cost: S -> nat, src: seq<S>, i: nat, room: nat)
    requires Sound(step) && ByUnits(step, good, noted, cost) && i <= |src|
    ensures var o := Convert(step, src, i, room); o.marked <==> exists k :: i <= k < o.end && noted(src[k])
    decreases |src| - i
  {
    if i < |src| {
      var t := step(src, i, room);
      assert Steady(step, src, i, room) && UnitTurn(step, good, noted, cost, src, i, room);
      if t.Emit? {
        MarkedExactly(step, good, noted, cost, src, i + 1, room - |t.units|);
        var o := Convert(step, src, i, room);
        assert o == Joined(t, Convert(step, src, i + 1, room - |t.units|));
        if noted(src[i]) { assert i <= i < o.end && noted(src[i]); }
      }
    }
  }

  /** The room a source takes from some place on. */
  function Total<S(!new)>(cost: S -> nat, src: seq<S>, i: nat): nat
    requires i <= |src|
    decreases |src| - i
  {
    if i == |src| then 0 else cost(src[i]) + Total(cost, src, i + 1)
  }

  /** Every unit from some place on is good, and there is room for them. */
  ghost predicate Clean<S(!new)>(good: S -> bool, cost: S -> nat, src: seq<S>, i: nat, room: nat)
    requires i <= |src|
  {
    (forall k :: i <= k < |src| ==> good(src[k])) && Total(cost, src, i) <= room
  }

  /** The code is success exactly if the source is good and fits. */
  lemma {:induction false} OkExactly<S(!new), T(!new)>(
    step: Step<S, T>, good: S -> bool, noted: S -> bool, cost: S -> nat, src: seq<S>, i: nat, room: nat)
    requires Sound(step) && ByUnits(step, good, noted, cost) && i <= |src|
    ensures Reported(Convert(step, src, i, room)).ConversionOk? <==> Clean(good, cost, src, i, room)
    decreases |src| - i
  {
    if i < |src| {
      var t := step(src, i, room);
      assert Steady(step, src, i, room) && UnitTurn(step, good, noted, cost, src, i, room);
      if t.Emit? {
        OkExactly(step, good, noted, cost, src, i + 1, room - |t.units|);
        assert Convert(step, src, i, room) == Joined(t, Convert(step, src, i + 1, room - |t.units|));
      }
    }
  }

  /** A unit that is noted lies before the break at `end`, and the rest of the source is good and fits. */
  ghost predicate Loses<S(!new)>(good: S -> bool, noted: S -> bool, cost: S -> nat, src: seq<S>, i: nat, end: nat, more: nat)
    requires end <= |src|
  {
    (exists k :: i <= k < end && noted(src[k])) && Clean(good, cost, src, end, more)
  }

  /** Exactly then the second run's code is not that of the one run. */
  lemma ResumedCodeExactly<S(!new), T(!new)>(
    step: Step<S, T>, good: S -> bool, noted: S -> bool, cost: S -> nat, src: seq<S>, i: nat, room: nat, more: nat)
    requires Sound(step) && ByUnits(step, good, noted, cost) && i <= |src| && more >= 1
    requires Convert(step, src, i, room).stop.TargetExhausted?
    ensures var a := Convert(step, src, i, room);
            !SameCode(step, src, i, room, more) <==> Loses(good, noted, cost, src, i, a.end, more)
  {
    var a := Convert(step, src, i, room);
    ResumedCode(step, src, i, room, more);
    MarkedExactly(step, good, noted, cost, src, i, room);
    OkExactly(step, good, noted, cost, src, a.end, more);
  }

  // ---- undoing ----

  /** Wherever `units` lie in a source, a turn of `back` at that place writes `piece` for them. */
  ghost predicate Undone<S(!new), T(!new)>(back: Step<T, S>, units: seq<T>, piece: seq<S>) {
    forall dst: seq<T>, j: nat, other: nat ::
      units != [] && j + |units| <= |dst| && dst[j..j + |units|] == units && other >= |piece| ==>
        back(dst, j, other) == Emit(piece, |units|, false)
  }

  ghost predicate UndoneAt<S(!new), T(!new)>(step: Step<S, T>, back: Step<T, S>, good: (seq<S>, nat) -> bool, src: seq<S>, i: nat, room: nat) {
    var t := step(src, i, room);
    t.Emit? && !t.marked ==>
      && t.units != [] && i + t.used <= |src|
      && Undone(back, t.units, src[i..i + t.used])
      && good(src, i + t.used)
  }

  /** From good places, `back` undoes each turn of `step`, which leads to a good place again. */
  ghost predicate Inverse<S(!new), T(!new)>(step: Step<S, T>, back: Step<T, S>, good: (seq<S>, nat) -> bool) {
    forall src: seq<S>, i: nat, room: nat :: i < |src| && good(src, i) ==> UndoneAt(step, back, good, src, i, room)
  }

  lemma Shift<T>(pre: seq<T>, units: seq<T>, rest: seq<T>)
    ensures pre + (units + rest) == (pre + units) + rest
    ensures (pre + (units + rest))[|pre|..|pre| + |units|] == units
  {
  }

  lemma JoinedSource<S>(t: Turn<S>, src: seq<S>, i: nat, k: nat, rest: Outcome<S>)
    requires t.Emit? && i <= k <= |src| && t.units == src[i..k] && rest.out == src[k..]
    ensures Joined(t, rest).out == src[i..]
  {
  }

  lemma BackOne<S(!new), T(!new)>(
    back: Step<T, S>, pre: seq<T>, units: seq<T>, out: seq<T>, src: seq<S>, i: nat, k: nat, other: nat)
    requires Sound(back) && units != [] && i < k <= |src| && other >= |src| - i
    requires Undone(back, units, src[i..k])
    requires var dst := (pre + units) + out;
             Convert(back, dst, |pre + units|, other - (k - i)) == Outcome(src[k..], |dst|, ConversionOk, false)
    ensures var dst := pre + (units + out);
            Convert(back, dst, |pre|, other) == Outcome(src[i..], |dst|, ConversionOk, false)
  {
    Shift(pre, units, out);
    var dst := pre + (units + out);
    var u := Emit(src[i..k], |units|, false);
    assert dst[|pre|..|pre| + |units|] == units && |pre| < |dst|;
    assert back(dst, |pre|, other) == u;
    OneMoreTurn(back, dst, |pre|, other, other);
    assert |pre + units| == |pre| + |units|;
    JoinedSource(u, src, i, k, Convert(back, dst, |pre| + |units|, other - (k - i)));
  }

  /** A conversion that reaches the end of a good source is undone, whatever stands before its output. */
  lemma {:induction false} BackAgain<S(!new), T(!new)>(
    step: Step<S, T>, back: Step<T, S>, good: (seq<S>, nat) -> bool,
    src: seq<S>, i: nat, room: nat, pre: seq<T>, other: nat)
    requires Sound(step) && Sound(back) && Inverse(step, back, good)
    requires i <= |src| && good(src, i) && other >= |src| - i
    requires Reported(Convert(step, src, i, room)).ConversionOk?
    ensures var dst := pre + Convert(step, src, i, room).out;
            Convert(back, dst, |pre|, other) == Outcome(src[i..], |dst|, ConversionOk, false)
    decreases |src| - i
  {
    if i < |src| {
      var t, k := step(src, i, room), i + step(src, i, room).used;
      OneMoreTurn(step, src, i, room, room);
      assert UndoneAt(step, back, good, src, i, room);
      var rest := Convert(step, src, k, room - |t.units|);
      BackAgain(step, back, good, src, k, room - |t.units|, pre + t.units, other - t.used);
      Shift(pre, t.units, rest.out);
      BackOne(back, pre, t.units, rest.out, src, i, k, other);
    }
  }

  // ---- the loop itself ----

  method PutUnits<T>(target: array<T>, at: nat, units: seq<T>)
    requires at + |units| <= target.Length
    modifies target
    ensures target[..] == old(target[..])[..at] + units + old(target[..])[at + |units|..]
  {
    for k := 0 to |units|
      invariant target[..] == old(target[..])[..at] + units[..k] + old(target[..])[at + k..]
    {
      target[at + k] := units[k];
    }
  }

  lemma PutMore<T>(was: seq<T>, now: seq<T>, out: seq<T>, units: seq<T>)
    requires |out| + |units| <= |was| && now == out + was[|out|..]
    ensures now[..|out|] + units + now[|out| + |units|..] == (out + units) + was[|out + units|..]
  {
  }

  function Also<T>(a: Outcome<T>, t: Turn<T>): Outcome<T>
    requires t.Emit?
  {
    Outcome(a.out + t.units, a.end + t.used, a.stop, a.marked || t.marked)
  }

  lemma TurnThen<S(!new), T(!new)>(step: Step<S, T>, src: seq<S>, i: nat, room: nat, a: Outcome<T>, t: Turn<T>)
    requires Sound(step) && i < |src| && t == step(src, i, room) && t.Emit?
    ensures 1 <= t.used && i + t.used <= |src| && |t.units| <= room
    ensures Then(a, Convert(step, src, i, room)) == Then(Also(a, t), Convert(step, src, i + t.used, room - |t.units|))
  {
    OneMoreTurn(step, src, i, room, room);
    var rest := Convert(step, src, i + t.used, room - |t.units|);
    assert a.out + (t.units + rest.out) == a.out + t.units + rest.out;
  }

  /** The run so far is `a`, up to the source pointer; the rest of the run starts there. */
  ghost predicate Reached<S(!new), T(!new)>(step: Step<S, T>, src: seq<S>, all: Outcome<T>, size: nat, a: Outcome<T>) {
    && Sound(step) && a.end <= |src| && |a.out| <= size
    && all == Then(a, Convert(step, src, a.end, size - |a.out|))
  }

  lemma ReachedMore<S(!new), T(!new)>(
    step: Step<S, T>, src: seq<S>, all: Outcome<T>, size: nat, a: Outcome<T>, t: Turn<T>)
    requires Reached(step, src, all, size, a) && a.end < |src| && t == step(src, a.end, size - |a.out|) && t.Emit?
    ensures t.used >= 1 && |a.out| + |t.units| <= size && Reached(step, src, all, size, Also(a, t))
  {
    TurnThen(step, src, a.end, size - |a.out|, a, t);
    var b := Also(a, t);
    assert size - |a.out| - |t.units| == size - |b.out|;
  }

  lemma ReachedEnd<S(!new), T(!new)>(step: Step<S, T>, src: seq<S>, all: Outcome<T>, size: nat, a: Outcome<T>)
    requires Reached(step, src, all, size, a)
    requires a.end < |src| ==> step(src, a.end, size - |a.out|).Halt?
    ensures all.out == a.out && all.end == a.end
    ensures all.marked == a.marked
    ensures all.stop == if a.end < |src| then step(src, a.end, size - |a.out|).result else ConversionOk
    ensures all.stop.ConversionOk? <==> a.end == |src|
    ensures Reported(all) == if a.end < |src| then all.stop else if a.marked then SourceIllegal else ConversionOk
  {
    if a.end < |src| { assert Steady(step, src, a.end, size - |a.out|); }
  }

  method PutTurn<T>(target: array<T>, ghost was: seq<T>, ghost a: Outcome<T>, at: nat, t: Turn<T>)
    requires t.Emit? && at == |a.out| && at + |t.units| <= target.Length == |was|
    requires target[..] == a.out + was[at..]
    modifies target
    ensures target[..] == Also(a, t).out + was[at + |t.units|..]
  {
    PutMore(was, target[..], a.out, t.units);
    PutUnits(target, at, t.units);
  }

  /** The conversion as it runs: the source pointer and the target pointer move until a turn stops or the source ends. */
  method Run<S(!new), T(!new)>(step: Step<S, T>, src: seq<S>, target: array<T>)
    returns (end: nat, written: nat, result: Result)
    requires Sound(step)
    modifies target
    ensures var o := Convert(step, src, 0, target.Length);
            end == o.end && written == |o.out| && result == Reported(o)
            && target[..] == o.out + old(target[..])[written..]
  {
    end, written, result := 0, 0, ConversionOk;
    ghost var was, size, a := target[..], target.Length, Outcome([], 0, ConversionOk, false);
    ghost var all := Convert(step, src, 0, size);
    ThenFromNothing(a, all);
    while end < |src|
      invariant end == a.end <= |src| && written == |a.out| <= size
      invariant target[..] == a.out + was[written..]
      invariant Reached(step, src, all, size, a)
      invariant result == if a.marked then SourceIllegal else ConversionOk
    {
      var t := step(src, end, target.Length - written);
      if t.Halt? {
        ReachedEnd(step, src, all, size, a);
        return end, written, t.result;
      }
      ReachedMore(step, src, all, size, a, t);
      PutTurn(target, was, a, written, t);
      a := Also(a, t);
      end, written := end + t.used, written + |t.units|;
      if t.marked { result := SourceIllegal; }
    }
    ReachedEnd(step, src, all, size, a);
  }
}
