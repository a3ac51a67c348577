/** Where and why the UTF conversions stop, told from their source. */
module UtfStops {
  import opened Bytes
  import opened UtfLoops
  import opened UtfConversion
  import opened UtfRoundTrips

  // ---- from UTF-8 ----

  /** The bytes of the character at `e` are not all there. */
  predicate CutShort(src: seq<Byte>, e: nat) {
    e < |src| <= e + Trailing(src[e])
  }

  /** What the code takes for a character though it is malformed: after ED and F4 the second byte is only bounded from above. */
  predicate Lax(s: seq<Byte>) {
    |s| >= 3 && s[0] in {0xED, 0xF4} && s[1] < 0x80 && forall k | 2 <= k < |s| :: Tail(s[k])
  }

  /** The bytes of the character at `e` are all there, and are none. */
  predicate Malformed(src: seq<Byte>, e: nat) {
    e < |src| && e + Trailing(src[e]) < |src| &&
    var s := src[e..e + Trailing(src[e]) + 1];
    !WellFormed(s) && !Lax(s)
  }

  lemma ReadExactly(src: seq<Byte>, e: nat)
    requires e < |src|
    ensures ReadUtf8(src, e) == Stop(SourceExhausted) <==> CutShort(src, e)
    ensures ReadUtf8(src, e) == Stop(SourceIllegal) <==> Malformed(src, e)
    ensures ReadUtf8(src, e).Stop? ==> CutShort(src, e) || Malformed(src, e)
  {
    if !CutShort(src, e) {
      LegalExactly(src[e..e + Trailing(src[e]) + 1]);
    }
  }

  /**
   * A conversion from UTF-8 is exhausted exactly at a character cut short by the end of
   * the source, and refuses exactly bytes that are no character; else it stops at the end,
   * or for lack of room.
   */
  predicate Stops8<T>(src: seq<Byte>, o: Outcome<T>) {
    && (o.stop == ConversionOk <==> o.end == |src|)
    && (o.stop == SourceExhausted <==> CutShort(src, o.end))
    && (o.stop == SourceIllegal <==> Malformed(src, o.end))
  }

  lemma From8To16Stops(strict: bool, src: seq<Byte>, i: nat, room: nat)
    requires i <= |src|
    ensures Stops8(src, Convert(From8To16(strict), src, i, room))
  {
    var o := Convert(From8To16(strict), src, i, room);
    StopIsTheTurns(From8To16(strict), src, i, room);
    if o.end < |src| {
      ReadExactly(src, o.end);
      if ReadUtf8(src, o.end).Char? { Took8(src, o.end); }
    }
  }

  lemma From8To32Stops(strict: bool, src: seq<Byte>, i: nat, room: nat)
    requires i <= |src|
    ensures Stops8(src, Convert(From8To32(strict), src, i, room))
  {
    var o := Convert(From8To32(strict), src, i, room);
    StopIsTheTurns(From8To32(strict), src, i, room);
    if o.end < |src| {
      ReadExactly(src, o.end);
      if ReadUtf8(src, o.end).Char? { Took8(src, o.end); }
    }
  }

  // ---- from UTF-16 ----

  predicate HighAtEnd(src: seq<Utf16>, e: nat) {
    e + 1 == |src| && High(src[e])
  }

  predicate Unpaired(src: seq<Utf16>, e: nat) {
    e < |src| && (Low(src[e]) || (High(src[e]) && e + 1 < |src| && !Low(src[e + 1])))
  }

  /** A conversion from UTF-16 is exhausted exactly at a first surrogate that ends the source, and refuses, if strict, exactly unpaired ones. */
  predicate Stops16<T>(strict: bool, src: seq<Utf16>, o: Outcome<T>) {
    && (o.stop == ConversionOk <==> o.end == |src|)
    && (o.stop == SourceExhausted <==> HighAtEnd(src, o.end))
    && (o.stop == SourceIllegal <==> strict && Unpaired(src, o.end))
  }

  lemma From16To8Stops(strict: bool, src: seq<Utf16>, i: nat, room: nat)
    requires i <= |src|
    ensures Stops16(strict, src, Convert(From16To8(strict), src, i, room))
  {
    StopIsTheTurns(From16To8(strict), src, i, room);
  }

  lemma From16To32Stops(strict: bool, src: seq<Utf16>, i: nat, room: nat)
    requires i <= |src|
    ensures Stops16(strict, src, Convert(From16To32(strict), src, i, room))
  {
    StopIsTheTurns(From16To32(strict), src, i, room);
  }

  // ---- from UTF-32 ----

  /** A conversion from UTF-32 is never exhausted, and stops, if strict, at a surrogate; to UTF-16 only if there is room left. */
  predicate Stops32<T>(strict: bool, src: seq<Utf32>, o: Outcome<T>, asks: bool) {
    && (o.stop == ConversionOk <==> o.end == |src|)
    && o.stop != SourceExhausted
    && (o.stop == SourceIllegal <==> strict && o.end < |src| && Surrogate(src[o.end]) && asks)
  }

  lemma From32To8Stops(strict: bool, src: seq<Utf32>, i: nat, room: nat)
    requires i <= |src|
    ensures Stops32(strict, src, Convert(From32To8(strict), src, i, room), true)
  {
    StopIsTheTurns(From32To8(strict), src, i, room);
  }

  lemma From32To16Stops(strict: bool, src: seq<Utf32>, i: nat, room: nat)
    requires i <= |src|
    ensures var o := Convert(From32To16(strict), src, i, room); Stops32(strict, src, o, |o.out| < room)
  {
    StopIsTheTurns(From32To16(strict), src, i, room);
  }

  // ---- a text cut anywhere ----

  lemma WholeCharacter(src: seq<Byte>, i: nat, n: nat)
    requires i < |src| && n == Trailing(src[i]) + 1 && i + n <= |src| && WellFormed(src[i..i + n])
    ensures var r := ReadUtf8(src, i);
            r.Char? && r.used == n && r.ch <= MAX_LEGAL && !Surrogate(r.ch) && |Utf16Of(r.ch)| <= n
  {
    var s := src[i..i + n];
    LegalExactly(s);
    LegalScalar(s);
    WellFormedWritten(s);
  }

  lemma CutStep(s: seq<Byte>, i: nat, k: nat, n: nat)
    requires i < k <= |s| && Text(s[i..]) && n == Trailing(s[i]) + 1
    ensures i + n <= |s| && WellFormed(s[i..i + n]) && Text(s[i + n..])
    ensures Text(s[i..k]) <==> i + n <= k && Text(s[i + n..k])
  {
    var t, c := s[i..], s[i..k];
    assert t[0] == s[i] && t[..n] == s[i..i + n] && t[n..] == s[i + n..];
    assert c[0] == s[i];
    if i + n <= k {
      assert c[..n] == s[i..i + n] && c[n..] == s[i + n..k];
    }
  }

  /** A turn takes a well-formed character for which there is room, and is exhausted at one cut short. */
  ghost predicate TakesText<T(!new)>(step: Step<Byte, T>) {
    && (forall src: seq<Byte>, i: nat, room: nat :: Whole(src, i) && room >= Trailing(src[i]) + 1 ==>
          Takes(step(src, i, room), Trailing(src[i]) + 1))
    && (forall src: seq<Byte>, i: nat, room: nat :: CutShort(src, i) ==> step(src, i, room) == Halt(SourceExhausted))
  }

  predicate Whole(src: seq<Byte>, i: nat) {
    i < |src| && i + Trailing(src[i]) + 1 <= |src| && WellFormed(src[i..i + Trailing(src[i]) + 1])
  }

  predicate Takes<T>(t: Turn<T>, n: nat) {
    t.Emit? && t.used == n && |t.units| <= n && !t.marked
  }

  lemma From8To16TakesText(strict: bool)
    ensures TakesText(From8To16(strict))
  {
    forall src: seq<Byte>, i: nat, room: nat | Whole(src, i) && room >= Trailing(src[i]) + 1
      ensures Takes(From8To16(strict)(src, i, room), Trailing(src[i]) + 1)
    {
      WholeCharacter(src, i, Trailing(src[i]) + 1);
    }
  }

  lemma From8To32TakesText(strict: bool)
    ensures TakesText(From8To32(strict))
  {
    forall src: seq<Byte>, i: nat, room: nat | Whole(src, i) && room >= Trailing(src[i]) + 1
      ensures Takes(From8To32(strict)(src, i, room), Trailing(src[i]) + 1)
    {
      WholeCharacter(src, i, Trailing(src[i]) + 1);
    }
  }

  /** A character that is there changes nothing about the code. */
  lemma CutOne<T(!new)>(step: Step<Byte, T>, src: seq<Byte>, i: nat, room: nat, n: nat) returns (left: nat)
    requires Sound(step) && i < |src| && Takes(step(src, i, room), n)
    ensures i + n <= |src| && left >= room - n
    ensures var o, p := Convert(step, src, i, room), Convert(step, src, i + n, left); o.stop == p.stop && o.marked == p.marked
  {
    var t := step(src, i, room);
    OneMoreTurn(step, src, i, room, room);
    left := room - |t.units|;
  }

  lemma CutAtOnce<T(!new)>(step: Step<Byte, T>, src: seq<Byte>, i: nat, room: nat)
    requires Sound(step) && CutShort(src, i) && step(src, i, room) == Halt(SourceExhausted)
    ensures Convert(step, src, i, room) == Outcome([], i, SourceExhausted, false)
  {
  }

  lemma {:induction false} CutFrom<T(!new)>(step: Step<Byte, T>, s: seq<Byte>, src: seq<Byte>, i: nat, k: nat, room: nat)
    requires Sound(step) && TakesText(step)
    requires i <= k <= |s| && src == s[..k] && Text(s[i..]) && room >= k - i
    ensures var o := Convert(step, src, i, room);
            !o.marked && o.stop == if Text(s[i..k]) then ConversionOk else SourceExhausted
    decreases k - i
  {
    if i == k {
      assert s[i..k] == [];
      return;
    }
    var n := Trailing(s[i]) + 1;
    CutStep(s, i, k, n);
    if i + n <= k {
      assert src[i..i + n] == s[i..i + n] && Whole(src, i);
      var left := CutOne(step, src, i, room, n);
      CutFrom(step, s, src, i + n, k, left);
    } else {
      assert CutShort(src, i);
      CutAtOnce(step, src, i, room);
    }
  }

  /**
   * A text cut anywhere, with room for it: the conversion succeeds if the cut is between
   * two characters, and is exhausted, not refused, everywhere else.
   */
  lemma TextCut(strict: bool, s: seq<Byte>, k: nat, room: nat)
    requires Text(s) && k <= |s| && room >= k
    ensures var code := if Text(s[..k]) then ConversionOk else SourceExhausted;
            && Reported(Convert(From8To16(strict), s[..k], 0, room)) == code
            && Reported(Convert(From8To32(strict), s[..k], 0, room)) == code
  {
    assert s[0..] == s && s[0..k] == s[..k];
    From8To16TakesText(strict);
    From8To32TakesText(strict);
    CutFrom(From8To16(strict), s, s[..k], 0, k, room);
    CutFrom(From8To32(strict), s, s[..k], 0, k, room);
  }
}
