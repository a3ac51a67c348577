/** What the UTF conversions undo. */
module UtfRoundTrips {
  import opened Bytes
  import opened UtfLoops
  import opened UtfConversion

  /** Well-formed UTF-8: one well-formed character after another. */
  predicate Text(s: seq<Byte>) {
    s == [] || (
      var n := Trailing(s[0]) + 1;
      n <= |s| && WellFormed(s[..n]) && Text(s[n..]))
  }

  predicate TextFrom(src: seq<Byte>, i: nat) {
    i <= |src| && Text(src[i..])
  }

  function Utf16Of(ch: int): (s: seq<Utf16>)
    requires 0 <= ch <= MAX_LEGAL
    ensures 1 <= |s| <= 2
  {
    if ch <= MAX_BMP then [ch] else Pair(ch)
  }

  // ---- one character read back ----

  lemma Reads16(ch: int, strict: bool, dst: seq<Utf16>, j: nat)
    requires 0 <= ch <= MAX_LEGAL && !Surrogate(ch)
    requires j + |Utf16Of(ch)| <= |dst| && dst[j..j + |Utf16Of(ch)|] == Utf16Of(ch)
    ensures ReadUtf16(strict, dst, j) == Char(ch, |Utf16Of(ch)|)
  {
    assert dst[j] == Utf16Of(ch)[0];
    if ch > MAX_BMP { assert dst[j + 1] == Utf16Of(ch)[1]; }
  }

  lemma Reads8(ch: int, dst: seq<Byte>, j: nat)
    requires 0 <= ch <= MAX_LEGAL && !Surrogate(ch)
    requires j + |Utf8(ch)| <= |dst| && dst[j..j + |Utf8(ch)|] == Utf8(ch)
    ensures ReadUtf8(dst, j) == Char(ch, |Utf8(ch)|)
  {
    Utf8Read(ch);
    assert dst[j] == Utf8(ch)[0];
  }

  /** What a strict reading of UTF-16 takes is how its character is written. */
  lemma Took16(src: seq<Utf16>, i: nat)
    requires i < |src| && ReadUtf16(true, src, i).Char?
    ensures var r := ReadUtf16(true, src, i);
            r.ch <= MAX_LEGAL && !Surrogate(r.ch) && i + r.used <= |src| && src[i..i + r.used] == Utf16Of(r.ch)
  {
  }

  lemma Took8(src: seq<Byte>, i: nat)
    requires i < |src| && ReadUtf8(src, i).Char?
    ensures var r := ReadUtf8(src, i);
            && r.ch <= MAX_LEGAL && !Surrogate(r.ch) && i + r.used <= |src|
            && (TextFrom(src, i) ==> src[i..i + r.used] == Utf8(r.ch) && TextFrom(src, i + r.used))
  {
    var r := ReadUtf8(src, i);
    var s := src[i..i + r.used];
    LegalScalar(s);
    if TextFrom(src, i) {
      assert src[i..][..r.used] == s && src[i..][r.used..] == src[i + r.used..];
      WrittenBack(s);
    }
  }

  // ---- one turn undone ----

  predicate Anywhere<T>(src: seq<T>, i: nat) { true }

  lemma Undone16(ch: int, back: bool)
    requires 0 <= ch <= MAX_LEGAL && !Surrogate(ch)
    ensures Undone(From16To8(back), Utf16Of(ch), Utf8(ch))
    ensures Undone(From16To32(back), Utf16Of(ch), [ch])
  {
    forall dst: seq<Utf16>, j: nat
      | j + |Utf16Of(ch)| <= |dst| && dst[j..j + |Utf16Of(ch)|] == Utf16Of(ch)
      ensures ReadUtf16(back, dst, j) == Char(ch, |Utf16Of(ch)|)
    {
      Reads16(ch, back, dst, j);
    }
  }

  lemma Undone8(ch: int, back: bool)
    requires 0 <= ch <= MAX_LEGAL && !Surrogate(ch)
    ensures Undone(From8To16(back), Utf8(ch), Utf16Of(ch))
    ensures Undone(From8To32(back), Utf8(ch), [ch])
  {
    forall dst: seq<Byte>, j: nat
      | j + |Utf8(ch)| <= |dst| && dst[j..j + |Utf8(ch)|] == Utf8(ch)
      ensures ReadUtf8(dst, j) == Char(ch, |Utf8(ch)|)
    {
      Reads8(ch, dst, j);
    }
  }

  lemma Undone32(ch: Utf32, back: bool)
    requires ch <= MAX_LEGAL && !Surrogate(ch)
    ensures Undone(From32To8(back), [ch], Utf8(ch))
    ensures Undone(From32To16(back), [ch], Utf16Of(ch))
  {
    forall dst: seq<Utf32>, j: nat | j + 1 <= |dst| && dst[j..j + 1] == [ch]
      ensures dst[j] == ch
    {
      assert dst[j] == dst[j..j + 1][0];
    }
  }

  lemma TurnUndone8To16(strict: bool, back: bool, src: seq<Byte>, i: nat, room: nat)
    requires i < |src| && TextFrom(src, i)
    ensures UndoneAt(From8To16(strict), From16To8(back), TextFrom, src, i, room)
  {
    var r := ReadUtf8(src, i);
    if r.Char? {
      Took8(src, i);
      Undone16(r.ch, back);
    }
  }

  lemma TurnUndone8To32(strict: bool, back: bool, src: seq<Byte>, i: nat, room: nat)
    requires i < |src| && TextFrom(src, i)
    ensures UndoneAt(From8To32(strict), From32To8(back), TextFrom, src, i, room)
  {
    var r := ReadUtf8(src, i);
    if r.Char? {
      Took8(src, i);
      Undone32(r.ch, back);
      assert From8To32(strict)(src, i, room) == if room == 0 then Halt(TargetExhausted) else Emit([r.ch], r.used, false);
    }
  }

  lemma TurnUndone16(back: bool, src: seq<Utf16>, i: nat, room: nat)
    requires i < |src|
    ensures UndoneAt(From16To8(true), From8To16(back), Anywhere, src, i, room)
    ensures UndoneAt(From16To32(true), From32To16(back), Anywhere, src, i, room)
  {
    var r := ReadUtf16(true, src, i);
    if r.Char? {
      Took16(src, i);
      Undone8(r.ch, back);
      Undone32(r.ch, back);
    }
  }

  lemma TurnUndone32(back: bool, src: seq<Utf32>, i: nat, room: nat)
    requires i < |src|
    ensures UndoneAt(From32To8(true), From8To32(back), Anywhere, src, i, room)
    ensures UndoneAt(From32To16(true), From16To32(back), Anywhere, src, i, room)
  {
    if src[i] <= MAX_LEGAL && !Surrogate(src[i]) {
      assert src[i..i + 1] == [src[i]];
      Undone8(src[i], back);
      Undone16(src[i], back);
    }
  }

  // ---- whole texts ----

  /** Every turn writes one well-formed character. */
  ghost predicate Writes<S(!new)>(step: Step<S, Byte>) {
    forall src: seq<S>, i: nat, room: nat :: i < |src| && step(src, i, room).Emit? ==> WellFormed(step(src, i, room).units)
  }

  lemma WellFormedLength(s: seq<Byte>)
    requires WellFormed(s)
    ensures s != [] && |s| == Trailing(s[0]) + 1
  {
  }

  lemma TextCons(s: seq<Byte>, rest: seq<Byte>)
    requires WellFormed(s) && Text(rest)
    ensures Text(s + rest)
  {
    WellFormedLength(s);
    assert (s + rest)[..|s|] == s && (s + rest)[|s|..] == rest;
  }

  lemma JoinedText(t: Turn<Byte>, rest: Outcome<Byte>)
    requires t.Emit? && WellFormed(t.units) && Text(rest.out)
    ensures Text(Joined(t, rest).out)
  {
    TextCons(t.units, rest.out);
  }

  /** Such a conversion only ever writes well-formed UTF-8, whatever it reads. */
  lemma {:induction false} WritesText<S(!new)>(step: Step<S, Byte>, src: seq<S>, i: nat, room: nat)
    requires Sound(step) && Writes(step) && i <= |src|
    ensures Text(Convert(step, src, i, room).out)
    decreases |src| - i
  {
    var t := if i < |src| then step(src, i, room) else Halt(SourceExhausted);
    if t.Emit? {
      OneMoreTurn(step, src, i, room, room);
      var rest := Convert(step, src, i + t.used, room - |t.units|);
      WritesText(step, src, i + t.used, room - |t.units|);
      JoinedText(t, rest);
    }
  }

  lemma StrictWritesText()
    ensures Writes(From16To8(true)) && Writes(From32To8(true))
  {
    forall src: seq<Utf16>, i: nat | i < |src| && ReadUtf16(true, src, i).Char?
      ensures var ch := ReadUtf16(true, src, i).ch; ch <= MAX_LEGAL && WellFormed(Utf8(ch))
    {
      Took16(src, i);
      Utf8WellFormed(ReadUtf16(true, src, i).ch);
    }
    forall ch: int | 0 <= ch <= MAX_LEGAL && !Surrogate(ch) ensures WellFormed(Utf8(ch)) {
      Utf8WellFormed(ch);
    }
  }

  lemma TextBackAgain<S(!new)>(step: Step<Byte, S>, back: Step<S, Byte>, src: seq<Byte>, room: nat)
    requires Sound(step) && Sound(back) && Inverse(step, back, TextFrom) && Writes(back)
    requires Reported(Convert(step, src, 0, room)).ConversionOk?
    ensures var out := Convert(step, src, 0, room).out;
            Convert(back, out, 0, |src|) == Outcome(src, |out|, ConversionOk, false) <==> Text(src)
  {
    var out := Convert(step, src, 0, room).out;
    assert src[0..] == src && [] + out == out;
    if Text(src) {
      BackAgain(step, back, TextFrom, src, 0, room, [], |src|);
    } else {
      WritesText(back, out, 0, |src|);
    }
  }

  /**
   * UTF-8 to UTF-16 and back: of the sources whose conversion reports success, exactly
   * the well-formed ones come back as they were.
   */
  lemma Utf8ThroughUtf16(strict: bool, src: seq<Byte>, room: nat)
    requires Reported(Convert(From8To16(strict), src, 0, room)).ConversionOk?
    ensures var out := Convert(From8To16(strict), src, 0, room).out;
            Convert(From16To8(true), out, 0, |src|) == Outcome(src, |out|, ConversionOk, false) <==> Text(src)
  {
    forall s: seq<Byte>, i: nat, n: nat | i < |s| && TextFrom(s, i)
      ensures UndoneAt(From8To16(strict), From16To8(true), TextFrom, s, i, n)
    {
      TurnUndone8To16(strict, true, s, i, n);
    }
    StrictWritesText();
    TextBackAgain(From8To16(strict), From16To8(true), src, room);
  }

  /** The same through UTF-32. */
  lemma Utf8ThroughUtf32(strict: bool, src: seq<Byte>, room: nat)
    requires Reported(Convert(From8To32(strict), src, 0, room)).ConversionOk?
    ensures var out := Convert(From8To32(strict), src, 0, room).out;
            Convert(From32To8(true), out, 0, |src|) == Outcome(src, |out|, ConversionOk, false) <==> Text(src)
  {
    forall s: seq<Byte>, i: nat, n: nat | i < |s| && TextFrom(s, i)
      ensures UndoneAt(From8To32(strict), From32To8(true), TextFrom, s, i, n)
    {
      TurnUndone8To32(strict, true, s, i, n);
    }
    StrictWritesText();
    TextBackAgain(From8To32(strict), From32To8(true), src, room);
  }

  /** Strict UTF-16 to UTF-8 (or UTF-32) and back is the identity whenever it reports success. */
  lemma Utf16Through(back: bool, src: seq<Utf16>, room: nat)
    ensures var o := Convert(From16To8(true), src, 0, room);
            Reported(o).ConversionOk? ==>
              Convert(From8To16(back), o.out, 0, |src|) == Outcome(src, |o.out|, ConversionOk, false)
    ensures var o := Convert(From16To32(true), src, 0, room);
            Reported(o).ConversionOk? ==>
              Convert(From32To16(back), o.out, 0, |src|) == Outcome(src, |o.out|, ConversionOk, false)
  {
    assert src[0..] == src;
    forall s: seq<Utf16>, i: nat, n: nat | i < |s|
      ensures UndoneAt(From16To8(true), From8To16(back), Anywhere, s, i, n)
      ensures UndoneAt(From16To32(true), From32To16(back), Anywhere, s, i, n)
    {
      TurnUndone16(back, s, i, n);
    }
    var o := Convert(From16To8(true), src, 0, room);
    assert [] + o.out == o.out;
    if Reported(o).ConversionOk? {
      BackAgain(From16To8(true), From8To16(back), Anywhere, src, 0, room, [], |src|);
    }
    var p := Convert(From16To32(true), src, 0, room);
    assert [] + p.out == p.out;
    if Reported(p).ConversionOk? {
      BackAgain(From16To32(true), From32To16(back), Anywhere, src, 0, room, [], |src|);
    }
  }

  /** Strict UTF-32 to UTF-8 (or UTF-16) and back is the identity whenever it reports success. */
  lemma Utf32Through(back: bool, src: seq<Utf32>, room: nat)
    ensures var o := Convert(From32To8(true), src, 0, room);
            Reported(o).ConversionOk? ==>
              Convert(From8To32(back), o.out, 0, |src|) == Outcome(src, |o.out|, ConversionOk, false)
    ensures var o := Convert(From32To16(true), src, 0, room);
            Reported(o).ConversionOk? ==>
              Convert(From16To32(back), o.out, 0, |src|) == Outcome(src, |o.out|, ConversionOk, false)
  {
    assert src[0..] == src;
    forall s: seq<Utf32>, i: nat, n: nat | i < |s|
      ensures UndoneAt(From32To8(true), From8To32(back), Anywhere, s, i, n)
      ensures UndoneAt(From32To16(true), From16To32(back), Anywhere, s, i, n)
    {
      TurnUndone32(back, s, i, n);
    }
    var o := Convert(From32To8(true), src, 0, room);
    assert [] + o.out == o.out;
    if Reported(o).ConversionOk? {
      BackAgain(From32To8(true), From8To32(back), Anywhere, src, 0, room, [], |src|);
    }
    var p := Convert(From32To16(true), src, 0, room);
    assert [] + p.out == p.out;
    if Reported(p).ConversionOk? {
      BackAgain(From32To16(true), From16To32(back), Anywhere, src, 0, room, [], |src|);
    }
  }

  // ---- nothing is skipped ----

  /** The UTF-16 units of characters, unpaired surrogates among them. */
  function Units16(chars: seq<Utf32>): seq<Utf16> {
    if chars == [] then [] else (if chars[0] <= MAX_LEGAL then Utf16Of(chars[0]) else []) + Units16(chars[1..])
  }

  lemma Took16Whole(strict: bool, src: seq<Utf16>, i: nat)
    requires i < |src| && ReadUtf16(strict, src, i).Char?
    ensures var r := ReadUtf16(strict, src, i);
            r.ch <= MAX_LEGAL && i + r.used <= |src| && src[i..i + r.used] == Utf16Of(r.ch)
  {
  }

  lemma UnitsOfOneMore(ch: Utf32, rest: seq<Utf32>, src: seq<Utf16>, i: nat, k: nat, end: nat)
    requires i <= k <= end <= |src| && ch <= MAX_LEGAL && Utf16Of(ch) == src[i..k] && Units16(rest) == src[k..end]
    ensures Units16([ch] + rest) == src[i..end]
  {
    assert ([ch] + rest)[1..] == rest;
    assert src[i..end] == src[i..k] + src[k..end];
  }

  /** Strict or lenient, the characters of a conversion from UTF-16 are all the units up to where it stops, each once. */
  lemma {:induction false} NothingSkipped(strict: bool, src: seq<Utf16>, i: nat, room: nat)
    requires i <= |src|
    ensures var o := Convert(From16To32(strict), src, i, room); Units16(o.out) == src[i..o.end]
    decreases |src| - i
  {
    var o := Convert(From16To32(strict), src, i, room);
    if i < |src| && From16To32(strict)(src, i, room).Emit? {
      var ch, k := NextCharacter(strict, src, i, room);
      NothingSkipped(strict, src, k, room - 1);
      var rest := Convert(From16To32(strict), src, k, room - 1);
      UnitsOfOneMore(ch, rest.out, src, i, k, rest.end);
      assert o.out == [ch] + rest.out && o.end == rest.end;
    } else {
      StoppedAtOnce(From16To32(strict), src, i, room);
      assert o.out == [] && src[i..i] == [];
    }
  }

  lemma NextCharacter(strict: bool, src: seq<Utf16>, i: nat, room: nat) returns (ch: Utf32, k: nat)
    requires i < |src| && From16To32(strict)(src, i, room).Emit?
    ensures i < k <= |src| && room >= 1 && ch <= MAX_LEGAL && Utf16Of(ch) == src[i..k]
    ensures var o, rest := Convert(From16To32(strict), src, i, room), Convert(From16To32(strict), src, k, room - 1);
            o.out == [ch] + rest.out && o.end == rest.end
  {
    var r := ReadUtf16(strict, src, i);
    ch, k := r.ch, i + r.used;
    Took16Whole(strict, src, i);
    OneMoreTurn(From16To32(strict), src, i, room, room);
    assert From16To32(strict)(src, i, room) == Emit([ch], r.used, false);
  }

  lemma StoppedAtOnce<S(!new), T(!new)>(step: Step<S, T>, src: seq<S>, i: nat, room: nat)
    requires Sound(step) && i <= |src| && (i == |src| || !step(src, i, room).Emit?)
    ensures Convert(step, src, i, room).out == [] && Convert(step, src, i, room).end == i
  {
  }

  // ---- the code of a resumed conversion ----

  /** The conversions from UTF-8 and UTF-16, and the lenient one from UTF-32 to UTF-16, never note an error. */
  lemma NoneMarks(strict: bool)
    ensures NeverMarks(From8To16(strict)) && NeverMarks(From8To32(strict))
    ensures NeverMarks(From16To8(strict)) && NeverMarks(From16To32(strict)) && NeverMarks(From32To16(false))
  {
    forall src: seq<Byte>, i: nat, room: nat | i < |src| && From8To32(strict)(src, i, room).Emit?
      ensures !From8To32(strict)(src, i, room).marked
    {
      if ReadUtf8(src, i).Char? { Took8(src, i); }
    }
  }

  /** So a run of theirs that resumes reports what one run would. */
  lemma ResumedCodeOthers(strict: bool, bytes: seq<Byte>, units: seq<Utf16>, chars: seq<Utf32>, i: nat, room: nat, more: nat)
    requires more >= 1
    ensures i <= |bytes| && Convert(From8To16(strict), bytes, i, room).stop.TargetExhausted? ==>
              SameCode(From8To16(strict), bytes, i, room, more)
    ensures i <= |bytes| && Convert(From8To32(strict), bytes, i, room).stop.TargetExhausted? ==>
              SameCode(From8To32(strict), bytes, i, room, more)
    ensures i <= |units| && Convert(From16To8(strict), units, i, room).stop.TargetExhausted? ==>
              SameCode(From16To8(strict), units, i, room, more)
    ensures i <= |units| && Convert(From16To32(strict), units, i, room).stop.TargetExhausted? ==>
              SameCode(From16To32(strict), units, i, room, more)
    ensures i <= |chars| && Convert(From32To16(false), chars, i, room).stop.TargetExhausted? ==>
              SameCode(From32To16(false), chars, i, room, more)
  {
    NoneMarks(strict);
    if i <= |bytes| {
      KeptCode(From8To16(strict), bytes, i, room, more);
      KeptCode(From8To32(strict), bytes, i, room, more);
    }
    if i <= |units| {
      KeptCode(From16To8(strict), units, i, room, more);
      KeptCode(From16To32(strict), units, i, room, more);
    }
    if i <= |chars| {
      KeptCode(From32To16(false), chars, i, room, more);
    }
  }

  lemma KeptCode<S(!new), T(!new)>(step: Step<S, T>, src: seq<S>, i: nat, room: nat, more: nat)
    requires Sound(step) && NeverMarks(step) && i <= |src| && more >= 1
    ensures Convert(step, src, i, room).stop.TargetExhausted? ==> SameCode(step, src, i, room, more)
  {
    if Convert(step, src, i, room).stop.TargetExhausted? {
      ResumedCodeKept(step, src, i, room, more);
    }
  }

  /** The values a conversion from UTF-32 takes without complaint. */
  function Legal32(strict: bool): Utf32 -> bool {
    (ch: Utf32) => ch <= MAX_LEGAL && !(strict && Surrogate(ch))
  }

  /** A value that no character has. */
  predicate Beyond(ch: Utf32) {
    ch > MAX_LEGAL
  }

  function Size8(ch: Utf32): nat {
    if ch <= MAX_LEGAL then |Utf8(ch)| else 0
  }

  function Size16(ch: Utf32): nat {
    if ch <= MAX_BMP then 1 else 2
  }

  lemma ByUnits32(strict: bool)
    ensures ByUnits(From32To8(strict), Legal32(strict), Beyond, Size8)
    ensures ByUnits(From32To16(true), Legal32(true), Beyond, Size16)
  {
  }

  /**
   * UTF-32 to UTF-8: the error of a value above 10FFFF before the break is lost exactly
   * when the rest of the source is legal and fits.
   */
  lemma ResumedCode32To8(strict: bool, src: seq<Utf32>, i: nat, room: nat, more: nat)
    requires i <= |src| && more >= 1 && Convert(From32To8(strict), src, i, room).stop.TargetExhausted?
    ensures var end := Convert(From32To8(strict), src, i, room).end;
            !SameCode(From32To8(strict), src, i, room, more) <==>
            Loses(Legal32(strict), Beyond, Size8, src, i, end, more)
  {
    ByUnits32(strict);
    ResumedCodeExactly(From32To8(strict), Legal32(strict), Beyond, Size8, src, i, room, more);
  }

  /** Strict UTF-32 to UTF-16, likewise. */
  lemma ResumedCode32To16(src: seq<Utf32>, i: nat, room: nat, more: nat)
    requires i <= |src| && more >= 1 && Convert(From32To16(true), src, i, room).stop.TargetExhausted?
    ensures var end := Convert(From32To16(true), src, i, room).end;
            !SameCode(From32To16(true), src, i, room, more) <==>
            Loses(Legal32(true), Beyond, Size16, src, i, end, more)
  {
    ByUnits32(true);
    ResumedCodeExactly(From32To16(true), Legal32(true), Beyond, Size16, src, i, room, more);
  }

  // ---- where the promises end ----

  /** A malformed source that converts without complaint, and so cannot come back. */
  lemma MalformedAccepted()
    ensures var s: seq<Byte> := [0xED, 0x41, 0x80];
            !Text(s) && Convert(From8To16(true), s, 0, 1) == Outcome([0xC040], 3, ConversionOk, false)
  {
    var s: seq<Byte> := [0xED, 0x41, 0x80];
    assert s[..3] == s && s[0..3] == s;
    LegalButMalformed();
  }

  /** An illegal value written before a break for lack of room is not reported by the run that resumes. */
  lemma ErrorLost()
    ensures var s: seq<Utf32> := [0x11_0000, 0x41];
            var a := Convert(From32To8(false), s, 0, 3);
            && a == Outcome([0xEF, 0xBF, 0xBD], 1, TargetExhausted, true)
            && Reported(Convert(From32To8(false), s, 1, 1)) == ConversionOk
            && Reported(Convert(From32To8(false), s, 0, 4)) == SourceIllegal
  {
    var s: seq<Utf32> := [0x11_0000, 0x41];
    assert Convert(From32To8(false), s, 1, 0) == Outcome([], 1, TargetExhausted, false);
    assert Convert(From32To8(false), s, 1, 1) == Outcome([0x41], 2, ConversionOk, false);
  }
}
