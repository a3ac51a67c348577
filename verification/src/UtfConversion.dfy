/** UTF-8, UTF-16 and UTF-32 conversion (`convert_UTF.c`). */
module UtfConversion {
  import opened Bytes
  import opened UtfLoops

  type Utf16 = x: int | 0 <= x < 0x1_0000
  type Utf32 = x: int | 0 <= x < TWO_32

  const REPLACEMENT: int := 0xFFFD
  const MAX_BMP: int := 0xFFFF
  const MAX_LEGAL: int := 0x10FFFF

  predicate High(ch: int) { 0xD800 <= ch <= 0xDBFF }

  predicate Low(ch: int) { 0xDC00 <= ch <= 0xDFFF }

  predicate Surrogate(ch: int) { 0xD800 <= ch <= 0xDFFF }

  // ---- one character as UTF-8 ----

  /** How many bytes the table says follow a first byte. */
  function Trailing(lead: Byte): (n: nat)
    ensures n <= 5
  {
    if lead < 0xC0 then 0 else if lead < 0xE0 then 1 else if lead < 0xF0 then 2
    else if lead < 0xF8 then 3 else if lead < 0xFC then 4 else 5
  }

  /** The table counts the one bits a byte starts with: one less than there are, none for a following byte, and five at most. */
  lemma TrailingCounts(lead: Byte)
    ensures Trailing(lead) == var n := LeadingOnes(lead); if n <= 1 then 0 else if n <= 6 then n - 1 else 5
  {
    LeadingOnesTable(lead);
  }

  predicate Tail(b: Byte) { 0x80 <= b <= 0xBF }

  /** The inner switch on the first byte, about the second. */
  predicate SecondOk(lead: Byte, a: Byte) {
    if lead == 0xE0 then a >= 0xA0
    else if lead == 0xED then a <= 0x9F
    else if lead == 0xF0 then a >= 0x90
    else if lead == 0xF4 then a <= 0x8F
    else a >= 0x80
  }

  /** The code's test of one sequence of the length its first byte calls for. */
  predicate IsLegal(s: seq<Byte>)
    requires s != []
  {
    && |s| <= 4
    && (|s| >= 4 ==> Tail(s[3]))
    && (|s| >= 3 ==> Tail(s[2]))
    && (|s| >= 2 ==> s[1] <= 0xBF && SecondOk(s[0], s[1]))
    && !(0x80 <= s[0] < 0xC2)
    && s[0] <= 0xF4
  }

  /** The grammar of section 4 of RFC 3629. */
  predicate WellFormed(s: seq<Byte>) {
    || (|s| == 1 && s[0] <= 0x7F)
    || (|s| == 2 && 0xC2 <= s[0] <= 0xDF && Tail(s[1]))
    || (|s| == 3 && s[0] == 0xE0 && 0xA0 <= s[1] <= 0xBF && Tail(s[2]))
    || (|s| == 3 && 0xE1 <= s[0] <= 0xEC && Tail(s[1]) && Tail(s[2]))
    || (|s| == 3 && s[0] == 0xED && 0x80 <= s[1] <= 0x9F && Tail(s[2]))
    || (|s| == 3 && 0xEE <= s[0] <= 0xEF && Tail(s[1]) && Tail(s[2]))
    || (|s| == 4 && s[0] == 0xF0 && 0x90 <= s[1] <= 0xBF && Tail(s[2]) && Tail(s[3]))
    || (|s| == 4 && 0xF1 <= s[0] <= 0xF3 && Tail(s[1]) && Tail(s[2]) && Tail(s[3]))
    || (|s| == 4 && s[0] == 0xF4 && 0x80 <= s[1] <= 0x8F && Tail(s[2]) && Tail(s[3]))
  }

  /**
   * The test is not the grammar: after the first bytes ED and F4 the second byte
   * is only bounded from above. That is the whole difference.
   */
  lemma LegalExactly(s: seq<Byte>)
    requires s != [] && |s| == Trailing(s[0]) + 1
    ensures IsLegal(s) && (s[0] in {0xED, 0xF4} ==> s[1] >= 0x80) <==> WellFormed(s)
    ensures IsLegal(s) && !WellFormed(s) <==>
            s[0] in {0xED, 0xF4} && s[1] < 0x80 && forall k | 2 <= k < |s| :: Tail(s[k])
  {
    if |s| >= 2 && s[0] in {0xED, 0xF4} {
      assert |s| == 3 || |s| == 4;
    }
  }

  lemma LegalButMalformed()
    ensures IsLegal([0xED, 0x41, 0x80]) && !WellFormed([0xED, 0x41, 0x80])
    ensures Scalar([0xED, 0x41, 0x80]) == 0xC040 && Utf8(0xC040) == [0xEC, 0x81, 0x80]
  {
    GatheredDigits([0xED, 0x41, 0x80]);
  }

  const OFFSETS: seq<int> := [0x0, 0x3080, 0xE2080, 0x3C82080]

  /** The bytes shifted together, six bits each, without masking. */
  function Gathered(s: seq<Byte>): nat {
    if s == [] then 0 else 64 * Gathered(s[..|s| - 1]) + s[|s| - 1] as int
  }

  function Scalar(s: seq<Byte>): (ch: Utf32)
    requires s != [] && |s| == Trailing(s[0]) + 1 && IsLegal(s)
  {
    GatheredBound(s);
    Gathered(s) - OFFSETS[|s| - 1]
  }

  function Utf8(ch: int): (s: seq<Byte>)
    requires 0 <= ch <= MAX_LEGAL
    ensures 1 <= |s| <= 4
  {
    if ch < 0x80 then [ch]
    else if ch < 0x800 then [0xC0 + ch / 64, 0x80 + ch % 64]
    else if ch < 0x10000 then [0xE0 + ch / 4096, 0x80 + ch / 64 % 64, 0x80 + ch % 64]
    else [0xF0 + ch / 262144, 0x80 + ch / 4096 % 64, 0x80 + ch / 64 % 64, 0x80 + ch % 64]
  }

  lemma GatheredDigits(s: seq<Byte>)
    ensures |s| == 1 ==> Gathered(s) == s[0]
    ensures |s| == 2 ==> Gathered(s) == 64 * s[0] as int + s[1]
    ensures |s| == 3 ==> Gathered(s) == 4096 * s[0] as int + 64 * s[1] as int + s[2]
    ensures |s| == 4 ==> Gathered(s) == 262144 * s[0] as int + 4096 * s[1] as int + 64 * s[2] as int + s[3]
  {
    if 1 <= |s| <= 4 { GatheredDigits(s[..|s| - 1]); }
  }

  lemma GatheredBound(s: seq<Byte>)
    requires s != [] && |s| == Trailing(s[0]) + 1 && IsLegal(s)
    ensures OFFSETS[|s| - 1] <= Gathered(s) < OFFSETS[|s| - 1] + 0x110000
  {
    GatheredDigits(s);
  }

  /** Whatever passes the test stands for a character, so the later checks for surrogates and large values never fire. */
  lemma LegalScalar(s: seq<Byte>)
    requires s != [] && |s| == Trailing(s[0]) + 1 && IsLegal(s)
    ensures Scalar(s) <= MAX_LEGAL && !Surrogate(Scalar(s))
  {
    GatheredDigits(s);
  }

  lemma Nested(ch: nat)
    ensures ch / 4096 == ch / 64 / 64
  {
  }

  lemma SixBits(ch: nat)
    ensures ch == 64 * (ch / 64) + ch % 64
    ensures ch == 4096 * (ch / 4096) + 64 * (ch / 64 % 64) + ch % 64
    ensures ch == 262144 * (ch / 262144) + 4096 * (ch / 4096 % 64) + 64 * (ch / 64 % 64) + ch % 64
  {
    Nested(ch);
    Nested(ch / 64);
    assert ch / 4096 == 64 * (ch / 262144) + ch / 4096 % 64;
  }

  lemma SixBitsUnique(a: nat, b: nat, c: nat, d: nat)
    requires b < 64 && c < 64 && d < 64
    ensures var ch := 262144 * a + 4096 * b + 64 * c + d;
            ch / 262144 == a && ch / 4096 % 64 == b && ch / 64 % 64 == c && ch % 64 == d
            && ch / 4096 == 64 * a + b && ch / 64 == 4096 * a + 64 * b + c
  {
  }

  lemma Utf8WellFormed(ch: int)
    requires 0 <= ch <= MAX_LEGAL && !Surrogate(ch)
    ensures WellFormed(Utf8(ch)) && |Utf8(ch)| == Trailing(Utf8(ch)[0]) + 1 && IsLegal(Utf8(ch))
  {
    SixBits(ch);
    LegalExactly(Utf8(ch));
  }

  lemma Utf8Read(ch: int)
    requires 0 <= ch <= MAX_LEGAL && !Surrogate(ch)
    ensures |Utf8(ch)| == Trailing(Utf8(ch)[0]) + 1 && IsLegal(Utf8(ch)) && Scalar(Utf8(ch)) == ch
  {
    Utf8WellFormed(ch);
    SixBits(ch);
    GatheredDigits(Utf8(ch));
  }

  lemma WellFormedWritten(s: seq<Byte>)
    requires s != [] && |s| == Trailing(s[0]) + 1 && IsLegal(s) && WellFormed(s)
    ensures Scalar(s) <= MAX_LEGAL && Utf8(Scalar(s)) == s
  {
    LegalScalar(s);
    GatheredDigits(s);
    var ch := Scalar(s);
    if |s| == 2 {
      SixBitsUnique(0, 0, s[0] - 0xC0, s[1] - 0x80);
    } else if |s| == 3 {
      SixBitsUnique(0, s[0] - 0xE0, s[1] - 0x80, s[2] - 0x80);
    } else if |s| == 4 {
      SixBitsUnique(s[0] - 0xF0, s[1] - 0x80, s[2] - 0x80, s[3] - 0x80);
    }
  }

  /** Exactly the well-formed sequences are the ones their character is written as again. */
  lemma WrittenBack(s: seq<Byte>)
    requires s != [] && |s| == Trailing(s[0]) + 1 && IsLegal(s)
    ensures Scalar(s) <= MAX_LEGAL && (Utf8(Scalar(s)) == s <==> WellFormed(s))
  {
    LegalScalar(s);
    if WellFormed(s) { WellFormedWritten(s); } else { Utf8WellFormed(Scalar(s)); }
  }

  // ---- the shifting loops ----

  lemma GatheredNext(s: seq<Byte>, k: nat)
    requires k < |s| && k < 3
    ensures Gathered(s[..k + 1]) == 64 * Gathered(s[..k]) + s[k] as int
    ensures (64 * Gathered(s[..k]) + s[k] as int) * 64 % TWO_32 == 64 * Gathered(s[..k + 1])
  {
    assert s[..k + 1][..k] == s[..k];
    GatheredDigits(s[..k + 1]);
  }

  lemma GatheredLast(s: seq<Byte>)
    requires s != [] && |s| == Trailing(s[0]) + 1 && IsLegal(s)
    ensures (64 * Gathered(s[..|s| - 1]) + s[|s| - 1] as int) % TWO_32 == Gathered(s)
    ensures (Gathered(s) - OFFSETS[|s| - 1]) % TWO_32 == Scalar(s)
  {
    GatheredBound(s);
  }

  /** Reading a character: each byte is added and shifted, and the offset taken off at the end, in 32 bits. */
  method Gather(src: seq<Byte>, i: nat) returns (ch: Utf32)
    requires i < |src| && i + Trailing(src[i]) < |src| && IsLegal(src[i..i + Trailing(src[i]) + 1])
    ensures ch == Scalar(src[i..i + Trailing(src[i]) + 1])
  {
    var n := Trailing(src[i]);
    ghost var s := src[i..i + n + 1];
    var k: nat := 0;
    ch := 0;
    while k < n
      invariant k <= n && ch == 64 * Gathered(s[..k])
    {
      GatheredNext(s, k);
      ch := (ch as int + src[i + k] as int) * 64 % TWO_32;
      k := k + 1;
    }
    GatheredLast(s);
    ch := (ch as int + src[i + n] as int) % TWO_32;
    ch := (ch as int - OFFSETS[n]) % TWO_32;
  }

  const FIRST_BYTE_MARK: seq<int> := [0x00, 0x00, 0xC0, 0xE0, 0xF0]

  /** Writing a character: six bits at a time from the back, what is left marks the first byte. */
  method PutUtf8(target: array<Byte>, at: nat, ch: int)
    requires 0 <= ch <= MAX_LEGAL && at + |Utf8(ch)| <= target.Length
    modifies target
    ensures target[..] == old(target[..])[..at] + Utf8(ch) + old(target[..])[at + |Utf8(ch)|..]
  {
    var n := if ch < 0x80 then 1 else if ch < 0x800 then 2 else if ch < 0x10000 then 3 else 4;
    ghost var s := Utf8(ch);
    var left, k := ch, n;
    while k > 1
      invariant 1 <= k <= n && 0 <= left
      invariant forall j | 0 <= j < target.Length && !(at + k <= j < at + n) :: target[j] == old(target[j])
      invariant forall j | k <= j < n :: target[at + j] == s[j]
      invariant left == ch / Shifted(n - k)
    {
      ShiftedMore(ch, n - k);
      k := k - 1;
      target[at + k] := 0x80 + left % 64;
      left := left / 64;
    }
    target[at] := left + FIRST_BYTE_MARK[n];
  }

  function Shifted(k: nat): nat { if k == 0 then 1 else if k == 1 then 64 else if k == 2 then 4096 else 262144 }

  lemma ShiftedMore(ch: nat, k: nat)
    requires k < 3
    ensures ch / Shifted(k) / 64 == ch / Shifted(k + 1)
  {
    Nested(ch);
    Nested(ch / 64);
  }

  // ---- the turns of the six loops ----

  /** The character at the source pointer, or why there is none. */
  datatype Reading = Stop(result: Result) | Char(ch: Utf32, used: nat)

  function ReadUtf8(src: seq<Byte>, i: nat): Reading
    requires i < |src|
  {
    var n := Trailing(src[i]);
    if i + n >= |src| then Stop(SourceExhausted)
    else if !IsLegal(src[i..i + n + 1]) then Stop(SourceIllegal)
    else Char(Scalar(src[i..i + n + 1]), n + 1)
  }

  function ReadUtf16(strict: bool, src: seq<Utf16>, i: nat): Reading
    requires i < |src|
  {
    if High(src[i]) then
      if i + 1 == |src| then Stop(SourceExhausted)
      else if Low(src[i + 1]) then Char((src[i] as int - 0xD800) * 1024 + (src[i + 1] as int - 0xDC00) + 0x10000, 2)
      else if strict then Stop(SourceIllegal)
      else Char(src[i], 1)
    else if strict && Low(src[i]) then Stop(SourceIllegal)
    else Char(src[i], 1)
  }

  function Pair(ch: int): seq<Utf16>
    requires MAX_BMP < ch <= MAX_LEGAL
  {
    [0xD800 + (ch - 0x10000) / 1024, 0xDC00 + (ch - 0x10000) % 1024]
  }

  function Turn8To16(strict: bool, src: seq<Byte>, i: nat, room: nat): Turn<Utf16>
    requires i < |src|
  {
    match ReadUtf8(src, i)
    case Stop(result) => Halt(result)
    case Char(ch, used) =>
      if room == 0 then Halt(TargetExhausted)
      else if ch <= MAX_BMP then
        if !Surrogate(ch) then Emit([ch], used, false)
        else if strict then Halt(SourceIllegal)
        else Emit([REPLACEMENT], used, false)
      else if ch > MAX_LEGAL then
        if strict then Halt(SourceIllegal) else Emit([REPLACEMENT], used, false)
      else if room < 2 then Halt(TargetExhausted)
      else Emit(Pair(ch), used, false)
  }

  function Turn8To32(strict: bool, src: seq<Byte>, i: nat, room: nat): Turn<Utf32>
    requires i < |src|
  {
    match ReadUtf8(src, i)
    case Stop(result) => Halt(result)
    case Char(ch, used) =>
      if room == 0 then Halt(TargetExhausted)
      else if ch > MAX_LEGAL then Emit([REPLACEMENT], used, true)
      else if !Surrogate(ch) then Emit([ch], used, false)
      else if strict then Halt(SourceIllegal)
      else Emit([REPLACEMENT], used, false)
  }

  function Turn16To8(strict: bool, src: seq<Utf16>, i: nat, room: nat): Turn<Byte>
    requires i < |src|
  {
    match ReadUtf16(strict, src, i)
    case Stop(result) => Halt(result)
    case Char(ch, used) =>
      var s := Utf8(if ch <= MAX_LEGAL then ch else REPLACEMENT);
      if |s| > room then Halt(TargetExhausted) else Emit(s, used, false)
  }

  function Turn16To32(strict: bool, src: seq<Utf16>, i: nat, room: nat): Turn<Utf32>
    requires i < |src|
  {
    match ReadUtf16(strict, src, i)
    case Stop(result) => Halt(result)
    case Char(ch, used) => if room == 0 then Halt(TargetExhausted) else Emit([ch], used, false)
  }

  function Turn32To8(strict: bool, src: seq<Utf32>, i: nat, room: nat): Turn<Byte>
    requires i < |src|
  {
    if strict && Surrogate(src[i]) then Halt(SourceIllegal)
    else
      var s := Utf8(if src[i] <= MAX_LEGAL then src[i] else REPLACEMENT);
      if |s| > room then Halt(TargetExhausted) else Emit(s, 1, src[i] > MAX_LEGAL)
  }

  function Turn32To16(strict: bool, src: seq<Utf32>, i: nat, room: nat): Turn<Utf16>
    requires i < |src|
  {
    if room == 0 then Halt(TargetExhausted)
    else if src[i] <= MAX_BMP then
      if !Surrogate(src[i]) then Emit([src[i]], 1, false)
      else if strict then Halt(SourceIllegal)
      else Emit([REPLACEMENT], 1, false)
    else if src[i] > MAX_LEGAL then
      if strict then Emit([], 1, true) else Emit([REPLACEMENT], 1, false)
    else if room < 2 then Halt(TargetExhausted)
    else Emit(Pair(src[i]), 1, false)
  }

  function From8To16(strict: bool): (step: Step<Byte, Utf16>)
    ensures Sound(step)
  {
    var step := (src: seq<Byte>, i: nat, room: nat) =>
      if i < |src| then Turn8To16(strict, src, i, room) else Halt(SourceExhausted);
    assert forall src: seq<Byte>, i: nat, room: nat | i < |src| :: Steady(step, src, i, room);
    step
  }

  function From8To32(strict: bool): (step: Step<Byte, Utf32>)
    ensures Sound(step)
  {
    var step := (src: seq<Byte>, i: nat, room: nat) =>
      if i < |src| then Turn8To32(strict, src, i, room) else Halt(SourceExhausted);
    assert forall src: seq<Byte>, i: nat, room: nat | i < |src| :: Steady(step, src, i, room);
    step
  }

  function From16To8(strict: bool): (step: Step<Utf16, Byte>)
    ensures Sound(step)
  {
    var step := (src: seq<Utf16>, i: nat, room: nat) =>
      if i < |src| then Turn16To8(strict, src, i, room) else Halt(SourceExhausted);
    assert forall src: seq<Utf16>, i: nat, room: nat | i < |src| :: Steady(step, src, i, room);
    step
  }

  function From16To32(strict: bool): (step: Step<Utf16, Utf32>)
    ensures Sound(step)
  {
    var step := (src: seq<Utf16>, i: nat, room: nat) =>
      if i < |src| then Turn16To32(strict, src, i, room) else Halt(SourceExhausted);
    assert forall src: seq<Utf16>, i: nat, room: nat | i < |src| :: Steady(step, src, i, room);
    step
  }

  function From32To8(strict: bool): (step: Step<Utf32, Byte>)
    ensures Sound(step)
  {
    var step := (src: seq<Utf32>, i: nat, room: nat) =>
      if i < |src| then Turn32To8(strict, src, i, room) else Halt(SourceExhausted);
    assert forall src: seq<Utf32>, i: nat, room: nat | i < |src| :: Steady(step, src, i, room);
    step
  }

  function From32To16(strict: bool): (step: Step<Utf32, Utf16>)
    ensures Sound(step)
  {
    var step := (src: seq<Utf32>, i: nat, room: nat) =>
      if i < |src| then Turn32To16(strict, src, i, room) else Halt(SourceExhausted);
    assert forall src: seq<Utf32>, i: nat, room: nat | i < |src| :: Steady(step, src, i, room);
    step
  }
}
