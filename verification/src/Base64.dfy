/** Base64 (`base64/base64.c`): one block at a time, and as lines of a stream. */
module Base64 {
  import opened Bytes

  const PAD: Byte := 0x3D
  const NEWLINE: Byte := 0x0A
  const ERROR: Byte := 0xFF

  type Six = v: int | 0 <= v < 64

  function Bin2Ascii(v: Six): Byte {
    if v < 26 then 0x41 + v else if v < 52 then 0x61 + (v - 26) else if v < 62 then 0x30 + (v - 52)
    else if v == 62 then 0x2B else 0x2F
  }

  /** The value of a character; 0x80 and above for every character that has none. */
  function Ascii2Bin(a: Byte): Byte {
    if 0x41 <= a <= 0x5A then a - 0x41 else if 0x61 <= a <= 0x7A then a - 0x61 + 26
    else if 0x30 <= a <= 0x39 then a - 0x30 + 52 else if a == 0x2B then 62 else if a == 0x2F then 63
    else if a == 0x09 || a == 0x20 then 0xE0 else if a == 0x0A then 0xF0 else if a == 0x0D then 0xF1
    else if a == 0x2D then 0xF2 else ERROR
  }

  /** The first, second, third and fourth six bits of a 24-bit word. */
  function Char(l: nat, shift: nat): Byte
    requires shift in {0x4_0000, 0x1000, 0x40, 1}
  {
    Bin2Ascii(l / shift % 64)
  }

  /** Up to three bytes as a 24-bit word, and the three bytes of one. */
  function Word(s: seq<Byte>): (l: nat)
    requires 1 <= |s| <= 3
    ensures l < 0x100_0000
  {
    0x1_0000 * s[0] as int + (if |s| >= 2 then 0x100 * s[1] as int else 0) + (if |s| == 3 then s[2] as int else 0)
  }

  function ThreeBytes(l: nat): (s: seq<Byte>)
    ensures |s| == 3
  {
    [l / 0x1_0000 % 256, l / 0x100 % 256, l % 256]
  }

  /** Four characters for up to three bytes (section 4 of RFC 4648). */
  function Quad(s: seq<Byte>): (q: seq<Byte>)
    requires 1 <= |s| <= 3
    ensures |q| == 4
  {
    var l := Word(s);
    var third: Byte, fourth: Byte := if |s| >= 2 then Char(l, 0x40) else PAD, if |s| == 3 then Char(l, 1) else PAD;
    [Char(l, 0x4_0000), Char(l, 0x1000), third, fourth]
  }

  function EncodedLength(n: nat): nat { (n + 2) / 3 * 4 }

  lemma EncodedThree(n: nat)
    requires n >= 3
    ensures EncodedLength(n) == 4 + EncodedLength(n - 3)
  {
  }

  function Encode(s: seq<Byte>): (t: seq<Byte>)
    decreases |s|
  {
    if s == [] then [] else if |s| <= 3 then Quad(s) else Quad(s[..3]) + Encode(s[3..])
  }

  lemma {:induction false} EncodeLength(s: seq<Byte>)
    ensures |Encode(s)| == EncodedLength(|s|)
    decreases |s|
  {
    if |s| > 3 {
      EncodeLength(s[3..]);
      EncodedThree(|s|);
    }
  }

  lemma EncodedFours(n: nat)
    ensures EncodedLength(n) % 4 == 0
  {
  }

  /** How many characters of padding end these four; it is looked for only in the last four. */
  function Padding(q: seq<Byte>, last: bool): nat
    requires |q| == 4
  {
    if last && q[3] == PAD then (if q[2] == PAD then 2 else 1) else 0
  }

  /** The word that four values make, or none if one of them is no value. */
  function Gathered(a: Byte, b: Byte, c: Byte, d: Byte): Option<nat> {
    if a >= 0x80 || b >= 0x80 || c >= 0x80 || d >= 0x80 then None
    else Some(0x4_0000 * a as int + 0x1000 * b as int + 0x40 * c as int + d as int)
  }

  /** Up to three bytes of four characters. */
  function UnQuad(q: seq<Byte>, last: bool): Option<seq<Byte>>
    requires |q| == 4
  {
    var pad := Padding(q, last);
    match Gathered(Ascii2Bin(q[0]), Ascii2Bin(q[1]), if pad < 2 then Ascii2Bin(q[2]) else 0, if pad < 1 then Ascii2Bin(q[3]) else 0)
    case None => None
    case Some(l) => Some(ThreeBytes(l)[..3 - pad])
  }

  function Prepend(front: Option<seq<Byte>>, rest: Option<seq<Byte>>): Option<seq<Byte>> {
    if front.None? || rest.None? then None else Some(front.value + rest.value)
  }

  lemma Fours(n: nat)
    requires n % 4 == 0 && n > 0
    ensures n >= 4 && (n - 4) % 4 == 0
  {
  }

  function DecodeAll(t: seq<Byte>): Option<seq<Byte>>
    requires |t| % 4 == 0
    decreases |t|
  {
    if t == [] then Some([])
    else
      Fours(|t|);
      Prepend(UnQuad(t[..4], |t| == 4), DecodeAll(t[4..]))
  }

  /** What `EVP_DecodeBase64` writes when there is room, or nothing. */
  function Decode(t: seq<Byte>): Option<seq<Byte>> {
    if |t| % 4 != 0 then None else DecodeAll(t)
  }

  // ---- decoding undoes encoding ----

  lemma CharKnown(v: Six)
    ensures Ascii2Bin(Bin2Ascii(v)) == v && Bin2Ascii(v) != PAD
  {
  }

  lemma Digits(l: nat)
    requires l < 0x100_0000
    ensures 0x4_0000 * (l / 0x4_0000 % 64) + 0x1000 * (l / 0x1000 % 64) + 0x40 * (l / 0x40 % 64) + l % 64 == l
  {
    assert l / 0x40 / 0x40 == l / 0x1000 && l / 0x1000 / 0x40 == l / 0x4_0000;
  }

  lemma WordDigits(s: seq<Byte>)
    requires 1 <= |s| <= 3
    ensures |s| <= 2 ==> Word(s) % 64 == 0
    ensures |s| == 1 ==> Word(s) / 0x40 % 64 == 0
  {
    if |s| <= 2 {
      var q := 1024 * s[0] as int + if |s| == 2 then 4 * s[1] as int else 0;
      ModUnique(Word(s), 64, q, 0);
      if |s| == 1 { ModUnique(q, 64, 16 * s[0] as int, 0); }
    }
  }

  lemma WordBytes(s: seq<Byte>)
    requires 1 <= |s| <= 3
    ensures ThreeBytes(Word(s))[..|s|] == s
  {
    var b := if |s| >= 2 then s[1] else 0;
    var c := if |s| == 3 then s[2] else 0;
    Base256(s[0], b, c);
  }

  lemma Base256(a: Byte, b: Byte, c: Byte)
    ensures var l := 0x1_0000 * a as int + 0x100 * b as int + c as int;
            l / 0x1_0000 % 256 == a && l / 0x100 % 256 == b && l % 256 == c
  {
    var l := 0x1_0000 * a as int + 0x100 * b as int + c as int;
    ModUnique(l, 0x1_0000, a, 0x100 * b as int + c);
    ModUnique(l, 0x100, 0x100 * a as int + b, c);
    ModUnique(0x100 * a as int + b, 256, a, b);
  }

  lemma QuadPadding(s: seq<Byte>, last: bool)
    requires 1 <= |s| <= 3 && (last || |s| == 3)
    ensures Padding(Quad(s), last) == 3 - |s|
  {
    CharKnown(Word(s) / 0x40 % 64);
    CharKnown(Word(s) % 64);
  }

  lemma QuadWord(s: seq<Byte>)
    requires 1 <= |s| <= 3
    ensures var q := Quad(s);
            Gathered(Ascii2Bin(q[0]), Ascii2Bin(q[1]), if |s| > 1 then Ascii2Bin(q[2]) else 0, if |s| > 2 then Ascii2Bin(q[3]) else 0)
              == Some(Word(s))
  {
    var l := Word(s);
    Digits(l);
    WordDigits(s);
    CharKnown(l / 0x4_0000 % 64);
    CharKnown(l / 0x1000 % 64);
    CharKnown(l / 0x40 % 64);
    CharKnown(l % 64);
  }

  lemma QuadUndone(s: seq<Byte>, last: bool)
    requires 1 <= |s| <= 3 && (last || |s| == 3)
    ensures UnQuad(Quad(s), last) == Some(s)
  {
    QuadPadding(s, last);
    QuadWord(s);
    WordBytes(s);
  }

  lemma DecodeStep(t: seq<Byte>, front: seq<Byte>, rest: seq<Byte>)
    requires |t| >= 4 && |t| % 4 == 0
    requires UnQuad(t[..4], |t| == 4) == Some(front)
    requires |t[4..]| % 4 == 0 && DecodeAll(t[4..]) == Some(rest)
    ensures DecodeAll(t) == Some(front + rest)
  {
  }

  lemma EncodeStep(s: seq<Byte>, front: seq<Byte>)
    requires s != [] && front == if |s| <= 3 then s else s[..3]
    ensures var t := Encode(s);
            |t| >= 4 && t[..4] == Quad(front) && t[4..] == Encode(s[|front|..]) && (|t| == 4 <==> |s| <= 3)
  {
  }

  /** Decoding an encoding is the identity on every byte string. */
  lemma {:induction false} DecodeUndoesEncode(s: seq<Byte>)
    ensures Decode(Encode(s)) == Some(s)
    decreases |s|
  {
    EncodeLength(s);
    EncodedFours(|s|);
    if s != [] {
      var front := if |s| <= 3 then s else s[..3];
      EncodeStep(s, front);
      QuadUndone(front, |s| <= 3);
      DecodeUndoesEncode(s[|front|..]);
      DecodeStep(Encode(s), front, s[|front|..]);
      assert front + s[|front|..] == s;
    }
  }

  // ---- encoding undoes decoding, when no bits were dropped ----

  lemma KnownChar(x: Byte)
    requires Ascii2Bin(x) < 0x80
    ensures Ascii2Bin(x) < 64 && Bin2Ascii(Ascii2Bin(x)) == x
  {
  }

  /** The bits of the last value that no byte takes are zero. */
  predicate SpareZero(q: seq<Byte>, last: bool)
    requires |q| == 4
  {
    var pad := Padding(q, last);
    (pad == 1 ==> Ascii2Bin(q[2]) % 4 == 0) && (pad == 2 ==> Ascii2Bin(q[1]) % 16 == 0)
  }

  lemma SixBits(a: Six, b: Six, c: Six, d: Six)
    ensures var l := 0x4_0000 * a as int + 0x1000 * b as int + 0x40 * c as int + d as int;
            l < 0x100_0000 && l / 0x4_0000 % 64 == a && l / 0x1000 % 64 == b && l / 0x40 % 64 == c && l % 64 == d
  {
    var h, i := 64 * a as int + b as int, 4096 * a as int + 64 * b as int + c as int;
    var l := 64 * i + d;
    ModUnique(l, 0x4_0000, a, 4096 * b as int + 64 * c as int + d);
    ModUnique(l, 0x1000, h, 64 * c as int + d);
    ModUnique(l, 64, i, d);
    ModUnique(h, 64, a, b);
    ModUnique(i, 64, h, c);
  }

  lemma WordOfBytes(l: nat)
    requires l < 0x100_0000
    ensures Word(ThreeBytes(l)) == l
    ensures Word(ThreeBytes(l)[..2]) == l - l % 256
    ensures Word(ThreeBytes(l)[..1]) == l - l % 65536
  {
    assert l / 0x100 / 0x100 == l / 0x1_0000;
  }

  lemma Cut(a: Six, b: Six, c: Six)
    ensures 0x4_0000 * a as int + 0x1000 * b as int + 0x40 * c as int
            - (0x4_0000 * a as int + 0x1000 * b as int + 0x40 * c as int) % 256
            == 0x4_0000 * a as int + 0x1000 * b as int + 0x40 * (c - c % 4) as int
    ensures 0x4_0000 * a as int + 0x1000 * b as int - (0x4_0000 * a as int + 0x1000 * b as int) % 65536
            == 0x4_0000 * a as int + 0x1000 * (b - b % 16) as int
  {
  }

  /** The word of the bytes taken from four values, the last of which are the padding's zeros. */
  lemma TakenWord(pad: nat, a: Six, b: Six, c: Six, d: Six)
    requires pad <= 2 && (pad >= 1 ==> d == 0) && (pad == 2 ==> c == 0)
    ensures var l := 0x4_0000 * a as int + 0x1000 * b as int + 0x40 * c as int + d as int;
            Word(ThreeBytes(l)[..3 - pad]) ==
            0x4_0000 * a as int + 0x1000 * Kept(pad == 2, b, 16) as int + 0x40 * Kept(pad == 1, c, 4) as int + d as int
  {
    SixBits(a, b, c, d);
    WordOfBytes(0x4_0000 * a as int + 0x1000 * b as int + 0x40 * c as int + d as int);
    Cut(a, b, c);
    assert forall s: seq<Byte> | |s| == 3 :: s[..3] == s;
  }

  function Kept(cut: bool, v: Six, m: nat): Six
    requires m > 0
  {
    if cut then v - v % m else v
  }

  lemma KeptSame(cut: bool, v: Six, m: nat)
    requires m > 0
    ensures Bin2Ascii(Kept(cut, v, m)) == Bin2Ascii(v) <==> !cut || v % m == 0
  {
    CharKnown(Kept(cut, v, m));
    CharKnown(v);
  }

  lemma QuadBack(q: seq<Byte>, last: bool)
    requires |q| == 4 && UnQuad(q, last).Some?
    ensures var s := UnQuad(q, last).value;
            |s| == 3 - Padding(q, last) && (Quad(s) == q <==> SpareZero(q, last))
  {
    var pad := Padding(q, last);
    KnownChar(q[0]);
    KnownChar(q[1]);
    if pad < 2 { KnownChar(q[2]); }
    if pad < 1 { KnownChar(q[3]); }
    var a, b := Ascii2Bin(q[0]), Ascii2Bin(q[1]);
    var c, d := if pad < 2 then Ascii2Bin(q[2]) else 0, if pad < 1 then Ascii2Bin(q[3]) else 0;
    TakenWord(pad, a, b, c, d);
    QuadOfWord(UnQuad(q, last).value, a, Kept(pad == 2, b, 16), Kept(pad == 1, c, 4), d);
    KeptSame(pad == 2, b, 16);
    KeptSame(pad == 1, c, 4);
  }

  lemma QuadOfWord(s: seq<Byte>, a: Six, b: Six, c: Six, d: Six)
    requires 1 <= |s| <= 3 && Word(s) == 0x4_0000 * a as int + 0x1000 * b as int + 0x40 * c as int + d as int
    ensures Quad(s) == [Bin2Ascii(a), Bin2Ascii(b), if |s| >= 2 then Bin2Ascii(c) else PAD, if |s| == 3 then Bin2Ascii(d) else PAD]
  {
    SixBits(a, b, c, d);
  }

  predicate Canonical(t: seq<Byte>) {
    |t| < 4 || SpareZero(t[|t| - 4..], true)
  }

  lemma DecodedSize(t: seq<Byte>)
    requires |t| % 4 == 0 && t != [] && DecodeAll(t).Some?
    ensures var front, rest := UnQuad(t[..4], |t| == 4), DecodeAll(t[4..]);
            front.Some? && rest.Some? && DecodeAll(t).value == front.value + rest.value
  {
  }

  lemma {:induction false} DecodedNonempty(t: seq<Byte>)
    requires |t| % 4 == 0 && t != [] && DecodeAll(t).Some?
    ensures |DecodeAll(t).value| > 0
  {
    DecodedSize(t);
    QuadBack(t[..4], |t| == 4);
  }

  /** What decodes is the encoding of what it gives exactly when its last bits, which no byte takes, are zero. */
  lemma {:induction false} EncodeUndoesDecode(t: seq<Byte>)
    ensures Decode(t).Some? ==> (Encode(Decode(t).value) == t <==> Canonical(t))
    decreases |t|
  {
    if t != [] && Decode(t).Some? {
      Fours(|t|);
      DecodedSize(t);
      QuadBack(t[..4], |t| == 4);
      var front, rest := UnQuad(t[..4], |t| == 4).value, DecodeAll(t[4..]).value;
      if |t| == 4 {
        assert t[..4] == t && t[0..] == t && front + rest == front;
      } else {
        DecodedNonempty(t[4..]);
        EncodeUndoesDecode(t[4..]);
        FourThenRest(t, front, rest);
        assert t[4..][|t[4..]| - 4..] == t[|t| - 4..];
      }
    }
  }

  lemma FourThenRest(t: seq<Byte>, front: seq<Byte>, rest: seq<Byte>)
    requires |t| > 4 && |front| == 3 && rest != [] && Quad(front) == t[..4]
    ensures Encode(front + rest) == t <==> Encode(rest) == t[4..]
  {
    assert (front + rest)[..3] == front && (front + rest)[3..] == rest;
    assert t == t[..4] + t[4..];
  }

  /** The text "QR==" decodes to the byte whose encoding is "QQ==". */
  lemma SpareBitsDropped()
    ensures Decode([0x51, 0x52, 0x3D, 0x3D]) == Some([0x41]) && Encode([0x41]) == [0x51, 0x51, 0x3D, 0x3D]
  {
    var t: seq<Byte> := [0x51, 0x52, 0x3D, 0x3D];
    assert Ascii2Bin(0x51) == 16 && Ascii2Bin(0x52) == 17 && Bin2Ascii(16) == 0x51;
    assert Gathered(16, 17, 0, 0) == Some(0x41_1000);
    assert ThreeBytes(0x41_1000)[..1] == [0x41];
    assert UnQuad(t, true) == Some([0x41]);
    assert t[..4] == t && t[4..] == [] && [0x41] + [] == [0x41];
    assert Prepend(UnQuad(t, true), DecodeAll([])) == Some([0x41]);
    assert Word([0x41]) == 0x41_0000;
  }

  // ---- a block at a time ----

  lemma EncodeNext(s: seq<Byte>, k: nat, n: nat)
    requires k < |s| && n == if |s| - k >= 3 then 3 else |s| - k
    ensures Encode(s[k..]) == Quad(s[k..k + n]) + Encode(s[k + n..])
  {
    var t := s[k..];
    assert t[..n] == s[k..k + n] && t[n..] == s[k + n..];
    if |t| <= 3 { assert t[..n] == t && Quad(t) + [] == Quad(t); }
  }

  /** `done` now stands at `at`, and the rest is as it was. */
  ghost predicate Filled(was: seq<Byte>, now: seq<Byte>, at: nat, done: seq<Byte>) {
    && |was| == |now| && at + |done| <= |now|
    && now[..at] == was[..at] && now[at..at + |done|] == done && now[at + |done|..] == was[at + |done|..]
  }

  lemma FilledMore(was: seq<Byte>, before: seq<Byte>, now: seq<Byte>, at: nat, done: seq<Byte>, more: seq<Byte>)
    requires Filled(was, before, at, done) && Filled(before, now, at + |done|, more)
    ensures Filled(was, now, at, done + more)
  {
    var i, j := at + |done|, at + |done| + |more|;
    assert now[..at] == now[..i][..at] && before[..i][..at] == before[..at];
    assert now[at..i] == now[..i][at..] && before[..i][at..] == before[at..i];
    assert now[at..j] == now[at..i] + now[i..j];
    assert before[j..] == before[i..][|more|..] && was[j..] == was[i..][|more|..];
  }

  /** Bytes written after those written so far. */
  method Put(dst: array<Byte>, at: nat, ghost was: seq<Byte>, ghost done: seq<Byte>, n: nat, s: seq<Byte>)
    requires n == |done| && at + n + |s| <= dst.Length && Filled(was, dst[..], at, done)
    modifies dst
    ensures Filled(was, dst[..], at, done + s)
  {
    ghost var before := dst[..];
    forall k | 0 <= k < |s| { dst[at + n + k] := s[k]; }
    FilledMore(was, before, dst[..], at, done, s);
  }

  /** `EVP_EncodeBlock`: the encoding and a zero after it. */
  method EncodeBlock(dst: array<Byte>, at: nat, src: seq<Byte>) returns (ret: nat)
    requires at + EncodedLength(|src|) < dst.Length
    modifies dst
    ensures ret == EncodedLength(|src|) && Filled(old(dst[..]), dst[..], at, Encode(src) + [0])
  {
    var k: nat := 0;
    ret := 0;
    ghost var was, goal, done: seq<Byte> := dst[..], Encode(src), [];
    EncodeLength(src);
    Begins(src, goal);
    while k < |src|
      invariant k <= |src| && ret == |done| && goal == done + Encode(src[k..])
      invariant Filled(was, dst[..], at, done)
    {
      var n := if |src| - k >= 3 then 3 else |src| - k;
      var quad := Quad(src[k..k + n]);
      EncodeNext(src, k, n);
      Onward(done, quad, Encode(src[k + n..]), goal);
      Put(dst, at, was, done, ret, quad);
      done := done + quad;
      ret := ret + 4;
      k := k + n;
    }
    Ends(src, done);
    Put(dst, at, was, done, ret, [0]);
  }

  lemma Begins(src: seq<Byte>, goal: seq<Byte>)
    requires goal == Encode(src)
    ensures src[0..] == src && goal == [] + Encode(src[0..])
  {
    assert src[0..] == src;
  }

  lemma Onward(done: seq<Byte>, quad: seq<Byte>, rest: seq<Byte>, goal: seq<Byte>)
    requires goal == done + (quad + rest)
    ensures goal == (done + quad) + rest
  {
  }

  lemma Ends(src: seq<Byte>, done: seq<Byte>)
    ensures src[|src|..] == [] && done + Encode(src[|src|..]) == done
  {
    assert src[|src|..] == [];
  }

  lemma DecodeFrom(t: seq<Byte>, i: nat, done: seq<Byte>)
    requires |t| % 4 == 0 && i % 4 == 0 && i < |t|
    ensures (|t| - i) % 4 == 0 && (|t| - i - 4) % 4 == 0 && (i + 4) % 4 == 0 && i + 4 <= |t|
    ensures var front := UnQuad(t[i..i + 4], |t| - i == 4);
            Prepend(Some(done), DecodeAll(t[i..])) ==
            if front.None? then None else Prepend(Some(done + front.value), DecodeAll(t[i + 4..]))
  {
    assert t[i..][..4] == t[i..i + 4] && t[i..][4..] == t[i + 4..];
    var front, rest := UnQuad(t[i..i + 4], |t| - i == 4), DecodeAll(t[i + 4..]);
    if front.Some? && rest.Some? { assert done + (front.value + rest.value) == done + front.value + rest.value; }
  }

  /** `EVP_DecodeBase64` into a buffer of `maxOut` bytes: it succeeds exactly when the text decodes and the room is enough. */
  method DecodeBase64(out: array<Byte>, maxOut: nat, src: seq<Byte>) returns (ok: bool, len: nat)
    requires maxOut <= out.Length
    modifies out
    ensures ok <==> Decode(src).Some? && |src| / 4 * 3 <= maxOut
    ensures ok ==> Filled(old(out[..]), out[..], 0, Decode(src).value) && len == |Decode(src).value|
  {
    len := 0;
    if |src| % 4 != 0 || maxOut < |src| / 4 * 3 {
      return false, 0;
    }
    var i: nat := 0;
    ghost var was, goal, done: seq<Byte> := out[..], DecodeAll(src), [];
    assert src[0..] == src;
    NothingBefore(goal);
    while i < |src|
      invariant i <= |src| && i % 4 == 0 && (|src| - i) % 4 == 0
      invariant len == |done| <= i / 4 * 3 && Filled(was, out[..], 0, done)
      invariant goal == Prepend(Some(done), DecodeAll(src[i..]))
    {
      DecodeFrom(src, i, done);
      ThreeFit(i, |src|);
      var bytes := UnQuad(src[i..i + 4], i + 4 == |src|);
      if bytes.None? {
        return false, 0;
      }
      Put(out, 0, was, done, len, bytes.value);
      done := done + bytes.value;
      len := len + |bytes.value|;
      i := i + 4;
    }
    assert src[i..] == [] && done + [] == done;
    return true, len;
  }

  lemma NothingBefore(rest: Option<seq<Byte>>)
    ensures Prepend(Some([]), rest) == rest
  {
    if rest.Some? { assert [] + rest.value == rest.value; }
  }

  lemma ThreeFit(i: nat, n: nat)
    requires i < n && i % 4 == 0 && n % 4 == 0
    ensures (i + 4) / 4 * 3 == i / 4 * 3 + 3 <= n / 4 * 3
  {
  }
}
