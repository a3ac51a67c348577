/** Base64 as a stream of lines (`EVP_EncodeInit`, `EVP_EncodeUpdate` and `EVP_EncodeFinal` of `base64/base64.c`). */
module Base64Streams {
  import opened Bytes
  import opened Base64

  /** Bytes and characters of a full line, without its newline. */
  const LINE: nat := 48
  const CHARS: nat := 64

  function OneLine(s: seq<Byte>): (t: seq<Byte>) {
    Encode(s) + [NEWLINE]
  }

  function Lines(s: seq<Byte>): (t: seq<Byte>)
    requires |s| % LINE == 0
    decreases |s|
  {
    if s == [] then []
    else
      LinesFit(|s|);
      Lines(s[..|s| - LINE]) + OneLine(s[|s| - LINE..])
  }

  lemma LinesFit(n: nat)
    requires n % LINE == 0 && n > 0
    ensures n >= LINE && (n - LINE) % LINE == 0
  {
  }

  /** Full lines of 48 bytes, then what is over, each encoded and ended by a newline. */
  function Armoured(s: seq<Byte>): seq<Byte> {
    var n := |s| - |s| % LINE;
    Lines(s[..n]) + if n == |s| then [] else OneLine(s[n..])
  }

  lemma LinesMore(a: seq<Byte>, line: seq<Byte>)
    requires |a| % LINE == 0 && |line| == LINE
    ensures |a + line| % LINE == 0 && Lines(a + line) == Lines(a) + OneLine(line)
  {
    ModUnique(|a + line|, LINE, |a| / LINE + 1, 0);
    assert (a + line)[..|a|] == a && (a + line)[|a|..] == line;
  }

  // ---- what the lines are, said without them ----

  /** The characters that are no newlines. */
  function Stripped(t: seq<Byte>): seq<Byte> {
    if t == [] then [] else (if t[0] == 0x0A then [] else [t[0]]) + Stripped(t[1..])
  }

  predicate Unbroken(t: seq<Byte>) {
    forall k | 0 <= k < |t| :: t[k] != 0x0A
  }

  lemma {:induction false} StrippedAppend(a: seq<Byte>, b: seq<Byte>)
    ensures Stripped(a + b) == Stripped(a) + Stripped(b)
  {
    if a == [] {
      assert a + b == b;
    } else {
      assert (a + b)[1..] == a[1..] + b;
      StrippedAppend(a[1..], b);
    }
  }

  lemma {:induction false} StrippedUnbroken(t: seq<Byte>)
    requires Unbroken(t)
    ensures Stripped(t) == t
  {
    if t != [] { StrippedUnbroken(t[1..]); }
  }

  lemma QuadUnbroken(s: seq<Byte>)
    requires 1 <= |s| <= 3
    ensures Unbroken(Quad(s))
  {
  }

  lemma {:induction false} EncodeUnbroken(s: seq<Byte>)
    ensures Unbroken(Encode(s))
    decreases |s|
  {
    if |s| > 3 {
      QuadUnbroken(s[..3]);
      EncodeUnbroken(s[3..]);
    } else if s != [] {
      QuadUnbroken(s);
    }
  }

  lemma {:induction false} EncodeAppend(a: seq<Byte>, b: seq<Byte>)
    requires |a| % 3 == 0
    ensures Encode(a + b) == Encode(a) + Encode(b)
    decreases |a|
  {
    if a == [] {
      assert a + b == b;
    } else if b == [] {
      assert a + b == a;
    } else {
      var s := a + b;
      assert s[..3] == a[..3] && s[3..] == a[3..] + b;
      EncodeAppend(a[3..], b);
      if |a| == 3 {
        assert a[..3] == a && a[3..] == [];
      }
    }
  }

  lemma OneLineIs(s: seq<Byte>)
    ensures Stripped(OneLine(s)) == Encode(s) && |OneLine(s)| == EncodedLength(|s|) + 1
    ensures forall k | 0 <= k < |OneLine(s)| :: OneLine(s)[k] == 0x0A <==> k == |OneLine(s)| - 1
  {
    EncodeUnbroken(s);
    EncodeLength(s);
    StrippedUnbroken(Encode(s));
    StrippedAppend(Encode(s), [NEWLINE]);
    assert Stripped([NEWLINE]) == [];
  }

  /** Every 65th character ends a line. */
  predicate Ruled(t: seq<Byte>) {
    |t| % 65 == 0 && forall k | 0 <= k < |t| :: t[k] == 0x0A <==> k % 65 == 64
  }

  lemma RuledMore(t: seq<Byte>, line: seq<Byte>)
    requires Ruled(t) && 1 <= |line| <= 65 && forall k | 0 <= k < |line| :: line[k] == 0x0A <==> k == |line| - 1
    ensures |line| == 65 ==> Ruled(t + line)
    ensures forall k | 0 <= k < |t + line| :: (t + line)[k] == 0x0A <==> k % 65 == 64 || k == |t + line| - 1
  {
    var m := |t| / 65;
    forall k | |t| <= k < |t + line| ensures k % 65 == k - |t| {
      ModUnique(k, 65, m, k - |t|);
    }
    if |line| == 65 { ModUnique(|t + line|, 65, m + 1, 0); }
  }

  lemma {:induction false} LinesAre(s: seq<Byte>)
    requires |s| % LINE == 0
    ensures Stripped(Lines(s)) == Encode(s) && Ruled(Lines(s))
    decreases |s|
  {
    if s != [] {
      LinesFit(|s|);
      var a, line := s[..|s| - LINE], s[|s| - LINE..];
      LinesAre(a);
      OneLineIs(line);
      StrippedAppend(Lines(a), OneLine(line));
      ThreesInLines(|a|);
      EncodeAppend(a, line);
      assert a + line == s;
      RuledMore(Lines(a), OneLine(line));
    }
  }

  lemma ThreesInLines(n: nat)
    requires n % LINE == 0
    ensures n % 3 == 0
  {
    ModUnique(n, 3, 16 * (n / LINE), 0);
  }

  /**
   * The text of a stream: without its newlines it is the encoding of the whole, and its
   * newlines are every 65th character and the last.
   */
  lemma ArmouredExactly(s: seq<Byte>)
    ensures Stripped(Armoured(s)) == Encode(s) && (Armoured(s) == [] <==> s == [])
    ensures var t := Armoured(s); forall k | 0 <= k < |t| :: t[k] == 0x0A <==> k % 65 == 64 || k == |t| - 1
  {
    var n := |s| - |s| % LINE;
    var a, rest := s[..n], s[n..];
    assert s == a + rest;
    LinesAre(a);
    if rest == [] {
      assert a == s && Lines(a) + [] == Lines(a);
      if s != [] { LinesFit(|s|); }
      LastIsRuled(Lines(a));
    } else {
      OneLineIs(rest);
      EncodedAtMost(|rest|);
      StrippedAppend(Lines(a), OneLine(rest));
      ThreesInLines(n);
      EncodeAppend(a, rest);
      RuledMore(Lines(a), OneLine(rest));
    }
  }

  lemma EncodedAtMost(n: nat)
    requires n < LINE
    ensures EncodedLength(n) <= 64
  {
  }

  lemma LastIsRuled(t: seq<Byte>)
    requires Ruled(t)
    ensures t != [] ==> (|t| - 1) % 65 == 64
  {
    if t != [] { ModUnique(|t| - 1, 65, |t| / 65 - 1, 64); }
  }

  /** Whole lines of what was taken are written; what is over is held. */
  ghost predicate Held(taken: seq<Byte>, written: seq<Byte>, over: seq<Byte>) {
    var n := |taken| - |taken| % LINE;
    written == Lines(taken[..n]) && over == taken[n..]
  }

  lemma HoldMore(taken: seq<Byte>, written: seq<Byte>, over: seq<Byte>, data: seq<Byte>)
    requires Held(taken, written, over) && |over| + |data| < LINE
    ensures Held(taken + data, written, over + data)
  {
    var n := |taken| - |taken| % LINE;
    ModUnique(|taken + data|, LINE, |taken| / LINE, |over| + |data|);
    assert (taken + data)[..n] == taken[..n] && (taken + data)[n..] == over + data;
  }

  lemma LineDone(taken: seq<Byte>, written: seq<Byte>, over: seq<Byte>, data: seq<Byte>)
    requires Held(taken, written, over) && |over| + |data| == LINE
    ensures Held(taken + data, written + OneLine(over + data), [])
  {
    var n := |taken| - |taken| % LINE;
    ModUnique(|taken + data|, LINE, |taken| / LINE + 1, 0);
    assert taken + data == taken[..n] + (over + data);
    LinesMore(taken[..n], over + data);
    assert (taken + data)[..|taken + data|] == taken + data;
  }

  /** The text so far is at the front of the buffer with a zero after it, and the buffer beyond is untouched. */
  ghost predicate Ended(was: seq<Byte>, now: seq<Byte>, text: seq<Byte>) {
    && |was| == |now| && |text| < |now|
    && now[..|text|] == text && now[|text| + 1..] == was[|text| + 1..]
    && if text == [] then now == was else now[|text|] == 0
  }

  lemma EndedMore(was: seq<Byte>, before: seq<Byte>, mid: seq<Byte>, now: seq<Byte>, text: seq<Byte>, s: seq<Byte>)
    requires Ended(was, before, text) && Filled(before, mid, |text|, s + [0]) && |text| + |s| + 1 < |now| == |mid|
    requires now == mid[|text| + |s| := NEWLINE][|text| + |s| + 1 := 0]
    ensures Ended(was, now, text + (s + [NEWLINE]))
  {
    var i, j := |text|, |text| + |s|;
    assert mid[i..j] == mid[i..j + 1][..|s|] == s;
    assert now[..j + 1] == mid[..i] + mid[i..j] + [NEWLINE];
    assert now[j + 2..] == mid[j + 1..][1..] == before[j + 1..][1..];
    assert before[j + 2..] == before[i + 1..][j + 1 - i..] && was[j + 2..] == was[i + 1..][j + 1 - i..];
  }

  /** Encodes a line after the text so far. */
  method PutLine(out: array<Byte>, ghost was: seq<Byte>, ghost text: seq<Byte>, total: nat, line: seq<Byte>) returns (j: nat)
    requires total == |text| && total + EncodedLength(|line|) + 1 < out.Length && Ended(was, out[..], text)
    modifies out
    ensures j == EncodedLength(|line|) + 1 && Ended(was, out[..], text + OneLine(line))
  {
    ghost var before := out[..];
    j := EncodeBlock(out, total, line);
    ghost var mid := out[..];
    out[total + j] := NEWLINE;
    out[total + j + 1] := 0;
    EncodeLength(line);
    EndedMore(was, before, mid, out[..], text, Encode(line));
    j := j + 1;
  }

  /** The characters that the whole lines of `n` bytes take. */
  function LineRoom(n: nat): nat { (CHARS + 1) * (n / LINE) }

  lemma RoomForLine(left: nat)
    requires left >= LINE
    ensures LineRoom(left) == LineRoom(left - LINE) + CHARS + 1 && EncodedLength(LINE) == CHARS
  {
  }

  class Encoder {
    const encData: array<Byte>
    var num: nat
    /** All that was taken in and all that was written out, since the start. */
    ghost var taken: seq<Byte>
    ghost var written: seq<Byte>

    ghost predicate Valid()
      reads this, encData
    {
      encData.Length == 80 && num < LINE && Held(taken, written, encData[..num])
    }

    /** `EVP_EncodeInit`. */
    constructor ()
      ensures Valid() && taken == [] && written == [] && fresh(encData)
    {
      encData := new Byte[80];
      num, taken, written := 0, [], [];
    }

    /** Bytes that do not complete a line are kept. */
    method Keep(data: seq<Byte>)
      requires Valid() && num + |data| < LINE
      modifies `num, `taken, encData
      ensures Valid() && taken == old(taken) + data
    {
      ghost var over := encData[..num];
      Copy(encData, num, data);
      HoldMore(taken, written, over, data);
      num := num + |data|;
      taken := taken + data;
      assert encData[..num] == over + data;
    }

    /** A line of what is held and `data` goes out after the text so far. */
    method WriteLine(out: array<Byte>, ghost was: seq<Byte>, ghost text: seq<Byte>, total: nat,
                     ghost data: seq<Byte>, line: seq<Byte>)
      returns (j: nat)
      requires encData.Length == 80 && |line| == LINE && out != encData
      requires exists over: seq<Byte> :: line == over + data && Held(taken, written, over)
      requires total == |text| && total + CHARS + 1 < out.Length && Ended(was, out[..], text)
      modifies `num, `taken, `written, out
      ensures Valid() && num == 0 && taken == old(taken) + data && j == CHARS + 1
      ensures written == old(written) + OneLine(line) && Ended(was, out[..], text + OneLine(line))
    {
      ghost var over: seq<Byte> :| line == over + data && Held(taken, written, over);
      RoomForLine(LINE);
      j := PutLine(out, was, text, total, line);
      LineDone(taken, written, over, data);
      num, taken, written := 0, taken + data, written + OneLine(line);
    }

    /** A line straight from the data. */
    method Straight(out: array<Byte>, ghost was: seq<Byte>, ghost text: seq<Byte>, total: nat, line: seq<Byte>)
      requires Valid() && num == 0 && |line| == LINE && out != encData
      requires total == |text| && total + CHARS + 1 < out.Length && Ended(was, out[..], text)
      modifies `num, `taken, `written, out
      ensures Valid() && num == 0 && taken == old(taken) + line && written == old(written) + OneLine(line)
      ensures Ended(was, out[..], text + OneLine(line)) && |OneLine(line)| == CHARS + 1
    {
      RoomForLine(LINE);
      EncodeLength(line);
      assert [] + line == line && encData[..0] == [];
      var _ := WriteLine(out, was, text, total, line, line);
    }

    /** Whole lines straight from the data, then what is over is kept. */
    method Rest(out: array<Byte>, ghost was: seq<Byte>, ghost first: seq<Byte>, start: nat, data: seq<Byte>)
      returns (total: nat, ghost text: seq<Byte>)
      requires Valid() && out != encData && num == 0 && start == |first|
      requires Ended(was, out[..], first) && start + LineRoom(|data|) < out.Length
      modifies `num, `taken, `written, encData, out
      ensures Valid() && taken == old(taken) + data
      ensures written == old(written) + text && total == |first + text| && Ended(was, out[..], first + text)
    {
      var k: nat := 0;
      ghost var t, w := taken, written;
      total, text := start, [];
      assert first + [] == first && w + [] == w && t + data[..0] == t;
      while |data| - k >= LINE
        invariant Valid() && num == 0 && k <= |data| && taken == t + data[..k] && written == w + text
        invariant total == |first + text| && total + LineRoom(|data| - k) < out.Length
        invariant Ended(was, out[..], first + text)
      {
        RoomForLine(|data| - k);
        var line := data[k..k + LINE];
        Straight(out, was, first + text, total, line);
        Joined(t, data, k, k + LINE, w, first, text, OneLine(line));
        text := text + OneLine(line);
        total := total + CHARS + 1;
        k := k + LINE;
      }
      Keep(data[k..]);
      assert data[..k] + data[k..] == data;
    }

    /** The line held is completed from the data and goes out first. */
    method FirstLine(out: array<Byte>, ghost was: seq<Byte>, data: seq<Byte>) returns (j: nat, ghost text: seq<Byte>)
      requires Valid() && out != encData && 0 < num && num + |data| == LINE
      requires CHARS + 1 < out.Length && was == out[..]
      modifies `num, `taken, `written, encData, out
      ensures Valid() && num == 0 && taken == old(taken) + data && j == CHARS + 1 == |text|
      ensures written == old(written) + text && Ended(was, out[..], text)
    {
      ghost var over := encData[..num];
      Copy(encData, num, data);
      assert encData[..LINE] == over + data;
      text := OneLine(over + data);
      EncodeLength(over + data);
      j := WriteLine(out, was, [], 0, data, encData[..LINE]);
      assert [] + text == text;
      RoomForLine(LINE);
    }

    /** Data that completes a line: that line, more lines, and what is over. */
    method ManyLines(out: array<Byte>, ghost was: seq<Byte>, data: seq<Byte>) returns (outLen: nat, ghost text: seq<Byte>)
      requires Valid() && out != encData && was == out[..]
      requires num + |data| >= LINE && LineRoom(num + |data|) < out.Length
      modifies `num, `taken, `written, encData, out
      ensures Valid() && taken == old(taken) + data
      ensures |text| == outLen && written == old(written) + text && Ended(was, out[..], text)
    {
      RoomForLine(num + |data|);
      var i := if num == 0 then 0 else LINE - num;
      outLen, text := 0, [];
      ghost var t, w := taken, written;
      assert t + data[..0] == t && w + [] == w;
      if num != 0 {
        outLen, text := FirstLine(out, was, data[..i]);
      }
      ghost var first := text;
      outLen, text := Rest(out, was, first, outLen, data[i..]);
      Joined(t, data, i, |data|, w, first, text, []);
      assert w + first + text == w + (first + text);
      text := first + text;
    }

    /** `EVP_EncodeUpdate`: what comes out follows what came out before, whatever the cut. */
    method Update(out: array<Byte>, data: seq<Byte>) returns (outLen: nat)
      requires Valid() && out != encData
      requires num + |data| >= LINE ==> LineRoom(num + |data|) < out.Length
      modifies this, encData, out
      ensures Valid() && taken == old(taken) + data
      ensures outLen <= out.Length && written == old(written) + out[..outLen]
      ensures if outLen == 0 then out[..] == old(out[..]) else Ended(old(out[..]), out[..], out[..outLen])
    {
      outLen := 0;
      assert out[..0] == [] && written + [] == written && taken + [] == taken;
      if |data| == 0 {
        return;
      }
      if num + |data| < LINE {
        Keep(data);
        return;
      }
      ghost var text;
      outLen, text := ManyLines(out, out[..], data);
    }

    /** The line held so far goes out as the last. */
    method LastLine(out: array<Byte>) returns (outLen: nat, ghost line: seq<Byte>)
      requires Valid() && out != encData && num != 0 && EncodedLength(num) + 1 < out.Length
      modifies out
      ensures line == OneLine(encData[..num]) && outLen == |line| <= out.Length && out[..outLen] == line
      ensures outLen > 0 && Ended(old(out[..]), out[..], line)
    {
      line := OneLine(encData[..num]);
      ghost var was := out[..];
      EncodeLength(encData[..num]);
      assert [] + line == line;
      outLen := PutLine(out, was, [], 0, encData[..num]);
    }

    /** `EVP_EncodeFinal`: all that was ever written is the whole input in lines. */
    method Final(out: array<Byte>) returns (outLen: nat)
      requires Valid() && out != encData && (num != 0 ==> EncodedLength(num) + 1 < out.Length)
      modifies `num, `written, out
      ensures num == 0 && written == Armoured(taken)
      ensures outLen <= out.Length && written == old(written) + out[..outLen]
      ensures if outLen == 0 then out[..] == old(out[..]) else Ended(old(out[..]), out[..], out[..outLen])
    {
      outLen := 0;
      assert out[..0] == [] && written + [] == written;
      if num != 0 {
        ghost var line;
        outLen, line := LastLine(out);
        written := written + line;
        num := 0;
      }
    }
  }

  lemma Joined(t: seq<Byte>, data: seq<Byte>, i: nat, j: nat, w: seq<Byte>, first: seq<Byte>, text: seq<Byte>, line: seq<Byte>)
    requires i <= j <= |data|
    ensures t + data[..i] + data[i..j] == t + data[..j]
    ensures data[..|data|] == data && data[i..|data|] == data[i..]
    ensures w + text + line == w + (text + line) && first + text + line == first + (text + line)
  {
  }

  /** The text of a stream depends only on the concatenation of its pieces. */
  method Armour(pieces: seq<seq<Byte>>) returns (text: seq<Byte>)
    ensures text == Armoured(Flatten(pieces))
  {
    var ctx := new Encoder();
    text := [];
    for k := 0 to |pieces|
      invariant ctx.Valid() && fresh(ctx) && fresh(ctx.encData)
      invariant ctx.taken == Flatten(pieces[..k]) && ctx.written == text
    {
      var out := new Byte[LineRoom(ctx.num + |pieces[k]|) + 1];
      var n := ctx.Update(out, pieces[k]);
      text := text + out[..n];
      FlattenNext(pieces, k);
    }
    assert pieces[..|pieces|] == pieces;
    var out := new Byte[EncodedLength(ctx.num) + 2];
    var n := ctx.Final(out);
    text := text + out[..n];
  }
}
