/** The packet format of the long link: a 20-byte header, then the body. */
module Wire {
  import opened Bytes

  const HEADER_LENGTH: nat := 20

  /** What the connection hands to the manager for one complete packet. */
  datatype Packet = Packet(cmd: Int32, seqNo: Uint32, body: seq<Byte>)

  /** `ok` is false when the header at the front of `rest` is rejected. */
  datatype Parsed = Parsed(packets: seq<Packet>, rest: seq<Byte>, ok: bool)

  function PkgLen(s: seq<Byte>): nat
    requires |s| >= HEADER_LENGTH
  {
    256 * (s[0] as int) + s[1]
  }

  function HeadLen(s: seq<Byte>): nat
    requires |s| >= HEADER_LENGTH
  {
    s[2]
  }

  function Field32(s: seq<Byte>, at: nat): Uint32
    requires at + 4 <= |s|
  {
    0x100_0000 * (s[at] as int) + 0x1_0000 * (s[at + 1] as int) + 0x100 * (s[at + 2] as int) + s[at + 3]
  }

  /** The account number a header carries; the receiver does not look at it. */
  function Account(s: seq<Byte>): nat
    requires |s| >= HEADER_LENGTH
  {
    BigEndian(s[8..16])
  }

  /** `checkHeader`. */
  predicate HeaderOk(s: seq<Byte>)
    requires |s| >= HEADER_LENGTH
  {
    && (s[3] == 0 || s[3] == 1)
    && HeadLen(s) <= PkgLen(s)
    && HeadLen(s) >= HEADER_LENGTH
  }

  /** The header itself is not there in full. */
  predicate ShortHeader(s: seq<Byte>) {
    |s| < HEADER_LENGTH || (HeaderOk(s) && |s| < HeadLen(s))
  }

  /** A valid header of `s` announces a packet that `s` does not yet hold in full. */
  predicate Partial(s: seq<Byte>) {
    |s| >= HEADER_LENGTH && HeaderOk(s) && |s| < PkgLen(s)
  }

  predicate Complete(s: seq<Byte>) {
    |s| >= HEADER_LENGTH && HeaderOk(s) && |s| >= PkgLen(s)
  }

  function PacketOf(s: seq<Byte>): Packet
    requires Complete(s)
  {
    Packet(ToInt32(Field32(s, 4)), Field32(s, 16), s[HeadLen(s)..PkgLen(s)])
  }

  /** The one-shot parse of a whole stream. */
  function ParseStream(s: seq<Byte>): Parsed
    decreases |s|
  {
    if |s| < HEADER_LENGTH then Parsed([], s, true)
    else if !HeaderOk(s) then Parsed([], s, false)
    else if |s| < PkgLen(s) then Parsed([], s, true)
    else
      var r := ParseStream(s[PkgLen(s)..]);
      r.(packets := [PacketOf(s)] + r.packets)
  }

  /** Parsing a longer stream is parsing the prefix and then going on from what it left over. */
  function ParseMore(first: Parsed, b: seq<Byte>): Parsed {
    if !first.ok then first.(rest := first.rest + b)
    else
      var q := ParseStream(first.rest + b);
      q.(packets := first.packets + q.packets)
  }

  lemma HeaderStable(a: seq<Byte>, b: seq<Byte>)
    requires |a| >= HEADER_LENGTH
    ensures PkgLen(a + b) == PkgLen(a) && HeadLen(a + b) == HeadLen(a) && HeaderOk(a + b) == HeaderOk(a)
    ensures Field32(a + b, 4) == Field32(a, 4) && Field32(a + b, 16) == Field32(a, 16)
    ensures Complete(a) ==> PacketOf(a + b) == PacketOf(a) && (a + b)[PkgLen(a)..] == a[PkgLen(a)..] + b
  {
    if Complete(a) {
      assert (a + b)[HeadLen(a)..PkgLen(a)] == a[HeadLen(a)..PkgLen(a)];
    }
  }

  lemma {:induction false} ParseAppend(a: seq<Byte>, b: seq<Byte>)
    ensures ParseStream(a + b) == ParseMore(ParseStream(a), b)
    decreases |a|
  {
    if |a| >= HEADER_LENGTH {
      HeaderStable(a, b);
    }
    if Complete(a) {
      var tail := a[PkgLen(a)..];
      ParseAppend(tail, b);
      var p := ParseStream(tail);
      if p.ok {
        var q := ParseStream(p.rest + b);
        assert [PacketOf(a)] + (p.packets + q.packets) == [PacketOf(a)] + p.packets + q.packets;
      }
    }
  }

  /** What the parse leaves over never starts with a complete packet. */
  lemma {:induction false} RestIsStuck(s: seq<Byte>)
    ensures var p := ParseStream(s);
            if p.ok then ParseStream(p.rest) == Parsed([], p.rest, true)
            else |p.rest| >= HEADER_LENGTH && !HeaderOk(p.rest)
    decreases |s|
  {
    if Complete(s) {
      RestIsStuck(s[PkgLen(s)..]);
    }
  }

  /** All packets once `rest` has been parsed behind the packets `done`. */
  function After(done: seq<Packet>, rest: seq<Byte>): Parsed {
    var r := ParseStream(rest);
    r.(packets := done + r.packets)
  }

  lemma AfterMeans(done: seq<Packet>, s: seq<Byte>)
    ensures After(done, s).ok == ParseStream(s).ok && After(done, s).rest == ParseStream(s).rest
    ensures s == [] ==> After(done, s).ok && After(done, s).rest == []
  {
  }

  lemma OnePacketOn(done: seq<Packet>, s: seq<Byte>, t: seq<Byte>)
    requires Complete(s)
    ensures After(done, s + t) == After(done + [PacketOf(s)], s[PkgLen(s)..] + t)
  {
    HeaderStable(s, t);
    var r := ParseStream(s[PkgLen(s)..] + t);
    assert done + ([PacketOf(s)] + r.packets) == done + [PacketOf(s)] + r.packets;
  }

  lemma OneChunkOn(done: seq<Packet>, s: seq<Byte>, t: seq<Byte>)
    ensures var p := After(done, s);
            if p.ok then After(done, s + t) == After(p.packets, p.rest + t)
            else After(done, s + t).packets == p.packets && !After(done, s + t).ok
  {
    ParseAppend(s, t);
    var p := ParseStream(s);
    if p.ok {
      var r := ParseStream(p.rest + t);
      assert done + (p.packets + r.packets) == done + p.packets + r.packets;
    }
  }

  /** A message as the client means it; `uin` is the account number its header carries. */
  datatype Message = Message(cmd: Int32, uin: Uint64, seqNo: Int32, body: seq<Byte>)

  const MAX_BODY: nat := 65515

  function Header(pkgLen: nat, cmd: Int32, uin: Uint64, seqNo: Int32): (s: seq<Byte>)
    ensures |s| == HEADER_LENGTH
  {
    Be16(pkgLen) + [HEADER_LENGTH, 1] + Be32(cmd) + Be64(uin) + Be32(seqNo)
  }

  function Encode(m: Message): seq<Byte> {
    Header(HEADER_LENGTH + |m.body|, m.cmd, m.uin, m.seqNo) + m.body
  }

  /** The packet the receiver should see: the sequence number arrives unsigned. */
  function Received(m: Message): Packet {
    Packet(m.cmd, m.seqNo % TWO_32, m.body)
  }

  lemma FourDigits(x: int)
    ensures x % TWO_32 ==
            0x100_0000 * (x / 0x100_0000 % 256) + 0x1_0000 * (x / 0x1_0000 % 256) + 0x100 * (x / 0x100 % 256) + x % 256
  {
    var y := x / 0x100;
    var z := y / 0x100;
    var w := z / 0x100;
    assert z == x / 0x1_0000 && w == x / 0x100_0000;
    assert x == 0x100 * y + x % 256 && y == 0x100 * z + y % 256 && z == 0x100 * w + z % 256;
    assert w == 0x100 * (w / 0x100) + w % 256;
  }

  lemma Be32Value(x: int)
    ensures Field32(Be32(x), 0) == x % TWO_32
  {
    FourDigits(x);
  }

  lemma Int32Kept(x: Int32)
    ensures ToInt32(x % TWO_32) == x
  {
  }

  lemma {:induction false} BigEndianAppend(a: seq<Byte>, b: seq<Byte>)
    ensures BigEndian(a + b) == BigEndian(a) * Pow256(|b|) + BigEndian(b)
    decreases |b|
  {
    if b == [] {
      assert a + b == a;
    } else {
      var n := |b| - 1;
      assert (a + b)[..|a| + n] == a + b[..n];
      BigEndianAppend(a, b[..n]);
      assert BigEndian(a) * Pow256(n) * 256 == BigEndian(a) * Pow256(n + 1);
    }
  }

  lemma FourBytes(s: seq<Byte>)
    requires |s| == 4
    ensures BigEndian(s) == Field32(s, 0)
  {
    var t, u, v := s[..3], s[..2], s[..1];
    assert t[..2] == u && u[..1] == v && v[..0] == [];
    assert BigEndian(v) == s[0];
    assert BigEndian(u) == 0x100 * s[0] as int + s[1];
    assert BigEndian(t) == 0x1_0000 * s[0] as int + 0x100 * s[1] as int + s[2];
  }

  lemma Be64Value(x: Uint64)
    ensures BigEndian(Be64(x)) == x
  {
    var high, low := Be32(x / TWO_32), Be32(x);
    Be32Value(x / TWO_32);
    Be32Value(x);
    FourBytes(high);
    FourBytes(low);
    TwoWords(high, low);
  }

  lemma TwoWords(high: seq<Byte>, low: seq<Byte>)
    requires |low| == 4
    ensures BigEndian(high + low) == BigEndian(high) * TWO_32 + BigEndian(low)
  {
    BigEndianAppend(high, low);
    assert Pow256(1) == 0x100 && Pow256(2) == 0x1_0000 && Pow256(3) == 0x100_0000 && Pow256(4) == TWO_32;
  }

  /** A header as any sender might write it. */
  function RawHeader(pkgLen: nat, headLen: Byte, version: Byte, cmd: Int32, uin: Uint64, seqNo: Int32): (s: seq<Byte>)
    ensures |s| == HEADER_LENGTH
  {
    Be16(pkgLen) + [headLen, version] + Be32(cmd) + Be64(uin) + Be32(seqNo)
  }

  /** Where the fields of a header lie. */
  lemma HeaderLayout(len: seq<Byte>, headLen: Byte, version: Byte, cmd: seq<Byte>, uin: seq<Byte>, no: seq<Byte>)
    requires |len| == 2 && |cmd| == 4 && |uin| == 8 && |no| == 4
    ensures var h := len + [headLen, version] + cmd + uin + no;
            PkgLen(h) == 256 * (len[0] as int) + len[1] && HeadLen(h) == headLen && h[3] == version &&
            Field32(h, 4) == Field32(cmd, 0) && h[8..16] == uin && Field32(h, 16) == Field32(no, 0)
  {
  }

  /** The six fields of a header, read in network order. */
  ghost predicate Says(h: seq<Byte>, pkgLen: nat, headLen: nat, version: nat, cmd: Int32, uin: Uint64, seqNo: Int32) {
    && |h| >= HEADER_LENGTH
    && PkgLen(h) == pkgLen && HeadLen(h) == headLen && h[3] == version
    && ToInt32(Field32(h, 4)) == cmd && Account(h) == uin && Field32(h, 16) == seqNo % TWO_32
  }

  lemma RawFields(pkgLen: nat, headLen: Byte, version: Byte, cmd: Int32, uin: Uint64, seqNo: Int32)
    requires pkgLen < TWO_16
    ensures Says(RawHeader(pkgLen, headLen, version, cmd, uin, seqNo), pkgLen, headLen, version, cmd, uin, seqNo)
  {
    Int32Kept(cmd);
    Be32Value(cmd);
    Be32Value(seqNo);
    Be64Value(uin);
    HeaderLayout(Be16(pkgLen), headLen, version, Be32(cmd), Be64(uin), Be32(seqNo));
  }

  /** What the fields of a printed header say. */
  lemma HeaderFields(pkgLen: nat, cmd: Int32, uin: Uint64, seqNo: Int32)
    requires HEADER_LENGTH <= pkgLen < TWO_16
    ensures var h := Header(pkgLen, cmd, uin, seqNo);
            Says(h, pkgLen, 20, 1, cmd, uin, seqNo) && HeaderOk(h)
  {
    RawFields(pkgLen, 20, 1, cmd, uin, seqNo);
    assert Header(pkgLen, cmd, uin, seqNo) == RawHeader(pkgLen, 20, 1, cmd, uin, seqNo);
  }

  /**
   * Exactly the headers of version 0 or 1, of twenty bytes or more and no longer than
   * their packet, are taken; the bytes of a longer header than twenty are skipped. Any
   * other header ends the parse.
   */
  lemma TakenExactly(pkgLen: nat, headLen: Byte, version: Byte, cmd: Int32, uin: Uint64, seqNo: Int32,
                     more: seq<Byte>, body: seq<Byte>, tail: seq<Byte>)
    requires pkgLen < TWO_16
    ensures var p := ParseStream(RawHeader(pkgLen, headLen, version, cmd, uin, seqNo) + more + body + tail);
            if version <= 1 && 20 <= headLen as int <= pkgLen then
              |more| == headLen as int - 20 && |body| == pkgLen - headLen as int ==>
                p == ParseStream(tail).(packets := [Packet(cmd, seqNo % TWO_32, body)] + ParseStream(tail).packets)
            else p.packets == [] && !p.ok
  {
    var h := RawHeader(pkgLen, headLen, version, cmd, uin, seqNo);
    RawFields(pkgLen, headLen, version, cmd, uin, seqNo);
    var s := h + more + body + tail;
    assert s == h + (more + body + tail);
    HeaderStable(h, more + body + tail);
    if version <= 1 && 20 <= headLen as int <= pkgLen && |more| == headLen as int - 20 && |body| == pkgLen - headLen as int {
      assert s[headLen..pkgLen] == body && s[pkgLen..] == tail;
    }
  }

  lemma ParseNext(h: seq<Byte>, body: seq<Byte>, tail: seq<Byte>)
    requires |h| == HEADER_LENGTH && HeaderOk(h) && HeadLen(h) == HEADER_LENGTH
    requires PkgLen(h) == HEADER_LENGTH + |body|
    ensures ParseStream(h + body + tail) ==
            var r := ParseStream(tail);
            r.(packets := [Packet(ToInt32(Field32(h, 4)), Field32(h, 16), body)] + r.packets)
  {
    var s := h + body + tail;
    HeaderStable(h, body + tail);
    assert s == h + (body + tail);
    assert s[HEADER_LENGTH..PkgLen(h)] == body;
    assert s[PkgLen(h)..] == tail;
  }

  /** A printed message is parsed back, whatever follows it. */
  lemma ParsePrinted(m: Message, tail: seq<Byte>)
    requires |m.body| <= MAX_BODY
    ensures ParseStream(Encode(m) + tail) ==
            var r := ParseStream(tail); r.(packets := [Received(m)] + r.packets)
  {
    var n := HEADER_LENGTH + |m.body|;
    HeaderFields(n, m.cmd, m.uin, m.seqNo);
    ParseNext(Header(n, m.cmd, m.uin, m.seqNo), m.body, tail);
  }

  lemma PrintedWhole(m: Message)
    requires |m.body| <= MAX_BODY
    ensures ParseStream(Encode(m)) == Parsed([Received(m)], [], true)
  {
    ParsePrinted(m, []);
    assert Encode(m) + [] == Encode(m);
  }

  /** An unfinished part of a printed message tells the length of the whole. */
  lemma PrintedLength(m: Message, k: nat)
    requires |m.body| <= MAX_BODY && k <= |Encode(m)| && Partial(Encode(m)[..k])
    ensures PkgLen(Encode(m)[..k]) == |Encode(m)|
  {
    var n := HEADER_LENGTH + |m.body|;
    var h := Header(n, m.cmd, m.uin, m.seqNo);
    HeaderFields(n, m.cmd, m.uin, m.seqNo);
    assert Encode(m)[..k][0] == h[0] && Encode(m)[..k][1] == h[1];
  }

  function EncodeAll(ms: seq<Message>): seq<Byte> {
    FlatMap(Encode, ms)
  }

  function ReceivedAll(ms: seq<Message>): seq<Packet> {
    seq(|ms|, i requires 0 <= i < |ms| => Received(ms[i]))
  }

  ghost predicate AllFit(ms: seq<Message>) {
    forall k :: 0 <= k < |ms| ==> |ms[k].body| <= MAX_BODY
  }

  /** Printing any list of messages and parsing the stream gives the list back, with nothing left over. */
  lemma {:induction false} ParsePrintedAll(ms: seq<Message>)
    requires AllFit(ms)
    ensures ParseStream(EncodeAll(ms)) == Parsed(ReceivedAll(ms), [], true)
  {
    if ms != [] {
      ParsePrintedAll(ms[1..]);
      ParsePrinted(ms[0], EncodeAll(ms[1..]));
      assert EncodeAll(ms) == Encode(ms[0]) + EncodeAll(ms[1..]);
      assert ReceivedAll(ms) == [Received(ms[0])] + ReceivedAll(ms[1..]);
    }
  }

  /** A receiver that has seen only the start of the stream has delivered only a prefix of the messages. */
  lemma {:induction false} ParsePrefix(ms: seq<Message>, seen: seq<Byte>, unseen: seq<Byte>)
    requires AllFit(ms) && EncodeAll(ms) == seen + unseen
    ensures var p := ParseStream(seen);
            p.ok && p.packets <= ReceivedAll(ms) && (unseen == [] ==> p.packets == ReceivedAll(ms) && p.rest == [])
  {
    ParsePrintedAll(ms);
    ParseAppend(seen, unseen);
    if unseen == [] {
      assert seen + unseen == seen;
    }
  }
}
