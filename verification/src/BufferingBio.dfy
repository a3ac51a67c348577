/** The buffering filter BIO (`bio/buffer.c`) over a neighbour that may do less than it is asked, or fail. */
module BufferingBio {
  import opened Bytes

  const NEWLINE: Byte := 10
  const DEFAULT_BUFFER_SIZE: nat := 4096

  /**
   * The next BIO. What it will do is any script of answers: a positive answer is how
   * many bytes it is willing to move, any other is an error or end-of-file code.
   */
  class NextBio {
    var upstream: seq<Byte>
    var sent: seq<Byte>
    var script: seq<int>
    var last: int

    constructor (upstream: seq<Byte>, script: seq<int>)
      ensures this.upstream == upstream && sent == [] && this.script == script
    {
      this.upstream, sent, this.script, last := upstream, [], script, 0;
    }

    method Answer(most: nat) returns (i: int)
      modifies `script, `last
      ensures i <= most && i == last
    {
      if script == [] {
        i := 0;
      } else {
        i := if script[0] < most then script[0] else most;
        script := script[1..];
      }
      last := i;
    }

    /** `BIO_read`: at most `n` of the bytes still upstream, or a code. */
    method Read(out: array<Byte>, at: nat, n: nat) returns (i: int)
      requires at + n <= out.Length
      modifies `upstream, `script, `last, out
      ensures i <= n && i == last
      ensures var k := if i > 0 then i else 0;
              && k <= |old(upstream)| && upstream == old(upstream)[k..]
              && out[at..at + k] == old(upstream)[..k]
              && out[..at] == old(out[..at]) && out[at + k..] == old(out[at + k..])
    {
      i := Answer(if n <= |upstream| then n else |upstream|);
      var k := if i > 0 then i else 0;
      ghost var s := upstream[..k];
      forall j | 0 <= j < k { out[at + j] := upstream[j]; }
      upstream := upstream[k..];
      assert out[at..at + k] == s;
    }

    /** `BIO_write`: some of the bytes go on, or none and a code. */
    method Write(s: seq<Byte>) returns (i: int)
      modifies `sent, `script, `last
      ensures i <= |s| && i == last
      ensures sent == old(sent) + s[..if i > 0 then i else 0]
    {
      i := Answer(|s|);
      if i > 0 { sent := sent + s[..i]; }
    }
  }

  /** A buffer of which `k` more bytes after `num` were filled: the rest is still as it was. */
  lemma RestSame(was: seq<Byte>, before: seq<Byte>, after: seq<Byte>, num: nat, k: nat)
    requires |was| == |before| == |after| && num + k <= |was|
    requires before[num..] == was[num..] && after[num + k..] == before[num + k..]
    ensures after[num + k..] == was[num + k..]
  {
    assert before[num + k..] == before[num..][k..] && was[num + k..] == was[num..][k..];
  }

  /** Since `d` and `o`: the first `num` bytes of `s` were delivered, and the rest of it is untouched. */
  ghost predicate Got(d: seq<Byte>, o: seq<Byte>, delivered: seq<Byte>, s: seq<Byte>, num: nat) {
    num <= |o| == |s| && delivered == d + s[..num] && s[num..] == o[num..]
  }

  lemma GotMore(
    d: seq<Byte>, o: seq<Byte>, before: seq<Byte>, s: seq<Byte>, num: nat, after: seq<Byte>, t: seq<Byte>, k: nat)
    requires Got(d, o, before, s, num) && num + k <= |t| == |s|
    requires after == before + t[num..num + k] && t[..num] == s[..num] && t[num + k..] == s[num + k..]
    ensures Got(d, o, after, t, num + k)
  {
    RestSame(o, s, t, num, k);
    assert t[..num + k] == t[..num] + t[num..num + k];
  }

  lemma Line(front: seq<Byte>, piece: seq<Byte>, flag: bool)
    requires NEWLINE !in front
    requires if flag then |piece| > 0 && piece[|piece| - 1] == NEWLINE && NEWLINE !in piece[..|piece| - 1] else NEWLINE !in piece
    ensures var s := front + piece;
            if flag then |s| > 0 && s[|s| - 1] == NEWLINE && NEWLINE !in s[..|s| - 1] else NEWLINE !in s
  {
    if flag { assert (front + piece)[..|front| + |piece| - 1] == front + piece[..|piece| - 1]; }
  }

  lemma Regroup(a: seq<Byte>, b: seq<Byte>, c: seq<Byte>, k: nat)
    requires k <= |b|
    ensures (a + b[..k]) + b[k..] + c == a + b + c
  {
  }

  class Bio {
    const next: NextBio
    const ibuf: array<Byte>
    var ibufOff: nat
    var ibufLen: nat
    const obuf: array<Byte>
    var obufOff: nat
    var obufLen: nat
    /** Everything there was to read, what has been returned of it, and what has been accepted for writing. */
    ghost const original: seq<Byte>
    ghost var delivered: seq<Byte>
    ghost var accepted: seq<Byte>

    /** Bytes returned, buffered and still upstream are the original stream. */
    ghost predicate InValid()
      reads `ibufOff, `ibufLen, `delivered, ibuf, next`upstream
    {
      && ibuf != obuf && ibuf.Length > 0 && ibufOff + ibufLen <= ibuf.Length
      && delivered + ibuf[ibufOff..ibufOff + ibufLen] + next.upstream == original
    }

    /** Bytes sent and pending are the bytes accepted. */
    ghost predicate OutValid()
      reads `obufOff, `obufLen, `accepted, obuf, next`sent
    {
      && ibuf != obuf && obuf.Length > 0 && obufOff + obufLen <= obuf.Length
      && (obufLen == 0 ==> obufOff == 0)
      && next.sent + obuf[obufOff..obufOff + obufLen] == accepted
    }

    constructor (next: NextBio)
      ensures this.next == next && InValid() && OutValid() && fresh(ibuf) && fresh(obuf)
      ensures original == next.upstream && delivered == [] && accepted == next.sent
      ensures ibuf.Length == obuf.Length == 4096
    {
      this.next := next;
      ibuf := new Byte[DEFAULT_BUFFER_SIZE];
      obuf := new Byte[DEFAULT_BUFFER_SIZE];
      ibufOff, ibufLen, obufOff, obufLen := 0, 0, 0, 0;
      original, delivered, accepted := next.upstream, [], next.sent;
    }

    // ---- reading ----

    /** The code a call returns when the next BIO stopped it with `i` after `num` bytes. */
    static function Stopped(num: nat, i: int): int {
      if num > 0 then num else i
    }

    method TakeBuffered(out: array<Byte>, num: nat, i: nat)
      requires InValid() && i <= ibufLen && num + i <= out.Length && out != ibuf
      modifies `ibufOff, `ibufLen, `delivered, out
      ensures InValid() && ibufLen == old(ibufLen) - i
      ensures delivered == old(delivered) + out[num..num + i]
      ensures out[num..num + i] == old(ibuf[ibufOff..ibufOff + i])
      ensures out[..num] == old(out[..num]) && out[num + i..] == old(out[num + i..])
    {
      ghost var b := ibuf[ibufOff..ibufOff + ibufLen];
      assert b[..i] == ibuf[ibufOff..ibufOff + i];
      Copy(out, num, ibuf[ibufOff..ibufOff + i]);
      Regroup(delivered, b, next.upstream, i);
      delivered := delivered + b[..i];
      ibufOff, ibufLen := ibufOff + i, ibufLen - i;
      assert b[i..] == ibuf[ibufOff..ibufOff + ibufLen];
    }

    /** Another buffer of bytes from the next BIO; the buffer must be empty. */
    method Fill() returns (i: int)
      requires InValid() && ibufLen == 0
      modifies `ibufOff, `ibufLen, ibuf, next`upstream, next`script, next`last
      ensures InValid() && i == next.last && ibufLen == if i > 0 then i else 0
    {
      i := next.Read(ibuf, 0, ibuf.Length);
      if i > 0 { ibufOff, ibufLen := 0, i; }
    }

    /** What is left over in the buffer, as much of it as is wanted. */
    method Take(out: array<Byte>, num: nat, i: nat, ghost d: seq<Byte>, ghost o: seq<Byte>)
      requires InValid() && i <= ibufLen && num + i <= out.Length && out != ibuf
      requires Got(d, o, delivered, out[..], num)
      modifies `ibufOff, `ibufLen, `delivered, out
      ensures InValid() && ibufLen == old(ibufLen) - i
      ensures Got(d, o, delivered, out[..], num + i)
      ensures out[..num + i] == old(out[..num]) + old(ibuf[ibufOff..ibufOff + i])
    {
      ghost var before, s := delivered, out[..];
      TakeBuffered(out, num, i);
      GotMore(d, o, before, s, num, delivered, out[..], i);
    }

    /** Bytes read past the buffer. */
    method ReadPast(out: array<Byte>, num: nat, outl: nat, ghost d: seq<Byte>, ghost o: seq<Byte>) returns (i: int)
      requires InValid() && ibufLen == 0 && num <= outl <= out.Length && out != ibuf
      requires Got(d, o, delivered, out[..], num)
      modifies `delivered, next`upstream, next`script, next`last, out
      ensures InValid() && i == next.last && i <= outl - num
      ensures Got(d, o, delivered, out[..], num + if i > 0 then i else 0)
    {
      ghost var up, before, s := next.upstream, delivered, out[..];
      i := next.Read(out, num, outl - num);
      ghost var k := if i > 0 then i else 0;
      delivered := delivered + up[..k];
      GotMore(d, o, before, s, num, delivered, out[..], k);
    }

    /** A read larger than the buffer goes past it, until it is complete or the next BIO stops it. */
    method ReadDirect(out: array<Byte>, start: nat, outl: nat, ghost d: seq<Byte>, ghost o: seq<Byte>) returns (ret: int)
      requires InValid() && ibufLen == 0 && start < outl <= out.Length && out != ibuf
      requires Got(d, o, delivered, out[..], start)
      modifies `delivered, next`upstream, next`script, next`last, out
      ensures InValid()
      ensures var n := if ret > 0 then ret else 0;
              && n <= outl && Got(d, o, delivered, out[..], n)
              && (ret == outl || (next.last <= 0 && (ret > 0 || ret == next.last)))
    {
      var num := start;
      while true
        invariant num < outl && InValid() && ibufLen == 0
        invariant Got(d, o, delivered, out[..], num)
        decreases outl - num
      {
        var i := ReadPast(out, num, outl, d, o);
        if i <= 0 {
          return Stopped(num, i);
        }
        num := num + i;
        if num == outl {
          return num;
        }
      }
    }

    /**
     * `buffer_read`: the bytes returned are the next of the stream, and it stops short
     * only because the next BIO did; an error shows once nothing else is left to return.
     */
    method Read(out: array<Byte>, outl: nat) returns (ret: int)
      requires InValid() && outl <= out.Length && out != ibuf && out != obuf
      modifies `ibufOff, `ibufLen, `delivered, ibuf, next`upstream, next`script, next`last, out
      ensures InValid()
      ensures var n := if ret > 0 then ret else 0;
              && n <= outl && Got(old(delivered), old(out[..]), delivered, out[..], n)
              && (ret == outl || (next.last <= 0 && (ret > 0 || ret == next.last)))
    {
      var num: nat := 0;
      ghost var d, o := delivered, out[..];
      while true
        invariant num <= outl && InValid() && (num == outl ==> outl == 0)
        invariant Got(d, o, delivered, out[..], num)
        decreases outl - num, ibufLen == 0
      {
        if ibufLen != 0 {
          var i := if ibufLen > outl - num then outl - num else ibufLen;
          Take(out, num, i, d, o);
          num := num + i;
          if num == outl {
            return num;
          }
        }
        if outl - num > ibuf.Length {
          ret := ReadDirect(out, num, outl, d, o);
          return;
        }
        var i := Fill();
        if i <= 0 {
          return Stopped(num, i);
        }
      }
    }

    // ---- writing ----

    method Append(s: seq<Byte>)
      requires OutValid() && obufOff + obufLen + |s| <= obuf.Length
      modifies `obufLen, `accepted, obuf
      ensures OutValid() && accepted == old(accepted) + s && obufLen == old(obufLen) + |s|
    {
      ghost var pending := obuf[obufOff..obufOff + obufLen];
      var at := obufOff + obufLen;
      forall j | 0 <= j < |s| { obuf[at + j] := s[j]; }
      obufLen := obufLen + |s|;
      assert obuf[obufOff..obufOff + obufLen] == pending + s;
      assert next.sent + (pending + s) == next.sent + pending + s;
      accepted := accepted + s;
    }

    /** One write of what is pending. */
    method SendPending() returns (i: int)
      requires OutValid()
      modifies `obufOff, `obufLen, next`sent, next`script, next`last
      ensures OutValid() && i == next.last && i <= old(obufLen)
      ensures obufLen == old(obufLen) - if i > 0 then i else 0
    {
      ghost var sent, pending := next.sent, obuf[obufOff..obufOff + obufLen];
      i := next.Write(obuf[obufOff..obufOff + obufLen]);
      if i > 0 {
        assert sent + pending[..i] + pending[i..] == sent + pending;
        obufOff, obufLen := obufOff + i, obufLen - i;
        assert pending[i..] == obuf[obufOff..obufOff + obufLen];
        if obufLen == 0 { obufOff := 0; }
      }
    }

    /** Writes what is pending until it is gone, or until the next BIO stops with a code. */
    method Drain() returns (i: int)
      requires OutValid()
      modifies `obufOff, `obufLen, next`sent, next`script, next`last
      ensures OutValid() && (i > 0 <==> obufLen == 0) && (i <= 0 ==> i == next.last)
    {
      i := 1;
      while obufLen > 0
        invariant OutValid()
        decreases obufLen
      {
        i := SendPending();
        if i <= 0 {
          return;
        }
      }
      i := 1;
    }

    /** Writes at least as large as the buffer go past it. */
    method WriteDirect(data: seq<Byte>, start: nat, ghost a: seq<Byte>) returns (num: nat, i: int)
      requires OutValid() && obufLen == 0 && start <= |data| && accepted == a + data[..start]
      modifies `accepted, next`sent, next`script, next`last
      ensures OutValid() && start <= num <= |data| && accepted == a + data[..num]
      ensures i > 0 ==> num == |data| || |data| - num < obuf.Length
      ensures i <= 0 ==> i == next.last
    {
      num, i := start, 1;
      while |data| - num >= obuf.Length
        invariant OutValid() && start <= num <= |data| && accepted == a + data[..num]
        decreases |data| - num
      {
        i := next.Write(data[num..]);
        if i <= 0 {
          return;
        }
        assert data[..num] + data[num..][..i] == data[..num + i];
        accepted := accepted + data[num..][..i];
        num := num + i;
      }
      i := 1;
    }

    /** Tops up the buffer with the `i` bytes it has room for, and drains it. */
    method TopUp(data: seq<Byte>, start: nat, i: nat, ghost a: seq<Byte>) returns (num: nat, r: int)
      requires OutValid() && start + i <= |data| && accepted == a + data[..start]
      requires obufOff + obufLen + i <= obuf.Length
      modifies `obufOff, `obufLen, `accepted, obuf, next`sent, next`script, next`last
      ensures OutValid() && num == start + i && accepted == a + data[..num]
      ensures (r > 0 <==> obufLen == 0) && (r <= 0 ==> r == next.last)
    {
      num := start + i;
      if i > 0 {
        assert data[..start] + data[start..num] == data[..num];
        Append(data[start..num]);
      }
      r := Drain();
    }

    /**
     * `buffer_write`: the bytes accepted follow those accepted before, and it stops
     * short only because the next BIO did.
     */
    method Write(data: seq<Byte>) returns (ret: int)
      requires OutValid()
      modifies `obufOff, `obufLen, `accepted, obuf, next`sent, next`script, next`last
      ensures OutValid()
      ensures var n := if ret > 0 then ret else 0;
              && n <= |data| && accepted == old(accepted) + data[..n]
              && (ret == |data| || (next.last <= 0 && (ret > 0 || ret == next.last)))
    {
      var num: nat := 0;
      ghost var a := accepted;
      while true
        invariant OutValid() && num <= |data| && accepted == a + data[..num]
        decreases !(obufLen == 0 && |data| - num < obuf.Length)
      {
        var i := obuf.Length - (obufOff + obufLen);
        if i >= |data| - num {
          assert data[..num] + data[num..] == data;
          Append(data[num..]);
          return |data|;
        }
        if obufLen != 0 {
          var r;
          num, r := TopUp(data, num, i, a);
          if r <= 0 {
            return Stopped(num, r);
          }
        }
        var r;
        num, r := WriteDirect(data, num, a);
        if r <= 0 {
          return Stopped(num, r);
        }
        if num == |data| {
          return num;
        }
      }
    }

    /** The flush of `buffer_ctrl`; `ctrl` is what the next BIO answers to the flush passed on. */
    method Flush(ctrl: int) returns (ret: int)
      requires OutValid()
      modifies `obufOff, `obufLen, next`sent, next`script, next`last
      ensures OutValid()
      ensures if obufLen == 0 then ret == ctrl && next.sent == accepted else ret <= 0 && ret == next.last
    {
      var r := Drain();
      if r <= 0 {
        return r;
      }
      obufOff := 0;
      return ctrl;
    }

    // ---- lines ----

    /** How much of the buffer up to `most` bytes belongs to the line, and whether the line ends there. */
    method LineEnd(most: nat) returns (i: nat, flag: bool)
      requires InValid() && most <= ibufLen
      ensures i <= most && (flag || i == most)
      ensures !flag ==> NEWLINE !in ibuf[ibufOff..ibufOff + i]
      ensures flag ==> i > 0 && ibuf[ibufOff + i - 1] == NEWLINE && NEWLINE !in ibuf[ibufOff..ibufOff + i - 1]
    {
      i, flag := 0, false;
      while i < most
        invariant i <= most && NEWLINE !in ibuf[ibufOff..ibufOff + i]
      {
        if ibuf[ibufOff + i] == NEWLINE {
          return i + 1, true;
        }
        i := i + 1;
      }
    }

    /** One buffered stretch of the line. */
    method TakeLine(buf: array<Byte>, num: nat, size: nat, ghost d: seq<Byte>, ghost o: seq<Byte>)
      returns (n: nat, flag: bool)
      requires InValid() && num + size < buf.Length && buf != ibuf && NEWLINE !in buf[..num]
      requires Got(d, o, delivered, buf[..], num)
      modifies `ibufOff, `ibufLen, `delivered, buf
      ensures InValid() && num <= n <= num + size && Got(d, o, delivered, buf[..], n)
      ensures if flag then n > 0 && buf[n - 1] == NEWLINE && NEWLINE !in buf[..n - 1] else NEWLINE !in buf[..n]
      ensures flag || n == num + old(ibufLen) || n == num + size
    {
      var i;
      i, flag := LineEnd(if ibufLen < size then ibufLen else size);
      n := num + i;
      Line(buf[..num], ibuf[ibufOff..ibufOff + i], flag);
      Take(buf, num, i, d, o);
    }

    /**
     * `buffer_gets`: the next bytes of the stream up to and with a newline, as many as
     * fit, closed by a zero; it stops before a newline only when full or when the next
     * BIO stops it.
     */
    method Gets(buf: array<Byte>, size: int) returns (ret: int)
      requires InValid() && size <= buf.Length && buf != ibuf && buf != obuf
      modifies `ibufOff, `ibufLen, `delivered, ibuf, next`upstream, next`script, next`last, buf
      ensures InValid()
      ensures size <= 0 ==> ret == 0 && delivered == old(delivered) && buf[..] == old(buf[..])
      ensures size > 0 ==>
                var n := if ret > 0 then ret else 0;
                && n < size && delivered == old(delivered) + buf[..n]
                && buf[n] == 0 && buf[n + 1..] == old(buf[n + 1..])
                && (forall k | 0 <= k < n - 1 :: buf[k] != 10)
                && ((ret == n && (n == size - 1 || (n > 0 && buf[n - 1] == 10)))
                    || (next.last <= 0 && (ret > 0 || ret == next.last)))
    {
      if size <= 0 { return 0; }
      var num: nat := 0;
      ghost var d, o := delivered, buf[..];
      while true
        invariant num <= size - 1 && InValid() && NEWLINE !in buf[..num]
        invariant Got(d, o, delivered, buf[..], num)
        decreases size - num, ibufLen == 0
      {
        if ibufLen > 0 {
          var flag;
          num, flag := TakeLine(buf, num, size - 1 - num, d, o);
          if flag || num == size - 1 {
            buf[num] := 0;
            return num;
          }
        } else {
          var i := Fill();
          if i <= 0 {
            buf[num] := 0;
            return Stopped(num, i);
          }
        }
      }
    }
  }
}
