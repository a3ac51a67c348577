/**
 * MD5 as a stream (`breakpad/common/md5.cc`) on a little-endian machine, over any
 * compression function.
 */
module Md5 {
  import opened Bytes

  datatype Words = Words(a: Uint32, b: Uint32, c: Uint32, d: Uint32)

  const INITIAL := Words(0x67452301, 0xefcdab89, 0x98badcfe, 0x10325476)

  /** The compression function: the four words and a 64-byte block. */
  type Transform = (Words, seq<Byte>) -> Words

  // ---- the digest of a whole message ----

  /** The compression function folded over blocks of 64 bytes. */
  function Fold(f: Transform, h: Words, s: seq<Byte>): Words
    requires |s| % 64 == 0
    decreases |s|
  {
    if s == [] then h else Fold(f, f(h, s[..64]), s[64..])
  }

  function Zeros(n: nat): (s: seq<Byte>)
    ensures |s| == n
  {
    seq(n, _ => 0)
  }

  function Le32(x: Uint32): seq<Byte> {
    [x % 256, x / 256 % 256, x / 65536 % 256, x / 16777216]
  }

  /** Sections 3.1 and 3.2 of RFC 1321: a one bit, zeros up to 56 modulo 64, and the length in bits, low word first. */
  function Padded(m: seq<Byte>): (s: seq<Byte>)
    ensures |s| % 64 == 0
  {
    PadLength(|m|);
    m + [0x80] + Zeros((55 - |m|) % 64) + Length64(8 * |m| % TWO_64)
  }

  function Length64(bits: Uint64): (s: seq<Byte>)
    ensures |s| == 8
  {
    Le32(bits % TWO_32) + Le32(bits / TWO_32)
  }

  lemma PadLength(n: nat)
    ensures (n + 1 + (55 - n) % 64 + 8) % 64 == 0
  {
    var k, z := (55 - n) / 64, (55 - n) % 64;
    assert 55 - n == 64 * k + z;
    assert n + 1 + z + 8 == 64 * (1 - k);
  }

  function Digest(f: Transform, m: seq<Byte>): seq<Byte> {
    Output(Fold(f, INITIAL, Padded(m)))
  }

  function Output(h: Words): seq<Byte> {
    Le32(h.a) + Le32(h.b) + Le32(h.c) + Le32(h.d)
  }

  // ---- what these are, said without them ----

  /** The value of a little-endian byte string. */
  function LittleEndian(s: seq<Byte>): nat {
    if s == [] then 0 else s[0] + 256 * LittleEndian(s[1..])
  }

  lemma FourBytes(s: seq<Byte>)
    requires |s| == 4
    ensures LittleEndian(s) == s[0] + 0x100 * s[1] as int + 0x1_0000 * s[2] as int + 0x100_0000 * s[3] as int
  {
    assert s[3..][1..] == [] && s[2..][1..] == s[3..] && s[1..][1..] == s[2..];
    assert LittleEndian(s[3..]) == s[3];
    assert LittleEndian(s[2..]) == s[2] + 0x100 * s[3] as int;
    assert LittleEndian(s[1..]) == s[1] + 0x100 * s[2] as int + 0x1_0000 * s[3] as int;
  }

  lemma Le32Value(x: Uint32)
    ensures LittleEndian(Le32(x)) == x
  {
    FourBytes(Le32(x));
    var y, z := x / 0x100, x / 0x1_0000;
    assert x == 0x100 * y + x % 0x100 && y == 0x100 * (y / 0x100) + y % 0x100;
    assert z == y / 0x100 && z == 0x100 * (z / 0x100) + z % 0x100 && x / 0x100_0000 == z / 0x100;
  }

  lemma {:induction false} LittleEndianAppend(a: seq<Byte>, b: seq<Byte>)
    requires |a| == 4
    ensures LittleEndian(a + b) == LittleEndian(a) + TWO_32 * LittleEndian(b)
  {
    FourBytes(a);
    var s := a + b;
    assert s[4..] == b && s[3..][1..] == s[4..] && s[2..][1..] == s[3..] && s[1..][1..] == s[2..];
    assert LittleEndian(s[3..]) == s[3] + 256 * LittleEndian(b);
    assert LittleEndian(s[2..]) == s[2] + 256 * LittleEndian(s[3..]);
    assert LittleEndian(s[1..]) == s[1] + 256 * LittleEndian(s[2..]);
  }

  lemma Length64Value(bits: Uint64)
    ensures LittleEndian(Length64(bits)) == bits
  {
    Le32Value(bits % TWO_32);
    Le32Value(bits / TWO_32);
    LittleEndianAppend(Le32(bits % TWO_32), Le32(bits / TWO_32));
  }

  /** The four words of a digest. */
  function WordsOf(d: seq<Byte>): (nat, nat, nat, nat)
    requires |d| == 16
  {
    (LittleEndian(d[..4]), LittleEndian(d[4..8]), LittleEndian(d[8..12]), LittleEndian(d[12..]))
  }

  lemma OutputWords(h: Words)
    ensures |Output(h)| == 16 && WordsOf(Output(h)) == (h.a, h.b, h.c, h.d)
  {
    var d := Output(h);
    assert d[..4] == Le32(h.a) && d[4..8] == Le32(h.b) && d[8..12] == Le32(h.c) && d[12..] == Le32(h.d);
    Le32Value(h.a);
    Le32Value(h.b);
    Le32Value(h.c);
    Le32Value(h.d);
  }

  lemma {:induction false} FoldKeeps(f: Transform, h: Words, s: seq<Byte>)
    requires |s| % 64 == 0 && forall b :: f(h, b) == h
    ensures Fold(f, h, s) == h
    decreases |s|
  {
    if s != [] {
      FoldKeeps(f, h, s[64..]);
    }
  }

  /** Under a transform that keeps its words every digest is the sixteen bytes of section 3.3 of RFC 1321. */
  lemma DigestKept(f: Transform, m: seq<Byte>)
    requires forall h, b :: f(h, b) == h
    ensures Digest(f, m) == [0x01, 0x23, 0x45, 0x67, 0x89, 0xAB, 0xCD, 0xEF, 0xFE, 0xDC, 0xBA, 0x98, 0x76, 0x54, 0x32, 0x10]
  {
    FoldKeeps(f, INITIAL, Padded(m));
    assert Le32(0x67452301) == [0x01, 0x23, 0x45, 0x67] && Le32(0xefcdab89) == [0x89, 0xAB, 0xCD, 0xEF];
    assert Le32(0x98badcfe) == [0xFE, 0xDC, 0xBA, 0x98] && Le32(0x10325476) == [0x76, 0x54, 0x32, 0x10];
  }

  /** The padding: a one bit, fewer than 64 bytes of zeros, and the length in bits, up to a whole number of blocks. */
  lemma PaddedExactly(m: seq<Byte>)
    ensures var p := Padded(m);
            && |p| % 64 == 0 && |m| + 9 <= |p| < |m| + 9 + 64
            && p[..|m|] == m && p[|m|] == 0x80
            && (forall k | |m| < k < |p| - 8 :: p[k] == 0)
            && LittleEndian(p[|p| - 8..]) == 8 * |m| % TWO_64
  {
    var length := Length64(8 * |m| % TWO_64);
    Length64Value(8 * |m| % TWO_64);
    assert Padded(m)[|Padded(m)| - 8..] == length;
  }

  /** What is folded in last. */
  lemma {:induction false} FoldLast(f: Transform, h: Words, s: seq<Byte>)
    requires |s| % 64 == 0 && s != [] && forall g, g', b :: f(g, b) == f(g', b)
    ensures |s| >= 64 && Fold(f, h, s) == f(h, s[|s| - 64..])
    decreases |s|
  {
    if |s| == 64 {
      assert s[..64] == s && s[0..] == s && s[64..] == [];
    } else {
      FoldLast(f, f(h, s[..64]), s[64..]);
      assert s[64..][|s| - 128..] == s[|s| - 64..];
    }
  }

  /**
   * Under a transform that looks at its block only, the four words of the digest are what
   * it makes of the last block, whose last eight bytes are the length in bits.
   */
  lemma DigestOfLastBlock(f: Transform, m: seq<Byte>, g: Words)
    requires forall h, h', b :: f(h, b) == f(h', b)
    ensures |Padded(m)| >= 64 && |Digest(f, m)| == 16
    ensures var last := Padded(m)[|Padded(m)| - 64..];
            WordsOf(Digest(f, m)) == (f(g, last).a, f(g, last).b, f(g, last).c, f(g, last).d)
            && LittleEndian(last[56..]) == 8 * |m| % TWO_64
  {
    var p := Padded(m);
    PaddedExactly(m);
    FoldLast(f, INITIAL, p);
    OutputWords(f(INITIAL, p[|p| - 64..]));
    assert p[|p| - 64..][56..] == p[|p| - 8..];
  }

  lemma {:induction false} FoldAppend(f: Transform, h: Words, a: seq<Byte>, b: seq<Byte>)
    requires |a| % 64 == 0 && |b| % 64 == 0
    ensures |a + b| % 64 == 0 && Fold(f, h, a + b) == Fold(f, Fold(f, h, a), b)
    decreases |a|
  {
    if a == [] {
      assert a + b == b;
    } else {
      assert (a + b)[..64] == a[..64] && (a + b)[64..] == a[64..] + b;
      FoldAppend(f, f(h, a[..64]), a[64..], b);
    }
  }

  // ---- the bit count ----

  /** The count in two words, as `MD5Update` adds to it. */
  function AddBits(low: Uint32, high: Uint32, len: Uint64): (Uint32, Uint32) {
    var low' := (low + len % TWO_32 * 8) % TWO_32;
    var carried := if low' < low then (high + 1) % TWO_32 else high;
    (low', (carried + len / 0x2000_0000) % TWO_32)
  }

  lemma LowBits(low: Uint32, len: Uint64)
    ensures (low + len % TWO_32 * 8) % TWO_32 == (low + 8 * (len % 0x2000_0000)) % TWO_32
  {
    var q, r := len / 0x2000_0000, len % 0x2000_0000;
    ModUnique(len, TWO_32, q / 8, q % 8 * 0x2000_0000 + r);
    var x := low + 8 * r;
    ModUnique(low + len % TWO_32 * 8, TWO_32, q % 8 + x / TWO_32, x % TWO_32);
  }

  lemma Wide(low: Uint32, high: nat)
    ensures (low + TWO_32 * high) % TWO_64 == low + TWO_32 * (high % TWO_32)
  {
    ModUnique(low + TWO_32 * high, TWO_64, high / TWO_32, low + TWO_32 * (high % TWO_32));
  }

  /** Carry and all, the two words count modulo 2^64. */
  lemma AddBitsAdds(low: Uint32, high: Uint32, len: Uint64)
    ensures var (l, h) := AddBits(low, high, len);
            l + TWO_32 * h == (low + TWO_32 * high + 8 * len) % TWO_64
  {
    LowBits(low, len);
    var q, r := len / 0x2000_0000, len % 0x2000_0000;
    var x := low + 8 * r;
    var carry := if x >= TWO_32 then 1 else 0;
    assert x % TWO_32 == x - TWO_32 * carry;
    Wide(x % TWO_32, high + carry + q);
    assert low + TWO_32 * high + 8 * len == x % TWO_32 + TWO_32 * (high + carry + q);
    CarryOnce(high, carry, q);
  }

  lemma CarryOnce(high: Uint32, carry: nat, q: nat)
    requires carry <= 1
    ensures ((high + carry) % TWO_32 + q) % TWO_32 == (high + carry + q) % TWO_32
  {
    var y := (high + carry) % TWO_32 + q;
    ModUnique(high + carry + q, TWO_32, (high + carry) / TWO_32 + y / TWO_32, y % TWO_32);
  }

  // ---- the context ----

  /** Whole blocks of the message are folded; what is over is at the front of the input block. */
  ghost predicate Absorbed(f: Transform, message: seq<Byte>, buf: Words, input: seq<Byte>) {
    var n := |message| - |message| % 64;
    && |input| == 64
    && buf == Fold(f, INITIAL, message[..n])
    && input[..|message| % 64] == message[n..]
  }

  /** Fewer bytes than fill the block only join the front of it. */
  lemma AbsorbFew(f: Transform, m: seq<Byte>, buf: Words, input: seq<Byte>, data: seq<Byte>, input': seq<Byte>)
    requires Absorbed(f, m, buf, input)
    requires var t := |m| % 64; t + |data| < 64 && |input'| == 64 && input'[..t + |data|] == input[..t] + data
    ensures Absorbed(f, m + data, buf, input')
  {
    var t, n := |m| % 64, |m| - |m| % 64;
    ModUnique(|m + data|, 64, |m| / 64, t + |data|);
    assert (m + data)[..n] == m[..n] && (m + data)[n..] == m[n..] + data;
  }

  /** The bytes that complete the block let it be folded in. */
  lemma AbsorbBlock(f: Transform, m: seq<Byte>, buf: Words, input: seq<Byte>, data: seq<Byte>, block: seq<Byte>)
    requires Absorbed(f, m, buf, input)
    requires |m| % 64 + |data| == 64 && block == input[..|m| % 64] + data
    ensures |m + data| % 64 == 0 && forall any: seq<Byte> | |any| == 64 :: Absorbed(f, m + data, f(buf, block), any)
  {
    var n := |m| - |m| % 64;
    ModUnique(|m + data|, 64, |m| / 64 + 1, 0);
    assert m + data == m[..n] + block;
    FoldAppend(f, INITIAL, m[..n], block);
    assert block[..64] == block && block[64..] == [];
    assert (m + data)[..|m + data|] == m + data;
  }

  lemma CountModulo(low: Uint32, high: Uint32, n: nat)
    requires low + TWO_32 * high == 8 * n % TWO_64
    ensures low / 8 % 64 == n % 64
  {
    var q := 8 * n / TWO_64;
    assert 8 * n == TWO_64 * q + TWO_32 * high + low;
    assert n == (TWO_64 / 8) * q + (TWO_32 / 8) * high + low / 8;
    var k := (TWO_64 / 512) * q + (TWO_32 / 512) * high + low / 8 / 64;
    ModUnique(n, 64, k, low / 8 % 64);
  }

  class Context {
    const f: Transform
    const input: array<Byte>
    var buf: Words
    var bits0: Uint32
    var bits1: Uint32
    /** Everything taken in since the start. */
    ghost var message: seq<Byte>

    ghost predicate Valid()
      reads this, input
    {
      && input.Length == 64
      && bits0 + TWO_32 * bits1 == 8 * |message| % TWO_64
      && Absorbed(f, message, buf, input[..])
    }

    /** `MD5Init`. */
    constructor (f: Transform)
      ensures Valid() && this.f == f && message == [] && fresh(input)
    {
      this.f, input := f, new Byte[64];
      buf, bits0, bits1, message := INITIAL, 0, 0, [];
    }

    method Count(len: nat)
      requires bits0 + TWO_32 * bits1 == 8 * |message| % TWO_64 && len < TWO_64
      modifies `bits0, `bits1
      ensures bits0 + TWO_32 * bits1 == 8 * (|message| + len) % TWO_64
    {
      AddBitsAdds(bits0, bits1, len);
      CountGrows(bits0, bits1, |message|, len);
      var (low, high) := AddBits(bits0, bits1, len);
      bits0, bits1 := low, high;
    }

    /** The `t` bytes over and the bytes that complete the block are folded in. */
    method FillBlock(t: nat, data: seq<Byte>)
      requires t == |message| % 64 && t + |data| == 64 && Absorbed(f, message, buf, input[..])
      modifies `buf, `message, input
      ensures message == old(message) + data && |message| % 64 == 0 && Absorbed(f, message, buf, input[..])
    {
      ghost var before := input[..];
      Copy(input, t, data);
      assert input[..] == before[..t] + data;
      AbsorbBlock(f, message, buf, before, data, input[..]);
      buf := f(buf, input[..]);
      message := message + data;
    }

    /** Bytes that do not fill the block are kept for later. */
    method Keep(t: nat, data: seq<Byte>)
      requires t == |message| % 64 && t + |data| < 64 && Absorbed(f, message, buf, input[..])
      modifies `message, input
      ensures message == old(message) + data && Absorbed(f, message, buf, input[..])
    {
      ghost var before := input[..];
      Copy(input, t, data);
      assert input[..t + |data|] == before[..t] + data;
      AbsorbFew(f, message, buf, before, data, input[..]);
      message := message + data;
    }

    /** Whole blocks of the data, then what is over, when nothing was. */
    method Blocks(data: seq<Byte>)
      requires |message| % 64 == 0 && Absorbed(f, message, buf, input[..])
      modifies `buf, `message, input
      ensures message == old(message) + data && Absorbed(f, message, buf, input[..])
    {
      var k: nat := 0;
      ghost var m := message;
      while |data| - k >= 64
        invariant k <= |data| && message == m + data[..k]
        invariant |message| % 64 == 0 && Absorbed(f, message, buf, input[..])
      {
        FillBlock(0, data[k..k + 64]);
        Grown(m, data, k, k + 64);
        k := k + 64;
      }
      Keep(0, data[k..]);
      Grown(m, data, k, |data|);
    }

    /** `MD5Update`: the message grows by the data, however it is cut. */
    method Update(data: seq<Byte>)
      requires Valid() && |data| < TWO_64
      modifies this, input
      ensures Valid() && message == old(message) + data
    {
      CountModulo(bits0, bits1, |message|);
      var t := bits0 / 8 % 64;
      Count(|data|);
      if t > 0 {
        var room := 64 - t;
        if |data| < room {
          Keep(t, data);
          return;
        }
        FillBlock(t, data[..room]);
        Blocks(data[room..]);
        assert old(message) + data[..room] + data[room..] == old(message) + data;
      } else {
        Blocks(data);
      }
    }

    /** The one bit and zeros, `count` of them, behind the `t` bytes of the block. */
    method PadBlock(t: nat, count: nat)
      requires input.Length == 64 && t + 1 + count <= 64
      modifies input
      ensures input[..t + 1 + count] == old(input[..t]) + [0x80] + Zeros(count)
      ensures t + 1 + count == 64 ==> input[..] == old(input[..t]) + [0x80] + Zeros(count)
    {
      ghost var before := input[..];
      Copy(input, t, [0x80]);
      ghost var mid := input[..];
      Copy(input, t + 1, Zeros(count));
      TwoCopies(before, mid, input[..], t, [0x80], Zeros(count));
    }

    /** The block filled with the end of the padding: folded alone when the length still fits, or after the one before. */
    method Pad(t: nat)
      requires t == |message| % 64 && Absorbed(f, message, buf, input[..])
      modifies `buf, input
      ensures input.Length == 64
      ensures Fold(f, INITIAL, Padded(message)) == f(buf, input[..56] + Length64(8 * |message| % TWO_64))
    {
      ghost var over, length := input[..t], Length64(8 * |message| % TWO_64);
      LastBlocks(f, message, buf, over);
      FoldEnding(f, buf, over, length);
      var count := 63 - t;
      if count < 8 {
        PadBlock(t, count);
        buf := f(buf, input[..]);
        Copy(input, 0, Zeros(56));
      } else {
        PadBlock(t, count - 8);
      }
    }

    /** `MD5Final`: the digest of all that was taken in; the context is wiped. */
    method Final() returns (digest: seq<Byte>)
      requires Valid()
      modifies this, input
      ensures digest == Digest(f, old(message))
      ensures bits0 == 0 && bits1 == 0 && buf == Words(0, 0, 0, 0) && input[..] == Zeros(64)
    {
      CountModulo(bits0, bits1, |message|);
      Pad(bits0 / 8 % 64);
      LengthWords(bits0, bits1, 8 * |message| % TWO_64);
      Copy(input, 56, Le32(bits0) + Le32(bits1));
      assert input[..] == input[..56] + (Le32(bits0) + Le32(bits1));
      buf := f(buf, input[..]);
      digest := Output(buf);
      Copy(input, 0, Zeros(64));
      bits0, bits1, buf := 0, 0, Words(0, 0, 0, 0);
    }
  }

  lemma TwoCopies(before: seq<Byte>, mid: seq<Byte>, now: seq<Byte>, t: nat, a: seq<Byte>, b: seq<Byte>)
    requires t + |a| + |b| <= |before| == |mid| == |now|
    requires mid[..t] == before[..t] && mid[t..t + |a|] == a
    requires now[..t + |a|] == mid[..t + |a|] && now[t + |a|..t + |a| + |b|] == b
    ensures now[..t + |a| + |b|] == before[..t] + a + b
    ensures t + |a| + |b| == |now| ==> now == before[..t] + a + b
  {
    var i := t + |a|;
    assert mid[..i] == mid[..t] + mid[t..i];
    assert now[..i + |b|] == now[..i] + now[i..i + |b|];
  }

  lemma LengthWords(low: Uint32, high: Uint32, bits: Uint64)
    requires low + TWO_32 * high == bits
    ensures Length64(bits) == Le32(low) + Le32(high)
  {
    ModUnique(bits, TWO_32, high, low);
  }

  lemma PaddedTail(f: Transform, a: seq<Byte>, rest: seq<Byte>, padded: seq<Byte>)
    requires |a| % 64 == 0 && |rest| % 64 == 0 && padded == a + rest
    ensures |padded| % 64 == 0 && Fold(f, INITIAL, padded) == Fold(f, Fold(f, INITIAL, a), rest)
  {
    FoldAppend(f, INITIAL, a, rest);
  }

  /** How much padding the `t` bytes over the whole blocks get. */
  lemma PadCount(n: nat, t: nat)
    requires n % 64 == 0 && t < 64
    ensures (55 - (n + t)) % 64 == if t <= 55 then 55 - t else 119 - t
  {
    var q := n / 64;
    ModUnique(55 - (n + t), 64, if t <= 55 then -q else -q - 1, if t <= 55 then 55 - t else 119 - t);
  }

  /** The padding joined to the `over` bytes: it ends one block, or two. */
  function Ending(over: seq<Byte>, length: seq<Byte>): seq<Byte>
    requires |over| < 64
  {
    over + [0x80] + Zeros(if |over| <= 55 then 55 - |over| else 119 - |over|) + length
  }

  lemma PaddedIs(m: seq<Byte>, n: nat)
    requires n <= |m| < n + 64 && n % 64 == 0
    ensures Padded(m) == m[..n] + Ending(m[n..], Length64(8 * |m| % TWO_64))
  {
    PadCount(n, |m| - n);
    assert m == m[..n] + m[n..];
  }

  lemma OneBlock(f: Transform, h: Words, block: seq<Byte>)
    requires |block| == 64
    ensures Fold(f, h, block) == f(h, block)
  {
    assert block[..64] == block && block[64..] == [];
  }

  lemma FoldEnding(f: Transform, h: Words, over: seq<Byte>, length: seq<Byte>)
    requires |over| < 64 && |length| == 8
    ensures |Ending(over, length)| % 64 == 0
    ensures |over| <= 55 ==>
              Fold(f, h, Ending(over, length)) == f(h, over + [0x80] + Zeros(55 - |over|) + length)
    ensures |over| > 55 ==>
              Fold(f, h, Ending(over, length)) == f(f(h, over + [0x80] + Zeros(63 - |over|)), Zeros(56) + length)
  {
    if |over| <= 55 {
      OneBlock(f, h, Ending(over, length));
    } else {
      var first, second := over + [0x80] + Zeros(63 - |over|), Zeros(56) + length;
      assert Zeros(119 - |over|) == Zeros(63 - |over|) + Zeros(56);
      assert Ending(over, length) == first + second;
      FoldAppend(f, h, first, second);
      OneBlock(f, h, first);
      OneBlock(f, f(h, first), second);
    }
  }

  /** The last one or two blocks of the padded message. */
  lemma LastBlocks(f: Transform, m: seq<Byte>, buf: Words, over: seq<Byte>)
    requires var n := |m| - |m| % 64; buf == Fold(f, INITIAL, m[..n]) && over == m[n..]
    ensures |over| == |m| % 64 && |Ending(over, Length64(8 * |m| % TWO_64))| % 64 == 0
    ensures Fold(f, INITIAL, Padded(m)) == Fold(f, buf, Ending(over, Length64(8 * |m| % TWO_64)))
  {
    var n := |m| - |m| % 64;
    PaddedIs(m, n);
    FoldEnding(f, buf, over, Length64(8 * |m| % TWO_64));
    PaddedTail(f, m[..n], Ending(over, Length64(8 * |m| % TWO_64)), Padded(m));
  }

  /** A message cut anyhow into updates: the digest is that of the whole. */
  method DigestOf(f: Transform, pieces: seq<seq<Byte>>) returns (digest: seq<Byte>)
    requires forall k | 0 <= k < |pieces| :: |pieces[k]| < TWO_64
    ensures digest == Digest(f, Flatten(pieces))
  {
    var ctx := new Context(f);
    for k := 0 to |pieces|
      invariant ctx.Valid() && ctx.f == f && fresh(ctx) && fresh(ctx.input) && ctx.message == Flatten(pieces[..k])
    {
      ctx.Update(pieces[k]);
      FlattenNext(pieces, k);
    }
    assert pieces[..|pieces|] == pieces;
    digest := ctx.Final();
  }

  lemma Grown(m: seq<Byte>, data: seq<Byte>, i: nat, j: nat)
    requires i <= j <= |data|
    ensures m + data[..i] + data[i..j] == m + data[..j]
    ensures data[..|data|] == data && data[i..|data|] == data[i..]
  {
  }

  lemma CountGrows(low: Uint32, high: Uint32, n: nat, len: nat)
    requires low + TWO_32 * high == 8 * n % TWO_64
    ensures (low + TWO_32 * high + 8 * len) % TWO_64 == 8 * (n + len) % TWO_64
  {
    var x := low + TWO_32 * high + 8 * len;
    ModUnique(8 * (n + len), TWO_64, 8 * n / TWO_64 + x / TWO_64, x % TWO_64);
  }
}
