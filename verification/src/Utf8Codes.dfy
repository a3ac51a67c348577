/**
 * Single UTF-8 characters of up to six bytes, as in section 2 of RFC 2279
 * (`asn1/a_utf8.c`). Masks and shifts are written as remainders and quotients.
 */
module Utf8Codes {
  import opened Bytes

  const TWO_31: int := 0x8000_0000

  predicate Tail(b: Byte) { b / 0x40 == 2 }

  predicate Tails(s: seq<Byte>) { forall k | 0 <= k < |s| :: Tail(s[k]) }

  /** How long the first byte says the character is; 0 for a byte that starts none. */
  function Need(lead: Byte): nat {
    if lead < 0x80 then 1 else if lead / 0x20 == 6 then 2 else if lead / 0x10 == 14 then 3
    else if lead / 8 == 30 then 4 else if lead / 4 == 62 then 5 else if lead / 2 == 126 then 6 else 0
  }

  /** The bits of the first byte that tell the length, and the least value of that length. */
  const MARK: seq<int> := [0, 0, 0xC0, 0xE0, 0xF0, 0xF8, 0xFC]
  const LEAST: seq<int> := [0, 0, 0x80, 0x800, 0x1_0000, 0x20_0000, 0x400_0000, TWO_31]

  /** Six more bits from each following byte. */
  function Extend(a: nat, tails: seq<Byte>): nat {
    if tails == [] then a else 64 * Extend(a, tails[..|tails| - 1]) + tails[|tails| - 1] % 64
  }

  datatype Got = Got(ret: int, value: nat)

  /** What `UTF8_getc` returns and stores; an error stores nothing. */
  function Get(s: seq<Byte>): Got {
    if s == [] then Got(0, 0)
    else
      var n := Need(s[0]);
      if n == 0 then Got(-2, 0)
      else if |s| < n then Got(-1, 0)
      else if !Tails(s[1..n]) then Got(-3, 0)
      else
        var value := Extend(s[0] - MARK[n], s[1..n]);
        if value < LEAST[n] then Got(-4, 0) else Got(n, value)
  }

  function Size(value: nat): (n: nat)
    ensures 1 <= n <= 6
  {
    if value < 0x80 then 1 else if value < 0x800 then 2 else if value < 0x1_0000 then 3
    else if value < 0x20_0000 then 4 else if value < 0x400_0000 then 5 else 6
  }

  function Top(value: nat, k: nat): nat {
    if k == 0 then value else Top(value / 64, k - 1)
  }

  function Low(value: nat, k: nat): (s: seq<Byte>)
    ensures |s| == k
  {
    if k == 0 then [] else Low(value / 64, k - 1) + [0x80 + value % 64]
  }

  /** The bytes `UTF8_putc` writes; a value of 2^31 or more loses its upper bits. */
  function Put(value: nat): (s: seq<Byte>)
    ensures |s| == Size(value)
  {
    var n := Size(value);
    TopFits(value % TWO_31, n);
    [MARK[n] + Top(value % TWO_31, n - 1)] + Low(value, n - 1)
  }

  /** What is left for the first byte fits beside its mark, and then the mark can be read off. */
  lemma TopFits(value: nat, n: nat)
    requires 1 <= n <= 6 && value < LEAST[n + 1]
    ensures MARK[n] + Top(value, n - 1) < 256
  {
    TopBelow(value, n - 1, [128, 32, 16, 8, 4, 2][n - 1]);
  }

  lemma TopMarks(value: nat, n: nat)
    requires 1 <= n <= 6 && value < LEAST[n + 1]
    ensures MARK[n] + Top(value, n - 1) < 256 && Need(MARK[n] + Top(value, n - 1)) == n
  {
    TopBelow(value, n - 1, [128, 32, 16, 8, 4, 2][n - 1]);
  }

  lemma {:induction false} TopBelow(value: nat, k: nat, b: nat)
    requires k <= 5 && value < [b, 64 * b, 4096 * b, 0x4_0000 * b, 0x100_0000 * b, 0x4000_0000 * b][k]
    ensures Top(value, k) < b
  {
    if k > 0 { TopBelow(value / 64, k - 1, b); }
  }

  lemma LowTails(value: nat, k: nat)
    ensures Tails(Low(value, k))
  {
  }

  lemma {:induction false} ExtendLow(value: nat, k: nat)
    ensures Extend(Top(value, k), Low(value, k)) == value
  {
    if k > 0 {
      ExtendLow(value / 64, k - 1);
      assert Low(value, k)[..k - 1] == Low(value / 64, k - 1);
    }
  }

  lemma {:induction false} LowExtend(a: nat, tails: seq<Byte>)
    requires Tails(tails)
    ensures Top(Extend(a, tails), |tails|) == a && Low(Extend(a, tails), |tails|) == tails
  {
    if tails != [] {
      var rest := tails[..|tails| - 1];
      LowExtend(a, rest);
      assert Extend(a, tails) / 64 == Extend(a, rest);
      assert tails == rest + [tails[|tails| - 1]];
    }
  }

  function Pow64(k: nat): nat { if k == 0 then 1 else 64 * Pow64(k - 1) }

  lemma {:induction false} LowPeriodic(value: nat, p: nat, k: nat)
    ensures Low(value + Pow64(k) * p, k) == Low(value, k)
  {
    if k > 0 {
      var z := Pow64(k - 1) * p;
      assert Pow64(k) * p == 64 * z;
      LowPeriodic(value / 64, p, k - 1);
    }
  }

  lemma LowDrops(value: nat)
    ensures Low(value, 5) == Low(value % TWO_31, 5)
  {
    LowPeriodic(value % TWO_31, 2 * (value / TWO_31), 5);
    assert Pow64(5) == 0x4000_0000;
  }

  // ---- mutually inverse ----

  lemma PutParts(value: nat, n: nat)
    requires n == Size(value)
    ensures MARK[n] + Top(value % TWO_31, n - 1) < 256 && Need(MARK[n] + Top(value % TWO_31, n - 1)) == n
    ensures Put(value) == [MARK[n] + Top(value % TWO_31, n - 1)] + Low(value % TWO_31, n - 1)
  {
    TopMarks(value % TWO_31, n);
    if n == 6 { LowDrops(value); }
  }

  lemma Starts(lead: Byte, low: seq<Byte>, rest: seq<Byte>)
    ensures var s := [lead] + low + rest; s[0] == lead && s[1..|low| + 1] == low
  {
  }

  lemma PutStarts(value: nat, n: nat, rest: seq<Byte>)
    requires n == Size(value)
    ensures var s := Put(value) + rest;
            Need(s[0]) == n <= |s| && s[0] == MARK[n] + Top(value % TWO_31, n - 1) && s[1..n] == Low(value % TWO_31, n - 1)
  {
    PutParts(value, n);
    Starts(MARK[n] + Top(value % TWO_31, n - 1), Low(value % TWO_31, n - 1), rest);
  }

  lemma GetPut(value: nat, rest: seq<Byte>)
    ensures var n, v := Size(value), value % TWO_31;
            Get(Put(value) + rest) == if v < LEAST[n] then Got(-4, 0) else Got(n, v)
  {
    var n, v := Size(value), value % TWO_31;
    PutStarts(value, n, rest);
    LowTails(v, n - 1);
    ExtendLow(v, n - 1);
    GetFrom(Put(value) + rest, n, Top(v, n - 1), Low(v, n - 1));
  }

  lemma GetFrom(s: seq<Byte>, n: nat, a: nat, tails: seq<Byte>)
    requires 1 <= n <= |s| && n <= 6 && Need(s[0]) == n && s[0] == MARK[n] + a && s[1..n] == tails && Tails(tails)
    ensures var v := Extend(a, tails); Get(s) == if v < LEAST[n] then Got(-4, 0) else Got(n, v)
  {
  }

  /** The first byte of a character starts with no one bit or with two to six, and then there are that many bytes. */
  lemma NeedCounts(lead: Byte)
    ensures Need(lead) == var n := LeadingOnes(lead); if n == 0 then 1 else if 2 <= n <= 6 then n else 0
  {
    LeadingOnesTable(lead);
  }

  /** One of the bytes behind the first is no following byte. */
  predicate Broken(s: seq<Byte>, n: nat)
    requires n <= |s|
  {
    exists k :: 1 <= k < n && !(0x80 <= s[k] < 0xC0)
  }

  /** The first two bytes show that a shorter form would do. */
  predicate Overlong(lead: Byte, second: Byte) {
    || lead == 0xC0 || lead == 0xC1 || (lead == 0xE0 && second < 0xA0) || (lead == 0xF0 && second < 0x90)
    || (lead == 0xF8 && second < 0x88) || (lead == 0xFC && second < 0x84)
  }

  lemma {:induction false} ExtendBounds(a: nat, tails: seq<Byte>)
    ensures Pow64(|tails|) * a <= Extend(a, tails) < Pow64(|tails|) * (a + 1)
  {
    if tails != [] {
      var k := |tails| - 1;
      ExtendBounds(a, tails[..k]);
      assert Pow64(k + 1) * a == 64 * (Pow64(k) * a) && Pow64(k + 1) * (a + 1) == 64 * (Pow64(k) * (a + 1));
    }
  }

  lemma {:induction false} ExtendFirst(a: nat, tails: seq<Byte>)
    requires tails != []
    ensures Extend(a, tails) == Extend(64 * a + tails[0] % 64, tails[1..])
  {
    var k := |tails| - 1;
    if k > 0 {
      ExtendFirst(a, tails[..k]);
      assert tails[..k][1..] == tails[1..][..k - 1];
    } else {
      assert tails[..k] == [] == tails[1..];
    }
  }

  lemma Powers()
    ensures Pow64(0) == 1 && Pow64(1) == 64 && Pow64(2) == 4096 && Pow64(3) == 0x4_0000 && Pow64(4) == 0x100_0000
  {
    assert Pow64(2) == 64 * Pow64(1);
    assert Pow64(3) == 64 * Pow64(2);
    assert Pow64(4) == 64 * Pow64(3);
  }

  lemma Scaled(p: nat, b: nat, v: nat, q: nat)
    requires p * b <= v < p * (b + 1)
    ensures v < p * q <==> b < q
  {
    if b < q { assert p * (b + 1) <= p * q; } else { assert p * q <= p * b; }
  }

  lemma OverlongBytes(lead: Byte, second: Byte, n: nat)
    requires 2 <= n <= 6 && Need(lead) == n && Tail(second)
    ensures 64 * (lead - MARK[n]) + second % 64 < [128, 32, 16, 8, 4][n - 2] <==> Overlong(lead, second)
  {
  }

  lemma OverlongExactly(s: seq<Byte>, n: nat)
    requires 1 <= n <= |s| && n <= 6 && Need(s[0]) == n && Tails(s[1..n])
    ensures Extend(s[0] - MARK[n], s[1..n]) < LEAST[n] <==> n >= 2 && Overlong(s[0], s[1])
  {
    var a, tails := s[0] - MARK[n], s[1..n];
    if n >= 2 {
      assert tails[0] == s[1] && Tail(tails[0]);
      ExtendFirst(a, tails);
      var b, q := 64 * a + s[1] % 64, [128, 32, 16, 8, 4][n - 2];
      ExtendBounds(b, tails[1..]);
      Scaled(Pow64(n - 2), b, Extend(b, tails[1..]), q);
      assert Pow64(n - 2) * q == LEAST[n] by { Powers(); }
      OverlongBytes(s[0], s[1], n);
    }
  }

  /** The codes of refusal: each exactly for its reason, looked for in this order. */
  lemma RefusedExactly(s: seq<Byte>)
    ensures Get(s).ret == 0 <==> s == []
    ensures s != [] ==>
      var g, ones := Get(s), LeadingOnes(s[0]);
      var n := if ones == 0 then 1 else ones;
      && (g.ret == -2 <==> ones == 1 || ones > 6)
      && (g.ret == -1 <==> ones != 1 && ones <= 6 && |s| < n)
      && (g.ret == -3 <==> ones != 1 && ones <= 6 && n <= |s| && Broken(s, n))
      && (g.ret == -4 <==> ones != 1 && ones <= 6 && n <= |s| && !Broken(s, n) && n >= 2 && Overlong(s[0], s[1]))
      && (g.ret <= 0 ==> g.value == 0)
  {
    if s != [] {
      NeedCounts(s[0]);
      var n := Need(s[0]);
      if 0 < n <= |s| {
        BrokenTails(s, n);
        if !Broken(s, n) { OverlongExactly(s, n); }
      }
    }
  }

  lemma BrokenTails(s: seq<Byte>, n: nat)
    requires 1 <= n <= |s|
    ensures Broken(s, n) <==> !Tails(s[1..n])
  {
    var t := s[1..n];
    assert forall k | 0 <= k < |t| :: t[k] == s[k + 1];
    if !Tails(t) {
      var k :| 0 <= k < |t| && !Tail(t[k]);
      assert 1 <= k + 1 < n && !(0x80 <= s[k + 1] < 0xC0);
    }
  }

  lemma GotExactly(g: Got, value: nat)
    requires var n, v := Size(value), value % TWO_31; g == if v < LEAST[n] then Got(-4, 0) else Got(n, v)
    ensures g == Got(Size(value), value) <==> value < TWO_31
    ensures value >= TWO_31 ==> g == if value % TWO_31 < LEAST[6] then Got(-4, 0) else Got(6, value % TWO_31)
  {
  }

  /** Decoding an encoding gives back the value and the length, whatever follows, exactly for values below 2^31. */
  lemma GetUndoesPut(value: nat, rest: seq<Byte>)
    ensures Get(Put(value) + rest) == Got(Size(value), value) <==> value < TWO_31
    ensures value >= TWO_31 ==>
            Get(Put(value) + rest) == if value % TWO_31 < LEAST[6] then Got(-4, 0) else Got(6, value % TWO_31)
  {
    GetPut(value, rest);
    GotExactly(Get(Put(value) + rest), value);
  }

  /** The value C0000000 comes back as 40000000. */
  lemma HighBitsDropped(rest: seq<Byte>)
    ensures Get(Put(0xC000_0000) + rest) == Got(6, 0x4000_0000)
  {
    ModUnique(0xC000_0000, TWO_31, 1, 0x4000_0000);
    GetUndoesPut(0xC000_0000, rest);
  }

  lemma {:induction false} ExtendBelow(a: nat, tails: seq<Byte>, b: nat)
    requires a < b
    ensures Extend(a, tails) < b * Pow64(|tails|)
  {
    if tails != [] {
      var rest := tails[..|tails| - 1];
      ExtendBelow(a, rest, b);
      assert b * Pow64(|tails|) == 64 * (b * Pow64(|rest|));
    }
  }

  lemma GotSize(s: seq<Byte>)
    requires Get(s).ret > 0
    ensures var g := Get(s); g.ret == Need(s[0]) == Size(g.value) && g.value < TWO_31
  {
    var n := Need(s[0]);
    ExtendBelow(s[0] - MARK[n], s[1..n], [128, 32, 16, 8, 4, 2][n - 1]);
    assert Pow64(1) == 0x40 && Pow64(2) == 0x1000 && Pow64(3) == 0x4_0000 && Pow64(4) == 0x100_0000 && Pow64(5) == 0x4000_0000;
  }

  lemma PutExtended(value: nat, n: nat, lead: Byte, tails: seq<Byte>)
    requires n == Size(value) && value < TWO_31 && |tails| == n - 1 && Tails(tails) && lead >= MARK[n]
    requires value == Extend(lead - MARK[n], tails)
    ensures Put(value) == [lead] + tails
  {
    var k := |tails|;
    LowExtend(lead - MARK[n], tails);
    assert Top(value, k) == lead - MARK[n] && Low(value, k) == tails;
    PutSmall(value, n, k);
  }

  lemma PutSmall(value: nat, n: nat, k: nat)
    requires n == Size(value) && value < TWO_31 && k == n - 1
    ensures MARK[n] + Top(value, k) < 256 && Put(value) == [MARK[n] + Top(value, k)] + Low(value, k)
  {
    SmallRemainder(value);
    TopFits(value, n);
  }

  lemma SmallRemainder(value: nat)
    requires value < TWO_31
    ensures value % TWO_31 == value
  {
  }

  /** Whatever is accepted is the encoding of the value it gives: no overlong form is ever accepted. */
  lemma PutUndoesGet(s: seq<Byte>)
    requires Get(s).ret > 0
    ensures var g := Get(s); g.ret <= |s| && g.value < TWO_31 && Put(g.value) == s[..g.ret]
  {
    var n, value := Get(s).ret, Get(s).value;
    GotSize(s);
    PutExtended(value, n, s[0], s[1..n]);
    assert s[..n] == [s[0]] + s[1..n];
  }

  // ---- writing in place ----

  lemma Shifts(value: nat)
    ensures value / 0x40 / 0x40 == value / 0x1000
    ensures value / 0x1000 / 0x40 == value / 0x4_0000
    ensures value / 0x4_0000 / 0x40 == value / 0x100_0000
    ensures value / 0x100_0000 / 0x40 == value / 0x4000_0000
  {
  }

  lemma {:induction false} TopLast(value: nat, k: nat)
    ensures Top(value, k + 1) == Top(value, k) / 64
  {
    if k > 0 { TopLast(value / 64, k - 1); }
  }

  lemma TopShifts(value: nat)
    ensures Top(value, 1) == value / 0x40 && Top(value, 2) == value / 0x1000 && Top(value, 3) == value / 0x4_0000
    ensures Top(value, 4) == value / 0x100_0000 && Top(value, 5) == value / 0x4000_0000
  {
    Shifts(value);
    TopLast(value, 1);
    TopLast(value, 2);
    TopLast(value, 3);
    TopLast(value, 4);
  }

  lemma {:induction false} LowFront(value: nat, k: nat)
    ensures Low(value, k + 1) == [0x80 + Top(value, k) % 64] + Low(value, k)
  {
    if k > 0 { LowFront(value / 64, k - 1); }
  }

  lemma LowDigits(value: nat)
    ensures Low(value, 1) == [0x80 + value % 0x40]
    ensures Low(value, 2) == [0x80 + value / 0x40 % 0x40] + Low(value, 1)
    ensures Low(value, 3) == [0x80 + value / 0x1000 % 0x40] + Low(value, 2)
    ensures Low(value, 4) == [0x80 + value / 0x4_0000 % 0x40] + Low(value, 3)
    ensures Low(value, 5) == [0x80 + value / 0x100_0000 % 0x40] + Low(value, 4)
  {
    TopShifts(value);
    LowFront(value, 1);
    LowFront(value, 2);
    LowFront(value, 3);
    LowFront(value, 4);
  }

  lemma SixByteLead(value: nat)
    ensures value % TWO_31 / 0x4000_0000 == value / 0x4000_0000 % 2
  {
    var q, r := value / TWO_31, value % TWO_31;
    var h := r / 0x4000_0000;
    ModUnique(value, 0x4000_0000, 2 * q + h, r % 0x4000_0000);
    ModUnique(2 * q + h, 2, q, h);
  }

  /** The first byte's bits as the code takes them out. */
  lemma LeadBits(value: nat)
    ensures var v, n := value % TWO_31, Size(value);
            Top(v, n - 1) == if n == 1 then value else if n == 2 then value / 0x40 % 0x20
                             else if n == 3 then value / 0x1000 % 0x10 else if n == 4 then value / 0x4_0000 % 8
                             else if n == 5 then value / 0x100_0000 % 4 else value / 0x4000_0000 % 2
  {
    if Size(value) < 6 {
      assert value % TWO_31 == value;
      TopShifts(value);
    } else {
      TopShifts(value % TWO_31);
      SixByteLead(value);
    }
  }

  function Written(value: nat): (s: seq<Byte>)
    ensures |s| == Size(value)
  {
    var n := Size(value);
    if n == 1 then [value]
    else if n == 2 then [0xC0 + value / 0x40 % 0x20, 0x80 + value % 0x40]
    else if n == 3 then [0xE0 + value / 0x1000 % 0x10, 0x80 + value / 0x40 % 0x40, 0x80 + value % 0x40]
    else if n == 4 then
      [0xF0 + value / 0x4_0000 % 8, 0x80 + value / 0x1000 % 0x40, 0x80 + value / 0x40 % 0x40, 0x80 + value % 0x40]
    else if n == 5 then
      [0xF8 + value / 0x100_0000 % 4, 0x80 + value / 0x4_0000 % 0x40, 0x80 + value / 0x1000 % 0x40,
       0x80 + value / 0x40 % 0x40, 0x80 + value % 0x40]
    else
      [0xFC + value / 0x4000_0000 % 2, 0x80 + value / 0x100_0000 % 0x40, 0x80 + value / 0x4_0000 % 0x40,
       0x80 + value / 0x1000 % 0x40, 0x80 + value / 0x40 % 0x40, 0x80 + value % 0x40]
  }

  /** The six unrolled cases are the one general form. */
  lemma WrittenIsPut(value: nat)
    ensures Written(value) == Put(value)
  {
    LeadBits(value);
    LowDigits(value);
  }

  /**
   * `UTF8_putc` into `len` bytes at `at`: how many bytes were written, or -1 and none
   * was; without a string only the count.
   */
  method Putc(str: array?<Byte>, at: nat, len: int, value: Uint64) returns (ret: int)
    requires str != null ==> at + len <= str.Length
    modifies if str == null then {} else {str}
    ensures ret == if str != null && len < Size(value) then -1 else Size(value)
    ensures str != null && ret == -1 ==> str[..] == old(str[..])
    ensures str != null && ret > 0 ==>
              at + ret <= str.Length && str[..] == old(str[..])[..at] + Put(value) + old(str[..])[at + ret..]
  {
    if str == null { return Size(value); }
    if len < Size(value) { return -1; }
    ret := Size(value);
    WrittenIsPut(value);
    forall k | 0 <= k < ret { str[at + k] := Written(value)[k]; }
  }
}
