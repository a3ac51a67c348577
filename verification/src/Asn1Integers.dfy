/** INTEGER content octets: `i2c_ASN1_INTEGER` and `c2i_ASN1_INTEGER`. */
module Asn1Integers {
  import opened Bytes

  /** Sign and magnitude, most significant byte first; the magnitude may have leading zeros. */
  datatype Asn1Integer = Asn1Integer(neg: bool, data: seq<Byte>)

  function Value(a: Asn1Integer): int {
    if a.neg then -(BigEndian(a.data) as int) else BigEndian(a.data)
  }

  /** The number a non-empty content string stands for. */
  function TwosComplement(s: seq<Byte>): int
    requires s != []
  {
    if s[0] >= 128 then BigEndian(s) - Pow256(|s|) else BigEndian(s)
  }

  /** The octets of a number are minimal when the first nine bits are not all alike. */
  predicate Minimal(s: seq<Byte>) {
    |s| > 1 ==> !(s[0] == 0 && s[1] < 128) && !(s[0] == 255 && s[1] >= 128)
  }

  predicate AllZero(s: seq<Byte>) {
    forall k :: 0 <= k < |s| ==> s[k] == 0
  }

  function Complement(s: seq<Byte>): (r: seq<Byte>)
    ensures |r| == |s|
  {
    seq(|s|, i requires 0 <= i < |s| => 255 - s[i])
  }

  /** Trailing zeros stay, the last other byte is negated, all before it are complemented. */
  function Negated(s: seq<Byte>): (r: seq<Byte>)
    ensures |r| == |s|
    decreases |s|
  {
    if s == [] then []
    else
      var init, last := s[..|s| - 1], s[|s| - 1];
      if last == 0 then Negated(init) + [0] else Complement(init) + [256 - last]
  }

  // ---- big-endian arithmetic ----

  lemma {:induction false} BigEndianBound(s: seq<Byte>)
    ensures BigEndian(s) < Pow256(|s|)
    ensures BigEndian(s) == 0 <==> AllZero(s)
    decreases |s|
  {
    if s != [] {
      BigEndianBound(s[..|s| - 1]);
      assert AllZero(s) <==> AllZero(s[..|s| - 1]) && s[|s| - 1] == 0;
    }
  }

  lemma {:induction false} BigEndianFirst(s: seq<Byte>)
    requires s != []
    ensures BigEndian(s) == s[0] * Pow256(|s| - 1) + BigEndian(s[1..])
    decreases |s|
  {
    var init, last := s[..|s| - 1], s[|s| - 1];
    if |s| > 1 {
      BigEndianFirst(init);
      assert init[1..] == s[1..][..|s| - 2];
      assert BigEndian(s[1..]) == BigEndian(init[1..]) * 256 + last;
      assert s[0] * Pow256(|s| - 1) == s[0] * Pow256(|s| - 2) * 256;
    } else {
      assert init == [] && s[1..] == [];
    }
  }

  lemma {:induction false} ComplementValue(s: seq<Byte>)
    ensures BigEndian(Complement(s)) == Pow256(|s|) - 1 - BigEndian(s)
    decreases |s|
  {
    if s != [] {
      var c := Complement(s);
      assert c[..|s| - 1] == Complement(s[..|s| - 1]);
      ComplementValue(s[..|s| - 1]);
    }
  }

  lemma {:induction false} NegatedValue(s: seq<Byte>)
    ensures BigEndian(Negated(s)) == if AllZero(s) then 0 else Pow256(|s|) - BigEndian(s)
    decreases |s|
  {
    if s != [] {
      var init, last := s[..|s| - 1], s[|s| - 1];
      var r := Negated(s);
      assert AllZero(s) <==> AllZero(init) && last == 0;
      if last == 0 {
        assert r[..|s| - 1] == Negated(init);
        NegatedValue(init);
      } else {
        assert r[..|s| - 1] == Complement(init);
        ComplementValue(init);
      }
    }
  }

  // ---- encoding ----

  /** 0x80 followed by zeros only is its own two's complement and needs no padding. */
  predicate Padded(a: Asn1Integer)
    requires a.data != []
  {
    if a.neg then a.data[0] > 128 || (a.data[0] == 128 && !AllZero(a.data[1..])) else a.data[0] > 127
  }

  function Content(a: Asn1Integer): seq<Byte> {
    if a.data == [] then [0]
    else
      var pad: Byte := if a.neg then 255 else 0;
      (if Padded(a) then [pad] else []) + (if a.neg then Negated(a.data) else a.data)
  }

  lemma MulLe(d: int, e: int, p: nat)
    requires d <= e
    ensures d * p <= e * p
  {
    assert e * p - d * p == (e - d) * p;
  }

  lemma DigitCompare(b: int, d: int, p: nat, r: nat, m: int)
    requires b == d * p + r && r < p
    ensures b >= m * p <==> d >= m
  {
    if d >= m {
      MulLe(m, d, p);
    } else {
      MulLe(d + 1, m, p);
      assert (d + 1) * p == d * p + p;
    }
  }

  /** The first byte decides how the value compares to a multiple of its weight. */
  lemma FirstByte(s: seq<Byte>, m: int)
    requires s != []
    ensures BigEndian(s) >= m * Pow256(|s| - 1) <==> s[0] as int >= m
  {
    BigEndianFirst(s);
    BigEndianBound(s[1..]);
    DigitCompare(BigEndian(s), s[0], Pow256(|s| - 1), BigEndian(s[1..]), m);
  }

  /** The magnitude is above 0x80 00 .. 00 exactly when padding is needed. */
  lemma PaddedMeansLarge(a: Asn1Integer)
    requires a.neg && a.data != []
    ensures Padded(a) <==> BigEndian(a.data) > 128 * Pow256(|a.data| - 1)
  {
    var p := Pow256(|a.data| - 1);
    FirstByte(a.data, 128);
    FirstByte(a.data, 129);
    BigEndianFirst(a.data);
    BigEndianBound(a.data[1..]);
  }

  /** The top bit of a byte string says in which half its value lies. */
  lemma TopBit(s: seq<Byte>)
    requires s != []
    ensures s[0] >= 128 <==> BigEndian(s) >= 128 * Pow256(|s| - 1)
  {
    FirstByte(s, 128);
  }

  lemma PrependValue(b: Byte, s: seq<Byte>)
    ensures BigEndian([b] + s) == b * Pow256(|s|) + BigEndian(s)
  {
    BigEndianFirst([b] + s);
    assert ([b] + s)[1..] == s;
  }

  /** The content octets mean the integer; a negative zero has no content octets. */
  lemma ContentValue(a: Asn1Integer)
    requires a.neg && a.data != [] ==> !AllZero(a.data)
    ensures Content(a) != [] && TwosComplement(Content(a)) == Value(a)
  {
    if a.data == [] {
      assert BigEndian([0]) == 0;
    } else if !a.neg {
      if Padded(a) {
        PrependValue(0, a.data);
      } else {
        assert [] + a.data == a.data;
      }
    } else {
      NegativeContentValue(a);
    }
  }

  lemma NegativeContentValue(a: Asn1Integer)
    requires a.neg && a.data != [] && !AllZero(a.data)
    ensures TwosComplement(Content(a)) == Value(a)
  {
    var n := Negated(a.data);
    NegatedValue(a.data);
    PaddedMeansLarge(a);
    if Padded(a) {
      PrependValue(255, n);
    } else {
      assert [] + n == n;
      TopBit(n);
    }
  }

  lemma NegatedTop(data: seq<Byte>)
    requires data != [] && data[0] != 0
    ensures BigEndian(Negated(data)) == 256 * Pow256(|data| - 1) - BigEndian(data)
    ensures BigEndian(data) >= Pow256(|data| - 1)
  {
    NegatedValue(data);
    FirstByte(data, 1);
  }

  lemma PaddedNegative(a: Asn1Integer)
    requires a.neg && a.data != [] && a.data[0] != 0 && Padded(a)
    ensures Negated(a.data)[0] < 128
  {
    NegatedTop(a.data);
    PaddedMeansLarge(a);
    TopBit(Negated(a.data));
  }

  lemma UnpaddedNegative(a: Asn1Integer)
    requires a.neg && a.data != [] && a.data[0] != 0 && !Padded(a)
    ensures var n := Negated(a.data); n[0] >= 128 && !(|n| > 1 && n[0] == 255 && n[1] >= 128)
  {
    var n := Negated(a.data);
    NegatedTop(a.data);
    PaddedMeansLarge(a);
    TopBit(n);
    if |n| > 1 && n[0] == 255 && n[1] >= 128 {
      SecondBit(n);
    }
  }

  /** Without a leading zero in the magnitude, the first nine bits of the content are not all alike. */
  lemma ContentMinimal(a: Asn1Integer)
    requires a.data != [] ==> a.data[0] != 0
    ensures Minimal(Content(a))
  {
    if a.neg && a.data != [] {
      var n := Negated(a.data);
      if Padded(a) {
        PaddedNegative(a);
      } else {
        UnpaddedNegative(a);
        assert [] + n == n;
      }
    } else if a.data != [] && !Padded(a) {
      assert [] + a.data == a.data;
    }
  }

  lemma SecondBit(n: seq<Byte>)
    requires |n| > 1 && n[0] == 255 && n[1] >= 128
    ensures BigEndian(n) > 255 * Pow256(|n| - 1)
  {
    BigEndianFirst(n);
    TopBit(n[1..]);
  }

  lemma TwosComplementRange(t: seq<Byte>)
    requires t != []
    ensures -(128 * Pow256(|t| - 1)) <= TwosComplement(t) < 128 * Pow256(|t| - 1)
  {
    TopBit(t);
    BigEndianBound(t);
    assert Pow256(|t|) == 256 * Pow256(|t| - 1);
  }

  /** Minimal octets mean a number that does not fit into fewer. */
  lemma MinimalIsLarge(s: seq<Byte>)
    requires |s| > 1 && Minimal(s)
    ensures var half := 128 * Pow256(|s| - 2); !(-half <= TwosComplement(s) < half)
  {
    BigEndianFirst(s);
    TopBit(s[1..]);
    FirstByte(s, 1);
    FirstByte(s, 255);
    assert Pow256(|s|) == 256 * Pow256(|s| - 1) && Pow256(|s| - 1) == 256 * Pow256(|s| - 2);
  }

  lemma {:induction false} Pow256Grows(m: nat, n: nat)
    requires m <= n
    ensures Pow256(m) <= Pow256(n)
    decreases n
  {
    if m < n {
      Pow256Grows(m, n - 1);
    }
  }

  /** Without a leading zero in the magnitude, no shorter octets stand for the integer. */
  lemma ContentShortest(a: Asn1Integer, t: seq<Byte>)
    requires a.data != [] ==> a.data[0] != 0
    requires t != [] && TwosComplement(t) == Value(a)
    ensures |t| >= |Content(a)|
  {
    var s := Content(a);
    ContentMinimal(a);
    ContentValue(a);
    if |t| < |s| {
      TwosComplementRange(t);
      MinimalIsLarge(s);
      Pow256Grows(|t| - 1, |s| - 2);
      assert false;
    }
  }

  // ---- decoding ----

  function Decode(s: seq<Byte>): Asn1Integer {
    if s == [] then Asn1Integer(false, [])
    else if s[0] >= 128 then
      var t := if s[0] == 255 && |s| != 1 then s[1..] else s;
      Asn1Integer(true, if AllZero(t) then [1] + t else Negated(t))
    else Asn1Integer(false, if s[0] == 0 && |s| != 1 then s[1..] else s)
  }

  /** Sign and magnitude of the decoded integer are those of the two's-complement number. */
  lemma DecodeValue(s: seq<Byte>)
    requires s != []
    ensures Value(Decode(s)) == TwosComplement(s) && Decode(s).neg == (TwosComplement(s) < 0)
  {
    BigEndianBound(s);
    if s[0] >= 128 {
      NegativeDecodeValue(s);
    } else if s[0] == 0 && |s| != 1 {
      BigEndianFirst(s);
    }
  }

  lemma NegativeDecodeValue(s: seq<Byte>)
    requires s != [] && s[0] >= 128
    ensures Value(Decode(s)) == TwosComplement(s)
  {
    var t := if s[0] == 255 && |s| != 1 then s[1..] else s;
    BigEndianFirst(s);
    NegatedValue(t);
    BigEndianBound(t);
    PrependValue(1, t);
  }

  /** Encoding then decoding preserves the value of every integer but a negative zero. */
  lemma RoundTrip(a: Asn1Integer)
    requires a.neg && a.data != [] ==> !AllZero(a.data)
    ensures Value(Decode(Content(a))) == Value(a)
  {
    ContentValue(a);
    DecodeValue(Content(a));
  }

  // ---- the loops ----

  lemma {:induction false} NegatedSplit(s: seq<Byte>, i: nat)
    requires i <= |s| && (forall k :: i <= k < |s| ==> s[k] == 0)
    ensures Negated(s) == Negated(s[..i]) + s[i..]
    decreases |s|
  {
    if i == |s| {
      assert s[..i] == s && s[i..] == [];
    } else {
      var init := s[..|s| - 1];
      NegatedSplit(init, i);
      assert init[..i] == s[..i];
      assert init[i..] + [0] == s[i..];
      assert Negated(s) == Negated(init) + [0];
    }
  }

  /** Both backward loops: copy trailing zeros, negate the next byte, complement the rest. */
  method NegateInto(src: seq<Byte>, buf: array<Byte>, p: nat) returns (allZero: bool)
    requires p + |src| <= buf.Length
    modifies buf
    ensures allZero == AllZero(src) && Stands(buf, p, Negated(src)) && Elsewhere(buf, p, p + |src|)
  {
    var i := |src|;
    while i > 0 && src[i - 1] == 0
      invariant 0 <= i <= |src|
      invariant forall k :: i <= k < |src| ==> src[k] == 0 && buf[p + k] == src[k]
      invariant Elsewhere(buf, p, p + |src|)
    {
      i := i - 1;
      buf[p + i] := 0;
    }
    NegatedSplit(src, i);
    if i == 0 {
      assert src[..0] == [] && src[0..] == src && [] + src == src;
      return true;
    }
    i := i - 1;
    buf[p + i] := 255 - src[i] + 1;
    assert src[..i + 1][..i] == src[..i];
    ghost var r := Negated(src);
    assert r == Complement(src[..i]) + [256 - src[i]] + src[i + 1..];
    ComplementInto(src, buf, p, i);
    return false;
  }

  /** The bytes before `top`, complemented, from the back. */
  method ComplementInto(src: seq<Byte>, buf: array<Byte>, p: nat, top: nat)
    requires top <= |src| && p + |src| <= buf.Length
    modifies buf
    ensures forall k :: 0 <= k < top ==> buf[p + k] == Complement(src[..top])[k]
    ensures Elsewhere(buf, p, p + top)
  {
    var i := top;
    while i > 0
      invariant 0 <= i <= top
      invariant forall k :: i <= k < top ==> buf[p + k] == Complement(src[..top])[k]
      invariant Elsewhere(buf, p, p + top)
    {
      i := i - 1;
      buf[p + i] := 255 - src[i];
    }
  }

  method NeedsPad(a: Asn1Integer) returns (pad: bool)
    requires a.data != []
    ensures pad == Padded(a)
  {
    pad := false;
    if !a.neg && a.data[0] > 127 {
      pad := true;
    } else if a.neg {
      if a.data[0] > 128 {
        pad := true;
      } else if a.data[0] == 128 {
        var i := 1;
        while i < |a.data| && a.data[i] == 0
          invariant 1 <= i <= |a.data| && forall k :: 1 <= k < i ==> a.data[k] == 0
        {
          i := i + 1;
        }
        pad := i < |a.data|;
        assert i < |a.data| ==> a.data[1..][i - 1] != 0;
      }
    }
  }

  /** `i2c_ASN1_INTEGER` with a buffer; a negative zero would run off the front of the magnitude. */
  method Encode(a: Asn1Integer, buf: array<Byte>, start: nat) returns (ret: nat)
    requires a.neg && a.data != [] ==> !AllZero(a.data)
    requires start + |Content(a)| <= buf.Length
    modifies buf
    ensures ret == |Content(a)| && Stands(buf, start, Content(a)) && Elsewhere(buf, start, start + ret)
  {
    if a.data == [] {
      buf[start] := 0;
      return 1;
    }
    var pad := NeedsPad(a);
    var p := start;
    if pad {
      buf[p] := if a.neg then 255 else 0;
      p := p + 1;
    }
    if !a.neg {
      forall k | 0 <= k < |a.data| {
        buf[p + k] := a.data[k];
      }
    } else {
      var _ := NegateInto(a.data, buf, p);
    }
    ret := p - start + |a.data|;
  }

  lemma ZeroNegated(t: seq<Byte>)
    requires AllZero(t)
    ensures Negated(t) == t
  {
    NegatedSplit(t, 0);
    assert t[0..] == t && t[..0] == [];
  }

  method OneThenZeros(t: seq<Byte>, buf: array<Byte>) returns (data: seq<Byte>)
    requires 0 < |t| < buf.Length && AllZero(t) && Stands(buf, 0, t)
    modifies buf
    ensures data == [1] + t
  {
    forall k | 0 <= k < |t| ensures buf[k] == 0 {
      assert buf[0 + k] == t[k];
    }
    buf[0] := 1;
    buf[|t|] := 0;
    data := buf[..|t| + 1];
  }

  /** The magnitude of a negative number; only 00 .. 00 behind a dropped 0xFF needs one byte more. */
  method Magnitude(t: seq<Byte>, buf: array<Byte>) returns (data: seq<Byte>)
    requires 0 < |t| < buf.Length
    modifies buf
    ensures data == if AllZero(t) then [1] + t else Negated(t)
  {
    var allZero := NegateInto(t, buf, 0);
    if allZero {
      ZeroNegated(t);
      data := OneThenZeros(t, buf);
    } else {
      data := buf[..|t|];
    }
  }

  /** `c2i_ASN1_INTEGER`. */
  method DecodeContent(s: seq<Byte>) returns (a: Asn1Integer)
    ensures a == Decode(s)
  {
    var buf := new Byte[|s| + 1];
    if |s| == 0 {
      return Asn1Integer(false, []);
    }
    if s[0] >= 128 {
      var t := if s[0] == 255 && |s| != 1 then s[1..] else s;
      var data := Magnitude(t, buf);
      a := Asn1Integer(true, data);
    } else {
      a := Asn1Integer(false, if s[0] == 0 && |s| != 1 then s[1..] else s);
    }
  }
}
