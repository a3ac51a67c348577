/** BER identifier and length octets: `ASN1_put_object`, `ASN1_get_object`, `ASN1_object_size`. */
module BerHeaders {
  import opened Bytes

  const LONG_MAX: int := 0x7FFF_FFFF_FFFF_FFFF
  const SIZEOF_LONG: nat := 8

  /** What `ASN1_get_object` reports; `tooLong` is its 0x80 flag with everything else still set. */
  datatype Head = Head(constructed: bool, xclass: nat, tag: nat, inf: bool, length: nat, size: nat, tooLong: bool)

  // ---- reading ----

  /** The tag number behind an identifier octet that ends in 31, and where it stops. */
  function HighTag(s: seq<Byte>, p: nat, l: nat): (r: Option<(nat, nat)>)
    requires p < |s|
    ensures r.Some? ==> p < r.value.1 < |s|
    decreases |s| - p
  {
    var l' := l * 128 + s[p] % 128;
    if p + 1 == |s| then None
    else if s[p] < 128 then Some((l', p + 1))
    else if l' > INT_MAX / 128 then None
    else HighTag(s, p + 1, l')
  }

  /** The length octets at `p`: whether indefinite, the length, and where they stop. */
  function LengthAt(s: seq<Byte>, p: nat): (r: Option<(bool, nat, nat)>)
    requires p < |s|
    ensures r.Some? ==> p < r.value.2 <= |s|
  {
    var max := ToInt32(|s| - p);
    if max < 1 then None
    else if s[p] == 0x80 then Some((true, 0, p + 1))
    else if s[p] < 0x80 then Some((false, s[p], p + 1))
    else
      var n := s[p] - 0x80;
      if n > SIZEOF_LONG || max < n + 2 then None
      else
        var v := BigEndian(s[p + 1..p + 1 + n]);
        if v > LONG_MAX then None else Some((false, v, p + 1 + n))
  }

  function GetObject(s: seq<Byte>): (r: Option<Head>)
    ensures r.Some? ==> 2 <= r.value.size <= |s|
    ensures r.Some? && !r.value.tooLong ==> r.value.size + r.value.length <= |s|
    ensures r.Some? && r.value.inf ==> r.value.constructed && r.value.length == 0
  {
    if s == [] then None
    else
      var tag: Option<(nat, nat)> := if s[0] % 32 == 31 then if |s| == 1 then None else HighTag(s, 1, 0)
                 else if |s| == 1 then None else Some((s[0] % 32, 1));
      if tag.None? then None
      else
        var constructed := s[0] / 32 % 2 == 1;
        var len := LengthAt(s, tag.value.1);
        if len.None? then None
        else
          var (inf, length, p) := len.value;
          if inf && !constructed then None
          else Some(Head(constructed, s[0] / 64 * 64, tag.value.0, inf, length, p, length > |s| - p))
  }

  /**
   * Lengths in the long form, leading zeros and all: at most eight octets, of a value below
   * 2^63, are read, and only if an octet of content follows.
   */
  lemma LongFormExactly(s: seq<Byte>, octets: seq<Byte>, rest: seq<Byte>)
    requires 1 <= |octets| <= 126 && |s| == |octets| + |rest| + 2 <= INT_MAX
    requires s[0] % 32 != 31 && s[1] == 0x80 + |octets| && s[2..] == octets + rest
    ensures var n := BigEndian(octets);
            GetObject(s) ==
              if |octets| <= 8 && n < 0x8000_0000_0000_0000 && rest != [] then
                Some(Head(s[0] / 32 % 2 == 1, s[0] / 64 * 64, s[0] % 32, false, n, |octets| + 2, n > |rest|))
              else None
  {
    LongLengthAt(s, octets, rest);
    LowTagged(s, LengthAt(s, 1));
  }

  lemma LowTagged(s: seq<Byte>, len: Option<(bool, nat, nat)>)
    requires |s| >= 2 && s[0] % 32 != 31 && len == LengthAt(s, 1) && (len.Some? ==> !len.value.0)
    ensures GetObject(s) ==
              if len.None? then None
              else Some(Head(s[0] / 32 % 2 == 1, s[0] / 64 * 64, s[0] % 32, false, len.value.1, len.value.2, len.value.1 > |s| - len.value.2))
  {
  }

  lemma LongLengthAt(s: seq<Byte>, octets: seq<Byte>, rest: seq<Byte>)
    requires 1 <= |octets| <= 126 && |s| == |octets| + |rest| + 2 <= INT_MAX && s[1] == 0x80 + |octets| && s[2..] == octets + rest
    ensures LengthAt(s, 1) ==
              if |octets| <= 8 && BigEndian(octets) < 0x8000_0000_0000_0000 && rest != [] then Some((false, BigEndian(octets), |octets| + 2))
              else None
  {
    ToInt32Small(|s| - 1);
    assert s[2..2 + |octets|] == s[2..][..|octets|] == octets;
  }

  // ---- writing ----

  /** The base-128 digits of `t`, most significant first, each with the continuation bit. */
  function MoreDigits(t: nat): seq<Byte> {
    if t == 0 then [] else MoreDigits(t / 128) + [128 + t % 128]
  }

  function Base256(n: nat): seq<Byte> {
    if n == 0 then [] else Base256(n / 256) + [n % 256]
  }

  function Identifier(constructed: int, tag: nat, xclass: int): seq<Byte> {
    var i := (if constructed != 0 then 32 else 0) + xclass % 256 / 64 * 64;
    if tag < 31 then [i + tag] else [i + 31] + (MoreDigits(tag / 128) + [tag % 128])
  }

  function LengthOctets(length: nat): seq<Byte>
    requires length <= INT_MAX
  {
    if length <= 127 then [length]
    else
      Base256Length(length);
      [128 + |Base256(length)|] + Base256(length)
  }

  function Header(constructed: int, length: nat, tag: nat, xclass: int): seq<Byte>
    requires length <= INT_MAX
  {
    Identifier(constructed, tag, xclass) + LengthPart(constructed, length)
  }

  lemma Base256Length(n: nat)
    requires n <= INT_MAX
    ensures |Base256(n)| <= 4
  {
    var a := n / 256;
    var b := a / 256;
    var c := b / 256;
    assert c / 256 == 0;
    assert Base256(c / 256) == [];
    assert |Base256(c)| <= 1 && |Base256(b)| <= 2 && |Base256(a)| <= 3;
  }

  lemma {:induction false} Base256Value(n: nat)
    ensures BigEndian(Base256(n)) == n
  {
    if n > 0 {
      Base256Value(n / 256);
      var s := Base256(n);
      assert s[..|s| - 1] == Base256(n / 256);
    }
  }

  // ---- reading undoes writing ----

  lemma {:induction false} DigitsRead(s: seq<Byte>, p: nat, t: nat)
    requires t <= INT_MAX / 128 && p + |MoreDigits(t)| < |s|
    requires s[p..p + |MoreDigits(t)|] == MoreDigits(t)
    ensures HighTag(s, p, 0) == HighTag(s, p + |MoreDigits(t)|, t)
    decreases t
  {
    if t > 0 {
      var d, k := MoreDigits(t), |MoreDigits(t / 128)|;
      assert d[..k] == MoreDigits(t / 128);
      assert s[p..p + k] == d[..k];
      DigitsRead(s, p, t / 128);
      assert s[p + k] == d[k] == 128 + t % 128;
    }
  }

  lemma TagRead(s: seq<Byte>, constructed: int, tag: nat, xclass: int)
    requires tag <= INT_MAX
    requires |Identifier(constructed, tag, xclass)| < |s| && Identifier(constructed, tag, xclass) <= s
    ensures s[0] / 32 % 2 == (if constructed != 0 then 1 else 0) && s[0] / 64 * 64 == xclass % 256 / 64 * 64
    ensures s[0] % 32 == if tag < 31 then tag else 31
    ensures tag >= 31 ==> HighTag(s, 1, 0) == Some((tag, |Identifier(constructed, tag, xclass)|))
  {
    var id := Identifier(constructed, tag, xclass);
    assert s[0] == id[0];
    if tag >= 31 {
      var d := MoreDigits(tag / 128);
      assert s[1..1 + |d|] == id[1..1 + |d|] == d;
      DigitsRead(s, 1, tag / 128);
      assert s[1 + |d|] == id[1 + |d|] == tag % 128;
    }
  }

  /** How many octets must be left, length octets included, for the length to be read. */
  function Needed(constructed: int, length: nat): nat {
    if constructed == 2 || length <= 127 then 1 else |Base256(length)| + 2
  }

  lemma LengthRead(s: seq<Byte>, p: nat, constructed: int, length: nat)
    requires length <= INT_MAX
    requires var len := LengthPart(constructed, length);
             p + |len| <= |s| && s[p..p + |len|] == len
    ensures LengthAt(s, p) ==
            if ToInt32(|s| - p) < Needed(constructed, length) then None
            else if constructed == 2 then Some((true, 0, p + 1))
            else Some((false, length, p + |LengthOctets(length)|))
  {
    var len := LengthPart(constructed, length);
    assert s[p] == len[0];
    if constructed != 2 && length > 127 {
      var d := Base256(length);
      Base256Length(length);
      Base256Value(length);
      assert |d| > 0;
      assert s[p + 1..p + 1 + |d|] == len[1..] == d;
    }
  }

  function LengthPart(constructed: int, length: nat): seq<Byte>
    requires length <= INT_MAX
  {
    if constructed == 2 then [0x80] else LengthOctets(length)
  }

  lemma HeaderRead(s: seq<Byte>, id: seq<Byte>, len: seq<Byte>, constructed: int, length: nat, tag: nat, xclass: int)
    requires tag <= INT_MAX && length <= INT_MAX
    requires id == Identifier(constructed, tag, xclass) && len == LengthPart(constructed, length)
    requires id + len <= s && (constructed != 2 ==> |id| + |len| + length <= |s|)
    ensures GetObject(s) ==
            if ToInt32(|s| - |id|) < Needed(constructed, length) then None
            else Some(Head(constructed != 0, xclass % 256 / 64 * 64, tag, constructed == 2,
                           if constructed == 2 then 0 else length, |id| + |len|, false))
  {
    assert s[|id|..|id| + |len|] == (id + len)[|id|..] == len;
    assert id <= id + len <= s && |len| > 0;
    TagRead(s, constructed, tag, xclass);
    LengthRead(s, |id|, constructed, length);
  }

  /**
   * For every tag, class, constructed flag and length in int range, reading back a
   * header in front of enough content recovers it, except when the count of octets
   * left no longer fits the `int` it is passed in.
   */
  lemma GetUndoesPut(constructed: int, length: nat, tag: nat, xclass: int, rest: seq<Byte>)
    requires tag <= INT_MAX && length <= INT_MAX && (constructed != 2 ==> length <= |rest|)
    ensures var h := Header(constructed, length, tag, xclass);
            var left := |h + rest| - |Identifier(constructed, tag, xclass)|;
            GetObject(h + rest) ==
              if ToInt32(left) < Needed(constructed, length) then None
              else Some(Head(constructed != 0, xclass % 256 / 64 * 64, tag, constructed == 2,
                             if constructed == 2 then 0 else length, |h|, false))
  {
    var id, len := Identifier(constructed, tag, xclass), LengthPart(constructed, length);
    HeaderRead(id + len + rest, id, len, constructed, length, tag, xclass);
  }

  /** An empty INTEGER in front of 2^31 octets is not read back. */
  lemma LongContentRefused(b: Byte)
    ensures Header(0, 0, 2, 0) == [2, 0] && GetObject([2, 0] + seq(0x8000_0000, _ => b)) == None
  {
    var rest: seq<Byte> := seq(0x8000_0000, _ => b);
    assert Identifier(0, 2, 0) == [2] && Header(0, 0, 2, 0) == [2, 0];
    ModUnique(0x8000_0001, TWO_32, 0, 0x8000_0001);
    GetUndoesPut(0, 0, 2, 0, rest);
  }

  /** Below 2^31 octets the cast is harmless. */
  lemma GetUndoesPutInRange(constructed: int, length: nat, tag: nat, xclass: int, rest: seq<Byte>)
    requires tag <= INT_MAX && length <= INT_MAX && (constructed != 2 ==> length <= |rest|)
    requires |Header(constructed, length, tag, xclass) + rest| <= INT_MAX
    ensures var h := Header(constructed, length, tag, xclass);
            GetObject(h + rest) ==
              Some(Head(constructed != 0, xclass % 256 / 64 * 64, tag, constructed == 2,
                        if constructed == 2 then 0 else length, |h|, false))
  {
    GetUndoesPut(constructed, length, tag, xclass, rest);
    var h, id := Header(constructed, length, tag, xclass), Identifier(constructed, tag, xclass);
    var left := |h + rest| - |id|;
    ToInt32Small(left);
    assert left == |LengthPart(constructed, length)| + |rest|;
    assert left >= Needed(constructed, length);
  }

  // ---- the loops ----

  /** The base-128 digits of a tag, written from the last one back. */
  method PutTag(buf: array<Byte>, p: nat, tag: nat) returns (next: nat)
    requires tag >= 31 && p + |MoreDigits(tag)| <= buf.Length
    modifies buf
    ensures next == p + |MoreDigits(tag / 128)| + 1
    ensures Stands(buf, p, MoreDigits(tag / 128) + [tag % 128]) && Elsewhere(buf, p, next)
  {
    var i, ttag := 0, tag;
    while ttag > 0
      invariant i + |MoreDigits(ttag)| == |MoreDigits(tag)|
    {
      ttag := ttag / 128;
      i := i + 1;
    }
    var n := i;
    ghost var d: seq<Byte> := MoreDigits(tag / 128) + [tag % 128];
    var rest := tag;
    while i > 0
      invariant 0 <= i <= n == |d|
      invariant if i == n then rest == tag else d[..i] == MoreDigits(rest)
      invariant forall k :: i <= k < n ==> buf[p + k] == d[k]
      invariant Elsewhere(buf, p, p + n)
    {
      i := i - 1;
      assert d[i] == if i == n - 1 then rest % 128 else 128 + rest % 128;
      buf[p + i] := if i != n - 1 then 128 + rest % 128 else rest % 128;
      rest := rest / 128;
      assert d[..i] == MoreDigits(rest);
    }
    next := p + n;
  }

  method PutDigits(buf: array<Byte>, p: nat, length: nat, n: nat)
    requires n == |Base256(length)| && p + n <= buf.Length
    modifies buf
    ensures Stands(buf, p, Base256(length)) && Elsewhere(buf, p, p + n)
  {
    var i, rest := n, length;
    ghost var d := Base256(length);
    while i > 0
      invariant 0 <= i <= n && d[..i] == Base256(rest)
      invariant forall k :: i <= k < n ==> buf[p + k] == d[k]
      invariant Elsewhere(buf, p, p + n)
    {
      i := i - 1;
      assert d[i] == rest % 256;
      buf[p + i] := rest % 256;
      rest := rest / 256;
      assert d[..i] == Base256(rest);
    }
  }

  method PutLength(buf: array<Byte>, p: nat, length: nat) returns (next: nat)
    requires length <= INT_MAX && p + |LengthOctets(length)| <= buf.Length
    modifies buf
    ensures next == p + |LengthOctets(length)|
    ensures Stands(buf, p, LengthOctets(length)) && Elsewhere(buf, p, next)
  {
    if length <= 127 {
      buf[p] := length;
      return p + 1;
    }
    var i, l := 0, length;
    while l > 0
      invariant i + |Base256(l)| == |Base256(length)|
    {
      l := l / 256;
      i := i + 1;
    }
    Base256Length(length);
    buf[p] := 128 + i;
    PutDigits(buf, p + 1, length, i);
    next := p + 1 + i;
  }

  method PutIdentifier(buf: array<Byte>, p: nat, constructed: int, tag: nat, xclass: int) returns (next: nat)
    requires p + |Identifier(constructed, tag, xclass)| <= buf.Length
    modifies buf
    ensures next == p + |Identifier(constructed, tag, xclass)|
    ensures Stands(buf, p, Identifier(constructed, tag, xclass)) && Elsewhere(buf, p, next)
  {
    var i := (if constructed != 0 then 32 else 0) + xclass % 256 / 64 * 64;
    if tag < 31 {
      buf[p] := i + tag;
      next := p + 1;
    } else {
      buf[p] := i + 31;
      next := PutTag(buf, p + 1, tag);
    }
  }

  method PutObject(buf: array<Byte>, p: nat, constructed: int, length: nat, tag: nat, xclass: int) returns (next: nat)
    requires length <= INT_MAX && p + |Header(constructed, length, tag, xclass)| <= buf.Length
    modifies buf
    ensures next == p + |Header(constructed, length, tag, xclass)|
    ensures Stands(buf, p, Header(constructed, length, tag, xclass)) && Elsewhere(buf, p, next)
  {
    var mid := PutIdentifier(buf, p, constructed, tag, xclass);
    if constructed == 2 {
      buf[mid] := 0x80;
      next := mid + 1;
    } else {
      next := PutLength(buf, mid, length);
    }
  }

  /** `asn1_get_length`, with its countdown of the octets left. */
  method ReadLength(s: seq<Byte>, start: nat) returns (r: Option<(bool, nat, nat)>)
    requires start < |s|
    ensures r == LengthAt(s, start)
  {
    var p, max := start, ToInt32(|s| - start) as int;
    max := max - 1;
    if max + 1 < 1 {
      return None;
    }
    if s[p] == 0x80 {
      return Some((true, 0, p + 1));
    }
    var i := s[p] % 128;
    p := p + 1;
    if s[p - 1] < 0x80 {
      return Some((false, i, p));
    }
    if i > SIZEOF_LONG {
      return None;
    }
    max := max - 1;
    if max + 1 == 0 {
      return None;
    }
    var ret := 0;
    ghost var n := i as int;
    assert s[start + 1..p] == [];
    while i > 0
      invariant 0 <= i <= n && p == start + 1 + (n - i)
      invariant max == ToInt32(|s| - start) - 2 - (n - i) && max >= 0
      invariant p <= |s| && ret == BigEndian(s[start + 1..p])
    {
      ghost var read := s[start + 1..p + 1];
      assert read[..|read| - 1] == s[start + 1..p];
      ret := ret * 256 + s[p];
      p := p + 1;
      i := i - 1;
      max := max - 1;
      if max + 1 == 0 {
        return None;
      }
    }
    if ret > LONG_MAX {
      return None;
    }
    return Some((false, ret, p));
  }

  /** The high-tag loop of `ASN1_get_object`. */
  method ReadHighTag(s: seq<Byte>) returns (r: Option<(nat, nat)>)
    requires |s| > 1
    ensures r == HighTag(s, 1, 0)
  {
    var p, l: nat := 1, 0;
    while s[p] >= 128
      invariant 0 < p < |s|
      invariant HighTag(s, 1, 0) == HighTag(s, p, l)
      decreases |s| - p
    {
      l := l * 128 + s[p] % 128;
      p := p + 1;
      if p == |s| {
        return None;
      }
      if l > INT_MAX / 128 {
        return None;
      }
    }
    l := l * 128 + s[p] % 128;
    p := p + 1;
    if p == |s| {
      return None;
    }
    return Some((l, p));
  }

  method ReadObject(s: seq<Byte>) returns (r: Option<Head>)
    ensures r == GetObject(s)
  {
    if |s| == 0 {
      return None;
    }
    var constructed, xclass, i := s[0] / 32 % 2 == 1, s[0] / 64 * 64, s[0] % 32;
    if |s| == 1 {
      return None;
    }
    var tag: nat, p := i, 1;
    if i == 31 {
      var high := ReadHighTag(s);
      if high.None? {
        return None;
      }
      tag, p := high.value.0, high.value.1;
    }
    var len := ReadLength(s, p);
    if len.None? {
      return None;
    }
    if len.value.0 && !constructed {
      return None;
    }
    return Some(Head(constructed, xclass, tag, len.value.0, len.value.1, len.value.2, len.value.1 > |s| - len.value.2));
  }

  /** Header plus content, plus the two octets that end an indefinite length. */
  method ObjectSize(constructed: int, length: nat, tag: nat) returns (size: nat)
    requires length <= INT_MAX
    ensures forall xclass ::
      size == |Header(constructed, length, tag, xclass)| + length + (if constructed == 2 then 2 else 0)
  {
    size := length + 1;
    if tag >= 31 {
      var t := tag;
      while t > 0
        invariant size + |MoreDigits(t)| == length + 1 + |MoreDigits(tag)|
      {
        t := t / 128;
        size := size + 1;
      }
    }
    if constructed == 2 {
      return size + 3;
    }
    size := size + 1;
    if length > 127 {
      ghost var start := size;
      var l := length;
      while l > 0
        invariant size + |Base256(l)| == start + |Base256(length)|
      {
        l := l / 256;
        size := size + 1;
      }
    }
  }
}
