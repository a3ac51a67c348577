/** Octets and the fixed-width integers the wire formats are made of. */
module Bytes {

  datatype Option<+T> = None | Some(value: T)

  type Byte = b: int | 0 <= b < 256

  const INT_MAX: int := 0x7FFF_FFFF
  const TWO_16: int := 0x1_0000
  const TWO_32: int := 0x1_0000_0000
  const TWO_64: int := 0x1_0000_0000_0000_0000

  type Int32 = x: int | -0x8000_0000 <= x < 0x8000_0000
  type Uint32 = x: int | 0 <= x < TWO_32
  type Uint64 = x: int | 0 <= x < TWO_64

  /** The value a 32-bit conversion to a signed integer keeps of `x`. */
  function ToInt32(x: int): Int32 {
    var u := x % TWO_32;
    if u < 0x8000_0000 then u else u - TWO_32
  }

  lemma ToInt32Small(x: int)
    requires 0 <= x <= INT_MAX
    ensures ToInt32(x) == x
  {
  }

  function Least(a: nat, b: nat): nat {
    if a <= b then a else b
  }

  /** The one bits a byte starts with. */
  function LeadingOnes(b: Byte): nat
    decreases b
  {
    if b < 128 then 0 else 1 + LeadingOnes(2 * (b - 128))
  }

  lemma {:induction false} LeadingOnesTable(b: Byte)
    ensures LeadingOnes(b) == if b < 0x80 then 0 else if b < 0xC0 then 1 else if b < 0xE0 then 2 else if b < 0xF0 then 3
                              else if b < 0xF8 then 4 else if b < 0xFC then 5 else if b < 0xFE then 6 else b - 0xF7
    decreases b
  {
    if b >= 128 { LeadingOnesTable(2 * (b - 128)); }
  }

  /** The value of a big-endian byte string. */
  function BigEndian(s: seq<Byte>): nat
    decreases |s|
  {
    if s == [] then 0 else BigEndian(s[..|s| - 1]) * 256 + s[|s| - 1]
  }

  function Pow256(n: nat): (p: nat)
    ensures p > 0
  {
    if n == 0 then 1 else 256 * Pow256(n - 1)
  }

  /** The low 16, 32 and 64 bits of `x`, most significant byte first; negative values wrap. */
  function Be16(x: int): seq<Byte> {
    [x / 0x100 % 256, x % 256]
  }

  function Be32(x: int): seq<Byte> {
    [x / 0x100_0000 % 256, x / 0x1_0000 % 256, x / 0x100 % 256, x % 256]
  }

  function Be64(x: int): seq<Byte> {
    Be32(x / TWO_32) + Be32(x)
  }

  function FlatMap<A, B>(f: A -> seq<B>, xs: seq<A>): seq<B> {
    if xs == [] then [] else f(xs[0]) + FlatMap(f, xs[1..])
  }

  lemma {:induction false} FlatMapAppend<A, B>(f: A -> seq<B>, a: seq<A>, b: seq<A>)
    ensures FlatMap(f, a + b) == FlatMap(f, a) + FlatMap(f, b)
  {
    if a == [] {
      assert a + b == b;
    } else {
      assert (a + b)[1..] == a[1..] + b;
      FlatMapAppend(f, a[1..], b);
    }
  }

  function Flatten<T>(parts: seq<seq<T>>): seq<T> {
    if parts == [] then [] else parts[0] + Flatten(parts[1..])
  }

  lemma {:induction false} FlattenAppend<T>(a: seq<seq<T>>, b: seq<seq<T>>)
    ensures Flatten(a + b) == Flatten(a) + Flatten(b)
  {
    if a == [] {
      assert a + b == b;
    } else {
      assert (a + b)[1..] == a[1..] + b;
      FlattenAppend(a[1..], b);
    }
  }

  lemma FlattenNext<T>(parts: seq<seq<T>>, k: nat)
    requires k < |parts|
    ensures Flatten(parts[..k + 1]) == Flatten(parts[..k]) + parts[k]
  {
    FlattenAppend(parts[..k], [parts[k]]);
    assert parts[..k + 1] == parts[..k] + [parts[k]] && Flatten([parts[k]]) == parts[k];
  }

  lemma ModUnique(x: int, m: nat, k: int, r: int)
    requires m > 0 && 0 <= r < m && x == k * m + r
    ensures x % m == r && x / m == k
  {
    var k', r' := x / m, x % m;
    if k > k' {
      NoWrap(k - k', m);
    } else if k < k' {
      NoWrap(k' - k, m);
    }
    assert (k - k') * m == k * m - k' * m;
  }

  lemma NoWrap(d: nat, m: nat)
    requires d > 0
    ensures d * m >= m
  {
    assert d * m == (d - 1) * m + m;
  }

  /** A copy of `data` at `at`, `memcpy`. */
  method Copy(dst: array<Byte>, at: nat, data: seq<Byte>)
    requires at + |data| <= dst.Length
    modifies dst
    ensures dst[..at] == old(dst[..at]) && dst[at..at + |data|] == data && dst[at + |data|..] == old(dst[at + |data|..])
  {
    forall k | 0 <= k < |data| { dst[at + k] := data[k]; }
  }

  /** Only `buf[from..to]` may have changed. */
  twostate predicate Elsewhere(buf: array<Byte>, from: nat, to: nat)
    reads buf
  {
    forall k :: 0 <= k < buf.Length && !(from <= k < to) ==> buf[k] == old(buf[k])
  }

  ghost predicate Stands(buf: array<Byte>, p: nat, d: seq<Byte>)
    reads buf
  {
    p + |d| <= buf.Length && forall k :: 0 <= k < |d| ==> buf[p + k] == d[k]
  }
}
