/**
 * Infinite garble extension over any block permutation (`aes/aes_ige.c`). A block is
 * sixteen bytes in the code; here it is any `B` with an exclusive-or.
 */
module AesIge {
  /** A block cipher under one key, its inverse, and the exclusive-or of blocks. */
  datatype Cipher<!B> = Cipher(E: B -> B, D: B -> B, xor: (B, B) -> B)

  ghost predicate Lawful<B(!new)>(k: Cipher<B>) {
    && (forall x: B :: k.D(k.E(x)) == x)
    && (forall x: B :: k.E(k.D(x)) == x)
    && (forall x: B, y: B :: k.xor(k.xor(x, y), y) == x)
    && (forall x: B, y: B :: k.xor(x, y) == k.xor(y, x))
  }

  /** Sixteen bytes and their exclusive-or are such blocks, under any permutation with its inverse. */
  lemma AesIsLawful(k: Cipher<bv128>)
    requires forall x: bv128 :: k.D(k.E(x)) == x && k.E(k.D(x)) == x
    requires forall x: bv128, y: bv128 :: k.xor(x, y) == x ^ y
    ensures Lawful(k)
  {
  }

  function EncryptBlock<B>(k: Cipher<B>, m: B, iv: B, iv2: B): B {
    k.xor(k.E(k.xor(m, iv)), iv2)
  }

  function DecryptBlock<B>(k: Cipher<B>, c: B, iv: B, iv2: B): B {
    k.xor(k.D(k.xor(c, iv2)), iv)
  }

  function Encrypt<B>(k: Cipher<B>, m: seq<B>, iv: B, iv2: B): (c: seq<B>)
    ensures |c| == |m|
  {
    if m == [] then []
    else
      var c := EncryptBlock(k, m[0], iv, iv2);
      [c] + Encrypt(k, m[1..], c, m[0])
  }

  function Decrypt<B>(k: Cipher<B>, c: seq<B>, iv: B, iv2: B): (m: seq<B>)
    ensures |m| == |c|
  {
    if c == [] then []
    else
      var m := DecryptBlock(k, c[0], iv, iv2);
      [m] + Decrypt(k, c[1..], c[0], m)
  }

  function Last<B>(s: seq<B>, x: B): B {
    if s == [] then x else s[|s| - 1]
  }

  // ---- what one undoes of the other ----

  lemma BlockUndone<B(!new)>(k: Cipher<B>, x: B, iv: B, iv2: B)
    requires Lawful(k)
    ensures DecryptBlock(k, EncryptBlock(k, x, iv, iv2), iv, iv2) == x
    ensures EncryptBlock(k, DecryptBlock(k, x, iv, iv2), iv, iv2) == x
  {
  }

  lemma {:induction false} DecryptUndoesEncrypt<B(!new)>(k: Cipher<B>, m: seq<B>, iv: B, iv2: B)
    requires Lawful(k)
    ensures Decrypt(k, Encrypt(k, m, iv, iv2), iv, iv2) == m
  {
    if m != [] {
      var c := EncryptBlock(k, m[0], iv, iv2);
      BlockUndone(k, m[0], iv, iv2);
      DecryptUndoesEncrypt(k, m[1..], c, m[0]);
      assert Encrypt(k, m, iv, iv2)[1..] == Encrypt(k, m[1..], c, m[0]);
    }
  }

  lemma {:induction false} EncryptUndoesDecrypt<B(!new)>(k: Cipher<B>, c: seq<B>, iv: B, iv2: B)
    requires Lawful(k)
    ensures Encrypt(k, Decrypt(k, c, iv, iv2), iv, iv2) == c
  {
    if c != [] {
      var m := DecryptBlock(k, c[0], iv, iv2);
      BlockUndone(k, c[0], iv, iv2);
      EncryptUndoesDecrypt(k, c[1..], c[0], m);
      assert Decrypt(k, c, iv, iv2)[1..] == Decrypt(k, c[1..], c[0], m);
    }
  }

  /** Encrypting in pieces with the vectors left over is encrypting at once. */
  lemma {:induction false} EncryptInPieces<B>(k: Cipher<B>, a: seq<B>, b: seq<B>, iv: B, iv2: B)
    ensures var c := Encrypt(k, a, iv, iv2);
            Encrypt(k, a + b, iv, iv2) == c + Encrypt(k, b, Last(c, iv), Last(a, iv2))
  {
    if a == [] {
      assert a + b == b;
    } else {
      assert (a + b)[1..] == a[1..] + b;
      EncryptInPieces(k, a[1..], b, EncryptBlock(k, a[0], iv, iv2), a[0]);
    }
  }

  lemma {:induction false} DecryptInPieces<B>(k: Cipher<B>, a: seq<B>, b: seq<B>, iv: B, iv2: B)
    ensures var m := Decrypt(k, a, iv, iv2);
            Decrypt(k, a + b, iv, iv2) == m + Decrypt(k, b, Last(a, iv), Last(m, iv2))
  {
    if a == [] {
      assert a + b == b;
    } else {
      assert (a + b)[1..] == a[1..] + b;
      DecryptInPieces(k, a[1..], b, a[0], DecryptBlock(k, a[0], iv, iv2));
    }
  }

  // ---- both directions ----

  function Reversed<B>(s: seq<B>): (r: seq<B>)
    ensures |r| == |s| && forall i | 0 <= i < |s| :: r[i] == s[|s| - 1 - i]
  {
    seq(|s|, i requires 0 <= i < |s| => s[|s| - 1 - i])
  }

  function BiEncrypt<B>(k: Cipher<B>, m: seq<B>, v: seq<B>): (c: seq<B>)
    requires |v| == 4
    ensures |c| == |m|
  {
    Reversed(Encrypt(k, Reversed(Encrypt(k, m, v[0], v[1])), v[2], v[3]))
  }

  function BiDecrypt<B>(k: Cipher<B>, c: seq<B>, v: seq<B>): (m: seq<B>)
    requires |v| == 4
    ensures |m| == |c|
  {
    Decrypt(k, Reversed(Decrypt(k, Reversed(c), v[2], v[3])), v[0], v[1])
  }

  lemma ReversedTwice<B>(s: seq<B>)
    ensures Reversed(Reversed(s)) == s
  {
  }

  lemma BiDecryptUndoesBiEncrypt<B(!new)>(k: Cipher<B>, m: seq<B>, v: seq<B>)
    requires Lawful(k) && |v| == 4
    ensures BiDecrypt(k, BiEncrypt(k, m, v), v) == m
  {
    BackwardsUndone(k, Encrypt(k, m, v[0], v[1]), v);
    DecryptUndoesEncrypt(k, m, v[0], v[1]);
  }

  lemma BackwardsUndone<B(!new)>(k: Cipher<B>, x: seq<B>, v: seq<B>)
    requires Lawful(k) && |v| == 4
    ensures BiDecrypt(k, Reversed(Encrypt(k, Reversed(x), v[2], v[3])), v) == Decrypt(k, x, v[0], v[1])
  {
    var y := Encrypt(k, Reversed(x), v[2], v[3]);
    ReversedTwice(y);
    DecryptUndoesEncrypt(k, Reversed(x), v[2], v[3]);
    ReversedTwice(x);
  }

  // ---- both directions in place ----

  /**
   * The forward pass when input and output are one buffer: the block kept for the
   * second vector is read after it was overwritten, so it is the encrypted one.
   */
  function Overwriting<B>(k: Cipher<B>, m: seq<B>, iv: B, iv2: B): (c: seq<B>)
    ensures |c| == |m|
  {
    if m == [] then []
    else
      var c := EncryptBlock(k, m[0], iv, iv2);
      [c] + Overwriting(k, m[1..], c, c)
  }

  function BiEncryptInPlace<B>(k: Cipher<B>, m: seq<B>, v: seq<B>): (c: seq<B>)
    requires |v| == 4
    ensures |c| == |m|
  {
    Reversed(Encrypt(k, Reversed(Overwriting(k, m, v[0], v[1])), v[2], v[3]))
  }

  /** The forward pass changes no block but perhaps the last. */
  predicate KeepsAllButLast<B(==)>(m: seq<B>, c: seq<B>)
    requires |c| == |m|
  {
    forall i | 0 <= i < |m| - 1 :: c[i] == m[i]
  }

  lemma XorCancel<B(!new)>(k: Cipher<B>, x: B, y: B, z: B)
    requires Lawful(k) && k.xor(x, y) == k.xor(x, z)
    ensures y == z
  {
    assert y == k.xor(k.xor(y, x), x);
    assert z == k.xor(k.xor(z, x), x);
  }

  lemma {:induction false} OverwritingExactly<B(!new)>(k: Cipher<B>, m: seq<B>, iv: B, iv2: B)
    requires Lawful(k)
    ensures Overwriting(k, m, iv, iv2) == Encrypt(k, m, iv, iv2) <==> KeepsAllButLast(m, Encrypt(k, m, iv, iv2))
  {
    if |m| >= 2 {
      var c := EncryptBlock(k, m[0], iv, iv2);
      var w, e := Overwriting(k, m, iv, iv2), Encrypt(k, m, iv, iv2);
      assert w[1..] == Overwriting(k, m[1..], c, c) && e[1..] == Encrypt(k, m[1..], c, m[0]);
      if w == e {
        assert w[1] == EncryptBlock(k, m[1], c, c) && e[1] == EncryptBlock(k, m[1], c, m[0]);
        XorCancel(k, k.E(k.xor(m[1], c)), c, m[0]);
      }
      if c == m[0] {
        OverwritingExactly(k, m[1..], c, c);
        KeepsTail(m, e);
      }
    }
  }

  lemma KeepsTail<B>(m: seq<B>, c: seq<B>)
    requires |m| == |c| >= 2 && c[0] == m[0]
    ensures KeepsAllButLast(m, c) <==> KeepsAllButLast(m[1..], c[1..])
  {
    if KeepsAllButLast(m[1..], c[1..]) {
      forall i | 0 <= i < |m| - 1 ensures c[i] == m[i] {
        if i > 0 { assert c[1..][i - 1] == m[1..][i - 1]; }
      }
    }
  }

  /** Decryption undoes the encryption in place exactly when the forward pass keeps every block but the last. */
  lemma BiInPlaceExactly<B(!new)>(k: Cipher<B>, m: seq<B>, v: seq<B>)
    requires Lawful(k) && |v| == 4
    ensures BiDecrypt(k, BiEncryptInPlace(k, m, v), v) == m <==> KeepsAllButLast(m, Encrypt(k, m, v[0], v[1]))
  {
    var w := Overwriting(k, m, v[0], v[1]);
    BackwardsUndone(k, w, v);
    DecryptUndoesEncrypt(k, m, v[0], v[1]);
    EncryptUndoesDecrypt(k, w, v[0], v[1]);
    OverwritingExactly(k, m, v[0], v[1]);
  }

  /**
   * The condition without the pass: the first block is a fixed point up to the vectors,
   * and the exclusive-or of each later block but the last with the one before it is a
   * fixed point of the cipher.
   */
  predicate FixedPoints<B(==)>(k: Cipher<B>, m: seq<B>, iv: B, iv2: B) {
    |m| >= 2 ==>
      && k.E(k.xor(m[0], iv)) == k.xor(m[0], iv2)
      && forall i | 1 <= i < |m| - 1 :: k.E(k.xor(m[i], m[i - 1])) == k.xor(m[i], m[i - 1])
  }

  lemma FixedBlock<B(!new)>(k: Cipher<B>, x: B, iv: B, iv2: B)
    requires Lawful(k)
    ensures EncryptBlock(k, x, iv, iv2) == x <==> k.E(k.xor(x, iv)) == k.xor(x, iv2)
  {
    var y := k.E(k.xor(x, iv));
    assert k.xor(k.xor(y, iv2), iv2) == y;
  }

  lemma {:induction false} KeepsExactly<B(!new)>(k: Cipher<B>, m: seq<B>, iv: B, iv2: B)
    requires Lawful(k)
    ensures KeepsAllButLast(m, Encrypt(k, m, iv, iv2)) <==> FixedPoints(k, m, iv, iv2)
  {
    if |m| >= 2 {
      var c, e := EncryptBlock(k, m[0], iv, iv2), Encrypt(k, m, iv, iv2);
      FixedBlock(k, m[0], iv, iv2);
      assert e[0] == c && e[1..] == Encrypt(k, m[1..], c, m[0]);
      if c == m[0] {
        KeepsTail(m, e);
        KeepsExactly(k, m[1..], c, c);
        FixedTail(k, m, iv, iv2);
      }
    }
  }

  lemma FixedTail<B(!new)>(k: Cipher<B>, m: seq<B>, iv: B, iv2: B)
    requires |m| >= 2 && k.E(k.xor(m[0], iv)) == k.xor(m[0], iv2)
    ensures FixedPoints(k, m, iv, iv2) <==> FixedPoints(k, m[1..], m[0], m[0])
  {
    var t := m[1..];
    if FixedPoints(k, t, m[0], m[0]) {
      forall i | 1 <= i < |m| - 1 ensures k.E(k.xor(m[i], m[i - 1])) == k.xor(m[i], m[i - 1]) {
        assert t[i - 1] == m[i] && (i > 1 ==> t[i - 2] == m[i - 1]);
      }
    } else {
      assert forall i | 1 <= i < |t| - 1 :: t[i] == m[i + 1] && t[i - 1] == m[i];
    }
  }

  /** Encryption in place is undone exactly at such fixed points, and so always for at most one block. */
  lemma BiInPlaceFixed<B(!new)>(k: Cipher<B>, m: seq<B>, v: seq<B>)
    requires Lawful(k) && |v| == 4
    ensures BiDecrypt(k, BiEncryptInPlace(k, m, v), v) == m <==> FixedPoints(k, m, v[0], v[1])
  {
    BiInPlaceExactly(k, m, v);
    KeepsExactly(k, m, v[0], v[1]);
  }

  /** A permutation of sixteen-byte blocks. */
  ghost predicate Permutes(k: Cipher<bv128>) {
    Lawful(k) && forall x, y :: k.xor(x, y) == Xor(x, y)
  }

  function Xor(x: bv128, y: bv128): bv128 {
    x ^ y
  }

  lemma XorLaws(xor: (bv128, bv128) -> bv128)
    requires forall x, y :: xor(x, y) == x ^ y
    ensures forall x, y :: xor(xor(x, y), y) == x && xor(x, y) == xor(y, x)
  {
  }

  /** The permutation that adds `d`. */
  function Adding(d: bv128): Cipher<bv128> {
    Cipher((x: bv128) => Xor(x, d), (x: bv128) => Xor(x, d), Xor)
  }

  lemma AddingLawful<B(!new)>(k: Cipher<B>, d: B)
    requires forall x: B, y: B :: k.xor(k.xor(x, y), y) == x && k.xor(x, y) == k.xor(y, x)
    requires forall x: B :: k.E(x) == k.D(x) == k.xor(x, d)
    ensures Lawful(k)
  {
  }

  lemma AddingPermutes(d: bv128)
    ensures Permutes(Adding(d))
  {
    XorLaws(Xor);
    AddingLawful(Adding(d), d);
  }

  lemma OneOff(x: bv128, a: bv128, b: bv128)
    ensures Xor(Xor(x, a), a ^ b ^ 1) != Xor(x, b)
  {
  }

  /** Two or more blocks are lost under some permutation, whatever the vectors. */
  lemma BiInPlaceLost(m: seq<bv128>, v: seq<bv128>, d: bv128)
    requires |v| == 4 && |m| >= 2 && d == v[0] ^ v[1] ^ 1
    ensures Permutes(Adding(d)) && BiDecrypt(Adding(d), BiEncryptInPlace(Adding(d), m, v), v) != m
  {
    AddingPermutes(d);
    BiInPlaceFixed(Adding(d), m, v);
    OneOff(m[0], v[0], v[1]);
  }

  /** What a caller can tell without the key: every permutation is undone exactly for at most one block. */
  lemma BiInPlaceSafe(m: seq<bv128>, v: seq<bv128>)
    requires |v| == 4
    ensures (forall k: Cipher<bv128> :: Permutes(k) ==> BiDecrypt(k, BiEncryptInPlace(k, m, v), v) == m) <==> |m| <= 1
  {
    if |m| <= 1 {
      forall k: Cipher<bv128> | Permutes(k) ensures BiDecrypt(k, BiEncryptInPlace(k, m, v), v) == m {
        BiInPlaceFixed(k, m, v);
      }
    } else {
      BiInPlaceLost(m, v, v[0] ^ v[1] ^ 1);
    }
  }

  /** Two blocks of zeros that do not come back. */
  lemma BiInPlaceLoses()
    ensures Permutes(Adding(1))
    ensures var m, v := [0, 0], [0, 0, 0, 0]; BiDecrypt(Adding(1), BiEncryptInPlace(Adding(1), m, v), v) != m
  {
    AddingPermutes(1);
    BiInPlaceFixed(Adding(1), [0, 0], [0, 0, 0, 0]);
  }

  // ---- the passes ----

  lemma EncryptNext<B>(k: Cipher<B>, s: seq<B>, j: nat, iv: B, iv2: B)
    requires j < |s|
    ensures var c := Encrypt(k, s[..j], iv, iv2);
            Encrypt(k, s[..j + 1], iv, iv2) == c + [EncryptBlock(k, s[j], Last(c, iv), Last(s[..j], iv2))]
  {
    EncryptInPieces(k, s[..j], [s[j]], iv, iv2);
    assert s[..j + 1] == s[..j] + [s[j]];
  }

  lemma DecryptNext<B>(k: Cipher<B>, s: seq<B>, j: nat, iv: B, iv2: B)
    requires j < |s|
    ensures var m := Decrypt(k, s[..j], iv, iv2);
            Decrypt(k, s[..j + 1], iv, iv2) == m + [DecryptBlock(k, s[j], Last(s[..j], iv), Last(m, iv2))]
  {
    DecryptInPieces(k, s[..j], [s[j]], iv, iv2);
    assert s[..j + 1] == s[..j] + [s[j]];
  }

  /** A pointer into a buffer. */
  datatype At<!B> = At(cells: array<B>, i: nat)

  /** The vector is where it was given, or in the block before the `j`-th of `cells`. */
  ghost predicate Follows<B>(p: At<B>, ivec: array<B>, which: nat, cells: array<B>, j: nat) {
    p == if j == 0 then At(ivec, which) else At(cells, j - 1)
  }

  /** Distinct buffers: the vectors are pointers that chase the blocks. */
  method EncryptChasing<B>(k: Cipher<B>, src: array<B>, dst: array<B>, ivec: array<B>)
    requires src != dst && ivec != src && ivec != dst && ivec.Length == 2 && src.Length == dst.Length
    modifies dst, ivec
    ensures dst[..] == Encrypt(k, src[..], old(ivec[0]), old(ivec[1]))
    ensures ivec[0] == Last(dst[..], old(ivec[0])) && ivec[1] == Last(src[..], old(ivec[1]))
  {
    var ivp, iv2p, j := At(ivec, 0), At(ivec, 1), 0;
    ghost var m, iv, iv2 := src[..], ivec[0], ivec[1];
    while j < src.Length
      invariant j <= src.Length && ivec[0] == iv && ivec[1] == iv2
      invariant Follows(ivp, ivec, 0, dst, j) && Follows(iv2p, ivec, 1, src, j)
      invariant dst[..j] == Encrypt(k, m[..j], iv, iv2)
    {
      EncryptNext(k, m, j, iv, iv2);
      dst[j] := k.xor(src[j], ivp.cells[ivp.i]);
      dst[j] := k.E(dst[j]);
      dst[j] := k.xor(dst[j], iv2p.cells[iv2p.i]);
      ivp, iv2p := At(dst, j), At(src, j);
      j := j + 1;
    }
    assert m[..j] == m && dst[..j] == dst[..];
    ivec[0] := ivp.cells[ivp.i];
    ivec[1] := iv2p.cells[iv2p.i];
  }

  /** One buffer or two: each block is copied out before it is overwritten. */
  method EncryptCopying<B>(k: Cipher<B>, src: array<B>, dst: array<B>, ivec: array<B>)
    requires ivec != src && ivec != dst && ivec.Length == 2 && src.Length == dst.Length
    modifies dst, ivec
    ensures dst[..] == Encrypt(k, old(src[..]), old(ivec[0]), old(ivec[1]))
    ensures ivec[0] == Last(dst[..], old(ivec[0])) && ivec[1] == Last(old(src[..]), old(ivec[1]))
  {
    var iv, iv2, j := ivec[0], ivec[1], 0;
    ghost var m, was, was2 := src[..], iv, iv2;
    while j < src.Length
      invariant j <= src.Length && src[j..] == m[j..]
      invariant dst[..j] == Encrypt(k, m[..j], was, was2)
      invariant iv == Last(dst[..j], was) && iv2 == Last(m[..j], was2)
    {
      EncryptNext(k, m, j, was, was2);
      assert src[j] == src[j..][0];
      var tmp := src[j];
      var tmp2 := k.xor(tmp, iv);
      tmp2 := k.E(tmp2);
      tmp2 := k.xor(tmp2, iv2);
      dst[j] := tmp2;
      iv, iv2, j := tmp2, tmp, j + 1;
    }
    assert m[..j] == m && dst[..j] == dst[..];
    ivec[0] := iv;
    ivec[1] := iv2;
  }

  method DecryptChasing<B>(k: Cipher<B>, src: array<B>, dst: array<B>, ivec: array<B>)
    requires src != dst && ivec != src && ivec != dst && ivec.Length == 2 && src.Length == dst.Length
    modifies dst, ivec
    ensures dst[..] == Decrypt(k, src[..], old(ivec[0]), old(ivec[1]))
    ensures ivec[0] == Last(src[..], old(ivec[0])) && ivec[1] == Last(dst[..], old(ivec[1]))
  {
    var ivp, iv2p, j := At(ivec, 0), At(ivec, 1), 0;
    ghost var c, iv, iv2 := src[..], ivec[0], ivec[1];
    while j < src.Length
      invariant j <= src.Length && ivec[0] == iv && ivec[1] == iv2
      invariant Follows(ivp, ivec, 0, src, j) && Follows(iv2p, ivec, 1, dst, j)
      invariant dst[..j] == Decrypt(k, c[..j], iv, iv2)
    {
      DecryptNext(k, c, j, iv, iv2);
      var tmp := k.xor(src[j], iv2p.cells[iv2p.i]);
      dst[j] := k.D(tmp);
      dst[j] := k.xor(dst[j], ivp.cells[ivp.i]);
      ivp, iv2p := At(src, j), At(dst, j);
      j := j + 1;
    }
    assert c[..j] == c && dst[..j] == dst[..];
    ivec[0] := ivp.cells[ivp.i];
    ivec[1] := iv2p.cells[iv2p.i];
  }

  method DecryptCopying<B>(k: Cipher<B>, src: array<B>, dst: array<B>, ivec: array<B>)
    requires ivec != src && ivec != dst && ivec.Length == 2 && src.Length == dst.Length
    modifies dst, ivec
    ensures dst[..] == Decrypt(k, old(src[..]), old(ivec[0]), old(ivec[1]))
    ensures ivec[0] == Last(old(src[..]), old(ivec[0])) && ivec[1] == Last(dst[..], old(ivec[1]))
  {
    var iv, iv2, j := ivec[0], ivec[1], 0;
    ghost var c, was, was2 := src[..], iv, iv2;
    while j < src.Length
      invariant j <= src.Length && src[j..] == c[j..]
      invariant dst[..j] == Decrypt(k, c[..j], was, was2)
      invariant iv == Last(c[..j], was) && iv2 == Last(dst[..j], was2)
    {
      DecryptNext(k, c, j, was, was2);
      assert src[j] == src[j..][0];
      var tmp := src[j];
      var tmp2 := tmp;
      tmp := k.xor(tmp, iv2);
      tmp := k.D(tmp);
      tmp := k.xor(tmp, iv);
      dst[j] := tmp;
      iv, iv2, j := tmp2, tmp, j + 1;
    }
    assert c[..j] == c && dst[..j] == dst[..];
    ivec[0] := iv;
    ivec[1] := iv2;
  }

  /** Whichever path the buffers and their alignment select, the result is the same. */
  method IgeEncrypt<B>(k: Cipher<B>, src: array<B>, dst: array<B>, ivec: array<B>, enc: bool, aligned: bool)
    requires ivec != src && ivec != dst && ivec.Length == 2 && src.Length == dst.Length
    modifies dst, ivec
    ensures dst[..] == if enc then Encrypt(k, old(src[..]), old(ivec[0]), old(ivec[1]))
                       else Decrypt(k, old(src[..]), old(ivec[0]), old(ivec[1]))
    ensures enc ==> ivec[0] == Last(dst[..], old(ivec[0])) && ivec[1] == Last(old(src[..]), old(ivec[1]))
    ensures !enc ==> ivec[0] == Last(old(src[..]), old(ivec[0])) && ivec[1] == Last(dst[..], old(ivec[1]))
  {
    if enc {
      if src != dst && aligned {
        EncryptChasing(k, src, dst, ivec);
      } else {
        EncryptCopying(k, src, dst, ivec);
      }
    } else {
      if src != dst && aligned {
        DecryptChasing(k, src, dst, ivec);
      } else {
        DecryptCopying(k, src, dst, ivec);
      }
    }
  }

  // ---- the passes in both directions ----

  function Forward<B>(same: bool, k: Cipher<B>, m: seq<B>, iv: B, iv2: B): (c: seq<B>)
    ensures |c| == |m|
  {
    if same then Overwriting(k, m, iv, iv2) else Encrypt(k, m, iv, iv2)
  }

  lemma {:induction false} OverwritingInPieces<B>(k: Cipher<B>, a: seq<B>, b: seq<B>, iv: B, iv2: B)
    ensures var c := Overwriting(k, a, iv, iv2);
            Overwriting(k, a + b, iv, iv2) == c + Overwriting(k, b, Last(c, iv), Last(c, iv2))
  {
    if a == [] {
      assert a + b == b;
    } else {
      var c := EncryptBlock(k, a[0], iv, iv2);
      assert (a + b)[1..] == a[1..] + b;
      OverwritingInPieces(k, a[1..], b, c, c);
    }
  }

  lemma ForwardNext<B>(same: bool, k: Cipher<B>, s: seq<B>, j: nat, iv: B, iv2: B)
    requires j < |s|
    ensures var c := Forward(same, k, s[..j], iv, iv2);
            Forward(same, k, s[..j + 1], iv, iv2)
              == c + [EncryptBlock(k, s[j], Last(c, iv), Last(if same then c else s[..j], iv2))]
  {
    assert s[..j + 1] == s[..j] + [s[j]];
    if same {
      OverwritingInPieces(k, s[..j], [s[j]], iv, iv2);
    } else {
      EncryptNext(k, s, j, iv, iv2);
    }
  }

  /** Forward, encrypting: the block for the second vector is copied after the output block is written. */
  method ForwardPass<B>(k: Cipher<B>, src: array<B>, dst: array<B>, ivec: array<B>)
    requires ivec != src && ivec != dst && ivec.Length == 4 && src.Length == dst.Length
    modifies dst
    ensures dst[..] == Forward(src == dst, k, old(src[..]), ivec[0], ivec[1])
  {
    var iv, iv2, j := At(ivec, 0), ivec[1], 0;
    ghost var m, v0, v1, same := src[..], ivec[0], ivec[1], src == dst;
    while j < src.Length
      invariant j <= src.Length && src[j..] == m[j..] && Follows(iv, ivec, 0, dst, j)
      invariant !same ==> src[..] == m
      invariant dst[..j] == Forward(same, k, m[..j], v0, v1)
      invariant iv2 == Last(if same then dst[..j] else m[..j], v1)
    {
      ForwardNext(same, k, m, j, v0, v1);
      assert src[j] == src[j..][0];
      dst[j] := k.xor(src[j], iv.cells[iv.i]);
      dst[j] := k.E(dst[j]);
      dst[j] := k.xor(dst[j], iv2);
      iv := At(dst, j);
      iv2 := src[j];
      j := j + 1;
    }
    assert m[..j] == m && dst[..j] == dst[..];
  }

  lemma ReversedMore<B>(s: seq<B>, x: B)
    ensures Reversed(s + [x]) == [x] + Reversed(s)
  {
  }

  lemma BackwardNext<B>(k: Cipher<B>, x: seq<B>, j: nat, iv: B, iv2: B, done: seq<B>)
    requires 1 <= j <= |x| && done == Reversed(Encrypt(k, Reversed(x)[..|x| - j], iv, iv2))
    ensures Reversed(Encrypt(k, Reversed(x)[..|x| - j + 1], iv, iv2)) ==
            [EncryptBlock(k, x[j - 1], if done == [] then iv else done[0], if j == |x| then iv2 else x[j])] + done
  {
    var r, n := Reversed(x), |x| - j;
    var c := Encrypt(k, r[..n], iv, iv2);
    EncryptNext(k, r, n, iv, iv2);
    ReversedMore(c, EncryptBlock(k, r[n], Last(c, iv), Last(r[..n], iv2)));
  }

  /** One block of the backward pass. */
  method BackwardBlock<B>(k: Cipher<B>, dst: array<B>, j: nat, iv: At<B>, iv2: B) returns (tmp: B)
    requires j < dst.Length && iv.i < iv.cells.Length && (iv.cells == dst ==> iv.i != j)
    modifies dst
    ensures tmp == old(dst[j]) && dst[j] == EncryptBlock(k, tmp, old(iv.cells[iv.i]), iv2)
    ensures dst[..j] == old(dst[..j]) && dst[j..] == [dst[j]] + old(dst[j + 1..])
  {
    tmp := dst[j];
    dst[j] := k.xor(dst[j], iv.cells[iv.i]);
    dst[j] := k.E(dst[j]);
    dst[j] := k.xor(dst[j], iv2);
  }

  /** Backward, encrypting in place. */
  method BackwardPass<B>(k: Cipher<B>, dst: array<B>, ivec: array<B>)
    requires ivec != dst && ivec.Length == 4
    modifies dst
    ensures dst[..] == Reversed(Encrypt(k, Reversed(old(dst[..])), ivec[2], ivec[3]))
  {
    var iv, iv2, j := At(ivec, 2), ivec[3], dst.Length;
    ghost var x, v2, v3, n := dst[..], ivec[2], ivec[3], dst.Length;
    while j > 0
      invariant 0 <= j <= n && dst[..j] == x[..j]
      invariant iv == if j == n then At(ivec, 2) else At(dst, j)
      invariant iv2 == if j == n then v3 else x[j]
      invariant dst[j..] == Reversed(Encrypt(k, Reversed(x)[..n - j], v2, v3))
    {
      BackwardNext(k, x, j, v2, v3, dst[j..]);
      j := j - 1;
      assert dst[j] == dst[..j + 1][j] == x[j];
      var tmp := BackwardBlock(k, dst, j, iv, iv2);
      assert dst[..j] == x[..j];
      iv, iv2 := At(dst, j), tmp;
    }
    assert Reversed(x)[..n] == Reversed(x) && dst[0..] == dst[..];
  }

  /** Encryption in both directions: right for two buffers, and what it does to one. */
  method BiIgeEncrypt<B>(k: Cipher<B>, src: array<B>, dst: array<B>, ivec: array<B>)
    requires ivec != src && ivec != dst && ivec.Length == 4 && src.Length == dst.Length
    modifies dst
    ensures dst[..] == if src == dst then BiEncryptInPlace(k, old(src[..]), ivec[..])
                       else BiEncrypt(k, src[..], ivec[..])
  {
    ForwardPass(k, src, dst, ivec);
    BackwardPass(k, dst, ivec);
  }

  lemma UnwindNext<B>(k: Cipher<B>, c: seq<B>, j: nat, iv: B, iv2: B, done: seq<B>)
    requires 1 <= j <= |c| && done == Reversed(Decrypt(k, Reversed(c)[..|c| - j], iv, iv2))
    ensures Reversed(Decrypt(k, Reversed(c)[..|c| - j + 1], iv, iv2)) ==
            [DecryptBlock(k, c[j - 1], if j == |c| then iv else c[j], if done == [] then iv2 else done[0])] + done
  {
    var r, n := Reversed(c), |c| - j;
    var m := Decrypt(k, r[..n], iv, iv2);
    DecryptNext(k, r, n, iv, iv2);
    ReversedMore(m, DecryptBlock(k, r[n], Last(r[..n], iv), Last(m, iv2)));
  }

  /** One block of a decrypting pass; the block read is copied before it is overwritten. */
  method UnwindBlock<B>(k: Cipher<B>, src: array<B>, dst: array<B>, j: nat, iv: B, iv2: At<B>) returns (tmp2: B)
    requires j < src.Length == dst.Length && iv2.i < iv2.cells.Length && (iv2.cells == dst ==> iv2.i != j)
    modifies dst
    ensures tmp2 == old(src[j]) && dst[j] == DecryptBlock(k, tmp2, iv, old(iv2.cells[iv2.i]))
    ensures dst[..j] == old(dst[..j]) && dst[j + 1..] == old(dst[j + 1..])
    ensures dst[j..] == [dst[j]] + old(dst[j + 1..]) && dst[..j + 1] == old(dst[..j]) + [dst[j]]
  {
    var tmp := src[j];
    tmp2 := src[j];
    tmp := k.xor(tmp, iv2.cells[iv2.i]);
    dst[j] := k.D(tmp);
    dst[j] := k.xor(dst[j], iv);
  }

  /** Backward, decrypting from `src` into `dst`, which may be one buffer. */
  method UnwindBackward<B>(k: Cipher<B>, src: array<B>, dst: array<B>, ivec: array<B>)
    requires ivec != src && ivec != dst && ivec.Length == 4 && src.Length == dst.Length
    modifies dst
    ensures dst[..] == Reversed(Decrypt(k, Reversed(old(src[..])), ivec[2], ivec[3]))
  {
    var iv, iv2, j := ivec[2], At(ivec, 3), dst.Length;
    ghost var c, v2, v3, n := src[..], ivec[2], ivec[3], dst.Length;
    while j > 0
      invariant 0 <= j <= n && src[..j] == c[..j]
      invariant iv == if j == n then v2 else c[j]
      invariant iv2 == if j == n then At(ivec, 3) else At(dst, j)
      invariant dst[j..] == Reversed(Decrypt(k, Reversed(c)[..n - j], v2, v3))
    {
      UnwindNext(k, c, j, v2, v3, dst[j..]);
      j := j - 1;
      assert src[j] == src[..j + 1][j] == c[j];
      var tmp2 := UnwindBlock(k, src, dst, j, iv, iv2);
      assert src[..j] == c[..j];
      iv, iv2 := tmp2, At(dst, j);
    }
    assert Reversed(c)[..n] == Reversed(c) && dst[0..] == dst[..];
  }

  /** Forward, decrypting in place. */
  method UnwindForward<B>(k: Cipher<B>, dst: array<B>, ivec: array<B>)
    requires ivec != dst && ivec.Length == 4
    modifies dst
    ensures dst[..] == Decrypt(k, old(dst[..]), ivec[0], ivec[1])
  {
    var iv, iv2, j := ivec[0], At(ivec, 1), 0;
    ghost var x, v0, v1 := dst[..], ivec[0], ivec[1];
    while j < dst.Length
      invariant j <= dst.Length && dst[j..] == x[j..] && Follows(iv2, ivec, 1, dst, j)
      invariant dst[..j] == Decrypt(k, x[..j], v0, v1)
      invariant iv == Last(x[..j], v0)
    {
      DecryptNext(k, x, j, v0, v1);
      assert dst[j] == dst[j..][0];
      var tmp2 := UnwindBlock(k, dst, dst, j, iv, iv2);
      iv, iv2 := tmp2, At(dst, j);
      j := j + 1;
    }
    assert x[..j] == x && dst[..j] == dst[..];
  }

  method BiIgeDecrypt<B>(k: Cipher<B>, src: array<B>, dst: array<B>, ivec: array<B>)
    requires ivec != src && ivec != dst && ivec.Length == 4 && src.Length == dst.Length
    modifies dst
    ensures dst[..] == BiDecrypt(k, old(src[..]), ivec[..])
  {
    UnwindBackward(k, src, dst, ivec);
    UnwindForward(k, dst, ivec);
  }
}
