/** Bytes, little-endian words, and writing into a byte sequence. */
module Bytes {

  type Byte = x: nat | x < 256

  function LE(n: nat, x: nat): (s: seq<Byte>)
    ensures |s| == n
  {
    if n == 0 then [] else [x % 256] + LE(n - 1, x / 256)
  }

  function FromLE(s: seq<Byte>): nat {
    if s == [] then 0 else s[0] + 256 * FromLE(s[1..])
  }

  function Pow256(n: nat): (p: nat)
    ensures p >= 1
  {
    if n == 0 then 1 else 256 * Pow256(n - 1)
  }

  /** A word that fits comes back from its bytes. */
  lemma {:induction false} WordRoundTrip(n: nat, x: nat)
    requires x < Pow256(n)
    ensures FromLE(LE(n, x)) == x
  {
    if n > 0 {
      assert LE(n, x)[1..] == LE(n - 1, x / 256);
      WordRoundTrip(n - 1, x / 256);
    }
  }

  /** And the bytes of a word come back from the word. */
  lemma {:induction false} BytesRoundTrip(s: seq<Byte>)
    ensures LE(|s|, FromLE(s)) == s && FromLE(s) < Pow256(|s|)
  {
    if s != [] {
      BytesRoundTrip(s[1..]);
      assert s == [s[0]] + s[1..];
    }
  }

  lemma Word64(x: nat)
    requires x < 0x1_0000_0000_0000_0000
    ensures FromLE(LE(8, x)) == x
  {
    assert Pow256(4) == 0x1_0000_0000;
    assert Pow256(8) == 0x1_0000_0000_0000_0000;
    WordRoundTrip(8, x);
  }

  lemma Word32(x: nat)
    requires x < 0x1_0000_0000
    ensures FromLE(LE(4, x)) == x
  {
    assert Pow256(4) == 0x1_0000_0000;
    WordRoundTrip(4, x);
  }

  function Zeros(n: nat): (s: seq<Byte>)
    ensures |s| == n
  {
    seq(n, _ => 0)
  }

  /** A little-endian field of the bytes. */
  function Field(b: seq<Byte>, off: nat, n: nat): nat
    requires off + n <= |b|
  {
    FromLE(b[off..off + n])
  }

  type Digest = d: seq<Byte> | |d| == 32 witness Zeros(32)

  /** BLAKE3 of a byte string; nothing is assumed of it here. */
  type Hash = seq<Byte> -> Digest

  /** The bytes with `src` written over them at `off`. */
  function Put(m: seq<Byte>, off: nat, src: seq<Byte>): (r: seq<Byte>)
    requires off + |src| <= |m|
    ensures |r| == |m|
    ensures r[off..off + |src|] == src
    ensures r[..off] == m[..off] && r[off + |src|..] == m[off + |src|..]
  {
    m[..off] + src + m[off + |src|..]
  }

  /** A write leaves every stretch it does not touch. */
  lemma PutApart(m: seq<Byte>, off: nat, src: seq<Byte>, a: nat, z: nat)
    requires off + |src| <= |m| && a <= z <= |m| && (z <= off || off + |src| <= a)
    ensures Put(m, off, src)[a..z] == m[a..z]
  {
  }

  /** Two byte strings that agree from `a` to `z`. */
  predicate Agree(m: seq<Byte>, m': seq<Byte>, a: nat, z: nat) {
    |m| == |m'| && z <= |m| && forall i :: a <= i < z ==> m[i] == m'[i]
  }

  lemma AgreeSlice(m: seq<Byte>, m': seq<Byte>, a: nat, z: nat, i: nat, j: nat)
    requires Agree(m, m', a, z) && a <= i <= j <= z
    ensures m[i..j] == m'[i..j]
  {
  }

  lemma AgreeWithin(m: seq<Byte>, m': seq<Byte>, a: nat, z: nat, i: nat, j: nat)
    requires Agree(m, m', a, z) && a <= i && j <= z
    ensures Agree(m, m', i, j)
  {
  }

  lemma AgreeTwice(m: seq<Byte>, m': seq<Byte>, m'': seq<Byte>, a: nat, z: nat)
    requires Agree(m, m', a, z) && Agree(m', m'', a, z)
    ensures Agree(m, m'', a, z)
  {
  }

  lemma PutAgrees(m: seq<Byte>, off: nat, src: seq<Byte>, a: nat, z: nat)
    requires off + |src| <= |m| && a <= z <= |m| && (z <= off || off + |src| <= a)
    ensures Agree(m, Put(m, off, src), a, z)
  {
  }
}
