/**
 The cryptographic primitives, as functions constrained only by what the formats rely on:
 output lengths, the keystream prefix property, and the correctness of point encoding.
 Nothing here claims secrecy or unforgeability.
 */
module Primitives {
  import opened Bytes
  import opened Group

  /** The bytes of an ASCII label (`utf8ToBytes`). */
  function Ascii(s: string): (r: bytes)
    ensures |r| == |s|
    ensures forall i :: 0 <= i < |s| && s[i] as int < 128 ==> IntOf(r[i]) == s[i] as int
  {
    seq(|s|, i requires 0 <= i < |s| => AsciiByte(s[i]))
  }

  function AsciiByte(c: char): (b: byte)
    ensures c as int < 128 ==> IntOf(b) == c as int
  {
    ByteOf(c as int % 256)
  }

  datatype Suite = Suite(
    order: nat,                        // L, the prime order of Ristretto255
    encode: nat -> bytes,              // toRawBytes of the point with this discrete logarithm
    decode: bytes -> Option<nat>,      // fromHex, None where it throws
    sha256: bytes -> bytes,
    sha512: bytes -> bytes,
    hmac: (bytes, bytes) -> bytes,     // HMAC-SHA512
    chacha: (bytes, nat) -> bytes)     // the ChaCha20 keystream under the all-zero nonce
  {
    ghost predicate Valid() {
      && IsPrime(order)
      && (forall p :: 0 <= p < order ==> |encode(p)| == 32 && decode(encode(p)) == Some(p))
      && (forall b :: decode(b).Some? ==> decode(b).value < order)
      && (forall m :: |sha256(m)| == 32)
      && (forall m :: |sha512(m)| == 64)
      && (forall k, m :: |hmac(k, m)| == 64)
      && (forall k, n: nat :: |chacha(k, n)| == n)
      && (forall k, n: nat, m: nat | m <= n :: chacha(k, n)[..m] == chacha(k, m))
    }

    /** `point.multiply(scalar)`: the library refuses scalars outside 1..L-1. */
    function Multiply(point: nat, scalar: nat): Option<nat>
      requires order > 0
    {
      if 1 <= scalar < order then Some((point * scalar) % order) else None
    }

    function Subkey(name: string, s: bytes): (r: bytes)
      requires Valid()
      ensures |r| == 32
    {
      sha256(Ascii(name) + s)
    }

    function Prg(key: bytes, len: nat): (r: bytes)
      requires Valid()
      ensures |r| == len
    {
      chacha(key, len)
    }

    /** HMAC-SHA512 cut to its first n bytes. */
    function Mac(key: bytes, data: bytes, n: nat): (r: bytes)
      requires Valid() && n <= 64
      ensures |r| == n
    {
      hmac(key, data)[..n]
    }
  }

  /** The assumptions are consistent: a (useless) suite over Z_2 meets every one of them. */
  lemma SuiteExists() returns (s: Suite)
    ensures s.Valid()
  {
    var enc := (p: nat) => if p == 0 then Zeros(32) else [1] + Zeros(31);
    var dec := (b: bytes) => if |b| > 0 && b[0] == 1 then Some(1) else Some(0);
    s := Suite(2, enc, dec, _ => Zeros(32), _ => Zeros(64), (_, _) => Zeros(64), (_, n: nat) => Zeros(n));
    assert IsPrime(2);
    forall n: nat, m: nat | m <= n ensures Zeros(n)[..m] == Zeros(m) {}
  }

  // ---- little-endian numbers -------------------------------------------------

  function NumberLE(b: bytes): nat {
    if b == [] then 0 else IntOf(b[0]) + 256 * NumberLE(b[1..])
  }

  /** `bytesToNumberLE` runs from the last byte down. */
  method BytesToNumberLE(b: bytes) returns (n: nat)
    ensures n == NumberLE(b)
  {
    n := 0;
    var i := |b|;
    while i > 0
      invariant 0 <= i <= |b| && n == NumberLE(b[i..])
    {
      i := i - 1;
      assert b[i..][1..] == b[i+1..];
      n := n * 256 + IntOf(b[i]);
    }
    assert b[0..] == b;
  }

  function Pow256(n: nat): nat {
    if n == 0 then 1 else 256 * Pow256(n - 1)
  }

  /** Byte i counts 256^i. */
  lemma {:induction false} NumberSnoc(b: bytes, x: byte)
    ensures NumberLE(b + [x]) == NumberLE(b) + IntOf(x) * Pow256(|b|)
  {
    hide IntOf;
    if b == [] {
      assert ([] + [x])[1..] == [];
    } else {
      assert (b + [x])[1..] == b[1..] + [x];
      NumberSnoc(b[1..], x);
      assert 256 * (IntOf(x) * Pow256(|b| - 1)) == IntOf(x) * Pow256(|b|);
    }
  }
}
