/** Byte strings (`Uint8Array` values) and the small helpers every packet format is built from. */
module Bytes {

  type byte = bv8
  type bytes = seq<byte>

  datatype Option<+T> = None | Some(value: T)

  function Min(a: int, b: int): int {
    if a <= b then a else b
  }

  function Max(a: int, b: int): int {
    if a >= b then a else b
  }

  /** A fresh `new Uint8Array(n)`. */
  function Zeros(n: nat): (z: bytes)
    ensures |z| == n
  {
    seq(n, _ => 0)
  }

  /** `subarray(lo, hi)`: both ends are clamped to the array, never out of range. */
  function Sub(b: bytes, lo: nat, hi: nat): (r: bytes)
    requires lo <= hi
  {
    b[Min(lo, |b|)..Min(hi, |b|)]
  }

  // ---- bytes as numbers ------------------------------------------------------

  function IntOf(b: byte): (n: nat)
    ensures n < 256
  {
    b as int
  }

  lemma NextByte(b: byte)
    ensures b == 255 <==> IntOf(b) == 255
    ensures b != 255 ==> IntOf(b + 1) == IntOf(b) + 1
  {}

  /** The byte with value `n`, counted up one at a time. */
  function ByteOf(n: nat): (b: byte)
    requires n < 256
    ensures IntOf(b) == n
  {
    if n == 0 then 0
    else
      var b := ByteOf(n - 1);
      NextByte(b);
      b + 1
  }

  lemma IntOfInjective(a: byte, b: byte)
    requires IntOf(a) == IntOf(b)
    ensures a == b
  {}

  lemma ByteOfInt(b: byte)
    ensures ByteOf(IntOf(b)) == b
  {
    IntOfInjective(ByteOf(IntOf(b)), b);
  }

  // ---- exclusive or ----------------------------------------------------------

  /** The pointwise exclusive or, cut to the shorter operand. */
  function Xor(a: bytes, b: bytes): (r: bytes)
    ensures |r| == Min(|a|, |b|)
    ensures forall i :: 0 <= i < |r| ==> r[i] == a[i] ^ b[i]
  {
    seq(Min(|a|, |b|), i requires 0 <= i < Min(|a|, |b|) => a[i] ^ b[i])
  }

  /** The accumulating loop `xorBytes` computes `Xor`. */
  method XorBytes(a: bytes, b: bytes) returns (r: bytes)
    ensures r == Xor(a, b)
  {
    var n := Min(|a|, |b|);
    var out := new byte[n];
    for i := 0 to n
      invariant forall j :: 0 <= j < i ==> out[j] == a[j] ^ b[j]
    {
      out[i] := a[i] ^ b[i];
    }
    r := out[..];
  }

  /** A keystream applied twice disappears. */
  lemma XorCancel(a: bytes, k: bytes)
    requires |a| <= |k|
    ensures Xor(Xor(a, k), k) == a
  {}

  lemma XorZeros(n: nat, k: bytes)
    requires |k| == n
    ensures Xor(Zeros(n), k) == k
  {}

  lemma XorConcat(a: bytes, a': bytes, k: bytes)
    requires |a| + |a'| == |k|
    ensures Xor(a + a', k) == Xor(a, k[..|a|]) + Xor(a', k[|a|..])
  {}

  /** The comparison `eqBytes`/`timingSafeEqual`: it looks at every byte before it answers. */
  method EqBytes(a: bytes, b: bytes) returns (eq: bool)
    ensures eq <==> a == b
  {
    if |a| != |b| { return false; }
    var d: byte := 0;
    for i := 0 to |a|
      invariant d == 0 <==> a[..i] == b[..i]
    {
      assert a[..i+1] == a[..i] + [a[i]] && b[..i+1] == b[..i] + [b[i]];
      OrXor(d, a[i], b[i]);
      d := d | (a[i] ^ b[i]);
    }
    assert a[..|a|] == a && b[..|b|] == b;
    return d == 0;
  }

  lemma OrXor(d: byte, x: byte, y: byte)
    ensures d | (x ^ y) == 0 <==> d == 0 && x == y
  {}

  // ---- concatenation ---------------------------------------------------------

  function Flatten(parts: seq<bytes>): bytes {
    if parts == [] then [] else parts[0] + Flatten(parts[1..])
  }

  lemma {:induction false} FlattenSnoc(parts: seq<bytes>, p: bytes)
    ensures Flatten(parts + [p]) == Flatten(parts) + p
  {
    if parts == [] {
      assert parts + [p] == [p];
    } else {
      assert (parts + [p])[1..] == parts[1..] + [p];
      FlattenSnoc(parts[1..], p);
    }
  }

  lemma {:induction false} FlattenPrefix(parts: seq<bytes>, i: nat)
    requires i <= |parts|
    ensures |Flatten(parts[..i])| <= |Flatten(parts)|
    decreases |parts| - i
  {
    if i < |parts| {
      FlattenSnoc(parts[..i], parts[i]);
      assert parts[..i] + [parts[i]] == parts[..i+1];
      FlattenPrefix(parts, i + 1);
    } else {
      assert parts[..i] == parts;
    }
  }

  /** `out.set(a, off)`: overwrite one stretch of a buffer and nothing else. */
  method SetAt(out: array<byte>, off: nat, a: bytes)
    requires off + |a| <= out.Length
    modifies out
    ensures out[..] == old(out[..off]) + a + old(out[off + |a|..])
    ensures out[..off + |a|] == old(out[..off]) + a
  {
    for i := 0 to |a|
      invariant out[..off] == old(out[..off])
      invariant out[off..off + i] == a[..i]
      invariant out[off + i..] == old(out[off + i..])
    {
      assert out[off + i..][1..] == out[off + i + 1..];
      assert old(out[off + i..])[1..] == old(out[off + i + 1..]);
      out[off + i] := a[i];
      assert out[off..off + i + 1] == out[off..off + i] + [a[i]];
      assert a[..i + 1] == a[..i] + [a[i]];
    }
    assert a[..|a|] == a;
    assert out[..off + |a|] == out[..off] + out[off..off + |a|];
    assert out[..] == out[..off + |a|] + out[off + |a|..];
  }

  /** `concatBytes`: measure, allocate once, then copy part by part at an advancing offset. */
  method ConcatBytes(parts: seq<bytes>) returns (r: bytes)
    ensures r == Flatten(parts)
  {
    var total := 0;
    for i := 0 to |parts|
      invariant total == |Flatten(parts[..i])|
    {
      assert parts[..i+1] == parts[..i] + [parts[i]];
      FlattenSnoc(parts[..i], parts[i]);
      total := total + |parts[i]|;
    }
    assert parts[..|parts|] == parts;
    var out := new byte[total];
    var off := 0;
    for i := 0 to |parts|
      invariant off == |Flatten(parts[..i])| <= total
      invariant out[..off] == Flatten(parts[..i])
    {
      assert parts[..i+1] == parts[..i] + [parts[i]];
      FlattenSnoc(parts[..i], parts[i]);
      FlattenPrefix(parts, i + 1);
      SetAt(out, off, parts[i]);
      off := off + |parts[i]|;
    }
    r := out[..];
  }
}
