/**
 The LIONESS wide-block cipher: four rounds of an unbalanced Feistel network over a 32-byte left
 half and the rest. Each round is its own inverse, so running the rounds backwards decrypts.
 */
module Lioness {
  import opened Bytes
  import opened Primitives

  const LBLK: nat := 32

  /** Encrypt the right half under a keystream seeded by the left half. */
  function StreamRound(S: Suite, k: bytes, b: bytes): (r: bytes)
    requires S.Valid() && |k| == LBLK <= |b|
    ensures |r| == |b|
  {
    b[..LBLK] + Xor(b[LBLK..], S.Prg(Xor(b[..LBLK], k), |b| - LBLK))
  }

  /** Mask the left half with a keyed hash of the right half. */
  function HashRound(S: Suite, k: bytes, b: bytes): (r: bytes)
    requires S.Valid() && |k| == LBLK <= |b|
    ensures |r| == |b|
  {
    Xor(b[..LBLK], S.Mac(k, b[LBLK..], LBLK)) + b[LBLK..]
  }

  lemma StreamRoundInvolutive(S: Suite, k: bytes, b: bytes)
    requires S.Valid() && |k| == LBLK <= |b|
    ensures StreamRound(S, k, StreamRound(S, k, b)) == b
  {}

  lemma HashRoundInvolutive(S: Suite, k: bytes, b: bytes)
    requires S.Valid() && |k| == LBLK <= |b|
    ensures HashRound(S, k, HashRound(S, k, b)) == b
  {}

  function Seal(S: Suite, s: bytes, b: bytes): (c: bytes)
    requires S.Valid() && |b| >= LBLK
    ensures |c| == |b|
  {
    HashRound(S, S.Subkey("li4", s), StreamRound(S, S.Subkey("li3", s),
      HashRound(S, S.Subkey("li2", s), StreamRound(S, S.Subkey("li1", s), b))))
  }

  function Open(S: Suite, s: bytes, c: bytes): (b: bytes)
    requires S.Valid() && |c| >= LBLK
    ensures |b| == |c|
  {
    StreamRound(S, S.Subkey("li1", s), HashRound(S, S.Subkey("li2", s),
      StreamRound(S, S.Subkey("li3", s), HashRound(S, S.Subkey("li4", s), c))))
  }

  /** Decryption inverts encryption, and encryption decryption: each key gives a permutation. */
  lemma OpenInvertsSeal(S: Suite, s: bytes, b: bytes)
    requires S.Valid() && |b| >= LBLK
    ensures Open(S, s, Seal(S, s, b)) == b
    ensures Seal(S, s, Open(S, s, b)) == b
  {
    var k1, k2, k3, k4 := S.Subkey("li1", s), S.Subkey("li2", s), S.Subkey("li3", s), S.Subkey("li4", s);
    var r1 := StreamRound(S, k1, b);
    var r2 := HashRound(S, k2, r1);
    var r3 := StreamRound(S, k3, r2);
    StreamRoundInvolutive(S, k1, b);
    HashRoundInvolutive(S, k2, r1);
    StreamRoundInvolutive(S, k3, r2);
    HashRoundInvolutive(S, k4, r3);
    var q4 := HashRound(S, k4, b);
    var q3 := StreamRound(S, k3, q4);
    var q2 := HashRound(S, k2, q3);
    HashRoundInvolutive(S, k4, b);
    StreamRoundInvolutive(S, k3, q4);
    HashRoundInvolutive(S, k2, q3);
    StreamRoundInvolutive(S, k1, q2);
  }

  method LionessEncrypt(S: Suite, s: bytes, block: bytes) returns (c: bytes)
    requires S.Valid() && |block| >= LBLK
    ensures c == Seal(S, s, block)
  {
    hide S.Subkey;
    var k1, k2, k3, k4 := S.Subkey("li1", s), S.Subkey("li2", s), S.Subkey("li3", s), S.Subkey("li4", s);
    var L, R := block[..LBLK], block[LBLK..];
    R := XorBytes(R, S.Prg(Xor(L, k1), |R|));
    assert L + R == StreamRound(S, k1, block);
    assert (L + R)[..LBLK] == L && (L + R)[LBLK..] == R;
    ghost var L0 := L;
    L := XorBytes(L, S.Mac(k2, R, LBLK));
    assert L + R == HashRound(S, k2, L0 + R);
    assert (L + R)[..LBLK] == L && (L + R)[LBLK..] == R;
    ghost var R0 := R;
    R := XorBytes(R, S.Prg(Xor(L, k3), |R|));
    assert L + R == StreamRound(S, k3, L + R0);
    assert (L + R)[..LBLK] == L && (L + R)[LBLK..] == R;
    L0 := L;
    L := XorBytes(L, S.Mac(k4, R, LBLK));
    assert L + R == HashRound(S, k4, L0 + R);
    c := L + R;
  }

  method LionessDecrypt(S: Suite, s: bytes, block: bytes) returns (b: bytes)
    requires S.Valid() && |block| >= LBLK
    ensures b == Open(S, s, block)
  {
    hide S.Subkey;
    var k1, k2, k3, k4 := S.Subkey("li1", s), S.Subkey("li2", s), S.Subkey("li3", s), S.Subkey("li4", s);
    var L, R := block[..LBLK], block[LBLK..];
    L := XorBytes(L, S.Mac(k4, R, LBLK));
    assert L + R == HashRound(S, k4, block);
    assert (L + R)[..LBLK] == L && (L + R)[LBLK..] == R;
    ghost var R0 := R;
    R := XorBytes(R, S.Prg(Xor(L, k3), |R|));
    assert L + R == StreamRound(S, k3, L + R0);
    assert (L + R)[..LBLK] == L && (L + R)[LBLK..] == R;
    ghost var L0 := L;
    L := XorBytes(L, S.Mac(k2, R, LBLK));
    assert L + R == HashRound(S, k2, L0 + R);
    assert (L + R)[..LBLK] == L && (L + R)[LBLK..] == R;
    R0 := R;
    R := XorBytes(R, S.Prg(Xor(L, k1), |R|));
    assert L + R == StreamRound(S, k1, L + R0);
    b := L + R;
  }
}
