/**
 End-to-end envelopes: a hybrid KEM (X25519 and ML-KEM-768), an AEAD, and a hybrid signature
 (Ed25519 and ML-DSA-65) that binds the recipient's keys.
 */
module Protocol {
  import opened Bytes
  import opened Primitives
  import opened Wire

  const MAILBOX_LEN: nat := 16
  const NONCE_LEN: nat := 24
  const SIGNED_V1: byte := 1

  /** The primitives of the envelope, constrained by lengths and correctness equations only. */
  datatype E2E = E2E(
    sha256: bytes -> bytes,
    hkdf: (bytes, bytes) -> bytes,                  // deriveKey(ikm, salt) under the fixed info label
    xPub: bytes -> bytes,
    xShared: (bytes, bytes) -> bytes,               // getSharedSecret(secret, public)
    kemPub: bytes -> bytes,
    kemEncap: (bytes, bytes) -> (bytes, bytes),     // (public, randomness) to (ciphertext, secret)
    kemDecap: (bytes, bytes) -> bytes,              // (ciphertext, secret key)
    aeadEnc: (bytes, bytes, bytes) -> bytes,        // (key, nonce, plaintext)
    aeadDec: (bytes, bytes, bytes) -> Option<bytes>,
    edPub: bytes -> bytes,
    edSign: (bytes, bytes) -> bytes,                // (message, secret key)
    edVerify: (bytes, bytes, bytes) -> bool,        // (signature, message, public)
    dsaPub: bytes -> bytes,
    dsaSign: (bytes, bytes) -> bytes,
    dsaVerify: (bytes, bytes, bytes) -> bool)
  {
    ghost predicate Valid() {
      && (forall m :: |sha256(m)| == 32)
      && (forall k :: |xPub(k)| == 32)
      && (forall a, b :: xShared(a, xPub(b)) == xShared(b, xPub(a)))
      && (forall p, r :: |kemEncap(p, r).0| == 1088)                                   // section 8 of FIPS 203
      && (forall k, r :: kemDecap(kemEncap(kemPub(k), r).0, k) == kemEncap(kemPub(k), r).1)
      && (forall k, n, m :: |aeadEnc(k, n, m)| == |m| + 16)
      && (forall k, n, m :: aeadDec(k, n, aeadEnc(k, n, m)) == Some(m))
      && (forall m, k :: |edSign(m, k)| == 64 && edVerify(edSign(m, k), m, edPub(k)))
      && (forall m, k :: |dsaSign(m, k)| == 3309 && dsaVerify(dsaSign(m, k), m, dsaPub(k)))  // section 4 of FIPS 204
    }
  }

  /** The assumptions are consistent: (useless) primitives meet every one of them. */
  lemma E2EExists() returns (e: E2E)
    ensures e.Valid()
  {
    var enc := (k: bytes, n: bytes, m: bytes) => Zeros(16) + m;
    var dec := (k: bytes, n: bytes, c: bytes) => if |c| < 16 then None else Some(c[16..]);
    e := E2E(_ => Zeros(32), (_, _) => [], _ => Zeros(32), (_, _) => [],
             _ => [], (_, _) => (Zeros(1088), []), (_, _) => [], enc, dec,
             _ => [], (_, _) => Zeros(64), (_, _, _) => true, _ => [], (_, _) => Zeros(3309), (_, _, _) => true);
    assert forall m: bytes :: (Zeros(16) + m)[16..] == m;
  }

  /** Secret and public halves of an identity's two keypairs. */
  datatype KemKeypair = KemKeypair(x: bytes, kem: bytes)
  datatype KemBundle = KemBundle(x: bytes, kem: bytes)
  datatype SignKeypair = SignKeypair(ed: bytes, dsa: bytes)
  datatype SignBundle = SignBundle(ed: bytes, dsa: bytes)

  function KemPublic(E: E2E, kp: KemKeypair): KemBundle {
    KemBundle(E.xPub(kp.x), E.kemPub(kp.kem))
  }

  function SignPublic(E: E2E, kp: SignKeypair): SignBundle {
    SignBundle(E.edPub(kp.ed), E.dsaPub(kp.dsa))
  }

  /** The mailbox address derived from a KEM bundle. */
  function MailboxId(E: E2E, b: KemBundle): (m: bytes)
    requires E.Valid()
    ensures |m| == MAILBOX_LEN
  {
    E.sha256(b.x + b.kem)[..MAILBOX_LEN]
  }

  // ---- hybrid key encapsulation --------------------------------------------------

  /** The randomness one envelope consumes: an ephemeral key, KEM coins, an AEAD nonce. */
  datatype Coins = Coins(eph: bytes, kem: bytes, nonce: bytes)

  datatype KemHeader = KemHeader(epk: bytes, kct: bytes)

  function Salt(E: E2E, epk: bytes, b: KemBundle, kct: bytes): bytes {
    E.sha256(epk + b.x + b.kem + kct)
  }

  function Encapsulate(E: E2E, b: KemBundle, c: Coins): (KemHeader, bytes) {
    var epk := E.xPub(c.eph);
    var (kct, kemSs) := E.kemEncap(b.kem, c.kem);
    (KemHeader(epk, kct), E.hkdf(E.xShared(c.eph, b.x) + kemSs, Salt(E, epk, b, kct)))
  }

  function Decapsulate(E: E2E, kp: KemKeypair, h: KemHeader): bytes {
    E.hkdf(E.xShared(kp.x, h.epk) + E.kemDecap(h.kct, kp.kem), Salt(E, h.epk, KemPublic(E, kp), h.kct))
  }

  /** Both sides of the hybrid exchange derive the same key. */
  lemma KemAgrees(E: E2E, kp: KemKeypair, c: Coins)
    requires E.Valid()
    ensures var (h, ss) := Encapsulate(E, KemPublic(E, kp), c);
            Decapsulate(E, kp, h) == ss
  {}

  // ---- envelopes -------------------------------------------------------------------

  function Transcript(E: E2E, b: KemBundle, content: bytes): bytes {
    E.sha256(Ascii("noblechat/signed-envelope/v1") + b.x + b.kem + content)
  }

  /** `verify`: both signatures must pass. */
  predicate Verify(E: E2E, b: SignBundle, message: bytes, ed: bytes, dsa: bytes) {
    E.edVerify(ed, message, b.ed) && E.dsaVerify(dsa, message, b.dsa)
  }

  /** The signed plaintext: a version byte, then content and both signatures framed. */
  function SignedPlain(E: E2E, b: KemBundle, content: bytes, kp: SignKeypair): Option<bytes> {
    var t := Transcript(E, b, content);
    match Packed([content, E.edSign(t, kp.ed), E.dsaSign(t, kp.dsa)])
    case None => None
    case Some(body) => Some([SIGNED_V1] + body)
  }

  /** `sealEnvelope`, None where some field outgrows its length prefix. */
  function SealEnvelope(E: E2E, b: KemBundle, content: bytes, kp: SignKeypair, c: Coins): Option<bytes> {
    match SignedPlain(E, b, content, kp)
    case None => None
    case Some(plain) =>
      var (h, ss) := Encapsulate(E, b, c);
      Packed([h.epk, h.kct, c.nonce + E.aeadEnc(ss, c.nonce, plain)])
  }

  /** What `openEnvelope` returns; `verify` is `Verify` on this transcript and these signatures. */
  datatype Opened = Opened(content: bytes, transcript: bytes, ed: bytes, dsa: bytes)

  /** `openEnvelope`, None for every way it throws. */
  function OpenEnvelope(E: E2E, kp: KemKeypair, envelope: bytes): Option<Opened> {
    match Parse(envelope, 3)
    case None => None
    case Some(f) =>
      var ss := Decapsulate(E, kp, KemHeader(f[0], f[1]));
      match E.aeadDec(ss, Sub(f[2], 0, NONCE_LEN), Sub(f[2], NONCE_LEN, Max(NONCE_LEN, |f[2]|)))
      case None => None
      case Some(plain) => OpenPlain(E, KemPublic(E, kp), plain)
  }

  function OpenPlain(E: E2E, b: KemBundle, plain: bytes): Option<Opened> {
    if |plain| == 0 || plain[0] != SIGNED_V1 then None
    else
      match Parse(plain[1..], 3)
      case None => None
      case Some(f) => Some(Opened(f[0], Transcript(E, b, f[0]), f[1], f[2]))
  }

  /** The size law of envelopes: 4546 bytes of overhead, accepted up to what two length bytes can carry. */
  lemma EnvelopeSize(E: E2E, b: KemBundle, content: bytes, kp: SignKeypair, c: Coins)
    requires E.Valid() && |c.nonce| == NONCE_LEN
    ensures var e := SealEnvelope(E, b, content, kp, c);
            && (e.Some? <==> |content| <= 62115)
            && (e.Some? ==> |e.value| == |content| + 4546)
  {
    hide Hi, Lo;
    var t := Transcript(E, b, content);
    FramedThree(content, E.edSign(t, kp.ed), E.dsaSign(t, kp.dsa));
    var plain := SignedPlain(E, b, content, kp);
    if plain.Some? {
      var (h, ss) := Encapsulate(E, b, c);
      FramedThree(h.epk, h.kct, c.nonce + E.aeadEnc(ss, c.nonce, plain.value));
    }
  }

  lemma FramedThree(f: bytes, g: bytes, h: bytes)
    ensures Fits([f, g, h]) <==> |f| <= MAX_FIELD && |g| <= MAX_FIELD && |h| <= MAX_FIELD
    ensures Fits([f, g, h]) ==> |Framed([f, g, h])| == |f| + |g| + |h| + 6
  {
    hide Hi, Lo;
    FramedCons(h, []);
    FramedCons(g, [h]);
    FramedCons(f, [g, h]);
    assert [f] + [g, h] == [f, g, h] && [g] + [h] == [g, h] && [h] + [] == [h];
  }

  /** The owner of the keys opens every sealed envelope, and the sender's bundle verifies it. */
  lemma SealedOpens(E: E2E, kp: KemKeypair, content: bytes, signer: SignKeypair, c: Coins)
    requires E.Valid() && |c.nonce| == NONCE_LEN
    requires SealEnvelope(E, KemPublic(E, kp), content, signer, c).Some?
    ensures var o := OpenEnvelope(E, kp, SealEnvelope(E, KemPublic(E, kp), content, signer, c).value);
            && o.Some? && o.value.content == content
            && Verify(E, SignPublic(E, signer), o.value.transcript, o.value.ed, o.value.dsa)
  {
    hide Framed, Parse, Ascii;
    var b := KemPublic(E, kp);
    var t := Transcript(E, b, content);
    var plain := SignedPlain(E, b, content, signer).value;
    var (h, ss) := Encapsulate(E, b, c);
    KemAgrees(E, kp, c);
    var sealed := c.nonce + E.aeadEnc(ss, c.nonce, plain);
    var outer, fields := [h.epk, h.kct, sealed], [content, E.edSign(t, signer.ed), E.dsaSign(t, signer.dsa)];
    RoundTrip(outer, []);
    assert Framed(outer) + [] == Framed(outer);
    assert Sub(sealed, 0, NONCE_LEN) == c.nonce;
    assert Sub(sealed, NONCE_LEN, |sealed|) == E.aeadEnc(ss, c.nonce, plain);
    RoundTrip(fields, []);
    assert Framed(fields) + [] == Framed(fields);
    assert plain[1..] == Framed(fields);
  }

  // ---- mix inner payload -------------------------------------------------------------

  function PackInner(mailbox: bytes, envelope: bytes): Option<bytes> {
    Packed([mailbox, envelope])
  }

  datatype Inner = Inner(mailbox: bytes, envelope: bytes)

  /** `unpackInner`, None where `unpack` throws. */
  function UnpackInner(inner: bytes): Option<Inner> {
    match Parse(inner, 2)
    case None => None
    case Some(f) => Some(Inner(f[0], f[1]))
  }

  /** The zero padding of the mix payload does not disturb what the provider reads. */
  lemma InnerSurvivesPadding(mailbox: bytes, envelope: bytes, tail: bytes)
    requires PackInner(mailbox, envelope).Some?
    ensures UnpackInner(PackInner(mailbox, envelope).value + tail) == Some(Inner(mailbox, envelope))
  {
    RoundTrip([mailbox, envelope], tail);
  }

  lemma InnerSize(mailbox: bytes, envelope: bytes)
    requires |mailbox| == MAILBOX_LEN
    ensures PackInner(mailbox, envelope).Some? <==> |envelope| <= MAX_FIELD
    ensures PackInner(mailbox, envelope).Some? ==> |PackInner(mailbox, envelope).value| == |envelope| + 20
  {
    hide Hi, Lo;
    FramedCons(envelope, []);
    FramedCons(mailbox, [envelope]);
    assert [mailbox] + [envelope] == [mailbox, envelope] && [envelope] + [] == [envelope];
  }

  // ---- what is on the wire, and when it is believed ------------------------------------

  /** What a signature is over: the recipient's two public keys and the content, under a fixed label. */
  function SignedOver(E: E2E, x: bytes, kem: bytes, content: bytes): bytes {
    E.sha256(Ascii("noblechat/signed-envelope/v1") + x + kem + content)
  }

  /** Whether an opened envelope is believed to be from a bundle's owner: for all bytes that open and for every
      bundle, exactly when both signature schemes accept what the envelope carries over the recipient's own
      keys and the content. */
  lemma BelievedIff(E: E2E, kp: KemKeypair, envelope: bytes, b: SignBundle)
    requires OpenEnvelope(E, kp, envelope).Some?
    ensures var o := OpenEnvelope(E, kp, envelope).value;
            var m := SignedOver(E, E.xPub(kp.x), E.kemPub(kp.kem), o.content);
            Verify(E, b, o.transcript, o.ed, o.dsa) <==> E.edVerify(o.ed, m, b.ed) && E.dsaVerify(o.dsa, m, b.dsa)
  {
    hide Parse, Ascii;
  }

  /** Exactly which bytes open, and to what, for all bytes: three fields; under the key that both shared
      secrets and the exchange's transcript derive, the third decrypts after its first 24 bytes; and the
      plaintext is the version byte and three more fields. */
  lemma OpensIff(E: E2E, kp: KemKeypair, envelope: bytes, o: Opened)
    ensures OpenEnvelope(E, kp, envelope) == Some(o) <==>
            exists f: seq<bytes>, plain: bytes, g: seq<bytes> ::
              && Parse(envelope, 3) == Some(f)
              && E.aeadDec(E.hkdf(E.xShared(kp.x, f[0]) + E.kemDecap(f[1], kp.kem),
                                  E.sha256(f[0] + E.xPub(kp.x) + E.kemPub(kp.kem) + f[1])),
                           Sub(f[2], 0, 24), Sub(f[2], 24, Max(24, |f[2]|))) == Some(plain)
              && plain != [] && plain[0] == 1 && Parse(plain[1..], 3) == Some(g)
              && o == Opened(g[0], SignedOver(E, E.xPub(kp.x), E.kemPub(kp.kem), g[0]), g[1], g[2])
  {
    hide Parse, Ascii, Sub;
    if OpenEnvelope(E, kp, envelope).Some? {
      var f := Parse(envelope, 3).value;
      var plain := E.aeadDec(Decapsulate(E, kp, KemHeader(f[0], f[1])),
                             Sub(f[2], 0, NONCE_LEN), Sub(f[2], NONCE_LEN, Max(NONCE_LEN, |f[2]|))).value;
      assert Parse(plain[1..], 3).Some?;
    }
  }

  /** What a sealed envelope consists of: the ephemeral key, the KEM ciphertext, and the nonce in front of the
      encrypted version byte, content and two signatures. */
  lemma SealedLayout(E: E2E, b: KemBundle, content: bytes, kp: SignKeypair, c: Coins)
    requires SealEnvelope(E, b, content, kp, c).Some?
    ensures var epk, (kct, kemSs) := E.xPub(c.eph), E.kemEncap(b.kem, c.kem);
            var key := E.hkdf(E.xShared(c.eph, b.x) + kemSs, E.sha256(epk + b.x + b.kem + kct));
            var m := SignedOver(E, b.x, b.kem, content);
            exists plain: bytes ::
              && plain != [] && plain[0] == 1
              && Parse(plain[1..], 3) == Some([content, E.edSign(m, kp.ed), E.dsaSign(m, kp.dsa)])
              && Parse(SealEnvelope(E, b, content, kp, c).value, 3)
                 == Some([epk, kct, c.nonce + E.aeadEnc(key, c.nonce, plain)])
  {
    hide Framed, Parse, Ascii;
    var t := Transcript(E, b, content);
    var plain := SignedPlain(E, b, content, kp).value;
    var (h, ss) := Encapsulate(E, b, c);
    var outer, fields := [h.epk, h.kct, c.nonce + E.aeadEnc(ss, c.nonce, plain)],
                         [content, E.edSign(t, kp.ed), E.dsaSign(t, kp.dsa)];
    RoundTrip(outer, []);
    RoundTrip(fields, []);
    assert Framed(outer) + [] == Framed(outer) && Framed(fields) + [] == Framed(fields);
    assert plain[1..] == Framed(fields);
  }

  /** A mix payload is the mailbox and then the envelope, each behind its length, high byte first. */
  lemma InnerLayout(mailbox: bytes, envelope: bytes)
    requires PackInner(mailbox, envelope).Some?
    ensures var p := PackInner(mailbox, envelope).value;
            var at := |mailbox| + 2;
            && |p| == at + 2 + |envelope|
            && 256 * IntOf(p[0]) + IntOf(p[1]) == |mailbox| && p[2..at] == mailbox
            && 256 * IntOf(p[at]) + IntOf(p[at+1]) == |envelope| && p[at+2..] == envelope
  {
    hide Hi, Lo, IntOf, Frame, Framed;
    assert |[mailbox, envelope][0]| <= MAX_FIELD && |[mailbox, envelope][1]| <= MAX_FIELD;
    FramedPair(mailbox, envelope);
    FrameLayout(mailbox);
    FrameLayout(envelope);
    var p, a, b := PackInner(mailbox, envelope).value, Frame(mailbox), Frame(envelope);
    assert p == a + b;
    assert p[2..|a|] == a[2..] && p[|a|+2..] == b[2..];
  }
}
