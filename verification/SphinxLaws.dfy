/**
 What a mix node does to any packet whatsoever, and what a sender puts on the wire, written out from the
 primitives: the hashes, the MAC, the keystream and the group, and nothing in between.
 */
module SphinxLaws {
  import opened Bytes
  import opened Group
  import opened Primitives
  import opened SphinxKeys
  import opened SphinxHeader
  import opened SphinxPacket
  import Lioness

  // ---- keys ------------------------------------------------------------------

  /** `b` is the scalar that hashing these bytes gives: reduced modulo L, with 1 for 0. */
  ghost predicate IsScalarOf(S: Suite, b: nat, hashed: bytes)
    requires S.Valid()
  {
    var n := NumberLE(S.sha512(hashed)) % S.order;
    b == if n == 0 then 1 else n
  }

  lemma BlindingLaw(S: Suite, alpha: bytes, s: bytes)
    requires S.Valid()
    ensures IsScalarOf(S, BlindingFactor(S, alpha, s), Ascii("blind") + alpha + s)
  {}

  /** The sender's chain, link by link: the first alpha is the sender's own scalar times the base point; each
      secret is the hop's key times the scalar behind its alpha; each next alpha is the last one times the
      blinding scalar that hashing the pair gives. */
  lemma ChainLaw(S: Suite, x: nat, points: seq<nat>, i: nat)
    requires S.Valid() && 1 <= x < S.order && i < |points|
    ensures var k := Chain(S, x, points, |points|);
            && k.alphas[0] == S.encode(x)
            && S.decode(k.alphas[i]).Some?
            && var a := S.decode(k.alphas[i]).value;
            && k.secrets[i] == S.encode((points[i] * a) % S.order)
            && (i + 1 < |points| ==>
                  exists b :: IsScalarOf(S, b, Ascii("blind") + k.alphas[i] + k.secrets[i])
                              && k.alphas[i+1] == S.encode((a * b) % S.order))
  {
    hide IsScalarOf, Chain, BlindingFactor, Acc;
    ChainAt(S, x, points, |points|, 0);
    ChainAt(S, x, points, |points|, i);
    AccInRange(S, x, points, i);
    FirstAlpha(S, x, points);
    if i + 1 < |points| {
      ChainAt(S, x, points, |points|, i + 1);
      BlindingLaw(S, Alpha(S, x, points, i), Secret(S, x, points, i));
      NextAlpha(S, x, points, i);
    }
  }

  lemma FirstAlpha(S: Suite, x: nat, points: seq<nat>)
    requires S.Valid()
    ensures Alpha(S, x, points, 0) == S.encode(x)
  {}

  lemma NextAlpha(S: Suite, x: nat, points: seq<nat>, i: nat)
    requires S.Valid() && i + 1 < |points|
    ensures Alpha(S, x, points, i + 1)
         == S.encode((Acc(S, x, points, i) * BlindingFactor(S, Alpha(S, x, points, i), Secret(S, x, points, i)))
                      % S.order)
  {
    hide BlindingFactor;
  }

  // ---- the payload layer -----------------------------------------------------

  function Labelled(S: Suite, name: string, s: bytes): (k: bytes)
    requires S.Valid()
    ensures |k| == 32
  {
    S.sha256(Ascii(name) + s)
  }

  /** The four rounds of a layer: two keystreams and two MACs, each under its own labelled hash of the secret. */
  ghost predicate FourRounds(S: Suite, s: bytes, l0: bytes, r0: bytes, l2: bytes, r2: bytes)
    requires S.Valid()
  {
    exists l1: bytes, r1: bytes ::
      && r1 == Xor(r0, S.chacha(Xor(l0, Labelled(S, "li1", s)), |r0|))
      && l1 == Xor(l0, S.hmac(Labelled(S, "li2", s), r1)[..32])
      && r2 == Xor(r1, S.chacha(Xor(l1, Labelled(S, "li3", s)), |r1|))
      && l2 == Xor(l1, S.hmac(Labelled(S, "li4", s), r2)[..32])
  }

  lemma StreamRoundIs(S: Suite, k: bytes, l: bytes, r: bytes)
    requires S.Valid() && |k| == |l| == 32
    ensures Lioness.StreamRound(S, k, l + r) == l + Xor(r, S.chacha(Xor(l, k), |r|))
  {
    assert (l + r)[..32] == l && (l + r)[32..] == r;
  }

  lemma HashRoundIs(S: Suite, k: bytes, l: bytes, r: bytes)
    requires S.Valid() && |k| == |l| == 32
    ensures Lioness.HashRound(S, k, l + r) == Xor(l, S.hmac(k, r)[..32]) + r
  {
    assert (l + r)[..32] == l && (l + r)[32..] == r;
  }

  lemma SealLaw(S: Suite, s: bytes, l: bytes, r: bytes)
    requires S.Valid() && |l| == 32
    ensures var c := Lioness.Seal(S, s, l + r);
            |c| == 32 + |r| && FourRounds(S, s, l, r, c[..32], c[32..])
  {
    hide Lioness.StreamRound, Lioness.HashRound;
    var k1, k2, k3, k4 := Labelled(S, "li1", s), Labelled(S, "li2", s), Labelled(S, "li3", s), Labelled(S, "li4", s);
    StreamRoundIs(S, k1, l, r);
    var r1 := Xor(r, S.chacha(Xor(l, k1), |r|));
    HashRoundIs(S, k2, l, r1);
    var l1 := Xor(l, S.hmac(k2, r1)[..32]);
    StreamRoundIs(S, k3, l1, r1);
    var r2 := Xor(r1, S.chacha(Xor(l1, k3), |r1|));
    HashRoundIs(S, k4, l1, r2);
    var l2 := Xor(l1, S.hmac(k4, r2)[..32]);
    assert Lioness.Seal(S, s, l + r) == l2 + r2;
    assert (l2 + r2)[..32] == l2 && (l2 + r2)[32..] == r2;
  }

  /** Opening is the same four rounds read backwards. */
  lemma OpenLaw(S: Suite, s: bytes, c: bytes)
    requires S.Valid() && |c| >= 32
    ensures var b := Lioness.Open(S, s, c);
            |b| == |c| && FourRounds(S, s, b[..32], b[32..], c[..32], c[32..])
  {
    hide Lioness.Seal, Lioness.Open, FourRounds;
    var b := Lioness.Open(S, s, c);
    Lioness.OpenInvertsSeal(S, s, c);
    SealLaw(S, s, b[..32], b[32..]);
    assert b[..32] + b[32..] == b;
  }

  // ---- one hop, for every packet ---------------------------------------------

  /** What the node's header decrypts to: the received block and 32 zero bytes under the routing keystream. */
  function Plain(S: Suite, s: bytes, beta: bytes): bytes
    requires S.Valid()
  {
    Xor(beta + Zeros(32), S.chacha(Labelled(S, "rho", s), 208))
  }

  /** The secret a node shares with whoever made this packet, if the packet names a point at all. */
  function SharedWith(S: Suite, nodeSecret: nat, p: Packet): Option<bytes>
    requires S.Valid()
  {
    match S.decode(p.header.alpha)
    case None => None
    case Some(point) =>
      if 1 <= nodeSecret < S.order then Some(S.encode((point * nodeSecret) % S.order)) else None
  }

  /** Exactly when a packet is accepted, for all packets: alpha is a point, the MAC over beta is right, and the
      payload is long enough to open. */
  lemma PeelLaw(S: Suite, nodeSecret: nat, p: Packet)
    requires S.Valid()
    ensures !ProcessPacket(S, nodeSecret, p).Rejected? <==>
            && SharedWith(S, nodeSecret, p).Some?
            && p.header.gamma == S.hmac(S.sha256(Ascii("mu") + SharedWith(S, nodeSecret, p).value), p.header.beta)[..16]
            && |p.payload| >= 32
  {
    hide Lioness.Open, Unwrapped, FinalMarker;
  }

  /** And what an accepted packet turns into. It is final exactly when its first 16 header bytes decrypt to the
      reserved marker; the next id, MAC and block are cut from the decrypted header; the next alpha is the old
      one times its blinding scalar; and the payload loses exactly one layer. */
  lemma PeeledLaw(S: Suite, nodeSecret: nat, p: Packet)
    requires S.Valid() && !ProcessPacket(S, nodeSecret, p).Rejected?
    ensures SharedWith(S, nodeSecret, p).Some? && S.decode(p.header.alpha).Some?
    ensures var s, r := SharedWith(S, nodeSecret, p).value, ProcessPacket(S, nodeSecret, p);
            var plain, payload := Plain(S, s, p.header.beta), if r.Exit? then r.payload else r.packet.payload;
            && (r.Exit? <==> Sub(plain, 0, 16) == Ascii("NOBLECHAT::FINAL"))
            && |payload| == |p.payload| && |payload| >= 32
            && FourRounds(S, s, payload[..32], payload[32..], p.payload[..32], p.payload[32..])
            && (r.Forward? ==>
                  && r.nextId == Sub(plain, 0, 16)
                  && r.packet.header.gamma == Sub(plain, 16, 32)
                  && r.packet.header.beta == Sub(plain, 32, 208)
                  && exists b :: IsScalarOf(S, b, Ascii("blind") + p.header.alpha + s)
                       && r.packet.header.alpha == S.encode((S.decode(p.header.alpha).value * b) % S.order))
  {
    hide Lioness.Open, FourRounds, IsScalarOf, Sub, Mu, Xor;
    var s := SharedWith(S, nodeSecret, p).value;
    PeelLaw(S, nodeSecret, p);
    OpenLaw(S, s, p.payload);
    BlindingLaw(S, p.header.alpha, s);
  }
}
