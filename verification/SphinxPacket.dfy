/**
 Building and peeling whole packets. The sender's view of a packet at hop i (`PacketAt`) is proved
 to be exactly what the chain of nodes computes by peeling, for every path and every payload.
 */
module SphinxPacket {
  import opened Bytes
  import opened Group
  import opened Primitives
  import opened SphinxKeys
  import opened SphinxHeader
  import Lioness

  const PAYLOAD_LEN: nat := 8192

  datatype Hop = Hop(id: bytes, pub: bytes)
  datatype Packet = Packet(header: Header, payload: bytes)

  // ---- payload onion -------------------------------------------------------------

  /** The payload zero-padded to its constant size. */
  function Padded(inner: bytes): (p: bytes)
    requires |inner| <= PAYLOAD_LEN
    ensures |p| == PAYLOAD_LEN && inner <= p
  {
    inner + Zeros(PAYLOAD_LEN - |inner|)
  }

  /** The payload hop i receives: the layers of hops i.. around `p`, hop i's outermost. */
  function Onion(S: Suite, secrets: seq<bytes>, p: bytes, i: nat): (o: bytes)
    requires S.Valid() && i <= |secrets| && |p| >= Lioness.LBLK
    ensures |o| == |p|
    decreases |secrets| - i
  {
    if i == |secrets| then p else Lioness.Seal(S, secrets[i], Onion(S, secrets, p, i + 1))
  }

  /** `onionEncrypt`: refuse an oversized payload, pad, wrap from the exit outwards. */
  method OnionEncrypt(S: Suite, secrets: seq<bytes>, inner: bytes) returns (r: Option<bytes>)
    requires S.Valid()
    ensures r.Some? <==> |inner| <= PAYLOAD_LEN
    ensures r.Some? ==> r.value == Onion(S, secrets, Padded(inner), 0)
  {
    hide Lioness.Seal;
    if |inner| > PAYLOAD_LEN { return None; }
    var p := inner;
    if |p| < PAYLOAD_LEN { p := p + Zeros(PAYLOAD_LEN - |p|); }
    assert p == Padded(inner);
    var i := |secrets|;
    while i > 0
      invariant 0 <= i <= |secrets|
      invariant p == Onion(S, secrets, Padded(inner), i)
    {
      i := i - 1;
      p := Lioness.LionessEncrypt(S, secrets[i], p);
    }
    return Some(p);
  }

  // ---- one hop ---------------------------------------------------------------------

  datatype Peeled =
    | Rejected                                   // any exception: bad point, bad MAC, short payload
    | Exit(payload: bytes)
    | Forward(nextId: bytes, packet: Packet)

  /** `processPacket`, on any packet whatsoever. */
  function ProcessPacket(S: Suite, nodeSecret: nat, packet: Packet): Peeled
    requires S.Valid()
  {
    var header := packet.header;
    match S.decode(header.alpha)
    case None => Rejected
    case Some(point) =>
      match S.Multiply(point, nodeSecret)
      case None => Rejected
      case Some(shared) =>
        var s := S.encode(shared);
        if Mu(S, s, header.beta) != header.gamma then Rejected
        else if |packet.payload| < Lioness.LBLK then Rejected
        else
          var B := Unwrapped(S, s, header.beta);
          var nextId, nextGamma := Sub(B, 0, HOP_ID_LEN), Sub(B, K, 2 * K);
          var nextBeta := Sub(B, 2 * K, 2 * K + BETA_LEN);
          var nextPayload := Lioness.Open(S, s, packet.payload);
          if nextId == FinalMarker() then Exit(nextPayload)
          else
            match S.Multiply(point, BlindingFactor(S, header.alpha, s))
            case None => Rejected
            case Some(next) => Forward(nextId, Packet(Header(S.encode(next), nextBeta, nextGamma), nextPayload))
  }

  /** What a node does once the key agreement, the MAC and the routing block are known to be right. */
  lemma ProcessStep(S: Suite, k: nat, packet: Packet, a: nat, s: bytes, id: bytes, rest: bytes)
    requires S.Valid() && |packet.payload| >= Lioness.LBLK
    requires S.decode(packet.header.alpha) == Some(a)
    requires S.Multiply(a, k).Some? && S.encode(S.Multiply(a, k).value) == s
    requires Mu(S, s, packet.header.beta) == packet.header.gamma
    requires |id| == HOP_ID_LEN && |rest| == K + BETA_LEN
    requires Unwrapped(S, s, packet.header.beta) == id + rest
    requires S.Multiply(a, BlindingFactor(S, packet.header.alpha, s)).Some?
    ensures ProcessPacket(S, k, packet)
         == var p := Lioness.Open(S, s, packet.payload);
            if id == FinalMarker() then Exit(p)
            else Forward(id, Packet(Header(S.encode(S.Multiply(a, BlindingFactor(S, packet.header.alpha, s)).value),
                                           rest[K..], rest[..K]), p))
  {
    hide Mu, Unwrapped, BlindingFactor, Lioness.Open, FinalMarker, S.Multiply;
    var B := id + rest;
    assert Sub(B, 0, HOP_ID_LEN) == id;
    assert Sub(B, K, 2 * K) == rest[..K];
    assert Sub(B, 2 * K, 2 * K + BETA_LEN) == rest[K..];
  }

  // ---- a whole route -----------------------------------------------------------------

  /** A route: mix nodes with their ids and secret scalars, and the sender's random scalar. */
  datatype Route = Route(S: Suite, x: nat, ids: seq<bytes>, ks: seq<nat>) {
    ghost predicate Valid() {
      && S.Valid() && 1 <= x < S.order
      && 1 <= |ids| == |ks| <= MAX_HOPS
      && (forall i :: 0 <= i < |ids| ==> |ids[i]| == HOP_ID_LEN)
      && NodeScalars(S, ks)
    }

    /** The path the directory hands the sender: public keys only. */
    function Path(): (path: seq<Hop>)
      requires S.order > 0 && |ids| == |ks|
      ensures |path| == |ids|
    {
      seq(|ids|, i requires 0 <= i < |ids| => Hop(ids[i], S.encode(ks[i] % S.order)))
    }

    function Points(): (ps: seq<nat>)
      requires S.order > 0
      ensures |ps| == |ks|
    {
      PointsOf(S, ks)
    }

    function Secrets(): (ss: seq<bytes>)
      requires S.Valid()
      ensures |ss| == |ks|
    {
      Chain(S, x, Points(), |ks|).secrets
    }

    /** The packet hop i receives, as the sender computes it. */
    function PacketAt(inner: bytes, i: nat): Packet
      requires Valid() && i < |ids| && |inner| <= PAYLOAD_LEN
    {
      Packet(Header(Alpha(S, x, Points(), i), Beta(S, ids, Secrets(), i), Gamma(S, ids, Secrets(), i)),
             Onion(S, Secrets(), Padded(inner), i))
    }

    /** The id that hop i finds inside the header. */
    function IdSlot(i: nat): bytes
      requires i < |ids|
    {
      if i == |ids| - 1 then FinalMarker() else ids[i+1]
    }

    /** Header and payload have the same size at every hop of every path. */
    lemma ConstantSize(inner: bytes, i: nat)
      requires Valid() && i < |ids| && |inner| <= PAYLOAD_LEN
      ensures var p := PacketAt(inner, i);
              && |p.header.alpha| == 32 && |p.header.beta| == 176 && |p.header.gamma| == 16
              && |p.payload| == PAYLOAD_LEN
    {}

    /**
     Hop i of any route: the point decodes, the MAC verifies, the node reads exactly the id the
     sender put there, and either it is the exit and recovers the remaining payload, or it forwards
     exactly the packet the sender prepared for hop i+1.
     */
    lemma HopPeels(inner: bytes, i: nat)
      requires Valid() && i < |ids| && |inner| <= PAYLOAD_LEN
      ensures ProcessPacket(S, ks[i], PacketAt(inner, i))
           == if IdSlot(i) == FinalMarker() then Exit(Onion(S, Secrets(), Padded(inner), i + 1))
              else Forward(ids[i+1], PacketAt(inner, i + 1))
    {
      hide Beta, Gamma, Unwrapped, FinalMarker, BlindingFactor, Acc, Lioness.Open, Lioness.Seal, Padded,
        ProcessPacket, Chain, S.Multiply, Secret, Mu;
      var secrets, packet := Secrets(), PacketAt(inner, i);
      NodeAgrees(S, x, ks, i);
      ChainAt(S, x, Points(), |ks|, i);
      assert packet.header.gamma == Mu(S, secrets[i], packet.header.beta) by { GammaIsMac(S, ids, secrets, i); }
      Lioness.OpenInvertsSeal(S, secrets[i], Onion(S, secrets, Padded(inner), i + 1));
      var B := Unwrapped(S, secrets[i], packet.header.beta);
      UnwrapsToSlot(inner, i);
      var rest := B[HOP_ID_LEN..];
      ProcessStep(S, ks[i], packet, Acc(S, x, Points(), i), secrets[i], IdSlot(i), rest);
      if i < |ids| - 1 {
        HopUnwraps(S, ids, secrets, i);
        assert rest == Gamma(S, ids, secrets, i + 1) + Beta(S, ids, secrets, i + 1);
      }
    }

    lemma UnwrapsToSlot(inner: bytes, i: nat)
      requires Valid() && i < |ids| && |inner| <= PAYLOAD_LEN
      ensures var B := Unwrapped(S, Secrets()[i], Beta(S, ids, Secrets(), i));
              |B| == BETA_LEN + 2 * K && B == IdSlot(i) + B[HOP_ID_LEN..]
    {
      hide Beta, Gamma, FinalMarker, Rho, Chain;
      if i == |ids| - 1 {
        ExitUnwraps(S, ids, Secrets());
      } else {
        HopUnwraps(S, ids, Secrets(), i);
      }
    }
  }
}
