/**
 The client's two send paths and its receive path, and the end-to-end theorem: whatever the
 sender builds, the mix nodes carry to the recipient's provider, the provider reads the mailbox
 and envelope, and the recipient recovers exactly the content, verified as the sender's.
 */
module Client {
  import opened Bytes
  import opened Primitives
  import opened Protocol
  import opened SphinxPacket
  import opened SphinxRoute
  import opened Directory
  import opened RandomIndex
  import opened Words

  /** The contact information others use, and the identity behind it. */
  datatype Card = Card(providerId: bytes, mailbox: bytes, kem: KemBundle, sign: SignBundle)
  datatype Identity = Identity(providerId: bytes, kem: KemKeypair, sign: SignKeypair) {
    function CardOf(E: E2E): Card
      requires E.Valid()
    {
      var kemBundle := KemPublic(E, kem);
      Card(providerId, MailboxId(E, kemBundle), kemBundle, SignPublic(E, sign))
    }
  }

  /** `encodeContent` and `decodeContent` for a type of content objects. */
  datatype Codec<!C> = Codec(encode: C -> bytes, decode: bytes -> Option<C>)

  /** Everything a send draws at random: the path, the Sphinx scalar, the envelope's coins. */
  datatype Draw = Draw(picks: seq<nat>, x: nat, coins: Coins)

  ghost predicate ValidDraw(S: Suite, net: Net, d: Draw) {
    ValidPicks(net, d.picks) && 1 <= d.x < S.order && |d.coins.nonce| == NONCE_LEN
  }

  datatype Outgoing = Outgoing(firstNodeId: bytes, packet: Packet)

  /** `pickPath` as the sender sees it: ids and public keys. */
  function PickPath(S: Suite, net: Net, providerId: bytes, picks: seq<nat>): Option<seq<Hop>>
    requires S.order > 0 && ValidPicks(net, picks)
  {
    match PickNodes(net, providerId, picks)
    case None => None
    case Some(nodes) => Some(RouteOf(S, 1, nodes).Path())
  }

  /** `buildOutgoing`, None for every way it throws. */
  function BuildOutgoing<C>(S: Suite, E: E2E, net: Net, codec: Codec<C>, card: Card, content: C,
                            signer: SignKeypair, d: Draw): Option<Outgoing>
    requires S.Valid() && ValidNet(S, net) && ValidDraw(S, net, d)
  {
    match PickPath(S, net, card.providerId, d.picks)
    case None => None
    case Some(path) =>
      PathSized(S, net, card.providerId, d.picks);
      match BuildInner(E, codec, card, content, signer, d.coins)
      case None => None
      case Some(inner) =>
        match Created(S, d.x, path, inner)
        case None => None
        case Some(packet) => Some(Outgoing(path[0].id, packet))
  }

  lemma PathSized(S: Suite, net: Net, providerId: bytes, picks: seq<nat>)
    requires S.Valid() && ValidNet(S, net) && ValidPicks(net, picks) && PickPath(S, net, providerId, picks).Some?
    ensures IdsSized(PickPath(S, net, providerId, picks).value) && |PickPath(S, net, providerId, picks).value| > 0
  {
    PickedRoute(S, 1, net, providerId, picks);
  }

  /** `buildInner`: the same inner bytes without the onion, for the Nym transport. */
  function BuildInner<C>(E: E2E, codec: Codec<C>, card: Card, content: C, signer: SignKeypair,
                         coins: Coins): Option<bytes> {
    match SealEnvelope(E, card.kem, codec.encode(content), signer, coins)
    case None => None
    case Some(envelope) => PackInner(card.mailbox, envelope)
  }

  datatype Incoming<C> = Incoming(content: C, transcript: bytes, ed: bytes, dsa: bytes)

  /** `openIncoming`, None where it throws. */
  function OpenIncoming<C>(E: E2E, codec: Codec<C>, kem: KemKeypair, envelope: bytes): Option<Incoming<C>> {
    match OpenEnvelope(E, kem, envelope)
    case None => None
    case Some(o) =>
      match codec.decode(o.content)
      case None => None
      case Some(c) => Some(Incoming(c, o.transcript, o.ed, o.dsa))
  }

  const MAX_CONTENT: nat := 3626

  /** The size law of both send paths, exact on both sides of both limits. */
  lemma SendSize<C>(S: Suite, E: E2E, net: Net, codec: Codec<C>, bob: Identity, content: C,
                    signer: SignKeypair, d: Draw)
    requires S.Valid() && E.Valid() && ValidNet(S, net) && ValidDraw(S, net, d)
    requires bob.providerId in Index(net.Nodes())
    ensures var card := bob.CardOf(E);
            && (BuildInner(E, codec, card, content, signer, d.coins).Some? <==> |codec.encode(content)| <= 60989)
            && (BuildOutgoing(S, E, net, codec, card, content, signer, d).Some?
                <==> |codec.encode(content)| <= MAX_CONTENT)
  {
    hide Created, SealEnvelope, PackInner, Index;
    var card := bob.CardOf(E);
    var envelope := SealEnvelope(E, card.kem, codec.encode(content), signer, d.coins);
    EnvelopeSize(E, card.kem, codec.encode(content), signer, d.coins);
    if envelope.Some? { InnerSize(card.mailbox, envelope.value); }
    var inner := BuildInner(E, codec, card, content, signer, d.coins);
    if inner.Some? { PickedPacket(S, net, card.providerId, d, inner.value); }
  }

  /** The packet for a picked path is the first packet of the picked route. */
  lemma PickedPacket(S: Suite, net: Net, providerId: bytes, d: Draw, inner: bytes)
    requires S.Valid() && ValidNet(S, net) && ValidDraw(S, net, d) && providerId in Index(net.Nodes())
    ensures var nodes := PickNodes(net, providerId, d.picks).value;
            var r, path := RouteOf(S, d.x, nodes), PickPath(S, net, providerId, d.picks).value;
            && r.Valid() && IdsSized(path) && |path| == |r.ids| && path[0].id == r.ids[0]
            && Created(S, d.x, path, inner)
               == if |inner| <= PAYLOAD_LEN then Some(r.PacketAt(inner, 0)) else None
  {
    hide Created;
    PickedRoute(S, d.x, net, providerId, d.picks);
    PathSized(S, net, providerId, d.picks);
    var r := RouteOf(S, d.x, PickNodes(net, providerId, d.picks).value);
    CreatedStartsRoute(r, inner);
    assert PickPath(S, net, providerId, d.picks).value == r.Path();
  }

  /**
   End to end. Any content within the limit, sent to any card over any picked path, visits exactly
   that path and reaches the recipient's provider, which reads the recipient's mailbox and an
   envelope despite the padding; both are the ones the unpadded Nym route delivers; and the
   recipient opens the envelope to the original content, which verifies under the sender's bundle.
   */
  lemma EndToEnd<C>(S: Suite, E: E2E, net: Net, codec: Codec<C>, bob: Identity, content: C,
                    signer: SignKeypair, d: Draw, n: nat)
    requires S.Valid() && E.Valid() && ValidNet(S, net) && ValidDraw(S, net, d)
    requires bob.providerId in Index(net.Nodes())
    requires |codec.encode(content)| <= MAX_CONTENT && codec.decode(codec.encode(content)) == Some(content)
    requires n > |net.layers|
    ensures var card := bob.CardOf(E);
            var out := BuildOutgoing(S, E, net, codec, card, content, signer, d);
            var inner := BuildInner(E, codec, card, content, signer, d.coins);
            && out.Some? && inner.Some?
            && var trip := Walk(S, Running(net), out.value.firstNodeId, out.value.packet, n);
            && trip.visited == NodeIds(PickNodes(net, bob.providerId, d.picks).value)
            && trip.end.Delivered? && trip.end.at == bob.providerId
            && UnpackInner(trip.end.payload) == UnpackInner(inner.value)
            && UnpackInner(trip.end.payload).Some?
            && var got := UnpackInner(trip.end.payload).value;
            && got.mailbox == card.mailbox
            && var o := OpenIncoming(E, codec, bob.kem, got.envelope);
            && o.Some? && o.value.content == content
            && Verify(E, SignPublic(E, signer), o.value.transcript, o.value.ed, o.value.dsa)
  {
    hide Created, Walk, UnpackInner, PackInner, OpenIncoming, Verify, BuildInner, BuildOutgoing, PickPath,
      ValidNet, E.Valid, S.Valid;
    SendSize(S, E, net, codec, bob, content, signer, d);
    var inner := BuildInner(E, codec, bob.CardOf(E), content, signer, d.coins).value;
    OutgoingCarriesInner(S, E, net, codec, bob.CardOf(E), content, signer, d);
    Carried(S, net, bob.providerId, d, inner, n);
    Received(E, codec, bob, content, signer, d.coins, []);
    Received(E, codec, bob, content, signer, d.coins, Zeros(PAYLOAD_LEN - |inner|));
    assert inner + [] == inner;
  }

  /** `buildOutgoing` wraps exactly the bytes `buildInner` makes. */
  lemma OutgoingCarriesInner<C>(S: Suite, E: E2E, net: Net, codec: Codec<C>, card: Card, content: C,
                                signer: SignKeypair, d: Draw)
    requires S.Valid() && ValidNet(S, net) && ValidDraw(S, net, d)
    requires BuildOutgoing(S, E, net, codec, card, content, signer, d).Some?
    ensures BuildInner(E, codec, card, content, signer, d.coins).Some?
    ensures PickPath(S, net, card.providerId, d.picks).Some?
    ensures var path := PickPath(S, net, card.providerId, d.picks).value;
            var inner := BuildInner(E, codec, card, content, signer, d.coins).value;
            && IdsSized(path) && |path| > 0 && Created(S, d.x, path, inner).Some?
            && BuildOutgoing(S, E, net, codec, card, content, signer, d)
               == Some(Outgoing(path[0].id, Created(S, d.x, path, inner).value))
  {
    hide Created, BuildInner, PickPath, ValidNet, S.Valid, IdsSized;
    PathSized(S, net, card.providerId, d.picks);
  }

  /** The receiving half: whatever padding follows, the inner bytes lead back to the content. */
  lemma Received<C>(E: E2E, codec: Codec<C>, bob: Identity, content: C, signer: SignKeypair, coins: Coins, tail: bytes)
    requires E.Valid() && |coins.nonce| == NONCE_LEN
    requires BuildInner(E, codec, bob.CardOf(E), content, signer, coins).Some?
    requires codec.decode(codec.encode(content)) == Some(content)
    ensures var inner := BuildInner(E, codec, bob.CardOf(E), content, signer, coins).value;
            var envelope := SealEnvelope(E, KemPublic(E, bob.kem), codec.encode(content), signer, coins);
            && envelope.Some?
            && UnpackInner(inner + tail) == Some(Inner(bob.CardOf(E).mailbox, envelope.value))
            && var o := OpenIncoming(E, codec, bob.kem, envelope.value);
            && o.Some? && o.value.content == content
            && Verify(E, SignPublic(E, signer), o.value.transcript, o.value.ed, o.value.dsa)
  {
    hide UnpackInner, PackInner, SealEnvelope, OpenEnvelope, Verify;
    var envelope := SealEnvelope(E, KemPublic(E, bob.kem), codec.encode(content), signer, coins).value;
    SealedOpens(E, bob.kem, codec.encode(content), signer, coins);
    InnerSurvivesPadding(bob.CardOf(E).mailbox, envelope, tail);
  }

  /** The transport half: a packet built for a picked path is carried along it to the provider. */
  lemma Carried(S: Suite, net: Net, providerId: bytes, d: Draw, inner: bytes, n: nat)
    requires S.Valid() && ValidNet(S, net) && ValidDraw(S, net, d) && providerId in Index(net.Nodes())
    requires IdsSized(PickPath(S, net, providerId, d.picks).value)
    requires Created(S, d.x, PickPath(S, net, providerId, d.picks).value, inner).Some? && n > |net.layers|
    ensures |inner| <= PAYLOAD_LEN
    ensures var path := PickPath(S, net, providerId, d.picks).value;
            |path| > 0
            && Walk(S, Running(net), path[0].id, Created(S, d.x, path, inner).value, n)
               == Trip(NodeIds(PickNodes(net, providerId, d.picks).value),
                       Delivered(providerId, inner + Zeros(PAYLOAD_LEN - |inner|)))
  {
    hide Created, Walk;
    PickedRoute(S, d.x, net, providerId, d.picks);
    PickedPacket(S, net, providerId, d, inner);
    RouteLaw(RouteOf(S, d.x, PickNodes(net, providerId, d.picks).value), Running(net), inner, n);
  }

  // ---- who is on the path, and who is believed ---------------------------------------------

  /** The path a sender uses and the packet built on it are the picked nodes', in order: ids, public keys and
      the first hop. */
  lemma PathIsPicked<C>(S: Suite, E: E2E, net: Net, codec: Codec<C>, card: Card, content: C,
                        signer: SignKeypair, d: Draw)
    requires S.Valid() && ValidNet(S, net) && ValidDraw(S, net, d)
    requires BuildOutgoing(S, E, net, codec, card, content, signer, d).Some?
    ensures PickNodes(net, card.providerId, d.picks).Some? && PickPath(S, net, card.providerId, d.picks).Some?
    ensures var nodes := PickNodes(net, card.providerId, d.picks).value;
            var path := PickPath(S, net, card.providerId, d.picks).value;
            && |path| == |nodes| == |net.layers| + 1
            && (forall l :: 0 <= l < |nodes| ==> path[l] == Hop(nodes[l].id, S.encode(nodes[l].secret % S.order)))
            && BuildOutgoing(S, E, net, codec, card, content, signer, d).value.firstNodeId == nodes[0].id
  {
    hide Created, BuildInner, Index;
  }

  /** So every packet of every client goes where the draws lead: the walk visits a node of a layer, at that
      layer's place, exactly when the layer's own draws lead to it. */
  lemma RouteFollowsDraws<C>(S: Suite, E: E2E, net: Net, codec: Codec<C>, bob: Identity, content: C,
                             signer: SignKeypair, d: Draw, draws: seq<seq<bytes>>, l: nat, node: Node)
    requires S.Valid() && E.Valid() && ValidNet(S, net) && ValidDraw(S, net, d)
    requires bob.providerId in Index(net.Nodes())
    requires |codec.encode(content)| <= MAX_CONTENT && codec.decode(codec.encode(content)) == Some(content)
    requires l < |net.layers| == |draws| && |net.layers[l]| <= TWO32 && node in net.layers[l]
    requires (forall x :: x in draws[l] ==> |x| == 4) && DrawnFor(|net.layers[l]|, draws[l], d.picks[l])
    ensures BuildOutgoing(S, E, net, codec, bob.CardOf(E), content, signer, d).Some?
    ensures var out := BuildOutgoing(S, E, net, codec, bob.CardOf(E), content, signer, d).value;
            var trip := Walk(S, Running(net), out.firstNodeId, out.packet, |net.layers| + 1);
            && |trip.visited| == |net.layers| + 1
            && (trip.visited[l] == node.id <==> LeadTo(net.layers[l], draws[l], node))
            && trip.visited[|net.layers|] == bob.providerId
  {
    hide Walk, BuildOutgoing, BuildInner, OpenIncoming, Verify, UnpackInner, Running, Index, LeadTo, DrawnFor,
      PickNodes, SignPublic, E.Valid, S.Valid;
    EndToEnd(S, E, net, codec, bob, content, signer, d, |net.layers| + 1);
    PathFollowsDraws(net, bob.providerId, d.picks, draws, l, node);
  }

  /** What others know an identity by: the public halves of its four keys, and as its mailbox the first 16
      bytes of the hash of the two that envelopes are sealed to. */
  lemma CardIs(E: E2E, id: Identity)
    requires E.Valid()
    ensures var c := id.CardOf(E);
            && c.providerId == id.providerId
            && c.kem == KemBundle(E.xPub(id.kem.x), E.kemPub(id.kem.kem))
            && c.sign == SignBundle(E.edPub(id.sign.ed), E.dsaPub(id.sign.dsa))
            && c.mailbox == E.sha256(E.xPub(id.kem.x) + E.kemPub(id.kem.kem))[..16]
  {}

  /** What comes in, for all bytes: the envelope opens and its content decodes; and the message is believed to
      be from a bundle's owner exactly when both signature schemes accept it over the recipient's own keys. */
  lemma IncomingIs<C>(E: E2E, codec: Codec<C>, kem: KemKeypair, envelope: bytes, b: SignBundle)
    ensures OpenIncoming(E, codec, kem, envelope).Some? <==>
            OpenEnvelope(E, kem, envelope).Some? && codec.decode(OpenEnvelope(E, kem, envelope).value.content).Some?
    ensures OpenIncoming(E, codec, kem, envelope).Some? ==>
              var i, o := OpenIncoming(E, codec, kem, envelope).value, OpenEnvelope(E, kem, envelope).value;
              var m := SignedOver(E, E.xPub(kem.x), E.kemPub(kem.kem), o.content);
              && Some(i.content) == codec.decode(o.content)
              && (Verify(E, b, i.transcript, i.ed, i.dsa)
                  <==> E.edVerify(o.ed, m, b.ed) && E.dsaVerify(o.dsa, m, b.dsa))
  {
    hide OpenEnvelope, Verify, SignedOver;
    if OpenEnvelope(E, kem, envelope).Some? { BelievedIff(E, kem, envelope, b); }
  }
}
