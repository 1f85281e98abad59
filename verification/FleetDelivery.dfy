/**
 What the fleet's guarantees mean for people: packets that clients build are honest traffic, so whatever
 happens on the network, a delivery of one is its recipient's mail.
 */
module FleetDelivery {
  import opened Bytes
  import opened Primitives
  import opened Protocol
  import opened SphinxHeader
  import opened SphinxPacket
  import opened SphinxRoute
  import opened Directory
  import opened Client
  import Replay
  import Fleet

  /** One call of `buildOutgoing` and everything it used. */
  datatype Sending<!C> = Sending(E: E2E, codec: Codec<C>, bob: Identity, content: C, signer: SignKeypair, draw: Draw)

  ghost predicate Possible<C>(S: Suite, net: Net, w: Sending<C>) {
    && w.E.Valid() && ValidDraw(S, net, w.draw) && w.bob.providerId in Index(net.Nodes())
    && |w.codec.encode(w.content)| <= MAX_CONTENT
    && w.codec.decode(w.codec.encode(w.content)) == Some(w.content)
  }

  /** The inner bytes of a sending, and the send the fleet sees. */
  function InnerOf<C>(w: Sending<C>): Option<bytes>
    requires w.E.Valid()
  {
    BuildInner(w.E, w.codec, w.bob.CardOf(w.E), w.content, w.signer, w.draw.coins)
  }

  ghost function SentOf<C>(S: Suite, net: Net, w: Sending<C>): Fleet.Sent
    requires S.Valid() && ValidNet(S, net) && Possible(S, net, w) && InnerOf(w).Some?
  {
    Fleet.Sent(RouteOf(S, w.draw.x, PickNodes(net, w.bob.providerId, w.draw.picks).value), InnerOf(w).value)
  }

  /** Every packet a client builds within the limit may be submitted to the fleet, at the node it names. */
  lemma BuiltIsHonest<C>(S: Suite, net: Net, guard: Replay.Config, w: Sending<C>)
    requires S.Valid() && ValidNet(S, net) && Possible(S, net, w)
    ensures InnerOf(w).Some?
    ensures var sent := SentOf(S, net, w);
            var out := BuildOutgoing(S, w.E, net, w.codec, w.bob.CardOf(w.E), w.content, w.signer, w.draw);
            && Fleet.Honest(Fleet.Network(S, Running(net), guard), sent)
            && out == Some(Outgoing(sent.r.ids[0], sent.r.PacketAt(sent.inner, 0)))
  {
    hide Created, BuildInner, BuildOutgoing, PickPath, Index, ValidNet, w.E.Valid, S.Valid;
    var card := w.bob.CardOf(w.E);
    SendSize(S, w.E, net, w.codec, w.bob, w.content, w.signer, w.draw);
    OutgoingCarriesInner(S, w.E, net, w.codec, card, w.content, w.signer, w.draw);
    PickedRoute(S, w.draw.x, net, card.providerId, w.draw.picks);
    PickedPacket(S, net, card.providerId, w.draw, InnerOf(w).value);
  }

  /** A delivery of a client's packet is at the recipient's provider and carries the padded inner bytes. */
  lemma ReachesProvider<C>(S: Suite, net: Net, guard: Replay.Config, w: Sending<C>,
                           s: Fleet.State, n: nat, d: Fleet.Delivery)
    requires S.Valid() && ValidNet(S, net) && Possible(S, net, w) && InnerOf(w).Some?
    requires Fleet.Reachable(Fleet.Network(S, Running(net), guard), s, n) && d in s.delivered
    requires d.send < |s.sends| && s.sends[d.send] == SentOf(S, net, w)
    ensures |InnerOf(w).value| <= PAYLOAD_LEN
    ensures d.at == w.bob.providerId && d.payload == InnerOf(w).value + Zeros(PAYLOAD_LEN - |InnerOf(w).value|)
  {
    hide InnerOf, PickNodes, Possible, Index, ValidNet, Fleet.Reachable, Replay.Accepts, Fleet.CallsAt,
      S.Valid, FinalMarker;
    var N := Fleet.Network(S, Running(net), guard);
    Fleet.OnlyItsPath(N, s, n);
    assert Fleet.Proper(N, s, d);
    EndsAtProvider(S, net, w);
  }

  lemma EndsAtProvider<C>(S: Suite, net: Net, w: Sending<C>)
    requires S.Valid() && ValidNet(S, net) && Possible(S, net, w) && InnerOf(w).Some?
    ensures var ids := SentOf(S, net, w).r.ids;
            ids != [] && ids[|ids|-1] == w.bob.providerId
  {
    hide InnerOf, Index, ValidNet, S.Valid;
    PickedRoute(S, w.draw.x, net, w.bob.providerId, w.draw.picks);
  }

  /** In every run, whatever is reordered, lost or duplicated: each delivery of a client's packet happens at
      the recipient's provider, is read as the recipient's mailbox, and opens to the content, verified. */
  lemma DeliveredIsTheMessage<C>(S: Suite, net: Net, guard: Replay.Config, w: Sending<C>,
                                 s: Fleet.State, n: nat, d: Fleet.Delivery)
    requires S.Valid() && ValidNet(S, net) && Possible(S, net, w) && InnerOf(w).Some?
    requires Fleet.Reachable(Fleet.Network(S, Running(net), guard), s, n) && d in s.delivered
    requires d.send < |s.sends| && s.sends[d.send] == SentOf(S, net, w)
    ensures d.at == w.bob.providerId
    ensures UnpackInner(d.payload).Some?
    ensures var got := UnpackInner(d.payload).value;
            && got.mailbox == w.bob.CardOf(w.E).mailbox
            && var o := OpenIncoming(w.E, w.codec, w.bob.kem, got.envelope);
            && o.Some? && o.value.content == w.content
            && Verify(w.E, SignPublic(w.E, w.signer), o.value.transcript, o.value.ed, o.value.dsa)
  {
    hide UnpackInner, OpenIncoming, Verify, ValidNet, SentOf, Fleet.Reachable, w.E.Valid, S.Valid, Index, BuildInner;
    ReachesProvider(S, net, guard, w, s, n, d);
    Received(w.E, w.codec, w.bob, w.content, w.signer, w.draw.coins, Zeros(PAYLOAD_LEN - |InnerOf(w).value|));
  }

  /** And such deliveries happen: to a recipient at a provider, every sending is delivered in some run. */
  lemma SomeRunDeliversIt<C>(S: Suite, net: Net, guard: Replay.Config, w: Sending<C>, provider: Node)
    returns (s: Fleet.State, d: Fleet.Delivery)
    requires S.Valid() && ValidNet(S, net) && Possible(S, net, w)
    requires provider in net.providers && provider.id == w.bob.providerId
    ensures InnerOf(w).Some?
    ensures Fleet.Reachable(Fleet.Network(S, Running(net), guard), s, |net.layers| + 2) && d in s.delivered
    ensures d.send < |s.sends| && s.sends[d.send] == SentOf(S, net, w)
  {
    hide BuildInner, BuildOutgoing, Index, w.E.Valid, S.Valid, Fleet.Reachable, Fleet.Honest, PickNodes, FinalMarker;
    BuiltIsHonest(S, net, guard, w);
    PickedDistinct(net, w.bob.providerId, w.draw.picks, provider);
    var sent := SentOf(S, net, w);
    RouteLength(S, net, w);
    s, d := Fleet.SomeRunDelivers(Fleet.Network(S, Running(net), guard), sent);
  }

  lemma RouteLength<C>(S: Suite, net: Net, w: Sending<C>)
    requires S.Valid() && ValidNet(S, net) && Possible(S, net, w) && InnerOf(w).Some?
    ensures |SentOf(S, net, w).r.ids| == |net.layers| + 1
  {
    hide InnerOf, Index, ValidNet, S.Valid;
    PickedRoute(S, w.draw.x, net, w.bob.providerId, w.draw.picks);
  }

  /** The hypotheses can be met: a network of one mix and one provider, and somebody writing to Bob. */
  lemma SomebodyCanSend() returns (S: Suite, net: Net, w: Sending<bytes>)
    ensures S.Valid() && ValidNet(S, net) && Possible(S, net, w)
  {
    S := SuiteExists();
    var E := E2EExists();
    var mix, provider := Node(Zeros(HOP_ID_LEN), 1), Node([1] + Zeros(HOP_ID_LEN - 1), 1);
    net := Net([[mix]], [provider]);
    var bob := Identity(provider.id, KemKeypair([], []), SignKeypair([], []));
    w := Sending(E, Codec((c: bytes) => c, (b: bytes) => Some(b)), bob, [], SignKeypair([], []),
                 Draw([0], 1, Coins([], [], Zeros(NONCE_LEN))));
    assert mix.id[0] == 0 && provider.id[0] == 1;
    OneMix(mix, provider);
    MarkerStartsWithN();
  }

  lemma OneMix(mix: Node, provider: Node)
    requires mix.id != provider.id
    ensures Net([[mix]], [provider]).Nodes() == [mix, provider] && DistinctIds([mix, provider])
    ensures provider.id in Index([mix, provider])
  {
    assert Rows([[mix]]) == [mix] + Rows([]);
  }

  lemma MarkerStartsWithN()
    ensures IntOf(FinalMarker()[0]) == 78 && IntOf(0) == 0 && IntOf(1) == 1
  {}
}
