/**
 The in-process mix network: peeling packets node by node, live delivery to subscribed callbacks, and
 the mailbox queue that takes what nobody took live.
 */
module Router {
  import opened Bytes
  import opened Primitives
  import opened Protocol
  import opened SphinxHeader
  import opened SphinxPacket
  import opened SphinxLaws
  import opened SphinxRoute
  import opened Directory
  import opened Client

  type Key = (bytes, bytes)  // (provider id, mailbox)

  /** A subscriber's callback, and how it may answer a call. */
  type Callback = nat
  datatype Answer = Took | NotTaken | Threw
  type Behaviour = (Callback, bytes) -> Answer

  datatype Call = Call(cb: Callback, envelope: bytes)

  /** A set of callbacks in the order they were added. */
  ghost predicate Distinct(cbs: seq<Callback>) {
    forall i, j :: 0 <= i < j < |cbs| ==> cbs[i] != cbs[j]
  }

  /** One envelope offered to every subscriber, in the order they subscribed. */
  function Offered(cbs: seq<Callback>, envelope: bytes): (calls: seq<Call>)
    ensures |calls| == |cbs|
  {
    seq(|cbs|, i requires 0 <= i < |cbs| => Call(cbs[i], envelope))
  }

  predicate TakenLive(cbs: seq<Callback>, envelope: bytes, act: Behaviour) {
    exists i :: 0 <= i < |cbs| && act(cbs[i], envelope).Took?
  }

  /** Queued envelopes handed over in order, up to the first call that throws; answers are ignored. */
  function Flushed(envelopes: seq<bytes>, cb: Callback, act: Behaviour): (calls: seq<Call>)
    ensures |calls| <= |envelopes|
  {
    if envelopes == [] then []
    else if act(cb, envelopes[0]).Threw? then [Call(cb, envelopes[0])]
    else [Call(cb, envelopes[0])] + Flushed(envelopes[1..], cb, act)
  }

  /** The flush stops at the first throw and nowhere else. */
  lemma {:induction false} FlushStops(envelopes: seq<bytes>, cb: Callback, act: Behaviour)
    ensures var n := |Flushed(envelopes, cb, act)|;
            && (forall i :: 0 <= i < n - 1 ==> !act(cb, envelopes[i]).Threw?)
            && (n < |envelopes| ==> n > 0 && act(cb, envelopes[n-1]).Threw?)
  {
    if envelopes != [] && !act(cb, envelopes[0]).Threw? {
      FlushStops(envelopes[1..], cb, act);
      assert forall i :: 1 <= i < |envelopes| ==> envelopes[i] == envelopes[1..][i-1];
    }
  }

  /** The flush keeps every envelope, in order, unless the callback throws on one. */
  lemma {:induction false} FlushKeepsAll(envelopes: seq<bytes>, cb: Callback, act: Behaviour)
    ensures forall i :: 0 <= i < |Flushed(envelopes, cb, act)| ==>
              Flushed(envelopes, cb, act)[i] == Call(cb, envelopes[i])
    ensures |Flushed(envelopes, cb, act)| == |envelopes| <==>
              forall i :: 0 <= i < |envelopes| - 1 ==> !act(cb, envelopes[i]).Threw?
  {
    if envelopes != [] && !act(cb, envelopes[0]).Threw? {
      FlushKeepsAll(envelopes[1..], cb, act);
      assert forall i :: 1 <= i < |envelopes| ==> envelopes[i] == envelopes[1..][i-1];
    }
  }

  // ---- the router's books, and what each call does to them ---------------------

  /** `calls` lists every callback invocation so far. */
  datatype Books = Books(
    subs: map<Key, seq<Callback>>, queues: map<Key, seq<bytes>>, calls: seq<Call>, forwarded: nat, delivered: nat)
  {
    function SubsOf(k: Key): seq<Callback> {
      if k in subs then subs[k] else []
    }

    function QueueOf(k: Key): seq<bytes> {
      if k in queues then queues[k] else []
    }
  }

  /** `_deliver`: a payload that does not parse is dropped; otherwise every subscriber is offered the
      envelope, and it is queued exactly when none of them took it. */
  function AfterDeliver(b: Books, providerId: bytes, payload: bytes, act: Behaviour): Books {
    match UnpackInner(payload)
    case None => b
    case Some(inner) =>
      var k := (providerId, inner.mailbox);
      b.(delivered := b.delivered + 1,
         calls := b.calls + Offered(b.SubsOf(k), inner.envelope),
         queues := if TakenLive(b.SubsOf(k), inner.envelope, act) then b.queues
                   else b.queues[k := b.QueueOf(k) + [inner.envelope]])
  }

  datatype Injected = Injected(books: Books, next: Option<(bytes, Packet)>)

  /** `inject`: unknown nodes and failed peels drop the packet. */
  function AfterInject(S: Suite, nodes: map<bytes, nat>, b: Books, id: bytes, packet: Packet, act: Behaviour): Injected
    requires S.Valid()
  {
    if id !in nodes then Injected(b, None)
    else
      var b' := b.(forwarded := b.forwarded + 1);
      match ProcessPacket(S, nodes[id], packet)
      case Rejected => Injected(b, None)
      case Exit(payload) => Injected(AfterDeliver(b', id, payload, act), None)
      case Forward(nextId, next) => Injected(b', Some((nextId, next)))
  }

  /** An accepted envelope is taken live or added to the end of its own mailbox's queue, never both and
      never neither; no other mailbox and nothing already queued is touched. */
  lemma DeliveredOnce(b: Books, providerId: bytes, payload: bytes, act: Behaviour)
    requires UnpackInner(payload).Some?
    ensures var inner := UnpackInner(payload).value;
            var k, b' := (providerId, inner.mailbox), AfterDeliver(b, providerId, payload, act);
            && (forall j :: j != k ==> b'.QueueOf(j) == b.QueueOf(j))
            && b.calls <= b'.calls && b.QueueOf(k) <= b'.QueueOf(k)
            && var live := exists i :: |b.calls| <= i < |b'.calls| && act(b'.calls[i].cb, b'.calls[i].envelope).Took?;
            && |b'.QueueOf(k)| == |b.QueueOf(k)| + (if live then 0 else 1)
            && (!live ==> b'.QueueOf(k)[|b.QueueOf(k)|] == inner.envelope)
            && |b'.calls| == |b.calls| + |b.SubsOf(k)|
            && (forall i :: 0 <= i < |b.SubsOf(k)| ==> b'.calls[|b.calls| + i] == Call(b.SubsOf(k)[i], inner.envelope))
            && b'.delivered == b.delivered + 1 && b'.forwarded == b.forwarded && b'.subs == b.subs
  {
    var inner := UnpackInner(payload).value;
    var k, b' := (providerId, inner.mailbox), AfterDeliver(b, providerId, payload, act);
    var cbs := b.SubsOf(k);
    hide UnpackInner, TakenLive, Offered;
    LiveIsTaken(b.calls, cbs, inner.envelope, act);
  }

  /** Somebody takes the envelope exactly when one of the calls just made answers that it did. */
  lemma LiveIsTaken(before: seq<Call>, cbs: seq<Callback>, envelope: bytes, act: Behaviour)
    ensures var calls := before + Offered(cbs, envelope);
            && |Offered(cbs, envelope)| == |cbs|
            && (forall i :: 0 <= i < |cbs| ==> calls[|before| + i] == Call(cbs[i], envelope))
            && (TakenLive(cbs, envelope, act) <==>
                exists i :: |before| <= i < |calls| && act(calls[i].cb, calls[i].envelope).Took?)
  {
    var calls := before + Offered(cbs, envelope);
    assert forall i :: 0 <= i < |cbs| ==> calls[|before| + i] == Call(cbs[i], envelope);
    if TakenLive(cbs, envelope, act) {
      var i :| 0 <= i < |cbs| && act(cbs[i], envelope).Took?;
      assert calls[|before| + i].cb == cbs[i];
    }
  }

  class Mixnet {
    const S: Suite
    const nodes: map<bytes, nat>          // node id to secret scalar
    var subs: map<Key, seq<Callback>>
    var queues: map<Key, seq<bytes>>
    var calls: seq<Call>
    var forwarded: nat
    var delivered: nat

    constructor (S: Suite, nodes: map<bytes, nat>)
      ensures this.S == S && this.nodes == nodes && Now() == Books(map[], map[], [], 0, 0)
    {
      this.S, this.nodes := S, nodes;
      subs, queues, calls, forwarded, delivered := map[], map[], [], 0, 0;
    }

    function Now(): Books
      reads this
    {
      Books(subs, queues, calls, forwarded, delivered)
    }

    /** The subscriber sets are sets. */
    ghost predicate Valid()
      reads this`subs
    {
      forall k :: k in subs ==> Distinct(subs[k])
    }

    /** A callback subscribes: it joins the set, and everything queued is drained. What was drained is
        flushed to it a little later, by `Flush`; deliveries may come in between. */
    method Subscribe(k: Key, cb: Callback) returns (drained: seq<bytes>)
      requires Valid()
      modifies this`subs, this`queues
      ensures Valid()
      ensures var was := old(Now());
              && drained == was.QueueOf(k) && Now().QueueOf(k) == []
              && cb in Now().SubsOf(k) && was.SubsOf(k) <= Now().SubsOf(k)
              && (forall other :: other != cb ==> (other in Now().SubsOf(k) <==> other in was.SubsOf(k)))
              && forall j :: j != k ==> Now().SubsOf(j) == was.SubsOf(j) && Now().QueueOf(j) == was.QueueOf(j)
    {
      if k !in subs { subs := subs[k := []]; }
      if cb !in subs[k] { subs := subs[k := subs[k] + [cb]]; }
      drained := Now().QueueOf(k);
      if drained != [] { queues := queues[k := []]; }
    }

    method Flush(envelopes: seq<bytes>, cb: Callback, act: Behaviour)
      modifies this`calls
      ensures calls == old(calls) + Flushed(envelopes, cb, act)
    {
      var i := 0;
      while i < |envelopes|
        invariant i <= |envelopes|
        invariant old(calls) + Flushed(envelopes, cb, act) == calls + Flushed(envelopes[i..], cb, act)
      {
        calls := calls + [Call(cb, envelopes[i])];
        if act(cb, envelopes[i]).Threw? { return; }
        i := i + 1;
      }
    }

    /** The callback is gone; the others of its mailbox stay, in their order, and no other mailbox changes. */
    method Unsubscribe(k: Key, cb: Callback)
      requires Valid()
      modifies this`subs
      ensures Valid()
      ensures var was := old(Now());
              && cb !in Now().SubsOf(k)
              && (cb !in was.SubsOf(k) ==> Now().SubsOf(k) == was.SubsOf(k))
              && (cb in was.SubsOf(k) ==> exists i ::
                    0 <= i < |was.SubsOf(k)| && was.SubsOf(k)[i] == cb
                    && Now().SubsOf(k) == was.SubsOf(k)[..i] + was.SubsOf(k)[i+1..])
              && forall j :: j != k ==> Now().SubsOf(j) == was.SubsOf(j)
    {
      if k !in subs { return; }
      var cbs, i := subs[k], 0;
      while i < |cbs| && cbs[i] != cb
        invariant i <= |cbs| && cb !in cbs[..i]
      {
        i := i + 1;
      }
      if i < |cbs| { subs := subs[k := cbs[..i] + cbs[i+1..]]; }
    }

    method Deliver(providerId: bytes, payload: bytes, act: Behaviour)
      modifies this`queues, this`calls, this`delivered
      ensures Now() == AfterDeliver(old(Now()), providerId, payload, act)
    {
      hide UnpackInner;
      var parsed := UnpackInner(payload);
      if parsed.None? { return; }
      var k, envelope := (providerId, parsed.value.mailbox), parsed.value.envelope;
      delivered := delivered + 1;
      var cbs, taken, i := Now().SubsOf(k), false, 0;
      while i < |cbs|
        invariant i <= |cbs| && calls == old(calls) + Offered(cbs[..i], envelope)
        invariant taken == TakenLive(cbs[..i], envelope, act)
        invariant queues == old(queues) && delivered == old(delivered) + 1
      {
        calls := calls + [Call(cbs[i], envelope)];
        OneMoreOffered(cbs, i, envelope, act);
        if act(cbs[i], envelope).Took? { taken := true; }
        i := i + 1;
      }
      assert cbs[..|cbs|] == cbs;
      if !taken { queues := queues[k := Now().QueueOf(k) + [envelope]]; }
    }

    /** One hop. `next` is what the router schedules after its random delay. */
    method Inject(id: bytes, packet: Packet, act: Behaviour) returns (next: Option<(bytes, Packet)>)
      requires S.Valid()
      modifies this`queues, this`calls, this`forwarded, this`delivered
      ensures Injected(Now(), next) == AfterInject(S, nodes, old(Now()), id, packet, act)
    {
      hide ProcessPacket, AfterDeliver;
      if id !in nodes { return None; }
      var result := ProcessPacket(S, nodes[id], packet);
      if result.Rejected? { return None; }
      forwarded := forwarded + 1;
      if result.Exit? {
        Deliver(id, result.payload, act);
        return None;
      }
      return Some((result.nextId, result.packet));
    }

    /** A packet and the forwards it schedules, for at most `n` hops. If its walk ends in a delivery, the
        router has done exactly that delivery and nothing else; if not, no callback or queue has changed. */
    method Travel(id: bytes, packet: Packet, act: Behaviour, n: nat)
      requires S.Valid()
      modifies this`queues, this`calls, this`forwarded, this`delivered
      ensures var trip := Walk(S, nodes, id, packet, n);
              Now() == if trip.end.Delivered? then
                         AfterDeliver(old(Now()).(forwarded := old(forwarded) + |trip.visited|),
                                      trip.end.at, trip.end.payload, act)
                       else old(Now()).(forwarded := forwarded)
      decreases n
    {
      hide ProcessPacket, AfterDeliver;
      if n > 0 {
        var next := Inject(id, packet, act);
        if next.Some? { Travel(next.value.0, next.value.1, act, n - 1); }
      }
    }
  }

  lemma OneMoreOffered(cbs: seq<Callback>, i: nat, envelope: bytes, act: Behaviour)
    requires i < |cbs|
    ensures Offered(cbs[..i+1], envelope) == Offered(cbs[..i], envelope) + [Call(cbs[i], envelope)]
    ensures TakenLive(cbs[..i+1], envelope, act) == (TakenLive(cbs[..i], envelope, act) || act(cbs[i], envelope).Took?)
  {}

  // ---- with anything else going on in between --------------------------------------

  /** The books right after each hop of a packet's journey, when they are `books[i]` and callbacks answer as
      `acts[i]` just before hop i: whatever subscribes, leaves, arrives or is delivered in between. */
  function HopsFrom(S: Suite, nodes: map<bytes, nat>, books: seq<Books>, acts: seq<Behaviour>,
                    id: bytes, packet: Packet, i: nat): seq<Books>
    requires S.Valid() && |books| == |acts| && i <= |books|
    decreases |books| - i
  {
    if i == |books| then []
    else
      var h := AfterInject(S, nodes, books[i], id, packet, acts[i]);
      [h.books] + match h.next
                  case None => []
                  case Some(next) => HopsFrom(S, nodes, books, acts, next.0, next.1, i + 1)
  }

  /** One hop of an honest packet does the same on any books: count it and pass it on, or deliver it. */
  lemma HopOnAnyBooks(r: Route, nodes: map<bytes, nat>, inner: bytes, i: nat, b: Books, act: Behaviour)
    requires r.Valid() && Runs(nodes, r) && NoReservedId(r) && |inner| <= PAYLOAD_LEN && i < |r.ids|
    ensures var b' := b.(forwarded := b.forwarded + 1);
            AfterInject(r.S, nodes, b, r.ids[i], r.PacketAt(inner, i), act)
            == if i == |r.ids| - 1 then Injected(AfterDeliver(b', r.ids[i], Padded(inner), act), None)
               else Injected(b', Some((r.ids[i+1], r.PacketAt(inner, i + 1))))
  {
    hide ProcessPacket, AfterDeliver, Padded, FinalMarker, r.PacketAt, r.Secrets;
    r.HopPeels(inner, i);
    assert i < |r.ids| - 1 ==> r.IdSlot(i) == r.ids[i+1];
  }

  lemma HopsUnfold(S: Suite, nodes: map<bytes, nat>, books: seq<Books>, acts: seq<Behaviour>,
                   id: bytes, packet: Packet, i: nat)
    requires S.Valid() && |books| == |acts| && i < |books|
    ensures var h := AfterInject(S, nodes, books[i], id, packet, acts[i]);
            HopsFrom(S, nodes, books, acts, id, packet, i)
            == [h.books] + if h.next.None? then []
                           else HopsFrom(S, nodes, books, acts, h.next.value.0, h.next.value.1, i + 1)
  {
    hide AfterInject;
  }

  /** Hop j on any books, as the sender foresaw it. */
  function Foreseen(r: Route, inner: bytes, books: seq<Books>, acts: seq<Behaviour>, j: nat): Books
    requires |books| == |acts| == |r.ids| && j < |r.ids| && |inner| <= PAYLOAD_LEN
  {
    var counted := books[j].(forwarded := books[j].forwarded + 1);
    if j == |r.ids| - 1 then AfterDeliver(counted, r.ids[j], Padded(inner), acts[j]) else counted
  }

  lemma {:induction false} RouteOnAnyBooks(r: Route, nodes: map<bytes, nat>, inner: bytes,
                                           books: seq<Books>, acts: seq<Behaviour>, i: nat)
    requires r.Valid() && Runs(nodes, r) && NoReservedId(r) && |inner| <= PAYLOAD_LEN
    requires |books| == |acts| == |r.ids| && i < |r.ids|
    ensures var after := HopsFrom(r.S, nodes, books, acts, r.ids[i], r.PacketAt(inner, i), i);
            && |after| == |r.ids| - i
            && forall j :: i <= j < |r.ids| ==> after[j-i] == Foreseen(r, inner, books, acts, j)
    decreases |r.ids| - i
  {
    hide AfterInject, AfterDeliver, HopsFrom, Padded, r.PacketAt, NoReservedId, Runs, r.S.Valid;
    HopOnAnyBooks(r, nodes, inner, i, books[i], acts[i]);
    HopsUnfold(r.S, nodes, books, acts, r.ids[i], r.PacketAt(inner, i), i);
    if i < |r.ids| - 1 {
      hide r.Valid, Foreseen;
      RouteOnAnyBooks(r, nodes, inner, books, acts, i + 1);
      var after := HopsFrom(r.S, nodes, books, acts, r.ids[i], r.PacketAt(inner, i), i);
      var rest := HopsFrom(r.S, nodes, books, acts, r.ids[i+1], r.PacketAt(inner, i + 1), i + 1);
      assert after[0] == Foreseen(r, inner, books, acts, i) by { NotLast(r, inner, books, acts, i); }
      forall j | i < j < |r.ids| ensures after[j-i] == Foreseen(r, inner, books, acts, j) {
        assert after[j-i] == rest[j-(i+1)];
      }
    }
  }

  lemma NotLast(r: Route, inner: bytes, books: seq<Books>, acts: seq<Behaviour>, j: nat)
    requires |books| == |acts| == |r.ids| && j + 1 < |r.ids| && |inner| <= PAYLOAD_LEN
    ensures Foreseen(r, inner, books, acts, j) == books[j].(forwarded := books[j].forwarded + 1)
  {}

  /** What the provider reads from this payload is the recipient's mailbox, and an envelope that opens to
      the content and verifies as the sender's. */
  ghost predicate Carries<C>(E: E2E, codec: Codec<C>, bob: Identity, content: C, signer: SignKeypair, payload: bytes)
    requires E.Valid()
  {
    && UnpackInner(payload).Some?
    && var got := UnpackInner(payload).value;
    && got.mailbox == bob.CardOf(E).mailbox
    && var o := OpenIncoming(E, codec, bob.kem, got.envelope);
    && o.Some? && o.value.content == content
    && Verify(E, SignPublic(E, signer), o.value.transcript, o.value.ed, o.value.dsa)
  }

  lemma PaddedCarries<C>(E: E2E, codec: Codec<C>, bob: Identity, content: C, signer: SignKeypair,
                         coins: Coins, inner: bytes)
    requires E.Valid() && |coins.nonce| == NONCE_LEN && |inner| <= PAYLOAD_LEN
    requires BuildInner(E, codec, bob.CardOf(E), content, signer, coins) == Some(inner)
    requires codec.decode(codec.encode(content)) == Some(content)
    ensures Carries(E, codec, bob, content, signer, Padded(inner))
  {
    hide UnpackInner, OpenIncoming, Verify, BuildInner, E.Valid;
    Received(E, codec, bob, content, signer, coins, Zeros(PAYLOAD_LEN - |inner|));
  }

  /** From the first hop on: a counter at every hop but the last, the delivery at the last. */
  lemma WholeRoute(r: Route, nodes: map<bytes, nat>, inner: bytes, books: seq<Books>, acts: seq<Behaviour>)
    requires r.Valid() && Runs(nodes, r) && NoReservedId(r) && |inner| <= PAYLOAD_LEN
    requires |books| == |acts| == |r.ids|
    ensures var after := HopsFrom(r.S, nodes, books, acts, r.ids[0], r.PacketAt(inner, 0), 0);
            var last := |r.ids| - 1;
            && |after| == last + 1
            && (forall i :: 0 <= i < last ==> after[i] == books[i].(forwarded := books[i].forwarded + 1))
            && after[last] == AfterDeliver(books[last].(forwarded := books[last].forwarded + 1),
                                           r.ids[last], Padded(inner), acts[last])
  {
    hide HopsFrom, AfterDeliver, NoReservedId, Runs, Padded, r.PacketAt;
    RouteOnAnyBooks(r, nodes, inner, books, acts, 0);
    var after := HopsFrom(r.S, nodes, books, acts, r.ids[0], r.PacketAt(inner, 0), 0);
    forall j | 0 <= j < |r.ids| ensures after[j] == Foreseen(r, inner, books, acts, j) {
      assert after[j-0] == after[j];
    }
  }

  lemma PickedOnAnyBooks(S: Suite, net: Net, providerId: bytes, d: Draw, inner: bytes,
                         books: seq<Books>, acts: seq<Behaviour>)
    requires S.Valid() && ValidNet(S, net) && ValidDraw(S, net, d) && providerId in Index(net.Nodes())
    requires IdsSized(PickPath(S, net, providerId, d.picks).value)
    requires Created(S, d.x, PickPath(S, net, providerId, d.picks).value, inner).Some?
    requires |books| == |acts| == |net.layers| + 1
    ensures |inner| <= PAYLOAD_LEN && |PickPath(S, net, providerId, d.picks).value| > 0
    ensures var path := PickPath(S, net, providerId, d.picks).value;
            var after := HopsFrom(S, Running(net), books, acts, path[0].id, Created(S, d.x, path, inner).value, 0);
            var last := |net.layers|;
            && |after| == last + 1
            && (forall i :: 0 <= i < last ==> after[i] == books[i].(forwarded := books[i].forwarded + 1))
            && after[last] == AfterDeliver(books[last].(forwarded := books[last].forwarded + 1),
                                           providerId, Padded(inner), acts[last])
  {
    hide Created, Index, ValidNet, S.Valid, HopsFrom, AfterDeliver, PickNodes, NoReservedId, Runs, Padded, PickPath;
    PickedRoute(S, d.x, net, providerId, d.picks);
    PickedPacket(S, net, providerId, d, inner);
    var r := RouteOf(S, d.x, PickNodes(net, providerId, d.picks).value);
    WholeRoute(r, Running(net), inner, books, acts);
  }

  /**
   The whole way with anything in between: whatever the books have become by each hop, a packet made by
   `buildOutgoing` changes nothing but a counter until its last hop, and there it is delivered once, to the
   recipient's own mailbox, as an envelope that opens to the content and verifies as the sender's.
   */
  lemma ArrivesWhateverElse<C>(S: Suite, E: E2E, net: Net, codec: Codec<C>, bob: Identity, content: C,
                               signer: SignKeypair, d: Draw, books: seq<Books>, acts: seq<Behaviour>)
    requires S.Valid() && E.Valid() && ValidNet(S, net) && ValidDraw(S, net, d)
    requires bob.providerId in Index(net.Nodes()) && |books| == |acts| == |net.layers| + 1
    requires |codec.encode(content)| <= MAX_CONTENT && codec.decode(codec.encode(content)) == Some(content)
    ensures var out := BuildOutgoing(S, E, net, codec, bob.CardOf(E), content, signer, d);
            && out.Some?
            && var after := HopsFrom(S, Running(net), books, acts, out.value.firstNodeId, out.value.packet, 0);
            var last := |net.layers|;
            && |after| == last + 1
            && (forall i :: 0 <= i < last ==> after[i] == books[i].(forwarded := books[i].forwarded + 1))
            && exists payload ::
                 && Carries(E, codec, bob, content, signer, payload)
                 && after[last] == AfterDeliver(books[last].(forwarded := books[last].forwarded + 1),
                                                bob.providerId, payload, acts[last])
  {
    hide Created, BuildInner, BuildOutgoing, PickPath, Index, ValidNet, E.Valid, S.Valid, HopsFrom, AfterDeliver,
      Carries, Padded;
    var card := bob.CardOf(E);
    SendSize(S, E, net, codec, bob, content, signer, d);
    OutgoingCarriesInner(S, E, net, codec, card, content, signer, d);
    var inner := BuildInner(E, codec, card, content, signer, d.coins).value;
    PickedOnAnyBooks(S, net, card.providerId, d, inner, books, acts);
    PaddedCarries(E, codec, bob, content, signer, d.coins, inner);
  }

  /**
   The same as code, for a journey nothing interrupts: a packet made by
   `buildOutgoing` for content within the limit ends with the recipient's own mailbox, and nobody
   else's, being offered or queued one envelope, which opens to the content and verifies as the sender's.
   */
  method SendThrough<C>(mix: Mixnet, E: E2E, net: Net, codec: Codec<C>, bob: Identity, content: C,
                        signer: SignKeypair, d: Draw, act: Behaviour) returns (k: Key, envelope: bytes)
    requires mix.S.Valid() && E.Valid() && ValidNet(mix.S, net) && ValidDraw(mix.S, net, d)
    requires mix.nodes == Running(net) && bob.providerId in Index(net.Nodes())
    requires |codec.encode(content)| <= MAX_CONTENT && codec.decode(codec.encode(content)) == Some(content)
    modifies mix`queues, mix`calls, mix`forwarded, mix`delivered
    ensures k == (bob.providerId, bob.CardOf(E).mailbox)
    ensures mix.calls == old(mix.calls) + Offered(old(mix.Now()).SubsOf(k), envelope)
    ensures mix.Now().QueueOf(k)
         == old(mix.Now()).QueueOf(k) + if TakenLive(old(mix.Now()).SubsOf(k), envelope, act) then [] else [envelope]
    ensures forall j :: j != k ==> mix.Now().QueueOf(j) == old(mix.Now()).QueueOf(j)
    ensures mix.forwarded == old(mix.forwarded) + |net.layers| + 1 && mix.delivered == old(mix.delivered) + 1
    ensures var o := OpenIncoming(E, codec, bob.kem, envelope);
            && o.Some? && o.value.content == content
            && Verify(E, SignPublic(E, signer), o.value.transcript, o.value.ed, o.value.dsa)
  {
    hide Walk, BuildOutgoing, BuildInner, OpenIncoming, Verify, UnpackInner, Running, Index, Offered, TakenLive,
      ValidNet, PickNodes, bob.CardOf, SignPublic, MailboxId;
    var out := BuildOutgoing(mix.S, E, net, codec, bob.CardOf(E), content, signer, d);
    EndToEnd(mix.S, E, net, codec, bob, content, signer, d, |net.layers| + 1);
    mix.Travel(out.value.firstNodeId, out.value.packet, act, |net.layers| + 1);
    var inner := UnpackInner(BuildInner(E, codec, bob.CardOf(E), content, signer, d.coins).value).value;
    k, envelope := (bob.providerId, inner.mailbox), inner.envelope;
  }

  /** Any packet that does not belong where it arrives changes nothing at all: at an unknown node, without a
      point the node shares a secret with, without the right MAC, or too short to open. */
  lemma UnacceptedIsDropped(S: Suite, nodes: map<bytes, nat>, b: Books, id: bytes, p: Packet, act: Behaviour)
    requires S.Valid()
    requires id in nodes && SharedWith(S, nodes[id], p).Some? && |p.payload| >= 32 ==>
               p.header.gamma
               != S.hmac(S.sha256(Ascii("mu") + SharedWith(S, nodes[id], p).value), p.header.beta)[..16]
    ensures AfterInject(S, nodes, b, id, p, act) == Injected(b, None)
  {
    hide ProcessPacket, AfterDeliver, SharedWith;
    if id in nodes { PeelLaw(S, nodes[id], p); }
  }

  /** And a payload without a mailbox and an envelope to read is dropped. */
  lemma UnreadableIsDropped(b: Books, providerId: bytes, payload: bytes, act: Behaviour)
    requires UnpackInner(payload).None?
    ensures AfterDeliver(b, providerId, payload, act) == b
  {}
}
