/**
 From `createPacket` to the exit: the sender's procedure, and the journey of its packet through
 nodes that each peel one layer and hand the rest to whichever node the header names.
 */
module SphinxRoute {
  import opened Bytes
  import opened Group
  import opened Primitives
  import opened SphinxKeys
  import opened SphinxHeader
  import opened SphinxPacket

  function Pubs(path: seq<Hop>): (pubs: seq<bytes>)
    ensures |pubs| == |path|
    ensures forall i :: 0 <= i < |path| ==> pubs[i] == path[i].pub
  {
    seq(|path|, i requires 0 <= i < |path| => path[i].pub)
  }

  function Ids(path: seq<Hop>): (ids: seq<bytes>)
    ensures |ids| == |path|
    ensures forall i :: 0 <= i < |path| ==> ids[i] == path[i].id
  {
    seq(|path|, i requires 0 <= i < |path| => path[i].id)
  }

  predicate Usable(S: Suite, path: seq<Hop>, inner: bytes) {
    && 1 <= |path| <= MAX_HOPS
    && (forall i :: 0 <= i < |path| ==> S.decode(path[i].pub).Some?)
    && |inner| <= PAYLOAD_LEN
  }

  predicate IdsSized(path: seq<Hop>) {
    forall i :: 0 <= i < |path| ==> |path[i].id| == HOP_ID_LEN
  }

  /** The packet for a path under the random scalar `x`, None where `createPacket` throws. */
  function Created(S: Suite, x: nat, path: seq<Hop>, inner: bytes): Option<Packet>
    requires S.Valid() && IdsSized(path)
  {
    if !Usable(S, path, inner) then None
    else
      var points := DecodedPoints(S, Pubs(path));
      var secrets := Chain(S, x, points, |points|).secrets;
      Some(Packet(Header(Alpha(S, x, points, 0), Beta(S, Ids(path), secrets, 0), Gamma(S, Ids(path), secrets, 0)),
                  Onion(S, secrets, Padded(inner), 0)))
  }

  /** `createPacket`: keys, header, payload onion. */
  method CreatePacket(S: Suite, x: nat, path: seq<Hop>, inner: bytes) returns (r: Option<Packet>)
    requires S.Valid() && 1 <= x < S.order && IdsSized(path)
    ensures r == Created(S, x, path, inner)
  {
    hide Beta, Gamma, Padded, Onion, Acc;
    if |path| == 0 || |path| > MAX_HOPS { return None; }
    var keys := ComputeSharedSecrets(S, x, Pubs(path));
    if keys.None? {
      assert exists i :: 0 <= i < |path| && S.decode(path[i].pub).None?;
      return None;
    }
    assert forall i :: 0 <= i < |path| ==> S.decode(path[i].pub) == S.decode(Pubs(path)[i]);
    ChainAt(S, x, DecodedPoints(S, Pubs(path)), |path|, 0);
    var header := CreateHeader(S, Ids(path), keys.value.secrets, keys.value.alphas[0]);
    var payload := OnionEncrypt(S, keys.value.secrets, inner);
    if payload.None? { return None; }
    return Some(Packet(header, payload.value));
  }

  /** On a path of real nodes, `createPacket` produces the first packet of the route. */
  lemma CreatedStartsRoute(r: Route, inner: bytes)
    requires r.Valid()
    ensures Created(r.S, r.x, r.Path(), inner)
         == if |inner| <= PAYLOAD_LEN then Some(r.PacketAt(inner, 0)) else None
  {
    hide Beta, Gamma, Padded, Onion, Acc;
    var pubs := Pubs(r.Path());
    forall i | 0 <= i < |pubs| ensures r.S.decode(pubs[i]) == Some(r.Points()[i]) {}
    assert Ids(r.Path()) == r.ids;
    assert DecodedPoints(r.S, pubs) == r.Points();
  }

  // ---- the journey -----------------------------------------------------------------

  datatype End = Delivered(at: bytes, payload: bytes) | Dropped | Travelling
  datatype Trip = Trip(visited: seq<bytes>, end: End)

  /**
   `inject`, repeated for at most `n` hops: look the node up, peel, deliver or pass on. Unknown
   nodes and failed peels drop the packet.
   */
  function Walk(S: Suite, nodes: map<bytes, nat>, id: bytes, packet: Packet, n: nat): Trip
    requires S.Valid()
    decreases n
  {
    if n == 0 then Trip([], Travelling)
    else if id !in nodes then Trip([], Dropped)
    else
      match ProcessPacket(S, nodes[id], packet)
      case Rejected => Trip([id], Dropped)
      case Exit(payload) => Trip([id], Delivered(id, payload))
      case Forward(nextId, next) =>
        var rest := Walk(S, nodes, nextId, next, n - 1);
        Trip([id] + rest.visited, rest.end)
  }

  ghost predicate Runs(nodes: map<bytes, nat>, r: Route) {
    |r.ids| == |r.ks| && forall i :: 0 <= i < |r.ids| ==> r.ids[i] in nodes && nodes[r.ids[i]] == r.ks[i]
  }

  /** The first hop from i on that reads the exit marker. */
  function ExitHop(r: Route, i: nat): (e: nat)
    requires i < |r.ids|
    ensures i <= e < |r.ids| && r.IdSlot(e) == FinalMarker()
    ensures forall j :: i <= j < e ==> r.IdSlot(j) != FinalMarker()
    decreases |r.ids| - i
  {
    if r.IdSlot(i) == FinalMarker() then i
    else ExitHop(r, i + 1)
  }

  /** The trip of a packet that sets out at hop i with a limit of n hops. */
  ghost function Itinerary(r: Route, inner: bytes, i: nat, n: nat): Trip
    requires r.Valid() && |inner| <= PAYLOAD_LEN && i < |r.ids|
  {
    var e := ExitHop(r, i);
    if n > e - i then Trip(r.ids[i..e+1], Delivered(r.ids[e], Onion(r.S, r.Secrets(), Padded(inner), e + 1)))
    else Trip(r.ids[i..i+n], Travelling)
  }

  lemma ItineraryStep(r: Route, inner: bytes, i: nat, n: nat)
    requires r.Valid() && |inner| <= PAYLOAD_LEN && i < |r.ids| && n > 0 && r.IdSlot(i) != FinalMarker()
    ensures i + 1 < |r.ids|
    ensures var rest := Itinerary(r, inner, i + 1, n - 1);
            Itinerary(r, inner, i, n) == Trip([r.ids[i]] + rest.visited, rest.end)
  {
    hide Padded, Onion, FinalMarker, r.Secrets;
    var e := ExitHop(r, i);
    assert n > e - i ==> [r.ids[i]] + r.ids[i+1..e+1] == r.ids[i..e+1];
    assert n <= e - i ==> [r.ids[i]] + r.ids[i+1..i+n] == r.ids[i..i+n];
  }

  /**
   The journey from hop i, hop by hop, for any limit: it visits the chosen nodes in order, and ends
   at the first hop whose id slot holds the marker, after exactly that many peels.
   */
  lemma {:induction false} Journey(r: Route, nodes: map<bytes, nat>, inner: bytes, i: nat, n: nat)
    requires r.Valid() && |inner| <= PAYLOAD_LEN && Runs(nodes, r) && i < |r.ids|
    ensures Walk(r.S, nodes, r.ids[i], r.PacketAt(inner, i), n) == Itinerary(r, inner, i, n)
    decreases n
  {
    hide Padded, Onion, ProcessPacket, FinalMarker, r.PacketAt, r.Secrets;
    if n > 0 {
      r.HopPeels(inner, i);
      if r.IdSlot(i) == FinalMarker() {
        assert r.ids[i..i+1] == [r.ids[i]];
      } else {
        hide Itinerary;
        ItineraryStep(r, inner, i, n);
        Journey(r, nodes, inner, i + 1, n - 1);
      }
    }
  }

  /** No node on the way carries the reserved id. (The first id never appears in a header.) */
  ghost predicate NoReservedId(r: Route) {
    forall i :: 1 <= i < |r.ids| ==> r.ids[i] != FinalMarker()
  }

  /**
   The routing law with its exact condition: a packet visits precisely its chosen path and hands
   the padded payload to the last node after |path| peels, if and only if no id after the first
   is the reserved marker.
   */
  lemma RouteLaw(r: Route, nodes: map<bytes, nat>, inner: bytes, n: nat)
    requires r.Valid() && |inner| <= PAYLOAD_LEN && Runs(nodes, r) && n >= |r.ids|
    ensures NoReservedId(r) <==>
            Walk(r.S, nodes, r.ids[0], r.PacketAt(inner, 0), n)
            == Trip(r.ids, Delivered(r.ids[|r.ids|-1], Padded(inner)))
  {
    hide Beta, Gamma, Padded, Acc, ProcessPacket, FinalMarker, Chain, Walk;
    Journey(r, nodes, inner, 0, n);
    var e := ExitHop(r, 0);
    assert NoReservedId(r) <==> e == |r.ids| - 1 by {
      assert forall j :: 0 <= j < |r.ids| - 1 ==> r.IdSlot(j) == r.ids[j+1];
      if e == |r.ids| - 1 {
        forall j | 1 <= j < |r.ids| ensures r.ids[j] != FinalMarker() { assert r.IdSlot(j-1) == r.ids[j]; }
      }
    }
    assert |r.ids[0..e+1]| == e + 1;
    if e == |r.ids| - 1 { assert r.ids[0..e+1] == r.ids; }
  }
}
