/**
 The running mix fleet: every node behind its own replay guard, packets in flight that the network
 may reorder, lose or duplicate verbatim at any moment, and senders adding new ones.

 A flight carries two labels no node can see: which send it stems from and how many layers have
 been peeled. They only serve to state what happens to whom.
 */
module Fleet {
  import opened Bytes
  import opened Primitives
  import opened SphinxKeys
  import opened SphinxHeader
  import opened SphinxPacket
  import opened SphinxRoute
  import opened Replay

  datatype Network = Network(S: Suite, nodes: map<bytes, nat>, guard: Config)

  datatype Sent = Sent(r: Route, inner: bytes)
  datatype Flight = Flight(to: bytes, packet: Packet, send: nat, hop: nat)
  datatype Delivery = Delivery(at: bytes, payload: bytes, send: nat, call: nat)

  /** Anything else that reaches a node: any packet under any tag, made up by anybody. */
  datatype Stray = Stray(at: bytes, tag: Tag, packet: Packet)

  /** `calls` lists, per node, every call its guard has answered; the guard's state is `Run` of that list. */
  datatype State = State(clock: nat, flights: seq<Flight>, calls: map<bytes, seq<Call>>,
                         sends: seq<Sent>, delivered: seq<Delivery>, strays: seq<Stray>)

  const EMPTY: State := State(0, [], map[], [], [], [])

  function CallsAt(s: State, id: bytes): seq<Call> {
    if id in s.calls then s.calls[id] else []
  }

  function Without<T>(xs: seq<T>, i: nat): seq<T>
    requires i < |xs|
  {
    xs[..i] + xs[i+1..]
  }

  datatype Event =
    | Submit(what: Sent)       // a client injects a new packet at its first node
    | Tick(ms: nat)
    | Lose(i: nat)
    | Duplicate(i: nat)
    | Handle(i: nat)           // any packet in flight may be the next to arrive
    | Inject(stray: Stray)
    | HandleStray(i: nat)

  ghost predicate Honest(N: Network, w: Sent) {
    && w.r.S == N.S && w.r.Valid() && Runs(N.nodes, w.r) && NoReservedId(w.r)
    && |w.inner| <= PAYLOAD_LEN
  }

  ghost predicate Enabled(N: Network, s: State, e: Event) {
    match e
    case Submit(w) => Honest(N, w)
    case Tick(_) => true
    case Lose(i) => i < |s.flights|
    case Duplicate(i) => i < |s.flights|
    case Handle(i) => i < |s.flights|
    case Inject(_) => true
    case HandleStray(i) => i < |s.strays|
  }

  ghost function Apply(N: Network, s: State, e: Event): State
    requires N.S.Valid() && Enabled(N, s, e)
  {
    match e
    case Submit(w) =>
      s.(sends := s.sends + [w],
         flights := s.flights + [Flight(w.r.ids[0], w.r.PacketAt(w.inner, 0), |s.sends|, 0)])
    case Tick(ms) => s.(clock := s.clock + ms)
    case Lose(i) => s.(flights := Without(s.flights, i))
    case Duplicate(i) => s.(flights := s.flights + [s.flights[i]])
    case Handle(i) => Arrive(N, s.(flights := Without(s.flights, i)), s.flights[i])
    case Inject(x) => s.(strays := s.strays + [x])
    case HandleStray(i) => ArriveStray(N, s.(strays := Without(s.strays, i)), s.strays[i])
  }

  /** The guard of a node is asked about a tag. */
  function Asked(s: State, id: bytes, tag: Tag): State {
    s.(calls := s.calls[id := CallsAt(s, id) + [Call(tag, s.clock)]])
  }

  /** The guard of the addressed node is asked about the packet's alpha. */
  function Logged(s: State, f: Flight): State {
    Asked(s, f.to, f.packet.header.alpha)
  }

  /** `handlePacket` for a stray: it may be forwarded, as another stray; where it ends is nobody's send. */
  function ArriveStray(N: Network, s: State, x: Stray): State
    requires N.S.Valid()
  {
    if x.at !in N.nodes then s
    else
      var s' := Asked(s, x.at, x.tag);
      if !Accepts(N.guard, CallsAt(s', x.at), |CallsAt(s, x.at)|) then s'
      else
        match ProcessPacket(N.S, N.nodes[x.at], x.packet)
        case Forward(next, packet) => s'.(strays := s'.strays + [Stray(next, packet.header.alpha, packet)])
        case _ => s'
  }

  /** `handlePacket` at the node the flight was addressed to. */
  function Arrive(N: Network, s: State, f: Flight): State
    requires N.S.Valid()
  {
    if f.to !in N.nodes then s
    else
      var k, s' := |CallsAt(s, f.to)|, Logged(s, f);
      if !Accepts(N.guard, CallsAt(s', f.to), k) then s'          // replay: dropped before any work
      else
        match ProcessPacket(N.S, N.nodes[f.to], f.packet)
        case Rejected => s'
        case Exit(payload) => s'.(delivered := s'.delivered + [Delivery(f.to, payload, f.send, k)])
        case Forward(next, packet) => s'.(flights := s'.flights + [Flight(next, packet, f.send, f.hop + 1)])
  }

  // ---- the invariant -----------------------------------------------------------------

  /** A flight is, byte for byte, the packet its sender prepared for hop `hop`, on its way to that hop. */
  ghost predicate OnPath(N: Network, sends: seq<Sent>, f: Flight) {
    && f.send < |sends| && Honest(N, sends[f.send])
    && f.hop < |sends[f.send].r.ids|
    && f.to == sends[f.send].r.ids[f.hop]
    && f.packet == sends[f.send].r.PacketAt(sends[f.send].inner, f.hop)
  }

  /** A delivery happened at the sender's chosen provider, of its whole payload, on an accepted call
      for the last alpha of the packet. */
  ghost predicate Proper(N: Network, s: State, d: Delivery) {
    && d.send < |s.sends| && Honest(N, s.sends[d.send])
    && var r := s.sends[d.send].r;
    && d.at == r.ids[|r.ids|-1]
    && d.payload == Padded(s.sends[d.send].inner)
    && d.call < |CallsAt(s, d.at)|
    && CallsAt(s, d.at)[d.call].tag == Alpha(r.S, r.x, r.Points(), |r.ids| - 1)
    && Accepts(N.guard, CallsAt(s, d.at), d.call)
  }

  ghost predicate LogsOrdered(s: State) {
    forall id :: id in s.calls ==>
      Monotone(s.calls[id]) && forall k :: 0 <= k < |s.calls[id]| ==> s.calls[id][k].now <= s.clock
  }

  ghost predicate Inv(N: Network, s: State) {
    && (forall i :: 0 <= i < |s.flights| ==> OnPath(N, s.sends, s.flights[i]))
    && LogsOrdered(s)
    && (forall i :: 0 <= i < |s.delivered| ==> Proper(N, s, s.delivered[i]))
    && (forall i, j :: 0 <= i < j < |s.delivered| && s.delivered[i].at == s.delivered[j].at ==>
          s.delivered[i].call < s.delivered[j].call)
  }

  /** Every packet in flight is the one its sender made, so its node's answer is already known. */
  lemma FlightPeels(N: Network, sends: seq<Sent>, f: Flight)
    requires N.S.Valid() && OnPath(N, sends, f)
    ensures var r, inner := sends[f.send].r, sends[f.send].inner;
            f.to in N.nodes
            && ProcessPacket(N.S, N.nodes[f.to], f.packet)
               == if f.hop == |r.ids| - 1 then Exit(Padded(inner))
                  else Forward(r.ids[f.hop+1], r.PacketAt(inner, f.hop + 1))
  {
    hide ProcessPacket, FinalMarker, Padded, sends[f.send].r.PacketAt, sends[f.send].r.Secrets;
    var r := sends[f.send].r;
    r.HopPeels(sends[f.send].inner, f.hop);
  }

  /** A delivery stays proper when sends and logs grow. */
  lemma ProperGrows(N: Network, s: State, s': State, d: Delivery)
    requires Proper(N, s, d) && s.sends <= s'.sends && CallsAt(s, d.at) <= CallsAt(s', d.at)
    ensures Proper(N, s', d)
  {
    hide Accepts, Padded, Alpha, Honest, CallsAt;
    assert s'.sends[d.send] == s.sends[d.send];
    AcceptsPrefix(N.guard, CallsAt(s, d.at), CallsAt(s', d.at), d.call);
  }

  lemma OnPathGrows(N: Network, sends: seq<Sent>, more: seq<Sent>, f: Flight)
    requires OnPath(N, sends, f) && sends <= more
    ensures OnPath(N, more, f)
  {}

  ghost predicate AtExit(sends: seq<Sent>, f: Flight) {
    f.send < |sends| && f.hop + 1 == |sends[f.send].r.ids|
  }

  /** The same packet one hop further, as its sender prepared it. */
  ghost function NextFlight(N: Network, sends: seq<Sent>, f: Flight): Flight
    requires OnPath(N, sends, f) && !AtExit(sends, f)
  {
    var w := sends[f.send];
    Flight(w.r.ids[f.hop+1], w.r.PacketAt(w.inner, f.hop + 1), f.send, f.hop + 1)
  }

  lemma NextOnPath(N: Network, sends: seq<Sent>, f: Flight)
    requires OnPath(N, sends, f) && !AtExit(sends, f)
    ensures OnPath(N, sends, NextFlight(N, sends, f))
  {
    hide Honest, sends[f.send].r.PacketAt;
  }

  /** The three things that can happen to an honest packet at its node; rejection is not one of them. */
  lemma ArriveCases(N: Network, s: State, f: Flight)
    requires N.S.Valid() && OnPath(N, s.sends, f)
    ensures var s', k := Logged(s, f), |CallsAt(s, f.to)|;
            Arrive(N, s, f)
            == if !Accepts(N.guard, CallsAt(s', f.to), k) then s'
               else if AtExit(s.sends, f) then
                 s'.(delivered := s.delivered + [Delivery(f.to, Padded(s.sends[f.send].inner), f.send, k)])
               else s'.(flights := s.flights + [NextFlight(N, s.sends, f)])
  {
    hide Accepts, ProcessPacket, Padded, Honest, s.sends[f.send].r.PacketAt;
    FlightPeels(N, s.sends, f);
  }

  lemma LogsStayOrdered(s: State, id: bytes, tag: Tag)
    requires LogsOrdered(s)
    ensures LogsOrdered(Asked(s, id, tag))
  {}

  lemma DeliveriesStayProper(N: Network, s: State, s': State)
    requires forall i :: 0 <= i < |s.delivered| ==> Proper(N, s, s.delivered[i])
    requires s.sends <= s'.sends && forall id :: CallsAt(s, id) <= CallsAt(s', id)
    ensures forall i :: 0 <= i < |s.delivered| ==> Proper(N, s', s.delivered[i])
  {
    hide Proper;
    forall i | 0 <= i < |s.delivered| ensures Proper(N, s', s.delivered[i]) {
      ProperGrows(N, s, s', s.delivered[i]);
    }
  }

  lemma ExitProper(N: Network, s: State, f: Flight)
    requires N.S.Valid() && OnPath(N, s.sends, f) && AtExit(s.sends, f)
    requires Accepts(N.guard, CallsAt(Logged(s, f), f.to), |CallsAt(s, f.to)|)
    ensures Proper(N, Logged(s, f), Delivery(f.to, Padded(s.sends[f.send].inner), f.send, |CallsAt(s, f.to)|))
  {
    hide Accepts, Padded, Alpha;
  }

  /** `Proper` depends only on the sends and the logs. */
  lemma ProperFrame(N: Network, s: State, s': State, d: Delivery)
    requires Proper(N, s, d) && s.sends == s'.sends && s.calls == s'.calls
    ensures Proper(N, s', d)
  {
    hide Accepts, Padded, Alpha, Honest;
  }

  lemma ArriveKeepsInv(N: Network, s: State, f: Flight)
    requires N.S.Valid() && Inv(N, s) && OnPath(N, s.sends, f)
    ensures Inv(N, Arrive(N, s, f))
  {
    hide Accepts, Padded, Arrive, OnPath, Proper, NextFlight, LogsOrdered;
    var s', s1 := Arrive(N, s, f), Logged(s, f);
    ArriveCases(N, s, f);
    LogsStayOrdered(s, f.to, f.packet.header.alpha);
    DeliveriesStayProper(N, s, s');
    if Accepts(N.guard, CallsAt(s1, f.to), |CallsAt(s, f.to)|) {
      if AtExit(s.sends, f) {
        ExitProper(N, s, f);
        ProperFrame(N, s1, s', s'.delivered[|s.delivered|]);
        EarlierCalls(N, s, f.to);
      } else {
        NextOnPath(N, s.sends, f);
      }
    }
    OrderedFrame(s1, s');
  }

  lemma OrderedFrame(s: State, s': State)
    requires LogsOrdered(s) && s.calls == s'.calls && s.clock <= s'.clock
    ensures LogsOrdered(s')
  {}

  /** Everything delivered so far at a node was delivered on an earlier call. */
  lemma EarlierCalls(N: Network, s: State, id: bytes)
    requires Inv(N, s)
    ensures forall i :: 0 <= i < |s.delivered| && s.delivered[i].at == id ==> s.delivered[i].call < |CallsAt(s, id)|
  {}

  lemma SubmitKeepsInv(N: Network, s: State, w: Sent)
    requires N.S.Valid() && Inv(N, s) && Honest(N, w)
    ensures Inv(N, Apply(N, s, Submit(w)))
  {
    hide OnPath, Proper, LogsOrdered, Honest, CallsAt;
    var s' := Apply(N, s, Submit(w));
    forall j | 0 <= j < |s.flights| ensures OnPath(N, s'.sends, s.flights[j]) {
      OnPathGrows(N, s.sends, s'.sends, s.flights[j]);
    }
    FirstFlight(N, s, w);
    SameCalls(s, s');
    DeliveriesStayProper(N, s, s');
    OrderedFrame(s, s');
  }

  /** A stray can only fill a log; no send, flight or delivery changes. */
  lemma StrayKeepsInv(N: Network, s: State, x: Stray)
    requires N.S.Valid() && Inv(N, s)
    ensures Inv(N, ArriveStray(N, s, x))
  {
    hide Accepts, ProcessPacket, OnPath, Proper, LogsOrdered, Honest;
    var s' := ArriveStray(N, s, x);
    LogsStayOrdered(s, x.at, x.tag);
    DeliveriesStayProper(N, s, s');
    if x.at in N.nodes { OrderedFrame(Asked(s, x.at, x.tag), s'); }
  }

  lemma SameCalls(s: State, s': State)
    requires s.calls == s'.calls
    ensures forall id :: CallsAt(s, id) == CallsAt(s', id)
  {}

  lemma ApplyKeepsInv(N: Network, s: State, e: Event)
    requires N.S.Valid() && Inv(N, s) && Enabled(N, s, e)
    ensures Inv(N, Apply(N, s, e))
  {
    hide Arrive, ArriveStray, OnPath, Proper, LogsOrdered, Honest, CallsAt;
    var s' := Apply(N, s, e);
    match e
    case Handle(i) =>
      var s0 := s.(flights := Without(s.flights, i));
      SameCalls(s, s0);
      DeliveriesStayProper(N, s, s0);
      OrderedFrame(s, s0);
      ArriveKeepsInv(N, s0, s.flights[i]);
    case Submit(w) => SubmitKeepsInv(N, s, w);
    case HandleStray(i) =>
      var s0 := s.(strays := Without(s.strays, i));
      SameCalls(s, s0);
      DeliveriesStayProper(N, s, s0);
      OrderedFrame(s, s0);
      StrayKeepsInv(N, s0, s.strays[i]);
    case _ =>
      SameCalls(s, s');
      DeliveriesStayProper(N, s, s');
      OrderedFrame(s, s');
  }

  lemma FirstFlight(N: Network, s: State, w: Sent)
    requires N.S.Valid() && Honest(N, w)
    ensures OnPath(N, s.sends + [w], Flight(w.r.ids[0], w.r.PacketAt(w.inner, 0), |s.sends|, 0))
  {}

  // ---- whole runs -----------------------------------------------------------------------

  /** `s` is reached by `n` enabled events from the empty fleet. */
  ghost predicate Reachable(N: Network, s: State, n: nat)
    requires N.S.Valid()
    decreases n
  {
    if n == 0 then s == EMPTY
    else exists p, e :: Reachable(N, p, n - 1) && Enabled(N, p, e) && s == Apply(N, p, e)
  }

  lemma {:induction false} ReachableInv(N: Network, s: State, n: nat)
    requires N.S.Valid() && Reachable(N, s, n)
    ensures Inv(N, s)
    decreases n
  {
    hide Apply, Enabled;
    if n > 0 {
      var p, e :| Reachable(N, p, n - 1) && Enabled(N, p, e) && s == Apply(N, p, e);
      ReachableInv(N, p, n - 1);
      ApplyKeepsInv(N, p, e);
    }
  }

  /** In every run, whatever is reordered, lost or duplicated, a packet only ever visits its chosen path. */
  lemma OnlyItsPath(N: Network, s: State, n: nat)
    requires N.S.Valid() && Reachable(N, s, n)
    ensures forall f :: f in s.flights ==> OnPath(N, s.sends, f)
    ensures forall d :: d in s.delivered ==> Proper(N, s, d)
  {
    ReachableInv(N, s, n);
  }

  /**
   At most once: when the same packet is delivered twice in a run, its provider's guard window
   (epochMs of time, or maxPerEpoch other packets) lies between the two deliveries.
   */
  lemma AtMostOncePerWindow(N: Network, s: State, n: nat, i: nat, j: nat)
    requires N.S.Valid() && Reachable(N, s, n) && N.guard.maxPerEpoch >= 1
    requires i < j < |s.delivered| && s.delivered[i].send == s.delivered[j].send
    ensures var d, d' := s.delivered[i], s.delivered[j];
            d.at == d'.at && d.call < d'.call < |CallsAt(s, d.at)|
            && WindowOver(N.guard, CallsAt(s, d.at), d.call, d'.call)
  {
    hide Accepts, Padded, Alpha, Run, WindowOver, Reachable, Monotone, OnPath, Honest;
    ReachableInv(N, s, n);
    var d, d' := s.delivered[i], s.delivered[j];
    assert Proper(N, s, d) && Proper(N, s, d');
    assert Monotone(CallsAt(s, d.at)) by { assert d.at in s.calls; }
    RepeatsAreCaught(N.guard, CallsAt(s, d.at), d.call, d'.call);
  }

  /**
   Progress: a packet that its node's guard lets through is never rejected. It is delivered if and
   only if this was its last hop, that is after exactly path-length peels; otherwise it flies on,
   one layer smaller, to the next chosen node.
   */
  lemma UndroppedMovesOn(N: Network, s: State, n: nat, i: nat)
    requires N.S.Valid() && Reachable(N, s, n) && i < |s.flights|
    ensures var f, s' := s.flights[i], Apply(N, s, Handle(i));
            var log := CallsAt(s, f.to) + [Call(f.packet.header.alpha, s.clock)];
            OnPath(N, s.sends, f)
            && if !Accepts(N.guard, log, |log| - 1) then
                 s'.delivered == s.delivered && s'.flights == Without(s.flights, i)
               else if AtExit(s.sends, f) then
                 s'.flights == Without(s.flights, i)
                 && s'.delivered == s.delivered + [Delivery(f.to, Padded(s.sends[f.send].inner), f.send, |log| - 1)]
               else
                 s'.delivered == s.delivered
                 && s'.flights == Without(s.flights, i) + [NextFlight(N, s.sends, f)]
  {
    hide Accepts, Padded, Arrive, OnPath, NextFlight, Reachable, LogsOrdered, Proper;
    ReachableInv(N, s, n);
    ArriveCases(N, s.(flights := Without(s.flights, i)), s.flights[i]);
  }

  // ---- termination ----------------------------------------------------------------------

  /** The peels still ahead of all packets in flight together. */
  function Work(sends: seq<Sent>, flights: seq<Flight>): int {
    if flights == [] then 0
    else
      var f := flights[|flights|-1];
      Work(sends, flights[..|flights|-1]) + if f.send < |sends| then |sends[f.send].r.ids| - f.hop else 0
  }

  lemma WorkSnoc(sends: seq<Sent>, flights: seq<Flight>, f: Flight)
    requires f.send < |sends|
    ensures Work(sends, flights + [f]) == Work(sends, flights) + |sends[f.send].r.ids| - f.hop
  {}

  lemma {:induction false} WorkWithout(sends: seq<Sent>, flights: seq<Flight>, i: nat)
    requires i < |flights| && forall k :: 0 <= k < |flights| ==> flights[k].send < |sends|
    ensures Work(sends, Without(flights, i)) == Work(sends, flights) - (|sends[flights[i].send].r.ids| - flights[i].hop)
  {
    var n := |flights| - 1;
    var init := flights[..n];
    if i == n {
      assert Without(flights, i) == init;
    } else {
      WorkWithout(sends, init, i);
      assert Without(flights, i) == Without(init, i) + [flights[n]];
      WorkSnoc(sends, Without(init, i), flights[n]);
    }
  }

  lemma {:induction false} WorkNonNegative(N: Network, sends: seq<Sent>, flights: seq<Flight>)
    requires forall k :: 0 <= k < |flights| ==> OnPath(N, sends, flights[k])
    ensures Work(sends, flights) >= |flights|
  {
    hide Honest;
    if flights != [] {
      assert OnPath(N, sends, flights[|flights|-1]);
      WorkNonNegative(N, sends, flights[..|flights|-1]);
    }
  }

  /** Every arrival uses up at least one of the remaining peels, so no packet circulates for ever. */
  lemma ArrivalsTerminate(N: Network, s: State, n: nat, i: nat)
    requires N.S.Valid() && Reachable(N, s, n) && i < |s.flights|
    ensures var s' := Apply(N, s, Handle(i));
            s'.sends == s.sends && 0 <= Work(s'.sends, s'.flights) < Work(s.sends, s.flights)
  {
    hide Accepts, Padded, Work, ProcessPacket, Reachable, Inv, Arrive, Honest, s.sends[s.flights[i].send].r.PacketAt;
    ReachableInv(N, s, n);
    FlightsInv(N, s);
    ArriveCases(N, s.(flights := Without(s.flights, i)), s.flights[i]);
    var f, s' := s.flights[i], Apply(N, s, Handle(i));
    WorkWithout(s.sends, s.flights, i);
    ApplyKeepsInv(N, s, Handle(i));
    FlightsInv(N, s');
    WorkNonNegative(N, s'.sends, s'.flights);
    FlightPeels(N, s.sends, f);
    if |s'.flights| == |s.flights| {
      WorkSnoc(s.sends, Without(s.flights, i), s'.flights[|s.flights|-1]);
    }
  }

  lemma FlightsInv(N: Network, s: State)
    requires Inv(N, s)
    ensures forall k :: 0 <= k < |s.flights| ==> OnPath(N, s.sends, s.flights[k])
  {}

  // ---- a run that delivers -----------------------------------------------------------------

  /** No node comes up twice. */
  ghost predicate NoRepeats(r: Route) {
    forall i, j :: 0 <= i < j < |r.ids| ==> r.ids[i] != r.ids[j]
  }

  /** The first question any guard is asked, it answers "fresh". */
  lemma FirstAnswer(c: Config, call: Call)
    ensures Accepts(c, [call], 0)
  {
    assert Run(c, [call], 0) == FRESH;
  }

  /** So an honest packet at a guard that was never asked is delivered or moves on. */
  lemma FirstAsked(N: Network, s: State, f: Flight)
    requires N.S.Valid() && OnPath(N, s.sends, f) && CallsAt(s, f.to) == []
    ensures Arrive(N, s, f)
         == if AtExit(s.sends, f) then
              Logged(s, f).(delivered := s.delivered + [Delivery(f.to, Padded(s.sends[f.send].inner), f.send, 0)])
            else Logged(s, f).(flights := s.flights + [NextFlight(N, s.sends, f)])
  {
    hide Accepts, Arrive, OnPath, Padded;
    ArriveCases(N, s, f);
    FirstAnswer(N.guard, Call(f.packet.header.alpha, s.clock));
    assert CallsAt(Logged(s, f), f.to) == [Call(f.packet.header.alpha, s.clock)];
  }

  lemma Next(N: Network, p: State, n: nat, e: Event) returns (s: State)
    requires N.S.Valid() && Reachable(N, p, n) && Enabled(N, p, e)
    ensures s == Apply(N, p, e) && Reachable(N, s, n + 1)
  {
    s := Apply(N, p, e);
  }

  /** Alone in the fleet, a packet comes to each hop of its route, and to guards that were never asked. */
  lemma {:induction false} ComesTo(N: Network, w: Sent, i: nat) returns (s: State)
    requires N.S.Valid() && Honest(N, w) && NoRepeats(w.r) && i < |w.r.ids|
    ensures Reachable(N, s, i + 1)
    ensures s.sends == [w] && s.flights == [Flight(w.r.ids[i], w.r.PacketAt(w.inner, i), 0, i)]
    ensures forall j :: i <= j < |w.r.ids| ==> CallsAt(s, w.r.ids[j]) == []
  {
    hide Accepts, Arrive, Honest, Reachable, w.r.PacketAt;
    if i == 0 {
      Empties(N);
      s := Next(N, EMPTY, 0, Submit(w));
    } else {
      var p := ComesTo(N, w, i - 1);
      var f := p.flights[0];
      assert OnPath(N, p.sends, f) && !AtExit(p.sends, f);
      var p0 := p.(flights := Without(p.flights, 0));
      FirstAsked(N, p0, f);
      s := Next(N, p, i, Handle(0));
      assert w.r.ids[i-1] == f.to;
    }
  }

  lemma Empties(N: Network)
    requires N.S.Valid()
    ensures Reachable(N, EMPTY, 0)
  {}

  /** Every packet whose route repeats no node is delivered in some run, in one step per hop. */
  lemma SomeRunDelivers(N: Network, w: Sent) returns (s: State, d: Delivery)
    requires N.S.Valid() && Honest(N, w) && NoRepeats(w.r)
    ensures Reachable(N, s, |w.r.ids| + 1) && s.sends == [w] && d in s.delivered && d.send == 0
  {
    hide Accepts, Arrive, Honest, Reachable, w.r.PacketAt, Padded;
    assert |w.r.ids| >= 1 by { HasHops(N, w); }
    var p := ComesTo(N, w, |w.r.ids| - 1);
    var f := p.flights[0];
    assert OnPath(N, p.sends, f) && AtExit(p.sends, f);
    FirstAsked(N, p.(flights := Without(p.flights, 0)), f);
    s := Next(N, p, |w.r.ids|, Handle(0));
    d := s.delivered[|s.delivered|-1];
  }

  lemma HasHops(N: Network, w: Sent)
    requires Honest(N, w)
    ensures |w.r.ids| >= 1
  {}
}
