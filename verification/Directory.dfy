/** The mix network topology: layers of mix nodes, the providers, and the index by node id. */
module Directory {
  import opened Bytes
  import opened Primitives
  import opened SphinxHeader
  import opened SphinxPacket
  import opened SphinxRoute
  import opened Words
  import opened RandomIndex

  datatype Node = Node(id: bytes, secret: nat)

  datatype Net = Net(layers: seq<seq<Node>>, providers: seq<Node>) {
    /** Every node, in the order `buildTestnet` indexes them. */
    function Nodes(): seq<Node> {
      Rows(layers) + providers
    }
  }

  function Rows(layers: seq<seq<Node>>): seq<Node> {
    if layers == [] then [] else layers[0] + Rows(layers[1..])
  }

  lemma {:induction false} RowsSnoc(layers: seq<seq<Node>>, row: seq<Node>)
    ensures Rows(layers + [row]) == Rows(layers) + row
  {
    if layers == [] {
      assert layers + [row] == [row];
    } else {
      assert (layers + [row])[1..] == layers[1..] + [row];
      RowsSnoc(layers[1..], row);
    }
  }

  lemma {:induction false} RowMember(layers: seq<seq<Node>>, l: nat, n: nat)
    requires l < |layers| && n < |layers[l]|
    ensures layers[l][n] in Rows(layers)
  {
    if l > 0 { RowMember(layers[1..], l - 1, n); }
  }

  /** The index a list of nodes builds: a later node replaces an earlier one with the same id. */
  function Index(nodes: seq<Node>): map<bytes, Node> {
    if nodes == [] then map[] else Index(nodes[..|nodes|-1])[nodes[|nodes|-1].id := nodes[|nodes|-1]]
  }

  /** `for (const n of row) byId.set(key(n.id), n)` */
  method AddAll(byId: map<bytes, Node>, row: seq<Node>, ghost before: seq<Node>) returns (m: map<bytes, Node>)
    requires byId == Index(before)
    ensures m == Index(before + row)
  {
    m := byId;
    assert before + row[..0] == before;
    for n := 0 to |row|
      invariant m == Index(before + row[..n])
    {
      IndexSnoc(before + row[..n], row[n]);
      assert before + row[..n+1] == before + row[..n] + [row[n]];
      m := m[row[n].id := row[n]];
    }
    assert row[..|row|] == row;
  }

  /** The `byId` map of `buildTestnet`: rows first, then providers. */
  method BuildIndex(net: Net) returns (byId: map<bytes, Node>)
    ensures byId == Index(net.Nodes())
  {
    hide Index;
    byId := map[];
    assert byId == Index([]) by { EmptyIndex(); }
    for l := 0 to |net.layers|
      invariant byId == Index(Rows(net.layers[..l]))
    {
      byId := AddAll(byId, net.layers[l], Rows(net.layers[..l]));
      RowsSnoc(net.layers[..l], net.layers[l]);
      assert net.layers[..l+1] == net.layers[..l] + [net.layers[l]];
    }
    assert net.layers[..|net.layers|] == net.layers;
    byId := AddAll(byId, net.providers, Rows(net.layers));
  }

  lemma EmptyIndex()
    ensures Index([]) == map[]
  {}

  lemma IndexSnoc(nodes: seq<Node>, n: Node)
    ensures Index(nodes + [n]) == Index(nodes)[n.id := n]
  {}

  ghost predicate DistinctIds(nodes: seq<Node>) {
    forall i, j :: 0 <= i < j < |nodes| ==> nodes[i].id != nodes[j].id
  }

  /** With distinct ids, `lookup` finds every node under its own id and nothing else. */
  lemma {:induction false} IndexExact(nodes: seq<Node>, n: Node)
    requires DistinctIds(nodes)
    ensures n in nodes <==> n.id in Index(nodes) && Index(nodes)[n.id] == n
  {
    if nodes != [] {
      hide Index;
      var k := |nodes| - 1;
      var rest, last := nodes[..k], nodes[k];
      assert nodes == rest + [last];
      IndexExact(rest, n);
      IndexSnoc(rest, last);
      assert forall i :: 0 <= i < k ==> rest[i].id != last.id;
    }
  }

  /** A network as `buildTestnet` sets it up: 16-byte distinct ids, none reserved, valid scalars. */
  ghost predicate ValidNet(S: Suite, net: Net) {
    && DistinctIds(net.Nodes())
    && (forall n :: n in net.Nodes() ==> |n.id| == HOP_ID_LEN && n.id != FinalMarker() && 1 <= n.secret < S.order)
    && |net.layers| < MAX_HOPS
  }

  /** One choice of node per layer. */
  ghost predicate ValidPicks(net: Net, picks: seq<nat>) {
    |picks| == |net.layers| && forall l :: 0 <= l < |picks| ==> picks[l] < |net.layers[l]|
  }

  /** Index `pick` of a row of `n` nodes is what its draws select: the first accepted draw modulo n, or 0
      without drawing for a row of one. */
  ghost predicate DrawnFor(n: nat, draws: seq<bytes>, pick: nat)
    requires forall d :: d in draws ==> |d| == 4
  {
    if n <= 1 then pick == 0
    else
      var a := FirstAccepted(n, draws, 0);
      a.Some? && pick == Word(draws[a.value]) % n
  }

  /** The random part of `pickPath`: one index per layer, each from its own draws. None where some layer's
      draws run out before one is accepted. */
  method PickLayers(net: Net, draws: seq<seq<bytes>>) returns (picks: Option<seq<nat>>)
    requires |draws| == |net.layers| && forall l :: 0 <= l < |net.layers| ==> |net.layers[l]| > 0
    requires forall l, d :: 0 <= l < |draws| && d in draws[l] ==> |d| == 4
    ensures picks.Some? ==> ValidPicks(net, picks.value)
    ensures picks.Some? ==> forall l :: 0 <= l < |net.layers| ==> DrawnFor(|net.layers[l]|, draws[l], picks.value[l])
    ensures picks.None? <==> exists l :: 0 <= l < |net.layers| && |net.layers[l]| > 1
                                         && FirstAccepted(|net.layers[l]|, draws[l], 0).None?
  {
    hide FirstAccepted, Word, Limit;
    var chosen: seq<nat> := [];
    for l := 0 to |net.layers|
      invariant |chosen| == l
      invariant forall i :: 0 <= i < l ==> chosen[i] < |net.layers[i]| && DrawnFor(|net.layers[i]|, draws[i], chosen[i])
    {
      var r := Pick(|net.layers[l]|, draws[l]);
      if r.None? { return None; }
      chosen := chosen + [r.value];
    }
    return Some(chosen);
  }

  /** The accepted draws that lead to a node of a row. */
  function DrawsForNode(row: seq<Node>, node: Node): set<bytes>
    requires 2 <= |row| <= TWO32 && node in row
  {
    var i := IndexIn(row, node);
    DrawsFor(|row|, i)
  }

  function IndexIn(row: seq<Node>, node: Node): (i: nat)
    requires node in row
    ensures i < |row| && row[i] == node
  {
    if row[0] == node then 0 else 1 + IndexIn(row[1..], node)
  }

  /** Every node of a layer is equally likely: whatever the row, each of its nodes is what `pickPath` takes
      on exactly 2^32 / |row| of the accepted four-byte draws. */
  lemma EveryNodeEquallyLikely(row: seq<Node>, node: Node, draws: seq<bytes>)
    requires 2 <= |row| <= TWO32 && node in row && DistinctIds(row)
    requires (forall d :: d in draws ==> |d| == 4) && FirstAccepted(|row|, draws, 0).Some?
    ensures |DrawsForNode(row, node)| == TWO32 / |row|
    ensures var first := draws[FirstAccepted(|row|, draws, 0).value];
            row[Word(first) % |row|] == node <==> first in DrawsForNode(row, node)
  {
    hide FirstAccepted, Word, Limit, DrawsFor;
    EqualDraws(|row|, IndexIn(row, node));
    var a := FirstAccepted(|row|, draws, 0).value;
    assert draws[a] in draws;
    assert row[IndexIn(row, node)] == node;
  }

  /** The chosen nodes, then the provider: None where `pickPath` throws. */
  function PickNodes(net: Net, providerId: bytes, picks: seq<nat>): (r: Option<seq<Node>>)
    requires ValidPicks(net, picks)
    ensures r.Some? <==> providerId in Index(net.Nodes())
    ensures r.Some? ==> |r.value| == |net.layers| + 1
  {
    if providerId !in Index(net.Nodes()) then None
    else Some(seq(|picks|, l requires 0 <= l < |picks| => net.layers[l][picks[l]]) + [Index(net.Nodes())[providerId]])
  }

  function NodeIds(nodes: seq<Node>): (ids: seq<bytes>)
    ensures |ids| == |nodes|
  {
    seq(|nodes|, i requires 0 <= i < |nodes| => nodes[i].id)
  }

  function NodeSecrets(nodes: seq<Node>): (ks: seq<nat>)
    ensures |ks| == |nodes|
  {
    seq(|nodes|, i requires 0 <= i < |nodes| => nodes[i].secret)
  }

  function RouteOf(S: Suite, x: nat, nodes: seq<Node>): Route {
    Route(S, x, NodeIds(nodes), NodeSecrets(nodes))
  }

  /** The secrets the running network holds, keyed by node id. */
  function Running(net: Net): map<bytes, nat> {
    var byId := Index(net.Nodes());
    map id | id in byId :: byId[id].secret
  }

  /** Every picked path is a valid route through running nodes that ends at the named provider. */
  lemma PickedRoute(S: Suite, x: nat, net: Net, providerId: bytes, picks: seq<nat>)
    requires S.Valid() && 1 <= x < S.order && ValidNet(S, net) && ValidPicks(net, picks)
    requires PickNodes(net, providerId, picks).Some?
    ensures var r := RouteOf(S, x, PickNodes(net, providerId, picks).value);
            && r.Valid() && Runs(Running(net), r) && NoReservedId(r)
            && |r.ids| == |net.layers| + 1 && r.ids[|net.layers|] == providerId
  {
    hide FinalMarker;
    var nodes, all := PickNodes(net, providerId, picks).value, net.Nodes();
    IndexedUnderOwnId(all, providerId);
    forall i | 0 <= i < |nodes|
      ensures nodes[i] in all && nodes[i].id in Index(all) && Index(all)[nodes[i].id] == nodes[i]
    {
      if i < |picks| {
        RowMember(net.layers, i, picks[i]);
      } else {
        IndexExact(all, nodes[i]);
      }
      IndexExact(all, nodes[i]);
    }
  }

  lemma {:induction false} IndexedUnderOwnId(nodes: seq<Node>, id: bytes)
    ensures id in Index(nodes) ==> Index(nodes)[id].id == id && Index(nodes)[id] in nodes
  {
    if nodes != [] {
      IndexedUnderOwnId(nodes[..|nodes|-1], id);
    }
  }

  // ---- a picked path repeats no node ---------------------------------------------------

  /** Where a layer's nodes begin in the list of all nodes. */
  function RowStart(layers: seq<seq<Node>>, l: nat): nat
    requires l <= |layers|
  {
    if l == 0 then 0 else RowStart(layers, l - 1) + |layers[l-1]|
  }

  lemma {:induction false} RowStartTail(layers: seq<seq<Node>>, l: nat)
    requires 1 <= l <= |layers|
    ensures RowStart(layers, l) == |layers[0]| + RowStart(layers[1..], l - 1)
  {
    if l > 1 { RowStartTail(layers, l - 1); }
  }

  lemma {:induction false} RowAt(layers: seq<seq<Node>>, l: nat, n: nat)
    requires l < |layers| && n < |layers[l]|
    ensures RowStart(layers, l) + n < |Rows(layers)| && Rows(layers)[RowStart(layers, l) + n] == layers[l][n]
  {
    if l > 0 {
      RowAt(layers[1..], l - 1, n);
      RowStartTail(layers, l);
    }
  }

  lemma {:induction false} RowsInOrder(layers: seq<seq<Node>>, l: nat, m: nat)
    requires l < m < |layers|
    ensures RowStart(layers, l) + |layers[l]| <= RowStart(layers, m)
  {
    if l + 1 < m { RowsInOrder(layers, l, m - 1); }
  }

  /** One node of each layer, then a provider: no id comes up twice. */
  lemma PickedDistinct(net: Net, providerId: bytes, picks: seq<nat>, provider: Node)
    requires DistinctIds(net.Nodes()) && ValidPicks(net, picks)
    requires provider in net.providers && provider.id == providerId
    ensures PickNodes(net, providerId, picks).Some?
    ensures DistinctIds(PickNodes(net, providerId, picks).value)
  {
    hide Index;
    var all := net.Nodes();
    assert provider in all;
    IndexExact(all, provider);
    var nodes, m := PickNodes(net, providerId, picks).value, |net.layers|;
    var p :| 0 <= p < |net.providers| && net.providers[p] == provider;
    forall i, j | 0 <= i < j < |nodes| ensures nodes[i].id != nodes[j].id {
      RowAt(net.layers, i, picks[i]);
      var at := RowStart(net.layers, i) + picks[i];
      assert all[at] == nodes[i];
      if j < m {
        RowAt(net.layers, j, picks[j]);
        RowsInOrder(net.layers, i, j);
        assert all[RowStart(net.layers, j) + picks[j]] == nodes[j];
      } else {
        assert all[|Rows(net.layers)| + p] == provider == nodes[j];
      }
    }
  }

  // ---- the path is the draws' path ------------------------------------------------------

  /** Whether a layer's draws lead to a node: the only node of a row of one needs none; otherwise the first
      accepted draw must be one of the node's own. */
  ghost predicate LeadTo(row: seq<Node>, draws: seq<bytes>, node: Node)
    requires 1 <= |row| <= TWO32 && node in row && forall d :: d in draws ==> |d| == 4
  {
    if |row| == 1 then true
    else
      var a := FirstAccepted(|row|, draws, 0);
      a.Some? && draws[a.value] in DrawsForNode(row, node)
  }

  /** The path follows the draws: at every layer it takes exactly the node the layer's own draws lead to, and
      it ends at the node the provider id names. */
  lemma PathFollowsDraws(net: Net, providerId: bytes, picks: seq<nat>, draws: seq<seq<bytes>>, l: nat, node: Node)
    requires DistinctIds(net.Nodes()) && ValidPicks(net, picks) && PickNodes(net, providerId, picks).Some?
    requires l < |net.layers| == |draws| && |net.layers[l]| <= TWO32 && node in net.layers[l]
    requires forall d :: d in draws[l] ==> |d| == 4
    requires DrawnFor(|net.layers[l]|, draws[l], picks[l])
    ensures var nodes := PickNodes(net, providerId, picks).value;
            && (nodes[l] == node <==> LeadTo(net.layers[l], draws[l], node))
            && (nodes[l].id == node.id <==> LeadTo(net.layers[l], draws[l], node))
            && nodes[|net.layers|].id == providerId
  {
    hide FirstAccepted, DrawsForNode, Word, Index;
    var row := net.layers[l];
    IndexedUnderOwnId(net.Nodes(), providerId);
    RowDistinct(net, l);
    var i :| 0 <= i < |row| && row[i] == node;
    if |row| > 1 {
      EveryNodeEquallyLikely(row, node, draws[l]);
    }
    assert picks[l] != i ==> row[Min(picks[l], i)].id != row[Max(picks[l], i)].id;
  }

  /** The nodes of a layer have distinct ids. */
  lemma RowDistinct(net: Net, l: nat)
    requires DistinctIds(net.Nodes()) && l < |net.layers|
    ensures DistinctIds(net.layers[l])
  {
    var row, at := net.layers[l], RowStart(net.layers, l);
    forall i, j | 0 <= i < j < |row| ensures row[i].id != row[j].id {
      RowAt(net.layers, l, i);
      RowAt(net.layers, l, j);
      assert net.Nodes()[at + i] == row[i] && net.Nodes()[at + j] == row[j];
    }
  }

  /** Which node the index holds for an id: the last one with it. */
  lemma {:induction false} IndexHoldsLast(nodes: seq<Node>, i: nat)
    requires i < |nodes| && forall j :: i < j < |nodes| ==> nodes[j].id != nodes[i].id
    ensures nodes[i].id in Index(nodes) && Index(nodes)[nodes[i].id] == nodes[i]
  {
    var k := |nodes| - 1;
    if i < k { IndexHoldsLast(nodes[..k], i); }
  }
}
