/**
 The blinded key chain of a packet: the sender multiplies one scalar by a blinding factor
 per hop, every node re-blinds the point it received, and both arrive at the same keys.
 */
module SphinxKeys {
  import opened Bytes
  import opened Group
  import opened Primitives

  datatype Keys = Keys(alphas: seq<bytes>, secrets: seq<bytes>)

  /** `mod(bytesToNumberLE(h))` with 0 replaced by 1, as for every scalar derived from a hash. */
  function ScalarOf(S: Suite, h: bytes): (b: nat)
    requires S.Valid()
    ensures 1 <= b < S.order
  {
    var n := NumberLE(h) % S.order;
    if n == 0 then 1 else n
  }

  function BlindingFactor(S: Suite, alpha: bytes, s: bytes): (b: nat)
    requires S.Valid()
    ensures 1 <= b < S.order
  {
    ScalarOf(S, S.sha512(Ascii("blind") + alpha + s))
  }

  /** `pk.multiply(acc).toRawBytes()`, the secret the sender shares with the node `point`. */
  function SharedSecret(S: Suite, a: nat, point: nat): bytes
    requires S.Valid()
  {
    S.encode((point * a) % S.order)
  }

  /** One link of the chain: scalar `a`, re-blinded by the secret shared with the node `point`. */
  function Reblind(S: Suite, a: nat, point: nat): (a': nat)
    requires S.Valid()
    ensures a' < S.order
  {
    (a * BlindingFactor(S, S.encode(a), SharedSecret(S, a, point))) % S.order
  }

  /** The sender's running scalar when it reaches hop i of the nodes `points`, starting from `x`. */
  function Acc(S: Suite, x: nat, points: seq<nat>, i: nat): nat
    requires S.Valid() && i <= |points|
  {
    if i == 0 then x else Reblind(S, Acc(S, x, points, i - 1), points[i-1])
  }

  function Alpha(S: Suite, x: nat, points: seq<nat>, i: nat): bytes
    requires S.Valid() && i <= |points|
  {
    S.encode(Acc(S, x, points, i))
  }

  function Secret(S: Suite, x: nat, points: seq<nat>, i: nat): bytes
    requires S.Valid() && i < |points|
  {
    SharedSecret(S, Acc(S, x, points, i), points[i])
  }

  /** A chain started on a valid scalar stays on valid scalars: L is prime, so nothing collapses to 0. */
  lemma {:induction false} AccInRange(S: Suite, x: nat, points: seq<nat>, i: nat)
    requires S.Valid() && 1 <= x < S.order && i <= |points|
    ensures 1 <= Acc(S, x, points, i) < S.order
  {
    if i > 0 {
      AccInRange(S, x, points, i - 1);
      var a := Acc(S, x, points, i - 1);
      ProductNonZero(S.order, a, BlindingFactor(S, S.encode(a), SharedSecret(S, a, points[i-1])));
    }
  }

  /** The public points of nodes holding the given secret scalars (`BASE.multiply(secret)`). */
  function PointsOf(S: Suite, nodeSecrets: seq<nat>): (points: seq<nat>)
    requires S.order > 0
    ensures |points| == |nodeSecrets|
    ensures forall i :: 0 <= i < |points| ==> points[i] == nodeSecrets[i] % S.order
  {
    seq(|nodeSecrets|, i requires 0 <= i < |nodeSecrets| => nodeSecrets[i] % S.order)
  }

  ghost predicate NodeScalars(S: Suite, ks: seq<nat>) {
    forall i :: 0 <= i < |ks| ==> 1 <= ks[i] < S.order
  }

  /**
   Both ends of hop i agree. The node decodes alpha_i, multiplies it by its own secret and gets
   the sender's shared secret; re-blinding alpha_i gives exactly the sender's alpha_(i+1); and
   neither multiplication is out of range.
   */
  lemma NodeAgrees(S: Suite, x: nat, ks: seq<nat>, i: nat)
    requires S.Valid() && 1 <= x < S.order && NodeScalars(S, ks) && i < |ks|
    ensures var points := PointsOf(S, ks);
            var a, alpha, s := Acc(S, x, points, i), Alpha(S, x, points, i), Secret(S, x, points, i);
            && |alpha| == 32 && |s| == 32
            && S.decode(alpha) == Some(a)
            && S.Multiply(a, ks[i]).Some? && S.encode(S.Multiply(a, ks[i]).value) == s
            && S.Multiply(a, BlindingFactor(S, alpha, s)) == Some(Acc(S, x, points, i + 1))
  {
    var points := PointsOf(S, ks);
    AccInRange(S, x, points, i);
    SharedElement(Acc(S, x, points, i), ks[i], S.order);
  }

  function PointOrZero(S: Suite, pub: bytes): nat {
    match S.decode(pub)
    case Some(p) => p
    case None => 0
  }

  /** The points a list of public keys decodes to, with 0 standing for an invalid encoding. */
  function DecodedPoints(S: Suite, pubs: seq<bytes>): (points: seq<nat>)
    ensures |points| == |pubs|
  {
    seq(|pubs|, i requires 0 <= i < |pubs| => PointOrZero(S, pubs[i]))
  }

  lemma BaseMultiply(S: Suite, k: nat)
    requires S.order > 0 && 1 <= k < S.order
    ensures S.Multiply(1, k) == Some(k)
  {}

  /** One pass of the sender's loop, for the scalar `acc` and a node's decoded key. */
  method Link(S: Suite, acc: nat, pk: nat) returns (alpha: bytes, s: bytes, acc': nat)
    requires S.Valid() && 1 <= acc < S.order
    ensures alpha == S.encode(acc) && s == SharedSecret(S, acc, pk)
    ensures acc' == Reblind(S, acc, pk)
  {
    BaseMultiply(S, acc);
    var a := S.Multiply(1, acc);
    var p := S.Multiply(pk, acc);
    alpha, s := S.encode(a.value), S.encode(p.value);
    acc' := (acc * BlindingFactor(S, alpha, s)) % S.order;
  }

  /** The keys of the first n hops, in path order. */
  function Chain(S: Suite, x: nat, points: seq<nat>, n: nat): (k: Keys)
    requires S.Valid() && n <= |points|
    ensures |k.alphas| == |k.secrets| == n
  {
    if n == 0 then Keys([], [])
    else
      var k := Chain(S, x, points, n - 1);
      Keys(k.alphas + [Alpha(S, x, points, n - 1)], k.secrets + [Secret(S, x, points, n - 1)])
  }

  lemma {:induction false} ChainAt(S: Suite, x: nat, points: seq<nat>, n: nat, i: nat)
    requires S.Valid() && i < n <= |points|
    ensures Chain(S, x, points, n).alphas[i] == Alpha(S, x, points, i)
    ensures Chain(S, x, points, n).secrets[i] == Secret(S, x, points, i)
  {
    hide Reblind;
    var k, k' := Chain(S, x, points, n - 1), Chain(S, x, points, n);
    if i < n - 1 {
      ChainAt(S, x, points, n - 1, i);
      assert k'.alphas[i] == k.alphas[i] && k'.secrets[i] == k.secrets[i];
    } else {
      assert k'.alphas[i] == Alpha(S, x, points, i) && k'.secrets[i] == Secret(S, x, points, i);
    }
  }

  /**
   `computeSharedSecrets` for the random scalar `x`. It fails exactly when some public key is not
   a valid encoding; the range check of `multiply` never fires.
   */
  method ComputeSharedSecrets(S: Suite, x: nat, pubs: seq<bytes>) returns (r: Option<Keys>)
    requires S.Valid() && 1 <= x < S.order
    ensures r.Some? <==> forall i :: 0 <= i < |pubs| ==> S.decode(pubs[i]).Some?
    ensures r.Some? ==> r.value == Chain(S, x, DecodedPoints(S, pubs), |pubs|)
  {
    hide Reblind;
    var acc := x;
    var alphas: seq<bytes>, secrets: seq<bytes> := [], [];
    ghost var points := DecodedPoints(S, pubs);
    for i := 0 to |pubs|
      invariant forall j :: 0 <= j < i ==> S.decode(pubs[j]).Some?
      invariant acc == Acc(S, x, points, i)
      invariant Keys(alphas, secrets) == Chain(S, x, points, i)
    {
      var pk := S.decode(pubs[i]);
      if pk.None? { return None; }
      AccInRange(S, x, points, i);
      var alpha, s, next := Link(S, acc, pk.value);
      alphas, secrets, acc := alphas + [alpha], secrets + [s], next;
    }
    return Some(Keys(alphas, secrets));
  }
}
