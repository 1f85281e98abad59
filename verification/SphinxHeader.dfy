/**
 The fixed-size Sphinx header: a filler string, then one encrypted and MACed routing layer per
 hop wrapped backwards from the exit. The one fact everything rests on is `FillerTail`: the
 routing block of hop i always ends with the filler of length 2*i*K, so the zeros a node appends
 before it decrypts turn into exactly the bytes the sender MACed for the next hop.
 */
module SphinxHeader {
  import opened Bytes
  import opened Primitives

  const K: nat := 16
  const MAX_HOPS: nat := 5
  const R: nat := MAX_HOPS
  const BETA_LEN: nat := (2 * R + 1) * K
  const HOP_ID_LEN: nat := K

  /** The id that tells a node it is the exit. */
  function FinalMarker(): (m: bytes)
    ensures |m| == HOP_ID_LEN
  {
    Ascii("NOBLECHAT::FINAL")
  }

  /** The routing keystream of the hop that shares secret `s`. */
  function Rho(S: Suite, s: bytes, len: nat): (r: bytes)
    requires S.Valid()
    ensures |r| == len
  {
    S.Prg(S.Subkey("rho", s), len)
  }

  lemma RhoPrefix(S: Suite, s: bytes, n: nat)
    requires S.Valid() && n <= BETA_LEN
    ensures Rho(S, s, BETA_LEN + 2 * K)[..n] == Rho(S, s, n)
  {}

  /** The header MAC of the hop that shares secret `s`. */
  function Mu(S: Suite, s: bytes, beta: bytes): (r: bytes)
    requires S.Valid()
    ensures |r| == K
  {
    S.Mac(S.Subkey("mu", s), beta, K)
  }

  ghost predicate ValidPath(ids: seq<bytes>, secrets: seq<bytes>) {
    && 1 <= |ids| == |secrets| <= MAX_HOPS
    && forall i :: 0 <= i < |ids| ==> |ids[i]| == HOP_ID_LEN
  }

  // ---- specification of the sender's header ------------------------------------

  /** The filler after i hops: what those hops' keystreams leave of the zeros they append. */
  function Filler(S: Suite, secrets: seq<bytes>, i: nat): (phi: bytes)
    requires S.Valid() && i <= |secrets| <= MAX_HOPS
    ensures |phi| == 2 * i * K
  {
    if i == 0 then []
    else Xor(Filler(S, secrets, i - 1) + Zeros(2 * K),
             Rho(S, secrets[i-1], BETA_LEN + 2 * K)[(2 * (R - i) + 3) * K..])
  }

  function FinalLen(nu: nat): nat
    requires 1 <= nu <= MAX_HOPS
  {
    (2 * (R - nu) + 3) * K
  }

  /** The exit's routing block before encryption: the marker, then zeros. */
  function FinalBlock(nu: nat): (b: bytes)
    requires 1 <= nu <= MAX_HOPS
    ensures |b| == FinalLen(nu)
  {
    FinalMarker() + Zeros(FinalLen(nu) - K)
  }

  /** The encrypted routing block hop i receives. */
  function Beta(S: Suite, ids: seq<bytes>, secrets: seq<bytes>, i: nat): (beta: bytes)
    requires S.Valid() && ValidPath(ids, secrets) && i < |ids|
    ensures |beta| == BETA_LEN
    decreases |ids| - i, 0
  {
    var nu := |ids|;
    if i == nu - 1 then
      Xor(FinalBlock(nu), Rho(S, secrets[i], FinalLen(nu))) + Filler(S, secrets, i)
    else
      Xor(Routing(ids[i+1], Gamma(S, ids, secrets, i + 1), Beta(S, ids, secrets, i + 1)),
          Rho(S, secrets[i], BETA_LEN))
  }

  /** The MAC hop i checks. */
  function Gamma(S: Suite, ids: seq<bytes>, secrets: seq<bytes>, i: nat): (gamma: bytes)
    requires S.Valid() && ValidPath(ids, secrets) && i < |ids|
    ensures |gamma| == K
    decreases |ids| - i, 1
  {
    Mu(S, secrets[i], Beta(S, ids, secrets, i))
  }

  lemma GammaIsMac(S: Suite, ids: seq<bytes>, secrets: seq<bytes>, i: nat)
    requires S.Valid() && ValidPath(ids, secrets) && i < |ids|
    ensures Gamma(S, ids, secrets, i) == Mu(S, secrets[i], Beta(S, ids, secrets, i))
  {}

  /** What a forwarding hop reads: next id, next MAC, and as much of the next block as fits. */
  function Routing(id: bytes, gamma: bytes, beta: bytes): (r: bytes)
    requires |id| == |gamma| == K && |beta| == BETA_LEN
    ensures |r| == BETA_LEN
  {
    (id + gamma + beta)[..BETA_LEN]
  }

  // ---- the alignment invariant ---------------------------------------------------

  /** One filler step: the old filler under this hop's keystream, then the stream itself. */
  lemma FillerStep(phi: bytes, full: bytes)
    requires |phi| <= BETA_LEN && |full| == BETA_LEN + 2 * K
    ensures var cut := BETA_LEN - |phi|;
            Xor(phi + Zeros(2 * K), full[cut..]) == Xor(phi, full[cut..BETA_LEN]) + full[BETA_LEN..]
  {}

  /** A routing block that ends with `phi` under the keystream is encrypted to one that ends with `phi`. */
  lemma TailCancels(routing: bytes, stream: bytes, phi: bytes)
    requires |routing| == |stream| == BETA_LEN && |phi| <= BETA_LEN
    requires routing[BETA_LEN - |phi|..] == Xor(phi, stream[BETA_LEN - |phi|..])
    ensures Xor(routing, stream)[BETA_LEN - |phi|..] == phi
  {}

  /** The routing block drops exactly the last 2K bytes of the block it wraps. */
  lemma RoutingTail(id: bytes, gamma: bytes, beta: bytes, n: nat)
    requires |id| == |gamma| == K && |beta| == BETA_LEN && n <= BETA_LEN - 2 * K
    ensures Routing(id, gamma, beta)[BETA_LEN - n..] == beta[BETA_LEN - 2 * K - n..][..n]
  {}

  lemma BetaWraps(S: Suite, ids: seq<bytes>, secrets: seq<bytes>, i: nat)
    requires S.Valid() && ValidPath(ids, secrets) && i < |ids| - 1
    ensures Beta(S, ids, secrets, i)
         == Xor(Routing(ids[i+1], Gamma(S, ids, secrets, i + 1), Beta(S, ids, secrets, i + 1)),
                Rho(S, secrets[i], BETA_LEN))
  {}

  lemma BetaExit(S: Suite, ids: seq<bytes>, secrets: seq<bytes>)
    requires S.Valid() && ValidPath(ids, secrets)
    ensures var i := |ids| - 1;
            Beta(S, ids, secrets, i)[BETA_LEN - 2 * i * K..] == Filler(S, secrets, i)
  {}

  lemma FillerUnfolds(S: Suite, secrets: seq<bytes>, i: nat)
    requires S.Valid() && i < |secrets| <= MAX_HOPS
    ensures var phi := Filler(S, secrets, i);
            Filler(S, secrets, i + 1)
            == Xor(phi, Rho(S, secrets[i], BETA_LEN)[BETA_LEN - |phi|..])
             + Rho(S, secrets[i], BETA_LEN + 2 * K)[BETA_LEN..]
  {
    hide Rho, Xor;
    var phi, full := Filler(S, secrets, i), Rho(S, secrets[i], BETA_LEN + 2 * K);
    FillerStep(phi, full);
    RhoPrefix(S, secrets[i], BETA_LEN);
    assert full[BETA_LEN - |phi|..BETA_LEN] == Rho(S, secrets[i], BETA_LEN)[BETA_LEN - |phi|..];
  }

  lemma {:induction false} FillerTail(S: Suite, ids: seq<bytes>, secrets: seq<bytes>, i: nat)
    requires S.Valid() && ValidPath(ids, secrets) && i < |ids|
    ensures Beta(S, ids, secrets, i)[BETA_LEN - 2 * i * K..] == Filler(S, secrets, i)
    decreases |ids| - i
  {
    hide Rho, Mu, FinalMarker, Xor, Routing, Beta, Gamma, Filler;
    if i == |ids| - 1 {
      BetaExit(S, ids, secrets);
    } else {
      FillerTail(S, ids, secrets, i + 1);
      var phi, phi' := Filler(S, secrets, i), Filler(S, secrets, i + 1);
      var gamma', beta' := Gamma(S, ids, secrets, i + 1), Beta(S, ids, secrets, i + 1);
      var stream := Rho(S, secrets[i], BETA_LEN);
      FillerUnfolds(S, secrets, i);
      RoutingTail(ids[i+1], gamma', beta', |phi|);
      assert beta'[BETA_LEN - 2 * K - |phi|..] == phi';
      TailCancels(Routing(ids[i+1], gamma', beta'), stream, phi);
      BetaWraps(S, ids, secrets, i);
    }
  }

  /** What a node sees after it appends 2K zeros and applies its keystream. */
  function Unwrapped(S: Suite, s: bytes, beta: bytes): bytes
    requires S.Valid()
  {
    Xor(beta + Zeros(2 * K), Rho(S, s, BETA_LEN + 2 * K))
  }

  /** Unwrapping splits at BETA_LEN: the received block decrypts, the appended zeros show bare keystream. */
  lemma UnwrapSplits(S: Suite, s: bytes, plain: bytes)
    requires S.Valid() && |plain| == BETA_LEN
    ensures Unwrapped(S, s, Xor(plain, Rho(S, s, BETA_LEN)))
         == plain + Rho(S, s, BETA_LEN + 2 * K)[BETA_LEN..]
  {
    var full, stream := Rho(S, s, BETA_LEN + 2 * K), Rho(S, s, BETA_LEN);
    RhoPrefix(S, s, BETA_LEN);
    XorConcat(Xor(plain, stream), Zeros(2 * K), full);
    XorCancel(plain, stream);
    XorZeros(2 * K, full[BETA_LEN..]);
  }

  /** The 2K bytes cut off the next block are the bare keystream the node will put there. */
  lemma NextBlockTail(S: Suite, ids: seq<bytes>, secrets: seq<bytes>, i: nat)
    requires S.Valid() && ValidPath(ids, secrets) && i < |ids| - 1
    ensures Beta(S, ids, secrets, i + 1)[BETA_LEN - 2 * K..] == Rho(S, secrets[i], BETA_LEN + 2 * K)[BETA_LEN..]
  {
    hide Rho, Xor, Beta, Filler;
    FillerTail(S, ids, secrets, i + 1);
    FillerUnfolds(S, secrets, i);
    assert Filler(S, secrets, i + 1)[2 * i * K..] == Rho(S, secrets[i], BETA_LEN + 2 * K)[BETA_LEN..];
  }

  lemma RoutingRejoins(id: bytes, gamma: bytes, beta: bytes)
    requires |id| == |gamma| == K && |beta| == BETA_LEN
    ensures Routing(id, gamma, beta) + beta[BETA_LEN - 2 * K..] == id + gamma + beta
  {}

  /** A forwarding hop recovers the next id, the next MAC and, byte for byte, the next block. */
  lemma HopUnwraps(S: Suite, ids: seq<bytes>, secrets: seq<bytes>, i: nat)
    requires S.Valid() && ValidPath(ids, secrets) && i < |ids| - 1
    ensures Unwrapped(S, secrets[i], Beta(S, ids, secrets, i))
         == ids[i+1] + Gamma(S, ids, secrets, i + 1) + Beta(S, ids, secrets, i + 1)
  {
    hide Rho, Mu, FinalMarker, Xor, Beta, Filler;
    var beta', gamma' := Beta(S, ids, secrets, i + 1), Gamma(S, ids, secrets, i + 1);
    NextBlockTail(S, ids, secrets, i);
    RoutingRejoins(ids[i+1], gamma', beta');
    assert Beta(S, ids, secrets, i) == Xor(Routing(ids[i+1], gamma', beta'), Rho(S, secrets[i], BETA_LEN)) by {
      BetaWraps(S, ids, secrets, i);
    }
    UnwrapSplits(S, secrets[i], Routing(ids[i+1], gamma', beta'));
  }

  /** The exit, and it alone by design, finds the marker in the id slot, and behind it as many zeros as the
      header has room for. */
  lemma ExitUnwraps(S: Suite, ids: seq<bytes>, secrets: seq<bytes>)
    requires S.Valid() && ValidPath(ids, secrets)
    ensures Unwrapped(S, secrets[|ids|-1], Beta(S, ids, secrets, |ids| - 1))[..HOP_ID_LEN] == FinalMarker()
    ensures var zeros, plain := (2 * (MAX_HOPS - |ids|) + 2) * K,
                                Unwrapped(S, secrets[|ids|-1], Beta(S, ids, secrets, |ids| - 1));
            plain[HOP_ID_LEN..HOP_ID_LEN + zeros] == Zeros(zeros)
  {
    hide Rho, Mu, FinalMarker;
    var nu := |ids|;
    var s, n := secrets[nu-1], FinalLen(nu);
    var full, stream := Rho(S, s, BETA_LEN + 2 * K), Rho(S, s, n);
    RhoPrefix(S, s, n);
    var head, rest := Xor(FinalBlock(nu), stream), Filler(S, secrets, nu - 1) + Zeros(2 * K);
    assert Beta(S, ids, secrets, nu - 1) + Zeros(2 * K) == head + rest;
    UnwrapHead(head, rest, full);
    XorCancel(FinalBlock(nu), stream);
  }

  lemma UnwrapHead(head: bytes, rest: bytes, full: bytes)
    requires |head| + |rest| == |full|
    ensures Xor(head + rest, full)[..|head|] == Xor(head, full[..|head|])
  {}

  // ---- the sender's loops ----------------------------------------------------------

  datatype Header = Header(alpha: bytes, beta: bytes, gamma: bytes)

  lemma FillerGrows(S: Suite, secrets: seq<bytes>, i: nat)
    requires S.Valid() && 1 <= i <= |secrets| <= MAX_HOPS
    ensures Filler(S, secrets, i)
         == Xor(Filler(S, secrets, i - 1) + Zeros(2 * K),
                Rho(S, secrets[i-1], BETA_LEN + 2 * K)[(2 * (R - i) + 3) * K..])
  {}

  /** The filler loop of `createHeader`. */
  method BuildFiller(S: Suite, secrets: seq<bytes>) returns (phi: bytes)
    requires S.Valid() && 1 <= |secrets| <= MAX_HOPS
    ensures phi == Filler(S, secrets, |secrets| - 1)
  {
    hide Rho, Filler, Xor;
    phi := [];
    assert phi == Filler(S, secrets, 0);
    for i := 1 to |secrets|
      invariant phi == Filler(S, secrets, i - 1)
    {
      FillerGrows(S, secrets, i);
      var min := (2 * (R - i) + 3) * K;
      var rho := Rho(S, secrets[i-1], BETA_LEN + 2 * K);
      phi := XorBytes(phi + Zeros(2 * K), rho[min..]);
    }
  }

  /** `createHeader`: grow the filler hop by hop, seal the exit's block, wrap backwards. */
  method CreateHeader(S: Suite, ids: seq<bytes>, secrets: seq<bytes>, alpha: bytes) returns (h: Header)
    requires S.Valid() && ValidPath(ids, secrets)
    ensures h == Header(alpha, Beta(S, ids, secrets, 0), Gamma(S, ids, secrets, 0))
  {
    hide Rho, Mu, FinalMarker, Filler, Xor, FinalBlock;
    var nu := |ids|;
    var phi := BuildFiller(S, secrets);
    var sealed := XorBytes(FinalBlock(nu), Rho(S, secrets[nu-1], FinalLen(nu)));
    var beta := sealed + phi;
    var gamma := Mu(S, secrets[nu-1], beta);
    var i := nu - 1;
    while i > 0
      invariant 0 <= i < nu
      invariant beta == Beta(S, ids, secrets, i) && gamma == Gamma(S, ids, secrets, i)
    {
      i := i - 1;
      var routing := Sub(ids[i+1] + gamma + beta, 0, BETA_LEN);
      beta := XorBytes(routing, Rho(S, secrets[i], BETA_LEN));
      gamma := Mu(S, secrets[i], beta);
    }
    h := Header(alpha, beta, gamma);
  }
}
