/** Rejection sampling: a uniform index from four random bytes at a time, without modulo bias. */
module RandomIndex {
  import opened Bytes
  import opened Words

  /** The largest multiple of `n` that is at most 2^32. */
  function Limit(n: nat): nat
    requires n > 0
  {
    TWO32 / n * n
  }

  /** The first draw at or after `i` that is not rejected. */
  function FirstAccepted(n: nat, draws: seq<bytes>, i: nat): (r: Option<nat>)
    requires n > 0 && i <= |draws| && forall d :: d in draws ==> |d| == 4
    ensures r.Some? ==> i <= r.value < |draws| && Word(draws[r.value]) < Limit(n)
    ensures forall j :: i <= j < (if r.Some? then r.value else |draws|) ==> Word(draws[j]) >= Limit(n)
    decreases |draws| - i
  {
    if i == |draws| then None
    else if Word(draws[i]) < Limit(n) then Some(i)
    else FirstAccepted(n, draws, i + 1)
  }

  /** `randomIndex` fed from a list of four-byte draws; None when they run out before one is accepted. */
  method Pick(n: nat, draws: seq<bytes>) returns (r: Option<nat>)
    requires forall d :: d in draws ==> |d| == 4
    ensures n <= 1 ==> r == Some(0)
    ensures n > 1 ==>
      match FirstAccepted(n, draws, 0)
      case None => r == None
      case Some(i) => r == Some(Word(draws[i]) % n)
    ensures r.Some? && n > 0 ==> r.value < n
  {
    if n <= 1 { return Some(0); }
    var limit := TWO32 / n * n;
    var i := 0;
    while i < |draws|
      invariant i <= |draws| && FirstAccepted(n, draws, i) == FirstAccepted(n, draws, 0)
    {
      var x := Word(draws[i]);
      if x < limit { return Some(x % n); }
      i := i + 1;
    }
    return None;
  }

  /** The accepted numbers below `k` blocks of `n` that give the index `r`. */
  function Hits(n: nat, k: nat, r: nat): set<nat>
    requires n > 0
  {
    set x: nat | x < k * n && x % n == r
  }

  lemma BlockRange(n: nat, k: nat, x: nat)
    requires n > 0 && k > 0 && (k - 1) * n <= x < k * n
    ensures x / n == k - 1 && x == (k - 1) * n + x % n
  {
    var d := x - (k - 1) * n;
    assert 0 <= d < n by { assert k * n == (k - 1) * n + n; }
    QuotientUnique(n, k - 1, d);
  }

  lemma MulMonotone(a: int, b: int, n: nat)
    ensures a <= b ==> a * n <= b * n
  {}

  lemma QuotientUnique(n: nat, q: nat, d: nat)
    requires d < n
    ensures (q * n + d) / n == q && (q * n + d) % n == d
  {
    var x := q * n + d;
    assert x == x / n * n + x % n;
    MulMonotone(x / n + 1, q, n);
    MulMonotone(q + 1, x / n, n);
  }

  lemma {:induction false} HitsCount(n: nat, k: nat, r: nat)
    requires n > 0 && r < n
    ensures |Hits(n, k, r)| == k
  {
    if k == 0 {
      assert Hits(n, 0, r) == {};
    } else {
      HitsCount(n, k - 1, r);
      var last := (k - 1) * n + r;
      assert k * n == (k - 1) * n + n;
      QuotientUnique(n, k - 1, r);
      forall x | x in Hits(n, k, r) ensures x in Hits(n, k - 1, r) + {last} {
        if x >= (k - 1) * n { BlockRange(n, k, x); }
      }
      assert Hits(n, k, r) == Hits(n, k - 1, r) + {last};
    }
  }

  /** No modulo bias: of the numbers that are accepted, exactly the same count gives each index below `n`;
      and more than half of all draws are accepted. */
  lemma NoModuloBias(n: nat, r: nat)
    requires 2 <= n <= TWO32 && r < n
    ensures |set x: nat | x < Limit(n) && x % n == r| == TWO32 / n > 0
    ensures Limit(n) > TWO32 / 2 && Limit(n) <= TWO32
  {
    HitsCount(n, TWO32 / n, r);
    assert (set x: nat | x < Limit(n) && x % n == r) == Hits(n, TWO32 / n, r);
    var rest := TWO32 % n;
    assert TWO32 == TWO32 / n * n + rest;
    if 2 * n > TWO32 { QuotientUnique(n, 1, TWO32 - n); }
  }

  /** The four-byte draws that are accepted and select index `r`. */
  function DrawsFor(n: nat, r: nat): set<bytes>
    requires 0 < n <= TWO32
  {
    LimitFits(n);
    set x: nat | x < Limit(n) && x % n == r :: WordBytes(x)
  }

  lemma LimitFits(n: nat)
    requires 0 < n
    ensures Limit(n) <= TWO32
  {}

  /** Every index has exactly the same number of four-byte draws, 2^32 / n of them, and no others. */
  lemma EqualDraws(n: nat, r: nat)
    requires 2 <= n <= TWO32 && r < n
    ensures |DrawsFor(n, r)| == TWO32 / n
    ensures forall b: bytes :: b in DrawsFor(n, r) <==> |b| == 4 && Word(b) < Limit(n) && Word(b) % n == r
  {
    hide Word, WordBytes, Limit;
    NoModuloBias(n, r);
    LimitFits(n);
    var xs := set x: nat | x < Limit(n) && x % n == r;
    assert DrawsFor(n, r) == DrawsOf(xs);
    DrawsCount(xs);
    forall b: bytes ensures b in DrawsFor(n, r) <==> |b| == 4 && Word(b) < Limit(n) && Word(b) % n == r {
      if b in DrawsFor(n, r) {
        var x: nat :| x < Limit(n) && x % n == r && b == WordBytes(x);
        WordOneToOne(x, b);
      } else if |b| == 4 {
        WordOneToOne(0, b);
      }
    }
  }

  function DrawsOf(xs: set<nat>): set<bytes>
    requires forall x :: x in xs ==> x < TWO32
  {
    set x | x in xs :: WordBytes(x)
  }

  lemma {:induction false} DrawsCount(xs: set<nat>)
    requires forall x :: x in xs ==> x < TWO32
    ensures |DrawsOf(xs)| == |xs|
  {
    hide WordBytes, Word;
    if xs == {} {
      assert DrawsOf(xs) == {};
    } else {
      var x :| x in xs;
      DrawsCount(xs - {x});
      forall y | y in xs ensures WordBytes(y) == WordBytes(x) ==> y == x {
        WordOneToOne(x, WordBytes(x));
        WordOneToOne(y, WordBytes(y));
      }
      assert DrawsOf(xs) == DrawsOf(xs - {x}) + {WordBytes(x)};
    }
  }

  /** Four zero bytes are never rejected while the limit is positive. */
  lemma ZeroAccepted(n: nat)
    requires 2 <= n && Limit(n) > 0
    ensures FirstAccepted(n, [WordBytes(0)], 0) == Some(0)
  {}

  /** Some draws give an answer exactly when `n` is at most 2^32; beyond that every draw is rejected and the
      original's loop would never end. */
  lemma AnswersUpTo32Bits(n: nat)
    requires n >= 2
    ensures (exists draws: seq<bytes> :: (forall d :: d in draws ==> |d| == 4) && FirstAccepted(n, draws, 0).Some?)
       <==> n <= TWO32
  {
    hide Word, WordBytes, Limit, FirstAccepted;
    if n <= TWO32 {
      NoModuloBias(n, 0);
      ZeroAccepted(n);
      assert forall d :: d in [WordBytes(0)] ==> |d| == 4;
    } else {
      NoLimit(n);
    }
  }

  lemma NoLimit(n: nat)
    requires n > TWO32
    ensures Limit(n) == 0
  {}
}
