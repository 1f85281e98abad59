/**
 The token-bucket limiter: one bucket per key, refilled continuously up to its capacity, with a
 periodic sweep that forgets idle buckets. Whole runs are judged by what they let through.
 */
module RateLimiter {

  type Key = string

  datatype Config = Config(capacity: real, refillPerSec: real) {
    predicate Valid() { capacity >= 0.0 && refillPerSec >= 0.0 }
  }

  datatype Bucket = Bucket(tokens: real, last: nat)

  datatype Event = Request(key: Key, cost: real, now: nat) | Sweep(now: nat)

  const IDLE_MS: nat := 600000

  /** The tokens that flow in over a span of milliseconds. */
  function Gain(c: Config, ms: int): real {
    (ms as real) / 1000.0 * c.refillPerSec
  }

  /** What a key could spend at time `now`: a key without a bucket starts full. */
  function Level(c: Config, buckets: map<Key, Bucket>, key: Key, now: nat): real {
    if key in buckets then
      var full := buckets[key].tokens + Gain(c, now - buckets[key].last);
      if c.capacity <= full then c.capacity else full
    else c.capacity
  }

  /** One request: it passes if and only if the level covers its cost, which is then spent. */
  function Apply(c: Config, buckets: map<Key, Bucket>, e: Event): map<Key, Bucket> {
    match e
    case Request(key, cost, now) =>
      var level := Level(c, buckets, key, now);
      buckets[key := Bucket(if level < cost then level else level - cost, now)]
    case Sweep(now) =>
      map k | k in buckets && now - buckets[k].last <= IDLE_MS :: buckets[k]
  }

  predicate Passes(c: Config, buckets: map<Key, Bucket>, e: Event) {
    e.Request? && Level(c, buckets, e.key, e.now) >= e.cost
  }

  /** The function `rateLimiter` returns, with its timer callback as a method. */
  class Limiter {
    const config: Config
    var buckets: map<Key, Bucket>

    constructor (config: Config)
      ensures this.config == config && buckets == map[]
    {
      this.config := config;
      buckets := map[];
    }

    method Allow(key: Key, cost: real, now: nat) returns (ok: bool)
      modifies this
      ensures buckets == Apply(config, old(buckets), Request(key, cost, now))
      ensures ok <==> Passes(config, old(buckets), Request(key, cost, now))
    {
      var b := if key in buckets then buckets[key] else Bucket(config.capacity, now);
      var filled := b.tokens + Gain(config, now - b.last);
      assert now - now == 0 && Gain(config, 0) == 0.0;
      b := Bucket(if config.capacity <= filled then config.capacity else filled, now);
      if b.tokens < cost {
        buckets := buckets[key := b];
        return false;
      }
      buckets := buckets[key := b.(tokens := b.tokens - cost)];
      return true;
    }

    method SweepIdle(now: nat)
      modifies this
      ensures buckets == Apply(config, old(buckets), Sweep(now))
    {
      var keys := buckets.Keys;
      ghost var before := buckets;
      while keys != {}
        invariant keys <= before.Keys
        invariant forall k :: k in buckets <==>
                    k in before && (k in keys || now - before[k].last <= IDLE_MS)
        invariant forall k :: k in buckets ==> buckets[k] == before[k]
        decreases keys
      {
        var k :| k in keys;
        keys := keys - {k};
        if now - buckets[k].last > IDLE_MS { buckets := buckets - {k}; }
      }
    }
  }

  // ---- whole runs ----------------------------------------------------------------------

  /** The buckets after the first n events; with `sweeping` off the timer never fires. */
  function Run(c: Config, sweeping: bool, events: seq<Event>, n: nat): map<Key, Bucket>
    requires n <= |events|
  {
    if n == 0 then map[]
    else
      var before := Run(c, sweeping, events, n - 1);
      if events[n-1].Sweep? && !sweeping then before else Apply(c, before, events[n-1])
  }

  predicate Allowed(c: Config, sweeping: bool, events: seq<Event>, i: nat)
    requires i < |events|
  {
    Passes(c, Run(c, sweeping, events, i), events[i])
  }

  /** The cost accepted for a key by the events lo..hi. */
  function Spent(c: Config, events: seq<Event>, key: Key, lo: nat, hi: nat): real
    requires hi <= |events|
    decreases hi
  {
    if hi <= lo then 0.0
    else
      var before := Spent(c, events, key, lo, hi - 1);
      if events[hi-1].Request? && events[hi-1].key == key && Allowed(c, true, events, hi - 1)
      then before + events[hi-1].cost else before
  }

  /** The clock never runs backwards and nobody asks for a negative cost. */
  ghost predicate ValidRun(events: seq<Event>) {
    && (forall i, j :: 0 <= i <= j < |events| ==> events[i].now <= events[j].now)
    && (forall i :: 0 <= i < |events| && events[i].Request? ==> events[i].cost >= 0.0)
  }

  /** A bucket idle long enough to be swept has refilled completely by then. */
  ghost predicate RefillsWhileIdle(c: Config) {
    c.refillPerSec * ((IDLE_MS + 1) as real) >= c.capacity * 1000.0
  }

  lemma GainFacts(c: Config, a: int, b: int)
    requires c.Valid()
    ensures Gain(c, a + b) == Gain(c, a) + Gain(c, b)
    ensures a >= 0 ==> Gain(c, a) >= 0.0
    ensures a <= b ==> Gain(c, a) <= Gain(c, b)
  {
    var r := c.refillPerSec / 1000.0;
    assert Gain(c, a) == (a as real) * r && Gain(c, b) == (b as real) * r && Gain(c, a + b) == ((a + b) as real) * r;
    if a >= 0 { ProductNonNegative(a as real, r); }
    if a <= b { ProductNonNegative((b - a) as real, r); }
  }

  lemma ProductNonNegative(x: real, y: real)
    requires x >= 0.0 && y >= 0.0
    ensures x * y >= 0.0
  {}

  lemma IdleGain(c: Config, ms: int)
    requires c.Valid() && ms > IDLE_MS
    ensures RefillsWhileIdle(c) ==> Gain(c, ms) >= c.capacity
    ensures !RefillsWhileIdle(c) ==> Gain(c, IDLE_MS + 1) < c.capacity
  {
    GainFacts(c, IDLE_MS + 1, ms);
  }

  /** All buckets hold between nothing and their capacity, and were touched no later than `now`. */
  ghost predicate Sane(c: Config, buckets: map<Key, Bucket>, now: nat) {
    forall k :: k in buckets ==> 0.0 <= buckets[k].tokens <= c.capacity && buckets[k].last <= now
  }

  /** Between two events the level only rises, by no more than the gain, and never leaves its bounds. */
  lemma LevelOverTime(c: Config, buckets: map<Key, Bucket>, key: Key, now: nat, later: nat)
    requires c.Valid() && Sane(c, buckets, now) && now <= later
    ensures 0.0 <= Level(c, buckets, key, now) <= Level(c, buckets, key, later) <= c.capacity
    ensures Level(c, buckets, key, later) <= Level(c, buckets, key, now) + Gain(c, later - now)
  {
    hide Gain;
    GainFacts(c, later - now, 0);
    GainFacts(c, 0, 0);
    if key in buckets {
      var last := buckets[key].last;
      GainFacts(c, now - last, later - now);
      GainFacts(c, now - last, later - last);
      assert (now - last) + (later - now) == later - last;
    }
  }

  /** What an event does to every key's level at its own instant. */
  lemma EventLevels(c: Config, buckets: map<Key, Bucket>, e: Event, key: Key)
    requires c.Valid() && Sane(c, buckets, e.now) && (e.Request? ==> e.cost >= 0.0)
    ensures Sane(c, Apply(c, buckets, e), e.now)
    ensures e.Request? ==>
              Level(c, Apply(c, buckets, e), key, e.now)
              == if e.key == key && Passes(c, buckets, e) then Level(c, buckets, key, e.now) - e.cost
                 else Level(c, buckets, key, e.now)
    ensures e.Sweep? && RefillsWhileIdle(c) ==>
              Level(c, Apply(c, buckets, e), key, e.now) == Level(c, buckets, key, e.now)
  {
    hide Gain;
    GainFacts(c, 0, 0);
    LevelOverTime(c, buckets, key, e.now, e.now);
    if e.Request? { LevelOverTime(c, buckets, e.key, e.now, e.now); }
    if e.Sweep? && key in buckets && e.now - buckets[key].last > IDLE_MS {
      IdleGain(c, e.now - buckets[key].last);
    }
  }

  function TimeBefore(events: seq<Event>, n: nat): nat
    requires n <= |events|
  {
    if n == 0 then 0 else events[n-1].now
  }

  lemma TimesOrdered(events: seq<Event>, i: nat)
    requires ValidRun(events) && i < |events|
    ensures TimeBefore(events, i) <= events[i].now
  {}

  lemma {:induction false} RunSane(c: Config, sweeping: bool, events: seq<Event>, n: nat)
    requires c.Valid() && ValidRun(events) && n <= |events|
    ensures Sane(c, Run(c, sweeping, events, n), TimeBefore(events, n))
  {
    if n > 0 {
      RunSane(c, sweeping, events, n - 1);
      assert n >= 2 ==> events[n-2].now <= events[n-1].now;
      EventLevels(c, Run(c, sweeping, events, n - 1), events[n-1], "");
    }
  }

  // ---- the sweep ----------------------------------------------------------------------

  /** Same level for every key now means the same level for ever after. */
  lemma SameLevelLater(c: Config, b: map<Key, Bucket>, b': map<Key, Bucket>, key: Key, now: nat, later: nat)
    requires c.Valid() && Sane(c, b, now) && Sane(c, b', now) && now <= later
    requires Level(c, b, key, now) == Level(c, b', key, now)
    ensures Level(c, b, key, later) == Level(c, b', key, later)
  {
    LevelLater(c, b, key, now, later);
    LevelLater(c, b', key, now, later);
  }

  lemma LevelLater(c: Config, b: map<Key, Bucket>, key: Key, now: nat, later: nat)
    requires c.Valid() && Sane(c, b, now) && now <= later
    ensures var risen := Level(c, b, key, now) + Gain(c, later - now);
            Level(c, b, key, later) == if c.capacity <= risen then c.capacity else risen
  {
    hide Gain;
    GainFacts(c, later - now, 0);
    if key in b {
      var last := b[key].last;
      GainFacts(c, now - last, later - now);
      assert (now - last) + (later - now) == later - last;
    }
  }

  lemma {:induction false} SweepKeepsLevels(c: Config, events: seq<Event>, n: nat, key: Key)
    requires c.Valid() && RefillsWhileIdle(c) && ValidRun(events) && n <= |events|
    ensures Level(c, Run(c, true, events, n), key, TimeBefore(events, n))
         == Level(c, Run(c, false, events, n), key, TimeBefore(events, n))
  {
    hide Gain, Level, Apply, Passes, RefillsWhileIdle;
    if n == 0 {
    } else {
      var e, t := events[n-1], TimeBefore(events, n - 1);
      var b, b' := Run(c, true, events, n - 1), Run(c, false, events, n - 1);
      assert n >= 2 ==> events[n-2].now <= events[n-1].now;
      RunSane(c, true, events, n - 1);
      RunSane(c, false, events, n - 1);
      SweepKeepsLevels(c, events, n - 1, key);
      SameLevelLater(c, b, b', key, t, e.now);
      EventLevels(c, b, e, key);
      EventLevels(c, b', e, key);
      if e.Request? {
        SweepKeepsLevels(c, events, n - 1, e.key);
        SameLevelLater(c, b, b', e.key, t, e.now);
        PassesByLevel(c, b, e);
        PassesByLevel(c, b', e);
      }
    }
  }

  lemma PassesByLevel(c: Config, b: map<Key, Bucket>, e: Event)
    ensures Passes(c, b, e) <==> e.Request? && Level(c, b, e.key, e.now) >= e.cost
  {}

  /** The sweep is invisible: with or without it, every request of every run gets the same answer. */
  ghost predicate SweepInvisible(c: Config) {
    forall events: seq<Event>, i: nat :: ValidRun(events) && i < |events| ==>
      (Allowed(c, true, events, i) <==> Allowed(c, false, events, i))
  }

  /** A full bucket spent, swept 600001 ms later, and asked for everything again. */
  function ReturnVisit(c: Config): seq<Event> {
    [Request("k", c.capacity, 0), Sweep(IDLE_MS + 1), Request("k", c.capacity, IDLE_MS + 1)]
  }

  lemma ReturnVisitAnswers(c: Config)
    requires c.Valid() && !RefillsWhileIdle(c)
    ensures var events := ReturnVisit(c);
            && ValidRun(events)
            && Allowed(c, true, events, 0) && Allowed(c, true, events, 2) && !Allowed(c, false, events, 2)
            && Spent(c, events, "k", 0, 3) == 2.0 * c.capacity
            && 2.0 * c.capacity > c.capacity + Gain(c, IDLE_MS + 1)
  {
    hide Gain;
    GainFacts(c, 0, 0);
    IdleGain(c, IDLE_MS + 1);
    var events := ReturnVisit(c);
    assert Run(c, true, events, 0) == map[] && Run(c, false, events, 0) == map[];
    assert Run(c, true, events, 1) == map["k" := Bucket(0.0, 0)] == Run(c, false, events, 1);
    assert Run(c, true, events, 2) == map[];
    assert Run(c, false, events, 2) == map["k" := Bucket(0.0, 0)];
    assert Spent(c, events, "k", 0, 1) == c.capacity == Spent(c, events, "k", 0, 2);
  }

  /** Exactly when: idle buckets must have refilled before the sweep takes them. */
  lemma SweepLaw(c: Config)
    requires c.Valid()
    ensures SweepInvisible(c) <==> RefillsWhileIdle(c)
  {
    hide Allowed, RefillsWhileIdle, ValidRun, ReturnVisit;
    if RefillsWhileIdle(c) {
      forall events: seq<Event>, i: nat | ValidRun(events) && i < |events|
        ensures Allowed(c, true, events, i) <==> Allowed(c, false, events, i)
      {
        SameAnswer(c, events, i);
      }
    } else {
      ReturnVisitAnswers(c);
      var events := ReturnVisit(c);
      assert |events| == 3 by { ReturnVisitLength(c); }
      assert Allowed(c, true, events, 2) != Allowed(c, false, events, 2);
    }
  }

  lemma ReturnVisitLength(c: Config)
    ensures |ReturnVisit(c)| == 3
  {}

  lemma SameAnswer(c: Config, events: seq<Event>, i: nat)
    requires c.Valid() && RefillsWhileIdle(c) && ValidRun(events) && i < |events|
    ensures Allowed(c, true, events, i) <==> Allowed(c, false, events, i)
  {
    hide Level, Run, RefillsWhileIdle, Gain;
    var e, t := events[i], TimeBefore(events, i);
    if e.Request? {
      assert i >= 1 ==> events[i-1].now <= events[i].now;
      RunSane(c, true, events, i);
      RunSane(c, false, events, i);
      SweepKeepsLevels(c, events, i, e.key);
      SameLevelLater(c, Run(c, true, events, i), Run(c, false, events, i), e.key, t, e.now);
    }
  }

  // ---- the window bound -----------------------------------------------------------------

  /** For every key and every stretch of every run: no more than a bucketful plus the refill gets through. */
  ghost predicate WindowBound(c: Config) {
    forall events: seq<Event>, key: Key, lo: nat, hi: nat {:trigger Spent(c, events, key, lo, hi)} ::
      ValidRun(events) && lo < hi <= |events| ==>
      Spent(c, events, key, lo, hi) <= c.capacity + Gain(c, events[hi-1].now - events[lo].now)
  }

  /** What was spent is bounded by the level at the start, less the level at the end, plus the refill. */
  lemma {:induction false} SpentFromLevels(c: Config, events: seq<Event>, key: Key, lo: nat, hi: nat)
    requires c.Valid() && RefillsWhileIdle(c) && ValidRun(events) && lo < hi <= |events|
    ensures Spent(c, events, key, lo, hi)
         <= Level(c, Run(c, true, events, lo), key, events[lo].now)
            - Level(c, Run(c, true, events, hi), key, events[hi-1].now)
            + Gain(c, events[hi-1].now - events[lo].now)
    decreases hi
  {
    hide Gain, Level, Apply, Passes, RefillsWhileIdle;
    var e, b := events[hi-1], Run(c, true, events, hi - 1);
    RunSane(c, true, events, hi - 1);
    assert hi >= 2 ==> events[hi-2].now <= e.now;
    SaneLater(c, b, TimeBefore(events, hi - 1), e.now);
    EventLevels(c, b, e, key);
    GainFacts(c, 0, 0);
    if hi - 1 == lo {
      assert Spent(c, events, key, lo, lo) == 0.0;
    } else {
      SpentFromLevels(c, events, key, lo, hi - 1);
      var t := events[hi-2].now;
      LevelOverTime(c, b, key, t, e.now);
      GainFacts(c, t - events[lo].now, e.now - t);
      assert (t - events[lo].now) + (e.now - t) == e.now - events[lo].now;
    }
  }

  lemma SaneLater(c: Config, b: map<Key, Bucket>, now: nat, later: nat)
    requires Sane(c, b, now) && now <= later
    ensures Sane(c, b, later)
  {}

  /** Exactly when the bound holds in every run, sweeps included. */
  lemma WindowLaw(c: Config)
    requires c.Valid()
    ensures WindowBound(c) <==> RefillsWhileIdle(c)
  {
    hide RefillsWhileIdle, ValidRun, ReturnVisit, Gain, Level, Spent;
    if RefillsWhileIdle(c) {
      forall events: seq<Event>, key: Key, lo: nat, hi: nat {:trigger Spent(c, events, key, lo, hi)}
        | ValidRun(events) && lo < hi <= |events|
        ensures Spent(c, events, key, lo, hi) <= c.capacity + Gain(c, events[hi-1].now - events[lo].now)
      {
        SpentFromLevels(c, events, key, lo, hi);
        TimesOrdered(events, lo);
        LevelInRange(c, events, key, lo, events[lo].now);
        LevelInRange(c, events, key, hi, events[hi-1].now);
      }
    } else {
      ReturnVisitAnswers(c);
      ReturnVisitTimes(c);
      var events := ReturnVisit(c);
      assert Spent(c, events, "k", 0, 3) > c.capacity + Gain(c, events[2].now - events[0].now);
    }
  }

  lemma ReturnVisitTimes(c: Config)
    ensures |ReturnVisit(c)| == 3 && ReturnVisit(c)[2].now - ReturnVisit(c)[0].now == IDLE_MS + 1
  {}

  lemma LevelInRange(c: Config, events: seq<Event>, key: Key, n: nat, now: nat)
    requires c.Valid() && ValidRun(events) && n <= |events| && TimeBefore(events, n) <= now
    ensures 0.0 <= Level(c, Run(c, true, events, n), key, now) <= c.capacity
  {
    hide Level, Run;
    RunSane(c, true, events, n);
    SaneLater(c, Run(c, true, events, n), TimeBefore(events, n), now);
    LevelOverTime(c, Run(c, true, events, n), key, now, now);
  }

  // ---- exactly which requests pass ---------------------------------------------------------

  lemma GainIs(c: Config, ms: int)
    ensures Gain(c, ms) * 1000.0 == ms as real * c.refillPerSec
  {}

  /** When the span from `lo` began; the empty span begins now. */
  function SpanStart(events: seq<Event>, n: nat, lo: nat, now: nat): nat
    requires lo <= n <= |events|
  {
    if lo < n then events[lo].now else now
  }

  /** No span leaves more in the bucket than a full one plus the refill less what was spent in it. */
  lemma LevelAtMost(c: Config, events: seq<Event>, key: Key, n: nat, lo: nat, now: nat)
    requires c.Valid() && RefillsWhileIdle(c) && ValidRun(events)
    requires lo <= n <= |events| && TimeBefore(events, n) <= now
    ensures Level(c, Run(c, true, events, n), key, now)
         <= c.capacity + Gain(c, now - SpanStart(events, n, lo, now)) - Spent(c, events, key, lo, n)
  {
    hide Gain, Level, RefillsWhileIdle;
    RunSane(c, true, events, n);
    GainFacts(c, 0, 0);
    if lo == n {
      LevelInRange(c, events, key, n, now);
    } else {
      hide Run, Spent, Sane;
      var t := events[n-1].now;
      assert events[lo].now <= t == TimeBefore(events, n);
      SpentFromLevels(c, events, key, lo, n);
      TimesOrdered(events, lo);
      LevelInRange(c, events, key, lo, events[lo].now);
      LevelOverTime(c, Run(c, true, events, n), key, t, now);
      GainFacts(c, t - events[lo].now, now - t);
      assert (t - events[lo].now) + (now - t) == now - events[lo].now;
    }
  }

  /** And some span leaves exactly that: the one since the bucket was last full. */
  lemma {:induction false} LevelReached(c: Config, events: seq<Event>, key: Key, n: nat, now: nat) returns (lo: nat)
    requires c.Valid() && RefillsWhileIdle(c) && ValidRun(events)
    requires n <= |events| && TimeBefore(events, n) <= now
    ensures lo <= n
    ensures Level(c, Run(c, true, events, n), key, now)
         == c.capacity + Gain(c, now - SpanStart(events, n, lo, now)) - Spent(c, events, key, lo, n)
    decreases n
  {
    hide Gain, Level, Apply, RefillsWhileIdle, Passes;
    GainFacts(c, 0, 0);
    lo := n;
    if Level(c, Run(c, true, events, n), key, now) != c.capacity {
      if n == 0 {
        StartsFull(c, key, now);
      } else {
        var e, b := events[n-1], Run(c, true, events, n - 1);
        RunSane(c, true, events, n - 1);
        RunSane(c, true, events, n);
        assert n >= 2 ==> events[n-2].now <= e.now;
        SaneLater(c, b, TimeBefore(events, n - 1), e.now);
        EventLevels(c, b, e, key);
        LevelLater(c, Run(c, true, events, n), key, e.now, now);
        lo := LevelReached(c, events, key, n - 1, e.now);
        var t := SpanStart(events, n - 1, lo, e.now);
        assert t == SpanStart(events, n, lo, now);
        GainFacts(c, e.now - t, now - e.now);
        assert (e.now - t) + (now - e.now) == now - t;
      }
    }
  }

  lemma StartsFull(c: Config, key: Key, now: nat)
    ensures Level(c, map[], key, now) == c.capacity
  {}

  /** The span from event `lo` to request `i` has room for it, going by the answers before it alone: what
      passed, and the request, are at most a bucketful and the refill of the span. */
  predicate HasRoom(c: Config, events: seq<Event>, lo: nat, i: nat)
    requires lo <= i < |events| && events[i].Request?
  {
    (Spent(c, events, events[i].key, lo, i) + events[i].cost - c.capacity) * 1000.0
    <= (events[i].now - events[lo].now) as real * c.refillPerSec
  }

  /** Exactly which requests pass: those that every span ending in them has room for. A request is refused
      only when letting it pass would break the window bound. */
  lemma PassesIff(c: Config, events: seq<Event>, i: nat)
    requires c.Valid() && RefillsWhileIdle(c) && ValidRun(events) && i < |events| && events[i].Request?
    ensures Allowed(c, true, events, i) <==> forall lo :: 0 <= lo <= i ==> HasRoom(c, events, lo, i)
  {
    hide Gain, Level, RefillsWhileIdle, Run, Spent, ValidRun;
    var e, b := events[i], Run(c, true, events, i);
    TimesOrdered(events, i);
    PassesByLevel(c, b, e);
    forall lo | 0 <= lo <= i && Allowed(c, true, events, i) ensures HasRoom(c, events, lo, i) {
      LevelAtMost(c, events, e.key, i, lo, e.now);
      GainIs(c, e.now - events[lo].now);
    }
    var lo := LevelReached(c, events, e.key, i, e.now);
    GainIs(c, e.now - events[lo].now);
    assert HasRoom(c, events, lo, i) ==> Level(c, b, e.key, e.now) >= e.cost;
  }

  // ---- the limiters in use ---------------------------------------------------------------

  lemma TenMinutesSuffice(c: Config)
    requires c.Valid() && c.refillPerSec * 600.0 >= c.capacity
    ensures RefillsWhileIdle(c)
  {}

  /** The limiters of the gateway: http, auth, submit, lookup, presence. */
  function ServerLimits(): seq<Config> {
    [Config(60.0, 10.0), Config(12.0, 0.15), Config(120.0, 40.0), Config(60.0, 0.5), Config(300.0, 10.0)]
  }

  /** For every limiter the server creates, both laws hold without reservation. */
  lemma ServerLimitsHold(c: Config)
    requires c in ServerLimits()
    ensures SweepInvisible(c) && WindowBound(c)
  {
    hide SweepInvisible, WindowBound;
    TenMinutesSuffice(c);
    SweepLaw(c);
    WindowLaw(c);
  }
}
