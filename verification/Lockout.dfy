/**
 The sign-in lockout: exponential backoff per key over a failure history that outlives each lock,
 kept in a map of bounded size. The class is proved against a specification that looks only at the
 list of all calls ever made.
 */
module Lockout {
  import opened Bytes

  datatype Config = Config(threshold: nat, baseDelayMs: nat, maxDelayMs: nat, forgetAfterMs: nat, maxEntries: nat)

  datatype Entry = Entry(fails: nat, until: nat, forgetAt: nat)

  datatype Event<K> = Fail(key: K, now: nat) | Succeed(key: K)

  function Pow2(n: nat): (p: nat)
    ensures p >= 1
  {
    if n == 0 then 1 else 2 * Pow2(n - 1)
  }

  /** The wait after a number of failures. */
  function DelayFor(c: Config, fails: nat): nat {
    if fails < c.threshold then 0
    else Min(c.maxDelayMs, c.baseDelayMs * Pow2(Min(fails - c.threshold, 20)))
  }

  function CeilSeconds(ms: nat): nat {
    (ms + 999) / 1000
  }

  // ---- specification from the whole history ----------------------------------------

  /** When a run of failures at the given times is forgotten. */
  function ForgetAt(c: Config, streak: seq<nat>): nat
    requires streak != []
  {
    var last := streak[|streak|-1];
    Max(last + c.forgetAfterMs, last + DelayFor(c, |streak|))
  }

  /** The times of the failures that still count together for a key: none before its last success,
      and none from before a pause long enough to be forgotten. */
  function Streak<K(==)>(c: Config, log: seq<Event<K>>, key: K): seq<nat> {
    if log == [] then []
    else
      var before, e := Streak(c, log[..|log|-1], key), log[|log|-1];
      if e.key != key then before
      else
        match e
        case Succeed(_) => []
        case Fail(_, now) =>
          if before != [] && ForgetAt(c, before) > now then before + [now] else [now]
  }

  /** The record a streak amounts to. */
  function RecordOf(c: Config, streak: seq<nat>): Entry
    requires streak != []
  {
    Entry(|streak|, streak[|streak|-1] + DelayFor(c, |streak|), ForgetAt(c, streak))
  }

  /** The seconds a key must wait, computed from its history alone. */
  function Wait(c: Config, streak: seq<nat>, now: nat): nat {
    if streak == [] || ForgetAt(c, streak) <= now then 0
    else
      var until := streak[|streak|-1] + DelayFor(c, |streak|);
      if until <= now then 0 else CeilSeconds(until - now)
  }

  /** The position of a key's latest failure in the log, -1 if it never failed. */
  function LastFail<K(==)>(log: seq<Event<K>>, key: K): int {
    if log == [] then -1
    else
      var e := log[|log|-1];
      if e.Fail? && e.key == key then |log| - 1 else LastFail(log[..|log|-1], key)
  }

  lemma LogSnoc<K>(c: Config, log: seq<Event<K>>, e: Event<K>, key: K)
    ensures LastFail(log + [e], key) == if e.Fail? && e.key == key then |log| else LastFail(log, key)
    ensures e.key != key ==> Streak(c, log + [e], key) == Streak(c, log, key)
    ensures e == Succeed(key) ==> Streak(c, log + [e], key) == []
    ensures e.key == key && e.Fail? ==>
              var before := Streak(c, log, key);
              Streak(c, log + [e], key)
              == if before != [] && ForgetAt(c, before) > e.now then before + [e.now] else [e.now]
  {}

  lemma {:induction false} LastFailInLog<K>(log: seq<Event<K>>, key: K)
    ensures -1 <= LastFail(log, key) < |log|
  {
    if log != [] { LastFailInLog(log[..|log|-1], key); }
  }

  // ---- the object ------------------------------------------------------------------

  /** Keys in the order of their latest failure: the insertion order of the map. */
  ghost predicate SortedByFailure<K(!new)>(log: seq<Event<K>>, order: seq<K>) {
    forall i, j :: 0 <= i < j < |order| ==> LastFail(log, order[i]) < LastFail(log, order[j])
  }

  /** The keys whose record is not forgotten at time `now`. */
  function LiveKeys<K(==)>(entries: map<K, Entry>, now: nat): set<K> {
    set k | k in entries && entries[k].forgetAt > now
  }

  /** `others` are at least `n` of the `live` keys, and all of them failed after `key` last did. */
  ghost predicate OvertakenBy<K>(log: seq<Event<K>>, live: set<K>, key: K, others: set<K>, n: nat) {
    |others| >= n && others <= live && forall o :: o in others ==> o != key && LastFail(log, o) > LastFail(log, key)
  }

  /** A key that `n` live keys have overtaken. */
  ghost predicate Crowded<K(!new)>(log: seq<Event<K>>, live: set<K>, key: K, n: nat) {
    exists others :: OvertakenBy(log, live, key, others, n)
  }

  lemma CrowdedByMore<K(!new)>(log: seq<Event<K>>, live: set<K>, more: set<K>, key: K, n: nat)
    requires live <= more && Crowded(log, live, key, n)
    ensures Crowded(log, more, key, n)
  {
    hide LastFail;
    var others :| OvertakenBy(log, live, key, others, n);
    assert OvertakenBy(log, more, key, others, n);
  }

  /** Taking one key out of the order leaves the others in order. */
  lemma WithoutStaysSorted<K(!new)>(log: seq<Event<K>>, order: seq<K>, i: nat)
    requires SortedByFailure(log, order) && i < |order|
    ensures SortedByFailure(log, order[..i] + order[i+1..])
    ensures forall k :: k in order[..i] + order[i+1..] <==> k in order && k != order[i]
  {
    hide LastFail;
    var less := order[..i] + order[i+1..];
    assert forall j :: 0 <= j < |less| ==> less[j] == order[if j < i then j else j + 1];
    forall k | k in order && k != order[i] ensures k in less {
      var j :| 0 <= j < |order| && order[j] == k;
      assert less[if j < i then j else j - 1] == k;
    }
  }

  /** What one more failure of `key` does to every key's history. */
  lemma AfterFailure<K(!new)>(c: Config, log: seq<Event<K>>, key: K, now: nat)
    ensures var log' := log + [Fail(key, now)];
            && (forall k :: k != key ==> Streak(c, log', k) == Streak(c, log, k))
            && var before := Streak(c, log, key);
               Streak(c, log', key)
               == if before != [] && ForgetAt(c, before) > now then before + [now] else [now]
  {}

  /** The key that just failed belongs at the end of the order, and nothing else moves. */
  lemma AppendLatest<K(!new)>(log: seq<Event<K>>, order: seq<K>, key: K, now: nat)
    requires SortedByFailure(log, order) && key !in order
    ensures SortedByFailure(log + [Fail(key, now)], order + [key])
  {
    var c := Config(0, 0, 0, 0, 0);
    forall i | 0 <= i < |order| ensures LastFail(log + [Fail(key, now)], order[i]) == LastFail(log, order[i]) < |log| {
      LogSnoc(c, log, Fail(key, now), order[i]);
      LastFailInLog(log, order[i]);
    }
    LogSnoc(c, log, Fail(key, now), key);
  }

  class FailureMap<K(==,!new)> {
    const config: Config
    var entries: map<K, Entry>
    var order: seq<K>            // the map's insertion order
    ghost var log: seq<Event<K>> // every fail and succeed call
    ghost var clock: nat         // the latest time any call has seen
    ghost var evicted: set<K>    // keys dropped at the cap while live, since their last success

    /** The entry of a key is what its history says, or missing because it is forgotten anyway. */
    ghost predicate Agrees(key: K)
      reads this
    {
      var streak := Streak(config, log, key);
      if streak == [] then key !in entries
      else if key in entries then entries[key] == RecordOf(config, streak)
      else ForgetAt(config, streak) <= clock
    }

    ghost predicate Consistent()
      reads this
    {
      && (forall k :: k in order <==> k in entries)
      && SortedByFailure(log, order)
      && forall key :: key !in evicted ==> Agrees(key)
    }

    ghost predicate Valid()
      reads this
    {
      Consistent() && |order| <= config.maxEntries
    }

    constructor (config: Config)
      ensures Valid() && this.config == config && log == [] && evicted == {} && clock == 0
    {
      this.config := config;
      entries, order, log, clock, evicted := map[], [], [], 0, {};
    }

    method Delete(key: K)
      modifies this`entries, this`order
      requires forall k :: k in order <==> k in entries
      requires SortedByFailure(log, order)
      ensures entries == old(entries) - {key}
      ensures forall k :: k in order <==> k in entries
      ensures SortedByFailure(log, order)
      ensures |order| == if key in old(entries) then |old(order)| - 1 else |old(order)|
    {
      if key in entries {
        var i := 0;
        while order[i] != key
          invariant 0 <= i < |order| && key !in order[..i]
          decreases |order| - i
        {
          i := i + 1;
        }
        WithoutStaysSorted(log, order, i);
        order := order[..i] + order[i+1..];
        entries := entries - {key};
      }
    }

    /** Seconds to wait, 0 for "go ahead"; a forgotten record is dropped on the way. */
    method RetryAfter(key: K, now: nat) returns (seconds: nat)
      requires Valid() && now >= clock
      modifies this
      ensures Valid() && log == old(log) && evicted == old(evicted) && clock == now
      ensures key !in evicted ==> seconds == Wait(config, Streak(config, log, key), now)
    {
      clock := now;
      if key !in entries { return 0; }
      var e := entries[key];
      if e.forgetAt <= now {
        Delete(key);
        return 0;
      }
      if e.until <= now { return 0; }
      return CeilSeconds(e.until - now);
    }

    method Success(key: K)
      requires Valid()
      modifies this
      ensures Valid() && log == old(log) + [Succeed(key)] && evicted == old(evicted) - {key} && clock == old(clock)
    {
      forall k ensures LastFail(log + [Succeed(key)], k) == LastFail(log, k) { LogSnoc(config, log, Succeed(key), k); }
      forall k ensures Streak(config, log + [Succeed(key)], k) == if k == key then [] else Streak(config, log, k) {
        LogSnoc(config, log, Succeed(key), k);
      }
      Delete(key);
      log := log + [Succeed(key)];
      evicted := evicted - {key};
    }

    /** Drop what is forgotten, then the least recently failing keys until the cap is met. What is left is
        live, and whatever was dropped alive made room for `maxEntries` live keys that failed after it. */
    method Prune(now: nat)
      requires forall k :: k in order <==> k in entries
      requires SortedByFailure(log, order)
      modifies this`entries, this`order
      ensures forall k :: k in order <==> k in entries
      ensures SortedByFailure(log, order) && |order| <= config.maxEntries
      ensures forall k :: k in entries ==>
                k in old(entries) && entries[k] == old(entries)[k] && entries[k].forgetAt > now
      ensures forall k :: k in LiveKeys(old(entries), now) && k !in entries ==>
                Crowded(log, LiveKeys(old(entries), now), k, config.maxEntries)
      ensures |LiveKeys(old(entries), now)| <= config.maxEntries ==> entries.Keys == LiveKeys(old(entries), now)
    {
      PruneForgotten(now);
      ghost var live := entries.Keys;
      SizeOfOrder();
      while |order| > config.maxEntries
        invariant forall k :: k in order <==> k in entries
        invariant SortedByFailure(log, order) && entries.Keys <= live
        invariant forall k :: k in entries ==>
                    k in old(entries) && entries[k] == old(entries)[k] && entries[k].forgetAt > now
        invariant forall k :: k in live && k !in entries ==>
                    Crowded(log, live, k, config.maxEntries)
        invariant |live| <= config.maxEntries ==> entries.Keys == live && |order| == |live|
        decreases |order|
      {
        var oldest := order[0];
        Overtaken(log, live, order, config.maxEntries);
        Delete(oldest);
      }
    }

    /** The first half of a prune: the records whose time is up, wherever they stand in the map. */
    method PruneForgotten(now: nat)
      requires forall k :: k in order <==> k in entries
      requires SortedByFailure(log, order)
      modifies this`entries, this`order
      ensures forall k :: k in order <==> k in entries
      ensures SortedByFailure(log, order)
      ensures entries.Keys == LiveKeys(old(entries), now)
      ensures forall k :: k in entries ==> entries[k] == old(entries)[k]
    {
      var keys := order;
      for i := 0 to |keys|
        invariant forall k :: k in order <==> k in entries
        invariant SortedByFailure(log, order)
        invariant forall k :: k in entries ==> k in old(entries) && entries[k] == old(entries)[k]
        invariant forall k :: k in LiveKeys(old(entries), now) ==> k in entries
        invariant forall j :: 0 <= j < i && keys[j] in entries ==> entries[keys[j]].forgetAt > now
      {
        if keys[i] in entries && entries[keys[i]].forgetAt <= now { Delete(keys[i]); }
      }
      forall k | k in entries ensures entries[k].forgetAt > now {
        assert k in old(order);
      }
    }

    lemma SizeOfOrder()
      requires forall k :: k in order <==> k in entries
      requires SortedByFailure(log, order)
      ensures |order| == |entries.Keys|
    {
      DistinctInOrder(log, order);
      CardinalityOfDistinct(order);
      assert entries.Keys == set k | k in order;
    }

    /** Write the key's new record at the end of the map, cap or no cap. */
    method Record(key: K, now: nat) returns (fails: nat)
      requires Valid() && now >= clock
      modifies this
      ensures Consistent() && log == old(log) + [Fail(key, now)] && clock == now && evicted == old(evicted)
      ensures key !in evicted ==> fails == |Streak(config, log, key)|
      ensures key in entries && entries[key].forgetAt >= now
      ensures forall k :: k != key ==> (k in entries <==> k in old(entries))
      ensures forall k :: k != key && k in entries ==> entries[k] == old(entries)[k]
    {
      ghost var e' := Event.Fail(key, now);
      hide LastFail, Streak, DelayFor;
      AfterFailure(config, log, key, now);
      fails := if key in entries && entries[key].forgetAt > now then entries[key].fails + 1 else 1;
      var until := now + DelayFor(config, fails);
      var e := Entry(fails, until, Max(now + config.forgetAfterMs, until));
      assert key !in evicted ==> e == RecordOf(config, Streak(config, log + [e'], key)) by {
        assert Streak(config, log + [e'], key) != [];
      }
      Delete(key);
      AppendLatest(log, order, key, now);
      entries, order := entries[key := e], order + [key];
      log, clock := log + [e'], now;
    }

    /** Record a failure; the answer is the wait it causes, in seconds. */
    method Failure(key: K, now: nat) returns (seconds: nat)
      requires Valid() && now >= clock
      modifies this
      ensures Valid() && log == old(log) + [Fail(key, now)] && clock == now
      ensures key !in old(evicted) ==> seconds == CeilSeconds(DelayFor(config, |Streak(config, log, key)|))
      ensures old(evicted) <= evicted
      ensures forall k :: k in evicted - old(evicted) ==>
                Crowded(log, LiveKeys(old(entries), now) + {key}, k, config.maxEntries)
      ensures forall k :: k in LiveKeys(old(entries), now) && k != key && k !in entries ==>
                Crowded(log, LiveKeys(old(entries), now) + {key}, k, config.maxEntries)
    {
      hide LastFail, Streak, DelayFor, Crowded, SortedByFailure;
      var fails := Record(key, now);
      if |order| > config.maxEntries || fails % 32 == 0 {
        ghost var before := entries;
        Prune(now);
        ghost var live := LiveKeys(before, now);
        assert live <= LiveKeys(old(entries), now) + {key};
        forall k | k in live && k !in entries
          ensures Crowded(log, LiveKeys(old(entries), now) + {key}, k, config.maxEntries)
        {
          CrowdedByMore(log, live, LiveKeys(old(entries), now) + {key}, k, config.maxEntries);
        }
        evicted := evicted + (live - entries.Keys);
      }
      return CeilSeconds(DelayFor(config, fails));
    }
  }

  /** In a map over its cap, the first key in insertion order has been overtaken by all the others. */
  lemma Overtaken<K(!new)>(log: seq<Event<K>>, live: set<K>, order: seq<K>, n: nat)
    requires SortedByFailure(log, order) && |order| > n && forall k :: k in order ==> k in live
    ensures Crowded(log, live, order[0], n)
  {
    hide LastFail;
    var rest := order[1..];
    var others := set k | k in rest;
    assert SortedByFailure(log, rest);
    DistinctInOrder(log, rest);
    CardinalityOfDistinct(rest);
    forall o | o in others ensures o in order && LastFail(log, o) > LastFail(log, order[0]) {
      var i :| 0 <= i < |rest| && rest[i] == o;
      assert order[i+1] == o;
    }
    assert OvertakenBy(log, live, order[0], others, n);
  }

  lemma DistinctInOrder<K(!new)>(log: seq<Event<K>>, order: seq<K>)
    requires SortedByFailure(log, order)
    ensures forall i, j :: 0 <= i < j < |order| ==> order[i] != order[j]
  {}

  lemma {:induction false} CardinalityOfDistinct<K>(xs: seq<K>)
    requires forall i, j :: 0 <= i < j < |xs| ==> xs[i] != xs[j]
    ensures |set k | k in xs| == |xs|
  {
    if xs != [] {
      CardinalityOfDistinct(xs[1..]);
      assert (set k | k in xs) == {xs[0]} + set k | k in xs[1..];
    }
  }

  // ---- how long guessing takes -------------------------------------------------------

  lemma {:induction false} Pow2Monotone(a: nat, b: nat)
    requires a <= b
    ensures Pow2(a) <= Pow2(b)
  {
    if a < b { Pow2Monotone(a, b - 1); }
  }

  lemma ScaleMonotone(k: nat, a: nat, b: nat)
    requires a <= b
    ensures k * a <= k * b
  {}

  /** More failures never mean a shorter wait. */
  lemma DelayMonotone(c: Config, a: nat, b: nat)
    requires a <= b
    ensures DelayFor(c, a) <= DelayFor(c, b)
  {
    hide Pow2;
    if a >= c.threshold {
      var x, y := Min(a - c.threshold, 20), Min(b - c.threshold, 20);
      Pow2Monotone(x, y);
      ScaleMonotone(c.baseDelayMs, Pow2(x), Pow2(y));
    }
  }

  /** The wait without the 20-step clamp. */
  function Unclamped(c: Config, fails: nat): nat
    requires fails >= c.threshold
  {
    Min(c.maxDelayMs, c.baseDelayMs * Pow2(fails - c.threshold))
  }

  /** The clamp is invisible exactly when 20 doublings of a nonzero base reach the maximum. */
  lemma ClampInvisible(c: Config)
    ensures (forall fails: nat :: fails >= c.threshold ==> DelayFor(c, fails) == Unclamped(c, fails))
       <==> c.baseDelayMs == 0 || c.baseDelayMs * Pow2(20) >= c.maxDelayMs
  {
    hide Pow2;
    if c.baseDelayMs == 0 || c.baseDelayMs * Pow2(20) >= c.maxDelayMs {
      forall fails: nat | fails >= c.threshold ensures DelayFor(c, fails) == Unclamped(c, fails) {
        var steps := fails - c.threshold;
        if steps > 20 {
          Pow2Monotone(20, steps);
          ScaleMonotone(c.baseDelayMs, Pow2(20), Pow2(steps));
        }
      }
    } else {
      var fails := c.threshold + 21;
      NextPow2(20);
      assert c.baseDelayMs * Pow2(21) > c.baseDelayMs * Pow2(20);
      assert DelayFor(c, fails) != Unclamped(c, fails);
    }
  }

  lemma NextPow2(n: nat)
    ensures Pow2(n + 1) == 2 * Pow2(n)
  {}

  /** All the waits between n failures in a row. */
  function TotalDelay(c: Config, n: nat): nat {
    if n <= 1 then 0 else TotalDelay(c, n - 1) + DelayFor(c, n - 1)
  }

  /** The same sum written with doublings: over k from the threshold up to n-1. */
  function DoublingSum(c: Config, n: nat): nat {
    if n <= c.threshold then 0 else DoublingSum(c, n - 1) + Unclamped(c, n - 1)
  }

  lemma {:induction false} TotalIsDoublingSum(c: Config, n: nat)
    requires c.threshold >= 1 && (c.baseDelayMs == 0 || c.baseDelayMs * Pow2(20) >= c.maxDelayMs)
    ensures TotalDelay(c, n) == DoublingSum(c, n)
  {
    hide Pow2;
    if n > 1 {
      TotalIsDoublingSum(c, n - 1);
      ClampInvisible(c);
    }
  }

  /** Every attempt on this key was made only once its history allowed it. */
  ghost predicate Patient<K(!new)>(c: Config, log: seq<Event<K>>, key: K) {
    forall i {:trigger log[i]} :: 0 <= i < |log| && log[i].key == key && log[i].Fail? ==>
      Wait(c, Streak(c, log[..i], key), log[i].now) == 0
  }

  /**
   Someone who respects every wait still pays all of them: a run of n failures that count together
   spans at least the sum of the delays.
   */
  lemma {:induction false} GuessingTakesTime<K(!new)>(c: Config, log: seq<Event<K>>, key: K)
    requires Patient(c, log, key) && Streak(c, log, key) != []
    ensures var streak := Streak(c, log, key);
            streak[|streak|-1] >= streak[0] + TotalDelay(c, |streak|)
  {
    hide DelayFor;
    var n := |log| - 1;
    var init := log[..n];
    forall i | 0 <= i < n && init[i].key == key && init[i].Fail?
      ensures Wait(c, Streak(c, init[..i], key), init[i].now) == 0
    {
      assert init[..i] == log[..i] && log[i] == init[i];
    }
    var before := Streak(c, init, key);
    if before != [] { GuessingTakesTime(c, init, key); }
    assert log[n].key == key && log[n].Fail? ==> Wait(c, before, log[n].now) == 0;
  }

  // ---- what counts, and what it costs, from the log alone ------------------------------

  /** The times at which a key failed since its last success. */
  function Since<K(==)>(log: seq<Event<K>>, key: K): seq<nat> {
    if log == [] then []
    else
      var before, e := Since(log[..|log|-1], key), log[|log|-1];
      if e.key != key then before
      else if e.Succeed? then []
      else before + [e.now]
  }

  lemma SinceSnoc<K>(log: seq<Event<K>>, e: Event<K>, key: K)
    ensures Since(log + [e], key)
         == if e.key != key then Since(log, key) else if e.Succeed? then [] else Since(log, key) + [e.now]
  {
    assert (log + [e])[..|log|] == log;
  }

  /** Each of these failures came less than `forgetAfterMs` after the one before. */
  ghost predicate Steady(c: Config, times: seq<nat>) {
    forall i :: 1 <= i < |times| ==> times[i] < times[i-1] + c.forgetAfterMs
  }

  /** The latest failure always counts. */
  lemma {:induction false} LatestCounts<K>(c: Config, log: seq<Event<K>>, key: K)
    ensures var times, streak := Since(log, key), Streak(c, log, key);
            (times == [] <==> streak == []) && (times != [] ==> streak[|streak|-1] == times[|times|-1])
  {
    hide DelayFor;
    if log != [] { LatestCounts(c, log[..|log|-1], key); }
  }

  /** Failures that keep coming within the forgetting time all count, however many they are and whatever other
      keys do in between; and those from before a pause of at least the forgetting time and the longest lock
      no longer do. Here failure `k` is the first, or the first after such a pause. */
  lemma {:induction false} CountsSincePause<K>(c: Config, log: seq<Event<K>>, key: K, k: nat)
    requires k < |Since(log, key)| && Steady(c, Since(log, key)[k..])
    requires k > 0 ==> Since(log, key)[k] >= Since(log, key)[k-1] + Max(c.forgetAfterMs, c.maxDelayMs)
    ensures Streak(c, log, key) == Since(log, key)[k..]
  {
    hide DelayFor, Streak, Since, Steady, ForgetAt;
    assert log != [] by { NoLogNoTimes(log, key); }
    var init, e := log[..|log|-1], log[|log|-1];
    var before := Since(init, key);
    assert log == init + [e];
    LogSnoc(c, init, e, key);
    SinceSnoc(init, e, key);
    LatestCounts(c, init, key);
    if e.key != key {
      CountsSincePause(c, init, key, k);
    } else {
      var times := before + [e.now];
      if k == |before| {
        if k > 0 { PauseForgets(c, Streak(c, init, key), e.now); }
        assert times[k..] == [e.now];
      } else {
        assert times[k..] == before[k..] + [e.now];
        SteadySnoc(c, before[k..], e.now);
        CountsSincePause(c, init, key, k);
        PauseForgets(c, before[k..], e.now);
      }
    }
  }

  lemma NoLogNoTimes<K>(log: seq<Event<K>>, key: K)
    ensures log == [] ==> Since(log, key) == []
  {}

  /** A pause of the forgetting time and the longest lock ends any streak; less than the forgetting time, none. */
  lemma PauseForgets(c: Config, streak: seq<nat>, now: nat)
    requires streak != []
    ensures now >= streak[|streak|-1] + Max(c.forgetAfterMs, c.maxDelayMs) ==> ForgetAt(c, streak) <= now
    ensures now < streak[|streak|-1] + c.forgetAfterMs ==> ForgetAt(c, streak) > now
  {
    hide Pow2;
    DelayLaw(c, |streak|);
  }

  lemma SteadySnoc(c: Config, times: seq<nat>, now: nat)
    requires Steady(c, times + [now])
    ensures Steady(c, times) && (times != [] ==> now < times[|times|-1] + c.forgetAfterMs)
  {
    var longer := times + [now];
    assert forall i :: 0 <= i < |times| ==> longer[i] == times[i];
    assert longer[|times|] == now;
  }

  /** With no such pause since the last success they all count. */
  lemma SteadyCounts<K>(c: Config, log: seq<Event<K>>, key: K)
    requires Steady(c, Since(log, key))
    ensures Streak(c, log, key) == Since(log, key)
    ensures |Streak(c, log, key)| == |Since(log, key)|
  {
    hide Streak, Since;
    LatestCounts(c, log, key);
    assert Since(log, key) != [] ==> Since(log, key)[0..] == Since(log, key);
    if Since(log, key) != [] { CountsSincePause(c, log, key, 0); }
  }

  /** The wait after n failures: nothing below the threshold, then the base delay doubled once per further
      failure, at most twenty times and at most to the maximum. */
  lemma DelayLaw(c: Config, n: nat)
    ensures n < c.threshold ==> DelayFor(c, n) == 0
    ensures n >= c.threshold ==> DelayFor(c, n) == Min(c.maxDelayMs, c.baseDelayMs * Pow2(Min(n - c.threshold, 20)))
    ensures Pow2(0) == 1 && Pow2(n + 1) == 2 * Pow2(n)
  {}

  /** Milliseconds are told in the least number of whole seconds that covers them. */
  lemma SecondsLaw(ms: nat)
    ensures 1000 * CeilSeconds(ms) >= ms
    ensures CeilSeconds(ms) > 0 ==> 1000 * (CeilSeconds(ms) - 1) < ms
  {}

  /** The next failure: it is one more as long as the last one is within the forgetting time or its lock has
      not run out; after a longer pause it is the first again. */
  lemma NextCount<K>(c: Config, log: seq<Event<K>>, key: K, now: nat)
    requires Streak(c, log, key) != []
    ensures var times := Streak(c, log, key);
            var n, last := |times|, times[|times|-1];
            var lock := if n < c.threshold then 0
                        else Min(c.maxDelayMs, c.baseDelayMs * Pow2(Min(n - c.threshold, 20)));
            Streak(c, log + [Fail(key, now)], key)
            == if now < last + c.forgetAfterMs || now < last + lock then times + [now] else [now]
  {
    hide Pow2;
    LogSnoc(c, log, Fail(key, now), key);
    DelayLaw(c, |Streak(c, log, key)|);
  }

  /** And the wait: for n failures that count, at any time from the last of them on, nobody waits below the
      threshold, and at or above it exactly the least number of seconds until the last one's lock runs out. */
  lemma WaitLaw<K>(c: Config, log: seq<Event<K>>, key: K, now: nat)
    requires Streak(c, log, key) != []
    requires now >= Streak(c, log, key)[|Streak(c, log, key)|-1]
    ensures var times := Streak(c, log, key);
            var n, last, w := |times|, times[|times|-1], Wait(c, times, now);
            && (n < c.threshold ==> w == 0)
            && (n >= c.threshold ==>
                  var free := last + Min(c.maxDelayMs, c.baseDelayMs * Pow2(Min(n - c.threshold, 20)));
                  1000 * w >= free - now && (w > 0 ==> 1000 * (w - 1) < free - now))
  {
    hide Pow2, Streak;
    DelayLaw(c, |Streak(c, log, key)|);
  }
}
