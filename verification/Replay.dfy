/**
 The anti-replay guard of a mix node: two rolling epochs of tags, bounded in memory, as an
 approximation of the unbounded set of everything ever accepted.
 */
module Replay {
  import opened Bytes

  type Tag = bytes

  datatype Config = Config(epochMs: nat, maxPerEpoch: nat)
  datatype Guard = Guard(cur: set<Tag>, prev: set<Tag>, epochStart: Option<nat>)
  datatype Call = Call(tag: Tag, now: nat)

  const FRESH: Guard := Guard({}, {}, None)

  /** The guard after its clock and size checks, before it looks the tag up. */
  function Rolled(c: Config, g: Guard, now: nat): Guard {
    var start := match g.epochStart case None => now case Some(s) => s;
    if now - start >= c.epochMs || |g.cur| >= c.maxPerEpoch
    then Guard({}, g.cur, Some(now))
    else Guard(g.cur, g.prev, Some(start))
  }

  /** One call of `seen`: the new guard, and whether the tag is reported as a replay. */
  function Step(c: Config, g: Guard, call: Call): (Guard, bool) {
    var r := Rolled(c, g, call.now);
    if call.tag in r.cur || call.tag in r.prev then (r, true)
    else (r.(cur := r.cur + {call.tag}), false)
  }

  // ---- whole runs ------------------------------------------------------------------

  /** The guard after the first n calls of a run. */
  function Run(c: Config, calls: seq<Call>, n: nat): Guard
    requires n <= |calls|
  {
    if n == 0 then FRESH else Step(c, Run(c, calls, n - 1), calls[n-1]).0
  }

  /** Whether call i of a run was accepted as fresh. */
  predicate Accepts(c: Config, calls: seq<Call>, i: nat)
    requires i < |calls|
  {
    !Step(c, Run(c, calls, i), calls[i]).1
  }

  predicate Remembers(g: Guard, t: Tag) {
    t in g.cur || t in g.prev
  }

  ghost predicate Monotone(calls: seq<Call>) {
    forall i, j :: 0 <= i <= j < |calls| ==> calls[i].now <= calls[j].now
  }

  /** How many accepted calls for tags other than `t` lie in calls[lo..hi]. */
  function OthersAccepted(c: Config, calls: seq<Call>, t: Tag, lo: nat, hi: nat): nat
    requires hi <= |calls|
    decreases hi
  {
    if hi <= lo then 0
    else
      var before := OthersAccepted(c, calls, t, lo, hi - 1);
      if calls[hi-1].tag != t && Accepts(c, calls, hi - 1) then before + 1 else before
  }

  /** The two sets never overlap, and neither outgrows an epoch (which takes at least one tag). */
  predicate Tidy(c: Config, g: Guard) {
    var limit := Max(1, c.maxPerEpoch);
    g.cur !! g.prev && |g.cur| <= limit && |g.prev| <= limit
  }

  lemma StepKeepsTidy(c: Config, g: Guard, call: Call)
    requires Tidy(c, g)
    ensures Tidy(c, Step(c, g, call).0)
  {}

  /** In every run the guard stays within two epochs' worth of tags. */
  lemma {:induction false} Bounded(c: Config, calls: seq<Call>, n: nat)
    requires n <= |calls|
    ensures Tidy(c, Run(c, calls, n))
  {
    hide Step;
    if n > 0 {
      hide Tidy;
      Bounded(c, calls, n - 1);
      StepKeepsTidy(c, Run(c, calls, n - 1), calls[n-1]);
    }
  }

  /** Everything remembered was accepted earlier. */
  lemma {:induction false} RememberedWasAccepted(c: Config, calls: seq<Call>, n: nat, t: Tag)
    requires n <= |calls| && Remembers(Run(c, calls, n), t)
    ensures exists j :: 0 <= j < n && calls[j].tag == t && Accepts(c, calls, j)
  {
    if Remembers(Run(c, calls, n - 1), t) {
      RememberedWasAccepted(c, calls, n - 1, t);
    } else {
      assert calls[n-1].tag == t && Accepts(c, calls, n - 1);
    }
  }

  /** A fresh tag is never called a replay. */
  lemma NeverFalselyReplayed(c: Config, calls: seq<Call>, i: nat)
    requires i < |calls| && !Accepts(c, calls, i)
    ensures exists j :: 0 <= j < i && calls[j].tag == calls[i].tag && Accepts(c, calls, j)
  {
    RememberedWasAccepted(c, calls, i, calls[i].tag);
  }

  /** By call i, the window of the tag accepted at call j is over. */
  ghost predicate WindowOver(c: Config, calls: seq<Call>, j: nat, i: nat)
    requires j < i < |calls|
  {
    || calls[i].now - calls[j].now >= c.epochMs
    || OthersAccepted(c, calls, calls[j].tag, j + 1, i) >= c.maxPerEpoch
  }

  /** The tag accepted at call j is still in the current epoch, or one rotation back, in an epoch that
      began after it and holds only others accepted since. */
  ghost predicate Held(c: Config, calls: seq<Call>, j: nat, i: nat)
    requires j < i <= |calls|
  {
    var g, t := Run(c, calls, i), calls[j].tag;
    || t in g.cur
    || (t in g.prev && g.epochStart.Some? && g.epochStart.value >= calls[j].now
        && |g.cur| <= OthersAccepted(c, calls, t, j + 1, i))
  }

  /** One call either keeps the tag held or comes after the end of its window. */
  lemma HeldStep(c: Config, calls: seq<Call>, j: nat, i: nat)
    requires c.maxPerEpoch >= 1 && Monotone(calls) && j < i < |calls| && Held(c, calls, j, i)
    ensures Held(c, calls, j, i + 1) || WindowOver(c, calls, j, i)
  {}

  lemma AcceptedIsHeld(c: Config, calls: seq<Call>, j: nat)
    requires j < |calls| && Accepts(c, calls, j)
    ensures Held(c, calls, j, j + 1)
  {}

  lemma {:induction false} HeldUntilOver(c: Config, calls: seq<Call>, j: nat, i: nat)
    requires c.maxPerEpoch >= 1 && Monotone(calls) && j < i <= |calls| && Accepts(c, calls, j)
    ensures Held(c, calls, j, i) || exists k :: j < k < i && WindowOver(c, calls, j, k)
    decreases i
  {
    hide Held, WindowOver, Accepts, Run;
    if i == j + 1 {
      AcceptedIsHeld(c, calls, j);
    } else {
      HeldUntilOver(c, calls, j, i - 1);
      if Held(c, calls, j, i - 1) { HeldStep(c, calls, j, i - 1); }
    }
  }

  /** A held tag that survives the call's rotation is reported as a replay. */
  lemma HeldIsRefused(c: Config, calls: seq<Call>, j: nat, i: nat)
    requires c.maxPerEpoch >= 1 && Monotone(calls) && j < i < |calls| && Held(c, calls, j, i)
    requires calls[i].tag == calls[j].tag && Accepts(c, calls, i)
    ensures WindowOver(c, calls, j, i)
  {}

  lemma {:induction false} OthersGrow(c: Config, calls: seq<Call>, t: Tag, lo: nat, k: nat, i: nat)
    requires k <= i <= |calls|
    ensures OthersAccepted(c, calls, t, lo, k) <= OthersAccepted(c, calls, t, lo, i)
    decreases i
  {
    hide Accepts;
    if k < i { OthersGrow(c, calls, t, lo, k, i - 1); }
  }

  /**
   Against the ideal set that forgets nothing: a repeat of an accepted tag gets through only when
   epochMs has passed since, or maxPerEpoch other tags were accepted since.
   */
  lemma RepeatsAreCaught(c: Config, calls: seq<Call>, j: nat, i: nat)
    requires c.maxPerEpoch >= 1 && Monotone(calls) && j < i < |calls|
    requires calls[i].tag == calls[j].tag && Accepts(c, calls, j) && Accepts(c, calls, i)
    ensures WindowOver(c, calls, j, i)
  {
    hide Held, Run, OthersAccepted, Accepts;
    HeldUntilOver(c, calls, j, i);
    if Held(c, calls, j, i) {
      HeldIsRefused(c, calls, j, i);
    } else {
      var k :| j < k < i && WindowOver(c, calls, j, k);
      OthersGrow(c, calls, calls[j].tag, j + 1, k, i);
    }
  }

  // ---- exactly which window is guaranteed -------------------------------------------

  /** In every run, a repeat less than `ms` after its acceptance, with fewer than `others` other tags
      accepted since, is refused. */
  ghost predicate Catches(c: Config, ms: nat, others: nat) {
    forall calls: seq<Call>, j: nat, i: nat ::
      j < i < |calls| && RepeatWithin(c, calls, j, i, ms, others) ==> !Accepts(c, calls, i)
  }

  /** Call i repeats the tag accepted at call j inside such a window. */
  ghost predicate RepeatWithin(c: Config, calls: seq<Call>, j: nat, i: nat, ms: nat, others: nat)
    requires j < i < |calls|
  {
    && Monotone(calls) && calls[i].tag == calls[j].tag && Accepts(c, calls, j)
    && calls[i].now - calls[j].now < ms
    && OthersAccepted(c, calls, calls[j].tag, j + 1, i) < others
  }

  lemma {:induction false} FewOthers(c: Config, calls: seq<Call>, t: Tag, lo: nat, hi: nat)
    requires lo <= hi <= |calls|
    ensures OthersAccepted(c, calls, t, lo, hi) <= hi - lo
    decreases hi
  {
    hide Accepts;
    if lo < hi { FewOthers(c, calls, t, lo, hi - 1); }
  }

  /** Distinct tags, all presented at time 0. */
  function Nth(i: nat): Call {
    Call(Zeros(i), 0)
  }

  function Tags(lo: nat, hi: nat): set<Tag> {
    set i | lo <= i < hi :: Zeros(i)
  }

  lemma {:induction false} TagsCount(lo: nat, hi: nat)
    requires lo <= hi
    ensures |Tags(lo, hi)| == hi - lo && forall t :: t in Tags(lo, hi) <==> lo <= |t| < hi && t == Zeros(|t|)
    decreases hi
  {
    if lo == hi {
      assert Tags(lo, hi) == {};
    } else {
      TagsCount(lo, hi - 1);
      assert Tags(lo, hi) == Tags(lo, hi - 1) + {Zeros(hi - 1)};
    }
  }

  /** The guard after n distinct tags at time 0: one full epoch, then the next. */
  function Filled(c: Config, n: nat): Guard {
    var m := c.maxPerEpoch;
    if n == 0 then FRESH
    else if n <= m then Guard(Tags(0, n), {}, Some(0))
    else Guard(Tags(m, n), Tags(0, m), Some(0))
  }

  lemma TagsGrow(lo: nat, n: nat)
    requires lo <= n
    ensures Tags(lo, n + 1) == Tags(lo, n) + {Zeros(n)} && Tags(lo, lo) == {}
    ensures |Tags(lo, n)| == n - lo && Zeros(n) !in Tags(lo, n)
  {
    TagsCount(lo, n);
  }

  lemma FilledStep(c: Config, n: nat)
    requires c.maxPerEpoch >= 1 && c.epochMs >= 1 && n < 2 * c.maxPerEpoch
    ensures Step(c, Filled(c, n), Nth(n)) == (Filled(c, n + 1), false)
  {
    hide Tags;
    var m := c.maxPerEpoch;
    if n < m {
      TagsGrow(0, n);
    } else {
      TagsGrow(m, n);
      TagsCount(0, m);
    }
  }

  lemma {:induction false} RunFills(c: Config, calls: seq<Call>, n: nat)
    requires c.maxPerEpoch >= 1 && c.epochMs >= 1 && n <= 2 * c.maxPerEpoch && n <= |calls|
    requires forall i :: 0 <= i < n ==> calls[i] == Nth(i)
    ensures Run(c, calls, n) == Filled(c, n)
    ensures forall i :: 0 <= i < n ==> Accepts(c, calls, i)
  {
    hide Step, Filled, Nth;
    if n == 0 {
      assert Filled(c, 0) == FRESH by { NothingFilled(c); }
    } else {
      RunFills(c, calls, n - 1);
      FilledStep(c, n - 1);
    }
  }

  lemma NothingFilled(c: Config)
    ensures Filled(c, 0) == FRESH
  {}

  /** A tag that completes an epoch is rotated out by its own repeat, and again one epoch later. */
  function LastOfEpoch(c: Config): seq<Call>
    requires c.maxPerEpoch >= 1
  {
    var t := Zeros(c.maxPerEpoch - 1);
    seq(c.maxPerEpoch, i requires 0 <= i => Nth(i)) + [Call(t, 0), Call(t, c.epochMs)]
  }

  lemma MissedAfterOneEpoch(c: Config, ms: nat, others: nat)
    requires c.maxPerEpoch >= 1 && c.epochMs >= 1 && ms > c.epochMs && others >= 1
    ensures !Catches(c, ms, others)
  {
    hide Accepts, Run, Nth;
    var m, calls := c.maxPerEpoch, LastOfEpoch(c);
    RunFills(c, calls, m);
    TagsCount(0, m);
    RotatesTwice(c, calls, m);
    assert Monotone(calls) by { Nth0(); }
    assert OthersAccepted(c, calls, calls[m-1].tag, m, m + 1) == 0;
    assert RepeatWithin(c, calls, m - 1, m + 1, ms, others);
  }

  lemma Nth0()
    ensures forall i: nat :: Nth(i).now == 0 && Nth(i).tag == Zeros(i)
  {}

  lemma RotatesTwice(c: Config, calls: seq<Call>, m: nat)
    requires m == c.maxPerEpoch >= 1 && c.epochMs >= 1 && calls == LastOfEpoch(c)
    requires Run(c, calls, m) == Filled(c, m) && |Tags(0, m)| == m && Zeros(m - 1) in Tags(0, m)
    ensures calls[m-1].tag == calls[m].tag == calls[m+1].tag && Accepts(c, calls, m + 1)
  {
    assert Run(c, calls, m + 1) == Guard({}, Tags(0, m), Some(0));
  }

  /** A tag that completes an epoch is gone once the next epoch is full too. */
  function TwoEpochsFull(c: Config): seq<Call>
    requires c.maxPerEpoch >= 1
  {
    seq(2 * c.maxPerEpoch, i requires 0 <= i => Nth(i)) + [Nth(c.maxPerEpoch - 1)]
  }

  lemma MissedAfterManyOthers(c: Config, ms: nat, others: nat)
    requires c.maxPerEpoch >= 1 && c.epochMs >= 1 && ms >= 1 && others > c.maxPerEpoch
    ensures !Catches(c, ms, others)
  {
    hide Accepts, Run, Nth;
    var m, calls := c.maxPerEpoch, TwoEpochsFull(c);
    RunFills(c, calls, 2 * m);
    TagsCount(m, 2 * m);
    RotatedOut(c, calls, m);
    Nth0();
    FewOthers(c, calls, calls[m-1].tag, m, 2 * m);
    assert RepeatWithin(c, calls, m - 1, 2 * m, ms, others);
  }

  lemma RotatedOut(c: Config, calls: seq<Call>, m: nat)
    requires m == c.maxPerEpoch >= 1 && c.epochMs >= 1 && calls == TwoEpochsFull(c)
    requires Run(c, calls, 2 * m) == Filled(c, 2 * m) && |Tags(m, 2 * m)| == m && Zeros(m - 1) !in Tags(m, 2 * m)
    ensures Accepts(c, calls, 2 * m)
  {}

  /** Epochs of no length rotate at every call, so two calls later the tag is gone. */
  lemma MissedAtOnce(c: Config, ms: nat, others: nat)
    requires c.maxPerEpoch >= 1 && c.epochMs == 0 && ms >= 1 && others >= 1
    ensures !Catches(c, ms, others)
  {
    var calls := [Nth(0), Nth(0), Nth(0)];
    assert Run(c, calls, 0) == FRESH;
    assert Run(c, calls, 1) == Guard({Zeros(0)}, {}, Some(0));
    assert Run(c, calls, 2) == Guard({}, {Zeros(0)}, Some(0));
    assert OthersAccepted(c, calls, Zeros(0), 1, 2) == 0;
    assert RepeatWithin(c, calls, 0, 2, ms, others);
  }

  /**
   Exactly which promise the guard keeps: every repeat within `ms` and `others` is caught in every run if
   and only if the window is at most one epoch long and holds at most one epoch's worth of other tags.
   */
  lemma WindowIsExact(c: Config, ms: nat, others: nat)
    requires c.maxPerEpoch >= 1 && ms >= 1 && others >= 1
    ensures Catches(c, ms, others) <==> ms <= c.epochMs && others <= c.maxPerEpoch
  {
    hide Accepts;
    if ms <= c.epochMs && others <= c.maxPerEpoch {
      forall calls: seq<Call>, j: nat, i: nat | j < i < |calls| && RepeatWithin(c, calls, j, i, ms, others)
        ensures !Accepts(c, calls, i)
      {
        if Accepts(c, calls, i) { RepeatsAreCaught(c, calls, j, i); }
      }
    } else if c.epochMs == 0 {
      MissedAtOnce(c, ms, others);
    } else if ms > c.epochMs {
      MissedAfterOneEpoch(c, ms, others);
    } else {
      MissedAfterManyOthers(c, ms, others);
    }
  }

  /** One epoch is all that is promised: the comment on the guard speaks of about two, and no window even a
      millisecond longer than one holds, however few other tags come in between. */
  lemma OneEpochOnly(c: Config, others: nat)
    requires c.maxPerEpoch >= 1 && c.epochMs >= 1 && others >= 1
    ensures !Catches(c, c.epochMs + 1, others) && !Catches(c, 2 * c.epochMs, others)
    ensures Catches(c, c.epochMs, c.maxPerEpoch)
  {
    hide Catches;
    WindowIsExact(c, c.epochMs + 1, others);
    WindowIsExact(c, 2 * c.epochMs, others);
    WindowIsExact(c, c.epochMs, c.maxPerEpoch);
  }

  // ---- the object ------------------------------------------------------------------

  lemma {:induction false} RunPrefix(c: Config, calls: seq<Call>, more: seq<Call>, n: nat)
    requires n <= |calls| && calls <= more
    ensures Run(c, calls, n) == Run(c, more, n)
  {
    hide Step;
    if n > 0 { RunPrefix(c, calls, more, n - 1); }
  }

  /** An answer once given does not depend on later calls. */
  lemma AcceptsPrefix(c: Config, calls: seq<Call>, more: seq<Call>, i: nat)
    requires i < |calls| && calls <= more
    ensures Accepts(c, calls, i) == Accepts(c, more, i)
  {
    hide Step, Run;
    RunPrefix(c, calls, more, i);
  }

  /** One more call is one more step. */
  lemma RunSnoc(c: Config, calls: seq<Call>, call: Call)
    ensures var (g, replay) := Step(c, Run(c, calls, |calls|), call);
            && Run(c, calls + [call], |calls| + 1) == g
            && (Accepts(c, calls + [call], |calls|) <==> !replay)
  {
    hide Step;
    RunPrefix(c, calls, calls + [call], |calls|);
  }

  /** The object `makeReplayGuard` returns. `calls` is everything it was ever asked, so every law above
      about runs is a law about the object. */
  class ReplayGuard {
    const config: Config
    var cur: set<Tag>
    var prev: set<Tag>
    var epochStart: Option<nat>
    ghost var calls: seq<Call>

    function State(): Guard
      reads this
    {
      Guard(cur, prev, epochStart)
    }

    ghost predicate Valid()
      reads this
    {
      State() == Run(config, calls, |calls|)
    }

    constructor (config: Config)
      ensures Valid() && this.config == config && calls == []
    {
      this.config := config;
      cur, prev, epochStart, calls := {}, {}, None, [];
    }

    method Rotate(now: nat)
      modifies this`cur, this`prev, this`epochStart
      ensures State() == Guard({}, old(cur), Some(now))
    {
      prev := cur;
      cur := {};
      epochStart := Some(now);
    }

    /** The answer is the one the whole history of calls determines. */
    method Seen(tag: Tag, now: nat) returns (replay: bool)
      requires Valid()
      modifies this
      ensures Valid() && calls == old(calls) + [Call(tag, now)]
      ensures replay <==> !Accepts(config, calls, |calls| - 1)
    {
      hide Run, Accepts;
      RunSnoc(config, calls, Call(tag, now));
      calls := calls + [Call(tag, now)];
      if epochStart == None { epochStart := Some(now); }
      if now - epochStart.value >= config.epochMs || |cur| >= config.maxPerEpoch { Rotate(now); }
      if tag in cur || tag in prev { return true; }
      cur := cur + {tag};
      return false;
    }

    /** The number of tags remembered, and the most it can ever be. */
    method Size() returns (n: nat)
      requires Valid()
      ensures n == |cur + prev|
      ensures n <= 2 * Max(1, config.maxPerEpoch)
    {
      Bounded(config, calls, |calls|);
      n := |cur| + |prev|;
    }
  }
}
