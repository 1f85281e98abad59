/**
 What the registration transaction promises and exactly when: how far an account can get past its device
 cap, and when the answer "new" or "not new" is right.
 */
module DeviceCap {
  import opened Bytes
  import opened Sets
  import opened Devices

  // ---- the cap ---------------------------------------------------------------

  /** The account's registrations past their count. */
  function Past(s: State, user: Name): set<nat> {
    set t | t in s.txns && s.txns[t].key.0 == user
            && (s.txns[t].phase.Counted? || s.txns[t].phase.Looked? || s.txns[t].phase.Written?)
  }

  function KeysOf(s: State, ts: set<nat>): set<Key>
    requires ts <= s.txns.Keys
  {
    set t | t in ts :: s.txns[t].key
  }

  /** The rows an account has, or may still get without being counted again. */
  function Claimed(s: State, user: Name): set<Key> {
    Of(s.rows, user) + KeysOf(s, Past(s, user))
  }

  ghost predicate Bounded(cap: nat, u: nat, s: State, user: Name) {
    |Unserialised(s, user)| <= u && (cap > 0 ==> |Claimed(s, user)| <= cap + u)
  }

  lemma {:induction false} FewKeys(s: State, ts: set<nat>)
    requires ts <= s.txns.Keys
    ensures |KeysOf(s, ts)| <= |ts|
  {
    if ts == {} {
      assert KeysOf(s, ts) == {};
    } else {
      var t :| t in ts;
      FewKeys(s, ts - {t});
      assert KeysOf(s, ts) == KeysOf(s, ts - {t}) + {s.txns[t].key};
    }
  }

  /** Of those past their count, all but one are unserialised. */
  lemma FewPast(s: State, user: Name)
    requires Unique(s)
    ensures |Past(s, user)| <= |Unserialised(s, user)| + 1
  {
    var held := set t | t in Past(s, user) && s.txns[t].held;
    if held == {} {
      forall t | t in Past(s, user) ensures t in Unserialised(s, user) { assert t !in held; }
      SubsetSize(Past(s, user), Unserialised(s, user));
    } else {
      var t :| t in held;
      forall u | u in held ensures u == t {
        assert u != t ==> Compatible(s.txns[t], s.txns[u]);
      }
      forall v | v in Past(s, user) ensures v in Unserialised(s, user) + {t} {
        if s.txns[v].held { assert v in held; }
      }
      SubsetSize(Past(s, user), Unserialised(s, user) + {t});
    }
  }

  /** The count is the only step that lets an account claim more. */
  lemma ClaimedShrinks(cap: nat, s: State, e: Event, user: Name)
    requires Enabled(s, e) && !e.Count?
    ensures Claimed(Apply(cap, s, e), user) <= Claimed(s, user)
  {
    hide AccountFree, NoOneElseHolds, RowFree, NoWriter, NobodyIn, MailboxTaken;
    var s' := Apply(cap, s, e);
    forall k | k in KeysOf(s', Past(s', user)) ensures k in Claimed(s, user) {
      var t :| t in Past(s', user) && s'.txns[t].key == k;
      assert t in Past(s, user) && s.txns[t].key == k;
    }
    if e.Commit? && s.txns[e.t].key.0 == user { assert e.t in Past(s, user); }
  }

  lemma UnserialisedKept(cap: nat, u: nat, calm: bool, s: State, e: Event, user: Name)
    requires Enabled(s, e) && Rules(u, calm).Allow(s, e) && |Unserialised(s, user)| <= u
    ensures |Unserialised(Apply(cap, s, e), user)| <= u
  {
    hide AccountFree, NoOneElseHolds, RowFree, NoWriter, NobodyIn, MailboxTaken, Undercuts, Others;
    var s' := Apply(cap, s, e);
    if MissesLock(s, e) && s.txns[e.t].key.0 == user {
      SubsetSize(Unserialised(s', user), Unserialised(s, user) + {e.t});
    } else {
      SubsetSize(Unserialised(s', user), Unserialised(s, user));
    }
  }

  /** A registration that passes its count finds fewer than `cap` others; it and all that may still land
      add at most one for each of them. */
  lemma CountPasses(cap: nat, u: nat, s: State, t: nat)
    requires Enabled(s, Count(t)) && cap > 0 && t in Apply(cap, s, Count(t)).txns
    requires Unique(Apply(cap, s, Count(t)))
    requires |Unserialised(Apply(cap, s, Count(t)), s.txns[t].key.0)| <= u
    ensures |Claimed(Apply(cap, s, Count(t)), s.txns[t].key.0)| <= cap + u
  {
    hide Unique, Unserialised;
    var s', key := Apply(cap, s, Count(t)), s.txns[t].key;
    var past := Past(s', key.0);
    FewPast(s', key.0);
    FewKeys(s', past);
    assert t in past && s'.txns[t].key == key;
    assert |Others(s.rows, key)| < cap;
    ClaimedByOthers(s', key);
  }

  lemma ClaimedByOthers(s: State, key: Key)
    requires key in KeysOf(s, Past(s, key.0))
    ensures |Claimed(s, key.0)| <= |Others(s.rows, key)| + |KeysOf(s, Past(s, key.0))|
  {
    var keys := KeysOf(s, Past(s, key.0));
    assert Claimed(s, key.0) == Others(s.rows, key) + keys;
  }

  lemma CountElsewhere(cap: nat, s: State, t: nat, user: Name)
    requires Enabled(s, Count(t)) && (t !in Apply(cap, s, Count(t)).txns || s.txns[t].key.0 != user)
    ensures Claimed(Apply(cap, s, Count(t)), user) <= Claimed(s, user)
  {
    hide Others;
    var s' := Apply(cap, s, Count(t));
    forall k | k in KeysOf(s', Past(s', user)) ensures k in Claimed(s, user) {
      var v :| v in Past(s', user) && s'.txns[v].key == k;
      assert v in Past(s, user) && s.txns[v].key == k;
    }
  }

  lemma BoundedKept(cap: nat, u: nat, calm: bool, s: State, e: Event, user: Name)
    requires Unique(s) && Enabled(s, e) && Rules(u, calm).Allow(s, e) && Bounded(cap, u, s, user)
    ensures Bounded(cap, u, Apply(cap, s, e), user)
  {
    hide Apply, Unique, Unserialised, Claimed, MissesLock, Undercuts, AccountFree, RowFree, NoWriter, NobodyIn;
    UnserialisedKept(cap, u, calm, s, e, user);
    if cap > 0 {
      if e.Count? {
        var s' := Apply(cap, s, e);
        if e.t in s'.txns && s.txns[e.t].key.0 == user {
          UniqueKept(cap, s, e);
          CountPasses(cap, u, s, e.t);
        } else {
          CountElsewhere(cap, s, e.t, user);
          SubsetSize(Claimed(s', user), Claimed(s, user));
        }
      } else {
        ClaimedShrinks(cap, s, e, user);
        SubsetSize(Claimed(Apply(cap, s, e), user), Claimed(s, user));
      }
    }
  }

  /** In every interleaving, an account gets past its cap by at most the number of its registrations that
      are open unserialised at once. */
  lemma {:induction false} CapLaw(cap: nat, rules: Rules, s: State, n: nat, user: Name)
    requires Reachable(cap, rules, s, n)
    ensures Bounded(cap, rules.unserialised, s, user)
    ensures cap > 0 ==> |Of(s.rows, user)| <= cap + rules.unserialised
    decreases n
  {
    hide Apply, Unique, Enabled, Unserialised, Of, Past;
    if n > 0 {
      var p, e :| Reachable(cap, rules, p, n - 1) && Enabled(p, e) && rules.Allow(p, e) && s == Apply(cap, p, e);
      CapLaw(cap, rules, p, n - 1, user);
      MailboxesUnique(cap, rules, p, n - 1);
      BoundedKept(cap, rules.unserialised, rules.calm, p, e, user);
    } else {
      NothingClaimed(user);
    }
    SubsetSize(Of(s.rows, user), Claimed(s, user));
  }

  lemma NothingClaimed(user: Name)
    ensures Claimed(EMPTY, user) == {} && Unserialised(EMPTY, user) == {}
  {}

  // ---- the bound is reached --------------------------------------------------

  lemma Grow(cap: nat, rules: Rules, p: State, n: nat, e: Event) returns (s: State)
    requires Reachable(cap, rules, p, n) && Enabled(p, e) && rules.Allow(p, e)
    ensures s == Apply(cap, p, e) && Reachable(cap, rules, s, n + 1)
  {
    s := Apply(cap, p, e);
  }

  lemma Starts(cap: nat, rules: Rules)
    ensures Reachable(cap, rules, EMPTY, 0)
  {}

  /** Distinct device ids of one account. */
  function Nth(i: nat): Key {
    ("alice", seq(i, _ => 'd'))
  }

  const PLAIN: Device := Device("", None)

  /** Open registrations past their count, none of them serialised. */
  function Waiting(lo: nat, hi: nat): map<nat, Txn> {
    map i: nat | lo <= i < hi :: Txn(Nth(i), PLAIN, false, Counted)
  }

  function Registered(m: nat): map<Key, Device> {
    if m == 0 then map[] else Registered(m - 1)[Nth(m - 1) := PLAIN]
  }

  lemma {:induction false} RegisteredKeys(m: nat)
    ensures forall k :: k in Registered(m) ==> k.0 == "alice" && |k.1| < m && Registered(m)[k] == PLAIN
    ensures |Of(Registered(m), "alice")| == m
    ensures Others(Registered(m), Nth(m)) == Of(Registered(m), "alice")
  {
    assert |Nth(m).1| == m;
    if m > 0 {
      RegisteredKeys(m - 1);
      assert |Nth(m - 1).1| == m - 1;
      assert Of(Registered(m), "alice") == Of(Registered(m - 1), "alice") + {Nth(m - 1)};
    }
  }

  /** No open registration has anything locked or written. */
  ghost predicate Quiet(s: State) {
    forall u :: u in s.txns ==> !LocksAccount(s.txns[u]) && !s.txns[u].phase.Written?
  }

  /** BEGIN, the lock step and the count, while the account row is missing. */
  lemma CountsUnlocked(cap: nat, rules: Rules, s: State, n: nat, t: nat, key: Key)
    requires Reachable(cap, rules, s, n) && t !in s.txns && s.accounts == {} && s.rows == map[]
    requires |Unserialised(s, key.0)| < rules.unserialised
    ensures Reachable(cap, rules, s.(txns := s.txns[t := Txn(key, PLAIN, false, Counted)]), n + 3)
  {
    hide Reachable, RowFree, NoWriter, NobodyIn, NoOneElseHolds, Others, Of, Unserialised, Undercuts;
    assert Others(s.rows, key) == {} by { NoRows(key); }
    var s1 := Grow(cap, rules, s, n, Begin(t, key, PLAIN));
    assert Unserialised(s1, key.0) == Unserialised(s, key.0) by { BeginningIsSerial(s, s1, t, key.0); }
    var s2 := Grow(cap, rules, s1, n + 1, Lock(t));
    var s3 := Grow(cap, rules, s2, n + 2, Count(t));
    assert s3.txns == s.txns[t := Txn(key, PLAIN, false, Counted)];
  }

  lemma NoRows(key: Key)
    ensures Others(map[], key) == {}
  {}

  lemma BeginningIsSerial(s: State, s': State, t: nat, user: Name)
    requires t !in s.txns && t in s'.txns && s'.txns == s.txns[t := s'.txns[t]] && s'.txns[t].phase.Started?
    ensures Unserialised(s', user) == Unserialised(s, user)
  {}

  /** The same with the account row there and nobody in the way. */
  lemma CountsLocked(cap: nat, rules: Rules, s: State, n: nat, t: nat, key: Key)
    requires Reachable(cap, rules, s, n) && t !in s.txns && key.0 in s.accounts && Quiet(s)
    requires cap > 0 ==> |Others(s.rows, key)| < cap
    ensures Reachable(cap, rules, s.(txns := s.txns[t := Txn(key, PLAIN, true, Counted)]), n + 3)
  {
    hide Reachable, RowFree, NoWriter, NobodyIn, NoOneElseHolds, Others, Undercuts;
    var s1 := Grow(cap, rules, s, n, Begin(t, key, PLAIN));
    var s2 := Grow(cap, rules, s1, n + 1, Lock(t));
    var s3 := Grow(cap, rules, s2, n + 2, Count(t));
    assert s3.txns == s.txns[t := Txn(key, PLAIN, true, Counted)];
  }

  /** The rest of a registration that nobody makes wait. */
  lemma Finishes(cap: nat, rules: Rules, s: State, n: nat, t: nat)
    requires Reachable(cap, rules, s, n) && t in s.txns && s.txns[t].phase.Counted?
    requires s.txns[t].key !in s.rows && s.txns[t].key.0 in s.accounts && s.txns[t].device == PLAIN
    requires Quiet(s.(txns := s.txns - {t}))
    ensures Reachable(cap, rules,
              State(s.accounts, s.rows[s.txns[t].key := s.txns[t].device], s.txns - {t}), n + 3)
  {
    hide Reachable, AccountFree, NoWriter, NobodyIn, Others, Undercuts;
    forall u | u in s.txns && u != t ensures !LocksAccount(s.txns[u]) && !s.txns[u].phase.Written? {
      assert u in (s.txns - {t});
    }
    var s1 := Grow(cap, rules, s, n, Look(t));
    var s2 := Grow(cap, rules, s1, n + 1, Write(t));
    var s3 := Grow(cap, rules, s2, n + 2, Commit(t));
    assert s3.txns == s.txns - {t};
  }

  lemma UnserialisedWaiting(lo: nat, hi: nat)
    ensures Unserialised(State({}, map[], Waiting(lo, hi)), "alice") == Waiting(lo, hi).Keys
  {
    var s := State({}, map[], Waiting(lo, hi));
    assert forall t :: t in s.txns ==> s.txns[t] == Txn(Nth(t), PLAIN, false, Counted);
  }

  lemma {:induction false} WaitingUnserialised(lo: nat, hi: nat)
    requires lo <= hi
    ensures |Unserialised(State({}, map[], Waiting(lo, hi)), "alice")| == hi - lo
    decreases hi
  {
    UnserialisedWaiting(lo, hi);
    hide Unserialised;
    if lo == hi {
      assert Waiting(lo, hi).Keys == {};
    } else {
      WaitingUnserialised(lo, hi - 1);
      UnserialisedWaiting(lo, hi - 1);
      assert Waiting(lo, hi).Keys == Waiting(lo, hi - 1).Keys + {hi - 1};
    }
  }

  /** With no account row there is nothing to lock and nothing to count. */
  lemma {:induction false} ManyCount(cap: nat, rules: Rules, lo: nat, hi: nat) returns (n: nat)
    requires cap > 0 && lo <= hi <= lo + rules.unserialised
    ensures Reachable(cap, rules, State({}, map[], Waiting(lo, hi)), n)
    decreases hi
  {
    hide Reachable, Unserialised;
    if lo == hi {
      Starts(cap, rules);
      assert Waiting(lo, hi) == map[];
      n := 0;
    } else {
      n := ManyCount(cap, rules, lo, hi - 1);
      WaitingUnserialised(lo, hi - 1);
      CountsUnlocked(cap, rules, State({}, map[], Waiting(lo, hi - 1)), n, hi - 1, Nth(hi - 1));
      assert Waiting(lo, hi) == Waiting(lo, hi - 1)[hi - 1 := Txn(Nth(hi - 1), PLAIN, false, Counted)];
      n := n + 3;
    }
  }

  lemma WaitingIsQuiet(accounts: set<Name>, rows: map<Key, Device>, lo: nat, hi: nat)
    ensures Quiet(State(accounts, rows, Waiting(lo, hi)))
  {}

  /** Once the account exists, serialised registrations fill it up to the cap, past those that wait. */
  lemma {:induction false} FillsUp(cap: nat, rules: Rules, m: nat) returns (n: nat)
    requires cap > 0 && m <= cap
    ensures Reachable(cap, rules, State({"alice"}, Registered(m), Waiting(cap, cap + rules.unserialised)), n)
    decreases m
  {
    hide Reachable, Quiet, Others, Of;
    var w := Waiting(cap, cap + rules.unserialised);
    if m == 0 {
      n := ManyCount(cap, rules, cap, cap + rules.unserialised);
      hide Waiting, Undercuts;
      var s := Grow(cap, rules, State({}, map[], w), n, CreateAccount("alice"));
      assert s == State({"alice"}, Registered(0), w);
      n := n + 1;
    } else {
      n := FillsUp(cap, rules, m - 1);
      var s := State({"alice"}, Registered(m - 1), w);
      RegisteredKeys(m - 1);
      WaitingIsQuiet({"alice"}, Registered(m - 1), cap, cap + rules.unserialised);
      CountsLocked(cap, rules, s, n, m - 1, Nth(m - 1));
      var s' := s.(txns := w[m - 1 := Txn(Nth(m - 1), PLAIN, true, Counted)]);
      assert s'.txns - {m - 1} == w;
      assert |Nth(m - 1).1| == m - 1;
      Finishes(cap, rules, s', n + 3, m - 1);
      n := n + 6;
    }
  }

  /** Then those that wait land on top. */
  lemma {:induction false} Overshoots(cap: nat, rules: Rules, v: nat) returns (n: nat)
    requires cap > 0 && v <= rules.unserialised
    ensures Reachable(cap, rules, State({"alice"}, Registered(cap + v), Waiting(cap + v, cap + rules.unserialised)), n)
    decreases v
  {
    hide Reachable, Quiet;
    if v == 0 {
      n := FillsUp(cap, rules, cap);
    } else {
      n := Overshoots(cap, rules, v - 1);
      var t, hi := cap + v - 1, cap + rules.unserialised;
      RegisteredKeys(t);
      assert |Nth(t).1| == t;
      assert Waiting(t, hi) - {t} == Waiting(t + 1, hi);
      WaitingIsQuiet({"alice"}, Registered(t), t + 1, hi);
      Finishes(cap, rules, State({"alice"}, Registered(t), Waiting(t, hi)), n, t);
      n := n + 3;
    }
  }

  /** The bound of `CapLaw` is reached, whatever the cap and however many are unserialised. */
  lemma CapIsReached(cap: nat, rules: Rules)
    requires cap > 0
    ensures exists s, n :: Reachable(cap, rules, s, n) && |Of(s.rows, "alice")| == cap + rules.unserialised
  {
    hide Reachable, Of, Registered, Waiting;
    var u := rules.unserialised;
    var n := Overshoots(cap, rules, u);
    RegisteredKeys(cap + u);
    var s := State({"alice"}, Registered(cap + u), Waiting(cap + u, cap + u));
    assert Reachable(cap, rules, s, n) && |Of(s.rows, "alice")| == cap + u;
  }

  /** The cap holds in every run if and only if no lock step ever finds its account missing. */
  lemma CapIsExact(cap: nat, rules: Rules)
    requires cap > 0
    ensures (forall s, n, user :: Reachable(cap, rules, s, n) ==> |Of(s.rows, user)| <= cap)
       <==> rules.unserialised == 0
  {
    hide Reachable, Of;
    if rules.unserialised == 0 {
      forall s, n, user | Reachable(cap, rules, s, n) ensures |Of(s.rows, user)| <= cap {
        CapLaw(cap, rules, s, n, user);
      }
    } else {
      CapIsReached(cap, rules);
    }
  }
}
