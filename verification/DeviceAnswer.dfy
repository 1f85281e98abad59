/** When a registration's answer "new" or "not new" tells the truth about the row it commits. */
module DeviceAnswer {
  import opened Bytes
  import opened Devices
  import opened DeviceCap

  /** The answer a committing registration is about to give is the right one. */
  predicate Truthful(s: State, t: nat)
    requires t in s.txns && s.txns[t].phase.Written?
  {
    s.txns[t].phase.isNew <==> s.txns[t].key !in s.rows
  }

  /** An answer that the look-up gave stays right until the commit: "new" as long as registrations are
      serialised, "not new" as long as nobody deletes the row either. */
  ghost predicate Settled(calm: bool, s: State, x: Txn) {
    && (!x.phase.Started? ==> x.held)
    && (x.phase.Looked? || x.phase.Written? ==>
          && (x.phase.isNew ==> x.key !in s.rows)
          && (calm ==> x.key !in s.rows ==> x.phase.isNew))
  }

  lemma SettledKept(cap: nat, calm: bool, s: State, e: Event, u: nat)
    requires Unique(s) && Enabled(s, e) && Rules(0, calm).Allow(s, e)
    requires forall t :: t in s.txns ==> Settled(calm, s, s.txns[t])
    requires u in Apply(cap, s, e).txns
    ensures Settled(calm, Apply(cap, s, e), Apply(cap, s, e).txns[u])
  {
    hide NoOneElseHolds, AccountFree, RowFree, NoWriter, Backed, RowsSound, MailboxTaken, Others, Of, Unserialised;
    if u in s.txns {
      assert Settled(calm, s, s.txns[u]);
      if e.Commit? && u != e.t {
        assert Settled(calm, s, s.txns[e.t]) && Compatible(s.txns[e.t], s.txns[u]);
      }
    }
  }

  lemma {:induction false} AllSettled(cap: nat, calm: bool, s: State, n: nat)
    requires Reachable(cap, Rules(0, calm), s, n)
    ensures forall t :: t in s.txns ==> Settled(calm, s, s.txns[t])
    decreases n
  {
    hide Apply, Enabled, Unique, Settled;
    if n > 0 {
      var r := Rules(0, calm);
      var p, e :| Reachable(cap, r, p, n - 1) && Enabled(p, e) && r.Allow(p, e) && s == Apply(cap, p, e);
      AllSettled(cap, calm, p, n - 1);
      MailboxesUnique(cap, r, p, n - 1);
      forall u | u in s.txns ensures Settled(calm, s, s.txns[u]) { SettledKept(cap, calm, p, e, u); }
    }
  }

  /** While registrations are serialised, an answer "new" means a row is really added. */
  lemma NewMeansAdded(cap: nat, calm: bool, s: State, n: nat, t: nat)
    requires Reachable(cap, Rules(0, calm), s, n) && Enabled(s, Commit(t)) && s.txns[t].phase.isNew
    ensures s.txns[t].key !in s.rows
  {
    hide Reachable;
    AllSettled(cap, calm, s, n);
    assert Settled(calm, s, s.txns[t]);
  }

  /** Alone with the account there, a registration of alice's device 0 gets past its count. */
  lemma CountsFirst(cap: nat, rules: Rules, s: State, n: nat, t: nat)
    requires Reachable(cap, rules, s, n) && t !in s.txns && s.accounts == {"alice"}
    requires Quiet(s) && s.rows.Keys <= {Nth(0)}
    ensures Reachable(cap, rules, s.(txns := s.txns[t := Txn(Nth(0), PLAIN, true, Counted)]), n + 3)
  {
    hide Reachable, Quiet;
    assert Others(s.rows, Nth(0)) == {};
    CountsLocked(cap, rules, s, n, t, Nth(0));
  }

  /** The account with one registered device. */
  const ONE: State := State({"alice"}, map[Nth(0) := PLAIN], map[])

  lemma OneDevice(cap: nat, rules: Rules) returns (n: nat)
    ensures Reachable(cap, rules, ONE, n)
  {
    hide Reachable, Enabled;
    var s1 := Begins(cap, rules);
    CountsFirst(cap, rules, s1, 1, 0);
    var s4 := s1.(txns := map[0 := Txn(Nth(0), PLAIN, true, Counted)]);
    assert s4.txns == s1.txns[0 := Txn(Nth(0), PLAIN, true, Counted)];
    assert s4.txns - {0} == map[];
    Finishes(cap, rules, s4, 4, 0);
    n := 7;
  }

  lemma Begins(cap: nat, rules: Rules) returns (s: State)
    ensures s == State({"alice"}, map[], map[]) && Reachable(cap, rules, s, 1)
  {
    hide Reachable;
    Starts(cap, rules);
    s := Grow(cap, rules, EMPTY, 0, CreateAccount("alice"));
  }

  /** The account lock does not keep a single-statement DELETE out: the answer is "not new" and the row is
      added all the same. */
  lemma DeletedMeanwhile(cap: nat, rules: Rules) returns (s: State, n: nat)
    requires !rules.calm
    ensures Reachable(cap, rules, s, n) && Enabled(s, Commit(1)) && !Truthful(s, 1)
  {
    hide Reachable;
    n := OneDevice(cap, rules);
    CountsFirst(cap, rules, ONE, n, 1);
    s := DeletesAfterLook(cap, rules, ONE.(txns := ONE.txns[1 := Txn(Nth(0), PLAIN, true, Counted)]), n + 3);
    n := n + 6;
  }

  lemma DeletesAfterLook(cap: nat, rules: Rules, s: State, n: nat) returns (s': State)
    requires Reachable(cap, rules, s, n) && s.txns == map[1 := Txn(Nth(0), PLAIN, true, Counted)] && !rules.calm
    requires Nth(0) in s.rows && "alice" in s.accounts
    ensures Reachable(cap, rules, s', n + 3) && Enabled(s', Commit(1)) && !Truthful(s', 1)
  {
    hide Reachable, NobodyIn, Others;
    var s1 := Grow(cap, rules, s, n, Look(1));
    var s2 := Grow(cap, rules, s1, n + 1, Remove({Nth(0)}));
    s' := Grow(cap, rules, s2, n + 2, Write(1));
  }

  /** A registration that locked nothing looks, another registers the same device, and the first answers
      "new" for a row that is already there. */
  lemma RegisteredMeanwhile(cap: nat, rules: Rules) returns (s: State, n: nat)
    requires rules.unserialised > 0
    ensures Reachable(cap, rules, s, n) && Enabled(s, Commit(0)) && !Truthful(s, 0)
  {
    hide Reachable, Quiet;
    Starts(cap, rules);
    NobodyUnserialised();
    CountsUnlocked(cap, rules, EMPTY, 0, 0, Nth(0));
    var s3 := EMPTY.(txns := EMPTY.txns[0 := Txn(Nth(0), PLAIN, false, Counted)]);
    var s5 := LooksUnlocked(cap, rules, s3, 3);
    CountsFirst(cap, rules, s5, 5, 1);
    var s8 := s5.(txns := s5.txns[1 := Txn(Nth(0), PLAIN, true, Counted)]);
    assert s8.txns - {1} == s5.txns;
    Finishes(cap, rules, s8, 8, 1);
    s := WritesLate(cap, rules, State({"alice"}, map[Nth(0) := PLAIN], s5.txns), 11);
    n := 12;
  }

  lemma NobodyUnserialised()
    ensures |Unserialised(EMPTY, "alice")| == 0
  {
    assert Unserialised(EMPTY, "alice") == {};
  }

  lemma LooksUnlocked(cap: nat, rules: Rules, s: State, n: nat) returns (s': State)
    requires Reachable(cap, rules, s, n) && s == State({}, map[], map[0 := Txn(Nth(0), PLAIN, false, Counted)])
    ensures Reachable(cap, rules, s', n + 2) && Quiet(s')
    ensures s' == State({"alice"}, map[], map[0 := Txn(Nth(0), PLAIN, false, Looked(true))])
  {
    hide Reachable, Others;
    var s1 := Grow(cap, rules, s, n, CreateAccount("alice"));
    s' := Grow(cap, rules, s1, n + 1, Look(0));
  }

  lemma WritesLate(cap: nat, rules: Rules, s: State, n: nat) returns (s': State)
    requires Reachable(cap, rules, s, n)
    requires s.txns == map[0 := Txn(Nth(0), PLAIN, false, Looked(true))] && Nth(0) in s.rows
    ensures Reachable(cap, rules, s', n + 1) && Enabled(s', Commit(0)) && !Truthful(s', 0)
  {
    hide Reachable, Others;
    s' := Grow(cap, rules, s, n, Write(0));
  }

  /** The answer is right in every run exactly when every lock step finds its account and nobody deletes a
      row between its look-up and the commit. */
  lemma AnswerIsExact(cap: nat, rules: Rules)
    ensures (forall s, n, t :: Reachable(cap, rules, s, n) && Enabled(s, Commit(t)) ==> Truthful(s, t))
       <==> rules.unserialised == 0 && rules.calm
  {
    hide Reachable;
    if rules.unserialised > 0 {
      var s, n := RegisteredMeanwhile(cap, rules);
    } else if !rules.calm {
      var s, n := DeletedMeanwhile(cap, rules);
    } else {
      forall s, n, t | Reachable(cap, rules, s, n) && Enabled(s, Commit(t)) ensures Truthful(s, t) {
        AllSettled(cap, true, s, n);
        assert Settled(true, s, s.txns[t]);
      }
    }
  }
}
