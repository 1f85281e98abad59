/** What single operations on device rows do when nothing interrupts them, in terms of the rows alone. */
module DeviceLaws {
  import opened Bytes
  import opened Sets
  import opened Devices
  import opened DeviceCap

  /** The devices of an account other than this one. */
  function OtherDevices(rows: map<Key, Device>, key: Key): set<Key> {
    set k | k in rows && k.0 == key.0 && k.1 != key.1
  }

  /** No other row has this mailbox. */
  ghost predicate MailboxFree(rows: map<Key, Device>, key: Key, device: Device) {
    device.mbkey.Some? ==> forall k :: k in rows && k != key ==> rows[k].mbkey != device.mbkey
  }

  /** Alone, a registration is refused at the count exactly when the account already has `cap` other devices. */
  lemma CountsAlone(cap: nat, s: State, t: nat, key: Key, device: Device)
    requires Quiet(s) && t !in s.txns
    ensures Enabled(s, Begin(t, key, device))
    ensures var s1 := Apply(cap, s, Begin(t, key, device));
            && Enabled(s1, Lock(t))
            && var s2 := Apply(cap, s1, Lock(t));
            && Enabled(s2, Count(t))
            && Apply(cap, s2, Count(t))
               == if cap > 0 && |OtherDevices(s.rows, key)| >= cap then s
                  else s.(txns := s.txns[t := Txn(key, device, key.0 in s.accounts, Counted)])
  {
    hide Quiet, RowFree, NoOneElseHolds, AccountFree, NoWriter, NobodyIn, OtherDevices, Others;
    var s1 := Apply(cap, s, Begin(t, key, device));
    Locks(cap, s, s1, t);
    var s2 := Apply(cap, s1, Lock(t));
    SameOthers(s.rows, key);
    AddThenRemove(s.txns, t, s2.txns[t]);
  }

  /** Past the count it is refused exactly when the mailbox is another row's or there is no such account;
      otherwise its row is there, nothing else has changed, and it answers whether the row is new. */
  lemma FinishesAlone(cap: nat, s: State, t: nat, x: Txn)
    requires Unique(s) && Quiet(s) && t !in s.txns && x.phase.Counted?
    ensures var s3 := s.(txns := s.txns[t := x]);
            && Enabled(s3, Look(t))
            && var s4 := Apply(cap, s3, Look(t));
            && Enabled(s4, Write(t))
            && var s5 := Apply(cap, s4, Write(t));
            if !MailboxFree(s.rows, x.key, x.device) || x.key.0 !in s.accounts then s5 == s
            else
              && Enabled(s5, Commit(t)) && t in s5.txns
              && (s5.txns[t].phase.isNew <==> x.key !in s.rows)
              && Apply(cap, s5, Commit(t)) == s.(rows := s.rows[x.key := x.device])
  {
    hide Unique, Quiet, MailboxFree, MailboxTaken, RowFree, NoOneElseHolds;
    var s4 := Apply(cap, s.(txns := s.txns[t := x]), Look(t));
    assert s4 == s.(txns := s.txns[t := s4.txns[t]]);
    Writes(cap, s, s4, t);
  }

  /** The whole of a registration that nothing interrupts. */
  lemma RegistrationAlone(cap: nat, s: State, t: nat, key: Key, device: Device)
    requires Unique(s) && Quiet(s) && t !in s.txns
    ensures var refused := cap > 0 && |OtherDevices(s.rows, key)| >= cap;
            var stored := !refused && key.0 in s.accounts && MailboxFree(s.rows, key, device);
            Result(cap, s, t, key, device)
            == if stored then (s.(rows := s.rows[key := device]), Some(key !in s.rows)) else (s, None)
  {
    hide Apply, Enabled, Unique, Quiet, MailboxFree, OtherDevices;
    CountsAlone(cap, s, t, key, device);
    FinishesAlone(cap, s, t, Txn(key, device, key.0 in s.accounts, Counted));
    assert t in s.(txns := s.txns[t := Txn(key, device, key.0 in s.accounts, Counted)]).txns;
  }

  /** The state after the steps of `addDevice` taken one after the other, and its answer, None for an error. */
  ghost function Result(cap: nat, s: State, t: nat, key: Key, device: Device): (State, Option<bool>)
    requires Unique(s) && Quiet(s) && t !in s.txns
  {
    CountsAlone(cap, s, t, key, device);
    FinishesAlone(cap, s, t, Txn(key, device, key.0 in s.accounts, Counted));
    var s3 := Apply(cap, Apply(cap, Apply(cap, s, Begin(t, key, device)), Lock(t)), Count(t));
    if t !in s3.txns then (s3, None)
    else
      var s5 := Apply(cap, Apply(cap, s3, Look(t)), Write(t));
      if t !in s5.txns then (s5, None)
      else (Apply(cap, s5, Commit(t)), Some(s5.txns[t].phase.isNew))
  }

  lemma Locks(cap: nat, s: State, s1: State, t: nat)
    requires Quiet(s) && t !in s.txns && t in s1.txns && s1 == s.(txns := s.txns[t := s1.txns[t]])
    requires s1.txns[t].phase.Started?
    ensures Enabled(s1, Lock(t))
  {}

  lemma SameOthers(rows: map<Key, Device>, key: Key)
    ensures Others(rows, key) == OtherDevices(rows, key)
  {}

  /** The write and the commit of a registration nobody interferes with. */
  lemma Writes(cap: nat, s: State, s4: State, t: nat)
    requires Unique(s) && Quiet(s) && t !in s.txns && t in s4.txns
    requires s4 == s.(txns := s.txns[t := s4.txns[t]]) && s4.txns[t].phase.Looked?
    ensures Enabled(s4, Write(t))
    ensures var x, s5 := s4.txns[t], Apply(cap, s4, Write(t));
            if !MailboxFree(s.rows, x.key, x.device) || x.key.0 !in s.accounts then s5 == s
            else
              && Enabled(s5, Commit(t)) && s5.txns[t].phase.isNew == x.phase.isNew
              && Apply(cap, s5, Commit(t)) == s.(rows := s.rows[x.key := x.device])
  {
    hide Compatible, Backed;
    var x := s4.txns[t];
    AddThenRemove(s.txns, t, x);
    assert MailboxFree(s.rows, x.key, x.device) <==> !MailboxTaken(s.rows, x.key, x.device.mbkey);
    if MailboxFree(s.rows, x.key, x.device) && x.key.0 in s.accounts {
      var s5 := Apply(cap, s4, Write(t));
      AddThenRemove(s.txns, t, s5.txns[t]);
    }
  }

  /** Deletes take exactly what they name: some rows, or an account with all of its own. */
  lemma DeleteLaw(cap: nat, s: State, keys: set<Key>, user: Name, k: Key)
    requires Enabled(s, Remove(keys)) && Enabled(s, DeleteAccount(user))
    ensures k in Apply(cap, s, Remove(keys)).rows <==> k in s.rows && k !in keys
    ensures Apply(cap, s, Remove(keys)).accounts == s.accounts
    ensures k in Apply(cap, s, DeleteAccount(user)).rows <==> k in s.rows && k.0 != user
    ensures Apply(cap, s, DeleteAccount(user)).accounts == s.accounts - {user}
  {}
}
