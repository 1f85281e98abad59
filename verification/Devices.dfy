/**
 Device registration: the transaction that counts, checks and upserts a device row under a row lock on
 the account, interleaved with other registrations, with deletes and with accounts coming and going.
 */
module Devices {
  import opened Bytes
  import opened Sets

  type Name = string
  type Key = (Name, Name)  // (username, device id), the primary key

  datatype Device = Device(card: string, mbkey: Option<string>)

  datatype Phase =
    | Started
    | Locked                               // past SELECT ... FOR UPDATE, which may have found no row
    | Counted
    | Looked(isNew: bool)
    | Written(isNew: bool, inserted: bool) // INSERT ... ON CONFLICT done, not yet committed

  /** `held` says whether the lock step found an account row to lock. */
  datatype Txn = Txn(key: Key, device: Device, held: bool, phase: Phase)

  datatype State = State(accounts: set<Name>, rows: map<Key, Device>, txns: map<nat, Txn>)

  const EMPTY: State := State({}, map[], map[])

  datatype Event =
    | CreateAccount(user: Name)
    | DeleteAccount(user: Name)            // its devices cascade
    | Remove(keys: set<Key>)               // removeDevice, clearDevices, clearOtherDevices
    | Begin(t: nat, key: Key, device: Device)
    | Lock(t: nat)
    | Count(t: nat)
    | Look(t: nat)
    | Write(t: nat)
    | Commit(t: nat)
    | Abort(t: nat)

  // ---- what waits for what ---------------------------------------------------

  /** FOR UPDATE, and the key share a foreign-key check takes when a row is really inserted. */
  predicate LocksAccount(x: Txn) {
    x.held || (x.phase.Written? && x.phase.inserted)
  }

  ghost predicate AccountFree(s: State, t: nat, user: Name) {
    forall u :: u in s.txns && u != t && s.txns[u].key.0 == user ==> !LocksAccount(s.txns[u])
  }

  ghost predicate NoOneElseHolds(s: State, t: nat, user: Name) {
    forall u :: u in s.txns && u != t && s.txns[u].key.0 == user ==> !s.txns[u].held
  }

  /** An uncommitted row with the same primary key or mailbox makes the writer wait. */
  predicate Collides(x: Txn, key: Key, mbkey: Option<string>) {
    x.phase.Written? && (x.key == key || (mbkey.Some? && x.device.mbkey == mbkey))
  }

  ghost predicate RowFree(s: State, t: nat, key: Key, mbkey: Option<string>) {
    forall u :: u in s.txns && u != t ==> !Collides(s.txns[u], key, mbkey)
  }

  ghost predicate NoWriter(s: State, keys: set<Key>) {
    forall u :: u in s.txns && s.txns[u].key in keys ==> !s.txns[u].phase.Written?
  }

  ghost predicate NobodyIn(s: State, user: Name) {
    forall u :: u in s.txns && s.txns[u].key.0 == user ==> !LocksAccount(s.txns[u]) && !s.txns[u].phase.Written?
  }

  ghost predicate Enabled(s: State, e: Event) {
    match e
    case CreateAccount(user) => user !in s.accounts
    case DeleteAccount(user) => NobodyIn(s, user)
    case Remove(keys) => NoWriter(s, keys * s.rows.Keys)
    case Begin(t, _, _) => t !in s.txns
    case Lock(t) =>
      && t in s.txns && s.txns[t].phase.Started?
      && (s.txns[t].key.0 in s.accounts ==> AccountFree(s, t, s.txns[t].key.0))
    case Count(t) => t in s.txns && s.txns[t].phase.Locked?
    case Look(t) => t in s.txns && s.txns[t].phase.Counted?
    case Write(t) =>
      && t in s.txns && s.txns[t].phase.Looked?
      && RowFree(s, t, s.txns[t].key, s.txns[t].device.mbkey)
      && (s.txns[t].key !in s.rows ==> NoOneElseHolds(s, t, s.txns[t].key.0))
    case Commit(t) => t in s.txns && s.txns[t].phase.Written?
    case Abort(t) => t in s.txns
  }

  // ---- what each step does ---------------------------------------------------

  function Of(rows: map<Key, Device>, user: Name): set<Key> {
    set k | k in rows && k.0 == user
  }

  /** The rows the cap counts: the account's other devices. */
  function Others(rows: map<Key, Device>, key: Key): set<Key> {
    Of(rows, key.0) - {key}
  }

  ghost predicate MailboxTaken(rows: map<Key, Device>, key: Key, mbkey: Option<string>) {
    mbkey.Some? && exists k :: k in rows && k != key && rows[k].mbkey == mbkey
  }

  function InPhase(s: State, t: nat, p: Phase): State
    requires t in s.txns
  {
    s.(txns := s.txns[t := s.txns[t].(phase := p)])
  }

  ghost function Apply(cap: nat, s: State, e: Event): State
    requires Enabled(s, e)
  {
    match e
    case CreateAccount(user) => s.(accounts := s.accounts + {user})
    case DeleteAccount(user) =>
      s.(accounts := s.accounts - {user}, rows := map k | k in s.rows && k.0 != user :: s.rows[k])
    case Remove(keys) => s.(rows := s.rows - keys)
    case Begin(t, key, device) => s.(txns := s.txns[t := Txn(key, device, false, Started)])
    case Lock(t) =>
      s.(txns := s.txns[t := s.txns[t].(held := s.txns[t].key.0 in s.accounts, phase := Locked)])
    case Count(t) =>
      if cap > 0 && |Others(s.rows, s.txns[t].key)| >= cap then s.(txns := s.txns - {t}) else InPhase(s, t, Counted)
    case Look(t) => InPhase(s, t, Looked(s.txns[t].key !in s.rows))
    case Write(t) =>
      var x := s.txns[t];
      if MailboxTaken(s.rows, x.key, x.device.mbkey) || (x.key !in s.rows && x.key.0 !in s.accounts)
      then s.(txns := s.txns - {t})
      else InPhase(s, t, Written(x.phase.isNew, x.key !in s.rows))
    case Commit(t) => s.(rows := s.rows[s.txns[t].key := s.txns[t].device], txns := s.txns - {t})
    case Abort(t) => s.(txns := s.txns - {t})
  }

  // ---- runs ------------------------------------------------------------------

  /** A lock step that finds no account row succeeds and locks nothing. */
  predicate MissesLock(s: State, e: Event) {
    e.Lock? && e.t in s.txns && s.txns[e.t].key.0 !in s.accounts
  }

  /** The account's open registrations whose lock step locked nothing: no lock serialises them. */
  function Unserialised(s: State, user: Name): set<nat> {
    set t | t in s.txns && s.txns[t].key.0 == user && !s.txns[t].held && !s.txns[t].phase.Started?
  }

  /** A delete of the very row some open registration has already looked up. */
  ghost predicate Undercuts(s: State, keys: set<Key>) {
    exists t :: t in s.txns && s.txns[t].key in keys && (s.txns[t].phase.Looked? || s.txns[t].phase.Written?)
  }

  /** What a run may contain: how many registrations of an account are open unserialised at once, and, when
      `calm`, no delete of a row between its look-up and the commit. */
  datatype Rules = Rules(unserialised: nat, calm: bool) {
    ghost predicate Allow(s: State, e: Event) {
      && (MissesLock(s, e) ==> |Unserialised(s, s.txns[e.t].key.0)| < unserialised)
      && (calm && e.Remove? ==> !Undercuts(s, e.keys))
    }
  }

  /** `s` is reached in `n` steps that keep to the rules. */
  ghost predicate Reachable(cap: nat, rules: Rules, s: State, n: nat)
    decreases n
  {
    if n == 0 then s == EMPTY
    else exists p, e ::
      Reachable(cap, rules, p, n - 1) && Enabled(p, e) && rules.Allow(p, e) && s == Apply(cap, p, e)
  }

  // ---- every row has one owner and every mailbox one row ---------------------

  /** Two open transactions never hold the same account, nor write the same row or mailbox. */
  predicate Compatible(x: Txn, y: Txn) {
    && !(x.key.0 == y.key.0 && x.held && y.held)
    && (x.phase.Written? ==> !Collides(y, x.key, x.device.mbkey))
    && (y.phase.Written? ==> !Collides(x, y.key, y.device.mbkey))
  }

  /** What an open transaction may count on while it is open. */
  ghost predicate Backed(s: State, x: Txn) {
    && (LocksAccount(x) || x.phase.Written? ==> x.key.0 in s.accounts)
    && (x.phase.Written? ==> !MailboxTaken(s.rows, x.key, x.device.mbkey))
    && (x.phase.Written? && !x.phase.inserted ==> x.key in s.rows)
  }

  ghost predicate RowsSound(s: State) {
    forall k :: k in s.rows ==> k.0 in s.accounts && !MailboxTaken(s.rows, k, s.rows[k].mbkey)
  }

  ghost predicate Unique(s: State) {
    && RowsSound(s)
    && (forall t :: t in s.txns ==> Backed(s, s.txns[t]))
    && (forall t, u :: t in s.txns && u in s.txns && t != u ==> Compatible(s.txns[t], s.txns[u]))
  }

  lemma RowsSoundKept(cap: nat, s: State, e: Event)
    requires Unique(s) && Enabled(s, e)
    ensures RowsSound(Apply(cap, s, e))
  {}

  lemma BackedKept(cap: nat, s: State, e: Event, u: nat)
    requires Unique(s) && Enabled(s, e) && u in Apply(cap, s, e).txns
    ensures Backed(Apply(cap, s, e), Apply(cap, s, e).txns[u])
  {
    hide NoOneElseHolds, AccountFree, RowFree, Others;
    if u in s.txns { assert Backed(s, s.txns[u]); }
    if e.Commit? && u != e.t { assert Compatible(s.txns[e.t], s.txns[u]); }
  }

  /** The one transaction a step changes stays compatible with every other. */
  lemma CompatibleKept(cap: nat, s: State, e: Event, t: nat, u: nat)
    requires Unique(s) && Enabled(s, e)
    requires t in Apply(cap, s, e).txns && u in Apply(cap, s, e).txns && t != u
    ensures Compatible(Apply(cap, s, e).txns[t], Apply(cap, s, e).txns[u])
  {
    hide MailboxTaken, Backed, RowsSound, NoWriter, NobodyIn, Others;
    if t in s.txns && u in s.txns { assert Compatible(s.txns[t], s.txns[u]); }
  }

  lemma UniqueKept(cap: nat, s: State, e: Event)
    requires Unique(s) && Enabled(s, e)
    ensures Unique(Apply(cap, s, e))
  {
    hide Apply, Enabled, MailboxTaken, Compatible, Backed, RowsSound;
    var s' := Apply(cap, s, e);
    RowsSoundKept(cap, s, e);
    forall u | u in s'.txns ensures Backed(s', s'.txns[u]) { BackedKept(cap, s, e, u); }
    forall t, u | t in s'.txns && u in s'.txns && t != u ensures Compatible(s'.txns[t], s'.txns[u]) {
      CompatibleKept(cap, s, e, t, u);
    }
  }

  /** In every interleaving: a row's account exists, and no mailbox key is in two device rows. */
  lemma {:induction false} MailboxesUnique(cap: nat, rules: Rules, s: State, n: nat)
    requires Reachable(cap, rules, s, n)
    ensures Unique(s)
    ensures forall j, k :: j in s.rows && k in s.rows && j != k && s.rows[j].mbkey.Some? ==>
              s.rows[j].mbkey != s.rows[k].mbkey
    ensures forall k :: k in s.rows ==> k.0 in s.accounts
    decreases n
  {
    hide Apply, Enabled, Backed, Compatible;
    if n > 0 {
      var p, e :| Reachable(cap, rules, p, n - 1) && Enabled(p, e) && rules.Allow(p, e) && s == Apply(cap, p, e);
      MailboxesUnique(cap, rules, p, n - 1);
      UniqueKept(cap, p, e);
    }
    assert forall k :: k in s.rows ==> !MailboxTaken(s.rows, k, s.rows[k].mbkey);
  }

  /** A row is written only by its own account's transaction for its own device, and otherwise only
      removed: an upsert never reaches another account's row. */
  lemma OnlyItsOwnRow(cap: nat, s: State, e: Event, k: Key)
    requires Enabled(s, e) && k in Apply(cap, s, e).rows
    requires k !in s.rows || s.rows[k] != Apply(cap, s, e).rows[k]
    ensures e.Commit? && s.txns[e.t].key == k && s.txns[e.t].device == Apply(cap, s, e).rows[k]
  {}
}
