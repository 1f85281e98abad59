/**
 The per-account storage quota: uploads that check and insert inside a transaction serialised by an
 advisory lock, interleaved step by step with each other, with crashes, and with deletes.
 */
module Quota {
  import opened Bytes

  type Id = string
  type Owner = string

  datatype Row = Row(id: Id, owner: Owner, size: nat)

  datatype Phase = Waiting | Locked | Summed(total: nat) | Inserted(total: nat)
  datatype Txn = Txn(row: Row, phase: Phase)

  /** `rows` is what is committed; `locks` maps each taken advisory lock to its transaction. */
  datatype State = State(rows: seq<Row>, txns: map<nat, Txn>, locks: map<int, nat>)

  /** The quota, and `hashtext` of the lock name: different owners may share a lock. */
  datatype Config = Config(quota: nat, hash: Owner -> int)

  const EMPTY: State := State([], map[], map[])

  datatype Event =
    | Begin(t: nat, row: Row)      // BEGIN; the row is what it will insert
    | Acquire(t: nat)              // pg_advisory_xact_lock, granted only when free
    | Sum(t: nat)                  // re-sum inside the lock; over quota rolls back
    | Insert(t: nat)
    | Commit(t: nat)
    | Abort(t: nat)                // error, crash or lost connection at any point
    | Delete(ids: set<Id>)         // any committed DELETE, at any moment

  function Total(rows: seq<Row>, owner: Owner): nat {
    if rows == [] then 0
    else Total(rows[..|rows|-1], owner) + if rows[|rows|-1].owner == owner then rows[|rows|-1].size else 0
  }

  function Keep(rows: seq<Row>, ids: set<Id>): seq<Row> {
    if rows == [] then []
    else
      var rest, last := Keep(rows[..|rows|-1], ids), rows[|rows|-1];
      if last.id in ids then rest else rest + [last]
  }

  ghost predicate Enabled(c: Config, s: State, e: Event) {
    match e
    case Begin(t, _) => t !in s.txns
    case Acquire(t) => t in s.txns && s.txns[t].phase.Waiting? && c.hash(s.txns[t].row.owner) !in s.locks
    case Sum(t) => t in s.txns && s.txns[t].phase.Locked?
    case Insert(t) => t in s.txns && s.txns[t].phase.Summed?
    case Commit(t) => t in s.txns && s.txns[t].phase.Inserted?
    case Abort(t) => t in s.txns
    case Delete(_) => true
  }

  /** The end of a transaction: it is gone and its lock, if it held one, is free. */
  function Ended(s: State, t: nat): State {
    s.(txns := s.txns - {t}, locks := map k | k in s.locks && s.locks[k] != t :: s.locks[k])
  }

  function InPhase(s: State, t: nat, p: Phase): State
    requires t in s.txns
  {
    s.(txns := s.txns[t := s.txns[t].(phase := p)])
  }

  ghost function Apply(c: Config, s: State, e: Event): State
    requires Enabled(c, s, e)
  {
    match e
    case Begin(t, row) => s.(txns := s.txns[t := Txn(row, Waiting)])
    case Acquire(t) => InPhase(s, t, Locked).(locks := s.locks[c.hash(s.txns[t].row.owner) := t])
    case Sum(t) =>
      var row := s.txns[t].row;
      var total := Total(s.rows, row.owner);
      if total + row.size > c.quota then Ended(s, t) else InPhase(s, t, Summed(total))
    case Insert(t) => InPhase(s, t, Inserted(s.txns[t].phase.total))
    case Commit(t) => Ended(s.(rows := s.rows + [s.txns[t].row]), t)
    case Abort(t) => Ended(s, t)
    case Delete(ids) => s.(rows := Keep(s.rows, ids))
  }

  ghost predicate HoldsLock(c: Config, s: State, t: nat)
    requires t in s.txns
  {
    var h := c.hash(s.txns[t].row.owner);
    h in s.locks && s.locks[h] == t
  }

  /** A transaction past its sum has room, counting everything committed now. */
  ghost predicate HasRoom(c: Config, s: State, t: nat)
    requires t in s.txns
  {
    var x := s.txns[t];
    x.phase.Summed? || x.phase.Inserted? ==>
      Total(s.rows, x.row.owner) <= x.phase.total && x.phase.total + x.row.size <= c.quota
  }

  ghost predicate Inv(c: Config, s: State) {
    && (forall owner :: Total(s.rows, owner) <= c.quota)
    && (forall t :: t in s.txns ==> (s.txns[t].phase.Waiting? || HoldsLock(c, s, t)) && HasRoom(c, s, t))
  }

  lemma TotalSnoc(rows: seq<Row>, row: Row, owner: Owner)
    ensures Total(rows + [row], owner) == Total(rows, owner) + if row.owner == owner then row.size else 0
  {}

  lemma {:induction false} KeepShrinks(rows: seq<Row>, ids: set<Id>, owner: Owner)
    ensures Total(Keep(rows, ids), owner) <= Total(rows, owner)
  {
    if rows != [] {
      var init := rows[..|rows|-1];
      KeepShrinks(init, ids, owner);
      TotalSnoc(Keep(init, ids), rows[|rows|-1], owner);
    }
  }

  lemma CommitKeepsInv(c: Config, s: State, t: nat)
    requires Inv(c, s) && Enabled(c, s, Commit(t))
    ensures Inv(c, Apply(c, s, Commit(t)))
  {
    var s' := Apply(c, s, Commit(t));
    var row := s.txns[t].row;
    assert HoldsLock(c, s, t) && HasRoom(c, s, t);
    forall owner ensures Total(s'.rows, owner) == Total(s.rows, owner) + if row.owner == owner then row.size else 0 {
      TotalSnoc(s.rows, row, owner);
    }
    forall u | u in s'.txns ensures (s'.txns[u].phase.Waiting? || HoldsLock(c, s', u)) && HasRoom(c, s', u) {
      assert HasRoom(c, s, u);
      if !s.txns[u].phase.Waiting? {
        assert HoldsLock(c, s, u);
        assert s.txns[u].row.owner != row.owner;
      }
    }
  }

  lemma ApplyKeepsInv(c: Config, s: State, e: Event)
    requires Inv(c, s) && Enabled(c, s, e)
    ensures Inv(c, Apply(c, s, e))
  {
    var s' := Apply(c, s, e);
    if e.Commit? {
      CommitKeepsInv(c, s, e.t);
    } else {
      if e.Delete? {
        forall owner ensures Total(s'.rows, owner) <= Total(s.rows, owner) { KeepShrinks(s.rows, e.ids, owner); }
      }
      forall u | u in s'.txns ensures (s'.txns[u].phase.Waiting? || HoldsLock(c, s', u)) && HasRoom(c, s', u) {
        if u in s.txns { assert HasRoom(c, s, u) && (s.txns[u].phase.Waiting? || HoldsLock(c, s, u)); }
      }
    }
  }

  ghost predicate Reachable(c: Config, s: State, n: nat)
    decreases n
  {
    if n == 0 then s == EMPTY
    else exists p, e :: Reachable(c, p, n - 1) && Enabled(c, p, e) && s == Apply(c, p, e)
  }

  /** In every interleaving of uploads, crashes and deletes, nobody's committed bytes exceed the quota. */
  lemma {:induction false} QuotaHolds(c: Config, s: State, n: nat)
    requires Reachable(c, s, n)
    ensures Inv(c, s)
    ensures forall owner :: Total(s.rows, owner) <= c.quota
    decreases n
  {
    hide Apply, Enabled;
    if n > 0 {
      var p, e :| Reachable(c, p, n - 1) && Enabled(c, p, e) && s == Apply(c, p, e);
      QuotaHolds(c, p, n - 1);
      ApplyKeepsInv(c, p, e);
    }
  }

  /** The lock costs nobody a fair share: an upload is refused only if, at that moment and with nothing
      else of that owner in flight past its lock, it really does not fit. */
  lemma RefusedOnlyIfOver(c: Config, s: State, n: nat, t: nat)
    requires Reachable(c, s, n) && Enabled(c, s, Sum(t))
    ensures t !in Apply(c, s, Sum(t)).txns <==> Total(s.rows, s.txns[t].row.owner) + s.txns[t].row.size > c.quota
    ensures forall u :: u in s.txns && u != t && s.txns[u].row.owner == s.txns[t].row.owner ==> s.txns[u].phase.Waiting?
  {
    QuotaHolds(c, s, n);
    forall u | u in s.txns && u != t && s.txns[u].row.owner == s.txns[t].row.owner
      ensures s.txns[u].phase.Waiting?
    {
      assert s.txns[u].phase.Waiting? || HoldsLock(c, s, u);
      assert HoldsLock(c, s, t);
    }
  }

  // ---- one upload, nobody in between ---------------------------------------------------

  /** What a delete leaves is exactly the rows it does not name. */
  lemma {:induction false} KeepExact(rows: seq<Row>, ids: set<Id>, r: Row)
    ensures multiset(Keep(rows, ids))[r] == if r.id in ids then 0 else multiset(rows)[r]
  {
    if rows != [] {
      var init, last := rows[..|rows|-1], rows[|rows|-1];
      KeepExact(init, ids, r);
      assert rows == init + [last];
    }
  }

  lemma DeleteLaw(c: Config, s: State, ids: set<Id>, r: Row)
    ensures r in Apply(c, s, Delete(ids)).rows <==> r in s.rows && r.id !in ids
  {
    KeepExact(s.rows, ids, r);
    assert r in s.rows <==> r in multiset(s.rows);
    assert r in Keep(s.rows, ids) <==> r in multiset(Keep(s.rows, ids));
  }

  /** Bytes are counted per owner, every row once. */
  lemma {:induction false} TotalIsSum(rows: seq<Row>, owner: Owner, i: nat)
    requires i < |rows|
    ensures Total(rows, owner)
         == Total(rows[..i] + rows[i+1..], owner) + if rows[i].owner == owner then rows[i].size else 0
    ensures Total([], owner) == 0
    decreases |rows|
  {
    var n := |rows| - 1;
    if i == n {
      assert rows[..n] + rows[n+1..] == rows[..n];
    } else {
      TotalIsSum(rows[..n], owner, i);
      var less := rows[..n][..i] + rows[..n][i+1..];
      assert rows[..i] + rows[i+1..] == less + [rows[n]];
      TotalSnoc(less, rows[n], owner);
    }
  }

  /** The steps of an upload that nothing interrupts: it is stored, at the end and with nothing else changed,
      exactly when it fits; otherwise everything is as before. */
  lemma UploadAlone(c: Config, s: State, t: nat, row: Row)
    requires t !in s.txns && c.hash(row.owner) !in s.locks && forall k :: k in s.locks ==> s.locks[k] != t
    ensures Enabled(c, s, Begin(t, row))
    ensures var s1 := Apply(c, s, Begin(t, row));
            && Enabled(c, s1, Acquire(t))
            && var s2 := Apply(c, s1, Acquire(t));
            && Enabled(c, s2, Sum(t))
            && var s3 := Apply(c, s2, Sum(t));
            if Total(s.rows, row.owner) + row.size > c.quota then s3 == s
            else
              && Enabled(c, s3, Insert(t))
              && var s4 := Apply(c, s3, Insert(t));
              && Enabled(c, s4, Commit(t))
              && Apply(c, s4, Commit(t)) == s.(rows := s.rows + [row])
  {
    hide Total, Keep;
    var h := c.hash(row.owner);
    var s1 := Apply(c, s, Begin(t, row));
    var s2 := Apply(c, s1, Acquire(t));
    assert s2 == State(s.rows, s.txns[t := Txn(row, Locked)], s.locks[h := t]);
    EndsClean(s, s2, h, t);
    if Total(s.rows, row.owner) + row.size <= c.quota {
      var s4 := Apply(c, Apply(c, s2, Sum(t)), Insert(t));
      EndsClean(s, s4.(rows := s.rows), h, t);
      EndsClean(s.(rows := s.rows + [row]), s4.(rows := s.rows + [row]), h, t);
    }
  }

  /** A transaction that ends leaves no trace of itself or its lock. */
  lemma EndsClean(s: State, s': State, h: int, t: nat)
    requires t !in s.txns && h !in s.locks && forall k :: k in s.locks ==> s.locks[k] != t
    requires s'.rows == s.rows && s'.locks == s.locks[h := t] && t in s'.txns && s'.txns == s.txns[t := s'.txns[t]]
    ensures Ended(s', t) == s
  {
    assert s'.txns - {t} == s.txns;
    var left := map k | k in s'.locks && s'.locks[k] != t :: s'.locks[k];
    forall k ensures k in left <==> k in s.locks {
      if k in s.locks { assert s.locks[k] != t; }
    }
    assert left == s.locks;
  }
}
