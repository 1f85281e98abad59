/**
 Attachments live as files on disk with a row each in the database. This module interleaves, one step at
 a time, uploads, row deletes with their unlinks, the orphan sweep, crashes and the clock, and finds the
 exact timing under which the sweep never takes a file that has, or will get, its row.
 */
module Files {
  import opened Bytes
  import opened Sets

  type Id = string

  datatype File = File(complete: bool, mtime: nat)

  /** A legacy row keeps its bytes in the table and never had a file. */
  datatype Row = Row(legacy: bool)

  /** `touched` is the time of the upload's last write, whether or not its file is still linked. */
  datatype Upload = Upload(ready: bool, touched: nat)

  /** The orphan sweep: directory listed; rows queried at a time; cutoff taken, with the names still to
      look at and the names found stale but not yet unlinked. */
  datatype Sweep =
    | Listed(names: set<Id>)
    | Queried(unknown: set<Id>, at: nat)
    | Sweeping(unknown: set<Id>, cutoff: int, stale: set<Id>)

  /** `used` remembers every id ever drawn; fresh ids are 18 random bytes, taken as never repeating. */
  datatype State = State(
    now: nat, used: set<Id>, disk: map<Id, File>, rows: map<Id, Row>,
    uploads: map<Id, Upload>, unlinks: set<Id>, sweeps: map<nat, Sweep>)

  /** `minAge` is the sweep's age guard. The other two bound the environment: no upload rests longer than
      `pause` between its writes or before its row commits, and a sweep takes its cutoff at most `gap`
      after the snapshot its row query read. All in milliseconds. */
  datatype Timing = Timing(minAge: nat, pause: nat, gap: nat)

  const HOUR: nat := 3600 * 1000

  datatype Event =
    | Tick
    | Start(id: Id)                // the file is created, empty
    | Write(id: Id)
    | Finish(id: Id)               // the stream closed without error
    | Insert(id: Id)               // the row commits
    | Discard(id: Id)              // stream error, empty body, over quota, insert failed
    | Unlink(id: Id)               // one pending unlink
    | Stick(id: Id)                // one pending unlink that fails, which is ignored
    | Delete(ids: set<Id>)         // DELETE ... RETURNING id, each to be unlinked
    | List(k: nat)
    | Query(k: nat)
    | Cutoff(k: nat)
    | Stat(k: nat, id: Id)
    | Take(k: nat, id: Id)         // the unlink of a stale name
    | End(k: nat)
    | Crash

  /** An upload that can still act: it has not rested longer than the timing allows. */
  predicate Live(c: Timing, s: State, id: Id) {
    id in s.uploads && s.now <= s.uploads[id].touched + c.pause
  }

  predicate Enabled(c: Timing, s: State, e: Event) {
    match e
    case Tick => true
    case Start(id) => id !in s.used
    case Write(id) => Live(c, s, id) && !s.uploads[id].ready
    case Finish(id) => Live(c, s, id) && !s.uploads[id].ready
    case Insert(id) => Live(c, s, id) && s.uploads[id].ready
    case Discard(id) => id in s.uploads
    case Unlink(id) => id in s.unlinks
    case Stick(id) => id in s.unlinks
    case Delete(_) => true
    case List(k) => k !in s.sweeps
    case Query(k) => k in s.sweeps && s.sweeps[k].Listed?
    case Cutoff(k) => k in s.sweeps && s.sweeps[k].Queried? && s.now <= s.sweeps[k].at + c.gap
    case Stat(k, id) => k in s.sweeps && s.sweeps[k].Sweeping? && id in s.sweeps[k].unknown
    case Take(k, id) => k in s.sweeps && s.sweeps[k].Sweeping? && id in s.sweeps[k].stale
    case End(k) => k in s.sweeps
    case Crash => true
  }

  function Without(s: State, id: Id): State {
    s.(disk := s.disk - {id})
  }

  function Apply(c: Timing, s: State, e: Event): State
    requires Enabled(c, s, e)
  {
    match e
    case Tick => s.(now := s.now + 1)
    case Start(id) =>
      s.(used := s.used + {id}, disk := s.disk[id := File(false, s.now)],
         uploads := s.uploads[id := Upload(false, s.now)])
    case Write(id) =>
      s.(uploads := s.uploads[id := Upload(false, s.now)],
         disk := if id in s.disk then s.disk[id := File(false, s.now)] else s.disk)
    case Finish(id) =>
      s.(uploads := s.uploads[id := s.uploads[id].(ready := true)],
         disk := if id in s.disk then s.disk[id := s.disk[id].(complete := true)] else s.disk)
    case Insert(id) => s.(rows := s.rows[id := Row(false)], uploads := s.uploads - {id})
    case Discard(id) => s.(uploads := s.uploads - {id}, unlinks := s.unlinks + {id})
    case Unlink(id) => Without(s, id).(unlinks := s.unlinks - {id})
    case Stick(id) => s.(unlinks := s.unlinks - {id})
    case Delete(ids) => s.(rows := s.rows - ids, unlinks := s.unlinks + ids * s.rows.Keys)
    case List(k) => s.(sweeps := s.sweeps[k := Listed(s.disk.Keys)])
    case Query(k) => s.(sweeps := s.sweeps[k := Queried(s.sweeps[k].names - s.rows.Keys, s.now)])
    case Cutoff(k) => s.(sweeps := s.sweeps[k := Sweeping(s.sweeps[k].unknown, s.now - c.minAge, {})])
    case Stat(k, id) =>
      var w := s.sweeps[k];
      var stale := id in s.disk && s.disk[id].mtime < w.cutoff;
      s.(sweeps := s.sweeps[k := w.(unknown := w.unknown - {id}, stale := if stale then w.stale + {id} else w.stale)])
    case Take(k, id) =>
      Without(s, id).(sweeps := s.sweeps[k := s.sweeps[k].(stale := s.sweeps[k].stale - {id})])
    case End(k) => s.(sweeps := s.sweeps - {k})
    case Crash => s.(uploads := map[], unlinks := {}, sweeps := map[])
  }

  predicate Initial(s: State) {
    && s.disk == map[] && s.uploads == map[] && s.unlinks == {} && s.sweeps == map[]
    && forall id :: id in s.rows ==> s.rows[id].legacy && id in s.used
  }

  ghost predicate Reachable(c: Timing, s: State, n: nat)
    decreases n
  {
    if n == 0 then Initial(s)
    else exists p, e :: Reachable(c, p, n - 1) && Enabled(c, p, e) && s == Apply(c, p, e)
  }

  /** What a download relies on: a row that should have a file has the whole of it. */
  ghost predicate Safe(s: State) {
    forall id :: id in s.rows && !s.rows[id].legacy ==> id in s.disk && s.disk[id].complete
  }

  // ---- the invariant ---------------------------------------------------------

  ghost predicate IdsUsed(s: State) {
    && s.rows.Keys <= s.used && s.disk.Keys <= s.used && s.uploads.Keys <= s.used && s.unlinks <= s.used
    && forall k :: k in s.sweeps ==> SweepNames(s.sweeps[k]) <= s.used
  }

  function SweepNames(w: Sweep): set<Id> {
    match w
    case Listed(names) => names
    case Queried(unknown, _) => unknown
    case Sweeping(unknown, _, stale) => unknown + stale
  }

  /** A row's file is whole and nothing is about to unlink it. */
  ghost predicate RowSound(s: State, id: Id)
    requires id in s.rows
  {
    id !in s.unlinks && id !in s.uploads && (!s.rows[id].legacy ==> id in s.disk && s.disk[id].complete)
  }

  ghost predicate UploadSound(c: Timing, s: State, id: Id)
    requires id in s.uploads
  {
    && id !in s.rows && id !in s.unlinks
    && (Live(c, s, id) ==>
          && id in s.disk && s.disk[id].mtime == s.uploads[id].touched
          && (s.uploads[id].ready ==> s.disk[id].complete))
  }

  /** A name in `unknown` with a row got the row after the snapshot, from a file written at `since` or later. */
  ghost predicate RowsYoung(s: State, unknown: set<Id>, since: int) {
    forall id :: id in unknown && id in s.rows ==> !s.rows[id].legacy && id in s.disk && s.disk[id].mtime >= since
  }

  /** Nothing found stale can be, or become, anyone's file. */
  ghost predicate Dead(c: Timing, s: State, id: Id) {
    id !in s.rows && !Live(c, s, id)
  }

  ghost predicate SweepSound(c: Timing, s: State, w: Sweep) {
    match w
    case Listed(_) => true
    case Queried(unknown, at) => at <= s.now && RowsYoung(s, unknown, at - c.pause)
    case Sweeping(unknown, cutoff, stale) =>
      && cutoff + c.minAge <= s.now
      && RowsYoung(s, unknown, cutoff)
      && forall id :: id in stale ==> Dead(c, s, id)
  }

  ghost predicate Inv(c: Timing, s: State) {
    && IdsUsed(s)
    && (forall id :: id in s.rows ==> RowSound(s, id))
    && (forall id :: id in s.uploads ==> UploadSound(c, s, id))
    && (forall k :: k in s.sweeps ==> SweepSound(c, s, s.sweeps[k]))
  }

  lemma IdsUsedKept(c: Timing, s: State, e: Event)
    requires Inv(c, s) && Enabled(c, s, e)
    ensures IdsUsed(Apply(c, s, e))
  {
    hide RowSound, UploadSound, SweepSound;
    assert forall k :: k in s.sweeps ==> SweepNames(s.sweeps[k]) <= s.used;
  }

  lemma RowSoundKept(c: Timing, s: State, e: Event, id: Id)
    requires Inv(c, s) && Enabled(c, s, e) && id in Apply(c, s, e).rows
    ensures RowSound(Apply(c, s, e), id)
  {
    hide RowsYoung;
    if id in s.rows { assert RowSound(s, id); }
    if e.Insert? { assert UploadSound(c, s, e.id); }
    if e.Take? { assert SweepSound(c, s, s.sweeps[e.k]) && Dead(c, s, e.id); }
  }

  lemma UploadSoundKept(c: Timing, s: State, e: Event, id: Id)
    requires Inv(c, s) && Enabled(c, s, e) && id in Apply(c, s, e).uploads
    ensures UploadSound(c, Apply(c, s, e), id)
  {
    hide RowsYoung;
    if id in s.uploads { assert UploadSound(c, s, id); }
    if e.Take? { assert SweepSound(c, s, s.sweeps[e.k]) && Dead(c, s, e.id); }
  }

  /** The arithmetic of the age guard: a row that lands after the snapshot has a file too young to take. */
  lemma RowsYoungKept(c: Timing, s: State, e: Event, unknown: set<Id>, since: int)
    requires Inv(c, s) && Enabled(c, s, e) && RowsYoung(s, unknown, since) && unknown <= s.used
    requires since + c.pause <= s.now
    requires e.Take? ==> Dead(c, s, e.id)
    ensures RowsYoung(Apply(c, s, e), unknown, since)
  {}

  lemma DeadKept(c: Timing, s: State, e: Event, id: Id)
    requires Enabled(c, s, e) && Dead(c, s, id) && id in s.used
    ensures Dead(c, Apply(c, s, e), id)
  {}

  /** What a sweep has concluded stays true while others act. */
  lemma SweepStaysSound(c: Timing, s: State, e: Event, w: Sweep)
    requires c.pause <= c.minAge
    requires Inv(c, s) && Enabled(c, s, e) && SweepSound(c, s, w) && SweepNames(w) <= s.used
    requires e.Take? ==> Dead(c, s, e.id)
    ensures SweepSound(c, Apply(c, s, e), w)
  {
    hide Inv, RowsYoung, Dead;
    match w
    case Listed(_) =>
    case Queried(unknown, at) => RowsYoungKept(c, s, e, unknown, at - c.pause);
    case Sweeping(unknown, cutoff, stale) =>
      RowsYoungKept(c, s, e, unknown, cutoff);
      forall id | id in stale ensures Dead(c, Apply(c, s, e), id) { DeadKept(c, s, e, id); }
  }

  /** The sweep that acts: its query, its cutoff and its next look at a file are all sound. */
  lemma SweepMovesSoundly(c: Timing, s: State, e: Event, k: nat)
    requires c.pause + c.gap <= c.minAge
    requires Inv(c, s) && Enabled(c, s, e) && k in Apply(c, s, e).sweeps
    requires (e.List? || e.Query? || e.Cutoff? || e.Stat?) && e.k == k
    ensures SweepSound(c, Apply(c, s, e), Apply(c, s, e).sweeps[k])
  {}

  lemma SweepSoundKept(c: Timing, s: State, e: Event, k: nat)
    requires c.pause + c.gap <= c.minAge
    requires Inv(c, s) && Enabled(c, s, e) && k in Apply(c, s, e).sweeps
    ensures SweepSound(c, Apply(c, s, e), Apply(c, s, e).sweeps[k])
  {
    hide Inv, IdsUsed, RowsYoung, Dead;
    if (e.List? || e.Query? || e.Cutoff? || e.Stat?) && e.k == k {
      SweepMovesSoundly(c, s, e, k);
    } else {
      SweepKnown(c, s, k);
      if e.Take? { TakenIsDead(c, s, e.k, e.id); }
      SweepStaysSound(c, s, e, s.sweeps[k]);
    }
  }

  lemma SweepKnown(c: Timing, s: State, k: nat)
    requires Inv(c, s) && k in s.sweeps
    ensures SweepSound(c, s, s.sweeps[k]) && SweepNames(s.sweeps[k]) <= s.used
  {}

  lemma TakenIsDead(c: Timing, s: State, k: nat, id: Id)
    requires Inv(c, s) && Enabled(c, s, Take(k, id))
    ensures Dead(c, s, id)
  {}

  lemma InvKept(c: Timing, s: State, e: Event)
    requires c.pause + c.gap <= c.minAge && Inv(c, s) && Enabled(c, s, e)
    ensures Inv(c, Apply(c, s, e))
  {
    hide Enabled, Apply, IdsUsed, RowSound, UploadSound, SweepSound;
    var s' := Apply(c, s, e);
    IdsUsedKept(c, s, e);
    forall id | id in s'.rows ensures RowSound(s', id) { RowSoundKept(c, s, e, id); }
    forall id | id in s'.uploads ensures UploadSound(c, s', id) { UploadSoundKept(c, s, e, id); }
    forall k | k in s'.sweeps ensures SweepSound(c, s', s'.sweeps[k]) { SweepSoundKept(c, s, e, k); }
  }

  lemma {:induction false} ReachableInv(c: Timing, s: State, n: nat)
    requires c.pause + c.gap <= c.minAge && Reachable(c, s, n)
    ensures Inv(c, s) && Safe(s)
    decreases n
  {
    hide Enabled, Apply, SweepSound;
    if n > 0 {
      var p, e :| Reachable(c, p, n - 1) && Enabled(c, p, e) && s == Apply(c, p, e);
      ReachableInv(c, p, n - 1);
      InvKept(c, p, e);
    }
    forall id | id in s.rows && !s.rows[id].legacy ensures id in s.disk && s.disk[id].complete {
      assert RowSound(s, id);
    }
  }

  // ---- and the timing is needed ----------------------------------------------

  lemma Step(c: Timing, p: State, n: nat, e: Event) returns (s: State)
    requires Reachable(c, p, n) && Enabled(c, p, e)
    ensures s == Apply(c, p, e) && Reachable(c, s, n + 1)
  {
    s := Apply(c, p, e);
  }

  lemma {:induction false} Ticks(c: Timing, s: State, n: nat, d: nat)
    requires Reachable(c, s, n)
    ensures Reachable(c, s.(now := s.now + d), n + d)
    decreases d
  {
    hide Reachable;
    if d == 0 {
      assert s == s.(now := s.now + d);
    } else {
      Ticks(c, s, n, d - 1);
      var t := Step(c, s.(now := s.now + (d - 1)), n + d - 1, Tick);
      assert t == s.(now := s.now + d);
    }
  }

  lemma StartsEmpty(c: Timing)
    ensures Reachable(c, State(0, {}, map[], map[], map[], {}, map[]), 0)
  {}

  /** An upload finished at time 0 that rests until `q`. */
  lemma Rests(c: Timing, q: nat) returns (s: State, n: nat)
    ensures Reachable(c, s, n)
    ensures s == State(q, {"f"}, map["f" := File(true, 0)], map[], map["f" := Upload(true, 0)], {}, map[])
  {
    hide Reachable;
    StartsEmpty(c);
    var s1 := Step(c, State(0, {}, map[], map[], map[], {}, map[]), 0, Start("f"));
    var s2 := Step(c, s1, 1, Finish("f"));
    Ticks(c, s2, 2, q);
    s := s2.(now := q);
    n := 2 + q;
  }

  /** A sweep whose query just misses the row, and the row. */
  lemma RowJustMissed(c: Timing, q: nat) returns (s: State, n: nat)
    requires q <= c.pause
    ensures Reachable(c, s, n) && s.now == q
    ensures s.rows == map["f" := Row(false)] && s.disk == map["f" := File(true, 0)]
    ensures s.sweeps == map[0 := Queried({"f"}, q)]
  {
    hide Reachable;
    var p, m := Rests(c, q);
    var s1 := Step(c, p, m, List(0));
    assert s1.sweeps[0] == Listed({"f"}) && {"f"} - s1.rows.Keys == {"f"};
    var s2 := Step(c, s1, m + 1, Query(0));
    s := Step(c, s2, m + 2, Insert("f"));
    n := m + 3;
  }

  lemma TooSlowIsUnsafe(c: Timing) returns (s: State, n: nat)
    requires c.pause + c.gap > c.minAge
    ensures Reachable(c, s, n) && !Safe(s)
  {
    hide Reachable;
    var q := Min(c.pause, c.minAge + 1);
    var p, m := RowJustMissed(c, q);
    var d := c.minAge + 1 - q;
    Ticks(c, p, m, d);
    var s1 := Step(c, p.(now := p.now + d), m + d, Cutoff(0));
    var s2 := Step(c, s1, m + d + 1, Stat(0, "f"));
    s := Step(c, s2, m + d + 2, Take(0, "f"));
    n := m + d + 3;
    assert "f" in s.rows && "f" !in s.disk;
  }

  /** The age guard protects every row in every run exactly when it covers the longest rest of an upload
      plus the delay between the row query and the cutoff. */
  lemma GuardIsExact(c: Timing)
    ensures (forall s, n :: Reachable(c, s, n) ==> Safe(s)) <==> c.pause + c.gap <= c.minAge
  {
    hide Reachable;
    if c.pause + c.gap <= c.minAge {
      forall s, n | Reachable(c, s, n) ensures Safe(s) { ReachableInv(c, s, n); }
    } else {
      var s, n := TooSlowIsUnsafe(c);
    }
  }

  /** The guard in use, against uploads that rest for up to an hour: safe only if the cutoff is taken in the
      very millisecond of the row query. */
  lemma HourIsNotEnough(gap: nat)
    ensures (forall s, n :: Reachable(Timing(HOUR, HOUR, gap), s, n) ==> Safe(s)) <==> gap == 0
  {
    hide Reachable;
    GuardIsExact(Timing(HOUR, HOUR, gap));
  }

  /** Under that timing a name about to be unlinked by the sweep has no row and can no longer get one. */
  lemma TakesOnlyOrphans(c: Timing, s: State, n: nat, k: nat, id: Id)
    requires c.pause + c.gap <= c.minAge && Reachable(c, s, n) && Enabled(c, s, Take(k, id))
    ensures id !in s.rows && !Enabled(c, s, Insert(id))
  {
    hide Reachable;
    ReachableInv(c, s, n);
    TakenIsDead(c, s, k, id);
  }

  // ---- single operations, nobody in between -----------------------------------

  /** An upload alone: its row and its whole file are there at the end, and nothing else has changed. */
  lemma UploadAlone(c: Timing, s: State, id: Id)
    requires id !in s.used && IdsUsed(s)
    ensures Enabled(c, s, Start(id))
    ensures var s1 := Apply(c, s, Start(id));
            && Enabled(c, s1, Write(id))
            && var s2 := Apply(c, s1, Write(id));
            && Enabled(c, s2, Finish(id))
            && var s3 := Apply(c, s2, Finish(id));
            && Enabled(c, s3, Insert(id))
            && Apply(c, s3, Insert(id))
               == s.(used := s.used + {id}, disk := s.disk[id := File(true, s.now)], rows := s.rows[id := Row(false)])
            && var s4 := Apply(c, s3, Discard(id));
            && Enabled(c, s4, Unlink(id))
            && Apply(c, s4, Unlink(id)) == s.(used := s.used + {id})
  {
    AddThenRemove(s.uploads, id, Upload(true, s.now));
    AddThenRemove(s.disk, id, File(true, s.now));
    assert s.unlinks + {id} - {id} == s.unlinks;
  }

  /** A delete takes exactly the rows it names, and leaves exactly their files to be unlinked; an unlink
      removes exactly its own file. */
  lemma DeleteLaw(c: Timing, s: State, ids: set<Id>, id: Id)
    ensures var s' := Apply(c, s, Delete(ids));
            && (id in s'.rows <==> id in s.rows && id !in ids) && s'.disk == s.disk
            && (id in s'.unlinks <==> id in s.unlinks || (id in s.rows && id in ids))
    ensures Enabled(c, s, Unlink(id))
         ==> Apply(c, s, Unlink(id)) == s.(disk := s.disk - {id}, unlinks := s.unlinks - {id})
  {}

  /** A sweep alone looks at exactly the files without a row, and of those finds stale exactly the ones last
      written more than `minAge` ago; those, and nothing else, it takes. */
  lemma SweepAlone(c: Timing, s: State, k: nat, id: Id)
    requires k !in s.sweeps
    ensures var s1 := Apply(c, s, List(k));
            var s2 := Apply(c, s1, Query(k));
            && Enabled(c, s2, Cutoff(k))
            && var s3 := Apply(c, s2, Cutoff(k));
            && (Enabled(c, s3, Stat(k, id)) <==> id in s.disk && id !in s.rows)
            && (Enabled(c, s3, Stat(k, id)) ==>
                  var s4 := Apply(c, s3, Stat(k, id));
                  && (Enabled(c, s4, Take(k, id)) <==> s.disk[id].mtime + c.minAge < s.now)
                  && (Enabled(c, s4, Take(k, id)) ==>
                        var s5 := Apply(c, s4, Take(k, id));
                        s5.disk == s.disk - {id} && s5.rows == s.rows))
  {}

  // ---- the operations, one at a time -----------------------------------------

  /** How `streamToFile` ended; on failure it has removed the partial file itself. */
  datatype Streamed = Received(size: nat) | TooLarge | Broken

  /** What `saveFileMetaChecked` reports: stored, refused for quota, or threw (rolled back). */
  datatype Saved = Stored | Refused | Threw

  /** The attachment directory and table of one server. `stuck` names the files that cannot be looked at or
      unlinked just now; every such failure is swallowed. */
  class FileStore {
    var disk: map<Id, File>
    var rows: map<Id, Row>

    /** The orphan sweep run with nothing else going on: what is left is exactly the files with a row, the
        files younger than the cutoff and the stuck ones, and the count returned is the number removed. */
    method ReconcileOrphanFiles(now: nat, minAge: nat, stuck: set<Id>) returns (removed: nat)
      modifies this`disk
      ensures disk == map id | id in old(disk) && (id in rows || old(disk[id]).mtime >= now - minAge || id in stuck)
                             :: old(disk[id])
      ensures removed == |old(disk)| - |disk|
    {
      removed := 0;
      var names := disk.Keys;
      if names == {} { return; }
      var known := names * rows.Keys;
      var cutoff := now - minAge;
      var left := names;
      while left != {}
        invariant left <= names && left <= disk.Keys <= names && removed == |names| - |disk.Keys|
        invariant forall id :: id in disk ==> disk[id] == old(disk[id])
        invariant forall id :: id in names && id !in left ==>
                    (id in disk <==> id in known || old(disk[id]).mtime >= cutoff || id in stuck)
        decreases left
      {
        var name :| name in left;
        if name !in known && name !in stuck && disk[name].mtime < cutoff {
          disk := disk - {name};
          removed := removed + 1;
        }
        left := left - {name};
      }
    }

    /** `unlinkQuiet` */
    method UnlinkQuiet(id: Id, stuck: set<Id>)
      modifies this`disk
      ensures disk == if id in stuck then old(disk) else old(disk) - {id}
    {
      if id !in stuck { disk := disk - {id}; }
    }

    /** DELETE ... RETURNING id, then one unlink per returned row: the matching rows go for good, their files
        unless stuck, and every other file and row stays. */
    method DeleteFilesWhere(ids: set<Id>, stuck: set<Id>)
      modifies this
      ensures rows == old(rows) - ids
      ensures disk == old(disk) - (ids * old(rows).Keys - stuck)
    {
      var returned := ids * rows.Keys;
      rows := rows - ids;
      var left := returned;
      while left != {}
        invariant left <= returned
        invariant rows == old(rows) - ids
        invariant disk == old(disk) - (returned - left - stuck)
        decreases left
      {
        var id :| id in left;
        UnlinkQuiet(id, stuck);
        left := left - {id};
      }
    }

    /** A failed stream leaves at most an unfinished file without a row, and that only if it is stuck. */
    method StreamToFile(id: Id, now: nat, body: Streamed, stuck: set<Id>)
      requires id !in disk
      modifies this`disk
      ensures disk == if body.Received? then old(disk)[id := File(true, now)]
                      else if id in stuck then old(disk)[id := File(false, now)]
                      else old(disk)
    {
      disk := disk[id := File(false, now)];
      if body.Received? {
        disk := disk[id := File(true, now)];
      } else {
        UnlinkQuiet(id, stuck);
      }
    }

    /** The upload route, from the stream to the answer: 200 exactly when the row and its whole file are
        both there; any other answer leaves the table as it was, and the disk too but for an orphan that
        could not be unlinked. */
    method Upload(id: Id, now: nat, body: Streamed, saved: Saved, stuck: set<Id>) returns (status: nat)
      requires id !in disk && id !in rows
      modifies this
      ensures status == 200 <==> body.Received? && body.size > 0 && saved.Stored?
      ensures status == 400 <==> body == Received(0)
      ensures status == 413 <==> body.TooLarge? || (body.Received? && body.size > 0 && saved.Refused?)
      ensures status == 500 <==> body.Broken? || (body.Received? && body.size > 0 && saved.Threw?)
      ensures status == 200 ==> rows == old(rows)[id := Row(false)] && disk == old(disk)[id := File(true, now)]
      ensures status != 200 ==> rows == old(rows)
      ensures status != 200 ==> disk == if id in stuck then old(disk)[id := File(body.Received?, now)] else old(disk)
    {
      StreamToFile(id, now, body, stuck);
      match body
      case TooLarge => return 413;
      case Broken => return 500;
      case Received(size) =>
        if size == 0 {
          UnlinkQuiet(id, stuck);
          return 400;
        }
        match saved
        case Stored => rows := rows[id := Row(false)]; return 200;
        case Threw => UnlinkQuiet(id, stuck); return 500;
        case Refused => UnlinkQuiet(id, stuck); return 413;
    }
  }
}
