/**
 The durable mailbox queue under overlapping deliveries: every push is a count, then an insert that first
 draws a row id and later becomes visible; drains, deletes, failures and other pushes come in between.
 An envelope is named by the number of its delivery.
 */
module Mailbox {
  import opened Bytes
  import opened Sets

  type Key = string

  /** A queued row. Row ids come from a sequence: the id is the step that drew it; `landed` is the step
      at which the row became visible. */
  datatype Row = Row(id: nat, msg: nat, landed: nat)

  /** Where every accepted envelope is. `boxes[m]` is the mailbox delivery m is for. */
  datatype State = State(
    now: nat,
    boxes: seq<Key>,
    live: set<nat>,          // taken by a callback
    waiting: set<nat>,       // push started, mailbox not counted yet
    counted: set<nat>,       // counted below the cap, row id not drawn yet
    drawn: map<nat, nat>,    // row id drawn, row not visible yet
    queue: seq<Row>,         // visible rows in id order
    refused: set<nat>,       // refused at the cap
    handed: seq<Row>,        // returned by a drain, in the order returned
    failed: set<nat>,        // the push itself failed
    deleted: seq<Row>)       // expired or removed with its account

  const EMPTY: State := State(0, [], {}, {}, {}, map[], [], {}, [], {}, [])

  /** The cap, and the most pushes that overlap on one mailbox. */
  datatype Config = Config(maxPerMailbox: nat, overlap: nat)

  datatype Event =
    | Live(k: Key)                     // some callback takes the envelope
    | Push(k: Key)                     // none does
    | Count(m: nat)
    | Draw(m: nat)
    | Land(m: nat)
    | Fail(m: nat)
    | Drain(k: Key, limit: nat)
    | Delete(ids: set<nat>)            // expiry by age, a ban, a deleted account

  // ---- rows ------------------------------------------------------------------

  /** How many of the rows carry an envelope. */
  function Copies(rows: seq<Row>, m: nat): nat {
    if rows == [] then 0 else (if rows[0].msg == m then 1 else 0) + Copies(rows[1..], m)
  }

  predicate For(boxes: seq<Key>, r: Row, k: Key) {
    r.msg < |boxes| && boxes[r.msg] == k
  }

  /** How many rows a mailbox has: `SELECT COUNT(*)`. */
  function InBox(rows: seq<Row>, boxes: seq<Key>, k: Key): nat {
    if rows == [] then 0 else (if For(boxes, rows[0], k) then 1 else 0) + InBox(rows[1..], boxes, k)
  }

  /** A row becomes visible at its place in id order. */
  function Inserted(rows: seq<Row>, r: Row): seq<Row> {
    if rows == [] || r.id < rows[0].id then [r] + rows else [rows[0]] + Inserted(rows[1..], r)
  }

  /** The first `limit` rows of a mailbox, and everything else. */
  function Picked(rows: seq<Row>, boxes: seq<Key>, k: Key, limit: nat): seq<Row> {
    if rows == [] || limit == 0 then []
    else if For(boxes, rows[0], k) then [rows[0]] + Picked(rows[1..], boxes, k, limit - 1)
    else Picked(rows[1..], boxes, k, limit)
  }

  function Rest(rows: seq<Row>, boxes: seq<Key>, k: Key, limit: nat): seq<Row> {
    if rows == [] || limit == 0 then rows
    else if For(boxes, rows[0], k) then Rest(rows[1..], boxes, k, limit - 1)
    else [rows[0]] + Rest(rows[1..], boxes, k, limit)
  }

  /** The rows whose ids are, or are not, in a set. */
  function Chosen(rows: seq<Row>, ids: set<nat>, chosen: bool): seq<Row> {
    if rows == [] then []
    else if (rows[0].id in ids) == chosen then [rows[0]] + Chosen(rows[1..], ids, chosen)
    else Chosen(rows[1..], ids, chosen)
  }

  // ---- steps -----------------------------------------------------------------

  /** The mailbox's pushes that are past their count, and all its pushes under way. */
  function PastCount(s: State, k: Key): set<nat> {
    set m | m in s.counted + s.drawn.Keys && m < |s.boxes| && s.boxes[m] == k
  }

  function Pending(s: State, k: Key): set<nat> {
    set m | m in s.waiting + s.counted + s.drawn.Keys && m < |s.boxes| && s.boxes[m] == k
  }

  predicate Enabled(c: Config, s: State, e: Event) {
    match e
    case Live(_) => true
    case Push(k) => |Pending(s, k)| < c.overlap
    case Count(m) => m in s.waiting && m < |s.boxes|
    case Draw(m) => m in s.counted
    case Land(m) => m in s.drawn
    case Fail(m) => m in s.waiting || m in s.counted || m in s.drawn
    case Drain(_, _) => true
    case Delete(_) => true
  }

  function Step(c: Config, s: State, e: Event): State
    requires Enabled(c, s, e)
  {
    match e
    case Live(k) => s.(live := s.live + {|s.boxes|}, boxes := s.boxes + [k])
    case Push(k) => s.(waiting := s.waiting + {|s.boxes|}, boxes := s.boxes + [k])
    case Count(m) =>
      if InBox(s.queue, s.boxes, s.boxes[m]) >= c.maxPerMailbox
      then s.(waiting := s.waiting - {m}, refused := s.refused + {m})
      else s.(waiting := s.waiting - {m}, counted := s.counted + {m})
    case Draw(m) => s.(counted := s.counted - {m}, drawn := s.drawn[m := s.now])
    case Land(m) =>
      s.(drawn := s.drawn - {m}, queue := Inserted(s.queue, Row(s.drawn[m], m, s.now)))
    case Fail(m) =>
      s.(waiting := s.waiting - {m}, counted := s.counted - {m}, drawn := s.drawn - {m}, failed := s.failed + {m})
    case Drain(k, limit) =>
      s.(queue := Rest(s.queue, s.boxes, k, limit), handed := s.handed + Picked(s.queue, s.boxes, k, limit))
    case Delete(ids) =>
      s.(queue := Chosen(s.queue, ids, false), deleted := s.deleted + Chosen(s.queue, ids, true))
  }

  function Apply(c: Config, s: State, e: Event): State
    requires Enabled(c, s, e)
  {
    Step(c, s, e).(now := s.now + 1)
  }

  ghost predicate Reachable(c: Config, s: State, n: nat)
    decreases n
  {
    if n == 0 then s == EMPTY
    else exists p, e :: Reachable(c, p, n - 1) && Enabled(c, p, e) && s == Apply(c, p, e)
  }

  // ---- conservation ----------------------------------------------------------

  function One(b: bool): nat {
    if b then 1 else 0
  }

  /** The number of places an envelope is in. */
  function Places(s: State, m: nat): nat {
    One(m in s.live) + One(m in s.waiting) + One(m in s.counted) + One(m in s.drawn) + One(m in s.refused)
    + One(m in s.failed) + Copies(s.queue, m) + Copies(s.handed, m) + Copies(s.deleted, m)
  }

  lemma CopiesCons(r: Row, rows: seq<Row>, m: nat)
    ensures Copies([r] + rows, m) == One(r.msg == m) + Copies(rows, m)
  {}

  lemma {:induction false} CopiesConcat(a: seq<Row>, b: seq<Row>, m: nat)
    ensures Copies(a + b, m) == Copies(a, m) + Copies(b, m)
  {
    if a == [] {
      assert a + b == b;
    } else {
      assert (a + b)[1..] == a[1..] + b;
      CopiesConcat(a[1..], b, m);
    }
  }

  lemma {:induction false} CopiesInserted(rows: seq<Row>, r: Row, m: nat)
    ensures Copies(Inserted(rows, r), m) == Copies(rows, m) + One(r.msg == m)
  {
    if rows == [] || r.id < rows[0].id {
      CopiesCons(r, rows, m);
    } else {
      CopiesInserted(rows[1..], r, m);
      CopiesCons(rows[0], Inserted(rows[1..], r), m);
    }
  }

  lemma {:induction false} CopiesSplit(rows: seq<Row>, boxes: seq<Key>, k: Key, limit: nat, m: nat)
    ensures Copies(Picked(rows, boxes, k, limit), m) + Copies(Rest(rows, boxes, k, limit), m) == Copies(rows, m)
  {
    if rows != [] && limit > 0 {
      if For(boxes, rows[0], k) {
        CopiesSplit(rows[1..], boxes, k, limit - 1, m);
        CopiesCons(rows[0], Picked(rows[1..], boxes, k, limit - 1), m);
      } else {
        CopiesSplit(rows[1..], boxes, k, limit, m);
        CopiesCons(rows[0], Rest(rows[1..], boxes, k, limit), m);
      }
    }
  }

  lemma {:induction false} CopiesChosen(rows: seq<Row>, ids: set<nat>, m: nat)
    ensures Copies(Chosen(rows, ids, true), m) + Copies(Chosen(rows, ids, false), m) == Copies(rows, m)
  {
    if rows != [] {
      CopiesChosen(rows[1..], ids, m);
      CopiesCons(rows[0], Chosen(rows[1..], ids, rows[0].id in ids), m);
    }
  }

  ghost predicate OnePlaceEach(s: State) {
    forall m: nat :: Places(s, m) == One(m < |s.boxes|)
  }

  /** No step creates, loses or copies an envelope; accepting one puts exactly that one somewhere. */
  lemma OnePlaceStep(c: Config, s: State, e: Event)
    requires Enabled(c, s, e) && OnePlaceEach(s)
    ensures OnePlaceEach(Apply(c, s, e))
  {
    hide Copies, InBox, Picked, Rest, Chosen, Inserted, Pending;
    var s' := Apply(c, s, e);
    forall m: nat ensures Places(s', m) == One(m < |s'.boxes|) {
      assert Places(s, m) == One(m < |s.boxes|);
      match e
      case Land(x) => CopiesInserted(s.queue, Row(s.drawn[x], x, s.now), m);
      case Drain(k, limit) =>
        CopiesSplit(s.queue, s.boxes, k, limit, m);
        CopiesConcat(s.handed, Picked(s.queue, s.boxes, k, limit), m);
      case Delete(ids) =>
        CopiesChosen(s.queue, ids, m);
        CopiesConcat(s.deleted, Chosen(s.queue, ids, true), m);
      case _ =>
    }
  }

  /** In every interleaving, every accepted envelope is in exactly one place: taken live, on its way to the
      queue, queued, refused, failed, handed over once, or deleted. */
  lemma {:induction false} EveryEnvelopeInOnePlace(c: Config, s: State, n: nat)
    requires Reachable(c, s, n)
    ensures OnePlaceEach(s)
    ensures forall m: nat :: m in s.live ==> Copies(s.queue, m) == Copies(s.handed, m) == 0
    ensures forall m: nat :: Copies(s.queue, m) + Copies(s.handed, m) <= 1
    decreases n
  {
    hide Apply, Enabled, Copies;
    if n > 0 {
      var p, e :| Reachable(c, p, n - 1) && Enabled(c, p, e) && s == Apply(c, p, e);
      EveryEnvelopeInOnePlace(c, p, n - 1);
      OnePlaceStep(c, p, e);
    } else {
      forall m: nat ensures Places(s, m) == 0 { NoCopies(m); }
    }
    forall m: nat
      ensures Copies(s.queue, m) + Copies(s.handed, m) <= 1
      ensures m in s.live ==> Copies(s.queue, m) == Copies(s.handed, m) == 0
    {
      assert Places(s, m) <= 1;
    }
  }

  lemma NoCopies(m: nat)
    ensures Copies([], m) == 0
  {}

  /** Only a drain or a delete takes anything out of the queue: no push evicts. */
  lemma PushEvictsNothing(c: Config, s: State, e: Event, m: nat)
    requires Enabled(c, s, e) && !e.Drain? && !e.Delete?
    ensures Copies(Apply(c, s, e).queue, m) >= Copies(s.queue, m)
  {
    if e.Land? { CopiesInserted(s.queue, Row(s.drawn[e.m], e.m, s.now), m); }
  }

  // ---- the cap ---------------------------------------------------------------

  lemma {:induction false} InBoxGrow(rows: seq<Row>, boxes: seq<Key>, k: Key, k': Key)
    ensures InBox(rows, boxes + [k'], k)
         == InBox(rows, boxes, k) + if k' == k then Copies(rows, |boxes|) else 0
  {
    if rows != [] { InBoxGrow(rows[1..], boxes, k, k'); }
  }

  lemma {:induction false} InBoxInserted(rows: seq<Row>, r: Row, boxes: seq<Key>, k: Key)
    ensures InBox(Inserted(rows, r), boxes, k) == InBox(rows, boxes, k) + One(For(boxes, r, k))
  {
    if rows == [] || r.id < rows[0].id {
      assert ([r] + rows)[1..] == rows;
    } else {
      InBoxInserted(rows[1..], r, boxes, k);
      assert ([rows[0]] + Inserted(rows[1..], r))[1..] == Inserted(rows[1..], r);
    }
  }

  lemma InBoxCons(r: Row, rows: seq<Row>, boxes: seq<Key>, k: Key)
    ensures InBox([r] + rows, boxes, k) == One(For(boxes, r, k)) + InBox(rows, boxes, k)
  {}

  lemma {:induction false} InBoxChosen(rows: seq<Row>, ids: set<nat>, boxes: seq<Key>, k: Key)
    ensures InBox(Chosen(rows, ids, false), boxes, k) <= InBox(rows, boxes, k)
  {
    if rows != [] {
      InBoxChosen(rows[1..], ids, boxes, k);
      InBoxCons(rows[0], Chosen(rows[1..], ids, false), boxes, k);
    }
  }

  /** A drain takes exactly min(limit, size) rows of its own mailbox and none of any other. */
  lemma {:induction false} DrainSize(rows: seq<Row>, boxes: seq<Key>, k: Key, limit: nat, j: Key)
    ensures |Picked(rows, boxes, k, limit)| == Min(limit, InBox(rows, boxes, k))
    ensures InBox(Rest(rows, boxes, k, limit), boxes, j)
         == InBox(rows, boxes, j) - if j == k then |Picked(rows, boxes, k, limit)| else 0
  {
    if rows != [] && limit > 0 {
      if For(boxes, rows[0], k) {
        DrainSize(rows[1..], boxes, k, limit - 1, j);
      } else {
        DrainSize(rows[1..], boxes, k, limit, j);
        InBoxCons(rows[0], Rest(rows[1..], boxes, k, limit), boxes, j);
      }
    }
  }

  ghost predicate Capped(c: Config, s: State, k: Key) {
    && InBox(s.queue, s.boxes, k) + |PastCount(s, k)| <= c.maxPerMailbox + c.overlap - 1
    && |Pending(s, k)| <= c.overlap
  }

  /** Only messages already accepted are in any of the sets. */
  ghost predicate Known(s: State) {
    && (forall m :: m in s.waiting || m in s.counted || m in s.drawn ==> m < |s.boxes|)
    && Copies(s.queue, |s.boxes|) == 0
  }

  lemma OnePlaceKnown(s: State)
    requires OnePlaceEach(s)
    ensures Known(s)
  {
    assert Places(s, |s.boxes|) == 0;
    forall m | m in s.waiting || m in s.counted || m in s.drawn ensures m < |s.boxes| {
      assert Places(s, m) == One(m < |s.boxes|);
    }
  }

  lemma AcceptPastCount(s: State, s': State, j: Key, k: Key)
    requires Known(s) && s'.boxes == s.boxes + [j] && s'.counted == s.counted && s'.drawn == s.drawn
    ensures PastCount(s', k) == PastCount(s, k)
  {}

  lemma AcceptPending(s: State, s': State, j: Key, k: Key)
    requires Known(s) && s'.boxes == s.boxes + [j] && s'.counted == s.counted && s'.drawn == s.drawn
    requires s'.waiting == s.waiting || s'.waiting == s.waiting + {|s.boxes|}
    ensures |Pending(s', k)| <= |Pending(s, k)| + if s'.waiting != s.waiting && j == k then 1 else 0
  {
    hide Copies;
    var more := if s'.waiting != s.waiting && j == k then {|s.boxes|} else {};
    forall m | m in Pending(s', k) ensures m in Pending(s, k) + more {}
    SubsetSize(Pending(s', k), Pending(s, k) + more);
  }

  lemma AcceptCapped(c: Config, s: State, e: Event, k: Key)
    requires Enabled(c, s, e) && Known(s) && Capped(c, s, k) && (e.Live? || e.Push?)
    ensures Capped(c, Apply(c, s, e), k)
  {
    hide InBox, Copies, PastCount, Pending;
    InBoxGrow(s.queue, s.boxes, k, e.k);
    AcceptPastCount(s, Apply(c, s, e), e.k, k);
    AcceptPending(s, Apply(c, s, e), e.k, k);
  }

  lemma CountCapped(c: Config, s: State, m: nat, k: Key)
    requires Enabled(c, s, Count(m)) && Capped(c, s, k)
    ensures Capped(c, Apply(c, s, Count(m)), k)
  {
    hide InBox;
    var s' := Apply(c, s, Count(m));
    SubsetSize(Pending(s', k), Pending(s, k));
    SubsetSize(PastCount(s', k), Pending(s, k));
    if s.boxes[m] != k || m !in s'.counted { SubsetSize(PastCount(s', k), PastCount(s, k)); }
  }

  lemma LandCapped(c: Config, s: State, m: nat, k: Key)
    requires Enabled(c, s, Land(m)) && Known(s) && OnePlaceEach(s) && Capped(c, s, k)
    ensures Capped(c, Apply(c, s, Land(m)), k)
  {
    hide InBox, Inserted, Copies;
    var s', r := Apply(c, s, Land(m)), Row(s.drawn[m], m, s.now);
    InBoxInserted(s.queue, r, s.boxes, k);
    assert Places(s, m) == 1;
    assert PastCount(s', k) == PastCount(s, k) - if For(s.boxes, r, k) then {m} else {};
    SubsetSize(Pending(s', k), Pending(s, k));
  }

  lemma StepCapped(c: Config, s: State, e: Event, k: Key)
    requires Enabled(c, s, e) && OnePlaceEach(s) && Capped(c, s, k)
    ensures Capped(c, Apply(c, s, e), k)
  {
    hide InBox, Copies, Inserted, Picked, Rest, Chosen, OnePlaceEach;
    OnePlaceKnown(s);
    var s' := Apply(c, s, e);
    match e
    case Live(_) => AcceptCapped(c, s, e, k);
    case Push(_) => AcceptCapped(c, s, e, k);
    case Count(m) => CountCapped(c, s, m, k);
    case Land(m) => LandCapped(c, s, m, k);
    case Drain(j, limit) => DrainSize(s.queue, s.boxes, j, limit, k);
    case Delete(ids) => InBoxChosen(s.queue, ids, s.boxes, k);
    case _ =>
      SubsetSize(PastCount(s', k), PastCount(s, k));
      SubsetSize(Pending(s', k), Pending(s, k));
  }

  /** With at most c pushes of a mailbox overlapping, its queue never exceeds the cap by more than c - 1. */
  lemma {:induction false} QueueBounded(c: Config, s: State, n: nat, k: Key)
    requires Reachable(c, s, n) && c.overlap >= 1
    ensures Capped(c, s, k)
    ensures InBox(s.queue, s.boxes, k) <= c.maxPerMailbox + c.overlap - 1
    decreases n
  {
    hide Apply, Enabled, InBox, OnePlaceEach;
    if n > 0 {
      var p, e :| Reachable(c, p, n - 1) && Enabled(c, p, e) && s == Apply(c, p, e);
      QueueBounded(c, p, n - 1, k);
      EveryEnvelopeInOnePlace(c, p, n - 1);
      StepCapped(c, p, e, k);
    } else {
      EmptyCapped(c, k);
    }
  }

  lemma EmptyCapped(c: Config, k: Key)
    requires c.overlap >= 1
    ensures Capped(c, EMPTY, k)
  {}

  /** A push is refused only when its mailbox is full at the moment it counts. */
  lemma RefusedOnlyWhenFull(c: Config, s: State, e: Event, m: nat)
    requires Enabled(c, s, e) && m in Apply(c, s, e).refused && m !in s.refused
    ensures e == Count(m) && InBox(s.queue, s.boxes, s.boxes[m]) >= c.maxPerMailbox
  {}

  // ---- the bound is reached --------------------------------------------------

  /** Reachable with one mailbox in use: `w` pushes waiting, `p` past their count, `q` rows queued. */
  ghost predicate Stage(c: Config, s: State, n: nat, w: nat, p: nat, q: nat) {
    && Reachable(c, s, n) && OnePlaceEach(s) && s.drawn == map[]
    && (forall m :: 0 <= m < |s.boxes| ==> s.boxes[m] == "k")
    && |s.waiting| == w && |s.counted| == p && InBox(s.queue, s.boxes, "k") == q
  }

  lemma Advance(c: Config, s: State, n: nat, e: Event) returns (s': State)
    requires Reachable(c, s, n) && OnePlaceEach(s) && Enabled(c, s, e)
    ensures s' == Apply(c, s, e) && Reachable(c, s', n + 1) && OnePlaceEach(s')
  {
    s' := Apply(c, s, e);
    OnePlaceStep(c, s, e);
  }

  lemma PendingSize(s: State)
    requires Known(s) && s.drawn == map[] && forall m :: 0 <= m < |s.boxes| ==> s.boxes[m] == "k"
    ensures |Pending(s, "k")| <= |s.waiting| + |s.counted|
  {
    assert Pending(s, "k") == s.waiting + s.counted;
    assert |s.waiting + s.counted| == |s.waiting| + |s.counted| - |s.waiting * s.counted|;
  }

  lemma PushStage(c: Config, s: State, n: nat, w: nat, p: nat, q: nat) returns (s': State)
    requires Stage(c, s, n, w, p, q) && w + p < c.overlap
    ensures Stage(c, s', n + 1, w + 1, p, q)
  {
    hide Reachable, OnePlaceEach, InBox, Copies, Pending;
    OnePlaceKnown(s);
    PendingSize(s);
    s' := Advance(c, s, n, Push("k"));
    InBoxGrow(s.queue, s.boxes, "k", "k");
  }

  lemma CountStage(c: Config, s: State, n: nat, w: nat, p: nat, q: nat) returns (s': State)
    requires Stage(c, s, n, w, p, q) && w > 0 && q < c.maxPerMailbox
    ensures Stage(c, s', n + 1, w - 1, p + 1, q)
  {
    hide Reachable, InBox, Copies;
    OnePlaceKnown(s);
    var m :| m in s.waiting;
    assert Places(s, m) <= 1;
    s' := Advance(c, s, n, Count(m));
  }

  lemma LandStage(c: Config, s: State, n: nat, w: nat, p: nat, q: nat) returns (s': State)
    requires Stage(c, s, n, w, p, q) && p > 0
    ensures Stage(c, s', n + 2, w, p - 1, q + 1)
  {
    hide Reachable, OnePlaceEach, InBox, Copies, Inserted;
    OnePlaceKnown(s);
    var m :| m in s.counted;
    var t := Advance(c, s, n, Draw(m));
    s' := Advance(c, t, n + 1, Land(m));
    InBoxInserted(t.queue, Row(t.drawn[m], m, t.now), t.boxes, "k");
  }

  lemma {:induction false} Filled(c: Config, q: nat) returns (s: State, n: nat)
    requires c.overlap >= 1 && q < c.maxPerMailbox
    ensures Stage(c, s, n, 0, 0, q)
  {
    if q == 0 {
      s, n := EMPTY, 0;
      EveryEnvelopeInOnePlace(c, s, 0);
    } else {
      hide Stage;
      s, n := Filled(c, q - 1);
      s := PushStage(c, s, n, 0, 0, q - 1);
      s := CountStage(c, s, n + 1, 1, 0, q - 1);
      s := LandStage(c, s, n + 2, 0, 1, q - 1);
      n := n + 4;
    }
  }

  lemma AllPushed(c: Config, q: nat) returns (s: State, n: nat)
    requires c.overlap >= 1 && q < c.maxPerMailbox
    ensures Stage(c, s, n, c.overlap, 0, q)
  {
    hide Stage;
    s, n := Filled(c, q);
    for i := 0 to c.overlap
      invariant Stage(c, s, n, i, 0, q)
    {
      s := PushStage(c, s, n, i, 0, q);
      n := n + 1;
    }
  }

  lemma AllCounted(c: Config, q: nat) returns (s: State, n: nat)
    requires c.overlap >= 1 && q < c.maxPerMailbox
    ensures Stage(c, s, n, 0, c.overlap, q)
  {
    hide Stage;
    s, n := AllPushed(c, q);
    for i := 0 to c.overlap
      invariant Stage(c, s, n, c.overlap - i, i, q)
    {
      s := CountStage(c, s, n, c.overlap - i, i, q);
      n := n + 1;
    }
  }

  lemma AllLanded(c: Config, q: nat) returns (s: State, n: nat)
    requires c.overlap >= 1 && q < c.maxPerMailbox
    ensures Stage(c, s, n, 0, 0, q + c.overlap)
  {
    hide Stage;
    s, n := AllCounted(c, q);
    for i := 0 to c.overlap
      invariant Stage(c, s, n, 0, c.overlap - i, q + i)
    {
      s := LandStage(c, s, n, 0, c.overlap - i, q + i);
      n := n + 2;
    }
  }

  /** The bound of `QueueBounded` is exact: a full set of overlapping pushes that all count just below the
      cap takes the queue to it. */
  lemma BoundIsReached(c: Config)
    requires c.overlap >= 1 && c.maxPerMailbox >= 1
    ensures exists s, n :: Reachable(c, s, n) && InBox(s.queue, s.boxes, "k") == c.maxPerMailbox + c.overlap - 1
  {
    hide Reachable, InBox, OnePlaceEach;
    var s, n := AllLanded(c, c.maxPerMailbox - 1);
    assert Reachable(c, s, n) && InBox(s.queue, s.boxes, "k") == c.maxPerMailbox + c.overlap - 1;
  }

  // ---- order -----------------------------------------------------------------

  ghost predicate Sorted(rows: seq<Row>) {
    rows == [] || (Sorted(rows[1..]) && forall r :: r in rows[1..] ==> rows[0].id <= r.id)
  }

  predicate SameBox(boxes: seq<Key>, a: Row, b: Row) {
    a.msg < |boxes| && b.msg < |boxes| && boxes[a.msg] == boxes[b.msg]
  }

  /** `a` may be handed over before `b`: b's insert had not finished when a's began. */
  predicate MayPrecede(boxes: seq<Key>, a: Row, b: Row) {
    SameBox(boxes, a, b) ==> a.id <= b.landed
  }

  ghost predicate Timely(s: State, r: Row) {
    r.id <= r.landed < s.now && r.msg < |s.boxes|
  }

  ghost predicate InOrder(boxes: seq<Key>, rows: seq<Row>) {
    forall i, j :: 0 <= i < j < |rows| ==> MayPrecede(boxes, rows[i], rows[j])
  }

  ghost predicate OrderInv(s: State) {
    && Sorted(s.queue)
    && (forall r :: r in s.queue || r in s.handed ==> Timely(s, r))
    && (forall m :: m in s.drawn ==> s.drawn[m] < s.now && m < |s.boxes|)
    && (forall h, q :: h in s.handed && q in s.queue ==> MayPrecede(s.boxes, h, q))
    && InOrder(s.boxes, s.handed)
  }

  lemma {:induction false} InsertedSorted(rows: seq<Row>, r: Row)
    requires Sorted(rows)
    ensures Sorted(Inserted(rows, r))
    ensures forall x :: x in Inserted(rows, r) <==> x == r || x in rows
  {
    if rows == [] || r.id < rows[0].id {
      assert ([r] + rows)[1..] == rows;
    } else {
      InsertedSorted(rows[1..], r);
      var ins := Inserted(rows[1..], r);
      assert ([rows[0]] + ins)[1..] == ins;
      assert rows == [rows[0]] + rows[1..];
    }
  }

  lemma {:induction false} ChosenSorted(rows: seq<Row>, ids: set<nat>, chosen: bool)
    requires Sorted(rows)
    ensures Sorted(Chosen(rows, ids, chosen))
    ensures forall x :: x in Chosen(rows, ids, chosen) <==> x in rows && (x.id in ids) == chosen
  {
    if rows != [] {
      ChosenSorted(rows[1..], ids, chosen);
      var rest := Chosen(rows[1..], ids, chosen);
      assert ([rows[0]] + rest)[1..] == rest;
      assert rows == [rows[0]] + rows[1..];
    }
  }

  /** A drain returns its mailbox's rows in id order, and leaves none with a smaller id behind. */
  lemma {:induction false} DrainOrder(rows: seq<Row>, boxes: seq<Key>, k: Key, limit: nat)
    requires Sorted(rows)
    ensures Sorted(Picked(rows, boxes, k, limit)) && Sorted(Rest(rows, boxes, k, limit))
    ensures forall x :: x in Picked(rows, boxes, k, limit) ==> x in rows && For(boxes, x, k)
    ensures forall x :: x in Rest(rows, boxes, k, limit) ==> x in rows
    ensures forall x, y ::
              x in Picked(rows, boxes, k, limit) && y in Rest(rows, boxes, k, limit) && For(boxes, y, k) ==>
              x.id <= y.id
  {
    if rows != [] && limit > 0 {
      assert rows == [rows[0]] + rows[1..];
      if For(boxes, rows[0], k) {
        DrainOrder(rows[1..], boxes, k, limit - 1);
        var rest := Picked(rows[1..], boxes, k, limit - 1);
        assert ([rows[0]] + rest)[1..] == rest;
      } else {
        DrainOrder(rows[1..], boxes, k, limit);
        var rest := Rest(rows[1..], boxes, k, limit);
        assert ([rows[0]] + rest)[1..] == rest;
      }
    }
  }

  lemma {:induction false} SortedAt(rows: seq<Row>, i: nat, j: nat)
    requires Sorted(rows) && i <= j < |rows|
    ensures rows[i].id <= rows[j].id
  {
    if i == 0 && j > 0 {
      assert rows[j] == rows[1..][j-1];
    } else if i > 0 {
      SortedAt(rows[1..], i - 1, j - 1);
    }
  }

  lemma DrainKeepsOrder(c: Config, s: State, k: Key, limit: nat)
    requires OrderInv(s)
    ensures OrderInv(Apply(c, s, Drain(k, limit)))
  {
    hide Sorted, Picked, Rest;
    var s' := Apply(c, s, Drain(k, limit));
    var taken := Picked(s.queue, s.boxes, k, limit);
    DrainOrder(s.queue, s.boxes, k, limit);
    forall i, j | 0 <= i < j < |s'.handed| ensures MayPrecede(s.boxes, s'.handed[i], s'.handed[j]) {
      if i >= |s.handed| {
        SortedAt(taken, i - |s.handed|, j - |s.handed|);
        assert s'.handed[j] in taken;
      } else if j >= |s.handed| {
        assert s'.handed[i] in s.handed && s'.handed[j] in taken;
      } else {
        assert MayPrecede(s.boxes, s.handed[i], s.handed[j]);
      }
    }
    forall h, q | h in s'.handed && q in s'.queue ensures MayPrecede(s.boxes, h, q) {
      if h !in s.handed { assert h in taken && Timely(s, q); }
    }
  }

  lemma OrderStep(c: Config, s: State, e: Event)
    requires Enabled(c, s, e) && OrderInv(s) && OnePlaceEach(s)
    ensures OrderInv(Apply(c, s, e))
  {
    hide Sorted, Picked, Rest, Chosen, Inserted, InBox, PastCount, Pending, OnePlaceEach;
    OnePlaceKnown(s);
    match e
    case Land(m) => InsertedSorted(s.queue, Row(s.drawn[m], m, s.now));
    case Drain(k, limit) => DrainKeepsOrder(c, s, k, limit);
    case Delete(ids) => ChosenSorted(s.queue, ids, false);
    case Live(_) => AcceptKeepsOrder(c, s, e);
    case Push(_) => AcceptKeepsOrder(c, s, e);
    case _ =>
  }

  lemma AcceptKeepsOrder(c: Config, s: State, e: Event)
    requires Enabled(c, s, e) && OrderInv(s) && (e.Live? || e.Push?)
    ensures OrderInv(Apply(c, s, e))
  {
    hide Sorted, Pending;
    var s' := Apply(c, s, e);
    forall a, b | Timely(s, a) && Timely(s, b) && MayPrecede(s.boxes, a, b) ensures MayPrecede(s'.boxes, a, b) {}
    forall i, j | 0 <= i < j < |s.handed| ensures MayPrecede(s'.boxes, s.handed[i], s.handed[j]) {
      assert MayPrecede(s.boxes, s.handed[i], s.handed[j]) && Timely(s, s.handed[i]) && Timely(s, s.handed[j]);
    }
    forall h, q | h in s.handed && q in s.queue ensures MayPrecede(s'.boxes, h, q) {
      assert MayPrecede(s.boxes, h, q);
    }
  }

  /** Over a whole run and across drains, a mailbox is read in insertion order: an envelope whose insert was
      finished before another's began is never handed over after it. */
  lemma {:induction false} HandedInOrder(c: Config, s: State, n: nat)
    requires Reachable(c, s, n)
    ensures OrderInv(s)
    ensures forall i, j :: 0 <= i < j < |s.handed| && SameBox(s.boxes, s.handed[i], s.handed[j]) ==>
              !(s.handed[j].landed < s.handed[i].id)
    decreases n
  {
    hide Apply, Enabled, OnePlaceEach, Sorted;
    if n > 0 {
      var p, e :| Reachable(c, p, n - 1) && Enabled(c, p, e) && s == Apply(c, p, e);
      HandedInOrder(c, p, n - 1);
      EveryEnvelopeInOnePlace(c, p, n - 1);
      OrderStep(c, p, e);
    } else {
      EmptySorted();
    }
    forall i, j | 0 <= i < j < |s.handed| && SameBox(s.boxes, s.handed[i], s.handed[j])
      ensures !(s.handed[j].landed < s.handed[i].id)
    {
      assert MayPrecede(s.boxes, s.handed[i], s.handed[j]);
    }
  }

  lemma EmptySorted()
    ensures Sorted([])
  {}

  // ---- single operations ---------------------------------------------------------------

  /** The count counts: the rows whose envelope is for the mailbox. */
  lemma {:induction false} InBoxCounts(rows: seq<Row>, boxes: seq<Key>, k: Key)
    ensures InBox(rows, boxes, k)
         == |set i | 0 <= i < |rows| && rows[i].msg < |boxes| && boxes[rows[i].msg] == k|
    decreases |rows|
  {
    var here := set i | 0 <= i < |rows| && rows[i].msg < |boxes| && boxes[rows[i].msg] == k;
    if rows == [] {
      assert here == {};
    } else {
      var n := |rows| - 1;
      InBoxCounts(rows[..n], boxes, k);
      InBoxConcat(rows[..n], [rows[n]], boxes, k);
      assert rows[..n] + [rows[n]] == rows;
      var before := set i | 0 <= i < n && rows[..n][i].msg < |boxes| && boxes[rows[..n][i].msg] == k;
      forall i ensures i in here <==> i in before || (i == n && For(boxes, rows[n], k)) {}
      assert here == before + if For(boxes, rows[n], k) then {n} else {};
      assert InBox([rows[n]], boxes, k) == One(For(boxes, rows[n], k)) + InBox([], boxes, k) by {
        InBoxCons(rows[n], [], boxes, k);
        assert [rows[n]] + [] == [rows[n]];
      }
    }
  }

  lemma {:induction false} InBoxConcat(a: seq<Row>, b: seq<Row>, boxes: seq<Key>, k: Key)
    ensures InBox(a + b, boxes, k) == InBox(a, boxes, k) + InBox(b, boxes, k)
  {
    if a == [] {
      assert a + b == b;
    } else {
      assert (a + b)[1..] == a[1..] + b;
      InBoxConcat(a[1..], b, boxes, k);
    }
  }

  lemma {:induction false} InsertedLast(rows: seq<Row>, r: Row)
    requires forall x :: x in rows ==> x.id <= r.id
    ensures Inserted(rows, r) == rows + [r]
  {
    if rows != [] { InsertedLast(rows[1..], r); }
  }

  lemma SameRows(s: State, boxes: seq<Key>, k: Key)
    requires (forall r :: r in s.queue ==> Timely(s, r)) && boxes == s.boxes + [k]
    ensures (set i | 0 <= i < |s.queue| && s.queue[i].msg < |boxes| && boxes[s.queue[i].msg] == k)
         == set i | 0 <= i < |s.queue| && s.queue[i].msg < |s.boxes| && s.boxes[s.queue[i].msg] == k
  {
    forall i | 0 <= i < |s.queue| ensures s.queue[i].msg < |s.boxes| {
      assert Timely(s, s.queue[i]);
    }
  }

  /** The steps of a push that nothing interrupts: below the cap the envelope ends up last in its mailbox's
      queue and nothing else changes; at the cap it is refused and the queue is as before. */
  lemma PushAlone(c: Config, s: State, k: Key)
    requires |Pending(s, k)| < c.overlap && OrderInv(s) && OnePlaceEach(s)
    ensures var m := |s.boxes|;
            var s1 := Apply(c, s, Push(k));
            && s1.boxes == s.boxes + [k] && s1.queue == s.queue && Enabled(c, s1, Count(m))
            && var s2 := Apply(c, s1, Count(m));
            if |set i | 0 <= i < |s.queue| && s.queue[i].msg < m && s.boxes[s.queue[i].msg] == k|
               >= c.maxPerMailbox then
              s2 == s1.(now := s1.now + 1, waiting := s.waiting, refused := s.refused + {m})
            else
              && Enabled(c, s2, Draw(m))
              && var s3 := Apply(c, s2, Draw(m));
              && Enabled(c, s3, Land(m))
              && var s4 := Apply(c, s3, Land(m));
              && s4.queue == s.queue + [Row(s.now + 2, m, s.now + 3)]
              && s4 == s.(now := s.now + 4, boxes := s.boxes + [k], queue := s4.queue)
  {
    hide InBox, Copies, Sorted, OnePlaceEach, Inserted;
    OnePlaceKnown(s);
    var m, boxes := |s.boxes|, s.boxes + [k];
    InBoxCounts(s.queue, boxes, k);
    SameRows(s, boxes, k);
    assert m !in s.waiting && m !in s.counted && m !in s.drawn;
    assert s.waiting + {m} - {m} == s.waiting && s.counted + {m} - {m} == s.counted;
    assert s.drawn[m := s.now + 2] - {m} == s.drawn;
    InsertedLast(s.queue, Row(s.now + 2, m, s.now + 3));
  }

  /** A drain hands over exactly the first rows of its own mailbox, in order, and leaves all the others. */
  lemma DrainLaw(c: Config, s: State, k: Key, limit: nat, r: Row)
    requires OrderInv(s)
    ensures var s' := Apply(c, s, Drain(k, limit));
            && s.handed <= s'.handed
            && var out := s'.handed[|s.handed|..];
            && |out| == Min(limit, InBox(s.queue, s.boxes, k))
            && (forall x :: x in out ==> x in s.queue && For(s.boxes, x, k))
            && (forall i, j :: 0 <= i < j < |out| ==> out[i].id <= out[j].id)
            && (r in s.queue && !For(s.boxes, r, k) ==> r in s'.queue)
            && (r in s.queue ==> r in s'.queue || r in out)
            && (r in s'.queue ==> r in s.queue)
            && (forall x :: x in out && r in s'.queue && For(s.boxes, r, k) ==> x.id <= r.id)
  {
    hide Sorted, Picked, Rest, InBox, InOrder;
    var out := Picked(s.queue, s.boxes, k, limit);
    assert Apply(c, s, Drain(k, limit)).handed[|s.handed|..] == out;
    DrainOrder(s.queue, s.boxes, k, limit);
    DrainSize(s.queue, s.boxes, k, limit, k);
    if r in s.queue { DrainParts(s.queue, s.boxes, k, limit, r); }
    assert forall x :: x in s.queue ==> Timely(s, x);
    forall i, j | 0 <= i < j < |out| ensures out[i].id <= out[j].id { SortedAt(out, i, j); }
  }

  lemma {:induction false} DrainParts(rows: seq<Row>, boxes: seq<Key>, k: Key, limit: nat, r: Row)
    requires r in rows
    ensures r in Picked(rows, boxes, k, limit) || r in Rest(rows, boxes, k, limit)
    ensures !For(boxes, r, k) ==> r in Rest(rows, boxes, k, limit)
  {
    if rows != [] && limit > 0 && r != rows[0] {
      assert r in rows[1..];
      DrainParts(rows[1..], boxes, k, if For(boxes, rows[0], k) then limit - 1 else limit, r);
    }
  }

  /** A delete removes exactly the rows it names, and hands over nothing. */
  lemma DeleteLaw(c: Config, s: State, ids: set<nat>, r: Row)
    requires OrderInv(s)
    ensures var s' := Apply(c, s, Delete(ids));
            && (r in s'.queue <==> r in s.queue && r.id !in ids)
            && s'.handed == s.handed && s.deleted <= s'.deleted
            && (r in s'.deleted[|s.deleted|..] <==> r in s.queue && r.id in ids)
  {
    hide Sorted, Chosen, InOrder;
    ChosenSorted(s.queue, ids, false);
    ChosenSorted(s.queue, ids, true);
    assert Apply(c, s, Delete(ids)).deleted[|s.deleted|..] == Chosen(s.queue, ids, true);
  }

  /** An envelope taken live, and a push that fails, touch no queue. */
  lemma ElsewhereLaw(c: Config, s: State, k: Key, m: nat)
    requires Enabled(c, s, Fail(m))
    ensures Apply(c, s, Live(k)) == s.(now := s.now + 1, live := s.live + {|s.boxes|}, boxes := s.boxes + [k])
    ensures var s' := Apply(c, s, Fail(m));
            && s'.queue == s.queue && s'.handed == s.handed && s'.failed == s.failed + {m}
            && m !in s'.waiting && m !in s'.counted && m !in s'.drawn
  {}
}
