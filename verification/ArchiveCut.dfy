/** One consistent cut over several live append-only databases, and reading it back while writers continue. */
module ArchiveCut {
  import opened Common

  type Id = string

  datatype Authority = Journal | Messages | Surface | Requests | Projections | PublicationAudits

  datatype Row = Row(key: int, body: string)

  type Table = seq<Row>

  /** A committed append: the global order of these is real time. */
  datatype Write = Write(db: Id, authority: Authority, row: Row)

  predicate Ordered(t: Table) { forall i, j :: 0 <= i < j < |t| ==> t[i].key < t[j].key }

  /** The rows of one authority of one database after the writes in `log`. */
  function TableOf(log: seq<Write>, db: Id, authority: Authority): Table {
    if log == [] then []
    else
      var w, t := log[|log| - 1], TableOf(log[..|log| - 1], db, authority);
      if w.db == db && w.authority == authority then t + [w.row] else t
  }

  /** SQLite refuses a writer while its database is barriered; keys only increase. */
  function Attempt(log: seq<Write>, held: set<Id>, w: Write): seq<Write> {
    var t := TableOf(log, w.db, w.authority);
    if w.db in held || (t != [] && w.row.key <= t[|t| - 1].key) then log else log + [w]
  }

  function Interfere(log: seq<Write>, held: set<Id>, batch: seq<Write>): seq<Write>
    decreases |batch|
  {
    if batch == [] then log else Interfere(Attempt(log, held, batch[0]), held, batch[1..])
  }

  ghost predicate WellFormed(log: seq<Write>) {
    forall db, authority :: Ordered(TableOf(log, db, authority))
  }

  /** `SELECT COALESCE(MAX(key), 0)`. */
  function Frontier(t: Table): int { if t == [] then 0 else t[|t| - 1].key }

  datatype Frontiers = Frontiers(journal: int, messages: int, surface: int, requests: int, projections: int,
      audits: int)
  {
    function Through(authority: Authority): int {
      match authority
      case Journal => journal
      case Messages => messages
      case Surface => surface
      case Requests => requests
      case Projections => projections
      case PublicationAudits => audits
    }
  }

  /** `archive_frontiers`. */
  function FrontiersOf(log: seq<Write>, db: Id): (f: Frontiers)
    ensures forall a :: f.Through(a) == Frontier(TableOf(log, db, a))
    ensures forall a, r :: Ordered(TableOf(log, db, a)) && r in TableOf(log, db, a) ==> r.key <= f.Through(a)
  {
    Frontiers(Frontier(TableOf(log, db, Journal)), Frontier(TableOf(log, db, Messages)),
              Frontier(TableOf(log, db, Surface)), Frontier(TableOf(log, db, Requests)),
              Frontier(TableOf(log, db, Projections)), Frontier(TableOf(log, db, PublicationAudits)))
  }

  // ---- writers ----

  lemma AttemptEffect(log: seq<Write>, held: set<Id>, w: Write, db: Id, authority: Authority)
    requires WellFormed(log)
    ensures var next := Attempt(log, held, w);
            && log <= next
            && (db in held ==> TableOf(next, db, authority) == TableOf(log, db, authority))
            && Ordered(TableOf(next, db, authority))
  {
    var next := Attempt(log, held, w);
    if next != log { assert next[..|next| - 1] == log; }
    assert Ordered(TableOf(log, db, authority));
  }

  /** Whatever writers try, a barriered database does not change and the log only grows. */
  lemma {:induction false} InterfereEffect(log: seq<Write>, held: set<Id>, batch: seq<Write>)
    requires WellFormed(log)
    ensures var next := Interfere(log, held, batch);
            && log <= next && WellFormed(next)
            && forall db, authority :: db in held ==> TableOf(next, db, authority) == TableOf(log, db, authority)
    decreases |batch|
  {
    if batch != [] {
      var mid := Attempt(log, held, batch[0]);
      forall db, authority
        ensures Ordered(TableOf(mid, db, authority)) && log <= mid
        ensures db in held ==> TableOf(mid, db, authority) == TableOf(log, db, authority)
      {
        AttemptEffect(log, held, batch[0], db, authority);
      }
      InterfereEffect(mid, held, batch[1..]);
    }
  }

  // ---- capture ----

  datatype CaptureError = CancelledOrBusy

  /** The writes other processes try before the producer's k-th action. */
  function Batch(writers: seq<seq<Write>>, k: nat): seq<Write> { if k < |writers| then writers[k] else [] }

  ghost predicate Faulty(fails: nat -> bool) { exists step :: fails(step) }

  /** The cuts taken so far are the frontiers of the database as `log` leaves it. */
  predicate Captured(log: seq<Write>, ids: seq<Id>, cuts: seq<Frontiers>) {
    |cuts| <= |ids| && forall j :: 0 <= j < |cuts| ==> cuts[j] == FrontiersOf(log, ids[j])
  }

  lemma BarriersFreezeCuts(log: seq<Write>, held: set<Id>, batch: seq<Write>, ids: seq<Id>, cuts: seq<Frontiers>)
    requires WellFormed(log) && Captured(log, ids, cuts) && AllHeld(ids, |cuts|, held)
    ensures Captured(Interfere(log, held, batch), ids, cuts)
  {
    InterfereEffect(log, held, batch);
  }

  /** The first `n` databases are barriered. */
  predicate AllHeld(ids: seq<Id>, n: nat, held: set<Id>) { n <= |ids| && forall j :: 0 <= j < n ==> ids[j] in held }

  lemma OneMoreCut(log: seq<Write>, ids: seq<Id>, cuts: seq<Frontiers>)
    requires Captured(log, ids, cuts) && |cuts| < |ids|
    ensures Captured(log, ids, cuts + [FrontiersOf(log, ids[|cuts|])])
  {
  }

  /** One turn of the capture loop: take the barrier, then read the frontiers under it. */
  method CaptureOne(ids: seq<Id>, cuts: seq<Frontiers>, before: seq<Write>, held: set<Id>, writers: seq<seq<Write>>,
        fails: nat -> bool)
      returns (next: seq<Frontiers>, after: set<Id>, log: seq<Write>, ok: bool)
    requires WellFormed(before) && |cuts| < |ids| && Captured(before, ids, cuts) && AllHeld(ids, |cuts|, held)
    ensures before <= log && WellFormed(log) && (!ok ==> Faulty(fails))
    ensures ok ==> |next| == |cuts| + 1 && Captured(log, ids, next) && AllHeld(ids, |next|, after)
  {
    next, after := cuts, held;
    ok, log := Advance(before, held, writers, fails, 2 * |cuts|, ids, cuts);
    if !ok { return; }
    var id := ids[|cuts|];
    after := held + {id};
    ok, log := Advance(log, after, writers, fails, 2 * |cuts| + 1, ids, cuts);
    if !ok { return; }
    next := cuts + [FrontiersOf(log, id)];
    OneMoreCut(log, ids, cuts);
  }

  /** Every barrier is taken before any is released, and each frontier is read under its barrier. */
  method TakeCuts(ids: seq<Id>, initial: seq<Write>, writers: seq<seq<Write>>, fails: nat -> bool)
      returns (cuts: seq<Frontiers>, held: set<Id>, log: seq<Write>, ok: bool)
    requires WellFormed(initial)
    ensures initial <= log && WellFormed(log)
    ensures ok ==> |cuts| == |ids| && Captured(log, ids, cuts) && AllHeld(ids, |ids|, held)
    ensures !ok ==> Faulty(fails)
  {
    log, cuts, held := initial, [], {};
    while |cuts| < |ids|
      invariant |cuts| <= |ids| && initial <= log && WellFormed(log)
      invariant Captured(log, ids, cuts) && AllHeld(ids, |cuts|, held)
    {
      cuts, held, log, ok := CaptureOne(ids, cuts, log, held, writers, fails);
      if !ok { return; }
    }
    ok, log := Advance(log, held, writers, fails, 2 * |ids|, ids, cuts);
  }

  /** Writers act, then the producer's action succeeds or fails. */
  method Advance(before: seq<Write>, held: set<Id>, writers: seq<seq<Write>>, fails: nat -> bool, step: nat,
        ids: seq<Id>, ghost cuts: seq<Frontiers>)
      returns (ok: bool, log: seq<Write>)
    requires WellFormed(before)
    ensures before <= log && WellFormed(log) && (!ok ==> Faulty(fails))
    ensures Captured(before, ids, cuts) && AllHeld(ids, |cuts|, held) ==> Captured(log, ids, cuts)
  {
    InterfereEffect(before, held, Batch(writers, step));
    if Captured(before, ids, cuts) && AllHeld(ids, |cuts|, held) {
      BarriersFreezeCuts(before, held, Batch(writers, step), ids, cuts);
    }
    log := Interfere(before, held, Batch(writers, step));
    ok := !fails(step);
  }

  /**
   * `prepare_inner` from the first barrier to the last release, against any
   * schedule of writers and any cancellation, contention or release failure.
   * `instant` is the linearization point, as a position in the global log.
   */
  method Prepare(ids: seq<Id>, initial: seq<Write>, writers: seq<seq<Write>>, fails: nat -> bool)
      returns (result: Result<seq<Frontiers>, CaptureError>, log: seq<Write>, instant: nat)
    requires WellFormed(initial)
    ensures initial <= log && WellFormed(log) && |initial| <= instant <= |log|
    ensures result.Ok? ==> |result.value| == |ids| && Captured(log[..instant], ids, result.value)
    ensures result.Err? ==> Faulty(fails)
  {
    var cuts, held, ok;
    cuts, held, log, ok := TakeCuts(ids, initial, writers, fails);
    instant := |log|;
    if !ok { return Err(CancelledOrBusy), log, instant; }
    ghost var linear := log;
    var released := 0;
    while released < |ids|
      invariant 0 <= released <= |ids| && linear <= log && WellFormed(log)
    {
      held := held - {ids[released]};
      ok, log := Advance(log, held, writers, fails, 2 * |ids| + 1 + released, ids, []);
      if !ok { return Err(CancelledOrBusy), log, instant; }
      released := released + 1;
    }
    assert log[..instant] == linear;
    result := Ok(cuts);
  }

  // ---- the captured set is a prefix of real time ----

  lemma {:induction false} TableGrows(log: seq<Write>, k: nat, db: Id, authority: Authority)
    requires k <= |log|
    ensures TableOf(log[..k], db, authority) <= TableOf(log, db, authority)
    decreases |log|
  {
    if k < |log| {
      assert log[..|log| - 1][..k] == log[..k];
      TableGrows(log[..|log| - 1], k, db, authority);
    } else {
      assert log[..k] == log;
    }
  }

  /** The position of a write among the rows of its own table. */
  lemma WriteIsRow(log: seq<Write>, p: nat)
    requires p < |log|
    ensures var w := log[p]; var before := TableOf(log[..p], w.db, w.authority);
            TableOf(log[..p + 1], w.db, w.authority) == before + [w.row]
  {
    assert log[..p + 1][..p] == log[..p];
  }

  /** With positive keys, a write lies within the captured frontier exactly when it precedes the instant. */
  lemma CapturedExactlyBefore(log: seq<Write>, instant: nat, p: nat)
    requires WellFormed(log) && instant <= |log| && p < |log| && log[p].row.key > 0
    ensures log[p].row.key <= FrontiersOf(log[..instant], log[p].db).Through(log[p].authority) <==> p < instant
  {
    var w := log[p];
    var all, cut := TableOf(log, w.db, w.authority), TableOf(log[..instant], w.db, w.authority);
    var before := TableOf(log[..p], w.db, w.authority);
    WriteIsRow(log, p);
    TableGrows(log, p + 1, w.db, w.authority);
    TableGrows(log, instant, w.db, w.authority);
    assert Ordered(all) && all[|before|] == w.row;
    if p < instant {
      assert log[..instant][..p + 1] == log[..p + 1];
      TableGrows(log[..instant], p + 1, w.db, w.authority);
    } else {
      assert log[..p][..instant] == log[..instant];
      TableGrows(log[..p], instant, w.db, w.authority);
    }
  }

  /** Closed under real-time order across databases: nothing captured was written after something missed. */
  lemma CutIsClosed(log: seq<Write>, instant: nat, p: nat, q: nat)
    requires WellFormed(log) && instant <= |log| && p <= q < |log| && log[p].row.key > 0 && log[q].row.key > 0
    requires log[q].row.key <= FrontiersOf(log[..instant], log[q].db).Through(log[q].authority)
    ensures log[p].row.key <= FrontiersOf(log[..instant], log[p].db).Through(log[p].authority)
  {
    CapturedExactlyBefore(log, instant, p);
    CapturedExactlyBefore(log, instant, q);
  }

  // ---- reading the cut back ----

  predicate Within(row: Row, after: int, through: int) { after < row.key <= through }

  function RowsIn(t: Table, after: int, through: int): (r: Table) {
    if t == [] then []
    else RowsIn(t[..|t| - 1], after, through) + (if Within(t[|t| - 1], after, through) then [t[|t| - 1]] else [])
  }

  /** `archive_record`: the first row with `after < key <= through`. */
  function Select(t: Table, after: int, through: int): (r: Option<Row>)
    ensures r.Some? ==> r.value in t && Within(r.value, after, through)
  {
    if t == [] then None
    else
      var earlier := Select(t[..|t| - 1], after, through);
      if earlier.Some? then earlier
      else if Within(t[|t| - 1], after, through) then Some(t[|t| - 1]) else None
  }

  lemma {:induction false} SelectNone(t: Table, after: int, through: int)
    ensures Select(t, after, through).None? <==> RowsIn(t, after, through) == []
  {
    if t != [] { SelectNone(t[..|t| - 1], after, through); }
  }

  /** In an ordered table the selected row is the next one: nothing lies between. */
  lemma {:induction false} SelectIsNext(t: Table, start: int, after: int, through: int)
    requires Ordered(t) && start <= after && Select(t, after, through).Some?
    ensures var row := Select(t, after, through).value;
            RowsIn(t, start, row.key) == RowsIn(t, start, after) + [row]
  {
    var row := Select(t, after, through).value;
    var init, last := t[..|t| - 1], t[|t| - 1];
    if Select(init, after, through).Some? {
      SelectIsNext(init, start, after, through);
      assert row in init;
    } else {
      SelectNone(init, after, through);
      RowsSplit(init, start, after, row.key);
      NothingBetween(init, after, row.key, through);
    }
  }

  lemma {:induction false} RowsSplit(t: Table, start: int, middle: int, end: int)
    requires Ordered(t) && start <= middle <= end
    ensures RowsIn(t, start, end) == RowsIn(t, start, middle) + RowsIn(t, middle, end)
  {
    if t != [] {
      var init, last := t[..|t| - 1], t[|t| - 1];
      RowsSplit(init, start, middle, end);
      if last.key <= middle { EmptyAbove(init, middle, end, last.key); }
    }
  }

  lemma {:induction false} EmptyAbove(t: Table, after: int, through: int, top: int)
    requires top <= after && forall i :: 0 <= i < |t| ==> t[i].key < top
    ensures RowsIn(t, after, through) == []
  {
    if t != [] { EmptyAbove(t[..|t| - 1], after, through, top); }
  }

  lemma {:induction false} NothingBetween(t: Table, after: int, middle: int, through: int)
    requires middle <= through && RowsIn(t, after, through) == []
    ensures RowsIn(t, after, middle) == []
  {
    if t != [] { NothingBetween(t[..|t| - 1], after, middle, through); }
  }

  /** What the table holds at each successive fetch; writers only append. */
  ghost predicate Growing(now: nat -> Table) {
    forall k: nat :: Ordered(now(k)) && now(k) <= now(k + 1)
  }

  lemma {:induction false} EmptyRange(t: Table, after: int, through: int)
    requires through <= after
    ensures RowsIn(t, after, through) == []
  {
    if t != [] { EmptyRange(t[..|t| - 1], after, through); }
  }

  /** A row already present bounds every row appended later. */
  lemma AppendsStayAbove(now: nat -> Table, k: nat, row: Row, start: int)
    requires Growing(now) && row in now(k)
    ensures RowsIn(now(k + 1), start, row.key) == RowsIn(now(k), start, row.key) && row in now(k + 1)
  {
    var t, later := now(k), now(k + 1);
    var i :| 0 <= i < |t| && t[i] == row;
    assert later[i] == row;
    RowsFrom(t, later, start, row.key);
  }

  /** What was visited so far is a prefix of the rows in range, and all of them once no row is selected. */
  lemma VisitedIsPrefix(t: Table, after: int, through: int)
    requires Ordered(t) && -1 <= after <= through
    ensures RowsIn(t, -1, after) <= RowsIn(t, -1, through)
    ensures Select(t, after, through).None? ==> RowsIn(t, -1, after) == RowsIn(t, -1, through)
  {
    RowsSplit(t, -1, after, through);
    SelectNone(t, after, through);
  }

  /** Visiting the selected row visits all rows up to its key, even of the table found a fetch later. */
  lemma NextVisited(now: nat -> Table, k: nat, after: int, through: int)
    requires Growing(now) && -1 <= after && Select(now(k), after, through).Some?
    ensures var row := Select(now(k), after, through).value;
            RowsIn(now(k + 1), -1, row.key) == RowsIn(now(k), -1, after) + [row]
  {
    SelectIsNext(now(k), -1, after, through);
    AppendsStayAbove(now, k, Select(now(k), after, through).value, -1);
  }

  /**
   * `ConversationCut::each`: one bounded fetch at a time, with writers active
   * between fetches. `fails(k)` is a cancellation, decode or visitor error at
   * the k-th round. What was visited is always a prefix of the rows in range.
   */
  method Each(now: nat -> Table, through: int, fails: nat -> bool) returns (visited: seq<Row>, ok: bool, fetches: nat)
    requires Growing(now)
    ensures visited <= RowsIn(now(fetches), -1, through)
    ensures ok ==> visited == RowsIn(now(fetches), -1, through)
    ensures !ok <==> fails(fetches)
    ensures forall k :: 0 <= k < fetches ==> !fails(k)
  {
    var after := -1;
    visited, fetches := [], 0;
    EmptyRange(now(0), -1, -1);
    if through < -1 { EmptyRange(now(0), -1, through); }
    while true
      invariant after == -1 || -1 < after <= through
      invariant visited == RowsIn(now(fetches), -1, after)
      invariant through < -1 ==> after == -1 && fetches == 0
      invariant forall k :: 0 <= k < fetches ==> !fails(k)
      decreases if after <= through then through - after + 1 else 0
    {
      if after <= through { VisitedIsPrefix(now(fetches), after, through); }
      if fails(fetches) { return visited, false, fetches; }
      var selected := Select(now(fetches), after, through);
      if selected.None? { return visited, true, fetches; }
      var row := selected.value;
      NextVisited(now, fetches, after, through);
      after, visited, fetches := row.key, visited + [row], fetches + 1;
    }
  }

  lemma {:induction false} AtMostAll(t: Table, after: int, through: int)
    ensures |RowsIn(t, after, through)| <= |t|
  {
    if t != [] { AtMostAll(t[..|t| - 1], after, through); }
  }

  lemma {:induction false} EveryRowInRange(t: Table, after: int, through: int)
    requires forall i :: 0 <= i < |t| ==> Within(t[i], after, through)
    ensures RowsIn(t, after, through) == t
  {
    if t != [] {
      EveryRowInRange(t[..|t| - 1], after, through);
      assert t == t[..|t| - 1] + [t[|t| - 1]];
    }
  }

  lemma {:induction false} OneRowOutside(t: Table, i: nat, after: int, through: int)
    requires i < |t| && !Within(t[i], after, through)
    ensures |RowsIn(t, after, through)| < |t|
  {
    if i < |t| - 1 { OneRowOutside(t[..|t| - 1], i, after, through); } else { AtMostAll(t[..|t| - 1], after, through); }
  }

  lemma {:induction false} RowFound(t: Table, i: nat, after: int, through: int)
    requires i < |t| && Within(t[i], after, through)
    ensures RowsIn(t, after, through) != []
  {
    if i < |t| - 1 { RowFound(t[..|t| - 1], i, after, through); }
  }

  lemma {:induction false} RowsFrom(t: Table, later: Table, after: int, through: int)
    requires t <= later && forall i :: |t| <= i < |later| ==> !Within(later[i], after, through)
    ensures RowsIn(later, after, through) == RowsIn(t, after, through)
    decreases |later|
  {
    if |t| == |later| {
      assert t == later;
    } else {
      RowsFrom(t, later[..|later| - 1], after, through);
    }
  }

  lemma ReadsNothing(later: Table)
    requires Ordered(later)
    ensures RowsIn(later, -1, Frontier([])) == [] <==> forall i :: 0 <= i < |later| ==> later[i].key != 0
  {
    if i :| 0 <= i < |later| && later[i].key == 0 {
      RowFound(later, i, -1, 0);
    } else {
      RowsFrom([], later, -1, 0);
    }
  }

  lemma ReadsTheRows(captured: Table, later: Table)
    requires Ordered(later) && captured <= later && captured != []
    ensures RowsIn(later, -1, Frontier(captured)) == captured <==> captured[0].key >= 0
  {
    var through := Frontier(captured);
    assert later[|captured| - 1].key == through;
    RowsFrom(captured, later, -1, through);
    if captured[0].key >= 0 {
      EveryRowInRange(captured, -1, through);
    } else {
      OneRowOutside(captured, 0, -1, through);
    }
  }

  /**
   * Reading through a captured frontier returns exactly the captured rows,
   * however much the table has grown since, unless the walk's starting key
   * hides a captured row or an empty capture is followed by a row keyed zero.
   */
  lemma ReadsExactlyTheCut(captured: Table, later: Table)
    requires Ordered(later) && captured <= later
    ensures RowsIn(later, -1, Frontier(captured)) == captured <==>
              && (captured != [] ==> captured[0].key >= 0)
              && (captured == [] ==> forall i :: 0 <= i < |later| ==> later[i].key != 0)
  {
    if captured == [] { ReadsNothing(later); } else { ReadsTheRows(captured, later); }
  }

  /** The failing case: a row keyed zero, appended after an empty capture, is read as captured. */
  lemma ZeroKeyReadsAsCaptured(row: Row)
    requires row.key == 0
    ensures RowsIn([row], -1, Frontier([])) == [row]
  {
    assert [row][..0] == [];
  }

  /** The whole export: every walk of a captured authority visits what the instant held, once and in order. */
  method ReadBack(log: seq<Write>, instant: nat, id: Id, authority: Authority, now: nat -> Table, fails: nat -> bool)
      returns (visited: seq<Row>, ok: bool)
    requires WellFormed(log) && instant <= |log| && Growing(now)
    requires TableOf(log[..instant], id, authority) <= now(0)
    requires forall k: nat, i :: 0 <= i < |now(k)| ==> now(k)[i].key > 0
    ensures visited <= TableOf(log[..instant], id, authority)
    ensures ok ==> visited == TableOf(log[..instant], id, authority)
  {
    ghost var captured := TableOf(log[..instant], id, authority);
    var fetches;
    visited, ok, fetches := Each(now, FrontiersOf(log[..instant], id).Through(authority), fails);
    GrowsFrom(now, fetches);
    ReadsExactlyTheCut(captured, now(fetches));
  }

  lemma {:induction false} GrowsFrom(now: nat -> Table, k: nat)
    requires Growing(now)
    ensures now(0) <= now(k)
  {
    if k > 0 { GrowsFrom(now, k - 1); }
  }

  // ---- the export ----

  /** The log once writers, no longer barred, have tried `k` more batches. */
  function Grown(log: seq<Write>, batches: nat -> seq<Write>, k: nat): seq<Write> {
    if k == 0 then log else Interfere(Grown(log, batches, k - 1), {}, batches(k - 1))
  }

  lemma {:induction false} GrownGrows(log: seq<Write>, batches: nat -> seq<Write>, j: nat, k: nat)
    requires WellFormed(log) && j <= k
    ensures WellFormed(Grown(log, batches, k)) && Grown(log, batches, j) <= Grown(log, batches, k)
    decreases k
  {
    if j < k {
      GrownGrows(log, batches, j, k - 1);
      InterfereEffect(Grown(log, batches, k - 1), {}, batches(k - 1));
    } else if k > 0 {
      GrownGrows(log, batches, k - 1, k - 1);
      InterfereEffect(Grown(log, batches, k - 1), {}, batches(k - 1));
    }
  }

  lemma TablePrefix(log: seq<Write>, later: seq<Write>, db: Id, authority: Authority)
    requires log <= later
    ensures TableOf(log, db, authority) <= TableOf(later, db, authority)
  {
    assert later[..|log|] == log;
    TableGrows(later, |log|, db, authority);
  }

  /** The table one walk sees at each of its fetches. */
  function Fetched(log: seq<Write>, batches: nat -> seq<Write>, start: nat, id: Id,
        authority: Authority): nat -> Table
  {
    (k: nat) => TableOf(Grown(log, batches, start + k), id, authority)
  }

  lemma FetchedGrows(log: seq<Write>, batches: nat -> seq<Write>, start: nat, id: Id, authority: Authority)
    requires WellFormed(log)
    ensures Growing(Fetched(log, batches, start, id, authority))
  {
    var now := Fetched(log, batches, start, id, authority);
    forall k: nat ensures Ordered(now(k)) && now(k) <= now(k + 1) {
      GrownGrows(log, batches, start + k, start + k);
      GrownGrows(log, batches, start + k, start + (k + 1));
      TablePrefix(Grown(log, batches, start + k), Grown(log, batches, start + (k + 1)), id, authority);
    }
  }

  /** The stores number their rows from one. */
  predicate PositiveKeys(log: seq<Write>) { forall i :: 0 <= i < |log| ==> log[i].row.key > 0 }

  lemma {:induction false} PositiveRows(log: seq<Write>, db: Id, authority: Authority)
    requires PositiveKeys(log)
    ensures forall i :: 0 <= i < |TableOf(log, db, authority)| ==> TableOf(log, db, authority)[i].key > 0
  {
    if log != [] { PositiveRows(log[..|log| - 1], db, authority); }
  }

  /** Every row written up to fetch `clock` has a positive key; so has every earlier one. */
  predicate PositiveBy(log: seq<Write>, batches: nat -> seq<Write>, clock: nat) {
    PositiveKeys(Grown(log, batches, clock))
  }

  lemma PositiveEarlier(log: seq<Write>, batches: nat -> seq<Write>, j: nat, k: nat)
    requires WellFormed(log) && j <= k && PositiveBy(log, batches, k)
    ensures PositiveBy(log, batches, j)
  {
    GrownGrows(log, batches, j, k);
  }

  /** Through its captured frontier a table of the grown log reads as it was at the instant. */
  lemma GrownReadsTheCut(log: seq<Write>, instant: nat, batches: nat -> seq<Write>, clock: nat, id: Id,
        authority: Authority)
    requires WellFormed(log) && instant <= |log| && PositiveBy(log, batches, clock)
    ensures var captured := TableOf(log[..instant], id, authority);
            RowsIn(TableOf(Grown(log, batches, clock), id, authority), -1, Frontier(captured)) == captured
  {
    var later := Grown(log, batches, clock);
    GrownGrows(log, batches, 0, clock);
    assert log[..instant] <= later;
    TablePrefix(log[..instant], later, id, authority);
    PositiveRows(later, id, authority);
    ReadsExactlyTheCut(TableOf(log[..instant], id, authority), TableOf(later, id, authority));
  }

  /** One authority of one captured database, with `start` fetches made before and writers active throughout. */
  method Walk(log: seq<Write>, ghost instant: nat, batches: nat -> seq<Write>, start: nat, id: Id, authority: Authority,
        through: int, fails: nat -> bool)
      returns (visited: seq<Row>, ok: bool, clock: nat)
    requires WellFormed(log) && instant <= |log| && through == Frontier(TableOf(log[..instant], id, authority))
    ensures start <= clock && (!ok ==> fails(clock))
    ensures ok && PositiveBy(log, batches, clock) ==> visited == TableOf(log[..instant], id, authority)
  {
    FetchedGrows(log, batches, start, id, authority);
    var fetches;
    visited, ok, fetches := Each(Fetched(log, batches, start, id, authority), through, (k: nat) => fails(start + k));
    clock := start + fetches;
    if ok && PositiveBy(log, batches, clock) { GrownReadsTheCut(log, instant, batches, clock, id, authority); }
  }

  const AUTHORITIES := [Journal, Messages, Surface, Requests, Projections, PublicationAudits]

  /** The first `n` authorities of one database, each as the instant held it. */
  ghost predicate HoldsFirst(tables: map<Authority, seq<Row>>, cut: seq<Write>, id: Id, n: nat)
    requires n <= |AUTHORITIES|
  {
    forall j :: 0 <= j < n ==> AUTHORITIES[j] in tables && tables[AUTHORITIES[j]] == TableOf(cut, id, AUTHORITIES[j])
  }

  ghost predicate Holds(tables: map<Authority, seq<Row>>, cut: seq<Write>, id: Id) {
    forall a :: a in tables && tables[a] == TableOf(cut, id, a)
  }

  lemma HoldsAll(tables: map<Authority, seq<Row>>, cut: seq<Write>, id: Id)
    requires HoldsFirst(tables, cut, id, |AUTHORITIES|)
    ensures Holds(tables, cut, id)
  {
    forall a ensures a in tables && tables[a] == TableOf(cut, id, a) {
      assert a == AUTHORITIES[0] || a == AUTHORITIES[1] || a == AUTHORITIES[2]
          || a == AUTHORITIES[3] || a == AUTHORITIES[4] || a == AUTHORITIES[5];
    }
  }

  lemma HoldsOneMore(tables: map<Authority, seq<Row>>, cut: seq<Write>, id: Id, n: nat, rows: seq<Row>)
    requires n < |AUTHORITIES| && HoldsFirst(tables, cut, id, n) && rows == TableOf(cut, id, AUTHORITIES[n])
    ensures HoldsFirst(tables[AUTHORITIES[n] := rows], cut, id, n + 1)
  {
  }

  method ExportOne(log: seq<Write>, ghost instant: nat, batches: nat -> seq<Write>, start: nat, id: Id, cut: Frontiers,
        fails: nat -> bool)
      returns (tables: map<Authority, seq<Row>>, ok: bool, clock: nat)
    requires WellFormed(log) && instant <= |log| && cut == FrontiersOf(log[..instant], id)
    ensures start <= clock && (!ok ==> fails(clock))
    ensures ok && PositiveBy(log, batches, clock) ==> Holds(tables, log[..instant], id)
  {
    tables, ok, clock := map[], true, start;
    for i := 0 to |AUTHORITIES|
      invariant start <= clock
      invariant PositiveBy(log, batches, clock) ==> HoldsFirst(tables, log[..instant], id, i)
    {
      var through := cut.Through(AUTHORITIES[i]);
      var rows, done, next := Walk(log, instant, batches, clock, id, AUTHORITIES[i], through, fails);
      if !done { return tables, false, next; }
      if PositiveBy(log, batches, next) {
        PositiveEarlier(log, batches, clock, next);
        HoldsOneMore(tables, log[..instant], id, i, rows);
      }
      tables, clock := tables[AUTHORITIES[i] := rows], next;
    }
    if PositiveBy(log, batches, clock) { HoldsAll(tables, log[..instant], id); }
  }

  /** The files of the first databases, each as the instant held it. */
  ghost predicate AllHold(files: seq<map<Authority, seq<Row>>>, cut: seq<Write>, ids: seq<Id>) {
    |files| <= |ids| && forall i :: 0 <= i < |files| ==> Holds(files[i], cut, ids[i])
  }

  lemma AllHoldOneMore(files: seq<map<Authority, seq<Row>>>, cut: seq<Write>, ids: seq<Id>,
        tables: map<Authority, seq<Row>>)
    requires |files| < |ids| && AllHold(files, cut, ids) && Holds(tables, cut, ids[|files|])
    ensures AllHold(files + [tables], cut, ids)
  {
  }

  /**
   * Capture, then every walk of every captured database, against every schedule of writers before
   * and after the barriers are released and every fault. One instant within the capture is what
   * the archive holds: every table of every database as the global log left it there.
   */
  method Export(ids: seq<Id>, initial: seq<Write>, writers: seq<seq<Write>>, captureFails: nat -> bool,
        batches: nat -> seq<Write>, readFails: nat -> bool)
      returns (archive: Option<seq<map<Authority, seq<Row>>>>, log: seq<Write>, instant: nat, clock: nat)
    requires WellFormed(initial)
    ensures initial <= log && |initial| <= instant <= |log|
    ensures archive.None? ==> Faulty(captureFails) || readFails(clock)
    ensures archive.Some? && PositiveBy(log, batches, clock) ==>
              |archive.value| == |ids| && AllHold(archive.value, log[..instant], ids)
  {
    var cuts;
    cuts, log, instant := Prepare(ids, initial, writers, captureFails);
    archive, clock := None, 0;
    if cuts.Err? { return; }
    var files := [];
    for i := 0 to |ids|
      invariant |files| == i
      invariant PositiveBy(log, batches, clock) ==> AllHold(files, log[..instant], ids)
    {
      var tables, ok, next := ExportOne(log, instant, batches, clock, ids[i], cuts.value[i], readFails);
      if !ok { return None, log, instant, next; }
      if PositiveBy(log, batches, next) {
        PositiveEarlier(log, batches, clock, next);
        AllHoldOneMore(files, log[..instant], ids, tables);
      }
      files, clock := files + [tables], next;
    }
    archive := Some(files);
  }
}
