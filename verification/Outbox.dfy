/** The persistent queue of operations waiting to be sent. Rows are kept in enqueue order,
    which is also how ties of the query order are broken. */
module Outbox {
  import opened Models

  datatype SyncState = Pending | Synced | Failed | Conflicted

  datatype Row = Row(op: Operation, state: SyncState, syncedAt: Option<real>, attempts: nat, lastError: Option<string>)

  function HasId(rows: seq<Row>, id: string): bool {
    exists r | r in rows :: r.op.opId == id
  }

  ghost predicate UniqueIds(rows: seq<Row>) {
    forall i, j | 0 <= i < j < |rows| :: rows[i].op.opId != rows[j].op.opId
  }

  // ----- The query: filter, sort by tier then time, cut

  /** Which rows a query asks for: pending, under the tier condition, in the collection. */
  datatype Filter = Filter(exact: Option<Priority>, cutoff: Option<Priority>, collection: Option<string>)

  predicate Matches(f: Filter, r: Row) {
    && r.state.Pending?
    && (if f.exact.Some? then r.op.priority == f.exact.value
        else f.cutoff.Some? ==> r.op.priority.Level() <= f.cutoff.value.Level())
    && (f.collection.Some? ==> r.op.key.collection == f.collection.value)
  }

  function Asked(f: Filter): Row -> bool {
    (r: Row) => Matches(f, r)
  }

  /** The rows that satisfy `p`, in their given order. */
  function Keep(p: Row -> bool, rows: seq<Row>): seq<Row> {
    if rows == [] then []
    else
      var front := Keep(p, rows[..|rows| - 1]);
      if p(rows[|rows| - 1]) then front + [rows[|rows| - 1]] else front
  }

  function Select(f: Filter, rows: seq<Row>): seq<Row> {
    Keep(Asked(f), rows)
  }

  /** `a` is sent before `b`: higher tier, or same tier and older. */
  predicate Sooner(a: Row, b: Row) {
    || a.op.priority.Level() < b.op.priority.Level()
    || (a.op.priority == b.op.priority && a.op.timestamp < b.op.timestamp)
  }

  /** In order means higher tiers first, and earlier times first inside a tier. */
  lemma OrderMeans(rows: seq<Row>)
    ensures InOrder(rows) <==> forall i, j | 0 <= i < j < |rows| ::
              || rows[i].op.priority.Level() < rows[j].op.priority.Level()
              || (rows[i].op.priority == rows[j].op.priority && rows[i].op.timestamp <= rows[j].op.timestamp)
  {
    forall a: Row, b: Row
      ensures !Sooner(b, a) <==>
              || a.op.priority.Level() < b.op.priority.Level()
              || (a.op.priority == b.op.priority && a.op.timestamp <= b.op.timestamp)
    {
      SameLevelSameTier(a.op.priority, b.op.priority);
    }
  }

  lemma SameLevelSameTier(p: Priority, q: Priority)
    ensures p.Level() == q.Level() <==> p == q
  {
  }

  /** Puts a later row behind every row that does not have to wait for it. */
  function InsertRow(r: Row, sorted: seq<Row>): seq<Row> {
    if sorted == [] then [r]
    else
      var n := |sorted| - 1;
      if Sooner(r, sorted[n]) then InsertRow(r, sorted[..n]) + [sorted[n]] else sorted + [r]
  }

  function SortRows(rows: seq<Row>): seq<Row> {
    if rows == [] then []
    else InsertRow(rows[|rows| - 1], SortRows(rows[..|rows| - 1]))
  }

  /** SQL's LIMIT: a negative number means no limit. */
  function Limited(limit: int, rows: seq<Row>): seq<Row> {
    if limit < 0 || |rows| <= limit then rows else rows[..limit]
  }

  function PendingRows(rows: seq<Row>, limit: int, f: Filter): seq<Row> {
    Limited(limit, SortRows(Select(f, rows)))
  }

  function OpsOf(rows: seq<Row>): seq<Operation> {
    seq(|rows|, i requires 0 <= i < |rows| => rows[i].op)
  }

  function IdsOf(ops: seq<Operation>): seq<string> {
    seq(|ops|, i requires 0 <= i < |ops| => ops[i].opId)
  }

  lemma IdsStep(ops: seq<Operation>, op: Operation)
    ensures IdsOf(ops + [op]) == IdsOf(ops) + [op.opId]
  {
  }

  // ----- State changes

  function MarkRow(r: Row, ids: seq<string>, change: Row -> Row): Row {
    if r.op.opId in ids then change(r) else r
  }

  function MapRows(rows: seq<Row>, ids: seq<string>, change: Row -> Row): seq<Row> {
    seq(|rows|, i requires 0 <= i < |rows| => MarkRow(rows[i], ids, change))
  }

  function ToSynced(now: real): Row -> Row {
    (r: Row) => r.(state := Synced, syncedAt := Some(now))
  }

  function ToFailed(error: string): Row -> Row {
    (r: Row) => r.(state := Failed, attempts := r.attempts + 1, lastError := Some(error))
  }

  function ToConflicted(detail: string): Row -> Row {
    (r: Row) => r.(state := Conflicted, lastError := Some(detail))
  }

  function SyncedRows(rows: seq<Row>, ids: seq<string>, now: real): seq<Row> {
    MapRows(rows, ids, ToSynced(now))
  }

  function FailedRows(rows: seq<Row>, ids: seq<string>, error: string): seq<Row> {
    MapRows(rows, ids, ToFailed(error))
  }

  /** Failed rows become pending again; this runs when an engine is constructed and at no
      other time. */
  function ResetFailed(rows: seq<Row>): seq<Row> {
    seq(|rows|, i requires 0 <= i < |rows| => if rows[i].state.Failed? then rows[i].(state := Pending) else rows[i])
  }

  predicate Purgeable(r: Row, cutoff: real) {
    r.state.Synced? && r.syncedAt.Some? && r.syncedAt.value < cutoff
  }

  function Purge(rows: seq<Row>, cutoff: real): seq<Row> {
    if rows == [] then []
    else
      var front := Purge(rows[..|rows| - 1], cutoff);
      if Purgeable(rows[|rows| - 1], cutoff) then front else front + [rows[|rows| - 1]]
  }

  function CountPending(rows: seq<Row>, p: Option<Priority>): nat {
    |Select(Filter(p, None, None), rows)|
  }

  // ----- The queue object

  class OutboxQueue {
    var rows: seq<Row>
    var syncLocked: bool

    constructor ()
      ensures rows == [] && !syncLocked
    {
      rows := [];
      syncLocked := false;
    }

    /** The operation identifier is the primary key: a second row with it is an error that
        rolls the insertion back. */
    method Enqueue(op: Operation) returns (ok: bool)
      modifies this`rows
      ensures ok <==> !HasId(old(rows), op.opId)
      ensures rows == if ok then old(rows) + [Row(op, Pending, None, 0, None)] else old(rows)
      ensures old(UniqueIds(rows)) ==> UniqueIds(rows)
    {
      ok := !HasId(rows, op.opId);
      if ok {
        rows := rows + [Row(op, Pending, None, 0, None)];
      }
    }

    method GetPending(limit: int, f: Filter) returns (ops: seq<Operation>)
      ensures ops == OpsOf(PendingRows(rows, limit, f))
      ensures |ops| == if limit < 0 then |Select(f, rows)| else Min(limit, |Select(f, rows)|)
      ensures forall i, j | 0 <= i < j < |ops| ::
                || ops[i].priority.Level() < ops[j].priority.Level()
                || (ops[i].priority == ops[j].priority && ops[i].timestamp <= ops[j].timestamp)
      ensures forall i | 0 <= i < |ops| ::
                && (f.exact.Some? ==> ops[i].priority == f.exact.value)
                && (f.exact.None? && f.cutoff.Some? ==> ops[i].priority.Level() <= f.cutoff.value.Level())
                && (f.collection.Some? ==> ops[i].key.collection == f.collection.value)
    {
      ghost var batch := PendingRows(rows, limit, f);
      PendingIsBestPrefix(rows, limit, f);
      OrderMeans(batch);
      assert forall i | 0 <= i < |batch| :: batch[i] in batch;
      ops := OpsOf(PendingRows(rows, limit, f));
    }

    method PendingCount(p: Option<Priority>) returns (n: nat)
      ensures n == CountPending(rows, p)
      ensures n == |set i | 0 <= i < |rows| && rows[i].state.Pending? && (p.Some? ==> rows[i].op.priority == p.value)|
    {
      SelectCount(Filter(p, None, None), rows);
      assert (set i | 0 <= i < |rows| && Matches(Filter(p, None, None), rows[i]))
          == (set i | 0 <= i < |rows| && rows[i].state.Pending? && (p.Some? ==> rows[i].op.priority == p.value));
      n := |Select(Filter(p, None, None), rows)|;
    }

    /** One count per tier; together they account for every pending row. */
    method PendingBreakdown() returns (counts: map<Priority, nat>)
      ensures counts.Keys == {P0, P1, P2, P3, P4}
      ensures forall p | p in counts :: counts[p] == CountPending(rows, Some(p))
      ensures counts[P0] + counts[P1] + counts[P2] + counts[P3] + counts[P4] == CountPending(rows, None)
    {
      counts := map[P0 := 0, P1 := 0, P2 := 0, P3 := 0, P4 := 0];
      for i := 0 to |rows|
        invariant counts.Keys == {P0, P1, P2, P3, P4}
        invariant forall p | p in counts :: counts[p] == CountPending(rows[..i], Some(p))
        invariant counts[P0] + counts[P1] + counts[P2] + counts[P3] + counts[P4] == CountPending(rows[..i], None)
      {
        assert rows[..i + 1][..i] == rows[..i];
        if rows[i].state.Pending? {
          var p := rows[i].op.priority;
          assert p.P0? || p.P1? || p.P2? || p.P3? || p.P4?;
          counts := counts[p := counts[p] + 1];
        }
      }
      assert rows[..|rows|] == rows;
    }

    method MarkSynced(ids: seq<string>, now: real)
      modifies this`rows
      ensures rows == SyncedRows(old(rows), ids, now)
      ensures |rows| == |old(rows)|
      ensures forall i | 0 <= i < |rows| && old(rows)[i].op.opId !in ids :: rows[i] == old(rows)[i]
      ensures forall i | 0 <= i < |rows| && old(rows)[i].op.opId in ids ::
                rows[i] == Row(old(rows)[i].op, Synced, Some(now), old(rows)[i].attempts, old(rows)[i].lastError)
    {
      if ids != [] {
        rows := SyncedRows(rows, ids, now);
      }
    }

    method MarkFailed(ids: seq<string>, error: string)
      modifies this`rows
      ensures rows == FailedRows(old(rows), ids, error)
      ensures |rows| == |old(rows)|
      ensures forall i | 0 <= i < |rows| && old(rows)[i].op.opId !in ids :: rows[i] == old(rows)[i]
      ensures forall i | 0 <= i < |rows| && old(rows)[i].op.opId in ids ::
                rows[i] == Row(old(rows)[i].op, Failed, old(rows)[i].syncedAt, old(rows)[i].attempts + 1, Some(error))
    {
      if ids != [] {
        rows := FailedRows(rows, ids, error);
      }
    }

    method MarkConflicted(id: string, detail: string)
      modifies this`rows
      ensures |rows| == |old(rows)|
      ensures forall i | 0 <= i < |rows| && old(rows)[i].op.opId != id :: rows[i] == old(rows)[i]
      ensures forall i | 0 <= i < |rows| && old(rows)[i].op.opId == id ::
                rows[i] == Row(old(rows)[i].op, Conflicted, old(rows)[i].syncedAt, old(rows)[i].attempts, Some(detail))
      ensures forall f :: |Select(f, rows)| <= |Select(f, old(rows))|
    {
      forall f { ConflictsOnlyHide(f, rows, id, detail); }
      rows := MapRows(rows, [id], ToConflicted(detail));
    }

    /** Every failed row and no other becomes pending again, with its attempts and its last
        error kept; the number of such rows is returned. */
    method ResetInFlight() returns (reset: nat)
      modifies this`rows
      ensures rows == ResetFailed(old(rows))
      ensures |rows| == |old(rows)|
      ensures forall i | 0 <= i < |rows| && !old(rows)[i].state.Failed? :: rows[i] == old(rows)[i]
      ensures forall i | 0 <= i < |rows| && old(rows)[i].state.Failed? :: rows[i] == old(rows)[i].(state := Pending)
      ensures reset == CountPending(rows, None) - CountPending(old(rows), None)
      ensures reset == |set i | 0 <= i < |old(rows)| && old(rows)[i].state.Failed?|
    {
      ResetCount(rows);
      reset := |FailedPlaces(rows)|;
      rows := ResetFailed(rows);
    }

    method PurgeSynced(cutoff: real) returns (purged: nat)
      modifies this`rows
      ensures rows == Purge(old(rows), cutoff)
      ensures forall r :: r in rows <==>
                r in old(rows) && !(r.state == Synced && r.syncedAt.Some? && r.syncedAt.value < cutoff)
      ensures purged == |old(rows)| - |rows|
    {
      PurgeShrinks(rows, cutoff);
      purged := |rows| - |Purge(rows, cutoff)|;
      rows := Purge(rows, cutoff);
    }

    method Lock() returns (ok: bool)
      modifies this`syncLocked
      ensures ok == !old(syncLocked) && syncLocked
    {
      ok := !syncLocked;
      syncLocked := true;
    }

    method Unlock()
      modifies this`syncLocked
      ensures !syncLocked
    {
      syncLocked := false;
    }
  }

  function Min(x: int, y: int): int {
    if x <= y then x else y
  }

  // ----- Facts about rows

  lemma {:induction false} PurgeShrinks(rows: seq<Row>, cutoff: real)
    ensures |Purge(rows, cutoff)| <= |rows|
    ensures forall r :: r in Purge(rows, cutoff) <==> r in rows && !Purgeable(r, cutoff)
    ensures forall r :: r in Purge(rows, cutoff) <==>
              r in rows && !(r.state == Synced && r.syncedAt.Some? && r.syncedAt.value < cutoff)
  {
    if rows != [] {
      PurgeShrinks(rows[..|rows| - 1], cutoff);
      assert rows == rows[..|rows| - 1] + [rows[|rows| - 1]];
    }
  }

  lemma {:induction false} PurgeKeepsUnique(rows: seq<Row>, cutoff: real)
    requires UniqueIds(rows)
    ensures UniqueIds(Purge(rows, cutoff))
  {
    if rows != [] {
      var front := rows[..|rows| - 1];
      PurgeKeepsUnique(front, cutoff);
      PurgeShrinks(front, cutoff);
      forall r | r in Purge(front, cutoff)
        ensures r.op.opId != rows[|rows| - 1].op.opId
      {
        assert r in front;
      }
    }
  }

  lemma {:induction false} KeepMembers(p: Row -> bool, rows: seq<Row>)
    ensures forall r :: r in Keep(p, rows) <==> r in rows && p(r)
  {
    if rows != [] {
      KeepMembers(p, rows[..|rows| - 1]);
      assert rows == rows[..|rows| - 1] + [rows[|rows| - 1]];
    }
  }

  lemma KeepAppend(p: Row -> bool, rows: seq<Row>, r: Row)
    ensures Keep(p, rows + [r]) == Keep(p, rows) + if p(r) then [r] else []
  {
    assert (rows + [r])[..|rows|] == rows;
  }

  /** Two selections can be made in either order. */
  lemma {:induction false} KeepSwaps(p: Row -> bool, q: Row -> bool, rows: seq<Row>)
    ensures Keep(p, Keep(q, rows)) == Keep(q, Keep(p, rows))
  {
    if rows != [] {
      var front, last := rows[..|rows| - 1], rows[|rows| - 1];
      KeepSwaps(p, q, front);
      KeepAppend(p, Keep(q, front), last);
      KeepAppend(q, Keep(p, front), last);
    }
  }

  lemma SelectMembers(f: Filter, rows: seq<Row>)
    ensures forall r :: r in Select(f, rows) <==> r in rows && Matches(f, r)
    ensures forall r :: r in Select(f, rows) <==>
              && r in rows && r.state == Pending
              && (f.exact.Some? ==> r.op.priority == f.exact.value)
              && (f.exact.None? && f.cutoff.Some? ==> r.op.priority.Level() <= f.cutoff.value.Level())
              && (f.collection.Some? ==> r.op.key.collection == f.collection.value)
  {
    KeepMembers(Asked(f), rows);
  }

  /** A conflicted row leaves every selection, and none joins one. */
  lemma {:induction false} ConflictsOnlyHide(f: Filter, rows: seq<Row>, id: string, detail: string)
    ensures |Select(f, MapRows(rows, [id], ToConflicted(detail)))| <= |Select(f, rows)|
  {
    if rows != [] {
      var n := |rows| - 1;
      ConflictsOnlyHide(f, rows[..n], id, detail);
      assert MapRows(rows, [id], ToConflicted(detail))[..n] == MapRows(rows[..n], [id], ToConflicted(detail));
    }
  }

  function FailedPlaces(rows: seq<Row>): set<int> {
    set i | 0 <= i < |rows| && rows[i].state.Failed?
  }

  lemma FailedStep(rows: seq<Row>)
    requires rows != []
    ensures var n := |rows| - 1;
            |FailedPlaces(rows)| == |FailedPlaces(rows[..n])| + if rows[n].state.Failed? then 1 else 0
  {
    var n := |rows| - 1;
    var front := FailedPlaces(rows[..n]);
    assert front == set i | 0 <= i < n && rows[i].state.Failed?;
    assert FailedPlaces(rows) == if rows[n].state.Failed? then front + {n} else front;
  }

  lemma ResetStep(rows: seq<Row>)
    requires rows != []
    ensures var n := |rows| - 1;
            ResetFailed(rows) == ResetFailed(rows[..n]) + [if rows[n].state.Failed? then rows[n].(state := Pending) else rows[n]]
  {
  }

  /** As many rows become pending as had failed. */
  lemma {:induction false} ResetCount(rows: seq<Row>)
    ensures CountPending(ResetFailed(rows), None) - CountPending(rows, None) == |FailedPlaces(rows)|
  {
    if rows != [] {
      var n := |rows| - 1;
      var every := Asked(Filter(None, None, None));
      ResetCount(rows[..n]);
      FailedStep(rows);
      ResetStep(rows);
      assert rows == rows[..n] + [rows[n]];
      KeepAppend(every, rows[..n], rows[n]);
      KeepAppend(every, ResetFailed(rows[..n]), ResetFailed(rows)[n]);
    }
  }

  /** How many rows match is how many places of the queue hold a matching row. */
  lemma {:induction false} SelectCount(f: Filter, rows: seq<Row>)
    ensures |Select(f, rows)| == |set i | 0 <= i < |rows| && Matches(f, rows[i])|
  {
    var places := set i | 0 <= i < |rows| && Matches(f, rows[i]);
    if rows == [] {
      assert places == {};
    } else {
      var n := |rows| - 1;
      SelectCount(f, rows[..n]);
      var front := set i | 0 <= i < n && Matches(f, rows[..n][i]);
      assert places == if Matches(f, rows[n]) then front + {n} else front;
    }
  }

  // ----- Facts about the sort

  ghost predicate InOrder(rows: seq<Row>) {
    forall i, j | 0 <= i < j < |rows| :: !Sooner(rows[j], rows[i])
  }

  /** Rows of one tier and one timestamp. */
  function RankClass(rows: seq<Row>, q: Row): seq<Row> {
    Keep(Ranked(q), rows)
  }

  function Ranked(q: Row): Row -> bool {
    (r: Row) => SameRank(r, q)
  }

  predicate SameRank(a: Row, b: Row) {
    a.op.priority == b.op.priority && a.op.timestamp == b.op.timestamp
  }

  lemma {:induction false} InsertKeepsRows(r: Row, sorted: seq<Row>)
    ensures multiset(InsertRow(r, sorted)) == multiset(sorted) + multiset{r}
    ensures |InsertRow(r, sorted)| == |sorted| + 1
  {
    if sorted != [] {
      var n := |sorted| - 1;
      assert sorted == sorted[..n] + [sorted[n]];
      InsertKeepsRows(r, sorted[..n]);
    }
  }

  lemma {:induction false} SortKeepsRows(rows: seq<Row>)
    ensures multiset(SortRows(rows)) == multiset(rows)
    ensures |SortRows(rows)| == |rows|
  {
    if rows != [] {
      var n := |rows| - 1;
      assert rows == rows[..n] + [rows[n]];
      SortKeepsRows(rows[..n]);
      InsertKeepsRows(rows[n], SortRows(rows[..n]));
    }
  }

  lemma InsertMembers(r: Row, sorted: seq<Row>)
    ensures forall x | x in InsertRow(r, sorted) :: x == r || x in sorted
  {
    InsertKeepsRows(r, sorted);
    forall x | x in InsertRow(r, sorted)
      ensures x == r || x in sorted
    {
      assert x in multiset(InsertRow(r, sorted));
    }
  }

  lemma AppendInOrder(sorted: seq<Row>, last: Row)
    requires InOrder(sorted) && forall x | x in sorted :: !Sooner(last, x)
    ensures InOrder(sorted + [last])
  {
  }

  lemma {:induction false} InsertInOrder(r: Row, sorted: seq<Row>)
    requires InOrder(sorted)
    ensures InOrder(InsertRow(r, sorted))
  {
    if sorted != [] {
      var n := |sorted| - 1;
      if Sooner(r, sorted[n]) {
        InsertInOrder(r, sorted[..n]);
        InsertMembers(r, sorted[..n]);
        AppendInOrder(InsertRow(r, sorted[..n]), sorted[n]);
      } else {
        forall x | x in sorted
          ensures !Sooner(r, x)
        {
          LastIsLatest(sorted, x);
        }
        AppendInOrder(sorted, r);
      }
    }
  }

  lemma {:induction false} SortInOrder(rows: seq<Row>)
    ensures InOrder(SortRows(rows))
  {
    if rows != [] {
      SortInOrder(rows[..|rows| - 1]);
      InsertInOrder(rows[|rows| - 1], SortRows(rows[..|rows| - 1]));
    }
  }

  lemma {:induction false} InsertClass(r: Row, sorted: seq<Row>, q: Row)
    requires InOrder(sorted)
    ensures RankClass(InsertRow(r, sorted), q) == RankClass(sorted, q) + if SameRank(r, q) then [r] else []
  {
    if sorted != [] && Sooner(r, sorted[|sorted| - 1]) {
      var n := |sorted| - 1;
      InsertClass(r, sorted[..n], q);
      KeepAppend(Ranked(q), InsertRow(r, sorted[..n]), sorted[n]);
    } else {
      KeepAppend(Ranked(q), sorted, r);
    }
  }

  /** First in, first out inside one tier and time. */
  lemma {:induction false} SortIsStable(rows: seq<Row>, q: Row)
    ensures RankClass(SortRows(rows), q) == RankClass(rows, q)
  {
    if rows != [] {
      var front := rows[..|rows| - 1];
      SortIsStable(front, q);
      SortInOrder(front);
      InsertClass(rows[|rows| - 1], SortRows(front), q);
    }
  }

  /** A reference definition of the query order: sorted by tier then time and, inside each
      tier and time, in the given order. Only one arrangement of the rows is like that. */
  ghost predicate IsArrangement(rows: seq<Row>, s: seq<Row>) {
    InOrder(s) && forall q :: RankClass(s, q) == RankClass(rows, q)
  }

  lemma SortIsTheArrangement(rows: seq<Row>, s: seq<Row>)
    ensures IsArrangement(rows, s) <==> s == SortRows(rows)
  {
    SortInOrder(rows);
    forall q { SortIsStable(rows, q); }
    if IsArrangement(rows, s) {
      ArrangementsAgree(s, SortRows(rows));
    }
  }

  /** Rows enqueued in send order are sent in enqueue order. */
  lemma AlreadyInOrder(rows: seq<Row>)
    ensures SortRows(rows) == rows <==> InOrder(rows)
  {
    SortIsTheArrangement(rows, rows);
  }

  lemma {:induction false} KeepInOrder(p: Row -> bool, rows: seq<Row>)
    requires InOrder(rows)
    ensures InOrder(Keep(p, rows))
  {
    if rows != [] {
      var front, last := rows[..|rows| - 1], rows[|rows| - 1];
      KeepInOrder(p, front);
      KeepMembers(p, front);
      forall x | x in Keep(p, front)
        ensures !Sooner(last, x)
      {
        LastIsLatest(rows, x);
      }
      AppendInOrder(Keep(p, front), last);
    }
  }

  /** Selecting commutes with the send order: the rows selected are sent in the same order
      whatever other rows there are. */
  lemma SelectionIsSortedAlone(p: Row -> bool, rows: seq<Row>)
    ensures Keep(p, SortRows(rows)) == SortRows(Keep(p, rows))
  {
    SortInOrder(rows);
    KeepInOrder(p, SortRows(rows));
    forall q
      ensures RankClass(Keep(p, SortRows(rows)), q) == RankClass(Keep(p, rows), q)
    {
      KeepSwaps(Ranked(q), p, SortRows(rows));
      SortIsStable(rows, q);
      KeepSwaps(Ranked(q), p, rows);
    }
    SortIsTheArrangement(Keep(p, rows), Keep(p, SortRows(rows)));
  }

  lemma SelectionKeepsItsOrder(p: Row -> bool, rows: seq<Row>)
    ensures Keep(p, SortRows(rows)) == Keep(p, rows) <==> InOrder(Keep(p, rows))
  {
    SelectionIsSortedAlone(p, rows);
    AlreadyInOrder(Keep(p, rows));
  }

  /** The rows of one record. */
  function RowsOn(rows: seq<Row>, k: Key): seq<Row> {
    Keep(OnRecord(k), rows)
  }

  function OnRecord(k: Key): Row -> bool {
    (r: Row) => r.op.key == k
  }

  /** The operations on a record leave in the order of their enqueueing if and only if
      their tiers and times already stand in that order. */
  lemma RecordKeepsItsOrder(rows: seq<Row>, k: Key)
    ensures RowsOn(SortRows(rows), k) == RowsOn(rows, k) <==> InOrder(RowsOn(rows, k))
  {
    SelectionKeepsItsOrder(OnRecord(k), rows);
  }

  /** The rows of one tier. */
  function TierRows(rows: seq<Row>, p: Priority): seq<Row> {
    Keep(InTier(p), rows)
  }

  function InTier(p: Priority): Row -> bool {
    (r: Row) => r.op.priority == p
  }

  ghost predicate TimesDoNotGoBack(rows: seq<Row>) {
    forall i, j | 0 <= i < j < |rows| :: rows[i].op.timestamp <= rows[j].op.timestamp
  }

  /** A tier is first in, first out if and only if the times of its rows do not go back. */
  lemma TierIsFifo(rows: seq<Row>, p: Priority)
    ensures TierRows(SortRows(rows), p) == TierRows(rows, p) <==> TimesDoNotGoBack(TierRows(rows, p))
  {
    var tier := TierRows(rows, p);
    SelectionKeepsItsOrder(InTier(p), rows);
    KeepMembers(InTier(p), rows);
    forall i | 0 <= i < |tier|
      ensures tier[i].op.priority == p
    {
      assert tier[i] in tier;
    }
  }

  lemma SortPair(first: Row, second: Row)
    requires Sooner(second, first)
    ensures SortRows([first, second]) == [second, first]
  {
    assert [first, second][..1] == [first] && [first][..0] == [];
    assert SortRows([]) == [] && InsertRow(first, []) == [first] && InsertRow(second, []) == [second];
    assert SortRows([first]) == [first];
    assert SortRows([first, second]) == InsertRow(second, [first]) == [second, first];
  }

  /** So a clock set back between two writes of a tier swaps them. */
  lemma TierIsNotFifo(first: Row, second: Row)
    requires first.op.priority == second.op.priority && second.op.timestamp < first.op.timestamp
    ensures SortRows([first, second]) == [second, first]
    ensures TierRows(SortRows([first, second]), first.op.priority) != TierRows([first, second], first.op.priority)
  {
    SortPair(first, second);
    KeepAppend(InTier(first.op.priority), [first], second);
    KeepAppend(InTier(first.op.priority), [second], first);
    KeepAppend(InTier(first.op.priority), [], first);
    KeepAppend(InTier(first.op.priority), [], second);
    assert [] + [first] == [first] && [] + [second] == [second];
    assert [first] + [second] == [first, second] && [second] + [first] == [second, first];
    assert TierRows([second, first], first.op.priority) == [second, first];
    assert [second, first][0] != [first, second][0];
  }

  lemma {:induction false} KeepConcat(p: Row -> bool, a: seq<Row>, b: seq<Row>)
    ensures Keep(p, a + b) == Keep(p, a) + Keep(p, b)
  {
    if b == [] {
      assert a + b == a;
    } else {
      assert (a + b)[..|a + b| - 1] == a + b[..|b| - 1];
      KeepConcat(p, a, b[..|b| - 1]);
    }
  }

  lemma {:induction false} KeepAll(p: Row -> bool, rows: seq<Row>)
    requires forall r | r in rows :: p(r)
    ensures Keep(p, rows) == rows
  {
    if rows != [] {
      var n := |rows| - 1;
      KeepAll(p, rows[..n]);
      assert rows == rows[..n] + [rows[n]];
    }
  }

  lemma {:induction false} KeepNone(p: Row -> bool, rows: seq<Row>)
    requires forall r | r in rows :: !p(r)
    ensures Keep(p, rows) == []
  {
    if rows != [] {
      assert rows[|rows| - 1] in rows;
      KeepNone(p, rows[..|rows| - 1]);
    }
  }

  lemma {:induction false} ArrangementsAgree(a: seq<Row>, b: seq<Row>)
    requires InOrder(a) && InOrder(b) && forall q :: RankClass(a, q) == RankClass(b, q)
    ensures a == b
  {
    if a == [] {
      NoClassesNoRows(b);
    } else {
      SameClassesSameRows(a, b);
      SameClassesSameRows(b, a);
      assert a[|a| - 1] in b;
      assert b[|b| - 1] in a;
      LastIsLatest(a, b[|b| - 1]);
      LastIsLatest(b, a[|a| - 1]);
      NeitherSooner(a[|a| - 1], b[|b| - 1]);
      LastRowsAgree(a, b, a[|a| - 1]);
      var x := a[|a| - 1];
      var fa, fb := a[..|a| - 1], b[..|b| - 1];
      assert a == fa + [x] && b == fb + [x];
      forall q
        ensures RankClass(fa, q) == RankClass(fb, q)
      {
        var tail := if SameRank(x, q) then [x] else [];
        assert RankClass(a, q) == RankClass(fa, q) + tail;
        assert RankClass(b, q) == RankClass(fb, q) + tail;
        assert RankClass(fa, q) == RankClass(a, q)[..|RankClass(a, q)| - |tail|];
        assert RankClass(fb, q) == RankClass(b, q)[..|RankClass(b, q)| - |tail|];
      }
      ArrangementsAgree(fa, fb);
    }
  }

  lemma NoClassesNoRows(b: seq<Row>)
    requires forall q :: RankClass(b, q) == []
    ensures b == []
  {
    if b != [] {
      RankClassLast(b, b[|b| - 1]);
    }
  }

  lemma SameClassesSameRows(a: seq<Row>, b: seq<Row>)
    requires forall q :: RankClass(a, q) == RankClass(b, q)
    ensures forall r | r in a :: r in b
  {
    forall r | r in a
      ensures r in b
    {
      KeepMembers(Ranked(r), a);
      KeepMembers(Ranked(r), b);
      assert r in RankClass(a, r);
    }
  }

  lemma LastIsLatest(rows: seq<Row>, r: Row)
    requires InOrder(rows) && r in rows
    ensures !Sooner(rows[|rows| - 1], r)
  {
    var i :| 0 <= i < |rows| && rows[i] == r;
  }

  lemma NeitherSooner(x: Row, y: Row)
    requires !Sooner(x, y) && !Sooner(y, x)
    ensures SameRank(y, x)
  {
    assert x.op.priority.Level() == y.op.priority.Level();
  }

  lemma LastRowsAgree(a: seq<Row>, b: seq<Row>, x: Row)
    requires a != [] && b != [] && SameRank(a[|a| - 1], x) && SameRank(b[|b| - 1], x)
    requires RankClass(a, x) == RankClass(b, x)
    ensures a[|a| - 1] == b[|b| - 1]
  {
    RankClassLast(a, x);
    RankClassLast(b, x);
  }

  lemma RankClassLast(rows: seq<Row>, q: Row)
    requires rows != [] && SameRank(rows[|rows| - 1], q)
    ensures RankClass(rows, q) != [] && RankClass(rows, q)[|RankClass(rows, q)| - 1] == rows[|rows| - 1]
  {
  }

  /** Rows that differ in their history only: attempts, errors, times of acknowledgement. */
  ghost predicate Alike(a: seq<Row>, b: seq<Row>) {
    |a| == |b| && forall i | 0 <= i < |a| :: a[i].op == b[i].op && a[i].state == b[i].state
  }

  lemma {:induction false} SelectAlike(f: Filter, a: seq<Row>, b: seq<Row>)
    requires Alike(a, b)
    ensures Alike(Select(f, a), Select(f, b))
  {
    if a != [] {
      SelectAlike(f, a[..|a| - 1], b[..|b| - 1]);
    }
  }

  lemma {:induction false} InsertAlike(r: Row, r': Row, a: seq<Row>, b: seq<Row>)
    requires Alike(a, b) && r.op == r'.op && r.state == r'.state
    ensures Alike(InsertRow(r, a), InsertRow(r', b))
  {
    if a != [] {
      InsertAlike(r, r', a[..|a| - 1], b[..|b| - 1]);
    }
  }

  lemma {:induction false} SortAlike(a: seq<Row>, b: seq<Row>)
    requires Alike(a, b)
    ensures Alike(SortRows(a), SortRows(b))
  {
    if a != [] {
      SortAlike(a[..|a| - 1], b[..|b| - 1]);
      InsertAlike(a[|a| - 1], b[|b| - 1], SortRows(a[..|a| - 1]), SortRows(b[..|b| - 1]));
    }
  }

  /** The history of a row does not matter for what is sent. */
  lemma PendingAlike(a: seq<Row>, b: seq<Row>, limit: int, f: Filter)
    requires Alike(a, b)
    ensures OpsOf(PendingRows(a, limit, f)) == OpsOf(PendingRows(b, limit, f))
  {
    SelectAlike(f, a, b);
    SortAlike(Select(f, a), Select(f, b));
  }

  /** What a batch leaves behind never goes ahead of what it takes; the batch is as long
      as the limit or the matches allow. */
  lemma PendingIsBestPrefix(rows: seq<Row>, limit: int, f: Filter)
    ensures var batch := PendingRows(rows, limit, f);
            && (forall r | r in batch :: r in rows && Matches(f, r))
            && |batch| == (if limit < 0 then |Select(f, rows)| else Min(limit, |Select(f, rows)|))
            && InOrder(batch)
            && (forall left, taken | left in rows && Matches(f, left) && left !in batch && taken in batch ::
                  !Sooner(left, taken))
  {
    var s := SortRows(Select(f, rows));
    var batch := PendingRows(rows, limit, f);
    SortKeepsRows(Select(f, rows));
    SortInOrder(Select(f, rows));
    SelectMembers(f, rows);
    forall r
      ensures r in s <==> r in rows && Matches(f, r)
    {
      assert r in s <==> r in multiset(s);
      assert r in Select(f, rows) <==> r in multiset(Select(f, rows));
    }
    assert forall j | 0 <= j < |batch| :: s[j] == batch[j] && s[j] in batch;
    forall left, taken | left in rows && Matches(f, left) && left !in batch && taken in batch
      ensures !Sooner(left, taken)
    {
      var i :| 0 <= i < |batch| && batch[i] == taken;
      assert left in s;
      var j :| 0 <= j < |s| && s[j] == left;
    }
  }
}
