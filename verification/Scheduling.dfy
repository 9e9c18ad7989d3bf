/** How much of the outbox a sync sends over a link of a given bandwidth, and what that
    means over several syncs. */
module Scheduling {
  import opened Models
  import opened Outbox

  datatype Config = Config(batchSize: int, lowThreshold: int, highThreshold: int, tolerance: real)

  function BatchSize(c: Config, bandwidth: int): int {
    if bandwidth > c.highThreshold then c.batchSize
    else if bandwidth > c.lowThreshold then Min(c.batchSize, 50)
    else if bandwidth > 16_000 then Min(c.batchSize, 20)
    else Min(c.batchSize, 5)
  }

  function PriorityCutoff(c: Config, bandwidth: int): Priority {
    if bandwidth >= c.highThreshold then P4
    else if bandwidth >= c.lowThreshold then P3
    else if bandwidth >= 16_000 then P2
    else P0
  }

  function UpTo(p: Priority): Filter {
    Filter(None, Some(p), None)
  }

  /** The rows a sync sends. */
  function Batch(c: Config, rows: seq<Row>, bandwidth: int): seq<Row> {
    PendingRows(rows, BatchSize(c, bandwidth), UpTo(PriorityCutoff(c, bandwidth)))
  }

  /** The tiers a link carries, whatever the order of the thresholds. */
  lemma TierEligibility(c: Config, bandwidth: int, r: Row)
    requires r.state.Pending?
    ensures Matches(UpTo(PriorityCutoff(c, bandwidth)), r) <==>
            match r.op.priority
            case P0 => true
            case P1 => bandwidth >= 16_000 || bandwidth >= c.lowThreshold || bandwidth >= c.highThreshold
            case P2 => bandwidth >= 16_000 || bandwidth >= c.lowThreshold || bandwidth >= c.highThreshold
            case P3 => bandwidth >= c.lowThreshold || bandwidth >= c.highThreshold
            case P4 => bandwidth >= c.highThreshold
  {
  }

  /** How many rows each band sends. A bandwidth equal to a threshold already opens the tier
      of the band above, but still has the bound of the band below. A negative batch size
      stays the smaller number in every band and so turns the SQL limit off. */
  lemma BatchLength(c: Config, rows: seq<Row>, bandwidth: int)
    ensures var n := |Batch(c, rows, bandwidth)|;
            var eligible := Eligible(c, rows, bandwidth);
            var most := Min(c.batchSize, eligible);
            && (c.batchSize < 0 ==> n == eligible)
            && (c.batchSize >= 0 ==>
                  && (c.highThreshold < bandwidth ==> n == most)
                  && (c.lowThreshold < bandwidth <= c.highThreshold ==> n == Min(50, most))
                  && (16_000 < bandwidth <= c.lowThreshold && bandwidth <= c.highThreshold ==> n == Min(20, most))
                  && (bandwidth <= 16_000 && bandwidth <= c.lowThreshold && bandwidth <= c.highThreshold ==> n == Min(5, most)))
  {
    SortKeepsRows(Select(UpTo(PriorityCutoff(c, bandwidth)), rows));
  }

  // ----- A faster link sends the same rows first

  /** Pending rows above one cutoff and under another. */
  function Band(low: Priority, high: Priority, rows: seq<Row>): seq<Row> {
    if rows == [] then []
    else
      var r := rows[|rows| - 1];
      var front := Band(low, high, rows[..|rows| - 1]);
      if Matches(UpTo(high), r) && !Matches(UpTo(low), r) then front + [r] else front
  }

  lemma {:induction false} BandMembers(low: Priority, high: Priority, rows: seq<Row>)
    ensures forall r | r in Band(low, high, rows) :: low.Level() < r.op.priority.Level()
  {
    if rows != [] {
      BandMembers(low, high, rows[..|rows| - 1]);
    }
  }

  /** A row of a higher tier than all of `b` is inserted into `a` as if `b` were not there. */
  lemma {:induction false} InsertBefore(r: Row, a: seq<Row>, b: seq<Row>)
    requires forall x | x in b :: Sooner(r, x)
    ensures InsertRow(r, a + b) == InsertRow(r, a) + b
  {
    if b == [] {
      assert a + b == a;
    } else {
      var n := |b| - 1;
      assert (a + b)[..|a + b| - 1] == a + b[..n];
      assert b == b[..n] + [b[n]];
      assert b[n] in b;
      InsertBefore(r, a, b[..n]);
    }
  }

  /** A row that waits for all of `a` is inserted behind it. */
  lemma {:induction false} InsertAfter(r: Row, a: seq<Row>, b: seq<Row>)
    requires forall x | x in a :: !Sooner(r, x)
    ensures InsertRow(r, a + b) == a + InsertRow(r, b)
  {
    if b == [] {
      assert a + b == a;
      if a != [] {
        assert a[|a| - 1] in a;
      }
    } else {
      assert (a + b)[..|a + b| - 1] == a + b[..|b| - 1];
      InsertAfter(r, a, b[..|b| - 1]);
    }
  }

  lemma SortMembers(rows: seq<Row>)
    ensures forall r :: r in SortRows(rows) <==> r in rows
  {
    SortKeepsRows(rows);
    forall r
      ensures r in SortRows(rows) <==> r in rows
    {
      assert r in SortRows(rows) <==> r in multiset(SortRows(rows));
      assert r in rows <==> r in multiset(rows);
    }
  }

  /** Cutting by tier commutes with the sort. */
  lemma {:induction false} CutCommutesWithSort(low: Priority, high: Priority, rows: seq<Row>)
    requires low.Level() <= high.Level()
    ensures SortRows(Select(UpTo(high), rows)) == SortRows(Select(UpTo(low), rows)) + SortRows(Band(low, high, rows))
  {
    if rows != [] {
      var front, r := rows[..|rows| - 1], rows[|rows| - 1];
      CutCommutesWithSort(low, high, front);
      var a, b := Select(UpTo(low), front), Band(low, high, front);
      assert (a + [r])[..|a|] == a && (b + [r])[..|b|] == b;
      var all := Select(UpTo(high), front);
      assert (all + [r])[..|all|] == all;
      if Matches(UpTo(low), r) {
        BandMembers(low, high, front);
        SortMembers(b);
        InsertBefore(r, SortRows(a), SortRows(b));
      } else if Matches(UpTo(high), r) {
        SelectMembers(UpTo(low), front);
        SortMembers(a);
        InsertAfter(r, SortRows(a), SortRows(b));
      }
    }
  }

  lemma LimitsAreMonotone(c: Config, slow: int, fast: int)
    requires slow <= fast
    ensures PriorityCutoff(c, slow).Level() <= PriorityCutoff(c, fast).Level()
    ensures BatchSize(c, slow) == BatchSize(c, fast) < 0 || 0 <= BatchSize(c, slow) <= BatchSize(c, fast)
  {
  }

  /** Over any outbox and with any thresholds, in any order and with any batch size, the
      batch of the slower link is a prefix of the batch of the faster one. */
  lemma BandwidthPrefix(c: Config, rows: seq<Row>, slow: int, fast: int)
    requires slow <= fast
    ensures Batch(c, rows, slow) <= Batch(c, rows, fast)
  {
    LimitsAreMonotone(c, slow, fast);
    CutCommutesWithSort(PriorityCutoff(c, slow), PriorityCutoff(c, fast), rows);
  }

  // ----- Draining the outbox

  /** The queue after syncs at one bandwidth, each acknowledged in full at its time. */
  function AfterSyncs(c: Config, rows: seq<Row>, bandwidth: int, times: seq<real>): seq<Row> {
    if times == [] then rows
    else
      var before := AfterSyncs(c, rows, bandwidth, times[..|times| - 1]);
      SyncedRows(before, IdsOf(OpsOf(Batch(c, before, bandwidth))), times[|times| - 1])
  }

  function Eligible(c: Config, rows: seq<Row>, bandwidth: int): nat {
    |Select(UpTo(PriorityCutoff(c, bandwidth)), rows)|
  }

  lemma AckedIds(batch: seq<Row>, id: string)
    ensures id in IdsOf(OpsOf(batch)) <==> exists b :: b in batch && b.op.opId == id
  {
    if id in IdsOf(OpsOf(batch)) {
      var i :| 0 <= i < |batch| && IdsOf(OpsOf(batch))[i] == id;
      assert batch[i] in batch;
    }
    if b :| b in batch && b.op.opId == id {
      var i :| 0 <= i < |batch| && batch[i] == b;
      assert IdsOf(OpsOf(batch))[i] == id;
    }
  }

  /** Acknowledging a batch marks exactly its rows and leaves the identifiers alone. */
  lemma AckMarksBatch(rows: seq<Row>, batch: seq<Row>, now: real)
    requires UniqueIds(rows) && forall b | b in batch :: b in rows
    ensures var rows' := SyncedRows(rows, IdsOf(OpsOf(batch)), now);
            && |rows'| == |rows| && UniqueIds(rows')
            && forall i | 0 <= i < |rows| ::
                 rows'[i] == if rows[i] in batch then ToSynced(now)(rows[i]) else rows[i]
  {
    var ids := IdsOf(OpsOf(batch));
    forall i | 0 <= i < |rows|
      ensures rows[i].op.opId in ids <==> rows[i] in batch
    {
      AckedIds(batch, rows[i].op.opId);
      if b :| b in batch && b.op.opId == rows[i].op.opId {
        var j :| 0 <= j < |rows| && rows[j] == b;
        assert i == j;
      }
    }
  }

  lemma {:induction false} CountAfterAck(f: Filter, rows: seq<Row>, rows': seq<Row>, batch: set<Row>, now: real)
    requires UniqueIds(rows) && |rows'| == |rows|
    requires forall b | b in batch :: b in rows && Matches(f, b)
    requires forall i | 0 <= i < |rows| :: rows'[i] == if rows[i] in batch then ToSynced(now)(rows[i]) else rows[i]
    ensures |Select(f, rows')| + |batch| == |Select(f, rows)|
  {
    if rows == [] {
      assert batch == {};
    } else {
      var n := |rows| - 1;
      var last := rows[n];
      forall b | b in batch - {last}
        ensures b in rows[..n]
      {
        assert b in rows;
      }
      forall i | 0 <= i < n
        ensures rows[i] != last
      {
      }
      CountAfterAck(f, rows[..n], rows'[..n], batch - {last}, now);
    }
  }

  lemma {:induction false} RowsToSet(rows: seq<Row>)
    requires UniqueIds(rows)
    ensures |set r | r in rows| == |rows|
  {
    if rows != [] {
      var n := |rows| - 1;
      RowsToSet(rows[..n]);
      assert (set r | r in rows) == (set r | r in rows[..n]) + {rows[n]};
    }
  }

  lemma {:induction false} SelectUnique(f: Filter, rows: seq<Row>)
    requires UniqueIds(rows)
    ensures UniqueIds(Select(f, rows))
  {
    if rows != [] {
      var front := rows[..|rows| - 1];
      SelectUnique(f, front);
      SelectMembers(f, front);
      forall r | r in Select(f, front)
        ensures r.op.opId != rows[|rows| - 1].op.opId
      {
        assert r in front;
      }
    }
  }

  lemma AppendUnique(sorted: seq<Row>, last: Row)
    requires UniqueIds(sorted) && forall x | x in sorted :: x.op.opId != last.op.opId
    ensures UniqueIds(sorted + [last])
  {
  }

  lemma {:induction false} InsertUnique(r: Row, sorted: seq<Row>)
    requires UniqueIds(sorted) && forall x | x in sorted :: x.op.opId != r.op.opId
    ensures UniqueIds(InsertRow(r, sorted))
  {
    if sorted == [] {
      AppendUnique([], r);
    } else {
      var n := |sorted| - 1;
      assert sorted[n] in sorted && forall x | x in sorted[..n] :: x in sorted;
      if Sooner(r, sorted[n]) {
        InsertUnique(r, sorted[..n]);
        InsertMembers(r, sorted[..n]);
        AppendUnique(InsertRow(r, sorted[..n]), sorted[n]);
      } else {
        AppendUnique(sorted, r);
      }
    }
  }

  lemma {:induction false} SortUnique(rows: seq<Row>)
    requires UniqueIds(rows)
    ensures UniqueIds(SortRows(rows))
  {
    if rows != [] {
      var n := |rows| - 1;
      SortUnique(rows[..n]);
      SortMembers(rows[..n]);
      InsertUnique(rows[n], SortRows(rows[..n]));
    }
  }

  /** One acknowledged sync moves exactly the batch from pending to synced: as many rows as
      the limit or the eligible rows allow, and no other row changes. */
  lemma SyncMovesBatch(c: Config, rows: seq<Row>, bandwidth: int, now: real)
    requires UniqueIds(rows)
    ensures var k := BatchSize(c, bandwidth);
            var batch := Batch(c, rows, bandwidth);
            var rows' := SyncedRows(rows, IdsOf(OpsOf(batch)), now);
            && |batch| == (if k < 0 then Eligible(c, rows, bandwidth) else Min(k, Eligible(c, rows, bandwidth)))
            && (forall b | b in batch :: b in rows && b.state.Pending?)
            && |rows'| == |rows| && UniqueIds(rows')
            && (forall i | 0 <= i < |rows| ::
                 rows'[i] == if rows[i] in batch then ToSynced(now)(rows[i]) else rows[i])
            && Eligible(c, rows', bandwidth) == Eligible(c, rows, bandwidth) - |batch|
  {
    var f := UpTo(PriorityCutoff(c, bandwidth));
    var batch := Batch(c, rows, bandwidth);
    PendingIsBestPrefix(rows, BatchSize(c, bandwidth), f);
    AckMarksBatch(rows, batch, now);
    SelectUnique(f, rows);
    SortUnique(Select(f, rows));
    RowsToSet(batch);
    CountAfterAck(f, rows, SyncedRows(rows, IdsOf(OpsOf(batch)), now), (set r | r in batch), now);
  }

  // ----- What several syncs send

  /** The rows sent by the syncs, in the order of sending. */
  function SentOver(c: Config, rows: seq<Row>, bandwidth: int, times: seq<real>): seq<Row> {
    if times == [] then []
    else
      var front := times[..|times| - 1];
      SentOver(c, rows, bandwidth, front) + Batch(c, AfterSyncs(c, rows, bandwidth, front), bandwidth)
  }

  function SendOrder(c: Config, rows: seq<Row>, bandwidth: int): seq<Row> {
    SortRows(Select(UpTo(PriorityCutoff(c, bandwidth)), rows))
  }

  function NotIn(gone: seq<Row>): Row -> bool {
    (r: Row) => r !in gone
  }

  /** Marking rows takes them out of every selection. */
  lemma {:induction false} SelectAfterMark(f: Filter, rows: seq<Row>, rows': seq<Row>, gone: seq<Row>, now: real)
    requires |rows'| == |rows|
    requires forall i | 0 <= i < |rows| :: rows'[i] == if rows[i] in gone then ToSynced(now)(rows[i]) else rows[i]
    ensures Select(f, rows') == Keep(NotIn(gone), Select(f, rows))
  {
    if rows != [] {
      var n := |rows| - 1;
      SelectAfterMark(f, rows[..n], rows'[..n], gone, now);
      KeepAppend(NotIn(gone), Select(f, rows[..n]), rows[n]);
    }
  }

  lemma UniqueParts(rows: seq<Row>, m: nat)
    requires UniqueIds(rows) && m <= |rows|
    ensures forall r | r in rows[m..] :: r !in rows[..m]
  {
    forall r | r in rows[m..]
      ensures r !in rows[..m]
    {
      var i :| 0 <= i < |rows| - m && rows[m..][i] == r;
      assert rows[m + i] == r;
      forall j | 0 <= j < m
        ensures rows[..m][j] != r
      {
        assert rows[j].op.opId != rows[m + i].op.opId;
      }
    }
  }

  lemma DropsPrefix(rows: seq<Row>, m: nat)
    requires UniqueIds(rows) && m <= |rows|
    ensures Keep(NotIn(rows[..m]), rows) == rows[m..]
  {
    var taken, rest := rows[..m], rows[m..];
    UniqueParts(rows, m);
    assert rows == taken + rest;
    KeepConcat(NotIn(taken), taken, rest);
    KeepNone(NotIn(taken), taken);
    KeepAll(NotIn(taken), rest);
  }

  /** What a sync leaves to be sent. */
  lemma OrderAfterSync(c: Config, rows: seq<Row>, bandwidth: int, now: real)
    requires UniqueIds(rows)
    ensures var batch := Batch(c, rows, bandwidth);
            SendOrder(c, SyncedRows(rows, IdsOf(OpsOf(batch)), now), bandwidth) == Keep(NotIn(batch), SendOrder(c, rows, bandwidth))
  {
    var f := UpTo(PriorityCutoff(c, bandwidth));
    var batch := Batch(c, rows, bandwidth);
    PendingIsBestPrefix(rows, BatchSize(c, bandwidth), f);
    AckMarksBatch(rows, batch, now);
    SelectAfterMark(f, rows, SyncedRows(rows, IdsOf(OpsOf(batch)), now), batch, now);
    SelectionIsSortedAlone(NotIn(batch), Select(f, rows));
  }

  /** One sync takes its batch off the front of what is to be sent. */
  lemma SyncTakesFront(c: Config, rows: seq<Row>, bandwidth: int, now: real)
    requires UniqueIds(rows)
    ensures var batch := Batch(c, rows, bandwidth);
            batch + SendOrder(c, SyncedRows(rows, IdsOf(OpsOf(batch)), now), bandwidth) == SendOrder(c, rows, bandwidth)
  {
    var f := UpTo(PriorityCutoff(c, bandwidth));
    var order := SendOrder(c, rows, bandwidth);
    var n := |Batch(c, rows, bandwidth)|;
    OrderAfterSync(c, rows, bandwidth, now);
    SelectUnique(f, rows);
    SortUnique(Select(f, rows));
    assert Batch(c, rows, bandwidth) == order[..n];
    DropsPrefix(order, n);
  }

  /** Nothing is sent twice, out of order, or left out: what the syncs have sent, followed
      by what is still to be sent, is always the send order of the queue they started on. */
  lemma {:induction false} SendOrderIsKept(c: Config, rows: seq<Row>, bandwidth: int, times: seq<real>)
    requires UniqueIds(rows)
    ensures UniqueIds(AfterSyncs(c, rows, bandwidth, times))
    ensures SentOver(c, rows, bandwidth, times) + SendOrder(c, AfterSyncs(c, rows, bandwidth, times), bandwidth)
         == SendOrder(c, rows, bandwidth)
  {
    if times == [] {
      assert [] + SendOrder(c, rows, bandwidth) == SendOrder(c, rows, bandwidth);
    } else {
      var n := |times| - 1;
      SendOrderIsKept(c, rows, bandwidth, times[..n]);
      var mid := AfterSyncs(c, rows, bandwidth, times[..n]);
      SyncMovesBatch(c, mid, bandwidth, times[n]);
      SyncTakesFront(c, mid, bandwidth, times[n]);
      Associates(SentOver(c, rows, bandwidth, times[..n]), Batch(c, mid, bandwidth),
                 SendOrder(c, AfterSyncs(c, rows, bandwidth, times), bandwidth));
    }
  }

  lemma Associates(a: seq<Row>, b: seq<Row>, c: seq<Row>)
    ensures (a + b) + c == a + (b + c)
  {
  }

  /** So syncs that leave nothing eligible have sent everything eligible, in send order. */
  lemma DrainedHasSentAll(c: Config, rows: seq<Row>, bandwidth: int, times: seq<real>)
    requires UniqueIds(rows) && Eligible(c, AfterSyncs(c, rows, bandwidth, times), bandwidth) == 0
    ensures SentOver(c, rows, bandwidth, times) == SendOrder(c, rows, bandwidth)
  {
    SendOrderIsKept(c, rows, bandwidth, times);
    var left := AfterSyncs(c, rows, bandwidth, times);
    SortKeepsRows(Select(UpTo(PriorityCutoff(c, bandwidth)), left));
    assert SendOrder(c, left, bandwidth) == [];
  }

  lemma {:induction false} RemainingAfter(c: Config, rows: seq<Row>, bandwidth: int, times: seq<real>)
    requires UniqueIds(rows) && BatchSize(c, bandwidth) >= 1
    ensures UniqueIds(AfterSyncs(c, rows, bandwidth, times))
    ensures Eligible(c, AfterSyncs(c, rows, bandwidth, times), bandwidth)
         == Remaining(Eligible(c, rows, bandwidth), BatchSize(c, bandwidth), |times|)
  {
    if times != [] {
      var n, k := |times|, BatchSize(c, bandwidth);
      RemainingAfter(c, rows, bandwidth, times[..n - 1]);
      SyncMovesBatch(c, AfterSyncs(c, rows, bandwidth, times[..n - 1]), bandwidth, times[n - 1]);
      RemainingStep(Eligible(c, rows, bandwidth), k, n);
    }
  }

  lemma RemainingStep(eligible: nat, k: int, n: nat)
    requires k >= 1 && n >= 1
    ensures Remaining(eligible, k, n) == Remaining(eligible, k, n - 1) - Min(k, Remaining(eligible, k, n - 1))
  {
    assert n * k == (n - 1) * k + k;
  }

  function Remaining(eligible: nat, k: int, n: nat): int {
    if n * k >= eligible then 0 else eligible - n * k
  }

  /** The rounded-up quotient. */
  function Rounds(eligible: nat, k: int): int
    requires k >= 1
  {
    (eligible + k - 1) / k
  }

  /** The eligible rows are gone after exactly the rounded-up quotient of syncs: not one
      sync earlier, and then for good. */
  lemma DrainBound(c: Config, rows: seq<Row>, bandwidth: int, times: seq<real>)
    requires UniqueIds(rows) && BatchSize(c, bandwidth) >= 1
    ensures var k := BatchSize(c, bandwidth);
            Eligible(c, AfterSyncs(c, rows, bandwidth, times), bandwidth) == 0 <==> |times| >= Rounds(Eligible(c, rows, bandwidth), k)
  {
    RemainingAfter(c, rows, bandwidth, times);
    CeilingDivision(Eligible(c, rows, bandwidth), BatchSize(c, bandwidth), |times|);
  }

  lemma MulMonotone(x: int, y: int, k: int)
    requires x <= y && k >= 0
    ensures x * k <= y * k
  {
  }

  lemma CeilingDivision(e: nat, k: int, n: nat)
    requires k >= 1
    ensures n * k >= e <==> n >= Rounds(e, k)
  {
    var q := Rounds(e, k);
    assert q * k <= e + k - 1 < q * k + k;
    if n >= q {
      MulMonotone(q, n, k);
    } else {
      MulMonotone(n, q - 1, k);
      assert (q - 1) * k == q * k - k;
    }
  }

  /** A negative batch size turns the SQL limit off: one sync drains everything eligible.
      A batch size of zero sends nothing. */
  lemma UnusualBatchSizes(c: Config, rows: seq<Row>, bandwidth: int, now: real)
    requires UniqueIds(rows)
    ensures BatchSize(c, bandwidth) < 0 ==> Eligible(c, AfterSyncs(c, rows, bandwidth, [now]), bandwidth) == 0
    ensures BatchSize(c, bandwidth) == 0 ==> AfterSyncs(c, rows, bandwidth, [now]) == rows
  {
    SyncMovesBatch(c, rows, bandwidth, now);
    assert [now][..0] == [];
    assert AfterSyncs(c, rows, bandwidth, []) == rows;
    if BatchSize(c, bandwidth) == 0 {
      assert Batch(c, rows, bandwidth) == [];
    }
  }
}
