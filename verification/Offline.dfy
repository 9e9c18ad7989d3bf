/** A node works offline and then syncs: what can be sent again, and what the server shows.
    The outbox sends by tier and time, so operations may reach the server in another order
    than they were written in. */
module Offline {
  import opened Models
  import opened VectorClocks
  import opened Store
  import opened Conflict
  import opened Replicas
  import opened Protocol
  import opened Outbox
  import opened Scheduling
  import opened Server
  import opened Engine
  import opened Resend
  import opened Reordering
  import opened Resending
  import Replay

  // ----- The outbox after offline work

  function WriteAllEdge(node: NodeId, e: EdgeState, ws: seq<Write>): EdgeState {
    if ws == [] then e
    else WriteEdge(node, WriteAllEdge(node, e, ws[..|ws| - 1]), ws[|ws| - 1])
  }

  /** A node with nothing to send that makes some writes. */
  function Worked(node: NodeId, rep: Replica, ws: seq<Write>): EdgeState {
    WriteAllEdge(node, EdgeState(rep, []), ws)
  }

  lemma {:induction false} OfflineRows(node: NodeId, rep: Replica, ws: seq<Write>)
    ensures var e := Worked(node, rep, ws);
            && e.rep == Replay.WriteAll(node, rep, ws)
            && OpsOf(e.rows) == Replay.Created(node, rep, ws)
            && forall r | r in e.rows :: r.state.Pending?
  {
    if ws != [] {
      var n := |ws| - 1;
      OfflineRows(node, rep, ws[..n]);
      var before := Worked(node, rep, ws[..n]);
      OpsStep(before.rows, NewRow(NewOp(node, before.rep, ws[n])));
    }
  }

  lemma OpsStep(rows: seq<Row>, r: Row)
    ensures OpsOf(rows + [r]) == OpsOf(rows) + [r.op]
  {
  }

  lemma {:induction false} OpsOnKey(rows: seq<Row>, k: Key)
    ensures OnKey(OpsOf(rows), k) == OpsOf(RowsOn(rows, k))
  {
    if rows != [] {
      var n := |rows| - 1;
      OpsOnKey(rows[..n], k);
      assert OpsOf(rows)[..n] == OpsOf(rows[..n]);
      OpsStep(RowsOn(rows[..n], k), rows[n]);
    }
  }

  /** The writes of a node are by that node, and each counts for it. */
  ghost predicate WrittenBy(node: NodeId, ops: seq<Operation>) {
    forall o | o in ops :: o.nodeId == node && At(o.vectorClock, node) > 0
  }

  lemma {:induction false} CreatedBy(node: NodeId, rep: Replica, ws: seq<Write>)
    ensures WrittenBy(node, Replay.Created(node, rep, ws))
  {
    if ws != [] {
      CreatedBy(node, rep, ws[..|ws| - 1]);
      var mid := Replay.WriteAll(node, rep, ws[..|ws| - 1]);
      IncrementAt(ClockOf(mid.table, ws[|ws| - 1].key), node, node);
    }
  }

  // ----- Chains of rows

  lemma ChainMembers(rows: seq<Row>, i: nat, j: nat)
    requires IsChain(OpsOf(rows)) && i < j < |rows|
    ensures Earlier(rows[i].op, rows[j].op)
  {
    assert OpsOf(rows)[i] == rows[i].op && OpsOf(rows)[j] == rows[j].op;
  }

  lemma {:induction false} KeepChain(p: Row -> bool, rows: seq<Row>)
    requires IsChain(OpsOf(rows))
    ensures IsChain(OpsOf(Keep(p, rows)))
  {
    if rows != [] {
      var n := |rows| - 1;
      ChainPart(rows, n);
      KeepChain(p, rows[..n]);
      KeepMembers(p, rows[..n]);
      if p(rows[n]) {
        forall r | r in Keep(p, rows[..n])
          ensures Earlier(r.op, rows[n].op)
        {
          var i :| 0 <= i < n && rows[i] == r;
          ChainMembers(rows, i, n);
        }
        ChainAppend(Keep(p, rows[..n]), rows[n]);
      }
    }
  }

  lemma ChainAppend(rows: seq<Row>, last: Row)
    requires IsChain(OpsOf(rows)) && forall r | r in rows :: Earlier(r.op, last.op)
    ensures IsChain(OpsOf(rows + [last]))
  {
    var all := rows + [last];
    forall i, j | 0 <= i < j < |OpsOf(all)|
      ensures Order(OpsOf(all)[i].vectorClock, OpsOf(all)[j].vectorClock).Before?
    {
      if j < |rows| {
        ChainMembers(rows, i, j);
      } else {
        assert rows[i] in rows;
      }
    }
  }

  lemma ChainPart(rows: seq<Row>, n: nat)
    requires IsChain(OpsOf(rows)) && n <= |rows|
    ensures IsChain(OpsOf(rows[..n]))
  {
    forall i, j | 0 <= i < j < n
      ensures Order(OpsOf(rows[..n])[i].vectorClock, OpsOf(rows[..n])[j].vectorClock).Before?
    {
      ChainMembers(rows, i, j);
    }
  }

  predicate Comparable(a: Operation, b: Operation) {
    Earlier(a, b) || Earlier(b, a)
  }

  ghost predicate AllComparable(rows: seq<Row>) {
    forall i, j | 0 <= i < j < |rows| :: Comparable(rows[i].op, rows[j].op)
  }

  lemma ComparableAppend(rows: seq<Row>, last: Row)
    requires AllComparable(rows) && forall r | r in rows :: Comparable(r.op, last.op)
    ensures AllComparable(rows + [last])
  {
  }

  lemma ComparableParts(rows: seq<Row>)
    requires AllComparable(rows) && rows != []
    ensures var n := |rows| - 1;
            && AllComparable(rows[..n]) && rows[n] in rows
            && forall x | x in rows[..n] :: x in rows && Comparable(x.op, rows[n].op)
  {
    var n := |rows| - 1;
    forall x | x in rows[..n]
      ensures x in rows && Comparable(x.op, rows[n].op)
    {
      var i :| 0 <= i < n && rows[..n][i] == x;
      assert rows[i] == x;
    }
  }

  lemma {:induction false} InsertComparable(r: Row, sorted: seq<Row>)
    requires AllComparable(sorted) && forall x | x in sorted :: Comparable(x.op, r.op)
    ensures AllComparable(InsertRow(r, sorted))
  {
    if sorted == [] {
      ComparableAppend([], r);
    } else {
      var n := |sorted| - 1;
      ComparableParts(sorted);
      if Sooner(r, sorted[n]) {
        InsertComparable(r, sorted[..n]);
        InsertMembers(r, sorted[..n]);
        ComparableAppend(InsertRow(r, sorted[..n]), sorted[n]);
      } else {
        ComparableAppend(sorted, r);
      }
    }
  }

  lemma {:induction false} SortComparable(rows: seq<Row>)
    requires IsChain(OpsOf(rows))
    ensures AllComparable(SortRows(rows))
  {
    if rows != [] {
      var n := |rows| - 1;
      ChainPart(rows, n);
      SortComparable(rows[..n]);
      SortMembers(rows[..n]);
      forall x | x in SortRows(rows[..n])
        ensures Comparable(x.op, rows[n].op)
      {
        var i :| 0 <= i < n && rows[i] == x;
        ChainMembers(rows, i, n);
      }
      InsertComparable(rows[n], SortRows(rows[..n]));
    }
  }

  lemma ComparableOps(rows: seq<Row>, n: nat)
    requires AllComparable(rows) && n <= |rows|
    ensures CausallyOrdered(OpsOf(rows[..n]))
  {
    forall i, j | 0 <= i < j < n
      ensures Earlier(OpsOf(rows[..n])[i], OpsOf(rows[..n])[j]) || Earlier(OpsOf(rows[..n])[j], OpsOf(rows[..n])[i])
    {
      assert Comparable(rows[i].op, rows[j].op);
    }
  }

  // ----- What a batch holds of one record

  lemma KeepPrefix(p: Row -> bool, rows: seq<Row>, n: nat)
    requires n <= |rows|
    ensures Keep(p, rows[..n]) <= Keep(p, rows)
  {
    assert rows == rows[..n] + rows[n..];
    KeepConcat(p, rows[..n], rows[n..]);
  }

  /** The eligible rows of the record in send order, up to where the batch is cut. */
  lemma BatchOnRecord(c: Config, rows: seq<Row>, bandwidth: int, k: Key)
    ensures var eligible := Select(UpTo(PriorityCutoff(c, bandwidth)), RowsOn(rows, k));
            RowsOn(Batch(c, rows, bandwidth), k) <= SortRows(eligible)
  {
    var f := UpTo(PriorityCutoff(c, bandwidth));
    var all := SortRows(Select(f, rows));
    SelectionIsSortedAlone(OnRecord(k), Select(f, rows));
    KeepSwaps(OnRecord(k), Asked(f), rows);
    assert Batch(c, rows, bandwidth) == all[..|Batch(c, rows, bandwidth)|];
    KeepPrefix(OnRecord(k), all, |Batch(c, rows, bandwidth)|);
  }

  lemma PushedOnRecord(c: Config, e: EdgeState, bandwidth: int, k: Key)
    ensures OnKey(Pushed(c, e, bandwidth), k) == OpsOf(RowsOn(Batch(c, e.rows, bandwidth), k))
  {
    OpsOnKey(Batch(c, e.rows, bandwidth), k);
  }

  /** The rows of a record after offline work are a chain. */
  lemma WorkedChain(node: NodeId, rep: Replica, ws: seq<Write>, k: Key)
    ensures var rows := Worked(node, rep, ws).rows;
            && OpsOf(RowsOn(rows, k)) == OnKey(Replay.Created(node, rep, ws), k)
            && IsChain(OpsOf(RowsOn(rows, k)))
  {
    OfflineRows(node, rep, ws);
    OpsOnKey(Worked(node, rep, ws).rows, k);
    WritesFormChain(node, rep, ws, k);
  }

  /** Written in send order, they are sent as a chain. */
  lemma InOrderChain(c: Config, rows: seq<Row>, bandwidth: int, k: Key)
    requires IsChain(OpsOf(RowsOn(rows, k))) && InOrder(RowsOn(rows, k))
    ensures IsChain(OpsOf(RowsOn(Batch(c, rows, bandwidth), k)))
  {
    var f := UpTo(PriorityCutoff(c, bandwidth));
    var eligible := Select(f, RowsOn(rows, k));
    KeepInOrder(Asked(f), RowsOn(rows, k));
    AlreadyInOrder(eligible);
    KeepChain(Asked(f), RowsOn(rows, k));
    BatchOnRecord(c, rows, bandwidth, k);
    var sent := RowsOn(Batch(c, rows, bandwidth), k);
    ChainPart(eligible, |sent|);
    assert sent == eligible[..|sent|];
  }

  lemma SameOps(a: seq<Row>, b: seq<Row>)
    requires forall r | r in a :: r in b
    ensures forall o | o in OpsOf(a) :: o in OpsOf(b)
  {
    forall o | o in OpsOf(a)
      ensures o in OpsOf(b)
    {
      var i :| 0 <= i < |a| && OpsOf(a)[i] == o;
      assert a[i] in b;
      var j :| 0 <= j < |b| && b[j] == a[i];
      assert OpsOf(b)[j] == o;
    }
  }

  lemma BatchMembers(c: Config, rows: seq<Row>, bandwidth: int, k: Key)
    ensures forall o | o in OpsOf(RowsOn(Batch(c, rows, bandwidth), k)) :: o in OpsOf(RowsOn(rows, k))
  {
    PendingIsBestPrefix(rows, BatchSize(c, bandwidth), UpTo(PriorityCutoff(c, bandwidth)));
    KeepMembers(OnRecord(k), rows);
    KeepMembers(OnRecord(k), Batch(c, rows, bandwidth));
    SameOps(RowsOn(Batch(c, rows, bandwidth), k), RowsOn(rows, k));
  }

  lemma BatchIsOrdered(c: Config, rows: seq<Row>, bandwidth: int, k: Key)
    requires IsChain(OpsOf(RowsOn(rows, k)))
    ensures CausallyOrdered(OpsOf(RowsOn(Batch(c, rows, bandwidth), k)))
  {
    var f := UpTo(PriorityCutoff(c, bandwidth));
    var eligible := Select(f, RowsOn(rows, k));
    var sent := RowsOn(Batch(c, rows, bandwidth), k);
    KeepChain(Asked(f), RowsOn(rows, k));
    SortComparable(eligible);
    BatchOnRecord(c, rows, bandwidth, k);
    ComparableOps(SortRows(eligible), |sent|);
    assert sent == SortRows(eligible)[..|sent|];
  }

  /** Otherwise they are sent in some order, and are still causally ordered. */
  lemma SentIsOrdered(c: Config, node: NodeId, rep: Replica, ws: seq<Write>, bandwidth: int, k: Key)
    ensures var w := OnKey(Pushed(c, Worked(node, rep, ws), bandwidth), k);
            && CausallyOrdered(w) && WrittenBy(node, w)
            && forall o | o in w :: o in OnKey(Replay.Created(node, rep, ws), k)
  {
    var e := Worked(node, rep, ws);
    WorkedChain(node, rep, ws, k);
    PushedOnRecord(c, e, bandwidth, k);
    BatchIsOrdered(c, e.rows, bandwidth, k);
    BatchMembers(c, e.rows, bandwidth, k);
    CreatedBy(node, rep, ws);
    OnKeyMembers(Replay.Created(node, rep, ws), k);
  }

  // ----- Sending again

  /** Sending the batch twice leaves the view of `k` as sending it once. */
  ghost predicate SafeToResend(tolerance: real, server: Replica, batch: seq<Operation>, k: Key) {
    var once := Receive(tolerance, server, batch);
    ViewOf(Lookup(Receive(tolerance, once, batch).table, k)) == ViewOf(Lookup(once.table, k))
  }

  lemma SafeOnRecord(tolerance: real, server: Replica, batch: seq<Operation>, k: Key)
    ensures SafeToResend(tolerance, server, batch, k) <==>
            ResendIsHarmless(tolerance, Lookup(server.table, k), OnKey(batch, k))
  {
    var once := Receive(tolerance, server, batch);
    ReceiveRecord(tolerance, server, batch, k);
    ReceiveRecord(tolerance, once, batch, k);
  }

  /** The batch a sync pushes after offline work can be pushed again, to any server in any
      state, without changing what a record shows, if that record's writes, of whatever
      kinds, were enqueued in send order. */
  lemma OfflineResend(tolerance: real, c: Config, node: NodeId, rep: Replica, ws: seq<Write>, bandwidth: int, server: Replica, k: Key)
    requires InOrder(RowsOn(Worked(node, rep, ws).rows, k))
    ensures SafeToResend(tolerance, server, Pushed(c, Worked(node, rep, ws), bandwidth), k)
  {
    var e := Worked(node, rep, ws);
    WorkedChain(node, rep, ws, k);
    InOrderChain(c, e.rows, bandwidth, k);
    PushedOnRecord(c, e, bandwidth, k);
    ResendIsIdempotent(tolerance, server, Pushed(c, e, bandwidth), k);
  }

  lemma OwnAuthor(node: NodeId, w: seq<Operation>)
    requires WrittenBy(node, w)
    ensures SameAuthor(w) && Ticked(w)
  {
  }

  /** In any send order: every server can take the batch again exactly when two things hold
      of the record's operations in it, whatever their kinds. Each one sent after one that
      survives is no later in time than some newer one sent before it; and merges come back
      the same. */
  lemma OfflineResendExactlyWhen(tolerance: real, c: Config, node: NodeId, rep: Replica, ws: seq<Write>, bandwidth: int, k: Key)
    ensures var batch := Pushed(c, Worked(node, rep, ws), bandwidth);
            (forall server :: SafeToResend(tolerance, server, batch, k)) <==>
            LateOnesAreOld(OnKey(batch, k)) && MergesComeBack(OnKey(batch, k))
  {
    var batch := Pushed(c, Worked(node, rep, ws), bandwidth);
    SentIsOrdered(c, node, rep, ws, bandwidth, k);
    OwnAuthor(node, OnKey(batch, k));
    ResendExactlyWhen(tolerance, OnKey(batch, k));
    EveryServerEveryRecord(tolerance, batch, k);
  }

  lemma EveryServerEveryRecord(tolerance: real, batch: seq<Operation>, k: Key)
    ensures (forall server :: SafeToResend(tolerance, server, batch, k)) <==>
            (forall r :: ResendIsHarmless(tolerance, r, OnKey(batch, k)))
  {
    if forall server :: SafeToResend(tolerance, server, batch, k) {
      forall r
        ensures ResendIsHarmless(tolerance, r, OnKey(batch, k))
      {
        SafeOnRecord(tolerance, Holding(k, r), batch, k);
        assert SafeToResend(tolerance, Holding(k, r), batch, k);
      }
    } else {
      var server :| !SafeToResend(tolerance, server, batch, k);
      SafeOnRecord(tolerance, server, batch, k);
    }
  }

  function Holding(k: Key, r: Option<Record>): Replica {
    Replica(0, map[], if r.Some? then map[k := r.value] else map[])
  }

  /** When the clock was not set back between writes of the record, only merges matter, and
      they do only where the newest operation sent is a delete and both kinds are present. */
  lemma SteadyClockResend(tolerance: real, c: Config, node: NodeId, rep: Replica, ws: seq<Write>, bandwidth: int, k: Key)
    requires TimesDoNotGoBack(RowsOn(Worked(node, rep, ws).rows, k))
    ensures var batch := Pushed(c, Worked(node, rep, ws), bandwidth);
            var w := OnKey(batch, k);
            && ((forall server :: SafeToResend(tolerance, server, batch, k)) <==> MergesComeBack(w))
            && (NoDeletes(w) || NoMergesIn(w) || (exists p :: IsTop(w, p) && !w[p].kind.Delete?) ==>
                  forall server :: SafeToResend(tolerance, server, batch, k))
  {
    var w := OnKey(Pushed(c, Worked(node, rep, ws), bandwidth), k);
    SentIsOrdered(c, node, rep, ws, bandwidth, k);
    WorkedChain(node, rep, ws, k);
    TimesFollowChain(RowsOn(Worked(node, rep, ws).rows, k));
    SteadyTimesAreEnough(w);
    OfflineResendExactlyWhen(tolerance, c, node, rep, ws, bandwidth, k);
    if p :| IsTop(w, p) && !w[p].kind.Delete? {
      TopComesBack(w, p);
    } else if NoDeletes(w) || NoMergesIn(w) {
      ComesBackUnlessTheyMeet(w);
    }
  }

  lemma ChainIndex(rows: seq<Row>, i: nat, j: nat)
    requires IsChain(OpsOf(rows)) && i < |rows| && j < |rows|
    ensures Earlier(rows[i].op, rows[j].op) <==> i < j
  {
    if i < j {
      ChainMembers(rows, i, j);
    } else if j < i {
      ChainMembers(rows, j, i);
      EarlierIsStrict(rows[j].op, rows[i].op);
    } else {
      EarlierIsStrict(rows[i].op, rows[i].op);
    }
  }

  lemma TimesFollowChain(rows: seq<Row>)
    requires IsChain(OpsOf(rows)) && TimesDoNotGoBack(rows)
    ensures forall a, b | a in OpsOf(rows) && b in OpsOf(rows) && Earlier(a, b) :: a.timestamp <= b.timestamp
  {
    forall a, b | a in OpsOf(rows) && b in OpsOf(rows) && Earlier(a, b)
      ensures a.timestamp <= b.timestamp
    {
      var i :| 0 <= i < |rows| && OpsOf(rows)[i] == a;
      var j :| 0 <= j < |rows| && OpsOf(rows)[j] == b;
      ChainIndex(rows, i, j);
    }
  }

  // ----- Sending again over a slower link

  /** What an edge sends after a reply was lost and it has been restarted. The link may be
      slower by then. */
  function Retried(c: Config, e: EdgeState, fast: int, slow: int): seq<Operation> {
    var lost := Finish(c.tolerance, e, Pushed(c, e, fast), NoAnswer, 0.0);
    Pushed(c, RestartEdge(lost), slow)
  }

  lemma RetryRows(e: EdgeState, ids: seq<string>, error: string)
    requires forall r | r in e.rows :: r.state.Pending?
    ensures Alike(e.rows, ResetFailed(FailedRows(e.rows, ids, error)))
  {
    assert forall i | 0 <= i < |e.rows| :: e.rows[i] in e.rows;
  }

  /** It is the front part of what was sent before. */
  lemma RetryIsPrefix(c: Config, e: EdgeState, fast: int, slow: int)
    requires slow <= fast && forall r | r in e.rows :: r.state.Pending?
    ensures Retried(c, e, fast, slow) <= Pushed(c, e, fast)
  {
    RetryRows(e, IdsOf(Pushed(c, e, fast)), NO_ANSWER);
    PendingAlike(e.rows, ResetFailed(FailedRows(e.rows, IdsOf(Pushed(c, e, fast)), NO_ANSWER)),
                 BatchSize(c, slow), UpTo(PriorityCutoff(c, slow)));
    BandwidthPrefix(c, e.rows, slow, fast);
    assert Retried(c, e, fast, slow) == OpsOf(Batch(c, e.rows, slow));
  }

  lemma OnKeyPrefix(ops: seq<Operation>, n: nat, k: Key)
    requires n <= |ops|
    ensures OnKey(ops, k) == OnKey(ops[..n], k) + OnKey(ops[n..], k)
  {
    assert ops == ops[..n] + ops[n..];
    OnKeyConcat(ops[..n], ops[n..], k);
  }

  /** After offline work a batch was taken by a server, the reply was lost, and the edge was
      restarted and sends again over a slower link. For a record whose writes were enqueued
      in send order the server's view changes exactly when the server had taken its delete
      as the last operation, and the retry ends in another write of the record. Sending the
      rest of the batch restores the view. */
  lemma SlowerRetry(tolerance: real, c: Config, node: NodeId, rep: Replica, ws: seq<Write>, fast: int, slow: int, server: Replica, k: Key)
    requires slow <= fast && InOrder(RowsOn(Worked(node, rep, ws).rows, k))
    ensures var e := Worked(node, rep, ws);
            var batch, retry := Pushed(c, e, fast), Retried(c, e, fast, slow);
            var ops, again := OnKey(batch, k), OnKey(retry, k);
            var once := Receive(tolerance, server, batch);
            var twice := Receive(tolerance, once, retry);
            && retry <= batch
            && (ViewOf(Lookup(twice.table, k)) == ViewOf(Lookup(once.table, k)) <==>
                  KeepsView(tolerance, Lookup(server.table, k), ops, again))
            && ViewOf(Lookup(Receive(tolerance, twice, batch[|retry|..]).table, k)) == ViewOf(Lookup(once.table, k))
  {
    var e := Worked(node, rep, ws);
    var batch, retry := Pushed(c, e, fast), Retried(c, e, fast, slow);
    OfflineRows(node, rep, ws);
    RetryIsPrefix(c, e, fast, slow);
    WorkedChain(node, rep, ws, k);
    InOrderChain(c, e.rows, fast, k);
    PushedOnRecord(c, e, fast, k);
    RetryOnRecord(tolerance, server, batch, |retry|, k);
    assert retry == batch[..|retry|];
  }

  lemma RetryOnRecord(tolerance: real, server: Replica, batch: seq<Operation>, n: nat, k: Key)
    requires n <= |batch| && IsChain(OnKey(batch, k))
    ensures var once := Receive(tolerance, server, batch);
            var twice := Receive(tolerance, once, batch[..n]);
            && (ViewOf(Lookup(twice.table, k)) == ViewOf(Lookup(once.table, k)) <==>
                  KeepsView(tolerance, Lookup(server.table, k), OnKey(batch, k), OnKey(batch[..n], k)))
            && ViewOf(Lookup(Receive(tolerance, twice, batch[n..]).table, k)) == ViewOf(Lookup(once.table, k))
  {
    var once := Receive(tolerance, server, batch);
    var twice := Receive(tolerance, once, batch[..n]);
    var ops, again := OnKey(batch, k), OnKey(batch[..n], k);
    ReceiveRecord(tolerance, server, batch, k);
    ReceiveRecord(tolerance, once, batch[..n], k);
    ReceiveRecord(tolerance, twice, batch[n..], k);
    OnKeyPrefix(batch, n, k);
    PrefixAgain(tolerance, Lookup(server.table, k), ops, |again|);
    assert again == ops[..|again|] && OnKey(batch[n..], k) == ops[|again|..];
  }
}
