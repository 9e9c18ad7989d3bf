/** What a server shows after a node has worked offline and sent its outbox in one or more
    syncs, and runs in which the two differ in the end. */
module OfflineSync {
  import opened Models
  import opened VectorClocks
  import opened Store
  import opened Conflict
  import opened Replicas
  import opened Protocol
  import opened Outbox
  import opened Scheduling
  import opened Server
  import opened Engine
  import opened Resend
  import opened Reordering
  import opened Resending
  import opened Offline
  import opened Lifetimes
  import Convergence
  import Replay
  import Sync

  const NEW_SERVER := ServerState(FRESH, {})

  // ----- A node alone with a server

  predicate AllBy(t: Table, node: NodeId) {
    forall k | k in t :: t[k].lastModifiedBy == node
  }

  predicate RowsBy(rows: seq<Row>, node: NodeId) {
    forall r | r in rows :: r.op.nodeId == node
  }

  lemma {:induction false} AuthorsOfReceived(tolerance: real, rep: Replica, ops: seq<Operation>, node: NodeId)
    requires AllBy(rep.table, node) && forall o | o in ops :: o.nodeId == node
    ensures AllBy(Receive(tolerance, rep, ops).table, node)
  {
    if ops != [] {
      var n := |ops| - 1;
      assert ops[n] in ops;
      AuthorsOfReceived(tolerance, rep, ops[..n], node);
      DeliverAuthors(tolerance, Receive(tolerance, rep, ops[..n]).table, ops[n], node);
    }
  }

  lemma DeliverAuthors(tolerance: real, t: Table, op: Operation, node: NodeId)
    requires op.nodeId == node && AllBy(t, node)
    ensures AllBy(Deliver(tolerance, t, op), node)
  {
  }

  lemma OwnRecordsAreNotReturned(t: Table, peerClock: VectorClock, node: NodeId)
    requires AllBy(t, node)
    ensures Delta(t, peerClock, node) == []
  {
    var delta := Delta(t, peerClock, node);
    assert delta == [] || delta[0] in delta;
    forall op
      ensures op !in delta
    {
      DeltaExact(t, peerClock, node, op);
    }
  }

  lemma BatchBy(c: Config, rows: seq<Row>, bandwidth: int, node: NodeId)
    requires RowsBy(rows, node)
    ensures RowsBy(Batch(c, rows, bandwidth), node)
    ensures forall o | o in OpsOf(Batch(c, rows, bandwidth)) :: o.nodeId == node
  {
    var batch := Batch(c, rows, bandwidth);
    PendingIsBestPrefix(rows, BatchSize(c, bandwidth), UpTo(PriorityCutoff(c, bandwidth)));
    forall o | o in OpsOf(batch)
      ensures o.nodeId == node
    {
      var i :| 0 <= i < |batch| && OpsOf(batch)[i] == o;
      assert batch[i] in batch;
    }
  }

  predicate Admitted(sc: ServerConfig, node: NodeId, s: ServerState) {
    sc.registrationRequired ==> node in s.registered
  }

  /** One sync with a server that holds this node's records only: it takes the batch and
      returns nothing. */
  lemma OwnSync(c: Config, sc: ServerConfig, node: NodeId, e: EdgeState, s: ServerState, bandwidth: int, now: real)
    requires Admitted(sc, node, s) && RowsBy(e.rows, node) && AllBy(s.rep.table, node)
    ensures var link := Up(bandwidth, Delivered);
            var e', s' := SyncEdge(c, sc, node, e, s, link, now), SyncServer(c, sc, node, e, s, link);
            && Admitted(sc, node, s') && e'.rep == e.rep
            && e'.rows == SyncedRows(e.rows, IdsOf(OpsOf(Batch(c, e.rows, bandwidth))), now)
            && s'.rep == Receive(sc.tolerance, s.rep, OpsOf(Batch(c, e.rows, bandwidth)))
            && RowsBy(e'.rows, node) && AllBy(s'.rep.table, node)
  {
    var batch := OpsOf(Batch(c, e.rows, bandwidth));
    Sync.ReplicasAfterSync(c, sc, node, e, s, bandwidth, now);
    BatchBy(c, e.rows, bandwidth, node);
    AuthorsOfReceived(sc.tolerance, s.rep, batch, node);
    OwnRecordsAreNotReturned(Receive(sc.tolerance, s.rep, batch).table, e.rep.clock, node);
    MarkedBy(e.rows, IdsOf(batch), now, node);
  }

  lemma MarkedBy(rows: seq<Row>, ids: seq<string>, now: real, node: NodeId)
    requires RowsBy(rows, node)
    ensures RowsBy(SyncedRows(rows, ids, now), node)
  {
    forall i | 0 <= i < |rows|
      ensures rows[i].op.nodeId == node
    {
      assert rows[i] in rows;
    }
  }

  /** Several syncs: the server has received what was sent, in that order. */
  ghost predicate Served(sc: ServerConfig, node: NodeId, e: EdgeState, s: ServerState, sent: seq<Row>, rows': seq<Row>,
                         e': EdgeState, s': ServerState) {
    && e'.rep == e.rep && e'.rows == rows'
    && s'.rep == Receive(sc.tolerance, s.rep, OpsOf(sent))
    && RowsBy(e'.rows, node) && AllBy(s'.rep.table, node) && Admitted(sc, node, s')
  }

  lemma OpsConcat(a: seq<Row>, b: seq<Row>)
    ensures OpsOf(a + b) == OpsOf(a) + OpsOf(b)
  {
  }

  lemma ServedStep(c: Config, sc: ServerConfig, node: NodeId, e: EdgeState, s: ServerState, sent: seq<Row>, e': EdgeState, s': ServerState,
                   bandwidth: int, now: real)
    requires Served(sc, node, e, s, sent, e'.rows, e', s')
    ensures var link := Up(bandwidth, Delivered);
            var batch := Batch(c, e'.rows, bandwidth);
            Served(sc, node, e, s, sent + batch, SyncedRows(e'.rows, IdsOf(OpsOf(batch)), now),
                   SyncEdge(c, sc, node, e', s', link, now), SyncServer(c, sc, node, e', s', link))
  {
    OwnSync(c, sc, node, e', s', bandwidth, now);
    var batch := Batch(c, e'.rows, bandwidth);
    OpsConcat(sent, batch);
    ReceiveConcat(sc.tolerance, s.rep, OpsOf(sent), OpsOf(batch));
  }

  lemma {:induction false} OwnSyncs(c: Config, sc: ServerConfig, node: NodeId, e: EdgeState, s: ServerState, bandwidth: int, times: seq<real>)
    requires Admitted(sc, node, s) && RowsBy(e.rows, node) && AllBy(s.rep.table, node)
    ensures var (e', s') := DeliveredSyncs(c, sc, node, e, s, bandwidth, times);
            Served(sc, node, e, s, SentOver(c, e.rows, bandwidth, times), AfterSyncs(c, e.rows, bandwidth, times), e', s')
  {
    if times != [] {
      var n := |times| - 1;
      OwnSyncs(c, sc, node, e, s, bandwidth, times[..n]);
      var (e', s') := DeliveredSyncs(c, sc, node, e, s, bandwidth, times[..n]);
      ServedStep(c, sc, node, e, s, SentOver(c, e.rows, bandwidth, times[..n]), e', s', bandwidth, times[n]);
    }
  }

  // ----- The last write of a record

  /** The record is as its writes left it over the data `base`. */
  ghost predicate StoredLast(t: Table, k: Key, base: Fields, ops: seq<Operation>) {
    && BaseData(Lookup(t, k)) == Overlay(base, ops)
    && (ops != [] ==> k in t && t[k].deleted == ops[|ops| - 1].kind.Delete? && VersionOf(t[k]) == VersionOfOp(ops[|ops| - 1]))
  }

  lemma StoredStep(node: NodeId, rep: Replica, w: Write, k: Key, base: Fields, ops: seq<Operation>)
    requires StoredLast(rep.table, k, base, ops)
    ensures StoredLast(WriteOne(node, rep, w).table, k, base, ops + if w.key == k then [NewOp(node, rep, w)] else [])
  {
    if w.key == k {
      OverlayStep(Lookup(rep.table, k), base, ops, NewOp(node, rep, w));
    } else {
      assert ops + [] == ops;
    }
  }

  lemma {:induction false} LastWriteStored(node: NodeId, rep: Replica, ws: seq<Write>, k: Key)
    ensures StoredLast(Replay.WriteAll(node, rep, ws).table, k, BaseData(Lookup(rep.table, k)), OnKey(Replay.Created(node, rep, ws), k))
  {
    if ws != [] {
      var n := |ws| - 1;
      LastWriteStored(node, rep, ws[..n], k);
      var mid, before := Replay.WriteAll(node, rep, ws[..n]), Replay.Created(node, rep, ws[..n]);
      OnKeyAppend(before, NewOp(node, mid, ws[n]), k);
      StoredStep(node, mid, ws[n], k, BaseData(Lookup(rep.table, k)), OnKey(before, k));
    }
  }

  lemma {:induction false} UnwrittenStays(node: NodeId, rep: Replica, ws: seq<Write>, k: Key)
    requires OnKey(Replay.Created(node, rep, ws), k) == []
    ensures Lookup(Replay.WriteAll(node, rep, ws).table, k) == Lookup(rep.table, k)
  {
    if ws != [] {
      var n := |ws| - 1;
      OnKeyAppend(Replay.Created(node, rep, ws[..n]), NewOp(node, Replay.WriteAll(node, rep, ws[..n]), ws[n]), k);
      UnwrittenStays(node, rep, ws[..n], k);
    }
  }

  /** Every write of a record knows about the record as it was before the work. */
  ghost predicate AllAfter(r: Option<Record>, ops: seq<Operation>) {
    r.Some? ==> forall o | o in ops :: Order(r.value.vectorClock, o.vectorClock).Before?
  }

  lemma {:induction false} WritesFollow(node: NodeId, rep: Replica, ws: seq<Write>, k: Key)
    ensures AllAfter(Lookup(rep.table, k), OnKey(Replay.Created(node, rep, ws), k))
  {
    if ws != [] {
      var n := |ws| - 1;
      var mid := Replay.WriteAll(node, rep, ws[..n]);
      var before := OnKey(Replay.Created(node, rep, ws[..n]), k);
      WritesFollow(node, rep, ws[..n], k);
      OnKeyAppend(Replay.Created(node, rep, ws[..n]), NewOp(node, mid, ws[n]), k);
      if ws[n].key == k && k in rep.table {
        WriteAdvances(node, mid, ws[n]);
        if before == [] {
          UnwrittenStays(node, rep, ws[..n], k);
        } else {
          WritesFormChain(node, rep, ws[..n], k);
          assert before[|before| - 1] in before;
          BeforeTransitive(rep.table[k].vectorClock, mid.table[k].vectorClock, NewOp(node, mid, ws[n]).vectorClock);
        }
      }
    }
  }

  /** The last write of a chain is the newest, in whatever order the writes arrive. */
  lemma LastIsTop(written: seq<Operation>, sent: seq<Operation>) returns (p: int)
    requires written != [] && IsChain(written) && CausallyOrdered(sent)
    requires forall o :: o in sent <==> o in written
    ensures IsTop(sent, p) && sent[p] == written[|written| - 1]
  {
    var n := |written| - 1;
    var last := written[n];
    assert last in sent;
    p :| 0 <= p < |sent| && sent[p] == last;
    EarlierIsStrict(last, last);
    forall i | 0 <= i < |sent| && i != p
      ensures Earlier(sent[i], last)
    {
      assert sent[i] in written;
      var j :| 0 <= j < |written| && written[j] == sent[i];
      assert j == n ==> Earlier(last, last);
    }
  }

  // ----- Arrival in send order

  ghost predicate AllEligible(c: Config, rows: seq<Row>, bandwidth: int) {
    forall r | r in rows :: Matches(UpTo(PriorityCutoff(c, bandwidth)), r)
  }

  ghost predicate Drained(c: Config, rows: seq<Row>, bandwidth: int, times: seq<real>) {
    Eligible(c, AfterSyncs(c, rows, bandwidth, times), bandwidth) == 0
  }

  /** The operations on a record in the order in which an outbox sends them. */
  function SentOn(rows: seq<Row>, k: Key): seq<Operation> {
    OpsOf(SortRows(RowsOn(rows, k)))
  }

  lemma ArrivalOnRecord(c: Config, rows: seq<Row>, bandwidth: int, times: seq<real>, k: Key)
    requires UniqueIds(rows) && AllEligible(c, rows, bandwidth) && Drained(c, rows, bandwidth, times)
    ensures OnKey(OpsOf(SentOver(c, rows, bandwidth, times)), k) == SentOn(rows, k)
  {
    DrainedHasSentAll(c, rows, bandwidth, times);
    KeepAll(Asked(UpTo(PriorityCutoff(c, bandwidth))), rows);
    OpsOnKey(SortRows(rows), k);
    SelectionIsSortedAlone(OnRecord(k), rows);
  }

  /** A batch with room for the whole outbox sends all of it, and the operations on a record
      in the order of their enqueueing exactly if their rows stand in send order. */
  lemma WholeOutboxIsPushed(c: Config, e: EdgeState, bandwidth: int, k: Key)
    requires AllEligible(c, e.rows, bandwidth) && (BatchSize(c, bandwidth) < 0 || |e.rows| <= BatchSize(c, bandwidth))
    ensures forall o :: o in Pushed(c, e, bandwidth) <==> o in OpsOf(e.rows)
    ensures OnKey(Pushed(c, e, bandwidth), k) == SentOn(e.rows, k)
    ensures RowsOn(Batch(c, e.rows, bandwidth), k) == RowsOn(e.rows, k) <==> InOrder(RowsOn(e.rows, k))
  {
    var sorted := SortRows(e.rows);
    KeepAll(Asked(UpTo(PriorityCutoff(c, bandwidth))), e.rows);
    SortKeepsRows(e.rows);
    assert Batch(c, e.rows, bandwidth) == sorted;
    SortMembers(e.rows);
    SameOps(sorted, e.rows);
    SameOps(e.rows, sorted);
    OpsOnKey(sorted, k);
    SelectionIsSortedAlone(OnRecord(k), e.rows);
    RecordKeepsItsOrder(e.rows, k);
  }

  lemma SentMembers(rows: seq<Row>, k: Key)
    ensures forall o :: o in SentOn(rows, k) <==> o in OpsOf(RowsOn(rows, k))
  {
    var written, sent := RowsOn(rows, k), SortRows(RowsOn(rows, k));
    SortMembers(written);
    SameOps(written, sent);
    SameOps(sent, written);
  }

  lemma {:induction false} SyncedOrEligible(c: Config, rows: seq<Row>, bandwidth: int, times: seq<real>)
    requires AllEligible(c, rows, bandwidth)
    ensures forall r | r in AfterSyncs(c, rows, bandwidth, times) ::
              r.state.Synced? || Matches(UpTo(PriorityCutoff(c, bandwidth)), r)
  {
    if times != [] {
      var n := |times| - 1;
      SyncedOrEligible(c, rows, bandwidth, times[..n]);
      var before := AfterSyncs(c, rows, bandwidth, times[..n]);
      assert forall i | 0 <= i < |before| :: before[i] in before;
    }
  }

  lemma DrainedIsSynced(c: Config, rows: seq<Row>, bandwidth: int, times: seq<real>)
    requires AllEligible(c, rows, bandwidth) && Drained(c, rows, bandwidth, times)
    ensures forall r | r in AfterSyncs(c, rows, bandwidth, times) :: r.state.Synced?
  {
    SyncedOrEligible(c, rows, bandwidth, times);
    SelectMembers(UpTo(PriorityCutoff(c, bandwidth)), AfterSyncs(c, rows, bandwidth, times));
  }

  // ----- What the server shows

  /** The server's view of the record when it has received the writes in some order. */
  function ServerView(tolerance: real, r: Option<Record>, sent: seq<Operation>): View {
    ViewOf(DeliverAllToRecord(tolerance, r, sent))
  }

  /** When the server shows what the writes left on the node over the data `base`. */
  ghost predicate SameInTheEnd(base: Fields, written: seq<Operation>, sent: seq<Operation>) {
    written != [] ==>
      match written[|written| - 1].kind
      case Create => true
      case Update => true
      case Merge => Overlay(base, Taken(sent)) == Overlay(base, written)
      case Delete => forall i :: !Survives(sent, i)
  }

  /** What the server takes is decided by causal order. */
  lemma ServerTakes(tolerance: real, r: Option<Record>, sent: seq<Operation>)
    requires CausallyOrdered(sent) && sent != [] && (IsLive(r) ==> AllAfter(r, sent))
    ensures ShowsTaken(DeliverAllToRecord(tolerance, r, sent), BaseData(r), None, Taken(sent))
  {
    assert sent[0] in sent;
    FirstTakenRun(tolerance, r, sent);
  }

  /** The record is shown as its last write says, in whatever order the writes arrive. Only
      a merge depends on what has been taken before it. */
  lemma LastIsShown(tolerance: real, r: Option<Record>, written: seq<Operation>, sent: seq<Operation>)
    requires written != [] && IsChain(written) && CausallyOrdered(sent) && (IsLive(r) ==> AllAfter(r, sent))
    requires forall o :: o in sent <==> o in written
    requires !written[|written| - 1].kind.Delete?
    ensures ServerView(tolerance, r, sent) == ViewOfTaken(Overlay(BaseData(r), Taken(sent)), written[|written| - 1])
    ensures Replaces(written[|written| - 1]) ==> Overlay(BaseData(r), Taken(sent)) == written[|written| - 1].payload
  {
    var p := LastIsTop(written, sent);
    ServerTakes(tolerance, r, sent);
    assert NewestSurvivor(sent, p);
    HolderIsNewest(sent, p);
    if Replaces(sent[p]) {
      LastOverlaid(BaseData(r), Taken(sent));
    }
  }

  /** With a delete as the last write, the record stays away exactly if no other write of
      the record reaches the server with nothing newer after it. */
  lemma NothingShownExactlyWhen(tolerance: real, r: Option<Record>, sent: seq<Operation>)
    requires CausallyOrdered(sent) && sent != [] && (IsLive(r) ==> AllAfter(r, sent))
    ensures ServerView(tolerance, r, sent).Gone? <==> forall i :: !Survives(sent, i)
  {
    ServerTakes(tolerance, r, sent);
    if i :| Survives(sent, i) {
      var q := NewestExists(sent, i);
      HolderIsNewest(sent, q);
    } else {
      NoSurvivorNoHolder(sent);
    }
  }

  lemma EmptyOrNot(ops: seq<Operation>)
    ensures ops == [] || exists o :: o in ops
  {
    if ops != [] {
      assert ops[0] in ops;
    }
  }

  lemma ServerAgrees(tolerance: real, t: Table, k: Key, r: Option<Record>, written: seq<Operation>, sent: seq<Operation>)
    requires IsChain(written) && CausallyOrdered(sent) && forall o :: o in sent <==> o in written
    requires StoredLast(t, k, BaseData(r), written) && (written == [] ==> ViewOf(Lookup(t, k)) == ViewOf(r))
    requires IsLive(r) ==> AllAfter(r, sent)
    ensures ViewOf(Lookup(t, k)) == ServerView(tolerance, r, sent) <==> SameInTheEnd(BaseData(r), written, sent)
  {
    EmptyOrNot(sent);
    if written != [] {
      var last := written[|written| - 1];
      assert last in sent;
      if last.kind.Delete? {
        NothingShownExactlyWhen(tolerance, r, sent);
      } else {
        LastIsShown(tolerance, r, written, sent);
        assert Replaces(last) ==> Overlay(BaseData(r), written) == last.payload;
      }
    }
  }

  ghost predicate ReadyToSend(c: Config, rows: seq<Row>, bandwidth: int, times: seq<real>) {
    UniqueIds(rows) && AllEligible(c, rows, bandwidth) && Drained(c, rows, bandwidth, times)
  }

  lemma AfterTheSyncs(c: Config, sc: ServerConfig, node: NodeId, rep: Replica, s: ServerState, ws: seq<Write>, bandwidth: int,
                      times: seq<real>, k: Key)
    requires Admitted(sc, node, s) && AllBy(s.rep.table, node) && ReadyToSend(c, Worked(node, rep, ws).rows, bandwidth, times)
    ensures var e := Worked(node, rep, ws);
            var (e', s') := DeliveredSyncs(c, sc, node, e, s, bandwidth, times);
            && e'.rep == e.rep
            && (forall r | r in e'.rows :: r.state.Synced?)
            && ViewOf(Lookup(s'.rep.table, k)) == ServerView(sc.tolerance, Lookup(s.rep.table, k), SentOn(e.rows, k))
  {
    var e := Worked(node, rep, ws);
    WorkedBy(node, rep, ws);
    OwnSyncs(c, sc, node, e, s, bandwidth, times);
    DrainedIsSynced(c, e.rows, bandwidth, times);
    ArrivalOnRecord(c, e.rows, bandwidth, times, k);
    ReceiveRecord(sc.tolerance, s.rep, OpsOf(SentOver(c, e.rows, bandwidth, times)), k);
  }

  lemma WorkAgrees(tolerance: real, node: NodeId, rep: Replica, r: Option<Record>, ws: seq<Write>, k: Key)
    requires Replay.Simulates(Lookup(rep.table, k), r)
    ensures var e := Worked(node, rep, ws);
            ViewOf(Lookup(e.rep.table, k)) == ServerView(tolerance, r, SentOn(e.rows, k)) <==>
            SameInTheEnd(BaseData(r), OnKey(Replay.Created(node, rep, ws), k), SentOn(e.rows, k))
  {
    var written := OnKey(Replay.Created(node, rep, ws), k);
    WorkedRows(node, rep, ws, k);
    LastWriteStored(node, rep, ws, k);
    WritesFollow(node, rep, ws, k);
    if written == [] {
      UnwrittenStays(node, rep, ws, k);
    }
    ServerAgrees(tolerance, Worked(node, rep, ws).rep.table, k, r, written, SentOn(Worked(node, rep, ws).rows, k));
  }

  /** A node works offline on any records, and then syncs until its outbox is drained, with a
      server that holds records of this node only. Everything is then marked as synced,
      nothing has changed on the node, and the server shows a record for which the two
      agreed before the work as the node does
      - if its last write is a create or an update: always, in whatever order the writes of
        the record were sent;
      - if it is a merge: exactly when the writes taken by causal order leave the data that
        all of them leave in the order of writing;
      - if it is a delete: exactly when no create, update or merge of the record was sent
        with nothing newer after it.
      The tolerances play no part. An empty database and an empty server agree on every
      record. */
  lemma OfflineThenSyncs(c: Config, sc: ServerConfig, node: NodeId, rep: Replica, s: ServerState, ws: seq<Write>, bandwidth: int,
                         times: seq<real>, k: Key)
    requires Admitted(sc, node, s) && AllBy(s.rep.table, node) && ReadyToSend(c, Worked(node, rep, ws).rows, bandwidth, times)
    requires Replay.Simulates(Lookup(rep.table, k), Lookup(s.rep.table, k))
    ensures var e := Worked(node, rep, ws);
            var (e', s') := DeliveredSyncs(c, sc, node, e, s, bandwidth, times);
            && e'.rep == e.rep
            && (forall r | r in e'.rows :: r.state.Synced?)
            && (ViewOf(Lookup(e'.rep.table, k)) == ViewOf(Lookup(s'.rep.table, k)) <==>
                  SameInTheEnd(BaseData(Lookup(rep.table, k)), OnKey(Replay.Created(node, rep, ws), k), SentOn(e.rows, k)))
  {
    AfterTheSyncs(c, sc, node, rep, s, ws, bandwidth, times, k);
    WorkAgrees(sc.tolerance, node, rep, Lookup(s.rep.table, k), ws, k);
  }

  /** Writes enqueued in send order always come out the same. */
  lemma InOrderIsSame(tolerance: real, node: NodeId, rep: Replica, ws: seq<Write>, k: Key)
    requires InOrder(RowsOn(Worked(node, rep, ws).rows, k))
    ensures SameInTheEnd(BaseData(Lookup(rep.table, k)), OnKey(Replay.Created(node, rep, ws), k), SentOn(Worked(node, rep, ws).rows, k))
  {
    WorkedRows(node, rep, ws, k);
    AlreadyInOrder(RowsOn(Worked(node, rep, ws).rows, k));
    WorkAgrees(tolerance, node, rep, Lookup(rep.table, k), ws, k);
    Replay.ReplaySimulates(tolerance, node, rep, rep, ws, k);
    ReceiveRecord(tolerance, rep, Replay.Created(node, rep, ws), k);
  }

  /** The rows of the offline work, as the theorem needs them. */
  lemma WorkedRows(node: NodeId, rep: Replica, ws: seq<Write>, k: Key)
    ensures var e := Worked(node, rep, ws);
            var written := OnKey(Replay.Created(node, rep, ws), k);
            && e.rep == Replay.WriteAll(node, rep, ws) && RowsBy(e.rows, node)
            && OpsOf(RowsOn(e.rows, k)) == written && IsChain(written)
            && CausallyOrdered(SentOn(e.rows, k))
            && forall o :: o in SentOn(e.rows, k) <==> o in written
  {
    OfflineRows(node, rep, ws);
    WorkedBy(node, rep, ws);
    WorkedChain(node, rep, ws, k);
    SortedIsOrdered(RowsOn(Worked(node, rep, ws).rows, k));
    SentMembers(Worked(node, rep, ws).rows, k);
  }

  lemma WorkedBy(node: NodeId, rep: Replica, ws: seq<Write>)
    ensures RowsBy(Worked(node, rep, ws).rows, node)
  {
    OfflineRows(node, rep, ws);
    CreatedBy(node, rep, ws);
    OpsBy(Worked(node, rep, ws).rows, node);
  }

  lemma OpsBy(rows: seq<Row>, node: NodeId)
    requires WrittenBy(node, OpsOf(rows))
    ensures RowsBy(rows, node)
  {
    forall r | r in rows
      ensures r.op.nodeId == node
    {
      var i :| 0 <= i < |rows| && rows[i] == r;
      assert OpsOf(rows)[i] in OpsOf(rows);
    }
  }

  lemma SortedIsOrdered(rows: seq<Row>)
    requires IsChain(OpsOf(rows))
    ensures CausallyOrdered(OpsOf(SortRows(rows)))
  {
    SortComparable(rows);
    assert SortRows(rows)[..|SortRows(rows)|] == SortRows(rows);
    ComparableOps(SortRows(rows), |SortRows(rows)|);
  }

  // ----- Two writes that overtake each other

  lemma {:induction false} KeepIsShorter(p: Row -> bool, rows: seq<Row>)
    ensures |Keep(p, rows)| <= |rows|
  {
    if rows != [] {
      KeepIsShorter(p, rows[..|rows| - 1]);
    }
  }

  /** One sync drains a queue that fits one batch. */
  lemma OneSyncDrains(c: Config, rows: seq<Row>, bandwidth: int, now: real)
    requires UniqueIds(rows) && (BatchSize(c, bandwidth) < 0 || |rows| <= BatchSize(c, bandwidth))
    ensures Drained(c, rows, bandwidth, [now])
  {
    KeepIsShorter(Asked(UpTo(PriorityCutoff(c, bandwidth))), rows);
    SyncMovesBatch(c, rows, bandwidth, now);
    assert [now][..0] == [];
    assert AfterSyncs(c, rows, bandwidth, []) == rows;
  }

  function FirstOp(node: NodeId, w: Write): Operation {
    NewOp(node, FRESH, w)
  }

  function SecondOp(node: NodeId, w1: Write, w2: Write): Operation {
    NewOp(node, WriteOne(node, FRESH, w1), w2)
  }

  lemma TwoWrites(node: NodeId, w1: Write, w2: Write)
    ensures Worked(node, FRESH, [w1, w2]).rows == [NewRow(FirstOp(node, w1)), NewRow(SecondOp(node, w1, w2))]
    ensures Worked(node, FRESH, [w1, w2]).rep == WriteOne(node, WriteOne(node, FRESH, w1), w2)
    ensures Replay.Created(node, FRESH, [w1, w2]) == [FirstOp(node, w1), SecondOp(node, w1, w2)]
  {
    assert [w1, w2][..1] == [w1] && [w1][..0] == [];
    assert WriteAllEdge(node, EdgeState(FRESH, []), []) == EdgeState(FRESH, []);
    assert Worked(node, FRESH, [w1]) == WriteEdge(node, EdgeState(FRESH, []), w1);
    assert Replay.WriteAll(node, FRESH, []) == FRESH;
    assert Replay.WriteAll(node, FRESH, [w1]) == WriteOne(node, FRESH, w1);
    assert Replay.Created(node, FRESH, [w1]) == [FirstOp(node, w1)];
  }

  /** Two writes of one record, the second in a higher tier or backdated, swap places. */
  predicate Swapped(w1: Write, w2: Write) {
    && w1.key == w2.key && w1.opId != w2.opId
    && (w2.priority.Level() < w1.priority.Level() || (w1.priority == w2.priority && w2.at < w1.at))
  }

  /** What the two operations carry. */
  lemma TwoOps(node: NodeId, w1: Write, w2: Write)
    requires Swapped(w1, w2)
    ensures var a, b := FirstOp(node, w1), SecondOp(node, w1, w2);
            && a.key == b.key == w1.key && a.opId != b.opId && a.kind == w1.kind && b.kind == w2.kind
            && Sooner(NewRow(b), NewRow(a)) && Earlier(a, b)
            && a.timestamp == w1.at && b.timestamp == w2.at && a.priority == w1.priority && b.priority == w2.priority
            && a.nodeId == b.nodeId == node
  {
    WriteAdvances(node, WriteOne(node, FRESH, w1), w2);
  }

  lemma TwoClocks(node: NodeId, w1: Write, w2: Write, other: NodeId)
    requires Swapped(w1, w2) && other != node
    ensures var a, b := FirstOp(node, w1), SecondOp(node, w1, w2);
            At(a.vectorClock, other) == 0 == At(b.vectorClock, other) && At(a.vectorClock, node) > 0 && At(b.vectorClock, node) > 0
  {
    IncrementAt(map[], node, other);
    IncrementAt(map[], node, node);
    IncrementAt(ClockOf(WriteOne(node, FRESH, w1).table, w2.key), node, other);
    IncrementAt(ClockOf(WriteOne(node, FRESH, w1).table, w2.key), node, node);
  }

  lemma PairSwapped(a: Operation, b: Operation)
    requires a.key == b.key && a.opId != b.opId && Sooner(NewRow(b), NewRow(a))
    ensures var rows := [NewRow(a), NewRow(b)];
            && UniqueIds(rows) && RowsOn(rows, a.key) == rows
            && SortRows(rows) == [NewRow(b), NewRow(a)]
            && SentOn(rows, a.key) == [b, a]
            && OnKey([a, b], a.key) == [a, b]
  {
    var rows := [NewRow(a), NewRow(b)];
    KeepAll(OnRecord(a.key), rows);
    SortPair(rows[0], rows[1]);
    PairOnKey(a, b, a.key);
  }

  predicate RoomForTwo(c: Config, bandwidth: int, w1: Write) {
    && w1.priority.Level() <= PriorityCutoff(c, bandwidth).Level()
    && (BatchSize(c, bandwidth) < 0 || BatchSize(c, bandwidth) >= 2)
  }

  lemma PairFits(c: Config, bandwidth: int, a: Operation, b: Operation)
    requires a.priority.Level() <= PriorityCutoff(c, bandwidth).Level() && Sooner(NewRow(b), NewRow(a))
    ensures AllEligible(c, [NewRow(a), NewRow(b)], bandwidth)
  {
  }

  lemma PairReady(c: Config, bandwidth: int, a: Operation, b: Operation, now: real)
    requires a.opId != b.opId && a.priority.Level() <= PriorityCutoff(c, bandwidth).Level() && Sooner(NewRow(b), NewRow(a))
    requires BatchSize(c, bandwidth) < 0 || BatchSize(c, bandwidth) >= 2
    ensures var rows := [NewRow(a), NewRow(b)];
            UniqueIds(rows) && AllEligible(c, rows, bandwidth) && Drained(c, rows, bandwidth, [now])
  {
    PairFits(c, bandwidth, a, b);
    OneSyncDrains(c, [NewRow(a), NewRow(b)], bandwidth, now);
  }

  lemma OvertakenIsShown(tolerance: real, a: Operation, b: Operation)
    requires Earlier(a, b) && !a.kind.Delete?
    ensures ServerView(tolerance, None, [b, a]) != Gone
  {
    var w := [b, a];
    assert CausallyOrdered(w);
    LastSurvives(w);
    NothingShownExactlyWhen(tolerance, None, w);
  }

  /** A failing run for deletes: a record is written and then deleted in a higher tier, and
      both writes go out in one batch. The node has deleted the record and has everything
      acknowledged, and the server shows the record. */
  lemma DeleteInHigherTierIsLost(c: Config, sc: ServerConfig, node: NodeId, w1: Write, w2: Write, bandwidth: int, now: real)
    requires !sc.registrationRequired && Swapped(w1, w2) && !w1.kind.Delete? && w2.kind.Delete? && RoomForTwo(c, bandwidth, w1)
    ensures var (e', s') := DeliveredSyncs(c, sc, node, Worked(node, FRESH, [w1, w2]), NEW_SERVER, bandwidth, [now]);
            && (forall r | r in e'.rows :: r.state.Synced?)
            && ViewOf(Lookup(e'.rep.table, w1.key)) == Gone
            && ViewOf(Lookup(s'.rep.table, w1.key)) != Gone
  {
    var a, b := FirstOp(node, w1), SecondOp(node, w1, w2);
    PairOnServer(c, sc, node, w1, w2, bandwidth, now);
    TwoOps(node, w1, w2);
    EdgeHasDeleted(node, w1, w2, a, b);
    OvertakenIsShown(sc.tolerance, a, b);
  }

  /** The server receives the second of the two first. */
  lemma PairOnServer(c: Config, sc: ServerConfig, node: NodeId, w1: Write, w2: Write, bandwidth: int, now: real)
    requires !sc.registrationRequired && Swapped(w1, w2) && RoomForTwo(c, bandwidth, w1)
    ensures var e := Worked(node, FRESH, [w1, w2]);
            var (e', s') := DeliveredSyncs(c, sc, node, e, NEW_SERVER, bandwidth, [now]);
            && e'.rep == e.rep && (forall r | r in e'.rows :: r.state.Synced?)
            && ViewOf(Lookup(s'.rep.table, w1.key)) == ServerView(sc.tolerance, None, [SecondOp(node, w1, w2), FirstOp(node, w1)])
            && OnKey(Replay.Created(node, FRESH, [w1, w2]), w1.key) == [FirstOp(node, w1), SecondOp(node, w1, w2)]
  {
    var a, b := FirstOp(node, w1), SecondOp(node, w1, w2);
    TwoWrites(node, w1, w2);
    TwoOps(node, w1, w2);
    PairSwapped(a, b);
    PairReady(c, bandwidth, a, b, now);
    AfterTheSyncs(c, sc, node, FRESH, NEW_SERVER, [w1, w2], bandwidth, [now], w1.key);
  }

  /** A failing run for merges: two merges of a record, the second in a higher tier, in one
      batch. The server ends with the second's fields only, so the two sides show the same
      exactly when the second sets every field of the first. */
  lemma MergeInHigherTierLosesFields(c: Config, sc: ServerConfig, node: NodeId, w1: Write, w2: Write, bandwidth: int, now: real)
    requires !sc.registrationRequired && Swapped(w1, w2) && w1.kind.Merge? && w2.kind.Merge? && RoomForTwo(c, bandwidth, w1)
    ensures var (e', s') := DeliveredSyncs(c, sc, node, Worked(node, FRESH, [w1, w2]), NEW_SERVER, bandwidth, [now]);
            var edge, server := ViewOf(Lookup(e'.rep.table, w1.key)), ViewOf(Lookup(s'.rep.table, w1.key));
            && (forall r | r in e'.rows :: r.state.Synced?)
            && edge.Live? && edge.data == w1.payload + w2.payload
            && server.Live? && server.data == w2.payload
            && (edge == server <==> w1.payload.Keys <= w2.payload.Keys)
  {
    var a, b := FirstOp(node, w1), SecondOp(node, w1, w2);
    PairOnServer(c, sc, node, w1, w2, bandwidth, now);
    TwoOps(node, w1, w2);
    MergesStored(node, w1, w2, a, b);
    OvertakingMergeShown(sc.tolerance, a, b);
    Convergence.FieldsOverridden(w1.payload, w2.payload);
  }

  lemma MergesStored(node: NodeId, w1: Write, w2: Write, a: Operation, b: Operation)
    requires OnKey(Replay.Created(node, FRESH, [w1, w2]), w1.key) == [a, b] && a.kind.Merge? && b.kind.Merge?
    ensures ViewOf(Lookup(Worked(node, FRESH, [w1, w2]).rep.table, w1.key)) == ViewOfTaken(a.payload + b.payload, b)
  {
    OfflineRows(node, FRESH, [w1, w2]);
    LastWriteStored(node, FRESH, [w1, w2], w1.key);
    MergedPair(a, b);
    StoredView(Replay.WriteAll(node, FRESH, [w1, w2]).table, w1.key, [a, b]);
  }

  lemma MergedPair(a: Operation, b: Operation)
    requires a.kind.Merge? && b.kind.Merge?
    ensures Overlaid([a, b]) == a.payload + b.payload
  {
    assert [a, b][..1] == [a] && [a][..0] == [];
    assert Overlay(map[], []) == map[] && map[] + a.payload == a.payload;
    assert Overlay(map[], [a]) == a.payload;
    assert Overlay(map[], [a, b]) == Overlay(map[], [a]) + b.payload;
  }

  lemma StoredView(t: Table, k: Key, ops: seq<Operation>)
    requires StoredLast(t, k, map[], ops) && ops != [] && !ops[|ops| - 1].kind.Delete?
    ensures ViewOf(Lookup(t, k)) == ViewOfTaken(Overlaid(ops), ops[|ops| - 1])
  {
  }

  lemma OvertakingMergeShown(tolerance: real, a: Operation, b: Operation)
    requires Earlier(a, b) && a.kind.Merge? && b.kind.Merge?
    ensures ServerView(tolerance, None, [b, a]) == ViewOfTaken(b.payload, b)
  {
    EarlierIsStrict(a, b);
    assert IsChain([a, b]) && CausallyOrdered([b, a]);
    LastIsShown(tolerance, None, [a, b], [b, a]);
    TakenOne(b);
    TakenAppend(None, [b], a);
    assert [b] + [a] == [b, a] && [b] + [] == [b];
    assert [b][..0] == [] && map[] + b.payload == b.payload;
  }

  lemma EdgeHasDeleted(node: NodeId, w1: Write, w2: Write, a: Operation, b: Operation)
    requires OnKey(Replay.Created(node, FRESH, [w1, w2]), w1.key) == [a, b] && b.kind.Delete?
    ensures ViewOf(Lookup(Worked(node, FRESH, [w1, w2]).rep.table, w1.key)) == Gone
  {
    OfflineRows(node, FRESH, [w1, w2]);
    LastWriteStored(node, FRESH, [w1, w2], w1.key);
  }

  lemma LastSurvives(w: seq<Operation>)
    requires w != [] && !w[|w| - 1].kind.Delete?
    ensures Survives(w, |w| - 1)
  {
  }

  /** A failing run for resends: two updates of a record, the second in a higher tier and
      backdated by more than the tolerance before a concurrent record that the server has.
      The first push takes the first update only; the same push again takes the second. */
  lemma BackdatedWriteSpoilsResend(tolerance: real, c: Config, node: NodeId, w1: Write, w2: Write, bandwidth: int, rival: Record)
    requires Swapped(w1, w2) && w1.kind.Update? && w2.kind.Update? && RoomForTwo(c, bandwidth, w1)
    requires !rival.deleted && rival.lastModifiedBy != node && rival.vectorClock == map[rival.lastModifiedBy := 1]
    requires w2.at + tolerance < rival.lastModified && rival.lastModified + tolerance < w1.at && tolerance >= 0.0
    ensures var batch := Pushed(c, Worked(node, FRESH, [w1, w2]), bandwidth);
            && batch == [SecondOp(node, w1, w2), FirstOp(node, w1)]
            && !SafeToResend(tolerance, Holding(w1.key, Some(rival)), batch, w1.key)
  {
    var a, b := FirstOp(node, w1), SecondOp(node, w1, w2);
    TwoWrites(node, w1, w2);
    TwoOps(node, w1, w2);
    TwoClocks(node, w1, w2, rival.lastModifiedBy);
    PairSwapped(a, b);
    PairFits(c, bandwidth, a, b);
    KeepAll(Asked(UpTo(PriorityCutoff(c, bandwidth))), [NewRow(a), NewRow(b)]);
    assert Pushed(c, Worked(node, FRESH, [w1, w2]), bandwidth) == [b, a];
    PairSpoilsResend(tolerance, a, b, rival);
  }

  lemma PairSpoilsResend(tolerance: real, a: Operation, b: Operation, rival: Record)
    requires a.key == b.key && a.kind.Update? && b.kind.Update? && Earlier(a, b)
    requires a.nodeId == b.nodeId != rival.lastModifiedBy && rival.vectorClock == map[rival.lastModifiedBy := 1] && !rival.deleted
    requires At(a.vectorClock, rival.lastModifiedBy) == 0 == At(b.vectorClock, rival.lastModifiedBy)
    requires At(a.vectorClock, a.nodeId) > 0 && At(b.vectorClock, b.nodeId) > 0
    requires b.timestamp + tolerance < rival.lastModified && rival.lastModified + tolerance < a.timestamp && tolerance >= 0.0
    ensures !SafeToResend(tolerance, Holding(a.key, Some(rival)), [b, a], a.key)
  {
    var w := [b, a];
    PairOnKey(b, a, a.key);
    RivalIsConcurrent(tolerance, rival, a);
    RivalIsConcurrent(tolerance, rival, b);
    assert CausallyOrdered(w) && Survives(w, 0);
    LateOneSpoilsResend(tolerance, rival, w, 0, 1);
    SafeOnRecord(tolerance, Holding(a.key, Some(rival)), w, a.key);
  }

  lemma PairOnKey(a: Operation, b: Operation, k: Key)
    requires a.key == k && b.key == k
    ensures OnKey([a, b], k) == [a, b]
  {
    assert [a, b][..1] == [a] && [a][..0] == [];
    assert OnKey([a], k) == [a];
  }

  lemma RivalIsConcurrent(tolerance: real, rival: Record, o: Operation)
    requires rival.vectorClock == map[rival.lastModifiedBy := 1] && rival.lastModifiedBy != o.nodeId
    requires At(o.vectorClock, rival.lastModifiedBy) == 0 && At(o.vectorClock, o.nodeId) > 0
    ensures Order(rival.vectorClock, o.vectorClock).Concurrent?
  {
    OrderDecides(rival.vectorClock, o.vectorClock);
    assert At(rival.vectorClock, rival.lastModifiedBy) > At(o.vectorClock, rival.lastModifiedBy);
    assert At(o.vectorClock, o.nodeId) > At(rival.vectorClock, o.nodeId);
  }
}
