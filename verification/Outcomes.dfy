/** What a sync comes to for each fate of its exchange: on the rows of the outbox, on the
    replica, on the server, and in its status. */
module Outcomes {
  import opened Models
  import opened VectorClocks
  import opened Replicas
  import opened Protocol
  import opened Outbox
  import opened Scheduling
  import opened Server
  import opened Engine
  import opened AtLeastOnce
  import Sync

  // ----- The rows

  lemma BatchInRows(c: Config, rows: seq<Row>, bandwidth: int)
    ensures forall b | b in Batch(c, rows, bandwidth) :: b in rows && b.state == Pending
  {
    PendingIsBestPrefix(rows, BatchSize(c, bandwidth), UpTo(PriorityCutoff(c, bandwidth)));
  }

  lemma IdsOfBatch(c: Config, rows: seq<Row>, bandwidth: int, i: nat)
    requires UniqueIds(rows) && i < |rows|
    ensures rows[i].op.opId in IdsOf(OpsOf(Batch(c, rows, bandwidth))) <==> rows[i] in Batch(c, rows, bandwidth)
  {
    var batch := Batch(c, rows, bandwidth);
    BatchInRows(c, rows, bandwidth);
    AckedIds(batch, rows[i].op.opId);
    if b :| b in batch && b.op.opId == rows[i].op.opId {
      var j :| 0 <= j < |rows| && rows[j] == b;
      assert i == j;
    }
  }

  /** The batch has failed: each of its rows, and no other, waits for a restart with one more
      attempt counted and the error noted. */
  ghost predicate BatchFailed(c: Config, rows: seq<Row>, bandwidth: int, error: string, rows': seq<Row>) {
    && |rows'| == |rows|
    && forall i | 0 <= i < |rows| ::
         rows'[i] == if rows[i] in Batch(c, rows, bandwidth)
                     then Row(rows[i].op, Failed, rows[i].syncedAt, rows[i].attempts + 1, Some(error))
                     else rows[i]
  }

  lemma FailsBatch(c: Config, rows: seq<Row>, bandwidth: int, error: string)
    requires UniqueIds(rows)
    ensures BatchFailed(c, rows, bandwidth, error, FailedRows(rows, IdsOf(OpsOf(Batch(c, rows, bandwidth))), error))
  {
    forall i | 0 <= i < |rows|
      ensures rows[i].op.opId in IdsOf(OpsOf(Batch(c, rows, bandwidth))) <==> rows[i] in Batch(c, rows, bandwidth)
    {
      IdsOfBatch(c, rows, bandwidth, i);
    }
  }

  /** No answer. */
  lemma NoAnswerFailsBatch(c: Config, sc: ServerConfig, node: NodeId, e: EdgeState, s: ServerState, bandwidth: int, fate: Fate, now: real)
    requires UniqueIds(e.rows) && (fate == RequestLost || fate == ReplyLost)
    ensures var e' := SyncEdge(c, sc, node, e, s, Up(bandwidth, fate), now);
            && e'.rep == e.rep
            && |e'.rows| == |e.rows|
            && (forall i | 0 <= i < |e.rows| ::
                  e'.rows[i] == if e.rows[i] in Batch(c, e.rows, bandwidth)
                                then Row(e.rows[i].op, Failed, e.rows[i].syncedAt, e.rows[i].attempts + 1,
                                         Some("No response received from remote peer"))
                                else e.rows[i])
            && PendingOps(e'.rows) == PendingOps(e.rows) - ToSet(Pushed(c, e, bandwidth))
  {
    FailsBatch(c, e.rows, bandwidth, NO_ANSWER);
    FailedAreNotPending(c, e.rows, bandwidth, NO_ANSWER, SyncEdge(c, sc, node, e, s, Up(bandwidth, fate), now).rows);
  }

  /** An error reply, be it this request's or an earlier one's. */
  lemma ErrorReplyFailsBatch(c: Config, sc: ServerConfig, node: NodeId, e: EdgeState, s: ServerState, bandwidth: int, fate: Fate, now: real)
    requires UniqueIds(e.rows) && (fate == Delivered || fate.RequestDamaged? || fate.StaleReply?)
    requires var answer := SyncAnswer(c, sc, node, e, s, Up(bandwidth, fate));
             answer.Answered? && !answer.resp.ok
    ensures var e' := SyncEdge(c, sc, node, e, s, Up(bandwidth, fate), now);
            var resp := SyncAnswer(c, sc, node, e, s, Up(bandwidth, fate)).resp;
            && e'.rep == e.rep
            && |e'.rows| == |e.rows|
            && (forall i | 0 <= i < |e.rows| ::
                  e'.rows[i] == if e.rows[i] in Batch(c, e.rows, bandwidth)
                                then Row(e.rows[i].op, Failed, e.rows[i].syncedAt, e.rows[i].attempts + 1,
                                         Some(if resp.error == "" then "Remote server returned error" else resp.error))
                                else e.rows[i])
            && PendingOps(e'.rows) == PendingOps(e.rows) - ToSet(Pushed(c, e, bandwidth))
  {
    var resp := SyncAnswer(c, sc, node, e, s, Up(bandwidth, fate)).resp;
    FailsBatch(c, e.rows, bandwidth, ErrorOf(resp));
    FailedAreNotPending(c, e.rows, bandwidth, ErrorOf(resp), SyncEdge(c, sc, node, e, s, Up(bandwidth, fate), now).rows);
  }

  lemma FailedAreNotPending(c: Config, rows: seq<Row>, bandwidth: int, error: string, rows': seq<Row>)
    requires UniqueIds(rows) && BatchFailed(c, rows, bandwidth, error, rows')
    ensures PendingOps(rows') == PendingOps(rows) - ToSet(OpsOf(Batch(c, rows, bandwidth)))
  {
    var batch := Batch(c, rows, bandwidth);
    BatchInRows(c, rows, bandwidth);
    OpsOfBatch(batch);
    forall o
      ensures o in PendingOps(rows') <==> o in PendingOps(rows) && o !in OpsOf(batch)
    {
      if o in PendingOps(rows') {
        var r' :| r' in rows' && r'.state.Pending? && r'.op == o;
        var i :| 0 <= i < |rows'| && rows'[i] == r';
        assert rows[i] in rows && rows[i] !in batch;
        if b :| b in batch && b.op == o {
          SameOpSameRow(rows, b, rows[i]);
        }
      }
      if o in PendingOps(rows) && o !in OpsOf(batch) {
        var r :| r in rows && r.state.Pending? && r.op == o;
        var i :| 0 <= i < |rows| && rows[i] == r;
        assert r !in batch;
        assert rows'[i] in rows';
      }
    }
  }

  lemma OpsOfBatch(batch: seq<Row>)
    ensures forall o :: o in OpsOf(batch) <==> exists b :: b in batch && b.op == o
  {
    forall o
      ensures o in OpsOf(batch) <==> exists b :: b in batch && b.op == o
    {
      if o in OpsOf(batch) {
        var i :| 0 <= i < |batch| && OpsOf(batch)[i] == o;
        assert batch[i] in batch;
      }
      if b :| b in batch && b.op == o {
        var i :| 0 <= i < |batch| && batch[i] == b;
        assert OpsOf(batch)[i] == o;
      }
    }
  }

  lemma SameOpSameRow(rows: seq<Row>, a: Row, b: Row)
    requires UniqueIds(rows) && a in rows && b in rows && a.op == b.op
    ensures a == b
  {
    var i :| 0 <= i < |rows| && rows[i] == a;
    var j :| 0 <= j < |rows| && rows[j] == b;
    assert i == j;
  }

  /** An answer that cannot be read changes nothing on the edge, whatever it did on the
      server: the batch stays pending and is sent again. */
  lemma GarbledReplyChangesNothing(c: Config, sc: ServerConfig, node: NodeId, e: EdgeState, s: ServerState, bandwidth: int, now: real)
    ensures SyncEdge(c, sc, node, e, s, Up(bandwidth, ReplyGarbled), now) == e
    ensures SyncEdge(c, sc, node, e, s, Down, now) == e
  {
  }

  /** An ok reply: exactly the rows it names become synced, and what it brings is received up
      to the first entry that cannot be read. */
  lemma OkReplySyncsNamedRows(c: Config, sc: ServerConfig, node: NodeId, e: EdgeState, s: ServerState, bandwidth: int, fate: Fate, now: real)
    requires var answer := SyncAnswer(c, sc, node, e, s, Up(bandwidth, fate));
             answer.Answered? && answer.resp.ok
    ensures var e' := SyncEdge(c, sc, node, e, s, Up(bandwidth, fate), now);
            var resp := SyncAnswer(c, sc, node, e, s, Up(bandwidth, fate)).resp;
            && e'.rep == Receive(c.tolerance, e.rep, GoodPrefix(ItemsOf(resp.payload)))
            && |e'.rows| == |e.rows|
            && forall i | 0 <= i < |e.rows| ::
                 e'.rows[i] == if e.rows[i].op.opId in resp.acked
                               then Row(e.rows[i].op, Synced, Some(now), e.rows[i].attempts, e.rows[i].lastError)
                               else e.rows[i]
  {
  }

  // ----- The server and the status

  predicate Admitted(sc: ServerConfig, node: NodeId, s: ServerState) {
    sc.registrationRequired ==> node in s.registered
  }

  /** The server runs the batch exactly if it admits the node and the request reaches it
      whole; a reply that does not come back makes no difference there. */
  lemma ServerByFate(c: Config, sc: ServerConfig, node: NodeId, e: EdgeState, s: ServerState, bandwidth: int, fate: Fate)
    ensures var s' := SyncServer(c, sc, node, e, s, Up(bandwidth, fate));
            if Admitted(sc, node, s) && (fate == Delivered || fate == ReplyLost || fate == ReplyGarbled || (fate.StaleReply? && fate.handled))
            then s' == ServerState(Receive(sc.tolerance, s.rep, Pushed(c, e, bandwidth)), s.registered + {node})
            else s' == s
  {
    var req := PushRequest(node, e, Pushed(c, e, bandwidth));
    if !Refused(sc, s, req) {
      Sync.PushIsRun(sc, node, e, s, Pushed(c, e, bandwidth));
    }
  }

  /** What comes back: nothing, something unreadable, an earlier reply, or the reply of the
      server, which to a damaged request is an error that says what was found. */
  lemma AnswerByFate(c: Config, sc: ServerConfig, node: NodeId, e: EdgeState, s: ServerState, bandwidth: int, fate: Fate)
    ensures var answer := SyncAnswer(c, sc, node, e, s, Up(bandwidth, fate));
            match fate
            case RequestLost => answer == NoAnswer
            case ReplyLost => answer == NoAnswer
            case ReplyGarbled => answer == Garbled
            case StaleReply(resp, _) => answer == Answered(resp)
            case Delivered =>
              if Admitted(sc, node, s)
              then answer.Answered? && answer.resp.ok && answer.resp.acked == IdsOf(Pushed(c, e, bandwidth))
              else answer == Answered(Response(false, [], Empty, "Node is not registered on this server"))
            case RequestDamaged(readable) =>
              answer == Answered(Response(false, [], Empty,
                                          if !Admitted(sc, node, s) then "Node is not registered on this server"
                                          else if readable then "Payload hash mismatch (integrity check failed)"
                                          else "Failed to unpack operations"))
  {
    var req := PushRequest(node, e, Pushed(c, e, bandwidth));
    if fate == Delivered && Admitted(sc, node, s) {
      Sync.PushIsRun(sc, node, e, s, Pushed(c, e, bandwidth));
    }
  }

  /** A restart keeps the records and the queue, forgets counter and clock, and makes exactly
      the failed rows pending. */
  lemma RestartMeans(e: EdgeState)
    ensures var e' := RestartEdge(e);
            && e'.rep.table == e.rep.table && e'.rep.lamport == 0 && e'.rep.clock == map[]
            && |e'.rows| == |e.rows|
            && forall i | 0 <= i < |e.rows| ::
                 e'.rows[i] == if e.rows[i].state == Failed
                               then Row(e.rows[i].op, Pending, e.rows[i].syncedAt, e.rows[i].attempts, e.rows[i].lastError)
                               else e.rows[i]
  {
  }

  /** A sync completes exactly if its exchange is delivered and the server admits the node, or
      if some other ok reply that can be read to its end comes instead. */
  lemma CompletesExactlyWhen(c: Config, sc: ServerConfig, node: NodeId, e: EdgeState, s: ServerState, bandwidth: int, fate: Fate)
    ensures StatusOf(SyncAnswer(c, sc, node, e, s, Up(bandwidth, fate))) == Completed <==>
            || (fate == Delivered && Admitted(sc, node, s))
            || (fate.StaleReply? && fate.resp.ok && fate.resp.payload != Unreadable
                && (fate.resp.payload.Items? ==> forall item | item in fate.resp.payload.items :: item.Good?))
  {
    match fate
    case Delivered => DeliveredReply(c, sc, node, e, s, bandwidth);
    case StaleReply(resp, _) => AllGood(ItemsOf(resp.payload));
    case _ =>
  }

  lemma DeliveredReply(c: Config, sc: ServerConfig, node: NodeId, e: EdgeState, s: ServerState, bandwidth: int)
    ensures var resp := Reply(sc, s, PushRequest(node, e, Pushed(c, e, bandwidth)));
            (resp.ok <==> Admitted(sc, node, s)) && !Raises(resp.payload)
  {
    var req := PushRequest(node, e, Pushed(c, e, bandwidth));
    if !Refused(sc, s, req) {
      Sync.PushIsRun(sc, node, e, s, Pushed(c, e, bandwidth));
      WrapIsReadable(DeltaFor(sc, s, req));
    }
  }

  /** In a run, a sync step does to the two nodes what a sync does, and the server's log of
      operations grows by the batch exactly if it arrived. */
  lemma StepIsSync(u: Setup, w: World, bandwidth: int, fate: Fate, now: real)
    ensures var w' := Next(u, w, SyncStep(Up(bandwidth, fate), now));
            && w'.edge == SyncEdge(u.config, u.serverConfig, u.node, w.edge, w.server, Up(bandwidth, fate), now)
            && w'.server == SyncServer(u.config, u.serverConfig, u.node, w.edge, w.server, Up(bandwidth, fate))
            && w'.enqueued == w.enqueued && w'.purged == w.purged
            && w'.resolved == w.resolved +
               if Admitted(u.serverConfig, u.node, w.server)
                  && (fate == Delivered || fate == ReplyLost || fate == ReplyGarbled || (fate.StaleReply? && fate.handled))
               then ToSet(Pushed(u.config, w.edge, bandwidth)) else {}
  {
    WrapIsReadable(Pushed(u.config, w.edge, bandwidth));
  }
}
