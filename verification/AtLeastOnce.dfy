/** Every run of an edge node against a server over a link that loses, damages, repeats and
    mixes up messages, with restarts and purges in between, other nodes on the server, and
    requests that arrive late or more than once. */
module AtLeastOnce {
  import opened Models
  import opened VectorClocks
  import opened Replicas
  import opened Protocol
  import opened Outbox
  import opened Scheduling
  import opened Server
  import opened Engine

  datatype Setup = Setup(node: NodeId, config: Config, serverConfig: ServerConfig)

  /** The two nodes and what has happened so far: replies the server has sent to anyone,
      operations it has run through the resolver, operations this edge has enqueued, and
      the ones whose rows were purged. */
  datatype World = World(
    edge: EdgeState,
    server: ServerState,
    replies: set<Response>,
    resolved: set<Operation>,
    enqueued: set<Operation>,
    purged: set<Operation>)

  datatype Step =
    | WriteStep(w: Write)
    | SyncStep(link: Link, now: real)
    | RestartStep
    | PurgeStep(cutoff: real)
    | Arrival(req: Request)

  function ToSet(ops: seq<Operation>): set<Operation> {
    set o | o in ops
  }

  /** The request the server handles in a sync, if any. */
  function Arrived(u: Setup, w: World, link: Link): Option<Request> {
    if link.Down? then None
    else
      var req := PushRequest(u.node, w.edge, Pushed(u.config, w.edge, link.bandwidth));
      match link.fate
      case RequestLost => None
      case RequestDamaged(readable) => Some(Damaged(req, readable))
      case StaleReply(_, handled) => if handled then Some(req) else None
      case _ => Some(req)
  }

  function ServerSteps(u: Setup, w: World, req: Request): World {
    w.(server := Handled(u.serverConfig, w.server, req),
       replies := w.replies + {Reply(u.serverConfig, w.server, req)},
       resolved := w.resolved + ToSet(Ran(u.serverConfig, w.server, req)))
  }

  function Next(u: Setup, w: World, step: Step): World {
    match step
    case WriteStep(wr) =>
      w.(edge := WriteEdge(u.node, w.edge, wr), enqueued := w.enqueued + {NewOp(u.node, w.edge.rep, wr)})
    case SyncStep(link, now) =>
      var arrived := Arrived(u, w, link);
      var w' := if arrived.Some? then ServerSteps(u, w, arrived.value) else w;
      w'.(edge := SyncEdge(u.config, u.serverConfig, u.node, w.edge, w.server, link, now))
    case RestartStep => w.(edge := RestartEdge(w.edge))
    case PurgeStep(cutoff) =>
      w.(edge := EdgeState(w.edge.rep, Purge(w.edge.rows, cutoff)),
         purged := w.purged + set r | r in w.edge.rows && Purgeable(r, cutoff) :: r.op)
    case Arrival(req) => ServerSteps(u, w, req)
  }

  /** What the environment guarantees: a new operation's identifier is new, a stale reply is
      one the server did send at some time, to this node or another, and a request that
      arrives outside a sync may carry any operations, this edge's own among them, as long
      as nobody else uses their identifiers. So a request of this edge may arrive late, and
      any number of times. */
  ghost predicate Enabled(u: Setup, w: World, step: Step) {
    match step
    case WriteStep(wr) => forall o | o in w.enqueued + w.resolved :: o.opId != wr.opId
    case SyncStep(Up(_, StaleReply(resp, _)), _) => resp in w.replies
    case Arrival(req) =>
      forall o, p | o in Ran(u.serverConfig, w.server, req) && p in w.enqueued && o.opId == p.opId :: o == p
    case _ => true
  }

  function RunAll(u: Setup, w: World, steps: seq<Step>): World {
    if steps == [] then w
    else Next(u, RunAll(u, w, steps[..|steps| - 1]), steps[|steps| - 1])
  }

  ghost predicate AllEnabled(u: Setup, w: World, steps: seq<Step>) {
    steps == [] || (AllEnabled(u, w, steps[..|steps| - 1])
                    && Enabled(u, RunAll(u, w, steps[..|steps| - 1]), steps[|steps| - 1]))
  }

  /** An empty outbox on any database, and a server in any state. */
  ghost predicate Start(w: World) {
    w.edge.rows == [] && w.replies == {} && w.resolved == {} && w.enqueued == {} && w.purged == {}
  }

  // ----- The invariant

  ghost predicate SyncedWereResolved(w: World) {
    forall r | r in w.edge.rows && r.state.Synced? :: r.op in w.resolved
  }

  ghost predicate NothingLost(w: World) {
    && (forall r | r in w.edge.rows :: r.op in w.enqueued)
    && (forall o | o in w.enqueued :: o in w.purged || exists r :: r in w.edge.rows && r.op == o)
    && w.purged <= w.enqueued * w.resolved
  }

  ghost predicate RepliesAreHonest(w: World) {
    forall resp, id | resp in w.replies && id in resp.acked :: exists o :: o in w.resolved && o.opId == id
  }

  /** The server only ran the very operations that were enqueued. */
  ghost predicate IdsIdentify(w: World) {
    && UniqueIds(w.edge.rows)
    && forall o, p | o in w.resolved && p in w.enqueued && o.opId == p.opId :: o == p
  }

  ghost predicate Inv(w: World) {
    SyncedWereResolved(w) && NothingLost(w) && RepliesAreHonest(w) && IdsIdentify(w)
  }

  // ----- Preservation, one change at a time

  lemma WriteKeeps(u: Setup, w: World, wr: Write)
    requires Inv(w) && Enabled(u, w, WriteStep(wr))
    ensures Inv(Next(u, w, WriteStep(wr)))
  {
    var op := NewOp(u.node, w.edge.rep, wr);
    var w' := Next(u, w, WriteStep(wr));
    assert w'.edge.rows == w.edge.rows + [NewRow(op)];
    AppendKeepsUnique(w, op);
    AppendLosesNothing(w, w', op);
  }

  lemma AppendKeepsUnique(w: World, op: Operation)
    requires Inv(w) && forall o | o in w.enqueued :: o.opId != op.opId
    ensures UniqueIds(w.edge.rows + [NewRow(op)])
  {
    forall i | 0 <= i < |w.edge.rows|
      ensures w.edge.rows[i].op.opId != op.opId
    {
      assert w.edge.rows[i] in w.edge.rows;
    }
  }

  lemma AppendLosesNothing(w: World, w': World, op: Operation)
    requires NothingLost(w) && w'.edge.rows == w.edge.rows + [NewRow(op)]
    requires w'.enqueued == w.enqueued + {op} && w'.purged == w.purged && w'.resolved == w.resolved
    ensures NothingLost(w')
  {
    assert NewRow(op) in w'.edge.rows;
    forall o | o in w'.enqueued && o !in w'.purged
      ensures exists r :: r in w'.edge.rows && r.op == o
    {
      if o == op {
        assert NewRow(op).op == o;
      } else {
        var r :| r in w.edge.rows && r.op == o;
        assert r in w'.edge.rows;
      }
    }
  }

  /** The server's part of any step: new operations are resolved, and the reply
      acknowledges only them. */
  lemma ServerKeeps(u: Setup, w: World, req: Request)
    requires Inv(w)
    requires forall o, p | o in Ran(u.serverConfig, w.server, req) && p in w.enqueued && o.opId == p.opId :: o == p
    ensures Inv(ServerSteps(u, w, req))
  {
    var ran := Ran(u.serverConfig, w.server, req);
    var w' := ServerSteps(u, w, req);
    forall resp, id | resp in w'.replies && id in resp.acked
      ensures exists o :: o in w'.resolved && o.opId == id
    {
      if resp in w.replies {
        var o :| o in w.resolved && o.opId == id;
        assert o in w'.resolved;
      } else {
        assert id in IdsOf(ran);
        var i :| 0 <= i < |ran| && IdsOf(ran)[i] == id;
        assert ran[i] in w'.resolved;
      }
    }
  }

  /** Rows keep their operations, and only rows in `ids` change state. */
  lemma MarkKeeps(w: World, w': World, ids: seq<string>, change: Row -> Row)
    requires Inv(w) && w' == w.(edge := w'.edge) && w'.edge.rows == MapRows(w.edge.rows, ids, change)
    requires forall r :: change(r).op == r.op
    requires forall r | r in w.edge.rows && r.op.opId in ids && change(r).state.Synced? :: r.op in w.resolved
    ensures Inv(w')
  {
    var rows, rows' := w.edge.rows, w'.edge.rows;
    forall i | 0 <= i < |rows|
      ensures rows'[i].op == rows[i].op && rows[i] in rows && rows'[i] in rows'
      ensures rows'[i].state.Synced? ==> rows[i].op in w.resolved
    {
      assert rows[i] in rows;
    }
    forall r' | r' in rows'
      ensures r'.op in w.enqueued && (r'.state.Synced? ==> r'.op in w.resolved)
    {
      var i :| 0 <= i < |rows'| && rows'[i] == r';
      assert rows[i] in rows;
    }
    forall o | o in w.enqueued && o !in w.purged
      ensures exists r' :: r' in rows' && r'.op == o
    {
      var r :| r in rows && r.op == o;
      var i :| 0 <= i < |rows| && rows[i] == r;
      assert rows'[i] in rows';
    }
  }

  lemma RestartKeeps(u: Setup, w: World)
    requires Inv(w)
    ensures Inv(Next(u, w, RestartStep))
  {
    var rows, rows' := w.edge.rows, ResetFailed(w.edge.rows);
    forall r' | r' in rows'
      ensures r'.op in w.enqueued && (r'.state.Synced? ==> r'.op in w.resolved)
    {
      var i :| 0 <= i < |rows'| && rows'[i] == r';
      assert rows[i] in rows;
    }
    forall o | o in w.enqueued && o !in w.purged
      ensures exists r' :: r' in rows' && r'.op == o
    {
      var r :| r in rows && r.op == o;
      var i :| 0 <= i < |rows| && rows[i] == r;
      assert rows'[i] in rows';
    }
  }

  lemma PurgeKeeps(u: Setup, w: World, cutoff: real)
    requires Inv(w)
    ensures Inv(Next(u, w, PurgeStep(cutoff)))
  {
    PurgeShrinks(w.edge.rows, cutoff);
    PurgeKeepsUnique(w.edge.rows, cutoff);
    var w' := Next(u, w, PurgeStep(cutoff));
    forall o | o in w'.enqueued
      ensures o in w'.purged || exists r :: r in w'.edge.rows && r.op == o
    {
      if o !in w.purged {
        var r :| r in w.edge.rows && r.op == o;
        assert r in w'.edge.rows || o in w'.purged;
      }
    }
  }

  lemma BatchIsEnqueued(u: Setup, w: World, bandwidth: int)
    requires Inv(w)
    ensures forall o | o in Pushed(u.config, w.edge, bandwidth) :: o in w.enqueued
    ensures forall o, p | o in Pushed(u.config, w.edge, bandwidth) && p in w.enqueued && o.opId == p.opId :: o == p
  {
    var batch := Batch(u.config, w.edge.rows, bandwidth);
    PendingIsBestPrefix(w.edge.rows, BatchSize(u.config, bandwidth), UpTo(PriorityCutoff(u.config, bandwidth)));
    forall o | o in Pushed(u.config, w.edge, bandwidth)
      ensures o in w.enqueued
    {
      var i :| 0 <= i < |batch| && OpsOf(batch)[i] == o;
      assert batch[i] in batch;
    }
    EnqueuedIdsUnique(w);
  }

  /** Two enqueued operations never share an identifier. This needs no row for them. */
  lemma EnqueuedIdsUnique(w: World)
    requires Inv(w)
    ensures forall o, p | o in w.enqueued && p in w.enqueued && o.opId == p.opId :: o == p
  {
    forall o, p | o in w.enqueued && p in w.enqueued && o.opId == p.opId
      ensures o == p
    {
      if o !in w.purged && p !in w.purged {
        var r :| r in w.edge.rows && r.op == o;
        var q :| q in w.edge.rows && q.op == p;
        var i :| 0 <= i < |w.edge.rows| && w.edge.rows[i] == r;
        var j :| 0 <= j < |w.edge.rows| && w.edge.rows[j] == q;
        assert i == j;
      }
    }
  }

  /** A request made of this edge's operations can arrive at any time and any number of
      times; no run is excluded for it. */
  lemma OwnRequestMayRepeat(u: Setup, w: World, req: Request)
    requires Inv(w) && forall o | o in Ran(u.serverConfig, w.server, req) :: o in w.enqueued
    ensures Enabled(u, w, Arrival(req))
  {
    EnqueuedIdsUnique(w);
  }

  lemma SyncKeeps(u: Setup, w: World, link: Link, now: real)
    requires Inv(w) && Enabled(u, w, SyncStep(link, now))
    ensures Inv(Next(u, w, SyncStep(link, now)))
  {
    if link.Up? {
      var batch := Pushed(u.config, w.edge, link.bandwidth);
      var arrived := Arrived(u, w, link);
      BatchIsEnqueued(u, w, link.bandwidth);
      WrapIsReadable(batch);
      if arrived.Some? {
        RanIsFromBatch(u, w, link);
        ServerKeeps(u, w, arrived.value);
      }
      var w1 := if arrived.Some? then ServerSteps(u, w, arrived.value) else w;
      assert w1.edge == w.edge;
      AnswerIsHonest(u, w, w1, link, now);
      FinishKeeps(u, w1, batch, SyncAnswer(u.config, u.serverConfig, u.node, w.edge, w.server, link), now);
    }
  }

  lemma RanIsFromBatch(u: Setup, w: World, link: Link)
    requires link.Up? && Arrived(u, w, link).Some?
    ensures forall o | o in Ran(u.serverConfig, w.server, Arrived(u, w, link).value) ::
              o in Pushed(u.config, w.edge, link.bandwidth)
  {
    WrapIsReadable(Pushed(u.config, w.edge, link.bandwidth));
  }

  lemma AnswerIsHonest(u: Setup, w: World, w1: World, link: Link, now: real)
    requires link.Up? && Enabled(u, w, SyncStep(link, now))
    requires w1 == if Arrived(u, w, link).Some? then ServerSteps(u, w, Arrived(u, w, link).value) else w
    ensures var answer := SyncAnswer(u.config, u.serverConfig, u.node, w.edge, w.server, link);
            answer.Answered? ==> answer.resp in w1.replies
  {
  }

  lemma FinishKeeps(u: Setup, w: World, batch: seq<Operation>, answer: Answer, now: real)
    requires Inv(w) && (answer.Answered? ==> answer.resp in w.replies)
    ensures Inv(w.(edge := Finish(u.config.tolerance, w.edge, batch, answer, now)))
  {
    var w' := w.(edge := Finish(u.config.tolerance, w.edge, batch, answer, now));
    match answer
    case Garbled =>
    case NoAnswer =>
      MarkKeeps(w, w', IdsOf(batch), ToFailed(NO_ANSWER));
    case Answered(resp) =>
      if resp.ok {
        forall r | r in w.edge.rows && r.op.opId in resp.acked
          ensures r.op in w.resolved
        {
          var o :| o in w.resolved && o.opId == r.op.opId;
        }
        MarkKeeps(w, w', resp.acked, ToSynced(now));
      } else {
        MarkKeeps(w, w', IdsOf(batch), ToFailed(ErrorOf(resp)));
      }
  }

  lemma StepKeeps(u: Setup, w: World, step: Step)
    requires Inv(w) && Enabled(u, w, step)
    ensures Inv(Next(u, w, step))
  {
    match step
    case WriteStep(wr) => WriteKeeps(u, w, wr);
    case SyncStep(link, now) => SyncKeeps(u, w, link, now);
    case RestartStep => RestartKeeps(u, w);
    case PurgeStep(cutoff) => PurgeKeeps(u, w, cutoff);
    case Arrival(req) => ServerKeeps(u, w, req);
  }

  /** At-least-once delivery, in every run: a row is synced only if the server ran that very
      operation through the resolver, and an enqueued operation has no row any more only if
      that had happened before its row was purged. */
  lemma {:induction false} AtLeastOnceDelivery(u: Setup, start: World, steps: seq<Step>)
    requires Start(start) && AllEnabled(u, start, steps)
    ensures var w := RunAll(u, start, steps);
            && Inv(w)
            && (forall r | r in w.edge.rows && r.state.Synced? :: r.op in w.resolved)
            && (forall o | o in w.enqueued :: (exists r :: r in w.edge.rows && r.op == o) || o in w.purged * w.resolved)
  {
    if steps != [] {
      var front := steps[..|steps| - 1];
      AtLeastOnceDelivery(u, start, front);
      StepKeeps(u, RunAll(u, start, front), steps[|steps| - 1]);
    }
  }

  // ----- Failed rows wait for a restart

  function PendingOps(rows: seq<Row>): set<Operation> {
    set r | r in rows && r.state.Pending? :: r.op
  }

  lemma MarkNeverRevives(rows: seq<Row>, ids: seq<string>, change: Row -> Row)
    requires forall r :: change(r).op == r.op && !change(r).state.Pending?
    ensures PendingOps(MapRows(rows, ids, change)) <= PendingOps(rows)
  {
    var rows' := MapRows(rows, ids, change);
    forall r' | r' in rows' && r'.state.Pending?
      ensures r' in rows
    {
      var i :| 0 <= i < |rows'| && rows'[i] == r';
      assert rows[i] in rows;
    }
  }

  /** Between two restarts the pending operations are the ones pending at first or written
      since: neither a sync of whatever outcome nor a purge makes a failed row pending. */
  lemma OnlyRestartRevives(u: Setup, w: World, step: Step)
    requires !step.RestartStep?
    ensures PendingOps(Next(u, w, step).edge.rows)
         <= PendingOps(w.edge.rows) + if step.WriteStep? then {NewOp(u.node, w.edge.rep, step.w)} else {}
  {
    match step
    case PurgeStep(cutoff) =>
      PurgeShrinks(w.edge.rows, cutoff);
    case SyncStep(link, now) =>
      if link.Up? {
        var batch := Pushed(u.config, w.edge, link.bandwidth);
        var answer := SyncAnswer(u.config, u.serverConfig, u.node, w.edge, w.server, link);
        MarkNeverRevives(w.edge.rows, IdsOf(batch), ToFailed(NO_ANSWER));
        if answer.Answered? {
          MarkNeverRevives(w.edge.rows, IdsOf(batch), ToFailed(ErrorOf(answer.resp)));
          MarkNeverRevives(w.edge.rows, answer.resp.acked, ToSynced(now));
        }
      }
    case _ =>
  }
}
