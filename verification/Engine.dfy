/** The edge node: local writes that never wait for the network, and one push-pull sync. */
module Engine {
  import opened Models
  import opened VectorClocks
  import opened Store
  import opened Conflict
  import opened Replicas
  import opened Protocol
  import opened Outbox
  import opened Scheduling
  import opened Server

  datatype EdgeState = EdgeState(rep: Replica, rows: seq<Row>)

  function NewRow(op: Operation): Row {
    Row(op, Pending, None, 0, None)
  }

  /** A write reaches the store first and the outbox second, in two transactions. */
  function WriteEdge(node: NodeId, e: EdgeState, w: Write): EdgeState {
    EdgeState(WriteOne(node, e.rep, w), e.rows + [NewRow(NewOp(node, e.rep, w))])
  }

  lemma WriteInParts(node: NodeId, e: EdgeState, w: Write, op: Operation)
    requires op == NewOp(node, e.rep, w)
    ensures WriteEdge(node, e, w) ==
            EdgeState(Replica(e.rep.lamport + 1, VectorClocks.Merge(e.rep.clock, op.vectorClock), ApplyOp(e.rep.table, op)),
                      e.rows + [NewRow(op)])
  {
  }

  /** A new process on the same database. */
  function RestartEdge(e: EdgeState): EdgeState {
    EdgeState(Replica(0, map[], e.rep.table), ResetFailed(e.rows))
  }

  // ----- One sync

  /** What comes back over the link. */
  datatype Answer = NoAnswer | Garbled | Answered(resp: Response)

  /** What the link does to one exchange. A stale answer is some other response; the request
      may or may not have reached the server. */
  datatype Fate =
    | Delivered
    | RequestLost
    | RequestDamaged(readable: bool)
    | ReplyLost
    | ReplyGarbled
    | StaleReply(resp: Response, handled: bool)

  datatype Link = Down | Up(bandwidth: int, fate: Fate)

  datatype SyncStatus = Completed | FailedSync

  const NO_ANSWER := "No response received from remote peer"

  function PushRequest(node: NodeId, e: EdgeState, batch: seq<Operation>): Request {
    Request(node, e.rep.clock, Items(Wrap(batch)), true)
  }

  /** Damage to the payload either makes it unreadable or shows in its hash. */
  function Damaged(req: Request, readable: bool): Request {
    if readable then req.(intact := false) else req.(payload := Unreadable)
  }

  function ServerAfter(c: ServerConfig, s: ServerState, req: Request, fate: Fate): ServerState {
    match fate
    case RequestLost => s
    case RequestDamaged(readable) => Handled(c, s, Damaged(req, readable))
    case StaleReply(_, handled) => if handled then Handled(c, s, req) else s
    case _ => Handled(c, s, req)
  }

  function AnswerTo(c: ServerConfig, s: ServerState, req: Request, fate: Fate): Answer {
    match fate
    case Delivered => Answered(Reply(c, s, req))
    case RequestLost => NoAnswer
    case RequestDamaged(readable) => Answered(Reply(c, s, Damaged(req, readable)))
    case ReplyLost => NoAnswer
    case ReplyGarbled => Garbled
    case StaleReply(resp, _) => Answered(resp)
  }

  /** The operations of a response that the pull loop works through. */
  function Pulled(resp: Response): seq<Operation> {
    GoodPrefix(ItemsOf(resp.payload))
  }

  /** What an error reply writes into the failed rows. */
  function ErrorOf(resp: Response): string {
    if resp.error == "" then "Remote server returned error" else resp.error
  }

  /** A garbled answer raises before anything is marked: the batch stays pending. */
  function Finish(tolerance: real, e: EdgeState, batch: seq<Operation>, answer: Answer, now: real): EdgeState {
    match answer
    case NoAnswer => EdgeState(e.rep, FailedRows(e.rows, IdsOf(batch), NO_ANSWER))
    case Garbled => e
    case Answered(resp) =>
      if !resp.ok then EdgeState(e.rep, FailedRows(e.rows, IdsOf(batch), ErrorOf(resp)))
      else EdgeState(Receive(tolerance, e.rep, Pulled(resp)), SyncedRows(e.rows, resp.acked, now))
  }

  function StatusOf(answer: Answer): SyncStatus {
    if answer.Answered? && answer.resp.ok && !Raises(answer.resp.payload) then Completed else FailedSync
  }

  /** The operations a sync over `link` pushes. */
  function Pushed(c: Config, e: EdgeState, bandwidth: int): seq<Operation> {
    OpsOf(Batch(c, e.rows, bandwidth))
  }

  function SyncServer(c: Config, sc: ServerConfig, node: NodeId, e: EdgeState, s: ServerState, link: Link): ServerState {
    if link.Down? then s
    else ServerAfter(sc, s, PushRequest(node, e, Pushed(c, e, link.bandwidth)), link.fate)
  }

  function SyncAnswer(c: Config, sc: ServerConfig, node: NodeId, e: EdgeState, s: ServerState, link: Link): Answer
    requires link.Up?
  {
    AnswerTo(sc, s, PushRequest(node, e, Pushed(c, e, link.bandwidth)), link.fate)
  }

  function SyncEdge(c: Config, sc: ServerConfig, node: NodeId, e: EdgeState, s: ServerState, link: Link, now: real): EdgeState {
    if link.Down? then e
    else Finish(c.tolerance, e, Pushed(c, e, link.bandwidth), SyncAnswer(c, sc, node, e, s, link), now)
  }

  datatype Mode = Disconnected | Connected | Errored

  class DDILSyncEngine {
    const nodeId: NodeId
    const config: Config
    const store: LocalStore
    const outbox: OutboxQueue
    var lamport: int
    var clock: VectorClock
    var mode: Mode

    ghost function State(): EdgeState
      reads this, store, outbox
    {
      EdgeState(Replica(lamport, clock, store.records), outbox.rows)
    }

    /** Construction is also the restart after a crash. */
    constructor (nodeId: NodeId, config: Config, store: LocalStore, outbox: OutboxQueue)
      modifies outbox
      ensures this.nodeId == nodeId && this.config == config && this.store == store && this.outbox == outbox
      ensures State() == EdgeState(Replica(0, map[], old(store.records)), ResetFailed(old(outbox.rows)))
      ensures forall before: EdgeState | before.rep.table == old(store.records) && before.rows == old(outbox.rows) ::
                State() == RestartEdge(before)
    {
      this.nodeId, this.config, this.store, this.outbox := nodeId, config, store, outbox;
      lamport, clock, mode := 0, map[], Disconnected;
      new;
      var _ := outbox.ResetInFlight();
    }

    /** Draws the next Lamport value and the record's next clock. */
    method NextOperation(w: Write) returns (op: Operation)
      modifies this
      ensures op == NewOp(nodeId, old(State()).rep, w)
      ensures lamport == old(lamport) + 1 && clock == VectorClocks.Merge(old(clock), op.vectorClock)
      ensures forall n :: At(op.vectorClock, n) ==
                (if w.key in store.records then At(store.records[w.key].vectorClock, n) else 0) + (if n == nodeId then 1 else 0)
      ensures mode == old(mode)
    {
      forall n { WriteTicksOnce(nodeId, State().rep, w, n); }
      lamport := lamport + 1;
      var vc := store.GetVectorClock(w.key);
      var newVc := Increment(vc, nodeId);
      clock := VectorClocks.Merge(clock, newVc);
      op := Operation(w.opId, nodeId, w.kind, w.key, if w.kind.Delete? then map[] else w.payload, w.at, newVc, lamport, w.priority);
    }

    /** The common course of the four writes. The identifier is a fresh uuid. */
    method PerformWrite(w: Write) returns (rec: Record)
      requires !HasId(outbox.rows, w.opId)
      modifies this, store, outbox
      ensures State() == WriteEdge(nodeId, old(State()), w)
      ensures Lookup(store.records, w.key) == Some(rec)
      ensures mode == old(mode) && outbox.syncLocked == old(outbox.syncLocked)
    {
      ghost var before := State();
      var op := NextOperation(w);
      WriteInParts(nodeId, before, w, op);
      rec := store.ApplyOperation(op);
      var _ := outbox.Enqueue(op);
    }

    method CreateRecord(key: Key, data: Fields, priority: Priority, at: real, opId: string) returns (rec: Record)
      requires !HasId(outbox.rows, opId)
      modifies this, store, outbox
      ensures State() == WriteEdge(nodeId, old(State()), Write(Create, key, data, priority, at, opId))
      ensures Lookup(store.records, key) == Some(rec) && rec.data == data && !rec.deleted
    {
      rec := PerformWrite(Write(Create, key, data, priority, at, opId));
    }

    method UpdateRecord(key: Key, data: Fields, priority: Priority, at: real, opId: string) returns (rec: Record)
      requires !HasId(outbox.rows, opId)
      modifies this, store, outbox
      ensures State() == WriteEdge(nodeId, old(State()), Write(Update, key, data, priority, at, opId))
      ensures Lookup(store.records, key) == Some(rec) && rec.data == data && !rec.deleted
    {
      rec := PerformWrite(Write(Update, key, data, priority, at, opId));
    }

    method MergeRecord(key: Key, fields: Fields, priority: Priority, at: real, opId: string) returns (rec: Record)
      requires !HasId(outbox.rows, opId)
      modifies this, store, outbox
      ensures State() == WriteEdge(nodeId, old(State()), Write(Merge, key, fields, priority, at, opId))
      ensures Lookup(store.records, key) == Some(rec) && !rec.deleted
      ensures rec.data == BaseData(Lookup(old(store.records), key)) + fields
    {
      rec := PerformWrite(Write(Merge, key, fields, priority, at, opId));
    }

    method DeleteRecord(key: Key, priority: Priority, at: real, opId: string)
      requires !HasId(outbox.rows, opId)
      modifies this, store, outbox
      ensures State() == WriteEdge(nodeId, old(State()), Write(Delete, key, map[], priority, at, opId))
      ensures !IsLive(Lookup(store.records, key))
    {
      var _ := PerformWrite(Write(Delete, key, map[], priority, at, opId));
    }

    /** One pass of the pull loop. */
    method PullOperation(op: Operation)
      modifies this, store
      ensures State() == EdgeState(ReceiveOne(config.tolerance, old(State()).rep, op), old(outbox.rows))
      ensures lamport == 1 + if old(lamport) >= op.lamport then old(lamport) else op.lamport
      ensures forall n :: At(clock, n) == if At(old(clock), n) >= At(op.vectorClock, n) then At(old(clock), n) else At(op.vectorClock, n)
      ensures mode == old(mode)
    {
      forall n { MergeAt(clock, op.vectorClock, n); }
      lamport := Max(lamport, op.lamport) + 1;
      clock := VectorClocks.Merge(clock, op.vectorClock);
      var local := store.Get(op.key, true);
      var resolution := Resolve(config.tolerance, local, op);
      if !resolution.action.DiscardRemote? {
        var _ := store.ApplyOperation(op);
      }
    }

    /** The pull loop: to the end of the payload, or to the entry that raises. */
    method PullItems(items: seq<WireItem>) returns (complete: bool)
      modifies this, store
      ensures complete <==> GoodCount(items) == |items|
      ensures State() == EdgeState(Receive(config.tolerance, old(State()).rep, GoodPrefix(items)), old(outbox.rows))
      ensures mode == old(mode)
    {
      ghost var good := GoodPrefix(items);
      ghost var rep := State().rep;
      assert good[..0] == [];
      for i := 0 to |items|
        invariant i <= |good| && mode == old(mode)
        invariant State() == EdgeState(Receive(config.tolerance, rep, good[..i]), old(outbox.rows))
      {
        GoodPrefixStep(items, i);
        if items[i].Malformed? {
          return false;
        }
        ReceiveStep(config.tolerance, rep, good[..i], items[i].op);
        PullOperation(items[i].op);
      }
      assert good[..|items|] == good;
      complete := true;
    }

    /** What the engine does with the answer to a pushed batch. */
    method FinishSync(batch: seq<Operation>, answer: Answer, now: real) returns (status: SyncStatus)
      modifies this, store, outbox
      ensures State() == Finish(config.tolerance, old(State()), batch, answer, now)
      ensures status == StatusOf(answer)
      ensures status == Completed <==>
              && answer.Answered? && answer.resp.ok && answer.resp.payload != Unreadable
              && (answer.resp.payload.Items? ==> forall item | item in answer.resp.payload.items :: item.Good?)
      ensures mode == if answer.Garbled? || (answer.Answered? && answer.resp.ok && status.FailedSync?) then Errored else Connected
      ensures outbox.syncLocked == old(outbox.syncLocked)
    {
      if answer.Answered? {
        AllGood(ItemsOf(answer.resp.payload));
      }
      match answer
      case NoAnswer =>
        outbox.MarkFailed(IdsOf(batch), NO_ANSWER);
        mode := Connected;
        status := FailedSync;
      case Garbled =>
        mode := Errored;
        status := FailedSync;
      case Answered(resp) =>
        if !resp.ok {
          outbox.MarkFailed(IdsOf(batch), ErrorOf(resp));
          mode := Connected;
          return FailedSync;
        }
        outbox.MarkSynced(resp.acked, now);
        var complete := !resp.payload.Unreadable?;
        if resp.payload.Items? {
          complete := PullItems(resp.payload.items);
        }
        mode := if complete then Connected else Errored;
        status := if complete then Completed else FailedSync;
    }

    /** The lock's result is not looked at, and the lock is open afterwards whatever it was
        before; without a transport the lock is not touched. */
    method SyncNow(link: Link, server: DDILSyncServer, now: real) returns (status: SyncStatus)
      requires server.store != store
      modifies this, store, outbox, server, server.store
      ensures State() == SyncEdge(config, server.config, nodeId, old(State()), old(server.State()), link, now)
      ensures server.State() == SyncServer(config, server.config, nodeId, old(State()), old(server.State()), link)
      ensures link.Down? ==> status.FailedSync? && mode.Disconnected? && outbox.syncLocked == old(outbox.syncLocked)
      ensures link.Up? ==>
                var answer := SyncAnswer(config, server.config, nodeId, old(State()), old(server.State()), link);
                mode == if answer.Garbled? || (answer.Answered? && answer.resp.ok && status.FailedSync?) then Errored else Connected
      ensures link.Up? ==> !outbox.syncLocked
                           && status == StatusOf(SyncAnswer(config, server.config, nodeId, old(State()), old(server.State()), link))
    {
      if link.Down? {
        mode := Disconnected;
        return FailedSync;
      }
      var limit := BatchSize(config, link.bandwidth);
      var cutoff := PriorityCutoff(config, link.bandwidth);
      var _ := outbox.Lock();
      var batch := outbox.GetPending(limit, UpTo(cutoff));
      var req := Request(nodeId, clock, Items(Wrap(batch)), true);
      var answer := Exchange(link.fate, server, req);
      status := FinishSync(batch, answer, now);
      outbox.Unlock();
    }
  }

  /** The transport between an engine and a server. */
  method Exchange(fate: Fate, server: DDILSyncServer, req: Request) returns (answer: Answer)
    modifies server, server.store
    ensures answer == AnswerTo(server.config, old(server.State()), req, fate)
    ensures server.State() == ServerAfter(server.config, old(server.State()), req, fate)
  {
    match fate
    case RequestLost =>
      answer := NoAnswer;
    case RequestDamaged(readable) =>
      var resp, _ := server.HandleSyncRequest(Damaged(req, readable));
      answer := Answered(resp);
    case Delivered =>
      var resp, _ := server.HandleSyncRequest(req);
      answer := Answered(resp);
    case ReplyLost =>
      var _, _ := server.HandleSyncRequest(req);
      answer := NoAnswer;
    case ReplyGarbled =>
      var _, _ := server.HandleSyncRequest(req);
      answer := Garbled;
    case StaleReply(stale, handled) =>
      if handled {
        var _, _ := server.HandleSyncRequest(req);
      }
      answer := Answered(stale);
  }
}
