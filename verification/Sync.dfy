/** What one completed sync achieves between an edge node and the server. */
module Sync {
  import opened Models
  import opened VectorClocks
  import opened Store
  import opened Conflict
  import opened Convergence
  import opened Replicas
  import opened Protocol
  import opened Scheduling
  import opened Server
  import opened Engine
  import opened Resend
  import opened Reordering
  import opened Resending
  import Outbox

  // ----- Push and pull meet

  /** The record is what applying the operation left. */
  predicate Reflects(r: Option<Record>, op: Operation) {
    && r.Some?
    && VersionOf(r.value) == VersionOfOp(op)
    && r.value.deleted == op.kind.Delete?
    && (Replaces(op) ==> r.value.data == op.payload)
  }

  /** Equal clocks mean the same write. */
  predicate ClockIdentifiesWrite(held: Option<Record>, edge: Option<Record>) {
    IsLive(held) && IsLive(edge) && Order(held.value.vectorClock, edge.value.vectorClock).Equal? ==> ViewOf(held) == ViewOf(edge)
  }

  /** A record that turned the push away wins on the edge too when it is pulled. */
  lemma RefusedIsPulled(tolerance: real, edge: Option<Record>, held: Option<Record>, op: Operation, k: Key)
    requires Reflects(edge, op) && !Accepts(tolerance, held, op) && ClockIdentifiesWrite(held, edge)
    requires held.Some? && held.value.lastModifiedBy != op.nodeId
    ensures ViewOf(DeliverToRecord(tolerance, edge, DeltaOp(k, held.value))) == ViewOf(held)
  {
    var d := DeltaOp(k, held.value);
    assert VersionOfOp(d) == VersionOf(held.value);
    if IsLive(held) && IsLive(edge) {
      OneSideYields(tolerance, VersionOf(held.value), VersionOfOp(op));
    }
  }

  /** A delivered sync on both sides: the server receives the whole batch, the edge the
      whole delta taken after that. */
  lemma ReplicasAfterSync(c: Config, sc: ServerConfig, node: NodeId, e: EdgeState, s: ServerState, bandwidth: int, now: real)
    requires !Refused(sc, s, PushRequest(node, e, Pushed(c, e, bandwidth)))
    ensures var link := Up(bandwidth, Delivered);
            var s' := SyncServer(c, sc, node, e, s, link);
            && s' == ServerState(Receive(sc.tolerance, s.rep, Pushed(c, e, bandwidth)), s.registered + {node})
            && SyncEdge(c, sc, node, e, s, link, now) ==
               EdgeState(Receive(c.tolerance, e.rep, Delta(s'.rep.table, e.rep.clock, node)),
                         Outbox.SyncedRows(e.rows, Outbox.IdsOf(Pushed(c, e, bandwidth)), now))
  {
    var req := PushRequest(node, e, Pushed(c, e, bandwidth));
    PushIsRun(sc, node, e, s, Pushed(c, e, bandwidth));
    WrapIsReadable(DeltaFor(sc, s, req));
  }

  /** What a readable push does to the server, and what it is answered with. */
  lemma PushIsRun(sc: ServerConfig, node: NodeId, e: EdgeState, s: ServerState, batch: seq<Operation>)
    requires !Refused(sc, s, PushRequest(node, e, batch))
    ensures var req := PushRequest(node, e, batch);
            && Handled(sc, s, req) == ServerState(Receive(sc.tolerance, s.rep, batch), s.registered + {node})
            && DeltaFor(sc, s, req) == Delta(Receive(sc.tolerance, s.rep, batch).table, e.rep.clock, node)
            && Reply(sc, s, req) == Response(true, Outbox.IdsOf(batch), PayloadOf(DeltaFor(sc, s, req)), "")
  {
    WrapIsReadable(batch);
    MakeAgain(e.rep.clock);
    assert Ran(sc, s, PushRequest(node, e, batch)) == batch;
  }

  /** The records of one key on both sides after a delivered sync. */
  lemma RecordsAfterSync(c: Config, sc: ServerConfig, node: NodeId, e: EdgeState, s: ServerState, bandwidth: int, now: real, k: Key)
    requires !Refused(sc, s, PushRequest(node, e, Pushed(c, e, bandwidth)))
    ensures var link := Up(bandwidth, Delivered);
            var s' := SyncServer(c, sc, node, e, s, link);
            var e' := SyncEdge(c, sc, node, e, s, link, now);
            && Lookup(s'.rep.table, k) == DeliverAllToRecord(sc.tolerance, Lookup(s.rep.table, k), OnKey(Pushed(c, e, bandwidth), k))
            && Lookup(e'.rep.table, k) == (
                 if InDelta(s'.rep.table, e.rep.clock, node, k)
                 then DeliverToRecord(c.tolerance, Lookup(e.rep.table, k), DeltaOp(k, s'.rep.table[k]))
                 else Lookup(e.rep.table, k))
  {
    ReplicasAfterSync(c, sc, node, e, s, bandwidth, now);
    ReceiveRecord(sc.tolerance, s.rep, Pushed(c, e, bandwidth), k);
    PulledRecord(c.tolerance, e.rep, SyncServer(c, sc, node, e, s, Up(bandwidth, Delivered)).rep.table, node, k);
  }

  lemma PulledRecord(tolerance: real, edge: Replica, t: Table, node: NodeId, k: Key)
    ensures Lookup(Receive(tolerance, edge, Delta(t, edge.clock, node)).table, k) == (
              if InDelta(t, edge.clock, node, k) then DeliverToRecord(tolerance, Lookup(edge.table, k), DeltaOp(k, t[k]))
              else Lookup(edge.table, k))
  {
    ReceiveRecord(tolerance, edge, Delta(t, edge.clock, node), k);
    DeltaOnKey(t, edge.clock, node, k);
    if InDelta(t, edge.clock, node, k) {
      DeliverOne(tolerance, Lookup(edge.table, k), DeltaOp(k, t[k]));
    }
  }

  /** The first operation of `ops` that the record takes is the one at `i`. */
  ghost predicate StartsAt(tolerance: real, held: Option<Record>, ops: seq<Operation>, i: int) {
    FirstTakes(tolerance, held, ops, i) && AllTurnedAway(tolerance, held, ops[..i])
  }

  /** The data that the record then has is the edge's. Only a merge can leave other data. */
  predicate SameDataFrom(edge: Option<Record>, held: Option<Record>, ops: seq<Operation>, i: int)
    requires 0 <= i < |ops|
  {
    ops[|ops| - 1].kind.Merge? ==> Overlay(BaseData(held), Taken(ops[i..])) == BaseData(edge)
  }

  lemma ChainIsOrdered(ops: seq<Operation>)
    requires IsChain(ops)
    ensures CausallyOrdered(ops)
  {
  }

  lemma StartExists(tolerance: real, held: Option<Record>, ops: seq<Operation>) returns (i: int)
    requires ops != [] && !(IsLive(held) && AllTurnedAway(tolerance, held, ops))
    ensures StartsAt(tolerance, held, ops, i)
  {
    if IsLive(held) {
      i := FirstTaken(tolerance, held, ops);
    } else {
      i := 0;
    }
  }

  /** A pushed chain of which the record takes something ends as the edge has it, but for the
      data of a merge, and by the edge's hand. */
  lemma ChainArrives(tolerance: real, edge: Option<Record>, held: Option<Record>, ops: seq<Operation>, i: int)
    requires IsChain(ops) && ops != [] && Reflects(edge, ops[|ops| - 1]) && StartsAt(tolerance, held, ops, i)
    ensures var r := DeliverAllToRecord(tolerance, held, ops);
            && (ViewOf(r) == ViewOf(edge) <==> SameDataFrom(edge, held, ops, i))
            && Authored(r, ops[|ops| - 1].nodeId)
  {
    var mid := DeliverAllToRecord(tolerance, held, ops[..|ops| - 1]);
    var r := DeliverAllToRecord(tolerance, held, ops);
    ChainIsOrdered(ops);
    FirstRun(tolerance, held, ops, i);
    LastDecides(tolerance, held, ops, i);
    if Accepts(tolerance, mid, ops[|ops| - 1]) {
      LastLeaves(tolerance, mid, ops[|ops| - 1]);
      SameButData(edge, r, ops[|ops| - 1]);
    } else {
      assert r == mid;
    }
  }

  /** Two records that reflect one operation show the same, unless a merge left other data. */
  lemma SameButData(a: Option<Record>, b: Option<Record>, op: Operation)
    requires Reflects(a, op) && Reflects(b, op)
    ensures ViewOf(b) == ViewOf(a) <==> (op.kind.Merge? ==> BaseData(b) == BaseData(a))
  {
  }

  lemma LastLeaves(tolerance: real, mid: Option<Record>, last: Operation)
    requires Accepts(tolerance, mid, last)
    ensures Reflects(DeliverToRecord(tolerance, mid, last), last)
  {
  }

  /** The record is missing or deleted, or was written by the node. */
  predicate Authored(r: Option<Record>, node: NodeId) {
    IsLive(r) ==> r.value.lastModifiedBy == node
  }

  lemma SettledDecides(tolerance: real, mid: Option<Record>, previous: Operation, last: Operation)
    requires SettledBy(mid, previous) && Order(previous.vectorClock, last.vectorClock).Before?
    ensures Accepts(tolerance, mid, last) || (last.kind.Delete? && !IsLive(mid))
  {
  }

  lemma StartBeforeLast(tolerance: real, held: Option<Record>, ops: seq<Operation>, i: int)
    requires StartsAt(tolerance, held, ops, i) && AllTurnedAway(tolerance, held, ops[..|ops| - 1])
    ensures Accepts(tolerance, held, ops[|ops| - 1]) || (ops[|ops| - 1].kind.Delete? && !IsLive(held))
  {
    var front := ops[..|ops| - 1];
    assert forall m | 0 <= m < |front| :: front[m] == ops[m] && front[m] in front;
    assert forall m | 0 <= m < |front| :: !Accepts(tolerance, held, ops[m]);
  }

  /** When the record takes anything of the chain, it takes the last operation, unless that
      is a delete of a record no longer live. */
  lemma LastDecides(tolerance: real, held: Option<Record>, ops: seq<Operation>, i: int)
    requires IsChain(ops) && ops != [] && StartsAt(tolerance, held, ops, i)
    ensures var last := ops[|ops| - 1];
            var mid := DeliverAllToRecord(tolerance, held, ops[..|ops| - 1]);
            Accepts(tolerance, mid, last) || (last.kind.Delete? && !IsLive(mid))
  {
    var front, last := ops[..|ops| - 1], ops[|ops| - 1];
    var mid := DeliverAllToRecord(tolerance, held, front);
    ChainPrefix(ops);
    ChainFromLive(tolerance, held, front);
    if mid == held && AllTurnedAway(tolerance, held, front) {
      StartBeforeLast(tolerance, held, ops, i);
    } else {
      SettledDecides(tolerance, mid, front[|front| - 1], last);
    }
  }

  /** When nothing was taken, both sides already agree exactly if the edge has deleted what
      the server does not show, or both show the write of one clock. */
  predicate AgreesAnyway(held: Option<Record>, op: Operation) {
    if op.kind.Delete? then !IsLive(held)
    else IsLive(held) && Order(held.value.vectorClock, op.vectorClock).Equal?
  }

  /** The server took writes of the chain and has the edge's record from them. */
  ghost predicate TookAsOnEdge(tolerance: real, edge: Option<Record>, held: Option<Record>, ops: seq<Operation>) {
    exists i :: StartsAt(tolerance, held, ops, i) && SameDataFrom(edge, held, ops, i)
  }

  lemma NoneTakenBefore(tolerance: real, held: Option<Record>, ops: seq<Operation>, i: int)
    requires StartsAt(tolerance, held, ops, i)
    ensures forall m | 0 <= m < i :: !Accepts(tolerance, held, ops[m])
  {
    forall m | 0 <= m < i
      ensures !Accepts(tolerance, held, ops[m])
    {
      assert ops[..i][m] == ops[m] && ops[m] in ops[..i];
    }
  }

  lemma StartIsOne(tolerance: real, held: Option<Record>, ops: seq<Operation>, i: int, j: int)
    requires StartsAt(tolerance, held, ops, i) && StartsAt(tolerance, held, ops, j)
    ensures i == j
  {
    NoneTakenBefore(tolerance, held, ops, i);
    NoneTakenBefore(tolerance, held, ops, j);
  }

  /** After a completed sync that pushed the edge's writes of a record, of whatever kinds and
      in the order in which they were made, edge and server show the same record exactly
      when the server took writes and has the edge's record from them, or sent its own
      record back, or agreed anyway. */
  lemma PushPullAgreement(c: Config, sc: ServerConfig, node: NodeId, e: EdgeState, s: ServerState, bandwidth: int, now: real,
                          k: Key, ops: seq<Operation>)
    requires c.tolerance == sc.tolerance
    requires !Refused(sc, s, PushRequest(node, e, Pushed(c, e, bandwidth)))
    requires OnKey(Pushed(c, e, bandwidth), k) == ops && IsChain(ops) && ops != []
    requires ops[|ops| - 1].nodeId == node && Reflects(Lookup(e.rep.table, k), ops[|ops| - 1])
    requires ClockIdentifiesWrite(Lookup(s.rep.table, k), Lookup(e.rep.table, k))
    ensures var link := Up(bandwidth, Delivered);
            var edge, held := Lookup(e.rep.table, k), Lookup(s.rep.table, k);
            var s' := SyncServer(c, sc, node, e, s, link);
            var e' := SyncEdge(c, sc, node, e, s, link, now);
            ViewOf(Lookup(e'.rep.table, k)) == ViewOf(Lookup(s'.rep.table, k)) <==>
              || TookAsOnEdge(sc.tolerance, edge, held, ops)
              || InDelta(s'.rep.table, e.rep.clock, node, k)
              || AgreesAnyway(held, ops[|ops| - 1])
  {
    var s' := SyncServer(c, sc, node, e, s, Up(bandwidth, Delivered));
    var edge, held := Lookup(e.rep.table, k), Lookup(s.rep.table, k);
    RecordsAfterSync(c, sc, node, e, s, bandwidth, now, k);
    if IsLive(held) && AllTurnedAway(sc.tolerance, held, ops) {
      RefusedChain(c.tolerance, edge, held, ops, k);
    } else {
      var i := StartExists(sc.tolerance, held, ops);
      TakenChain(c.tolerance, edge, held, ops, i, k);
    }
  }

  /** The outcome on both sides when the whole chain was turned away. */
  lemma RefusedChain(tolerance: real, edge: Option<Record>, held: Option<Record>, ops: seq<Operation>, k: Key)
    requires ops != [] && Reflects(edge, ops[|ops| - 1]) && ClockIdentifiesWrite(held, edge)
    requires IsLive(held) && AllTurnedAway(tolerance, held, ops)
    ensures DeliverAllToRecord(tolerance, held, ops) == held
    ensures ViewOf(edge) == ViewOf(held) <==> AgreesAnyway(held, ops[|ops| - 1])
    ensures held.value.lastModifiedBy != ops[|ops| - 1].nodeId ==>
              ViewOf(DeliverToRecord(tolerance, edge, DeltaOp(k, held.value))) == ViewOf(held)
    ensures !TookAsOnEdge(tolerance, edge, held, ops)
  {
    var last := ops[|ops| - 1];
    assert last in ops;
    NothingAccepted(tolerance, held, ops);
    AgreedBefore(tolerance, edge, held, last);
    if held.value.lastModifiedBy != last.nodeId {
      RefusedIsPulled(tolerance, edge, held, last, k);
    }
    assert forall i | 0 <= i < |ops| :: ops[i] in ops;
  }

  /** The outcome when something was taken. What the server then has is not sent back, or
      changes nothing. */
  lemma TakenChain(tolerance: real, edge: Option<Record>, held: Option<Record>, ops: seq<Operation>, i: int, k: Key)
    requires IsChain(ops) && ops != [] && Reflects(edge, ops[|ops| - 1]) && StartsAt(tolerance, held, ops, i)
    ensures var r := DeliverAllToRecord(tolerance, held, ops);
            && (ViewOf(r) == ViewOf(edge) <==> TookAsOnEdge(tolerance, edge, held, ops))
            && (IsLive(r) <==> IsLive(edge)) && Authored(r, ops[|ops| - 1].nodeId)
            && (r.Some? && !IsLive(r) ==> DeliverToRecord(tolerance, edge, DeltaOp(k, r.value)) == edge)
    ensures AgreesAnyway(held, ops[|ops| - 1]) ==> TookAsOnEdge(tolerance, edge, held, ops)
  {
    var r := DeliverAllToRecord(tolerance, held, ops);
    var last := ops[|ops| - 1];
    ChainArrives(tolerance, edge, held, ops, i);
    forall j | StartsAt(tolerance, held, ops, j)
      ensures j == i
    {
      StartIsOne(tolerance, held, ops, i, j);
    }
    LastDecides(tolerance, held, ops, i);
    if AgreesAnyway(held, last) && !last.kind.Delete? {
      EqualIsStale(tolerance, held, ops, i);
    }
  }

  /** A live record with the clock of the chain's last operation takes nothing of it. */
  lemma EqualIsStale(tolerance: real, held: Option<Record>, ops: seq<Operation>, i: int)
    requires IsChain(ops) && ops != [] && IsLive(held) && StartsAt(tolerance, held, ops, i)
    ensures !Order(held.value.vectorClock, ops[|ops| - 1].vectorClock).Equal?
  {
    var c, last := held.value.vectorClock, ops[|ops| - 1];
    if i < |ops| - 1 {
      OrderDecides(ops[i].vectorClock, last.vectorClock);
    }
    OrderDecides(c, last.vectorClock);
    OrderDecides(c, ops[i].vectorClock);
    if Leq(last.vectorClock, c) && i < |ops| - 1 {
      LeqTransitive(ops[i].vectorClock, last.vectorClock, c);
    }
  }

  lemma AgreedBefore(tolerance: real, edge: Option<Record>, held: Option<Record>, op: Operation)
    requires Reflects(edge, op) && !Accepts(tolerance, held, op) && ClockIdentifiesWrite(held, edge)
    ensures ViewOf(edge) == ViewOf(held) <==> AgreesAnyway(held, op)
  {
    OrderDecides(op.vectorClock, op.vectorClock);
  }

  // ----- A third node

  /** A sync in which a node has nothing to push on a record: both sides then show the same
      exactly when they did before, or the record is in the delta and the node takes it. */
  lemma PullAgreement(c: Config, sc: ServerConfig, node: NodeId, e: EdgeState, s: ServerState, bandwidth: int, now: real, k: Key)
    requires !Refused(sc, s, PushRequest(node, e, Pushed(c, e, bandwidth)))
    requires OnKey(Pushed(c, e, bandwidth), k) == []
    ensures var link := Up(bandwidth, Delivered);
            var s' := SyncServer(c, sc, node, e, s, link);
            var e' := SyncEdge(c, sc, node, e, s, link, now);
            && Lookup(s'.rep.table, k) == Lookup(s.rep.table, k)
            && (ViewOf(Lookup(e'.rep.table, k)) == ViewOf(Lookup(s'.rep.table, k)) <==>
                  || ViewOf(Lookup(e.rep.table, k)) == ViewOf(Lookup(s.rep.table, k))
                  || (InDelta(s'.rep.table, e.rep.clock, node, k)
                      && Accepts(c.tolerance, Lookup(e.rep.table, k), DeltaOp(k, s'.rep.table[k]))))
  {
    RecordsAfterSync(c, sc, node, e, s, bandwidth, now, k);
    var s' := SyncServer(c, sc, node, e, s, Up(bandwidth, Delivered));
    assert Lookup(s'.rep.table, k) == Lookup(s.rep.table, k);
    if k in s'.rep.table {
      DeltaTaken(c.tolerance, Lookup(e.rep.table, k), s'.rep.table[k], k);
    }
  }

  /** A record taken from a delta is shown as on the server; one that is refused is kept out
      for good reason only if both show the same. */
  lemma DeltaTaken(tolerance: real, edge: Option<Record>, rec: Record, k: Key)
    ensures var d := DeltaOp(k, rec);
            var x := DeliverToRecord(tolerance, edge, d);
            && (Accepts(tolerance, edge, d) ==> ViewOf(x) == ViewOf(Some(rec)))
            && (!Accepts(tolerance, edge, d) ==> x == edge)
            && (ViewOf(edge) == ViewOf(Some(rec)) ==> ViewOf(x) == ViewOf(edge))
  {
    OrderDecides(rec.vectorClock, rec.vectorClock);
  }

  /** The record that took an operation is taken by every record that shows what it showed. */
  lemma TakenThereToo(tolerance: real, edge: Option<Record>, held: Option<Record>, op: Operation, k: Key)
    requires Accepts(tolerance, held, op) && ViewOf(edge) == ViewOf(held)
    ensures var r := DeliverToRecord(tolerance, held, op).value;
            Accepts(tolerance, edge, DeltaOp(k, r)) && ViewOf(Some(r)) != ViewOf(edge)
  {
    if IsLive(held) {
      NeverBeatsItself(tolerance, VersionOfOp(op));
    }
  }

  /** Three nodes. `a` and the server show the same record; `b` has made one write of it and
      syncs; then `a` syncs again with nothing of its own to push on it. All three show the
      same record in the end exactly when
      - the server took the write and it lies in the delta for `a`, or
      - the server refused it, and its own record lay in the delta for `b`, or `b` had that
        anyway. */
  lemma ThreeNodesAgree(c: Config, sc: ServerConfig, a: NodeId, b: NodeId, ea: EdgeState, eb: EdgeState, s: ServerState,
                        bandwidthA: int, bandwidthB: int, now: real, k: Key, op: Operation)
    requires c.tolerance == sc.tolerance && a != b
    requires !(sc.registrationRequired && (a !in s.registered || b !in s.registered))
    requires ViewOf(Lookup(ea.rep.table, k)) == ViewOf(Lookup(s.rep.table, k)) && OnKey(Pushed(c, ea, bandwidthA), k) == []
    requires OnKey(Pushed(c, eb, bandwidthB), k) == [op] && op.nodeId == b && !op.kind.Merge?
    requires Reflects(Lookup(eb.rep.table, k), op) && ClockIdentifiesWrite(Lookup(s.rep.table, k), Lookup(eb.rep.table, k))
    ensures var held := Lookup(s.rep.table, k);
            var eb', s2 := SyncEdge(c, sc, b, eb, s, Up(bandwidthB, Delivered), now), SyncServer(c, sc, b, eb, s, Up(bandwidthB, Delivered));
            var ea', s3 := SyncEdge(c, sc, a, ea, s2, Up(bandwidthA, Delivered), now), SyncServer(c, sc, a, ea, s2, Up(bandwidthA, Delivered));
            ViewOf(Lookup(ea'.rep.table, k)) == ViewOf(Lookup(s3.rep.table, k)) == ViewOf(Lookup(eb'.rep.table, k)) <==>
              if Accepts(sc.tolerance, held, op) then InDelta(s3.rep.table, ea.rep.clock, a, k)
              else InDelta(s2.rep.table, eb.rep.clock, b, k) || AgreesAnyway(held, op)
  {
    var held, edge := Lookup(s.rep.table, k), Lookup(eb.rep.table, k);
    var s2 := SyncServer(c, sc, b, eb, s, Up(bandwidthB, Delivered));
    PushPullAgreement(c, sc, b, eb, s, bandwidthB, now, k, [op]);
    RecordsAfterSync(c, sc, b, eb, s, bandwidthB, now, k);
    ReplicasAfterSync(c, sc, b, eb, s, bandwidthB, now);
    PullAgreement(c, sc, a, ea, s2, bandwidthA, now, k);
    DeliverOne(sc.tolerance, held, op);
    OneTaken(sc.tolerance, edge, held, op);
    if Accepts(sc.tolerance, held, op) {
      TakenThereToo(sc.tolerance, Lookup(ea.rep.table, k), held, op, k);
    }
  }

  lemma OneTaken(tolerance: real, edge: Option<Record>, held: Option<Record>, op: Operation)
    requires !op.kind.Merge?
    ensures TookAsOnEdge(tolerance, edge, held, [op]) <==> Accepts(tolerance, held, op) || !IsLive(held)
    ensures !Accepts(tolerance, held, op) && !IsLive(held) ==> AgreesAnyway(held, op)
  {
    assert [op][..0] == [];
    if Accepts(tolerance, held, op) || !IsLive(held) {
      assert StartsAt(tolerance, held, [op], 0);
    }
  }

  /** A live server record that an edge has never seen arrives with a sync exactly when it
      lies in the window, was written by another node, and its clock is not covered by the
      edge's one clock for all records; the last part is what withholds records. */
  lemma UnseenRecordArrives(c: Config, sc: ServerConfig, node: NodeId, e: EdgeState, s: ServerState, bandwidth: int, now: real, k: Key)
    requires !Refused(sc, s, PushRequest(node, e, Pushed(c, e, bandwidth)))
    requires k !in e.rep.table && IsLive(Lookup(s.rep.table, k)) && OnKey(Pushed(c, e, bandwidth), k) == []
    ensures var link := Up(bandwidth, Delivered);
            var s' := SyncServer(c, sc, node, e, s, link);
            var e' := SyncEdge(c, sc, node, e, s, link, now);
            && Lookup(s'.rep.table, k) == Lookup(s.rep.table, k)
            && (ViewOf(Lookup(e'.rep.table, k)) == ViewOf(Lookup(s'.rep.table, k)) <==>
                  && InWindow(s'.rep.table, k)
                  && s.rep.table[k].lastModifiedBy != node
                  && !Leq(s.rep.table[k].vectorClock, e.rep.clock))
  {
    RecordsAfterSync(c, sc, node, e, s, bandwidth, now, k);
    assert Lookup(SyncServer(c, sc, node, e, s, Up(bandwidth, Delivered)).rep.table, k) == Lookup(s.rep.table, k);
    WantedMeansUncovered(s.rep.table[k], e.rep.clock, node);
    FirstDelivery(c.tolerance, k, s.rep.table[k]);
  }

  /** A live record that travels in a delta to a node without it arrives as it was, its
      version number included unless that was below one. */
  lemma FirstDelivery(tolerance: real, k: Key, rec: Record)
    requires !rec.deleted
    ensures DeliverToRecord(tolerance, None, DeltaOp(k, rec))
         == Some(rec.(version := Max(1, rec.version), deletedAt := None))
  {
  }

  // ----- Servers that see the same operations

  function HandleAll(sc: ServerConfig, s: ServerState, reqs: seq<Request>): ServerState {
    if reqs == [] then s
    else Handled(sc, HandleAll(sc, s, reqs[..|reqs| - 1]), reqs[|reqs| - 1])
  }

  /** All operations a server ran while handling the requests, failed requests included. */
  function RanAll(sc: ServerConfig, s: ServerState, reqs: seq<Request>): seq<Operation> {
    if reqs == [] then []
    else
      var front := reqs[..|reqs| - 1];
      RanAll(sc, s, front) + Ran(sc, HandleAll(sc, s, front), reqs[|reqs| - 1])
  }

  lemma {:induction false} RequestsAreOneRun(sc: ServerConfig, s: ServerState, reqs: seq<Request>)
    ensures HandleAll(sc, s, reqs).rep == Receive(sc.tolerance, s.rep, RanAll(sc, s, reqs))
  {
    if reqs != [] {
      var front := reqs[..|reqs| - 1];
      RequestsAreOneRun(sc, s, front);
      ReceiveConcat(sc.tolerance, s.rep, RanAll(sc, s, front), Ran(sc, HandleAll(sc, s, front), reqs[|reqs| - 1]));
    }
  }

  /** Two servers without a live record `k` handle different streams of requests: other
      batches, other orders, repetitions, other keys, failures. If both ran the same
      operations on `k`, of whatever kinds, and these are canonical, both show the same. */
  lemma ServersConverge(a: ServerConfig, b: ServerConfig, s: ServerState, t: ServerState,
                        xs: seq<Request>, ys: seq<Request>, k: Key)
    requires a.tolerance == b.tolerance
    requires !IsLive(Lookup(s.rep.table, k)) && !IsLive(Lookup(t.rep.table, k))
    requires var ops := OpsOn(RanAll(a, s, xs), k);
             && ops == OpsOn(RanAll(b, t, ys), k)
             && Canonical(a.tolerance, Lookup(s.rep.table, k), ops)
             && (NoMerges(ops) || BaseData(Lookup(s.rep.table, k)) == BaseData(Lookup(t.rep.table, k)))
    ensures ViewOf(Lookup(HandleAll(a, s, xs).rep.table, k)) == ViewOf(Lookup(HandleAll(b, t, ys).rep.table, k))
  {
    RequestsAreOneRun(a, s, xs);
    RequestsAreOneRun(b, t, ys);
    ReplicasConverge(a.tolerance, s.rep, t.rep, RanAll(a, s, xs), RanAll(b, t, ys), k);
  }

  // ----- A second pull brings nothing

  /** Once a whole delta has been processed, the same server has nothing more for the edge,
      the cut at 500 records included. */
  lemma DeltaIsExhausted(tolerance: real, edge: Replica, t: Table, node: NodeId)
    ensures var edge' := Receive(tolerance, edge, Delta(t, edge.clock, node));
            Delta(t, edge'.clock, node) == []
  {
    var delta := Delta(t, edge.clock, node);
    var edge' := Receive(tolerance, edge, delta);
    ReceiveClock(tolerance, edge, delta);
    var again := Delta(t, edge'.clock, node);
    assert again == [] || again[0] in again;
    forall op
      ensures op !in Delta(t, edge'.clock, node)
    {
      var k := op.key;
      DeltaExact(t, edge'.clock, node, op);
      if op in Delta(t, edge'.clock, node) {
        WantedMeansUncovered(t[k], edge'.clock, node);
        WantedMeansUncovered(t[k], edge.clock, node);
        DeltaExact(t, edge.clock, node, DeltaOp(k, t[k]));
        if Leq(t[k].vectorClock, edge.clock) {
          LeqTransitive(t[k].vectorClock, edge.clock, edge'.clock);
        }
      }
    }
  }

  /** After a delivered sync, a second one over any bandwidth that has nothing to push gets
      an empty delta and leaves both replicas as they were. */
  lemma SecondSyncIsQuiet(c: Config, sc: ServerConfig, node: NodeId, e: EdgeState, s: ServerState,
                          bandwidth: int, now: real, bandwidth2: int, now2: real)
    requires !Refused(sc, s, PushRequest(node, e, Pushed(c, e, bandwidth)))
    requires Pushed(c, SyncEdge(c, sc, node, e, s, Up(bandwidth, Delivered), now), bandwidth2) == []
    ensures var first := Up(bandwidth, Delivered);
            var e1 := SyncEdge(c, sc, node, e, s, first, now);
            var s1 := SyncServer(c, sc, node, e, s, first);
            var second := Up(bandwidth2, Delivered);
            && DeltaFor(sc, s1, PushRequest(node, e1, [])) == []
            && SyncServer(c, sc, node, e1, s1, second) == s1
            && SyncEdge(c, sc, node, e1, s1, second, now2) == e1
  {
    var first := Up(bandwidth, Delivered);
    var e1 := SyncEdge(c, sc, node, e, s, first, now);
    var s1 := SyncServer(c, sc, node, e, s, first);
    ReplicasAfterSync(c, sc, node, e, s, bandwidth, now);
    DeltaIsExhausted(c.tolerance, e.rep, s1.rep.table, node);
    QuietSync(c, sc, node, e1, s1, bandwidth2, now2);
  }

  lemma QuietSync(c: Config, sc: ServerConfig, node: NodeId, e: EdgeState, s: ServerState, bandwidth: int, now: real)
    requires node in s.registered && Pushed(c, e, bandwidth) == []
    requires Delta(s.rep.table, e.rep.clock, node) == []
    ensures var link := Up(bandwidth, Delivered);
            && DeltaFor(sc, s, PushRequest(node, e, [])) == []
            && SyncServer(c, sc, node, e, s, link) == s
            && SyncEdge(c, sc, node, e, s, link, now) == e
  {
    ReplicasAfterSync(c, sc, node, e, s, bandwidth, now);
    assert Outbox.SyncedRows(e.rows, [], now) == e.rows;
    EmptyPushDelta(sc, node, e, s);
  }

  lemma EmptyPushDelta(sc: ServerConfig, node: NodeId, e: EdgeState, s: ServerState)
    requires node in s.registered
    ensures Handled(sc, s, PushRequest(node, e, [])) == s
    ensures DeltaFor(sc, s, PushRequest(node, e, [])) == Delta(s.rep.table, e.rep.clock, node)
  {
    WrapIsReadable([]);
    MakeAgain(e.rep.clock);
    assert Ran(sc, s, PushRequest(node, e, [])) == [];
    assert s.registered + {node} == s.registered;
  }
}
