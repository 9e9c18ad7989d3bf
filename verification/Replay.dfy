/** One edge node, starting empty, whose writes reach an empty server in order: the server
    resolves every operation, the edge resolved none, and yet both show the same data. */
module Replay {
  import opened Models
  import opened VectorClocks
  import opened Store
  import opened Conflict
  import opened Replicas

  function WriteAll(node: NodeId, rep: Replica, ws: seq<Write>): Replica {
    if ws == [] then rep
    else WriteOne(node, WriteAll(node, rep, ws[..|ws| - 1]), ws[|ws| - 1])
  }

  /** The operations the writes put into the outbox, in order. */
  function Created(node: NodeId, rep: Replica, ws: seq<Write>): seq<Operation> {
    if ws == [] then []
    else
      var front := ws[..|ws| - 1];
      Created(node, rep, front) + [NewOp(node, WriteAll(node, rep, front), ws[|ws| - 1])]
  }

  /** The edge's record and the server's may differ in version, and while deleted also in
      clock, time, author and existence: the server discards repeated deletes. The data
      under a tombstone agrees, because a later merge builds on it. */
  predicate Simulates(edge: Option<Record>, server: Option<Record>) {
    && ViewOf(edge) == ViewOf(server)
    && BaseData(edge) == BaseData(server)
  }

  lemma WriteKeepsSimulation(tolerance: real, node: NodeId, rep: Replica, server: Option<Record>, w: Write)
    requires Simulates(Lookup(rep.table, w.key), server)
    ensures Simulates(Lookup(WriteOne(node, rep, w).table, w.key), DeliverToRecord(tolerance, server, NewOp(node, rep, w)))
  {
    WriteAdvances(node, rep, w);
  }

  lemma {:induction false} ReplaySimulates(tolerance: real, node: NodeId, edge: Replica, server: Replica, ws: seq<Write>, k: Key)
    requires Simulates(Lookup(edge.table, k), Lookup(server.table, k))
    ensures Simulates(Lookup(WriteAll(node, edge, ws).table, k),
                      Lookup(Receive(tolerance, server, Created(node, edge, ws)).table, k))
  {
    if ws != [] {
      var front, w := ws[..|ws| - 1], ws[|ws| - 1];
      ReplaySimulates(tolerance, node, edge, server, front, k);
      var mid, op := WriteAll(node, edge, front), NewOp(node, WriteAll(node, edge, front), w);
      var remote := Receive(tolerance, server, Created(node, edge, front));
      ReceiveStep(tolerance, server, Created(node, edge, front), op);
      ReceivedRecord(tolerance, remote, op, k);
      if w.key == k {
        WriteKeepsSimulation(tolerance, node, mid, Lookup(remote.table, k), w);
      }
    }
  }

  /** Same views on both sides after any sequence of writes of all four kinds. */
  lemma ReplayFromEmpty(tolerance: real, node: NodeId, ws: seq<Write>, k: Key)
    ensures ViewOf(Lookup(WriteAll(node, FRESH, ws).table, k))
         == ViewOf(Lookup(Receive(tolerance, FRESH, Created(node, FRESH, ws)).table, k))
  {
    ReplaySimulates(tolerance, node, FRESH, FRESH, ws, k);
  }
}
