/** What a node does with an operation, local or remote, as a step on its counters, its
    global clock and its record table. The engine and the server share this behaviour. */
module Replicas {
  import opened Models
  import opened VectorClocks
  import opened Store
  import opened Conflict

  // ----- Delivery to one record and to a table

  function DeliverToRecord(tolerance: real, r: Option<Record>, op: Operation): Option<Record> {
    if Accepts(tolerance, r, op) then Some(Applied(r, op)) else r
  }

  function DeliverAllToRecord(tolerance: real, r: Option<Record>, ops: seq<Operation>): Option<Record> {
    if ops == [] then r
    else DeliverToRecord(tolerance, DeliverAllToRecord(tolerance, r, ops[..|ops| - 1]), ops[|ops| - 1])
  }

  function Deliver(tolerance: real, t: Table, op: Operation): Table {
    if Accepts(tolerance, Lookup(t, op.key), op) then ApplyOp(t, op) else t
  }

  function DeliverAll(tolerance: real, t: Table, ops: seq<Operation>): Table {
    if ops == [] then t
    else Deliver(tolerance, DeliverAll(tolerance, t, ops[..|ops| - 1]), ops[|ops| - 1])
  }

  /** The operations on one key, in order. */
  function OnKey(ops: seq<Operation>, k: Key): seq<Operation> {
    if ops == [] then []
    else
      var front := OnKey(ops[..|ops| - 1], k);
      if ops[|ops| - 1].key == k then front + [ops[|ops| - 1]] else front
  }

  /** Records do not interact: a delivery run acts on each key as the run of that key's
      operations alone. */
  lemma {:induction false} DeliveryIsPerKey(tolerance: real, t: Table, ops: seq<Operation>, k: Key)
    ensures Lookup(DeliverAll(tolerance, t, ops), k)
         == DeliverAllToRecord(tolerance, Lookup(t, k), OnKey(ops, k))
  {
    if ops != [] {
      var front, last := ops[..|ops| - 1], ops[|ops| - 1];
      DeliveryIsPerKey(tolerance, t, front, k);
      if last.key == k {
        var on := OnKey(front, k) + [last];
        assert on[..|on| - 1] == OnKey(front, k);
      }
    }
  }

  lemma {:induction false} DeliverAllConcat(tolerance: real, r: Option<Record>, a: seq<Operation>, b: seq<Operation>)
    ensures DeliverAllToRecord(tolerance, r, a + b)
         == DeliverAllToRecord(tolerance, DeliverAllToRecord(tolerance, r, a), b)
  {
    if b == [] {
      assert a + b == a;
    } else {
      var front := b[..|b| - 1];
      assert (a + b)[..|a + b| - 1] == a + front;
      DeliverAllConcat(tolerance, r, a, front);
    }
  }

  lemma {:induction false} OnKeyMembers(ops: seq<Operation>, k: Key)
    ensures forall o :: o in OnKey(ops, k) <==> o in ops && o.key == k
  {
    if ops != [] {
      OnKeyMembers(ops[..|ops| - 1], k);
      assert ops == ops[..|ops| - 1] + [ops[|ops| - 1]];
    }
  }

  lemma {:induction false} OnKeyConcat(a: seq<Operation>, b: seq<Operation>, k: Key)
    ensures OnKey(a + b, k) == OnKey(a, k) + OnKey(b, k)
  {
    if b == [] {
      assert a + b == a;
    } else {
      assert (a + b)[..|a + b| - 1] == a + b[..|b| - 1];
      OnKeyConcat(a, b[..|b| - 1], k);
    }
  }

  // ----- The whole replica

  datatype Replica = Replica(lamport: int, clock: VectorClock, table: Table)

  /** A node that has just started on an empty database. */
  const FRESH := Replica(0, map[], map[])

  /** One pass of the receive loop. */
  function ReceiveOne(tolerance: real, rep: Replica, op: Operation): Replica {
    Replica(Max(rep.lamport, op.lamport) + 1, VectorClocks.Merge(rep.clock, op.vectorClock), Deliver(tolerance, rep.table, op))
  }

  function Receive(tolerance: real, rep: Replica, ops: seq<Operation>): Replica {
    if ops == [] then rep
    else ReceiveOne(tolerance, Receive(tolerance, rep, ops[..|ops| - 1]), ops[|ops| - 1])
  }

  lemma ReceiveStep(tolerance: real, rep: Replica, ops: seq<Operation>, op: Operation)
    ensures Receive(tolerance, rep, ops + [op]) == ReceiveOne(tolerance, Receive(tolerance, rep, ops), op)
  {
    assert (ops + [op])[..|ops|] == ops;
  }

  lemma ReceivedRecord(tolerance: real, rep: Replica, op: Operation, k: Key)
    ensures Lookup(ReceiveOne(tolerance, rep, op).table, k)
         == if op.key == k then DeliverToRecord(tolerance, Lookup(rep.table, k), op) else Lookup(rep.table, k)
  {
  }

  lemma {:induction false} ReceiveTable(tolerance: real, rep: Replica, ops: seq<Operation>)
    ensures Receive(tolerance, rep, ops).table == DeliverAll(tolerance, rep.table, ops)
  {
    if ops != [] {
      ReceiveTable(tolerance, rep, ops[..|ops| - 1]);
    }
  }

  lemma ReceiveRecord(tolerance: real, rep: Replica, ops: seq<Operation>, k: Key)
    ensures Lookup(Receive(tolerance, rep, ops).table, k)
         == DeliverAllToRecord(tolerance, Lookup(rep.table, k), OnKey(ops, k))
  {
    ReceiveTable(tolerance, rep, ops);
    DeliveryIsPerKey(tolerance, rep.table, ops, k);
  }

  /** How requests are split into batches does not matter. */
  lemma {:induction false} ReceiveConcat(tolerance: real, rep: Replica, a: seq<Operation>, b: seq<Operation>)
    ensures Receive(tolerance, rep, a + b) == Receive(tolerance, Receive(tolerance, rep, a), b)
  {
    if b == [] {
      assert a + b == a;
    } else {
      var front, last := b[..|b| - 1], b[|b| - 1];
      assert a + b == (a + front) + [last] && b == front + [last];
      ReceiveConcat(tolerance, rep, a, front);
      ReceiveStep(tolerance, rep, a + front, last);
      ReceiveStep(tolerance, Receive(tolerance, rep, a), front, last);
    }
  }

  /** The global clock after a receive run covers the old one and every operation in it. */
  lemma {:induction false} ReceiveClock(tolerance: real, rep: Replica, ops: seq<Operation>)
    ensures Leq(rep.clock, Receive(tolerance, rep, ops).clock)
    ensures forall o | o in ops :: Leq(o.vectorClock, Receive(tolerance, rep, ops).clock)
  {
    if ops != [] {
      var front, last := ops[..|ops| - 1], ops[|ops| - 1];
      var mid := Receive(tolerance, rep, front);
      ReceiveClock(tolerance, rep, front);
      var end := ReceiveOne(tolerance, mid, last);
      MergeIsLeastUpperBound(mid.clock, last.vectorClock, end.clock);
      LeqTransitive(rep.clock, mid.clock, end.clock);
      forall o | o in ops
        ensures Leq(o.vectorClock, end.clock)
      {
        if o in front {
          LeqTransitive(o.vectorClock, mid.clock, end.clock);
        }
      }
    }
  }

  /** And it is the least clock that does: a receive run raises no counter by itself. */
  lemma {:induction false} ReceiveClockIsLeast(tolerance: real, rep: Replica, ops: seq<Operation>, d: RawClock)
    ensures Leq(Receive(tolerance, rep, ops).clock, d) <==> Leq(rep.clock, d) && forall o | o in ops :: Leq(o.vectorClock, d)
  {
    if ops != [] {
      var front, last := ops[..|ops| - 1], ops[|ops| - 1];
      ReceiveClockIsLeast(tolerance, rep, front, d);
      MergeIsLeastUpperBound(Receive(tolerance, rep, front).clock, last.vectorClock, d);
      assert forall o :: o in ops <==> o in front || o == last;
    }
  }

  /** `bound` leaves one step for every operation after `start` and after each operation's own
      value. */
  ghost predicate LeavesRoom(start: int, ops: seq<Operation>, bound: int) {
    start + |ops| <= bound && forall i | 0 <= i < |ops| :: ops[i].lamport + |ops| - i <= bound
  }

  lemma RoomStep(start: int, front: seq<Operation>, last: Operation, bound: int)
    ensures LeavesRoom(start, front + [last], bound) <==> LeavesRoom(start, front, bound - 1) && last.lamport + 1 <= bound
  {
    var ops := front + [last];
    if LeavesRoom(start, ops, bound) {
      assert ops[|front|].lamport + |ops| - |front| <= bound;
      forall i | 0 <= i < |front|
        ensures front[i].lamport + |front| - i <= bound - 1
      {
        assert ops[i].lamport + |ops| - i <= bound;
      }
    }
    if LeavesRoom(start, front, bound - 1) && last.lamport + 1 <= bound {
      forall i | 0 <= i < |ops|
        ensures ops[i].lamport + |ops| - i <= bound
      {
        if i < |front| {
          assert front[i].lamport + |front| - i <= bound - 1;
        }
      }
    }
  }

  /** The Lamport counter after a receive run is the least number that leaves this room. */
  lemma {:induction false} ReceiveLamport(tolerance: real, rep: Replica, ops: seq<Operation>, bound: int)
    ensures Receive(tolerance, rep, ops).lamport <= bound <==> LeavesRoom(rep.lamport, ops, bound)
  {
    if ops != [] {
      var front, last := ops[..|ops| - 1], ops[|ops| - 1];
      assert ops == front + [last];
      ReceiveLamport(tolerance, rep, front, bound - 1);
      RoomStep(rep.lamport, front, last, bound);
    }
  }

  // ----- Local writes

  /** A call of the application interface, with the time and the identifier it draws. */
  datatype Write = Write(kind: OpType, key: Key, payload: Fields, priority: Priority, at: real, opId: string)

  /** The operation a local write creates. */
  function NewOp(node: NodeId, rep: Replica, w: Write): Operation {
    Operation(w.opId, node, w.kind, w.key, if w.kind.Delete? then map[] else w.payload, w.at,
              Increment(ClockOf(rep.table, w.key), node), rep.lamport + 1, w.priority)
  }

  /** A local write is applied without asking the resolver. */
  function WriteOne(node: NodeId, rep: Replica, w: Write): Replica {
    var op := NewOp(node, rep, w);
    Replica(rep.lamport + 1, VectorClocks.Merge(rep.clock, op.vectorClock), ApplyOp(rep.table, op))
  }

  /** A local write's clock is strictly after the one the record had, and says so to the
      resolver of any replica that still holds the old record live. */
  lemma WriteAdvances(node: NodeId, rep: Replica, w: Write)
    ensures Order(ClockOf(rep.table, w.key), NewOp(node, rep, w).vectorClock).Before?
    ensures w.key in rep.table ==> Order(rep.table[w.key].vectorClock, NewOp(node, rep, w).vectorClock).Before?
  {
    var c := ClockOf(rep.table, w.key);
    var c' := Increment(c, node);
    IncrementIsAfter(c, node);
    MakeAgain(c);
    MakeAgain(c');
  }

  /** It differs from the record's clock by one tick of the writer, and the operation carries
      the next Lamport value and what the caller gave, a delete carrying nothing. */
  lemma WriteTicksOnce(node: NodeId, rep: Replica, w: Write, n: NodeId)
    ensures var op := NewOp(node, rep, w);
            && At(op.vectorClock, n) == (if w.key in rep.table then At(rep.table[w.key].vectorClock, n) else 0) + (if n == node then 1 else 0)
            && op.lamport == rep.lamport + 1 && op.nodeId == node && op.opId == w.opId && op.key == w.key && op.kind == w.kind
            && op.timestamp == w.at && op.priority == w.priority
            && op.payload == if w.kind == Delete then map[] else w.payload
  {
    IncrementAt(ClockOf(rep.table, w.key), node, n);
  }

  lemma WrittenRecord(node: NodeId, rep: Replica, w: Write)
    ensures var t := WriteOne(node, rep, w).table;
            w.key in t && VersionOf(t[w.key]) == VersionOfOp(NewOp(node, rep, w))
  {
  }

  lemma MakeAgain(c: VectorClock)
    ensures Make(c) == c
  {
  }
}
