/** A run in which a record is never sent to a node that has not seen it. Counters are kept
    per record, but the delta is filtered by one clock for all records: a first write of one
    record looks like a first write of any other. */
module Withheld {
  import opened Models
  import opened VectorClocks
  import opened Store
  import opened Conflict
  import opened Replicas
  import opened Protocol
  import opened Outbox
  import opened Scheduling
  import opened Server
  import opened Engine
  import opened Offline
  import opened OfflineSync
  import Sync

  const SLOW := 9_600
  const FAST := 64_000

  /** A writer with two new records, of which a slow link carries only the first. */
  predicate TwoNewRecords(c: Config, w1: Write, w2: Write) {
    && w1.kind.Create? && w2.kind.Create? && w1.key != w2.key && w1.opId != w2.opId
    && w1.priority.P0? && w2.priority.P2?
    && c.batchSize >= 1 && SLOW < c.lowThreshold && SLOW < c.highThreshold
  }

  // ----- The writer's two records

  lemma FreshClocks(node: NodeId, w1: Write, w2: Write)
    requires w1.key != w2.key
    ensures FirstOp(node, w1).vectorClock == map[node := 1] == SecondOp(node, w1, w2).vectorClock
  {
    assert w2.key !in WriteOne(node, FRESH, w1).table;
    assert ClockOf(FRESH.table, w1.key) == map[] && ClockOf(WriteOne(node, FRESH, w1).table, w2.key) == map[];
    assert Increment(map[], node) == map[node := 1];
  }

  /** The slow link takes the critical record, the fast link then takes the other. */
  lemma SelectedRows(c: Config, a: Row, b: Row, now: real)
    requires a.op.priority.P0? && b.op.priority.P2? && a.state.Pending? && b.state.Pending? && a.op.opId != b.op.opId
    requires c.batchSize >= 1 && SLOW < c.lowThreshold && SLOW < c.highThreshold
    ensures Batch(c, [a, b], SLOW) == [a]
    ensures Batch(c, SyncedRows([a, b], IdsOf(OpsOf([a])), now), FAST) == [b]
  {
    var slow, fast := UpTo(PriorityCutoff(c, SLOW)), UpTo(PriorityCutoff(c, FAST));
    var a' := ToSynced(now)(a);
    assert IdsOf(OpsOf([a])) == [a.op.opId];
    assert SyncedRows([a, b], [a.op.opId], now) == [a', b];
    PairSelected(slow, a, b);
    PairSelected(fast, a', b);
    OneRow(a);
    OneRow(b);
  }

  lemma PairSelected(f: Filter, a: Row, b: Row)
    ensures Select(f, [a, b]) == (if Matches(f, a) then [a] else []) + (if Matches(f, b) then [b] else [])
  {
    KeepAppend(Asked(f), [a], b);
    KeepAppend(Asked(f), [], a);
    assert [] + [a] == [a] && [a] + [b] == [a, b];
  }

  lemma OneRow(r: Row)
    ensures SortRows([r]) == [r]
  {
    assert [r][..0] == [] && SortRows([]) == [];
  }

  lemma OneReceived(tolerance: real, rep: Replica, op: Operation)
    ensures Receive(tolerance, rep, [op]) == ReceiveOne(tolerance, rep, op)
  {
    assert [op][..0] == [];
  }

  // ----- The reader's first sync

  /** The only record of a server is sent to a node that has seen nothing. */
  lemma OnlyRecordIsSent(t: Table, k: Key, rec: Record, peer: NodeId)
    requires t == map[k := rec] && !rec.deleted && rec.lastModifiedBy != peer && At(rec.vectorClock, rec.lastModifiedBy) > 0
    ensures InDelta(t, map[], peer, k)
  {
    var newer := NewerKeys(t, KeysOf(t, k.collection, true), k);
    assert newer <= {k};
    SmallerSet(newer, {k});
    assert t[k] == rec && k in t;
    WantedMeansUncovered(rec, map[], peer);
    assert At(rec.vectorClock, rec.lastModifiedBy) > At(map[], rec.lastModifiedBy);
  }

  /** Afterwards the reader's clock covers the clock of that record, and nothing else of the
      writer's is on the reader. */
  lemma ReaderHasSeen(tolerance: real, t: Table, k: Key, other: Key, rec: Record, reader: NodeId)
    requires t == map[k := rec] && !rec.deleted && rec.lastModifiedBy != reader && At(rec.vectorClock, rec.lastModifiedBy) > 0
    requires other != k
    ensures var rep := Receive(tolerance, FRESH, Delta(t, map[], reader));
            && Leq(rec.vectorClock, rep.clock) && other !in rep.table && IsLive(Lookup(rep.table, k))
  {
    var delta := Delta(t, map[], reader);
    OnlyRecordIsSent(t, k, rec, reader);
    DeltaExact(t, map[], reader, DeltaOp(k, rec));
    ReceiveClock(tolerance, FRESH, delta);
    Sync.PulledRecord(tolerance, FRESH, t, reader, k);
    Sync.PulledRecord(tolerance, FRESH, t, reader, other);
    Sync.FirstDelivery(tolerance, k, rec);
    assert Lookup(Receive(tolerance, FRESH, delta).table, other) == None;
  }

  // ----- The run

  /** The writer's first sync brings one record to the server. */
  lemma FirstSync(c: Config, sc: ServerConfig, writer: NodeId, e: EdgeState, a: Operation, b: Operation, now: real)
    requires !sc.registrationRequired && a.opId != b.opId && a.priority.P0? && b.priority.P2?
    requires c.batchSize >= 1 && SLOW < c.lowThreshold && SLOW < c.highThreshold
    requires e.rows == [NewRow(a), NewRow(b)] && a.nodeId == b.nodeId == writer && !a.kind.Delete?
    ensures var link := Up(SLOW, Delivered);
            && SyncServer(c, sc, writer, e, NEW_SERVER, link).rep.table == map[a.key := Applied(None, a)]
            && SyncEdge(c, sc, writer, e, NEW_SERVER, link, now).rows == SyncedRows(e.rows, IdsOf(OpsOf([NewRow(a)])), now)
  {
    SelectedRows(c, NewRow(a), NewRow(b), now);
    OwnSync(c, sc, writer, e, NEW_SERVER, SLOW, now);
    assert OpsOf([NewRow(a)]) == [a];
    OneReceived(sc.tolerance, FRESH, a);
    FirstRecord(sc.tolerance, a);
  }

  lemma FirstRecord(tolerance: real, a: Operation)
    requires !a.kind.Delete?
    ensures Deliver(tolerance, map[], a) == map[a.key := Applied(None, a)]
  {
  }

  /** A writer creates two records and syncs over a slow link, which carries only the
      critical one. A reader that has seen nothing syncs and gets it. The writer syncs again
      over a fast link, and the server has both records. The reader syncs again and does not
      get the second record: its clock says it has seen a first write of the writer's. All
      four syncs are delivered and complete. */
  lemma SecondRecordIsWithheld(c: Config, sc: ServerConfig, writer: NodeId, reader: NodeId, w1: Write, w2: Write,
                               t1: real, t2: real, t4: real)
    requires !sc.registrationRequired && TwoNewRecords(c, w1, w2) && writer != reader
    ensures var slow, fast := Up(SLOW, Delivered), Up(FAST, Delivered);
            var e0, r0 := Worked(writer, FRESH, [w1, w2]), EdgeState(FRESH, []);
            var e1, s1 := SyncEdge(c, sc, writer, e0, NEW_SERVER, slow, t1), SyncServer(c, sc, writer, e0, NEW_SERVER, slow);
            var r1, s2 := SyncEdge(c, sc, reader, r0, s1, fast, t2), SyncServer(c, sc, reader, r0, s1, fast);
            var s3 := SyncServer(c, sc, writer, e1, s2, fast);
            var r2, s4 := SyncEdge(c, sc, reader, r1, s3, fast, t4), SyncServer(c, sc, reader, r1, s3, fast);
            && IsLive(Lookup(r1.rep.table, w1.key))
            && IsLive(Lookup(s4.rep.table, w2.key)) && w2.key !in r2.rep.table
  {
    var a, b := FirstOp(writer, w1), SecondOp(writer, w1, w2);
    var slow, fast := Up(SLOW, Delivered), Up(FAST, Delivered);
    var e0, r0 := Worked(writer, FRESH, [w1, w2]), EdgeState(FRESH, []);
    TwoWrites(writer, w1, w2);
    FreshClocks(writer, w1, w2);
    FirstSync(c, sc, writer, e0, a, b, t1);
    var e1, s1 := SyncEdge(c, sc, writer, e0, NEW_SERVER, slow, t1), SyncServer(c, sc, writer, e0, NEW_SERVER, slow);
    ReaderSyncs(c, sc, writer, reader, a, w2.key, s1, t2);
    var r1, s2 := SyncEdge(c, sc, reader, r0, s1, fast, t2), SyncServer(c, sc, reader, r0, s1, fast);
    SecondSync(c, sc, writer, e1, s2, a, b, t1);
    ReaderMisses(c, sc, reader, r1, SyncServer(c, sc, writer, e1, s2, fast), b, t4);
  }

  lemma NothingToPush(c: Config, e: EdgeState, bandwidth: int)
    requires e.rows == []
    ensures Pushed(c, e, bandwidth) == []
  {
  }

  /** The first sync of a reader that has done nothing, with a server of one record. */
  lemma ReaderSyncs(c: Config, sc: ServerConfig, writer: NodeId, reader: NodeId, a: Operation, other: Key, s: ServerState, now: real)
    requires !sc.registrationRequired && writer != reader && other != a.key
    requires a.kind.Create? && a.nodeId == writer && a.vectorClock == map[writer := 1]
    requires s.rep.table == map[a.key := Applied(None, a)]
    ensures var r0 := EdgeState(FRESH, []);
            var link := Up(FAST, Delivered);
            var r1, s' := SyncEdge(c, sc, reader, r0, s, link, now), SyncServer(c, sc, reader, r0, s, link);
            && r1.rows == [] && s'.rep == s.rep
            && Leq(a.vectorClock, r1.rep.clock) && other !in r1.rep.table && IsLive(Lookup(r1.rep.table, a.key))
  {
    var r0 := EdgeState(FRESH, []);
    NothingToPush(c, r0, FAST);
    Sync.ReplicasAfterSync(c, sc, reader, r0, s, FAST, now);
    ReaderHasSeen(c.tolerance, s.rep.table, a.key, other, Applied(None, a), reader);
  }

  /** The writer's second sync brings its second record to the server. */
  lemma SecondSync(c: Config, sc: ServerConfig, writer: NodeId, e1: EdgeState, s2: ServerState, a: Operation, b: Operation, t1: real)
    requires !sc.registrationRequired && a.key != b.key && a.opId != b.opId && a.priority.P0? && b.priority.P2?
    requires b.kind.Create? && b.key !in s2.rep.table
    requires c.batchSize >= 1 && SLOW < c.lowThreshold && SLOW < c.highThreshold
    requires e1.rows == SyncedRows([NewRow(a), NewRow(b)], IdsOf(OpsOf([NewRow(a)])), t1)
    ensures var s3 := SyncServer(c, sc, writer, e1, s2, Up(FAST, Delivered));
            Lookup(s3.rep.table, b.key) == Some(Applied(None, b))
  {
    SelectedRows(c, NewRow(a), NewRow(b), t1);
    assert Pushed(c, e1, FAST) == [b];
    Sync.ReplicasAfterSync(c, sc, writer, e1, s2, FAST, t1);
    OneReceived(sc.tolerance, s2.rep, b);
  }

  /** A reader whose clock covers the record does not get it. */
  lemma ReaderMisses(c: Config, sc: ServerConfig, reader: NodeId, r1: EdgeState, s3: ServerState, b: Operation, now: real)
    requires !sc.registrationRequired && r1.rows == [] && b.key !in r1.rep.table && b.kind.Create?
    requires Lookup(s3.rep.table, b.key) == Some(Applied(None, b)) && Leq(b.vectorClock, r1.rep.clock)
    ensures var link := Up(FAST, Delivered);
            var r2, s4 := SyncEdge(c, sc, reader, r1, s3, link, now), SyncServer(c, sc, reader, r1, s3, link);
            IsLive(Lookup(s4.rep.table, b.key)) && b.key !in r2.rep.table
  {
    NothingToPush(c, r1, FAST);
    Sync.RecordsAfterSync(c, sc, reader, r1, s3, FAST, now, b.key);
    Sync.UnseenRecordArrives(c, sc, reader, r1, s3, FAST, now, b.key);
    WantedMeansUncovered(s3.rep.table[b.key], r1.rep.clock, reader);
  }
}
