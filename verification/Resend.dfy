/** Handling the same push twice. A reply can be lost after the server has run the batch,
    and the edge then sends the batch again. */
module Resend {
  import opened Models
  import opened VectorClocks
  import opened Store
  import opened Conflict
  import opened Replicas
  import opened Replay

  /** Each operation knows about the ones before it. Any kinds may be mixed. */
  ghost predicate IsChain(ops: seq<Operation>) {
    forall i, j | 0 <= i < j < |ops| :: Order(ops[i].vectorClock, ops[j].vectorClock).Before?
  }

  lemma ChainPrefix(ops: seq<Operation>)
    requires IsChain(ops) && ops != []
    ensures IsChain(ops[..|ops| - 1])
    ensures |ops| > 1 ==> Order(ops[|ops| - 2].vectorClock, ops[|ops| - 1].vectorClock).Before?
  {
  }

  /** The record is as the operation leaves it, up to what the resolver looks at. */
  ghost predicate SettledBy(r: Option<Record>, op: Operation) {
    && (IsLive(r) <==> !op.kind.Delete?)
    && (IsLive(r) ==> r.value.vectorClock == op.vectorClock)
  }

  lemma AcceptedSettles(tolerance: real, r: Option<Record>, op: Operation)
    requires Accepts(tolerance, r, op)
    ensures SettledBy(DeliverToRecord(tolerance, r, op), op)
  {
  }

  /** On a record settled by one operation of the chain the next one settles it anew, be it
      applied or, as a repeated delete, discarded. */
  lemma NextSettles(tolerance: real, r: Option<Record>, op: Operation, next: Operation)
    requires SettledBy(r, op) && Order(op.vectorClock, next.vectorClock).Before?
    ensures SettledBy(DeliverToRecord(tolerance, r, next), next)
  {
    if Accepts(tolerance, r, next) {
      AcceptedSettles(tolerance, r, next);
    }
  }

  /** From a missing or deleted record, a chain ends live exactly when its last operation
      is not a delete, and then the record carries that operation's clock. */
  lemma {:induction false} ChainFromDead(tolerance: real, r: Option<Record>, ops: seq<Operation>)
    requires !IsLive(r) && IsChain(ops) && ops != []
    ensures SettledBy(DeliverAllToRecord(tolerance, r, ops), ops[|ops| - 1])
  {
    var front, last := ops[..|ops| - 1], ops[|ops| - 1];
    ChainPrefix(ops);
    if front == [] {
      if Accepts(tolerance, r, last) {
        AcceptedSettles(tolerance, r, last);
      }
    } else {
      ChainFromDead(tolerance, r, front);
      NextSettles(tolerance, DeliverAllToRecord(tolerance, r, front), front[|front| - 1], last);
    }
  }

  ghost predicate AllTurnedAway(tolerance: real, r: Option<Record>, ops: seq<Operation>) {
    forall o | o in ops :: !Accepts(tolerance, r, o)
  }

  lemma {:induction false} NothingAccepted(tolerance: real, r: Option<Record>, ops: seq<Operation>)
    requires AllTurnedAway(tolerance, r, ops)
    ensures DeliverAllToRecord(tolerance, r, ops) == r
  {
    if ops != [] {
      assert ops[|ops| - 1] in ops;
      assert forall o | o in ops[..|ops| - 1] :: o in ops;
      NothingAccepted(tolerance, r, ops[..|ops| - 1]);
    }
  }

  lemma TurnedAwayToo(tolerance: real, r: Option<Record>, front: seq<Operation>, last: Operation)
    requires AllTurnedAway(tolerance, r, front) && !Accepts(tolerance, r, last)
    ensures AllTurnedAway(tolerance, r, front + [last])
  {
  }

  /** From a live record, a chain is either turned away as a whole, or its last operation
      decides as if it had been applied. */
  ghost predicate LiveOutcome(tolerance: real, r: Option<Record>, ops: seq<Operation>, r': Option<Record>) {
    (r' == r && AllTurnedAway(tolerance, r, ops)) || (ops != [] && SettledBy(r', ops[|ops| - 1]))
  }

  lemma LiveOutcomeStep(tolerance: real, r: Option<Record>, front: seq<Operation>, mid: Option<Record>, last: Operation)
    requires LiveOutcome(tolerance, r, front, mid)
    requires front != [] ==> Order(front[|front| - 1].vectorClock, last.vectorClock).Before?
    ensures LiveOutcome(tolerance, r, front + [last], DeliverToRecord(tolerance, mid, last))
  {
    if Accepts(tolerance, mid, last) {
      AcceptedSettles(tolerance, mid, last);
    } else if mid == r && AllTurnedAway(tolerance, r, front) {
      TurnedAwayToo(tolerance, r, front, last);
    } else {
      NextSettles(tolerance, mid, front[|front| - 1], last);
    }
  }

  lemma {:induction false} ChainFromLive(tolerance: real, r: Option<Record>, ops: seq<Operation>)
    requires IsChain(ops)
    ensures LiveOutcome(tolerance, r, ops, DeliverAllToRecord(tolerance, r, ops))
  {
    if ops != [] {
      var front, last := ops[..|ops| - 1], ops[|ops| - 1];
      ChainPrefix(ops);
      ChainFromLive(tolerance, r, front);
      LiveOutcomeStep(tolerance, r, front, DeliverAllToRecord(tolerance, r, front), last);
      assert ops == front + [last];
    }
  }

  /** A live record that carries the chain's last clock turns the whole chain away. */
  lemma ChainIsStale(tolerance: real, r: Option<Record>, ops: seq<Operation>)
    requires IsLive(r) && IsChain(ops) && ops != []
    requires r.value.vectorClock == ops[|ops| - 1].vectorClock
    ensures DeliverAllToRecord(tolerance, r, ops) == r
  {
    StaleTurnsAway(tolerance, r, ops);
    NothingAccepted(tolerance, r, ops);
  }

  lemma StaleTurnsAway(tolerance: real, r: Option<Record>, ops: seq<Operation>)
    requires IsLive(r) && IsChain(ops) && ops != []
    requires r.value.vectorClock == ops[|ops| - 1].vectorClock
    ensures AllTurnedAway(tolerance, r, ops)
  {
    var last := |ops| - 1;
    forall o | o in ops
      ensures !Accepts(tolerance, r, o)
    {
      var i :| 0 <= i < |ops| && ops[i] == o;
      OrderFlips(ops[i].vectorClock, ops[last].vectorClock);
      if i == last {
        OrderDecides(o.vectorClock, o.vectorClock);
      } else {
        assert Order(ops[i].vectorClock, ops[last].vectorClock).Before?;
      }
    }
  }

  /** Running a chain a second time leaves the view of the record as the first run left
      it, from any starting record and for any mix of kinds, although the second run may
      bring a deleted record back in between. */
  lemma ChainTwice(tolerance: real, r: Option<Record>, ops: seq<Operation>)
    requires IsChain(ops)
    ensures var once := DeliverAllToRecord(tolerance, r, ops);
            ViewOf(DeliverAllToRecord(tolerance, once, ops)) == ViewOf(once)
  {
    var once := DeliverAllToRecord(tolerance, r, ops);
    if ops != [] {
      if IsLive(r) {
        ChainFromLive(tolerance, r, ops);
      } else {
        ChainFromDead(tolerance, r, ops);
      }
      if IsLive(r) && AllTurnedAway(tolerance, r, ops) {
        NothingAccepted(tolerance, r, ops);
      } else if IsLive(once) {
        ChainIsStale(tolerance, once, ops);
      } else {
        ChainFromDead(tolerance, once, ops);
      }
    }
  }

  /** When the front part `again` of a chain can be run after the whole chain without
      changing the view: if there is none, if the record had turned the chain away, if the
      chain's last operation is no delete, or if the front part's last is one. */
  predicate KeepsView(tolerance: real, r: Option<Record>, ops: seq<Operation>, again: seq<Operation>) {
    || again == [] || ops == []
    || (IsLive(r) && forall o | o in ops :: !Accepts(tolerance, r, o))
    || !ops[|ops| - 1].kind.Delete?
    || again[|again| - 1].kind.Delete?
  }

  lemma ChainFront(ops: seq<Operation>, n: nat)
    requires IsChain(ops) && n <= |ops|
    ensures IsChain(ops[..n])
  {
  }

  /** From a record that shows nothing of the chain, or its last operation. */
  lemma FrontAgain(tolerance: real, once: Option<Record>, ops: seq<Operation>, n: nat)
    requires IsChain(ops) && 0 < n <= |ops| && SettledBy(once, ops[|ops| - 1])
    ensures ViewOf(DeliverAllToRecord(tolerance, once, ops[..n])) == ViewOf(once) <==>
            !ops[|ops| - 1].kind.Delete? || ops[n - 1].kind.Delete?
  {
    if IsLive(once) {
      StaleTurnsAway(tolerance, once, ops);
      assert forall o | o in ops[..n] :: o in ops;
      NothingAccepted(tolerance, once, ops[..n]);
    } else {
      ChainFront(ops, n);
      ChainFromDead(tolerance, once, ops[..n]);
    }
  }

  lemma RefusedAgain(tolerance: real, r: Option<Record>, ops: seq<Operation>, n: nat)
    requires n <= |ops| && AllTurnedAway(tolerance, r, ops)
    ensures DeliverAllToRecord(tolerance, r, ops) == r == DeliverAllToRecord(tolerance, r, ops[..n])
  {
    NothingAccepted(tolerance, r, ops);
    assert forall o | o in ops[..n] :: o in ops;
    NothingAccepted(tolerance, r, ops[..n]);
  }

  lemma ChainSettles(tolerance: real, r: Option<Record>, ops: seq<Operation>)
    requires IsChain(ops) && ops != [] && !(IsLive(r) && AllTurnedAway(tolerance, r, ops))
    ensures SettledBy(DeliverAllToRecord(tolerance, r, ops), ops[|ops| - 1])
  {
    if IsLive(r) {
      ChainFromLive(tolerance, r, ops);
    } else {
      ChainFromDead(tolerance, r, ops);
    }
  }

  /** Running a front part of a chain again keeps the view exactly as said, and running the
      rest after it brings the view back in any case. */
  lemma PrefixAgain(tolerance: real, r: Option<Record>, ops: seq<Operation>, n: nat)
    requires IsChain(ops) && n <= |ops|
    ensures var once := DeliverAllToRecord(tolerance, r, ops);
            var twice := DeliverAllToRecord(tolerance, once, ops[..n]);
            && (ViewOf(twice) == ViewOf(once) <==> KeepsView(tolerance, r, ops, ops[..n]))
            && ViewOf(DeliverAllToRecord(tolerance, twice, ops[n..])) == ViewOf(once)
  {
    var once := DeliverAllToRecord(tolerance, r, ops);
    ChainTwice(tolerance, r, ops);
    assert ops == ops[..n] + ops[n..];
    DeliverAllConcat(tolerance, once, ops[..n], ops[n..]);
    FrontKeepsView(tolerance, r, ops, n);
  }

  lemma FrontKeepsView(tolerance: real, r: Option<Record>, ops: seq<Operation>, n: nat)
    requires IsChain(ops) && n <= |ops|
    ensures var once := DeliverAllToRecord(tolerance, r, ops);
            ViewOf(DeliverAllToRecord(tolerance, once, ops[..n])) == ViewOf(once) <==> KeepsView(tolerance, r, ops, ops[..n])
  {
    if n > 0 {
      if IsLive(r) && AllTurnedAway(tolerance, r, ops) {
        RefusedAgain(tolerance, r, ops, n);
      } else {
        ChainSettles(tolerance, r, ops);
        FrontAgain(tolerance, DeliverAllToRecord(tolerance, r, ops), ops, n);
      }
    }
  }

  /** Resending a whole batch changes no record's view. */
  lemma ResendIsIdempotent(tolerance: real, rep: Replica, batch: seq<Operation>, k: Key)
    requires IsChain(OnKey(batch, k))
    ensures var once := Receive(tolerance, rep, batch);
            var twice := Receive(tolerance, once, batch);
            ViewOf(Lookup(twice.table, k)) == ViewOf(Lookup(once.table, k))
  {
    var once := Receive(tolerance, rep, batch);
    ReceiveRecord(tolerance, rep, batch, k);
    ReceiveRecord(tolerance, once, batch, k);
    ChainTwice(tolerance, Lookup(rep.table, k), OnKey(batch, k));
  }

  /** The resend of [update, delete] does bring the record back before removing it again. */
  lemma ResendBrieflyUndoesDelete(tolerance: real, u: Operation, d: Operation)
    requires u.kind.Update? && d.kind.Delete? && Order(u.vectorClock, d.vectorClock).Before?
    ensures var once := DeliverAllToRecord(tolerance, None, [u, d]);
            && ViewOf(once) == Gone
            && ViewOf(DeliverToRecord(tolerance, once, u)) == ViewOfOp(u)
            && ViewOf(DeliverToRecord(tolerance, DeliverToRecord(tolerance, once, u), d)) == Gone
  {
    assert [u, d][..1] == [u] && [u][..0] == [];
    assert DeliverAllToRecord(tolerance, None, [u]) == DeliverToRecord(tolerance, None, u);
  }

  // ----- Batches of offline writes

  lemma AppendToChain(ops: seq<Operation>, op: Operation)
    requires IsChain(ops) && (ops != [] ==> Order(ops[|ops| - 1].vectorClock, op.vectorClock).Before?)
    ensures IsChain(ops + [op])
  {
    var all := ops + [op];
    forall i, j | 0 <= i < j < |all|
      ensures Order(all[i].vectorClock, all[j].vectorClock).Before?
    {
      if j == |ops| && i < |ops| - 1 {
        BeforeTransitive(ops[i].vectorClock, ops[|ops| - 1].vectorClock, op.vectorClock);
      }
    }
  }

  /** The operations form a chain that ends with the stored clock. */
  ghost predicate TracksChain(t: Table, k: Key, ops: seq<Operation>) {
    IsChain(ops) && (ops != [] ==> k in t && t[k].vectorClock == ops[|ops| - 1].vectorClock)
  }

  lemma ChainTracked(t: Table, k: Key, ops: seq<Operation>, op: Operation)
    requires IsChain(ops + [op]) && k in t && t[k].vectorClock == op.vectorClock
    ensures TracksChain(t, k, ops + [op])
  {
  }

  lemma WriteExtendsChain(node: NodeId, rep: Replica, w: Write, k: Key, ops: seq<Operation>)
    requires TracksChain(rep.table, k, ops)
    ensures TracksChain(WriteOne(node, rep, w).table, k, ops + if w.key == k then [NewOp(node, rep, w)] else [])
  {
    if w.key == k {
      var op := NewOp(node, rep, w);
      WriteAdvances(node, rep, w);
      AppendToChain(ops, op);
      WrittenRecord(node, rep, w);
      ChainTracked(WriteOne(node, rep, w).table, k, ops, op);
    } else {
      assert ops + [] == ops;
    }
  }

  /** While nothing is pulled in between, a node's writes of one record form a chain whose
      last clock is the one stored. */
  lemma {:induction false} WritesFormChain(node: NodeId, rep: Replica, ws: seq<Write>, k: Key)
    ensures TracksChain(WriteAll(node, rep, ws).table, k, OnKey(Created(node, rep, ws), k))
  {
    if ws != [] {
      var n := |ws| - 1;
      WritesFormChain(node, rep, ws[..n], k);
      var mid := WriteAll(node, rep, ws[..n]);
      var before := Created(node, rep, ws[..n]);
      OnKeyAppend(before, NewOp(node, mid, ws[n]), k);
      WriteExtendsChain(node, mid, ws[n], k, OnKey(before, k));
    }
  }

  lemma OnKeyAppend(ops: seq<Operation>, op: Operation, k: Key)
    ensures OnKey(ops + [op], k) == OnKey(ops, k) + if op.key == k then [op] else []
  {
    assert (ops + [op])[..|ops|] == ops;
  }
}
