/** Whole runs of a replica: any mix of local writes and remote deliveries. */
module Runs {
  import opened Models
  import opened VectorClocks
  import opened Store
  import opened Conflict
  import opened Replicas

  datatype Event = Local(w: Write) | Remote(op: Operation)

  function Perform(tolerance: real, node: NodeId, rep: Replica, e: Event): Replica {
    match e
    case Local(w) => WriteOne(node, rep, w)
    case Remote(op) => ReceiveOne(tolerance, rep, op)
  }

  function Run(tolerance: real, node: NodeId, rep: Replica, es: seq<Event>): Replica {
    if es == [] then rep
    else Perform(tolerance, node, Run(tolerance, node, rep, es[..|es| - 1]), es[|es| - 1])
  }

  /** The operation an event creates or pulls. */
  function OpOf(node: NodeId, rep: Replica, e: Event): Operation {
    match e
    case Local(w) => NewOp(node, rep, w)
    case Remote(op) => op
  }

  /** Every operation created or pulled along a run, in order. */
  function Seen(tolerance: real, node: NodeId, rep: Replica, es: seq<Event>): seq<Operation> {
    if es == [] then []
    else
      var front := es[..|es| - 1];
      Seen(tolerance, node, rep, front) + [OpOf(node, Run(tolerance, node, rep, front), es[|es| - 1])]
  }

  lemma {:induction false} RunConcat(tolerance: real, node: NodeId, rep: Replica, a: seq<Event>, b: seq<Event>)
    ensures Run(tolerance, node, rep, a + b) == Run(tolerance, node, Run(tolerance, node, rep, a), b)
  {
    if b == [] {
      assert a + b == a;
    } else {
      assert (a + b)[..|a + b| - 1] == a + b[..|b| - 1];
      RunConcat(tolerance, node, rep, a, b[..|b| - 1]);
    }
  }

  function Remotes(ops: seq<Operation>): seq<Event> {
    seq(|ops|, i requires 0 <= i < |ops| => Remote(ops[i]))
  }

  /** The pull loop of a sync is a run of remote events. */
  lemma {:induction false} ReceiveIsRun(tolerance: real, node: NodeId, rep: Replica, ops: seq<Operation>)
    ensures Receive(tolerance, rep, ops) == Run(tolerance, node, rep, Remotes(ops))
  {
    if ops != [] {
      var front := ops[..|ops| - 1];
      assert Remotes(ops)[..|ops| - 1] == Remotes(front);
      ReceiveIsRun(tolerance, node, rep, front);
    }
  }

  // ----- The global clock and the Lamport counter

  /** Everything the node has created, pulled or stored lies below its clock and counter. */
  ghost predicate Covered(rep: Replica, seen: seq<Operation>) {
    && (forall k | k in rep.table :: Leq(rep.table[k].vectorClock, rep.clock))
    && (forall o | o in seen :: Leq(o.vectorClock, rep.clock) && o.lamport <= rep.lamport)
  }

  lemma PerformClock(tolerance: real, node: NodeId, rep: Replica, e: Event)
    ensures var op := OpOf(node, rep, e);
            var rep' := Perform(tolerance, node, rep, e);
            && Leq(rep.clock, rep'.clock) && Leq(op.vectorClock, rep'.clock)
            && rep.lamport < rep'.lamport && op.lamport <= rep'.lamport
            && forall k | k in rep'.table ::
                 (k in rep.table && rep'.table[k] == rep.table[k]) || rep'.table[k].vectorClock == op.vectorClock
  {
    var op := OpOf(node, rep, e);
    MergeIsLeastUpperBound(rep.clock, op.vectorClock, Perform(tolerance, node, rep, e).clock);
  }

  lemma PerformKeepsCovered(tolerance: real, node: NodeId, rep: Replica, seen: seq<Operation>, e: Event)
    requires Covered(rep, seen)
    ensures Covered(Perform(tolerance, node, rep, e), seen + [OpOf(node, rep, e)])
  {
    var op := OpOf(node, rep, e);
    var rep' := Perform(tolerance, node, rep, e);
    PerformClock(tolerance, node, rep, e);
    forall c: RawClock | Leq(c, rep.clock)
      ensures Leq(c, rep'.clock)
    {
      LeqTransitive(c, rep.clock, rep'.clock);
    }
  }

  /** In one lifetime from an empty store the global clock covers every stored record and
      every operation created or pulled. */
  lemma {:induction false} LifetimeIsCovered(tolerance: real, node: NodeId, es: seq<Event>)
    ensures Covered(Run(tolerance, node, FRESH, es), Seen(tolerance, node, FRESH, es))
  {
    if es != [] {
      var front := es[..|es| - 1];
      LifetimeIsCovered(tolerance, node, front);
      PerformKeepsCovered(tolerance, node, Run(tolerance, node, FRESH, front), Seen(tolerance, node, FRESH, front), es[|es| - 1]);
    }
  }

  lemma {:induction false} ClockNeverDecreases(tolerance: real, node: NodeId, rep: Replica, es: seq<Event>)
    ensures Leq(rep.clock, Run(tolerance, node, rep, es).clock)
    ensures rep.lamport + |es| <= Run(tolerance, node, rep, es).lamport
  {
    if es != [] {
      var mid := Run(tolerance, node, rep, es[..|es| - 1]);
      ClockNeverDecreases(tolerance, node, rep, es[..|es| - 1]);
      PerformClock(tolerance, node, mid, es[|es| - 1]);
      LeqTransitive(rep.clock, mid.clock, Run(tolerance, node, rep, es).clock);
    }
  }

  /** The clock after a run is the least that covers the one at its start and every operation
      created or pulled. */
  lemma {:induction false} RunClockIsLeast(tolerance: real, node: NodeId, rep: Replica, es: seq<Event>, d: RawClock)
    ensures Leq(Run(tolerance, node, rep, es).clock, d) <==>
            Leq(rep.clock, d) && forall o | o in Seen(tolerance, node, rep, es) :: Leq(o.vectorClock, d)
  {
    if es != [] {
      var front := es[..|es| - 1];
      var mid := Run(tolerance, node, rep, front);
      var op := OpOf(node, mid, es[|es| - 1]);
      RunClockIsLeast(tolerance, node, rep, front, d);
      PerformClockIsLeast(tolerance, node, mid, es[|es| - 1], d);
      assert forall o :: o in Seen(tolerance, node, rep, es) <==> o in Seen(tolerance, node, rep, front) || o == op;
    }
  }

  lemma PerformClockIsLeast(tolerance: real, node: NodeId, rep: Replica, e: Event, d: RawClock)
    ensures Leq(Perform(tolerance, node, rep, e).clock, d) <==> Leq(rep.clock, d) && Leq(OpOf(node, rep, e).vectorClock, d)
  {
    MergeIsLeastUpperBound(rep.clock, OpOf(node, rep, e).vectorClock, d);
  }

  /** One event raises the Lamport counter by one, or past the value it brings. */
  lemma PerformLamport(tolerance: real, node: NodeId, rep: Replica, e: Event)
    ensures Perform(tolerance, node, rep, e).lamport ==
            if e.Remote? && e.op.lamport > rep.lamport then e.op.lamport + 1 else rep.lamport + 1
  {
  }

  /** The next local operation's Lamport value is above everything seen before it. */
  lemma NextLamportIsLargest(tolerance: real, node: NodeId, es: seq<Event>, w: Write)
    ensures forall o | o in Seen(tolerance, node, FRESH, es) ::
              o.lamport < NewOp(node, Run(tolerance, node, FRESH, es), w).lamport
  {
    LifetimeIsCovered(tolerance, node, es);
  }

  /** A restart keeps the table but zeroes the clock, after which a stored record need no
      longer be covered: exactly when some record has a counter at all. */
  lemma RestartLosesCover(t: Table)
    ensures Covered(Replica(0, map[], t), []) <==> forall k | k in t :: Make(t[k].vectorClock) == map[]
  {
    forall k | k in t
      ensures Leq(t[k].vectorClock, map[]) <==> Make(t[k].vectorClock) == map[]
    {
      var c := t[k].vectorClock;
      if Leq(c, map[]) {
        forall n
          ensures n !in Make(c)
        {
          assert At(c, n) <= At(map[], n);
        }
      }
      if Make(c) == map[] {
        forall n: NodeId
          ensures At(c, n) <= At(map[], n)
        {
          assert n !in Make(c);
        }
      }
    }
  }

  // ----- The record table

  /** Whether an event writes the record `k`. */
  predicate Touches(tolerance: real, node: NodeId, rep: Replica, e: Event, k: Key) {
    match e
    case Local(w) => w.key == k
    case Remote(op) => op.key == k && Accepts(tolerance, Lookup(rep.table, k), op)
  }

  function TouchCount(tolerance: real, node: NodeId, rep: Replica, es: seq<Event>, k: Key): nat {
    if es == [] then 0
    else
      var front := es[..|es| - 1];
      TouchCount(tolerance, node, rep, front, k)
      + if Touches(tolerance, node, Run(tolerance, node, rep, front), es[|es| - 1], k) then 1 else 0
  }

  /** One event: an untouched record stays as it is; a touched one takes the operation's
      clock, time and author; and a live record gives way to a remote operation only if
      that operation's version beats its own, hence never to an older or equal clock. */
  lemma EventOnRecord(tolerance: real, node: NodeId, rep: Replica, e: Event, k: Key)
    ensures var rep' := Perform(tolerance, node, rep, e);
            var op := OpOf(node, rep, e);
            && (!Touches(tolerance, node, rep, e, k) ==> Lookup(rep'.table, k) == Lookup(rep.table, k))
            && (Touches(tolerance, node, rep, e, k) ==>
                  && k in rep'.table && VersionOf(rep'.table[k]) == VersionOfOp(op)
                  && (k in rep.table ==> rep'.table[k].version == rep.table[k].version + 1))
            && (Touches(tolerance, node, rep, e, k) && IsLive(Lookup(rep.table, k)) ==>
                  && Order(rep.table[k].vectorClock, rep'.table[k].vectorClock) in {Comparison.Before, Comparison.Concurrent}
                  && (e.Local? ==> Order(rep.table[k].vectorClock, rep'.table[k].vectorClock).Before?))
  {
    if e.Local? {
      WriteAdvances(node, rep, e.w);
    }
  }

  /** Keys never vanish, and a record's version counts the writes it took. */
  lemma {:induction false} VersionsCountWrites(tolerance: real, node: NodeId, rep: Replica, es: seq<Event>, k: Key)
    requires k in rep.table
    ensures var end := Run(tolerance, node, rep, es);
            k in end.table && end.table[k].version == rep.table[k].version + TouchCount(tolerance, node, rep, es, k)
  {
    if es != [] {
      var front := es[..|es| - 1];
      VersionsCountWrites(tolerance, node, rep, front, k);
      EventOnRecord(tolerance, node, Run(tolerance, node, rep, front), es[|es| - 1], k);
    }
  }

  /** A run that does not touch a record leaves it alone. */
  lemma {:induction false} UntouchedStays(tolerance: real, node: NodeId, rep: Replica, es: seq<Event>, k: Key)
    ensures TouchCount(tolerance, node, rep, es, k) == 0 ==>
              Lookup(Run(tolerance, node, rep, es).table, k) == Lookup(rep.table, k)
  {
    if es != [] {
      var front := es[..|es| - 1];
      UntouchedStays(tolerance, node, rep, front, k);
      EventOnRecord(tolerance, node, Run(tolerance, node, rep, front), es[|es| - 1], k);
    }
  }

  /** An accepted operation stores its own clock, not the merge with the old one. A node's
      own counter on a live record can therefore go down, but only when the record lost a
      concurrent conflict. */
  lemma OwnCounterDropsOnlyByLosing(tolerance: real, node: NodeId, rep: Replica, op: Operation)
    requires IsLive(Lookup(rep.table, op.key))
    requires At(ReceiveOne(tolerance, rep, op).table[op.key].vectorClock, node) < At(rep.table[op.key].vectorClock, node)
    ensures Order(rep.table[op.key].vectorClock, op.vectorClock).Concurrent?
    ensures Beats(tolerance, VersionOfOp(op), VersionOf(rep.table[op.key]))
  {
    OrderDecides(rep.table[op.key].vectorClock, op.vectorClock);
  }
}
