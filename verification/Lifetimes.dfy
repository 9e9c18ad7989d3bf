/** Runs of a whole edge node: what its clock covers over a lifetime, and how its outbox
    drains against a working server. */
module Lifetimes {
  import opened Models
  import opened VectorClocks
  import opened Replicas
  import opened Protocol
  import opened Outbox
  import opened Scheduling
  import opened Server
  import opened Engine
  import opened AtLeastOnce
  import Runs
  import Sync

  // ----- The global clock over an engine's lifetime

  /** The local writes and pulled operations of one step, in order. A pull that raises in
      the middle counts up to that point. */
  function EventsOf(u: Setup, w: World, step: Step): seq<Runs.Event> {
    match step
    case WriteStep(wr) => [Runs.Local(wr)]
    case SyncStep(link, now) =>
      if link.Down? then []
      else
        var answer := SyncAnswer(u.config, u.serverConfig, u.node, w.edge, w.server, link);
        if answer.Answered? && answer.resp.ok then Runs.Remotes(Pulled(answer.resp)) else []
    case _ => []
  }

  function History(u: Setup, w: World, steps: seq<Step>): seq<Runs.Event> {
    if steps == [] then []
    else
      var front := steps[..|steps| - 1];
      History(u, w, front) + EventsOf(u, RunAll(u, w, front), steps[|steps| - 1])
  }

  lemma StepIsRun(u: Setup, w: World, step: Step)
    requires !step.RestartStep?
    ensures Next(u, w, step).edge.rep == Runs.Run(u.config.tolerance, u.node, w.edge.rep, EventsOf(u, w, step))
  {
    match step
    case WriteStep(wr) =>
      assert [Runs.Local(wr)][..0] == [];
    case SyncStep(link, now) =>
      if link.Up? {
        var batch := Pushed(u.config, w.edge, link.bandwidth);
        FinishIsRun(u, w.edge, batch, SyncAnswer(u.config, u.serverConfig, u.node, w.edge, w.server, link), now);
      }
    case _ =>
  }

  lemma FinishIsRun(u: Setup, e: EdgeState, batch: seq<Operation>, answer: Answer, now: real)
    ensures Finish(u.config.tolerance, e, batch, answer, now).rep ==
            Runs.Run(u.config.tolerance, u.node, e.rep,
                     if answer.Answered? && answer.resp.ok then Runs.Remotes(Pulled(answer.resp)) else [])
  {
    if answer.Answered? && answer.resp.ok {
      Runs.ReceiveIsRun(u.config.tolerance, u.node, e.rep, Pulled(answer.resp));
    }
  }

  lemma {:induction false} LifetimeIsRun(u: Setup, w: World, steps: seq<Step>)
    requires RestartStep !in steps
    ensures RunAll(u, w, steps).edge.rep == Runs.Run(u.config.tolerance, u.node, w.edge.rep, History(u, w, steps))
  {
    if steps != [] {
      var front, last := steps[..|steps| - 1], steps[|steps| - 1];
      assert last in steps;
      LifetimeIsRun(u, w, front);
      var mid := RunAll(u, w, front);
      StepIsRun(u, mid, last);
      Runs.RunConcat(u.config.tolerance, u.node, w.edge.rep, History(u, w, front), EventsOf(u, mid, last));
    }
  }

  /** Between its start on an empty database and the next restart, whatever its syncs came
      to, an engine's clock covers every record it stores and every operation it created
      or pulled, and its next operation's Lamport value exceeds all of theirs. */
  lemma EngineClockCovers(u: Setup, w: World, steps: seq<Step>, wr: Write)
    requires w.edge.rep == FRESH && RestartStep !in steps
    ensures var end := RunAll(u, w, steps).edge.rep;
            var seen := Runs.Seen(u.config.tolerance, u.node, FRESH, History(u, w, steps));
            && Runs.Covered(end, seen)
            && forall o | o in seen :: o.lamport < NewOp(u.node, end, wr).lamport
  {
    LifetimeIsRun(u, w, steps);
    Runs.LifetimeIsCovered(u.config.tolerance, u.node, History(u, w, steps));
    Runs.NextLamportIsLargest(u.config.tolerance, u.node, History(u, w, steps), wr);
  }

  /** Its clock is the least that does so: it claims to know nothing but what the engine has
      created or pulled since it started. */
  lemma EngineClockIsLeast(u: Setup, w: World, steps: seq<Step>, d: RawClock)
    requires RestartStep !in steps
    ensures Leq(RunAll(u, w, steps).edge.rep.clock, d) <==>
            && Leq(w.edge.rep.clock, d)
            && forall o | o in Runs.Seen(u.config.tolerance, u.node, w.edge.rep, History(u, w, steps)) :: Leq(o.vectorClock, d)
  {
    LifetimeIsRun(u, w, steps);
    Runs.RunClockIsLeast(u.config.tolerance, u.node, w.edge.rep, History(u, w, steps), d);
  }

  // ----- Draining against a working server

  function DeliveredSyncs(c: Config, sc: ServerConfig, node: NodeId, e: EdgeState, s: ServerState, bandwidth: int, times: seq<real>)
    : (EdgeState, ServerState)
  {
    if times == [] then (e, s)
    else
      var (e', s') := DeliveredSyncs(c, sc, node, e, s, bandwidth, times[..|times| - 1]);
      (SyncEdge(c, sc, node, e', s', Up(bandwidth, Delivered), times[|times| - 1]),
       SyncServer(c, sc, node, e', s', Up(bandwidth, Delivered)))
  }

  lemma {:induction false} DeliveredSyncsRows(c: Config, sc: ServerConfig, node: NodeId, e: EdgeState, s: ServerState,
                                              bandwidth: int, times: seq<real>)
    requires !(sc.registrationRequired && node !in s.registered)
    ensures var (e', s') := DeliveredSyncs(c, sc, node, e, s, bandwidth, times);
            && e'.rows == AfterSyncs(c, e.rows, bandwidth, times)
            && !(sc.registrationRequired && node !in s'.registered)
  {
    if times != [] {
      var n := |times|;
      DeliveredSyncsRows(c, sc, node, e, s, bandwidth, times[..n - 1]);
      var (e', s') := DeliveredSyncs(c, sc, node, e, s, bandwidth, times[..n - 1]);
      Sync.ReplicasAfterSync(c, sc, node, e', s', bandwidth, times[n - 1]);
    }
  }

  /** Against a server that answers, the eligible operations are all acknowledged after
      exactly the rounded-up quotient of their number and the batch size. */
  lemma OutboxDrains(c: Config, sc: ServerConfig, node: NodeId, e: EdgeState, s: ServerState, bandwidth: int, times: seq<real>)
    requires !(sc.registrationRequired && node !in s.registered)
    requires UniqueIds(e.rows) && BatchSize(c, bandwidth) >= 1
    ensures var k := BatchSize(c, bandwidth);
            var (e', _) := DeliveredSyncs(c, sc, node, e, s, bandwidth, times);
            Eligible(c, e'.rows, bandwidth) == 0 <==> |times| >= Rounds(Eligible(c, e.rows, bandwidth), k)
  {
    DeliveredSyncsRows(c, sc, node, e, s, bandwidth, times);
    DrainBound(c, e.rows, bandwidth, times);
  }
}
