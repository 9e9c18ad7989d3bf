/** When a set of operations on a record converges, from any record: missing, deleted or live.
    A live record can hold operations off, so only those count that it can come to take. */
module AnyStart {
  import opened Models
  import opened VectorClocks
  import opened Store
  import opened Conflict
  import opened Replicas
  import opened Convergence

  /** What a record shows to the resolver: nothing, or a version. */
  function Showing(r: Option<Record>): Option<Version> {
    if IsLive(r) then Some(VersionOf(r.value)) else None
  }

  predicate Follows(tolerance: real, shown: Option<Version>, o: Operation) {
    if shown.Some? then Beats(tolerance, VersionOfOp(o), shown.value) else !o.kind.Delete?
  }

  /** What is shown after a route of operations, each of which was taken. */
  function After(start: Option<Version>, route: seq<Operation>): Option<Version> {
    if route == [] then start
    else if route[|route| - 1].kind.Delete? then None
    else Some(VersionOfOp(route[|route| - 1]))
  }

  /** Each operation of the route is taken where the ones before it have led. */
  predicate IsRoute(tolerance: real, start: Option<Version>, route: seq<Operation>) {
    route == [] || (IsRoute(tolerance, start, route[..|route| - 1])
                    && Follows(tolerance, After(start, route[..|route| - 1]), route[|route| - 1]))
  }

  ghost predicate RouteIn(tolerance: real, start: Option<Version>, s: set<Operation>, route: seq<Operation>) {
    IsRoute(tolerance, start, route) && forall o | o in route :: o in s
  }

  ghost predicate Reachable(tolerance: real, start: Option<Version>, s: set<Operation>, o: Operation) {
    exists route :: RouteIn(tolerance, start, s, route + [o])
  }

  /** The deletes of `s`, and the operations that the record can come to show. */
  ghost function Reached(tolerance: real, start: Option<Version>, s: set<Operation>): set<Operation> {
    set o | o in s && (o.kind.Delete? || Reachable(tolerance, start, s, o))
  }

  /** Some operation settles the record among those it can come to show, and wins against
      what it shows at first. */
  ghost predicate SettlesFrom(tolerance: real, r: Option<Record>, s: set<Operation>, m: Operation) {
    Settles(tolerance, r, Reached(tolerance, Showing(r), s), m) && Follows(tolerance, Showing(r), m)
  }

  ghost predicate CanonicalFrom(tolerance: real, r: Option<Record>, s: set<Operation>) {
    Shown(Reached(tolerance, Showing(r), s)) == {} || exists m :: SettlesFrom(tolerance, r, s, m)
  }

  // ----- Routes and deliveries

  lemma RouteStep(tolerance: real, start: Option<Version>, s: set<Operation>, route: seq<Operation>, o: Operation)
    ensures RouteIn(tolerance, start, s, route + [o]) <==>
            RouteIn(tolerance, start, s, route) && o in s && Follows(tolerance, After(start, route), o)
    ensures After(start, route + [o]) == if o.kind.Delete? then None else Some(VersionOfOp(o))
  {
    assert (route + [o])[..|route|] == route && (route + [o])[|route|] == o;
    assert forall x :: x in route + [o] <==> x in route || x == o;
  }

  /** A delivery shows where some route leads; an empty route means that nothing was taken. */
  ghost predicate OnRoute(tolerance: real, r: Option<Record>, s: set<Operation>, x: Option<Record>, route: seq<Operation>) {
    RouteIn(tolerance, Showing(r), s, route) && Showing(x) == After(Showing(r), route) && (route == [] ==> x == r)
  }

  lemma TakesExactlyIf(tolerance: real, x: Option<Record>, o: Operation)
    ensures Accepts(tolerance, x, o) <==> Follows(tolerance, Showing(x), o)
    ensures Accepts(tolerance, x, o) ==> Showing(DeliverToRecord(tolerance, x, o)) == if o.kind.Delete? then None else Some(VersionOfOp(o))
    ensures !Accepts(tolerance, x, o) ==> DeliverToRecord(tolerance, x, o) == x
  {
    DeliveryStep(tolerance, x, o);
  }

  lemma OnRouteStep(tolerance: real, r: Option<Record>, s: set<Operation>, x: Option<Record>, route: seq<Operation>, o: Operation)
    requires OnRoute(tolerance, r, s, x, route) && o in s
    ensures OnRoute(tolerance, r, s, DeliverToRecord(tolerance, x, o), if Accepts(tolerance, x, o) then route + [o] else route)
  {
    TakesExactlyIf(tolerance, x, o);
    RouteStep(tolerance, Showing(r), s, route, o);
  }

  lemma {:induction false} RunHasRoute(tolerance: real, r: Option<Record>, s: set<Operation>, x: Option<Record>, route: seq<Operation>, ds: seq<Operation>)
    returns (longer: seq<Operation>)
    requires OnRoute(tolerance, r, s, x, route) && forall o | o in ds :: o in s
    ensures OnRoute(tolerance, r, s, DeliverAllToRecord(tolerance, x, ds), longer) && |longer| >= |route|
  {
    if ds == [] {
      longer := route;
    } else {
      var front, last := ds[..|ds| - 1], ds[|ds| - 1];
      assert ds == front + [last] && last in ds;
      longer := RunHasRoute(tolerance, r, s, x, route, front);
      var y := DeliverAllToRecord(tolerance, x, front);
      OnRouteStep(tolerance, r, s, y, longer, last);
      longer := if Accepts(tolerance, y, last) then longer + [last] else longer;
    }
  }

  /** Delivering a route takes all of it. */
  lemma {:induction false} RouteIsTaken(tolerance: real, r: Option<Record>, s: set<Operation>, route: seq<Operation>)
    requires RouteIn(tolerance, Showing(r), s, route)
    ensures OnRoute(tolerance, r, s, DeliverAllToRecord(tolerance, r, route), route)
  {
    if route != [] {
      var front, last := route[..|route| - 1], route[|route| - 1];
      assert route == front + [last];
      RouteStep(tolerance, Showing(r), s, front, last);
      RouteIsTaken(tolerance, r, s, front);
      var x := DeliverAllToRecord(tolerance, r, front);
      TakesExactlyIf(tolerance, x, last);
      OnRouteStep(tolerance, r, s, x, front, last);
    }
  }

  // ----- From the condition to the common view

  lemma SettlesRunStep(tolerance: real, r: Option<Record>, s: set<Operation>, m: Operation, x: Option<Record>, route: seq<Operation>, o: Operation)
    requires SettlesFrom(tolerance, r, s, m) && OnRoute(tolerance, r, s, x, route) && o in s
    requires Settled(r, x, m) || Open(tolerance, r, Reached(tolerance, Showing(r), s), x, m)
    ensures var y := DeliverToRecord(tolerance, x, o);
            && (Settled(r, x, m) ==> Settled(r, y, m))
            && (Settled(r, y, m) || (o != m && Open(tolerance, r, Reached(tolerance, Showing(r), s), y, m)))
  {
    var reached := Reached(tolerance, Showing(r), s);
    TakesExactlyIf(tolerance, x, o);
    RouteStep(tolerance, Showing(r), s, route, o);
    if o in reached {
      if Settled(r, x, m) {
        SettledStays(tolerance, r, reached, x, m, o);
      } else if !o.kind.Delete? && SameVersion(o, m) {
        CopySettles(tolerance, r, reached, x, m, o);
      } else {
        OtherStaysOpen(tolerance, r, reached, x, m, o);
      }
    } else {
      assert !Accepts(tolerance, x, o);
    }
  }

  /** Before `m` has been delivered the way to it is open, and then the record is settled. */
  ghost predicate Underway(tolerance: real, r: Option<Record>, s: set<Operation>, m: Operation, x: Option<Record>, ds: seq<Operation>) {
    Settled(r, x, m) || (m !in ds && Open(tolerance, r, Reached(tolerance, Showing(r), s), x, m))
  }

  lemma UnderwayStep(tolerance: real, r: Option<Record>, s: set<Operation>, m: Operation, x: Option<Record>, route: seq<Operation>,
                     front: seq<Operation>, last: Operation)
    requires SettlesFrom(tolerance, r, s, m) && OnRoute(tolerance, r, s, x, route) && last in s && Underway(tolerance, r, s, m, x, front)
    ensures Underway(tolerance, r, s, m, DeliverToRecord(tolerance, x, last), front + [last])
  {
    SettlesRunStep(tolerance, r, s, m, x, route, last);
  }

  lemma UnderwayAtFirst(tolerance: real, r: Option<Record>, s: set<Operation>, m: Operation)
    requires SettlesFrom(tolerance, r, s, m)
    ensures Underway(tolerance, r, s, m, r, [])
  {
  }

  lemma {:induction false} SettlesRun(tolerance: real, r: Option<Record>, s: set<Operation>, m: Operation, ds: seq<Operation>)
    requires SettlesFrom(tolerance, r, s, m) && forall o | o in ds :: o in s
    ensures Underway(tolerance, r, s, m, DeliverAllToRecord(tolerance, r, ds), ds)
  {
    if ds == [] {
      UnderwayAtFirst(tolerance, r, s, m);
    } else {
      var front, last := ds[..|ds| - 1], ds[|ds| - 1];
      assert ds == front + [last] && last in ds;
      SettlesRun(tolerance, r, s, m, front);
      EmptyRoute(tolerance, r, s);
      var route := RunHasRoute(tolerance, r, s, r, [], front);
      UnderwayStep(tolerance, r, s, m, DeliverAllToRecord(tolerance, r, front), route, front, last);
    }
  }

  lemma EmptyRoute(tolerance: real, r: Option<Record>, s: set<Operation>)
    ensures OnRoute(tolerance, r, s, r, [])
  {
  }

  lemma SettlesFromEndsIn(tolerance: real, r: Option<Record>, s: set<Operation>, m: Operation)
    requires SettlesFrom(tolerance, r, s, m)
    ensures AlwaysEndsIn(tolerance, r, s, ViewOf(Some(Applied(r, m))))
  {
    forall ds | Covers(ds, s)
      ensures ViewOf(DeliverAllToRecord(tolerance, r, ds)) == ViewOf(Some(Applied(r, m)))
    {
      SettlesRun(tolerance, r, s, m, ds);
    }
  }

  /** When nothing can come to be shown, the record stays, or a delete takes it away and
      nothing is left to bring it back. */
  lemma DeletedOrKept(tolerance: real, r: Option<Record>, s: set<Operation>, ds: seq<Operation>)
    requires Shown(Reached(tolerance, Showing(r), s)) == {} && Covers(ds, s)
    ensures ViewOf(DeliverAllToRecord(tolerance, r, ds)) ==
            if exists o :: o in s && Follows(tolerance, Showing(r), o) then Gone else ViewOf(r)
  {
    var x := DeliverAllToRecord(tolerance, r, ds);
    var route := RunHasRoute(tolerance, r, s, r, [], ds);
    RouteEndsInDelete(tolerance, r, s, route);
    if o :| o in s && Follows(tolerance, Showing(r), o) {
      FirstFollows(tolerance, r, s, ds, o);
    } else if route != [] {
      FirstOfRoute(tolerance, Showing(r), s, route);
    }
  }

  lemma RouteEndsInDelete(tolerance: real, r: Option<Record>, s: set<Operation>, route: seq<Operation>)
    requires Shown(Reached(tolerance, Showing(r), s)) == {} && RouteIn(tolerance, Showing(r), s, route)
    ensures route != [] ==> route[|route| - 1].kind.Delete?
  {
    if route != [] {
      var front, last := route[..|route| - 1], route[|route| - 1];
      assert route == front + [last] && last in route;
      assert Reachable(tolerance, Showing(r), s, last);
      assert last.kind.Delete? || last in Shown(Reached(tolerance, Showing(r), s));
    }
  }

  lemma {:induction false} FirstOfRoute(tolerance: real, start: Option<Version>, s: set<Operation>, route: seq<Operation>)
    requires RouteIn(tolerance, start, s, route) && route != []
    ensures route[0] in s && Follows(tolerance, start, route[0])
  {
    var front, last := route[..|route| - 1], route[|route| - 1];
    assert route == front + [last];
    RouteStep(tolerance, start, s, front, last);
    if front != [] {
      FirstOfRoute(tolerance, start, s, front);
    }
  }

  /** If something wins against what is shown at first, a full delivery takes something. */
  lemma {:induction false} FirstFollows(tolerance: real, r: Option<Record>, s: set<Operation>, ds: seq<Operation>, o: Operation)
    requires Shown(Reached(tolerance, Showing(r), s)) == {} && (forall x | x in ds :: x in s) && o in ds
    requires Follows(tolerance, Showing(r), o)
    ensures !IsLive(DeliverAllToRecord(tolerance, r, ds))
  {
    var front, last := ds[..|ds| - 1], ds[|ds| - 1];
    assert ds == front + [last] && last in ds && forall x | x in front :: x in ds;
    var x := DeliverAllToRecord(tolerance, r, front);
    var route := RunHasRoute(tolerance, r, s, r, [], front);
    OnRouteStep(tolerance, r, s, x, route, last);
    RouteEndsInDelete(tolerance, r, s, if Accepts(tolerance, x, last) then route + [last] else route);
    TakesExactlyIf(tolerance, x, last);
    if o in front {
      FirstFollows(tolerance, r, s, front, o);
    }
  }

  // ----- From the common view to the condition

  /** Delivered after a route, a copy of the common operation must leave the common data. */
  lemma CommonDataOnRoute(tolerance: real, r: Option<Record>, s: set<Operation>, v: View, m: Operation, route: seq<Operation>, c: Operation)
    requires AlwaysEndsIn(tolerance, r, s, v) && v.Live? && RouteIn(tolerance, Showing(r), s, route)
    requires forall o | o in s :: !Wins(tolerance, o, m)
    requires c in Shown(s) && SameVersion(c, m) && Follows(tolerance, After(Showing(r), route), c)
    ensures DataAfter(DeliverAllToRecord(tolerance, r, route), c) == v.data
  {
    RouteIsTaken(tolerance, r, s, route);
    TakesExactlyIf(tolerance, DeliverAllToRecord(tolerance, r, route), c);
    CommonData(tolerance, r, s, v, m, route, c);
  }

  /** What a route and then others bring cannot avoid `m`, so `m` wins against where the
      route leads. */
  lemma CommonWinsOnRoute(tolerance: real, r: Option<Record>, s: set<Operation>, v: View, m: Operation, route: seq<Operation>)
    requires AlwaysEndsIn(tolerance, r, s, v) && RouteIn(tolerance, Showing(r), s, route)
    requires v.Live? && Version(v.clock, v.timestamp, v.author) == VersionOfOp(m) && m in Shown(s)
    requires After(Showing(r), route) != Some(VersionOfOp(m))
    ensures Follows(tolerance, After(Showing(r), route), m)
  {
    var x := DeliverAllToRecord(tolerance, r, route);
    var copies := Enumerate(set o | o in s && SameVersion(o, m));
    var others := Enumerate(set o | o in s && !SameVersion(o, m));
    RouteIsTaken(tolerance, r, s, route);
    RouteCovers(tolerance, Showing(r), s, m, route, copies, others);
    assert ViewOf(DeliverAllToRecord(tolerance, r, route + copies + others)) == v;
    if IsLive(x) && !Follows(tolerance, Showing(x), m) {
      UnbeatenStays(tolerance, x, copies);
      VersionStaysAway(tolerance, x, others, VersionOfOp(m));
      DeliverAllConcat(tolerance, r, route, copies);
      DeliverAllConcat(tolerance, r, route + copies, others);
    }
  }

  lemma RouteCovers(tolerance: real, start: Option<Version>, s: set<Operation>, m: Operation, route: seq<Operation>,
                    copies: seq<Operation>, others: seq<Operation>)
    requires RouteIn(tolerance, start, s, route)
    requires Covers(copies, set o | o in s && SameVersion(o, m))
    requires Covers(others, set o | o in s && !SameVersion(o, m))
    ensures Covers(route + copies + others, s)
  {
  }

  /** A run that has taken something shows one of the operations that the record can come to
      show, if it shows anything. */
  lemma ShowsReached(tolerance: real, r: Option<Record>, s: set<Operation>, x: Option<Record>, route: seq<Operation>) returns (m: Operation)
    requires OnRoute(tolerance, r, s, x, route) && route != [] && IsLive(x)
    ensures m in Shown(Reached(tolerance, Showing(r), s)) && VersionOf(x.value) == VersionOfOp(m)
  {
    m := route[|route| - 1];
    assert route == route[..|route| - 1] + [m] && m in route;
    assert Reachable(tolerance, Showing(r), s, m);
  }

  /** A common view is not that of a deleted record, if there is something to show. */
  lemma CommonViewIsLive(tolerance: real, r: Option<Record>, s: set<Operation>, v: View, ds: seq<Operation>, o: Operation)
    requires AlwaysEndsIn(tolerance, r, s, v) && Covers(ds, s) && o in Shown(s)
    ensures v.Live? && ViewOf(DeliverAllToRecord(tolerance, r, ds)) == v
  {
    var x := DeliverAllToRecord(tolerance, r, ds);
    assert ViewOf(x) == v;
    DeliverLast(tolerance, r, s, ds, o);
    assert ViewOf(DeliverToRecord(tolerance, x, o)) == v;
    DeliveryStep(tolerance, x, o);
  }

  /** The operation whose version the common view has, as one that the record comes to show. */
  lemma CommonViewIsReached(tolerance: real, r: Option<Record>, s: set<Operation>, v: View) returns (m: Operation)
    requires Shown(Reached(tolerance, Showing(r), s)) != {} && AlwaysEndsIn(tolerance, r, s, v)
    ensures m in Shown(Reached(tolerance, Showing(r), s))
    ensures v.Live? && Version(v.clock, v.timestamp, v.author) == VersionOfOp(m)
  {
    var o :| o in Shown(Reached(tolerance, Showing(r), s));
    var front :| RouteIn(tolerance, Showing(r), s, front + [o]);
    var route := front + [o];
    RouteIsTaken(tolerance, r, s, route);
    var ds := DeliverFirst(tolerance, r, s, route);
    CommonViewIsLive(tolerance, r, s, v, route + ds, o);
    var longer := RunHasRoute(tolerance, r, s, DeliverAllToRecord(tolerance, r, route), route, ds);
    m := ShowsReached(tolerance, r, s, DeliverAllToRecord(tolerance, r, route + ds), longer);
  }

  /** The record does not show the common version at first: something wins against what it
      shows, and nothing against the common version. */
  lemma StartIsOther(tolerance: real, start: Option<Version>, s: set<Operation>, m: Operation)
    requires Shown(Reached(tolerance, start, s)) != {} && forall o | o in s :: !Wins(tolerance, o, m)
    ensures start != Some(VersionOfOp(m))
  {
    var o :| o in Shown(Reached(tolerance, start, s));
    var front :| RouteIn(tolerance, start, s, front + [o]);
    FirstOfRoute(tolerance, start, s, front + [o]);
  }

  lemma PairOnRoute(tolerance: real, r: Option<Record>, s: set<Operation>, v: View, m: Operation, c: Operation, o: Operation)
    requires AlwaysEndsIn(tolerance, r, s, v) && v.Live? && forall x | x in s :: !Wins(tolerance, x, m)
    requires c in Shown(s) && SameVersion(c, m) && DataAfter(r, c) == v.data
    requires Reachable(tolerance, Showing(r), s, o) && !o.kind.Delete? && Wins(tolerance, m, o)
    ensures DataAfter(Some(Applied(r, o)), c) == v.data
  {
    var front :| RouteIn(tolerance, Showing(r), s, front + [o]);
    RouteStep(tolerance, Showing(r), s, front, o);
    CommonDataOnRoute(tolerance, r, s, v, m, front + [o], c);
    RouteIsTaken(tolerance, r, s, front);
    var x := DeliverAllToRecord(tolerance, r, front);
    TakesExactlyIf(tolerance, x, o);
    assert (front + [o])[..|front|] == front;
    assert DeliverAllToRecord(tolerance, r, front + [o]) == Some(Applied(x, o));
    if c.kind.Merge? && o.kind.Merge? {
      OverlaidTwice(BaseData(r), BaseData(x), o.payload, c.payload, v.data);
    }
  }

  lemma CommonViewSettlesFrom(tolerance: real, r: Option<Record>, s: set<Operation>, v: View)
    requires Shown(Reached(tolerance, Showing(r), s)) != {} && AlwaysEndsIn(tolerance, r, s, v)
    ensures exists m :: SettlesFrom(tolerance, r, s, m)
  {
    var reached := Reached(tolerance, Showing(r), s);
    var m := CommonViewIsReached(tolerance, r, s, v);
    forall o | o in s
      ensures !Wins(tolerance, o, m)
    {
      CommonViewUnbeaten(tolerance, r, s, v, m, o);
    }
    StartIsOther(tolerance, Showing(r), s, m);
    assert RouteIn(tolerance, Showing(r), s, []);
    CommonWinsOnRoute(tolerance, r, s, v, m, []);
    forall o | o in Shown(reached) && !SameVersion(o, m)
      ensures Wins(tolerance, m, o)
    {
      var front :| RouteIn(tolerance, Showing(r), s, front + [o]);
      RouteStep(tolerance, Showing(r), s, front, o);
      CommonWinsOnRoute(tolerance, r, s, v, m, front + [o]);
    }
    forall c | c in Shown(reached) && SameVersion(c, m)
      ensures DataAfter(r, c) == v.data
    {
      CommonDataOnRoute(tolerance, r, s, v, m, [], c);
    }
    forall c, o | c in Shown(reached) && SameVersion(c, m) && o in Shown(reached) && !SameVersion(o, m)
      ensures DataAfter(Some(Applied(r, o)), c) == v.data
    {
      PairOnRoute(tolerance, r, s, v, m, c, o);
    }
    assert WinsOver(tolerance, reached, m) && DataIsFixed(r, reached, m);
    assert SettlesFrom(tolerance, r, s, m);
  }

  /** From any record, a set of operations of the four kinds ends in one view, whatever the
      delivery order and the repetitions, exactly when the record can come to show none of
      them, or one of those that it can come to show settles it. */
  lemma ConvergesFromAnyRecord(tolerance: real, r: Option<Record>, s: set<Operation>)
    ensures Converges(tolerance, r, s) <==> CanonicalFrom(tolerance, r, s)
  {
    if m :| SettlesFrom(tolerance, r, s, m) {
      SettlesFromEndsIn(tolerance, r, s, m);
    }
    if Shown(Reached(tolerance, Showing(r), s)) == {} {
      forall ds | Covers(ds, s)
        ensures ViewOf(DeliverAllToRecord(tolerance, r, ds)) ==
                if exists o :: o in s && Follows(tolerance, Showing(r), o) then Gone else ViewOf(r)
      {
        DeletedOrKept(tolerance, r, s, ds);
      }
      assert AlwaysEndsIn(tolerance, r, s, if exists o :: o in s && Follows(tolerance, Showing(r), o) then Gone else ViewOf(r));
    } else if v :| AlwaysEndsIn(tolerance, r, s, v) {
      CommonViewSettlesFrom(tolerance, r, s, v);
    }
  }

  /** Two replicas that hold the same record `k`, or both none, and receive the same operations
      on it in different orders and batches, among other traffic, show the same record. */
  lemma ReplicasConvergeFromAny(tolerance: real, a: Replica, b: Replica, xs: seq<Operation>, ys: seq<Operation>, k: Key)
    requires Lookup(a.table, k) == Lookup(b.table, k)
    requires OpsOn(xs, k) == OpsOn(ys, k) && CanonicalFrom(tolerance, Lookup(a.table, k), OpsOn(xs, k))
    ensures ViewOf(Lookup(Receive(tolerance, a, xs).table, k)) == ViewOf(Lookup(Receive(tolerance, b, ys).table, k))
  {
    var s := OpsOn(xs, k);
    ReceiveRecord(tolerance, a, xs, k);
    ReceiveRecord(tolerance, b, ys, k);
    OnKeyCovers(xs, k);
    OnKeyCovers(ys, k);
    ConvergesFromAnyRecord(tolerance, Lookup(a.table, k), s);
    var v :| AlwaysEndsIn(tolerance, Lookup(a.table, k), s, v);
    assert ViewOf(DeliverAllToRecord(tolerance, Lookup(a.table, k), OnKey(xs, k))) == v;
    assert ViewOf(DeliverAllToRecord(tolerance, Lookup(a.table, k), OnKey(ys, k))) == v;
  }
}
