/** When operations on a record that were sent in some order can be sent again in that order
    without changing what the record shows. */
module Resending {
  import opened Models
  import opened VectorClocks
  import opened Store
  import opened Conflict
  import opened Replicas
  import opened Resend
  import opened Reordering
  import StringOrder

  // ----- Sending again

  ghost predicate SameAuthor(w: seq<Operation>) {
    forall a, b | a in w && b in w :: a.nodeId == b.nodeId
  }

  ghost predicate NoDeletes(w: seq<Operation>) {
    forall o | o in w :: !o.kind.Delete?
  }

  ghost predicate NoMergesIn(w: seq<Operation>) {
    forall o | o in w :: !o.kind.Merge?
  }

  /** Some newer operation with no earlier time is delivered before it. */
  ghost predicate HasNewerBefore(w: seq<Operation>, i: int)
    requires 0 <= i < |w|
  {
    exists j :: 0 <= j < i && Earlier(w[i], w[j]) && w[i].timestamp <= w[j].timestamp
  }

  /** That holds of every operation delivered after one that survives. */
  ghost predicate LateOnesAreOld(w: seq<Operation>) {
    forall s, i | Survives(w, s) && s < i < |w| :: HasNewerBefore(w, i)
  }

  /** The record is dead or shows one of the operations. */
  ghost predicate Own(x: Option<Record>, w: seq<Operation>) {
    IsLive(x) ==> exists o :: o in w && !o.kind.Delete? && x.value.vectorClock == o.vectorClock
  }

  lemma {:induction false} OwnStays(tolerance: real, x: Option<Record>, w: seq<Operation>, ds: seq<Operation>)
    requires Own(x, w) && forall o | o in ds :: o in w
    ensures Own(DeliverAllToRecord(tolerance, x, ds), w)
  {
    if ds != [] {
      assert ds[|ds| - 1] in ds;
      assert forall o | o in ds[..|ds| - 1] :: o in ds;
      OwnStays(tolerance, x, w, ds[..|ds| - 1]);
    }
  }

  lemma TopOntoOwn(tolerance: real, x: Option<Record>, w: seq<Operation>, p: int)
    requires CausallyOrdered(w) && IsTop(w, p) && Own(x, w)
    ensures SettledBy(DeliverToRecord(tolerance, x, w[p]), w[p])
  {
    if IsLive(x) {
      var o :| o in w && !o.kind.Delete? && x.value.vectorClock == o.vectorClock;
      var i :| 0 <= i < |w| && w[i] == o;
      if i == p {
        EarlierIsStrict(o, o);
        OrderDecides(o.vectorClock, o.vectorClock);
      } else {
        assert Earlier(w[i], w[p]);
        NextSettles(tolerance, x, o, w[p]);
      }
    }
  }

  lemma {:induction false} TurnedAwayOrOwn(tolerance: real, r: Option<Record>, w: seq<Operation>, ds: seq<Operation>)
    requires IsLive(r) && forall o | o in ds :: o in w
    ensures var y := DeliverAllToRecord(tolerance, r, ds);
            (y == r && AllTurnedAway(tolerance, r, ds)) || Own(y, w)
  {
    if ds != [] {
      var front, last := ds[..|ds| - 1], ds[|ds| - 1];
      assert last in ds && ds == front + [last];
      assert forall o | o in front :: o in ds;
      TurnedAwayOrOwn(tolerance, r, w, front);
      var y := DeliverAllToRecord(tolerance, r, front);
      if Own(y, w) {
        OwnStays(tolerance, y, w, [last]);
        assert [last][..0] == [];
      } else if !Accepts(tolerance, r, last) {
        TurnedAwayToo(tolerance, r, front, last);
      }
    }
  }

  /** A record that shows the newest operation turns all of them away. */
  lemma TopTurnsAway(tolerance: real, y: Option<Record>, w: seq<Operation>, p: int)
    requires IsTop(w, p) && IsLive(y) && y.value.vectorClock == w[p].vectorClock
    ensures AllTurnedAway(tolerance, y, w)
  {
    forall o | o in w
      ensures !Accepts(tolerance, y, o)
    {
      var i :| 0 <= i < |w| && w[i] == o;
      assert i == p || Earlier(w[i], w[p]);
      OrderFlips(o.vectorClock, w[p].vectorClock);
      OrderDecides(o.vectorClock, o.vectorClock);
    }
  }

  lemma NothingAfterTop(tolerance: real, y: Option<Record>, w: seq<Operation>, p: int)
    requires IsTop(w, p) && IsLive(y) && y.value.vectorClock == w[p].vectorClock
    ensures DeliverAllToRecord(tolerance, y, w[p + 1..]) == y == DeliverAllToRecord(tolerance, y, w)
  {
    TopTurnsAway(tolerance, y, w, p);
    assert forall o | o in w[p + 1..] :: o in w;
    NothingAccepted(tolerance, y, w[p + 1..]);
    NothingAccepted(tolerance, y, w);
  }

  /** Once the record is one's own, the newest operation decides. */
  lemma OwnUpToTop(tolerance: real, x: Option<Record>, w: seq<Operation>, p: int)
    requires CausallyOrdered(w) && IsTop(w, p) && Own(x, w)
    ensures SettledBy(DeliverAllToRecord(tolerance, x, w[..p + 1]), w[p])
  {
    assert w[..p + 1][..p] == w[..p];
    assert forall o | o in w[..p] :: o in w;
    OwnStays(tolerance, x, w, w[..p]);
    TopOntoOwn(tolerance, DeliverAllToRecord(tolerance, x, w[..p]), w, p);
  }

  lemma SplitAtTop(tolerance: real, r: Option<Record>, w: seq<Operation>, p: int)
    requires 0 <= p < |w|
    ensures DeliverAllToRecord(tolerance, r, w)
         == DeliverAllToRecord(tolerance, DeliverAllToRecord(tolerance, r, w[..p + 1]), w[p + 1..])
  {
    assert w == w[..p + 1] + w[p + 1..];
    DeliverAllConcat(tolerance, r, w[..p + 1], w[p + 1..]);
  }

  /** If an operation beats a record that a newer operation of the same node and of no
      earlier time does not beat, the newer one has been seen there. So it does not. */
  lemma NewerBeatsToo(tolerance: real, held: Version, older: Operation, newer: Operation)
    requires Earlier(older, newer) && older.nodeId == newer.nodeId && older.timestamp <= newer.timestamp
    requires Beats(tolerance, VersionOfOp(older), held)
    ensures Beats(tolerance, VersionOfOp(newer), held)
  {
    OrderDecides(older.vectorClock, newer.vectorClock);
    OrderDecides(held.clock, older.vectorClock);
    OrderDecides(held.clock, newer.vectorClock);
    if Leq(held.clock, older.vectorClock) {
      LeqTransitive(held.clock, older.vectorClock, newer.vectorClock);
    }
    if Leq(newer.vectorClock, held.clock) {
      LeqTransitive(older.vectorClock, newer.vectorClock, held.clock);
    }
  }

  /** The first operation that a live record takes. */
  lemma {:induction false} FirstTaken(tolerance: real, r: Option<Record>, w: seq<Operation>) returns (i: int)
    requires !AllTurnedAway(tolerance, r, w)
    ensures 0 <= i < |w| && Accepts(tolerance, r, w[i]) && AllTurnedAway(tolerance, r, w[..i])
  {
    var n := |w| - 1;
    if AllTurnedAway(tolerance, r, w[..n]) {
      i := n;
      assert w == w[..n] + [w[n]];
    } else {
      i := FirstTaken(tolerance, r, w[..n]);
      assert w[..n][..i] == w[..i];
    }
  }

  /** A record that turned away a newer operation with no earlier time turns this one away. */
  lemma NewerTurnedAway(tolerance: real, r: Option<Record>, w: seq<Operation>, i: int, j: int)
    requires SameAuthor(w) && IsLive(r) && 0 <= j < i < |w| && AllTurnedAway(tolerance, r, w[..i])
    requires Earlier(w[i], w[j]) && w[i].timestamp <= w[j].timestamp
    ensures !Accepts(tolerance, r, w[i])
  {
    assert w[j] in w && w[i] in w && w[..i][j] == w[j] && w[..i][j] in w[..i];
    if Accepts(tolerance, r, w[i]) {
      NewerBeatsToo(tolerance, VersionOf(r.value), w[i], w[j]);
    }
  }

  /** Nothing survives before `w[n]`. */
  ghost predicate SurvivorFree(w: seq<Operation>, n: int) {
    forall s | 0 <= s < n :: !Survives(w, s)
  }

  lemma FirstIsNotLate(tolerance: real, r: Option<Record>, w: seq<Operation>, i: int)
    requires SameAuthor(w) && IsLive(r) && 0 <= i < |w| && Accepts(tolerance, r, w[i]) && AllTurnedAway(tolerance, r, w[..i])
    ensures !HasNewerBefore(w, i)
  {
    forall j | 0 <= j < i
      ensures !(Earlier(w[i], w[j]) && w[i].timestamp <= w[j].timestamp)
    {
      if Earlier(w[i], w[j]) && w[i].timestamp <= w[j].timestamp {
        NewerTurnedAway(tolerance, r, w, i, j);
      }
    }
  }

  lemma SuffixSurvives(w: seq<Operation>, n: nat, k: int)
    requires n <= |w|
    ensures Survives(w[n..], k) <==> 0 <= k && Survives(w, n + k)
  {
    if 0 <= k < |w| - n {
      assert w[n..][k] == w[n + k];
      if Survives(w[n..], k) {
        forall j | n + k < j < |w|
          ensures Earlier(w[j], w[n + k])
        {
          assert Earlier(w[n..][j - n], w[n..][k]);
        }
      }
      if Survives(w, n + k) {
        forall j | k < j < |w[n..]|
          ensures Earlier(w[n..][j], w[n..][k])
        {
          assert Earlier(w[n + j], w[n + k]);
        }
      }
    }
  }

  lemma CausalSuffix(w: seq<Operation>, n: nat)
    requires CausallyOrdered(w) && n <= |w|
    ensures CausallyOrdered(w[n..])
  {
    forall i, j | 0 <= i < j < |w| - n
      ensures Earlier(w[n..][i], w[n..][j]) || Earlier(w[n..][j], w[n..][i])
    {
      assert Earlier(w[n + i], w[n + j]) || Earlier(w[n + j], w[n + i]);
    }
  }

  lemma NewestIsOne(w: seq<Operation>, i: int, j: int)
    requires NewestSurvivor(w, i) && NewestSurvivor(w, j)
    ensures i == j
  {
    if i != j {
      EarlierIsStrict(w[i], w[j]);
    }
  }

  lemma NewestInSuffix(w: seq<Operation>, n: nat, i: int)
    requires n <= |w| && NewestSurvivor(w, i) && n <= i
    ensures NewestSurvivor(w[n..], i - n) && w[n..][i - n] == w[i]
  {
    SuffixSurvives(w, n, i - n);
    forall k | Survives(w[n..], k) && k != i - n
      ensures Earlier(w[n..][k], w[n..][i - n])
    {
      SuffixSurvives(w, n, k);
      assert w[n..][k] == w[n + k];
    }
  }

  lemma ShowsTheNewest(y: Option<Record>, w: seq<Operation>, i: int)
    requires ShowsSurvivor(y, w) && NewestSurvivor(w, i)
    ensures ShowsOp(y, w[i])
  {
    var j :| NewestSurvivor(w, j) && ShowsOp(y, w[j]);
    NewestIsOne(w, i, j);
  }

  ghost predicate ResendIsHarmless(tolerance: real, r: Option<Record>, w: seq<Operation>) {
    var once := DeliverAllToRecord(tolerance, r, w);
    ViewOf(DeliverAllToRecord(tolerance, once, w)) == ViewOf(once)
  }

  lemma OwnAfterLateStart(tolerance: real, r: Option<Record>, w: seq<Operation>, i: int)
    requires IsLive(r) && 0 <= i < |w| && AllTurnedAway(tolerance, r, w[..i]) && Accepts(tolerance, r, w[i])
    ensures Own(DeliverAllToRecord(tolerance, r, w), w[i..])
  {
    var rest := w[i..];
    assert rest[0] == w[i] && w == w[..i] + rest;
    NothingAccepted(tolerance, r, w[..i]);
    DeliverAllConcat(tolerance, r, w[..i], rest);
    TurnedAwayOrOwn(tolerance, r, rest, rest);
    assert w[i] in rest;
  }

  ghost predicate ShowsClock(x: Option<Record>, w: seq<Operation>, q: int) {
    IsLive(x) && 0 <= q < |w| && x.value.vectorClock == w[q].vectorClock
  }

  lemma NoneSurvivesUpToTop(w: seq<Operation>, p: int)
    requires IsTop(w, p) && w[p].kind.Delete?
    ensures SurvivorFree(w, p + 1)
  {
    forall s | 0 <= s < p + 1
      ensures !Survives(w, s)
    {
      if s < p {
        assert Earlier(w[s], w[p]);
        EarlierIsStrict(w[s], w[p]);
      }
    }
  }

  lemma NewestOfSuffix(w: seq<Operation>, n: nat, k: int)
    requires n <= |w| && SurvivorFree(w, n) && NewestSurvivor(w[n..], k)
    ensures NewestSurvivor(w, n + k) && w[n..][k] == w[n + k]
  {
    SuffixSurvives(w, n, k);
    forall j | Survives(w, j) && j != n + k
      ensures Earlier(w[j], w[n + k])
    {
      SuffixSurvives(w, n, j - n);
      assert Earlier(w[n..][j - n], w[n..][k]);
    }
  }

  ghost predicate ShowsNewest(x: Option<Record>, w: seq<Operation>) {
    exists q :: NewestSurvivor(w, q) && ShowsClock(x, w, q)
  }

  lemma SurvivorIsShown(x: Option<Record>, w: seq<Operation>, s: int)
    requires ShowsSurvivor(x, w) && Survives(w, s)
    ensures ShowsNewest(x, w)
  {
    var i :| NewestSurvivor(w, i) && ShowsOp(x, w[i]);
    assert ShowsClock(x, w, i);
  }

  lemma NewestFromSuffix(x: Option<Record>, w: seq<Operation>, n: nat)
    requires n <= |w| && SurvivorFree(w, n) && ShowsNewest(x, w[n..])
    ensures ShowsNewest(x, w)
  {
    var k :| NewestSurvivor(w[n..], k) && ShowsClock(x, w[n..], k);
    NewestOfSuffix(w, n, k);
    assert ShowsClock(x, w, n + k);
  }

  lemma SuffixIsShown(x: Option<Record>, w: seq<Operation>, n: nat, s: int)
    requires n <= |w| && SurvivorFree(w, n) && Survives(w, s) && ShowsSurvivor(x, w[n..])
    ensures ShowsNewest(x, w[n..])
  {
    SuffixSurvives(w, n, s - n);
    SurvivorIsShown(x, w[n..], s - n);
  }

  lemma DeadShowsNewest(tolerance: real, y: Option<Record>, w: seq<Operation>, n: nat, s: int)
    requires n <= |w| && CausallyOrdered(w) && SurvivorFree(w, n) && Survives(w, s) && !IsLive(y)
    ensures ShowsNewest(DeliverAllToRecord(tolerance, y, w[n..]), w)
  {
    CausalSuffix(w, n);
    WhatSurvives(tolerance, y, w[n..]);
    SuffixIsShown(DeliverAllToRecord(tolerance, y, w[n..]), w, n, s);
    NewestFromSuffix(DeliverAllToRecord(tolerance, y, w[n..]), w, n);
  }

  lemma TopIsNewest(x: Option<Record>, w: seq<Operation>, p: int)
    requires IsTop(w, p) && !w[p].kind.Delete? && ShowsClock(x, w, p)
    ensures ShowsNewest(x, w)
  {
    assert NewestSurvivor(w, p);
  }

  lemma AfterTopShowsNewest(tolerance: real, y: Option<Record>, w: seq<Operation>, p: int, s: int)
    requires CausallyOrdered(w) && IsTop(w, p) && SettledBy(y, w[p]) && Survives(w, s)
    ensures ShowsNewest(DeliverAllToRecord(tolerance, y, w[p + 1..]), w)
  {
    if IsLive(y) {
      NothingAfterTop(tolerance, y, w, p);
      TopIsNewest(y, w, p);
    } else {
      NoneSurvivesUpToTop(w, p);
      DeadShowsNewest(tolerance, y, w, p + 1, s);
    }
  }

  /** A run that starts on one's own record shows the newest survivor, too. */
  lemma OwnShowsNewest(tolerance: real, x: Option<Record>, w: seq<Operation>, s: int)
    requires CausallyOrdered(w) && Own(x, w) && Survives(w, s)
    ensures ShowsNewest(DeliverAllToRecord(tolerance, x, w), w)
  {
    var p := TopExists(w);
    OwnUpToTop(tolerance, x, w, p);
    SplitAtTop(tolerance, x, w, p);
    AfterTopShowsNewest(tolerance, DeliverAllToRecord(tolerance, x, w[..p + 1]), w, p, s);
  }

  ghost predicate DeadOrBehind(x: Option<Record>, w: seq<Operation>, i: int) {
    IsLive(x) ==> exists k :: i <= k && ShowsClock(x, w, k)
  }

  lemma OwnIsBehind(x: Option<Record>, w: seq<Operation>, i: int)
    requires 0 <= i < |w| && Own(x, w[i..])
    ensures DeadOrBehind(x, w, i) && Own(x, w)
  {
    assert forall o | o in w[i..] :: o in w;
    if IsLive(x) {
      var o :| o in w[i..] && !o.kind.Delete? && x.value.vectorClock == o.vectorClock;
      var k :| 0 <= k < |w[i..]| && w[i..][k] == o;
      assert w[i + k] == o;
      assert ShowsClock(x, w, i + k);
    }
  }

  ghost predicate ShowsBefore(x: Option<Record>, w: seq<Operation>, i: int) {
    exists q :: q < i && ShowsClock(x, w, q)
  }

  lemma NewestBefore(x: Option<Record>, w: seq<Operation>, s: int, i: int)
    requires ShowsNewest(x, w) && Survives(w, s) && s < i
    ensures ShowsBefore(x, w, i)
  {
    var q :| NewestSurvivor(w, q) && ShowsClock(x, w, q);
    NewestIsFirst(w, q, s);
  }

  lemma ClocksTellApart(once: Option<Record>, twice: Option<Record>, w: seq<Operation>, i: int)
    requires CausallyOrdered(w) && DeadOrBehind(once, w, i) && ShowsBefore(twice, w, i)
    ensures ViewOf(once) != ViewOf(twice)
  {
    var q :| q < i && ShowsClock(twice, w, q);
    if IsLive(once) {
      var k :| i <= k && ShowsClock(once, w, k);
      DifferentClocks(w, q, k);
    }
  }

  lemma NewestIsFirst(w: seq<Operation>, q: int, s: int)
    requires NewestSurvivor(w, q) && Survives(w, s)
    ensures q <= s
  {
    if s < q {
      EarlierIsStrict(w[s], w[q]);
    }
  }

  lemma DifferentClocks(w: seq<Operation>, i: int, j: int)
    requires CausallyOrdered(w) && 0 <= i < j < |w|
    ensures w[i].vectorClock != w[j].vectorClock
  {
    EarlierIsStrict(w[i], w[j]);
    EarlierIsStrict(w[i], w[i]);
  }

  // ----- And not otherwise

  lemma {:induction false} LongerName(names: set<NodeId>) returns (n: NodeId)
    ensures forall m | m in names :: |m| < |n|
  {
    if names == {} {
      n := "";
    } else {
      var m :| m in names;
      var k := LongerName(names - {m});
      n := if |m| < |k| then k else m + "'";
    }
  }

  /** A node that none of the operations has heard of, with a name after that of `node`. */
  lemma Stranger(w: seq<Operation>, node: NodeId) returns (n: NodeId)
    ensures StringOrder.Less(node, n) && forall o | o in w :: n !in o.vectorClock
  {
    var names := set o, m | o in w && m in o.vectorClock :: m;
    var longer := LongerName(names);
    n := node + (longer + "'");
    StringOrder.BeginningIsLess(node, longer + "'");
    forall o | o in w
      ensures n !in o.vectorClock
    {
      assert n !in names;
      assert n in o.vectorClock ==> n in names;
    }
  }

  /** Each operation counts for its author, as every write of a node does. */
  ghost predicate Ticked(w: seq<Operation>) {
    forall o | o in w :: At(o.vectorClock, o.nodeId) > 0
  }

  ghost predicate JustBelow(w: seq<Operation>, i: int, n: nat, c: RawClock)
    requires 0 <= i < |w| && n <= |w|
  {
    && !Leq(w[i].vectorClock, c)
    && (forall j | 0 <= j < n && Earlier(w[j], w[i]) :: Leq(w[j].vectorClock, c))
    && (c == map[] || exists j :: 0 <= j < n && c == w[j].vectorClock)
  }

  /** A clock that covers all operations older than `w[i]` among the first `n`, but not
      `w[i]`: the newest of their clocks. */
  lemma {:induction false} ClockJustBelow(w: seq<Operation>, i: int, n: nat) returns (c: RawClock)
    requires CausallyOrdered(w) && Ticked(w) && 0 <= i < |w| && n <= |w|
    ensures JustBelow(w, i, n, c)
  {
    if n == 0 {
      c := map[];
      BelowNone(w, i);
    } else {
      c := ClockJustBelow(w, i, n - 1);
      if Earlier(w[n - 1], w[i]) && !Leq(w[n - 1].vectorClock, c) {
        NewerBelow(w, i, n, c);
        c := w[n - 1].vectorClock;
      } else {
        StillBelow(w, i, n, c);
      }
    }
  }

  lemma BelowNone(w: seq<Operation>, i: int)
    requires Ticked(w) && 0 <= i < |w|
    ensures JustBelow(w, i, 0, map[])
  {
    assert w[i] in w;
    assert At(w[i].vectorClock, w[i].nodeId) > At(map[], w[i].nodeId);
  }

  lemma StillBelow(w: seq<Operation>, i: int, n: nat, c: RawClock)
    requires 0 <= i < |w| && 0 < n <= |w| && JustBelow(w, i, n - 1, c)
    requires Earlier(w[n - 1], w[i]) ==> Leq(w[n - 1].vectorClock, c)
    ensures JustBelow(w, i, n, c)
  {
    if c != map[] {
      var j :| 0 <= j < n - 1 && c == w[j].vectorClock;
      assert 0 <= j < n;
    }
  }

  lemma NewerBelow(w: seq<Operation>, i: int, n: nat, c: RawClock)
    requires CausallyOrdered(w) && 0 <= i < |w| && 0 < n <= |w| && JustBelow(w, i, n - 1, c)
    requires Earlier(w[n - 1], w[i]) && !Leq(w[n - 1].vectorClock, c)
    ensures JustBelow(w, i, n, w[n - 1].vectorClock)
  {
    JustBelowStep(w, n, c);
    OrderDecides(w[n - 1].vectorClock, w[i].vectorClock);
    forall j | 0 <= j < n && Earlier(w[j], w[i])
      ensures Leq(w[j].vectorClock, w[n - 1].vectorClock)
    {
      if j < n - 1 {
        LeqTransitive(w[j].vectorClock, c, w[n - 1].vectorClock);
      }
    }
  }

  lemma JustBelowStep(w: seq<Operation>, n: nat, c: RawClock)
    requires CausallyOrdered(w) && 0 < n <= |w|
    requires c == map[] || exists j :: 0 <= j < n - 1 && c == w[j].vectorClock
    ensures Leq(w[n - 1].vectorClock, c) || Leq(c, w[n - 1].vectorClock)
  {
    if c != map[] {
      var j :| 0 <= j < n - 1 && c == w[j].vectorClock;
      assert Earlier(w[j], w[n - 1]) || Earlier(w[n - 1], w[j]);
      OrderDecides(w[j].vectorClock, w[n - 1].vectorClock);
      OrderDecides(w[n - 1].vectorClock, w[j].vectorClock);
    }
  }

  /** A time from which on only `w[i]` is late, among the newer ones of the first `n`. */
  lemma {:induction false} TimeJustBelow(w: seq<Operation>, i: int, n: nat) returns (t: real)
    requires 0 <= i < |w| && n <= |w|
    requires forall j | 0 <= j < n && Earlier(w[i], w[j]) :: w[j].timestamp < w[i].timestamp
    ensures t < w[i].timestamp
    ensures forall j | 0 <= j < n && Earlier(w[i], w[j]) :: w[j].timestamp <= t
  {
    if n == 0 {
      t := w[i].timestamp - 1.0;
    } else {
      t := TimeJustBelow(w, i, n - 1);
      if Earlier(w[i], w[n - 1]) && t < w[n - 1].timestamp {
        t := w[n - 1].timestamp;
      }
    }
  }

  /** A record of a node that none of the operations has heard of. Its name comes after the
      author's, so it wins ties of time. */
  function Rival(base: Fields, c: RawClock, stranger: NodeId, t: real): Record {
    Record(base, 1, c[stranger := 1], t, stranger, false, None)
  }

  lemma RivalTakes(tolerance: real, o: Operation, base: Fields, c: RawClock, stranger: NodeId, t: real)
    requires stranger !in o.vectorClock && !Leq(o.vectorClock, c) && t + tolerance < o.timestamp
    ensures !Refuses(tolerance, Rival(base, c, stranger, t), o)
  {
    var d := c[stranger := 1];
    OrderDecides(d, o.vectorClock);
    assert At(d, stranger) > At(o.vectorClock, stranger);
    var n: NodeId :| At(o.vectorClock, n) > At(c, n);
    assert n != stranger && At(d, n) == At(c, n);
  }

  lemma RivalRefusesOlder(tolerance: real, o: Operation, base: Fields, c: RawClock, stranger: NodeId, t: real)
    requires stranger !in o.vectorClock && stranger !in c && Leq(o.vectorClock, c)
    ensures Refuses(tolerance, Rival(base, c, stranger, t), o)
  {
    var d := c[stranger := 1];
    OrderDecides(d, o.vectorClock);
    assert At(d, stranger) > At(o.vectorClock, stranger);
    forall n: NodeId
      ensures At(o.vectorClock, n) <= At(d, n)
    {
      assert At(o.vectorClock, n) <= At(c, n);
    }
  }

  lemma RivalRefusesNewer(tolerance: real, o: Operation, base: Fields, c: RawClock, stranger: NodeId, t: real)
    requires stranger !in o.vectorClock && stranger !in c && !Leq(o.vectorClock, c) && o.timestamp <= t + tolerance
    requires StringOrder.Less(o.nodeId, stranger)
    ensures Refuses(tolerance, Rival(base, c, stranger, t), o)
  {
    var d := c[stranger := 1];
    OrderDecides(d, o.vectorClock);
    assert At(d, stranger) > At(o.vectorClock, stranger);
    StringOrder.Asymmetric(o.nodeId, stranger);
  }

  ghost predicate Refuses(tolerance: real, r: Record, o: Operation) {
    !Beats(tolerance, VersionOfOp(o), VersionOf(r))
  }

  lemma RivalRefuses(tolerance: real, o: Operation, late: Operation, base: Fields, c: RawClock, stranger: NodeId, t: real)
    requires stranger !in o.vectorClock && stranger !in c && !Leq(late.vectorClock, c)
    requires Earlier(o, late) ==> Leq(o.vectorClock, c)
    requires !Earlier(o, late) ==> Earlier(late, o) && o.timestamp <= t + tolerance
    requires StringOrder.Less(o.nodeId, stranger)
    ensures Refuses(tolerance, Rival(base, c, stranger, t), o)
  {
    if Leq(o.vectorClock, c) {
      RivalRefusesOlder(tolerance, o, base, c, stranger, t);
    } else {
      RivalRefusesNewer(tolerance, o, base, c, stranger, t);
    }
  }

  /** A record with any data that turns away everything before `w[i]` and takes `w[i]`. It is
      one that another node can have written: its own first write over what it had pulled. */
  lemma RivalExists(tolerance: real, w: seq<Operation>, i: int, base: Fields) returns (r: Record)
    requires CausallyOrdered(w) && Ticked(w) && SameAuthor(w) && 0 <= i < |w| && !HasNewerBefore(w, i)
    ensures !r.deleted && r.data == base && !Refuses(tolerance, r, w[i])
    ensures forall j | 0 <= j < i :: Refuses(tolerance, r, w[j])
    ensures r.lastModifiedBy != w[i].nodeId && At(r.vectorClock, r.lastModifiedBy) == 1
  {
    assert w[i] in w;
    var stranger := Stranger(w, w[i].nodeId);
    NewerAreBefore(w, i);
    var c := ClockJustBelow(w, i, i);
    var t := TimeJustBelow(w, i, i);
    StrangerToClock(w, i, c, stranger);
    StringOrder.Irreflexive(stranger);
    r := Rival(base, c, stranger, t - tolerance);
    RivalTakes(tolerance, w[i], base, c, stranger, t - tolerance);
    forall j | 0 <= j < i
      ensures Refuses(tolerance, r, w[j])
    {
      assert w[j] in w && (Earlier(w[j], w[i]) || Earlier(w[i], w[j]));
      RivalRefuses(tolerance, w[j], w[i], base, c, stranger, t - tolerance);
    }
  }

  lemma NewerAreBefore(w: seq<Operation>, i: int)
    requires 0 <= i < |w| && !HasNewerBefore(w, i)
    ensures forall j | 0 <= j < i && Earlier(w[i], w[j]) :: w[j].timestamp < w[i].timestamp
  {
  }

  lemma StrangerToClock(w: seq<Operation>, n: nat, c: RawClock, stranger: NodeId)
    requires n <= |w| && forall o | o in w :: stranger !in o.vectorClock
    requires c == map[] || exists j :: 0 <= j < n && c == w[j].vectorClock
    ensures stranger !in c
  {
    if c != map[] {
      var j :| 0 <= j < n && c == w[j].vectorClock;
      assert w[j] in w;
    }
  }

  lemma RefusedTurnedAway(tolerance: real, r: Record, ds: seq<Operation>)
    requires !r.deleted && forall j | 0 <= j < |ds| :: Refuses(tolerance, r, ds[j])
    ensures AllTurnedAway(tolerance, Some(r), ds)
  {
    forall o | o in ds
      ensures !Accepts(tolerance, Some(r), o)
    {
      var j :| 0 <= j < |ds| && ds[j] == o;
      assert Refuses(tolerance, r, ds[j]);
    }
  }

  /** The first run ends at or behind `w[i]`, the second before it. */
  lemma LateOneSpoilsResend(tolerance: real, r: Record, w: seq<Operation>, s: int, i: int)
    requires CausallyOrdered(w) && Survives(w, s) && s < i < |w|
    requires !r.deleted && !Refuses(tolerance, r, w[i]) && forall j | 0 <= j < i :: Refuses(tolerance, r, w[j])
    ensures !ResendIsHarmless(tolerance, Some(r), w)
  {
    var once := DeliverAllToRecord(tolerance, Some(r), w);
    assert forall j | 0 <= j < i :: w[..i][j] == w[j];
    RefusedTurnedAway(tolerance, r, w[..i]);
    OwnAfterLateStart(tolerance, Some(r), w, i);
    OwnIsBehind(once, w, i);
    OwnShowsNewest(tolerance, once, w, s);
    NewestBefore(DeliverAllToRecord(tolerance, once, w), w, s, i);
    ClocksTellApart(once, DeliverAllToRecord(tolerance, once, w), w, i);
  }

  // ----- What the second run does to the data

  /** What the record takes when it shows `w[q]` and receives `w` again. */
  function Again(w: seq<Operation>, q: int): seq<Operation>
    requires 0 <= q < |w|
  {
    TakenOn(Some(w[q]), w)
  }

  /** Laying `more` over what `ops` leave changes nothing, whatever there was below. */
  ghost predicate AddsNothing(ops: seq<Operation>, more: seq<Operation>) {
    && (HasReplacement(more) ==> HasReplacement(ops))
    && Overlaid(ops + more) == Overlaid(ops)
  }

  lemma ReplacementInParts(a: seq<Operation>, b: seq<Operation>)
    ensures HasReplacement(a + b) <==> HasReplacement(a) || HasReplacement(b)
  {
    if HasReplacement(a) {
      var o :| o in a && Replaces(o);
      assert o in a + b;
    }
    if HasReplacement(b) {
      var o :| o in b && Replaces(o);
      assert o in a + b;
    }
  }

  lemma AddsNothingOnBase(base: Fields, ops: seq<Operation>, more: seq<Operation>)
    requires AddsNothing(ops, more)
    ensures Overlay(base, ops + more) == Overlay(base, ops)
  {
    ReplacementInParts(ops, more);
    OverlayOnBase(base, ops + more);
    OverlayOnBase(base, ops);
  }

  /** And otherwise there is something below that tells. */
  lemma TellingBase(ops: seq<Operation>, more: seq<Operation>) returns (base: Fields)
    requires !AddsNothing(ops, more)
    ensures Overlay(base, ops + more) != Overlay(base, ops)
  {
    base := map[];
    if Overlaid(ops + more) == Overlaid(ops) {
      var field := LongerName(Overlaid(ops + more).Keys);
      base := map[field := Null];
      assert field !in Overlaid(ops + more);
      ReplacementInParts(ops, more);
      OverlayOnBase(base, ops + more);
      OverlayOnBase(base, ops);
      assert field in base + Overlaid(ops);
    }
  }

  /** Whenever a record can turn away what comes before `w[i]` and take `w[i]`, what it takes
      in the second run adds nothing to what it has taken in the first. */
  ghost predicate MergesComeBack(w: seq<Operation>) {
    forall q, i | NewestSurvivor(w, q) && CanBeFirst(w, i) :: AddsNothing(Taken(w[i..]), Again(w, q))
  }

  ghost predicate CanBeFirst(w: seq<Operation>, i: int) {
    0 <= i < |w| && !HasNewerBefore(w, i)
  }

  lemma SameClockSameOp(w: seq<Operation>, q: int, h: Operation)
    requires CausallyOrdered(w) && 0 <= q < |w| && h in w && h.vectorClock == w[q].vectorClock
    ensures h == w[q]
  {
    var j :| 0 <= j < |w| && w[j] == h;
    if j < q {
      DifferentClocks(w, j, q);
    } else if q < j {
      DifferentClocks(w, q, j);
    }
  }

  /** Causal order alone makes the newest survivor the last one taken. */
  lemma HolderIsNewest(w: seq<Operation>, q: int)
    requires CausallyOrdered(w) && NewestSurvivor(w, q)
    ensures Holder(None, Taken(w)) == Some(w[q])
  {
    WhatIsTaken(0.0, None, None, w);
    WhatSurvives(0.0, None, w);
    ShowsTheNewest(DeliverAllToRecord(0.0, None, w), w, q) by {
      assert Survives(w, q);
    }
    TakenMembers(None, w);
    SameClockSameOp(w, q, Holder(None, Taken(w)).value);
  }

  lemma NoSurvivorNoHolder(w: seq<Operation>)
    requires CausallyOrdered(w) && forall k :: !Survives(w, k)
    ensures Holder(None, Taken(w)) == None
  {
    WhatIsTaken(0.0, None, None, w);
    WhatSurvives(0.0, None, w);
  }

  lemma RelatedToOwn(w: seq<Operation>, q: int)
    requires CausallyOrdered(w) && 0 <= q < |w|
    ensures RelatedToAll(Some(w[q]), w)
  {
    forall o | o in w
      ensures Related(w[q], o)
    {
      var j :| 0 <= j < |w| && w[j] == o;
      if j == q {
        OrderDecides(o.vectorClock, o.vectorClock);
      } else {
        assert Earlier(w[q], w[j]) || Earlier(w[j], w[q]);
        OrderFlips(w[q].vectorClock, w[j].vectorClock);
      }
    }
  }

  function ViewOfTaken(data: Fields, op: Operation): View {
    Live(data, op.vectorClock, op.timestamp, op.nodeId)
  }

  predicate FirstTakes(tolerance: real, r: Option<Record>, w: seq<Operation>, i: int) {
    0 <= i < |w| && if IsLive(r) then Accepts(tolerance, r, w[i]) else i == 0
  }

  /** The run up to the first operation taken does nothing, the run from there on is one by
      causal order. */
  lemma FirstRun(tolerance: real, r: Option<Record>, w: seq<Operation>, i: int)
    requires CausallyOrdered(w) && FirstTakes(tolerance, r, w, i) && AllTurnedAway(tolerance, r, w[..i])
    ensures ShowsTaken(DeliverAllToRecord(tolerance, r, w), BaseData(r), None, Taken(w[i..]))
  {
    assert w == w[..i] + w[i..] && w[i..][0] == w[i];
    NothingAccepted(tolerance, r, w[..i]);
    DeliverAllConcat(tolerance, r, w[..i], w[i..]);
    CausalSuffix(w, i);
    FirstTakenRun(tolerance, r, w[i..]);
  }

  lemma FirstRunHolds(w: seq<Operation>, q: int, i: int)
    requires CausallyOrdered(w) && NewestSurvivor(w, q) && 0 <= i <= q
    ensures Holder(None, Taken(w[i..])) == Some(w[q])
  {
    CausalSuffix(w, i);
    NewestInSuffix(w, i, q);
    HolderIsNewest(w[i..], q - i);
  }

  lemma OnceShows(tolerance: real, r: Option<Record>, w: seq<Operation>, i: int, q: int)
    requires CausallyOrdered(w) && FirstTakes(tolerance, r, w, i) && AllTurnedAway(tolerance, r, w[..i])
    requires NewestSurvivor(w, q) && i <= q
    ensures ViewOf(DeliverAllToRecord(tolerance, r, w)) == ViewOfTaken(Overlay(BaseData(r), Taken(w[i..])), w[q])
  {
    FirstRun(tolerance, r, w, i);
    FirstRunHolds(w, q, i);
  }

  lemma AgainHolds(w: seq<Operation>, q: int)
    requires CausallyOrdered(w) && NewestSurvivor(w, q)
    ensures Holder(Some(w[q]), Again(w, q)) == Some(w[q])
  {
    var x := Some(Applied(None, w[q]));
    var y := DeliverAllToRecord(0.0, x, w);
    RelatedToOwn(w, q);
    WhatIsTaken(0.0, x, Some(w[q]), w);
    assert w[q] in w && Survives(w, q);
    OwnShowsNewest(0.0, x, w, q);
    NewestShown(y, w, q);
    TakenMembers(Some(w[q]), w);
    SameClockSameOp(w, q, Holder(Some(w[q]), Again(w, q)).value);
  }

  lemma TwiceShows(tolerance: real, x: Option<Record>, w: seq<Operation>, q: int)
    requires CausallyOrdered(w) && NewestSurvivor(w, q) && IsLive(x) && VersionOf(x.value) == VersionOfOp(w[q])
    ensures ViewOf(DeliverAllToRecord(tolerance, x, w)) == ViewOfTaken(Overlay(x.value.data, Again(w, q)), w[q])
  {
    RelatedToOwn(w, q);
    WhatIsTaken(tolerance, x, Some(w[q]), w);
    AgainHolds(w, q);
  }

  lemma NewestShown(y: Option<Record>, w: seq<Operation>, q: int)
    requires ShowsNewest(y, w) && NewestSurvivor(w, q)
    ensures ShowsClock(y, w, q)
  {
    var k :| NewestSurvivor(w, k) && ShowsClock(y, w, k);
    NewestIsOne(w, k, q);
  }

  /** On one record: harmless exactly if the second run adds nothing over its data. */
  lemma ResendOn(tolerance: real, r: Option<Record>, w: seq<Operation>, i: int, q: int)
    requires CausallyOrdered(w) && FirstTakes(tolerance, r, w, i) && AllTurnedAway(tolerance, r, w[..i])
    requires NewestSurvivor(w, q) && i <= q
    ensures ResendIsHarmless(tolerance, r, w) <==>
            Overlay(BaseData(r), Taken(w[i..]) + Again(w, q)) == Overlay(BaseData(r), Taken(w[i..]))
  {
    var once := DeliverAllToRecord(tolerance, r, w);
    OnceShows(tolerance, r, w, i, q);
    TwiceShows(tolerance, once, w, q);
    OverlayConcat(BaseData(r), Taken(w[i..]), Again(w, q));
  }

  lemma NothingShownTwice(tolerance: real, r: Option<Record>, w: seq<Operation>, i: int)
    requires CausallyOrdered(w) && FirstTakes(tolerance, r, w, i) && AllTurnedAway(tolerance, r, w[..i])
    requires forall k :: !Survives(w, k)
    ensures ResendIsHarmless(tolerance, r, w)
  {
    var once := DeliverAllToRecord(tolerance, r, w);
    FirstRun(tolerance, r, w, i);
    CausalSuffix(w, i);
    forall k
      ensures !Survives(w[i..], k)
    {
      SuffixSurvives(w, i, k);
    }
    NoSurvivorNoHolder(w[i..]);
    WhatSurvives(tolerance, once, w);
  }

  lemma NewestExists(w: seq<Operation>, s: int) returns (q: int)
    requires CausallyOrdered(w) && Survives(w, s)
    ensures NewestSurvivor(w, q)
  {
    WhatSurvives(0.0, None, w);
    q :| NewestSurvivor(w, q) && ShowsOp(DeliverAllToRecord(0.0, None, w), w[q]);
  }

  // ----- The exact condition

  /** The first operation a record takes is one that can be the first. */
  lemma StartOfRun(tolerance: real, r: Option<Record>, w: seq<Operation>) returns (i: int)
    requires SameAuthor(w) && w != [] && !AllTurnedAway(tolerance, r, w)
    ensures FirstTakes(tolerance, r, w, i) && AllTurnedAway(tolerance, r, w[..i]) && CanBeFirst(w, i)
  {
    if !IsLive(r) {
      i := 0;
    } else {
      i := FirstTaken(tolerance, r, w);
      FirstIsNotLate(tolerance, r, w, i);
    }
  }

  /** One node's operations on a record can be sent again in the order in which they were
      sent, whatever that is, if late ones are old and merges come back the same. */
  lemma ResendInAnyOrder(tolerance: real, r: Option<Record>, w: seq<Operation>)
    requires CausallyOrdered(w) && SameAuthor(w) && LateOnesAreOld(w) && MergesComeBack(w)
    ensures ResendIsHarmless(tolerance, r, w)
  {
    if AllTurnedAway(tolerance, r, w) {
      NothingAccepted(tolerance, r, w);
    } else {
      var i := StartOfRun(tolerance, r, w);
      if forall k :: !Survives(w, k) {
        NothingShownTwice(tolerance, r, w, i);
      } else {
        var s :| Survives(w, s);
        var q := NewestExists(w, s);
        assert i <= q by {
          assert Survives(w, q);
        }
        ResendOn(tolerance, r, w, i, q);
        AddsNothingOnBase(BaseData(r), Taken(w[i..]), Again(w, q));
      }
    }
  }

  /** If merges do not come back the same, some record shows it. */
  lemma MergesSpoilResend(tolerance: real, w: seq<Operation>, i: int, q: int) returns (r: Record)
    requires CausallyOrdered(w) && Ticked(w) && SameAuthor(w) && NewestSurvivor(w, q) && CanBeFirst(w, i)
    requires !AddsNothing(Taken(w[i..]), Again(w, q))
    ensures !ResendIsHarmless(tolerance, Some(r), w)
  {
    var base := TellingBase(Taken(w[i..]), Again(w, q));
    r := RivalExists(tolerance, w, i, base);
    if q < i {
      LateOneSpoilsResend(tolerance, r, w, q, i);
    } else {
      assert forall j | 0 <= j < i :: w[..i][j] == w[j];
      RefusedTurnedAway(tolerance, r, w[..i]);
      ResendOn(tolerance, Some(r), w, i, q);
    }
  }

  /** One node's operations of any kinds on a record, sent in any order, can be sent again to
      every server exactly when late ones are old and merges come back the same. Both
      conditions speak of the operations alone. The tolerance plays no part. */
  lemma ResendExactlyWhen(tolerance: real, w: seq<Operation>)
    requires CausallyOrdered(w) && Ticked(w) && SameAuthor(w)
    ensures (forall r :: ResendIsHarmless(tolerance, r, w)) <==> LateOnesAreOld(w) && MergesComeBack(w)
  {
    if LateOnesAreOld(w) && MergesComeBack(w) {
      forall r { ResendInAnyOrder(tolerance, r, w); }
    } else if !LateOnesAreOld(w) {
      var s, i :| Survives(w, s) && s < i < |w| && !HasNewerBefore(w, i);
      var r := RivalExists(tolerance, w, i, map[]);
      LateOneSpoilsResend(tolerance, r, w, s, i);
      assert !ResendIsHarmless(tolerance, Some(r), w);
    } else {
      var q, i :| NewestSurvivor(w, q) && CanBeFirst(w, i) && !AddsNothing(Taken(w[i..]), Again(w, q));
      var r := MergesSpoilResend(tolerance, w, i, q);
      assert !ResendIsHarmless(tolerance, Some(r), w);
    }
  }

  // ----- Where merges always come back

  lemma {:induction false} NothingNewer(held: Operation, w: seq<Operation>)
    requires forall o | o in w :: !Earlier(held, o)
    ensures TakenOn(Some(held), w) == []
  {
    if w != [] {
      assert w[|w| - 1] in w && forall o | o in w[..|w| - 1] :: o in w;
      NothingNewer(held, w[..|w| - 1]);
    }
  }

  /** When the newest operation is no delete, the second run takes nothing. */
  lemma TopComesBack(w: seq<Operation>, p: int)
    requires CausallyOrdered(w) && IsTop(w, p) && !w[p].kind.Delete?
    ensures MergesComeBack(w)
  {
    assert Survives(w, p);
    forall q | NewestSurvivor(w, q)
      ensures Again(w, q) == []
    {
      EarlierIsStrict(w[q], w[p]);
      assert q == p;
      forall o | o in w
        ensures !Earlier(w[p], o)
      {
        var j :| 0 <= j < |w| && w[j] == o;
        assert j == p || Earlier(w[j], w[p]);
        EarlierIsStrict(w[j], w[p]);
      }
      NothingNewer(w[p], w);
    }
    forall ops: seq<Operation>
      ensures ops + [] == ops
    {
    }
  }

  lemma LastOverlaid(base: Fields, ops: seq<Operation>)
    requires Holder(None, ops).Some? && Replaces(Holder(None, ops).value)
    ensures HasReplacement(ops) && Overlay(base, ops) == Holder(None, ops).value.payload
  {
    assert ops[|ops| - 1] in ops;
  }

  /** When the newest survivor is no merge, both runs leave its own data. */
  lemma ReplacementComesBack(w: seq<Operation>)
    requires CausallyOrdered(w) && LateOnesAreOld(w)
    requires forall q | NewestSurvivor(w, q) :: !w[q].kind.Merge?
    ensures MergesComeBack(w)
  {
    forall q, i | NewestSurvivor(w, q) && CanBeFirst(w, i)
      ensures AddsNothing(Taken(w[i..]), Again(w, q))
    {
      assert Survives(w, q) && i <= q;
      ReplacementAddsNothing(w, q, i);
    }
  }

  lemma ReplacementAddsNothing(w: seq<Operation>, q: int, i: int)
    requires CausallyOrdered(w) && NewestSurvivor(w, q) && 0 <= i <= q && !w[q].kind.Merge?
    ensures AddsNothing(Taken(w[i..]), Again(w, q))
  {
    FirstRunHolds(w, q, i);
    AgainHolds(w, q);
    assert Survives(w, q);
    SameHolderAddsNothing(Taken(w[i..]), Again(w, q), w[q]);
  }

  lemma SameHolderAddsNothing(ops: seq<Operation>, more: seq<Operation>, last: Operation)
    requires Holder(None, ops) == Some(last) == Holder(Some(last), more) && Replaces(last)
    ensures AddsNothing(ops, more)
  {
    LastOverlaid(map[], ops);
    if more == [] {
      assert ops + more == ops;
    } else {
      LastOverlaid(map[], ops + more);
    }
  }

  /** So deletes alone or merges alone leave the condition on times. */
  lemma ComesBackUnlessTheyMeet(w: seq<Operation>)
    requires CausallyOrdered(w) && LateOnesAreOld(w) && (NoDeletes(w) || NoMergesIn(w))
    ensures MergesComeBack(w)
  {
    if w != [] && NoDeletes(w) {
      var p := TopExists(w);
      assert w[p] in w;
      TopComesBack(w, p);
    } else {
      assert forall q | NewestSurvivor(w, q) :: w[q] in w;
      ReplacementComesBack(w);
    }
  }

  /** Times that follow the causal order are enough. */
  lemma SteadyTimesAreEnough(w: seq<Operation>)
    requires forall a, b | a in w && b in w && Earlier(a, b) :: a.timestamp <= b.timestamp
    ensures LateOnesAreOld(w)
  {
    forall s, i | Survives(w, s) && s < i < |w|
      ensures HasNewerBefore(w, i)
    {
      assert w[i] in w && w[s] in w && Earlier(w[i], w[s]);
    }
  }

  /** A failing input where deletes and merges meet, although late ones are old: a merge that
      arrives after a newer delete builds on the data under the tombstone, and the second
      run has put other data there. On the record `held` the resend is harmless exactly if
      the merge hides the difference. */
  lemma MergeBehindDelete(tolerance: real, held: Record, m: Operation, u: Operation, d: Operation)
    requires m.kind.Merge? && u.kind.Update? && d.kind.Delete? && Earlier(m, u) && Earlier(u, d)
    requires !held.deleted && Refuses(tolerance, held, u) && !Refuses(tolerance, held, d)
    ensures ResendIsHarmless(tolerance, Some(held), [u, d, m]) <==> held.data + m.payload == u.payload + m.payload
  {
    var once := DeliverAllToRecord(tolerance, Some(held), [u, d, m]);
    ThreeDelivered(tolerance, Some(held), u, d, m);
    MergeOnTombstone(tolerance, Some(held), d, m);
    CausalWinner(tolerance, VersionOfOp(m), VersionOfOp(u));
    CausalWinner(tolerance, VersionOfOp(u), VersionOfOp(d));
    ThreeDelivered(tolerance, once, u, d, m);
    MergeOnTombstone(tolerance, Some(Applied(once, u)), d, m);
  }

  lemma MergeOnTombstone(tolerance: real, r: Option<Record>, d: Operation, m: Operation)
    requires IsLive(r) && d.kind.Delete? && m.kind.Merge? && Beats(tolerance, VersionOfOp(d), VersionOf(r.value))
    ensures var x := DeliverToRecord(tolerance, DeliverToRecord(tolerance, r, d), m);
            IsLive(x) && x.value.data == r.value.data + m.payload && VersionOf(x.value) == VersionOfOp(m)
  {
    assert DeliverToRecord(tolerance, r, d) == Some(Applied(r, d));
  }

  lemma ThreeDelivered(tolerance: real, r: Option<Record>, a: Operation, b: Operation, c: Operation)
    ensures DeliverAllToRecord(tolerance, r, [a, b, c])
         == DeliverToRecord(tolerance, DeliverToRecord(tolerance, DeliverToRecord(tolerance, r, a), b), c)
  {
    assert [a, b, c][..2] == [a, b] && [a, b][..1] == [a] && [a][..0] == [];
    assert DeliverAllToRecord(tolerance, r, [a]) == DeliverToRecord(tolerance, r, a);
    assert DeliverAllToRecord(tolerance, r, [a, b]) == DeliverToRecord(tolerance, DeliverToRecord(tolerance, r, a), b);
  }
}
