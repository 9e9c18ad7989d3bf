/** What becomes of one record when the writes of one node reach a server out of order, as
    they do when a later write lies in a higher tier: which of them are taken, and which is
    shown in the end. */
module Reordering {
  import opened Models
  import opened VectorClocks
  import opened Store
  import opened Conflict
  import opened Replicas

  predicate Earlier(a: Operation, b: Operation) {
    Order(a.vectorClock, b.vectorClock).Before?
  }

  /** Operations of which always one knows about the other, in any order of delivery. */
  ghost predicate CausallyOrdered(w: seq<Operation>) {
    forall i, j {:trigger Earlier(w[i], w[j])} {:trigger Earlier(w[j], w[i])} | 0 <= i < j < |w| ::
      Earlier(w[i], w[j]) || Earlier(w[j], w[i])
  }

  lemma EarlierIsStrict(a: Operation, b: Operation)
    ensures Earlier(a, b) ==> !Earlier(b, a) && !Order(b.vectorClock, a.vectorClock).Equal?
    ensures !Earlier(a, a)
  {
    OrderFlips(a.vectorClock, b.vectorClock);
    OrderDecides(a.vectorClock, a.vectorClock);
  }

  // ----- Which operation is shown

  /** Nothing newer is delivered after it. */
  ghost predicate Unsuperseded(w: seq<Operation>, i: int) {
    0 <= i < |w| && forall j {:trigger Earlier(w[j], w[i])} | i < j < |w| :: Earlier(w[j], w[i])
  }

  ghost predicate Survives(w: seq<Operation>, i: int) {
    Unsuperseded(w, i) && !w[i].kind.Delete?
  }

  ghost predicate NewestSurvivor(w: seq<Operation>, i: int) {
    Survives(w, i) && forall j {:trigger Survives(w, j)} | Survives(w, j) :: j == i || Earlier(w[j], w[i])
  }

  ghost predicate ShowsOp(x: Option<Record>, op: Operation) {
    && IsLive(x)
    && VersionOf(x.value) == VersionOfOp(op)
    && (Replaces(op) ==> x.value.data == op.payload)
  }

  ghost predicate ShowsSurvivor(x: Option<Record>, w: seq<Operation>) {
    if IsLive(x) then exists i :: NewestSurvivor(w, i) && ShowsOp(x, w[i])
    else forall i :: !Survives(w, i)
  }

  lemma SurvivesAppend(front: seq<Operation>, last: Operation, i: int)
    ensures Survives(front + [last], i) <==>
            (Survives(front, i) && Earlier(last, front[i])) || (i == |front| && !last.kind.Delete?)
  {
    var w := front + [last];
    if 0 <= i < |front| {
      assert w[|front|] == last && forall j | 0 <= j < |front| :: w[j] == front[j];
      if Survives(w, i) {
        assert Earlier(w[|front|], w[i]);
        forall j | i < j < |front|
          ensures Earlier(front[j], front[i])
        {
          assert Earlier(w[j], w[i]);
        }
      }
      if Survives(front, i) && Earlier(last, front[i]) {
        forall j | i < j < |w|
          ensures Earlier(w[j], w[i])
        {
        }
      }
    }
  }

  /** Delivered last, an operation on a dead record is shown unless it is a delete. */
  lemma OntoDead(tolerance: real, x: Option<Record>, front: seq<Operation>, last: Operation)
    requires !IsLive(x) && ShowsSurvivor(x, front)
    ensures ShowsSurvivor(DeliverToRecord(tolerance, x, last), front + [last])
  {
    var w := front + [last];
    forall i { SurvivesAppend(front, last, i); }
    if !last.kind.Delete? {
      assert NewestSurvivor(w, |front|);
      assert ShowsOp(DeliverToRecord(tolerance, x, last), w[|front|]);
    }
  }

  /** A newer one replaces or removes what is shown, and supersedes all survivors. */
  lemma OntoOlder(tolerance: real, x: Option<Record>, front: seq<Operation>, last: Operation, i: int)
    requires NewestSurvivor(front, i) && ShowsOp(x, front[i]) && Earlier(front[i], last)
    ensures ShowsSurvivor(DeliverToRecord(tolerance, x, last), front + [last])
  {
    var w := front + [last];
    forall j
      ensures Survives(w, j) <==> j == |front| && !last.kind.Delete?
    {
      SurvivesAppend(front, last, j);
      if Survives(front, j) {
        EarlierIsStrict(front[j], last);
        if j != i {
          BeforeTransitive(front[j].vectorClock, front[i].vectorClock, last.vectorClock);
        }
      }
    }
    if !last.kind.Delete? {
      assert NewestSurvivor(w, |front|);
      assert ShowsOp(DeliverToRecord(tolerance, x, last), w[|front|]);
    }
  }

  /** An older one is turned away. */
  lemma OntoNewer(tolerance: real, x: Option<Record>, front: seq<Operation>, last: Operation, i: int)
    requires NewestSurvivor(front, i) && ShowsOp(x, front[i]) && Earlier(last, front[i])
    ensures ShowsSurvivor(DeliverToRecord(tolerance, x, last), front + [last])
  {
    var w := front + [last];
    OrderFlips(last.vectorClock, front[i].vectorClock);
    assert DeliverToRecord(tolerance, x, last) == x;
    forall j { SurvivesAppend(front, last, j); }
    assert w[i] == front[i] && w[|front|] == last;
    forall j | Survives(w, j) && j != i
      ensures Earlier(w[j], w[i])
    {
    }
    assert NewestSurvivor(w, i);
  }

  /** From a missing or deleted record, whatever the times and the tolerance: the record
      shows the newest operation that is not a delete and has nothing newer delivered after
      it, and nothing if there is none. */
  lemma {:induction false} WhatSurvives(tolerance: real, r: Option<Record>, w: seq<Operation>)
    requires !IsLive(r) && CausallyOrdered(w)
    ensures ShowsSurvivor(DeliverAllToRecord(tolerance, r, w), w)
  {
    if w != [] {
      var front, last := w[..|w| - 1], w[|w| - 1];
      assert w == front + [last];
      CausalPrefix(w, |w| - 1);
      WhatSurvives(tolerance, r, front);
      var x := DeliverAllToRecord(tolerance, r, front);
      if IsLive(x) {
        var i :| NewestSurvivor(front, i) && ShowsOp(x, front[i]);
        assert Earlier(w[i], w[|w| - 1]) || Earlier(w[|w| - 1], w[i]);
        if Earlier(front[i], last) {
          OntoOlder(tolerance, x, front, last, i);
        } else {
          OntoNewer(tolerance, x, front, last, i);
        }
      } else {
        OntoDead(tolerance, x, front, last);
      }
    }
  }

  /** The operation that knows about all others. */
  ghost predicate IsTop(w: seq<Operation>, p: int) {
    0 <= p < |w| && forall i {:trigger Earlier(w[i], w[p])} | 0 <= i < |w| && i != p :: Earlier(w[i], w[p])
  }

  lemma CausalPrefix(w: seq<Operation>, n: nat)
    requires CausallyOrdered(w) && n <= |w|
    ensures CausallyOrdered(w[..n])
  {
    forall i, j | 0 <= i < j < n
      ensures Earlier(w[..n][i], w[..n][j]) || Earlier(w[..n][j], w[..n][i])
    {
      assert Earlier(w[i], w[j]) || Earlier(w[j], w[i]);
    }
  }

  /** A new operation is the newest if it is newer than the newest so far. */
  lemma TopAppend(front: seq<Operation>, last: Operation, p: int)
    requires IsTop(front, p) && (Earlier(front[p], last) || Earlier(last, front[p]))
    ensures IsTop(front + [last], if Earlier(front[p], last) then |front| else p)
  {
    var w := front + [last];
    forall i | 0 <= i < |front| && Earlier(front[p], last)
      ensures Earlier(w[i], last)
    {
      if i != p {
        assert Earlier(front[i], front[p]);
        BeforeTransitive(front[i].vectorClock, front[p].vectorClock, last.vectorClock);
      }
    }
  }

  lemma {:induction false} TopExists(w: seq<Operation>) returns (p: int)
    requires CausallyOrdered(w) && w != []
    ensures IsTop(w, p)
  {
    var n := |w| - 1;
    if n == 0 {
      p := 0;
    } else {
      CausalPrefix(w, n);
      p := TopExists(w[..n]);
      assert w == w[..n] + [w[n]];
      assert Earlier(w[p], w[n]) || Earlier(w[n], w[p]);
      TopAppend(w[..n], w[n], p);
      p := if Earlier(w[p], w[n]) then n else p;
    }
  }

  // ----- Which operations are taken

  /** Whether an operation is taken by causal order alone: on a record that shows `held` if
      it is newer, on a missing or deleted one if it is no delete. */
  predicate TakenNext(held: Option<Operation>, op: Operation) {
    if held.Some? then Earlier(held.value, op) else !op.kind.Delete?
  }

  /** What a record that shows `held` shows after it has taken some operations. */
  function Holder(held: Option<Operation>, taken: seq<Operation>): Option<Operation> {
    if taken == [] then held
    else if taken[|taken| - 1].kind.Delete? then None
    else Some(taken[|taken| - 1])
  }

  function TakenOn(held: Option<Operation>, w: seq<Operation>): seq<Operation> {
    if w == [] then []
    else
      var taken, last := TakenOn(held, w[..|w| - 1]), w[|w| - 1];
      if TakenNext(Holder(held, taken), last) then taken + [last] else taken
  }

  /** What a missing or deleted record takes. */
  function Taken(w: seq<Operation>): seq<Operation> {
    TakenOn(None, w)
  }

  /** The data that operations leave over other data when each is applied. */
  function Overlay(base: Fields, ops: seq<Operation>): Fields {
    if ops == [] then base
    else
      var last := ops[|ops| - 1];
      match last.kind
      case Create => last.payload
      case Update => last.payload
      case Merge => Overlay(base, ops[..|ops| - 1]) + last.payload
      case Delete => Overlay(base, ops[..|ops| - 1])
  }

  function Overlaid(ops: seq<Operation>): Fields {
    Overlay(map[], ops)
  }

  lemma OverlayStep(r: Option<Record>, base: Fields, ops: seq<Operation>, op: Operation)
    requires BaseData(r) == Overlay(base, ops)
    ensures Applied(r, op).data == Overlay(base, ops + [op])
  {
    assert (ops + [op])[..|ops|] == ops;
  }

  lemma {:induction false} OverlayConcat(base: Fields, a: seq<Operation>, b: seq<Operation>)
    ensures Overlay(base, a + b) == Overlay(Overlay(base, a), b)
  {
    if b == [] {
      assert a + b == a;
    } else {
      assert (a + b)[..|a + b| - 1] == a + b[..|b| - 1];
      OverlayConcat(base, a, b[..|b| - 1]);
    }
  }

  ghost predicate HasReplacement(ops: seq<Operation>) {
    exists o :: o in ops && Replaces(o)
  }

  /** The data below matters exactly until a create or update comes. */
  lemma {:induction false} OverlayOnBase(base: Fields, ops: seq<Operation>)
    ensures Overlay(base, ops) == if HasReplacement(ops) then Overlaid(ops) else base + Overlaid(ops)
  {
    if ops == [] {
      assert base + map[] == base;
    } else {
      var front, last := ops[..|ops| - 1], ops[|ops| - 1];
      assert ops == front + [last];
      OverlayOnBase(base, front);
      assert HasReplacement(ops) <==> HasReplacement(front) || Replaces(last);
      assert base + (Overlaid(front) + last.payload) == (base + Overlaid(front)) + last.payload;
    }
  }

  /** The record is what the taken operations leave over `base`. */
  ghost predicate ShowsTaken(x: Option<Record>, base: Fields, held: Option<Operation>, taken: seq<Operation>) {
    && BaseData(x) == Overlay(base, taken)
    && match Holder(held, taken)
       case None => !IsLive(x)
       case Some(h) => IsLive(x) && VersionOf(x.value) == VersionOfOp(h)
  }

  predicate Related(a: Operation, b: Operation) {
    !Order(a.vectorClock, b.vectorClock).Concurrent?
  }

  lemma AcceptedByOrder(tolerance: real, x: Option<Record>, held: Option<Operation>, op: Operation)
    requires if held.Some? then IsLive(x) && VersionOf(x.value) == VersionOfOp(held.value) && Related(held.value, op) else !IsLive(x)
    ensures Accepts(tolerance, x, op) <==> TakenNext(held, op)
  {
  }

  lemma TakenAppend(held: Option<Operation>, front: seq<Operation>, last: Operation)
    ensures var taken := TakenOn(held, front);
            TakenOn(held, front + [last]) == taken + if TakenNext(Holder(held, taken), last) then [last] else []
  {
    assert (front + [last])[..|front|] == front;
  }

  lemma AppliedIsTaken(x: Option<Record>, base: Fields, held: Option<Operation>, taken: seq<Operation>, op: Operation)
    requires BaseData(x) == Overlay(base, taken)
    ensures ShowsTaken(Some(Applied(x, op)), base, held, taken + [op])
  {
    OverlayStep(x, base, taken, op);
  }

  lemma TakenStep(tolerance: real, x: Option<Record>, base: Fields, held: Option<Operation>, front: seq<Operation>, last: Operation)
    requires ShowsTaken(x, base, held, TakenOn(held, front))
    requires Holder(held, TakenOn(held, front)).Some? ==> Related(Holder(held, TakenOn(held, front)).value, last)
    ensures ShowsTaken(DeliverToRecord(tolerance, x, last), base, held, TakenOn(held, front + [last]))
  {
    var taken := TakenOn(held, front);
    TakenAppend(held, front, last);
    AcceptedByOrder(tolerance, x, Holder(held, taken), last);
    if TakenNext(Holder(held, taken), last) {
      AppliedIsTaken(x, base, held, taken, last);
    }
  }

  lemma {:induction false} TakenMembers(held: Option<Operation>, w: seq<Operation>)
    ensures forall o | o in TakenOn(held, w) :: o in w
  {
    if w != [] {
      TakenMembers(held, w[..|w| - 1]);
      assert w[|w| - 1] in w && forall o | o in w[..|w| - 1] :: o in w;
    }
  }

  lemma CausalIsRelated(w: seq<Operation>, n: int)
    requires CausallyOrdered(w) && 0 <= n < |w|
    ensures forall o | o in w[..n] :: Related(o, w[n])
  {
    forall o | o in w[..n]
      ensures Related(o, w[n])
    {
      var i :| 0 <= i < n && w[..n][i] == o;
      assert Earlier(w[i], w[n]) || Earlier(w[n], w[i]);
      OrderFlips(w[n].vectorClock, w[i].vectorClock);
    }
  }

  lemma HolderRelated(held: Option<Operation>, front: seq<Operation>, last: Operation)
    requires held.Some? ==> Related(held.value, last)
    requires forall o | o in front :: Related(o, last)
    ensures Holder(held, TakenOn(held, front)).Some? ==> Related(Holder(held, TakenOn(held, front)).value, last)
  {
    TakenMembers(held, front);
    var taken := TakenOn(held, front);
    if taken != [] {
      assert taken[|taken| - 1] in taken;
    }
  }

  ghost predicate RelatedToAll(held: Option<Operation>, w: seq<Operation>) {
    held.Some? ==> forall o | o in w :: Related(held.value, o)
  }

  lemma RelatedFront(held: Option<Operation>, front: seq<Operation>, last: Operation)
    requires RelatedToAll(held, front + [last])
    ensures RelatedToAll(held, front) && (held.Some? ==> Related(held.value, last))
  {
    assert last in front + [last];
  }

  /** The resolver, whatever its tolerance and the times, takes just these. */
  lemma {:induction false} WhatIsTaken(tolerance: real, r: Option<Record>, held: Option<Operation>, w: seq<Operation>)
    requires CausallyOrdered(w) && ShowsTaken(r, BaseData(r), held, [])
    requires RelatedToAll(held, w)
    ensures ShowsTaken(DeliverAllToRecord(tolerance, r, w), BaseData(r), held, TakenOn(held, w))
  {
    if w != [] {
      var n := |w| - 1;
      assert w == w[..n] + [w[n]];
      CausalPrefix(w, n);
      RelatedFront(held, w[..n], w[n]);
      WhatIsTaken(tolerance, r, held, w[..n]);
      CausalIsRelated(w, n);
      HolderRelated(held, w[..n], w[n]);
      TakenStep(tolerance, DeliverAllToRecord(tolerance, r, w[..n]), BaseData(r), held, w[..n], w[n]);
    }
  }

  lemma TakenOne(op: Operation)
    ensures Taken([op]) == if op.kind.Delete? then [] else [op]
  {
    TakenAppend(None, [], op);
    assert [] + [op] == [op];
    assert TakenOn(None, []) == [];
  }

  lemma DeleteTaken(tolerance: real, r: Option<Record>, op: Operation)
    requires op.kind.Delete? && (IsLive(r) ==> Accepts(tolerance, r, op))
    ensures ShowsTaken(DeliverToRecord(tolerance, r, op), BaseData(r), None, [])
  {
  }

  lemma FirstTakenStep(tolerance: real, r: Option<Record>, op: Operation)
    requires IsLive(r) ==> Accepts(tolerance, r, op)
    ensures ShowsTaken(DeliverToRecord(tolerance, r, op), BaseData(r), None, Taken([op]))
  {
    TakenOne(op);
    if op.kind.Delete? {
      DeleteTaken(tolerance, r, op);
    } else {
      assert [] + [op] == [op];
      AppliedIsTaken(r, BaseData(r), None, [], op);
    }
  }

  /** A live record that takes the first operation runs on like a deleted one with its data. */
  lemma {:induction false} FirstTakenRun(tolerance: real, r: Option<Record>, w: seq<Operation>)
    requires CausallyOrdered(w) && w != [] && (IsLive(r) ==> Accepts(tolerance, r, w[0]))
    ensures ShowsTaken(DeliverAllToRecord(tolerance, r, w), BaseData(r), None, Taken(w))
  {
    var n := |w| - 1;
    assert w == w[..n] + [w[n]];
    if n == 0 {
      assert w[..0] == [];
      FirstTakenStep(tolerance, r, w[0]);
    } else {
      CausalPrefix(w, n);
      FirstTakenRun(tolerance, r, w[..n]);
      CausalIsRelated(w, n);
      HolderRelated(None, w[..n], w[n]);
      TakenStep(tolerance, DeliverAllToRecord(tolerance, r, w[..n]), BaseData(r), None, w[..n], w[n]);
    }
  }
}
