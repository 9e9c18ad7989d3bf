/** When replicas that receive the same operations end with the same record. Delivery may
    reorder, repeat and interleave operations, and split them into batches. */
module Convergence {
  import opened Models
  import opened VectorClocks
  import opened Store
  import opened Conflict
  import opened Replicas
  import StringOrder

  /** A delivery order of `s`: every operation at least once, nothing else. */
  ghost predicate Covers(ds: seq<Operation>, s: set<Operation>) {
    forall o :: o in ds <==> o in s
  }

  /** Every delivery order onto the record `r` ends with the view `v`. */
  ghost predicate AlwaysEndsIn(tolerance: real, r: Option<Record>, s: set<Operation>, v: View) {
    forall ds | Covers(ds, s) :: ViewOf(DeliverAllToRecord(tolerance, r, ds)) == v
  }

  ghost predicate Converges(tolerance: real, r: Option<Record>, s: set<Operation>) {
    exists v :: AlwaysEndsIn(tolerance, r, s, v)
  }

  predicate Wins(tolerance: real, a: Operation, b: Operation) {
    Beats(tolerance, VersionOfOp(a), VersionOfOp(b))
  }

  predicate SameVersion(a: Operation, b: Operation) {
    VersionOfOp(a) == VersionOfOp(b)
  }

  /** The operations that can leave a record to be seen. */
  function Shown(s: set<Operation>): set<Operation> {
    set o | o in s && !o.kind.Delete?
  }

  /** The data that `op` leaves when it is applied to `r`. */
  function DataAfter(r: Option<Record>, op: Operation): Fields {
    Applied(r, op).data
  }

  /** `m` is no delete, nothing wins against it, deletes included, and it wins against every
      other operation that could be shown. */
  ghost predicate WinsOver(tolerance: real, s: set<Operation>, m: Operation) {
    && m in Shown(s)
    && (forall o | o in s :: !Wins(tolerance, o, m))
    && (forall o | o in Shown(s) && !SameVersion(o, m) :: Wins(tolerance, m, o))
  }

  /** Merges are the only operations that build on what they find: those with the version
      of `m` must leave the data it leaves, be it directly or on top of any loser. */
  ghost predicate DataIsFixed(r: Option<Record>, s: set<Operation>, m: Operation) {
    && (forall c | c in Shown(s) && SameVersion(c, m) :: DataAfter(r, c) == DataAfter(r, m))
    && (forall c, o | c in Shown(s) && SameVersion(c, m) && o in Shown(s) && !SameVersion(o, m) ::
          DataAfter(Some(Applied(r, o)), c) == DataAfter(r, m))
  }

  ghost predicate Settles(tolerance: real, r: Option<Record>, s: set<Operation>, m: Operation) {
    WinsOver(tolerance, s, m) && DataIsFixed(r, s, m)
  }

  ghost predicate Canonical(tolerance: real, r: Option<Record>, s: set<Operation>) {
    Shown(s) == {} || exists m :: Settles(tolerance, r, s, m)
  }

  // ----- One delivery

  lemma NeverBeatsItself(tolerance: real, v: Version)
    ensures !Beats(tolerance, v, v)
  {
    OrderDecides(v.clock, v.clock);
  }

  /** What a delivery does to liveness, version and data. */
  lemma DeliveryStep(tolerance: real, r: Option<Record>, op: Operation)
    ensures var r' := DeliverToRecord(tolerance, r, op);
            if (if IsLive(r) then Beats(tolerance, VersionOfOp(op), VersionOf(r.value)) else !op.kind.Delete?) then
              && r' == Some(Applied(r, op))
              && (IsLive(r') <==> !op.kind.Delete?)
              && VersionOf(r'.value) == VersionOfOp(op)
            else r' == r
  {
  }

  // ----- From the condition to the common view

  /** Once reached, the common view stays. */
  predicate Settled(r: Option<Record>, x: Option<Record>, m: Operation) {
    IsLive(x) && VersionOf(x.value) == VersionOfOp(m) && x.value.data == DataAfter(r, m)
  }

  /** Merges with the version of `m` turn `data` into the data of the common view. */
  ghost predicate Absorbs(r: Option<Record>, s: set<Operation>, m: Operation, data: Fields) {
    forall c | c in Shown(s) && c.kind.Merge? && SameVersion(c, m) :: data + c.payload == DataAfter(r, m)
  }

  /** Before that, `m` wins against what is shown and repairs the data below it. */
  ghost predicate Open(tolerance: real, r: Option<Record>, s: set<Operation>, x: Option<Record>, m: Operation) {
    && (IsLive(x) ==> Beats(tolerance, VersionOfOp(m), VersionOf(x.value)))
    && (BaseData(x) == BaseData(r) || Absorbs(r, s, m, BaseData(x)))
  }

  lemma SettledStays(tolerance: real, r: Option<Record>, s: set<Operation>, x: Option<Record>, m: Operation, op: Operation)
    requires Settles(tolerance, r, s, m) && op in s && Settled(r, x, m)
    ensures DeliverToRecord(tolerance, x, op) == x
  {
    DeliveryStep(tolerance, x, op);
  }

  lemma CopySettles(tolerance: real, r: Option<Record>, s: set<Operation>, x: Option<Record>, m: Operation, c: Operation)
    requires Settles(tolerance, r, s, m) && Open(tolerance, r, s, x, m)
    requires c in Shown(s) && SameVersion(c, m)
    ensures Settled(r, DeliverToRecord(tolerance, x, c), m)
  {
    DeliveryStep(tolerance, x, c);
    assert DataAfter(r, c) == DataAfter(r, m);
  }

  lemma OverlaidTwice(a: Fields, b: Fields, p: Fields, c: Fields, d: Fields)
    requires a + c == d && b + p + c == d
    ensures a + p + c == d
  {
    assert (a + p + c).Keys == d.Keys;
    forall f | f in d
      ensures (a + p + c)[f] == d[f]
    {
      assert (a + c)[f] == d[f] && (b + p + c)[f] == d[f];
    }
  }

  lemma LoserAbsorbed(tolerance: real, r: Option<Record>, s: set<Operation>, x: Option<Record>, m: Operation, o: Operation)
    requires Settles(tolerance, r, s, m) && Open(tolerance, r, s, x, m)
    requires o in Shown(s) && !SameVersion(o, m)
    ensures Absorbs(r, s, m, DataAfter(x, o))
  {
    forall c | c in Shown(s) && c.kind.Merge? && SameVersion(c, m)
      ensures DataAfter(x, o) + c.payload == DataAfter(r, m)
    {
      assert DataAfter(Some(Applied(r, o)), c) == DataAfter(r, o) + c.payload == DataAfter(r, m);
      if o.kind.Merge? && BaseData(x) != BaseData(r) {
        OverlaidTwice(BaseData(x), BaseData(r), o.payload, c.payload, DataAfter(r, m));
      }
    }
  }

  lemma OtherStaysOpen(tolerance: real, r: Option<Record>, s: set<Operation>, x: Option<Record>, m: Operation, op: Operation)
    requires Settles(tolerance, r, s, m) && Open(tolerance, r, s, x, m)
    requires op in s && (op.kind.Delete? || !SameVersion(op, m))
    ensures Open(tolerance, r, s, DeliverToRecord(tolerance, x, op), m)
  {
    DeliveryStep(tolerance, x, op);
    if !op.kind.Delete? {
      LoserAbsorbed(tolerance, r, s, x, m, op);
    }
  }

  lemma {:induction false} RunSettles(tolerance: real, r: Option<Record>, s: set<Operation>, m: Operation, ds: seq<Operation>)
    requires !IsLive(r) && Settles(tolerance, r, s, m) && forall o | o in ds :: o in s
    ensures var x := DeliverAllToRecord(tolerance, r, ds);
            Settled(r, x, m) || (m !in ds && Open(tolerance, r, s, x, m))
  {
    if ds != [] {
      var front, last := ds[..|ds| - 1], ds[|ds| - 1];
      assert ds == front + [last] && last in s;
      RunSettles(tolerance, r, s, m, front);
      var x := DeliverAllToRecord(tolerance, r, front);
      if Settled(r, x, m) {
        SettledStays(tolerance, r, s, x, m, last);
      } else if !last.kind.Delete? && SameVersion(last, m) {
        CopySettles(tolerance, r, s, x, m, last);
      } else {
        OtherStaysOpen(tolerance, r, s, x, m, last);
      }
    }
  }

  lemma SettlesEndsIn(tolerance: real, r: Option<Record>, s: set<Operation>, m: Operation)
    requires !IsLive(r) && Settles(tolerance, r, s, m)
    ensures AlwaysEndsIn(tolerance, r, s, ViewOf(Some(Applied(r, m))))
  {
    forall ds | Covers(ds, s)
      ensures ViewOf(DeliverAllToRecord(tolerance, r, ds)) == ViewOf(Some(Applied(r, m)))
    {
      RunSettles(tolerance, r, s, m, ds);
    }
  }

  lemma {:induction false} DeletesDoNothing(tolerance: real, r: Option<Record>, ds: seq<Operation>)
    requires !IsLive(r) && forall o | o in ds :: o.kind.Delete?
    ensures DeliverAllToRecord(tolerance, r, ds) == r
  {
    if ds != [] {
      assert ds[|ds| - 1] in ds;
      assert forall o | o in ds[..|ds| - 1] :: o in ds;
      DeletesDoNothing(tolerance, r, ds[..|ds| - 1]);
    }
  }

  // ----- From the common view to the condition

  lemma {:induction false} UnbeatenStays(tolerance: real, r: Option<Record>, ds: seq<Operation>)
    requires IsLive(r) && forall o | o in ds :: !Beats(tolerance, VersionOfOp(o), VersionOf(r.value))
    ensures DeliverAllToRecord(tolerance, r, ds) == r
  {
    if ds != [] {
      assert ds[|ds| - 1] in ds;
      assert forall o | o in ds[..|ds| - 1] :: o in ds;
      UnbeatenStays(tolerance, r, ds[..|ds| - 1]);
      DeliveryStep(tolerance, r, ds[|ds| - 1]);
    }
  }

  predicate Shows(r: Option<Record>, v: Version) {
    IsLive(r) && VersionOf(r.value) == v
  }

  /** A version that is not among the operations delivered later does not come back. */
  lemma {:induction false} VersionStaysAway(tolerance: real, r: Option<Record>, ds: seq<Operation>, v: Version)
    requires !Shows(r, v) && forall o | o in ds :: o.kind.Delete? || VersionOfOp(o) != v
    ensures !Shows(DeliverAllToRecord(tolerance, r, ds), v)
  {
    if ds != [] {
      assert ds[|ds| - 1] in ds;
      assert forall o | o in ds[..|ds| - 1] :: o in ds;
      VersionStaysAway(tolerance, r, ds[..|ds| - 1], v);
      DeliveryStep(tolerance, DeliverAllToRecord(tolerance, r, ds[..|ds| - 1]), ds[|ds| - 1]);
    }
  }

  /** A record that is shown carries the version of an operation delivered. */
  lemma {:induction false} ShowsSomeOp(tolerance: real, r: Option<Record>, ds: seq<Operation>)
    requires !IsLive(r)
    ensures var x := DeliverAllToRecord(tolerance, r, ds);
            IsLive(x) ==> exists o :: o in ds && !o.kind.Delete? && VersionOfOp(o) == VersionOf(x.value)
  {
    if ds != [] {
      var front, last := ds[..|ds| - 1], ds[|ds| - 1];
      var mid, x := DeliverAllToRecord(tolerance, r, front), DeliverAllToRecord(tolerance, r, ds);
      ShowsSomeOp(tolerance, r, front);
      DeliveryStep(tolerance, mid, last);
      assert last in ds;
      if x == mid && IsLive(x) {
        var o :| o in front && !o.kind.Delete? && VersionOfOp(o) == VersionOf(x.value);
        assert o in ds;
      }
    }
  }

  lemma Enumerate(s: set<Operation>) returns (ds: seq<Operation>)
    ensures Covers(ds, s)
  {
    ds := [];
    var rest := s;
    while rest != {}
      invariant rest <= s && forall o :: o in ds <==> o in s - rest
      decreases rest
    {
      var o :| o in rest;
      ds, rest := ds + [o], rest - {o};
    }
  }

  lemma DeliverOne(tolerance: real, r: Option<Record>, op: Operation)
    ensures DeliverAllToRecord(tolerance, r, [op]) == DeliverToRecord(tolerance, r, op)
  {
    assert [op][..0] == [];
  }

  /** One more delivery at the end of a full one. */
  lemma DeliverLast(tolerance: real, r: Option<Record>, s: set<Operation>, ds: seq<Operation>, o: Operation)
    requires Covers(ds, s) && o in s
    ensures Covers(ds + [o], s)
    ensures DeliverAllToRecord(tolerance, r, ds + [o]) == DeliverToRecord(tolerance, DeliverAllToRecord(tolerance, r, ds), o)
  {
    assert (ds + [o])[..|ds|] == ds;
  }

  /** Some deliveries ahead of a full one. */
  lemma DeliverFirst(tolerance: real, r: Option<Record>, s: set<Operation>, first: seq<Operation>) returns (ds: seq<Operation>)
    requires forall o | o in first :: o in s
    ensures Covers(first + ds, s) && forall o | o in ds :: o in s
    ensures DeliverAllToRecord(tolerance, r, first + ds) == DeliverAllToRecord(tolerance, DeliverAllToRecord(tolerance, r, first), ds)
  {
    ds := Enumerate(s);
    DeliverAllConcat(tolerance, r, first, ds);
  }

  /** The common view is the one of an operation that no other beats. */
  lemma CommonViewIsShown(tolerance: real, r: Option<Record>, s: set<Operation>, v: View) returns (m: Operation)
    requires !IsLive(r) && Shown(s) != {} && AlwaysEndsIn(tolerance, r, s, v)
    ensures m in Shown(s) && v.Live? && Version(v.clock, v.timestamp, v.author) == VersionOfOp(m)
  {
    var ds := Enumerate(s);
    var x := DeliverAllToRecord(tolerance, r, ds);
    assert ViewOf(x) == v;
    var o :| o in Shown(s);
    DeliverLast(tolerance, r, s, ds, o);
    assert ViewOf(DeliverToRecord(tolerance, x, o)) == v;
    DeliveryStep(tolerance, x, o);
    ShowsSomeOp(tolerance, r, ds);
    m :| m in ds && !m.kind.Delete? && VersionOfOp(m) == VersionOf(x.value);
  }

  /** If `o` beats the common view, delivering it last changes the view. */
  lemma CommonViewUnbeaten(tolerance: real, r: Option<Record>, s: set<Operation>, v: View, m: Operation, o: Operation)
    requires AlwaysEndsIn(tolerance, r, s, v) && o in s
    requires v.Live? && Version(v.clock, v.timestamp, v.author) == VersionOfOp(m)
    ensures !Wins(tolerance, o, m)
  {
    var ds := Enumerate(s);
    var x := DeliverAllToRecord(tolerance, r, ds);
    assert ViewOf(x) == v;
    DeliverLast(tolerance, r, s, ds, o);
    assert ViewOf(DeliverToRecord(tolerance, x, o)) == v;
    DeliveryStep(tolerance, x, o);
    NeverBeatsItself(tolerance, VersionOfOp(m));
  }

  /** If `m` does not beat `o`, then `o` delivered first keeps every copy of `m` out, and
      nothing after them brings its version back. */
  lemma FirstKeepsOut(tolerance: real, r: Option<Record>, m: Operation, o: Operation, copies: seq<Operation>, others: seq<Operation>)
    requires !IsLive(r) && !o.kind.Delete? && !SameVersion(o, m) && !Wins(tolerance, m, o)
    requires forall x | x in copies :: SameVersion(x, m)
    requires forall x | x in others :: !SameVersion(x, m)
    ensures !Shows(DeliverAllToRecord(tolerance, r, [o] + copies + others), VersionOfOp(m))
  {
    var first := DeliverToRecord(tolerance, r, o);
    DeliverOne(tolerance, r, o);
    DeliveryStep(tolerance, r, o);
    UnbeatenStays(tolerance, first, copies);
    VersionStaysAway(tolerance, first, others, VersionOfOp(m));
    DeliverAllConcat(tolerance, r, [o], copies);
    DeliverAllConcat(tolerance, r, [o] + copies, others);
  }

  lemma CommonViewWins(tolerance: real, r: Option<Record>, s: set<Operation>, v: View, m: Operation, o: Operation)
    requires !IsLive(r) && AlwaysEndsIn(tolerance, r, s, v) && o in Shown(s) && !SameVersion(o, m)
    requires v.Live? && Version(v.clock, v.timestamp, v.author) == VersionOfOp(m)
    ensures Wins(tolerance, m, o)
  {
    var copies := Enumerate(set x | x in s && SameVersion(x, m));
    var others := Enumerate(set x | x in s && !SameVersion(x, m));
    CoversInParts(s, m, o, copies, others);
    assert ViewOf(DeliverAllToRecord(tolerance, r, [o] + copies + others)) == v;
    if !Wins(tolerance, m, o) {
      FirstKeepsOut(tolerance, r, m, o, copies, others);
    }
  }

  lemma CoversInParts(s: set<Operation>, m: Operation, o: Operation, copies: seq<Operation>, others: seq<Operation>)
    requires o in s
    requires Covers(copies, set x | x in s && SameVersion(x, m))
    requires Covers(others, set x | x in s && !SameVersion(x, m))
    ensures Covers([o] + copies + others, s)
  {
  }

  /** What a copy of `m` leaves on top of `x` must be the common data, because nothing
      delivered after it changes it. */
  lemma CommonData(tolerance: real, r: Option<Record>, s: set<Operation>, v: View, m: Operation, first: seq<Operation>, c: Operation)
    requires AlwaysEndsIn(tolerance, r, s, v) && v.Live?
    requires forall o | o in s :: !Wins(tolerance, o, m)
    requires c in Shown(s) && SameVersion(c, m) && forall o | o in first :: o in s
    requires Accepts(tolerance, DeliverAllToRecord(tolerance, r, first), c)
    ensures DataAfter(DeliverAllToRecord(tolerance, r, first), c) == v.data
  {
    var x := DeliverAllToRecord(tolerance, r, first);
    var ds := DeliverFirst(tolerance, r, s, first + [c]);
    assert (first + [c])[..|first|] == first;
    DeliveryStep(tolerance, x, c);
    UnbeatenStays(tolerance, Some(Applied(x, c)), ds);
    assert ViewOf(DeliverAllToRecord(tolerance, r, first + [c] + ds)) == v;
  }

  lemma CommonViewSettles(tolerance: real, r: Option<Record>, s: set<Operation>, v: View)
    requires !IsLive(r) && Shown(s) != {} && AlwaysEndsIn(tolerance, r, s, v)
    ensures exists m :: Settles(tolerance, r, s, m)
  {
    var m := CommonViewIsShown(tolerance, r, s, v);
    forall o | o in s
      ensures !Wins(tolerance, o, m)
    {
      CommonViewUnbeaten(tolerance, r, s, v, m, o);
    }
    forall o | o in Shown(s) && !SameVersion(o, m)
      ensures Wins(tolerance, m, o)
    {
      CommonViewWins(tolerance, r, s, v, m, o);
    }
    forall c | c in Shown(s) && SameVersion(c, m)
      ensures DataAfter(r, c) == v.data
    {
      CommonData(tolerance, r, s, v, m, [], c);
    }
    forall c, o | c in Shown(s) && SameVersion(c, m) && o in Shown(s) && !SameVersion(o, m)
      ensures DataAfter(Some(Applied(r, o)), c) == v.data
    {
      DeliverOne(tolerance, r, o);
      DeliveryStep(tolerance, r, o);
      CommonData(tolerance, r, s, v, m, [o], c);
    }
    assert Settles(tolerance, r, s, m);
  }

  // ----- The main theorem

  /** From a missing or deleted record, a set of operations of any of the four kinds ends in
      one view, whatever the delivery order and the repetitions, exactly when it has nothing
      to show or some operation of it settles the record. */
  lemma ConvergesExactlyWhen(tolerance: real, r: Option<Record>, s: set<Operation>)
    requires !IsLive(r)
    ensures Converges(tolerance, r, s) <==> Canonical(tolerance, r, s)
  {
    if m :| Settles(tolerance, r, s, m) {
      SettlesEndsIn(tolerance, r, s, m);
    }
    if Shown(s) == {} {
      forall ds | Covers(ds, s)
        ensures ViewOf(DeliverAllToRecord(tolerance, r, ds)) == ViewOf(r)
      {
        forall o: Operation | o in ds
          ensures o.kind.Delete?
        {
          assert o !in Shown(s);
        }
        DeletesDoNothing(tolerance, r, ds);
      }
      assert AlwaysEndsIn(tolerance, r, s, ViewOf(r));
    } else if v :| AlwaysEndsIn(tolerance, r, s, v) {
      CommonViewSettles(tolerance, r, s, v);
    }
  }

  // ----- The condition in simpler words

  ghost predicate NoMerges(s: set<Operation>) {
    forall o | o in s :: !o.kind.Merge?
  }

  /** A copy shows the same, not just at the same version. */
  predicate Copy(c: Operation, m: Operation) {
    !c.kind.Delete? && ViewOfOp(c) == ViewOfOp(m)
  }

  /** `m` wins against every different operation that could be shown, and nothing wins
      against `m`. */
  ghost predicate Dominant(tolerance: real, s: set<Operation>, m: Operation) {
    && m in Shown(s)
    && (forall o | o in s :: !Wins(tolerance, o, m))
    && (forall o | o in Shown(s) && !Copy(o, m) :: Wins(tolerance, m, o))
  }

  /** If a copy of the dominant operation is a merge, it must override every field there is. */
  ghost predicate OverridesAll(s: set<Operation>, m: Operation) {
    (exists c :: c in s && Copy(c, m) && c.kind.Merge?) ==> forall o | o in Shown(s) :: o.payload.Keys <= m.payload.Keys
  }

  ghost predicate OnlyCopies(s: set<Operation>, m: Operation) {
    forall o | o in Shown(s) && SameVersion(o, m) :: Copy(o, m)
  }

  lemma DominantCopies(tolerance: real, s: set<Operation>, m: Operation)
    ensures Dominant(tolerance, s, m) <==> WinsOver(tolerance, s, m) && OnlyCopies(s, m)
  {
    NeverBeatsItself(tolerance, VersionOfOp(m));
  }

  /** Without merges the condition is the same for every missing or deleted record. */
  lemma SettlesWithoutMerges(tolerance: real, r: Option<Record>, s: set<Operation>, m: Operation)
    requires NoMerges(s)
    ensures Settles(tolerance, r, s, m) <==> Dominant(tolerance, s, m)
  {
    DominantCopies(tolerance, s, m);
  }

  lemma FieldsOverridden(a: Fields, b: Fields)
    ensures a + b == b <==> a.Keys <= b.Keys
  {
    assert (a + b).Keys == a.Keys + b.Keys;
  }

  lemma DataOnMissing(o: Operation, c: Operation)
    requires !o.kind.Delete? && !c.kind.Delete?
    ensures DataAfter(None, o) == o.payload
    ensures DataAfter(Some(Applied(None, o)), c) == if c.kind.Merge? then o.payload + c.payload else c.payload
  {
    assert map[] + o.payload == o.payload;
  }

  /** On a missing record the data is right exactly when a merge that wins sets every field
      of all others. */
  lemma SettlesOnMissing(tolerance: real, s: set<Operation>, m: Operation)
    ensures Settles(tolerance, None, s, m) <==> Dominant(tolerance, s, m) && OverridesAll(s, m)
  {
    DominantCopies(tolerance, s, m);
    if m in Shown(s) {
      if OnlyCopies(s, m) {
        OverridesAsData(s, m);
      } else {
        var c :| c in Shown(s) && SameVersion(c, m) && !Copy(c, m);
        DataOnMissing(c, m);
        DataOnMissing(m, c);
        assert DataAfter(None, c) != DataAfter(None, m);
      }
    }
  }

  ghost predicate MergesOverride(s: set<Operation>, m: Operation) {
    forall c, o | c in Shown(s) && SameVersion(c, m) && o in Shown(s) && c.kind.Merge? :: o.payload + c.payload == m.payload
  }

  lemma OverridesAsData(s: set<Operation>, m: Operation)
    requires m in Shown(s) && OnlyCopies(s, m)
    ensures OverridesAll(s, m) <==> DataIsFixed(None, s, m)
  {
    OverridesAsOverlays(s, m);
    forall o: Operation, c: Operation | o in Shown(s) && c in Shown(s)
      ensures DataAfter(None, o) == o.payload
      ensures DataAfter(Some(Applied(None, o)), c) == if c.kind.Merge? then o.payload + c.payload else c.payload
    {
      DataOnMissing(o, c);
    }
    if DataIsFixed(None, s, m) {
      forall c, o | c in Shown(s) && SameVersion(c, m) && o in Shown(s) && c.kind.Merge?
        ensures o.payload + c.payload == m.payload
      {
        if SameVersion(o, m) {
          FieldsOverridden(o.payload, c.payload);
        } else {
          assert DataAfter(Some(Applied(None, o)), c) == m.payload;
        }
      }
    }
  }

  lemma OverridesAsOverlays(s: set<Operation>, m: Operation)
    requires m in Shown(s) && OnlyCopies(s, m)
    ensures OverridesAll(s, m) <==> MergesOverride(s, m)
  {
    forall o: Operation
      ensures o.payload + m.payload == m.payload <==> o.payload.Keys <= m.payload.Keys
    {
      FieldsOverridden(o.payload, m.payload);
    }
    if c :| c in s && Copy(c, m) && c.kind.Merge? {
      assert c in Shown(s) && SameVersion(c, m);
    }
  }

  /** The main theorem without merges: the same condition and the same view for every
      missing or deleted record. */
  lemma ConvergesWithoutMerges(tolerance: real, r: Option<Record>, s: set<Operation>)
    requires !IsLive(r) && NoMerges(s)
    ensures Converges(tolerance, r, s) <==> Shown(s) == {} || exists m :: Dominant(tolerance, s, m)
    ensures forall m | Dominant(tolerance, s, m) :: AlwaysEndsIn(tolerance, r, s, ViewOfOp(m))
  {
    forall m { SettlesWithoutMerges(tolerance, r, s, m); }
    ConvergesExactlyWhen(tolerance, r, s);
    forall m | Dominant(tolerance, s, m)
      ensures AlwaysEndsIn(tolerance, r, s, ViewOfOp(m))
    {
      SettlesEndsIn(tolerance, r, s, m);
    }
  }

  /** The main theorem on a missing record. */
  lemma ConvergesOnMissing(tolerance: real, s: set<Operation>)
    ensures Converges(tolerance, None, s) <==>
            Shown(s) == {} || exists m :: Dominant(tolerance, s, m) && OverridesAll(s, m)
  {
    forall m { SettlesOnMissing(tolerance, s, m); }
    ConvergesExactlyWhen(tolerance, None, s);
  }

  // ----- Sufficient conditions

  /** `m` wins against all others, and none of them against `m`. */
  ghost predicate Top(tolerance: real, s: set<Operation>, m: Operation) {
    m in s && forall o | o in s && o != m :: Wins(tolerance, m, o) && !Wins(tolerance, o, m)
  }

  /** If one operation wins against all others, a set without merges converges exactly when
      that operation is not a delete, or when all are. */
  lemma TopDecides(tolerance: real, r: Option<Record>, s: set<Operation>, m: Operation)
    requires !IsLive(r) && NoMerges(s) && Top(tolerance, s, m)
    ensures Canonical(tolerance, r, s) <==> !m.kind.Delete? || Shown(s) == {}
    ensures !m.kind.Delete? ==> Settles(tolerance, r, s, m)
  {
    NeverBeatsItself(tolerance, VersionOfOp(m));
    if !m.kind.Delete? {
      SettlesWithoutMerges(tolerance, r, s, m);
    } else {
      forall x
        ensures !Settles(tolerance, r, s, x)
      {
        assert x in Shown(s) ==> x != m && Wins(tolerance, m, x);
      }
    }
  }

  ghost predicate StrictTotal(tolerance: real, s: set<Operation>) {
    && (forall a, b | a in s && b in s && a != b :: Wins(tolerance, a, b) <==> !Wins(tolerance, b, a))
    && (forall a, b, c | a in s && b in s && c in s && Wins(tolerance, a, b) && Wins(tolerance, b, c) :: Wins(tolerance, a, c))
  }

  lemma {:induction false} TotalOrderHasTop(tolerance: real, s: set<Operation>)
    requires s != {} && StrictTotal(tolerance, s)
    ensures exists m :: Top(tolerance, s, m)
  {
    var x :| x in s;
    var rest := s - {x};
    if rest == {} {
      assert s == {x};
      assert Top(tolerance, s, x);
    } else {
      TotalOrderHasTop(tolerance, rest);
      var y :| Top(tolerance, rest, y);
      var m := if Wins(tolerance, x, y) then x else y;
      forall o | o in s && o != m
        ensures Wins(tolerance, m, o) && !Wins(tolerance, o, m)
      {
        if m == x && o != y {
          assert o in rest && Wins(tolerance, y, o);
        } else if o != x && o != y {
          assert o in rest;
        }
      }
      assert Top(tolerance, s, m);
    }
  }

  predicate Within(tolerance: real, a: Operation, b: Operation) {
    Gap(VersionOfOp(a), VersionOfOp(b)) <= tolerance
  }

  /** Clocks that are synchronised well enough for last-write-wins. */
  predicate SkewSafe(tolerance: real, s: set<Operation>) {
    && tolerance >= 0.0
    && (forall a, b | a in s && b in s && Order(a.vectorClock, b.vectorClock).Before? ::
          b.timestamp > a.timestamp + tolerance)
    && (forall a, b, c | a in s && b in s && c in s && Within(tolerance, a, b) && Within(tolerance, b, c) ::
          Within(tolerance, a, c))
    && (forall a, b | a in s && b in s && a != b ::
          && !Order(a.vectorClock, b.vectorClock).Equal?
          && (Within(tolerance, a, b) ==> a.nodeId != b.nodeId))
  }

  /** Under synchronised clocks the four-way decision is one comparison of time windows
      followed by node identifiers. */
  lemma SkewSafeDecision(tolerance: real, s: set<Operation>, a: Operation, b: Operation)
    requires SkewSafe(tolerance, s) && a in s && b in s && a != b
    ensures Wins(tolerance, a, b) <==>
            a.timestamp > b.timestamp + tolerance || (Within(tolerance, a, b) && StringOrder.Less(b.nodeId, a.nodeId))
  {
    OrderFlips(a.vectorClock, b.vectorClock);
  }

  /** The relation "wins against" is a strict total order on a skew-safe set. */
  lemma SkewSafeIsStrictTotal(tolerance: real, s: set<Operation>)
    requires SkewSafe(tolerance, s)
    ensures StrictTotal(tolerance, s)
  {
    forall a, b | a in s && b in s && a != b
      ensures Wins(tolerance, a, b) <==> !Wins(tolerance, b, a)
    {
      SkewSafeDecision(tolerance, s, a, b);
      SkewSafeDecision(tolerance, s, b, a);
      if Within(tolerance, a, b) {
        StringOrder.Connected(a.nodeId, b.nodeId);
        if StringOrder.Less(a.nodeId, b.nodeId) {
          StringOrder.Asymmetric(a.nodeId, b.nodeId);
        }
      }
    }
    forall a, b, c | a in s && b in s && c in s && Wins(tolerance, a, b) && Wins(tolerance, b, c)
      ensures Wins(tolerance, a, c)
    {
      SkewSafeWinsChain(tolerance, s, a, b, c);
    }
  }

  lemma SkewSafeWinsChain(tolerance: real, s: set<Operation>, a: Operation, b: Operation, c: Operation)
    requires SkewSafe(tolerance, s) && a in s && b in s && c in s
    requires Wins(tolerance, a, b) && Wins(tolerance, b, c)
    ensures Wins(tolerance, a, c)
  {
    OrderDecides(a.vectorClock, a.vectorClock);
    OrderDecides(b.vectorClock, b.vectorClock);
    SkewSafeDecision(tolerance, s, a, b);
    SkewSafeDecision(tolerance, s, b, c);
    if a == c {
      SkewSafeDecision(tolerance, s, b, a);
      if StringOrder.Less(b.nodeId, a.nodeId) {
        StringOrder.Asymmetric(b.nodeId, a.nodeId);
      }
    } else {
      SkewSafeDecision(tolerance, s, a, c);
      if StringOrder.Less(c.nodeId, b.nodeId) && StringOrder.Less(b.nodeId, a.nodeId) {
        StringOrder.Transitive(c.nodeId, b.nodeId, a.nodeId);
      }
      assert Within(tolerance, b, a) <==> Within(tolerance, a, b);
      assert Within(tolerance, c, b) <==> Within(tolerance, b, c);
      assert Within(tolerance, a, c) && Within(tolerance, c, b) ==> Within(tolerance, a, b);
      assert Within(tolerance, b, a) && Within(tolerance, a, c) ==> Within(tolerance, b, c);
    }
  }

  /** A causal maximum needs no assumption on timestamps at all. */
  predicate ChainTop(s: set<Operation>, m: Operation) {
    m in s && forall o | o in s && o != m :: Order(o.vectorClock, m.vectorClock).Before?
  }

  lemma ChainTopIsTop(tolerance: real, s: set<Operation>, m: Operation)
    requires ChainTop(s, m)
    ensures Top(tolerance, s, m)
  {
    forall o | o in s && o != m
      ensures Wins(tolerance, m, o) && !Wins(tolerance, o, m)
    {
      CausalWinner(tolerance, VersionOfOp(o), VersionOfOp(m));
    }
  }

  /** So sets without merges converge under well synchronised clocks, or below a causal
      maximum, exactly when the winner is not a delete. */
  lemma WinnerDecides(tolerance: real, r: Option<Record>, s: set<Operation>) returns (m: Operation)
    requires !IsLive(r) && NoMerges(s) && s != {}
    requires SkewSafe(tolerance, s) || exists m :: ChainTop(s, m)
    ensures Top(tolerance, s, m)
    ensures Converges(tolerance, r, s) <==> !m.kind.Delete? || Shown(s) == {}
  {
    if SkewSafe(tolerance, s) {
      SkewSafeIsStrictTotal(tolerance, s);
      TotalOrderHasTop(tolerance, s);
      m :| Top(tolerance, s, m);
    } else {
      m :| ChainTop(s, m);
      ChainTopIsTop(tolerance, s, m);
    }
    TopDecides(tolerance, r, s, m);
    ConvergesExactlyWhen(tolerance, r, s);
  }

  // ----- The same at the level of replicas

  /** The operations on `k` that a run of any requests brought. */
  ghost function OpsOn(ops: seq<Operation>, k: Key): set<Operation> {
    set o | o in ops && o.key == k
  }

  lemma OnKeyCovers(ops: seq<Operation>, k: Key)
    ensures Covers(OnKey(ops, k), OpsOn(ops, k))
  {
    OnKeyMembers(ops, k);
  }

  /** A replica without the live record `k` that receives operations on it of any kinds, in
      any order, batching and repetition and among any other traffic, shows in the end what
      the settling operation leaves on its own. */
  lemma ReplicaSettles(tolerance: real, rep: Replica, ops: seq<Operation>, k: Key, m: Operation)
    requires !IsLive(Lookup(rep.table, k)) && Settles(tolerance, Lookup(rep.table, k), OpsOn(ops, k), m)
    ensures ViewOf(Lookup(Receive(tolerance, rep, ops).table, k)) == ViewOf(Some(Applied(Lookup(rep.table, k), m)))
  {
    ReceiveRecord(tolerance, rep, ops, k);
    OnKeyCovers(ops, k);
    SettlesEndsIn(tolerance, Lookup(rep.table, k), OpsOn(ops, k), m);
  }

  /** Two replicas without the live record `k` that receive the same operations on it show
      the same record, if the operations are canonical for the first and the data under a
      possible tombstone, which merges build on, is the same. */
  lemma ReplicasConverge(tolerance: real, a: Replica, b: Replica, xs: seq<Operation>, ys: seq<Operation>, k: Key)
    requires !IsLive(Lookup(a.table, k)) && !IsLive(Lookup(b.table, k))
    requires OpsOn(xs, k) == OpsOn(ys, k) && Canonical(tolerance, Lookup(a.table, k), OpsOn(xs, k))
    requires NoMerges(OpsOn(xs, k)) || BaseData(Lookup(a.table, k)) == BaseData(Lookup(b.table, k))
    ensures ViewOf(Lookup(Receive(tolerance, a, xs).table, k)) == ViewOf(Lookup(Receive(tolerance, b, ys).table, k))
  {
    var s := OpsOn(xs, k);
    var ra, rb := Lookup(a.table, k), Lookup(b.table, k);
    if m :| Settles(tolerance, ra, s, m) {
      SettlesElsewhere(tolerance, ra, rb, s, m);
      ReplicaSettles(tolerance, a, xs, k, m);
      ReplicaSettles(tolerance, b, ys, k, m);
    } else {
      NothingShown(tolerance, a, xs, k);
      NothingShown(tolerance, b, ys, k);
    }
  }

  lemma DataElsewhere(r: Option<Record>, r': Option<Record>, o: Operation, c: Operation)
    requires (!o.kind.Merge? && !o.kind.Delete? && !c.kind.Merge? && !c.kind.Delete?) || BaseData(r) == BaseData(r')
    ensures DataAfter(r, o) == DataAfter(r', o)
    ensures DataAfter(Some(Applied(r, o)), c) == DataAfter(Some(Applied(r', o)), c)
  {
  }

  lemma SettlesElsewhere(tolerance: real, r: Option<Record>, r': Option<Record>, s: set<Operation>, m: Operation)
    requires Settles(tolerance, r, s, m) && (NoMerges(s) || BaseData(r) == BaseData(r'))
    ensures Settles(tolerance, r', s, m) && ViewOf(Some(Applied(r, m))) == ViewOf(Some(Applied(r', m)))
  {
    DataElsewhere(r, r', m, m);
    forall c, o | c in Shown(s) && SameVersion(c, m) && o in Shown(s) && !SameVersion(o, m)
      ensures DataAfter(Some(Applied(r', o)), c) == DataAfter(r', m)
    {
      DataElsewhere(r, r', o, c);
    }
    forall c | c in Shown(s) && SameVersion(c, m)
      ensures DataAfter(r', c) == DataAfter(r', m)
    {
      DataElsewhere(r, r', c, c);
    }
  }

  lemma NothingShown(tolerance: real, rep: Replica, ops: seq<Operation>, k: Key)
    requires !IsLive(Lookup(rep.table, k)) && Shown(OpsOn(ops, k)) == {}
    ensures Lookup(Receive(tolerance, rep, ops).table, k) == Lookup(rep.table, k)
  {
    ReceiveRecord(tolerance, rep, ops, k);
    OnKeyCovers(ops, k);
    forall o | o in OnKey(ops, k)
      ensures o.kind.Delete?
    {
      assert o !in Shown(OpsOn(ops, k));
    }
    DeletesDoNothing(tolerance, Lookup(rep.table, k), OnKey(ops, k));
  }

  // ----- Where convergence fails

  function Sample(author: NodeId, at: real): Operation {
    Operation("op-" + author, author, Update, Key("c", "r"), map["by" := Text(author)], at, map[author := 1], 1, P2)
  }

  ghost predicate Beaten(tolerance: real, s: set<Operation>, m: Operation) {
    exists o :: o in s && Wins(tolerance, o, m)
  }

  /** A set in which every operation that could be shown is beaten by another has no
      canonical result, be the other a delete or not. */
  lemma AllBeatenDiverges(tolerance: real, r: Option<Record>, s: set<Operation>)
    requires !IsLive(r) && Shown(s) != {} && forall m | m in Shown(s) :: Beaten(tolerance, s, m)
    ensures !Converges(tolerance, r, s)
  {
    ConvergesExactlyWhen(tolerance, r, s);
    forall m
      ensures !Settles(tolerance, r, s, m)
    {
      assert m in Shown(s) ==> Beaten(tolerance, s, m);
    }
  }

  lemma NoneOfThree(tolerance: real, r: Option<Record>, s: set<Operation>, a: Operation, b: Operation, c: Operation)
    requires !IsLive(r) && s == {a, b, c} && !a.kind.Delete?
    requires !Settles(tolerance, r, s, a) && !Settles(tolerance, r, s, b) && !Settles(tolerance, r, s, c)
    ensures !Converges(tolerance, r, s)
  {
    ConvergesExactlyWhen(tolerance, r, s);
    assert a in Shown(s);
    forall m
      ensures !Settles(tolerance, r, s, m)
    {
      if m != a && m != b && m != c {
        StrangersDoNotSettle(tolerance, r, s, m);
      }
    }
  }

  /** Three operations that win against each other in a circle. */
  lemma CircleDiverges(tolerance: real, r: Option<Record>, a: Operation, b: Operation, c: Operation)
    requires !IsLive(r) && !a.kind.Delete?
    requires Wins(tolerance, a, b) && Wins(tolerance, b, c) && Wins(tolerance, c, a)
    ensures !Converges(tolerance, r, {a, b, c})
  {
    BeatenNeverSettles(tolerance, r, {a, b, c}, c, a);
    BeatenNeverSettles(tolerance, r, {a, b, c}, a, b);
    BeatenNeverSettles(tolerance, r, {a, b, c}, b, c);
    NoneOfThree(tolerance, r, {a, b, c}, a, b, c);
  }

  lemma StrangersDoNotSettle(tolerance: real, r: Option<Record>, s: set<Operation>, m: Operation)
    requires m !in s
    ensures !Settles(tolerance, r, s, m)
  {
  }

  lemma BeatenNeverSettles(tolerance: real, r: Option<Record>, s: set<Operation>, o: Operation, m: Operation)
    requires o in s && Wins(tolerance, o, m)
    ensures !Settles(tolerance, r, s, m)
  {
  }

  /** Three concurrent updates 0.8 seconds apart under the default tolerance of one second:
      each wins against one of the other two, so no order of delivery is canonical. */
  lemma SkewWindowCycle(r: Option<Record>)
    requires !IsLive(r)
    ensures !Converges(1.0, r, {Sample("c", 0.0), Sample("b", 0.8), Sample("a", 1.6)})
  {
    LettersInOrder();
    SampleWins("c", 0.0, "b", 0.8);
    SampleWins("b", 0.8, "a", 1.6);
    SampleWins("a", 1.6, "c", 0.0);
    CircleDiverges(1.0, r, Sample("c", 0.0), Sample("b", 0.8), Sample("a", 1.6));
  }

  lemma LettersInOrder()
    ensures StringOrder.Less("a", "b") && StringOrder.Less("b", "c")
  {
  }

  lemma SampleWins(x: NodeId, tx: real, y: NodeId, ty: real)
    requires x != y && (tx > ty + 1.0 || (ty <= tx + 1.0 && StringOrder.Less(y, x)))
    ensures Wins(1.0, Sample(x, tx), Sample(y, ty))
  {
    ConcurrentSamples(x, tx, y, ty);
  }

  lemma ConcurrentSamples(x: NodeId, tx: real, y: NodeId, ty: real)
    requires x != y
    ensures Order(Sample(x, tx).vectorClock, Sample(y, ty).vectorClock).Concurrent?
    ensures Order(Sample(y, ty).vectorClock, Sample(x, tx).vectorClock).Concurrent?
  {
    var a, b := Sample(x, tx).vectorClock, Sample(y, ty).vectorClock;
    OrderDecides(a, b);
    OrderDecides(b, a);
    assert At(a, x) == 1 && At(b, x) == 0 && At(a, y) == 0 && At(b, y) == 1;
  }

  /** A delete that overtakes an operation it wins against is discarded, and the operation
      then brings the record back. */
  lemma OvertakenDeleteIsLost(tolerance: real, u: Operation, d: Operation)
    requires !u.kind.Delete? && d.kind.Delete? && Wins(tolerance, d, u)
    ensures ViewOf(DeliverAllToRecord(tolerance, None, [u, d])) == Gone
    ensures ViewOf(DeliverAllToRecord(tolerance, None, [d, u])) == ViewOfOp(u)
  {
    PairDelivery(tolerance, u, d);
    PairDelivery(tolerance, d, u);
    DataOnMissing(u, u);
  }

  /** A merge that overtakes one it wins against makes that one stale. The record comes out
      right exactly when the winner sets every field of the other. */
  lemma OvertakenMergeLosesFields(tolerance: real, a: Operation, b: Operation)
    requires a.kind.Merge? && b.kind.Merge? && Wins(tolerance, b, a) && !Wins(tolerance, a, b)
    ensures var inOrder := ViewOf(DeliverAllToRecord(tolerance, None, [a, b]));
            var swapped := ViewOf(DeliverAllToRecord(tolerance, None, [b, a]));
            && inOrder.Live? && inOrder.data == a.payload + b.payload
            && swapped.Live? && swapped.data == b.payload
            && (inOrder == swapped <==> a.payload.Keys <= b.payload.Keys)
  {
    PairDelivery(tolerance, a, b);
    PairDelivery(tolerance, b, a);
    DeliveryStep(tolerance, None, a);
    DeliveryStep(tolerance, None, b);
    DeliveryStep(tolerance, Some(Applied(None, a)), b);
    DeliveryStep(tolerance, Some(Applied(None, b)), a);
    DataOnMissing(a, b);
    DataOnMissing(b, a);
    FieldsOverridden(a.payload, b.payload);
  }

  lemma PairDelivery(tolerance: real, a: Operation, b: Operation)
    ensures DeliverAllToRecord(tolerance, None, [a, b]) == DeliverToRecord(tolerance, DeliverToRecord(tolerance, None, a), b)
  {
    assert [a, b][..1] == [a] && [a][..0] == [];
    assert DeliverAllToRecord(tolerance, None, [a]) == DeliverToRecord(tolerance, None, a);
  }
}
