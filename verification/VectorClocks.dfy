/** Vector clocks: maps from node identifiers to positive counters. A missing node
    counts as zero, so a clock stands for a total function from nodes to naturals. */
module VectorClocks {

  type NodeId = string

  /** A dictionary as it arrives in an operation or a record, possibly with zero or
      negative entries. */
  type RawClock = map<NodeId, int>

  /** The constructor drops every entry that is not positive. */
  type VectorClock = c: RawClock | forall n | n in c :: c[n] > 0
    witness map[]

  datatype Comparison = Before | After | Equal | Concurrent

  /** The counter a clock assigns to a node. */
  function At(c: RawClock, n: NodeId): nat {
    if n in c && c[n] > 0 then c[n] else 0
  }

  /** Dictionary lookup with default zero. */
  function GetOrZero(c: RawClock, n: NodeId): int {
    if n in c then c[n] else 0
  }

  function Make(raw: RawClock): VectorClock {
    map n | n in raw && raw[n] > 0 :: raw[n]
  }

  function Increment(c: VectorClock, node: NodeId): VectorClock {
    Make(c[node := GetOrZero(c, node) + 1])
  }

  function Max(x: int, y: int): int {
    if x >= y then x else y
  }

  /** Component-wise maximum; the argument need not be normalised. */
  function Merge(c: VectorClock, other: RawClock): VectorClock {
    Make(map n | n in c.Keys + other.Keys :: Max(GetOrZero(c, n), GetOrZero(other, n)))
  }

  function Compare(a: VectorClock, b: VectorClock): Comparison {
    var nodes := a.Keys + b.Keys;
    var aLeqB := forall n | n in nodes :: GetOrZero(a, n) <= GetOrZero(b, n);
    var bLeqA := forall n | n in nodes :: GetOrZero(b, n) <= GetOrZero(a, n);
    if aLeqB && bLeqA then Equal
    else if aLeqB then Before
    else if bLeqA then After
    else Concurrent
  }

  predicate Dominates(a: VectorClock, b: VectorClock) {
    Compare(a, b).After? || Compare(a, b).Equal?
  }

  /** The comparison of two clocks as they stand in records and operations. */
  function Order(a: RawClock, b: RawClock): Comparison {
    Compare(Make(a), Make(b))
  }

  /** The causal order: pointwise over every node there could be. */
  ghost predicate Leq(a: RawClock, b: RawClock) {
    forall n: NodeId :: At(a, n) <= At(b, n)
  }

  /** The comparison loop, one node at a time in any order, with its two flags. */
  method CompareByLoop(a: VectorClock, b: VectorClock) returns (r: Comparison)
    ensures r.Equal? <==> Leq(a, b) && Leq(b, a)
    ensures r.Before? <==> Leq(a, b) && !Leq(b, a)
    ensures r.After? <==> !Leq(a, b) && Leq(b, a)
    ensures r == Compare(a, b)
  {
    var nodes := a.Keys + b.Keys;
    var selfLeqOther, otherLeqSelf := true, true;
    if nodes != {} {
      var rest := nodes;
      while rest != {}
        invariant rest <= nodes
        invariant selfLeqOther <==> forall n | n in nodes - rest :: GetOrZero(a, n) <= GetOrZero(b, n)
        invariant otherLeqSelf <==> forall n | n in nodes - rest :: GetOrZero(b, n) <= GetOrZero(a, n)
        decreases rest
      {
        var node :| node in rest;
        var c1, c2 := GetOrZero(a, node), GetOrZero(b, node);
        if c1 > c2 {
          selfLeqOther := false;
        }
        if c2 > c1 {
          otherLeqSelf := false;
        }
        assert nodes - (rest - {node}) == nodes - rest + {node};
        rest := rest - {node};
      }
      assert nodes - rest == nodes;
    }
    r := if selfLeqOther && otherLeqSelf then Equal
         else if selfLeqOther then Before
         else if otherLeqSelf then After
         else Concurrent;
    CompareDecides(a, b);
  }

  lemma FlagMeansLeq(a: VectorClock, b: VectorClock)
    ensures (forall n | n in a.Keys + b.Keys :: GetOrZero(a, n) <= GetOrZero(b, n)) <==> Leq(a, b)
  {
    forall n | n in a.Keys + b.Keys
      ensures At(a, n) == GetOrZero(a, n) && At(b, n) == GetOrZero(b, n)
    {
    }
    forall n | n !in a.Keys + b.Keys
      ensures At(a, n) == At(b, n) == 0
    {
    }
  }

  /** The four answers split the pairs of clocks exactly as the pointwise order does. */
  lemma CompareDecides(a: VectorClock, b: VectorClock)
    ensures Compare(a, b).Equal? <==> Leq(a, b) && Leq(b, a)
    ensures Compare(a, b).Before? <==> Leq(a, b) && !Leq(b, a)
    ensures Compare(a, b).After? <==> !Leq(a, b) && Leq(b, a)
    ensures Compare(a, b).Concurrent? <==> !Leq(a, b) && !Leq(b, a)
    ensures Dominates(a, b) <==> Leq(b, a)
  {
    FlagMeansLeq(a, b);
    FlagMeansLeq(b, a);
    assert b.Keys + a.Keys == a.Keys + b.Keys;
  }

  lemma OrderDecides(a: RawClock, b: RawClock)
    ensures Order(a, b).Equal? <==> Leq(a, b) && Leq(b, a)
    ensures Order(a, b).Before? <==> Leq(a, b) && !Leq(b, a)
    ensures Order(a, b).After? <==> !Leq(a, b) && Leq(b, a)
    ensures Order(a, b).Concurrent? <==> !Leq(a, b) && !Leq(b, a)
  {
    CompareDecides(Make(a), Make(b));
    forall n: NodeId
      ensures At(Make(a), n) == At(a, n) && At(Make(b), n) == At(b, n)
    {
    }
    assert Leq(Make(a), Make(b)) <==> Leq(a, b);
    assert Leq(Make(b), Make(a)) <==> Leq(b, a);
  }

  /** Swapping the arguments swaps before and after and nothing else. */
  lemma OrderFlips(a: RawClock, b: RawClock)
    ensures Order(a, b).Before? <==> Order(b, a).After?
    ensures Order(a, b).Equal? <==> Order(b, a).Equal?
    ensures Order(a, b).Concurrent? <==> Order(b, a).Concurrent?
  {
    OrderDecides(a, b);
    OrderDecides(b, a);
  }

  lemma BeforeTransitive(a: RawClock, b: RawClock, c: RawClock)
    requires Order(a, b).Before? && Order(b, c).Before?
    ensures Order(a, c).Before?
  {
    OrderDecides(a, b);
    OrderDecides(b, c);
    OrderDecides(a, c);
    forall n: NodeId
      ensures At(a, n) <= At(c, n)
    {
      assert At(a, n) <= At(b, n) <= At(c, n);
    }
    var n :| At(b, n) > At(a, n);
    assert At(c, n) >= At(b, n) > At(a, n);
  }

  /** Clocks that agree on every node are the same dictionary. */
  lemma EqualIsIdentical(a: VectorClock, b: VectorClock)
    ensures Compare(a, b).Equal? <==> a == b
  {
    CompareDecides(a, b);
    if Leq(a, b) && Leq(b, a) {
      forall n
        ensures n in a <==> n in b
        ensures n in a ==> a[n] == b[n]
      {
        assert At(a, n) == At(b, n);
      }
    }
  }

  lemma MergeAt(a: VectorClock, b: RawClock, n: NodeId)
    ensures At(Merge(a, b), n) == Max(At(a, n), At(b, n))
  {
  }

  /** Merge is the least upper bound of the causal order. */
  lemma MergeIsLeastUpperBound(a: VectorClock, b: RawClock, c: RawClock)
    ensures Leq(a, Merge(a, b)) && Leq(b, Merge(a, b))
    ensures Leq(a, c) && Leq(b, c) <==> Leq(Merge(a, b), c)
  {
    forall n
      ensures At(Merge(a, b), n) == Max(At(a, n), At(b, n))
    {
      MergeAt(a, b, n);
    }
    if Leq(Merge(a, b), c) {
      forall n: NodeId
        ensures At(a, n) <= At(c, n) && At(b, n) <= At(c, n)
      {
        assert At(Merge(a, b), n) <= At(c, n);
      }
    }
  }

  lemma MergeIsSemilattice(a: VectorClock, b: VectorClock, c: VectorClock)
    ensures Merge(a, a) == a
    ensures Merge(a, b) == Merge(b, a)
    ensures Merge(Merge(a, b), c) == Merge(a, Merge(b, c))
  {
    MergeIdempotent(a);
    MergeCommutes(a, b);
    MergeAssociates(a, b, c);
  }

  lemma MergeIdempotent(a: VectorClock)
    ensures Merge(a, a) == a
  {
    forall n { MergeAt(a, a, n); }
    SameReading(Merge(a, a), a);
  }

  lemma MergeCommutes(a: VectorClock, b: VectorClock)
    ensures Merge(a, b) == Merge(b, a)
  {
    forall n
      ensures At(Merge(a, b), n) == At(Merge(b, a), n)
    {
      MergeAt(a, b, n);
      MergeAt(b, a, n);
    }
    SameReading(Merge(a, b), Merge(b, a));
  }

  lemma MergeAssociates(a: VectorClock, b: VectorClock, c: VectorClock)
    ensures Merge(Merge(a, b), c) == Merge(a, Merge(b, c))
  {
    var ab, bc := Merge(a, b), Merge(b, c);
    forall n
      ensures At(Merge(ab, c), n) == At(Merge(a, bc), n)
    {
      MergeAt(ab, c, n);
      MergeAt(a, b, n);
      MergeAt(a, bc, n);
      MergeAt(b, c, n);
    }
    SameReading(Merge(ab, c), Merge(a, bc));
  }

  lemma SameReading(a: VectorClock, b: VectorClock)
    requires forall n :: At(a, n) == At(b, n)
    ensures a == b
  {
    CompareDecides(a, b);
    EqualIsIdentical(a, b);
  }

  lemma LeqTransitive(a: RawClock, b: RawClock, c: RawClock)
    requires Leq(a, b) && Leq(b, c)
    ensures Leq(a, c)
  {
    forall n: NodeId
      ensures At(a, n) <= At(c, n)
    {
      assert At(a, n) <= At(b, n) <= At(c, n);
    }
  }

  lemma IncrementAt(c: VectorClock, node: NodeId, n: NodeId)
    ensures At(Increment(c, node), n) == At(c, n) + if n == node then 1 else 0
  {
  }

  /** A node's own tick is strictly after the clock it started from. */
  lemma IncrementIsAfter(c: VectorClock, node: NodeId)
    ensures Compare(c, Increment(c, node)).Before?
  {
    forall n { IncrementAt(c, node, n); }
    CompareDecides(c, Increment(c, node));
    assert At(Increment(c, node), node) > At(c, node);
  }

  /** Nothing lies strictly between a clock and its tick. */
  lemma IncrementIsNext(c: VectorClock, node: NodeId, d: RawClock)
    requires Leq(c, d) && Leq(d, Increment(c, node))
    ensures Leq(d, c) || Leq(Increment(c, node), d)
  {
    var i := Increment(c, node);
    forall n
      ensures At(c, n) <= At(d, n) <= At(i, n)
    {
    }
    forall n { IncrementAt(c, node, n); }
    if At(d, node) == At(c, node) {
      assert Leq(d, c);
    } else {
      assert Leq(i, d);
    }
  }
}
