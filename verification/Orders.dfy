/** The two orders the replication core relies on: the lexicographic order on node
    identifiers, and the listing of a finite set in a strict total order, which is
    what an SQL `ORDER BY` without ties produces. */
module StringOrder {

  /** Code-point lexicographic order, the meaning of `<` on two Python strings. */
  predicate Less(a: string, b: string) {
    b != [] && (a == [] || a[0] < b[0] || (a[0] == b[0] && Less(a[1..], b[1..])))
  }

  lemma {:induction false} Irreflexive(a: string)
    ensures !Less(a, a)
  {
    if a != [] {
      Irreflexive(a[1..]);
    }
  }

  lemma {:induction false} Transitive(a: string, b: string, c: string)
    requires Less(a, b) && Less(b, c)
    ensures Less(a, c)
  {
    if a != [] && a[0] == b[0] == c[0] {
      Transitive(a[1..], b[1..], c[1..]);
    }
  }

  lemma Asymmetric(a: string, b: string)
    requires Less(a, b)
    ensures !Less(b, a)
  {
    if Less(b, a) {
      Transitive(a, b, a);
      Irreflexive(a);
    }
  }

  lemma {:induction false} Connected(a: string, b: string)
    requires a != b
    ensures Less(a, b) || Less(b, a)
  {
    if a != [] && b != [] && a[0] == b[0] {
      assert a == [a[0]] + a[1..] && b == [b[0]] + b[1..];
      Connected(a[1..], b[1..]);
    }
  }

  /** `a` is a beginning of the longer string `b`. */
  ghost predicate Begins(a: string, b: string) {
    |a| < |b| && b[..|a|] == a
  }

  /** The first place where the two differ has the smaller character in `a`. */
  ghost predicate SmallerWhereTheyDiffer(a: string, b: string) {
    exists i :: 0 <= i < |a| && i < |b| && a[..i] == b[..i] && a[i] < b[i]
  }

  lemma SameHead(a: string, b: string)
    requires a != [] && b != [] && a[0] == b[0]
    ensures Begins(a, b) <==> Begins(a[1..], b[1..])
    ensures SmallerWhereTheyDiffer(a, b) <==> SmallerWhereTheyDiffer(a[1..], b[1..])
  {
    var a', b' := a[1..], b[1..];
    assert a == [a[0]] + a' && b == [b[0]] + b';
    if Begins(a, b) {
      assert b'[..|a'|] == b[..|a|][1..];
    }
    if Begins(a', b') {
      assert b[..|a|] == [b[0]] + b'[..|a'|];
    }
    if i :| 0 <= i < |a| && i < |b| && a[..i] == b[..i] && a[i] < b[i] {
      assert a'[..i - 1] == a[..i][1..] && b'[..i - 1] == b[..i][1..];
      assert a'[i - 1] < b'[i - 1];
    }
    if i :| 0 <= i < |a'| && i < |b'| && a'[..i] == b'[..i] && a'[i] < b'[i] {
      assert a[..i + 1] == [a[0]] + a'[..i] && b[..i + 1] == [b[0]] + b'[..i];
      assert a[i + 1] < b[i + 1];
    }
  }

  lemma OtherHead(a: string, b: string)
    requires a != [] && b != [] && a[0] != b[0]
    ensures !Begins(a, b)
    ensures SmallerWhereTheyDiffer(a, b) <==> a[0] < b[0]
  {
    assert |a| < |b| ==> b[..|a|][0] == b[0];
    forall i | 0 < i < |a| && i < |b|
      ensures a[..i] != b[..i]
    {
      assert a[..i][0] == a[0] && b[..i][0] == b[0];
    }
    assert a[..0] == b[..0];
  }

  /** Two strings are ordered by the first place where they differ, or by length if one is a
      beginning of the other. */
  lemma {:induction false} LessExactly(a: string, b: string)
    ensures Less(a, b) <==> Begins(a, b) || SmallerWhereTheyDiffer(a, b)
  {
    if a != [] && b != [] {
      if a[0] == b[0] {
        SameHead(a, b);
        LessExactly(a[1..], b[1..]);
      } else {
        OtherHead(a, b);
      }
    }
  }

  /** Whatever follows the first difference, however long, plays no part. */
  lemma {:induction false} FirstDifferenceDecides(p: string, c: char, d: char, x: string, y: string)
    requires c < d
    ensures Less(p + [c] + x, p + [d] + y) && !Less(p + [d] + y, p + [c] + x)
  {
    if p == [] {
      assert p + [c] + x == [c] + x && p + [d] + y == [d] + y;
    } else {
      FirstDifferenceDecides(p[1..], c, d, x, y);
      assert (p + [c] + x)[1..] == p[1..] + [c] + x && (p + [d] + y)[1..] == p[1..] + [d] + y;
    }
  }

  /** A beginning comes before what it begins. */
  lemma {:induction false} BeginningIsLess(a: string, b: string)
    requires b != []
    ensures Less(a, a + b)
  {
    if a != [] {
      assert (a + b)[0] == a[0] && (a + b)[1..] == a[1..] + b;
      BeginningIsLess(a[1..], b);
    }
  }
}

module SetSort {

  ghost predicate StrictTotalOn<T>(less: (T, T) -> bool, s: set<T>) {
    && (forall x | x in s :: !less(x, x))
    && (forall x, y | x in s && y in s && x != y :: less(x, y) || less(y, x))
    && (forall x, y, z | x in s && y in s && z in s && less(x, y) && less(y, z) :: less(x, z))
  }

  predicate IsLeast<T(==)>(less: (T, T) -> bool, s: set<T>, m: T) {
    m in s && forall x | x in s && x != m :: less(m, x)
  }

  lemma {:induction false} LeastExists<T>(less: (T, T) -> bool, s: set<T>)
    requires s != {} && StrictTotalOn(less, s)
    ensures exists m :: IsLeast(less, s, m)
  {
    var x :| x in s;
    if s == {x} {
      assert IsLeast(less, s, x);
    } else {
      var rest := s - {x};
      assert s == rest + {x};
      LeastExists(less, rest);
      var y :| IsLeast(less, rest, y);
      assert IsLeast(less, s, if less(x, y) then x else y);
    }
  }

  function Least<T(==)>(less: (T, T) -> bool, s: set<T>): (m: T)
    requires s != {} && StrictTotalOn(less, s)
    ensures IsLeast(less, s, m)
  {
    LeastExists(less, s);
    var m :| m in s && IsLeast(less, s, m);
    m
  }

  /** The elements of `s`, each once, in increasing order. */
  function Sorted<T(==, !new)>(less: (T, T) -> bool, s: set<T>): (r: seq<T>)
    requires StrictTotalOn(less, s)
    ensures forall x :: x in r <==> x in s
    ensures forall i, j | 0 <= i < j < |r| :: less(r[i], r[j])
    ensures |r| == |s|
    decreases |s|
  {
    if s == {} then []
    else
      var m := Least(less, s);
      [m] + Sorted(less, s - {m})
  }

  lemma SortedDistinct<T(!new)>(less: (T, T) -> bool, s: set<T>)
    requires StrictTotalOn(less, s)
    ensures forall i, j | 0 <= i < j < |Sorted(less, s)| :: Sorted(less, s)[i] != Sorted(less, s)[j]
  {
    var r := Sorted(less, s);
    forall i, j | 0 <= i < j < |r|
      ensures r[i] != r[j]
    {
      assert less(r[i], r[j]) && r[i] in s;
    }
  }

  lemma {:induction false} DistinctCount<T(!new)>(r: seq<T>, s: set<T>)
    requires forall i, j | 0 <= i < j < |r| :: r[i] != r[j]
    requires forall x :: x in r <==> x in s
    ensures |s| == |r|
  {
    if r == [] {
      assert s == {};
    } else {
      var x := r[|r| - 1];
      var front := r[..|r| - 1];
      assert x in s;
      forall y
        ensures y in front <==> y in s - {x}
      {
        if y in s - {x} {
          assert y in r;
        }
        if y in front {
          assert y in r;
        }
      }
      DistinctCount(front, s - {x});
    }
  }

  function Below<T(==)>(less: (T, T) -> bool, s: set<T>, x: T): set<T> {
    set y | y in s && less(y, x)
  }

  /** An element's position is the number of elements below it. */
  lemma PositionIsRank<T(!new)>(less: (T, T) -> bool, s: set<T>, i: nat)
    requires StrictTotalOn(less, s) && i < |s|
    ensures |Below(less, s, Sorted(less, s)[i])| == i
  {
    var r := Sorted(less, s);
    var below := Below(less, s, r[i]);
    assert r[i] in r;
    assert forall j | i < j < |r| :: less(r[i], r[j]) && r[j] in r;
    forall x
      ensures x in r[..i] <==> x in below
    {
      if x in r[..i] {
        var j :| 0 <= j < i && r[j] == x;
        assert x in r;
      }
      if x in below {
        var j :| 0 <= j < |r| && r[j] == x;
      }
    }
    SortedDistinct(less, s);
    DistinctCount(r[..i], below);
  }

  /** There is one increasing listing of a set. */
  lemma {:induction false} SortedUnique<T(!new)>(less: (T, T) -> bool, s: set<T>, r: seq<T>)
    requires StrictTotalOn(less, s)
    requires forall x :: x in r <==> x in s
    requires forall i, j | 0 <= i < j < |r| :: less(r[i], r[j])
    ensures r == Sorted(less, s)
  {
    if r == [] {
      assert s == {};
    } else {
      var m := r[0];
      assert m in s && r == [m] + r[1..];
      assert forall i | 0 < i < |r| :: r[i] in r && less(m, r[i]) && r[i] != m;
      assert IsLeast(less, s, m);
      assert Least(less, s) == m;
      forall x
        ensures x in r[1..] <==> x in s - {m}
      {
        if x in s - {m} {
          assert x in r;
        }
        if x in r[1..] {
          assert x in r;
        }
      }
      SortedUnique(less, s - {m}, r[1..]);
    }
  }

  function Take<T>(s: seq<T>, limit: nat): seq<T> {
    if |s| <= limit then s else s[..limit]
  }

  /** An element is among the first `limit` exactly when fewer than `limit` lie below it. */
  lemma PrefixIsRank<T(!new)>(less: (T, T) -> bool, s: set<T>, limit: nat, x: T)
    requires StrictTotalOn(less, s)
    ensures x in Take(Sorted(less, s), limit) <==> x in s && |Below(less, s, x)| < limit
  {
    var r := Sorted(less, s);
    SortedDistinct(less, s);
    if x in s {
      var i :| 0 <= i < |r| && r[i] == x;
      PositionIsRank(less, s, i);
      if i < limit {
        assert Take(r, limit)[i] == x;
      }
    } else {
      assert x !in r;
    }
  }

  /** Where a Python slice bound falls; negative bounds count from the end. */
  function Bound(i: int, n: nat): (b: nat)
    ensures b <= n
  {
    if i < 0 then (if i + n < 0 then 0 else i + n) else if i <= n then i else n
  }

  /** A Python slice. */
  function Slice<T>(s: seq<T>, low: int, high: int): seq<T> {
    if Bound(low, |s|) <= Bound(high, |s|) then s[Bound(low, |s|)..Bound(high, |s|)] else []
  }

  /** A negative bound counts from the end, and stops at the beginning. */
  lemma NegativeBounds<T>(s: seq<T>, low: int, high: int)
    ensures low < 0 && low + |s| >= 0 ==> Slice(s, low, high) == Slice(s, low + |s|, high)
    ensures high < 0 && high + |s| >= 0 ==> Slice(s, low, high) == Slice(s, low, high + |s|)
    ensures low + |s| < 0 ==> Slice(s, low, high) == Slice(s, 0, high)
    ensures high + |s| < 0 ==> Slice(s, low, high) == []
    ensures 0 <= low <= high <= |s| ==> Slice(s, low, high) == s[low..high]
  {
  }

  lemma SliceMember<T>(s: seq<T>, low: nat, high: nat, i: nat)
    requires forall i, j | 0 <= i < j < |s| :: s[i] != s[j]
    requires i < |s|
    ensures s[i] in Slice(s, low, high) <==> low <= i < high
  {
    if low <= i < high {
      assert Slice(s, low, high)[i - low] == s[i];
    }
    if s[i] in Slice(s, low, high) {
      var j :| 0 <= j < |Slice(s, low, high)| && Slice(s, low, high)[j] == s[i];
      assert s[low + j] == s[i];
    }
  }

  /** A page of the listing holds the elements with the ranks of the page. */
  lemma SliceIsRank<T(!new)>(less: (T, T) -> bool, s: set<T>, low: nat, high: nat, x: T)
    requires StrictTotalOn(less, s)
    ensures x in Slice(Sorted(less, s), low, high) <==> x in s && low <= |Below(less, s, x)| < high
  {
    var r := Sorted(less, s);
    SortedDistinct(less, s);
    if x in s {
      var i :| 0 <= i < |r| && r[i] == x;
      PositionIsRank(less, s, i);
      SliceMember(r, low, high, i);
    } else {
      assert x !in r;
    }
  }
}
