/** The record table of a node: four kinds of operation, soft deletion, version counting
    and the two listings the server's delta is built from. */
module Store {
  import opened Models
  import opened VectorClocks
  import StringOrder
  import SetSort

  type Table = map<Key, Record>

  function Lookup(t: Table, key: Key): Option<Record> {
    if key in t then Some(t[key]) else None
  }

  /** The clock a local write starts from: empty for a key never seen. */
  function ClockOf(t: Table, key: Key): VectorClock {
    if key in t then Make(t[key].vectorClock) else map[]
  }

  function BaseData(existing: Option<Record>): Fields {
    if existing.Some? then existing.value.data else map[]
  }

  function NextVersion(existing: Option<Record>, op: Operation): int {
    if existing.Some? then existing.value.version + 1 else Max(1, op.lamport)
  }

  /** The row an operation leaves behind. */
  function Applied(existing: Option<Record>, op: Operation): Record {
    Record(
      match op.kind
      case Create => op.payload
      case Update => op.payload
      case Merge => BaseData(existing) + op.payload
      case Delete => BaseData(existing),
      NextVersion(existing, op),
      op.vectorClock,
      op.timestamp,
      op.nodeId,
      op.kind.Delete?,
      if op.kind.Delete? then Some(op.timestamp) else None)
  }

  function ApplyOp(t: Table, op: Operation): Table {
    t[op.key := Applied(Lookup(t, op.key), op)]
  }

  // ----- Listings

  function KeysOf(t: Table, collection: string, includeDeleted: bool): set<Key> {
    set k | k in t && k.collection == collection && (includeDeleted || !t[k].deleted)
  }

  function ModifiedAt(t: Table, k: Key): real {
    if k in t then t[k].lastModified else 0.0
  }

  /** Most recently modified first; ties, which the query leaves open, by record id. */
  predicate Newer(t: Table, a: Key, b: Key) {
    || ModifiedAt(t, a) > ModifiedAt(t, b)
    || (ModifiedAt(t, a) == ModifiedAt(t, b) && StringOrder.Less(a.recordId, b.recordId))
  }

  function NewestFirst(t: Table): (Key, Key) -> bool {
    (a: Key, b: Key) => Newer(t, a, b)
  }

  lemma NewestFirstIsTotal(t: Table, collection: string, s: set<Key>)
    requires forall k | k in s :: k.collection == collection
    ensures SetSort.StrictTotalOn(NewestFirst(t), s)
  {
    forall x, y, z
      ensures !Newer(t, x, x)
      ensures Newer(t, x, y) && Newer(t, y, z) ==> Newer(t, x, z)
    {
      StringOrder.Irreflexive(x.recordId);
      if StringOrder.Less(x.recordId, y.recordId) && StringOrder.Less(y.recordId, z.recordId) {
        StringOrder.Transitive(x.recordId, y.recordId, z.recordId);
      }
    }
    forall x, y | x in s && y in s && x != y
      ensures Newer(t, x, y) || Newer(t, y, x)
    {
      StringOrder.Connected(x.recordId, y.recordId);
    }
  }

  /** All rows of a collection in query order. */
  function Listing(t: Table, collection: string, includeDeleted: bool): seq<Key> {
    NewestFirstIsTotal(t, collection, KeysOf(t, collection, includeDeleted));
    SetSort.Sorted(NewestFirst(t), KeysOf(t, collection, includeDeleted))
  }

  function NewerKeys(t: Table, keys: set<Key>, k: Key): set<Key> {
    set x | x in keys && Newer(t, x, k)
  }

  lemma NewerKeysByOrder(t: Table, keys: set<Key>, k: Key)
    ensures SetSort.Below(NewestFirst(t), keys, k) == NewerKeys(t, keys, k)
  {
  }

  /** A key is among the first `limit` rows of its collection exactly when fewer than
      `limit` rows of the collection are newer. */
  lemma WindowIsRank(t: Table, collection: string, includeDeleted: bool, limit: nat, k: Key)
    ensures var keys := KeysOf(t, collection, includeDeleted);
            k in SetSort.Take(Listing(t, collection, includeDeleted), limit) <==>
            k in keys && |NewerKeys(t, keys, k)| < limit
  {
    var keys := KeysOf(t, collection, includeDeleted);
    NewestFirstIsTotal(t, collection, keys);
    NewerKeysByOrder(t, keys, k);
    SetSort.PrefixIsRank(NewestFirst(t), keys, limit, k);
  }

  lemma WindowDistinct(t: Table, collection: string, includeDeleted: bool, limit: nat)
    ensures forall i, j | 0 <= i < j < |SetSort.Take(Listing(t, collection, includeDeleted), limit)| ::
              SetSort.Take(Listing(t, collection, includeDeleted), limit)[i] != SetSort.Take(Listing(t, collection, includeDeleted), limit)[j]
  {
    NewestFirstIsTotal(t, collection, KeysOf(t, collection, includeDeleted));
    SetSort.SortedDistinct(NewestFirst(t), KeysOf(t, collection, includeDeleted));
  }

  // ----- Filters and pages

  /** Every field of the filter is present with the wanted value. */
  predicate MatchesFilters(data: Fields, filters: Fields) {
    forall f | f in filters :: f in data && data[f] == filters[f]
  }

  predicate Passes(t: Table, filters: Fields, k: Key) {
    k in t && MatchesFilters(t[k].data, filters)
  }

  function Filtered(t: Table, filters: Fields, keys: seq<Key>): seq<Key> {
    if keys == [] then []
    else (if Passes(t, filters, keys[0]) then [keys[0]] else []) + Filtered(t, filters, keys[1..])
  }

  function QueryResult(t: Table, collection: string, filters: Fields, limit: int, offset: int, includeDeleted: bool): seq<Key> {
    SetSort.Slice(Filtered(t, filters, Listing(t, collection, includeDeleted)), offset, offset + limit)
  }

  /** All rows a query is about. */
  function FoundKeys(t: Table, collection: string, filters: Fields, includeDeleted: bool): set<Key> {
    set k | k in KeysOf(t, collection, includeDeleted) && Passes(t, filters, k)
  }

  lemma {:induction false} FilteredKeepsOrder(t: Table, filters: Fields, keys: seq<Key>)
    requires forall i, j | 0 <= i < j < |keys| :: Newer(t, keys[i], keys[j])
    ensures forall k :: k in Filtered(t, filters, keys) <==> k in keys && Passes(t, filters, k)
    ensures forall i, j | 0 <= i < j < |Filtered(t, filters, keys)| ::
              Newer(t, Filtered(t, filters, keys)[i], Filtered(t, filters, keys)[j])
  {
    if keys != [] {
      FilteredKeepsOrder(t, filters, keys[1..]);
      assert keys == [keys[0]] + keys[1..];
      forall k | k in Filtered(t, filters, keys[1..])
        ensures Newer(t, keys[0], k)
      {
        var j :| 0 < j < |keys| && keys[j] == k;
      }
    }
  }

  /** Filtering the ordered rows is ordering the filtered rows. */
  lemma FilterCommutesWithOrder(t: Table, collection: string, filters: Fields, includeDeleted: bool)
    ensures SetSort.StrictTotalOn(NewestFirst(t), FoundKeys(t, collection, filters, includeDeleted))
    ensures Filtered(t, filters, Listing(t, collection, includeDeleted))
         == SetSort.Sorted(NewestFirst(t), FoundKeys(t, collection, filters, includeDeleted))
  {
    var keys := Listing(t, collection, includeDeleted);
    var found := FoundKeys(t, collection, filters, includeDeleted);
    NewestFirstIsTotal(t, collection, KeysOf(t, collection, includeDeleted));
    NewestFirstIsTotal(t, collection, found);
    assert forall i, j | 0 <= i < j < |keys| :: NewestFirst(t)(keys[i], keys[j]);
    FilteredKeepsOrder(t, filters, keys);
    SetSort.SortedUnique(NewestFirst(t), found, Filtered(t, filters, keys));
  }

  lemma FoundIsTotal(t: Table, collection: string, filters: Fields, includeDeleted: bool)
    ensures SetSort.StrictTotalOn(NewestFirst(t), FoundKeys(t, collection, filters, includeDeleted))
  {
    NewestFirstIsTotal(t, collection, FoundKeys(t, collection, filters, includeDeleted));
  }

  /** The matching rows by rank. */
  function Ranking(t: Table, collection: string, filters: Fields, includeDeleted: bool): seq<Key> {
    FoundIsTotal(t, collection, filters, includeDeleted);
    SetSort.Sorted(NewestFirst(t), FoundKeys(t, collection, filters, includeDeleted))
  }

  lemma QueryIsPage(t: Table, collection: string, filters: Fields, limit: int, offset: int, includeDeleted: bool)
    ensures QueryResult(t, collection, filters, limit, offset, includeDeleted)
         == SetSort.Slice(Ranking(t, collection, filters, includeDeleted), offset, offset + limit)
  {
    FilterCommutesWithOrder(t, collection, filters, includeDeleted);
  }

  predicate HasRank(t: Table, keys: set<Key>, k: Key, low: int, high: int) {
    k in keys && low <= |NewerKeys(t, keys, k)| < high
  }

  lemma PageOfKeys(t: Table, keys: set<Key>, page: seq<Key>, low: nat, high: nat, k: Key)
    requires SetSort.StrictTotalOn(NewestFirst(t), keys)
    requires page == SetSort.Slice(SetSort.Sorted(NewestFirst(t), keys), low, high)
    ensures k in page <==> HasRank(t, keys, k, low, high)
  {
    NewerKeysByOrder(t, keys, k);
    SetSort.SliceIsRank(NewestFirst(t), keys, low, high, k);
  }

  /** A query lists exactly the rows that pass its filters and have from `offset` to
      `offset + limit` newer such rows. */
  lemma PageIsRank(t: Table, collection: string, filters: Fields, limit: nat, offset: nat, includeDeleted: bool, k: Key)
    ensures k in QueryResult(t, collection, filters, limit, offset, includeDeleted) <==>
            HasRank(t, FoundKeys(t, collection, filters, includeDeleted), k, offset, offset + limit)
  {
    QueryIsPage(t, collection, filters, limit, offset, includeDeleted);
    FoundIsTotal(t, collection, filters, includeDeleted);
    PageOfKeys(t, FoundKeys(t, collection, filters, includeDeleted),
               QueryResult(t, collection, filters, limit, offset, includeDeleted), offset, offset + limit, k);
  }

  lemma SortedByTime(t: Table, keys: set<Key>)
    requires SetSort.StrictTotalOn(NewestFirst(t), keys) && forall k | k in keys :: k in t
    ensures var r := SetSort.Sorted(NewestFirst(t), keys);
            forall i, j | 0 <= i < j < |r| ::
              r[i] in t && r[j] in t && r[i] != r[j] && t[r[i]].lastModified >= t[r[j]].lastModified
  {
    var r := SetSort.Sorted(NewestFirst(t), keys);
    SetSort.SortedDistinct(NewestFirst(t), keys);
    forall i, j | 0 <= i < j < |r|
      ensures r[i] in t && r[j] in t && t[r[i]].lastModified >= t[r[j]].lastModified
    {
      assert NewestFirst(t)(r[i], r[j]);
      assert r[i] in keys && r[j] in keys;
    }
  }

  lemma RankingMembers(t: Table, collection: string, filters: Fields, includeDeleted: bool, k: Key)
    ensures k in Ranking(t, collection, filters, includeDeleted) <==>
            && k in t && k.collection == collection && (includeDeleted || !t[k].deleted)
            && forall f | f in filters :: f in t[k].data && t[k].data[f] == filters[f]
  {
    FoundIsTotal(t, collection, filters, includeDeleted);
    assert k in Ranking(t, collection, filters, includeDeleted) <==> k in FoundKeys(t, collection, filters, includeDeleted);
  }

  /** Later modified rows stand before earlier ones. */
  lemma RankingByTime(t: Table, collection: string, filters: Fields, includeDeleted: bool)
    ensures var r := Ranking(t, collection, filters, includeDeleted);
            forall i, j | 0 <= i < j < |r| ::
              r[i] in t && r[j] in t && r[i] != r[j] && t[r[i]].lastModified >= t[r[j]].lastModified
  {
    FoundIsTotal(t, collection, filters, includeDeleted);
    SortedByTime(t, FoundKeys(t, collection, filters, includeDeleted));
  }

  /** The rows of a first page: as many as there is room for, and none left out that was
      modified later than one listed. */
  ghost predicate IsNewestPage(t: Table, r: seq<Key>, page: seq<Key>, limit: int) {
    && |page| <= limit && (|page| == limit || forall k | k in r :: k in page)
    && forall k, l | k in r && k in t && k !in page && l in page && l in t :: t[k].lastModified <= t[l].lastModified
  }

  lemma FirstPageIsNewest(t: Table, r: seq<Key>, limit: int)
    requires 0 <= limit
    requires forall i, j | 0 <= i < j < |r| :: r[i] in t && r[j] in t && t[r[i]].lastModified >= t[r[j]].lastModified
    ensures IsNewestPage(t, r, SetSort.Slice(r, 0, limit), limit)
  {
    var page := SetSort.Slice(r, 0, limit);
    assert page == r[..|page|];
    forall k, l | k in r && k in t && k !in page && l in page && l in t
      ensures t[k].lastModified <= t[l].lastModified
    {
      var j :| 0 <= j < |r| && r[j] == k;
      var i :| 0 <= i < |page| && page[i] == l;
      assert j < |page| ==> page[j] == k;
    }
  }

  /** What a query lists, by the columns of the table: matching rows, later modified ones
      first, each once. */
  lemma QueryByTime(t: Table, collection: string, filters: Fields, limit: int, offset: int, includeDeleted: bool)
    ensures var q := QueryResult(t, collection, filters, limit, offset, includeDeleted);
            && (forall k | k in q :: k in t && k.collection == collection && (includeDeleted || !t[k].deleted))
            && (forall k, f | k in q && f in filters :: f in t[k].data && t[k].data[f] == filters[f])
            && (forall i, j | 0 <= i < j < |q| :: q[i] != q[j] && t[q[i]].lastModified >= t[q[j]].lastModified)
  {
    var r := Ranking(t, collection, filters, includeDeleted);
    var q := QueryResult(t, collection, filters, limit, offset, includeDeleted);
    QueryIsPage(t, collection, filters, limit, offset, includeDeleted);
    SliceInOrder(r, q, offset, offset + limit);
    RankingByTime(t, collection, filters, includeDeleted);
    forall k | k in q
      ensures k in t && k.collection == collection && (includeDeleted || !t[k].deleted)
      ensures forall f | f in filters :: f in t[k].data && t[k].data[f] == filters[f]
    {
      RankingMembers(t, collection, filters, includeDeleted, k);
    }
  }

  /** A first page has room for `limit` rows, and leaves a matching row out only if it is full
      and nothing listed was modified before that row. */
  lemma FirstPageByTime(t: Table, collection: string, filters: Fields, limit: nat, includeDeleted: bool, k: Key)
    requires k in t && k.collection == collection && (includeDeleted || !t[k].deleted)
    requires forall f | f in filters :: f in t[k].data && t[k].data[f] == filters[f]
    ensures var q := QueryResult(t, collection, filters, limit, 0, includeDeleted);
            && |q| <= limit
            && (k !in q ==> |q| == limit && forall l | l in q && l in t :: t[k].lastModified <= t[l].lastModified)
  {
    var r := Ranking(t, collection, filters, includeDeleted);
    RankingMembers(t, collection, filters, includeDeleted, k);
    RankingByTime(t, collection, filters, includeDeleted);
    QueryIsPage(t, collection, filters, limit, 0, includeDeleted);
    FirstPageIsNewest(t, r, limit);
  }

  lemma FirstPageLeavesOut(t: Table, collection: string, filters: Fields, limit: nat, includeDeleted: bool)
    ensures var q := QueryResult(t, collection, filters, limit, 0, includeDeleted);
            && |q| <= limit
            && forall k | && k in t && k.collection == collection && (includeDeleted || !t[k].deleted)
                          && (forall f | f in filters :: f in t[k].data && t[k].data[f] == filters[f])
                          && k !in q ::
                 |q| == limit && forall l | l in q && l in t :: t[k].lastModified <= t[l].lastModified
  {
    var q := QueryResult(t, collection, filters, limit, 0, includeDeleted);
    forall k | && k in t && k.collection == collection && (includeDeleted || !t[k].deleted)
               && (forall f | f in filters :: f in t[k].data && t[k].data[f] == filters[f])
               && k !in q
      ensures |q| == limit && forall l | l in q && l in t :: t[k].lastModified <= t[l].lastModified
    {
      FirstPageByTime(t, collection, filters, limit, includeDeleted, k);
    }
  }

  lemma SliceInOrder(r: seq<Key>, q: seq<Key>, low: int, high: int)
    requires q == SetSort.Slice(r, low, high)
    ensures forall k | k in q :: k in r
    ensures var a := SetSort.Bound(low, |r|);
            forall i | 0 <= i < |q| :: a + i < |r| && q[i] == r[a + i]
  {
  }

  lemma ListingMembers(t: Table, collection: string, includeDeleted: bool)
    ensures forall k | k in Listing(t, collection, includeDeleted) :: k in t
  {
    var keys := KeysOf(t, collection, includeDeleted);
    NewestFirstIsTotal(t, collection, keys);
    assert forall k | k in Listing(t, collection, includeDeleted) :: k in keys;
  }

  lemma {:induction false} NoFilters(t: Table, keys: seq<Key>)
    requires forall k | k in keys :: k in t
    ensures Filtered(t, map[], keys) == keys
  {
    if keys != [] {
      assert keys[0] in keys;
      NoFilters(t, keys[1..]);
    }
  }

  /** The query of the server's delta: no filters, from the start, tombstones included. */
  lemma FirstPage(t: Table, collection: string, limit: nat, includeDeleted: bool)
    ensures QueryResult(t, collection, map[], limit, 0, includeDeleted)
         == SetSort.Take(Listing(t, collection, includeDeleted), limit)
  {
    ListingMembers(t, collection, includeDeleted);
    NoFilters(t, Listing(t, collection, includeDeleted));
  }

  lemma {:induction false} SmallerSet(a: set<Key>, b: set<Key>)
    requires a <= b
    ensures |a| <= |b|
  {
    if a != {} {
      var x :| x in a;
      SmallerSet(a - {x}, b - {x});
    }
  }

  function LiveCollections(t: Table): set<string> {
    set k | k in t && !t[k].deleted :: k.collection
  }

  function AlphabeticOrder(): (string, string) -> bool {
    (a: string, b: string) => StringOrder.Less(a, b)
  }

  lemma AlphabeticIsTotal(s: set<string>)
    ensures SetSort.StrictTotalOn(AlphabeticOrder(), s)
  {
    forall x, y, z
      ensures !StringOrder.Less(x, x)
      ensures StringOrder.Less(x, y) && StringOrder.Less(y, z) ==> StringOrder.Less(x, z)
      ensures x != y ==> StringOrder.Less(x, y) || StringOrder.Less(y, x)
    {
      StringOrder.Irreflexive(x);
      if StringOrder.Less(x, y) && StringOrder.Less(y, z) {
        StringOrder.Transitive(x, y, z);
      }
      if x != y {
        StringOrder.Connected(x, y);
      }
    }
  }

  /** Collections with at least one live record, in alphabetic order. */
  function Collections(t: Table): seq<string> {
    AlphabeticIsTotal(LiveCollections(t));
    SetSort.Sorted(AlphabeticOrder(), LiveCollections(t))
  }

  lemma CollectionsExact(t: Table)
    ensures forall c :: c in Collections(t) <==> exists k :: k in t && !t[k].deleted && k.collection == c
    ensures forall i, j | 0 <= i < j < |Collections(t)| :: StringOrder.Less(Collections(t)[i], Collections(t)[j])
    ensures forall i, j | 0 <= i < j < |Collections(t)| :: Collections(t)[i] != Collections(t)[j]
  {
    AlphabeticIsTotal(LiveCollections(t));
    SetSort.SortedDistinct(AlphabeticOrder(), LiveCollections(t));
    assert forall i, j | 0 <= i < j < |Collections(t)| :: AlphabeticOrder()(Collections(t)[i], Collections(t)[j]);
  }

  // ----- The store object

  class LocalStore {
    var records: Table

    constructor ()
      ensures records == map[]
    {
      records := map[];
    }

    method Get(key: Key, includeDeleted: bool) returns (r: Option<Record>)
      ensures r == if includeDeleted || IsLive(Lookup(records, key)) then Lookup(records, key) else None
    {
      if key !in records {
        return None;
      }
      var record := records[key];
      if record.deleted && !includeDeleted {
        return None;
      }
      return Some(record);
    }

    method GetVectorClock(key: Key) returns (c: VectorClock)
      ensures c == ClockOf(records, key)
    {
      var rec := Get(key, true);
      c := if rec.None? then map[] else Make(rec.value.vectorClock);
    }

    /** The rows in order, without those that miss a filter, cut as a Python slice. */
    method Query(collection: string, filters: Fields, limit: int, offset: int, includeDeleted: bool) returns (keys: seq<Key>)
      ensures keys == QueryResult(records, collection, filters, limit, offset, includeDeleted)
      ensures forall k | k in keys :: k in records && k.collection == collection && (includeDeleted || !records[k].deleted)
      ensures forall k, f | k in keys && f in filters :: f in records[k].data && records[k].data[f] == filters[f]
      ensures forall i, j | 0 <= i < j < |keys| ::
                keys[i] != keys[j] && records[keys[i]].lastModified >= records[keys[j]].lastModified
      ensures offset == 0 && limit >= 0 ==> |keys| <= limit
      ensures offset == 0 && limit >= 0 ==>
                forall k | && k in records && k.collection == collection && (includeDeleted || !records[k].deleted)
                           && (forall f | f in filters :: f in records[k].data && records[k].data[f] == filters[f])
                           && k !in keys ::
                  |keys| == limit && forall l | l in keys :: records[k].lastModified <= records[l].lastModified
    {
      var rows := Listing(records, collection, includeDeleted);
      if filters != map[] {
        rows := Filtered(records, filters, rows);
      } else {
        ListingMembers(records, collection, includeDeleted);
        NoFilters(records, rows);
      }
      keys := SetSort.Slice(rows, offset, offset + limit);
      QueryByTime(records, collection, filters, limit, offset, includeDeleted);
      if offset == 0 && limit >= 0 {
        FirstPageLeavesOut(records, collection, filters, limit, includeDeleted);
      }
    }

    /** Each collection with a live record once, in alphabetic order. */
    method GetAllCollections() returns (collections: seq<string>)
      ensures collections == Collections(records)
      ensures forall c :: c in collections <==> exists k :: k in records && !records[k].deleted && k.collection == c
      ensures forall i, j | 0 <= i < j < |collections| :: StringOrder.Less(collections[i], collections[j])
    {
      CollectionsExact(records);
      collections := Collections(records);
    }

    /** Every operation touches its own row and no other, and hands back the new row. */
    method ApplyOperation(op: Operation) returns (rec: Record)
      modifies this
      ensures records == ApplyOp(old(records), op)
      ensures Lookup(records, op.key) == Some(rec)
      ensures forall k | k != op.key :: Lookup(records, k) == Lookup(old(records), k)
    {
      match op.kind
      case Create => rec := ApplyWhole(op);
      case Update => rec := ApplyWhole(op);
      case Merge => rec := ApplyMerge(op);
      case Delete => rec := ApplyDelete(op);
    }

    /** Create and update: the payload is the whole record, over a tombstone as well. */
    method ApplyWhole(op: Operation) returns (rec: Record)
      requires Replaces(op)
      modifies this
      ensures records == old(records)[op.key := rec]
      ensures rec == Applied(Lookup(old(records), op.key), op)
    {
      var existing := Get(op.key, true);
      var version := if existing.Some? then existing.value.version + 1 else Max(1, op.lamport);
      rec := Record(op.payload, version, op.vectorClock, op.timestamp, op.nodeId, false, None);
      records := records[op.key := rec];
    }

    method ApplyMerge(op: Operation) returns (rec: Record)
      requires op.kind.Merge?
      modifies this
      ensures records == old(records)[op.key := rec]
      ensures rec == Applied(Lookup(old(records), op.key), op)
    {
      var existing := Get(op.key, true);
      var data := if existing.Some? then existing.value.data else map[];
      data := data + op.payload;
      var version := if existing.Some? then existing.value.version + 1 else Max(1, op.lamport);
      rec := Record(data, version, op.vectorClock, op.timestamp, op.nodeId, false, None);
      records := records[op.key := rec];
    }

    /** The upsert of a delete leaves the data column of an existing row alone. */
    method ApplyDelete(op: Operation) returns (rec: Record)
      requires op.kind.Delete?
      modifies this
      ensures records == old(records)[op.key := rec]
      ensures rec == Applied(Lookup(old(records), op.key), op)
    {
      var existing := Get(op.key, true);
      var version := if existing.Some? then existing.value.version + 1 else Max(1, op.lamport);
      if op.key in records {
        rec := records[op.key].(version := version, vectorClock := op.vectorClock, lastModified := op.timestamp,
                                lastModifiedBy := op.nodeId, deleted := true, deletedAt := Some(op.timestamp));
      } else {
        rec := Record(map[], version, op.vectorClock, op.timestamp, op.nodeId, true, Some(op.timestamp));
      }
      records := records[op.key := rec];
    }
  }

  /** What applying an operation means, column by column. */
  lemma AppliedMeaning(t: Table, op: Operation)
    ensures var t' := ApplyOp(t, op);
            && t'.Keys == t.Keys + {op.key}
            && (forall k | k in t && k != op.key :: t'[k] == t[k])
            && (op.key in t ==> t'[op.key].version == t[op.key].version + 1)
            && (op.key !in t ==> t'[op.key].version == if op.lamport > 1 then op.lamport else 1)
            && t'[op.key].vectorClock == op.vectorClock && t'[op.key].lastModified == op.timestamp
            && t'[op.key].lastModifiedBy == op.nodeId
            && (t'[op.key].deleted <==> op.kind == Delete)
            && t'[op.key].deletedAt == (if op.kind == Delete then Some(op.timestamp) else None)
            && (ViewOf(Lookup(t', op.key)).Gone? <==> op.kind == Delete)
            && (op.kind == Create || op.kind == Update ==> t'[op.key].data == op.payload)
            && (op.kind == Merge && op.key in t ==> t'[op.key].data == t[op.key].data + op.payload)
            && (op.kind == Merge && op.key !in t ==> t'[op.key].data == op.payload)
            && (op.kind == Delete ==> t'[op.key].data == if op.key in t then t[op.key].data else map[])
  {
    assert map[] + op.payload == op.payload;
  }
}
