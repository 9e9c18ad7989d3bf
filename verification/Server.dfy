/** The headquarters server: the receive loop and the delta it answers with. */
module Server {
  import opened Models
  import opened VectorClocks
  import opened Store
  import opened Conflict
  import opened Replicas
  import opened Protocol
  import SetSort
  import StringOrder
  import Outbox

  const WINDOW := 500

  // ----- The delta for a peer

  predicate Wanted(rec: Record, peerClock: VectorClock, peer: NodeId) {
    && rec.lastModifiedBy != peer
    && var comparison := Compare(peerClock, Make(rec.vectorClock));
       comparison.Before? || comparison.Concurrent?
  }

  function Digits(n: nat): string {
    (if n < 10 then "" else Digits(n / 10)) + [(n % 10) as char + '0']
  }

  function Decimal(n: int): string {
    if n < 0 then "-" + Digits(-n) else Digits(n)
  }

  /** The record as an operation. */
  function DeltaOp(k: Key, rec: Record): Operation {
    Operation("srv-" + k.collection + "-" + k.recordId + "-" + Decimal(rec.version), rec.lastModifiedBy,
              if rec.deleted then Delete else Update, k, rec.data, rec.lastModified, rec.vectorClock, rec.version, P2)
  }

  /** The rows of a collection that a delta considers. */
  function Window(t: Table, collection: string): seq<Key> {
    SetSort.Take(Listing(t, collection, true), WINDOW)
  }

  /** One record's part of a delta. */
  function DeltaOfKey(t: Table, k: Key, peerClock: VectorClock, peer: NodeId): seq<Operation> {
    if k in t && Wanted(t[k], peerClock, peer) then [DeltaOp(k, t[k])] else []
  }

  function DeltaOfKeys(t: Table, keys: seq<Key>, peerClock: VectorClock, peer: NodeId): seq<Operation> {
    if keys == [] then []
    else DeltaOfKeys(t, keys[..|keys| - 1], peerClock, peer) + DeltaOfKey(t, keys[|keys| - 1], peerClock, peer)
  }

  function DeltaOfCollections(t: Table, collections: seq<string>, peerClock: VectorClock, peer: NodeId): seq<Operation> {
    if collections == [] then []
    else
      DeltaOfCollections(t, collections[..|collections| - 1], peerClock, peer)
      + DeltaOfKeys(t, Window(t, collections[|collections| - 1]), peerClock, peer)
  }

  lemma DeltaOfKeysStep(t: Table, keys: seq<Key>, i: nat, peerClock: VectorClock, peer: NodeId)
    requires i < |keys| && keys[i] in t
    ensures DeltaOfKeys(t, keys[..i + 1], peerClock, peer)
         == DeltaOfKeys(t, keys[..i], peerClock, peer)
          + DeltaOfKey(t, keys[i], peerClock, peer)
  {
    assert keys[..i + 1][..i] == keys[..i];
  }

  lemma DeltaOfCollectionsStep(t: Table, collections: seq<string>, i: nat, peerClock: VectorClock, peer: NodeId)
    requires i < |collections|
    ensures DeltaOfCollections(t, collections[..i + 1], peerClock, peer)
         == DeltaOfCollections(t, collections[..i], peerClock, peer)
          + DeltaOfKeys(t, Window(t, collections[i]), peerClock, peer)
  {
    assert collections[..i + 1][..i] == collections[..i];
  }

  function Delta(t: Table, peerClock: VectorClock, peer: NodeId): seq<Operation> {
    DeltaOfCollections(t, Collections(t), peerClock, peer)
  }

  /** The records a delta can contain: in a collection that still has a live record, and
      with fewer than 500 newer records in it. */
  ghost predicate InWindow(t: Table, k: Key) {
    && k in t
    && (exists live :: live in t && !t[live].deleted && live.collection == k.collection)
    && |NewerKeys(t, KeysOf(t, k.collection, true), k)| < WINDOW
  }

  ghost predicate InDelta(t: Table, peerClock: VectorClock, peer: NodeId, k: Key) {
    InWindow(t, k) && Wanted(t[k], peerClock, peer)
  }

  lemma DeltaOfKeyOnKey(t: Table, last: Key, peerClock: VectorClock, peer: NodeId, k: Key)
    ensures OnKey(DeltaOfKey(t, last, peerClock, peer), k) == if last == k then DeltaOfKey(t, k, peerClock, peer) else []
  {
    if last in t && Wanted(t[last], peerClock, peer) {
      assert [DeltaOp(last, t[last])][..0] == [];
    }
  }

  lemma {:induction false} DeltaOfKeysOnKey(t: Table, keys: seq<Key>, peerClock: VectorClock, peer: NodeId, k: Key)
    requires forall i, j | 0 <= i < j < |keys| :: keys[i] != keys[j]
    ensures OnKey(DeltaOfKeys(t, keys, peerClock, peer), k) == if k in keys then DeltaOfKey(t, k, peerClock, peer) else []
  {
    if keys != [] {
      var front, last := keys[..|keys| - 1], keys[|keys| - 1];
      assert k in keys <==> k in front || k == last;
      assert last !in front;
      DeltaOfKeysOnKey(t, front, peerClock, peer, k);
      DeltaOfKeyOnKey(t, last, peerClock, peer, k);
      OnKeyConcat(DeltaOfKeys(t, front, peerClock, peer), DeltaOfKey(t, last, peerClock, peer), k);
    }
  }

  lemma WindowMembers(t: Table, collection: string, k: Key)
    ensures k in Window(t, collection) ==> k.collection == collection && k in t
    ensures forall i, j | 0 <= i < j < |Window(t, collection)| :: Window(t, collection)[i] != Window(t, collection)[j]
  {
    WindowIsRank(t, collection, true, WINDOW, k);
    WindowDistinct(t, collection, true, WINDOW);
  }

  lemma WindowOnKey(t: Table, collection: string, peerClock: VectorClock, peer: NodeId, k: Key)
    ensures OnKey(DeltaOfKeys(t, Window(t, collection), peerClock, peer), k)
         == if k in Window(t, collection) then DeltaOfKey(t, k, peerClock, peer) else []
    ensures k in Window(t, collection) ==> k.collection == collection
  {
    WindowMembers(t, collection, k);
    DeltaOfKeysOnKey(t, Window(t, collection), peerClock, peer, k);
  }

  lemma {:induction false} DeltaOfCollectionsOnKey(t: Table, collections: seq<string>, peerClock: VectorClock, peer: NodeId, k: Key)
    requires forall i, j | 0 <= i < j < |collections| :: collections[i] != collections[j]
    ensures OnKey(DeltaOfCollections(t, collections, peerClock, peer), k)
         == if k.collection in collections && k in Window(t, k.collection) then DeltaOfKey(t, k, peerClock, peer) else []
  {
    if collections != [] {
      var front, last := collections[..|collections| - 1], collections[|collections| - 1];
      LastIsNew(collections, k.collection);
      DeltaOfCollectionsOnKey(t, front, peerClock, peer, k);
      WindowOnKey(t, last, peerClock, peer, k);
      OnKeyConcat(DeltaOfCollections(t, front, peerClock, peer), DeltaOfKeys(t, Window(t, last), peerClock, peer), k);
    }
  }

  lemma LastIsNew(collections: seq<string>, c: string)
    requires collections != [] && forall i, j | 0 <= i < j < |collections| :: collections[i] != collections[j]
    ensures var front, last := collections[..|collections| - 1], collections[|collections| - 1];
            (c in collections <==> c in front || c == last) && (c == last ==> c !in front)
  {
    var front, last := collections[..|collections| - 1], collections[|collections| - 1];
    assert collections == front + [last];
  }

  /** A delta holds each record at most once, and exactly the records that lie in the
      window, were written by someone else and are not covered by the peer's clock. */
  lemma DeltaOnKey(t: Table, peerClock: VectorClock, peer: NodeId, k: Key)
    ensures OnKey(Delta(t, peerClock, peer), k) == if InDelta(t, peerClock, peer, k) then [DeltaOp(k, t[k])] else []
  {
    CollectionsExact(t);
    DeltaOfCollectionsOnKey(t, Collections(t), peerClock, peer, k);
    WindowListed(t, k);
  }

  lemma WindowListed(t: Table, k: Key)
    ensures InWindow(t, k) <==> k.collection in Collections(t) && k in Window(t, k.collection)
    ensures k in Window(t, k.collection) ==> k in t
  {
    CollectionsExact(t);
    WindowIsRank(t, k.collection, true, WINDOW, k);
  }

  lemma DeltaExact(t: Table, peerClock: VectorClock, peer: NodeId, op: Operation)
    ensures op in Delta(t, peerClock, peer) <==>
            InDelta(t, peerClock, peer, op.key) && op == DeltaOp(op.key, t[op.key])
  {
    OnKeyMembers(Delta(t, peerClock, peer), op.key);
    DeltaOnKey(t, peerClock, peer, op.key);
  }

  /** "Covered by the peer's clock" is the causal order, read against one clock for all
      records: a record nobody sent to the peer is withheld when other records have
      already raised the same counters. */
  lemma WantedMeansUncovered(rec: Record, peerClock: VectorClock, peer: NodeId)
    ensures Wanted(rec, peerClock, peer) <==> rec.lastModifiedBy != peer && !Leq(rec.vectorClock, peerClock)
  {
    OrderDecides(peerClock, rec.vectorClock);
    MakeAgain(peerClock);
  }

  /** The window by time, on the table itself: in a collection that still has a live record, an
      uncovered record of another author is sent if fewer than 500 others of the collection,
      tombstones included, were modified at its time or later, and is not sent if 500 were
      modified later. */
  lemma DeltaByTime(t: Table, peerClock: VectorClock, peer: NodeId, k: Key)
    requires k in t && exists live :: live in t && !t[live].deleted && live.collection == k.collection
    ensures t[k].lastModifiedBy != peer && !Leq(t[k].vectorClock, peerClock)
            && |set x | x in t && x.collection == k.collection && x != k && t[x].lastModified >= t[k].lastModified| < 500
            ==> DeltaOp(k, t[k]) in Delta(t, peerClock, peer)
    ensures |set x | x in t && x.collection == k.collection && t[x].lastModified > t[k].lastModified| >= 500
            ==> forall op | op in Delta(t, peerClock, peer) :: op.key != k
  {
    var keys := KeysOf(t, k.collection, true);
    var newer := NewerKeys(t, keys, k);
    StringOrder.Irreflexive(k.recordId);
    SmallerSet(newer, set x | x in t && x.collection == k.collection && x != k && t[x].lastModified >= t[k].lastModified);
    var later := set x | x in t && x.collection == k.collection && t[x].lastModified > t[k].lastModified;
    SmallerSet(later, newer);
    WantedMeansUncovered(t[k], peerClock, peer);
    DeltaExact(t, peerClock, peer, DeltaOp(k, t[k]));
    forall op | op in Delta(t, peerClock, peer) && op.key == k
      ensures InWindow(t, k)
    {
      DeltaExact(t, peerClock, peer, op);
    }
  }

  /** What an operation of a delta says of its record. */
  lemma DeltaCarriesRecord(t: Table, peerClock: VectorClock, peer: NodeId, op: Operation)
    requires op in Delta(t, peerClock, peer)
    ensures op.key in t
    ensures var rec := t[op.key];
            && rec.lastModifiedBy != peer && !Leq(rec.vectorClock, peerClock)
            && op.nodeId == rec.lastModifiedBy && op.kind == (if rec.deleted then Delete else Update)
            && op.payload == rec.data && op.timestamp == rec.lastModified && op.vectorClock == rec.vectorClock
            && op.lamport == rec.version && op.priority == P2
  {
    DeltaExact(t, peerClock, peer, op);
    WantedMeansUncovered(t[op.key], peerClock, peer);
  }

  ghost predicate TimesFall(ops: seq<Operation>) {
    forall i, j | 0 <= i < j < |ops| :: ops[i].timestamp >= ops[j].timestamp
  }

  ghost predicate KeysFall(t: Table, keys: seq<Key>) {
    forall i, j | 0 <= i < j < |keys| :: keys[i] in t && keys[j] in t && t[keys[i]].lastModified >= t[keys[j]].lastModified
  }

  lemma {:induction false} DeltaOfKeysInOrder(t: Table, keys: seq<Key>, peerClock: VectorClock, peer: NodeId)
    requires KeysFall(t, keys)
    ensures TimesFall(DeltaOfKeys(t, keys, peerClock, peer))
    ensures forall op | op in DeltaOfKeys(t, keys, peerClock, peer) :: op.key in keys && op.key in t && op.timestamp == t[op.key].lastModified
  {
    if keys != [] {
      var front, last := keys[..|keys| - 1], keys[|keys| - 1];
      assert keys == front + [last];
      DeltaOfKeysInOrder(t, front, peerClock, peer);
      forall k | k in front && last in t && k in t
        ensures t[k].lastModified >= t[last].lastModified
      {
        var i :| 0 <= i < |front| && front[i] == k;
        assert keys[i] == k;
      }
    }
  }

  lemma WindowInOrder(t: Table, collection: string)
    ensures KeysFall(t, Window(t, collection))
    ensures forall k | k in Window(t, collection) :: k.collection == collection
  {
    FirstPage(t, collection, WINDOW, true);
    QueryByTime(t, collection, map[], WINDOW, 0, true);
  }

  /** Collection by collection, and the latest first in each. */
  ghost predicate DeltaOrder(ops: seq<Operation>) {
    forall i, j | 0 <= i < j < |ops| ::
      || StringOrder.Less(ops[i].key.collection, ops[j].key.collection)
      || (ops[i].key.collection == ops[j].key.collection && ops[i].timestamp >= ops[j].timestamp)
  }

  lemma DeltaOrderAppend(a: seq<Operation>, b: seq<Operation>)
    requires DeltaOrder(a) && DeltaOrder(b)
    requires forall x, y | x in a && y in b :: StringOrder.Less(x.key.collection, y.key.collection)
    ensures DeltaOrder(a + b)
  {
    var ops := a + b;
    forall i, j | 0 <= i < |a| <= j < |ops|
      ensures StringOrder.Less(ops[i].key.collection, ops[j].key.collection)
    {
      assert a[i] in a && b[j - |a|] in b;
    }
  }

  lemma {:induction false} DeltaOfCollectionsInOrder(t: Table, collections: seq<string>, peerClock: VectorClock, peer: NodeId)
    requires forall i, j | 0 <= i < j < |collections| :: StringOrder.Less(collections[i], collections[j])
    ensures DeltaOrder(DeltaOfCollections(t, collections, peerClock, peer))
    ensures forall op | op in DeltaOfCollections(t, collections, peerClock, peer) :: op.key.collection in collections
  {
    if collections != [] {
      var front, last := collections[..|collections| - 1], collections[|collections| - 1];
      assert collections == front + [last];
      DeltaOfCollectionsInOrder(t, front, peerClock, peer);
      WindowInOrder(t, last);
      DeltaOfKeysInOrder(t, Window(t, last), peerClock, peer);
      var a, b := DeltaOfCollections(t, front, peerClock, peer), DeltaOfKeys(t, Window(t, last), peerClock, peer);
      forall x, y | x in a && y in b
        ensures StringOrder.Less(x.key.collection, y.key.collection)
      {
        var i :| 0 <= i < |front| && front[i] == x.key.collection;
        assert collections[i] == x.key.collection;
      }
      assert forall i | 0 <= i < |b| :: b[i] in b;
      DeltaOrderAppend(a, b);
    }
  }

  /** A delta goes through the collections in alphabetic order, and in each from the latest to
      the earliest record. */
  lemma DeltaInOrder(t: Table, peerClock: VectorClock, peer: NodeId)
    ensures var ops := Delta(t, peerClock, peer);
            forall i, j | 0 <= i < j < |ops| ::
              || StringOrder.Less(ops[i].key.collection, ops[j].key.collection)
              || (ops[i].key.collection == ops[j].key.collection && ops[i].timestamp >= ops[j].timestamp)
  {
    CollectionsExact(t);
    DeltaOfCollectionsInOrder(t, Collections(t), peerClock, peer);
  }

  function DigitsValue(s: string): int {
    if s == [] then 0 else 10 * DigitsValue(s[..|s| - 1]) + (s[|s| - 1] as int - '0' as int)
  }

  /** The digits of a number are decimal digits without leading zeros, and denote it. */
  lemma {:induction false} DigitsDenote(n: nat)
    ensures Digits(n) != [] && DigitsValue(Digits(n)) == n
    ensures forall c | c in Digits(n) :: '0' <= c <= '9'
    ensures n > 0 ==> Digits(n)[0] != '0'
  {
    var last := (n % 10) as char + '0';
    if n < 10 {
      assert Digits(n) == [last] && [last][..0] == [];
    } else {
      DigitsDenote(n / 10);
      assert Digits(n) == Digits(n / 10) + [last];
      assert Digits(n)[..|Digits(n)| - 1] == Digits(n / 10);
    }
  }

  /** A delta operation is named after its record and its version, in decimal. */
  lemma DeltaIsNamed(k: Key, rec: Record)
    ensures var digits := Digits(if rec.version < 0 then -rec.version else rec.version);
            && DeltaOp(k, rec).opId == "srv-" + k.collection + "-" + k.recordId + "-" + (if rec.version < 0 then "-" else "") + digits
            && DigitsValue(digits) == if rec.version < 0 then -rec.version else rec.version
  {
    DigitsDenote(if rec.version < 0 then -rec.version else rec.version);
  }

  // ----- Handling a request

  datatype ServerConfig = ServerConfig(registrationRequired: bool, tolerance: real)

  datatype ServerState = ServerState(rep: Replica, registered: set<NodeId>)

  predicate Refused(c: ServerConfig, s: ServerState, req: Request) {
    c.registrationRequired && req.nodeId !in s.registered
  }

  /** The operations of a request that the server runs through the resolver. */
  function Ran(c: ServerConfig, s: ServerState, req: Request): seq<Operation> {
    if Refused(c, s, req) || !req.intact then [] else GoodPrefix(ItemsOf(req.payload))
  }

  predicate Fails(c: ServerConfig, s: ServerState, req: Request) {
    Refused(c, s, req) || Raises(req.payload) || (req.payload.Items? && !req.intact)
  }

  function Handled(c: ServerConfig, s: ServerState, req: Request): ServerState {
    ServerState(Receive(c.tolerance, s.rep, Ran(c, s, req)),
                if Fails(c, s, req) then s.registered else s.registered + {req.nodeId})
  }

  /** An error reply acknowledges nothing, even when some operations were already applied. */
  function Reply(c: ServerConfig, s: ServerState, req: Request): Response {
    if Fails(c, s, req) then Response(false, [], Empty, ErrorText(c, s, req))
    else Response(true, Outbox.IdsOf(Ran(c, s, req)), PayloadOf(DeltaFor(c, s, req)), "")
  }

  /** The delta is taken after the pushed operations have been applied. */
  function DeltaFor(c: ServerConfig, s: ServerState, req: Request): seq<Operation> {
    Delta(Handled(c, s, req).rep.table, Make(req.senderClock), req.nodeId)
  }

  function ErrorText(c: ServerConfig, s: ServerState, req: Request): string {
    if Refused(c, s, req) then "Node is not registered on this server"
    else if req.payload.Items? && !req.intact then "Payload hash mismatch (integrity check failed)"
    else "Failed to unpack operations"
  }

  lemma {:induction false} AllGood(items: seq<WireItem>)
    ensures GoodCount(items) == |items| <==> forall item | item in items :: item.Good?
  {
    if GoodCount(items) < |items| {
      assert items[GoodCount(items)] in items;
    }
  }

  /** When a request is answered with ok, what is acknowledged then, and what an error reply
      leaves undone, by the parts of the request. */
  lemma ReplyExactly(c: ServerConfig, s: ServerState, req: Request)
    ensures var resp := Reply(c, s, req);
            var s' := Handled(c, s, req);
            var admitted := !c.registrationRequired || req.nodeId in s.registered;
            && (resp.ok <==>
                  admitted && (req.payload == Empty ||
                               (req.payload.Items? && req.intact && forall item | item in req.payload.items :: item.Good?)))
            && (resp.ok && req.payload == Empty ==> resp.acked == [])
            && (resp.ok && req.payload.Items? ==>
                  && |resp.acked| == |req.payload.items|
                  && forall i | 0 <= i < |resp.acked| :: req.payload.items[i].Good? && resp.acked[i] == req.payload.items[i].op.opId)
            && (resp.ok ==> !Raises(resp.payload)
                            && GoodPrefix(ItemsOf(resp.payload)) == Delta(s'.rep.table, Make(req.senderClock), req.nodeId))
            && (!resp.ok ==> resp.acked == [] && resp.payload == Empty)
            && (!admitted ==> s' == s && resp.error == "Node is not registered on this server")
            && (admitted && req.payload.Items? && !req.intact ==>
                  s' == s && resp.error == "Payload hash mismatch (integrity check failed)")
            && s'.registered == if resp.ok then s.registered + {req.nodeId} else s.registered
  {
    AllGood(ItemsOf(req.payload));
    WrapIsReadable(DeltaFor(c, s, req));
  }

  class DDILSyncServer {
    const config: ServerConfig
    const store: LocalStore
    var lamport: int
    var clock: VectorClock
    var registered: set<NodeId>

    ghost function State(): ServerState
      reads this, store
    {
      ServerState(Replica(lamport, clock, store.records), registered)
    }

    constructor (config: ServerConfig, store: LocalStore)
      ensures this.config == config && this.store == store
      ensures State() == ServerState(Replica(0, map[], store.records), {})
    {
      this.config, this.store := config, store;
      lamport, clock, registered := 0, map[], {};
    }

    /** One pass of the receive loop: counters first, then the resolver, then the store. */
    method ReceiveOperation(op: Operation)
      modifies this, store
      ensures State() == ServerState(ReceiveOne(config.tolerance, old(State()).rep, op), old(registered))
      ensures lamport == 1 + if old(lamport) >= op.lamport then old(lamport) else op.lamport
      ensures forall n :: At(clock, n) == if At(old(clock), n) >= At(op.vectorClock, n) then At(old(clock), n) else At(op.vectorClock, n)
    {
      forall n { MergeAt(clock, op.vectorClock, n); }
      lamport := Max(lamport, op.lamport) + 1;
      clock := VectorClocks.Merge(clock, op.vectorClock);
      var local := store.Get(op.key, true);
      var resolution := Resolve(config.tolerance, local, op);
      if !resolution.action.DiscardRemote? {
        var _ := store.ApplyOperation(op);
      }
    }

    /** Works through the list up to its end or its first malformed entry. */
    method ReceiveItems(items: seq<WireItem>) returns (complete: bool, acked: seq<string>, ghost ran: seq<Operation>)
      modifies this, store
      ensures complete <==> GoodCount(items) == |items|
      ensures ran == GoodPrefix(items) && acked == Outbox.IdsOf(ran)
      ensures State() == ServerState(Receive(config.tolerance, old(State()).rep, ran), old(registered))
    {
      ghost var good := GoodPrefix(items);
      ghost var rep := State().rep;
      ran, acked := [], [];
      for i := 0 to |items|
        invariant i <= |good| && ran == good[..i]
        invariant acked == Outbox.IdsOf(ran)
        invariant State() == ServerState(Receive(config.tolerance, rep, ran), old(registered))
      {
        GoodPrefixStep(items, i);
        if items[i].Malformed? {
          return false, acked, ran;
        }
        var op := items[i].op;
        ReceiveStep(config.tolerance, rep, ran, op);
        Outbox.IdsStep(ran, op);
        ReceiveOperation(op);
        ran, acked := ran + [op], acked + [op.opId];
      }
      assert good[..|items|] == good;
      complete := true;
    }

    /** `ran` is the log of the operations that reached the resolver, which is what an
        acknowledgement stands for. */
    method HandleSyncRequest(req: Request) returns (resp: Response, ghost ran: seq<Operation>)
      modifies this, store
      ensures State() == Handled(config, old(State()), req)
      ensures resp == Reply(config, old(State()), req)
      ensures ran == Ran(config, old(State()), req)
      ensures resp.acked == if resp.ok then Outbox.IdsOf(ran) else []
      ensures resp.ok <==>
              && (!config.registrationRequired || req.nodeId in old(registered))
              && (req.payload == Empty || (req.payload.Items? && req.intact && forall item | item in req.payload.items :: item.Good?))
      ensures !resp.ok ==> resp.acked == [] && resp.payload == Empty
      ensures config.registrationRequired && req.nodeId !in old(registered) ==> State() == old(State())
      ensures registered == if resp.ok then old(registered) + {req.nodeId} else old(registered)
    {
      ReplyExactly(config, State(), req);
      if config.registrationRequired && req.nodeId !in registered {
        return Response(false, [], Empty, "Node is not registered on this server"), [];
      }
      var error, acked;
      error, acked, ran := ReceivePayload(req.payload, req.intact);
      if error.Some? {
        return Response(false, [], Empty, error.value), ran;
      }
      var delta := GetOperationsForPeer(Make(req.senderClock), req.nodeId);
      registered := registered + {req.nodeId};
      resp := Response(true, acked, PayloadOf(delta), "");
    }

    /** Unpacks and checks the payload, then runs its operations. */
    method ReceivePayload(payload: Payload, intact: bool)
      returns (error: Option<string>, acked: seq<string>, ghost ran: seq<Operation>)
      modifies this, store
      ensures ran == if intact then GoodPrefix(ItemsOf(payload)) else []
      ensures error == (if payload.Items? && !intact then Some("Payload hash mismatch (integrity check failed)")
                        else if Raises(payload) then Some("Failed to unpack operations")
                        else None)
      ensures acked == Outbox.IdsOf(ran)
      ensures State() == ServerState(Receive(config.tolerance, old(State()).rep, ran), old(registered))
    {
      match payload
      case Empty => error, acked, ran := None, [], [];
      case Unreadable => error, acked, ran := Some("Failed to unpack operations"), [], [];
      case Items(items) =>
        if !intact {
          return Some("Payload hash mismatch (integrity check failed)"), [], [];
        }
        var complete;
        complete, acked, ran := ReceiveItems(items);
        error := if complete then None else Some("Failed to unpack operations");
    }

    method GetOperationsForPeer(peerClock: VectorClock, peer: NodeId) returns (ops: seq<Operation>)
      ensures ops == Delta(store.records, peerClock, peer)
    {
      ops := [];
      var collections := store.GetAllCollections();
      for c := 0 to |collections|
        invariant ops == DeltaOfCollections(store.records, collections[..c], peerClock, peer)
      {
        DeltaOfCollectionsStep(store.records, collections, c, peerClock, peer);
        var more := GetOperationsInCollection(collections[c], peerClock, peer);
        ops := ops + more;
      }
      assert collections[..|collections|] == collections;
    }

    method GetOperationsInCollection(collection: string, peerClock: VectorClock, peer: NodeId) returns (ops: seq<Operation>)
      ensures ops == DeltaOfKeys(store.records, Window(store.records, collection), peerClock, peer)
    {
      ops := [];
      var keys := store.Query(collection, map[], WINDOW, 0, true);
      FirstPage(store.records, collection, WINDOW, true);
      for i := 0 to |keys|
        invariant ops == DeltaOfKeys(store.records, keys[..i], peerClock, peer)
      {
        DeltaOfKeysStep(store.records, keys, i, peerClock, peer);
        var rec := store.records[keys[i]];
        if Wanted(rec, peerClock, peer) {
          ops := ops + [DeltaOp(keys[i], rec)];
        }
      }
      assert keys[..|keys|] == keys;
    }
  }
}
