/** The data shapes shared by the store, the outbox, the engine and the server. */
module Models {
  import opened VectorClocks

  datatype Option<+T> = None | Some(value: T)

  /** A JSON value, as payloads and record data hold them. */
  datatype Json =
    | Null
    | Bool(b: bool)
    | Number(r: real)
    | Text(s: string)
    | List(items: seq<Json>)
    | Object(members: map<string, Json>)

  type Fields = map<string, Json>

  datatype Priority = P0 | P1 | P2 | P3 | P4 {
    function Level(): nat {
      match this
      case P0 => 0
      case P1 => 1
      case P2 => 2
      case P3 => 3
      case P4 => 4
    }
  }

  datatype OpType = Create | Update | Delete | Merge

  /** The primary key of the `records` table. */
  datatype Key = Key(collection: string, recordId: string)

  datatype Operation = Operation(
    opId: string,
    nodeId: NodeId,
    kind: OpType,
    key: Key,
    payload: Fields,
    timestamp: real,
    vectorClock: RawClock,
    lamport: int,
    priority: Priority)

  /** The non-key columns of a row of the `records` table. */
  datatype Record = Record(
    data: Fields,
    version: int,
    vectorClock: RawClock,
    lastModified: real,
    lastModifiedBy: NodeId,
    deleted: bool,
    deletedAt: Option<real>)

  predicate IsLive(r: Option<Record>) {
    r.Some? && !r.value.deleted
  }

  /** What an application can tell apart: everything but the version number. */
  datatype View = Gone | Live(data: Fields, clock: RawClock, timestamp: real, author: NodeId)

  function ViewOf(r: Option<Record>): View {
    if IsLive(r)
    then Live(r.value.data, r.value.vectorClock, r.value.lastModified, r.value.lastModifiedBy)
    else Gone
  }

  /** An operation that carries a whole record. */
  predicate Replaces(op: Operation) {
    op.kind.Create? || op.kind.Update?
  }

  /** The record view such an operation leaves when it is applied. */
  function ViewOfOp(op: Operation): View {
    Live(op.payload, op.vectorClock, op.timestamp, op.nodeId)
  }
}
