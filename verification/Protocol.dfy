/** The messages of a sync cycle. Encryption, compression and MessagePack are modelled by
    what the receiver finds when it undoes them. */
module Protocol {
  import opened Models
  import opened VectorClocks

  /** One entry of an unpacked operation list; `Malformed` makes the reader raise. */
  datatype WireItem = Good(op: Operation) | Malformed

  /** `Unreadable` stands for bytes that fail to decrypt, decompress or unpack. */
  datatype Payload = Empty | Unreadable | Items(items: seq<WireItem>)

  /** `intact` tells whether the payload hash in the request matches. */
  datatype Request = Request(nodeId: NodeId, senderClock: RawClock, payload: Payload, intact: bool)

  datatype Response = Response(ok: bool, acked: seq<string>, payload: Payload, error: string)

  function Wrap(ops: seq<Operation>): seq<WireItem> {
    seq(|ops|, i requires 0 <= i < |ops| => Good(ops[i]))
  }

  /** How many entries a reader gets through before the first malformed one. */
  function GoodCount(items: seq<WireItem>): (n: nat)
    ensures n <= |items|
    ensures forall i | 0 <= i < n :: items[i].Good?
    ensures n < |items| ==> items[n].Malformed?
  {
    if items == [] || items[0].Malformed? then 0 else 1 + GoodCount(items[1..])
  }

  function GoodPrefix(items: seq<WireItem>): seq<Operation> {
    seq(GoodCount(items), i requires 0 <= i < GoodCount(items) => items[i].op)
  }

  lemma GoodPrefixStep(items: seq<WireItem>, i: nat)
    requires i < |items| && i <= GoodCount(items)
    ensures items[i].Malformed? ==> GoodPrefix(items)[..i] == GoodPrefix(items) && GoodCount(items) == i
    ensures items[i].Good? ==> i < GoodCount(items) && GoodPrefix(items)[..i + 1] == GoodPrefix(items)[..i] + [items[i].op]
  {
  }

  function ItemsOf(p: Payload): seq<WireItem> {
    if p.Items? then p.items else []
  }

  /** Reading the payload to its end raises an exception. */
  predicate Raises(p: Payload) {
    p.Unreadable? || (p.Items? && GoodCount(p.items) < |p.items|)
  }

  function PayloadOf(ops: seq<Operation>): Payload {
    if ops == [] then Empty else Items(Wrap(ops))
  }

  lemma WrapIsReadable(ops: seq<Operation>)
    ensures GoodPrefix(Wrap(ops)) == ops && GoodCount(Wrap(ops)) == |ops|
    ensures GoodPrefix(ItemsOf(PayloadOf(ops))) == ops && !Raises(PayloadOf(ops))
  {
    assert GoodCount(Wrap(ops)) == |ops|;
  }
}
