/** Reading one framed reply from a byte stream that arrives in arbitrary pieces. */
module Tcp {
  import opened Framing

  datatype Received = Raised | Chunk(bytes: Bytes)

  datatype Outcome = NoReply | Reply(payload: Bytes)

  /** A connection. How much each call of `Recv` returns is up to the network: any positive
      number of bytes up to the limit while there are bytes left, and none at the end of the
      stream. An unreliable connection may also raise, for instance on a timeout. */
  class Socket {
    var incoming: Bytes
    const reliable: bool

    constructor (incoming: Bytes, reliable: bool)
      ensures this.incoming == incoming && this.reliable == reliable
    {
      this.incoming, this.reliable := incoming, reliable;
    }

    method Recv(limit: nat) returns (r: Received)
      modifies this
      ensures reliable ==> r.Chunk?
      ensures r.Raised? ==> incoming == old(incoming)
      ensures r.Chunk? ==> old(incoming) == r.bytes + incoming && |r.bytes| <= limit
      ensures r.Chunk? && r.bytes == [] ==> old(incoming) == [] || limit == 0
    {
      var raises: bool :| reliable ==> !raises;
      if raises {
        return Raised;
      }
      if incoming == [] || limit == 0 {
        return Chunk([]);
      }
      var n: nat :| 1 <= n <= limit && n <= |incoming|;
      r := Chunk(incoming[..n]);
      incoming := incoming[n..];
    }

    /** The reading loop: keeps asking for what is missing. It ends for every schedule of
        chunks, takes exactly `wanted` bytes when they are there, and never more. */
    method ReadExactly(wanted: nat) returns (r: Received)
      modifies this
      ensures r.Chunk? ==> |r.bytes| == wanted && old(incoming) == r.bytes + incoming
      ensures reliable ==> (r.Chunk? <==> |old(incoming)| >= wanted)
    {
      var data: Bytes := [];
      while |data| < wanted
        invariant |data| <= wanted
        invariant old(incoming) == data + incoming
        decreases wanted - |data|
      {
        var chunk := Recv(wanted - |data|);
        if chunk.Raised? || chunk.bytes == [] {
          return Raised;
        }
        data := data + chunk.bytes;
      }
      r := Chunk(data);
    }
  }

  /** What a reply stream means, without reference to chunks. */
  function ReplyIn(hash: Hash, stream: Bytes): Outcome {
    if |stream| < HEADER_SIZE || |stream| < HEADER_SIZE + HeaderLength(stream) then NoReply
    else
      match Unframe(hash, stream[..HEADER_SIZE + HeaderLength(stream)])
      case Extracted(p, _) => Reply(p)
      case Rejected(_) => NoReply
  }

  /** A reply is read exactly when the stream starts with its frame. */
  lemma ReplyIsFrame(hash: Hash, stream: Bytes, p: Bytes)
    ensures ReplyIn(hash, stream) == Reply(p) <==> Fits(p) && Frame(hash, p) <= stream
  {
    if Fits(p) && Frame(hash, p) <= stream {
      var rest := stream[|Frame(hash, p)|..];
      assert stream == Header(hash, p) + (p + rest);
      HeaderFields(hash, p, p + rest);
      assert stream[..HEADER_SIZE + |p|] == Frame(hash, p) + [];
      UnframeExact(hash, Frame(hash, p) + [], p, []);
    }
    if ReplyIn(hash, stream) == Reply(p) {
      var whole := stream[..HEADER_SIZE + HeaderLength(stream)];
      var rest := Unframe(hash, whole).rest;
      UnframeExact(hash, whole, p, rest);
    }
  }

  /** What is extracted from exactly the announced bytes leaves nothing over. */
  lemma WholeReply(hash: Hash, whole: Bytes)
    requires |whole| >= HEADER_SIZE && |whole| == HEADER_SIZE + HeaderLength(whole)
    ensures match Unframe(hash, whole)
            case Extracted(p, rest) => rest == [] && Fits(p) && whole == Frame(hash, p)
            case Rejected(_) => true
  {
    match Unframe(hash, whole)
    case Rejected(_) =>
    case Extracted(p, rest) =>
      UnframeExact(hash, whole, p, rest);
      HeaderFields(hash, p, p + rest);
      assert whole == Header(hash, p) + (p + rest);
  }

  /** Sends a framed request and reads the framed reply. Over a reliable connection the
      outcome is a function of the stream alone; over any connection a reply is a frame
      that was at the head of the stream, and exactly its bytes have been consumed. */
  method SendReceive(hash: Hash, request: Bytes, socket: Socket) returns (r: Outcome)
    modifies socket
    ensures socket.reliable ==> r == if Fits(request) then ReplyIn(hash, old(socket.incoming)) else NoReply
    ensures r.Reply? ==> Fits(r.payload) && old(socket.incoming) == Frame(hash, r.payload) + socket.incoming
    ensures r.Reply? ==> |old(socket.incoming)| - |socket.incoming| == HEADER_SIZE + |r.payload|
  {
    if !Fits(request) {
      return NoReply;
    }
    ghost var stream := socket.incoming;
    var header := socket.ReadExactly(HEADER_SIZE);
    if header.Raised? {
      return NoReply;
    }
    var length := HeaderLength(header.bytes);
    assert HeaderLength(stream) == length by {
      assert header.bytes[5..9] == stream[5..9];
    }
    var payload := socket.ReadExactly(length);
    if payload.Raised? {
      return NoReply;
    }
    var whole := header.bytes + payload.bytes;
    assert whole[5..9] == header.bytes[5..9];
    WholeReply(hash, whole);
    assert stream == whole + socket.incoming;
    assert whole == stream[..HEADER_SIZE + length];
    match Unframe(hash, whole)
    case Rejected(_) => r := NoReply;
    case Extracted(p, _) => r := Reply(p);
  }
}
