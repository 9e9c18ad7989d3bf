/** The self-delimiting wire frame: magic, version, big-endian length, digest, payload. The
    digest function is a parameter; nothing but its output size is used. */
module Framing {

  newtype byte = x: int | 0 <= x < 256

  type Bytes = seq<byte>

  type Digest = d: Bytes | |d| == 32
    witness seq(32, _ => 0 as byte)

  /** Stands for SHA-256. */
  type Hash = Bytes -> Digest

  const MAGIC: Bytes := [0x44, 0x44, 0x49, 0x4C]
  const VERSION: byte := 1
  const HEADER_SIZE := 41
  const LENGTH_LIMIT := 0x1_0000_0000

  datatype FrameError = IncompleteHeader | BadMagic | BadVersion | IncompletePayload | DigestMismatch
  datatype Unframed = Extracted(payload: Bytes, rest: Bytes) | Rejected(error: FrameError)

  /** The length field, in network byte order. */
  function EncodeLength(n: nat): (b: Bytes)
    requires n < LENGTH_LIMIT
    ensures |b| == 4
  {
    [(n / 0x100_0000) as byte, (n / 0x1_0000 % 0x100) as byte, (n / 0x100 % 0x100) as byte, (n % 0x100) as byte]
  }

  function DecodeLength(b: Bytes): (n: nat)
    requires |b| == 4
    ensures n < LENGTH_LIMIT
  {
    b[0] as int * 0x100_0000 + b[1] as int * 0x1_0000 + b[2] as int * 0x100 + b[3] as int
  }

  lemma LengthRoundTrip(n: nat)
    requires n < LENGTH_LIMIT
    ensures DecodeLength(EncodeLength(n)) == n
  {
    assert n / 0x100 == n / 0x1_0000 * 0x100 + n / 0x100 % 0x100;
    assert n / 0x1_0000 == n / 0x100_0000 * 0x100 + n / 0x1_0000 % 0x100;
  }

  lemma LengthRoundTripBack(b: Bytes)
    requires |b| == 4
    ensures EncodeLength(DecodeLength(b)) == b
  {
    var n := DecodeLength(b);
    assert n / 0x100 == b[0] as int * 0x1_0000 + b[1] as int * 0x100 + b[2] as int;
    assert n / 0x1_0000 == b[0] as int * 0x100 + b[1] as int;
    assert n / 0x100_0000 == b[0] as int;
  }

  function Header(hash: Hash, payload: Bytes): (h: Bytes)
    requires |payload| < LENGTH_LIMIT
    ensures |h| == HEADER_SIZE
  {
    MAGIC + [VERSION] + EncodeLength(|payload|) + hash(payload)
  }

  predicate Fits(payload: Bytes) {
    |payload| < LENGTH_LIMIT
  }

  /** A payload whose length does not fit the field makes the packer raise. */
  function Frame(hash: Hash, payload: Bytes): Bytes
    requires Fits(payload)
  {
    Header(hash, payload) + payload
  }

  function HeaderLength(header: Bytes): nat
    requires |header| >= HEADER_SIZE
  {
    DecodeLength(header[5..9])
  }

  function Unframe(hash: Hash, data: Bytes): Unframed {
    if |data| < HEADER_SIZE then Rejected(IncompleteHeader)
    else if data[..4] != MAGIC then Rejected(BadMagic)
    else if data[4] != VERSION then Rejected(BadVersion)
    else
      var end := HEADER_SIZE + HeaderLength(data);
      if |data| < end then Rejected(IncompletePayload)
      else
        var payload := data[HEADER_SIZE..end];
        if hash(payload) != data[9..41] then Rejected(DigestMismatch)
        else Extracted(payload, data[end..])
  }

  lemma HeaderFields(hash: Hash, p: Bytes, tail: Bytes)
    requires Fits(p)
    ensures var d := Header(hash, p) + tail;
            && d[..4] == MAGIC && d[4] == VERSION && d[5..9] == EncodeLength(|p|) && d[9..41] == hash(p)
            && d[41..] == tail && HeaderLength(d) == |p|
  {
    var d := Header(hash, p) + tail;
    assert d[5..9] == EncodeLength(|p|);
    LengthRoundTrip(|p|);
  }

  lemma HeaderFromFields(hash: Hash, d: Bytes, p: Bytes)
    requires |d| >= HEADER_SIZE && d[..4] == MAGIC && d[4] == VERSION && HeaderLength(d) == |p| && d[9..41] == hash(p)
    ensures Fits(p) && d[..HEADER_SIZE] == Header(hash, p)
  {
    LengthRoundTripBack(d[5..9]);
    assert d[..41] == d[..4] + [d[4]] + d[5..9] + d[9..41];
  }

  /** The nine bytes before the digest: the letters DDIL, the version, and the length with its
      most significant byte first. */
  lemma HeaderBytes(hash: Hash, p: Bytes)
    requires Fits(p)
    ensures var f := Frame(hash, p);
            && |f| == 41 + |p|
            && f[0] as int == 'D' as int && f[1] as int == 'D' as int && f[2] as int == 'I' as int && f[3] as int == 'L' as int
            && f[4] == 1
            && f[5] as int * 16_777_216 + f[6] as int * 65_536 + f[7] as int * 256 + f[8] as int == |p|
            && f[9..41] == hash(p) && f[41..] == p
  {
    HeaderFields(hash, p, p);
    LengthRoundTrip(|p|);
    var f := Frame(hash, p);
    assert forall i | 0 <= i < 4 :: f[5..9][i] == f[5 + i];
    assert forall i | 0 <= i < 4 :: f[..4][i] == f[i];
  }

  /** Damage is reported by the first field that shows it: short data before wrong letters,
      these before a wrong version, that before a payload that is not all there, and last a
      payload that does not match its digest. */
  lemma RejectionExactly(hash: Hash, data: Bytes, e: FrameError)
    ensures Unframe(hash, data) == Rejected(e) <==>
            match e
            case IncompleteHeader => |data| < 41
            case BadMagic => |data| >= 41 && data[..4] != [0x44, 0x44, 0x49, 0x4C]
            case BadVersion => |data| >= 41 && data[..4] == [0x44, 0x44, 0x49, 0x4C] && data[4] != 1
            case IncompletePayload =>
              && |data| >= 41 && data[..4] == [0x44, 0x44, 0x49, 0x4C] && data[4] == 1
              && |data| < 41 + data[5] as int * 16_777_216 + data[6] as int * 65_536 + data[7] as int * 256 + data[8] as int
            case DigestMismatch =>
              && |data| >= 41 && data[..4] == [0x44, 0x44, 0x49, 0x4C] && data[4] == 1
              && var n := data[5] as int * 16_777_216 + data[6] as int * 65_536 + data[7] as int * 256 + data[8] as int;
                 |data| >= 41 + n && hash(data[41..41 + n]) != data[9..41]
  {
    if |data| >= 41 {
      assert forall i | 0 <= i < 4 :: data[5..9][i] == data[5 + i];
    }
  }

  /** A payload changed on the way is found out if its digest changes. */
  lemma ChangedPayloadIsFound(hash: Hash, p: Bytes, q: Bytes, rest: Bytes)
    requires Fits(p) && |q| == |p| && hash(q) != hash(p)
    ensures Unframe(hash, Header(hash, p) + q + rest) == Rejected(DigestMismatch)
  {
    assert Header(hash, p) + q + rest == Header(hash, p) + (q + rest);
    HeaderFields(hash, p, q + rest);
    assert (Header(hash, p) + (q + rest))[41..41 + |p|] == (q + rest)[..|q|] == q;
  }

  /** Unframing accepts exactly the data that starts with a frame, and gives back its
      payload and what follows it. */
  lemma UnframeExact(hash: Hash, data: Bytes, p: Bytes, rest: Bytes)
    ensures Unframe(hash, data) == Extracted(p, rest) <==> Fits(p) && data == Frame(hash, p) + rest
  {
    if Fits(p) && data == Frame(hash, p) + rest {
      assert data == Header(hash, p) + (p + rest);
      HeaderFields(hash, p, p + rest);
      assert data[41..41 + |p|] == (p + rest)[..|p|] == p;
      assert data[41 + |p|..] == rest;
    }
    if Unframe(hash, data) == Extracted(p, rest) {
      HeaderFromFields(hash, data, p);
      assert data == data[..41] + data[41..41 + |p|] + data[41 + |p|..];
    }
  }

  /** A frame that has not arrived completely is never accepted and never taken for bad. */
  lemma StrictPrefixIsIncomplete(hash: Hash, p: Bytes, n: nat)
    requires Fits(p) && n < |Frame(hash, p)|
    ensures Unframe(hash, Frame(hash, p)[..n]) == Rejected(if n < HEADER_SIZE then IncompleteHeader else IncompletePayload)
  {
    if n >= HEADER_SIZE {
      var d := Frame(hash, p)[..n];
      assert d == Header(hash, p) + p[..n - HEADER_SIZE];
      HeaderFields(hash, p, p[..n - HEADER_SIZE]);
    }
  }

  /** Two different payloads never share the start of a stream. */
  lemma FramesArePrefixFree(hash: Hash, p: Bytes, q: Bytes, rest: Bytes, rest': Bytes)
    requires Fits(p) && Fits(q) && Frame(hash, p) + rest == Frame(hash, q) + rest'
    ensures p == q && rest == rest'
  {
    UnframeExact(hash, Frame(hash, p) + rest, p, rest);
    UnframeExact(hash, Frame(hash, p) + rest, q, rest');
  }

  // ----- Streams of frames

  function FrameAll(hash: Hash, payloads: seq<Bytes>): Bytes
    requires forall p | p in payloads :: Fits(p)
  {
    if payloads == [] then [] else Frame(hash, payloads[0]) + FrameAll(hash, payloads[1..])
  }

  /** Unframes until the data no longer starts with a frame. */
  function UnframeAll(hash: Hash, data: Bytes): (seq<Bytes>, Bytes)
    decreases |data|
  {
    match Unframe(hash, data)
    case Rejected(_) => ([], data)
    case Extracted(p, rest) =>
      var (more, left) := UnframeAll(hash, rest);
      ([p] + more, left)
  }

  lemma UnframeAllStep(hash: Hash, p: Bytes, rest: Bytes)
    requires Fits(p)
    ensures UnframeAll(hash, Frame(hash, p) + rest) == ([p] + UnframeAll(hash, rest).0, UnframeAll(hash, rest).1)
  {
    UnframeExact(hash, Frame(hash, p) + rest, p, rest);
  }

  /** Concatenated frames come apart again, in order, up to whatever follows them. */
  lemma {:induction false} StreamRoundTrip(hash: Hash, payloads: seq<Bytes>, tail: Bytes)
    requires forall p | p in payloads :: Fits(p)
    requires Unframe(hash, tail).Rejected?
    ensures UnframeAll(hash, FrameAll(hash, payloads) + tail) == (payloads, tail)
  {
    if payloads == [] {
      assert FrameAll(hash, payloads) + tail == tail;
    } else {
      var rest := FrameAll(hash, payloads[1..]) + tail;
      assert FrameAll(hash, payloads) + tail == Frame(hash, payloads[0]) + rest;
      UnframeAllStep(hash, payloads[0], rest);
      StreamRoundTrip(hash, payloads[1..], tail);
      assert payloads == [payloads[0]] + payloads[1..];
    }
  }

  lemma FrameAllCons(hash: Hash, p: Bytes, more: seq<Bytes>)
    requires Fits(p) && forall q | q in more :: Fits(q)
    ensures forall q | q in [p] + more :: Fits(q)
    ensures FrameAll(hash, [p] + more) == Frame(hash, p) + FrameAll(hash, more)
  {
    assert ([p] + more)[1..] == more;
  }

  lemma ConcatAssociates(a: Bytes, b: Bytes, c: Bytes)
    ensures a + (b + c) == (a + b) + c
  {
  }

  /** And nothing else does: what comes apart is the stream it came from. */
  lemma {:induction false} StreamExact(hash: Hash, data: Bytes)
    ensures forall p | p in UnframeAll(hash, data).0 :: Fits(p)
    ensures data == FrameAll(hash, UnframeAll(hash, data).0) + UnframeAll(hash, data).1
    ensures Unframe(hash, UnframeAll(hash, data).1).Rejected?
    decreases |data|
  {
    match Unframe(hash, data)
    case Rejected(_) =>
    case Extracted(p, rest) =>
      UnframeExact(hash, data, p, rest);
      StreamExact(hash, rest);
      var more, left := UnframeAll(hash, rest).0, UnframeAll(hash, rest).1;
      UnframeAllStep(hash, p, rest);
      FrameAllCons(hash, p, more);
      ConcatAssociates(Frame(hash, p), FrameAll(hash, more), left);
  }
}
