/** The conflict resolver: causal order first, then last-write-wins with a clock-skew
    window and a node identifier tiebreak. */
module Conflict {
  import opened Models
  import opened VectorClocks
  import StringOrder

  datatype Action = ApplyRemote | DiscardRemote | MergeFields
  datatype Winner = LocalWins | RemoteWins
  datatype Tiebreaker = NoTiebreak | RemoteNewer | LocalNewer | ByNodeId
  datatype Basis = NonExistent | Compared(order: Comparison)

  datatype Resolution = Resolution(action: Action, winner: Winner, basis: Basis, tiebreaker: Tiebreaker)

  function AcceptAction(op: Operation): Action {
    if op.kind.Merge? then MergeFields else ApplyRemote
  }

  function Resolve(tolerance: real, local: Option<Record>, op: Operation): (res: Resolution)
    ensures res.action.DiscardRemote? <==> res.winner.LocalWins?
    ensures res.action.MergeFields? <==> res.winner.RemoteWins? && op.kind.Merge?
    ensures res.winner.RemoteWins? <==>
            if IsLive(local) then Beats(tolerance, VersionOfOp(op), VersionOf(local.value)) else !op.kind.Delete?
    ensures res.basis == if IsLive(local) then Compared(Order(local.value.vectorClock, op.vectorClock)) else NonExistent
    ensures res.tiebreaker.NoTiebreak? <==> res.basis != Compared(Concurrent)
    ensures res.tiebreaker.RemoteNewer? ==> res.winner.RemoteWins? && op.timestamp > local.value.lastModified + tolerance
    ensures res.tiebreaker.LocalNewer? ==> res.winner.LocalWins? && local.value.lastModified > op.timestamp + tolerance
    ensures res.tiebreaker.ByNodeId? ==>
              && op.timestamp <= local.value.lastModified + tolerance && local.value.lastModified <= op.timestamp + tolerance
              && (res.winner.RemoteWins? <==> StringOrder.Less(local.value.lastModifiedBy, op.nodeId))
  {
    if local.None? || local.value.deleted then
      if op.kind.Delete? then Resolution(DiscardRemote, LocalWins, NonExistent, NoTiebreak)
      else Resolution(AcceptAction(op), RemoteWins, NonExistent, NoTiebreak)
    else
      var rec := local.value;
      var comparison := Compare(Make(rec.vectorClock), Make(op.vectorClock));
      match comparison
      case After => Resolution(DiscardRemote, LocalWins, Compared(comparison), NoTiebreak)
      case Before => Resolution(AcceptAction(op), RemoteWins, Compared(comparison), NoTiebreak)
      case Equal => Resolution(DiscardRemote, LocalWins, Compared(comparison), NoTiebreak)
      case Concurrent =>
        if op.timestamp > rec.lastModified + tolerance then
          Resolution(AcceptAction(op), RemoteWins, Compared(comparison), RemoteNewer)
        else if rec.lastModified > op.timestamp + tolerance then
          Resolution(DiscardRemote, LocalWins, Compared(comparison), LocalNewer)
        else if StringOrder.Less(rec.lastModifiedBy, op.nodeId) then
          Resolution(AcceptAction(op), RemoteWins, Compared(comparison), ByNodeId)
        else
          Resolution(DiscardRemote, LocalWins, Compared(comparison), ByNodeId)
  }

  /** True when the store is told to apply the operation. */
  predicate Accepts(tolerance: real, local: Option<Record>, op: Operation) {
    !Resolve(tolerance, local, op).action.DiscardRemote?
  }

  /** The part of a record or operation the resolver looks at. */
  datatype Version = Version(clock: RawClock, timestamp: real, author: NodeId)

  function VersionOf(r: Record): Version {
    Version(r.vectorClock, r.lastModified, r.lastModifiedBy)
  }

  function VersionOfOp(op: Operation): Version {
    Version(op.vectorClock, op.timestamp, op.nodeId)
  }

  /** The challenger replaces the live version that is held. */
  predicate Beats(tolerance: real, challenger: Version, held: Version) {
    match Order(held.clock, challenger.clock)
    case Before => true
    case After => false
    case Equal => false
    case Concurrent =>
      || challenger.timestamp > held.timestamp + tolerance
      || (held.timestamp <= challenger.timestamp + tolerance && StringOrder.Less(held.author, challenger.author))
  }

  function Gap(a: Version, b: Version): real {
    if a.timestamp >= b.timestamp then a.timestamp - b.timestamp else b.timestamp - a.timestamp
  }

  /** When two replicas that hold one of two concurrent versions each receive the other,
      they agree on the winner. With a tolerance that is not negative this needs a gap
      above it or two different authors; a negative tolerance (nothing in the
      configuration rules it out) fails inside its own window. */
  predicate Decidable(tolerance: real, a: Version, b: Version) {
    if tolerance >= 0.0 then Gap(a, b) > tolerance || a.author != b.author
    else Gap(a, b) >= -tolerance
  }

  lemma SymmetricWinner(tolerance: real, a: Version, b: Version)
    requires Order(a.clock, b.clock).Concurrent?
    ensures (Beats(tolerance, b, a) <==> !Beats(tolerance, a, b)) <==> Decidable(tolerance, a, b)
  {
    OrderFlips(a.clock, b.clock);
    if a.author == b.author {
      StringOrder.Irreflexive(a.author);
    } else {
      StringOrder.Connected(a.author, b.author);
      if StringOrder.Less(a.author, b.author) {
        StringOrder.Asymmetric(a.author, b.author);
      } else {
        StringOrder.Asymmetric(b.author, a.author);
      }
    }
  }

  /** A conflict is counted exactly for two live versions of which neither knows the other. */
  lemma ConflictExactly(tolerance: real, local: Option<Record>, op: Operation)
    ensures Resolve(tolerance, local, op).basis == Compared(Concurrent) <==>
            IsLive(local) && !Leq(local.value.vectorClock, op.vectorClock) && !Leq(op.vectorClock, local.value.vectorClock)
  {
    if IsLive(local) {
      OrderDecides(local.value.vectorClock, op.vectorClock);
    }
  }

  /** Between concurrent versions inside the window, the first difference of the two node
      identifiers decides, whatever follows it, and the greater character wins. */
  lemma FirstDifferenceWins(tolerance: real, local: Record, op: Operation, p: string, c: char, d: char, x: string, y: string)
    requires !local.deleted && Order(local.vectorClock, op.vectorClock).Concurrent?
    requires op.timestamp <= local.lastModified + tolerance && local.lastModified <= op.timestamp + tolerance
    requires local.lastModifiedBy == p + [c] + x && op.nodeId == p + [d] + y && c != d
    ensures Resolve(tolerance, Some(local), op).winner.RemoteWins? <==> c < d
  {
    if c < d {
      StringOrder.FirstDifferenceDecides(p, c, d, x, y);
    } else {
      StringOrder.FirstDifferenceDecides(p, d, c, y, x);
    }
  }

  /** For instance "edge-9" wins against "edge-10", the longer name. */
  lemma NineBeatsTen(tolerance: real, local: Record, op: Operation)
    requires !local.deleted && Order(local.vectorClock, op.vectorClock).Concurrent?
    requires op.timestamp <= local.lastModified + tolerance && local.lastModified <= op.timestamp + tolerance
    requires local.lastModifiedBy == "edge-10" && op.nodeId == "edge-9"
    ensures Resolve(tolerance, Some(local), op).winner.RemoteWins?
  {
    assert local.lastModifiedBy == "edge-" + ['1'] + "0" && op.nodeId == "edge-" + ['9'] + "";
    FirstDifferenceWins(tolerance, local, op, "edge-", '1', '9', "0", "");
  }

  /** Whatever the tolerance, between versions of different authors with different clocks
      at least one side gives way. */
  lemma OneSideYields(tolerance: real, a: Version, b: Version)
    requires a.author != b.author && !Order(a.clock, b.clock).Equal?
    ensures Beats(tolerance, a, b) || Beats(tolerance, b, a)
  {
    OrderFlips(a.clock, b.clock);
    StringOrder.Connected(a.author, b.author);
  }

  /** Causally ordered versions have one winner in both directions, timestamps aside. */
  lemma CausalWinner(tolerance: real, older: Version, newer: Version)
    requires Order(older.clock, newer.clock).Before?
    ensures Beats(tolerance, newer, older) && !Beats(tolerance, older, newer)
  {
    OrderFlips(older.clock, newer.clock);
  }
}
