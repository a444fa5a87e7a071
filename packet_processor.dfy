/**
 * `PacketProcessor`: validation, the last-seen update and the dispatch of a
 * received packet by type, with a reassembled packet processed again from
 * the top. The delegate's answers for one processing round, including the
 * answers for the reassembled packet's own round, are an input.
 */
module Processor {
  import opened Options
  import opened ByteSeq
  import opened Packets
  import opened MessageTypes

  /** The delegate calls, in the order they are made. */
  datatype Call =
    | UpdatePeerLastSeen(peerId: Bytes)
    | HandleKeyExchange(packet: Packet, peerId: Bytes)
    | HandleAnnounce(packet: Packet, peerId: Bytes)
    | HandleMessage(packet: Packet, peerId: Bytes)
    | HandleLeave(packet: Packet, peerId: Bytes)
    | HandleFragment(packet: Packet)
    | HandleDeliveryAck(packet: Packet, peerId: Bytes)
    | HandleReadReceipt(packet: Packet, peerId: Bytes)
    /** `sendAnnouncementToPeer`, `delay` milliseconds after the previous call. */
    | SendAnnouncementToPeer(delay: int, peerId: Bytes)
    /** `sendCachedMessages`, `delay` milliseconds after the previous call. */
    | SendCachedMessages(delay: int, peerId: Bytes)
    | RelayPacket(packet: Packet)

  /**
   * The delegate's answers in one round: `validatePacketSecurity`,
   * `handleKeyExchange` and `handleFragment`. A complete reassembly carries
   * the answers for the round that processes the reassembled packet.
   */
  datatype Answers = Answers(valid: bool, keyExchangeOk: bool, reassembly: Reassembly)
  datatype Reassembly = Incomplete | Reassembled(packet: Packet, answers: Answers)

  const AnnounceDelay: int := 100
  const FlushDelay: int := 500

  /** `handleReceivedPacket`. */
  function Process(packet: Packet, peerId: Bytes, a: Answers): (r: seq<Call>)
    ensures !a.valid ==> r == []
    ensures a.valid ==> |r| >= 1 && r[0] == UpdatePeerLastSeen(peerId)
    decreases a, 2
  {
    if !a.valid then []
    else [UpdatePeerLastSeen(peerId)] + Dispatch(FromValue(packet.ptype), packet, peerId, a)
  }

  predicate IsFragmentType(t: Option<MessageType>) {
    t.Some? && t.value.IsFragment()
  }

  /** The `when` over the packet type `t`: fragments, which may recurse, and the rest. */
  function Dispatch(t: Option<MessageType>, packet: Packet, peerId: Bytes, a: Answers): (r: seq<Call>)
    ensures !IsFragmentType(t) ==> NoLastSeen(r)
    decreases a, 1
  {
    if IsFragmentType(t) then FragmentCalls(packet, peerId, a)
    else DirectCalls(t, packet, peerId, a.keyExchangeOk)
  }

  /** The branches of the `when` that do not involve fragments; types it does not name are dropped. */
  function DirectCalls(t: Option<MessageType>, packet: Packet, peerId: Bytes, keyExchangeOk: bool): (r: seq<Call>)
    requires !IsFragmentType(t)
    ensures NoLastSeen(r) && AllFor(r, peerId)
  {
    match t
    case Some(KeyExchange) => KeyExchangeCalls(packet, peerId, keyExchangeOk)
    case Some(Announce) => [HandleAnnounce(packet, peerId)]
    case Some(Message) => [HandleMessage(packet, peerId)]
    case Some(Leave) => [HandleLeave(packet, peerId)]
    case Some(DeliveryAck) => [HandleDeliveryAck(packet, peerId)]
    case Some(ReadReceipt) => [HandleReadReceipt(packet, peerId)]
    case _ => []
  }

  /**
   * `handleKeyExchange`: after a successful exchange, the announce to the
   * peer 100 ms later and then the flush of its cached messages 500 ms after
   * that; neither after a failure.
   */
  function KeyExchangeCalls(packet: Packet, peerId: Bytes, success: bool): (r: seq<Call>)
    ensures success ==> r == [HandleKeyExchange(packet, peerId),
                              SendAnnouncementToPeer(AnnounceDelay, peerId), SendCachedMessages(FlushDelay, peerId)]
    ensures !success ==> r == [HandleKeyExchange(packet, peerId)]
  {
    [HandleKeyExchange(packet, peerId)]
      + (if success then [SendAnnouncementToPeer(AnnounceDelay, peerId), SendCachedMessages(FlushDelay, peerId)] else [])
  }

  /** `handleFragment`: hand the fragment over, process a completed packet, then relay the fragment itself. */
  function FragmentCalls(packet: Packet, peerId: Bytes, a: Answers): (r: seq<Call>)
    ensures r == [HandleFragment(packet)]
      + (if a.reassembly.Reassembled? then Process(a.reassembly.packet, peerId, a.reassembly.answers) else [])
      + (if packet.ttl > 0 then [RelayPacket(packet.(ttl := packet.ttl - 1))] else [])
    decreases a, 0
  {
    var nested := if a.reassembly.Reassembled? then Process(a.reassembly.packet, peerId, a.reassembly.answers) else [];
    [HandleFragment(packet)] + nested + (if packet.ttl > 0 then [RelayPacket(Decremented(packet))] else [])
  }

  /** A packet that fails validation causes no call at all, the last-seen update included. */
  lemma InvalidIgnored(packet: Packet, peerId: Bytes, a: Answers)
    requires !a.valid
    ensures Process(packet, peerId, a) == []
  {
  }

  /** The types the dispatch does not handle, and unknown bytes, cause only the last-seen update. */
  lemma UnhandledDropped(packet: Packet, peerId: Bytes, a: Answers)
    requires a.valid
    requires FromValue(packet.ptype) in {None, Some(ChannelAnnounce), Some(ChannelRetention), Some(DeliveryStatusRequest)}
    ensures Process(packet, peerId, a) == [UpdatePeerLastSeen(peerId)]
  {
  }

  /** A valid key exchange is handled as `KeyExchangeCalls` says, right after the last-seen update. */
  lemma KeyExchangeOrder(packet: Packet, peerId: Bytes, a: Answers)
    requires a.valid && FromValue(packet.ptype) == Some(KeyExchange)
    ensures Process(packet, peerId, a) == [UpdatePeerLastSeen(peerId)] + KeyExchangeCalls(packet, peerId, a.keyExchangeOk)
  {
  }

  /**
   * A valid fragment is handled as `FragmentCalls` says: the reassembled
   * packet, if any, goes through the whole processing again (its own
   * validation first) under the same peer, and the fragment is relayed with
   * one hop less exactly when it has hops left.
   */
  lemma FragmentHandling(packet: Packet, peerId: Bytes, a: Answers)
    requires a.valid && IsFragmentType(FromValue(packet.ptype))
    ensures Process(packet, peerId, a) == [UpdatePeerLastSeen(peerId)] + FragmentCalls(packet, peerId, a)
  {
  }

  /** The peer a call concerns, if it names one. */
  function PeerOf(c: Call): Option<Bytes> {
    match c
    case UpdatePeerLastSeen(p) => Some(p)
    case HandleKeyExchange(_, p) => Some(p)
    case HandleAnnounce(_, p) => Some(p)
    case HandleMessage(_, p) => Some(p)
    case HandleLeave(_, p) => Some(p)
    case HandleDeliveryAck(_, p) => Some(p)
    case HandleReadReceipt(_, p) => Some(p)
    case SendAnnouncementToPeer(_, p) => Some(p)
    case SendCachedMessages(_, p) => Some(p)
    case HandleFragment(_) => None
    case RelayPacket(_) => None
  }

  predicate AllFor(calls: seq<Call>, peerId: Bytes) {
    forall i :: 0 <= i < |calls| && PeerOf(calls[i]).Some? ==> PeerOf(calls[i]) == Some(peerId)
  }

  lemma AllForJoin(a: seq<Call>, b: seq<Call>, peerId: Bytes)
    requires AllFor(a, peerId) && AllFor(b, peerId)
    ensures AllFor(a + b, peerId)
  {
    forall i | 0 <= i < |a + b| && PeerOf((a + b)[i]).Some?
      ensures PeerOf((a + b)[i]) == Some(peerId)
    {
      if i >= |a| {
        assert (a + b)[i] == b[i - |a|];
      }
    }
  }

  /** Every call made while processing a packet, through any depth of reassembly, concerns the peer it came from. */
  lemma {:induction false} SamePeerThroughout(packet: Packet, peerId: Bytes, a: Answers)
    ensures AllFor(Process(packet, peerId, a), peerId)
    decreases a
  {
    if a.valid {
      var t := FromValue(packet.ptype);
      var d := Dispatch(t, packet, peerId, a);
      if IsFragmentType(t) {
        var nested := if a.reassembly.Reassembled? then Process(a.reassembly.packet, peerId, a.reassembly.answers) else [];
        if a.reassembly.Reassembled? {
          SamePeerThroughout(a.reassembly.packet, peerId, a.reassembly.answers);
        }
        var relay := if packet.ttl > 0 then [RelayPacket(Decremented(packet))] else [];
        AllForJoin([HandleFragment(packet)], nested, peerId);
        AllForJoin([HandleFragment(packet)] + nested, relay, peerId);
        assert d == FragmentCalls(packet, peerId, a);
      }
      AllForJoin([UpdatePeerLastSeen(peerId)], d, peerId);
    }
  }

  /** The number of validated rounds along the chain of reassemblies. */
  function Depth(packet: Packet, a: Answers): nat
    decreases a
  {
    if !a.valid then 0
    else if IsFragmentType(FromValue(packet.ptype)) && a.reassembly.Reassembled? then
      1 + Depth(a.reassembly.packet, a.reassembly.answers)
    else 1
  }

  function LastSeenCount(calls: seq<Call>): nat {
    if |calls| == 0 then 0
    else LastSeenCount(calls[..|calls| - 1]) + (if calls[|calls| - 1].UpdatePeerLastSeen? then 1 else 0)
  }

  lemma {:induction false} LastSeenCountJoin(a: seq<Call>, b: seq<Call>)
    ensures LastSeenCount(a + b) == LastSeenCount(a) + LastSeenCount(b)
    decreases |b|
  {
    if |b| == 0 {
      assert a + b == a;
    } else {
      LastSeenCountJoin(a, b[..|b| - 1]);
      assert (a + b)[..|a + b| - 1] == a + b[..|b| - 1];
    }
  }

  predicate NoLastSeen(calls: seq<Call>) {
    forall i :: 0 <= i < |calls| ==> !calls[i].UpdatePeerLastSeen?
  }

  lemma {:induction false} NoLastSeenCount(calls: seq<Call>)
    requires NoLastSeen(calls)
    ensures LastSeenCount(calls) == 0
  {
    if |calls| > 0 {
      NoLastSeenCount(calls[..|calls| - 1]);
    }
  }

  /** The last-seen time is refreshed once per validated round, and only then. */
  lemma {:induction false} LastSeenOncePerRound(packet: Packet, peerId: Bytes, a: Answers)
    ensures LastSeenCount(Process(packet, peerId, a)) == Depth(packet, a)
    decreases a
  {
    if a.valid {
      var t := FromValue(packet.ptype);
      var d := Dispatch(t, packet, peerId, a);
      var head := [UpdatePeerLastSeen(peerId)];
      assert LastSeenCount(head) == 1 by { assert head[..0] == []; }
      LastSeenCountJoin(head, d);
      if IsFragmentType(t) {
        var nested := if a.reassembly.Reassembled? then Process(a.reassembly.packet, peerId, a.reassembly.answers) else [];
        if a.reassembly.Reassembled? {
          LastSeenOncePerRound(a.reassembly.packet, peerId, a.reassembly.answers);
        }
        var relay := if packet.ttl > 0 then [RelayPacket(Decremented(packet))] else [];
        var frag := [HandleFragment(packet)];
        NoLastSeenCount(frag);
        NoLastSeenCount(relay);
        LastSeenCountJoin(frag, nested);
        LastSeenCountJoin(frag + nested, relay);
        assert d == FragmentCalls(packet, peerId, a);
      } else {
        NoLastSeenCount(d);
      }
    }
  }
}
