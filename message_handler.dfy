/**
 * `MessageHandler`: what each incoming packet kind makes the node do, as the
 * ordered list of delegate calls with side effects. The delegate's answers
 * (peer table, network size, cryptography, JSON decoding) and the random
 * draws and the clock are inputs.
 */
module Handler {
  import opened Options
  import opened ByteSeq
  import opened Packets
  import opened MessageTypes
  import opened PayloadCodec
  import opened Padding

  /** The domain `DeliveryAck`, with the instant as epoch milliseconds. */
  datatype Acknowledgement = Acknowledgement(originalMessageId: Bytes, ackId: Bytes, recipientId: Bytes,
                                     recipientNickname: Bytes, timestamp: int, hopCount: byte)

  /** The domain `ReadReceipt`, with the instant as epoch milliseconds. */
  datatype Receipt = Receipt(originalMessageId: Bytes, receiptId: Bytes, readerId: Bytes,
                                     readerNickname: Bytes, timestamp: int)

  /** The delegate calls that change something, in the order they are made. */
  datatype Action =
    | AddOrUpdatePeer(peerId: Bytes, nickname: Bytes)
    | RemovePeer(peerId: Bytes)
    | UpdatePeerNickname(peerId: Bytes, nickname: Bytes)
    | SendPacket(packet: Packet)
    /** `relayPacket`, after a pause of `delay` milliseconds. */
    | RelayPacket(delay: int, packet: Packet)
    | MessageReceived(message: Message)
    | ChannelLeave(channel: Bytes, fromPeer: Bytes)
    | PeerDisconnected(nickname: Bytes)
    | DeliveryAckReceived(ack: Acknowledgement)
    | ReadReceiptReceived(receipt: Receipt)

  /** The delegate's answers to its queries, and the JSON codecs of acks and receipts. */
  datatype Delegate = Delegate(
    /** the value `addOrUpdatePeer` returns: whether this is the first announce */
    isFirstAnnounce: (Bytes, Bytes) -> bool,
    peerNickname: Bytes -> Option<Bytes>,
    networkSize: int,
    myNickname: Option<Bytes>,
    verifySignature: (Packet, Bytes) -> bool,
    encryptForPeer: (Bytes, Bytes) -> Option<Bytes>,
    decryptFromPeer: (Bytes, Bytes) -> Option<Bytes>,
    decryptChannelMessage: (Bytes, Bytes) -> Option<Bytes>,
    encodeAck: Acknowledgement -> Bytes,
    decodeAck: Bytes -> Option<Acknowledgement>,
    decodeReceipt: Bytes -> Option<Receipt>)

  /**
   * The random draws and the clock one handler call uses: the announce relay
   * pause (`nextLong(100, 300)`), the relay pause (`nextLong(50, 500)`), the
   * relay draw (`nextDouble()`), the new ack's UUID and the current time.
   */
  datatype Chance = Chance(announceDelay: int, relayDelay: int, relayDraw: real, ackId: Bytes, now: u64)

  /** The cover-traffic marker "☂DUMMY☂" in UTF-8. */
  const DummyMarker: Bytes := [0xE2, 0x98, 0x82] + Ascii("DUMMY") + [0xE2, 0x98, 0x82]
  const EncryptedPlaceholder: Bytes := Ascii("[Encrypted message - password required]")
  const ChannelPrefix: Bytes := Ascii("#")
  const AckTtl: byte := 3

  /** No action relays a packet. */
  predicate NoRelay(actions: seq<Action>) {
    forall i :: 0 <= i < |actions| ==> !actions[i].RelayPacket?
  }

  /** Every relayed packet is `packet` with one hop less, and `packet` had hops left. */
  predicate RelaysDecrement(actions: seq<Action>, packet: Packet) {
    forall i :: 0 <= i < |actions| && actions[i].RelayPacket? ==>
      packet.ttl > 0 && actions[i].packet == packet.(ttl := packet.ttl - 1)
  }

  // ---------------------------------------------------------------- relaying

  /** The probability of relaying in a network of `networkSize` peers. */
  function RelayProbability(networkSize: int): (p: real)
    ensures 0.4 <= p <= 1.0
    ensures networkSize <= 10 ==> p == 1.0
  {
    if networkSize <= 10 then 1.0
    else if networkSize <= 30 then 0.85
    else if networkSize <= 50 then 0.7
    else if networkSize <= 100 then 0.55
    else 0.4
  }

  /** Larger networks relay no more often than smaller ones. */
  lemma RelayProbabilityMonotone(smaller: int, larger: int)
    requires smaller <= larger
    ensures RelayProbability(larger) <= RelayProbability(smaller)
  {
  }

  /** Whether `relayMessage` relays: never without hops, always at four hops left or in a network of three. */
  predicate ShouldRelay(packet: Packet, networkSize: int, draw: real) {
    && packet.ttl != 0
    && (packet.ttl - 1 >= 4 || networkSize <= 3 || draw < RelayProbability(networkSize))
  }

  /** `relayMessage`. */
  function RelayMessage(packet: Packet, d: Delegate, c: Chance): (r: seq<Action>)
    ensures |r| <= 1
    ensures r != [] <==> ShouldRelay(packet, d.networkSize, c.relayDraw)
    ensures r != [] ==> r[0] == RelayPacket(c.relayDelay, packet.(ttl := packet.ttl - 1))
    ensures RelaysDecrement(r, packet)
  {
    if packet.ttl == 0 then []
    else
      var relayPacket := Decremented(packet);
      var shouldRelay := relayPacket.ttl >= 4 || d.networkSize <= 3 || c.relayDraw < RelayProbability(d.networkSize);
      if shouldRelay then [RelayPacket(c.relayDelay, relayPacket)] else []
  }

  /** With a draw in [0, 1), any packet with hops left is relayed in a network of at most ten. */
  lemma SmallNetworksAlwaysRelay(packet: Packet, d: Delegate, c: Chance)
    requires packet.ttl > 0 && d.networkSize <= 10 && 0.0 <= c.relayDraw < 1.0
    ensures |RelayMessage(packet, d, c)| == 1
  {
  }

  /** A hop count of five or more is relayed whatever the draw and the network size. */
  lemma ManyHopsAlwaysRelay(packet: Packet, d: Delegate, c: Chance)
    requires packet.ttl >= 5
    ensures |RelayMessage(packet, d, c)| == 1
  {
  }

  /** The relay of an announce or leave notice: unconditional while more than one hop is left. */
  function RelayNotice(packet: Packet, delay: int): (r: seq<Action>)
    ensures r == if packet.ttl > 1 then [RelayPacket(delay, packet.(ttl := packet.ttl - 1))] else []
    ensures RelaysDecrement(r, packet)
  {
    if packet.ttl > 1 then [RelayPacket(delay, Decremented(packet))] else []
  }

  // ---------------------------------------------------------------- announce and leave

  /** `handleAnnounce`: the first-announce answer and the calls made. */
  function HandleAnnounce(packet: Packet, peerId: Bytes, myPeerId: Bytes, d: Delegate, c: Chance): (r: (bool, seq<Action>))
    ensures peerId == myPeerId ==> r == (false, [])
    ensures peerId != myPeerId ==>
      && r.0 == d.isFirstAnnounce(peerId, packet.payload)
      && |r.1| >= 1 && r.1[0] == AddOrUpdatePeer(peerId, packet.payload)
      && r.1[1..] == RelayNotice(packet, c.announceDelay)
    ensures RelaysDecrement(r.1, packet)
  {
    if peerId == myPeerId then (false, [])
    else
      var nickname := packet.payload;
      var isFirstAnnounce := d.isFirstAnnounce(peerId, nickname);
      (isFirstAnnounce, [AddOrUpdatePeer(peerId, nickname)] + RelayNotice(packet, c.announceDelay))
  }

  /** `handleLeave`: a "#" payload leaves a channel, anything else removes the peer. */
  function HandleLeave(packet: Packet, peerId: Bytes, d: Delegate): (r: seq<Action>)
    ensures StartsWith(packet.payload, ChannelPrefix) ==>
      r == [ChannelLeave(packet.payload, peerId)] + RelayNotice(packet, 0)
    ensures !StartsWith(packet.payload, ChannelPrefix) ==>
      r == [RemovePeer(peerId)]
           + (if d.peerNickname(peerId).Some? then [PeerDisconnected(d.peerNickname(peerId).value)] else [])
           + RelayNotice(packet, 0)
    ensures RelaysDecrement(r, packet)
  {
    var content := packet.payload;
    var local :=
      if StartsWith(content, ChannelPrefix) then [ChannelLeave(content, peerId)]
      else
        var nickname := d.peerNickname(peerId);
        [RemovePeer(peerId)] + (if nickname.Some? then [PeerDisconnected(nickname.value)] else []);
    JoinedRelaysDecrement(local, RelayNotice(packet, 0), packet);
    local + RelayNotice(packet, 0)
  }

  /** Joining local calls to a relay keeps every relay a decremented copy. */
  lemma JoinedRelaysDecrement(local: seq<Action>, relays: seq<Action>, packet: Packet)
    requires NoRelay(local) && RelaysDecrement(relays, packet)
    ensures RelaysDecrement(local + relays, packet)
  {
    forall i | 0 <= i < |local + relays| && (local + relays)[i].RelayPacket?
      ensures packet.ttl > 0 && (local + relays)[i].packet == packet.(ttl := packet.ttl - 1)
    {
      assert i >= |local| ==> (local + relays)[i] == relays[i - |local|];
    }
  }

  // ---------------------------------------------------------------- messages

  /** The content shown for a channel message: decrypted when it can be, a placeholder when it cannot. */
  function FinalContent(m: Message, d: Delegate): (r: Bytes)
    ensures !(m.channel.Some? && m.isEncrypted && m.encryptedContent.Some?) ==> r == m.content
    ensures m.channel.Some? && m.isEncrypted && m.encryptedContent.Some? ==>
      r == d.decryptChannelMessage(m.encryptedContent.value, m.channel.value).GetOr(EncryptedPlaceholder)
  {
    if m.channel.Some? && m.isEncrypted && m.encryptedContent.Some? then
      match d.decryptChannelMessage(m.encryptedContent.value, m.channel.value)
      case Some(text) => text
      case None => EncryptedPlaceholder
    else m.content
  }

  /** `handleBroadcastMessage`. */
  function HandleBroadcastMessage(packet: Packet, peerId: Bytes, d: Delegate, c: Chance): (r: seq<Action>)
    ensures RelaysDecrement(r, packet)
  {
    match DecodePayload(packet.payload)
    case None => []
    case Some(message) =>
      if StartsWith(message.content, DummyMarker) then []
      else
        var finalMessage := message.(content := FinalContent(message, d), senderPeerId := peerId);
        var local := [UpdatePeerNickname(peerId, message.sender), MessageReceived(finalMessage)];
        JoinedRelaysDecrement(local, RelayMessage(packet, d, c), packet);
        local + RelayMessage(packet, d, c)
  }

  /** Cover traffic is neither delivered nor relayed, and an undecodable payload does nothing. */
  lemma BroadcastDropped(packet: Packet, peerId: Bytes, d: Delegate, c: Chance)
    requires DecodePayload(packet.payload).None? || StartsWith(DecodePayload(packet.payload).value.content, DummyMarker)
    ensures HandleBroadcastMessage(packet, peerId, d, c) == []
  {
  }

  /** Any other broadcast is delivered with its sender set and the channel content resolved, then may be relayed. */
  lemma BroadcastDelivered(packet: Packet, peerId: Bytes, d: Delegate, c: Chance)
    requires DecodePayload(packet.payload).Some?
    requires !StartsWith(DecodePayload(packet.payload).value.content, DummyMarker)
    ensures var m := DecodePayload(packet.payload).value;
      HandleBroadcastMessage(packet, peerId, d, c) ==
        [UpdatePeerNickname(peerId, m.sender), MessageReceived(m.(content := FinalContent(m, d), senderPeerId := peerId))]
        + RelayMessage(packet, d, c)
  {
  }

  /** `sendDeliveryAck`: one `DELIVERY_ACK` back to the sender, when encryption for it succeeds. */
  function DeliveryAckFor(message: Message, senderPeerId: Bytes, myPeerId: Bytes, d: Delegate, c: Chance): (r: seq<Action>)
    ensures |r| <= 1
    ensures r != [] <==> d.encryptForPeer(d.encodeAck(AckOf(message, myPeerId, d, c)), senderPeerId).Some?
    ensures r != [] ==>
      && r[0].SendPacket? && r[0].packet.ttl == AckTtl
      && r[0].packet.ptype == MessageType.DeliveryAck.Value()
      && r[0].packet.senderId == myPeerId && r[0].packet.recipientId == Some(senderPeerId)
      && r[0].packet.signature.None?
  {
    var ackPayload := d.encodeAck(AckOf(message, myPeerId, d, c));
    match d.encryptForPeer(ackPayload, senderPeerId)
    case None => []
    case Some(encryptedPayload) =>
      [SendPacket(Packet(1, MessageType.DeliveryAck.Value(), myPeerId, Some(senderPeerId), c.now, encryptedPayload, None, AckTtl))]
  }

  /** The acknowledgement sent for a delivered private message: its id, this node and its nickname (or id), hop count 0. */
  function AckOf(message: Message, myPeerId: Bytes, d: Delegate, c: Chance): Acknowledgement {
    Acknowledgement(message.id, c.ackId, myPeerId, d.myNickname.GetOr(myPeerId), c.now, 0)
  }

  /** The private message a payload carries once decrypted and unpadded, unless any check fails or it is cover traffic. */
  function PrivateMessageOf(packet: Packet, peerId: Bytes, d: Delegate): Option<Message> {
    if packet.signature.Some? && !d.verifySignature(packet, peerId) then None
    else
      match d.decryptFromPeer(packet.payload, peerId)
      case None => None
      case Some(decryptedData) =>
        match DecodePayload(Unpad(decryptedData))
        case None => None
        case Some(message) => if StartsWith(message.content, DummyMarker) then None else Some(message)
  }

  /** `handlePrivateMessage`. */
  function HandlePrivateMessage(packet: Packet, peerId: Bytes, myPeerId: Bytes, d: Delegate, c: Chance): (r: seq<Action>)
    ensures NoRelay(r)
  {
    match PrivateMessageOf(packet, peerId, d)
    case None => []
    case Some(message) =>
      var finalMessage := message.(senderPeerId := peerId);
      [UpdatePeerNickname(peerId, message.sender), MessageReceived(finalMessage)]
        + DeliveryAckFor(finalMessage, peerId, myPeerId, d, c)
  }

  /**
   * A private message is delivered exactly when a present signature verifies,
   * decryption succeeds, the unpadded payload decodes and it is not cover
   * traffic; at most one acknowledgement follows, and nothing is relayed.
   */
  lemma PrivateMessageOutcome(packet: Packet, peerId: Bytes, myPeerId: Bytes, d: Delegate, c: Chance)
    ensures var r := HandlePrivateMessage(packet, peerId, myPeerId, d, c);
      && NoRelay(r)
      && (r != [] <==>
            && !(packet.signature.Some? && !d.verifySignature(packet, peerId))
            && d.decryptFromPeer(packet.payload, peerId).Some?
            && DecodePayload(Unpad(d.decryptFromPeer(packet.payload, peerId).value)).Some?
            && !StartsWith(DecodePayload(Unpad(d.decryptFromPeer(packet.payload, peerId).value)).value.content, DummyMarker))
      && (r != [] ==> 2 <= |r| <= 3 && r[1].MessageReceived? && r[1].message.senderPeerId == peerId)
      && (forall i :: 0 <= i < |r| && r[i].SendPacket? ==>
            i == 2 && r[i].packet.ttl == AckTtl && r[i].packet.recipientId == Some(peerId))
  {
  }

  /** `handleMessage`: broadcasts, private messages for this node, and relays of the rest. */
  function HandleMessage(packet: Packet, peerId: Bytes, myPeerId: Bytes, d: Delegate, c: Chance): (r: seq<Action>)
    ensures RelaysDecrement(r, packet)
  {
    if peerId == myPeerId then []
    else if packet.recipientId.None? || packet.recipientId == Some(Broadcast) then
      HandleBroadcastMessage(packet, peerId, d, c)
    else if TrimNul(packet.recipientId.value) == myPeerId then
      HandlePrivateMessage(packet, peerId, myPeerId, d, c)
    else if packet.ttl > 0 then
      RelayMessage(packet, d, c)
    else []
  }

  /** The routing of `handleMessage`. */
  lemma MessageRouting(packet: Packet, peerId: Bytes, myPeerId: Bytes, d: Delegate, c: Chance)
    ensures var r := HandleMessage(packet, peerId, myPeerId, d, c);
      && (peerId == myPeerId ==> r == [])
      && (peerId != myPeerId && (packet.recipientId.None? || packet.recipientId == Some(Broadcast)) ==>
            r == HandleBroadcastMessage(packet, peerId, d, c))
      && (peerId != myPeerId && packet.recipientId.Some? && packet.recipientId != Some(Broadcast)
            && TrimNul(packet.recipientId.value) == myPeerId ==>
            r == HandlePrivateMessage(packet, peerId, myPeerId, d, c) && NoRelay(r))
      && (peerId != myPeerId && packet.recipientId.Some? && packet.recipientId != Some(Broadcast)
            && TrimNul(packet.recipientId.value) != myPeerId ==>
            r == RelayMessage(packet, d, c))
  {
  }

  // ---------------------------------------------------------------- acks and receipts

  /** The recipient of a packet as a peer id. */
  function RecipientOf(packet: Packet): Option<Bytes> {
    match packet.recipientId
    case None => None
    case Some(r) => Some(TrimNul(r))
  }

  /** `handleDeliveryAck`. */
  function HandleDeliveryAck(packet: Packet, peerId: Bytes, myPeerId: Bytes, d: Delegate, c: Chance): (r: seq<Action>)
    ensures RecipientOf(packet) == Some(myPeerId) ==>
      && NoRelay(r)
      && r == match d.decryptFromPeer(packet.payload, peerId)
              case None => []
              case Some(data) => if d.decodeAck(data).Some? then [DeliveryAckReceived(d.decodeAck(data).value)] else []
    ensures RecipientOf(packet) != Some(myPeerId) ==> r == RelayMessage(packet, d, c)
  {
    if RecipientOf(packet) == Some(myPeerId) then
      match d.decryptFromPeer(packet.payload, peerId)
      case None => []
      case Some(decryptedData) =>
        match d.decodeAck(decryptedData)
        case None => []
        case Some(ack) => [DeliveryAckReceived(ack)]
    else if packet.ttl > 0 then RelayMessage(packet, d, c)
    else []
  }

  /** `handleReadReceipt`. */
  function HandleReadReceipt(packet: Packet, peerId: Bytes, myPeerId: Bytes, d: Delegate, c: Chance): (r: seq<Action>)
    ensures RecipientOf(packet) == Some(myPeerId) ==>
      && NoRelay(r)
      && r == match d.decryptFromPeer(packet.payload, peerId)
              case None => []
              case Some(data) => if d.decodeReceipt(data).Some? then [ReadReceiptReceived(d.decodeReceipt(data).value)] else []
    ensures RecipientOf(packet) != Some(myPeerId) ==> r == RelayMessage(packet, d, c)
  {
    if RecipientOf(packet) == Some(myPeerId) then
      match d.decryptFromPeer(packet.payload, peerId)
      case None => []
      case Some(decryptedData) =>
        match d.decodeReceipt(decryptedData)
        case None => []
        case Some(receipt) => [ReadReceiptReceived(receipt)]
    else if packet.ttl > 0 then RelayMessage(packet, d, c)
    else []
  }
}
