/** The wire envelope `BitchatPacket` and the broadcast recipient sentinel. */
module Packets {
  import opened Options
  import opened ByteSeq

  type u64 = x: int | 0 <= x < 0x1_0000_0000_0000_0000

  /**
   * A packet. Datatype equality is field-by-field content equality, which is
   * what the hand-written `equals` (contentEquals on every array) computes.
   */
  datatype Packet = Packet(
    version: byte,
    ptype: byte,
    senderId: Bytes,
    recipientId: Option<Bytes>,
    timestamp: u64,
    payload: Bytes,
    signature: Option<Bytes>,
    ttl: byte)

  /** `SpecialRecipients.BROADCAST`: eight 0xFF bytes. */
  const Broadcast: Bytes := [0xFF, 0xFF, 0xFF, 0xFF, 0xFF, 0xFF, 0xFF, 0xFF]

  /** `packet.copy(ttl = (ttl - 1u).toUByte())`: the copy a relay sends (UByte arithmetic wraps). */
  function Decremented(p: Packet): (r: Packet)
    ensures r == p.(ttl := r.ttl)
    ensures p.ttl > 0 ==> r.ttl == p.ttl - 1
  {
    p.(ttl := (p.ttl - 1) % 256)
  }
}
