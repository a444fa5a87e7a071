/**
 * `SecurityManager`: admission of incoming packets (self, ttl, empty payload
 * and freshness checks), message ids and the processed-id bookkeeping, key
 * exchange handling, signature checks and the capped sweep of old ids.
 */
module Security {
  import opened Options
  import opened ByteSeq
  import opened Lists
  import opened Packets
  import opened MessageTypes
  import opened Encryption

  /** `messageTimeout`: five minutes, in milliseconds. */
  const MessageTimeout: int := 300000
  const MaxProcessedMessages: nat := 10000
  const MaxProcessedKeyExchanges: nat := 1000

  // ---------------------------------------------------------------- freshness

  /**
   * The freshness test as written: `abs(now - timestamp.toLong())` in 64-bit
   * `Long` arithmetic, where both the subtraction and `abs` wrap around.
   */
  function FreshAsWritten(now: Long, timestamp: u64): bool {
    var timeDiff := WrapLong(now - Signed64(timestamp));
    var magnitude := if timeDiff < 0 then WrapLong(-timeDiff) else timeDiff;
    !(magnitude > MessageTimeout)
  }

  /** The intended freshness test: the timestamp lies within five minutes of now. */
  predicate Fresh(now: int, timestamp: int) {
    -MessageTimeout <= now - timestamp <= MessageTimeout
  }

  /** For a non-negative clock and a timestamp below 2^63 nothing wraps and the two tests agree. */
  lemma FreshAgrees(now: Long, timestamp: u64)
    requires 0 <= now && timestamp < TwoTo63
    ensures FreshAsWritten(now, timestamp) <==> Fresh(now, timestamp)
  {
    var d := now - timestamp;
    assert Signed64(timestamp) == timestamp;
    if d >= 0 {
      DivModUnique(d, TwoTo64, 0, d);
    } else {
      DivModUnique(d, TwoTo64, -1, d + TwoTo64);
      DivModUnique(-d, TwoTo64, 0, -d);
    }
  }

  /**
   * A timestamp 2^63 milliseconds away from now makes the difference wrap to
   * `Long.MIN_VALUE`, whose `abs` is itself and negative, so the written test
   * accepts it.
   */
  lemma FreshAsWrittenAcceptsOpposite(now: Long)
    ensures var timestamp := (now + TwoTo63) % TwoTo64;
      FreshAsWritten(now, timestamp) && !Fresh(now, timestamp)
  {
    var u := now + TwoTo63;
    DivModUnique(u, TwoTo64, 0, u);
    var wrapped := -(TwoTo63 as int);
    DivModUnique(wrapped, TwoTo64, -1, TwoTo63);
    DivModUnique(TwoTo63, TwoTo64, 0, TwoTo63);
    if now >= 0 {
      assert Signed64(u) == now - TwoTo63;
    } else {
      assert Signed64(u) == u;
    }
  }

  // ---------------------------------------------------------------- ids

  /**
   * `generateMessageID`: fragments are told apart by type and the hash of the
   * whole payload, every other packet by the hash of its first 64 payload
   * bytes. The string the source formats is kept as its parts.
   */
  datatype MessageId =
    | FragmentMessageId(timestamp: u64, peerId: Bytes, ptype: byte, hash: int)
    | PlainMessageId(timestamp: u64, peerId: Bytes, hash: int)

  predicate IsFragmentType(ptype: byte) {
    var t := FromValue(ptype);
    t.Some? && t.value.IsFragment()
  }

  function GenerateMessageId(packet: Packet, peerId: Bytes): (r: MessageId)
    ensures r.timestamp == packet.timestamp && r.peerId == peerId
    ensures r.FragmentMessageId? <==> IsFragmentType(packet.ptype)
  {
    if IsFragmentType(packet.ptype) then
      FragmentMessageId(packet.timestamp, peerId, packet.ptype, ContentHash(packet.payload))
    else
      PlainMessageId(packet.timestamp, peerId, ContentHash(Take(packet.payload, 64)))
  }

  /** Two non-fragment packets that agree on sender, time and their first 64 payload bytes share an id. */
  lemma SameIdForSamePrefix(p: Packet, q: Packet, peerId: Bytes)
    requires !IsFragmentType(p.ptype) && !IsFragmentType(q.ptype)
    requires p.timestamp == q.timestamp && Take(p.payload, 64) == Take(q.payload, 64)
    ensures GenerateMessageId(p, peerId) == GenerateMessageId(q, peerId)
  {
  }

  /** Packets of different times or senders never share an id, nor do fragments of different types. */
  lemma IdsSeparate(p: Packet, q: Packet, peerP: Bytes, peerQ: Bytes)
    requires GenerateMessageId(p, peerP) == GenerateMessageId(q, peerQ)
    ensures p.timestamp == q.timestamp && peerP == peerQ
    ensures IsFragmentType(p.ptype) <==> IsFragmentType(q.ptype)
    ensures IsFragmentType(p.ptype) ==> p.ptype == q.ptype
  {
  }

  /** The key-exchange dedup entry `"$senderId-$hash"`, kept as its parts. */
  datatype ExchangeKey = ExchangeKey(senderId: Bytes, hash: int)

  /** The ids the sweep drops: recorded before `cutoff`. */
  function Expired(timestamps: map<MessageId, int>, cutoff: int): (r: set<MessageId>)
    ensures forall id :: id in r <==> id in timestamps && timestamps[id] < cutoff
  {
    set id | id in timestamps && timestamps[id] < cutoff
  }

  /** Removing the same ids from the processed set and the timestamps keeps them in step. */
  lemma RemovedStayValid(processed: seq<MessageId>, timestamps: map<MessageId, int>, gone: set<MessageId>)
    requires Distinct(processed)
    requires forall id :: id in timestamps <==> id in processed
    ensures Distinct(Without(processed, gone))
    ensures forall id :: id in timestamps - gone <==> id in Without(processed, gone)
  {
    WithoutDistinct(processed, gone);
    forall id
      ensures id in timestamps - gone <==> id in Without(processed, gone)
    {
      WithoutMembers(processed, gone, id);
    }
  }

  /** Dropping the oldest `k` ids from both structures keeps them in step. */
  lemma TrimmedStayValid(processed: seq<MessageId>, timestamps: map<MessageId, int>, k: nat)
    requires Distinct(processed) && k <= |processed|
    requires forall id :: id in timestamps <==> id in processed
    ensures Distinct(processed[k..])
    ensures forall id :: id in timestamps - (set x | x in processed[..k]) <==> id in processed[k..]
  {
    forall id | id in processed[k..]
      ensures id !in processed[..k]
    {
      DisjointParts(processed, k, id);
    }
    assert processed == processed[..k] + processed[k..];
  }

  // ---------------------------------------------------------------- manager

  class SecurityManager {
    const encryption: EncryptionService
    const myPeerId: Bytes

    /** The insertion-ordered `processedMessages` and `processedKeyExchanges` sets. */
    var processedMessages: seq<MessageId>
    var processedKeyExchanges: seq<ExchangeKey>
    var messageTimestamps: map<MessageId, int>
    /** The peers reported to `onKeyExchangeCompleted`, in order. */
    var completedKeyExchanges: seq<Bytes>

    /** The two sets hold no repetitions and the timestamps cover exactly the processed ids. */
    ghost predicate Valid()
      reads this
    {
      && Distinct(processedMessages)
      && Distinct(processedKeyExchanges)
      && (forall id :: id in messageTimestamps <==> id in processedMessages)
    }

    constructor (encryption: EncryptionService, myPeerId: Bytes)
      ensures Valid()
      ensures this.encryption == encryption && this.myPeerId == myPeerId
      ensures processedMessages == [] && processedKeyExchanges == []
      ensures messageTimestamps == map[] && completedKeyExchanges == []
    {
      this.encryption := encryption;
      this.myPeerId := myPeerId;
      processedMessages, processedKeyExchanges := [], [];
      messageTimestamps, completedKeyExchanges := map[], [];
    }

    /**
     * `validatePacket`: rejects its own packets, ttl 0, empty payloads and
     * stale timestamps (with the corrected freshness test); records the id of
     * a packet seen for the first time. A repeated id is accepted all the
     * same: the outcome of the dedup block is discarded.
     */
    method ValidatePacket(packet: Packet, now: int) returns (r: bool)
      requires Valid()
      modifies this
      ensures Valid()
      ensures r <==> && TrimNul(packet.senderId) != myPeerId && packet.ttl != 0
                     && |packet.payload| > 0 && Fresh(now, packet.timestamp)
      ensures var id := GenerateMessageId(packet, TrimNul(packet.senderId));
        if r && id !in old(processedMessages) then
          processedMessages == old(processedMessages) + [id]
          && messageTimestamps == old(messageTimestamps)[id := now]
        else
          processedMessages == old(processedMessages) && messageTimestamps == old(messageTimestamps)
      ensures processedKeyExchanges == old(processedKeyExchanges)
      ensures completedKeyExchanges == old(completedKeyExchanges)
    {
      var senderId := TrimNul(packet.senderId);
      if senderId == myPeerId {
        return false;
      }
      if packet.ttl == 0 {
        return false;
      }
      if |packet.payload| == 0 {
        return false;
      }
      if !Fresh(now, packet.timestamp) {
        return false;
      }
      var messageId := GenerateMessageId(packet, senderId);
      if messageId !in processedMessages {
        processedMessages := processedMessages + [messageId];
        messageTimestamps := messageTimestamps[messageId := now];
      }
      return true;
    }

    /**
     * `handleKeyExchange`: ignores its own exchanges and empty payloads,
     * records the exchange key (a repeat does not stop it: that outcome is
     * discarded too), then hands the payload to `addPeerPublicKey` and
     * reports the peer when that succeeds.
     */
    method HandleKeyExchange(packet: Packet) returns (r: bool)
      requires Valid()
      modifies this, encryption
      ensures Valid()
      ensures var senderId := TrimNul(packet.senderId);
        var key := ExchangeKey(senderId, ContentHash(Take(packet.payload, 16)));
        if senderId == myPeerId || |packet.payload| == 0 then
          && !r
          && processedKeyExchanges == old(processedKeyExchanges)
          && completedKeyExchanges == old(completedKeyExchanges)
          && unchanged(encryption)
        else
          && (r <==> |packet.payload| == 96 && encryption.privateKey.Some?
                     && encryption.crypto.agree(encryption.privateKey.value, packet.payload[..32]).Some?)
          && processedKeyExchanges
             == old(processedKeyExchanges) + (if key in old(processedKeyExchanges) then [] else [key])
          && completedKeyExchanges == old(completedKeyExchanges) + (if r then [senderId] else [])
          && (|packet.payload| == 96 ==>
                && encryption.peerPublicKeys == old(encryption.peerPublicKeys)[senderId := packet.payload[..32]]
                && encryption.peerSigningKeys == old(encryption.peerSigningKeys)[senderId := packet.payload[32..64]]
                && encryption.peerIdentityKeys == old(encryption.peerIdentityKeys)[senderId := packet.payload[64..]])
          && (|packet.payload| != 96 ==>
                && encryption.peerPublicKeys == old(encryption.peerPublicKeys)
                && encryption.peerSigningKeys == old(encryption.peerSigningKeys)
                && encryption.peerIdentityKeys == old(encryption.peerIdentityKeys))
          && (r ==> encryption.sharedSecrets == old(encryption.sharedSecrets)[senderId :=
                SessionKey(encryption.crypto, encryption.crypto.agree(encryption.privateKey.value, packet.payload[..32]).value)])
          && (!r ==> encryption.sharedSecrets == old(encryption.sharedSecrets))
      ensures encryption.privateKey == old(encryption.privateKey) && encryption.publicKey == old(encryption.publicKey)
      ensures encryption.signingPrivateKey == old(encryption.signingPrivateKey)
      ensures encryption.signingPublicKey == old(encryption.signingPublicKey)
      ensures encryption.identityKey == old(encryption.identityKey)
      ensures encryption.identityPublicKey == old(encryption.identityPublicKey)
      ensures unchanged(encryption.storage)
      ensures processedMessages == old(processedMessages) && messageTimestamps == old(messageTimestamps)
    {
      var senderId := TrimNul(packet.senderId);
      if senderId == myPeerId {
        return false;
      }
      if |packet.payload| == 0 {
        return false;
      }
      var exchangeKey := ExchangeKey(senderId, ContentHash(Take(packet.payload, 16)));
      if exchangeKey !in processedKeyExchanges {
        processedKeyExchanges := processedKeyExchanges + [exchangeKey];
      }
      r := encryption.AddPeerPublicKey(senderId, packet.payload);
      if r {
        completedKeyExchanges := completedKeyExchanges + [senderId];
      }
    }

    /**
     * `verifySignature`: an unsigned packet passes; a signed one passes when
     * the sender's signing key is known and Ed25519 accepts the signature
     * (a missing key makes `verify` throw, which counts as failure).
     */
    function VerifySignature(packet: Packet): (r: bool)
      reads this, encryption
      ensures packet.signature.None? ==> r
      ensures packet.signature.Some? ==>
        (r <==> var senderId := TrimNul(packet.senderId);
                senderId in encryption.peerSigningKeys
                && encryption.crypto.ed25519Verify(encryption.peerSigningKeys[senderId], packet.payload, packet.signature.value))
    {
      match packet.signature
      case None => true
      case Some(signature) =>
        match encryption.Verify(signature, packet.payload, TrimNul(packet.senderId))
        case Some(valid) => valid
        case None => false
    }

    /**
     * `cleanupOldData`: forgets the ids recorded more than five minutes before
     * `now`, then drops the oldest processed ids beyond 10000 and the oldest
     * exchange keys beyond 1000.
     */
    method CleanupOldData(now: int)
      requires Valid()
      modifies this
      ensures Valid()
      ensures processedMessages
              == Newest(Without(old(processedMessages), Expired(old(messageTimestamps), now - MessageTimeout)),
                        MaxProcessedMessages)
      ensures forall id :: id in messageTimestamps ==>
        id in old(messageTimestamps) && messageTimestamps[id] == old(messageTimestamps)[id]
      ensures forall id :: id in messageTimestamps ==> messageTimestamps[id] >= now - MessageTimeout
      ensures processedKeyExchanges == Newest(old(processedKeyExchanges), MaxProcessedKeyExchanges)
      ensures completedKeyExchanges == old(completedKeyExchanges)
    {
      var cutoffTime := now - MessageTimeout;
      RemoveExpired(cutoffTime);
      TrimProcessedMessages();
      TrimProcessedKeyExchanges();
    }

    /** The first step of the sweep: every id recorded before `cutoffTime` leaves both structures. */
    method RemoveExpired(cutoffTime: int)
      requires Valid()
      modifies this
      ensures Valid()
      ensures processedMessages == Without(old(processedMessages), Expired(old(messageTimestamps), cutoffTime))
      ensures messageTimestamps == old(messageTimestamps) - Expired(old(messageTimestamps), cutoffTime)
      ensures processedKeyExchanges == old(processedKeyExchanges)
      ensures completedKeyExchanges == old(completedKeyExchanges)
    {
      var messagesToRemove := Expired(messageTimestamps, cutoffTime);
      RemovedStayValid(processedMessages, messageTimestamps, messagesToRemove);
      ForgetMessages(messagesToRemove);
    }

    /** The `forEach` of the first step: each listed id leaves the timestamps and the processed set. */
    method ForgetMessages(messagesToRemove: set<MessageId>)
      modifies this
      ensures processedMessages == Without(old(processedMessages), messagesToRemove)
      ensures messageTimestamps == old(messageTimestamps) - messagesToRemove
      ensures processedKeyExchanges == old(processedKeyExchanges)
      ensures completedKeyExchanges == old(completedKeyExchanges)
    {
      var pending := messagesToRemove;
      ghost var removed: set<MessageId> := {};
      assert messageTimestamps == messageTimestamps - removed;
      WithoutNone(processedMessages, removed);
      while pending != {}
        invariant removed + pending == messagesToRemove && removed !! pending
        invariant processedMessages == Without(old(processedMessages), removed)
        invariant messageTimestamps == old(messageTimestamps) - removed
        invariant processedKeyExchanges == old(processedKeyExchanges)
        invariant completedKeyExchanges == old(completedKeyExchanges)
        decreases |pending|
      {
        var id :| id in pending;
        ForgetMessage(id);
        assert processedMessages == Without(old(processedMessages), removed + {id}) by {
          WithoutTwice(old(processedMessages), removed, {id});
        }
        assert messageTimestamps == old(messageTimestamps) - (removed + {id});
        removed := removed + {id};
        pending := pending - {id};
      }
      assert removed == messagesToRemove;
    }

    /** One iteration of the first step: `id` leaves the timestamps and the processed set. */
    method ForgetMessage(id: MessageId)
      modifies this
      ensures processedMessages == Without(old(processedMessages), {id})
      ensures messageTimestamps == old(messageTimestamps) - {id}
      ensures processedKeyExchanges == old(processedKeyExchanges)
      ensures completedKeyExchanges == old(completedKeyExchanges)
    {
      messageTimestamps := messageTimestamps - {id};
      processedMessages := Without(processedMessages, {id});
    }

    /** The second step: the oldest processed ids beyond the cap leave both structures. */
    method TrimProcessedMessages()
      requires Valid()
      modifies this
      ensures Valid()
      ensures processedMessages == Newest(old(processedMessages), MaxProcessedMessages)
      ensures forall id :: id in messageTimestamps ==>
        id in old(messageTimestamps) && messageTimestamps[id] == old(messageTimestamps)[id]
      ensures processedKeyExchanges == old(processedKeyExchanges)
      ensures completedKeyExchanges == old(completedKeyExchanges)
    {
      if |processedMessages| > MaxProcessedMessages {
        var toRemove := processedMessages[..|processedMessages| - MaxProcessedMessages];
        TrimmedStayValid(processedMessages, messageTimestamps, |toRemove|);
        WithoutPrefix(processedMessages, |toRemove|);
        processedMessages := Without(processedMessages, set id | id in toRemove);
        ForgetTimestamps(toRemove);
      }
    }

    /** `toRemove.forEach { messageTimestamps.remove(it) }`. */
    method ForgetTimestamps(toRemove: seq<MessageId>)
      modifies this
      ensures messageTimestamps == old(messageTimestamps) - (set id | id in toRemove)
      ensures processedMessages == old(processedMessages)
      ensures processedKeyExchanges == old(processedKeyExchanges)
      ensures completedKeyExchanges == old(completedKeyExchanges)
    {
      var i := 0;
      ghost var removed: set<MessageId> := {};
      assert messageTimestamps == old(messageTimestamps) - removed;
      while i < |toRemove|
        invariant i <= |toRemove|
        invariant removed == set id | id in toRemove[..i]
        invariant messageTimestamps == old(messageTimestamps) - removed
        invariant processedMessages == old(processedMessages)
        invariant processedKeyExchanges == old(processedKeyExchanges)
        invariant completedKeyExchanges == old(completedKeyExchanges)
      {
        assert toRemove[..i + 1] == toRemove[..i] + [toRemove[i]];
        messageTimestamps := messageTimestamps - {toRemove[i]};
        removed := removed + {toRemove[i]};
        i := i + 1;
      }
      assert toRemove[..i] == toRemove;
    }

    /** The third step: the oldest exchange keys beyond the cap are dropped. */
    method TrimProcessedKeyExchanges()
      requires Valid()
      modifies this
      ensures Valid()
      ensures processedKeyExchanges == Newest(old(processedKeyExchanges), MaxProcessedKeyExchanges)
      ensures processedMessages == old(processedMessages) && messageTimestamps == old(messageTimestamps)
      ensures completedKeyExchanges == old(completedKeyExchanges)
    {
      if |processedKeyExchanges| > MaxProcessedKeyExchanges {
        var toRemove := processedKeyExchanges[..|processedKeyExchanges| - MaxProcessedKeyExchanges];
        WithoutPrefix(processedKeyExchanges, |toRemove|);
        processedKeyExchanges := Without(processedKeyExchanges, set key | key in toRemove);
      }
    }
  }
}
