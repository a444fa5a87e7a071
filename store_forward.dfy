/**
 * `StoreForwardManager`: the packets cached for peers that are away, a
 * shared list capped at 100 and a queue per favourite peer capped at 1000,
 * the one-time flush to a peer that comes back (sorted by cache time, sent
 * 100 ms apart), the delivered-id and flushed-peer sets and the sweeps.
 */
module StoreForward {
  import opened Options
  import opened ByteSeq
  import opened Packets
  import opened MessageTypes

  /** `messageCacheTimeout`: twelve hours, in milliseconds. */
  const MessageCacheTimeout: int := 12 * 60 * 60 * 1000
  const MaxCachedMessages: nat := 100
  const MaxCachedMessagesForFavorites: nat := 1000
  const MaxDeliveredMessages: nat := 1000
  const MaxSentToPeers: nat := 200
  /** The pause before each further cached packet is sent. */
  const SendSpacing: int := 100

  datatype StoredMessage = StoredMessage(packet: Packet, timestamp: int, messageId: Bytes, isForFavorite: bool)

  /** A `delegate.sendPacket` call, after a pause of `delay` milliseconds. */
  datatype Delivery = Delivery(delay: int, packet: Packet)

  // ---------------------------------------------------------------- caching rule

  /** The recipient as a peer id: `recipientId?.decodeToString()?.trimEnd('\u0000')`. */
  function RecipientPeerId(p: Packet): Option<Bytes> {
    match p.recipientId
    case None => None
    case Some(r) => Some(TrimNul(r))
  }

  /** The packets `cachePacket` ignores: key exchanges, announces, leaves, broadcasts and packets without a recipient. */
  predicate NotCached(p: Packet) {
    || FromValue(p.ptype) in {Some(KeyExchange), Some(Announce), Some(Leave)}
    || p.recipientId == Some(Broadcast)
    || RecipientPeerId(p).None?
    || RecipientPeerId(p) == Some([])
  }

  /** `add` then `removeAt(0)` when the list is over its cap. */
  function Appended(queue: seq<StoredMessage>, m: StoredMessage, cap: nat): (r: seq<StoredMessage>)
    requires cap > 0
    ensures |queue| <= cap ==> |r| <= cap
    ensures |r| > 0 && r[|r| - 1] == m
    ensures |queue| < cap ==> r == queue + [m]
    ensures |queue| == cap ==> r == queue[1..] + [m]
  {
    var added := queue + [m];
    if |added| > cap then
      assert added[1..] == queue[1..] + [m];
      added[1..]
    else added
  }

  // ---------------------------------------------------------------- selection

  /** `removeAll { idsToRemove.contains(it.messageId) }`. */
  function WithoutIds(ms: seq<StoredMessage>, ids: set<Bytes>): (r: seq<StoredMessage>)
    ensures |r| <= |ms|
  {
    if |ms| == 0 then []
    else
      var rest := WithoutIds(ms[..|ms| - 1], ids);
      if ms[|ms| - 1].messageId in ids then rest else rest + [ms[|ms| - 1]]
  }

  /** `filter { !deliveredMessages.contains(it.messageId) }`: the same as removing the delivered ids. */
  function Undelivered(ms: seq<StoredMessage>, delivered: set<Bytes>): (r: seq<StoredMessage>)
    ensures |r| <= |ms|
  {
    WithoutIds(ms, delivered)
  }

  /** The shared-list entries addressed to `peerId` and not delivered yet. */
  function AddressedTo(ms: seq<StoredMessage>, delivered: set<Bytes>, peerId: Bytes): (r: seq<StoredMessage>)
    ensures |r| <= |ms|
  {
    if |ms| == 0 then []
    else
      var rest := AddressedTo(ms[..|ms| - 1], delivered, peerId);
      var m := ms[|ms| - 1];
      if m.messageId !in delivered && RecipientPeerId(m.packet) == Some(peerId) then rest + [m] else rest
  }

  /** `removeAll { !it.isForFavorite && it.timestamp < cutoffTime }`. */
  function Unexpired(ms: seq<StoredMessage>, cutoffTime: int): (r: seq<StoredMessage>)
    ensures |r| <= |ms|
  {
    if |ms| == 0 then []
    else
      var rest := Unexpired(ms[..|ms| - 1], cutoffTime);
      var m := ms[|ms| - 1];
      if !m.isForFavorite && m.timestamp < cutoffTime then rest else rest + [m]
  }

  /** Kept entries of the filters, as membership. */
  lemma {:induction false} FiltersKeep(ms: seq<StoredMessage>, delivered: set<Bytes>, peerId: Bytes, ids: set<Bytes>,
                                       cutoffTime: int, m: StoredMessage)
    ensures m in Undelivered(ms, delivered) <==> m in ms && m.messageId !in delivered
    ensures m in AddressedTo(ms, delivered, peerId) <==>
      m in ms && m.messageId !in delivered && RecipientPeerId(m.packet) == Some(peerId)
    ensures m in WithoutIds(ms, ids) <==> m in ms && m.messageId !in ids
    ensures m in Unexpired(ms, cutoffTime) <==> m in ms && !(!m.isForFavorite && m.timestamp < cutoffTime)
  {
    if |ms| > 0 {
      FiltersKeep(ms[..|ms| - 1], delivered, peerId, ids, cutoffTime, m);
      assert ms == ms[..|ms| - 1] + [ms[|ms| - 1]];
    }
  }

  /** The messages `removeAll` keeps are the others, in their order: removing nothing relevant changes nothing. */
  lemma {:induction false} WithoutIdsUnrelated(ms: seq<StoredMessage>, ids: set<Bytes>)
    requires forall i :: 0 <= i < |ms| ==> ms[i].messageId !in ids
    ensures WithoutIds(ms, ids) == ms
  {
    if |ms| > 0 {
      WithoutIdsUnrelated(ms[..|ms| - 1], ids);
      assert ms == ms[..|ms| - 1] + [ms[|ms| - 1]];
    }
  }

  // ---------------------------------------------------------------- stable sort

  predicate SortedByTime(ms: seq<StoredMessage>) {
    forall i, j :: 0 <= i < j < |ms| ==> ms[i].timestamp <= ms[j].timestamp
  }

  /** Places `m` after every entry cached no later than it. */
  function InsertByTime(sorted: seq<StoredMessage>, m: StoredMessage): (r: seq<StoredMessage>)
    ensures |r| == |sorted| + 1
  {
    if |sorted| == 0 then [m]
    else if sorted[|sorted| - 1].timestamp <= m.timestamp then sorted + [m]
    else
      InsertByTime(sorted[..|sorted| - 1], m) + [sorted[|sorted| - 1]]
  }

  /** `sortBy { it.timestamp }`, a stable sort: insertion of each entry in turn. */
  function SortByTime(ms: seq<StoredMessage>): (r: seq<StoredMessage>)
    ensures |r| == |ms|
  {
    if |ms| == 0 then []
    else
      InsertByTime(SortByTime(ms[..|ms| - 1]), ms[|ms| - 1])
  }

  /** Inserting adds exactly the one entry. */
  lemma {:induction false} InsertPermutes(sorted: seq<StoredMessage>, m: StoredMessage)
    ensures multiset(InsertByTime(sorted, m)) == multiset(sorted) + multiset{m}
  {
    if |sorted| > 0 && sorted[|sorted| - 1].timestamp > m.timestamp {
      var front := sorted[..|sorted| - 1];
      InsertPermutes(front, m);
      MultisetSnoc(sorted);
    }
  }

  lemma MultisetSnoc<T>(s: seq<T>)
    requires |s| > 0
    ensures multiset(s) == multiset(s[..|s| - 1]) + multiset{s[|s| - 1]}
  {
    assert s == s[..|s| - 1] + [s[|s| - 1]];
  }

  /** The selection is a permutation of what was picked: nothing is lost or duplicated. */
  lemma {:induction false} SortByTimePermutes(ms: seq<StoredMessage>)
    ensures multiset(SortByTime(ms)) == multiset(ms)
  {
    if |ms| > 0 {
      var front, last := ms[..|ms| - 1], ms[|ms| - 1];
      SortByTimePermutes(front);
      InsertPermutes(SortByTime(front), last);
      MultisetSnoc(ms);
    }
  }

  /** No entry was cached after `bound`. */
  predicate NoneAfter(ms: seq<StoredMessage>, bound: int) {
    forall i :: 0 <= i < |ms| ==> ms[i].timestamp <= bound
  }

  lemma {:induction false} InsertNoneAfter(sorted: seq<StoredMessage>, m: StoredMessage, bound: int)
    requires NoneAfter(sorted, bound) && m.timestamp <= bound
    ensures NoneAfter(InsertByTime(sorted, m), bound)
  {
    if |sorted| > 0 && sorted[|sorted| - 1].timestamp > m.timestamp {
      InsertNoneAfter(sorted[..|sorted| - 1], m, bound);
    }
  }

  lemma SortedSnoc(ms: seq<StoredMessage>, m: StoredMessage)
    requires SortedByTime(ms) && NoneAfter(ms, m.timestamp)
    ensures SortedByTime(ms + [m])
  {
  }

  lemma {:induction false} InsertSorted(sorted: seq<StoredMessage>, m: StoredMessage)
    requires SortedByTime(sorted)
    ensures SortedByTime(InsertByTime(sorted, m))
  {
    if |sorted| == 0 {
    } else if sorted[|sorted| - 1].timestamp <= m.timestamp {
      SortedSnoc(sorted, m);
    } else {
      var front := sorted[..|sorted| - 1];
      var last := sorted[|sorted| - 1];
      InsertSorted(front, m);
      InsertNoneAfter(front, m, last.timestamp);
      SortedSnoc(InsertByTime(front, m), last);
    }
  }

  /** The selection is in cache order. */
  lemma {:induction false} SortByTimeSorted(ms: seq<StoredMessage>)
    ensures SortedByTime(SortByTime(ms))
  {
    if |ms| > 0 {
      SortByTimeSorted(ms[..|ms| - 1]);
      InsertSorted(SortByTime(ms[..|ms| - 1]), ms[|ms| - 1]);
    }
  }

  /** The entries cached at time `t`, in order. */
  function AtTime(ms: seq<StoredMessage>, t: int): seq<StoredMessage> {
    if |ms| == 0 then []
    else if ms[|ms| - 1].timestamp == t then AtTime(ms[..|ms| - 1], t) + [ms[|ms| - 1]]
    else AtTime(ms[..|ms| - 1], t)
  }

  lemma AtTimeSnoc(ms: seq<StoredMessage>, m: StoredMessage, t: int)
    ensures AtTime(ms + [m], t) == AtTime(ms, t) + (if m.timestamp == t then [m] else [])
  {
    assert (ms + [m])[..|ms|] == ms;
  }

  lemma {:induction false} InsertStable(sorted: seq<StoredMessage>, m: StoredMessage, t: int)
    ensures AtTime(InsertByTime(sorted, m), t) == AtTime(sorted + [m], t)
  {
    if |sorted| > 0 && sorted[|sorted| - 1].timestamp > m.timestamp {
      var front := sorted[..|sorted| - 1];
      var last := sorted[|sorted| - 1];
      InsertStable(front, m, t);
      AtTimeSnoc(InsertByTime(front, m), last, t);
      AtTimeSnoc(front, m, t);
      AtTimeSnoc(front, last, t);
      AtTimeSnoc(sorted, m, t);
      assert sorted == front + [last];
    }
  }

  /** Stability: entries cached at the same time keep their order. */
  lemma {:induction false} SortByTimeStable(ms: seq<StoredMessage>, t: int)
    ensures AtTime(SortByTime(ms), t) == AtTime(ms, t)
  {
    if |ms| > 0 {
      var front := ms[..|ms| - 1];
      SortByTimeStable(front, t);
      InsertStable(SortByTime(front), ms[|ms| - 1], t);
      AtTimeSnoc(SortByTime(front), ms[|ms| - 1], t);
      AtTimeSnoc(front, ms[|ms| - 1], t);
      assert ms == front + [ms[|ms| - 1]];
    }
  }

  // ---------------------------------------------------------------- sending

  /** The ids of the messages, `map { it.messageId }`. */
  function Ids(ms: seq<StoredMessage>): (r: set<Bytes>)
    ensures forall i :: 0 <= i < |ms| ==> ms[i].messageId in r
    ensures forall id :: id in r ==> exists i :: 0 <= i < |ms| && ms[i].messageId == id
  {
    set i | 0 <= i < |ms| :: ms[i].messageId
  }

  /** `forEachIndexed { index, m -> delay(100 * index); sendPacket(m.packet) }`. */
  function Sends(ms: seq<StoredMessage>): (r: seq<Delivery>)
    ensures |r| == |ms|
  {
    if |ms| == 0 then [] else Sends(ms[..|ms| - 1]) + [Delivery(SendSpacing * (|ms| - 1), ms[|ms| - 1].packet)]
  }

  /** The `i`-th call sends the `i`-th selected packet after a pause of `100 * i` ms. */
  lemma {:induction false} SendsInOrder(ms: seq<StoredMessage>, i: nat)
    requires i < |ms|
    ensures Sends(ms)[i] == Delivery(SendSpacing * i, ms[i].packet)
  {
    if i < |ms| - 1 {
      SendsInOrder(ms[..|ms| - 1], i);
    }
  }

  /** The time from the start of the flush until the `k`-th send: the sum of the first `k + 1` pauses. */
  function Elapsed(sends: seq<Delivery>, k: nat): int
    requires k < |sends|
  {
    if k == 0 then sends[0].delay else Elapsed(sends, k - 1) + sends[k].delay
  }

  /** The pauses add up: the `k`-th packet leaves `50 * k * (k + 1)` ms after the flush starts. */
  lemma {:induction false} ElapsedTriangular(ms: seq<StoredMessage>, k: nat)
    requires k < |ms|
    ensures Elapsed(Sends(ms), k) == 50 * k * (k + 1)
  {
    SendsInOrder(ms, k);
    if k > 0 {
      ElapsedTriangular(ms, k - 1);
    }
  }

  /** What a flush to `peerId` sends: the favourite queue and the shared-list entries for it, undelivered, by time. */
  function Selection(queue: seq<StoredMessage>, cache: seq<StoredMessage>, delivered: set<Bytes>, peerId: Bytes): seq<StoredMessage> {
    SortByTime(Undelivered(queue, delivered) + AddressedTo(cache, delivered, peerId))
  }

  /**
   * Everything selected is undelivered and either from the peer's queue or
   * addressed to it, every such message is selected, and the selection is in
   * cache order.
   */
  lemma SelectionContents(queue: seq<StoredMessage>, cache: seq<StoredMessage>, delivered: set<Bytes>, peerId: Bytes,
                          m: StoredMessage)
    ensures SortedByTime(Selection(queue, cache, delivered, peerId))
    ensures m in Selection(queue, cache, delivered, peerId) <==>
      m.messageId !in delivered && (m in queue || (m in cache && RecipientPeerId(m.packet) == Some(peerId)))
  {
    var joined := Undelivered(queue, delivered) + AddressedTo(cache, delivered, peerId);
    SortByTimeSorted(joined);
    SortByTimePermutes(joined);
    FiltersKeep(queue, delivered, peerId, {}, 0, m);
    FiltersKeep(cache, delivered, peerId, {}, 0, m);
    assert m in SortByTime(joined) <==> m in multiset(SortByTime(joined));
  }

  // ---------------------------------------------------------------- manager

  class StoreForwardManager {
    var messageCache: seq<StoredMessage>
    var favoriteMessageQueue: map<Bytes, seq<StoredMessage>>
    var deliveredMessages: set<Bytes>
    var cachedMessagesSentToPeer: set<Bytes>
    /** The `delegate.sendPacket` calls so far. */
    var sent: seq<Delivery>

    /** Both caps hold, the shared list has no favourite entries and the queues nothing else. */
    ghost predicate Valid()
      reads this
    {
      && |messageCache| <= MaxCachedMessages
      && AllOfKind(messageCache, false)
      && (forall p :: p in favoriteMessageQueue ==>
            |favoriteMessageQueue[p]| <= MaxCachedMessagesForFavorites && AllOfKind(favoriteMessageQueue[p], true))
    }

    constructor ()
      ensures Valid()
      ensures messageCache == [] && favoriteMessageQueue == map[]
      ensures deliveredMessages == {} && cachedMessagesSentToPeer == {} && sent == []
    {
      messageCache, favoriteMessageQueue := [], map[];
      deliveredMessages, cachedMessagesSentToPeer, sent := {}, {}, [];
    }

    /**
     * `cachePacket`: stores a packet for an absent recipient, in that peer's
     * queue when `isFavorite` (the delegate's answer for the recipient) holds
     * and in the shared list otherwise, dropping the oldest entry when over
     * the cap.
     */
    method CachePacket(packet: Packet, messageId: Bytes, now: int, isFavorite: bool)
      requires Valid()
      modifies this
      ensures Valid()
      ensures NotCached(packet) ==>
        messageCache == old(messageCache) && favoriteMessageQueue == old(favoriteMessageQueue)
      ensures !NotCached(packet) ==>
        var recipient := RecipientPeerId(packet).value;
        var stored := StoredMessage(packet, now, messageId, isFavorite);
        if isFavorite then
          var queue := if recipient in old(favoriteMessageQueue) then old(favoriteMessageQueue)[recipient] else [];
          && favoriteMessageQueue == old(favoriteMessageQueue)[recipient := Appended(queue, stored, MaxCachedMessagesForFavorites)]
          && messageCache == old(messageCache)
        else
          && messageCache == Appended(old(messageCache), stored, MaxCachedMessages)
          && favoriteMessageQueue == old(favoriteMessageQueue)
      ensures deliveredMessages == old(deliveredMessages) && cachedMessagesSentToPeer == old(cachedMessagesSentToPeer)
      ensures sent == old(sent)
    {
      var packetType := FromValue(packet.ptype);
      if packetType in {Some(KeyExchange), Some(Announce), Some(Leave)} {
        return;
      }
      if packet.recipientId == Some(Broadcast) {
        return;
      }
      var recipientPeerId := RecipientPeerId(packet);
      if recipientPeerId.None? || recipientPeerId.value == [] {
        return;
      }
      var rid := recipientPeerId.value;
      var storedMessage := StoredMessage(packet, now, messageId, isFavorite);
      if isFavorite {
        var queue := if rid in favoriteMessageQueue then favoriteMessageQueue[rid] else [];
        AppendedKind(queue, storedMessage, MaxCachedMessagesForFavorites);
        favoriteMessageQueue := favoriteMessageQueue[rid := Appended(queue, storedMessage, MaxCachedMessagesForFavorites)];
      } else {
        AppendedKind(messageCache, storedMessage, MaxCachedMessages);
        messageCache := Appended(messageCache, storedMessage, MaxCachedMessages);
      }
    }

    /**
     * `sendCachedMessages`: flushes once per peer. Takes the peer's favourite
     * queue whole and the undelivered shared-list entries for it, sorts them
     * by cache time, marks them delivered, sends them 100 ms apart and drops
     * the sent ids from the shared list.
     */
    method SendCachedMessages(peerId: Bytes)
      requires Valid()
      modifies this
      ensures Valid()
      ensures peerId in old(cachedMessagesSentToPeer) ==>
        && messageCache == old(messageCache) && favoriteMessageQueue == old(favoriteMessageQueue)
        && deliveredMessages == old(deliveredMessages) && cachedMessagesSentToPeer == old(cachedMessagesSentToPeer)
        && sent == old(sent)
      ensures peerId !in old(cachedMessagesSentToPeer) ==>
        var queue := if peerId in old(favoriteMessageQueue) then old(favoriteMessageQueue)[peerId] else [];
        var selection := Selection(queue, old(messageCache), old(deliveredMessages), peerId);
        && cachedMessagesSentToPeer == old(cachedMessagesSentToPeer) + {peerId}
        && favoriteMessageQueue == old(favoriteMessageQueue) - {peerId}
        && deliveredMessages == old(deliveredMessages) + Ids(selection)
        && sent == old(sent) + Sends(selection)
        && messageCache == WithoutIds(old(messageCache), Ids(selection))
    {
      if peerId in cachedMessagesSentToPeer {
        return;
      }
      cachedMessagesSentToPeer := cachedMessagesSentToPeer + {peerId};
      // `remove(peerId)?.let { addAll(it.filter { … }) }`: an absent queue adds nothing
      var favoriteMessages := if peerId in favoriteMessageQueue then favoriteMessageQueue[peerId] else [];
      favoriteMessageQueue := favoriteMessageQueue - {peerId};
      var messagesToSend := Undelivered(favoriteMessages, deliveredMessages)
        + AddressedTo(messageCache, deliveredMessages, peerId);
      messagesToSend := SortByTime(messagesToSend);
      var idsToRemove := Ids(messagesToSend);
      deliveredMessages := deliveredMessages + idsToRemove;
      SendAll(messagesToSend);
      messageCache := WithoutIds(messageCache, idsToRemove);
      FiltersKeepKind(old(messageCache), idsToRemove, 0, false);
    }

    /** The `forEachIndexed` send loop. */
    method SendAll(messagesToSend: seq<StoredMessage>)
      modifies this
      ensures sent == old(sent) + Sends(messagesToSend)
      ensures messageCache == old(messageCache) && favoriteMessageQueue == old(favoriteMessageQueue)
      ensures deliveredMessages == old(deliveredMessages) && cachedMessagesSentToPeer == old(cachedMessagesSentToPeer)
    {
      var index := 0;
      while index < |messagesToSend|
        invariant index <= |messagesToSend|
        invariant sent == old(sent) + Sends(messagesToSend[..index])
        invariant messageCache == old(messageCache) && favoriteMessageQueue == old(favoriteMessageQueue)
        invariant deliveredMessages == old(deliveredMessages) && cachedMessagesSentToPeer == old(cachedMessagesSentToPeer)
      {
        assert messagesToSend[..index + 1][..index] == messagesToSend[..index];
        sent := sent + [Delivery(SendSpacing * index, messagesToSend[index].packet)];
        index := index + 1;
      }
      assert messagesToSend[..index] == messagesToSend;
    }

    /** `shouldCacheForPeer`: the recipient is offline and a favourite, as the delegate answers. */
    function ShouldCacheForPeer(isPeerOnline: bool, isFavorite: bool): (r: bool)
      ensures r <==> !isPeerOnline && isFavorite
    {
      !isPeerOnline && isFavorite
    }

    /** `cleanupMessageCache`: drops shared-list entries cached more than twelve hours before `now`. */
    method CleanupMessageCache(now: int)
      requires Valid()
      modifies this
      ensures Valid()
      ensures messageCache == Unexpired(old(messageCache), now - MessageCacheTimeout)
      ensures favoriteMessageQueue == old(favoriteMessageQueue)
      ensures deliveredMessages == old(deliveredMessages) && cachedMessagesSentToPeer == old(cachedMessagesSentToPeer)
      ensures sent == old(sent)
    {
      var cutoffTime := now - MessageCacheTimeout;
      messageCache := Unexpired(messageCache, cutoffTime);
      FiltersKeepKind(old(messageCache), {}, cutoffTime, false);
    }

    /** `cleanupDeliveredMessages`: forgets the delivered ids past 1000 and the flushed peers past 200. */
    method CleanupDeliveredMessages()
      modifies this
      ensures deliveredMessages == if |old(deliveredMessages)| > MaxDeliveredMessages then {} else old(deliveredMessages)
      ensures cachedMessagesSentToPeer == if |old(cachedMessagesSentToPeer)| > MaxSentToPeers then {} else old(cachedMessagesSentToPeer)
      ensures messageCache == old(messageCache) && favoriteMessageQueue == old(favoriteMessageQueue)
      ensures sent == old(sent)
    {
      if |deliveredMessages| > MaxDeliveredMessages {
        deliveredMessages := {};
      }
      if |cachedMessagesSentToPeer| > MaxSentToPeers {
        cachedMessagesSentToPeer := {};
      }
    }

    /** `clearAllCache`. */
    method ClearAllCache()
      modifies this
      ensures Valid()
      ensures messageCache == [] && favoriteMessageQueue == map[]
      ensures deliveredMessages == {} && cachedMessagesSentToPeer == {}
      ensures sent == old(sent)
    {
      messageCache := [];
      favoriteMessageQueue := map[];
      deliveredMessages := {};
      cachedMessagesSentToPeer := {};
    }
  }

  /** Every entry is a favourite one (`forFavorite`) or none is. */
  ghost predicate AllOfKind(ms: seq<StoredMessage>, forFavorite: bool) {
    forall i :: 0 <= i < |ms| ==> ms[i].isForFavorite == forFavorite
  }

  lemma AppendedKind(queue: seq<StoredMessage>, m: StoredMessage, cap: nat)
    requires cap > 0 && AllOfKind(queue, m.isForFavorite)
    ensures AllOfKind(Appended(queue, m, cap), m.isForFavorite)
  {
  }

  /** The filters keep the kind of the entries they keep. */
  lemma {:induction false} FiltersKeepKind(ms: seq<StoredMessage>, ids: set<Bytes>, cutoffTime: int, forFavorite: bool)
    requires AllOfKind(ms, forFavorite)
    ensures AllOfKind(WithoutIds(ms, ids), forFavorite)
    ensures AllOfKind(Unexpired(ms, cutoffTime), forFavorite)
  {
    if |ms| > 0 {
      FiltersKeepKind(ms[..|ms| - 1], ids, cutoffTime, forFavorite);
    }
  }
}
