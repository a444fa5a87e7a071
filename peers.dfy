/**
 * `PeerManager`: the table of known peers with their nickname, last-seen
 * time, signal strength and announced flag; the eviction of stale peers
 * sharing a nickname; the staleness sweep; and the two snapshots. The
 * connection-event flow and the peer-list flow are kept as append-only logs.
 */
module Peers {
  import opened Options
  import opened ByteSeq
  import opened Lists

  /** `stalePeerTimeout`: three minutes, in milliseconds. */
  const StalePeerTimeout: int := 180000
  /** The age past which a peer reusing a nickname is evicted: ten seconds. */
  const NicknameReuseTimeout: int := 10000

  /** The pseudo-id `"unknown"`, for which every update is a no-op. */
  const Unknown: Bytes := Ascii("unknown")

  datatype PeerState = PeerState(nickname: Bytes, lastSeen: int, rssi: Option<int>, isAnnounced: bool)

  /** The `PeerManagerDelegate` events sent on the connection flow. */
  datatype PeerEvent = PeerConnected(nickname: Bytes) | PeerDisconnected(nickname: Bytes)

  // ---------------------------------------------------------------- id order

  /** Lexicographic order on ids, the order of `sorted()` on strings whose UTF-8 bytes these are. */
  predicate LexLessEq(a: Bytes, b: Bytes)
    decreases |a|
  {
    |a| == 0 || (|b| > 0 && (a[0] < b[0] || (a[0] == b[0] && LexLessEq(a[1..], b[1..]))))
  }

  predicate LexLess(a: Bytes, b: Bytes) {
    LexLessEq(a, b) && a != b
  }

  lemma {:induction false} LexReflexive(a: Bytes)
    ensures LexLessEq(a, a)
  {
    if |a| > 0 {
      LexReflexive(a[1..]);
    }
  }

  lemma {:induction false} LexTotal(a: Bytes, b: Bytes)
    ensures LexLessEq(a, b) || LexLessEq(b, a)
  {
    if |a| > 0 && |b| > 0 && a[0] == b[0] {
      LexTotal(a[1..], b[1..]);
    }
  }

  lemma {:induction false} LexAntisymmetric(a: Bytes, b: Bytes)
    requires LexLessEq(a, b) && LexLessEq(b, a)
    ensures a == b
  {
    if |a| > 0 {
      LexAntisymmetric(a[1..], b[1..]);
      assert a == [a[0]] + a[1..] && b == [b[0]] + b[1..];
    }
  }

  lemma {:induction false} LexTransitive(a: Bytes, b: Bytes, c: Bytes)
    requires LexLessEq(a, b) && LexLessEq(b, c)
    ensures LexLessEq(a, c)
  {
    if |a| > 0 && a[0] == b[0] && b[0] == c[0] {
      LexTransitive(a[1..], b[1..], c[1..]);
    }
  }

  /** Every non-empty set of ids has a least element. */
  lemma {:induction false} LeastOf(s: set<Bytes>) returns (m: Bytes)
    requires s != {}
    ensures m in s && forall y :: y in s ==> LexLessEq(m, y)
    decreases |s|
  {
    var x :| x in s;
    var rest := s - {x};
    if rest == {} {
      LexReflexive(x);
      assert forall y :: y in s ==> y == x by {
        forall y | y in s
          ensures y == x
        {
          assert y !in rest;
        }
      }
      m := x;
    } else {
      var least := LeastOf(rest);
      LexTotal(x, least);
      if LexLessEq(x, least) {
        LexReflexive(x);
        forall y | y in s
          ensures LexLessEq(x, y)
        {
          if y != x {
            assert y in rest;
            LexTransitive(x, least, y);
          }
        }
        m := x;
      } else {
        forall y | y in s
          ensures LexLessEq(least, y)
        {
          if y != x {
            assert y in rest;
          }
        }
        m := least;
      }
    }
  }

  /** `r` lists the ids of `s` in strictly increasing order. */
  ghost predicate IsSortedIds(r: seq<Bytes>, s: set<Bytes>) {
    && (forall i, j :: 0 <= i < j < |r| ==> LexLess(r[i], r[j]))
    && (forall x :: x in r <==> x in s)
  }

  /** Only one sequence lists a set in increasing order. */
  lemma {:induction false} SortedIdsUnique(r1: seq<Bytes>, r2: seq<Bytes>, s: set<Bytes>)
    requires IsSortedIds(r1, s) && IsSortedIds(r2, s)
    ensures r1 == r2
    decreases |r1|
  {
    assert |r1| > 0 ==> r1[0] in r2;
    assert |r2| > 0 ==> r2[0] in r1;
    if |r1| > 0 && |r2| > 0 {
      var a, b := r1[0], r2[0];
      assert a in r2 && b in r1;
      var i :| 0 <= i < |r2| && r2[i] == a;
      var j :| 0 <= j < |r1| && r1[j] == b;
      if a != b {
        assert i > 0 && j > 0;
        assert LexLessEq(b, a) && LexLessEq(a, b);
        LexAntisymmetric(a, b);
      }
      var t := s - {a};
      forall x
        ensures x in r1[1..] <==> x in t
      {
        if x in r1[1..] {
          var k :| 0 <= k < |r1[1..]| && r1[1..][k] == x;
          assert r1[k + 1] == x && LexLess(r1[0], r1[k + 1]);
        }
        if x in t {
          assert x in r1 && x != r1[0];
          var k :| 0 <= k < |r1| && r1[k] == x;
          assert k > 0 && r1[1..][k - 1] == x;
        }
      }
      forall x
        ensures x in r2[1..] <==> x in t
      {
        if x in r2[1..] {
          var k :| 0 <= k < |r2[1..]| && r2[1..][k] == x;
          assert r2[k + 1] == x && LexLess(r2[0], r2[k + 1]);
        }
        if x in t {
          assert x in r2 && x != r2[0];
          var k :| 0 <= k < |r2| && r2[k] == x;
          assert k > 0 && r2[1..][k - 1] == x;
        }
      }
      SortedIdsUnique(r1[1..], r2[1..], t);
      assert r1 == [a] + r1[1..] && r2 == [b] + r2[1..];
    }
  }

  /** `keys.toList().sorted()`: selection of the least remaining id, repeated. */
  method SortedIds(keys: set<Bytes>) returns (r: seq<Bytes>)
    ensures IsSortedIds(r, keys)
  {
    r := [];
    var rest := keys;
    while rest != {}
      invariant rest <= keys
      invariant forall i, j :: 0 <= i < j < |r| ==> LexLess(r[i], r[j])
      invariant forall x :: x in r <==> x in keys && x !in rest
      invariant forall x, y :: x in r && y in rest ==> LexLess(x, y)
      decreases |rest|
    {
      ghost var least := LeastOf(rest);
      var m :| m in rest && forall y :: y in rest ==> LexLessEq(m, y);
      forall y | y in rest - {m}
        ensures LexLess(m, y)
      {
      }
      r := r + [m];
      rest := rest - {m};
    }
  }

  // ---------------------------------------------------------------- table

  /** The peers other than `peerId` that use `nickname` and were last seen more than ten seconds ago. */
  function StaleNamesakes(peers: map<Bytes, PeerState>, peerId: Bytes, nickname: Bytes, now: int): (r: set<Bytes>)
    ensures forall id :: id in r <==>
      id in peers && peers[id].nickname == nickname && id != peerId && now - peers[id].lastSeen > NicknameReuseTimeout
  {
    set id | id in peers && peers[id].nickname == nickname && id != peerId && now - peers[id].lastSeen > NicknameReuseTimeout
  }

  /** The table after `addOrUpdatePeer`: namesakes evicted, then the record replaced. */
  function Announced(peers: map<Bytes, PeerState>, peerId: Bytes, nickname: Bytes, now: int): map<Bytes, PeerState> {
    var current := if peerId in peers then peers[peerId].rssi else None;
    (peers - StaleNamesakes(peers, peerId, nickname, now))[peerId := PeerState(nickname, now, current, true)]
  }

  /**
   * After an announce the peer is present with the new nickname, the current
   * time, its old signal strength and the announced flag; every other peer
   * is kept unchanged exactly when it is not a stale namesake.
   */
  lemma AnnouncedContents(peers: map<Bytes, PeerState>, peerId: Bytes, nickname: Bytes, now: int)
    ensures var r := Announced(peers, peerId, nickname, now);
      && peerId in r
      && r[peerId].nickname == nickname && r[peerId].lastSeen == now && r[peerId].isAnnounced
      && r[peerId].rssi == (if peerId in peers then peers[peerId].rssi else None)
      && (forall id :: id != peerId ==>
            (id in r <==> id in peers && !(peers[id].nickname == nickname && now - peers[id].lastSeen > NicknameReuseTimeout)))
      && (forall id :: id in r && id != peerId ==> r[id] == peers[id])
  {
  }

  /** No namesake older than ten seconds survives an announce. */
  lemma AnnouncedNoStaleNamesake(peers: map<Bytes, PeerState>, peerId: Bytes, nickname: Bytes, now: int)
    ensures StaleNamesakes(Announced(peers, peerId, nickname, now), peerId, nickname, now) == {}
  {
  }

  /** The peers the sweep removes: last seen more than three minutes ago. */
  function StalePeers(peers: map<Bytes, PeerState>, now: int): (r: set<Bytes>)
    ensures forall id :: id in r <==> id in peers && now - peers[id].lastSeen > StalePeerTimeout
  {
    set id | id in peers && now - peers[id].lastSeen > StalePeerTimeout
  }

  /** The disconnect events for removing the peers of `order`, in that order. */
  function Disconnections(peers: map<Bytes, PeerState>, order: seq<Bytes>): (r: seq<PeerEvent>)
    requires forall id :: id in order ==> id in peers
    ensures |r| == |order|
  {
    if |order| == 0 then [] else Disconnections(peers, order[..|order| - 1]) + [PeerDisconnected(peers[order[|order| - 1]].nickname)]
  }

  /** The `i`-th event reports the nickname of the `i`-th removed peer. */
  lemma {:induction false} DisconnectionsReport(peers: map<Bytes, PeerState>, order: seq<Bytes>, i: nat)
    requires forall id :: id in order ==> id in peers
    requires i < |order|
    ensures Disconnections(peers, order)[i] == PeerDisconnected(peers[order[i]].nickname)
  {
    if i < |order| - 1 {
      DisconnectionsReport(peers, order[..|order| - 1], i);
    }
  }

  lemma DisconnectionsSnoc(peers: map<Bytes, PeerState>, order: seq<Bytes>, id: Bytes)
    requires forall x :: x in order ==> x in peers
    requires id in peers
    ensures Disconnections(peers, order + [id]) == Disconnections(peers, order) + [PeerDisconnected(peers[id].nickname)]
  {
    assert (order + [id])[..|order|] == order;
  }

  /**
   * The id lists published from index `base` on, one per removal in `order`:
   * the one after the k-th removal lists, sorted, the ids of `keys` that the
   * first k + 1 removals left.
   */
  ghost predicate PublishedInTurn(updates: seq<seq<Bytes>>, base: nat, keys: set<Bytes>, order: seq<Bytes>) {
    && base + |order| <= |updates|
    && forall j :: base <= j < base + |order| ==> IsSortedIds(updates[j], keys - Elements(order[..j - base + 1]))
  }

  class PeerManager {
    var peers: map<Bytes, PeerState>
    var announcedToPeers: set<Bytes>
    /** What `connectionEventsFlow` has carried. */
    var events: seq<PeerEvent>
    /** What `peerListUpdatedFlow` has carried: sorted id lists. */
    var peerListUpdates: seq<seq<Bytes>>

    constructor ()
      ensures peers == map[] && announcedToPeers == {} && events == [] && peerListUpdates == []
    {
      peers, announcedToPeers, events, peerListUpdates := map[], {}, [], [];
    }

    /** `updatePeerLastSeen`: refreshes the time of a known peer only. */
    method UpdatePeerLastSeen(peerId: Bytes, now: int)
      modifies this
      ensures peerId != Unknown && peerId in old(peers) ==> peers == old(peers)[peerId := old(peers)[peerId].(lastSeen := now)]
      ensures peerId == Unknown || peerId !in old(peers) ==> peers == old(peers)
      ensures announcedToPeers == old(announcedToPeers) && events == old(events) && peerListUpdates == old(peerListUpdates)
    {
      if peerId == Unknown {
        return;
      }
      if peerId in peers {
        peers := peers[peerId := peers[peerId].(lastSeen := now)];
      }
    }

    /** `updatePeerRssi`: records the signal strength of a known peer only. */
    method UpdatePeerRssi(peerId: Bytes, rssi: int)
      modifies this
      ensures peerId != Unknown && peerId in old(peers) ==> peers == old(peers)[peerId := old(peers)[peerId].(rssi := Some(rssi))]
      ensures peerId == Unknown || peerId !in old(peers) ==> peers == old(peers)
      ensures announcedToPeers == old(announcedToPeers) && events == old(events) && peerListUpdates == old(peerListUpdates)
    {
      if peerId == Unknown {
        return;
      }
      if peerId in peers {
        peers := peers[peerId := peers[peerId].(rssi := Some(rssi))];
      }
    }

    /**
     * `addOrUpdatePeer`: evicts the stale namesakes silently, then stores the
     * announced record. The first announce of a peer reports it and publishes
     * the sorted id list, and is the only case that returns true.
     */
    method AddOrUpdatePeer(peerId: Bytes, nickname: Bytes, now: int) returns (r: bool)
      modifies this
      ensures peerId == Unknown ==> !r && peers == old(peers) && announcedToPeers == old(announcedToPeers)
      ensures peerId != Unknown ==>
        && peers == Announced(old(peers), peerId, nickname, now)
        && announcedToPeers == old(announcedToPeers) - StaleNamesakes(old(peers), peerId, nickname, now)
        && (r <==> !(peerId in old(peers) && old(peers)[peerId].isAnnounced))
      ensures r ==> events == old(events) + [PeerConnected(nickname)]
      ensures r ==> |peerListUpdates| == |old(peerListUpdates)| + 1 && peerListUpdates[..|old(peerListUpdates)|] == old(peerListUpdates)
      ensures r ==> IsSortedIds(peerListUpdates[|old(peerListUpdates)|], peers.Keys)
      ensures !r ==> events == old(events) && peerListUpdates == old(peerListUpdates)
    {
      if peerId == Unknown {
        return false;
      }
      var stalePeerIds := StaleNamesakes(peers, peerId, nickname, now);
      RemoveSilently(stalePeerIds);
      var isFirstAnnounce := !(peerId in peers && peers[peerId].isAnnounced);
      var currentRssi := if peerId in peers then peers[peerId].rssi else None;
      peers := peers[peerId := PeerState(nickname, now, currentRssi, true)];
      if isFirstAnnounce {
        events := events + [PeerConnected(nickname)];
        NotifyPeerListUpdate();
        return true;
      }
      return false;
    }

    /** The `forEach` over stale namesakes: `removePeerInternal(id, notifyDelegate = false)` on each. */
    method RemoveSilently(ids: set<Bytes>)
      modifies this
      ensures peers == old(peers) - ids && announcedToPeers == old(announcedToPeers) - ids
      ensures events == old(events) && peerListUpdates == old(peerListUpdates)
    {
      var pending := ids;
      ghost var removed: set<Bytes> := {};
      assert peers == old(peers) - removed && announcedToPeers == old(announcedToPeers) - removed;
      while pending != {}
        invariant removed + pending == ids
        invariant peers == old(peers) - removed && announcedToPeers == old(announcedToPeers) - removed
        invariant events == old(events) && peerListUpdates == old(peerListUpdates)
        decreases |pending|
      {
        var id :| id in pending;
        RemovePeerInternal(id, false);
        removed := removed + {id};
        pending := pending - {id};
      }
    }

    /** `notifyPeerListUpdate`: publishes the ids in sorted order. */
    method NotifyPeerListUpdate()
      modifies this
      ensures |peerListUpdates| == |old(peerListUpdates)| + 1 && peerListUpdates[..|old(peerListUpdates)|] == old(peerListUpdates)
      ensures IsSortedIds(peerListUpdates[|old(peerListUpdates)|], peers.Keys)
      ensures peers == old(peers) && announcedToPeers == old(announcedToPeers) && events == old(events)
    {
      var peerList := SortedIds(peers.Keys);
      peerListUpdates := peerListUpdates + [peerList];
    }

    /** `removePeer`: `removePeerInternal` with notification. */
    method RemovePeer(peerId: Bytes)
      modifies this
      ensures peers == old(peers) - {peerId} && announcedToPeers == old(announcedToPeers) - {peerId}
      ensures peerId in old(peers) ==> events == old(events) + [PeerDisconnected(old(peers)[peerId].nickname)]
      ensures peerId in old(peers) ==>
        && |peerListUpdates| == |old(peerListUpdates)| + 1 && peerListUpdates[..|old(peerListUpdates)|] == old(peerListUpdates)
        && IsSortedIds(peerListUpdates[|old(peerListUpdates)|], peers.Keys)
      ensures peerId !in old(peers) ==> events == old(events) && peerListUpdates == old(peerListUpdates)
    {
      RemovePeerInternal(peerId, true);
    }

    /**
     * `removePeerInternal`: drops the record and the announced-to entry; when
     * notifying and a record existed, reports its nickname and publishes the
     * id list.
     */
    method RemovePeerInternal(peerId: Bytes, notifyDelegate: bool)
      modifies this
      ensures peers == old(peers) - {peerId} && announcedToPeers == old(announcedToPeers) - {peerId}
      ensures notifyDelegate && peerId in old(peers) ==> events == old(events) + [PeerDisconnected(old(peers)[peerId].nickname)]
      ensures notifyDelegate && peerId in old(peers) ==>
        && |peerListUpdates| == |old(peerListUpdates)| + 1 && peerListUpdates[..|old(peerListUpdates)|] == old(peerListUpdates)
        && IsSortedIds(peerListUpdates[|old(peerListUpdates)|], peers.Keys)
      ensures !(notifyDelegate && peerId in old(peers)) ==> events == old(events) && peerListUpdates == old(peerListUpdates)
    {
      var removedPeer := if peerId in peers then Some(peers[peerId]) else None;
      peers := peers - {peerId};
      announcedToPeers := announcedToPeers - {peerId};
      if notifyDelegate && removedPeer.Some? {
        events := events + [PeerDisconnected(removedPeer.value.nickname)];
        NotifyPeerListUpdate();
      }
    }

    /** One iteration of the sweep: removing `id`, the next stale peer, after those of `order`. */
    method DisconnectStale(id: Bytes, ghost peers0: map<Bytes, PeerState>, ghost announced0: set<Bytes>,
                           ghost events0: seq<PeerEvent>, ghost updates0: seq<seq<Bytes>>, ghost order: seq<Bytes>)
      requires id in peers0 && id !in order && forall x :: x in order ==> x in peers0
      requires peers == peers0 - Elements(order) && announcedToPeers == announced0 - Elements(order)
      requires events == events0 + Disconnections(peers0, order)
      requires |peerListUpdates| == |updates0| + |order| && peerListUpdates[..|updates0|] == updates0
      requires PublishedInTurn(peerListUpdates, |updates0|, peers0.Keys, order)
      modifies this
      ensures peers == peers0 - Elements(order + [id]) && announcedToPeers == announced0 - Elements(order + [id])
      ensures events == events0 + Disconnections(peers0, order + [id])
      ensures |peerListUpdates| == |updates0| + |order + [id]| && peerListUpdates[..|updates0|] == updates0
      ensures PublishedInTurn(peerListUpdates, |updates0|, peers0.Keys, order + [id])
    {
      assert id in peers && peers[id] == peers0[id];
      ghost var updatesBefore := peerListUpdates;
      RemovePeerInternal(id, true);
      DisconnectionsSnoc(peers0, order, id);
      assert peerListUpdates[..|updatesBefore|] == updatesBefore;
      assert peerListUpdates[..|updates0|] == updatesBefore[..|updates0|];
      assert Elements(order + [id]) == Elements(order) + {id};
      forall j | |updates0| <= j < |updates0| + |order + [id]|
        ensures IsSortedIds(peerListUpdates[j], peers0.Keys - Elements((order + [id])[..j - |updates0| + 1]))
      {
        if j < |updates0| + |order| {
          assert peerListUpdates[j] == updatesBefore[j];
          assert (order + [id])[..j - |updates0| + 1] == order[..j - |updates0| + 1];
        } else {
          assert (order + [id])[..j - |updates0| + 1] == order + [id];
          assert peers.Keys == peers0.Keys - Elements(order + [id]);
        }
      }
    }

    /** `getAllPeerNicknames`: each known id with its nickname. */
    function GetAllPeerNicknames(): (r: map<Bytes, Bytes>)
      reads this
      ensures r.Keys == peers.Keys
      ensures forall id :: id in r ==> r[id] == peers[id].nickname
    {
      map id | id in peers :: peers[id].nickname
    }

    /** `getActivePeerIDs`: the known ids in sorted order. */
    method GetActivePeerIds() returns (r: seq<Bytes>)
      ensures IsSortedIds(r, peers.Keys)
    {
      r := SortedIds(peers.Keys);
    }

    /**
     * `cleanupStalePeers`: removes, with notification, every peer last seen
     * more than three minutes ago. `order` is the order in which the map
     * yields them; each removal reports that peer and publishes the ids left.
     */
    method CleanupStalePeers(now: int) returns (ghost order: seq<Bytes>)
      modifies this
      ensures Distinct(order) && Elements(order) == StalePeers(old(peers), now)
      ensures peers == old(peers) - StalePeers(old(peers), now)
      ensures announcedToPeers == old(announcedToPeers) - StalePeers(old(peers), now)
      ensures events == old(events) + Disconnections(old(peers), order)
      ensures |peerListUpdates| == |old(peerListUpdates)| + |order|
      ensures peerListUpdates[..|old(peerListUpdates)|] == old(peerListUpdates)
      ensures PublishedInTurn(peerListUpdates, |old(peerListUpdates)|, old(peers).Keys, order)
    {
      var peersToRemove := ListOf(StalePeers(peers, now));
      order := peersToRemove;
      var i := 0;
      assert peers == old(peers) - Elements(peersToRemove[..0]);
      assert announcedToPeers == old(announcedToPeers) - Elements(peersToRemove[..0]);
      while i < |peersToRemove|
        invariant i <= |peersToRemove|
        invariant peers == old(peers) - Elements(peersToRemove[..i])
        invariant announcedToPeers == old(announcedToPeers) - Elements(peersToRemove[..i])
        invariant events == old(events) + Disconnections(old(peers), peersToRemove[..i])
        invariant |peerListUpdates| == |old(peerListUpdates)| + i
        invariant peerListUpdates[..|old(peerListUpdates)|] == old(peerListUpdates)
        invariant PublishedInTurn(peerListUpdates, |old(peerListUpdates)|, old(peers).Keys, peersToRemove[..i])
      {
        assert peersToRemove[..i + 1] == peersToRemove[..i] + [peersToRemove[i]];
        DisjointParts(peersToRemove, i, peersToRemove[i]);
        DisconnectStale(peersToRemove[i], old(peers), old(announcedToPeers), old(events), old(peerListUpdates), peersToRemove[..i]);
        i := i + 1;
      }
      assert peersToRemove[..i] == peersToRemove;
    }
  }
}
