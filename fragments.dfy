/**
 * `FragmentManager`: an encoded packet longer than 500 bytes is sent as
 * numbered fragment packets, each carrying a 13-byte header (8-byte fragment
 * id, 16-bit index, 16-bit total, original type) and up to 487 bytes of the
 * encoding; the receiver collects fragments per id and decodes the
 * concatenation once as many fragments as announced have arrived.
 * Incomplete groups older than 30 seconds are dropped by a periodic cleanup.
 * Times are milliseconds on an arbitrary clock, passed in as `now`.
 */
module Fragments {
  import opened Options
  import opened ByteSeq
  import opened Packets
  import opened MessageTypes
  import opened BinaryCodec

  const MaxFragmentSize: nat := 500
  const FragmentHeaderSize: nat := 13
  const DataPerFragment: nat := MaxFragmentSize - FragmentHeaderSize
  /** `fragmentTimeout` (30 seconds) in milliseconds. */
  const FragmentTimeout: int := 30000

  /** `createFragmentPayload`: the first eight id bytes, index and total as 16-bit shorts, the type, the data. */
  function FragmentPayload(fragmentId: Bytes, index: int, total: int, originalType: byte, data: Bytes): (r: Bytes)
    ensures |r| == Min(|fragmentId|, 8) + 5 + |data|
  {
    Take(fragmentId, 8) + ToBE(index, 2) + ToBE(total, 2) + [originalType] + data
  }

  /** The fields `handleFragment` reads from a fragment payload. */
  datatype FragmentHeader = FragmentHeader(fragmentId: Bytes, index: int, total: int, originalType: byte, data: Bytes)

  /**
   * The reads of `handleFragment`: payloads under 13 bytes are refused;
   * `readShort().toInt()` sign-extends index and total.
   */
  function ParseFragment(payload: Bytes): (r: Option<FragmentHeader>)
    ensures r.Some? <==> |payload| >= FragmentHeaderSize
    ensures r.Some? ==> |r.value.fragmentId| == 8 && |r.value.data| == |payload| - FragmentHeaderSize
  {
    if |payload| < FragmentHeaderSize then None
    else
      Some(FragmentHeader(payload[..8], Signed16(FromBE(payload[8..10])), Signed16(FromBE(payload[10..12])),
                          payload[12], payload[13..]))
  }

  /** Index and total, being read as 16-bit signed shorts, lie in the `Short` range. */
  lemma ParsedRanges(payload: Bytes)
    requires |payload| >= FragmentHeaderSize
    ensures -32768 <= ParseFragment(payload).value.index < 32768
    ensures -32768 <= ParseFragment(payload).value.total < 32768
  {
    FromBEBound(payload[8..10]);
    FromBEBound(payload[10..12]);
    Pow256Values();
  }

  /** Reading a written fragment payload gives back the id prefix, the type, the data, and index and total as 16-bit signed values. */
  lemma ParseFragmentPayload(fragmentId: Bytes, index: int, total: int, originalType: byte, data: Bytes)
    requires |fragmentId| >= 8
    ensures ParseFragment(FragmentPayload(fragmentId, index, total, originalType, data))
            == Some(FragmentHeader(fragmentId[..8], Signed16(index % TwoTo16), Signed16(total % TwoTo16),
                                   originalType, data))
  {
    var s := FragmentPayload(fragmentId, index, total, originalType, data);
    var a, b := ToBE(index, 2), ToBE(total, 2);
    assert s == fragmentId[..8] + a + b + [originalType] + data;
    assert s[..8] == fragmentId[..8];
    assert s[8..10] == a;
    assert s[10..12] == b;
    assert s[12] == originalType;
    assert s[13..] == data;
    FromToBE(index, 2);
    FromToBE(total, 2);
    Pow256Values();
  }

  /** Indices and totals below 32768 are read back exactly. */
  lemma ParseFragmentPayloadExact(fragmentId: Bytes, index: int, total: int, originalType: byte, data: Bytes)
    requires |fragmentId| >= 8 && 0 <= index < 32768 && 0 <= total < 32768
    ensures ParseFragment(FragmentPayload(fragmentId, index, total, originalType, data))
            == Some(FragmentHeader(fragmentId[..8], index, total, originalType, data))
  {
    ParseFragmentPayload(fragmentId, index, total, originalType, data);
    DivModUnique(index, TwoTo16, 0, index);
    DivModUnique(total, TwoTo16, 0, total);
  }

  /** `(size + dataPerFragment - 1) / dataPerFragment`: the number of fragments, rounded up. */
  function FragmentCount(n: nat): (r: nat)
    ensures n > 0 ==> r >= 1
    ensures DataPerFragment * (r - 1) < n || n == 0
    ensures n <= DataPerFragment * r
  {
    (n + DataPerFragment - 1) / DataPerFragment
  }

  /** `sliceArray(start until end)` with `end = minOf(start + 487, size)`. */
  function Chunk(data: Bytes, index: nat): (r: Bytes)
    ensures |r| <= DataPerFragment
    ensures index < FragmentCount(|data|) ==> |r| >= 1
  {
    var start := Min(index * DataPerFragment, |data|);
    var end := Min(index * DataPerFragment + DataPerFragment, |data|);
    data[start..end]
  }

  /** `when (index)`: the first fragment is a start, the last an end, the others continuations. */
  function FragmentKind(index: int, total: int): MessageType {
    if index == 0 then FragmentStart
    else if index == total - 1 then FragmentEnd
    else FragmentContinue
  }

  /** The fragment packet number `index`: a copy of the packet with the fragment type and payload and no signature. */
  function FragmentPacket(p: Packet, fragmentId: Bytes, index: nat, total: nat): Packet {
    var data := Encoded(p);
    p.(ptype := FragmentKind(index, total).Value(),
       payload := FragmentPayload(fragmentId, index, total, p.ptype, Chunk(data, index)),
       signature := None)
  }

  /**
   * `createFragments`: the packet itself when its encoding fits in 500
   * bytes, else one fragment packet per 487-byte chunk of the encoding.
   * `fragmentId` stands for the text of a random UUID (36 characters).
   */
  function CreateFragments(p: Packet, fragmentId: Bytes): (r: seq<Packet>)
    ensures |Encoded(p)| <= MaxFragmentSize ==> r == [p]
    ensures |Encoded(p)| > MaxFragmentSize ==>
      && |r| == FragmentCount(|Encoded(p)|) >= 2
      && forall i :: 0 <= i < |r| ==> r[i] == FragmentPacket(p, fragmentId, i, |r|)
  {
    var data := Encoded(p);
    if |data| <= MaxFragmentSize then [p]
    else
      var total := FragmentCount(|data|);
      seq(total, index requires 0 <= index < total => FragmentPacket(p, fragmentId, index, total))
  }

  /** Every fragment differs from the packet only in type, payload and signature; its payload fits in 500 bytes. */
  lemma FragmentsShape(p: Packet, fragmentId: Bytes, i: nat)
    requires |Encoded(p)| > MaxFragmentSize && i < |CreateFragments(p, fragmentId)|
    ensures var f := CreateFragments(p, fragmentId)[i];
      && f == p.(ptype := f.ptype, payload := f.payload, signature := None)
      && |f.payload| <= MaxFragmentSize
      && (i == 0 ==> f.ptype == FragmentStart.Value())
      && (i == |CreateFragments(p, fragmentId)| - 1 ==> f.ptype == FragmentEnd.Value())
      && (0 < i < |CreateFragments(p, fragmentId)| - 1 ==> f.ptype == FragmentContinue.Value())
  {
  }

  /** The fragment payloads carry the encoding in order: the chunks concatenate to it. */
  function Chunks(data: Bytes, k: nat): Bytes {
    if k == 0 then [] else Chunks(data, k - 1) + Chunk(data, k - 1)
  }

  lemma {:induction false} ChunksPrefix(data: Bytes, k: nat)
    ensures Chunks(data, k) == data[..Min(k * DataPerFragment, |data|)]
  {
    if k > 0 {
      ChunksPrefix(data, k - 1);
      var a := Min((k - 1) * DataPerFragment, |data|);
      var b := Min(k * DataPerFragment, |data|);
      assert Chunk(data, k - 1) == data[a..b];
      assert data[..a] + data[a..b] == data[..b];
    }
  }

  /** All chunks together are the whole encoding. */
  lemma ChunksCover(data: Bytes)
    ensures Chunks(data, FragmentCount(|data|)) == data
  {
    ChunksPrefix(data, FragmentCount(|data|));
  }

  /** One group of incoming fragments. */
  datatype FragmentMetadata = FragmentMetadata(
    originalType: byte,
    totalFragments: int,
    timestamp: int,
    fragments: map<int, Bytes>)

  /** The first `k` fragments in index order, or null as soon as one is missing. */
  function Reassembled(fragments: map<int, Bytes>, k: nat): Option<Bytes> {
    if k == 0 then Some([])
    else match Reassembled(fragments, k - 1)
      case None => None
      case Some(prefix) => if k - 1 in fragments then Some(prefix + fragments[k - 1]) else None
  }

  /** Reassembly fails exactly when an index below `k` is missing. */
  lemma {:induction false} ReassembledMissing(fragments: map<int, Bytes>, k: nat)
    ensures Reassembled(fragments, k).None? <==> exists i :: 0 <= i < k && i !in fragments
  {
    if k > 0 {
      ReassembledMissing(fragments, k - 1);
      if k - 1 !in fragments {
        assert 0 <= k - 1 < k && k - 1 !in fragments;
      }
    }
  }

  /** With every index present, reassembly concatenates the fragments in index order. */
  lemma {:induction false} ReassembledChunks(data: Bytes, fragments: map<int, Bytes>, k: nat)
    requires forall i :: 0 <= i < k ==> i in fragments && fragments[i] == Chunk(data, i)
    ensures Reassembled(fragments, k) == Some(Chunks(data, k))
  {
    if k > 0 {
      ReassembledChunks(data, fragments, k - 1);
    }
  }

  /**
   * The bookkeeping of `handleFragment` as a function of the groups before
   * the call: the reassembled bytes when the packet completes a group (null
   * when it does not, or when an index is missing), and the groups after the
   * call. The group for an id is created on the first fragment seen (type,
   * total and time from it); a complete group is removed before reassembly,
   * whether or not reassembly succeeds.
   */
  function Accept(groups: map<Bytes, FragmentMetadata>, packet: Packet, now: int)
    : (Option<Bytes>, map<Bytes, FragmentMetadata>)
  {
    match ParseFragment(packet.payload)
    case None => (None, groups)
    case Some(h) =>
      var metadata := if h.fragmentId in groups then groups[h.fragmentId]
                      else FragmentMetadata(h.originalType, h.total, now, map[]);
      var updated := metadata.(fragments := metadata.fragments[h.index := h.data]);
      if |updated.fragments| == updated.totalFragments then
        (Reassembled(updated.fragments, updated.totalFragments), groups - {h.fragmentId})
      else (None, groups[h.fragmentId := updated])
  }

  /**
   * The result of `handleFragment`: the decoded reassembly. The surrounding
   * `catch` turns a throwing decode into null, so this is `Decode`.
   */
  function DecodeCompleted(completed: Option<Bytes>): (r: Option<Packet>)
    ensures completed.None? ==> r.None?
  {
    if completed.Some? then Decode(completed.value) else None
  }

  /** The groups that a cleanup at `now` keeps: those not older than the timeout. */
  function Unexpired(groups: map<Bytes, FragmentMetadata>, now: int): (r: map<Bytes, FragmentMetadata>)
  {
    map id | id in groups && groups[id].timestamp >= now - FragmentTimeout :: groups[id]
  }

  /** A cleanup keeps exactly the groups at most 30 seconds old, unchanged; a second cleanup at the same time or later changes nothing more than one at the later time. */
  lemma UnexpiredProperties(groups: map<Bytes, FragmentMetadata>, now: int, later: int)
    requires now <= later
    ensures forall id :: id in Unexpired(groups, now) <==> id in groups && now - groups[id].timestamp <= FragmentTimeout
    ensures forall id :: id in Unexpired(groups, now) ==> Unexpired(groups, now)[id] == groups[id]
    ensures Unexpired(Unexpired(groups, now), later) == Unexpired(groups, later)
  {
  }

  /**
   * Feeding the first `k` packets to `handleFragment` one after the other,
   * packet `i` at time `times[i]`: the completions, and the groups at the end.
   */
  function Feed(groups: map<Bytes, FragmentMetadata>, packets: seq<Packet>, times: seq<int>, k: nat)
    : (seq<Option<Bytes>>, map<Bytes, FragmentMetadata>)
    requires k <= |packets| == |times|
  {
    if k == 0 then ([], groups)
    else
      var (results, before) := Feed(groups, packets, times, k - 1);
      var (r, after) := Accept(before, packets[k - 1], times[k - 1]);
      (results + [r], after)
  }

  /** `k` null results. */
  function Nulls(k: nat): (r: seq<Option<Bytes>>)
    ensures |r| == k && forall i :: 0 <= i < k ==> r[i] == None
  {
    seq(k, _ => None)
  }

  lemma NullsSnoc(k: nat)
    ensures Nulls(k) + [None] == Nulls(k + 1)
  {
  }

  /** `order` lists each of `0 .. n-1` exactly once. */
  predicate IsPermutation(order: seq<nat>, n: nat) {
    && |order| == n
    && (forall k :: 0 <= k < n ==> order[k] < n)
    && (forall j, k :: 0 <= j < k < n ==> order[j] != order[k])
    && (forall i :: 0 <= i < n ==> i in order)
  }

  /** The packets in the order of arrival: `order[k]` is the index of the `k`-th one to arrive. */
  function Reordered(fs: seq<Packet>, order: seq<nat>): (r: seq<Packet>)
    requires forall k :: 0 <= k < |order| ==> order[k] < |fs|
    ensures |r| == |order| && forall k :: 0 <= k < |order| ==> r[k] == fs[order[k]]
  {
    seq(|order|, k requires 0 <= k < |order| => fs[order[k]])
  }

  /** The chunks received after the first `k` fragments of `order`. */
  function Received(data: Bytes, order: seq<nat>, k: nat): map<int, Bytes>
    requires k <= |order|
  {
    if k == 0 then map[] else Received(data, order, k - 1)[order[k - 1] := Chunk(data, order[k - 1])]
  }

  /** The chunks received are those of the first `k` indices of `order`, each under its own index. */
  lemma {:induction false} ReceivedContents(data: Bytes, order: seq<nat>, k: nat)
    requires k <= |order|
    ensures forall x :: x in Received(data, order, k) <==> exists j :: 0 <= j < k && order[j] == x
    ensures forall x :: x in Received(data, order, k) ==> x >= 0 && Received(data, order, k)[x] == Chunk(data, x)
  {
    if k > 0 {
      ReceivedContents(data, order, k - 1);
    }
  }

  lemma ReceivedNew(data: Bytes, order: seq<nat>, k: nat)
    requires k < |order|
    requires forall j :: 0 <= j < k ==> order[j] != order[k]
    ensures order[k] !in Received(data, order, k)
  {
    ReceivedContents(data, order, k);
  }

  lemma {:induction false} ReceivedSize(data: Bytes, order: seq<nat>, k: nat)
    requires k <= |order|
    requires forall i, j :: 0 <= i < j < |order| ==> order[i] != order[j]
    ensures |Received(data, order, k)| == k
  {
    if k > 0 {
      ReceivedSize(data, order, k - 1);
      ReceivedNew(data, order, k - 1);
    }
  }

  /** An encoded well-formed packet needs fewer than 32768 fragments, so index and total survive the 16-bit fields. */
  lemma EncodedLength(p: Packet)
    requires WellFormed(p)
    ensures |Encoded(p)| <= SenderOffset + SenderIdSize + RecipientIdSize + (TwoTo16 - 1) + SignatureSize
    ensures FragmentCount(|Encoded(p)|) < 32768
  {
  }

  /** What a fragment of the packet's own split reads as. */
  lemma ParseOwnFragment(p: Packet, fragmentId: Bytes, i: nat, total: nat)
    requires |fragmentId| >= 8 && i < total < 32768
    ensures ParseFragment(FragmentPacket(p, fragmentId, i, total).payload)
            == Some(FragmentHeader(fragmentId[..8], i, total, p.ptype, Chunk(Encoded(p), i)))
  {
    ParseFragmentPayloadExact(fragmentId, i, total, p.ptype, Chunk(Encoded(p), i));
  }

  /** A fragment with a new index for a group that stays incomplete is added to the group, with a null result. */
  lemma HandleAdds(groups: map<Bytes, FragmentMetadata>, packet: Packet, now: int,
                   id: Bytes, m: FragmentMetadata, index: int, chunk: Bytes)
    requires ParseFragment(packet.payload) == Some(FragmentHeader(id, index, m.totalFragments, m.originalType, chunk))
    requires id in groups && groups[id] == m
    requires index !in m.fragments && |m.fragments| + 1 < m.totalFragments
    ensures Accept(groups, packet, now) == (None, groups[id := m.(fragments := m.fragments[index := chunk])])
  {
    assert |m.fragments[index := chunk]| == |m.fragments| + 1;
  }

  /** The first fragment of an id opens its group with the fragment's type and total and the current time. */
  lemma HandleOpens(groups: map<Bytes, FragmentMetadata>, packet: Packet, now: int,
                    id: Bytes, originalType: byte, index: int, total: int, chunk: Bytes)
    requires ParseFragment(packet.payload) == Some(FragmentHeader(id, index, total, originalType, chunk))
    requires id !in groups && total != 1
    ensures Accept(groups, packet, now) == (None, groups[id := FragmentMetadata(originalType, total, now, map[index := chunk])])
  {
    assert map[][index := chunk] == map[index := chunk];
  }

  /** The fragment that completes a group removes the group and yields the decoded reassembly. */
  lemma HandleCompletes(groups: map<Bytes, FragmentMetadata>, packet: Packet, now: int,
                        id: Bytes, m: FragmentMetadata, index: int, chunk: Bytes, data: Bytes)
    requires ParseFragment(packet.payload) == Some(FragmentHeader(id, index, m.totalFragments, m.originalType, chunk))
    requires id in groups && groups[id] == m
    requires index !in m.fragments && |m.fragments| + 1 == m.totalFragments
    requires Reassembled(m.fragments[index := chunk], m.totalFragments) == Some(data)
    ensures Accept(groups, packet, now) == (Some(data), groups - {id})
  {
    assert |m.fragments[index := chunk]| == |m.fragments| + 1;
  }

  /** Feeding one more fragment of a group that stays incomplete adds it to the group and yields null. */
  lemma FeedMiddle(groups: map<Bytes, FragmentMetadata>, ps: seq<Packet>, times: seq<int>, k: nat,
                   id: Bytes, m: FragmentMetadata, index: int, chunk: Bytes)
    requires k < |ps| == |times|
    requires Feed(groups, ps, times, k) == (Nulls(k), groups[id := m])
    requires ParseFragment(ps[k].payload) == Some(FragmentHeader(id, index, m.totalFragments, m.originalType, chunk))
    requires index !in m.fragments && |m.fragments| + 1 < m.totalFragments
    ensures Feed(groups, ps, times, k + 1)
            == (Nulls(k + 1), groups[id := m.(fragments := m.fragments[index := chunk])])
  {
    HandleAdds(groups[id := m], ps[k], times[k], id, m, index, chunk);
    assert groups[id := m][id := m.(fragments := m.fragments[index := chunk])]
        == groups[id := m.(fragments := m.fragments[index := chunk])];
    NullsSnoc(k);
  }

  /** Feeding the first fragment of an id opens its group and yields null. */
  lemma FeedOpen(groups: map<Bytes, FragmentMetadata>, ps: seq<Packet>, times: seq<int>, k: nat,
                 id: Bytes, originalType: byte, index: int, total: int, chunk: Bytes)
    requires k < |ps| == |times|
    requires Feed(groups, ps, times, k) == (Nulls(k), groups)
    requires ParseFragment(ps[k].payload) == Some(FragmentHeader(id, index, total, originalType, chunk))
    requires id !in groups && total != 1
    ensures Feed(groups, ps, times, k + 1)
            == (Nulls(k + 1), groups[id := FragmentMetadata(originalType, total, times[k], map[index := chunk])])
  {
    HandleOpens(groups, ps[k], times[k], id, originalType, index, total, chunk);
    NullsSnoc(k);
  }

  /** The fragment that completes a group removes it and yields the decoded reassembly. */
  lemma FeedLast(groups: map<Bytes, FragmentMetadata>, ps: seq<Packet>, times: seq<int>,
                 id: Bytes, m: FragmentMetadata, index: int, chunk: Bytes, data: Bytes)
    requires 0 < |ps| == |times|
    requires Feed(groups, ps, times, |ps| - 1) == (Nulls(|ps| - 1), groups[id := m])
    requires ParseFragment(ps[|ps| - 1].payload) == Some(FragmentHeader(id, index, m.totalFragments, m.originalType, chunk))
    requires id !in groups && index !in m.fragments && |m.fragments| + 1 == m.totalFragments
    requires Reassembled(m.fragments[index := chunk], m.totalFragments) == Some(data)
    ensures Feed(groups, ps, times, |ps|) == (Nulls(|ps| - 1) + [Some(data)], groups)
  {
    var k := |ps| - 1;
    HandleCompletes(groups[id := m], ps[k], times[k], id, m, index, chunk, data);
    RemoveAdded(groups, id, m);
  }

  lemma RemoveAdded(groups: map<Bytes, FragmentMetadata>, id: Bytes, m: FragmentMetadata)
    requires id !in groups
    ensures groups[id := m] - {id} == groups
  {
  }

  /** After every index of a permutation has been received, each chunk is present under its own index. */
  lemma ReceivedAll(data: Bytes, order: seq<nat>, n: nat)
    requires IsPermutation(order, n)
    ensures forall i :: 0 <= i < n ==> i in Received(data, order, n) && Received(data, order, n)[i] == Chunk(data, i)
  {
    ReceivedContents(data, order, n);
    forall i | 0 <= i < n
      ensures i in Received(data, order, n)
    {
      assert i in order;
      var j :| 0 <= j < |order| && order[j] == i;
    }
  }

  /** Once every index has arrived, reassembly gives back the whole data. */
  lemma ReceivedReassembles(data: Bytes, order: seq<nat>, n: nat)
    requires IsPermutation(order, n) && n == FragmentCount(|data|) && n > 0
    ensures Reassembled(Received(data, order, n - 1)[order[n - 1] := Chunk(data, order[n - 1])], n) == Some(data)
  {
    ReceivedAll(data, order, n);
    ReassembledChunks(data, Received(data, order, n), n);
    ChunksCover(data);
    ReceivedLast(data, order, n);
  }

  lemma ReceivedLast(data: Bytes, order: seq<nat>, n: nat)
    requires 0 < n <= |order|
    ensures Received(data, order, n) == Received(data, order, n - 1)[order[n - 1] := Chunk(data, order[n - 1])]
  {
  }

  /** The fragment the `k`-th step feeds, as `handleFragment` reads it. */
  lemma FedFragment(p: Packet, fragmentId: Bytes, order: seq<nat>, ps: seq<Packet>, k: nat)
    requires WellFormed(p) && |Encoded(p)| > MaxFragmentSize && |fragmentId| >= 8
    requires IsPermutation(order, |CreateFragments(p, fragmentId)|) && k < |order|
    requires ps == Reordered(CreateFragments(p, fragmentId), order)
    ensures ParseFragment(ps[k].payload)
            == Some(FragmentHeader(fragmentId[..8], order[k], |order|, p.ptype, Chunk(Encoded(p), order[k])))
  {
    EncodedLength(p);
    ParseOwnFragment(p, fragmentId, order[k], |order|);
  }

  lemma ReceivedFirst(data: Bytes, order: seq<nat>)
    requires 0 < |order|
    ensures Received(data, order, 1) == map[order[0] := Chunk(data, order[0])]
  {
    assert map[][order[0] := Chunk(data, order[0])] == map[order[0] := Chunk(data, order[0])];
  }

  /**
   * Feeding `total` fragments of one id whose indices form a permutation,
   * starting from groups that do not hold the id, completes nothing before
   * the last one; the last one completes the group with the chunks in index
   * order and leaves the groups as they were.
   */
  lemma FeedPermutation(groups: map<Bytes, FragmentMetadata>, ps: seq<Packet>, times: seq<int>,
                        order: seq<nat>, data: Bytes, id: Bytes, originalType: byte)
    requires IsPermutation(order, |ps|) && |ps| >= 2 && |times| == |ps| && |ps| == FragmentCount(|data|)
    requires id !in groups
    requires forall k :: 0 <= k < |ps| ==>
      ParseFragment(ps[k].payload) == Some(FragmentHeader(id, order[k], |ps|, originalType, Chunk(data, order[k])))
    ensures Feed(groups, ps, times, |ps|) == (Nulls(|ps| - 1) + [Some(data)], groups)
  {
    FeedAllButLast(groups, ps, times, order, data, id, originalType);
    FeedCompletes(groups, ps, times, order, data, id, originalType);
  }

  /** The last fragment of the permutation completes the group. */
  lemma FeedCompletes(groups: map<Bytes, FragmentMetadata>, ps: seq<Packet>, times: seq<int>,
                      order: seq<nat>, data: Bytes, id: Bytes, originalType: byte)
    requires IsPermutation(order, |ps|) && |ps| >= 2 && |times| == |ps| && |ps| == FragmentCount(|data|)
    requires id !in groups
    requires Feed(groups, ps, times, |ps| - 1)
             == (Nulls(|ps| - 1), groups[id := FragmentMetadata(originalType, |ps|, times[0], Received(data, order, |ps| - 1))])
    requires ParseFragment(ps[|ps| - 1].payload)
             == Some(FragmentHeader(id, order[|ps| - 1], |ps|, originalType, Chunk(data, order[|ps| - 1])))
    ensures Feed(groups, ps, times, |ps|) == (Nulls(|ps| - 1) + [Some(data)], groups)
  {
    var total := |ps|;
    var k := total - 1;
    var m := FragmentMetadata(originalType, total, times[0], Received(data, order, k));
    var chunk := Chunk(data, order[k]);
    assert order[k] !in m.fragments && |m.fragments| + 1 == m.totalFragments by {
      ReceivedNew(data, order, k);
      ReceivedSize(data, order, k);
    }
    assert Reassembled(m.fragments[order[k] := chunk], m.totalFragments) == Some(data) by {
      ReceivedReassembles(data, order, total);
    }
    FeedLast(groups, ps, times, id, m, order[k], chunk, data);
  }

  /** Up to the last fragment, the group collects the chunks received so far. */
  lemma FeedAllButLast(groups: map<Bytes, FragmentMetadata>, ps: seq<Packet>, times: seq<int>,
                       order: seq<nat>, data: Bytes, id: Bytes, originalType: byte)
    requires IsPermutation(order, |ps|) && |ps| >= 2 && |times| == |ps|
    requires id !in groups
    requires forall k :: 0 <= k < |ps| ==>
      ParseFragment(ps[k].payload) == Some(FragmentHeader(id, order[k], |ps|, originalType, Chunk(data, order[k])))
    ensures Feed(groups, ps, times, |ps| - 1)
            == (Nulls(|ps| - 1), groups[id := FragmentMetadata(originalType, |ps|, times[0], Received(data, order, |ps| - 1))])
  {
    var total := |ps|;
    var m := FragmentMetadata(originalType, total, times[0], map[]);
    assert Feed(groups, ps, times, 0) == (Nulls(0), groups);
    FeedOpen(groups, ps, times, 0, id, originalType, order[0], total, Chunk(data, order[0]));
    ReceivedFirst(data, order);
    var k := 1;
    while k < total - 1
      invariant 1 <= k <= total - 1
      invariant Feed(groups, ps, times, k) == (Nulls(k), groups[id := m.(fragments := Received(data, order, k))])
    {
      ReceivedNew(data, order, k);
      ReceivedSize(data, order, k);
      FeedMiddle(groups, ps, times, k, id, m.(fragments := Received(data, order, k)), order[k], Chunk(data, order[k]));
      k := k + 1;
    }
  }

  /**
   * Feeding the fragments of a well-formed packet in any order, starting
   * from groups that do not hold its id, completes nothing before the last
   * fragment; the last one completes the group with the packet's encoding
   * and leaves the groups as they were.
   */
  lemma ReassemblesEncoding(p: Packet, fragmentId: Bytes, groups: map<Bytes, FragmentMetadata>,
                            order: seq<nat>, times: seq<int>)
    requires WellFormed(p) && |Encoded(p)| > MaxFragmentSize && |fragmentId| >= 8
    requires fragmentId[..8] !in groups
    requires IsPermutation(order, |CreateFragments(p, fragmentId)|) && |times| == |order|
    ensures Feed(groups, Reordered(CreateFragments(p, fragmentId), order), times, |order|)
            == (Nulls(|order| - 1) + [Some(Encoded(p))], groups)
  {
    OwnFragmentsParse(p, fragmentId, order);
    FeedPermutation(groups, Reordered(CreateFragments(p, fragmentId), order), times, order,
                    Encoded(p), fragmentId[..8], p.ptype);
  }

  /** The fragments of a packet, in the order of arrival, read as its chunks under a permutation of the indices. */
  lemma OwnFragmentsParse(p: Packet, fragmentId: Bytes, order: seq<nat>)
    requires WellFormed(p) && |Encoded(p)| > MaxFragmentSize && |fragmentId| >= 8
    requires IsPermutation(order, |CreateFragments(p, fragmentId)|)
    ensures var ps := Reordered(CreateFragments(p, fragmentId), order);
      && IsPermutation(order, |ps|) && |ps| >= 2 && |ps| == FragmentCount(|Encoded(p)|)
      && forall k :: 0 <= k < |ps| ==>
           ParseFragment(ps[k].payload)
           == Some(FragmentHeader(fragmentId[..8], order[k], |ps|, p.ptype, Chunk(Encoded(p), order[k])))
  {
    var ps := Reordered(CreateFragments(p, fragmentId), order);
    forall k | 0 <= k < |ps|
      ensures ParseFragment(ps[k].payload)
              == Some(FragmentHeader(fragmentId[..8], order[k], |ps|, p.ptype, Chunk(Encoded(p), order[k])))
    {
      FedFragment(p, fragmentId, order, ps, k);
    }
  }

  /** Decoding the completions: null everywhere but the last, which decodes to `q`. */
  lemma DecodeCompletions(completed: seq<Option<Bytes>>, e: Bytes, q: Packet)
    requires 0 < |completed| && completed == Nulls(|completed| - 1) + [Some(e)] && Decode(e) == Some(q)
    ensures forall k :: 0 <= k < |completed| - 1 ==> DecodeCompleted(completed[k]) == None
    ensures DecodeCompleted(completed[|completed| - 1]) == Some(q)
  {
  }

  /**
   * So `handleFragment` returns null for every fragment but the last and
   * the original packet for the last, whatever the order of arrival.
   */
  lemma ReassemblyInAnyOrder(p: Packet, fragmentId: Bytes, groups: map<Bytes, FragmentMetadata>,
                             order: seq<nat>, times: seq<int>)
    requires WellFormed(p) && |Encoded(p)| > MaxFragmentSize && |fragmentId| >= 8
    requires fragmentId[..8] !in groups
    requires IsPermutation(order, |CreateFragments(p, fragmentId)|) && |times| == |order|
    ensures var fs := CreateFragments(p, fragmentId);
      var (completed, after) := Feed(groups, Reordered(fs, order), times, |order|);
      && |completed| == |order|
      && (forall k :: 0 <= k < |order| - 1 ==> DecodeCompleted(completed[k]) == None)
      && DecodeCompleted(completed[|order| - 1]) == Some(p)
      && after == groups
  {
    ReassemblesEncoding(p, fragmentId, groups, order, times);
    RoundTrip(p);
    DecodeCompletions(Nulls(|order| - 1) + [Some(Encoded(p))], Encoded(p), p);
  }

  /** The receiving side: incomplete fragment groups by fragment id. */
  class FragmentManager {
    var incomingFragments: map<Bytes, FragmentMetadata>

    constructor()
      ensures incomingFragments == map[]
    {
      incomingFragments := map[];
    }

    /** `handleFragment`, reassembling with a loop over the indices. */
    method HandleFragment(packet: Packet, now: int) returns (r: Option<Packet>)
      modifies this
      ensures r == DecodeCompleted(Accept(old(incomingFragments), packet, now).0)
      ensures incomingFragments == Accept(old(incomingFragments), packet, now).1
    {
      if |packet.payload| < FragmentHeaderSize {
        return None;
      }
      var h := ParseFragment(packet.payload).value;
      var metadata: FragmentMetadata;
      if h.fragmentId in incomingFragments {
        metadata := incomingFragments[h.fragmentId];
      } else {
        metadata := FragmentMetadata(h.originalType, h.total, now, map[]);
      }
      metadata := metadata.(fragments := metadata.fragments[h.index := h.data]);
      incomingFragments := incomingFragments[h.fragmentId := metadata];
      if |metadata.fragments| != metadata.totalFragments {
        return None;
      }
      incomingFragments := incomingFragments - {h.fragmentId};
      assert incomingFragments == old(incomingFragments) - {h.fragmentId};
      var reassembled: Bytes := [];
      var i: nat := 0;
      while i < metadata.totalFragments
        invariant i <= metadata.totalFragments
        invariant Reassembled(metadata.fragments, i) == Some(reassembled)
      {
        if i !in metadata.fragments {
          ReassembledMissing(metadata.fragments, metadata.totalFragments);
          return None;
        }
        reassembled := reassembled + metadata.fragments[i];
        i := i + 1;
      }
      r := Decode(reassembled);
    }

    /** `cleanupOldFragments`: removes, one id at a time, every group older than the timeout. */
    method CleanupOldFragments(now: int)
      modifies this
      ensures incomingFragments == Unexpired(old(incomingFragments), now)
    {
      var cutoffTime := now - FragmentTimeout;
      var fragmentsToRemove := set id | id in incomingFragments && incomingFragments[id].timestamp < cutoffTime;
      while fragmentsToRemove != {}
        invariant fragmentsToRemove <= incomingFragments.Keys
        invariant forall id :: id in fragmentsToRemove ==> incomingFragments[id].timestamp < cutoffTime
        invariant forall id :: id in incomingFragments <==>
          id in old(incomingFragments) && (id in fragmentsToRemove || old(incomingFragments)[id].timestamp >= cutoffTime)
        invariant forall id :: id in incomingFragments ==> incomingFragments[id] == old(incomingFragments)[id]
        decreases |fragmentsToRemove|
      {
        var id :| id in fragmentsToRemove;
        incomingFragments := incomingFragments - {id};
        fragmentsToRemove := fragmentsToRemove - {id};
      }
      assert incomingFragments == Unexpired(old(incomingFragments), now);
    }
  }
}
