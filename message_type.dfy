/** The one-byte packet type table and its reverse lookup `fromValue`. */
module MessageTypes {
  import opened Options
  import opened ByteSeq

  datatype MessageType =
    | Announce | KeyExchange | Leave | Message
    | FragmentStart | FragmentContinue | FragmentEnd
    | ChannelAnnounce | ChannelRetention
    | DeliveryAck | DeliveryStatusRequest | ReadReceipt
  {
    /** The wire value of the entry. */
    function Value(): byte {
      match this
      case Announce => 0x01
      case KeyExchange => 0x02
      case Leave => 0x03
      case Message => 0x04
      case FragmentStart => 0x05
      case FragmentContinue => 0x06
      case FragmentEnd => 0x07
      case ChannelAnnounce => 0x08
      case ChannelRetention => 0x09
      case DeliveryAck => 0x0A
      case DeliveryStatusRequest => 0x0B
      case ReadReceipt => 0x0C
    }

    predicate IsFragment() {
      this == FragmentStart || this == FragmentContinue || this == FragmentEnd
    }
  }

  /** The entries in declaration order (Kotlin `entries`). */
  const Entries: seq<MessageType> := [
    Announce, KeyExchange, Leave, Message, FragmentStart, FragmentContinue, FragmentEnd,
    ChannelAnnounce, ChannelRetention, DeliveryAck, DeliveryStatusRequest, ReadReceipt
  ]

  /** `entries.find { it.value == value }` over an arbitrary list of entries. */
  function Find(es: seq<MessageType>, v: byte): (r: Option<MessageType>)
    ensures r.Some? ==> r.value in es && r.value.Value() == v
    ensures r.None? ==> forall i :: 0 <= i < |es| ==> es[i].Value() != v
    ensures r.Some? ==> exists i :: 0 <= i < |es| && es[i] == r.value
                          && forall j :: 0 <= j < i ==> es[j].Value() != v
  {
    if |es| == 0 then None
    else if es[0].Value() == v then Some(es[0])
    else
      var rest := Find(es[1..], v);
      if rest.Some? then
        ghost var i :| 0 <= i < |es[1..]| && es[1..][i] == rest.value
                       && forall j :: 0 <= j < i ==> es[1..][j].Value() != v;
        assert es[i + 1] == rest.value;
        rest
      else rest
  }

  function FromValue(v: byte): (r: Option<MessageType>)
    ensures r.Some? ==> r.value.Value() == v
  {
    Find(Entries, v)
  }

  /** Every entry is in the table. */
  lemma EntriesComplete(e: MessageType)
    ensures e in Entries
  {
  }

  /** Wire values are pairwise distinct. */
  lemma ValueInjective(a: MessageType, b: MessageType)
    requires a.Value() == b.Value()
    ensures a == b
  {
  }

  /** `fromValue(e.value) == e` for every entry. */
  lemma FromValueOfValue(e: MessageType)
    ensures FromValue(e.Value()) == Some(e)
  {
    var r := FromValue(e.Value());
    EntriesComplete(e);
    ValueInjective(r.value, e);
  }

  /** Exactly the values 0x01..0x0C are known; 0 and everything from 0x0D on give null. */
  lemma FromValueDefined(v: byte)
    ensures FromValue(v).Some? <==> 1 <= v <= 12
  {
    if 1 <= v <= 12 {
      assert Entries[v - 1].Value() == v;
    } else {
      forall e: MessageType ensures e.Value() != v { }
    }
  }
}
