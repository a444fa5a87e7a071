/**
 * `BinarySerializer`: the packet wire format.
 *
 * Layout written by `encode`: version, type, ttl (one byte each), the 8-byte
 * big-endian timestamp, the flags byte, the 2-byte payload length (together
 * 14 bytes, although the code's HEADER_SIZE constant says 13 and is only used
 * in decode's length guard), then the sender id fixed to 8 bytes, the
 * recipient id fixed to 8 bytes when present, the payload, and the signature
 * cut to at most 64 bytes when present.
 */
module BinaryCodec {
  import opened Options
  import opened ByteSeq
  import opened Packets

  const HeaderSize: nat := 13
  const SenderIdSize: nat := 8
  const RecipientIdSize: nat := 8
  const SignatureSize: nat := 64

  /** Offset of the sender id: the real header length. */
  const SenderOffset: nat := 14

  const HasRecipient: bv8 := 0x01
  const HasSignature: bv8 := 0x02
  const IsCompressed: bv8 := 0x04

  predicate FlagSet(flags: byte, mask: bv8) {
    (flags as bv8) & mask != 0
  }

  /** `CompressionUtil.shouldCompress`: compression is switched off, so the encoder never compresses. */
  function ShouldCompress(payload: Bytes): bool {
    false
  }

  // ---------------------------------------------------------------- encoding

  function FlagsOf(p: Packet): (r: byte)
    ensures FlagSet(r, HasRecipient) <==> p.recipientId.Some?
    ensures FlagSet(r, HasSignature) <==> p.signature.Some?
    ensures !FlagSet(r, IsCompressed)
    ensures r < 4
  {
    ((if p.recipientId.Some? then HasRecipient else 0) | (if p.signature.Some? then HasSignature else 0)) as int
  }

  function Header(p: Packet): (r: Bytes)
    ensures |r| == SenderOffset
  {
    [p.version, p.ptype, p.ttl] + ToBE(p.timestamp, 8) + [FlagsOf(p)] + ToBE(|p.payload|, 2)
  }

  function RecipientField(p: Packet): Bytes {
    if p.recipientId.Some? then Fixed(p.recipientId.value, RecipientIdSize) else []
  }

  function SignatureField(p: Packet): Bytes {
    if p.signature.Some? then Take(p.signature.value, SignatureSize) else []
  }

  /** The bytes `encode` produces. */
  function Encoded(p: Packet): Bytes {
    Header(p) + Fixed(p.senderId, SenderIdSize) + RecipientField(p) + p.payload + SignatureField(p)
  }

  /** `encode`: the fields are appended one after the other to a fresh buffer. */
  method Encode(p: Packet) returns (r: Bytes)
    ensures r == Encoded(p)
  {
    var payload := p.payload;
    var isCompressed := ShouldCompress(payload);
    var buffer: Bytes := [];
    buffer := buffer + [p.version];
    buffer := buffer + [p.ptype];
    buffer := buffer + [p.ttl];
    buffer := buffer + ToBE(p.timestamp, 8);
    var flags: bv8 := 0;
    if p.recipientId.Some? { flags := flags | HasRecipient; }
    if p.signature.Some? { flags := flags | HasSignature; }
    if isCompressed { flags := flags | IsCompressed; }
    buffer := buffer + [flags as int];
    buffer := buffer + ToBE(|payload|, 2);
    assert flags as int == FlagsOf(p);
    assert buffer == Header(p);
    var senderBytes := Take(p.senderId, SenderIdSize);
    buffer := buffer + senderBytes;
    if |senderBytes| < SenderIdSize {
      buffer := buffer + Zeros(SenderIdSize - |senderBytes|);
    } else {
      assert Zeros(0) == [];
    }
    assert buffer == Header(p) + Fixed(p.senderId, SenderIdSize);
    if p.recipientId.Some? {
      var recipientBytes := Take(p.recipientId.value, RecipientIdSize);
      buffer := buffer + recipientBytes;
      if |recipientBytes| < RecipientIdSize {
        buffer := buffer + Zeros(RecipientIdSize - |recipientBytes|);
      } else {
        assert Zeros(0) == [];
      }
    }
    assert buffer == Header(p) + Fixed(p.senderId, SenderIdSize) + RecipientField(p);
    buffer := buffer + payload;
    if p.signature.Some? {
      buffer := buffer + Take(p.signature.value, SignatureSize);
    }
    r := buffer;
  }

  lemma Concat3<T>(a: seq<T>, b: seq<T>, c: seq<T>)
    ensures (a + b + c)[..|a|] == a
    ensures (a + b + c)[|a|..|a| + |b|] == b
    ensures (a + b + c)[|a| + |b|..] == c
  {
  }

  lemma EncodedSplit(p: Packet)
    ensures Encoded(p)[..SenderOffset] == Header(p)
    ensures Encoded(p)[SenderOffset..SenderOffset + SenderIdSize] == Fixed(p.senderId, SenderIdSize)
    ensures Encoded(p)[SenderOffset + SenderIdSize..] == RecipientField(p) + p.payload + SignatureField(p)
  {
    var h, f, t := Header(p), Fixed(p.senderId, SenderIdSize), RecipientField(p) + p.payload + SignatureField(p);
    assert Encoded(p) == h + f + t;
    Concat3(h, f, t);
  }

  lemma HeaderFields(p: Packet)
    ensures var h := Header(p);
      && h[0] == p.version && h[1] == p.ptype && h[2] == p.ttl
      && h[3..11] == ToBE(p.timestamp, 8)
      && h[11] == FlagsOf(p)
      && h[12..14] == ToBE(|p.payload|, 2)
  {
    var h := Header(p);
    assert h == [p.version, p.ptype, p.ttl] + ToBE(p.timestamp, 8) + [FlagsOf(p)] + ToBE(|p.payload|, 2);
  }

  /** The header fields sit at fixed offsets, in the order version, type, ttl, timestamp, flags, length. */
  lemma EncodedHeader(p: Packet)
    ensures var e := Encoded(p);
      && |e| >= SenderOffset + SenderIdSize
      && e[0] == p.version && e[1] == p.ptype && e[2] == p.ttl
      && FromBE(e[3..11]) == p.timestamp
      && e[11] == FlagsOf(p)
      && FromBE(e[12..14]) == |p.payload| % TwoTo16
      && e[14..22] == Fixed(p.senderId, SenderIdSize)
  {
    var e := Encoded(p);
    EncodedSplit(p);
    HeaderFields(p);
    assert e[3..11] == e[..SenderOffset][3..11];
    assert e[12..14] == e[..SenderOffset][12..14];
    assert e[11] == e[..SenderOffset][11];
    assert e[0] == e[..SenderOffset][0];
    assert e[1] == e[..SenderOffset][1];
    assert e[2] == e[..SenderOffset][2];
    Pow256Values();
    FromToBEFits(p.timestamp, 8);
    FromToBE(|p.payload|, 2);
  }

  /** The encoded length: 22 fixed bytes, 8 for a recipient, the payload and at most 64 signature bytes. */
  lemma EncodedLength(p: Packet)
    ensures |Encoded(p)| == 22 + (if p.recipientId.Some? then 8 else 0) + |p.payload|
                          + (if p.signature.Some? then Min(|p.signature.value|, 64) else 0)
  {
  }

  // ---------------------------------------------------------------- decoding

  /** What a call of `decode` ends in: a packet, a `null` return, or an exception that escapes it. */
  datatype DecodeOutcome = Decoded(packet: Packet) | Null | Throws

  function ReadU64(s: Bytes): (r: u64)
    requires |s| == 8
    ensures r == FromBE(s)
  {
    FromBEBound(s);
    FromBE(s)
  }

  /**
   * `decode` as written. Every okio read past the end raises EOFException,
   * which is caught and turned into null. On the compressed path the code
   * reads `payloadLength - 2` bytes; okio rejects a negative count with
   * IllegalArgumentException, which neither catch clause handles, so that
   * exception leaves `decode`. Otherwise the compressed path ends in null,
   * because `decompress` always returns null.
   */
  function DecodeResult(d: Bytes): DecodeOutcome {
    if |d| < HeaderSize + SenderIdSize then Null
    else if d[0] != 1 then Null
    else if |d| < SenderOffset + SenderIdSize then Null
    else
      var flags := d[11];
      var payloadLength := FromBE(d[12..14]);
      var hasRecipient := FlagSet(flags, HasRecipient);
      var hasSignature := FlagSet(flags, HasSignature);
      var isCompressed := FlagSet(flags, IsCompressed);
      var senderId := d[14..22];
      if hasRecipient && |d| < 30 then Null
      else
        var pos := if hasRecipient then 30 else 22;
        var recipientId := if hasRecipient then Some(d[22..30]) else None;
        if isCompressed then
          if |d| < pos + 2 then Null
          else if payloadLength < 2 then Throws
          else Null
        else if |d| < pos + payloadLength then Null
        else
          var end := pos + payloadLength;
          if hasSignature && |d| < end + SignatureSize then Null
          else
            Decoded(Packet(
              version := 1,
              ptype := d[1],
              senderId := senderId,
              recipientId := recipientId,
              timestamp := ReadU64(d[3..11]),
              payload := d[pos..end],
              signature := if hasSignature then Some(d[end..end + SignatureSize]) else None,
              ttl := d[2]))
  }

  /** `decode`, reading the fields through a cursor in the order the code does. */
  method DecodeAsWritten(d: Bytes) returns (o: DecodeOutcome)
    ensures o == DecodeResult(d)
  {
    if |d| < HeaderSize + SenderIdSize { return Null; }
    var pos := 0;
    var version := d[pos]; pos := pos + 1;
    if version != 1 { return Null; }
    var ptype := d[pos]; pos := pos + 1;
    var ttl := d[pos]; pos := pos + 1;
    var timestamp := ReadU64(d[pos..pos + 8]); pos := pos + 8;
    var flags := d[pos]; pos := pos + 1;
    var payloadLength := FromBE(d[pos..pos + 2]); pos := pos + 2;
    var hasRecipient := FlagSet(flags, HasRecipient);
    var hasSignature := FlagSet(flags, HasSignature);
    var isCompressed := FlagSet(flags, IsCompressed);
    if |d| - pos < SenderIdSize { return Null; }
    var senderId := d[pos..pos + SenderIdSize]; pos := pos + SenderIdSize;
    var recipientId: Option<Bytes> := None;
    if hasRecipient {
      if |d| - pos < RecipientIdSize { return Null; }
      recipientId := Some(d[pos..pos + RecipientIdSize]); pos := pos + RecipientIdSize;
    }
    var payloadData: Bytes;
    if isCompressed {
      if |d| - pos < 2 { return Null; }
      pos := pos + 2;
      if payloadLength < 2 { return Throws; }  // readByteArray(payloadLength - 2) with a negative count
      // EOF on the compressed bytes, or `decompress` returning null: both end in null
      return Null;
    } else {
      if |d| - pos < payloadLength { return Null; }
      payloadData := d[pos..pos + payloadLength]; pos := pos + payloadLength;
    }
    var signature: Option<Bytes> := None;
    if hasSignature {
      if |d| - pos < SignatureSize { return Null; }
      signature := Some(d[pos..pos + SignatureSize]);
    }
    o := Decoded(Packet(1, ptype, senderId, recipientId, timestamp, payloadData, signature, ttl));
  }

  /** `decode` as evidently intended: total, every failure is null. */
  function Decode(d: Bytes): (r: Option<Packet>)
    ensures r.Some? <==> DecodeResult(d).Decoded?
    ensures r.Some? ==> r.value == DecodeResult(d).packet
  {
    match DecodeResult(d)
    case Decoded(p) => Some(p)
    case Null => None
    case Throws => None
  }

  /** The shape of every packet `decode` returns, and the shape the round trip needs. */
  predicate WellFormed(p: Packet) {
    && p.version == 1
    && |p.senderId| == SenderIdSize
    && (p.recipientId.Some? ==> |p.recipientId.value| == RecipientIdSize)
    && (p.signature.Some? ==> |p.signature.value| == SignatureSize)
    && |p.payload| < TwoTo16
  }

  /** Inputs shorter than 21 bytes, or whose version byte is not 1, decode to null. */
  lemma DecodeRejectsShortOrUnknownVersion(d: Bytes)
    requires |d| < 21 || (|d| > 0 && d[0] != 1)
    ensures DecodeResult(d) == Null && Decode(d) == None
  {
  }

  /** A set compressed flag never yields a packet. */
  lemma DecodeCompressedNeverSucceeds(d: Bytes)
    requires |d| >= 22 && FlagSet(d[11], IsCompressed)
    ensures Decode(d) == None
  {
  }

  /** Every decoded packet is well formed. */
  lemma DecodedIsWellFormed(d: Bytes)
    requires DecodeResult(d).Decoded?
    ensures WellFormed(DecodeResult(d).packet)
  {
    FromBEBound(d[12..14]);
  }

  /** Bytes after the declared fields are never looked at. */
  lemma DecodeIgnoresTrailingBytes(d: Bytes, extra: Bytes)
    requires DecodeResult(d).Decoded?
    ensures DecodeResult(d + extra) == DecodeResult(d)
  {
    var e := d + extra;
    assert e[12..14] == d[12..14];
    assert e[3..11] == d[3..11];
    assert e[14..22] == d[14..22];
    if FlagSet(d[11], HasRecipient) {
      assert e[22..30] == d[22..30];
    }
    var pos := if FlagSet(d[11], HasRecipient) then 30 else 22;
    var end := pos + FromBE(d[12..14]);
    assert e[pos..end] == d[pos..end];
    if FlagSet(d[11], HasSignature) {
      assert e[end..end + 64] == d[end..end + 64];
    }
  }

  /** Where the recipient, payload and signature sit in the encoding, for a well-formed packet. */
  lemma EncodedBody(p: Packet)
    requires WellFormed(p)
    ensures var e := Encoded(p);
      var pos := if p.recipientId.Some? then 30 else 22;
      var end := pos + |p.payload|;
      && |e| == end + (if p.signature.Some? then SignatureSize else 0)
      && e[14..22] == p.senderId
      && (p.recipientId.Some? ==> e[22..30] == p.recipientId.value)
      && e[pos..end] == p.payload
      && (p.signature.Some? ==> e[end..end + SignatureSize] == p.signature.value)
  {
    var e := Encoded(p);
    EncodedSplit(p);
    assert Fixed(p.senderId, SenderIdSize) == p.senderId;
    var r, s := RecipientField(p), SignatureField(p);
    if p.recipientId.Some? {
      assert Fixed(p.recipientId.value, RecipientIdSize) == p.recipientId.value;
    }
    if p.signature.Some? {
      assert Take(p.signature.value, SignatureSize) == p.signature.value;
    }
    var t := e[22..];
    assert t == r + p.payload + s;
    Concat3(r, p.payload, s);
    var pos := if p.recipientId.Some? then 30 else 22;
    assert e[pos..pos + |p.payload|] == t[|r|..|r| + |p.payload|];
    assert e[pos + |p.payload|..] == t[|r| + |p.payload|..];
    if p.recipientId.Some? {
      assert e[22..30] == t[..|r|];
    }
  }

  /** Round trip: a well-formed packet decodes back to itself. */
  lemma RoundTrip(p: Packet)
    requires WellFormed(p)
    ensures DecodeResult(Encoded(p)) == Decoded(p)
    ensures Decode(Encoded(p)) == Some(p)
  {
    var e := Encoded(p);
    EncodedHeader(p);
    EncodedBody(p);
    FromToBEFits(|p.payload|, 2);
    assert FlagSet(e[11], HasRecipient) == p.recipientId.Some?;
    assert FlagSet(e[11], HasSignature) == p.signature.Some?;
    assert !FlagSet(e[11], IsCompressed);
    assert FromBE(e[12..14]) == |p.payload|;
    assert ReadU64(e[3..11]) == p.timestamp;
  }

  lemma LowFlagBits(x: bv8)
    ensures x & 0x03 == (if x & HasRecipient != 0 then HasRecipient else 0) | (if x & HasSignature != 0 then HasSignature else 0)
  {
  }

  /** Where each field of a decoded packet was read from. */
  lemma DecodedFields(d: Bytes)
    requires DecodeResult(d).Decoded?
    ensures var p := DecodeResult(d).packet;
      var pos := if p.recipientId.Some? then 30 else 22;
      var end := pos + |p.payload|;
      && |d| >= end + (if p.signature.Some? then SignatureSize else 0)
      && p.version == d[0] && p.ptype == d[1] && p.ttl == d[2]
      && p.timestamp == FromBE(d[3..11])
      && |p.payload| == FromBE(d[12..14])
      && (p.recipientId.Some? <==> FlagSet(d[11], HasRecipient))
      && (p.signature.Some? <==> FlagSet(d[11], HasSignature))
      && p.senderId == d[14..22]
      && (p.recipientId.Some? ==> p.recipientId.value == d[22..30])
      && p.payload == d[pos..end]
      && (p.signature.Some? ==> p.signature.value == d[end..end + SignatureSize])
  {
  }

  /** The header bytes of the encoding in terms of a decoded packet's input. */
  lemma EncodedHeaderFromInput(d: Bytes)
    requires DecodeResult(d).Decoded?
    ensures var p := DecodeResult(d).packet;
      var e := Encoded(p);
      && |e| >= SenderOffset
      && e[..3] == d[..3] && e[3..11] == d[3..11] && e[11] == FlagsOf(p) && e[12..14] == d[12..14]
  {
    var p := DecodeResult(d).packet;
    var e := Encoded(p);
    DecodedFields(d);
    EncodedSplit(p);
    HeaderFields(p);
    ToBEOfFromBE(d[12..14]);
    ToBEOfFromBE(d[3..11]);
    assert e[3..11] == Header(p)[3..11];
    assert e[12..14] == Header(p)[12..14];
    assert e[..3] == Header(p)[..3];
  }

  /** The sender, recipient, payload and signature bytes of the encoding in terms of a decoded packet's input. */
  lemma EncodedBodyFromInput(d: Bytes)
    requires DecodeResult(d).Decoded?
    ensures var p := DecodeResult(d).packet;
      var e := Encoded(p);
      var pos := if p.recipientId.Some? then 30 else 22;
      var end := pos + |p.payload|;
      && |e| == end + (if p.signature.Some? then SignatureSize else 0) && |e| <= |d|
      && e[14..pos] == d[14..pos] && e[pos..end] == d[pos..end] && e[end..] == d[end..|e|]
  {
    DecodedFields(d);
    DecodedIsWellFormed(d);
    BodyMatches(DecodeResult(d).packet, d);
  }

  /** A well-formed packet whose fields were read from `d` encodes them back to the same bytes. */
  lemma BodyMatches(p: Packet, d: Bytes)
    requires WellFormed(p)
    requires var pos := if p.recipientId.Some? then 30 else 22;
      var end := pos + |p.payload|;
      && |d| >= end + (if p.signature.Some? then SignatureSize else 0)
      && p.senderId == d[14..22]
      && (p.recipientId.Some? ==> p.recipientId.value == d[22..30])
      && p.payload == d[pos..end]
      && (p.signature.Some? ==> p.signature.value == d[end..end + SignatureSize])
    ensures var e := Encoded(p);
      var pos := if p.recipientId.Some? then 30 else 22;
      var end := pos + |p.payload|;
      && |e| == end + (if p.signature.Some? then SignatureSize else 0) && |e| <= |d|
      && e[14..pos] == d[14..pos] && e[pos..end] == d[pos..end] && e[end..] == d[end..|e|]
  {
    var e := Encoded(p);
    EncodedBody(p);
    var pos := if p.recipientId.Some? then 30 else 22;
    if p.recipientId.Some? {
      assert e[14..pos] == e[14..22] + e[22..30];
      assert d[14..pos] == d[14..22] + d[22..30];
    }
  }

  /** The bytes of the encoding, field by field, in terms of a decoded packet's input. */
  lemma EncodedFromInput(d: Bytes)
    requires DecodeResult(d).Decoded?
    ensures var p := DecodeResult(d).packet;
      var e := Encoded(p);
      var pos := if p.recipientId.Some? then 30 else 22;
      var end := pos + |p.payload|;
      && |e| == end + (if p.signature.Some? then SignatureSize else 0) && |e| <= |d|
      && e[..3] == d[..3] && e[3..11] == d[3..11] && e[11] == FlagsOf(p) && e[12..14] == d[12..14]
      && e[14..pos] == d[14..pos] && e[pos..end] == d[pos..end] && e[end..] == d[end..|e|]
  {
    EncodedHeaderFromInput(d);
    EncodedBodyFromInput(d);
  }

  /** Re-encoding a decoded packet reproduces every byte of the input it read, except flag bits the decoder ignores. */
  lemma DecodeThenEncode(d: Bytes)
    requires DecodeResult(d).Decoded?
    ensures var e := Encoded(DecodeResult(d).packet);
      && |e| <= |d|
      && (forall i :: 0 <= i < |e| && i != 11 ==> e[i] == d[i])
      && e[11] == ((d[11] as bv8) & 0x03) as int
  {
    var p := DecodeResult(d).packet;
    var e := Encoded(p);
    EncodedFromInput(d);
    DecodedFields(d);
    var pos := if p.recipientId.Some? then 30 else 22;
    var end := pos + |p.payload|;
    BytesAgree(e, d, pos, end);
    LowFlagBits(d[11] as bv8);
  }

  lemma BytesAgree(e: Bytes, d: Bytes, pos: nat, end: nat)
    requires 14 <= pos <= end <= |e| <= |d|
    requires e[..3] == d[..3] && e[3..11] == d[3..11] && e[12..14] == d[12..14]
    requires e[14..pos] == d[14..pos] && e[pos..end] == d[pos..end] && e[end..] == d[end..|e|]
    ensures forall i :: 0 <= i < |e| && i != 11 ==> e[i] == d[i]
  {
    SameSlice(e, d, 0, 3);
    SameSlice(e, d, 3, 11);
    SameSlice(e, d, 12, 14);
    SameSlice(e, d, 14, pos);
    SameSlice(e, d, pos, end);
    SameSlice(e, d, end, |e|);
  }

  lemma SameSlice(e: Bytes, d: Bytes, lo: nat, hi: nat)
    requires lo <= hi <= |e| && hi <= |d| && e[lo..hi] == d[lo..hi]
    ensures forall i :: lo <= i < hi ==> e[i] == d[i]
  {
    forall i | lo <= i < hi
      ensures e[i] == d[i]
    {
      assert e[i] == e[lo..hi][i - lo];
    }
  }

  lemma {:induction false} ToBEOfFromBE(s: Bytes)
    ensures ToBE(FromBE(s), |s|) == s
  {
    if |s| > 0 {
      var init := s[..|s| - 1];
      ToBEOfFromBE(init);
      var v := FromBE(s);
      assert v == FromBE(init) * 256 + s[|s| - 1];
      assert v / 256 == FromBE(init) && v % 256 == s[|s| - 1];
    }
  }

  /** Finding: a compressed-flag packet whose payload length field is 0 makes `decode` throw. */
  lemma DecodeThrowsOnShortCompressedPayload()
    ensures DecodeResult([1, 4, 1, 0, 0, 0, 0, 0, 0, 0, 0, 0x04, 0, 0] + Zeros(8) + [0, 0]) == Throws
  {
    var d := [1, 4, 1, 0, 0, 0, 0, 0, 0, 0, 0, 0x04, 0, 0] + Zeros(8) + [0, 0];
    assert d[12..14] == [0, 0];
    assert FromBE(d[12..14]) == 0 by {
      assert d[12..14][..1] == [0];
      assert FromBE([0]) == FromBE([]) * 256 + 0;
    }
  }
}
