/**
 * `MessagePayloadSerializer`: the body of a MESSAGE packet.
 *
 * Layout: a flags byte, the 8-byte big-endian timestamp, the id and the
 * sender as short fields (1-byte length, at most 255 bytes), the content or
 * the encrypted bytes as a long field (2-byte length, at most 65535 bytes),
 * then original sender, recipient nickname, sender peer id, the mention list
 * (a count byte and that many short fields) and the channel, each only when
 * its flag is set. Values over a length cap are cut, so the codec is lossy.
 */
module PayloadCodec {
  import opened Options
  import opened ByteSeq

  /** `DeliveryStatus`, with instants as epoch milliseconds. */
  datatype DeliveryStatus =
    | Sending
    | Sent
    | Delivered(to: Bytes, at: int)
    | Read(reader: Bytes, at: int)
    | Failed(reason: Bytes)
    | PartiallyDelivered(reached: int, total: int)

  /** `BitchatMessage`, strings as UTF-8 bytes and the timestamp as epoch milliseconds. */
  datatype Message = Message(
    id: Bytes,
    sender: Bytes,
    content: Bytes,
    timestamp: Long,
    isRelay: bool,
    originalSender: Option<Bytes>,
    isPrivate: bool,
    recipientNickname: Option<Bytes>,
    senderPeerId: Bytes,
    mentions: seq<Bytes>,
    channel: Option<Bytes>,
    encryptedContent: Option<Bytes>,
    isEncrypted: bool,
    deliveryStatus: Option<DeliveryStatus>)

  const RelayBit: bv8 := 0x01
  const PrivateBit: bv8 := 0x02
  const OriginalSenderBit: bv8 := 0x04
  const RecipientNicknameBit: bv8 := 0x08
  const SenderPeerIdBit: bv8 := 0x10
  const MentionsBit: bv8 := 0x20
  const ChannelBit: bv8 := 0x40
  const EncryptedBit: bv8 := 0x80

  const ShortCap: nat := 255
  const LongCap: nat := 65535

  /** The ASCII characters Kotlin's `isWhitespace` accepts. */
  predicate IsWhitespace(b: byte) {
    b == 32 || 9 <= b <= 13 || 28 <= b <= 31
  }

  /** `isBlank`: every character is whitespace (true of the empty string). */
  predicate Blank(s: Bytes) {
    |s| == 0 || (IsWhitespace(s[0]) && Blank(s[1..]))
  }

  predicate NotBlank(s: Bytes) {
    !Blank(s)
  }

  // ---------------------------------------------------------------- encoding

  /** The eight flags of a payload, as the decoder names them. */
  datatype PayloadFlagSet = PayloadFlagSet(
    isRelay: bool, isPrivate: bool, hasOriginalSender: bool, hasRecipientNickname: bool,
    hasSenderPeerId: bool, hasMentions: bool, hasChannel: bool, isEncrypted: bool)

  /** Reading the flags byte: bit `mask` set means the flag holds. */
  function UnpackFlags(b: byte): PayloadFlagSet {
    var f := b as bv8;
    PayloadFlagSet(
      f & RelayBit != 0, f & PrivateBit != 0, f & OriginalSenderBit != 0, f & RecipientNicknameBit != 0,
      f & SenderPeerIdBit != 0, f & MentionsBit != 0, f & ChannelBit != 0, f & EncryptedBit != 0)
  }

  /** Eight booleans as the bits 0x01 .. 0x80 of one byte. */
  function Pack(b0: bool, b1: bool, b2: bool, b3: bool, b4: bool, b5: bool, b6: bool, b7: bool): (r: bv8)
    ensures (r & RelayBit != 0) == b0 && (r & PrivateBit != 0) == b1
    ensures (r & OriginalSenderBit != 0) == b2 && (r & RecipientNicknameBit != 0) == b3
    ensures (r & SenderPeerIdBit != 0) == b4 && (r & MentionsBit != 0) == b5
    ensures (r & ChannelBit != 0) == b6 && (r & EncryptedBit != 0) == b7
  {
    (if b0 then RelayBit else 0) | (if b1 then PrivateBit else 0)
    | (if b2 then OriginalSenderBit else 0) | (if b3 then RecipientNicknameBit else 0)
    | (if b4 then SenderPeerIdBit else 0) | (if b5 then MentionsBit else 0)
    | (if b6 then ChannelBit else 0) | (if b7 then EncryptedBit else 0)
  }

  /** Writing the flags byte: the masks of the flags that hold, OR-ed together. */
  function PackFlags(f: PayloadFlagSet): (r: byte)
    ensures UnpackFlags(r) == f
  {
    var v := Pack(f.isRelay, f.isPrivate, f.hasOriginalSender, f.hasRecipientNickname,
                  f.hasSenderPeerId, f.hasMentions, f.hasChannel, f.isEncrypted);
    ByteOfBits(v);
    v as int
  }

  lemma ByteOfBits(f: bv8)
    ensures f as int < 256 && (f as int) as bv8 == f
  {
  }

  /** Which parts of a message `encodeToPayload` flags. */
  function FlagsOfMessage(m: Message): PayloadFlagSet {
    PayloadFlagSet(
      m.isRelay, m.isPrivate, m.originalSender.Some?, m.recipientNickname.Some?,
      NotBlank(m.senderPeerId), |m.mentions| > 0, m.channel.Some?, m.isEncrypted)
  }

  /** The flags byte of a message: reading it back gives one flag per optional part. */
  function PayloadFlags(m: Message): (r: byte)
    ensures UnpackFlags(r) == FlagsOfMessage(m)
  {
    PackFlags(FlagsOfMessage(m))
  }

  /**
   * `writeVariableString` / `writeVariableByteArray` (the two write the same
   * bytes): the length, capped at 255 (short) or 65535 (long), as one or two
   * big-endian bytes, then that many bytes of the value.
   */
  function VariableField(value: Bytes, isShort: bool): (r: Bytes)
    ensures |r| == (if isShort then 1 else 2) + Min(|value|, if isShort then ShortCap else LongCap)
  {
    var cap := if isShort then ShortCap else LongCap;
    ToBE(Min(|value|, cap), if isShort then 1 else 2) + Take(value, cap)
  }

  /** A variable field is its capped length, big-endian, followed by the capped value. */
  lemma VariableFieldShape(value: Bytes, isShort: bool)
    ensures var cap := if isShort then ShortCap else LongCap;
      var k := if isShort then 1 else 2;
      var r := VariableField(value, isShort);
      && FromBE(r[..k]) == Min(|value|, cap)
      && r[k..] == Take(value, cap)
  {
    var cap := if isShort then ShortCap else LongCap;
    var k := if isShort then 1 else 2;
    var n := Min(|value|, cap);
    var prefix, body := ToBE(n, k), Take(value, cap);
    Pow256Values();
    assert n < Pow256(k);
    FromToBEFits(n, k);
    assert VariableField(value, isShort) == prefix + body;
    PrefixSlices(prefix, body);
  }

  lemma PrefixSlices(prefix: Bytes, body: Bytes)
    ensures (prefix + body)[..|prefix|] == prefix && (prefix + body)[|prefix|..] == body
  {
  }

  /** A nullable field: absent values write nothing (their presence is a flag bit). */
  function OptionalField(o: Option<Bytes>, isShort: bool := true): Bytes {
    if o.Some? then VariableField(o.value, isShort) else []
  }

  /** The mention strings, each as a short field, in order. */
  function MentionFields(ms: seq<Bytes>): Bytes {
    if |ms| == 0 then [] else VariableField(ms[0], true) + MentionFields(ms[1..])
  }

  function CappedMentions(ms: seq<Bytes>): seq<Bytes> {
    ms[..Min(|ms|, ShortCap)]
  }

  function MentionsField(ms: seq<Bytes>): Bytes {
    if |ms| == 0 then [] else [Min(|ms|, ShortCap)] + MentionFields(CappedMentions(ms))
  }

  function ContentField(m: Message): Bytes {
    if m.isEncrypted then
      OptionalField(m.encryptedContent, false)
    else VariableField(m.content, false)
  }

  function PeerIdField(m: Message): Bytes {
    if NotBlank(m.senderPeerId) then VariableField(m.senderPeerId, true) else []
  }

  function TailFields(m: Message): Bytes {
    OptionalField(m.originalSender) + OptionalField(m.recipientNickname) + PeerIdField(m)
    + MentionsField(m.mentions) + OptionalField(m.channel)
  }

  /** The bytes `encodeToPayload` produces. */
  function EncodedPayload(m: Message): Bytes {
    [PayloadFlags(m)] + ToBE(m.timestamp, 8) + VariableField(m.id, true) + VariableField(m.sender, true)
    + ContentField(m) + TailFields(m)
  }

  lemma Assoc<T>(a: seq<T>, b: seq<T>, c: seq<T>)
    ensures a + b + c == a + (b + c)
  {
  }

  lemma MentionFieldsAppend(ms: seq<Bytes>, x: Bytes)
    ensures MentionFields(ms + [x]) == MentionFields(ms) + VariableField(x, true)
  {
    if |ms| > 0 {
      assert (ms + [x])[1..] == ms[1..] + [x];
      MentionFieldsAppend(ms[1..], x);
    } else {
      assert ([] + [x])[1..] == [];
    }
  }

  /** `writeVariableString` / `writeVariableByteArray` on the buffer. */
  method WriteVariable(buffer: Bytes, value: Bytes, isShort: bool) returns (r: Bytes)
    ensures r == buffer + VariableField(value, isShort)
  {
    var length := Min(|value|, if isShort then ShortCap else LongCap);
    r := buffer + ToBE(length, if isShort then 1 else 2);
    r := r + value[..length];
  }

  /** `value?.let { writeVariableString(it) }`: written only when present. */
  method WriteOptional(buffer: Bytes, value: Option<Bytes>, isShort: bool) returns (r: Bytes)
    ensures r == buffer + OptionalField(value, isShort)
  {
    if value.Some? {
      r := WriteVariable(buffer, value.value, isShort);
    } else {
      assert buffer + OptionalField(value, isShort) == buffer;
      r := buffer;
    }
  }

  /** `forEach { writeVariableString(it) }`: each mention as a short field, in order. */
  method WriteEach(buffer: Bytes, ms: seq<Bytes>) returns (r: Bytes)
    ensures r == buffer + MentionFields(ms)
  {
    r := buffer;
    var i := 0;
    while i < |ms|
      invariant 0 <= i <= |ms|
      invariant r == buffer + MentionFields(ms[..i])
    {
      MentionFieldsAppend(ms[..i], ms[i]);
      assert ms[..i + 1] == ms[..i] + [ms[i]];
      r := WriteVariable(r, ms[i], true);
      i := i + 1;
    }
    assert ms[..i] == ms;
  }

  /** The mention block of `encodeToPayload`: a count byte, then the first 255 mentions. */
  method WriteMentions(buffer: Bytes, mentions: seq<Bytes>) returns (r: Bytes)
    ensures r == buffer + MentionsField(mentions)
  {
    if |mentions| == 0 {
      assert buffer + MentionsField(mentions) == buffer;
      return buffer;
    }
    var n: byte := Min(|mentions|, ShortCap);
    r := buffer + [n];
    r := WriteEach(r, mentions[..n]);
    assert r == buffer + ([n] + MentionFields(mentions[..n]));
  }

  /** The flag byte of `encodeToPayload`: one bit OR-ed in per optional part. */
  method FlagByte(m: Message) returns (r: byte)
    ensures r == PayloadFlags(m)
  {
    var flags: bv8 := 0;
    if m.isRelay { flags := flags | RelayBit; }
    if m.isPrivate { flags := flags | PrivateBit; }
    if m.originalSender.Some? { flags := flags | OriginalSenderBit; }
    if m.recipientNickname.Some? { flags := flags | RecipientNicknameBit; }
    if NotBlank(m.senderPeerId) { flags := flags | SenderPeerIdBit; }
    if |m.mentions| > 0 { flags := flags | MentionsBit; }
    if m.channel.Some? { flags := flags | ChannelBit; }
    if m.isEncrypted { flags := flags | EncryptedBit; }
    ByteOfBits(flags);
    r := flags as int;
  }

  /** `encodeToPayload`: the flag byte, then the fields appended in order. */
  method EncodeToPayload(m: Message) returns (r: Bytes)
    ensures r == EncodedPayload(m)
  {
    var flags := FlagByte(m);
    var buffer: Bytes := [flags];
    buffer := buffer + ToBE(m.timestamp, 8);
    buffer := WriteVariable(buffer, m.id, true);
    buffer := WriteVariable(buffer, m.sender, true);
    ghost var afterSender := buffer;
    if m.isEncrypted {
      buffer := WriteOptional(buffer, m.encryptedContent, false);
    } else {
      buffer := WriteVariable(buffer, m.content, false);
    }
    ghost var head := buffer;
    buffer := WriteOptional(buffer, m.originalSender, true);
    ghost var b1 := buffer;
    buffer := WriteOptional(buffer, m.recipientNickname, true);
    ghost var b2 := buffer;
    if NotBlank(m.senderPeerId) {
      buffer := WriteVariable(buffer, m.senderPeerId, true);
    } else {
      assert b2 + PeerIdField(m) == b2;
    }
    ghost var b3 := buffer;
    buffer := WriteMentions(buffer, m.mentions);
    ghost var b4 := buffer;
    buffer := WriteOptional(buffer, m.channel, true);
    ghost var a, b, c, d, e := OptionalField(m.originalSender), OptionalField(m.recipientNickname), PeerIdField(m),
                               MentionsField(m.mentions), OptionalField(m.channel);
    Assoc(head, a, b);
    Assoc(head, a + b, c);
    Assoc(head, a + b + c, d);
    Assoc(head, a + b + c + d, e);
    assert buffer == head + TailFields(m);
    r := buffer;
  }

  // ---------------------------------------------------------------- decoding

  /** What a variable-length read yields (null when absent) and the bytes left after it. */
  datatype Field = Field(value: Option<Bytes>, rest: Bytes)

  /**
   * `readVariableString` / `readVariableByteArray` on the remaining bytes `s`.
   * Null when nothing is left; otherwise the length prefix is consumed, and the
   * value is null when fewer bytes than the length remain. A long read with a
   * single byte left fails the 2-byte length read with EOFException: the outer
   * `None`.
   */
  function ReadVariable(s: Bytes, isShort: bool): (r: Option<Field>)
    ensures isShort ==> r.Some?
    ensures r.None? <==> !isShort && |s| == 1
  {
    if |s| == 0 then Some(Field(None, s))
    else if isShort then
      var n := s[0];
      if |s| - 1 < n then Some(Field(None, s[1..]))
      else Some(Field(Some(s[1..1 + n]), s[1 + n..]))
    else if |s| < 2 then None
    else
      var n := FromBE(s[..2]);
      if |s| - 2 < n then Some(Field(None, s[2..]))
      else Some(Field(Some(s[2..2 + n]), s[2 + n..]))
  }

  /** A successful read consumed a length prefix holding the value's length, then the value. */
  lemma ReadVariableShape(s: Bytes, isShort: bool)
    requires ReadVariable(s, isShort).Some? && ReadVariable(s, isShort).value.value.Some?
    ensures var r := ReadVariable(s, isShort).value;
      var k := if isShort then 1 else 2;
      |s| >= k && s == s[..k] + r.value.value + r.rest && FromBE(s[..k]) == |r.value.value|
  {
    var r := ReadVariable(s, isShort).value;
    if isShort {
      assert FromBE(s[..1]) == FromBE(s[..0]) * 256 + s[0];
      assert s == s[..1] + s[1..1 + s[0]] + s[1 + s[0]..];
    } else {
      var n := FromBE(s[..2]);
      assert s == s[..2] + s[2..2 + n] + s[2 + n..];
    }
  }

  function ReadShort(s: Bytes): Field {
    ReadVariable(s, true).value
  }

  /** `List(count) { readVariableString() ?: "" }`: `count` short reads, a null one giving the empty string. */
  function ReadMentions(s: Bytes, count: nat): (seq<Bytes>, Bytes) {
    if count == 0 then ([], s)
    else
      var r := ReadShort(s);
      var (t, rest) := ReadMentions(r.rest, count - 1);
      ([r.value.GetOr([])] + t, rest)
  }

  function StatusFor(isPrivate: bool): DeliveryStatus {
    if isPrivate then Sending else Sent
  }

  /** `if (flag) readVariableString() else null`. */
  function ReadIf(present: bool, s: Bytes): Field {
    if present then ReadShort(s) else Field(None, s)
  }

  /** The mention block: a count byte (EOFException, the outer `None`, when none is left), then that many reads. */
  function ReadMentionBlock(present: bool, s: Bytes): Option<(seq<Bytes>, Bytes)> {
    if !present then Some(([], s))
    else if |s| == 0 then None
    else Some(ReadMentions(s[1..], s[0]))
  }

  /** The optional fields after the content, read in order under the flags. */
  function DecodeTail(flags: PayloadFlagSet, ts: Long, id: Bytes, sender: Bytes, content: Bytes, encrypted: Option<Bytes>, s: Bytes)
    : Option<Message>
  {
    var o := ReadIf(flags.hasOriginalSender, s);
    var n := ReadIf(flags.hasRecipientNickname, o.rest);
    var p := ReadIf(flags.hasSenderPeerId, n.rest);
    match ReadMentionBlock(flags.hasMentions, p.rest)
    case None => None
    case Some((ms, afterMentions)) =>
      Some(Message(
        id := id, sender := sender, content := content, timestamp := ts,
        isRelay := flags.isRelay, originalSender := o.value, isPrivate := flags.isPrivate,
        recipientNickname := n.value, senderPeerId := p.value.GetOr([]), mentions := ms,
        channel := ReadIf(flags.hasChannel, afterMentions).value,
        encryptedContent := encrypted, isEncrypted := flags.isEncrypted,
        deliveryStatus := Some(StatusFor(flags.isPrivate))))
  }

  /** The content (or encrypted bytes) field, then the tail. */
  function DecodeBody(flags: PayloadFlagSet, ts: Long, id: Bytes, sender: Bytes, s: Bytes): Option<Message> {
    var isEncrypted := flags.isEncrypted;
    match ReadVariable(s, false)
    case None => None
    case Some(c) =>
      if !isEncrypted && c.value.None? then None
      else
        DecodeTail(flags, ts, id, sender,
          if isEncrypted then [] else c.value.value,
          if isEncrypted then c.value else None,
          c.rest)
  }

  /** `decodeFromPayload`: every failure, thrown or returned, is null. */
  function DecodePayload(d: Bytes): Option<Message> {
    if |d| < 9 then None
    else
      var ts := Signed64(FromBE(d[1..9]));
      FromBEBound(d[1..9]);
      Pow256Values();
      var i := ReadShort(d[9..]);
      if i.value.None? then None
      else
        var s := ReadShort(i.rest);
        if s.value.None? then None
        else DecodeBody(UnpackFlags(d[0]), ts, i.value.value, s.value.value, s.rest)
  }

  /** `List(count) { readVariableString() ?: "" }`, reading one mention after the other. */
  method ReadMentionList(s: Bytes, count: nat) returns (ms: seq<Bytes>, rest: Bytes)
    ensures (ms, rest) == ReadMentions(s, count)
  {
    ms, rest := [], s;
    assert ms + ReadMentions(rest, count).0 == ReadMentions(rest, count).0;
    var i := 0;
    while i < count
      invariant 0 <= i <= count
      invariant ReadMentions(s, count) == (ms + ReadMentions(rest, count - i).0, ReadMentions(rest, count - i).1)
    {
      var rd := ReadShort(rest);
      ghost var next := ReadMentions(rd.rest, count - i - 1);
      assert ReadMentions(rest, count - i) == ([rd.value.GetOr([])] + next.0, next.1);
      Assoc(ms, [rd.value.GetOr([])], next.0);
      ms := ms + [rd.value.GetOr([])];
      rest := rd.rest;
      i := i + 1;
    }
    assert ms + ReadMentions(rest, 0).0 == ms;
  }

  /** `decodeFromPayload`, consuming the bytes through a cursor as the okio buffer does. */
  method DecodeFromPayload(data: Bytes) returns (r: Option<Message>)
    ensures r == DecodePayload(data)
  {
    var source := data;
    if |source| < 9 { return None; }
    var flags := UnpackFlags(source[0]);
    var ts := Signed64(FromBE(source[1..9]));
    FromBEBound(source[1..9]);
    Pow256Values();
    source := source[9..];
    var idRead := ReadShort(source);
    if idRead.value.None? { return None; }
    var id := idRead.value.value;
    source := idRead.rest;
    var senderRead := ReadShort(source);
    if senderRead.value.None? { return None; }
    var sender := senderRead.value.value;
    source := senderRead.rest;
    var isEncrypted := flags.isEncrypted;
    var contentRead := ReadVariable(source, false);
    if contentRead.None? { return None; }
    var content: Bytes, encryptedContent: Option<Bytes>;
    if isEncrypted {
      content, encryptedContent := [], contentRead.value.value;
    } else {
      if contentRead.value.value.None? { return None; }
      content, encryptedContent := contentRead.value.value.value, None;
    }
    source := contentRead.value.rest;
    assert DecodePayload(data) == DecodeTail(flags, ts, id, sender, content, encryptedContent, source);
    var originalSender: Option<Bytes> := None;
    if flags.hasOriginalSender {
      var rd := ReadShort(source);
      originalSender, source := rd.value, rd.rest;
    }
    var recipientNickname: Option<Bytes> := None;
    if flags.hasRecipientNickname {
      var rd := ReadShort(source);
      recipientNickname, source := rd.value, rd.rest;
    }
    var senderPeerId: Bytes := [];
    if flags.hasSenderPeerId {
      var rd := ReadShort(source);
      senderPeerId, source := rd.value.GetOr([]), rd.rest;
    }
    var mentions: seq<Bytes> := [];
    if flags.hasMentions {
      if |source| == 0 { return None; }
      var count := source[0];
      mentions, source := ReadMentionList(source[1..], count);
    }
    var channel: Option<Bytes> := None;
    if flags.hasChannel {
      channel := ReadShort(source).value;
    }
    r := Some(Message(
      id := id, sender := sender, content := content, timestamp := ts,
      isRelay := flags.isRelay, originalSender := originalSender, isPrivate := flags.isPrivate,
      recipientNickname := recipientNickname, senderPeerId := senderPeerId, mentions := mentions, channel := channel,
      encryptedContent := encryptedContent, isEncrypted := isEncrypted,
      deliveryStatus := Some(StatusFor(flags.isPrivate))));
  }

  // ---------------------------------------------------------------- properties

  function TakeShort(o: Option<Bytes>): Option<Bytes> {
    if o.Some? then Some(Take(o.value, ShortCap)) else None
  }

  function NormalPeerId(p: Bytes): Bytes {
    if NotBlank(p) then Take(p, ShortCap) else []
  }

  function TakeLong(o: Option<Bytes>): Option<Bytes> {
    if o.Some? then Some(Take(o.value, LongCap)) else None
  }

  function TakeEach(ms: seq<Bytes>): (r: seq<Bytes>)
    ensures |r| == |ms| && forall i :: 0 <= i < |ms| ==> r[i] == Take(ms[i], ShortCap)
  {
    if |ms| == 0 then [] else [Take(ms[0], ShortCap)] + TakeEach(ms[1..])
  }

  /**
   * What survives a round trip: every field cut to its cap, at most 255
   * mentions, a blank sender peer id dropped, the content emptied when the
   * message is encrypted, the encrypted bytes dropped when it is not, and the
   * delivery status reset from the private flag.
   */
  function Normalised(m: Message): Message {
    Message(
      id := Take(m.id, ShortCap),
      sender := Take(m.sender, ShortCap),
      content := if m.isEncrypted then [] else Take(m.content, LongCap),
      timestamp := m.timestamp,
      isRelay := m.isRelay,
      originalSender := TakeShort(m.originalSender),
      isPrivate := m.isPrivate,
      recipientNickname := TakeShort(m.recipientNickname),
      senderPeerId := NormalPeerId(m.senderPeerId),
      mentions := TakeEach(CappedMentions(m.mentions)),
      channel := TakeShort(m.channel),
      encryptedContent := if m.isEncrypted then TakeLong(m.encryptedContent) else None,
      isEncrypted := m.isEncrypted,
      deliveryStatus := Some(StatusFor(m.isPrivate)))
  }

  /** A short field reads back as its value cut to 255 bytes, whatever follows it. */
  lemma ReadShortField(v: Bytes, rest: Bytes)
    ensures ReadShort(VariableField(v, true) + rest) == Field(Some(Take(v, ShortCap)), rest)
  {
    var f := VariableField(v, true);
    var s := f + rest;
    assert s[0] == f[0] == FromBE(f[..1]) by {
      assert FromBE(f[..1]) == FromBE(f[..0]) * 256 + f[0];
    }
    assert s[1..1 + s[0]] == f[1..];
    assert s[1 + s[0]..] == rest;
  }

  /** A long field reads back as its value cut to 65535 bytes, whatever follows it. */
  lemma ReadLongField(v: Bytes, rest: Bytes)
    ensures ReadVariable(VariableField(v, false) + rest, false) == Some(Field(Some(Take(v, LongCap)), rest))
  {
    var f := VariableField(v, false);
    var s := f + rest;
    var n := |Take(v, LongCap)|;
    VariableFieldShape(v, false);
    assert s[..2] == f[..2];
    assert FromBE(s[..2]) == n;
    assert s[2..2 + n] == f[2..];
    assert s[2 + n..] == rest;
  }

  lemma {:induction false} ReadMentionFields(ms: seq<Bytes>, rest: Bytes)
    ensures ReadMentions(MentionFields(ms) + rest, |ms|) == (TakeEach(ms), rest)
  {
    if |ms| > 0 {
      var f := VariableField(ms[0], true);
      assert MentionFields(ms) + rest == f + (MentionFields(ms[1..]) + rest);
      var tail := MentionFields(ms[1..]) + rest;
      ReadShortField(ms[0], tail);
      ReadMentionFields(ms[1..], rest);
      assert ReadShort(f + tail) == Field(Some(Take(ms[0], ShortCap)), tail);
      assert ReadMentions(f + tail, |ms|) == ([Take(ms[0], ShortCap)] + TakeEach(ms[1..]), rest);
    } else {
      assert MentionFields(ms) + rest == rest;
    }
  }

  lemma ReadOptionalField(o: Option<Bytes>, rest: Bytes)
    ensures ReadIf(o.Some?, OptionalField(o) + rest) == Field(TakeShort(o), rest)
  {
    if o.Some? {
      ReadShortField(o.value, rest);
    } else {
      assert OptionalField(o) + rest == rest;
    }
  }

  lemma ReadPeerIdField(m: Message, rest: Bytes)
    ensures ReadIf(NotBlank(m.senderPeerId), PeerIdField(m) + rest).rest == rest
    ensures ReadIf(NotBlank(m.senderPeerId), PeerIdField(m) + rest).value.GetOr([]) == NormalPeerId(m.senderPeerId)
  {
    if NotBlank(m.senderPeerId) {
      ReadShortField(m.senderPeerId, rest);
    } else {
      assert PeerIdField(m) + rest == rest;
    }
  }

  lemma ReadNonEmptyMentionsBlock(ms: seq<Bytes>, rest: Bytes)
    requires |ms| > 0
    ensures ReadMentionBlock(true, MentionsField(ms) + rest) == Some((TakeEach(CappedMentions(ms)), rest))
  {
    var capped := CappedMentions(ms);
    var body := MentionFields(capped) + rest;
    var s := [|capped|] + body;
    Assoc([|capped|], MentionFields(capped), rest);
    assert s[1..] == body;
    assert s[0] == |capped|;
    ReadMentionFields(capped, rest);
  }

  lemma ReadMentionsBlock(ms: seq<Bytes>, rest: Bytes)
    ensures ReadMentionBlock(|ms| > 0, MentionsField(ms) + rest) == Some((TakeEach(CappedMentions(ms)), rest))
  {
    if |ms| > 0 {
      ReadNonEmptyMentionsBlock(ms, rest);
    } else {
      assert MentionsField(ms) + rest == rest;
    }
  }

  /** `DecodeTail` in terms of the results of its successive reads. */
  lemma DecodeTailSteps(flags: PayloadFlagSet, ts: Long, id: Bytes, sender: Bytes, content: Bytes, encrypted: Option<Bytes>,
                        s: Bytes, o: Field, n: Field, p: Field, ms: seq<Bytes>, after: Bytes)
    requires o == ReadIf(flags.hasOriginalSender, s)
    requires n == ReadIf(flags.hasRecipientNickname, o.rest)
    requires p == ReadIf(flags.hasSenderPeerId, n.rest)
    requires ReadMentionBlock(flags.hasMentions, p.rest) == Some((ms, after))
    ensures DecodeTail(flags, ts, id, sender, content, encrypted, s)
         == Some(Message(id, sender, content, ts, flags.isRelay, o.value, flags.isPrivate, n.value,
                         p.value.GetOr([]), ms, ReadIf(flags.hasChannel, after).value, encrypted,
                         flags.isEncrypted, Some(StatusFor(flags.isPrivate))))
  {
  }

  /** The tail as its five fields, grouped from the right. */
  lemma TailFieldsSplit(m: Message)
    ensures TailFields(m) == OptionalField(m.originalSender) + (OptionalField(m.recipientNickname)
      + (PeerIdField(m) + (MentionsField(m.mentions) + OptionalField(m.channel))))
  {
    var a, b, c, d, e := OptionalField(m.originalSender), OptionalField(m.recipientNickname), PeerIdField(m),
                         MentionsField(m.mentions), OptionalField(m.channel);
    Assoc(a + b + c, d, e);
    Assoc(a + b, c, d + e);
    Assoc(a, b, c + (d + e));
  }

  /** The optional fields decode back to their normalised values. */
  lemma DecodeTailFields(m: Message, content: Bytes, encrypted: Option<Bytes>)
    ensures DecodeTail(FlagsOfMessage(m), m.timestamp, Take(m.id, ShortCap), Take(m.sender, ShortCap), content, encrypted, TailFields(m))
         == Some(Message(
              id := Take(m.id, ShortCap), sender := Take(m.sender, ShortCap), content := content,
              timestamp := m.timestamp, isRelay := m.isRelay, originalSender := TakeShort(m.originalSender),
              isPrivate := m.isPrivate, recipientNickname := TakeShort(m.recipientNickname),
              senderPeerId := NormalPeerId(m.senderPeerId), mentions := TakeEach(CappedMentions(m.mentions)),
              channel := TakeShort(m.channel), encryptedContent := encrypted, isEncrypted := m.isEncrypted,
              deliveryStatus := Some(StatusFor(m.isPrivate))))
  {
    var a, b, c, d, e := OptionalField(m.originalSender), OptionalField(m.recipientNickname), PeerIdField(m),
                         MentionsField(m.mentions), OptionalField(m.channel);
    TailFieldsSplit(m);
    ReadOptionalField(m.originalSender, b + (c + (d + e)));
    ReadOptionalField(m.recipientNickname, c + (d + e));
    ReadPeerIdField(m, d + e);
    ReadMentionsBlock(m.mentions, e);
    ReadOptionalField(m.channel, []);
    assert e + [] == e;
    DecodeTailSteps(FlagsOfMessage(m), m.timestamp, Take(m.id, ShortCap), Take(m.sender, ShortCap), content, encrypted,
                    TailFields(m), Field(TakeShort(m.originalSender), b + (c + (d + e))),
                    Field(TakeShort(m.recipientNickname), c + (d + e)),
                    ReadIf(NotBlank(m.senderPeerId), c + (d + e)), TakeEach(CappedMentions(m.mentions)), e);
  }

  /** `DecodePayload` in terms of the results of its successive reads. */
  lemma DecodePayloadSteps(d: Bytes, ts: Long, i: Field, sn: Field, c: Field)
    requires |d| >= 9 && ts == Signed64(FromBE(d[1..9]))
    requires i == ReadShort(d[9..]) && i.value.Some?
    requires sn == ReadShort(i.rest) && sn.value.Some?
    requires ReadVariable(sn.rest, false) == Some(c)
    requires !UnpackFlags(d[0]).isEncrypted ==> c.value.Some?
    ensures var flags := UnpackFlags(d[0]);
      DecodePayload(d) == DecodeTail(flags, ts, i.value.value, sn.value.value,
                                     if flags.isEncrypted then [] else c.value.value,
                                     if flags.isEncrypted then c.value else None, c.rest)
  {
  }

  /**
   * Lossy round trip: decoding an encoded message gives it back with every field cut to its cap, at most
   * 255 mentions, a blank peer id dropped, and the delivery status its private flag selects.
   */
  lemma PayloadRoundTrip(m: Message)
    requires m.isEncrypted ==> m.encryptedContent.Some?
    ensures DecodePayload(EncodedPayload(m)) == Some(Normalised(m))
  {
    var d := EncodedPayload(m);
    var fs, fc, t := VariableField(m.sender, true), ContentField(m), TailFields(m);
    EncodedPayloadHead(m);
    var c := EncodedContentRead(m);
    DecodePayloadSteps(d, m.timestamp, Field(Some(Take(m.id, ShortCap)), fs + (fc + t)),
                       Field(Some(Take(m.sender, ShortCap)), fc + t), c);
    DecodeTailFields(m, if m.isEncrypted then [] else Take(m.content, LongCap), c.value);
  }

  /** The encoded payload as the flag byte, the timestamp and the variable fields. */
  lemma EncodedPayloadSplit(m: Message)
    ensures var d := EncodedPayload(m);
      && |d| >= 9 && d[0] == PayloadFlags(m) && d[1..9] == ToBE(m.timestamp, 8)
      && d[9..] == VariableField(m.id, true) + (VariableField(m.sender, true) + (ContentField(m) + TailFields(m)))
  {
    var f, ts, fi, fs, fc, t := [PayloadFlags(m)], ToBE(m.timestamp, 8), VariableField(m.id, true),
                                VariableField(m.sender, true), ContentField(m), TailFields(m);
    var body := fi + (fs + (fc + t));
    var h := f + ts;
    Assoc(h + fi + fs, fc, t);
    Assoc(h + fi, fs, fc + t);
    Assoc(h, fi, fs + (fc + t));
    SplitAt9(f, ts, body);
  }

  lemma SplitAt9(f: Bytes, ts: Bytes, body: Bytes)
    requires |f| == 1 && |ts| == 8
    ensures var d := f + ts + body; d[0] == f[0] && d[1..9] == ts && d[9..] == body
  {
  }

  /** The flag byte, the timestamp, the id and the sender of an encoded message read back. */
  lemma EncodedPayloadHead(m: Message)
    ensures var d := EncodedPayload(m);
      && |d| >= 9 && UnpackFlags(d[0]) == FlagsOfMessage(m) && Signed64(FromBE(d[1..9])) == m.timestamp
      && ReadShort(d[9..]) == Field(Some(Take(m.id, ShortCap)), VariableField(m.sender, true) + (ContentField(m) + TailFields(m)))
      && ReadShort(VariableField(m.sender, true) + (ContentField(m) + TailFields(m)))
         == Field(Some(Take(m.sender, ShortCap)), ContentField(m) + TailFields(m))
  {
    EncodedPayloadSplit(m);
    LongRoundTrip(m.timestamp);
    ReadShortField(m.id, VariableField(m.sender, true) + (ContentField(m) + TailFields(m)));
    ReadShortField(m.sender, ContentField(m) + TailFields(m));
  }

  /** The content field of an encoded message reads back as the capped content or encrypted content. */
  lemma EncodedContentRead(m: Message) returns (c: Field)
    requires m.isEncrypted ==> m.encryptedContent.Some?
    ensures ReadVariable(ContentField(m) + TailFields(m), false) == Some(c)
    ensures c.rest == TailFields(m)
    ensures c.value == Some(if m.isEncrypted then Take(m.encryptedContent.value, LongCap) else Take(m.content, LongCap))
  {
    if m.isEncrypted {
      ReadLongField(m.encryptedContent.value, TailFields(m));
      c := Field(Some(Take(m.encryptedContent.value, LongCap)), TailFields(m));
    } else {
      ReadLongField(m.content, TailFields(m));
      c := Field(Some(Take(m.content, LongCap)), TailFields(m));
    }
  }

  /** Every field within its cap, at most 255 mentions, and a peer id that is empty or not blank. */
  predicate WithinCaps(m: Message) {
    && |m.id| <= ShortCap && |m.sender| <= ShortCap && |m.content| <= LongCap
    && (m.originalSender.Some? ==> |m.originalSender.value| <= ShortCap)
    && (m.recipientNickname.Some? ==> |m.recipientNickname.value| <= ShortCap)
    && (m.channel.Some? ==> |m.channel.value| <= ShortCap)
    && (m.encryptedContent.Some? ==> |m.encryptedContent.value| <= LongCap)
    && |m.senderPeerId| <= ShortCap && (|m.senderPeerId| == 0 || NotBlank(m.senderPeerId))
    && |m.mentions| <= ShortCap
    && (forall i :: 0 <= i < |m.mentions| ==> |m.mentions[i]| <= ShortCap)
  }

  /** Exact round trip within the caps: only the content of an encrypted message and the delivery status change. */
  lemma PayloadRoundTripExact(m: Message)
    requires WithinCaps(m)
    requires m.isEncrypted ==> m.encryptedContent.Some?
    ensures DecodePayload(EncodedPayload(m)) == Some(m.(
      content := if m.isEncrypted then [] else m.content,
      encryptedContent := if m.isEncrypted then m.encryptedContent else None,
      deliveryStatus := Some(StatusFor(m.isPrivate))))
  {
    PayloadRoundTrip(m);
    NormalisedWithinCaps(m);
  }

  lemma NormalisedWithinCaps(m: Message)
    requires WithinCaps(m)
    ensures Normalised(m) == m.(
      content := if m.isEncrypted then [] else m.content,
      encryptedContent := if m.isEncrypted then m.encryptedContent else None,
      deliveryStatus := Some(StatusFor(m.isPrivate)))
  {
    MentionsWithinCaps(m.mentions);
    assert TakeShort(m.originalSender) == m.originalSender;
    assert TakeShort(m.recipientNickname) == m.recipientNickname;
    assert TakeShort(m.channel) == m.channel;
    assert TakeLong(m.encryptedContent) == m.encryptedContent;
    assert NormalPeerId(m.senderPeerId) == m.senderPeerId;
  }

  lemma MentionsWithinCaps(ms: seq<Bytes>)
    requires |ms| <= ShortCap && forall i :: 0 <= i < |ms| ==> |ms[i]| <= ShortCap
    ensures TakeEach(CappedMentions(ms)) == ms
  {
    assert CappedMentions(ms) == ms;
    assert TakeEach(ms) == ms;
  }

  /** A missing id or sender, a truncated timestamp, or a missing plain-text content makes decoding null. */
  lemma DecodeRejectsMissingFields(d: Bytes)
    requires |d| >= 9
    requires var i := ReadShort(d[9..]);
      || i.value.None?
      || ReadShort(i.rest).value.None?
      || (var c := ReadVariable(ReadShort(i.rest).rest, false);
          c.None? || (!UnpackFlags(d[0]).isEncrypted && c.value.value.None?))
    ensures DecodePayload(d) == None
  {
  }

  /** Every decoded message carries the status its private flag selects. */
  lemma DecodedStatus(d: Bytes)
    requires DecodePayload(d).Some?
    ensures DecodePayload(d).value.deliveryStatus == Some(StatusFor(DecodePayload(d).value.isPrivate))
    ensures DecodePayload(d).value.isEncrypted ==> DecodePayload(d).value.content == []
  {
  }
}
