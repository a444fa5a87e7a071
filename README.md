# bitchat mesh engine, modelled in Dafny

This project models the protocol engine of the Kotlin bitchat client
(`core/data`). The client relays end-to-end encrypted chat over a Bluetooth
mesh. The parts modelled are:

- **Wire codec** (`BinarySerializer`, module `BinaryCodec`): a packet is a 14-byte header (version,
  type, ttl, big-endian timestamp, flags, payload length), an 8-byte sender
  field, an optional 8-byte recipient, the payload and an optional 64-byte
  signature.
- **Packet type table** (`MessageType`, module `MessageTypes`) and **packet envelope**
  (`BitchatPacket`, module `Packets`).
- **Message payload codec** (`MessagePayloadSerializer`, module `PayloadCodec`): a flag byte, the
  timestamp and length-prefixed fields, each cut to its cap.
- **Padding** (`MessagePadding`, module `Padding`): PKCS#7-style padding to a block size,
  and the choice of that block size.
- **Crypto-engine bookkeeping** (the Android `EncryptionService`, module `Encryption`):
  - the local key set and its stored identity key;
  - the 96-byte public key blob;
  - the per-peer key maps;
  - the AES-GCM framing;
  - HKDF-SHA256 as RFC 5869 defines it in sections 2.2 and 2.3.

  X25519, Ed25519, AES-GCM and HMAC-SHA256 are function fields of a `Crypto` value.
- **Fragment manager** (module `Fragments`): splits an encoded packet into 487-byte chunks
  and reassembles them in any order. A timeout sweep removes old groups.
- **Security manager** (module `Security`): packet validation, message ids, the
  processed-id and key-exchange records, and the capped cleanup sweep.
- **Peer manager** (module `Peers`): the peer table, eviction of stale namesakes,
  sorted peer lists, connection events and the staleness sweep.
- **Store-and-forward manager** (module `StoreForward`): a shared cache capped at 100, favourite
  queues capped at 1000, a once-per-peer flush in cache-time order, and the
  cleanups.
- **Message handler** (module `Handler`) and **packet processor** (module
  `Processor`): pure functions from a packet and the delegate's answers to
  the ordered list of delegate calls that have effects.
- **`ByteArrayBuilder`** (module `Builder`): the growable byte buffer of the base64 byte-array
  serializer.

Strings are UTF-8 byte sequences (`seq<byte>`), and `trimEnd('\u0000')` drops
trailing zero bytes. Message and exchange ids are tuples of their parts
instead of formatted strings. The modules `Options`, `ByteSeq` and `Lists` hold
the shared vocabulary:
- big-endian integers;
- Kotlin `Int` and `Long` wrap-around;
- `take`, `removeAll` and `toList`.

Exact `Int`/`Long` arithmetic is written out wherever it can wrap:
- the doubling in `ensureCapacity`;
- `dataSize + 16` in `optimalBlockSize`;
- the freshness test of `validatePacket`, as written (`FreshAsWritten`);
- `contentHashCode`.

Stateful managers are classes whose fields the methods update.
- The delegate events and the packets sent are appended logs (`events`,
  `peerListUpdates`, `sent`, `completedKeyExchanges`).
- Pauses are recorded as values next to the calls they precede.

The model follows the code where it departs from what one might expect:
- **Header length.** The header written is 14 bytes, not the 13 that
  `HEADER_SIZE` says. That constant appears only in the 21-byte minimum-length
  check of `decode`, so the sender field starts at offset 14.
- **Dedup results discarded.** `validatePacket` and `handleKeyExchange`
  record ids, but they discard the outcome of the record check (`return@withLock`
  leaves only the lambda). A repeated packet is accepted, and a repeated key
  exchange is processed again.
- **Cover traffic.** A broadcast whose content starts with the cover-traffic
  marker is not relayed either.
- **`decrypt` minimum.** `decrypt` rejects inputs under 16 bytes, not under 28.
- **Identity slot.** In `initialize`, the second assignment to `identityPublicKey` replaces the
  derived public key with the identity private key's own bytes. So the
  identity slot of this node's public key blob carries the private key
  (`Encryption.InitializedBlobLeaksIdentity`).
- **Freshness.** The freshness test of `validatePacket` wraps in the code: a
  timestamp 2^63 ms away from now passes it. `Security.SecurityManager.ValidatePacket`
  uses the intended test instead (`Fresh`), so the model rejects that timestamp
  where the code accepts it. `Security.FreshAgrees` shows that the two tests agree
  for every ordinary clock and timestamp.
- **Signed packets.** `decode` reads exactly 64 signature bytes for a signed packet, and
  `encode` writes at most 64. A signed packet therefore round-trips only with a
  64-byte signature.

## Model

| member | source | states |
|---|---|---|
| BinaryCodec.FlagsOf | core/data/src/commonMain/kotlin/com/app/data/utils/BinarySerializer.kt:42-46 | bit 0x01 is set exactly when there is a recipient, bit 0x02 exactly when there is a signature, and the compressed bit never is |
| BinaryCodec.Header | core/data/src/commonMain/kotlin/com/app/data/utils/BinarySerializer.kt:37-49 | the header written before the sender is 14 bytes long |
| BinaryCodec.Encode | core/data/src/commonMain/kotlin/com/app/data/utils/BinarySerializer.kt:22-80 | the method that appends field by field to a buffer produces exactly the `Encoded` bytes |
| BinaryCodec.EncodedSplit | core/data/src/commonMain/kotlin/com/app/data/utils/BinarySerializer.kt:52-79 | the encoding is the header, then the sender cut or zero-padded to exactly 8 bytes, then the recipient field, the payload and the signature field |
| BinaryCodec.EncodedHeader | core/data/src/commonMain/kotlin/com/app/data/utils/BinarySerializer.kt:37-49 | version at 0, type at 1, ttl at 2, the timestamp big-endian at 3-10, flags at 11, the payload length big-endian at 12-13 |
| BinaryCodec.EncodedBody | core/data/src/commonMain/kotlin/com/app/data/utils/BinarySerializer.kt:59-77 | for a well-formed packet, the sender is at bytes 14-21, the recipient at 22-29 when present, then the payload, then exactly 64 signature bytes when signed |
| BinaryCodec.EncodedLength | core/data/src/commonMain/kotlin/com/app/data/utils/BinarySerializer.kt:48-79 | the encoding is 22 bytes, plus 8 with a recipient, plus the payload, plus at most 64 signature bytes |
| BinaryCodec.DecodeAsWritten | core/data/src/commonMain/kotlin/com/app/data/utils/BinarySerializer.kt:83-138 | reading through a cursor as the code does ends in a packet, a null result, or the uncaught exception that `DecodeResult` predicts |
| BinaryCodec.Decode | core/data/src/commonMain/kotlin/com/app/data/utils/BinarySerializer.kt:83-138 | corrected `decode`: it yields a packet exactly when the code would return one, the same packet, and null in every other case |
| BinaryCodec.DecodeRejectsShortOrUnknownVersion | core/data/src/commonMain/kotlin/com/app/data/utils/BinarySerializer.kt:84-90 | inputs under 21 bytes, or with a version byte other than 1, decode to null |
| BinaryCodec.DecodeCompressedNeverSucceeds | core/data/src/commonMain/kotlin/com/app/data/utils/BinarySerializer.kt:110-117 | a set compressed flag never yields a packet, because decompression always fails |
| BinaryCodec.DecodedIsWellFormed | core/data/src/commonMain/kotlin/com/app/data/utils/BinarySerializer.kt:89-132 | a decoded packet has version 1, an 8-byte sender, an 8-byte recipient if any, a 64-byte signature if any, and a payload of at most 65535 bytes |
| BinaryCodec.DecodedFields | core/data/src/commonMain/kotlin/com/app/data/utils/BinarySerializer.kt:89-121 | each field of a decoded packet comes from its fixed position in the input |
| BinaryCodec.DecodeIgnoresTrailingBytes | core/data/src/commonMain/kotlin/com/app/data/utils/BinarySerializer.kt:119-132 | extra bytes after the declared fields do not change the result |
| BinaryCodec.RoundTrip | core/data/src/commonMain/kotlin/com/app/data/utils/BinarySerializer.kt:22-132 | a well-formed packet decodes back to itself |
| BinaryCodec.DecodeThenEncode | core/data/src/commonMain/kotlin/com/app/data/utils/BinarySerializer.kt:22-132 | re-encoding a decoded packet gives back every input byte it read, except flag bits the decoder ignores |
| BinaryCodec.DecodeThrowsOnShortCompressedPayload | core/data/src/commonMain/kotlin/com/app/data/utils/BinarySerializer.kt:110-137 | a 24-byte packet with the compressed flag and payload length 0 makes the code throw an exception that it does not catch |
| MessageTypes.Find | core/data/src/commonMain/kotlin/com/app/data/model/MessageType.kt:18-20 | `find` returns an entry of the list whose value matches, and null only when no entry matches |
| MessageTypes.FromValue | core/data/src/commonMain/kotlin/com/app/data/model/MessageType.kt:18-20 | a found type has the value that was looked up |
| MessageTypes.EntriesComplete | core/data/src/commonMain/kotlin/com/app/data/model/MessageType.kt:3-15 | every enum entry is in the table |
| MessageTypes.ValueInjective | core/data/src/commonMain/kotlin/com/app/data/model/MessageType.kt:4-15 | two entries with the same wire value are the same entry |
| MessageTypes.FromValueOfValue | core/data/src/commonMain/kotlin/com/app/data/model/MessageType.kt:3-20 | `fromValue(e.value) == e` for every entry |
| MessageTypes.FromValueDefined | core/data/src/commonMain/kotlin/com/app/data/model/MessageType.kt:4-20 | exactly the bytes 0x01 to 0x0C name a type |
| Packets.Decremented | core/data/src/commonMain/kotlin/com/app/data/mesh/MessageHandler.kt:149-152 | the relay copy differs only in ttl, which drops by one when it is positive |
| ByteSeq.Fixed | core/data/src/commonMain/kotlin/com/app/data/utils/BinarySerializer.kt:53-57 | an id field is exactly n bytes: the id's first bytes, then zeros |
| ByteSeq.TrimNul | core/data/src/commonMain/kotlin/com/app/data/mesh/SecurityManager.kt:38 | trimming removes only trailing zero bytes and leaves no trailing zero |
| ByteSeq.LongRoundTrip | core/data/src/commonMain/kotlin/com/app/data/utils/BinarySerializer.kt:40-94 | eight big-endian bytes written from a `Long` read back as that `Long` |
| PayloadCodec.Pack | core/data/src/commonMain/kotlin/com/app/data/utils/MessagePayloadSerializer.kt:13-22 | each of the eight flags sets its own bit, from 0x01 for relay to 0x80 for encrypted |
| PayloadCodec.PackFlags | core/data/src/commonMain/kotlin/com/app/data/utils/MessagePayloadSerializer.kt:56-64 | reading back a packed flag byte gives the same eight flags |
| PayloadCodec.PayloadFlags | core/data/src/commonMain/kotlin/com/app/data/utils/MessagePayloadSerializer.kt:13-22 | a message's flag byte reads back as one flag per optional part that is present |
| PayloadCodec.FlagByte | core/data/src/commonMain/kotlin/com/app/data/utils/MessagePayloadSerializer.kt:13-22 | OR-ing the flag bits in one by one gives the message's flag byte |
| PayloadCodec.VariableField | core/data/src/commonMain/kotlin/com/app/data/utils/MessagePayloadSerializer.kt:111-122 | a short field is 1 length byte plus at most 255 bytes; a long field is 2 length bytes plus at most 65535 bytes |
| PayloadCodec.VariableFieldShape | core/data/src/commonMain/kotlin/com/app/data/utils/MessagePayloadSerializer.kt:111-143 | a field is its capped length, big-endian, then the value cut to that length |
| PayloadCodec.WriteVariable | core/data/src/commonMain/kotlin/com/app/data/utils/MessagePayloadSerializer.kt:111-143 | writing a string or byte array appends exactly its variable field |
| PayloadCodec.WriteOptional | core/data/src/commonMain/kotlin/com/app/data/utils/MessagePayloadSerializer.kt:36-47 | a null field writes nothing, and a present one its short field |
| PayloadCodec.WriteEach | core/data/src/commonMain/kotlin/com/app/data/utils/MessagePayloadSerializer.kt:43-45 | the mentions are written as short fields, in order |
| PayloadCodec.WriteMentions | core/data/src/commonMain/kotlin/com/app/data/utils/MessagePayloadSerializer.kt:41-46 | the mention block is a count byte min(n, 255), then the first 255 mentions |
| PayloadCodec.EncodeToPayload | core/data/src/commonMain/kotlin/com/app/data/utils/MessagePayloadSerializer.kt:10-50 | the flag byte, the timestamp, id, sender, content or encrypted bytes, then the flagged optional fields in order |
| PayloadCodec.ReadVariable | core/data/src/commonMain/kotlin/com/app/data/utils/MessagePayloadSerializer.kt:124-152 | a short read always gives a result; a long read fails exactly when one byte is left, where the two-byte length would run past the end |
| PayloadCodec.ReadVariableShape | core/data/src/commonMain/kotlin/com/app/data/utils/MessagePayloadSerializer.kt:124-152 | a successful read consumed a length prefix, then a value of that length |
| PayloadCodec.ReadShortField | core/data/src/commonMain/kotlin/com/app/data/utils/MessagePayloadSerializer.kt:111-130 | a short field reads back as its value cut to 255 bytes, whatever follows it |
| PayloadCodec.ReadLongField | core/data/src/commonMain/kotlin/com/app/data/utils/MessagePayloadSerializer.kt:118-152 | a long field reads back as its value cut to 65535 bytes, whatever follows it |
| PayloadCodec.ReadMentionList | core/data/src/commonMain/kotlin/com/app/data/utils/MessagePayloadSerializer.kt:81-84 | the read loop returns `count` mentions, a null read giving the empty string, and the rest of the buffer |
| PayloadCodec.ReadMentionFields | core/data/src/commonMain/kotlin/com/app/data/utils/MessagePayloadSerializer.kt:41-84 | written mentions read back as themselves, each cut to 255 bytes |
| PayloadCodec.ReadMentionsBlock | core/data/src/commonMain/kotlin/com/app/data/utils/MessagePayloadSerializer.kt:41-84 | a written mention block reads back as the first 255 mentions, each cut to its cap |
| PayloadCodec.DecodeFromPayload | core/data/src/commonMain/kotlin/com/app/data/utils/MessagePayloadSerializer.kt:52-108 | the cursor-reading method returns the message the decoding function describes, and null on every failure |
| PayloadCodec.PayloadRoundTrip | core/data/src/commonMain/kotlin/com/app/data/utils/MessagePayloadSerializer.kt:10-108 | any message with its encrypted bytes present decodes back with each field cut to its cap, at most 255 mentions, a blank peer id dropped, and the private flag deciding its status |
| PayloadCodec.PayloadRoundTripExact | core/data/src/commonMain/kotlin/com/app/data/utils/MessagePayloadSerializer.kt:10-108 | within the caps, a message decodes back unchanged, except that an encrypted message's content becomes empty and its status is set |
| PayloadCodec.DecodeRejectsMissingFields | core/data/src/commonMain/kotlin/com/app/data/utils/MessagePayloadSerializer.kt:66-75 | a missing id, sender or plain-text content makes decoding null |
| PayloadCodec.DecodedStatus | core/data/src/commonMain/kotlin/com/app/data/utils/MessagePayloadSerializer.kt:70-102 | a decoded message is Sending when private and Sent otherwise, and an encrypted one has empty content |
| Padding.Padded | core/data/src/commonMain/kotlin/com/app/data/crypto/EncryptionService.kt:35-48 | data not 1 to 255 bytes short of the target is returned as it is; otherwise the result is the target size, starts with the data and ends with the pad length |
| Padding.Pad | core/data/src/commonMain/kotlin/com/app/data/crypto/EncryptionService.kt:35-48 | the array method returns the same array when nothing is padded, and otherwise a fresh array holding `Padded` |
| Padding.Unpad | core/data/src/commonMain/kotlin/com/app/data/crypto/EncryptionService.kt:50-55 | empty input, a last byte of 0 or a last byte above the length is returned unchanged; otherwise the last-byte count of bytes is dropped |
| Padding.UnpadPad | core/data/src/commonMain/kotlin/com/app/data/crypto/EncryptionService.kt:35-55 | unpadding undoes padding, whatever the random filler was |
| Padding.FirstFitting | core/data/src/commonMain/kotlin/com/app/data/crypto/EncryptionService.kt:59 | `firstOrNull` finds the first block size at least the total, or none when every size is smaller |
| Padding.OptimalBlockSizeSmallest | core/data/src/commonMain/kotlin/com/app/data/crypto/EncryptionService.kt:57-60 | without overflow the block is the smallest listed size that holds `dataSize + 16`, or `dataSize` when none does |
| Padding.OptimalBlockSizeOverflow | core/data/src/commonMain/kotlin/com/app/data/crypto/EncryptionService.kt:57-60 | near the top of the `Int` range, `dataSize + 16` wraps negative and 256 is chosen |
| Encryption.Okm | core/data/src/androidMain/kotlin/com/app/data/crypto/EncryptionService.android.kt:193-208 | n expansion blocks are 32·n bytes |
| Encryption.OkmPrefix | core/data/src/androidMain/kotlin/com/app/data/crypto/EncryptionService.android.kt:193-208 | expanding further only appends blocks |
| Encryption.HkdfSpec | core/data/src/androidMain/kotlin/com/app/data/crypto/EncryptionService.android.kt:180-211 | HKDF's output is exactly `length` bytes |
| Encryption.HkdfPrefix | core/data/src/androidMain/kotlin/com/app/data/crypto/EncryptionService.android.kt:180-211 | a shorter derivation is a prefix of a longer one with the same inputs |
| Encryption.HkdfOneBlock | core/data/src/androidMain/kotlin/com/app/data/crypto/EncryptionService.android.kt:180-211 | up to 32 output bytes are the head of T(1) = HMAC(PRK, info ‖ 0x01) |
| Encryption.ExpandBlock | core/data/src/androidMain/kotlin/com/app/data/crypto/EncryptionService.android.kt:194-207 | one loop iteration fills the result up to 32·counter bytes with T(1) ‖ … ‖ T(counter) |
| Encryption.Hkdf | core/data/src/androidMain/kotlin/com/app/data/crypto/EncryptionService.android.kt:180-211 | the extract-then-expand loop returns the first `length` bytes of T(1) ‖ T(2) ‖ …, with PRK = HMAC(salt or 32 zero bytes, IKM) |
| Encryption.SecureStorage.constructor | core/data/src/commonMain/kotlin/com/app/data/crypto/SecureStorage.kt:3-10 | storage starts with the given entries |
| Encryption.SecureStorage.LoadData | core/data/src/commonMain/kotlin/com/app/data/crypto/SecureStorage.kt:5 | loading finds exactly the stored entries |
| Encryption.SecureStorage.SaveData | core/data/src/commonMain/kotlin/com/app/data/crypto/SecureStorage.kt:4 | saving sets one entry |
| Encryption.SecureStorage.DeleteData | core/data/src/commonMain/kotlin/com/app/data/crypto/SecureStorage.kt:6 | deleting removes one entry |
| Encryption.SecureStorage.ClearAll | core/data/src/commonMain/kotlin/com/app/data/crypto/SecureStorage.kt:8 | clearing empties the storage |
| Encryption.Combined | core/data/src/androidMain/kotlin/com/app/data/crypto/EncryptionService.android.kt:69-75 | the key blob is 96 bytes |
| Encryption.SplitBlob | core/data/src/androidMain/kotlin/com/app/data/crypto/EncryptionService.android.kt:78-85 | a blob is cut into three 32-byte keys exactly when it is 96 bytes, and the keys concatenate back to it |
| Encryption.SplitCombined | core/data/src/androidMain/kotlin/com/app/data/crypto/EncryptionService.android.kt:69-85 | a blob built by one node is split by another into the same three keys |
| Encryption.SessionKeyIsFirstBlock | core/data/src/androidMain/kotlin/com/app/data/crypto/EncryptionService.android.kt:96-105 | a peer's session key is HKDF with the "bitchat-v1" salt and no info, which is HMAC(PRK, 0x01) |
| Encryption.EncryptionService.constructor | core/data/src/androidMain/kotlin/com/app/data/crypto/EncryptionService.android.kt:21-36 | every key is unset and every peer map empty |
| Encryption.EncryptionService.Initialize | core/data/src/androidMain/kotlin/com/app/data/crypto/EncryptionService.android.kt:40-67 | sets both session key pairs; loads the stored identity key, or saves a new one when none is stored; fails on a stored key under 32 bytes; leaves the peer maps alone |
| Encryption.EncryptionService.SetSessionKeyPairs | core/data/src/androidMain/kotlin/com/app/data/crypto/EncryptionService.android.kt:41-51 | the X25519 and Ed25519 pairs come from the generated private keys |
| Encryption.EncryptionService.LoadIdentityKey | core/data/src/androidMain/kotlin/com/app/data/crypto/EncryptionService.android.kt:54-63 | a stored identity key is used and nothing is saved; otherwise the new key is saved under "identity_key" |
| Encryption.EncryptionService.CombinedPublicKeyData | core/data/src/androidMain/kotlin/com/app/data/crypto/EncryptionService.android.kt:69-75 | the blob exists once the three keys are set, and it splits into agreement key, signing key and identity slot |
| Encryption.EncryptionService.AddPeerPublicKey | core/data/src/androidMain/kotlin/com/app/data/crypto/EncryptionService.android.kt:77-106 | a blob that is not 96 bytes changes nothing; otherwise the three slices go into that peer's maps, and the derived key is stored when the agreement succeeds; other peers are unchanged |
| Encryption.EncryptionService.GetPeerIdentityKey | core/data/src/androidMain/kotlin/com/app/data/crypto/EncryptionService.android.kt:108-110 | null for an unknown peer, otherwise the identity key recorded for it |
| Encryption.EncryptionService.ClearPersistentIdentity | core/data/src/androidMain/kotlin/com/app/data/crypto/EncryptionService.android.kt:112-114 | exactly the stored identity key is removed |
| Encryption.EncryptionService.Encrypt | core/data/src/androidMain/kotlin/com/app/data/crypto/EncryptionService.android.kt:116-133 | fails without a session key; otherwise the 12-byte nonce, then the sealed data |
| Encryption.EncryptionService.Decrypt | core/data/src/androidMain/kotlin/com/app/data/crypto/EncryptionService.android.kt:135-157 | fails without a session key or under 16 bytes; otherwise opens the bytes after the 12-byte nonce |
| Encryption.EncryptionService.Sign | core/data/src/androidMain/kotlin/com/app/data/crypto/EncryptionService.android.kt:159-164 | fails before `initialize`; otherwise the Ed25519 signature under the signing private key |
| Encryption.EncryptionService.Verify | core/data/src/androidMain/kotlin/com/app/data/crypto/EncryptionService.android.kt:166-178 | fails without the peer's signing key; otherwise the Ed25519 check under that key |
| Encryption.EncryptionService.DecryptEncrypt | core/data/src/androidMain/kotlin/com/app/data/crypto/EncryptionService.android.kt:116-157 | with a correct cipher, decrypting what was encrypted for a peer gives the plaintext back |
| Encryption.SignThenVerify | core/data/src/androidMain/kotlin/com/app/data/crypto/EncryptionService.android.kt:159-178 | a peer holding this node's signing public key accepts what this node signs |
| Encryption.EncryptionService.IdentitySlotIsPrivateKey | core/data/src/androidMain/kotlin/com/app/data/crypto/EncryptionService.android.kt:64-75 | the identity slot of the blob is the identity private key |
| Encryption.InitializedBlobLeaksIdentity | core/data/src/androidMain/kotlin/com/app/data/crypto/EncryptionService.android.kt:40-75 | after a successful `initialize`, the blob's last 32 bytes are the identity private key |
| Fragments.FragmentPayload | core/data/src/commonMain/kotlin/com/app/data/mesh/FragmentManager.kt:123-137 | a fragment payload is the first (at most 8) id bytes, 5 header bytes and the data |
| Fragments.ParseFragment | core/data/src/commonMain/kotlin/com/app/data/mesh/FragmentManager.kt:86-94 | a payload parses exactly when it has at least 13 bytes, into an 8-byte id and the data after the header |
| Fragments.ParsedRanges | core/data/src/commonMain/kotlin/com/app/data/mesh/FragmentManager.kt:91-92 | index and total are read as signed 16-bit values |
| Fragments.ParseFragmentPayload | core/data/src/commonMain/kotlin/com/app/data/mesh/FragmentManager.kt:123-137 | a written payload parses back to the id prefix, the type, the data, and index and total as 16-bit signed values |
| Fragments.ParseFragmentPayloadExact | core/data/src/commonMain/kotlin/com/app/data/mesh/FragmentManager.kt:123-137 | indices and totals below 32768 read back exactly |
| Fragments.FragmentCount | core/data/src/commonMain/kotlin/com/app/data/mesh/FragmentManager.kt:51 | the fragment count is the data size divided by 487, rounded up |
| Fragments.Chunk | core/data/src/commonMain/kotlin/com/app/data/mesh/FragmentManager.kt:54-56 | a chunk is at most 487 bytes, and the chunks within the count are not empty |
| Fragments.CreateFragments | core/data/src/commonMain/kotlin/com/app/data/mesh/FragmentManager.kt:42-79 | an encoding of at most 500 bytes gives the packet itself; otherwise one fragment per chunk, START first, END last, CONTINUE between |
| Fragments.FragmentsShape | core/data/src/commonMain/kotlin/com/app/data/mesh/FragmentManager.kt:66-77 | a fragment keeps the packet's sender, recipient, timestamp and ttl, has no signature, and its payload fits in 500 bytes |
| Fragments.ChunksCover | core/data/src/commonMain/kotlin/com/app/data/mesh/FragmentManager.kt:49-56 | the chunks concatenate to the whole encoding |
| Fragments.EncodedLength | core/data/src/commonMain/kotlin/com/app/data/mesh/FragmentManager.kt:49-56 | a well-formed packet needs fewer than 32768 fragments, so index and total fit their 16-bit fields |
| Fragments.ReassembledMissing | core/data/src/commonMain/kotlin/com/app/data/mesh/FragmentManager.kt:107-110 | reassembly fails exactly when an index below the total is missing |
| Fragments.ReassembledChunks | core/data/src/commonMain/kotlin/com/app/data/mesh/FragmentManager.kt:107-113 | with every index present, reassembly concatenates the fragments in index order |
| Fragments.DecodeCompleted | core/data/src/commonMain/kotlin/com/app/data/mesh/FragmentManager.kt:112-113 | no completed group gives no packet |
| Fragments.HandleOpens | core/data/src/commonMain/kotlin/com/app/data/mesh/FragmentManager.kt:97-101 | the first fragment of an id opens its group with the fragment's type and total and the current time |
| Fragments.HandleAdds | core/data/src/commonMain/kotlin/com/app/data/mesh/FragmentManager.kt:97-116 | a fragment for a group that stays incomplete is stored under its index, and the result is null |
| Fragments.HandleCompletes | core/data/src/commonMain/kotlin/com/app/data/mesh/FragmentManager.kt:103-113 | the fragment that completes a group removes the group and yields the reassembly |
| Fragments.FeedPermutation | core/data/src/commonMain/kotlin/com/app/data/mesh/FragmentManager.kt:85-121 | feeding a packet's fragments in any order gives null for each but the last, which yields the encoding, and leaves the groups as they were |
| Fragments.ReassemblesEncoding | core/data/src/commonMain/kotlin/com/app/data/mesh/FragmentManager.kt:42-121 | the fragments of a large packet, in any order of arrival, reassemble its encoding |
| Fragments.ReassemblyInAnyOrder | core/data/src/commonMain/kotlin/com/app/data/mesh/FragmentManager.kt:42-121 | in any order of arrival, the fragments yield null and then the packet that decoding its encoding gives |
| Fragments.UnexpiredProperties | core/data/src/commonMain/kotlin/com/app/data/mesh/FragmentManager.kt:148-157 | the sweep keeps exactly the groups at most 30 seconds old, unchanged, and a second sweep at a later time is the same as one sweep then |
| Fragments.FragmentManager.constructor | core/data/src/commonMain/kotlin/com/app/data/mesh/FragmentManager.kt:18-32 | no groups at first |
| Fragments.FragmentManager.HandleFragment | core/data/src/commonMain/kotlin/com/app/data/mesh/FragmentManager.kt:85-121 | the method with its index loop returns and stores what the reassembly function says |
| Fragments.FragmentManager.CleanupOldFragments | core/data/src/commonMain/kotlin/com/app/data/mesh/FragmentManager.kt:148-157 | the one-by-one removal leaves exactly the unexpired groups |
| Security.FreshAgrees | core/data/src/commonMain/kotlin/com/app/data/mesh/SecurityManager.kt:45-47 | with a non-negative clock and a timestamp below 2^63, the code's wrapping test and the intended test agree |
| Security.FreshAsWrittenAcceptsOpposite | core/data/src/commonMain/kotlin/com/app/data/mesh/SecurityManager.kt:45-47 | a timestamp 2^63 ms away from now passes the code's test but is not within five minutes |
| Security.GenerateMessageId | core/data/src/commonMain/kotlin/com/app/data/mesh/SecurityManager.kt:94-106 | the id carries the timestamp and the sender, and is a fragment id exactly for the fragment types |
| Security.SameIdForSamePrefix | core/data/src/commonMain/kotlin/com/app/data/mesh/SecurityManager.kt:101-104 | non-fragment packets that agree on time, sender and the first 64 payload bytes share an id |
| Security.IdsSeparate | core/data/src/commonMain/kotlin/com/app/data/mesh/SecurityManager.kt:94-106 | different times or senders never share an id, nor do fragments of different types |
| Security.Expired | core/data/src/commonMain/kotlin/com/app/data/mesh/SecurityManager.kt:121 | the sweep selects exactly the ids recorded before the cutoff |
| Security.RemovedStayValid | core/data/src/commonMain/kotlin/com/app/data/mesh/SecurityManager.kt:121-125 | removing the same ids from the processed list and the timestamps keeps them in step |
| Security.TrimmedStayValid | core/data/src/commonMain/kotlin/com/app/data/mesh/SecurityManager.kt:127-131 | dropping the oldest ids from both keeps them in step |
| Security.SecurityManager.constructor | core/data/src/commonMain/kotlin/com/app/data/mesh/SecurityManager.kt:16-35 | all records start empty |
| Security.SecurityManager.ValidatePacket | core/data/src/commonMain/kotlin/com/app/data/mesh/SecurityManager.kt:37-59 | accepts exactly a non-self packet with ttl above 0, a non-empty payload and a timestamp within five minutes; records a new id with the current time; a repeat is accepted and changes nothing |
| Security.SecurityManager.HandleKeyExchange | core/data/src/commonMain/kotlin/com/app/data/mesh/SecurityManager.kt:61-81 | rejects self and empty payloads and changes nothing then; otherwise records the exchange key once, stores the three peer keys when the payload is 96 bytes, succeeds exactly when the payload is 96 bytes, a private key is set and the agreement succeeds, and then installs the derived session key and reports the peer; this node's own keys and storage never change |
| Security.SecurityManager.VerifySignature | core/data/src/commonMain/kotlin/com/app/data/mesh/SecurityManager.kt:83-92 | an unsigned packet passes; a signed one passes exactly when the sender's key is known and verifies it |
| Security.SecurityManager.CleanupOldData | core/data/src/commonMain/kotlin/com/app/data/mesh/SecurityManager.kt:117-138 | drops ids older than five minutes from both records, then keeps the newest 10000 ids and the newest 1000 exchange keys |
| Security.SecurityManager.RemoveExpired | core/data/src/commonMain/kotlin/com/app/data/mesh/SecurityManager.kt:118-125 | every id recorded before the cutoff leaves both records |
| Security.SecurityManager.ForgetMessages | core/data/src/commonMain/kotlin/com/app/data/mesh/SecurityManager.kt:122-125 | the listed ids leave the timestamps and the processed list |
| Security.SecurityManager.ForgetMessage | core/data/src/commonMain/kotlin/com/app/data/mesh/SecurityManager.kt:123-124 | one id leaves both records |
| Security.SecurityManager.TrimProcessedMessages | core/data/src/commonMain/kotlin/com/app/data/mesh/SecurityManager.kt:127-131 | the oldest processed ids beyond 10000 leave both records |
| Security.SecurityManager.ForgetTimestamps | core/data/src/commonMain/kotlin/com/app/data/mesh/SecurityManager.kt:130 | the listed ids leave the timestamps |
| Security.SecurityManager.TrimProcessedKeyExchanges | core/data/src/commonMain/kotlin/com/app/data/mesh/SecurityManager.kt:133-137 | the oldest exchange keys beyond 1000 are dropped |
| Lists.ListOf | core/data/src/commonMain/kotlin/com/app/data/mesh/PeerManager.kt:57-59 | `toList` lists each member of the set once |
| Lists.Without | core/data/src/commonMain/kotlin/com/app/data/mesh/SecurityManager.kt:129 | `removeAll` never lengthens the list |
| Lists.WithoutMembers | core/data/src/commonMain/kotlin/com/app/data/mesh/SecurityManager.kt:129 | `removeAll` keeps exactly the elements outside the removed set |
| Lists.WithoutPrefix | core/data/src/commonMain/kotlin/com/app/data/mesh/SecurityManager.kt:128-129 | removing the first k elements of a list without repeats, as a set, leaves the rest |
| Lists.Newest | core/data/src/commonMain/kotlin/com/app/data/mesh/SecurityManager.kt:127-131 | trimming keeps the newest entries, at most the cap, and all of them when under the cap |
| Peers.SortedIds | core/data/src/commonMain/kotlin/com/app/data/mesh/PeerManager.kt:115 | `sorted()` lists the ids of the set in strictly increasing order |
| Peers.SortedIdsUnique | core/data/src/commonMain/kotlin/com/app/data/mesh/PeerManager.kt:114-122 | only one list gives the ids in increasing order |
| Peers.LeastOf | core/data/src/commonMain/kotlin/com/app/data/mesh/PeerManager.kt:115 | every non-empty set of ids has a least element |
| Peers.StaleNamesakes | core/data/src/commonMain/kotlin/com/app/data/mesh/PeerManager.kt:57-59 | exactly the other peers with the nickname, last seen more than 10 seconds ago |
| Peers.AnnouncedContents | core/data/src/commonMain/kotlin/com/app/data/mesh/PeerManager.kt:57-75 | after an announce, stale namesakes are gone, the peer has the nickname, the time, its old rssi and the announced mark, and other peers are unchanged |
| Peers.AnnouncedNoStaleNamesake | core/data/src/commonMain/kotlin/com/app/data/mesh/PeerManager.kt:57-63 | no namesake older than 10 seconds survives an announce |
| Peers.StalePeers | core/data/src/commonMain/kotlin/com/app/data/mesh/PeerManager.kt:136-138 | exactly the peers last seen more than three minutes ago |
| Peers.Disconnections | core/data/src/commonMain/kotlin/com/app/data/mesh/PeerManager.kt:143 | one disconnect event per removed peer |
| Peers.DisconnectionsReport | core/data/src/commonMain/kotlin/com/app/data/mesh/PeerManager.kt:94-95 | the i-th disconnect event names the i-th removed peer |
| Peers.PeerManager.constructor | core/data/src/commonMain/kotlin/com/app/data/mesh/PeerManager.kt:12-34 | an empty table and empty logs |
| Peers.PeerManager.UpdatePeerLastSeen | core/data/src/commonMain/kotlin/com/app/data/mesh/PeerManager.kt:41-48 | only a known peer other than "unknown" has its time changed, and nothing else changes |
| Peers.PeerManager.UpdatePeerRssi | core/data/src/commonMain/kotlin/com/app/data/mesh/PeerManager.kt:100-107 | only a known peer other than "unknown" has its rssi changed, and nothing else changes |
| Peers.PeerManager.AddOrUpdatePeer | core/data/src/commonMain/kotlin/com/app/data/mesh/PeerManager.kt:51-84 | false for "unknown"; otherwise the announced table, true exactly on a first announce, which emits PeerConnected and a sorted id list |
| Peers.PeerManager.RemoveSilently | core/data/src/commonMain/kotlin/com/app/data/mesh/PeerManager.kt:61-63 | the stale namesakes leave the table and the announced set, with no event |
| Peers.PeerManager.NotifyPeerListUpdate | core/data/src/commonMain/kotlin/com/app/data/mesh/PeerManager.kt:119-122 | publishes the ids in sorted order |
| Peers.PeerManager.RemovePeer | core/data/src/commonMain/kotlin/com/app/data/mesh/PeerManager.kt:87-89 | the peer leaves the table; a known one is reported with its nickname, followed by a sorted id list |
| Peers.PeerManager.RemovePeerInternal | core/data/src/commonMain/kotlin/com/app/data/mesh/PeerManager.kt:91-98 | as `RemovePeer`, with events only when notifying about a known peer |
| Peers.PeerManager.DisconnectStale | core/data/src/commonMain/kotlin/com/app/data/mesh/PeerManager.kt:143 | one more stale peer removed and reported after those before it, and the id list it publishes is the sorted ids that remain |
| Peers.PeerManager.GetAllPeerNicknames | core/data/src/commonMain/kotlin/com/app/data/mesh/PeerManager.kt:110-112 | each known id with its nickname |
| Peers.PeerManager.GetActivePeerIds | core/data/src/commonMain/kotlin/com/app/data/mesh/PeerManager.kt:114-116 | the known ids in sorted order |
| Peers.PeerManager.CleanupStalePeers | core/data/src/commonMain/kotlin/com/app/data/mesh/PeerManager.kt:133-146 | removes exactly the stale peers, with one disconnect event and one published id list each, in the removal order; each list is the sorted ids left after that removal |
| StoreForward.Appended | core/data/src/commonMain/kotlin/com/app/data/mesh/StoreForwardManager.kt:67-79 | the new entry is last; below the cap it is appended, and at the cap the oldest entry goes, so a cap is never exceeded |
| StoreForward.Undelivered | core/data/src/commonMain/kotlin/com/app/data/mesh/StoreForwardManager.kt:93 | the same filter as `WithoutIds`, over the delivered ids; never longer than the queue, and `FiltersKeep` states which entries stay |
| StoreForward.AddressedTo | core/data/src/commonMain/kotlin/com/app/data/mesh/StoreForwardManager.kt:96-100 | never longer than the cache; `FiltersKeep` states which entries stay |
| StoreForward.WithoutIds | core/data/src/commonMain/kotlin/com/app/data/mesh/StoreForwardManager.kt:117 | never longer than the cache; `FiltersKeep` states which entries stay |
| StoreForward.Unexpired | core/data/src/commonMain/kotlin/com/app/data/mesh/StoreForwardManager.kt:140-143 | never longer than the cache; `FiltersKeep` states which entries stay |
| StoreForward.FiltersKeep | core/data/src/commonMain/kotlin/com/app/data/mesh/StoreForwardManager.kt:93-142 | each filter keeps exactly the entries its predicate accepts: undelivered, addressed to the peer and undelivered, not sent, not an expired ordinary entry |
| StoreForward.WithoutIdsUnrelated | core/data/src/commonMain/kotlin/com/app/data/mesh/StoreForwardManager.kt:116-118 | a list holding none of the sent ids is left as it is |
| StoreForward.SortByTime | core/data/src/commonMain/kotlin/com/app/data/mesh/StoreForwardManager.kt:104 | sorting keeps the length |
| StoreForward.SortByTimePermutes | core/data/src/commonMain/kotlin/com/app/data/mesh/StoreForwardManager.kt:104 | sorting is a permutation |
| StoreForward.SortByTimeSorted | core/data/src/commonMain/kotlin/com/app/data/mesh/StoreForwardManager.kt:104 | the result is ordered by cache time |
| StoreForward.SortByTimeStable | core/data/src/commonMain/kotlin/com/app/data/mesh/StoreForwardManager.kt:104 | entries with equal times keep their order, as `sortBy` promises |
| StoreForward.Ids | core/data/src/commonMain/kotlin/com/app/data/mesh/StoreForwardManager.kt:107 | exactly the ids of the selected entries |
| StoreForward.Sends | core/data/src/commonMain/kotlin/com/app/data/mesh/StoreForwardManager.kt:110-113 | one send per selected entry |
| StoreForward.SendsInOrder | core/data/src/commonMain/kotlin/com/app/data/mesh/StoreForwardManager.kt:110-113 | the i-th send carries the i-th packet, after a pause of 100·i ms |
| StoreForward.ElapsedTriangular | core/data/src/commonMain/kotlin/com/app/data/mesh/StoreForwardManager.kt:110-113 | the k-th send happens 50·k·(k+1) ms after the flush starts |
| StoreForward.SelectionContents | core/data/src/commonMain/kotlin/com/app/data/mesh/StoreForwardManager.kt:90-104 | the flush selects exactly the undelivered entries of the peer's queue and the undelivered shared entries addressed to it, sorted by time |
| StoreForward.StoreForwardManager.constructor | core/data/src/commonMain/kotlin/com/app/data/mesh/StoreForwardManager.kt:31-39 | everything starts empty |
| StoreForward.StoreForwardManager.CachePacket | core/data/src/commonMain/kotlin/com/app/data/mesh/StoreForwardManager.kt:41-81 | key exchanges, announces, leaves, broadcasts and missing or empty recipients store nothing; otherwise the entry goes to the recipient's favourite queue or to the shared list, capped |
| StoreForward.StoreForwardManager.SendCachedMessages | core/data/src/commonMain/kotlin/com/app/data/mesh/StoreForwardManager.kt:83-120 | a peer already flushed changes nothing; otherwise the peer is marked, its queue removed, the selection marked delivered, sent in order and removed from the shared list |
| StoreForward.StoreForwardManager.SendAll | core/data/src/commonMain/kotlin/com/app/data/mesh/StoreForwardManager.kt:110-113 | the loop appends exactly the paced sends |
| StoreForward.StoreForwardManager.ShouldCacheForPeer | core/data/src/commonMain/kotlin/com/app/data/mesh/StoreForwardManager.kt:122-126 | true exactly when the peer is offline and a favourite |
| StoreForward.StoreForwardManager.CleanupMessageCache | core/data/src/commonMain/kotlin/com/app/data/mesh/StoreForwardManager.kt:140-143 | drops ordinary entries cached more than 12 hours ago, and nothing else |
| StoreForward.StoreForwardManager.CleanupDeliveredMessages | core/data/src/commonMain/kotlin/com/app/data/mesh/StoreForwardManager.kt:145-148 | clears the delivered set above 1000 and the flushed peers above 200 |
| StoreForward.StoreForwardManager.ClearAllCache | core/data/src/commonMain/kotlin/com/app/data/mesh/StoreForwardManager.kt:150-157 | all four structures are empty |
| Handler.RelayProbability | core/data/src/commonMain/kotlin/com/app/data/mesh/MessageHandler.kt:155-161 | between 0.4 and 1.0, and 1.0 up to ten peers |
| Handler.RelayProbabilityMonotone | core/data/src/commonMain/kotlin/com/app/data/mesh/MessageHandler.kt:155-161 | larger networks relay no more often than smaller ones |
| Handler.RelayMessage | core/data/src/commonMain/kotlin/com/app/data/mesh/MessageHandler.kt:149-169 | at most one relay, made exactly when ttl is not 0 and either the new ttl is at least 4, the network has at most 3 peers, or the draw is under the tier's probability; it carries ttl − 1 after the drawn pause |
| Handler.SmallNetworksAlwaysRelay | core/data/src/commonMain/kotlin/com/app/data/mesh/MessageHandler.kt:155-163 | in a network of at most ten, any packet with hops left is relayed |
| Handler.ManyHopsAlwaysRelay | core/data/src/commonMain/kotlin/com/app/data/mesh/MessageHandler.kt:163 | a ttl of 5 or more is always relayed |
| Handler.RelayNotice | core/data/src/commonMain/kotlin/com/app/data/mesh/MessageHandler.kt:115-118 | an announce or leave is relayed with ttl − 1 exactly when ttl > 1 |
| Handler.HandleAnnounce | core/data/src/commonMain/kotlin/com/app/data/mesh/MessageHandler.kt:28-40 | false and nothing for this node's own id; otherwise the peer's first-announce answer, the peer update and the relay notice |
| Handler.HandleLeave | core/data/src/commonMain/kotlin/com/app/data/mesh/MessageHandler.kt:102-119 | a "#" payload leaves a channel; otherwise the peer is removed and reported if its nickname is known; then the relay notice |
| Handler.FinalContent | core/data/src/commonMain/kotlin/com/app/data/mesh/MessageHandler.kt:64-72 | an encrypted channel message shows its decryption or the placeholder; any other message shows its content |
| Handler.HandleBroadcastMessage | core/data/src/commonMain/kotlin/com/app/data/mesh/MessageHandler.kt:56-81 | every relay is the packet with ttl − 1 |
| Handler.BroadcastDropped | core/data/src/commonMain/kotlin/com/app/data/mesh/MessageHandler.kt:57-60 | an undecodable payload or cover traffic does nothing, not even a relay |
| Handler.BroadcastDelivered | core/data/src/commonMain/kotlin/com/app/data/mesh/MessageHandler.kt:62-80 | the nickname update, then delivery with the resolved content and the sending peer, then the relay decision |
| Handler.DeliveryAckFor | core/data/src/commonMain/kotlin/com/app/data/mesh/MessageHandler.kt:171-194 | at most one DELIVERY_ACK, with ttl 3, addressed to the sender, sent exactly when encryption for the sender succeeds |
| Handler.HandlePrivateMessage | core/data/src/commonMain/kotlin/com/app/data/mesh/MessageHandler.kt:83-100 | a private message is never relayed |
| Handler.PrivateMessageOutcome | core/data/src/commonMain/kotlin/com/app/data/mesh/MessageHandler.kt:83-100 | delivered exactly when a present signature verifies, decryption succeeds, the unpadded payload decodes and it is not cover traffic; an ack follows only then |
| Handler.HandleMessage | core/data/src/commonMain/kotlin/com/app/data/mesh/MessageHandler.kt:42-54 | every relay is the packet with ttl − 1 |
| Handler.MessageRouting | core/data/src/commonMain/kotlin/com/app/data/mesh/MessageHandler.kt:42-54 | nothing for this node's own packets; broadcasts and null recipients are handled as broadcasts, packets for this node as private, and the rest only relayed |
| Handler.HandleDeliveryAck | core/data/src/commonMain/kotlin/com/app/data/mesh/MessageHandler.kt:121-132 | addressed to this node: no relay, and delivery exactly when decryption and decoding succeed; otherwise the relay decision |
| Handler.HandleReadReceipt | core/data/src/commonMain/kotlin/com/app/data/mesh/MessageHandler.kt:135-147 | addressed to this node: no relay, and delivery exactly when decryption and decoding succeed; otherwise the relay decision |
| Processor.Process | core/data/src/commonMain/kotlin/com/app/data/mesh/PacketProcessor.kt:23-45 | an invalid packet causes no call; a valid one starts with the last-seen update |
| Processor.Dispatch | core/data/src/commonMain/kotlin/com/app/data/mesh/PacketProcessor.kt:30-44 | outside the fragment types no further last-seen update happens |
| Processor.DirectCalls | core/data/src/commonMain/kotlin/com/app/data/mesh/PacketProcessor.kt:30-44 | the direct handlers make no last-seen update and concern only the sending peer |
| Processor.KeyExchangeCalls | core/data/src/commonMain/kotlin/com/app/data/mesh/PacketProcessor.kt:47-57 | after a successful exchange, the announcement 100 ms later and then the flush 500 ms after that; after a failure, neither |
| Processor.FragmentCalls | core/data/src/commonMain/kotlin/com/app/data/mesh/PacketProcessor.kt:59-69 | the fragment handler, then the full processing of a reassembled packet, then the relay with ttl − 1 exactly when ttl > 0 |
| Processor.InvalidIgnored | core/data/src/commonMain/kotlin/com/app/data/mesh/PacketProcessor.kt:24-26 | a packet failing validation causes nothing, not even the last-seen update |
| Processor.UnhandledDropped | core/data/src/commonMain/kotlin/com/app/data/mesh/PacketProcessor.kt:41-43 | channel announces, retention, status requests and unknown types cause only the last-seen update |
| Processor.KeyExchangeOrder | core/data/src/commonMain/kotlin/com/app/data/mesh/PacketProcessor.kt:28-57 | a valid key exchange gives the last-seen update, then the key-exchange calls |
| Processor.FragmentHandling | core/data/src/commonMain/kotlin/com/app/data/mesh/PacketProcessor.kt:59-69 | a valid fragment gives the last-seen update, then the fragment calls |
| Processor.SamePeerThroughout | core/data/src/commonMain/kotlin/com/app/data/mesh/PacketProcessor.kt:23-69 | every call, through any depth of reassembly, concerns the peer the packet came from |
| Processor.LastSeenOncePerRound | core/data/src/commonMain/kotlin/com/app/data/mesh/PacketProcessor.kt:23-69 | the last-seen update happens once per validated round, and only then |
| Builder.CopyOf | core/data/src/commonMain/kotlin/com/app/data/utils/ByteArrayAsBase64Serializer.kt:106 | `copyOf` gives a fresh array of the new size: the old bytes, then zeros |
| Builder.GrownSize | core/data/src/commonMain/kotlin/com/app/data/utils/ByteArrayAsBase64Serializer.kt:106 | at least the required size; max(required, 2·size) while doubling fits an `Int`, and exactly the required size once it wraps |
| Builder.ByteArrayBuilder.constructor | core/data/src/commonMain/kotlin/com/app/data/utils/ByteArrayAsBase64Serializer.kt:92-102 | holds the initial bytes in a buffer of at least 10 bytes; an initial array shorter than 10 is copied into a fresh buffer of max(10, 2·length) bytes, and a longer one is used as it is |
| Builder.ByteArrayBuilder.EnsureCapacity | core/data/src/commonMain/kotlin/com/app/data/utils/ByteArrayAsBase64Serializer.kt:104-107 | the buffer is large enough afterwards; it is replaced by a fresh one of `GrownSize` bytes only when too small, and the bytes held are kept |
| Builder.ByteArrayBuilder.Append | core/data/src/commonMain/kotlin/com/app/data/utils/ByteArrayAsBase64Serializer.kt:109-112 | the byte is added after the ones held, the position grows by one, and the initial array is never written |
| Builder.ByteArrayBuilder.Build | core/data/src/commonMain/kotlin/com/app/data/utils/ByteArrayAsBase64Serializer.kt:114 | a fresh array of exactly the bytes held |

## Left out

- Cryptography is abstract. X25519, Ed25519, AES-GCM and HMAC-SHA256 are function fields of `Crypto`. Correctness assumptions, such as `GcmCorrect` and `Ed25519Correct`, appear only as lemma preconditions.
- Secure storage is an abstract map (`SecureStorage`). Its file, keystore and preferences back ends are not part of this model.
- Concurrency is not modelled:
  - coroutines, `Mutex`, `scope.launch` and the periodic cleanup loops;
  - `SharedFlow` emissions and `shutdown`.

  Each operation is one atomic step. The sweeps are methods. Delays are values in the recorded calls. Emissions are appended logs.
- Peers.PeerManager.CleanupStalePeers: the source selects stale peers and removes them under two separate lock sections. The model runs both as one step, so a peer refreshed between the two is not modelled.
- StoreForward.StoreForwardManager.SendCachedMessages: the source runs the flush in a launched coroutine with three lock sections. The model runs it as one step, so effects that other calls interleave into it are not modelled.
- The clock, UUIDs and randomness are parameters:
  - `Clock.System.now()`;
  - `Uuid.random()`;
  - `Random.nextLong` and `nextDouble`, where the relay draw is a `real` compared against the tiers;
  - `generateSecureRandomBytes`, which becomes the padding filler.

  Floating point is not modelled beyond that comparison.
- The JSON ack and receipt codecs (`DeliveryAckDto`, `ReadReceiptDto`) are abstract function fields of the handler's delegate.
- Compression is a stub in the source. `shouldCompress` is false, and decompression always fails, which is how the model treats it.
- UTF-8 is not modelled. `encodeToByteArray` and `decodeToString` are the identity on bytes; invalid UTF-8 replacement characters are not modelled. Two consequences:
  - `PayloadCodec.IsWhitespace`, used for `isBlank`, knows only the ASCII white-space bytes. Kotlin also counts Unicode spaces as blank.
  - `Peers.LexLessEq`, used for `sorted()`, orders ids by UTF-8 byte. Kotlin orders strings by UTF-16 code unit. The two orders differ only for ids outside the Basic Multilingual Plane mixed with ids that use U+E000 to U+FFFF.
- `contentHashCode` is computed, but message and exchange ids are tuples. Collisions between different formatted id strings are not modelled.
- Handler.RelayMessage: the `getNetworkSize() ?: 1` default is not modelled, because `getNetworkSize` returns a non-null `Int` and the default can never apply.
- PeerManager's `announcedToPeers` is kept and cleared as the source does. Nothing in the source ever adds to it.
- The order of map and set iteration is arbitrary in the model. It appears in the peer and fragment sweeps and in `toList` of sets. The sweeps' contracts hold for any order.
- Builder.ByteArrayBuilder.Append: requires the position to stay below 2^31 − 1. The JVM array-size limit is a precondition, not an exception.
- Not modelled: the kotlinx.serialization plumbing around `ByteArrayBuilder`, `getDebugInfo`, `processPacket`'s `launch`, and the log `print` of unknown types.
- The `lateinit` fields' `UninitializedPropertyAccessException` becomes a `None` result. The same holds for `encrypt`, `decrypt`, `verify` and `sign` when they throw.

## Findings

| source | as written | input that shows it | evidently intended | confidence | as-written member | corrected member |
|---|---|---|---|---|---|---|
| core/data/src/commonMain/kotlin/com/app/data/utils/BinarySerializer.kt:110-137 | with the compressed flag set, `payloadLength - 2` goes negative for a length field under 2, and `readByteArray` throws an `IllegalArgumentException` that only EOF and IO catches let escape | version 1, the compressed flag, payload length 0, enough bytes for the sender and the original size (24 bytes) | `decode` returns null on every malformed input | not executed | BinaryCodec.DecodeThrowsOnShortCompressedPayload | BinaryCodec.Decode |
| core/data/src/commonMain/kotlin/com/app/data/mesh/SecurityManager.kt:45-47 | `abs(currentTime - timestamp.toLong())` wraps: a difference of `Long.MIN_VALUE` stays negative under `abs` and passes the five-minute test | a timestamp 2^63 ms away from now | accept only timestamps within five minutes of now | not executed | Security.FreshAsWrittenAcceptsOpposite | Security.SecurityManager.ValidatePacket |
