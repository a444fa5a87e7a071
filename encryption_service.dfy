/**
 * The byte-level bookkeeping of the Android `EncryptionService`: the local
 * key set and its persistent identity key, the 96-byte public key blob,
 * the four per-peer key maps, the AES-GCM framing and the HKDF-SHA256 key
 * derivation of RFC 5869 (sections 2.2 and 2.3). The primitives themselves
 * (X25519, Ed25519, AES-GCM, HMAC-SHA256) are the fields of a `Crypto` value.
 */
module Encryption {
  import opened ByteSeq
  import opened Options

  /** A 32-byte key, shared secret or HMAC-SHA256 output. */
  type Block32 = s: Bytes | |s| == 32 witness Zeros(32)

  /** A 12-byte AES-GCM nonce, as `Cipher.getIV()` returns for AES/GCM/NoPadding. */
  type Nonce = s: Bytes | |s| == 12 witness Zeros(12)

  /**
   * The cryptographic primitives. `agree` is `None` when BouncyCastle rejects
   * the agreement (an all-zero shared secret); `open` is `None` when the
   * authentication tag does not match.
   */
  datatype Crypto = Crypto(
    x25519Public: Block32 -> Block32,
    ed25519Public: Block32 -> Block32,
    agree: (Block32, Block32) -> Option<Block32>,
    hmac: (Bytes, Bytes) -> Block32,
    seal: (Bytes, Nonce, Bytes) -> Bytes,
    open: (Bytes, Nonce, Bytes) -> Option<Bytes>,
    ed25519Sign: (Block32, Bytes) -> Bytes,
    ed25519Verify: (Block32, Bytes, Bytes) -> bool)

  /** AES-GCM as a correct cipher: sealing appends a 16-byte tag and opening undoes sealing. */
  ghost predicate GcmCorrect(c: Crypto) {
    && (forall k, iv, p :: |c.seal(k, iv, p)| == |p| + 16)
    && (forall k, iv, p :: c.open(k, iv, c.seal(k, iv, p)) == Some(p))
  }

  /** Ed25519 as a correct scheme: a signature made with a private key checks under its public key. */
  ghost predicate Ed25519Correct(c: Crypto) {
    forall k, d :: c.ed25519Verify(c.ed25519Public(k), d, c.ed25519Sign(k, d))
  }

  const IdentityKeyName: string := "identity_key"

  /** UTF-8 bytes of "bitchat-v1", the HKDF salt shared with the iOS client. */
  const SessionSalt: Bytes := [98, 105, 116, 99, 104, 97, 116, 45, 118, 49]

  // ---------------------------------------------------------------- HKDF

  /** RFC 5869 section 2.2: PRK = HMAC(salt, IKM), where an empty salt means 32 zero bytes. */
  function Prk(c: Crypto, ikm: Bytes, salt: Bytes): Block32 {
    c.hmac(if |salt| == 0 then Zeros(32) else salt, ikm)
  }

  /** RFC 5869 section 2.3: T(i) = HMAC(PRK, T(i-1) | info | i), T(0) empty; the counter byte is `counter.toByte()`. */
  function T(c: Crypto, prk: Bytes, info: Bytes, i: nat): Block32
    requires i >= 1
  {
    var prev := if i == 1 then [] else T(c, prk, info, i - 1);
    c.hmac(prk, prev + info + [i % 256])
  }

  /** T(1) | ... | T(n). */
  function Okm(c: Crypto, prk: Bytes, info: Bytes, n: nat): (r: Bytes)
    ensures |r| == 32 * n
  {
    if n == 0 then [] else Okm(c, prk, info, n - 1) + T(c, prk, info, n)
  }

  /** The number of 32-byte blocks needed for `length` bytes. */
  function Blocks(length: nat): (n: nat)
    ensures 32 * n >= length
  {
    (length + 31) / 32
  }

  /** What `hkdf` returns: the first `length` bytes of the expanded key material. */
  function HkdfSpec(c: Crypto, ikm: Bytes, salt: Bytes, info: Bytes, length: nat): (r: Bytes)
    ensures |r| == length
  {
    Okm(c, Prk(c, ikm, salt), info, Blocks(length))[..length]
  }

  /** Expanding further only appends: fewer blocks are a prefix of more blocks. */
  lemma {:induction false} OkmPrefix(c: Crypto, prk: Bytes, info: Bytes, n: nat, m: nat)
    requires n <= m
    ensures Okm(c, prk, info, m)[..32 * n] == Okm(c, prk, info, n)
    decreases m
  {
    if n < m {
      OkmPrefix(c, prk, info, n, m - 1);
      var a := Okm(c, prk, info, m - 1);
      assert Okm(c, prk, info, m)[..32 * n] == a[..32 * n];
    }
  }

  /** Any number of blocks that covers `length` gives the same first `length` bytes. */
  lemma OkmCover(c: Crypto, prk: Bytes, info: Bytes, n: nat, m: nat, length: nat)
    requires length <= 32 * n && length <= 32 * m
    ensures Okm(c, prk, info, n)[..length] == Okm(c, prk, info, m)[..length]
  {
    if n <= m {
      OkmPrefix(c, prk, info, n, m);
      assert Okm(c, prk, info, m)[..length] == Okm(c, prk, info, m)[..32 * n][..length];
    } else {
      OkmPrefix(c, prk, info, m, n);
      assert Okm(c, prk, info, n)[..length] == Okm(c, prk, info, n)[..32 * m][..length];
    }
  }

  /** A shorter derivation is a prefix of a longer one with the same inputs. */
  lemma HkdfPrefix(c: Crypto, ikm: Bytes, salt: Bytes, info: Bytes, l1: nat, l2: nat)
    requires l1 <= l2
    ensures HkdfSpec(c, ikm, salt, info, l1) == HkdfSpec(c, ikm, salt, info, l2)[..l1]
  {
    var prk := Prk(c, ikm, salt);
    OkmCover(c, prk, info, Blocks(l1), Blocks(l2), l1);
  }

  /** Up to 32 bytes of output are the head of T(1) = HMAC(PRK, info | 0x01). */
  lemma HkdfOneBlock(c: Crypto, ikm: Bytes, salt: Bytes, info: Bytes, length: nat)
    requires 0 < length <= 32
    ensures HkdfSpec(c, ikm, salt, info, length) == c.hmac(Prk(c, ikm, salt), info + [1])[..length]
  {
    var prk := Prk(c, ikm, salt);
    assert Blocks(length) == 1;
    assert Okm(c, prk, info, 1) == T(c, prk, info, 1);
    assert [] + info + [1] == info + [1];
  }

  /** The last block of T(1) | ... | T(n) is T(n). */
  lemma OkmLast(c: Crypto, prk: Bytes, info: Bytes, n: nat)
    requires n >= 1
    ensures Okm(c, prk, info, n)[32 * (n - 1)..] == T(c, prk, info, n)
  {
    var a := Okm(c, prk, info, n - 1);
    assert Okm(c, prk, info, n) == a + T(c, prk, info, n);
  }

  /** `System.arraycopy(t, 0, result, offset, toCopy)`. */
  method CopyBlock(t: Bytes, result: array<byte>, offset: nat, toCopy: nat)
    requires toCopy <= |t| && offset + toCopy <= result.Length
    modifies result
    ensures result[..offset + toCopy] == old(result[..offset]) + t[..toCopy]
  {
    forall i | 0 <= i < toCopy {
      result[offset + i] := t[i];
    }
    assert result[..offset + toCopy] == old(result[..offset]) + t[..toCopy] by {
      assert forall i :: 0 <= i < offset ==> result[..offset + toCopy][i] == old(result[..offset])[i];
    }
  }

  /**
   * One round of the expand loop: T(counter) from the previous block read
   * back out of `result`, copied in at `offset`, cut at `result.Length`.
   */
  method ExpandBlock(c: Crypto, prk: Bytes, info: Bytes, result: array<byte>, offset: nat, counter: nat)
    returns (next: nat)
    requires counter >= 1 && offset < result.Length && offset == 32 * (counter - 1)
    requires result[..offset] == Okm(c, prk, info, counter - 1)
    modifies result
    ensures next == Min(32 * counter, result.Length)
    ensures result[..next] == Okm(c, prk, info, counter)[..next]
  {
    ghost var done := Okm(c, prk, info, counter - 1);
    var prev: Bytes := [];
    if counter > 1 {
      prev := result[offset - 32..offset];
      OkmLast(c, prk, info, counter - 1);
      assert prev == result[..offset][offset - 32..];
    }
    var t := c.hmac(prk, prev + info + [counter % 256]);
    assert t == T(c, prk, info, counter);
    var toCopy := Min(|t|, result.Length - offset);
    CopyBlock(t, result, offset, toCopy);
    next := offset + toCopy;
    assert result[..next] == done + t[..toCopy];
    assert Okm(c, prk, info, counter) == done + t;
    assert (done + t)[..next] == done + t[..toCopy];
  }

  /**
   * `hkdf`: extract, then fill `result` block by block. From the second
   * block on, the previous block is re-read from the 32 bytes just written.
   */
  method Hkdf(c: Crypto, ikm: Bytes, salt: Bytes, info: Bytes, length: nat) returns (r: Bytes)
    ensures r == HkdfSpec(c, ikm, salt, info, length)
  {
    var prk := c.hmac(if |salt| == 0 then Zeros(32) else salt, ikm);
    var result := new byte[length];
    var offset: nat := 0;
    var counter: nat := 1;
    while offset < length
      invariant counter >= 1
      invariant offset <= length && offset <= 32 * (counter - 1)
      invariant offset < length ==> offset == 32 * (counter - 1)
      invariant result[..offset] == Okm(c, prk, info, counter - 1)[..offset]
      decreases length - offset
    {
      assert Okm(c, prk, info, counter - 1)[..offset] == Okm(c, prk, info, counter - 1);
      offset := ExpandBlock(c, prk, info, result, offset, counter);
      counter := counter + 1;
    }
    assert prk == Prk(c, ikm, salt);
    assert result[..] == result[..offset];
    OkmCover(c, prk, info, counter - 1, Blocks(length), length);
    r := result[..];
  }

  // ---------------------------------------------------------------- storage

  /** `SecureStorage`: a persistent map from names to bytes. */
  class SecureStorage {
    var entries: map<string, Bytes>

    constructor (initial: map<string, Bytes>)
      ensures entries == initial
    {
      entries := initial;
    }

    function LoadData(key: string): (r: Option<Bytes>)
      reads this
      ensures r.Some? <==> key in entries
      ensures r.Some? ==> r.value == entries[key]
    {
      if key in entries then Some(entries[key]) else None
    }

    method SaveData(key: string, data: Bytes)
      modifies this
      ensures entries == old(entries)[key := data]
    {
      entries := entries[key := data];
    }

    method DeleteData(key: string)
      modifies this
      ensures entries == old(entries) - {key}
    {
      entries := entries - {key};
    }

    method ClearAll()
      modifies this
      ensures entries == map[]
    {
      entries := map[];
    }
  }

  // ---------------------------------------------------------------- key blob

  /** The 96-byte blob: agreement key, signing key, identity slot. */
  function Combined(agreement: Block32, signing: Block32, identity: Block32): (r: Bytes)
    ensures |r| == 96
  {
    agreement + signing + identity
  }

  /** How `addPeerPublicKey` cuts a blob: bytes [0,32), [32,64) and [64,96), or nothing unless it is 96 bytes. */
  function SplitBlob(data: Bytes): (r: Option<(Block32, Block32, Block32)>)
    ensures r.Some? <==> |data| == 96
    ensures r.Some? ==> r.value.0 + r.value.1 + r.value.2 == data
  {
    if |data| != 96 then None
    else Some((data[..32], data[32..64], data[64..]))
  }

  /** A blob built by one node is split by another into the same three keys. */
  lemma SplitCombined(agreement: Block32, signing: Block32, identity: Block32)
    ensures SplitBlob(Combined(agreement, signing, identity)) == Some((agreement, signing, identity))
  {
    var b := Combined(agreement, signing, identity);
    assert b[..32] == agreement;
    assert b[32..64] == signing;
    assert b[64..] == identity;
  }

  /** The AES key kept for a peer: HKDF of the X25519 shared secret with the "bitchat-v1" salt and no info. */
  function SessionKey(c: Crypto, shared: Block32): Bytes {
    HkdfSpec(c, shared, SessionSalt, [], 32)
  }

  /** The session key is the first HKDF block, HMAC(PRK, 0x01). */
  lemma SessionKeyIsFirstBlock(c: Crypto, shared: Block32)
    ensures SessionKey(c, shared) == c.hmac(c.hmac(SessionSalt, shared), [1])
  {
    HkdfOneBlock(c, shared, SessionSalt, [], 32);
    assert [] + [1] == [1];
  }

  // ---------------------------------------------------------------- service

  class EncryptionService {
    const crypto: Crypto
    const storage: SecureStorage

    /** The `lateinit` key fields: `None` until `initialize` sets them. */
    var privateKey: Option<Block32>
    var publicKey: Option<Block32>
    var signingPrivateKey: Option<Block32>
    var signingPublicKey: Option<Block32>
    var identityKey: Option<Block32>
    var identityPublicKey: Option<Block32>

    var peerPublicKeys: map<Bytes, Block32>
    var peerSigningKeys: map<Bytes, Block32>
    var peerIdentityKeys: map<Bytes, Block32>
    var sharedSecrets: map<Bytes, Bytes>

    constructor (crypto: Crypto, storage: SecureStorage)
      ensures this.crypto == crypto && this.storage == storage
      ensures privateKey.None? && publicKey.None? && signingPrivateKey.None? && signingPublicKey.None?
      ensures identityKey.None? && identityPublicKey.None?
      ensures peerPublicKeys == map[] && peerSigningKeys == map[] && peerIdentityKeys == map[] && sharedSecrets == map[]
    {
      this.crypto := crypto;
      this.storage := storage;
      privateKey, publicKey, signingPrivateKey, signingPublicKey := None, None, None, None;
      identityKey, identityPublicKey := None, None;
      peerPublicKeys, peerSigningKeys, peerIdentityKeys, sharedSecrets := map[], map[], map[], map[];
    }

    /**
     * `initialize`: fresh X25519 and Ed25519 key pairs from the generated
     * private keys, and the identity key loaded from storage, or generated
     * (`newIdentity`) and saved when none is stored. A stored key shorter
     * than 32 bytes makes the key constructor throw (`ok` false) after the
     * session keys are set. The identity public key is first derived, then
     * overwritten with the identity private key's own bytes.
     */
    method Initialize(agreementSeed: Block32, signingSeed: Block32, newIdentity: Block32) returns (ok: bool)
      modifies this, storage
      ensures privateKey == Some(agreementSeed) && publicKey == Some(crypto.x25519Public(agreementSeed))
      ensures signingPrivateKey == Some(signingSeed) && signingPublicKey == Some(crypto.ed25519Public(signingSeed))
      ensures var stored := old(storage.entries);
        && ok == (IdentityKeyName !in stored || |stored[IdentityKeyName]| >= 32)
        && (IdentityKeyName !in stored ==> identityKey == Some(newIdentity))
        && (IdentityKeyName !in stored ==> storage.entries == stored[IdentityKeyName := newIdentity])
        && (IdentityKeyName in stored ==> storage.entries == stored)
        && (ok && IdentityKeyName in stored ==> identityKey == Some(stored[IdentityKeyName][..32]))
        && (ok ==> identityPublicKey == identityKey)
        && (!ok ==> identityKey == old(identityKey) && identityPublicKey == old(identityPublicKey))
      ensures peerPublicKeys == old(peerPublicKeys) && peerSigningKeys == old(peerSigningKeys)
      ensures peerIdentityKeys == old(peerIdentityKeys) && sharedSecrets == old(sharedSecrets)
    {
      SetSessionKeyPairs(agreementSeed, signingSeed);
      var key := LoadIdentityKey(newIdentity);
      if key.None? {
        return false;
      }
      identityKey := key;
      identityPublicKey := Some(crypto.ed25519Public(key.value));
      identityPublicKey := key;
      ok := true;
    }

    /** The key-pair part of `initialize`: the X25519 and Ed25519 pairs of the generated private keys. */
    method SetSessionKeyPairs(agreementSeed: Block32, signingSeed: Block32)
      modifies this
      ensures privateKey == Some(agreementSeed) && publicKey == Some(crypto.x25519Public(agreementSeed))
      ensures signingPrivateKey == Some(signingSeed) && signingPublicKey == Some(crypto.ed25519Public(signingSeed))
      ensures identityKey == old(identityKey) && identityPublicKey == old(identityPublicKey)
      ensures peerPublicKeys == old(peerPublicKeys) && peerSigningKeys == old(peerSigningKeys)
      ensures peerIdentityKeys == old(peerIdentityKeys) && sharedSecrets == old(sharedSecrets)
    {
      privateKey := Some(agreementSeed);
      publicKey := Some(crypto.x25519Public(agreementSeed));
      signingPrivateKey := Some(signingSeed);
      signingPublicKey := Some(crypto.ed25519Public(signingSeed));
    }

    /**
     * The identity part of `initialize`: the stored key's first 32 bytes
     * (`None` when it is shorter and the key constructor throws), or
     * `newIdentity`, saved under "identity_key", when nothing is stored.
     */
    method LoadIdentityKey(newIdentity: Block32) returns (key: Option<Block32>)
      modifies storage
      ensures var stored := old(storage.entries);
        && (IdentityKeyName !in stored ==> key == Some(newIdentity))
        && (IdentityKeyName !in stored ==> storage.entries == stored[IdentityKeyName := newIdentity])
        && (IdentityKeyName in stored ==> storage.entries == stored)
        && (IdentityKeyName in stored ==> (key.Some? <==> |stored[IdentityKeyName]| >= 32))
        && (key.Some? && IdentityKeyName in stored ==> key == Some(stored[IdentityKeyName][..32]))
    {
      var identityKeyBytes := storage.LoadData(IdentityKeyName);
      if identityKeyBytes.Some? {
        if |identityKeyBytes.value| < 32 {
          return None;
        }
        key := Some(identityKeyBytes.value[..32]);
      } else {
        key := Some(newIdentity);
        storage.SaveData(IdentityKeyName, newIdentity);
      }
    }

    /** `getCombinedPublicKeyData`; `None` when a key is not initialised (`lateinit` throws). */
    function CombinedPublicKeyData(): (r: Option<Bytes>)
      reads this
      ensures r.Some? <==> publicKey.Some? && signingPublicKey.Some? && identityPublicKey.Some?
      ensures r.Some? ==> SplitBlob(r.value) == Some((publicKey.value, signingPublicKey.value, identityPublicKey.value))
    {
      if publicKey.None? || signingPublicKey.None? || identityPublicKey.None? then None
      else
        SplitCombined(publicKey.value, signingPublicKey.value, identityPublicKey.value);
        Some(Combined(publicKey.value, signingPublicKey.value, identityPublicKey.value))
    }

    /**
     * `addPeerPublicKey`: rejects a blob that is not 96 bytes (throws, `ok`
     * false, nothing changed); otherwise stores the three keys for the peer,
     * then derives and stores the session key. Without a local private key,
     * or when the agreement fails, it throws after the three key maps are
     * written and before the session key is.
     */
    method AddPeerPublicKey(peerID: Bytes, publicKeyData: Bytes) returns (ok: bool)
      modifies this
      ensures |publicKeyData| != 96 ==>
        && !ok && peerPublicKeys == old(peerPublicKeys)
        && peerSigningKeys == old(peerSigningKeys) && peerIdentityKeys == old(peerIdentityKeys)
      ensures |publicKeyData| == 96 ==>
        && peerPublicKeys == old(peerPublicKeys)[peerID := publicKeyData[..32]]
        && peerSigningKeys == old(peerSigningKeys)[peerID := publicKeyData[32..64]]
        && peerIdentityKeys == old(peerIdentityKeys)[peerID := publicKeyData[64..]]
      ensures ok <==> |publicKeyData| == 96 && privateKey.Some? && crypto.agree(privateKey.value, publicKeyData[..32]).Some?
      ensures ok ==> sharedSecrets == old(sharedSecrets)[peerID := SessionKey(crypto, crypto.agree(privateKey.value, publicKeyData[..32]).value)]
      ensures !ok ==> sharedSecrets == old(sharedSecrets)
      ensures privateKey == old(privateKey) && publicKey == old(publicKey)
      ensures signingPrivateKey == old(signingPrivateKey) && signingPublicKey == old(signingPublicKey)
      ensures identityKey == old(identityKey) && identityPublicKey == old(identityPublicKey)
    {
      if |publicKeyData| != 96 {
        return false;
      }
      var keyAgreementData: Block32 := publicKeyData[..32];
      var signingKeyData: Block32 := publicKeyData[32..64];
      var identityKeyData: Block32 := publicKeyData[64..];
      peerPublicKeys := peerPublicKeys[peerID := keyAgreementData];
      peerSigningKeys := peerSigningKeys[peerID := signingKeyData];
      peerIdentityKeys := peerIdentityKeys[peerID := identityKeyData];
      if privateKey.None? {
        return false;
      }
      var sharedSecret := crypto.agree(privateKey.value, keyAgreementData);
      if sharedSecret.None? {
        return false;
      }
      var derivedKey := Hkdf(crypto, sharedSecret.value, SessionSalt, [], 32);
      sharedSecrets := sharedSecrets[peerID := derivedKey];
      ok := true;
    }

    /** `getPeerIdentityKey`: the identity slot of the last blob added for the peer. */
    function GetPeerIdentityKey(peerID: Bytes): (r: Option<Bytes>)
      reads this
      ensures r.Some? <==> peerID in peerIdentityKeys
      ensures r.Some? ==> r.value == peerIdentityKeys[peerID]
    {
      if peerID in peerIdentityKeys then Some(peerIdentityKeys[peerID]) else None
    }

    /** `clearPersistentIdentity`: removes the stored identity key. */
    method ClearPersistentIdentity()
      modifies storage
      ensures storage.entries == old(storage.entries) - {IdentityKeyName}
    {
      storage.DeleteData(IdentityKeyName);
    }

    /** `encrypt`: nonce then ciphertext; `None` (throws) without a session key for the peer. */
    function Encrypt(data: Bytes, forPeerID: Bytes, iv: Nonce): (r: Option<Bytes>)
      reads this
      ensures r.Some? <==> forPeerID in sharedSecrets
      ensures r.Some? ==> |r.value| >= 12 && r.value[..12] == iv && r.value[12..] == crypto.seal(sharedSecrets[forPeerID], iv, data)
    {
      if forPeerID !in sharedSecrets then None
      else
        var combined := iv + crypto.seal(sharedSecrets[forPeerID], iv, data);
        assert combined[..12] == iv;
        Some(combined)
    }

    /**
     * `decrypt`: `None` (throws) without a session key, for data shorter than
     * 16 bytes, or when the tag does not verify; otherwise the first 12 bytes
     * are the nonce and the rest the ciphertext.
     */
    function Decrypt(data: Bytes, fromPeerID: Bytes): (r: Option<Bytes>)
      reads this
      ensures fromPeerID !in sharedSecrets || |data| < 16 ==> r.None?
      ensures fromPeerID in sharedSecrets && |data| >= 16 ==>
        r == crypto.open(sharedSecrets[fromPeerID], data[..12], data[12..])
    {
      if fromPeerID !in sharedSecrets then None
      else if |data| < 16 then None
      else crypto.open(sharedSecrets[fromPeerID], data[..12], data[12..])
    }

    /** `sign`: the Ed25519 signature under the signing private key; `None` (throws) before `initialize`. */
    function Sign(data: Bytes): (r: Option<Bytes>)
      reads this
      ensures r.Some? <==> signingPrivateKey.Some?
      ensures r.Some? ==> r.value == crypto.ed25519Sign(signingPrivateKey.value, data)
    {
      if signingPrivateKey.None? then None
      else Some(crypto.ed25519Sign(signingPrivateKey.value, data))
    }

    /** `verify`: `None` (throws) without a signing key for the peer, else the Ed25519 check under that key. */
    function Verify(signature: Bytes, data: Bytes, fromPeerID: Bytes): (r: Option<bool>)
      reads this
      ensures r.Some? <==> fromPeerID in peerSigningKeys
      ensures r.Some? ==> r.value == crypto.ed25519Verify(peerSigningKeys[fromPeerID], data, signature)
    {
      if fromPeerID !in peerSigningKeys then None
      else Some(crypto.ed25519Verify(peerSigningKeys[fromPeerID], data, signature))
    }

    /** With a correct cipher, decrypting what was encrypted for the same peer gives the plaintext back. */
    lemma DecryptEncrypt(data: Bytes, peerID: Bytes, iv: Nonce)
      requires GcmCorrect(crypto) && peerID in sharedSecrets
      ensures Encrypt(data, peerID, iv).Some?
      ensures Decrypt(Encrypt(data, peerID, iv).value, peerID) == Some(data)
    {
      var e := Encrypt(data, peerID, iv).value;
      assert |crypto.seal(sharedSecrets[peerID], iv, data)| == |data| + 16;
    }

    /**
     * The identity slot of this node's blob carries the identity PRIVATE key,
     * because the assignment that turns the key's bytes into the "public" key
     * replaces the derived public key.
     */
    lemma IdentitySlotIsPrivateKey()
      requires identityKey.Some? && identityPublicKey == identityKey
      requires publicKey.Some? && signingPublicKey.Some?
      ensures CombinedPublicKeyData().Some?
      ensures CombinedPublicKeyData().value[64..] == identityKey.value
    {
      var d := CombinedPublicKeyData().value;
      assert SplitBlob(d).value.2 == identityKey.value;
    }
  }

  /**
   * A peer that holds this node's signing public key, as `initialize` derives
   * it, accepts everything this node signs.
   */
  lemma SignThenVerify(signer: EncryptionService, verifier: EncryptionService, signerId: Bytes, data: Bytes)
    requires Ed25519Correct(signer.crypto) && verifier.crypto == signer.crypto
    requires signer.signingPrivateKey.Some?
    requires signer.signingPublicKey == Some(signer.crypto.ed25519Public(signer.signingPrivateKey.value))
    requires signerId in verifier.peerSigningKeys && verifier.peerSigningKeys[signerId] == signer.signingPublicKey.value
    ensures signer.Sign(data).Some?
    ensures verifier.Verify(signer.Sign(data).value, data, signerId) == Some(true)
  {
    var k := signer.signingPrivateKey.value;
    assert signer.crypto.ed25519Verify(signer.crypto.ed25519Public(k), data, signer.crypto.ed25519Sign(k, data));
  }

  /** After a successful `initialize`, the blob exists and its identity slot is the identity private key. */
  lemma InitializedBlobLeaksIdentity(s: EncryptionService)
    requires s.publicKey.Some? && s.signingPublicKey.Some? && s.identityKey.Some? && s.identityPublicKey == s.identityKey
    ensures s.CombinedPublicKeyData().Some? && s.CombinedPublicKeyData().value[64..] == s.identityKey.value
  {
    s.IdentitySlotIsPrivateKey();
  }
}
