/** OpenSSH private keys: the binary container, its padded inner section, and password encryption. */
module PrivateKeys {
  import opened Bytes
  import opened SshWire
  import opened Algorithms
  import opened Certificates
  import opened Kdfs
  import opened Keypairs

  datatype PublicKey = PublicKey(keyData: KeyData, comment: bytes)

  datatype PrivateKey = PrivateKey(
    cipher: Cipher,
    kdf: Kdf,
    checkint: Option<nat>,
    publicKey: PublicKey,
    keyData: Keypair,
    authTag: Option<bytes>)

  const AUTH_MAGIC := Ascii("openssh-key-v1") + [0]

  // ---------- The padded inner section ----------

  const PADDING_BYTES: bytes := [1, 2, 3, 4, 5, 6, 7, 8, 9, 10, 11, 12, 13, 14, 15, 16]

  lemma PaddingIsPrefix(n: nat)
    requires n <= MAX_BLOCK_SIZE
    ensures Padding(n) == PADDING_BYTES[..n]
  {
  }

  /** Padding counts 1, 2, 3, ... */
  function Padding(n: nat): (r: bytes)
    requires n <= MAX_BLOCK_SIZE
    ensures |r| == n
  {
    seq(n, i requires 0 <= i < n => i + 1)
  }

  /** Two equal checkints, the key pair, its comment, and what follows. */
  function EncSection(p: Keypair, comment: bytes, checkint: nat, tail: bytes): bytes {
    U32(checkint) + (U32(checkint) + EncPair(p, Str(comment) + tail))
  }

  function UnpaddedLen(p: Keypair, comment: bytes): nat {
    8 + PairLen(p) + (4 + |comment|)
  }

  function SectionLen(x: Crypto, c: Cipher, p: Keypair, comment: bytes): nat
    requires x.Blocks()
  {
    var n := UnpaddedLen(p, comment);
    n + PaddingLen(x, c, n)
  }

  function Section(x: Crypto, c: Cipher, p: Keypair, comment: bytes, checkint: nat): bytes
    requires x.Blocks()
  {
    EncSection(p, comment, checkint, Padding(PaddingLen(x, c, UnpaddedLen(p, comment))))
  }

  /** Reads the end of a section: the comment, then padding up to the end. */
  function GetComment(b: bytes, maxPadding: nat): Result<bytes>
    requires maxPadding <= MAX_BLOCK_SIZE
  {
    var (comment, padding) :- GetStr(b);
    if |padding| > maxPadding then Err(Length)
    else if padding != Padding(|padding|) then Err(FormatEncoding)
    else Ok(comment)
  }

  function GetSection(x: Crypto, b: bytes, publicKey: KeyData, blockSize: nat, maxPadding: nat): Result<PrivateKey>
    requires 1 <= blockSize && maxPadding <= MAX_BLOCK_SIZE
  {
    if |b| % blockSize != 0 then Err(Length)
    else
      var (checkint1, b1) :- GetU32(b);
      var (checkint2, b2) :- GetU32(b1);
      if checkint1 != checkint2 then Err(Error.Crypto)
      else
        var (pair, b3) :- GetPair(x, b2);
        var ownKey :- PublicOf(pair);
        if publicKey != ownKey then Err(Error.PublicKey)
        else
          var comment :- GetComment(b3, maxPadding);
          Ok(PrivateKey(Plain, NoKdf, Some(checkint1), PublicKey.PublicKey(publicKey, comment), pair, None))
  }

  // ---------- The container ----------

  /** The checkint written: the key's own, or else the default one. */
  function CheckintOf(k: PrivateKey): nat {
    if k.checkint.Some? then k.checkint.value else DefaultCheckint(k.keyData)
  }

  /** The part that holds the key pair, in the clear or encrypted. */
  function EncSecret(x: Crypto, k: PrivateKey, tail: bytes): bytes
    requires x.Blocks()
  {
    if k.keyData.EncryptedPair? then
      Str(k.keyData.ciphertext) + ((if k.authTag.Some? then k.authTag.value else []) + tail)
    else
      U32(SectionLen(x, Plain, k.keyData, k.publicKey.comment))
      + (Section(x, Plain, k.keyData, k.publicKey.comment, CheckintOf(k)) + tail)
  }

  /** What stands before it. */
  datatype Header = Header(cipher: Cipher, kdf: Kdf, publicKey: KeyData)

  function HeaderOf(k: PrivateKey): Header {
    Header(k.cipher, k.kdf, k.publicKey.keyData)
  }

  function EncHeader(x: Crypto, h: Header, tail: bytes): bytes {
    AUTH_MAGIC + (Str(x.name(h.cipher)) + Kdfs.Enc(h.kdf, U32(1) + (Str(EncKey(h.publicKey, [])) + tail)))
  }

  function Enc(x: Crypto, k: PrivateKey, tail: bytes): bytes
    requires x.Blocks()
  {
    EncHeader(x, HeaderOf(k), EncSecret(x, k, tail))
  }

  function SecretLen(x: Crypto, k: PrivateKey): nat
    requires x.Blocks()
  {
    if k.keyData.EncryptedPair? then
      (4 + |k.keyData.ciphertext|) + (if k.authTag.Some? then |k.authTag.value| else 0)
    else
      4 + SectionLen(x, Plain, k.keyData, k.publicKey.comment) + (if k.authTag.Some? then |k.authTag.value| else 0)
  }

  /** Cipher, KDF, and the encoded public key. */
  function GetRawHeader(x: Crypto, b: bytes): Parsed<(Cipher, Kdf, bytes)> {
    var (magic, b1) :- Take(b, |AUTH_MAGIC|);
    if magic != AUTH_MAGIC then Err(FormatEncoding)
    else
      var (cipher, b2) :- GetCipher(x, b1);
      var (kdf, b3) :- Kdfs.Get(b2);
      var (nkeys, b4) :- GetU32(b3);
      if nkeys != 1 then Err(Length)
      else
        var (keyBytes, b5) :- GetStr(b4);
        Ok(((cipher, kdf, keyBytes), b5))
  }

  function GetHeader(x: Crypto, b: bytes): Parsed<Header> {
    var ((cipher, kdf, keyBytes), rest) :- GetRawHeader(x, b);
    var key :- Finish(GetKey(keyBytes));
    Ok((Header(cipher, kdf, key), rest))
  }

  function GetEncrypted(x: Crypto, h: Header, b: bytes): Result<PrivateKey>
    requires x.Blocks()
  {
    var (ct, b1) :- GetStr(b);
    if |ct| % x.blockSize(h.cipher) != 0 then Err(Error.Crypto)
    else
      var (tag, b2) :- if x.hasTag(h.cipher) then GetTag(b1) else Ok((None, b1));
      if b2 != [] then Err(TrailingData)
      else Ok(PrivateKey(h.cipher, h.kdf, None, PublicKey.PublicKey(h.publicKey, []), EncryptedPair(ct), tag))
  }

  function GetTag(b: bytes): Parsed<Option<bytes>> {
    var (tag, rest) :- Take(b, TAG_SIZE);
    Ok((Some(tag), rest))
  }

  /** Without a cipher up to 16 bytes of padding are tolerated, twice what is ever written. */
  function GetSecret(x: Crypto, h: Header, b: bytes): Parsed<PrivateKey>
    requires x.Blocks()
  {
    if h.cipher != Plain then
      var k :- GetEncrypted(x, h, b);
      Ok((k, []))
    else if h.kdf != NoKdf then Err(Error.Crypto)
    else
      var (section, rest) :- GetStr(b);
      var k :- GetSection(x, section, h.publicKey, x.blockSize(Plain), MAX_BLOCK_SIZE);
      Ok((k, rest))
  }

  function Decode(x: Crypto, b: bytes): Parsed<PrivateKey>
    requires x.Blocks()
  {
    var (h, b1) :- GetHeader(x, b);
    GetSecret(x, h, b1)
  }

  function FromBytes(x: Crypto, b: bytes): Result<PrivateKey>
    requires x.Blocks()
  {
    Finish(Decode(x, b))
  }

  // ---------- What holds of every key ----------

  /** Unencrypted keys have neither cipher nor KDF nor tag, and hold the public half of their pair. */
  ghost predicate ValidClear(k: PrivateKey) {
    && k.cipher == Plain && k.kdf == NoKdf && k.authTag == None
    && (k.checkint.Some? ==> k.checkint.value < TWO_32)
    && ValidPair(k.keyData) && PublicOf(k.keyData) == Ok(k.publicKey.keyData)
  }

  ghost predicate ValidEncrypted(x: Crypto, k: PrivateKey) {
    && k.cipher != Plain && Kdfs.Valid(k.kdf) && k.checkint == None
    && (k.authTag.Some? <==> x.hasTag(k.cipher)) && (k.authTag.Some? ==> |k.authTag.value| == TAG_SIZE)
    && ValidKey(k.publicKey.keyData) && k.keyData.EncryptedPair?
  }

  ghost predicate Valid(x: Crypto, k: PrivateKey) {
    if k.keyData.EncryptedPair? then ValidEncrypted(x, k) else ValidClear(k)
  }

  /** Every length fits its prefix. */
  ghost predicate Encodable(x: Crypto, k: PrivateKey)
    requires x.Blocks()
  {
    && Kdfs.Encodable(k.kdf)
    && EncodableKey(k.publicKey.keyData) && Fits(EncKey(k.publicKey.keyData, []))
    && if k.keyData.EncryptedPair? then Fits(k.keyData.ciphertext)
       else
         EncodablePair(k.keyData) && Fits(k.publicKey.comment)
         && SectionLen(x, Plain, k.keyData, k.publicKey.comment) < TWO_32
  }

  // ---------- Password encryption ----------

  /** Encrypts an unencrypted key. */
  ghost function EncryptWith(x: Crypto, k: PrivateKey, cipher: Cipher, kdf: Kdf, checkint: nat, password: bytes)
    : Result<PrivateKey>
    requires x.Blocks() && x.Keys()
  {
    if k.keyData.EncryptedPair? then Err(Encrypted)
    else
      var (key, iv) :- KeyAndIv(x, kdf, cipher, password);
      if !EncodablePair(k.keyData) || !Fits(k.publicKey.comment) then Err(Length)
      else
        var sealed :- x.encrypt(cipher, key, iv, Section(x, cipher, k.keyData, k.publicKey.comment, checkint));
        Ok(PrivateKey(cipher, kdf, None, PublicKey.PublicKey(k.publicKey.keyData, []),
                      EncryptedPair(sealed.data), sealed.tag))
  }

  function Decrypt(x: Crypto, k: PrivateKey, password: bytes): Result<PrivateKey>
    requires x.Blocks() && x.Keys()
  {
    var (key, iv) :- KeyAndIv(x, k.kdf, k.cipher, password);
    if !k.keyData.EncryptedPair? then Err(Decrypted)
    else
      var section :- x.decrypt(k.cipher, key, iv, Sealed(k.keyData.ciphertext, k.authTag));
      GetSection(x, section, k.publicKey.keyData, x.blockSize(k.cipher), x.blockSize(k.cipher) - 1)
  }
}
