/** Encrypting a private key under a password, storing it, reading it and decrypting it. */
module KeyEncryptionProofs {
  import opened Bytes
  import opened SshWire
  import opened Certificates
  import opened Kdfs
  import opened Keypairs
  import opened PrivateKeys
  import opened PrivateKeyProofs

  /** The derived key and IV, and the sealed section that became the ciphertext. */
  lemma EncryptSeals(x: Crypto, k: PrivateKey, cipher: Cipher, kdf: Kdf, checkint: nat, password: bytes)
    returns (key: bytes, iv: bytes)
    requires x.Blocks() && x.Keys() && EncryptWith(x, k, cipher, kdf, checkint, password).Ok?
    ensures var e := EncryptWith(x, k, cipher, kdf, checkint, password).value;
            && KeyAndIv(x, kdf, cipher, password) == Ok((key, iv)) && cipher != Plain
            && EncodablePair(k.keyData) && Fits(k.publicKey.comment)
            && e.keyData.EncryptedPair? && e.checkint == None
            && HeaderOf(e) == Header(cipher, kdf, k.publicKey.keyData) && e.publicKey.comment == []
            && x.encrypt(cipher, key, iv, Section(x, cipher, k.keyData, k.publicKey.comment, checkint))
               == Ok(Sealed(e.keyData.ciphertext, e.authTag))
  {
    key, iv := KeyAndIv(x, kdf, cipher, password).value.0, KeyAndIv(x, kdf, cipher, password).value.1;
  }

  /** What encryption hands to the cipher, in terms of the password hash: bytes of the hash of password, salt and
      rounds as key, its next bytes as IV except with ChaCha20, whose IV is zeros, and the padded section. */
  lemma EncryptHands(x: Crypto, k: PrivateKey, cipher: Cipher, kdf: Kdf, checkint: nat, password: bytes)
    returns (key: bytes, iv: bytes)
    requires x.Blocks() && x.Keys() && EncryptWith(x, k, cipher, kdf, checkint, password).Ok?
    ensures x.keyAndIvSize(cipher) == Some((|key|, |iv|)) && kdf.Bcrypt?
    ensures var e := EncryptWith(x, k, cipher, kdf, checkint, password).value;
            var okm := x.bcrypt(password, kdf.salt, kdf.rounds, |key| + |iv|);
            && okm.Ok? && key <= okm.value
            && (if cipher.ChaCha20Poly1305? then iv == Zeros(|iv|) else key + iv == okm.value)
            && e.keyData.EncryptedPair?
            && x.encrypt(cipher, key, iv, Section(x, cipher, k.keyData, k.publicKey.comment, checkint))
               == Ok(Sealed(e.keyData.ciphertext, e.authTag))
  {
    hide Section, EncodablePair, Zeros;
    key, iv := EncryptSeals(x, k, cipher, kdf, checkint, password);
  }

  /** And so for decryption: the same key and IV, and what the cipher opens is read as a section. */
  lemma DecryptHands(x: Crypto, e: PrivateKey, password: bytes) returns (key: bytes, iv: bytes, section: bytes)
    requires x.Blocks() && x.Keys() && Decrypt(x, e, password).Ok?
    ensures x.keyAndIvSize(e.cipher) == Some((|key|, |iv|)) && e.kdf.Bcrypt? && e.keyData.EncryptedPair?
    ensures var okm := x.bcrypt(password, e.kdf.salt, e.kdf.rounds, |key| + |iv|);
            && okm.Ok? && key <= okm.value
            && (if e.cipher.ChaCha20Poly1305? then iv == Zeros(|iv|) else key + iv == okm.value)
            && x.decrypt(e.cipher, key, iv, Sealed(e.keyData.ciphertext, e.authTag)) == Ok(section)
            && Decrypt(x, e, password)
               == GetSection(x, section, e.publicKey.keyData, x.blockSize(e.cipher), x.blockSize(e.cipher) - 1)
  {
    hide GetSection, Zeros;
    key, iv := KeyAndIv(x, e.kdf, e.cipher, password).value.0, KeyAndIv(x, e.kdf, e.cipher, password).value.1;
    section := x.decrypt(e.cipher, key, iv, Sealed(e.keyData.ciphertext, e.authTag)).value;
  }

  lemma DecryptOpens(x: Crypto, e: PrivateKey, password: bytes, key: bytes, iv: bytes, section: bytes)
    requires x.Blocks() && x.Keys() && e.keyData.EncryptedPair?
    requires KeyAndIv(x, e.kdf, e.cipher, password) == Ok((key, iv))
    requires x.decrypt(e.cipher, key, iv, Sealed(e.keyData.ciphertext, e.authTag)) == Ok(section)
    ensures Decrypt(x, e, password)
         == GetSection(x, section, e.publicKey.keyData, x.blockSize(e.cipher), x.blockSize(e.cipher) - 1)
  {
    hide GetSection;
  }

  /** Encryption makes a valid encrypted key of whole blocks, which holds the public key but not the
      comment. */
  lemma EncryptMakesValid(x: Crypto, k: PrivateKey, cipher: Cipher, kdf: Kdf, checkint: nat, password: bytes)
    requires x.Lawful() && ValidClear(k) && Kdfs.Valid(kdf)
    requires EncryptWith(x, k, cipher, kdf, checkint, password).Ok?
    ensures var e := EncryptWith(x, k, cipher, kdf, checkint, password).value;
            && ValidEncrypted(x, e) && CanonicalSecret(x, e) && AsRead(e) == e
            && e.publicKey == PublicKey.PublicKey(k.publicKey.keyData, [])
  {
    var key, iv := EncryptSeals(x, k, cipher, kdf, checkint, password);
    SectionLength(x, cipher, k.keyData, k.publicKey.comment, checkint);
    ClearKeyValid(k);
  }

  /** Decrypting with the same password gives the key back, comment included. */
  lemma DecryptUndoesEncrypt(x: Crypto, k: PrivateKey, cipher: Cipher, kdf: Kdf, checkint: nat, password: bytes)
    requires x.Lawful() && ValidClear(k) && checkint < TWO_32 && CanonicalPair(x, k.keyData)
    requires EncryptWith(x, k, cipher, kdf, checkint, password).Ok?
    ensures Decrypt(x, EncryptWith(x, k, cipher, kdf, checkint, password).value, password)
         == Ok(k.(checkint := Some(checkint)))
  {
    hide GetSection, Section;
    var e := EncryptWith(x, k, cipher, kdf, checkint, password).value;
    var key, iv := EncryptSeals(x, k, cipher, kdf, checkint, password);
    var section := Section(x, cipher, k.keyData, k.publicKey.comment, checkint);
    assert x.decrypt(cipher, key, iv, Sealed(e.keyData.ciphertext, e.authTag)) == Ok(section);
    DecryptOpens(x, e, password, key, iv, section);
    SectionReads(x, k, cipher, checkint);
  }

  lemma SectionReads(x: Crypto, k: PrivateKey, cipher: Cipher, checkint: nat)
    requires x.Blocks() && ValidClear(k) && checkint < TWO_32 && CanonicalPair(x, k.keyData)
    requires EncodablePair(k.keyData) && Fits(k.publicKey.comment)
    ensures GetSection(x, Section(x, cipher, k.keyData, k.publicKey.comment, checkint),
                       k.publicKey.keyData, x.blockSize(cipher), x.blockSize(cipher) - 1)
         == Ok(k.(checkint := Some(checkint)))
  {
    hide GetSection, EncSection;
    var p, comment, b := k.keyData, k.publicKey.comment, x.blockSize(cipher);
    var n := PaddingLen(x, cipher, UnpaddedLen(p, comment));
    SectionLength(x, cipher, p, comment, checkint);
    GetSectionOf(x, p, comment, checkint, n, b, b - 1);
    ClearFields(k, checkint);
  }

  /** An unencrypted key is determined by its pair, comment and checkint. */
  lemma ClearFields(k: PrivateKey, checkint: nat)
    requires ValidClear(k)
    ensures PublicOf(k.keyData) == Ok(k.publicKey.keyData)
    ensures k.(checkint := Some(checkint))
         == PrivateKey(Plain, NoKdf, Some(checkint), PublicKey.PublicKey(k.publicKey.keyData, k.publicKey.comment),
                       k.keyData, None)
  {
  }

  /** Whatever decryption yields is a valid unencrypted key with a canonical pair, the public key stored
      in the clear, and a checkint. */
  lemma DecryptYields(x: Crypto, e: PrivateKey, password: bytes)
    requires x.Blocks() && x.Keys() && Decrypt(x, e, password).Ok?
    ensures var k := Decrypt(x, e, password).value;
            && ValidClear(k) && CanonicalPair(x, k.keyData)
            && k.publicKey.keyData == e.publicKey.keyData && k.checkint.Some?
  {
    hide GetSection, GetPair, SectionPadding;
    var key, iv, section := DecryptHands(x, e, password);
    var _ := AcceptedSection(x, section, e.publicKey.keyData, x.blockSize(e.cipher), x.blockSize(e.cipher) - 1);
  }

  /** Encrypt, write, read and decrypt: the key comes back, comment included and with the given
      checkint, exactly when it is canonical. */
  lemma StoredKeyComesBackIff(
    x: Crypto, k: PrivateKey, cipher: Cipher, kdf: Kdf, checkint: nat, password: bytes)
    requires x.Lawful() && ValidClear(k) && Kdfs.Valid(kdf) && checkint < TWO_32
    requires EncryptWith(x, k, cipher, kdf, checkint, password).Ok?
    requires PrivateKeys.Encodable(x, EncryptWith(x, k, cipher, kdf, checkint, password).value)
    ensures var e := EncryptWith(x, k, cipher, kdf, checkint, password).value;
            var read := FromBytes(x, PrivateKeys.Enc(x, e, []));
            read.Ok? && Decrypt(x, read.value, password) == Ok(k.(checkint := Some(checkint)))
            <==> Canonical(x, k)
  {
    var e := EncryptWith(x, k, cipher, kdf, checkint, password).value;
    var b := PrivateKeys.Enc(x, e, []);
    EncryptMakesValid(x, k, cipher, kdf, checkint, password);
    if Canonical(x, k) {
      PrivateKeyProofs.RoundTrip(x, e);
      DecryptUndoesEncrypt(x, k, cipher, kdf, checkint, password);
    } else if FromBytes(x, b).Ok? && Decrypt(x, FromBytes(x, b).value, password) == Ok(k.(checkint := Some(checkint))) {
      ComesBackCanonical(x, b, k, password);
    }
  }

  lemma ComesBackCanonical(x: Crypto, b: bytes, k: PrivateKey, password: bytes)
    requires x.Lawful() && ValidClear(k) && EncodableKey(k.publicKey.keyData)
    requires FromBytes(x, b).Ok? && Decrypt(x, FromBytes(x, b).value, password).Ok?
    requires var d := Decrypt(x, FromBytes(x, b).value, password).value;
             d.keyData == k.keyData && d.publicKey == k.publicKey
    ensures Canonical(x, k)
  {
    hide Decode, Decrypt, CanonicalKey, EncodableKey, NamedKey, CanonicalPair;
    DecryptYields(x, FromBytes(x, b).value, password);
    ClearKeyValid(k);
    DecodedIff(x, b);
  }
}
