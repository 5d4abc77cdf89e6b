/** The operations on top of the codecs as they run: signing and verifying over freshly written bytes,
    and encrypting and decrypting private keys. */
module Operations {
  import opened Bytes
  import opened SshWire
  import opened SshReader
  import opened Algorithms
  import opened Certificates
  import opened Kdfs
  import opened Keypairs
  import KeySigning
  import SshSigs
  import SshVerify
  import PrivateKeys
  import Encoders
  import PrivateEncoders
  import Decoders

  method SignPrehash(k: SshVerify.SigningKey, namespace: bytes, h: HashAlg, prehash: bytes)
    returns (r: Result<SshSigs.SshSig>)
    ensures r == SshVerify.SignPrehash(k, namespace, h, prehash)
  {
    hide SshSigs.SignedData;
    if namespace == [] {
      return Err(Namespace);
    }
    if k.publicKey.SkEd25519Key? || k.publicKey.SkEcdsaKey? {
      return Err(AlgorithmUnsupported);
    }
    if |prehash| != DigestSize(h) {
      return Err(HashSize);
    }
    var data :- Encoders.EncodeSignedData(namespace, [], h, prehash);
    var signature :- k.trySign(data);
    r := SshVerify.New(k.publicKey, namespace, h, signature);
  }

  method VerifyPrehash(x: KeySigning.Scheme, k: KeyData, namespace: bytes, prehash: bytes, s: SshSigs.SshSig)
    returns (r: Result<()>)
    ensures r == SshVerify.VerifyPrehash(x, k, namespace, prehash, s)
  {
    hide SshSigs.SignedData, KeySigning.VerifyKey;
    if k != s.publicKey {
      return Err(Error.PublicKey);
    }
    if namespace != s.namespace {
      return Err(Namespace);
    }
    if |prehash| != DigestSize(s.hashAlg) {
      return Err(HashSize);
    }
    var data :- Encoders.EncodeSignedData(s.namespace, s.reserved, s.hashAlg, prehash);
    r := KeySigning.VerifyKey(x, s.publicKey, data, s.signature);
  }

  method VerifySignature(x: KeySigning.Scheme, c: Certificate) returns (r: Result<()>)
    requires ValidCert(c)
    ensures r == SshVerify.VerifySignature(x, c)
  {
    hide EncTbs, KeySigning.VerifyKey, EncKey, EncodableKey, EncodableFields, ValidCert;
    var tbs := new Writer();
    var ok := Encoders.EncodeTbs(tbs, c);
    if !ok {
      return Err(Length);
    }
    FromStart(EncTbs(c, []));
    var v := KeySigning.VerifyKey(x, c.signatureKey, tbs.out, c.signature);
    r := if v.Ok? then Ok(()) else Err(CertificateValidation);
  }

  /** The signature, then the authority's fingerprint, then the validity period. */
  method ValidateAt(x: KeySigning.Scheme, c: Certificate, now: nat, trusted: seq<SshVerify.Fingerprint>)
    returns (r: Result<()>)
    requires ValidCert(c)
    ensures r == SshVerify.ValidateAt(x, c, now, trusted)
  {
    hide SshVerify.VerifySignature, SshVerify.FingerprintOf;
    var _ :- VerifySignature(x, c);
    if SshVerify.FingerprintOf(x, Sha256, c.signatureKey) !in trusted {
      return Err(CertificateValidation);
    }
    if c.fields.validAfter <= now && now < c.fields.validBefore {
      r := Ok(());
    } else {
      r := Err(CertificateValidation);
    }
  }

  /** Writes the padded section into a buffer and encrypts the buffer. */
  method EncryptWith(x: Crypto, k: PrivateKeys.PrivateKey, cipher: Cipher, kdf: Kdf, checkint: nat, password: bytes)
    returns (r: Result<PrivateKeys.PrivateKey>)
    requires x.Blocks() && x.Keys() && PrivateKeys.Valid(x, k)
    ensures r == PrivateKeys.EncryptWith(x, k, cipher, kdf, checkint, password)
  {
    hide PrivateKeys.Section, KeyAndIv, EncodablePair, ValidPair, PublicOf, Str, U32;
    if k.keyData.EncryptedPair? {
      return Err(Encrypted);
    }
    var keyAndIv :- DeriveKeyAndIv(x, kdf, cipher, password);
    var out := new Writer();
    var ok := PrivateEncoders.EncodeSection(out, x, cipher, k.keyData, k.publicKey.comment, checkint);
    if !ok {
      return Err(Length);
    }
    FromStart(PrivateKeys.Section(x, cipher, k.keyData, k.publicKey.comment, checkint));
    var sealed :- x.encrypt(cipher, keyAndIv.0, keyAndIv.1, out.out);
    r := Ok(PrivateKeys.PrivateKey(cipher, kdf, None, PrivateKeys.PublicKey.PublicKey(k.publicKey.keyData, []),
                                   EncryptedPair(sealed.data), sealed.tag));
  }

  method Decrypt(x: Crypto, k: PrivateKeys.PrivateKey, password: bytes) returns (r: Result<PrivateKeys.PrivateKey>)
    requires x.Blocks() && x.Keys()
    ensures r == PrivateKeys.Decrypt(x, k, password)
  {
    hide PrivateKeys.GetSection, KeyAndIv;
    var keyAndIv :- DeriveKeyAndIv(x, k.kdf, k.cipher, password);
    if !k.keyData.EncryptedPair? {
      return Err(Decrypted);
    }
    var section :- x.decrypt(k.cipher, keyAndIv.0, keyAndIv.1, Sealed(k.keyData.ciphertext, k.authTag));
    var reader := new Reader(section);
    r := Decoders.DecodeSection(x, reader, k.publicKey.keyData, x.blockSize(k.cipher), x.blockSize(k.cipher) - 1);
  }
}
