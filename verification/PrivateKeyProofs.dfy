/** What writing, reading, encrypting and decrypting private keys preserve. */
module PrivateKeyProofs {
  import opened Bytes
  import opened SshWire
  import opened Algorithms
  import opened Certificates
  import opened Kdfs
  import opened Keypairs
  import opened KeypairProofs
  import opened PrivateKeys
  import CertificateProofs
  import CertificateReads
  import CertificateResults

  // ---------- The padded section ----------

  lemma EncSectionAppend(p: Keypair, comment: bytes, checkint: nat, tail: bytes)
    ensures EncSection(p, comment, checkint, tail) == EncSection(p, comment, checkint, []) + tail
  {
    hide Str, U32, EncPair;
    var ci, e, s := U32(checkint), EncPair(p, []), Str(comment);
    EncPairAppend(p, s + tail);
    EncPairAppend(p, s + []);
    NoTail(s);
    Glue4(ci, ci, e, s, tail);
    Glue3(ci, ci, e, s);
  }

  lemma UnpaddedLength(p: Keypair, comment: bytes, checkint: nat)
    requires ValidPair(p)
    ensures |EncSection(p, comment, checkint, [])| == UnpaddedLen(p, comment)
  {
    EncPairAppend(p, Str(comment) + []);
    PairLength(p);
  }

  /** A section is as long as announced, and block-aligned. */
  lemma SectionLength(x: Crypto, c: Cipher, p: Keypair, comment: bytes, checkint: nat)
    requires x.Blocks() && ValidPair(p)
    ensures |Section(x, c, p, comment, checkint)| == SectionLen(x, c, p, comment)
    ensures |Section(x, c, p, comment, checkint)| % x.blockSize(c) == 0
  {
    var n := UnpaddedLen(p, comment);
    UnpaddedLength(p, comment, checkint);
    EncSectionAppend(p, comment, checkint, Padding(PaddingLen(x, c, n)));
    PaddingUnique(x, c, n, PaddingLen(x, c, n));
  }

  lemma GetCommentOf(comment: bytes, n: nat, max: nat)
    requires Fits(comment) && n <= max <= MAX_BLOCK_SIZE
    ensures GetComment(Str(comment) + Padding(n), max) == Ok(comment)
  {
    GetStrOf(comment, Padding(n));
  }

  /** Reading a section with its own public key gives pair, comment and checkint. */
  lemma GetSectionOf(x: Crypto, p: Keypair, comment: bytes, checkint: nat, n: nat, blockSize: nat, max: nat)
    requires ValidPair(p) && EncodablePair(p) && CanonicalPair(x, p)
    requires Fits(comment) && checkint < TWO_32 && 1 <= blockSize && n <= max <= MAX_BLOCK_SIZE
    requires |EncSection(p, comment, checkint, Padding(n))| % blockSize == 0
    ensures PublicOf(p).Ok?
    ensures GetSection(x, EncSection(p, comment, checkint, Padding(n)), PublicOf(p).value, blockSize, max)
         == Ok(PrivateKey(Plain, NoKdf, Some(checkint), PublicKey.PublicKey(PublicOf(p).value, comment), p, None))
  {
    var t2 := Str(comment) + Padding(n);
    var t1 := EncPair(p, t2);
    GetU32Of(checkint, U32(checkint) + t1);
    GetU32Of(checkint, t1);
    GetPairOf(x, p, t2);
    GetCommentOf(comment, n, max);
  }

  /** What follows the comment of a section. */
  function SectionPadding(x: Crypto, b: bytes): Result<bytes> {
    var (_, b2) :- Take(b, 8);
    var (_, b3) :- GetPair(x, b2);
    var (_, padding) :- GetStr(b3);
    Ok(padding)
  }

  /** Every accepted section: aligned, one checkint twice, a pair with the expected public half, its comment,
      then the bytes 1, 2, ... up to at most the allowed padding. */
  lemma AcceptedSection(x: Crypto, b: bytes, publicKey: KeyData, blockSize: nat, max: nat) returns (n: nat)
    requires 1 <= blockSize && max <= MAX_BLOCK_SIZE
    requires GetSection(x, b, publicKey, blockSize, max).Ok?
    ensures n <= max && |b| % blockSize == 0 && |b| >= 8 && SectionPadding(x, b) == Ok(Padding(n))
    ensures var k := GetSection(x, b, publicKey, blockSize, max).value;
            && ValidClear(k) && CanonicalPair(x, k.keyData) && k.publicKey.keyData == publicKey
            && EncodablePair(k.keyData) && Fits(k.publicKey.comment) && k.checkint.Some?
            && b == U32(k.checkint.value) + (U32(k.checkint.value) + b[8..])
            && GetPair(x, b[8..]) == Ok((k.keyData, Str(k.publicKey.comment) + Padding(n)))
  {
    hide GetPair, EncPair, GetU32, GetStr, Str, U32, CanonicalPair, EncodablePair;
    var (checkint, b1) := GetU32(b).value;
    var (_, b2) := GetU32(b1).value;
    AfterCheckints(b, checkint, b2);
    PairRead(x, b2);
    var (p, b3) := GetPair(x, b2).value;
    var (comment, padding) := GetStr(b3).value;
    n := |padding|;
  }

  lemma AfterCheckints(b: bytes, checkint: nat, rest: bytes)
    requires b == U32(checkint) + (U32(checkint) + rest)
    ensures |b| >= 8 && b[8..] == rest && Take(b, 8).Ok? && Take(b, 8).value.1 == rest
  {
    assert |U32(checkint)| == 4;
  }

  /** Of the aligned ways to pad a section, the one the encoder uses is the one below a block. */
  lemma PaddedRewrittenIff(x: Crypto, c: Cipher, p: Keypair, comment: bytes, checkint: nat, n: nat)
    requires x.Blocks() && ValidPair(p) && n <= MAX_BLOCK_SIZE
    requires |EncSection(p, comment, checkint, Padding(n))| % x.blockSize(c) == 0
    ensures |EncSection(p, comment, checkint, Padding(n))| == UnpaddedLen(p, comment) + n
    ensures Section(x, c, p, comment, checkint) == EncSection(p, comment, checkint, Padding(n))
            <==> n < x.blockSize(c)
  {
    UnpaddedLength(p, comment, checkint);
    EncSectionAppend(p, comment, checkint, Padding(n));
    SectionLength(x, c, p, comment, checkint);
    if n < x.blockSize(c) {
      PaddingUnique(x, c, UnpaddedLen(p, comment), n);
    }
  }

  /** Writing an accepted section again gives the same bytes exactly when its pair was written verbatim and
      its padding was shorter than a block: longer padding is tolerated but not reproduced. */
  lemma SectionRewrittenIff(x: Crypto, b: bytes, publicKey: KeyData, c: Cipher, max: nat)
    requires x.Blocks() && max <= MAX_BLOCK_SIZE
    requires GetSection(x, b, publicKey, x.blockSize(c), max).Ok?
    ensures var k := GetSection(x, b, publicKey, x.blockSize(c), max).value;
            var padding := SectionPadding(x, b);
            && k.checkint.Some? && padding.Ok? && |padding.value| <= max && |b| >= 8
            && (Section(x, c, k.keyData, k.publicKey.comment, k.checkint.value) == b
                <==> VerbatimPair(b[8..]) && |padding.value| < x.blockSize(c))
  {
    hide GetSection, GetPair, VerbatimPair, EncPair, CanonicalPair, EncodablePair, Section, ValidPair;
    var n := AcceptedSection(x, b, publicKey, x.blockSize(c), max);
    var k := GetSection(x, b, publicKey, x.blockSize(c), max).value;
    var p, comment, ci := k.keyData, k.publicKey.comment, k.checkint.value;
    PairRead(x, b[8..]);
    if VerbatimPair(b[8..]) {
      PaddedRewrittenIff(x, c, p, comment, ci, n);
    } else if Section(x, c, p, comment, ci) == b {
      PairReadAgain(x, c, p, comment, ci, b[8..]);
    }
  }

  /** A section that is written as it was read had its pair written so. */
  lemma PairReadAgain(x: Crypto, c: Cipher, p: Keypair, comment: bytes, checkint: nat, b: bytes)
    requires x.Blocks() && ValidPair(p) && EncodablePair(p) && CanonicalPair(x, p)
    requires Section(x, c, p, comment, checkint) == U32(checkint) + (U32(checkint) + b)
    requires GetPair(x, b).Ok?
    ensures EncPair(p, GetPair(x, b).value.1) == b
  {
    hide GetPair, EncPair, CanonicalPair, EncodablePair, ValidPair, Str, U32;
    var t := Str(comment) + Padding(PaddingLen(x, c, UnpaddedLen(p, comment)));
    GetPairOf(x, p, t);
    SamePrefix(U32(checkint), U32(checkint) + EncPair(p, t), U32(checkint) + b);
    SamePrefix(U32(checkint), EncPair(p, t), b);
  }

  // ---------- The container ----------

  lemma GetHeaderOf(x: Crypto, h: Header, tail: bytes)
    requires x.Names() && Kdfs.Valid(h.kdf) && Kdfs.Encodable(h.kdf) && Fits(EncKey(h.publicKey, []))
    requires ValidKey(h.publicKey) && EncodableKey(h.publicKey) && CanonicalKey(h.publicKey)
    ensures GetHeader(x, EncHeader(x, h, tail)) == Ok((h.(publicKey := BareKey(h.publicKey)), tail))
  {
    var key := EncKey(h.publicKey, []);
    var t4 := Str(key) + tail;
    var t3 := U32(1) + t4;
    var t2 := Kdfs.Enc(h.kdf, t3);
    TakeOf(AUTH_MAGIC, Str(x.name(h.cipher)) + t2);
    GetCipherOf(x, h.cipher, t2);
    Kdfs.RoundTrip(h.kdf, t3);
    GetU32Of(1, t4);
    GetStrOf(key, tail);
    CertificateProofs.KeyRoundTrip(h.publicKey, []);
  }

  function RawHeader(x: Crypto, cipher: Cipher, kdf: Kdf, keyBytes: bytes, tail: bytes): bytes {
    AUTH_MAGIC + (Str(x.name(cipher)) + Kdfs.Enc(kdf, U32(1) + (Str(keyBytes) + tail)))
  }

  lemma RawHeaderInverse(x: Crypto, b: bytes)
    requires x.Names() && GetRawHeader(x, b).Ok?
    ensures var ((cipher, kdf, keyBytes), rest) := GetRawHeader(x, b).value;
            && b == RawHeader(x, cipher, kdf, keyBytes, rest)
            && Fits(keyBytes) && Kdfs.Valid(kdf) && Kdfs.Encodable(kdf)
  {
    var (_, b1) := Take(b, |AUTH_MAGIC|).value;
    GetCipherInverse(x, b1);
    var (_, b2) := GetCipher(x, b1).value;
    Kdfs.Inverse(b2);
    var (_, b3) := Kdfs.Get(b2).value;
    var (_, b4) := GetU32(b3).value;
  }

  /** Everything up to the encoded key. */
  lemma RawHeaderSplits(x: Crypto, cipher: Cipher, kdf: Kdf, keyBytes: bytes, tail: bytes)
    ensures RawHeader(x, cipher, kdf, keyBytes, tail)
         == (AUTH_MAGIC + (Str(x.name(cipher)) + (Kdfs.Enc(kdf, []) + U32(1)))) + (Str(keyBytes) + tail)
  {
    hide Str, U32, Kdfs.Enc;
    var t := Str(keyBytes) + tail;
    Kdfs.EncAppend(kdf, U32(1) + t);
    Glue4(AUTH_MAGIC, Str(x.name(cipher)), Kdfs.Enc(kdf, []), U32(1), t);
    Glue3(AUTH_MAGIC, Str(x.name(cipher)), Kdfs.Enc(kdf, []), U32(1));
  }

  /** Two containers alike but for the key and what follows are the same only when those are. */
  lemma SameHeaderIff(x: Crypto, cipher: Cipher, kdf: Kdf, k: bytes, t: bytes, k': bytes, t': bytes)
    requires Fits(k) && Fits(k')
    ensures RawHeader(x, cipher, kdf, k, t) == RawHeader(x, cipher, kdf, k', t') <==> k == k' && t == t'
  {
    hide RawHeader, Str, Kdfs.Enc, U32;
    RawHeaderSplits(x, cipher, kdf, k, t);
    RawHeaderSplits(x, cipher, kdf, k', t');
    SamePrefixIff(AUTH_MAGIC + (Str(x.name(cipher)) + (Kdfs.Enc(kdf, []) + U32(1))), Str(k) + t, Str(k') + t');
    if Str(k) + t == Str(k') + t' {
      StrInjective(k, t, k', t');
    }
  }

  /** What a header was read from. */
  lemma HeaderParts(x: Crypto, b: bytes)
    requires x.Names() && GetHeader(x, b).Ok?
    ensures GetRawHeader(x, b).Ok?
    ensures var (h, rest) := GetHeader(x, b).value;
            var keyBytes := GetRawHeader(x, b).value.0.2;
            && b == RawHeader(x, h.cipher, h.kdf, keyBytes, rest) && Fits(keyBytes)
            && Kdfs.Valid(h.kdf) && Kdfs.Encodable(h.kdf)
            && GetKey(keyBytes) == Ok((h.publicKey, []))
  {
    hide GetRawHeader, RawHeader, GetKey, Kdfs.Valid, Kdfs.Encodable;
    RawHeaderInverse(x, b);
    CertificateReads.FinishedKey(GetRawHeader(x, b).value.0.2);
  }

  /** The key of a header that was read: it can be written, and is canonical, exactly when no certificate in
      it misses a name; and then takes no more room than it did. */
  lemma HeaderKeyRead(x: Crypto, b: bytes)
    requires x.Names() && GetHeader(x, b).Ok?
    ensures var k := GetHeader(x, b).value.0.publicKey;
            var keyBytes := GetRawHeader(x, b).value.0.2;
            && ValidKey(k) && (EncodableKey(k) <==> NamedKey(k)) && (CanonicalKey(k) <==> NamedKey(k))
            && (NamedKey(k) ==>
                  Fits(EncKey(k, [])) && (EncKey(k, []) == keyBytes <==> CertificateReads.VerbatimKey(keyBytes)))
  {
    hide GetHeader, GetRawHeader, ValidKey, EncodableKey, NamedKey, CanonicalKey, CertificateReads.VerbatimKey,
      EncKey, RawHeader, GetKey, Kdfs.Valid, Kdfs.Encodable;
    HeaderParts(x, b);
    CertificateResults.DecodedKeyIff(GetRawHeader(x, b).value.0.2);
  }

  // ---------- Announced length ----------

  function EncodedLen(x: Crypto, k: PrivateKey): nat
    requires x.Blocks()
  {
    |AUTH_MAGIC| + (4 + |x.name(k.cipher)|) + Kdfs.EncodedLen(k.kdf) + 4
    + (4 + CertificateProofs.KeyLen(k.publicKey.keyData)) + SecretLen(x, k)
  }

  lemma SecretLength(x: Crypto, k: PrivateKey)
    requires x.Blocks() && PrivateKeys.Valid(x, k)
    ensures |EncSecret(x, k, [])| == SecretLen(x, k)
  {
    if !k.keyData.EncryptedPair? {
      SectionLength(x, Plain, k.keyData, k.publicKey.comment, CheckintOf(k));
    }
  }

  lemma ClearKeyValid(k: PrivateKey)
    requires ValidClear(k)
    ensures ValidKey(k.publicKey.keyData) && BareKey(k.publicKey.keyData) == k.publicKey.keyData
    ensures !k.keyData.EncryptedPair? && NamedKey(k.publicKey.keyData)
  {
  }

  /** The container has the announced length. */
  lemma EncodedLength(x: Crypto, k: PrivateKey)
    requires x.Blocks() && PrivateKeys.Valid(x, k) && PrivateKeys.Encodable(x, k)
    ensures |PrivateKeys.Enc(x, k, [])| == EncodedLen(x, k)
  {
    SecretLength(x, k);
    if !k.keyData.EncryptedPair? {
      ClearKeyValid(k);
    }
    var key := EncKey(k.publicKey.keyData, []);
    CertificateProofs.KeyLength(k.publicKey.keyData);
    Kdfs.EncAppend(k.kdf, U32(1) + (Str(key) + EncSecret(x, k, [])));
    Kdfs.EncLength(k.kdf);
  }

  // ---------- Reading back what was written ----------

  /** What reading a written key gives: an unencrypted key with its checkint filled in, or an encrypted
      one without comments. */
  function AsRead(k: PrivateKey): PrivateKey {
    if k.keyData.EncryptedPair? then
      k.(publicKey := PublicKey.PublicKey(BareKey(k.publicKey.keyData), []))
    else k.(checkint := Some(CheckintOf(k)))
  }

  ghost predicate CanonicalSecret(x: Crypto, k: PrivateKey)
    requires x.Blocks()
  {
    if k.keyData.EncryptedPair? then |k.keyData.ciphertext| % x.blockSize(k.cipher) == 0
    else CanonicalPair(x, k.keyData)
  }

  /** The public key is canonical, and so is the pair; ciphertext comes in whole blocks. */
  ghost predicate Canonical(x: Crypto, k: PrivateKey)
    requires x.Blocks()
  {
    CanonicalKey(k.publicKey.keyData) && CanonicalSecret(x, k)
  }

  lemma GetSecretJoins(x: Crypto, h: Header, section: bytes, rest: bytes)
    requires x.Blocks() && h.cipher == Plain && h.kdf == NoKdf && Fits(section)
    requires GetSection(x, section, h.publicKey, 8, MAX_BLOCK_SIZE).Ok?
    ensures GetSecret(x, h, Str(section) + rest)
         == Ok((GetSection(x, section, h.publicKey, 8, MAX_BLOCK_SIZE).value, rest))
  {
    GetStrOf(section, rest);
  }

  lemma ClearSecretIsSection(x: Crypto, k: PrivateKey, tail: bytes)
    requires x.Blocks() && ValidClear(k)
    ensures EncSecret(x, k, tail)
         == Str(Section(x, Plain, k.keyData, k.publicKey.comment, CheckintOf(k))) + tail
  {
    SectionLength(x, Plain, k.keyData, k.publicKey.comment, CheckintOf(k));
    ClearKeyValid(k);
  }

  lemma GetClearSecretOf(x: Crypto, k: PrivateKey, tail: bytes)
    requires x.Blocks() && ValidClear(k) && CanonicalPair(x, k.keyData)
    requires EncodablePair(k.keyData) && Fits(k.publicKey.comment)
    requires SectionLen(x, Plain, k.keyData, k.publicKey.comment) < TWO_32
    ensures GetSecret(x, HeaderOf(k), EncSecret(x, k, tail)) == Ok((k.(checkint := Some(CheckintOf(k))), tail))
  {
    var p, comment, ci := k.keyData, k.publicKey.comment, CheckintOf(k);
    SectionLength(x, Plain, p, comment, ci);
    ClearSecretIsSection(x, k, tail);
    GetSectionOf(x, p, comment, ci, PaddingLen(x, Plain, UnpaddedLen(p, comment)), 8, MAX_BLOCK_SIZE);
    GetSecretJoins(x, HeaderOf(k), Section(x, Plain, p, comment, ci), tail);
  }

  lemma GetEncryptedSecretOf(x: Crypto, k: PrivateKey, key: KeyData)
    requires x.Blocks() && ValidEncrypted(x, k) && CanonicalSecret(x, k) && Fits(k.keyData.ciphertext)
    ensures GetSecret(x, HeaderOf(k).(publicKey := key), EncSecret(x, k, []))
         == Ok((k.(publicKey := PublicKey.PublicKey(key, [])), []))
  {
    var tag := if k.authTag.Some? then k.authTag.value else [];
    GetStrOf(k.keyData.ciphertext, tag + []);
    if k.authTag.Some? {
      TakeOf(tag, []);
    }
  }

  lemma DecodeJoins(x: Crypto, b: bytes, h: Header, rest: bytes)
    requires x.Blocks() && GetHeader(x, b) == Ok((h, rest))
    ensures Decode(x, b) == GetSecret(x, h, rest)
  {
  }

  lemma RoundTrip(x: Crypto, k: PrivateKey)
    requires x.Blocks() && x.Names() && PrivateKeys.Valid(x, k) && PrivateKeys.Encodable(x, k) && Canonical(x, k)
    ensures FromBytes(x, PrivateKeys.Enc(x, k, [])) == Ok(AsRead(k))
  {
    hide GetHeader, GetSecret, EncSecret, EncHeader, CanonicalKey, EncodableKey, EncKey;
    var h, key := HeaderOf(k), BareKey(k.publicKey.keyData);
    if k.keyData.EncryptedPair? {
      GetEncryptedSecretOf(x, k, key);
    } else {
      ClearKeyValid(k);
      GetClearSecretOf(x, k, []);
    }
    GetHeaderOf(x, h, EncSecret(x, k, []));
    DecodeJoins(x, PrivateKeys.Enc(x, k, []), h.(publicKey := key), EncSecret(x, k, []));
  }

  lemma DecodeSplits(x: Crypto, b: bytes) returns (h: Header, rest: bytes)
    requires x.Blocks() && Decode(x, b).Ok?
    ensures GetHeader(x, b) == Ok((h, rest)) && Decode(x, b) == GetSecret(x, h, rest)
  {
    hide GetHeader, GetSecret;
    h, rest := GetHeader(x, b).value.0, GetHeader(x, b).value.1;
  }

  /** An unencrypted secret is a section that was accepted. */
  lemma ClearSecretInverse(x: Crypto, h: Header, b: bytes)
    requires x.Blocks() && h.cipher == Plain && GetSecret(x, h, b).Ok?
    ensures h.kdf == NoKdf && GetStr(b).Ok?
    ensures var (section, rest) := GetStr(b).value;
            var r := GetSection(x, section, h.publicKey, x.blockSize(Plain), MAX_BLOCK_SIZE);
            r.Ok? && GetSecret(x, h, b) == Ok((r.value, rest)) && HeaderOf(r.value) == h
  {
    hide GetPair, GetComment;
  }

  lemma EncryptedSecretInverse(x: Crypto, h: Header, b: bytes)
    requires x.Blocks() && h.cipher != Plain && GetSecret(x, h, b).Ok?
    ensures var (k, rest) := GetSecret(x, h, b).value;
            && k.keyData.EncryptedPair? && HeaderOf(k) == h && k.checkint == None && CanonicalSecret(x, k)
            && (k.authTag.Some? <==> x.hasTag(k.cipher)) && (k.authTag.Some? ==> |k.authTag.value| == TAG_SIZE)
            && rest == [] && b == EncSecret(x, k, [])
  {
    var (ct, b1) := GetStr(b).value;
  }

  /** What is read is valid; it can be written, and reads back as itself, exactly when no certificate in its
      public key misses a name. */
  lemma DecodedIff(x: Crypto, b: bytes)
    requires x.Blocks() && x.Names() && Decode(x, b).Ok?
    ensures var (k, _) := Decode(x, b).value;
            && PrivateKeys.Valid(x, k)
            && (EncodableKey(k.publicKey.keyData) <==> NamedKey(k.publicKey.keyData))
            && (Canonical(x, k) <==> NamedKey(k.publicKey.keyData))
  {
    hide Decode, GetHeader, GetSecret, GetSection, EncSecret, CanonicalKey, EncodableKey, NamedKey, ValidKey,
      CanonicalPair, EncodablePair, GetPair, SectionPadding, GetRawHeader, RawHeader, Kdfs.Valid, ValidPair;
    var h, rest := DecodeSplits(x, b);
    HeaderKeyRead(x, b);
    HeaderParts(x, b);
    if h.cipher == Plain {
      ClearSecretInverse(x, h, rest);
      var section := GetStr(rest).value.0;
      var _ := AcceptedSection(x, section, h.publicKey, x.blockSize(Plain), MAX_BLOCK_SIZE);
    } else {
      EncryptedSecretInverse(x, h, rest);
    }
  }

  lemma AsReadSame(x: Crypto, k: PrivateKey)
    requires x.Blocks()
    ensures Canonical(x, AsRead(k)) == Canonical(x, k)
    ensures EncodableKey(AsRead(k).publicKey.keyData) == EncodableKey(k.publicKey.keyData)
  {
    CertificateProofs.BareKeySame(k.publicKey.keyData);
  }

  /** A key that can be written reads back as itself exactly when it is canonical. */
  lemma RoundTripIff(x: Crypto, k: PrivateKey)
    requires x.Blocks() && x.Names() && PrivateKeys.Valid(x, k) && PrivateKeys.Encodable(x, k)
    ensures FromBytes(x, PrivateKeys.Enc(x, k, [])) == Ok(AsRead(k)) <==> Canonical(x, k)
  {
    hide Decode, AsRead, Canonical, PrivateKeys.Enc, EncodableKey, NamedKey;
    if Canonical(x, k) {
      RoundTrip(x, k);
    } else if FromBytes(x, PrivateKeys.Enc(x, k, [])) == Ok(AsRead(k)) {
      AsReadSame(x, k);
      DecodedIff(x, PrivateKeys.Enc(x, k, []));
    }
  }

  /** An opaque pair without any bytes. */
  function OpaqueKey(alg: Algorithm): PrivateKey {
    var key := OtherKey(alg, []);
    PrivateKey(Plain, NoKdf, None, PublicKey.PublicKey(key, []), Pair(key, OpaqueSecret([])), None)
  }

  /** An opaque pair of a built-in algorithm, or of a custom one that bears a built-in name, is a valid key
      that can be written but does not read back. */
  lemma RoundTripFails(x: Crypto, alg: Algorithm)
    requires x.Blocks() && x.Names() && (!alg.Other? || alg == Other(SK_SSH_ED25519))
    ensures PrivateKeys.Valid(x, OpaqueKey(alg)) && PrivateKeys.Encodable(x, OpaqueKey(alg))
    ensures FromBytes(x, PrivateKeys.Enc(x, OpaqueKey(alg), [])) != Ok(AsRead(OpaqueKey(alg)))
  {
    hide FromBytes, PrivateKeys.Enc, AsRead, PrivateKeys.Encodable, PrivateKeys.Valid, Canonical;
    OpaqueKeyFits(x, alg);
    OpaqueKeyOdd(x, alg);
    RoundTripIff(x, OpaqueKey(alg));
  }

  lemma OpaqueKeyOdd(x: Crypto, alg: Algorithm)
    requires x.Blocks() && (!alg.Other? || alg == Other(SK_SSH_ED25519))
    ensures PrivateKeys.Valid(x, OpaqueKey(alg)) && !Canonical(x, OpaqueKey(alg))
  {
    hide CanonicalKey, CanonicalAlgorithm, SplitId, ValidId;
    BuiltInNameAsCustom();
  }

  lemma OpaqueKeyFits(x: Crypto, alg: Algorithm)
    requires x.Blocks() && (!alg.Other? || alg == Other(SK_SSH_ED25519))
    ensures PrivateKeys.Encodable(x, OpaqueKey(alg))
  {
    hide Str, StrList;
    NameLengths();
    var key := OtherKey(alg, []);
    CertificateProofs.KeyLength(key);
  }

  /** An unencrypted Ed25519 key. */
  function Ed25519Private(pk: bytes, seed: bytes): PrivateKey
    requires |pk| == 32 && |seed| == 32
  {
    PrivateKey(Plain, NoKdf, None, PublicKey.PublicKey(Ed25519Key(pk), []), Pair(Ed25519Key(pk), Seed(seed)), None)
  }

  /** One whose public half is not that of its seed is a valid key that can be written but does not read
      back. */
  lemma MismatchedSeedFails(x: Crypto, pk: bytes, seed: bytes)
    requires x.Blocks() && x.Names() && |pk| == 32 && |seed| == 32 && x.publicOf(seed) != pk
    ensures var k := Ed25519Private(pk, seed);
            && PrivateKeys.Valid(x, k) && PrivateKeys.Encodable(x, k)
            && FromBytes(x, PrivateKeys.Enc(x, k, [])) != Ok(AsRead(k))
  {
    hide FromBytes, PrivateKeys.Enc, AsRead;
    var k := Ed25519Private(pk, seed);
    NameLengths();
    CertificateProofs.KeyLength(Ed25519Key(pk));
    RoundTripIff(x, k);
  }

  // ---------- Writing back what was read ----------

  /** Writing an accepted unencrypted container again gives the same bytes exactly when key and pair were
      written verbatim and the padding was shorter than 8; it is never above 16. */
  lemma RewrittenIff(x: Crypto, b: bytes)
    requires x.Blocks() && x.Names() && Decode(x, b).Ok? && !Decode(x, b).value.0.keyData.EncryptedPair?
    ensures GetRawHeader(x, b).Ok? && GetStr(GetRawHeader(x, b).value.1).Ok?
    ensures var (k, rest) := Decode(x, b).value;
            var ((_, _, keyBytes), secret) := GetRawHeader(x, b).value;
            var section := GetStr(secret).value.0;
            var padding := SectionPadding(x, section);
            && padding.Ok? && |padding.value| <= 16 && |section| >= 8
            && (PrivateKeys.Enc(x, k, rest) == b
                <==> CertificateReads.VerbatimKey(keyBytes) && VerbatimPair(section[8..]) && |padding.value| < 8)
  {
    hide *;
    var h, b1 := DecodeSplits(x, b);
    SameRest(x, b);
    DecodedIff(x, b);
    var (k, rest) := Decode(x, b).value;
    ClearHasNoCipher(x, h, b1);
    ClearSecretInverse(x, h, b1);
    var section := GetStr(b1).value.0;
    ClearRewrittenIff(x, b, h, b1, section, rest);
  }

  lemma ClearHasNoCipher(x: Crypto, h: Header, b: bytes)
    requires x.Blocks() && GetSecret(x, h, b).Ok? && !GetSecret(x, h, b).value.0.keyData.EncryptedPair?
    ensures h.cipher == Plain
  {
    hide GetSection, GetStr;
  }

  lemma ClearRewrittenIff(x: Crypto, b: bytes, h: Header, b1: bytes, section: bytes, rest: bytes)
    requires x.Blocks() && x.Names() && GetHeader(x, b) == Ok((h, b1)) && h.cipher == Plain
    requires GetStr(b1) == Ok((section, rest))
    requires var r := GetSection(x, section, h.publicKey, x.blockSize(Plain), MAX_BLOCK_SIZE);
             r.Ok? && HeaderOf(r.value) == h
    ensures GetRawHeader(x, b).Ok?
    ensures var k := GetSection(x, section, h.publicKey, x.blockSize(Plain), MAX_BLOCK_SIZE).value;
            var keyBytes := GetRawHeader(x, b).value.0.2;
            var padding := SectionPadding(x, section);
            && padding.Ok? && |padding.value| <= 16 && |section| >= 8
            && (PrivateKeys.Enc(x, k, rest) == b
                <==> CertificateReads.VerbatimKey(keyBytes) && VerbatimPair(section[8..]) && |padding.value| < 8)
  {
    hide Decode, GetHeader, GetSecret, GetSection, EncSecret, CanonicalKey, EncodableKey, NamedKey, ValidKey,
      CanonicalPair, EncodablePair, GetPair, SectionPadding, GetRawHeader, RawHeader, Kdfs.Valid,
      CertificateReads.VerbatimKey, VerbatimPair, Section, EncKey, GetStr, Str, PrivateKeys.Enc, ValidClear;
    var k := GetSection(x, section, h.publicKey, x.blockSize(Plain), MAX_BLOCK_SIZE).value;
    var n := AcceptedSection(x, section, h.publicKey, x.blockSize(Plain), MAX_BLOCK_SIZE);
    SectionRewrittenIff(x, section, h.publicKey, Plain, MAX_BLOCK_SIZE);
    HeaderParts(x, b);
    HeaderKeyRead(x, b);
    ClearKeyValid(k);
    SameContainerIff(x, k, GetRawHeader(x, b).value.0.2, section, rest);
  }

  lemma SameRest(x: Crypto, b: bytes)
    requires GetHeader(x, b).Ok?
    ensures GetRawHeader(x, b).Ok? && GetRawHeader(x, b).value.1 == GetHeader(x, b).value.1
  {
    hide GetRawHeader, GetKey;
  }

  lemma SameContainerIff(x: Crypto, k: PrivateKey, keyBytes: bytes, section: bytes, rest: bytes)
    requires x.Blocks() && ValidClear(k) && Fits(keyBytes) && Fits(EncKey(k.publicKey.keyData, []))
    ensures var mine := Section(x, Plain, k.keyData, k.publicKey.comment, CheckintOf(k));
            PrivateKeys.Enc(x, k, rest) == RawHeader(x, k.cipher, k.kdf, keyBytes, Str(section) + rest)
            <==> EncKey(k.publicKey.keyData, []) == keyBytes && mine == section
  {
    hide RawHeader, Section, EncSecret, EncKey, ValidPair;
    var mine := Section(x, Plain, k.keyData, k.publicKey.comment, CheckintOf(k));
    ClearSecretIsSection(x, k, rest);
    HeaderIsRaw(x, HeaderOf(k), Str(mine) + rest);
    SameHeaderIff(x, k.cipher, k.kdf, EncKey(k.publicKey.keyData, []), Str(mine) + rest, keyBytes, Str(section) + rest);
    if Str(mine) + rest == Str(section) + rest {
      SameMiddle(mine, section, rest);
    }
  }

  lemma HeaderIsRaw(x: Crypto, h: Header, tail: bytes)
    ensures EncHeader(x, h, tail) == RawHeader(x, h.cipher, h.kdf, EncKey(h.publicKey, []), tail)
  {
  }

  lemma HeaderAppend(x: Crypto, h: Header, tail: bytes)
    ensures EncHeader(x, h, tail) == EncHeader(x, h, []) + tail
  {
    hide Str, Kdfs.Enc, U32, EncKey, RawHeader;
    var key := EncKey(h.publicKey, []);
    HeaderIsRaw(x, h, tail);
    HeaderIsRaw(x, h, []);
    RawHeaderSplits(x, h.cipher, h.kdf, key, tail);
    RawHeaderSplits(x, h.cipher, h.kdf, key, []);
    NoTail(Str(key));
    Glue2(AUTH_MAGIC + (Str(x.name(h.cipher)) + (Kdfs.Enc(h.kdf, []) + U32(1))), Str(key), tail);
  }

  lemma SameMiddle(b: bytes, c: bytes, d: bytes)
    requires Str(b) + d == Str(c) + d
    ensures b == c
  {
    assert |Str(b) + d| == 4 + |b| + |d| && |Str(c) + d| == 4 + |c| + |d|;
    assert b == (Str(b) + d)[4..4 + |b|];
    assert c == (Str(c) + d)[4..4 + |c|];
  }

  /** Writing an accepted encrypted container again gives the same bytes exactly when its public key was
      written verbatim. */
  lemma EncryptedRewrittenIff(x: Crypto, b: bytes)
    requires x.Blocks() && x.Names() && Decode(x, b).Ok? && Decode(x, b).value.0.keyData.EncryptedPair?
    requires NamedKey(Decode(x, b).value.0.publicKey.keyData)
    ensures GetRawHeader(x, b).Ok? && Decode(x, b).value.1 == []
    ensures PrivateKeys.Enc(x, Decode(x, b).value.0, []) == b
            <==> CertificateReads.VerbatimKey(GetRawHeader(x, b).value.0.2)
  {
    hide Decode, GetHeader, GetSecret, GetSection, EncSecret, EncodableKey, NamedKey, ValidKey, CanonicalPair,
      CanonicalKey, EncodablePair, GetPair, SectionPadding, GetRawHeader, RawHeader, Kdfs.Valid,
      CertificateReads.VerbatimKey, EncKey;
    var h, b1 := DecodeSplits(x, b);
    HeaderParts(x, b);
    var k := Decode(x, b).value.0;
    if h.cipher == Plain {
      ClearSecretInverse(x, h, b1);
      var section := GetStr(b1).value.0;
      var _ := AcceptedSection(x, section, h.publicKey, x.blockSize(Plain), MAX_BLOCK_SIZE);
      ClearKeyValid(k);
    } else {
      EncryptedSecretInverse(x, h, b1);
      HeaderKeyRead(x, b);
      HeaderIsRaw(x, h, EncSecret(x, k, []));
      SameHeaderIff(x, h.cipher, h.kdf, EncKey(h.publicKey, []), b1, GetRawHeader(x, b).value.0.2, b1);
    }
  }

  // ---------- Padding that is tolerated but not written ----------

  /** The container of an unencrypted key with eight more bytes of padding than are ever written. */
  function Overpadded(x: Crypto, k: PrivateKey): bytes
    requires x.Blocks()
  {
    var n := PaddingLen(x, Plain, UnpaddedLen(k.keyData, k.publicKey.comment));
    EncHeader(x, HeaderOf(k), Str(EncSection(k.keyData, k.publicKey.comment, CheckintOf(k), Padding(n + 8))))
  }

  /** It is accepted as the key it holds, and writing that key gives other bytes. */
  lemma OverpaddedAccepted(x: Crypto, k: PrivateKey)
    requires x.Blocks() && x.Names() && ValidClear(k) && PrivateKeys.Encodable(x, k) && Canonical(x, k)
    requires SectionLen(x, Plain, k.keyData, k.publicKey.comment) + 8 < TWO_32
    ensures FromBytes(x, Overpadded(x, k)) == Ok(AsRead(k))
    ensures PrivateKeys.Enc(x, AsRead(k), []) != Overpadded(x, k)
  {
    hide GetHeader, GetSecret, EncHeader, CanonicalKey, EncodableKey, EncKey, EncSection, CanonicalPair, EncodablePair,
      ValidPair, GetSection, Str;
    var p, comment, ci := k.keyData, k.publicKey.comment, CheckintOf(k);
    var n := PaddingLen(x, Plain, UnpaddedLen(p, comment));
    var section := EncSection(p, comment, ci, Padding(n + 8));
    ClearKeyValid(k);
    OverpaddedLength(x, p, comment, ci);
    GetSectionOf(x, p, comment, ci, n + 8, 8, MAX_BLOCK_SIZE);
    NoTail(Str(section));
    GetSecretJoins(x, HeaderOf(k), section, []);
    GetHeaderOf(x, HeaderOf(k), Str(section));
    DecodeJoins(x, Overpadded(x, k), HeaderOf(k), Str(section));
    OverpaddedDiffers(x, k, section);
  }

  lemma OverpaddedLength(x: Crypto, p: Keypair, comment: bytes, checkint: nat)
    requires x.Blocks() && ValidPair(p)
    ensures var n := PaddingLen(x, Plain, UnpaddedLen(p, comment));
            && n < 8 && |EncSection(p, comment, checkint, Padding(n + 8))| == SectionLen(x, Plain, p, comment) + 8
            && |EncSection(p, comment, checkint, Padding(n + 8))| % 8 == 0
  {
    hide EncSection;
    var n := PaddingLen(x, Plain, UnpaddedLen(p, comment));
    UnpaddedLength(p, comment, checkint);
    EncSectionAppend(p, comment, checkint, Padding(n + 8));
    SectionLength(x, Plain, p, comment, checkint);
    EncSectionAppend(p, comment, checkint, Padding(n));
    PaddingUnique(x, Plain, UnpaddedLen(p, comment), n);
  }

  lemma OverpaddedDiffers(x: Crypto, k: PrivateKey, section: bytes)
    requires x.Blocks() && ValidClear(k) && Fits(EncKey(k.publicKey.keyData, []))
    requires |section| > SectionLen(x, Plain, k.keyData, k.publicKey.comment)
    ensures PrivateKeys.Enc(x, AsRead(k), []) != EncHeader(x, HeaderOf(k), Str(section))
  {
    hide RawHeader, Section, EncSecret, EncKey, EncHeader, Str;
    var k' := AsRead(k);
    ClearKeyValid(k);
    SectionLength(x, Plain, k'.keyData, k'.publicKey.comment, CheckintOf(k'));
    NoTail(Str(section));
    HeaderIsRaw(x, HeaderOf(k), Str(section));
    SameContainerIff(x, k', EncKey(k.publicKey.keyData, []), section, []);
  }

  /** There are such containers. */
  lemma OverpaddedExample(x: Crypto)
    requires x.Blocks() && x.Names()
    ensures var key := SkEd25519Key(Zeros(32), []);
            var k := PrivateKey(Plain, NoKdf, None, PublicKey.PublicKey(key, []), Pair(key, Handle(0, [], [])), None);
            && FromBytes(x, Overpadded(x, k)) == Ok(AsRead(k))
            && PrivateKeys.Enc(x, AsRead(k), []) != Overpadded(x, k)
  {
    hide FromBytes, PrivateKeys.Enc, AsRead, Overpadded;
    var key := SkEd25519Key(Zeros(32), []);
    var k := PrivateKey(Plain, NoKdf, None, PublicKey.PublicKey(key, []), Pair(key, Handle(0, [], [])), None);
    NameLengths();
    AsciiIsUtf8([]);
    CertificateProofs.KeyLength(key);
    OverpaddedAccepted(x, k);
  }
}
