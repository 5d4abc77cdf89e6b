/** What encoding, decoding and signing certificates guarantee, and exactly when. */
module CertificateResults {
  import opened Bytes
  import opened SshWire
  import opened Algorithms
  import opened KeyFields
  import opened Certificates
  import opened CertificateProofs
  import opened CertificateReads
  import Signatures

  // ---------- Encode, then decode ----------

  /** Decoding an encoded certificate gives it back, comments aside, exactly when it is canonical. */
  lemma RoundTripIff(c: Certificate)
    requires ValidCert(c) && EncodableCert(c)
    ensures GetCert(EncCert(c, [])) == Ok((BareCert(c), [])) <==> CanonicalCert(c)
  {
    hide *;
    if CanonicalCert(c) {
      CertRoundTrip(c, []);
    } else if GetCert(EncCert(c, [])) == Ok((BareCert(c), [])) {
      DecodedIff(EncCert(c, []));
      BareCertSame(c);
      NamedSigner(BareCert(c));
    }
  }

  lemma NamedSigner(c: Certificate)
    requires Named(c)
    ensures NamedKey(c.signatureKey)
  {
  }

  /** The same for a key. */
  lemma KeyRoundTripIff(k: KeyData)
    requires ValidKey(k) && EncodableKey(k)
    ensures GetKey(EncKey(k, [])) == Ok((BareKey(k), [])) <==> CanonicalKey(k)
  {
    hide *;
    if CanonicalKey(k) {
      KeyRoundTrip(k, []);
    } else if GetKey(EncKey(k, [])) == Ok((BareKey(k), [])) {
      DecodedKeyIff(EncKey(k, []));
      BareKeySame(k);
    }
  }

  // ---------- Decode, then encode ----------

  lemma CertNameRead(b: bytes) returns (id: bytes, rest: bytes)
    requires GetCert(b).Ok?
    ensures GetText(b) == Ok((id, rest)) && b == Str(id) + rest && NewCertificate(id).Ok?
    ensures GetCertAs(rest, NewCertificate(id).value) == GetCert(b)
  {
    hide GetText, NewCertificate, GetCertAs;
    id := GetText(b).value.0;
    rest := GetText(b).value.1;
    TextInverse(b);
  }

  lemma TextInverse(b: bytes)
    requires GetText(b).Ok?
    ensures b == Str(GetText(b).value.0) + GetText(b).value.1
  {
    assert GetStr(b) == GetText(b);
  }

  /** A certificate that was read is missing a name of its own exactly when the name it was read under has
      nothing before the suffix. It can be written exactly when neither it nor a certificate in it misses
      one, and it reads back as itself exactly when none in its signing key does. */
  lemma DecodedIff(b: bytes)
    requires GetCert(b).Ok?
    ensures var (c, _) := GetCert(b).value;
            && ValidCert(c)
            && (ToCertificateType(KeyAlgorithm(c.fields.publicKey)) == None <==> Nameless(GetText(b).value.0))
            && (EncodableCert(c) <==> Named(c))
            && (CanonicalCert(c) <==> NamedKey(c.signatureKey))
  {
    hide *;
    var id, rest := CertNameRead(b);
    CertRead(rest, id);
    var (c, rest') := GetCert(b).value;
    ReadsWellMeans(rest, id, c, rest');
  }

  lemma ReadsWellMeans(b: bytes, id: bytes, c: Certificate, rest: bytes)
    requires CertReadsWell(b, id, c, rest)
    ensures ValidCert(c) && (EncodableCert(c) <==> Named(c)) && (CanonicalCert(c) <==> NamedKey(c.signatureKey))
    ensures ToCertificateType(KeyAlgorithm(c.fields.publicKey)) == None <==> Nameless(id)
    ensures Named(c) ==> if VerbatimCert(b, id) then EncCert(c, rest) == Str(id) + b
                         else |EncCert(c, rest)| < |Str(id) + b|
  {
    hide ValidCert, EncodableCert, Named, CanonicalCert, NamedKey, ToCertificateType, KeyAlgorithm, Nameless,
      VerbatimCert, EncCert, Str;
  }

  /** Writing a certificate that was read gives the bytes it was read from exactly when the name was not one
      of RSA with a hash and no option wrapped empty data, here and in the signing key; otherwise it gives
      fewer. */
  lemma ReencodedIff(b: bytes)
    requires GetCert(b).Ok? && Named(GetCert(b).value.0)
    ensures var (c, rest) := GetCert(b).value;
            var (id, body) := GetText(b).value;
            if VerbatimCert(body, id) then EncCert(c, rest) == b else |EncCert(c, rest)| < |b|
  {
    hide *;
    var id, rest := CertNameRead(b);
    CertRead(rest, id);
    var (c, rest') := GetCert(b).value;
    ReadsWellMeans(rest, id, c, rest');
  }

  /** A key that was read can be written, and reads back as itself, exactly when no certificate in it misses
      a name; and then it gives the same bytes or fewer. */
  lemma DecodedKeyIff(b: bytes)
    requires GetKey(b).Ok?
    ensures var (k, rest) := GetKey(b).value;
            && ValidKey(k) && (EncodableKey(k) <==> NamedKey(k)) && (CanonicalKey(k) <==> NamedKey(k))
            && (NamedKey(k) ==> if VerbatimKey(b) then EncKey(k, rest) == b else |EncKey(k, rest)| < |b|)
  {
    hide GetKey, ValidKey, EncodableKey, NamedKey, CanonicalKey, VerbatimKey, EncKey;
    KeyRead(b);
  }

  /** What can be written has a name for every certificate in it. */
  lemma {:induction false} EncodableIsNamed(k: KeyData)
    requires EncodableKey(k)
    ensures NamedKey(k)
    decreases k
  {
    if k.CertificateKey? {
      EncodableParts(k.cert);
      EncodableIsNamed(k.cert.fields.publicKey);
      EncodableIsNamed(k.cert.signatureKey);
    }
  }

  lemma EncodableParts(c: Certificate)
    requires EncodableCert(c)
    ensures ToCertificateType(KeyAlgorithm(c.fields.publicKey)).Some?
    ensures EncodableKey(c.fields.publicKey) && EncodableKey(c.signatureKey)
  {
    assert EncodableFields(c.fields);
  }

  // ---------- Names that are lost or changed ----------

  /** The rest of a certificate does not matter: under every name with nothing before the suffix a certificate
      for a key of that algorithm is accepted, and the result cannot be written. */
  lemma NamelessAccepted(c: Certificate, id: bytes)
    requires ValidCert(c) && EncodableBody(c) && CanonicalCert(c)
    requires Nameless(id) && NewCertificate(id) == Ok(KeyAlgorithm(c.fields.publicKey))
    ensures GetCert(Str(id) + Body(c, [])) == Ok((BareCert(c), []))
    ensures !EncodableCert(BareCert(c))
  {
    hide *;
    CertBodyRoundTrip(c, []);
    CertificateNameIsText(id);
    GetTextOf(id, Body(c, []));
    GetCertNamed(Str(id) + Body(c, []), id, Body(c, []));
    NamelessIff(id);
    NamelessCannotBeWritten(c);
    BareCertSame(c);
  }

  lemma CertificateNameIsText(id: bytes)
    requires NewCertificate(id).Ok?
    ensures IsUtf8(id) && Fits(id)
  {
    if KnownCertName(id).Some? {
      var a := KnownCertName(id).value;
      KnownCertNameInverse(id);
      KnownCertNeverOther(id);
      NewCertificateOf(a);
    }
    hide KnownCertName;
    AsciiIsUtf8(id);
  }

  lemma NamelessCannotBeWritten(c: Certificate)
    requires ToCertificateType(KeyAlgorithm(c.fields.publicKey)) == None
    ensures !EncodableCert(c)
  {
    hide ToCertificateType, KeyAlgorithm, EncodableFields, EncodableKey, Fits, Signatures.Encode;
  }

  lemma GetCertNamed(b: bytes, id: bytes, rest: bytes)
    requires GetText(b) == Ok((id, rest)) && NewCertificate(id).Ok?
    ensures GetCert(b) == GetCertAs(rest, NewCertificate(id).value)
  {
    hide GetText, NewCertificate, GetCertAs;
  }

  /** The smallest certificate for a key. */
  function Smallest(k: KeyData): Certificate {
    Certificate(Fields([], k, 0, User, [], [], 0, 0, [], [], []), Ed25519Key(Zeros(32)),
                Signatures.Signature(Ed25519, Zeros(64)), [])
  }

  lemma SmallestOk(k: KeyData)
    requires ValidKey(k) && EncodableKey(k) && ProperKey(k) && !CertNameTaken(KeyAlgorithm(k))
    ensures ValidCert(Smallest(k)) && EncodableBody(Smallest(k)) && CanonicalCert(Smallest(k))
  {
    hide CertNameTaken, KeyAlgorithm, EncodableKey, Signatures.Encode, Signatures.Valid, SignatureBytes, IsUtf8;
    SmallestSigner();
    SmallestSignature();
    AsciiIsUtf8([]);
  }

  lemma SmallestSigner()
    ensures var k := Ed25519Key(Zeros(32)); ValidKey(k) && EncodableKey(k) && CanonicalKey(k) && Fits(EncKey(k, []))
  {
    NameLengths();
    StrLength(Zeros(32));
    StrLength(AsStr(Ed25519));
    KeyBodyLength(Ed25519Key(Zeros(32)));
  }

  lemma SmallestSignature()
    ensures var s := Signatures.Signature(Ed25519, Zeros(64));
            Signatures.Valid(s) && Signatures.Encode(s).Ok? && Fits(SignatureBytes(s)) && CanonicalAlgorithm(s.alg)
  {
    NameLengths();
    var s := Signatures.Signature(Ed25519, Zeros(64));
    Signatures.EncodeSucceeds(s);
  }

  /** There is such a certificate. */
  lemma NamelessCertificate()
    ensures var c := Smallest(OtherKey(Other([AT, 97]), []));
            GetCert(Str(NAMELESS) + Body(c, [])) == Ok((c, [])) && !EncodableCert(c)
  {
    hide *;
    var k := OtherKey(Other([AT, 97]), []);
    NamelessKey();
    SmallestOk(k);
    SmallestIsBare(k);
    NamelessIff(NAMELESS);
    NamelessExample();
    NamelessAccepted(Smallest(k), NAMELESS);
  }

  lemma NamelessKey()
    ensures var k := OtherKey(Other([AT, 97]), []);
            && ValidKey(k) && EncodableKey(k) && ProperKey(k) && !CertNameTaken(KeyAlgorithm(k))
            && NewCertificate(NAMELESS) == Ok(KeyAlgorithm(k))
  {
    hide *;
    NamelessExample();
    NewCertificateNotTaken(NAMELESS);
    ShortKeyOk();
  }

  lemma ShortKeyOk()
    ensures var k := OtherKey(Other([AT, 97]), []);
            ValidKey(k) && EncodableKey(k) && ProperKey(k) && KeyAlgorithm(k) == Other([AT, 97])
  {
    hide SplitId;
  }

  lemma SmallestIsBare(k: KeyData)
    requires ProperKey(k)
    ensures BareCert(Smallest(k)) == Smallest(k) && Smallest(k).fields.publicKey == k
  {
  }

  /** A certificate for an RSA key is accepted under either name with a hash, and comes out under the name
      without one. */
  lemma RsaNameLost(c: Certificate, id: bytes)
    requires ValidCert(c) && EncodableCert(c) && CanonicalCert(c) && c.fields.publicKey.RsaKey?
    requires id == CERT_RSA_SHA2_256 || id == CERT_RSA_SHA2_512
    ensures GetCert(Str(id) + Body(c, [])) == Ok((BareCert(c), []))
    ensures CertName(BareCert(c)) == CERT_RSA && CERT_RSA != id
  {
    hide *;
    RsaCertBody(c);
    CertBodyRoundTrip(c, []);
    RsaHashNames(id);
    RsaNamesAreText(id);
    GetTextOf(id, Body(c, []));
    GetCertNamed(Str(id) + Body(c, []), id, Body(c, []));
    HashIsNotRead(Body(c, []), NewCertificate(id).value);
    BareCertBytes(c, []);
  }

  lemma RsaCertBody(c: Certificate)
    requires EncodableCert(c) && c.fields.publicKey.RsaKey?
    ensures EncodableBody(c) && KeyAlgorithm(c.fields.publicKey) == Rsa(None) && CertName(c) == CERT_RSA
  {
    hide EncodableFields, EncodableKey, Signatures.Encode;
  }

  lemma RsaNamesAreText(id: bytes)
    requires id == CERT_RSA_SHA2_256 || id == CERT_RSA_SHA2_512
    ensures IsUtf8(id) && Fits(id) && CERT_RSA != id
  {
    CertNameLengths();
    AsciiIsUtf8(id);
  }

  lemma HashIsNotRead(b: bytes, alg: Algorithm)
    requires Reported(alg) == Rsa(None)
    ensures GetCertAs(b, alg) == GetCertAs(b, Rsa(None))
  {
    hide GetIdentity, GetConstraints, GetKey, Signatures.Decode, GetStr;
    HashNotInIdentity(b, alg);
  }

  lemma HashNotInIdentity(b: bytes, alg: Algorithm)
    requires Reported(alg) == Rsa(None)
    ensures GetIdentity(b, alg) == GetIdentity(b, Rsa(None))
  {
    hide GetStr, GetFields, GetU64, GetCertType, GetText;
    if GetStr(b).Ok? {
      var b1 := GetStr(b).value.1;
      assert GetKeyBody(alg, b1) == GetKeyBody(Rsa(None), b1);
    }
  }

  // ---------- What a signature covers ----------

  /** What the signed part needs to be written. */
  ghost predicate EncodableTbs(c: Certificate) {
    && ToCertificateType(KeyAlgorithm(c.fields.publicKey)).Some?
    && EncodableFields(c.fields) && EncodableKey(c.signatureKey) && Fits(EncKey(c.signatureKey, []))
  }

  lemma TbsIgnoresSignature(c: Certificate, s: Signatures.Signature)
    ensures EncTbs(c.(signature := s), []) == EncTbs(c, [])
  {
  }

  /** With the bytes to be signed of a certificate whose signed part is canonical, another certificate agrees
      on every signed field exactly when its own signed part is canonical. The signatures play no part. */
  lemma TbsSameIff(c: Certificate, c': Certificate)
    requires ValidFields(c.fields) && ValidKey(c.signatureKey) && EncodableTbs(c) && CanonicalTbs(c)
    requires ValidFields(c'.fields) && ValidKey(c'.signatureKey) && EncodableTbs(c')
    requires EncTbs(c, []) == EncTbs(c', [])
    ensures c.fields == c'.fields && BareKey(c.signatureKey) == BareKey(c'.signatureKey) <==> CanonicalTbs(c')
  {
    hide *;
    if CanonicalTbs(c') {
      SignedAnyhow(c);
      SignedAnyhow(c');
      BareParts(c);
      BareParts(c');
    } else if c.fields == c'.fields && BareKey(c.signatureKey) == BareKey(c'.signatureKey) {
      SameSignedPart(c, c');
    }
  }

  /** Any signature will do to read the signed part back. */
  lemma SignedAnyhow(c: Certificate)
    requires ValidFields(c.fields) && ValidKey(c.signatureKey) && EncodableTbs(c) && CanonicalTbs(c)
    ensures var s := Signatures.Signature(Ed25519, Zeros(64));
            GetCert(EncTbs(c, []) + Str(SignatureBytes(s))) == Ok((BareCert(c.(signature := s)), []))
  {
    hide *;
    var s := Signatures.Signature(Ed25519, Zeros(64));
    var d := c.(signature := s);
    SmallestSignature();
    WithSignature(c, s);
    TbsIgnoresSignature(c, s);
    CertIsTbsThenSignature(d);
    CertRoundTrip(d, []);
  }

  lemma WithSignature(c: Certificate, s: Signatures.Signature)
    requires ValidFields(c.fields) && ValidKey(c.signatureKey) && EncodableTbs(c) && CanonicalTbs(c)
    requires Signatures.Valid(s) && Signatures.Encode(s).Ok? && Fits(SignatureBytes(s)) && CanonicalAlgorithm(s.alg)
    ensures var d := c.(signature := s); ValidCert(d) && EncodableCert(d) && CanonicalCert(d)
  {
    hide ValidFields, ValidKey, ToCertificateType, KeyAlgorithm, EncodableFields, EncodableKey, EncKey, CanonicalKey,
      CertNameTaken, ProperKey, Signatures.Valid, Signatures.Encode, SignatureBytes, CanonicalAlgorithm;
  }

  lemma BareParts(c: Certificate)
    requires CanonicalTbs(c)
    ensures forall s :: BareCert(c.(signature := s)).fields == c.fields
    ensures forall s :: BareCert(c.(signature := s)).signatureKey == BareKey(c.signatureKey)
  {
    hide CanonicalKey, CertNameTaken, KeyAlgorithm;
  }

  lemma SameSignedPart(c: Certificate, c': Certificate)
    requires c.fields == c'.fields && BareKey(c.signatureKey) == BareKey(c'.signatureKey)
    ensures CanonicalTbs(c) == CanonicalTbs(c')
  {
    hide CanonicalKey, CertNameTaken, KeyAlgorithm, BareKey;
    BareKeySame(c.signatureKey);
    BareKeySame(c'.signatureKey);
  }

  const CUSTOM_ED25519 := Ascii("ssh-ed25519@openssh.com")

  /** The algorithms under which an opaque key is taken for an Ed25519 one: its own, and a custom one of the
      same certificate name. */
  predicate TakenForEd25519(alg: Algorithm) {
    alg == Ed25519 || alg == Other(CUSTOM_ED25519)
  }

  /** The same certificate, but for an opaque key with the same key bytes. */
  function LookAlike(c: Certificate, alg: Algorithm): Certificate
    requires c.fields.publicKey.Ed25519Key?
  {
    c.(fields := c.fields.(publicKey := OtherKey(alg, c.fields.publicKey.pk)))
  }

  /** Without that condition the signed bytes are ambiguous: a certificate for an Ed25519 key and its
      look-alikes are signed alike. */
  lemma TbsCollision(c: Certificate, alg: Algorithm)
    requires ValidCert(c) && c.fields.publicKey.Ed25519Key? && TakenForEd25519(alg)
    ensures ValidCert(LookAlike(c, alg)) && LookAlike(c, alg).fields != c.fields
    ensures EncTbs(LookAlike(c, alg), []) == EncTbs(c, [])
  {
    hide EncTbs, ToCertificateType, Signatures.Valid;
    LookAlikeName(alg);
    var k := OtherKey(alg, c.fields.publicKey.pk);
    OtherKeyKeepsValid(c.fields, k);
    SameNameSameTbs(c, k);
  }

  /** So a look-alike does not read back as itself but as the certificate for the Ed25519 key. */
  lemma RoundTripConfuses(c: Certificate, alg: Algorithm)
    requires ValidCert(c) && EncodableCert(c) && CanonicalCert(c) && c.fields.publicKey.Ed25519Key?
    requires TakenForEd25519(alg)
    ensures GetCert(EncCert(LookAlike(c, alg), [])) == Ok((BareCert(c), []))
  {
    hide EncTbs, EncCert, GetCert, ValidCert, CanonicalCert, EncodableCert, TakenForEd25519;
    TbsCollision(c, alg);
    CertIsTbsThenSignature(c);
    CertIsTbsThenSignature(LookAlike(c, alg));
    CertRoundTrip(c, []);
  }

  /** An opaque key that claims to be an Ed25519 one is written, and read back, as an Ed25519 key. */
  lemma OpaqueEd25519(pk: bytes)
    requires |pk| == 32
    ensures ValidKey(OtherKey(Ed25519, pk)) && EncodableKey(OtherKey(Ed25519, pk))
    ensures GetKey(EncKey(OtherKey(Ed25519, pk), [])) == Ok((Ed25519Key(pk), []))
  {
    hide GetKey, StrList, AsStr;
    KeyRoundTrip(Ed25519Key(pk), []);
    assert PlainFields(OtherKey(Ed25519, pk)) == PlainFields(Ed25519Key(pk));
  }

  /** An ECDSA key at the identity can be written but not read. */
  lemma IdentityPointIsLost(c: EcdsaCurve)
    ensures var k := EcdsaKey(c, [TAG_IDENTITY]);
            ValidKey(k) && EncodableKey(k) && GetKey(EncKey(k, [])) != Ok((k, []))
  {
    hide GetKey, EncKey, CurveLabel;
    var k := EcdsaKey(c, [TAG_IDENTITY]);
    KeyRoundTripIff(k);
  }

  lemma SameNameSameTbs(c: Certificate, k: KeyData)
    requires c.fields.publicKey.Ed25519Key? && k.OtherKey? && k.key == c.fields.publicKey.pk
    requires ToCertificateType(k.alg) == Some(CERT_ED25519)
    ensures EncTbs(c.(fields := c.fields.(publicKey := k)), []) == EncTbs(c, [])
  {
    hide EncIdentity, EncConstraints, EncKey, CertificateType;
    var f := c.fields;
    var f' := f.(publicKey := k);
    var c' := c.(fields := f');
    assert CertName(c') == CertName(c);
    var x := Str(EncKey(c.signatureKey, [])) + [];
    SameBodySameIdentity(f, k, EncConstraints(f, x));
    SameConstraints(f, k, x);
  }

  lemma SameConstraints(f: Fields, k: KeyData, tail: bytes)
    ensures EncConstraints(f.(publicKey := k), tail) == EncConstraints(f, tail)
  {
  }

  lemma OtherKeyKeepsValid(f: Fields, k: KeyData)
    requires ValidFields(f) && k.OtherKey? && (k.alg.Other? ==> ValidId(k.alg.name, MAX_ALGORITHM_NAME_LEN))
    ensures ValidFields(f.(publicKey := k))
  {
  }

  /** An Ed25519 key and an opaque key of the same bytes are written alike, but for the name. */
  lemma SameBodySameIdentity(f: Fields, k: KeyData, tail: bytes)
    requires f.publicKey.Ed25519Key? && k.OtherKey? && k.key == f.publicKey.pk
    ensures EncIdentity(f.(publicKey := k), tail) == EncIdentity(f, tail)
  {
  }

  lemma LookAlikeName(alg: Algorithm)
    requires TakenForEd25519(alg)
    ensures alg.Other? ==> ValidId(alg.name, MAX_ALGORITHM_NAME_LEN)
    ensures ToCertificateType(alg) == Some(CERT_ED25519)
  {
    var name, domain := Ascii("ssh-ed25519"), Ascii("openssh.com");
    JoinedNames();
    NoAtSigns();
    SplitIdOf(name, domain);
  }

  lemma JoinedNames()
    ensures CUSTOM_ED25519 == Ascii("ssh-ed25519") + [AT] + Ascii("openssh.com")
    ensures CERT_ED25519 == Ascii("ssh-ed25519") + CERT_STR_SUFFIX + [AT] + Ascii("openssh.com")
  {
  }

  lemma NoAtSigns()
    ensures AT !in Ascii("ssh-ed25519") && AT !in Ascii("openssh.com")
  {
    var s, t := "ssh-ed25519", "openssh.com";
    assert forall i :: 0 <= i < |s| ==> s[i] != '@';
    assert forall i :: 0 <= i < |t| ==> t[i] != '@';
  }
}
