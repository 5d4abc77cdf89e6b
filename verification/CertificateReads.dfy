/** What comes out of the key and certificate decoders, and what writing it again gives. */
module CertificateReads {
  import opened Bytes
  import opened SshWire
  import opened Algorithms
  import opened KeyFields
  import opened Certificates
  import opened CertificateProofs
  import Signatures
  import Options = CertOptions

  // ---------- Bytes that are written the way they were read ----------

  /** The sections of the two kinds of options in the constraints of a certificate. */
  function OptionSections(b: bytes): Result<(bytes, bytes)> {
    var (_, b1) :- GetStr(b);
    var (_, b2) :- GetU64(b1);
    var (_, b3) :- GetU64(b2);
    var (crit, b4) :- GetStr(b3);
    var (ext, _) :- GetStr(b4);
    Ok((crit, ext))
  }

  predicate MinimalConstraints(b: bytes) {
    OptionSections(b).Ok? && Options.Minimal(OptionSections(b).value.0) && Options.Minimal(OptionSections(b).value.1)
  }

  /** The name is not one of RSA with a hash, here or in a nested signing key, and no option wraps empty
      data. */
  predicate VerbatimKey(b: bytes)
    decreases |b|, 1
  {
    && GetAlgorithm(b).Ok?
    && var (alg, rest) := GetAlgorithm(b).value;
       if alg.Other? && NewCertificate(alg.name).Ok? then VerbatimCert(rest, alg.name)
       else !(alg.Rsa? && alg.hash.Some?)
  }

  predicate VerbatimCert(b: bytes, id: bytes)
    decreases |b|, 0
  {
    && id != CERT_RSA_SHA2_256 && id != CERT_RSA_SHA2_512 && NewCertificate(id).Ok?
    && GetIdentity(b, NewCertificate(id).value).Ok?
    && var b1 := GetIdentity(b, NewCertificate(id).value).value.1;
       && MinimalConstraints(b1) && GetConstraints(b1).Ok?
       && var b2 := GetConstraints(b1).value.1;
          GetStr(b2).Ok? && VerbatimKey(GetStr(b2).value.0)
  }

  // ---------- The parts of a certificate ----------

  lemma IdentityReencoded(b: bytes, alg: Algorithm, n: Constraints)
    requires GetIdentity(b, alg).Ok? && (alg.Other? ==> ValidId(alg.name, MAX_ALGORITHM_NAME_LEN))
    ensures var (i, rest) := GetIdentity(b, alg).value;
            var f := MakeFields(i, n);
            && b == EncIdentity(f, rest)
            && ValidKey(f.publicKey) && ProperKey(f.publicKey) && EncodableKey(f.publicKey)
            && Fits(f.nonce) && Fits(f.keyId) && IsUtf8(f.keyId) && f.serial < TWO_64
  {
    hide Str, U64, U32, GetStr, GetU64, GetText, GetKeyBody, EncKeyBody, ValidKey, ProperKey, EncodableKey;
    var (nonce, b1) := GetStr(b).value;
    KeyBodyInverse(alg, b1);
    var (key, b2) := GetKeyBody(alg, b1).value;
    var (serial, b3) := GetU64(b2).value;
    CertTypeInverse(b3);
    var (certType, b4) := GetCertType(b3).value;
    var (keyId, b5) := GetText(b4).value;
    assert GetStr(b4) == GetText(b4);
  }

  lemma CertTypeInverse(b: bytes)
    requires GetCertType(b).Ok?
    ensures b == U32(CertTypeCode(GetCertType(b).value.0)) + GetCertType(b).value.1
  {
  }

  /** The lengths and texts of the constraints read. */
  ghost predicate ConstraintsOk(n: Constraints) {
    && n.validAfter < TWO_64 && n.validBefore < TWO_64
    && (forall i :: 0 <= i < |n.principals| ==> IsUtf8(n.principals[i]) && Fits(n.principals[i]))
    && Fits(StrList(n.principals)) && Fits(n.reserved)
    && Options.Valid(n.criticalOptions) && Options.Encodable(n.criticalOptions) && Fits(Options.Enc(n.criticalOptions))
    && Options.Valid(n.extensions) && Options.Encodable(n.extensions) && Fits(Options.Enc(n.extensions))
  }

  lemma OptionsRead(b: bytes)
    requires Options.Get(b, None).Ok? && Fits(b)
    ensures var es := Options.Get(b, None).value;
            && Options.Valid(es) && Options.Encodable(es) && Fits(Options.Enc(es))
            && if Options.Minimal(b) then Options.Enc(es) == b else |Options.Enc(es)| < |b|
  {
    Options.Reencoded(b, None);
    Options.GetValid(b, None);
  }

  lemma ConstraintsReencoded(b: bytes, i: Identity)
    requires GetConstraints(b).Ok?
    ensures var (n, rest) := GetConstraints(b).value;
            var again := EncConstraints(MakeFields(i, n), rest);
            && ConstraintsOk(n)
            && if MinimalConstraints(b) then again == b else |again| < |b|
  {
    hide Str, U64, GetStr, GetU64, GetTextList, StrList, Options.Get, Options.Enc, Options.Minimal,
      Options.Valid, Options.Encodable;
    var (p, b1) := GetStr(b).value;
    GetTextListValid(p);
    var (after, b2) := GetU64(b1).value;
    var (before, b3) := GetU64(b2).value;
    var (crit, b4) := GetStr(b3).value;
    OptionsRead(crit);
    var (ext, b5) := GetStr(b4).value;
    OptionsRead(ext);
    var (reserved, rest) := GetStr(b5).value;
    var n := GetConstraints(b).value.0;
    StrLength(crit);
    StrLength(ext);
    StrLength(Options.Enc(n.criticalOptions));
    StrLength(Options.Enc(n.extensions));
  }

  lemma SignatureRead(b: bytes)
    requires Finish(Signatures.Decode(b)).Ok? && Fits(b)
    ensures var s := Finish(Signatures.Decode(b)).value;
            && Signatures.Valid(s) && CanonicalAlgorithm(s.alg)
            && Signatures.Encode(s).Ok? && SignatureBytes(s) == b
  {
    Signatures.DecodeInverse(b);
    var s := Finish(Signatures.Decode(b)).value;
    NoTail(b);
    Signatures.EncAppend(s, []);
  }

  // ---------- Whole keys and certificates ----------

  /** The pieces of the input a certificate was read from. */
  lemma CertPieces(b: bytes, alg: Algorithm) returns (b1: bytes, b2: bytes, keyBytes: bytes, sigBytes: bytes)
    requires GetCertAs(b, alg).Ok?
    ensures GetIdentity(b, alg).Ok? && GetIdentity(b, alg).value.1 == b1
    ensures GetConstraints(b1).Ok? && GetConstraints(b1).value.1 == b2
    ensures GetStr(b2).Ok? && GetStr(b2).value.0 == keyBytes && |keyBytes| < |b| && Fits(keyBytes) && Fits(sigBytes)
    ensures b2 == Str(keyBytes) + (Str(sigBytes) + GetCertAs(b, alg).value.1)
    ensures Finish(GetKey(keyBytes)).Ok? && Finish(Signatures.Decode(sigBytes)).Ok?
    ensures GetCertAs(b, alg).value.0
         == Certificate(MakeFields(GetIdentity(b, alg).value.0, GetConstraints(b1).value.0),
                        Finish(GetKey(keyBytes)).value, Finish(Signatures.Decode(sigBytes)).value, [])
  {
    hide GetIdentity, GetConstraints, GetKey, Signatures.Decode, GetStr, Str;
    b1 := GetIdentity(b, alg).value.1;
    b2 := GetConstraints(b1).value.1;
    var (kb, b3) := GetStr(b2).value;
    keyBytes := kb;
    sigBytes := GetStr(b3).value.0;
  }

  lemma NewCertificateValid(id: bytes)
    requires NewCertificate(id).Ok? && NewCertificate(id).value.Other?
    ensures ValidId(NewCertificate(id).value.name, MAX_ALGORITHM_NAME_LEN)
  {
    if KnownCertName(id).Some? {
      KnownCertNeverOther(id);
    } else {
      hide KnownCertName;
      var (long, domain) := SplitId(id).value;
      var name := long[..|long| - 9] + [AT] + domain;
      forall i | 0 <= i < |name|
        ensures name[i] < 0x80
      {
        assert i < |long| - 9 ==> name[i] == id[i];
        assert i > |long| - 9 ==> name[i] == id[i + 9];
      }
    }
  }

  /** Comparing a certificate written again with what it was read from. */
  lemma CertAgain(c: Certificate, id: bytes, b: bytes, b1: bytes, b2: bytes, keyBytes: bytes, rest: bytes,
                  name: bool, minimal: bool, key: bool)
    requires b == EncIdentity(c.fields, b1)
    requires var again := EncConstraints(c.fields, b2); if minimal then again == b1 else |again| < |b1|
    requires b2 == Str(keyBytes) + (Str(SignatureBytes(c.signature)) + rest)
    requires var again := EncKey(c.signatureKey, []); if key then again == keyBytes else |again| < |keyBytes|
    requires if name then CertName(c) == id else |CertName(c)| < |id|
    ensures if name && minimal && key then EncCert(c, rest) == Str(id) + b else |EncCert(c, rest)| < |Str(id) + b|
  {
    hide EncKey, EncIdentity, EncConstraints, SignatureBytes, CertName, EncCert, Str;
    var f := c.fields;
    var t := Str(EncKey(c.signatureKey, [])) + (Str(SignatureBytes(c.signature)) + rest);
    CertIsNameThenBody(c, rest);
    assert Body(c, rest) == EncIdentity(f, EncConstraints(f, t));
    EncIdentityAppend(f, EncConstraints(f, t));
    EncConstraintsAppend(f, t);
    EncIdentityAppend(f, b1);
    EncConstraintsAppend(f, b2);
    StrLength(keyBytes);
    StrLength(EncKey(c.signatureKey, []));
    StrLength(id);
    StrLength(CertName(c));
    var sig := Str(SignatureBytes(c.signature)) + rest;
    assert |t| == 4 + |EncKey(c.signatureKey, [])| + |sig| && |b2| == 4 + |keyBytes| + |sig|;
    assert |EncCert(c, rest)| == 4 + |CertName(c)| + |EncIdentity(f, [])| + |EncConstraints(f, [])| + |t|;
    assert |Str(id) + b| == 4 + |id| + |EncIdentity(f, [])| + |b1|;
    if name && minimal && key {
      assert t == b2;
    }
  }

  /** What holds of a key that was read, with what is left over. */
  ghost predicate KeyReadsWell(b: bytes, k: KeyData, rest: bytes) {
    && ValidKey(k)
    && (NamedKey(k) <==> EncodableKey(k)) && (NamedKey(k) <==> CanonicalKey(k))
    && (NamedKey(k) ==> var again := EncKey(k, rest); if VerbatimKey(b) then again == b else |again| < |b|)
  }

  /** What holds of a certificate that was read under a name. */
  ghost predicate CertReadsWell(b: bytes, id: bytes, c: Certificate, rest: bytes) {
    && ValidCert(c) && ProperKey(c.fields.publicKey)
    && (ToCertificateType(KeyAlgorithm(c.fields.publicKey)).None? <==> Nameless(id))
    && (Named(c) <==> EncodableCert(c)) && (NamedKey(c.signatureKey) <==> CanonicalCert(c))
    && (Named(c) ==> var again := EncCert(c, rest); if VerbatimCert(b, id) then again == Str(id) + b
                                                     else |again| < |Str(id) + b|)
  }

  /** Which of the two kinds of key is read. */
  lemma KeyCases(b: bytes) returns (alg: Algorithm, rest: bytes)
    requires GetKey(b).Ok?
    ensures GetAlgorithm(b) == Ok((alg, rest)) && |rest| < |b|
    ensures CanonicalAlgorithm(alg) && b == Str(AsStr(alg)) + rest
    ensures alg.Other? && NewCertificate(alg.name).Ok? ==> GetCertAs(rest, NewCertificate(alg.name).value).Ok?
  {
    hide GetAlgorithm, NewCertificate, GetCertAs, GetKeyBody, CanonicalAlgorithm, AsStr, Str;
    GetAlgorithmInverse(b);
    alg := GetAlgorithm(b).value.0;
    rest := GetAlgorithm(b).value.1;
    StrLength(AsStr(alg));
  }

  lemma {:induction false} KeyRead(b: bytes)
    requires GetKey(b).Ok?
    ensures KeyReadsWell(b, GetKey(b).value.0, GetKey(b).value.1)
    decreases |b|, 1
  {
    hide *;
    var alg, rest := KeyCases(b);
    if alg.Other? && NewCertificate(alg.name).Ok? {
      CertRead(rest, alg.name);
      NestedKeyRead(b, alg.name, rest);
    } else {
      PlainKeyRead(b, alg, rest);
    }
  }

  lemma PlainKeyRead(b: bytes, alg: Algorithm, rest: bytes)
    requires GetKey(b).Ok? && GetAlgorithm(b) == Ok((alg, rest)) && !(alg.Other? && NewCertificate(alg.name).Ok?)
    requires CanonicalAlgorithm(alg) && b == Str(AsStr(alg)) + rest
    ensures KeyReadsWell(b, GetKey(b).value.0, GetKey(b).value.1)
  {
    hide GetAlgorithm, NewCertificate, GetKeyBody, EncKeyBody, AsStr, Str, KnownName;
    GetKeyPlain(b, alg, rest);
    KeyBodyInverse(alg, rest);
    var (k, rest') := GetKeyBody(alg, rest).value;
    if alg.Other? {
      FromStrOfAsStr(alg);
      OtherKeyCanonical(k, alg);
    }
    if alg.Rsa? && alg.hash.Some? {
      RsaNameShortens(alg.hash.value);
      StrLength(AsStr(alg));
      StrLength(AsStr(Rsa(None)));
    }
  }

  lemma OtherKeyCanonical(k: KeyData, alg: Algorithm)
    requires alg.Other? && KeyAlgorithm(k) == alg && ProperKey(k) && FromStr(AsStr(alg)) == Ok(alg)
    requires NewCertificate(alg.name).Err?
    ensures CanonicalKey(k)
  {
    hide NewCertificate, FromStr;
  }

  lemma RsaNameShortens(h: HashAlg)
    ensures |AsStr(Rsa(None))| < |AsStr(Rsa(Some(h)))|
  {
    NameLengths();
  }

  lemma NestedKeyRead(b: bytes, id: bytes, rest: bytes)
    requires GetKey(b).Ok? && GetAlgorithm(b) == Ok((Other(id), rest)) && NewCertificate(id).Ok?
    requires CanonicalAlgorithm(Other(id)) && b == Str(AsStr(Other(id))) + rest
    requires GetCertAs(rest, NewCertificate(id).value).Ok?
    requires var (c, rest') := GetCertAs(rest, NewCertificate(id).value).value; CertReadsWell(rest, id, c, rest')
    ensures KeyReadsWell(b, GetKey(b).value.0, GetKey(b).value.1)
  {
    hide GetKey, GetAlgorithm, NewCertificate, GetCertAs, CanonicalAlgorithm, Str, FromStr, KeyReadsWell, CertReadsWell;
    var alg := NewCertificate(id).value;
    GetKeyNested(b, id, rest, alg);
    var (c, rest') := GetCertAs(rest, alg).value;
    CertReports(rest, alg);
    FromStrOfAsStr(Other(id));
    NestedReadsWell(b, id, rest, c, rest');
  }

  lemma CertReports(b: bytes, alg: Algorithm)
    requires GetCertAs(b, alg).Ok?
    ensures KeyAlgorithm(GetCertAs(b, alg).value.0.fields.publicKey) == Reported(alg)
  {
    hide GetIdentity, GetConstraints, GetKey, Signatures.Decode, GetStr, Reported;
  }

  lemma NestedReadsWell(b: bytes, id: bytes, b1: bytes, c: Certificate, rest: bytes)
    requires GetAlgorithm(b) == Ok((Other(id), b1)) && NewCertificate(id).Ok? && ReadsAsCustom(id)
    requires b == Str(id) + b1 && CertReadsWell(b1, id, c, rest)
    requires KeyAlgorithm(c.fields.publicKey) == Reported(NewCertificate(id).value)
    ensures KeyReadsWell(b, CertificateKey(c), rest)
  {
    hide GetAlgorithm, NewCertificate, EncCert, Str, VerbatimCert, ValidCert, CanonicalCert, EncodableCert, Named,
      ToCertificateType, Nameless, ReadsAsCustom, KeyAlgorithm, CertName, ProperKey;
    NamedCertNamesKey(c);
    CertificateKeyIs(c, rest);
    assert VerbatimKey(b) <==> VerbatimCert(b1, id);
    if Named(c) {
      NestedNameReads(id, c);
    } else if CanonicalKey(CertificateKey(c)) {
      CanonicalNestedIsNamed(c);
    }
  }

  lemma CertificateKeyIs(c: Certificate, tail: bytes)
    ensures var k := CertificateKey(c);
            && (ValidKey(k) <==> ValidCert(c)) && (NamedKey(k) <==> Named(c)) && (EncodableKey(k) <==> EncodableCert(c))
            && (CanonicalKey(k) <==> CanonicalCert(c) && ReadsAsCustom(CertName(c)))
            && EncKey(k, tail) == EncCert(c, tail)
  {
    hide ValidCert, Named, EncodableCert, CanonicalCert, ReadsAsCustom, CertName, EncCert;
  }

  lemma NamedCertNamesKey(c: Certificate)
    ensures Named(c) ==> NamedKey(c.signatureKey)
  {
  }

  /** A nested certificate is named by the name it was read under, or by the plain RSA one. */
  lemma NestedNameReads(id: bytes, c: Certificate)
    requires NewCertificate(id).Ok? && ReadsAsCustom(id) && Named(c)
    requires KeyAlgorithm(c.fields.publicKey) == Reported(NewCertificate(id).value)
    ensures ReadsAsCustom(CertName(c))
  {
    hide NewCertificate, ToCertificateType, ReadsAsCustom, Nameless, Reported, KeyAlgorithm, NamedKey;
    NamelessReported(id);
    NameKeptIff(id);
    if id == CERT_RSA_SHA2_256 || id == CERT_RSA_SHA2_512 {
      RsaHashNames(id);
      RsaHasNames(Rsa(None));
      RsaCertNameReads();
    }
  }

  lemma NamelessReported(id: bytes)
    requires NewCertificate(id).Ok?
    ensures ToCertificateType(Reported(NewCertificate(id).value)).None? <==> Nameless(id)
  {
    hide NewCertificate, Nameless, ToCertificateType;
    NamelessIff(id);
    var a := NewCertificate(id).value;
    if a.Rsa? {
      RsaHasNames(a);
    }
  }

  lemma RsaHasNames(a: Algorithm)
    requires a.Rsa?
    ensures ToCertificateType(a).Some? && ToCertificateType(Rsa(None)) == Some(CERT_RSA)
  {
  }

  lemma RsaHashNames(id: bytes)
    requires id == CERT_RSA_SHA2_256 || id == CERT_RSA_SHA2_512
    ensures NewCertificate(id).Ok? && Reported(NewCertificate(id).value) == Rsa(None)
  {
    KnownCertNameOf(Rsa(Some(Sha256)));
    KnownCertNameOf(Rsa(Some(Sha512)));
  }

  lemma RsaCertNameReads()
    ensures ReadsAsCustom(CERT_RSA)
  {
    RsaCertNameSplits();
    hide KnownName;
    SplitIdOf(Ascii("ssh-rsa-cert-v01"), Ascii("openssh.com"));
    RsaCertNameIsNoKeyName();
    CertNameLengths();
  }

  lemma RsaCertNameIsNoKeyName()
    ensures KnownName(CERT_RSA) == None
  {
    NameLengths();
    CertNameLengths();
  }

  lemma RsaCertNameSplits()
    ensures CERT_RSA == Ascii("ssh-rsa-cert-v01") + [AT] + Ascii("openssh.com")
    ensures AT !in Ascii("ssh-rsa-cert-v01") && AT !in Ascii("openssh.com")
  {
    var s, t := "ssh-rsa-cert-v01", "openssh.com";
    assert forall i :: 0 <= i < |s| ==> s[i] != '@';
    assert forall i :: 0 <= i < |t| ==> t[i] != '@';
  }

  lemma CanonicalNestedIsNamed(c: Certificate)
    requires ReadsAsCustom(CertName(c)) && ProperKey(c.fields.publicKey) && NamedKey(c.signatureKey)
    ensures Named(c)
  {
    hide ToCertificateType, KnownName;
    if ToCertificateType(KeyAlgorithm(c.fields.publicKey)).None? {
      EmptyIsNoName();
    }
  }

  lemma EmptyIsNoName()
    ensures !ReadsAsCustom([])
  {
    NameLengths();
  }

  lemma CertRead(b: bytes, id: bytes)
    requires NewCertificate(id).Ok? && GetCertAs(b, NewCertificate(id).value).Ok?
    ensures var (c, rest) := GetCertAs(b, NewCertificate(id).value).value; CertReadsWell(b, id, c, rest)
    decreases |b|, 0
  {
    hide *;
    var alg := NewCertificate(id).value;
    var (c, rest) := GetCertAs(b, alg).value;
    var b1, b2, keyBytes, sigBytes := CertPieces(b, alg);
    if alg.Other? {
      NewCertificateValid(id);
    }
    FinishedKey(keyBytes);
    KeyRead(keyBytes);
    PartsReadWell(b, id, c, rest, b1, b2, keyBytes, sigBytes);
  }

  lemma FinishedKey(b: bytes)
    requires Finish(GetKey(b)).Ok?
    ensures GetKey(b) == Ok((Finish(GetKey(b)).value, []))
  {
    hide GetKey;
    assert GetKey(b).value.1 == [];
  }

  lemma PartsReadWell(b: bytes, id: bytes, c: Certificate, rest: bytes, b1: bytes, b2: bytes, keyBytes: bytes,
                      sigBytes: bytes)
    requires NewCertificate(id).Ok?
    requires var alg := NewCertificate(id).value;
             && (alg.Other? ==> ValidId(alg.name, MAX_ALGORITHM_NAME_LEN))
             && GetIdentity(b, alg).Ok? && GetIdentity(b, alg).value.1 == b1
             && GetConstraints(b1).Ok? && GetConstraints(b1).value.1 == b2
             && c.fields == MakeFields(GetIdentity(b, alg).value.0, GetConstraints(b1).value.0)
    requires GetStr(b2).Ok? && GetStr(b2).value.0 == keyBytes && Fits(keyBytes) && Fits(sigBytes)
    requires b2 == Str(keyBytes) + (Str(sigBytes) + rest)
    requires KeyReadsWell(keyBytes, c.signatureKey, [])
    requires Finish(Signatures.Decode(sigBytes)) == Ok(c.signature)
    ensures CertReadsWell(b, id, c, rest)
  {
    hide NewCertificate, GetIdentity, GetConstraints, GetStr, Str, KeyReadsWell, Finish, Signatures.Decode,
      CertReadsWell, ToCertificateType, Signatures.Valid, Signatures.Encode, Reported, KeyAlgorithm, ProperKey,
      ValidKey, EncodableKey, ValidId, EncIdentity, EncConstraints, Options.Valid, Options.Encodable, Options.Enc,
      StrList, MinimalConstraints, SignatureBytes;
    var alg := NewCertificate(id).value;
    SignatureRead(sigBytes);
    IdentityReencoded(b, alg, GetConstraints(b1).value.0);
    ConstraintsReencoded(b1, GetIdentity(b, alg).value.0);
    PartsWellTyped(id, c, keyBytes);
    VerbatimParts(b, id, b1, b2, keyBytes);
    PartsAgain(b, id, c, rest, b1, b2, keyBytes);
    PutTogether(b, id, c, rest);
  }

  lemma PutTogether(b: bytes, id: bytes, c: Certificate, rest: bytes)
    requires ValidCert(c) && ProperKey(c.fields.publicKey)
    requires ToCertificateType(KeyAlgorithm(c.fields.publicKey)).None? <==> Nameless(id)
    requires (Named(c) <==> EncodableCert(c)) && (NamedKey(c.signatureKey) <==> CanonicalCert(c))
    requires Named(c) ==> var again := EncCert(c, rest); if VerbatimCert(b, id) then again == Str(id) + b
                                                          else |again| < |Str(id) + b|
    ensures CertReadsWell(b, id, c, rest)
  {
    hide ValidCert, ProperKey, ToCertificateType, KeyAlgorithm, Nameless, Named, EncodableCert, NamedKey, CanonicalCert,
      EncCert, VerbatimCert, Str;
  }

  /** What is verbatim of a certificate, part by part. */
  lemma VerbatimParts(b: bytes, id: bytes, b1: bytes, b2: bytes, keyBytes: bytes)
    requires NewCertificate(id).Ok?
    requires var alg := NewCertificate(id).value; GetIdentity(b, alg).Ok? && GetIdentity(b, alg).value.1 == b1
    requires GetConstraints(b1).Ok? && GetConstraints(b1).value.1 == b2
    requires GetStr(b2).Ok? && GetStr(b2).value.0 == keyBytes
    ensures VerbatimCert(b, id) <==>
            id != CERT_RSA_SHA2_256 && id != CERT_RSA_SHA2_512 && MinimalConstraints(b1) && VerbatimKey(keyBytes)
  {
    hide NewCertificate, GetIdentity, GetConstraints, GetStr, MinimalConstraints, VerbatimKey;
  }

  lemma PartsWellTyped(id: bytes, c: Certificate, keyBytes: bytes)
    requires NewCertificate(id).Ok? && KeyAlgorithm(c.fields.publicKey) == Reported(NewCertificate(id).value)
    requires ProperKey(c.fields.publicKey) && ValidFields(c.fields) && EncodableFields(c.fields)
    requires KeyReadsWell(keyBytes, c.signatureKey, []) && Fits(keyBytes)
    requires Signatures.Valid(c.signature) && CanonicalAlgorithm(c.signature.alg)
    requires Signatures.Encode(c.signature).Ok? && Fits(SignatureBytes(c.signature))
    ensures ValidCert(c)
    ensures ToCertificateType(KeyAlgorithm(c.fields.publicKey)).None? <==> Nameless(id)
    ensures (Named(c) <==> EncodableCert(c)) && (NamedKey(c.signatureKey) <==> CanonicalCert(c))
  {
    hide NewCertificate, ToCertificateType, ValidFields, EncodableFields, Signatures.Valid, Signatures.Encode,
      SignatureBytes, CanonicalAlgorithm, Nameless, EncKey, VerbatimKey, ValidKey, EncodableKey, CanonicalKey, Reported,
      KeyAlgorithm;
    NamelessReported(id);
    ReportedNotTaken(id);
    ProperIsPlain(c.fields.publicKey);
  }

  lemma ProperIsPlain(k: KeyData)
    requires ProperKey(k)
    ensures !k.CertificateKey? && NamedKey(k)
  {
  }

  lemma ReportedNotTaken(id: bytes)
    requires NewCertificate(id).Ok?
    ensures !CertNameTaken(Reported(NewCertificate(id).value))
  {
    hide NewCertificate;
    NewCertificateNotTaken(id);
  }

  lemma PartsAgain(b: bytes, id: bytes, c: Certificate, rest: bytes, b1: bytes, b2: bytes, keyBytes: bytes)
    requires NewCertificate(id).Ok? && KeyAlgorithm(c.fields.publicKey) == Reported(NewCertificate(id).value)
    requires b2 == Str(keyBytes) + (Str(SignatureBytes(c.signature)) + rest) && b == EncIdentity(c.fields, b1)
    requires var again := EncConstraints(c.fields, b2);
             if MinimalConstraints(b1) then again == b1 else |again| < |b1|
    requires KeyReadsWell(keyBytes, c.signatureKey, [])
    requires VerbatimCert(b, id) <==>
             id != CERT_RSA_SHA2_256 && id != CERT_RSA_SHA2_512 && MinimalConstraints(b1) && VerbatimKey(keyBytes)
    ensures Named(c) ==> var again := EncCert(c, rest); if VerbatimCert(b, id) then again == Str(id) + b
                                                         else |again| < |Str(id) + b|
  {
    hide NewCertificate, ToCertificateType, SignatureBytes, Nameless, EncKey, VerbatimKey, VerbatimCert, ValidKey,
      EncodableKey, CanonicalKey, Reported, KeyAlgorithm, NamedKey, EncCert, EncConstraints, EncIdentity,
      MinimalConstraints, Str;
    if Named(c) {
      NamelessReported(id);
      NameKeptIff(id);
      var kept := id != CERT_RSA_SHA2_256 && id != CERT_RSA_SHA2_512;
      CertAgain(c, id, b, b1, b2, keyBytes, rest, kept, MinimalConstraints(b1), VerbatimKey(keyBytes));
    }
  }
}
