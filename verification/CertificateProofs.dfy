/** What encoding and decoding certificates preserve. */
module CertificateProofs {
  import opened Bytes
  import opened SshWire
  import opened Algorithms
  import opened KeyFields
  import opened Certificates
  import Signatures
  import Options = CertOptions

  // ---------- What follows an encoding is untouched ----------

  lemma {:induction false} EncKeyBodyAppend(k: KeyData, tail: bytes)
    ensures EncKeyBody(k, tail) == EncKeyBody(k, []) + tail
    decreases k, 0
  {
    hide StrList, PlainFields;
    if k.CertificateKey? {
      EncCertAppend(k.cert, tail);
    } else {
      NoTail(StrList(PlainFields(k)));
    }
  }

  lemma IdentityTail(f: Fields, tail: bytes)
    ensures U64(f.serial) + (U32(CertTypeCode(f.certType)) + (Str(f.keyId) + tail))
         == (U64(f.serial) + (U32(CertTypeCode(f.certType)) + (Str(f.keyId) + []))) + tail
  {
  }

  lemma EncIdentityAppend(f: Fields, tail: bytes)
    ensures EncIdentity(f, tail) == EncIdentity(f, []) + tail
    decreases f, 0
  {
    hide EncKeyBody, Str, U64, U32;
    var t := U64(f.serial) + (U32(CertTypeCode(f.certType)) + (Str(f.keyId) + []));
    IdentityTail(f, tail);
    EncKeyBodyAppend(f.publicKey, t + tail);
    EncKeyBodyAppend(f.publicKey, t);
    Glue3(Str(f.nonce), EncKeyBody(f.publicKey, []), t, tail);
  }

  lemma EncConstraintsAppend(f: Fields, tail: bytes)
    ensures EncConstraints(f, tail) == EncConstraints(f, []) + tail
  {
    var t := Str(Options.Enc(f.criticalOptions)) + (Str(Options.Enc(f.extensions)) + (Str(f.reserved) + []));
    assert Str(Options.Enc(f.criticalOptions)) + (Str(Options.Enc(f.extensions)) + (Str(f.reserved) + tail))
        == t + tail;
    assert Str(StrList(f.principals)) + (U64(f.validAfter) + (U64(f.validBefore) + (t + tail)))
        == (Str(StrList(f.principals)) + (U64(f.validAfter) + (U64(f.validBefore) + t))) + tail;
  }

  lemma Regroup(a: bytes, i: bytes, n: bytes, k: bytes, t: bytes)
    ensures a + (i + (n + (k + t))) == (a + (i + (n + (k + [])))) + t
  {
  }

  /** The certificate's bytes are the signed part followed by the rest. */
  lemma EncTbsAppend(c: Certificate, tail: bytes)
    ensures EncTbs(c, tail) == EncTbs(c, []) + tail
    decreases c, 0
  {
    TbsParts(c, tail);
    TbsParts(c, []);
    Regroup(Str(CertName(c)), EncIdentity(c.fields, []), EncConstraints(c.fields, []),
            Str(EncKey(c.signatureKey, [])), tail);
  }

  lemma TbsParts(c: Certificate, tail: bytes)
    ensures EncTbs(c, tail)
         == Str(CertName(c)) + (EncIdentity(c.fields, []) + (EncConstraints(c.fields, []) +
              (Str(EncKey(c.signatureKey, [])) + tail)))
    decreases c, -1
  {
    var t := Str(EncKey(c.signatureKey, [])) + tail;
    EncConstraintsAppend(c.fields, t);
    EncIdentityAppend(c.fields, EncConstraints(c.fields, t));
  }

  lemma EncCertAppend(c: Certificate, tail: bytes)
    ensures EncCert(c, tail) == EncCert(c, []) + tail
    decreases c, 1
  {
    var s := Str(SignatureBytes(c.signature));
    EncTbsAppend(c, s + tail);
    EncTbsAppend(c, s + []);
    Regroup([], [], EncTbs(c, []), s, tail);
    assert forall x: bytes :: [] + x == x;
  }

  /** Signed part, then the length-prefixed signature. */
  lemma CertIsTbsThenSignature(c: Certificate)
    ensures EncCert(c, []) == EncTbs(c, []) + Str(SignatureBytes(c.signature))
  {
    EncTbsAppend(c, Str(SignatureBytes(c.signature)) + []);
  }

  // ---------- Announced lengths ----------

  /** The sum each kind of key announces. */
  function KeyBodyLen(k: KeyData): nat
    decreases k, 0
  {
    match k
    case DsaKey(p, q, g, y) => (4 + |p|) + (4 + |q|) + (4 + |g|) + (4 + |y|)
    case EcdsaKey(c, point) => (4 + |CurveLabel(c)|) + 4 + |point|
    case Ed25519Key(_) => 4 + 32
    case RsaKey(e, n) => (4 + |e|) + (4 + |n|)
    case SkEcdsaKey(point, app) => (4 + |CurveLabel(NistP256)|) + (4 + |point|) + (4 + |app|)
    case SkEd25519Key(_, app) => (4 + 32) + (4 + |app|)
    case OtherKey(_, key) => 4 + |key|
    case CertificateKey(c) => EncodedLen(c)
  }

  function KeyLen(k: KeyData): nat
    decreases k, 1
  {
    if k.CertificateKey? then KeyBodyLen(k) else (4 + |AsStr(KeyAlgorithm(k))|) + KeyBodyLen(k)
  }

  function TextListLen(items: seq<bytes>): nat {
    if items == [] then 0 else (4 + |items[0]|) + TextListLen(items[1..])
  }

  function FieldsLen(f: Fields): nat
    decreases f, 0
  {
    (4 + |f.nonce|) + KeyBodyLen(f.publicKey) + 8 + 4 + (4 + |f.keyId|) + (4 + TextListLen(f.principals))
    + 8 + 8 + (4 + Options.EncodedLen(f.criticalOptions)) + (4 + Options.EncodedLen(f.extensions)) + (4 + |f.reserved|)
  }

  /** The sum the encoder announces before writing. */
  function EncodedLen(c: Certificate): nat
    decreases c, 0
  {
    (4 + |CertName(c)|) + FieldsLen(c.fields) + (4 + KeyLen(c.signatureKey))
    + (4 + Signatures.EncodedLen(c.signature))
  }

  lemma {:induction false} StrListLength(items: seq<bytes>)
    ensures |StrList(items)| == TextListLen(items)
  {
    if items != [] {
      StrListLength(items[1..]);
    }
  }

  lemma PlainBodyLength(k: KeyData)
    requires ValidKey(k) && !k.CertificateKey?
    ensures TextListLen(PlainFields(k)) == KeyBodyLen(k)
  {
    var f := PlainFields(k);
    ListLen(f);
  }

  lemma ListLen(f: seq<bytes>)
    ensures |f| == 1 ==> TextListLen(f) == 4 + |f[0]|
    ensures |f| == 2 ==> TextListLen(f) == (4 + |f[0]|) + (4 + |f[1]|)
    ensures |f| == 3 ==> TextListLen(f) == (4 + |f[0]|) + (4 + |f[1]|) + (4 + |f[2]|)
    ensures |f| == 4 ==> TextListLen(f) == (4 + |f[0]|) + (4 + |f[1]|) + (4 + |f[2]|) + (4 + |f[3]|)
  {
    if |f| > 1 {
      assert f[1..][1..] == f[2..];
      if |f| > 2 {
        assert f[2..][1..] == f[3..];
      }
    }
  }

  lemma {:induction false} KeyBodyLength(k: KeyData)
    requires ValidKey(k) && EncodableKey(k)
    ensures |EncKeyBody(k, [])| == KeyBodyLen(k)
    decreases k, 0
  {
    hide StrList, PlainFields, TextListLen;
    if k.CertificateKey? {
      CertLength(k.cert);
    } else {
      StrListLength(PlainFields(k));
      NoTail(StrList(PlainFields(k)));
      PlainBodyLength(k);
    }
  }

  lemma KeyLength(k: KeyData)
    requires ValidKey(k) && EncodableKey(k)
    ensures |EncKey(k, [])| == KeyLen(k)
    decreases k, 1
  {
    KeyBodyLength(k);
  }

  lemma FieldsLength(f: Fields)
    requires ValidFields(f) && EncodableFields(f)
    ensures |EncIdentity(f, [])| + |EncConstraints(f, [])| == FieldsLen(f)
    decreases f, 0
  {
    var t := U64(f.serial) + (U32(CertTypeCode(f.certType)) + (Str(f.keyId) + []));
    EncKeyBodyAppend(f.publicKey, t);
    KeyBodyLength(f.publicKey);
    StrListLength(f.principals);
    Options.EncLength(f.criticalOptions);
    Options.EncLength(f.extensions);
  }

  /** The bytes written are exactly as many as announced. */
  lemma CertLength(c: Certificate)
    requires ValidCert(c) && EncodableCert(c)
    ensures |EncCert(c, [])| == EncodedLen(c)
    decreases c, 0
  {
    CertIsTbsThenSignature(c);
    FieldsLength(c.fields);
    KeyLength(c.signatureKey);
    var key := Str(EncKey(c.signatureKey, []));
    EncConstraintsAppend(c.fields, key + []);
    EncIdentityAppend(c.fields, EncConstraints(c.fields, key + []));
    Signatures.EncodeSucceeds(c.signature);
  }

  // ---------- Decoding what was encoded ----------

  lemma EcdsaFields(c: EcdsaCurve, point: bytes)
    requires PointOk(point, FieldSize(c)) && point[0] != TAG_IDENTITY && point[0] != TAG_COMPACT
    ensures Accepts(CurveName, CurveLabel(c)) && Accepts(CurvePoint, point)
    ensures EcdsaOf([CurveLabel(c), point]) == Ok(EcdsaKey(c, point))
  {
    CurveOfLabel(c);
    AsciiIsUtf8(CurveLabel(c));
    hide CurveLabel, CurveOf, IsUtf8;
    PointCurveIff(point, c);
  }

  lemma SkEcdsaFields(point: bytes)
    requires PointOk(point, 32)
    ensures Accepts(P256Name, CurveLabel(NistP256)) && Accepts(P256Point, point)
  {
    CurveOfLabel(NistP256);
    AsciiIsUtf8(CurveLabel(NistP256));
  }

  /** A proper key gives exactly the fields its algorithm asks for, and is what they make. */
  lemma ProperKeyFields(k: KeyData)
    requires ValidKey(k) && EncodableKey(k) && ProperKey(k)
    ensures AllAccepted(KeyKinds(KeyAlgorithm(k)), PlainFields(k))
    ensures KeyOf(KeyAlgorithm(k), PlainFields(k)) == Ok(k)
  {
    var f := PlainFields(k);
    assert forall i :: 0 <= i < |f| ==> Fits(f[i]);
    match k
    case DsaKey(p, q, g, y) =>
      hide IsUtf8, AsPositive, MpintOk, CurveOf, PointCurve, PointOk;
    case EcdsaKey(c, point) =>
      hide Accepts, EcdsaOf, CurveLabel;
      EcdsaFields(c, point);
    case Ed25519Key(pk) =>
    case RsaKey(e, n) =>
      hide IsUtf8, AsPositive, MpintOk, CurveOf, PointCurve, PointOk;
    case SkEcdsaKey(point, app) =>
      SkEcdsaFields(point);
      hide CurveLabel, CurveOf, PointCurve, PointOk, IsUtf8;
    case SkEd25519Key(pk, app) =>
    case OtherKey(_, key) =>
  }

  lemma GetKeyBodyOf(k: KeyData, tail: bytes)
    requires ValidKey(k) && EncodableKey(k) && ProperKey(k)
    ensures GetKeyBody(KeyAlgorithm(k), EncKeyBody(k, tail)) == Ok((k, tail))
  {
    hide KeyOf, StrList, PlainFields, Accepts;
    ProperKeyFields(k);
    var kinds := KeyKinds(KeyAlgorithm(k));
    FieldsAreList(kinds, PlainFields(k), tail);
    GetFieldsOf(kinds, PlainFields(k), tail);
  }

  lemma EcdsaOfFields(fields: seq<bytes>)
    requires |fields| == 2 && EcdsaOf(fields).Ok?
    ensures var k := EcdsaOf(fields).value;
            k.EcdsaKey? && ValidKey(k) && ProperKey(k) && PlainFields(k) == fields
  {
    LabelOfCurve(fields[0]);
    PointCurveOk(fields[1]);
  }

  lemma P256NameIsLabel(s: bytes)
    requires Accepts(P256Name, s)
    ensures s == CurveLabel(NistP256)
  {
    LabelOfCurve(s);
  }

  /** What reads as a key of an algorithm is proper, and its fields are the ones read. */
  lemma KeyOfFields(alg: Algorithm, fields: seq<bytes>)
    requires AllAccepted(KeyKinds(alg), fields) && KeyOf(alg, fields).Ok?
    requires alg.Other? ==> ValidId(alg.name, MAX_ALGORITHM_NAME_LEN)
    ensures var k := KeyOf(alg, fields).value;
            && !k.CertificateKey? && ValidKey(k) && ProperKey(k) && PlainFields(k) == fields && EncodableKey(k)
  {
    var kinds := KeyKinds(alg);
    assert forall i :: 0 <= i < |fields| ==> Accepts(kinds[i], fields[i]) && Fits(fields[i]);
    match alg
    case Dsa =>
      hide Accepts, Positive;
    case Ecdsa(c) =>
      hide Accepts, EcdsaOf;
      EcdsaOfFields(fields);
    case Ed25519 =>
    case Rsa(_) =>
      hide Accepts, Positive, ModulusOk;
    case SkEcdsaSha2NistP256 =>
      hide Accepts, CurveLabel, PointOk, IsUtf8;
      SkEcdsaOfFields(fields);
    case SkEd25519 =>
    case Other(_) =>
      hide Accepts;
  }

  lemma SkEcdsaOfFields(fields: seq<bytes>)
    requires AllAccepted([P256Name, P256Point, Text], fields)
    ensures fields == [CurveLabel(NistP256), fields[1], fields[2]] && PointOk(fields[1], 32) && IsUtf8(fields[2])
  {
    hide CurveLabel, CurveOf, PointCurve, IsUtf8, PointOk;
    var kinds := [P256Name, P256Point, Text];
    assert forall i :: 0 <= i < |fields| ==> Accepts(kinds[i], fields[i]);
    P256NameIsLabel(fields[0]);
    assert Accepts(kinds[1], fields[1]) && Accepts(kinds[2], fields[2]);
  }

  /** Whatever reads as a key body is the key's own encoding. */
  lemma KeyBodyInverse(alg: Algorithm, b: bytes)
    requires GetKeyBody(alg, b).Ok? && (alg.Other? ==> ValidId(alg.name, MAX_ALGORITHM_NAME_LEN))
    ensures var (k, rest) := GetKeyBody(alg, b).value;
            && ValidKey(k) && ProperKey(k) && EncodableKey(k) && b == EncKeyBody(k, rest)
  {
    hide KeyOf, StrList, PlainFields, Accepts;
    var kinds := KeyKinds(alg);
    var (fields, rest) := GetFields(kinds, b).value;
    GetFieldsInverse(kinds, b);
    KeyOfFields(alg, fields);
    FieldsAreList(kinds, fields, rest);
  }

  function IdentityOf(f: Fields): Identity {
    Identity(f.nonce, f.publicKey, f.serial, f.certType, f.keyId)
  }

  function ConstraintsOf(f: Fields): Constraints {
    Constraints(f.principals, f.validAfter, f.validBefore, f.criticalOptions, f.extensions, f.reserved)
  }

  lemma GetCertTypeOf(t: CertType, tail: bytes)
    ensures GetCertType(U32(CertTypeCode(t)) + tail) == Ok((t, tail))
  {
    GetU32Of(CertTypeCode(t), tail);
  }

  lemma GetIdentityOf(f: Fields, tail: bytes)
    requires ValidFields(f) && EncodableFields(f) && ProperKey(f.publicKey)
    ensures GetIdentity(EncIdentity(f, tail), KeyAlgorithm(f.publicKey)) == Ok((IdentityOf(f), tail))
  {
    var t4 := Str(f.keyId) + tail;
    var t3 := U32(CertTypeCode(f.certType)) + t4;
    var t2 := U64(f.serial) + t3;
    GetStrOf(f.nonce, EncKeyBody(f.publicKey, t2));
    GetKeyBodyOf(f.publicKey, t2);
    GetU64Of(f.serial, t3);
    GetCertTypeOf(f.certType, t4);
    GetTextOf(f.keyId, tail);
  }

  lemma GetConstraintsOf(f: Fields, tail: bytes)
    requires ValidFields(f) && EncodableFields(f)
    ensures GetConstraints(EncConstraints(f, tail)) == Ok((ConstraintsOf(f), tail))
  {
    var t5 := Str(f.reserved) + tail;
    var t4 := Str(Options.Enc(f.extensions)) + t5;
    var t3 := Str(Options.Enc(f.criticalOptions)) + t4;
    var t2 := U64(f.validBefore) + t3;
    var t1 := U64(f.validAfter) + t2;
    GetStrOf(StrList(f.principals), t1);
    GetTextListOf(f.principals);
    GetU64Of(f.validAfter, t2);
    GetU64Of(f.validBefore, t3);
    GetStrOf(Options.Enc(f.criticalOptions), t4);
    Options.GetOf(f.criticalOptions, None);
    GetStrOf(Options.Enc(f.extensions), t5);
    Options.GetOf(f.extensions, None);
    GetStrOf(f.reserved, tail);
  }

  lemma GetSignatureOf(s: Signatures.Signature)
    requires Signatures.Valid(s) && CanonicalAlgorithm(s.alg)
    ensures Finish(Signatures.Decode(SignatureBytes(s))) == Ok(s)
  {
    Signatures.EncodeSucceeds(s);
    Signatures.RoundTripIff(s, []);
  }

  /** Everything but a name for the certificate itself: what its body needs to be written. */
  ghost predicate EncodableBody(c: Certificate) {
    && EncodableFields(c.fields)
    && EncodableKey(c.signatureKey) && Fits(EncKey(c.signatureKey, []))
    && Signatures.Encode(c.signature).Ok? && Fits(SignatureBytes(c.signature))
  }

  /** What follows the name of an encoded certificate. */
  function Body(c: Certificate, tail: bytes): bytes {
    EncIdentity(c.fields, EncConstraints(c.fields,
      Str(EncKey(c.signatureKey, [])) + (Str(SignatureBytes(c.signature)) + tail)))
  }

  lemma CertIsNameThenBody(c: Certificate, tail: bytes)
    ensures EncCert(c, tail) == Str(CertName(c)) + Body(c, tail)
  {
  }

  /** Decoding the body of an encoded certificate gives the certificate without its comments. */
  lemma {:induction false} CertBodyRoundTrip(c: Certificate, tail: bytes)
    requires ValidCert(c) && EncodableBody(c) && CanonicalCert(c)
    ensures GetCertAs(Body(c, tail), KeyAlgorithm(c.fields.publicKey)) == Ok((BareCert(c), tail))
    decreases c, 0
  {
    var t3 := Str(SignatureBytes(c.signature)) + tail;
    var t2 := Str(EncKey(c.signatureKey, [])) + t3;
    GetIdentityOf(c.fields, EncConstraints(c.fields, t2));
    GetConstraintsOf(c.fields, t2);
    GetStrOf(EncKey(c.signatureKey, []), t3);
    KeyRoundTrip(c.signatureKey, []);
    GetStrOf(SignatureBytes(c.signature), tail);
    GetSignatureOf(c.signature);
    hide GetIdentity, GetConstraints, EncIdentity, EncConstraints, EncKey, GetKey, Signatures.Decode, GetStr, Str;
    BareProper(c);
  }

  lemma BareProper(c: Certificate)
    requires ProperKey(c.fields.publicKey)
    ensures BareCert(c) == Certificate(MakeFields(IdentityOf(c.fields), ConstraintsOf(c.fields)),
                                       BareKey(c.signatureKey), c.signature, [])
  {
  }

  lemma KeyCertNameReads(k: KeyData)
    requires ValidKey(k) && ProperKey(k)
    requires !CertNameTaken(KeyAlgorithm(k)) && ToCertificateType(KeyAlgorithm(k)).Some?
    ensures var id := ToCertificateType(KeyAlgorithm(k)).value;
            NewCertificate(id) == Ok(KeyAlgorithm(k)) && IsUtf8(id) && Fits(id)
  {
    hide ToCertificateType, NewCertificate, CertNameTaken;
    NewCertificateOf(KeyAlgorithm(k));
    AsciiIsUtf8(ToCertificateType(KeyAlgorithm(k)).value);
  }

  lemma CertNameReads(c: Certificate)
    requires ValidKey(c.fields.publicKey) && CanonicalTbs(c)
    requires ToCertificateType(KeyAlgorithm(c.fields.publicKey)).Some?
    ensures NewCertificate(CertName(c)) == Ok(KeyAlgorithm(c.fields.publicKey))
    ensures IsUtf8(CertName(c)) && Fits(CertName(c))
  {
    hide ToCertificateType, NewCertificate, CertNameTaken;
    KeyCertNameReads(c.fields.publicKey);
  }

  lemma KeyRoundTrip(k: KeyData, tail: bytes)
    requires ValidKey(k) && EncodableKey(k) && CanonicalKey(k)
    ensures GetKey(EncKey(k, tail)) == Ok((BareKey(k), tail))
    decreases k, 1
  {
    if k.CertificateKey? {
      hide EncCert, Body, GetCertAs, GetAlgorithm, NewCertificate, ToCertificateType;
      var c := k.cert;
      CertBodyRoundTrip(c, tail);
      NestedCertReads(c, tail);
      GetKeyNested(EncCert(c, tail), CertName(c), Body(c, tail), KeyAlgorithm(c.fields.publicKey));
    } else {
      PlainKeyRoundTrip(k, tail);
    }
  }

  /** What a key decoder sees of an encoded certificate: its name, then its body. */
  lemma NestedCertReads(c: Certificate, tail: bytes)
    requires ValidCert(c) && EncodableCert(c) && CanonicalCert(c) && ReadsAsCustom(CertName(c))
    ensures GetAlgorithm(EncCert(c, tail)) == Ok((Other(CertName(c)), Body(c, tail)))
    ensures NewCertificate(CertName(c)) == Ok(KeyAlgorithm(c.fields.publicKey))
  {
    hide EncCert, Body, GetAlgorithm, NewCertificate, ToCertificateType, CertName;
    AsStrOfFromStr(CertName(c));
    CertIsNameThenBody(c, tail);
    GetAlgorithmOf(Other(CertName(c)), Body(c, tail));
    CertNameReads(c);
  }

  lemma PlainKeyRoundTrip(k: KeyData, tail: bytes)
    requires ValidKey(k) && EncodableKey(k) && CanonicalKey(k) && !k.CertificateKey?
    ensures GetKey(EncKey(k, tail)) == Ok((k, tail))
  {
    hide GetAlgorithm, NewCertificate, EncKeyBody, GetKeyBody, GetKey, AsStr;
    var alg := KeyAlgorithm(k);
    PlainKeyNameReads(k, EncKeyBody(k, tail));
    GetKeyBodyOf(k, tail);
    GetKeyPlain(EncKey(k, tail), alg, EncKeyBody(k, tail));
  }

  lemma PlainKeyNameReads(k: KeyData, body: bytes)
    requires CanonicalKey(k) && !k.CertificateKey?
    ensures GetAlgorithm(Str(AsStr(KeyAlgorithm(k))) + body) == Ok((KeyAlgorithm(k), body))
    ensures !(KeyAlgorithm(k).Other? && NewCertificate(KeyAlgorithm(k).name).Ok?)
  {
    hide GetAlgorithm, NewCertificate, KnownName;
    if k.OtherKey? {
      AsStrOfFromStr(k.alg.name);
    }
    GetAlgorithmOf(KeyAlgorithm(k), body);
  }

  lemma GetKeyPlain(b: bytes, alg: Algorithm, rest: bytes)
    requires GetAlgorithm(b) == Ok((alg, rest)) && !(alg.Other? && NewCertificate(alg.name).Ok?)
    ensures GetKey(b) == GetKeyBody(alg, rest)
  {
    hide GetAlgorithm, NewCertificate, GetKeyBody;
  }

  lemma GetKeyNested(b: bytes, id: bytes, rest: bytes, alg: Algorithm)
    requires GetAlgorithm(b) == Ok((Other(id), rest)) && NewCertificate(id) == Ok(alg)
    requires GetCertAs(rest, alg).Ok?
    ensures var (c, rest') := GetCertAs(rest, alg).value; GetKey(b) == Ok((CertificateKey(c), rest'))
  {
    hide GetAlgorithm, NewCertificate, GetKeyBody;
  }

  lemma CertRoundTrip(c: Certificate, tail: bytes)
    requires ValidCert(c) && EncodableCert(c) && CanonicalCert(c)
    ensures GetCert(EncCert(c, tail)) == Ok((BareCert(c), tail))
  {
    hide EncCert, Body, GetCertAs, NewCertificate, ToCertificateType, CertName, GetText;
    CertNameReads(c);
    CertIsNameThenBody(c, tail);
    GetTextOf(CertName(c), Body(c, tail));
    CertBodyRoundTrip(c, tail);
  }

  // ---------- Comments play no part ----------

  lemma {:induction false} BareKeyBytes(k: KeyData, tail: bytes)
    ensures KeyAlgorithm(BareKey(k)) == KeyAlgorithm(k)
    ensures EncKeyBody(BareKey(k), tail) == EncKeyBody(k, tail)
    ensures EncKey(BareKey(k), tail) == EncKey(k, tail)
    decreases k, 0
  {
    if k.CertificateKey? {
      BareCertBytes(k.cert, tail);
    }
  }

  lemma BareIdentityBytes(f: Fields, tail: bytes)
    ensures EncIdentity(f.(publicKey := BareKey(f.publicKey)), tail) == EncIdentity(f, tail)
    decreases f, 0
  {
    BareKeyBytes(f.publicKey, U64(f.serial) + (U32(CertTypeCode(f.certType)) + (Str(f.keyId) + tail)));
  }

  lemma BareCertBytes(c: Certificate, tail: bytes)
    ensures KeyAlgorithm(BareCert(c).fields.publicKey) == KeyAlgorithm(c.fields.publicKey)
    ensures CertName(BareCert(c)) == CertName(c)
    ensures EncCert(BareCert(c), tail) == EncCert(c, tail)
    decreases c, 0
  {
    var f := c.fields;
    var f' := f.(publicKey := BareKey(f.publicKey));
    var t := Str(SignatureBytes(c.signature)) + tail;
    BareKeyBytes(c.signatureKey, []);
    var x := Str(EncKey(c.signatureKey, [])) + t;
    BareKeyBytes(f.publicKey, []);
    assert EncConstraints(f', x) == EncConstraints(f, x);
    BareIdentityBytes(f, EncConstraints(f, x));
    assert EncTbs(c, t) == Str(CertName(c)) + EncIdentity(f, EncConstraints(f, x));
    assert EncTbs(BareCert(c), t) == Str(CertName(c)) + EncIdentity(f', EncConstraints(f', x));
  }

  lemma {:induction false} BareKeySame(k: KeyData)
    ensures EncodableKey(BareKey(k)) == EncodableKey(k)
    ensures CanonicalKey(BareKey(k)) == CanonicalKey(k)
    decreases k, 0
  {
    if k.CertificateKey? {
      BareCertSame(k.cert);
      BareCertBytes(k.cert, []);
    }
  }

  lemma BareCertSame(c: Certificate)
    ensures EncodableCert(BareCert(c)) == EncodableCert(c)
    ensures CanonicalCert(BareCert(c)) == CanonicalCert(c)
    decreases c, 0
  {
    BareKeySame(c.signatureKey);
    BareKeySame(c.fields.publicKey);
    BareKeyBytes(c.signatureKey, []);
    BareKeyBytes(c.fields.publicKey, []);
  }
}
