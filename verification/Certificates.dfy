/** Public keys and OpenSSH certificates. The two are mutually recursive: a certificate holds two
    keys, and a key may itself be a certificate. */
module Certificates {
  import opened Bytes
  import opened SshWire
  import opened Algorithms
  import opened KeyFields
  import Signatures
  import Options = CertOptions

  /** Integers are the bytes of an mpint, points are encoded as in SEC 1. An opaque key carries whatever
      algorithm its maker chose. */
  datatype KeyData =
    | DsaKey(p: bytes, q: bytes, g: bytes, y: bytes)
    | EcdsaKey(curve: EcdsaCurve, point: bytes)
    | Ed25519Key(pk: bytes)
    | RsaKey(e: bytes, n: bytes)
    | SkEcdsaKey(point: bytes, application: bytes)
    | SkEd25519Key(pk: bytes, application: bytes)
    | OtherKey(alg: Algorithm, key: bytes)
    | CertificateKey(cert: Certificate)

  datatype CertType = User | Host

  /** The signed fields other than the signing key. */
  datatype Fields = Fields(
    nonce: bytes,
    publicKey: KeyData,
    serial: nat,
    certType: CertType,
    keyId: bytes,
    principals: seq<bytes>,
    validAfter: nat,
    validBefore: nat,
    criticalOptions: seq<Options.Entry>,
    extensions: seq<Options.Entry>,
    reserved: bytes)

  datatype Certificate = Certificate(
    fields: Fields,
    signatureKey: KeyData,
    signature: Signatures.Signature,
    comment: bytes)

  function KeyAlgorithm(k: KeyData): Algorithm {
    match k
    case DsaKey(_, _, _, _) => Dsa
    case EcdsaKey(c, _) => Ecdsa(c)
    case Ed25519Key(_) => Ed25519
    case RsaKey(_, _) => Rsa(None)
    case SkEcdsaKey(_, _) => SkEcdsaSha2NistP256
    case SkEd25519Key(_, _) => SkEd25519
    case OtherKey(alg, _) => alg
    case CertificateKey(c) => KeyAlgorithm(c.fields.publicKey)
  }

  /** A positive mpint. */
  predicate Positive(m: bytes) {
    MpintOk(m) && AsPositive(m).Some?
  }

  /** The modulus has a bit length that fits 32 bits. */
  predicate ModulusOk(n: bytes) {
    Positive(n) && 8 * |AsPositive(n).value| < TWO_32
  }

  /** What the Rust types guarantee of every value. */
  ghost predicate ValidKey(k: KeyData) {
    match k
    case DsaKey(p, q, g, y) => Positive(p) && Positive(q) && Positive(g) && Positive(y)
    case EcdsaKey(c, point) => PointOk(point, FieldSize(c))
    case Ed25519Key(pk) => |pk| == 32
    case RsaKey(e, n) => Positive(e) && ModulusOk(n)
    case SkEcdsaKey(point, app) => PointOk(point, 32) && IsUtf8(app)
    case SkEd25519Key(pk, app) => |pk| == 32 && IsUtf8(app)
    case OtherKey(alg, _) => alg.Other? ==> ValidId(alg.name, MAX_ALGORITHM_NAME_LEN)
    case CertificateKey(c) => ValidCert(c)
  }

  ghost predicate ValidFields(f: Fields) {
    && ValidKey(f.publicKey)
    && f.serial < TWO_64 && f.validAfter < TWO_64 && f.validBefore < TWO_64
    && IsUtf8(f.keyId)
    && (forall i :: 0 <= i < |f.principals| ==> IsUtf8(f.principals[i]))
    && Options.Valid(f.criticalOptions) && Options.Valid(f.extensions)
  }

  ghost predicate ValidCert(c: Certificate) {
    && ValidFields(c.fields) && ValidKey(c.signatureKey)
    && Signatures.Valid(c.signature)
  }

  // ---------- Encoding ----------

  function CertTypeCode(t: CertType): nat {
    match t case User => 1 case Host => 2
  }

  function CertName(c: Certificate): bytes {
    var id := ToCertificateType(KeyAlgorithm(c.fields.publicKey));
    if id.Some? then id.value else []
  }

  function SignatureBytes(s: Signatures.Signature): bytes {
    var e := Signatures.Encode(s);
    if e.Ok? then e.value else []
  }

  /** The strings a plain key is written in, after its algorithm name. */
  function PlainFields(k: KeyData): seq<bytes>
    requires !k.CertificateKey?
  {
    match k
    case DsaKey(p, q, g, y) => [p, q, g, y]
    case EcdsaKey(c, point) => [CurveLabel(c), point]
    case Ed25519Key(pk) => [pk]
    case RsaKey(e, n) => [e, n]
    case SkEcdsaKey(point, app) => [CurveLabel(NistP256), point, app]
    case SkEd25519Key(pk, app) => [pk, app]
    case OtherKey(_, key) => [key]
  }

  /** A key without its algorithm name. */
  function EncKeyBody(k: KeyData, tail: bytes): bytes
    decreases k, 0
  {
    if k.CertificateKey? then EncCert(k.cert, tail) else StrList(PlainFields(k)) + tail
  }

  /** A certificate brings its own name. */
  function EncKey(k: KeyData, tail: bytes): bytes
    decreases k, 1
  {
    if k.CertificateKey? then EncKeyBody(k, tail)
    else Str(AsStr(KeyAlgorithm(k))) + EncKeyBody(k, tail)
  }

  function EncIdentity(f: Fields, tail: bytes): bytes
    decreases f, 0
  {
    Str(f.nonce) + EncKeyBody(f.publicKey,
      U64(f.serial) + (U32(CertTypeCode(f.certType)) + (Str(f.keyId) + tail)))
  }

  function EncConstraints(f: Fields, tail: bytes): bytes {
    Str(StrList(f.principals)) + (U64(f.validAfter) + (U64(f.validBefore) +
      (Str(Options.Enc(f.criticalOptions)) + (Str(Options.Enc(f.extensions)) + (Str(f.reserved) + tail)))))
  }

  /** The part to be signed. */
  function EncTbs(c: Certificate, tail: bytes): bytes
    decreases c, 0
  {
    Str(CertName(c)) + EncIdentity(c.fields, EncConstraints(c.fields, Str(EncKey(c.signatureKey, [])) + tail))
  }

  function EncCert(c: Certificate, tail: bytes): bytes
    decreases c, 1
  {
    EncTbs(c, Str(SignatureBytes(c.signature)) + tail)
  }

  /** Every length fits its prefix and no name is missing: what encoding needs to succeed. */
  ghost predicate EncodableKey(k: KeyData)
    decreases k, 0
  {
    if k.CertificateKey? then EncodableCert(k.cert)
    else forall i :: 0 <= i < |PlainFields(k)| ==> Fits(PlainFields(k)[i])
  }

  ghost predicate EncodableFields(f: Fields)
    decreases f, 0
  {
    && Fits(f.nonce) && EncodableKey(f.publicKey) && Fits(f.keyId)
    && (forall i :: 0 <= i < |f.principals| ==> Fits(f.principals[i])) && Fits(StrList(f.principals))
    && Options.Encodable(f.criticalOptions) && Fits(Options.Enc(f.criticalOptions))
    && Options.Encodable(f.extensions) && Fits(Options.Enc(f.extensions))
    && Fits(f.reserved)
  }

  ghost predicate EncodableCert(c: Certificate)
    decreases c, 0
  {
    && ToCertificateType(KeyAlgorithm(c.fields.publicKey)).Some?
    && EncodableFields(c.fields)
    && EncodableKey(c.signatureKey) && Fits(EncKey(c.signatureKey, []))
    && Signatures.Encode(c.signature).Ok? && Fits(SignatureBytes(c.signature))
  }

  // ---------- Decoding ----------

  /** What a key of this algorithm is made of. */
  function KeyKinds(alg: Algorithm): (r: seq<Kind>)
    ensures forall i :: 0 <= i < |r| ==> !r[i].Octet?
    ensures r != []
  {
    match alg
    case Dsa => [Integer, Integer, Integer, Integer]
    case Ecdsa(_) => [CurveName, CurvePoint]
    case Ed25519 => [Exactly(32)]
    case Rsa(_) => [Integer, Integer]
    case SkEcdsaSha2NistP256 => [P256Name, P256Point, Text]
    case SkEd25519 => [Exactly(32), Text]
    case Other(_) => [Anything]
  }

  /** An ECDSA key of whatever curve, given the strings it was written in. */
  function EcdsaOf(fields: seq<bytes>): Result<KeyData>
    requires |fields| == 2
  {
    match PointCurve(fields[1])
    case Err(e) => Err(e)
    case Ok(c) => if CurveOf(fields[0]) == Some(c) then Ok(EcdsaKey(c, fields[1])) else Err(AlgorithmUnknown)
  }

  function RsaOf(e: bytes, n: bytes): Result<KeyData> {
    if Positive(e) && ModulusOk(n) then Ok(RsaKey(e, n)) else Err(FormatEncoding)
  }

  /** A key is made exactly from positive integers with a modulus of less than 2^29 bytes. */
  lemma RsaOfIff(e: bytes, n: bytes)
    requires MpintOk(e) && MpintOk(n)
    ensures RsaOf(e, n) == Ok(RsaKey(e, n)) <==>
            AsPositive(e).Some? && AsPositive(n).Some? && |AsPositive(n).value| < 0x2000_0000
    ensures RsaOf(e, n).Ok? ==> RsaOf(e, n) == Ok(RsaKey(e, n))
  {
  }

  /** The key of this algorithm made from its fields. */
  function KeyOf(alg: Algorithm, fields: seq<bytes>): (r: Result<KeyData>)
    requires |fields| == |KeyKinds(alg)|
    ensures r.Ok? ==> KeyAlgorithm(r.value) == Reported(alg) && !r.value.CertificateKey?
  {
    match alg
    case Dsa =>
      if Positive(fields[0]) && Positive(fields[1]) && Positive(fields[2]) && Positive(fields[3])
      then Ok(DsaKey(fields[0], fields[1], fields[2], fields[3])) else Err(FormatEncoding)
    case Ecdsa(c) =>
      var k :- EcdsaOf(fields);
      if k.EcdsaKey? && k.curve == c then Ok(k) else Err(AlgorithmUnknown)
    case Ed25519 => Ok(Ed25519Key(fields[0]))
    case Rsa(_) => RsaOf(fields[0], fields[1])
    case SkEcdsaSha2NistP256 => Ok(SkEcdsaKey(fields[1], fields[2]))
    case SkEd25519 => Ok(SkEd25519Key(fields[0], fields[1]))
    case Other(_) => Ok(OtherKey(alg, fields[0]))
  }

  function GetKeyBody(alg: Algorithm, b: bytes): (r: Parsed<KeyData>)
    ensures r.Ok? ==> |r.value.1| < |b|
    ensures r.Ok? ==> KeyAlgorithm(r.value.0) == Reported(alg) && !r.value.0.CertificateKey?
  {
    var (fields, rest) :- GetFields(KeyKinds(alg), b);
    var k :- KeyOf(alg, fields);
    Ok((k, rest))
  }

  function GetCertType(b: bytes): (r: Parsed<CertType>)
    ensures r.Ok? ==> |r.value.1| < |b|
  {
    var (n, rest) :- GetU32(b);
    if n == 1 then Ok((User, rest)) else if n == 2 then Ok((Host, rest)) else Err(FormatEncoding)
  }

  datatype Identity = Identity(nonce: bytes, publicKey: KeyData, serial: nat, certType: CertType, keyId: bytes)

  function GetIdentity(b: bytes, alg: Algorithm): (r: Parsed<Identity>)
    ensures r.Ok? ==> |r.value.1| < |b|
    ensures r.Ok? ==> KeyAlgorithm(r.value.0.publicKey) == Reported(alg) && !r.value.0.publicKey.CertificateKey?
  {
    var (nonce, b1) :- GetStr(b);
    var (key, b2) :- GetKeyBody(alg, b1);
    var (serial, b3) :- GetU64(b2);
    var (certType, b4) :- GetCertType(b3);
    var (keyId, b5) :- GetText(b4);
    Ok((Identity(nonce, key, serial, certType, keyId), b5))
  }

  datatype Constraints = Constraints(
    principals: seq<bytes>, validAfter: nat, validBefore: nat,
    criticalOptions: seq<Options.Entry>, extensions: seq<Options.Entry>, reserved: bytes)

  function GetConstraints(b: bytes): (r: Parsed<Constraints>)
    ensures r.Ok? ==> |r.value.1| < |b|
  {
    var (p, b1) :- GetStr(b);
    var principals :- GetTextList(p);
    var (validAfter, b2) :- GetU64(b1);
    var (validBefore, b3) :- GetU64(b2);
    var (crit, b4) :- GetStr(b3);
    var criticalOptions :- Options.Get(crit, None);
    var (ext, b5) :- GetStr(b4);
    var extensions :- Options.Get(ext, None);
    var (reserved, b6) :- GetStr(b5);
    Ok((Constraints(principals, validAfter, validBefore, criticalOptions, extensions, reserved), b6))
  }

  function MakeFields(i: Identity, n: Constraints): Fields {
    Fields(i.nonce, i.publicKey, i.serial, i.certType, i.keyId, n.principals, n.validAfter, n.validBefore,
           n.criticalOptions, n.extensions, n.reserved)
  }

  function GetKey(b: bytes): Parsed<KeyData>
    decreases |b|
  {
    var (alg, rest) :- GetAlgorithm(b);
    if alg.Other? && NewCertificate(alg.name).Ok? then
      var (c, rest') :- GetCertAs(rest, NewCertificate(alg.name).value);
      Ok((CertificateKey(c), rest'))
    else
      GetKeyBody(alg, rest)
  }

  function GetCertAs(b: bytes, alg: Algorithm): Parsed<Certificate>
    decreases |b|
  {
    var (identity, b1) :- GetIdentity(b, alg);
    var (constraints, b2) :- GetConstraints(b1);
    var (keyBytes, b3) :- GetStr(b2);
    var signatureKey :- Finish(GetKey(keyBytes));
    var (sigBytes, b4) :- GetStr(b3);
    var signature :- Finish(Signatures.Decode(sigBytes));
    Ok((Certificate(MakeFields(identity, constraints), signatureKey, signature, []), b4))
  }

  function GetCert(b: bytes): Parsed<Certificate> {
    var (id, rest) :- GetText(b);
    var alg :- NewCertificate(id);
    GetCertAs(rest, alg)
  }

  // ---------- Which values survive a round trip ----------

  /** A name that reads back as a custom algorithm of that very name. */
  predicate ReadsAsCustom(id: bytes) {
    FromStr(id) == Ok(Other(id))
  }

  /** A plain key of the type its algorithm stands for: an opaque key has a custom algorithm, and a point
      is neither the identity nor compact. */
  predicate ProperKey(k: KeyData) {
    match k
    case OtherKey(alg, _) => alg.Other?
    case EcdsaKey(_, point) => point != [] && point[0] != TAG_IDENTITY && point[0] != TAG_COMPACT
    case CertificateKey(_) => false
    case _ => true
  }

  ghost predicate CanonicalKey(k: KeyData)
    decreases k, 0
  {
    match k
    case CertificateKey(c) => CanonicalCert(c) && ReadsAsCustom(CertName(c))
    case OtherKey(alg, _) => alg.Other? && ReadsAsCustom(alg.name) && NewCertificate(alg.name).Err?
    case _ => ProperKey(k)
  }

  /** The certified key is proper, its certificate name is not that of another algorithm, and the signing
      key is canonical: a condition on the signed part alone. */
  ghost predicate CanonicalTbs(c: Certificate)
    decreases c, 0
  {
    && ProperKey(c.fields.publicKey)
    && !CertNameTaken(KeyAlgorithm(c.fields.publicKey))
    && CanonicalKey(c.signatureKey)
  }

  ghost predicate CanonicalCert(c: Certificate)
    decreases c, 1
  {
    CanonicalTbs(c) && CanonicalAlgorithm(c.signature.alg)
  }

  /** No certificate anywhere inside lacks a name, where the code panics. */
  ghost predicate NamedKey(k: KeyData)
    decreases k, 0
  {
    k.CertificateKey? ==> Named(k.cert)
  }

  ghost predicate Named(c: Certificate)
    decreases c, 0
  {
    && ToCertificateType(KeyAlgorithm(c.fields.publicKey)).Some?
    && NamedKey(c.fields.publicKey) && NamedKey(c.signatureKey)
  }

  /** The value without its comments, which are never written. */
  function BareKey(k: KeyData): KeyData
    decreases k, 0
  {
    if k.CertificateKey? then CertificateKey(BareCert(k.cert)) else k
  }

  function BareCert(c: Certificate): Certificate
    decreases c, 0
  {
    Certificate(c.fields.(publicKey := BareKey(c.fields.publicKey)), BareKey(c.signatureKey), c.signature, [])
  }
}
