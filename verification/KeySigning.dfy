/** Raw signatures: what each kind of key pair signs, and what its public key accepts. */
module KeySigning {
  import opened Bytes
  import opened SshWire
  import opened Algorithms
  import opened KeyFields
  import opened Certificates
  import opened Keypairs
  import opened Signatures
  import opened Pkcs1

  /** An RSA key pair, as magnitudes. */
  datatype RsaParts = RsaParts(n: bytes, e: bytes, d: bytes, p: bytes, q: bytes, iqmp: bytes)

  /** The factors make up the modulus, the exponents undo each other modulo both, and the coefficient inverts the
      second factor modulo the first. */
  predicate RsaMatches(n: nat, e: nat, d: nat, p: nat, q: nat, iqmp: nat) {
    && p > 1 && q > 1 && p * q == n
    && (e * d) % (p - 1) == 1 % (p - 1) && (e * d) % (q - 1) == 1 % (q - 1) && (iqmp * q) % p == 1
  }

  predicate PartsMatch(k: RsaParts) {
    RsaMatches(FromBE(k.n), FromBE(k.e), FromBE(k.d), FromBE(k.p), FromBE(k.q), FromBE(k.iqmp))
  }

  /** wolfCrypt's signature algorithms, the hashes, and the conversions of ECDSA signatures. SHA-1 may be
      missing. */
  datatype Scheme = Scheme(
    ed25519Public: bytes -> bytes,
    ed25519Sign: (bytes, bytes, bytes) -> Result<bytes>,
    ed25519Verify: (bytes, bytes, bytes) -> Result<()>,
    eccPublic: (EcdsaCurve, bytes) -> bytes,
    eccSign: (EcdsaCurve, bytes, bytes) -> Result<bytes>,
    eccVerify: (bytes, bytes, bytes) -> Result<bool>,
    der: DerCodec,
    rsaSign: (RsaParts, bytes) -> Result<bytes>,
    rsaRecover: (bytes, bytes, bytes) -> Result<bytes>,
    sha1: Option<bytes -> bytes>,
    sha256: bytes -> bytes,
    sha384: bytes -> bytes,
    sha512: bytes -> bytes)
  {
    function Digest(h: HashAlg, msg: bytes): bytes {
      match h case Sha256 => sha256(msg) case Sha512 => sha512(msg)
    }

    /** Digests have their size. */
    ghost predicate Hashes() {
      (forall m :: |sha256(m)| == 32) && (forall m :: |sha384(m)| == 48) && (forall m :: |sha512(m)| == 64)
    }

    /** Signatures have 64 bytes, and one made with a seed and its public key is accepted under that key. */
    ghost predicate Ed25519Works() {
      forall seed, m :: ed25519Sign(seed, ed25519Public(seed), m).Ok? ==>
        var sig := ed25519Sign(seed, ed25519Public(seed), m).value;
        |sig| == 64 && ed25519Verify(ed25519Public(seed), m, sig).Ok?
    }

    /** A signature is the DER of two positive integers no wider than the field, and any DER of them is
        accepted under the signer's uncompressed point. */
    ghost predicate EccWorks() {
      && (forall c, d :: |eccPublic(c, d)| == 1 + 2 * FieldSize(c) && eccPublic(c, d)[0] == TAG_UNCOMPRESSED)
      && (forall c, d, h :: eccSign(c, d, h).Ok? ==> EccSigned(c, d, h, eccSign(c, d, h).value))
    }

    ghost predicate EccSigned(c: EcdsaCurve, d: bytes, h: bytes, sig: bytes)
      requires |eccPublic(c, d)| == 1 + 2 * FieldSize(c)
    {
      && der.toRs(sig).Some?
      && var (r, s) := der.toRs(sig).value;
         && FromBE(r) > 0 && FromBE(s) > 0 && |r| <= FieldSize(c) && |s| <= FieldSize(c)
         && (forall sig' :: Denotes(sig', FromBE(r), FromBE(s)) ==> eccVerify(eccPublic(c, d), sig', h) == Ok(true))
    }

    predicate Denotes(sig: bytes, r: nat, s: nat) {
      der.toRs(sig).Some? && FromBE(der.toRs(sig).value.0) == r && FromBE(der.toRs(sig).value.1) == s
    }

    /** A signature made with a matching pair is as long as the modulus and recovers what was signed. */
    ghost predicate RsaWorks() {
      forall k, m :: PartsMatch(k) && rsaSign(k, m).Ok? ==>
        |rsaSign(k, m).value| == |k.n| && rsaRecover(k.n, k.e, rsaSign(k, m).value) == Ok(m)
    }

    ghost predicate Correct() {
      Hashes() && Ed25519Works() && EccWorks() && der.Agrees() && RsaWorks()
    }
  }

  // ---------- Verifying ----------

  /** The last five bytes of a security key's signature are its flags and counter. */
  function SplitSk(s: Signature): (r: Result<(bytes, bytes)>)
    ensures r.Ok? <==> |s.data| >= SK_SIGNATURE_TRAILER_SIZE
    ensures r.Ok? ==> s.data == r.value.0 + r.value.1 && |r.value.1| == SK_SIGNATURE_TRAILER_SIZE
  {
    if |s.data| < SK_SIGNATURE_TRAILER_SIZE then Err(Length)
    else
      var n := |s.data| - SK_SIGNATURE_TRAILER_SIZE;
      Ok((s.data[..n], s.data[n..]))
  }

  function SkSignedData(x: Scheme, application: bytes, trailer: bytes, msg: bytes): bytes {
    x.sha256(application) + trailer + x.sha256(msg)
  }

  /** The hash goes with the curve. */
  function EcdsaDigest(x: Scheme, c: EcdsaCurve, msg: bytes): bytes {
    match c case NistP256 => x.sha256(msg) case NistP384 => x.sha384(msg) case NistP521 => x.sha512(msg)
  }

  function EcdsaVerify(x: Scheme, c: EcdsaCurve, point: bytes, msg: bytes, data: bytes): Result<()> {
    var sig :- SshSigToDer(x.der, data);
    var accepted :- x.eccVerify(point, sig, EcdsaDigest(x, c, msg));
    if accepted then Ok(()) else Err(Error.Crypto)
  }

  /** What RSA signs: the hash with its DER frame, as in section 9.2 of RFC 8017. */
  function DigestInfo(x: Scheme, hash: Option<HashAlg>, msg: bytes): Result<bytes> {
    match hash
    case Some(h) => Ok(InfoPrefix(hash) + x.Digest(h, msg))
    case None => if x.sha1.Some? then Ok(InfoPrefix(None) + x.sha1.value(msg)) else Err(AlgorithmUnknown)
  }

  function RsaVerify(x: Scheme, e: bytes, n: bytes, hash: Option<HashAlg>, msg: bytes, data: bytes): Result<()> {
    match (AsPositive(n), AsPositive(e))
    case (Some(nb), Some(eb)) =>
      var recovered :- x.rsaRecover(nb, eb, data);
      var expected :- DigestInfo(x, hash, msg);
      if recovered == expected then Ok(()) else Err(Error.Crypto)
    case _ => Err(Error.Crypto)
  }

  function VerifyKey(x: Scheme, k: KeyData, msg: bytes, s: Signature): Result<()> {
    match k
    case EcdsaKey(_, point) =>
      (match s.alg
       case Ecdsa(c) => EcdsaVerify(x, c, point, msg, s.data)
       case _ => Err(AlgorithmUnsupported))
    case Ed25519Key(pk) => if s.alg == Ed25519 then x.ed25519Verify(pk, msg, s.data) else Err(Error.Crypto)
    case SkEd25519Key(pk, application) =>
      var (sig, trailer) :- SplitSk(s);
      x.ed25519Verify(pk, SkSignedData(x, application, trailer, msg), sig)
    case SkEcdsaKey(point, application) =>
      var (sig, trailer) :- SplitSk(s);
      EcdsaVerify(x, NistP256, point, SkSignedData(x, application, trailer, msg), sig)
    case RsaKey(e, n) =>
      (match s.alg
       case Rsa(hash) => RsaVerify(x, e, n, hash, msg, s.data)
       case _ => Err(AlgorithmUnsupported))
    case _ => Err(AlgorithmUnsupported)
  }

  /** What is verified with a security key's signature determines the application's digest, the
      trailer and the message's digest. */
  lemma SkSignedDataInjective(
    x: Scheme, app: bytes, trailer: bytes, msg: bytes, app': bytes, trailer': bytes, msg': bytes)
    requires x.Hashes() && |trailer| == |trailer'|
    requires SkSignedData(x, app, trailer, msg) == SkSignedData(x, app', trailer', msg')
    ensures x.sha256(app) == x.sha256(app') && trailer == trailer' && x.sha256(msg) == x.sha256(msg')
  {
    var d, d' := SkSignedData(x, app, trailer, msg), SkSignedData(x, app', trailer', msg');
    var n := 32 + |trailer|;
    assert d[..32] == x.sha256(app) && d'[..32] == x.sha256(app');
    assert d[32..n] == trailer && d'[32..n] == trailer';
    assert d[n..] == x.sha256(msg) && d'[n..] == x.sha256(msg');
  }

  /** Its layout: digest of the application, trailer, digest of the message. */
  lemma SkSignedDataLayout(x: Scheme, app: bytes, trailer: bytes, msg: bytes)
    requires x.Hashes() && |trailer| == SK_SIGNATURE_TRAILER_SIZE
    ensures var d := SkSignedData(x, app, trailer, msg);
            |d| == 69 && d[..32] == x.sha256(app) && d[32..37] == trailer && d[37..] == x.sha256(msg)
  {
    var d := SkSignedData(x, app, trailer, msg);
    assert d[..32] == x.sha256(app) && d[32..37] == trailer && d[37..] == x.sha256(msg);
  }

  /** The digest of a curve is that of its longest hash among the three that fits the field. */
  lemma EcdsaDigestIsLongest(x: Scheme, c: EcdsaCurve, msg: bytes)
    requires x.Hashes()
    ensures var d := EcdsaDigest(x, c, msg);
            var all := {x.sha256(msg), x.sha384(msg), x.sha512(msg)};
            && d in all && |d| <= FieldSize(c)
            && forall e :: e in all && |e| <= FieldSize(c) ==> |e| <= |d|
  {
  }

  /** Where the five bytes a security key verifies with stood on the wire: behind the prefixed data when the
      signature bears a security key's label, at the end of that data under any other label. */
  lemma WireTrailerIsVerified(b: bytes)
    requires Signatures.Decode(b).Ok?
    ensures var (s, rest) := Signatures.Decode(b).value;
            && (IsSk(s.alg) ==> SplitSk(s).Ok?)
            && (SplitSk(s).Ok? ==>
                  var (sig, trailer) := SplitSk(s).value;
                  b == Str(AsStr(s.alg))
                       + if IsSk(s.alg) then Str(sig) + (trailer + rest) else Str(sig + trailer) + rest)
  {
    DecodeInverse(b);
  }

  /** The library accepts the DER of these two integers for this digest. */
  ghost predicate EccAccepts(x: Scheme, point: bytes, r: bytes, s: bytes, digest: bytes) {
    && AsPositive(r).Some? && AsPositive(s).Some?
    && var sig := x.der.fromRs(AsPositive(r).value, AsPositive(s).value);
       sig.Some? && x.eccVerify(point, sig.value, digest) == Ok(true)
  }

  /** Two integers, and then anything. */
  ghost predicate StartsWithIntegers(data: bytes, p: bytes, q: bytes, u: bytes) {
    Fits(p) && Fits(q) && MpintOk(p) && MpintOk(q) && data == Str(p) + (Str(q) + u)
  }

  /** Data is accepted exactly when it starts with two integers the library accepts: what follows them is not
      looked at. */
  lemma EcdsaVerifyIff(x: Scheme, c: EcdsaCurve, point: bytes, msg: bytes, data: bytes)
    ensures EcdsaVerify(x, c, point, msg, data).Ok? <==>
            exists p, q, u :: StartsWithIntegers(data, p, q, u) && EccAccepts(x, point, p, q, EcdsaDigest(x, c, msg))
  {
    hide StartsWithIntegers, EccAccepts, EcdsaDigest, SshSigToDer;
    if EcdsaVerify(x, c, point, msg, data).Ok? {
      var p, q, u := IntegersRead(x, data);
      IntegersDecide(x, c, point, msg, data, p, q, u);
    }
    forall p, q, u | StartsWithIntegers(data, p, q, u)
      ensures EcdsaVerify(x, c, point, msg, data).Ok? <==> EccAccepts(x, point, p, q, EcdsaDigest(x, c, msg))
    {
      IntegersDecide(x, c, point, msg, data, p, q, u);
    }
  }

  lemma IntegersRead(x: Scheme, data: bytes) returns (p: bytes, q: bytes, u: bytes)
    requires SshSigToDer(x.der, data).Ok?
    ensures StartsWithIntegers(data, p, q, u)
  {
    hide Str, AsPositive, MpintOk;
    var rest := GetMpint(data).value.1;
    p, q, u := GetMpint(data).value.0, GetMpint(rest).value.0, GetMpint(rest).value.1;
  }

  lemma IntegersDecide(x: Scheme, c: EcdsaCurve, point: bytes, msg: bytes, data: bytes, p: bytes, q: bytes, u: bytes)
    requires StartsWithIntegers(data, p, q, u)
    ensures EcdsaVerify(x, c, point, msg, data).Ok? <==> EccAccepts(x, point, p, q, EcdsaDigest(x, c, msg))
  {
    hide Str, EcdsaDigest, MpintOk, AsPositive;
    GetStrOf(p, Str(q) + u);
    GetStrOf(q, u);
  }

  /** A valid ECDSA signature is accepted exactly when it is two integers that the library accepts for the
      digest of the signature's curve. */
  lemma EcdsaAcceptsIff(x: Scheme, k: KeyData, msg: bytes, s: Signature)
    requires k.EcdsaKey? && s.alg.Ecdsa? && Signatures.Valid(s)
    ensures VerifyKey(x, k, msg, s).Ok? <==>
            exists p, q :: IsSigBlob(s.data, s.alg.curve, false, p, q, [])
                           && EccAccepts(x, k.point, p, q, EcdsaDigest(x, s.alg.curve, msg))
  {
    hide IsSigBlob, EccAccepts, SigSize, EcdsaDigest, EcdsaVerify;
    var c := s.alg.curve;
    SigSizeIff(s.data, c, false);
    var p, q, t :| IsSigBlob(s.data, c, false, p, q, t);
    NoTrailer(s.data, c, p, q, t);
    forall p', q' | IsSigBlob(s.data, c, false, p', q', [])
      ensures EcdsaVerify(x, c, k.point, msg, s.data).Ok? <==> EccAccepts(x, k.point, p', q', EcdsaDigest(x, c, msg))
    {
      BlobStarts(s.data, c, false, p', q', []);
      IntegersDecide(x, c, k.point, msg, s.data, p', q', []);
    }
  }

  lemma NoTrailer(data: bytes, c: EcdsaCurve, p: bytes, q: bytes, t: bytes)
    requires IsSigBlob(data, c, false, p, q, t)
    ensures IsSigBlob(data, c, false, p, q, [])
  {
    hide IsComponent, Str;
    assert t == [];
  }

  lemma BlobStarts(data: bytes, c: EcdsaCurve, sk: bool, p: bytes, q: bytes, t: bytes)
    requires IsSigBlob(data, c, sk, p, q, t)
    ensures StartsWithIntegers(data, p, q, t)
  {
    hide Str, MpintOk, AsPositive;
  }

  // ---------- Security keys ----------

  /** Two integers, anything, and the five bytes of a trailer. */
  ghost predicate IsSkBlob(data: bytes, p: bytes, q: bytes, u: bytes, t: bytes) {
    StartsWithIntegers(data, p, q, u + t) && |t| == SK_SIGNATURE_TRAILER_SIZE
  }

  /** An ECDSA security key accepts a signature, whatever its label, exactly when its data starts with two
      integers and ends with a trailer, and the library accepts the integers for the digest of application,
      trailer and message. What stands between them is not looked at. */
  lemma SkEcdsaAcceptsIff(x: Scheme, k: KeyData, msg: bytes, s: Signature)
    requires k.SkEcdsaKey?
    ensures VerifyKey(x, k, msg, s).Ok? <==>
            exists p, q, u, t :: IsSkBlob(s.data, p, q, u, t)
                                 && EccAccepts(x, k.point, p, q, x.sha256(SkSignedData(x, k.application, t, msg)))
  {
    hide IsSkBlob, StartsWithIntegers, EccAccepts, EcdsaVerify, SkSignedData;
    if VerifyKey(x, k, msg, s).Ok? {
      var (sig, t) := SplitSk(s).value;
      var data := SkSignedData(x, k.application, t, msg);
      EcdsaVerifyIff(x, NistP256, k.point, data, sig);
      var p, q, u :| StartsWithIntegers(sig, p, q, u) && EccAccepts(x, k.point, p, q, x.sha256(data));
      JoinTrailer(sig, p, q, u, t);
      assert IsSkBlob(s.data, p, q, u, t);
    }
    forall p, q, u, t | IsSkBlob(s.data, p, q, u, t)
      ensures VerifyKey(x, k, msg, s).Ok? <==>
              EccAccepts(x, k.point, p, q, x.sha256(SkSignedData(x, k.application, t, msg)))
    {
      SkVerified(x, k, msg, s, p, q, u, t);
    }
  }

  lemma JoinTrailer(sig: bytes, p: bytes, q: bytes, u: bytes, t: bytes)
    requires StartsWithIntegers(sig, p, q, u) && |t| == SK_SIGNATURE_TRAILER_SIZE
    ensures IsSkBlob(sig + t, p, q, u, t)
  {
    hide Str, MpintOk;
    Glue3(Str(p), Str(q), u, t);
    Glue2(Str(p), Str(q), u);
  }

  lemma SplitTrailer(s: Signature, p: bytes, q: bytes, u: bytes, t: bytes)
    requires IsSkBlob(s.data, p, q, u, t)
    ensures SplitSk(s) == Ok((Str(p) + (Str(q) + u), t)) && StartsWithIntegers(Str(p) + (Str(q) + u), p, q, u)
  {
    hide Str, MpintOk;
    var sig := Str(p) + (Str(q) + u);
    var n := |s.data| - SK_SIGNATURE_TRAILER_SIZE;
    Glue3(Str(p), Str(q), u, t);
    Glue2(Str(p), Str(q), u);
    assert s.data == sig + t;
    assert s.data[n..] == t && s.data[..n] == sig;
  }

  lemma SkVerified(x: Scheme, k: KeyData, msg: bytes, s: Signature, p: bytes, q: bytes, u: bytes, t: bytes)
    requires k.SkEcdsaKey? && IsSkBlob(s.data, p, q, u, t)
    ensures VerifyKey(x, k, msg, s).Ok? <==>
            EccAccepts(x, k.point, p, q, x.sha256(SkSignedData(x, k.application, t, msg)))
  {
    hide IsSkBlob, StartsWithIntegers, EccAccepts, EcdsaVerify, SkSignedData, SplitSk;
    SplitTrailer(s, p, q, u, t);
    IntegersDecide(x, NistP256, k.point, SkSignedData(x, k.application, t, msg), SplitSk(s).value.0, p, q, u);
  }

  /** Such data could bear the key's own label exactly when nothing stands between integers and trailer and
      both integers are positive and fit the field. */
  lemma OwnLabelIff(data: bytes, p: bytes, q: bytes, u: bytes, t: bytes)
    requires IsSkBlob(data, p, q, u, t)
    ensures Signatures.New(SkEcdsaSha2NistP256, data).Ok? <==>
            u == [] && IsComponent(p, NistP256) && IsComponent(q, NistP256)
  {
    hide IsComponent, Str, Component, MpintOk;
    ComponentIff(p, Str(q) + (u + t), NistP256);
    ComponentIff(q, u + t, NistP256);
  }

  /** So under that label a valid signature is accepted exactly when it is two integers and a trailer, and the
      library accepts the integers. */
  lemma OwnLabelAcceptsIff(x: Scheme, k: KeyData, msg: bytes, s: Signature)
    requires k.SkEcdsaKey? && s.alg.SkEcdsaSha2NistP256? && Signatures.Valid(s)
    ensures VerifyKey(x, k, msg, s).Ok? <==>
            exists p, q, t :: IsSigBlob(s.data, NistP256, true, p, q, t)
                              && EccAccepts(x, k.point, p, q, x.sha256(SkSignedData(x, k.application, t, msg)))
  {
    hide IsSigBlob, EccAccepts, SigSize, SkSignedData, VerifyKey, IsSkBlob;
    SigSizeIff(s.data, NistP256, true);
    var p, q, t :| IsSigBlob(s.data, NistP256, true, p, q, t);
    forall p', q', t' | IsSigBlob(s.data, NistP256, true, p', q', t')
      ensures VerifyKey(x, k, msg, s).Ok? <==>
              EccAccepts(x, k.point, p', q', x.sha256(SkSignedData(x, k.application, t', msg)))
    {
      SigBlobIsSkBlob(s.data, p', q', t');
      SkVerified(x, k, msg, s, p', q', [], t');
    }
  }

  lemma SigBlobIsSkBlob(data: bytes, p: bytes, q: bytes, t: bytes)
    requires IsSigBlob(data, NistP256, true, p, q, t)
    ensures IsSkBlob(data, p, q, [], t)
  {
    hide Str, MpintOk, AsPositive;
    FromStart(t);
  }

  /** An Ed25519 security key accepts a signature, whatever its label, exactly when its data ends in a trailer
      and the library accepts the rest for application, trailer and message. */
  lemma SkEd25519AcceptsIff(x: Scheme, k: KeyData, msg: bytes, s: Signature)
    requires k.SkEd25519Key?
    ensures VerifyKey(x, k, msg, s).Ok? <==>
            exists sig, t :: s.data == sig + t && |t| == SK_SIGNATURE_TRAILER_SIZE
                             && x.ed25519Verify(k.pk, SkSignedData(x, k.application, t, msg), sig).Ok?
  {
    hide SkSignedData;
    forall sig: bytes, t: bytes | s.data == sig + t && |t| == SK_SIGNATURE_TRAILER_SIZE
      ensures SplitSk(s) == Ok((sig, t))
    {
      assert s.data[..|sig|] == sig && s.data[|sig|..] == t;
    }
  }

  /** What a security key accepts it also accepts labelled as RSA, which the constructor allows for any data;
      that signature reads back, and on the wire its trailer is inside the prefixed data. */
  lemma RelabelledIsAccepted(x: Scheme, k: KeyData, msg: bytes, s: Signature, hash: Option<HashAlg>)
    requires (k.SkEcdsaKey? || k.SkEd25519Key?) && VerifyKey(x, k, msg, s).Ok? && Fits(s.data)
    ensures var s' := Signature(Rsa(hash), s.data);
            && Signatures.Valid(s') && VerifyKey(x, k, msg, s').Ok?
            && Signatures.Encode(s') == Ok(Str(AsStr(s'.alg)) + Str(s.data))
            && Signatures.Decode(Signatures.Encode(s').value) == Ok((s', []))
  {
    hide EcdsaVerify, SkSignedData, Str, Signatures.Decode;
    var s' := Signature(Rsa(hash), s.data);
    KnownNameOfAsStr(s'.alg);
    NoTail(Str(s.data));
    Signatures.RoundTripIff(s', []);
  }

  /** Under the label of a plain ECDSA key an ECDSA security key accepts no valid signature: two integers and
      nothing else leave no room for a trailer. */
  lemma EcdsaLabelRefused(x: Scheme, k: KeyData, msg: bytes, s: Signature)
    requires k.SkEcdsaKey? && s.alg.Ecdsa? && Signatures.Valid(s)
    ensures VerifyKey(x, k, msg, s).Err?
  {
    hide EccAccepts, SigSize, SkSignedData, VerifyKey, Str, MpintOk, IsComponent;
    var c := s.alg.curve;
    SigSizeIff(s.data, c, false);
    var p, q, e :| IsSigBlob(s.data, c, false, p, q, e);
    ComponentFits(p, c);
    ComponentFits(q, c);
    SkEcdsaAcceptsIff(x, k, msg, s);
    if VerifyKey(x, k, msg, s).Ok? {
      var p', q', u, t :| IsSkBlob(s.data, p', q', u, t)
        && EccAccepts(x, k.point, p', q', x.sha256(SkSignedData(x, k.application, t, msg)));
      StrInjective(p, Str(q) + e, p', Str(q') + (u + t));
      StrInjective(q, e, q', u + t);
    }
  }

  /** A signature labelled as RSA, with a stray byte before its trailer, that the lenient library lets every
      ECDSA security key accept for every message; its data could not bear the key's own label. */
  lemma StrayByteAccepted(k: KeyData, msg: bytes, t: bytes)
    requires k.SkEcdsaKey? && |t| == SK_SIGNATURE_TRAILER_SIZE
    ensures var s := Signature(Rsa(None), Str([1]) + (Str([1]) + ([7] + t)));
            && Signatures.Valid(s) && VerifyKey(Lenient(), k, msg, s).Ok?
            && Signatures.New(SkEcdsaSha2NistP256, s.data).Err?
  {
    hide VerifyKey, SkSignedData, Signatures.New;
    var s := Signature(Rsa(None), Str([1]) + (Str([1]) + ([7] + t)));
    assert IsSkBlob(s.data, [1], [1], [7], t);
    RsaTakesAll(s);
    SkVerified(Lenient(), k, msg, s, [1], [1], [7], t);
    OwnLabelIff(s.data, [1], [1], [7], t);
    LenientAcceptsOnes(k.point, Lenient().sha256(SkSignedData(Lenient(), k.application, t, msg)));
  }

  lemma RsaTakesAll(s: Signature)
    requires s.alg.Rsa? && Fits(s.data)
    ensures Signatures.Valid(s)
  {
  }

  lemma LenientAcceptsOnes(point: bytes, digest: bytes)
    ensures EccAccepts(Lenient(), point, [1], [1], digest)
  {
    hide Pad, Unpad;
  }

  /** It is the DER of the hash algorithm and the digest. */
  lemma DigestInfoIsDer(x: Scheme, hash: Option<HashAlg>, msg: bytes)
    requires x.Hashes() && DigestInfo(x, hash, msg).Ok? && (hash.None? ==> |x.sha1.value(msg)| == 20)
    ensures var digest := if hash.None? then x.sha1.value(msg) else x.Digest(hash.value, msg);
            |digest| <= 64 && DigestInfo(x, hash, msg).value == DerDigest(hash, digest)
  {
    hide DerDigest, InfoPrefix;
    var digest := if hash.None? then x.sha1.value(msg) else x.Digest(hash.value, msg);
    PrefixIsDer(hash, digest);
  }

  /** What RSA signs determines the hash algorithm and the digest. */
  lemma DigestInfoInjective(x: Scheme, hash: Option<HashAlg>, msg: bytes, hash': Option<HashAlg>, msg': bytes)
    requires DigestInfo(x, hash, msg).Ok? && DigestInfo(x, hash, msg) == DigestInfo(x, hash', msg')
    ensures hash == hash'
    ensures hash.Some? ==> x.Digest(hash.value, msg) == x.Digest(hash.value, msg')
    ensures hash.None? ==> x.sha1.value(msg) == x.sha1.value(msg')
  {
    var info := DigestInfo(x, hash, msg).value;
    var p, p' := InfoPrefix(hash), InfoPrefix(hash');
    PrefixesDiffer(hash, hash');
    assert info[1] == p[1] && info[1] == p'[1];
    assert info[|p|..] == match hash case None => x.sha1.value(msg) case Some(h) => x.Digest(h, msg);
    assert info[|p|..] == match hash case None => x.sha1.value(msg') case Some(h) => x.Digest(h, msg');
  }

  /** An RSA key that accepts the same signature bytes for two messages does so under one hash algorithm and
      for one digest. */
  lemma RsaAcceptsOneDigest(x: Scheme, k: KeyData, msg: bytes, s: Signature, msg': bytes, s': Signature)
    requires k.RsaKey? && s.data == s'.data
    requires VerifyKey(x, k, msg, s).Ok? && VerifyKey(x, k, msg', s').Ok?
    ensures s.alg == s'.alg && s.alg.Rsa?
    ensures s.alg.hash.Some? ==> x.Digest(s.alg.hash.value, msg) == x.Digest(s.alg.hash.value, msg')
    ensures s.alg.hash.None? ==> x.sha1.Some? && x.sha1.value(msg) == x.sha1.value(msg')
  {
    DigestInfoInjective(x, s.alg.hash, msg, s'.alg.hash, msg');
  }

  // ---------- Acceptance, key by key ----------

  /** What each kind of key accepts, in terms of the library's answers alone. */
  ghost predicate Accepts(x: Scheme, k: KeyData, msg: bytes, s: Signature) {
    match k
    case Ed25519Key(pk) => s.alg.Ed25519? && x.ed25519Verify(pk, msg, s.data).Ok?
    case SkEd25519Key(pk, app) =>
      exists sig, t :: s.data == sig + t && |t| == 5
                       && x.ed25519Verify(pk, x.sha256(app) + t + x.sha256(msg), sig).Ok?
    case EcdsaKey(_, point) =>
      s.alg.Ecdsa? && exists p, q, u :: StartsWithIntegers(s.data, p, q, u)
                                        && EccAccepts(x, point, p, q, EcdsaDigest(x, s.alg.curve, msg))
    case SkEcdsaKey(point, app) =>
      exists p, q, u, t :: IsSkBlob(s.data, p, q, u, t)
                           && EccAccepts(x, point, p, q, x.sha256(x.sha256(app) + t + x.sha256(msg)))
    case RsaKey(e, n) =>
      && s.alg.Rsa? && AsPositive(n).Some? && AsPositive(e).Some? && DigestInfo(x, s.alg.hash, msg).Ok?
      && x.rsaRecover(AsPositive(n).value, AsPositive(e).value, s.data) == DigestInfo(x, s.alg.hash, msg)
    case _ => false
  }

  /** An Ed25519 key accepts a signature exactly when it bears its label and the library accepts it. */
  lemma Ed25519AcceptsIff(x: Scheme, k: KeyData, msg: bytes, s: Signature)
    requires k.Ed25519Key?
    ensures VerifyKey(x, k, msg, s).Ok? <==> s.alg == Ed25519 && x.ed25519Verify(k.pk, msg, s.data).Ok?
  {
  }

  /** An RSA key accepts a signature exactly when it has an RSA label and the library recovers from it the framed
      digest of the message under the label's hash. */
  lemma RsaAcceptsIff(x: Scheme, k: KeyData, msg: bytes, s: Signature)
    requires k.RsaKey? && ValidKey(k)
    ensures VerifyKey(x, k, msg, s).Ok? <==>
            && s.alg.Rsa? && DigestInfo(x, s.alg.hash, msg).Ok?
            && x.rsaRecover(AsPositive(k.n).value, AsPositive(k.e).value, s.data) == DigestInfo(x, s.alg.hash, msg)
  {
    hide DigestInfo, AsPositive, MpintOk;
  }

  /** Verification is acceptance by the library, for every kind of key; DSA, opaque and certificate keys accept
      nothing. */
  lemma VerifyKeyIff(x: Scheme, k: KeyData, msg: bytes, s: Signature)
    ensures VerifyKey(x, k, msg, s).Ok? <==> Accepts(x, k, msg, s)
    ensures k.DsaKey? || k.OtherKey? || k.CertificateKey? ==> VerifyKey(x, k, msg, s).Err?
  {
    hide EcdsaVerify, EccAccepts, StartsWithIntegers, IsSkBlob, DigestInfo, EcdsaDigest, AsPositive;
    match k
    case EcdsaKey(_, point) =>
      if s.alg.Ecdsa? {
        EcdsaVerifyIff(x, s.alg.curve, point, msg, s.data);
      }
    case SkEcdsaKey(_, _) =>
      SkEcdsaAcceptsIff(x, k, msg, s);
    case SkEd25519Key(_, _) =>
      SkEd25519AcceptsIff(x, k, msg, s);
    case _ =>
  }

  // ---------- Signing ----------

  function EcdsaSign(x: Scheme, c: EcdsaCurve, d: bytes, msg: bytes): Result<Signature> {
    var sig :- x.eccSign(c, d, EcdsaDigest(x, c, msg));
    var data :- DerSigToSsh(x.der, sig);
    Ok(Signature(Ecdsa(c), data))
  }

  function PartsOf(k: KeyData, s: Secret): Option<RsaParts>
    requires k.RsaKey? && s.Factors?
  {
    var n, e := AsPositive(k.n), AsPositive(k.e);
    var d, p, q, iqmp := AsPositive(s.d), AsPositive(s.p), AsPositive(s.q), AsPositive(s.iqmp);
    if n.Some? && e.Some? && d.Some? && p.Some? && q.Some? && iqmp.Some?
    then Some(RsaParts(n.value, e.value, d.value, p.value, q.value, iqmp.value)) else None
  }

  function RsaSign(x: Scheme, k: KeyData, s: Secret, hash: Option<HashAlg>, msg: bytes): Result<Signature>
    requires k.RsaKey? && s.Factors?
  {
    match PartsOf(k, s)
    case None => Err(Error.Crypto)
    case Some(parts) =>
      var info :- DigestInfo(x, hash, msg);
      var sig :- x.rsaSign(parts, info);
      Ok(Signature(Rsa(hash), sig))
  }

  /** RSA always signs with SHA-512. */
  function TrySign(x: Scheme, p: Keypair, msg: bytes): Result<Signature> {
    match p
    case EncryptedPair(_) => Err(Encrypted)
    case Pair(k, s) =>
      match k
      case EcdsaKey(c, _) => EcdsaSign(x, c, s.d, msg)
      case Ed25519Key(pk) =>
        var sig :- x.ed25519Sign(s.seed, pk, msg);
        Ok(Signature(Ed25519, sig))
      case RsaKey(_, _) => RsaSign(x, k, s, Some(Sha512), msg)
      case _ => Err(AlgorithmUnsupported)
  }

  ghost predicate AllPositive(ms: seq<bytes>) {
    forall i :: 0 <= i < |ms| ==> AsPositive(ms[i]).Some?
  }

  /** The number an mpint stands for; zero for those that are not positive. */
  function Number(m: bytes): nat {
    if AsPositive(m).Some? then FromBE(AsPositive(m).value) else 0
  }

  /** The public half is the one the secret half has: nothing checks this of ECDSA and RSA pairs. */
  ghost predicate Matches(x: Scheme, p: Keypair) {
    && p.Pair?
    && match p.public
       case EcdsaKey(c, point) => point == x.eccPublic(c, p.secret.d)
       case Ed25519Key(pk) => pk == x.ed25519Public(p.secret.seed)
       case RsaKey(e, n) =>
         var s := p.secret;
         && AllPositive([n, e, s.d, s.p, s.q, s.iqmp])
         && RsaMatches(Number(n), Number(e), Number(s.d), Number(s.p), Number(s.q), Number(s.iqmp))
       case _ => true
  }

  /** A signature of a digest, brought to SSH form and labelled with a curve of at least that size, is valid,
      and any message with that digest under the label verifies with the signer's point: the two integers survive
      the way from DER to SSH and back. */
  lemma SignedDigestVerifies(x: Scheme, c: EcdsaCurve, d: bytes, other: EcdsaCurve, msg: bytes)
    requires x.Correct() && FieldSize(c) <= FieldSize(other) && x.eccSign(c, d, EcdsaDigest(x, other, msg)).Ok?
    ensures var data := DerSigToSsh(x.der, x.eccSign(c, d, EcdsaDigest(x, other, msg)).value);
            && data.Ok? && Signatures.Valid(Signature(Ecdsa(other), data.value)) && |data.value| <= 2 * (4 + 67)
            && EcdsaVerify(x, other, x.eccPublic(c, d), msg, data.value).Ok?
  {
    hide DerSigToSsh, SshSigToDer, Signatures.New, EcdsaDigest;
    var h := EcdsaDigest(x, other, msg);
    var sig := x.eccSign(c, d, h).value;
    assert x.EccSigned(c, d, h, sig);
    var (r, s) := x.der.toRs(sig).value;
    SignedBlobPassesCheckIff(x.der, sig, other);
    NewKeeps(Ecdsa(other), DerSigToSsh(x.der, sig).value);
    DerRoundTrip(x.der, sig);
    var back := SshSigToDer(x.der, DerSigToSsh(x.der, sig).value).value;
    assert x.Denotes(back, FromBE(r), FromBE(s));
    BlobLength(x.der, sig);
  }

  /** What a matching ECDSA pair signs is a valid signature that its public key accepts. */
  lemma EcdsaSigned(x: Scheme, c: EcdsaCurve, d: bytes, msg: bytes)
    requires x.Correct() && EcdsaSign(x, c, d, msg).Ok?
    ensures var s := EcdsaSign(x, c, d, msg).value;
            && s.alg == Ecdsa(c) && Signatures.Valid(s) && |s.data| <= 2 * (4 + 67)
            && EcdsaVerify(x, c, x.eccPublic(c, d), msg, s.data).Ok?
  {
    hide DerSigToSsh, EcdsaDigest, Signatures.Valid, Scheme.Correct, EcdsaVerify;
    SignedDigestVerifies(x, c, d, c, msg);
  }

  /** The label of an ECDSA signature need not be that of the key: signing the digest of a larger curve gives a
      valid signature under that curve's label, and the key accepts it. */
  lemma OtherCurveAccepted(x: Scheme, c: EcdsaCurve, d: bytes, other: EcdsaCurve, msg: bytes)
    requires x.Correct() && FieldSize(c) < FieldSize(other) && x.eccSign(c, d, EcdsaDigest(x, other, msg)).Ok?
    ensures var k := EcdsaKey(c, x.eccPublic(c, d));
            exists data :: var s := Signature(Ecdsa(other), data);
                           && ValidKey(k) && Signatures.Valid(s) && s.alg != KeyAlgorithm(k)
                           && VerifyKey(x, k, msg, s).Ok?
  {
    hide DerSigToSsh, EcdsaDigest, Signatures.Valid, EcdsaVerify;
    SignedDigestVerifies(x, c, d, other, msg);
    var k := EcdsaKey(c, x.eccPublic(c, d));
    var s := Signature(Ecdsa(other), DerSigToSsh(x.der, x.eccSign(c, d, EcdsaDigest(x, other, msg)).value).value);
    assert ValidKey(k) && VerifyKey(x, k, msg, s).Ok?;
  }

  /** A P-256 key that accepts a signature labelled as one of P-384. */
  lemma OtherCurveExample(d: bytes, msg: bytes)
    ensures var k := EcdsaKey(NistP256, Lenient().eccPublic(NistP256, d));
            var s := Signature(Ecdsa(NistP384), Str([1]) + Str([1]));
            ValidKey(k) && Signatures.Valid(s) && VerifyKey(Lenient(), k, msg, s).Ok?
  {
    hide DerSigToSsh, EcdsaDigest, Signatures.Valid, EcdsaVerify, Scheme.Correct;
    LenientIsCorrect();
    LenientSignature();
    SignedDigestVerifies(Lenient(), NistP256, d, NistP384, msg);
  }

  lemma LenientSignature()
    ensures forall c, d, h :: Lenient().eccSign(c, d, h) == Ok([1, 1, 1])
    ensures DerSigToSsh(Lenient().der, [1, 1, 1]) == Ok(Str([1]) + Str([1]))
  {
    hide Pad, Unpad, SimpleCodec, Str;
    OneAndOne();
    assert FromPositive([1]) == [1];
  }

  lemma BlobLength(d: DerCodec, sig: bytes)
    requires d.toRs(sig).Some? && |d.toRs(sig).value.0| <= 66 && |d.toRs(sig).value.1| <= 66
    ensures DerSigToSsh(d, sig).Ok? && |DerSigToSsh(d, sig).value| <= 2 * (4 + 67)
  {
    var (r, s) := d.toRs(sig).value;
    StrLength(FromPositive(r));
    StrLength(FromPositive(s));
  }

  lemma RsaSigned(x: Scheme, p: Keypair, hash: Option<HashAlg>, msg: bytes)
    requires x.Correct() && p.Pair? && p.public.RsaKey? && Matches(x, p) && ModulusOk(p.public.n)
    requires RsaSign(x, p.public, p.secret, hash, msg).Ok?
    ensures var sig := RsaSign(x, p.public, p.secret, hash, msg).value;
            && sig.alg == Rsa(hash) && Signatures.Valid(sig) && 8 * |sig.data| < TWO_32
            && RsaVerify(x, p.public.e, p.public.n, hash, msg, sig.data).Ok?
  {
    var parts := MatchingParts(x, p);
    hide RsaMatches, DigestInfo, Matches, AsPositive;
    var info := DigestInfo(x, hash, msg).value;
    assert x.rsaSign(parts, info).Ok?;
  }

  lemma MatchingParts(x: Scheme, p: Keypair) returns (parts: RsaParts)
    requires p.Pair? && p.public.RsaKey? && Matches(x, p)
    ensures PartsOf(p.public, p.secret) == Some(parts) && PartsMatch(parts)
    ensures AsPositive(p.public.n) == Some(parts.n) && AsPositive(p.public.e) == Some(parts.e)
  {
    hide RsaMatches, AsPositive;
    var k, s := p.public, p.secret;
    var ms := [k.n, k.e, s.d, s.p, s.q, s.iqmp];
    assert forall i :: 0 <= i < |ms| ==> AsPositive(ms[i]).Some?;
    assert ms[0] == k.n && ms[1] == k.e && ms[2] == s.d && ms[3] == s.p && ms[4] == s.q && ms[5] == s.iqmp;
    parts := PartsOf(k, s).value;
  }

  /** What a matching pair signs is a valid signature that its public key accepts. */
  lemma SignedIsAccepted(x: Scheme, p: Keypair, msg: bytes)
    requires x.Correct() && ValidPair(p) && Matches(x, p) && TrySign(x, p, msg).Ok?
    ensures var s := TrySign(x, p, msg).value;
            && Signatures.Valid(s) && CanonicalAlgorithm(s.alg) && 8 * |s.data| < TWO_32
            && s.alg == (if p.public.RsaKey? then Rsa(Some(Sha512)) else KeyAlgorithm(p.public))
            && VerifyKey(x, p.public, msg, s).Ok?
  {
    hide EcdsaSign, RsaSign, EcdsaVerify, RsaVerify, RsaMatches, PartsOf, ValidKey, ValidSecret;
    var k, s := p.public, p.secret;
    match k
    case EcdsaKey(c, _) =>
      EcdsaSigned(x, c, s.d, msg);
    case Ed25519Key(pk) =>
      assert x.ed25519Sign(s.seed, x.ed25519Public(s.seed), msg).Ok?;
    case RsaKey(e, n) =>
      RsaModulus(k);
      RsaSigned(x, p, Some(Sha512), msg);
  }

  lemma RsaModulus(k: KeyData)
    requires ValidKey(k) && k.RsaKey?
    ensures ModulusOk(k.n)
  {
  }

  // ---------- The laws do not contradict each other ----------

  /** A scheme that accepts every Ed25519 and ECDSA signature, and whose RSA only pads, meets them. */
  function Lenient(): Scheme {
    Scheme(
      seed => seed, (seed, pk, m) => Ok(Zeros(64)), (pk, m, s) => Ok(()),
      (c, d) => [TAG_UNCOMPRESSED] + Zeros(2 * FieldSize(c)), (c, d, h) => Ok([1, 1, 1]), (pk, s, h) => Ok(true),
      SimpleCodec(), (k: RsaParts, m) => Pad(m, |k.n|), (n, e, s) => Unpad(s),
      None, m => Zeros(32), m => Zeros(48), m => Zeros(64))
  }

  function Pad(m: bytes, n: nat): Result<bytes> {
    if |m| < n then Ok(Zeros(n - 1 - |m|) + ([1] + m)) else Err(Error.Crypto)
  }

  function Unpad(s: bytes): Result<bytes> {
    if StripZeros(s) == [] then Err(Error.Crypto) else Ok(StripZeros(s)[1..])
  }

  lemma {:induction false} StripsPadding(n: nat, m: bytes)
    ensures StripZeros(Zeros(n) + ([1] + m)) == [1] + m
    decreases n
  {
    var s := Zeros(n) + ([1] + m);
    if n == 0 {
      assert s == [1] + m;
    } else {
      StripsPadding(n - 1, m);
      assert s[1..] == Zeros(n - 1) + ([1] + m);
    }
  }

  lemma PadUndone(m: bytes, n: nat)
    requires Pad(m, n).Ok?
    ensures |Pad(m, n).value| == n && Unpad(Pad(m, n).value) == Ok(m)
  {
    StripsPadding(n - 1 - |m|, m);
    assert ([1] + m)[1..] == m;
  }

  lemma LenientIsCorrect()
    ensures Lenient().Correct()
  {
    SimpleCodecAgrees();
    LenientHashes();
    LenientEcc();
    LenientRsa();
    hide SimpleCodec, Pad, Unpad, PartsMatch, Scheme.EccWorks, Scheme.RsaWorks, Scheme.Hashes, DerCodec.Agrees;
  }

  lemma LenientHashes()
    ensures Lenient().Hashes()
  {
    hide SimpleCodec, Pad, Unpad;
  }

  lemma LenientEcc()
    ensures Lenient().EccWorks()
  {
    OneAndOne();
    hide SimpleCodec, Pad, Unpad;
  }

  lemma LenientRsa()
    ensures Lenient().RsaWorks()
  {
    hide SimpleCodec, Pad, Unpad, PartsMatch;
    var x := Lenient();
    forall k: RsaParts, m | PartsMatch(k) && x.rsaSign(k, m).Ok?
      ensures |x.rsaSign(k, m).value| == |k.n| && x.rsaRecover(k.n, k.e, x.rsaSign(k, m).value) == Ok(m)
    {
      assert x.rsaSign(k, m) == Pad(m, |k.n|);
      PadUndone(m, |k.n|);
    }
  }

  lemma OneAndOne()
    ensures SimpleCodec().toRs([1, 1, 1]) == Some(([1], [1])) && FromBE([1]) == 1
  {
    assert [1, 1, 1][1..2] == [1] && [1, 1, 1][2..] == [1];
  }
}
