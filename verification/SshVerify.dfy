/** Signing and verifying messages in a namespace, and validating certificates under their authority's
    key. */
module SshVerify {
  import opened Bytes
  import opened SshWire
  import opened Algorithms
  import opened Certificates
  import opened Keypairs
  import opened KeySigning
  import opened SshSigs
  import CertificateProofs
  import CertificateResults
  import Signatures

  // ---------- Signing a message in a namespace ----------

  /** Anything that can sign, with the public key it stands for. */
  datatype SigningKey = SigningKey(publicKey: KeyData, trySign: bytes -> Result<Signatures.Signature>)

  /** A key pair as a signing key. */
  function PairSigner(x: Scheme, p: Keypair): SigningKey
    requires p.Pair?
  {
    SigningKey(p.public, msg => TrySign(x, p, msg))
  }

  function New(k: KeyData, namespace: bytes, h: HashAlg, s: Signatures.Signature): Result<SshSig> {
    if namespace == [] then Err(Namespace) else Ok(SshSig(VERSION, k, namespace, [], h, s))
  }

  function SignedDataForPrehash(namespace: bytes, h: HashAlg, prehash: bytes): Result<bytes> {
    if |prehash| != DigestSize(h) then Err(HashSize)
    else if namespace == [] then Err(Namespace)
    else if !Fits(namespace) then Err(Length)
    else Ok(SignedData(namespace, [], h, prehash))
  }

  /** The data to sign is made exactly for a namespace that is not empty and a digest of the hash's own size. */
  lemma SignedDataForPrehashIff(namespace: bytes, h: HashAlg, prehash: bytes)
    ensures SignedDataForPrehash(namespace, h, prehash).Ok? <==>
            1 <= |namespace| < TWO_32 && |prehash| == (match h case Sha256 => 32 case Sha512 => 64)
    ensures SignedDataForPrehash(namespace, h, prehash).Ok? ==>
              SignedDataForPrehash(namespace, h, prehash).value == SignedData(namespace, [], h, prehash)
  {
  }

  /** Security keys are refused. */
  function SignPrehash(k: SigningKey, namespace: bytes, h: HashAlg, prehash: bytes): Result<SshSig> {
    if namespace == [] then Err(Namespace)
    else if k.publicKey.SkEd25519Key? || k.publicKey.SkEcdsaKey? then Err(AlgorithmUnsupported)
    else
      var data :- SignedDataForPrehash(namespace, h, prehash);
      var signature :- k.trySign(data);
      New(k.publicKey, namespace, h, signature)
  }

  function Sign(x: Scheme, k: SigningKey, namespace: bytes, h: HashAlg, msg: bytes): Result<SshSig> {
    SignPrehash(k, namespace, h, x.Digest(h, msg))
  }

  // ---------- Verifying ----------

  function VerifySigPrehash(x: Scheme, s: SshSig, prehash: bytes): Result<()> {
    if |prehash| != DigestSize(s.hashAlg) then Err(HashSize)
    else if !Fits(s.namespace) || !Fits(s.reserved) then Err(Length)
    else VerifyKey(x, s.publicKey, SignedData(s.namespace, s.reserved, s.hashAlg, prehash), s.signature)
  }

  function VerifyPrehash(x: Scheme, k: KeyData, namespace: bytes, prehash: bytes, s: SshSig): Result<()> {
    if k != s.publicKey then Err(Error.PublicKey)
    else if namespace != s.namespace then Err(Namespace)
    else VerifySigPrehash(x, s, prehash)
  }

  function Verify(x: Scheme, k: KeyData, namespace: bytes, msg: bytes, s: SshSig): Result<()> {
    VerifyPrehash(x, k, namespace, x.Digest(s.hashAlg, msg), s)
  }

  /** A message signature verifies exactly when key and namespace are the ones it holds, the lengths fit, and the
      library accepts the signature over the preamble, namespace, reserved data, hash name and digest. */
  lemma VerifyIff(x: Scheme, k: KeyData, namespace: bytes, msg: bytes, s: SshSig)
    requires x.Hashes()
    ensures Verify(x, k, namespace, msg, s).Ok? <==>
            && s.publicKey == k && s.namespace == namespace && Fits(namespace) && Fits(s.reserved)
            && var digest := if s.hashAlg.Sha256? then x.sha256(msg) else x.sha512(msg);
               Accepts(x, k, SignedData(namespace, s.reserved, s.hashAlg, digest), s.signature)
  {
    hide VerifyKey, Accepts, SignedData;
    var digest := x.Digest(s.hashAlg, msg);
    VerifyKeyIff(x, k, SignedData(namespace, s.reserved, s.hashAlg, digest), s.signature);
  }

  // ---------- What was signed verifies ----------

  /** What a successful signing call made, and over which bytes. */
  lemma SignMakes(x: Scheme, p: Keypair, namespace: bytes, h: HashAlg, msg: bytes)
    requires p.Pair? && Sign(x, PairSigner(x, p), namespace, h, msg).Ok?
    ensures var s := Sign(x, PairSigner(x, p), namespace, h, msg).value;
            var digest := x.Digest(h, msg);
            && TrySign(x, p, SignedData(namespace, [], h, digest)) == Ok(s.signature)
            && s == SshSig(VERSION, p.public, namespace, [], h, s.signature)
            && Fits(namespace) && namespace != [] && |digest| == DigestSize(h)
            && (p.public.EcdsaKey? || p.public.Ed25519Key? || p.public.RsaKey?)
  {
    hide EcdsaSign, RsaSign, SignedData, Scheme.Digest;
  }

  /** A message signed with a matching ECDSA, Ed25519 or RSA pair verifies for the same key, namespace and
      message; and it does so after being written and read back, as it can be exactly when its key can. */
  lemma SignedComesBackAndVerifies(x: Scheme, p: Keypair, namespace: bytes, h: HashAlg, msg: bytes)
    requires x.Correct() && p.Pair? && ValidPair(p) && Matches(x, p) && IsUtf8(namespace)
    requires Sign(x, PairSigner(x, p), namespace, h, msg).Ok?
    ensures var s := Sign(x, PairSigner(x, p), namespace, h, msg).value;
            && Verify(x, p.public, namespace, msg, s).Ok?
            && (Encodable(s) <==> EncodableKey(p.public) && Fits(EncKey(p.public, [])))
            && (Encodable(s) ==> Decode(Enc(s, [])) == Ok((s, [])))
  {
    hide TrySign, Matches, ValidPair, VerifyKey, Scheme.Correct, Scheme.Digest, SignedData, Decode, Enc, Encodable,
      Canonical, SshSigs.Valid, EncodableKey, EncKey, IsUtf8, Signatures.Valid, CanonicalAlgorithm, Sign, PairSigner;
    var s := Sign(x, PairSigner(x, p), namespace, h, msg).value;
    var data := SignedData(namespace, [], h, x.Digest(h, msg));
    SignMakes(x, p, namespace, h, msg);
    SignedIsAccepted(x, p, data);
    MatchingIsCanonical(x, p);
    SignedFits(s);
    if Encodable(s) {
      RoundTrip(s, []);
    }
  }

  /** Such signatures are made: the lenient scheme signs every message with every Ed25519 and ECDSA pair. */
  lemma LenientSignsAll(p: Keypair, namespace: bytes, h: HashAlg, msg: bytes)
    requires p.Pair? && (p.public.Ed25519Key? || p.public.EcdsaKey?) && namespace != [] && Fits(namespace)
    ensures Lenient().Correct() && Sign(Lenient(), PairSigner(Lenient(), p), namespace, h, msg).Ok?
  {
    hide SignedData, Scheme.Correct, Signatures.SimpleCodec, Pad, Unpad;
    LenientIsCorrect();
    OneAndOne();
    LenientDigest(h, msg);
  }

  lemma LenientDigest(h: HashAlg, msg: bytes)
    ensures |Lenient().Digest(h, msg)| == DigestSize(h)
  {
    hide Signatures.SimpleCodec, Pad, Unpad;
  }

  lemma MatchingIsCanonical(x: Scheme, p: Keypair)
    requires x.Correct() && p.Pair? && ValidPair(p) && Matches(x, p)
    requires p.public.EcdsaKey? || p.public.Ed25519Key? || p.public.RsaKey?
    ensures ValidKey(p.public) && CanonicalKey(p.public) && BareKey(p.public) == p.public
  {
    hide RsaMatches, PartsOf, ValidKey;
  }

  lemma SignedFits(s: SshSig)
    requires ValidKey(s.publicKey) && CanonicalKey(s.publicKey) && BareKey(s.publicKey) == s.publicKey
    requires Signatures.Valid(s.signature) && CanonicalAlgorithm(s.signature.alg) && 8 * |s.signature.data| < TWO_32
    requires s.version == VERSION && s.reserved == []
    requires s.namespace != [] && Fits(s.namespace) && IsUtf8(s.namespace)
    ensures SshSigs.Valid(s) && Canonical(s) && Bare(s) == s
    ensures Encodable(s) <==> EncodableKey(s.publicKey) && Fits(EncKey(s.publicKey, []))
  {
    hide ValidKey, CanonicalKey, BareKey, EncodableKey, EncKey, Signatures.Valid, CanonicalAlgorithm, Signatures.Encode,
      AsStr, IsUtf8;
    Signatures.EncodeSucceeds(s.signature);
    FromStrOfAsStr(s.signature.alg);
  }

  // ---------- What an accepted signature vouches for ----------

  /** A request to sign a digest in a namespace. */
  datatype Request = Request(namespace: bytes, h: HashAlg, digest: bytes)
  {
    function Data(): bytes {
      SignedData(namespace, [], h, digest)
    }

    predicate Sized() {
      Fits(namespace) && |digest| == DigestSize(h)
    }
  }

  /** When a signature is accepted, the key accepted it over one string. That string was among those the key
      was asked to sign exactly when it was asked for this namespace, hash algorithm and digest and the
      signature carries no reserved data: signatures cannot be moved between requests. */
  lemma AcceptedWasRequestedIff(
    x: Scheme, k: KeyData, requests: set<Request>, namespace: bytes, msg: bytes, s: SshSig)
    requires Verify(x, k, namespace, msg, s).Ok? && (forall r :: r in requests ==> r.Sized())
    ensures var data := SignedData(namespace, s.reserved, s.hashAlg, x.Digest(s.hashAlg, msg));
            && VerifyKey(x, k, data, s.signature).Ok?
            && ((exists r :: r in requests && r.Data() == data) <==>
                s.reserved == [] && Request(namespace, s.hashAlg, x.Digest(s.hashAlg, msg)) in requests)
  {
    hide VerifyKey, SignedData, Scheme.Digest;
    var digest := x.Digest(s.hashAlg, msg);
    var data := SignedData(namespace, s.reserved, s.hashAlg, digest);
    if r :| r in requests && r.Data() == data {
      assert r.Sized();
      SignedDataInjective(namespace, s.reserved, s.hashAlg, digest, r.namespace, [], r.h, r.digest);
    }
    if s.reserved == [] && Request(namespace, s.hashAlg, digest) in requests {
      assert Request(namespace, s.hashAlg, digest).Data() == data;
    }
  }

  // ---------- Certificates ----------

  datatype Fingerprint = Fingerprint(h: HashAlg, digest: bytes)

  function FingerprintOf(x: Scheme, h: HashAlg, k: KeyData): Fingerprint {
    Fingerprint(h, x.Digest(h, EncKey(k, [])))
  }

  /** Fails where the code panics, on a certified key without a certificate name. */
  ghost function VerifySignature(x: Scheme, c: Certificate): Result<()> {
    if !CertificateResults.EncodableTbs(c) then Err(Length)
    else if VerifyKey(x, c.signatureKey, EncTbs(c, []), c.signature).Ok? then Ok(())
    else Err(CertificateValidation)
  }

  ghost function ValidateAt(x: Scheme, c: Certificate, now: nat, trusted: seq<Fingerprint>): Result<()> {
    var _ :- VerifySignature(x, c);
    if FingerprintOf(x, Sha256, c.signatureKey) !in trusted then Err(CertificateValidation)
    else if c.fields.validAfter <= now < c.fields.validBefore then Ok(())
    else Err(CertificateValidation)
  }

  /** A certificate validates exactly when its signed part can be written, the library accepts its signature over
      that part under the signing key, the SHA-256 fingerprint of that key is trusted, and the time is in the
      validity period, its end excluded. */
  lemma ValidateIff(x: Scheme, c: Certificate, now: nat, trusted: seq<Fingerprint>)
    ensures ValidateAt(x, c, now, trusted).Ok? <==>
            && CertificateResults.EncodableTbs(c)
            && Accepts(x, c.signatureKey, EncTbs(c, []), c.signature)
            && (exists i :: 0 <= i < |trusted| && trusted[i].h.Sha256?
                            && trusted[i].digest == x.sha256(EncKey(c.signatureKey, [])))
            && c.fields.validAfter <= now < c.fields.validBefore
  {
    hide VerifyKey, Accepts, EncTbs, EncKey, CertificateResults.EncodableTbs;
    VerifyKeyIff(x, c.signatureKey, EncTbs(c, []), c.signature);
  }

  /** The signed part of an issued certificate: well-formed, and canonical. */
  ghost predicate Issuable(c: Certificate) {
    && ValidFields(c.fields) && ValidKey(c.signatureKey) && CertificateResults.EncodableTbs(c) && CanonicalTbs(c)
  }

  /** The same signed fields, and the same signing key but for comments. */
  predicate SameSigned(c: Certificate, c': Certificate) {
    c.fields == c'.fields && BareKey(c.signatureKey) == BareKey(c'.signatureKey)
  }

  /** When a certificate validates, a trusted key accepted its signature over its signed part, in its validity
      period; and an issued certificate has those very bytes signed, while the validated one is canonical,
      exactly when it is the same certificate up to signature and comments. */
  lemma ValidatedWasIssuedIff(x: Scheme, c: Certificate, issued: Certificate, now: nat, trusted: seq<Fingerprint>)
    requires ValidateAt(x, c, now, trusted).Ok?
    requires ValidFields(c.fields) && ValidKey(c.signatureKey) && Issuable(issued)
    ensures VerifyKey(x, c.signatureKey, EncTbs(c, []), c.signature).Ok?
    ensures FingerprintOf(x, Sha256, c.signatureKey) in trusted
    ensures c.fields.validAfter <= now < c.fields.validBefore
    ensures SameSigned(issued, c) <==> EncTbs(issued, []) == EncTbs(c, []) && CanonicalTbs(c)
  {
    hide VerifyKey, FingerprintOf, EncTbs, CanonicalTbs, ValidFields, ValidKey, CertificateResults.EncodableTbs,
      BareKey;
    if EncTbs(issued, []) == EncTbs(c, []) {
      CertificateResults.TbsSameIff(issued, c);
    }
    if SameSigned(issued, c) {
      CertificateResults.SameSignedPart(issued, c);
      SameSignedBytes(issued, c);
    }
  }

  /** For a certificate that was read no side condition is left: if it validates and its signed part is the
      bytes of an issued certificate, it is that certificate up to signature and comments. */
  lemma ReceivedWasIssuedIff(x: Scheme, b: bytes, issued: Certificate, now: nat, trusted: seq<Fingerprint>)
    requires GetCert(b).Ok? && ValidateAt(x, GetCert(b).value.0, now, trusted).Ok? && Issuable(issued)
    ensures var c := GetCert(b).value.0;
            && Issuable(c) && (SameSigned(issued, c) <==> EncTbs(issued, []) == EncTbs(c, []))
  {
    hide *;
    var c := GetCert(b).value.0;
    CertificateResults.DecodedIff(b);
    ValidatedIsEncodable(x, c, now, trusted);
    CertificateResults.EncodableIsNamed(c.signatureKey);
    CanonicalParts(c);
    IssuableIff(c);
    ValidatedWasIssuedIff(x, c, issued, now, trusted);
  }

  lemma ValidatedIsEncodable(x: Scheme, c: Certificate, now: nat, trusted: seq<Fingerprint>)
    requires ValidateAt(x, c, now, trusted).Ok?
    ensures CertificateResults.EncodableTbs(c) && EncodableKey(c.signatureKey)
  {
    hide VerifyKey, FingerprintOf, EncTbs, EncodableKey, EncodableFields, EncKey, ToCertificateType;
  }

  lemma CanonicalParts(c: Certificate)
    requires ValidCert(c) && CanonicalCert(c)
    ensures ValidFields(c.fields) && ValidKey(c.signatureKey) && CanonicalTbs(c)
  {
    hide ValidFields, ValidKey, CanonicalTbs, Signatures.Valid;
  }

  lemma IssuableIff(c: Certificate)
    ensures Issuable(c) <==>
            ValidFields(c.fields) && ValidKey(c.signatureKey) && CertificateResults.EncodableTbs(c) && CanonicalTbs(c)
  {
    hide ValidFields, ValidKey, CertificateResults.EncodableTbs, CanonicalTbs;
  }

  lemma SameSignedBytes(c: Certificate, c': Certificate)
    requires SameSigned(c, c')
    ensures EncTbs(c, []) == EncTbs(c', [])
  {
    hide EncIdentity, EncConstraints, BareKey, EncKey;
    CertificateProofs.BareKeyBytes(c.signatureKey, []);
    CertificateProofs.BareKeyBytes(c'.signatureKey, []);
  }

  /** A key that accepts one signature both for a message and on a certificate accepts it over two different
      strings: a message signature never doubles as a certificate's. */
  lemma MessagesAreNoCertificates(
    x: Scheme, c: Certificate, now: nat, trusted: seq<Fingerprint>, namespace: bytes, msg: bytes, s: SshSig)
    requires ValidKey(c.fields.publicKey)
    requires ValidateAt(x, c, now, trusted).Ok? && Verify(x, c.signatureKey, namespace, msg, s).Ok?
    requires s.signature == c.signature
    ensures var data := SignedData(namespace, s.reserved, s.hashAlg, x.Digest(s.hashAlg, msg));
            && data != EncTbs(c, [])
            && VerifyKey(x, c.signatureKey, data, c.signature).Ok?
            && VerifyKey(x, c.signatureKey, EncTbs(c, []), c.signature).Ok?
  {
    hide VerifyKey, SignedData, Scheme.Digest, EncTbs, FingerprintOf, ToCertificateType;
    SignedDataIsNoCertificate(namespace, s.reserved, s.hashAlg, x.Digest(s.hashAlg, msg), c);
  }
}
