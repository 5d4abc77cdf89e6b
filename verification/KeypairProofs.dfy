/** What writing and reading key pairs preserve. */
module KeypairProofs {
  import opened Bytes
  import opened SshWire
  import opened Algorithms
  import opened KeyFields
  import opened Certificates
  import opened Kdfs
  import opened Keypairs
  import CertificateProofs

  // ---------- What follows, and lengths ----------

  lemma EncPairAppend(p: Keypair, tail: bytes)
    ensures EncPair(p, tail) == EncPair(p, []) + tail
  {
    hide Str, StrList, EncFields, AsStr, SecretFields, SecretKinds, HalfFields;
    match p
    case EncryptedPair(ct) =>
      NoTail(ct);
    case Pair(k, s) =>
      var name, half := Str(AsStr(KeyAlgorithm(k))), StrList(HalfFields(k));
      EncFieldsAppend(SecretKinds(k), SecretFields(k, s), tail);
      Glue3(name, half, EncFields(SecretKinds(k), SecretFields(k, s), []), tail);
  }

  lemma HalfLength(k: KeyData)
    requires ValidKey(k) && !k.CertificateKey?
    ensures |StrList(HalfFields(k))| == CertificateProofs.KeyBodyLen(k)
  {
    CertificateProofs.StrListLength(HalfFields(k));
    CertificateProofs.ListLen(HalfFields(k));
    CertificateProofs.PlainBodyLength(k);
  }

  lemma SecretLength(k: KeyData, s: Secret)
    requires ValidKey(k) && Fitting(k, s)
    ensures CertificateProofs.KeyBodyLen(k) + FieldsLen(SecretKinds(k), SecretFields(k, s)) == PairBodyLen(Pair(k, s))
  {
    hide ValidKey, CertificateProofs.KeyBodyLen;
    var kinds, f := SecretKinds(k), SecretFields(k, s);
    FewFieldsLen(kinds, f);
    if k.Ed25519Key? {
      Ed25519KeySize(k);
    }
  }

  lemma Ed25519KeySize(k: KeyData)
    requires ValidKey(k) && k.Ed25519Key?
    ensures |k.pk| == 32
  {
  }

  lemma FewFieldsLen(kinds: seq<Kind>, f: seq<bytes>)
    requires |kinds| == |f|
    ensures |f| == 1 ==> FieldsLen(kinds, f) == Size(kinds[0], f[0])
    ensures |f| == 3 ==> FieldsLen(kinds, f) == Size(kinds[0], f[0]) + Size(kinds[1], f[1]) + Size(kinds[2], f[2])
    ensures |f| == 4 ==>
              FieldsLen(kinds, f)
              == Size(kinds[0], f[0]) + Size(kinds[1], f[1]) + Size(kinds[2], f[2]) + Size(kinds[3], f[3])
  {
    if |f| > 2 {
      assert f[1..][1..] == f[2..] && kinds[1..][1..] == kinds[2..];
      assert f[2..][1..] == f[3..] && kinds[2..][1..] == kinds[3..];
    }
  }

  function Size(kind: Kind, s: bytes): nat {
    if kind.Octet? then |s| else 4 + |s|
  }

  /** A pair takes as many bytes as announced. */
  lemma PairLength(p: Keypair)
    requires ValidPair(p)
    ensures |EncPair(p, [])| == PairLen(p)
  {
    hide ValidKey, StrList, EncFields, FieldsLen, PairBodyLen, CertificateProofs.KeyBodyLen, SecretFields, SecretKinds,
      HalfFields, Str, Fitting;
    match p
    case EncryptedPair(ct) =>
      EncryptedLength(ct);
    case Pair(k, s) =>
      FittingIsPlain(k, s);
      HalfLength(k);
      SecretLength(k, s);
      EncFieldsAppend(SecretKinds(k), SecretFields(k, s), []);
      StrLength(AsStr(KeyAlgorithm(k)));
  }

  lemma EncryptedLength(ct: bytes)
    ensures |ct + []| == PairBodyLen(EncryptedPair(ct))
  {
  }

  lemma FittingIsPlain(k: KeyData, s: Secret)
    requires Fitting(k, s)
    ensures !k.CertificateKey?
  {
  }

  /** The bytes of the default checkint are on the wire: the first secret field, or the key handle, without the
      public key that follows a seed and the zero that may precede a scalar. */
  lemma PrivateBytesAreWritten(k: KeyData, s: Secret)
    requires Fitting(k, s)
    ensures var b := PrivateBytes(Pair(k, s));
            var f := SecretFields(k, s);
            match k
            case EcdsaKey(c, _) => |b| == FieldSize(c) && f[0] in {b, [0] + b}
            case Ed25519Key(pk) => |b| == 32 && f[0] == b + pk
            case SkEcdsaKey(_, _) => f[1] == b
            case SkEd25519Key(_, _) => f[1] == b
            case _ => f[0] == b
  {
  }

  // ---------- Reading back what was written ----------

  lemma HalfReads(k: KeyData)
    requires ValidKey(k) && EncodableKey(k) && ProperKey(k)
    ensures AllAccepted(KeyKinds(KeyAlgorithm(k)), HalfFields(k))
    ensures HalfOf(KeyAlgorithm(k), HalfFields(k)) == Ok(k)
  {
    hide Accepts, ValidKey, EncodableKey, EcdsaOf, RsaOf;
    CertificateProofs.ProperKeyFields(k);
    if k.RsaKey? {
      var f := PlainFields(k);
      assert forall i :: 0 <= i < 2 ==> Accepts(Integer, f[i]);
    }
  }

  lemma IntegerAccepted(m: bytes)
    requires Positive(m) && Fits(m)
    ensures Accepts(Integer, m)
  {
    hide AsPositive, MpintOk;
  }

  lemma ScalarReads(x: Crypto, k: KeyData, d: bytes)
    requires k.EcdsaKey? && |d| == FieldSize(k.curve)
    ensures Accepts(ScalarOf(k.curve), ScalarField(d)) && SecretOf(x, k, [ScalarField(d)]) == Ok(Scalar(d))
  {
    ScalarValueOf(d);
  }

  lemma SeedReads(x: Crypto, pk: bytes, seed: bytes)
    requires |pk| == 32 && |seed| == 32 && x.publicOf(seed) == pk
    ensures Accepts(Exactly(64), seed + pk) && SecretOf(x, Ed25519Key(pk), [seed + pk]) == Ok(Seed(seed))
  {
    var both := seed + pk;
    assert both[..32] == seed && both[32..] == pk;
  }

  lemma SecretReads(x: Crypto, pair: Keypair)
    requires ValidPair(pair) && EncodablePair(pair) && CanonicalPair(x, pair)
    ensures var k, s := pair.public, pair.secret;
            AllAccepted(SecretKinds(k), SecretFields(k, s)) && SecretOf(x, k, SecretFields(k, s)) == Ok(s)
  {
    var k, s := pair.public, pair.secret;
    hide Positive, MpintOk, ValidKey, EncodableKey, CanonicalAlgorithm, ScalarField, ScalarValue;
    var f := SecretFields(k, s);
    assert forall i :: 0 <= i < |f| ==> Fits(f[i]);
    match s
    case Exponent(e) =>
      assert Fits(f[0]);
      IntegerAccepted(e);
    case Scalar(d) =>
      ScalarReads(x, k, d);
    case Seed(seed) =>
      Ed25519KeySize(k);
      SeedReads(x, k.pk, seed);
    case Factors(d, iqmp, p, q) =>
      hide Accepts;
      FactorsAccepted(f);
    case Handle(flags, handle, reserved) =>
      assert Fits(f[1]) && Fits(f[2]);
    case OpaqueSecret(key) =>
  }

  lemma FactorsAccepted(f: seq<bytes>)
    requires |f| == 4 && forall i :: 0 <= i < 4 ==> Positive(f[i]) && Fits(f[i])
    ensures AllAccepted([Integer, Integer, Integer, Integer], f)
  {
    hide Accepts, Positive;
    forall i | 0 <= i < 4
      ensures Accepts(Integer, f[i])
    {
      IntegerAccepted(f[i]);
    }
  }

  /** A canonical pair reads back, whatever follows. */
  lemma GetPairOf(x: Crypto, p: Keypair, tail: bytes)
    requires ValidPair(p) && EncodablePair(p) && CanonicalPair(x, p)
    ensures GetPair(x, EncPair(p, tail)) == Ok((p, tail))
  {
    hide HalfOf, SecretOf, EncFields, GetFields, StrList, HalfFields, KeyKinds, SecretKinds, SecretFields, ValidKey,
      EncodableKey, ProperKey, CanonicalAlgorithm, GetAlgorithm, AllAccepted, Fitting;
    var k, s := p.public, p.secret;
    var alg := KeyAlgorithm(k);
    FittingIsPlain(k, s);
    HalfReads(k);
    SecretReads(x, p);
    var t := EncFields(SecretKinds(k), SecretFields(k, s), tail);
    AcceptedSize(KeyKinds(alg), HalfFields(k));
    FieldsAreList(KeyKinds(alg), HalfFields(k), t);
    GetFieldsOf(KeyKinds(alg), HalfFields(k), t);
    GetFieldsOf(SecretKinds(k), SecretFields(k, s), tail);
    GetAlgorithmOf(alg, EncPairBody(p, tail));
  }

  lemma AcceptedSize(kinds: seq<Kind>, f: seq<bytes>)
    requires AllAccepted(kinds, f)
    ensures |kinds| == |f|
  {
  }

  // ---------- Writing back what was read ----------

  lemma HalfInverse(alg: Algorithm, fields: seq<bytes>)
    requires AllAccepted(KeyKinds(alg), fields) && HalfOf(alg, fields).Ok?
    requires alg.Other? ==> ValidId(alg.name, MAX_ALGORITHM_NAME_LEN)
    ensures var k := HalfOf(alg, fields).value;
            && !k.CertificateKey? && ValidKey(k) && ProperKey(k) && EncodableKey(k) && HalfFields(k) == fields
            && (if alg.Ecdsa? then k.EcdsaKey? else KeyAlgorithm(k) == Reported(alg))
  {
    hide Accepts;
    var kinds := KeyKinds(alg);
    match alg
    case Ecdsa(c) =>
      hide EcdsaOf, ValidKey, EncodableKey;
      CertificateProofs.EcdsaOfFields(fields);
      var k := EcdsaOf(fields).value;
      EcdsaHalf(k, fields);
    case Rsa(_) =>
      hide Positive, ModulusOk;
      assert Accepts(kinds[0], fields[0]) && Accepts(kinds[1], fields[1]);
      AcceptedFits(kinds[0], fields[0]);
      AcceptedFits(kinds[1], fields[1]);
    case _ =>
      hide KeyOf, ValidKey, EncodableKey, PlainFields, KeyKinds;
      CertificateProofs.KeyOfFields(alg, fields);
      KeyOfReports(alg, fields);
  }

  lemma AcceptedFits(kind: Kind, s: bytes)
    requires Accepts(kind, s)
    ensures Fits(s)
  {
    hide Fault;
  }

  lemma EcdsaHalf(k: KeyData, fields: seq<bytes>)
    requires AllAccepted([CurveName, CurvePoint], fields) && k.EcdsaKey? && PlainFields(k) == fields
    ensures EncodableKey(k)
  {
    hide Accepts, CurveLabel;
    var kinds := [CurveName, CurvePoint];
    assert Accepts(kinds[0], fields[0]) && Accepts(kinds[1], fields[1]);
    AcceptedFits(kinds[0], fields[0]);
    AcceptedFits(kinds[1], fields[1]);
  }

  lemma KeyOfReports(alg: Algorithm, fields: seq<bytes>)
    requires |fields| == |KeyKinds(alg)| && KeyOf(alg, fields).Ok? && !alg.Ecdsa? && !alg.Rsa?
    ensures KeyAlgorithm(KeyOf(alg, fields).value) == Reported(alg) && !KeyOf(alg, fields).value.RsaKey?
  {
    hide Positive;
  }

  /** What is written of a secret that was read: the fields it was read from, but for an ECDSA scalar that
      was not written in full. */
  lemma SecretInverse(x: Crypto, k: KeyData, more: seq<bytes>)
    requires !k.CertificateKey? && AllAccepted(SecretKinds(k), more) && SecretOf(x, k, more).Ok?
    ensures var s := SecretOf(x, k, more).value;
            && Fitting(k, s) && ValidSecret(s) && (forall f <- SecretFields(k, s) :: Fits(f))
            && (k.Ed25519Key? ==> x.publicOf(s.seed) == k.pk)
            && (SecretFields(k, s) == more <==> (k.EcdsaKey? ==> ScalarVerbatim(more[0], FieldSize(k.curve))))
  {
    hide Accepts, Positive;
    var kinds := SecretKinds(k);
    forall i | 0 <= i < |more|
      ensures Fits(more[i])
    {
      assert Accepts(kinds[i], more[i]);
      AcceptedFits(kinds[i], more[i]);
    }
    match k
    case EcdsaKey(c, _) =>
      hide ScalarField, ScalarValue;
      ScalarInverse(x, k, more);
    case Ed25519Key(pk) =>
      assert more[0] == more[0][..32] + more[0][32..];
    case SkEcdsaKey(_, _) =>
      assert more[0] == [more[0][0]];
    case SkEd25519Key(_, _) =>
      assert more[0] == [more[0][0]];
    case _ =>
  }

  lemma ScalarInverse(x: Crypto, k: KeyData, more: seq<bytes>)
    requires k.EcdsaKey? && |more| == 1 && SecretOf(x, k, more).Ok?
    ensures var s := SecretOf(x, k, more).value;
            && Fitting(k, s) && Fits(ScalarField(s.d))
            && (SecretFields(k, s) == more <==> ScalarVerbatim(more[0], FieldSize(k.curve)))
  {
    ScalarFieldIff(more[0], FieldSize(k.curve));
    var s := SecretOf(x, k, more).value;
    assert SecretFields(k, s) == more <==> SecretFields(k, s)[0] == more[0];
  }

  /** The pieces of the input a pair was read from. */
  lemma PairPieces(x: Crypto, alg: Algorithm, b: bytes)
    returns (fields: seq<bytes>, b1: bytes, more: seq<bytes>)
    requires GetPairAs(x, alg, b).Ok?
    ensures GetFields(KeyKinds(alg), b) == Ok((fields, b1)) && HalfOf(alg, fields).Ok?
    ensures var (p, rest) := GetPairAs(x, alg, b).value;
            && p.Pair? && HalfOf(alg, fields) == Ok(p.public) && (alg.Ecdsa? ==> KeyAlgorithm(p.public) == alg)
            && GetFields(SecretKinds(p.public), b1) == Ok((more, rest)) && SecretOf(x, p.public, more) == Ok(p.secret)
  {
    hide GetFields, HalfOf, SecretOf, KeyKinds, SecretKinds, KeyAlgorithm;
    fields, b1 := GetFields(KeyKinds(alg), b).value.0, GetFields(KeyKinds(alg), b).value.1;
    more := GetFields(SecretKinds(HalfOf(alg, fields).value), b1).value.0;
  }

  /** A pair body that was read. */
  ghost predicate BodyReadsWell(x: Crypto, alg: Algorithm, b: bytes, p: Keypair, rest: bytes) {
    && p.Pair? && ValidPair(p) && EncodablePair(p) && ProperKey(p.public) && KeyAlgorithm(p.public) == Reported(alg)
    && (p.public.Ed25519Key? ==> x.publicOf(p.secret.seed) == p.public.pk)
    && (EncPairBody(p, rest) == b <==> (alg.Ecdsa? ==> VerbatimScalar(alg.curve, b)))
  }

  predicate VerbatimScalar(c: EcdsaCurve, b: bytes) {
    var r := GetFields([CurveName, CurvePoint, ScalarOf(c)], b);
    r.Ok? && ScalarVerbatim(r.value.0[2], FieldSize(c))
  }

  lemma PairBodyRead(x: Crypto, alg: Algorithm, b: bytes)
    requires GetPairAs(x, alg, b).Ok? && (alg.Other? ==> ValidId(alg.name, MAX_ALGORITHM_NAME_LEN))
    ensures BodyReadsWell(x, alg, b, GetPairAs(x, alg, b).value.0, GetPairAs(x, alg, b).value.1)
  {
    hide GetPairAs, GetFields, HalfOf, SecretOf, KeyKinds, SecretKinds, HalfFields, SecretFields, ValidKey,
      EncodableKey, ProperKey, Fitting, ValidSecret, AllAccepted, EncFields, StrList, VerbatimScalar, ScalarVerbatim;
    var (p, rest) := GetPairAs(x, alg, b).value;
    var fields, b1, more := PairPieces(x, alg, b);
    GetFieldsInverse(KeyKinds(alg), b);
    HalfInverse(alg, fields);
    AcceptedSize(KeyKinds(alg), fields);
    FieldsAreList(KeyKinds(alg), fields, b1);
    GetFieldsInverse(SecretKinds(p.public), b1);
    AcceptedSize(SecretKinds(p.public), more);
    SecretInverse(x, p.public, more);
    if alg.Ecdsa? {
      EcdsaSecretRewritten(StrList(fields), p.public, p.secret, more, rest);
      VerbatimScalarIs(alg, b, fields, b1, more, rest, p.public);
    }
  }

  lemma EcdsaSecretRewritten(a: bytes, k: KeyData, s: Secret, more: seq<bytes>, rest: bytes)
    requires k.EcdsaKey? && Fitting(k, s) && (forall f <- SecretFields(k, s) :: Fits(f))
    requires AllAccepted(SecretKinds(k), more)
    ensures a + EncFields(SecretKinds(k), SecretFields(k, s), rest) == a + EncFields(SecretKinds(k), more, rest)
            <==> SecretFields(k, s) == more
  {
    hide EncFields, ScalarField, Accepts;
    if SecretFields(k, s) != more {
      var kinds := SecretKinds(k);
      assert Accepts(kinds[0], more[0]);
      AcceptedFits(kinds[0], more[0]);
      SameFieldsIff(a, SecretKinds(k), SecretFields(k, s), more, rest);
    }
  }

  lemma VerbatimScalarIs(alg: Algorithm, b: bytes, fields: seq<bytes>, b1: bytes, more: seq<bytes>, rest: bytes,
                         k: KeyData)
    requires alg.Ecdsa? && GetFields(KeyKinds(alg), b) == Ok((fields, b1))
    requires k.EcdsaKey? && k.curve == alg.curve && GetFields(SecretKinds(k), b1) == Ok((more, rest))
    ensures VerbatimScalar(alg.curve, b) <==> ScalarVerbatim(more[0], FieldSize(alg.curve))
  {
    hide GetFields, ScalarVerbatim;
    BothFields(KeyKinds(alg), SecretKinds(k), b);
    assert KeyKinds(alg) + SecretKinds(k) == [CurveName, CurvePoint, ScalarOf(alg.curve)];
  }

  /** Fields of the same kinds are written alike only when they are the same. */
  lemma SameFieldsIff(a: bytes, kinds: seq<Kind>, f: seq<bytes>, g: seq<bytes>, rest: bytes)
    requires |kinds| == |f| == |g| && f != g && |kinds| == 1 && !kinds[0].Octet? && Fits(f[0]) && Fits(g[0])
    ensures a + EncFields(kinds, f, rest) != a + EncFields(kinds, g, rest)
  {
    hide Str;
    if a + EncFields(kinds, f, rest) == a + EncFields(kinds, g, rest) {
      SamePrefix(a, EncFields(kinds, f, rest), EncFields(kinds, g, rest));
      assert EncFields(kinds[1..], f[1..], rest) == rest && EncFields(kinds[1..], g[1..], rest) == rest;
      StrInjective(f[0], rest, g[0], rest);
    }
  }

  lemma SamePrefix(a: bytes, b: bytes, c: bytes)
    requires a + b == a + c
    ensures b == c
  {
    assert b == (a + b)[|a|..] && c == (a + c)[|a|..];
  }

  /** What reads as a key pair is valid and canonical, and writing it again gives what it was read from
      exactly when that was verbatim. */
  lemma PairRead(x: Crypto, b: bytes)
    requires GetPair(x, b).Ok?
    ensures var (p, rest) := GetPair(x, b).value;
            && p.Pair? && ValidPair(p) && EncodablePair(p) && CanonicalPair(x, p)
            && (EncPair(p, rest) == b <==> VerbatimPair(b))
  {
    hide GetAlgorithm, GetPairAs, ValidKey, ValidSecret, Fitting, EncodablePair, ProperKey, CanonicalAlgorithm,
      EncPairBody, KeyAlgorithm, AsStr, Str, GetFields, ScalarVerbatim;
    GetAlgorithmInverse(b);
    var (alg, body) := GetAlgorithm(b).value;
    CustomNameValid(alg);
    PairBodyRead(x, alg, body);
    var (p, rest) := GetPairAs(x, alg, body).value;
    ReportedCanonical(alg);
    if Reported(alg) == alg {
      SamePrefixIff(Str(AsStr(alg)), EncPairBody(p, rest), body);
    } else {
      RsaRewritten(alg, EncPairBody(p, rest), body);
    }
  }

  lemma CustomNameValid(alg: Algorithm)
    requires CanonicalAlgorithm(alg)
    ensures alg.Other? ==> ValidId(alg.name, MAX_ALGORITHM_NAME_LEN)
  {
    hide KnownName;
  }

  lemma ReportedCanonical(alg: Algorithm)
    requires CanonicalAlgorithm(alg)
    ensures CanonicalAlgorithm(Reported(alg))
    ensures Reported(alg) == alg <==> !(alg.Rsa? && alg.hash.Some?)
  {
  }

  lemma SamePrefixIff(a: bytes, b: bytes, c: bytes)
    ensures a + b == a + c <==> b == c
  {
    if a + b == a + c {
      SamePrefix(a, b, c);
    }
  }

  lemma RsaRewritten(alg: Algorithm, b: bytes, c: bytes)
    requires Reported(alg) != alg
    ensures Str(AsStr(Rsa(None))) + b != Str(AsStr(alg)) + c
  {
    hide Str;
    NameLengths();
    if Str(AsStr(Rsa(None))) + b == Str(AsStr(alg)) + c {
      StrInjective(AsStr(Rsa(None)), b, AsStr(alg), c);
    }
  }
}
