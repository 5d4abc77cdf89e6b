/** Key pairs: a public key, and the secret that goes with it or its ciphertext. */
module Keypairs {
  import opened Bytes
  import opened SshWire
  import opened Algorithms
  import opened KeyFields
  import opened Certificates
  import opened Kdfs
  import CertificateProofs

  /** The private half: of DSA, ECDSA, Ed25519, RSA, a security key, or a custom algorithm. */
  datatype Secret =
    | Exponent(x: bytes)
    | Scalar(d: bytes)
    | Seed(seed: bytes)
    | Factors(d: bytes, iqmp: bytes, p: bytes, q: bytes)
    | Handle(flags: byte, keyHandle: bytes, reserved: bytes)
    | OpaqueSecret(key: bytes)

  datatype AnyPair =
    | Pair(public: KeyData, secret: Secret)
    | EncryptedPair(ciphertext: bytes)

  type Keypair = p: AnyPair | p.Pair? ==> Fitting(p.public, p.secret) witness EncryptedPair([])

  /** The secret is of the key's own type. */
  predicate Fitting(k: KeyData, s: Secret) {
    match k
    case DsaKey(_, _, _, _) => s.Exponent?
    case EcdsaKey(c, _) => s.Scalar? && |s.d| == FieldSize(c)
    case Ed25519Key(pk) => s.Seed? && |s.seed| == 32
    case RsaKey(_, _) => s.Factors?
    case SkEcdsaKey(_, _) => s.Handle?
    case SkEd25519Key(_, _) => s.Handle?
    case OtherKey(_, _) => s.OpaqueSecret?
    case CertificateKey(_) => false
  }

  predicate ValidSecret(s: Secret) {
    match s
    case Exponent(x) => Positive(x)
    case Factors(d, iqmp, p, q) => Positive(d) && Positive(iqmp) && Positive(p) && Positive(q)
    case _ => true
  }

  /** What the Rust types guarantee of every pair. */
  ghost predicate ValidPair(p: Keypair) {
    p.Pair? ==> ValidKey(p.public) && ValidSecret(p.secret)
  }

  function PairAlgorithm(p: Keypair): Result<Algorithm> {
    if p.Pair? then Ok(KeyAlgorithm(p.public)) else Err(Encrypted)
  }

  function PublicOf(p: Keypair): Result<KeyData> {
    if p.Pair? then Ok(p.public) else Err(Encrypted)
  }

  // ---------- The checkint ----------

  /** The bytes the default checkint is computed from. */
  function PrivateBytes(p: Keypair): bytes {
    match p
    case EncryptedPair(ct) => ct
    case Pair(_, secret) =>
      match secret
      case Exponent(x) => x
      case Scalar(d) => d
      case Seed(seed) => seed
      case Factors(d, _, _, _) => d
      case Handle(_, handle, _) => handle
      case OpaqueSecret(key) => key
  }

  /** Exclusive or of the first k big-endian words of b. */
  function XorWords(b: bytes, k: nat): (r: nat)
    requires 4 * k <= |b|
    ensures r < TWO_32
  {
    if k == 0 then 0 else Xor32(XorWords(b, k - 1), FromBE(b[4 * k - 4..4 * k]))
  }

  function Xor32(a: nat, b: nat): (r: nat)
    ensures r < TWO_32
  {
    Pow2Of32();
    XorBits(a, b, 32)
  }

  lemma Pow2Of32()
    ensures Pow2(32) == TWO_32
  {
    assert Pow2(8) == 256;
    assert Pow2(16) == 65536;
    assert Pow2(24) == 16777216;
  }

  function DefaultCheckint(p: Keypair): (r: nat)
    ensures r < TWO_32
  {
    var b := PrivateBytes(p);
    XorWords(b, |b| / 4)
  }

  /** The words of b, of the first k, that have bit i set. */
  ghost function WordsWith(b: bytes, k: nat, i: nat): set<nat>
    requires 4 * k <= |b|
  {
    set j: nat | j < k && Bit(FromBE(b[4 * j..4 * j + 4]), i) == 1
  }

  /** A bit of the default checkint is set exactly when an odd number of words has it. */
  lemma CheckintBit(p: Keypair, i: nat)
    requires i < 32
    ensures var b := PrivateBytes(p);
            Bit(DefaultCheckint(p), i) == |WordsWith(b, |b| / 4, i)| % 2
  {
    var b := PrivateBytes(p);
    XorWordsBit(b, |b| / 4, i);
  }

  lemma {:induction false} XorWordsBit(b: bytes, k: nat, i: nat)
    requires 4 * k <= |b| && i < 32
    ensures Bit(XorWords(b, k), i) == |WordsWith(b, k, i)| % 2
  {
    hide Bit, Xor32, FromBE;
    if k == 0 {
      assert WordsWith(b, 0, i) == {};
      ZeroBit(i);
    } else {
      XorWordsBit(b, k - 1, i);
      WordsWithOneMore(b, k, i);
      Xor32Bit(XorWords(b, k - 1), FromBE(b[4 * k - 4..4 * k]), i);
    }
  }

  lemma Xor32Bit(a: nat, b: nat, i: nat)
    requires i < 32
    ensures Bit(Xor32(a, b), i) == (Bit(a, i) + Bit(b, i)) % 2
  {
    hide Bit, XorBits;
    XorBitsBit(a, b, 32, i);
  }

  lemma WordsWithOneMore(b: bytes, k: nat, i: nat)
    requires 0 < k && 4 * k <= |b|
    ensures |WordsWith(b, k, i)| == |WordsWith(b, k - 1, i)| + Bit(FromBE(b[4 * k - 4..4 * k]), i)
  {
    hide Bit, FromBE;
    var w := FromBE(b[4 * k - 4..4 * k]);
    assert b[4 * (k - 1)..4 * (k - 1) + 4] == b[4 * k - 4..4 * k];
    BitIsBit(w, i);
    var last: nat := k - 1;
    if Bit(w, i) == 1 {
      assert WordsWith(b, k, i) == WordsWith(b, k - 1, i) + {last};
    } else {
      assert WordsWith(b, k, i) == WordsWith(b, k - 1, i);
    }
  }

  lemma {:induction false} ZeroBit(i: nat)
    ensures Bit(0, i) == 0
  {
    if i > 0 {
      ZeroBit(i - 1);
    }
  }

  lemma {:induction false} BitIsBit(n: nat, i: nat)
    ensures Bit(n, i) <= 1
  {
    if i > 0 {
      BitIsBit(n / 2, i - 1);
    }
  }

  /** The loop over whole words; up to three bytes at the end play no part. */
  method ComputeCheckint(p: Keypair) returns (n: nat)
    ensures n == DefaultCheckint(p)
  {
    var b := PrivateBytes(p);
    n := 0;
    for i := 0 to |b| / 4
      invariant n == XorWords(b, i)
    {
      var chunk := b[4 * i..4 * i + 4];
      n := Xor32(n, FromBE(chunk));
    }
  }

  // ---------- Encoding ----------

  /** The public half as it stands in a pair, where RSA has its modulus first. */
  function HalfFields(k: KeyData): seq<bytes>
    requires !k.CertificateKey?
  {
    if k.RsaKey? then [k.n, k.e] else PlainFields(k)
  }

  /** What the secret that goes with a key is made of. */
  function SecretKinds(k: KeyData): seq<Kind> {
    match k
    case DsaKey(_, _, _, _) => [Integer]
    case EcdsaKey(c, _) => [ScalarOf(c)]
    case Ed25519Key(_) => [Exactly(64)]
    case RsaKey(_, _) => [Integer, Integer, Integer, Integer]
    case SkEcdsaKey(_, _) => [Octet, Anything, Anything]
    case SkEd25519Key(_, _) => [Octet, Anything, Anything]
    case OtherKey(_, _) => [Anything]
    case CertificateKey(_) => []
  }

  /** An Ed25519 seed is followed by the public key once more. */
  function SecretFields(k: KeyData, s: Secret): (r: seq<bytes>)
    requires Fitting(k, s)
    ensures |r| == |SecretKinds(k)|
  {
    match s
    case Exponent(x) => [x]
    case Scalar(d) => [ScalarField(d)]
    case Seed(seed) => [seed + k.pk]
    case Factors(d, iqmp, p, q) => [d, iqmp, p, q]
    case Handle(flags, handle, reserved) => [[flags], handle, reserved]
    case OpaqueSecret(key) => [key]
  }

  function EncPairBody(p: Keypair, tail: bytes): bytes {
    match p
    case Pair(k, s) => StrList(HalfFields(k)) + EncFields(SecretKinds(k), SecretFields(k, s), tail)
    case EncryptedPair(ct) => ct + tail
  }

  function EncPair(p: Keypair, tail: bytes): bytes {
    match PairAlgorithm(p)
    case Ok(alg) => Str(AsStr(alg)) + EncPairBody(p, tail)
    case Err(_) => EncPairBody(p, tail)
  }

  /** Every length fits its prefix. */
  ghost predicate EncodablePair(p: Keypair) {
    p.Pair? ==>
      var f := SecretFields(p.public, p.secret);
      EncodableKey(p.public) && forall i :: 0 <= i < |f| ==> Fits(f[i])
  }

  /** The sum each kind of pair announces. */
  function PairBodyLen(p: Keypair): nat {
    match p
    case EncryptedPair(ct) => |ct|
    case Pair(k, secret) =>
      match secret
      case Exponent(x) => CertificateProofs.KeyBodyLen(k) + (4 + |x|)
      case Scalar(d) => CertificateProofs.KeyBodyLen(k) + 4 + (if d != [] && d[0] >= 0x80 then 1 else 0) + |d|
      case Seed(_) => 4 + CertificateProofs.KeyBodyLen(k) + 64
      case Factors(d, iqmp, p, q) =>
        CertificateProofs.KeyBodyLen(k) + ((4 + |d|) + (4 + |iqmp|) + (4 + |p|) + (4 + |q|))
      case Handle(_, handle, reserved) => CertificateProofs.KeyBodyLen(k) + 1 + (4 + |handle|) + (4 + |reserved|)
      case OpaqueSecret(key) => CertificateProofs.KeyBodyLen(k) + (4 + |key|)
  }

  function PairLen(p: Keypair): nat {
    match PairAlgorithm(p)
    case Ok(alg) => (4 + |AsStr(alg)|) + PairBodyLen(p)
    case Err(_) => PairBodyLen(p)
  }

  // ---------- Decoding ----------

  /** The public half: an ECDSA key may be of any curve here. */
  function HalfOf(alg: Algorithm, fields: seq<bytes>): Result<KeyData>
    requires |fields| == |KeyKinds(alg)|
  {
    match alg
    case Ecdsa(_) => EcdsaOf(fields)
    case Rsa(_) => RsaOf(fields[1], fields[0])
    case _ => KeyOf(alg, fields)
  }

  /** The seed's own public key must match the one stored with it, and that the one stored before it. */
  function SecretOf(x: Crypto, k: KeyData, fields: seq<bytes>): (r: Result<Secret>)
    requires |fields| == |SecretKinds(k)|
    ensures r.Ok? ==> Fitting(k, r.value)
  {
    match k
    case DsaKey(_, _, _, _) => if Positive(fields[0]) then Ok(Exponent(fields[0])) else Err(FormatEncoding)
    case EcdsaKey(c, _) =>
      var size := FieldSize(c);
      if |fields[0]| <= size || (|fields[0]| == size + 1 && fields[0][0] == 0)
      then Ok(Scalar(ScalarValue(fields[0], size))) else Err(Length)
    case Ed25519Key(pk) =>
      if |fields[0]| != 64 then Err(Length)
      else if x.publicOf(fields[0][..32]) != fields[0][32..] then Err(Error.Crypto)
      else if fields[0][32..] != pk then Err(Error.Crypto)
      else Ok(Seed(fields[0][..32]))
    case RsaKey(_, _) =>
      if Positive(fields[0]) && Positive(fields[1]) && Positive(fields[2]) && Positive(fields[3])
      then Ok(Factors(fields[0], fields[1], fields[2], fields[3])) else Err(FormatEncoding)
    case SkEcdsaKey(_, _) => HandleOf(fields)
    case SkEd25519Key(_, _) => HandleOf(fields)
    case OtherKey(_, _) => Ok(OpaqueSecret(fields[0]))
    case CertificateKey(_) => Err(AlgorithmUnknown)
  }

  function HandleOf(fields: seq<bytes>): Result<Secret>
    requires |fields| == 3
  {
    if |fields[0]| == 1 then Ok(Handle(fields[0][0], fields[1], fields[2])) else Err(Length)
  }

  function GetHalf(alg: Algorithm, b: bytes): Parsed<KeyData> {
    var (fields, rest) :- GetFields(KeyKinds(alg), b);
    var k :- HalfOf(alg, fields);
    Ok((k, rest))
  }

  function GetSecretHalf(x: Crypto, k: KeyData, b: bytes): (r: Parsed<Secret>)
    ensures r.Ok? ==> Fitting(k, r.value.0)
  {
    var (fields, rest) :- GetFields(SecretKinds(k), b);
    var s :- SecretOf(x, k, fields);
    Ok((s, rest))
  }

  function GetPairAs(x: Crypto, alg: Algorithm, b: bytes): Parsed<Keypair> {
    var (public, b1) :- GetHalf(alg, b);
    var (secret, b2) :- GetSecretHalf(x, public, b1);
    if alg.Ecdsa? && KeyAlgorithm(public) != alg then Err(AlgorithmUnknown) else Ok((Pair(public, secret), b2))
  }

  function GetPair(x: Crypto, b: bytes): Parsed<Keypair> {
    var (alg, rest) :- GetAlgorithm(b);
    GetPairAs(x, alg, rest)
  }

  // ---------- Which values survive a round trip ----------

  /** The key is of the type its algorithm stands for, a custom algorithm has a name of its own, and an
      Ed25519 seed belongs to the public key beside it. */
  ghost predicate CanonicalPair(x: Crypto, p: Keypair) {
    && p.Pair? && ProperKey(p.public) && CanonicalAlgorithm(KeyAlgorithm(p.public))
    && (p.public.Ed25519Key? && p.secret.Seed? ==> x.publicOf(p.secret.seed) == p.public.pk)
  }

  /** The name is not one of RSA with a hash, and an ECDSA scalar is written in full, after a zero exactly
      when its first byte is large. */
  predicate VerbatimPair(b: bytes) {
    && GetAlgorithm(b).Ok?
    && var (alg, rest) := GetAlgorithm(b).value;
       match alg
       case Rsa(hash) => hash.None?
       case Ecdsa(c) =>
         var r := GetFields([CurveName, CurvePoint, ScalarOf(c)], rest);
         r.Ok? && ScalarVerbatim(r.value.0[2], FieldSize(c))
       case _ => true
  }
}
