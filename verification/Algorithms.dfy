/** Algorithm identifiers and their names, for keys and for certificates. */
module Algorithms {
  import opened Bytes
  import opened SshWire

  datatype EcdsaCurve = NistP256 | NistP384 | NistP521

  datatype HashAlg = Sha256 | Sha512

  datatype Algorithm =
    | Dsa
    | Ecdsa(curve: EcdsaCurve)
    | Ed25519
    | Rsa(hash: Option<HashAlg>)
    | SkEcdsaSha2NistP256
    | SkEd25519
    | Other(name: bytes)

  function FieldSize(c: EcdsaCurve): nat {
    match c case NistP256 => 32 case NistP384 => 48 case NistP521 => 66
  }

  function DigestSize(h: HashAlg): nat {
    match h case Sha256 => 32 case Sha512 => 64
  }

  predicate IsAscii(b: bytes) {
    forall i :: 0 <= i < |b| ==> b[i] < 0x80
  }

  /** The bytes of an ASCII literal. */
  function Ascii(s: string): (r: bytes)
    requires forall i :: 0 <= i < |s| ==> s[i] < 128 as char
    ensures |r| == |s| && IsAscii(r)
    ensures forall i :: 0 <= i < |s| ==> r[i] == s[i] as int
  {
    seq(|s|, i requires 0 <= i < |s| => s[i] as int)
  }

  const SSH_DSA := Ascii("ssh-dss")
  const ECDSA_SHA2_P256 := Ascii("ecdsa-sha2-nistp256")
  const ECDSA_SHA2_P384 := Ascii("ecdsa-sha2-nistp384")
  const ECDSA_SHA2_P521 := Ascii("ecdsa-sha2-nistp521")
  const RSA_SHA2_256 := Ascii("rsa-sha2-256")
  const RSA_SHA2_512 := Ascii("rsa-sha2-512")
  const SSH_ED25519 := Ascii("ssh-ed25519")
  const SSH_RSA := Ascii("ssh-rsa")
  const SK_ECDSA_SHA2_P256 := Ascii("sk-ecdsa-sha2-nistp256@openssh.com")
  const SK_SSH_ED25519 := Ascii("sk-ssh-ed25519@openssh.com")

  const CERT_DSA := Ascii("ssh-dss-cert-v01@openssh.com")
  const CERT_ECDSA_SHA2_P256 := Ascii("ecdsa-sha2-nistp256-cert-v01@openssh.com")
  const CERT_ECDSA_SHA2_P384 := Ascii("ecdsa-sha2-nistp384-cert-v01@openssh.com")
  const CERT_ECDSA_SHA2_P521 := Ascii("ecdsa-sha2-nistp521-cert-v01@openssh.com")
  const CERT_ED25519 := Ascii("ssh-ed25519-cert-v01@openssh.com")
  const CERT_RSA := Ascii("ssh-rsa-cert-v01@openssh.com")
  const CERT_RSA_SHA2_256 := Ascii("rsa-sha2-256-cert-v01@openssh.com")
  const CERT_RSA_SHA2_512 := Ascii("rsa-sha2-512-cert-v01@openssh.com")
  const CERT_SK_ECDSA_SHA2_P256 := Ascii("sk-ecdsa-sha2-nistp256-cert-v01@openssh.com")
  const CERT_SK_SSH_ED25519 := Ascii("sk-ssh-ed25519-cert-v01@openssh.com")

  const CERT_STR_SUFFIX := Ascii("-cert-v01")

  const MAX_ALGORITHM_NAME_LEN: nat := 64

  const MAX_CERT_STR_LEN: nat := 73

  const AT: byte := 64

  // ---------- Custom names: name@domain ----------

  function FirstAt(id: bytes, i: nat): (k: nat)
    requires i <= |id|
    ensures i <= k <= |id| && (k < |id| ==> id[k] == AT)
    ensures forall j :: i <= j < k ==> id[j] != AT
    decreases |id| - i
  {
    if i == |id| || id[i] == AT then i else FirstAt(id, i + 1)
  }

  /** Splits at the first at-sign; both parts must be non-empty and the domain free of at-signs. */
  function SplitId(id: bytes): (r: Option<(bytes, bytes)>)
    ensures r.Some? ==> id == r.value.0 + [AT] + r.value.1
    ensures r.Some? ==> r.value.0 != [] && r.value.1 != [] && AT !in r.value.0 && AT !in r.value.1
  {
    var k := FirstAt(id, 0);
    if k == |id| then None
    else
      var name, domain := id[..k], id[k + 1..];
      if name == [] || domain == [] || AT in domain then None else Some((name, domain))
  }

  lemma SplitIdOf(name: bytes, domain: bytes)
    requires name != [] && domain != [] && AT !in name && AT !in domain
    ensures SplitId(name + [AT] + domain) == Some((name, domain))
  {
    var id := name + [AT] + domain;
    var k := FirstAt(id, 0);
    assert id[|name|] == AT;
    assert forall j :: 0 <= j < |name| ==> id[j] == name[j];
    assert k == |name|;
    assert id[..k] == name && id[k + 1..] == domain;
  }

  predicate ValidId(id: bytes, max: nat) {
    |id| <= max && IsAscii(id)
  }

  /** Acceptable as a custom algorithm name. */
  predicate AlgorithmNameOk(id: bytes) {
    ValidId(id, MAX_ALGORITHM_NAME_LEN) && SplitId(id).Some?
  }

  /** A custom name is a name and a domain around one at-sign, in ASCII and of at most 64 bytes. */
  lemma AlgorithmNameIff(id: bytes)
    ensures AlgorithmNameOk(id) <==>
            && |id| <= 64 && (forall i :: 0 <= i < |id| ==> id[i] < 0x80)
            && exists name, domain :: IsNameAt(id, name, domain) && name != []
  {
    if SplitId(id).Some? {
      assert IsNameAt(id, SplitId(id).value.0, SplitId(id).value.1);
    }
    if name, domain :| IsNameAt(id, name, domain) && name != [] {
      SplitIdOf(name, domain);
    }
  }

  predicate IsNameAt(id: bytes, name: bytes, domain: bytes) {
    id == name + [AT] + domain && AT !in name && domain != [] && AT !in domain
  }

  /** The certificate form of a custom name; None where the code panics. */
  function CertificateType(id: bytes): (r: Option<bytes>)
    ensures r.Some? ==> |r.value| == |id| + 9
  {
    match SplitId(id)
    case None => None
    case Some(p) => Some(p.0 + CERT_STR_SUFFIX + [AT] + p.1)
  }

  function FromCertificateType(id: bytes): Result<bytes> {
    if !ValidId(id, MAX_CERT_STR_LEN) then Err(Label)
    else
      match SplitId(id)
      case None => Err(Label)
      case Some(p) =>
        if |p.0| >= 9 && p.0[|p.0| - 9..] == CERT_STR_SUFFIX then Ok(p.0[..|p.0| - 9] + [AT] + p.1)
        else Err(Label)
  }

  /** A certificate name gives the custom name from which it differs by the suffix before the at-sign, if it is
      in ASCII and of at most 73 bytes; nothing need stand before the suffix. */
  lemma FromCertificateTypeIff(id: bytes, name: bytes, domain: bytes)
    requires AT !in name && domain != [] && AT !in domain
    ensures FromCertificateType(id) == Ok(name + [AT] + domain) <==>
            && |id| <= 73 && (forall i :: 0 <= i < |id| ==> id[i] < 0x80)
            && id == name + Ascii("-cert-v01") + [AT] + domain
  {
    var long := name + CERT_STR_SUFFIX;
    if id == long + [AT] + domain {
      SuffixHasNoAt();
      SplitIdOf(long, domain);
      assert long[|long| - 9..] == CERT_STR_SUFFIX && long[..|long| - 9] == name;
    }
    if FromCertificateType(id) == Ok(name + [AT] + domain) {
      var (l, d) := SplitId(id).value;
      var n := l[..|l| - 9];
      assert l == n + CERT_STR_SUFFIX;
      SameSplit(n, d, name, domain);
    }
  }

  lemma SameSplit(n: bytes, d: bytes, n': bytes, d': bytes)
    requires n + [AT] + d == n' + [AT] + d' && AT !in n && AT !in n'
    ensures n == n' && d == d'
  {
    var id := n + [AT] + d;
    assert id[|n|] == AT && id[|n'|] == AT;
    assert forall i :: 0 <= i < |n| ==> id[i] == n[i];
    assert forall i :: 0 <= i < |n'| ==> id[i] == n'[i];
    assert |n| == |n'|;
    assert n == id[..|n|] && n' == id[..|n|] && d == id[|n| + 1..] && d' == id[|n| + 1..];
  }

  /** Going to the certificate form and back gives the name. */
  lemma CertificateTypeRoundTrip(id: bytes)
    requires AlgorithmNameOk(id)
    ensures CertificateType(id).Some?
    ensures FromCertificateType(CertificateType(id).value) == Ok(id)
    ensures IsAscii(CertificateType(id).value)
  {
    var (name, domain) := SplitId(id).value;
    var long := name + CERT_STR_SUFFIX;
    SuffixHasNoAt();
    SplitIdOf(long, domain);
    assert long[|long| - 9..] == CERT_STR_SUFFIX && long[..|long| - 9] == name;
    assert IsAscii(name) by {
      assert forall i :: 0 <= i < |name| ==> id[i] == name[i];
    }
    assert IsAscii(domain) by {
      assert forall i :: 0 <= i < |domain| ==> id[|name| + 1 + i] == domain[i];
    }
  }

  lemma SuffixHasNoAt()
    ensures AT !in CERT_STR_SUFFIX
  {
    var s := "-cert-v01";
    assert forall i :: 0 <= i < |s| ==> s[i] != '@';
    forall i | 0 <= i < 9
      ensures CERT_STR_SUFFIX[i] != AT
    {
      assert s[i] != '@';
    }
  }

  // ---------- Key algorithm names ----------

  function AsStr(a: Algorithm): bytes {
    match a
    case Dsa => SSH_DSA
    case Ecdsa(NistP256) => ECDSA_SHA2_P256
    case Ecdsa(NistP384) => ECDSA_SHA2_P384
    case Ecdsa(NistP521) => ECDSA_SHA2_P521
    case Ed25519 => SSH_ED25519
    case Rsa(None) => SSH_RSA
    case Rsa(Some(Sha256)) => RSA_SHA2_256
    case Rsa(Some(Sha512)) => RSA_SHA2_512
    case SkEcdsaSha2NistP256 => SK_ECDSA_SHA2_P256
    case SkEd25519 => SK_SSH_ED25519
    case Other(name) => name
  }

  /** The built-in algorithm of this name. */
  function KnownName(id: bytes): Option<Algorithm> {
    if id == SSH_DSA then Some(Dsa)
    else if id == ECDSA_SHA2_P256 then Some(Ecdsa(NistP256))
    else if id == ECDSA_SHA2_P384 then Some(Ecdsa(NistP384))
    else if id == ECDSA_SHA2_P521 then Some(Ecdsa(NistP521))
    else if id == RSA_SHA2_256 then Some(Rsa(Some(Sha256)))
    else if id == RSA_SHA2_512 then Some(Rsa(Some(Sha512)))
    else if id == SSH_ED25519 then Some(Ed25519)
    else if id == SSH_RSA then Some(Rsa(None))
    else if id == SK_ECDSA_SHA2_P256 then Some(SkEcdsaSha2NistP256)
    else if id == SK_SSH_ED25519 then Some(SkEd25519)
    else None
  }

  function FromStr(id: bytes): Result<Algorithm> {
    match KnownName(id)
    case Some(a) => Ok(a)
    case None => if AlgorithmNameOk(id) then Ok(Other(id)) else Err(Label)
  }

  lemma NamesDiffer()
    ensures SSH_DSA != SSH_RSA
    ensures ECDSA_SHA2_P256 != ECDSA_SHA2_P384
    ensures ECDSA_SHA2_P256 != ECDSA_SHA2_P521
    ensures ECDSA_SHA2_P384 != ECDSA_SHA2_P521
    ensures RSA_SHA2_256 != RSA_SHA2_512
  {
    assert SSH_DSA[4] == 'd' as int && SSH_RSA[4] == 'r' as int;
    assert ECDSA_SHA2_P256[16] == '2' as int;
    assert ECDSA_SHA2_P384[16] == '3' as int;
    assert ECDSA_SHA2_P521[16] == '5' as int;
    assert RSA_SHA2_256[9] == '2' as int && RSA_SHA2_512[9] == '5' as int;
  }

  lemma KnownNameOfAsStr(a: Algorithm)
    requires !a.Other?
    ensures KnownName(AsStr(a)) == Some(a)
    ensures |AsStr(a)| <= 64 && IsAscii(AsStr(a))
  {
    NamesDiffer();
    NameLengths();
    match a
    case Dsa =>
    case Ecdsa(NistP256) =>
    case Ecdsa(NistP384) =>
    case Ecdsa(NistP521) =>
    case Ed25519 =>
    case Rsa(None) =>
    case Rsa(Some(h)) =>
    case SkEcdsaSha2NistP256 =>
    case SkEd25519 =>
  }

  lemma NameLengths()
    ensures |SSH_DSA| == 7 && |SSH_RSA| == 7 && |SSH_ED25519| == 11
    ensures |ECDSA_SHA2_P256| == 19 && |ECDSA_SHA2_P384| == 19 && |ECDSA_SHA2_P521| == 19
    ensures |RSA_SHA2_256| == 12 && |RSA_SHA2_512| == 12
    ensures |SK_ECDSA_SHA2_P256| == 34 && |SK_SSH_ED25519| == 26
  {
  }

  /** A custom name must not be one of the built-in ones. */
  predicate CanonicalAlgorithm(a: Algorithm) {
    a.Other? ==> AlgorithmNameOk(a.name) && KnownName(a.name) == None
  }

  /** A built-in name may itself have the form of a custom one, so a custom algorithm can be given it. */
  lemma BuiltInNameAsCustom()
    ensures AlgorithmNameOk(SK_SSH_ED25519) && !CanonicalAlgorithm(Other(SK_SSH_ED25519))
  {
    var name, domain := Ascii("sk-ssh-ed25519"), Ascii("openssh.com");
    BuiltInNameSplits();
    SplitIdOf(name, domain);
    KnownNameOfAsStr(SkEd25519);
  }

  lemma BuiltInNameSplits()
    ensures SK_SSH_ED25519 == Ascii("sk-ssh-ed25519") + [AT] + Ascii("openssh.com")
    ensures AT !in Ascii("sk-ssh-ed25519") && AT !in Ascii("openssh.com")
    ensures |SK_SSH_ED25519| == 26
  {
    var s, t := "sk-ssh-ed25519", "openssh.com";
    assert forall i :: 0 <= i < |s| ==> s[i] != '@';
    assert forall i :: 0 <= i < |t| ==> t[i] != '@';
  }

  /** Parsing a name that is the name of `a` gives `a` back exactly when `a` is canonical. */
  lemma FromStrOfAsStr(a: Algorithm)
    ensures FromStr(AsStr(a)) == Ok(a) <==> CanonicalAlgorithm(a)
    ensures CanonicalAlgorithm(a) ==> |AsStr(a)| <= 64 && IsAscii(AsStr(a))
  {
    if !a.Other? {
      KnownNameOfAsStr(a);
    } else if KnownName(a.name).Some? {
      KnownNeverOther(a.name);
    }
  }

  lemma KnownNeverOther(id: bytes)
    requires KnownName(id).Some?
    ensures !KnownName(id).value.Other? && AsStr(KnownName(id).value) == id
  {
  }

  /** Every name that parses is the name of what it parses to, and that is canonical. */
  lemma AsStrOfFromStr(id: bytes)
    requires FromStr(id).Ok?
    ensures AsStr(FromStr(id).value) == id && CanonicalAlgorithm(FromStr(id).value)
  {
    if KnownName(id).Some? {
      KnownNeverOther(id);
    }
  }

  function GetAlgorithm(b: bytes): (r: Parsed<Algorithm>)
    ensures r.Ok? ==> |r.value.1| < |b|
  {
    var (id, rest) :- GetText(b);
    var a :- FromStr(id);
    Ok((a, rest))
  }

  lemma GetAlgorithmOf(a: Algorithm, tail: bytes)
    requires CanonicalAlgorithm(a)
    ensures GetAlgorithm(Str(AsStr(a)) + tail) == Ok((a, tail))
  {
    FromStrOfAsStr(a);
    AsciiIsUtf8(AsStr(a));
    GetTextOf(AsStr(a), tail);
  }

  lemma GetAlgorithmInverse(b: bytes)
    requires GetAlgorithm(b).Ok?
    ensures var (a, rest) := GetAlgorithm(b).value;
            CanonicalAlgorithm(a) && b == Str(AsStr(a)) + rest && Fits(AsStr(a))
  {
    var (id, rest) := GetText(b).value;
    AsStrOfFromStr(id);
  }

  // ---------- Certificate algorithm names ----------

  /** The built-in algorithm of this certificate name. */
  function KnownCertName(id: bytes): Option<Algorithm> {
    if id == CERT_DSA then Some(Dsa)
    else if id == CERT_ECDSA_SHA2_P256 then Some(Ecdsa(NistP256))
    else if id == CERT_ECDSA_SHA2_P384 then Some(Ecdsa(NistP384))
    else if id == CERT_ECDSA_SHA2_P521 then Some(Ecdsa(NistP521))
    else if id == CERT_ED25519 then Some(Ed25519)
    else if id == CERT_RSA then Some(Rsa(None))
    else if id == CERT_RSA_SHA2_256 then Some(Rsa(Some(Sha256)))
    else if id == CERT_RSA_SHA2_512 then Some(Rsa(Some(Sha512)))
    else if id == CERT_SK_ECDSA_SHA2_P256 then Some(SkEcdsaSha2NistP256)
    else if id == CERT_SK_SSH_ED25519 then Some(SkEd25519)
    else None
  }

  function NewCertificate(id: bytes): Result<Algorithm> {
    match KnownCertName(id)
    case Some(a) => Ok(a)
    case None =>
      var name :- FromCertificateType(id);
      Ok(Other(name))
  }

  /** The certificate name of an algorithm; None where the code panics. */
  function ToCertificateType(a: Algorithm): Option<bytes> {
    match a
    case Dsa => Some(CERT_DSA)
    case Ecdsa(NistP256) => Some(CERT_ECDSA_SHA2_P256)
    case Ecdsa(NistP384) => Some(CERT_ECDSA_SHA2_P384)
    case Ecdsa(NistP521) => Some(CERT_ECDSA_SHA2_P521)
    case Ed25519 => Some(CERT_ED25519)
    case Rsa(None) => Some(CERT_RSA)
    case Rsa(Some(Sha256)) => Some(CERT_RSA_SHA2_256)
    case Rsa(Some(Sha512)) => Some(CERT_RSA_SHA2_512)
    case SkEcdsaSha2NistP256 => Some(CERT_SK_ECDSA_SHA2_P256)
    case SkEd25519 => Some(CERT_SK_SSH_ED25519)
    case Other(name) => CertificateType(name)
  }

  const OPENSSH := Ascii("@openssh.com")

  /** A built-in certificate name is the algorithm's own name, the suffix, and the domain of OpenSSH, which the
      names of security keys already end with. */
  lemma BuiltInCertName(a: Algorithm)
    requires !a.Other?
    ensures exists stem ::
              && ToCertificateType(a) == Some(stem + CERT_STR_SUFFIX + OPENSSH)
              && AsStr(a) == if a.SkEcdsaSha2NistP256? || a.SkEd25519? then stem + OPENSSH else stem
  {
    hide Ascii;
    DsaNames();
    Ed25519Names();
    EcdsaP256Names();
    EcdsaP384Names();
    EcdsaP521Names();
    RsaNames();
    RsaSha256Names();
    RsaSha512Names();
    SkEcdsaNames();
    SkEd25519Names();
    if a.SkEcdsaSha2NistP256? {
      assert ToCertificateType(a) == Some(Ascii("sk-ecdsa-sha2-nistp256") + CERT_STR_SUFFIX + OPENSSH);
    } else if a.SkEd25519? {
      assert ToCertificateType(a) == Some(Ascii("sk-ssh-ed25519") + CERT_STR_SUFFIX + OPENSSH);
    } else {
      assert ToCertificateType(a) == Some(AsStr(a) + CERT_STR_SUFFIX + OPENSSH);
    }
  }

  lemma DsaNames()
    ensures CERT_DSA == SSH_DSA + CERT_STR_SUFFIX + OPENSSH
  {
  }

  lemma Ed25519Names()
    ensures CERT_ED25519 == SSH_ED25519 + CERT_STR_SUFFIX + OPENSSH
  {
  }

  lemma EcdsaP256Names()
    ensures CERT_ECDSA_SHA2_P256 == ECDSA_SHA2_P256 + CERT_STR_SUFFIX + OPENSSH
  {
  }

  lemma EcdsaP384Names()
    ensures CERT_ECDSA_SHA2_P384 == ECDSA_SHA2_P384 + CERT_STR_SUFFIX + OPENSSH
  {
  }

  lemma EcdsaP521Names()
    ensures CERT_ECDSA_SHA2_P521 == ECDSA_SHA2_P521 + CERT_STR_SUFFIX + OPENSSH
  {
  }

  lemma RsaNames()
    ensures CERT_RSA == SSH_RSA + CERT_STR_SUFFIX + OPENSSH
  {
  }

  lemma RsaSha256Names()
    ensures CERT_RSA_SHA2_256 == RSA_SHA2_256 + CERT_STR_SUFFIX + OPENSSH
  {
  }

  lemma RsaSha512Names()
    ensures CERT_RSA_SHA2_512 == RSA_SHA2_512 + CERT_STR_SUFFIX + OPENSSH
  {
  }

  lemma SkEcdsaNames()
    ensures SK_ECDSA_SHA2_P256 == Ascii("sk-ecdsa-sha2-nistp256") + OPENSSH
    ensures CERT_SK_ECDSA_SHA2_P256 == Ascii("sk-ecdsa-sha2-nistp256") + CERT_STR_SUFFIX + OPENSSH
  {
  }

  lemma SkEd25519Names()
    ensures SK_SSH_ED25519 == Ascii("sk-ssh-ed25519") + OPENSSH
    ensures CERT_SK_SSH_ED25519 == Ascii("sk-ssh-ed25519") + CERT_STR_SUFFIX + OPENSSH
  {
  }

  lemma CertNamesDiffer()
    ensures CERT_DSA != CERT_RSA
    ensures CERT_ECDSA_SHA2_P256 != CERT_ECDSA_SHA2_P384
    ensures CERT_ECDSA_SHA2_P256 != CERT_ECDSA_SHA2_P521
    ensures CERT_ECDSA_SHA2_P384 != CERT_ECDSA_SHA2_P521
    ensures CERT_RSA_SHA2_256 != CERT_RSA_SHA2_512
  {
    assert CERT_DSA[4] == 'd' as int && CERT_RSA[4] == 'r' as int;
    assert CERT_ECDSA_SHA2_P256[16] == '2' as int;
    assert CERT_ECDSA_SHA2_P384[16] == '3' as int;
    assert CERT_ECDSA_SHA2_P521[16] == '5' as int;
    assert CERT_RSA_SHA2_256[9] == '2' as int && CERT_RSA_SHA2_512[9] == '5' as int;
  }

  lemma KnownCertNameOf(a: Algorithm)
    requires !a.Other?
    ensures ToCertificateType(a).Some? && KnownCertName(ToCertificateType(a).value) == Some(a)
    ensures |ToCertificateType(a).value| <= 64 && IsAscii(ToCertificateType(a).value)
  {
    CertNamesDiffer();
    CertNameLengths();
    match a
    case Dsa =>
    case Ecdsa(NistP256) =>
    case Ecdsa(NistP384) =>
    case Ecdsa(NistP521) =>
    case Ed25519 =>
    case Rsa(None) =>
    case Rsa(Some(h)) =>
    case SkEcdsaSha2NistP256 =>
    case SkEd25519 =>
  }

  lemma CertNameLengths()
    ensures |CERT_DSA| == 28 && |CERT_RSA| == 28 && |CERT_ED25519| == 32
    ensures |CERT_ECDSA_SHA2_P256| == 40 && |CERT_ECDSA_SHA2_P384| == 40 && |CERT_ECDSA_SHA2_P521| == 40
    ensures |CERT_RSA_SHA2_256| == 33 && |CERT_RSA_SHA2_512| == 33
    ensures |CERT_SK_ECDSA_SHA2_P256| == 43 && |CERT_SK_SSH_ED25519| == 35
  {
  }

  /** A custom algorithm whose certificate name collides with a built-in certificate name. */
  predicate CertNameTaken(a: Algorithm) {
    a.Other? && CertificateType(a.name).Some? && KnownCertName(CertificateType(a.name).value).Some?
  }

  /** A certificate name exists unless nothing stands before the at-sign of a custom name; it parses back
      unless it is a built-in one too. */
  lemma NewCertificateOf(a: Algorithm)
    requires a.Other? ==> ValidId(a.name, MAX_ALGORITHM_NAME_LEN)
    ensures ToCertificateType(a).Some? <==> (a.Other? ==> SplitId(a.name).Some?)
    ensures ToCertificateType(a).Some? ==>
              && (NewCertificate(ToCertificateType(a).value) == Ok(a) <==> !CertNameTaken(a))
              && |ToCertificateType(a).value| <= 73 && IsAscii(ToCertificateType(a).value)
  {
    if a.Other? {
      if SplitId(a.name).Some? {
        NewCertificateOfCustom(a.name);
      }
    } else {
      KnownCertNameOf(a);
    }
  }

  lemma NewCertificateOfCustom(name: bytes)
    requires AlgorithmNameOk(name)
    ensures CertificateType(name).Some?
    ensures NewCertificate(CertificateType(name).value) == Ok(Other(name)) <==> !CertNameTaken(Other(name))
    ensures |CertificateType(name).value| <= 73 && IsAscii(CertificateType(name).value)
  {
    CertificateTypeRoundTrip(name);
    var id := CertificateType(name).value;
    if KnownCertName(id).Some? {
      KnownCertNeverOther(id);
    }
  }

  lemma KnownCertNeverOther(id: bytes)
    requires KnownCertName(id).Some?
    ensures !KnownCertName(id).value.Other?
  {
  }

  /** What a certificate name parses to never collides. */
  lemma NewCertificateNotTaken(id: bytes)
    requires NewCertificate(id).Ok?
    ensures !CertNameTaken(NewCertificate(id).value)
  {
    if KnownCertName(id).None? {
      var (long, domain) := SplitId(id).value;
      var name := long[..|long| - 9];
      assert long == name + CERT_STR_SUFFIX;
      var short := FromCertificateType(id).value;
      if name == [] {
        assert FirstAt(short, 0) == 0;
      } else {
        assert AT !in name by {
          assert forall i :: 0 <= i < |name| ==> name[i] == long[i];
        }
        SplitIdOf(name, domain);
      }
    } else {
      KnownCertNeverOther(id);
    }
  }

  // ---------- Certificate names as they are read ----------

  /** The algorithm a key reports when it was read under this one: an RSA key forgets the hash. */
  function Reported(a: Algorithm): Algorithm {
    if a.Rsa? then Rsa(None) else a
  }

  /** A certificate name with nothing before its suffix. */
  predicate Nameless(id: bytes) {
    SplitId(id).Some? && SplitId(id).value.0 == CERT_STR_SUFFIX
  }

  lemma KnownCertNameInverse(id: bytes)
    requires KnownCertName(id).Some?
    ensures ToCertificateType(KnownCertName(id).value) == Some(id)
  {
  }

  lemma FromCertificateTypeInverse(id: bytes)
    requires FromCertificateType(id).Ok? && CertificateType(FromCertificateType(id).value).Some?
    ensures CertificateType(FromCertificateType(id).value) == Some(id)
  {
    var (long, domain) := SplitId(id).value;
    var name := long[..|long| - 9];
    assert long == name + CERT_STR_SUFFIX;
    if name == [] {
      NamelessDoesNotSplit(domain);
    } else {
      assert AT !in name by {
        assert forall i :: 0 <= i < |name| ==> name[i] == long[i];
      }
      SplitIdOf(name, domain);
    }
  }

  lemma NamelessDoesNotSplit(domain: bytes)
    ensures SplitId([] + [AT] + domain) == None
  {
    assert FirstAt([] + [AT] + domain, 0) == 0;
  }

  lemma KnownCertNameStart(id: bytes)
    requires KnownCertName(id).Some?
    ensures |id| > 0 && id[0] != CERT_STR_SUFFIX[0]
  {
    assert CERT_STR_SUFFIX[0] == '-' as int;
    assert CERT_DSA[0] == 's' as int && CERT_RSA[0] == 's' as int && CERT_ED25519[0] == 's' as int;
    assert CERT_SK_ECDSA_SHA2_P256[0] == 's' as int && CERT_SK_SSH_ED25519[0] == 's' as int;
    assert CERT_ECDSA_SHA2_P256[0] == 'e' as int && CERT_ECDSA_SHA2_P384[0] == 'e' as int;
    assert CERT_ECDSA_SHA2_P521[0] == 'e' as int;
    assert CERT_RSA_SHA2_256[0] == 'r' as int && CERT_RSA_SHA2_512[0] == 'r' as int;
  }

  lemma CustomNamelessIff(id: bytes)
    requires FromCertificateType(id).Ok?
    ensures CertificateType(FromCertificateType(id).value).None? <==> Nameless(id)
  {
    var (long, domain) := SplitId(id).value;
    var name := long[..|long| - 9];
    assert long == name + CERT_STR_SUFFIX;
    if name == [] {
      NamelessDoesNotSplit(domain);
      FromStart(CERT_STR_SUFFIX);
    } else {
      assert AT !in name by {
        assert forall i :: 0 <= i < |name| ==> name[i] == long[i];
      }
      SplitIdOf(name, domain);
      assert |long| > |CERT_STR_SUFFIX|;
    }
  }

  lemma KnownIsNotNameless(id: bytes)
    requires KnownCertName(id).Some?
    ensures !Nameless(id)
  {
    hide KnownCertName;
    KnownCertNameStart(id);
  }

  /** What a certificate name parses to has no certificate name of its own exactly when the name read is
      the bare suffix and a domain. */
  lemma NamelessIff(id: bytes)
    requires NewCertificate(id).Ok?
    ensures ToCertificateType(NewCertificate(id).value).None? <==> Nameless(id)
  {
    hide KnownCertName, Nameless, CertificateType, FromCertificateType;
    if KnownCertName(id).Some? {
      KnownCertNameInverse(id);
      KnownIsNotNameless(id);
    } else {
      CustomNamelessIff(id);
    }
  }

  /** A concrete such name. */
  const NAMELESS := CERT_STR_SUFFIX + [AT] + [97]

  lemma NamelessExample()
    ensures NewCertificate(NAMELESS) == Ok(Other([AT, 97])) && ToCertificateType(Other([AT, 97])) == None
  {
    SuffixHasNoAt();
    SplitIdOf(CERT_STR_SUFFIX, [97]);
    assert CERT_STR_SUFFIX[|CERT_STR_SUFFIX| - 9..] == CERT_STR_SUFFIX;
    assert CERT_STR_SUFFIX[..|CERT_STR_SUFFIX| - 9] + [AT] + [97] == [AT, 97];
    if KnownCertName(NAMELESS).Some? {
      KnownCertNameStart(NAMELESS);
    } else {
      NamelessIff(NAMELESS);
    }
  }

  /** The certificate name of what was read is the name read, but for RSA with a hash. */
  lemma NameKeptIff(id: bytes)
    requires NewCertificate(id).Ok? && !Nameless(id)
    ensures ToCertificateType(Reported(NewCertificate(id).value)).Some?
    ensures var id' := ToCertificateType(Reported(NewCertificate(id).value)).value;
            if id == CERT_RSA_SHA2_256 || id == CERT_RSA_SHA2_512 then |id'| < |id| else id' == id
  {
    hide KnownCertName, Nameless, CertificateType, FromCertificateType;
    CertNameLengths();
    if KnownCertName(id).Some? {
      KnownCertNameInverse(id);
      if KnownCertName(id).value.Rsa? {
        KnownRsaName(id);
      } else {
        KnownOtherName(id);
      }
    } else {
      CustomNamelessIff(id);
      FromCertificateTypeInverse(id);
      RsaNamesKnown();
    }
  }

  lemma RsaNamesKnown()
    ensures KnownCertName(CERT_RSA_SHA2_256).Some? && KnownCertName(CERT_RSA_SHA2_512).Some?
  {
  }

  lemma KnownOtherName(id: bytes)
    requires KnownCertName(id).Some? && !KnownCertName(id).value.Rsa?
    ensures id != CERT_RSA_SHA2_256 && id != CERT_RSA_SHA2_512
  {
    KnownCertNameOf(Rsa(Some(Sha256)));
    KnownCertNameOf(Rsa(Some(Sha512)));
  }

  lemma KnownRsaName(id: bytes)
    requires KnownCertName(id).Some? && KnownCertName(id).value.Rsa?
    ensures id == CERT_RSA || id == CERT_RSA_SHA2_256 || id == CERT_RSA_SHA2_512
    ensures id == CERT_RSA <==> KnownCertName(id) == Some(Rsa(None))
  {
  }
}
