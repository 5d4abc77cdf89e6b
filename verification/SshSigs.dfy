/** The general-purpose `sshsig` signature format: its codec, and the data that is signed. */
module SshSigs {
  import opened Bytes
  import opened SshWire
  import opened Algorithms
  import opened Certificates
  import CertificateProofs
  import CertificateReads
  import CertificateResults
  import Signatures

  datatype SshSig = SshSig(
    version: nat,
    publicKey: KeyData,
    namespace: bytes,
    reserved: bytes,
    hashAlg: HashAlg,
    signature: Signatures.Signature)

  const VERSION: nat := 1

  const MAGIC_PREAMBLE := Ascii("SSHSIG")

  const SHA256 := Ascii("sha256")

  const SHA512 := Ascii("sha512")

  // ---------- Hash algorithm names ----------

  function HashName(h: HashAlg): (r: bytes)
    ensures |r| == 6 && IsAscii(r)
  {
    match h case Sha256 => SHA256 case Sha512 => SHA512
  }

  function GetHashAlg(b: bytes): Parsed<HashAlg> {
    var (id, rest) :- GetText(b);
    if id == SHA256 then Ok((Sha256, rest))
    else if id == SHA512 then Ok((Sha512, rest))
    else Err(Label)
  }

  lemma HashNamesDiffer()
    ensures SHA256 != SHA512
  {
    assert SHA256[3] == '2' as int && SHA512[3] == '5' as int;
  }

  lemma GetHashAlgOf(h: HashAlg, tail: bytes)
    ensures GetHashAlg(Str(HashName(h)) + tail) == Ok((h, tail))
  {
    HashNamesDiffer();
    AsciiIsUtf8(HashName(h));
    GetTextOf(HashName(h), tail);
  }

  // ---------- Encoding and decoding ----------

  /** What every value of the type satisfies, whichever way it was made. */
  ghost predicate Valid(s: SshSig) {
    && s.version <= VERSION
    && ValidKey(s.publicKey) && Signatures.Valid(s.signature)
    && s.namespace != [] && IsUtf8(s.namespace)
  }

  /** Every length fits its prefix. */
  ghost predicate Encodable(s: SshSig) {
    && EncodableKey(s.publicKey) && Fits(EncKey(s.publicKey, []))
    && Fits(s.namespace) && Fits(s.reserved)
    && Signatures.Encode(s.signature).Ok? && Fits(SignatureBytes(s.signature))
  }

  /** The fields after the key. */
  function EncTail(s: SshSig, tail: bytes): bytes {
    Str(s.namespace) + (Str(s.reserved) + (Str(HashName(s.hashAlg)) + (Str(SignatureBytes(s.signature)) + tail)))
  }

  function Enc(s: SshSig, tail: bytes): bytes {
    MAGIC_PREAMBLE + (U32(s.version) + (Str(EncKey(s.publicKey, [])) + EncTail(s, tail)))
  }

  function EncodedLen(s: SshSig): nat {
    |MAGIC_PREAMBLE| + 4 + (4 + CertificateProofs.KeyLen(s.publicKey)) + (4 + |s.namespace|) + (4 + |s.reserved|)
    + (4 + |HashName(s.hashAlg)|) + (4 + Signatures.EncodedLen(s.signature))
  }

  function Decode(b: bytes): Parsed<SshSig> {
    var (magic, b1) :- Take(b, |MAGIC_PREAMBLE|);
    if magic != MAGIC_PREAMBLE then Err(FormatEncoding)
    else
      var (version, b2) :- GetU32(b1);
      if version > VERSION then Err(Version)
      else
        var (keyBytes, b3) :- GetStr(b2);
        var key :- Finish(GetKey(keyBytes));
        GetTail(version, key, b3)
  }

  function GetTail(version: nat, key: KeyData, b: bytes): Parsed<SshSig> {
    var (namespace, b1) :- GetText(b);
    if namespace == [] then Err(Namespace)
    else
      var (reserved, b2) :- GetStr(b1);
      var (hashAlg, b3) :- GetHashAlg(b2);
      var (sigBytes, b4) :- GetStr(b3);
      var signature :- Finish(Signatures.Decode(sigBytes));
      Ok((SshSig(version, key, namespace, reserved, hashAlg, signature), b4))
  }

  ghost predicate Canonical(s: SshSig) {
    CanonicalKey(s.publicKey) && CanonicalAlgorithm(s.signature.alg)
  }

  /** Without the comment a certificate used as key may carry. */
  function Bare(s: SshSig): SshSig {
    s.(publicKey := BareKey(s.publicKey))
  }

  /** The encoding has the announced length. */
  lemma EncodedLength(s: SshSig)
    requires Valid(s) && Encodable(s)
    ensures |Enc(s, [])| == EncodedLen(s)
  {
    CertificateProofs.KeyLength(s.publicKey);
    Signatures.EncodeSucceeds(s.signature);
  }

  lemma GetTailOf(s: SshSig, key: KeyData, tail: bytes)
    requires Valid(s) && Encodable(s) && CanonicalAlgorithm(s.signature.alg)
    ensures GetTail(s.version, key, EncTail(s, tail)) == Ok((s.(publicKey := key), tail))
  {
    var t3 := Str(SignatureBytes(s.signature)) + tail;
    var t2 := Str(HashName(s.hashAlg)) + t3;
    var t1 := Str(s.reserved) + t2;
    GetTextOf(s.namespace, t1);
    GetStrOf(s.reserved, t2);
    GetHashAlgOf(s.hashAlg, t3);
    GetStrOf(SignatureBytes(s.signature), tail);
    CertificateProofs.GetSignatureOf(s.signature);
  }

  lemma RoundTrip(s: SshSig, tail: bytes)
    requires Valid(s) && Encodable(s) && Canonical(s)
    ensures Decode(Enc(s, tail)) == Ok((Bare(s), tail))
  {
    hide EncKey, GetKey, GetTail, EncTail, GetStr, GetU32, Take, Str, U32, CanonicalKey, EncodableKey;
    var t2 := Str(EncKey(s.publicKey, [])) + EncTail(s, tail);
    TakeOf(MAGIC_PREAMBLE, U32(s.version) + t2);
    GetU32Of(s.version, t2);
    GetStrOf(EncKey(s.publicKey, []), EncTail(s, tail));
    CertificateProofs.KeyRoundTrip(s.publicKey, []);
    GetTailOf(s, BareKey(s.publicKey), tail);
  }

  /** What a decoded value was read from. */
  lemma DecodedParts(b: bytes) returns (keyBytes: bytes, sigBytes: bytes)
    requires Decode(b).Ok?
    ensures Fits(sigBytes)
    ensures Finish(GetKey(keyBytes)) == Ok(Decode(b).value.0.publicKey)
    ensures Finish(Signatures.Decode(sigBytes)) == Ok(Decode(b).value.0.signature)
    ensures var s := Decode(b).value.0; s.version <= VERSION && s.namespace != [] && IsUtf8(s.namespace)
  {
    hide GetKey, Signatures.Decode, GetStr, GetU32, GetText, GetHashAlg, Take;
    var (_, b1) := Take(b, |MAGIC_PREAMBLE|).value;
    var (version, b2) := GetU32(b1).value;
    var (kb, b3) := GetStr(b2).value;
    var (_, b4) := GetText(b3).value;
    var (_, b5) := GetStr(b4).value;
    var (_, b6) := GetHashAlg(b5).value;
    keyBytes := kb;
    sigBytes := GetStr(b6).value.0;
  }

  /** What is read is valid; it reads back as itself exactly when no certificate in its key misses a name. */
  lemma DecodedIff(b: bytes)
    requires Decode(b).Ok?
    ensures var (s, _) := Decode(b).value;
            && Valid(s) && (Canonical(s) <==> NamedKey(s.publicKey))
            && (EncodableKey(s.publicKey) <==> NamedKey(s.publicKey))
  {
    hide Decode, GetKey, CanonicalKey, EncodableKey, NamedKey, ValidKey, Signatures.Decode, Signatures.Valid, Finish;
    var keyBytes, sigBytes := DecodedParts(b);
    CertificateReads.FinishedKey(keyBytes);
    CertificateResults.DecodedKeyIff(keyBytes);
    CertificateReads.SignatureRead(sigBytes);
  }

  /** Decoding what was encoded gives it back, exactly when key and algorithm are canonical. */
  lemma RoundTripIff(s: SshSig)
    requires Valid(s) && Encodable(s)
    ensures Decode(Enc(s, [])) == Ok((Bare(s), [])) <==> Canonical(s)
  {
    hide Decode, Enc, GetKey, CanonicalKey, EncodableKey, NamedKey, Signatures.Decode;
    if Canonical(s) {
      RoundTrip(s, []);
    } else if Decode(Enc(s, [])) == Ok((Bare(s), [])) {
      DecodedIff(Enc(s, []));
      CertificateProofs.BareKeySame(s.publicKey);
    }
  }

  // ---------- The signed data ----------

  function SignedData(namespace: bytes, reserved: bytes, h: HashAlg, hash: bytes): bytes {
    MAGIC_PREAMBLE + (Str(namespace) + (Str(reserved) + (Str(HashName(h)) + Str(hash))))
  }

  /** The layout of the signed bytes: the preamble, then namespace, reserved data, hash name and hash as strings,
      and nothing else. */
  lemma SignedDataReads(namespace: bytes, reserved: bytes, h: HashAlg, hash: bytes)
    requires Fits(namespace) && Fits(reserved) && Fits(hash)
    ensures var b := SignedData(namespace, reserved, h, hash);
            && |b| >= 6 && b[..6] == Ascii("SSHSIG")
            && GetStr(b[6..]).Ok? && GetStr(b[6..]).value.0 == namespace
            && var b1 := GetStr(b[6..]).value.1;
               && GetStr(b1).Ok? && GetStr(b1).value.0 == reserved
               && var b2 := GetStr(b1).value.1;
                  && GetHashAlg(b2).Ok? && GetHashAlg(b2).value.0 == h
                  && GetStr(GetHashAlg(b2).value.1) == Ok((hash, []))
  {
    hide Str, GetStr, GetHashAlg, HashName;
    var t3 := Str(HashName(h)) + Str(hash);
    var t2 := Str(reserved) + t3;
    TakeOf(MAGIC_PREAMBLE, Str(namespace) + t2);
    GetStrOf(namespace, t2);
    GetStrOf(reserved, t3);
    GetHashAlgOf(h, Str(hash));
    NoTail(Str(hash));
    GetStrOf(hash, []);
  }

  /** The signed bytes determine every field that went into them. */
  lemma SignedDataInjective(
    n: bytes, r: bytes, h: HashAlg, d: bytes, n': bytes, r': bytes, h': HashAlg, d': bytes)
    requires Fits(n) && Fits(r) && Fits(d) && Fits(n') && Fits(r') && Fits(d')
    requires SignedData(n, r, h, d) == SignedData(n', r', h', d')
    ensures n == n' && r == r' && h == h' && d == d'
  {
    var t3, t3' := Str(HashName(h)) + Str(d), Str(HashName(h')) + Str(d');
    var t2, t2' := Str(r) + t3, Str(r') + t3';
    TakeOf(MAGIC_PREAMBLE, Str(n) + t2);
    TakeOf(MAGIC_PREAMBLE, Str(n') + t2');
    StrInjective(n, t2, n', t2');
    StrInjective(r, t3, r', t3');
    StrInjective(HashName(h), Str(d), HashName(h'), Str(d'));
    HashNamesDiffer();
    assert Str(d) + [] == Str(d) && Str(d') + [] == Str(d');
    StrInjective(d, [], d', []);
  }

  /** The preamble keeps signed messages apart from certificates: no to-be-signed certificate starts
      with it. */
  lemma SignedDataIsNoCertificate(n: bytes, r: bytes, h: HashAlg, d: bytes, c: Certificate)
    requires ToCertificateType(KeyAlgorithm(c.fields.publicKey)).Some?
    requires ValidKey(c.fields.publicKey)
    ensures SignedData(n, r, h, d) != EncTbs(c, [])
  {
    CertNameShort(c.fields.publicKey);
    assert SignedData(n, r, h, d)[0] == MAGIC_PREAMBLE[0] == 'S' as int;
    var k := |CertName(c)|;
    assert EncTbs(c, [])[0] == U32(k)[0];
    ShortLengthStartsWithZero(k);
  }

  lemma {:induction false} CertNameShort(k: KeyData)
    requires ValidKey(k) && ToCertificateType(KeyAlgorithm(k)).Some?
    ensures |ToCertificateType(KeyAlgorithm(k)).value| <= 73
  {
    if k.CertificateKey? {
      assert ValidFields(k.cert.fields);
      CertNameShort(k.cert.fields.publicKey);
    } else {
      hide ToCertificateType, KeyAlgorithm;
      NewCertificateOf(KeyAlgorithm(k));
    }
  }

  lemma ShortLengthStartsWithZero(n: nat)
    requires n < 256
    ensures U32(n)[0] == 0
  {
    assert BE(n, 4) == BE(n / 256, 3) + [n % 256];
    assert BE(0, 3) == BE(0, 2) + [0];
    assert BE(0, 2) == BE(0, 1) + [0];
    assert BE(0, 1) == BE(0, 0) + [0];
  }
}
