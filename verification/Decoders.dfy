/** The decoders as they run: each steps a reader through the input. Every one is proved to compute the
    decoding function of its format. */
module Decoders {
  import opened Bytes
  import opened SshWire
  import opened SshReader
  import opened Algorithms
  import opened KeyFields
  import opened Certificates
  import opened Kdfs
  import opened Keypairs
  import Options = CertOptions
  import Signatures
  import SshSigs
  import PrivateKeys

  method DecodeAlgorithm(reader: Reader) returns (r: Result<Algorithm>)
    modifies reader
    ensures Reads(GetAlgorithm(old(reader.data)), r, reader.data)
  {
    var id :- reader.ReadText();
    r := FromStr(id);
  }

  /** The trailer of a security key's signature is pushed onto the bytes read before it. */
  method DecodeSignature(reader: Reader) returns (r: Result<Signatures.Signature>)
    modifies reader
    ensures Reads(Signatures.Decode(old(reader.data)), r, reader.data)
  {
    var alg :- DecodeAlgorithm(reader);
    var data :- reader.ReadStr();
    if Signatures.IsSk(alg) {
      var flags :- reader.ReadU8();
      var counter :- reader.ReadU32();
      data := data + [flags];
      data := data + BE(counter, 4);
    }
    r := Signatures.New(alg, data);
  }

  // ---------- The fields of keys ----------

  method DecodeFixed(reader: Reader, n: nat) returns (r: Result<bytes>)
    modifies reader
    ensures Reads(GetField(Exactly(n), old(reader.data)), r, reader.data)
  {
    var section :- reader.ReadSection();
    ghost var all := section.data;
    var s :- section.Read(n);
    assert section.data == [] ==> all == s + [] == s;
    r := section.Finished(s);
  }

  method DecodeCurve(reader: Reader) returns (r: Result<bytes>)
    modifies reader
    ensures Reads(GetField(CurveName, old(reader.data)), r, reader.data)
  {
    hide CurveOf;
    var id :- reader.ReadText();
    r := if CurveOf(id).Some? then Ok(id) else Err(Label);
  }

  method DecodePoint(reader: Reader) returns (r: Result<bytes>)
    modifies reader
    ensures Reads(GetField(CurvePoint, old(reader.data)), r, reader.data)
  {
    hide PointCurve;
    var point :- reader.ReadStr();
    if |point| > 133 {
      return Err(Length);
    }
    var curve :- PointCurve(point);
    r := Ok(point);
  }

  method DecodeP256(reader: Reader) returns (r: Result<bytes>)
    modifies reader
    ensures Reads(GetField(P256Name, old(reader.data)), r, reader.data)
  {
    hide CurveOf;
    var id :- reader.ReadText();
    if CurveOf(id).None? {
      return Err(Label);
    }
    r := if CurveOf(id) == Some(NistP256) then Ok(id) else Err(Error.Crypto);
  }

  /** A scalar: its leading zero dropped, or the bytes it lacks filled in. */
  method DecodeScalar(reader: Reader, c: EcdsaCurve) returns (r: Result<bytes>)
    modifies reader
    ensures match GetField(ScalarOf(c), old(reader.data))
            case Ok((f, rest)) => r == Ok(ScalarValue(f, FieldSize(c))) && reader.data == rest
            case Err(e) => r == Err(e)
  {
    var size := FieldSize(c);
    var section :- reader.ReadSection();
    ghost var f := section.data;
    var n := |section.data|;
    if n == size + 1 {
      var lead := section.ReadU8();
      if lead != Ok(0) {
        return Err(FormatEncoding);
      }
      n := size;
    }
    if n < MIN_SCALAR || n > size {
      return Err(Length);
    }
    assert section.data == if |f| == size + 1 then f[1..] else f;
    assert section.data[..n] == section.data;
    r := Ok(Zeros(size - n) + section.data[..n]);
    assert Zeros(0) + section.data == section.data;
  }

  /** Any field but a scalar, whose value is not the bytes it is written in. */
  method DecodeField(reader: Reader, kind: Kind) returns (r: Result<bytes>)
    requires !kind.ScalarOf?
    modifies reader
    ensures Reads(GetField(kind, old(reader.data)), r, reader.data)
  {
    hide CurveOf, PointCurve, PointOk, MpintOk;
    match kind {
      case Octet =>
        var x :- reader.ReadU8();
        r := Ok([x]);
      case Anything =>
        r := reader.ReadStr();
      case Text =>
        r := reader.ReadText();
      case Exactly(n) =>
        r := DecodeFixed(reader, n);
      case Integer =>
        var m :- reader.ReadStr();
        r := if MpintOk(m) then Ok(m) else Err(MpintEncoding);
      case CurveName =>
        r := DecodeCurve(reader);
      case P256Name =>
        r := DecodeP256(reader);
      case CurvePoint =>
        r := DecodePoint(reader);
      case P256Point =>
        var point :- reader.ReadStr();
        r := if |point| > 65 then Err(Length) else if PointOk(point, 32) then Ok(point) else Err(Sec1);
    }
  }

  method DecodeOne(reader: Reader, kind: Kind) returns (r: Result<seq<bytes>>)
    requires !kind.ScalarOf?
    modifies reader
    ensures Reads(GetFields([kind], old(reader.data)), r, reader.data)
  {
    hide GetField, GetFields;
    OneField(kind, reader.data);
    var s :- DecodeField(reader, kind);
    r := Ok([s]);
  }

  method DecodeTwo(reader: Reader, a: Kind, b: Kind) returns (r: Result<seq<bytes>>)
    requires !a.ScalarOf? && !b.ScalarOf?
    modifies reader
    ensures Reads(GetFields([a, b], old(reader.data)), r, reader.data)
  {
    hide GetFields;
    assert [a] + [b] == [a, b];
    BothFields([a], [b], reader.data);
    var f :- DecodeOne(reader, a);
    var g :- DecodeOne(reader, b);
    r := Ok(f + g);
  }

  method DecodeThree(reader: Reader, a: Kind, b: Kind, c: Kind) returns (r: Result<seq<bytes>>)
    requires !a.ScalarOf? && !b.ScalarOf? && !c.ScalarOf?
    modifies reader
    ensures Reads(GetFields([a, b, c], old(reader.data)), r, reader.data)
  {
    hide GetFields;
    assert [a, b] + [c] == [a, b, c];
    BothFields([a, b], [c], reader.data);
    var f :- DecodeTwo(reader, a, b);
    var g :- DecodeOne(reader, c);
    r := Ok(f + g);
  }

  method DecodeFourIntegers(reader: Reader) returns (r: Result<seq<bytes>>)
    modifies reader
    ensures Reads(GetFields([Integer, Integer, Integer, Integer], old(reader.data)), r, reader.data)
  {
    hide GetFields;
    assert [Integer, Integer] + [Integer, Integer] == [Integer, Integer, Integer, Integer];
    BothFields([Integer, Integer], [Integer, Integer], reader.data);
    var f :- DecodeTwo(reader, Integer, Integer);
    var g :- DecodeTwo(reader, Integer, Integer);
    r := Ok(f + g);
  }

  // ---------- Keys and certificates ----------

  /** The fields of a key, one after the other. */
  method DecodeKeyFields(reader: Reader, alg: Algorithm) returns (r: Result<seq<bytes>>)
    modifies reader
    ensures Reads(GetFields(KeyKinds(alg), old(reader.data)), r, reader.data)
    ensures r.Ok? ==> |r.value| == |KeyKinds(alg)|
  {
    hide GetFields;
    match alg {
      case Dsa =>
        r := DecodeFourIntegers(reader);
      case Ecdsa(_) =>
        r := DecodeTwo(reader, CurveName, CurvePoint);
      case Ed25519 =>
        r := DecodeOne(reader, Exactly(32));
      case Rsa(_) =>
        r := DecodeTwo(reader, Integer, Integer);
      case SkEcdsaSha2NistP256 =>
        r := DecodeThree(reader, P256Name, P256Point, Text);
      case SkEd25519 =>
        r := DecodeTwo(reader, Exactly(32), Text);
      case Other(_) =>
        r := DecodeOne(reader, Anything);
    }
  }

  method DecodeKeyBody(reader: Reader, alg: Algorithm) returns (r: Result<KeyData>)
    modifies reader
    ensures Reads(GetKeyBody(alg, old(reader.data)), r, reader.data)
  {
    hide GetFields, KeyOf, KeyKinds;
    var fields :- DecodeKeyFields(reader, alg);
    r := KeyOf(alg, fields);
  }

  method DecodeCertType(reader: Reader) returns (r: Result<CertType>)
    modifies reader
    ensures Reads(GetCertType(old(reader.data)), r, reader.data)
  {
    var n :- reader.ReadU32();
    r := if n == 1 then Ok(User) else if n == 2 then Ok(Host) else Err(FormatEncoding);
  }

  method DecodeIdentity(reader: Reader, alg: Algorithm) returns (r: Result<Identity>)
    modifies reader
    ensures Reads(GetIdentity(old(reader.data), alg), r, reader.data)
  {
    hide GetKeyBody, GetCertType;
    var nonce :- reader.ReadStr();
    var publicKey :- DecodeKeyBody(reader, alg);
    var serial :- reader.ReadU64();
    var certType :- DecodeCertType(reader);
    var keyId :- reader.ReadText();
    r := Ok(Identity(nonce, publicKey, serial, certType, keyId));
  }

  method DecodeConstraints(reader: Reader) returns (r: Result<Constraints>)
    modifies reader
    ensures Reads(GetConstraints(old(reader.data)), r, reader.data)
  {
    hide GetStr, GetU64, Options.Get, GetTextList;
    var p :- reader.ReadStr();
    var principals :- GetTextList(p);
    var validAfter :- reader.ReadU64();
    var validBefore :- reader.ReadU64();
    var crit :- reader.ReadStr();
    var criticalOptions :- Options.Decode(crit);
    var ext :- reader.ReadStr();
    var extensions :- Options.Decode(ext);
    var reserved :- reader.ReadStr();
    r := Ok(Constraints(principals, validAfter, validBefore, criticalOptions, extensions, reserved));
  }

  /** A key is read by its name; the name of a certificate leads to the certificate decoder. */
  method DecodeKey(reader: Reader) returns (r: Result<KeyData>)
    modifies reader
    ensures Reads(GetKey(old(reader.data)), r, reader.data)
    decreases |reader.data|, 1
  {
    hide GetAlgorithm, NewCertificate, GetKeyBody;
    var alg :- DecodeAlgorithm(reader);
    if alg.Other? && NewCertificate(alg.name).Ok? {
      var c :- DecodeCertAs(reader, NewCertificate(alg.name).value);
      r := Ok(CertificateKey(c));
    } else {
      r := DecodeKeyBody(reader, alg);
    }
  }

  method DecodeCertAs(reader: Reader, alg: Algorithm) returns (r: Result<Certificate>)
    modifies reader
    ensures Reads(GetCertAs(old(reader.data), alg), r, reader.data)
    decreases |reader.data|, 0
  {
    hide GetIdentity, GetConstraints, Signatures.Decode, GetStr, GetKey;
    var identity :- DecodeIdentity(reader, alg);
    var constraints :- DecodeConstraints(reader);
    var keySection :- reader.ReadSection();
    var key :- DecodeKey(keySection);
    var signatureKey :- keySection.Finished(key);
    var sigSection :- reader.ReadSection();
    var sig :- DecodeSignature(sigSection);
    var signature :- sigSection.Finished(sig);
    r := Ok(Certificate(MakeFields(identity, constraints), signatureKey, signature, []));
  }

  method DecodeCert(reader: Reader) returns (r: Result<Certificate>)
    modifies reader
    ensures Reads(GetCert(old(reader.data)), r, reader.data)
  {
    hide NewCertificate;
    var id :- reader.ReadText();
    var alg :- NewCertificate(id);
    r := DecodeCertAs(reader, alg);
  }

  method DecodeHashAlg(reader: Reader) returns (r: Result<HashAlg>)
    modifies reader
    ensures Reads(SshSigs.GetHashAlg(old(reader.data)), r, reader.data)
  {
    var id :- reader.ReadText();
    r := if id == SshSigs.SHA256 then Ok(Sha256) else if id == SshSigs.SHA512 then Ok(Sha512) else Err(Label);
  }

  method DecodeSshSig(reader: Reader) returns (r: Result<SshSigs.SshSig>)
    modifies reader
    ensures Reads(SshSigs.Decode(old(reader.data)), r, reader.data)
  {
    hide GetKey, Signatures.Decode, SshSigs.GetHashAlg, GetStr, GetU32, GetText, Take;
    var magic :- reader.Read(|SshSigs.MAGIC_PREAMBLE|);
    if magic != SshSigs.MAGIC_PREAMBLE {
      return Err(FormatEncoding);
    }
    var version :- reader.ReadU32();
    if version > SshSigs.VERSION {
      return Err(Version);
    }
    var keySection :- reader.ReadSection();
    var k :- DecodeKey(keySection);
    var publicKey :- keySection.Finished(k);
    var namespace :- reader.ReadText();
    if namespace == [] {
      return Err(Namespace);
    }
    var reserved :- reader.ReadStr();
    var hashAlg :- DecodeHashAlg(reader);
    var sigSection :- reader.ReadSection();
    var s :- DecodeSignature(sigSection);
    var signature :- sigSection.Finished(s);
    r := Ok(SshSigs.SshSig(version, publicKey, namespace, reserved, hashAlg, signature));
  }

  method DecodeKdf(reader: Reader) returns (r: Result<Kdf>)
    modifies reader
    ensures Reads(Kdfs.Get(old(reader.data)), r, reader.data)
  {
    var id :- reader.ReadText();
    if id == NONE {
      var n :- reader.ReadU32();
      r := if n == 0 then Ok(NoKdf) else Err(AlgorithmUnknown);
    } else if id == BCRYPT {
      var section :- reader.ReadSection();
      var salt :- section.ReadStr();
      var rounds :- section.ReadU32();
      r := section.Finished(Bcrypt(salt, rounds));
    } else {
      r := Err(Label);
    }
  }

  method DecodeCipher(x: Crypto, reader: Reader) returns (r: Result<Cipher>)
    modifies reader
    ensures Reads(GetCipher(x, old(reader.data)), r, reader.data)
  {
    var id :- reader.ReadText();
    var c := x.byName(id);
    r := if c.Some? then Ok(c.value) else Err(Label);
  }

  method DecodeSecret(x: Crypto, reader: Reader, k: KeyData) returns (r: Result<Secret>)
    modifies reader
    ensures Reads(GetSecretHalf(x, k, old(reader.data)), r, reader.data)
  {
    hide GetFields, GetField, Positive;
    match k {
      case DsaKey(_, _, _, _) =>
        var f :- DecodeOne(reader, Integer);
        r := if Positive(f[0]) then Ok(Exponent(f[0])) else Err(FormatEncoding);
      case EcdsaKey(c, _) =>
        ScalarSecret(x, k, reader.data);
        var d :- DecodeScalar(reader, c);
        r := Ok(Scalar(d));
      case Ed25519Key(pk) =>
        r := DecodeSeed(x, reader, pk);
      case RsaKey(_, _) =>
        var f :- DecodeFourIntegers(reader);
        r := if Positive(f[0]) && Positive(f[1]) && Positive(f[2]) && Positive(f[3])
             then Ok(Factors(f[0], f[1], f[2], f[3])) else Err(FormatEncoding);
      case SkEcdsaKey(_, _) =>
        r := DecodeHandle(x, reader, k);
      case SkEd25519Key(_, _) =>
        r := DecodeHandle(x, reader, k);
      case OtherKey(_, _) =>
        var f :- DecodeOne(reader, Anything);
        r := Ok(OpaqueSecret(f[0]));
      case CertificateKey(_) =>
        r := Err(AlgorithmUnknown);
        CertificateHasNoSecret(x, k, reader.data);
    }
  }

  lemma CertificateHasNoSecret(x: Crypto, k: KeyData, b: bytes)
    requires k.CertificateKey?
    ensures GetSecretHalf(x, k, b) == Err(AlgorithmUnknown)
  {
  }

  lemma ScalarSecret(x: Crypto, k: KeyData, b: bytes)
    requires k.EcdsaKey?
    ensures match GetField(ScalarOf(k.curve), b)
            case Err(e) => GetSecretHalf(x, k, b) == Err(e)
            case Ok((f, rest)) =>
              && (|f| <= FieldSize(k.curve) || (|f| == FieldSize(k.curve) + 1 && f[0] == 0))
              && GetSecretHalf(x, k, b) == Ok((Scalar(ScalarValue(f, FieldSize(k.curve))), rest))
  {
    hide ScalarValue;
    OneField(ScalarOf(k.curve), b);
  }

  method DecodeSeed(x: Crypto, reader: Reader, pk: bytes) returns (r: Result<Secret>)
    modifies reader
    ensures Reads(GetSecretHalf(x, Ed25519Key(pk), old(reader.data)), r, reader.data)
  {
    hide GetField;
    OneField(Exactly(64), reader.data);
    var both :- DecodeField(reader, Exactly(64));
    var seed, own := both[..32], both[32..];
    if x.publicOf(seed) != own || own != pk {
      return Err(Error.Crypto);
    }
    r := Ok(Seed(seed));
  }

  method DecodeHandle(x: Crypto, reader: Reader, k: KeyData) returns (r: Result<Secret>)
    requires k.SkEcdsaKey? || k.SkEd25519Key?
    modifies reader
    ensures Reads(GetSecretHalf(x, k, old(reader.data)), r, reader.data)
  {
    hide GetFields;
    var f :- DecodeThree(reader, Octet, Anything, Anything);
    r := HandleOf(f);
  }

  /** The public half, where RSA has its modulus first and ECDSA any curve, then the secret one. */
  method DecodePair(x: Crypto, reader: Reader) returns (r: Result<Keypair>)
    modifies reader
    ensures Reads(GetPair(x, old(reader.data)), r, reader.data)
  {
    hide GetAlgorithm, GetFields, HalfOf, KeyKinds, GetSecretHalf, KeyAlgorithm;
    var alg :- DecodeAlgorithm(reader);
    var fields :- DecodeKeyFields(reader, alg);
    var public :- HalfOf(alg, fields);
    var secret :- DecodeSecret(x, reader, public);
    if alg.Ecdsa? && KeyAlgorithm(public) != alg {
      return Err(AlgorithmUnknown);
    }
    r := Ok(Pair(public, secret));
  }

  /** Checkints, pair, comment and padding of an unencrypted section. */
  method DecodeSection(x: Crypto, reader: Reader, publicKey: KeyData, blockSize: nat, maxPadding: nat)
    returns (r: Result<PrivateKeys.PrivateKey>)
    requires 1 <= blockSize && maxPadding <= MAX_BLOCK_SIZE
    modifies reader
    ensures r == PrivateKeys.GetSection(x, old(reader.data), publicKey, blockSize, maxPadding)
    ensures r.Ok? ==> reader.data == []
  {
    hide GetPair, GetU32, GetStr;
    if |reader.data| % blockSize != 0 {
      return Err(Length);
    }
    var checkint1 :- reader.ReadU32();
    var checkint2 :- reader.ReadU32();
    if checkint1 != checkint2 {
      return Err(Error.Crypto);
    }
    var pair :- DecodePair(x, reader);
    var ownKey :- PublicOf(pair);
    if publicKey != ownKey {
      return Err(Error.PublicKey);
    }
    var comment :- reader.ReadStr();
    var paddingLen := |reader.data|;
    if paddingLen > maxPadding {
      return Err(Length);
    }
    if paddingLen != 0 {
      assert reader.data[..paddingLen] == reader.data;
      var padding := reader.Read(paddingLen);
      PrivateKeys.PaddingIsPrefix(paddingLen);
      if padding != Ok(PrivateKeys.PADDING_BYTES[..paddingLen]) {
        return Err(FormatEncoding);
      }
    }
    r := Ok(PrivateKeys.PrivateKey(Plain, NoKdf, Some(checkint1), PrivateKeys.PublicKey.PublicKey(publicKey, comment),
                                   pair, None));
  }

  method DecodeHeader(x: Crypto, reader: Reader) returns (r: Result<PrivateKeys.Header>)
    modifies reader
    ensures Reads(PrivateKeys.GetHeader(x, old(reader.data)), r, reader.data)
  {
    hide GetKey, Kdfs.Get, GetCipher, GetStr, GetU32, Take;
    var magic :- reader.Read(|PrivateKeys.AUTH_MAGIC|);
    if magic != PrivateKeys.AUTH_MAGIC {
      return Err(FormatEncoding);
    }
    var cipher :- DecodeCipher(x, reader);
    var kdf :- DecodeKdf(reader);
    var nkeys :- reader.ReadU32();
    if nkeys != 1 {
      return Err(Length);
    }
    var keySection :- reader.ReadSection();
    var k :- DecodeKey(keySection);
    var publicKey :- keySection.Finished(k);
    r := Ok(PrivateKeys.Header(cipher, kdf, publicKey));
  }

  method DecodeEncrypted(x: Crypto, reader: Reader, h: PrivateKeys.Header) returns (r: Result<PrivateKeys.PrivateKey>)
    requires x.Blocks()
    modifies reader
    ensures r == PrivateKeys.GetEncrypted(x, h, old(reader.data))
    ensures r.Ok? ==> reader.data == []
  {
    hide GetStr;
    var ct :- reader.ReadStr();
    if |ct| % x.blockSize(h.cipher) != 0 {
      return Err(Error.Crypto);
    }
    var tag: Option<bytes> := None;
    if x.hasTag(h.cipher) {
      var t :- reader.Read(TAG_SIZE);
      tag := Some(t);
    }
    r := reader.Finished(PrivateKeys.PrivateKey(h.cipher, h.kdf, None,
                           PrivateKeys.PublicKey.PublicKey(h.publicKey, []), EncryptedPair(ct), tag));
  }

  method DecodePrivateKey(x: Crypto, reader: Reader) returns (r: Result<PrivateKeys.PrivateKey>)
    requires x.Blocks()
    modifies reader
    ensures Reads(PrivateKeys.Decode(x, old(reader.data)), r, reader.data)
  {
    hide PrivateKeys.GetHeader, PrivateKeys.GetEncrypted, PrivateKeys.GetSection, GetStr;
    var h :- DecodeHeader(x, reader);
    if h.cipher != Plain {
      r := DecodeEncrypted(x, reader, h);
      return;
    }
    if h.kdf != NoKdf {
      return Err(Error.Crypto);
    }
    var section :- reader.ReadSection();
    r := DecodeSection(x, section, h.publicKey, x.blockSize(Plain), MAX_BLOCK_SIZE);
  }
}
