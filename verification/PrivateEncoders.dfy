/** The encoders of private keys as they run, again proved to append exactly the bytes of the encoding
    functions. */
module PrivateEncoders {
  import opened Bytes
  import opened SshWire
  import opened SshReader
  import opened Algorithms
  import opened KeyFields
  import opened Certificates
  import opened Kdfs
  import opened Keypairs
  import opened KeypairProofs
  import Encoders
  import PrivateKeys
  import PrivateKeyProofs

  // ---------- Key pairs ----------

  /** The public half, where RSA has its modulus first. */
  method EncodeHalf(w: Writer, k: KeyData) returns (ok: bool)
    requires !k.CertificateKey?
    modifies w
    ensures ok <==> EncodableKey(k)
    ensures ok ==> w.out == old(w.out) + StrList(HalfFields(k))
  {
    hide StrList;
    if k.RsaKey? {
      ok := Encoders.EncodeTwo(w, k.n, k.e);
      assert PlainFields(k)[0] == k.e && PlainFields(k)[1] == k.n;
    } else {
      ok := Encoders.EncodePlainKey(w, k);
    }
  }

  /** All the bytes of a scalar, after a zero when the first one is large. */
  method EncodeScalar(w: Writer, d: bytes)
    requires d != [] && |d| <= 66
    modifies w
    ensures w.out == old(w.out) + Str(ScalarField(d))
  {
    hide U32;
    var lead := d[0] >= 0x80;
    w.Write(U32((if lead then 1 else 0) + |d|));
    if lead {
      w.Write([0]);
    }
    w.Write(d);
    Glue3(old(w.out), U32((if lead then 1 else 0) + |d|), [0], d);
    Glue2(old(w.out), U32((if lead then 1 else 0) + |d|), d);
  }

  method EncodeHandle(w: Writer, flags: byte, handle: bytes, reserved: bytes) returns (ok: bool)
    modifies w
    ensures ok <==> Fits(handle) && Fits(reserved)
    ensures ok ==> w.out == old(w.out) + EncFields([Octet, Anything, Anything], [[flags], handle, reserved], [])
  {
    hide Str, EncFields;
    w.Write([flags]);
    ok := Encoders.EncodeTwo(w, handle, reserved);
    HandleFields(flags, handle, reserved);
    Glue2(old(w.out), [flags], StrList([handle, reserved]));
  }

  lemma HandleFields(flags: byte, handle: bytes, reserved: bytes)
    ensures EncFields([Octet, Anything, Anything], [[flags], handle, reserved], [])
         == [flags] + StrList([handle, reserved])
  {
    hide Str, StrList;
    var kinds, f := [Octet, Anything, Anything], [[flags], handle, reserved];
    assert kinds[1..] == [Anything, Anything] && f[1..] == [handle, reserved];
    FieldsAreList([Anything, Anything], [handle, reserved], []);
    NoTail(StrList([handle, reserved]));
  }

  /** The secret half. */
  method EncodeSecretHalf(w: Writer, k: KeyData, s: Secret) returns (ok: bool)
    requires Fitting(k, s)
    modifies w
    ensures ok <==> forall i :: 0 <= i < |SecretFields(k, s)| ==> Fits(SecretFields(k, s)[i])
    ensures ok ==> w.out == old(w.out) + EncFields(SecretKinds(k), SecretFields(k, s), [])
  {
    hide StrList, EncFields, ScalarField, Str;
    ghost var f := SecretFields(k, s);
    SecretList(k, s);
    match s {
      case Exponent(x) =>
        ok := Encoders.EncodeOne(w, x);
        assert f[0] == x;
      case Scalar(d) =>
        ScalarFits(d);
        EncodeScalar(w, d);
        ok := true;
      case Seed(seed) =>
        ok := Encoders.EncodeOne(w, seed + k.pk);
        assert f[0] == seed + k.pk;
      case Factors(d, iqmp, p, q) =>
        ok := Encoders.EncodeFour(w, d, iqmp, p, q);
        assert f[0] == d && f[1] == iqmp && f[2] == p && f[3] == q;
      case Handle(flags, handle, reserved) =>
        ok := EncodeHandle(w, flags, handle, reserved);
        assert f[0] == [flags] && f[1] == handle && f[2] == reserved;
      case OpaqueSecret(key) =>
        ok := Encoders.EncodeOne(w, key);
        assert f[0] == key;
    }
  }

  lemma ScalarFits(d: bytes)
    requires d != [] && |d| <= 66
    ensures Fits(ScalarField(d)) && StrList([ScalarField(d)]) == Str(ScalarField(d))
  {
    NoTail(Str(ScalarField(d)));
  }

  lemma SecretList(k: KeyData, s: Secret)
    requires Fitting(k, s)
    ensures !s.Handle? ==> EncFields(SecretKinds(k), SecretFields(k, s), []) == StrList(SecretFields(k, s))
  {
    hide StrList, EncFields, ScalarField;
    if !s.Handle? {
      FieldsAreList(SecretKinds(k), SecretFields(k, s), []);
      NoTail(StrList(SecretFields(k, s)));
    }
  }

  method EncodePairBody(w: Writer, p: Keypair) returns (ok: bool)
    modifies w
    ensures ok <==> EncodablePair(p)
    ensures ok ==> w.out == old(w.out) + EncPairBody(p, [])
  {
    hide StrList, EncFields, SecretFields, SecretKinds, HalfFields, EncodableKey;
    match p {
      case EncryptedPair(ct) =>
        w.Write(ct);
        NoTail(ct);
        ok := true;
      case Pair(k, s) =>
        ok := EncodeHalf(w, k);
        if !ok {
          return;
        }
        ok := EncodeSecretHalf(w, k, s);
        Glue2(old(w.out), StrList(HalfFields(k)), EncFields(SecretKinds(k), SecretFields(k, s), []));
    }
  }

  method EncodePair(w: Writer, p: Keypair) returns (ok: bool)
    requires ValidPair(p)
    modifies w
    ensures ok <==> EncodablePair(p)
    ensures ok ==> w.out == old(w.out) + EncPair(p, [])
  {
    hide AsStr, Str, EncPairBody, EncodablePair, ValidKey, KeyAlgorithm;
    if p.EncryptedPair? {
      ok := EncodePairBody(w, p);
    } else {
      FittingIsPlain(p.public, p.secret);
      Encoders.NameFits(p.public);
      var name := AsStr(KeyAlgorithm(p.public));
      ok := w.WriteStr(name);
      ok := EncodePairBody(w, p);
      Glue2(old(w.out), Str(name), EncPairBody(p, []));
    }
  }

  // ---------- The container ----------

  /** Checkints, pair, comment, and as many padding bytes as fill the last block. */
  method EncodeSection(w: Writer, x: Crypto, c: Cipher, p: Keypair, comment: bytes, checkint: nat)
    returns (ok: bool)
    requires x.Blocks() && ValidPair(p)
    modifies w
    ensures ok <==> EncodablePair(p) && Fits(comment)
    ensures ok ==> w.out == old(w.out) + PrivateKeys.Section(x, c, p, comment, checkint)
  {
    hide EncPair, EncodablePair, ValidPair, PrivateKeys.UnpaddedLen, PaddingLen,
      Str, U32;
    var paddingLen := PaddingLen(x, c, PrivateKeys.UnpaddedLen(p, comment));
    var padding := PrivateKeys.PADDING_BYTES[..paddingLen];
    PrivateKeys.PaddingIsPrefix(paddingLen);
    w.Write(U32(checkint));
    w.Write(U32(checkint));
    ok := EncodePair(w, p);
    if !ok {
      return;
    }
    ok := w.WriteStr(comment);
    if !ok {
      return;
    }
    w.Write(padding);
    EncPairAppend(p, Str(comment) + padding);
    Glue5(old(w.out), U32(checkint), U32(checkint), EncPair(p, []), Str(comment), padding);
  }

  method EncodeSecret(w: Writer, x: Crypto, k: PrivateKeys.PrivateKey) returns (ok: bool)
    requires x.Blocks() && PrivateKeys.Valid(x, k)
    modifies w
    ensures ok <==> if k.keyData.EncryptedPair? then Fits(k.keyData.ciphertext)
                    else EncodablePair(k.keyData) && Fits(k.publicKey.comment)
                         && PrivateKeys.SectionLen(x, Plain, k.keyData, k.publicKey.comment) < TWO_32
    ensures ok ==> w.out == old(w.out) + PrivateKeys.EncSecret(x, k, [])
  {
    hide PrivateKeys.Section, PrivateKeys.SectionLen, EncodablePair, Str, U32;
    if k.keyData.EncryptedPair? {
      ok := w.WriteStr(k.keyData.ciphertext);
      var tag := if k.authTag.Some? then k.authTag.value else [];
      w.Write(tag);
      NoTail(tag);
      Glue2(old(w.out), Str(k.keyData.ciphertext), tag);
    } else {
      var n := PrivateKeys.SectionLen(x, Plain, k.keyData, k.publicKey.comment);
      if n >= TWO_32 {
        return false;
      }
      w.Write(U32(n));
      var checkint;
      if k.checkint.Some? {
        checkint := k.checkint.value;
      } else {
        checkint := ComputeCheckint(k.keyData);
      }
      ok := EncodeSection(w, x, Plain, k.keyData, k.publicKey.comment, checkint);
      ghost var section := PrivateKeys.Section(x, Plain, k.keyData, k.publicKey.comment, checkint);
      NoTail(section);
      Glue2(old(w.out), U32(n), section);
    }
  }

  method EncodeHeader(w: Writer, x: Crypto, h: PrivateKeys.Header) returns (ok: bool)
    requires x.Names() && ValidKey(h.publicKey)
    modifies w
    ensures ok <==> Kdfs.Encodable(h.kdf) && EncodableKey(h.publicKey) && Fits(EncKey(h.publicKey, []))
    ensures ok ==> w.out == old(w.out) + PrivateKeys.EncHeader(x, h, [])
  {
    hide EncKey, EncodableKey, ValidKey, Kdfs.Enc, Kdfs.Encodable, Str, U32;
    w.Write(PrivateKeys.AUTH_MAGIC);
    assert x.byName(x.name(h.cipher)).Some?;
    ok := w.WriteStr(x.name(h.cipher));
    ok := Encoders.EncodeKdf(w, h.kdf);
    if !ok {
      return;
    }
    w.Write(U32(1));
    ok := Encoders.EncodePrefixedKey(w, h.publicKey);
    ghost var key := Str(EncKey(h.publicKey, []));
    NoTail(key);
    Kdfs.EncAppend(h.kdf, U32(1) + key);
    Glue5(old(w.out), PrivateKeys.AUTH_MAGIC, Str(x.name(h.cipher)), Kdfs.Enc(h.kdf, []), U32(1), key);
  }

  method EncodePrivateKey(w: Writer, x: Crypto, k: PrivateKeys.PrivateKey) returns (ok: bool)
    requires x.Blocks() && x.Names() && PrivateKeys.Valid(x, k)
    modifies w
    ensures ok <==> PrivateKeys.Encodable(x, k)
    ensures ok ==> w.out == old(w.out) + PrivateKeys.Enc(x, k, [])
  {
    hide EncKey, EncodableKey, PrivateKeys.EncSecret, PrivateKeys.EncHeader, PrivateKeys.SectionLen, Kdfs.Encodable;
    if !k.keyData.EncryptedPair? {
      PrivateKeyProofs.ClearKeyValid(k);
    }
    ok := EncodeHeader(w, x, PrivateKeys.HeaderOf(k));
    if ok {
      ok := EncodeSecret(w, x, k);
      ghost var h := PrivateKeys.HeaderOf(k);
      PrivateKeyProofs.HeaderAppend(x, h, PrivateKeys.EncSecret(x, k, []));
      Glue2(old(w.out), PrivateKeys.EncHeader(x, h, []), PrivateKeys.EncSecret(x, k, []));
    }
  }
}
