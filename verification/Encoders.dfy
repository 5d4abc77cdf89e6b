/** The encoders as they run: each appends to a writer. Every one is proved to append exactly the bytes
    of its encoding function, and to fail exactly when some length does not fit its prefix or, where the
    code panics, when a certificate has no name. */
module Encoders {
  import opened Bytes
  import opened SshWire
  import opened SshReader
  import opened Algorithms
  import opened KeyFields
  import opened Certificates
  import opened Kdfs
  import CertificateProofs
  import CertificateResults
  import Options = CertOptions
  import Signatures
  import SshSigs

  // ---------- Raw signatures and key derivation settings ----------

  /** The signature bytes; the trailer of a security key's signature follows them unprefixed. */
  method EncodeSignatureData(w: Writer, sk: bool, data: bytes) returns (ok: bool)
    modifies w
    ensures ok <==> && (sk ==> |data| >= Signatures.SK_SIGNATURE_TRAILER_SIZE)
                    && |data| - (if sk then Signatures.SK_SIGNATURE_TRAILER_SIZE else 0) < TWO_32
    ensures ok ==> w.out == old(w.out) + Signatures.EncData(sk, data, [])
  {
    hide Str;
    if !sk {
      ok := w.WriteStr(data);
      NoTail(Str(data));
      return;
    }
    if |data| < Signatures.SK_SIGNATURE_TRAILER_SIZE {
      return false;
    }
    var n := |data| - Signatures.SK_SIGNATURE_TRAILER_SIZE;
    ok := w.WriteStr(data[..n]);
    if ok {
      w.Write(data[n..]);
      NoTail(data[n..]);
      Glue2(old(w.out), Str(data[..n]), data[n..]);
    }
  }

  /** A placeholder, and a security key's signature without room for its trailer, cannot be written. */
  method EncodeSignature(w: Writer, s: Signatures.Signature) returns (ok: bool)
    modifies w
    ensures ok <==> Signatures.Encode(s).Ok?
    ensures ok ==> w.out == old(w.out) + Signatures.Encode(s).value
  {
    hide AsStr, Str, Signatures.EncData;
    if Signatures.IsPlaceholder(s) {
      return false;
    }
    ok := w.WriteStr(AsStr(s.alg));
    if !ok {
      return;
    }
    var sk := Signatures.IsSk(s.alg);
    ok := EncodeSignatureData(w, sk, s.data);
    if ok {
      Glue2(old(w.out), Str(AsStr(s.alg)), Signatures.EncData(sk, s.data, []));
    }
  }

  method EncodeKdf(w: Writer, k: Kdf) returns (ok: bool)
    modifies w
    ensures ok <==> Kdfs.Encodable(k)
    ensures ok ==> w.out == old(w.out) + Kdfs.Enc(k, [])
  {
    hide Str, U32;
    ok := w.WriteStr(AlgName(k));
    match k {
      case NoKdf =>
        w.Write(U32(0));
        NoTail(U32(0));
        Glue2(old(w.out), Str(NONE), U32(0));
      case Bcrypt(salt, rounds) =>
        if 8 + |salt| >= TWO_32 {
          return false;
        }
        w.Write(U32(8 + |salt|));
        ok := w.WriteStr(salt);
        w.Write(U32(rounds));
        NoTail(U32(rounds));
        Glue4(old(w.out), Str(BCRYPT), U32(8 + |salt|), Str(salt), U32(rounds));
    }
  }

  // ---------- Certificates ----------

  /** One option; its data, if any, is prefixed twice. */
  method EncodeOption(w: Writer, e: Options.Entry) returns (ok: bool)
    modifies w
    ensures ok <==> Fits(e.name) && Fits(Str(e.data))
    ensures ok ==> w.out == old(w.out) + (Str(e.name) + Str(Options.Wrapped(e.data)))
  {
    ok := w.WriteStr(e.name);
    if !ok {
      return;
    }
    if e.data == [] {
      w.Write(U32(0));
    } else {
      if 4 + |e.data| >= TWO_32 {
        return false;
      }
      w.Write(U32(4 + |e.data|));
      ok := w.WriteStr(e.data);
      Glue2(old(w.out) + Str(e.name), U32(4 + |e.data|), Str(e.data));
    }
    Glue2(old(w.out), Str(e.name), Str(Options.Wrapped(e.data)));
  }

  method EncodeEntries(w: Writer, es: seq<Options.Entry>) returns (ok: bool)
    modifies w
    ensures ok <==> Options.Encodable(es)
    ensures ok ==> w.out == old(w.out) + Options.Enc(es)
  {
    hide Str, Options.Wrapped, Options.Enc;
    assert es[0..] == es;
    for i := 0 to |es|
      invariant forall j :: 0 <= j < i ==> Fits(es[j].name) && Fits(Str(es[j].data))
      invariant w.out + Options.Enc(es[i..]) == old(w.out) + Options.Enc(es)
    {
      ghost var before := w.out;
      ok := EncodeOption(w, es[i]);
      if !ok {
        return;
      }
      OneOption(es, i, before);
    }
    NoOptions(es, w.out);
    ok := true;
  }

  lemma OneOption(es: seq<Options.Entry>, i: nat, o: bytes)
    requires i < |es|
    ensures (o + (Str(es[i].name) + Str(Options.Wrapped(es[i].data)))) + Options.Enc(es[i + 1..])
         == o + Options.Enc(es[i..])
  {
    assert es[i..][1..] == es[i + 1..];
  }

  lemma NoOptions(es: seq<Options.Entry>, o: bytes)
    ensures o + Options.Enc(es[|es|..]) == o
  {
  }

  /** The options in order, behind their announced total length. */
  method EncodeOptions(w: Writer, es: seq<Options.Entry>) returns (ok: bool)
    modifies w
    ensures ok <==> Options.Encodable(es) && Fits(Options.Enc(es))
    ensures ok ==> w.out == old(w.out) + Str(Options.Enc(es))
  {
    hide Options.Enc;
    Options.EncLength(es);
    if Options.EncodedLen(es) >= TWO_32 {
      return false;
    }
    w.Write(U32(Options.EncodedLen(es)));
    ok := EncodeEntries(w, es);
    Glue2(old(w.out), U32(Options.EncodedLen(es)), Options.Enc(es));
  }

  method EncodeItems(w: Writer, items: seq<bytes>) returns (ok: bool)
    modifies w
    ensures ok <==> forall i :: 0 <= i < |items| ==> Fits(items[i])
    ensures ok ==> w.out == old(w.out) + StrList(items)
  {
    hide Str, StrList;
    assert items[0..] == items;
    for i := 0 to |items|
      invariant forall j :: 0 <= j < i ==> Fits(items[j])
      invariant w.out + StrList(items[i..]) == old(w.out) + StrList(items)
    {
      ghost var before := w.out;
      ok := w.WriteStr(items[i]);
      if !ok {
        return;
      }
      OneItem(items, i, before);
    }
    NoItems(items, w.out);
    ok := true;
  }

  lemma OneItem(items: seq<bytes>, i: nat, o: bytes)
    requires i < |items|
    ensures (o + Str(items[i])) + StrList(items[i + 1..]) == o + StrList(items[i..])
  {
    assert items[i..][1..] == items[i + 1..];
  }

  lemma NoItems(items: seq<bytes>, o: bytes)
    ensures o + StrList(items[|items|..]) == o
  {
  }

  method EncodePrincipals(w: Writer, items: seq<bytes>) returns (ok: bool)
    modifies w
    ensures ok <==> (forall i :: 0 <= i < |items| ==> Fits(items[i])) && Fits(StrList(items))
    ensures ok ==> w.out == old(w.out) + Str(StrList(items))
  {
    hide StrList;
    CertificateProofs.StrListLength(items);
    var n := CertificateProofs.TextListLen(items);
    if n >= TWO_32 {
      return false;
    }
    w.Write(U32(n));
    ok := EncodeItems(w, items);
    Glue2(old(w.out), U32(n), StrList(items));
  }

  // ---------- The fields of keys ----------

  method EncodeTwo(w: Writer, a: bytes, b: bytes) returns (ok: bool)
    modifies w
    ensures ok <==> Fits(a) && Fits(b)
    ensures ok ==> w.out == old(w.out) + StrList([a, b])
  {
    hide Str;
    ok := w.WriteStr(a);
    if ok {
      ok := w.WriteStr(b);
      Listed([a], b);
      Listed([], a);
      Glue2(old(w.out), Str(a), Str(b));
    }
  }

  method EncodeThree(w: Writer, a: bytes, b: bytes, c: bytes) returns (ok: bool)
    modifies w
    ensures ok <==> Fits(a) && Fits(b) && Fits(c)
    ensures ok ==> w.out == old(w.out) + StrList([a, b, c])
  {
    hide Str, StrList;
    ok := EncodeTwo(w, a, b);
    if ok {
      ok := w.WriteStr(c);
      Listed([a, b], c);
      assert [a, b] + [c] == [a, b, c];
      Glue2(old(w.out), StrList([a, b]), Str(c));
    }
  }

  method EncodeFour(w: Writer, a: bytes, b: bytes, c: bytes, d: bytes) returns (ok: bool)
    modifies w
    ensures ok <==> Fits(a) && Fits(b) && Fits(c) && Fits(d)
    ensures ok ==> w.out == old(w.out) + StrList([a, b, c, d])
  {
    hide Str, StrList;
    ok := EncodeThree(w, a, b, c);
    if ok {
      ok := w.WriteStr(d);
      Listed([a, b, c], d);
      assert [a, b, c] + [d] == [a, b, c, d];
      Glue2(old(w.out), StrList([a, b, c]), Str(d));
    }
  }

  lemma {:induction false} Listed(items: seq<bytes>, s: bytes)
    ensures StrList(items + [s]) == StrList(items) + Str(s)
  {
    hide Str;
    if items == [] {
      assert [] + [s] == [s];
      NoTail(Str(s));
      FromStart(Str(s));
    } else {
      Listed(items[1..], s);
      assert (items + [s])[1..] == items[1..] + [s];
      Glue2(Str(items[0]), StrList(items[1..]), Str(s));
    }
  }

  /** The fields of a plain key, one after the other. */
  method EncodePlainKey(w: Writer, k: KeyData) returns (ok: bool)
    requires !k.CertificateKey?
    modifies w
    ensures ok <==> forall i :: 0 <= i < |PlainFields(k)| ==> Fits(PlainFields(k)[i])
    ensures ok ==> w.out == old(w.out) + StrList(PlainFields(k))
  {
    hide StrList, CurveLabel;
    ghost var f := PlainFields(k);
    match k {
      case DsaKey(p, q, g, y) =>
        ok := EncodeFour(w, p, q, g, y);
        assert f[0] == p && f[1] == q && f[2] == g && f[3] == y;
      case EcdsaKey(c, point) =>
        ok := EncodeTwo(w, CurveLabel(c), point);
        assert f[0] == CurveLabel(c) && f[1] == point;
      case Ed25519Key(pk) =>
        ok := EncodeOne(w, pk);
        assert f[0] == pk;
      case RsaKey(e, n) =>
        ok := EncodeTwo(w, e, n);
        assert f[0] == e && f[1] == n;
      case SkEcdsaKey(point, app) =>
        ok := EncodeThree(w, CurveLabel(NistP256), point, app);
        assert f[0] == CurveLabel(NistP256) && f[1] == point && f[2] == app;
      case SkEd25519Key(pk, app) =>
        ok := EncodeTwo(w, pk, app);
        assert f[0] == pk && f[1] == app;
      case OtherKey(_, key) =>
        ok := EncodeOne(w, key);
        assert f[0] == key;
    }
  }

  method EncodeOne(w: Writer, a: bytes) returns (ok: bool)
    modifies w
    ensures ok <==> Fits(a)
    ensures ok ==> w.out == old(w.out) + StrList([a])
  {
    hide Str;
    ok := w.WriteStr(a);
    NoTail(Str(a));
  }

  method EncodeKeyBody(w: Writer, k: KeyData) returns (ok: bool)
    requires ValidKey(k)
    modifies w
    ensures ok <==> EncodableKey(k)
    ensures ok ==> w.out == old(w.out) + EncKeyBody(k, [])
    decreases k, 0
  {
    hide StrList, PlainFields;
    if k.CertificateKey? {
      ok := EncodeCert(w, k.cert);
    } else {
      ok := EncodePlainKey(w, k);
      NoTail(StrList(PlainFields(k)));
    }
  }

  method EncodeKey(w: Writer, k: KeyData) returns (ok: bool)
    requires ValidKey(k)
    modifies w
    ensures ok <==> EncodableKey(k)
    ensures ok ==> w.out == old(w.out) + EncKey(k, [])
    decreases k, 1
  {
    hide AsStr, Str, EncKeyBody;
    if !k.CertificateKey? {
      NameFits(k);
      ok := w.WriteStr(AsStr(KeyAlgorithm(k)));
    }
    ok := EncodeKeyBody(w, k);
    Glue2(old(w.out), Str(AsStr(KeyAlgorithm(k))), EncKeyBody(k, []));
  }

  lemma NameFits(k: KeyData)
    requires ValidKey(k) && !k.CertificateKey?
    ensures Fits(AsStr(KeyAlgorithm(k)))
  {
    if !k.OtherKey? {
      KnownNameOfAsStr(KeyAlgorithm(k));
    }
  }

  /** A key behind its announced length. */
  method EncodePrefixedKey(w: Writer, k: KeyData) returns (ok: bool)
    requires ValidKey(k)
    modifies w
    ensures ok <==> EncodableKey(k) && Fits(EncKey(k, []))
    ensures ok ==> w.out == old(w.out) + Str(EncKey(k, []))
    decreases k, 2
  {
    hide EncKey;
    if EncodableKey(k) {
      CertificateProofs.KeyLength(k);
    }
    if CertificateProofs.KeyLen(k) >= TWO_32 {
      return false;
    }
    w.Write(U32(CertificateProofs.KeyLen(k)));
    ok := EncodeKey(w, k);
    Glue2(old(w.out), U32(CertificateProofs.KeyLen(k)), EncKey(k, []));
  }

  method EncodePrefixedSignature(w: Writer, s: Signatures.Signature) returns (ok: bool)
    requires Signatures.Valid(s)
    modifies w
    ensures ok <==> Signatures.Encode(s).Ok? && Fits(SignatureBytes(s))
    ensures ok ==> w.out == old(w.out) + Str(SignatureBytes(s))
  {
    hide Signatures.Valid, Signatures.Encode;
    Signatures.EncodeSucceeds(s);
    if Signatures.EncodedLen(s) >= TWO_32 {
      return false;
    }
    w.Write(U32(Signatures.EncodedLen(s)));
    ok := EncodeSignature(w, s);
    Glue2(old(w.out), U32(Signatures.EncodedLen(s)), SignatureBytes(s));
  }

  method EncodeIdentity(w: Writer, f: Fields) returns (ok: bool)
    requires ValidFields(f)
    modifies w
    ensures ok <==> Fits(f.nonce) && EncodableKey(f.publicKey) && Fits(f.keyId)
    ensures ok ==> w.out == old(w.out) + EncIdentity(f, [])
    decreases f, 0
  {
    hide EncKeyBody, EncodableKey, Str, U32, U64;
    ok := w.WriteStr(f.nonce);
    if !ok {
      return;
    }
    ok := EncodeKeyBody(w, f.publicKey);
    if !ok {
      return;
    }
    w.Write(U64(f.serial));
    w.Write(U32(CertTypeCode(f.certType)));
    ok := w.WriteStr(f.keyId);
    NoTail(Str(f.keyId));
    CertificateProofs.EncKeyBodyAppend(f.publicKey,
      U64(f.serial) + (U32(CertTypeCode(f.certType)) + Str(f.keyId)));
    Glue5(old(w.out), Str(f.nonce), EncKeyBody(f.publicKey, []), U64(f.serial), U32(CertTypeCode(f.certType)),
          Str(f.keyId));
  }

  method EncodeConstraints(w: Writer, f: Fields) returns (ok: bool)
    modifies w
    ensures ok <==>
      && (forall i :: 0 <= i < |f.principals| ==> Fits(f.principals[i])) && Fits(StrList(f.principals))
      && Options.Encodable(f.criticalOptions) && Fits(Options.Enc(f.criticalOptions))
      && Options.Encodable(f.extensions) && Fits(Options.Enc(f.extensions))
      && Fits(f.reserved)
    ensures ok ==> w.out == old(w.out) + EncConstraints(f, [])
  {
    hide Options.Enc, Options.Encodable, StrList, Str, U64;
    ok := EncodePrincipals(w, f.principals);
    if !ok {
      return;
    }
    w.Write(U64(f.validAfter));
    w.Write(U64(f.validBefore));
    ok := EncodeOptions(w, f.criticalOptions);
    if !ok {
      return;
    }
    ok := EncodeOptions(w, f.extensions);
    if !ok {
      return;
    }
    ok := w.WriteStr(f.reserved);
    NoTail(Str(f.reserved));
    Glue6(old(w.out), Str(StrList(f.principals)), U64(f.validAfter), U64(f.validBefore),
          Str(Options.Enc(f.criticalOptions)), Str(Options.Enc(f.extensions)), Str(f.reserved));
  }

  /** Fails where the code panics, on a certified key without a certificate name. */
  method EncodeTbs(w: Writer, c: Certificate) returns (ok: bool)
    requires ValidCert(c)
    modifies w
    ensures ok <==> CertificateResults.EncodableTbs(c)
    ensures ok ==> w.out == old(w.out) + EncTbs(c, [])
    decreases c, 0
  {
    hide EncKey, EncIdentity, EncConstraints, EncTbs, EncodableKey, Str;
    var id := ToCertificateType(KeyAlgorithm(c.fields.publicKey));
    if id.None? {
      return false;
    }
    SshSigs.CertNameShort(c.fields.publicKey);
    ok := w.WriteStr(id.value);
    ok := EncodeIdentity(w, c.fields);
    if !ok {
      return;
    }
    ok := EncodeConstraints(w, c.fields);
    if !ok {
      return;
    }
    ok := EncodePrefixedKey(w, c.signatureKey);
    CertificateProofs.TbsParts(c, []);
    NoTail(Str(EncKey(c.signatureKey, [])));
    Glue4(old(w.out), Str(CertName(c)), EncIdentity(c.fields, []), EncConstraints(c.fields, []),
          Str(EncKey(c.signatureKey, [])));
  }

  method EncodeCert(w: Writer, c: Certificate) returns (ok: bool)
    requires ValidCert(c)
    modifies w
    ensures ok <==> EncodableCert(c)
    ensures ok ==> w.out == old(w.out) + EncCert(c, [])
    decreases c, 1
  {
    hide EncTbs, EncCert, SignatureBytes, Str, EncKey;
    ok := EncodeTbs(w, c);
    if !ok {
      return;
    }
    ok := EncodePrefixedSignature(w, c.signature);
    CertificateProofs.CertIsTbsThenSignature(c);
    Glue2(old(w.out), EncTbs(c, []), Str(SignatureBytes(c.signature)));
  }

  // ---------- Signatures of messages ----------

  /** The fields after the key. */
  method EncodeSshSigTail(w: Writer, s: SshSigs.SshSig) returns (ok: bool)
    requires Signatures.Valid(s.signature)
    modifies w
    ensures ok <==> Fits(s.namespace) && Fits(s.reserved)
                    && Signatures.Encode(s.signature).Ok? && Fits(SignatureBytes(s.signature))
    ensures ok ==> w.out == old(w.out) + SshSigs.EncTail(s, [])
  {
    hide SignatureBytes, Signatures.Encode, Str;
    ok := w.WriteStr(s.namespace);
    if !ok {
      return;
    }
    ok := w.WriteStr(s.reserved);
    if !ok {
      return;
    }
    ok := w.WriteStr(SshSigs.HashName(s.hashAlg));
    ok := EncodePrefixedSignature(w, s.signature);
    NoTail(Str(SignatureBytes(s.signature)));
    Glue4(old(w.out), Str(s.namespace), Str(s.reserved), Str(SshSigs.HashName(s.hashAlg)),
          Str(SignatureBytes(s.signature)));
  }

  method EncodeSshSig(w: Writer, s: SshSigs.SshSig) returns (ok: bool)
    requires SshSigs.Valid(s)
    modifies w
    ensures ok <==> SshSigs.Encodable(s)
    ensures ok ==> w.out == old(w.out) + SshSigs.Enc(s, [])
  {
    hide EncKey, EncodableKey, SignatureBytes, Signatures.Encode, SshSigs.EncTail, Str, U32;
    w.Write(SshSigs.MAGIC_PREAMBLE);
    w.Write(U32(s.version));
    ok := EncodePrefixedKey(w, s.publicKey);
    if !ok {
      return;
    }
    ok := EncodeSshSigTail(w, s);
    Glue4(old(w.out), SshSigs.MAGIC_PREAMBLE, U32(s.version), Str(EncKey(s.publicKey, [])), SshSigs.EncTail(s, []));
  }

  method EncodeSignedData(namespace: bytes, reserved: bytes, h: HashAlg, hash: bytes) returns (r: Result<bytes>)
    ensures r == if Fits(namespace) && Fits(reserved) && Fits(hash)
                 then Ok(SshSigs.SignedData(namespace, reserved, h, hash)) else Err(Length)
  {
    hide Str, SshSigs.HashName;
    var w := new Writer();
    w.Write(SshSigs.MAGIC_PREAMBLE);
    var ok := w.WriteStr(namespace);
    if !ok {
      return Err(Length);
    }
    ok := w.WriteStr(reserved);
    if !ok {
      return Err(Length);
    }
    ok := w.WriteStr(SshSigs.HashName(h));
    ok := w.WriteStr(hash);
    if !ok {
      return Err(Length);
    }
    Glue5([], SshSigs.MAGIC_PREAMBLE, Str(namespace), Str(reserved), Str(SshSigs.HashName(h)), Str(hash));
    FromStart(SshSigs.SignedData(namespace, reserved, h, hash));
    r := Ok(w.out);
  }
}
