/** Low-level SSH signatures: an algorithm and algorithm-specific bytes. Security-key signatures keep
    their five-byte trailer (flags and counter) at the end of those bytes, but write it after them. */
module Signatures {
  import opened Bytes
  import opened SshWire
  import opened Algorithms

  const DSA_SIGNATURE_SIZE: nat := 40

  const ED25519_SIGNATURE_SIZE: nat := 64

  const SK_SIGNATURE_TRAILER_SIZE: nat := 5

  const SK_ED25519_SIGNATURE_SIZE: nat := 69

  datatype Signature = Signature(alg: Algorithm, data: bytes)

  predicate IsSk(a: Algorithm) {
    a == SkEd25519 || a == SkEcdsaSha2NistP256
  }

  // ---------- Checking ECDSA signatures ----------

  /** One mpint: positive and no wider than the field. */
  function Component(b: bytes, curve: EcdsaCurve): Result<bytes> {
    var (m, rest) :- GetMpint(b);
    match AsPositive(m)
    case None => Err(FormatEncoding)
    case Some(magnitude) => if |magnitude| > FieldSize(curve) then Err(Length) else Ok(rest)
  }

  /** Two components, the trailer if there is one, and nothing else. */
  function SigSize(data: bytes, curve: EcdsaCurve, skTrailer: bool): Result<()> {
    var afterR :- Component(data, curve);
    var afterS :- Component(afterR, curve);
    var n := if skTrailer then SK_SIGNATURE_TRAILER_SIZE else 0;
    if |afterS| < n then Err(Length)
    else if |afterS| > n then Err(TrailingData)
    else Ok(())
  }

  /** A positive mpint no wider than the field. */
  predicate IsComponent(m: bytes, curve: EcdsaCurve) {
    Fits(m) && MpintOk(m) && AsPositive(m).Some? && |AsPositive(m).value| <= FieldSize(curve)
  }

  /** Two components and a trailer of the expected length make up the data. */
  ghost predicate IsSigBlob(data: bytes, curve: EcdsaCurve, skTrailer: bool, r: bytes, s: bytes, t: bytes) {
    && IsComponent(r, curve) && IsComponent(s, curve)
    && |t| == (if skTrailer then SK_SIGNATURE_TRAILER_SIZE else 0)
    && data == Str(r) + (Str(s) + t)
  }

  lemma ComponentIff(m: bytes, rest: bytes, curve: EcdsaCurve)
    requires Fits(m)
    ensures Component(Str(m) + rest, curve).Ok? <==> IsComponent(m, curve)
    ensures IsComponent(m, curve) ==> Component(Str(m) + rest, curve) == Ok(rest)
  {
    hide Str;
    GetStrOf(m, rest);
  }

  lemma ComponentInverse(b: bytes, curve: EcdsaCurve)
    requires Component(b, curve).Ok?
    ensures GetStr(b).Ok? && IsComponent(GetStr(b).value.0, curve)
    ensures b == Str(GetStr(b).value.0) + Component(b, curve).value
  {
    hide Str;
  }

  lemma SigSizeIff(data: bytes, curve: EcdsaCurve, skTrailer: bool)
    ensures SigSize(data, curve, skTrailer).Ok? <==> exists p, q, t :: IsSigBlob(data, curve, skTrailer, p, q, t)
  {
    hide Component, Str, IsComponent;
    if SigSize(data, curve, skTrailer).Ok? {
      var afterR := Component(data, curve).value;
      var afterS := Component(afterR, curve).value;
      ComponentInverse(data, curve);
      ComponentInverse(afterR, curve);
      assert IsSigBlob(data, curve, skTrailer, GetStr(data).value.0, GetStr(afterR).value.0, afterS);
    }
    if p, q, t :| IsSigBlob(data, curve, skTrailer, p, q, t) {
      ComponentFits(p, curve);
      ComponentFits(q, curve);
      ComponentIff(p, Str(q) + t, curve);
      ComponentIff(q, t, curve);
    }
  }

  lemma ComponentFits(m: bytes, curve: EcdsaCurve)
    requires IsComponent(m, curve)
    ensures Fits(m)
  {
  }

  /** Accepted data is determined by its two integers and its trailer: there is one way to write them. */
  lemma SigBlobUnique(data: bytes, r: bytes, s: bytes, data': bytes, r': bytes, s': bytes, curve: EcdsaCurve,
                      skTrailer: bool, t: bytes)
    requires IsSigBlob(data, curve, skTrailer, r, s, t) && IsSigBlob(data', curve, skTrailer, r', s', t)
    requires FromBE(AsPositive(r).value) == FromBE(AsPositive(r').value)
    requires FromBE(AsPositive(s).value) == FromBE(AsPositive(s').value)
    ensures data == data'
  {
    hide Str;
    MpintUnique(r, r');
    MpintUnique(s, s');
  }

  /** The loop accepts exactly two positive integers no wider than the field, followed by the trailer if
      one is asked for and by nothing else. */
  method EcdsaSigSize(data: bytes, curve: EcdsaCurve, skTrailer: bool) returns (r: Result<()>)
    ensures r == SigSize(data, curve, skTrailer)
    ensures r.Ok? <==> exists p, q, t :: IsSigBlob(data, curve, skTrailer, p, q, t)
  {
    SigSizeIff(data, curve, skTrailer);
    var reader := data;
    for i := 0 to 2
      invariant i == 0 ==> reader == data
      invariant i == 1 ==> Component(data, curve) == Ok(reader)
      invariant i == 2 ==> Component(data, curve).Ok? && Component(Component(data, curve).value, curve) == Ok(reader)
    {
      var component :- GetMpint(reader);
      var magnitude := AsPositive(component.0);
      if magnitude.None? {
        return Err(FormatEncoding);
      }
      if |magnitude.value| > FieldSize(curve) {
        return Err(Length);
      }
      reader := component.1;
    }
    if skTrailer {
      var trailer :- Take(reader, SK_SIGNATURE_TRAILER_SIZE);
      reader := trailer.1;
    }
    r := if reader == [] then Ok(()) else Err(TrailingData);
  }

  // ---------- Construction, encoding, decoding ----------

  function New(alg: Algorithm, data: bytes): Result<Signature> {
    match alg
    case Ecdsa(curve) =>
      var _ :- SigSize(data, curve, false);
      Ok(Signature(alg, data))
    case SkEcdsaSha2NistP256 =>
      var _ :- SigSize(data, NistP256, true);
      Ok(Signature(alg, data))
    case _ =>
      if || (alg.Dsa? && |data| == DSA_SIGNATURE_SIZE)
         || (alg.Ed25519? && |data| == ED25519_SIGNATURE_SIZE)
         || (alg.SkEd25519? && |data| == SK_ED25519_SIGNATURE_SIZE)
         || alg.Rsa?
         || (alg.Other? && data != [])
      then Ok(Signature(alg, data))
      else Err(Length)
  }

  /** The constructor accepts exactly 40 bytes for DSA, 64 for Ed25519, 69 with a trailer, what the size check of
      the curve accepts, any bytes for RSA, and at least one for a custom algorithm. */
  lemma NewIff(alg: Algorithm, data: bytes)
    ensures New(alg, data) == Ok(Signature(alg, data)) <==>
            match alg
            case Dsa => |data| == 40
            case Ed25519 => |data| == 64
            case SkEd25519 => |data| == 69
            case Ecdsa(curve) => SigSize(data, curve, false).Ok?
            case SkEcdsaSha2NistP256 => SigSize(data, NistP256, true).Ok?
            case Rsa(_) => true
            case Other(_) => |data| > 0
    ensures New(alg, data).Ok? ==> New(alg, data) == Ok(Signature(alg, data))
  {
  }

  predicate IsPlaceholder(s: Signature) {
    s.alg == Ed25519 && s.data == []
  }

  function EncodedLen(s: Signature): nat {
    (4 + |AsStr(s.alg)|) + (4 + |s.data|)
  }

  /** The signature bytes; a trailer is written after the length-prefixed part. */
  function EncData(sk: bool, data: bytes, tail: bytes): bytes
    requires sk ==> |data| >= SK_SIGNATURE_TRAILER_SIZE
  {
    if sk then
      var n := |data| - SK_SIGNATURE_TRAILER_SIZE;
      Str(data[..n]) + (data[n..] + tail)
    else
      Str(data) + tail
  }

  /** The bytes of s, followed by `tail`. */
  function Enc(s: Signature, tail: bytes): bytes
    requires IsSk(s.alg) ==> |s.data| >= SK_SIGNATURE_TRAILER_SIZE
  {
    Str(AsStr(s.alg)) + EncData(IsSk(s.alg), s.data, tail)
  }

  function Encode(s: Signature): Result<bytes> {
    if IsPlaceholder(s) || !Fits(AsStr(s.alg)) then Err(Length)
    else if IsSk(s.alg) && |s.data| < SK_SIGNATURE_TRAILER_SIZE then Err(Length)
    else if |s.data| - (if IsSk(s.alg) then SK_SIGNATURE_TRAILER_SIZE else 0) >= TWO_32 then Err(Length)
    else Ok(Enc(s, []))
  }

  /** A placeholder is never written: an Ed25519 signature is written only with data. */
  lemma EncodedIff(s: Signature)
    ensures Encode(s).Ok? <==>
            && |AsStr(s.alg)| < TWO_32
            && if s.alg == SkEd25519 || s.alg == SkEcdsaSha2NistP256 then 5 <= |s.data| < TWO_32 + 5
               else (s.alg == Ed25519 ==> |s.data| > 0) && |s.data| < TWO_32
  {
  }

  /** Reads the signature bytes, gluing the trailer back on. */
  function GetData(sk: bool, b: bytes): Parsed<bytes> {
    var (data, rest) :- GetStr(b);
    if sk then
      var (flags, rest') :- GetU8(rest);
      var (counter, rest'') :- GetU32(rest');
      Ok((data + [flags] + BE(counter, 4), rest''))
    else
      Ok((data, rest))
  }

  function Decode(b: bytes): Parsed<Signature> {
    var (alg, rest) :- GetAlgorithm(b);
    var (data, rest') :- GetData(IsSk(alg), rest);
    var s :- New(alg, data);
    Ok((s, rest'))
  }

  /** A signature as the constructor makes them, small enough to be written. */
  ghost predicate Valid(s: Signature) {
    && New(s.alg, s.data) == Ok(s)
    && (s.alg.Other? ==> ValidId(s.alg.name, MAX_ALGORITHM_NAME_LEN))
    && |s.data| - (if IsSk(s.alg) then SK_SIGNATURE_TRAILER_SIZE else 0) < TWO_32
  }

  lemma ComponentShortens(b: bytes, curve: EcdsaCurve)
    requires Component(b, curve).Ok?
    ensures |Component(b, curve).value| < |b|
  {
  }

  lemma SkHasTrailer(s: Signature)
    requires New(s.alg, s.data).Ok? && IsSk(s.alg)
    ensures |s.data| >= SK_SIGNATURE_TRAILER_SIZE
  {
    if s.alg.SkEcdsaSha2NistP256? {
      ComponentShortens(s.data, NistP256);
      ComponentShortens(Component(s.data, NistP256).value, NistP256);
    }
  }

  lemma EncDataAppend(sk: bool, data: bytes, tail: bytes)
    requires sk ==> |data| >= SK_SIGNATURE_TRAILER_SIZE
    ensures EncData(sk, data, tail) == EncData(sk, data, []) + tail
    ensures |EncData(sk, data, [])| == 4 + |data|
  {
    hide Str;
    StrLength(data);
    if sk {
      var n := |data| - SK_SIGNATURE_TRAILER_SIZE;
      StrLength(data[..n]);
      NoTail(data[n..]);
      Glue2(Str(data[..n]), data[n..], tail);
    } else {
      NoTail(Str(data));
    }
  }

  lemma EncAppend(s: Signature, tail: bytes)
    requires IsSk(s.alg) ==> |s.data| >= SK_SIGNATURE_TRAILER_SIZE
    ensures Enc(s, tail) == Enc(s, []) + tail
    ensures |Enc(s, [])| == EncodedLen(s)
  {
    EncDataAppend(IsSk(s.alg), s.data, tail);
  }

  /** A trailer is a flags byte and a big-endian counter. */
  lemma Trailer(t: bytes)
    requires |t| == SK_SIGNATURE_TRAILER_SIZE
    ensures FromBE(t[1..]) < TWO_32 && t == U8(t[0]) + U32(FromBE(t[1..]))
  {
    BEofFromBE(t[1..]);
    FromBEBound(t[1..]);
    Pow256Values();
  }

  lemma GetSkDataOf(inner: bytes, flags: byte, counter: nat, tail: bytes)
    requires Fits(inner) && counter < TWO_32
    ensures GetData(true, Str(inner) + (U8(flags) + (U32(counter) + tail)))
         == Ok((inner + [flags] + BE(counter, 4), tail))
  {
    hide Str;
    GetStrOf(inner, U8(flags) + (U32(counter) + tail));
    GetU8Of(flags, U32(counter) + tail);
    GetU32Of(counter, tail);
  }

  lemma GetDataOf(sk: bool, data: bytes, tail: bytes)
    requires |data| - (if sk then SK_SIGNATURE_TRAILER_SIZE else 0) < TWO_32
    requires sk ==> |data| >= SK_SIGNATURE_TRAILER_SIZE
    ensures GetData(sk, EncData(sk, data, tail)) == Ok((data, tail))
  {
    hide Str;
    if sk {
      var n := |data| - SK_SIGNATURE_TRAILER_SIZE;
      var inner, trailer := data[..n], data[n..];
      var flags, counter := trailer[0], FromBE(trailer[1..]);
      Trailer(trailer);
      Glue2(U8(flags), U32(counter), tail);
      GetSkDataOf(inner, flags, counter, tail);
      assert data == inner + [flags] + BE(counter, 4);
    } else {
      GetStrOf(data, tail);
    }
  }

  lemma GetSkDataInverse(inner: bytes, flags: byte, counter: nat, rest: bytes)
    ensures var data := inner + [flags] + BE(counter, 4);
            EncData(true, data, rest) == Str(inner) + (U8(flags) + (U32(counter) + rest))
  {
    hide Str;
    var data := inner + [flags] + BE(counter, 4);
    assert data[..|data| - 5] == inner && data[|data| - 5..] == U8(flags) + U32(counter);
    Glue2(U8(flags), U32(counter), rest);
  }

  lemma GetDataInverse(sk: bool, b: bytes)
    requires GetData(sk, b).Ok?
    ensures var (data, rest) := GetData(sk, b).value;
            && (sk ==> |data| >= SK_SIGNATURE_TRAILER_SIZE)
            && |data| - (if sk then SK_SIGNATURE_TRAILER_SIZE else 0) < TWO_32
            && b == EncData(sk, data, rest)
  {
    hide Str, EncData;
    var (inner, rest) := GetStr(b).value;
    if sk {
      var (flags, rest') := GetU8(rest).value;
      var (counter, rest'') := GetU32(rest').value;
      GetSkDataInverse(inner, flags, counter, rest'');
    } else {
      PlainData(inner, rest);
    }
  }

  lemma PlainData(data: bytes, tail: bytes)
    ensures EncData(false, data, tail) == Str(data) + tail
  {
  }

  /** Every valid signature can be written, in exactly the announced number of bytes. */
  lemma EncodeSucceeds(s: Signature)
    requires Valid(s)
    ensures Encode(s).Ok? && |Encode(s).value| == EncodedLen(s)
  {
    if IsSk(s.alg) {
      SkHasTrailer(s);
    }
    if !s.alg.Other? {
      KnownNameOfAsStr(s.alg);
    }
    EncAppend(s, []);
  }

  /** Reading a valid signature back, whatever follows it, gives the signature and what follows,
      exactly when its algorithm is not a custom one bearing a built-in name. */
  lemma RoundTripIff(s: Signature, tail: bytes)
    requires Valid(s)
    ensures IsSk(s.alg) ==> |s.data| >= SK_SIGNATURE_TRAILER_SIZE
    ensures Decode(Enc(s, tail)) == Ok((s, tail)) <==> CanonicalAlgorithm(s.alg)
  {
    if IsSk(s.alg) {
      SkHasTrailer(s);
    }
    if CanonicalAlgorithm(s.alg) {
      RoundTrip(s, tail);
    } else if Decode(Enc(s, tail)) == Ok((s, tail)) {
      DecodeInverse(Enc(s, tail));
    }
  }

  /** Such a signature exists: one byte under a custom algorithm named like security-key Ed25519. */
  lemma RoundTripFails()
    ensures var s := Signature(Other(SK_SSH_ED25519), [0]);
            Valid(s) && Decode(Enc(s, [])) != Ok((s, []))
  {
    BuiltInNameAsCustom();
    RoundTripIff(Signature(Other(SK_SSH_ED25519), [0]), []);
  }

  lemma RoundTrip(s: Signature, tail: bytes)
    requires Valid(s) && CanonicalAlgorithm(s.alg)
    requires IsSk(s.alg) ==> |s.data| >= SK_SIGNATURE_TRAILER_SIZE
    ensures Decode(Enc(s, tail)) == Ok((s, tail))
  {
    GetAlgorithmOf(s.alg, EncData(IsSk(s.alg), s.data, tail));
    GetDataOf(IsSk(s.alg), s.data, tail);
  }

  /** Whatever decodes is a valid canonical signature, and writing it gives the bytes consumed. */
  lemma DecodeInverse(b: bytes)
    requires Decode(b).Ok?
    ensures var (s, rest) := Decode(b).value;
            && New(s.alg, s.data) == Ok(s) && CanonicalAlgorithm(s.alg)
            && (IsSk(s.alg) ==> |s.data| >= SK_SIGNATURE_TRAILER_SIZE)
            && b == Enc(s, rest) && Encode(s) == Ok(Enc(s, []))
  {
    GetAlgorithmInverse(b);
    var (alg, rest) := GetAlgorithm(b).value;
    GetDataInverse(IsSk(alg), rest);
    var (s, _) := Decode(b).value;
    NewKeeps(alg, GetData(IsSk(alg), rest).value.0);
  }

  lemma NewKeeps(alg: Algorithm, data: bytes)
    requires New(alg, data).Ok?
    ensures New(alg, data).value == Signature(alg, data) && !IsPlaceholder(Signature(alg, data))
  {
  }

  // ---------- From DER and back ----------

  /** wolfCrypt's conversions between DER and a pair of unsigned big-endian magnitudes. */
  datatype DerCodec = DerCodec(toRs: bytes -> Option<(bytes, bytes)>, fromRs: (bytes, bytes) -> Option<bytes>)
  {
    /** Encoding two positive integers of at most 66 bytes and decoding gives the same integers. */
    ghost predicate Agrees() {
      forall r, s :: FromBE(r) > 0 && FromBE(s) > 0 && |r| <= 66 && |s| <= 66 ==>
        && fromRs(r, s).Some? && toRs(fromRs(r, s).value).Some?
        && FromBE(toRs(fromRs(r, s).value).value.0) == FromBE(r)
        && FromBE(toRs(fromRs(r, s).value).value.1) == FromBE(s)
    }
  }

  /** A codec that writes the length of the first integer before the two meets the law. */
  lemma SimpleCodecAgrees()
    ensures SimpleCodec().Agrees()
  {
    var d := SimpleCodec();
    forall r: bytes, s: bytes | |r| <= 66 && |s| <= 66
      ensures d.fromRs(r, s).Some? && d.toRs(d.fromRs(r, s).value) == Some((r, s))
    {
      var b := [|r|] + r + s;
      assert b[1..1 + |r|] == r && b[1 + |r|..] == s;
    }
  }

  function SimpleCodec(): DerCodec {
    DerCodec(
      b => if b != [] && b[0] < |b| then Some((b[1..1 + b[0]], b[1 + b[0]..])) else None,
      (r, s) => if |r| <= 66 then Some([|r|] + r + s) else None)
  }

  function DerSigToSsh(d: DerCodec, der: bytes): Result<bytes> {
    match d.toRs(der)
    case None => Err(Crypto)
    case Some(rs) => Ok(Str(FromPositive(rs.0)) + Str(FromPositive(rs.1)))
  }

  function SshSigToDer(d: DerCodec, data: bytes): Result<bytes> {
    var (r, rest) :- GetMpint(data);
    var (s, _) :- GetMpint(rest);
    match (AsPositive(r), AsPositive(s))
    case (Some(rb), Some(sb)) =>
      (match d.fromRs(rb, sb) case Some(der) => Ok(der) case None => Err(Crypto))
    case _ => Err(Crypto)
  }

  lemma ComponentOf(b: bytes, curve: EcdsaCurve, tail: bytes)
    requires |b| < TWO_32 - 1
    ensures GetMpint(Str(FromPositive(b)) + tail) == Ok((FromPositive(b), tail))
    ensures Component(Str(FromPositive(b)) + tail, curve) ==
            if FromBE(b) == 0 then Err(FormatEncoding)
            else if |StripZeros(b)| > FieldSize(curve) then Err(Length)
            else Ok(tail)
  {
    GetStrOf(FromPositive(b), tail);
    PositiveRoundTrip(b);
  }

  /** The blob made from a DER signature passes the ECDSA check exactly when both integers are
      positive and fit the field, so a signature built without that check still satisfies it. */
  lemma SignedBlobPassesCheckIff(d: DerCodec, der: bytes, curve: EcdsaCurve)
    requires d.toRs(der).Some?
    requires |d.toRs(der).value.0| <= 66 && |d.toRs(der).value.1| <= 66
    ensures var (r, s) := d.toRs(der).value;
            var ok := |StripZeros(r)| <= FieldSize(curve) && |StripZeros(s)| <= FieldSize(curve);
            && DerSigToSsh(d, der).Ok?
            && (New(Ecdsa(curve), DerSigToSsh(d, der).value).Ok? <==> FromBE(r) > 0 && FromBE(s) > 0 && ok)
  {
    var (r, s) := d.toRs(der).value;
    var tail := Str(FromPositive(s));
    ComponentOf(r, curve, tail);
    assert tail + [] == tail;
    ComponentOf(s, curve, []);
  }

  /** Going to SSH form and back to DER hands the encoder the same two integers, in minimal form. */
  lemma IntegersSurvive(d: DerCodec, der: bytes)
    requires d.toRs(der).Some?
    requires |d.toRs(der).value.0| <= 66 && |d.toRs(der).value.1| <= 66
    requires FromBE(d.toRs(der).value.0) > 0 && FromBE(d.toRs(der).value.1) > 0
    ensures var (r, s) := d.toRs(der).value;
            var (r', s') := (StripZeros(r), StripZeros(s));
            && FromBE(r') == FromBE(r) && FromBE(s') == FromBE(s)
            && SshSigToDer(d, DerSigToSsh(d, der).value)
               == match d.fromRs(r', s') case Some(out) => Ok(out) case None => Err(Crypto)
  {
    var (r, s) := d.toRs(der).value;
    var tail := Str(FromPositive(s));
    PositiveRoundTrip(r);
    PositiveRoundTrip(s);
    ComponentOf(r, NistP521, tail);
    assert tail + [] == tail;
    ComponentOf(s, NistP521, []);
  }

  /** With a DER encoder and decoder that agree on integers, DER to SSH to DER preserves both. */
  lemma DerRoundTrip(d: DerCodec, der: bytes)
    requires d.toRs(der).Some?
    requires |d.toRs(der).value.0| <= 66 && |d.toRs(der).value.1| <= 66
    requires FromBE(d.toRs(der).value.0) > 0 && FromBE(d.toRs(der).value.1) > 0
    requires d.Agrees()
    ensures var back := SshSigToDer(d, DerSigToSsh(d, der).value);
            && back.Ok? && d.toRs(back.value).Some?
            && FromBE(d.toRs(back.value).value.0) == FromBE(d.toRs(der).value.0)
            && FromBE(d.toRs(back.value).value.1) == FromBE(d.toRs(der).value.1)
  {
    IntegersSurvive(d, der);
    var (r, s) := d.toRs(der).value;
    assert d.fromRs(StripZeros(r), StripZeros(s)).Some?;
  }
}
