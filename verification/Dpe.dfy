/** The DPE crypto provider: exported-CDI slots and the cached alias signing key. */
module Dpe {
  import opened Bytes

  datatype Curve = Bit256 | Bit384

  datatype CryptoError =
    | ExportedCdiHandleDuplicateCdi
    | ExportedCdiHandleLimitExceeded
    | InvalidExportedCdiHandle
    | MismatchedAlgorithm
    | CryptoLibError(code: nat)

  const ERR_RNG_FAILURE: nat := 0x03_0000

  const ERR_ALIAS_NOT_SET: nat := 0x04_0000

  const ERR_INVALID_PUBKEY: nat := 0x05_0000

  const ERR_INVALID_SIGNATURE: nat := 0x07_0000

  datatype Result<+T> = Ok(value: T) | Err(error: CryptoError)
  {
    predicate IsFailure() {
      Err?
    }

    function PropagateFailure<U>(): Result<U>
      requires Err?
    {
      Err(error)
    }

    function Extract(): T
      requires Ok?
    {
      value
    }
  }

  // ---------- Keys and signatures ----------

  function CurveSize(c: Curve): nat {
    match c case Bit256 => 32 case Bit384 => 48
  }

  /** A point of one of the two curves; the coordinates are as wide as the curve's field. */
  datatype PubKey = PubKey(curve: Curve, x: bytes, y: bytes)
  {
    ghost predicate Valid() {
      |x| == CurveSize(curve) && |y| == CurveSize(curve)
    }
  }

  datatype Signature = Signature(curve: Curve, r: bytes, s: bytes)

  function PubkeyToUncompressed(k: PubKey): bytes {
    [4] + k.x + k.y
  }

  function ParseUncompressedPubkey(b: bytes, c: Curve): Result<PubKey> {
    var size := CurveSize(c);
    if |b| != 1 + 2 * size || b[0] != 4 then Err(CryptoLibError(ERR_INVALID_PUBKEY))
    else Ok(PubKey(c, b[1..1 + size], b[1 + size..1 + 2 * size]))
  }

  /** The two point formats are inverse to each other: parsing succeeds exactly on the encodings of
      points of the asked curve. */
  lemma UncompressedPointRoundTrip(b: bytes, c: Curve, k: PubKey)
    requires k.Valid() && k.curve == c
    ensures ParseUncompressedPubkey(b, c) == Ok(k) <==> b == PubkeyToUncompressed(k)
  {
    var size := CurveSize(c);
    var e := PubkeyToUncompressed(k);
    assert e[0] == 4 && e[1..1 + size] == k.x && e[1 + size..1 + 2 * size] == k.y;
    if ParseUncompressedPubkey(b, c) == Ok(k) {
      assert b == [b[0]] + b[1..1 + size] + b[1 + size..1 + 2 * size];
    }
  }

  datatype SignData = Digest(digest: bytes) | Raw(raw: bytes) | Mu(mu: bytes)

  /** wolfCrypt: key derivation, and signing keys as imported handles H. Signing takes the random
      value it consumes as an argument. */
  datatype WolfCrypt<!H> = WolfCrypt(
    hkdf: (Curve, bytes, bytes, bytes) -> Result<bytes>,
    publicPoint: (Curve, bytes) -> Result<bytes>,
    importKey: (Curve, bytes, bytes) -> Result<H>,
    signPrehash: (H, bytes, bytes) -> Result<bytes>,
    signMessage: (H, bytes, bytes) -> bytes)

  /** The CDI: HKDF with salt `info`, the measurement as key material and again as info. */
  function HkdfDeriveCdi<H>(w: WolfCrypt<H>, c: Curve, measurement: bytes, info: bytes): Result<bytes> {
    w.hkdf(c, info, measurement, measurement)
  }

  function DeriveKeyPair<H>(w: WolfCrypt<H>, c: Curve, cdi: bytes, keyLabel: bytes, info: bytes)
    : Result<(bytes, PubKey)>
  {
    var priv :- w.hkdf(c, info, cdi, keyLabel);
    var point :- w.publicPoint(c, priv);
    var pub :- ParseUncompressedPubkey(point, c);
    Ok((priv, pub))
  }

  function ParseFixedSignature(b: bytes, c: Curve): Result<Signature> {
    var size := CurveSize(c);
    if |b| != 2 * size then Err(CryptoLibError(ERR_INVALID_SIGNATURE))
    else Ok(Signature(c, b[..size], b[size..]))
  }

  /** A key pair is derived exactly when HKDF, salted with the info, extracts the private key from the CDI under
      the label, and the library's public point of that key is the uncompressed public key. */
  lemma DeriveKeyPairIff<H>(w: WolfCrypt<H>, c: Curve, cdi: bytes, keyLabel: bytes, info: bytes,
                            priv: bytes, pub: PubKey)
    requires pub.Valid() && pub.curve == c
    ensures DeriveKeyPair(w, c, cdi, keyLabel, info) == Ok((priv, pub)) <==>
            w.hkdf(c, info, cdi, keyLabel) == Ok(priv) && w.publicPoint(c, priv) == Ok([4] + pub.x + pub.y)
  {
    if w.publicPoint(c, priv).Ok? {
      UncompressedPointRoundTrip(w.publicPoint(c, priv).value, c, pub);
    }
  }

  /** The library signs the data with this key as r followed by s. */
  predicate LibrarySigns<H>(w: WolfCrypt<H>, handle: H, data: SignData, nonce: bytes, r: bytes, s: bytes) {
    match data
    case Digest(d) => w.signPrehash(handle, nonce, d) == Ok(r + s)
    case Raw(m) => w.signMessage(handle, nonce, m) == r + s
    case Mu(_) => false
  }

  /** Signing gives r and s exactly when the pair imports and the library signs with it as r followed by s, each
      as wide as the field. */
  lemma SignWithKeyIff<H>(
      w: WolfCrypt<H>, c: Curve, data: SignData, priv: bytes, pub: PubKey, nonce: bytes, r: bytes, s: bytes)
    ensures SignWithKey(w, c, data, priv, pub, nonce) == Ok(Signature(c, r, s)) <==>
            && w.importKey(c, priv, [4] + pub.x + pub.y).Ok?
            && |r| == |s| == (if c.Bit256? then 32 else 48)
            && LibrarySigns(w, w.importKey(c, priv, [4] + pub.x + pub.y).value, data, nonce, r, s)
  {
    var k := w.importKey(c, priv, [4] + pub.x + pub.y);
    if k.Ok? {
      match data
      case Digest(d) =>
        if w.signPrehash(k.value, nonce, d).Ok? {
          FixedSignatureIff(w.signPrehash(k.value, nonce, d).value, c, r, s);
        }
      case Raw(m) =>
        FixedSignatureIff(w.signMessage(k.value, nonce, m), c, r, s);
      case Mu(_) =>
    }
  }

  lemma FixedSignatureIff(b: bytes, c: Curve, r: bytes, s: bytes)
    ensures ParseFixedSignature(b, c) == Ok(Signature(c, r, s)) <==>
            b == r + s && |r| == |s| == (if c.Bit256? then 32 else 48)
  {
    var size := CurveSize(c);
    if |b| == 2 * size {
      assert b == b[..size] + b[size..];
    }
    if b == r + s && |r| == |s| == size {
      assert b[..size] == r && b[size..] == s;
    }
  }

  /** Signs with an imported key of the given curve. */
  function SignOnCurve<H>(w: WolfCrypt<H>, c: Curve, handle: H, data: SignData, nonce: bytes): Result<Signature> {
    match data
    case Digest(d) =>
      var sig :- w.signPrehash(handle, nonce, d);
      ParseFixedSignature(sig, c)
    case Raw(m) => ParseFixedSignature(w.signMessage(handle, nonce, m), c)
    case Mu(_) => Err(MismatchedAlgorithm)
  }

  datatype CachedSigningKey<H> = P256(handle: H) | P384(handle: H)

  function NewCachedKey<H>(w: WolfCrypt<H>, c: Curve, priv: bytes, pub: PubKey): Result<CachedSigningKey<H>> {
    var point := PubkeyToUncompressed(pub);
    match c
    case Bit256 =>
      var sk :- w.importKey(Bit256, priv, point);
      Ok(P256(sk))
    case Bit384 =>
      var sk :- w.importKey(Bit384, priv, point);
      Ok(P384(sk))
  }

  function SignCached<H>(w: WolfCrypt<H>, k: CachedSigningKey<H>, data: SignData, nonce: bytes): Result<Signature> {
    match k
    case P256(sk) => SignOnCurve(w, Bit256, sk, data, nonce)
    case P384(sk) => SignOnCurve(w, Bit384, sk, data, nonce)
  }

  /** Signing with a key imported for this one signature. */
  function SignWithKey<H>(w: WolfCrypt<H>, c: Curve, data: SignData, priv: bytes, pub: PubKey, nonce: bytes)
    : Result<Signature>
  {
    var point := PubkeyToUncompressed(pub);
    match c
    case Bit256 =>
      var sk :- w.importKey(Bit256, priv, point);
      SignOnCurve(w, Bit256, sk, data, nonce)
    case Bit384 =>
      var sk :- w.importKey(Bit384, priv, point);
      SignOnCurve(w, Bit384, sk, data, nonce)
  }

  // ---------- State and steps ----------

  datatype Slot = Slot(cdi: bytes, handle: bytes)

  datatype State<H> = State(slots: seq<Slot>, alias: Option<CachedSigningKey<H>>)

  ghost predicate HasCdi(slots: seq<Slot>, cdi: bytes) {
    exists i :: 0 <= i < |slots| && slots[i].cdi == cdi
  }

  /** The CDI of the last slot with this handle. */
  function Lookup(slots: seq<Slot>, handle: bytes): Option<bytes> {
    if slots == [] then None
    else if slots[|slots| - 1].handle == handle then Some(slots[|slots| - 1].cdi)
    else Lookup(slots[..|slots| - 1], handle)
  }

  /** The key pair of the CDI a handle names. */
  function HandleKeyPair<H>(
      w: WolfCrypt<H>, c: Curve, slots: seq<Slot>, handle: bytes, keyLabel: bytes, info: bytes): Result<(bytes, PubKey)>
  {
    match Lookup(slots, handle)
    case None => Err(InvalidExportedCdiHandle)
    case Some(cdi) => DeriveKeyPair(w, c, cdi, keyLabel, info)
  }

  /** One operation that can change the state. `draw` is what the random generator delivers. */
  datatype Op =
    | Export(measurement: bytes, info: bytes, draw: Option<bytes>)
    | SetAlias(priv: bytes, pub: PubKey)

  /** Exporting: the derivation, then the duplicate check, then the slot limit, then the draw. */
  ghost function ExportResult<H>(w: WolfCrypt<H>, c: Curve, max: nat, slots: seq<Slot>, op: Op): Result<Slot>
    requires op.Export?
  {
    var cdi :- HkdfDeriveCdi(w, c, op.measurement, op.info);
    if HasCdi(slots, cdi) then Err(ExportedCdiHandleDuplicateCdi)
    else if |slots| >= max then Err(ExportedCdiHandleLimitExceeded)
    else if op.draw.None? then Err(CryptoLibError(ERR_RNG_FAILURE))
    else Ok(Slot(cdi, op.draw.value))
  }

  ghost function Step<H>(w: WolfCrypt<H>, c: Curve, max: nat, s: State<H>, op: Op): State<H> {
    match op
    case Export(_, _, _) =>
      var r := ExportResult(w, c, max, s.slots, op);
      if r.Ok? then s.(slots := s.slots + [r.value]) else s
    case SetAlias(priv, pub) =>
      var r := NewCachedKey(w, c, priv, pub);
      if r.Ok? then s.(alias := Some(r.value)) else s
  }

  class WolfCryptDpe<H> {
    const w: WolfCrypt<H>
    const curve: Curve
    const maxCdiHandles: nat
    var exportCdiSlots: seq<Slot>
    var aliasSigningKey: Option<CachedSigningKey<H>>
    var aliasPubKey: Option<PubKey>

    constructor (w: WolfCrypt<H>, curve: Curve, maxCdiHandles: nat)
      ensures this.w == w && this.curve == curve && this.maxCdiHandles == maxCdiHandles
      ensures Current() == State([], None) && aliasPubKey == None
    {
      this.w, this.curve, this.maxCdiHandles := w, curve, maxCdiHandles;
      exportCdiSlots, aliasSigningKey, aliasPubKey := [], None, None;
    }

    function Current(): State<H>
      reads this
    {
      State(exportCdiSlots, aliasSigningKey)
    }

    method DeriveExportedCdi(measurement: bytes, info: bytes, draw: Option<bytes>) returns (r: Result<bytes>)
      modifies this
      ensures Current() == Step(w, curve, maxCdiHandles, old(Current()), Export(measurement, info, draw))
      ensures aliasPubKey == old(aliasPubKey)
      ensures match ExportResult(w, curve, maxCdiHandles, old(exportCdiSlots), Export(measurement, info, draw))
              case Ok(slot) => r == Ok(slot.handle)
              case Err(e) => r == Err(e)
    {
      var cdi :- HkdfDeriveCdi(w, curve, measurement, info);
      for i := 0 to |exportCdiSlots|
        invariant forall j :: 0 <= j < i ==> exportCdiSlots[j].cdi != cdi
      {
        if exportCdiSlots[i].cdi == cdi {
          return Err(ExportedCdiHandleDuplicateCdi);
        }
      }
      if |exportCdiSlots| >= maxCdiHandles {
        return Err(ExportedCdiHandleLimitExceeded);
      }
      if draw.None? {
        return Err(CryptoLibError(ERR_RNG_FAILURE));
      }
      exportCdiSlots := exportCdiSlots + [Slot(cdi, draw.value)];
      r := Ok(draw.value);
    }

    method DeriveKeyPairExported(handle: bytes, keyLabel: bytes, info: bytes) returns (r: Result<(bytes, PubKey)>)
      ensures r == HandleKeyPair(w, curve, exportCdiSlots, handle, keyLabel, info)
    {
      var found: Option<bytes> := None;
      for i := 0 to |exportCdiSlots|
        invariant found == Lookup(exportCdiSlots[..i], handle)
      {
        assert exportCdiSlots[..i + 1][..i] == exportCdiSlots[..i];
        if exportCdiSlots[i].handle == handle {
          found := Some(exportCdiSlots[i].cdi);
        }
      }
      assert exportCdiSlots[..|exportCdiSlots|] == exportCdiSlots;
      if found.None? {
        return Err(InvalidExportedCdiHandle);
      }
      r := DeriveKeyPair(w, curve, found.value, keyLabel, info);
    }

    method SetAliasKey(priv: bytes, pub: PubKey) returns (r: Result<()>)
      modifies this
      ensures Current() == Step(w, curve, maxCdiHandles, old(Current()), SetAlias(priv, pub))
      ensures aliasPubKey == if r.Ok? then Some(pub) else old(aliasPubKey)
      ensures r.Ok? <==> NewCachedKey(w, curve, priv, pub).Ok?
    {
      var cached :- NewCachedKey(w, curve, priv, pub);
      aliasSigningKey := Some(cached);
      aliasPubKey := Some(pub);
      r := Ok(());
    }

    method SignWithAlias(data: SignData, nonce: bytes) returns (r: Result<Signature>)
      ensures r == AliasSignature(w, Current(), data, nonce)
    {
      if aliasSigningKey.None? {
        return Err(CryptoLibError(ERR_ALIAS_NOT_SET));
      }
      r := SignCached(w, aliasSigningKey.value, data, nonce);
    }
  }

  function AliasSignature<H>(w: WolfCrypt<H>, s: State<H>, data: SignData, nonce: bytes): Result<Signature> {
    if s.alias.None? then Err(CryptoLibError(ERR_ALIAS_NOT_SET)) else SignCached(w, s.alias.value, data, nonce)
  }

  // ---------- Whole runs ----------

  ghost function After<H>(w: WolfCrypt<H>, c: Curve, max: nat, ops: seq<Op>): State<H> {
    if ops == [] then State([], None)
    else Step(w, c, max, After(w, c, max, ops[..|ops| - 1]), ops[|ops| - 1])
  }

  ghost predicate DistinctCdis(slots: seq<Slot>) {
    forall i, j :: 0 <= i < j < |slots| ==> slots[i].cdi != slots[j].cdi
  }

  /** At every point of every run the slots are within the limit and no CDI is stored twice. */
  lemma {:induction false} SlotsInvariant<H>(w: WolfCrypt<H>, c: Curve, max: nat, ops: seq<Op>)
    ensures |After(w, c, max, ops).slots| <= max
    ensures DistinctCdis(After(w, c, max, ops).slots)
  {
    if ops != [] {
      SlotsInvariant(w, c, max, ops[..|ops| - 1]);
    }
  }

  /** Slots are only ever added, at the end: a longer run extends the slots of a shorter one. */
  lemma {:induction false} SlotsOnlyGrow<H>(w: WolfCrypt<H>, c: Curve, max: nat, ops: seq<Op>, more: seq<Op>)
    ensures After(w, c, max, ops).slots <= After(w, c, max, ops + more).slots
  {
    if more == [] {
      assert ops + more == ops;
    } else {
      var shorter := more[..|more| - 1];
      SlotsOnlyGrow(w, c, max, ops, shorter);
      assert (ops + more)[..|ops + more| - 1] == ops + shorter;
    }
  }

  /** Looking a handle up finds slot i exactly when no later slot carries the same handle. */
  lemma {:induction false} LookupIff(slots: seq<Slot>, i: nat)
    requires i < |slots| && DistinctCdis(slots)
    ensures Lookup(slots, slots[i].handle) == Some(slots[i].cdi)
       <==> forall j :: i < j < |slots| ==> slots[j].handle != slots[i].handle
  {
    var n := |slots| - 1;
    if i < n {
      var init := slots[..n];
      assert init[i] == slots[i];
      LookupIff(init, i);
      if slots[n].handle != slots[i].handle {
        assert forall j :: i < j < n ==> init[j] == slots[j];
      }
    }
  }

  /** A handle issued anywhere in a run keeps naming the CDI it was issued for, at every later point
      and whatever happens in between, exactly as long as no later export drew the same handle. */
  lemma IssuedHandleKeepsItsCdi<H>(
      w: WolfCrypt<H>, c: Curve, max: nat, ops: seq<Op>, op: Op, more: seq<Op>)
    requires op.Export? && ExportResult(w, c, max, After(w, c, max, ops).slots, op).Ok?
    ensures var slot := ExportResult(w, c, max, After(w, c, max, ops).slots, op).value;
            var i := |After(w, c, max, ops).slots|;
            var slots := After(w, c, max, ops + [op] + more).slots;
            && i < |slots| && slots[i] == slot
            && (Lookup(slots, slot.handle) == Some(slot.cdi)
                <==> forall j :: i < j < |slots| ==> slots[j].handle != slot.handle)
  {
    var before := After(w, c, max, ops).slots;
    assert (ops + [op])[..|ops|] == ops;
    SlotsOnlyGrow(w, c, max, ops + [op], more);
    SlotsInvariant(w, c, max, ops + [op] + more);
    var slots := After(w, c, max, ops + [op] + more).slots;
    assert slots[|before|] == After(w, c, max, ops + [op]).slots[|before|];
    LookupIff(slots, |before|);
  }

  /** With the single slot the code is built with, no condition is left. */
  lemma SingleSlotHandleKeepsItsCdi<H>(w: WolfCrypt<H>, c: Curve, ops: seq<Op>, op: Op, more: seq<Op>)
    requires op.Export? && ExportResult(w, c, 1, After(w, c, 1, ops).slots, op).Ok?
    ensures var slot := ExportResult(w, c, 1, After(w, c, 1, ops).slots, op).value;
            Lookup(After(w, c, 1, ops + [op] + more).slots, slot.handle) == Some(slot.cdi)
  {
    IssuedHandleKeepsItsCdi(w, c, 1, ops, op, more);
    SlotsInvariant(w, c, 1, ops + [op] + more);
  }

  /** So whatever happens after an export, as long as no later one draws the same handle, the handle yields the
      key pair of the CDI extracted from the export's own measurement and info, and of nothing else. */
  lemma IssuedHandleKeepsItsKeyPair<H>(
      w: WolfCrypt<H>, c: Curve, max: nat, ops: seq<Op>, op: Op, more: seq<Op>,
      keyLabel: bytes, info: bytes, priv: bytes, pub: PubKey)
    requires op.Export? && ExportResult(w, c, max, After(w, c, max, ops).slots, op).Ok?
    requires pub.Valid() && pub.curve == c
    requires var i := |After(w, c, max, ops).slots|;
             var slots := After(w, c, max, ops + [op] + more).slots;
             forall j :: i < j < |slots| ==> slots[j].handle != op.draw.value
    ensures w.hkdf(c, op.info, op.measurement, op.measurement).Ok?
    ensures var cdi := w.hkdf(c, op.info, op.measurement, op.measurement).value;
            HandleKeyPair(w, c, After(w, c, max, ops + [op] + more).slots, op.draw.value, keyLabel, info)
            == Ok((priv, pub)) <==>
            w.hkdf(c, info, cdi, keyLabel) == Ok(priv) && w.publicPoint(c, priv) == Ok([4] + pub.x + pub.y)
  {
    IssuedHandleKeepsItsCdi(w, c, max, ops, op, more);
    var cdi := w.hkdf(c, op.info, op.measurement, op.measurement).value;
    DeriveKeyPairIff(w, c, cdi, keyLabel, info, priv, pub);
  }

  /** The last alias key pair whose import succeeded. */
  function LastAlias<H>(w: WolfCrypt<H>, c: Curve, ops: seq<Op>): Option<(bytes, PubKey)> {
    if ops == [] then None
    else
      var last := ops[|ops| - 1];
      if last.SetAlias? && NewCachedKey(w, c, last.priv, last.pub).Ok? then Some((last.priv, last.pub))
      else LastAlias(w, c, ops[..|ops| - 1])
  }

  /** Signing with the cached alias is signing with the last successfully set key pair imported
      afresh, for all data and all randomness. */
  lemma {:induction false} AliasAgreesWithKey<H>(
      w: WolfCrypt<H>, c: Curve, max: nat, ops: seq<Op>, data: SignData, nonce: bytes)
    ensures AliasSignature(w, After(w, c, max, ops), data, nonce)
         == match LastAlias(w, c, ops)
            case None => Err(CryptoLibError(ERR_ALIAS_NOT_SET))
            case Some(pair) => SignWithKey(w, c, data, pair.0, pair.1, nonce)
  {
    if ops != [] {
      AliasAgreesWithKey(w, c, max, ops[..|ops| - 1], data, nonce);
    }
  }

  /** In terms of the library: the alias signs as r and s exactly when some pair was set and the library signs so
      with the last one it accepted. */
  lemma AliasSignsIff<H>(
      w: WolfCrypt<H>, c: Curve, max: nat, ops: seq<Op>, data: SignData, nonce: bytes, r: bytes, s: bytes)
    ensures AliasSignature(w, After(w, c, max, ops), data, nonce) == Ok(Signature(c, r, s)) <==>
            && LastAlias(w, c, ops).Some? && |r| == |s| == (if c.Bit256? then 32 else 48)
            && var (priv, pub) := LastAlias(w, c, ops).value;
               var k := w.importKey(c, priv, [4] + pub.x + pub.y);
               k.Ok? && LibrarySigns(w, k.value, data, nonce, r, s)
  {
    AliasAgreesWithKey(w, c, max, ops, data, nonce);
    if LastAlias(w, c, ops).Some? {
      var (priv, pub) := LastAlias(w, c, ops).value;
      SignWithKeyIff(w, c, data, priv, pub, nonce, r, s);
    }
  }
}
