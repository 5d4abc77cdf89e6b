/** The AES half of the hardware callback layer: GCM and CBC requests arriving from wolfCrypt. */
module HwAes {
  import opened Bytes
  import opened GcmSpec
  import opened CbcSpec

  const CRYPTOCB_UNAVAILABLE: int := -271

  const AES_GCM_AUTH_E: int := -180

  // ---------- GCM helpers ----------

  /** Masks one block: bytes pos .. pos + len of input go to the same place in output. */
  method MaskBlock(input: array<byte>, output: array<byte>, pos: nat, len: nat, ks: Block)
    requires len <= 16 && pos + len <= input.Length && pos + len <= output.Length
    modifies output
    ensures output[pos..pos + len] == XorSeq(old(input[pos..pos + len]), ks)
    ensures forall j :: 0 <= j < output.Length && !(pos <= j < pos + len) ==> output[j] == old(output[j])
    ensures forall j :: pos + len <= j < input.Length ==> input[j] == old(input[j])
  {
    for i := 0 to len
      invariant forall j :: pos + i <= j < input.Length ==> input[j] == old(input[j])
      invariant forall j :: 0 <= j < i ==> output[pos + j] == Xor(old(input[pos + j]), ks[j])
      invariant forall j :: 0 <= j < output.Length && !(pos <= j < pos + i) ==> output[j] == old(output[j])
    {
      output[pos + i] := Xor(input[pos + i], ks[i]);
    }
  }

  /** The counter-mode loop: masks `n` bytes of input into output, one counter block at a time.
      The two buffers may be the same array. */
  method CtrProcess(p: Primitives, key: bytes, iv: bytes, input: array<byte>, n: nat, output: array<byte>)
    requires |iv| == 12 && n <= input.Length && n <= output.Length
    modifies output
    ensures output[..n] == Gctr(p, key, Inc32(J0(iv)), old(input[..n]))
    ensures output[n..] == old(output[n..])
  {
    hide Gctr, Inc32, J0, Xor;
    J0IsCounterOne(iv);
    CounterTwo(iv);
    ghost var src := input[..n];
    FromStart(Gctr(p, key, Inc32(J0(iv)), src));
    var counter: Block := iv + [0, 0, 0, 2];
    var pos := 0;
    assert src[0..] == src;
    while pos < n
      invariant pos <= n
      invariant forall i :: pos <= i < n ==> input[i] == src[i]
      invariant output[..pos] + Gctr(p, key, counter, src[pos..]) == Gctr(p, key, Inc32(J0(iv)), src)
      invariant forall i :: n <= i < output.Length ==> output[i] == old(output[i])
    {
      var ks := p.encrypt(key, counter);
      var blockLen := if n - pos < 16 then n - pos else 16;
      ghost var done := output[..pos];
      ghost var chunk := src[pos..pos + blockLen];
      assert input[pos..pos + blockLen] == chunk;
      MaskBlock(input, output, pos, blockLen, ks);
      assert output[..pos] == done;
      assert output[..pos + blockLen] == done + XorSeq(chunk, ks);
      TurnKeepsTotal(p, key, counter, src, pos, blockLen, done);
      counter := NextCounter(counter);
      pos := pos + blockLen;
    }
    assert src[n..] == [];
    GctrNothing(p, key, counter);
  }

  lemma GctrNothing(p: Primitives, key: bytes, icb: Block)
    ensures Gctr(p, key, icb, []) == []
  {
  }

  /** Reads the last four bytes as a 32-bit number, adds one with wrap-around, writes them back. */
  function NextCounter(counter: Block): (r: Block)
    ensures r == Inc32(counter)
  {
    var ctr := (FromBE(counter[12..]) + 1) % TWO_32;
    var newCtr := BE(ctr, 4);
    counter[12 := newCtr[0]][13 := newCtr[1]][14 := newCtr[2]][15 := newCtr[3]]
  }

  /** One turn moves a block from the part still to do to the part done. */
  lemma TurnKeepsTotal(p: Primitives, key: bytes, counter: Block, src: bytes, pos: nat, n: nat, done: bytes)
    requires pos + n <= |src| && 0 < n <= 16 && (n == 16 || pos + n == |src|)
    ensures done + Gctr(p, key, counter, src[pos..])
         == done + XorSeq(src[pos..pos + n], p.encrypt(key, counter)) + Gctr(p, key, Inc32(counter), src[pos + n..])
  {
    GctrStep(p, key, counter, src[pos..], n);
    assert src[pos..][..n] == src[pos..pos + n] && src[pos..][n..] == src[pos + n..];
  }

  lemma CounterTwo(iv: bytes)
    requires |iv| == 12
    ensures iv + [0, 0, 0, 2] == CounterBlock(iv, 0)
  {
    assert BE(0, 1) == [0];
    assert BE(0, 2) == [0, 0];
    assert BE(0, 3) == [0, 0, 0];
    assert BE(2, 4) == [0, 0, 0, 2];
  }

  /** One turn of the loop: a full block, or all that is left. */
  lemma GctrStep(p: Primitives, key: bytes, icb: Block, x: bytes, n: nat)
    requires 0 < n <= 16 && (n == 16 <= |x| || n == |x|)
    ensures Gctr(p, key, icb, x) == XorSeq(x[..n], p.encrypt(key, icb)) + Gctr(p, key, Inc32(icb), x[n..])
  {
    if |x| <= 16 {
      assert x[..n] == x && x[n..] == [];
    }
  }

  /** GHASH state update: whole blocks first, then a zero-padded remainder. */
  function UpdatePadded(p: Primitives, h: Block, y: Block, data: bytes): Block
    decreases |data|
  {
    if data == [] then y
    else if |data| < 16 then p.mul(XorSeq(y, data + Zeros(16 - |data|)), h)
    else UpdatePadded(p, h, p.mul(XorSeq(y, data[..16]), h), data[16..])
  }

  /** Padding only looks at the last, partial block. */
  lemma PaddedTail(data: bytes)
    requires |data| >= 16
    ensures |Padded(data)| >= 16 && Padded(data)[..16] == data[..16] && Padded(data)[16..] == Padded(data[16..])
  {
    hide Zeros;
    assert PadLen(|data|) == PadLen(|data| - 16) by { PadLenPeriodic(|data| - 16); }
    assert data == data[..16] + data[16..];
    Glue2(data[..16], data[16..], Zeros(PadLen(|data|)));
  }

  lemma PadLenPeriodic(n: nat)
    ensures PadLen(n + 16) == PadLen(n)
  {
    assert (n + 16) % 16 == n % 16;
  }

  lemma PaddedShort(data: bytes)
    requires 0 < |data| < 16
    ensures Padded(data) == data + Zeros(16 - |data|) && |Padded(data)| == 16
  {
  }

  lemma GhashOne(p: Primitives, h: Block, y: Block, x: bytes)
    requires |x| == 16
    ensures Ghash(p, h, y, x) == p.mul(XorSeq(y, x), h)
  {
    assert x[..16] == x && x[16..] == [];
  }

  lemma {:induction false} UpdatePaddedIsGhash(p: Primitives, h: Block, y: Block, data: bytes)
    ensures UpdatePadded(p, h, y, data) == Ghash(p, h, y, Padded(data))
    decreases |data|
  {
    if data == [] {
      assert Padded(data) == [];
    } else if |data| < 16 {
      hide Padded, Ghash;
      PaddedShort(data);
      GhashOne(p, h, y, Padded(data));
    } else {
      hide Padded;
      UpdatePaddedIsGhash(p, h, p.mul(XorSeq(y, data[..16]), h), data[16..]);
      PaddedTail(data);
    }
  }

  /** Three padded updates amount to one GHASH over the framed string. */
  lemma PaddedUpdatesAreDigest(p: Primitives, key: bytes, aad: bytes, ct: bytes)
    ensures var h := p.encrypt(key, Zeros(16));
            var y := UpdatePadded(p, h, UpdatePadded(p, h, Zeros(16), aad), ct);
            UpdatePadded(p, h, y, LengthBlock(|aad|, |ct|)) == Digest(p, key, aad, ct)
  {
    var h := p.encrypt(key, Zeros(16));
    var lens := LengthBlock(|aad|, |ct|);
    var y1 := UpdatePadded(p, h, Zeros(16), aad);
    var y2 := UpdatePadded(p, h, y1, ct);
    UpdatePaddedIsGhash(p, h, Zeros(16), aad);
    UpdatePaddedIsGhash(p, h, y1, ct);
    UpdatePaddedIsGhash(p, h, y2, lens);
    assert Padded(lens) == lens;
    BlocksAddUp(|Padded(ct)|, 16);
    GhashAppend(p, h, y1, Padded(ct), lens);
    GhashAppend(p, h, Zeros(16), Padded(aad), Padded(ct) + lens);
  }

  /** Only the low k bytes matter to a k-byte field. */
  lemma {:induction false} BEMod(n: nat, k: nat)
    ensures BE(n % Pow256(k), k) == BE(n, k)
  {
    if k > 0 {
      var m := Pow256(k - 1);
      BEMod(n / 256, k - 1);
      DivMod256(n, m);
    }
  }

  lemma DivMod256(n: nat, m: nat)
    requires m >= 1
    ensures (n % (256 * m)) / 256 == (n / 256) % m
    ensures (n % (256 * m)) % 256 == n % 256
  {
    var q, r := (n / 256) / m, (n / 256) % m;
    assert n / 256 == q * m + r;
    assert n == q * (256 * m) + (256 * r + n % 256) by {
      assert n == 256 * (n / 256) + n % 256;
      assert 256 * (q * m) == q * (256 * m);
    }
    var low := 256 * r + n % 256;
    assert 0 <= low < 256 * m;
    ModUnique(n, 256 * m, q, low);
  }

  method ComputeTag(p: Primitives, key: bytes, iv: bytes, aad: bytes, ct: bytes) returns (tag: bytes)
    requires |iv| == 12
    ensures tag == Tag(p, key, iv, aad, ct)
  {
    hide UpdatePadded, Digest, BE, Xor;
    var h := p.encrypt(key, Zeros(16));
    var mac: Block := Zeros(16);
    mac := UpdatePadded(p, h, mac, aad);
    mac := UpdatePadded(p, h, mac, ct);
    var aadBits := (|aad| * 8) % TWO_64;
    var ctBits := (|ct| * 8) % TWO_64;
    var lenBlock: Block := BE(aadBits, 8) + BE(ctBits, 8);
    Pow256Values();
    BEMod(|aad| * 8, 8);
    BEMod(|ct| * 8, 8);
    mac := UpdatePadded(p, h, mac, lenBlock);
    PaddedUpdatesAreDigest(p, key, aad, ct);

    var j0: Block := (iv + Zeros(4))[15 := 1];
    assert j0 == J0(iv);
    var e := p.encrypt(key, j0);
    tag := Zeros(16);
    for i := 0 to 16
      invariant |tag| == 16
      invariant forall j :: 0 <= j < i ==> tag[j] == Xor(e[j], mac[j])
    {
      tag := tag[i := Xor(e[i], mac[i])];
    }
    assert tag == XorSeq(e, mac);
    XorSeqCommutes(e, mac);
  }

  // ---------- Whole GCM operations ----------

  method StoreTag(tag: bytes, tagOut: array<byte>)
    requires |tag| == 16 <= tagOut.Length
    modifies tagOut
    ensures tagOut[..16] == tag
    ensures tagOut[16..] == old(tagOut[16..])
  {
    forall i | 0 <= i < 16 {
      tagOut[i] := tag[i];
    }
  }

  /** Encrypts n bytes of plaintext into out, then authenticates all of `out[..outLen]`. */
  method GcmEncrypt256(p: Primitives, key: bytes, iv: bytes, aad: bytes,
                       plaintext: array<byte>, n: nat, out: array<byte>, outLen: nat, tagOut: array<byte>)
    requires |iv| == 12 && n <= plaintext.Length && n <= outLen <= out.Length && 16 <= tagOut.Length && tagOut != out
    modifies out, tagOut
    ensures out[..n] == Gctr(p, key, Inc32(J0(iv)), old(plaintext[..n]))
    ensures out[n..] == old(out[n..])
    ensures tagOut[..16] == Tag(p, key, iv, aad, out[..outLen])
    ensures tagOut[16..] == old(tagOut[16..])
  {
    CtrProcess(p, key, iv, plaintext, n, out);
    var ct := out[..outLen];
    var tag := ComputeTag(p, key, iv, aad, ct);
    StoreTag(tag, tagOut);
    assert out[..outLen] == ct;
  }

  /** Checks the tag first; only then writes plaintext. */
  method GcmDecrypt256(p: Primitives, key: bytes, iv: bytes, aad: bytes,
                       ciphertext: array<byte>, n: nat, out: array<byte>, expectedTag: bytes) returns (rc: int)
    requires |iv| == 12 && n <= ciphertext.Length && n <= out.Length
    modifies out
    ensures match Decrypt(p, key, iv, aad, old(ciphertext[..n]), expectedTag)
            case Some(pt) => rc == 0 && out[..n] == pt && out[n..] == old(out[n..])
            case None => rc == AES_GCM_AUTH_E && out[..] == old(out[..])
  {
    var computed := ComputeTag(p, key, iv, aad, ciphertext[..n]);
    if computed != expectedTag {
      return AES_GCM_AUTH_E;
    }
    CtrProcess(p, key, iv, ciphertext, n, out);
    rc := 0;
  }

  lemma DecryptedSize(p: Primitives, key: bytes, iv: bytes, aad: bytes, ct: bytes, tag: bytes)
    requires |iv| == 12
    ensures Decrypt(p, key, iv, aad, ct, tag).Some? ==> |Decrypt(p, key, iv, aad, ct, tag).value| == |ct|
  {
  }

  // ---------- Requests ----------

  /** The AES object wolfCrypt owns: key length, raw key bytes, chaining register. */
  class AesContext {
    var keylen: nat
    var devKey: bytes
    var reg: bytes

    ghost predicate Valid()
      reads this
    {
      |devKey| == 32 && |reg| == 16
    }
  }

  /** A GCM request; `authTag` is written by encryption and read by decryption. */
  datatype GcmRequest = GcmRequest(
    aes: AesContext?,
    iv: bytes, ivSz: nat,
    input: array?<byte>, output: array?<byte>, sz: nat,
    authTag: array?<byte>, authTagSz: nat,
    authIn: array?<byte>, authInSz: nat)
  {
    /** Pointers are valid for their stated 32-bit sizes, and only input and output may coincide. */
    ghost predicate Valid()
      reads aes
    {
      && (aes != null ==> aes.Valid())
      && |iv| == ivSz && sz < TWO_32 && authInSz < TWO_32
      && (input != null ==> sz <= input.Length)
      && (output != null ==> sz <= output.Length)
      && (authTag != null ==> authTagSz <= authTag.Length)
      && (authIn != null ==> authInSz <= authIn.Length)
      && (output != null ==> authTag != output && authIn != output)
    }
  }

  class Dispatcher {
    /** Requests served since the last reset, in a machine word. */
    var dispatchCount: nat

    const p: Primitives

    constructor (p: Primitives)
      ensures dispatchCount == 0 && this.p == p
    {
      this.p := p;
      dispatchCount := 0;
    }

    method Count()
      modifies this
      ensures dispatchCount == (old(dispatchCount) + 1) % TWO_64
    {
      dispatchCount := (dispatchCount + 1) % TWO_64;
    }

    /** Refused unless the key has 32 bytes, the nonce 12, the tag room for 16, and there is an output for
        the data; a null input is read as empty, although the whole output is authenticated. */
    method DispatchGcmEncrypt(gcm: GcmRequest) returns (rc: int)
      requires gcm.Valid()
      modifies this, gcm.output, gcm.authTag
      ensures gcm.aes == null || gcm.aes.keylen != 32 || gcm.ivSz != 12 || (gcm.sz > 0 && gcm.output == null) ||
              gcm.authTag == null || gcm.authTagSz < 16 ==>
                && rc == -271 && dispatchCount == old(dispatchCount)
                && (gcm.output != null ==> gcm.output[..] == old(gcm.output[..]))
                && (gcm.authTag != null ==> gcm.authTag[..] == old(gcm.authTag[..]))
      ensures gcm.aes != null && gcm.aes.keylen == 32 && gcm.ivSz == 12 && (gcm.sz > 0 ==> gcm.output != null) &&
              gcm.authTag != null && gcm.authTagSz >= 16 ==>
                && rc == 0 && dispatchCount == (old(dispatchCount) + 1) % TWO_64
                && gcm.authTag[16..] == old(gcm.authTag[16..])
                && (gcm.output != null ==> gcm.output[gcm.sz..] == old(gcm.output[gcm.sz..]))
                && var aad := old(if gcm.authIn == null then [] else gcm.authIn[..gcm.authInSz]);
                   var out := if gcm.output == null then [] else gcm.output[..gcm.sz];
                   && (gcm.input != null ==>
                         (out, gcm.authTag[..16])
                         == Encrypt(p, gcm.aes.devKey, gcm.iv, aad, old(gcm.input[..gcm.sz])))
                   && (gcm.input == null ==>
                         && out == old(if gcm.output == null then [] else gcm.output[..gcm.sz])
                         && gcm.authTag[..16] == Tag(p, gcm.aes.devKey, gcm.iv, aad, out))
    {
      hide Gctr, Tag, Inc32, J0;
      if gcm.aes == null || gcm.aes.keylen != 32 || gcm.ivSz != 12 {
        return CRYPTOCB_UNAVAILABLE;
      }
      if gcm.sz > 0 && gcm.output == null {
        return CRYPTOCB_UNAVAILABLE;
      }
      if gcm.authTag == null || gcm.authTagSz < 16 {
        return CRYPTOCB_UNAVAILABLE;
      }
      var empty := new byte[0];
      var plaintext, n := empty, 0;
      if gcm.input != null && gcm.sz > 0 {
        plaintext, n := gcm.input, gcm.sz;
      }
      var aad: bytes := [];
      if gcm.authIn != null && gcm.authInSz > 0 {
        aad := gcm.authIn[..gcm.authInSz];
      }
      var out := if gcm.sz > 0 then gcm.output else empty;
      GcmEncrypt256(p, gcm.aes.devKey, gcm.iv, aad, plaintext, n, out, gcm.sz, gcm.authTag);
      assert gcm.sz == 0 ==> out[..gcm.sz] == [];
      Count();
      rc := 0;
    }

    method DispatchGcmDecrypt(gcm: GcmRequest) returns (rc: int)
      requires gcm.Valid()
      modifies this, gcm.output
      ensures gcm.aes == null || gcm.aes.keylen != 32 || gcm.ivSz != 12 || (gcm.sz > 0 && gcm.output == null) ||
              gcm.authTag == null || gcm.authTagSz < 16 ==>
                && rc == -271 && dispatchCount == old(dispatchCount)
                && (gcm.output != null ==> gcm.output[..] == old(gcm.output[..]))
      ensures gcm.aes != null && gcm.aes.keylen == 32 && gcm.ivSz == 12 && (gcm.sz > 0 ==> gcm.output != null) &&
              gcm.authTag != null && gcm.authTagSz >= 16 ==>
                && dispatchCount == (old(dispatchCount) + 1) % TWO_64
                && var aad := old(if gcm.authIn == null then [] else gcm.authIn[..gcm.authInSz]);
                   var ct := old(if gcm.input == null then [] else gcm.input[..gcm.sz]);
                   match Decrypt(p, gcm.aes.devKey, gcm.iv, aad, ct, old(gcm.authTag[..16]))
                   case Some(pt) =>
                     rc == 0 && (gcm.output != null ==> gcm.output[..] == pt + old(gcm.output[|ct|..]))
                   case None =>
                     rc == -180 && (gcm.output != null ==> gcm.output[..] == old(gcm.output[..]))
    {
      hide Decrypt;
      if gcm.aes == null || gcm.aes.keylen != 32 || gcm.ivSz != 12 {
        return CRYPTOCB_UNAVAILABLE;
      }
      if gcm.sz > 0 && gcm.output == null {
        return CRYPTOCB_UNAVAILABLE;
      }
      if gcm.authTag == null || gcm.authTagSz < 16 {
        return CRYPTOCB_UNAVAILABLE;
      }
      var empty := new byte[0];
      var ciphertext, n := empty, 0;
      if gcm.input != null && gcm.sz > 0 {
        ciphertext, n := gcm.input, gcm.sz;
      }
      var aad: bytes := [];
      if gcm.authIn != null && gcm.authInSz > 0 {
        aad := gcm.authIn[..gcm.authInSz];
      }
      var out := if gcm.sz > 0 then gcm.output else empty;
      ghost var ct := ciphertext[..n];
      DecryptedSize(p, gcm.aes.devKey, gcm.iv, aad, ct, gcm.authTag[..16]);
      rc := GcmDecrypt256(p, gcm.aes.devKey, gcm.iv, aad, ciphertext, n, out, gcm.authTag[..16]);
      Count();
      assert gcm.output != null ==> forall m :: 0 <= m <= gcm.output.Length ==>
        gcm.output[..] == gcm.output[..m] + gcm.output[m..];
    }

    /** Two decryption requests under one key, nonce and tag that both succeed have the same associated data and
        ciphertext, or two framed strings collide under GHASH. */
    method DecryptBoth(a: GcmRequest, b: GcmRequest) returns (rcA: int, rcB: int)
      requires a.Valid() && b.Valid() && a.aes == b.aes && a.iv == b.iv && a.authTag == b.authTag
      requires a.output != null ==> a.output != b.input && a.output != b.authIn && a.output != b.authTag
      modifies this, a.output, b.output
      ensures rcA == 0 && rcB == 0 ==>
                a.aes != null &&
                var aad := old(if a.authIn == null then [] else a.authIn[..a.authInSz]);
                var ct := old(if a.input == null then [] else a.input[..a.sz]);
                var aad' := old(if b.authIn == null then [] else b.authIn[..b.authInSz]);
                var ct' := old(if b.input == null then [] else b.input[..b.sz]);
                || (aad, ct) == (aad', ct')
                || (&& Frame(aad, ct) != Frame(aad', ct')
                    && Digest(p, a.aes.devKey, aad, ct) == Digest(p, a.aes.devKey, aad', ct'))
    {
      hide Decrypt, Frame, Digest;
      ghost var aad := if a.authIn == null then [] else a.authIn[..a.authInSz];
      ghost var ct := if a.input == null then [] else a.input[..a.sz];
      ghost var aad' := if b.authIn == null then [] else b.authIn[..b.authInSz];
      ghost var ct' := if b.input == null then [] else b.input[..b.sz];
      rcA := DispatchGcmDecrypt(a);
      rcB := DispatchGcmDecrypt(b);
      if rcA == 0 && rcB == 0 && (aad, ct) != (aad', ct') {
        AcceptedTwiceIsGhashCollision(p, a.aes.devKey, a.iv, aad, ct, aad', ct', a.authTag[..16]);
      }
    }

    /** One CBC call; `input` and `output` are distinct arrays or the same one. */
    method DispatchCbc(enc: bool, aes: AesContext?, input: array?<byte>, output: array?<byte>, sz: nat)
      returns (rc: int)
      requires aes != null ==> aes.Valid()
      requires input != null ==> sz <= input.Length
      requires output != null ==> sz <= output.Length
      modifies this, aes, output
      ensures aes == null || aes.keylen != 32 || sz == 0 || sz % 16 != 0 || input == null || output == null ==>
                && rc == CRYPTOCB_UNAVAILABLE && dispatchCount == old(dispatchCount)
                && (aes != null ==> aes.reg == old(aes.reg))
                && (output != null ==> output[..] == old(output[..]))
      ensures aes != null ==> aes.Valid() && aes.keylen == old(aes.keylen) && aes.devKey == old(aes.devKey)
      ensures aes != null && aes.keylen == 32 && sz > 0 && sz % 16 == 0 && input != null && output != null ==>
                && rc == 0 && dispatchCount == (old(dispatchCount) + 1) % TWO_64
                && output[..sz] == CbcOutput(p, aes.devKey, enc, old(aes.reg), old(input[..sz]))
                && output[sz..] == old(output[sz..])
                && aes.reg == RegisterLeft(p, aes.devKey, enc, input == output, old(aes.reg), old(input[..sz]))
                && (enc || input != output ==>
                      aes.reg == CbcRegister(p, aes.devKey, enc, old(aes.reg), old(input[..sz])))
    {
      if aes == null || aes.keylen != 32 || sz == 0 || sz % 16 != 0 {
        return CRYPTOCB_UNAVAILABLE;
      }
      if input == null || output == null {
        return CRYPTOCB_UNAVAILABLE;
      }
      var iv: Block := aes.reg;
      var result := CbcOutput(p, aes.devKey, enc, iv, input[..sz]);
      forall i | 0 <= i < sz {
        output[i] := result[i];
      }
      assert output[..sz] == result;
      aes.reg := if enc then output[sz - 16..sz] else input[sz - 16..sz];
      assert output[sz - 16..sz] == result[sz - 16..];
      Count();
      rc := 0;
    }
  }
}
