/** The AES primitives the hardware layer is given, and the operations of NIST SP 800-38D written
    from the standard, independently of the dispatch code. */
module GcmSpec {
  import opened Bytes

  type Block = b: bytes | |b| == 16 witness Zeros(16)

  /** The block cipher under a key, its inverse, and multiplication in GF(2^128). */
  datatype Primitives = Primitives(
    encrypt: (bytes, Block) -> Block,
    decrypt: (bytes, Block) -> Block,
    mul: (Block, Block) -> Block)

  // ---------- Section 6.2: incrementing ----------

  function Inc32(x: Block): Block {
    x[..12] + BE((FromBE(x[12..]) + 1) % TWO_32, 4)
  }

  function J0(iv: bytes): Block
    requires |iv| == 12
  {
    iv + [0, 0, 0, 1]
  }

  // ---------- Section 6.5: GCTR ----------

  function Gctr(p: Primitives, key: bytes, icb: Block, x: bytes): (y: bytes)
    ensures |y| == |x|
    decreases |x|
  {
    if |x| <= 16 then XorSeq(x, p.encrypt(key, icb))
    else XorSeq(x[..16], p.encrypt(key, icb)) + Gctr(p, key, Inc32(icb), x[16..])
  }

  /** GCTR is its own inverse. */
  lemma {:induction false} GctrInvolution(p: Primitives, key: bytes, icb: Block, x: bytes)
    ensures Gctr(p, key, icb, Gctr(p, key, icb, x)) == x
    decreases |x|
  {
    var ks := p.encrypt(key, icb);
    if |x| <= 16 {
      XorSeqCancel(x, ks);
    } else {
      var y := Gctr(p, key, icb, x);
      assert y[..16] == XorSeq(x[..16], ks);
      assert y[16..] == Gctr(p, key, Inc32(icb), x[16..]);
      XorSeqCancel(x[..16], ks);
      GctrInvolution(p, key, Inc32(icb), x[16..]);
      assert x == x[..16] + x[16..];
    }
  }

  lemma GctrInjective(p: Primitives, key: bytes, icb: Block, x: bytes, y: bytes)
    requires Gctr(p, key, icb, x) == Gctr(p, key, icb, y)
    ensures x == y
  {
    GctrInvolution(p, key, icb, x);
    GctrInvolution(p, key, icb, y);
  }

  // ---------- Section 6.4: GHASH ----------

  /** Folds the blocks of x into y. */
  function Ghash(p: Primitives, h: Block, y: Block, x: bytes): Block
    requires |x| % 16 == 0
    decreases |x|
  {
    if x == [] then y else Ghash(p, h, p.mul(XorSeq(y, x[..16]), h), x[16..])
  }

  lemma {:induction false} GhashAppend(p: Primitives, h: Block, y: Block, a: bytes, b: bytes)
    requires |a| % 16 == 0 && |b| % 16 == 0
    ensures |a + b| % 16 == 0
    ensures Ghash(p, h, y, a + b) == Ghash(p, h, Ghash(p, h, y, a), b)
    decreases |a|
  {
    if a == [] {
      assert a + b == b;
    } else {
      assert (a + b)[..16] == a[..16];
      assert (a + b)[16..] == a[16..] + b;
      GhashAppend(p, h, p.mul(XorSeq(y, a[..16]), h), a[16..], b);
    }
  }

  // ---------- Section 7: authenticated encryption and decryption ----------

  function PadLen(n: nat): (r: nat)
    ensures r < 16 && (n + r) % 16 == 0
  {
    (16 - n % 16) % 16
  }

  function Padded(x: bytes): (r: bytes)
    ensures |r| % 16 == 0
  {
    x + Zeros(PadLen(|x|))
  }

  /** [len(A)]_64 || [len(C)]_64, the lengths in bits. */
  function LengthBlock(aad: nat, ct: nat): Block {
    BE(8 * aad, 8) + BE(8 * ct, 8)
  }

  /** The two lengths read back in bits, that of the associated data first, each modulo the word. */
  lemma LengthBlockReads(aad: nat, ct: nat)
    ensures FromBE(LengthBlock(aad, ct)[..8]) == 8 * aad % TWO_64
    ensures FromBE(LengthBlock(aad, ct)[8..]) == 8 * ct % TWO_64
  {
    Pow256Values();
    FromBEofBEWraps(8 * aad, 8);
    FromBEofBEWraps(8 * ct, 8);
    assert LengthBlock(aad, ct)[..8] == BE(8 * aad, 8) && LengthBlock(aad, ct)[8..] == BE(8 * ct, 8);
  }

  lemma {:induction false} FromBEofBEWraps(n: nat, k: nat)
    ensures FromBE(BE(n, k)) == n % Pow256(k)
  {
    if k > 0 {
      FromBEofBEWraps(n / 256, k - 1);
      assert BE(n, k)[..k - 1] == BE(n / 256, k - 1);
      ModOfProduct(n, Pow256(k - 1));
    }
  }

  lemma ModOfProduct(n: nat, m: nat)
    requires m >= 1
    ensures 256 * ((n / 256) % m) + n % 256 == n % (256 * m)
  {
    var q, r := (n / 256) / m, (n / 256) % m;
    assert n / 256 == q * m + r;
    assert n == q * (256 * m) + (256 * r + n % 256) by {
      assert n == 256 * (n / 256) + n % 256;
      assert 256 * (q * m) == q * (256 * m);
    }
    ModUnique(n, 256 * m, q, 256 * r + n % 256);
  }

  /** The byte string GHASH is applied to. */
  function Frame(aad: bytes, ct: bytes): (r: bytes)
    ensures |r| % 16 == 0
  {
    BlocksAddUp(|Padded(ct)|, 16);
    BlocksAddUp(|Padded(aad)|, |Padded(ct)| + 16);
    Padded(aad) + (Padded(ct) + LengthBlock(|aad|, |ct|))
  }

  lemma BlocksAddUp(m: nat, n: nat)
    requires m % 16 == 0 && n % 16 == 0
    ensures (m + n) % 16 == 0
  {
  }

  /** The block GHASH yields for the framed data, under the subkey H = E(0). */
  function Digest(p: Primitives, key: bytes, aad: bytes, ct: bytes): Block {
    Ghash(p, p.encrypt(key, Zeros(16)), Zeros(16), Frame(aad, ct))
  }

  function Tag(p: Primitives, key: bytes, iv: bytes, aad: bytes, ct: bytes): Block
    requires |iv| == 12
  {
    Gctr(p, key, J0(iv), Digest(p, key, aad, ct))
  }

  /** Algorithm 4: ciphertext and tag. */
  function Encrypt(p: Primitives, key: bytes, iv: bytes, aad: bytes, pt: bytes): (r: (bytes, Block))
    requires |iv| == 12
  {
    var ct := Gctr(p, key, Inc32(J0(iv)), pt);
    (ct, Tag(p, key, iv, aad, ct))
  }

  /** Algorithm 5: the plaintext, or failure. */
  function Decrypt(p: Primitives, key: bytes, iv: bytes, aad: bytes, ct: bytes, tag: bytes): Option<bytes>
    requires |iv| == 12
  {
    if tag == Tag(p, key, iv, aad, ct) then Some(Gctr(p, key, Inc32(J0(iv)), ct)) else None
  }

  /** Decryption undoes encryption, and accepts the encryptor's tag and no other. */
  lemma RoundTrip(p: Primitives, key: bytes, iv: bytes, aad: bytes, pt: bytes, tag: bytes)
    requires |iv| == 12
    ensures var (ct, t) := Encrypt(p, key, iv, aad, pt);
            Decrypt(p, key, iv, aad, ct, tag) == if tag == t then Some(pt) else None
  {
    GctrInvolution(p, key, Inc32(J0(iv)), pt);
  }

  // ---------- Counter blocks ----------

  /** The block whose encryption masks the i-th block of data. */
  function CounterBlock(iv: bytes, i: nat): Block
    requires |iv| == 12
  {
    iv + BE((2 + i) % TWO_32, 4)
  }

  lemma Inc32Counter(iv: bytes, n: nat)
    requires |iv| == 12
    ensures Inc32(iv + BE(n % TWO_32, 4)) == iv + BE((n + 1) % TWO_32, 4)
  {
    Pow256Values();
    var x := iv + BE(n % TWO_32, 4);
    assert x[..12] == iv && x[12..] == BE(n % TWO_32, 4);
    FromBEofBE(n % TWO_32, 4);
    NextMod(n, TWO_32);
  }

  lemma J0IsCounterOne(iv: bytes)
    requires |iv| == 12
    ensures J0(iv) == iv + BE(1, 4)
    ensures Inc32(J0(iv)) == CounterBlock(iv, 0)
  {
    assert BE(0, 1) == [0];
    assert BE(0, 2) == [0, 0];
    assert BE(0, 3) == [0, 0, 0];
    assert BE(1, 4) == [0, 0, 0, 1];
    assert 1 % TWO_32 == 1;
    Inc32Counter(iv, 1);
  }

  /** Byte q of the output is byte q of the input masked with byte q % 16 of the encryption of
      counter block q / 16. */
  lemma {:induction false} GctrBytewise(p: Primitives, key: bytes, iv: bytes, first: nat, x: bytes, q: nat)
    requires |iv| == 12 && q < |x|
    ensures Gctr(p, key, CounterBlock(iv, first), x)[q]
         == Xor(x[q], p.encrypt(key, CounterBlock(iv, first + q / 16))[q % 16])
    decreases |x|
  {
    hide CounterBlock, Inc32, Gctr, Xor;
    if q < 16 {
      GctrFirst(p, key, CounterBlock(iv, first), x, q);
      assert q / 16 == 0 && q % 16 == q;
    } else {
      NextCounterBlock(iv, first);
      GctrBytewise(p, key, iv, first + 1, x[16..], q - 16);
      GctrLater(p, key, CounterBlock(iv, first), x, q);
      assert (q - 16) / 16 == q / 16 - 1 && (q - 16) % 16 == q % 16;
    }
  }

  lemma GctrFirst(p: Primitives, key: bytes, icb: Block, x: bytes, q: nat)
    requires q < |x| && q < 16
    ensures Gctr(p, key, icb, x)[q] == Xor(x[q], p.encrypt(key, icb)[q])
  {
  }

  lemma GctrLater(p: Primitives, key: bytes, icb: Block, x: bytes, q: nat)
    requires 16 <= q < |x|
    ensures Gctr(p, key, icb, x)[q] == Gctr(p, key, Inc32(icb), x[16..])[q - 16]
  {
  }

  lemma NextCounterBlock(iv: bytes, i: nat)
    requires |iv| == 12
    ensures Inc32(CounterBlock(iv, i)) == CounterBlock(iv, i + 1)
  {
    Inc32Counter(iv, 2 + i);
  }

  /** Counters two past i and j coincide modulo 2^32 just when i and j do. */
  lemma CountersCoincide(i: nat, j: nat)
    ensures (2 + i) % TWO_32 == (2 + j) % TWO_32 <==> i % TWO_32 == j % TWO_32
    ensures (2 + i) % TWO_32 == 1 <==> i % TWO_32 == TWO_32 - 1
  {
    var p, q := i % TWO_32, j % TWO_32;
    assert (2 + i) % TWO_32 == (2 + p) % TWO_32 && (2 + j) % TWO_32 == (2 + q) % TWO_32;
    assert (2 + p) % TWO_32 == if p + 2 < TWO_32 then p + 2 else p + 2 - TWO_32;
    assert (2 + q) % TWO_32 == if q + 2 < TWO_32 then q + 2 else q + 2 - TWO_32;
  }

  lemma TaggedEquality(iv: bytes, m: nat, iv': bytes, n: nat)
    requires |iv| == 12 && |iv'| == 12 && m < TWO_32 && n < TWO_32
    ensures iv + BE(m, 4) == iv' + BE(n, 4) <==> iv == iv' && m == n
  {
    Pow256Values();
    var a, b := iv + BE(m, 4), iv' + BE(n, 4);
    assert a[..12] == iv && b[..12] == iv';
    assert a[12..] == BE(m, 4) && b[12..] == BE(n, 4);
    if a == b {
      BEInjective(m, n, 4);
    }
  }

  /** Counter blocks of one IV repeat with period 2^32, and differ across IVs. */
  lemma CounterBlockEquality(iv: bytes, i: nat, iv': bytes, j: nat)
    requires |iv| == 12 && |iv'| == 12
    ensures CounterBlock(iv, i) == CounterBlock(iv', j) <==> iv == iv' && i % TWO_32 == j % TWO_32
    ensures CounterBlock(iv, i) == J0(iv') <==> iv == iv' && i % TWO_32 == TWO_32 - 1
  {
    CountersCoincide(i, j);
    J0IsCounterOne(iv');
    TaggedEquality(iv, (2 + i) % TWO_32, iv', (2 + j) % TWO_32);
    TaggedEquality(iv, (2 + i) % TWO_32, iv', 1);
  }

  /** The masks of an n-block message are drawn from distinct blocks, none of them the tag's. */
  ghost predicate FreshCounters(iv: bytes, n: nat)
    requires |iv| == 12
  {
    && (forall i, j :: 0 <= i < j < n ==> CounterBlock(iv, i) != CounterBlock(iv, j))
    && (forall i :: 0 <= i < n ==> CounterBlock(iv, i) != J0(iv))
  }

  /** The counter separates the blocks of a message exactly up to 2^32 - 1 blocks. */
  lemma FreshCountersIff(iv: bytes, n: nat)
    requires |iv| == 12
    ensures FreshCounters(iv, n) <==> n < TWO_32
  {
    if n < TWO_32 {
      forall i, j | 0 <= i < j < n
        ensures CounterBlock(iv, i) != CounterBlock(iv, j) && CounterBlock(iv, i) != J0(iv)
                && CounterBlock(iv, j) != J0(iv)
      {
        SmallMod(i);
        SmallMod(j);
        CounterBlockEquality(iv, i, iv, j);
        CounterBlockEquality(iv, j, iv, i);
      }
      if n > 0 {
        SmallMod(0);
        CounterBlockEquality(iv, 0, iv, 0);
      }
    } else {
      SmallMod(TWO_32 - 1);
      CounterBlockEquality(iv, TWO_32 - 1, iv, 0);
    }
  }

  lemma SmallMod(i: nat)
    requires i < TWO_32
    ensures i % TWO_32 == i
  {
  }

  /** Any message whose length fits the 32-bit size field of a request stays within that limit. */
  lemma FreshCountersForRequest(iv: bytes, sz: nat)
    requires |iv| == 12 && sz < TWO_32
    ensures FreshCounters(iv, (sz + 15) / 16)
  {
    FreshCountersIff(iv, (sz + 15) / 16);
  }

  // ---------- Framing ----------

  /** Equal frames come from equal inputs, as long as the bit lengths fit 64 bits. */
  lemma FrameInjective(a: bytes, c: bytes, a': bytes, c': bytes)
    requires |a| < TWO_61 && |c| < TWO_61 && |a'| < TWO_61 && |c'| < TWO_61
    requires Frame(a, c) == Frame(a', c')
    ensures a == a' && c == c'
  {
    var f, f' := Frame(a, c), Frame(a', c');
    assert f[|f| - 16..] == LengthBlock(|a|, |c|) && f'[|f'| - 16..] == LengthBlock(|a'|, |c'|);
    LengthBlockInjective(|a|, |c|, |a'|, |c'|);
    var n := |Padded(a)|;
    assert f[..|a|] == a && f'[..|a'|] == a';
    assert f[n..n + |c|] == c && f'[n..n + |c'|] == c';
  }

  lemma LengthBlockInjective(a: nat, c: nat, a': nat, c': nat)
    requires a < TWO_61 && c < TWO_61 && a' < TWO_61 && c' < TWO_61
    requires LengthBlock(a, c) == LengthBlock(a', c')
    ensures a == a' && c == c'
  {
    Pow256Values();
    assert LengthBlock(a, c)[..8] == BE(8 * a, 8) && LengthBlock(a', c')[..8] == BE(8 * a', 8);
    assert LengthBlock(a, c)[8..] == BE(8 * c, 8) && LengthBlock(a', c')[8..] == BE(8 * c', 8);
    BEInjective(8 * a, 8 * a', 8);
    BEInjective(8 * c, 8 * c', 8);
  }

  ghost predicate FramesDistinctBelow(limit: nat) {
    forall a, c, a', c' ::
      |a| < limit && |c| < limit && |a'| < limit && |c'| < limit && Frame(a, c) == Frame(a', c')
      ==> a == a' && c == c'
  }

  /** 2^61 bytes is exactly where the 64-bit length field starts to wrap: an all-zero input of that
      length frames the same whether it is presented as associated data or as ciphertext. */
  lemma FramesDistinctBelowIff(limit: nat)
    ensures FramesDistinctBelow(limit) <==> limit <= TWO_61
  {
    if limit <= TWO_61 {
      forall a, c, a', c' | |a| < limit && |c| < limit && |a'| < limit && |c'| < limit && Frame(a, c) == Frame(a', c')
        ensures a == a' && c == c'
      {
        FrameInjective(a, c, a', c');
      }
    } else {
      var z := Zeros(TWO_61);
      ZeroFramesCollide(z);
      assert |z| < limit && z != [];
    }
  }

  lemma ZeroFramesCollide(z: bytes)
    requires z == Zeros(TWO_61)
    ensures Frame(z, []) == Frame([], z)
  {
    hide LengthBlock;
    SameLengthBlocks();
    PaddedAligned(z);
    PaddedAligned([]);
    FromStart(z + LengthBlock(0, TWO_61));
    FromStart(LengthBlock(TWO_61, 0));
  }

  lemma PaddedAligned(x: bytes)
    requires |x| % 16 == 0
    ensures Padded(x) == x
  {
    NoTail(x);
    assert Zeros(0) == [];
  }

  lemma SameLengthBlocks()
    ensures LengthBlock(TWO_61, 0) == LengthBlock(0, TWO_61)
  {
    BEWraps(8);
  }

  /** The low k bytes of 256^k are those of zero. */
  lemma {:induction false} BEWraps(k: nat)
    ensures BE(Pow256(k), k) == BE(0, k)
    ensures k == 8 ==> BE(8 * TWO_61, 8) == BE(0, 8)
  {
    Pow256Values();
    if k > 0 {
      BEWraps(k - 1);
      assert Pow256(k) / 256 == Pow256(k - 1) && Pow256(k) % 256 == 0;
    }
  }

  // ---------- What acceptance means ----------

  /** If decryption accepts an encryptor's tag on any other associated data or ciphertext, then two
      distinct framed strings have the same GHASH value: there is no other way to be accepted. */
  lemma AcceptedForgeryIsGhashCollision(
      p: Primitives, key: bytes, iv: bytes, aad: bytes, pt: bytes, aad': bytes, ct': bytes)
    requires |iv| == 12
    requires |aad| < TWO_61 && |pt| < TWO_61 && |aad'| < TWO_61 && |ct'| < TWO_61
    requires var (ct, t) := Encrypt(p, key, iv, aad, pt);
             (aad', ct') != (aad, ct) && Decrypt(p, key, iv, aad', ct', t).Some?
    ensures var (ct, t) := Encrypt(p, key, iv, aad, pt);
            && Frame(aad', ct') != Frame(aad, ct)
            && Digest(p, key, aad', ct') == Digest(p, key, aad, ct)
  {
    var (ct, t) := Encrypt(p, key, iv, aad, pt);
    GctrInjective(p, key, J0(iv), Digest(p, key, aad, ct), Digest(p, key, aad', ct'));
    if Frame(aad', ct') == Frame(aad, ct) {
      FrameInjective(aad', ct', aad, ct);
    }
  }

  /** The tag, unmasked with the encryption of the initial counter block, is GHASH of the framed data under the
      encryption of the zero block: section 7.1 of SP 800-38D. */
  lemma TagUnmasked(p: Primitives, key: bytes, iv: bytes, aad: bytes, ct: bytes)
    requires |iv| == 12
    ensures XorSeq(Tag(p, key, iv, aad, ct), p.encrypt(key, iv + [0, 0, 0, 1]))
         == Ghash(p, p.encrypt(key, Zeros(16)), Zeros(16),
                  aad + Zeros(PadLen(|aad|)) + (ct + Zeros(PadLen(|ct|)) + LengthBlock(|aad|, |ct|)))
  {
    hide Ghash, LengthBlock, Zeros;
    XorSeqCancel(Digest(p, key, aad, ct), p.encrypt(key, J0(iv)));
  }

  /** One tag accepted for two different requests under one key and IV is a GHASH collision. */
  lemma AcceptedTwiceIsGhashCollision(
      p: Primitives, key: bytes, iv: bytes, aad: bytes, ct: bytes, aad': bytes, ct': bytes, tag: bytes)
    requires |iv| == 12 && (aad, ct) != (aad', ct')
    requires |aad| < TWO_61 && |ct| < TWO_61 && |aad'| < TWO_61 && |ct'| < TWO_61
    requires Decrypt(p, key, iv, aad, ct, tag).Some? && Decrypt(p, key, iv, aad', ct', tag).Some?
    ensures Frame(aad, ct) != Frame(aad', ct') && Digest(p, key, aad, ct) == Digest(p, key, aad', ct')
  {
    GctrInjective(p, key, J0(iv), Digest(p, key, aad, ct), Digest(p, key, aad', ct'));
    if Frame(aad, ct) == Frame(aad', ct') {
      FrameInjective(aad, ct, aad', ct');
    }
  }
}
