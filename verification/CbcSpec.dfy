/** Cipher block chaining, section 6.2 of NIST SP 800-38A, and what a run of chained calls computes. */
module CbcSpec {
  import opened Bytes
  import opened GcmSpec

  ghost predicate Inverse(p: Primitives) {
    forall key: bytes, b: Block :: p.decrypt(key, p.encrypt(key, b)) == b
  }

  predicate Aligned(x: bytes) {
    |x| % 16 == 0
  }

  function CbcEncrypt(p: Primitives, key: bytes, iv: Block, x: bytes): (y: bytes)
    requires Aligned(x)
    ensures |y| == |x|
    decreases |x|
  {
    if x == [] then [] else
    var c := p.encrypt(key, XorSeq(x[..16], iv));
    c + CbcEncrypt(p, key, c, x[16..])
  }

  function CbcDecrypt(p: Primitives, key: bytes, iv: Block, y: bytes): (x: bytes)
    requires Aligned(y)
    ensures |x| == |y|
    decreases |y|
  {
    if y == [] then [] else
    XorSeq(p.decrypt(key, y[..16]), iv) + CbcDecrypt(p, key, y[..16], y[16..])
  }

  /** The chaining value after the blocks of y. */
  function LastBlock(iv: Block, y: bytes): Block
    requires Aligned(y)
  {
    if y == [] then iv else y[|y| - 16..]
  }

  lemma LastBlockAppend(iv: Block, a: bytes, b: bytes)
    requires Aligned(a) && Aligned(b)
    ensures Aligned(a + b)
    ensures LastBlock(iv, a + b) == LastBlock(LastBlock(iv, a), b)
  {
    BlocksAddUp(|a|, |b|);
    if b == [] {
      assert a + b == a;
    } else {
      assert (a + b)[|a + b| - 16..] == b[|b| - 16..];
    }
  }

  lemma LastBlockTail(iv: Block, y: bytes)
    requires Aligned(y) && y != []
    ensures LastBlock(y[..16], y[16..]) == LastBlock(iv, y)
  {
    assert y == y[..16] + y[16..];
    LastBlockAppend(iv, y[..16], y[16..]);
  }

  lemma {:induction false} CbcEncryptAppend(p: Primitives, key: bytes, iv: Block, a: bytes, b: bytes)
    requires Aligned(a) && Aligned(b)
    ensures Aligned(a + b)
    ensures CbcEncrypt(p, key, iv, a + b)
         == CbcEncrypt(p, key, iv, a) + CbcEncrypt(p, key, LastBlock(iv, CbcEncrypt(p, key, iv, a)), b)
    decreases |a|
  {
    BlocksAddUp(|a|, |b|);
    if a == [] {
      assert a + b == b;
    } else {
      var c := p.encrypt(key, XorSeq(a[..16], iv));
      var y := CbcEncrypt(p, key, iv, a);
      CbcEncryptAppend(p, key, c, a[16..], b);
      assert (a + b)[..16] == a[..16] && (a + b)[16..] == a[16..] + b;
      assert y[..16] == c && y[16..] == CbcEncrypt(p, key, c, a[16..]);
      LastBlockTail(iv, y);
    }
  }

  lemma {:induction false} CbcDecryptAppend(p: Primitives, key: bytes, iv: Block, a: bytes, b: bytes)
    requires Aligned(a) && Aligned(b)
    ensures Aligned(a + b)
    ensures CbcDecrypt(p, key, iv, a + b)
         == CbcDecrypt(p, key, iv, a) + CbcDecrypt(p, key, LastBlock(iv, a), b)
    decreases |a|
  {
    hide CbcDecrypt, LastBlock;
    BlocksAddUp(|a|, |b|);
    if a == [] {
      DecryptNothing(p, key, iv);
      FromStart(b);
      FromStart(CbcDecrypt(p, key, iv, b));
    } else {
      CbcDecryptAppend(p, key, a[..16], a[16..], b);
      LastBlockTail(iv, a);
      DecryptStep(p, key, iv, a);
      DecryptStep(p, key, iv, a + b);
      assert (a + b)[..16] == a[..16] && (a + b)[16..] == a[16..] + b;
      Glue2(XorSeq(p.decrypt(key, a[..16]), iv), CbcDecrypt(p, key, a[..16], a[16..]),
            CbcDecrypt(p, key, LastBlock(iv, a), b));
    }
  }

  lemma DecryptNothing(p: Primitives, key: bytes, iv: Block)
    ensures CbcDecrypt(p, key, iv, []) == [] && LastBlock(iv, []) == iv
  {
  }

  lemma DecryptStep(p: Primitives, key: bytes, iv: Block, y: bytes)
    requires Aligned(y) && y != []
    ensures CbcDecrypt(p, key, iv, y) == XorSeq(p.decrypt(key, y[..16]), iv) + CbcDecrypt(p, key, y[..16], y[16..])
  {
  }

  function BlockAt(x: bytes, i: nat): Block
    requires 16 * i + 16 <= |x|
  {
    x[16 * i..16 * i + 16]
  }

  /** Section 6.2 of SP 800-38A, block by block: each ciphertext block is the encryption of its plaintext block
      masked with the ciphertext block before it, the first one with the register. */
  lemma {:induction false} CbcEncryptBlock(p: Primitives, key: bytes, iv: Block, x: bytes, i: nat)
    requires Aligned(x) && 16 * i + 16 <= |x|
    ensures var y := CbcEncrypt(p, key, iv, x);
            BlockAt(y, i) == p.encrypt(key, XorSeq(BlockAt(x, i), if i == 0 then iv else BlockAt(y, i - 1)))
    decreases |x|
  {
    hide XorSeq;
    var y := CbcEncrypt(p, key, iv, x);
    var c := p.encrypt(key, XorSeq(x[..16], iv));
    assert y[..16] == c && y[16..] == CbcEncrypt(p, key, c, x[16..]);
    if i > 0 {
      CbcEncryptBlock(p, key, c, x[16..], i - 1);
      assert BlockAt(x[16..], i - 1) == BlockAt(x, i) && BlockAt(y[16..], i - 1) == BlockAt(y, i);
      assert i > 1 ==> BlockAt(y[16..], i - 2) == BlockAt(y, i - 1);
    }
  }

  /** And each plaintext block is the decryption of its ciphertext block masked with the one before it. */
  lemma {:induction false} CbcDecryptBlock(p: Primitives, key: bytes, iv: Block, y: bytes, i: nat)
    requires Aligned(y) && 16 * i + 16 <= |y|
    ensures BlockAt(CbcDecrypt(p, key, iv, y), i)
         == XorSeq(p.decrypt(key, BlockAt(y, i)), if i == 0 then iv else BlockAt(y, i - 1))
    decreases |y|
  {
    hide XorSeq;
    var x := CbcDecrypt(p, key, iv, y);
    assert x[..16] == XorSeq(p.decrypt(key, y[..16]), iv) && x[16..] == CbcDecrypt(p, key, y[..16], y[16..]);
    if i > 0 {
      CbcDecryptBlock(p, key, y[..16], y[16..], i - 1);
      assert BlockAt(x[16..], i - 1) == BlockAt(x, i) && BlockAt(y[16..], i - 1) == BlockAt(y, i);
      assert i > 1 ==> BlockAt(y[16..], i - 2) == BlockAt(y, i - 1);
    }
  }

  lemma {:induction false} CbcRoundTrip(p: Primitives, key: bytes, iv: Block, x: bytes)
    requires Inverse(p) && Aligned(x)
    ensures CbcDecrypt(p, key, iv, CbcEncrypt(p, key, iv, x)) == x
    decreases |x|
  {
    if x != [] {
      var c := p.encrypt(key, XorSeq(x[..16], iv));
      var y := CbcEncrypt(p, key, iv, x);
      assert y[..16] == c && y[16..] == CbcEncrypt(p, key, c, x[16..]);
      CbcRoundTrip(p, key, c, x[16..]);
      XorSeqCancel(x[..16], iv);
      assert x == x[..16] + x[16..];
    }
  }

  // ---------- Runs of calls sharing one register ----------

  /** A call is served when its data is a positive number of blocks. */
  predicate Served(x: bytes) {
    x != [] && Aligned(x)
  }

  /** What one served call writes. */
  function CbcOutput(p: Primitives, key: bytes, enc: bool, reg: Block, x: bytes): (y: bytes)
    requires Aligned(x)
    ensures |y| == |x|
  {
    if enc then CbcEncrypt(p, key, reg, x) else CbcDecrypt(p, key, reg, x)
  }

  /** The register after a served call that reads and writes distinct buffers: its last ciphertext block. */
  function CbcRegister(p: Primitives, key: bytes, enc: bool, reg: Block, x: bytes): Block
    requires Aligned(x)
  {
    LastBlock(reg, if enc then CbcEncrypt(p, key, reg, x) else x)
  }

  datatype Run = Run(out: bytes, reg: Block)

  /** All output of a sequence of calls, and the final register; refused calls change nothing. */
  function RunCalls(p: Primitives, key: bytes, enc: bool, reg: Block, calls: seq<bytes>): Run
    decreases |calls|
  {
    if calls == [] then Run([], reg)
    else if !Served(calls[0]) then RunCalls(p, key, enc, reg, calls[1..])
    else
      var r := RunCalls(p, key, enc, CbcRegister(p, key, enc, reg, calls[0]), calls[1..]);
      Run(CbcOutput(p, key, enc, reg, calls[0]) + r.out, r.reg)
  }

  /** The data of the served calls, in order. */
  function ServedData(calls: seq<bytes>): (d: bytes)
    ensures Aligned(d)
  {
    if calls == [] then []
    else if !Served(calls[0]) then ServedData(calls[1..])
    else
      BlocksAddUp(|calls[0]|, |ServedData(calls[1..])|);
      calls[0] + ServedData(calls[1..])
  }

  /** However the data is cut into calls, the run computes the one-shot result, and the register
      ends at the last ciphertext block. */
  lemma {:induction false} ChunkedIsOneShot(p: Primitives, key: bytes, enc: bool, reg: Block, calls: seq<bytes>)
    ensures var d := ServedData(calls);
            RunCalls(p, key, enc, reg, calls) == Run(CbcOutput(p, key, enc, reg, d), CbcRegister(p, key, enc, reg, d))
    decreases |calls|
  {
    if calls != [] {
      if !Served(calls[0]) {
        ChunkedIsOneShot(p, key, enc, reg, calls[1..]);
      } else {
        var x, d := calls[0], ServedData(calls[1..]);
        var next := CbcRegister(p, key, enc, reg, x);
        ChunkedIsOneShot(p, key, enc, next, calls[1..]);
        if enc {
          CbcEncryptAppend(p, key, reg, x, d);
          LastBlockAppend(reg, CbcEncrypt(p, key, reg, x), CbcEncrypt(p, key, next, d));
        } else {
          CbcDecryptAppend(p, key, reg, x, d);
          LastBlockAppend(reg, x, d);
        }
      }
    }
  }

  /** Encrypting under one chunking and decrypting under any other, from the same register, gives
      the plaintext back and leaves both registers equal. */
  lemma AnyChunkingRoundTrip(p: Primitives, key: bytes, reg: Block, calls: seq<bytes>, calls': seq<bytes>)
    requires Inverse(p)
    requires ServedData(calls') == RunCalls(p, key, true, reg, calls).out
    ensures RunCalls(p, key, false, reg, calls') == Run(ServedData(calls), RunCalls(p, key, true, reg, calls).reg)
  {
    ChunkedIsOneShot(p, key, true, reg, calls);
    ChunkedIsOneShot(p, key, false, reg, calls');
    CbcRoundTrip(p, key, reg, ServedData(calls));
  }

  // ---------- In-place decryption ----------

  /** The register a call leaves: read back from the output after encrypting, from the input after
      decrypting, which by then holds plaintext when the two are one buffer. */
  function RegisterLeft(p: Primitives, key: bytes, enc: bool, inPlace: bool, reg: Block, x: bytes): Block
    requires Served(x)
  {
    if enc || inPlace then CbcOutput(p, key, enc, reg, x)[|x| - 16..] else x[|x| - 16..]
  }

  ghost predicate ChainingHolds(enc: bool, inPlace: bool) {
    forall p: Primitives, key: bytes, reg: Block, x: bytes | Served(x) ::
      RegisterLeft(p, key, enc, inPlace, reg, x) == CbcRegister(p, key, enc, reg, x)
  }

  /** With the identity as block cipher, register 0..01 and one zero block. */
  lemma InPlaceDecryptExample() returns (p: Primitives, reg: Block, x: bytes)
    ensures Inverse(p) && Served(x)
    ensures RegisterLeft(p, [], false, true, reg, x) != CbcRegister(p, [], false, reg, x)
  {
    p := Primitives((key, b) => b, (key, b) => b, (a, b) => a);
    reg, x := Zeros(15) + [1], Zeros(16);
    assert x[..16] == x && x[16..] == [];
    var y := CbcDecrypt(p, [], reg, x);
    assert y == XorSeq(x, reg);
    assert XorBits(0, 0, 4) == 0;
    assert XorBits(0, 0, 7) == 0;
    assert y[15] == 1;
    assert y[0..] == y && x[0..] == x;
  }

  /** The register ends at the last ciphertext block for every cipher and input except exactly when
      decrypting in place. */
  lemma ChainingHoldsIff(enc: bool, inPlace: bool)
    ensures ChainingHolds(enc, inPlace) <==> enc || !inPlace
  {
    if !enc && inPlace {
      var p, reg, x := InPlaceDecryptExample();
    }
  }
}
