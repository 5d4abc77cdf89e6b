/** Bytes, exclusive or, and big-endian numbers: what every other module builds on. */
module Bytes {

  type byte = b: int | 0 <= b < 256

  type bytes = seq<byte>

  datatype Option<+T> = None | Some(value: T)

  // ---------- Powers ----------

  /** 2 to the n. */
  function Pow2(n: nat): (r: nat)
    ensures r >= 1
  {
    if n == 0 then 1 else 2 * Pow2(n - 1)
  }

  /** 256 to the n: the number of values an n-byte field can hold. */
  function Pow256(n: nat): (r: nat)
    ensures r >= 1
  {
    if n == 0 then 1 else 256 * Pow256(n - 1)
  }

  const TWO_32: nat := 0x1_0000_0000

  const TWO_61: nat := 0x2000_0000_0000_0000

  const TWO_64: nat := 0x1_0000_0000_0000_0000

  lemma Pow256Values()
    ensures Pow256(1) == 256
    ensures Pow256(4) == TWO_32
    ensures Pow256(8) == TWO_64
  {
    assert Pow256(2) == 65536;
    assert Pow256(3) == 16777216;
    assert Pow256(5) == 256 * Pow256(4);
    assert Pow256(6) == 256 * Pow256(5);
    assert Pow256(7) == 256 * Pow256(6);
  }

  // ---------- Remainders ----------

  /** Counting on after wrapping is wrapping after counting on. */
  lemma NextMod(n: nat, m: nat)
    requires m >= 1
    ensures (n % m + 1) % m == (n + 1) % m
  {
    var q, r := n / m, n % m;
    assert n == q * m + r;
    if r + 1 < m {
      ModUnique(r + 1, m, 0, r + 1);
      ModUnique(n + 1, m, q, r + 1);
    } else {
      ModUnique(r + 1, m, 1, 0);
      ModUnique(n + 1, m, q + 1, 0);
    }
  }

  lemma ModUnique(n: nat, m: nat, q: nat, r: nat)
    requires 0 <= r < m && n == q * m + r
    ensures n % m == r
  {
    var q', r' := n / m, n % m;
    assert n == q' * m + r' by { assert n == m * q' + r'; }
    if q < q' {
      MulMonotone(q + 1, q', m);
    } else if q' < q {
      MulMonotone(q' + 1, q, m);
    }
  }

  lemma MulMonotone(a: nat, b: nat, m: nat)
    requires a <= b
    ensures a * m <= b * m
  {
  }

  // ---------- Exclusive or ----------

  /** Bitwise exclusive or of two n-bit numbers, one bit at a time. */
  function XorBits(a: nat, b: nat, n: nat): (r: nat)
    ensures r < Pow2(n)
  {
    if n == 0 then 0 else (a + b) % 2 + 2 * XorBits(a / 2, b / 2, n - 1)
  }

  function Bit(n: nat, i: nat): nat {
    if i == 0 then n % 2 else Bit(n / 2, i - 1)
  }

  /** A bit of the exclusive or is set exactly when one of the two has it. */
  lemma {:induction false} XorBitsBit(a: nat, b: nat, n: nat, i: nat)
    requires i < n
    ensures Bit(XorBits(a, b, n), i) == (Bit(a, i) + Bit(b, i)) % 2
  {
    XorBitsStep(a, b, n);
    hide XorBits;
    if i > 0 {
      XorBitsBit(a / 2, b / 2, n - 1, i - 1);
    } else {
      ParityOfSum(a, b);
    }
  }

  lemma XorBitsStep(a: nat, b: nat, n: nat)
    requires n > 0
    ensures XorBits(a, b, n) % 2 == (a + b) % 2
    ensures XorBits(a, b, n) / 2 == XorBits(a / 2, b / 2, n - 1)
  {
    var low, high := (a + b) % 2, XorBits(a / 2, b / 2, n - 1);
    assert XorBits(a, b, n) == low + 2 * high;
    hide XorBits;
    ParityCancel(a, b, high);
  }

  lemma ParityOfSum(a: nat, b: nat)
    ensures (a + b) % 2 == (a % 2 + b % 2) % 2
  {
  }

  lemma ParityCancel(a: nat, b: nat, high: nat)
    ensures ((a + b) % 2 + 2 * high) / 2 == high
    ensures ((a + b) % 2 + 2 * high + b) % 2 == a % 2
  {
    assert (a + b) % 2 == (a % 2 + b % 2) % 2;
  }

  lemma {:induction false} XorBitsCancel(a: nat, b: nat, n: nat)
    requires a < Pow2(n)
    ensures XorBits(XorBits(a, b, n), b, n) == a
  {
    if n > 0 {
      var high := XorBits(a / 2, b / 2, n - 1);
      ParityCancel(a, b, high);
      XorBitsCancel(a / 2, b / 2, n - 1);
      calc {
        XorBits(XorBits(a, b, n), b, n);
        a % 2 + 2 * XorBits(high, b / 2, n - 1);
        a % 2 + 2 * (a / 2);
        a;
      }
    }
  }

  lemma {:induction false} XorBitsCommutes(a: nat, b: nat, n: nat)
    ensures XorBits(a, b, n) == XorBits(b, a, n)
  {
    if n > 0 {
      XorBitsCommutes(a / 2, b / 2, n - 1);
    }
  }

  function Xor(a: byte, b: byte): (r: byte) {
    assert Pow2(8) == 256;
    XorBits(a, b, 8)
  }

  /** Applying the same mask twice gives the byte back. */
  lemma XorCancel(a: byte, b: byte)
    ensures Xor(Xor(a, b), b) == a
    ensures Xor(b, Xor(b, a)) == a
  {
    assert Pow2(8) == 256;
    XorBitsCancel(a, b, 8);
    XorBitsCommutes(b, a, 8);
    XorBitsCommutes(b, Xor(a, b), 8);
  }

  /** Bytewise exclusive or of `a` with the first |a| bytes of `mask`. */
  function XorSeq(a: bytes, mask: bytes): (r: bytes)
    requires |a| <= |mask|
    ensures |r| == |a|
  {
    seq(|a|, i requires 0 <= i < |a| => Xor(a[i], mask[i]))
  }

  lemma XorSeqCancel(a: bytes, mask: bytes)
    requires |a| <= |mask|
    ensures XorSeq(XorSeq(a, mask), mask) == a
  {
    forall i | 0 <= i < |a|
      ensures XorSeq(XorSeq(a, mask), mask)[i] == a[i]
    {
      XorCancel(a[i], mask[i]);
    }
  }

  lemma XorSeqCommutes(a: bytes, b: bytes)
    requires |a| == |b|
    ensures XorSeq(a, b) == XorSeq(b, a)
  {
    forall i | 0 <= i < |a|
      ensures XorSeq(a, b)[i] == XorSeq(b, a)[i]
    {
      XorBitsCommutes(a[i], b[i], 8);
    }
  }

  // ---------- Concatenating several pieces ----------

  lemma NoTail(b: bytes)
    ensures b + [] == b
  {
  }

  lemma FromStart(b: bytes)
    ensures [] + b == b
  {
  }

  lemma Glue2(o: bytes, a: bytes, b: bytes)
    ensures (o + a) + b == o + (a + b)
  {
  }

  lemma Glue3(o: bytes, a: bytes, b: bytes, c: bytes)
    ensures ((o + a) + b) + c == o + (a + (b + c))
  {
  }

  lemma Glue4(o: bytes, a: bytes, b: bytes, c: bytes, d: bytes)
    ensures (((o + a) + b) + c) + d == o + (a + (b + (c + d)))
  {
    Glue3(o, a, b, c);
    Glue3(o + a, b, c, d);
    Glue2(o, a, b + (c + d));
  }

  lemma Glue5(o: bytes, a: bytes, b: bytes, c: bytes, d: bytes, e: bytes)
    ensures ((((o + a) + b) + c) + d) + e == o + (a + (b + (c + (d + e))))
  {
    Glue4(o + a, b, c, d, e);
    Glue2(o, a, b + (c + (d + e)));
  }

  lemma Glue6(o: bytes, a: bytes, b: bytes, c: bytes, d: bytes, e: bytes, f: bytes)
    ensures (((((o + a) + b) + c) + d) + e) + f == o + (a + (b + (c + (d + (e + f)))))
  {
    Glue5(o + a, b, c, d, e, f);
    Glue2(o, a, b + (c + (d + (e + f))));
  }

  // ---------- Big-endian numbers ----------

  /** The k low bytes of n, most significant first. */
  function BE(n: nat, k: nat): (r: bytes)
    ensures |r| == k
  {
    if k == 0 then [] else BE(n / 256, k - 1) + [n % 256]
  }

  /** The number written big-endian in b. */
  function FromBE(b: bytes): (r: nat) {
    if b == [] then 0 else 256 * FromBE(b[..|b| - 1]) + b[|b| - 1]
  }

  lemma {:induction false} FromBEBound(b: bytes)
    ensures FromBE(b) < Pow256(|b|)
  {
    if b != [] {
      FromBEBound(b[..|b| - 1]);
    }
  }

  lemma {:induction false} FromBEofBE(n: nat, k: nat)
    requires n < Pow256(k)
    ensures FromBE(BE(n, k)) == n
  {
    if k > 0 {
      FromBEofBE(n / 256, k - 1);
      assert BE(n, k)[..k - 1] == BE(n / 256, k - 1);
    }
  }

  lemma {:induction false} BEofFromBE(b: bytes)
    ensures BE(FromBE(b), |b|) == b
  {
    if b != [] {
      BEofFromBE(b[..|b| - 1]);
      assert b == b[..|b| - 1] + [b[|b| - 1]];
    }
  }

  lemma BEInjective(m: nat, n: nat, k: nat)
    requires m < Pow256(k) && n < Pow256(k)
    requires BE(m, k) == BE(n, k)
    ensures m == n
  {
    FromBEofBE(m, k);
    FromBEofBE(n, k);
  }

  /** Leading zero bytes do not change the number. */
  lemma {:induction false} FromBELeadingZero(b: bytes)
    ensures FromBE([0] + b) == FromBE(b)
  {
    if b != [] {
      FromBELeadingZero(b[..|b| - 1]);
      assert ([0] + b)[..|b|] == [0] + b[..|b| - 1];
    } else {
      assert [0] + b == [0];
      assert [0][..0] == [];
    }
  }

  // ---------- Runs of one byte ----------

  function Zeros(n: nat): (r: bytes)
    ensures |r| == n
    ensures forall i :: 0 <= i < n ==> r[i] == 0
  {
    seq(n, _ => 0)
  }
}
