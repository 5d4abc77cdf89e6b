/** What the check for UTF-8 accepts: exactly the encodings of sequences of Unicode scalar values. */
module Utf8 {
  import opened Bytes
  import opened SshWire

  /** A code point that is not a surrogate. */
  predicate IsScalar(c: nat) {
    c < 0xD800 || 0xE000 <= c <= 0x10FFFF
  }

  /** Section 3 of RFC 3629: six bits to each byte after the first. */
  function EncScalar(c: nat): (r: bytes)
    requires IsScalar(c)
    ensures 1 <= |r| <= 4
  {
    if c < 0x80 then [c]
    else if c < 0x800 then [0xC0 + c / 64, 0x80 + c % 64]
    else if c < 0x10000 then [0xE0 + c / 64 / 64, 0x80 + c / 64 % 64, 0x80 + c % 64]
    else [0xF0 + c / 64 / 64 / 64, 0x80 + c / 64 / 64 % 64, 0x80 + c / 64 % 64, 0x80 + c % 64]
  }

  ghost predicate AllScalars(cs: seq<nat>) {
    forall i :: 0 <= i < |cs| ==> IsScalar(cs[i])
  }

  ghost function EncText(cs: seq<nat>): bytes
    requires AllScalars(cs)
  {
    if cs == [] then [] else EncScalar(cs[0]) + EncText(cs[1..])
  }

  // ---------- The forms of one character ----------

  predicate IsTwo(x: byte, y: byte) {
    0xC2 <= x <= 0xDF && Cont(y)
  }

  predicate IsThree(x: byte, y: byte, z: byte) {
    0xE0 <= x <= 0xEF && Cont(y) && Cont(z) && (x == 0xE0 ==> y >= 0xA0) && (x == 0xED ==> y <= 0x9F)
  }

  predicate IsFour(x: byte, y: byte, z: byte, w: byte) {
    && 0xF0 <= x <= 0xF4 && Cont(y) && Cont(z) && Cont(w)
    && (x == 0xF0 ==> y >= 0x90) && (x == 0xF4 ==> y <= 0x8F)
  }

  predicate IsCharacter(e: bytes) {
    || (|e| == 1 && e[0] < 0x80)
    || (|e| == 2 && IsTwo(e[0], e[1]))
    || (|e| == 3 && IsThree(e[0], e[1], e[2]))
    || (|e| == 4 && IsFour(e[0], e[1], e[2], e[3]))
  }

  lemma EncScalarIsCharacter(c: nat)
    requires IsScalar(c)
    ensures IsCharacter(EncScalar(c))
  {
  }

  /** A number is the six bits it ends in and what precedes them. */
  lemma SixBits(q: nat, r: nat)
    requires r < 64
    ensures (64 * q + r) / 64 == q && (64 * q + r) % 64 == r
  {
  }

  lemma CharacterIsScalar(e: bytes) returns (c: nat)
    requires IsCharacter(e)
    ensures IsScalar(c) && EncScalar(c) == e
  {
    if |e| == 1 {
      c := e[0];
    } else if |e| == 2 {
      c := TwoIsScalar(e[0], e[1]);
    } else if |e| == 3 {
      c := ThreeIsScalar(e[0], e[1], e[2]);
    } else {
      c := FourIsScalar(e[0], e[1], e[2], e[3]);
    }
  }

  lemma TwoIsScalar(x: byte, y: byte) returns (c: nat)
    requires IsTwo(x, y)
    ensures IsScalar(c) && EncScalar(c) == [x, y]
  {
    var q: nat, r: nat := x - 0xC0, y - 0x80;
    SixBits(q, r);
    c := 64 * q + r;
  }

  lemma ThreeIsScalar(x: byte, y: byte, z: byte) returns (c: nat)
    requires IsThree(x, y, z)
    ensures IsScalar(c) && EncScalar(c) == [x, y, z]
  {
    var p: nat, q: nat, r: nat := x - 0xE0, y - 0x80, z - 0x80;
    var h := 64 * p + q;
    SixBits(p, q);
    SixBits(h, r);
    c := 64 * h + r;
  }

  lemma FourIsScalar(x: byte, y: byte, z: byte, w: byte) returns (c: nat)
    requires IsFour(x, y, z, w)
    ensures IsScalar(c) && EncScalar(c) == [x, y, z, w]
  {
    var o: nat, p: nat, q: nat, r: nat := x - 0xF0, y - 0x80, z - 0x80, w - 0x80;
    var g := 64 * o + p;
    var h := 64 * g + q;
    SixBits(o, p);
    SixBits(g, q);
    SixBits(h, r);
    c := 64 * h + r;
  }

  // ---------- Texts ----------

  /** Well-formed bytes that are not empty begin with one character, and the rest is well-formed. */
  lemma FirstCharacter(b: bytes) returns (n: nat)
    requires b != [] && IsUtf8(b)
    ensures 1 <= n <= |b| && IsCharacter(b[..n]) && IsUtf8(b[n..])
  {
    n := if b[0] < 0x80 then 1 else if b[0] < 0xE0 then 2 else if b[0] < 0xF0 then 3 else 4;
  }

  lemma CharacterThenText(e: bytes, rest: bytes)
    requires IsCharacter(e) && IsUtf8(rest)
    ensures IsUtf8(e + rest)
  {
    var b := e + rest;
    assert b[|e|..] == rest;
    assert forall i :: 0 <= i < |e| ==> b[i] == e[i];
  }

  lemma {:induction false} TextIsUtf8(cs: seq<nat>)
    requires AllScalars(cs)
    ensures IsUtf8(EncText(cs))
  {
    if cs == [] {
    } else {
      TextIsUtf8(cs[1..]);
      EncScalarIsCharacter(cs[0]);
      hide IsUtf8, EncScalar, IsCharacter;
      CharacterThenText(EncScalar(cs[0]), EncText(cs[1..]));
    }
  }

  lemma {:induction false} Utf8IsText(b: bytes) returns (cs: seq<nat>)
    requires IsUtf8(b)
    ensures AllScalars(cs) && EncText(cs) == b
    decreases |b|
  {
    hide IsUtf8, EncScalar, IsCharacter, IsScalar;
    if b == [] {
      cs := [];
    } else {
      var n := FirstCharacter(b);
      var c := CharacterIsScalar(b[..n]);
      var more := Utf8IsText(b[n..]);
      cs := [c] + more;
      assert cs[1..] == more;
      assert b == b[..n] + b[n..];
    }
  }

  /** Bytes pass the check exactly when they encode some sequence of scalar values. */
  lemma IsUtf8Iff(b: bytes)
    ensures IsUtf8(b) <==> exists cs :: AllScalars(cs) && EncText(cs) == b
  {
    hide IsUtf8, EncText;
    if IsUtf8(b) {
      var cs := Utf8IsText(b);
    }
    if cs :| AllScalars(cs) && EncText(cs) == b {
      TextIsUtf8(cs);
    }
  }
}
