/** Key derivation settings of a private key, and the ciphers they derive keys for. */
module Kdfs {
  import opened Bytes
  import opened SshWire
  import opened Algorithms

  /** The ciphers of the cipher library; Plain stands for the absence of one. */
  datatype Cipher =
    | Plain
    | Aes128Cbc | Aes192Cbc | Aes256Cbc
    | Aes128Ctr | Aes192Ctr | Aes256Ctr
    | Aes128Gcm | Aes256Gcm
    | ChaCha20Poly1305
    | TDesCbc

  /** A ciphertext and, for authenticated modes, its tag. */
  datatype Sealed = Sealed(data: bytes, tag: Option<bytes>)

  const TAG_SIZE: nat := 16

  const MAX_BLOCK_SIZE: nat := 16

  /** The cipher library, bcrypt-pbkdf and the map from an Ed25519 seed to its public key. Encryption
      and derivation may fail. */
  datatype Crypto = Crypto(
    name: Cipher -> bytes,
    byName: bytes -> Option<Cipher>,
    blockSize: Cipher -> nat,
    keyAndIvSize: Cipher -> Option<(nat, nat)>,
    hasTag: Cipher -> bool,
    encrypt: (Cipher, bytes, bytes, bytes) -> Result<Sealed>,
    decrypt: (Cipher, bytes, bytes, Sealed) -> Result<bytes>,
    bcrypt: (bytes, bytes, nat, nat) -> Result<bytes>,
    publicOf: bytes -> bytes)
  {
    /** Names of ciphers parse back, and only they parse. */
    ghost predicate Names() {
      && (forall c :: byName(name(c)) == Some(c) && IsAscii(name(c)) && |name(c)| <= 64)
      && (forall id :: byName(id).Some? ==> name(byName(id).value) == id)
    }

    /** Blocks are of 8 bytes without a cipher and of at most 16 with one. */
    ghost predicate Blocks() {
      && blockSize(Plain) == 8
      && (forall c :: 1 <= blockSize(c) <= MAX_BLOCK_SIZE)
    }

    /** Only the absence of a cipher needs no key; key derivation gives as many bytes as asked for. */
    ghost predicate Keys() {
      && (forall c :: keyAndIvSize(c).None? <==> c == Plain)
      && (forall p, s, r, n :: bcrypt(p, s, r, n).Ok? ==> |bcrypt(p, s, r, n).value| == n)
    }

    /** Decryption undoes encryption, which keeps the length and adds a tag where the mode has one. */
    ghost predicate Inverse() {
      && (forall c, k, iv, m :: encrypt(c, k, iv, m).Ok? ==>
            var s := encrypt(c, k, iv, m).value;
            && |s.data| == |m| && (s.tag.Some? <==> hasTag(c)) && (s.tag.Some? ==> |s.tag.value| == TAG_SIZE)
            && decrypt(c, k, iv, s) == Ok(m))
    }

    ghost predicate Lawful() {
      Names() && Blocks() && Keys() && Inverse()
    }
  }

  /** All laws hold of a library that hides nothing, so they do not contradict each other. */
  function Transparent(): Crypto {
    var sealedBy := (c: Cipher, m: bytes) => Sealed(m, if c == Aes128Gcm then Some(Zeros(TAG_SIZE)) else None);
    Crypto.Crypto(
      Numbered, ByNumber,
      c => if c == Plain then 8 else 16,
      c => if c == Plain then None else Some((32, 16)),
      c => c == Aes128Gcm,
      (c, key, iv, m) => Ok(sealedBy(c, m)),
      (c, key, iv, s: Sealed) => Ok(s.data),
      (password, salt, rounds, n) => Ok(Zeros(n)),
      seed => seed)
  }

  function Numbered(c: Cipher): bytes {
    match c
    case Plain => [0]
    case Aes128Cbc => [1]
    case Aes192Cbc => [2]
    case Aes256Cbc => [3]
    case Aes128Ctr => [4]
    case Aes192Ctr => [5]
    case Aes256Ctr => [6]
    case Aes128Gcm => [7]
    case Aes256Gcm => [8]
    case ChaCha20Poly1305 => [9]
    case TDesCbc => [10]
  }

  function ByNumber(id: bytes): Option<Cipher> {
    if |id| != 1 || id[0] > 10 then None
    else
      var ciphers := [Plain, Aes128Cbc, Aes192Cbc, Aes256Cbc, Aes128Ctr, Aes192Ctr, Aes256Ctr, Aes128Gcm, Aes256Gcm,
                      ChaCha20Poly1305, TDesCbc];
      Some(ciphers[id[0]])
  }

  lemma NumbersAreNames(id: bytes)
    ensures ByNumber(id).Some? ==> Numbered(ByNumber(id).value) == id
  {
    assert |id| == 1 ==> id == [id[0]];
  }

  lemma NumbersDiffer(c: Cipher)
    ensures ByNumber(Numbered(c)) == Some(c) && IsAscii(Numbered(c)) && |Numbered(c)| <= 64
  {
  }

  lemma TransparentIsLawful()
    ensures Transparent().Lawful()
  {
    hide Numbered, ByNumber;
    forall c: Cipher
      ensures ByNumber(Numbered(c)) == Some(c) && IsAscii(Numbered(c)) && |Numbered(c)| <= 64
    {
      NumbersDiffer(c);
    }
    forall id | ByNumber(id).Some?
      ensures Numbered(ByNumber(id).value) == id
    {
      NumbersAreNames(id);
    }
  }

  /** The number of bytes that fills the last block. */
  function PaddingLen(x: Crypto, c: Cipher, n: nat): (p: nat)
    requires x.blockSize(c) >= 1
    ensures p < x.blockSize(c)
  {
    var b := x.blockSize(c);
    if n % b == 0 then 0 else b - n % b
  }

  /** It is the one padding shorter than a block that aligns the total. */
  lemma PaddingUnique(x: Crypto, c: Cipher, n: nat, p: nat)
    requires x.blockSize(c) >= 1 && p < x.blockSize(c)
    ensures (n + p) % x.blockSize(c) == 0 <==> p == PaddingLen(x, c, n)
  {
    var b := x.blockSize(c);
    var r := n % b;
    assert n == (n / b) * b + r;
    if r + p < b {
      ModUnique(n + p, b, n / b, r + p);
    } else {
      ModUnique(n + p, b, n / b + 1, r + p - b);
    }
  }

  function GetCipher(x: Crypto, b: bytes): Parsed<Cipher> {
    var (id, rest) :- GetText(b);
    match x.byName(id)
    case Some(c) => Ok((c, rest))
    case None => Err(Label)
  }

  lemma GetCipherOf(x: Crypto, c: Cipher, tail: bytes)
    requires x.Names()
    ensures GetCipher(x, Str(x.name(c)) + tail) == Ok((c, tail))
  {
    assert x.byName(x.name(c)) == Some(c);
    AsciiIsUtf8(x.name(c));
    GetTextOf(x.name(c), tail);
  }

  lemma GetCipherInverse(x: Crypto, b: bytes)
    requires x.Names() && GetCipher(x, b).Ok?
    ensures b == Str(x.name(GetCipher(x, b).value.0)) + GetCipher(x, b).value.1
  {
  }

  // ---------- Settings ----------

  datatype Kdf = NoKdf | Bcrypt(salt: bytes, rounds: nat)

  const NONE := Ascii("none")

  const BCRYPT := Ascii("bcrypt")

  function AlgName(k: Kdf): bytes {
    if k.NoKdf? then NONE else BCRYPT
  }

  function Enc(k: Kdf, tail: bytes): bytes {
    match k
    case NoKdf => Str(NONE) + (U32(0) + tail)
    case Bcrypt(salt, rounds) => Str(BCRYPT) + (U32(8 + |salt|) + (Str(salt) + (U32(rounds) + tail)))
  }

  function EncodedLen(k: Kdf): nat {
    (4 + |AlgName(k)|) + match k case NoKdf => 4 case Bcrypt(salt, _) => 12 + |salt|
  }

  predicate Encodable(k: Kdf) {
    k.Bcrypt? ==> 8 + |k.salt| < TWO_32
  }

  /** What the type guarantees. */
  predicate Valid(k: Kdf) {
    k.Bcrypt? ==> k.rounds < TWO_32
  }

  function GetOptions(b: bytes): Parsed<Kdf> {
    var (salt, rest) :- GetStr(b);
    var (rounds, rest') :- GetU32(rest);
    Ok((Bcrypt(salt, rounds), rest'))
  }

  function Get(b: bytes): Parsed<Kdf> {
    var (id, rest) :- GetText(b);
    if id == NONE then
      var (n, rest') :- GetU32(rest);
      if n == 0 then Ok((NoKdf, rest')) else Err(AlgorithmUnknown)
    else if id == BCRYPT then
      var (options, rest') :- GetStr(rest);
      var k :- Finish(GetOptions(options));
      Ok((k, rest'))
    else Err(Label)
  }

  /** The options of bcrypt are one prefixed section. */
  lemma BcryptSection(salt: bytes, rounds: nat, tail: bytes)
    ensures U32(8 + |salt|) + (Str(salt) + (U32(rounds) + tail)) == Str(Str(salt) + U32(rounds)) + tail
  {
    assert |Str(salt) + U32(rounds)| == 8 + |salt|;
  }

  lemma EncLength(k: Kdf)
    ensures |Enc(k, [])| == EncodedLen(k)
  {
  }

  lemma EncAppend(k: Kdf, tail: bytes)
    ensures Enc(k, tail) == Enc(k, []) + tail
  {
    hide Str, U32;
    if k.NoKdf? {
      NoTail(U32(0));
      Glue2(Str(NONE), U32(0), tail);
    } else {
      var a, b, c, d := Str(BCRYPT), U32(8 + |k.salt|), Str(k.salt), U32(k.rounds);
      NoTail(d);
      Glue4(a, b, c, d, tail);
      Glue3(a, b, c, d);
    }
  }

  lemma NoneRoundTrip(tail: bytes)
    ensures Get(Enc(NoKdf, tail)) == Ok((NoKdf, tail))
  {
    AsciiIsUtf8(NONE);
    GetTextOf(NONE, U32(0) + tail);
    GetU32Of(0, tail);
  }

  lemma GetOptionsOf(salt: bytes, rounds: nat)
    requires Fits(salt) && rounds < TWO_32
    ensures Finish(GetOptions(Str(salt) + U32(rounds))) == Ok(Bcrypt(salt, rounds))
  {
    GetStrOf(salt, U32(rounds));
    assert U32(rounds) + [] == U32(rounds);
    GetU32Of(rounds, []);
  }

  /** Settings read back as they were written, whatever follows. */
  lemma RoundTrip(k: Kdf, tail: bytes)
    requires Valid(k) && Encodable(k)
    ensures Get(Enc(k, tail)) == Ok((k, tail))
  {
    if k.NoKdf? {
      NoneRoundTrip(tail);
    } else {
      var options := Str(k.salt) + U32(k.rounds);
      BcryptSection(k.salt, k.rounds, tail);
      AsciiIsUtf8(BCRYPT);
      GetTextOf(BCRYPT, Str(options) + tail);
      GetStrOf(options, tail);
      GetOptionsOf(k.salt, k.rounds);
      assert |NONE| != |BCRYPT|;
    }
  }

  lemma OptionsInverse(b: bytes)
    requires Finish(GetOptions(b)).Ok?
    ensures var k := Finish(GetOptions(b)).value;
            k.Bcrypt? && Valid(k) && b == Str(k.salt) + U32(k.rounds)
  {
    var (salt, rest) := GetStr(b).value;
    var (rounds, rest') := GetU32(rest).value;
    assert rest == U32(rounds) + [] == U32(rounds);
  }

  lemma BcryptInverse(b: bytes, rest: bytes)
    requires GetText(b) == Ok((BCRYPT, rest)) && Get(b).Ok?
    ensures var (k, rest') := Get(b).value; Valid(k) && Encodable(k) && b == Enc(k, rest')
  {
    assert |NONE| != |BCRYPT|;
    var (options, rest') := GetStr(rest).value;
    OptionsInverse(options);
    var k := Get(b).value.0;
    BcryptSection(k.salt, k.rounds, rest');
  }

  /** And conversely, what was read is what would be written. */
  lemma Inverse(b: bytes)
    requires Get(b).Ok?
    ensures var (k, rest) := Get(b).value; Valid(k) && Encodable(k) && b == Enc(k, rest)
  {
    var (id, rest) := GetText(b).value;
    if id == NONE {
      var (n, rest') := GetU32(rest).value;
    } else {
      BcryptInverse(b, rest);
    }
  }

  // ---------- Deriving ----------

  function Derive(x: Crypto, k: Kdf, password: bytes, n: nat): Result<bytes> {
    match k
    case NoKdf => Err(Decrypted)
    case Bcrypt(salt, rounds) =>
      match x.bcrypt(password, salt, rounds, n)
      case Ok(out) => Ok(out)
      case Err(_) => Err(Error.Crypto)
  }

  lemma DerivedSize(x: Crypto, k: Kdf, password: bytes, n: nat)
    requires x.Keys()
    ensures Derive(x, k, password, n).Ok? ==> |Derive(x, k, password, n).value| == n
  {
  }

  /** A buffer is filled with the derived bytes and split; for ChaCha20 the IV part is overwritten. */
  method FillAndSplit(derived: bytes, keySize: nat, zeroIv: bool) returns (key: bytes, iv: bytes)
    requires keySize <= |derived|
    ensures key == derived[..keySize]
    ensures iv == if zeroIv then Zeros(|derived| - keySize) else derived[keySize..]
  {
    var okm := new byte[|derived|](i requires 0 <= i < |derived| => derived[i]);
    assert okm[..] == derived;
    if zeroIv {
      forall i | keySize <= i < okm.Length {
        okm[i] := 0;
      }
    }
    key, iv := okm[..keySize], okm[keySize..];
  }

  method DeriveKeyAndIv(x: Crypto, k: Kdf, c: Cipher, password: bytes) returns (r: Result<(bytes, bytes)>)
    requires x.Keys()
    ensures r == KeyAndIv(x, k, c, password)
  {
    hide Derive, Zeros;
    var sizes := x.keyAndIvSize(c);
    if sizes.None? {
      return Err(Decrypted);
    }
    var (keySize, ivSize) := sizes.value;
    DerivedSize(x, k, password, keySize + ivSize);
    var okm :- Derive(x, k, password, keySize + ivSize);
    var key, iv := FillAndSplit(okm, keySize, c == ChaCha20Poly1305);
    r := Ok((key, iv));
  }

  /** Key and IV: consecutive parts of one derived string, but ChaCha20's nonce is all zeros. */
  function KeyAndIv(x: Crypto, k: Kdf, c: Cipher, password: bytes): (r: Result<(bytes, bytes)>)
    requires x.Keys()
    ensures r.Ok? <==> c != Plain && k.Bcrypt? &&
                       var (keySize, ivSize) := x.keyAndIvSize(c).value;
                       x.bcrypt(password, k.salt, k.rounds, keySize + ivSize).Ok?
    ensures r.Ok? ==> x.keyAndIvSize(c) == Some((|r.value.0|, |r.value.1|))
    ensures r.Ok? ==>
              var (key, iv) := r.value;
              var okm := x.bcrypt(password, k.salt, k.rounds, |key| + |iv|).value;
              key <= okm && if c.ChaCha20Poly1305? then iv == Zeros(|iv|) else key + iv == okm
  {
    match x.keyAndIvSize(c)
    case None => Err(Decrypted)
    case Some((keySize, ivSize)) =>
      var okm :- Derive(x, k, password, keySize + ivSize);
      assert okm[..keySize] + okm[keySize..] == okm;
      Ok((okm[..keySize], if c == ChaCha20Poly1305 then Zeros(ivSize) else okm[keySize..]))
  }
}
