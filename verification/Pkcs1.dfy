/** How RSA signatures frame a digest: fixed prefixes, which are the DER of a hash algorithm and a digest as in
    section 9.2 of RFC 8017. */
module Pkcs1 {
  import opened Bytes
  import opened Algorithms

  const SHA1_INFO: bytes := [0x30, 0x21, 0x30, 0x09, 0x06, 0x05, 0x2b, 0x0e, 0x03, 0x02, 0x1a, 0x05, 0x00, 0x04, 0x14]

  const SHA256_INFO: bytes :=
    [0x30, 0x31, 0x30, 0x0d, 0x06, 0x09, 0x60, 0x86, 0x48, 0x01, 0x65, 0x03, 0x04, 0x02, 0x01, 0x05, 0x00, 0x04, 0x20]

  const SHA512_INFO: bytes :=
    [0x30, 0x51, 0x30, 0x0d, 0x06, 0x09, 0x60, 0x86, 0x48, 0x01, 0x65, 0x03, 0x04, 0x02, 0x03, 0x05, 0x00, 0x04, 0x40]

  function InfoPrefix(hash: Option<HashAlg>): bytes {
    match hash
    case None => SHA1_INFO
    case Some(Sha256) => SHA256_INFO
    case Some(Sha512) => SHA512_INFO
  }

  /** No two prefixes have the same second byte. */
  lemma PrefixesDiffer(hash: Option<HashAlg>, hash': Option<HashAlg>)
    ensures |InfoPrefix(hash)| > 1 && |InfoPrefix(hash')| > 1
    ensures InfoPrefix(hash)[1] == InfoPrefix(hash')[1] ==> hash == hash'
  {
  }

  // ---------- DER ----------

  /** A short DER value: tag, length, contents. */
  function Der(tag: byte, contents: bytes): bytes
    requires |contents| < 128
  {
    [tag, |contents|] + contents
  }

  /** One arc of an object identifier, in base 128 with a continuation bit on all but the last digit. */
  function Arc(n: nat): bytes {
    if n < 128 then [n] else Higher(n / 128) + [n % 128]
  }

  function Higher(n: nat): bytes {
    if n < 128 then [128 + n] else Higher(n / 128) + [128 + n % 128]
  }

  function Arcs(arcs: seq<nat>): bytes {
    if arcs == [] then [] else Arc(arcs[0]) + Arcs(arcs[1..])
  }

  /** The contents of an object identifier; its first two arcs share a byte. */
  function Oid(first: nat, second: nat, arcs: seq<nat>): bytes
    requires 40 * first + second < 128
  {
    [40 * first + second] + Arcs(arcs)
  }

  /** The identifiers of SHA-1 and of the two SHA-2 hashes. */
  function HashOid(hash: Option<HashAlg>): bytes {
    match hash
    case None => Oid(1, 3, [14, 3, 2, 26])
    case Some(Sha256) => Oid(2, 16, [840, 1, 101, 3, 4, 2, 1])
    case Some(Sha512) => Oid(2, 16, [840, 1, 101, 3, 4, 2, 3])
  }

  function DigestLen(hash: Option<HashAlg>): nat {
    match hash case None => 20 case Some(Sha256) => 32 case Some(Sha512) => 64
  }

  lemma SmallArc(n: nat, rest: seq<nat>)
    requires n < 128
    ensures Arcs([n] + rest) == [n] + Arcs(rest)
  {
    assert ([n] + rest)[1..] == rest;
  }

  lemma Sha1Arcs()
    ensures Arcs([14, 3, 2, 26]) == [14, 3, 2, 26]
  {
    hide Arcs;
    NoArcs();
    SmallArc(26, []);
    SmallArc(2, [26]);
    SmallArc(3, [2, 26]);
    SmallArc(14, [3, 2, 26]);
    assert [26] + [] == [26] && [2] + [26] == [2, 26] && [3] + [2, 26] == [3, 2, 26];
    assert [14] + [3, 2, 26] == [14, 3, 2, 26];
  }

  lemma NoArcs()
    ensures Arcs([]) == []
  {
  }

  lemma Sha2Arcs(n: nat)
    requires n < 128
    ensures Arcs([1, 101, 3, 4, 2, n]) == [1, 101, 3, 4, 2, n]
  {
    hide Arcs;
    NoArcs();
    SmallArc(n, []);
    SmallArc(2, [n]);
    SmallArc(4, [2, n]);
    SmallArc(3, [4, 2, n]);
    SmallArc(101, [3, 4, 2, n]);
    SmallArc(1, [101, 3, 4, 2, n]);
    assert [n] + [] == [n] && [2] + [n] == [2, n] && [4] + [2, n] == [4, 2, n];
    assert [3] + [4, 2, n] == [3, 4, 2, n] && [101] + [3, 4, 2, n] == [101, 3, 4, 2, n];
    assert [1] + [101, 3, 4, 2, n] == [1, 101, 3, 4, 2, n];
  }

  lemma FirstArcs(n: nat)
    requires n < 128
    ensures var arcs: seq<nat> := [840, 1, 101, 3, 4, 2, n];
            Arcs(arcs) == [0x86, 0x48, 0x01, 0x65, 0x03, 0x04, 0x02, n]
  {
    var arcs: seq<nat> := [840, 1, 101, 3, 4, 2, n];
    Sha2Arcs(n);
    assert Higher(6) == [0x86];
    assert Arc(840) == Higher(6) + [0x48];
    assert arcs[1..] == [1, 101, 3, 4, 2, n];
  }

  lemma HashOidBytes(hash: Option<HashAlg>)
    ensures HashOid(hash) == match hash
                             case None => [0x2b, 0x0e, 0x03, 0x02, 0x1a]
                             case Some(Sha256) => [0x60, 0x86, 0x48, 0x01, 0x65, 0x03, 0x04, 0x02, 0x01]
                             case Some(Sha512) => [0x60, 0x86, 0x48, 0x01, 0x65, 0x03, 0x04, 0x02, 0x03]
  {
    hide Arcs;
    Sha1Arcs();
    FirstArcs(1);
    FirstArcs(3);
  }

  /** A hash algorithm without parameters, and a digest. */
  function DerDigest(hash: Option<HashAlg>, digest: bytes): bytes
    requires |digest| <= 64
  {
    HashOidBytes(hash);
    Der(0x30, Der(0x30, Der(0x06, HashOid(hash)) + Der(0x05, [])) + Der(0x04, digest))
  }

  /** What stands before the digest. */
  function Flat(oid: bytes, n: nat): bytes
    requires |oid| < 10 && n <= 64
  {
    [0x30, |oid| + 8 + n, 0x30, |oid| + 4, 0x06, |oid|] + (oid + [0x05, 0x00, 0x04, n])
  }

  lemma DerIsFlat(oid: bytes, digest: bytes)
    requires |oid| < 10 && |digest| <= 64
    ensures Der(0x30, Der(0x30, Der(0x06, oid) + Der(0x05, [])) + Der(0x04, digest)) == Flat(oid, |digest|) + digest
  {
    var name := Der(0x06, oid) + Der(0x05, []);
    assert name == [0x06, |oid|] + (oid + [0x05, 0x00]);
    var id := Der(0x30, name);
    assert id == [0x30, |oid| + 4] + name;
    assert id + Der(0x04, digest) == [0x30, |oid| + 4, 0x06, |oid|] + (oid + [0x05, 0x00, 0x04, |digest|]) + digest;
  }

  lemma PrefixIsFlat(hash: Option<HashAlg>)
    ensures |HashOid(hash)| < 10 && InfoPrefix(hash) == Flat(HashOid(hash), DigestLen(hash))
  {
    hide HashOid;
    HashOidBytes(hash);
    var p, q := InfoPrefix(hash), Flat(HashOid(hash), DigestLen(hash));
    assert |p| == |q|;
    assert forall i :: 0 <= i < |p| ==> p[i] == q[i];
  }

  lemma PrefixIsDer(hash: Option<HashAlg>, digest: bytes)
    requires |digest| == DigestLen(hash)
    ensures InfoPrefix(hash) + digest == DerDigest(hash, digest)
  {
    hide HashOid, Der, Flat, InfoPrefix;
    PrefixIsFlat(hash);
    DerIsFlat(HashOid(hash), digest);
  }
}
