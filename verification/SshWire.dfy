/** The wire types of section 5 of RFC 4251 and the reader that consumes them. Encoders are written
    with the bytes that follow as a last argument, so that what a decoder leaves over is visible. */
module SshWire {
  import opened Bytes

  datatype Error =
    | Length
    | CharacterEncoding
    | MpintEncoding
    | Label
    | TrailingData
    | FormatEncoding
    | Crypto
    | PublicKey
    | Encrypted
    | Decrypted
    | AlgorithmUnknown
    | AlgorithmUnsupported
    | Namespace
    | HashSize
    | Version
    | CertificateValidation
    | Sec1

  datatype Result<+T> = Ok(value: T) | Err(error: Error)
  {
    predicate IsFailure() {
      Err?
    }

    function PropagateFailure<U>(): Result<U>
      requires Err?
    {
      Err(error)
    }

    function Extract(): T
      requires Ok?
    {
      value
    }
  }

  /** A decoded value and the bytes after it. */
  type Parsed<+T> = Result<(T, bytes)>

  // ---------- Encoders ----------

  function U8(n: byte): bytes {
    [n]
  }

  function U32(n: nat): bytes {
    BE(n, 4)
  }

  function U64(n: nat): bytes {
    BE(n, 8)
  }

  /** Length-prefixed bytes. */
  function Str(s: bytes): bytes {
    U32(|s|) + s
  }

  /** The length fits the prefix; encoding anything longer is an error. */
  predicate Fits(s: bytes) {
    |s| < TWO_32
  }

  lemma StrLength(s: bytes)
    ensures |Str(s)| == 4 + |s|
  {
  }

  // ---------- Decoders ----------

  function Take(b: bytes, n: nat): (r: Parsed<bytes>)
    ensures r.Ok? ==> |r.value.0| == n && b == r.value.0 + r.value.1
  {
    if |b| < n then Err(Length) else Ok((b[..n], b[n..]))
  }

  function GetU8(b: bytes): (r: Parsed<byte>)
    ensures r.Ok? ==> b == U8(r.value.0) + r.value.1
  {
    var (x, rest) :- Take(b, 1);
    Ok((x[0], rest))
  }

  function GetU32(b: bytes): (r: Parsed<nat>)
    ensures r.Ok? ==> r.value.0 < TWO_32 && b == U32(r.value.0) + r.value.1
  {
    var (x, rest) :- Take(b, 4);
    FromBEBound(x);
    BEofFromBE(x);
    Pow256Values();
    Ok((FromBE(x), rest))
  }

  function GetU64(b: bytes): (r: Parsed<nat>)
    ensures r.Ok? ==> r.value.0 < TWO_64 && b == U64(r.value.0) + r.value.1
  {
    var (x, rest) :- Take(b, 8);
    FromBEBound(x);
    BEofFromBE(x);
    Pow256Values();
    Ok((FromBE(x), rest))
  }

  function GetStr(b: bytes): (r: Parsed<bytes>)
    ensures r.Ok? ==> Fits(r.value.0) && b == Str(r.value.0) + r.value.1
    ensures r.Ok? ==> |r.value.0| < |b| && |r.value.1| < |b|
  {
    var (n, rest) :- GetU32(b);
    var (s, rest') :- Take(rest, n);
    Ok((s, rest'))
  }

  /** A string that must be UTF-8. */
  function GetText(b: bytes): (r: Parsed<bytes>)
    ensures r.Ok? ==> GetStr(b) == r && IsUtf8(r.value.0)
  {
    var (s, rest) :- GetStr(b);
    if IsUtf8(s) then Ok((s, rest)) else Err(CharacterEncoding)
  }

  /** The end of a length-prefixed section: everything in it must have been consumed. */
  function Finish<T>(r: Parsed<T>): Result<T> {
    var (v, rest) :- r;
    if rest == [] then Ok(v) else Err(TrailingData)
  }

  // ---------- Each decoder undoes its encoder ----------

  lemma TakeOf(x: bytes, tail: bytes)
    ensures Take(x + tail, |x|) == Ok((x, tail))
  {
  }

  lemma GetU8Of(n: byte, tail: bytes)
    ensures GetU8(U8(n) + tail) == Ok((n, tail))
  {
    TakeOf(U8(n), tail);
  }

  lemma GetU32Of(n: nat, tail: bytes)
    requires n < TWO_32
    ensures GetU32(U32(n) + tail) == Ok((n, tail))
  {
    Pow256Values();
    FromBEofBE(n, 4);
    TakeOf(U32(n), tail);
  }

  lemma GetU64Of(n: nat, tail: bytes)
    requires n < TWO_64
    ensures GetU64(U64(n) + tail) == Ok((n, tail))
  {
    Pow256Values();
    FromBEofBE(n, 8);
    TakeOf(U64(n), tail);
  }

  lemma GetStrOf(s: bytes, tail: bytes)
    requires Fits(s)
    ensures GetStr(Str(s) + tail) == Ok((s, tail))
  {
    assert Str(s) + tail == U32(|s|) + (s + tail);
    GetU32Of(|s|, s + tail);
    TakeOf(s, tail);
  }

  lemma GetTextOf(s: bytes, tail: bytes)
    requires Fits(s) && IsUtf8(s)
    ensures GetText(Str(s) + tail) == Ok((s, tail))
  {
    GetStrOf(s, tail);
  }

  /** No string is a prefix of another's encoding: what follows cannot be misread. */
  lemma StrInjective(s: bytes, tail: bytes, s': bytes, tail': bytes)
    requires Fits(s) && Fits(s') && Str(s) + tail == Str(s') + tail'
    ensures s == s' && tail == tail'
  {
    GetStrOf(s, tail);
    GetStrOf(s', tail');
  }

  // ---------- UTF-8 ----------

  /** Well-formed UTF-8, as in table 3-7 of the Unicode standard. */
  predicate IsUtf8(b: bytes)
    decreases |b|
  {
    if b == [] then true
    else if b[0] < 0x80 then IsUtf8(b[1..])
    else if |b| >= 2 && 0xC2 <= b[0] <= 0xDF && Cont(b[1]) then IsUtf8(b[2..])
    else if |b| >= 3 && 0xE0 <= b[0] <= 0xEF && Cont(b[1]) && Cont(b[2])
            && (b[0] == 0xE0 ==> b[1] >= 0xA0) && (b[0] == 0xED ==> b[1] <= 0x9F) then IsUtf8(b[3..])
    else if |b| >= 4 && 0xF0 <= b[0] <= 0xF4 && Cont(b[1]) && Cont(b[2]) && Cont(b[3])
            && (b[0] == 0xF0 ==> b[1] >= 0x90) && (b[0] == 0xF4 ==> b[1] <= 0x8F) then IsUtf8(b[4..])
    else false
  }

  predicate Cont(b: byte) {
    0x80 <= b <= 0xBF
  }

  lemma {:induction false} AsciiIsUtf8(b: bytes)
    requires forall i :: 0 <= i < |b| ==> b[i] < 0x80
    ensures IsUtf8(b)
  {
    if b != [] {
      AsciiIsUtf8(b[1..]);
    }
  }

  // ---------- Lists of strings ----------

  function StrList(items: seq<bytes>): bytes {
    if items == [] then [] else Str(items[0]) + StrList(items[1..])
  }

  /** Strings up to the end of the section. */
  function GetTextList(b: bytes): (r: Result<seq<bytes>>)
    decreases |b|
  {
    if b == [] then Ok([])
    else
      var (s, rest) :- GetText(b);
      var more :- GetTextList(rest);
      Ok([s] + more)
  }

  ghost predicate AllText(items: seq<bytes>) {
    forall i :: 0 <= i < |items| ==> IsUtf8(items[i]) && Fits(items[i])
  }

  lemma {:induction false} GetTextListOf(items: seq<bytes>)
    requires AllText(items)
    ensures GetTextList(StrList(items)) == Ok(items)
  {
    hide Str, IsUtf8, GetTextList;
    if items == [] {
      NoText();
    } else {
      GetTextOf(items[0], StrList(items[1..]));
      GetTextListOf(items[1..]);
      TextThenList(items[0], StrList(items[1..]), items[1..]);
      assert items == [items[0]] + items[1..];
    }
  }

  lemma NoText()
    ensures GetTextList([]) == Ok([])
  {
  }

  lemma TextThenList(s: bytes, rest: bytes, more: seq<bytes>)
    requires GetText(Str(s) + rest) == Ok((s, rest)) && GetTextList(rest) == Ok(more)
    ensures GetTextList(Str(s) + rest) == Ok([s] + more)
  {
    hide Str, GetText;
    StrLength(s);
  }

  lemma {:induction false} GetTextListValid(b: bytes)
    requires GetTextList(b).Ok?
    ensures AllText(GetTextList(b).value)
    ensures StrList(GetTextList(b).value) == b
    decreases |b|
  {
    hide Str, IsUtf8, GetStr;
    if b != [] {
      var (s, rest) := GetText(b).value;
      GetTextListValid(rest);
      var more, items := GetTextList(rest).value, GetTextList(b).value;
      assert items[0] == s && items[1..] == more;
      assert forall i :: 0 < i < |items| ==> items[i] == more[i - 1];
    }
  }

  // ---------- Multiple precision integers ----------

  /** The body of an mpint must not start with a superfluous zero byte. */
  predicate MpintOk(m: bytes) {
    m != [0] && !(|m| >= 2 && m[0] == 0 && m[1] < 0x80)
  }

  function GetMpint(b: bytes): (r: Parsed<bytes>)
    ensures r.Ok? ==> GetStr(b) == r && MpintOk(r.value.0)
  {
    var (m, rest) :- GetStr(b);
    if MpintOk(m) then Ok((m, rest)) else Err(MpintEncoding)
  }

  /** The magnitude of a positive mpint, without its sign byte. */
  function AsPositive(m: bytes): Option<bytes> {
    if m == [] then None
    else if m[0] == 0 then Some(m[1..])
    else if m[0] < 0x80 then Some(m)
    else None
  }

  function StripZeros(b: bytes): (r: bytes)
    ensures |r| <= |b| && (r != [] ==> r[0] != 0)
  {
    if b != [] && b[0] == 0 then StripZeros(b[1..]) else b
  }

  /** An mpint from an unsigned big-endian magnitude. */
  function FromPositive(b: bytes): (m: bytes)
    ensures MpintOk(m)
  {
    var s := StripZeros(b);
    if s != [] && s[0] >= 0x80 then [0] + s else s
  }

  lemma {:induction false} StripZerosKeepsValue(b: bytes)
    ensures FromBE(StripZeros(b)) == FromBE(b)
  {
    if b != [] && b[0] == 0 {
      StripZerosKeepsValue(b[1..]);
      FromBELeadingZero(b[1..]);
      assert b == [0] + b[1..];
    }
  }

  lemma {:induction false} LeadingByteCounts(b: bytes)
    requires b != [] && b[0] != 0
    ensures FromBE(b) > 0
  {
    if |b| > 1 {
      LeadingByteCounts(b[..|b| - 1]);
    }
  }

  /** Reading the magnitude back gives the same number in no more bytes, for every positive number;
      zero alone has no positive form. */
  lemma PositiveRoundTrip(b: bytes)
    ensures AsPositive(FromPositive(b)) == if FromBE(b) > 0 then Some(StripZeros(b)) else None
    ensures FromBE(StripZeros(b)) == FromBE(b)
  {
    StripZerosKeepsValue(b);
    var s := StripZeros(b);
    if s != [] {
      LeadingByteCounts(s);
      if s[0] >= 0x80 {
        assert ([0] + s)[1..] == s;
      }
    }
  }

  lemma {:induction false} FromBELowerBound(b: bytes)
    requires b != [] && b[0] != 0
    ensures FromBE(b) >= Pow256(|b| - 1)
  {
    if |b| > 1 {
      FromBELowerBound(b[..|b| - 1]);
    }
  }

  lemma {:induction false} Pow256Monotone(m: nat, n: nat)
    requires m <= n
    ensures Pow256(m) <= Pow256(n)
    decreases n
  {
    if m < n {
      Pow256Monotone(m, n - 1);
    }
  }

  /** A number has one magnitude without a leading zero. */
  lemma MagnitudeUnique(a: bytes, b: bytes)
    requires a != [] && a[0] != 0 && b != [] && b[0] != 0 && FromBE(a) == FromBE(b)
    ensures a == b
  {
    MagnitudeNotShorter(a, b);
    MagnitudeNotShorter(b, a);
    BEofFromBE(a);
    BEofFromBE(b);
  }

  lemma MagnitudeNotShorter(a: bytes, b: bytes)
    requires b != [] && b[0] != 0 && FromBE(a) == FromBE(b)
    ensures |a| >= |b|
  {
    if |a| < |b| {
      Pow256Monotone(|a|, |b| - 1);
    }
    FromBEBound(a);
    FromBELowerBound(b);
  }

  /** A positive number has one mpint. */
  lemma MpintUnique(m: bytes, m': bytes)
    requires MpintOk(m) && MpintOk(m') && AsPositive(m).Some? && AsPositive(m').Some?
    requires FromBE(AsPositive(m).value) == FromBE(AsPositive(m').value)
    ensures m == m'
  {
    var a, b := AsPositive(m).value, AsPositive(m').value;
    MagnitudeUnique(a, b);
    assert m[0] == 0 ==> m == [0] + a;
    assert m'[0] == 0 ==> m' == [0] + b;
  }
}
