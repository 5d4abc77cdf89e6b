/** The fields keys are written in: one length-prefixed string after another, each with a check of its
    own. */
module KeyFields {
  import opened Bytes
  import opened SshWire
  import opened Algorithms

  /** What a field must hold. All fields are strings but the single octet, which has no length prefix. */
  datatype Kind =
    | Octet
    | Anything
    | Text
    | Exactly(size: nat)
    | Integer
    | CurveName
    | P256Name
    | CurvePoint
    | P256Point
    | ScalarOf(curve: EcdsaCurve)

  // ---------- Curves, points and scalars ----------

  const NISTP256 := Ascii("nistp256")
  const NISTP384 := Ascii("nistp384")
  const NISTP521 := Ascii("nistp521")

  function CurveLabel(c: EcdsaCurve): (r: bytes)
    ensures |r| == 8 && IsAscii(r)
  {
    match c case NistP256 => NISTP256 case NistP384 => NISTP384 case NistP521 => NISTP521
  }

  function CurveOf(id: bytes): Option<EcdsaCurve> {
    if id == NISTP256 then Some(NistP256)
    else if id == NISTP384 then Some(NistP384)
    else if id == NISTP521 then Some(NistP521)
    else None
  }

  lemma CurveOfLabel(c: EcdsaCurve)
    ensures CurveOf(CurveLabel(c)) == Some(c)
  {
    assert NISTP256[5] == '2' as int && NISTP384[5] == '3' as int && NISTP521[5] == '5' as int;
  }

  lemma LabelOfCurve(id: bytes)
    requires CurveOf(id).Some?
    ensures CurveLabel(CurveOf(id).value) == id
  {
  }

  const TAG_IDENTITY: byte := 0
  const TAG_EVEN: byte := 2
  const TAG_ODD: byte := 3
  const TAG_UNCOMPRESSED: byte := 4
  const TAG_COMPACT: byte := 5

  /** An encoded point of a curve with coordinates of this size: section 2.3.3 of SEC 1, and the compact
      form. */
  predicate PointOk(b: bytes, size: nat) {
    && b != []
    && (|| (b[0] == TAG_IDENTITY && |b| == 1)
        || (b[0] in {TAG_EVEN, TAG_ODD, TAG_COMPACT} && |b| == 1 + size)
        || (b[0] == TAG_UNCOMPRESSED && |b| == 1 + 2 * size))
  }

  /** The curve is told from tag and length; the identity and the compact form are refused here. */
  function PointCurve(b: bytes): Result<EcdsaCurve> {
    if b == [] then Err(Length)
    else if b[0] !in {TAG_IDENTITY, TAG_EVEN, TAG_ODD, TAG_UNCOMPRESSED, TAG_COMPACT} then Err(Sec1)
    else if b[0] in {TAG_IDENTITY, TAG_COMPACT} then Err(AlgorithmUnknown)
    else
      var size := if b[0] == TAG_UNCOMPRESSED then (|b| - 1) / 2 else |b| - 1;
      if size == 32 then (if PointOk(b, 32) then Ok(NistP256) else Err(Sec1))
      else if size == 48 then (if PointOk(b, 48) then Ok(NistP384) else Err(Sec1))
      else if size == 66 then (if PointOk(b, 66) then Ok(NistP521) else Err(Sec1))
      else Err(Length)
  }

  /** A point is taken for one of its own curve, unless it is the identity or compact. */
  lemma PointCurveIff(b: bytes, c: EcdsaCurve)
    requires PointOk(b, FieldSize(c))
    ensures PointCurve(b) == Ok(c) <==> b[0] != TAG_IDENTITY && b[0] != TAG_COMPACT
  {
  }

  lemma PointCurveOk(b: bytes)
    requires PointCurve(b).Ok?
    ensures PointOk(b, FieldSize(PointCurve(b).value)) && b[0] != TAG_IDENTITY && b[0] != TAG_COMPACT
    ensures |b| <= 133
  {
  }

  /** How a private scalar is written: all its bytes, after a zero when the first one is large. */
  function ScalarField(d: bytes): bytes
    requires d != []
  {
    if d[0] >= 0x80 then [0] + d else d
  }

  /** What a written scalar stands for: a zero in excess is dropped and missing bytes are filled in. */
  function ScalarValue(f: bytes, size: nat): (d: bytes)
    requires |f| <= size || (|f| == size + 1 && f[0] == 0)
    ensures |d| == size
  {
    if |f| == size + 1 then f[1..] else Zeros(size - |f|) + f
  }

  /** Written the way it would be written. */
  predicate ScalarVerbatim(f: bytes, size: nat) {
    || (|f| == size && f != [] && f[0] < 0x80)
    || (|f| == size + 1 && size > 0 && f[0] == 0 && f[1] >= 0x80)
  }

  lemma ScalarFieldIff(f: bytes, size: nat)
    requires size > 0 && (|f| <= size || (|f| == size + 1 && f[0] == 0))
    ensures ScalarField(ScalarValue(f, size)) == f <==> ScalarVerbatim(f, size)
  {
    var d := ScalarValue(f, size);
    if |f| == size + 1 {
      assert f == [0] + f[1..];
    } else if |f| == size {
      assert d == f;
    }
  }

  lemma ScalarValueOf(d: bytes)
    requires d != []
    ensures |ScalarField(d)| <= |d| || (|ScalarField(d)| == |d| + 1 && ScalarField(d)[0] == 0)
    ensures ScalarValue(ScalarField(d), |d|) == d
  {
    if d[0] >= 0x80 {
      assert ([0] + d)[1..] == d;
    } else {
      assert Zeros(0) + d == d;
    }
  }

  const MIN_SCALAR: nat := 32

  // ---------- One field ----------

  /** What is wrong with a string as a field of this kind, if anything. */
  function Fault(kind: Kind, s: bytes): Option<Error> {
    match kind
    case Octet => if |s| == 1 then None else Some(Length)
    case Anything => None
    case Text => if IsUtf8(s) then None else Some(CharacterEncoding)
    case Exactly(n) => if |s| < n then Some(Length) else if |s| > n then Some(TrailingData) else None
    case Integer => if MpintOk(s) then None else Some(MpintEncoding)
    case CurveName =>
      if !IsUtf8(s) then Some(CharacterEncoding) else if CurveOf(s).None? then Some(Label) else None
    case P256Name =>
      if !IsUtf8(s) then Some(CharacterEncoding)
      else if CurveOf(s).None? then Some(Label)
      else if CurveOf(s) != Some(NistP256) then Some(Crypto)
      else None
    case CurvePoint =>
      if |s| > 133 then Some(Length) else if PointCurve(s).Err? then Some(PointCurve(s).error) else None
    case P256Point => if |s| > 65 then Some(Length) else if PointOk(s, 32) then None else Some(Sec1)
    case ScalarOf(c) =>
      var size := FieldSize(c);
      if |s| == size + 1 then (if s[0] == 0 then None else Some(FormatEncoding))
      else if MIN_SCALAR <= |s| <= size then None
      else Some(Length)
  }

  predicate Accepts(kind: Kind, s: bytes) {
    Fits(s) && Fault(kind, s) == None
  }

  function EncField(kind: Kind, s: bytes, tail: bytes): bytes {
    if kind.Octet? then s + tail else Str(s) + tail
  }

  function GetField(kind: Kind, b: bytes): (r: Parsed<bytes>)
    ensures r.Ok? ==> Accepts(kind, r.value.0) && |r.value.1| < |b|
    ensures r.Ok? ==> b == EncField(kind, r.value.0, r.value.1)
  {
    if kind.Octet? then
      var (x, rest) :- GetU8(b);
      Ok(([x], rest))
    else
      var (s, rest) :- GetStr(b);
      match Fault(kind, s)
      case None => Ok((s, rest))
      case Some(e) => Err(e)
  }

  lemma GetFieldOf(kind: Kind, s: bytes, tail: bytes)
    requires Accepts(kind, s)
    ensures GetField(kind, EncField(kind, s, tail)) == Ok((s, tail))
  {
    hide Str, Fault;
    if kind.Octet? {
      OctetIsOne(s);
      GetU8Of(s[0], tail);
      assert s == [s[0]];
    } else {
      GetStrOf(s, tail);
    }
  }

  lemma OctetIsOne(s: bytes)
    requires Accepts(Octet, s)
    ensures |s| == 1
  {
  }

  // ---------- Several fields ----------

  function EncFields(kinds: seq<Kind>, fields: seq<bytes>, tail: bytes): bytes
    requires |kinds| == |fields|
  {
    if kinds == [] then tail
    else EncField(kinds[0], fields[0], EncFields(kinds[1..], fields[1..], tail))
  }

  function GetFields(kinds: seq<Kind>, b: bytes): (r: Parsed<seq<bytes>>)
    ensures r.Ok? ==> |r.value.0| == |kinds| && |r.value.1| <= |b| && (kinds != [] ==> |r.value.1| < |b|)
    decreases |kinds|
  {
    if kinds == [] then Ok(([], b))
    else
      var (s, rest) :- GetField(kinds[0], b);
      var (more, rest') :- GetFields(kinds[1..], rest);
      Ok(([s] + more, rest'))
  }

  ghost predicate AllAccepted(kinds: seq<Kind>, fields: seq<bytes>) {
    |kinds| == |fields| && forall i :: 0 <= i < |kinds| ==> Accepts(kinds[i], fields[i])
  }

  function FieldsLen(kinds: seq<Kind>, fields: seq<bytes>): nat
    requires |kinds| == |fields|
  {
    if kinds == [] then 0
    else (if kinds[0].Octet? then |fields[0]| else 4 + |fields[0]|) + FieldsLen(kinds[1..], fields[1..])
  }

  lemma {:induction false} EncFieldsAppend(kinds: seq<Kind>, fields: seq<bytes>, tail: bytes)
    requires |kinds| == |fields|
    ensures EncFields(kinds, fields, tail) == EncFields(kinds, fields, []) + tail
    ensures |EncFields(kinds, fields, [])| == FieldsLen(kinds, fields)
    decreases |kinds|
  {
    hide Str;
    if kinds == [] {
      FromStart(tail);
    } else {
      EncFieldsAppend(kinds[1..], fields[1..], tail);
      var more := EncFields(kinds[1..], fields[1..], []);
      StrLength(fields[0]);
      Glue2(if kinds[0].Octet? then fields[0] else Str(fields[0]), more, tail);
    }
  }

  /** Accepted fields read back, whatever follows. */
  lemma {:induction false} GetFieldsOf(kinds: seq<Kind>, fields: seq<bytes>, tail: bytes)
    requires AllAccepted(kinds, fields)
    ensures GetFields(kinds, EncFields(kinds, fields, tail)) == Ok((fields, tail))
    decreases |kinds|
  {
    hide Accepts, EncField, GetField;
    if kinds != [] {
      GetFieldOf(kinds[0], fields[0], EncFields(kinds[1..], fields[1..], tail));
      GetFieldsOf(kinds[1..], fields[1..], tail);
      assert fields == [fields[0]] + fields[1..];
    }
  }

  /** Whatever reads as fields is accepted and is its own encoding. */
  lemma {:induction false} GetFieldsInverse(kinds: seq<Kind>, b: bytes)
    requires GetFields(kinds, b).Ok?
    ensures AllAccepted(kinds, GetFields(kinds, b).value.0)
    ensures b == EncFields(kinds, GetFields(kinds, b).value.0, GetFields(kinds, b).value.1)
    decreases |kinds|
  {
    hide Accepts, EncField, GetField;
    if kinds != [] {
      var (s, rest) := GetField(kinds[0], b).value;
      GetFieldsInverse(kinds[1..], rest);
      var fields := GetFields(kinds, b).value.0;
      assert fields[0] == s && fields[1..] == GetFields(kinds[1..], rest).value.0;
    }
  }

  // ---------- One list of fields after another ----------

  function GetThen(a: Kind, more: seq<Kind>, b: bytes): Parsed<seq<bytes>> {
    var (s, rest) :- GetField(a, b);
    var (f, rest') :- GetFields(more, rest);
    Ok(([s] + f, rest'))
  }

  function GetBoth(kinds: seq<Kind>, more: seq<Kind>, b: bytes): Parsed<seq<bytes>> {
    var (f, b1) :- GetFields(kinds, b);
    var (g, rest) :- GetFields(more, b1);
    Ok((f + g, rest))
  }

  lemma FieldThenFields(a: Kind, more: seq<Kind>, b: bytes)
    ensures GetFields([a] + more, b) == GetThen(a, more, b)
  {
    hide GetField;
    assert ([a] + more)[1..] == more;
  }

  lemma {:induction false} BothFields(kinds: seq<Kind>, more: seq<Kind>, b: bytes)
    ensures GetFields(kinds + more, b) == GetBoth(kinds, more, b)
    decreases |kinds|
  {
    hide *;
    if kinds == [] {
      assert [] + more == more;
      NoneThenFields(more, b);
    } else {
      JoinHead(kinds, more);
      FieldThenFields(kinds[0], kinds[1..] + more, b);
      FieldThenFields(kinds[0], kinds[1..], b);
      assert [kinds[0]] + kinds[1..] == kinds;
      if GetField(kinds[0], b).Ok? {
        BothFields(kinds[1..], more, GetField(kinds[0], b).value.1);
      }
      ThenBoth(kinds, more, b);
    }
  }

  lemma ThenBoth(kinds: seq<Kind>, more: seq<Kind>, b: bytes)
    requires kinds != [] && GetFields(kinds, b) == GetThen(kinds[0], kinds[1..], b)
    requires GetField(kinds[0], b).Ok? ==>
               var b1 := GetField(kinds[0], b).value.1;
               GetFields(kinds[1..] + more, b1) == GetBoth(kinds[1..], more, b1)
    ensures GetThen(kinds[0], kinds[1..] + more, b) == GetBoth(kinds, more, b)
  {
    hide GetField, GetFields;
    if GetField(kinds[0], b).Ok? {
      var (s, b1) := GetField(kinds[0], b).value;
      if GetBoth(kinds[1..], more, b1).Ok? {
        var (f, b2) := GetFields(kinds[1..], b1).value;
        JoinAll(s, f, GetFields(more, b2).value.0);
      }
    }
  }

  lemma NoneThenFields(more: seq<Kind>, b: bytes)
    ensures GetFields(more, b) == GetBoth([], more, b)
  {
    hide GetField;
    if GetFields(more, b).Ok? {
      assert [] + GetFields(more, b).value.0 == GetFields(more, b).value.0;
    }
  }

  lemma JoinHead(kinds: seq<Kind>, more: seq<Kind>)
    requires kinds != []
    ensures kinds + more == [kinds[0]] + (kinds[1..] + more)
  {
  }

  lemma JoinAll(s: bytes, f: seq<bytes>, g: seq<bytes>)
    ensures [s] + (f + g) == ([s] + f) + g
  {
  }

  function GetOne(a: Kind, b: bytes): Parsed<seq<bytes>> {
    var (s, rest) :- GetField(a, b);
    Ok(([s], rest))
  }

  lemma OneField(a: Kind, b: bytes)
    ensures GetFields([a], b) == GetOne(a, b)
  {
    hide GetField;
    assert [a][1..] == [];
    if GetField(a, b).Ok? {
      var (s, rest) := GetField(a, b).value;
      assert GetFields([], rest) == Ok(([], rest));
      assert [s] + [] == [s];
    }
  }

  /** Fields without an octet among them are a list of strings. */
  lemma {:induction false} FieldsAreList(kinds: seq<Kind>, fields: seq<bytes>, tail: bytes)
    requires |kinds| == |fields| && forall i :: 0 <= i < |kinds| ==> !kinds[i].Octet?
    ensures EncFields(kinds, fields, tail) == StrList(fields) + tail
    decreases |kinds|
  {
    hide Str;
    if kinds == [] {
      FromStart(tail);
    } else {
      FieldsAreList(kinds[1..], fields[1..], tail);
      Glue2(Str(fields[0]), StrList(fields[1..]), tail);
    }
  }
}
