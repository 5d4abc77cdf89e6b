/** Critical options and extensions of a certificate: a map kept and written in order of name. */
module CertOptions {
  import opened Bytes
  import opened SshWire

  datatype Entry = Entry(name: bytes, data: bytes)

  /** Order of strings, byte by byte. */
  predicate Less(a: bytes, b: bytes) {
    b != [] && (a == [] || a[0] < b[0] || (a[0] == b[0] && Less(a[1..], b[1..])))
  }

  /** One string is before another exactly when it is a proper prefix of it, or smaller at the first difference. */
  lemma {:induction false} LessIff(a: bytes, b: bytes)
    ensures Less(a, b) <==> a < b || exists i :: FirstSmaller(a, b, i)
  {
    if a != [] && b != [] {
      LessIff(a[1..], b[1..]);
      if a[0] < b[0] {
        assert FirstSmaller(a, b, 0);
      }
      if a[0] == b[0] {
        if i: nat :| FirstSmaller(a[1..], b[1..], i) {
          assert a[..i + 1] == [a[0]] + a[1..][..i] && b[..i + 1] == [b[0]] + b[1..][..i];
          assert FirstSmaller(a, b, i + 1);
        }
      }
      if i: nat :| FirstSmaller(a, b, i) && i > 0 {
        assert a[0] == a[..i][0] == b[..i][0] == b[0];
        assert a[1..][..i - 1] == a[..i][1..] && b[1..][..i - 1] == b[..i][1..];
        assert FirstSmaller(a[1..], b[1..], i - 1);
      }
    }
  }

  predicate FirstSmaller(a: bytes, b: bytes, i: nat) {
    i < |a| && i < |b| && a[..i] == b[..i] && a[i] < b[i]
  }

  /** Of two strings exactly one is before the other, unless they are the same. */
  lemma {:induction false} LessIsTotal(a: bytes, b: bytes)
    ensures Less(a, b) <==> a != b && !Less(b, a)
  {
    if a != [] && b != [] {
      LessIsTotal(a[1..], b[1..]);
      assert a == [a[0]] + a[1..] && b == [b[0]] + b[1..];
    }
  }

  lemma {:induction false} LessIsTransitive(a: bytes, b: bytes, c: bytes)
    requires Less(a, b) && Less(b, c)
    ensures Less(a, c)
  {
    if a != [] && a[0] == b[0] == c[0] {
      LessIsTransitive(a[1..], b[1..], c[1..]);
    }
  }

  predicate After(prev: Option<bytes>, name: bytes) {
    prev.None? || Less(prev.value, name)
  }

  /** The entries of a map, listed in order, each name once. */
  predicate Sorted(es: seq<Entry>, prev: Option<bytes>) {
    es == [] || (After(prev, es[0].name) && Sorted(es[1..], Some(es[0].name)))
  }

  /** Comparing neighbours is enough: of any two entries the earlier has the smaller name. */
  lemma SortedIff(es: seq<Entry>)
    ensures Sorted(es, None) <==> forall i, j :: 0 <= i < j < |es| ==> Less(es[i].name, es[j].name)
  {
    if es != [] {
      SortedAfterIff(es[1..], es[0].name);
      hide Less;
      assert Sorted(es, None) == Sorted(es[1..], Some(es[0].name));
      if Sorted(es, None) {
        forall i, j | 0 <= i < j < |es| ensures Less(es[i].name, es[j].name) {
          assert es[j] == es[1..][j - 1];
          if i > 0 {
            assert es[i] == es[1..][i - 1];
          }
        }
      }
    }
  }

  lemma {:induction false} SortedAfterIff(es: seq<Entry>, prev: bytes)
    ensures Sorted(es, Some(prev)) <==>
            && (forall j :: 0 <= j < |es| ==> Less(prev, es[j].name))
            && forall i, j :: 0 <= i < j < |es| ==> Less(es[i].name, es[j].name)
  {
    hide Less;
    if es != [] {
      var rest := es[1..];
      SortedAfterIff(rest, es[0].name);
      assert forall j :: 0 <= j < |rest| ==> rest[j] == es[j + 1];
      if Sorted(es, Some(prev)) {
        forall j | 0 <= j < |es| ensures Less(prev, es[j].name) {
          if j > 0 {
            assert es[j] == rest[j - 1];
            LessIsTransitive(prev, es[0].name, es[j].name);
          }
        }
        forall i, j | 0 <= i < j < |es| ensures Less(es[i].name, es[j].name) {
          assert es[j] == rest[j - 1];
          if i > 0 {
            assert es[i] == rest[i - 1];
          }
        }
      }
    }
  }

  predicate Texts(es: seq<Entry>) {
    forall i :: 0 <= i < |es| ==> IsUtf8(es[i].name) && IsUtf8(es[i].data)
  }

  predicate Valid(es: seq<Entry>) {
    Sorted(es, None) && Texts(es)
  }

  /** Data is wrapped twice, except that no data is written as nothing. */
  function Wrapped(data: bytes): bytes {
    if data == [] then [] else Str(data)
  }

  function Enc(es: seq<Entry>): bytes {
    if es == [] then [] else Str(es[0].name) + (Str(Wrapped(es[0].data)) + Enc(es[1..]))
  }

  function EncodedLen(es: seq<Entry>): nat {
    if es == [] then 0
    else (4 + |es[0].name|) + (if es[0].data == [] then 4 else 8 + |es[0].data|) + EncodedLen(es[1..])
  }

  predicate Encodable(es: seq<Entry>) {
    forall i :: 0 <= i < |es| ==> Fits(es[i].name) && Fits(Str(es[i].data))
  }

  function GetEntry(b: bytes): (r: Parsed<Entry>)
    ensures r.Ok? ==> |r.value.1| < |b|
  {
    var (name, rest) :- GetText(b);
    var (inner, rest') :- GetStr(rest);
    var data :- if inner == [] then Ok([]) else Finish(GetText(inner));
    Ok((Entry(name, data), rest'))
  }

  function Get(b: bytes, prev: Option<bytes>): Result<seq<Entry>>
    decreases |b|
  {
    if b == [] then Ok([])
    else
      var (e, rest) :- GetEntry(b);
      if !After(prev, e.name) then Err(FormatEncoding)
      else
        var more :- Get(rest, Some(e.name));
        Ok([e] + more)
  }

  /** The decoding loop over the section's bytes. */
  method Decode(b: bytes) returns (r: Result<seq<Entry>>)
    ensures r == Get(b, None)
  {
    var entries: seq<Entry> := [];
    var reader := b;
    assert Get(b, None).Ok? ==> entries + Get(b, None).value == Get(b, None).value;
    while reader != []
      invariant Get(b, None) == Prepend(entries, Get(reader, LastName(entries)))
      decreases |reader|
    {
      OneMore(entries, reader);
      var p :- GetEntry(reader);
      var e := p.0;
      if entries != [] && !Less(entries[|entries| - 1].name, e.name) {
        return Err(FormatEncoding);
      }
      entries := entries + [e];
      reader := p.1;
    }
    assert entries + [] == entries;
    r := Ok(entries);
  }

  function LastName(entries: seq<Entry>): Option<bytes> {
    if entries == [] then None else Some(entries[|entries| - 1].name)
  }

  function Prepend(entries: seq<Entry>, r: Result<seq<Entry>>): Result<seq<Entry>> {
    if r.Ok? then Ok(entries + r.value) else r
  }

  /** One turn of the loop. */
  lemma OneMore(entries: seq<Entry>, b: bytes)
    requires b != []
    ensures Prepend(entries, Get(b, LastName(entries))) ==
            match GetEntry(b)
            case Err(e) => Err(e)
            case Ok((e, rest)) =>
              if !After(LastName(entries), e.name) then Err(FormatEncoding)
              else Prepend(entries + [e], Get(rest, LastName(entries + [e])))
  {
    if GetEntry(b).Ok? {
      var (e, rest) := GetEntry(b).value;
      var more := Get(rest, Some(e.name));
      if more.Ok? {
        assert entries + ([e] + more.value) == (entries + [e]) + more.value;
      }
    }
  }

  lemma {:induction false} EncLength(es: seq<Entry>)
    ensures |Enc(es)| == EncodedLen(es)
  {
    if es != [] {
      EncLength(es[1..]);
    }
  }

  lemma GetEntryOf(e: Entry, tail: bytes)
    requires IsUtf8(e.name) && IsUtf8(e.data) && Fits(e.name) && Fits(Str(e.data))
    ensures GetEntry(Str(e.name) + (Str(Wrapped(e.data)) + tail)) == Ok((e, tail))
  {
    GetTextOf(e.name, Str(Wrapped(e.data)) + tail);
    GetStrOf(Wrapped(e.data), tail);
    if e.data != [] {
      assert Str(e.data) == Str(e.data) + [];
      GetTextOf(e.data, []);
    }
  }

  lemma {:induction false} GetOf(es: seq<Entry>, prev: Option<bytes>)
    requires Sorted(es, prev) && Texts(es) && Encodable(es)
    ensures Get(Enc(es), prev) == Ok(es)
  {
    hide Str, GetEntry, Wrapped;
    if es != [] {
      StrLength(es[0].name);
      GetEntryOf(es[0], Enc(es[1..]));
      GetOf(es[1..], Some(es[0].name));
      assert es == [es[0]] + es[1..];
    }
  }

  lemma {:induction false} GetValid(b: bytes, prev: Option<bytes>)
    requires Get(b, prev).Ok?
    ensures Sorted(Get(b, prev).value, prev) && Texts(Get(b, prev).value)
    decreases |b|
  {
    hide Less, GetEntry, IsUtf8;
    if b != [] {
      var (e, rest) := GetEntry(b).value;
      GetValid(rest, Some(e.name));
      var es := Get(b, prev).value;
      assert es[1..] == Get(rest, Some(e.name)).value;
      EntryTexts(b);
    }
  }

  /** No entry wraps empty data, which would be written as nothing. */
  predicate Minimal(b: bytes)
    decreases |b|
  {
    b == [] || (GetEntry(b).Ok? && EntryMinimal(b) && Minimal(GetEntry(b).value.1))
  }

  predicate EntryMinimal(b: bytes)
    requires GetEntry(b).Ok?
  {
    GetStr(GetText(b).value.1).value.0 != Str([])
  }

  lemma EntryReencoded(b: bytes)
    requires GetEntry(b).Ok?
    ensures var (e, rest) := GetEntry(b).value;
            var again := Str(e.name) + (Str(Wrapped(e.data)) + rest);
            && Fits(e.name) && Fits(Str(e.data))
            && if EntryMinimal(b) then again == b else |again| < |b|
  {
    var (name, rest) := GetText(b).value;
    var (inner, rest') := GetStr(rest).value;
    StrLength(name);
    StrLength(inner);
    if inner != [] {
      var (data, end) := GetText(inner).value;
      NoTail(Str(data));
      StrLength(data);
      hide Str;
      if data == [] {
        assert Wrapped(data) == [];
        StrLength([]);
      }
    }
  }

  /** Writing options again gives the same bytes when they are minimal, and fewer bytes otherwise. */
  lemma {:induction false} Reencoded(b: bytes, prev: Option<bytes>)
    requires Get(b, prev).Ok?
    ensures Encodable(Get(b, prev).value)
    ensures var again := Enc(Get(b, prev).value);
            if Minimal(b) then again == b else |again| < |b|
    decreases |b|
  {
    hide Str, GetEntry, Wrapped, EntryMinimal;
    if b != [] {
      var (e, rest) := GetEntry(b).value;
      Reencoded(rest, Some(e.name));
      EntryReencoded(b);
      var es := Get(b, prev).value;
      assert es[0] == e && es[1..] == Get(rest, Some(e.name)).value;
    }
  }

  lemma EntryTexts(b: bytes)
    requires GetEntry(b).Ok?
    ensures IsUtf8(GetEntry(b).value.0.name) && IsUtf8(GetEntry(b).value.0.data)
  {
  }
}
