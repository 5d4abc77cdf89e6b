/** The mutable reader and writer the decoders and encoders step through. */
module SshReader {
  import opened Bytes
  import opened SshWire

  /** A step that reads `p` from what was there: its value is returned and what it leaves remains. */
  ghost predicate Reads<T(!new)>(p: Parsed<T>, r: Result<T>, after: bytes) {
    match p
    case Ok((v, rest)) => r == Ok(v) && after == rest
    case Err(e) => r == Err(e)
  }

  class Reader {
    var data: bytes

    constructor (data: bytes)
      ensures this.data == data
    {
      this.data := data;
    }

    method Read(n: nat) returns (r: Result<bytes>)
      modifies this
      ensures Reads(Take(old(data), n), r, data)
    {
      if |data| < n {
        return Err(Length);
      }
      r := Ok(data[..n]);
      data := data[n..];
    }

    method ReadU8() returns (r: Result<byte>)
      modifies this
      ensures Reads(GetU8(old(data)), r, data)
    {
      var b :- Read(1);
      r := Ok(b[0]);
    }

    method ReadU32() returns (r: Result<nat>)
      modifies this
      ensures Reads(GetU32(old(data)), r, data)
    {
      var b :- Read(4);
      r := Ok(FromBE(b));
    }

    method ReadU64() returns (r: Result<nat>)
      modifies this
      ensures Reads(GetU64(old(data)), r, data)
    {
      var b :- Read(8);
      r := Ok(FromBE(b));
    }

    method ReadStr() returns (r: Result<bytes>)
      modifies this
      ensures Reads(GetStr(old(data)), r, data)
    {
      var n :- ReadU32();
      r := Read(n);
    }

    method ReadText() returns (r: Result<bytes>)
      modifies this
      ensures Reads(GetText(old(data)), r, data)
    {
      var s :- ReadStr();
      r := if IsUtf8(s) then Ok(s) else Err(CharacterEncoding);
    }

    /** A reader over the next length-prefixed section. */
    method ReadSection() returns (r: Result<Reader>)
      modifies this
      ensures match GetStr(old(data))
              case Ok((s, rest)) => r.Ok? && fresh(r.value) && r.value.data == s && data == rest
              case Err(e) => r == Err(e)
    {
      var s :- ReadStr();
      var inner := new Reader(s);
      r := Ok(inner);
    }

    /** A section must have been consumed to its end. */
    method Finished<T>(v: T) returns (r: Result<T>)
      ensures r == if data == [] then Ok(v) else Err(TrailingData)
    {
      r := if data == [] then Ok(v) else Err(TrailingData);
    }
  }

  class Writer {
    var out: bytes

    constructor ()
      ensures out == []
    {
      out := [];
    }

    method Write(b: bytes)
      modifies this
      ensures out == old(out) + b
    {
      out := out + b;
    }

    /** Writes a length prefix and the bytes, unless the length does not fit. */
    method WriteStr(s: bytes) returns (ok: bool)
      modifies this
      ensures ok <==> Fits(s)
      ensures ok ==> out == old(out) + Str(s)
    {
      if |s| >= TWO_32 {
        return false;
      }
      Write(U32(|s|));
      Write(s);
      assert old(out) + U32(|s|) + s == old(out) + Str(s);
      ok := true;
    }
  }
}
