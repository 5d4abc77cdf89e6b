/** Multi-step CMAC contexts. The underlying context cannot be copied, so cloning starts a fresh one
    and replays everything fed so far. */
module Cmac {
  import opened Bytes

  datatype Algorithm = Aes128 | Aes192 | Aes256

  function KeyLen(a: Algorithm): nat {
    match a case Aes128 => 16 case Aes192 => 24 case Aes256 => 32
  }

  const TAG_LEN: nat := 16

  /** The C library: contexts of type S, each call returning None where C reports failure. */
  datatype Library<!S(!new)> = Library(
    init: (Algorithm, bytes) -> Option<S>,
    update: (S, bytes) -> Option<S>,
    finish: S -> Option<bytes>)
  {
    /** Two successful updates amount to one with the concatenation. */
    ghost predicate Streaming() {
      && (forall s: S :: update(s, []) == Some(s))
      && (forall s: S, a: bytes, b: bytes {:trigger update(s, a + b), update(s, a)} ::
            update(s, a).Some? && update(update(s, a).value, b).Some? ==>
            update(s, a + b) == update(update(s, a).value, b))
    }
  }

  /** A library that keeps all it is fed meets the law. */
  lemma RecordingLibraryStreams()
    ensures Library((a, key) => Some(key), (s: bytes, d) => Some(s + d), (s: bytes) => Some(s)).Streaming()
  {
    forall s: bytes
      ensures s + [] == s
    {
    }
    forall s: bytes, a: bytes, b: bytes
      ensures s + (a + b) == (s + a) + b
    {
    }
  }

  /** The library, asked in one step from a fresh context, gives this tag: it absorbs the data and its final
      call delivers sixteen bytes. */
  ghost predicate IsTag<S(!new)>(l: Library<S>, s0: S, data: bytes, tag: bytes) {
    l.update(s0, data).Some? && l.finish(l.update(s0, data).value) == Some(tag) && |tag| == TAG_LEN
  }

  // ---------- Keys and contexts ----------

  class Key<S(!new)> {
    const l: Library<S>
    const algorithm: Algorithm
    const keyBytes: bytes
    var ctx: S

    ghost predicate Valid() {
      |keyBytes| == KeyLen(algorithm) && l.init(algorithm, keyBytes).Some?
    }

    /** What a context keyed like this one is before any data. */
    ghost function Fresh(): S
      requires Valid()
    {
      l.init(algorithm, keyBytes).value
    }

    constructor (l: Library<S>, algorithm: Algorithm, keyValue: bytes)
      requires |keyValue| == KeyLen(algorithm) && l.init(algorithm, keyValue).Some?
      ensures this.l == l && this.algorithm == algorithm && keyBytes == keyValue
      ensures Valid() && ctx == Fresh()
    {
      this.l, this.algorithm, this.keyBytes := l, algorithm, keyValue;
      this.ctx := l.init(algorithm, keyValue).value;
    }

    /** A key for the given value; fails on a wrong length or if the library refuses it. */
    static method New(l: Library<S>, algorithm: Algorithm, keyValue: bytes) returns (r: Option<Key<S>>)
      ensures r.Some? <==>
                && |keyValue| == (match algorithm case Aes128 => 16 case Aes192 => 24 case Aes256 => 32)
                && l.init(algorithm, keyValue).Some?
      ensures r.Some? ==> r.value.Valid() && fresh(r.value) && r.value.ctx == r.value.Fresh()
      ensures r.Some? ==> r.value.l == l && r.value.algorithm == algorithm && r.value.keyBytes == keyValue
    {
      if |keyValue| != KeyLen(algorithm) || l.init(algorithm, keyValue).None? {
        return None;
      }
      var k := new Key(l, algorithm, keyValue);
      r := Some(k);
    }

    /** Cloning a key re-imports its bytes, which succeeded before, so it cannot fail; the clone's
        context is fresh whatever this one has absorbed. */
    method Clone() returns (k: Key<S>)
      requires Valid()
      ensures fresh(k) && k.Valid() && k.ctx == k.Fresh()
      ensures k.l == l && k.algorithm == algorithm && k.keyBytes == keyBytes
    {
      var r := Key<S>.New(l, algorithm, keyBytes);
      k := r.value;
    }
  }

  class Context<S(!new)> {
    const key: Key<S>
    var accumulatedData: bytes

    /** The library context has absorbed exactly the accumulated data. */
    ghost predicate Valid()
      reads this, key
    {
      && key.Valid() && key.l.Streaming()
      && key.l.update(key.Fresh(), accumulatedData) == Some(key.ctx)
    }

    constructor (key: Key<S>)
      requires key.Valid() && key.l.Streaming()
      ensures Valid() && accumulatedData == [] && fresh(this.key)
      ensures this.key.l == key.l && this.key.Fresh() == key.Fresh()
    {
      var k := key.Clone();
      this.key := k;
      this.accumulatedData := [];
    }

    method Update(data: bytes) returns (ok: bool)
      requires Valid()
      modifies this, key
      ensures Valid()
      ensures ok <==> key.l.update(old(key.ctx), data).Some?
      ensures accumulatedData == old(accumulatedData) + if ok then data else []
    {
      var s := key.l.update(key.ctx, data);
      if s.None? {
        return false;
      }
      key.ctx := s.value;
      accumulatedData := accumulatedData + data;
      ok := true;
    }

    /** The replay's return code is ignored, and need not be looked at: it always succeeds. */
    method Clone() returns (c: Context<S>)
      requires Valid()
      ensures fresh(c) && fresh(c.key) && c.Valid()
      ensures c.accumulatedData == accumulatedData && c.key.ctx == key.ctx
      ensures c.key.l == key.l && c.key.Fresh() == key.Fresh()
    {
      c := new Context(key);
      c.accumulatedData := accumulatedData;
      if c.accumulatedData != [] {
        var s := c.key.l.update(c.key.ctx, c.accumulatedData);
        if s.Some? {
          c.key.ctx := s.value;
        }
      }
    }

    /** The tag of everything absorbed; a tag of unexpected length is a failure. */
    method Sign() returns (tag: Option<bytes>)
      requires Valid()
      ensures forall t :: tag == Some(t) <==>
                key.l.finish(key.l.update(key.Fresh(), accumulatedData).value) == Some(t) && |t| == 16
    {
      tag := key.l.finish(key.ctx);
      if tag.Some? && |tag.value| != TAG_LEN {
        tag := None;
      }
    }

    method Verify(tag: bytes) returns (ok: bool)
      requires Valid()
      ensures ok <==> key.l.finish(key.l.update(key.Fresh(), accumulatedData).value) == Some(tag) && |tag| == 16
    {
      var computed := Sign();
      ok := computed == Some(tag);
    }
  }

  /** The one-step form, written with a context as the library user would. */
  method SignOnce<S(!new)>(key: Key<S>, data: bytes) returns (tag: Option<bytes>)
    requires key.Valid() && key.l.Streaming()
    ensures forall t :: tag == Some(t) <==> IsTag(key.l, key.l.init(key.algorithm, key.keyBytes).value, data, t)
  {
    var ctx := new Context(key);
    var ok := ctx.Update(data);
    if !ok {
      return None;
    }
    assert [] + data == data;
    tag := ctx.Sign();
  }

  method SignToBuffer<S(!new)>(key: Key<S>, data: bytes, output: array<byte>) returns (ok: bool)
    requires key.Valid() && key.l.Streaming()
    modifies output
    ensures ok <==>
            && 16 <= output.Length
            && exists t :: IsTag(key.l, key.l.init(key.algorithm, key.keyBytes).value, data, t)
    ensures ok ==> IsTag(key.l, key.l.init(key.algorithm, key.keyBytes).value, data, output[..16])
    ensures ok ==> output[16..] == old(output[16..])
    ensures output.Length < 16 ==> output[..] == old(output[..])
  {
    if output.Length < TAG_LEN {
      return false;
    }
    var tag := SignOnce(key, data);
    if tag.None? {
      return false;
    }
    forall i | 0 <= i < TAG_LEN {
      output[i] := tag.value[i];
    }
    assert output[..TAG_LEN] == tag.value;
    ok := true;
  }

  /** The one-step check: the tag is computed into a buffer and compared. */
  method VerifyOnce<S(!new)>(key: Key<S>, data: bytes, tag: bytes) returns (ok: bool)
    requires key.Valid() && key.l.Streaming()
    ensures ok <==> IsTag(key.l, key.l.init(key.algorithm, key.keyBytes).value, data, tag)
  {
    var output := new byte[TAG_LEN];
    var signed := SignToBuffer(key, data, output);
    ok := signed && output[..TAG_LEN] == tag;
  }

  // ---------- Trees of contexts ----------

  /** Start a context from the key, feed one, or clone one. */
  datatype Op = WithKey | Feed(i: nat, data: bytes) | CloneOf(i: nat)

  datatype Live<S> = Live(ctx: S, acc: bytes)

  /** All live contexts after one operation; operations on a context that does not exist, and failed
      updates, change nothing. */
  function Step<S(!new)>(l: Library<S>, s0: S, cs: seq<Live<S>>, op: Op): seq<Live<S>> {
    match op
    case WithKey => cs + [Live(s0, [])]
    case Feed(i, data) =>
      if i < |cs| && l.update(cs[i].ctx, data).Some?
      then cs[i := Live(l.update(cs[i].ctx, data).value, cs[i].acc + data)]
      else cs
    case CloneOf(i) =>
      if i >= |cs| then cs
      else
        var replay := if cs[i].acc == [] then None else l.update(s0, cs[i].acc);
        cs + [Live(if replay.Some? then replay.value else s0, cs[i].acc)]
  }

  function After<S(!new)>(l: Library<S>, s0: S, ops: seq<Op>): seq<Live<S>> {
    if ops == [] then [] else Step(l, s0, After(l, s0, ops[..|ops| - 1]), ops[|ops| - 1])
  }

  /** Feeding d after the message m goes through. */
  predicate Goes<S(!new)>(l: Library<S>, s0: S, m: bytes, d: bytes) {
    l.update(s0, m).Some? && l.update(l.update(s0, m).value, d).Some?
  }

  /** The message of each context, read off the tree alone: a clone inherits its parent's message so
      far, and an update lengthens one message only. */
  function Messages<S(!new)>(l: Library<S>, s0: S, ops: seq<Op>): seq<bytes> {
    if ops == [] then []
    else
      var ms, op := Messages(l, s0, ops[..|ops| - 1]), ops[|ops| - 1];
      match op
      case WithKey => ms + [[]]
      case Feed(i, d) => if i < |ms| && Goes(l, s0, ms[i], d) then ms[i := ms[i] + d] else ms
      case CloneOf(i) => if i < |ms| then ms + [ms[i]] else ms
  }

  ghost predicate Tracks<S(!new)>(l: Library<S>, s0: S, c: Live<S>, m: bytes) {
    c.acc == m && l.update(s0, m) == Some(c.ctx)
  }

  /** In every tree of updates and clones, each context has accumulated exactly its own message and
      its library context has absorbed exactly that. */
  lemma {:induction false} TreeInvariant<S(!new)>(l: Library<S>, s0: S, ops: seq<Op>)
    requires l.Streaming()
    ensures |After(l, s0, ops)| == |Messages(l, s0, ops)|
    ensures forall i :: 0 <= i < |After(l, s0, ops)| ==>
              Tracks(l, s0, After(l, s0, ops)[i], Messages(l, s0, ops)[i])
  {
    if ops != [] {
      TreeInvariant(l, s0, ops[..|ops| - 1]);
      var cs, ms := After(l, s0, ops[..|ops| - 1]), Messages(l, s0, ops[..|ops| - 1]);
      var op := ops[|ops| - 1];
      match op
      case WithKey =>
      case Feed(i, d) =>
        if i < |cs| {
          assert Tracks(l, s0, cs[i], ms[i]);
          if l.update(cs[i].ctx, d).Some? {
            assert l.update(s0, ms[i] + d) == l.update(cs[i].ctx, d);
          }
        }
      case CloneOf(i) =>
        if i < |cs| {
          assert Tracks(l, s0, cs[i], ms[i]);
        }
    }
  }

  /** So what the library finishes any context of any tree with is what it gives for that context's message in
      one step from a fresh one. */
  lemma TreeSignsLikeOneShot<S(!new)>(l: Library<S>, s0: S, ops: seq<Op>, i: nat)
    requires l.Streaming() && i < |After(l, s0, ops)|
    ensures i < |Messages(l, s0, ops)|
    ensures var m := Messages(l, s0, ops)[i];
            l.update(s0, m).Some? && l.finish(After(l, s0, ops)[i].ctx) == l.finish(l.update(s0, m).value)
  {
    TreeInvariant(l, s0, ops);
    assert Tracks(l, s0, After(l, s0, ops)[i], Messages(l, s0, ops)[i]);
  }
}
