/** The streaming hash and HMAC callbacks: one global slot each, opened by Update, emptied by Final. */
module HwHash {
  import opened Bytes

  const CRYPTOCB_UNAVAILABLE: int := -271

  datatype HashType = Sha256 | Sha384 | Sha512

  const WC_HASH_TYPE_SHA256: int := 6

  const WC_HASH_TYPE_SHA384: int := 7

  const WC_HASH_TYPE_SHA512: int := 8

  /** The types served by hardware; None for all others. */
  function ServedType(id: int): Option<HashType> {
    if id == WC_HASH_TYPE_SHA256 then Some(Sha256)
    else if id == WC_HASH_TYPE_SHA384 then Some(Sha384)
    else if id == WC_HASH_TYPE_SHA512 then Some(Sha512)
    else None
  }

  /** The incremental hash (states S) and MAC (states M) that the callbacks drive. */
  datatype Engine<!S(!new), !M(!new)> = Engine(
    hashInit: HashType -> S,
    hashUpdate: (S, bytes) -> S,
    hashFinish: S -> bytes,
    macInit: bytes -> Option<M>,
    macUpdate: (M, bytes) -> M,
    macFinish: M -> bytes)
  {
    /** Feeding data piecewise is feeding it at once. */
    ghost predicate Streaming() {
      && (forall s: S :: hashUpdate(s, []) == s)
      && (forall s: S, a: bytes, b: bytes :: hashUpdate(hashUpdate(s, a), b) == hashUpdate(s, a + b))
      && (forall m: M :: macUpdate(m, []) == m)
      && (forall m: M, a: bytes, b: bytes :: macUpdate(macUpdate(m, a), b) == macUpdate(m, a + b))
    }

    function Hash(t: HashType, msg: bytes): bytes {
      hashFinish(hashUpdate(hashInit(t), msg))
    }

    function Mac(key: bytes, msg: bytes): Option<bytes> {
      match macInit(key)
      case None => None
      case Some(m) => Some(macFinish(macUpdate(m, msg)))
    }
  }

  datatype HashSlot<S> = HashSlot(ty: HashType, st: S)

  /** Everything that survives between callbacks. */
  datatype State<S, M> = State(hash: Option<HashSlot<S>>, hmac: Option<M>, count: nat)

  datatype Call =
    | HashUpdate(id: int, data: bytes)
    | HashFinal(id: int)
    | HmacUpdate(macType: int, key: bytes, data: bytes)
    | HmacFinal(macType: int, key: bytes)

  datatype Reply = Reply(rc: int, digest: Option<bytes>)

  // ---------- One callback ----------

  function OpenHash<S(!new), M(!new)>(e: Engine<S, M>, slot: Option<HashSlot<S>>, t: HashType): HashSlot<S> {
    if slot.Some? && slot.value.ty == t then slot.value else HashSlot(t, e.hashInit(t))
  }

  function Step<S(!new), M(!new)>(e: Engine<S, M>, s: State<S, M>, c: Call): (State<S, M>, Reply) {
    match c
    case HashUpdate(id, data) =>
      (match ServedType(id)
       case None => (s, Reply(CRYPTOCB_UNAVAILABLE, None))
       case Some(t) =>
         var open := OpenHash(e, s.hash, t);
         (s.(hash := Some(open.(st := e.hashUpdate(open.st, data)))), Reply(0, None)))
    case HashFinal(id) =>
      (match ServedType(id)
       case None => (s, Reply(CRYPTOCB_UNAVAILABLE, None))
       case Some(t) =>
         var st := if s.hash.Some? then s.hash.value.st else e.hashInit(t);
         (s.(hash := None, count := (s.count + 1) % TWO_64), Reply(0, Some(e.hashFinish(st)))))
    case HmacUpdate(macType, key, data) =>
      if macType != WC_HASH_TYPE_SHA384 then (s, Reply(CRYPTOCB_UNAVAILABLE, None))
      else
        (match if s.hmac.Some? then s.hmac else e.macInit(key)
         case None => (s, Reply(CRYPTOCB_UNAVAILABLE, None))
         case Some(m) => (s.(hmac := Some(e.macUpdate(m, data))), Reply(0, None)))
    case HmacFinal(macType, key) =>
      if macType != WC_HASH_TYPE_SHA384 then (s, Reply(CRYPTOCB_UNAVAILABLE, None))
      else
        (match if s.hmac.Some? then s.hmac else e.macInit(key)
         case None => (s.(hmac := None), Reply(CRYPTOCB_UNAVAILABLE, None))
         case Some(m) => (s.(hmac := None, count := (s.count + 1) % TWO_64), Reply(0, Some(e.macFinish(m)))))
  }

  /** What a callback answers: 0 for a served type, and then a digest exactly from a Final; otherwise the software
      is asked to do the work and the state is left alone. An HMAC call is also refused when it would open the
      slot with a key that cannot be imported. */
  lemma StepReply<S(!new), M(!new)>(e: Engine<S, M>, s: State<S, M>, c: Call)
    ensures var (s', reply) := Step(e, s, c);
            var hash := c.HashUpdate? || c.HashFinal?;
            && (reply.rc == 0 || reply.rc == -271)
            && (hash ==> (reply.rc == 0 <==> 6 <= c.id <= 8))
            && (!hash ==> (reply.rc == 0 <==> c.macType == 7 && (s.hmac.Some? || e.macInit(c.key).Some?)))
            && (reply.digest.Some? <==> reply.rc == 0 && (c.HashFinal? || c.HmacFinal?))
            && (reply.rc != 0 ==> s' == s)
  {
  }

  // ---------- The callbacks themselves ----------

  class Device<S(!new), M(!new)> {
    const e: Engine<S, M>
    var hashSlot: Option<HashSlot<S>>
    var hmacSlot: Option<M>
    var dispatchCount: nat

    constructor (e: Engine<S, M>)
      ensures this.e == e && Current() == State(None, None, 0)
    {
      this.e := e;
      hashSlot, hmacSlot, dispatchCount := None, None, 0;
    }

    function Current(): State<S, M>
      reads this
    {
      State(hashSlot, hmacSlot, dispatchCount)
    }

    method Store(result: bytes, digest: array<byte>)
      requires |result| <= digest.Length
      modifies digest
      ensures digest[..|result|] == result && digest[|result|..] == old(digest[|result|..])
    {
      forall i | 0 <= i < |result| {
        digest[i] := result[i];
      }
    }

    /** Update when `digest` is null, Final otherwise. The digest buffer must have room for what is
        written, which is sized by the type of the open slot, not by the requested type. */
    method DispatchHash(id: int, data: bytes, digest: array?<byte>) returns (rc: int)
      requires e.Streaming()
      requires digest != null ==>
                 var d := Step(e, Current(), HashFinal(id)).1.digest;
                 d.Some? ==> |d.value| <= digest.Length
      modifies this, digest
      ensures var c := if digest == null then HashUpdate(id, data) else HashFinal(id);
              var (s, reply) := Step(e, old(Current()), c);
              && Current() == s && rc == reply.rc
              && (digest != null ==>
                    match reply.digest
                    case None => digest[..] == old(digest[..])
                    case Some(d) => digest[..|d|] == d && digest[|d|..] == old(digest[|d|..]))
    {
      var ty := ServedType(id);
      if ty == None {
        return CRYPTOCB_UNAVAILABLE;
      }
      if digest == null {
        if hashSlot == None {
          hashSlot := Some(HashSlot(ty.value, e.hashInit(ty.value)));
        } else if hashSlot.value.ty != ty.value {
          hashSlot := Some(HashSlot(ty.value, e.hashInit(ty.value)));
        }
        if data != [] {
          hashSlot := Some(hashSlot.value.(st := e.hashUpdate(hashSlot.value.st, data)));
        }
        rc := 0;
      } else {
        var state := if hashSlot.Some? then hashSlot.value else HashSlot(ty.value, e.hashInit(ty.value));
        hashSlot := None;
        Store(e.hashFinish(state.st), digest);
        dispatchCount := (dispatchCount + 1) % TWO_64;
        rc := 0;
      }
    }

    method DispatchHmac(macType: int, key: bytes, data: bytes, digest: array?<byte>) returns (rc: int)
      requires e.Streaming()
      requires digest != null ==>
                 var d := Step(e, Current(), HmacFinal(macType, key)).1.digest;
                 d.Some? ==> |d.value| <= digest.Length
      modifies this, digest
      ensures var c := if digest == null then HmacUpdate(macType, key, data) else HmacFinal(macType, key);
              var (s, reply) := Step(e, old(Current()), c);
              && Current() == s && rc == reply.rc
              && (digest != null ==>
                    match reply.digest
                    case None => digest[..] == old(digest[..])
                    case Some(d) => digest[..|d|] == d && digest[|d|..] == old(digest[|d|..]))
    {
      if macType != WC_HASH_TYPE_SHA384 {
        return CRYPTOCB_UNAVAILABLE;
      }
      if digest == null {
        if hmacSlot.None? {
          var mac := e.macInit(key);
          if mac.None? {
            return CRYPTOCB_UNAVAILABLE;
          }
          hmacSlot := mac;
        }
        if data != [] {
          hmacSlot := Some(e.macUpdate(hmacSlot.value, data));
        }
        rc := 0;
      } else {
        var state := hmacSlot;
        hmacSlot := None;
        if state.None? {
          state := e.macInit(key);
          if state.None? {
            return CRYPTOCB_UNAVAILABLE;
          }
        }
        Store(e.macFinish(state.value), digest);
        dispatchCount := (dispatchCount + 1) % TWO_64;
        rc := 0;
      }
    }
  }

  // ---------- Whole runs ----------

  function After<S(!new), M(!new)>(e: Engine<S, M>, calls: seq<Call>): State<S, M> {
    if calls == [] then State(None, None, 0)
    else Step(e, After(e, calls[..|calls| - 1]), calls[|calls| - 1]).0
  }

  datatype Piece = Piece(ty: HashType, data: bytes)

  /** The served hash updates since the last served hash Final. */
  function HashSession(calls: seq<Call>): seq<Piece> {
    if calls == [] then []
    else
      var before, last := HashSession(calls[..|calls| - 1]), calls[|calls| - 1];
      if last.HashUpdate? && ServedType(last.id).Some? then before + [Piece(ServedType(last.id).value, last.data)]
      else if last.HashFinal? && ServedType(last.id).Some? then []
      else before
  }

  /** The data of the longest final stretch of pieces of type t. */
  function TailData(us: seq<Piece>, t: HashType): bytes {
    if us == [] || us[|us| - 1].ty != t then []
    else TailData(us[..|us| - 1], t) + us[|us| - 1].data
  }

  function AllData(us: seq<Piece>): bytes {
    if us == [] then [] else AllData(us[..|us| - 1]) + us[|us| - 1].data
  }

  /** The hash slot always holds the last piece's type and that type's final stretch of data. */
  lemma {:induction false} HashSlotTracksSession<S(!new), M(!new)>(e: Engine<S, M>, calls: seq<Call>)
    requires e.Streaming()
    ensures var us := HashSession(calls);
            After(e, calls).hash ==
            if us == [] then None
            else var t := us[|us| - 1].ty; Some(HashSlot(t, e.hashUpdate(e.hashInit(t), TailData(us, t))))
  {
    if calls != [] {
      var before, last := calls[..|calls| - 1], calls[|calls| - 1];
      HashSlotTracksSession(e, before);
      var us := HashSession(before);
      hide Step, TailData;
      StepHashSlot(e, After(e, before), last);
      if last.HashUpdate? && ServedType(last.id).Some? {
        TailGrows(us, ServedType(last.id).value, last.data);
      }
    }
  }

  /** What one callback does to the hash slot. */
  lemma StepHashSlot<S(!new), M(!new)>(e: Engine<S, M>, s: State<S, M>, c: Call)
    ensures var slot := Step(e, s, c).0.hash;
            if c.HashUpdate? && ServedType(c.id).Some? then
              var t := ServedType(c.id).value;
              slot == Some(HashSlot(t, e.hashUpdate(OpenHash(e, s.hash, t).st, c.data)))
            else if c.HashFinal? && ServedType(c.id).Some? then slot == None
            else slot == s.hash
  {
  }

  lemma TailGrows(us: seq<Piece>, t: HashType, data: bytes)
    ensures var us' := us + [Piece(t, data)];
            TailData(us', t) == TailData(us, t) + data
    ensures us == [] || us[|us| - 1].ty != t ==> TailData(us, t) == []
  {
    var us' := us + [Piece(t, data)];
    assert us'[..|us|] == us;
  }

  /** Every served Final answers with the hash of the final same-type stretch of the session, under
      that stretch's type; with no update at all, with the hash of nothing under the asked type. */
  lemma HashFinalAnswer<S(!new), M(!new)>(e: Engine<S, M>, calls: seq<Call>, id: int)
    requires e.Streaming() && ServedType(id).Some?
    ensures var us := HashSession(calls);
            var t := if us == [] then ServedType(id).value else us[|us| - 1].ty;
            Step(e, After(e, calls), HashFinal(id)).1 == Reply(0, Some(e.Hash(t, TailData(us, t))))
  {
    HashSlotTracksSession(e, calls);
  }

  lemma {:induction false} TailIsAll(us: seq<Piece>, t: HashType)
    requires forall i :: 0 <= i < |us| ==> us[i].ty == t
    ensures TailData(us, t) == AllData(us)
  {
    if us != [] {
      TailIsAll(us[..|us| - 1], t);
    }
  }

  /** A session that stays with one type gets the one-shot hash of all its data, whatever else
      happened before it and whatever HMAC calls came in between. */
  lemma UniformSessionIsOneShot<S(!new), M(!new)>(e: Engine<S, M>, calls: seq<Call>, id: int, t: HashType)
    requires e.Streaming() && ServedType(id) == Some(t)
    requires forall u :: u in HashSession(calls) ==> u.ty == t
    ensures Step(e, After(e, calls), HashFinal(id)).1 == Reply(0, Some(e.Hash(t, AllData(HashSession(calls)))))
  {
    HashFinalAnswer(e, calls, id);
    TailIsAll(HashSession(calls), t);
  }

  /** An engine that keeps all it is fed meets the law, so it can be met. */
  lemma RecordingIsStreaming()
    ensures Recording().Streaming()
  {
    var e := Recording();
    forall s: (HashType, bytes)
      ensures e.hashUpdate(s, []) == s
    {
      NoTail(s.1);
    }
    forall m: bytes
      ensures e.macUpdate(m, []) == m
    {
      NoTail(m);
    }
    forall s: (HashType, bytes), a: bytes, b: bytes
      ensures e.hashUpdate(e.hashUpdate(s, a), b) == e.hashUpdate(s, a + b)
    {
      assert s.1 + a + b == s.1 + (a + b);
    }
    forall m: bytes, a: bytes, b: bytes
      ensures e.macUpdate(e.macUpdate(m, a), b) == e.macUpdate(m, a + b)
    {
      assert m + a + b == m + (a + b);
    }
  }

  function TypeCode(t: HashType): byte {
    match t case Sha256 => 0 case Sha384 => 1 case Sha512 => 2
  }

  function Recording(): Engine<(HashType, bytes), bytes> {
    Engine(t => (t, []), (s: (HashType, bytes), d) => (s.0, s.1 + d), (s: (HashType, bytes)) => [TypeCode(s.0)] + s.1,
           key => Some(key), (m, d) => m + d, m => m)
  }

  /** Everything hashed so far belongs to the asked type: the last update is of that type and no
      data arrived before its final stretch. */
  predicate NothingDiscarded(us: seq<Piece>, t: HashType) {
    us == [] || (us[|us| - 1].ty == t && TailData(us, t) == AllData(us))
  }

  /** What is hashed is not what was fed, but has the same hash. */
  predicate Collides<S(!new), M(!new)>(e: Engine<S, M>, us: seq<Piece>, t: HashType) {
    && us != []
    && var t' := us[|us| - 1].ty;
       && (t' != t || TailData(us, t') != AllData(us))
       && e.Hash(t', TailData(us, t')) == e.Hash(t, AllData(us))
  }

  /** A Final answers with the one-shot hash of its session exactly when no data of the session was discarded
      by a change of type, or when the two are a collision of the hash functions. */
  lemma FinalIsOneShotIff<S(!new), M(!new)>(e: Engine<S, M>, calls: seq<Call>, id: int, t: HashType)
    requires e.Streaming() && ServedType(id) == Some(t)
    ensures var us := HashSession(calls);
            Step(e, After(e, calls), HashFinal(id)).1.digest == Some(e.Hash(t, AllData(us)))
            <==> NothingDiscarded(us, t) || Collides(e, us, t)
  {
    HashFinalAnswer(e, calls, id);
  }

  /** After a change of type the answer does not depend on the data before it. */
  lemma TypeChangeLosesData<S(!new), M(!new)>(e: Engine<S, M>, id: int, a: bytes, id': int, b: bytes)
    requires e.Streaming() && ServedType(id).Some? && ServedType(id').Some? && ServedType(id) != ServedType(id')
    ensures Step(e, After(e, [HashUpdate(id, a), HashUpdate(id', b)]), HashFinal(id')).1
         == Reply(0, Some(e.Hash(ServedType(id').value, b)))
  {
    var t, t' := ServedType(id).value, ServedType(id').value;
    var calls := [HashUpdate(id, a), HashUpdate(id', b)];
    var us := [Piece(t, a), Piece(t', b)];
    assert calls[..1] == [HashUpdate(id, a)] && calls[..1][..0] == [];
    assert HashSession(calls[..1]) == [] + [Piece(t, a)] == [Piece(t, a)];
    assert HashSession(calls) == [Piece(t, a)] + [Piece(t', b)] == us;
    assert us[..1] == [Piece(t, a)];
    assert TailData(us, t') == [] + b == b;
    HashFinalAnswer(e, calls, id');
  }

  /** So one byte of SHA-256 and then one of SHA-384 do not give the hash of both. */
  lemma TypeChangeExample()
    ensures var calls := [HashUpdate(WC_HASH_TYPE_SHA256, [1]), HashUpdate(WC_HASH_TYPE_SHA384, [2])];
            Step(Recording(), After(Recording(), calls), HashFinal(WC_HASH_TYPE_SHA384)).1.digest
            != Some(Recording().Hash(Sha384, [1, 2]))
  {
    RecordingIsStreaming();
    TypeChangeLosesData(Recording(), WC_HASH_TYPE_SHA256, [1], WC_HASH_TYPE_SHA384, [2]);
    assert |Recording().Hash(Sha384, [2])| == 2 && |Recording().Hash(Sha384, [1, 2])| == 3;
  }

  datatype Keyed = Keyed(key: bytes, data: bytes)

  /** The HMAC updates since the last Final, not counting ones whose key could not be imported. */
  function MacSession<S(!new), M(!new)>(e: Engine<S, M>, calls: seq<Call>): seq<Keyed> {
    if calls == [] then []
    else
      var before, last := MacSession(e, calls[..|calls| - 1]), calls[|calls| - 1];
      if last.HmacUpdate? && last.macType == WC_HASH_TYPE_SHA384 && (before != [] || e.macInit(last.key).Some?) then
        before + [Keyed(last.key, last.data)]
      else if last.HmacFinal? && last.macType == WC_HASH_TYPE_SHA384 then []
      else before
  }

  function MacData(us: seq<Keyed>): bytes {
    if us == [] then [] else MacData(us[..|us| - 1]) + us[|us| - 1].data
  }

  /** The HMAC slot is keyed once, by the first update of the session, and has absorbed the rest. */
  lemma {:induction false} HmacSlotTracksSession<S(!new), M(!new)>(e: Engine<S, M>, calls: seq<Call>)
    requires e.Streaming()
    ensures var us := MacSession(e, calls);
            if us == [] then After(e, calls).hmac == None
            else
              var m := e.macInit(us[0].key);
              m.Some? && After(e, calls).hmac == Some(e.macUpdate(m.value, MacData(us)))
  {
    if calls != [] {
      var before, last := calls[..|calls| - 1], calls[|calls| - 1];
      HmacSlotTracksSession(e, before);
      var us := MacSession(e, before);
      if last.HmacUpdate? && last.macType == WC_HASH_TYPE_SHA384 && (us != [] || e.macInit(last.key).Some?) {
        var us' := us + [Keyed(last.key, last.data)];
        assert MacSession(e, calls) == us';
        assert us'[..|us|] == us;
        assert [] + last.data == last.data;
      }
    }
  }

  /** Every HMAC Final answers with the MAC of the session's data under the key captured at its first
      update, or under the Final's own key when nothing was fed. */
  lemma HmacFinalAnswer<S(!new), M(!new)>(e: Engine<S, M>, calls: seq<Call>, key: bytes)
    requires e.Streaming()
    ensures var us := MacSession(e, calls);
            var mac := e.Mac(if us == [] then key else us[0].key, MacData(us));
            Step(e, After(e, calls), HmacFinal(WC_HASH_TYPE_SHA384, key)).1
            == Reply(if mac.Some? then 0 else CRYPTOCB_UNAVAILABLE, mac)
  {
    HmacSlotTracksSession(e, calls);
  }

  // ---------- Independence of the two slots, and the counter ----------

  predicate IsHash(c: Call) {
    c.HashUpdate? || c.HashFinal?
  }

  function Only(calls: seq<Call>, hash: bool): seq<Call> {
    if calls == [] then []
    else
      var before, last := Only(calls[..|calls| - 1], hash), calls[|calls| - 1];
      if IsHash(last) == hash then before + [last] else before
  }

  /** Dropping all calls of the other kind from a run changes neither slot. */
  lemma {:induction false} SlotsAreIndependent<S(!new), M(!new)>(e: Engine<S, M>, calls: seq<Call>)
    ensures After(e, Only(calls, true)).hash == After(e, calls).hash
    ensures After(e, Only(calls, false)).hmac == After(e, calls).hmac
  {
    if calls != [] {
      var before, last := calls[..|calls| - 1], calls[|calls| - 1];
      SlotsAreIndependent(e, before);
      var kept := Only(before, IsHash(last));
      assert (kept + [last])[..|kept|] == kept;
      assert Only(calls, IsHash(last)) == kept + [last];
      hide Step;
      StepTouchesOwnSlot(e, After(e, before), last);
      StepReadsOwnSlot(e, After(e, before), After(e, kept), last);
    }
  }

  lemma StepTouchesOwnSlot<S(!new), M(!new)>(e: Engine<S, M>, s: State<S, M>, c: Call)
    ensures IsHash(c) ==> Step(e, s, c).0.hmac == s.hmac
    ensures !IsHash(c) ==> Step(e, s, c).0.hash == s.hash
  {
  }

  lemma StepReadsOwnSlot<S(!new), M(!new)>(e: Engine<S, M>, s: State<S, M>, s': State<S, M>, c: Call)
    ensures IsHash(c) && s.hash == s'.hash ==> Step(e, s, c).0.hash == Step(e, s', c).0.hash
    ensures !IsHash(c) && s.hmac == s'.hmac ==> Step(e, s, c).0.hmac == Step(e, s', c).0.hmac
  {
  }

  /** How many calls of the run produced a digest. */
  function Completed<S(!new), M(!new)>(e: Engine<S, M>, calls: seq<Call>): nat {
    if calls == [] then 0
    else
      var before := calls[..|calls| - 1];
      Completed(e, before) + (if Step(e, After(e, before), calls[|calls| - 1]).1.digest.Some? then 1 else 0)
  }

  lemma {:induction false} CounterCountsFinals<S(!new), M(!new)>(e: Engine<S, M>, calls: seq<Call>)
    ensures After(e, calls).count == Completed(e, calls) % TWO_64
  {
    if calls != [] {
      var before, last := calls[..|calls| - 1], calls[|calls| - 1];
      CounterCountsFinals(e, before);
      hide Step;
      StepCounts(e, After(e, before), last);
      NextMod(Completed(e, before), TWO_64);
    }
  }

  lemma StepCounts<S(!new), M(!new)>(e: Engine<S, M>, s: State<S, M>, c: Call)
    ensures var (s', reply) := Step(e, s, c);
            s'.count == if reply.digest.Some? then (s.count + 1) % TWO_64 else s.count
  {
  }
}
