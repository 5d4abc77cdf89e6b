/** The option list at the front of an authorized_keys line: comma-separated, commas inside double
    quotes excepted. Strings are taken as their bytes. */
module ConfigOpts {
  import opened Bytes

  const COMMA: byte := 44

  const QUOTE: byte := 34

  predicate Allowed(b: byte) {
    || 65 <= b <= 90    // A-Z
    || 97 <= b <= 122   // a-z
    || 48 <= b <= 57    // 0-9
    || 33 <= b <= 47    // ! to /, which holds both the comma and the quote
    || 58 <= b <= 64    // : to @
    || 91 <= b <= 95    // [ to _
    || b == 123 || b == 125 || b == 124 || b == 126
  }

  /** The printable ASCII characters but for the backquote. */
  lemma AllowedIff(b: byte)
    ensures Allowed(b) <==> 0x21 <= b <= 0x7e && b != 0x60
  {
  }

  ghost predicate AllAllowed(s: bytes) {
    forall i :: 0 <= i < |s| ==> Allowed(s[i])
  }

  datatype Next = Piece(item: bytes) | Done | Malformed

  // ---------- Splitting, stated on the whole string ----------

  function Quotes(s: bytes): nat {
    if s == [] then 0 else Quotes(s[..|s| - 1]) + (if s[|s| - 1] == QUOTE then 1 else 0)
  }

  lemma {:induction false} QuotesAppend(a: bytes, b: bytes)
    ensures Quotes(a + b) == Quotes(a) + Quotes(b)
  {
    if b == [] {
      assert a + b == a;
    } else {
      QuotesAppend(a, b[..|b| - 1]);
      assert (a + b)[..|a + b| - 1] == a + b[..|b| - 1];
    }
  }

  /** A comma with an even number of quotes before it in the whole string. */
  predicate IsCut(s: bytes, i: nat)
    requires i < |s|
  {
    s[i] == COMMA && Quotes(s[..i]) % 2 == 0
  }

  /** The pieces of s between cuts, from `start` on, none of the positions start .. i being a cut. */
  function PiecesFrom(s: bytes, start: nat, i: nat): (r: seq<bytes>)
    requires start <= i <= |s|
    ensures r != []
    decreases |s| - i
  {
    if i == |s| then [s[start..]]
    else if IsCut(s, i) then [s[start..i]] + PiecesFrom(s, i + 1, i + 1)
    else PiecesFrom(s, start, i + 1)
  }

  function DropFinalEmpty(ps: seq<bytes>): seq<bytes> {
    if ps != [] && ps[|ps| - 1] == [] then ps[..|ps| - 1] else ps
  }

  function Split(s: bytes): seq<bytes> {
    DropFinalEmpty(PiecesFrom(s, 0, 0))
  }

  /** The first cut at or after i, or the end of the string. */
  function NextCut(s: bytes, i: nat): (k: nat)
    requires i <= |s|
    ensures i <= k <= |s|
    ensures k < |s| ==> IsCut(s, k)
    ensures forall j :: i <= j < k ==> !IsCut(s, j)
    decreases |s| - i
  {
    if i == |s| || IsCut(s, i) then i else NextCut(s, i + 1)
  }

  /** One step of the iterator: the outcome and what is left. */
  ghost function TryNextSpec(s: bytes): (r: (Next, bytes))
    ensures r.0.Piece? ==> |r.1| < |s|
  {
    if s == [] then (Done, s)
    else
      var k := NextCut(s, 0);
      if !AllAllowed(s[..k]) then (Malformed, s)
      else if k < |s| then (Piece(s[..k]), s[k + 1..])
      else (Piece(s), [])
  }

  // ---------- The iterator ----------

  class ConfigOptsIter {
    var rest: bytes

    constructor (s: bytes)
      ensures rest == s
    {
      rest := s;
    }

    method TryNext() returns (r: Next)
      modifies this
      ensures (r, rest) == TryNextSpec(old(rest))
    {
      if rest == [] {
        return Done;
      }
      var quoted := false;
      var index := 0;
      while index < |rest|
        invariant index <= |rest| && rest == old(rest)
        invariant quoted == (Quotes(rest[..index]) % 2 == 1)
        invariant NextCut(rest, 0) == NextCut(rest, index)
        invariant AllAllowed(rest[..index])
      {
        var b := rest[index];
        assert rest[..index + 1][..index] == rest[..index];
        if b == COMMA {
          if !quoted {
            r := Piece(rest[..index]);
            rest := rest[index + 1..];
            return;
          }
        } else if b == QUOTE {
          quoted := !quoted;
        } else if !Allowed(b) {
          assert rest[..NextCut(rest, 0)][index] == b;
          return Malformed;
        }
        index := index + 1;
      }
      assert rest[..|rest|] == rest;
      r := Piece(rest);
      rest := [];
    }

    /** Draining the iterator succeeds exactly when every byte is allowed. */
    method Validate() returns (ok: bool)
      modifies this
      ensures ok <==> AllAllowed(old(rest))
    {
      var more := true;
      while more
        invariant AllAllowed(rest) <==> AllAllowed(old(rest))
        invariant !more ==> rest == []
        decreases more, |rest|
      {
        StepKeepsAllowed(rest);
        var r := TryNext();
        if r.Malformed? {
          return false;
        }
        more := r.Piece?;
      }
      ok := true;
    }

    /** The public iterator, on a string its constructor has validated: it cannot fail, and every
        item shortens what remains. */
    method Next() returns (r: Option<bytes>)
      requires AllAllowed(rest)
      modifies this
      ensures AllAllowed(rest)
      ensures r.None? <==> old(rest) == []
      ensures r.Some? ==> |rest| < old(|rest|) && TryNextSpec(old(rest)) == (Piece(r.value), rest)
    {
      StepKeepsAllowed(rest);
      var n := TryNext();
      r := if n.Piece? then Some(n.item) else None;
    }
  }

  /** A step fails only on a disallowed byte, and drops nothing but allowed bytes. */
  lemma StepKeepsAllowed(s: bytes)
    ensures TryNextSpec(s).0.Malformed? ==> !AllAllowed(s)
    ensures !TryNextSpec(s).0.Malformed? ==> (AllAllowed(TryNextSpec(s).1) <==> AllAllowed(s))
    ensures TryNextSpec(s).0.Done? <==> s == []
  {
    var k := NextCut(s, 0);
    if !AllAllowed(s[..k]) {
      var i :| 0 <= i < k && !Allowed(s[..k][i]);
      assert !Allowed(s[i]);
    } else if k < |s| {
      assert s == s[..k] + [COMMA] + s[k + 1..];
      if AllAllowed(s[k + 1..]) {
        forall i | 0 <= i < |s|
          ensures Allowed(s[i])
        {
          assert i < k ==> s[i] == s[..k][i];
          assert i > k ==> s[i] == s[k + 1..][i - k - 1];
        }
      }
    } else {
      assert s[..k] == s;
    }
  }

  // ---------- Iterating is splitting ----------

  /** All items the iterator yields; None if it meets a malformed one. */
  ghost function Iterate(s: bytes): Option<seq<bytes>>
    decreases |s|
  {
    var (n, rest) := TryNextSpec(s);
    match n
    case Done => Some([])
    case Malformed => None
    case Piece(item) =>
      match Iterate(rest)
      case None => None
      case Some(items) => Some([item] + items)
  }

  /** Restarting the quote flag after a cut does not move any later cut. */
  lemma CutsAfterCut(s: bytes, k: nat, j: nat)
    requires k < |s| && IsCut(s, k) && j < |s| - k - 1
    ensures IsCut(s[k + 1..], j) <==> IsCut(s, k + 1 + j)
  {
    assert s[..k + 1 + j] == s[..k] + [s[k]] + s[k + 1..][..j];
    QuotesAppend(s[..k] + [s[k]], s[k + 1..][..j]);
    QuotesAppend(s[..k], [s[k]]);
    assert [s[k]][..0] == [];
    assert Quotes([s[k]]) == 0;
  }

  lemma {:induction false} PiecesAfterCut(s: bytes, k: nat, start: nat, i: nat)
    requires k < |s| && IsCut(s, k) && start <= i <= |s| - k - 1
    ensures PiecesFrom(s[k + 1..], start, i) == PiecesFrom(s, k + 1 + start, k + 1 + i)
    decreases |s| - i
  {
    var t := s[k + 1..];
    if i == |t| {
      assert t[start..] == s[k + 1 + start..];
    } else {
      CutsAfterCut(s, k, i);
      if IsCut(t, i) {
        PiecesAfterCut(s, k, i + 1, i + 1);
        assert t[start..i] == s[k + 1 + start..k + 1 + i];
      } else {
        PiecesAfterCut(s, k, start, i + 1);
      }
    }
  }

  lemma {:induction false} PiecesToNextCut(s: bytes, start: nat, i: nat)
    requires start <= i <= |s|
    ensures var k := NextCut(s, i);
            PiecesFrom(s, start, i) ==
            if k == |s| then [s[start..]] else [s[start..k]] + PiecesFrom(s, k + 1, k + 1)
    decreases |s| - i
  {
    if i < |s| && !IsCut(s, i) {
      PiecesToNextCut(s, start, i + 1);
    }
  }

  /** The iterator yields exactly the pieces between the commas that stand outside quotes, counting
      quotes over the whole string, less one final empty piece; and it fails on any other input
      exactly when a byte is not allowed. */
  lemma {:induction false} IterateIsSplit(s: bytes)
    ensures Iterate(s) == if AllAllowed(s) then Some(Split(s)) else None
    decreases |s|
  {
    StepKeepsAllowed(s);
    if s != [] {
      var k := NextCut(s, 0);
      PiecesToNextCut(s, 0, 0);
      if AllAllowed(s[..k]) {
        if k < |s| {
          var t := s[k + 1..];
          IterateIsSplit(t);
          PiecesAfterCut(s, k, 0, 0);
          assert PiecesFrom(s, 0, 0) == [s[..k]] + PiecesFrom(t, 0, 0);
          DropAfterFirst(s[..k], PiecesFrom(t, 0, 0));
        } else {
          assert s[0..] == s && s[..k] == s;
          assert TryNextSpec(s) == (Piece(s), []);
          assert Iterate([]) == Some([]);
          assert Split(s) == [s] + [];
        }
      }
    }
  }

  lemma DropAfterFirst(p: bytes, ps: seq<bytes>)
    requires ps != []
    ensures DropFinalEmpty([p] + ps) == [p] + DropFinalEmpty(ps)
  {
    assert ([p] + ps)[|ps|] == ps[|ps| - 1];
    assert ([p] + ps)[..|ps|] == [p] + ps[..|ps| - 1];
  }

  // ---------- Nothing is lost ----------

  function Join(ps: seq<bytes>): bytes
    requires ps != []
  {
    if |ps| == 1 then ps[0] else ps[0] + [COMMA] + Join(ps[1..])
  }

  /** Joining the pieces with commas gives the string back. */
  lemma {:induction false} JoinPieces(s: bytes, start: nat, i: nat)
    requires start <= i <= |s|
    ensures Join(PiecesFrom(s, start, i)) == s[start..]
    decreases |s| - i
  {
    if i < |s| {
      if IsCut(s, i) {
        JoinPieces(s, i + 1, i + 1);
        var ps := PiecesFrom(s, i + 1, i + 1);
        assert ([s[start..i]] + ps)[1..] == ps;
        assert s[start..] == s[start..i] + [s[i]] + s[i + 1..];
      } else {
        JoinPieces(s, start, i + 1);
      }
    }
  }

  lemma {:induction false} LastPieceEmptyIff(s: bytes, start: nat, i: nat)
    requires start <= i <= |s|
    ensures var ps := PiecesFrom(s, start, i);
            ps[|ps| - 1] == [] <==> start == |s| || (i < |s| && IsCut(s, |s| - 1))
    decreases |s| - i
  {
    hide Quotes;
    if i < |s| {
      if IsCut(s, i) {
        LastPieceEmptyIff(s, i + 1, i + 1);
        var ps := PiecesFrom(s, i + 1, i + 1);
        assert ([s[start..i]] + ps)[|ps|] == ps[|ps| - 1];
      } else {
        LastPieceEmptyIff(s, start, i + 1);
      }
    }
  }

  /** A comma after a string with all quotes closed adds one empty piece. */
  lemma {:induction false} CommaAddsEmpty(s: bytes, start: nat, i: nat)
    requires start <= i <= |s| && Quotes(s) % 2 == 0
    ensures PiecesFrom(s + [COMMA], start, i) == PiecesFrom(s, start, i) + [[]]
    decreases |s| - i
  {
    hide Quotes;
    var t := s + [COMMA];
    assert t[..i] == s[..i];
    if i == |s| {
      assert t[..i] == s && t[start..i] == s[start..];
      assert t[i + 1..] == [];
    } else if IsCut(s, i) {
      CommaAddsEmpty(s, i + 1, i + 1);
      assert t[start..i] == s[start..i];
      assert [s[start..i]] + (PiecesFrom(s, i + 1, i + 1) + [[]]) == PiecesFrom(s, start, i) + [[]];
    } else {
      CommaAddsEmpty(s, start, i + 1);
    }
  }

  /** So a trailing comma is not noticed: with and without it the iterator yields the same items. */
  lemma TrailingCommaIsLost(s: bytes)
    requires s != [] && AllAllowed(s) && Quotes(s) % 2 == 0 && !IsCut(s, |s| - 1)
    ensures Iterate(s + [COMMA]) == Iterate(s) == Some(PiecesFrom(s, 0, 0))
    ensures PiecesFrom(s + [COMMA], 0, 0) == PiecesFrom(s, 0, 0) + [[]]
  {
    hide Quotes, Iterate, PiecesFrom;
    CommaAddsEmpty(s, 0, 0);
    IterateIsSplit(s);
    IterateIsSplit(s + [COMMA]);
    NothingDroppedIff(s);
    assert AllAllowed(s + [COMMA]);
  }

  /** One option and a comma. */
  lemma TrailingCommaExample()
    ensures Iterate([97, COMMA]) == Some([[97]]) && PiecesFrom([97, COMMA], 0, 0) == [[97], []]
  {
    assert [97][..0] == [];
    assert Quotes([97]) == 0;
    TrailingCommaIsLost([97]);
    assert [97] + [COMMA] == [97, COMMA] && [97][0..] == [97];
    assert [[97]] + [[]] == [[97], []];
  }

  /** The iterator yields every piece exactly when the string is neither empty nor ends in a comma outside
      quotes; otherwise it leaves out the last, empty one. */
  lemma NothingDroppedIff(s: bytes)
    ensures Split(s) == PiecesFrom(s, 0, 0) <==> s != [] && !IsCut(s, |s| - 1)
  {
    LastPieceEmptyIff(s, 0, 0);
  }
}
