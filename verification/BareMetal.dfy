/** The freestanding C string and memory routines. Memory is one array of bytes, an address is an
    index into it, and address 0 is the null pointer. */
module BareMetal {
  import opened Bytes

  /** Number of values of size_t on the 32-bit target, and so a bound on the size of memory. */
  const SIZE_MOD: nat := TWO_32

  /** `n--` on a size_t: the value afterwards. */
  function Dec(n: nat): (r: nat)
    requires n < SIZE_MOD
    ensures r < SIZE_MOD
  {
    if n == 0 then SIZE_MOD - 1 else n - 1
  }

  // ---------- C strings ----------

  /** A NUL can be reached from a. */
  ghost predicate Terminated(m: bytes, a: nat)
    decreases |m| - a
  {
    a < |m| && (m[a] == 0 || Terminated(m, a + 1))
  }

  /** n characters, or all up to a NUL, can be read from a. */
  ghost predicate Readable(m: bytes, a: nat, n: nat)
    decreases n
  {
    n == 0 || (a < |m| && (m[a] == 0 || Readable(m, a + 1, n - 1)))
  }

  /** The characters at a, up to but not including the NUL. */
  ghost function Text(m: bytes, a: nat): bytes
    decreases |m| - a
  {
    if a >= |m| || m[a] == 0 then [] else [m[a]] + Text(m, a + 1)
  }

  /** At most n of those characters. */
  ghost function TextN(m: bytes, a: nat, n: nat): (r: bytes)
    ensures |r| <= n
    decreases n
  {
    if n == 0 || a >= |m| || m[a] == 0 then [] else [m[a]] + TextN(m, a + 1, n - 1)
  }

  lemma {:induction false} TextNIsText(m: bytes, a: nat, n: nat)
    requires |Text(m, a)| <= n
    ensures TextN(m, a, n) == Text(m, a)
    decreases n
  {
    if a < |m| && m[a] != 0 {
      TextNIsText(m, a + 1, n - 1);
    }
  }

  lemma {:induction false} TextIsSlice(m: bytes, a: nat)
    requires Terminated(m, a)
    ensures a + |Text(m, a)| < |m| && m[a + |Text(m, a)|] == 0
    ensures Text(m, a) == m[a..a + |Text(m, a)|]
    decreases |m| - a
  {
    if m[a] != 0 {
      TextIsSlice(m, a + 1);
    }
  }

  lemma {:induction false} TextNIsSlice(m: bytes, a: nat, n: nat)
    requires Readable(m, a, n)
    ensures var k := |TextN(m, a, n)|;
            && (k > 0 ==> a + k <= |m| && TextN(m, a, n) == m[a..a + k])
            && (k < n ==> a + k < |m| && m[a + k] == 0)
            && (forall i :: 0 <= i < k ==> TextN(m, a, n)[i] != 0)
    decreases n
  {
    if n > 0 && m[a] != 0 {
      TextNIsSlice(m, a + 1, n - 1);
    }
  }

  // ---------- Ordering ----------

  /** Lexicographic order of strings of unsigned characters: -1, 0 or 1. */
  ghost function Order(x: bytes, y: bytes): int {
    if x == [] && y == [] then 0
    else if x == [] then -1
    else if y == [] then 1
    else if x[0] != y[0] then (if x[0] < y[0] then -1 else 1)
    else Order(x[1..], y[1..])
  }

  function Sign(r: int): int {
    if r < 0 then -1 else if r == 0 then 0 else 1
  }

  /** The int difference of two unsigned characters. */
  function Difference(x: int, y: int): int {
    x - y
  }

  function ToLower(c: byte): byte {
    if 65 <= c <= 90 then c + 32 else c
  }

  /** Only capital letters change, and two characters have the same lower case exactly when they are the same
      or the two cases of one letter. */
  lemma ToLowerIff(c: byte, d: byte)
    ensures ToLower(c) == c <==> !('A' as int <= c <= 'Z' as int)
    ensures ToLower(ToLower(c)) == ToLower(c)
    ensures ToLower(c) == ToLower(d) <==>
            || c == d
            || ('A' as int <= c <= 'Z' as int && d == c + 32)
            || ('A' as int <= d <= 'Z' as int && c == d + 32)
  {
  }

  function Lower(x: bytes): (r: bytes)
    ensures |r| == |x|
    ensures forall i :: 0 <= i < |x| ==> r[i] == ToLower(x[i])
  {
    seq(|x|, i requires 0 <= i < |x| => ToLower(x[i]))
  }

  lemma LowerTail(x: bytes)
    requires x != []
    ensures Lower(x)[1..] == Lower(x[1..])
  {
  }

  method Strncmp(m: bytes, a0: nat, b0: nat, n0: nat) returns (r: int)
    requires n0 < SIZE_MOD && Readable(m, a0, n0) && Readable(m, b0, n0)
    ensures Sign(r) == Order(TextN(m, a0, n0), TextN(m, b0, n0))
  {
    var a: nat, b: nat, n: nat := a0, b0, n0;
    while true
      invariant n < SIZE_MOD && Readable(m, a, n) && Readable(m, b, n)
      invariant Order(TextN(m, a, n), TextN(m, b, n)) == Order(TextN(m, a0, n0), TextN(m, b0, n0))
      decreases n
    {
      var more := n != 0;
      n := Dec(n);
      if !more || m[a] == 0 || m[b] == 0 || m[a] != m[b] {
        break;
      }
      a, b := a + 1, b + 1;
    }
    if n == SIZE_MOD - 1 {
      return 0;
    }
    return Difference(m[a], m[b]);
  }

  method Strncasecmp(m: bytes, a0: nat, b0: nat, n0: nat) returns (r: int)
    requires n0 < SIZE_MOD && Readable(m, a0, n0) && Readable(m, b0, n0)
    ensures Sign(r) == Order(Lower(TextN(m, a0, n0)), Lower(TextN(m, b0, n0)))
  {
    var a: nat, b: nat, n: nat := a0, b0, n0;
    while true
      invariant n < SIZE_MOD && Readable(m, a, n) && Readable(m, b, n)
      invariant Order(Lower(TextN(m, a, n)), Lower(TextN(m, b, n)))
             == Order(Lower(TextN(m, a0, n0)), Lower(TextN(m, b0, n0)))
      decreases n
    {
      ghost var x, y := TextN(m, a, n), TextN(m, b, n);
      var more := n != 0;
      n := Dec(n);
      if !more || m[a] == 0 || m[b] == 0 {
        break;
      }
      LowerTail(x);
      LowerTail(y);
      var ca, cb := ToLower(m[a]), ToLower(m[b]);
      if ca != cb {
        return Difference(ca, cb);
      }
      a, b := a + 1, b + 1;
    }
    if n == SIZE_MOD - 1 {
      return 0;
    }
    return Difference(ToLower(m[a]), ToLower(m[b]));
  }

  method Strcasecmp(m: bytes, a0: nat, b0: nat) returns (r: int)
    requires Terminated(m, a0) && Terminated(m, b0)
    ensures Sign(r) == Order(Lower(Text(m, a0)), Lower(Text(m, b0)))
  {
    var a: nat, b: nat := a0, b0;
    while m[a] != 0 && m[b] != 0
      invariant Terminated(m, a) && Terminated(m, b)
      invariant Order(Lower(Text(m, a)), Lower(Text(m, b))) == Order(Lower(Text(m, a0)), Lower(Text(m, b0)))
      decreases |m| - a
    {
      LowerTail(Text(m, a));
      LowerTail(Text(m, b));
      var ca, cb := ToLower(m[a]), ToLower(m[b]);
      if ca != cb {
        return Difference(ca, cb);
      }
      a, b := a + 1, b + 1;
    }
    return Difference(m[a], m[b]);
  }

  /** Once n covers both strings, the bounded comparison orders them as the unbounded one does. */
  lemma CaseComparisonsAgree(m: bytes, a: nat, b: nat, n: nat)
    requires |Text(m, a)| <= n && |Text(m, b)| <= n
    ensures Order(Lower(TextN(m, a, n)), Lower(TextN(m, b, n))) == Order(Lower(Text(m, a)), Lower(Text(m, b)))
  {
    TextNIsText(m, a, n);
    TextNIsText(m, b, n);
  }

  // ---------- Searching ----------

  /** The string at n starts the string k characters into the string at h. */
  ghost predicate Found(m: bytes, h: nat, n: nat, k: nat) {
    k <= |Text(m, h)| && Text(m, n) <= Text(m, h)[k..]
  }

  lemma {:induction false} TextSuffix(m: bytes, a: nat, k: nat)
    requires k <= |Text(m, a)|
    ensures Text(m, a + k) == Text(m, a)[k..]
    decreases k
  {
    if k > 0 {
      TextSuffix(m, a + 1, k - 1);
    }
  }

  /** The inner scan of strstr: does the string at n start the string at h? */
  method StartsWith(m: bytes, h: nat, n: nat) returns (yes: bool)
    requires Terminated(m, h) && Terminated(m, n)
    ensures yes <==> Text(m, n) <= Text(m, h)
  {
    hide Text;
    var ha: nat, na: nat := h, n;
    while m[ha] != 0 && m[na] != 0 && m[ha] == m[na]
      invariant Terminated(m, ha) && Terminated(m, na)
      invariant Text(m, na) <= Text(m, ha) <==> Text(m, n) <= Text(m, h)
      decreases |m| - ha
    {
      TextHead(m, na);
      TextHead(m, ha);
      PrefixTail(Text(m, na), Text(m, ha));
      ha, na := ha + 1, na + 1;
    }
    yes := m[na] == 0;
    TextHead(m, na);
    TextHead(m, ha);
  }

  lemma TextHead(m: bytes, a: nat)
    requires a < |m|
    ensures if m[a] == 0 then Text(m, a) == []
            else Text(m, a) != [] && Text(m, a)[0] == m[a] && Text(m, a)[1..] == Text(m, a + 1)
  {
  }

  lemma PrefixTail(x: bytes, y: bytes)
    requires x != [] && y != [] && x[0] == y[0]
    ensures x <= y <==> x[1..] <= y[1..]
  {
    if x[1..] <= y[1..] {
      assert x == [x[0]] + x[1..] && y == [y[0]] + y[1..];
    }
  }

  /** The needle is found at h exactly when it starts the text there. */
  lemma FoundAt(m: bytes, h0: nat, n: nat, h: nat)
    requires h0 <= h <= h0 + |Text(m, h0)|
    ensures Found(m, h0, n, h - h0) <==> Text(m, n) <= Text(m, h)
  {
    TextSuffix(m, h0, h - h0);
  }

  /** A non-empty needle is not found at the end or beyond. */
  lemma NotFoundAtEnd(m: bytes, h0: nat, n: nat, k: nat)
    requires k >= |Text(m, h0)| && Text(m, n) != []
    ensures !Found(m, h0, n, k)
  {
  }

  /** One character further into the text. */
  lemma OneFurther(m: bytes, h0: nat, h: nat)
    requires Terminated(m, h) && h0 <= h <= h0 + |Text(m, h0)| && m[h] != 0
    ensures Terminated(m, h + 1) && h < h0 + |Text(m, h0)|
  {
    TextSuffix(m, h0, h - h0);
  }

  lemma AtEnd(m: bytes, h0: nat, h: nat)
    requires Terminated(m, h) && h0 <= h <= h0 + |Text(m, h0)| && m[h] == 0
    ensures h == h0 + |Text(m, h0)|
  {
    TextSuffix(m, h0, h - h0);
  }

  method Strstr(m: bytes, h0: nat, n: nat) returns (r: nat)
    requires h0 != 0 && Terminated(m, h0) && Terminated(m, n)
    ensures r == 0 <==> forall k :: !Found(m, h0, n, k)
    ensures r != 0 ==> h0 <= r && Found(m, h0, n, r - h0) && forall k :: 0 <= k < r - h0 ==> !Found(m, h0, n, k)
  {
    TextHead(m, n);
    hide Text, Found;
    if m[n] == 0 {
      FoundAt(m, h0, n, h0);
      return h0;
    }
    var h := h0;
    while m[h] != 0
      invariant h0 <= h <= h0 + |Text(m, h0)| && Terminated(m, h)
      invariant forall k :: 0 <= k < h - h0 ==> !Found(m, h0, n, k)
      decreases |m| - h
    {
      var yes := StartsWith(m, h, n);
      FoundAt(m, h0, n, h);
      if yes {
        return h;
      }
      OneFurther(m, h0, h);
      h := h + 1;
    }
    AtEnd(m, h0, h);
    forall k | k >= h - h0
      ensures !Found(m, h0, n, k)
    {
      NotFoundAtEnd(m, h0, n, k);
    }
    return 0;
  }

  /** The needle's characters occur i bytes into the len bytes at h. */
  ghost predicate Occurs(m: bytes, h: nat, len: nat, needle: bytes, i: nat)
    requires h + len <= |m|
  {
    i + |needle| <= len && m[h + i..h + i + |needle|] == needle
  }

  method Strlen(m: bytes, s: nat) returns (n: nat)
    requires Terminated(m, s)
    ensures n == |Text(m, s)|
  {
    n := 0;
    while m[s + n] != 0
      invariant Terminated(m, s + n) && n + |Text(m, s + n)| == |Text(m, s)|
      decreases |m| - n
    {
      n := n + 1;
    }
  }

  /** The inner scan of strnstr. */
  method SameBytes(m: bytes, a: nat, b: nat, len: nat) returns (same: bool)
    requires a + len <= |m| && b + len <= |m|
    ensures same <==> m[a..a + len] == m[b..b + len]
  {
    var j := 0;
    while j < len
      invariant j <= len && m[a..a + j] == m[b..b + j]
    {
      if m[a + j] != m[b + j] {
        assert m[a..a + len][j] != m[b..b + len][j];
        return false;
      }
      assert m[a..a + j + 1] == m[a..a + j] + [m[a + j]];
      assert m[b..b + j + 1] == m[b..b + j] + [m[b + j]];
      j := j + 1;
    }
    same := true;
  }

  /** r is the address of the first occurrence of the needle, or null when there is none. */
  ghost predicate IsFirst(m: bytes, h: nat, len: nat, needle: bytes, r: nat)
    requires h + len <= |m|
  {
    if r == 0 then forall i :: !Occurs(m, h, len, needle, i)
    else h <= r && Occurs(m, h, len, needle, r - h) && NoneBefore(m, h, len, needle, r - h)
  }

  ghost predicate NoneBefore(m: bytes, h: nat, len: nat, needle: bytes, i: nat)
    requires h + len <= |m|
  {
    forall k :: 0 <= k < i ==> !Occurs(m, h, len, needle, k)
  }

  method NeedleAt(m: bytes, h: nat, n: nat, len: nat, nlen: nat, i: nat) returns (same: bool)
    requires h + len <= |m| && Terminated(m, n) && nlen == |Text(m, n)| && i + nlen <= len
    ensures same <==> Occurs(m, h, len, Text(m, n), i)
  {
    TextIsSlice(m, n);
    same := SameBytes(m, h + i, n, nlen);
  }

  /** Least occurrence within len bytes, NULs included; null if there is none. The sum `i + nlen`
      is a size_t and could wrap only where a match has already been found. */
  method Strnstr(m: bytes, h: nat, n: nat, len: nat) returns (r: nat)
    requires |m| <= SIZE_MOD && h != 0 && n != 0 && h + len <= |m| && Terminated(m, n)
    ensures IsFirst(m, h, len, Text(m, n), r)
  {
    TextHead(m, n);
    hide Text, Terminated, Occurs, NoneBefore, SizeSum;
    assert n + |Text(m, n)| < |m| by { TextIsSlice(m, n); }
    if m[n] == 0 {
      EmptyOccurs(m, h, len);
      NoneBeforeStart(m, h, len, []);
      return h;
    }
    var nlen := Strlen(m, n);
    var i: nat := 0;
    NoneBeforeStart(m, h, len, Text(m, n));
    SmallSum(0, nlen);
    while SizeSum(i, nlen) <= len
      invariant i + nlen < SIZE_MOD && SizeSum(i, nlen) == i + nlen && (i == 0 || i + nlen <= len + 1)
      invariant NoneBefore(m, h, len, Text(m, n), i)
      decreases len + 1 - i
    {
      var same := NeedleAt(m, h, n, len, nlen, i);
      if same {
        return h + i;
      }
      NoneBeforeNext(m, h, len, Text(m, n), i);
      SumDoesNotWrap(m, h, n, len, i);
      i := i + 1;
      SmallSum(i, nlen);
    }
    NoneAfter(m, h, len, Text(m, n), i);
    return 0;
  }

  lemma EmptyOccurs(m: bytes, h: nat, len: nat)
    requires h + len <= |m|
    ensures Occurs(m, h, len, [], 0)
  {
  }

  lemma NoneBeforeStart(m: bytes, h: nat, len: nat, needle: bytes)
    requires h + len <= |m|
    ensures NoneBefore(m, h, len, needle, 0)
  {
  }

  lemma NoneBeforeNext(m: bytes, h: nat, len: nat, needle: bytes, i: nat)
    requires h + len <= |m| && NoneBefore(m, h, len, needle, i) && !Occurs(m, h, len, needle, i)
    ensures NoneBefore(m, h, len, needle, i + 1)
  {
  }

  /** Nor does it occur where it would reach past the end. */
  lemma NoneAfter(m: bytes, h: nat, len: nat, needle: bytes, i: nat)
    requires h + len <= |m| && i + |needle| > len && NoneBefore(m, h, len, needle, i)
    ensures forall k :: !Occurs(m, h, len, needle, k)
  {
  }

  /** The sum of two size_t values. */
  function SizeSum(a: nat, b: nat): nat {
    (a + b) % SIZE_MOD
  }

  lemma SmallSum(a: nat, b: nat)
    requires a + b < SIZE_MOD
    ensures SizeSum(a, b) == a + b
  {
  }

  /** If nothing was found up to i, then i + 1 plus the needle's length is still a size_t. */
  lemma SumDoesNotWrap(m: bytes, h: nat, n: nat, len: nat, i: nat)
    requires |m| <= SIZE_MOD && h != 0 && n != 0 && h + len <= |m| && Terminated(m, n)
    requires i + |Text(m, n)| <= len && NoneBefore(m, h, len, Text(m, n), i)
    requires !Occurs(m, h, len, Text(m, n), i)
    ensures i + 1 + |Text(m, n)| < SIZE_MOD
  {
    if i + 1 + |Text(m, n)| >= SIZE_MOD {
      NeedleIsInside(m, h, n, len);
    }
  }

  /** When the searched range is all of memory but the null page's byte, the needle itself lies in it. */
  lemma NeedleIsInside(m: bytes, h: nat, n: nat, len: nat)
    requires |m| <= SIZE_MOD && h != 0 && n != 0 && h + len <= |m| && Terminated(m, n)
    requires len == SIZE_MOD - 1
    ensures h == 1 && Occurs(m, h, len, Text(m, n), n - 1)
    ensures n - 1 + |Text(m, n)| < len
  {
    TextIsSlice(m, n);
  }

  // ---------- Writing ----------

  /** For every overlap of the two ranges, the destination ends as the source began. */
  method Memmove(mem: array<byte>, d: nat, s: nat, n0: nat)
    requires n0 < SIZE_MOD && d + n0 <= mem.Length && s + n0 <= mem.Length
    modifies mem
    ensures mem[d..d + n0] == old(mem[s..s + n0])
    ensures forall i :: 0 <= i < mem.Length && !(d <= i < d + n0) ==> mem[i] == old(mem[i])
  {
    var dp: nat, sp: nat, n: nat := d, s, n0;
    if dp < sp {
      while true
        invariant n <= n0 && dp == d + (n0 - n) && sp == s + (n0 - n)
        invariant forall i :: d <= i < dp ==> mem[i] == old(mem[s + (i - d)])
        invariant forall i :: 0 <= i < mem.Length && !(d <= i < dp) ==> mem[i] == old(mem[i])
        decreases n
      {
        var more := n != 0;
        n := Dec(n);
        if !more {
          break;
        }
        mem[dp] := mem[sp];
        dp, sp := dp + 1, sp + 1;
      }
    } else {
      dp, sp := dp + n, sp + n;
      while true
        invariant n <= n0 && dp == d + n && sp == s + n
        invariant forall i :: dp <= i < d + n0 ==> mem[i] == old(mem[s + (i - d)])
        invariant forall i :: 0 <= i < mem.Length && !(dp <= i < d + n0) ==> mem[i] == old(mem[i])
        decreases n
      {
        var more := n != 0;
        n := Dec(n);
        if !more {
          break;
        }
        dp, sp := dp - 1, sp - 1;
        mem[dp] := mem[sp];
      }
    }
  }

  /** What strncat appends. */
  ghost function Appended(m: bytes, s: nat, n: nat): bytes {
    TextN(m, s, n)
  }

  /** Where it starts writing. */
  ghost function EndOf(m: bytes, d: nat): nat {
    d + |Text(m, d)|
  }

  /** The characters to copy are not among those overwritten while copying. */
  ghost predicate NoOverlap(m: bytes, d: nat, s: nat, n: nat) {
    var p, k := EndOf(m, d), |TextN(m, s, n)|;
    k == 0 || p + k <= s || s + k + (if k < n then 1 else 0) <= p
  }

  /** The copying loop of strncat: returns the address after the last character copied. */
  method CopyText(mem: array<byte>, p0: nat, s0: nat, n0: nat) returns (p: nat)
    requires n0 < SIZE_MOD && Readable(mem[..], s0, n0)
    requires var k := |TextN(mem[..], s0, n0)|;
             && p0 + k < mem.Length
             && (k == 0 || p0 + k <= s0 || s0 + k + (if k < n0 then 1 else 0) <= p0)
    modifies mem
    ensures p == p0 + |old(TextN(mem[..], s0, n0))|
    ensures mem[p0..p] == old(TextN(mem[..], s0, n0))
    ensures forall j :: 0 <= j < mem.Length && !(p0 <= j < p) ==> mem[j] == old(mem[j])
  {
    ghost var m0 := mem[..];
    ghost var tail := TextN(m0, s0, n0);
    TextNIsSlice(m0, s0, n0);
    p := p0;
    var s: nat, n: nat := s0, n0;
    while true
      invariant p0 <= p <= p0 + |tail| && s == s0 + (p - p0) && n == n0 - (p - p0)
      invariant forall j :: p0 <= j < p ==> mem[j] == tail[j - p0]
      invariant forall j :: 0 <= j < mem.Length && !(p0 <= j < p) ==> mem[j] == m0[j]
      decreases n
    {
      var more := n != 0;
      n := Dec(n);
      if !more || mem[s] == 0 {
        break;
      }
      mem[p] := mem[s];
      p, s := p + 1, s + 1;
    }
  }

  method Strncat(mem: array<byte>, d: nat, s: nat, n: nat)
    requires n < SIZE_MOD && Terminated(mem[..], d) && Readable(mem[..], s, n)
    requires EndOf(mem[..], d) + |Appended(mem[..], s, n)| < mem.Length
    requires NoOverlap(mem[..], d, s, n)
    modifies mem
    ensures Terminated(mem[..], d)
    ensures Text(mem[..], d) == old(Text(mem[..], d)) + old(Appended(mem[..], s, n))
    ensures var p := old(EndOf(mem[..], d));
            var k := |old(Appended(mem[..], s, n))|;
            forall i :: 0 <= i < mem.Length && !(p <= i <= p + k) ==> mem[i] == old(mem[i])
  {
    ghost var m0 := mem[..];
    var len := Strlen(mem[..], d);
    var p := CopyText(mem, d + len, s, n);
    mem[p] := 0;
    AppendedText(m0, mem[..], d, s, n);
  }

  lemma AppendedText(m0: bytes, m1: bytes, d: nat, s: nat, n: nat)
    requires Terminated(m0, d) && Readable(m0, s, n) && |m1| == |m0|
    requires var p, tail := EndOf(m0, d), TextN(m0, s, n);
             && p + |tail| < |m0|
             && m1[p..p + |tail|] == tail && m1[p + |tail|] == 0
             && forall j :: 0 <= j < p ==> m1[j] == m0[j]
    ensures Terminated(m1, d) && Text(m1, d) == Text(m0, d) + TextN(m0, s, n)
  {
    var head, tail := Text(m0, d), TextN(m0, s, n);
    TextIsSlice(m0, d);
    TextHasNoNul(m0, d);
    TextNIsSlice(m0, s, n);
    hide Text, TextN, Terminated;
    assert m1[d..d + |head|] == head;
    assert m1[d..d + |head + tail|] == m1[d..d + |head|] + m1[d + |head|..d + |head| + |tail|];
    TextFromSlice(m1, d, head + tail);
  }

  lemma {:induction false} TextHasNoNul(m: bytes, a: nat)
    ensures forall i :: 0 <= i < |Text(m, a)| ==> Text(m, a)[i] != 0
    decreases |m| - a
  {
    if a < |m| && m[a] != 0 {
      TextHasNoNul(m, a + 1);
    }
  }

  /** NUL-free characters followed by a NUL are the text there. */
  lemma {:induction false} TextFromSlice(m: bytes, a: nat, x: bytes)
    requires a + |x| < |m| && m[a..a + |x|] == x && m[a + |x|] == 0
    requires forall i :: 0 <= i < |x| ==> x[i] != 0
    ensures Terminated(m, a) && Text(m, a) == x
    decreases |x|
  {
    if x != [] {
      assert m[a] == x[0];
      assert m[a + 1..a + 1 + |x[1..]|] == x[1..];
      TextFromSlice(m, a + 1, x[1..]);
    }
  }
}
