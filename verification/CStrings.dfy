/** NUL-terminated byte strings in memory, and the tokenizer strsep. */
module CStrings {
  import opened Bytes

  const NUL: byte := 0
  const DOT: byte := 46
  const SLASH: byte := 47
  const COLON: byte := 58

  type bytes = seq<byte>

  /** The string that starts at address a: the bytes before the first NUL. */
  function Str(m: seq<byte>, a: int): (s: bytes)
    requires 0 <= a <= |m|
    ensures a + |s| <= |m|
    ensures forall k :: 0 <= k < |s| ==> s[k] == m[a + k] && s[k] != NUL
    ensures a + |s| < |m| ==> m[a + |s|] == NUL
    decreases |m| - a
  {
    if a == |m| || m[a] == NUL then [] else [m[a]] + Str(m, a + 1)
  }

  /** A string is determined by its bytes and its terminator. */
  lemma {:induction false} StrIs(m: seq<byte>, a: int, s: bytes)
    requires 0 <= a && a + |s| < |m| && m[a + |s|] == NUL
    requires forall k :: 0 <= k < |s| ==> s[k] == m[a + k] && s[k] != NUL
    ensures Str(m, a) == s
    decreases |s|
  {
    if |s| > 0 {
      assert s[0] == m[a];
      forall k | 0 <= k < |s[1..]| ensures s[1..][k] == m[a + 1 + k] && s[1..][k] != NUL {
        assert s[1..][k] == s[k + 1];
      }
      StrIs(m, a + 1, s[1..]);
    }
  }

  lemma StrFrame(m: seq<byte>, r: seq<byte>, a: int)
    requires 0 <= a < |m| == |r| && a + |Str(m, a)| < |m|
    requires forall x :: a <= x <= a + |Str(m, a)| ==> r[x] == m[x]
    ensures Str(r, a) == Str(m, a)
  {
    var s := Str(m, a);
    forall k | 0 <= k < |s| ensures s[k] == r[a + k] && s[k] != NUL {
      assert s[k] == m[a + k];
    }
    StrIs(r, a, s);
  }

  /** Writing a NUL into a string cuts it there. */
  lemma StrCut(m: seq<byte>, a: int, k: int)
    requires 0 <= a < |m| && a + |Str(m, a)| < |m| && 0 <= k < |Str(m, a)|
    ensures Str(m[a + k := NUL], a) == Str(m, a)[..k]
    ensures Str(m[a + k := NUL], a + k + 1) == Str(m, a)[k + 1..]
  {
    var s, r := Str(m, a), m[a + k := NUL];
    var before, after := s[..k], s[k + 1..];
    forall j | 0 <= j < k ensures before[j] == r[a + j] && before[j] != NUL {
      assert s[j] == m[a + j];
    }
    StrIs(r, a, before);
    forall j | 0 <= j < |after| ensures after[j] == r[a + k + 1 + j] && after[j] != NUL {
      assert s[k + 1 + j] == m[a + k + 1 + j];
    }
    StrIs(r, a + k + 1, after);
  }

  /** What follows inside a string is the string's own tail. */
  lemma StrSuffix(m: seq<byte>, a: int, k: int)
    requires 0 <= a < |m| && 0 <= k <= |Str(m, a)|
    ensures Str(m, a + k) == Str(m, a)[k..]
    decreases k
  {
    if k > 0 {
      assert Str(m, a)[k - 1..] == Str(m, a + (k - 1));
    }
  }

  /** The first bytes of a string, read one by one. */
  lemma StrHead(m: seq<byte>, a: int)
    requires 0 <= a < |m| && a + |Str(m, a)| < |m|
    ensures |Str(m, a)| >= 1 <==> m[a] != NUL
    ensures |Str(m, a)| >= 1 ==> Str(m, a)[0] == m[a] && a + 1 < |m| && (|Str(m, a)| >= 2 <==> m[a + 1] != NUL)
    ensures |Str(m, a)| >= 2 ==> Str(m, a)[1] == m[a + 1] && a + 2 < |m| && (|Str(m, a)| >= 3 <==> m[a + 2] != NUL)
  {
    var s := Str(m, a);
    assert m[a + |s|] == NUL;
    assert (|s| > 0 ==> s[0] == m[a + 0]) && (|s| > 1 ==> s[1] == m[a + 1]) && (|s| > 2 ==> s[2] == m[a + 2]);
  }

  // ----- strsep

  /** Index of the first byte of s that is one of the delimiters, or the length of s. */
  function FirstOf(s: bytes, delims: bytes): (k: int)
    ensures 0 <= k <= |s|
    ensures k < |s| ==> s[k] in delims
    ensures forall j :: 0 <= j < k ==> s[j] !in delims
  {
    if s == [] || s[0] in delims then 0 else 1 + FirstOf(s[1..], delims)
  }

  /** The result of strsep is unique: any index with these properties is the first one. */
  lemma FirstOfUnique(s: bytes, delims: bytes, k: int)
    requires 0 <= k <= |s| && (k < |s| ==> s[k] in delims) && forall j :: 0 <= j < k ==> s[j] !in delims
    ensures FirstOf(s, delims) == k
  {
  }

  /** The inner loop of strsep: is this byte one of the delimiters? */
  method IsDelimiter(c: byte, delims: bytes) returns (found: bool)
    ensures found <==> c in delims
  {
    var d := 0;
    while d < |delims|
      invariant 0 <= d <= |delims| && c !in delims[..d]
    {
      if delims[d] == c {
        return true;
      }
      d := d + 1;
    }
    return false;
  }

  /** The outer loop of strsep: stops at the first delimiter or at the end of the string. */
  method ScanTo(buf: array<byte>, start: int, delims: bytes) returns (cur: int)
    requires 0 <= start < buf.Length && start + |Str(buf[..], start)| < buf.Length
    ensures cur == start + FirstOf(Str(buf[..], start), delims)
  {
    hide Str, FirstOf;
    ghost var s := Str(buf[..], start);
    cur := start;
    while buf[cur] != NUL
      invariant start <= cur <= start + |s| < buf.Length
      invariant forall j :: 0 <= j < cur - start ==> s[j] !in delims
      decreases buf.Length - cur
    {
      assert s[cur - start] == buf[..][start + (cur - start)];
      var found := IsDelimiter(buf[cur], delims);
      if found {
        FirstOfUnique(s, delims, cur - start);
        return;
      }
      cur := cur + 1;
    }
    StrEnd(buf[..], start, cur);
    FirstOfUnique(s, delims, |s|);
  }

  /** strsep: cuts the string at its first delimiter; next is the address after the cut, or -1 for a NULL pointer. */
  method StrSep(buf: array<byte>, start: int, delims: bytes) returns (next: int)
    requires 0 <= start < buf.Length && start + |Str(buf[..], start)| < buf.Length
    modifies buf
    ensures var s := old(Str(buf[..], start));
      var k := FirstOf(s, delims);
      && Str(buf[..], start) == s[..k]
      && (next == -1 <==> k == |s|)
      && (next != -1 ==> next == start + k + 1 && next < buf.Length && Str(buf[..], next) == s[k + 1..])
      && (forall x :: 0 <= x < buf.Length && x != start + k ==> buf[x] == old(buf[x]))
      && (k == |s| ==> buf[..] == old(buf[..]))
  {
    hide Str, FirstOf;
    ghost var m := buf[..];
    ghost var s := Str(m, start);
    var cur := ScanTo(buf, start, delims);
    assert cur - start < |s| ==> s[cur - start] == m[start + (cur - start)];
    if buf[cur] == NUL {
      assert s[..|s|] == s;
      return -1;
    }
    StrCut(m, start, cur - start);
    buf[cur] := NUL;
    assert buf[..] == m[cur := NUL];
    return cur + 1;
  }

  /** Within a string, a NUL is its end. */
  lemma StrEnd(m: seq<byte>, a: int, x: int)
    requires 0 <= a <= x < |m| && x <= a + |Str(m, a)| && m[x] == NUL
    ensures x == a + |Str(m, a)|
  {
    var s := Str(m, a)[..x - a];
    forall k | 0 <= k < |s| ensures s[k] == m[a + k] && s[k] != NUL {
      assert s[k] == Str(m, a)[k];
    }
    StrIs(m, a, s);
  }

  method StrLen(buf: array<byte>, start: int) returns (n: int)
    requires 0 <= start < buf.Length && start + |Str(buf[..], start)| < buf.Length
    ensures n == |Str(buf[..], start)|
  {
    hide Str;
    n := 0;
    while buf[start + n] != NUL
      invariant 0 <= n <= |Str(buf[..], start)|
      decreases |Str(buf[..], start)| - n
    {
      n := n + 1;
    }
    StrEnd(buf[..], start, start + n);
  }

  // ----- strncmp

  function Take(s: bytes, n: int): (r: bytes)
    requires 0 <= n
  {
    if |s| <= n then s else s[..n]
  }

  /** strncmp(s, t, n) == 0 in this kernel: the strings agree on their first n + 1 bytes, one more than asked for. */
  predicate SameName(s: bytes, t: bytes, n: int)
    requires 0 <= n
  {
    n == 0 || Take(s, n + 1) == Take(t, n + 1)
  }

  method StrNCmpZero(s: bytes, t: bytes, n: int) returns (same: bool)
    requires 0 <= n && NUL !in s && NUL !in t
    ensures same <==> SameName(s, t, n)
  {
    if n == 0 {
      return true;
    }
    var i := 0;
    while i < |s| && i < |t| && i < n
      invariant 0 <= i <= n && i <= |s| && i <= |t| && s[..i] == t[..i]
    {
      if s[i] != t[i] {
        assert Take(s, n + 1)[i] != Take(t, n + 1)[i];
        return false;
      }
      i := i + 1;
    }
    same := (if i < |s| then s[i] else NUL) == (if i < |t| then t[i] else NUL);
    if i < |s| && i < |t| {
      assert s[..i + 1] == s[..i] + [s[i]] && t[..i + 1] == t[..i] + [t[i]];
    }
  }

  /** For strings of at most n bytes the extra byte does no harm: the comparison is equality. */
  lemma ShortNames(s: bytes, t: bytes, n: int)
    requires 0 < n && |s| <= n && |t| <= n + 1
    ensures SameName(s, t, n) <==> s == t
  {
  }

  /** Two names of 17 bytes that agree on the 16 asked for are told apart, and two names of 18 bytes that differ in
      their last byte are not. */
  lemma OneByteMore()
    ensures var s: bytes := seq(16, i => 97);
      && Take(s + [98], 16) == Take(s + [99], 16) && !SameName(s + [98], s + [99], 16)
      && s + [98, 98] != s + [98, 99] && SameName(s + [98, 98], s + [98, 99], 16) && SameName([98], [99], 0)
  {
    var s: bytes := seq(16, i => 97);
    assert Take(s + [98], 16) == s && Take(s + [99], 16) == s;
    assert (s + [98])[16] != (s + [99])[16] && (s + [98, 98])[17] != (s + [98, 99])[17];
    assert Take(s + [98, 98], 17) == s + [98] && Take(s + [98, 99], 17) == s + [98];
  }

  /** The bytes spell the text. */
  predicate Spells(b: bytes, text: string) {
    |b| == |text| && forall i :: 0 <= i < |b| ==> b[i] == text[i] as int
  }

  lemma Punctuation()
    ensures Spells([DOT, SLASH, COLON], "./:") && NUL == 0
  {
  }
}
