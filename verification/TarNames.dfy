/** Entry names of an archive: normalisation, directory part and base part. */
module TarNames {
  import opened CStrings

  /** Drops the dot of a leading "./" and then one leading slash. */
  function Strip(s: bytes): (r: bytes) {
    var s1 := if |s| >= 2 && s[0] == DOT && s[1] == SLASH then s[1..] else s;
    if |s1| >= 1 && s1[0] == SLASH then s1[1..] else s1
  }

  predicate EndsInSlash(s: bytes) {
    |s| > 0 && s[|s| - 1] == SLASH
  }

  /** Drops one trailing slash. */
  function Trim(s: bytes): (r: bytes) {
    if EndsInSlash(s) then s[..|s| - 1] else s
  }

  /** The path an entry name stands for. */
  function Normal(s: bytes): (r: bytes) {
    Trim(Strip(s))
  }

  /** The name as lookup_vnode leaves it: cut in place when its stripped form ends in a slash. */
  function Trimmed(s: bytes): (r: bytes) {
    if EndsInSlash(Strip(s)) then s[..|s| - 1] else s
  }

  /** Cutting the last byte of a name cuts the last byte of its stripped form. */
  lemma StripCut(s: bytes)
    requires Strip(s) != []
    ensures |s| > 0 && Strip(s[..|s| - 1]) == Strip(s)[..|Strip(s)| - 1]
  {
    var c := s[..|s| - 1];
    if |s| >= 2 && s[0] == DOT && s[1] == SLASH {
      assert c[1..] == s[1..][..|s| - 2];
    }
  }

  /** Trimming a name in place leaves its path alone exactly when the stripped name does not end in two slashes. */
  lemma TrimmedKeepsNormal(s: bytes)
    ensures Normal(Trimmed(s)) == Normal(s) <==> !EndsInSlash(Normal(s))
  {
    if EndsInSlash(Strip(s)) {
      StripCut(s);
    }
  }

  /** The name "a//" stands for "a/" before it is trimmed in place and for "a" afterwards. */
  lemma TwoSlashesLost()
    ensures var s: bytes := [97, SLASH, SLASH]; Normal(s) == [97, SLASH] && Normal(Trimmed(s)) == [97]
  {
    var s: bytes := [97, SLASH, SLASH];
    assert Trimmed(s) == [97, SLASH];
  }

  /** A name with at most one trailing slash stays as it is after the first trimming. */
  lemma TrimmedOnce(s: bytes)
    requires !EndsInSlash(Normal(s))
    ensures Trimmed(Trimmed(s)) == Trimmed(s) && Strip(Trimmed(s)) == Normal(s)
  {
    if EndsInSlash(Strip(s)) {
      StripCut(s);
    }
  }

  /** Index of the last slash, or -1. */
  function LastSlash(p: bytes): (k: int)
    ensures -1 <= k < |p|
    ensures k >= 0 ==> p[k] == SLASH
    ensures forall j :: k < j < |p| ==> p[j] != SLASH
  {
    if p == [] then -1 else if p[|p| - 1] == SLASH then |p| - 1 else LastSlash(p[..|p| - 1])
  }

  function Dir(p: bytes): (d: bytes) {
    if LastSlash(p) < 0 then [] else p[..LastSlash(p)]
  }

  function Base(p: bytes): (b: bytes) {
    if LastSlash(p) < 0 then p else p[LastSlash(p) + 1..]
  }

  /** split_basename: one scan that remembers the last slash. */
  method SplitBasename(path: bytes) returns (dirname: bytes, basename: bytes)
    ensures dirname == Dir(path) && basename == Base(path)
  {
    hide LastSlash;
    var ptr, slash := 0, -1;
    while ptr < |path|
      invariant 0 <= ptr <= |path| && -1 <= slash < ptr
      invariant slash >= 0 ==> path[slash] == SLASH
      invariant forall j :: slash < j < ptr ==> path[j] != SLASH
    {
      if path[ptr] == SLASH {
        slash := ptr;
      }
      ptr := ptr + 1;
    }
    LastSlashUnique(path, slash);
    if slash >= 0 {
      dirname, basename := path[..slash], path[slash + 1..];
    } else {
      dirname, basename := [], path;
    }
  }

  lemma LastSlashUnique(p: bytes, k: int)
    requires -1 <= k < |p| && (k >= 0 ==> p[k] == SLASH) && forall j :: k < j < |p| ==> p[j] != SLASH
    ensures LastSlash(p) == k
  {
  }

  /** The path of the entry named c in the directory d. */
  function Join(d: bytes, c: bytes): (p: bytes) {
    if d == [] then c else d + [SLASH] + c
  }

  /** Joining undoes splitting, and splitting undoes joining. */
  lemma SplitJoin(d: bytes, c: bytes)
    requires SLASH !in c
    ensures Dir(Join(d, c)) == d && Base(Join(d, c)) == c
  {
    var p := Join(d, c);
    if d == [] {
      LastSlashUnique(p, -1);
    } else {
      forall j | |d| < j < |p| ensures p[j] != SLASH {
        assert p[j] == c[j - |d| - 1];
      }
      LastSlashUnique(p, |d|);
    }
  }

  lemma JoinSplit(p: bytes)
    requires LastSlash(p) != 0
    ensures Join(Dir(p), Base(p)) == p && SLASH !in Base(p)
  {
    hide LastSlash;
    var k := LastSlash(p);
    if k > 0 {
      assert p == p[..k] + [SLASH] + p[k + 1..];
    }
  }

  /** The directory part is shorter: this is what makes the tree building end. */
  lemma DirShorter(p: bytes)
    requires p != []
    ensures |Dir(p)| < |p|
  {
  }

  /** One "./" or one slash in front is dropped. */
  lemma StripForms(w: bytes)
    requires w != [] && w[0] != 47 && !(w[0] == 46 && |w| > 1 && w[1] == 47)
    ensures Strip(w) == w && Strip([47] + w) == w && Strip([46, 47] + w) == w
  {
    assert ([46, 47] + w)[1..] == [47] + w && ([47] + w)[1..] == w;
  }

  /** Entry names as archives write them: `q`, `/q` or `./q`, with or without a slash at the end, stand for `q`. */
  lemma NormalForms(q: bytes)
    requires q != [] && q[0] != 47 && q[|q| - 1] != 47 && !(q[0] == 46 && (|q| == 1 || q[1] == 47))
    ensures Normal(q) == q && Normal([47] + q) == q && Normal([46, 47] + q) == q
    ensures Normal(q + [47]) == q && Normal([47] + (q + [47])) == q && Normal([46, 47] + (q + [47])) == q
  {
    hide Strip;
    StripForms(q);
    StripForms(q + [47]);
    assert (q + [47])[..|q|] == q;
  }

  /** "./" and "/" stand for the root directory. */
  lemma RootForms()
    ensures Normal([46, 47]) == [] && Normal([47]) == []
  {
    assert [46, 47][1..] == [47] && [47][1..] == [];
  }
}
