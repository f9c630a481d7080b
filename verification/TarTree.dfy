/** The tree of nodes that mounting an archive builds, and the searches in it. */
module TarTree {
  import opened Bytes
  import opened CStrings
  import opened TarNames
  import opened VfsNode

  const KIND_FILE: byte := 48
  const KIND_DIR: byte := 53

  /** A node; nodes are named by their entry's position in the archive, and -1 stands for NULL. */
  datatype VNode = VNode(name: bytes, flags: byte, parent: int)

  function Flags(kind: byte): byte {
    if kind == KIND_FILE then VN_FREGFILE else if kind == KIND_DIR then VN_FDIR else 0
  }

  /** Entries of type '0' are regular files, entries of type '5' directories, and all others neither. */
  lemma KindsByCharacter(kind: byte)
    ensures Flags('0' as int) == 1 && Flags('5' as int) == 2
    ensures kind != '0' as int && kind != '5' as int ==> Flags(kind) == 0
  {
  }

  /** The first entry with this path, or -1. */
  function IndexOf(paths: seq<bytes>, p: bytes): (i: int)
    ensures -1 <= i < |paths|
    ensures i >= 0 ==> paths[i] == p
    ensures forall j :: 0 <= j < |paths| && (i < 0 || j < i) ==> paths[j] != p
  {
    if paths == [] then -1
    else if paths[0] == p then 0
    else var i := IndexOf(paths[1..], p); if i < 0 then -1 else i + 1
  }

  lemma IndexOfUnique(paths: seq<bytes>, p: bytes, i: int)
    requires -1 <= i < |paths| && (i >= 0 ==> paths[i] == p)
    requires forall j :: 0 <= j < |paths| && (i < 0 || j < i) ==> paths[j] != p
    ensures IndexOf(paths, p) == i
  {
  }

  /** The node of entry i: what its name field makes of the base name, its type, and the first entry that carries its
      directory's path. */
  function NodeOf(paths: seq<bytes>, kinds: seq<byte>, junk: bytes, i: int): (n: VNode)
    requires 0 <= i < |paths| == |kinds|
  {
    VNode(Stored(StrCpy(junk, Base(paths[i])), Flags(kinds[i])), Flags(kinds[i]),
          if paths[i] == [] then -1 else IndexOf(paths, Dir(paths[i])))
  }

  function Tree(paths: seq<bytes>, kinds: seq<byte>, junk: bytes): (t: seq<VNode>)
    requires |paths| == |kinds|
    ensures |t| == |paths| && forall i :: 0 <= i < |t| ==> t[i] == NodeOf(paths, kinds, junk, i)
  {
    seq(|paths|, i requires 0 <= i < |paths| => NodeOf(paths, kinds, junk, i))
  }

  // ----- Parent chains

  /** The path of a parent is shorter, so no chain of parents comes back, whatever the archive. */
  lemma ParentIsShorter(paths: seq<bytes>, kinds: seq<byte>, junk: bytes, i: int)
    requires |paths| == |kinds| && 0 <= i < |paths| && Tree(paths, kinds, junk)[i].parent >= 0
    ensures var j := Tree(paths, kinds, junk)[i].parent;
      j < |paths| && paths[j] == Dir(paths[i]) && |paths[j]| < |paths[i]|
  {
    DirShorter(paths[i]);
  }

  /** The n-th ancestor, or -1 once the chain has ended. */
  function Ancestor(t: seq<VNode>, i: int, n: nat): int
    decreases n
  {
    if !(0 <= i < |t|) then -1 else if n == 0 then i else Ancestor(t, t[i].parent, n - 1)
  }

  /** No node is its own ancestor, and every chain ends within as many steps as the path has bytes. */
  lemma {:induction false} ParentChainsEnd(paths: seq<bytes>, kinds: seq<byte>, junk: bytes, i: int, n: nat)
    requires |paths| == |kinds| && 0 <= i < |paths| && n > 0
    ensures var a := Ancestor(Tree(paths, kinds, junk), i, n);
      -1 <= a < |paths| && a != i && (a >= 0 ==> |paths[a]| + n <= |paths[i]|)
    decreases n
  {
    var t := Tree(paths, kinds, junk);
    assert t[i] == NodeOf(paths, kinds, junk, i);
    if t[i].parent >= 0 {
      ParentIsShorter(paths, kinds, junk, i);
      if n > 1 {
        ParentChainsEnd(paths, kinds, junk, t[i].parent, n - 1);
      }
    }
  }

  // ----- Directory search

  predicate IsChild(n: VNode, d: int, name: bytes) {
    n.parent == d && n.name == name
  }

  /** tarfs_finddir: the first child of d with this name, or -1. */
  function FindDir(t: seq<VNode>, d: int, name: bytes): (i: int)
    ensures -1 <= i < |t|
    ensures i >= 0 ==> IsChild(t[i], d, name)
    ensures forall j :: 0 <= j < |t| && (i < 0 || j < i) ==> !IsChild(t[j], d, name)
  {
    if t == [] then -1
    else if IsChild(t[0], d, name) then 0
    else var i := FindDir(t[1..], d, name); if i < 0 then -1 else i + 1
  }

  lemma FindDirUnique(t: seq<VNode>, d: int, name: bytes, i: int)
    requires -1 <= i < |t| && (i >= 0 ==> IsChild(t[i], d, name))
    requires forall j :: 0 <= j < |t| && (i < 0 || j < i) ==> !IsChild(t[j], d, name)
    ensures FindDir(t, d, name) == i
  {
  }

  /** The positions of the children of d among the first n nodes, in archive order. */
  function Children(t: seq<VNode>, d: int, n: int): (c: seq<int>)
    requires 0 <= n <= |t|
    ensures forall k :: 0 <= k < |c| ==> 0 <= c[k] < n && t[c[k]].parent == d
  {
    if n == 0 then [] else Children(t, d, n - 1) + (if t[n - 1].parent == d then [n - 1] else [])
  }

  /** Children lists every child once, in ascending order. */
  lemma {:induction false} ChildrenExact(t: seq<VNode>, d: int, n: int)
    requires 0 <= n <= |t|
    ensures var c := Children(t, d, n);
      && (forall i :: 0 <= i < n ==> (i in c <==> t[i].parent == d))
      && (forall j, k :: 0 <= j < k < |c| ==> c[j] < c[k])
  {
    if n > 0 {
      ChildrenExact(t, d, n - 1);
      var c := Children(t, d, n - 1);
      assert n - 1 !in c;
      assert Children(t, d, n) == c + (if t[n - 1].parent == d then [n - 1] else []);
    }
  }

  /** tarfs_finddir answers with the first child of that name that tarfs_readdir would list, or with NULL if it lists
      none. */
  lemma FindDirIsFirstListed(t: seq<VNode>, d: int, name: bytes)
    ensures var c, i := Children(t, d, |t|), FindDir(t, d, name);
      && (i < 0 <==> forall k :: 0 <= k < |c| ==> t[c[k]].name != name)
      && (i >= 0 ==> exists k :: 0 <= k < |c| && c[k] == i && forall j :: 0 <= j < k ==> t[c[j]].name != name)
  {
    hide Children, FindDir;
    ChildrenExact(t, d, |t|);
    var c, i := Children(t, d, |t|), FindDir(t, d, name);
    if i >= 0 {
      assert i in c;
      var k :| 0 <= k < |c| && c[k] == i;
      forall j | 0 <= j < k ensures t[c[j]].name != name {
        assert c[j] < i && !IsChild(t[c[j]], d, name);
      }
    } else {
      forall k | 0 <= k < |c| ensures t[c[k]].name != name {
        assert !IsChild(t[c[k]], d, name);
      }
    }
  }

  // ----- Well-formed archives

  /** There are not two slashes in a row at k. */
  predicate OneSlash(p: bytes, k: int)
    requires 0 < k < |p|
  {
    p[k] == SLASH ==> p[k - 1] != SLASH
  }

  /** No component is empty. */
  predicate IsClean(p: bytes) {
    |p| > 0 ==> p[0] != SLASH && p[|p| - 1] != SLASH && forall k :: 0 < k < |p| ==> OneSlash(p, k)
  }

  predicate Listed(paths: seq<bytes>, p: bytes) {
    IndexOf(paths, p) >= 0
  }

  predicate ListedDir(paths: seq<bytes>, kinds: seq<byte>, p: bytes)
    requires |paths| == |kinds|
  {
    Listed(paths, p) && kinds[IndexOf(paths, p)] == KIND_DIR
  }

  /** A root directory, distinct paths without empty components, and every directory listed as one. */
  ghost predicate WellFormed(paths: seq<bytes>, kinds: seq<byte>) {
    |paths| == |kinds| && ListedDir(paths, kinds, []) &&
    (forall i, j :: 0 <= i < j < |paths| ==> paths[i] != paths[j]) &&
    (forall i :: 0 <= i < |paths| ==> IsClean(paths[i])) &&
    (forall i :: 0 <= i < |paths| && paths[i] != [] ==> ListedDir(paths, kinds, Dir(paths[i])))
  }

  lemma SameLengths(paths: seq<bytes>, kinds: seq<byte>)
    requires WellFormed(paths, kinds)
    ensures |paths| == |kinds|
  {
  }

  lemma ListedIndex(paths: seq<bytes>, kinds: seq<byte>, i: int)
    requires WellFormed(paths, kinds) && 0 <= i < |paths|
    ensures IndexOf(paths, paths[i]) == i
  {
    IndexOfUnique(paths, paths[i], i);
  }

  /** Every directory on the way to a listed path is listed as a directory. */
  lemma {:induction false} AncestorIsDir(paths: seq<bytes>, kinds: seq<byte>, p: bytes, k: int)
    requires WellFormed(paths, kinds) && Listed(paths, p) && 0 <= k < |p| && p[k] == SLASH
    ensures ListedDir(paths, kinds, p[..k])
    decreases |p|
  {
    var i := IndexOf(paths, p);
    assert paths[i] == p;
    assert ListedDir(paths, kinds, Dir(p));
    var s := LastSlash(p);
    if k < s {
      assert Dir(p)[..k] == p[..k];
      AncestorIsDir(paths, kinds, Dir(p), k);
    }
  }

  /** Entry i's node keeps the entry's base name as it is. */
  predicate Plain(paths: seq<bytes>, kinds: seq<byte>, i: int)
    requires 0 <= i < |paths| == |kinds|
  {
    Stored(Base(paths[i]), Flags(kinds[i])) == Base(paths[i])
  }

  ghost predicate AllPlain(paths: seq<bytes>, kinds: seq<byte>) {
    |paths| == |kinds| && forall i :: 0 <= i < |paths| ==> Plain(paths, kinds, i)
  }

  /** In a well-formed archive, searching directory d for a name finds the entry whose path is d's path plus the name,
      if the name has fewer than 64 bytes or if every node keeps its name. */
  lemma FindDirIsLookup(paths: seq<bytes>, kinds: seq<byte>, junk: bytes, d: int, c: bytes)
    requires WellFormed(paths, kinds) && 0 <= d < |paths| && SLASH !in c && c != []
    requires |c| < VN_NAME || AllPlain(paths, kinds)
    ensures FindDir(Tree(paths, kinds, junk), d, c) == IndexOf(paths, Join(paths[d], c))
  {
    hide WellFormed, AllPlain, FindDir, IndexOf, Tree, Join;
    SameLengths(paths, kinds);
    var t, p := Tree(paths, kinds, junk), Join(paths[d], c);
    forall i | 0 <= i < |t| ensures IsChild(t[i], d, c) <==> paths[i] == p {
      ChildIsPath(paths, kinds, junk, d, c, i);
    }
    FindDirUnique(t, d, c, IndexOf(paths, p));
  }

  lemma ChildIsPath(paths: seq<bytes>, kinds: seq<byte>, junk: bytes, d: int, c: bytes, i: int)
    requires WellFormed(paths, kinds) && 0 <= d < |paths| && SLASH !in c && c != [] && 0 <= i < |paths|
    requires |c| < VN_NAME || AllPlain(paths, kinds)
    ensures IsChild(Tree(paths, kinds, junk)[i], d, c) <==> paths[i] == Join(paths[d], c)
  {
    assert IsClean(paths[i]);
    hide WellFormed, FindDir, IndexOf, LastSlash, Tree;
    SameLengths(paths, kinds);
    SplitJoin(paths[d], c);
    ChildIff(paths, kinds, junk, d, c, i);
    assert Plain(paths, kinds, i) || |c| < VN_NAME;
    if paths[i] != [] {
      CleanSplit(paths[i]);
    }
  }

  /** Which nodes a search of directory d for c meets: those in d whose stored name is c. */
  lemma ChildIff(paths: seq<bytes>, kinds: seq<byte>, junk: bytes, d: int, c: bytes, i: int)
    requires WellFormed(paths, kinds) && 0 <= d < |paths| && 0 <= i < |paths|
    ensures IsChild(Tree(paths, kinds, junk)[i], d, c) <==>
      paths[i] != [] && Dir(paths[i]) == paths[d] && Stored(Base(paths[i]), Flags(kinds[i])) == c
  {
    hide IndexOf, LastSlash;
    ListedIndex(paths, kinds, d);
    if paths[i] != [] {
      CleanSplit(paths[i]);
      assert ListedDir(paths, kinds, Dir(paths[i]));
    }
  }

  /** Entry i's node keeps its name, and no earlier node of the same directory has come to carry that name. */
  ghost predicate NameKept(paths: seq<bytes>, kinds: seq<byte>, i: int)
    requires 0 <= i < |paths| == |kinds|
  {
    Plain(paths, kinds, i) &&
    forall j :: 0 <= j < i ==> !Shadows(paths, kinds, j, i)
  }

  /** Entry j lies in the same directory as entry i and its stored name is entry i's name. */
  predicate Shadows(paths: seq<bytes>, kinds: seq<byte>, j: int, i: int)
    requires 0 <= j < |paths| == |kinds| && 0 <= i < |paths|
  {
    paths[j] != [] && Dir(paths[j]) == Dir(paths[i]) && Stored(Base(paths[j]), Flags(kinds[j])) == Base(paths[i])
  }

  /** Searching an entry's own directory for its own name finds the entry exactly when its name is kept. */
  lemma FoundIffKept(paths: seq<bytes>, kinds: seq<byte>, junk: bytes, d: int, i: int)
    requires WellFormed(paths, kinds) && 0 <= d < |paths| && 0 <= i < |paths| && paths[i] != [] &&
      Dir(paths[i]) == paths[d]
    ensures FindDir(Tree(paths, kinds, junk), d, Base(paths[i])) == i <==> NameKept(paths, kinds, i)
  {
    hide WellFormed, Tree, FindDir, Stored, Dir, Base;
    SameLengths(paths, kinds);
    var t, c := Tree(paths, kinds, junk), Base(paths[i]);
    forall j | 0 <= j <= i ensures IsChild(t[j], d, c) <==> Shadows(paths, kinds, j, i) {
      ChildIff(paths, kinds, junk, d, c, j);
    }
    if NameKept(paths, kinds, i) {
      FindDirUnique(t, d, c, i);
    }
  }

  lemma CleanSplit(p: bytes)
    requires IsClean(p) && p != []
    ensures Join(Dir(p), Base(p)) == p && Base(p) != []
  {
    JoinSplit(p);
  }

  lemma NoEmptyChild(paths: seq<bytes>, kinds: seq<byte>, junk: bytes, d: int)
    requires WellFormed(paths, kinds) && 0 <= d < |paths|
    ensures FindDir(Tree(paths, kinds, junk), d, []) == -1
  {
    var t := Tree(paths, kinds, junk);
    forall i | 0 <= i < |t| ensures !IsChild(t[i], d, []) {
      assert t[i] == NodeOf(paths, kinds, junk, i);
      if paths[i] != [] {
        CleanSplit(paths[i]);
      }
    }
    FindDirUnique(t, d, [], -1);
  }
}
