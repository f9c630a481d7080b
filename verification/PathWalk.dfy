/** Following a path through a mounted archive. */
module PathWalk {
  import opened Bytes
  import opened CStrings
  import opened TarNames
  import opened TarTree
  import opened VfsNode

  /** A node, a NULL result, or the dereference of a NULL pointer. */
  datatype Outcome = Node(index: int) | Null | Fault

  /** fs_finddir: only directories are searched. */
  function FsFindDir(t: seq<VNode>, d: int, name: bytes): (i: int)
    requires 0 <= d < |t|
    ensures -1 <= i < |t|
  {
    if t[d].flags == VN_FDIR then FindDir(t, d, name) else -1
  }

  /** Nothing is found in a node that is no directory. */
  lemma OnlyInDirectories(t: seq<VNode>, d: int, name: bytes)
    requires 0 <= d < |t| && t[d].flags != 2
    ensures FsFindDir(t, d, name) == -1
  {
  }

  predicate HasDirBit(flags: byte) {
    flags / VN_FDIR % 2 == 1
  }

  /** fs_follow_path: look up the first component, and go on below it if there are more. */
  function Follow(t: seq<VNode>, d: int, p: bytes): (r: Outcome)
    requires 0 <= d < |t|
    ensures r.Node? ==> 0 <= r.index < |t|
    decreases |p|
  {
    var k := FirstOf(p, [SLASH]);
    var node := FsFindDir(t, d, p[..k]);
    if k == |p| then (if node < 0 then Null else Node(node))
    else if node < 0 then Fault
    else if !HasDirBit(t[node].flags) then Null
    else Follow(t, node, p[k + 1..])
  }

  /** The last step of the walk. */
  lemma {:induction false} FollowLast(t: seq<VNode>, d: int, p: bytes)
    requires 0 <= d < |t| && FirstOf(p, [SLASH]) == |p|
    ensures Follow(t, d, p) == (var node := FsFindDir(t, d, p); if node < 0 then Null else Node(node))
  {
    assert p[..|p|] == p;
  }

  /** A step of the walk that is not the last. */
  lemma {:induction false} FollowMore(t: seq<VNode>, d: int, p: bytes)
    requires 0 <= d < |t| && FirstOf(p, [SLASH]) < |p|
    ensures var k := FirstOf(p, [SLASH]);
      var node := FsFindDir(t, d, p[..k]);
      Follow(t, d, p) ==
        if node < 0 then Fault else if HasDirBit(t[node].flags) then Follow(t, node, p[k + 1..]) else Null
  {
  }

  /** Every component of the path has fewer than 64 bytes. */
  predicate ShortParts(p: bytes)
    decreases |p|
  {
    var k := FirstOf(p, [SLASH]);
    k < VN_NAME && (k == |p| || ShortParts(p[k + 1..]))
  }

  // ----- What the walk finds in a well-formed archive

  predicate CutAt(p: bytes, k: int) {
    0 <= k < |p| && p[k] == SLASH
  }

  /** The prefix of p that ends before slash k is not listed, though its directory is. */
  ghost predicate MissingAt(paths: seq<bytes>, kinds: seq<byte>, q: bytes, p: bytes, k: int)
    requires |paths| == |kinds|
  {
    CutAt(p, k) && !Listed(paths, Join(q, p[..k])) && ListedDir(paths, kinds, Dir(Join(q, p[..k])))
  }

  ghost predicate Broken(paths: seq<bytes>, kinds: seq<byte>, q: bytes, p: bytes)
    requires |paths| == |kinds|
  {
    exists k :: MissingAt(paths, kinds, q, p, k)
  }

  /** Join is associative over a slash of the rest. */
  lemma JoinStep(q: bytes, p: bytes, k: int, j: int)
    requires CutAt(p, k) && (q != [] || k > 0) && k < j <= |p|
    ensures Join(Join(q, p[..k]), p[k + 1..j]) == Join(q, p[..j])
    ensures |Join(q, p[..k])| < |Join(q, p[..j])|
    ensures Join(q, p[..j])[..|Join(q, p[..k])|] == Join(q, p[..k]) && Join(q, p[..j])[|Join(q, p[..k])|] == SLASH
  {
    assert p[..j] == p[..k] + [SLASH] + p[k + 1..j];
  }

  /** The search of one component finds exactly the entry with the joined path. */
  lemma ComponentFound(paths: seq<bytes>, kinds: seq<byte>, junk: bytes, d: int, c: bytes)
    requires WellFormed(paths, kinds) && 0 <= d < |paths| && kinds[d] == KIND_DIR && SLASH !in c &&
      (paths[d] != [] || c != [])
    requires |c| < VN_NAME || AllPlain(paths, kinds)
    ensures FsFindDir(Tree(paths, kinds, junk), d, c) == IndexOf(paths, Join(paths[d], c))
  {
    var t := Tree(paths, kinds, junk);
    assert t[d] == NodeOf(paths, kinds, junk, d);
    if c != [] {
      FindDirIsLookup(paths, kinds, junk, d, c);
    } else {
      NoEmptyChild(paths, kinds, junk, d);
      var p := Join(paths[d], c);
      assert EndsInSlash(p);
      IndexOfUnique(paths, p, -1);
    }
  }

  /** If the whole path is listed, its first component is listed as a directory. */
  lemma FirstOfListed(paths: seq<bytes>, kinds: seq<byte>, q: bytes, p: bytes, k: int)
    requires WellFormed(paths, kinds) && CutAt(p, k) && (q != [] || k > 0) && Listed(paths, Join(q, p))
    ensures ListedDir(paths, kinds, Join(q, p[..k]))
  {
    JoinStep(q, p, k, |p|);
    assert p[..|p|] == p;
    AncestorIsDir(paths, kinds, Join(q, p), |Join(q, p[..k])|);
  }

  /** If something is missing further down, the first component is listed as a directory. */
  lemma FirstOfMissing(paths: seq<bytes>, kinds: seq<byte>, q: bytes, p: bytes, k: int, j: int)
    requires WellFormed(paths, kinds) && CutAt(p, k) && (q != [] || k > 0) && k < j && MissingAt(paths, kinds, q, p, j)
    ensures ListedDir(paths, kinds, Join(q, p[..k]))
  {
    hide WellFormed, IndexOf, Join;
    var a, x := Join(q, p[..k]), Join(q, p[..j]);
    JoinStep(q, p, k, j);
    var s := LastSlash(x);
    if s > |a| {
      assert Dir(x)[..|a|] == a && Dir(x)[|a|] == SLASH;
      AncestorIsDir(paths, kinds, Dir(x), |a|);
    }
  }

  /** A first component that is listed, but not as a directory, leaves nothing to be missing. */
  lemma NotBrokenPastFile(paths: seq<bytes>, kinds: seq<byte>, q: bytes, p: bytes)
    requires var k := FirstOf(p, [SLASH]);
      WellFormed(paths, kinds) && (q != [] || k > 0) &&
      (k < |p| ==> Listed(paths, Join(q, p[..k])) && !ListedDir(paths, kinds, Join(q, p[..k])))
    ensures !Broken(paths, kinds, q, p)
  {
    hide WellFormed, IndexOf, FirstOf, Join, Dir;
    SameLengths(paths, kinds);
    var k := FirstOf(p, [SLASH]);
    forall j | MissingAt(paths, kinds, q, p, j) ensures false {
      assert p[j] in [SLASH] && k <= j;
      if k < j {
        FirstOfMissing(paths, kinds, q, p, k, j);
      }
    }
  }

  /** Slash j of p, past slash k, is slash j - k - 1 of what follows slash k, and cuts off the same path. */
  lemma MissingShift(paths: seq<bytes>, kinds: seq<byte>, q: bytes, p: bytes, k: int, j: int)
    requires |paths| == |kinds| && CutAt(p, k) && (q != [] || k > 0) && k < j
    ensures MissingAt(paths, kinds, q, p, j) <==> MissingAt(paths, kinds, Join(q, p[..k]), p[k + 1..], j - k - 1)
  {
    hide IndexOf, Join, Dir;
    if j < |p| {
      JoinStep(q, p, k, j);
      assert p[k + 1..][..j - k - 1] == p[k + 1..j] && p[k + 1..][j - k - 1] == p[j];
    }
  }

  /** Past a listed first component, what is missing from p is what is missing from the rest. */
  lemma {:induction false} BrokenBelow(paths: seq<bytes>, kinds: seq<byte>, q: bytes, p: bytes, k: int)
    requires |paths| == |kinds| && k == FirstOf(p, [SLASH]) && k < |p| && (q != [] || k > 0) &&
      Listed(paths, Join(q, p[..k]))
    ensures Broken(paths, kinds, q, p) <==> Broken(paths, kinds, Join(q, p[..k]), p[k + 1..])
  {
    hide IndexOf, FirstOf, Join, Dir;
    var a, rest := Join(q, p[..k]), p[k + 1..];
    if Broken(paths, kinds, q, p) {
      var j :| MissingAt(paths, kinds, q, p, j);
      NotBefore(paths, kinds, q, p, k, j);
      MissingShift(paths, kinds, q, p, k, j);
      assert MissingAt(paths, kinds, a, rest, j - k - 1);
    }
    if Broken(paths, kinds, a, rest) {
      var i :| MissingAt(paths, kinds, a, rest, i);
      MissingShift(paths, kinds, q, p, k, k + 1 + i);
      assert MissingAt(paths, kinds, q, p, k + 1 + i);
    }
  }

  lemma NotBefore(paths: seq<bytes>, kinds: seq<byte>, q: bytes, p: bytes, k: int, j: int)
    requires |paths| == |kinds| && k == FirstOf(p, [SLASH]) && Listed(paths, Join(q, p[..k])) &&
      MissingAt(paths, kinds, q, p, j)
    ensures k < j
  {
    hide IndexOf, FirstOf, Join, Dir;
    assert p[j] in [SLASH];
  }

  /** The first step of the walk. */
  lemma {:induction false} FollowSetup(paths: seq<bytes>, kinds: seq<byte>, junk: bytes, d: int, p: bytes)
    requires WellFormed(paths, kinds) && 0 <= d < |paths| && kinds[d] == KIND_DIR
    requires paths[d] != [] || (p != [] && p[0] != SLASH)
    requires FirstOf(p, [SLASH]) < VN_NAME || AllPlain(paths, kinds)
    ensures |paths| == |kinds| && ListedDir(paths, kinds, paths[d])
    ensures var k := FirstOf(p, [SLASH]);
      var a := Join(paths[d], p[..k]);
      && (paths[d] != [] || k > 0) && a != []
      && FsFindDir(Tree(paths, kinds, junk), d, p[..k]) == IndexOf(paths, a)
      && (Listed(paths, a) ==> Tree(paths, kinds, junk)[IndexOf(paths, a)].flags == Flags(kinds[IndexOf(paths, a)]))
  {
    var k := FirstOf(p, [SLASH]);
    var c := p[..k];
    forall j | 0 <= j < |c| ensures c[j] != SLASH {
      assert p[j] !in [SLASH];
    }
    ListedIndex(paths, kinds, d);
    ComponentFound(paths, kinds, junk, d, c);
  }

  /** From any listed directory: a node exactly for a listed path, a fault exactly for a missing intermediate directory.
      The path has short components, or every node keeps its name. */
  lemma {:induction false} FollowExact(paths: seq<bytes>, kinds: seq<byte>, junk: bytes, d: int, p: bytes)
    requires WellFormed(paths, kinds) && 0 <= d < |paths| && kinds[d] == KIND_DIR
    requires paths[d] != [] || (p != [] && p[0] != SLASH)
    requires ShortParts(p) || AllPlain(paths, kinds)
    ensures var r := Follow(Tree(paths, kinds, junk), d, p);
      && (Listed(paths, Join(paths[d], p)) ==> r == Node(IndexOf(paths, Join(paths[d], p))))
      && (r.Node? ==> Listed(paths, Join(paths[d], p)))
      && (r == Fault <==> Broken(paths, kinds, paths[d], p))
    decreases |p|
  {
    hide WellFormed, AllPlain, Tree, NodeOf, Broken, FsFindDir, Join, Dir, IndexOf, FirstOf;
    FollowSetup(paths, kinds, junk, d, p);
    var t, q := Tree(paths, kinds, junk), paths[d];
    var k := FirstOf(p, [SLASH]);
    var c := p[..k];
    var node := IndexOf(paths, Join(q, c));
    if k == |p| {
      assert c == p;
      NotBrokenPastFile(paths, kinds, q, p);
    } else if node < 0 {
      FirstMissing(paths, kinds, q, p, k);
    } else if kinds[node] == KIND_DIR {
      JoinStep(q, p, k, |p|);
      assert p[..|p|] == p && p[k + 1..|p|] == p[k + 1..];
      FollowExact(paths, kinds, junk, node, p[k + 1..]);
      BrokenBelow(paths, kinds, q, p, k);
    } else {
      NotBrokenPastFile(paths, kinds, q, p);
      if Listed(paths, Join(q, p)) {
        FirstOfListed(paths, kinds, q, p, k);
        assert false;
      }
    }
  }

  lemma FirstMissing(paths: seq<bytes>, kinds: seq<byte>, q: bytes, p: bytes, k: int)
    requires |paths| == |kinds| && WellFormed(paths, kinds) && k == FirstOf(p, [SLASH]) && k < |p| && (q != [] || k > 0)
    requires !Listed(paths, Join(q, p[..k])) && ListedDir(paths, kinds, q)
    ensures Broken(paths, kinds, q, p) && !Listed(paths, Join(q, p))
  {
    hide WellFormed, IndexOf, Join, FirstOf, Dir;
    var c := p[..k];
    forall j | 0 <= j < |c| ensures c[j] != SLASH {
      assert p[j] !in [SLASH];
    }
    SplitJoin(q, c);
    assert MissingAt(paths, kinds, q, p, k);
    if Listed(paths, Join(q, p)) {
      FirstOfListed(paths, kinds, q, p, k);
      assert false;
    }
  }

  // ----- Long names

  /** Every entry on the way from q along p keeps its name. */
  ghost predicate Kept(paths: seq<bytes>, kinds: seq<byte>, q: bytes, p: bytes)
    requires |paths| == |kinds|
    decreases |p|
  {
    var k := FirstOf(p, [SLASH]);
    var i := IndexOf(paths, Join(q, p[..k]));
    i >= 0 && NameKept(paths, kinds, i) && (k == |p| || Kept(paths, kinds, Join(q, p[..k]), p[k + 1..]))
  }

  function Slashes(p: bytes): nat
    decreases |p|
  {
    var k := FirstOf(p, [SLASH]);
    if k == |p| then 0 else 1 + Slashes(p[k + 1..])
  }

  /** The directory n levels up. */
  function Up(p: bytes, n: nat): bytes {
    if n == 0 then p else Dir(Up(p, n - 1))
  }

  /** Going up n levels from a node leads to the path q. */
  predicate LeadsBack(paths: seq<bytes>, r: Outcome, n: nat, q: bytes) {
    r.Node? ==> 0 <= r.index < |paths| && Up(paths[r.index], n) == q
  }

  lemma {:induction false} LeadsBackStep(paths: seq<bytes>, r: Outcome, n: nat, q: bytes)
    requires LeadsBack(paths, r, n, q)
    ensures LeadsBack(paths, r, n + 1, Dir(q))
  {
  }

  lemma {:induction false} LeadsBackOnce(paths: seq<bytes>, i: int)
    requires 0 <= i < |paths|
    ensures LeadsBack(paths, Node(i), 1, Dir(paths[i]))
  {
    UpStep(paths[i], 0);
  }

  lemma {:induction false} LeadsNowhere(paths: seq<bytes>, r: Outcome, n: nat, q: bytes)
    requires !r.Node?
    ensures LeadsBack(paths, r, n, q)
  {
  }

  /** Wherever the walk arrives, going up as many levels as the path has components leads back to the start. */
  lemma {:induction false} WalkUp(paths: seq<bytes>, kinds: seq<byte>, junk: bytes, d: int, p: bytes)
    requires WellFormed(paths, kinds) && 0 <= d < |paths|
    ensures LeadsBack(paths, Follow(Tree(paths, kinds, junk), d, p), Slashes(p) + 1, paths[d])
    decreases |p|
  {
    hide WellFormed, Tree, NodeOf, Dir, FirstOf, FsFindDir, Follow, Slashes, Up, HasDirBit, LeadsBack;
    SameLengths(paths, kinds);
    var t, k := Tree(paths, kinds, junk), FirstOf(p, [SLASH]);
    var node := FsFindDir(t, d, p[..k]);
    ChildOf(paths, kinds, junk, d, p[..k]);
    if k == |p| {
      WalkUpLast(paths, t, d, p);
    } else {
      if node >= 0 {
        WalkUp(paths, kinds, junk, node, p[k + 1..]);
      }
      WalkUpMore(paths, t, d, p);
    }
  }

  lemma {:induction false} WalkUpLast(paths: seq<bytes>, t: seq<VNode>, d: int, p: bytes)
    requires |t| == |paths| && 0 <= d < |t| && FirstOf(p, [SLASH]) == |p|
    requires var node := FsFindDir(t, d, p[..|p|]); node >= 0 ==> Dir(paths[node]) == paths[d]
    ensures LeadsBack(paths, Follow(t, d, p), Slashes(p) + 1, paths[d])
  {
    hide Dir, FirstOf, FsFindDir, Follow, Slashes, Up, LeadsBack;
    SlashesStep(p);
    FollowLast(t, d, p);
    assert p[..|p|] == p;
    var node := FsFindDir(t, d, p);
    if node < 0 {
      LeadsNowhere(paths, Null, 1, paths[d]);
    } else {
      LeadsBackOnce(paths, node);
    }
  }

  lemma {:induction false} WalkUpMore(paths: seq<bytes>, t: seq<VNode>, d: int, p: bytes)
    requires |t| == |paths| && 0 <= d < |t| && FirstOf(p, [SLASH]) < |p|
    requires var k := FirstOf(p, [SLASH]);
      var node := FsFindDir(t, d, p[..k]);
      node >= 0 ==> Dir(paths[node]) == paths[d] &&
                    LeadsBack(paths, Follow(t, node, p[k + 1..]), Slashes(p[k + 1..]) + 1, paths[node])
    ensures LeadsBack(paths, Follow(t, d, p), Slashes(p) + 1, paths[d])
  {
    hide Dir, FirstOf, FsFindDir, Follow, Slashes, Up, HasDirBit, LeadsBack;
    SlashesStep(p);
    FollowMore(t, d, p);
    var k := FirstOf(p, [SLASH]);
    var node := FsFindDir(t, d, p[..k]);
    if node < 0 || !HasDirBit(t[node].flags) {
      LeadsNowhere(paths, Follow(t, d, p), Slashes(p) + 1, paths[d]);
    } else {
      LeadsBackStep(paths, Follow(t, node, p[k + 1..]), Slashes(p), paths[node]);
    }
  }

  lemma {:induction false} UpStep(p: bytes, n: nat)
    ensures Up(p, n + 1) == Dir(Up(p, n)) && Up(p, 0) == p
  {
  }

  lemma {:induction false} SlashesStep(p: bytes)
    ensures var k := FirstOf(p, [SLASH]); Slashes(p) == if k == |p| then 0 else 1 + Slashes(p[k + 1..])
  {
    hide FirstOf;
  }

  lemma ChildOf(paths: seq<bytes>, kinds: seq<byte>, junk: bytes, d: int, c: bytes)
    requires WellFormed(paths, kinds) && 0 <= d < |paths|
    ensures var i := FsFindDir(Tree(paths, kinds, junk), d, c); i >= 0 ==> Dir(paths[i]) == paths[d]
  {
    hide WellFormed, Tree, Dir, FindDir;
    SameLengths(paths, kinds);
    var i := FsFindDir(Tree(paths, kinds, junk), d, c);
    if i >= 0 {
      ChildIff(paths, kinds, junk, d, c, i);
    }
  }

  lemma {:induction false} JoinUp(q: bytes, p: bytes)
    requires q != [] || (p != [] && p[0] != SLASH)
    ensures Up(Join(q, p), Slashes(p) + 1) == q
    decreases |p|
  {
    hide Dir, Join, FirstOf, Slashes, Up;
    var k := FirstOf(p, [SLASH]);
    var c := p[..k];
    forall j | 0 <= j < |c| ensures c[j] != SLASH {
      assert p[j] !in [SLASH];
    }
    SplitJoin(q, c);
    SlashesStep(p);
    UpStep(Join(q, p), Slashes(p));
    if k == |p| {
      assert c == p;
    } else {
      JoinStep(q, p, k, |p|);
      JoinFilled(q, c);
      assert p[..|p|] == p && p[k + 1..|p|] == p[k + 1..];
      JoinUp(Join(q, c), p[k + 1..]);
    }
  }

  lemma JoinFilled(q: bytes, c: bytes)
    requires q != [] || c != []
    ensures Join(q, c) != []
  {
  }

  lemma {:induction false} KeptStep(paths: seq<bytes>, kinds: seq<byte>, q: bytes, p: bytes)
    requires |paths| == |kinds|
    ensures var k := FirstOf(p, [SLASH]);
      var i := IndexOf(paths, Join(q, p[..k]));
      Kept(paths, kinds, q, p) <==>
        i >= 0 && NameKept(paths, kinds, i) && (k == |p| || Kept(paths, kinds, Join(q, p[..k]), p[k + 1..]))
  {
    hide FirstOf, IndexOf, Join, NameKept;
  }

  /** A listed path of any length leads to its entry exactly when every entry on the way keeps its name. */
  lemma {:induction false} FollowReaches(paths: seq<bytes>, kinds: seq<byte>, junk: bytes, d: int, p: bytes, i: int)
    requires WellFormed(paths, kinds) && 0 <= d < |paths| && kinds[d] == KIND_DIR
    requires paths[d] != [] || (p != [] && p[0] != SLASH)
    requires 0 <= i < |paths| && paths[i] == Join(paths[d], p)
    ensures Follow(Tree(paths, kinds, junk), d, p) == Node(i) <==> Kept(paths, kinds, paths[d], p)
    decreases |p|
  {
    hide WellFormed, Tree, NodeOf, Dir, Base, Join, IndexOf, FirstOf, FindDir, FsFindDir, NameKept, Kept, Follow,
      HasDirBit;
    SameLengths(paths, kinds);
    var t, k := Tree(paths, kinds, junk), FirstOf(p, [SLASH]);
    FirstTurn(paths, kinds, junk, d, p, i);
    KeptStep(paths, kinds, paths[d], p);
    var ai := IndexOf(paths, Join(paths[d], p[..k]));
    if k == |p| {
      FollowLast(t, d, p);
    } else {
      FollowMore(t, d, p);
      if NameKept(paths, kinds, ai) {
        FollowReaches(paths, kinds, junk, ai, p[k + 1..], i);
      } else {
        LostOn(paths, kinds, junk, FsFindDir(t, d, p[..k]), ai, p[k + 1..], i);
      }
    }
  }

  /** The first step from directory d along the path of entry i: it finds the right entry exactly when that one keeps
      its name, and what remains leads from there to entry i. */
  lemma {:induction false} FirstTurn(paths: seq<bytes>, kinds: seq<byte>, junk: bytes, d: int, p: bytes, i: int)
    requires WellFormed(paths, kinds) && 0 <= d < |paths| && kinds[d] == KIND_DIR
    requires paths[d] != [] || (p != [] && p[0] != SLASH)
    requires 0 <= i < |paths| && paths[i] == Join(paths[d], p)
    ensures var k := FirstOf(p, [SLASH]);
      var ai := IndexOf(paths, Join(paths[d], p[..k]));
      && ai >= 0 && paths[ai] != []
      && (FsFindDir(Tree(paths, kinds, junk), d, p[..k]) == ai <==> NameKept(paths, kinds, ai))
      && (k == |p| ==> ai == i && p[..k] == p)
      && (k < |p| ==> kinds[ai] == KIND_DIR && HasDirBit(Tree(paths, kinds, junk)[ai].flags) &&
                      paths[i] == Join(paths[ai], p[k + 1..]))
  {
    hide WellFormed, Tree, NodeOf, Dir, Base, Join, IndexOf, FirstOf, FindDir, NameKept, HasDirBit;
    SameLengths(paths, kinds);
    var k := FirstOf(p, [SLASH]);
    ListedIndex(paths, kinds, i);
    FirstEntry(paths, kinds, d, p);
    FirstParts(paths[d], p);
    var ai := IndexOf(paths, Join(paths[d], p[..k]));
    DirNode(paths, kinds, junk, d);
    FoundIffKept(paths, kinds, junk, d, ai);
    if k == |p| {
      assert p[..k] == p;
    } else {
      DirNode(paths, kinds, junk, ai);
      JoinStep(paths[d], p, k, |p|);
      assert p[..|p|] == p && p[k + 1..|p|] == p[k + 1..];
    }
  }

  lemma OnePath(paths: seq<bytes>, kinds: seq<byte>, i: int, j: int)
    requires WellFormed(paths, kinds)
    ensures |paths| == |kinds|
    ensures 0 <= i < |paths| && 0 <= j < |paths| && i != j ==> paths[i] != paths[j]
  {
    assert i < j || j <= i;
  }

  /** A walk that starts elsewhere does not arrive where the rest of the path leads from a. */
  lemma WrongTurn(paths: seq<bytes>, r: Outcome, from: bytes, a: bytes, rest: bytes, i: int)
    requires LeadsBack(paths, r, Slashes(rest) + 1, from) && from != a && a != []
    requires 0 <= i < |paths| && paths[i] == Join(a, rest)
    ensures r != Node(i)
  {
    hide Join, Dir, Up, Slashes;
    JoinUp(a, rest);
  }

  lemma LostOn(paths: seq<bytes>, kinds: seq<byte>, junk: bytes, node: int, ai: int, rest: bytes, i: int)
    requires WellFormed(paths, kinds) && 0 <= ai < |paths| && -1 <= node < |paths| && node != ai
    requires 0 <= i < |paths| && paths[ai] != [] && paths[i] == Join(paths[ai], rest)
    ensures node >= 0 ==> Follow(Tree(paths, kinds, junk), node, rest) != Node(i)
  {
    OnePath(paths, kinds, node, ai);
    hide WellFormed, Tree, NodeOf, Follow, Join, LeadsBack, Slashes;
    if node >= 0 {
      WalkUp(paths, kinds, junk, node, rest);
      WrongTurn(paths, Follow(Tree(paths, kinds, junk), node, rest), paths[node], paths[ai], rest, i);
    }
  }

  /** The first component of a listed path is an entry of the starting directory, and a directory if more follows. */
  lemma {:induction false} FirstEntry(paths: seq<bytes>, kinds: seq<byte>, d: int, p: bytes)
    requires WellFormed(paths, kinds) && 0 <= d < |paths| && kinds[d] == KIND_DIR
    requires paths[d] != [] || (p != [] && p[0] != SLASH)
    requires Listed(paths, Join(paths[d], p))
    ensures var k := FirstOf(p, [SLASH]);
      var a := Join(paths[d], p[..k]);
      && Listed(paths, a) && (k < |p| ==> ListedDir(paths, kinds, a) && CutAt(p, k) && (paths[d] != [] || k > 0))
  {
    hide WellFormed, IndexOf, FirstOf, Join, Dir, Base;
    var k := FirstOf(p, [SLASH]);
    if k < |p| {
      FirstOfListed(paths, kinds, paths[d], p, k);
    } else {
      assert p[..k] == p;
    }
  }

  /** The path of the first component splits into the directory and the component. */
  lemma FirstParts(q: bytes, p: bytes)
    requires q != [] || (p != [] && p[0] != SLASH)
    ensures var c := p[..FirstOf(p, [SLASH])];
      Join(q, c) != [] && Dir(Join(q, c)) == q && Base(Join(q, c)) == c
  {
    hide Join, Dir, Base;
    var c := p[..FirstOf(p, [SLASH])];
    forall j | 0 <= j < |c| ensures c[j] != SLASH {
      assert p[j] !in [SLASH];
    }
    SplitJoin(q, c);
    JoinFilled(q, c);
  }

  lemma DirNode(paths: seq<bytes>, kinds: seq<byte>, junk: bytes, d: int)
    requires |paths| == |kinds| && 0 <= d < |paths| && kinds[d] == KIND_DIR
    ensures Tree(paths, kinds, junk)[d].flags == VN_FDIR && HasDirBit(VN_FDIR)
  {
  }

  /** A path leads through its own entry last. */
  lemma {:induction false} KeptLast(paths: seq<bytes>, kinds: seq<byte>, q: bytes, p: bytes)
    requires |paths| == |kinds| && (q != [] || (p != [] && p[0] != SLASH)) && Kept(paths, kinds, q, p)
    ensures Listed(paths, Join(q, p)) && NameKept(paths, kinds, IndexOf(paths, Join(q, p)))
    decreases |p|
  {
    hide Join, IndexOf, FirstOf, NameKept;
    var k := FirstOf(p, [SLASH]);
    if k == |p| {
      assert p[..k] == p;
    } else {
      JoinStep(q, p, k, |p|);
      JoinFilled(q, p[..k]);
      assert p[..|p|] == p && p[k + 1..|p|] == p[k + 1..];
      KeptLast(paths, kinds, Join(q, p[..k]), p[k + 1..]);
    }
  }
}
