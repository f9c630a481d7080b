/** Mounting an archive: names are trimmed where they lie, and nodes are built on demand, each one once. */
module TarVolume {
  import opened Bytes
  import opened CStrings
  import opened TarNames
  import opened TarTree
  import opened TarFormat
  import opened VfsNode

  /** strncmp's limit when names are compared. */
  const NAME_LIMIT: int := 256

  // ----- Names in place

  /** The header in block h names this path, with at most one slash after it. */
  predicate NameAt(m: seq<byte>, h: int, path: bytes) {
    0 <= h && BLOCK * h + BLOCK <= |m| && |Str(m, BLOCK * h)| < NAME_FIELD &&
    Normal(Str(m, BLOCK * h)) == path && !EndsInSlash(path)
  }

  ghost predicate NamesAt(m: seq<byte>, headers: seq<int>, paths: seq<bytes>) {
    |headers| == |paths| && (forall i :: 0 <= i < |headers| ==> NameAt(m, headers[i], paths[i])) &&
    forall i, j :: 0 <= i < j < |headers| ==> headers[i] < headers[j]
  }

  /** m and r differ in name fields only. */
  ghost predicate OnlyNames(m: seq<byte>, r: seq<byte>, headers: seq<int>) {
    |m| == |r| && forall x :: 0 <= x < |m| && m[x] != r[x] ==> InName(headers, x)
  }

  predicate InName(headers: seq<int>, x: int) {
    exists i :: 0 <= i < |headers| && BLOCK * headers[i] <= x < BLOCK * headers[i] + NAME_FIELD
  }

  ghost predicate KindsAt(m: seq<byte>, headers: seq<int>, kinds: seq<byte>) {
    |headers| == |kinds| &&
    forall i :: 0 <= i < |headers| ==>
      0 <= headers[i] && BLOCK * headers[i] + BLOCK <= |m| && m[BLOCK * headers[i] + KIND_AT] == kinds[i]
  }

  /** Where the pointer arithmetic that skips "./" and "/" ends up. */
  function StripAt(m: seq<byte>, a: int): (k: int)
    requires 0 <= a < |m| && a + |Str(m, a)| < |m|
    ensures a <= k <= a + |Str(m, a)|
  {
    StrHead(m, a);
    var k0 := if m[a] == DOT && m[a + 1] == SLASH then a + 1 else a;
    if m[k0] == SLASH then k0 + 1 else k0
  }

  /** It is the start of the stripped name. */
  lemma StripPointer(m: seq<byte>, a: int)
    requires 0 <= a < |m| && a + |Str(m, a)| < |m|
    ensures var k := StripAt(m, a);
      Str(m, k) == Strip(Str(m, a)) && k + |Str(m, k)| == a + |Str(m, a)|
  {
    hide Str;
    StrHead(m, a);
    StrSuffix(m, a, StripAt(m, a) - a);
  }

  /** The archive after the name at a has lost a trailing slash. */
  function TrimMem(m: seq<byte>, a: int): (r: seq<byte>)
    requires 0 <= a < |m| && a + |Str(m, a)| < |m|
  {
    var k := StripAt(m, a);
    var n := |Str(m, k)|;
    if n > 0 && k + n <= |m| && m[k + n - 1] == SLASH then m[k + n - 1 := NUL] else m
  }

  /** A cut in one name leaves the name in another block alone. */
  lemma OtherName(m: seq<byte>, h: int, path: bytes, g: int, x: int)
    requires NameAt(m, h, path) && 0 <= g && g != h && BLOCK * g <= x < BLOCK * g + NAME_FIELD && x < |m|
    ensures NameAt(m[x := NUL], h, path)
  {
    hide Str, Normal;
    StrFrame(m, m[x := NUL], BLOCK * h);
  }

  /** Trimming one name in place keeps every path and touches nothing but that name. */
  lemma TrimInPlace(m: seq<byte>, headers: seq<int>, paths: seq<bytes>, i: int)
    requires NamesAt(m, headers, paths) && 0 <= i < |headers| && EndsInSlash(Strip(Str(m, BLOCK * headers[i])))
    ensures var a := BLOCK * headers[i];
      var last := a + |Str(m, a)| - 1;
      var r := m[last := NUL];
      && NamesAt(r, headers, paths) && OnlyNames(m, r, headers) && Str(r, a) == Trimmed(Str(m, a))
  {
    hide Str, Normal, Strip;
    var a := BLOCK * headers[i];
    assert NameAt(m, headers[i], paths[i]);
    var s := Str(m, a);
    StripCut(s);
    var last := a + |s| - 1;
    var r := m[last := NUL];
    StrCut(m, a, |s| - 1);
    TrimmedKeepsNormal(s);
    forall j | 0 <= j < |headers| && j != i ensures NameAt(r, headers[j], paths[j]) {
      assert headers[j] < headers[i] || headers[i] < headers[j];
      OtherName(m, headers[j], paths[j], headers[i], last);
    }
    assert InName(headers, last);
  }

  lemma OnlyNamesSame(m: seq<byte>, headers: seq<int>)
    ensures OnlyNames(m, m, headers)
  {
  }

  lemma OnlyNamesTrans(m: seq<byte>, r: seq<byte>, t: seq<byte>, headers: seq<int>)
    requires OnlyNames(m, r, headers) && OnlyNames(r, t, headers)
    ensures OnlyNames(m, t, headers)
  {
  }

  /** Every node built so far is the one its entry calls for. */
  ghost predicate NodesOk(nodes: seq<Option<VNode>>, paths: seq<bytes>, kinds: seq<byte>, junk: bytes) {
    |nodes| == |paths| == |kinds| &&
    forall i :: 0 <= i < |nodes| && nodes[i].Some? ==> nodes[i].value == NodeOf(paths, kinds, junk, i)
  }

  /** The base name of entry i has been copied, and its end lay past the end of its node. */
  predicate RanOver(nodes: seq<Option<VNode>>, paths: seq<bytes>, i: int)
    requires |nodes| == |paths|
  {
    0 <= i < |nodes| && nodes[i].Some? && |Base(paths[i])| >= NODE_BYTES
  }

  ghost predicate OverrunOk(overrun: bool, nodes: seq<Option<VNode>>, paths: seq<bytes>) {
    |nodes| == |paths| && (overrun <==> exists i :: RanOver(nodes, paths, i))
  }

  /** No base name is too long for the memory of its node. */
  ghost predicate NodesFit(paths: seq<bytes>) {
    forall i :: 0 <= i < |paths| ==> |Base(paths[i])| < 80
  }

  lemma BuildOverrun(overrun: bool, nodes: seq<Option<VNode>>, paths: seq<bytes>, i: int, n: VNode)
    requires OverrunOk(overrun, nodes, paths) && 0 <= i < |nodes| && nodes[i].None?
    ensures OverrunOk(overrun || |Base(paths[i])| >= NODE_BYTES, nodes[i := Some(n)], paths)
  {
    hide Base;
    var built := nodes[i := Some(n)];
    forall j | RanOver(nodes, paths, j) ensures RanOver(built, paths, j) {
    }
    assert |Base(paths[i])| >= NODE_BYTES ==> RanOver(built, paths, i);
    forall j | RanOver(built, paths, j) && j != i ensures RanOver(nodes, paths, j) {
    }
  }

  /** The root is the first entry with an empty path, as soon as any such entry has a node. */
  ghost predicate RootOk(root: int, nodes: seq<Option<VNode>>, paths: seq<bytes>) {
    |nodes| == |paths| && (root == -1 || root == IndexOf(paths, [])) &&
    forall i :: 0 <= i < |nodes| && nodes[i].Some? && paths[i] == [] ==> root != -1
  }

  datatype Option<T> = None | Some(value: T)

  /** The archive bytes, each entry's header block and node, the root node or -1, and what the entries stand for. */
  datatype State = State(mem: seq<byte>, headers: seq<int>, nodes: seq<Option<VNode>>, root: int,
                         paths: seq<bytes>, kinds: seq<byte>)

  ghost predicate ValidState(s: State, junk: bytes) {
    NamesAt(s.mem, s.headers, s.paths) && KindsAt(s.mem, s.headers, s.kinds) &&
    NodesOk(s.nodes, s.paths, s.kinds, junk) && RootOk(s.root, s.nodes, s.paths)
  }

  /** What building nodes never changes: entries, paths and types; and no node is ever replaced. */
  ghost predicate Grows(s: State, t: State) {
    t.headers == s.headers && t.paths == s.paths && t.kinds == s.kinds && |t.nodes| == |s.nodes| &&
    OnlyNames(s.mem, t.mem, s.headers) && (s.root != -1 ==> t.root == s.root) &&
    forall i :: 0 <= i < |s.nodes| && s.nodes[i].Some? ==> t.nodes[i] == s.nodes[i]
  }

  /** Only entries whose path has at most n bytes got a node. */
  ghost predicate BuildsUpTo(s: State, t: State, n: int) {
    |s.nodes| == |t.nodes| == |s.paths| && forall i :: 0 <= i < |s.nodes| && |s.paths[i]| > n ==>
      t.nodes[i] == s.nodes[i]
  }

  lemma GrowsSame(s: State)
    ensures Grows(s, s)
    ensures |s.nodes| == |s.paths| ==> forall n :: BuildsUpTo(s, s, n)
  {
  }

  lemma GrowsTrans(s: State, t: State, u: State)
    requires Grows(s, t) && Grows(t, u)
    ensures Grows(s, u)
  {
    OnlyNamesTrans(s.mem, t.mem, u.mem, s.headers);
  }

  /** Trimming the name of entry i is a step that builds nothing and breaks nothing. */
  lemma TrimGrows(s: State, junk: bytes, i: int)
    requires ValidState(s, junk) && 0 <= i < |s.headers|
    ensures NameAt(s.mem, s.headers[i], s.paths[i])
    ensures var a := BLOCK * s.headers[i];
      var t, k := s.(mem := TrimMem(s.mem, a)), StripAt(s.mem, a);
      && ValidState(t, junk) && Grows(s, t) && BuildsUpTo(s, t, 0) && |t.mem| == |s.mem|
      && k <= |t.mem| && Str(t.mem, k) == s.paths[i] && |s.paths[i]| < NAME_FIELD
  {
    hide Str, TrimMem, StripAt, NamesAt, KindsAt, NodesOk;
    TrimEffect(s.mem, s.headers, s.paths, s.kinds, i);
  }

  /** Giving entry i the node it calls for is a step that keeps everything valid. */
  lemma BuildGrows(s: State, junk: bytes, i: int, root: int)
    requires ValidState(s, junk) && 0 <= i < |s.nodes| && s.nodes[i].None?
    requires root == if s.paths[i] == [] && s.root == -1 then i else s.root
    requires s.paths[i] == [] && s.root == -1 ==> i == IndexOf(s.paths, [])
    ensures var t := s.(nodes := s.nodes[i := Some(NodeOf(s.paths, s.kinds, junk, i))], root := root);
      ValidState(t, junk) && Grows(s, t) && BuildsUpTo(s, t, |s.paths[i]|)
  {
    hide NamesAt, KindsAt, NodeOf, IndexOf;
    OnlyNamesSame(s.mem, s.headers);
  }

  class Archive {
    /** The archive in memory. */
    const buf: array<byte>
    /** What freshly allocated memory holds where a node's name goes. */
    const junk: bytes
    var headers: seq<int>
    var nodes: seq<Option<VNode>>
    var root: int
    /** Some name was copied past the end of its node, into memory that is not the archive's. */
    var overrun: bool
    ghost var paths: seq<bytes>
    ghost var kinds: seq<byte>

    ghost function Now(): State
      reads this, buf
    {
      State(buf[..], headers, nodes, root, paths, kinds)
    }

    ghost predicate Valid()
      reads this, buf
    {
      ValidState(Now(), junk) && |headers| == |nodes| == |paths| == |kinds| && OverrunOk(overrun, nodes, paths)
    }

    /** The part of lookup_vnode that skips "./" and "/" and cuts a trailing slash off the name in the archive. */
    method TrimName(i: int) returns (kiwi: int)
      requires Valid() && 0 <= i < |headers|
      modifies buf
      ensures Valid() && Grows(old(Now()), Now()) && BuildsUpTo(old(Now()), Now(), 0)
      ensures 0 <= kiwi <= buf.Length && Str(buf[..], kiwi) == paths[i] && |paths[i]| < NAME_FIELD
    {
      hide Str, ValidState, Grows, BuildsUpTo, TrimMem, StripAt;
      TrimGrows(Now(), junk, i);
      kiwi := CutName(buf, BLOCK * headers[i]);
    }

    /** lookup_vnode: the first entry with this path, its node built if need be. */
    method Lookup(path: bytes) returns (r: int)
      requires Valid() && |path| < NAME_LIMIT && NUL !in path
      modifies this, buf
      ensures Valid() && Grows(old(Now()), Now()) && BuildsUpTo(old(Now()), Now(), |path|)
      ensures paths == old(paths) && r == IndexOf(paths, path) && (r >= 0 ==> nodes[r].Some?)
      decreases |path|, 1
    {
      hide Str, ValidState, Grows, BuildsUpTo, IndexOf;
      ghost var start := Now();
      GrowsSame(start);
      var i := 0;
      while i < |headers|
        invariant 0 <= i <= |headers| && Valid() && Grows(start, Now()) && paths == start.paths &&
          BuildsUpTo(start, Now(), |path|)
        invariant forall j :: 0 <= j < i ==> paths[j] != path
      {
        ghost var before := Now();
        var kiwi := TrimName(i);
        GrowsTrans(start, before, Now());
        GrowsKeeps(start, Now());
        BuildsMore(before, Now(), 0, |path|);
        BuildsTrans(start, before, Now(), |path|);
        var name := Str(buf[..], kiwi);
        ShortNames(name, path, NAME_LIMIT);
        var same := StrNCmpZero(name, path, NAME_LIMIT);
        if same {
          IndexOfUnique(paths, path, i);
          before := Now();
          Reassemble(i);
          GrowsTrans(start, before, Now());
          GrowsKeeps(start, Now());
          BuildsTrans(start, before, Now(), |path|);
          return i;
        }
        i := i + 1;
      }
      IndexOfUnique(paths, path, -1);
      return -1;
    }

    /** reassemble_nodes: gives entry i its node unless it has one already. */
    method Reassemble(i: int)
      requires Valid() && 0 <= i < |headers|
      requires paths[i] == [] && root == -1 ==> i == IndexOf(paths, [])
      modifies this, buf
      ensures Valid() && Grows(old(Now()), Now()) && BuildsUpTo(old(Now()), Now(), |paths[i]|) && nodes[i].Some?
      decreases |paths[i]|, 0
    {
      hide Str, ValidState, Grows, IndexOf, Normal, LastSlash, Base, Dir, OverrunOk, Stored;
      ghost var start := Now();
      GrowsSame(start);
      EntryFacts(start, junk, i);
      if nodes[i].None? {
        var path := Normal(Str(buf[..], BLOCK * headers[i]));
        var name, parent, long := junk, -1, false;
        if path != [] {
          DirShorter(path);
          var dirname, basename := SplitBasename(path);
          name, long := StrCpy(junk, basename), |basename| + 1 > NODE_BYTES;
          parent := Lookup(dirname);
          GrowsKeeps(start, Now());
          EntryFacts(Now(), junk, i);
        }
        ghost var middle := Now();
        if path == [] && root == -1 {
          root := i;
        }
        BuildGrows(middle, junk, i, root);
        var flags := Flags(buf[BLOCK * headers[i] + KIND_AT]);
        var node := VNode(Stored(name, flags), flags, parent);
        EmptyBase(path);
        BuildOverrun(overrun, nodes, paths, i, node);
        nodes, overrun := nodes[i := Some(node)], overrun || long;
        assert Now().nodes[i] == Some(NodeOf(paths, kinds, junk, i));
        GrowsTrans(start, middle, Now());
        BuildsMore(start, middle, if path == [] then 0 else |Dir(path)|, |path|);
        BuildsTrans(start, middle, Now(), |path|);
      }
    }

    /** tarfs_mount: decode the archive, then give every entry its node. */
    constructor (buf: array<byte>, junk: bytes, ghost es: seq<Entry>)
      requires Layout(buf[..], 0, es) && OneTrailingSlash(es)
      modifies buf
      ensures this.buf == buf && this.junk == junk
      ensures overrun <==> !NodesFit(PathsOf(es))
      ensures !overrun ==> Mounted(es)
      ensures OnlyNames(old(buf[..]), buf[..], headers)
    {
      hide Layout, ValidState, Grows, IndexOf, OneTrailingSlash, OverrunOk, NodesFit;
      var blocks := DecodeBlocks(buf, es);
      this.buf, this.junk, headers := buf, junk, blocks;
      nodes := [];
      root, overrun := -1, false;
      paths, kinds := PathsOf(es), KindsOf(es);
      new;
      nodes := seq(|headers|, i => None);
      FreshState(buf[..], es, junk);
      NoOverrunYet(nodes, paths);
      ghost var start := Now();
      GrowsSame(start);
      var i := 0;
      while i < |headers|
        invariant 0 <= i <= |headers| == |nodes| && Valid() && Grows(start, Now()) && headers == start.headers
        invariant paths == start.paths && kinds == start.kinds
        invariant forall j :: 0 <= j < i ==> nodes[j].Some?
      {
        ghost var before := Now();
        RootComesFirst(before, junk, i);
        Reassemble(i);
        GrowsTrans(start, before, Now());
        GrowsKeeps(before, Now());
        NodesStay(before, Now(), i);
        i := i + 1;
      }
      AllBuilt(start, Now(), junk, es);
      OverrunExactly(overrun, nodes, paths);
    }

    /** All nodes are there, the root is known, and every entry's data is still in place. */
    ghost predicate Mounted(es: seq<Entry>)
      reads this, buf
    {
      |headers| == |es| && DataIn(buf[..], headers, es) && root == IndexOf(PathsOf(es), []) &&
      nodes == SomeAll(Tree(PathsOf(es), KindsOf(es), junk))
    }

    /** tarfs_read: copies bytes until the buffer is full or the file ends. */
    method Read(i: int, offt: word, len: word, ghost es: seq<Entry>) returns (dst: bytes)
      requires Mounted(es) && 0 <= i < |es|
      ensures dst == Slice(es[i].data, offt, len)
    {
      hide Str, Octal, Tree, IndexOf, Slice, SomeAll;
      ghost var data := es[i].data;
      assert DataAt(buf[..], headers[i], data);
      SliceNone(data, offt);
      var size := Octal2Int(buf, BLOCK * headers[i] + SIZE_AT);
      var base := BLOCK * headers[i] + BLOCK;
      var at, left := offt, len;
      dst := [];
      while left > 0 && at < size
        invariant 0 <= left <= len && at == offt + (len - left) && (at <= size || at == offt)
        invariant dst == Slice(data, offt, len - left)
        decreases left
      {
        assert buf[base + at] == buf[..][base..base + |data|][at];
        SliceStep(data, offt, len - left);
        dst := dst + [buf[base + at]];
        at, left := at + 1, left - 1;
      }
      if left > 0 {
        SliceRest(data, offt, len - left, len);
      }
    }

    /** Reading on from where the last read ended, in pieces of any positive size, gives the whole file. The count is
        kept in a signed int, so a first piece of 2^31 bytes or more ends the loop at once. */
    method ReadAll(i: int, chunk: word, ghost es: seq<Entry>) returns (all: bytes)
      requires Mounted(es) && 0 <= i < |es| && chunk > 0 && |es[i].data| < 0x1_0000_0000
      ensures all == Readable(es[i].data, chunk)
    {
      hide Str, Octal, Tree, IndexOf, Mounted;
      ghost var data := es[i].data;
      all := [];
      var piece := Read(i, 0, chunk, es);
      while Signed(|piece|) > 0
        invariant |all| <= |data| && all == data[..|all|] && piece == Slice(data, |all|, chunk)
        invariant all != [] ==> chunk < SIGN || |data| < SIGN
        decreases |data| - |all|
      {
        all := all + piece;
        piece := Read(i, |all|, chunk, es);
      }
    }

    /** tarfs_finddir */
    method FindChild(d: int, name: bytes, ghost es: seq<Entry>) returns (r: int)
      requires Mounted(es)
      ensures r == FindDir(Tree(PathsOf(es), KindsOf(es), junk), d, name)
    {
      hide Tree, NodeOf, PathsOf, KindsOf, IndexOf, FindDir, DataIn;
      ghost var t := Tree(PathsOf(es), KindsOf(es), junk);
      r := 0;
      while r < |nodes|
        invariant 0 <= r <= |nodes| && forall j :: 0 <= j < r ==> !IsChild(t[j], d, name)
      {
        if nodes[r].value.parent == d && nodes[r].value.name == name {
          FindDirUnique(t, d, name, r);
          return;
        }
        r := r + 1;
      }
      FindDirUnique(t, d, name, -1);
      return -1;
    }

    /** tarfs_readdir: the index-th child in archive order, or NULL. */
    method ReadDir(d: int, index: word, ghost es: seq<Entry>) returns (r: int)
      requires Mounted(es)
      ensures var t := Tree(PathsOf(es), KindsOf(es), junk);
        var c := Children(t, d, |t|);
        r == if index < |c| then c[index] else -1
    {
      hide Tree, NodeOf, PathsOf, KindsOf, IndexOf, DataIn, Children;
      ghost var t := Tree(PathsOf(es), KindsOf(es), junk);
      NoChildrenYet(t, d);
      var left := index;
      r := 0;
      while r < |nodes|
        invariant 0 <= r <= |nodes| && 0 <= left == index - |Children(t, d, r)|
      {
        NextChild(t, d, r);
        if nodes[r].value.parent == d {
          if left == 0 {
            return;
          }
          left := left - 1;
        }
        r := r + 1;
      }
      return -1;
    }
  }

  lemma EmptyBase(path: bytes)
    ensures path == [] ==> Base(path) == []
  {
  }

  lemma NoOverrunYet(nodes: seq<Option<VNode>>, paths: seq<bytes>)
    requires |nodes| == |paths| && forall i :: 0 <= i < |nodes| ==> nodes[i].None?
    ensures OverrunOk(false, nodes, paths)
  {
  }

  lemma OverrunExactly(overrun: bool, nodes: seq<Option<VNode>>, paths: seq<bytes>)
    requires OverrunOk(overrun, nodes, paths) && forall i :: 0 <= i < |nodes| ==> nodes[i].Some?
    ensures overrun <==> !NodesFit(paths)
  {
    hide Base;
    if !NodesFit(paths) {
      var i :| 0 <= i < |paths| && |Base(paths[i])| >= NODE_BYTES;
      assert RanOver(nodes, paths, i);
    }
  }

  lemma BuildsTrans(s: State, t: State, u: State, n: int)
    requires BuildsUpTo(s, t, n) && BuildsUpTo(t, u, n) && t.paths == s.paths
    ensures BuildsUpTo(s, u, n)
  {
  }

  lemma BuildsMore(s: State, t: State, n: int, k: int)
    requires BuildsUpTo(s, t, n) && n <= k
    ensures BuildsUpTo(s, t, k)
  {
  }

  lemma GrowsKeeps(s: State, t: State)
    requires Grows(s, t)
    ensures t.headers == s.headers && t.paths == s.paths && t.kinds == s.kinds && |t.nodes| == |s.nodes| &&
      |t.mem| == |s.mem|
    ensures s.root != -1 ==> t.root == s.root
  {
  }

  lemma EntryFacts(s: State, junk: bytes, i: int)
    requires ValidState(s, junk) && 0 <= i < |s.headers|
    ensures |s.headers| == |s.paths| == |s.kinds| == |s.nodes|
    ensures NameAt(s.mem, s.headers[i], s.paths[i]) && s.mem[BLOCK * s.headers[i] + KIND_AT] == s.kinds[i]
    ensures |s.paths[i]| < NAME_FIELD && |Dir(s.paths[i])| < NAME_FIELD && NUL !in Dir(s.paths[i])
  {
    PathBytes(s.mem, s.headers[i], s.paths[i]);
  }

  /** A path inherits from its name that it is short and has no NUL in it. */
  lemma PathBytes(m: seq<byte>, h: int, path: bytes)
    requires NameAt(m, h, path)
    ensures |path| < NAME_FIELD && NUL !in path && |Dir(path)| < NAME_FIELD && NUL !in Dir(path)
  {
    var s := Str(m, BLOCK * h);
    assert forall x :: x in path ==> x in s;
    assert forall k :: 0 <= k < |s| ==> s[k] != NUL;
    assert forall x :: x in Dir(path) ==> x in path;
  }

  method CutName(buf: array<byte>, a: int) returns (kiwi: int)
    requires 0 <= a < buf.Length && a + |Str(buf[..], a)| < buf.Length
    modifies buf
    ensures buf[..] == TrimMem(old(buf[..]), a) && kiwi == StripAt(old(buf[..]), a)
  {
    hide Str;
    ghost var m := buf[..];
    StrHead(m, a);
    StripPointer(m, a);
    kiwi := a;
    if buf[kiwi] == DOT && buf[kiwi + 1] == SLASH {
      kiwi := kiwi + 1;
    }
    if buf[kiwi] == SLASH {
      kiwi := kiwi + 1;
    }
    StrHead(m, kiwi);
    var length := StrLen(buf, kiwi);
    if buf[kiwi] != NUL && buf[kiwi + length - 1] == SLASH {
      buf[kiwi + length - 1] := NUL;
      assert buf[..] == m[kiwi + length - 1 := NUL];
    }
  }

  /** Afterwards the stripped name is the path, and every other name, path and type is as it was. */
  lemma TrimEffect(m: seq<byte>, headers: seq<int>, paths: seq<bytes>, kinds: seq<byte>, i: int)
    requires NamesAt(m, headers, paths) && KindsAt(m, headers, kinds) && 0 <= i < |headers|
    ensures NameAt(m, headers[i], paths[i])
    ensures var a := BLOCK * headers[i];
      var r, k := TrimMem(m, a), StripAt(m, a);
      && NamesAt(r, headers, paths) && KindsAt(r, headers, kinds) && OnlyNames(m, r, headers)
      && k <= |r| && Str(r, k) == paths[i] && |paths[i]| < NAME_FIELD
  {
    hide Str, Strip, StripAt, NamesAt, KindsAt, OnlyNames;
    NameHere(m, headers, paths, i);
    var a := BLOCK * headers[i];
    StripPointer(m, a);
    var k := StripAt(m, a);
    var s := Str(m, k);
    assert s != [] ==> s[|s| - 1] == m[k + (|s| - 1)];
    if EndsInSlash(s) {
      TrimInPlace(m, headers, paths, i);
      StrCut(m, k, |s| - 1);
      KindsSurvive(m, headers, paths, kinds, i, k + |s| - 1);
    } else {
      OnlyNamesSame(m, headers);
    }
  }

  lemma NameHere(m: seq<byte>, headers: seq<int>, paths: seq<bytes>, i: int)
    requires NamesAt(m, headers, paths) && 0 <= i < |headers|
    ensures |headers| == |paths| && NameAt(m, headers[i], paths[i])
  {
  }

  lemma KindsSurvive(m: seq<byte>, headers: seq<int>, paths: seq<bytes>, kinds: seq<byte>, i: int, x: int)
    requires NamesAt(m, headers, paths) && KindsAt(m, headers, kinds) && 0 <= i < |headers|
    requires BLOCK * headers[i] <= x < BLOCK * headers[i] + NAME_FIELD && x < |m|
    ensures KindsAt(m[x := NUL], headers, kinds)
  {
    hide Str, Normal;
    forall j | 0 <= j < |headers| ensures m[x := NUL][BLOCK * headers[j] + KIND_AT] == m[BLOCK * headers[j] + KIND_AT] {
      assert j == i || headers[j] < headers[i] || headers[i] < headers[j];
    }
  }

  lemma {:induction false} ChildrenPrefix(t: seq<VNode>, d: int, n: int, k: int)
    requires 0 <= n <= k <= |t|
    ensures Children(t, d, n) <= Children(t, d, k)
    decreases k
  {
    if n < k {
      ChildrenPrefix(t, d, n, k - 1);
    }
  }

  lemma NoChildrenYet(t: seq<VNode>, d: int)
    ensures Children(t, d, 0) == []
  {
  }

  lemma NextChild(t: seq<VNode>, d: int, r: int)
    requires 0 <= r < |t|
    ensures |Children(t, d, r + 1)| == |Children(t, d, r)| + (if t[r].parent == d then 1 else 0)
    ensures t[r].parent == d ==>
      |Children(t, d, r)| < |Children(t, d, |t|)| && Children(t, d, |t|)[|Children(t, d, r)|] == r
  {
    ChildrenPrefix(t, d, r + 1, |t|);
    if t[r].parent == d {
      assert Children(t, d, r + 1)[|Children(t, d, r)|] == r;
    }
  }

  lemma SliceNone(data: bytes, offt: int)
    requires 0 <= offt
    ensures Slice(data, offt, 0) == []
  {
  }

  lemma SliceStep(data: bytes, offt: int, n: int)
    requires 0 <= offt && 0 <= n && offt + n < |data|
    ensures Slice(data, offt, n + 1) == Slice(data, offt, n) + [data[offt + n]]
  {
  }

  lemma SliceRest(data: bytes, offt: int, n: int, len: int)
    requires 0 <= offt && 0 <= n <= len && offt + n >= |data|
    ensures Slice(data, offt, n) == Slice(data, offt, len)
  {
  }

  /** The bytes from offt on, at most len of them. */
  function Slice(data: bytes, offt: int, len: int): (r: bytes)
    requires 0 <= offt && 0 <= len
  {
    if offt >= |data| then [] else if offt + len >= |data| then data[offt..] else data[offt..offt + len]
  }

  /** The first number that is negative as a signed 32-bit one. */
  const SIGN: int := 0x8000_0000

  function Signed(n: int): int {
    if n < SIGN then n else n - 0x1_0000_0000
  }

  /** What the reading loop gets out of a file. */
  function Readable(data: bytes, chunk: int): (r: bytes) {
    if chunk < 0x8000_0000 || |data| < 0x8000_0000 then data else []
  }

  // ----- Mounting

  function PathsOf(es: seq<Entry>): (r: seq<bytes>)
    ensures |r| == |es|
  {
    seq(|es|, i requires 0 <= i < |es| => Normal(es[i].name))
  }

  function KindsOf(es: seq<Entry>): (r: seq<byte>)
    ensures |r| == |es|
  {
    seq(|es|, i requires 0 <= i < |es| => es[i].kind)
  }

  function SomeAll(t: seq<VNode>): (r: seq<Option<VNode>>)
    ensures |r| == |t| && forall i :: 0 <= i < |t| ==> r[i] == Some(t[i])
  {
    seq(|t|, i requires 0 <= i < |t| => Some(t[i]))
  }

  /** No entry's name ends in two slashes. */
  predicate OneTrailingSlash(es: seq<Entry>) {
    forall i :: 0 <= i < |es| ==> !EndsInSlash(Normal(es[i].name))
  }

  lemma FreshName(m: seq<byte>, bx: int, e: Entry)
    requires EntryAt(m, bx, e) && !EndsInSlash(Normal(e.name))
    ensures NameAt(m, bx, Normal(e.name)) && m[BLOCK * bx + KIND_AT] == e.kind
  {
  }

  lemma FreshState(m: seq<byte>, es: seq<Entry>, junk: bytes)
    requires Layout(m, 0, es) && OneTrailingSlash(es)
    ensures ValidState(State(m, Starts(0, es), seq(|es|, i => None), -1, PathsOf(es), KindsOf(es)), junk)
  {
    hide Layout, EntryAt, Starts, Normal, NameAt;
    var headers := Starts(0, es);
    forall i | 0 <= i < |es|
      ensures NameAt(m, headers[i], PathsOf(es)[i])
      ensures 0 <= headers[i] && BLOCK * headers[i] + BLOCK <= |m| && m[BLOCK * headers[i] + KIND_AT] == KindsOf(es)[i]
    {
      LayoutEntry(m, 0, es, i);
      FreshName(m, headers[i], es[i]);
      NameInside(m, headers[i], PathsOf(es)[i]);
    }
    forall i, j | 0 <= i < j < |es| ensures headers[i] < headers[j] {
      StartsAscend(m, 0, es, i, j);
      BlocksPositive(|es[i].data|);
    }
  }

  lemma NameInside(m: seq<byte>, h: int, path: bytes)
    requires NameAt(m, h, path)
    ensures 0 <= h && BLOCK * h + BLOCK <= |m|
  {
  }

  /** When all earlier entries have nodes and there is still no root, entry i may only be the first root. */
  lemma RootComesFirst(s: State, junk: bytes, i: int)
    requires ValidState(s, junk) && 0 <= i < |s.nodes| && forall j :: 0 <= j < i ==> s.nodes[j].Some?
    ensures s.paths[i] == [] && s.root == -1 ==> i == IndexOf(s.paths, [])
  {
    if s.paths[i] == [] && s.root == -1 {
      IndexOfUnique(s.paths, [], i);
    }
  }

  lemma NodesStay(s: State, t: State, i: int)
    requires Grows(s, t) && 0 <= i < |s.nodes| && t.nodes[i].Some? && forall j :: 0 <= j < i ==> s.nodes[j].Some?
    ensures forall j :: 0 <= j <= i ==> t.nodes[j].Some?
  {
  }

  /** Every entry's size field and data are where the header says. */
  ghost predicate DataIn(m: seq<byte>, headers: seq<int>, es: seq<Entry>) {
    |headers| == |es| && forall i :: 0 <= i < |es| ==> DataAt(m, headers[i], es[i].data)
  }

  predicate DataAt(m: seq<byte>, h: int, data: bytes) {
    0 <= h && BLOCK * h + BLOCK + |data| <= |m| && |Str(m, BLOCK * h + SIZE_AT)| < 12 &&
    Octal(Str(m, BLOCK * h + SIZE_AT)) == |data| && m[BLOCK * h + BLOCK..BLOCK * h + BLOCK + |data|] == data
  }

  lemma DataAtFirst(m: seq<byte>, bx: int, e: Entry)
    requires EntryAt(m, bx, e)
    ensures DataAt(m, bx, e.data)
  {
    hide Str, Octal;
    OctalExact(Str(m, BLOCK * bx + SIZE_AT));
  }

  lemma DataFrame(m: seq<byte>, r: seq<byte>, h: int, data: bytes)
    requires DataAt(m, h, data) && |r| == |m|
    requires forall x :: BLOCK * h + NAME_FIELD <= x < BLOCK * h + BLOCK + |data| ==> r[x] == m[x]
    ensures DataAt(r, h, data)
  {
    hide Str, Octal;
    StrFrame(m, r, BLOCK * h + SIZE_AT);
  }

  /** Trimming names touches no size field and no data. */
  lemma DataSurvives(m: seq<byte>, r: seq<byte>, es: seq<Entry>, i: int)
    requires Layout(m, 0, es) && OnlyNames(m, r, Starts(0, es)) && 0 <= i < |es|
    ensures DataAt(r, Starts(0, es)[i], es[i].data)
  {
    hide Layout, EntryAt, Starts, InName;
    var h := Starts(0, es)[i];
    LayoutEntry(m, 0, es, i);
    DataAtFirst(m, h, es[i]);
    forall x | BLOCK * h + NAME_FIELD <= x < BLOCK * h + BLOCK + |es[i].data| ensures r[x] == m[x] {
      OutsideNames(m, es, i, x);
    }
    DataFrame(m, r, h, es[i].data);
  }

  lemma OutsideNames(m: seq<byte>, es: seq<Entry>, i: int, x: int)
    requires Layout(m, 0, es) && 0 <= i < |es|
    requires BLOCK * Starts(0, es)[i] + NAME_FIELD <= x < BLOCK * Starts(0, es)[i] + BLOCK + |es[i].data|
    ensures !InName(Starts(0, es), x)
  {
    hide Layout, Starts;
    var headers := Starts(0, es);
    forall j | 0 <= j < |es| ensures !(BLOCK * headers[j] <= x < BLOCK * headers[j] + NAME_FIELD) {
      if j < i {
        StartsAscend(m, 0, es, j, i);
      } else if i < j {
        StartsAscend(m, 0, es, i, j);
      }
    }
  }

  lemma AllBuilt(s: State, t: State, junk: bytes, es: seq<Entry>)
    requires Layout(s.mem, 0, es) && s.headers == Starts(0, es) && s.paths == PathsOf(es) && s.kinds == KindsOf(es)
    requires Grows(s, t) && ValidState(t, junk) && forall j :: 0 <= j < |t.nodes| ==> t.nodes[j].Some?
    ensures |t.headers| == |es| && DataIn(t.mem, t.headers, es) && t.root == IndexOf(PathsOf(es), [])
    ensures t.nodes == SomeAll(Tree(PathsOf(es), KindsOf(es), junk))
    ensures OnlyNames(s.mem, t.mem, t.headers)
  {
    hide Layout, NamesAt, KindsAt, DataAt, Starts, IndexOf, NodeOf;
    forall i | 0 <= i < |es| ensures DataAt(t.mem, t.headers[i], es[i].data) {
      DataSurvives(s.mem, t.mem, es, i);
    }
    var k := IndexOf(PathsOf(es), []);
    assert k >= 0 ==> t.nodes[k].Some?;
  }
}
