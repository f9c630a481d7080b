/** fs_resolve: from a path such as "VOL:/dir/file" to a node, through strsep on a private copy. */
module PathResolve {
  import opened Bytes
  import opened CStrings
  import opened TarNames
  import opened TarTree
  import opened TarFormat
  import opened TarVolume
  import opened PathWalk
  import opened Vfs
  import opened VfsNode

  /** What a mounted archive offers: its nodes and the position of its root node, or -1. */
  datatype Mounted = Mounted(tree: seq<VNode>, root: int)

  datatype Resolved = Got(volume: int, node: int) | Nothing | Crash

  predicate RootInside(v: Volume<Mounted>) {
    -1 <= v.root.root < |v.root.tree|
  }

  /** Where a path leads, as a function of the mounted volumes. */
  function Resolve(vs: seq<Volume<Mounted>>, path: bytes): (r: Resolved)
    requires forall i :: 0 <= i < |vs| ==> RootInside(vs[i])
  {
    var k := FirstOf(path, [COLON]);
    if k == |path| then Nothing else
    var v := FindVolume(vs, path[..k]);
    if v < 0 || vs[v].root.root < 0 then Nothing else
    assert RootInside(vs[v]);
    ResolveIn(vs[v], v, path[k + 1..])
  }

  /** Where the part after the colon leads in volume v. */
  function ResolveIn(vol: Volume<Mounted>, v: int, rest: bytes): (r: Resolved)
    requires RootInside(vol) && vol.root.root >= 0
  {
    if rest == [] || rest[0] != SLASH || |rest| == 1 then Got(v, vol.root.root) else
    match Follow(vol.root.tree, vol.root.root, rest[1..])
    case Node(i) => Got(v, i)
    case Null => Nothing
    case Fault => Crash
  }

  /** fs_follow_path on the buffer that strsep cuts up. */
  method FollowPath(t: seq<VNode>, d: int, buf: array<byte>, start: int) returns (r: Outcome)
    requires 0 <= d < |t| && 0 <= start < buf.Length && start + |Str(buf[..], start)| < buf.Length
    modifies buf
    ensures r == Follow(t, d, old(Str(buf[..], start)))
    decreases buf.Length - start
  {
    hide Str, FirstOf, FindDir;
    ghost var p := Str(buf[..], start);
    var next := StrSep(buf, start, [SLASH]);
    var node := FsFindDir(t, d, Str(buf[..], start));
    if next == -1 {
      assert p[..|p|] == p;
      return if node < 0 then Null else Node(node);
    }
    if node < 0 {
      return Fault;
    }
    if !HasDirBit(t[node].flags) {
      return Null;
    }
    StrInside(buf[..], start, p, next);
    r := FollowPath(t, node, buf, next);
  }

  lemma StrInside(m: seq<byte>, start: int, p: bytes, next: int)
    requires 0 <= start < next < |m| && start + |p| < |m| && next <= start + |p|
    requires Str(m, next) == p[next - start..]
    ensures next + |Str(m, next)| < |m|
  {
  }

  /** fs_resolve, on a duplicate of the path. */
  method FsResolve(vs: seq<Volume<Mounted>>, path: bytes) returns (r: Resolved)
    requires forall i :: 0 <= i < |vs| ==> RootInside(vs[i])
    requires path != [] && NUL !in path
    ensures r == Resolve(vs, path)
  {
    hide Str, FirstOf, FindVolume, ResolveIn;
    var buf := new byte[|path| + 1](i requires 0 <= i <= |path| => if i < |path| then path[i] else NUL);
    StrIs(buf[..], 0, path);
    var next := StrSep(buf, 0, [COLON]);
    if next == -1 {
      return Nothing;
    }
    var v := FindVolume(vs, Str(buf[..], 0));
    if v < 0 || vs[v].root.root < 0 {
      return Nothing;
    }
    assert RootInside(vs[v]);
    StrInside(buf[..], 0, path, next);
    r := FsResolveIn(vs[v], v, buf, next);
  }

  /** The part of fs_resolve after the volume has been found. */
  method FsResolveIn(vol: Volume<Mounted>, v: int, buf: array<byte>, start: int) returns (r: Resolved)
    requires RootInside(vol) && vol.root.root >= 0
    requires 0 <= start < buf.Length && start + |Str(buf[..], start)| < buf.Length
    modifies buf
    ensures r == ResolveIn(vol, v, old(Str(buf[..], start)))
  {
    hide Str, Follow;
    StrHead(buf[..], start);
    if buf[start] != SLASH {
      return Got(v, vol.root.root);
    }
    StrSuffix(buf[..], start, 1);
    StrHead(buf[..], start + 1);
    if buf[start + 1] == NUL {
      return Got(v, vol.root.root);
    }
    var o := FollowPath(vol.root.tree, vol.root.root, buf, start + 1);
    match o
    case Node(i) => return Got(v, i);
    case Null => return Nothing;
    case Fault => return Crash;
  }

  // ----- From an archive to its files

  /** The volume made by mounting the entries under this name, when every name stays inside its node. */
  ghost function MountOf(name: bytes, ref: int, es: seq<Entry>, junk: bytes): (v: Volume<Mounted>)
    requires NodesFit(PathsOf(es))
    ensures RootInside(v)
  {
    Volume(name, ref, Mounted(Tree(PathsOf(es), KindsOf(es), junk), IndexOf(PathsOf(es), [])))
  }

  /** "VOL:/p" as bytes. */
  function PathIn(volume: bytes, p: bytes): bytes {
    volume + [COLON, SLASH] + p
  }

  lemma PathInParts(volume: bytes, p: bytes)
    requires COLON !in volume
    ensures FirstOf(PathIn(volume, p), [COLON]) == |volume| < |PathIn(volume, p)|
    ensures PathIn(volume, p)[..|volume|] == volume && PathIn(volume, p)[|volume| + 1..] == [SLASH] + p
  {
    var path := PathIn(volume, p);
    forall j | 0 <= j < |volume| ensures path[j] !in [COLON] {
      assert path[j] == volume[j];
    }
    FirstOfUnique(path, [COLON], |volume|);
  }

  /** The paths lead to volume v, which is a mounted archive of these entries. */
  ghost predicate MountedAt(vs: seq<Volume<Mounted>>, v: int, es: seq<Entry>, junk: bytes) {
    (forall i :: 0 <= i < |vs| ==> RootInside(vs[i])) &&
    NodesFit(PathsOf(es)) && WellFormed(PathsOf(es), KindsOf(es)) &&
    0 <= v < |vs| && COLON !in vs[v].name && FindVolume(vs, vs[v].name) == v &&
    vs[v] == MountOf(vs[v].name, vs[v].ref, es, junk)
  }

  /** What "VOL:/p" should lead to: the entry with path p when there is one; a crash exactly when p starts with a slash
      or goes through a directory that is not there; and NULL in every other case. */
  ghost predicate Meets(r: Resolved, v: int, paths: seq<bytes>, kinds: seq<byte>, p: bytes)
    requires |paths| == |kinds|
  {
    (Listed(paths, p) ==> r == Got(v, IndexOf(paths, p))) && (!Listed(paths, p) ==> !r.Got?) &&
    (r == Crash <==> p != [] && (p[0] == SLASH || Broken(paths, kinds, [], p)))
  }

  /** In a well-formed archive "VOL:/p" leads where it should if the components of p are short or if all nodes keep
      their names; and whatever their lengths, a listed path leads to its entry exactly when all entries on the way keep
      theirs. */
  lemma MountThenResolve(vs: seq<Volume<Mounted>>, v: int, es: seq<Entry>, junk: bytes, p: bytes)
    requires MountedAt(vs, v, es, junk)
    ensures var r, paths, kinds := Resolve(vs, PathIn(vs[v].name, p)), PathsOf(es), KindsOf(es);
      && (ShortParts(p) || AllPlain(paths, kinds) ==> Meets(r, v, paths, kinds, p))
      && (Listed(paths, p) ==> (r == Got(v, IndexOf(paths, p)) <==> p == [] || Kept(paths, kinds, [], p)))
  {
    hide WellFormed, Broken, Tree, PathsOf, KindsOf, IndexOf, Follow, FirstOf, FindVolume, Kept, AllPlain, ShortParts,
      NodesFit;
    PathInParts(vs[v].name, p);
    var rest := [SLASH] + p;
    assert rest[1..] == p;
    RootIsDir(es);
    if p != [] {
      RootWalk(PathsOf(es), KindsOf(es), junk, p);
      RootReaches(PathsOf(es), KindsOf(es), junk, p);
    }
  }

  /** Every path leads where it should if and only if every node keeps its entry's name. */
  lemma ResolutionExactIff(vs: seq<Volume<Mounted>>, v: int, es: seq<Entry>, junk: bytes)
    requires MountedAt(vs, v, es, junk)
    ensures var paths, kinds := PathsOf(es), KindsOf(es);
      (forall p :: Meets(Resolve(vs, PathIn(vs[v].name, p)), v, paths, kinds, p)) <==> AllPlain(paths, kinds)
  {
    var paths, kinds := PathsOf(es), KindsOf(es);
    forall i | 0 <= i < |paths| && Meets(Resolve(vs, PathIn(vs[v].name, paths[i])), v, paths, kinds, paths[i])
      ensures Plain(paths, kinds, i)
    {
      ResolvedIsPlain(vs, v, es, junk, i);
    }
    hide MountedAt, Meets, Resolve, Plain, NodesFit;
    forall p | AllPlain(paths, kinds) ensures Meets(Resolve(vs, PathIn(vs[v].name, p)), v, paths, kinds, p) {
      MountThenResolve(vs, v, es, junk, p);
    }
  }

  lemma ResolvedIsPlain(vs: seq<Volume<Mounted>>, v: int, es: seq<Entry>, junk: bytes, i: int)
    requires MountedAt(vs, v, es, junk) && 0 <= i < |es|
    requires Meets(Resolve(vs, PathIn(vs[v].name, PathsOf(es)[i])), v, PathsOf(es), KindsOf(es), PathsOf(es)[i])
    ensures Plain(PathsOf(es), KindsOf(es), i)
  {
    var paths, kinds := PathsOf(es), KindsOf(es);
    var p := paths[i];
    assert IsClean(p);
    hide WellFormed, Resolve, IndexOf, FindVolume, Broken, Kept, NodesFit, MountOf, PathIn;
    ListedIndex(paths, kinds, i);
    MountThenResolve(vs, v, es, junk, p);
    if p != [] {
      KeptLast(paths, kinds, [], p);
      assert Join([], p) == p;
    } else {
      EmptyBase(p);
    }
  }

  lemma RootIsDir(es: seq<Entry>)
    requires WellFormed(PathsOf(es), KindsOf(es))
    ensures Listed(PathsOf(es), [])
  {
  }

  /** The walk from the root of a well-formed archive. */
  lemma RootWalk(paths: seq<bytes>, kinds: seq<byte>, junk: bytes, p: bytes)
    requires WellFormed(paths, kinds) && p != []
    ensures Listed(paths, [])
    ensures var r := Follow(Tree(paths, kinds, junk), IndexOf(paths, []), p);
      ShortParts(p) || AllPlain(paths, kinds) ==>
      && (Listed(paths, p) ==> r == Node(IndexOf(paths, p)))
      && (r.Node? ==> Listed(paths, p))
      && (r == Fault <==> p[0] == SLASH || Broken(paths, kinds, [], p))
  {
    hide Broken, Tree, FirstOf, AllPlain;
    var d := IndexOf(paths, []);
    if p[0] != SLASH {
      if ShortParts(p) || AllPlain(paths, kinds) {
        FollowExact(paths, kinds, junk, d, p);
      }
      assert Join([], p) == p;
    } else {
      FirstOfUnique(p, [SLASH], 0);
      NoEmptyChild(paths, kinds, junk, d);
      assert p[..0] == [];
      var i := IndexOf(paths, p);
      assert i >= 0 ==> !IsClean(p);
    }
  }

  lemma RootReaches(paths: seq<bytes>, kinds: seq<byte>, junk: bytes, p: bytes)
    requires WellFormed(paths, kinds) && p != []
    ensures Listed(paths, [])
    ensures Listed(paths, p) ==>
      (Follow(Tree(paths, kinds, junk), IndexOf(paths, []), p) == Node(IndexOf(paths, p)) <==>
        Kept(paths, kinds, [], p))
  {
    var i := IndexOf(paths, p);
    assert i >= 0 ==> IsClean(paths[i]);
    assert ListedDir(paths, kinds, []);
    hide WellFormed, Tree, IndexOf, Follow, Kept;
    if i >= 0 {
      assert Join([], p) == p;
      FollowReaches(paths, kinds, junk, IndexOf(paths, []), p, i);
    }
  }

  /** A path without the slash after the colon is called an error by the comment in the source, but fs_resolve answers
      it with the volume's root; it answers NULL exactly when the volume is unknown or has no root. */
  lemma MissingSlashGivesRoot(vs: seq<Volume<Mounted>>, volume: bytes, x: bytes)
    requires forall i :: 0 <= i < |vs| ==> RootInside(vs[i])
    requires COLON !in volume && (x == [] || x[0] != SLASH)
    ensures var r, v := Resolve(vs, volume + [COLON] + x), FindVolume(vs, volume);
      if v < 0 || vs[v].root.root < 0 then r == Nothing else r == Got(v, vs[v].root.root)
  {
    hide FindVolume, FirstOf;
    var path := volume + [COLON] + x;
    forall j | 0 <= j < |volume| ensures path[j] !in [COLON] {
      assert path[j] == volume[j];
    }
    FirstOfUnique(path, [COLON], |volume|);
    assert path[..|volume|] == volume && path[|volume| + 1..] == x;
  }

  /** Without a colon there is no volume, and the answer is NULL whatever is mounted. */
  lemma NoColonNoNode(vs: seq<Volume<Mounted>>, path: bytes)
    requires (forall i :: 0 <= i < |vs| ==> RootInside(vs[i])) && 58 !in path
    ensures Resolve(vs, path) == Nothing
  {
    hide FirstOf;
    FirstOfUnique(path, [COLON], |path|);
  }

  function Values(nodes: seq<Option<VNode>>): (t: seq<VNode>)
    requires forall i :: 0 <= i < |nodes| ==> nodes[i].Some?
    ensures |t| == |nodes| && forall i :: 0 <= i < |t| ==> t[i] == nodes[i].value
  {
    seq(|nodes|, i requires 0 <= i < |nodes| => nodes[i].value)
  }

  /** What the round trip ends with: the bytes of a file, no file to read, or one of the two faults. */
  datatype ReadBack = Contents(data: bytes) | NoFile | NullDereference | OverranNode

  /** What reading "VOL:/p" should give: only regular files are opened and read. */
  ghost function Expected(es: seq<Entry>, p: bytes, chunk: int): (r: ReadBack) {
    var paths, kinds := PathsOf(es), KindsOf(es);
    if p != [] && (p[0] == SLASH || Broken(paths, kinds, [], p)) then NullDereference
    else if Listed(paths, p) && kinds[IndexOf(paths, p)] == KIND_FILE
    then Contents(Readable(es[IndexOf(paths, p)].data, chunk))
    else NoFile
  }

  /** The volume just added is the one its name finds. */
  lemma NewestFound(vs: seq<Volume<Mounted>>, v: Volume<Mounted>)
    requires FindVolume(vs, v.name) < 0
    ensures FindVolume(vs + [v], v.name) == |vs|
  {
    FindVolumeUnique(vs + [v], v.name, |vs|);
  }

  /** A path into volume v gives a node of volume v, if any. */
  lemma StaysInVolume(vs: seq<Volume<Mounted>>, v: int, es: seq<Entry>, junk: bytes, p: bytes)
    requires MountedAt(vs, v, es, junk)
    ensures var r := Resolve(vs, PathIn(vs[v].name, p)); r.Got? ==> r.volume == v && 0 <= r.node < |es|
  {
    hide WellFormed, FirstOf, FindVolume, Follow, NodesFit;
    PathInParts(vs[v].name, p);
  }

  /** Mounting adds the volume that the entries call for. */
  lemma NewestMounted(vs: seq<Volume<Mounted>>, v: Volume<Mounted>, es: seq<Entry>, junk: bytes)
    requires (forall i :: 0 <= i < |vs| ==> RootInside(vs[i])) && FindVolume(vs, v.name) < 0 && COLON !in v.name
    requires NodesFit(PathsOf(es)) && WellFormed(PathsOf(es), KindsOf(es)) && v == MountOf(v.name, v.ref, es, junk)
    ensures MountedAt(vs + [v], |vs|, es, junk)
  {
    hide WellFormed, NodesFit, FindVolume, MountOf;
    NewestFound(vs, v);
  }

  /** fs_open and fs_read refuse every node that is no regular file. */
  method ReadNode(archive: Archive, i: int, chunk: word, ghost es: seq<Entry>) returns (r: ReadBack)
    requires archive.Mounted(es) && 0 <= i < |es| && chunk > 0 && |es[i].data| < 0x1_0000_0000
    ensures r == if es[i].kind == KIND_FILE then Contents(Readable(es[i].data, chunk)) else NoFile
  {
    hide DataIn, IndexOf;
    assert archive.nodes[i] == Some(NodeOf(PathsOf(es), KindsOf(es), archive.junk, i));
    if archive.nodes[i].value.flags != VN_FREGFILE {
      return NoFile;
    }
    var data := archive.ReadAll(i, chunk, es);
    return Contents(data);
  }

  /** The round trip: mount an archive beside other volumes, resolve "VOL:/p", open the node and read it piece by piece.
      The bytes that come out are the bytes that went into the regular file with path p. */
  method MountAndRead(reg: Registry<Mounted>, buf: array<byte>, junk: bytes, name: bytes, p: bytes, chunk: word,
                      room: bool, kept: Appends, ghost es: seq<Entry>)
    returns (status: int, r: ReadBack)
    requires reg.Valid() && forall i :: 0 <= i < |reg.volumes| ==> RootInside(reg.volumes[i])
    requires Layout(buf[..], 0, es) && OneTrailingSlash(es) && WellFormed(PathsOf(es), KindsOf(es))
    requires GoodName(name) && COLON !in name && NUL !in p && chunk > 0
    modifies reg, buf
    ensures status == if Key(name) !in old(Table(reg.volumes)) && TARFS in reg.drivers && room then 0 else -1
    ensures status == 0 && !NodesFit(PathsOf(es)) ==> r == OverranNode
    ensures var exact := ShortParts(p) || AllPlain(PathsOf(es), KindsOf(es));
      status == 0 && NodesFit(PathsOf(es)) && kept.volume && exact ==> r == Expected(es, p, chunk)
    ensures status == 0 && NodesFit(PathsOf(es)) && !kept.volume ==> r == NoFile
    ensures r.Contents? ==>
      exists i :: 0 <= i < |es| && es[i].kind == KIND_FILE && r.data == Readable(es[i].data, chunk)
    ensures status == 0 && NodesFit(PathsOf(es)) && kept.volume ==>
      var volume := MountOf(name, old(reg.nextRef), es, junk);
      reg.Valid() && Table(reg.volumes) == old(Table(reg.volumes))[Key(name) := volume]
  {
    hide Layout, WellFormed, Tree, PathsOf, KindsOf, IndexOf, Resolve, FindVolume, NodesFit, AllPlain, ShortParts,
      Table, Key, Sound, Expected, GoodName, OneTrailingSlash, PathIn, MountedAt, Meets;
    PathInFine(name, p);
    ghost var m := buf[..];
    DataShort(m, es);
    RefusalIsTable(reg.Now(), name);
    var ok := reg.MayMount(TARFS, name, room);
    if !ok {
      return -1, NoFile;
    }
    var archive := new Archive(buf, junk, es);
    if archive.overrun {
      return 0, OverranNode;
    }
    ghost var before := reg.volumes;
    var root := Mounted(Values(archive.nodes), archive.root);
    assert root.tree == Tree(PathsOf(es), KindsOf(es), junk);
    ghost var volume := Volume(name, reg.nextRef, root);
    status := reg.Mount(TARFS, name, room, Gives(root), kept);
    if kept.volume {
      NewestMounted(before, volume, es, junk);
      assert reg.volumes == before + [volume];
      MountThenResolve(reg.volumes, |before|, es, junk, p);
      StaysInVolume(reg.volumes, |before|, es, junk, p);
    } else {
      assert reg.volumes == before + [] == before;
      UnknownVolume(before, name, p);
    }
    var found := FsResolve(reg.volumes, PathIn(name, p));
    OutcomeExpected(found, |before|, es, p, chunk);
    match found
    case Got(_, i) =>
      r := ReadNode(archive, i, chunk, es);
    case Nothing =>
      r := NoFile;
    case Crash =>
      r := NullDereference;
  }

  lemma UnknownVolume(vs: seq<Volume<Mounted>>, name: bytes, p: bytes)
    requires (forall i :: 0 <= i < |vs| ==> RootInside(vs[i])) && FindVolume(vs, name) < 0 && COLON !in name
    ensures Resolve(vs, PathIn(name, p)) == Nothing
  {
    hide FindVolume, FirstOf, PathIn;
    PathInParts(name, p);
  }

  lemma PathInFine(name: bytes, p: bytes)
    requires GoodName(name) && NUL !in p
    ensures NUL !in PathIn(name, p) && PathIn(name, p) != [] && NUL !in name
  {
  }

  lemma DataShort(m: seq<byte>, es: seq<Entry>)
    requires Layout(m, 0, es)
    ensures forall i :: 0 <= i < |es| ==> |es[i].data| < 0x1_0000_0000
  {
    forall i | 0 <= i < |es| ensures |es[i].data| < 0x1_0000_0000 {
      LayoutEntry(m, 0, es, i);
    }
  }

  lemma RefusalIsTable(s: Lists<Mounted>, name: bytes)
    requires Sound(s)
    ensures FindVolume(s.volumes, name) < 0 <==> Key(name) !in Table(s.volumes)
  {
    LookupIsTable(s.volumes, name);
  }

  /** What a resolution that went as it should gives to read. */
  lemma OutcomeExpected(found: Resolved, v: int, es: seq<Entry>, p: bytes, chunk: int)
    requires found.Got? ==> 0 <= found.node < |es|
    ensures Meets(found, v, PathsOf(es), KindsOf(es), p) ==>
      Expected(es, p, chunk) == match found
        case Got(_, i) => if es[i].kind == KIND_FILE then Contents(Readable(es[i].data, chunk)) else NoFile
        case Nothing => NoFile
        case Crash => NullDereference
  {
    hide IndexOf, Broken;
  }

  // ----- Inputs on which the walk goes wrong

  /** "./", the root directory of an archive. */
  const ROOT_ENTRY: Entry := Entry([DOT, SLASH], KIND_DIR, [])

  /** An archive that has a root directory only. */
  lemma BareArchive(name: bytes, junk: bytes)
    requires COLON !in name
    ensures PathsOf([ROOT_ENTRY]) == [[]] && KindsOf([ROOT_ENTRY]) == [KIND_DIR] && NodesFit([[]])
    ensures MountedAt([MountOf(name, 1, [ROOT_ENTRY], junk)], 0, [ROOT_ENTRY], junk)
  {
    var es := [ROOT_ENTRY];
    assert Normal(ROOT_ENTRY.name) == [];
    assert PathsOf(es) == [[]] && KindsOf(es) == [KIND_DIR];
    EmptyBase([]);
    assert NodesFit([[]]);
    assert WellFormed([[]], [KIND_DIR]);
    FindVolumeUnique([MountOf(name, 1, es, junk)], name, 0);
  }

  /** "VOL:/a/b" dereferences a NULL pointer on a volume that has no "a". */
  lemma MissingDirectoryCrashes(name: bytes, junk: bytes)
    requires COLON !in name
    ensures NodesFit(PathsOf([ROOT_ENTRY]))
    ensures Resolve([MountOf(name, 1, [ROOT_ENTRY], junk)], PathIn(name, [97, SLASH, 98])) == Crash
  {
    hide MountedAt, Resolve;
    BareArchive(name, junk);
    var p: bytes := [97, SLASH, 98];
    FirstOfUnique(p, [SLASH], 1);
    FirstOfUnique(p[2..], [SLASH], 1);
    assert p[1 + 1..] == p[2..] && ShortParts(p[2..]) && ShortParts(p);
    var paths, kinds := PathsOf([ROOT_ENTRY]), KindsOf([ROOT_ENTRY]);
    IndexOfUnique(paths, [97], -1);
    IndexOfUnique(paths, [], 0);
    assert p[..1] == [97];
    LastSlashUnique([97], -1);
    assert MissingAt(paths, kinds, [], p, 1);
    MountThenResolve([MountOf(name, 1, [ROOT_ENTRY], junk)], 0, [ROOT_ENTRY], junk, p);
  }

  /** A path of one component is looked up in the root directory. */
  lemma OneComponent(vs: seq<Volume<Mounted>>, v: int, es: seq<Entry>, junk: bytes, c: bytes)
    requires MountedAt(vs, v, es, junk) && c != [] && SLASH !in c
    ensures Listed(PathsOf(es), [])
    ensures Resolve(vs, PathIn(vs[v].name, c)) ==
      (var i := FindDir(Tree(PathsOf(es), KindsOf(es), junk), IndexOf(PathsOf(es), []), c);
       if i < 0 then Nothing else Got(v, i))
  {
    assert ListedDir(PathsOf(es), KindsOf(es), []);
    hide WellFormed, Tree, PathsOf, KindsOf, IndexOf, Follow, FirstOf, FindDir, FindVolume, NodesFit;
    PathInParts(vs[v].name, c);
    var rest := [SLASH] + c;
    assert rest[1..] == c;
    FirstOfUnique(c, [SLASH], |c|);
    FollowLast(vs[v].root.tree, vs[v].root.root, c);
    DirNode(PathsOf(es), KindsOf(es), junk, IndexOf(PathsOf(es), []));
  }

  /** The name of a regular file that its node cannot hold, although it stays inside the node's memory. */
  predicate LongName(b: bytes) {
    VN_NAME <= |b| < NODE_BYTES && SLASH !in b && b != Alias(b)
  }

  /** What the node answers to instead: the first 64 bytes and the byte of its flags. */
  function Alias(b: bytes): bytes
    requires VN_NAME <= |b|
  {
    b[..VN_NAME] + [VN_FREGFILE]
  }

  /** An archive with a root directory and one regular file. */
  function OneFile(b: bytes): seq<Entry> {
    [ROOT_ENTRY, Entry(b, KIND_FILE, [])]
  }

  lemma OneFilePaths(b: bytes)
    requires b != [] && SLASH !in b
    ensures PathsOf(OneFile(b)) == [[], b] && KindsOf(OneFile(b)) == [KIND_DIR, KIND_FILE]
  {
    assert Normal(ROOT_ENTRY.name) == [] && Normal(b) == b;
  }

  lemma OneFileWellFormed(b: bytes)
    requires b != [] && SLASH !in b && |b| < NODE_BYTES
    ensures Dir(b) == [] && Base(b) == b && NodesFit([[], b]) && WellFormed([[], b], [KIND_DIR, KIND_FILE])
  {
    hide IndexOf, LastSlash, IsClean, Dir, Base;
    PlainName(b);
    EmptyBase([]);
    IndexOfUnique([[], b], [], 0);
  }

  lemma PlainName(b: bytes)
    requires b != [] && SLASH !in b
    ensures Dir(b) == [] && Base(b) == b && IsClean(b) && IsClean([])
  {
    hide LastSlash;
    LastSlashUnique(b, -1);
  }

  lemma OneFileMounted(name: bytes, junk: bytes, b: bytes)
    requires COLON !in name && b != [] && SLASH !in b && |b| < NODE_BYTES
    ensures NodesFit(PathsOf(OneFile(b))) && MountedAt([MountOf(name, 1, OneFile(b), junk)], 0, OneFile(b), junk)
  {
    hide WellFormed, FindVolume, PathsOf, KindsOf, NodesFit, IndexOf;
    OneFilePaths(b);
    OneFileWellFormed(b);
    FindVolumeUnique([MountOf(name, 1, OneFile(b), junk)], name, 0);
  }

  /** Every regular file with a name of 64 bytes or more is listed but not found, and an unlisted path finds it. */
  lemma LongNameIsLost(name: bytes, junk: bytes, b: bytes)
    requires COLON !in name && LongName(b)
    ensures NodesFit(PathsOf(OneFile(b))) && Listed(PathsOf(OneFile(b)), b) && !Listed(PathsOf(OneFile(b)), Alias(b))
    ensures var vs := [MountOf(name, 1, OneFile(b), junk)];
      Resolve(vs, PathIn(name, b)) == Nothing && Resolve(vs, PathIn(name, Alias(b))) == Got(0, 1)
  {
    hide MountedAt, Resolve, WellFormed, Dir, Base, PathsOf, KindsOf, FindDir, IndexOf, NodesFit, Tree, NodeOf;
    OneFilePaths(b);
    OneFileWellFormed(b);
    OneFileMounted(name, junk, b);
    IndexOfUnique([[], b], [], 0);
    IndexOfUnique([[], b], b, 1);
    IndexOfUnique([[], b], Alias(b), -1);
    LongSearch(junk, b);
    OneComponent([MountOf(name, 1, OneFile(b), junk)], 0, OneFile(b), junk, b);
    OneComponent([MountOf(name, 1, OneFile(b), junk)], 0, OneFile(b), junk, Alias(b));
  }

  lemma LongSearch(junk: bytes, b: bytes)
    requires LongName(b)
    ensures var t := Tree([[], b], [KIND_DIR, KIND_FILE], junk); FindDir(t, 0, b) == -1 && FindDir(t, 0, Alias(b)) == 1
  {
    hide WellFormed, Dir, Base, FindDir, IndexOf, Tree, NodeOf;
    var paths, kinds := [[], b], [KIND_DIR, KIND_FILE];
    var t := Tree(paths, kinds, junk);
    OneFileWellFormed(b);
    ChildIff(paths, kinds, junk, 0, b, 0);
    ChildIff(paths, kinds, junk, 0, b, 1);
    ChildIff(paths, kinds, junk, 0, Alias(b), 0);
    ChildIff(paths, kinds, junk, 0, Alias(b), 1);
    FindDirUnique(t, 0, b, -1);
    FindDirUnique(t, 0, Alias(b), 1);
  }

  /** Sixty-four times the letter a. */
  lemma SixtyFourBytes(name: bytes, junk: bytes)
    requires COLON !in name
    ensures var b: bytes := seq(VN_NAME, i => 97);
      NodesFit(PathsOf(OneFile(b))) && Resolve([MountOf(name, 1, OneFile(b), junk)], PathIn(name, b)) == Nothing
  {
    hide Resolve, PathIn, NodesFit, PathsOf;
    LongNameIsLost(name, junk, seq(VN_NAME, i => 97));
  }
}
