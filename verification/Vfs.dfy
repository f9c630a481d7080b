/** The mounted volumes and the root file system that lists them. */
module Vfs {
  import opened Bytes
  import opened CStrings
  import opened Sequences
  import opened VfsNode

  /** Volume names are compared with this limit, and so on one byte more. */
  const VOLUME_LIMIT: int := 16

  /** "rootfs", "tarfs" and "ROOT". */
  const ROOTFS: bytes := [114, 111, 111, 116, 102, 115]
  const TARFS: bytes := [116, 97, 114, 102, 115]
  const ROOT: bytes := [82, 79, 79, 84]

  /** A volume; ref stands for its address. */
  datatype Volume<R> = Volume(name: bytes, ref: int, root: R)

  /** A node of the root file system: a copy of a volume's name and a pointer to the volume. */
  datatype RootNode = RootNode(name: bytes, payload: int)

  function Key(name: bytes): bytes {
    Take(name, VOLUME_LIMIT + 1)
  }

  /** find_mountpoint_by_name: the first volume whose name compares equal, or -1. */
  function FindVolume<R>(vs: seq<Volume<R>>, name: bytes): (i: int)
    ensures -1 <= i < |vs|
    ensures i >= 0 ==> SameName(vs[i].name, name, VOLUME_LIMIT)
    ensures forall j :: 0 <= j < |vs| && (i < 0 || j < i) ==> !SameName(vs[j].name, name, VOLUME_LIMIT)
  {
    if vs == [] then -1
    else if SameName(vs[0].name, name, VOLUME_LIMIT) then 0
    else var i := FindVolume(vs[1..], name); if i < 0 then -1 else i + 1
  }

  lemma FindVolumeUnique<R>(vs: seq<Volume<R>>, name: bytes, i: int)
    requires -1 <= i < |vs| && (i >= 0 ==> SameName(vs[i].name, name, VOLUME_LIMIT))
    requires forall j :: 0 <= j < |vs| && (i < 0 || j < i) ==> !SameName(vs[j].name, name, VOLUME_LIMIT)
    ensures FindVolume(vs, name) == i
  {
  }

  predicate GoodName(name: bytes) {
    0 < |name| < VN_NAME && NUL !in name
  }

  /** Volumes carry good names of which no two compare equal, at distinct addresses. */
  ghost predicate Distinct<R(!new)>(vs: seq<Volume<R>>) {
    (forall i :: 0 <= i < |vs| ==> GoodName(vs[i].name)) &&
    (forall i, j :: 0 <= i < j < |vs| ==> Key(vs[i].name) != Key(vs[j].name) && vs[i].ref != vs[j].ref)
  }

  /** The i-th node names and points to the i-th volume. */
  ghost predicate InStep<R(!new)>(vs: seq<Volume<R>>, ns: seq<RootNode>) {
    |vs| == |ns| && forall i :: 0 <= i < |vs| ==> ns[i] == RootNode(vs[i].name, vs[i].ref)
  }

  /** The mount table: what each name, cut to its significant bytes, stands for. */
  ghost function Table<R>(vs: seq<Volume<R>>): (t: map<bytes, Volume<R>>) {
    if |vs| == 0 then map[]
    else
      var n := |vs| - 1;
      Table(vs[..n])[Key(vs[n].name) := vs[n]]
  }

  /** Every row of the table comes from a volume. */
  lemma {:induction false} TableRow<R>(vs: seq<Volume<R>>, k: bytes) returns (i: int)
    requires k in Table(vs)
    ensures 0 <= i < |vs| && Key(vs[i].name) == k && Table(vs)[k] == vs[i]
    decreases |vs|
  {
    var n := |vs| - 1;
    if Key(vs[n].name) == k {
      i := n;
    } else {
      i := TableRow(vs[..n], k);
    }
  }

  lemma {:induction false} TableHasKey<R>(vs: seq<Volume<R>>, i: int)
    requires 0 <= i < |vs|
    ensures Key(vs[i].name) in Table(vs)
    decreases |vs|
  {
    var n := |vs| - 1;
    if i < n {
      TableHasKey(vs[..n], i);
    }
  }

  /** With distinct keys, the table holds exactly the volumes. */
  lemma TableHas<R(!new)>(vs: seq<Volume<R>>, i: int)
    requires Distinct(vs) && 0 <= i < |vs|
    ensures Key(vs[i].name) in Table(vs) && Table(vs)[Key(vs[i].name)] == vs[i]
  {
    TableHasKey(vs, i);
    var j := TableRow(vs, Key(vs[i].name));
    assert i == j || i < j || j < i;
  }

  /** Looking a name up in the list is looking its key up in the table. */
  lemma LookupIsTable<R(!new)>(vs: seq<Volume<R>>, name: bytes)
    requires Distinct(vs)
    ensures FindVolume(vs, name) >= 0 <==> Key(name) in Table(vs)
    ensures FindVolume(vs, name) >= 0 ==> vs[FindVolume(vs, name)] == Table(vs)[Key(name)]
  {
    hide Table;
    if Key(name) in Table(vs) {
      var i := TableRow(vs, Key(name));
      FindVolumeUnique(vs, name, i);
    }
    var i := FindVolume(vs, name);
    if i >= 0 {
      TableHas(vs, i);
    }
  }

  lemma DistinctWithout<R(!new)>(vs: seq<Volume<R>>, i: int)
    requires Distinct(vs) && 0 <= i < |vs|
    ensures Distinct(Without(vs, i))
  {
    hide Without, Key;
    WithoutIndex(vs, i);
  }

  lemma KeysUnlike<R(!new)>(vs: seq<Volume<R>>, i: int, j: int)
    requires Distinct(vs) && 0 <= i < |vs| && 0 <= j < |vs| && i != j
    ensures Key(vs[i].name) != Key(vs[j].name)
  {
    hide Key;
    assert i < j || j < i;
  }

  /** Removing a volume removes its key and nothing else. */
  lemma TableWithout<R(!new)>(vs: seq<Volume<R>>, i: int)
    requires Distinct(vs) && 0 <= i < |vs|
    ensures Table(Without(vs, i)) == Table(vs) - {Key(vs[i].name)}
  {
    hide Without, Table, Key, Distinct;
    var ws := Without(vs, i);
    WithoutIndex(vs, i);
    DistinctWithout(vs, i);
    var tv, tw := Table(vs), Table(ws);
    forall k | k in tw ensures k in tv && k != Key(vs[i].name) && tv[k] == tw[k] {
      var j := TableRow(ws, k);
      KeysUnlike(vs, if j < i then j else j + 1, i);
      TableHas(vs, if j < i then j else j + 1);
    }
    forall k | k in tv && k != Key(vs[i].name) ensures k in tw {
      var l := TableRow(vs, k);
      TableHas(ws, if l < i then l else l - 1);
    }
  }

  /** Unmounting one volume changes what no other name finds. */
  lemma UnmountKeepsOthers<R(!new)>(vs: seq<Volume<R>>, i: int, name: bytes)
    requires Distinct(vs) && 0 <= i < |vs| && Key(name) != Key(vs[i].name)
    ensures var ws := Without(vs, i);
      var k, l := FindVolume(vs, name), FindVolume(ws, name);
      (k < 0 <==> l < 0) && (k >= 0 ==> ws[l] == vs[k])
  {
    hide Table, FindVolume, Without, Key;
    DistinctWithout(vs, i);
    TableWithout(vs, i);
    LookupIsTable(vs, name);
    LookupIsTable(Without(vs, i), name);
  }

  /** Adding a volume with a new key adds that key and nothing else. */
  lemma TableWith<R(!new)>(vs: seq<Volume<R>>, v: Volume<R>)
    ensures Table(vs + [v]) == Table(vs)[Key(v.name) := v]
  {
    assert (vs + [v])[..|vs|] == vs;
  }

  lemma DriverNames()
    ensures Spells(ROOTFS, "rootfs") && Spells(TARFS, "tarfs") && Spells(ROOT, "ROOT")
  {
  }

  lemma SpelledOnce(b: bytes, c: bytes, text: string)
    requires Spells(c, text)
    ensures Spells(b, text) <==> b == c
  {
  }

  /** Volume names count up to their seventeenth byte: names that differ there are two volumes, and names that differ
      only later are one. */
  lemma SeventeenBytes<R(!new)>(s: bytes, b: byte, c: byte, ref: int, root: R)
    requires |s| == 16 && b != c
    ensures var vs := [Volume(s + [b], ref, root)]; FindVolume(vs, s + [b]) == 0 && FindVolume(vs, s + [c]) == -1
    ensures var vs := [Volume(s + [b, b], ref, root)]; FindVolume(vs, s + [b, c]) == 0
  {
    assert (s + [b])[16] != (s + [c])[16];
    assert Take(s + [b, b], 17) == s + [b] && Take(s + [b, c], 17) == s + [b];
    FindVolumeUnique([Volume(s + [b], ref, root)], s + [c], -1);
  }

  // ----- Histories of mounts and unmounts

  /** Both lists, and the next address an allocation returns. */
  datatype Lists<R> = Lists(volumes: seq<Volume<R>>, nodes: seq<RootNode>, nextRef: int)

  /** Volumes are distinct and older than the next one; this holds whatever fails. */
  ghost predicate Sound<R(!new)>(s: Lists<R>) {
    Distinct(s.volumes) && forall i :: 0 <= i < |s.volumes| ==> s.volumes[i].ref < s.nextRef
  }

  /** What a driver's own mount function answers. */
  datatype Answer<R> = Fails | Gives(root: R)

  /** Whether list_append found memory for the volume and for its node; nobody asks. */
  datatype Appends = Appends(volume: bool, node: bool)

  const BOTH: Appends := Appends(true, true)

  /** A call of vfs_mount, with the answers of malloc, of the driver and of the two appends, or of vfs_umount. */
  datatype Request<R> =
    | MountAs(driver: bytes, name: bytes, room: bool, hook: Answer<R>, kept: Appends)
    | Unmount(name: bytes)

  predicate GoodRequest<R>(q: Request<R>) {
    if q.MountAs? then GoodName(q.name) else NUL !in q.name
  }

  /** The driver is known and there is memory and a root; the root file system is mounted only once, at the start. */
  predicate Willing<R>(drivers: seq<bytes>, q: Request<R>)
    requires q.MountAs?
  {
    q.driver in drivers && q.driver != ROOTFS && q.room && q.hook.Gives?
  }

  /** One more volume, and one more node for it, as far as there is memory. */
  function Added<R>(s: Lists<R>, name: bytes, root: R, kept: Appends): (r: Lists<R>) {
    Lists(s.volumes + (if kept.volume then [Volume(name, s.nextRef, root)] else []),
          s.nodes + (if kept.node then [RootNode(name, s.nextRef)] else []), s.nextRef + 1)
  }

  /** The index of the first node with this name, or the number of nodes. */
  function NodeIndex(ns: seq<RootNode>, name: bytes): (k: int)
    ensures 0 <= k <= |ns| && (k < |ns| ==> ns[k].name == name) && forall j :: 0 <= j < k ==> ns[j].name != name
  {
    if ns == [] || ns[0].name == name then 0 else 1 + NodeIndex(ns[1..], name)
  }

  lemma NodeIndexUnique(ns: seq<RootNode>, name: bytes, k: int)
    requires 0 <= k <= |ns| && (k < |ns| ==> ns[k].name == name) && forall j :: 0 <= j < k ==> ns[j].name != name
    ensures NodeIndex(ns, name) == k
  {
  }

  /** The nodes without the first one of this name. */
  function Unlisted(ns: seq<RootNode>, name: bytes): seq<RootNode> {
    var k := NodeIndex(ns, name);
    if k < |ns| then Without(ns, k) else ns
  }

  function Serve<R>(drivers: seq<bytes>, s: Lists<R>, q: Request<R>): (r: Lists<R>) {
    var i := FindVolume(s.volumes, q.name);
    match q
    case MountAs(_, name, _, hook, kept) => if i < 0 && Willing(drivers, q) then Added(s, name, hook.root, kept) else s
    case Unmount(_) =>
      if i < 0 then s
      else s.(volumes := Without(s.volumes, i), nodes := Unlisted(s.nodes, s.volumes[i].name))
  }

  function ServeAll<R>(drivers: seq<bytes>, s: Lists<R>, qs: seq<Request<R>>): (r: Lists<R>) {
    if |qs| == 0 then s else Serve(drivers, ServeAll(drivers, s, qs[..|qs| - 1]), qs[|qs| - 1])
  }

  /** After vfs_init: the root file system alone. */
  function Boot<R>(root: R): (s: Lists<R>) {
    Added(Lists([], [], 1), ROOT, root, BOTH)
  }

  lemma AddedSound<R(!new)>(s: Lists<R>, name: bytes, root: R, kept: Appends)
    requires Sound(s) && GoodName(name) && FindVolume(s.volumes, name) < 0
    ensures Sound(Added(s, name, root, kept))
    ensures var v := Volume(name, s.nextRef, root);
      Table(Added(s, name, root, kept).volumes) ==
        if kept.volume then Table(s.volumes)[Key(name) := v] else Table(s.volumes)
  {
    hide Table, Key, FindVolume;
    TableWith(s.volumes, Volume(name, s.nextRef, root));
    KeysDiffer(s.volumes, name);
    assert !kept.volume ==> Added(s, name, root, kept).volumes == s.volumes;
  }

  /** A mount keeps the lists in step if and only if both appends succeed or both fail. */
  lemma AddedInStep<R(!new)>(s: Lists<R>, name: bytes, root: R, kept: Appends)
    requires InStep(s.volumes, s.nodes)
    ensures var r := Added(s, name, root, kept); InStep(r.volumes, r.nodes) <==> kept.volume == kept.node
  {
  }

  lemma RemovedSound<R(!new)>(s: Lists<R>, i: int)
    requires Sound(s) && 0 <= i < |s.volumes|
    ensures Sound(s.(volumes := Without(s.volumes, i), nodes := Unlisted(s.nodes, s.volumes[i].name)))
  {
    hide Distinct, Without, Key;
    DistinctWithout(s.volumes, i);
    WithoutIndex(s.volumes, i);
  }

  /** With the lists in step, unmounting finds the volume's own node and keeps them so. */
  lemma RemovedInStep<R(!new)>(s: Lists<R>, i: int)
    requires Sound(s) && InStep(s.volumes, s.nodes) && 0 <= i < |s.volumes|
    ensures NodeIndex(s.nodes, s.volumes[i].name) == i
    ensures InStep(Without(s.volumes, i), Unlisted(s.nodes, s.volumes[i].name))
  {
    hide Without, NodeIndex;
    forall j | 0 <= j < i ensures s.nodes[j].name != s.volumes[i].name {
      assert Key(s.volumes[j].name) != Key(s.volumes[i].name);
    }
    NodeIndexUnique(s.nodes, s.volumes[i].name, i);
    WithoutIndex(s.volumes, i);
    WithoutIndex(s.nodes, i);
  }

  /** A mount table that knows nothing of lists: what each key stands for. */
  ghost function ServeTable<R>(drivers: seq<bytes>, t: map<bytes, R>, q: Request<R>): (u: map<bytes, R>) {
    match q
    case MountAs(_, name, _, hook, kept) =>
      if Key(name) !in t && Willing(drivers, q) && kept.volume then t[Key(name) := hook.root] else t
    case Unmount(name) => t - {Key(name)}
  }

  ghost function ServeTableAll<R>(drivers: seq<bytes>, t: map<bytes, R>, qs: seq<Request<R>>): (u: map<bytes, R>) {
    if |qs| == 0 then t else ServeTable(drivers, ServeTableAll(drivers, t, qs[..|qs| - 1]), qs[|qs| - 1])
  }

  /** The roots of the mounted volumes by key. */
  ghost function Roots<R>(vs: seq<Volume<R>>): (t: map<bytes, R>) {
    map k | k in Table(vs) :: Table(vs)[k].root
  }

  lemma RootsWith<R(!new)>(vs: seq<Volume<R>>, v: Volume<R>)
    ensures Roots(vs + [v]) == Roots(vs)[Key(v.name) := v.root]
  {
    hide Table, Key;
    TableWith(vs, v);
  }

  lemma RootsWithout<R(!new)>(vs: seq<Volume<R>>, i: int)
    requires Distinct(vs) && 0 <= i < |vs|
    ensures Roots(Without(vs, i)) == Roots(vs) - {Key(vs[i].name)}
  {
    hide Table, Key, Without, Distinct;
    TableWithout(vs, i);
  }

  lemma RootsKey<R(!new)>(vs: seq<Volume<R>>, name: bytes)
    requires Distinct(vs)
    ensures var i := FindVolume(vs, name);
      (i >= 0 <==> Key(name) in Roots(vs)) && (i >= 0 ==> Key(vs[i].name) == Key(name))
  {
    hide Table, Distinct;
    LookupIsTable(vs, name);
  }

  /** The request keeps the lists in step: it is no mount that succeeds with one append only. */
  predicate Even<R>(drivers: seq<bytes>, s: Lists<R>, q: Request<R>) {
    q.MountAs? && FindVolume(s.volumes, q.name) < 0 && Willing(drivers, q) ==> q.kept.volume == q.kept.node
  }

  /** Each request keeps the volumes distinct and does to the roots what it does to a plain table; and it keeps the two
      lists in step if and only if it is not a mount in which one append fails. */
  lemma {:induction false} ServeExact<R(!new)>(drivers: seq<bytes>, s: Lists<R>, q: Request<R>)
    requires Sound(s) && GoodRequest(q)
    ensures Sound(Serve(drivers, s, q))
    ensures Roots(Serve(drivers, s, q).volumes) == ServeTable(drivers, Roots(s.volumes), q)
    ensures InStep(s.volumes, s.nodes) ==>
      (InStep(Serve(drivers, s, q).volumes, Serve(drivers, s, q).nodes) <==> Even(drivers, s, q))
  {
    hide Sound, Distinct, InStep, Roots, Table, Key, FindVolume, Without, Unlisted, GoodName;
    SoundParts(s);
    var i := FindVolume(s.volumes, q.name);
    RootsKey(s.volumes, q.name);
    if i >= 0 {
      RemovedSound(s, i);
      RootsWithout(s.volumes, i);
      if InStep(s.volumes, s.nodes) {
        RemovedInStep(s, i);
      }
    } else if q.MountAs? && Willing(drivers, q) {
      AddedSound(s, q.name, q.hook.root, q.kept);
      if InStep(s.volumes, s.nodes) {
        AddedInStep(s, q.name, q.hook.root, q.kept);
      }
      RootsWith(s.volumes, Volume(q.name, s.nextRef, q.hook.root));
      assert s.volumes + [] == s.volumes;
    }
  }

  /** No mount among the requests has one append fail and the other succeed. */
  predicate AllEven<R>(qs: seq<Request<R>>) {
    forall i :: 0 <= i < |qs| ==> (qs[i].MountAs? ==> qs[i].kept.volume == qs[i].kept.node)
  }

  /** After vfs_init and every sequence of mounts and unmounts, the volumes have distinct keys and are what the same
      requests make of a plain table; and the i-th root node names and points to the i-th volume, unless in some mount
      one append failed and the other did not. */
  lemma {:induction false} HistoryExact<R(!new)>(drivers: seq<bytes>, root: R, qs: seq<Request<R>>)
    requires forall i :: 0 <= i < |qs| ==> GoodRequest(qs[i])
    ensures var s := ServeAll(drivers, Boot(root), qs);
      && Sound(s) && Roots(s.volumes) == ServeTableAll(drivers, map[Key(ROOT) := root], qs)
      && (AllEven(qs) ==> InStep(s.volumes, s.nodes))
    decreases |qs|
  {
    hide Serve, ServeTable, Key, Sound, InStep, Roots;
    if |qs| == 0 {
      BootExact(root);
    } else {
      HistoryExact(drivers, root, qs[..|qs| - 1]);
      ServeExact(drivers, ServeAll(drivers, Boot(root), qs[..|qs| - 1]), qs[|qs| - 1]);
    }
  }

  /** A volume without a node, after one mount. */
  lemma OutOfStep<R(!new)>(root: R, other: R)
    ensures var q := MountAs(TARFS, [65], true, Gives(other), Appends(true, false));
      var s := Serve([ROOTFS, TARFS], Boot(root), q);
      |s.volumes| == 2 && |s.nodes| == 1
  {
    FindVolumeUnique(Boot(root).volumes, [65], -1);
  }

  lemma {:induction false} BootExact<R(!new)>(root: R)
    ensures var s := Boot(root);
      Sound(s) && InStep(s.volumes, s.nodes) && Roots(s.volumes) == map[Key(ROOT) := root]
  {
    hide Table, Key, Roots, Distinct, FindVolume;
    var none: Lists<R> := Lists([], [], 1);
    NothingMounted<R>();
    AddedSound(none, ROOT, root, BOTH);
    AddedInStep(none, ROOT, root, BOTH);
    RootsWith(none.volumes, Volume(ROOT, 1, root));
  }

  lemma {:induction false} NothingMounted<R(!new)>()
    ensures Sound(Lists<R>.Lists([], [], 1)) && Roots<R>([]) == map[] && FindVolume<R>([], ROOT) < 0
  {
  }

  lemma SoundParts<R(!new)>(s: Lists<R>)
    requires Sound(s)
    ensures Distinct(s.volumes)
  {
  }

  lemma {:induction false} ServeNone<R>(drivers: seq<bytes>, s: Lists<R>)
    ensures ServeAll(drivers, s, []) == s
  {
  }

  lemma {:induction false} ServeAllStep<R>(drivers: seq<bytes>, s: Lists<R>, qs: seq<Request<R>>, k: int)
    requires 0 <= k < |qs|
    ensures ServeAll(drivers, s, qs[..k + 1]) == Serve(drivers, ServeAll(drivers, s, qs[..k]), qs[k])
  {
    hide Serve;
    assert qs[..k + 1][..k] == qs[..k];
  }

  class Registry<R(!new)> {
    var volumes: seq<Volume<R>>
    var nodes: seq<RootNode>
    /** Names of the registered file system drivers. */
    var drivers: seq<bytes>
    /** The next address an allocation returns. */
    var nextRef: int

    function Now(): Lists<R>
      reads this
    {
      Lists(volumes, nodes, nextRef)
    }

    ghost predicate Valid()
      reads this
    {
      Sound(Now())
    }

    /** vfs_init: mounts the root file system, then registers the other drivers. */
    constructor (found: seq<bytes>, root: R)
      ensures Valid() && InStep(volumes, nodes) && Now() == Boot(root)
      ensures |volumes| == 1 && Spells(volumes[0].name, "ROOT") && volumes[0].root == root
      ensures |drivers| == |found| + 1 && Spells(drivers[0], "rootfs") && drivers[1..] == found
    {
      BootExact(root);
      volumes, nodes, nextRef := [], [], 1;
      drivers := [ROOTFS];
      new;
      Add(ROOT, root, BOTH);
      drivers := drivers + found;
    }

    method FindMountpoint(name: bytes) returns (i: int)
      requires Valid() && NUL !in name
      ensures i == FindVolume(volumes, name)
    {
      hide SameName, FindVolume;
      i := 0;
      while i < |volumes|
        invariant 0 <= i <= |volumes| && forall j :: 0 <= j < i ==> !SameName(volumes[j].name, name, VOLUME_LIMIT)
      {
        var same := StrNCmpZero(volumes[i].name, name, VOLUME_LIMIT);
        if same {
          FindVolumeUnique(volumes, name, i);
          return;
        }
        i := i + 1;
      }
      FindVolumeUnique(volumes, name, -1);
      return -1;
    }

    method FindDriver(name: bytes) returns (found: bool)
      ensures found <==> name in drivers
    {
      var i := 0;
      while i < |drivers|
        invariant 0 <= i <= |drivers| && name !in drivers[..i]
      {
        if drivers[i] == name {
          return true;
        }
        i := i + 1;
      }
      return false;
    }

    /** list_append to both lists, each of which drops the element when there is no memory. */
    method Add(name: bytes, root: R, kept: Appends)
      modifies this
      ensures Now() == Added(old(Now()), name, root, kept) && drivers == old(drivers)
    {
      if kept.volume {
        volumes := volumes + [Volume(name, nextRef, root)];
      }
      if kept.node {
        nodes := nodes + [RootNode(name, nextRef)];
      }
      nextRef := nextRef + 1;
    }

    /** What vfs_mount asks before it calls the driver: the name is new, the driver known, and there is memory. */
    method MayMount(driver: bytes, name: bytes, room: bool) returns (ok: bool)
      requires Valid() && GoodName(name)
      ensures ok <==> FindVolume(volumes, name) < 0 && driver in drivers && room
    {
      var i := FindMountpoint(name);
      if i >= 0 {
        return false;
      }
      var known := FindDriver(driver);
      return known && room;
    }

    /** vfs_mount; the driver rootfs has refused since vfs_init, and hook is what any other driver answers. It reports
        success whether or not the volume could be listed. */
    method Mount(driver: bytes, name: bytes, room: bool, hook: Answer<R>, kept: Appends) returns (status: int)
      requires Valid() && GoodName(name)
      modifies this
      ensures Valid() && drivers == old(drivers)
      ensures Now() == Serve(drivers, old(Now()), MountAs(driver, name, room, hook, kept))
      ensures status == 0 || status == -1
      ensures status == 0 <==>
        Key(name) !in old(Table(volumes)) && driver in drivers && !Spells(driver, "rootfs") && room && hook.Gives?
      ensures status == -1 ==> volumes == old(volumes) && nodes == old(nodes)
      ensures Table(volumes) ==
        if status == 0 && kept.volume
        then old(Table(volumes))[Key(name) := Volume(name, old(nextRef), hook.root)]
        else old(Table(volumes))
      ensures old(InStep(volumes, nodes)) ==> (InStep(volumes, nodes) <==> status == -1 || kept.volume == kept.node)
    {
      hide Table, FindVolume, Sound, Distinct, InStep;
      SoundParts(Now());
      SpelledOnce(driver, ROOTFS, "rootfs");
      DriverNames();
      LookupIsTable(volumes, name);
      var ok := MayMount(driver, name, room);
      if !ok || driver == ROOTFS || hook.Fails? {
        return -1;
      }
      AddedSound(Now(), name, hook.root, kept);
      if InStep(volumes, nodes) {
        AddedInStep(Now(), name, hook.root, kept);
      }
      Add(name, hook.root, kept);
      return 0;
    }

    /** vfs_umount: drops the volume, and the first node of its name if there is one. */
    method Umount(name: bytes) returns (status: int)
      requires Valid() && NUL !in name
      modifies this
      ensures Valid() && drivers == old(drivers)
      ensures Now() == Serve(drivers, old(Now()), Unmount(name))
      ensures status == if Key(name) in old(Table(volumes)) then 0 else -1
      ensures Table(volumes) == old(Table(volumes)) - {Key(name)}
      ensures old(InStep(volumes, nodes)) ==> InStep(volumes, nodes)
    {
      hide Table, FindVolume, Sound, Distinct, InStep, Key, Without, NodeIndex;
      SoundParts(Now());
      LookupIsTable(volumes, name);
      var i := FindMountpoint(name);
      if i < 0 {
        return -1;
      }
      SameKey(volumes[i].name, name);
      RemovedSound(Now(), i);
      if InStep(volumes, nodes) {
        RemovedInStep(Now(), i);
      }
      TableWithout(volumes, i);
      var n := FindNode(volumes[i].name);
      var l := FindRef(volumes[i].ref, i);
      if n < |nodes| {
        nodes := Without(nodes, n);
      }
      volumes := Without(volumes, l);
      return 0;
    }

    method Answer(q: Request<R>)
      requires Valid() && GoodRequest(q)
      modifies this
      ensures Valid() && drivers == old(drivers) && Now() == Serve(drivers, old(Now()), q)
    {
      hide Serve, Sound, InStep, Table, Key, Willing;
      match q {
        case MountAs(driver, name, room, hook, kept) =>
          var _ := Mount(driver, name, room, hook, kept);
        case Unmount(name) =>
          var _ := Umount(name);
      }
    }

    /** Any sequence of mounts and unmounts. */
    method Perform(qs: seq<Request<R>>)
      requires Valid() && forall i :: 0 <= i < |qs| ==> GoodRequest(qs[i])
      modifies this
      ensures Valid() && drivers == old(drivers) && Now() == ServeAll(drivers, old(Now()), qs)
    {
      hide Serve, ServeAll, Sound, GoodRequest;
      ghost var start := Now();
      ServeNone(drivers, start);
      var k := 0;
      assert qs[..0] == [];
      while k < |qs|
        invariant 0 <= k <= |qs| && Valid() && drivers == old(drivers) && Now() == ServeAll(drivers, start, qs[..k])
      {
        ServeAllStep(drivers, start, qs, k);
        Answer(qs[k]);
        k := k + 1;
      }
      assert qs[..k] == qs;
    }

    /** The search loop of rootfs_unregister_volume: strcmp on the whole name. */
    method FindNode(name: bytes) returns (n: int)
      ensures n == NodeIndex(nodes, name)
    {
      hide NodeIndex;
      n := 0;
      while n < |nodes|
        invariant 0 <= n <= |nodes| && forall j :: 0 <= j < n ==> nodes[j].name != name
      {
        if nodes[n].name == name {
          break;
        }
        n := n + 1;
      }
      NodeIndexUnique(nodes, name, n);
    }

    /** The search of list_delete: the first element at this address. */
    method FindRef(ref: int, ghost i: int) returns (n: int)
      requires Valid() && 0 <= i < |volumes| && volumes[i].ref == ref
      ensures n == i
    {
      n := 0;
      while n < |volumes|
        invariant 0 <= n <= i
      {
        if volumes[n].ref == ref {
          return;
        }
        n := n + 1;
      }
    }
  }

  lemma SameKey(s: bytes, t: bytes)
    ensures SameName(s, t, VOLUME_LIMIT) <==> Key(s) == Key(t)
  {
  }

  lemma KeysDiffer<R(!new)>(vs: seq<Volume<R>>, name: bytes)
    requires FindVolume(vs, name) < 0
    ensures forall i :: 0 <= i < |vs| ==> Key(vs[i].name) != Key(name)
  {
  }
}
