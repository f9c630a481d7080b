/** A small archive given byte by byte, as the ustar interchange format has it, from its bytes to a resolved path. */
module TarExample {
  import opened Bytes
  import opened CStrings
  import opened TarNames
  import opened TarTree
  import opened TarFormat
  import opened TarVolume
  import opened PathWalk
  import opened PathResolve
  import opened Vfs
  import opened VfsNode

  /** The directory "./" in block 0, a file "a" of ten bytes in blocks 1 and 2, and zeros. Names start their block,
      sizes are eleven octal digits at 124, and the type is the byte at 156. */
  function ExampleByte(i: int): byte {
    if i == 0 then 46
    else if i == 1 then 47
    else if 124 <= i < 135 then 48
    else if i == 156 then 53
    else if i == 512 then 97
    else if 636 <= i < 645 then 48
    else if i == 645 then 49
    else if i == 646 then 50
    else if i == 668 then 48
    else if 1024 <= i < 1034 then 104
    else 0
  }

  function Example(): (m: seq<byte>)
    ensures |m| == 2048 && forall i :: 0 <= i < 2048 ==> m[i] == ExampleByte(i)
  {
    seq(2048, i => ExampleByte(i))
  }

  function Data(): (d: bytes)
    ensures |d| == 10 && forall i :: 0 <= i < 10 ==> d[i] == 104
  {
    seq(10, i => 104)
  }

  function Entries(): seq<Entry> {
    [Entry([46, 47], 53, []), Entry([97], 48, Data())]
  }

  function ZeroDigits(k: nat): (s: bytes)
    ensures |s| == k && forall i :: 0 <= i < k ==> s[i] == 48
  {
    seq(k, i => 48)
  }

  lemma {:induction false} ZeroDigitsValue(k: nat)
    ensures IsNumeral(ZeroDigits(k)) && NumeralValue(ZeroDigits(k)) == 0
    decreases k
  {
    if k > 0 {
      ZeroDigitsValue(k - 1);
      assert ZeroDigits(k)[..k - 1] == ZeroDigits(k - 1);
    }
  }

  /** Octal twelve is ten. */
  lemma TwelveIsTen()
    ensures var s := ZeroDigits(9) + [49, 50]; IsNumeral(s) && NumeralValue(s) == 10
  {
    var s := ZeroDigits(9) + [49, 50];
    ZeroDigitsValue(9);
    assert s[..10] == ZeroDigits(9) + [49] && s[..10][..9] == ZeroDigits(9);
  }

  lemma DirectoryAt()
    ensures EntryAt(Example(), 0, Entries()[0])
  {
    hide Str, Example, NumeralValue;
    var m := Example();
    StrIs(m, 0, [46, 47]);
    StrIs(m, 124, ZeroDigits(11));
    ZeroDigitsValue(11);
    assert m[512..512] == [];
  }

  lemma FileAt()
    ensures EntryAt(Example(), 1, Entries()[1])
  {
    hide Str, Example, NumeralValue;
    var m := Example();
    StrIs(m, 512, [97]);
    StrIs(m, 636, ZeroDigits(9) + [49, 50]);
    TwelveIsTen();
    assert m[1024..1034] == Data();
  }

  /** These bytes are an archive of these entries, whose headers lie at 0 and 512. */
  lemma ExampleLayout()
    ensures Layout(Example(), 0, Entries()) && Starts(0, Entries()) == [0, 1]
  {
    hide EntryAt, Example;
    DirectoryAt();
    FileAt();
    var es := Entries();
    assert es[1..] == [es[1]] && [es[1]][1..] == [];
    assert Blocks(0) == 1 && Blocks(10) == 2;
    assert Layout(Example(), 3, []);
    assert Layout(Example(), 1, [es[1]]);
    assert Starts(3, []) == [] && Starts(1, [es[1]]) == [1];
  }

  lemma ExamplePaths()
    ensures PathsOf(Entries()) == [[], [97]] && KindsOf(Entries()) == [KIND_DIR, KIND_FILE]
  {
    hide Normal;
    RootForms();
    NormalForms([97]);
  }

  lemma ExampleMounted(junk: bytes)
    ensures NodesFit(PathsOf(Entries())) && MountedAt([MountOf([86], 1, Entries(), junk)], 0, Entries(), junk)
  {
    hide WellFormed, FindVolume, PathsOf, KindsOf, NodesFit, IndexOf, Entries;
    ExamplePaths();
    OneFileWellFormed([97]);
    FindVolumeUnique([MountOf([86], 1, Entries(), junk)], [86], 0);
  }

  /** Mounted as V, the file is what "V:/a" leads to, "V:" leads to the directory, and "a" leads nowhere. */
  lemma ExampleResolves(junk: bytes, path: bytes, root: bytes, bare: bytes)
    requires Spells(path, "V:/a") && Spells(root, "V:") && Spells(bare, "a")
    ensures NodesFit(PathsOf(Entries()))
    ensures var vs := [MountOf([86], 1, Entries(), junk)];
      && Resolve(vs, path) == Got(0, 1) && Resolve(vs, root) == Got(0, 0) && Resolve(vs, bare) == Nothing
      && vs[0].root.tree[0].flags == 2 && vs[0].root.tree[1].flags == 1
  {
    hide MountedAt, Resolve, WellFormed, PathsOf, KindsOf, IndexOf, ShortParts, NodesFit, Entries, FindVolume;
    ExamplePaths();
    ExampleMounted(junk);
    var vs := [MountOf([86], 1, Entries(), junk)];
    assert path == PathIn([86], [97]) && root == [86] + [COLON] + [];
    IndexOfUnique([[], [97]], [], 0);
    IndexOfUnique([[], [97]], [97], 1);
    ShortName();
    MountThenResolve(vs, 0, Entries(), junk, [97]);
    FindVolumeUnique(vs, [86], 0);
    MissingSlashGivesRoot(vs, [86], []);
    NoColonNoNode(vs, bare);
  }

  lemma ShortName()
    ensures ShortParts([97])
  {
    FirstOfUnique([97], [SLASH], 1);
  }
}
