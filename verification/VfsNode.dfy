/** A node of the virtual file system as it lies in memory, and what becomes of a name that is too long for it. */
module VfsNode {
  import opened Bytes
  import opened CStrings

  /** The name field takes the first 64 bytes of a node; flags, parent, volume and payload follow, four bytes each. */
  const VN_NAME: int := 64
  const NODE_BYTES: int := 80

  const VN_FREGFILE: byte := 1
  const VN_FDIR: byte := 2

  /** strcpy, which leaves the destination alone when the source is empty. */
  function StrCpy(dst: bytes, src: bytes): bytes {
    if src == [] then dst else src
  }

  /** The name a node answers to: a string that does not fit its field runs into the flags stored behind it. */
  function Stored(name: bytes, flags: byte): (r: bytes) {
    if |name| < VN_NAME then name else name[..VN_NAME] + (if flags == 0 then [] else [flags])
  }

  /** A node keeps its name exactly when the name fits, or happens to end in the very byte it runs into. */
  lemma KeptExactly(name: bytes, flags: byte)
    ensures Stored(name, flags) == name <==>
      |name| < VN_NAME || (|name| == VN_NAME && flags == 0) ||
      (|name| == VN_NAME + 1 && flags != 0 && name[VN_NAME] == flags)
  {
    assert |name| >= VN_NAME ==> name == name[..VN_NAME] + name[VN_NAME..];
  }

  /** strcpy into a node's memory. */
  function CopyName(m: seq<byte>, name: bytes): (r: seq<byte>)
    requires |name| < |m|
    ensures |r| == |m|
  {
    if name == [] then m else name + [NUL] + m[|name| + 1..]
  }

  /** strcpy puts the string and its end where it is told and changes nothing behind; for an empty string it does
      nothing. */
  lemma CopyExact(m: seq<byte>, name: bytes)
    requires |name| < |m|
    ensures name == [] ==> CopyName(m, name) == m
    ensures name != [] ==>
      CopyName(m, name)[..|name| + 1] == name + [0] && CopyName(m, name)[|name| + 1..] == m[|name| + 1..]
  {
  }

  /** The fields behind the name, in the order in which they are stored. */
  function SetFields(m: seq<byte>, flags: byte, parent: word, volume: word, payload: word): (r: seq<byte>)
    requires |m| == NODE_BYTES
    ensures |r| == |m|
  {
    Store(Store(Store(Store(m, 68, parent), 64, flags), 72, volume), 76, payload)
  }

  lemma FieldBytes(m: seq<byte>, flags: byte, parent: word, volume: word, payload: word)
    requires |m| == NODE_BYTES
    ensures var r := SetFields(m, flags, parent, volume, payload);
      (forall k :: 0 <= k < VN_NAME ==> r[k] == m[k]) && r[VN_NAME] == flags && r[VN_NAME + 1] == NUL
  {
  }

  /** The memory starts with this string. */
  predicate StartsWith(m: seq<byte>, s: bytes) {
    |s| <= |m| && (|s| < |m| ==> m[|s|] == NUL) && forall k :: 0 <= k < |s| ==> m[k] == s[k] && s[k] != NUL
  }

  lemma CopiedName(m: seq<byte>, name: bytes)
    requires |name| < |m| && NUL !in name
    ensures StartsWith(CopyName(m, name), StrCpy(Str(m, 0), name))
  {
    var s := Str(m, 0);
    assert forall k :: 0 <= k < |s| ==> s[k] == m[0 + k];
    assert |s| < |m| ==> m[0 + |s|] == NUL;
  }

  lemma CutByFlags(m: seq<byte>, r: seq<byte>, s: bytes, flags: byte)
    requires |m| == |r| == NODE_BYTES && StartsWith(m, s)
    requires (forall k :: 0 <= k < VN_NAME ==> r[k] == m[k]) && r[VN_NAME] == flags && r[VN_NAME + 1] == NUL
    ensures Str(r, 0) == Stored(s, flags)
  {
    hide Str;
    StrIs(r, 0, Stored(s, flags));
  }

  /** Read back as a string, the start of a finished node is the stored name, for every name that stays inside the node
      and whatever the memory held before. */
  lemma NodeName(m: seq<byte>, name: bytes, flags: byte, parent: word, volume: word, payload: word)
    requires |m| == NODE_BYTES && |name| < NODE_BYTES && NUL !in name
    ensures var node := SetFields(CopyName(m, name), flags, parent, volume, payload);
      Str(node, 0) == Stored(StrCpy(Str(m, 0), name), flags)
  {
    hide Str, SetFields, CopyName, StrCpy, Stored, StartsWith;
    var c := CopyName(m, name);
    CopiedName(m, name);
    FieldBytes(c, flags, parent, volume, payload);
    CutByFlags(c, SetFields(c, flags, parent, volume, payload), StrCpy(Str(m, 0), name), flags);
  }
}
