// elf/epicfs.h and the on-disk format of elf/epicfs.c as values: the tree of entries, the bytes a
// tree is written as, and the trees a byte string parses to.
module EpicFsFormat {
  import opened Bytes

  type Name = seq<byte>

  // The tag byte in front of every entry (enum fs_type).
  const FS_TYPE_DIRECTORY: byte := 0
  const FS_TYPE_FILE: byte := 1

  // A file system tree whose files carry a T: an Extent in a parsed tree, the contents themselves
  // in a tree that is yet to be stored.
  datatype Tree<T> =
    | Directory(name: Name, children: seq<Tree<T>>)
    | File(name: Name, data: T)

  // Where a file's bytes are: file_size of them from the first byte of start_sector.
  datatype Extent = Extent(size: u32, startSector: u32)

  type Entry = Tree<Extent>

  // Name lengths and child counts fit their 16-bit header fields.
  predicate Encodable<T>(t: Tree<T>)
    decreases t
  {
    && |t.name| < 0x1_0000
    && (t.Directory? ==> |t.children| < 0x1_0000 && forall i :: 0 <= i < |t.children| ==> Encodable(t.children[i]))
  }

  predicate AllEncodable<T>(ts: seq<Tree<T>>) {
    forall i :: 0 <= i < |ts| ==> Encodable(ts[i])
  }

  // The C string a name buffer holds: its bytes before the first NUL.
  function CString(name: Name): (s: Name)
    ensures s <= name && 0 !in s
    ensures |s| < |name| ==> name[|s|] == 0
  {
    if name == [] || name[0] == 0 then [] else [name[0]] + CString(name[1..])
  }

  // The C string in a buffer takes its first n bytes: a NUL or the end of the buffer comes next.
  predicate EndsAt(name: Name, n: nat) {
    n <= |name| && 0 !in name[..n] && (n == |name| || name[n] == 0)
  }

  lemma CStringEnds(name: Name, n: nat)
    ensures EndsAt(name, n) <==> n == |CString(name)|
    ensures CString(name) == name[..|CString(name)|]
    ensures 0 !in name ==> CString(name) == name
  {
    var s := CString(name);
    assert forall k :: 0 <= k < |s| ==> s[k] == name[k];
    assert n <= |name| ==> forall k :: 0 <= k < n ==> name[..n][k] == name[k];
  }

  // ---- Writing --------------------------------------------------------------------------------

  function DirectoryBytes(name: Name, count: u16): (b: seq<byte>)
    requires |name| < 0x1_0000
    ensures |b| == 5 + |name|
  {
    [FS_TYPE_DIRECTORY] + U16Bytes(|name|) + U16Bytes(count) + name
  }

  function FileBytes(name: Name, extent: Extent): (b: seq<byte>)
    requires |name| < 0x1_0000
    ensures |b| == 11 + |name|
  {
    [FS_TYPE_FILE] + U16Bytes(|name|) + U32Bytes(extent.size) + U32Bytes(extent.startSector) + name
  }

  // A tree in preorder, each entry's header in front of its children.
  function Serialise(t: Entry): (b: seq<byte>)
    requires Encodable(t)
    ensures |b| >= 5 && b[0] == if t.Directory? then FS_TYPE_DIRECTORY else FS_TYPE_FILE
    decreases t, 1
  {
    match t
    case Directory(name, children) => DirectoryBytes(name, |children|) + SerialiseAll(children)
    case File(name, extent) => FileBytes(name, extent)
  }

  function SerialiseAll(ts: seq<Entry>): (b: seq<byte>)
    requires AllEncodable(ts)
    decreases ts, 0
  {
    if ts == [] then [] else Serialise(ts[0]) + SerialiseAll(ts[1..])
  }

  // ---- Parsing --------------------------------------------------------------------------------

  // Truncated stands for a read beyond the buffer or the disk, which the C code does not guard
  // against; AssertionFailed for its assertions on the tag byte and on the header size.
  datatype Parse<+T> = Parsed(value: T, consumed: nat) | AssertionFailed | Truncated

  function ParseFile(b: seq<byte>): (r: Parse<Entry>)
    ensures r.Parsed? ==> r.value.File? && Encodable(r.value) && r.consumed == 11 + |r.value.name| <= |b|
  {
    if |b| < 11 then Truncated
    else
      var n := ReadU16(b[1..]);
      if |b| < 11 + n then Truncated
      else Parsed(File(b[11..11 + n], Extent(ReadU32(b[3..]), ReadU32(b[7..]))), 11 + n)
  }

  // The tag byte of the directory itself is skipped unchecked.
  function ParseDirectory(b: seq<byte>): (r: Parse<Entry>)
    ensures r.Parsed? ==> r.value.Directory? && Encodable(r.value) && 5 + |r.value.name| <= r.consumed <= |b|
    decreases |b|, 0
  {
    if |b| < 5 then Truncated
    else
      var n, count := ReadU16(b[1..]), ReadU16(b[3..]);
      if |b| < 5 + n then Truncated
      else
        match ParseChildren(b[5 + n..], count)
        case Parsed(children, m) => Parsed(Directory(b[5..5 + n], children), 5 + n + m)
        case AssertionFailed => AssertionFailed
        case Truncated => Truncated
  }

  // One child: dispatch on its tag byte.
  function ParseEntry(b: seq<byte>): (r: Parse<Entry>)
    ensures r.Parsed? ==> Encodable(r.value) && 5 <= r.consumed <= |b|
    decreases |b|, 1
  {
    if |b| == 0 then Truncated
    else if b[0] == FS_TYPE_DIRECTORY then ParseDirectory(b)
    else if b[0] == FS_TYPE_FILE then ParseFile(b)
    else AssertionFailed
  }

  function ParseChildren(b: seq<byte>, count: nat): (r: Parse<seq<Entry>>)
    ensures r.Parsed? ==> |r.value| == count && AllEncodable(r.value) && r.consumed <= |b|
    decreases |b|, 2, count
  {
    if count == 0 then Parsed([], 0)
    else
      match ParseEntry(b)
      case AssertionFailed => AssertionFailed
      case Truncated => Truncated
      case Parsed(child, m) =>
        match ParseChildren(b[m..], count - 1)
        case Parsed(children, k) => Parsed([child] + children, m + k)
        case AssertionFailed => AssertionFailed
        case Truncated => Truncated
  }

  // The n bytes a disk read starting at a sector delivers. An empty read touches no sector.
  function AtaRead(disk: seq<byte>, sector: nat, n: nat): (b: seq<byte>)
    requires n > 0 ==> sector * 512 + n <= |disk|
    ensures |b| == n
  {
    if n == 0 then [] else disk[sector * 512..sector * 512 + n]
  }

  // A file system whose header declares size sectors: the entries follow the 2-byte header.
  function MountSectors(disk: seq<byte>, sector: nat, size: nat): (r: Parse<Entry>) {
    if size == 0 then AssertionFailed
    else if |disk| < (sector + size) * 512 then Truncated
    else ParseDirectory(AtaRead(disk, sector, size * 512)[2..])
  }

  function Mount(disk: seq<byte>, sector: nat): (r: Parse<Entry>) {
    if |disk| < sector * 512 + 2 then Truncated
    else MountSectors(disk, sector, ReadU16(AtaRead(disk, sector, 2)))
  }

  // The packed structures field by field: every number little-endian at its offset in the header.
  lemma DirectoryLayout(name: Name, count: u16)
    requires |name| < 0x1_0000
    ensures var b := DirectoryBytes(name, count);
            && b[0] == 0
            && |name| == (b[1] as int) + 0x100 * (b[2] as int)
            && count == (b[3] as int) + 0x100 * (b[4] as int)
            && b[5..] == name
  {
  }

  lemma FileLayout(name: Name, extent: Extent)
    requires |name| < 0x1_0000
    ensures var b := FileBytes(name, extent);
            && b[0] == 1
            && |name| == (b[1] as int) + 0x100 * (b[2] as int)
            && extent.size == (b[3] as int) + 0x100 * (b[4] as int)
                              + 0x1_0000 * (b[5] as int) + 0x100_0000 * (b[6] as int)
            && extent.startSector == (b[7] as int) + 0x100 * (b[8] as int)
                                     + 0x1_0000 * (b[9] as int) + 0x100_0000 * (b[10] as int)
            && b[11..] == name
  {
  }

  // ---- Parse undoes write ---------------------------------------------------------------------

  lemma FileRoundTrip(name: Name, extent: Extent, rest: seq<byte>)
    requires |name| < 0x1_0000
    ensures ParseFile(FileBytes(name, extent) + rest) == Parsed(File(name, extent), 11 + |name|)
  {
  }

  lemma DirectoryFields(name: Name, count: u16, rest: seq<byte>)
    requires |name| < 0x1_0000
    ensures var b := DirectoryBytes(name, count) + rest;
            ReadU16(b[1..]) == |name| && ReadU16(b[3..]) == count
            && b[5..5 + |name|] == name && b[5 + |name|..] == rest
  {
  }

  // Whatever follows a written tree, parsing it yields the tree and consumes exactly its bytes.
  lemma {:induction false} ParseUndoesSerialise(t: Entry, rest: seq<byte>)
    requires Encodable(t)
    ensures ParseEntry(Serialise(t) + rest) == Parsed(t, |Serialise(t)|)
    decreases t, 1
  {
    var b := Serialise(t) + rest;
    match t
    case File(name, extent) => FileRoundTrip(name, extent, rest);
    case Directory(name, children) =>
      var tail := SerialiseAll(children) + rest;
      assert b == DirectoryBytes(name, |children|) + tail;
      DirectoryFields(name, |children|, tail);
      ParseUndoesSerialiseAll(children, rest);
  }

  lemma {:induction false} ParseUndoesSerialiseAll(ts: seq<Entry>, rest: seq<byte>)
    requires AllEncodable(ts)
    ensures ParseChildren(SerialiseAll(ts) + rest, |ts|) == Parsed(ts, |SerialiseAll(ts)|)
    decreases ts, 0
  {
    if ts != [] {
      var head, tail := Serialise(ts[0]), SerialiseAll(ts[1..]);
      ParseUndoesSerialise(ts[0], tail + rest);
      ParseUndoesSerialiseAll(ts[1..], rest);
      FirstThenRest(head, tail, rest, ts[0], ts[1..]);
      assert [ts[0]] + ts[1..] == ts;
    }
  }

  lemma FirstThenRest(head: seq<byte>, tail: seq<byte>, rest: seq<byte>, t: Entry, ts: seq<Entry>)
    requires ParseEntry(head + (tail + rest)) == Parsed(t, |head|)
    requires ParseChildren(tail + rest, |ts|) == Parsed(ts, |tail|)
    ensures ParseChildren(head + tail + rest, |ts| + 1) == Parsed([t] + ts, |head| + |tail|)
  {
    var b := head + (tail + rest);
    assert head + tail + rest == b && b[|head|..] == tail + rest;
  }

  // The format is self-delimiting: no written tree is a proper prefix of another.
  lemma SerialisePrefixFree(t: Entry, u: Entry)
    requires Encodable(t) && Encodable(u)
    requires Serialise(t) <= Serialise(u)
    ensures t == u
  {
    var rest := Serialise(u)[|Serialise(t)|..];
    assert Serialise(u) == Serialise(t) + rest == Serialise(u) + [];
    ParseUndoesSerialise(t, rest);
    ParseUndoesSerialise(u, []);
  }

  // ---- Write undoes parse ---------------------------------------------------------------------

  lemma JoinSlices<T>(b: seq<T>, m: nat, k: nat)
    requires m + k <= |b|
    ensures b[..m] + b[m..][..k] == b[..m + k]
  {
  }

  lemma JoinTaggedSlices<T>(tag: T, b: seq<T>, m: nat, k: nat)
    requires 1 <= m && m + k <= |b|
    ensures [tag] + b[1..m] + b[m..][..k] == [tag] + b[1..m + k]
  {
  }

  lemma FileBytesOfParse(b: seq<byte>)
    requires ParseFile(b).Parsed? && b[0] == FS_TYPE_FILE
    ensures Serialise(ParseFile(b).value) == b[..ParseFile(b).consumed]
  {
    var t := ParseFile(b).value;
    U16BytesOfRead(b[1..]);
    U32BytesOfRead(b[3..]);
    U32BytesOfRead(b[7..]);
    assert b[..11] == [b[0]] + b[1..][..2] + b[3..][..4] + b[7..][..4];
    assert b[..11 + |t.name|] == b[..11] + t.name;
  }

  lemma DirectoryBytesOfFields(b: seq<byte>)
    requires |b| >= 5 && |b| >= 5 + ReadU16(b[1..])
    ensures var n := ReadU16(b[1..]);
            DirectoryBytes(b[5..5 + n], ReadU16(b[3..])) == [FS_TYPE_DIRECTORY] + b[1..5 + n]
  {
    var n := ReadU16(b[1..]);
    U16BytesOfRead(b[1..]);
    U16BytesOfRead(b[3..]);
    assert b[1..5 + n] == b[1..][..2] + b[3..][..2] + b[5..5 + n];
  }

  lemma {:induction false} ParsedDirectoryParts(b: seq<byte>)
    requires ParseDirectory(b).Parsed?
    ensures var n: nat, count: nat := ReadU16(b[1..]), ReadU16(b[3..]);
            && 5 + n <= |b| && ParseChildren(b[5 + n..], count).Parsed?
            && var rest := ParseChildren(b[5 + n..], count);
               ParseDirectory(b) == Parsed(Directory(b[5..5 + n], rest.value), 5 + n + rest.consumed)
  {
  }

  // Re-serialising a parsed directory reproduces every consumed byte after the unchecked tag.
  lemma {:induction false} SerialiseOfParsedDirectory(b: seq<byte>)
    requires ParseDirectory(b).Parsed?
    ensures var p := ParseDirectory(b); Serialise(p.value) == [FS_TYPE_DIRECTORY] + b[1..p.consumed]
    decreases |b|, 0
  {
    var n: nat, count: nat := ReadU16(b[1..]), ReadU16(b[3..]);
    var rest := ParseChildren(b[5 + n..], count);
    ParsedDirectoryParts(b);
    DirectoryBytesOfFields(b);
    SerialiseUndoesParseChildren(b[5 + n..], count);
    JoinTaggedSlices(FS_TYPE_DIRECTORY, b, 5 + n, rest.consumed);
  }

  lemma {:induction false} SerialiseUndoesParseChildren(b: seq<byte>, count: nat)
    requires ParseChildren(b, count).Parsed?
    ensures var p := ParseChildren(b, count); SerialiseAll(p.value) == b[..p.consumed]
    decreases |b|, 1, count
  {
    if count != 0 {
      var head := ParseEntry(b);
      if head.value.Directory? {
        SerialiseOfParsedDirectory(b);
        assert b[..head.consumed] == [b[0]] + b[1..head.consumed];
      } else {
        FileBytesOfParse(b);
      }
      var tail := ParseChildren(b[head.consumed..], count - 1);
      SerialiseUndoesParseChildren(b[head.consumed..], count - 1);
      assert ([head.value] + tail.value)[1..] == tail.value;
      JoinSlices(b, head.consumed, tail.consumed);
    }
  }

  lemma SameBehindTag(b: seq<byte>, tag: byte, i: nat, j: nat)
    requires 1 <= i <= j <= |b|
    ensures b[0 := tag][i..] == b[i..] && b[0 := tag][i..j] == b[i..j]
  {
  }

  lemma TagIsIgnored(b: seq<byte>, tag: byte)
    requires |b| >= 5
    ensures ParseDirectory(b[0 := tag]) == ParseDirectory(b)
  {
    SameBehindTag(b, tag, 1, 1);
    SameBehindTag(b, tag, 3, 3);
    var n: nat := ReadU16(b[1..]);
    if 5 + n <= |b| {
      SameBehindTag(b, tag, 5, 5 + n);
      SameBehindTag(b, tag, 5 + n, 5 + n);
    }
  }

  // Bytes after the consumed ones do not change a parse.
  lemma ParseIgnoresTrailing(b: seq<byte>, rest: seq<byte>)
    requires ParseDirectory(b).Parsed?
    ensures ParseDirectory(b + rest) == ParseDirectory(b)
  {
    var c := b[0 := FS_TYPE_DIRECTORY];
    TagIsIgnored(b, FS_TYPE_DIRECTORY);
    TagIsIgnored(b + rest, FS_TYPE_DIRECTORY);
    SameTailBehindTag(b, rest, FS_TYPE_DIRECTORY);
    ParseIgnoresTrailingTagged(c, rest);
  }

  lemma SameTailBehindTag(b: seq<byte>, rest: seq<byte>, tag: byte)
    requires |b| > 0
    ensures (b + rest)[0 := tag] == b[0 := tag] + rest
  {
  }

  lemma ParseIgnoresTrailingTagged(b: seq<byte>, rest: seq<byte>)
    requires ParseDirectory(b).Parsed? && b[0] == FS_TYPE_DIRECTORY
    ensures ParseDirectory(b + rest) == ParseDirectory(b)
  {
    var p := ParseDirectory(b);
    SerialiseUndoesParseIff(b);
    assert b + rest == Serialise(p.value) + (b[p.consumed..] + rest);
    ParseUndoesSerialise(p.value, b[p.consumed..] + rest);
  }

  // For a parsed root, writing undoes parsing exactly when the root carries the directory tag.
  lemma SerialiseUndoesParseIff(b: seq<byte>)
    requires ParseDirectory(b).Parsed?
    ensures var p := ParseDirectory(b); Serialise(p.value) == b[..p.consumed] <==> b[0] == FS_TYPE_DIRECTORY
  {
    var p := ParseDirectory(b);
    SerialiseOfParsedDirectory(b);
    assert b[..p.consumed] == [b[0]] + b[1..p.consumed];
  }

  // A root with another tag that parses and is not reproduced.
  lemma ForeignTagNotReproduced()
    ensures ParseDirectory([1, 0, 0, 0, 0]) == Parsed(Directory([], []), 5)
    ensures Serialise(Directory([], [])) != [1, 0, 0, 0, 0]
  {
    var b: seq<byte> := [1, 0, 0, 0, 0];
    assert b[5..5] == [] && b[5..] == [];
    assert ParseChildren([], 0) == Parsed([], 0);
  }

  // ---- Size of a tree on disk -----------------------------------------------------------------

  function Directories<T>(t: Tree<T>): (n: nat)
    decreases t, 1
  {
    if t.File? then 0 else 1 + DirectoriesAll(t.children)
  }

  function DirectoriesAll<T>(ts: seq<Tree<T>>): (n: nat)
    decreases ts, 0
  {
    if ts == [] then 0 else Directories(ts[0]) + DirectoriesAll(ts[1..])
  }

  function Files<T>(t: Tree<T>): (n: nat)
    decreases t, 1
  {
    if t.File? then 1 else FilesAll(t.children)
  }

  function FilesAll<T>(ts: seq<Tree<T>>): (n: nat)
    decreases ts, 0
  {
    if ts == [] then 0 else Files(ts[0]) + FilesAll(ts[1..])
  }

  function NameBytes<T>(t: Tree<T>): (n: nat)
    decreases t, 1
  {
    |t.name| + if t.File? then 0 else NameBytesAll(t.children)
  }

  function NameBytesAll<T>(ts: seq<Tree<T>>): (n: nat)
    decreases ts, 0
  {
    if ts == [] then 0 else NameBytes(ts[0]) + NameBytesAll(ts[1..])
  }

  // The parser consumes 5 bytes for a directory, 11 for a file, and the names; so the entries of
  // a parsed tree number at most a fifth of the bytes consumed.
  lemma {:induction false} ParsedDirectorySize(b: seq<byte>)
    requires ParseDirectory(b).Parsed?
    ensures var p := ParseDirectory(b);
            p.consumed == 5 * Directories(p.value) + 11 * Files(p.value) + NameBytes(p.value)
            && 5 * (Directories(p.value) + Files(p.value)) <= p.consumed
    decreases |b|, 0
  {
    var p := ParseDirectory(b);
    ParsedChildrenSize(b[5 + |p.value.name|..], |p.value.children|);
  }

  lemma {:induction false} ParsedChildrenSize(b: seq<byte>, count: nat)
    requires ParseChildren(b, count).Parsed?
    ensures var p := ParseChildren(b, count);
            p.consumed == 5 * DirectoriesAll(p.value) + 11 * FilesAll(p.value) + NameBytesAll(p.value)
    decreases |b|, 1, count
  {
    if count != 0 {
      var head := ParseEntry(b);
      if head.value.Directory? {
        ParsedDirectorySize(b);
      }
      var tail := ParseChildren(b[head.consumed..], count - 1);
      ParsedChildrenSize(b[head.consumed..], count - 1);
      assert ([head.value] + tail.value)[1..] == tail.value;
    }
  }
}
