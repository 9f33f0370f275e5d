// elf/epicfs.c, lines 18-37 and 82-150: the recursive parser, filling entry structures in place.
module EpicFsParser {
  import opened Bytes
  import opened EpicFsFormat

  datatype FileHeader = FileHeader(nameLength: u16, fileSize: u32, startSector: u32)

  datatype DirectoryHeader = DirectoryHeader(nameLength: u16, childrenCount: u16)

  // struct file_entry. The name is the buffer without its terminating NUL.
  class FileEntry {
    var header: FileHeader
    var name: Name

    constructor (header: FileHeader, name: Name)
      ensures this.header == header && this.name == name
    {
      this.header, this.name := header, name;
    }
  }

  // struct directory_entry
  class DirectoryEntry {
    var header: DirectoryHeader
    var name: Name

    constructor (header: DirectoryHeader, name: Name)
      ensures this.header == header && this.name == name
    {
      this.header, this.name := header, name;
    }
  }

  datatype FsType = FsTypeDirectory | FsTypeFile

  // struct fs_entry; the union of the two entry pointers is kept as two nullable fields.
  class FsEntry {
    var kind: FsType
    var directory: DirectoryEntry?
    var file: FileEntry?
    var children: array?<FsEntry>

    ghost var tree: Entry

    constructor ()
    {
      kind, directory, file, children := FsTypeFile, null, null, null;
      tree := File([], Extent(0, 0));
    }
  }

  // The fields of one entry agree with the tree it stands for; what it points at is in S.
  ghost predicate Agrees(e: FsEntry, S: set<object>)
    requires e in S
    reads S
  {
    && (e.kind.FsTypeFile? ==>
          && e.file != null && e.file in S && e.children == null
          && e.tree == File(e.file.name, Extent(e.file.header.fileSize, e.file.header.startSector))
          && e.file.header.nameLength == |e.file.name|)
    && (e.kind.FsTypeDirectory? ==>
          && e.directory != null && e.directory in S && e.children != null && e.children in S
          && e.tree.Directory? && e.tree.name == e.directory.name && |e.tree.children| == e.children.Length
          && e.directory.header.nameLength == |e.directory.name|
          && e.directory.header.childrenCount == e.children.Length
          && forall i :: 0 <= i < e.children.Length ==>
               e.children[i] in S && e.children[i].tree == e.tree.children[i])
  }

  // Every entry of S stands for its tree. As trees are finite values and a child stands for a part
  // of its parent's tree, the structure below any entry of S is finite and acyclic.
  ghost predicate Represents(S: set<object>)
    reads S
  {
    forall e: FsEntry :: e in S ==> Agrees(e, S)
  }

  // The outcome of a parse without the parsed value.
  function Outcome<T>(p: Parse<T>): (r: Parse<()>) {
    match p
    case Parsed(_, n) => Parsed((), n)
    case AssertionFailed => AssertionFailed
    case Truncated => Truncated
  }

  // A pointer into the input buffer is the part of the buffer from there on.
  method ParseFileEntry(buffer: seq<byte>, result: FsEntry) returns (r: Parse<()>, ghost S: set<object>)
    modifies result
    ensures r == Outcome(ParseFile(buffer))
    ensures r.Parsed? ==> result in S && fresh(S - {result}) && Represents(S)
    ensures r.Parsed? ==> result.tree == ParseFile(buffer).value
  {
    S := {};
    if |buffer| < 11 {
      return Truncated, S;
    }
    var current := 1;
    var header := FileHeader(ReadU16(buffer[current..]), ReadU32(buffer[current + 2..]),
                             ReadU32(buffer[current + 6..]));
    current := current + 10;
    if |buffer| - current < header.nameLength {
      return Truncated, S;
    }
    var name := buffer[current..current + header.nameLength];
    current := current + header.nameLength;
    var entry := new FileEntry(header, name);
    result.kind := FsTypeFile;
    result.file := entry;
    result.children := null;
    result.tree := File(name, Extent(header.fileSize, header.startSector));
    return Parsed((), current), {result, entry};
  }

  // kalloc(count, sizeof(fs_entry)): count fresh entries.
  method AllocateEntries(count: nat) returns (entries: array<FsEntry>, ghost all: set<object>)
    ensures fresh(entries) && fresh(all) && entries.Length == count
    ensures forall i :: 0 <= i < count ==> entries[i] in all
    ensures forall i, j :: 0 <= i < j < count ==> entries[i] != entries[j]
  {
    var blank := new FsEntry();
    entries := new FsEntry[count](_ => blank);
    all := {};
    for k := 0 to count
      invariant fresh(all) && blank !in all
      invariant forall i :: 0 <= i < k ==> entries[i] in all
      invariant forall i, j :: 0 <= i < j < k ==> entries[i] != entries[j]
    {
      var entry := new FsEntry();
      entries[k] := entry;
      all := all + {entry};
    }
  }

  // Continuing a parse of children after a first part of them.
  function After(front: seq<Entry>, n: nat, rest: Parse<seq<Entry>>): (r: Parse<seq<Entry>>) {
    match rest
    case Parsed(children, m) => Parsed(front + children, n + m)
    case AssertionFailed => AssertionFailed
    case Truncated => Truncated
  }

  // A loop that has parsed trees up to the cursor, with left children to go, ends in body.
  ghost predicate LeadsTo(body: Parse<seq<Entry>>, b: seq<byte>, current: nat, left: nat, trees: seq<Entry>)
  {
    current <= |b| && body == After(trees, current, ParseChildren(b[current..], left))
  }

  // Parsing the child at the cursor moves it from what remains to the front.
  lemma LeadsToOneMore(body: Parse<seq<Entry>>, b: seq<byte>, current: nat, left: nat, trees: seq<Entry>,
                       child: Parse<()>)
    requires left > 0 && LeadsTo(body, b, current, left, trees) && child == Outcome(ParseEntry(b[current..]))
    ensures !child.Parsed? ==> child == Outcome(body)
    ensures child.Parsed? ==>
      LeadsTo(body, b, current + child.consumed, left - 1, trees + [ParseEntry(b[current..]).value])
  {
    if child.Parsed? {
      var head := ParseEntry(b[current..]).value;
      assert b[current..][child.consumed..] == b[current + child.consumed..];
      var tail := ParseChildren(b[current + child.consumed..], left - 1);
      if tail.Parsed? {
        assert trees + ([head] + tail.value) == trees + [head] + tail.value;
      }
    }
  }

  lemma LeadsToStart(b: seq<byte>, count: nat)
    ensures LeadsTo(ParseChildren(b, count), b, 0, count, [])
  {
    var body := ParseChildren(b, count);
    assert b[0..] == b;
    if body.Parsed? {
      assert [] + body.value == body.value;
    }
  }

  lemma LeadsToEnd(body: Parse<seq<Entry>>, b: seq<byte>, current: nat, trees: seq<Entry>)
    requires LeadsTo(body, b, current, 0, trees)
    ensures body == Parsed(trees, current)
  {
    assert trees + [] == trees;
  }

  method ParseDirectoryEntry(buffer: seq<byte>, result: FsEntry) returns (r: Parse<()>, ghost S: set<object>)
    modifies result
    ensures r == Outcome(ParseDirectory(buffer))
    ensures r.Parsed? ==> result in S && fresh(S - {result}) && Represents(S)
    ensures r.Parsed? ==> result.kind.FsTypeDirectory? && result.tree == ParseDirectory(buffer).value
    decreases |buffer|, 0
  {
    S := {};
    if |buffer| < 5 {
      return Truncated, S;
    }
    var current := 1;
    var header := DirectoryHeader(ReadU16(buffer[current..]), ReadU16(buffer[current + 2..]));
    current := current + 4;
    if |buffer| - current < header.nameLength {
      return Truncated, S;
    }
    var name := buffer[current..current + header.nameLength];
    current := current + header.nameLength;
    var entry := new DirectoryEntry(header, name);
    var children, all := AllocateEntries(header.childrenCount);
    r, S := ParseChildEntries(buffer[current..], children, all);
    DirectoryFromChildren(buffer, name, current, children.Length);
    if r.Parsed? {
      S := FillDirectory(result, entry, children, ParseChildren(buffer[current..], children.Length).value, S);
      r := Parsed((), current + r.consumed);
    }
  }

  // What the parse of a directory is, given the parse of its children.
  lemma DirectoryFromChildren(b: seq<byte>, name: Name, start: nat, count: nat)
    requires |b| >= 5 && start == 5 + ReadU16(b[1..]) <= |b|
    requires name == b[5..start] && count == ReadU16(b[3..])
    ensures var body := ParseChildren(b[start..], count);
            Outcome(ParseDirectory(b)) == (if body.Parsed? then Parsed((), start + body.consumed) else Outcome(body))
            && (body.Parsed? ==> ParseDirectory(b).value == Directory(name, body.value))
  {
  }

  method FillDirectory(result: FsEntry, entry: DirectoryEntry, children: array<FsEntry>,
                       ghost trees: seq<Entry>, ghost below: set<object>)
    returns (ghost S: set<object>)
    requires children.Length == |trees| && FilledIn(children[..], trees, below) && result !in below
    requires entry.header.nameLength == |entry.name| && entry.header.childrenCount == children.Length
    modifies result
    ensures S == {result, entry, children} + below && Represents(S)
    ensures result.kind.FsTypeDirectory? && result.tree == Directory(entry.name, trees)
  {
    result.kind := FsTypeDirectory;
    result.directory := entry;
    result.children := children;
    result.tree := Directory(entry.name, trees);
    S := {result, entry, children} + below;
    forall e: FsEntry | e in S ensures Agrees(e, S) {
      if e == result {
        assert forall i :: 0 <= i < children.Length ==> children[..][i] in S;
      } else {
        assert Agrees(e, below);
      }
    }
  }

  // The first |trees| entries of a child array have been filled in with trees, using the objects
  // in S; the others are still untouched.
  ghost predicate FilledIn(kids: seq<FsEntry>, trees: seq<Entry>, S: set<object>)
    reads kids, S
  {
    && |trees| <= |kids| && Represents(S)
    && (forall j :: 0 <= j < |trees| ==> kids[j] in S && kids[j].tree == trees[j])
    && (forall j :: |trees| <= j < |kids| ==> kids[j] !in S)
  }

  lemma RepresentsUnion(S: set<object>, T: set<object>)
    requires Represents(S) && Represents(T)
    ensures Represents(S + T)
  {
  }

  // The loop over the children, filling the array from left to right.
  method ParseChildEntries(buffer: seq<byte>, children: array<FsEntry>, ghost frame: set<object>)
    returns (r: Parse<()>, ghost S: set<object>)
    requires forall i :: 0 <= i < children.Length ==> children[i] in frame
    requires forall i, j :: 0 <= i < j < children.Length ==> children[i] != children[j]
    modifies children[..]
    ensures r == Outcome(ParseChildren(buffer, children.Length))
    ensures children[..] == old(children[..])
    ensures fresh(S - frame)
    ensures r.Parsed? ==> FilledIn(children[..], ParseChildren(buffer, children.Length).value, S)
    decreases |buffer|, 3
  {
    var current: nat := 0;
    ghost var kids, trees := children[..], [];
    ghost var body, left := ParseChildren(buffer, |kids|), |kids|;
    S := {};
    LeadsToStart(buffer, |kids|);
    for i := 0 to children.Length
      invariant current <= |buffer| && |trees| == i
      invariant children[..] == kids
      invariant left == |kids| - i && LeadsTo(body, buffer, current, left, trees)
      invariant fresh(S - frame)
      invariant FilledIn(kids, trees, S)
    {
      r, trees, S := ParseNextChild(buffer, current, children[i], body, left, kids, trees, S);
      if !r.Parsed? {
        return;
      }
      current, left := current + r.consumed, left - 1;
    }
    LeadsToEnd(body, buffer, current, trees);
    r := Parsed((), current);
  }

  // The body of that loop: fill entry i.
  method ParseNextChild(buffer: seq<byte>, current: nat, child: FsEntry, ghost body: Parse<seq<Entry>>, ghost left: nat,
                        ghost kids: seq<FsEntry>, ghost trees: seq<Entry>, ghost S: set<object>)
    returns (r: Parse<()>, ghost more: seq<Entry>, ghost S': set<object>)
    requires current <= |buffer| && |trees| + left == |kids| && left > 0 && child == kids[|trees|]
    requires forall j, k :: 0 <= j < k < |kids| ==> kids[j] != kids[k]
    requires LeadsTo(body, buffer, current, left, trees) && FilledIn(kids, trees, S)
    modifies child
    ensures !r.Parsed? ==> r == Outcome(body)
    ensures r.Parsed? ==> |more| == |trees| + 1 && LeadsTo(body, buffer, current + r.consumed, left - 1, more)
    ensures S <= S' && fresh(S' - S - {child})
    ensures r.Parsed? ==> FilledIn(kids, more, S')
    decreases |buffer| - current, 2
  {
    r, S' := ParseEntryByTag(buffer[current..], child);
    LeadsToOneMore(body, buffer, current, left, trees, r);
    if r.Parsed? {
      more := trees + [ParseEntry(buffer[current..]).value];
      RepresentsUnion(S, S');
      S' := S + S';
    } else {
      more, S' := trees, S;
    }
  }

  // Dispatch on the tag byte.
  method ParseEntryByTag(buffer: seq<byte>, result: FsEntry) returns (r: Parse<()>, ghost S: set<object>)
    modifies result
    ensures r == Outcome(ParseEntry(buffer))
    ensures |buffer| > 0 && buffer[0] > 1 ==> r == AssertionFailed
    ensures r.Parsed? ==> result in S && fresh(S - {result}) && Represents(S)
    ensures r.Parsed? ==> result.tree == ParseEntry(buffer).value
    decreases |buffer|, 1
  {
    S := {};
    if |buffer| == 0 {
      return Truncated, S;
    }
    if buffer[0] == FS_TYPE_DIRECTORY {
      r, S := ParseDirectoryEntry(buffer, result);
    } else if buffer[0] == FS_TYPE_FILE {
      r, S := ParseFileEntry(buffer, result);
    } else {
      return AssertionFailed, S;
    }
  }

  // epicfs_parse: the root entry, with the objects below it.
  method ParseRoot(buffer: seq<byte>) returns (root: FsEntry, r: Parse<()>, ghost S: set<object>)
    ensures r == Outcome(ParseDirectory(buffer))
    ensures r.Parsed? ==> root in S && Represents(S) && fresh(S)
    ensures r.Parsed? ==> root.kind.FsTypeDirectory? && root.tree == ParseDirectory(buffer).value
  {
    root := new FsEntry();
    r, S := ParseDirectoryEntry(buffer, root);
  }

  // epicfs_parse_from_ata: the outcome, by the two size bytes on the disk.
  method ParseFromAta(disk: seq<byte>, sector: nat) returns (root: FsEntry?, r: Parse<()>, ghost S: set<object>)
    ensures r == Outcome(Mount(disk, sector))
    ensures r.Parsed? ==> root != null && root in S && Represents(S) && fresh(S)
    ensures r.Parsed? ==> root.kind.FsTypeDirectory? && root.tree == Mount(disk, sector).value
    ensures |disk| < sector * 512 + 2 ==> r == Truncated
    ensures |disk| >= sector * 512 + 2 ==>
      var size := (disk[sector * 512] as int) + 0x100 * (disk[sector * 512 + 1] as int);
      r == if size == 0 then AssertionFailed
           else if |disk| < (sector + size) * 512 then Truncated
           else Outcome(ParseDirectory(disk[sector * 512 + 2..(sector + size) * 512]))
  {
    root, S := null, {};
    if |disk| < sector * 512 + 2 {
      return root, Truncated, S;
    }
    var headerSize: nat := ReadU16(AtaRead(disk, sector, 2));
    if headerSize == 0 {
      return root, AssertionFailed, S;
    }
    if |disk| < (sector + headerSize) * 512 {
      return root, Truncated, S;
    }
    assert AtaRead(disk, sector, headerSize * 512)[2..] == disk[sector * 512 + 2..(sector + headerSize) * 512];
    root, r, S := ParseRoot(AtaRead(disk, sector, headerSize * 512)[2..]);
  }
}
