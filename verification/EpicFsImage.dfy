// A whole EpicFS image: the entry writers and the content layout of elf/epicfs.c driven over a
// tree. The repository has no such driver; this is the one its functions are made for: create an
// entry per file and directory, lay out the contents behind the metadata, then write the header
// and the entries in preorder.
module EpicFsImage {
  import opened Bytes
  import opened EpicFsFormat
  import opened EpicFsParser
  import opened EpicFsWriter
  import opened EpicFsLayout

  // What the interface of the creation functions can express: C string names with 16-bit lengths,
  // 16-bit child counts and 16-bit file sizes.
  predicate Storable(r: Record<Contents>) {
    Fits(r) && 0 !in r.name && (r.FileRecord? ==> |r.data| < 0x1_0000)
  }

  predicate AllStorable(rs: seq<Record<Contents>>) {
    forall i :: 0 <= i < |rs| ==> Storable(rs[i])
  }

  // The created structures of one entry; a file's contents are kept beside it.
  datatype Item =
    | DirectoryItem(directory: DirectoryEntry)
    | FileItem(file: FileEntry, contents: Contents)

  ghost function Object(item: Item): (o: object) {
    match item
    case DirectoryItem(directory) => directory
    case FileItem(file, _) => file
  }

  ghost function Objects(items: seq<Item>): (s: set<object>) {
    set i | 0 <= i < |items| :: Object(items[i])
  }

  // The item was created for this entry; only its start sector is still open.
  ghost predicate Made(item: Item, r: Record<Contents>)
    reads Object(item)
  {
    match r
    case DirectoryRecord(name, count) =>
      && item.DirectoryItem? && item.directory.name == name
      && item.directory.header.nameLength == |name| && item.directory.header.childrenCount == count
    case FileRecord(name, contents) =>
      && item.FileItem? && item.contents == contents && item.file.name == name
      && item.file.header.nameLength == |name| && item.file.header.fileSize == |contents|
  }

  ghost predicate AllMade(items: seq<Item>, rs: seq<Record<Contents>>)
    reads Objects(items)
  {
    && |items| == |rs|
    && (forall i :: 0 <= i < |rs| ==> Made(items[i], rs[i]))
    && (forall i, j :: 0 <= i < j < |rs| ==> Object(items[i]) != Object(items[j]))
  }

  method CreateEntry(r: Record<Contents>) returns (item: Item, size: nat)
    requires Storable(r)
    ensures Made(item, r) && fresh(Object(item))
    ensures size == RecordSize(r) + if r.FileRecord? then |r.data| else 0
  {
    match r
    case DirectoryRecord(name, count) =>
      var directory;
      size, directory := CreateDirectoryEntry(name, count);
      item := DirectoryItem(directory);
    case FileRecord(name, contents) =>
      var file;
      size, file := CreateFileEntry(name, |contents|);
      item := FileItem(file, contents);
  }

  // Creating all entries. The returned sizes add up to the bytes of the entries and of the files.
  method CreateEntries(rs: seq<Record<Contents>>) returns (items: seq<Item>, size: nat)
    requires AllStorable(rs)
    ensures AllMade(items, rs) && forall i :: 0 <= i < |items| ==> fresh(Object(items[i]))
    ensures size == RecordsSize(rs) + ContentBytes(rs)
  {
    items, size := [], 0;
    for i := 0 to |rs|
      invariant |items| == i && forall k :: 0 <= k < i ==> fresh(Object(items[k])) && Made(items[k], rs[k])
      invariant forall j, k :: 0 <= j < k < i ==> Object(items[j]) != Object(items[k])
      invariant size + RecordsSize(rs[i..]) + ContentBytes(rs[i..]) == RecordsSize(rs) + ContentBytes(rs)
    {
      var item, created := CreateEntry(rs[i]);
      assert rs[i..][1..] == rs[i + 1..];
      items := items + [item];
      size := size + created;
    }
  }

  // A file's start sector is the one the layout assigns to it.
  ghost predicate Placed(item: Item, p: Record<Extent>)
    reads Object(item)
  {
    item.FileItem? ==> p.FileRecord? && item.file.header.startSector == p.data.startSector
  }

  // The contents of the first i entries have been laid out; now, end is where the layout stands.
  ghost predicate LaidSoFar(was: seq<byte>, rs: seq<Record<Contents>>, start: nat, i: nat, now: seq<byte>, end: nat)
    requires EndOffset(rs, start) <= |was| < ADDRESS_SPACE
  {
    && i <= |rs| && |now| == |was|
    && EndOffset(rs[i..], end) == EndOffset(rs, start)
    && Place(rs[i..], end) == Place(rs, start)[i..]
    && Laid(now, rs[i..], end) == Laid(was, rs, start)
  }

  lemma LaidNone(was: seq<byte>, rs: seq<Record<Contents>>, start: nat)
    requires EndOffset(rs, start) <= |was| < ADDRESS_SPACE
    ensures LaidSoFar(was, rs, start, 0, was, start)
  {
    assert rs[0..] == rs && Place(rs, start)[0..] == Place(rs, start);
  }

  lemma LaidAll(was: seq<byte>, rs: seq<Record<Contents>>, start: nat, now: seq<byte>, end: nat)
    requires EndOffset(rs, start) <= |was| < ADDRESS_SPACE
    requires LaidSoFar(was, rs, start, |rs|, now, end)
    ensures now == Laid(was, rs, start) && end == EndOffset(rs, start)
  {
    assert rs[|rs|..] == [];
  }

  lemma LaidOneMore(was: seq<byte>, rs: seq<Record<Contents>>, start: nat, i: nat, now: seq<byte>, end: nat)
    requires EndOffset(rs, start) <= |was| < ADDRESS_SPACE
    requires LaidSoFar(was, rs, start, i, now, end) && i < |rs|
    ensures NextOffset(rs[i], end) <= |was| && Place(rs, start)[i] == PlaceRecord(rs[i], end)
    ensures LaidSoFar(was, rs, start, i + 1, LayRecord(now, rs[i], end), NextOffset(rs[i], end))
  {
    var rest, next := rs[i..], NextOffset(rs[i], end);
    assert rest[0] == rs[i] && rest[1..] == rs[i + 1..];
    assert EndOffset(rest, end) == EndOffset(rs[i + 1..], next);
    assert Place(rest, end)[1..] == Place(rs[i + 1..], next);
    assert Place(rs, start)[i..][1..] == Place(rs, start)[i + 1..];
    assert Place(rest, end)[0] == PlaceRecord(rs[i], end);
  }

  method LayOutItem(item: Item, buffer: array<byte>, offset: nat, ghost r: Record<Contents>) returns (end: nat)
    requires Made(item, r) && NextOffset(r, offset) <= buffer.Length < ADDRESS_SPACE
    modifies buffer, Object(item)
    ensures Made(item, r) && end == NextOffset(r, offset)
    ensures buffer[..] == LayRecord(old(buffer[..]), r, offset)
    ensures Placed(item, PlaceRecord(r, offset))
  {
    end := offset;
    if item.FileItem? {
      var contents := item.contents;
      assert contents[..item.file.header.fileSize] == contents;
      var advance := WriteFileContents(contents, item.file, buffer, offset);
      end := offset + advance;
    }
  }

  // The body of the loop below: item i is laid out, the others keep what they have.
  method LayOutNext(items: seq<Item>, i: nat, buffer: array<byte>, offset: nat,
                    ghost rs: seq<Record<Contents>>, ghost ps: seq<Record<Extent>>)
    returns (end: nat)
    requires AllMade(items, rs) && i < |items| == |ps| && NextOffset(rs[i], offset) <= buffer.Length < ADDRESS_SPACE
    requires ps[i] == PlaceRecord(rs[i], offset) && forall k :: 0 <= k < i ==> Placed(items[k], ps[k])
    modifies buffer, Object(items[i])
    ensures AllMade(items, rs) && forall k :: 0 <= k <= i ==> Placed(items[k], ps[k])
    ensures end == NextOffset(rs[i], offset)
    ensures buffer[..] == LayRecord(old(buffer[..]), rs[i], offset)
  {
    assert forall k :: 0 <= k < |items| && k != i ==> Object(items[k]) != Object(items[i]);
    end := LayOutItem(items[i], buffer, offset, rs[i]);
  }

  // Writing the contents of all files, threading the offset.
  method LayOutContents(items: seq<Item>, buffer: array<byte>, start: nat, ghost rs: seq<Record<Contents>>)
    returns (end: nat)
    requires AllMade(items, rs)
    requires EndOffset(rs, start) <= buffer.Length < ADDRESS_SPACE
    modifies buffer, Objects(items)
    ensures AllMade(items, rs) && forall i :: 0 <= i < |items| ==> Placed(items[i], Place(rs, start)[i])
    ensures buffer[..] == Laid(old(buffer[..]), rs, start)
    ensures end == EndOffset(rs, start)
  {
    end := start;
    ghost var was, ps := buffer[..], Place(rs, start);
    LaidNone(was, rs, start);
    for i := 0 to |items|
      invariant AllMade(items, rs)
      invariant LaidSoFar(was, rs, start, i, buffer[..], end)
      invariant forall k :: 0 <= k < i ==> Placed(items[k], ps[k])
    {
      LaidOneMore(was, rs, start, i, buffer[..], end);
      end := LayOutNext(items, i, buffer, end, rs, ps);
    }
    LaidAll(was, rs, start, buffer[..], end);
  }

  // The entry p is the entry r with, for a file, the extent its item has been given.
  ghost predicate Matches(item: Item, r: Record<Contents>, p: Record<Extent>)
    reads Object(item)
  {
    && Made(item, r) && Fits(p) && p.name == r.name
    && (r.DirectoryRecord? ==> p == DirectoryRecord(r.name, r.count))
    && (r.FileRecord? ==> p.FileRecord? && p.data == Extent(|r.data|, item.file.header.startSector))
  }

  method WriteEntry(item: Item, buffer: array<byte>, at: nat, ghost r: Record<Contents>, ghost p: Record<Extent>)
    returns (written: nat)
    requires Matches(item, r, p)
    requires at + RecordSize(p) <= buffer.Length
    modifies buffer
    ensures written == RecordSize(p) && buffer[..] == Splice(old(buffer[..]), at, RecordBytes(p))
  {
    match item
    case DirectoryItem(directory) =>
      assert directory.name[..directory.header.nameLength] == r.name;
      written := WriteDirectoryEntry(directory, buffer, at);
    case FileItem(file, _) =>
      assert file.name[..file.header.nameLength] == r.name;
      written := WriteFileEntry(file, buffer, at);
  }

  lemma TakeOneMore(ps: seq<Record<Extent>>, i: nat)
    requires i < |ps| && AllFit(ps)
    ensures AllFit(ps[..i]) && AllFit(ps[..i + 1])
    ensures RecordsBytes(ps[..i + 1]) == RecordsBytes(ps[..i]) + RecordBytes(ps[i])
  {
    var one := [ps[i]];
    assert ps[..i + 1] == ps[..i] + one;
    RecordsBytesConcat(ps[..i], one);
    assert one[1..] == [];
    assert RecordsBytes(one) == RecordBytes(ps[i]) + RecordsBytes([]);
  }

  lemma {:induction false} TakeSize<T>(ps: seq<Record<T>>, i: nat)
    requires i <= |ps|
    ensures RecordsSize(ps[..i]) <= RecordsSize(ps)
  {
    if i > 0 {
      assert ps[..i][1..] == ps[1..][..i - 1];
      TakeSize(ps[1..], i - 1);
    }
  }

  // The first i entries have been written behind start; now, written is where the writing stands.
  ghost predicate WrittenSoFar(was: seq<byte>, ps: seq<Record<Extent>>, start: nat, i: nat,
                               now: seq<byte>, written: nat)
    requires AllFit(ps) && start + RecordsSize(ps) <= |was|
  {
    && i <= |ps| && AllFit(ps[..i]) && written == RecordsSize(ps[..i]) <= RecordsSize(ps)
    && now == Splice(was, start, RecordsBytes(ps[..i]))
  }

  lemma WrittenNone(was: seq<byte>, ps: seq<Record<Extent>>, start: nat)
    requires AllFit(ps) && start + RecordsSize(ps) <= |was|
    ensures WrittenSoFar(was, ps, start, 0, was, 0)
  {
  }

  lemma WrittenOneMore(was: seq<byte>, ps: seq<Record<Extent>>, start: nat, i: nat, now: seq<byte>, written: nat)
    requires AllFit(ps) && start + RecordsSize(ps) <= |was|
    requires WrittenSoFar(was, ps, start, i, now, written) && i < |ps|
    ensures start + written + RecordSize(ps[i]) <= |was|
    ensures WrittenSoFar(was, ps, start, i + 1,
                         Splice(now, start + written, RecordBytes(ps[i])), written + RecordSize(ps[i]))
  {
    TakeOneMore(ps, i);
    TakeSize(ps, i + 1);
    SpliceSplice(was, start, RecordsBytes(ps[..i]), RecordBytes(ps[i]));
  }

  lemma WrittenAll(was: seq<byte>, ps: seq<Record<Extent>>, start: nat, now: seq<byte>, written: nat)
    requires AllFit(ps) && start + RecordsSize(ps) <= |was|
    requires WrittenSoFar(was, ps, start, |ps|, now, written)
    ensures written == RecordsSize(ps) && now == Splice(was, start, RecordsBytes(ps))
  {
    assert ps[..|ps|] == ps;
  }

  // The body of the loop below: entry i is written behind the ones before it.
  method WriteNext(item: Item, i: nat, buffer: array<byte>, start: nat, written: nat, ghost was: seq<byte>,
                   ghost r: Record<Contents>, ghost ps: seq<Record<Extent>>)
    returns (now: nat)
    requires AllFit(ps) && i < |ps| && Matches(item, r, ps[i]) && start + RecordsSize(ps) <= |was|
    requires WrittenSoFar(was, ps, start, i, buffer[..], written)
    modifies buffer
    ensures WrittenSoFar(was, ps, start, i + 1, buffer[..], now)
  {
    WrittenOneMore(was, ps, start, i, buffer[..], written);
    var n := WriteEntry(item, buffer, start + written, r, ps[i]);
    now := written + n;
  }

  method WriteEntries(items: seq<Item>, buffer: array<byte>, start: nat,
                      ghost rs: seq<Record<Contents>>, ghost ps: seq<Record<Extent>>)
    returns (written: nat)
    requires |items| == |rs| == |ps| && AllFit(ps)
    requires forall i :: 0 <= i < |items| ==> Matches(items[i], rs[i], ps[i])
    requires start + RecordsSize(ps) <= buffer.Length
    modifies buffer
    ensures written == RecordsSize(ps)
    ensures buffer[..] == Splice(old(buffer[..]), start, RecordsBytes(ps))
  {
    written := 0;
    ghost var was := buffer[..];
    WrittenNone(was, ps, start);
    for i := 0 to |items|
      invariant forall k :: i <= k < |items| ==> Matches(items[k], rs[k], ps[k])
      invariant WrittenSoFar(was, ps, start, i, buffer[..], written)
    {
      written := WriteNext(items[i], i, buffer, start, written, was, rs[i], ps);
    }
    WrittenAll(was, ps, start, buffer[..], written);
  }

  // ---- The image ------------------------------------------------------------------------------

  // The header and all entries.
  function MetadataSize(t: Tree<Contents>): (n: nat) {
    2 + RecordsSize(Preorder(t))
  }

  // What the 16- and 32-bit fields, and a buffer of this capacity, have room for.
  ghost predicate FitsImage(t: Tree<Contents>, capacity: nat) {
    && t.Directory? && AllStorable(Preorder(t))
    && SectorsFor(MetadataSize(t)) < 0x1_0000
    && SectorsFor(MetadataSize(t)) * 512 <= capacity < ADDRESS_SPACE
    && TreeEnd(t, MetadataSize(t)) <= capacity
  }

  // The root as it is written: contents laid out behind the metadata.
  ghost function PlacedRoot(t: Tree<Contents>, capacity: nat): (e: Entry)
    requires FitsImage(t, capacity)
  {
    PlaceTree(t, MetadataSize(t))
  }

  lemma PlacedRecords(rs: seq<Record<Contents>>, offset: nat, i: nat)
    requires i < |rs| && EndOffset(rs, offset) < ADDRESS_SPACE
    ensures var r, p := rs[i], Place(rs, offset)[i];
            && p.name == r.name && (r.DirectoryRecord? ==> p == DirectoryRecord(r.name, r.count))
            && (r.FileRecord? ==> p.FileRecord? && p.data.size == |r.data|)
  {
    PlaceAt(rs, offset, i);
  }

  lemma {:induction false} PlacedSize(rs: seq<Record<Contents>>, offset: nat)
    requires EndOffset(rs, offset) < ADDRESS_SPACE
    ensures RecordsSize(Place(rs, offset)) == RecordsSize(rs)
  {
    if rs != [] {
      PlacedSize(rs[1..], NextOffset(rs[0], offset));
      assert Place(rs, offset)[1..] == Place(rs[1..], NextOffset(rs[0], offset));
    }
  }

  // The placed entries are encodable, take as many bytes as planned, and are written as the
  // serialisation of the placed tree.
  lemma PlacedRootSerialises(t: Tree<Contents>, capacity: nat)
    requires FitsImage(t, capacity)
    ensures var m := MetadataSize(t);
            && TreeEnd(t, m) == EndOffset(Preorder(t), m)
            && var ps := Place(Preorder(t), m);
            && AllFit(ps) && Encodable(PlacedRoot(t, capacity))
            && RecordsBytes(ps) == Serialise(PlacedRoot(t, capacity)) && RecordsSize(ps) == m - 2
  {
    var rs, m := Preorder(t), MetadataSize(t);
    PlaceInPreorder(t, m);
    var ps := Place(rs, m);
    forall i | 0 <= i < |ps| ensures Fits(ps[i]) {
      assert Storable(rs[i]);
      PlacedRecords(rs, m, i);
    }
    EncodableInPreorder(PlaceTree(t, m));
    SerialiseInPreorder(PlaceTree(t, m));
    PlacedSize(rs, m);
  }

  // The finished image: contents, then in front of them the header and the entries.
  ghost function Image(was: seq<byte>, t: Tree<Contents>): (image: seq<byte>)
    requires FitsImage(t, |was|)
    ensures |image| == |was|
  {
    PlacedRootSerialises(t, |was|);
    var m := MetadataSize(t);
    Splice(Laid(was, Preorder(t), m), 0, U16Bytes(SectorsFor(m)) + Serialise(PlacedRoot(t, |was|)))
  }

  // Mounting the image parses exactly the entries that were written.
  lemma ImageMounts(was: seq<byte>, t: Tree<Contents>)
    requires FitsImage(t, |was|)
    ensures Mount(Image(was, t), 0) == Parsed(PlacedRoot(t, |was|), MetadataSize(t) - 2)
    ensures MountSectors(Image(was, t), 0, SectorsFor(MetadataSize(t))) == Mount(Image(was, t), 0)
  {
    PlacedRootSerialises(t, |was|);
    MountsHeader(Image(was, t), SectorsFor(MetadataSize(t)), PlacedRoot(t, |was|));
  }

  // A disk that starts with a header and a root directory mounts as that directory, provided the
  // sectors the header declares cover it.
  lemma MountsHeader(b: seq<byte>, size: u16, root: Entry)
    requires Encodable(root) && root.Directory?
    requires var m := 2 + |Serialise(root)|;
             m <= size * 512 <= |b| && b[..m] == U16Bytes(size) + Serialise(root)
    ensures Mount(b, 0) == MountSectors(b, 0, size) == Parsed(root, |Serialise(root)|)
  {
    HeaderAndBody(b, U16Bytes(size), Serialise(root), size as nat * 512);
    U16RoundTrip(size, []);
    MountsSectors(b, size, root);
  }

  lemma MountsSectors(b: seq<byte>, size: nat, root: Entry)
    requires Encodable(root) && root.Directory?
    requires var m := 2 + |Serialise(root)|;
             m <= size * 512 <= |b| && AtaRead(b, 0, size * 512)[2..] == Serialise(root) + b[m..size * 512]
    ensures MountSectors(b, 0, size) == Parsed(root, |Serialise(root)|)
  {
    var rest := b[2 + |Serialise(root)|..size * 512];
    MountsBody(b, size, Serialise(root) + rest);
    RootParses(root, rest);
  }

  lemma MountsBody(b: seq<byte>, size: nat, body: seq<byte>)
    requires 0 < size && size * 512 <= |b| && AtaRead(b, 0, size * 512)[2..] == body
    ensures MountSectors(b, 0, size) == ParseDirectory(body)
  {
  }

  lemma RootParses(root: Entry, rest: seq<byte>)
    requires Encodable(root) && root.Directory?
    ensures ParseDirectory(Serialise(root) + rest) == Parsed(root, |Serialise(root)|)
  {
    ParseUndoesSerialise(root, rest);
  }

  lemma HeaderAndBody(b: seq<byte>, header: seq<byte>, body: seq<byte>, n: nat)
    requires |header| == 2 && 2 + |body| <= n <= |b| && b[..2 + |body|] == header + body
    ensures AtaRead(b, 0, 2) == header + [] && AtaRead(b, 0, n)[2..] == body + b[2 + |body|..n]
  {
    var m := 2 + |body|;
    assert b[..n] == b[..m] + b[m..n];
    assert b[..2] == b[..m][..2];
  }

  // Behind every entry of the image lie that file's contents.
  lemma ImageStores(was: seq<byte>, t: Tree<Contents>)
    requires FitsImage(t, |was|)
    ensures Stores(Image(was, t), PlacedRoot(t, |was|), t)
  {
    PlacedRootSerialises(t, |was|);
    var b, m, rs := Image(was, t), MetadataSize(t), Preorder(t);
    var laid := Laid(was, rs, m);
    assert b[m..] == laid[m..];
    forall i | 0 <= i < |rs| && rs[i].FileRecord?
      ensures Place(rs, m)[i].FileRecord? && HoldsFile(b, Place(rs, m)[i].data, rs[i].data)
    {
      LaidStoresEach(was, rs, m, i);
      var e := Place(rs, m)[i].data;
      SliceOfSuffix(b, laid, m, e.startSector * 512, e.startSector * 512 + e.size);
    }
    HoldsFromEach(b, rs, m);
    StoresPlaced(b, t, m);
  }

  lemma SliceOfSuffix<T>(a: seq<T>, b: seq<T>, m: nat, from: nat, to: nat)
    requires |a| == |b| && m <= from <= to <= |a| && a[m..] == b[m..]
    ensures a[from..to] == b[from..to]
  {
  }

  // Writing an image; the result is the end of the last file. The sizes the creation functions
  // return bound it: alignment adds at most 511 bytes a file.
  method WriteImage(t: Tree<Contents>, buffer: array<byte>) returns (end: nat, ghost created: nat)
    requires FitsImage(t, buffer.Length)
    modifies buffer
    ensures buffer[..] == Image(old(buffer[..]), t)
    ensures Mount(buffer[..], 0) == Parsed(PlacedRoot(t, buffer.Length), MetadataSize(t) - 2)
    ensures Stores(buffer[..], PlacedRoot(t, buffer.Length), t)
    ensures created == RecordsSize(Preorder(t)) + ContentBytes(Preorder(t))
    ensures 2 + created <= end <= 2 + created + 511 * FileCount(Preorder(t)) && end <= buffer.Length
  {
    var rs := Preorder(t);
    ghost var was := buffer[..];
    PlacedRootSerialises(t, buffer.Length);
    var items, size := CreateEntries(rs);
    created := size;
    var metadata := 2 + size - ContentBytes(rs);
    ghost var ps := Place(rs, metadata);
    EndOffsetBound(rs, metadata);
    end := LayOutContents(items, buffer, metadata, rs);
    var at := WriteFsHeader(SectorsFor(metadata), buffer, 0);
    forall i | 0 <= i < |rs| ensures Matches(items[i], rs[i], ps[i]) {
      PlacedRecords(rs, metadata, i);
    }
    var written := WriteEntries(items, buffer, at, rs, ps);
    SpliceSplice(Laid(was, rs, metadata), 0, U16Bytes(SectorsFor(metadata)), RecordsBytes(ps));
    ImageMounts(was, t);
    ImageStores(was, t);
  }

  // The C code reads the header size as (uint16)*ata_read(...). If ata_read returns a byte pointer,
  // as the use on the next line suggests, that is only the low byte of the size, and an image
  // mounts as written if and only if its metadata takes fewer than 256 sectors.
  lemma OneByteHeaderReadIff(was: seq<byte>, t: Tree<Contents>)
    requires FitsImage(t, |was|)
    ensures MountSectors(Image(was, t), 0, Image(was, t)[0]) == Mount(Image(was, t), 0)
            <==> SectorsFor(MetadataSize(t)) < 0x100
  {
    ImageMounts(was, t);
    ImageFirstByte(was, t);
    var size := SectorsFor(MetadataSize(t));
    if size >= 0x100 {
      TooFewSectors(Image(was, t), size % 0x100, MetadataSize(t) - 2);
    }
  }

  lemma ImageFirstByte(was: seq<byte>, t: Tree<Contents>)
    requires FitsImage(t, |was|)
    ensures Image(was, t)[0] == SectorsFor(MetadataSize(t)) % 0x100
  {
  }

  lemma TooFewSectors(b: seq<byte>, sectors: nat, consumed: nat)
    requires sectors * 512 < 2 + consumed
    ensures MountSectors(b, 0, sectors).Parsed? ==> MountSectors(b, 0, sectors).consumed < consumed
  {
  }

  // A tree for which it does not: a root and two empty files whose names take 65535 bytes each.
  function LongNames(): (t: Tree<Contents>)
    ensures t.Directory? && |t.children| == 2
  {
    var name: Name := Filled(97, 0xffff);
    Directory(name, [File(name, []), File(name, [])])
  }

  lemma OneByteHeaderReadFails(was: seq<byte>)
    requires |was| == 0x100_0000
    ensures FitsImage(LongNames(), |was|)
    ensures MountSectors(Image(was, LongNames()), 0, Image(was, LongNames())[0]) != Mount(Image(was, LongNames()), 0)
  {
    LongNamesSize();
    OneByteHeaderReadIff(was, LongNames());
  }

  lemma LongNamesSize()
    ensures MetadataSize(LongNames()) == 196634 && AllStorable(Preorder(LongNames()))
    ensures TreeEnd(LongNames(), 196634) == 197120
  {
    var t := LongNames();
    var file := t.children[0];
    assert t.children[1..] == [file] && t.children[1..][1..] == [];
    assert PreorderAll([file]) == Preorder(file) + PreorderAll([]) == Preorder(file);
    var rs := Preorder(t);
    assert rs == [DirectoryRecord(t.name, 2), FileRecord(t.name, []), FileRecord(t.name, [])];
    assert rs[1..][1..][1..] == [];
  }

  // An image determines the tree it was written from.
  lemma ImageDeterminesTree(was: seq<byte>, was': seq<byte>, t: Tree<Contents>, u: Tree<Contents>)
    requires FitsImage(t, |was|) && FitsImage(u, |was'|) && Image(was, t) == Image(was', u)
    ensures t == u
  {
    ImageMounts(was, t);
    ImageMounts(was', u);
    ImageStores(was, t);
    ImageStores(was', u);
    StoresOnlyOne(Image(was, t), PlacedRoot(t, |was|), t, u);
  }
}
