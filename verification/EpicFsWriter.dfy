// elf/epicfs.c, lines 204-275: creating entries and writing them, byte by byte, into a buffer.
module EpicFsWriter {
  import opened Bytes
  import opened EpicFsFormat
  import opened EpicFsParser

  // divide_and_round_up(n, 512)
  function SectorsFor(n: nat): (q: nat)
    ensures n <= q * 512 < n + 512
  {
    (n + 511) / 512
  }

  // strlen followed by the assignment to the 16-bit length field.
  function NameLength(name: Name): (n: u16)
    ensures 0 !in name && |name| < 0x1_0000 ==> n == |name|
    ensures n <= |name|
  {
    |CString(name)| % 0x1_0000
  }

  // The length field counts the bytes in front of the first NUL, modulo 2^16.
  lemma NameLengthIs(name: Name, n: nat)
    requires EndsAt(name, n)
    ensures NameLength(name) == n % 0x1_0000
  {
    CStringEnds(name, n);
  }

  // epicfs_create_directory_entry
  method CreateDirectoryEntry(name: Name, childrenCount: u16) returns (size: nat, entry: DirectoryEntry)
    ensures fresh(entry) && entry.name == name
    ensures entry.header == DirectoryHeader(NameLength(name), childrenCount)
    ensures size == |DirectoryBytes(name[..NameLength(name)], childrenCount)|
    ensures forall n: nat :: EndsAt(name, n) ==> entry.header.nameLength == n % 0x1_0000
  {
    forall n: nat | EndsAt(name, n) ensures NameLength(name) == n % 0x1_0000 {
      NameLengthIs(name, n);
    }
    entry := new DirectoryEntry(DirectoryHeader(NameLength(name), childrenCount), name);
    size := 4 + entry.header.nameLength + 1;
  }

  // epicfs_create_file_entry. Its size includes the contents; the start sector is set by the layout.
  method CreateFileEntry(name: Name, fileSize: u16) returns (size: nat, entry: FileEntry)
    ensures fresh(entry) && entry.name == name
    ensures entry.header == FileHeader(NameLength(name), fileSize, 0)
    ensures size == |FileBytes(name[..NameLength(name)], Extent(fileSize, 0))| + fileSize
    ensures forall n: nat :: EndsAt(name, n) ==> entry.header.nameLength == n % 0x1_0000
  {
    forall n: nat | EndsAt(name, n) ensures NameLength(name) == n % 0x1_0000 {
      NameLengthIs(name, n);
    }
    entry := new FileEntry(FileHeader(NameLength(name), fileSize, 0), name);
    size := 10 + entry.header.fileSize + entry.header.nameLength + 1;
  }

  // epicfs_write_fs_header
  method WriteFsHeader(size: u16, buffer: array<byte>, at: nat) returns (written: nat)
    requires at + 2 <= buffer.Length
    modifies buffer
    ensures written == 2
    ensures buffer[..] == Splice(old(buffer[..]), at, U16Bytes(size))
  {
    MemCopy(buffer, at, U16Bytes(size));
    written := 2;
  }

  // epicfs_write_directory_entry
  method WriteDirectoryEntry(entry: DirectoryEntry, buffer: array<byte>, at: nat) returns (written: nat)
    requires entry.header.nameLength <= |entry.name|
    requires at + 5 + entry.header.nameLength <= buffer.Length
    modifies buffer
    ensures var bytes := DirectoryBytes(entry.name[..entry.header.nameLength], entry.header.childrenCount);
            written == |bytes| && buffer[..] == Splice(old(buffer[..]), at, bytes)
  {
    ghost var was := buffer[..];
    var offset := at;
    MemSet(buffer, offset, FS_TYPE_DIRECTORY, 1);
    offset := offset + 1;
    var fields := U16Bytes(entry.header.nameLength) + U16Bytes(entry.header.childrenCount);
    MemCopy(buffer, offset, fields);
    offset := offset + 4;
    var name := entry.name[..entry.header.nameLength];
    MemCopy(buffer, offset, name);
    offset := offset + entry.header.nameLength;
    written := offset - at;
    SpliceThree(was, at, FS_TYPE_DIRECTORY, fields, name);
    assert [FS_TYPE_DIRECTORY] + fields + name
        == [FS_TYPE_DIRECTORY] + U16Bytes(entry.header.nameLength) + U16Bytes(entry.header.childrenCount) + name;
  }

  // epicfs_write_file_entry
  method WriteFileEntry(entry: FileEntry, buffer: array<byte>, at: nat) returns (written: nat)
    requires entry.header.nameLength <= |entry.name|
    requires at + 11 + entry.header.nameLength <= buffer.Length
    modifies buffer
    ensures var h := entry.header;
            var bytes := FileBytes(entry.name[..h.nameLength], Extent(h.fileSize, h.startSector));
            written == |bytes| && buffer[..] == Splice(old(buffer[..]), at, bytes)
  {
    ghost var was := buffer[..];
    var offset := at;
    var h := entry.header;
    MemSet(buffer, offset, FS_TYPE_FILE, 1);
    offset := offset + 1;
    var fields := U16Bytes(h.nameLength) + U32Bytes(h.fileSize) + U32Bytes(h.startSector);
    MemCopy(buffer, offset, fields);
    offset := offset + 10;
    var name := entry.name[..h.nameLength];
    MemCopy(buffer, offset, name);
    offset := offset + h.nameLength;
    written := offset - at;
    SpliceThree(was, at, FS_TYPE_FILE, fields, name);
    assert [FS_TYPE_FILE] + fields + name
        == [FS_TYPE_FILE] + U16Bytes(h.nameLength) + U32Bytes(h.fileSize) + U32Bytes(h.startSector) + name;
  }

  // A tag, the packed fields and the name written one behind the other.
  lemma SpliceThree(was: seq<byte>, at: nat, tag: byte, fields: seq<byte>, name: seq<byte>)
    requires at + 1 + |fields| + |name| <= |was|
    ensures Splice(Splice(Splice(was, at, Filled(tag, 1)), at + 1, fields), at + 1 + |fields|, name)
         == Splice(was, at, [tag] + fields + name)
  {
    assert Filled(tag, 1) == [tag];
    SpliceSplice(was, at, [tag], fields);
    SpliceSplice(was, at, [tag] + fields, name);
  }

  // A size_t is 32 bits wide, so every buffer is smaller than this.
  const ADDRESS_SPACE := 0x1_0000_0000

  // epicfs_write_file_contents: contents go to the first sector boundary at or after offset.
  method WriteFileContents(contents: seq<byte>, entry: FileEntry, buffer: array<byte>, offset: nat)
    returns (advance: nat)
    requires entry.header.fileSize <= |contents|
    requires SectorsFor(offset) * 512 + entry.header.fileSize <= buffer.Length < ADDRESS_SPACE
    modifies buffer, entry`header
    ensures entry.header == old(entry.header).(startSector := SectorsFor(offset))
    ensures buffer[..] == Splice(old(buffer[..]), entry.header.startSector * 512, contents[..entry.header.fileSize])
    ensures offset + advance == entry.header.startSector * 512 + entry.header.fileSize
  {
    var startSector := SectorsFor(offset);
    var startSectorOffset := startSector * 512;
    entry.header := entry.header.(startSector := startSector);
    MemCopy(buffer, startSectorOffset, contents[..entry.header.fileSize]);
    advance := (startSectorOffset - offset) + entry.header.fileSize;
  }
}
