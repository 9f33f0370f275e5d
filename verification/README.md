# EpicFS, the program loader, the intrusive list and the byte swap of AthenX, in Dafny

The project models four pieces of the AthenX kernel that hold real algorithms and proves what they
are for.

* **EpicFS** (`elf/epicfs.c`, `elf/epicfs.h`): a tree of directories and files stored as a 2-byte
  header, packed entries in preorder, and sector-aligned file contents. `EpicFsFormat.dfy` gives the
  bytes of a tree and the parse of a byte string as functions and proves that each undoes the other.
  `EpicFsMalformed.dfy` says what a parse of any other bytes comes to.
  `EpicFsParser.dfy` is the recursive parser that fills entry structures in place.
  `EpicFsWriter.dfy` holds the creation and writing functions over a byte buffer,
  `EpicFsLayout.dfy` the layout they amount to, `EpicFsImage.dfy` a driver that writes a whole image
  (the repository has the per-entry functions but no driver), `EpicFsLookup.dfy` the path lookup
  loop, and `EpicFsReadBack.dfy` the composition: store a tree, mount it, read a path.
* **The loaders** (`elf/executable.c`): `ExecutableLoader.dfy` models the flat and the ELF32 loader over
  physical memory; `ElfFile.dfy` says what the latter makes of a file given byte for byte;
  `StoredExecutable.dfy` composes them with the file system.
* **The intrusive doubly linked list** (`include/fat_list.h`): `FatList.dfy`, pointers and all.
* **The exclusive-or byte swap** (`include/SHACommon.h`): `EndianSwap.dfy`.

`Bytes.dfy` holds the little-endian fields and memcpy/memset. `dafny verify dfyconfig.toml` checks
the project.

Conventions. Accesses the C code does not guard (beyond a buffer, the disk or memory) end in an
outcome value (`Truncated`, `OutOfBounds`, `Fault`) instead of being excluded; an empty read, copy or
fill accesses nothing, wherever it is; assertions end in
`AssertionFailed`, `AssertionFails` or `Asserted`. Integers have the widths of the i386: `u16` and
`u32` are bounded types, truncations and wrap-around are written out, `size_t` is 32 bits.

Where the code does not do what one would expect, the model follows the code, gives an input and
says exactly when the code is right:

* the path lookup skips a leading component that matches no directory, so it can find a file the
  path does not name; a file found is the one the path names exactly when no component was skipped
  (`FoundIsFirstMatchIff`, `ReadIsFirstMatchIff`, case in `UnmatchedComponentIsSkipped`);
* the lookup fails its assertion as soon as a file precedes the directory it looks for
  (`WalkExactly` says exactly when, case in `FileBeforeDirectoryTrips`);
* the parser skips the root's tag byte unchecked, so re-writing a parsed root reproduces the bytes
  exactly when that byte was the directory tag (`SerialiseUndoesParseIff`, case in
  `ForeignTagNotReproduced`);
* `epicfs_parse_from_ata` casts one dereferenced element to 16 bits. `Mount` reads the 2-byte size
  that `fs_header` declares; reading a single byte mounts an image as written exactly when its
  metadata takes fewer than 256 sectors (`OneByteHeaderReadIff`, case in `OneByteHeaderReadFails`);
* `executable_load` looks for the ELF magic in the load buffer, so a file shorter than four bytes can
  be judged together with what an earlier load left there: exactly when it is a beginning of the
  magic number (`DispatchOnFileIff`, case in `EmptyFileDispatch`);
* `elf32_load` compares no segment with the length of the file, so a segment that runs past it copies
  what an earlier load left in the buffer; what is loaded depends on the file alone exactly when
  every byte that is copied and stays in memory comes from inside it (`LoadedFromFileIff`, case in
  `TruncatedElfLoadsOldBuffer`);
* `program_break` is the end of the last loadable entry in table order (`BreakIsLastEnd`); it bounds
  every segment exactly when no earlier loadable entry ends above that one (`BreakBoundsIff`, case in
  `BreakBelowSegment`);
* `endianSwap128` stops at `sizeof(uint64_t)` and so reverses a 16-byte word exactly when its halves
  are one palindrome (`Swap128ReversesIff`, case in `Swap128IsNotAReversal`).

## Model

| member | source | states |
|---|---|---|
| EpicFsFormat.DirectoryLayout | elf/epicfs.h:34-38 | a written directory entry holds tag 0, name length and child count little-endian at offsets 1 and 3, and the name |
| EpicFsFormat.FileLayout | elf/epicfs.h:21-26 | a written file entry holds tag 1, name length, file size and start sector little-endian at offsets 1, 3 and 7, and the name |
| EpicFsFormat.ParseUndoesSerialise | elf/epicfs.c:82-150 | whatever bytes follow, parsing a written tree yields that tree and consumes exactly its bytes |
| EpicFsFormat.SerialisePrefixFree | elf/epicfs.c:237-263 | no written tree is a proper prefix of a different one |
| EpicFsFormat.SerialiseOfParsedDirectory | elf/epicfs.c:108-150 | re-writing a parsed directory reproduces every consumed byte after the tag |
| EpicFsFormat.SerialiseUndoesParseIff | elf/epicfs.c:108-150 | re-writing a parsed root reproduces the consumed bytes if and only if its tag byte is the directory tag |
| EpicFsFormat.ForeignTagNotReproduced | elf/epicfs.c:108-150 | five bytes that parse as an empty root directory behind the file tag and are not what re-writing it gives |
| EpicFsFormat.ParseIgnoresTrailing | elf/epicfs.c:108-150 | bytes behind the consumed ones do not change a parse, whatever the root's tag byte |
| EpicFsFormat.ParsedDirectorySize | elf/epicfs.c:82-150 | the parser consumes exactly 5 bytes a directory, 11 a file and the names; entries number at most a fifth of the consumed bytes |
| EpicFsMalformed.ParseOutcome | elf/epicfs.c:82-150 | for every byte string: parsing a directory succeeds if and only if the bytes begin, behind the unread tag, with a written directory; it runs off the end if and only if they do not but some continuation does; it fails its assertion if and only if no continuation does |
| EpicFsMalformed.ForeignChildFails | elf/epicfs.c:131-147 | a child whose tag is neither 0 nor 1 fails the assertion, whatever well-formed siblings precede it and whatever follows |
| EpicFsParser.ParseFileEntry | elf/epicfs.c:82-106 | fills the result structure with the parsed file, touching nothing else; reports a truncated buffer |
| EpicFsParser.ParseDirectoryEntry | elf/epicfs.c:108-150 | terminates for every buffer, fills the result structure with a finite tree of fresh structures representing the parse, or reports the unknown tag or truncation |
| EpicFsParser.ParseChildEntries | elf/epicfs.c:131-147 | the loop fills all entries of the child array with the parses of the children in order, children_count of them |
| EpicFsParser.ParseEntryByTag | elf/epicfs.c:135-146 | dispatch on the tag byte; a tag above 1 fails the assertion |
| EpicFsParser.ParseRoot | elf/epicfs.c:30-37 | a fresh root structure representing the parsed directory |
| EpicFsParser.ParseFromAta | elf/epicfs.c:19-28 | by the two size bytes on the disk, little-endian: a size of 0 fails the assertion, a disk that ends before the size bytes or before the declared sectors is run off, and otherwise the bytes behind the header are parsed as the root directory |
| EpicFsWriter.CreateDirectoryEntry | elf/epicfs.c:204-213 | the header of a fresh entry, whose name length counts the bytes before the first NUL modulo 2^16; the returned size is the size of the entry as written |
| EpicFsWriter.CreateFileEntry | elf/epicfs.c:215-225 | the same for a file, start sector 0; the returned size is the size of the entry as written plus the file size |
| EpicFsWriter.WriteFsHeader | elf/epicfs.c:227-235 | writes the 2 header bytes at the position given and nothing else |
| EpicFsWriter.WriteDirectoryEntry | elf/epicfs.c:237-249 | writes exactly the entry's bytes at the position given, leaves the rest of the buffer, returns their number |
| EpicFsWriter.WriteFileEntry | elf/epicfs.c:251-263 | the same for a file entry |
| EpicFsWriter.WriteFileContents | elf/epicfs.c:265-275 | puts the contents at the first sector boundary at or after the offset, records that sector in the entry, and returns the advance to the end of the contents |
| EpicFsLayout.SerialiseInPreorder | elf/epicfs.c:237-263 | a written tree is the concatenation of its entries' bytes in preorder |
| EpicFsLayout.LaidStoresEach | elf/epicfs.c:265-275 | for any sequence of files with the offset threaded, every file starts on a sector at or after the starting offset, and at the end its sectors hold its contents |
| EpicFsLayout.LaidKeepsOutside | elf/epicfs.c:265-275 | the layout leaves every byte before its starting and after its final offset unchanged |
| EpicFsLayout.PlacedInOrder | elf/epicfs.c:265-275 | extents are ordered and pairwise disjoint |
| EpicFsLayout.NoSectorShared | elf/epicfs.c:265-275 | the last sector of a non-empty file precedes the first sector of every later file |
| EpicFsLayout.EndOffsetBound | elf/epicfs.c:265-275 | the layout ends between the sum of the file sizes and that sum plus 511 bytes a file |
| EpicFsImage.CreateEntries | elf/epicfs.c:204-225 | the sizes returned for all entries add up to the bytes of the written entries and of the files |
| EpicFsImage.LayOutContents | elf/epicfs.c:265-275 | laying out all contents through the entry structures gives the layout and records every file's start sector |
| EpicFsImage.WriteEntries | elf/epicfs.c:237-263 | writing all entries one behind the other writes the concatenation of their bytes and nothing else |
| EpicFsImage.ImageMounts | elf/epicfs.c:19-37 | mounting a finished image parses exactly the entries that were written |
| EpicFsImage.ImageStores | elf/epicfs.c:265-275 | in a finished image every file entry's sectors hold exactly that file's contents |
| EpicFsImage.ImageDeterminesTree | elf/epicfs.c:19-37 | equal images come from equal trees, names, structure and contents, whatever the buffers held before |
| EpicFsImage.WriteImage | elf/epicfs.c:204-275 | end to end: for every tree that fits the fields and the buffer, the written buffer mounts as the same tree with every file's contents in place, and ends within 2 + the created sizes + 511 bytes a file |
| EpicFsImage.OneByteHeaderReadIff | elf/epicfs.c:21-25 | taking only the low byte of the header size mounts an image as written if and only if its metadata takes fewer than 256 sectors |
| EpicFsImage.OneByteHeaderReadFails | elf/epicfs.c:21-25 | a tree that fits a 16 MiB image and does not mount as written that way: a root and two empty files with 65535-byte names |
| EpicFsLookup.SameNameIff | elf/epicfs.c:54-67 | two names compare equal if and only if they agree up to the first NUL of each; names without NUL if and only if they are equal |
| EpicFsLookup.FindPathIff | elf/epicfs.c:46-79 | without NULs, the first-match lookup resolves a path to a file if and only if the components, compared for plain equality, lead to it through the first child of each name |
| EpicFsLookup.WalkByName | elf/epicfs.c:46-79 | without NULs, a file the loop finds is the first to bear the last component's name in a directory that a subsequence of the leading components names; the file that the whole path names is found, or the assertion fails where a file is in the way |
| EpicFsLookup.ReadFile | elf/epicfs.c:39-80 | the two loops over the structures return what the lookup over the tree they represent returns; on success the destination holds the file's disk bytes and is unchanged otherwise |
| EpicFsLookup.WalkExactly | elf/epicfs.c:46-79 | for every tree and path: the assertion fails exactly when a file is in the way of a leading component, and otherwise the file found is the first-match lookup of the components that match |
| EpicFsLookup.WalkComplete | elf/epicfs.c:46-79 | if the first-match lookup resolves the whole path, the loop returns that file if no file is in the way and fails its assertion otherwise |
| EpicFsLookup.FoundIsFirstMatchIff | elf/epicfs.c:46-79 | a file the loop finds is the one the first-match lookup finds if and only if no leading component was skipped |
| EpicFsLookup.ReadIsFirstMatchIff | elf/epicfs.c:39-80 | a read that returns a size has read a file of that size, and it is the one the path names if and only if no leading component was skipped |
| EpicFsLookup.WalkSound | elf/epicfs.c:46-79 | a file found is named by the last component and its ancestors by a subsequence of the leading ones |
| EpicFsLookup.UnmatchedComponentIsSkipped | elf/epicfs.c:46-77 | a path with an unmatched leading component for which the loop finds a file and the first-match lookup none |
| EpicFsLookup.FileBeforeDirectoryTrips | elf/epicfs.c:61-63 | a path the first-match lookup resolves on which the assertion fails |
| EpicFsLookup.ReadReturnsSizeIff | elf/epicfs.c:67-79 | for a resolvable path the file's size is returned if and only if no file is in the way, the file's bytes are on the disk and have room, and the size is below 2^31 |
| EpicFsReadBack.WalkStored | elf/epicfs.c:39-80 | lookup over a mounted image mirrors lookup over the stored tree, and the extent found holds the stored contents |
| EpicFsReadBack.StoreMountRead | elf/epicfs.c:19-80 | storing a tree, mounting it and reading a path delivers exactly the contents of the file the lookup finds in the original tree; for a path without NULs that file bears the last component's name, and it is the one the path names if there is one and no file is in the way |
| ExecutableLoader.EhdrFields | elf/elf.h:118-135 | the header accessors read the fields of Elf32_Ehdr in their declared order |
| ExecutableLoader.PhdrFields | elf/elf.h:439-449 | the program header accessor reads the fields of Elf32_Phdr in their declared order |
| ExecutableLoader.LoadSegment | elf/executable.c:73-78 | with 32-bit wrap-around, one segment loads without a fault if and only if its file size is at most its memory size and every non-empty range is in bounds; memory then holds file bytes and zeros there and is unchanged elsewhere, and the break is the segment's end |
| ExecutableLoader.LoadedClosedForm | elf/executable.c:60-79 | each address of the final memory holds the byte of the last loadable segment covering it, overlaps included, and is unchanged where none does |
| ExecutableLoader.SegmentSurvives | elf/executable.c:60-79 | a non-empty segment of which no later segment covers an address still holds its file bytes and zeros after the whole loop |
| ExecutableLoader.BreakIsLastEnd | elf/executable.c:60-79 | the program break is the end of the last loadable entry in table order, unchanged without one |
| ExecutableLoader.BreakBoundsIff | elf/executable.c:60-79 | the program break bounds the end of every loadable segment if and only if no loadable entry before the last loadable one ends above it; ascending disjoint segments meet that |
| ExecutableLoader.BreakBelowSegment | elf/executable.c:78 | two segments out of order for which it does not |
| ExecutableLoader.Elf32Load | elf/executable.c:49-84 | for every buffer: fails an assertion, and changes nothing, if and only if bytes 0-4 are not the magic number and 1 or bytes 16-19 are not 2, 0, 3, 0; otherwise loads the whole table and sets entry point, break and type, or faults exactly when an entry is out of bounds, with the type set and the entry point not |
| ExecutableLoader.FlatBinaryLoad | elf/executable.c:35-47 | for every path: the outcome by what it resolves to; on success the file's bytes stand at 0x90000, every other byte is unchanged and 0x90000 is the entry point; the type is set first and the break never |
| ExecutableLoader.ExecutableLoad | elf/executable.c:13-33 | for every path, by what it resolves to and what the load buffer of 153600 bytes then starts with: the outcome, and memory and executable fields, unchanged whenever the file is missing or unreadable or an assertion fails; flat programs stand at 0x90000 |
| ExecutableLoader.DispatchOnFileIff | elf/executable.c:21-30 | for any buffer size: the choice between ELF and flat is the same whatever the buffer held before if and only if the file has four bytes or is no beginning of the magic number |
| ExecutableLoader.DispatchOnShortFile | elf/executable.c:16-30 | a file shorter than four bytes is taken for ELF if and only if it is a beginning of the magic number and an earlier load left the remaining bytes of it behind |
| ExecutableLoader.EmptyFileDispatch | elf/executable.c:16-30 | the empty file: flat in a cleared load buffer, ELF after an ELF file |
| ExecutableLoader.OldBufferIrrelevant | elf/executable.c:60-81 | an ELF file that contains its header, table and segments has the same header and table in the load buffer and loads from its own bytes, whatever the buffer held |
| ExecutableLoader.LoadedFromFileIff | elf/executable.c:60-79 | a table that fits the load buffer leaves the same memory whatever the buffer held before if and only if every byte that is copied and stays in memory comes from inside the file |
| ElfFile.WrittenTableLoads | elf/executable.c:49-84 | for any file whose header and table entries are given byte for byte, entry i at e_phoff + e_phentsize * i: the load succeeds if and only if every entry of type 1 is in bounds; then every address holds the byte of the last type-1 entry that reaches it, or what it held before, and the break is the end of the last type-1 entry |
| ElfFile.FileOfHolds | elf/elf.h:118-135 | a header, a table of any entries behind it and any further bytes make up such a file |
| ElfFile.NoteIsSkipped | elf/executable.c:68-78 | a file with a note and a program segment at the same address leaves the program's byte and a zero there |
| ElfFile.TruncatedElfLoadsOldBuffer | elf/executable.c:60-79 | an ELF file of a header and one table entry whose segment lies behind its end: it loads, and memory holds what the buffer held before |
| StoredExecutable.StoreMountLoad | elf/executable.c:13-84 | a stored program that is not taken for ELF stands byte for byte at 0x90000, every other byte unchanged, with that entry point and the break unchanged; a stored file with the magic number fails an assertion, and changes nothing, if and only if byte 4 or bytes 16-19 are not those of an i386 executable; a stored ELF program of which no byte left in memory comes from behind the end of the file yields the memory its segments describe, its entry point and its break; without a file nothing changes |
| StoredExecutable.SegmentsInsideFile | elf/executable.c:60-79 | a program with all its segments inside the file is such a program, and the memory it yields is computed from the file alone |
| FatList.FatList.constructor | include/fat_list.h:46-51 | an initialised list is valid and empty |
| FatList.FatList.Remove | include/fat_list.h:55-69 | removes the node from the sequence, keeps the list valid, changes only the list and the two neighbouring links |
| FatList.FatList.InsertAfter | include/fat_list.h:73-86 | inserts the new node right after the given one, keeps the list valid, changes only the adjacent links |
| FatList.FatList.InsertBefore | include/fat_list.h:90-103 | inserts the new node right before the given one, keeps the list valid, changes only the adjacent links |
| FatList.FatList.InsertFirst | include/fat_list.h:107-122 | the node in front of the sequence, empty list included |
| FatList.FatList.InsertLast | include/fat_list.h:125-134 | the node behind the sequence, empty list included |
| FatList.FatList.IsEmpty | include/fat_list.h:138-143 | true exactly for the empty sequence |
| FatList.FatList.PopHead | include/fat_list.h:147-158 | removes and returns the first node; null on an empty list, which stays empty |
| FatList.FatList.ForEach | include/fat_list.h:37 | forward traversal terminates and visits exactly the sequence |
| FatList.FatList.ForEachBackward | include/fat_list.h:34-36 | traversal from the tail through previous terminates and visits exactly the reverse |
| FatList.RunOps | include/fat_list.h:46-158 | any run of operations keeps the list valid, refines the same run on the sequence, and pops the nodes that run pops |
| FatList.RunConservesNodes | include/fat_list.h:55-158 | over any run, nodes left plus nodes departed are the initial nodes plus the ones entered, with multiplicity |
| FatList.QueueIsFifo | include/fat_list.h:125-158 | with insert_last and pop_head only, nodes leave in the order they came |
| FatList.StackIsLifo | include/fat_list.h:107-158 | after any run of insert_first and pop_head the list holds the inserted nodes no pop has taken, newest first, and behind them the initial nodes in order without as many as there were pops that found no inserted node; the next pop returns the first of these, or none |
| FatList.PopUndoesPushFirst | include/fat_list.h:107-158 | insert_first directly followed by pop_head returns that node and leaves any further run unchanged |
| FatList.PutIsAdjacent | include/fat_list.h:73-103 | a node put before or after a member ends up next to it on that side |
| FatList.DropLeavesTheOthers | include/fat_list.h:55-69 | a removed node is gone and the others stay in their order |
| FatList.InsertedAtPlace | include/fat_list.h:73-134 | a node inserted at a place is the first, the last, or next to the named node on that side |
| FatList.InsertThenRemove | include/fat_list.h:55-134 | each of the four inserts followed by removing the node restores head, tail and both links of every member |
| FatList.RunMoves | include/fat_list.h:73-158 | any run of moves between two lists, each a pop and an insert at either end or next to any member, keeps both valid and disjoint |
| FatList.MoveTakesHead | include/fat_list.h:73-158 | a move takes the first node of the list it names and puts it at the named place of the other; from an empty list it changes nothing |
| FatList.MovesConserveNodes | include/fat_list.h:73-158 | over any such run the two lists together hold the same nodes, with multiplicity |
| EndianSwap.ExchangeBytes | include/SHACommon.h:18-20 | the three exclusive-or assignments exchange two bytes and leave all others |
| EndianSwap.SwapBytes | include/SHACommon.h:16-21 | for any length n the loop reverses the first n bytes in place and leaves the others |
| EndianSwap.EndianSwap32 | include/SHACommon.h:13-22 | reverses 4 bytes |
| EndianSwap.EndianSwap64 | include/SHACommon.h:25-34 | reverses 8 bytes |
| EndianSwap.EndianSwap128 | include/SHACommon.h:37-46 | reverses 8 bytes, like the 64-bit swap |
| EndianSwap.SwapTwice | include/SHACommon.h:16-21 | the swap is its own inverse |
| EndianSwap.ReversedChangesByteOrder | include/SHACommon.h:12-34 | the reversed bytes read little-endian hold the number the original bytes hold big-endian |
| EndianSwap.Swap128ReversesIff | include/SHACommon.h:36-46 | the 128-bit swap reverses its 16 bytes if and only if both halves are the same palindrome |
| EndianSwap.Swap128IsNotAReversal | include/SHACommon.h:36-46 | a word it does not reverse |

## Left out

- EpicFsParser.ParseDirectoryEntry: says nothing about the partly filled structures when the parse fails, because the C code stops at a failed assertion and reads beyond the buffer otherwise.
- ExecutableLoader.Elf32Load: says nothing about memory after a fault, which stands for undefined behaviour; the header of an entry must be in bounds as a whole even where the C code would read only its type.
- `string_split`, `ata_read`, `ata_read_into`, `kalloc` and `divide_and_round_up` are not part of this model: the path is given as its components, disk reads are slices of a byte sequence, allocation is always fresh, the division rounds up.
- Name pointers: an entry holds its name as a value, without the terminating NUL and without the aliasing of the caller's string.
- The globals `fs_root` and the load buffer are parameters, and `epicfs_init` only assigns one of them.
- The load buffer, the destination memory and the parsed structures are assumed not to overlap; physical memory is smaller than 4 GiB.
- Recursion depth: the parser's stack is unbounded.
- `epicfs_pretty_print_*` and `elf32_print_phdr` only print.
- `fat_list_entry`, the container-of macro, and the null checks of `FAT_ASSERT`, which expand to nothing.
- The project covers four components and none of the others: the FAT driver and the other file-system code (`fs/`), kernel memory management (`kernel/memory/`), the kernel's own ELF and process code (`kernel/elf/`, `kernel/scheduler/`), networking, devices and user programs are not part of this model.
