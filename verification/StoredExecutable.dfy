// elf/executable.c on a file system written by elf/epicfs.c: the program stored is the program
// that ends up in memory.
module StoredExecutable {
  import opened Bytes
  import opened EpicFsFormat
  import opened EpicFsParser
  import opened EpicFsLayout
  import opened EpicFsImage
  import opened EpicFsLookup
  import opened EpicFsReadBack
  import opened ExecutableLoader

  // The load buffer with a file in it and nothing else.
  function Padded(file: Contents): (b: seq<byte>)
    requires |file| <= BUFFER_SIZE
    ensures |b| == BUFFER_SIZE
  {
    BufferAfter(Filled(0, BUFFER_SIZE), file)
  }

  // An ELF32 program for the i386 whose header and table lie inside the file, whose segments fit
  // the load buffer and memory of the given size, and of which no byte that stays in memory comes
  // from behind the end of the file.
  predicate SelfContainedElf(file: Contents, size: nat) {
    && EHDR_SIZE <= |file| <= BUFFER_SIZE && IsElf(file) && IsI386Executable(file)
    && TableInside(file, PhNum(file)) && SegmentsFit(Table(file, PhNum(file)), Padded(file), size)
    && forall address :: 0 <= address < size ==> CopiedFrom(Table(file, PhNum(file)), |file|, address)
  }

  // Programs whose segments all lie inside the file are self-contained, and load as from the file.
  lemma SegmentsInsideFile(file: Contents, mem: seq<byte>)
    requires EHDR_SIZE <= |file| <= BUFFER_SIZE && IsElf(file) && IsI386Executable(file)
    requires TableInside(file, PhNum(file)) && SegmentsFit(Table(file, PhNum(file)), file, |mem|)
    ensures SelfContainedElf(file, |mem|)
    ensures var phs := Table(file, PhNum(file)); Loaded(mem, Padded(file), phs) == Loaded(mem, file, phs)
  {
    var phs := Table(file, PhNum(file));
    OldBufferIrrelevant(Filled(0, BUFFER_SIZE), file, mem);
    forall address | 0 <= address < |mem| ensures CopiedFrom(phs, |file|, address) {
      var k := LastCovering(phs, address);
      assert k >= 0 ==> SegmentFits(phs[k], file, |mem|);
    }
  }

  // A file that is not taken for ELF: it neither starts with the magic number nor is a beginning
  // of it that the old contents of the load buffer happen to complete.
  predicate TakenAsFlat(file: Contents, buffer: seq<byte>)
    requires |buffer| >= 4
  {
    !(ELF_MAGIC <= file) && (file <= ELF_MAGIC ==> ELF_MAGIC[|file|..] != buffer[|file|..4])
  }

  // Store a tree, mount the image and load the program a path leads to. A flat program is in
  // memory byte for byte; an ELF program's segments are, as computed from the stored file alone,
  // whatever the load buffer held before.
  method StoreMountLoad(t: Tree<Contents>, image: array<byte>, parts: seq<Name>,
                        buffer: array<byte>, mem: array<byte>, exec: Executable)
    returns (r: LoadOutcome)
    requires FitsImage(t, image.Length) && image != buffer && image != mem && buffer != mem
    requires buffer.Length == BUFFER_SIZE
    requires EXECUTABLE_BASE_ADDRESS + 0x1_0000 <= mem.Length < 0x1_0000_0000
    modifies image, buffer, mem, exec
    ensures match Walk(t, parts)
            case AssertionFails => r == Asserted && mem[..] == old(mem[..]) && unchanged(exec)
            case Missing => r == Failed && mem[..] == old(mem[..]) && unchanged(exec)
            case Found(f) =>
              && |f.data| < 0x1_0000
              && (TakenAsFlat(f.data, old(buffer[..])) ==>
                    && r == Done && AtAddress(old(mem[..]), 0x9_0000, f.data, mem[..])
                    && exec.programBreak == old(exec.programBreak)
                    && exec.entryPoint == 0x9_0000 && exec.kind == FlatExecutable)
              && (|f.data| >= 52 && f.data[..4] == [0x7f, 0x45, 0x4c, 0x46] ==>
                    (r == Asserted <==> f.data[4] != 1 || f.data[16..20] != [2, 0, 3, 0])
                    && (r == Asserted ==> mem[..] == old(mem[..]) && unchanged(exec)))
              && (SelfContainedElf(f.data, mem.Length) ==>
                    && r == Done && mem[..] == Loaded(old(mem[..]), Padded(f.data), Table(f.data, PhNum(f.data)))
                    && exec.programBreak == Break(Table(f.data, PhNum(f.data)), old(exec.programBreak))
                    && exec.entryPoint == EntryPoint(f.data) && exec.kind == Elf32Executable)
  {
    var root, S := StoreMount(t, image);
    var disk := image[..];
    WalkStored(disk, root.tree, t, parts);
    if Walk(t, parts).Found? {
      FoundIsStorable(t, parts);
      StoredDispatch(buffer[..], Walk(t, parts).file.data, mem[..]);
    }
    r := ExecutableLoad(root, parts, disk, buffer, mem, exec, S);
  }

  lemma StoredDispatch(buffer: seq<byte>, file: Contents, mem: seq<byte>)
    requires |file| < 0x1_0000 && |buffer| == BUFFER_SIZE
    ensures TakenAsFlat(file, buffer) <==> !IsElf(BufferAfter(buffer, file))
    ensures |file| >= 52 && file[..4] == [0x7f, 0x45, 0x4c, 0x46] ==>
      var b := BufferAfter(buffer, file);
      IsElf(b) && b[4] == file[4] && b[16..20] == file[16..20]
    ensures SelfContainedElf(file, |mem|) ==>
      var b := BufferAfter(buffer, file);
      && ElfOutcome(b, |mem|) == Done && EntryPoint(b) == EntryPoint(file)
      && IsElf(b) && Table(b, PhNum(b)) == Table(file, PhNum(file))
      && Loaded(mem, b, Table(b, PhNum(b))) == Loaded(mem, Padded(file), Table(file, PhNum(file)))
  {
    if |file| >= 4 {
      DispatchOnLongFile(buffer, file);
    } else {
      DispatchOnShortFile(buffer, file);
    }
    if SelfContainedElf(file, |mem|) {
      var b := BufferAfter(buffer, file);
      BufferExtends(buffer, file);
      SameHeader(b, file);
      SameTable(b, file, PhNum(file));
      LoadedFromFile(buffer, Filled(0, BUFFER_SIZE), file, mem, Table(file, PhNum(file)));
    }
  }
}
