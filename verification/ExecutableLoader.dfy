// elf/executable.c: loading a program, flat or ELF32, from the file system into physical memory.
module ExecutableLoader {
  import opened Bytes
  import opened EpicFsFormat
  import opened EpicFsParser
  import opened EpicFsLookup

  const EXECUTABLE_BASE_ADDRESS := 0x90000

  // The static load buffer.
  const BUFFER_SIZE := 150 * 1024

  datatype ExecutableType = Elf32Executable | FlatExecutable

  // struct executable
  class Executable {
    var entryPoint: u32
    var programBreak: u32
    var kind: ExecutableType

    constructor (entryPoint: u32, programBreak: u32, kind: ExecutableType)
      ensures this.entryPoint == entryPoint && this.programBreak == programBreak && this.kind == kind
    {
      this.entryPoint, this.programBreak, this.kind := entryPoint, programBreak, kind;
    }
  }

  // Done is the return value 0, Failed is -1, Asserted a failed assertion. Fault stands for an
  // access outside the load buffer, the disk or memory, which the C code does not guard against.
  datatype LoadOutcome = Done | Failed | Asserted | Fault

  // ---- Elf32_Ehdr and Elf32_Phdr, little-endian as on the i386 ---------------------------------

  const EHDR_SIZE := 52
  const PHDR_SIZE := 32
  const PT_LOAD := 1

  const ELF_MAGIC: seq<byte> := [0x7f, 0x45, 0x4c, 0x46]

  predicate IsElf(file: seq<byte>)
    requires |file| >= 4
    ensures IsElf(file) <==> ELF_MAGIC <= file
  {
    file[0] == 0x7f && file[1] == 0x45 && file[2] == 0x4c && file[3] == 0x46
  }

  // ELFCLASS32, ET_EXEC and EM_386.
  predicate IsI386Executable(file: seq<byte>)
    requires |file| >= EHDR_SIZE
  {
    file[4] == 1 && ReadU16(file[16..]) == 2 && ReadU16(file[18..]) == 3
  }

  function EntryPoint(file: seq<byte>): (e: u32)
    requires |file| >= EHDR_SIZE
  {
    ReadU32(file[24..])
  }

  function PhOff(file: seq<byte>): (n: u32)
    requires |file| >= EHDR_SIZE
  {
    ReadU32(file[28..])
  }

  function PhEntSize(file: seq<byte>): (n: u16)
    requires |file| >= EHDR_SIZE
  {
    ReadU16(file[42..])
  }

  function PhNum(file: seq<byte>): (n: u16)
    requires |file| >= EHDR_SIZE
  {
    ReadU16(file[44..])
  }

  datatype Phdr = Phdr(kind: u32, offset: u32, paddr: u32, filesz: u32, memsz: u32)

  function ReadPhdr(b: seq<byte>): (ph: Phdr)
    requires |b| >= PHDR_SIZE
  {
    Phdr(ReadU32(b), ReadU32(b[4..]), ReadU32(b[12..]), ReadU32(b[16..]), ReadU32(b[20..]))
  }

  // Where program header i starts in the load buffer, in 32-bit address arithmetic.
  function PhdrOffset(file: seq<byte>, i: nat): (n: nat)
    requires |file| >= EHDR_SIZE
  {
    (PhOff(file) + PhEntSize(file) * i) % 0x1_0000_0000
  }

  // The first n program headers lie inside the load buffer.
  predicate TableInside(file: seq<byte>, n: nat)
    requires |file| >= EHDR_SIZE
  {
    forall i :: 0 <= i < n ==> PhdrInside(file, i)
  }

  predicate PhdrInside(file: seq<byte>, i: nat)
    requires |file| >= EHDR_SIZE
  {
    PhdrOffset(file, i) + PHDR_SIZE <= |file|
  }

  function PhdrAt(file: seq<byte>, i: nat): (ph: Phdr)
    requires |file| >= EHDR_SIZE && PhdrInside(file, i)
  {
    ReadPhdr(file[PhdrOffset(file, i)..])
  }

  function Table(file: seq<byte>, n: nat): (phs: seq<Phdr>)
    requires |file| >= EHDR_SIZE && TableInside(file, n)
    ensures |phs| == n
    ensures forall i :: 0 <= i < n ==> phs[i] == PhdrAt(file, i)
  {
    if n == 0 then [] else Table(file, n - 1) + [PhdrAt(file, n - 1)]
  }

  // The accessors read the fields of the structures in their declared order.
  function EhdrBytes(ident: seq<byte>, kind: u16, machine: u16, version: u32, entry: u32, phoff: u32, shoff: u32,
                     flags: u32, ehsize: u16, phentsize: u16, phnum: u16, shentsize: u16, shnum: u16, shstrndx: u16)
    : (b: seq<byte>)
    requires |ident| == 16
    ensures |b| == EHDR_SIZE
  {
    ident + U16Bytes(kind) + U16Bytes(machine) + U32Bytes(version) + U32Bytes(entry) + U32Bytes(phoff) + U32Bytes(shoff)
    + U32Bytes(flags) + U16Bytes(ehsize) + U16Bytes(phentsize) + U16Bytes(phnum)
    + U16Bytes(shentsize) + U16Bytes(shnum) + U16Bytes(shstrndx)
  }

  lemma EhdrFields(ident: seq<byte>, kind: u16, machine: u16, version: u32, entry: u32, phoff: u32, shoff: u32,
                   flags: u32, ehsize: u16, phentsize: u16, phnum: u16, shentsize: u16, shnum: u16, shstrndx: u16)
    requires |ident| == 16
    ensures var b := EhdrBytes(ident, kind, machine, version, entry, phoff, shoff,
                               flags, ehsize, phentsize, phnum, shentsize, shnum, shstrndx);
            && IsElf(b) == (ident[..4] == [0x7f, 0x45, 0x4c, 0x46])
            && IsI386Executable(b) == (ident[4] == 1 && kind == 2 && machine == 3)
            && EntryPoint(b) == entry && PhOff(b) == phoff && PhEntSize(b) == phentsize && PhNum(b) == phnum
  {
    var b := EhdrBytes(ident, kind, machine, version, entry, phoff, shoff,
                       flags, ehsize, phentsize, phnum, shentsize, shnum, shstrndx);
    assert ident[..4] == [ident[0], ident[1], ident[2], ident[3]];
    ReadU16At(b, 16, kind);
    ReadU16At(b, 18, machine);
    ReadU32At(b, 24, entry);
    ReadU32At(b, 28, phoff);
    ReadU16At(b, 42, phentsize);
    ReadU16At(b, 44, phnum);
  }

  lemma ReadU16At(b: seq<byte>, at: nat, n: u16)
    requires at + 2 <= |b| && b[at] == U16Bytes(n)[0] && b[at + 1] == U16Bytes(n)[1]
    ensures ReadU16(b[at..]) == n
  {
  }

  lemma ReadU32At(b: seq<byte>, at: nat, n: u32)
    requires at + 4 <= |b|
    requires forall k :: 0 <= k < 4 ==> b[at + k] == U32Bytes(n)[k]
    ensures ReadU32(b[at..]) == n
  {
    assert b[at..] == U32Bytes(n) + b[at + 4..];
    U32RoundTrip(n, b[at + 4..]);
  }

  // Elf32_Phdr with all its fields, as a linker writes it.
  datatype WrittenPhdr = WrittenPhdr(kind: u32, offset: u32, vaddr: u32, paddr: u32,
                                     filesz: u32, memsz: u32, flags: u32, align: u32)

  function PhdrBytes(w: WrittenPhdr): (b: seq<byte>)
    ensures |b| == PHDR_SIZE
  {
    U32Bytes(w.kind) + U32Bytes(w.offset) + U32Bytes(w.vaddr) + U32Bytes(w.paddr)
    + U32Bytes(w.filesz) + U32Bytes(w.memsz) + U32Bytes(w.flags) + U32Bytes(w.align)
  }

  lemma PhdrFields(w: WrittenPhdr)
    ensures ReadPhdr(PhdrBytes(w)) == Phdr(w.kind, w.offset, w.paddr, w.filesz, w.memsz)
  {
  }

  // ---- Segments -------------------------------------------------------------------------------

  // A segment's file bytes, if it has any, lie inside the file.
  predicate SourceInside(ph: Phdr, file: seq<byte>) {
    ph.filesz > 0 ==> ph.offset + ph.filesz <= |file|
  }

  // A loadable segment with its bytes inside the file and its range inside memory. Where nothing
  // is copied or zeroed, offset and address do not matter.
  predicate SegmentFits(ph: Phdr, file: seq<byte>, size: nat) {
    && ph.filesz <= ph.memsz && SourceInside(ph, file)
    && (ph.memsz > 0 ==> ph.paddr + ph.memsz <= size)
  }

  predicate SegmentsFit(phs: seq<Phdr>, file: seq<byte>, size: nat) {
    forall i :: 0 <= i < |phs| && phs[i].kind == PT_LOAD ==> SegmentFits(phs[i], file, size)
  }

  function SourceBytes(ph: Phdr, file: seq<byte>): (b: seq<byte>)
    requires SourceInside(ph, file)
    ensures |b| == ph.filesz
  {
    if ph.filesz == 0 then [] else file[ph.offset..ph.offset + ph.filesz]
  }

  // A segment's memory image: its file bytes, then zeros.
  function SegmentBytes(ph: Phdr, file: seq<byte>): (b: seq<byte>)
    requires ph.filesz <= ph.memsz && SourceInside(ph, file)
    ensures |b| == ph.memsz
  {
    SourceBytes(ph, file) + Filled(0, ph.memsz - ph.filesz)
  }

  // Memory after one entry of the table.
  function LoadedOne(mem: seq<byte>, file: seq<byte>, ph: Phdr): (m: seq<byte>)
    requires ph.kind == PT_LOAD ==> SegmentFits(ph, file, |mem|)
    ensures |m| == |mem|
  {
    if ph.kind == PT_LOAD && ph.memsz > 0 then Splice(mem, ph.paddr, SegmentBytes(ph, file)) else mem
  }

  // Memory after the segments of the table have been loaded in order.
  function Loaded(mem: seq<byte>, file: seq<byte>, phs: seq<Phdr>): (m: seq<byte>)
    requires SegmentsFit(phs, file, |mem|)
    ensures |m| == |mem|
  {
    if phs == [] then mem else LoadedOne(Loaded(mem, file, phs[..|phs| - 1]), file, phs[|phs| - 1])
  }

  predicate Covers(ph: Phdr, a: nat) {
    ph.kind == PT_LOAD && ph.paddr <= a < ph.paddr + ph.memsz
  }

  // The byte segment ph puts at an address it covers.
  function ByteOf(ph: Phdr, file: seq<byte>, a: nat): (b: byte)
    requires Covers(ph, a) && SourceInside(ph, file)
  {
    if a - ph.paddr < ph.filesz then file[ph.offset + (a - ph.paddr)] else 0
  }

  // The last segment in table order that covers an address; -1 when none does.
  function LastCovering(phs: seq<Phdr>, a: nat): (k: int)
    ensures -1 <= k < |phs|
    ensures k >= 0 ==> Covers(phs[k], a)
    ensures forall j :: k < j < |phs| ==> !Covers(phs[j], a)
  {
    if phs == [] then -1
    else if Covers(phs[|phs| - 1], a) then |phs| - 1
    else LastCovering(phs[..|phs| - 1], a)
  }

  // Closed form of the final memory: each address holds the byte of the last segment in table
  // order that covers it, and is unchanged where no segment does. Segments may overlap.
  lemma {:induction false} LoadedClosedForm(mem: seq<byte>, file: seq<byte>, phs: seq<Phdr>, a: nat)
    requires SegmentsFit(phs, file, |mem|) && a < |mem|
    ensures var k := LastCovering(phs, a);
            Loaded(mem, file, phs)[a] == if k < 0 then mem[a] else ByteOf(phs[k], file, a)
  {
    if phs != [] {
      var front := phs[..|phs| - 1];
      LoadedClosedForm(mem, file, front, a);
      LoadedOneByte(Loaded(mem, file, front), file, phs[|phs| - 1], a);
    }
  }

  lemma LoadedOneByte(mem: seq<byte>, file: seq<byte>, ph: Phdr, a: nat)
    requires (ph.kind == PT_LOAD ==> SegmentFits(ph, file, |mem|)) && a < |mem|
    ensures LoadedOne(mem, file, ph)[a] == if Covers(ph, a) then ByteOf(ph, file, a) else mem[a]
  {
    if Covers(ph, a) {
      ByteOfSegment(ph, file, a);
    }
  }

  lemma ByteOfSegment(ph: Phdr, file: seq<byte>, a: nat)
    requires Covers(ph, a) && ph.filesz <= ph.memsz && SourceInside(ph, file)
    ensures SegmentBytes(ph, file)[a - ph.paddr] == ByteOf(ph, file, a)
  {
  }

  // System V gABI, chapter 5, "Program Header": a loaded segment holds its file bytes followed by
  // zeros. Segment i still does after the whole loop if no later segment overlaps it.
  lemma SegmentSurvives(mem: seq<byte>, file: seq<byte>, phs: seq<Phdr>, i: nat)
    requires SegmentsFit(phs, file, |mem|) && i < |phs| && phs[i].kind == PT_LOAD && phs[i].memsz > 0
    requires forall a :: Covers(phs[i], a) ==> forall j :: i < j < |phs| ==> !Covers(phs[j], a)
    ensures Loaded(mem, file, phs)[phs[i].paddr..phs[i].paddr + phs[i].memsz] == SegmentBytes(phs[i], file)
  {
    forall a | phs[i].paddr <= a < phs[i].paddr + phs[i].memsz ensures LastCovering(phs, a) == i {
      NoneLaterCovers(phs, i, a);
    }
    LastSurvives(mem, file, phs, i);
  }

  lemma LastSurvives(mem: seq<byte>, file: seq<byte>, phs: seq<Phdr>, i: nat)
    requires SegmentsFit(phs, file, |mem|) && i < |phs| && phs[i].kind == PT_LOAD && phs[i].memsz > 0
    requires forall a :: phs[i].paddr <= a < phs[i].paddr + phs[i].memsz ==> LastCovering(phs, a) == i
    ensures Loaded(mem, file, phs)[phs[i].paddr..phs[i].paddr + phs[i].memsz] == SegmentBytes(phs[i], file)
  {
    BytesSurvive(mem, file, phs, i);
    SliceIs(Loaded(mem, file, phs), phs[i].paddr, SegmentBytes(phs[i], file));
  }

  // The bytes t stand in s from a position on.
  predicate StandsAt(s: seq<byte>, at: nat, t: seq<byte>) {
    at + |t| <= |s| && forall a :: at <= a < at + |t| ==> s[a] == t[a - at]
  }

  lemma BytesSurvive(mem: seq<byte>, file: seq<byte>, phs: seq<Phdr>, i: nat)
    requires SegmentsFit(phs, file, |mem|) && i < |phs| && phs[i].kind == PT_LOAD && phs[i].memsz > 0
    requires forall a :: phs[i].paddr <= a < phs[i].paddr + phs[i].memsz ==> LastCovering(phs, a) == i
    ensures SegmentFits(phs[i], file, |mem|)
    ensures StandsAt(Loaded(mem, file, phs), phs[i].paddr, SegmentBytes(phs[i], file))
  {
    assert SegmentFits(phs[i], file, |mem|);
    forall a | phs[i].paddr <= a < phs[i].paddr + phs[i].memsz
      ensures Loaded(mem, file, phs)[a] == SegmentBytes(phs[i], file)[a - phs[i].paddr]
    {
      ByteSurvives(mem, file, phs, i, a);
    }
  }

  lemma NoneLaterCovers(phs: seq<Phdr>, i: nat, a: nat)
    requires i < |phs| && phs[i].kind == PT_LOAD && phs[i].paddr <= a < phs[i].paddr + phs[i].memsz
    requires forall a :: Covers(phs[i], a) ==> forall j :: i < j < |phs| ==> !Covers(phs[j], a)
    ensures Covers(phs[i], a) && LastCovering(phs, a) == i
  {
    assert Covers(phs[i], a);
  }

  lemma SliceIs(s: seq<byte>, at: nat, t: seq<byte>)
    requires StandsAt(s, at, t)
    ensures s[at..at + |t|] == t
  {
  }

  lemma ByteSurvives(mem: seq<byte>, file: seq<byte>, phs: seq<Phdr>, i: nat, a: nat)
    requires SegmentsFit(phs, file, |mem|) && i < |phs| && Covers(phs[i], a) && LastCovering(phs, a) == i
    ensures SegmentFits(phs[i], file, |mem|) && a < |mem|
    ensures Loaded(mem, file, phs)[a] == SegmentBytes(phs[i], file)[a - phs[i].paddr]
  {
    LoadedClosedForm(mem, file, phs, a);
    ByteOfSegment(phs[i], file, a);
  }

  // ---- The program break ----------------------------------------------------------------------

  function Break(phs: seq<Phdr>, before: nat): (b: nat) {
    if phs == [] then before
    else
      var ph := phs[|phs| - 1];
      if ph.kind == PT_LOAD then ph.paddr + ph.memsz else Break(phs[..|phs| - 1], before)
  }

  // The last loadable segment in table order; -1 when there is none.
  function LastLoadable(phs: seq<Phdr>): (k: int)
    ensures -1 <= k < |phs|
    ensures k >= 0 ==> phs[k].kind == PT_LOAD
    ensures forall j :: k < j < |phs| ==> phs[j].kind != PT_LOAD
  {
    if phs == [] then -1
    else if phs[|phs| - 1].kind == PT_LOAD then |phs| - 1
    else LastLoadable(phs[..|phs| - 1])
  }

  // The break is the end of the last loadable segment in table order, and untouched without one.
  lemma {:induction false} BreakIsLastEnd(phs: seq<Phdr>, before: nat)
    ensures var k := LastLoadable(phs);
            Break(phs, before) == if k < 0 then before else phs[k].paddr + phs[k].memsz
  {
    if phs != [] {
      BreakIsLastEnd(phs[..|phs| - 1], before);
    }
  }

  // Loadable segments in ascending, disjoint order of physical address.
  predicate Ascending(phs: seq<Phdr>) {
    forall i, j :: 0 <= i < j < |phs| && phs[i].kind == PT_LOAD && phs[j].kind == PT_LOAD ==>
      phs[i].paddr + phs[i].memsz <= phs[j].paddr
  }

  ghost predicate BreakBounds(phs: seq<Phdr>, before: nat) {
    forall i :: 0 <= i < |phs| && phs[i].kind == PT_LOAD ==> phs[i].paddr + phs[i].memsz <= Break(phs, before)
  }

  // The break bounds every loadable segment exactly when none before the last one in the table
  // ends above that one; in an ascending table this is so.
  lemma BreakBoundsIff(phs: seq<Phdr>, before: nat)
    requires LastLoadable(phs) >= 0
    ensures var last := phs[LastLoadable(phs)];
            BreakBounds(phs, before) <==>
            forall i :: 0 <= i < LastLoadable(phs) && phs[i].kind == PT_LOAD ==>
              phs[i].paddr + phs[i].memsz <= last.paddr + last.memsz
    ensures Ascending(phs) ==> BreakBounds(phs, before)
  {
    BreakIsLastEnd(phs, before);
  }

  // Out of order it need not: the break is where the last entry ends, not the highest one.
  lemma BreakBelowSegment(before: nat)
    ensures var high, low := Phdr(PT_LOAD, 0, 0x2000, 0, 0x1000), Phdr(PT_LOAD, 0, 0x1000, 0, 0x1000);
            Break([high, low], before) < high.paddr + high.memsz
  {
  }

  // ---- elf32_load -----------------------------------------------------------------------------

  // What elf32_load does with the file in the load buffer.
  function ElfOutcome(file: seq<byte>, size: nat): (r: LoadOutcome)
    requires |file| >= EHDR_SIZE
  {
    if !IsElf(file) || !IsI386Executable(file) then Asserted
    else if TableInside(file, PhNum(file)) && SegmentsFit(Table(file, PhNum(file)), file, size) then Done
    else Fault
  }

  // The header assertions, byte for byte.
  lemma ElfAssertedIff(file: seq<byte>, size: nat)
    requires |file| >= EHDR_SIZE
    ensures ElfOutcome(file, size) == Asserted
            <==> file[..5] != [0x7f, 0x45, 0x4c, 0x46, 1] || file[16..20] != [2, 0, 3, 0]
    ensures ElfOutcome(file, size) in {Asserted, Fault, Done}
  {
    assert file[..5] == [file[0], file[1], file[2], file[3], file[4]];
    assert file[16..20] == [file[16], file[17], file[18], file[19]];
    assert file[16..][0] == file[16] && file[16..][1] == file[17];
    assert file[18..][0] == file[18] && file[18..][1] == file[19];
  }

  // The value of a sum or difference of two 32-bit unsigned integers.
  function Wrap(n: int): (r: u32)
    requires -0x1_0000_0000 < n < 0x2_0000_0000
    ensures r == n % 0x1_0000_0000
  {
    if n < 0 then n + 0x1_0000_0000 else if n < 0x1_0000_0000 then n else n - 0x1_0000_0000
  }

  // The range memcpy reads and writes, and the one memset writes, in 32-bit arithmetic.
  predicate CopyInBounds(ph: Phdr, length: nat, size: nat) {
    ph.filesz > 0 ==> ph.offset + ph.filesz <= length && ph.paddr + ph.filesz <= size
  }

  predicate ZeroInBounds(ph: Phdr, size: nat) {
    var zeroAt, zeros := Wrap(ph.paddr + ph.filesz), Wrap(ph.memsz - ph.filesz);
    zeros > 0 ==> zeroAt + zeros <= size
  }

  // Both ranges are in bounds exactly when the segment fits: a file size above the memory size
  // wraps around to a count no memory has room for.
  lemma InBoundsIffFits(ph: Phdr, file: seq<byte>, size: nat)
    requires size < 0x1_0000_0000
    ensures CopyInBounds(ph, |file|, size) && ZeroInBounds(ph, size) <==> SegmentFits(ph, file, size)
    ensures SegmentFits(ph, file, size) ==>
      && Wrap(ph.memsz - ph.filesz) == ph.memsz - ph.filesz && Wrap(ph.paddr + ph.memsz) == ph.paddr + ph.memsz
      && (ph.memsz > 0 ==> Wrap(ph.paddr + ph.filesz) == ph.paddr + ph.filesz)
  {
  }

  // Memory after the memcpy of a segment, and after the memset behind it.
  function Copied(mem: seq<byte>, file: seq<byte>, ph: Phdr): (m: seq<byte>)
    requires CopyInBounds(ph, |file|, |mem|)
    ensures |m| == |mem|
  {
    if ph.filesz > 0 then Splice(mem, ph.paddr, file[ph.offset..ph.offset + ph.filesz]) else mem
  }

  function Zeroed(mem: seq<byte>, ph: Phdr): (m: seq<byte>)
    requires ZeroInBounds(ph, |mem|)
    ensures |m| == |mem|
  {
    var zeroAt, zeros := Wrap(ph.paddr + ph.filesz), Wrap(ph.memsz - ph.filesz);
    if zeros > 0 then Splice(mem, zeroAt, Filled(0, zeros)) else mem
  }

  method CopyFileBytes(ph: Phdr, buffer: array<byte>, mem: array<byte>)
    requires buffer != mem && CopyInBounds(ph, buffer.Length, mem.Length)
    modifies mem
    ensures mem[..] == Copied(old(mem[..]), buffer[..], ph)
  {
    if ph.filesz > 0 {
      MemCopy(mem, ph.paddr, buffer[ph.offset..ph.offset + ph.filesz]);
    }
  }

  method ZeroRest(ph: Phdr, mem: array<byte>)
    requires ZeroInBounds(ph, mem.Length)
    modifies mem
    ensures mem[..] == Zeroed(old(mem[..]), ph)
  {
    var zeroAt, zeros := Wrap(ph.paddr + ph.filesz), Wrap(ph.memsz - ph.filesz);
    if zeros > 0 {
      MemSet(mem, zeroAt, 0, zeros);
    }
  }

  // One iteration of the loop for a loadable segment: copy, zero the rest, set the break.
  method LoadSegment(ph: Phdr, buffer: array<byte>, mem: array<byte>, exec: Executable) returns (ok: bool)
    requires ph.kind == PT_LOAD && buffer != mem && mem.Length < 0x1_0000_0000
    modifies mem, exec`programBreak
    ensures ok <==> SegmentFits(ph, buffer[..], mem.Length)
    ensures ok ==> mem[..] == LoadedOne(old(mem[..]), buffer[..], ph)
    ensures ok ==> exec.programBreak == ph.paddr + ph.memsz
  {
    InBoundsIffFits(ph, buffer[..], mem.Length);
    if !CopyInBounds(ph, buffer.Length, mem.Length) {
      return false;
    }
    ghost var was := mem[..];
    CopyFileBytes(ph, buffer, mem);
    if !ZeroInBounds(ph, mem.Length) {
      return false;
    }
    ZeroRest(ph, mem);
    exec.programBreak := Wrap(ph.paddr + ph.memsz);
    CopyThenZero(was, buffer[..], ph);
    return true;
  }

  // Copying a segment's file bytes and zeroing the rest behind them is storing its memory image.
  lemma CopyThenZero(was: seq<byte>, file: seq<byte>, ph: Phdr)
    requires ph.kind == PT_LOAD && SegmentFits(ph, file, |was|) && |was| < 0x1_0000_0000
    ensures CopyInBounds(ph, |file|, |was|) && ZeroInBounds(ph, |was|)
    ensures Zeroed(Copied(was, file, ph), ph) == LoadedOne(was, file, ph)
  {
    InBoundsIffFits(ph, file, |was|);
    var bytes, zeros := SourceBytes(ph, file), Filled(0, ph.memsz - ph.filesz);
    if ph.memsz > 0 {
      SpliceSplice(was, ph.paddr, bytes, zeros);
      assert ph.filesz == 0 ==> Splice(was, ph.paddr, bytes) == was;
      assert ph.filesz == ph.memsz ==> bytes + zeros == bytes;
    }
  }

  lemma TableOneMore(mem: seq<byte>, file: seq<byte>, i: nat, before: nat)
    requires |file| >= EHDR_SIZE && TableInside(file, i + 1) && SegmentsFit(Table(file, i), file, |mem|)
    ensures var phs, ph := Table(file, i), PhdrAt(file, i);
            && SegmentsFit(Table(file, i + 1), file, |mem|) == (ph.kind == PT_LOAD ==> SegmentFits(ph, file, |mem|))
            && Break(Table(file, i + 1), before) ==
               (if ph.kind == PT_LOAD then ph.paddr + ph.memsz else Break(phs, before))
            && (SegmentsFit(Table(file, i + 1), file, |mem|) ==>
                  Loaded(mem, file, Table(file, i + 1)) ==
                  LoadedOne(Loaded(mem, file, phs), file, ph))
  {
    var phs, more := Table(file, i), Table(file, i + 1);
    assert more[..i] == phs;
  }

  // The first i entries of the table have been loaded without a fault.
  ghost predicate LoadedSoFar(was: seq<byte>, before: nat, file: seq<byte>, i: nat, now: seq<byte>, programBreak: nat)
    requires |file| >= EHDR_SIZE
  {
    && TableInside(file, i) && SegmentsFit(Table(file, i), file, |was|)
    && now == Loaded(was, file, Table(file, i)) && programBreak == Break(Table(file, i), before)
  }

  lemma LoadedNone(was: seq<byte>, before: nat, file: seq<byte>)
    requires |file| >= EHDR_SIZE
    ensures LoadedSoFar(was, before, file, 0, was, before)
  {
  }

  lemma LoadedOneMore(was: seq<byte>, before: nat, file: seq<byte>, i: nat, now: seq<byte>, programBreak: nat)
    requires |file| >= EHDR_SIZE && LoadedSoFar(was, before, file, i, now, programBreak)
    requires PhdrInside(file, i)
    ensures var ph := PhdrAt(file, i);
            && (ph.kind != PT_LOAD ==> LoadedSoFar(was, before, file, i + 1, now, programBreak))
            && (ph.kind == PT_LOAD && SegmentFits(ph, file, |was|) ==>
                  LoadedSoFar(was, before, file, i + 1, LoadedOne(now, file, ph), ph.paddr + ph.memsz))
  {
    TableOneMore(was, file, i, before);
  }

  // Entry i is outside the load buffer or does not fit: the load faults.
  lemma FaultsAt(file: seq<byte>, i: nat, size: nat)
    requires |file| >= EHDR_SIZE && IsElf(file) && IsI386Executable(file) && i < PhNum(file)
    requires PhdrInside(file, i) ==> var ph := PhdrAt(file, i); ph.kind == PT_LOAD && !SegmentFits(ph, file, size)
    ensures ElfOutcome(file, size) == Fault
  {
  }

  // The whole table has been loaded.
  lemma LoadedAll(was: seq<byte>, before: nat, file: seq<byte>, now: seq<byte>, programBreak: nat)
    requires |file| >= EHDR_SIZE && IsElf(file) && IsI386Executable(file)
    requires LoadedSoFar(was, before, file, PhNum(file), now, programBreak)
    ensures ElfOutcome(file, |was|) == Done
    ensures var phs := Table(file, PhNum(file)); now == Loaded(was, file, phs) && programBreak == Break(phs, before)
  {
  }

  // The body of the loop over the program header table.
  method LoadEntry(file: seq<byte>, i: nat, buffer: array<byte>, mem: array<byte>, exec: Executable,
                   ghost was: seq<byte>, ghost before: nat)
    returns (ok: bool)
    requires buffer != mem && buffer[..] == file && mem.Length == |was| < 0x1_0000_0000
    requires |file| >= EHDR_SIZE && IsElf(file) && IsI386Executable(file) && i < PhNum(file)
    requires LoadedSoFar(was, before, file, i, mem[..], exec.programBreak)
    modifies mem, exec`programBreak
    ensures ok ==> LoadedSoFar(was, before, file, i + 1, mem[..], exec.programBreak)
    ensures !ok ==> ElfOutcome(file, |was|) == Fault
  {
    if !PhdrInside(file, i) {
      FaultsAt(file, i, |was|);
      return false;
    }
    var phdr := PhdrAt(file, i);
    LoadedOneMore(was, before, file, i, mem[..], exec.programBreak);
    if phdr.kind != PT_LOAD {
      return true;
    }
    ok := LoadSegment(phdr, buffer, mem, exec);
    if !ok {
      FaultsAt(file, i, |was|);
    }
  }

  // The loop over the program header table.
  method LoadTable(file: seq<byte>, buffer: array<byte>, mem: array<byte>, exec: Executable) returns (ok: bool)
    requires buffer != mem && buffer[..] == file && mem.Length < 0x1_0000_0000
    requires |file| >= EHDR_SIZE && IsElf(file) && IsI386Executable(file)
    modifies mem, exec`programBreak
    ensures ok ==> LoadedSoFar(old(mem[..]), old(exec.programBreak), file, PhNum(file), mem[..], exec.programBreak)
    ensures !ok ==> ElfOutcome(file, mem.Length) == Fault
  {
    ghost var was, before := mem[..], exec.programBreak;
    LoadedNone(was, before, file);
    for i := 0 to PhNum(file)
      invariant LoadedSoFar(was, before, file, i, mem[..], exec.programBreak)
    {
      ok := LoadEntry(file, i, buffer, mem, exec, was, before);
      if !ok {
        return;
      }
    }
    return true;
  }

  // elf32_load on the file in the load buffer.
  method Elf32Load(buffer: array<byte>, mem: array<byte>, exec: Executable) returns (r: LoadOutcome)
    requires buffer.Length >= EHDR_SIZE && buffer != mem && mem.Length < 0x1_0000_0000
    modifies mem, exec
    ensures r == ElfOutcome(buffer[..], mem.Length)
    ensures r == Asserted <==> buffer[..5] != [0x7f, 0x45, 0x4c, 0x46, 1] || buffer[16..20] != [2, 0, 3, 0]
    ensures r == Asserted ==> mem[..] == old(mem[..]) && unchanged(exec)
    ensures r == Fault ==> exec.entryPoint == old(exec.entryPoint) && exec.kind == Elf32Executable
    ensures r == Done ==>
      var file := buffer[..];
      && exec.entryPoint == EntryPoint(file) && exec.kind == Elf32Executable
      && var phs := Table(file, PhNum(file));
         mem[..] == Loaded(old(mem[..]), file, phs) && exec.programBreak == Break(phs, old(exec.programBreak))
  {
    var file := buffer[..];
    ElfAssertedIff(file, mem.Length);
    assert file[..5] == buffer[..5] && file[16..20] == buffer[16..20];
    if !IsElf(file) || !IsI386Executable(file) {
      return Asserted;
    }
    exec.kind := Elf32Executable;
    ghost var was, before := mem[..], exec.programBreak;
    var ok := LoadTable(file, buffer, mem, exec);
    if !ok {
      return Fault;
    }
    LoadedAll(was, before, file, mem[..], exec.programBreak);
    exec.entryPoint := EntryPoint(file);
    return Done;
  }

  // ---- flat_binary_load and executable_load ---------------------------------------------------

  // How a read outcome is taken by the loaders: any negative return value is a failure.
  function AfterRead(r: ReadOutcome): (l: LoadOutcome) {
    match r
    case AssertionFailed => Asserted
    case OutOfBounds => Fault
    case Returned(value) => if value < 0 then Failed else Done
  }

  // The bytes t stand in memory at an address, and every other byte is as it was.
  predicate AtAddress(was: seq<byte>, address: nat, t: seq<byte>, now: seq<byte>) {
    && |now| == |was| && StandsAt(now, address, t)
    && (forall a :: 0 <= a < |now| && (a < address || address + |t| <= a) ==> now[a] == was[a])
  }

  // flat_binary_load. The kind is set before the read; the program break is never set.
  method FlatBinaryLoad(root: FsEntry, parts: seq<Name>, disk: seq<byte>, mem: array<byte>, exec: Executable,
                        ghost S: set<object>)
    returns (r: LoadOutcome)
    requires root in S && Represents(S) && root.kind.FsTypeDirectory?
    requires EXECUTABLE_BASE_ADDRESS <= mem.Length < 0x1_0000_0000
    modifies mem, exec
    ensures var read := ReadResult(root.tree, parts, disk, mem.Length - EXECUTABLE_BASE_ADDRESS);
            var w := Walk(root.tree, parts);
            && r == AfterRead(read)
            && (r == Done ==> w.Found?)
            && mem[..] == (if w.Found? && read.Returned?
                           then Splice(old(mem[..]), EXECUTABLE_BASE_ADDRESS,
                                       AtaRead(disk, w.file.data.startSector, w.file.data.size))
                           else old(mem[..]))
    ensures exec.kind == FlatExecutable && exec.programBreak == old(exec.programBreak)
    ensures exec.entryPoint == if r == Done then 0x9_0000 else old(exec.entryPoint)
    ensures match Walk(root.tree, parts)
            case AssertionFails => r == Asserted
            case Missing => r == Failed
            case Found(f) =>
              if (f.data.size > 0 && f.data.startSector * 512 + f.data.size > |disk|)
                 || 0x9_0000 + f.data.size > mem.Length
              then r == Fault
              else && r == (if f.data.size < 0x8000_0000 then Done else Failed)
                   && AtAddress(old(mem[..]), 0x9_0000, AtaRead(disk, f.data.startSector, f.data.size), mem[..])
  {
    exec.kind := FlatExecutable;
    var read := ReadFile(root, parts, disk, mem, EXECUTABLE_BASE_ADDRESS, S);
    r := AfterRead(read);
    if r == Done {
      exec.entryPoint := EXECUTABLE_BASE_ADDRESS;
    }
  }

  // The load buffer after the file at path has been read over its previous contents.
  function BufferAfter(buffer: seq<byte>, contents: seq<byte>): (b: seq<byte>)
    requires |contents| <= |buffer|
    ensures |b| == |buffer|
  {
    Splice(buffer, 0, contents)
  }

  // executable_load: what it leaves behind, by what the path resolves to and what the load buffer
  // then starts with.
  method ExecutableLoad(root: FsEntry, parts: seq<Name>, disk: seq<byte>, buffer: array<byte>, mem: array<byte>,
                        exec: Executable, ghost S: set<object>)
    returns (r: LoadOutcome)
    requires root in S && Represents(S) && root.kind.FsTypeDirectory?
    requires buffer !in S && mem !in S && exec !in S
    requires buffer.Length == BUFFER_SIZE && buffer != mem
    requires EXECUTABLE_BASE_ADDRESS <= mem.Length < 0x1_0000_0000
    modifies buffer, mem, exec
    ensures match Walk(root.tree, parts)
            case AssertionFails => r == Asserted && mem[..] == old(mem[..]) && unchanged(exec)
            case Missing => r == Failed && mem[..] == old(mem[..]) && unchanged(exec)
            case Found(f) =>
              if !Readable(f.data, disk) || f.data.size > 153_600 then
                r == Fault && mem[..] == old(mem[..]) && unchanged(exec)
              else
                var contents := AtaRead(disk, f.data.startSector, f.data.size);
                var file := BufferAfter(old(buffer[..]), contents);
                if IsElf(file) then
                  && r == ElfOutcome(file, mem.Length)
                  && (r == Asserted <==> file[4] != 1 || file[16..20] != [2, 0, 3, 0])
                  && (r == Asserted ==> mem[..] == old(mem[..]) && unchanged(exec))
                  && (r == Fault ==> exec.entryPoint == old(exec.entryPoint) && exec.kind == Elf32Executable)
                  && (r == Done ==>
                        var phs := Table(file, PhNum(file));
                        && mem[..] == Loaded(old(mem[..]), file, phs)
                        && exec.programBreak == Break(phs, old(exec.programBreak))
                        && exec.entryPoint == EntryPoint(file) && exec.kind == Elf32Executable)
                else
                  && exec.kind == FlatExecutable && exec.programBreak == old(exec.programBreak)
                  && if 0x9_0000 + |contents| > mem.Length
                     then r == Fault && mem[..] == old(mem[..]) && exec.entryPoint == old(exec.entryPoint)
                     else && r == Done && AtAddress(old(mem[..]), 0x9_0000, contents, mem[..])
                          && exec.entryPoint == 0x9_0000
  {
    var read := ReadFile(root, parts, disk, buffer, 0, S);
    r := AfterRead(read);
    if r == Done {
      if IsElf(buffer[..]) {
        assert buffer[..5] == buffer[..4] + [buffer[4]];
        r := Elf32Load(buffer, mem, exec);
      } else {
        r := FlatBinaryLoad(root, parts, disk, mem, exec, S);
      }
    }
  }

  // The dispatch looks at the load buffer, not at the file. It depends on the file alone, whatever
  // n bytes the buffer held before, exactly when the file has four bytes or already differs from
  // the magic number.
  lemma DispatchOnFileIff(n: nat, contents: seq<byte>)
    requires 4 <= n && |contents| <= n
    ensures (forall a: seq<byte>, b: seq<byte> :: |a| == n && |b| == n ==>
               IsElf(BufferAfter(a, contents)) == IsElf(BufferAfter(b, contents)))
            <==> |contents| >= 4 || !(contents <= ELF_MAGIC)
  {
    if |contents| < 4 && contents <= ELF_MAGIC {
      var a, b := ELF_MAGIC + Filled(0, n - 4), Filled(0, n);
      DispatchOnShortFile(a, contents);
      DispatchOnShortFile(b, contents);
      assert ELF_MAGIC[|contents|..][3 - |contents|] == 0x46 && b[|contents|..4][3 - |contents|] == 0;
      assert IsElf(BufferAfter(a, contents)) != IsElf(BufferAfter(b, contents));
    } else {
      forall a: seq<byte>, b: seq<byte> | |a| == n && |b| == n
        ensures IsElf(BufferAfter(a, contents)) == IsElf(BufferAfter(b, contents))
      {
        if |contents| < 4 {
          DispatchOnShortFile(a, contents);
          DispatchOnShortFile(b, contents);
        } else {
          DispatchOnLongFile(a, contents);
          DispatchOnLongFile(b, contents);
        }
      }
    }
  }

  lemma DispatchOnLongFile(buffer: seq<byte>, contents: seq<byte>)
    requires 4 <= |contents| <= |buffer|
    ensures IsElf(BufferAfter(buffer, contents)) <==> IsElf(contents)
  {
  }

  // A shorter file is taken for ELF exactly when it is the beginning of the magic number and an
  // earlier load left the rest of it in the buffer.
  lemma DispatchOnShortFile(buffer: seq<byte>, contents: seq<byte>)
    requires |contents| < 4 <= |buffer|
    ensures IsElf(BufferAfter(buffer, contents))
            <==> contents <= ELF_MAGIC && ELF_MAGIC[|contents|..] == buffer[|contents|..4]
  {
    var file := BufferAfter(buffer, contents);
    assert file[..4] == contents + buffer[|contents|..4];
    assert IsElf(file) <==> ELF_MAGIC == file[..4];
    assert ELF_MAGIC[..|contents|] + ELF_MAGIC[|contents|..] == ELF_MAGIC;
  }

  // The empty file is such a file: flat in a cleared buffer, ELF after an ELF file.
  lemma EmptyFileDispatch()
    ensures !IsElf(BufferAfter(Filled(0, BUFFER_SIZE), []))
    ensures IsElf(BufferAfter(ELF_MAGIC + Filled(0, BUFFER_SIZE - 4), []))
  {
  }

  // A whole ELF file inside a longer one, with the same header, table and effect on memory.
  predicate LoadsAlike(file: seq<byte>, contents: seq<byte>, mem: seq<byte>)
    requires EHDR_SIZE <= |contents| <= |file| && TableInside(contents, PhNum(contents))
    requires SegmentsFit(Table(contents, PhNum(contents)), contents, |mem|)
  {
    && PhNum(file) == PhNum(contents) && EntryPoint(file) == EntryPoint(contents)
    && IsI386Executable(file) == IsI386Executable(contents)
    && TableInside(file, PhNum(file)) && Table(file, PhNum(file)) == Table(contents, PhNum(contents))
    && SegmentsFit(Table(file, PhNum(file)), file, |mem|)
    && Loaded(mem, file, Table(file, PhNum(file))) == Loaded(mem, contents, Table(contents, PhNum(contents)))
  }

  // An ELF file whose header, table and segments all lie inside it is loaded from its own bytes:
  // what the buffer held before does not matter.
  lemma OldBufferIrrelevant(buffer: seq<byte>, contents: seq<byte>, mem: seq<byte>)
    requires EHDR_SIZE <= |contents| <= |buffer| && TableInside(contents, PhNum(contents))
    requires SegmentsFit(Table(contents, PhNum(contents)), contents, |mem|)
    ensures LoadsAlike(BufferAfter(buffer, contents), contents, mem)
  {
    BufferExtends(buffer, contents);
    SameFile(BufferAfter(buffer, contents), contents, mem);
  }

  // The byte a load leaves at an address, if it is copied from the load buffer at all, lies within
  // the first n bytes there.
  predicate CopiedFrom(phs: seq<Phdr>, n: nat, address: nat) {
    var k := LastCovering(phs, address);
    k >= 0 && address - phs[k].paddr < phs[k].filesz ==> phs[k].offset + (address - phs[k].paddr) < n
  }

  // No segment is compared with the length of the file: one that runs past it copies what an earlier
  // load left in the buffer. A table that fits a load buffer of n bytes loads the same whatever that
  // held exactly when every byte that is copied and stays in memory comes from inside the file.
  lemma LoadedFromFileIff(n: nat, contents: seq<byte>, mem: seq<byte>, phs: seq<Phdr>)
    requires |contents| <= n && forall file: seq<byte> :: |file| == n ==> SegmentsFit(phs, file, |mem|)
    ensures (forall a: seq<byte>, b: seq<byte> :: |a| == n && |b| == n ==>
               Loaded(mem, BufferAfter(a, contents), phs) == Loaded(mem, BufferAfter(b, contents), phs))
            <==> forall address :: 0 <= address < |mem| ==> CopiedFrom(phs, |contents|, address)
  {
    if address :| 0 <= address < |mem| && !CopiedFrom(phs, |contents|, address) {
      var a, b := Filled(0, n), Filled(1, n);
      LoadedClosedForm(mem, BufferAfter(a, contents), phs, address);
      LoadedClosedForm(mem, BufferAfter(b, contents), phs, address);
      assert Loaded(mem, BufferAfter(a, contents), phs) != Loaded(mem, BufferAfter(b, contents), phs);
    } else {
      forall a: seq<byte>, b: seq<byte> | |a| == n && |b| == n
        ensures Loaded(mem, BufferAfter(a, contents), phs) == Loaded(mem, BufferAfter(b, contents), phs)
      {
        LoadedFromFile(a, b, contents, mem, phs);
      }
    }
  }

  lemma LoadedFromFile(a: seq<byte>, b: seq<byte>, contents: seq<byte>, mem: seq<byte>, phs: seq<Phdr>)
    requires |contents| <= |a| == |b|
    requires SegmentsFit(phs, BufferAfter(a, contents), |mem|) && SegmentsFit(phs, BufferAfter(b, contents), |mem|)
    requires forall address :: 0 <= address < |mem| ==> CopiedFrom(phs, |contents|, address)
    ensures Loaded(mem, BufferAfter(a, contents), phs) == Loaded(mem, BufferAfter(b, contents), phs)
  {
    var one, other := Loaded(mem, BufferAfter(a, contents), phs), Loaded(mem, BufferAfter(b, contents), phs);
    forall address | 0 <= address < |mem| ensures one[address] == other[address] {
      assert CopiedFrom(phs, |contents|, address);
      LoadedClosedForm(mem, BufferAfter(a, contents), phs, address);
      LoadedClosedForm(mem, BufferAfter(b, contents), phs, address);
    }
  }

  predicate Extends(file: seq<byte>, contents: seq<byte>) {
    |contents| <= |file| && file[..|contents|] == contents
  }

  lemma BufferExtends(buffer: seq<byte>, contents: seq<byte>)
    requires |contents| <= |buffer|
    ensures Extends(BufferAfter(buffer, contents), contents)
  {
  }

  lemma SameFile(file: seq<byte>, contents: seq<byte>, mem: seq<byte>)
    requires Extends(file, contents) && EHDR_SIZE <= |contents| && TableInside(contents, PhNum(contents))
    requires SegmentsFit(Table(contents, PhNum(contents)), contents, |mem|)
    ensures LoadsAlike(file, contents, mem)
  {
    SameHeader(file, contents);
    SameTable(file, contents, PhNum(contents));
    SameLoaded(mem, file, contents, Table(contents, PhNum(contents)));
  }

  lemma SameHeader(file: seq<byte>, contents: seq<byte>)
    requires Extends(file, contents) && |contents| >= EHDR_SIZE
    ensures PhNum(file) == PhNum(contents) && EntryPoint(file) == EntryPoint(contents)
    ensures PhOff(file) == PhOff(contents) && PhEntSize(file) == PhEntSize(contents)
    ensures IsI386Executable(file) == IsI386Executable(contents)
  {
    assert forall k :: 0 <= k < |contents| ==> file[k] == contents[k];
  }

  lemma ReadPhdrPrefix(a: seq<byte>, b: seq<byte>)
    requires |a| >= PHDR_SIZE && |b| >= PHDR_SIZE && a[..PHDR_SIZE] == b[..PHDR_SIZE]
    ensures ReadPhdr(a) == ReadPhdr(b)
  {
  }

  lemma SamePiece(file: seq<byte>, contents: seq<byte>, at: nat, n: nat)
    requires Extends(file, contents) && at + n <= |contents|
    ensures file[at..at + n] == contents[at..at + n]
    ensures file[at..][..n] == contents[at..][..n]
  {
    var piece, same := file[at..at + n], contents[at..at + n];
    forall k | 0 <= k < n ensures piece[k] == same[k] {
      assert file[..|contents|][at + k] == contents[at + k];
    }
    assert piece == same;
    assert file[at..][..n] == piece && contents[at..][..n] == same;
  }

  lemma SamePhdr(file: seq<byte>, contents: seq<byte>, i: nat)
    requires Extends(file, contents) && |contents| >= EHDR_SIZE && PhdrInside(contents, i)
    ensures PhdrInside(file, i) && PhdrAt(file, i) == PhdrAt(contents, i)
  {
    SameHeader(file, contents);
    var at := PhdrOffset(contents, i);
    assert PhdrOffset(file, i) == at;
    SamePiece(file, contents, at, PHDR_SIZE);
    ReadPhdrPrefix(file[at..], contents[at..]);
  }

  lemma SameTable(file: seq<byte>, contents: seq<byte>, n: nat)
    requires Extends(file, contents) && |contents| >= EHDR_SIZE && TableInside(contents, n)
    ensures TableInside(file, n) && Table(file, n) == Table(contents, n)
  {
    forall i | 0 <= i < n ensures PhdrInside(file, i) && PhdrAt(file, i) == PhdrAt(contents, i) {
      assert PhdrInside(contents, i);
      SamePhdr(file, contents, i);
    }
    assert forall i :: 0 <= i < n ==> Table(file, n)[i] == Table(contents, n)[i];
  }

  lemma SameSegment(mem: seq<byte>, file: seq<byte>, contents: seq<byte>, ph: Phdr)
    requires Extends(file, contents) && (ph.kind == PT_LOAD ==> SegmentFits(ph, contents, |mem|))
    ensures ph.kind == PT_LOAD ==> SegmentFits(ph, file, |mem|)
    ensures LoadedOne(mem, file, ph) == LoadedOne(mem, contents, ph)
  {
    if ph.kind == PT_LOAD && ph.filesz > 0 {
      SamePiece(file, contents, ph.offset, ph.filesz);
    }
  }

  lemma {:induction false} SameLoaded(mem: seq<byte>, file: seq<byte>, contents: seq<byte>, phs: seq<Phdr>)
    requires Extends(file, contents) && SegmentsFit(phs, contents, |mem|)
    ensures SegmentsFit(phs, file, |mem|) && Loaded(mem, file, phs) == Loaded(mem, contents, phs)
  {
    forall i | 0 <= i < |phs| && phs[i].kind == PT_LOAD ensures SegmentFits(phs[i], file, |mem|) {
      assert SegmentFits(phs[i], contents, |mem|);
    }
    if phs != [] {
      var front := phs[..|phs| - 1];
      SameLoaded(mem, file, contents, front);
      SameSegment(Loaded(mem, file, front), file, contents, phs[|phs| - 1]);
    }
  }
}
