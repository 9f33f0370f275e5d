// elf/executable.c, lines 49-84, on files whose bytes are given: what elf32_load makes of a program
// header table written entry by entry, all numbers spelled out.
module ElfFile {
  import opened Bytes
  import opened ExecutableLoader

  // The bytes of table entry i stand e_phentsize * i behind e_phoff.
  ghost predicate HoldsTable(file: seq<byte>, phoff: nat, phentsize: nat, ws: seq<WrittenPhdr>) {
    forall i :: 0 <= i < |ws| ==> HoldsEntry(file, phoff + phentsize * i, ws[i])
  }

  predicate HoldsEntry(file: seq<byte>, at: nat, w: WrittenPhdr) {
    at + 32 <= |file| && file[at..at + 32] == PhdrBytes(w)
  }

  // A 32-bit i386 executable with its entry address and the place and size of its table.
  predicate HoldsHeader(file: seq<byte>, entry: u32, phoff: u32, phentsize: u16, phnum: u16) {
    && 52 <= |file| < 0x1_0000_0000
    && file[..5] == [0x7f, 0x45, 0x4c, 0x46, 1] && file[16..20] == [2, 0, 3, 0]
    && file[24..28] == U32Bytes(entry) && file[28..32] == U32Bytes(phoff)
    && file[42..44] == U16Bytes(phentsize) && file[44..46] == U16Bytes(phnum)
  }

  lemma HeaderRead(file: seq<byte>, entry: u32, phoff: u32, phentsize: u16, phnum: u16)
    requires HoldsHeader(file, entry, phoff, phentsize, phnum)
    ensures IsElf(file) && IsI386Executable(file) && EntryPoint(file) == entry
    ensures PhOff(file) == phoff && PhEntSize(file) == phentsize && PhNum(file) == phnum
  {
    ElfAssertedIff(file, 0);
    ReadU32At(file, 24, entry) by {
      assert forall k :: 0 <= k < 4 ==> file[24 + k] == file[24..28][k];
    }
    ReadU32At(file, 28, phoff) by {
      assert forall k :: 0 <= k < 4 ==> file[28 + k] == file[28..32][k];
    }
    assert file[42] == file[42..44][0] && file[43] == file[42..44][1];
    assert file[44] == file[44..46][0] && file[45] == file[44..46][1];
    ReadU16At(file, 42, phentsize);
    ReadU16At(file, 44, phnum);
  }

  function Loads(w: WrittenPhdr): (ph: Phdr) {
    Phdr(w.kind, w.offset, w.paddr, w.filesz, w.memsz)
  }

  // The table read is the table written.
  lemma TableRead(file: seq<byte>, entry: u32, phoff: u32, phentsize: u16, ws: seq<WrittenPhdr>)
    requires |ws| < 0x1_0000 && HoldsHeader(file, entry, phoff, phentsize, |ws|)
    requires HoldsTable(file, phoff, phentsize, ws)
    ensures PhNum(file) == |ws| && TableInside(file, |ws|)
    ensures forall i :: 0 <= i < |ws| ==> Table(file, |ws|)[i] == Loads(ws[i])
  {
    HeaderRead(file, entry, phoff, phentsize, |ws|);
    forall i | 0 <= i < |ws| ensures PhdrInside(file, i) && PhdrAt(file, i) == Loads(ws[i]) {
      EntryRead(file, phoff, phentsize, ws, i);
    }
  }

  lemma EntryRead(file: seq<byte>, phoff: nat, phentsize: nat, ws: seq<WrittenPhdr>, i: nat)
    requires 52 <= |file| < 0x1_0000_0000 && PhOff(file) == phoff && PhEntSize(file) == phentsize
    requires HoldsTable(file, phoff, phentsize, ws) && i < |ws|
    ensures PhdrInside(file, i) && PhdrAt(file, i) == Loads(ws[i])
  {
    var at := EntryHeld(file, phoff, phentsize, ws, i);
    EntryReadAt(file, i, at, ws[i]);
  }

  lemma EntryHeld(file: seq<byte>, phoff: nat, phentsize: nat, ws: seq<WrittenPhdr>, i: nat) returns (at: nat)
    requires HoldsTable(file, phoff, phentsize, ws) && i < |ws|
    ensures at == phoff + phentsize * i && HoldsEntry(file, at, ws[i])
  {
    at := phoff + phentsize * i;
  }

  lemma EntryReadAt(file: seq<byte>, i: nat, at: nat, w: WrittenPhdr)
    requires 52 <= |file| < 0x1_0000_0000 && at == PhOff(file) + PhEntSize(file) * i && HoldsEntry(file, at, w)
    ensures PhdrInside(file, i) && PhdrAt(file, i) == Loads(w)
  {
    Small(at, 0x1_0000_0000);
    EntryBytes(file, at, w);
  }

  lemma Small(n: nat, m: nat)
    requires n < m
    ensures n % m == n
  {
  }

  lemma EntryBytes(file: seq<byte>, at: nat, w: WrittenPhdr)
    requires HoldsEntry(file, at, w)
    ensures ReadPhdr(file[at..]) == Loads(w)
  {
    assert file[at..][..32] == PhdrBytes(w)[..32];
    ReadPhdrPrefix(file[at..], PhdrBytes(w));
    PhdrFields(w);
  }

  // Type 1, and the ranges it copies from, copies to and clears in bounds.
  predicate InBounds(w: WrittenPhdr, length: nat, size: nat) {
    && w.filesz <= w.memsz && (w.filesz > 0 ==> w.offset + w.filesz <= length)
    && (w.memsz > 0 ==> w.paddr + w.memsz <= size)
  }

  predicate Reaches(w: WrittenPhdr, address: nat) {
    w.kind == 1 && w.paddr <= address < w.paddr + w.memsz
  }

  // Entry k is the last of type 1 that reaches an address; the last of type 1 at all.
  predicate LastToReach(ws: seq<WrittenPhdr>, k: nat, address: nat) {
    k < |ws| && Reaches(ws[k], address) && forall j :: k < j < |ws| ==> !Reaches(ws[j], address)
  }

  predicate LastOfTypeOne(ws: seq<WrittenPhdr>, k: nat) {
    k < |ws| && ws[k].kind == 1 && forall j :: k < j < |ws| ==> ws[j].kind != 1
  }

  // The table phs is the one written.
  predicate IsTable(phs: seq<Phdr>, ws: seq<WrittenPhdr>) {
    |phs| == |ws| && forall i :: 0 <= i < |ws| ==> phs[i] == Loads(ws[i])
  }

  lemma FitsWhenInBounds(phs: seq<Phdr>, ws: seq<WrittenPhdr>, file: seq<byte>, size: nat)
    requires IsTable(phs, ws)
    ensures SegmentsFit(phs, file, size) <==>
            forall i :: 0 <= i < |ws| && ws[i].kind == 1 ==> InBounds(ws[i], |file|, size)
  {
    forall i | 0 <= i < |ws|
      ensures (phs[i].kind == PT_LOAD <==> ws[i].kind == 1) &&
              (SegmentFits(phs[i], file, size) <==> InBounds(ws[i], |file|, size))
    {
      assert phs[i] == Loads(ws[i]);
    }
  }

  lemma ReachedByLast(phs: seq<Phdr>, ws: seq<WrittenPhdr>, k: nat, address: nat)
    requires IsTable(phs, ws) && LastToReach(ws, k, address)
    ensures LastCovering(phs, address) == k
  {
    assert Covers(phs[k], address);
    assert forall j :: k < j < |phs| ==> !Covers(phs[j], address);
  }

  lemma ReachedByNone(phs: seq<Phdr>, ws: seq<WrittenPhdr>, address: nat)
    requires IsTable(phs, ws) && forall k :: 0 <= k < |ws| ==> !Reaches(ws[k], address)
    ensures LastCovering(phs, address) == -1
  {
    assert forall k :: 0 <= k < |phs| ==> !Covers(phs[k], address);
  }

  // What address a holds once a written table has been loaded.
  ghost predicate HoldsWritten(mem: seq<byte>, file: seq<byte>, ws: seq<WrittenPhdr>, now: seq<byte>, a: nat) {
    && a < |mem| == |now|
    && (forall k: nat :: LastToReach(ws, k, a) ==>
          var w, n := ws[k], a - ws[k].paddr;
          if n < w.filesz then w.offset + n < |file| && now[a] == file[w.offset + n] else now[a] == 0)
    && ((forall k :: 0 <= k < |ws| ==> !Reaches(ws[k], a)) ==> now[a] == mem[a])
  }

  lemma ReachedByte(mem: seq<byte>, file: seq<byte>, phs: seq<Phdr>, ws: seq<WrittenPhdr>, k: nat, a: nat)
    requires IsTable(phs, ws) && SegmentsFit(phs, file, |mem|) && a < |mem| && LastToReach(ws, k, a)
    ensures var w, n := ws[k], a - ws[k].paddr;
            var now := Loaded(mem, file, phs);
            if n < w.filesz then w.offset + n < |file| && now[a] == file[w.offset + n] else now[a] == 0
  {
    LoadedClosedForm(mem, file, phs, a);
    ReachedByLast(phs, ws, k, a);
    assert SegmentFits(phs[k], file, |mem|);
  }

  lemma HoldsWrittenAt(mem: seq<byte>, file: seq<byte>, phs: seq<Phdr>, ws: seq<WrittenPhdr>, a: nat)
    requires IsTable(phs, ws) && SegmentsFit(phs, file, |mem|) && a < |mem|
    ensures HoldsWritten(mem, file, ws, Loaded(mem, file, phs), a)
  {
    var now := Loaded(mem, file, phs);
    forall k: nat | LastToReach(ws, k, a)
      ensures var w, n := ws[k], a - ws[k].paddr;
              if n < w.filesz then w.offset + n < |file| && now[a] == file[w.offset + n] else now[a] == 0
    {
      ReachedByte(mem, file, phs, ws, k, a);
    }
    if forall k :: 0 <= k < |ws| ==> !Reaches(ws[k], a) {
      ReachedByNone(phs, ws, a);
      LoadedClosedForm(mem, file, phs, a);
    }
  }

  // Where the program break is after a written table.
  ghost predicate BreakOf(ws: seq<WrittenPhdr>, before: nat, now: nat) {
    && (forall k: nat :: LastOfTypeOne(ws, k) ==> now == ws[k].paddr + ws[k].memsz)
    && ((forall k :: 0 <= k < |ws| ==> ws[k].kind != 1) ==> now == before)
  }

  lemma BreakWritten(phs: seq<Phdr>, ws: seq<WrittenPhdr>, before: nat)
    requires IsTable(phs, ws)
    ensures BreakOf(ws, before, Break(phs, before))
  {
    BreakIsLastEnd(phs, before);
    forall k: nat | LastOfTypeOne(ws, k) ensures LastLoadable(phs) == k {
      assert phs[k].kind == PT_LOAD && forall j :: k < j < |phs| ==> phs[j].kind != PT_LOAD;
    }
  }

  // elf32_load on any file whose header and table are given byte for byte. It succeeds exactly when
  // every entry of type 1 is in bounds. Then every address holds the byte of the last such entry
  // that reaches it, copied from its place in the file or cleared; addresses none reaches are as
  // they were; the break is the end of the last entry of type 1.
  lemma WrittenTableLoads(file: seq<byte>, entry: u32, phoff: u32, phentsize: u16, ws: seq<WrittenPhdr>,
                          mem: seq<byte>, before: nat)
    requires |ws| < 0x1_0000 && HoldsHeader(file, entry, phoff, phentsize, |ws|)
    requires HoldsTable(file, phoff, phentsize, ws)
    ensures EntryPoint(file) == entry && PhNum(file) == |ws| && TableInside(file, |ws|)
    ensures ElfOutcome(file, |mem|) ==
      if forall i :: 0 <= i < |ws| && ws[i].kind == 1 ==> InBounds(ws[i], |file|, |mem|) then Done else Fault
    ensures ElfOutcome(file, |mem|) == Done ==>
      forall a :: 0 <= a < |mem| ==> HoldsWritten(mem, file, ws, Loaded(mem, file, Table(file, |ws|)), a)
    ensures BreakOf(ws, before, Break(Table(file, |ws|), before))
  {
    HeaderRead(file, entry, phoff, phentsize, |ws|);
    TableRead(file, entry, phoff, phentsize, ws);
    var phs := Table(file, |ws|);
    FitsWhenInBounds(phs, ws, file, |mem|);
    BreakWritten(phs, ws, before);
    if SegmentsFit(phs, file, |mem|) {
      forall a | 0 <= a < |mem| ensures HoldsWritten(mem, file, ws, Loaded(mem, file, phs), a) {
        HoldsWrittenAt(mem, file, phs, ws, a);
      }
    }
  }

  // ---- A file put together --------------------------------------------------------------------

  function TableBytes(ws: seq<WrittenPhdr>): (b: seq<byte>)
    ensures |b| == 32 * |ws|
  {
    if ws == [] then [] else PhdrBytes(ws[0]) + TableBytes(ws[1..])
  }

  lemma {:induction false} TableBytesAt(ws: seq<WrittenPhdr>, i: nat, at: nat)
    requires i < |ws| && at == 32 * i
    ensures TableBytes(ws)[at..at + 32] == PhdrBytes(ws[i])
  {
    var head, tail := PhdrBytes(ws[0]), TableBytes(ws[1..]);
    if i == 0 {
      SliceWhole(head, tail);
    } else {
      TableBytesAt(ws[1..], i - 1, at - 32);
      SliceBehind(head, tail, at - 32, 32);
    }
  }

  lemma SliceWhole(front: seq<byte>, tail: seq<byte>)
    ensures (front + tail)[0..|front|] == front
  {
  }

  lemma SliceBehind(front: seq<byte>, tail: seq<byte>, at: nat, n: nat)
    requires at + n <= |tail|
    ensures (front + tail)[|front| + at..|front| + at + n] == tail[at..at + n]
  {
  }

  lemma SliceInFront(front: seq<byte>, tail: seq<byte>, at: nat, n: nat)
    requires at + n <= |front|
    ensures (front + tail)[at..at + n] == front[at..at + n]
  {
  }

  // The header of a file whose table comes right behind it.
  function HeaderOf(entry: u32, count: u16): (b: seq<byte>)
    ensures |b| == 52
    ensures b[0..5] == [0x7f, 0x45, 0x4c, 0x46, 1] && b[16..20] == [2, 0, 3, 0]
    ensures b[24..28] == U32Bytes(entry) && b[28..32] == U32Bytes(52)
    ensures b[42..44] == U16Bytes(32) && b[44..46] == U16Bytes(count)
  {
    EhdrBytes([0x7f, 0x45, 0x4c, 0x46, 1] + Filled(0, 11), 2, 3, 1, entry, 52, 0, 0, 52, 32, count, 0, 0, 0)
  }

  function FileOf(entry: u32, ws: seq<WrittenPhdr>, body: seq<byte>): (file: seq<byte>)
    requires |ws| < 0x1_0000
    ensures |file| == 52 + 32 * |ws| + |body|
  {
    HeaderOf(entry, |ws|) + (TableBytes(ws) + body)
  }

  lemma BodyByte(entry: u32, ws: seq<WrittenPhdr>, body: seq<byte>, k: nat)
    requires |ws| < 0x1_0000 && k < |body|
    ensures FileOf(entry, ws, body)[52 + 32 * |ws| + k] == body[k]
  {
  }

  // Such a file meets what the results above ask for.
  lemma FileOfHolds(entry: u32, ws: seq<WrittenPhdr>, body: seq<byte>)
    requires |ws| < 0x1_0000 && 52 + 32 * |ws| + |body| < 0x1_0000_0000
    ensures HoldsHeader(FileOf(entry, ws, body), entry, 52, 32, |ws|)
    ensures HoldsTable(FileOf(entry, ws, body), 52, 32, ws)
  {
    var header, tail := HeaderOf(entry, |ws|), TableBytes(ws) + body;
    SliceInFront(header, tail, 0, 5);
    SliceInFront(header, tail, 16, 4);
    SliceInFront(header, tail, 24, 4);
    SliceInFront(header, tail, 28, 4);
    SliceInFront(header, tail, 42, 2);
    SliceInFront(header, tail, 44, 2);
    forall i | 0 <= i < |ws| ensures HoldsEntry(FileOf(entry, ws, body), 52 + 32 * i, ws[i]) {
      TableBytesAt(ws, i, 32 * i);
      SliceInFront(TableBytes(ws), body, 32 * i, 32);
      SliceBehind(header, tail, 32 * i, 32);
    }
  }

  // A note in front of a program segment of one byte and one cleared byte, at the same address.
  function NoteThenProgram(): (ws: seq<WrittenPhdr>)
    ensures |ws| == 2 && ws[0].kind == 4 && ws[1].kind == 1
    ensures LastToReach(ws, 1, 0x2000) && LastToReach(ws, 1, 0x2001) && LastOfTypeOne(ws, 1)
    ensures !Reaches(ws[0], 0x1fff) && !Reaches(ws[1], 0x1fff)
  {
    [WrittenPhdr(4, 116, 0, 0x2000, 1, 1, 0, 0), WrittenPhdr(1, 117, 0, 0x2000, 1, 2, 0, 0)]
  }

  lemma NoteIsSkipped(x: byte, y: byte, mem: seq<byte>, before: nat)
    requires |mem| > 0x2001
    ensures var file := FileOf(0x2000, NoteThenProgram(), [x, y]);
            && ElfOutcome(file, |mem|) == Done && EntryPoint(file) == 0x2000
            && var phs := Table(file, PhNum(file));
               && Loaded(mem, file, phs)[0x1fff..0x2002] == [mem[0x1fff], y, 0]
               && Break(phs, before) == 0x2002
  {
    var ws := NoteThenProgram();
    var file := FileOf(0x2000, ws, [x, y]);
    BodyByte(0x2000, ws, [x, y], 1);
    FileOfHolds(0x2000, ws, [x, y]);
    WrittenTableLoads(file, 0x2000, 52, 32, ws, mem, before);
    NoteLeaves(mem, file, Loaded(mem, file, Table(file, 2)));
  }

  lemma NoteLeaves(mem: seq<byte>, file: seq<byte>, now: seq<byte>)
    requires |mem| > 0x2001 && |file| > 117
    requires forall a :: 0 <= a < |mem| ==> HoldsWritten(mem, file, NoteThenProgram(), now, a)
    ensures |now| == |mem| && now[0x1fff..0x2002] == [mem[0x1fff], file[117], 0]
  {
    assert HoldsWritten(mem, file, NoteThenProgram(), now, 0x1fff);
    assert HoldsWritten(mem, file, NoteThenProgram(), now, 0x2000);
    assert HoldsWritten(mem, file, NoteThenProgram(), now, 0x2001);
  }

  // A segment of the one byte behind a table of one entry.
  function ByteBehindTable(): (ws: seq<WrittenPhdr>)
    ensures |ws| == 1 && LastToReach(ws, 0, 0) && InBounds(ws[0], 85, 1)
    ensures ws[0].paddr == 0 && ws[0].filesz == 1 && ws[0].offset == 84
  {
    [WrittenPhdr(1, 84, 0, 0, 1, 1, 0, 0)]
  }

  // A file that ends with that table.
  function TruncatedElf(): (file: seq<byte>)
    ensures |file| == 84
  {
    FileOf(0, ByteBehindTable(), [])
  }

  // It loads without a fault, but what it leaves in memory is what the load buffer held before.
  lemma TruncatedElfLoadsOldBuffer(mem: seq<byte>)
    requires |mem| > 0
    ensures var a := BufferAfter(Filled(0, BUFFER_SIZE), TruncatedElf());
            var b := BufferAfter(Filled(1, BUFFER_SIZE), TruncatedElf());
            && ElfOutcome(a, |mem|) == Done && ElfOutcome(b, |mem|) == Done
            && Loaded(mem, a, Table(a, PhNum(a)))[0] == 0 && Loaded(mem, b, Table(b, PhNum(b)))[0] == 1
  {
    TruncatedElfLoads(mem, 0);
    TruncatedElfLoads(mem, 1);
  }

  lemma TruncatedElfLoads(mem: seq<byte>, left: byte)
    requires |mem| > 0
    ensures var file := BufferAfter(Filled(left, BUFFER_SIZE), TruncatedElf());
            ElfOutcome(file, |mem|) == Done && Loaded(mem, file, Table(file, PhNum(file)))[0] == left
  {
    var body := Filled(left, BUFFER_SIZE - 84);
    TruncatedElfInBuffer(left);
    BodyByte(0, ByteBehindTable(), body, 0);
    FileOfHolds(0, ByteBehindTable(), body);
    ByteBehindTableLoads(FileOf(0, ByteBehindTable(), body), mem);
  }

  lemma ByteBehindTableLoads(file: seq<byte>, mem: seq<byte>)
    requires HoldsHeader(file, 0, 52, 32, 1) && HoldsTable(file, 52, 32, ByteBehindTable())
    requires |file| == BUFFER_SIZE && |mem| > 0
    ensures ElfOutcome(file, |mem|) == Done && Loaded(mem, file, Table(file, PhNum(file)))[0] == file[84]
  {
    var ws := ByteBehindTable();
    assert forall i :: 0 <= i < |ws| ==> InBounds(ws[i], |file|, |mem|);
    WrittenTableLoads(file, 0, 52, 32, ws, mem, 0);
    ByteLeft(mem, file, Loaded(mem, file, Table(file, 1)));
  }

  lemma ByteLeft(mem: seq<byte>, file: seq<byte>, now: seq<byte>)
    requires |mem| > 0 && |file| > 84 && HoldsWritten(mem, file, ByteBehindTable(), now, 0)
    ensures now[0] == file[84]
  {
  }

  lemma TruncatedElfInBuffer(left: byte)
    ensures BufferAfter(Filled(left, BUFFER_SIZE), TruncatedElf())
         == FileOf(0, ByteBehindTable(), Filled(left, BUFFER_SIZE - 84))
  {
  }
}
