// Where elf/epicfs.c puts things: entries in preorder, and file contents one after the other from a
// starting offset, each on a sector boundary (epicfs_write_file_contents, lines 265-275, called for
// one file after the other with the offset it returns threaded through).
module EpicFsLayout {
  import opened Bytes
  import opened EpicFsFormat
  import opened EpicFsWriter

  type Contents = seq<byte>

  // One entry of a tree, without its children.
  datatype Record<T> =
    | DirectoryRecord(name: Name, count: nat)
    | FileRecord(name: Name, data: T)

  function Preorder<T>(t: Tree<T>): (rs: seq<Record<T>>)
    decreases t, 1
  {
    match t
    case Directory(name, children) => [DirectoryRecord(name, |children|)] + PreorderAll(children)
    case File(name, data) => [FileRecord(name, data)]
  }

  function PreorderAll<T>(ts: seq<Tree<T>>): (rs: seq<Record<T>>)
    decreases ts, 0
  {
    if ts == [] then [] else Preorder(ts[0]) + PreorderAll(ts[1..])
  }

  // ---- Entries --------------------------------------------------------------------------------

  predicate Fits<T>(r: Record<T>) {
    |r.name| < 0x1_0000 && (r.DirectoryRecord? ==> r.count < 0x1_0000)
  }

  predicate AllFit<T>(rs: seq<Record<T>>) {
    forall i :: 0 <= i < |rs| ==> Fits(rs[i])
  }

  function RecordBytes(r: Record<Extent>): (b: seq<byte>)
    requires Fits(r)
    ensures |b| == RecordSize(r)
  {
    match r
    case DirectoryRecord(name, count) => DirectoryBytes(name, count)
    case FileRecord(name, extent) => FileBytes(name, extent)
  }

  function RecordSize<T>(r: Record<T>): (n: nat) {
    |r.name| + if r.DirectoryRecord? then 5 else 11
  }

  function RecordsBytes(rs: seq<Record<Extent>>): (b: seq<byte>)
    requires AllFit(rs)
    ensures |b| == RecordsSize(rs)
  {
    if rs == [] then [] else RecordBytes(rs[0]) + RecordsBytes(rs[1..])
  }

  function RecordsSize<T>(rs: seq<Record<T>>): (n: nat) {
    if rs == [] then 0 else RecordSize(rs[0]) + RecordsSize(rs[1..])
  }

  lemma {:induction false} RecordsBytesConcat(rs: seq<Record<Extent>>, qs: seq<Record<Extent>>)
    requires AllFit(rs) && AllFit(qs)
    ensures AllFit(rs + qs) && RecordsBytes(rs + qs) == RecordsBytes(rs) + RecordsBytes(qs)
  {
    if rs == [] {
      assert rs + qs == qs;
    } else {
      assert (rs + qs)[1..] == rs[1..] + qs;
      RecordsBytesConcat(rs[1..], qs);
    }
  }

  // Writing a tree is writing its entries in preorder.
  lemma {:induction false} SerialiseInPreorder(t: Entry)
    requires Encodable(t)
    ensures AllFit(Preorder(t)) && Serialise(t) == RecordsBytes(Preorder(t))
    decreases t, 1
  {
    match t
    case File(name, extent) =>
      assert RecordsBytes([FileRecord(name, extent)]) == RecordBytes(FileRecord(name, extent)) + RecordsBytes([]);
    case Directory(name, children) =>
      SerialiseAllInPreorder(children);
      RecordsBytesConcat([DirectoryRecord(name, |children|)], PreorderAll(children));
      assert RecordsBytes([DirectoryRecord(name, |children|)]) == DirectoryBytes(name, |children|) + RecordsBytes([]);
  }

  lemma {:induction false} SerialiseAllInPreorder(ts: seq<Entry>)
    requires AllEncodable(ts)
    ensures AllFit(PreorderAll(ts)) && SerialiseAll(ts) == RecordsBytes(PreorderAll(ts))
    decreases ts, 0
  {
    if ts != [] {
      SerialiseInPreorder(ts[0]);
      SerialiseAllInPreorder(ts[1..]);
      RecordsBytesConcat(Preorder(ts[0]), PreorderAll(ts[1..]));
    }
  }

  // A tree fits its headers exactly when each of its entries does.
  lemma {:induction false} EncodableInPreorder<T>(t: Tree<T>)
    ensures Encodable(t) <==> AllFit(Preorder(t))
    decreases t, 1
  {
    match t
    case File(name, data) =>
      assert Preorder(t)[0] == FileRecord(name, data);
    case Directory(name, children) =>
      var head: Record<T> := DirectoryRecord(name, |children|);
      EncodableAllInPreorder(children);
      AllFitConcat([head], PreorderAll(children));
      assert AllFit([head]) <==> Fits(head) by {
        assert [head][0] == head;
      }
  }

  lemma {:induction false} EncodableAllInPreorder<T>(ts: seq<Tree<T>>)
    ensures AllEncodable(ts) <==> AllFit(PreorderAll(ts))
    decreases ts, 0
  {
    if ts != [] {
      EncodableInPreorder(ts[0]);
      EncodableAllInPreorder(ts[1..]);
      AllFitConcat(Preorder(ts[0]), PreorderAll(ts[1..]));
      assert forall i :: 0 <= i < |ts[1..]| ==> ts[1..][i] == ts[i + 1];
      assert forall i :: 1 <= i < |ts| ==> ts[i] == ts[1..][i - 1];
    }
  }

  lemma AllFitConcat<T>(rs: seq<Record<T>>, qs: seq<Record<T>>)
    ensures AllFit(rs + qs) <==> AllFit(rs) && AllFit(qs)
  {
    if AllFit(rs + qs) {
      assert forall i :: 0 <= i < |rs| ==> rs[i] == (rs + qs)[i];
      assert forall i :: 0 <= i < |qs| ==> qs[i] == (rs + qs)[|rs| + i];
    }
  }

  // ---- Contents -------------------------------------------------------------------------------

  // The offset after one entry's contents.
  function NextOffset(r: Record<Contents>, offset: nat): (next: nat)
    ensures next >= offset
  {
    match r
    case DirectoryRecord(_, _) => offset
    case FileRecord(_, contents) => SectorsFor(offset) * 512 + |contents|
  }

  function EndOffset(rs: seq<Record<Contents>>, offset: nat): (end: nat)
    ensures end >= offset
  {
    if rs == [] then offset else EndOffset(rs[1..], NextOffset(rs[0], offset))
  }

  // The extents the layout assigns.
  function PlaceRecord(r: Record<Contents>, offset: nat): (p: Record<Extent>)
    requires NextOffset(r, offset) < ADDRESS_SPACE
  {
    match r
    case DirectoryRecord(name, count) => DirectoryRecord(name, count)
    case FileRecord(name, contents) => FileRecord(name, Extent(|contents|, SectorsFor(offset)))
  }

  function Place(rs: seq<Record<Contents>>, offset: nat): (ps: seq<Record<Extent>>)
    requires EndOffset(rs, offset) < ADDRESS_SPACE
    ensures |ps| == |rs|
  {
    if rs == [] then [] else [PlaceRecord(rs[0], offset)] + Place(rs[1..], NextOffset(rs[0], offset))
  }

  function LayRecord(buffer: seq<byte>, r: Record<Contents>, offset: nat): (b: seq<byte>)
    requires NextOffset(r, offset) <= |buffer|
    ensures |b| == |buffer|
  {
    match r
    case DirectoryRecord(_, _) => buffer
    case FileRecord(_, contents) => Splice(buffer, SectorsFor(offset) * 512, contents)
  }

  // The buffer once the contents of all files have been written.
  function Laid(buffer: seq<byte>, rs: seq<Record<Contents>>, offset: nat): (b: seq<byte>)
    requires EndOffset(rs, offset) <= |buffer|
    ensures |b| == |buffer|
    decreases |rs|
  {
    if rs == [] then buffer else Laid(LayRecord(buffer, rs[0], offset), rs[1..], NextOffset(rs[0], offset))
  }

  // Nothing in front of the starting offset is touched, and nothing behind the final one.
  lemma {:induction false} LaidKeepsOutside(buffer: seq<byte>, rs: seq<Record<Contents>>, offset: nat)
    requires EndOffset(rs, offset) <= |buffer|
    ensures Laid(buffer, rs, offset)[..offset] == buffer[..offset]
    ensures Laid(buffer, rs, offset)[EndOffset(rs, offset)..] == buffer[EndOffset(rs, offset)..]
    decreases |rs|
  {
    if rs != [] {
      var next, end := NextOffset(rs[0], offset), EndOffset(rs, offset);
      var b := LayRecord(buffer, rs[0], offset);
      LaidKeepsOutside(b, rs[1..], next);
      var laid := Laid(buffer, rs, offset);
      assert laid[..offset] == laid[..next][..offset];
      assert b[..next][..offset] == b[..offset] == buffer[..offset];
      assert b[end..] == buffer[end..];
    }
  }

  lemma SliceOfPrefix<T>(a: seq<T>, b: seq<T>, from: nat, to: nat)
    requires from <= to <= |a| && to <= |b| && a[..to] == b[..to]
    ensures a[from..to] == b[from..to]
  {
  }

  // Every file starts on a sector at or after the starting offset, ends within the final one, and
  // in the end the sectors it was given hold its contents.
  lemma {:induction false} LaidStoresEach(buffer: seq<byte>, rs: seq<Record<Contents>>, offset: nat, i: nat)
    requires i < |rs| && rs[i].FileRecord?
    requires EndOffset(rs, offset) <= |buffer| < ADDRESS_SPACE
    ensures Place(rs, offset)[i].FileRecord?
    ensures var e := Place(rs, offset)[i].data;
            && e.size == |rs[i].data|
            && offset <= e.startSector * 512 && e.startSector * 512 + e.size <= EndOffset(rs, offset)
            && AtaRead(Laid(buffer, rs, offset), e.startSector, e.size) == rs[i].data
    decreases |rs|
  {
    var next := NextOffset(rs[0], offset);
    var b := LayRecord(buffer, rs[0], offset);
    if i == 0 {
      var from := SectorsFor(offset) * 512;
      LaidKeepsOutside(b, rs[1..], next);
      SliceOfPrefix(Laid(b, rs[1..], next), b, from, next);
    } else {
      LaidStoresEach(b, rs[1..], next, i - 1);
      PlaceTail(rs, offset, i);
    }
  }

  lemma {:induction false} EndOffsetConcat(rs: seq<Record<Contents>>, qs: seq<Record<Contents>>, offset: nat)
    ensures EndOffset(rs + qs, offset) == EndOffset(qs, EndOffset(rs, offset))
  {
    if rs == [] {
      assert rs + qs == qs;
    } else {
      assert (rs + qs)[1..] == rs[1..] + qs;
      EndOffsetConcat(rs[1..], qs, NextOffset(rs[0], offset));
    }
  }

  lemma {:induction false} PlaceConcat(rs: seq<Record<Contents>>, qs: seq<Record<Contents>>, offset: nat)
    requires EndOffset(rs + qs, offset) < ADDRESS_SPACE
    ensures EndOffset(rs, offset) <= EndOffset(qs, EndOffset(rs, offset)) == EndOffset(rs + qs, offset)
    ensures Place(rs + qs, offset) == Place(rs, offset) + Place(qs, EndOffset(rs, offset))
  {
    EndOffsetConcat(rs, qs, offset);
    if rs == [] {
      assert rs + qs == qs;
    } else {
      assert (rs + qs)[1..] == rs[1..] + qs;
      PlaceConcat(rs[1..], qs, NextOffset(rs[0], offset));
    }
  }

  // The i-th entry is placed at the offset threaded through the entries before it.
  lemma PlaceAt(rs: seq<Record<Contents>>, offset: nat, i: nat)
    requires i < |rs| && EndOffset(rs, offset) < ADDRESS_SPACE
    ensures NextOffset(rs[i], EndOffset(rs[..i], offset)) <= EndOffset(rs, offset)
    ensures Place(rs, offset)[i] == PlaceRecord(rs[i], EndOffset(rs[..i], offset))
  {
    assert rs == rs[..i] + rs[i..];
    PlaceConcat(rs[..i], rs[i..], offset);
  }

  lemma OffsetsIncrease(rs: seq<Record<Contents>>, offset: nat, i: nat, j: nat)
    requires i < j <= |rs|
    ensures NextOffset(rs[i], EndOffset(rs[..i], offset)) <= EndOffset(rs[..j], offset)
  {
    assert rs[..j] == rs[..i] + rs[i..j];
    EndOffsetConcat(rs[..i], rs[i..j], offset);
  }

  lemma PlaceTail(rs: seq<Record<Contents>>, offset: nat, i: nat)
    requires 0 < i < |rs| && EndOffset(rs, offset) < ADDRESS_SPACE
    ensures Place(rs, offset)[i] == Place(rs[1..], NextOffset(rs[0], offset))[i - 1]
  {
  }

  // Extents are ordered and disjoint...
  lemma PlacedInOrder(rs: seq<Record<Contents>>, offset: nat, i: nat, j: nat)
    requires i < j < |rs| && rs[i].FileRecord? && rs[j].FileRecord?
    requires EndOffset(rs, offset) < ADDRESS_SPACE
    ensures Place(rs, offset)[i].FileRecord? && Place(rs, offset)[j].FileRecord?
    ensures var e, f := Place(rs, offset)[i].data, Place(rs, offset)[j].data;
            e.startSector * 512 + e.size <= f.startSector * 512
  {
    PlaceAt(rs, offset, i);
    PlaceAt(rs, offset, j);
    OffsetsIncrease(rs, offset, i, j);
  }

  // ... and no sector holds bytes of two files.
  lemma NoSectorShared(rs: seq<Record<Contents>>, offset: nat, i: nat, j: nat)
    requires i < j < |rs| && rs[i].FileRecord? && rs[j].FileRecord? && rs[i].data != []
    requires EndOffset(rs, offset) < ADDRESS_SPACE
    ensures Place(rs, offset)[i].FileRecord? && Place(rs, offset)[j].FileRecord?
    ensures var e, f := Place(rs, offset)[i].data, Place(rs, offset)[j].data;
            (e.startSector * 512 + e.size - 1) / 512 < f.startSector
  {
    PlacedInOrder(rs, offset, i, j);
  }

  function ContentBytes(rs: seq<Record<Contents>>): (n: nat) {
    if rs == [] then 0 else (if rs[0].FileRecord? then |rs[0].data| else 0) + ContentBytes(rs[1..])
  }

  function FileCount<T>(rs: seq<Record<T>>): (n: nat) {
    if rs == [] then 0 else (if rs[0].FileRecord? then 1 else 0) + FileCount(rs[1..])
  }

  // Alignment costs at most 511 bytes a file.
  lemma {:induction false} EndOffsetBound(rs: seq<Record<Contents>>, offset: nat)
    ensures offset + ContentBytes(rs) <= EndOffset(rs, offset) <= offset + ContentBytes(rs) + 511 * FileCount(rs)
  {
    if rs != [] {
      EndOffsetBound(rs[1..], NextOffset(rs[0], offset));
    }
  }

  // ---- Trees ----------------------------------------------------------------------------------

  function TreeEnd(t: Tree<Contents>, offset: nat): (end: nat)
    ensures end >= offset
    decreases t, 1
  {
    match t
    case Directory(_, children) => TreeEndAll(children, offset)
    case File(name, contents) => NextOffset(FileRecord(name, contents), offset)
  }

  function TreeEndAll(ts: seq<Tree<Contents>>, offset: nat): (end: nat)
    ensures end >= offset
    decreases ts, 0
  {
    if ts == [] then offset else TreeEndAll(ts[1..], TreeEnd(ts[0], offset))
  }

  // The tree that is written: every file's contents replaced by the extent they are laid out in.
  function PlaceTree(t: Tree<Contents>, offset: nat): (p: Entry)
    requires TreeEnd(t, offset) < ADDRESS_SPACE
    ensures p.name == t.name && p.Directory? == t.Directory?
    ensures t.Directory? ==> |p.children| == |t.children|
    decreases t, 1
  {
    match t
    case Directory(name, children) => Directory(name, PlaceAll(children, offset))
    case File(name, contents) => File(name, PlaceRecord(FileRecord(name, contents), offset).data)
  }

  function PlaceAll(ts: seq<Tree<Contents>>, offset: nat): (ps: seq<Entry>)
    requires TreeEndAll(ts, offset) < ADDRESS_SPACE
    ensures |ps| == |ts|
    decreases ts, 0
  {
    if ts == [] then [] else [PlaceTree(ts[0], offset)] + PlaceAll(ts[1..], TreeEnd(ts[0], offset))
  }

  lemma {:induction false} TreeEndInPreorder(t: Tree<Contents>, offset: nat)
    ensures TreeEnd(t, offset) == EndOffset(Preorder(t), offset)
    decreases t, 1
  {
    match t
    case Directory(name, children) =>
      TreeEndAllInPreorder(children, offset);
      assert Preorder(t)[1..] == PreorderAll(children);
    case File(name, contents) =>
      assert Preorder(t)[1..] == [];
  }

  lemma {:induction false} TreeEndAllInPreorder(ts: seq<Tree<Contents>>, offset: nat)
    ensures TreeEndAll(ts, offset) == EndOffset(PreorderAll(ts), offset)
    decreases ts, 0
  {
    if ts != [] {
      TreeEndInPreorder(ts[0], offset);
      TreeEndAllInPreorder(ts[1..], TreeEnd(ts[0], offset));
      EndOffsetConcat(Preorder(ts[0]), PreorderAll(ts[1..]), offset);
    }
  }

  // Placing a tree and listing it in preorder commute.
  lemma {:induction false} PlaceInPreorder(t: Tree<Contents>, offset: nat)
    requires TreeEnd(t, offset) < ADDRESS_SPACE
    ensures TreeEnd(t, offset) == EndOffset(Preorder(t), offset)
    ensures Preorder(PlaceTree(t, offset)) == Place(Preorder(t), offset)
    decreases t, 1
  {
    TreeEndInPreorder(t, offset);
    match t
    case Directory(name, children) =>
      PlaceAllInPreorder(children, offset);
      assert Preorder(t)[1..] == PreorderAll(children);
    case File(name, contents) =>
      assert Preorder(t)[1..] == [];
  }

  lemma {:induction false} PlaceAllInPreorder(ts: seq<Tree<Contents>>, offset: nat)
    requires TreeEndAll(ts, offset) < ADDRESS_SPACE
    ensures TreeEndAll(ts, offset) == EndOffset(PreorderAll(ts), offset)
    ensures PreorderAll(PlaceAll(ts, offset)) == Place(PreorderAll(ts), offset)
    decreases ts, 0
  {
    TreeEndAllInPreorder(ts, offset);
    if ts != [] {
      var head, tail := PlaceTree(ts[0], offset), PlaceAll(ts[1..], TreeEnd(ts[0], offset));
      PlaceInPreorder(ts[0], offset);
      PlaceAllInPreorder(ts[1..], TreeEnd(ts[0], offset));
      PlaceConcat(Preorder(ts[0]), PreorderAll(ts[1..]), offset);
      assert PlaceAll(ts, offset)[1..] == tail;
    }
  }

  // ---- What a disk stores ---------------------------------------------------------------------

  predicate HoldsFile(disk: seq<byte>, e: Extent, contents: Contents) {
    && e.size == |contents| && e.startSector * 512 + e.size <= |disk|
    && AtaRead(disk, e.startSector, e.size) == contents
  }

  // The disk stores the tree t under the entries e: the same shape and names, and behind every
  // file entry exactly that file's contents.
  ghost predicate Stores(disk: seq<byte>, e: Entry, t: Tree<Contents>)
    decreases t
  {
    && e.name == t.name
    && match t
       case File(_, contents) => e.File? && HoldsFile(disk, e.data, contents)
       case Directory(_, children) =>
         && e.Directory? && |e.children| == |children|
         && forall i :: 0 <= i < |children| ==> Stores(disk, e.children[i], children[i])
  }

  // The same of a list of entries placed from an offset on.
  predicate Holds(disk: seq<byte>, rs: seq<Record<Contents>>, offset: nat)
    requires EndOffset(rs, offset) < ADDRESS_SPACE
  {
    rs == []
    || (&& (rs[0].FileRecord? ==> HoldsFile(disk, PlaceRecord(rs[0], offset).data, rs[0].data))
        && Holds(disk, rs[1..], NextOffset(rs[0], offset)))
  }

  lemma {:induction false} HoldsFromEach(disk: seq<byte>, rs: seq<Record<Contents>>, offset: nat)
    requires EndOffset(rs, offset) < ADDRESS_SPACE
    requires forall i :: 0 <= i < |rs| && rs[i].FileRecord? ==>
      Place(rs, offset)[i].FileRecord? && HoldsFile(disk, Place(rs, offset)[i].data, rs[i].data)
    ensures Holds(disk, rs, offset)
  {
    if rs != [] {
      var next := NextOffset(rs[0], offset);
      assert Place(rs, offset)[0] == PlaceRecord(rs[0], offset);
      assert forall i :: 0 <= i < |rs[1..]| ==> Place(rs[1..], next)[i] == Place(rs, offset)[i + 1];
      HoldsFromEach(disk, rs[1..], next);
    }
  }

  lemma {:induction false} HoldsSplits(disk: seq<byte>, rs: seq<Record<Contents>>, qs: seq<Record<Contents>>,
                                       offset: nat)
    requires EndOffset(rs + qs, offset) < ADDRESS_SPACE && Holds(disk, rs + qs, offset)
    ensures EndOffset(rs, offset) <= EndOffset(qs, EndOffset(rs, offset)) == EndOffset(rs + qs, offset)
    ensures Holds(disk, rs, offset) && Holds(disk, qs, EndOffset(rs, offset))
  {
    EndOffsetConcat(rs, qs, offset);
    if rs == [] {
      assert rs + qs == qs;
    } else {
      assert (rs + qs)[1..] == rs[1..] + qs;
      HoldsSplits(disk, rs[1..], qs, NextOffset(rs[0], offset));
    }
  }

  lemma {:induction false} StoresPlaced(disk: seq<byte>, t: Tree<Contents>, offset: nat)
    requires TreeEnd(t, offset) == EndOffset(Preorder(t), offset) < ADDRESS_SPACE && Holds(disk, Preorder(t), offset)
    ensures Stores(disk, PlaceTree(t, offset), t)
    decreases t, 1
  {
    match t
    case File(name, contents) =>
    case Directory(name, children) =>
      assert Preorder(t)[1..] == PreorderAll(children);
      StoresPlacedAll(disk, children, offset);
  }

  lemma {:induction false} StoresPlacedAll(disk: seq<byte>, ts: seq<Tree<Contents>>, offset: nat)
    requires TreeEndAll(ts, offset) == EndOffset(PreorderAll(ts), offset) < ADDRESS_SPACE
    requires Holds(disk, PreorderAll(ts), offset)
    ensures forall i :: 0 <= i < |ts| ==> Stores(disk, PlaceAll(ts, offset)[i], ts[i])
    decreases ts, 0
  {
    if ts != [] {
      var next := TreeEnd(ts[0], offset);
      TreeEndInPreorder(ts[0], offset);
      HoldsSplits(disk, Preorder(ts[0]), PreorderAll(ts[1..]), offset);
      StoresPlaced(disk, ts[0], offset);
      StoresPlacedAll(disk, ts[1..], next);
      assert forall i :: 1 <= i < |ts| ==>
        PlaceAll(ts, offset)[i] == PlaceAll(ts[1..], next)[i - 1] && ts[i] == ts[1..][i - 1];
    }
  }

  // A disk determines what it stores.
  lemma {:induction false} StoresOnlyOne(disk: seq<byte>, e: Entry, t: Tree<Contents>, u: Tree<Contents>)
    requires Stores(disk, e, t) && Stores(disk, e, u)
    ensures t == u
    decreases t
  {
    if t.Directory? {
      forall i | 0 <= i < |t.children| ensures t.children[i] == u.children[i] {
        StoresOnlyOne(disk, e.children[i], t.children[i], u.children[i]);
      }
    }
  }
}
