// The reader of elf/epicfs.c on what its writers produced: a path read from a mounted image yields
// what the same lookup finds in the tree that was stored.
module EpicFsReadBack {
  import opened Bytes
  import opened EpicFsFormat
  import opened EpicFsParser
  import opened EpicFsLayout
  import opened EpicFsImage
  import opened EpicFsLookup

  lemma {:induction false} ScanStored(disk: seq<byte>, es: seq<Entry>, ts: seq<Tree<Contents>>, part: Name, last: bool)
    requires |es| == |ts| && forall i :: 0 <= i < |ts| ==> Stores(disk, es[i], ts[i])
    ensures match ScanChildren(ts, part, last)
            case Enters(d) => ScanChildren(es, part, last).Enters? && Stores(disk, ScanChildren(es, part, last).dir, d)
            case Hits(f) => ScanChildren(es, part, last).Hits? && Stores(disk, ScanChildren(es, part, last).file, f)
            case Trips => ScanChildren(es, part, last).Trips?
            case NoMatch => ScanChildren(es, part, last).NoMatch?
  {
    if ts != [] {
      assert Stores(disk, es[0], ts[0]);
      ScanStored(disk, es[1..], ts[1..], part, last);
    }
  }

  // The walk over the mounted entries mirrors the walk over the stored tree, and the extent of the
  // file it finds holds that file's contents.
  lemma {:induction false} WalkStored(disk: seq<byte>, e: Entry, t: Tree<Contents>, parts: seq<Name>)
    requires t.Directory? && Stores(disk, e, t)
    ensures match Walk(t, parts)
            case Found(f) => Walk(e, parts).Found? && HoldsFile(disk, Walk(e, parts).file.data, f.data)
            case Missing => Walk(e, parts).Missing?
            case AssertionFails => Walk(e, parts).AssertionFails?
    decreases |parts|
  {
    if parts != [] {
      ScanStored(disk, e.children, t.children, parts[0], |parts| == 1);
      match ScanChildren(t.children, parts[0], |parts| == 1)
      case Enters(d) => WalkStored(disk, ScanChildren(e.children, parts[0], |parts| == 1).dir, d, parts[1..]);
      case Hits(f) =>
      case Trips =>
      case NoMatch => WalkStored(disk, e, t, parts[1..]);
    }
  }

  lemma {:induction false} StorableChild(ts: seq<Tree<Contents>>, i: nat)
    requires i < |ts| && AllStorable(PreorderAll(ts))
    ensures AllStorable(Preorder(ts[i]))
  {
    var head, tail := Preorder(ts[0]), PreorderAll(ts[1..]);
    assert forall k :: 0 <= k < |head| ==> head[k] == PreorderAll(ts)[k];
    assert forall k :: 0 <= k < |tail| ==> tail[k] == PreorderAll(ts)[|head| + k];
    if i > 0 {
      StorableChild(ts[1..], i - 1);
    }
  }

  lemma {:induction false} FoundIsStorable(t: Tree<Contents>, parts: seq<Name>)
    requires t.Directory? && AllStorable(Preorder(t)) && Walk(t, parts).Found?
    ensures |Walk(t, parts).file.data| < 0x1_0000
    decreases |parts|
  {
    assert forall k :: 0 <= k < |PreorderAll(t.children)| ==> PreorderAll(t.children)[k] == Preorder(t)[k + 1];
    match ScanChildren(t.children, parts[0], |parts| == 1)
    case Enters(d) =>
      var i :| 0 <= i < |t.children| && t.children[i] == d;
      StorableChild(t.children, i);
      FoundIsStorable(d, parts[1..]);
    case Hits(f) =>
      var i :| 0 <= i < |t.children| && t.children[i] == f;
      StorableChild(t.children, i);
      assert Storable(Preorder(f)[0]);
    case NoMatch => FoundIsStorable(t, parts[1..]);
  }

  lemma {:induction false} StorableIsNulFree(t: Tree<Contents>)
    requires AllStorable(Preorder(t))
    ensures 0 !in t.name && NulFreeBelow(t)
    decreases t
  {
    assert Storable(Preorder(t)[0]);
    if t.Directory? {
      assert forall k :: 0 <= k < |PreorderAll(t.children)| ==> PreorderAll(t.children)[k] == Preorder(t)[k + 1];
      forall i | 0 <= i < |t.children| ensures 0 !in t.children[i].name && NulFreeBelow(t.children[i]) {
        StorableChild(t.children, i);
        StorableIsNulFree(t.children[i]);
      }
    }
  }

  // Store a tree and mount the image: the entries mounted stand for the tree stored.
  method StoreMount(t: Tree<Contents>, image: array<byte>) returns (root: FsEntry, ghost S: set<object>)
    requires FitsImage(t, image.Length)
    modifies image
    ensures root in S && fresh(S) && Represents(S) && root.kind.FsTypeDirectory?
    ensures root.tree.Directory? && Stores(image[..], root.tree, t)
  {
    var end, created := WriteImage(t, image);
    var mounted, r, below := ParseFromAta(image[..], 0);
    root, S := mounted, below;
  }

  // Store a tree, mount the image, read a path: the destination receives exactly the contents of
  // the file the lookup finds in the original tree, and its size is returned.
  method ReadStored(t: Tree<Contents>, image: array<byte>, parts: seq<Name>, buffer: array<byte>)
    returns (r: ReadOutcome)
    requires FitsImage(t, image.Length) && image != buffer
    modifies image, buffer
    ensures match Walk(t, parts)
            case AssertionFails => r == ReadOutcome.AssertionFailed
            case Missing => r == Returned(-1) && buffer[..] == old(buffer[..])
            case Found(f) =>
              if |f.data| <= buffer.Length
              then r == Returned(|f.data|) && buffer[..] == Splice(old(buffer[..]), 0, f.data)
              else r == OutOfBounds
  {
    var root, S := StoreMount(t, image);
    WalkStored(image[..], root.tree, t, parts);
    if Walk(t, parts).Found? {
      FoundIsStorable(t, parts);
    }
    r := ReadFile(root, parts, image[..], buffer, 0, S);
  }

  lemma StoredByName(t: Tree<Contents>, parts: seq<Name>)
    requires t.Directory? && AllStorable(Preorder(t))
    ensures NulFreePath(parts) && Walk(t, parts).Found? ==> NamedBySome(t, parts, Walk(t, parts).file)
    ensures forall f :: NulFreePath(parts) && NamedAlong(t, parts, f) && NoFileInTheWay(t, parts) ==>
      f.File? && Walk(t, parts) == Found(f)
  {
    StorableIsNulFree(t);
    if NulFreePath(parts) {
      WalkByName(t, parts);
    }
  }

  // The same in plain names: for a path without NULs, the file read is called as the last component,
  // and is the file the path names if there is one and no file is in the way.
  method StoreMountRead(t: Tree<Contents>, image: array<byte>, parts: seq<Name>, buffer: array<byte>)
    returns (r: ReadOutcome)
    requires FitsImage(t, image.Length) && image != buffer
    modifies image, buffer
    ensures match Walk(t, parts)
            case AssertionFails => r == ReadOutcome.AssertionFailed
            case Missing => r == Returned(-1) && buffer[..] == old(buffer[..])
            case Found(f) =>
              if |f.data| <= buffer.Length
              then r == Returned(|f.data|) && buffer[..] == Splice(old(buffer[..]), 0, f.data)
              else r == OutOfBounds
    ensures NulFreePath(parts) && Walk(t, parts).Found? ==> NamedBySome(t, parts, Walk(t, parts).file)
    ensures forall f :: NulFreePath(parts) && NamedAlong(t, parts, f) && NoFileInTheWay(t, parts) ==>
      if |f.data| <= buffer.Length
      then r == Returned(|f.data|) && buffer[..] == Splice(old(buffer[..]), 0, f.data)
      else r == OutOfBounds
  {
    StoredByName(t, parts);
    r := ReadStored(t, image, parts, buffer);
  }
}
