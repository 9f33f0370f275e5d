// elf/epicfs.c, lines 39-80: path lookup over the parsed tree.
module EpicFsLookup {
  import opened Bytes
  import opened EpicFsFormat
  import opened EpicFsParser

  datatype Option<+T> = None | Some(value: T)

  // string_compare(name, part) == 0
  predicate SameName(name: Name, part: Name) {
    CString(name) == CString(part)
  }

  // Two names compare equal exactly when their C strings end at the same place and agree up to there;
  // names without a NUL exactly when they are equal.
  lemma SameNameIff(name: Name, part: Name)
    ensures SameName(name, part) <==>
            exists n: nat :: EndsAt(name, n) && EndsAt(part, n) && name[..n] == part[..n]
    ensures 0 !in name && 0 !in part ==> (SameName(name, part) <==> name == part)
  {
    CStringEnds(name, |CString(name)|);
    CStringEnds(part, |CString(part)|);
    if n: nat :| EndsAt(name, n) && EndsAt(part, n) && name[..n] == part[..n] {
      CStringEnds(name, n);
      CStringEnds(part, n);
    }
  }

  // ---- The loop as written --------------------------------------------------------------------

  // What the inner loop does with a directory's children for one path component.
  datatype Scan<T> = Enters(dir: Tree<T>) | Hits(file: Tree<T>) | Trips | NoMatch

  function ScanChildren<T>(children: seq<Tree<T>>, part: Name, last: bool): (r: Scan<T>)
    ensures r.Enters? ==> r.dir.Directory? && r.dir in children && SameName(r.dir.name, part)
    ensures r.Hits? ==> last && r.file.File? && r.file in children && SameName(r.file.name, part)
  {
    if children == [] then NoMatch
    else
      match children[0]
      case Directory(name, _) =>
        if SameName(name, part) then Enters(children[0]) else ScanChildren(children[1..], part, last)
      case File(name, _) =>
        if !last then Trips
        else if SameName(name, part) then Hits(children[0])
        else ScanChildren(children[1..], part, last)
  }

  datatype Lookup<T> = Found(file: Tree<T>) | Missing | AssertionFails

  // The outer loop: a component that matches no child directory leaves the directory unchanged.
  function Walk<T>(dir: Tree<T>, parts: seq<Name>): (r: Lookup<T>)
    requires dir.Directory?
    ensures r.Found? ==> r.file.File?
    decreases |parts|
  {
    if parts == [] then Missing
    else
      match ScanChildren(dir.children, parts[0], |parts| == 1)
      case Enters(d) => Walk(d, parts[1..])
      case Hits(f) => Found(f)
      case Trips => AssertionFails
      case NoMatch => Walk(dir, parts[1..])
  }

  // ---- What a lookup should be ----------------------------------------------------------------

  // The position of the first child called part; |children| when there is none.
  function FirstNamed<T>(children: seq<Tree<T>>, part: Name): (i: nat)
    ensures i <= |children|
    ensures i < |children| ==> SameName(children[i].name, part)
    ensures forall j :: 0 <= j < i ==> !SameName(children[j].name, part)
  {
    if children == [] then 0
    else if SameName(children[0].name, part) then 0
    else 1 + FirstNamed(children[1..], part)
  }

  // The recursive first-match lookup of a file.
  function FindPath<T>(dir: Tree<T>, parts: seq<Name>): (r: Option<Tree<T>>)
    requires dir.Directory?
    ensures r.Some? ==> r.value.File?
    decreases |parts|
  {
    if parts == [] then None
    else
      var i := FirstNamed(dir.children, parts[0]);
      if i == |dir.children| then None
      else if |parts| == 1 then (if dir.children[i].File? then Some(dir.children[i]) else None)
      else if dir.children[i].Directory? then FindPath(dir.children[i], parts[1..])
      else None
  }

  // ---- When the two agree ---------------------------------------------------------------------

  // The position of the first child directory called part; |children| when there is none.
  function FirstDirectory<T>(children: seq<Tree<T>>, part: Name): (i: nat)
    ensures i <= |children|
    ensures i < |children| ==> children[i].Directory? && SameName(children[i].name, part)
    ensures forall j :: 0 <= j < i ==> children[j].File? || !SameName(children[j].name, part)
  {
    if children == [] then 0
    else if children[0].Directory? && SameName(children[0].name, part) then 0
    else 1 + FirstDirectory(children[1..], part)
  }

  predicate OnlyDirectories<T>(children: seq<Tree<T>>) {
    forall j :: 0 <= j < |children| ==> children[j].Directory?
  }

  // Every leading component is searched among child directories only: up to its match, or among
  // all children when it has none.
  predicate NoFileInTheWay<T>(dir: Tree<T>, parts: seq<Name>)
    requires dir.Directory?
    decreases |parts|
  {
    |parts| <= 1 ||
      var i := FirstDirectory(dir.children, parts[0]);
      && OnlyDirectories(dir.children[..i])
      && NoFileInTheWay(if i < |dir.children| then dir.children[i] else dir, parts[1..])
  }

  // The path without the leading components that match no directory where they are looked up.
  function Kept<T>(dir: Tree<T>, parts: seq<Name>): (r: seq<Name>)
    requires dir.Directory?
    ensures |r| <= |parts| && (parts != [] ==> r != [] && r[|r| - 1] == parts[|parts| - 1])
    decreases |parts|
  {
    if |parts| <= 1 then parts
    else
      var i := FirstDirectory(dir.children, parts[0]);
      if i < |dir.children| then [parts[0]] + Kept(dir.children[i], parts[1..]) else Kept(dir, parts[1..])
  }

  // A scan for a leading component trips over the first file, or else finds the first directory.
  lemma {:induction false} ScanForLeading<T>(children: seq<Tree<T>>, part: Name)
    ensures var i := FirstDirectory(children, part);
            ScanChildren(children, part, false) ==
            if !OnlyDirectories(children[..i]) then Trips
            else if i < |children| then Enters(children[i])
            else NoMatch
  {
    if children != [] && !(children[0].Directory? && SameName(children[0].name, part)) {
      var i, j := FirstDirectory(children, part), FirstDirectory(children[1..], part);
      ScanForLeading(children[1..], part);
      assert children[..i] == [children[0]] + children[1..][..j];
      if children[0].Directory? && OnlyDirectories(children[1..][..j]) {
        assert OnlyDirectories(children[..i]);
      } else {
        assert !OnlyDirectories(children[..i]) by {
          if children[0].Directory? {
            var k :| 0 <= k < j && !children[1..][..j][k].Directory?;
            assert children[..i][k + 1] == children[1..][..j][k];
          } else {
            assert children[..i][0] == children[0];
          }
        }
      }
    }
  }

  // A scan for the last component ends at the first child of that name.
  lemma {:induction false} ScanForLast<T>(children: seq<Tree<T>>, part: Name)
    ensures var i := FirstNamed(children, part);
            ScanChildren(children, part, true) ==
            if i == |children| then NoMatch
            else if children[i].File? then Hits(children[i])
            else Enters(children[i])
  {
    if children != [] && !SameName(children[0].name, part) {
      ScanForLast(children[1..], part);
    }
  }

  // Among directories only, the first match and the first matching directory are the same.
  lemma FirstOfDirectories<T>(children: seq<Tree<T>>, part: Name)
    requires OnlyDirectories(children[..FirstDirectory(children, part)])
    ensures FirstNamed(children, part) == FirstDirectory(children, part)
  {
    var i := FirstDirectory(children, part);
    forall j | 0 <= j < i ensures !SameName(children[j].name, part) {
      assert children[..i][j].Directory?;
    }
  }

  // The exact outcome of the loop, for every directory and every path: it fails its assertion
  // exactly when a file gets in the way of a leading component, and otherwise finds exactly the
  // file that the first-match lookup finds for the components kept.
  lemma {:induction false} WalkExactly<T>(dir: Tree<T>, parts: seq<Name>)
    requires dir.Directory?
    ensures Walk(dir, parts).AssertionFails? <==> !NoFileInTheWay(dir, parts)
    ensures NoFileInTheWay(dir, parts) ==>
      Walk(dir, parts) == match FindPath(dir, Kept(dir, parts)) case Some(f) => Found(f) case None => Missing
    decreases |parts|
  {
    if |parts| == 1 {
      ScanForLast(dir.children, parts[0]);
    } else if |parts| > 1 {
      var i := FirstDirectory(dir.children, parts[0]);
      ScanForLeading(dir.children, parts[0]);
      if OnlyDirectories(dir.children[..i]) {
        FirstOfDirectories(dir.children, parts[0]);
        var next := if i < |dir.children| then dir.children[i] else dir;
        WalkExactly(next, parts[1..]);
        if i < |dir.children| {
          assert Kept(dir, parts)[1..] == Kept(next, parts[1..]);
        }
      }
    }
  }

  // Completeness: when the first-match lookup resolves the whole path, the loop returns that very
  // file if and only if no file gets in the way, and otherwise fails its assertion.
  lemma {:induction false} WalkComplete<T>(dir: Tree<T>, parts: seq<Name>)
    requires dir.Directory? && FindPath(dir, parts).Some?
    ensures Walk(dir, parts) ==
      if NoFileInTheWay(dir, parts) then Found(FindPath(dir, parts).value) else AssertionFails
    decreases |parts|
  {
    WalkExactly(dir, parts);
    if NoFileInTheWay(dir, parts) {
      KeptWhole(dir, parts);
    }
  }

  lemma {:induction false} KeptWhole<T>(dir: Tree<T>, parts: seq<Name>)
    requires dir.Directory? && FindPath(dir, parts).Some? && NoFileInTheWay(dir, parts)
    ensures Kept(dir, parts) == parts
    decreases |parts|
  {
    if |parts| > 1 {
      FirstOfDirectories(dir.children, parts[0]);
      KeptWhole(dir.children[FirstNamed(dir.children, parts[0])], parts[1..]);
    }
  }

  // Whenever the loop finds a file, it is the one the first-match lookup resolves the whole path to
  // if and only if every leading component matched a directory.
  lemma FoundIsFirstMatchIff<T>(dir: Tree<T>, parts: seq<Name>)
    requires dir.Directory? && Walk(dir, parts).Found?
    ensures FindPath(dir, parts) == Some(Walk(dir, parts).file) <==> Kept(dir, parts) == parts
  {
    WalkExactly(dir, parts);
    if FindPath(dir, parts).Some? {
      KeptWhole(dir, parts);
    }
  }

  // ---- Soundness ------------------------------------------------------------------------------

  predicate Subsequence<T(==)>(q: seq<T>, s: seq<T>) {
    q == [] || (s != [] && ((q[0] == s[0] && Subsequence(q[1..], s[1..])) || Subsequence(q, s[1..])))
  }

  // file lies below dir along directories called q[0], q[1], ..., and is itself called as the last.
  ghost predicate Leads<T>(dir: Tree<T>, q: seq<Name>, file: Tree<T>)
    decreases |q|
  {
    && dir.Directory? && q != []
    && if |q| == 1 then file.File? && file in dir.children && SameName(file.name, q[0])
       else exists i :: 0 <= i < |dir.children|
                           && SameName(dir.children[i].name, q[0]) && Leads(dir.children[i], q[1..], file)
  }

  lemma {:induction false} FindPathLeads<T>(dir: Tree<T>, q: seq<Name>)
    requires dir.Directory? && FindPath(dir, q).Some?
    ensures Leads(dir, q, FindPath(dir, q).value)
    decreases |q|
  {
    if |q| > 1 {
      FindPathLeads(dir.children[FirstNamed(dir.children, q[0])], q[1..]);
    }
  }

  lemma {:induction false} KeptIsSubsequence<T>(dir: Tree<T>, parts: seq<Name>)
    requires dir.Directory?
    ensures Subsequence(Kept(dir, parts), parts)
    decreases |parts|
  {
    if |parts| == 1 {
      assert parts[1..] == [];
    } else if |parts| > 1 {
      var i := FirstDirectory(dir.children, parts[0]);
      if i < |dir.children| {
        KeptIsSubsequence(dir.children[i], parts[1..]);
        assert Kept(dir, parts)[1..] == Kept(dir.children[i], parts[1..]);
      } else {
        KeptIsSubsequence(dir, parts[1..]);
      }
    }
  }

  // Whatever file the loop finds is called as the last component, and its ancestor directories
  // are called as a subsequence of the leading components.
  lemma WalkSound<T>(dir: Tree<T>, parts: seq<Name>)
    requires dir.Directory? && Walk(dir, parts).Found?
    ensures exists q :: Subsequence(q, parts) && q != [] && q[|q| - 1] == parts[|parts| - 1]
                        && Leads(dir, q, Walk(dir, parts).file)
  {
    var q := Kept(dir, parts);
    WalkExactly(dir, parts);
    KeptIsSubsequence(dir, parts);
    FindPathLeads(dir, q);
  }

  // ---- Lookup by plain names ------------------------------------------------------------------

  // No name below dir, and no component of a path, holds a NUL.
  predicate NulFreeBelow<T>(dir: Tree<T>)
    decreases dir
  {
    dir.Directory? ==> forall i :: 0 <= i < |dir.children| ==>
      0 !in dir.children[i].name && NulFreeBelow(dir.children[i])
  }

  predicate NulFreePath(parts: seq<Name>) {
    forall k :: 0 <= k < |parts| ==> 0 !in parts[k]
  }

  // Child i bears the name, and no sibling in front of it does.
  predicate FirstToBear<T>(children: seq<Tree<T>>, i: nat, name: Name) {
    i < |children| && children[i].name == name && forall j :: 0 <= j < i ==> children[j].name != name
  }

  // The names q[0], q[1], ... lead from dir to file, at every step to the first child of that name.
  ghost predicate NamedAlong<T>(dir: Tree<T>, q: seq<Name>, file: Tree<T>)
    decreases |q|
  {
    && dir.Directory? && file.File? && q != []
    && exists i: nat ::
         && FirstToBear(dir.children, i, q[0])
         && if |q| == 1 then file == dir.children[i] else NamedAlong(dir.children[i], q[1..], file)
  }

  // The same for the last component of a path behind some of the leading ones.
  ghost predicate NamedBySome<T>(dir: Tree<T>, parts: seq<Name>, file: Tree<T>) {
    exists q :: Subsequence(q, parts) && q != [] && q[|q| - 1] == parts[|parts| - 1] && NamedAlong(dir, q, file)
  }

  // Without NULs, the first-match lookup resolves a path to a file exactly when its components, as
  // they are, name the way to that file.
  lemma {:induction false} FindPathIff<T>(dir: Tree<T>, q: seq<Name>, file: Tree<T>)
    requires dir.Directory? && NulFreeBelow(dir) && NulFreePath(q)
    ensures FindPath(dir, q) == Some(file) <==> NamedAlong(dir, q, file)
    decreases |q|
  {
    if q != [] {
      FirstNamedIff(dir.children, q[0]);
      var i := FirstNamed(dir.children, q[0]);
      if i < |dir.children| {
        assert FirstToBear(dir.children, i, q[0]);
        if |q| > 1 && dir.children[i].Directory? {
          FindPathIff(dir.children[i], q[1..], file);
        }
      }
    }
  }

  lemma FirstNamedIff<T>(children: seq<Tree<T>>, part: Name)
    requires 0 !in part && forall j :: 0 <= j < |children| ==> 0 !in children[j].name
    ensures forall i: nat :: FirstToBear(children, i, part) <==> i == FirstNamed(children, part) < |children|
  {
    forall j | 0 <= j < |children| ensures SameName(children[j].name, part) <==> children[j].name == part {
      SameNameIff(children[j].name, part);
    }
  }

  // In a tree and for a path without NULs: the file the loop finds is the first to bear the last
  // component's name in a directory that a subsequence of the leading components names; and the
  // file that the whole path names is found if no file gets in the way.
  lemma WalkByName<T>(dir: Tree<T>, parts: seq<Name>)
    requires dir.Directory? && NulFreeBelow(dir) && NulFreePath(parts)
    ensures Walk(dir, parts).Found? ==> NamedBySome(dir, parts, Walk(dir, parts).file)
    ensures forall f :: NamedAlong(dir, parts, f) ==>
      Walk(dir, parts) == if NoFileInTheWay(dir, parts) then Found(f) else AssertionFails
  {
    if Walk(dir, parts).Found? {
      WalkExactly(dir, parts);
      KeptIsSubsequence(dir, parts);
      KeptIsNulFree(dir, parts);
      FindPathIff(dir, Kept(dir, parts), Walk(dir, parts).file);
    }
    forall f | NamedAlong(dir, parts, f)
      ensures Walk(dir, parts) == if NoFileInTheWay(dir, parts) then Found(f) else AssertionFails
    {
      FindPathIff(dir, parts, f);
      WalkComplete(dir, parts);
    }
  }

  lemma {:induction false} KeptIsNulFree<T>(dir: Tree<T>, parts: seq<Name>)
    requires dir.Directory? && NulFreePath(parts)
    ensures NulFreePath(Kept(dir, parts))
    decreases |parts|
  {
    if |parts| > 1 {
      var i := FirstDirectory(dir.children, parts[0]);
      KeptIsNulFree(if i < |dir.children| then dir.children[i] else dir, parts[1..]);
    }
  }

  // Two paths on which the loop and the first-match lookup differ.
  lemma UnmatchedComponentIsSkipped<T>(data: T)
    ensures var root := Directory([], [Directory([100], [File([97], data)])]);
            Walk(root, [[120], [100], [97]]) == Found(File([97], data))
            && FindPath(root, [[120], [100], [97]]) == None
  {
    var root := Directory([], [Directory([100], [File([97], data)])]);
    var parts: seq<Name> := [[120], [100], [97]];
    assert parts[1..] == [[100], [97]] && parts[1..][1..] == [[97]];
    assert CString([120]) == [120] && CString([100]) == [100] && CString([97]) == [97];
    var sub := root.children[0];
    assert ScanChildren(root.children, [120], false) == NoMatch;
    assert ScanChildren(root.children, [100], false) == Enters(sub);
    assert Walk(sub, [[97]]) == Found(File([97], data));
    assert Walk(root, [[100], [97]]) == Walk(sub, [[97]]);
  }

  lemma FileBeforeDirectoryTrips<T>(data: T)
    ensures var root := Directory([], [File([102], data), Directory([100], [File([97], data)])]);
            Walk(root, [[100], [97]]) == AssertionFails
            && FindPath(root, [[100], [97]]) == Some(File([97], data))
  {
    var root := Directory([], [File([102], data), Directory([100], [File([97], data)])]);
    var parts: seq<Name> := [[100], [97]];
    assert parts[1..] == [[97]];
    assert CString([102]) == [102] && CString([100]) == [100] && CString([97]) == [97];
    assert FirstNamed(root.children, parts[0]) == 1;
  }

  // ---- epicfs_read_file -----------------------------------------------------------------------

  // Returned is the C return value; OutOfBounds a read beyond the disk or a write beyond the
  // destination, which the C code does not guard against.
  datatype ReadOutcome = Returned(value: int) | AssertionFailed | OutOfBounds

  // The size_t size returned through the function's int result.
  function ToInt(size: u32): (n: int)
    ensures n >= 0 <==> size < 0x8000_0000
    ensures n == size || n == size - 0x1_0000_0000
  {
    if size < 0x8000_0000 then size else size - 0x1_0000_0000
  }

  // A file's bytes, if it has any, lie on the disk.
  predicate Readable(extent: Extent, disk: seq<byte>) {
    extent.size > 0 ==> extent.startSector * 512 + extent.size <= |disk|
  }

  // The result of reading a path into a destination that has room for capacity bytes.
  function ReadResult(root: Entry, parts: seq<Name>, disk: seq<byte>, capacity: nat): (r: ReadOutcome)
    requires root.Directory?
  {
    match Walk(root, parts)
    case AssertionFails => ReadOutcome.AssertionFailed
    case Missing => Returned(-1)
    case Found(f) =>
      if Readable(f.data, disk) && f.data.size <= capacity then Returned(ToInt(f.data.size)) else OutOfBounds
  }

  // For a path the first-match lookup resolves, epicfs_read_file returns that file's size if and
  // only if no file gets in the way, the bytes are there to be read and to be written, and the
  // size is not taken for a negative result.
  lemma ReadReturnsSizeIff(root: Entry, parts: seq<Name>, disk: seq<byte>, capacity: nat)
    requires root.Directory? && FindPath(root, parts).Some?
    ensures var e := FindPath(root, parts).value.data;
            ReadResult(root, parts, disk, capacity) == Returned(e.size)
            <==> && NoFileInTheWay(root, parts) && e.size <= capacity && e.size < 0x8000_0000
                 && (e.size > 0 ==> e.startSector * 512 + e.size <= |disk|)
  {
    WalkComplete(root, parts);
  }

  // Whenever epicfs_read_file returns a size, it is the size of the file the loop finds, and that
  // file is the one the path names if and only if every leading component matched a directory.
  lemma ReadIsFirstMatchIff(root: Entry, parts: seq<Name>, disk: seq<byte>, capacity: nat, size: nat)
    requires root.Directory? && ReadResult(root, parts, disk, capacity) == Returned(size)
    ensures Walk(root, parts).Found? && Walk(root, parts).file.data.size == size
    ensures FindPath(root, parts) == Some(Walk(root, parts).file) <==> Kept(root, parts) == parts
  {
    FoundIsFirstMatchIff(root, parts);
  }

  method ReadFile(root: FsEntry, parts: seq<Name>, disk: seq<byte>, buffer: array<byte>, at: nat, ghost S: set<object>)
    returns (r: ReadOutcome)
    requires root in S && Represents(S) && root.kind.FsTypeDirectory?
    requires at <= buffer.Length
    modifies buffer
    ensures r == ReadResult(root.tree, parts, disk, buffer.Length - at)
    ensures var w := Walk(root.tree, parts);
            buffer[..] == if w.Found? && r.Returned?
                          then Splice(old(buffer[..]), at, AtaRead(disk, w.file.data.startSector, w.file.data.size))
                          else old(buffer[..])
  {
    var entry, j := root, 0;
    while j < |parts|
      invariant 0 <= j <= |parts|
      invariant entry in S && entry.kind.FsTypeDirectory?
      invariant Walk(root.tree, parts) == Walk(entry.tree, parts[j..])
    {
      var part := parts[j];
      j := j + 1;
      ghost var children := entry.tree.children;
      ghost var scan := ScanChildren(children, part, j == |parts|);
      var next := entry;
      for i := 0 to entry.directory.header.childrenCount
        invariant next == entry
        invariant scan == ScanChildren(children[i..], part, j == |parts|)
      {
        var child := entry.children[i];
        assert child.tree == children[i] && Agrees(child, S);
        if child.kind.FsTypeDirectory? {
          if SameName(child.directory.name, part) {
            next := child;
            break;
          }
        } else {
          if j < |parts| {
            return ReadOutcome.AssertionFailed;
          }
          var file := child.file;
          if SameName(file.name, part) {
            var size := file.header.fileSize;
            if !Readable(Extent(size, file.header.startSector), disk) || size > buffer.Length - at {
              return OutOfBounds;
            }
            MemCopy(buffer, at, AtaRead(disk, file.header.startSector, size));
            return Returned(ToInt(size));
          }
        }
      }
      entry := next;
    }
    return Returned(-1);
  }
}
