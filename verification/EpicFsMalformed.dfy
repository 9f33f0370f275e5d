// elf/epicfs.c, lines 82-150, on bytes that no writer wrote: when a parse succeeds, when it runs off
// the end of its input, and when it fails its assertion, in terms of what could have been written.
module EpicFsMalformed {
  import opened Bytes
  import opened EpicFsFormat

  // ---- What is decided stays decided ----------------------------------------------------------

  // Only a truncated parse depends on what follows its input.
  lemma {:induction false} DirectoryDecided(b: seq<byte>, rest: seq<byte>)
    requires ParseDirectory(b) != Truncated
    ensures ParseDirectory(b + rest) == ParseDirectory(b)
    decreases |b|, 0
  {
    var n: nat := ReadU16(b[1..]);
    SameHeader(b, rest);
    SameStart(b, rest, 5, 5 + n);
    ChildrenDecided(b[5 + n..], rest, ReadU16(b[3..]));
  }

  lemma FileDecided(b: seq<byte>, rest: seq<byte>)
    requires ParseFile(b) != Truncated
    ensures ParseFile(b + rest) == ParseFile(b)
  {
    SameHeader(b, rest);
    SameStart(b, rest, 11, 11 + ReadU16(b[1..]));
    assert (b + rest)[3..] == b[3..] + rest && (b + rest)[7..] == b[7..] + rest;
  }

  // Appending bytes changes neither the fields of a header, nor the name behind it, nor what
  // follows but for them.
  lemma SameHeader(b: seq<byte>, rest: seq<byte>)
    requires |b| >= 5
    ensures ReadU16((b + rest)[1..]) == ReadU16(b[1..]) && ReadU16((b + rest)[3..]) == ReadU16(b[3..])
  {
  }

  lemma SameStart(b: seq<byte>, rest: seq<byte>, i: nat, n: nat)
    requires i <= n <= |b|
    ensures (b + rest)[i..n] == b[i..n] && (b + rest)[n..] == b[n..] + rest
  {
  }

  lemma {:induction false} EntryDecided(b: seq<byte>, rest: seq<byte>)
    requires ParseEntry(b) != Truncated
    ensures ParseEntry(b + rest) == ParseEntry(b)
    decreases |b|, 1
  {
    if b[0] == FS_TYPE_DIRECTORY {
      DirectoryDecided(b, rest);
    } else if b[0] == FS_TYPE_FILE {
      FileDecided(b, rest);
    }
  }

  lemma {:induction false} ChildrenDecided(b: seq<byte>, rest: seq<byte>, count: nat)
    requires ParseChildren(b, count) != Truncated
    ensures ParseChildren(b + rest, count) == ParseChildren(b, count)
    decreases |b|, 2, count
  {
    if count != 0 {
      EntryDecided(b, rest);
      if ParseEntry(b).Parsed? {
        var m := ParseEntry(b).consumed;
        SameStart(b, rest, m, m);
        ChildrenDecided(b[m..], rest, count - 1);
      }
    }
  }

  // ---- What is truncated can be completed -----------------------------------------------------

  // A truncated parse of b succeeds, and consumes everything, once k zeros follow.
  ghost predicate CompletedBy<T>(p: Parse<T>, b: seq<byte>, k: nat) {
    p.Parsed? && p.consumed == |b| + k
  }

  lemma {:induction false} CompleteDirectory(b: seq<byte>) returns (k: nat)
    requires ParseDirectory(b) == Truncated
    ensures CompletedBy(ParseDirectory(b + Filled(0, k)), b, k)
    decreases |b|, 0
  {
    if |b| >= 5 && |b| >= 5 + ReadU16(b[1..]) {
      k := CompleteBody(b);
    } else {
      k := CompleteHeader(b);
      var c := b + Filled(0, k);
      var count: nat := ReadU16(c[3..]);
      assert c[|c|..] == [] && c[5 + ReadU16(c[1..])..] == c[|c|..];
      if count != 0 {
        assert ParseEntry([]) == Truncated && ParseChildren([], count) == Truncated;
        var more := CompleteBody(c);
        TwoFills(b, k, more);
        k := k + more;
      }
    }
  }

  // The children of a directory whose header and name are there.
  lemma {:induction false} CompleteBody(b: seq<byte>) returns (k: nat)
    requires |b| >= 5 && |b| >= 5 + ReadU16(b[1..]) && ParseDirectory(b) == Truncated
    ensures CompletedBy(ParseDirectory(b + Filled(0, k)), b, k)
    decreases |b[5 + ReadU16(b[1..])..]|, 3
  {
    var n: nat := ReadU16(b[1..]);
    k := CompleteChildren(b[5 + n..], ReadU16(b[3..]));
    SameHeader(b, Filled(0, k));
    SameStart(b, Filled(0, k), 5, 5 + n);
  }

  // Zeros behind a header that is cut off complete it and its name.
  lemma CompleteHeader(b: seq<byte>) returns (k: nat)
    requires |b| < 5 || |b| < 5 + ReadU16(b[1..])
    ensures var c := b + Filled(0, k); |c| >= 5 && |c| == 5 + ReadU16(c[1..])
    ensures |b| == 0 ==> ReadU16((b + Filled(0, k))[3..]) == 0
  {
    if |b| < 5 {
      var five := b + Filled(0, 5 - |b|);
      var n := ReadU16(five[1..]);
      k := 5 - |b| + n;
      TwoFills(b, 5 - |b|, n);
      SameHeader(five, Filled(0, n));
    } else {
      k := 5 + ReadU16(b[1..]) - |b|;
      SameHeader(b, Filled(0, k));
    }
  }

  lemma TwoFills(b: seq<byte>, k: nat, more: nat)
    ensures b + Filled(0, k) + Filled(0, more) == b + Filled(0, k + more)
  {
  }

  lemma CompleteFile(b: seq<byte>) returns (k: nat)
    requires |b| > 0 && ParseFile(b) == Truncated
    ensures CompletedBy(ParseFile(b + Filled(0, k)), b, k)
  {
    if |b| < 11 {
      var eleven := b + Filled(0, 11 - |b|);
      var n := ReadU16(eleven[1..]);
      k := 11 - |b| + n;
      TwoFills(b, 11 - |b|, n);
      SameHeader(eleven, Filled(0, n));
    } else {
      k := 11 + ReadU16(b[1..]) - |b|;
      SameHeader(b, Filled(0, k));
    }
  }

  lemma EmptyDirectory(b: seq<byte>)
    requires b == Filled(0, 5)
    ensures ParseEntry(b) == Parsed(Directory([], []), 5)
  {
    assert ParseChildren(b[5..], 0) == Parsed([], 0);
    assert b[5..5] == [];
  }

  lemma {:induction false} CompleteEntry(b: seq<byte>) returns (k: nat)
    requires ParseEntry(b) == Truncated
    ensures CompletedBy(ParseEntry(b + Filled(0, k)), b, k)
    decreases |b|, 1
  {
    if b == [] {
      k := 5;
      EmptyDirectory(b + Filled(0, 5));
    } else if b[0] == FS_TYPE_DIRECTORY {
      k := CompleteDirectory(b);
    } else {
      k := CompleteFile(b);
    }
  }

  lemma {:induction false} CompleteChildren(b: seq<byte>, count: nat) returns (k: nat)
    requires ParseChildren(b, count) == Truncated
    ensures CompletedBy(ParseChildren(b + Filled(0, k), count), b, k)
    decreases |b|, 2, count
  {
    if ParseEntry(b) == Truncated {
      k := CompleteEntry(b);
      var c := b + Filled(0, k);
      assert c[|c|..] == [];
      if count > 1 {
        var more := CompleteChildren([], count - 1);
        EntryDecided(c, Filled(0, more));
        SameStart(c, Filled(0, more), |c|, |c|);
        TwoFills(b, k, more);
        assert [] + Filled(0, more) == Filled(0, more);
        k := k + more;
      }
    } else {
      var m := ParseEntry(b).consumed;
      k := CompleteChildren(b[m..], count - 1);
      EntryDecided(b, Filled(0, k));
      SameStart(b, Filled(0, k), m, m);
    }
  }

  // ---- The exact outcome ----------------------------------------------------------------------

  // But for its first byte, b begins with the bytes of a written directory.
  ghost predicate BeginsWritten(b: seq<byte>) {
    exists t: Entry :: Encodable(t) && t.Directory?
                       && |Serialise(t)| <= |b| && Serialise(t)[1..] == b[1..|Serialise(t)|]
  }

  lemma ParsedBeginsWritten(b: seq<byte>)
    requires ParseDirectory(b).Parsed?
    ensures BeginsWritten(b)
  {
    SerialiseOfParsedDirectory(b);
    var t := ParseDirectory(b).value;
    assert Serialise(t)[1..] == b[1..|Serialise(t)|];
  }

  lemma WrittenParses(b: seq<byte>, t: Entry)
    requires Encodable(t) && t.Directory? && |Serialise(t)| <= |b| && Serialise(t)[1..] == b[1..|Serialise(t)|]
    ensures ParseDirectory(b).Parsed?
  {
    var n := |Serialise(t)|;
    ParseUndoesSerialise(t, b[n..]);
    assert b[0 := FS_TYPE_DIRECTORY] == Serialise(t) + b[n..];
    TagIsIgnored(b, FS_TYPE_DIRECTORY);
  }

  lemma ParsedIff(b: seq<byte>)
    ensures ParseDirectory(b).Parsed? <==> BeginsWritten(b)
  {
    if ParseDirectory(b).Parsed? {
      ParsedBeginsWritten(b);
    }
    if BeginsWritten(b) {
      var t: Entry :| Encodable(t) && t.Directory?
                      && |Serialise(t)| <= |b| && Serialise(t)[1..] == b[1..|Serialise(t)|];
      WrittenParses(b, t);
    }
  }

  // The parser's outcome on every byte string: it succeeds exactly when the input begins with a
  // written directory, runs off its end exactly when the input does not but can still be extended
  // so that it does, and fails its assertion exactly when nothing that follows could help.
  lemma ParseOutcome(b: seq<byte>)
    ensures ParseDirectory(b).Parsed? <==> BeginsWritten(b)
    ensures ParseDirectory(b) == Truncated <==> !BeginsWritten(b) && exists rest :: BeginsWritten(b + rest)
    ensures ParseDirectory(b) == AssertionFailed <==> forall rest :: !BeginsWritten(b + rest)
  {
    ParsedIff(b);
    if ParseDirectory(b) == Truncated {
      var k := CompleteDirectory(b);
      ParsedIff(b + Filled(0, k));
    } else {
      forall rest ensures BeginsWritten(b + rest) <==> ParseDirectory(b).Parsed? {
        DirectoryDecided(b, rest);
        ParsedIff(b + rest);
      }
      assert b + [] == b;
    }
  }

  // A child whose tag is neither of the two fails the assertion, whatever well-formed siblings come
  // before it and whatever follows.
  lemma ForeignChildFails(name: Name, count: u16, ts: seq<Entry>, tag: byte, rest: seq<byte>)
    requires |name| < 0x1_0000 && AllEncodable(ts) && |ts| < count && tag > 1
    ensures ParseDirectory(DirectoryBytes(name, count) + (SerialiseAll(ts) + ([tag] + rest))) == AssertionFailed
  {
    DirectoryFields(name, count, SerialiseAll(ts) + ([tag] + rest));
    ForeignAmongChildren(ts, count, tag, rest);
  }

  lemma {:induction false} ForeignAmongChildren(ts: seq<Entry>, count: nat, tag: byte, rest: seq<byte>)
    requires AllEncodable(ts) && |ts| < count && tag > 1
    ensures ParseChildren(SerialiseAll(ts) + ([tag] + rest), count) == AssertionFailed
    decreases |ts|
  {
    if ts == [] {
      assert SerialiseAll(ts) + ([tag] + rest) == [tag] + rest;
    } else {
      var head, tail := Serialise(ts[0]), SerialiseAll(ts[1..]) + ([tag] + rest);
      assert SerialiseAll(ts) + ([tag] + rest) == head + tail;
      ParseUndoesSerialise(ts[0], tail);
      ForeignAmongChildren(ts[1..], count - 1, tag, rest);
      FailsBehind(head, tail, ts[0], count);
    }
  }

  lemma FailsBehind(head: seq<byte>, tail: seq<byte>, t: Entry, count: nat)
    requires count > 0 && ParseEntry(head + tail) == Parsed(t, |head|)
    requires ParseChildren(tail, count - 1) == AssertionFailed
    ensures ParseChildren(head + tail, count) == AssertionFailed
  {
    assert (head + tail)[|head|..] == tail;
  }
}
