// Bytes, the unsigned widths of the i386 target, and the two memory primitives every core file
// relies on: memcpy and memset.
module Bytes {

  type byte = n: int | 0 <= n < 0x100
  type u16 = n: int | 0 <= n < 0x1_0000
  type u32 = n: int | 0 <= n < 0x1_0000_0000

  // The little-endian image of a packed 16-bit field.
  function U16Bytes(n: u16): (b: seq<byte>)
    ensures |b| == 2
  {
    [n % 0x100, n / 0x100]
  }

  function ReadU16(b: seq<byte>): (n: u16)
    requires |b| >= 2
  {
    (b[0] as int) + 0x100 * (b[1] as int)
  }

  function U32Bytes(n: u32): (b: seq<byte>)
    ensures |b| == 4
  {
    U16Bytes(n % 0x1_0000) + U16Bytes(n / 0x1_0000)
  }

  function ReadU32(b: seq<byte>): (n: u32)
    requires |b| >= 4
  {
    (ReadU16(b) as int) + 0x1_0000 * (ReadU16(b[2..]) as int)
  }

  lemma U16RoundTrip(n: u16, rest: seq<byte>)
    ensures ReadU16(U16Bytes(n) + rest) == n
  {
  }

  lemma U16BytesOfRead(b: seq<byte>)
    requires |b| >= 2
    ensures U16Bytes(ReadU16(b)) == b[..2]
  {
  }

  lemma U32RoundTrip(n: u32, rest: seq<byte>)
    ensures ReadU32(U32Bytes(n) + rest) == n
  {
  }

  lemma U32BytesOfRead(b: seq<byte>)
    requires |b| >= 4
    ensures U32Bytes(ReadU32(b)) == b[..4]
  {
  }

  // Memory s with the bytes t written at address at.
  function Splice(s: seq<byte>, at: nat, t: seq<byte>): (r: seq<byte>)
    requires at + |t| <= |s|
    ensures |r| == |s|
    ensures forall k :: 0 <= k < |s| && !(at <= k < at + |t|) ==> r[k] == s[k]
    ensures forall k :: at <= k < at + |t| ==> r[k] == t[k - at]
  {
    s[..at] + t + s[at + |t|..]
  }

  function Filled(value: byte, n: nat): (s: seq<byte>)
    ensures |s| == n && forall k :: 0 <= k < n ==> s[k] == value
  {
    seq(n, _ => value)
  }

  // Two adjacent writes are one write of the concatenation.
  lemma SpliceSplice(s: seq<byte>, at: nat, t: seq<byte>, u: seq<byte>)
    requires at + |t| + |u| <= |s|
    ensures Splice(Splice(s, at, t), at + |t|, u) == Splice(s, at, t + u)
  {
  }

  method MemCopy(dst: array<byte>, at: nat, src: seq<byte>)
    requires at + |src| <= dst.Length
    modifies dst
    ensures dst[..] == Splice(old(dst[..]), at, src)
  {
    for k := 0 to |src|
      invariant dst[at..at + k] == src[..k]
      invariant dst[..at] == old(dst[..at]) && dst[at + k..] == old(dst[at + k..])
    {
      ghost var before := dst[..];
      dst[at + k] := src[k];
      assert dst[at..at + k] == before[at..at + k];
    }
    assert dst[..] == dst[..at] + dst[at..at + |src|] + dst[at + |src|..];
  }

  method MemSet(dst: array<byte>, at: nat, value: byte, n: nat)
    requires at + n <= dst.Length
    modifies dst
    ensures dst[..] == Splice(old(dst[..]), at, Filled(value, n))
  {
    for k := 0 to n
      invariant forall i :: at <= i < at + k ==> dst[i] == value
      invariant dst[..at] == old(dst[..at]) && dst[at + k..] == old(dst[at + k..])
    {
      dst[at + k] := value;
    }
    assert dst[at..at + n] == Filled(value, n);
    assert dst[..] == dst[..at] + dst[at..at + n] + dst[at + n..];
  }
}
