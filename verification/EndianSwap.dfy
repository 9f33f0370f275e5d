// include/SHACommon.h: byte order reversal by exclusive-or, in place.
module EndianSwap {

  function Reversed<T>(s: seq<T>): (r: seq<T>)
    ensures |r| == |s|
  {
    if s == [] then [] else Reversed(s[1..]) + [s[0]]
  }

  lemma {:induction false} ReversedAt<T>(s: seq<T>, k: nat)
    requires k < |s|
    ensures Reversed(s)[k] == s[|s| - 1 - k]
  {
    if k < |s| - 1 {
      ReversedAt(s[1..], k);
    }
  }

  // Reversing twice is the identity, so each swap is its own inverse.
  lemma {:induction false} ReversedInvolutive<T>(s: seq<T>)
    ensures Reversed(Reversed(s)) == s
  {
    forall k | 0 <= k < |s| ensures Reversed(Reversed(s))[k] == s[k] {
      ReversedAt(Reversed(s), k);
      ReversedAt(s, |s| - 1 - k);
    }
  }

  lemma {:induction false} ReversedConcat<T>(s: seq<T>, t: seq<T>)
    ensures Reversed(s + t) == Reversed(t) + Reversed(s)
  {
    if s == [] {
      assert s + t == t;
    } else {
      assert (s + t)[1..] == s[1..] + t;
      ReversedConcat(s[1..], t);
    }
  }

  function Xor(a: bv8, b: bv8): bv8 { a ^ b }

  // The three exclusive-or assignments exchange two distinct bytes.
  lemma XorExchanges(a: bv8, b: bv8)
    ensures Xor(b, Xor(a, b)) == a
    ensures Xor(Xor(a, b), Xor(b, Xor(a, b))) == b
  {
  }

  // The loop body: three exclusive-or assignments on distinct positions.
  method ExchangeBytes(y: array<bv8>, low: nat, high: nat)
    requires low < high < y.Length
    modifies y
    ensures y[low] == old(y[high]) && y[high] == old(y[low])
    ensures forall i :: 0 <= i < y.Length && i != low && i != high ==> y[i] == old(y[i])
  {
    XorExchanges(y[low], y[high]);
    y[low] := Xor(y[low], y[high]);
    y[high] := Xor(y[high], y[low]);
    y[low] := Xor(y[low], y[high]);
  }

  // The two-index loop shared by the three functions of the header.
  method SwapBytes(y: array<bv8>, n: nat)
    requires 1 <= n <= y.Length
    modifies y
    ensures y[..] == Reversed(old(y[..n])) + old(y[n..])
  {
    ghost var was := y[..];
    var low, high := 0, n - 1;
    while high > low
      invariant 0 <= low <= n && high == n - 1 - low && low <= high + 1
      invariant forall i :: 0 <= i < low || high < i < n ==> y[i] == was[n - 1 - i]
      invariant forall i :: low <= i <= high || n <= i < y.Length ==> y[i] == was[i]
    {
      ExchangeBytes(y, low, high);
      low, high := low + 1, high - 1;
    }
    forall k | 0 <= k < n ensures y[k] == Reversed(was[..n])[k] {
      ReversedAt(was[..n], k);
    }
    assert y[..] == y[..n] + y[n..];
  }

  method EndianSwap32(y: array<bv8>)
    requires y.Length >= 4
    modifies y
    ensures y[..] == Reversed(old(y[..4])) + old(y[4..])
  {
    SwapBytes(y, 4);
  }

  method EndianSwap64(y: array<bv8>)
    requires y.Length >= 8
    modifies y
    ensures y[..] == Reversed(old(y[..8])) + old(y[8..])
  {
    SwapBytes(y, 8);
  }

  // Despite its name the loop bound is sizeof(uint64_t): bytes 8 to 15 are never touched.
  method EndianSwap128(y: array<bv8>)
    requires y.Length >= 8
    modifies y
    ensures y[..] == Reversed(old(y[..8])) + old(y[8..])
  {
    SwapBytes(y, 8);
  }

  method SwapTwice(y: array<bv8>, n: nat)
    requires 1 <= n <= y.Length
    modifies y
    ensures y[..] == old(y[..])
  {
    ghost var was := y[..];
    SwapBytes(y, n);
    assert y[..n] == Reversed(was[..n]) && y[n..] == was[n..];
    SwapBytes(y, n);
    ReversedInvolutive(was[..n]);
    assert was == was[..n] + was[n..];
  }

  // The number held by a word, least significant byte first; and most significant byte first.
  function LittleEndian(s: seq<bv8>): (v: nat) {
    if s == [] then 0 else (s[0] as int) + 0x100 * LittleEndian(s[1..])
  }

  function BigEndian(s: seq<bv8>): (v: nat) {
    if s == [] then 0 else 0x100 * BigEndian(s[..|s| - 1]) + (s[|s| - 1] as int)
  }

  // What the swap is for: the bytes read in the other order hold the same number.
  lemma {:induction false} ReversedChangesByteOrder(s: seq<bv8>)
    ensures LittleEndian(Reversed(s)) == BigEndian(s)
  {
    if s != [] {
      var front, last := s[..|s| - 1], s[|s| - 1];
      assert s == front + [last];
      ReversedConcat(front, [last]);
      assert Reversed([last]) == [last];
      assert ([last] + Reversed(front))[1..] == Reversed(front);
      ReversedChangesByteOrder(front);
    }
  }

  // The 128-bit swap reverses its 16 bytes exactly when the two halves are the same palindrome.
  lemma Swap128ReversesIff(w: seq<bv8>)
    requires |w| == 16
    ensures Reversed(w[..8]) + w[8..] == Reversed(w)
            <==> w[..8] == w[8..] && Reversed(w[..8]) == w[..8]
  {
    var lo, hi := w[..8], w[8..];
    assert w == lo + hi;
    ReversedConcat(lo, hi);
    ReversedInvolutive(lo);
    ReversedInvolutive(hi);
    assert (Reversed(lo) + hi)[..8] == Reversed(lo) && (Reversed(lo) + hi)[8..] == hi;
    assert (Reversed(hi) + Reversed(lo))[..8] == Reversed(hi);
    assert (Reversed(hi) + Reversed(lo))[8..] == Reversed(lo);
  }

  // A 16-byte word the 128-bit swap does not reverse: byte 0 is 1, the others are 0.
  lemma Swap128IsNotAReversal()
    ensures var w := [1 as bv8] + seq(15, _ => 0);
            Reversed(w[..8]) + w[8..] != Reversed(w)
  {
    var w := [1 as bv8] + seq(15, _ => 0 as bv8);
    assert w[..8][0] != w[8..][0];
    Swap128ReversesIff(w);
  }
}
