/** Writing a stretch of memory, and reading a stretch of the disc, as operations on sequences. */
module Sequences {
  type Byte = bv8

  // s with x written at position `at`; a stretch that does not fit is not written.
  function Splice<T>(s: seq<T>, at: nat, x: seq<T>): (t: seq<T>)
    ensures |t| == |s|
  {
    if at + |x| <= |s| then seq(|s|, i requires 0 <= i < |s| => if at <= i < at + |x| then x[i - at] else s[i]) else s
  }

  lemma SubSlice<T>(s: seq<T>, a: nat, n: nat, b: nat, m: nat)
    requires a + n <= |s| && b + m <= n
    ensures s[a..a + n][b..b + m] == s[a + b..a + b + m]
  {
    var x, y := s[a..a + n][b..b + m], s[a + b..a + b + m];
    assert forall i :: 0 <= i < m ==> x[i] == y[i];
  }

  lemma Regroup<T>(x: seq<T>, y: seq<T>, z: seq<T>)
    ensures x + (y + z) == (x + y) + z
  {
  }

  // Two adjacent writes are one.
  lemma SpliceTwice<T>(s: seq<T>, at: nat, x: seq<T>, y: seq<T>)
    requires at + |x| + |y| <= |s|
    ensures Splice(Splice(s, at, x), at + |x|, y) == Splice(s, at, x + y)
  {
  }

  // ... in either order.
  lemma SpliceBefore<T>(s: seq<T>, at: nat, x: seq<T>, y: seq<T>)
    requires at + |x| + |y| <= |s|
    ensures Splice(Splice(s, at + |x|, y), at, x) == Splice(s, at, x + y)
  {
  }

  // Three adjacent writes, the middle one first, are one.
  lemma SpliceThree<T>(s: seq<T>, at: nat, x: seq<T>, y: seq<T>, z: seq<T>)
    requires at + |x| + |y| + |z| <= |s|
    ensures Splice(Splice(Splice(s, at + |x|, y), at, x), at + |x| + |y|, z) == Splice(s, at, x + y + z)
  {
    SpliceBefore(s, at, x, y);
    var xy := x + y;
    SpliceTwice(s, at, xy, z);
  }

  /** A copy loop over arrays: a DMA transfer, or a memcpy between distinct buffers. */
  method CopyOut<T>(src: array<T>, from: nat, dest: array<T>, to: nat, n: nat)
    requires src != dest && from + n <= src.Length && to + n <= dest.Length
    modifies dest
    ensures dest[..] == Splice(old(dest[..]), to, src[from..from + n])
  {
    ghost var was, now := dest[..], Splice(dest[..], to, src[from..from + n]);
    for i := 0 to n
      invariant forall k: nat :: k < to + i ==> dest[k] == now[k]
      invariant forall k: nat :: to + i <= k < dest.Length ==> dest[k] == was[k]
    {
      dest[to + i] := src[from + i];
    }
  }

  // n bytes of the disc image, from byte `from` on.
  function Bytes(disc: nat -> Byte, from: nat, n: nat): (b: seq<Byte>)
    ensures |b| == n
  {
    seq(n, i requires 0 <= i => disc(from + i))
  }

  lemma BytesSplit(disc: nat -> Byte, from: nat, n: nat, m: nat)
    ensures Bytes(disc, from, n) + Bytes(disc, from + n, m) == Bytes(disc, from, n + m)
  {
  }

  lemma BytesThree(disc: nat -> Byte, from: nat, n: nat, m: nat, k: nat)
    ensures Bytes(disc, from, n) + Bytes(disc, from + n, m) + Bytes(disc, from + n + m, k) == Bytes(disc, from, n + m + k)
  {
    BytesSplit(disc, from, n, m);
    BytesSplit(disc, from, n + m, k);
  }

  // Two reads side by side are one.
  lemma Adjacent(disc: nat -> Byte, from: nat, n: nat, m: nat, at: nat, was: seq<Byte>, mid: seq<Byte>, now: seq<Byte>)
    requires at + n + m <= |was| && mid == Splice(was, at, Bytes(disc, from, n))
    requires now == Splice(mid, at + n, Bytes(disc, from + n, m))
    ensures now == Splice(was, at, Bytes(disc, from, n + m))
  {
    BytesSplit(disc, from, n, m);
    SpliceTwice(was, at, Bytes(disc, from, n), Bytes(disc, from + n, m));
  }

  lemma BytesSlice(disc: nat -> Byte, from: nat, n: nat, a: nat, b: nat)
    requires a <= b <= n
    ensures Bytes(disc, from, n)[a..b] == Bytes(disc, from + a, b - a)
  {
  }

  // A transfer from a device: n of its bytes, from byte `from` on, to position `at` of a buffer.
  method ReadBytes(disc: nat -> Byte, from: nat, n: nat, buf: array<Byte>, at: nat)
    requires at + n <= buf.Length
    modifies buf
    ensures buf[..] == Splice(old(buf[..]), at, Bytes(disc, from, n))
  {
    ghost var was, now := buf[..], Splice(buf[..], at, Bytes(disc, from, n));
    for i := 0 to n
      invariant forall k: nat :: k < at + i ==> buf[k] == now[k]
      invariant forall k: nat :: at + i <= k < buf.Length ==> buf[k] == was[k]
    {
      buf[at + i] := disc(from + i);
    }
  }
}
