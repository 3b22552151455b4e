/** mips_memcpy and mips_memset (cdvdman/smsutils.s), instruction by instruction on a little-endian MIPS:
    words where the addresses allow it, lwr/lwl pairs where the source is not aligned, 16 bytes a turn as
    long as they last. Both refine a byte loop. Loads and stores of whole words need aligned addresses,
    and loads name the range they may read: meeting these is part of the proof. */
module SmsUtils {
  import opened Sequences

  // A register as its four bytes, the lowest first.
  datatype Word = Word(b0: Byte, b1: Byte, b2: Byte, b3: Byte) {
    function At(i: nat): Byte
      requires i < 4
    {
      if i == 0 then b0 else if i == 1 then b1 else if i == 2 then b2 else b3
    }

    function Octets(): (s: seq<Byte>)
      ensures |s| == 4
      ensures forall i :: 0 <= i < 4 ==> s[i] == At(i)
    {
      [b0, b1, b2, b3]
    }

    function ShiftLeft8(): Word {
      Word(0, b0, b1, b2)
    }

    function ShiftLeft16(): Word {
      Word(0, 0, b0, b1)
    }

    function Or(w: Word): Word {
      Word(b0 | w.b0, b1 | w.b1, b2 | w.b2, b3 | w.b3)
    }

    function And255(): Word {
      Word(b0, 0, 0, 0)
    }
  }

  // ---- instructions ----------------------------------------------------------------------------

  // The word at an address, aligned or not.
  function WordAt(s: seq<Byte>, a: nat): (w: Word)
    requires a + 4 <= |s|
    ensures w.Octets() == s[a..a + 4]
  {
    Word(s[a], s[a + 1], s[a + 2], s[a + 3])
  }

  // lwr: the bytes from a to the end of its word, into the lower part of the register.
  method Lwr(mem: array<Byte>, w: Word, a: nat, ghost from: nat, ghost to: nat) returns (v: Word)
    requires from <= a && a + (4 - a % 4) <= to <= mem.Length
    ensures forall i :: 0 <= i < 4 ==> v.At(i) == if i < 4 - a % 4 then mem[a + i] else w.At(i)
  {
    var n := 4 - a % 4;
    v := Word(mem[a], if n > 1 then mem[a + 1] else w.b1, if n > 2 then mem[a + 2] else w.b2, if n > 3 then mem[a + 3] else w.b3);
  }

  // lwl: the bytes from the start of the word of e up to e, into the upper part.
  method Lwl(mem: array<Byte>, w: Word, e: nat, ghost from: nat, ghost to: nat) returns (v: Word)
    requires from <= e - e % 4 && e < to <= mem.Length
    ensures forall i :: 0 <= i < 4 ==> v.At(i) == if i < 3 - e % 4 then w.At(i) else mem[e - 3 + i]
  {
    var n := e % 4 + 1;
    v := Word(if n > 3 then mem[e - 3] else w.b0, if n > 2 then mem[e - 2] else w.b1, if n > 1 then mem[e - 1] else w.b2, mem[e]);
  }

  method Lw(mem: array<Byte>, a: nat, ghost from: nat, ghost to: nat) returns (v: Word)
    requires a % 4 == 0 && from <= a && a + 4 <= to <= mem.Length
    ensures v == WordAt(mem[..], a)
  {
    v := Word(mem[a], mem[a + 1], mem[a + 2], mem[a + 3]);
  }

  // swr: the lower bytes of the register, from a to the end of its word.
  method Swr(mem: array<Byte>, w: Word, a: nat, ghost was: seq<Byte>)
    requires a + (4 - a % 4) <= mem.Length && was == mem[..]
    modifies mem
    ensures mem[..] == Splice(was, a, w.Octets()[..4 - a % 4])
  {
    ghost var x := w.Octets()[..4 - a % 4];
    for i := 0 to 4 - a % 4
      invariant forall k: nat :: a <= k < a + i ==> mem[k] == x[k - a]
      invariant forall k: nat :: k < a || a + i <= k < mem.Length ==> mem[k] == was[k]
    {
      mem[a + i] := w.At(i);
    }
  }

  method Sw(mem: array<Byte>, w: Word, a: nat, ghost was: seq<Byte>)
    requires a % 4 == 0 && a + 4 <= mem.Length && was == mem[..]
    modifies mem
    ensures mem[..] == Splice(was, a, w.Octets())
  {
    mem[a], mem[a + 1], mem[a + 2], mem[a + 3] := w.b0, w.b1, w.b2, w.b3;
  }

  // A word of the source: lw, or lwr and lwl, which together read exactly four bytes at any address.
  method Load(mem: array<Byte>, aligned: bool, a: nat, ghost from: nat, ghost to: nat) returns (v: Word)
    requires from <= a && a + 4 <= to <= mem.Length && (aligned ==> a % 4 == 0)
    ensures v == WordAt(mem[..], a)
  {
    if aligned {
      v := Lw(mem, a, from, to);
    } else {
      v := Word(0, 0, 0, 0);
      v := Lwr(mem, v, a, from, to);
      v := Lwl(mem, v, a + 3, from, to);
      assert v.At(0) == mem[a] && v.At(1) == mem[a + 1] && v.At(2) == mem[a + 2] && v.At(3) == mem[a + 3];
    }
  }

  // ---- memcpy ----------------------------------------------------------------------------------

  // Source and destination, both within memory and apart.
  datatype Copy = Copy(dst: nat, src: nat, n: nat) {
    predicate Fits(size: nat) {
      dst + n <= size && src + n <= size && (dst + n <= src || src + n <= dst)
    }
  }

  // Memory after k bytes.
  function After(c: Copy, k: nat, was: seq<Byte>): (now: seq<Byte>)
    requires c.Fits(|was|) && k <= c.n
    ensures |now| == |was|
  {
    seq(|was|, i requires 0 <= i < |was| => if c.dst <= i < c.dst + k then was[c.src + (i - c.dst)] else was[i])
  }

  lemma AfterNone(c: Copy, was: seq<Byte>)
    requires c.Fits(|was|)
    ensures After(c, 0, was) == was
  {
  }

  lemma AfterAll(c: Copy, was: seq<Byte>)
    requires c.Fits(|was|)
    ensures After(c, c.n, was) == Splice(was, c.dst, was[c.src..c.src + c.n])
  {
  }

  // The start and the end of a copy, as its caller sees them.
  lemma CopyEnds(c: Copy, dst: nat, src: nat, n: nat, was: seq<Byte>)
    requires c == Copy(dst, src, n) && c.Fits(|was|)
    ensures Copied(c, 0, was, was)
    ensures After(c, n, was) == Splice(was, dst, was[src..src + n])
  {
    AfterNone(c, was);
    AfterAll(c, was);
  }

  // The first k bytes have been copied.
  predicate Copied(c: Copy, k: nat, was: seq<Byte>, now: seq<Byte>) {
    c.Fits(|was|) && k <= c.n && now == After(c, k, was)
  }

  // The pointers stand k bytes into their areas, and that much has been copied.
  predicate Upto(c: Copy, a0: nat, a1: nat, k: nat, was: seq<Byte>, now: seq<Byte>) {
    a0 == c.dst + k && a1 == c.src + k && Copied(c, k, was, now)
  }

  lemma CopiedMore(c: Copy, k: nat, m: nat, was: seq<Byte>, mid: seq<Byte>, now: seq<Byte>)
    requires Copied(c, k, was, mid) && k + m <= c.n && now == Splice(mid, c.dst + k, mid[c.src + k..c.src + k + m])
    ensures Copied(c, k + m, was, now)
  {
    assert forall i :: 0 <= i < |was| ==> now[i] == After(c, k + m, was)[i];
  }

  // Up to the first aligned address of the destination: the bytes before it.
  method MoveHead(mem: array<Byte>, aligned: bool, a0: nat, a1: nat, a3: nat, ghost from: nat, ghost to: nat, ghost mid: seq<Byte>)
    requires a3 < 4 && a3 == 4 - a0 % 4 && aligned == (a0 % 4 == a1 % 4) && from <= a1 && a1 + 4 <= to <= mem.Length
    requires a0 + a3 <= mem.Length && mid == mem[..]
    modifies mem
    ensures mem[..] == Splice(mid, a0, mid[a1..a1 + a3])
  {
    var v1 := Word(0, 0, 0, 0);
    if aligned {
      v1 := Lwr(mem, v1, a1, from, to);
    } else {
      v1 := Load(mem, false, a1, from, to);
    }
    HeadBytes(mid, v1, a1, a3);
    Swr(mem, v1, a0, mid);
  }

  lemma HeadBytes(s: seq<Byte>, w: Word, a: nat, n: nat)
    requires n <= 4 && a + n <= |s| && forall i :: 0 <= i < n ==> w.At(i) == s[a + i]
    ensures w.Octets()[..n] == s[a..a + n]
  {
  }

  // Four words to consecutive addresses, the last from the delay slot of the loop's branch.
  method Store16(mem: array<Byte>, a0: nat, v1: Word, t0: Word, t1: Word, t2: Word, ghost mid: seq<Byte>)
    requires a0 % 4 == 0 && a0 + 16 <= mem.Length && mid == mem[..]
    modifies mem
    ensures mem[..] == Splice(mid, a0, v1.Octets() + t0.Octets() + t1.Octets() + t2.Octets())
  {
    Sw(mem, v1, a0, mid);
    ghost var m1 := mem[..];
    Sw(mem, t0, a0 + 4, m1);
    ghost var m2 := mem[..];
    Sw(mem, t1, a0 + 8, m2);
    ghost var m3 := mem[..];
    Sw(mem, t2, a0 + 12, m3);
    FourSplices(mid, a0, v1.Octets(), t0.Octets(), t1.Octets(), t2.Octets());
  }

  lemma FourSplices(s: seq<Byte>, a: nat, w: seq<Byte>, x: seq<Byte>, y: seq<Byte>, z: seq<Byte>)
    requires a + 16 <= |s| && |w| == |x| == |y| == |z| == 4
    ensures Splice(Splice(Splice(Splice(s, a, w), a + 4, x), a + 8, y), a + 12, z) == Splice(s, a, w + x + y + z)
  {
    SpliceTwice(s, a, w, x);
    SpliceTwice(s, a, w + x, y);
    SpliceTwice(s, a, w + x + y, z);
  }

  // One turn at labels 6 and 10.
  method Move16(mem: array<Byte>, aligned: bool, a0: nat, a1: nat, ghost from: nat, ghost to: nat, ghost mid: seq<Byte>)
    requires a0 % 4 == 0 && (aligned ==> a1 % 4 == 0) && a0 + 16 <= mem.Length && mid == mem[..]
    requires from <= a1 && a1 + 16 <= to <= mem.Length
    modifies mem
    ensures mem[..] == Splice(mid, a0, mid[a1..a1 + 16])
  {
    var v1 := Load(mem, aligned, a1, from, to);
    var t0 := Load(mem, aligned, a1 + 4, from, to);
    var t1 := Load(mem, aligned, a1 + 8, from, to);
    var t2 := Load(mem, aligned, a1 + 12, from, to);
    FourWords(mid, a1);
    Store16(mem, a0, v1, t0, t1, t2, mid);
  }

  lemma FourWords(s: seq<Byte>, a: nat)
    requires a + 16 <= |s|
    ensures WordAt(s, a).Octets() + WordAt(s, a + 4).Octets() + WordAt(s, a + 8).Octets() + WordAt(s, a + 12).Octets()
         == s[a..a + 16]
  {
    assert s[a..a + 16] == s[a..a + 4] + s[a + 4..a + 8] + s[a + 8..a + 12] + s[a + 12..a + 16];
  }

  // One turn at labels 7 and 11.
  method MoveWord(mem: array<Byte>, aligned: bool, a0: nat, a1: nat, ghost from: nat, ghost to: nat, ghost mid: seq<Byte>)
    requires a0 % 4 == 0 && (aligned ==> a1 % 4 == 0) && a0 + 4 <= mem.Length && mid == mem[..]
    requires from <= a1 && a1 + 4 <= to <= mem.Length
    modifies mem
    ensures mem[..] == Splice(mid, a0, mid[a1..a1 + 4])
  {
    var v1 := Load(mem, aligned, a1, from, to);
    Sw(mem, v1, a0, mid);
  }

  // One turn at label 12.
  method MoveByte(mem: array<Byte>, a0: nat, a1: nat, ghost from: nat, ghost to: nat, ghost mid: seq<Byte>)
    requires a0 < mem.Length && from <= a1 < to <= mem.Length && mid == mem[..]
    modifies mem
    ensures mem[..] == Splice(mid, a0, mid[a1..a1 + 1])
  {
    mem[a0] := mem[a1];
  }

  // The same moves as progress of the copy.
  method Copy16(mem: array<Byte>, aligned: bool, a0: nat, a1: nat, ghost c: Copy, ghost k: nat, ghost was: seq<Byte>)
    requires a0 % 4 == 0 && (aligned ==> a1 % 4 == 0) && Upto(c, a0, a1, k, was, mem[..]) && k + 16 <= c.n
    modifies mem
    ensures Copied(c, k + 16, was, mem[..])
  {
    ghost var mid := mem[..];
    Move16(mem, aligned, a0, a1, c.src, c.src + c.n, mid);
    CopiedMore(c, k, 16, was, mid, mem[..]);
  }

  method CopyWord(mem: array<Byte>, aligned: bool, a0: nat, a1: nat, ghost c: Copy, ghost k: nat, ghost was: seq<Byte>)
    requires a0 % 4 == 0 && (aligned ==> a1 % 4 == 0) && Upto(c, a0, a1, k, was, mem[..]) && k + 4 <= c.n
    modifies mem
    ensures Copied(c, k + 4, was, mem[..])
  {
    ghost var mid := mem[..];
    MoveWord(mem, aligned, a0, a1, c.src, c.src + c.n, mid);
    CopiedMore(c, k, 4, was, mid, mem[..]);
  }

  method CopyByte(mem: array<Byte>, a0: nat, a1: nat, ghost c: Copy, ghost k: nat, ghost was: seq<Byte>)
    requires Upto(c, a0, a1, k, was, mem[..]) && k + 1 <= c.n
    modifies mem
    ensures Copied(c, k + 1, was, mem[..])
  {
    ghost var mid := mem[..];
    MoveByte(mem, a0, a1, c.src, c.src + c.n, mid);
    CopiedMore(c, k, 1, was, mid, mem[..]);
  }

  method CopyHead(mem: array<Byte>, aligned: bool, a0: nat, a1: nat, a3: nat, ghost c: Copy, ghost was: seq<Byte>)
    requires a3 < 4 && a3 == 4 - a0 % 4 && aligned == (a0 % 4 == a1 % 4) && 4 <= c.n
    requires a0 == c.dst && a1 == c.src && Copied(c, 0, was, mem[..])
    modifies mem
    ensures Copied(c, a3, was, mem[..])
  {
    ghost var mid := mem[..];
    MoveHead(mem, aligned, a0, a1, a3, c.src, c.src + c.n, mid);
    CopiedMore(c, 0, a3, was, mid, mem[..]);
  }

  // The loops at labels 6 and 10. Like all of them they end by an exact comparison with the end address.
  method Copy16s(mem: array<Byte>, aligned: bool, a0': nat, a1': nat, a3: nat, ghost c: Copy, ghost k0: nat, ghost was: seq<Byte>)
    returns (a0: nat, a1: nat, ghost k: nat)
    requires a1' < a3 <= c.src + c.n && (a3 - a1') % 16 == 0 && a0' % 4 == 0 && (aligned ==> a1' % 4 == 0)
    requires Upto(c, a0', a1', k0, was, mem[..])
    modifies mem
    ensures a1 == a3 && a0 % 4 == 0 && (aligned ==> a1 % 4 == 0) && Upto(c, a0, a1, k, was, mem[..])
  {
    a0, a1, k := a0', a1', k0;
    while true
      invariant a1 < a3 && (a3 - a1) % 16 == 0 && a0 % 4 == 0 && (aligned ==> a1 % 4 == 0)
      invariant Upto(c, a0, a1, k, was, mem[..])
      decreases a3 - a1
    {
      Copy16(mem, aligned, a0, a1, c, k, was);
      a1 := a1 + 16;
      a0 := a0 + 16;
      k := k + 16;
      if a1 == a3 {
        break;
      }
    }
  }

  // The loops at labels 7 and 11.
  method CopyWords(mem: array<Byte>, aligned: bool, a0': nat, a1': nat, a3: nat, ghost c: Copy, ghost k0: nat, ghost was: seq<Byte>)
    returns (a0: nat, a1: nat, ghost k: nat)
    requires a1' < a3 <= c.src + c.n && (a3 - a1') % 4 == 0 && a0' % 4 == 0 && (aligned ==> a1' % 4 == 0)
    requires Upto(c, a0', a1', k0, was, mem[..])
    modifies mem
    ensures a1 == a3 && Upto(c, a0, a1, k, was, mem[..])
  {
    a0, a1, k := a0', a1', k0;
    while true
      invariant a1 < a3 && (a3 - a1) % 4 == 0 && a0 % 4 == 0 && (aligned ==> a1 % 4 == 0)
      invariant Upto(c, a0, a1, k, was, mem[..])
      decreases a3 - a1
    {
      CopyWord(mem, aligned, a0, a1, c, k, was);
      a1 := a1 + 4;
      a0 := a0 + 4;
      k := k + 4;
      if a1 == a3 {
        break;
      }
    }
  }

  // The loop at label 12.
  method CopyBytes(mem: array<Byte>, a0': nat, a1': nat, a3: nat, ghost c: Copy, ghost k0: nat, ghost was: seq<Byte>)
    returns (a0: nat, ghost k: nat)
    requires a1' < a3 <= c.src + c.n && Upto(c, a0', a1', k0, was, mem[..])
    modifies mem
    ensures Upto(c, a0, a3, k, was, mem[..])
  {
    var a1 := a1';
    a0, k := a0', k0;
    while true
      invariant a1 < a3 && Upto(c, a0, a1, k, was, mem[..])
      decreases a3 - a1
    {
      CopyByte(mem, a0, a1, c, k, was);
      a1 := a1 + 1;
      a0 := a0 + 1;
      k := k + 1;
      if a1 == a3 {
        break;
      }
    }
  }

  // From label 4 or 8 to label 2: whole 16s, then whole words.
  method CopyBulk(mem: array<Byte>, aligned: bool, a0': nat, a1': nat, a2': nat, ghost c: Copy, ghost k0: nat, ghost was: seq<Byte>)
    returns (a0: nat, a1: nat, a2: nat, ghost k: nat)
    requires a0' % 4 == 0 && (aligned ==> a1' % 4 == 0) && k0 + a2' == c.n
    requires Upto(c, a0', a1', k0, was, mem[..])
    modifies mem
    ensures a2 < 4 && k + a2 == c.n && Upto(c, a0, a1, k, was, mem[..])
  {
    a0, a1, a2, k := a0', a1', a2', k0;
    var v1 := a2 % 16;
    var a3 := a2 - v1;
    a2 := v1;
    if a3 != 0 {
      a0, a1, k := Copy16s(mem, aligned, a0, a1, a3 + a1, c, k, was);
    }
    v1 := a2 % 4;
    a3 := a2 - v1;
    a2 := v1;
    if a3 != 0 {
      a0, a1, k := CopyWords(mem, aligned, a0, a1, a3 + a1, c, k, was);
    }
  }

  // The part for 12 bytes and more.
  method CopyLong(mem: array<Byte>, dst: nat, src: nat, n: nat, ghost c: Copy, ghost was: seq<Byte>)
    returns (a0: nat, a1: nat, a2: nat, ghost k: nat)
    requires 12 <= n && c == Copy(dst, src, n) && Copied(c, 0, was, mem[..])
    modifies mem
    ensures a2 < 4 && k + a2 == c.n && Upto(c, a0, a1, k, was, mem[..])
  {
    a0, a1, a2 := dst, src, n;
    var aligned := a0 % 4 == a1 % 4;
    var a3 := (4 - a0 % 4) % 4;
    a2 := a2 - a3;
    if a3 != 0 {
      CopyHead(mem, aligned, a0, a1, a3, c, was);
      a1 := a1 + a3;
      a0 := a0 + a3;
    }
    a0, a1, a2, k := CopyBulk(mem, aligned, a0, a1, a2, c, a3, was);
  }

  // All but the return.
  method CopyAll(mem: array<Byte>, dst: nat, src: nat, n: nat, ghost c: Copy, ghost was: seq<Byte>) returns (a0: nat)
    requires c == Copy(dst, src, n) && Copied(c, 0, was, mem[..])
    modifies mem
    ensures a0 == dst + n && Copied(c, n, was, mem[..])
  {
    ghost var k := 0;
    var a1, a2 := src, n;
    a0 := dst;
    if a2 != 0 {
      if a2 >= 12 {
        a0, a1, a2, k := CopyLong(mem, dst, src, n, c, was);
      }
      if a2 != 0 {
        a0, k := CopyBytes(mem, a0, a1, a2 + a1, c, k, was);
      }
    }
  }

  /** mips_memcpy copies exactly n bytes, for every n and both alignments, of areas that do not overlap. It
      returns the end of the destination, not its beginning: the return jump's delay slot holds the first
      instruction of the next function, which copies the moved pointer once more. */
  method mips_memcpy(mem: array<Byte>, dst: nat, src: nat, n: nat) returns (v0: nat)
    requires mem.Length <= 0x1_0000_0000 && Copy(dst, src, n).Fits(mem.Length)
    modifies mem
    ensures mem[..] == Splice(old(mem[..]), dst, old(mem[src..src + n]))
    ensures v0 == dst + n
  {
    ghost var c, was := Copy(dst, src, n), mem[..];
    assert mem[src..src + n] == was[src..src + n];
    CopyEnds(c, dst, src, n, was);
    v0 := dst;
    v0 := CopyAll(mem, dst, src, n, c, was);
  }

  // ---- memset ----------------------------------------------------------------------------------

  function Run(value: Byte, k: nat): (s: seq<Byte>)
    ensures |s| == k
  {
    seq(k, _ => value)
  }

  // Memory after k bytes from dst on have been set.
  function AfterSet(value: Byte, dst: nat, k: nat, was: seq<Byte>): (now: seq<Byte>)
    ensures |now| == |was|
  {
    seq(|was|, i requires 0 <= i < |was| => if dst <= i < dst + k then value else was[i])
  }

  predicate Set(value: Byte, dst: nat, k: nat, was: seq<Byte>, now: seq<Byte>) {
    dst + k <= |was| && now == AfterSet(value, dst, k, was)
  }

  lemma SetNone(value: Byte, dst: nat, was: seq<Byte>)
    ensures AfterSet(value, dst, 0, was) == was
  {
  }

  lemma SetAll(value: Byte, dst: nat, n: nat, was: seq<Byte>)
    requires dst + n <= |was|
    ensures AfterSet(value, dst, n, was) == Splice(was, dst, Run(value, n))
  {
  }

  lemma SetMore(value: Byte, dst: nat, k: nat, x: seq<Byte>, was: seq<Byte>, mid: seq<Byte>, now: seq<Byte>)
    requires Set(value, dst, k, was, mid) && dst + k + |x| <= |was| && x == Run(value, |x|)
    requires now == Splice(mid, dst + k, x)
    ensures Set(value, dst, k + |x|, was, now)
  {
    assert forall i :: 0 <= i < |was| ==> now[i] == AfterSet(value, dst, k + |x|, was)[i];
  }

  // Four equal bytes.
  predicate Fourfold(w: Word, value: Byte) {
    w == Word(value, value, value, value)
  }

  lemma FourfoldRun(w: Word, value: Byte, n: nat)
    requires Fourfold(w, value) && n <= 4
    ensures w.Octets()[..n] == Run(value, n)
    ensures n == 4 ==> w.Octets() == Run(value, 4) && w.Octets() + w.Octets() + w.Octets() + w.Octets() == Run(value, 16)
  {
  }

  // The value in all four bytes of a register, by shifts.
  method Spread(a1: Word) returns (v: Word)
    ensures Fourfold(v, a1.b0)
  {
    v := a1.And255();
    var t2 := v.ShiftLeft8();
    v := v.Or(t2);
    t2 := v.ShiftLeft16();
    v := v.Or(t2);
  }

  method SetHead(mem: array<Byte>, w: Word, a0: nat, n: nat, ghost value: Byte, ghost was: seq<Byte>)
    requires Fourfold(w, value) && n == 4 - a0 % 4 && a0 + n <= mem.Length && Set(value, a0, 0, was, mem[..])
    modifies mem
    ensures Set(value, a0, n, was, mem[..])
  {
    ghost var mid := mem[..];
    FourfoldRun(w, value, n);
    Swr(mem, w, a0, mid);
    SetMore(value, a0, 0, w.Octets()[..n], was, mid, mem[..]);
  }

  method Set16(mem: array<Byte>, w: Word, a0: nat, ghost value: Byte, ghost dst: nat, ghost was: seq<Byte>)
    requires Fourfold(w, value) && a0 % 4 == 0 && dst <= a0 && a0 + 16 <= mem.Length
    requires Set(value, dst, a0 - dst, was, mem[..])
    modifies mem
    ensures Set(value, dst, a0 + 16 - dst, was, mem[..])
  {
    ghost var mid := mem[..];
    Store16(mem, a0, w, w, w, w, mid);
    FourfoldRun(w, value, 4);
    SetMore(value, dst, a0 - dst, w.Octets() + w.Octets() + w.Octets() + w.Octets(), was, mid, mem[..]);
  }

  method SetWord(mem: array<Byte>, w: Word, a0: nat, ghost value: Byte, ghost dst: nat, ghost was: seq<Byte>)
    requires Fourfold(w, value) && a0 % 4 == 0 && dst <= a0 && a0 + 4 <= mem.Length
    requires Set(value, dst, a0 - dst, was, mem[..])
    modifies mem
    ensures Set(value, dst, a0 + 4 - dst, was, mem[..])
  {
    ghost var mid := mem[..];
    Sw(mem, w, a0, mid);
    FourfoldRun(w, value, 4);
    SetMore(value, dst, a0 - dst, w.Octets(), was, mid, mem[..]);
  }

  method SetByte(mem: array<Byte>, w: Word, a0: nat, ghost dst: nat, ghost was: seq<Byte>)
    requires dst <= a0 < mem.Length && Set(w.b0, dst, a0 - dst, was, mem[..])
    modifies mem
    ensures Set(w.b0, dst, a0 + 1 - dst, was, mem[..])
  {
    ghost var mid := mem[..];
    mem[a0] := w.b0;
    assert [w.b0] == Run(w.b0, 1);
    SetMore(w.b0, dst, a0 - dst, [w.b0], was, mid, mem[..]);
  }

  // The loop at label 5.
  method Set16s(mem: array<Byte>, w: Word, a0: nat, a3: nat, ghost value: Byte, ghost dst: nat, ghost was: seq<Byte>)
    requires Fourfold(w, value) && a0 % 4 == 0 && dst <= a0 < a3 <= mem.Length && (a3 - a0) % 16 == 0
    requires Set(value, dst, a0 - dst, was, mem[..])
    modifies mem
    ensures Set(value, dst, a3 - dst, was, mem[..])
  {
    var p := a0;
    while true
      invariant dst <= p < a3 && (a3 - p) % 16 == 0 && p % 4 == 0 && Set(value, dst, p - dst, was, mem[..])
      decreases a3 - p
    {
      Set16(mem, w, p, value, dst, was);
      p := p + 16;
      if p == a3 {
        break;
      }
    }
  }

  // The loop at label 6.
  method SetWords(mem: array<Byte>, w: Word, a0: nat, a3: nat, ghost value: Byte, ghost dst: nat, ghost was: seq<Byte>)
    requires Fourfold(w, value) && a0 % 4 == 0 && dst <= a0 < a3 <= mem.Length && (a3 - a0) % 4 == 0
    requires Set(value, dst, a0 - dst, was, mem[..])
    modifies mem
    ensures Set(value, dst, a3 - dst, was, mem[..])
  {
    var p := a0;
    while true
      invariant dst <= p < a3 && (a3 - p) % 4 == 0 && p % 4 == 0 && Set(value, dst, p - dst, was, mem[..])
      decreases a3 - p
    {
      SetWord(mem, w, p, value, dst, was);
      p := p + 4;
      if p == a3 {
        break;
      }
    }
  }

  // Whole 16s, then whole words.
  method SetBulk(mem: array<Byte>, w: Word, a0': nat, a2': nat, ghost value: Byte, ghost dst: nat, ghost was: seq<Byte>)
    returns (a0: nat, a2: nat)
    requires Fourfold(w, value) && a0' % 4 == 0 && dst <= a0' && a0' + a2' <= mem.Length
    requires Set(value, dst, a0' - dst, was, mem[..])
    modifies mem
    ensures a2 < 4 && dst <= a0 && a0 + a2 == a0' + a2' && Set(value, dst, a0 - dst, was, mem[..])
  {
    a0, a2 := a0', a2';
    var v1 := a2 % 16;
    var a3 := a2 - v1;
    a2 := v1;
    if a3 != 0 {
      Set16s(mem, w, a0, a3 + a0, value, dst, was);
      a0 := a3 + a0;
    }
    v1 := a2 % 4;
    a3 := a2 - v1;
    a2 := v1;
    if a3 != 0 {
      SetWords(mem, w, a0, a3 + a0, value, dst, was);
      a0 := a3 + a0;
    }
  }

  // The loop at label 7.
  method SetBytes(mem: array<Byte>, w: Word, a0': nat, a3: nat, ghost dst: nat, ghost was: seq<Byte>)
    requires dst <= a0' < a3 <= mem.Length && Set(w.b0, dst, a0' - dst, was, mem[..])
    modifies mem
    ensures Set(w.b0, dst, a3 - dst, was, mem[..])
  {
    var a0 := a0';
    while true
      invariant dst <= a0 < a3 && Set(w.b0, dst, a0 - dst, was, mem[..])
      decreases a3 - a0
    {
      SetByte(mem, w, a0, dst, was);
      a0 := a0 + 1;
      if a0 == a3 {
        break;
      }
    }
  }

  // The part for 16 bytes and more.
  method SetLong(mem: array<Byte>, w: Word, dst: nat, n: nat, ghost value: Byte, ghost was: seq<Byte>) returns (a0: nat, a2: nat)
    requires 16 <= n && Fourfold(w, value) && dst + n <= mem.Length && Set(value, dst, 0, was, mem[..])
    modifies mem
    ensures a2 < 4 && dst <= a0 && a0 + a2 == dst + n && Set(value, dst, a0 - dst, was, mem[..])
  {
    a0, a2 := dst, n;
    var v1 := a0 % 4;
    if v1 != 0 {
      var a3 := 4 - v1;
      a2 := a2 - a3;
      SetHead(mem, w, a0, a3, value, was);
      a0 := a0 + a3;
    }
    a0, a2 := SetBulk(mem, w, a0, a2, value, dst, was);
  }

  /** mips_memset sets exactly n bytes to the low byte of its argument, for every n and alignment, and
      returns the beginning. */
  method mips_memset(mem: array<Byte>, dst: nat, arg: Word, n: nat) returns (v0: nat)
    requires dst + n <= mem.Length <= 0x1_0000_0000
    modifies mem
    ensures mem[..] == Splice(old(mem[..]), dst, Run(arg.b0, n))
    ensures v0 == dst
  {
    ghost var was := mem[..];
    SetNone(arg.b0, dst, was);
    SetAll(arg.b0, dst, n, was);
    var a0, a1, a2 := dst, arg, n;
    v0 := a0;
    if a2 != 0 {
      if a2 >= 16 {
        a1 := Spread(a1);
        a0, a2 := SetLong(mem, a1, dst, n, arg.b0, was);
      }
      if a2 != 0 {
        SetBytes(mem, a1, a0, a2 + a0, dst, was);
      }
    }
  }
}
