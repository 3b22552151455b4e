/** The directory search of cdvdman/cdvdman.c: from a path to the directory record it names, on a disc
    laid out after ISO 9660 (ECMA-119, sections 6.8.1.1 and 9.1). The search itself is a loop over
    sectors and records that starts again in the middle whenever it descends; what it computes is a
    walk over path segments through directories seen as lists of records. */
module IsoPath {
  import opened Sequences
  import ReadPipeline
  import opened Words

  datatype Option<T> = None | Some(value: T)

  const SLASH: Byte := 0x2f
  const BACKSLASH: Byte := 0x5c
  const COMPARED := 12

  // ---- C strings -------------------------------------------------------------------------------

  // The string that memory s holds: up to its first zero.
  function CStr(s: seq<Byte>): (c: seq<Byte>)
    ensures |c| <= |s| && (forall k :: 0 <= k < |c| ==> c[k] != 0) && c == s[..|c|] && (|c| < |s| ==> s[|c|] == 0)
  {
    if s == [] || s[0] == 0 then [] else [s[0]] + CStr(s[1..])
  }

  lemma {:induction false} CStrIs(s: seq<Byte>, n: nat)
    requires n <= |s| && 0 !in s[..n] && (n < |s| ==> s[n] == 0)
    ensures CStr(s) == s[..n]
    decreases n
  {
    if 0 < n {
      assert s[0] == s[..n][0];
      assert s[1..][..n - 1] == s[..n][1..];
      CStrIs(s[1..], n - 1);
    }
  }

  function First(s: seq<Byte>, n: nat): seq<Byte> {
    if |s| <= n then s else s[..n]
  }

  predicate SameName(a: seq<Byte>, b: seq<Byte>) {
    First(CStr(a), COMPARED) == First(CStr(b), COMPARED)
  }

  // An array with a string in it and room for its end.
  ghost predicate Holds(a: array<Byte>, s: seq<Byte>)
    reads a
  {
    CStr(a[..]) == CStr(s) && |CStr(a[..])| < a.Length
  }

  // strncpy of |src| characters, and the terminator the search puts behind them.
  method CopyName(dest: array<Byte>, src: seq<Byte>)
    requires |src| < dest.Length
    modifies dest
    ensures Holds(dest, src)
  {
    var i, n := 0, |src|;
    while i < n && src[i] != 0
      invariant i <= n && dest[..i] == src[..i] && 0 !in src[..i]
    {
      dest[i] := src[i];
      i := i + 1;
    }
    ghost var len := i;
    assert 0 !in src[..len];
    while i < n
      invariant len <= i <= n && dest[..len] == src[..len]
      invariant forall k :: len <= k < i ==> dest[k] == 0
    {
      dest[i] := 0;
      i := i + 1;
    }
    dest[n] := 0;
    CStrIs(dest[..], len);
    CStrIs(src, len);
  }

  // Zero exactly when two strings agree on their first n characters.
  method Strncmp(a: array<Byte>, b: array<Byte>, n: nat) returns (r: int)
    requires |CStr(a[..])| < a.Length && |CStr(b[..])| < b.Length
    ensures r == 0 <==> First(CStr(a[..]), n) == First(CStr(b[..]), n)
  {
    ghost var x, y := CStr(a[..]), CStr(b[..]);
    var i := 0;
    while i < n
      invariant i <= n && i <= |x| && i <= |y| && x[..i] == y[..i]
    {
      assert i < |x| ==> x[i] == a[i] && x[i] != 0;
      assert i < |y| ==> y[i] == b[i] && y[i] != 0;
      if a[i] != b[i] {
        if i < |x| && i < |y| {
          assert First(x, n)[i] != First(y, n)[i];
        }
        return (a[i] as int) - (b[i] as int);
      }
      if a[i] == 0 {
        assert x == x[..i] && y == y[..i];
        return 0;
      }
      i := i + 1;
    }
    return 0;
  }

  // ---- paths -----------------------------------------------------------------------------------

  function StripAll(path: seq<Byte>, c: Byte): (p: seq<Byte>)
    ensures |p| <= |path|
  {
    if path != [] && path[0] == c then StripAll(path[1..], c) else path
  }

  // All leading slashes and then all leading backslashes.
  function Strip(path: seq<Byte>): (p: seq<Byte>)
    ensures |p| <= |path|
  {
    StripAll(StripAll(path, SLASH), BACKSLASH)
  }

  // The first c of a string, or its length.
  function IndexOf(s: seq<Byte>, c: Byte): (i: nat)
    ensures i <= |s| && (forall k :: 0 <= k < i ==> s[k] != c) && (i < |s| ==> s[i] == c)
  {
    if s == [] || s[0] == c then 0 else 1 + IndexOf(s[1..], c)
  }

  // Where a segment ends: at the first slash, in a string without slashes at the first backslash.
  function SegmentEnd(p: seq<Byte>): (i: nat)
    ensures i <= |p|
  {
    if IndexOf(p, SLASH) < |p| then IndexOf(p, SLASH) else IndexOf(p, BACKSLASH)
  }

  /** A path as its segments; there is always a last one, which may be empty. */
  function Segments(path: seq<Byte>): (segs: seq<seq<Byte>>)
    ensures segs != []
    decreases |path|
  {
    var p := Strip(path);
    var end := SegmentEnd(p);
    if end < |p| then [p[..end]] + Segments(p[end + 1..]) else [p]
  }

  function Join(segs: seq<seq<Byte>>, sep: Byte): seq<Byte>
    requires segs != []
  {
    if |segs| == 1 then segs[0] else segs[0] + [sep] + Join(segs[1..], sep)
  }

  predicate PlainSegment(s: seq<Byte>) {
    s != [] && SLASH !in s && BACKSLASH !in s
  }

  // One step of the splitting.
  lemma SegmentsStep(path: seq<Byte>, p: seq<Byte>, end: nat)
    requires p == Strip(path) && end == SegmentEnd(p)
    ensures Segments(path) == if end < |p| then [p[..end]] + Segments(p[end + 1..]) else [p]
  {
  }

  /** Splitting undoes joining, with either separator. */
  lemma {:induction false} SegmentsOfJoin(segs: seq<seq<Byte>>, sep: Byte)
    requires segs != [] && (sep == SLASH || sep == BACKSLASH)
    requires forall i :: 0 <= i < |segs| ==> PlainSegment(segs[i])
    ensures Segments(Join(segs, sep)) == segs
    decreases |segs|
  {
    assert PlainSegment(segs[0]);
    if |segs| == 1 {
      OneSegment(segs[0]);
    } else {
      var s, more := segs[0], segs[1..];
      var rest := Join(more, sep);
      assert Segments(rest) == more by {
        assert forall i :: 0 <= i < |more| ==> more[i] == segs[i + 1];
        SegmentsOfJoin(more, sep);
      }
      assert sep == BACKSLASH ==> SLASH !in rest by {
        NoSlash(segs);
      }
      FirstOfSegments(s, sep, rest);
      assert segs == [s] + more;
    }
  }

  lemma OneSegment(s: seq<Byte>)
    requires PlainSegment(s)
    ensures Segments(s) == [s]
  {
    assert s[0] in s;
    StripPlain(s);
    SegmentsStep(s, s, |s|);
  }

  lemma FirstOfSegments(s: seq<Byte>, sep: Byte, rest: seq<Byte>)
    requires PlainSegment(s) && (sep == SLASH || (sep == BACKSLASH && SLASH !in rest))
    ensures Segments(s + [sep] + rest) == [s] + Segments(rest)
  {
    var path := s + [sep] + rest;
    FirstOfTwo(s, sep, rest);
    SegmentsStep(path, path, |s|);
    assert path[|s| + 1..] == rest && path[..|s|] == s;
  }

  lemma StripPlain(path: seq<Byte>)
    requires path != [] && path[0] != SLASH && path[0] != BACKSLASH
    ensures Strip(path) == path
  {
  }

  lemma FirstOfTwo(s: seq<Byte>, sep: Byte, rest: seq<Byte>)
    requires PlainSegment(s) && (sep == SLASH || (sep == BACKSLASH && SLASH !in rest))
    ensures var path := s + [sep] + rest; Strip(path) == path && SegmentEnd(path) == |s|
  {
    var path := s + [sep] + rest;
    assert path[0] == s[0];
    StripPlain(path);
    EndOfFirst(s, sep, rest);
    if sep == BACKSLASH {
      assert SLASH !in path;
    }
  }

  lemma {:induction false} EndOfFirst(s: seq<Byte>, c: Byte, rest: seq<Byte>)
    requires c !in s
    ensures IndexOf(s + [c] + rest, c) == |s|
  {
    if s != [] {
      assert (s + [c] + rest)[1..] == s[1..] + [c] + rest;
      EndOfFirst(s[1..], c, rest);
    }
  }

  lemma {:induction false} NoSlash(segs: seq<seq<Byte>>)
    requires segs != [] && forall i :: 0 <= i < |segs| ==> PlainSegment(segs[i])
    ensures SLASH !in Join(segs, BACKSLASH) && (|segs| > 1 ==> SLASH !in Join(segs[1..], BACKSLASH))
    decreases |segs|
  {
    assert PlainSegment(segs[0]);
    if |segs| > 1 {
      NoSlash(segs[1..]);
    }
  }

  // ---- directories -----------------------------------------------------------------------------

  datatype Record = Record(lba: nat, size: nat, flags: Byte, name: seq<Byte>) {
    predicate IsDirectory() {
      flags & 2 != 0
    }
  }

  function U16At(s: seq<Byte>, i: nat): nat
    requires i + 2 <= |s|
  {
    s[i] as nat + 0x100 * s[i + 1] as nat
  }

  function U32At(s: seq<Byte>, i: nat): nat
    requires i + 4 <= |s|
  {
    U16At(s, i) + 0x1_0000 * U16At(s, i + 2)
  }

  // The record at `pos` lies in the sector, names what it names in 1 to 14 characters, and so do all after it.
  predicate WellFormed(sector: seq<Byte>, pos: nat)
    requires |sector| == 2048
    decreases 2016 - pos
  {
    pos < 2016 ==>
      U16At(sector, pos) == 0
      || (0 < sector[pos + 32] <= 14 && 33 + sector[pos + 32] as nat <= U16At(sector, pos) <= 2048 - pos
          && WellFormed(sector, pos + U16At(sector, pos)))
  }

  function RecordAt(sector: seq<Byte>, pos: nat): Record
    requires |sector| == 2048 && pos < 2016 && pos + 33 + sector[pos + 32] as nat <= 2048
  {
    Record(U32At(sector, pos + 2), U32At(sector, pos + 10), sector[pos + 25],
           sector[pos + 33..pos + 33 + sector[pos + 32] as nat])
  }

  // The records of one sector, from `pos` on; a zero length ends them.
  function Records(sector: seq<Byte>, pos: nat): seq<Record>
    requires |sector| == 2048 && WellFormed(sector, pos)
    decreases 2016 - pos
  {
    if pos >= 2016 || U16At(sector, pos) == 0 then []
    else [RecordAt(sector, pos)] + Records(sector, pos + U16At(sector, pos))
  }

  function NextSector(lba: nat): nat {
    U32(lba + 1)
  }

  function Sector(disc: nat -> Byte, lba: nat): (s: seq<Byte>)
    ensures |s| == 2048
  {
    Bytes(disc, 2048 * lba, 2048)
  }

  // Directories lie behind the volume descriptors, and so past the logo.
  predicate WellFormedDirectory(disc: nat -> Byte, lba: nat, length: int)
    decreases length
  {
    length > 0 ==> ReadPipeline.LOGO_SECTORS <= lba && WellFormed(Sector(disc, lba), 0) && WellFormedDirectory(disc, NextSector(lba), length - 2048)
  }

  /** All records of a directory, in order. */
  function Directory(disc: nat -> Byte, lba: nat, length: int): seq<Record>
    requires WellFormedDirectory(disc, lba, length)
    decreases length
  {
    if length <= 0 then []
    else Records(Sector(disc, lba), 0) + Directory(disc, NextSector(lba), length - 2048)
  }

  // The last segment takes the first record of its name; an inner one the first directory of its name.
  predicate Matches(r: Record, seg: seq<Byte>, inner: bool) {
    SameName(seg, r.name) && (inner ==> r.IsDirectory())
  }

  function FirstMatch(records: seq<Record>, seg: seq<Byte>, inner: bool): (m: Option<Record>)
    ensures m.Some? ==> m.value in records && Matches(m.value, seg, inner)
    ensures m.None? ==> forall r :: r in records ==> !Matches(r, seg, inner)
  {
    if records == [] then None
    else if Matches(records[0], seg, inner) then Some(records[0])
    else FirstMatch(records[1..], seg, inner)
  }

  /** What FirstMatch finds is the first: everything before it fails to match. */
  lemma {:induction false} FirstMatchIsFirst(records: seq<Record>, seg: seq<Byte>, inner: bool, r: Record)
    ensures FirstMatch(records, seg, inner) == Some(r)
            <==> exists i :: 0 <= i < |records| && records[i] == r && Matches(r, seg, inner)
                             && forall j :: 0 <= j < i ==> !Matches(records[j], seg, inner)
    decreases |records|
  {
    if records != [] && !Matches(records[0], seg, inner) {
      var rest := records[1..];
      FirstMatchIsFirst(rest, seg, inner, r);
      if FirstMatch(rest, seg, inner) == Some(r) {
        var i :| 0 <= i < |rest| && rest[i] == r && Matches(r, seg, inner)
                 && forall j :: 0 <= j < i ==> !Matches(rest[j], seg, inner);
        assert records[i + 1] == r;
      } else if i :| 0 <= i < |records| && records[i] == r && Matches(r, seg, inner)
                     && forall j :: 0 <= j < i ==> !Matches(records[j], seg, inner) {
        assert rest[i - 1] == r;
      }
    }
  }

  lemma {:induction false} FirstMatchOfParts(x: seq<Record>, y: seq<Record>, seg: seq<Byte>, inner: bool)
    ensures FirstMatch(x + y, seg, inner)
         == if FirstMatch(x, seg, inner).Some? then FirstMatch(x, seg, inner) else FirstMatch(y, seg, inner)
  {
    if x == [] {
      assert x + y == y;
    } else {
      assert (x + y)[1..] == x[1..] + y;
      FirstMatchOfParts(x[1..], y, seg, inner);
    }
  }

  // Directory addresses on the second layer count from where that layer starts; for the first layer, and
  // when a second layer is emulated, layer1_start is 0.
  function Below(d: Record, layer1_start: nat): nat {
    U32(d.lba + layer1_start)
  }

  /** What the search may rely on: the directories along the path are well formed. */
  predicate WellFormedAlong(disc: nat -> Byte, segs: seq<seq<Byte>>, lba: nat, length: int, layer1_start: nat)
    requires segs != []
  {
    && WellFormedDirectory(disc, lba, length)
    && (|segs| > 1 ==>
          var d := FirstMatch(Directory(disc, lba, length), segs[0], true);
          d.Some? ==>
            WellFormedAlong(disc, segs[1..], Below(d.value, layer1_start), I32(d.value.size), layer1_start))
  }

  /** The abstract resolution: descend through the first directory that matches each inner segment, and
      take the first record that matches the last. */
  function Walk(disc: nat -> Byte, segs: seq<seq<Byte>>, lba: nat, length: int, layer1_start: nat): Option<Record>
    requires segs != [] && WellFormedAlong(disc, segs, lba, length, layer1_start)
  {
    var m := FirstMatch(Directory(disc, lba, length), segs[0], |segs| > 1);
    if |segs| == 1 || m.None? then m
    else Walk(disc, segs[1..], Below(m.value, layer1_start), I32(m.value.size), layer1_start)
  }

  // ---- the search ------------------------------------------------------------------------------

  method SkipAll(name: seq<Byte>, p0: nat, c: Byte) returns (p: nat)
    requires p0 <= |name|
    ensures p0 <= p <= |name| && name[p..] == StripAll(name[p0..], c)
  {
    p := p0;
    while p < |name| && name[p] == c
      invariant p0 <= p <= |name| && StripAll(name[p..], c) == StripAll(name[p0..], c)
    {
      assert name[p..][1..] == name[p + 1..];
      p := p + 1;
    }
  }

  // strchr: the position of the first c at or after p, |name| when there is none.
  method Strchr(name: seq<Byte>, p: nat, c: Byte) returns (i: nat)
    requires p <= |name|
    ensures i == p + IndexOf(name[p..], c)
  {
    i := p;
    while i < |name| && name[i] != c
      invariant p <= i <= |name| && i + IndexOf(name[i..], c) == p + IndexOf(name[p..], c)
    {
      assert name[i..][1..] == name[i + 1..];
      i := i + 1;
    }
  }

  // The record at tocPos, and how its name compares.
  method CompareEntry(cdvdman_buf: array<Byte>, tocPos: nat, dirname: array<Byte>, curdir: array<Byte>,
                      ghost seg: seq<Byte>, ghost sector: seq<Byte>)
    returns (r: int, entry: Record)
    requires cdvdman_buf.Length == 2048 && tocPos < 2016 && sector == cdvdman_buf[..]
    requires sector[tocPos + 32] <= 14 && tocPos + 33 + sector[tocPos + 32] as nat <= 2048
    requires curdir.Length == 15 && curdir != cdvdman_buf && curdir != dirname
    requires Holds(dirname, seg)
    modifies curdir
    ensures entry == RecordAt(sector, tocPos)
    ensures r == 0 <==> SameName(seg, entry.name)
  {
    entry := RecordAt(cdvdman_buf[..], tocPos);
    var filename_len := cdvdman_buf[tocPos + 32] as nat;
    assert filename_len < 15;
    var filename := cdvdman_buf[tocPos + 33..tocPos + 33 + filename_len];
    assert filename == entry.name;
    CopyName(curdir, filename);
    r := Strncmp(dirname, curdir, COMPARED);
  }

  lemma RecordsStep(sector: seq<Byte>, pos: nat, seg: seq<Byte>, inner: bool)
    requires |sector| == 2048 && pos < 2016 && WellFormed(sector, pos) && U16At(sector, pos) != 0
    ensures sector[pos + 32] <= 14 && pos + 33 + sector[pos + 32] as nat <= pos + U16At(sector, pos) <= 2048
    ensures WellFormed(sector, pos + U16At(sector, pos))
    ensures FirstMatch(Records(sector, pos), seg, inner)
         == if Matches(RecordAt(sector, pos), seg, inner) then Some(RecordAt(sector, pos))
            else FirstMatch(Records(sector, pos + U16At(sector, pos)), seg, inner)
  {
    assert Records(sector, pos)[1..] == Records(sector, pos + U16At(sector, pos));
  }

  // The do-while loop over the records of the sector in the buffer.
  method ScanSector(cdvdman_buf: array<Byte>, dirname: array<Byte>, curdir: array<Byte>, inner: bool,
                    ghost seg: seq<Byte>, ghost sector: seq<Byte>)
    returns (found: Option<Record>)
    requires cdvdman_buf.Length == 2048 && sector == cdvdman_buf[..] && WellFormed(sector, 0)
    requires curdir.Length == 15 && curdir != cdvdman_buf && curdir != dirname
    requires Holds(dirname, seg)
    modifies curdir
    ensures found == FirstMatch(Records(sector, 0), seg, inner)
  {
    ghost var goal := FirstMatch(Records(sector, 0), seg, inner);
    var tocPos := 0;
    while tocPos < 2016
      invariant tocPos <= 2048 && WellFormed(sector, tocPos) && cdvdman_buf[..] == sector
      invariant FirstMatch(Records(sector, tocPos), seg, inner) == goal
      decreases 2048 - tocPos
    {
      var length := U16At(cdvdman_buf[..], tocPos);
      if length == 0 {
        break;
      }
      RecordsStep(sector, tocPos, seg, inner);
      var r, entry := CompareEntry(cdvdman_buf, tocPos, dirname, curdir, seg, sector);
      if r == 0 && !inner {
        return Some(entry);
      } else if r == 0 && entry.flags & 2 != 0 {
        return Some(entry);
      }
      tocPos := tocPos + length;
    }
    return None;
  }

  // The loop over the sectors of one directory. The k-th read may be refused, which ends the search.
  method ScanDirectory(disc: nat -> Byte, refused: nat -> bool, k0: nat, tocLBA0: nat, tocLength0: int,
                       dirname: array<Byte>, curdir: array<Byte>, inner: bool, cdvdman_buf: array<Byte>, ghost seg: seq<Byte>)
    returns (found: Option<Record>, gaveUp: bool, k: nat)
    requires WellFormedDirectory(disc, tocLBA0, tocLength0)
    requires cdvdman_buf.Length == 2048 && curdir.Length == 15
    requires cdvdman_buf != dirname && curdir != cdvdman_buf && curdir != dirname
    requires Holds(dirname, seg)
    modifies cdvdman_buf, curdir
    ensures !gaveUp ==> found == FirstMatch(Directory(disc, tocLBA0, tocLength0), seg, inner)
    ensures gaveUp ==> found == None && exists j :: refused(j)
  {
    var tocLBA, tocLength := tocLBA0, tocLength0;
    k := k0;
    while tocLength > 0
      invariant WellFormedDirectory(disc, tocLBA, tocLength)
      invariant FirstMatch(Directory(disc, tocLBA, tocLength), seg, inner)
             == FirstMatch(Directory(disc, tocLBA0, tocLength0), seg, inner)
      invariant Holds(dirname, seg)
      decreases tocLength
    {
      if refused(k) {
        return None, true, k;
      }
      k := k + 1;
      ReadPipeline.ReadDisc(disc, tocLBA, 1, cdvdman_buf, 0);
      assert cdvdman_buf[..] == Sector(disc, tocLBA);
      FirstMatchOfParts(Records(Sector(disc, tocLBA), 0), Directory(disc, NextSector(tocLBA), tocLength - 2048), seg, inner);
      tocLength := tocLength - 2048;
      tocLBA := NextSector(tocLBA);
      found := ScanSector(cdvdman_buf, dirname, curdir, inner, seg, cdvdman_buf[..]);
      if found.Some? {
        return found, false, k;
      }
    }
    return None, false, k;
  }

  // What a segment is, and what is left of the path behind it.
  lemma SegmentFound(name: seq<Byte>, p0: nat, p: nat, slash: nat)
    requires p0 <= p <= slash <= |name|
    requires name[p..] == Strip(name[p0..]) && slash == p + SegmentEnd(name[p..])
    ensures var segs := Segments(name[p0..]);
      && name[p..slash] == segs[0]
      && (if slash < |name| then |segs| > 1 && segs[1..] == Segments(name[slash + 1..]) else |segs| == 1)
  {
    var rest := name[p..];
    SegmentsStep(name[p0..], rest, slash - p);
    assert rest[..slash - p] == name[p..slash];
    if slash < |name| {
      assert rest[slash - p + 1..] == name[slash + 1..];
    }
  }

  // Where the next segment of the path starts and ends.
  method FindSegment(name: seq<Byte>, p0: nat, ghost segs: seq<seq<Byte>>) returns (p: nat, slash: nat)
    requires p0 <= |name| && segs == Segments(name[p0..])
    ensures p0 <= p <= slash <= |name| && name[p..slash] == segs[0]
    ensures if slash < |name| then |segs| > 1 && segs[1..] == Segments(name[slash + 1..]) else |segs| == 1
  {
    p := SkipAll(name, p0, SLASH);
    p := SkipAll(name, p, BACKSLASH);
    slash := Strchr(name, p, SLASH);
    if slash == |name| {
      slash := Strchr(name, p, BACKSLASH);
    }
    SegmentFound(name, p0, p, slash);
  }

  // Copies the next segment of the path; behind it the path goes on at p, unless it was the last.
  method TakeSegment(name: seq<Byte>, p0: nat, dirname: array<Byte>, ghost segs: seq<seq<Byte>>) returns (p: nat, inner: bool)
    requires p0 <= |name| && segs == Segments(name[p0..]) && |segs[0]| < dirname.Length
    modifies dirname
    ensures Holds(dirname, segs[0]) && inner == (|segs| > 1)
    ensures inner ==> p0 < p <= |name| && segs[1..] == Segments(name[p..])
  {
    var start, slash := FindSegment(name, p0, segs);
    inner, p := slash < |name|, slash + 1;
    CopyName(dirname, name[start..slash]);
  }

  // One level of the search, from the top of the loop to where it descends.
  method SearchLevel(disc: nat -> Byte, refused: nat -> bool, k0: nat, name: seq<Byte>, p0: nat, tocLBA: nat, tocLength: int,
                     dirname: array<Byte>, curdir: array<Byte>, cdvdman_buf: array<Byte>, ghost segs: seq<seq<Byte>>)
    returns (found: Option<Record>, gaveUp: bool, k: nat, p: nat, inner: bool)
    requires p0 <= |name| && segs == Segments(name[p0..]) && |segs[0]| < 32
    requires WellFormedDirectory(disc, tocLBA, tocLength)
    requires cdvdman_buf.Length == 2048 && dirname.Length == 32 && curdir.Length == 15
    requires cdvdman_buf != dirname && curdir != cdvdman_buf && curdir != dirname
    modifies cdvdman_buf, curdir, dirname
    ensures inner == (|segs| > 1)
    ensures inner ==> p0 < p <= |name| && segs[1..] == Segments(name[p..])
    ensures !gaveUp ==> found == FirstMatch(Directory(disc, tocLBA, tocLength), segs[0], |segs| > 1)
    ensures gaveUp ==> found == None && exists j :: refused(j)
  {
    p, inner := TakeSegment(name, p0, dirname, segs);
    found, gaveUp, k := ScanDirectory(disc, refused, k0, tocLBA, tocLength, dirname, curdir, inner, cdvdman_buf, segs[0]);
  }

  /** cdvdman_locatefile. A record it returns is the one the path names; it returns none when the path names
      none, or when a sector could not be requested. It ends because each descent shortens the path, each
      sector the directory, and each record brings the sector's end nearer. */
  method cdvdman_locatefile(disc: nat -> Byte, refused: nat -> bool, name: seq<Byte>, lba: nat, length: int, layer1_start: nat)
    returns (entry: Option<Record>)
    requires 0 !in name && WellFormedAlong(disc, Segments(name), lba, length, layer1_start)
    requires forall s :: s in Segments(name) ==> |s| < 32
    ensures entry.Some? ==> entry == Walk(disc, Segments(name), lba, length, layer1_start)
    ensures (forall k :: !refused(k)) ==> entry == Walk(disc, Segments(name), lba, length, layer1_start)
  {
    var cdvdman_buf, dirname, curdir := new Byte[2048], new Byte[32], new Byte[15];
    var p, tocLBA, tocLength, k := 0, lba, length, 0;
    ghost var segs := Segments(name);
    ghost var goal := Walk(disc, segs, lba, length, layer1_start);
    assert name[0..] == name;
    while true
      invariant p <= |name| && segs == Segments(name[p..])
      invariant WellFormedAlong(disc, segs, tocLBA, tocLength, layer1_start)
      invariant Walk(disc, segs, tocLBA, tocLength, layer1_start) == goal
      invariant forall s :: s in segs ==> |s| < 32
      decreases |name| - p
    {
      var found, gaveUp, inner;
      found, gaveUp, k, p, inner :=
        SearchLevel(disc, refused, k, name, p, tocLBA, tocLength, dirname, curdir, cdvdman_buf, segs);
      if !inner || found.None? {
        return found;
      }
      tocLBA := Below(found.value, layer1_start);
      tocLength := I32(found.value.size);
      segs := segs[1..];
    }
  }

  // ---- discs as they are written -----------------------------------------------------------------------

  // A 32-bit number, low byte first.
  function Spelled(b: seq<Byte>): nat
    requires |b| == 4
  {
    b[0] as nat + 0x100 * b[1] as nat + 0x1_0000 * b[2] as nat + 0x100_0000 * b[3] as nat
  }

  /** A directory record as it is stored after section 9.1 of ECMA-119: its length, where the extent lies and how long it
      is, each in both byte orders, the date, the flags, unit, gap and volume, the name, and what else belongs to it. */
  datatype Entry = Entry(length: Byte, extent: seq<Byte>, dataLength: seq<Byte>, date: seq<Byte>, flags: Byte, volume: seq<Byte>,
                         nameLength: Byte, name: seq<Byte>, rest: seq<Byte>)
  {
    predicate Valid() {
      && |extent| == 4 && |dataLength| == 4 && |date| == 7 && |volume| == 6 && 0 < |name| <= 14
      && nameLength as nat == |name| && length as nat == 33 + |name| + |rest|
    }

    function Stored(): (b: seq<Byte>)
      requires Valid()
      ensures |b| == 33 + |name| + |rest|
    {
      [length, 0] + BothOrders(extent) + BothOrders(dataLength) + date + [flags] + volume + [nameLength] + name + rest
    }

    function Told(): Record
      requires Valid()
    {
      Record(Spelled(extent), Spelled(dataLength), flags, name)
    }
  }

  function BothOrders(b: seq<Byte>): (bb: seq<Byte>)
    requires |b| == 4
    ensures |bb| == 8
  {
    b + [b[3], b[2], b[1], b[0]]
  }

  predicate AllValid(es: seq<Entry>) {
    forall e :: e in es ==> e.Valid()
  }

  function AllStored(es: seq<Entry>): seq<Byte>
    requires AllValid(es)
  {
    if es == [] then [] else es[0].Stored() + AllStored(es[1..])
  }

  function AllTold(es: seq<Entry>): (rs: seq<Record>)
    requires AllValid(es)
  {
    if es == [] then [] else [es[0].Told()] + AllTold(es[1..])
  }

  function Zeros(n: nat): (b: seq<Byte>)
    ensures |b| == n
  {
    seq(n, _ => 0)
  }

  // Records that fit a sector, and the sector.
  predicate Fits(es: seq<Entry>) {
    AllValid(es) && |AllStored(es)| <= 2048
  }

  function Written(es: seq<Entry>): (b: seq<Byte>)
    requires Fits(es)
    ensures |b| == 2048
  {
    AllStored(es) + Zeros(2048 - |AllStored(es)|)
  }

  lemma StoredFields(e: Entry)
    requires e.Valid()
    ensures HasFields(e, e.Stored())
  {
  }

  /** A stored record is read back, wherever in a sector it lies. */
  lemma RecordReadBack(sector: seq<Byte>, pos: nat, e: Entry)
    requires |sector| == 2048 && e.Valid() && pos + |e.Stored()| <= 2048 && sector[pos..pos + |e.Stored()|] == e.Stored()
    ensures pos < 2016 && U16At(sector, pos) == |e.Stored()| && sector[pos + 32] as nat == |e.name|
    ensures RecordAt(sector, pos) == e.Told()
  {
    StoredFields(e);
    ReadBackOf(sector, pos, e, e.Stored());
  }

  // The fields of a stored record lie where the standard puts them.
  predicate HasFields(e: Entry, b: seq<Byte>) {
    && e.Valid() && |b| == 33 + |e.name| + |e.rest|
    && b[0] == e.length && b[1] == 0 && b[25] == e.flags && b[32] == e.nameLength
    && b[2..6] == e.extent && b[10..14] == e.dataLength && b[33..33 + |e.name|] == e.name
  }

  lemma ReadBackOf(sector: seq<Byte>, pos: nat, e: Entry, b: seq<Byte>)
    requires |sector| == 2048 && HasFields(e, b) && pos + |b| <= 2048 && sector[pos..pos + |b|] == b
    ensures pos < 2016 && U16At(sector, pos) == |b| && sector[pos + 32] as nat == |e.name|
    ensures RecordAt(sector, pos) == e.Told()
  {
    WordsReadBack(sector, pos, e, b);
    BytesReadBack(sector, pos, e, b);
    RecordOfFields(sector, pos, e);
  }

  lemma WordsReadBack(sector: seq<Byte>, pos: nat, e: Entry, b: seq<Byte>)
    requires HasFields(e, b) && pos + |b| <= |sector| && sector[pos..pos + |b|] == b
    ensures U32At(sector, pos + 2) == Spelled(e.extent) && U32At(sector, pos + 10) == Spelled(e.dataLength)
  {
    assert sector[pos + 2..pos + 2 + 4] == e.extent by {
      SubSlice(sector, pos, |b|, 2, 4);
    }
    assert sector[pos + 10..pos + 10 + 4] == e.dataLength by {
      SubSlice(sector, pos, |b|, 10, 4);
    }
    SameWord(sector, pos + 2, e.extent);
    SameWord(sector, pos + 10, e.dataLength);
  }

  lemma SameWord(sector: seq<Byte>, i: nat, b: seq<Byte>)
    requires |b| == 4 && i + 4 <= |sector| && sector[i..i + 4] == b
    ensures U32At(sector, i) == Spelled(b)
  {
    WordAt(sector, i, b);
  }

  lemma BytesReadBack(sector: seq<Byte>, pos: nat, e: Entry, b: seq<Byte>)
    requires HasFields(e, b) && pos + |b| <= |sector| && sector[pos..pos + |b|] == b
    ensures sector[pos] == e.length && sector[pos + 1] == 0 && sector[pos + 25] == e.flags && sector[pos + 32] == e.nameLength
    ensures sector[pos + 33..pos + 33 + |e.name|] == e.name
  {
    SameByte(sector, pos, b, 0);
    SameByte(sector, pos, b, 1);
    SameByte(sector, pos, b, 25);
    SameByte(sector, pos, b, 32);
    SubSlice(sector, pos, |b|, 33, |e.name|);
  }

  lemma SameByte(sector: seq<Byte>, pos: nat, b: seq<Byte>, i: nat)
    requires i < |b| && pos + |b| <= |sector| && sector[pos..pos + |b|] == b
    ensures sector[pos + i] == b[i]
  {
    assert sector[pos + i] == sector[pos..pos + |b|][i];
  }

  lemma RecordOfFields(sector: seq<Byte>, pos: nat, e: Entry)
    requires |sector| == 2048 && e.Valid() && pos + 33 + |e.name| + |e.rest| <= 2048
    requires sector[pos] == e.length && sector[pos + 1] == 0 && sector[pos + 25] == e.flags && sector[pos + 32] == e.nameLength
    requires U32At(sector, pos + 2) == Spelled(e.extent) && U32At(sector, pos + 10) == Spelled(e.dataLength)
    requires sector[pos + 33..pos + 33 + |e.name|] == e.name
    ensures pos < 2016 && U16At(sector, pos) == 33 + |e.name| + |e.rest| && sector[pos + 32] as nat == |e.name|
    ensures RecordAt(sector, pos) == e.Told()
  {
  }

  lemma WordAt(sector: seq<Byte>, i: nat, b: seq<Byte>)
    requires |b| == 4 && i + 4 <= |sector| && sector[i..i + 4] == b
    ensures U32At(sector, i) == Spelled(b)
  {
    assert b[0] == sector[i] && b[1] == sector[i + 1] && b[2] == sector[i + 2] && b[3] == sector[i + 3];
  }

  // The records from one on, when those behind it are read back.
  lemma RecordAndRest(sector: seq<Byte>, pos: nat, next: nat, e: Entry, b: seq<Byte>, rs: seq<Record>)
    requires |sector| == 2048 && HasFields(e, b) && next == pos + |b| <= 2048 && sector[pos..next] == b
    requires WellFormed(sector, next) && Records(sector, next) == rs
    ensures WellFormed(sector, pos) && Records(sector, pos) == [e.Told()] + rs
  {
    ReadBackOf(sector, pos, e, b);
    OneMoreRecord(sector, pos, |e.name|, next);
  }

  lemma {:induction false} RecordsFrom(before: seq<Byte>, es: seq<Entry>, sector: seq<Byte>)
    requires AllValid(es) && |before| + |AllStored(es)| <= 2048
    requires sector == before + AllStored(es) + Zeros(2048 - |before| - |AllStored(es)|)
    ensures WellFormed(sector, |before|) && Records(sector, |before|) == AllTold(es)
    decreases |es|
  {
    if es == [] {
      NoRecords(before, sector);
    } else {
      var e, rest, n := es[0], es[1..], 2048 - |before| - |AllStored(es)|;
      var b := e.Stored();
      NextIn(before, b, AllStored(rest), n, sector);
      RecordsFrom(before + b, rest, sector);
      StoredFields(e);
      RecordAndRest(sector, |before|, |before + b|, e, b, AllTold(rest));
    }
  }

  lemma OneMoreRecord(sector: seq<Byte>, pos: nat, n: nat, next: nat)
    requires |sector| == 2048 && pos < 2016 && next == pos + U16At(sector, pos) <= 2048
    requires 0 < n <= 14 && sector[pos + 32] as nat == n && pos + 33 + n <= next && WellFormed(sector, next)
    ensures WellFormed(sector, pos) && Records(sector, pos) == [RecordAt(sector, pos)] + Records(sector, next)
  {
  }

  lemma NoRecords(before: seq<Byte>, sector: seq<Byte>)
    requires |before| <= 2048 && sector == before + [] + Zeros(2048 - |before|)
    ensures WellFormed(sector, |before|) && Records(sector, |before|) == []
  {
    assert |before| < 2016 ==> sector[|before|] == 0 && sector[|before| + 1] == 0;
  }

  lemma NextIn(before: seq<Byte>, b: seq<Byte>, rest: seq<Byte>, n: nat, sector: seq<Byte>)
    requires sector == before + (b + rest) + Zeros(n)
    ensures sector[|before|..|before| + |b|] == b && sector == (before + b) + rest + Zeros(n)
  {
  }

  /** What is written into a sector is what the search reads out of it, records, order and all. */
  lemma RecordsOfWritten(es: seq<Entry>)
    requires Fits(es)
    ensures WellFormed(Written(es), 0) && Records(Written(es), 0) == AllTold(es)
  {
    assert [] + AllStored(es) + Zeros(2048 - |AllStored(es)|) == Written(es);
    RecordsFrom([], es, Written(es));
  }

  // A directory in consecutive sectors.
  datatype Laid = Laid(lba: nat, sectors: seq<seq<Entry>>)

  predicate AllFit(sectors: seq<seq<Entry>>) {
    forall es :: es in sectors ==> Fits(es)
  }

  function Flat(sectors: seq<seq<Entry>>): seq<Record>
    requires AllFit(sectors)
  {
    if sectors == [] then []
    else
      assert sectors[0] in sectors;
      AllTold(sectors[0]) + Flat(sectors[1..])
  }

  ghost predicate OnDisc(disc: nat -> Byte, d: Laid) {
    && 13 <= d.lba && d.lba + |d.sectors| < 0x1_0000_0000 && AllFit(d.sectors)
    && forall i: nat :: i < |d.sectors| ==> Bytes(disc, 2048 * (d.lba + i), 2048) == Written(d.sectors[i])
  }

  lemma RestOnDisc(disc: nat -> Byte, d: Laid)
    requires OnDisc(disc, d) && d.sectors != []
    ensures OnDisc(disc, Laid(d.lba + 1, d.sectors[1..]))
    ensures Sector(disc, d.lba) == Written(d.sectors[0])
  {
    var rest := Laid(d.lba + 1, d.sectors[1..]);
    assert Bytes(disc, 2048 * (d.lba + 0), 2048) == Written(d.sectors[0]);
    forall i: nat | i < |rest.sectors|
      ensures Bytes(disc, 2048 * (rest.lba + i), 2048) == Written(rest.sectors[i])
    {
      assert rest.sectors[i] == d.sectors[i + 1] && rest.lba + i == d.lba + (i + 1);
    }
  }

  lemma {:induction false} DirectoryOfWritten(disc: nat -> Byte, d: Laid)
    requires OnDisc(disc, d)
    ensures WellFormedDirectory(disc, d.lba, 2048 * |d.sectors|)
    ensures Directory(disc, d.lba, 2048 * |d.sectors|) == Flat(d.sectors)
    decreases |d.sectors|
  {
    if d.sectors != [] {
      var rest := Laid(d.lba + 1, d.sectors[1..]);
      RestOnDisc(disc, d);
      RecordsOfWritten(d.sectors[0]);
      DirectoryOfWritten(disc, rest);
      OneMoreSector(disc, d.lba, 2048 * |d.sectors|, 2048 * |rest.sectors|);
    }
  }

  lemma OneMoreSector(disc: nat -> Byte, lba: nat, length: nat, rest: nat)
    requires length == 2048 + rest && 13 <= lba < 0xffff_ffff
    requires WellFormed(Sector(disc, lba), 0) && WellFormedDirectory(disc, lba + 1, rest)
    ensures WellFormedDirectory(disc, lba, length)
    ensures Directory(disc, lba, length) == Records(Sector(disc, lba), 0) + Directory(disc, lba + 1, rest)
  {
  }

  // Along the path each directory holds, first of its name, the record of the next one, which counts from where the layer
  // starts; the last holds, first of its name, the file.
  ghost predicate LeadsTo(disc: nat -> Byte, segs: seq<seq<Byte>>, dirs: seq<Laid>, layer1_start: nat, file: Record)
    decreases |segs|
  {
    && segs != [] && |dirs| == |segs| && OnDisc(disc, dirs[0])
    && if |segs| == 1 then FirstMatch(Flat(dirs[0].sectors), segs[0], false) == Some(file)
       else
         && (exists d :: FirstMatch(Flat(dirs[0].sectors), segs[0], true) == Some(d)
               && d.lba + layer1_start == dirs[1].lba && d.size == 2048 * |dirs[1].sectors| < 0x8000_0000)
         && LeadsTo(disc, segs[1..], dirs[1..], layer1_start, file)
  }

  /** On a disc written like that the search finds the file, through directories of any number of sectors and depth. */
  lemma {:induction false} WalkOfWritten(disc: nat -> Byte, segs: seq<seq<Byte>>, dirs: seq<Laid>, layer1_start: nat, file: Record)
    requires LeadsTo(disc, segs, dirs, layer1_start, file)
    ensures WellFormedAlong(disc, segs, dirs[0].lba, 2048 * |dirs[0].sectors|, layer1_start)
    ensures Walk(disc, segs, dirs[0].lba, 2048 * |dirs[0].sectors|, layer1_start) == Some(file)
    decreases |segs|
  {
    DirectoryOfWritten(disc, dirs[0]);
    if |segs| > 1 {
      var d :| FirstMatch(Flat(dirs[0].sectors), segs[0], true) == Some(d)
               && d.lba + layer1_start == dirs[1].lba && d.size == 2048 * |dirs[1].sectors| < 0x8000_0000;
      WalkOfWritten(disc, segs[1..], dirs[1..], layer1_start, file);
      assert dirs[1..][0] == dirs[1] && OnDisc(disc, dirs[1]);
      assert Below(d, layer1_start) == dirs[1].lba && I32(d.size) == d.size;
      WalkDown(disc, segs, dirs[0].lba, 2048 * |dirs[0].sectors|, layer1_start, d);
    }
  }

  lemma WalkDown(disc: nat -> Byte, segs: seq<seq<Byte>>, lba: nat, length: int, layer1_start: nat, d: Record)
    requires |segs| > 1 && WellFormedDirectory(disc, lba, length)
    requires FirstMatch(Directory(disc, lba, length), segs[0], true) == Some(d)
    requires WellFormedAlong(disc, segs[1..], Below(d, layer1_start), I32(d.size), layer1_start)
    ensures WellFormedAlong(disc, segs, lba, length, layer1_start)
    ensures Walk(disc, segs, lba, length, layer1_start)
         == Walk(disc, segs[1..], Below(d, layer1_start), I32(d.size), layer1_start)
  {
  }

  /** ... by the path that joins the names along the way, with slashes or with backslashes. */
  lemma PathOfWritten(disc: nat -> Byte, segs: seq<seq<Byte>>, sep: Byte, dirs: seq<Laid>, layer1_start: nat, file: Record)
    requires LeadsTo(disc, segs, dirs, layer1_start, file) && (sep == 0x2f || sep == 0x5c)
    requires forall i :: 0 <= i < |segs| ==> PlainSegment(segs[i])
    ensures var root, length := dirs[0].lba, 2048 * |dirs[0].sectors|;
      && WellFormedAlong(disc, Segments(Join(segs, sep)), root, length, layer1_start)
      && Walk(disc, Segments(Join(segs, sep)), root, length, layer1_start) == Some(file)
  {
    SegmentsOfJoin(segs, sep);
    WalkOfWritten(disc, segs, dirs, layer1_start, file);
  }

  // A directory is what has bit 1 of its flags set, and only an inner segment asks for one.
  lemma MatchesIff(r: Record, seg: seq<Byte>, inner: bool)
    ensures Matches(r, seg, inner) <==> SameName(seg, r.name) && (inner ==> r.flags | 2 == r.flags)
  {
  }

  /** Which names the search takes for the same: those that agree on twelve characters. */
  lemma SameNameIff(a: seq<Byte>, b: seq<Byte>)
    requires 0 !in a && 0 !in b
    ensures SameName(a, b) <==> (if |a| < 12 then a else a[..12]) == (if |b| < 12 then b else b[..12])
  {
    CStrIs(a, |a|);
    CStrIs(b, |b|);
    assert a[..|a|] == a && b[..|b|] == b;
  }

  /** Slashes before a path do not count, however many, nor do backslashes behind them. */
  lemma LeadingSeparators(path: seq<Byte>)
    ensures Segments([0x2f] + path) == Segments(path)
    ensures path == [] || path[0] != 0x2f ==> Segments([0x5c] + path) == Segments(path)
  {
    assert ([0x2f] + path)[1..] == path && ([0x5c] + path)[1..] == path;
    SameSegments([0x2f] + path, path);
    if path == [] || path[0] != 0x2f {
      assert StripAll([0x5c] + path, SLASH) == [0x5c] + path && StripAll(path, SLASH) == path;
      SameSegments([0x5c] + path, path);
    }
  }

  /** A path that contains a slash is split at slashes first: backslashes before it belong to the segment. */
  lemma SlashesFirst(s: seq<Byte>, rest: seq<Byte>)
    requires s != [] && s[0] != 0x5c && 0x2f !in s
    ensures Segments(s + [0x2f] + rest) == [s] + Segments(rest)
  {
    var path := s + [0x2f] + rest;
    assert s[0] in s && path[0] == s[0];
    StripPlain(path);
    EndOfFirst(s, 0x2f, rest);
    SegmentsStep(path, path, |s|);
    assert path[|s| + 1..] == rest && path[..|s|] == s;
  }

  lemma SameSegments(p: seq<Byte>, q: seq<Byte>)
    requires Strip(p) == Strip(q)
    ensures Segments(p) == Segments(q)
  {
    SegmentsStep(p, Strip(p), SegmentEnd(Strip(p)));
    SegmentsStep(q, Strip(q), SegmentEnd(Strip(q)));
  }
}
