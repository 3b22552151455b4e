/** cdvd_readee (cdvdfsv/cdvdfsv.c): reading the disc into main ("EE") memory at any address, in the
    2048-byte mode. The staging buffer holds 17 sectors; every bulk transfer is a DMA between
    64-byte aligned addresses, and the unaligned ends travel in a record that the EE copies itself. */
module ReadEE {
  import opened Sequences
  import ReadPipeline

  const BUF_SECTORS := 16
  const FSV_SIZE := 34816 // 17 sectors

  // x & 0xffffffc0
  function Down64(x: nat): nat {
    x - x % 64
  }

  // The record sent to the EE: two ends of at most 63 bytes and where they belong.
  datatype Readee = Readee(b1len: nat, b2len: nat, pdst1: nat, pdst2: nat, buf1: seq<Byte>, buf2: seq<Byte>)

  datatype Dma = Dma(src: nat, dest: nat, size: nat)

  // What one pass of the loop meets: a read, with the breaks its tests of the error see; a drive that refuses it; or,
  // at the head of the pass, the error that a break has left.
  datatype Drive = Reads(breaks: nat -> bool) | Refuses | Aborted

  datatype Outcome = Finished | Stopped | Failed

  /** A data DMA is legal: both addresses and the size are multiples of 64, the source lies in the
      staging buffer and the destination in the caller's range. */
  predicate Legal(d: Dma, buf: nat, nbytes: nat) {
    && d.src % 64 == 0 && d.dest % 64 == 0 && d.size % 64 == 0
    && d.src + d.size <= FSV_SIZE
    && buf <= d.dest && d.dest + d.size <= buf + nbytes
  }

  function Total(dmas: seq<Dma>): nat {
    if dmas == [] then 0 else Total(dmas[..|dmas| - 1]) + dmas[|dmas| - 1].size
  }

  // Each DMA starts where the ones before it ended.
  predicate Tiles(dmas: seq<Dma>, from: int) {
    dmas == [] || (Tiles(dmas[..|dmas| - 1], from) && dmas[|dmas| - 1].dest == from + Total(dmas[..|dmas| - 1]))
  }

  // The i-th progress report counts the bytes of the first i + 1 DMAs.
  ghost predicate Reports(reports: seq<nat>, dmas: seq<Dma>) {
    |reports| == |dmas| && forall i: nat :: i < |reports| ==> reports[i] == Total(dmas[..i + 1])
  }

  // sysmemSendEE
  method SendEE(fsv: array<Byte>, ee: array<Byte>, d: Dma)
    requires fsv != ee && d.src + d.size <= fsv.Length && d.dest + d.size <= ee.Length
    modifies ee
    ensures ee[..] == Splice(old(ee[..]), d.dest, fsv[d.src..d.src + d.size])
  {
    CopyOut(fsv, d.src, ee, d.dest, d.size);
  }

  // ---- one request ----------------------------------------------------------------------------

  /** A request for `sectors` sectors from `lsn` on, at address `buf`; `t` is how far `buf` lies past a
      64-byte boundary, which is also how many bytes follow the last boundary of the range. */
  datatype Request = Request(lsn: nat, sectors: nat, buf: nat, t: nat) {
    ghost predicate Valid() {
      t == buf % 64 && 0 < sectors
    }

    // How many bytes of the range come before its first boundary.
    function Head(): int {
      if t > 0 then 64 - t else 0
    }

    function Bottom(): int {
      buf + Head()
    }

    // The disc byte that belongs at the first boundary.
    function First(): int {
      2048 * lsn + Head()
    }

    // The bulk data sent when `left` of the sectors remain to be read.
    function Sent(left: int): int {
      2048 * (sectors - left) - if left == 0 && t > 0 then 64 else 0
    }

    // How many of the `left` sectors the next pass takes, and how many it asks the drive for: one
    // more than it takes when the range is unaligned.
    function Chunk(left: int): int {
      if t == 0 then if left < BUF_SECTORS + 1 then left else BUF_SECTORS
      else if left < BUF_SECTORS then left else BUF_SECTORS - 1
    }

    function Asked(left: int): int {
      if t == 0 then Chunk(left) else Chunk(left) + 1
    }

    // How many of those it uses.
    function Needed(left: int): int {
      if t == 0 || left == Chunk(left) then Chunk(left) else Chunk(left) + 1
    }

    // The sectors that remain before pass p.
    function LeftAt(p: nat): nat {
      if p == 0 then sectors else LeftAt(p - 1) - Chunk(LeftAt(p - 1))
    }

    /** No test before a sector that the pass uses sees a break: with emulated timing a direct read tests before every
        8 sectors, without it once, and a bounced read before every 2. */
    ghost predicate PassUncut(left: nat, accurate: bool, breaks: nat -> bool) {
      ReadPipeline.Uncut(breaks, ReadPipeline.PathPieces(t % 4 == 0, accurate, Asked(left)), Needed(left))
    }

    // The same of each of the first p passes.
    ghost predicate Uncut(accurate: bool, drive: nat -> Drive, p: nat) {
      forall j: nat {:trigger drive(j)} :: j < p && 0 < LeftAt(j) && drive(j).Reads? ==> PassUncut(LeftAt(j), accurate, drive(j).breaks)
    }

    // The bulk DMA of the next pass.
    function BulkSize(left: int): int {
      2048 * Chunk(left) - if left == Chunk(left) && t > 0 then 64 else 0
    }
  }

  lemma Boundaries(q: Request)
    requires q.Valid()
    ensures Down64(q.buf + 63) == q.Bottom() && q.Bottom() % 64 == 0 && q.t < 64
    ensures q.t > 0 ==> Down64(q.buf) - q.buf + 64 == q.Head()
    ensures Down64(q.buf + 2048 * q.sectors) == q.buf + 2048 * q.sectors - q.t
  {
  }

  // How much a pass takes and asks for: 16 sectors at a time, or 15 and one more for an unaligned range.
  lemma PassSizes(q: Request, left: nat)
    ensures q.t == 0 ==> q.Chunk(left) == q.Asked(left) == if left > 16 then 16 else left
    ensures q.t > 0 ==> q.Chunk(left) == q.Asked(left) - 1 == if left > 15 then 15 else left
  {
  }

  lemma BulkFits(q: Request, left: int)
    requires 0 < left <= q.sectors && q.t < 64
    ensures 0 < q.BulkSize(left) && q.t + 2048 * q.Asked(left) <= FSV_SIZE
    ensures 0 < q.Needed(left) <= q.Asked(left) && q.Head() + q.BulkSize(left) <= 2048 * q.Needed(left)
    ensures q.Head() + q.Sent(left) + q.BulkSize(left) <= 2048 * q.sectors
    ensures q.Sent(left) + q.BulkSize(left) == q.Sent(left - q.Chunk(left))
  {
  }

  // What is true of the transfers made and reported when `left` sectors remain.
  ghost predicate Sending(q: Request, left: int, dmas: seq<Dma>, reports: seq<nat>) {
    && Total(dmas) == q.Sent(left)
    && (forall d :: d in dmas ==> Legal(d, q.buf, 2048 * q.sectors))
    && Tiles(dmas, q.Bottom()) && Reports(reports, dmas)
  }

  // `data` has been sent to the first boundary and behind, and nothing else has changed; its first `good`
  // bytes are the disc's.
  ghost predicate Placed(disc: nat -> Byte, q: Request, data: seq<Byte>, good: nat, was: seq<Byte>, now: seq<Byte>) {
    && q.t < 64 && good <= |data|
    && now == Splice(was, q.Bottom(), data) && data[..good] == Bytes(disc, q.First(), good)
  }

  // What the record says of its own sizes, whatever is in it.
  predicate Sizes(q: Request, readee: Readee) {
    q.t < 64 && readee.b1len == q.Head() && readee.b2len == q.t
  }

  // Once the first chunk has been read the record holds the head of the range; after the last, the tail.
  ghost predicate Ends(disc: nat -> Byte, q: Request, left: int, readee: Readee) {
    && q.t < 64 && readee.b1len == q.Head() && readee.b2len == q.t
    && readee.pdst1 == q.buf && readee.pdst2 == q.buf + 2048 * q.sectors - q.t
    && (q.t == 0 ==> readee.buf1 == [] && readee.buf2 == [])
    && (left < q.sectors ==> readee.buf1 == Bytes(disc, 2048 * q.lsn, q.Head()))
    && (left == 0 < q.sectors ==> readee.buf2 == Bytes(disc, 2048 * (q.lsn + q.sectors) - q.t, q.t))
  }

  lemma SendingMore(q: Request, left: int, dmas: seq<Dma>, reports: seq<nat>, d: Dma, dmas': seq<Dma>, reports': seq<nat>)
    requires q.Valid() && 0 < left <= q.sectors && Sending(q, left, dmas, reports)
    requires d.src == q.t + q.Head() && d.dest == q.Bottom() + q.Sent(left) && d.size == q.BulkSize(left)
    requires dmas' == dmas + [d] && reports' == reports + [Total(dmas) + d.size]
    ensures Sending(q, left - q.Chunk(left), dmas', reports') && Total(dmas') == Total(dmas) + d.size
  {
    Boundaries(q);
    BulkFits(q, left);
    BulkLegal(q, left, d);
    OneMore(dmas, reports, d, q.Bottom());
  }

  lemma BulkLegal(q: Request, left: int, d: Dma)
    requires q.Valid() && 0 < left <= q.sectors
    requires d.src == q.t + q.Head() && d.dest == q.Bottom() + q.Sent(left) && d.size == q.BulkSize(left)
    ensures Legal(d, q.buf, 2048 * q.sectors)
  {
    Boundaries(q);
    BulkFits(q, left);
    assert q.Sent(left) == 64 * (32 * (q.sectors - left));
    assert d.size == 64 * (32 * q.Chunk(left) - if left == q.Chunk(left) && q.t > 0 then 1 else 0);
  }

  lemma OneMore(dmas: seq<Dma>, reports: seq<nat>, d: Dma, from: int)
    requires Tiles(dmas, from) && Reports(reports, dmas) && d.dest == from + Total(dmas)
    ensures Tiles(dmas + [d], from) && Total(dmas + [d]) == Total(dmas) + d.size
    ensures Reports(reports + [Total(dmas) + d.size], dmas + [d])
  {
    var more := dmas + [d];
    assert more[..|dmas|] == dmas;
    assert forall i: nat {:trigger more[..i + 1]} :: i < |dmas| ==> more[..i + 1] == dmas[..i + 1];
    assert more[..|dmas| + 1] == more;
  }

  lemma PlacedMore(disc: nat -> Byte, q: Request, data: seq<Byte>, good: nat, x: seq<Byte>,
                   was: seq<Byte>, mid: seq<Byte>, now: seq<Byte>)
    requires Placed(disc, q, data, good, was, mid) && q.Bottom() + |data| + |x| <= |was|
    requires now == Splice(mid, q.Bottom() + |data|, x)
    ensures Placed(disc, q, data + x, good, was, now)
    ensures good == |data| && x == Bytes(disc, q.First() + good, |x|) ==> Placed(disc, q, data + x, good + |x|, was, now)
  {
    SpliceTwice(was, q.Bottom(), data, x);
    assert (data + x)[..good] == data[..good];
    if good == |data| && x == Bytes(disc, q.First() + good, |x|) {
      assert data == data[..good];
      BytesSplit(disc, q.First(), good, |x|);
      assert (data + x)[..good + |x|] == data + x;
    }
  }

  // The bulk of a chunk that has been staged whole continues the range.
  lemma BulkContinues(disc: nat -> Byte, q: Request, left: int, staged: seq<Byte>)
    requires 0 < left <= q.sectors && q.t < 64
    requires staged == Bytes(disc, 2048 * (q.lsn + (q.sectors - left)), 2048 * q.Needed(left))
    ensures q.Head() + q.BulkSize(left) <= |staged|
    ensures staged[q.Head()..q.Head() + q.BulkSize(left)] == Bytes(disc, q.First() + q.Sent(left), q.BulkSize(left))
  {
    BulkFits(q, left);
    BytesSlice(disc, 2048 * (q.lsn + (q.sectors - left)), 2048 * q.Needed(left), q.Head(), q.Head() + q.BulkSize(left));
  }

  lemma EndsMore(disc: nat -> Byte, q: Request, left: int, staged: seq<Byte>, readee0: Readee, readee: Readee)
    requires 0 < left <= q.sectors && Ends(disc, q, left, readee0)
    requires staged == Bytes(disc, 2048 * (q.lsn + (q.sectors - left)), 2048 * q.Needed(left))
    requires var n := 2048 * q.Chunk(left);
      readee == readee0.(
        buf1 := if q.t > 0 && left == q.sectors then staged[..q.Head()] else readee0.buf1,
        buf2 := if q.t > 0 && left == q.Chunk(left) then staged[n - q.t..n] else readee0.buf2)
    ensures Ends(disc, q, left - q.Chunk(left), readee)
  {
    var from, used, n := 2048 * (q.lsn + (q.sectors - left)), 2048 * q.Needed(left), 2048 * q.Chunk(left);
    BytesSlice(disc, from, used, 0, q.Head());
    BytesSlice(disc, from, used, n - q.t, n);
  }

  // ---- the loop ---------------------------------------------------------------------------------

  // What the next pass uses of the staging buffer is the disc behind the sectors read so far.
  ghost predicate Staged(disc: nat -> Byte, q: Request, left: int, fsv: seq<Byte>)
    requires 0 < left <= q.sectors && q.t < 64 && |fsv| == FSV_SIZE
  {
    BulkFits(q, left);
    fsv[q.t..q.t + 2048 * q.Needed(left)] == Bytes(disc, 2048 * (q.lsn + (q.sectors - left)), 2048 * q.Needed(left))
  }

  // The staging buffer after the read of a pass.
  function Filled(disc: nat -> Byte, q: Request, left: int, accurate: bool, breaks: nat -> bool, fsv: seq<Byte>, bounce: seq<Byte>): (now: seq<Byte>)
    requires 0 < left <= q.sectors && |bounce| == 4096
    ensures |now| == |fsv|
  {
    Splice(fsv, q.t, ReadPipeline.Comes(disc, breaks, q.t % 4 == 0, accurate, q.lsn + (q.sectors - left), q.Asked(left), bounce))
  }

  /** Exactly when a pass past the logo stages the right sectors, whatever is on the disc and was in the staging and the
      bounce buffer. */
  lemma PassRightIff(q: Request, left: nat, accurate: bool, breaks: nat -> bool)
    requires 0 < left <= q.sectors && q.t < 64 && ReadPipeline.LOGO_SECTORS <= q.lsn
    ensures q.PassUncut(left, accurate, breaks) <==>
      forall disc: nat -> Byte, fsv: seq<Byte>, bounce: seq<Byte> :: |fsv| == FSV_SIZE && |bounce| == 4096 ==>
        Staged(disc, q, left, Filled(disc, q, left, accurate, breaks, fsv, bounce))
  {
    if q.PassUncut(left, accurate, breaks) {
      forall disc: nat -> Byte, fsv: seq<Byte>, bounce: seq<Byte> | |fsv| == FSV_SIZE && |bounce| == 4096
        ensures Staged(disc, q, left, Filled(disc, q, left, accurate, breaks, fsv, bounce))
      {
        UncutStaged(disc, q, left, accurate, breaks, fsv, bounce);
      }
    } else {
      var disc, fsv, bounce := CutStaged(q, left, accurate, breaks);
    }
  }

  lemma UncutStaged(disc: nat -> Byte, q: Request, left: nat, accurate: bool, breaks: nat -> bool, fsv: seq<Byte>, bounce: seq<Byte>)
    requires 0 < left <= q.sectors && q.t < 64 && ReadPipeline.LOGO_SECTORS <= q.lsn && |fsv| == FSV_SIZE && |bounce| == 4096
    requires q.PassUncut(left, accurate, breaks)
    ensures Staged(disc, q, left, Filled(disc, q, left, accurate, breaks, fsv, bounce))
  {
    BulkFits(q, left);
    var lsn, n, m := q.lsn + (q.sectors - left), q.Asked(left), q.Needed(left);
    ReadPipeline.UncutPlain(disc, breaks, q.t % 4 == 0, accurate, lsn, n, m, bounce);
    StagedBy(disc, q, left, fsv, ReadPipeline.Comes(disc, breaks, q.t % 4 == 0, accurate, lsn, n, bounce));
  }

  lemma StagedBy(disc: nat -> Byte, q: Request, left: nat, fsv: seq<Byte>, came: seq<Byte>)
    requires 0 < left <= q.sectors && q.t < 64 && |fsv| == FSV_SIZE
    requires 2048 * q.Needed(left) <= |came| <= 2048 * q.Asked(left)
    requires came[..2048 * q.Needed(left)] == Bytes(disc, 2048 * (q.lsn + (q.sectors - left)), 2048 * q.Needed(left))
    ensures Staged(disc, q, left, Splice(fsv, q.t, came))
  {
    BulkFits(q, left);
    ReadPipeline.SpliceBegins(fsv, q.t, came, 2048 * q.Needed(left));
  }

  lemma CutStaged(q: Request, left: nat, accurate: bool, breaks: nat -> bool)
    returns (disc: nat -> Byte, fsv: seq<Byte>, bounce: seq<Byte>)
    requires 0 < left <= q.sectors && q.t < 64 && ReadPipeline.LOGO_SECTORS <= q.lsn && !q.PassUncut(left, accurate, breaks)
    ensures |fsv| == FSV_SIZE && |bounce| == 4096 && !Staged(disc, q, left, Filled(disc, q, left, accurate, breaks, fsv, bounce))
  {
    BulkFits(q, left);
    var lsn, n, m, aligned := q.lsn + (q.sectors - left), q.Asked(left), q.Needed(left), q.t % 4 == 0;
    var c := ReadPipeline.PathPieces(aligned, accurate, n);
    var was: seq<Byte>;
    disc, bounce, was := ReadPipeline.CutWitness(breaks, aligned, accurate, lsn, n, m, c);
    ReadPipeline.PathsAgree(disc, lsn, n, aligned, accurate);
    BytesSlice(disc, 2048 * lsn, 2048 * n, 0, 2048 * m);
    fsv := NotStagedBy(disc, q, left, was, ReadPipeline.Comes(disc, breaks, aligned, accurate, lsn, n, bounce));
  }

  lemma NotStagedBy(disc: nat -> Byte, q: Request, left: nat, was: seq<Byte>, came: seq<Byte>) returns (fsv: seq<Byte>)
    requires 0 < left <= q.sectors && q.t < 64 && |came| <= 2048 * q.Asked(left) <= |was| && q.Needed(left) <= q.Asked(left)
    requires Splice(was, 0, came)[..2048 * q.Needed(left)]
          != Bytes(disc, 2048 * (q.lsn + (q.sectors - left)), 2048 * q.Needed(left))
    ensures |fsv| == FSV_SIZE && !Staged(disc, q, left, Splice(fsv, q.t, came))
  {
    BulkFits(q, left);
    var n := 2048 * q.Asked(left);
    fsv := seq(FSV_SIZE, i requires 0 <= i < FSV_SIZE => if q.t <= i < q.t + n then was[i - q.t] else 0);
    assert fsv[q.t..q.t + n] == was[..n];
    Moved(was, fsv, q.t, n, came, 2048 * q.Needed(left));
  }

  // Writing behind an offset into the same bytes.
  lemma Moved(was: seq<Byte>, fsv: seq<Byte>, t: nat, n: nat, x: seq<Byte>, m: nat)
    requires m <= n <= |was| && t + n <= |fsv| && |x| <= n && fsv[t..t + n] == was[..n]
    ensures Splice(fsv, t, x)[t..t + m] == Splice(was, 0, x)[..m]
  {
    var y, z := Splice(fsv, t, x)[t..t + m], Splice(was, 0, x)[..m];
    forall i | 0 <= i < m
      ensures y[i] == z[i]
    {
      assert fsv[t + i] == fsv[t..t + n][i] == was[..n][i] == was[i];
    }
  }

  /** A break that lands between the two pieces of the first pass, under emulated timing: of the 16 sectors that the pass
      sends and reports, the last 8 are what the staging buffer held before. */
  lemma CutPass(disc: nat -> Byte, q: Request, breaks: nat -> bool, fsv: seq<Byte>, bounce: seq<Byte>)
    requires q == Request(16, 16, 0x100000, 0) && |fsv| == FSV_SIZE && |bounce| == 4096 && !breaks(0) && breaks(1)
    ensures q.BulkSize(16) == 2048 * 16
    ensures Filled(disc, q, 16, true, breaks, fsv, bounce)[..q.BulkSize(16)]
         == Bytes(disc, 2048 * 16, 2048 * 8) + fsv[2048 * 8..2048 * 16]
  {
    var came := ReadPipeline.Comes(disc, breaks, true, true, 16, 16, bounce);
    assert ReadPipeline.Come(breaks, 8, 8, 1) == 0 && ReadPipeline.Come(breaks, 8, 16, 0) == 8;
    ReadPipeline.PiecesPlain(disc, 16, 16, 8);
    BytesSlice(disc, 2048 * 16, 2048 * 16, 0, 2048 * 8);
    assert came == Bytes(disc, 2048 * 16, 2048 * 8);
    assert Splice(fsv, 0, came)[..2048 * 16] == came + fsv[2048 * 8..2048 * 16];
  }

  // The first half of a pass: read the next chunk into the staging buffer. Other reads use the bounce buffer as well, so
  // what it holds may be anything.
  method StageChunk(disc: nat -> Byte, breaks: nat -> bool, accurate: bool, lsn: nat, sectors_to_read: nat, flag_64b: bool,
                    fsv: array<Byte>, fsvRbuf: nat, ghost q: Request)
    returns (nsectors: nat, ghost bounce: seq<Byte>)
    requires fsv.Length == FSV_SIZE && 0 < sectors_to_read <= q.sectors && lsn == q.lsn + (q.sectors - sectors_to_read)
    requires q.t < 64 && fsvRbuf == q.t && flag_64b == (q.t == 0)
    modifies fsv
    ensures nsectors == q.Chunk(sectors_to_read)
    ensures q.t + 2048 * q.Asked(sectors_to_read) <= FSV_SIZE && |bounce| == 4096
    ensures fsv[..] == Filled(disc, q, sectors_to_read, accurate, breaks, old(fsv[..]), bounce)
  {
    var temp: nat;
    if !flag_64b {
      nsectors := if sectors_to_read < BUF_SECTORS then sectors_to_read else BUF_SECTORS - 1;
      temp := nsectors + 1;
    } else {
      nsectors := if sectors_to_read < BUF_SECTORS + 1 then sectors_to_read else BUF_SECTORS;
      temp := nsectors;
    }
    BulkFits(q, sectors_to_read);
    assert temp == q.Asked(sectors_to_read);
    var cdvdman_buf := new Byte[4096];
    bounce := cdvdman_buf[..];
    ReadPipeline.ReadThrough(disc, breaks, accurate, lsn, temp, fsv, fsvRbuf, cdvdman_buf);
  }

  // The parts of the staged chunk that go into the record.
  method KeepEnds(fsv: array<Byte>, fsvRbuf: nat, flag_64b: bool, sectors_to_read: nat, sectors: nat, nsectors: nat,
                  readee0: Readee, ghost disc: nat -> Byte, ghost q: Request, ghost right: bool)
    returns (readee: Readee)
    requires fsv.Length == FSV_SIZE && 0 < sectors_to_read <= q.sectors == sectors && q.t < 64
    requires nsectors == q.Chunk(sectors_to_read) && fsvRbuf == q.t && flag_64b == (q.t == 0)
    requires q.t + 2048 * q.Asked(sectors_to_read) <= FSV_SIZE && Sizes(q, readee0)
    requires right ==> Ends(disc, q, sectors_to_read, readee0) && Staged(disc, q, sectors_to_read, fsv[..])
    ensures Sizes(q, readee) && (right ==> Ends(disc, q, sectors_to_read - nsectors, readee))
  {
    BulkFits(q, sectors_to_read);
    ghost var used := 2048 * q.Needed(sectors_to_read);
    var size_64b := nsectors * 2048;
    readee := readee0;
    if !flag_64b {
      if sectors_to_read == sectors {
        SubSlice(fsv[..], fsvRbuf, used, 0, readee.b1len);
        readee := readee.(buf1 := fsv[fsvRbuf..fsvRbuf + readee.b1len]);
      }
      if sectors_to_read == nsectors {
        SubSlice(fsv[..], fsvRbuf, used, size_64b - readee.b2len, readee.b2len);
        readee := readee.(buf2 := fsv[fsvRbuf + size_64b - readee.b2len..fsvRbuf + size_64b]);
      }
    }
    if right {
      EndsMore(disc, q, sectors_to_read, fsv[q.t..q.t + used], readee0, readee);
    }
  }

  lemma BulkRight(disc: nat -> Byte, q: Request, left: int, fsv: seq<Byte>, d: Dma, x: seq<Byte>)
    requires 0 < left <= q.sectors && q.t < 64 && |fsv| == FSV_SIZE && Staged(disc, q, left, fsv)
    requires d.src == q.t + q.Head() && d.size == q.BulkSize(left) && d.src + d.size <= |fsv| && x == fsv[d.src..d.src + d.size]
    ensures x == Bytes(disc, q.First() + q.Sent(left), d.size)
  {
    BulkFits(q, left);
    BulkContinues(disc, q, left, fsv[q.t..q.t + 2048 * q.Needed(left)]);
    SubSlice(fsv, q.t, 2048 * q.Needed(left), q.Head(), d.size);
  }

  // Its second half: the bulk DMA.
  method SendBulk(ee: array<Byte>, fsv: array<Byte>, d: Dma, ghost disc: nat -> Byte, ghost q: Request, ghost left: int,
                  ghost data: seq<Byte>, ghost good: nat, ghost whole: bool, ghost was: seq<Byte>)
    returns (ghost data': seq<Byte>, ghost good': nat)
    requires fsv.Length == FSV_SIZE && fsv != ee && q.buf + 2048 * q.sectors <= ee.Length && |was| == ee.Length
    requires 0 < left <= q.sectors && q.t < 64 && q.t + 2048 * q.Asked(left) <= FSV_SIZE && |data| == q.Sent(left)
    requires d.src == q.t + q.Head() && d.dest == q.Bottom() + q.Sent(left) && d.size == q.BulkSize(left)
    requires whole ==> Staged(disc, q, left, fsv[..])
    requires Placed(disc, q, data, good, was, ee[..])
    modifies ee
    ensures data' == data + fsv[d.src..d.src + d.size] && Placed(disc, q, data', good', was, ee[..])
    ensures good <= good' && (good == |data| && whole ==> good' == |data'|)
  {
    BulkFits(q, left);
    ghost var mid, x := ee[..], fsv[d.src..d.src + d.size];
    data', good' := data + x, if good == |data| && whole then good + d.size else good;
    if whole {
      BulkRight(disc, q, left, fsv[..], d, x);
    }
    SendEE(fsv, ee, d);
    PlacedMore(disc, q, data, good, x, was, mid, ee[..]);
  }

  // One pass of the inner loop after its checks: what the read has left in the staging buffer is sent and the record is
  // kept up to date. `right` says that the passes so far used the right sectors.
  method OnePass(disc: nat -> Byte, breaks: nat -> bool, accurate: bool, lsn: nat, sectors_to_read: nat, sectors: nat, flag_64b: bool,
                 eeaddr_64b: nat, ee: array<Byte>, fsv: array<Byte>, fsvRbuf: nat, readee0: Readee, ghost q: Request,
                 ghost data: seq<Byte>, ghost good: nat, ghost right: bool, ghost was: seq<Byte>)
    returns (nsectors: nat, size_64bb: nat, d: Dma, readee: Readee, ghost data': seq<Byte>, ghost good': nat, ghost bounce: seq<Byte>)
    requires fsv.Length == FSV_SIZE && fsv != ee && q.buf + 2048 * q.sectors <= ee.Length && |was| == ee.Length
    requires 0 < sectors_to_read <= q.sectors == sectors && lsn == q.lsn + (q.sectors - sectors_to_read)
    requires q.t < 64 && fsvRbuf == q.t && flag_64b == (q.t == 0) && ReadPipeline.LOGO_SECTORS <= q.lsn
    requires eeaddr_64b == q.Bottom() + q.Sent(sectors_to_read) && |data| == q.Sent(sectors_to_read)
    requires Placed(disc, q, data, good, was, ee[..]) && Sizes(q, readee0)
    requires right ==> good == |data| && Ends(disc, q, sectors_to_read, readee0)
    modifies ee, fsv
    ensures nsectors == q.Chunk(sectors_to_read) && size_64bb == d.size == q.BulkSize(sectors_to_read)
    ensures d.src == q.t + q.Head() && d.dest == eeaddr_64b && d.src + d.size <= FSV_SIZE
    ensures |bounce| == 4096 && fsv[..] == Filled(disc, q, sectors_to_read, accurate, breaks, old(fsv[..]), bounce)
    ensures data' == data + fsv[d.src..d.src + d.size] && good <= good'
    ensures Placed(disc, q, data', good', was, ee[..]) && Sizes(q, readee)
    ensures right && q.PassUncut(sectors_to_read, accurate, breaks) ==>
      good' == |data'| && Ends(disc, q, sectors_to_read - nsectors, readee)
  {
    BulkFits(q, sectors_to_read);
    ghost var uncut, fsv0 := q.PassUncut(sectors_to_read, accurate, breaks), fsv[..];
    nsectors, bounce := StageChunk(disc, breaks, accurate, lsn, sectors_to_read, flag_64b, fsv, fsvRbuf, q);
    if uncut {
      UncutStaged(disc, q, sectors_to_read, accurate, breaks, fsv0, bounce);
    }
    assert ee[..] == old(ee[..]);
    var size_64b := nsectors * 2048;
    size_64bb := size_64b;
    if !flag_64b && sectors_to_read == nsectors && readee0.b1len > 0 {
      size_64bb := size_64b - 64;
    }
    readee := KeepEnds(fsv, fsvRbuf, flag_64b, sectors_to_read, sectors, nsectors, readee0, disc, q, right && uncut);
    d := Dma(fsvRbuf + readee.b1len, eeaddr_64b, size_64bb);
    data', good' := SendBulk(ee, fsv, d, disc, q, sectors_to_read, data, good, uncut, was);
  }

  /** What the reports are worth: as long as the passes are uncut each counts bytes that are in place, and right. */
  ghost predicate Counted(q: Request, accurate: bool, drive: nat -> Drive, dmas: seq<Dma>, good: nat) {
    forall p: nat :: p <= |dmas| && q.Uncut(accurate, drive, p) ==> Total(dmas[..p]) <= good
  }

  lemma CountedMore(q: Request, accurate: bool, drive: nat -> Drive, dmas: seq<Dma>, good: nat, d: Dma, more: seq<Dma>, good': nat)
    requires Counted(q, accurate, drive, dmas, good) && good <= good'
    requires q.Uncut(accurate, drive, |dmas| + 1) ==> good' == Total(dmas) + d.size
    requires more == dmas + [d]
    ensures Counted(q, accurate, drive, more, good')
  {
    forall p: nat | p <= |more| && q.Uncut(accurate, drive, p)
      ensures Total(more[..p]) <= good'
    {
      if p <= |dmas| {
        assert more[..p] == dmas[..p];
      } else {
        assert more[..p] == more && more[..|more| - 1] == dmas;
      }
    }
  }

  // What the loop has done before a pass with `left` sectors to go.
  ghost predicate Progress(disc: nat -> Byte, q: Request, accurate: bool, drive: nat -> Drive, left: nat, dmas: seq<Dma>,
                           reports: seq<nat>, readee: Readee, data: seq<Byte>, good: nat)
  {
    && left == q.LeftAt(|dmas|) && Total(dmas) == |data| && Sizes(q, readee)
    && Sending(q, left, dmas, reports) && Counted(q, accurate, drive, dmas, good)
    && Recorded(disc, q, accurate, drive, |dmas|, left, readee, data, good)
  }

  // As long as no pass is cut everything sent is right, and so is the record.
  ghost predicate Recorded(disc: nat -> Byte, q: Request, accurate: bool, drive: nat -> Drive, p: nat, left: nat,
                           readee: Readee, data: seq<Byte>, good: nat)
  {
    q.Uncut(accurate, drive, p) ==> good == |data| && Ends(disc, q, left, readee)
  }

  lemma ProgressMore(disc: nat -> Byte, q: Request, accurate: bool, drive: nat -> Drive, left: nat, dmas: seq<Dma>,
                     reports: seq<nat>, readee: Readee, data: seq<Byte>, good: nat,
                     d: Dma, dmas': seq<Dma>, reports': seq<nat>, readee': Readee, data': seq<Byte>, good': nat)
    requires Progress(disc, q, accurate, drive, left, dmas, reports, readee, data, good)
    requires q.Valid() && 0 < left <= q.sectors && drive(|dmas|).Reads? && Sizes(q, readee') && good <= good'
    requires d.src == q.t + q.Head() && d.dest == q.Bottom() + q.Sent(left) && d.size == q.BulkSize(left)
    requires |data'| == |data| + d.size && dmas' == dmas + [d] && reports' == reports + [Total(dmas) + d.size]
    requires q.Uncut(accurate, drive, |dmas|) && q.PassUncut(left, accurate, drive(|dmas|).breaks) ==>
      good' == |data'| && Ends(disc, q, left - q.Chunk(left), readee')
    ensures 0 < q.Chunk(left) <= left && Total(dmas') == Total(dmas) + d.size
    ensures Progress(disc, q, accurate, drive, left - q.Chunk(left), dmas', reports', readee', data', good')
  {
    UncutMore(q, accurate, drive, |dmas|);
    assert |dmas'| == |dmas| + 1;
    CountedMore(q, accurate, drive, dmas, good, d, dmas', good');
    SendingMore(q, left, dmas, reports, d, dmas', reports');
    LeftNext(q, |dmas|);
    assert left - q.Chunk(left) == q.LeftAt(|dmas'|);
    assert Recorded(disc, q, accurate, drive, |dmas'|, left - q.Chunk(left), readee', data', good');
  }

  lemma LeftNext(q: Request, p: nat)
    ensures q.LeftAt(p + 1) == q.LeftAt(p) - q.Chunk(q.LeftAt(p))
  {
  }

  lemma UncutMore(q: Request, accurate: bool, drive: nat -> Drive, p: nat)
    requires 0 < q.LeftAt(p) && drive(p).Reads?
    ensures q.Uncut(accurate, drive, p + 1) ==> q.Uncut(accurate, drive, p) && q.PassUncut(q.LeftAt(p), accurate, drive(p).breaks)
  {
  }

  lemma ProgressStarts(disc: nat -> Byte, q: Request, accurate: bool, drive: nat -> Drive, readee: Readee)
    requires q.Valid() && Sizes(q, readee) && Ends(disc, q, q.sectors, readee)
    ensures Progress(disc, q, accurate, drive, q.sectors, [], [], readee, [], 0)
  {
  }

  lemma PassReady(disc: nat -> Byte, q: Request, accurate: bool, drive: nat -> Drive, left: nat, dmas: seq<Dma>,
                  reports: seq<nat>, readee: Readee, data: seq<Byte>, good: nat)
    requires Progress(disc, q, accurate, drive, left, dmas, reports, readee, data, good) && 0 < left <= q.sectors
    ensures |data| == Total(dmas) == q.Sent(left) == 2048 * (q.sectors - left) && Sizes(q, readee)
    ensures q.Uncut(accurate, drive, |dmas|) ==> good == |data| && Ends(disc, q, left, readee)
  {
  }

  // A pass of the loop that reads.
  method ReadTurn(disc: nat -> Byte, accurate: bool, lsn: nat, sectors_to_read: nat, sectors: nat, flag_64b: bool, eeaddr_64b: nat,
                  ee: array<Byte>, fsv: array<Byte>, fsvRbuf: nat, drive: nat -> Drive, bytesent0: nat, readee0: Readee,
                  dmas0: seq<Dma>, reports0: seq<nat>, ghost q: Request, ghost data0: seq<Byte>, ghost good0: nat, ghost was: seq<Byte>)
    returns (nsectors: nat, bytesent: nat, readee: Readee, dmas: seq<Dma>, reports: seq<nat>, ghost data: seq<Byte>, ghost good: nat)
    requires fsv.Length == FSV_SIZE && fsv != ee && q.buf + 2048 * q.sectors <= ee.Length == |was|
    requires q.Valid() && 0 < sectors_to_read <= q.sectors == sectors && lsn == q.lsn + (q.sectors - sectors_to_read)
    requires fsvRbuf == q.t < 64 && flag_64b == (q.t == 0) && ReadPipeline.LOGO_SECTORS <= q.lsn
    requires eeaddr_64b == q.Bottom() + 2048 * (sectors - sectors_to_read) && bytesent0 == Total(dmas0)
    requires Progress(disc, q, accurate, drive, sectors_to_read, dmas0, reports0, readee0, data0, good0)
    requires Placed(disc, q, data0, good0, was, ee[..]) && drive(|dmas0|).Reads?
    modifies ee, fsv
    ensures 0 < nsectors <= sectors_to_read && |dmas| == |dmas0| + 1 && bytesent == Total(dmas)
    ensures Progress(disc, q, accurate, drive, sectors_to_read - nsectors, dmas, reports, readee, data, good)
    ensures Placed(disc, q, data, good, was, ee[..])
  {
    var size_64bb, d;
    ghost var bounce;
    PassReady(disc, q, accurate, drive, sectors_to_read, dmas0, reports0, readee0, data0, good0);
    nsectors, size_64bb, d, readee, data, good, bounce :=
      OnePass(disc, drive(|dmas0|).breaks, accurate, lsn, sectors_to_read, sectors, flag_64b, eeaddr_64b, ee, fsv, fsvRbuf, readee0,
              q, data0, good0, q.Uncut(accurate, drive, |dmas0|), was);
    bytesent := bytesent0 + size_64bb;
    dmas, reports := dmas0 + [d], reports0 + [bytesent];
    assert bytesent == Total(dmas0) + d.size && reports == reports0 + [Total(dmas0) + d.size];
    ProgressMore(disc, q, accurate, drive, sectors_to_read, dmas0, reports0, readee0, data0, good0,
                 d, dmas, reports, readee, data, good);
  }

  // The loop, for a request that asks for something.
  method ReadLoop(disc: nat -> Byte, accurate: bool, sectors: nat, nbytes: nat, eeaddr: nat, flag_64b: bool, lsn0: nat, fsvRbuf: nat,
                  readee0: Readee, ee: array<Byte>, fsv: array<Byte>, drive: nat -> Drive, ghost q: Request, ghost was: seq<Byte>)
    returns (outcome: Outcome, ret: nat, readee: Readee, dmas: seq<Dma>, reports: seq<nat>,
             ghost data: seq<Byte>, ghost good: nat, ghost left: nat)
    requires fsv.Length == FSV_SIZE && fsv != ee && q.buf + 2048 * q.sectors <= ee.Length && was == ee[..]
    requires q.Valid() && 0 < q.sectors == sectors && lsn0 == q.lsn && ReadPipeline.LOGO_SECTORS <= lsn0
    requires eeaddr == q.Bottom() && fsvRbuf == q.t < 64 && flag_64b == (q.t == 0)
    requires Sizes(q, readee0) && Ends(disc, q, sectors, readee0)
    modifies ee, fsv
    ensures Progress(disc, q, accurate, drive, left, dmas, reports, readee, data, good) && (outcome.Finished? ==> left == 0)
    ensures Placed(disc, q, data, good, was, ee[..])
    ensures ret == if outcome.Failed? then Total(dmas) else nbytes
    ensures outcome.Failed? ==> drive(|dmas|).Refuses?
    ensures outcome.Stopped? ==> drive(|dmas|).Aborted?
  {
    var lsn: nat, sectors_to_read: nat, bytesent: nat, pass: nat, eeaddr_64b: nat := lsn0, sectors, 0, 0, eeaddr;
    dmas, reports, readee, data, good := [], [], readee0, [], 0;
    ProgressStarts(disc, q, accurate, drive, readee0);
    assert Splice(was, q.Bottom(), data) == was;
    while true
      invariant sectors_to_read <= sectors && lsn == lsn0 + (sectors - sectors_to_read) && pass == |dmas|
      invariant eeaddr_64b == q.Bottom() + 2048 * (sectors - sectors_to_read) && bytesent == Total(dmas)
      invariant Progress(disc, q, accurate, drive, sectors_to_read, dmas, reports, readee, data, good)
      invariant Placed(disc, q, data, good, was, ee[..])
      decreases sectors_to_read
    {
      left := sectors_to_read;
      if sectors_to_read == 0 || drive(pass).Aborted? {
        outcome, ret := if sectors_to_read == 0 then Finished else Stopped, nbytes;
        return;
      }
      if drive(pass).Refuses? {
        outcome, ret := Failed, bytesent;
        return;
      }
      var nsectors;
      nsectors, bytesent, readee, dmas, reports, data, good :=
        ReadTurn(disc, accurate, lsn, sectors_to_read, sectors, flag_64b, eeaddr_64b, ee, fsv, fsvRbuf, drive, bytesent, readee,
                 dmas, reports, q, data, good, was);
      sectors_to_read := sectors_to_read - nsectors;
      lsn := lsn + nsectors;
      eeaddr_64b := eeaddr_64b + nsectors * 2048;
      pass := pass + 1;
    }
  }

  /** cdvd_readee. Every data DMA is legal and they tile the middle of the range in order; nothing outside the range
      is written, however the request ends. Up to the first pass that a break cuts, each report counts bytes that are in
      place and right; when no pass is cut the record holds the bytes still missing at the end. A chunk that a
      break has cut is sent and counted all the same. */
  method cdvd_readee(disc: nat -> Byte, accurate: bool, lsn: nat, sectors: nat, buf: nat, ee: array<Byte>, fsv: array<Byte>,
                     drive: nat -> Drive)
    returns (outcome: Outcome, ret: nat, readee: Readee, dmas: seq<Dma>, reports: seq<nat>,
             ghost data: seq<Byte>, ghost good: nat)
    requires fsv.Length == FSV_SIZE && fsv != ee && ReadPipeline.LOGO_SECTORS <= lsn
    requires buf + 2048 * sectors <= ee.Length <= 0x2000_0000
    modifies ee, fsv
    ensures forall d :: d in dmas ==> Legal(d, buf, 2048 * sectors)
    ensures Tiles(dmas, Down64(buf + 63)) && Reports(reports, dmas)
    ensures sectors == 0 ==> dmas == [] && ret == 0 && ee[..] == old(ee[..])
    ensures sectors > 0 ==>
      |data| == Total(dmas) && Placed(disc, Request(lsn, sectors, buf, buf % 64), data, good, old(ee[..]), ee[..])
    ensures sectors > 0 ==> Counted(Request(lsn, sectors, buf, buf % 64), accurate, drive, dmas, good)
    ensures outcome.Failed? ==> ret == Total(dmas) && drive(|dmas|).Refuses?
    ensures !outcome.Failed? ==> ret == 2048 * sectors
    ensures outcome.Stopped? ==> drive(|dmas|).Aborted?
    ensures outcome.Finished? && sectors > 0 ==>
      readee.b1len + Total(dmas) + readee.b2len == 2048 * sectors
    ensures outcome.Finished? && sectors > 0 && Request(lsn, sectors, buf, buf % 64).Uncut(accurate, drive, |dmas|) ==>
      good == |data| && Ends(disc, Request(lsn, sectors, buf, buf % 64), 0, readee)
  {
    if sectors == 0 {
      return Finished, 0, Readee(0, 0, buf, buf, [], []), [], [], [], 0;
    }
    ghost var q := Request(lsn, sectors, buf, buf % 64);
    Boundaries(q);
    var nbytes := sectors * 2048;
    var eeaddr_64b := Down64(buf + 63);
    var b1len := if buf % 64 != 0 then Down64(buf) - buf + 64 else 0;
    var temp := buf + nbytes;
    var eeaddr2_64b := Down64(temp);
    temp := temp - eeaddr2_64b;
    readee := Readee(b1len, temp, buf, eeaddr2_64b, [], []);
    var flag_64b := b1len == 0 && temp == 0;
    ghost var left;
    outcome, ret, readee, dmas, reports, data, good, left :=
      ReadLoop(disc, accurate, sectors, nbytes, eeaddr_64b, flag_64b, lsn, temp, readee, ee, fsv, drive, q, ee[..]);
  }

  /** The two ends and the bulk make up the range: nothing is missing between them. */
  lemma EndsCompleteRange(disc: nat -> Byte, q: Request, readee: Readee, data: seq<Byte>, was: seq<Byte>, now: seq<Byte>)
    requires 0 < q.sectors && q.buf + 2048 * q.sectors <= |was|
    requires Ends(disc, q, 0, readee) && |data| == q.Sent(0) && Placed(disc, q, data, |data|, was, now)
    ensures Splice(Splice(now, readee.pdst1, readee.buf1), readee.pdst2, readee.buf2)
         == Splice(was, q.buf, Bytes(disc, 2048 * q.lsn, 2048 * q.sectors))
  {
    var x, z := readee.buf1, readee.buf2;
    assert data == data[..|data|];
    assert x + data + z == Bytes(disc, 2048 * q.lsn, 2048 * q.sectors) by {
      BytesThree(disc, 2048 * q.lsn, q.Head(), q.Sent(0), q.t);
    }
    SpliceThree(was, q.buf, x, data, z);
  }

  // What the EE does with the record.
  method FinishOnEE(readee: Readee, ee: array<Byte>)
    requires readee.pdst1 + |readee.buf1| <= ee.Length && readee.pdst2 + |readee.buf2| <= ee.Length
    modifies ee
    ensures ee[..] == Splice(Splice(old(ee[..]), readee.pdst1, readee.buf1), readee.pdst2, readee.buf2)
  {
    var head := new Byte[|readee.buf1|](i requires 0 <= i < |readee.buf1| => readee.buf1[i]);
    assert head[..] == readee.buf1;
    CopyOut(head, 0, ee, readee.pdst1, |readee.buf1|);
    var tail := new Byte[|readee.buf2|](i requires 0 <= i < |readee.buf2| => readee.buf2[i]);
    assert tail[..] == readee.buf2;
    CopyOut(tail, 0, ee, readee.pdst2, |readee.buf2|);
  }

  /** The whole exchange, for every address and count: when every pass is read and none is cut, main memory holds the
      sectors asked for and is otherwise unchanged. */
  method ReadToMemory(disc: nat -> Byte, accurate: bool, lsn: nat, sectors: nat, buf: nat, ee: array<Byte>, fsv: array<Byte>,
                      drive: nat -> Drive)
    returns (outcome: Outcome, passes: nat)
    requires fsv.Length == FSV_SIZE && fsv != ee && ReadPipeline.LOGO_SECTORS <= lsn
    requires buf + 2048 * sectors <= ee.Length <= 0x2000_0000
    requires forall p: nat :: Request(lsn, sectors, buf, buf % 64).Uncut(accurate, drive, p)
    modifies ee, fsv
    ensures outcome.Failed? ==> drive(passes).Refuses?
    ensures outcome.Stopped? ==> drive(passes).Aborted?
    ensures outcome.Finished? ==> ee[..] == Splice(old(ee[..]), buf, Bytes(disc, 2048 * lsn, 2048 * sectors))
  {
    ghost var was, data, good := ee[..], [], 0;
    var ret, readee, dmas, reports;
    outcome, ret, readee, dmas, reports, data, good := cdvd_readee(disc, accurate, lsn, sectors, buf, ee, fsv, drive);
    passes := |dmas|;
    if sectors > 0 && outcome.Finished? {
      EndsCompleteRange(disc, Request(lsn, sectors, buf, buf % 64), readee, data, was, ee[..]);
      FinishOnEE(readee, ee);
    }
  }
}
