/** The hard disk under the driver (cdvdman/device-hdd.c): a disc image lies in several partitions, a map
    says which sectors are where, and the partition of the last access is tried first. */
module Hdd {
  import opened Sequences
  import Ata

  const ENXIO := 6
  const EIO := 5
  const HDL_NUM_PART_SPECS := 65

  // Image sectors [part_offset, part_offset + part_size / 2048) are on the disk from data_start on.
  datatype PartSpec = PartSpec(part_offset: nat, data_start: nat, part_size: nat) {
    function End(): nat {
      part_offset + part_size / 2048
    }

    predicate Covers(lsn: nat) {
      part_offset <= lsn < End()
    }

    // The first of the four 512-byte sectors that hold an image sector.
    function Lba(lsn: nat): nat
      requires Covers(lsn)
    {
      data_start + 4 * (lsn - part_offset)
    }
  }

  // The first partition from i on that covers a sector, or the number of partitions.
  function Find(parts: seq<PartSpec>, lsn: nat, i: nat): (j: nat)
    requires i <= |parts|
    ensures i <= j <= |parts| && (j < |parts| ==> parts[j].Covers(lsn))
    ensures forall h :: i <= h < j ==> !parts[h].Covers(lsn)
    decreases |parts| - i
  {
    if i == |parts| || parts[i].Covers(lsn) then i else Find(parts, lsn, i + 1)
  }

  // The partition an access uses when the last one used `current`.
  function Used(parts: seq<PartSpec>, current: nat, lsn: nat): (j: nat)
    requires current < |parts|
    ensures j <= |parts| && (j < |parts| ==> parts[j].Covers(lsn))
  {
    if parts[current].Covers(lsn) then current else Find(parts, lsn, 0)
  }

  predicate Mapped(parts: seq<PartSpec>, lsn: nat) {
    Find(parts, lsn, 0) < |parts|
  }

  // The map, without a cache: the first partition that covers the sector.
  function Place(parts: seq<PartSpec>, lsn: nat): nat
    requires Mapped(parts, lsn)
  {
    parts[Find(parts, lsn, 0)].Lba(lsn)
  }

  // Partition j comes first for some sector.
  ghost predicate Leads(parts: seq<PartSpec>, j: nat) {
    j < |parts| && exists lsn: nat :: Find(parts, lsn, 0) == j
  }

  // A partition that comes first anywhere agrees with the map on everything it covers.
  ghost predicate Agreeing(parts: seq<PartSpec>) {
    forall j: nat, lsn: nat :: Leads(parts, j) && parts[j].Covers(lsn) ==> Mapped(parts, lsn) && parts[j].Lba(lsn) == Place(parts, lsn)
  }

  ghost predicate Disjoint(parts: seq<PartSpec>) {
    forall i, j :: 0 <= i < j < |parts| ==> parts[i].End() <= parts[j].part_offset || parts[j].End() <= parts[i].part_offset
  }

  lemma DisjointAgreeing(parts: seq<PartSpec>)
    requires Disjoint(parts)
    ensures Agreeing(parts)
  {
    forall j: nat, lsn: nat | Leads(parts, j) && parts[j].Covers(lsn)
      ensures Find(parts, lsn, 0) == j
    {
    }
  }

  // Where an access goes: nowhere, or to a sector of the disk.
  datatype Target = Nowhere | At(lba: nat)

  function Goes(parts: seq<PartSpec>, current: nat, lsn: nat): Target
    requires current < |parts|
  {
    var j := Used(parts, current, lsn);
    if j < |parts| then At(parts[j].Lba(lsn)) else Nowhere
  }

  // The cached partition after a run of accesses, from the first on.
  function Cached(parts: seq<PartSpec>, accesses: seq<nat>): (c: nat)
    requires parts != []
    ensures c < |parts|
  {
    if accesses == [] then 0
    else
      var n := |accesses| - 1;
      var c := Cached(parts, accesses[..n]);
      if Used(parts, c, accesses[n]) < |parts| then Used(parts, c, accesses[n]) else c
  }

  // What may be cached: the partition it starts with, and those that come first somewhere.
  ghost predicate Cacheable(parts: seq<PartSpec>, c: nat) {
    c < |parts| && (c == 0 || Leads(parts, c))
  }

  lemma {:induction false} CachedIsCacheable(parts: seq<PartSpec>, accesses: seq<nat>)
    requires parts != []
    ensures Cacheable(parts, Cached(parts, accesses))
    decreases |accesses|
  {
    if accesses != [] {
      CachedIsCacheable(parts, accesses[..|accesses| - 1]);
    }
  }

  // Where an access goes by the map alone.
  function MapGoes(parts: seq<PartSpec>, lsn: nat): Target {
    if Mapped(parts, lsn) then At(Place(parts, lsn)) else Nowhere
  }

  /** The cached partition cannot be noticed, after any run of accesses, exactly when every partition that comes
      first for some sector agrees with the map on all it covers. */
  lemma CacheUnnoticedIff(parts: seq<PartSpec>)
    requires parts != []
    ensures Agreeing(parts) <==>
      forall accesses: seq<nat>, lsn: nat :: Goes(parts, Cached(parts, accesses), lsn) == MapGoes(parts, lsn)
  {
    if Agreeing(parts) {
      forall accesses: seq<nat>, lsn: nat
        ensures Goes(parts, Cached(parts, accesses), lsn) == MapGoes(parts, lsn)
      {
        CachedIsCacheable(parts, accesses);
        Agree(parts, Cached(parts, accesses), lsn);
      }
    } else {
      var j: nat, lsn: nat :| Leads(parts, j) && parts[j].Covers(lsn)
                              && !(Mapped(parts, lsn) && parts[j].Lba(lsn) == Place(parts, lsn));
      var first: nat :| Find(parts, first, 0) == j;
      CachedAfterOne(parts, first);
      assert Goes(parts, j, lsn) == At(parts[j].Lba(lsn)) != MapGoes(parts, lsn);
    }
  }

  // One access to a sector caches its partition.
  lemma CachedAfterOne(parts: seq<PartSpec>, lsn: nat)
    requires parts != [] && Mapped(parts, lsn)
    ensures Cached(parts, [lsn]) == Find(parts, lsn, 0)
  {
    assert [lsn][..0] == [];
    assert Cached(parts, []) == 0;
  }

  // Every access goes where the map says, whatever is cached.
  lemma Agree(parts: seq<PartSpec>, current: nat, lsn: nat)
    requires Agreeing(parts) && Cacheable(parts, current)
    ensures Goes(parts, current, lsn) == MapGoes(parts, lsn)
  {
    if current == 0 && parts[0].Covers(lsn) {
      assert Find(parts, lsn, 0) == 0;
    }
  }

  // ---- the image -------------------------------------------------------------------------------

  // Byte i of the image, as the map has it.
  function ImageByte(disk: nat -> Byte, parts: seq<PartSpec>, i: nat): Byte {
    if Mapped(parts, i / 2048) then disk(512 * Place(parts, i / 2048) + i % 2048) else 0
  }

  function Image(disk: nat -> Byte, parts: seq<PartSpec>): nat -> Byte {
    (i: nat) => ImageByte(disk, parts, i)
  }

  /** Where the image lies: byte j of a sector is found in the first partition whose extent has that sector, as far into
      it as the sector is, behind the partition's start on the disk. */
  lemma ImageLies(disk: nat -> Byte, parts: seq<PartSpec>, k: nat, lsn: nat, j: nat)
    requires k < |parts| && j < 2048
    requires parts[k].part_offset <= lsn < parts[k].part_offset + parts[k].part_size / 2048
    requires forall h :: 0 <= h < k ==> lsn < parts[h].part_offset || parts[h].part_offset + parts[h].part_size / 2048 <= lsn
    ensures Image(disk, parts)(2048 * lsn + j)
         == disk(512 * parts[k].data_start + 2048 * (lsn - parts[k].part_offset) + j)
  {
    assert (2048 * lsn + j) / 2048 == lsn && (2048 * lsn + j) % 2048 == j;
    assert parts[k].Covers(lsn);
    assert Find(parts, lsn, 0) == k;
  }

  /** ... and when partitions do not overlap, in the one that has it. */
  lemma ImageLiesApart(disk: nat -> Byte, parts: seq<PartSpec>, k: nat, lsn: nat, j: nat)
    requires Disjoint(parts) && k < |parts| && j < 2048
    requires parts[k].part_offset <= lsn < parts[k].part_offset + parts[k].part_size / 2048
    ensures Image(disk, parts)(2048 * lsn + j)
         == disk(512 * parts[k].data_start + 2048 * (lsn - parts[k].part_offset) + j)
  {
    forall h | 0 <= h < k
      ensures lsn < parts[h].part_offset || parts[h].part_offset + parts[h].part_size / 2048 <= lsn
    {
      assert parts[h].End() <= parts[k].part_offset || parts[k].End() <= parts[h].part_offset;
    }
    ImageLies(disk, parts, k, lsn, j);
  }

  /** A sector is mapped exactly when some partition's extent has it. */
  lemma MappedIff(parts: seq<PartSpec>, lsn: nat)
    ensures Mapped(parts, lsn) <==>
      exists k :: 0 <= k < |parts| && parts[k].part_offset <= lsn < parts[k].part_offset + parts[k].part_size / 2048
  {
    var f := Find(parts, lsn, 0);
    if k :| 0 <= k < |parts| && parts[k].part_offset <= lsn < parts[k].part_offset + parts[k].part_size / 2048 {
      assert parts[k].Covers(lsn);
    }
    if f < |parts| {
      assert parts[f].Covers(lsn);
    }
  }

  // Within a partition the image is a stretch of the disk.
  lemma Stretch(disk: nat -> Byte, parts: seq<PartSpec>, j: nat, lsn: nat, n: nat)
    requires Agreeing(parts) && Cacheable(parts, j) && parts[j].Covers(lsn) && lsn + n <= parts[j].End()
    ensures Bytes(disk, 512 * parts[j].Lba(lsn), 2048 * n) == Bytes(Image(disk, parts), 2048 * lsn, 2048 * n)
  {
    var p, onDisk, inImage := parts[j], Bytes(disk, 512 * parts[j].Lba(lsn), 2048 * n), Bytes(Image(disk, parts), 2048 * lsn, 2048 * n);
    forall i | 0 <= i < 2048 * n
      ensures onDisk[i] == inImage[i]
    {
      var s := lsn + i / 2048;
      assert (2048 * lsn + i) / 2048 == s && (2048 * lsn + i) % 2048 == i % 2048;
      assert p.Covers(s);
      Agree(parts, j, s);
      assert Used(parts, j, s) == j;
    }
  }

  // No request to the disk ever fails.
  ghost predicate DiskReads(attempts: nat -> Ata.Attempt, ext: bool) {
    forall k, n :: Ata.IoResult(attempts, k, ext, n) == 0
  }

  // Every partition lies where the disk's commands can reach.
  predicate Addressable(parts: seq<PartSpec>, ext: bool) {
    forall p :: p in parts ==> p.data_start + 4 * (p.part_size / 2048) <= if ext then 0x1_0000_0000 else 0x1000_0000
  }

  predicate AllMapped(parts: seq<PartSpec>, lsn: nat, n: nat) {
    forall i :: lsn <= i < lsn + n ==> Mapped(parts, i)
  }

  lemma CoveredMapped(parts: seq<PartSpec>, j: nat, lsn: nat, n: nat)
    requires j < |parts| && parts[j].Covers(lsn) && lsn + n <= parts[j].End()
    ensures AllMapped(parts, lsn, n)
  {
    assert forall i :: lsn <= i < lsn + n ==> parts[j].Covers(i);
  }

  // The first `got` sectors of a request are mapped, and in the buffer; nothing outside the request's place changed.
  ghost predicate Arrived(disk: nat -> Byte, parts: seq<PartSpec>, lsn: nat, n: nat, got: nat, was: seq<Byte>, now: seq<Byte>) {
    && Ata.Within(0, 2048 * n, was, now) && got <= n && AllMapped(parts, lsn, got)
    && now[..2048 * got] == Bytes(Image(disk, parts), 2048 * lsn, 2048 * got)
  }

  lemma ArrivedKept(disk: nat -> Byte, parts: seq<PartSpec>, lsn: nat, n: nat, got: nat, m: nat,
                    was: seq<Byte>, mid: seq<Byte>, now: seq<Byte>)
    requires Arrived(disk, parts, lsn, n, got, was, mid) && got + m <= n && Ata.Within(2048 * got, 2048 * m, mid, now)
    ensures Arrived(disk, parts, lsn, n, got, was, now)
  {
  }

  lemma ArrivedMore(disk: nat -> Byte, parts: seq<PartSpec>, lsn: nat, n: nat, got: nat, j: nat, m: nat,
                    was: seq<Byte>, now: seq<Byte>)
    requires Arrived(disk, parts, lsn, n, got, was, now) && got + m <= n
    requires j < |parts| && parts[j].Covers(lsn + got) && lsn + got + m <= parts[j].End()
    requires now[2048 * got..2048 * got + 2048 * m] == Bytes(Image(disk, parts), 2048 * (lsn + got), 2048 * m)
    ensures Arrived(disk, parts, lsn, n, got + m, was, now)
  {
    CoveredMapped(parts, j, lsn + got, m);
    BytesSplit(Image(disk, parts), 2048 * lsn, 2048 * got, 2048 * m);
    assert now[..2048 * (got + m)] == now[..2048 * got] + now[2048 * got..2048 * got + 2048 * m];
  }

  // After one more stretch of m sectors, read or failed.
  lemma ArrivedNext(disk: nat -> Byte, parts: seq<PartSpec>, lsn: nat, n: nat, got: nat, j: nat, m: nat, ok: bool,
                    was: seq<Byte>, mid: seq<Byte>, now: seq<Byte>)
    requires Arrived(disk, parts, lsn, n, got, was, mid) && got + m <= n && Ata.Within(2048 * got, 2048 * m, mid, now)
    requires j < |parts| && parts[j].Covers(lsn + got) && lsn + got + m <= parts[j].End()
    requires ok ==> now[2048 * got..2048 * got + 2048 * m] == Bytes(Image(disk, parts), 2048 * (lsn + got), 2048 * m)
    ensures Arrived(disk, parts, lsn, n, if ok then got + m else got, was, now)
  {
    ArrivedKept(disk, parts, lsn, n, got, m, was, mid, now);
    if ok {
      ArrivedMore(disk, parts, lsn, n, got, j, m, was, now);
    }
  }

  // ---- the driver ------------------------------------------------------------------------------

  class HddDevice {
    const cdvdman_partspecs: array<PartSpec>
    const NumParts: nat
    var CurrentPart: nat

    constructor (cdvdman_partspecs: array<PartSpec>, NumParts: nat)
      requires 0 < NumParts <= HDL_NUM_PART_SPECS == cdvdman_partspecs.Length
      ensures Valid() && this.cdvdman_partspecs == cdvdman_partspecs && this.NumParts == NumParts && CurrentPart == 0
    {
      this.cdvdman_partspecs := cdvdman_partspecs;
      this.NumParts := NumParts;
      CurrentPart := 0;
    }

    ghost predicate Valid()
      reads this, cdvdman_partspecs
    {
      NumParts <= HDL_NUM_PART_SPECS == cdvdman_partspecs.Length && Cacheable(Parts(), CurrentPart)
    }

    ghost function Parts(): seq<PartSpec>
      requires NumParts <= cdvdman_partspecs.Length
      reads this, cdvdman_partspecs
    {
      cdvdman_partspecs[..NumParts]
    }

    method cdvdman_get_part_specs(lsn: nat) returns (res: int)
      requires Valid()
      modifies this`CurrentPart
      ensures Valid() && (res == 0 || res == -ENXIO)
      ensures res == 0 <==> Mapped(Parts(), lsn)
      ensures CurrentPart == if res == 0 then Find(Parts(), lsn, 0) else old(CurrentPart)
    {
      var i := 0;
      while i < NumParts
        invariant i <= NumParts && Find(Parts(), lsn, i) == Find(Parts(), lsn, 0) && CurrentPart == old(CurrentPart)
      {
        var ps := cdvdman_partspecs[i];
        assert ps == Parts()[i];
        if lsn >= ps.part_offset && lsn < ps.part_offset + ps.part_size / 2048 {
          CurrentPart := i;
          return 0;
        }
        i := i + 1;
      }
      return -ENXIO;
    }

    // The check at the top of the loop below: afterwards the cached partition is the one to use.
    method Locate(lsn: nat) returns (res: int)
      requires Valid()
      modifies this`CurrentPart
      ensures Valid() && (res == 0 || res == -ENXIO)
      ensures res == 0 ==> CurrentPart == Used(Parts(), old(CurrentPart), lsn) && Parts()[CurrentPart].Covers(lsn)
      ensures res != 0 ==> !Mapped(Parts(), lsn)
    {
      res := 0;
      var ps := cdvdman_partspecs[CurrentPart];
      assert ps == Parts()[CurrentPart];
      if !(lsn >= ps.part_offset && lsn < ps.part_offset + ps.part_size / 2048) {
        res := cdvdman_get_part_specs(lsn);
      }
    }

    // As much as lies in the cached partition.
    method ReadStretch(drive: Ata.Drive, disk: nat -> Byte, ext: bool, attempts: nat -> Ata.Attempt, k0: nat,
                       lsn: nat, nsectors: nat, buf: array<Byte>, offset: nat, ghost was: seq<Byte>)
      returns (res: int, k: nat)
      requires Valid() && Agreeing(Parts()) && Addressable(Parts(), ext) && Ata.AllPossible(attempts)
      requires Parts()[CurrentPart].Covers(lsn) && lsn + nsectors <= Parts()[CurrentPart].End()
      requires offset + 2048 * nsectors <= buf.Length && was == buf[..]
      modifies drive, buf
      ensures res != 0 ==> !DiskReads(attempts, ext)
      ensures Ata.Within(offset, 2048 * nsectors, was, buf[..])
      ensures res == 0 ==>
        buf[offset..offset + 2048 * nsectors] == Bytes(Image(disk, Parts()), 2048 * lsn, 2048 * nsectors)
    {
      ghost var j, parts := CurrentPart, Parts();
      var ps := cdvdman_partspecs[CurrentPart];
      assert ps == parts[CurrentPart];
      var lba := ps.data_start + 4 * (lsn - ps.part_offset);
      ghost var cmds, done;
      res, k, cmds, done := Ata.ata_device_sector_io(drive, disk, ext, 0, attempts, k0, buf, offset, lba, nsectors * 4);
      assert Parts() == parts;
      Stretch(disk, parts, j, lsn, nsectors);
    }

    // One turn of the loop after the partition has been found: `more` sectors have come, or there is an error.
    method ReadTurn(drive: Ata.Drive, disk: nat -> Byte, ext: bool, attempts: nat -> Ata.Attempt, k0: nat,
                    lsn: nat, sectors: nat, buf: array<Byte>, offset: nat, ghost lsn0: nat, ghost n: nat, ghost got: nat,
                    ghost was: seq<Byte>)
      returns (res: int, k: nat, nsectors: nat)
      requires Valid() && Agreeing(Parts()) && Addressable(Parts(), ext) && Ata.AllPossible(attempts)
      requires 0 < sectors && lsn == lsn0 + got && got + sectors == n && offset == 2048 * got
      requires Parts()[CurrentPart].Covers(lsn) && Arrived(disk, Parts(), lsn0, n, got, was, buf[..])
      modifies drive, buf
      ensures 0 < nsectors <= sectors && (res != 0 ==> !DiskReads(attempts, ext))
      ensures Arrived(disk, Parts(), lsn0, n, if res == 0 then got + nsectors else got, was, buf[..])
    {
      ghost var parts, mid, j := Parts(), buf[..], CurrentPart;
      var ps := cdvdman_partspecs[CurrentPart];
      assert ps == parts[CurrentPart];
      nsectors := ps.part_offset + ps.part_size / 2048 - lsn;
      if sectors < nsectors {
        nsectors := sectors;
      }
      res, k := ReadStretch(drive, disk, ext, attempts, k0, lsn, nsectors, buf, offset, mid);
      assert Parts() == parts;
      ArrivedNext(disk, parts, lsn0, n, got, j, nsectors, res == 0, was, mid, buf[..]);
    }

    /** DeviceReadSectors. The buffer receives the image's sectors as the map has them, whatever partition was
        cached. It returns -ENXIO only at an unmapped sector and -EIO only after a failed disk request, so
        with a disk that reads, -ENXIO exactly when some sector of the request is unmapped. */
    method DeviceReadSectors(drive: Ata.Drive, disk: nat -> Byte, ext: bool, attempts: nat -> Ata.Attempt,
                             lsn0: nat, sectors0: nat, buf: array<Byte>)
      returns (res: int, ghost got: nat)
      requires Valid() && Agreeing(Parts()) && Addressable(Parts(), ext) && Ata.AllPossible(attempts)
      requires 2048 * sectors0 <= buf.Length
      modifies this`CurrentPart, drive, buf
      ensures Valid() && Arrived(disk, Parts(), lsn0, sectors0, got, old(buf[..]), buf[..])
      ensures res == 0 || res == -ENXIO || res == -EIO
      ensures res == 0 ==> got == sectors0
      ensures res == -ENXIO ==> got < sectors0 && !Mapped(Parts(), lsn0 + got)
      ensures res == -EIO ==> !DiskReads(attempts, ext)
      ensures DiskReads(attempts, ext) ==> (res == -ENXIO <==> !AllMapped(Parts(), lsn0, sectors0))
    {
      var offset: nat, lsn: nat, sectors: nat, k: nat := 0, lsn0, sectors0, 0;
      ghost var was, parts := buf[..], Parts();
      got := 0;
      while sectors > 0
        invariant Valid() && Parts() == parts && got + sectors == sectors0 && lsn == lsn0 + got && offset == 2048 * got
        invariant Arrived(disk, parts, lsn0, sectors0, got, was, buf[..])
      {
        res := Locate(lsn);
        if res != 0 {
          return;
        }
        var nsectors;
        res, k, nsectors := ReadTurn(drive, disk, ext, attempts, k, lsn, sectors, buf, offset, lsn0, sectors0, got, was);
        if res != 0 {
          return -EIO, got;
        }
        offset := offset + nsectors * 2048;
        got := got + nsectors;
        sectors := sectors - nsectors;
        lsn := lsn + nsectors;
      }
      res := 0;
    }
  }
}
