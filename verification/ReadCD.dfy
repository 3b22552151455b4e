/** mass_stor_ReadCD of cdvdman/mass_driver.c: 2048-byte sectors of a disc image from a device whose
    own sectors have 512, 1024, 2048 or 4096 bytes. With the largest, an image sector is half a device
    sector, so the two ends of a request need care; the far end does not always get it. */
module ReadCD {
  import opened Sequences
  import ReadAhead

  const MAX_USB_SECTORS := 256

  predicate Supported(sectorSize: nat) {
    sectorSize == 512 || sectorSize == 1024 || sectorSize == 2048 || sectorSize == 4096
  }

  // The first half sector is read on its own.
  predicate OddStart(sectorSize: nat, lsn: nat) {
    sectorSize > 2048 && lsn % 2 == 1
  }

  // Image sectors left for the loop.
  function Rest(sectorSize: nat, lsn: nat, nsectors: nat): nat
    requires OddStart(sectorSize, lsn) ==> 0 < nsectors
  {
    if OddStart(sectorSize, lsn) then nsectors - 1 else nsectors
  }

  // The last transfer of the loop has an odd number of image sectors, more than one: its last half is lost.
  predicate LosesLast(sectorSize: nat, rest: nat) {
    sectorSize > 2048 && rest % MAX_USB_SECTORS % 2 == 1 && rest % MAX_USB_SECTORS != 1
  }

  /** How many image sectors, from the first on, a request really delivers. */
  function Delivered(sectorSize: nat, lsn: nat, nsectors: nat): nat
    requires OddStart(sectorSize, lsn) ==> 0 < nsectors
  {
    if LosesLast(sectorSize, Rest(sectorSize, lsn, nsectors)) then nsectors - 1 else nsectors
  }

  // n device sectors in bytes.
  function Size(sectorSize: nat, n: nat): nat {
    if sectorSize == 512 then 512 * n else if sectorSize == 1024 then 1024 * n
    else if sectorSize == 2048 then 2048 * n else 4096 * n
  }

  lemma SizeIsProduct(sectorSize: nat, n: nat)
    requires Supported(sectorSize)
    ensures Size(sectorSize, n) == sectorSize * n
  {
  }

  // Byte i of the image, which starts at sector `start` of the device.
  function Image(device: nat -> Byte, sectorSize: nat, start: nat): nat -> Byte {
    (i: nat) => device(Size(sectorSize, start) + i)
  }

  // Device sector `lba` is `offset` bytes into the image.
  predicate At(sectorSize: nat, start: nat, lba: nat, offset: nat) {
    Size(sectorSize, lba) == Size(sectorSize, start) + offset
  }

  lemma AtSum(sectorSize: nat, start: nat, lba: nat, offset: nat, n: nat)
    requires At(sectorSize, start, lba, offset)
    ensures At(sectorSize, start, lba + n, offset + Size(sectorSize, n))
  {
  }

  // The translation of the first sector number.
  lemma AtStart(sectorSize: nat, start: nat, lsn: nat)
    requires Supported(sectorSize)
    ensures sectorSize <= 2048 ==> At(sectorSize, start, start + lsn * (2048 / sectorSize), 2048 * lsn)
    ensures sectorSize > 2048 ==> At(sectorSize, start, start + lsn / 2, 2048 * (lsn - lsn % 2))
  {
    if sectorSize == 512 {
      assert 2048 / sectorSize == 4;
    } else if sectorSize == 1024 {
      assert 2048 / sectorSize == 2;
    } else if sectorSize == 2048 {
      assert 2048 / sectorSize == 1;
    }
  }

  // Only half a device sector comes to no whole one.
  lemma Whole(sectorSize: nat, sectors: nat)
    requires Supported(sectorSize)
    ensures Size(sectorSize, sectors * 2048 / sectorSize)
         == 2048 * if sectorSize > 2048 then sectors - sectors % 2 else sectors
    ensures sectors * 2048 / sectorSize == 0 <==> sectors == 0 || (sectors == 1 && sectorSize > 2048)
  {
    if sectorSize == 512 {
      assert sectors * 2048 / sectorSize == 4 * sectors;
    } else if sectorSize == 1024 {
      assert sectors * 2048 / sectorSize == 2 * sectors;
    } else if sectorSize == 2048 {
      assert sectors * 2048 / sectorSize == sectors;
    } else {
      assert sectors * 2048 / sectorSize == sectors / 2;
    }
  }

  // A plain read of device sectors, seen from the image.
  method mass_stor_readSector(device: nat -> Byte, sectorSize: nat, lba: nat, count: nat, buf: array<Byte>, at: nat,
                              ghost start: nat, ghost offset: nat)
    requires Supported(sectorSize) && at + Size(sectorSize, count) <= buf.Length && At(sectorSize, start, lba, offset)
    modifies buf
    ensures buf[..] == Splice(old(buf[..]), at, Bytes(Image(device, sectorSize, start), offset, Size(sectorSize, count)))
  {
    ghost var image := Image(device, sectorSize, start);
    assert Bytes(device, Size(sectorSize, lba), Size(sectorSize, count)) == Bytes(image, offset, Size(sectorSize, count));
    SizeIsProduct(sectorSize, lba);
    SizeIsProduct(sectorSize, count);
    ReadBytes(device, sectorSize * lba, sectorSize * count, buf, at);
  }

  // One sector by way of the sector buffer, of which the image sector at `half` is wanted.
  method ReadHalf(device: nat -> Byte, lba: nat, half: nat, gSectorBuffer: array<Byte>, p: array<Byte>, at: nat,
                  ghost start: nat, ghost offset: nat)
    requires gSectorBuffer.Length == 4096 && gSectorBuffer != p && at + 2048 <= p.Length
    requires (half == 0 || half == 2048) && At(4096, start, lba, offset)
    modifies gSectorBuffer, p
    ensures p[..] == Splice(old(p[..]), at, Bytes(Image(device, 4096, start), offset + half, 2048))
  {
    ghost var image := Image(device, 4096, start);
    mass_stor_readSector(device, 4096, lba, 1, gSectorBuffer, 0, start, offset);
    assert gSectorBuffer[..] == Bytes(image, offset, 4096);
    assert gSectorBuffer[half..half + 2048] == Bytes(image, offset, 4096)[half..half + 2048];
    BytesSlice(image, offset, 4096, half, half + 2048);
    CopyOut(gSectorBuffer, half, p, at, 2048);
  }

  // Image sectors [lsn, lsn + n) have arrived at the start of the buffer.
  ghost predicate Have(image: nat -> Byte, lsn: nat, n: nat, was: seq<Byte>, now: seq<Byte>) {
    now == Splice(was, 0, Bytes(image, 2048 * lsn, 2048 * n))
  }

  lemma HaveMore(image: nat -> Byte, lsn: nat, n: nat, m: nat, was: seq<Byte>, mid: seq<Byte>, now: seq<Byte>)
    requires Have(image, lsn, n, was, mid) && 2048 * (n + m) <= |was|
    requires now == Splice(mid, 2048 * n, Bytes(image, 2048 * (lsn + n), 2048 * m))
    ensures Have(image, lsn, n + m, was, now)
  {
    Adjacent(image, 2048 * lsn, 2048 * n, 2048 * m, 0, was, mid, now);
  }

  function TurnGets(sectorSize: nat, sectors: nat): nat {
    if sectorSize > 2048 && sectors % 2 == 1 && sectors != 1 then sectors - 1 else sectors
  }

  // What the turns of the loop get together: only the last can lose a sector.
  function LoopGets(sectorSize: nat, nsectors: nat): nat {
    if nsectors > MAX_USB_SECTORS then MAX_USB_SECTORS + LoopGets(sectorSize, nsectors - MAX_USB_SECTORS)
    else TurnGets(sectorSize, nsectors)
  }

  lemma SameLast(n: nat)
    ensures (n + MAX_USB_SECTORS) % MAX_USB_SECTORS == n % MAX_USB_SECTORS
  {
  }

  lemma {:induction false} LoopGetsAll(sectorSize: nat, nsectors: nat)
    ensures LoopGets(sectorSize, nsectors) == if LosesLast(sectorSize, nsectors) then nsectors - 1 else nsectors
    decreases nsectors
  {
    if nsectors > MAX_USB_SECTORS {
      LoopGetsAll(sectorSize, nsectors - MAX_USB_SECTORS);
      SameLast(nsectors - MAX_USB_SECTORS);
    }
  }

  // One turn of the loop: `sectors` image sectors, but an odd number above one of half sectors less one.
  method ReadTurn(device: nat -> Byte, sectorSize: nat, lba0: nat, sectors: nat, gSectorBuffer: array<Byte>, p: array<Byte>,
                  at: nat, ghost start: nat, ghost lsn: nat, ghost n: nat, ghost was: seq<Byte>)
    returns (lba: nat, ghost got: nat)
    requires Supported(sectorSize) && 0 < sectors && gSectorBuffer.Length == 4096 && gSectorBuffer != p
    requires at == 2048 * n && 2048 * (n + sectors) <= p.Length == |was| && At(sectorSize, start, lba0, 2048 * (lsn + n))
    requires Have(Image(device, sectorSize, start), lsn, n, was, p[..])
    modifies gSectorBuffer, p
    ensures got == TurnGets(sectorSize, sectors)
    ensures got == sectors == MAX_USB_SECTORS ==> At(sectorSize, start, lba, 2048 * (lsn + n + sectors))
    ensures Have(Image(device, sectorSize, start), lsn, n + got, was, p[..])
  {
    ghost var mid, image := p[..], Image(device, sectorSize, start);
    var nbytes := sectors * 2048;
    var DiskSectorsToRead := nbytes / sectorSize;
    Whole(sectorSize, sectors);
    if DiskSectorsToRead == 0 {
      got := 1;
      ReadHalf(device, lba0, 0, gSectorBuffer, p, at, start, 2048 * (lsn + n));
    } else {
      got := if sectorSize > 2048 then sectors - sectors % 2 else sectors;
      mass_stor_readSector(device, sectorSize, lba0, DiskSectorsToRead, p, at, start, 2048 * (lsn + n));
    }
    assert p[..] == Splice(mid, at, Bytes(image, 2048 * (lsn + n), 2048 * got));
    HaveMore(image, lsn, n, got, was, mid, p[..]);
    lba := lba0 + DiskSectorsToRead;
    AtSum(sectorSize, start, lba0, 2048 * (lsn + n), DiskSectorsToRead);
  }

  // Before the loop: where to read from, and the half sector of an odd start.
  method ReadStart(device: nat -> Byte, sectorSize: nat, start: nat, lsn0: nat, nsectors0: nat,
                   buf: array<Byte>, gSectorBuffer: array<Byte>, ghost was: seq<Byte>)
    returns (lba: nat, n: nat)
    requires Supported(sectorSize) && gSectorBuffer.Length == 4096 && gSectorBuffer != buf && was == buf[..]
    requires 2048 * nsectors0 <= buf.Length && (OddStart(sectorSize, lsn0) ==> 0 < nsectors0)
    modifies buf, gSectorBuffer
    ensures nsectors0 == n + Rest(sectorSize, lsn0, nsectors0) && At(sectorSize, start, lba, 2048 * (lsn0 + n))
    ensures Have(Image(device, sectorSize, start), lsn0, n, was, buf[..])
  {
    AtStart(sectorSize, start, lsn0);
    n := 0;
    if sectorSize > 2048 {
      lba := start + lsn0 / 2;
      if lsn0 % 2 > 0 {
        ReadHalf(device, lba, 2048, gSectorBuffer, buf, 0, start, 2048 * (lsn0 - 1));
        AtSum(sectorSize, start, lba, 2048 * (lsn0 - 1), 1);
        lba := lba + 1;
        n := 1;
      }
    } else {
      lba := start + lsn0 * (2048 / sectorSize);
    }
  }

  // The loop.
  method ReadLoop(device: nat -> Byte, sectorSize: nat, lba0: nat, nsectors0: nat, gSectorBuffer: array<Byte>, p0: array<Byte>,
                  at: nat, ghost start: nat, ghost lsn: nat, ghost n0: nat, ghost was: seq<Byte>)
    requires Supported(sectorSize) && gSectorBuffer.Length == 4096 && gSectorBuffer != p0
    requires at == 2048 * n0 && 2048 * (n0 + nsectors0) <= p0.Length == |was| && At(sectorSize, start, lba0, 2048 * (lsn + n0))
    requires Have(Image(device, sectorSize, start), lsn, n0, was, p0[..])
    modifies gSectorBuffer, p0
    ensures Have(Image(device, sectorSize, start), lsn, n0 + LoopGets(sectorSize, nsectors0), was, p0[..])
  {
    var lba: nat, nsectors: nat, p: nat := lba0, nsectors0, at;
    ghost var got: nat, n: nat, all := 0, n0, n0 + LoopGets(sectorSize, nsectors0);
    assert TurnGets(sectorSize, MAX_USB_SECTORS) == MAX_USB_SECTORS;
    while nsectors > 0
      invariant n + LoopGets(sectorSize, nsectors) == all
      invariant nsectors > 0 ==> p == 2048 * n && n + nsectors == n0 + nsectors0 && At(sectorSize, start, lba, 2048 * (lsn + n))
      invariant Have(Image(device, sectorSize, start), lsn, n, was, p0[..])
    {
      var sectors := if nsectors > MAX_USB_SECTORS then MAX_USB_SECTORS else nsectors;
      lba, got := ReadTurn(device, sectorSize, lba, sectors, gSectorBuffer, p0, p, start, lsn, n, was);
      n := n + got;
      p := p + 2048 * sectors;
      nsectors := nsectors - sectors;
    }
  }

  /** mass_stor_ReadCD: the image sectors asked for, and nothing else, except on a device with 4096-byte sectors when the
      count left after an odd start, modulo 256, is odd and not 1. Then the last of them is not touched. */
  method mass_stor_ReadCD(device: nat -> Byte, sectorSize: nat, start: nat, lsn: nat, nsectors: nat,
                          buf: array<Byte>, gSectorBuffer: array<Byte>)
    requires Supported(sectorSize) && gSectorBuffer.Length == 4096 && gSectorBuffer != buf
    requires 2048 * nsectors <= buf.Length && (OddStart(sectorSize, lsn) ==> 0 < nsectors)
    modifies buf, gSectorBuffer
    ensures var rest, from := if sectorSize > 2048 && lsn % 2 == 1 then nsectors - 1 else nsectors, sectorSize * start + 2048 * lsn;
      if sectorSize > 2048 && rest % 256 % 2 == 1 && rest % 256 != 1 then
        && buf[..] == Splice(old(buf[..]), 0, Bytes(device, from, 2048 * (nsectors - 1)))
        && buf[2048 * (nsectors - 1)..2048 * nsectors] == old(buf[2048 * (nsectors - 1)..2048 * nsectors])
      else buf[..] == Splice(old(buf[..]), 0, Bytes(device, from, 2048 * nsectors))
  {
    ghost var was := buf[..];
    var lba, n := ReadStart(device, sectorSize, start, lsn, nsectors, buf, gSectorBuffer, was);
    ReadLoop(device, sectorSize, lba, nsectors - n, gSectorBuffer, buf, 2048 * n, start, lsn, n, was);
    LoopGetsAll(sectorSize, nsectors - n);
    ImageIs(device, sectorSize, start, lsn, Delivered(sectorSize, lsn, nsectors));
  }

  // The image is what the device has from its first sector on.
  lemma ImageIs(device: nat -> Byte, sectorSize: nat, start: nat, lsn: nat, n: nat)
    requires Supported(sectorSize)
    ensures Bytes(Image(device, sectorSize, start), 2048 * lsn, 2048 * n) == Bytes(device, sectorSize * start + 2048 * lsn, 2048 * n)
  {
    SizeIsProduct(sectorSize, start);
    var x, y := Bytes(Image(device, sectorSize, start), 2048 * lsn, 2048 * n), Bytes(device, sectorSize * start + 2048 * lsn, 2048 * n);
    forall i | 0 <= i < 2048 * n
      ensures x[i] == y[i]
    {
      assert Size(sectorSize, start) + (2048 * lsn + i) == sectorSize * start + 2048 * lsn + i;
    }
  }

  /** Exactly when a request delivers every sector, on whatever device: unless the device has 4096-byte
      sectors and the count left after an odd start, modulo 256, is odd and not 1. */
  lemma ReadCDRightIff(sectorSize: nat, lsn: nat, nsectors: nat)
    requires Supported(sectorSize) && (OddStart(sectorSize, lsn) ==> 0 < nsectors)
    ensures !LosesLast(sectorSize, Rest(sectorSize, lsn, nsectors)) <==>
      forall image: nat -> Byte, was: seq<Byte>, now: seq<Byte> :: 2048 * nsectors <= |was| ==>
        (Have(image, lsn, Delivered(sectorSize, lsn, nsectors), was, now) <==> Have(image, lsn, nsectors, was, now))
  {
    if LosesLast(sectorSize, Rest(sectorSize, lsn, nsectors)) {
      var image: nat -> Byte, was := _ => 1, seq(2048 * nsectors, _ => 0);
      var now := Splice(was, 0, Bytes(image, 2048 * lsn, 2048 * (nsectors - 1)));
      assert Have(image, lsn, Delivered(sectorSize, lsn, nsectors), was, now);
      var want := Splice(was, 0, Bytes(image, 2048 * lsn, 2048 * nsectors));
      assert now[2048 * (nsectors - 1)] == 0 && want[2048 * (nsectors - 1)] == 1;
      assert !Have(image, lsn, nsectors, was, now);
    }
  }

  // ---- through the read-ahead cache ------------------------------------------------------------

  // An image of `sectors` sectors on a device of 512-byte sectors, with room behind it for a read-ahead.
  predicate OnDisk(d: ReadAhead.Disk, start: nat, sectors: nat) {
    d.sectorSize == 512 && start + 4 * sectors + ReadAhead.SCSI_RA_SECTORS <= d.sectors < 0x1_0000_0000
  }

  // What the cache keeps between requests.
  predicate Ready(d: ReadAhead.Disk, c: ReadAhead.Cache) {
    ReadAhead.Inv(d, c) && ReadAhead.WindowOnDisk(d, c)
  }

  lemma PlainIsImage(d: ReadAhead.Disk, start: nat, lsn: nat, sectors: nat)
    requires d.sectorSize == 512
    ensures d.Plain(start + 4 * lsn, 4 * sectors) == Bytes(Image(d.bytes, 512, start), 2048 * lsn, 2048 * sectors)
  {
    var image := Image(d.bytes, 512, start);
    var from, n := d.sectorSize * (start + 4 * lsn), d.sectorSize * (4 * sectors);
    assert from == 512 * start + 2048 * lsn && n == 2048 * sectors;
    var x, y := Bytes(d.bytes, from, n), Bytes(image, 2048 * lsn, n);
    forall i | 0 <= i < n
      ensures x[i] == y[i]
    {
      assert Size(512, start) + (2048 * lsn + i) == from + i;
    }
    assert x == y;
  }

  // Any number of pieces of a background command arrive.
  method Interlude(d: ReadAhead.Disk, stor: ReadAhead.MassStor)
    requires Ready(d, stor.State())
    modifies stor, stor.ra_buffer
    ensures Ready(d, stor.State())
  {
    var more: bool := *;
    while more && stor.ucmd.Filling?
      invariant Ready(d, stor.State())
      decreases ReadAhead.Left(d, stor.State())
    {
      ReadAhead.LandInv(d, stor.State());
      stor.BulkTransfer(d);
      more := *;
    }
  }

  // One turn of the loop, whose request may be served from the cache and may start a read-ahead.
  method CachedTurn(d: ReadAhead.Disk, stor: ReadAhead.MassStor, lba: nat, sectors: nat, p: array<Byte>, aheadOk: bool,
                    n: nat, ghost start: nat, ghost lsn: nat, ghost was: seq<Byte>)
    requires Ready(d, stor.State()) && OnDisk(d, start, lsn + n + sectors) && p != stor.ra_buffer
    requires 0 < sectors && 2048 * (n + sectors) <= p.Length == |was| && lba == start + 4 * (lsn + n)
    requires Have(Image(d.bytes, 512, start), lsn, n, was, p[..])
    modifies stor, stor.ra_buffer, p
    ensures Ready(d, stor.State()) && Have(Image(d.bytes, 512, start), lsn, n + sectors, was, p[..])
  {
    Interlude(d, stor);
    ghost var mid, image, c := p[..], Image(d.bytes, 512, start), stor.State();
    var q := ReadAhead.Request(lba, 4 * sectors, true, aheadOk);
    ReadAhead.StepInv(d, c, ReadAhead.Read(q));
    ReadAhead.AnswerOnDisk(d, c, q);
    stor.mass_stor_readSector(d, q, p, 2048 * n);
    PlainIsImage(d, start, lsn + n, sectors);
    HaveMore(image, lsn, n, sectors, was, mid, p[..]);
  }

  /** mass_stor_ReadCD on 512-byte sectors, through the cache of mass_stor_readSector: whatever was requested
      before and however far a background command has come, the image sectors asked for arrive. */
  method ReadCDCached(d: ReadAhead.Disk, stor: ReadAhead.MassStor, start: nat, lsn: nat, nsectors0: nat, buf: array<Byte>,
                      aheadOk: nat -> bool)
    requires Ready(d, stor.State()) && OnDisk(d, start, lsn + nsectors0) && buf != stor.ra_buffer
    requires 2048 * nsectors0 <= buf.Length
    modifies stor, stor.ra_buffer, buf
    ensures Ready(d, stor.State())
    ensures buf[..] == Splice(old(buf[..]), 0, Bytes(d.bytes, 512 * start + 2048 * lsn, 2048 * nsectors0))
  {
    ghost var was := buf[..];
    ImageIs(d.bytes, 512, start, lsn, nsectors0);
    var lba: nat, nsectors: nat, n: nat := start + lsn * (2048 / 512), nsectors0, 0;
    while nsectors > 0
      invariant n + nsectors == nsectors0 && lba == start + 4 * (lsn + n)
      invariant Ready(d, stor.State()) && Have(Image(d.bytes, 512, start), lsn, n, was, buf[..])
    {
      var sectors := if nsectors > MAX_USB_SECTORS then MAX_USB_SECTORS else nsectors;
      CachedTurn(d, stor, lba, sectors, buf, aheadOk(n), n, start, lsn, was);
      lba := lba + sectors * 2048 / 512;
      n := n + sectors;
      nsectors := nsectors - sectors;
    }
  }
}
