/** Files of the disc (cdvdman/cdvdman.c): the table of 64 handles, cdrom_read in its three phases, and
    cdrom_lseek. Positions and sizes are 32-bit; `U32` and `I32` say where the code wraps them. */
module FileHandle {
  import opened Sequences
  import ReadPipeline
  import opened Words

  const MAX_FDHANDLES := 64

  // ---- how much a read transfers --------------------------------------------------------------------

  // The size cdrom_read goes on with, in the code's own arithmetic.
  function Clamp(size: int, position: nat, filesize: nat): int {
    if U32(position + size) > filesize then I32(filesize - position) else size
  }

  // What a read of `size` bytes should transfer.
  function Wanted(size: int, position: nat, filesize: nat): int
    requires position <= filesize
  {
    if size <= 0 then 0 else if size <= filesize - position then size else filesize - position
  }

  function Transferred(size: int, position: nat, filesize: nat): int {
    if Clamp(size, position, filesize) > 0 then Clamp(size, position, filesize) else 0
  }

  // However the sum wraps, the position ends in the file.
  lemma StaysInFile(size: int, position: nat, filesize: nat)
    requires IsInt(size) && position <= filesize < 0x1_0000_0000
    ensures U32(position + Transferred(size, position, filesize)) <= filesize
  {
  }

  /** Exactly when the 32-bit comparison gets the size right: the sum neither passes 2^32 nor, for a
      negative size, wraps to beyond the end of a file that still has up to 2 GB to read. */
  lemma ClampRightIff(size: int, position: nat, filesize: nat)
    requires IsInt(size) && position <= filesize < 0x1_0000_0000
    ensures Transferred(size, position, filesize) == Wanted(size, position, filesize)
            <==> SumHarmless(size, position, filesize)
  {
  }

  predicate SumHarmless(size: int, position: nat, filesize: nat) {
    && (size >= 0 ==> position + size < 0x1_0000_0000)
    && (position + size < 0 ==>
          position + size + 0x1_0000_0000 <= filesize || position == filesize
          || filesize - position >= 0x8000_0000)
  }

  // One sector into the file system buffer, of which n bytes from `offset` on are wanted.
  method FetchPart(disc: nat -> Byte, sector: nat, offset: nat, n: nat, fs_buf: array<Byte>, ghost from: nat)
    requires fs_buf.Length >= 2048 && offset + n <= 2048 && from == 2048 * sector + offset
    requires ReadPipeline.LOGO_SECTORS <= sector
    modifies fs_buf
    ensures fs_buf[offset..offset + n] == Bytes(disc, from, n)
  {
    ReadPipeline.ReadDisc(disc, sector, 1, fs_buf, 0);
    BytesSlice(disc, 2048 * sector, 2048, offset, offset + n);
    SubSlice(fs_buf[..], 0, 2048, offset, n);
  }

  // ---- an open file --------------------------------------------------------------------------------

  // What one entry of the table holds; `used` says that its file pointer is set.
  datatype Slot = Slot(used: bool, lsn: nat, filesize: nat, position: nat) {
    predicate Fits() {
      position <= filesize < 0x1_0000_0000
    }
  }

  const CLEARED := Slot(false, 0, 0, 0)

  class FHANDLE {
    var f: bool
    var lsn: nat
    var filesize: nat
    var position: nat

    constructor ()
      ensures State() == CLEARED
    {
      f, lsn, filesize, position := false, 0, 0, 0;
    }

    function State(): Slot
      reads this
    {
      Slot(f, lsn, filesize, position)
    }

    predicate Valid()
      reads this
    {
      State().Fits()
    }

    // Byte i of the file is byte 2048 * lsn + i of the disc.
    function Base(): nat
      reads this
    {
      2048 * lsn
    }

    // Part of one sector, by way of the file system buffer.
    method ReadPart(disc: nat -> Byte, offset: nat, nbytes: nat, buf: array<Byte>, at: nat, fs_buf: array<Byte>,
                    ghost was: seq<Byte>)
      requires fs_buf != buf && fs_buf.Length >= 2048 && offset == position % 2048 && offset + nbytes <= 2048
      requires ReadPipeline.LOGO_SECTORS <= lsn && at + nbytes <= buf.Length && was == buf[..]
      modifies this`position, buf, fs_buf
      ensures position == U32(old(position) + nbytes)
      ensures buf[..] == Splice(was, at, Bytes(disc, Base() + old(position), nbytes))
    {
      ghost var from := Base() + position;
      assert 2048 * (lsn + position / 2048) + offset == from;
      FetchPart(disc, lsn + position / 2048, offset, nbytes, fs_buf, from);
      position := U32(position + nbytes);
      CopyOut(fs_buf, offset, buf, at, nbytes);
    }

    // Phase 1: up to the next sector boundary of the file.
    method ReadHead(disc: nat -> Byte, buf: array<Byte>, size: nat, fs_buf: array<Byte>, ghost was: seq<Byte>)
      returns (nbytes: nat)
      requires fs_buf != buf && fs_buf.Length >= 2048 && 0 < size <= buf.Length && was == buf[..]
      requires ReadPipeline.LOGO_SECTORS <= lsn && position < LIMIT32
      modifies this`position, buf, fs_buf
      ensures nbytes == HeadSize(old(position), size) && position == U32(old(position) + nbytes)
      ensures nbytes < size ==> position % 2048 == 0
      ensures buf[..] == Splice(was, 0, Bytes(disc, Base() + old(position), nbytes))
    {
      var offset := position % 2048;
      nbytes := 0;
      if offset != 0 {
        nbytes := 2048 - offset;
        if size < nbytes {
          nbytes := size;
        } else {
          Aligned(position, nbytes);
        }
        ReadPart(disc, offset, nbytes, buf, 0, fs_buf, was);
      }
    }

    // Phase 2: whole sectors, straight into the caller's buffer.
    method ReadMiddle(disc: nat -> Byte, buf: array<Byte>, rpos: nat, size: nat, ghost was: seq<Byte>) returns (nbytes: nat)
      requires ReadPipeline.LOGO_SECTORS <= lsn && size < LIMIT32 && position < LIMIT32
      requires rpos + size <= buf.Length && was == buf[..] && (size > 0 ==> position % 2048 == 0)
      modifies this`position, buf
      ensures nbytes == 2048 * (size / 2048) && position == U32(old(position) + nbytes)
      ensures nbytes < size ==> position % 2048 == 0
      ensures buf[..] == Splice(was, rpos, Bytes(disc, Base() + old(position), nbytes))
    {
      var nsectors := size / 2048;
      nbytes := 2048 * nsectors;
      if nsectors > 0 {
        WholeSectors(lsn, position, nsectors);
        ReadPipeline.ReadDisc(disc, lsn + position / 2048, nsectors, buf, rpos);
        position := U32(position + nbytes);
      }
    }

    // Phase 3: the first bytes of the last sector.
    method ReadTail(disc: nat -> Byte, buf: array<Byte>, rpos: nat, size: nat, fs_buf: array<Byte>, ghost was: seq<Byte>)
      requires fs_buf != buf && fs_buf.Length >= 2048 && size < 2048 && rpos + size <= buf.Length && was == buf[..]
      requires ReadPipeline.LOGO_SECTORS <= lsn && position < LIMIT32 && (size > 0 ==> position % 2048 == 0)
      modifies this`position, buf, fs_buf
      ensures position == U32(old(position) + size)
      ensures buf[..] == Splice(was, rpos, Bytes(disc, Base() + old(position), size))
    {
      if size > 0 {
        ReadPart(disc, 0, size, buf, rpos, fs_buf, was);
      }
    }

    // Phases 2 and 3.
    method ReadRest(disc: nat -> Byte, buf: array<Byte>, rpos: nat, size: nat, fs_buf: array<Byte>, ghost was: seq<Byte>)
      requires fs_buf != buf && fs_buf.Length >= 2048 && position < LIMIT32 && ReadPipeline.LOGO_SECTORS <= lsn
      requires size < LIMIT32 && rpos + size <= buf.Length && was == buf[..] && (size > 0 ==> position % 2048 == 0)
      modifies this`position, buf, fs_buf
      ensures position == U32(old(position) + size)
      ensures buf[..] == Splice(was, rpos, RestData(disc, Base(), old(position), size))
    {
      ghost var p, base := position, Base();
      var m := ReadMiddle(disc, buf, rpos, size, was);
      ghost var mid := buf[..];
      ReadTail(disc, buf, rpos + m, size - m, fs_buf, mid);
      WrapAdd(p + m, size - m);
      RestLands(disc, base, p, size, m, rpos, was, mid, buf[..]);
    }

    // The three phases in order.
    method ReadPhases(disc: nat -> Byte, buf: array<Byte>, size: nat, fs_buf: array<Byte>, ghost was: seq<Byte>)
      requires fs_buf != buf && fs_buf.Length >= 2048 && position < LIMIT32 && ReadPipeline.LOGO_SECTORS <= lsn
      requires 0 < size <= buf.Length && size < LIMIT32 && was == buf[..]
      modifies this`position, buf, fs_buf
      ensures position == U32(old(position) + size)
      ensures buf[..] == Splice(was, 0, FileData(disc, Base(), old(position), size))
    {
      ghost var p, base := position, Base();
      var n := ReadHead(disc, buf, size, fs_buf, was);
      ghost var mid := buf[..];
      ReadRest(disc, buf, n, size - n, fs_buf, mid);
      WrapAdd(p + n, size - n);
      AllLands(disc, base, p, size, n, was, mid, buf[..]);
    }

    /** cdrom_read. Across all three phases the buffer receives the file from the position on, as many bytes as
        the size calculation leaves, and nothing else changes; the position moves past them and stays in the
        file, even for the sizes whose sum with the position wraps. */
    method cdrom_read(disc: nat -> Byte, buf: array<Byte>, size0: int, fs_buf: array<Byte>) returns (rpos: int)
      requires Valid() && fs_buf != buf && fs_buf.Length >= 2048 && ReadPipeline.LOGO_SECTORS <= lsn
      requires IsInt(size0) && Clamp(size0, position, filesize) <= buf.Length
      modifies this`position, buf, fs_buf
      ensures Valid() && rpos == Transferred(size0, old(position), filesize)
      ensures position == U32(old(position) + rpos)
      ensures buf[..] == Splice(old(buf[..]), 0, FileData(disc, Base(), old(position), rpos))
    {
      var size := size0;
      if U32(position + size) > filesize {
        size := I32(filesize - position);
      }
      assert U32(position + (if size > 0 then size else 0)) <= filesize by {
        StaysInFile(size0, position, filesize);
      }
      rpos := 0;
      if size > 0 {
        ReadPhases(disc, buf, size, fs_buf, buf[..]);
        rpos := size;
      }
    }

    /** cdrom_lseek: the position is the target, reduced to 32 bits and then to the file. */
    method cdrom_lseek(offset: int, whence: int) returns (r: int)
      requires Valid() && IsInt(offset)
      modifies this`position
      ensures Valid() && r == I32(position)
      ensures position == SoughtFrom(old(position), filesize, offset, whence)
    {
      if whence == 1 {
        position := U32(position + offset);
        r := I32(position);
      } else if whence == 0 {
        position := U32(offset);
        r := I32(position);
      } else if whence == 2 {
        position := U32(filesize - offset);
        r := I32(position);
      } else {
        r := I32(position);
      }
      if position > filesize {
        position := filesize;
        r := I32(filesize);
      }
    }
  }

  // How much the first phase reads.
  function HeadSize(p: nat, size: nat): nat {
    if p % 2048 == 0 then 0 else if size < 2048 - p % 2048 then size else 2048 - p % 2048
  }

  // What phases 2 and 3 deliver, and all three: each reads on from a position that wraps at 2^32.
  function RestData(disc: nat -> Byte, base: nat, p: nat, size: nat): (data: seq<Byte>)
    ensures |data| == size
  {
    var m := 2048 * (size / 2048);
    Bytes(disc, base + p, m) + Bytes(disc, base + U32(p + m), size - m)
  }

  function FileData(disc: nat -> Byte, base: nat, p: nat, size: nat): (data: seq<Byte>)
    ensures |data| == size
  {
    var n := HeadSize(p, size);
    Bytes(disc, base + p, n) + RestData(disc, base, U32(p + n), size - n)
  }

  lemma RestLands(disc: nat -> Byte, base: nat, p: nat, size: nat, m: nat, at: nat,
                  was: seq<Byte>, mid: seq<Byte>, now: seq<Byte>)
    requires m == 2048 * (size / 2048) && at + size <= |was| && mid == Splice(was, at, Bytes(disc, base + p, m))
    requires now == Splice(mid, at + m, Bytes(disc, base + U32(p + m), size - m))
    ensures now == Splice(was, at, RestData(disc, base, p, size))
  {
    var x, y := Bytes(disc, base + p, m), Bytes(disc, base + U32(p + m), size - m);
    assert RestData(disc, base, p, size) == x + y;
    SpliceTwice(was, at, x, y);
  }

  lemma AllLands(disc: nat -> Byte, base: nat, p: nat, size: nat, n: nat, was: seq<Byte>, mid: seq<Byte>, now: seq<Byte>)
    requires n == HeadSize(p, size) && size <= |was| && mid == Splice(was, 0, Bytes(disc, base + p, n))
    requires now == Splice(mid, n, RestData(disc, base, U32(p + n), size - n))
    ensures now == Splice(was, 0, FileData(disc, base, p, size))
  {
    SpliceTwice(was, 0, Bytes(disc, base + p, n), RestData(disc, base, U32(p + n), size - n));
  }

  /** That is the slice of the file at the position, whenever the slice ends before the position wraps. */
  lemma FileDataPlain(disc: nat -> Byte, base: nat, p: nat, size: nat)
    requires p + size <= LIMIT32
    ensures FileData(disc, base, p, size) == Bytes(disc, base + p, size)
  {
    var n := HeadSize(p, size);
    if size > n {
      assert U32(p + n) == p + n;
      RestDataPlain(disc, base, p + n, size - n);
    }
    BytesSplit(disc, base + p, n, size - n);
  }

  lemma RestDataPlain(disc: nat -> Byte, base: nat, p: nat, size: nat)
    requires p + size <= LIMIT32
    ensures RestData(disc, base, p, size) == Bytes(disc, base + p, size)
  {
    var m := 2048 * (size / 2048);
    assert size > m ==> U32(p + m) == p + m;
    BytesSplit(disc, base + p, m, size - m);
  }

  lemma WholeSectors(lsn: nat, p: nat, n: nat)
    requires p % 2048 == 0 && p < LIMIT32 && 2048 * n < LIMIT32
    ensures 2048 * (lsn + p / 2048) == 2048 * lsn + p && U32(p + 2048 * n) % 2048 == 0
  {
    assert (p + 2048 * n) % 2048 == 0;
    Aligned(p, 2048 * n);
  }

  lemma Aligned(p: nat, n: nat)
    requires (p + n) % 2048 == 0 && p < 0x1_0000_0000 && n < 0x1_0000_0000
    ensures U32(p + n) % 2048 == 0
  {
  }

  // ---- seeking ---------------------------------------------------------------------------------

  // SEEK_SET is 0, SEEK_CUR 1, SEEK_END 2; anything else leaves the position alone.
  function Target(position: nat, filesize: nat, offset: int, whence: int): int {
    if whence == 1 then position + offset else if whence == 0 then offset
    else if whence == 2 then filesize - offset else position
  }

  function SoughtFrom(position: nat, filesize: nat, offset: int, whence: int): nat {
    var p := U32(Target(position, filesize, offset, whence));
    if p > filesize then filesize else p
  }

  /** Exactly when a seek goes to its target if that lies in the file and to the end otherwise, even for a target before
      the beginning: in a file below 2 GB always, in a longer one unless the target, outside the file, wraps to a place
      inside it. The target is `offset` for SEEK_SET, counts from the position for SEEK_CUR and from the end for
      SEEK_END; for anything else it is the position. */
  lemma SeekLandsIff(position: nat, filesize: nat, offset: int, whence: int)
    requires position <= filesize < 0x1_0000_0000 && IsInt(offset)
    ensures var t := if whence == 0 then offset else if whence == 1 then position + offset
                     else if whence == 2 then filesize - offset else position;
      && (filesize < 0x8000_0000 ==>
            SoughtFrom(position, filesize, offset, whence) == if 0 <= t <= filesize then t else filesize)
      && (SoughtFrom(position, filesize, offset, whence) == (if 0 <= t <= filesize then t else filesize) <==>
            0 <= t < 0x1_0000_0000 || U32(t) >= filesize)
  {
  }

  // ---- the table of handles --------------------------------------------------------------------

  const EMFILE := 24
  const ENOENT := 2

  // What the directory search found.
  datatype Lookup = Missing | Found(lsn: nat, size: nat)

  datatype Event =
    | Open(file: Lookup)
    | Close(h: nat)
    | Read(h: nat, size: int)
    | Seek(h: nat, offset: int, whence: int)

  // The first free entry, or the length of a full table.
  function FreeSlot(t: seq<Slot>): (i: nat)
    ensures i <= |t| && (i < |t| ==> !t[i].used)
    ensures forall k :: 0 <= k < i ==> t[k].used
  {
    if t == [] || !t[0].used then 0 else 1 + FreeSlot(t[1..])
  }

  predicate Enabled(t: seq<Slot>, e: Event) {
    match e
    case Open(Missing) => true
    case Open(Found(_, size)) => size < 0x1_0000_0000
    case Close(h) => h < |t| && t[h].used
    case Read(h, size) => h < |t| && t[h].used && IsInt(size)
    case Seek(h, offset, _) => h < |t| && t[h].used && IsInt(offset)
  }

  // What an event does to the handle it names.
  function Touched(s: Slot, e: Event): Slot {
    match e
    case Open(_) => s
    case Close(_) => CLEARED
    case Read(_, size) => s.(position := U32(s.position + Transferred(size, s.position, s.filesize)))
    case Seek(_, offset, whence) => s.(position := SoughtFrom(s.position, s.filesize, offset, whence))
  }

  function Next(t: seq<Slot>, e: Event): (t': seq<Slot>)
    requires Enabled(t, e)
    ensures |t'| == |t|
  {
    match e
    case Open(file) =>
      if file.Found? && FreeSlot(t) < |t| then t[FreeSlot(t) := Slot(true, file.lsn, file.size, 0)] else t
    case Close(h) => t[h := Touched(t[h], e)]
    case Read(h, _) => t[h := Touched(t[h], e)]
    case Seek(h, _, _) => t[h := Touched(t[h], e)]
  }

  class HandleTable {
    const fdhandles: seq<FHANDLE>

    constructor (fdhandles: seq<FHANDLE>)
      requires |fdhandles| == MAX_FDHANDLES
      requires forall i, j :: 0 <= i < j < |fdhandles| ==> fdhandles[i] != fdhandles[j]
      ensures Valid() && this.fdhandles == fdhandles
    {
      this.fdhandles := fdhandles;
    }

    ghost predicate Valid() {
      && |fdhandles| == MAX_FDHANDLES
      && forall i, j :: 0 <= i < j < |fdhandles| ==> fdhandles[i] != fdhandles[j]
    }

    ghost function States(): (t: seq<Slot>)
      reads fdhandles
      ensures |t| == |fdhandles| && forall i :: 0 <= i < |t| ==> t[i] == fdhandles[i].State()
    {
      seq(|fdhandles|, i requires 0 <= i < |fdhandles| reads fdhandles => fdhandles[i].State())
    }

    method cdvdman_getfilefreeslot() returns (slot: nat)
      ensures slot == FreeSlot(States())
    {
      slot := 0;
      while slot < |fdhandles|
        invariant slot <= |fdhandles| && forall k :: 0 <= k < slot ==> States()[k].used
      {
        if !fdhandles[slot].f {
          return;
        }
        slot := slot + 1;
      }
    }

    /** cdvdman_open: the first free entry takes the file from its beginning. On a unit above 1 nothing is opened;
        on the others -EMFILE exactly when all 64 entries are in use, otherwise -ENOENT exactly when the
        file was not found. */
    method cdvdman_open(file: Lookup, unit: nat) returns (r: int, slot: nat)
      requires Valid() && Enabled(States(), Open(file))
      modifies fdhandles
      ensures States() == if unit < 2 then Next(old(States()), Open(file)) else old(States())
      ensures r == -EMFILE <==> unit < 2 && forall k :: 0 <= k < MAX_FDHANDLES ==> old(States())[k].used
      ensures r == -ENOENT <==> unit >= 2 || (file.Missing? && exists k :: 0 <= k < MAX_FDHANDLES && !old(States())[k].used)
      ensures r == 0 || r == -EMFILE || r == -ENOENT
      ensures r == 0 ==> slot < MAX_FDHANDLES && !old(States())[slot].used
                         && States()[slot] == Slot(true, file.lsn, file.size, 0)
    {
      if unit >= 2 {
        return -ENOENT, 0;
      }
      slot := cdvdman_getfilefreeslot();
      if slot < |fdhandles| {
        assert !States()[slot].used;
        if file.Found? {
          var fh := fdhandles[slot];
          fh.f, fh.filesize, fh.lsn, fh.position := true, file.size, file.lsn, 0;
          r := 0;
        } else {
          r := -ENOENT;
        }
      } else {
        r := -EMFILE;
      }
    }

    method cdrom_close(h: nat) returns (r: int)
      requires Valid() && Enabled(States(), Close(h))
      modifies fdhandles[h]
      ensures r == 0 && States() == Next(old(States()), Close(h))
    {
      var fh := fdhandles[h];
      fh.f, fh.lsn, fh.filesize, fh.position := false, 0, 0, 0;
      r := 0;
    }

    // Reading by handle: cdrom_read on the entry, which is the step Read of the table.
    method ReadFile(disc: nat -> Byte, h: nat, buf: array<Byte>, size: int, fs_buf: array<Byte>) returns (rpos: int)
      requires Valid() && Enabled(States(), Read(h, size)) && States()[h].Fits() && fs_buf != buf && fs_buf.Length >= 2048
      requires ReadPipeline.LOGO_SECTORS <= States()[h].lsn
      requires Clamp(size, States()[h].position, States()[h].filesize) <= buf.Length
      modifies fdhandles[h], buf, fs_buf
      ensures States() == Next(old(States()), Read(h, size))
      ensures rpos == Transferred(size, old(States())[h].position, old(States())[h].filesize)
      ensures var s := old(States())[h]; buf[..] == Splice(old(buf[..]), 0, FileData(disc, 2048 * s.lsn, s.position, rpos))
    {
      rpos := fdhandles[h].cdrom_read(disc, buf, size, fs_buf);
    }

    method SeekFile(h: nat, offset: int, whence: int) returns (r: int)
      requires Valid() && Enabled(States(), Seek(h, offset, whence)) && States()[h].Fits()
      modifies fdhandles[h]
      ensures States() == Next(old(States()), Seek(h, offset, whence)) && r == I32(States()[h].position)
    {
      r := fdhandles[h].cdrom_lseek(offset, whence);
    }
  }

  // ---- runs ------------------------------------------------------------------------------------

  predicate Legal(t: seq<Slot>, run: seq<Event>)
    decreases |run|
  {
    run == [] || (Enabled(t, run[0]) && Legal(Next(t, run[0]), run[1..]))
  }

  function After(t: seq<Slot>, run: seq<Event>): (t': seq<Slot>)
    requires Legal(t, run)
    ensures |t'| == |t|
    decreases |run|
  {
    if run == [] then t else After(Next(t, run[0]), run[1..])
  }

  predicate AllFit(t: seq<Slot>) {
    forall i :: 0 <= i < |t| ==> t[i].Fits()
  }

  /** In every run of opens, closes, reads and seeks, wrapping or not, no position passes its file's end. */
  lemma {:induction false} PositionsStay(t: seq<Slot>, run: seq<Event>)
    requires AllFit(t) && Legal(t, run)
    ensures AllFit(After(t, run))
    decreases |run|
  {
    if run != [] {
      StepFits(t, run[0]);
      PositionsStay(Next(t, run[0]), run[1..]);
    }
  }

  lemma StepFits(t: seq<Slot>, e: Event)
    requires AllFit(t) && Enabled(t, e)
    ensures AllFit(Next(t, e))
  {
    match e {
      case Open(_) =>
      case Close(_) =>
      case Read(h, size) => StaysInFile(size, t[h].position, t[h].filesize);
      case Seek(_, _, _) =>
    }
  }

  predicate Names(e: Event, h: nat) {
    match e
    case Open(_) => false
    case Close(g) => g == h
    case Read(g, _) => g == h
    case Seek(g, _, _) => g == h
  }

  // The handle as if only its own events had happened.
  function Alone(s: Slot, run: seq<Event>, h: nat): Slot
    decreases |run|
  {
    if run == [] then s else Alone(if Names(run[0], h) then Touched(s, run[0]) else s, run[1..], h)
  }

  lemma OwnEventsOnly(t: seq<Slot>, e: Event, h: nat)
    requires Enabled(t, e) && h < |t| && t[h].used
    ensures Next(t, e)[h] == if Names(e, h) then Touched(t[h], e) else t[h]
  {
  }

  /** Handles do not disturb each other: as long as h is not closed, what it holds depends on its own
      reads and seeks alone, whatever is opened, closed, read or sought in between. */
  lemma {:induction false} HandlesIndependent(t: seq<Slot>, run: seq<Event>, h: nat)
    requires Legal(t, run) && h < |t| && t[h].used && Close(h) !in run
    ensures After(t, run)[h] == Alone(t[h], run, h)
    decreases |run|
  {
    if run != [] {
      assert run[0] != Close(h);
      OwnEventsOnly(t, run[0], h);
      HandlesIndependent(Next(t, run[0]), run[1..], h);
    }
  }

  ghost function ReadBy(disc: nat -> Byte, s: Slot, size: int): seq<Byte> {
    FileData(disc, 2048 * s.lsn, s.position, Transferred(size, s.position, s.filesize))
  }

  // A read delivers the slice of its file that a plain file would, and moves behind it.
  ghost predicate ReadRight(disc: nat -> Byte, s: Slot, size: int)
    requires s.Fits()
  {
    var n := Wanted(size, s.position, s.filesize);
    && ReadBy(disc, s, size) == Bytes(disc, 2048 * s.lsn + s.position, n)
    && Touched(s, Read(0, size)) == s.(position := s.position + n)
  }

  // Every read of a run does so exactly when its sum does not wrap harmfully.
  ghost predicate EachReadRightIff(disc: nat -> Byte, t: seq<Slot>, run: seq<Event>)
    requires AllFit(t) && Legal(t, run)
    decreases |run|
  {
    run != [] ==>
      && (run[0].Read? ==>
            (ReadRight(disc, t[run[0].h], run[0].size)
             <==> SumHarmless(run[0].size, t[run[0].h].position, t[run[0].h].filesize)))
      && AllFit(Next(t, run[0]))
      && EachReadRightIff(disc, Next(t, run[0]), run[1..])
  }

  lemma ReadRightIff(disc: nat -> Byte, s: Slot, size: int)
    requires s.Fits() && IsInt(size)
    ensures ReadRight(disc, s, size) <==> SumHarmless(size, s.position, s.filesize)
  {
    var n := Transferred(size, s.position, s.filesize);
    ClampRightIff(size, s.position, s.filesize);
    assert |ReadBy(disc, s, size)| == n;
    if n == Wanted(size, s.position, s.filesize) {
      FileDataPlain(disc, 2048 * s.lsn, s.position, n);
      assert U32(s.position + n) == s.position + n;
    }
  }

  /** In every run of opens, closes, reads and seeks of all handles, each read delivers the min(size, left) bytes of its
      file at its position and moves behind them, exactly when its 32-bit sum does not wrap harmfully. */
  lemma {:induction false} ReadsOfRunRight(disc: nat -> Byte, t: seq<Slot>, run: seq<Event>)
    requires AllFit(t) && Legal(t, run)
    ensures EachReadRightIff(disc, t, run)
    decreases |run|
  {
    if run != [] {
      var e := run[0];
      if e.Read? {
        ReadRightIff(disc, t[e.h], e.size);
      }
      StepFits(t, e);
      ReadsOfRunRight(disc, Next(t, e), run[1..]);
    }
  }

  // The bytes the reads of handle h deliver in a run.
  ghost function Delivered(disc: nat -> Byte, t: seq<Slot>, run: seq<Event>, h: nat): seq<Byte>
    requires Legal(t, run) && h < |t|
    decreases |run|
  {
    if run == [] then []
    else
      var got := if run[0].Read? && run[0].h == h then ReadBy(disc, t[h], run[0].size) else [];
      got + Delivered(disc, Next(t, run[0]), run[1..], h)
  }

  function Asked(run: seq<Event>, h: nat): nat {
    if run == [] then 0
    else (if run[0].Read? && run[0].h == h && run[0].size > 0 then run[0].size else 0) + Asked(run[1..], h)
  }

  // Handle h is only read, in sizes that neither are negative nor wrap.
  predicate ReadsOnly(run: seq<Event>, h: nat, filesize: nat) {
    forall e :: e in run && Names(e, h) ==> e.Read? && 0 <= e.size && filesize + e.size < 0x1_0000_0000
  }

  // How far a file is read when n bytes are asked for in all.
  function Reach(s: Slot, n: nat): nat
    requires s.Fits()
  {
    if n < s.filesize - s.position then n else s.filesize - s.position
  }

  // The file from the position on, n bytes of it or as many as there are.
  ghost function Ahead(disc: nat -> Byte, s: Slot, n: nat): seq<Byte>
    requires s.Fits()
  {
    Bytes(disc, 2048 * s.lsn + s.position, Reach(s, n))
  }

  function Forward(s: Slot, n: nat): (s': Slot)
    requires s.Fits()
    ensures s'.Fits()
  {
    s.(position := s.position + Reach(s, n))
  }

  lemma OneRead(disc: nat -> Byte, s: Slot, e: Event, more: nat)
    requires s.Fits() && e.Read? && IsInt(e.size) && 0 <= e.size && s.filesize + e.size < 0x1_0000_0000
    ensures Touched(s, e) == Forward(s, e.size)
    ensures Forward(s, e.size + more) == Forward(Forward(s, e.size), more)
    ensures Ahead(disc, s, e.size + more) == ReadBy(disc, s, e.size) + Ahead(disc, Forward(s, e.size), more)
  {
    var n := Transferred(e.size, s.position, s.filesize);
    assert n == Reach(s, e.size) by {
      ClampRightIff(e.size, s.position, s.filesize);
    }
    FileDataPlain(disc, 2048 * s.lsn, s.position, n);
    BytesSplit(disc, 2048 * s.lsn + s.position, n, Reach(Forward(s, e.size), more));
  }

  /** Reading files in alternation still reads each front to back: over any run the reads of one handle
      together deliver its file from its position on, as much of it as they asked for in all. */
  lemma {:induction false} ReadsReassembleFile(disc: nat -> Byte, t: seq<Slot>, run: seq<Event>, h: nat)
    requires Legal(t, run) && h < |t| && t[h].used && t[h].Fits() && ReadsOnly(run, h, t[h].filesize)
    ensures Delivered(disc, t, run, h) == Ahead(disc, t[h], Asked(run, h))
    ensures After(t, run)[h] == Forward(t[h], Asked(run, h))
    decreases |run|
  {
    if run != [] {
      var e, t' := run[0], Next(t, run[0]);
      assert e in run;
      OwnEventsOnly(t, e, h);
      if Names(e, h) {
        OneRead(disc, t[h], e, Asked(run[1..], h));
      }
      ReadsReassembleFile(disc, t', run[1..], h);
    }
  }

  // ---- calls in sequence -----------------------------------------------------------------------------

  // Seek to byte p of a file below 2 GB: from the beginning, from where the handle is, from the end.
  lemma SeeksTo(t: seq<Slot>, h: nat, p: nat)
    requires h < |t| && t[h].used && t[h].Fits() && p <= t[h].filesize < 0x8000_0000
    ensures Next(t, Seek(h, p, 0)) == t[h := t[h].(position := p)]
    ensures Next(t, Seek(h, p - t[h].position, 1)) == t[h := t[h].(position := p)]
    ensures Next(t, Seek(h, t[h].filesize - p, 2)) == t[h := t[h].(position := p)]
    ensures Next(t, Seek(h, 0, 1)) == t
  {
    SeekLandsIff(t[h].position, t[h].filesize, p, 0);
  }

  /** Two relative seeks that stay in the file are one by their sum. */
  lemma RelativeSeeksAdd(t: seq<Slot>, h: nat, a: int, b: int)
    requires h < |t| && t[h].used && t[h].Fits() && t[h].filesize < 0x8000_0000
    requires 0 <= t[h].position + a <= t[h].filesize && 0 <= t[h].position + a + b <= t[h].filesize
    ensures Next(Next(t, Seek(h, a, 1)), Seek(h, b, 1)) == Next(t, Seek(h, a + b, 1))
  {
    var p := t[h].position + a;
    SeeksTo(t, h, p);
    SeeksTo(t[h := t[h].(position := p)], h, p + b);
    SeeksTo(t, h, p + b);
  }

  /** Seeking to p and reading delivers the file's bytes from p on, min(size, what is left) of them. */
  lemma SeekThenRead(disc: nat -> Byte, t: seq<Slot>, h: nat, p: nat, size: nat)
    requires h < |t| && t[h].used && t[h].Fits() && p <= t[h].filesize && t[h].filesize + size < 0x8000_0000
    ensures var u := Next(t, Seek(h, p, 0));
      var n := if size < t[h].filesize - p then size else t[h].filesize - p;
      && ReadBy(disc, u[h], size) == Bytes(disc, 2048 * t[h].lsn + p, n)
      && Next(u, Read(h, size)) == t[h := t[h].(position := p + n)]
  {
    SeeksTo(t, h, p);
    ReadRightIff(disc, t[h].(position := p), size);
  }

  /** A file that is opened is read from its beginning, through the first entry that was free. */
  lemma OpenThenRead(disc: nat -> Byte, t: seq<Slot>, lsn: nat, filesize: nat, h: nat, size: nat)
    requires h < |t| && !t[h].used && filesize + size < 0x8000_0000 && forall k :: 0 <= k < h ==> t[k].used
    ensures var u := Next(t, Open(Found(lsn, filesize)));
      && u == t[h := u[h]] && u[h].used && u[h].Fits()
      && ReadBy(disc, u[h], size) == Bytes(disc, 2048 * lsn, if size < filesize then size else filesize)
  {
    assert FreeSlot(t) == h;
    ReadRightIff(disc, Slot(true, lsn, filesize, 0), size);
  }

  /** Closing what was opened frees its entry, so that the next open takes it, and leaves the others alone. */
  lemma OpenThenClose(t: seq<Slot>, lsn: nat, filesize: nat, h: nat)
    requires h < |t| && !t[h].used && filesize < 0x1_0000_0000 && forall k :: 0 <= k < h ==> t[k].used
    ensures var u := Next(Next(t, Open(Found(lsn, filesize))), Close(h));
      u == t[h := u[h]] && !u[h].used && FreeSlot(u) == h
  {
    assert FreeSlot(t) == h;
  }
}
