/** The read-ahead cache of cdvdman/mass_driver.c. A sequential reader makes the driver start one more
    read in the background, into a buffer of 64 sectors; the next request waits for it and may be served
    from it. The background command arrives in pieces, at any time between requests. */
module ReadAhead {
  import opened Sequences
  import opened Words

  const SCSI_RA_SECTORS := 64
  const RA_BYTES := 32768
  const MAX_SIZE := 4096

  // The device: its bytes, how many sectors it has and how large they are.
  datatype Disk = Disk(bytes: nat -> Byte, sectors: nat, sectorSize: nat) {
    predicate Has(sector: nat, count: nat) {
      sector + count <= sectors
    }

    function Plain(sector: nat, count: nat): seq<Byte> {
      Bytes(bytes, sectorSize * sector, sectorSize * count)
    }
  }

  // The static command block while the background command is outstanding: what it reads, how much has come.
  datatype Command = Idle | Filling(sector: nat, count: nat, done: nat)

  datatype Cache = Cache(
    last_sector: nat, last_count: nat,
    ra_sector: nat, ra_count: nat, ra_active: bool, ra_pointer: nat, ra_buffer: seq<Byte>,
    ucmd: Command, io_sem: nat)
  {
    predicate Hit(sector: nat, count: nat) {
      ra_sector == sector && ra_count >= count
    }
  }

  predicate Boot(c: Cache) {
    c == Cache(0xffff_ffff, 0, 0xffff_ffff, 0, false, 0, c.ra_buffer, Idle, 0) && |c.ra_buffer| == RA_BYTES
  }

  // ---- the steps -------------------------------------------------------------------------------

  predicate Arriving(d: Disk, c: Cache) {
    c.ucmd.Filling? ==> c.ucmd.done <= d.sectorSize * c.ucmd.count
  }

  function Left(d: Disk, c: Cache): nat
    requires Arriving(d, c)
  {
    if c.ucmd.Filling? then 1 + d.sectorSize * c.ucmd.count - c.ucmd.done else 0
  }

  /** The next piece of the outstanding command arrives; after the last the semaphore is signalled. A
      command that does not lie on the disk fails, without data but with the same signal. */
  function Land(d: Disk, c: Cache): (c': Cache)
    requires c.ucmd.Filling? && Arriving(d, c)
    ensures Arriving(d, c') && Left(d, c') < Left(d, c)
  {
    var f := c.ucmd;
    var left := d.sectorSize * f.count - f.done;
    if !d.Has(f.sector, f.count) then c.(ucmd := Idle, io_sem := c.io_sem + 1)
    else
      var n := if left < MAX_SIZE then left else MAX_SIZE;
      var filled := Splice(c.ra_buffer, f.done, Bytes(d.bytes, d.sectorSize * f.sector + f.done, n));
      if n == left then c.(ra_buffer := filled, ucmd := Idle, io_sem := c.io_sem + 1)
      else c.(ra_buffer := filled, ucmd := f.(done := f.done + n))
  }

  // All the pieces that are still to come.
  function Settled(d: Disk, c: Cache): (c': Cache)
    requires Arriving(d, c)
    ensures c'.ucmd.Idle?
    decreases Left(d, c)
  {
    if c.ucmd.Idle? then c else Settled(d, Land(d, c))
  }

  // The wait at the top of a request.
  function Waited(d: Disk, c: Cache): (c': Cache)
    requires Arriving(d, c)
  {
    if c.ra_active then
      var s := Settled(d, c);
      s.(ra_active := false, io_sem := if s.io_sem > 0 then s.io_sem - 1 else 0)
    else c
  }

  function Serve(c: Cache, sector: nat, count: nat): Cache {
    if c.Hit(sector, count) then
      c.(ra_sector := U32(c.ra_sector + count), ra_count := c.ra_count - count, ra_pointer := c.ra_pointer + 512 * count)
    else c
  }

  predicate Ahead(c: Cache, sector: nat, count: nat) {
    && U32(c.last_sector + c.last_count) == sector
    && !c.Hit(U32(sector + count), count)
    && count <= SCSI_RA_SECTORS
  }

  function StartAhead(c: Cache, sector: nat, count: nat): Cache {
    c.(ra_active := true, ra_sector := U32(sector + count), ra_count := count, ra_pointer := 0,
       ucmd := Filling(U32(sector + count), count, 0))
  }

  // A request, and whether the bus accepts its foreground and its background command.
  datatype Request = Request(sector: nat, count: nat, readOk: bool, aheadOk: bool)

  // What a request leaves behind, once the wait is over.
  function Served(c: Cache, q: Request): Cache {
    if !c.Hit(q.sector, q.count) && !q.readOk then c
    else
      var t := Serve(c, q.sector, q.count);
      var u := if Ahead(t, q.sector, q.count) && q.aheadOk then StartAhead(t, q.sector, q.count) else t;
      u.(last_sector := q.sector, last_count := q.count)
  }

  // What it puts into the caller's buffer; None when its command was not accepted.
  datatype Answer = None | Got(data: seq<Byte>)

  function Put(buffer: seq<Byte>, at: nat, a: Answer): seq<Byte> {
    if a.Got? then Splice(buffer, at, a.data) else buffer
  }

  function Answered(d: Disk, c: Cache, q: Request): Answer {
    if c.Hit(q.sector, q.count) then
      var n := d.sectorSize * q.count;
      Got(if c.ra_pointer + n <= |c.ra_buffer| then c.ra_buffer[c.ra_pointer..c.ra_pointer + n] else [])
    else if q.readOk then Got(d.Plain(q.sector, q.count))
    else None
  }

  // ---- what the cache keeps --------------------------------------------------------------------

  // Bytes [ra_pointer, ra_pointer + 512 * ra_count) of the buffer are the disk's sectors from ra_sector on.
  predicate Window(d: Disk, c: Cache)
    requires c.ra_pointer + 512 * c.ra_count <= |c.ra_buffer|
  {
    c.ra_buffer[c.ra_pointer..c.ra_pointer + 512 * c.ra_count] == Bytes(d.bytes, 512 * c.ra_sector, 512 * c.ra_count)
  }

  /** The window lies in the buffer; one command is outstanding or one signal is, exactly while a read-ahead
      is active; when none is, a window that lies on the disk holds the disk's sectors. */
  predicate Inv(d: Disk, c: Cache) {
    && d.sectorSize == 512 && |c.ra_buffer| == RA_BYTES && Arriving(d, c)
    && c.ra_pointer + 512 * c.ra_count <= RA_BYTES && c.ra_sector < 0x1_0000_0000
    && c.io_sem + (if c.ucmd.Filling? then 1 else 0) == (if c.ra_active then 1 else 0)
    && (c.ucmd.Filling? ==>
          && c.ucmd.sector == c.ra_sector && c.ucmd.count == c.ra_count && c.ra_pointer == 0
          && (d.Has(c.ra_sector, c.ra_count) ==>
                c.ra_buffer[..c.ucmd.done] == Bytes(d.bytes, 512 * c.ra_sector, c.ucmd.done)))
    && (c.ucmd.Idle? && d.Has(c.ra_sector, c.ra_count) ==> Window(d, c))
  }

  lemma BootInv(d: Disk, c: Cache)
    requires d.sectorSize == 512 && Boot(c)
    ensures Inv(d, c)
  {
  }

  lemma LandInv(d: Disk, c: Cache)
    requires Inv(d, c) && c.ucmd.Filling?
    ensures Inv(d, Land(d, c))
    ensures var c' := Land(d, c);
      (c'.ra_sector, c'.ra_count, c'.ra_active, c'.ra_pointer) == (c.ra_sector, c.ra_count, c.ra_active, c.ra_pointer)
  {
    if d.Has(c.ra_sector, c.ra_count) {
      var f := c.ucmd;
      var left := 512 * f.count - f.done;
      var n := if left < MAX_SIZE then left else MAX_SIZE;
      BytesSplit(d.bytes, 512 * f.sector, f.done, n);
      var filled := Splice(c.ra_buffer, f.done, Bytes(d.bytes, 512 * f.sector + f.done, n));
      assert filled[..f.done + n] == c.ra_buffer[..f.done] + Bytes(d.bytes, 512 * f.sector + f.done, n);
    }
  }

  lemma {:induction false} SettledInv(d: Disk, c: Cache)
    requires Inv(d, c)
    ensures var c' := Settled(d, c);
      && Inv(d, c') && c'.ra_active == c.ra_active && c'.io_sem == (if c.ra_active then 1 else 0)
      && (c'.ra_sector, c'.ra_count, c'.ra_pointer) == (c.ra_sector, c.ra_count, c.ra_pointer)
    decreases Left(d, c)
  {
    if c.ucmd.Filling? {
      LandInv(d, c);
      SettledInv(d, Land(d, c));
    }
  }

  lemma WaitedInv(d: Disk, c: Cache)
    requires Inv(d, c)
    ensures var c' := Waited(d, c);
      && Inv(d, c') && !c'.ra_active && c'.ucmd.Idle? && c'.io_sem == 0
      && (c'.ra_sector, c'.ra_count, c'.ra_pointer) == (c.ra_sector, c.ra_count, c.ra_pointer)
  {
    SettledInv(d, c);
  }

  lemma ServeInv(d: Disk, c: Cache, sector: nat, count: nat)
    requires Inv(d, c) && c.ucmd.Idle? && c.Hit(sector, count) && d.Has(sector, count) && d.sectors < 0x1_0000_0000
    ensures Inv(d, Serve(c, sector, count))
  {
    var c' := Serve(c, sector, count);
    if d.Has(c.ra_sector, c.ra_count) {
      SubSlice(c.ra_buffer, c.ra_pointer, 512 * c.ra_count, 512 * count, 512 * c'.ra_count);
      BytesSlice(d.bytes, 512 * c.ra_sector, 512 * c.ra_count, 512 * count, 512 * c.ra_count);
    }
  }

  lemma ServedInv(d: Disk, c: Cache, q: Request)
    requires Inv(d, c) && !c.ra_active && d.Has(q.sector, q.count) && d.sectors < 0x1_0000_0000
    ensures Inv(d, Served(c, q))
  {
    if c.Hit(q.sector, q.count) {
      ServeInv(d, c, q.sector, q.count);
    }
  }

  /** Exactly when a request answers with the plain sectors, whatever the buffer last held: always, unless it
      is served from a window that reaches past the end of the disk, whose read-ahead failed. */
  lemma AnswerRightIff(d: Disk, c: Cache, q: Request)
    requires Inv(d, c) && !c.ra_active && d.Has(q.sector, q.count) && 0 < q.count && q.readOk
    ensures (forall b {:trigger c.(ra_buffer := b)} :: Inv(d, c.(ra_buffer := b)) ==>
               Answered(d, c.(ra_buffer := b), q) == Got(d.Plain(q.sector, q.count)))
            <==> !(c.Hit(q.sector, q.count) && !d.Has(c.ra_sector, c.ra_count))
  {
    if c.Hit(q.sector, q.count) && !d.Has(c.ra_sector, c.ra_count) {
      var plain := d.Plain(q.sector, q.count);
      var b := seq(RA_BYTES, _ => if plain[0] == 0 then 1 else 0);
      var c' := c.(ra_buffer := b);
      assert Inv(d, c') && Answered(d, c', q).data[0] == b[c.ra_pointer] != plain[0];
    } else {
      forall b | Inv(d, c.(ra_buffer := b))
        ensures Answered(d, c.(ra_buffer := b), q) == Got(d.Plain(q.sector, q.count))
      {
        AnswerRight(d, c.(ra_buffer := b), q);
      }
    }
  }

  lemma AnswerRight(d: Disk, c: Cache, q: Request)
    requires Inv(d, c) && !c.ra_active && d.Has(q.sector, q.count)
    requires c.Hit(q.sector, q.count) ==> d.Has(c.ra_sector, c.ra_count)
    ensures Right(d, q, Answered(d, c, q))
  {
    if c.Hit(q.sector, q.count) {
      SubSlice(c.ra_buffer, c.ra_pointer, 512 * c.ra_count, 0, 512 * q.count);
      BytesSlice(d.bytes, 512 * c.ra_sector, 512 * c.ra_count, 0, 512 * q.count);
    }
  }

  // ---- runs ------------------------------------------------------------------------------------

  datatype Event = Piece | Read(q: Request)

  function Step(d: Disk, c: Cache, e: Event): Cache
    requires Arriving(d, c)
  {
    match e
    case Piece => if c.ucmd.Filling? then Land(d, c) else c
    case Read(q) => Served(Waited(d, c), q)
  }

  // The answer of a driver without a cache: the sectors, unless their command is not accepted.
  predicate Right(d: Disk, q: Request, a: Answer) {
    a == Got(d.Plain(q.sector, q.count)) || (a == None && !q.readOk)
  }

  predicate AllRight(d: Disk, c: Cache, run: seq<Event>)
    decreases |run|
  {
    run != [] ==>
      && Arriving(d, c)
      && (run[0].Read? ==> Right(d, run[0].q, Answered(d, Waited(d, c), run[0].q)))
      && AllRight(d, Step(d, c, run[0]), run[1..])
  }

  // A request lies on the disk, and so does the read-ahead it could start.
  predicate HasRoom(d: Disk, q: Request) {
    && 0 < q.count && d.Has(q.sector, q.count)
    && (q.count <= SCSI_RA_SECTORS ==> d.Has(q.sector, 2 * q.count))
  }

  predicate RoomAhead(d: Disk, run: seq<Event>) {
    d.sectors < 0x1_0000_0000
    && forall e :: e in run && e.Read? ==> HasRoom(d, e.q)
  }

  /** Every step keeps the invariant, on and past the end of the disk. In particular nothing is copied from
      the buffer and no command is issued while one is outstanding: Waited leaves the block idle. */
  lemma StepInv(d: Disk, c: Cache, e: Event)
    requires Inv(d, c) && d.sectors < 0x1_0000_0000 && (e.Read? ==> d.Has(e.q.sector, e.q.count))
    ensures Inv(d, Step(d, c, e))
    ensures e.Read? ==> Waited(d, c).ucmd.Idle?
  {
    match e {
      case Piece =>
        if c.ucmd.Filling? {
          LandInv(d, c);
        }
      case Read(q) =>
        WaitedInv(d, c);
        ServedInv(d, Waited(d, c), q);
    }
  }

  predicate WindowOnDisk(d: Disk, c: Cache) {
    d.Has(c.ra_sector, c.ra_count) || c.ra_count == 0
  }

  lemma StaysOnDiskPiece(d: Disk, c: Cache)
    requires Inv(d, c) && WindowOnDisk(d, c)
    ensures WindowOnDisk(d, Step(d, c, Piece))
  {
    if c.ucmd.Filling? {
      LandInv(d, c);
    }
  }

  lemma AnswerOnDisk(d: Disk, c: Cache, q: Request)
    requires Inv(d, c) && WindowOnDisk(d, c) && d.sectors < 0x1_0000_0000 && HasRoom(d, q)
    ensures Right(d, q, Answered(d, Waited(d, c), q)) && WindowOnDisk(d, Step(d, c, Read(q)))
  {
    WaitedInv(d, c);
    AnswerRight(d, Waited(d, c), q);
  }

  /** The cache cannot be noticed: over any sequence of requests and any timing of the background pieces,
      each request answers as one without read-ahead would. */
  lemma {:induction false} Transparent(d: Disk, c: Cache, run: seq<Event>)
    requires Inv(d, c) && WindowOnDisk(d, c) && RoomAhead(d, run)
    ensures AllRight(d, c, run)
    decreases |run|
  {
    if run != [] {
      var e, c' := run[0], Step(d, c, run[0]);
      assert e in run;
      StepInv(d, c, e);
      if e.Piece? {
        StaysOnDiskPiece(d, c);
      } else {
        AnswerOnDisk(d, c, e.q);
      }
      Transparent(d, c', run[1..]);
    }
  }

  /** It does read ahead: a request that goes on where the last one ended leaves the next one of its size to be served
      from the buffer, whatever pieces land before it, and even when the device accepts no more commands. */
  lemma AheadServesNext(d: Disk, c: Cache, q: Request, pieces: seq<Event>)
    requires Inv(d, c) && WindowOnDisk(d, c) && d.sectors < 0x1_0000_0000 && HasRoom(d, q) && d.Has(q.sector, 3 * q.count)
    requires q.sector == c.last_sector + c.last_count && q.count <= 64 && q.readOk && q.aheadOk
    requires forall e :: e in pieces ==> e.Piece?
    ensures var u := Steps(d, Step(d, c, Read(q)), pieces);
      Arriving(d, u) &&
      Answered(d, Waited(d, u), Request(q.sector + q.count, q.count, false, false))
        == Got(Bytes(d.bytes, 512 * (q.sector + q.count), 512 * q.count))
  {
    StepInv(d, c, Read(q));
    AnswerOnDisk(d, c, q);
    WaitedInv(d, c);
    LastKept(d, c);
    AheadHits(Waited(d, c), q);
    var s, next := Step(d, c, Read(q)), Request(q.sector + q.count, q.count, true, false);
    PiecesKeep(d, s, pieces);
    var u := Steps(d, s, pieces);
    WaitedInv(d, u);
    AnswerRight(d, Waited(d, u), next);
  }

  /** So the third of three sequential reads needs no command any more, whatever was read before them. */
  lemma ThirdIsServed(d: Disk, c: Cache, q0: Request, q1: Request, between: seq<Event>, pieces: seq<Event>)
    requires Inv(d, c) && WindowOnDisk(d, c) && d.sectors < 0x1_0000_0000 && HasRoom(d, q0) && HasRoom(d, q1)
    requires q0.readOk && q1 == Request(q0.sector + q0.count, q0.count, true, true) && q0.count <= 64
    requires d.Has(q1.sector, 3 * q1.count)
    requires (forall e :: e in between ==> e.Piece?) && forall e :: e in pieces ==> e.Piece?
    ensures var u := Steps(d, c, [Read(q0)] + between + [Read(q1)] + pieces);
      Arriving(d, u) &&
      Answered(d, Waited(d, u), Request(q1.sector + q1.count, q1.count, false, false))
        == Got(Bytes(d.bytes, 512 * (q1.sector + q1.count), 512 * q1.count))
  {
    StepInv(d, c, Read(q0));
    AnswerOnDisk(d, c, q0);
    var s := Step(d, c, Read(q0));
    assert s.last_sector == q0.sector && s.last_count == q0.count;
    PiecesKeep(d, s, between);
    var t := Steps(d, s, between);
    StepsBehind(d, c, [Read(q0)], between);
    StepsBehind(d, c, [Read(q0)] + between, [Read(q1)]);
    StepsBehind(d, c, [Read(q0)] + between + [Read(q1)], pieces);
    OneStep(d, c, Read(q0));
    OneStep(d, t, Read(q1));
    AheadServesNext(d, t, q1, pieces);
  }

  lemma OneStep(d: Disk, c: Cache, e: Event)
    requires Arriving(d, c)
    ensures Steps(d, c, [e]) == Step(d, c, e)
  {
    assert [e][1..] == [] && Steps(d, Step(d, c, e), []) == Step(d, c, e);
  }

  lemma {:induction false} StepsBehind(d: Disk, c: Cache, es: seq<Event>, fs: seq<Event>)
    ensures Steps(d, c, es + fs) == Steps(d, Steps(d, c, es), fs)
    decreases |es|
  {
    if es == [] {
      assert es + fs == fs;
    } else if Arriving(d, c) {
      assert (es + fs)[0] == es[0] && (es + fs)[1..] == es[1..] + fs;
      StepsBehind(d, Step(d, c, es[0]), es[1..], fs);
    }
  }

  lemma {:induction false} LastKept(d: Disk, c: Cache)
    requires Arriving(d, c)
    ensures Waited(d, c).last_sector == c.last_sector && Waited(d, c).last_count == c.last_count
    ensures Settled(d, c).last_sector == c.last_sector && Settled(d, c).last_count == c.last_count
    decreases Left(d, c)
  {
    if c.ucmd.Filling? {
      LastKept(d, Land(d, c));
    }
  }

  lemma AheadHits(c: Cache, q: Request)
    requires q.sector == c.last_sector + c.last_count && 0 < q.count <= 64 && q.sector + q.count < 0x1_0000_0000
    requires q.readOk && q.aheadOk
    ensures Served(c, q).Hit(q.sector + q.count, q.count)
  {
  }

  function Steps(d: Disk, c: Cache, es: seq<Event>): (c': Cache)
    decreases |es|
  {
    if es == [] || !Arriving(d, c) then c else Steps(d, Step(d, c, es[0]), es[1..])
  }

  lemma {:induction false} PiecesKeep(d: Disk, c: Cache, pieces: seq<Event>)
    requires Inv(d, c) && WindowOnDisk(d, c) && d.sectors < 0x1_0000_0000 && forall e :: e in pieces ==> e.Piece?
    ensures var u := Steps(d, c, pieces);
      && Inv(d, u) && WindowOnDisk(d, u) && u.ra_sector == c.ra_sector && u.ra_count == c.ra_count
      && u.last_sector == c.last_sector && u.last_count == c.last_count
    decreases |pieces|
  {
    if pieces != [] {
      assert pieces[0] in pieces;
      if c.ucmd.Filling? {
        LandInv(d, c);
      }
      PiecesKeep(d, Step(d, c, Piece), pieces[1..]);
    }
  }

  // ---- where it can be noticed -----------------------------------------------------------------

  /** A read-ahead that straddles the end of the disk fails as a whole, but its window is used for the
      sectors before the end: two sequential reads and a shorter third one on a disk of five sectors. */
  lemma StraddleNoticed(d: Disk, c: Cache, run: seq<Event>)
    requires d == Disk(_ => 1, 5, 512) && Boot(c) && c.ra_buffer == seq(RA_BYTES, _ => 0)
    requires run == [Read(Request(0, 2, true, true)), Read(Request(2, 2, true, true)), Read(Request(4, 1, true, true))]
    ensures !AllRight(d, c, run)
  {
    var c1 := Step(d, c, run[0]);
    var c2 := Step(d, c1, run[1]);
    assert c2.ucmd == Filling(4, 2, 0) && Settled(d, c2) == Land(d, c2);
    var a := Answered(d, Waited(d, c2), run[2].q);
    assert a == Got(c.ra_buffer[0..512]) && a.data[0] == 0;
    assert d.Plain(4, 1)[0] == 1;
    LaterWrong(d, c1, run[1], run[2..]);
    LaterWrong(d, c, run[0], [run[1]] + run[2..]);
    assert run == [run[0]] + ([run[1]] + run[2..]);
  }

  lemma LaterWrong(d: Disk, c: Cache, e: Event, rest: seq<Event>)
    requires Arriving(d, c) && !AllRight(d, Step(d, c, e), rest)
    ensures !AllRight(d, c, [e] + rest)
  {
    assert ([e] + rest)[1..] == rest;
  }

  lemma FewEarlyReads(d: Disk, q0: Request, q1: Request, q2: Request, q3: Request)
    requires d.sectors == 100
    requires forall q :: q in [q0, q1, q2, q3] ==> q.sector < 10 && 0 < q.count < 10
    ensures RoomAhead(d, [Read(q0), Read(q1), Read(q2), Read(q3)])
  {
  }

  lemma SecondStartsAhead(d: Disk, c: Cache, q0: Request, q1: Request)
    requires Boot(c) && q0 == Request(0, 2, true, true) && q1 == Request(2, 2, true, true)
    ensures Step(d, Step(d, c, Read(q0)), Read(q1)) == Cache(2, 2, 4, 2, true, 0, c.ra_buffer, Filling(4, 2, 0), 0)
  {
  }

  // The pointer advances by 512 bytes a sector, so larger sectors are served from the wrong place.
  lemma LargeSectorsNoticed(size: nat)
    returns (d: Disk, c: Cache, run: seq<Event>)
    requires size == 1024 || size == 2048 || size == 4096
    ensures d.sectorSize == size && Boot(c) && RoomAhead(d, run) && !AllRight(d, c, run)
  {
    d := Disk(i => if i == 5 * size then 1 else 0, 100, size);
    c := Cache(0xffff_ffff, 0, 0xffff_ffff, 0, false, 0, seq(RA_BYTES, _ => 0), Idle, 0);
    var q0, q1, q2, q3 := Request(0, 2, true, true), Request(2, 2, true, true), Request(4, 1, true, true), Request(5, 1, true, true);
    run := [Read(q0), Read(q1), Read(q2), Read(q3)];
    FewEarlyReads(d, q0, q1, q2, q3);
    var c1 := Step(d, c, Read(q0));
    var c2 := Step(d, c1, Read(q1));
    SecondStartsAhead(d, c, q0, q1);
    var s := Settled(d, c2);
    SecondSectorByte(d, c2, size);
    var c3 := Step(d, c2, Read(q2));
    assert c3 == s.(ra_active := false, io_sem := 0, ra_sector := 5, ra_count := 1, ra_pointer := 512, last_sector := 4, last_count := 1);
    FourthWrong(d, c3, q3);
    assert !AllRight(d, c3, [Read(q3)]);
    LaterWrong(d, c2, Read(q2), [Read(q3)]);
    LaterWrong(d, c1, Read(q1), [Read(q2)] + [Read(q3)]);
    LaterWrong(d, c, Read(q0), [Read(q1)] + ([Read(q2)] + [Read(q3)]));
    assert run == [Read(q0)] + ([Read(q1)] + ([Read(q2)] + [Read(q3)]));
  }

  lemma FourthWrong(d: Disk, c: Cache, q: Request)
    requires q == Request(5, 1, true, true) && d.bytes(d.sectorSize * 5) == 1 && 0 < d.sectorSize <= 4096
    requires c.Hit(5, 1) && c.ra_pointer == 512 && |c.ra_buffer| == RA_BYTES && c.ra_buffer[512] == 0
    requires !c.ra_active && c.ucmd.Idle?
    ensures !Right(d, q, Answered(d, Waited(d, c), q))
  {
    var n := d.sectorSize * 1;
    assert Answered(d, c, q) == Got(c.ra_buffer[512..512 + n]);
    assert c.ra_buffer[512..512 + n][0] == c.ra_buffer[512];
    assert d.Plain(5, 1)[0] == 1;
  }

  lemma SecondSectorByte(d: Disk, c: Cache, size: nat)
    requires size == 1024 || size == 2048 || size == 4096
    requires d.sectorSize == size && d.Has(4, 2) && d.bytes(4 * size + 512) == 0
    requires c.ucmd == Filling(4, 2, 0) && c.io_sem == 0 && |c.ra_buffer| == RA_BYTES
    ensures var s := Settled(d, c);
      s == c.(ra_buffer := s.ra_buffer, ucmd := Idle, io_sem := 1) && |s.ra_buffer| == RA_BYTES && s.ra_buffer[512] == 0
  {
    var c1 := Land(d, c);
    assert c1.ra_buffer[512] == d.bytes(4 * size + 512);
    if size == 4096 {
      var c2 := Land(d, c1);
      assert Settled(d, c1) == c2;
    } else {
      assert Settled(d, c) == c1;
    }
  }

  /** Of the sector sizes the driver supports, exactly 512 keeps the cache unnoticed. */
  lemma UnnoticedIff512(size: nat)
    requires size == 512 || size == 1024 || size == 2048 || size == 4096
    ensures (forall d: Disk, c: Cache, run: seq<Event> {:trigger AllRight(d, c, run)} ::
               d.sectorSize == size && Boot(c) && RoomAhead(d, run) ==> AllRight(d, c, run))
            <==> size == 512
  {
    if size == 512 {
      forall d: Disk, c: Cache, run: seq<Event> | d.sectorSize == size && Boot(c) && RoomAhead(d, run)
        ensures AllRight(d, c, run)
      {
        Transparent(d, c, run);
      }
    } else {
      var d, c, run := LargeSectorsNoticed(size);
    }
  }

  // ---- the driver ------------------------------------------------------------------------------

  class MassStor {
    var last_sector: nat
    var last_count: nat
    var ra_sector: nat
    var ra_count: nat
    var ra_active: bool
    var ra_buffer_pointer: nat
    const ra_buffer: array<Byte>
    var ucmd: Command
    var io_sem: nat

    constructor (ra_buffer: array<Byte>)
      requires ra_buffer.Length == RA_BYTES
      ensures Boot(State()) && this.ra_buffer == ra_buffer
    {
      last_sector, last_count := 0xffff_ffff, 0;
      ra_sector, ra_count, ra_active := 0xffff_ffff, 0, false;
      ra_buffer_pointer, ucmd, io_sem := 0, Idle, 0;
      this.ra_buffer := ra_buffer;
    }

    ghost function State(): Cache
      reads this, ra_buffer
    {
      Cache(last_sector, last_count, ra_sector, ra_count, ra_active, ra_buffer_pointer, ra_buffer[..], ucmd, io_sem)
    }

    // A piece of the background command arrives.
    method BulkTransfer(d: Disk)
      requires ucmd.Filling? && Inv(d, State())
      modifies this`ucmd, this`io_sem, ra_buffer
      ensures State() == Land(d, old(State()))
    {
      var left := d.sectorSize * ucmd.count - ucmd.done;
      if !d.Has(ucmd.sector, ucmd.count) {
        ucmd := Idle;
        io_sem := io_sem + 1;
      } else {
        var n := if left < MAX_SIZE then left else MAX_SIZE;
        ReadBytes(d.bytes, d.sectorSize * ucmd.sector + ucmd.done, n, ra_buffer, ucmd.done);
        if n == left {
          ucmd := Idle;
          io_sem := io_sem + 1;
        } else {
          ucmd := ucmd.(done := ucmd.done + n);
        }
      }
    }

    // WaitSema on the semaphore of the read-ahead: the missing pieces arrive meanwhile.
    method WaitReadAhead(d: Disk)
      requires ra_active && Inv(d, State())
      modifies this, ra_buffer
      ensures State() == Waited(d, old(State())) && ucmd.Idle? && Inv(d, State())
    {
      ghost var was := State();
      while io_sem == 0
        invariant Inv(d, State()) && Settled(d, State()) == Settled(d, was) && ra_active
        decreases Left(d, State())
      {
        LandInv(d, State());
        BulkTransfer(d);
      }
      WaitedInv(d, was);
      io_sem := io_sem - 1;
      ra_active := false;
    }

    // A foreground command: it needs the command block for itself.
    method cbw_scsi_sector_io(d: Disk, sector: nat, count: nat, buffer: array<Byte>, at: nat, accepted: bool)
      returns (r: int)
      requires ucmd.Idle? && at + d.sectorSize * count <= buffer.Length
      modifies buffer
      ensures r < 0 <==> !accepted
      ensures buffer[..] == if accepted then Splice(old(buffer[..]), at, d.Plain(sector, count)) else old(buffer[..])
    {
      if !accepted {
        return -5;
      }
      ReadBytes(d.bytes, d.sectorSize * sector, d.sectorSize * count, buffer, at);
      return 0;
    }

    // A background command: likewise.
    method StartReadAhead(sector: nat, count: nat, accepted: bool) returns (r: int)
      requires ucmd.Idle?
      modifies this`ucmd
      ensures r == 0 <==> accepted
      ensures ucmd == if accepted then Filling(sector, count, 0) else Idle
    {
      if !accepted {
        return -5;
      }
      ucmd := Filling(sector, count, 0);
      return 0;
    }

    // The first half of a request: from the buffer or from the disk.
    method ServeRequest(d: Disk, q: Request, buffer: array<Byte>, at: nat, ghost was: seq<Byte>) returns (ok: bool)
      requires d.sectorSize == 512 && ra_buffer_pointer + 512 * ra_count <= ra_buffer.Length && ucmd.Idle?
      requires at + 512 * q.count <= buffer.Length && buffer != ra_buffer && was == buffer[..]
      modifies this`ra_sector, this`ra_count, this`ra_buffer_pointer, buffer
      ensures ok <==> old(State()).Hit(q.sector, q.count) || q.readOk
      ensures State() == if ok then Serve(old(State()), q.sector, q.count) else old(State())
      ensures buffer[..] == Put(was, at, Answered(d, old(State()), q))
    {
      ok := true;
      var n := d.sectorSize * q.count;
      assert n == 512 * q.count;
      if ra_sector == q.sector && ra_count >= q.count {
        assert Answered(d, State(), q) == Got(ra_buffer[ra_buffer_pointer..ra_buffer_pointer + n]);
        CopyOut(ra_buffer, ra_buffer_pointer, buffer, at, n);
        ra_sector := U32(ra_sector + q.count);
        ra_count := ra_count - q.count;
        ra_buffer_pointer := ra_buffer_pointer + q.count * 512;
      } else {
        var r := cbw_scsi_sector_io(d, q.sector, q.count, buffer, at, q.readOk);
        ok := r >= 0;
      }
    }

    // The second half: perhaps a read-ahead.
    method ReadOn(q: Request)
      requires ucmd.Idle?
      modifies this
      ensures var t := old(State());
        var u := if Ahead(t, q.sector, q.count) && q.aheadOk then StartAhead(t, q.sector, q.count) else t;
        State() == u.(last_sector := q.sector, last_count := q.count)
    {
      if U32(last_sector + last_count) == q.sector {
        var next := U32(q.sector + q.count);
        if ra_sector == next && ra_count >= q.count {
        } else if q.count <= SCSI_RA_SECTORS {
          var r := StartReadAhead(next, q.count, q.aheadOk);
          if r == 0 {
            ra_active := true;
            ra_sector := next;
            ra_count := q.count;
            ra_buffer_pointer := 0;
          }
        }
      }
      last_sector := q.sector;
      last_count := q.count;
    }

    /** mass_stor_readSector does the step of a request and delivers its answer. That the buffer is copied from
        and commands are issued only while the command block is idle are preconditions met inside. */
    method mass_stor_readSector(d: Disk, q: Request, buffer: array<Byte>, at: nat)
      requires Inv(d, State()) && at + 512 * q.count <= buffer.Length && buffer != ra_buffer
      modifies this, ra_buffer, buffer
      ensures State() == Step(d, old(State()), Read(q))
      ensures buffer[..] == Put(old(buffer[..]), at, Answered(d, Waited(d, old(State())), q))
    {
      ghost var c := State();
      if ra_active {
        WaitReadAhead(d);
      }
      assert State() == Waited(d, c);
      var ok := ServeRequest(d, q, buffer, at, buffer[..]);
      if ok {
        ReadOn(q);
      }
    }
  }
}
