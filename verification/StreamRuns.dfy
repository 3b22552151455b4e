/** Runs of the stream engine. One consumer thread calls the sceCdSt functions; between its critical
    sections the device deposits sectors, the reader thread completes reads and refills the ring,
    the retry alarm fires, and other callers use the drive. Every such step is an `Event`.

    Sectors are 2048-byte cells and `disc` gives each one's contents. A read's completion together
    with the callback that follows it is one step, because the reader thread outranks the consumer.
    The consumer's own refill is several steps, because the driver leaves its critical section after it
    has looked for a bank: it then issues a read or takes the reading flag down again. */
module StreamRuns {
  import opened Sequences
  import opened StreamRing
  import opened Words

  type Disc = nat -> Sector

  datatype Then = Return | Begin(lsn: nat)

  // Where the consumer thread is.
  datatype Place =
    | Ready
    | Stopping(next: Then)                             // sceCdStStop, before its critical section
    | Pausing                                          // sceCdStPause, before its critical section
    | Syncing(next: Then)                              // in sceCdSync(0)
    | Beginning(lsn: nat)                              // sceCdStStart, before its critical section
    | Claiming                                         // about to refill
    | Filling(ptr: nat)                                // bank claimed, read not yet issued
    | Declining                                        // no bank, reading flag still up
    | Refused                                          // read refused, reading flag still up
    | Retrying                                         // flag down again, alarm not set yet
    | Reading(blocking: bool, ee: bool)                // at the head of sceCdStRead's loop
    | Moving(blocking: bool, n: nat, done: set<nat>)   // DMA of n sectors in flight

  /** `dst` is the buffer of the current (or last) sceCdStRead and `got` how much of it has been filled;
      `out` is everything handed over since the stream began at sector `start`. */
  datatype State = State(
    ring: Ring,
    place: Place,
    dst: seq<Sector>,
    got: nat,
    start: nat,
    out: seq<Sector>)

  datatype Event =
    | Init(bufmax: nat, bankmax: nat, base: nat)
    | Start(lsn: nat)
    | Stop
    | Pause
    | Resume
    | Seek(lsn: nat)
    | Read(dst: seq<Sector>, blocking: bool, ee: bool)
    | Go                                               // the consumer's next critical section
    | Move(i: nat)                                     // the DMA copies its i-th sector
    | Deposit                                          // the device delivers one sector
    | Complete                                         // a read ends; the callback runs
    | Alarm                                            // StmScheduleCb
    | Other(lsn: nat, count: nat, dest: nat, reader: bool) // somebody else's read is accepted

  // ---- steps ------------------------------------------------------------------------------------

  ghost predicate Enabled(s: State, e: Event) {
    match e
    case Init(bufmax, bankmax, base) =>
      s.place.Ready? && 0 < bankmax <= bufmax < LIMIT16 && base + bufmax <= |s.ring.mem|
    case Start(lsn) => s.place.Ready? && lsn < LIMIT32
    case Seek(lsn) => s.place.Ready? && lsn < LIMIT32
    case Stop => s.place.Ready?
    case Pause => s.place.Ready?
    case Resume => s.place.Ready?
    case Read(dst, _, _) => s.place.Ready? && |dst| < 0x8000_0000
    case Go => !s.place.Ready? && (s.place.Syncing? ==> s.ring.drive.Free?)
               && (s.place.Moving? ==> forall i: nat :: i < s.place.n ==> i in s.place.done)
    case Move(i) => s.place.Moving? && i < s.place.n
    case Deposit => s.ring.drive.Busy? && s.ring.drive.done < s.ring.drive.count
    case Complete => s.ring.drive.Busy? && s.ring.drive.done == s.ring.drive.count
    case Alarm => s.ring.alarm
    case Other(_, count, dest, _) =>
      s.ring.drive.Free? && dest + count <= |s.ring.mem| && Apart(s.ring, dest, count)
  }

  // Memory [dest, dest + count) does not touch the ring.
  predicate Apart(g: Ring, dest: nat, count: nat) {
    dest + count <= g.base || g.base + g.bufmax <= dest
  }

  function Next(disc: Disc, s: State, e: Event): State {
    match e
    case Init(bufmax, bankmax, base) =>
      if bankmax == 0 then s
      else s.(ring := Initialised(s.ring, bufmax, bankmax, base), start := s.ring.lsn, out := [], dst := [], got := 0)
    case Start(lsn) => StartStep(s, lsn)
    case Seek(lsn) => if s.ring.stat then StartStep(s, lsn) else s
    case Stop => if s.ring.stat then s.(ring := s.ring.(alarm := false), place := Stopping(Return)) else s
    case Pause => if s.ring.stat then s.(ring := s.ring.(alarm := false), place := Pausing) else s
    case Resume => if s.ring.stat then s.(ring := s.ring.(cb := true), place := Claiming) else s
    case Read(dst, blocking, ee) =>
      if s.ring.stat then s.(place := Reading(blocking, ee), dst := dst, got := 0) else s
    case Go => GoStep(s)
    case Move(i) => if s.place.Moving? then MoveStep(s, i) else s
    case Deposit => if s.ring.drive.Busy? then s.(ring := Deposited(disc, s.ring)) else s
    case Complete => if s.ring.drive.Busy? then s.(ring := Completed(s.ring)) else s
    case Alarm => s.(ring := s.ring.(alarm := false).StartFill())
    case Other(lsn, count, dest, reader) => s.(ring := s.ring.(drive := Busy(lsn, count, dest, 0, reader)))
  }

  // sceCdStStart, which begins with sceCdStStop.
  function StartStep(s: State, lsn: nat): State {
    if s.ring.stat then s.(ring := s.ring.(alarm := false), place := Stopping(Begin(lsn)))
    else s.(place := Beginning(lsn))
  }

  function BeginStep(s: State, lsn: nat): State {
    s.(ring := s.ring.(lsn := lsn, stat := true, cb := true).Reset(), place := Claiming,
       start := lsn, out := [], dst := [], got := 0)
  }

  function GoStep(s: State): State {
    match s.place
    case Ready => s
    case Moving(blocking, n, _) => FinishStep(s, blocking, n)
    case Stopping(next) => s.(ring := s.ring.(cb := false, stat := false).Reset(), place := Syncing(next))
    case Pausing => s.(ring := s.ring.(cb := false), place := Syncing(Return))
    case Syncing(Return) => s.(place := Ready)
    case Syncing(Begin(lsn)) => s.(place := Beginning(lsn))
    case Beginning(lsn) => BeginStep(s, lsn)
    case Claiming =>
      var (g, claimed) := s.ring.Claim();
      s.(ring := g, place := match claimed case Bank(ptr) => Filling(ptr) case Full => Declining case Underway => Ready)
    case Filling(ptr) =>
      var (g, ok) := s.ring.Issue(ptr);
      s.(ring := g, place := if ok then Ready else Refused)
    case Declining => s.(ring := s.ring.GiveUp(), place := Ready)
    case Refused => s.(ring := s.ring.GiveUp(), place := Retrying)
    case Retrying => s.(ring := s.ring.(alarm := true), place := Ready)
    case Reading(blocking, ee) => ReadStep(s, blocking, ee, Takes(s.ring, Wanted(s)))
  }

  // One pass of sceCdStRead's loop.
  function ReadStep(s: State, blocking: bool, ee: bool, n: nat): State {
    if s.got >= |s.dst| then s.(place := Claiming) else TakeStep(s, blocking, ee, n)
  }

  function Wanted(s: State): nat {
    if s.got < |s.dst| then |s.dst| - s.got else 0
  }

  // How many of `want` sectors a pass takes.
  function Takes(g: Ring, want: nat): nat {
    if g.r < g.bufmax then g.Available(want) else 0
  }

  // n sectors are copied out now, or a DMA transfer of them begins.
  function TakeStep(s: State, blocking: bool, ee: bool, n: nat): State {
    if ee && n > 0 then s.(place := Moving(blocking, n, {}))
    else Delivered(s, blocking, ee, n, Splice(s.dst, s.got, s.ring.Taken(n)))
  }

  // The DMA copies sectors in any order, and may be caught in the middle by refills.
  function MoveStep(s: State, i: nat): State
    requires s.place.Moving?
  {
    s.(dst := Splice(s.dst, s.got + i, [s.ring.Held(i)]), place := s.place.(done := s.place.done + {i}))
  }

  function FinishStep(s: State, blocking: bool, n: nat): State {
    Delivered(s, blocking, true, n, s.dst)
  }

  // n more sectors are in dst: they leave the ring, and sceCdStRead goes on or breaks.
  function Delivered(s: State, blocking: bool, ee: bool, n: nat, dst: seq<Sector>): State {
    if n <= s.ring.streamed && n <= s.ring.bufmax && s.ring.r < s.ring.bufmax && s.got + n <= |dst| then
      s.(ring := s.ring.Consume(n), dst := dst, got := s.got + n, out := s.out + dst[s.got..s.got + n],
         place := if blocking then Reading(blocking, ee) else Claiming)
    else s
  }

  function Deposited(disc: Disc, g: Ring): Ring
    requires g.drive.Busy?
  {
    var a := g.drive.dest + g.drive.done;
    g.(mem := Splice(g.mem, a, [disc(U32(g.drive.lsn + g.drive.done))]),
       drive := g.drive.(done := g.drive.done + 1))
  }

  // cdvdman_cdread_Thread after the read, or the end of cdvdman_SyncRead, which has no callback.
  function Completed(g: Ring): Ring
    requires g.drive.Busy?
  {
    if g.drive.reader && g.cb then g.(drive := Free).Callback() else g.(drive := Free)
  }

  // ---- what every run keeps ---------------------------------------------------------------------

  predicate Shape(s: State) {
    && s.ring.Shape()
    && s.got <= |s.dst|
    && (s.ring.reading ==> s.ring.Room() || s.place.Declining?)
    && (s.place.Claiming? || InWindow(s.place) || s.place.Retrying? || s.place.Reading? || s.place.Moving? ==> s.ring.stat)
    && (s.place.Filling? ==> s.ring.base <= s.place.ptr && s.place.ptr + s.ring.banksize <= s.ring.base + s.ring.bufmax)
    && (s.place.Moving? ==>
          && s.place.n <= s.ring.streamed && s.got + s.place.n <= |s.dst|
          && forall i :: i in s.place.done ==> i < s.place.n)
    && (s.place.Stopping? ==> !s.ring.alarm)
    && ((s.place.Stopping? || s.place.Syncing?) && s.place.next.Begin? ==> s.place.next.lsn < LIMIT32)
    && (s.place.Beginning? ==> s.place.lsn < LIMIT32 && !s.ring.stat)
    && (s.place.Syncing? && s.place.next.Begin? ==> !s.ring.stat)
  }

  // The reading flag is up for the consumer, and nothing is being read for it.
  predicate InWindow(p: Place) {
    p.Filling? || p.Declining? || p.Refused?
  }

  /** A callback that finds the flag up over a full ring: it credits a bank there is no room for. */
  predicate Overfills(s: State, e: Event) {
    e.Complete? && s.ring.drive.Busy? && s.ring.drive.reader && s.ring.cb && s.ring.reading && !s.ring.Room()
  }

  lemma ShapeStep(disc: Disc, s: State, e: Event)
    requires Shape(s) && Enabled(s, e) && !Overfills(s, e)
    ensures Shape(Next(disc, s, e))
  {
    match e
    case Init(bufmax, bankmax, base) => InitShape(s.ring, bufmax, bankmax, base);
    case Go => GoShape(disc, s);
    case Complete => CompleteShape(s.ring);
    case Alarm => FillShape(s.ring.(alarm := false));
    case Start(lsn) => StartShape(s, lsn);
    case Seek(lsn) => StartShape(s, lsn);
    case Move(i) => DeviceShape(disc, s, e);
    case Deposit => DeviceShape(disc, s, e);
    case Other(_, _, _, _) => DeviceShape(disc, s, e);
    case _ => CallShape(disc, s, e);
  }

  lemma CallShape(disc: Disc, s: State, e: Event)
    requires Shape(s) && Enabled(s, e) && (e.Stop? || e.Pause? || e.Resume? || e.Read?)
    ensures Shape(Next(disc, s, e))
  {
  }

  lemma StartShape(s: State, lsn: nat)
    requires Shape(s) && s.place.Ready? && lsn < LIMIT32
    ensures Shape(StartStep(s, lsn))
  {
  }

  lemma DeviceShape(disc: Disc, s: State, e: Event)
    requires Shape(s) && Enabled(s, e) && (e.Move? || e.Deposit? || e.Other?)
    ensures Shape(Next(disc, s, e))
  {
  }

  lemma CompleteShape(g: Ring)
    requires g.Shape() && g.drive.Busy?
    requires g.drive.reader && g.cb && g.reading ==> g.Room()
    ensures Completed(g).Shape()
    ensures g.drive.reader && g.cb ==> (Completed(g).reading ==> Completed(g).Room())
    ensures !(g.drive.reader && g.cb) ==> Completed(g) == g.(drive := Free)
    ensures Completed(g).streamed >= g.streamed && Completed(g).base == g.base && Completed(g).stat == g.stat
    ensures Completed(g).alarm ==> g.alarm
    ensures Completed(g).bufmax == g.bufmax && Completed(g).banksize == g.banksize
  {
    var h := g.(drive := Free);
    if g.drive.reader && g.cb {
      if h.reading {
        CreditTaken(h);
      }
      FillShape(h.Credit());
    }
  }

  lemma GoShape(disc: Disc, s: State)
    requires Shape(s) && Enabled(s, Go)
    ensures Shape(GoStep(s))
  {
    match s.place
    case Moving(blocking, n, _) => DeliveredShape(s, blocking, true, n, s.dst);
    case Reading(blocking, ee) =>
      TakesAll(s.ring, Wanted(s));
      ReadingShape(s, blocking, ee, Least(Wanted(s), s.ring.streamed));
    case Claiming => ClaimShape(s.ring);
    case Stopping(_) => QuietShape(s);
    case Pausing => QuietShape(s);
    case _ => QuietShape(s);
  }

  lemma QuietShape(s: State)
    requires Shape(s) && !s.place.Moving? && !s.place.Reading? && !s.place.Claiming?
    ensures Shape(GoStep(s))
  {
  }

  // What is asked for and there.
  lemma TakesAll(g: Ring, want: nat)
    requires g.Circular()
    ensures Takes(g, want) == Least(want, g.streamed)
  {
    AvailableIs(g, want);
  }

  lemma ReadingShape(s: State, blocking: bool, ee: bool, n: nat)
    requires Shape(s) && s.place == Reading(blocking, ee) && n == Least(Wanted(s), s.ring.streamed)
    ensures Shape(ReadStep(s, blocking, ee, n))
  {
    if s.got < |s.dst| && !(ee && n > 0) {
      DeliveredShape(s, blocking, ee, n, Splice(s.dst, s.got, s.ring.Taken(n)));
    }
  }

  lemma DeliveredShape(s: State, blocking: bool, ee: bool, n: nat, dst: seq<Sector>)
    requires Shape(s) && (s.place.Reading? || s.place.Moving?) && n <= s.ring.streamed && s.got + n <= |dst|
    ensures Shape(Delivered(s, blocking, ee, n, dst))
  {
    ConsumeShape(s.ring, n);
  }


  // ---- what the ring and the caller's buffer hold ------------------------------------------------

  // n sectors of the disc, from sector number `from` on.
  function Slice(disc: Disc, from: nat, n: nat): seq<Sector> {
    seq(n, i requires 0 <= i => disc(U32(from + i)))
  }

  lemma SliceSplit(disc: Disc, from: nat, n: nat, m: nat)
    ensures Slice(disc, from, n) + Slice(disc, from + n, m) == Slice(disc, from, n + m)
  {
  }

  lemma SliceWrap(disc: Disc, from: nat, n: nat)
    ensures Slice(disc, U32(from), n) == Slice(disc, from, n)
  {
    forall i: nat | i < n
      ensures Slice(disc, U32(from), n)[i] == Slice(disc, from, n)[i]
    {
      WrapAdd(from, i);
    }
  }

  // Reads in flight stay off the ring.
  predicate Clear(g: Ring) {
    g.drive.Busy? ==> Apart(g, g.drive.dest, g.drive.count)
  }

  // The read in flight fills the bank at the write pointer with the sectors that come next.
  predicate Own(disc: Disc, g: Ring) {
    && g.drive.Busy? && g.drive.reader
    && g.drive.lsn == g.lsn && g.drive.count == g.banksize && g.drive.dest == g.base + g.w
    && g.BankCells(g.drive.done) == Slice(disc, g.lsn, g.drive.done)
  }

  // The bank at the write pointer already holds the sectors that come next.
  predicate Landed(disc: Disc, g: Ring) {
    g.BankCells(g.banksize) == Slice(disc, g.lsn, g.banksize)
  }

  // What the read in flight, if any, is allowed to touch.
  predicate Safe(disc: Disc, g: Ring) {
    if g.reading then g.Room() && (Own(disc, g) || (Landed(disc, g) && Clear(g))) else Idle(g)
  }

  predicate Idle(g: Ring) {
    Clear(g) || g.streamed == 0
  }

  predicate Filled(disc: Disc, g: Ring, place: Place) {
    if InWindow(place) then
      && g.reading && Idle(g) && (g.Room() <==> !place.Declining?)
      && (place.Filling? ==> place.ptr == g.base + g.w)
    else Safe(disc, g)
  }

  // The ring holds the stream from its sector number `from` on, and fetches on from there.
  predicate Buffered(disc: Disc, g: Ring, from: nat) {
    g.stat ==>
      && g.lsn == U32(from + g.streamed)
      && g.Taken(g.streamed) == Slice(disc, from, g.streamed)
  }

  // Everything handed over is the stream from its first sector, without a gap or a repeat, and the
  // current buffer begins with the last `got` sectors of it.
  predicate HandedOver(disc: Disc, start: nat, out: seq<Sector>, dst: seq<Sector>, got: nat) {
    && out == Slice(disc, start, |out|)
    && got <= |out| && got <= |dst|
    && dst[..got] == out[|out| - got..]
  }

  // The part of a DMA transfer that has already been copied is right.
  ghost predicate Moved(disc: Disc, place: Place, dst: seq<Sector>, got: nat, from: nat) {
    place.Moving? ==>
      forall i :: i in place.done ==> got + i < |dst| && dst[got + i] == disc(U32(from + i))
  }

  /** The invariant of the stream engine. */
  ghost predicate Inv(disc: Disc, s: State) {
    && Shape(s)
    && Buffered(disc, s.ring, s.start + |s.out|)
    && HandedOver(disc, s.start, s.out, s.dst, s.got)
    && Moved(disc, s.place, s.dst, s.got, s.start + |s.out|)
    && Filled(disc, s.ring, s.place)
  }

  /** The one harmful coincidence: somebody else's asynchronous read completes while the consumer has the
      reading flag up with nothing being read, so that the callback credits a bank. */
  predicate WindowHit(s: State, e: Event) {
    e.Complete? && InWindow(s.place) && s.ring.drive.Busy? && s.ring.drive.reader && s.ring.cb
  }

  // ---- the ring's part of each step --------------------------------------------------------------

  lemma ClaimKeeps(disc: Disc, g: Ring, from: nat)
    requires g.Shape() && Safe(disc, g) && Buffered(disc, g, from)
    ensures Buffered(disc, g.Claim().0, from)
    ensures !g.Claim().1.Underway? ==> g.Claim().0.reading && Idle(g.Claim().0) && (g.Room() <==> g.Claim().1.Bank?)
    ensures g.Claim().1.Bank? ==> g.Claim().1.ptr == g.base + g.w
    ensures g.Claim().1.Underway? ==> Safe(disc, g.Claim().0)
  {
  }

  lemma IssueKeeps(disc: Disc, g: Ring, ptr: nat, from: nat)
    requires g.Shape() && g.reading && g.Room() && ptr == g.base + g.w && Idle(g) && Buffered(disc, g, from)
    ensures g.Issue(ptr).1 ==> Safe(disc, g.Issue(ptr).0)
    ensures !g.Issue(ptr).1 ==> g.Issue(ptr).0 == g
    ensures Buffered(disc, g.Issue(ptr).0, from) && Safe(disc, g.GiveUp()) && Buffered(disc, g.GiveUp(), from)
  {
    BankFits(g);
    assert g.BankCells(0) == Slice(disc, g.lsn, 0);
  }

  // A refill in one step.
  lemma FillKeeps(disc: Disc, g: Ring, from: nat)
    requires g.Shape() && g.stat && Safe(disc, g) && Buffered(disc, g, from)
    ensures Safe(disc, g.StartFill()) && Buffered(disc, g.StartFill(), from)
    ensures g.reading ==> g.StartFill() == g
  {
    ClaimKeeps(disc, g, from);
    var (h, claimed) := g.Claim();
    if claimed.Bank? {
      IssueKeeps(disc, h, claimed.ptr, from);
    }
  }

  // ... which finds the flag up while the consumer is in the window.
  lemma AlarmKeeps(disc: Disc, g: Ring, from: nat, place: Place)
    requires g.Shape() && g.stat && Filled(disc, g, place) && Buffered(disc, g, from)
    ensures Filled(disc, g.StartFill(), place) && Buffered(disc, g.StartFill(), from)
  {
    if !InWindow(place) {
      FillKeeps(disc, g, from);
    }
  }

  /** A sector that arrives from the device never lands on a buffered one. */
  lemma DepositMissesHeld(disc: Disc, g: Ring)
    requires g.Shape() && (Idle(g) || Safe(disc, g))
    requires g.drive.Busy? && g.drive.done < g.drive.count
    ensures Deposited(disc, g).Taken(g.streamed) == g.Taken(g.streamed)
  {
    var h := Deposited(disc, g);
    forall i: nat | i < g.streamed
      ensures h.Held(i) == g.Held(i)
    {
      if !Clear(g) {
        BankMissesHeld(g, i, g.drive.done);
      }
    }
  }

  lemma DepositKeeps(disc: Disc, g: Ring, from: nat)
    requires g.Shape() && (Idle(g) || Safe(disc, g)) && Buffered(disc, g, from)
    requires g.drive.Busy? && g.drive.done < g.drive.count
    ensures Buffered(disc, Deposited(disc, g), from)
    ensures Idle(g) ==> Idle(Deposited(disc, g))
    ensures Safe(disc, g) ==> Safe(disc, Deposited(disc, g))
  {
    DepositMissesHeld(disc, g);
    var h := Deposited(disc, g);
    if Own(disc, g) {
      DepositExtends(disc, g);
    }
    if Clear(g) {
      BankFits(g);
      assert h.BankCells(h.banksize) == g.BankCells(g.banksize);
    }
  }

  lemma DepositExtends(disc: Disc, g: Ring)
    requires g.Shape() && Own(disc, g) && g.drive.done < g.drive.count
    ensures Own(disc, Deposited(disc, g))
  {
    BankFits(g);
    var h, x := Deposited(disc, g), disc(U32(g.lsn + g.drive.done));
    SliceSplit(disc, g.lsn, g.drive.done, 1);
    assert Slice(disc, g.lsn + g.drive.done, 1) == [x];
    assert h.BankCells(h.drive.done) == g.BankCells(g.drive.done) + [x];
  }

  // The bank that has just been read is the continuation of what the ring holds.
  lemma CreditKeeps(disc: Disc, g: Ring, from: nat)
    requires g.Shape() && g.drive.Free? && Safe(disc, g) && Buffered(disc, g, from)
    ensures g.Credit().Shape() && Safe(disc, g.Credit()) && Buffered(disc, g.Credit(), from)
  {
    if g.reading {
      CreditTaken(g);
      SliceSplit(disc, from, g.streamed, g.banksize);
      SliceWrap(disc, from + g.streamed, g.banksize);
      WrapAdd(from + g.streamed, g.banksize);
    }
  }

  lemma CompleteKeeps(disc: Disc, g: Ring, from: nat)
    requires g.Shape() && Safe(disc, g) && Buffered(disc, g, from)
    requires g.drive.Busy? && g.drive.done == g.drive.count
    ensures Safe(disc, Completed(g)) && Buffered(disc, Completed(g), from)
  {
    var h := g.(drive := Free);
    if g.drive.reader && g.cb {
      CreditKeeps(disc, h, from);
      FillKeeps(disc, h.Credit(), from);
    }
  }

  // ---- the whole step -------------------------------------------------------------------------

  lemma InvStep(disc: Disc, s: State, e: Event)
    requires Inv(disc, s) && Enabled(s, e) && !WindowHit(s, e)
    ensures Inv(disc, Next(disc, s, e))
  {
    ShapeStep(disc, s, e);
    match e
    case Go => InvGo(disc, s);
    case Move(i) => InvMove(disc, s, i);
    case Deposit => DepositKeeps(disc, s.ring, s.start + |s.out|);
    case Complete => InvComplete(disc, s);
    case Alarm => InvAlarm(disc, s);
    case Other(_, _, _, _) => InvOther(disc, s, e);
    case _ => InvCall(disc, s, e);
  }

  lemma InvAlarm(disc: Disc, s: State)
    requires Inv(disc, s) && s.ring.alarm
    requires Shape(s.(ring := s.ring.(alarm := false).StartFill()))
    ensures Inv(disc, s.(ring := s.ring.(alarm := false).StartFill()))
  {
    var g := s.ring.(alarm := false);
    AlarmKeeps(disc, g, s.start + |s.out|, s.place);
    InvRing(disc, s, g.StartFill());
  }

  // Only the ring changes.
  lemma InvRing(disc: Disc, s: State, g: Ring)
    requires Inv(disc, s) && Shape(s.(ring := g))
    requires Buffered(disc, g, s.start + |s.out|) && Filled(disc, g, s.place)
    ensures Inv(disc, s.(ring := g))
  {
  }

  lemma InvComplete(disc: Disc, s: State)
    requires Inv(disc, s) && Enabled(s, Complete) && !WindowHit(s, Complete)
    requires Shape(s.(ring := Completed(s.ring)))
    ensures Inv(disc, s.(ring := Completed(s.ring)))
  {
    if !InWindow(s.place) {
      CompleteKeeps(disc, s.ring, s.start + |s.out|);
      InvRing(disc, s, Completed(s.ring));
    }
  }

  lemma InvOther(disc: Disc, s: State, e: Event)
    requires Inv(disc, s) && e.Other? && Enabled(s, e)
    requires Shape(Next(disc, s, e))
    ensures Inv(disc, Next(disc, s, e))
  {
  }

  // The calls themselves, up to their first critical section.
  lemma InvCall(disc: Disc, s: State, e: Event)
    requires Inv(disc, s) && Enabled(s, e) && s.place.Ready?
    requires e.Init? || e.Start? || e.Stop? || e.Pause? || e.Resume? || e.Seek? || e.Read?
    requires Shape(Next(disc, s, e))
    ensures Inv(disc, Next(disc, s, e))
  {
    match e
    case Start(lsn) => InvStart(disc, s, lsn);
    case Seek(lsn) => InvStart(disc, s, lsn);
    case Init(_, _, _) => InvInit(disc, s, e);
    case Read(dst, _, _) => InvRead(disc, s, e);
    case Stop => if s.ring.stat { InvTurn(disc, s, s.ring.(alarm := false), Stopping(Return)); }
    case Pause => if s.ring.stat { InvTurn(disc, s, s.ring.(alarm := false), Pausing); }
    case Resume => if s.ring.stat { InvTurn(disc, s, s.ring.(cb := true), Claiming); }
  }

  lemma InvInit(disc: Disc, s: State, e: Event)
    requires Inv(disc, s) && e.Init? && Enabled(s, e) && Shape(Next(disc, s, e))
    ensures Inv(disc, Next(disc, s, e))
  {
  }

  lemma InvRead(disc: Disc, s: State, e: Event)
    requires Inv(disc, s) && e.Read? && Enabled(s, e) && Shape(Next(disc, s, e))
    ensures Inv(disc, Next(disc, s, e))
  {
  }

  // Only the alarm, the callback and the consumer's place change.
  lemma InvTurn(disc: Disc, s: State, g: Ring, p: Place)
    requires Inv(disc, s) && !InWindow(s.place) && !InWindow(p) && !p.Moving?
    requires g == s.ring.(alarm := g.alarm, cb := g.cb) && Shape(s.(ring := g, place := p))
    ensures Inv(disc, s.(ring := g, place := p))
  {
  }

  lemma InvStart(disc: Disc, s: State, lsn: nat)
    requires Inv(disc, s) && s.place.Ready? && lsn < LIMIT32
    requires Shape(StartStep(s, lsn))
    ensures Inv(disc, StartStep(s, lsn))
  {
  }

  lemma InvGo(disc: Disc, s: State)
    requires Inv(disc, s) && Enabled(s, Go)
    requires Shape(GoStep(s))
    ensures Inv(disc, GoStep(s))
  {
    match s.place
    case Moving(blocking, n, _) => InvFinish(disc, s);
    case Reading(blocking, ee) =>
      TakesAll(s.ring, Wanted(s));
      InvReading(disc, s, blocking, ee, Least(Wanted(s), s.ring.streamed));
    case Claiming => InvClaim(disc, s);
    case Filling(_) => InvIssue(disc, s);
    case Declining => InvGiveUp(disc, s, Ready);
    case Refused => InvGiveUp(disc, s, Retrying);
    case Retrying => InvTurn(disc, s, s.ring.(alarm := true), Ready);
    case _ => InvQuiet(disc, s);
  }

  lemma InvFinish(disc: Disc, s: State)
    requires Inv(disc, s) && Enabled(s, Go) && s.place.Moving?
    ensures Inv(disc, GoStep(s))
  {
    InvMoved(disc, s);
    InvDelivered(disc, s, s.place.blocking, true, s.place.n, s.dst);
  }

  lemma InvClaim(disc: Disc, s: State)
    requires Inv(disc, s) && s.place.Claiming? && Shape(GoStep(s))
    ensures Inv(disc, GoStep(s))
  {
    ClaimKeeps(disc, s.ring, s.start + |s.out|);
  }

  lemma InvIssue(disc: Disc, s: State)
    requires Inv(disc, s) && s.place.Filling? && Shape(GoStep(s))
    ensures Inv(disc, GoStep(s))
  {
    IssueKeeps(disc, s.ring, s.place.ptr, s.start + |s.out|);
  }

  lemma InvGiveUp(disc: Disc, s: State, p: Place)
    requires Inv(disc, s) && (s.place.Declining? || s.place.Refused?) && (p.Ready? || p.Retrying?)
    requires Shape(s.(ring := s.ring.GiveUp(), place := p))
    ensures Inv(disc, s.(ring := s.ring.GiveUp(), place := p))
  {
  }

  lemma InvQuiet(disc: Disc, s: State)
    requires Inv(disc, s) && (s.place.Stopping? || s.place.Pausing? || s.place.Syncing? || s.place.Beginning?)
    requires Shape(GoStep(s)) && Enabled(s, Go)
    ensures Inv(disc, GoStep(s))
  {
  }

  lemma InvMoved(disc: Disc, s: State)
    requires Inv(disc, s) && s.place.Moving? && Enabled(s, Go)
    ensures s.dst[s.got..s.got + s.place.n] == Slice(disc, s.start + |s.out|, s.place.n)
  {
    var x, y := s.dst[s.got..s.got + s.place.n], Slice(disc, s.start + |s.out|, s.place.n);
    forall i: nat | i < s.place.n
      ensures x[i] == y[i]
    {
      assert i in s.place.done;
    }
  }

  lemma InvReading(disc: Disc, s: State, blocking: bool, ee: bool, n: nat)
    requires Inv(disc, s) && s.place == Reading(blocking, ee) && n == Least(Wanted(s), s.ring.streamed)
    requires Shape(ReadStep(s, blocking, ee, n))
    ensures Inv(disc, ReadStep(s, blocking, ee, n))
  {
    if s.got >= |s.dst| {
      InvPlace(disc, s, Claiming);
    } else {
      InvTake(disc, s, blocking, ee, n);
    }
  }

  lemma InvTake(disc: Disc, s: State, blocking: bool, ee: bool, n: nat)
    requires Inv(disc, s) && s.place.Reading? && n <= s.ring.streamed && s.got + n <= |s.dst|
    ensures Inv(disc, TakeStep(s, blocking, ee, n))
  {
    if ee && n > 0 {
      InvPlace(disc, s, Moving(blocking, n, {}));
    } else {
      OldestAre(disc, s.ring, s.start + |s.out|, n);
      SpliceHere(s.dst, s.got, s.ring.Taken(n));
      InvDelivered(disc, s, blocking, ee, n, Splice(s.dst, s.got, s.ring.Taken(n)));
    }
  }

  // The consumer goes on to another place and nothing else happens.
  lemma InvPlace(disc: Disc, s: State, p: Place)
    requires Inv(disc, s) && !InWindow(s.place) && !InWindow(p) && (p.Moving? ==> p.done == {})
    requires Shape(s.(place := p))
    ensures Inv(disc, s.(place := p))
  {
  }

  // The n oldest buffered sectors are the next n of the stream.
  lemma OldestAre(disc: Disc, g: Ring, from: nat, n: nat)
    requires g.stat && n <= g.streamed && Buffered(disc, g, from)
    ensures g.Taken(n) == Slice(disc, from, n)
  {
    var all, some := g.Taken(g.streamed), g.Taken(n);
    assert all[..n] == some;
    assert Slice(disc, from, g.streamed)[..n] == Slice(disc, from, n);
  }

  lemma SpliceHere(s: seq<Sector>, at: nat, x: seq<Sector>)
    requires at + |x| <= |s|
    ensures Splice(s, at, x)[..at] == s[..at] && Splice(s, at, x)[at..at + |x|] == x
  {
  }

  lemma InvDelivered(disc: Disc, s: State, blocking: bool, ee: bool, n: nat, dst: seq<Sector>)
    requires Shape(s) && (s.place.Reading? || s.place.Moving?) && n <= s.ring.streamed && s.got + n <= |dst|
    requires Buffered(disc, s.ring, s.start + |s.out|) && Safe(disc, s.ring)
    requires HandedOver(disc, s.start, s.out, s.dst, s.got)
    requires dst[..s.got] == s.dst[..s.got]
    requires dst[s.got..s.got + n] == Slice(disc, s.start + |s.out|, n)
    ensures Inv(disc, Delivered(s, blocking, ee, n, dst))
  {
    var t := State(s.ring.Consume(n), if blocking then Reading(blocking, ee) else Claiming, dst, s.got + n, s.start,
                   s.out + dst[s.got..s.got + n]);
    assert Delivered(s, blocking, ee, n, dst) == t by {
      DeliveredIs(s, blocking, ee, n, dst);
    }
    DeliveredShape(s, blocking, ee, n, dst);
    ConsumeKeeps(disc, s.ring, n, s.start + |s.out|);
    HandOver(disc, s.start, s.out, s.dst, s.got, n, dst);
    InvBetween(disc, t);
  }

  lemma DeliveredIs(s: State, blocking: bool, ee: bool, n: nat, dst: seq<Sector>)
    requires s.ring.Circular() && n <= s.ring.streamed && s.got + n <= |dst|
    ensures Delivered(s, blocking, ee, n, dst)
         == State(s.ring.Consume(n), if blocking then Reading(blocking, ee) else Claiming, dst, s.got + n, s.start,
                  s.out + dst[s.got..s.got + n])
  {
  }

  // The invariant while no transfer is in flight and the consumer is not in the window.
  lemma InvBetween(disc: Disc, s: State)
    requires Shape(s) && Buffered(disc, s.ring, s.start + |s.out|) && HandedOver(disc, s.start, s.out, s.dst, s.got)
    requires Safe(disc, s.ring) && !s.place.Moving? && !InWindow(s.place)
    ensures Inv(disc, s)
  {
  }

  lemma ConsumeKeeps(disc: Disc, g: Ring, n: nat, from: nat)
    requires g.Shape() && g.stat && n <= g.streamed && Buffered(disc, g, from)
    ensures Buffered(disc, g.Consume(n), from + n)
    ensures Safe(disc, g) ==> Safe(disc, g.Consume(n))
  {
    var m := g.streamed - n;
    QueueTwice(g.mem, g.base, g.bufmax, g.r, n, m);
    SliceSplit(disc, from, n, m);
    assert g.Consume(n).Taken(m) == g.Taken(g.streamed)[n..];
    assert Slice(disc, from + n, m) == Slice(disc, from, g.streamed)[n..];
  }

  lemma HandOver(disc: Disc, start: nat, out: seq<Sector>, dst: seq<Sector>, got: nat, n: nat, dst': seq<Sector>)
    requires HandedOver(disc, start, out, dst, got)
    requires got + n <= |dst'| && dst'[..got] == dst[..got]
    requires dst'[got..got + n] == Slice(disc, start + |out|, n)
    ensures HandedOver(disc, start, out + dst'[got..got + n], dst', got + n)
  {
    SliceSplit(disc, start, |out|, n);
    assert dst'[..got + n] == dst'[..got] + dst'[got..got + n];
  }

  lemma InvMove(disc: Disc, s: State, i: nat)
    requires Inv(disc, s) && Enabled(s, Move(i))
    requires Shape(MoveStep(s, i))
    ensures Inv(disc, MoveStep(s, i))
  {
    var dst := MoveStep(s, i).dst;
    assert Moved(disc, s.place.(done := s.place.done + {i}), dst, s.got, s.start + |s.out|) by {
      MoveMoves(disc, s, i);
    }
    assert HandedOver(disc, s.start, s.out, dst, s.got) by {
      SpliceBehind(s.dst, s.got, s.got + i, [s.ring.Held(i)]);
    }
  }

  lemma MoveMoves(disc: Disc, s: State, i: nat)
    requires s.place.Moving? && s.ring.stat && i < s.ring.streamed && s.got + i < |s.dst|
    requires Buffered(disc, s.ring, s.start + |s.out|) && Moved(disc, s.place, s.dst, s.got, s.start + |s.out|)
    ensures Moved(disc, MoveStep(s, i).place, MoveStep(s, i).dst, s.got, s.start + |s.out|)
  {
    HeldIs(disc, s.ring, s.start + |s.out|, i);
    MovedMore(disc, s.place, s.dst, s.got, s.start + |s.out|, i, s.ring.Held(i));
  }

  lemma SpliceBehind(s: seq<Sector>, n: nat, at: nat, x: seq<Sector>)
    requires n <= at && n <= |s|
    ensures Splice(s, at, x)[..n] == s[..n]
  {
  }

  lemma MovedMore(disc: Disc, place: Place, dst: seq<Sector>, got: nat, from: nat, i: nat, x: Sector)
    requires place.Moving? && Moved(disc, place, dst, got, from) && got + i < |dst| && x == disc(U32(from + i))
    ensures Moved(disc, place.(done := place.done + {i}), Splice(dst, got + i, [x]), got, from)
  {
  }

  lemma HeldIs(disc: Disc, g: Ring, from: nat, i: nat)
    requires Buffered(disc, g, from) && g.stat && i < g.streamed
    ensures g.Held(i) == disc(U32(from + i))
  {
    assert g.Held(i) == g.Taken(g.streamed)[i] == Slice(disc, from, g.streamed)[i];
  }

  // ---- runs ------------------------------------------------------------------------------------

  // The state sceCdStInit leaves at power-up.
  function Boot(bufmax: nat, bankmax: nat, base: nat, mem: seq<Sector>): State
    requires 0 < bankmax
  {
    var off := Ring(0, 0, 0, 0, 0, 0, false, false, 0, 0, false, false, Free, mem);
    State(Initialised(off, bufmax, bankmax, base), Ready, [], 0, 0, [])
  }

  function After(disc: Disc, s: State, es: seq<Event>): State
    decreases |es|
  {
    if es == [] then s else After(disc, Next(disc, s, es[0]), es[1..])
  }

  // Every event is possible where it happens.
  ghost predicate Run(disc: Disc, s: State, es: seq<Event>)
    decreases |es|
  {
    es == [] || (Enabled(s, es[0]) && Run(disc, Next(disc, s, es[0]), es[1..]))
  }

  // Nobody else's read completes between a claim and its issue.
  predicate Clean(disc: Disc, s: State, es: seq<Event>)
    decreases |es|
  {
    es == [] || (!WindowHit(s, es[0]) && Clean(disc, Next(disc, s, es[0]), es[1..]))
  }

  lemma BootInv(disc: Disc, bufmax: nat, bankmax: nat, base: nat, mem: seq<Sector>)
    requires 0 < bankmax <= bufmax < LIMIT16 && base + bufmax <= |mem|
    ensures Inv(disc, Boot(bufmax, bankmax, base, mem))
  {
    InitShape(Ring(0, 0, 0, 0, 0, 0, false, false, 0, 0, false, false, Free, mem), bufmax, bankmax, base);
  }

  // No completion credits a bank to a full ring.
  predicate Roomy(disc: Disc, s: State, es: seq<Event>)
    decreases |es|
  {
    es == [] || (!Overfills(s, es[0]) && Roomy(disc, Next(disc, s, es[0]), es[1..]))
  }

  lemma {:induction false} ShapeRun(disc: Disc, s: State, es: seq<Event>)
    requires Shape(s) && Run(disc, s, es) && Roomy(disc, s, es)
    ensures Shape(After(disc, s, es))
    decreases |es|
  {
    if es != [] {
      ShapeStep(disc, s, es[0]);
      ShapeRun(disc, Next(disc, s, es[0]), es[1..]);
    }
  }

  lemma {:induction false} InvRun(disc: Disc, s: State, es: seq<Event>)
    requires Inv(disc, s) && Run(disc, s, es) && Clean(disc, s, es)
    ensures Inv(disc, After(disc, s, es))
    decreases |es|
  {
    if es != [] {
      InvStep(disc, s, es[0]);
      InvRun(disc, Next(disc, s, es[0]), es[1..]);
    }
  }

  // ---- what the callers asked for ------------------------------------------------------------------

  // The sector of the last start or effective seek, the buffer of the last effective sceCdStRead, and the memory of
  // the last initialisation, after which a running stream goes on where it was about to fetch.
  datatype Calls = Calls(lsn: nat, dst: seq<Sector>, base: nat, bufmax: nat)

  function Called(s: State, c: Calls, e: Event): Calls {
    match e
    case Start(lsn) => c.(lsn := lsn)
    case Seek(lsn) => if s.ring.stat then c.(lsn := lsn) else c
    case Read(dst, _, _) => if s.ring.stat then c.(dst := dst) else c
    case Init(bufmax, bankmax, base) => Calls(s.ring.lsn, [], base, bufmax)
    case _ => c
  }

  function CallsOf(disc: Disc, s: State, c: Calls, es: seq<Event>): Calls
    decreases |es|
  {
    if es == [] then c else CallsOf(disc, Next(disc, s, es[0]), Called(s, c, es[0]), es[1..])
  }

  // sceCdStStart is on its way to its critical section.
  predicate Starting(p: Place) {
    p.Beginning? || ((p.Stopping? || p.Syncing?) && p.next.Begin?)
  }

  function Towards(p: Place): nat
    requires Starting(p)
  {
    if p.Beginning? then p.lsn else p.next.lsn
  }

  // The stream is the one asked for, or on its way to it; the ring lies in the memory it was given; and of the buffer it
  // was given a read has changed no more than it has filled or is filling.
  predicate AsCalled(s: State, c: Calls) {
    && (if Starting(s.place) then Towards(s.place) == c.lsn else s.start == c.lsn)
    && s.ring.base == c.base && s.ring.bufmax <= c.bufmax
    && (s.place.Reading? || s.place.Moving? || s.got > 0 ==> BufferKept(s, c.dst))
  }

  predicate BufferKept(s: State, dst: seq<Sector>) {
    var filled := s.got + if s.place.Moving? then s.place.n else 0;
    |s.dst| == |dst| && filled <= |dst| && s.dst[filled..] == dst[filled..]
  }

  lemma AsCalledStep(disc: Disc, s: State, c: Calls, e: Event)
    requires Shape(s) && AsCalled(s, c) && Enabled(s, e)
    ensures AsCalled(Next(disc, s, e), Called(s, c, e))
  {
    match e
    case Init(bufmax, bankmax, base) => InitShape(s.ring, bufmax, bankmax, base);
    case Go => GoAsCalled(s, c);
    case Complete => CompleteAsCalled(s.ring);
    case Move(i) => MoveAsCalled(s, c, i);
    case Alarm => FillShape(s.ring.(alarm := false));
    case _ =>
  }

  lemma GoAsCalled(s: State, c: Calls)
    requires Shape(s) && AsCalled(s, c) && Enabled(s, Go)
    ensures AsCalled(GoStep(s), c)
  {
    match s.place
    case Reading(blocking, ee) =>
      TakesAll(s.ring, Wanted(s));
      TakeAsCalled(s, c, blocking, ee, Least(Wanted(s), s.ring.streamed));
    case Moving(blocking, n, _) => FinishAsCalled(s, c, blocking, n);
    case _ => QuietAsCalled(s, c);
  }

  lemma FinishAsCalled(s: State, c: Calls, blocking: bool, n: nat)
    requires Shape(s) && AsCalled(s, c) && s.place.Moving? && s.place.n == n
    ensures AsCalled(FinishStep(s, blocking, n), c)
  {
    DeliveredIs(s, blocking, true, n, s.dst);
  }

  lemma QuietAsCalled(s: State, c: Calls)
    requires Shape(s) && AsCalled(s, c) && !s.place.Moving? && !s.place.Reading?
    ensures AsCalled(GoStep(s), c)
  {
  }

  lemma MoveAsCalled(s: State, c: Calls, i: nat)
    requires Shape(s) && AsCalled(s, c) && Enabled(s, Move(i))
    ensures AsCalled(MoveStep(s, i), c)
  {
  }

  lemma TakeAsCalled(s: State, c: Calls, blocking: bool, ee: bool, n: nat)
    requires Shape(s) && AsCalled(s, c) && s.place == Reading(blocking, ee) && n == Least(Wanted(s), s.ring.streamed)
    ensures AsCalled(ReadStep(s, blocking, ee, n), c)
  {
    if s.got < |s.dst| && !(ee && n > 0) {
      var dst := Splice(s.dst, s.got, s.ring.Taken(n));
      assert dst[s.got + n..] == s.dst[s.got..][n..];
    }
  }

  lemma CompleteAsCalled(g: Ring)
    requires g.drive.Busy?
    ensures Completed(g).base == g.base && Completed(g).bufmax == g.bufmax
  {
  }

  /** Every run follows the calls made in it, in the window or not. */
  lemma {:induction false} RunAsCalled(disc: Disc, s: State, c: Calls, es: seq<Event>)
    requires Shape(s) && AsCalled(s, c) && Run(disc, s, es) && Roomy(disc, s, es)
    ensures AsCalled(After(disc, s, es), CallsOf(disc, s, c, es))
    decreases |es|
  {
    if es != [] {
      AsCalledStep(disc, s, c, es[0]);
      ShapeStep(disc, s, es[0]);
      RunAsCalled(disc, Next(disc, s, es[0]), Called(s, c, es[0]), es[1..]);
    }
  }

  lemma {:induction false} CleanRoomy(disc: Disc, s: State, es: seq<Event>)
    requires Shape(s) && Run(disc, s, es) && Clean(disc, s, es)
    ensures Roomy(disc, s, es)
    decreases |es|
  {
    if es != [] {
      assert !Overfills(s, es[0]);
      ShapeStep(disc, s, es[0]);
      CleanRoomy(disc, Next(disc, s, es[0]), es[1..]);
    }
  }

  /** What was handed over since the stream began at sector `start` is exactly the disc from that sector on,
      the buffer of the current call holds the last part of it in one piece, and the stream goes on
      behind what is buffered. */
  ghost predicate Delivers(disc: Disc, t: State) {
    && (forall i: nat :: i < |t.out| ==> t.out[i] == disc(U32(t.start + i)))
    && t.got <= |t.dst| && t.got <= |t.out|
    && t.dst[..t.got] == t.out[|t.out| - t.got..]
    && (t.ring.stat ==> t.ring.lsn == U32(t.start + |t.out| + t.ring.streamed))
  }

  /** Safety over whole runs: the stream delivered is the one last asked for, into the buffer last given. */
  lemma StreamDelivers(disc: Disc, bufmax: nat, bankmax: nat, base: nat, mem: seq<Sector>, es: seq<Event>)
    requires 0 < bankmax <= bufmax < LIMIT16 && base + bufmax <= |mem|
    requires Run(disc, Boot(bufmax, bankmax, base, mem), es) && Clean(disc, Boot(bufmax, bankmax, base, mem), es)
    ensures Delivers(disc, After(disc, Boot(bufmax, bankmax, base, mem), es))
    ensures var s := Boot(bufmax, bankmax, base, mem);
      AsCalled(After(disc, s, es), CallsOf(disc, s, Calls(0, [], base, bufmax), es))
  {
    var s := Boot(bufmax, bankmax, base, mem);
    BootInv(disc, bufmax, bankmax, base, mem);
    InvRun(disc, s, es);
    CleanRoomy(disc, s, es);
    InitShape(Ring(0, 0, 0, 0, 0, 0, false, false, 0, 0, false, false, Free, mem), bufmax, bankmax, base);
    RunAsCalled(disc, s, Calls(0, [], base, bufmax), es);
  }

  /** While a DMA transfer is in flight no bank that AllocBank could hand out overlaps the sectors being
      copied. This holds in every run that never overfills the ring, clean or not. */
  lemma TransferUndisturbed(disc: Disc, bufmax: nat, bankmax: nat, base: nat, mem: seq<Sector>,
                            es: seq<Event>, i: nat, j: nat)
    requires 0 < bankmax <= bufmax < LIMIT16 && base + bufmax <= |mem|
    requires Run(disc, Boot(bufmax, bankmax, base, mem), es) && Roomy(disc, Boot(bufmax, bankmax, base, mem), es)
    requires var t := After(disc, Boot(bufmax, bankmax, base, mem), es);
      t.place.Moving? && i < t.place.n && t.ring.Room() && j < t.ring.banksize
    ensures var t := After(disc, Boot(bufmax, bankmax, base, mem), es);
      t.ring.base + t.ring.Slot(i) != t.ring.base + t.ring.w + j
  {
    BootInv(disc, bufmax, bankmax, base, mem);
    ShapeRun(disc, Boot(bufmax, bankmax, base, mem), es);
    BankMissesHeld(After(disc, Boot(bufmax, bankmax, base, mem), es).ring, i, j);
  }

  /** A stream begins with nothing: no sector or bank of an earlier stream is in the ring or will be credited
      to it, not even a read still in flight. */
  lemma FreshStream(disc: Disc, s: State)
    requires Inv(disc, s) && s.place.Beginning?
    ensures var t := Next(disc, s, Go);
      && Inv(disc, t) && t.start == t.ring.lsn == s.place.lsn && t.out == []
      && t.ring.streamed == 0 && t.ring.Room() && t.ring.Credit() == t.ring
  {
    ShapeStep(disc, s, Go);
    InvStep(disc, s, Go);
  }

  /** Once a stream has been stopped neither a completion nor the alarm touches the ring again. */
  lemma StopSilences(disc: Disc, s: State)
    requires Shape(s) && s.place.Stopping?
    ensures var t := Next(disc, s, Go);
      && t.ring.streamed == 0 && !t.ring.stat && !Enabled(t, Alarm)
      && (t.ring.drive.Busy? ==> Completed(t.ring) == t.ring.(drive := Free))
  {
    ShapeStep(disc, s, Go);
  }

  // ---- the window between claim and issue -----------------------------------------------------------

  // The ring describes a queue, and it holds the stream from sector `from` on.
  predicate Sound(disc: Disc, g: Ring, from: nat) {
    g.Circular() && Buffered(disc, g, from)
  }

  /** What a completion does to the ring, exactly: it stays sound unless it falls in the window. There it never
      stays sound over a full ring, and otherwise only if the credited bank happened to hold the right
      sectors already. */
  lemma CompletionSoundIff(disc: Disc, s: State)
    requires Inv(disc, s) && Enabled(s, Complete) && s.ring.stat
    ensures Sound(disc, Next(disc, s, Complete).ring, s.start + |s.out|)
            <==> !WindowHit(s, Complete) || (!s.place.Declining? && Landed(disc, s.ring))
  {
    var from := s.start + |s.out|;
    if !WindowHit(s, Complete) {
      NoHitSound(disc, s);
    } else if s.place.Declining? {
      OverfillBreaks(disc, s.ring, from);
    } else {
      HitSoundIff(disc, s.ring, from);
    }
    assert Next(disc, s, Complete).ring == Completed(s.ring);
  }

  lemma NoHitSound(disc: Disc, s: State)
    requires Inv(disc, s) && Enabled(s, Complete) && !WindowHit(s, Complete)
    ensures Sound(disc, Completed(s.ring), s.start + |s.out|)
  {
    InvStep(disc, s, Complete);
    assert Inv(disc, Next(disc, s, Complete));
  }

  // A bank too many: the count no longer fits the pointers, or has wrapped and no longer fits the disc.
  lemma OverfillBreaks(disc: Disc, g: Ring, from: nat)
    requires g.Shape() && g.stat && g.reading && !g.Room() && Buffered(disc, g, from)
    requires g.drive.Busy? && g.drive.reader && g.cb
    ensures !Sound(disc, Completed(g), from)
  {
    var h := g.(drive := Free);
    CreditBreaks(disc, h, from);
    RefillTouchesNothing(disc, h.Credit(), from);
  }

  lemma CreditBreaks(disc: Disc, g: Ring, from: nat)
    requires g.Shape() && g.stat && g.reading && !g.Room() && Buffered(disc, g, from)
    ensures !Sound(disc, g.Credit(), from)
  {
    var n, h := g.streamed + g.banksize, g.Credit();
    WrapAdd(from + g.streamed, g.banksize);
    assert h.lsn == U32(from + n) && h.streamed == U16(n);
    if n < LIMIT16 {
      assert !h.Circular();
    } else {
      assert h.streamed == n - LIMIT16 && U32(from + n) != U32(from + n - LIMIT16);
    }
  }

  lemma HitSoundIff(disc: Disc, g: Ring, from: nat)
    requires g.Shape() && g.reading && g.Room() && Buffered(disc, g, from)
    requires g.drive.Busy? && g.drive.reader && g.cb
    ensures Sound(disc, Completed(g), from) <==> Landed(disc, g)
  {
    var h := g.(drive := Free);
    CreditTaken(h);
    CreditSoundIff(disc, h, from);
    RefillTouchesNothing(disc, h.Credit(), from);
  }

  lemma RefillTouchesNothing(disc: Disc, g: Ring, from: nat)
    ensures Sound(disc, g.StartFill(), from) <==> Sound(disc, g, from)
  {
  }

  lemma SameTail<T>(x: seq<T>, y: seq<T>, z: seq<T>)
    ensures x + y == x + z <==> y == z
  {
    assert (x + y)[|x|..] == y && (x + z)[|x|..] == z;
  }

  lemma CreditSoundIff(disc: Disc, g: Ring, from: nat)
    requires g.Shape() && g.reading && g.Room() && g.stat && Buffered(disc, g, from)
    ensures Buffered(disc, g.Credit(), from) <==> Landed(disc, g)
  {
    CreditedIs(disc, g, from);
    SameTail(g.Taken(g.streamed), g.BankCells(g.banksize), Slice(disc, g.lsn, g.banksize));
  }

  // What a credited ring has to hold.
  lemma CreditedIs(disc: Disc, g: Ring, from: nat)
    requires g.Shape() && g.reading && g.Room() && g.stat && Buffered(disc, g, from)
    ensures Buffered(disc, g.Credit(), from) <==>
      g.Taken(g.streamed) + g.BankCells(g.banksize) == g.Taken(g.streamed) + Slice(disc, g.lsn, g.banksize)
  {
    CreditTaken(g);
    SliceWrap(disc, from + g.streamed, g.banksize);
    WrapAdd(from + g.streamed, g.banksize);
    SliceSplit(disc, from, g.streamed, g.banksize);
  }

  // ---- two runs through it -------------------------------------------------------------------------

  // Runs one behind the other.
  lemma Before(disc: Disc, s: State, e: Event, es: seq<Event>)
    requires Enabled(s, e) && Run(disc, Next(disc, s, e), es)
    ensures Run(disc, s, [e] + es) && After(disc, s, [e] + es) == After(disc, Next(disc, s, e), es)
  {
    assert ([e] + es)[1..] == es;
  }

  lemma HeadFirst<T>(es: seq<T>, fs: seq<T>)
    requires es != []
    ensures es == [es[0]] + es[1..] && es + fs == [es[0]] + (es[1..] + fs)
  {
  }

  lemma Unfold(disc: Disc, s: State, e: Event, es: seq<Event>)
    requires Run(disc, s, [e] + es)
    ensures Enabled(s, e) && Run(disc, Next(disc, s, e), es)
    ensures After(disc, s, [e] + es) == After(disc, Next(disc, s, e), es)
  {
    assert ([e] + es)[1..] == es;
  }

  lemma {:induction false} Behind(disc: Disc, s: State, es: seq<Event>, fs: seq<Event>)
    requires Run(disc, s, es) && Run(disc, After(disc, s, es), fs)
    ensures Run(disc, s, es + fs) && After(disc, s, es + fs) == After(disc, After(disc, s, es), fs)
    decreases |es|
  {
    if es == [] {
      assert es + fs == fs;
    } else {
      var e, rest := es[0], es[1..];
      HeadFirst(es, fs);
      Unfold(disc, s, e, rest);
      Behind(disc, Next(disc, s, e), rest, fs);
      Before(disc, s, e, rest + fs);
    }
  }

  // Three events with the states between them.
  lemma Steps3(disc: Disc, s: State, a: Event, b: Event, c: Event) returns (es: seq<Event>)
    requires Enabled(s, a) && Enabled(Next(disc, s, a), b) && Enabled(Next(disc, Next(disc, s, a), b), c)
    ensures Run(disc, s, es) && After(disc, s, es) == Next(disc, Next(disc, Next(disc, s, a), b), c)
  {
    var t := Next(disc, s, a);
    var u := Next(disc, t, b);
    Before(disc, u, c, []);
    Before(disc, t, b, [c]);
    Before(disc, s, a, [b] + [c]);
    es := [a] + ([b] + [c]);
  }

  /** The window does harm: another caller's read of one sector completes inside it, and a bank that
      was never read is handed to the consumer as sector 100. */
  lemma WindowHazard(disc: Disc) returns (es: seq<Event>)
    requires disc(100) == [1]
    ensures Run(disc, Boot(2, 2, 0, [[0], [0], [0]]), es)
    ensures var t := After(disc, Boot(2, 2, 0, [[0], [0], [0]]), es); t.start == 100 && t.out == [[0]]
  {
    var s0 := Boot(2, 2, 0, [[0], [0], [0]]);
    assert s0.ring == Ring(2, 2, 1, 0, 0, 0, false, false, 0, 0, false, false, Free, [[0], [0], [0]]);
    var es1, s1 := HazardBegin(disc, s0);
    var es2, s2 := HazardClaim(disc, s1);
    var es3, s3 := HazardCredit(disc, s2);
    var es4, s4 := HazardRead(disc, s3);
    Behind(disc, s2, es3, es4);
    Behind(disc, s1, es2, es3 + es4);
    Behind(disc, s0, es1, es2 + (es3 + es4));
    es := es1 + (es2 + (es3 + es4));
  }

  lemma HazardBegin(disc: Disc, s: State) returns (es: seq<Event>, t: State)
    requires s == State(Ring(2, 2, 1, 0, 0, 0, false, false, 0, 0, false, false, Free, [[0], [0], [0]]), Ready, [], 0, 0, [])
    ensures Run(disc, s, es) && t == After(disc, s, es)
    ensures t == State(Ring(2, 2, 1, 0, 0, 0, true, false, 0, 100, true, false, Busy(7, 1, 2, 0, true), [[0], [0], [0]]),
                       Claiming, [], 0, 100, [])
  {
    t := Next(disc, Next(disc, Next(disc, s, Start(100)), Go), Other(7, 1, 2, true));
    es := Steps3(disc, s, Start(100), Go, Other(7, 1, 2, true));
  }

  lemma HazardClaim(disc: Disc, s: State) returns (es: seq<Event>, t: State)
    requires s == State(Ring(2, 2, 1, 0, 0, 0, true, false, 0, 100, true, false, Busy(7, 1, 2, 0, true), [[0], [0], [0]]),
                        Claiming, [], 0, 100, [])
    ensures Run(disc, s, es) && t == After(disc, s, es)
    ensures t == State(Ring(2, 2, 1, 1, 0, 1, true, true, 0, 101, true, false, Busy(101, 1, 1, 0, true), [[0], [0], disc(7)]),
                       Filling(0), [], 0, 100, [])
  {
    var u := Next(disc, s, Deposit);
    assert u.ring.mem == [[0], [0], disc(7)];
    var v := Next(disc, u, Go);
    assert v.place == Filling(0) && WindowHit(v, Complete);
    t := Next(disc, v, Complete);
    es := Steps3(disc, s, Deposit, Go, Complete);
  }

  lemma HazardCredit(disc: Disc, s: State) returns (es: seq<Event>, t: State)
    requires s == State(Ring(2, 2, 1, 1, 0, 1, true, true, 0, 101, true, false, Busy(101, 1, 1, 0, true), [[0], [0], disc(7)]),
                        Filling(0), [], 0, 100, [])
    ensures Run(disc, s, es) && t == After(disc, s, es)
    ensures t == State(Ring(2, 2, 1, 1, 0, 1, true, false, 0, 101, true, true, Busy(101, 1, 1, 0, true), [[0], [0], disc(7)]),
                       Ready, [], 0, 100, [])
  {
    t := Next(disc, Next(disc, Next(disc, s, Go), Go), Go);
    es := Steps3(disc, s, Go, Go, Go);
  }

  lemma HazardRead(disc: Disc, s: State) returns (es: seq<Event>, t: State)
    requires s == State(Ring(2, 2, 1, 1, 0, 1, true, false, 0, 101, true, true, Busy(101, 1, 1, 0, true), [[0], [0], disc(7)]),
                        Ready, [], 0, 100, [])
    ensures Run(disc, s, es) && t == After(disc, s, es)
    ensures t.start == 100 && t.out == [[0]]
  {
    var e := Read([[9]], false, false);
    var u := Next(disc, s, e);
    assert u.place == Reading(false, false) && u.dst == [[9]] && u.got == 0 && u.ring.Available(1) == 1;
    assert u.ring.Taken(1) == [[0]];
    t := Next(disc, u, Go);
    assert t.dst == [[0]];
    Before(disc, u, Go, []);
    Before(disc, s, e, [Go]);
    es := [e] + [Go];
  }

  /** The same over a full ring: a refill finds no bank, another caller's read completes before the reading flag
      comes down, a fifth sector is credited to a ring of four, and the consumer receives sectors 100
      and 101 a second time where 104 and 105 belong. */
  lemma OverfillHazard(disc: Disc) returns (es: seq<Event>)
    ensures Run(disc, Boot(4, 2, 0, [[0], [0], [0], [0], [0]]), es)
    ensures var t := After(disc, Boot(4, 2, 0, [[0], [0], [0], [0], [0]]), es);
      t.start == 100 && t.out == [disc(100), disc(101), disc(102), disc(103), disc(100), disc(101)]
  {
    var s0 := Boot(4, 2, 0, [[0], [0], [0], [0], [0]]);
    assert s0.ring == Ring(4, 2, 2, 0, 0, 0, false, false, 0, 0, false, false, Free, [[0], [0], [0], [0], [0]]);
    var es1, s1 := FullBegin(disc, s0);
    var es2, s2 := FullFirstBank(disc, s1);
    var es3, s3 := FullSecondBank(disc, s2);
    var es4, s4 := FullTakeOne(disc, s3);
    var es5, s5 := FullOverfill(disc, s4);
    var es6, s6 := FullTakeFive(disc, s5);
    Behind(disc, s4, es5, es6);
    Behind(disc, s3, es4, es5 + es6);
    Behind(disc, s2, es3, es4 + (es5 + es6));
    Behind(disc, s1, es2, es3 + (es4 + (es5 + es6)));
    Behind(disc, s0, es1, es2 + (es3 + (es4 + (es5 + es6))));
    es := es1 + (es2 + (es3 + (es4 + (es5 + es6))));
  }

  lemma FullBegin(disc: Disc, s: State) returns (es: seq<Event>, t: State)
    requires s == State(Ring(4, 2, 2, 0, 0, 0, false, false, 0, 0, false, false, Free, [[0], [0], [0], [0], [0]]), Ready, [], 0, 0, [])
    ensures Run(disc, s, es) && t == After(disc, s, es)
    ensures t == State(Ring(4, 2, 2, 0, 0, 0, true, true, 0, 100, true, false, Busy(100, 2, 0, 0, true), [[0], [0], [0], [0], [0]]),
                       Ready, [], 0, 100, [])
  {
    var u := Next(disc, s, Start(100));
    var v := Next(disc, u, Go);
    assert v == State(Ring(4, 2, 2, 0, 0, 0, true, false, 0, 100, true, false, Free, [[0], [0], [0], [0], [0]]),
                      Claiming, [], 0, 100, []);
    var fs;
    fs, t := FullClaim(disc, v);
    Before(disc, u, Go, fs);
    Before(disc, s, Start(100), [Go] + fs);
    es := [Start(100)] + ([Go] + fs);
  }

  lemma FullClaim(disc: Disc, s: State) returns (es: seq<Event>, t: State)
    requires s == State(Ring(4, 2, 2, 0, 0, 0, true, false, 0, 100, true, false, Free, [[0], [0], [0], [0], [0]]),
                        Claiming, [], 0, 100, [])
    ensures Run(disc, s, es) && t == After(disc, s, es)
    ensures t == State(Ring(4, 2, 2, 0, 0, 0, true, true, 0, 100, true, false, Busy(100, 2, 0, 0, true), [[0], [0], [0], [0], [0]]),
                       Ready, [], 0, 100, [])
  {
    var u := Next(disc, s, Go);
    t := Next(disc, u, Go);
    Before(disc, u, Go, []);
    Before(disc, s, Go, [Go]);
    es := [Go] + [Go];
  }

  lemma FullFirstBank(disc: Disc, s: State) returns (es: seq<Event>, t: State)
    requires s == State(Ring(4, 2, 2, 0, 0, 0, true, true, 0, 100, true, false, Busy(100, 2, 0, 0, true), [[0], [0], [0], [0], [0]]),
                        Ready, [], 0, 100, [])
    ensures Run(disc, s, es) && t == After(disc, s, es)
    ensures t == State(Ring(4, 2, 2, 2, 0, 2, true, true, 0, 102, true, false, Busy(102, 2, 2, 0, true),
                            [disc(100), disc(101), [0], [0], [0]]), Ready, [], 0, 100, [])
  {
    var u := Next(disc, s, Deposit);
    assert u.ring.mem == [disc(100), [0], [0], [0], [0]];
    var v := Next(disc, u, Deposit);
    assert v.ring.mem == [disc(100), disc(101), [0], [0], [0]];
    t := Next(disc, v, Complete);
    es := Steps3(disc, s, Deposit, Deposit, Complete);
  }

  lemma FullSecondBank(disc: Disc, s: State) returns (es: seq<Event>, t: State)
    requires s == State(Ring(4, 2, 2, 2, 0, 2, true, true, 0, 102, true, false, Busy(102, 2, 2, 0, true),
                             [disc(100), disc(101), [0], [0], [0]]), Ready, [], 0, 100, [])
    ensures Run(disc, s, es) && t == After(disc, s, es)
    ensures t == State(Ring(4, 2, 2, 0, 0, 4, true, false, 0, 104, true, false, Free,
                            [disc(100), disc(101), disc(102), disc(103), [0]]), Ready, [], 0, 100, [])
  {
    var u := Next(disc, s, Deposit);
    assert u.ring.mem == [disc(100), disc(101), disc(102), [0], [0]];
    var v := Next(disc, u, Deposit);
    assert v.ring.mem == [disc(100), disc(101), disc(102), disc(103), [0]];
    t := Next(disc, v, Complete);
    es := Steps3(disc, s, Deposit, Deposit, Complete);
  }

  lemma FullTakeOne(disc: Disc, s: State) returns (es: seq<Event>, t: State)
    requires s == State(Ring(4, 2, 2, 0, 0, 4, true, false, 0, 104, true, false, Free,
                             [disc(100), disc(101), disc(102), disc(103), [0]]), Ready, [], 0, 100, [])
    ensures Run(disc, s, es) && t == After(disc, s, es)
    ensures t == State(Ring(4, 2, 2, 0, 1, 3, true, false, 0, 104, true, false, Busy(7, 1, 4, 0, true),
                            [disc(100), disc(101), disc(102), disc(103), [0]]), Claiming, [disc(100)], 1, 100, [disc(100)])
  {
    var e := Read([[9]], false, false);
    var u := Next(disc, s, e);
    assert u.ring.Available(1) == 1 && u.ring.Taken(1) == [disc(100)];
    var v := Next(disc, u, Go);
    assert v.dst == [disc(100)] && v.dst[0..1] == [disc(100)];
    t := Next(disc, v, Other(7, 1, 4, true));
    es := Steps3(disc, s, e, Go, Other(7, 1, 4, true));
  }

  lemma FullOverfill(disc: Disc, s: State) returns (es: seq<Event>, t: State)
    requires s == State(Ring(4, 2, 2, 0, 1, 3, true, false, 0, 104, true, false, Busy(7, 1, 4, 0, true),
                             [disc(100), disc(101), disc(102), disc(103), [0]]), Claiming, [disc(100)], 1, 100, [disc(100)])
    ensures Run(disc, s, es) && t == After(disc, s, es)
    ensures t == State(Ring(4, 2, 2, 2, 1, 5, true, false, 0, 106, true, false, Free,
                            [disc(100), disc(101), disc(102), disc(103), disc(7)]), Ready, [disc(100)], 1, 100, [disc(100)])
  {
    var u := Next(disc, s, Deposit);
    assert u.ring.mem == [disc(100), disc(101), disc(102), disc(103), disc(7)];
    var v := Next(disc, u, Go);
    assert v.place.Declining? && Overfills(v, Complete);
    var w := Next(disc, v, Complete);
    assert w.ring.streamed == 5;
    t := Next(disc, w, Go);
    es := Steps3(disc, s, Deposit, Go, Complete);
    Before(disc, w, Go, []);
    Behind(disc, s, es, [Go]);
    es := es + [Go];
  }

  lemma FullTakeFive(disc: Disc, s: State) returns (es: seq<Event>, t: State)
    requires s == State(Ring(4, 2, 2, 2, 1, 5, true, false, 0, 106, true, false, Free,
                             [disc(100), disc(101), disc(102), disc(103), disc(7)]), Ready, [disc(100)], 1, 100, [disc(100)])
    ensures Run(disc, s, es) && t == After(disc, s, es)
    ensures t.start == 100 && t.out == [disc(100), disc(101), disc(102), disc(103), disc(100), disc(101)]
  {
    var e := Read([[9], [9], [9], [9], [9]], true, false);
    var u := Next(disc, s, e);
    assert u.ring.Available(5) == 1 && u.ring.Taken(1) == [disc(101)];
    var v := Next(disc, u, Go);
    assert v.dst == [disc(101), [9], [9], [9], [9]] && v.got == 1 && v.out == [disc(100)] + [disc(101)];
    assert v.ring.Available(4) == 4 && v.ring.Taken(4) == [disc(102), disc(103), disc(100), disc(101)];
    t := Next(disc, v, Go);
    assert t.dst[1..5] == [disc(102), disc(103), disc(100), disc(101)];
    es := Steps3(disc, s, e, Go, Go);
  }

  // ---- callers who keep out of the window ------------------------------------------------------------

  /** A rule callers can check before each call: no asynchronous read while a stream runs or is being
      started, no stream started on top of one, and sceCdStInit only while stopped. */
  predicate Polite(s: State, e: Event) {
    match e
    case Init(_, _, _) => !s.ring.stat
    case Start(_) => !s.ring.stat && s.ring.drive.Busy? ==> !s.ring.drive.reader
    case Other(_, _, _, reader) => reader ==> !s.ring.stat && !Starting(s.place)
    case _ => true
  }

  predicate PoliteRun(disc: Disc, s: State, es: seq<Event>)
    decreases |es|
  {
    es == [] || (Polite(s, es[0]) && PoliteRun(disc, Next(disc, s, es[0]), es[1..]))
  }

  // While a stream runs, the only reads the reader thread serves are the stream's own.
  predicate OnlyStream(s: State) {
    && (s.ring.stat && s.ring.drive.Busy? && s.ring.drive.reader ==> s.ring.reading && !InWindow(s.place))
    && (s.place.Beginning? && s.ring.drive.Busy? ==> !s.ring.drive.reader)
  }

  lemma PoliteStep(disc: Disc, s: State, e: Event)
    requires Shape(s) && OnlyStream(s) && Enabled(s, e) && Polite(s, e)
    requires InWindow(s.place) ==> s.ring.reading
    ensures !WindowHit(s, e) && OnlyStream(Next(disc, s, e))
  {
    if e.Go? {
      PoliteGo(disc, s);
    }
  }

  lemma PoliteGo(disc: Disc, s: State)
    requires Shape(s) && OnlyStream(s) && Enabled(s, Go)
    requires InWindow(s.place) ==> s.ring.reading
    ensures OnlyStream(Next(disc, s, Go))
  {
  }

  lemma {:induction false} PoliteClean(disc: Disc, s: State, es: seq<Event>)
    requires Inv(disc, s) && OnlyStream(s) && Run(disc, s, es) && PoliteRun(disc, s, es)
    ensures Clean(disc, s, es)
    decreases |es|
  {
    if es != [] {
      PoliteStep(disc, s, es[0]);
      InvStep(disc, s, es[0]);
      PoliteClean(disc, Next(disc, s, es[0]), es[1..]);
    }
  }

  /** The two together: under that rule every run delivers the stream. */
  lemma PoliteStreamDelivers(disc: Disc, bufmax: nat, bankmax: nat, base: nat, mem: seq<Sector>, es: seq<Event>)
    requires 0 < bankmax <= bufmax < LIMIT16 && base + bufmax <= |mem|
    requires Run(disc, Boot(bufmax, bankmax, base, mem), es) && PoliteRun(disc, Boot(bufmax, bankmax, base, mem), es)
    ensures Delivers(disc, After(disc, Boot(bufmax, bankmax, base, mem), es))
    ensures var s := Boot(bufmax, bankmax, base, mem);
      AsCalled(After(disc, s, es), CallsOf(disc, s, Calls(0, [], base, bufmax), es))
  {
    BootInv(disc, bufmax, bankmax, base, mem);
    PoliteClean(disc, Boot(bufmax, bankmax, base, mem), es);
    StreamDelivers(disc, bufmax, bankmax, base, mem, es);
  }

  // ---- what the calls achieve ------------------------------------------------------------------------

  /** One pass of sceCdStRead's loop. A blocking call leaves it with its buffer full and not before; any other after one
      pass, which takes what is asked for and there. */
  lemma ReadReturns(disc: Disc, s: State)
    requires Shape(s) && s.place.Reading?
    ensures var t := Next(disc, s, Go);
      var n := if s.got + s.ring.streamed <= |s.dst| then s.ring.streamed else |s.dst| - s.got;
      && (t.place.Claiming? <==> s.got == |s.dst| || (!s.place.blocking && !(s.place.ee && n > 0)))
      && (s.got < |s.dst| ==>
            if s.place.ee && n > 0 then t.place == Moving(s.place.blocking, n, {})
            else t.got == s.got + n && t.ring.streamed == s.ring.streamed - n)
  {
    TakesAll(s.ring, Wanted(s));
  }

  // A DMA transfer that is through counts, and the call goes on or leaves.
  lemma TransferReturns(disc: Disc, s: State)
    requires Shape(s) && s.place.Moving? && Enabled(s, Go)
    ensures var t := Next(disc, s, Go);
      t.got == s.got + s.place.n && (t.place.Claiming? <==> !s.place.blocking) && (t.place.Reading? <==> s.place.blocking)
  {
  }

  /** A stop ends the stream, by whatever it was called. */
  lemma StopStops(disc: Disc, s: State)
    requires Shape(s) && s.place.Ready? && s.ring.stat
    ensures var t := Next(disc, Next(disc, s, Stop), Go);
      !t.ring.stat && !t.ring.cb && !t.ring.alarm && t.ring.streamed == 0 && t.place == Syncing(Return)
  {
  }

  /** Pausing and resuming leave the stream as it was, with its callback in place and a refill to come. */
  lemma PauseResume(disc: Disc, s: State)
    requires Shape(s) && s.place.Ready? && s.ring.stat && s.ring.drive.Free?
    ensures var es := [Pause, Go, Go, Resume];
      Run(disc, s, es) && After(disc, s, es) == s.(ring := s.ring.(alarm := false, cb := true), place := Claiming)
  {
    var s1 := Next(disc, s, Pause);
    var s2 := Next(disc, s1, Go);
    var s3 := Next(disc, s2, Go);
    assert s3 == s.(ring := s.ring.(alarm := false, cb := false));
    Before(disc, s3, Resume, []);
    Before(disc, s2, Go, [Resume]);
    Before(disc, s1, Go, [Go] + [Resume]);
    Before(disc, s, Pause, [Go] + ([Go] + [Resume]));
    assert [Pause] + ([Go] + ([Go] + [Resume])) == [Pause, Go, Go, Resume];
  }

  // Between calls a running stream with room for a bank has a refill under way or scheduled.
  predicate NoStall(s: State) {
    && (s.ring.stat && s.ring.cb && s.place.Ready? ==> s.ring.reading || s.ring.alarm || !s.ring.Room())
    && (s.place.Syncing? ==> !s.ring.cb)
  }

  lemma NoStallStep(disc: Disc, s: State, e: Event)
    requires Shape(s) && NoStall(s) && Enabled(s, e) && !WindowHit(s, e) && (e.Init? ==> !s.ring.stat)
    requires InWindow(s.place) ==> s.ring.reading && (s.place.Declining? ==> !s.ring.Room())
    ensures NoStall(Next(disc, s, e))
  {
    if e.Complete? {
      CompleteShape(s.ring);
    }
  }

  lemma {:induction false} NoStallRun(disc: Disc, s: State, es: seq<Event>)
    requires Inv(disc, s) && NoStall(s) && Run(disc, s, es) && Clean(disc, s, es) && PoliteRun(disc, s, es)
    ensures NoStall(After(disc, s, es))
    decreases |es|
  {
    if es != [] {
      NoStallStep(disc, s, es[0]);
      InvStep(disc, s, es[0]);
      NoStallRun(disc, Next(disc, s, es[0]), es[1..]);
    }
  }

  /** Under the callers' rule, whenever the consumer is between calls, a running stream that is not paused and has room for
      a bank is being refilled or has its retry alarm set. */
  lemma NeverStalls(disc: Disc, bufmax: nat, bankmax: nat, base: nat, mem: seq<Sector>, es: seq<Event>)
    requires 0 < bankmax <= bufmax < LIMIT16 && base + bufmax <= |mem|
    requires Run(disc, Boot(bufmax, bankmax, base, mem), es) && PoliteRun(disc, Boot(bufmax, bankmax, base, mem), es)
    ensures var t := After(disc, Boot(bufmax, bankmax, base, mem), es);
      t.ring.stat && t.ring.cb && t.place.Ready? ==> t.ring.reading || t.ring.alarm || !t.ring.Room()
  {
    BootInv(disc, bufmax, bankmax, base, mem);
    PoliteClean(disc, Boot(bufmax, bankmax, base, mem), es);
    NoStallRun(disc, Boot(bufmax, bankmax, base, mem), es);
  }

  // ---- a stream that goes on ----------------------------------------------------------------------------

  /** Between two reads: what the ring has no room for it holds, and for the rest its own read is under way. */
  ghost predicate Steady(disc: Disc, s: State) {
    && Inv(disc, s) && s.place.Ready? && s.ring.stat && s.ring.cb
    && (if s.ring.reading then Own(disc, s.ring) else s.ring.drive.Free? && !s.ring.Room())
  }

  // The read under way ends, and its bank is there.
  lemma {:induction false} BankArrives(disc: Disc, s: State) returns (es: seq<Event>)
    requires Steady(disc, s) && s.ring.reading && s.ring.drive.done <= s.ring.drive.count
    ensures Run(disc, s, es) && Clean(disc, s, es) && PoliteRun(disc, s, es)
    ensures var t := After(disc, s, es);
      Steady(disc, t) && t.ring.streamed == s.ring.streamed + s.ring.banksize && t.ring.banksize == s.ring.banksize
      && t.start == s.start && t.out == s.out
    decreases s.ring.drive.count - s.ring.drive.done
  {
    var e := if s.ring.drive.done < s.ring.drive.count then Deposit else Complete;
    var t := Next(disc, s, e);
    InvStep(disc, s, e);
    if e.Deposit? {
      DepositExtends(disc, s.ring);
      es := BankArrives(disc, t);
    } else {
      RefillSteady(disc, s);
      es := [];
    }
    InFront(disc, s, e, es);
    es := [e] + es;
  }

  lemma RefillSteady(disc: Disc, s: State)
    requires Steady(disc, s) && s.ring.reading && s.ring.drive.done == s.ring.drive.count
    requires Inv(disc, Next(disc, s, Complete))
    ensures Steady(disc, Next(disc, s, Complete))
    ensures var t := Next(disc, s, Complete); t.ring.streamed == s.ring.streamed + s.ring.banksize && t.ring.banksize == s.ring.banksize
  {
    var g := s.ring.(drive := Free).Credit();
    FillsOwn(disc, g);
  }

  // A refill of a ring with a free drive.
  lemma FillsOwn(disc: Disc, g: Ring)
    requires g.drive.Free? && !g.reading
    ensures var h := g.StartFill();
      && h.streamed == g.streamed && h.banksize == g.banksize && h.cb == g.cb && h.stat == g.stat
      && (if h.reading then Own(disc, h) else h.drive.Free? && !h.Room())
  {
    assert g.BankCells(0) == Slice(disc, g.lsn, 0);
  }

  lemma InFront(disc: Disc, s: State, e: Event, es: seq<Event>)
    requires Enabled(s, e) && !WindowHit(s, e) && Polite(s, e)
    requires var t := Next(disc, s, e); Run(disc, t, es) && Clean(disc, t, es) && PoliteRun(disc, t, es)
    ensures Run(disc, s, [e] + es) && Clean(disc, s, [e] + es) && PoliteRun(disc, s, [e] + es)
    ensures After(disc, s, [e] + es) == After(disc, Next(disc, s, e), es)
  {
    assert ([e] + es)[1..] == es;
  }

  // A read of one sector by memcpy.
  lemma TakesOne(disc: Disc, s: State) returns (es: seq<Event>, t: State)
    requires Steady(disc, s) && 0 < s.ring.streamed
    ensures Run(disc, s, es) && Clean(disc, s, es) && PoliteRun(disc, s, es) && t == After(disc, s, es)
    ensures Steady(disc, t) && t.start == s.start && |t.out| == |s.out| + 1
  {
    var e := Read([[]], false, false);
    var s1 := Next(disc, s, e);
    var s2 := Next(disc, s1, Go);
    InvStep(disc, s, e);
    InvStep(disc, s1, Go);
    OneTaken(disc, s, s1, s2);
    es, t := RefillsAfter(disc, s2);
    InFront(disc, s1, Go, es);
    InFront(disc, s, e, [Go] + es);
    es := [e] + ([Go] + es);
  }

  lemma OneTaken(disc: Disc, s: State, s1: State, s2: State)
    requires Steady(disc, s) && 0 < s.ring.streamed
    requires s1 == Next(disc, s, Read([[]], false, false)) && s2 == Next(disc, s1, Go)
    ensures s2.place == Claiming && s2.start == s.start && |s2.out| == |s.out| + 1 && s2.ring == s.ring.Consume(1)
  {
    TakesAll(s1.ring, 1);
  }

  // The refill at the end of a call, when the drive is the stream's own or free.
  lemma RefillsAfter(disc: Disc, s: State) returns (es: seq<Event>, t: State)
    requires Inv(disc, s) && s.place.Claiming? && s.ring.cb && (if s.ring.reading then Own(disc, s.ring) else s.ring.drive.Free?)
    ensures Run(disc, s, es) && Clean(disc, s, es) && PoliteRun(disc, s, es) && t == After(disc, s, es)
    ensures Steady(disc, t) && t.start == s.start && t.out == s.out
  {
    var s1 := Next(disc, s, Go);
    InvStep(disc, s, Go);
    if s.ring.reading {
      es, t := [], s1;
    } else {
      t := Next(disc, s1, Go);
      InvStep(disc, s1, Go);
      assert s1.ring.BankCells(0) == Slice(disc, s1.ring.lsn, 0);
      es := [Go];
      InFront(disc, s1, Go, []);
      assert [Go] + [] == es;
    }
    InFront(disc, s, Go, es);
    es := [Go] + es;
  }

  lemma {:induction false} GoesOn(disc: Disc, s: State, n: nat) returns (es: seq<Event>, t: State)
    requires Steady(disc, s)
    ensures Run(disc, s, es) && Clean(disc, s, es) && PoliteRun(disc, s, es) && t == After(disc, s, es)
    ensures Steady(disc, t) && t.start == s.start && |t.out| == |s.out| + n
    decreases n, s.ring.streamed == 0
  {
    if n == 0 {
      es, t := [], s;
    } else if s.ring.streamed == 0 {
      var fs := BankArrives(disc, s);
      var gs;
      gs, t := GoesOn(disc, After(disc, s, fs), n);
      es := Onwards(disc, s, fs, gs);
    } else {
      var fs, u := TakesOne(disc, s);
      var gs;
      gs, t := GoesOn(disc, u, n - 1);
      es := Onwards(disc, s, fs, gs);
    }
  }

  // Well-behaved runs one behind the other.
  lemma {:induction false} Onwards(disc: Disc, s: State, fs: seq<Event>, gs: seq<Event>) returns (es: seq<Event>)
    requires Run(disc, s, fs) && Clean(disc, s, fs) && PoliteRun(disc, s, fs)
    requires var t := After(disc, s, fs); Run(disc, t, gs) && Clean(disc, t, gs) && PoliteRun(disc, t, gs)
    ensures Run(disc, s, es) && Clean(disc, s, es) && PoliteRun(disc, s, es)
    ensures After(disc, s, es) == After(disc, After(disc, s, fs), gs)
    decreases |fs|
  {
    if fs == [] {
      es := gs;
    } else {
      es := Onwards(disc, Next(disc, s, fs[0]), fs[1..], gs);
      InFront(disc, s, fs[0], es);
      es := [fs[0]] + es;
    }
  }

  // A start with a free drive, and n sectors.
  lemma StartFlows(disc: Disc, s: State, lsn: nat, n: nat) returns (es: seq<Event>, t: State)
    requires Inv(disc, s) && s.place.Ready? && !s.ring.stat && s.ring.drive.Free? && lsn < LIMIT32
    ensures Run(disc, s, es) && PoliteRun(disc, s, es) && t == After(disc, s, es)
    ensures Inv(disc, t) && t.start == lsn && |t.out| == n
  {
    var s1 := Next(disc, s, Start(lsn));
    var s2 := Next(disc, s1, Go);
    InvStep(disc, s, Start(lsn));
    InvStep(disc, s1, Go);
    var fs, u := RefillsAfter(disc, s2);
    var gs;
    gs, t := GoesOn(disc, u, n);
    es := Onwards(disc, s2, fs, gs);
    InFront(disc, s1, Go, es);
    InFront(disc, s, Start(lsn), [Go] + es);
    es := [Start(lsn)] + ([Go] + es);
  }

  lemma BootIdle(bufmax: nat, bankmax: nat, base: nat, mem: seq<Sector>)
    requires 0 < bankmax
    ensures var s := Boot(bufmax, bankmax, base, mem); s.place.Ready? && !s.ring.stat && s.ring.drive.Free?
  {
  }

  /** The stream really flows: from initialisation and a start at any sector there is, for every n, a run within the
      callers' rule that hands over exactly the n sectors from there on. */
  lemma StreamFlows(disc: Disc, bufmax: nat, bankmax: nat, base: nat, mem: seq<Sector>, lsn: nat, n: nat)
    returns (es: seq<Event>)
    requires 0 < bankmax <= bufmax < LIMIT16 && base + bufmax <= |mem| && lsn < LIMIT32
    ensures var s := Boot(bufmax, bankmax, base, mem);
      Run(disc, s, es) && PoliteRun(disc, s, es) && After(disc, s, es).out == seq(n, i requires 0 <= i => disc(U32(lsn + i)))
  {
    var s := Boot(bufmax, bankmax, base, mem);
    BootInv(disc, bufmax, bankmax, base, mem);
    BootIdle(bufmax, bankmax, base, mem);
    var t;
    es, t := StartFlows(disc, s, lsn, n);
    var want := seq(n, i requires 0 <= i => disc(U32(lsn + i)));
    assert t.out == Slice(disc, lsn, n) == want;
  }

  /** A consumer between calls can make any of them, one that is in a call gets on unless it waits for the drive or its
      DMA, and the drive always gets on. */
  lemma CallsPossible(disc: Disc, s: State, lsn: nat, dst: seq<Sector>, blocking: bool, ee: bool)
    requires Inv(disc, s) && lsn < LIMIT32 && |dst| < 0x8000_0000
    ensures s.place.Ready? ==>
      && Enabled(s, Start(lsn)) && Enabled(s, Seek(lsn)) && Enabled(s, Stop) && Enabled(s, Pause) && Enabled(s, Resume)
      && Enabled(s, Read(dst, blocking, ee))
    ensures !s.place.Ready? && !s.place.Syncing? && !s.place.Moving? ==> Enabled(s, Go)
    ensures s.place.Syncing? ==> (Enabled(s, Go) <==> s.ring.drive.Free?)
    ensures s.place.Moving? ==> Enabled(s, Go) || exists i: nat :: Enabled(s, Move(i)) && i !in s.place.done
    ensures s.ring.drive.Busy? ==> Enabled(s, Deposit) || Enabled(s, Complete)
    ensures s.ring.alarm ==> Enabled(s, Alarm)
  {
    if s.place.Moving? && !Enabled(s, Go) {
      var i: nat :| i < s.place.n && i !in s.place.done;
      assert Enabled(s, Move(i));
    }
  }
}
