/** The stream ring of the CD/DVD driver (cdvdman/streaming.c): the fields of `SteamingData`, the
    drive the ring is filled through, and the critical sections the driver runs on them.

    `Ring` is a value: one snapshot of those fields together with the I/O processor's memory, held
    in cells of one 2048-byte sector. The functions on `Ring` say what each critical section does in
    terms of a circular queue; the class `StreamingData` below does the same work field by field, as
    the driver does, and its methods are proved against these functions. */
module StreamRing {
  import opened Words

  type Sector = seq<bv8>

  /** The read that owns the drive. `done` of its `count` sectors have reached memory at `dest`;
      `reader` says that the reader thread serves it and so calls the stream callback afterwards. */
  datatype Drive =
    | Free
    | Busy(lsn: nat, count: nat, dest: nat, done: nat, reader: bool)

  datatype Ring = Ring(
    bufmax: nat,
    bankmax: nat,
    banksize: nat,
    w: nat,
    r: nat,
    streamed: nat,
    stat: bool,
    reading: bool,
    base: nat,
    lsn: nat,
    cb: bool,
    alarm: bool,
    drive: Drive,
    mem: seq<Sector>)
  {
    // The ring position i places after the read pointer.
    function Slot(i: nat): int {
      Around(bufmax, r, i)
    }

    // The i-th buffered sector.
    function Held(i: nat): Sector {
      Cell(mem, base + Slot(i))
    }

    // The n oldest buffered sectors.
    function Taken(n: nat): seq<Sector> {
      Queue(mem, base, bufmax, r, n)
    }

    predicate Room() {
      streamed + banksize <= bufmax
    }

    // The pointers describe a queue of `streamed` sectors that starts at the read pointer.
    predicate Circular() {
      && base + bufmax <= |mem|
      && r < bufmax
      && streamed <= bufmax
      && w == Slot(streamed)
    }

    // The ring is whole banks and the write pointer is at the start of one.
    predicate Banked() {
      && 0 < banksize <= bufmax < LIMIT16
      && Multiple(bufmax, banksize)
      && Multiple(w, banksize)
    }

    /** What every step keeps about the pointers, whatever the memory holds. */
    predicate Shape() {
      && Circular()
      && Banked()
      && lsn < LIMIT32
      && (drive.Busy? ==> drive.dest + drive.count <= |mem| && drive.done <= drive.count)
      && ((cb || alarm || reading) ==> stat)
      && (!stat ==> streamed == 0)
    }

    // StReset
    function Reset(): Ring {
      this.(w := 0, r := 0, streamed := 0, reading := false)
    }

    // The critical section at the head of StFillStreamBuffer, with AllocBank. The reading flag stays up
    // behind it even when there is no bank.
    function Claim(): (Ring, Claimed) {
      if reading then (this, Underway)
      else (this.(alarm := false, reading := true), if Room() then Bank(base + w) else Full)
    }

    // cdvdman_AsyncRead into the claimed bank.
    function Issue(ptr: nat): (Ring, bool) {
      if drive.Free? then (this.(drive := Busy(lsn, banksize, ptr, 0, true)), true) else (this, false)
    }

    // The flag comes down when there was no bank, or no drive.
    function GiveUp(): Ring {
      this.(reading := false)
    }

    // StFillStreamBuffer as one step: 0 = reading, 1 = full, -1 = the drive was taken.
    function Fill(): (Ring, int) {
      match Claim()
      case (g, Underway) => (g, 0)
      case (g, Full) => (g.GiveUp(), 1)
      case (g, Bank(ptr)) => var (h, ok) := g.Issue(ptr); if ok then (h, 0) else (h.GiveUp(), -1)
    }

    // StStartFillStreamBuffer
    function StartFill(): Ring {
      var (g, res) := Fill();
      if res < 0 then g.(alarm := true) else g
    }

    // The update at the head of StmCallback: one more bank is buffered.
    function Credit(): Ring {
      if !reading then this
      else this.(
        lsn := U32(lsn + banksize),
        streamed := U16(streamed + banksize),
        w := NextBank(this),
        reading := false)
    }

    function Callback(): Ring {
      Credit().StartFill()
    }

    // The first n cells of the bank at the write pointer.
    function BankCells(n: nat): seq<Sector> {
      Window(mem, base + w, n)
    }

    // How many sectors one pass of sceCdStRead's loop takes, from the pointers: up to the end of the ring
    // when the write pointer is not ahead, and then up to the write pointer.
    function Available(want: nat): (n: nat)
      requires r < bufmax
    {
      var first := if w <= r && streamed > 0 then Least(bufmax - r, want) else 0;
      var next := Around(bufmax, r, first);
      first + if first < want && next < w then Least(w - next, want - first) else 0
    }

    function Consume(n: nat): Ring
      requires n <= streamed && n <= bufmax && r < bufmax
    {
      this.(r := Slot(n), streamed := streamed - n)
    }
  }

  function Least(a: nat, b: nat): nat {
    if a <= b then a else b
  }

  // i places after position r, around a ring of bufmax places.
  function Around(bufmax: nat, r: nat, i: nat): int {
    if r + i < bufmax then r + i else r + i - bufmax
  }

  function Cell(mem: seq<Sector>, a: int): Sector {
    if 0 <= a < |mem| then mem[a] else []
  }

  // n consecutive cells.
  function Window(mem: seq<Sector>, from: nat, n: nat): seq<Sector> {
    if from + n <= |mem| then mem[from..from + n] else []
  }

  // n cells of the ring at `base`, from position r on.
  function Queue(mem: seq<Sector>, base: nat, bufmax: nat, r: nat, n: nat): seq<Sector> {
    seq(n, i requires 0 <= i => Cell(mem, base + Around(bufmax, r, i)))
  }

  // n is a whole number of banks.
  predicate Multiple(n: nat, size: nat) {
    n == 0 || (0 < size <= n && Multiple(n - size, size))
  }

  // The write pointer one bank on.
  function NextBank(g: Ring): nat {
    if U16(g.w + g.banksize) >= g.bufmax then 0 else U16(g.w + g.banksize)
  }

  datatype Claimed = Underway | Full | Bank(ptr: nat)

  // sceCdStInit
  function Initialised(g: Ring, bufmax: nat, bankmax: nat, base: nat): Ring
    requires 0 < bankmax
  {
    var count, size := U16(bankmax), U16(bufmax / bankmax);
    g.(alarm := false, bankmax := count, banksize := size, bufmax := U16(size * count), base := base).Reset()
  }

  // ---- arithmetic of the ring -------------------------------------------------------------------

  // Between two bank boundaries lies at least one bank.
  lemma {:induction false} MultipleGap(a: nat, b: nat, size: nat)
    requires 0 < size && Multiple(a, size) && Multiple(b, size) && a < b
    ensures a + size <= b
  {
    if a > 0 {
      MultipleGap(a - size, b - size, size);
    }
  }

  lemma {:induction false} ProductIsMultiple(size: nat, count: nat)
    ensures Multiple(size * count, size)
  {
    if 0 < size && 0 < count {
      assert size * count == size * (count - 1) + size;
      ProductIsMultiple(size, count - 1);
    }
  }

  // A bank claimed at the write pointer never runs over the end of the ring.
  lemma BankFits(g: Ring)
    requires g.Circular() && g.Banked()
    ensures g.w < g.bufmax && g.w + g.banksize <= g.bufmax
    ensures NextBank(g) == (if g.w + g.banksize == g.bufmax then 0 else g.w + g.banksize)
    ensures Multiple(NextBank(g), g.banksize)
  {
    MultipleGap(g.w, g.bufmax, g.banksize);
  }

  /** A claimed bank and the buffered sectors share no ring position: the reason why a read into the
      bank cannot damage sectors that are still being copied out. */
  lemma BankMissesHeld(g: Ring, i: nat, j: nat)
    requires g.Shape() && g.Room() && i < g.streamed && j < g.banksize
    ensures g.Slot(i) != g.w + j
    ensures g.w + j < g.bufmax
  {
    BankFits(g);
  }

  // Crediting a bank keeps what was buffered and appends that bank's cells, in order.
  lemma CreditTaken(g: Ring)
    requires g.Shape() && g.reading && g.Room()
    ensures g.Credit().Shape()
    ensures g.Credit().Taken(g.streamed + g.banksize) == g.Taken(g.streamed) + g.BankCells(g.banksize)
  {
    BankFits(g);
    var h := g.Credit();
    forall i: nat | i < h.streamed
      ensures h.Held(i) == (g.Taken(g.streamed) + g.BankCells(g.banksize))[i]
    {
      if i < g.streamed {
        assert h.Held(i) == g.Held(i) == g.Taken(g.streamed)[i];
      } else {
        assert g.Slot(i) == g.w + (i - g.streamed);
        assert h.Held(i) == g.BankCells(g.banksize)[i - g.streamed];
      }
    }
  }

  // In a ring whose pointers describe its queue, what is available is what is buffered.
  lemma AvailableIs(g: Ring, want: nat)
    requires g.Circular()
    ensures g.Available(want) == Least(want, g.streamed)
  {
  }

  lemma ConsumeShape(g: Ring, n: nat)
    requires g.Shape() && n <= g.streamed
    ensures g.Consume(n).Shape()
  {
  }

  // Taking sectors in two goes is the same as taking them at once.
  lemma QueueTwice(mem: seq<Sector>, base: nat, bufmax: nat, r: nat, a: nat, b: nat)
    requires r < bufmax && a + b <= bufmax
    ensures 0 <= Around(bufmax, r, a) && Around(bufmax, Around(bufmax, r, a), b) == Around(bufmax, r, a + b)
    ensures Queue(mem, base, bufmax, r, a) + Queue(mem, base, bufmax, Around(bufmax, r, a), b)
         == Queue(mem, base, bufmax, r, a + b)
  {
  }

  // A stretch that does not wrap is a window of memory.
  lemma StraightQueue(mem: seq<Sector>, base: nat, bufmax: nat, r: nat, n: nat)
    requires r + n <= bufmax && base + bufmax <= |mem|
    ensures Queue(mem, base, bufmax, r, n) == mem[base + r..base + r + n]
  {
  }

  lemma ClaimShape(g: Ring)
    requires g.Shape() && g.stat
    ensures g.Claim().0.Shape()
    ensures g.Claim().1.Bank? ==> g.Claim().1.ptr == g.base + g.w && g.w + g.banksize <= g.bufmax
  {
    BankFits(g);
  }

  lemma FillShape(g: Ring)
    requires g.Shape() && g.stat
    ensures g.StartFill().Shape()
    ensures (g.reading ==> g.Room()) ==> (g.StartFill().reading ==> g.StartFill().Room())
  {
    BankFits(g);
  }

  /** What a refill comes to: nothing while one is under way; else the read of the next bank into the bank at the write
      pointer when there is room and the drive is free, the retry alarm when there is room and it is not, and
      neither when there is no room. An alarm that was set is cancelled first. */
  lemma RefillOutcome(g: Ring)
    ensures g.reading ==> g.StartFill() == g
    ensures !g.reading && g.Room() && g.drive.Free? ==>
      g.StartFill() == g.(reading := true, alarm := false, drive := Busy(g.lsn, g.banksize, g.base + g.w, 0, true))
    ensures !g.reading && g.Room() && g.drive.Busy? ==> g.StartFill() == g.(alarm := true)
    ensures !g.reading && !g.Room() ==> g.StartFill() == g.(alarm := false)
    ensures g.Room() <==> g.streamed + g.banksize <= g.bufmax
  {
  }

  lemma InitShape(g: Ring, bufmax: nat, bankmax: nat, base: nat)
    requires 0 < bankmax <= bufmax < LIMIT16 && g.lsn < LIMIT32 && (g.cb ==> g.stat)
    requires g.drive.Busy? ==> g.drive.dest + g.drive.count <= |g.mem| && g.drive.done <= g.drive.count
    requires base + bufmax <= |g.mem|
    ensures Initialised(g, bufmax, bankmax, base).Shape()
    ensures Initialised(g, bufmax, bankmax, base).bufmax <= bufmax && Initialised(g, bufmax, bankmax, base).base == base
    ensures Initialised(g, bufmax, bankmax, base).banksize == bufmax / bankmax
    ensures Initialised(g, bufmax, bankmax, base).bufmax == bufmax / bankmax * bankmax
  {
    DivisionFits(bufmax, bankmax);
    ProductIsMultiple(bufmax / bankmax, bankmax);
  }

  lemma DivisionFits(a: nat, b: nat)
    requires 0 < b <= a
    ensures 0 < a / b
    ensures a / b <= a / b * b <= a
  {
    var q, m := a / b, a % b;
    assert a == b * q + m;
    if q <= 0 {
      MulMono(b, q, 0);
    } else {
      MulMono(q, 1, b);
    }
  }

  lemma MulMono(x: nat, y: int, z: int)
    requires y <= z
    ensures x * y <= x * z
  {
  }
}
