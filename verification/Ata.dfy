/** Reading from the hard disk (cdvdman/atad.c): a request is split into commands, each command's address
    and count go through 8-bit registers, its data comes through a FIFO by DMA, and a command whose data
    fails its checksum is repeated. */
module Ata {
  import opened Sequences

  const ATA_RES_ERR_TIMEOUT := -502
  const ATA_RES_ERR_IO := -503
  const ATA_RES_ERR_ICRC := -510

  const ATA_C_READ_DMA := 0xc8
  const ATA_C_READ_DMA_EXT := 0x25
  const ATA_SEL_LBA := 0x40

  // ---- the registers ---------------------------------------------------------------------------

  // An address register of the drive: the last two bytes written to it.
  datatype Register = Register(previous: nat, current: nat) {
    function Write(value: nat): Register {
      Register(current, value % 0x100)
    }
  }

  datatype Registers = Registers(
    nsector: Register, sector: Register, lcyl: Register, hcyl: Register, select: nat, command: nat)
  {
    /** What the drive reads out of its registers: 28 address bits with four of them in the device register,
        or 48 from the last two bytes of each address register. */
    function Lba(): nat {
      if command == ATA_C_READ_DMA_EXT then
        0x100_0000_0000 * hcyl.previous + 0x1_0000_0000 * lcyl.previous + 0x100_0000 * sector.previous
        + 0x1_0000 * hcyl.current + 0x100 * lcyl.current + sector.current
      else
        0x100_0000 * (select % 16) + 0x1_0000 * hcyl.current + 0x100 * lcyl.current + sector.current
    }

    // A count of zero stands for the largest.
    function Count(): nat {
      if command == ATA_C_READ_DMA_EXT then
        var n := 0x100 * nsector.previous + nsector.current;
        if n == 0 then 0x1_0000 else n
      else if nsector.current == 0 then 0x100
      else nsector.current
    }
  }

  // The arguments ata_device_sector_io computes for one command.
  datatype Arguments = Arguments(nsector: nat, sector: nat, lcyl: nat, hcyl: nat, select: nat, command: nat)

  // The most sectors one command moves.
  function Most(ext: bool): nat {
    if ext then 16384 else 256
  }

  function Pack(ext: bool, device: nat, lba: nat, len: nat): Arguments {
    var lcyl, hcyl := lba / 0x100 % 0x100, lba / 0x1_0000 % 0x100;
    if ext then
      Arguments(len, lba / 0x100_0000 % 0x100 * 0x100 + lba % 0x100, lcyl, hcyl, 16 * device, ATA_C_READ_DMA_EXT)
    else
      Arguments(len, lba % 0x100, lcyl, hcyl, 16 * device + lba / 0x100_0000 % 16, ATA_C_READ_DMA)
  }

  // One pass over the registers, with the low or the high byte of each argument.
  function Pass(r: Registers, a: Arguments, high: bool): Registers {
    var shift := if high then 0x100 else 1;
    r.(nsector := r.nsector.Write(a.nsector / shift), sector := r.sector.Write(a.sector / shift),
       lcyl := r.lcyl.Write(a.lcyl / shift), hcyl := r.hcyl.Write(a.hcyl / shift))
  }

  // What ata_io_start leaves in the registers.
  function Issued(r: Registers, a: Arguments): Registers {
    var first := if a.command == ATA_C_READ_DMA_EXT then Pass(r, a, true) else r;
    Pass(first, a, false).(select := (a.select + ATA_SEL_LBA) % 0x100, command := a.command)
  }

  /** The drive decodes what was packed: any 32-bit address with 48-bit commands; with 28-bit commands
      exactly the addresses below 2^28. */
  lemma IssuedDecodes(r: Registers, ext: bool, device: nat, lba: nat, len: nat)
    requires device <= 1 && lba < 0x1_0000_0000 && 0 < len <= Most(ext)
    ensures Issued(r, Pack(ext, device, lba, len)).Count() == len
    ensures Issued(r, Pack(ext, device, lba, len)).Lba() == lba <==> ext || lba < 0x1000_0000
    ensures var r' := Issued(r, Pack(ext, device, lba, len));
      && r'.command == (if ext then 0x25 else 0xc8)
      && r'.select / 0x40 % 2 == 1 && r'.select / 0x10 % 2 == device
  {
    IssuedSelects(r, ext, device, lba, len);
    if ext {
      IssuedDecodesExt(r, device, lba, len);
    } else {
      IssuedDecodes28(r, device, lba, len);
    }
  }

  /** Where the bits of an address and a count go: register by register, and for the wide commands what was written first. */
  lemma IssuedRegisters(r: Registers, ext: bool, device: nat, lba: nat, len: nat)
    requires device <= 1 && lba < 0x1_0000_0000 && 0 < len <= Most(ext)
    ensures var r' := Issued(r, Pack(ext, device, lba, len));
      && r'.sector.current == lba % 0x100 && r'.lcyl.current == lba / 0x100 % 0x100 && r'.hcyl.current == lba / 0x1_0000 % 0x100
      && r'.nsector.current == len % 0x100
      && (!ext ==> r'.select % 0x10 == lba / 0x100_0000 % 0x10)
      && (ext ==> r'.sector.previous == lba / 0x100_0000 && r'.lcyl.previous == 0 && r'.hcyl.previous == 0
                  && r'.nsector.previous == len / 0x100)
  {
    FourBytes(lba);
    if ext {
      RegistersExt(r, device, lba, len);
    }
  }

  lemma RegistersExt(r: Registers, device: nat, lba: nat, len: nat)
    requires device <= 1 && lba < 0x1_0000_0000 && 0 < len <= Most(true) && lba / 0x100_0000 < 0x100
    ensures var r' := Issued(r, Pack(true, device, lba, len));
      && r'.sector == Register(lba / 0x100_0000, lba % 0x100) && r'.nsector == Register(len / 0x100, len % 0x100)
      && r'.lcyl == Register(0, lba / 0x100 % 0x100) && r'.hcyl == Register(0, lba / 0x1_0000 % 0x100)
  {
    TwoBytes(lba / 0x100_0000, lba % 0x100);
    TwoBytes(len / 0x100, len % 0x100);
  }

  // LBA mode and the device are selected, by the command of that width.
  lemma IssuedSelects(r: Registers, ext: bool, device: nat, lba: nat, len: nat)
    requires device <= 1
    ensures var r' := Issued(r, Pack(ext, device, lba, len));
      && r'.command == (if ext then 0x25 else 0xc8)
      && r'.select / 0x40 % 2 == 1 && r'.select / 0x10 % 2 == device
  {
  }

  lemma IssuedDecodes28(r: Registers, device: nat, lba: nat, len: nat)
    requires device <= 1 && lba < 0x1_0000_0000 && 0 < len <= Most(false)
    ensures Issued(r, Pack(false, device, lba, len)).Count() == len
    ensures Issued(r, Pack(false, device, lba, len)).Lba() == lba <==> lba < 0x1000_0000
  {
    FourBytes(lba);
    var r', high := Issued(r, Pack(false, device, lba, len)), lba / 0x100_0000;
    assert r'.select % 16 == high % 16 && r'.sector.current == lba % 0x100 && r'.nsector.current == len % 0x100;
    assert r'.lcyl.current == lba / 0x100 % 0x100 && r'.hcyl.current == lba / 0x1_0000 % 0x100;
    assert r'.Lba() - lba == 0x100_0000 * (high % 16 - high);
    assert high % 16 == high <==> high < 16;
  }

  lemma IssuedDecodesExt(r: Registers, device: nat, lba: nat, len: nat)
    requires device <= 1 && lba < 0x1_0000_0000 && 0 < len <= Most(true)
    ensures Issued(r, Pack(true, device, lba, len)).Count() == len
    ensures Issued(r, Pack(true, device, lba, len)).Lba() == lba
  {
    FourBytes(lba);
    IssuedRegisters(r, true, device, lba, len);
    IssuedSelects(r, true, device, lba, len);
    DecodedExt(Issued(r, Pack(true, device, lba, len)), lba, len);
  }

  lemma DecodedExt(r: Registers, lba: nat, len: nat)
    requires r.command == ATA_C_READ_DMA_EXT && 0 < len < 0x1_0000
    requires r.sector == Register(lba / 0x100_0000, lba % 0x100) && r.nsector == Register(len / 0x100, len % 0x100)
    requires r.lcyl == Register(0, lba / 0x100 % 0x100) && r.hcyl == Register(0, lba / 0x1_0000 % 0x100)
    requires lba == 0x100_0000 * (lba / 0x100_0000) + 0x1_0000 * (lba / 0x1_0000 % 0x100) + 0x100 * (lba / 0x100 % 0x100) + lba % 0x100
    ensures r.Count() == len && r.Lba() == lba
  {
  }

  lemma TwoBytes(high: nat, low: nat)
    requires high < 0x100 && low < 0x100
    ensures (0x100 * high + low) / 0x100 == high && (0x100 * high + low) % 0x100 == low
  {
  }

  lemma FourBytes(x: nat)
    requires x < 0x1_0000_0000
    ensures x == 0x100_0000 * (x / 0x100_0000) + 0x1_0000 * (x / 0x1_0000 % 0x100) + 0x100 * (x / 0x100 % 0x100) + x % 0x100
    ensures x / 0x100_0000 < 0x100
  {
    assert x / 0x1_0000 == x / 0x100 / 0x100 && x / 0x100_0000 == x / 0x1_0000 / 0x100;
  }

  class Drive {
    var nsector: Register
    var sector: Register
    var lcyl: Register
    var hcyl: Register
    var select: nat
    var command: nat

    function State(): Registers
      reads this
    {
      Registers(nsector, sector, lcyl, hcyl, select, command)
    }

    // Writing the registers of a command; nothing is written when it cannot start.
    method ata_io_start(error: int, a: Arguments) returns (res: int)
      modifies this
      ensures res == error
      ensures State() == if error == 0 then Issued(old(State()), a) else old(State())
    {
      if error != 0 {
        return error;
      }
      if a.command == ATA_C_READ_DMA_EXT {
        nsector := nsector.Write(a.nsector / 0x100);
        sector := sector.Write(a.sector / 0x100);
        lcyl := lcyl.Write(a.lcyl / 0x100);
        hcyl := hcyl.Write(a.hcyl / 0x100);
      }
      nsector := nsector.Write(a.nsector);
      sector := sector.Write(a.sector);
      lcyl := lcyl.Write(a.lcyl);
      hcyl := hcyl.Write(a.hcyl);
      select := (a.select + ATA_SEL_LBA) % 0x100;
      command := a.command;
      return 0;
    }
  }

  // ---- one DMA transfer ------------------------------------------------------------------------

  // What a turn of the transfer loop meets: so many blocks in the FIFO, a DMA request that fails, the
  // timeout, an error of the command, or an interrupt for nothing.
  datatype Poll = Fifo(n: nat) | Broken(error: int) | Timeout | Fault(icrc: bool) | Spurious

  predicate Possible(p: Poll) {
    (p.Fifo? ==> p.n < 32) && (p.Broken? ==> p.error < 0)
  }

  function FaultCode(icrc: bool): int {
    if icrc then ATA_RES_ERR_ICRC else ATA_RES_ERR_IO
  }

  // The result of a transfer of that many blocks. The alarm ends a run of polls that does not end by itself.
  function DmaResult(polls: seq<Poll>, blkcount: nat): int {
    if blkcount == 0 then 0
    else if polls == [] then ATA_RES_ERR_TIMEOUT
    else
      match polls[0]
      case Fifo(n) => DmaResult(polls[1..], if blkcount < n then 0 else blkcount - n)
      case Broken(error) => error
      case Timeout => ATA_RES_ERR_TIMEOUT
      case Fault(icrc) => FaultCode(icrc)
      case Spurious => DmaResult(polls[1..], blkcount)
  }

  // A request to the DMA controller: where to, how much, and the word that tells it so.
  datatype Dma = Dma(at: nat, nbytes: nat, word: nat) {
    // The word holds the number of blocks in its upper half and the size of one, in 4-byte units, in its lower.
    predicate WordSaysSize() {
      word < 0x1_0000_0000 && word / 0x1_0000 * (word % 0x1_0000 * 4) == nbytes
    }
  }

  lemma BlockWord(at: nat, count: nat)
    requires count < 32
    ensures Dma(at, count * 512, count * 512 * 0x200 + 32).WordSaysSize()
    ensures count * 512 * 0x200 + 32 == 0x1_0000 * (4 * count) + 32
  {
    var word := count * 512 * 0x200 + 32;
    assert word / 0x1_0000 == 4 * count && word % 0x1_0000 == 32;
  }

  // The requests cover [from, to) in order, each byte once.
  predicate Tile(reqs: seq<Dma>, from: nat, to: nat) {
    if reqs == [] then from == to
    else
      var last := reqs[|reqs| - 1];
      last.at + last.nbytes == to && Tile(reqs[..|reqs| - 1], from, last.at)
  }

  // The first `sent` bytes on the wire have come, by requests that tile the buffer in order.
  ghost predicate Moved(wire: nat -> Byte, at: nat, sent: nat, reqs: seq<Dma>, was: seq<Byte>, now: seq<Byte>) {
    && Tile(reqs, at, at + sent) && (forall r :: r in reqs ==> r.WordSaysSize())
    && now == Splice(was, at, Bytes(wire, 0, sent))
  }

  lemma MovedMore(wire: nat -> Byte, at: nat, sent: nat, n: nat, reqs: seq<Dma>, d: Dma,
                  was: seq<Byte>, mid: seq<Byte>, now: seq<Byte>)
    requires Moved(wire, at, sent, reqs, was, mid) && at + sent + n <= |was|
    requires d.at == at + sent && d.nbytes == n && d.WordSaysSize()
    requires now == Splice(mid, at + sent, Bytes(wire, sent, n))
    ensures Moved(wire, at, sent + n, reqs + [d], was, now)
  {
    assert (reqs + [d])[..|reqs|] == reqs;
    Adjacent(wire, 0, sent, n, at, was, mid, now);
  }

  // One request to the DMA controller, of `count` blocks.
  method Transfer(wire: nat -> Byte, buf: array<Byte>, p: nat, at: nat, count: nat, reqs: seq<Dma>, ghost was: seq<Byte>)
    returns (more: seq<Dma>)
    requires at <= p && p + count * 512 <= buf.Length == |was| && count < 32
    requires Moved(wire, at, p - at, reqs, was, buf[..])
    modifies buf
    ensures Moved(wire, at, p - at + count * 512, more, was, buf[..])
  {
    var nbytes := count * 512;
    var d := Dma(p, nbytes, nbytes * 0x200 + 32);
    BlockWord(p, count);
    ghost var mid := buf[..];
    var sent := p - at;
    ReadBytes(wire, sent, nbytes, buf, p);
    more := reqs + [d];
    assert Moved(wire, at, sent + nbytes, more, was, buf[..]) by {
      MovedMore(wire, at, sent, nbytes, reqs, d, was, mid, buf[..]);
    }
  }

  /** ata_dma_complete: for any sequence of FIFO counts the requests tile the buffer in order and the bytes
      on the wire land in it; all of them when it succeeds. */
  method ata_dma_complete(wire: nat -> Byte, polls: seq<Poll>, buf: array<Byte>, at: nat, blkcount0: nat)
    returns (res: int, reqs: seq<Dma>, ghost sent: nat)
    requires at + 512 * blkcount0 <= buf.Length && forall k :: 0 <= k < |polls| ==> Possible(polls[k])
    modifies buf
    ensures res == DmaResult(polls, blkcount0)
    ensures sent <= 512 * blkcount0 && (res == 0 ==> sent == 512 * blkcount0)
    ensures Moved(wire, at, sent, reqs, old(buf[..]), buf[..])
  {
    var blkcount: nat, p: nat, k: nat := blkcount0, at, 0;
    ghost var was := buf[..];
    reqs := [];
    while blkcount > 0
      invariant k <= |polls| && DmaResult(polls[k..], blkcount) == DmaResult(polls, blkcount0)
      invariant blkcount <= blkcount0 && p == at + 512 * (blkcount0 - blkcount)
      invariant Moved(wire, at, p - at, reqs, was, buf[..])
      decreases |polls| - k
    {
      sent := p - at;
      if k == |polls| || polls[k].Timeout? {
        return ATA_RES_ERR_TIMEOUT, reqs, sent;
      }
      assert polls[k..][1..] == polls[k + 1..] && Possible(polls[k]);
      var poll := polls[k];
      k := k + 1;
      match poll {
        case Fault(icrc) =>
          return FaultCode(icrc), reqs, sent;
        case Broken(error) =>
          return error, reqs, sent;
        case Spurious =>
        case Fifo(dma_stat) =>
          var count := if blkcount < dma_stat then blkcount else dma_stat;
          reqs := Transfer(wire, buf, p, at, count, reqs, was);
          p := p + count * 512;
          blkcount := blkcount - count;
      }
    }
    res, sent := 0, p - at;
  }

  // ---- one command, and its repetitions --------------------------------------------------------

  datatype Status = Good | Checksum | Failed

  // What becomes of one attempt at a command: an error before it starts, the polls of its transfer, an
  // alarm after it, the final status, and what is on the wire when that is not good.
  datatype Attempt = Attempt(error: int, polls: seq<Poll>, late: bool, status: Status, junk: nat -> Byte)

  // A command that ends well has sent the sectors its registers name.
  function Wire(disk: nat -> Byte, a: Attempt, r: Registers): nat -> Byte {
    if a.status.Good? then (i: nat) => disk(512 * r.Lba() + i) else a.junk
  }

  function FinishResult(a: Attempt, blkcount: nat): int {
    if DmaResult(a.polls, blkcount) != 0 then DmaResult(a.polls, blkcount)
    else if a.late then ATA_RES_ERR_TIMEOUT
    else match a.status
      case Good => 0
      case Checksum => ATA_RES_ERR_ICRC
      case Failed => ATA_RES_ERR_IO
  }

  // The result of a command of `len` sectors that may still be tried `tries` times, attempts from k on.
  function CommandResult(attempts: nat -> Attempt, k: nat, tries: nat, len: nat): int
    requires 0 < tries
    decreases tries
  {
    var a := attempts(k);
    if a.error != 0 then a.error
    else if FinishResult(a, len) == ATA_RES_ERR_ICRC && tries > 1 then CommandResult(attempts, k + 1, tries - 1, len)
    else FinishResult(a, len)
  }

  ghost predicate AllPossible(attempts: nat -> Attempt) {
    forall k: nat, i :: 0 <= i < |attempts(k).polls| ==> Possible(attempts(k).polls[i])
  }

  /** Only a failed checksum is tried again: a command succeeds exactly when one of three attempts does after
      nothing but failed checksums. */
  lemma {:induction false} SucceedsIff(attempts: nat -> Attempt, k: nat, tries: nat, len: nat)
    requires 0 < tries
    ensures CommandResult(attempts, k, tries, len) == 0 <==> exists j ::
              && k <= j < k + tries && attempts(j).error == 0 && FinishResult(attempts(j), len) == 0
              && forall i :: k <= i < j ==> attempts(i).error == 0 && FinishResult(attempts(i), len) == ATA_RES_ERR_ICRC
    decreases tries
  {
    var a := attempts(k);
    if a.error == 0 && FinishResult(a, len) == ATA_RES_ERR_ICRC && tries > 1 {
      SucceedsIff(attempts, k + 1, tries - 1, len);
    }
  }

  // A transfer that comes through: so many blocks at a time, until all have come.
  predicate Through(polls: seq<Poll>, blkcount: nat) {
    DmaResult(polls, blkcount) == 0
  }

  /** What is tried again is a failed checksum, whether the transfer stops at it or the final status tells; any other fault
      ends the command with its own code, -503 for an error and -502 for a timeout. */
  lemma WhatIsRetried(attempts: nat -> Attempt, k: nat, tries: nat, len: nat)
    requires 1 < tries && 0 < len && attempts(k).error == 0
    ensures var a := attempts(k);
      var again := CommandResult(attempts, k + 1, tries - 1, len);
      && (a.polls != [] && a.polls[0] == Fault(true) ==> CommandResult(attempts, k, tries, len) == again)
      && (a.polls != [] && a.polls[0] == Fault(false) ==> CommandResult(attempts, k, tries, len) == -503)
      && (a.polls == [] || a.polls[0] == Timeout ==> CommandResult(attempts, k, tries, len) == -502)
      && (Through(a.polls, len) && a.late ==> CommandResult(attempts, k, tries, len) == -502)
      && (Through(a.polls, len) && !a.late && a.status == Checksum ==> CommandResult(attempts, k, tries, len) == again)
      && (Through(a.polls, len) && !a.late && a.status == Failed ==> CommandResult(attempts, k, tries, len) == -503)
      && (Through(a.polls, len) && !a.late && a.status == Good ==> CommandResult(attempts, k, tries, len) == 0)
  {
  }

  /** A command whose checksum always fails is given up after three attempts, with the code of that failure. */
  lemma ThreeAttempts(attempts: nat -> Attempt, k: nat, len: nat)
    requires forall i: nat {:trigger attempts(i)} :: k <= i < k + 3 ==>
      attempts(i).error == 0 && Through(attempts(i).polls, len) && !attempts(i).late && attempts(i).status == Checksum
    ensures CommandResult(attempts, k, TRIES, len) == -510 && Tries(attempts, k, TRIES, len) == 3
  {
    assert FinishResult(attempts(k), len) == FinishResult(attempts(k + 1), len) == FinishResult(attempts(k + 2), len) == -510;
    assert CommandResult(attempts, k + 1, 2, len) == -510 && Tries(attempts, k + 1, 2, len) == 2;
  }

  // Polls that only bring blocks or nothing get a transfer through as soon as the blocks add up.
  lemma BlocksAddUp(polls: seq<Poll>, blkcount: nat, n: nat)
    requires polls != [] && polls[0] == Fifo(n)
    ensures n < blkcount ==> DmaResult(polls, blkcount) == DmaResult(polls[1..], blkcount - n)
    ensures n >= blkcount ==> Through(polls, blkcount)
  {
  }

  // Only [at, at + n) may have changed.
  ghost predicate Within(at: nat, n: nat, was: seq<Byte>, now: seq<Byte>) {
    && |now| == |was| && at + n <= |was|
    && now[..at] == was[..at] && now[at + n..] == was[at + n..]
  }

  // Sectors [lba, lba + count) have come.
  ghost predicate Come(disk: nat -> Byte, lba: nat, count: nat, at: nat, was: seq<Byte>, now: seq<Byte>) {
    && Within(at, 512 * count, was, now)
    && now == Splice(was, at, Bytes(disk, 512 * lba, 512 * count))
  }

  // One attempt, from the registers to the final status.
  method TryCommand(drive: Drive, disk: nat -> Byte, attempt: Attempt, args: Arguments, buf: array<Byte>, at: nat, len: nat,
                    ghost was: seq<Byte>)
    returns (res: int)
    requires at + 512 * len <= buf.Length && was == buf[..]
    requires forall i :: 0 <= i < |attempt.polls| ==> Possible(attempt.polls[i])
    modifies drive, buf
    ensures res == if attempt.error != 0 then attempt.error else FinishResult(attempt, len)
    ensures attempt.error == 0 ==> drive.State() == Issued(old(drive.State()), args)
    ensures Within(at, 512 * len, was, buf[..])
    ensures res == 0 ==> Come(disk, drive.State().Lba(), len, at, was, buf[..])
  {
    res := drive.ata_io_start(attempt.error, args);
    if res != 0 {
      return;
    }
    ghost var reqs, sent;
    var wire := Wire(disk, attempt, drive.State());
    res, reqs, sent := ata_dma_complete(wire, attempt.polls, buf, at, len);
    if res != 0 {
      return;
    }
    if attempt.late {
      return ATA_RES_ERR_TIMEOUT;
    }
    match attempt.status {
      case Good =>
        assert Bytes(wire, 0, sent) == Bytes(disk, 512 * drive.State().Lba(), sent);
      case Checksum => res := ATA_RES_ERR_ICRC;
      case Failed => res := ATA_RES_ERR_IO;
    }
  }

  // How many attempts a command takes.
  function Tries(attempts: nat -> Attempt, k: nat, tries: nat, len: nat): (n: nat)
    requires 0 < tries
    ensures 0 < n <= tries
    decreases tries
  {
    var a := attempts(k);
    if a.error == 0 && FinishResult(a, len) == ATA_RES_ERR_ICRC && tries > 1 then 1 + Tries(attempts, k + 1, tries - 1, len)
    else 1
  }

  const TRIES := 3

  // One command with its repetitions. Each starts over, so what a failed one left does not show.
  method RunCommand(drive: Drive, disk: nat -> Byte, attempts: nat -> Attempt, k0: nat, args: Arguments,
                    buf: array<Byte>, at: nat, len: nat, ghost was: seq<Byte>)
    returns (res: int, k: nat)
    requires at + 512 * len <= buf.Length && was == buf[..] && AllPossible(attempts)
    modifies drive, buf
    ensures res == CommandResult(attempts, k0, TRIES, len) && k == k0 + Tries(attempts, k0, TRIES, len)
    ensures Within(at, 512 * len, was, buf[..])
    ensures res == 0 ==> exists r :: drive.State() == Issued(r, args)
    ensures res == 0 ==> Come(disk, drive.State().Lba(), len, at, was, buf[..])
  {
    var retries: nat := TRIES;
    k := k0;
    while true
      invariant 0 < retries && Within(at, 512 * len, was, buf[..])
      invariant CommandResult(attempts, k, retries, len) == CommandResult(attempts, k0, TRIES, len)
      invariant k + Tries(attempts, k, retries, len) == k0 + Tries(attempts, k0, TRIES, len)
      decreases retries
    {
      ghost var mid, r := buf[..], drive.State();
      res := TryCommand(drive, disk, attempts(k), args, buf, at, len, mid);
      var started := attempts(k).error == 0;
      k := k + 1;
      if !started || res != ATA_RES_ERR_ICRC || retries == 1 {
        if res == 0 {
          assert drive.State() == Issued(r, args);
          Overwrites(disk, drive.State().Lba(), len, at, was, mid, buf[..]);
        }
        return;
      }
      retries := retries - 1;
    }
  }

  lemma Overwrites(disk: nat -> Byte, lba: nat, count: nat, at: nat, was: seq<Byte>, mid: seq<Byte>, now: seq<Byte>)
    requires Within(at, 512 * count, was, mid) && Come(disk, lba, count, at, mid, now)
    ensures Come(disk, lba, count, at, was, now)
  {
  }

  // ---- a whole request -------------------------------------------------------------------------

  // A command as the drive understood it.
  datatype Command = Command(lba: nat, count: nat)

  // The commands cover sectors [from, to) in order, each once, none with more than it may move.
  predicate Split(cmds: seq<Command>, ext: bool, from: nat, to: nat) {
    if cmds == [] then from == to
    else
      var last := cmds[|cmds| - 1];
      && last.lba + last.count == to && 0 < last.count <= Most(ext)
      && Split(cmds[..|cmds| - 1], ext, from, last.lba)
  }

  function NextLength(ext: bool, nsectors: nat): nat {
    if nsectors > Most(ext) then Most(ext) else nsectors
  }

  // The result of a request: that of its first command to fail.
  function IoResult(attempts: nat -> Attempt, k: nat, ext: bool, nsectors: nat): int
    decreases nsectors
  {
    if nsectors == 0 then 0
    else
      var len := NextLength(ext, nsectors);
      var res := CommandResult(attempts, k, TRIES, len);
      if res != 0 then res else IoResult(attempts, k + Tries(attempts, k, TRIES, len), ext, nsectors - len)
  }

  /** The result of a request is 0 when every command of it succeeds, and otherwise that of the first to fail. */
  lemma {:induction false} IoResultIs(attempts: nat -> Attempt, k: nat, ext: bool, nsectors: nat)
    requires 0 < nsectors
    ensures var len := if nsectors > Most(ext) then Most(ext) else nsectors;
      var res := CommandResult(attempts, k, 3, len);
      && (res != 0 ==> IoResult(attempts, k, ext, nsectors) == res)
      && (res == 0 && nsectors == len ==> IoResult(attempts, k, ext, nsectors) == 0)
      && (res == 0 ==> IoResult(attempts, k, ext, nsectors) == IoResult(attempts, k + Tries(attempts, k, 3, len), ext, nsectors - len))
  {
  }

  // The command for a chunk.
  method NextCommand(drive: Drive, disk: nat -> Byte, ext: bool, device: nat, attempts: nat -> Attempt, k0: nat,
                     buf: array<Byte>, at: nat, lba: nat, len: nat, ghost was: seq<Byte>)
    returns (res: int, k: nat, cmd: Command)
    requires device <= 1 && lba + len <= (if ext then 0x1_0000_0000 else 0x1000_0000) && 0 < len <= Most(ext)
    requires at + 512 * len <= buf.Length && was == buf[..] && AllPossible(attempts)
    modifies drive, buf
    ensures res == CommandResult(attempts, k0, TRIES, len) && k == k0 + Tries(attempts, k0, TRIES, len)
    ensures Within(at, 512 * len, was, buf[..])
    ensures res == 0 ==> cmd == Command(lba, len) && Come(disk, lba, len, at, was, buf[..])
  {
    var args := Pack(ext, device, lba, len);
    res, k := RunCommand(drive, disk, attempts, k0, args, buf, at, len, was);
    cmd := Command(drive.State().Lba(), drive.State().Count());
    if res == 0 {
      ghost var r :| drive.State() == Issued(r, args);
      IssuedDecodes(r, ext, device, lba, len);
    }
  }

  // The first `done` sectors of the request have come, by the commands so far.
  ghost predicate Progress(disk: nat -> Byte, ext: bool, lba: nat, n: nat, at: nat, done: nat, cmds: seq<Command>,
                           was: seq<Byte>, now: seq<Byte>)
  {
    && done <= n && Split(cmds, ext, lba, lba + done)
    && Within(at, 512 * n, was, now)
    && now[at..at + 512 * done] == Bytes(disk, 512 * lba, 512 * done)
  }

  lemma ProgressKept(disk: nat -> Byte, ext: bool, lba: nat, n: nat, at: nat, done: nat, cmds: seq<Command>, len: nat,
                     was: seq<Byte>, mid: seq<Byte>, now: seq<Byte>)
    requires Progress(disk, ext, lba, n, at, done, cmds, was, mid)
    requires done + len <= n && Within(at + 512 * done, 512 * len, mid, now)
    ensures Progress(disk, ext, lba, n, at, done, cmds, was, now)
  {
    assert now[at..at + 512 * done] == mid[at..at + 512 * done];
  }

  lemma ProgressMade(disk: nat -> Byte, ext: bool, lba: nat, n: nat, at: nat, done: nat, cmds: seq<Command>, len: nat,
                     was: seq<Byte>, mid: seq<Byte>, now: seq<Byte>)
    requires Progress(disk, ext, lba, n, at, done, cmds, was, now)
    requires done + len <= n && 0 < len <= Most(ext) && Come(disk, lba + done, len, at + 512 * done, mid, now)
    ensures Progress(disk, ext, lba, n, at, done + len, cmds + [Command(lba + done, len)], was, now)
  {
    assert (cmds + [Command(lba + done, len)])[..|cmds|] == cmds;
    BytesSplit(disk, 512 * lba, 512 * done, 512 * len);
    assert now[at..at + 512 * (done + len)] == now[at..at + 512 * done] + Bytes(disk, 512 * (lba + done), 512 * len);
  }

  // One turn of the loop below.
  method ReadChunk(drive: Drive, disk: nat -> Byte, ext: bool, device: nat, attempts: nat -> Attempt, k0: nat,
                   buf: array<Byte>, at: nat, lba: nat, len: nat, cmds0: seq<Command>,
                   ghost lba0: nat, ghost n: nat, ghost at0: nat, ghost done: nat, ghost was: seq<Byte>)
    returns (res: int, k: nat, cmds: seq<Command>)
    requires device <= 1 && lba0 + n <= (if ext then 0x1_0000_0000 else 0x1000_0000) && at0 + 512 * n <= buf.Length
    requires 0 < len <= Most(ext) && done + len <= n && lba == lba0 + done && at == at0 + 512 * done
    requires AllPossible(attempts) && Progress(disk, ext, lba0, n, at0, done, cmds0, was, buf[..])
    modifies drive, buf
    ensures res == CommandResult(attempts, k0, TRIES, len) && k == k0 + Tries(attempts, k0, TRIES, len)
    ensures Progress(disk, ext, lba0, n, at0, if res == 0 then done + len else done, cmds, was, buf[..])
  {
    ghost var mid := buf[..];
    var cmd;
    res, k, cmd := NextCommand(drive, disk, ext, device, attempts, k0, buf, at, lba, len, mid);
    ProgressKept(disk, ext, lba0, n, at0, done, cmds0, len, was, mid, buf[..]);
    cmds := cmds0;
    if res == 0 {
      ProgressMade(disk, ext, lba0, n, at0, done, cmds0, len, was, mid, buf[..]);
      cmds := cmds0 + [cmd];
    }
  }

  /** ata_device_sector_io, reading. When it succeeds the drive was given commands that split the request
      exactly, and the buffer holds the sectors whatever attempts failed on the way; otherwise the result
      is the first command's that failed, and the sectors before that command have come. */
  method ata_device_sector_io(drive: Drive, disk: nat -> Byte, ext: bool, device: nat, attempts: nat -> Attempt, k0: nat,
                              buf: array<Byte>, at: nat, lba0: nat, nsectors0: nat)
    returns (res: int, k: nat, cmds: seq<Command>, ghost done: nat)
    requires device <= 1 && lba0 + nsectors0 <= (if ext then 0x1_0000_0000 else 0x1000_0000)
    requires at + 512 * nsectors0 <= buf.Length && AllPossible(attempts)
    modifies drive, buf
    ensures res == IoResult(attempts, k0, ext, nsectors0)
    ensures res == 0 ==> done == nsectors0
    ensures Progress(disk, ext, lba0, nsectors0, at, done, cmds, old(buf[..]), buf[..])
  {
    var p: nat, lba: nat, nsectors: nat := at, lba0, nsectors0;
    ghost var was := buf[..];
    res, cmds, done, k := 0, [], 0, k0;
    while nsectors > 0
      invariant done + nsectors == nsectors0 && p == at + 512 * done && lba == lba0 + done
      invariant IoResult(attempts, k, ext, nsectors) == IoResult(attempts, k0, ext, nsectors0)
      invariant Progress(disk, ext, lba0, nsectors0, at, done, cmds, was, buf[..])
    {
      var len := NextLength(ext, nsectors);
      res, k, cmds := ReadChunk(drive, disk, ext, device, attempts, k, buf, p, lba, len, cmds, lba0, nsectors0, at, done, was);
      if res != 0 {
        return;
      }
      done := done + len;
      p := p + len * 512;
      lba := lba + len;
      nsectors := nsectors - len;
    }
    res := 0;
  }
}
