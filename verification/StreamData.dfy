/** The stream engine in the driver's own form: the fields of `cdvdman_stat.StreamingData`, updated
    in place by the functions of cdvdman/streaming.c. 16-bit fields are reduced modulo 2^16 wherever
    the driver adds to them; every method is proved equal to the queue function of `StreamRing`
    that specifies it. */
module StreamData {
  import opened Sequences
  import opened StreamRing
  import opened Words

  // One SIF transfer descriptor, counted in sectors.
  datatype Transfer = Transfer(src: nat, dest: nat, size: nat)

  // The memory cells a descriptor list reads, in the order of the destination.
  function Sources(dmat: seq<Transfer>): seq<nat> {
    if dmat == [] then [] else Cells(dmat[0]) + Sources(dmat[1..])
  }

  function Cells(t: Transfer): seq<nat> {
    seq(t.size, i requires 0 <= i => t.src + i)
  }

  function Size(dmat: seq<Transfer>): nat {
    if dmat == [] then 0 else dmat[0].size + Size(dmat[1..])
  }

  // Every descriptor starts where the one before it ended.
  predicate Contiguous(dmat: seq<Transfer>, dest: nat) {
    dmat == [] || (dmat[0].dest == dest && Contiguous(dmat[1..], dest + dmat[0].size))
  }

  lemma {:induction false} AddTransfer(dmat: seq<Transfer>, dest: nat, t: Transfer)
    requires Contiguous(dmat, dest) && t.dest == dest + Size(dmat)
    ensures Contiguous(dmat + [t], dest)
    ensures Sources(dmat + [t]) == Sources(dmat) + Cells(t)
    ensures Size(dmat + [t]) == Size(dmat) + t.size
  {
    if dmat == [] {
      assert [t][1..] == [];
    } else {
      AddTransfer(dmat[1..], dest + dmat[0].size, t);
      assert (dmat + [t])[1..] == dmat[1..] + [t];
    }
  }

  class StreamingData {
    var StBufmax: nat
    var StBankmax: nat
    var StBanksize: nat
    var StWritePtr: nat
    var StReadPtr: nat
    var StStreamed: nat
    var StStat: bool
    var StIsReading: bool
    var StIOP_bufaddr: nat
    var Stlsn: nat
    var Stm0Callback: bool
    var StmAlarm: bool
    var drive: Drive
    const mem: array<Sector>

    constructor (mem: array<Sector>)
      ensures this.mem == mem
      ensures Now() == Ring(0, 0, 0, 0, 0, 0, false, false, 0, 0, false, false, Free, mem[..])
    {
      this.mem := mem;
      StBufmax, StBankmax, StBanksize, StWritePtr, StReadPtr, StStreamed := 0, 0, 0, 0, 0, 0;
      StStat, StIsReading, StIOP_bufaddr, Stlsn := false, false, 0, 0;
      Stm0Callback, StmAlarm, drive := false, false, Free;
    }

    ghost function Now(): Ring
      reads this, mem
    {
      Ring(StBufmax, StBankmax, StBanksize, StWritePtr, StReadPtr, StStreamed, StStat, StIsReading,
           StIOP_bufaddr, Stlsn, Stm0Callback, StmAlarm, drive, mem[..])
    }

    method StReset()
      modifies this
      ensures Now() == old(Now()).Reset()
    {
      StWritePtr := 0;
      StReadPtr := 0;
      StStreamed := 0;
      StIsReading := false;
    }

    method sceCdStInit(bufmax: nat, bankmax: nat, iop_bufaddr: nat)
      requires 0 < bankmax
      modifies this
      ensures Now() == Initialised(old(Now()), bufmax, bankmax, iop_bufaddr)
    {
      StmAlarm := false;
      StBankmax := U16(bankmax);
      StBanksize := U16(bufmax / bankmax);
      StBufmax := U16(StBanksize * StBankmax);
      StIOP_bufaddr := iop_bufaddr;
      StReset();
    }

    method AllocBank() returns (pointer: nat, result: int)
      ensures result == 0 <==> Now().Room()
      ensures result == 0 ==> pointer == StIOP_bufaddr + StWritePtr
    {
      if StBufmax - StStreamed >= StBanksize {
        pointer, result := StIOP_bufaddr + StWritePtr, 0;
      } else {
        pointer, result := 0, -12;
      }
    }

    // The critical section at the head of StFillStreamBuffer: the flag is up when it ends, bank or no bank.
    method ClaimBank() returns (claimed: Claimed)
      modifies this
      ensures (Now(), claimed) == old(Now()).Claim()
    {
      if StIsReading {
        return Underway;
      }
      StmAlarm := false;
      StIsReading := true;
      var pointer, result := AllocBank();
      claimed := if result == 0 then Bank(pointer) else Full;
    }

    method cdvdman_AsyncRead(lsn: nat, sectors: nat, buf: nat) returns (accepted: bool)
      modifies this`drive
      ensures accepted == old(drive.Free?)
      ensures drive == if accepted then Busy(lsn, sectors, buf, 0, true) else old(drive)
    {
      accepted := drive.Free?;
      if accepted {
        drive := Busy(lsn, sectors, buf, 0, true);
      }
    }

    // The rest of StFillStreamBuffer, once a bank is claimed.
    method IssueRead(pointer: nat) returns (result: int)
      modifies this
      ensures var (g, accepted) := old(Now()).Issue(pointer);
        Now() == (if accepted then g else g.GiveUp()) && result == if accepted then 0 else -1
    {
      var accepted := cdvdman_AsyncRead(Stlsn, StBanksize, pointer);
      if accepted {
        result := 0;
      } else {
        StIsReading := false;
        result := -1;
      }
    }

    method StFillStreamBuffer() returns (result: int)
      modifies this
      ensures (Now(), result) == old(Now()).Fill()
    {
      var claimed := ClaimBank();
      match claimed {
        case Underway => result := 0;
        case Full =>
          StIsReading := false;
          result := 1;
        case Bank(pointer) => result := IssueRead(pointer);
      }
    }

    method StStartFillStreamBuffer()
      modifies this
      ensures Now() == old(Now()).StartFill()
    {
      var result := StFillStreamBuffer();
      if result < 0 {
        StmAlarm := true;
      }
    }

    // The critical section of StmCallback.
    method CreditBank()
      modifies this
      ensures Now() == old(Now()).Credit()
    {
      if StIsReading {
        Stlsn := U32(Stlsn + StBanksize);
        StStreamed := U16(StStreamed + StBanksize);
        StWritePtr := U16(StWritePtr + StBanksize);
        if StWritePtr >= StBufmax {
          StWritePtr := 0;
        }
        StIsReading := false;
      }
      assert mem[..] == old(mem[..]);
    }

    // Runs on the reader thread when a read has completed and the callback is installed.
    method StmCallback()
      modifies this
      ensures Now() == old(Now()).Callback()
    {
      CreditBank();
      StStartFillStreamBuffer();
    }

    // Now().Circular(), in terms of the fields.
    predicate Queued()
      reads this
    {
      && StIOP_bufaddr + StBufmax <= mem.Length && StReadPtr < StBufmax && StStreamed <= StBufmax
      && StWritePtr == Around(StBufmax, StReadPtr, StStreamed)
    }

    // One memcpy stretch of ReadSectors, with the pointer updates that follow it.
    method TakeStretch(SectorsToCopy: nat, buffer: array<Sector>, at: nat)
      requires Queued() && buffer != mem && at + SectorsToCopy <= buffer.Length
      requires SectorsToCopy <= StStreamed && StReadPtr + SectorsToCopy <= StBufmax
      modifies this`StReadPtr, this`StStreamed, buffer
      ensures StReadPtr == Around(StBufmax, old(StReadPtr), SectorsToCopy)
      ensures StStreamed == old(StStreamed) - SectorsToCopy
      ensures buffer[..] == Splice(old(buffer[..]), at, Queue(mem[..], StIOP_bufaddr, StBufmax, old(StReadPtr), SectorsToCopy))
    {
      CopyOut(mem, StIOP_bufaddr + StReadPtr, buffer, at, SectorsToCopy);
      StraightQueue(mem[..], StIOP_bufaddr, StBufmax, StReadPtr, SectorsToCopy);
      StReadPtr := StReadPtr + SectorsToCopy;
      if StReadPtr >= StBufmax {
        StReadPtr := 0;
      }
      StStreamed := StStreamed - SectorsToCopy;
    }

    // When Wr <= Rd, what is buffered runs to the end of the ring: take from there first.
    method TakeToEnd(maxcount: nat, buffer: array<Sector>, at: nat) returns (result: nat)
      requires Queued() && buffer != mem && at + maxcount <= buffer.Length
      modifies this`StReadPtr, this`StStreamed, buffer
      ensures result <= maxcount && result <= old(StStreamed) && Queued()
      ensures StReadPtr == Around(StBufmax, old(StReadPtr), result) && StStreamed == old(StStreamed) - result
      ensures result < maxcount ==> StReadPtr + StStreamed == StWritePtr
      ensures buffer[..] == Splice(old(buffer[..]), at, Queue(mem[..], StIOP_bufaddr, StBufmax, old(StReadPtr), result))
    {
      result := 0;
      if StWritePtr <= StReadPtr && StStreamed > 0 {
        var SectorsToCopy := StBufmax - StReadPtr;
        if SectorsToCopy > maxcount {
          SectorsToCopy := maxcount;
        }
        TakeStretch(SectorsToCopy, buffer, at);
        result := result + SectorsToCopy;
      }
    }

    // When Rd < Wr, what is buffered lies between them.
    method TakeToWrite(maxcount: nat, buffer: array<Sector>, at: nat) returns (result: nat)
      requires Queued() && buffer != mem && at + maxcount <= buffer.Length
      requires 0 < maxcount ==> StReadPtr + StStreamed == StWritePtr
      modifies this`StReadPtr, this`StStreamed, buffer
      ensures result == if maxcount <= old(StStreamed) then maxcount else old(StStreamed)
      ensures StReadPtr == Around(StBufmax, old(StReadPtr), result) && StStreamed == old(StStreamed) - result
      ensures buffer[..] == Splice(old(buffer[..]), at, Queue(mem[..], StIOP_bufaddr, StBufmax, old(StReadPtr), result))
    {
      result := 0;
      if 0 < maxcount && StReadPtr < StWritePtr {
        var SectorsToCopy := StWritePtr - StReadPtr;
        if SectorsToCopy > maxcount {
          SectorsToCopy := maxcount;
        }
        TakeStretch(SectorsToCopy, buffer, at);
        result := SectorsToCopy;
      }
    }

    // The two stretches, up to the end of the ring and from its start.
    method TakeBoth(maxcount: nat, buffer: array<Sector>, at: nat, ghost was: seq<Sector>) returns (result: nat)
      requires Queued() && buffer != mem && at + maxcount <= buffer.Length && was == buffer[..]
      modifies this`StReadPtr, this`StStreamed, buffer
      ensures result == Least(maxcount, old(StStreamed))
      ensures StReadPtr == Around(StBufmax, old(StReadPtr), result) && StStreamed == old(StStreamed) - result
      ensures buffer[..] == Splice(was, at, Queue(mem[..], StIOP_bufaddr, StBufmax, old(StReadPtr), result))
    {
      ghost var m, r := mem[..], StReadPtr;
      var first := TakeToEnd(maxcount, buffer, at);
      assert mem[..] == m;
      ghost var mid := StReadPtr;
      var rest := TakeToWrite(maxcount - first, buffer, at + first);
      assert mem[..] == m;
      result := first + rest;
      QueueTwice(m, StIOP_bufaddr, StBufmax, r, first, rest);
      assert buffer[..] == Splice(was, at, Queue(m, StIOP_bufaddr, StBufmax, r, result)) by {
        SpliceTwice(was, at, Queue(m, StIOP_bufaddr, StBufmax, r, first), Queue(m, StIOP_bufaddr, StBufmax, mid, rest));
      }
    }

    /** ReadSectors: the memcpy path hands out the oldest buffered sectors in order and removes just those. */
    method ReadSectors(maxcount: nat, buffer: array<Sector>, at: nat) returns (result: nat)
      requires Queued() && buffer != mem && at + maxcount <= buffer.Length
      modifies this`StReadPtr, this`StStreamed, buffer
      ensures result == old(Now()).Available(maxcount) == Least(maxcount, old(StStreamed))
      ensures Now() == old(Now()).Consume(result)
      ensures buffer[..] == Splice(old(buffer[..]), at, old(Now()).Taken(result))
    {
      AvailableIs(Now(), maxcount);
      result := TakeBoth(maxcount, buffer, at, buffer[..]);
    }

    /** The first critical section of ReadSectorsEE: at most two descriptors, which together name the
        oldest buffered sectors in order and fill the destination without a gap. Nothing is
        removed from the ring yet. */
    method DescribeTransfers(maxcount: nat, buffer: nat) returns (dmat: seq<Transfer>, rdptr: nat, result: nat)
      requires Now().Circular()
      ensures result == Now().Available(maxcount)
      ensures |dmat| <= 2 && Contiguous(dmat, buffer)
      ensures |Sources(dmat)| == result
      ensures forall i: nat :: i < result ==> Sources(dmat)[i] == Now().base + Now().Slot(i)
      ensures rdptr == Now().Slot(result)
    {
      assert Now().Available(maxcount) == Least(maxcount, StStreamed) by {
        AvailableIs(Now(), maxcount);
      }
      result, dmat, rdptr := 0, [], StReadPtr;
      var ptr := buffer;
      if StWritePtr <= rdptr && StStreamed > 0 {
        var SectorsToCopy := StBufmax - rdptr;
        if SectorsToCopy > maxcount {
          SectorsToCopy := maxcount;
        }
        if SectorsToCopy > 0 {
          AddTransfer(dmat, buffer, Transfer(StIOP_bufaddr + rdptr, buffer, SectorsToCopy));
          dmat := dmat + [Transfer(StIOP_bufaddr + rdptr, buffer, SectorsToCopy)];
          ptr := ptr + SectorsToCopy;
          rdptr := rdptr + SectorsToCopy;
          if rdptr >= StBufmax {
            rdptr := 0;
          }
          result := result + SectorsToCopy;
        }
      }
      if result < maxcount && rdptr < StWritePtr {
        var SectorsToCopy := StWritePtr - rdptr;
        if SectorsToCopy > maxcount - result {
          SectorsToCopy := maxcount - result;
        }
        if SectorsToCopy > 0 {
          AddTransfer(dmat, buffer, Transfer(StIOP_bufaddr + rdptr, ptr, SectorsToCopy));
          dmat := dmat + [Transfer(StIOP_bufaddr + rdptr, ptr, SectorsToCopy)];
          rdptr := rdptr + SectorsToCopy;
          if rdptr >= StBufmax {
            rdptr := 0;
          }
          result := result + SectorsToCopy;
        }
      }
    }

    // The second critical section of ReadSectorsEE, after the transfer has finished.
    method FinishTransfers(rdptr: nat, result: nat)
      requires Now().Circular() && result <= Now().streamed && rdptr == Now().Slot(result)
      modifies this
      ensures Now() == old(Now()).Consume(result)
    {
      StReadPtr := rdptr;
      StStreamed := StStreamed - result;
    }

    // The critical section of sceCdStStart.
    method BeginStream(lsn: nat)
      modifies this
      ensures Now() == old(Now()).(lsn := lsn, stat := true, cb := true).Reset()
    {
      Stlsn := lsn;
      StStat := true;
      StReset();
      Stm0Callback := true;
    }

    // The critical section of sceCdStStop.
    method EndStream()
      modifies this
      ensures Now() == old(Now()).(cb := false, stat := false).Reset()
    {
      Stm0Callback := false;
      StStreamed := 0;
      StStat := false;
      StReset();
    }
  }
}
