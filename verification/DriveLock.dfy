/** Who owns the drive (cdvdman/cdvdman.c): `sync_flag`, bit 1 of the event flag, the reader thread's
    semaphore and the request fields, shared by any number of caller threads, the reader thread and
    interrupt handlers. Each event below is one step that no other thread can cut in two: a
    critical section, a single kernel call, or the test of a flag. */
module DriveLock {
  datatype Request = Request(lsn: nat, sectors: nat, buf: nat)

  // Where a caller thread is.
  datatype Place =
    | Idle
    | Locked                  // cdvdman_AsyncRead: locked, reader not signalled yet
    | Copying(req: Request)   // cdvdman_SyncRead: in cdvdman_read
    | Finished                // cdvdman_SyncRead: read done, still locked
    | Releasing               // sync_flag is 0, SetEventFlag not called yet
    | Testing                 // sceCdSync(0) or sceCdDiskReady(0): about to test sync_flag
    | Waiting                 // in WaitEventFlag

  datatype Reader =
    | Asleep                  // in WaitSema
    | Woken                   // about to load the request fields
    | Serving(req: Request)
    | Served
    | Freeing                 // sync_flag is 0, SetEventFlag not called yet
    | CallingBack
    | Relocked                // the stream callback locked the drive, reader not signalled yet

  datatype Owner = Nobody | Caller(i: nat) | Queue | ReaderThread

  /** The shared variables and every thread's place. `owner`, `accepted`, `served` and `mine` are
      bookkeeping: who holds the lock, the reads accepted and served so far, and for each thread
      how many had been accepted when its own latest one was. */
  datatype State = State(
    sync: bool,
    bit: bool,
    sema: nat,
    params: Request,
    threads: seq<Place>,
    reader: Reader,
    owner: Owner,
    accepted: seq<Request>,
    served: seq<Request>,
    mine: seq<nat>)

  datatype Event =
    | AsyncRead(i: nat, req: Request)
    | Signal(i: nat)
    | SyncRead(i: nat, req: Request)
    | CopyDone(i: nat)
    | Release(i: nat)
    | SetBit(i: nat)
    | CallSync(i: nat)
    | Test(i: nat)
    | Wake(i: nat)
    | Take
    | Load
    | ServeDone
    | Free
    | SetBitByReader
    | Return
    | CallbackRead(req: Request)
    | SignalSelf
    | InterruptRead(req: Request)

  predicate Enabled(s: State, e: Event) {
    match e
    case AsyncRead(i, _) => i < |s.threads| && s.threads[i].Idle?
    case SyncRead(i, _) => i < |s.threads| && s.threads[i].Idle?
    case CallSync(i) => i < |s.threads| && s.threads[i].Idle?
    case Signal(i) => i < |s.threads| && s.threads[i].Locked?
    case CopyDone(i) => i < |s.threads| && s.threads[i].Copying?
    case Release(i) => i < |s.threads| && s.threads[i].Finished?
    case SetBit(i) => i < |s.threads| && s.threads[i].Releasing?
    case Test(i) => i < |s.threads| && s.threads[i].Testing?
    case Wake(i) => i < |s.threads| && s.threads[i].Waiting? && s.bit
    case Take => s.reader.Asleep? && s.sema > 0
    case Load => s.reader.Woken?
    case ServeDone => s.reader.Serving?
    case Free => s.reader.Served?
    case SetBitByReader => s.reader.Freeing?
    case Return => s.reader.CallingBack?
    case CallbackRead(_) => s.reader.CallingBack?
    case SignalSelf => s.reader.Relocked?
    case InterruptRead(_) => true
  }

  // cdvdman_common_lock, when it succeeds, and the acceptance it stands for.
  function Lock(s: State, owner: Owner, req: Request): State {
    s.(bit := false, sync := true, owner := owner, accepted := s.accepted + [req])
  }

  // cdrom_rthread_sema holds at most one signal; a further one would be lost.
  function Signalled(s: State): State {
    s.(sema := if s.sema < 1 then s.sema + 1 else s.sema, owner := Queue)
  }

  function Move(s: State, i: nat, p: Place): State
    requires i < |s.threads|
  {
    s.(threads := s.threads[i := p])
  }

  function Next(s: State, e: Event): (t: State)
    requires Enabled(s, e) && |s.mine| == |s.threads|
    ensures |t.mine| == |t.threads|
  {
    match e
    case AsyncRead(i, req) =>
      if s.sync then s
      else Move(Lock(s, Caller(i), req), i, Locked).(params := req, mine := s.mine[i := |s.accepted| + 1])
    case Signal(i) => Move(Signalled(s), i, Idle)
    case SyncRead(i, req) =>
      if s.sync then s
      else Move(Lock(s, Caller(i), req), i, Copying(req)).(mine := s.mine[i := |s.accepted| + 1])
    case CopyDone(i) => Move(s, i, Finished).(served := s.served + [s.threads[i].req])
    case Release(i) => Move(s, i, Releasing).(sync := false, owner := Nobody)
    case SetBit(i) => Move(s, i, Idle).(bit := true)
    case CallSync(i) => if s.sync then Move(s, i, Testing) else s
    case Test(i) => Move(s, i, if s.sync then Waiting else Idle)
    case Wake(i) => Move(s, i, Testing)
    case Take => s.(sema := s.sema - 1, reader := Woken, owner := ReaderThread)
    case Load => s.(reader := Serving(s.params))
    case ServeDone => s.(reader := Served, served := s.served + [s.reader.req])
    case Free => s.(reader := Freeing, sync := false, owner := Nobody)
    case SetBitByReader => s.(reader := CallingBack, bit := true)
    case Return => s.(reader := Asleep)
    case CallbackRead(req) =>
      if s.sync then s.(reader := Asleep)
      else Lock(s, ReaderThread, req).(params := req, reader := Relocked)
    case SignalSelf => Signalled(s).(reader := Asleep)
    case InterruptRead(req) =>
      if s.sync then s else Signalled(Lock(s, Queue, req).(params := req))
  }

  // ---- the invariant ---------------------------------------------------------------------------

  predicate Holds(p: Place) {
    p.Locked? || p.Copying? || p.Finished?
  }

  predicate ReaderHolds(r: Reader) {
    r.Woken? || r.Serving? || r.Served? || r.Relocked?
  }

  // sync_flag is up exactly while one thread, or the signal on its way to the reader, owns the drive.
  predicate SingleOwner(s: State) {
    && (s.owner.Caller? ==> s.owner.i < |s.threads|)
    && (s.sync <==> !s.owner.Nobody?)
    && (forall i :: 0 <= i < |s.threads| ==> (Holds(s.threads[i]) <==> s.owner == Caller(i)))
    && s.sema == (if s.owner.Queue? then 1 else 0)
    && (ReaderHolds(s.reader) <==> s.owner.ReaderThread?)
  }

  // The request the owner still has to serve.
  function Outstanding(s: State): seq<Request> {
    match s.owner
    case Nobody => []
    case Queue => [s.params]
    case ReaderThread =>
      if s.reader.Serving? then [s.reader.req] else if s.reader.Served? then [] else [s.params]
    case Caller(i) =>
      if i < |s.threads| then
        match s.threads[i] {
          case Locked => [s.params]
          case Copying(req) => [req]
          case _ => []
        }
      else []
  }

  // Somebody is about to set event bit 1.
  ghost predicate Raising(s: State) {
    s.reader.Freeing? || exists i :: 0 <= i < |s.threads| && s.threads[i].Releasing?
  }

  ghost predicate Inv(s: State) {
    && |s.mine| == |s.threads|
    && SingleOwner(s)
    && s.accepted == s.served + Outstanding(s)
    && (forall i :: 0 <= i < |s.mine| ==> s.mine[i] <= |s.accepted|)
    && (s.bit || s.sync || Raising(s))
  }

  function Boot(n: nat): State {
    State(false, true, 0, Request(0, 0, 0), seq(n, i => Idle), Asleep, Nobody, [], [], seq(n, i => 0))
  }

  lemma InvStep(s: State, e: Event)
    requires Inv(s) && Enabled(s, e)
    ensures Inv(Next(s, e))
  {
    match e
    case AsyncRead(i, _) => InvLock(s, e);
    case SyncRead(i, _) => InvLock(s, e);
    case CallbackRead(_) => InvLock(s, e);
    case InterruptRead(_) => InvLock(s, e);
    case Signal(i) => InvHandOver(s, e);
    case Take => InvHandOver(s, e);
    case SignalSelf => InvHandOver(s, e);
    case CopyDone(i) => InvCaller(s, e);
    case Release(i) => InvCaller(s, e);
    case SetBit(i) => InvCaller(s, e);
    case CallSync(i) => InvCaller(s, e);
    case Test(i) => InvCaller(s, e);
    case Wake(i) => InvCaller(s, e);
    case _ =>
  }

  lemma InvLock(s: State, e: Event)
    requires Inv(s) && Enabled(s, e) && (e.AsyncRead? || e.SyncRead? || e.CallbackRead? || e.InterruptRead?)
    ensures Inv(Next(s, e))
  {
  }

  lemma InvHandOver(s: State, e: Event)
    requires Inv(s) && Enabled(s, e) && (e.Signal? || e.Take? || e.SignalSelf?)
    ensures Inv(Next(s, e))
  {
    assert e.Signal? ==> s.threads[e.i].Locked?;
  }

  lemma InvCaller(s: State, e: Event)
    requires Inv(s) && Enabled(s, e)
    requires e.CopyDone? || e.Release? || e.SetBit? || e.CallSync? || e.Test? || e.Wake?
    ensures Inv(Next(s, e))
  {
    assert e.Release? ==> Next(s, e).threads[e.i].Releasing?;
  }

  // ---- runs --------------------------------------------------------------------------------------

  ghost predicate Run(s: State, es: seq<Event>)
    requires |s.mine| == |s.threads|
    decreases |es|
  {
    es == [] || (Enabled(s, es[0]) && Run(Next(s, es[0]), es[1..]))
  }

  ghost function After(s: State, es: seq<Event>): (t: State)
    requires |s.mine| == |s.threads| && Run(s, es)
    ensures |t.mine| == |t.threads|
    decreases |es|
  {
    if es == [] then s else After(Next(s, es[0]), es[1..])
  }

  lemma {:induction false} InvRun(s: State, es: seq<Event>)
    requires Inv(s) && Run(s, es)
    ensures Inv(After(s, es))
    decreases |es|
  {
    if es != [] {
      InvStep(s, es[0]);
      InvRun(Next(s, es[0]), es[1..]);
    }
  }

  /** Single flight: in every run at most one thread is anywhere between taking the lock and giving it
      up, and then the reader is not, nor is a signal on its way to it. */
  lemma SingleFlight(n: nat, es: seq<Event>, i: nat, j: nat)
    requires Run(Boot(n), es)
    ensures var t := After(Boot(n), es);
      i < |t.threads| && j < |t.threads| && Holds(t.threads[i]) ==>
        (Holds(t.threads[j]) ==> i == j) && !ReaderHolds(t.reader) && t.sema == 0
  {
    InvRun(Boot(n), es);
  }

  /** Every accepted read is served exactly once, in the order of acceptance and with the sector,
      count and buffer it was accepted with: what has been served is what has been accepted, less
      at most the one read in flight. */
  lemma ServedOnceInOrder(n: nat, es: seq<Event>)
    requires Run(Boot(n), es)
    ensures var t := After(Boot(n), es);
      && t.served <= t.accepted && |t.accepted| <= |t.served| + 1
      && (!t.sync ==> t.served == t.accepted)
      && (t.reader.Serving? ==> |t.served| < |t.accepted| && t.reader.req == t.accepted[|t.served|])
  {
    InvRun(Boot(n), es);
  }

  /** The reader's semaphore never overflows, so no accepted read loses its wake-up signal. */
  lemma NoSignalLost(n: nat, es: seq<Event>, e: Event)
    requires Run(Boot(n), es) && Enabled(After(Boot(n), es), e)
    requires e.Signal? || e.SignalSelf? || (e.InterruptRead? && !After(Boot(n), es).sync)
    ensures After(Boot(n), es).sema == 0
  {
    InvRun(Boot(n), es);
  }

  /** sceCdSync(0) returns to its caller, at once or after any number of waits, only when all reads accepted up to that
      caller's own latest one have been served. */
  lemma SyncReturnsAfterOwnRead(n: nat, es: seq<Event>, e: Event)
    requires Run(Boot(n), es) && Enabled(After(Boot(n), es), e) && (e.CallSync? || e.Test? || e.Wake?)
    ensures var t := Next(After(Boot(n), es), e);
      && (t.threads[e.i].Idle? ==> t.mine[e.i] <= |t.served| && t.served <= t.accepted)
      && (!e.Wake? ==> (t.threads[e.i].Idle? <==> !After(Boot(n), es).sync))
  {
    InvRun(Boot(n), es);
    InvStep(After(Boot(n), es), e);
  }

  /** A read is accepted exactly when nobody owns the drive, with the arguments it was called with, and then the event
      bit is down for those who wait; a read that is refused changes nothing. */
  lemma AcceptedIffFree(n: nat, es: seq<Event>, i: nat, req: Request, e: Event)
    requires Run(Boot(n), es) && Enabled(After(Boot(n), es), e)
    requires e == AsyncRead(i, req) || e == SyncRead(i, req) || e == InterruptRead(req) || e == CallbackRead(req)
    ensures var s, t := After(Boot(n), es), Next(After(Boot(n), es), e);
      && (t.accepted == s.accepted + [req] <==> s.owner.Nobody?) && (!e.CallbackRead? ==> (t == s <==> !s.owner.Nobody?))
      && (e.CallbackRead? && !s.owner.Nobody? ==> t == s.(reader := Asleep))
      && (s.owner.Nobody? && (e.AsyncRead? || e.SyncRead?) ==> t.mine[i] == |t.accepted|)
      && (s.owner.Nobody? ==> !t.bit && t.sync && Outstanding(t) == [req])
  {
    InvRun(Boot(n), es);
    InvStep(After(Boot(n), es), e);
    assert |After(Boot(n), es).accepted + [req]| == |After(Boot(n), es).accepted| + 1;
  }

  // ---- wake-ups ------------------------------------------------------------------------------------

  // How many more steps the owner, or whoever is between clearing sync_flag and SetEventFlag, needs
  // before event bit 1 is up.
  function Distance(s: State): nat {
    match s.owner
    case Nobody => 1
    case Queue => if s.reader.CallingBack? then 7 else 6
    case ReaderThread =>
      (match s.reader case Woken => 5 case Serving(_) => 4 case Served => 3 case _ => 7)
    case Caller(i) =>
      if i < |s.threads| && s.threads[i].Locked? then 8
      else if i < |s.threads| && s.threads[i].Copying? then 3
      else 2
  }

  // The next step towards that.
  lemma Onward(s: State) returns (e: Event)
    requires Inv(s) && !s.bit
    ensures Enabled(s, e) && !e.Wake? && !e.Test? && !e.CallSync?
    ensures Next(s, e).bit || (!Next(s, e).bit && Distance(Next(s, e)) < Distance(s))
  {
    match s.owner
    case Nobody =>
      if s.reader.Freeing? {
        e := SetBitByReader;
      } else {
        var i: nat :| i < |s.threads| && s.threads[i].Releasing?;
        e := SetBit(i);
      }
    case Queue => e := QueueOnward(s);
    case ReaderThread =>
      e := match s.reader case Woken => Load case Serving(_) => ServeDone case Served => Free case _ => SignalSelf;
    case Caller(i) =>
      e := match s.threads[i] case Locked => Signal(i) case Copying(_) => CopyDone(i) case _ => Release(i);
  }

  lemma QueueOnward(s: State) returns (e: Event)
    requires Inv(s) && !s.bit && s.owner.Queue?
    ensures Enabled(s, e) && !e.Wake? && !e.Test? && !e.CallSync?
    ensures Next(s, e).bit || (!Next(s, e).bit && Distance(Next(s, e)) < Distance(s))
  {
    if s.reader.Asleep? {
      e := Take;
    } else if s.reader.Freeing? {
      e := SetBitByReader;
    } else {
      e := Return;
    }
  }

  /** No lost wake-up: from any reachable state the threads that are not waiters can, on their own and in
      at most eight steps, raise event bit 1. So nobody waits on the bit with nothing outstanding. */
  lemma WaitersAreWoken(n: nat, es: seq<Event>) returns (fs: seq<Event>)
    requires Run(Boot(n), es)
    ensures Run(After(Boot(n), es), fs) && |fs| <= 8
    ensures forall e :: e in fs ==> !e.Wake? && !e.Test? && !e.CallSync?
    ensures After(After(Boot(n), es), fs).bit
  {
    InvRun(Boot(n), es);
    fs := RaiseBit(After(Boot(n), es));
  }

  lemma {:induction false} RaiseBit(s: State) returns (fs: seq<Event>)
    requires Inv(s)
    ensures Run(s, fs) && After(s, fs).bit
    ensures |fs| <= Distance(s)
    ensures forall e :: e in fs ==> !e.Wake? && !e.Test? && !e.CallSync?
    decreases Distance(s)
  {
    if s.bit {
      fs := [];
    } else {
      var e := Onward(s);
      InvStep(s, e);
      if Next(s, e).bit {
        fs := [e];
      } else {
        fs := RaiseBit(Next(s, e));
        fs := [e] + fs;
      }
    }
  }

  // ---- sceCdSync can return --------------------------------------------------------------------------

  // How many steps the owner needs before the drive is free.
  function Busyness(s: State): nat {
    match s.owner
    case Nobody => 0
    case Queue => if s.reader.Asleep? then 5 else if s.reader.CallingBack? then 6 else 7
    case ReaderThread =>
      (match s.reader case Woken => 4 case Serving(_) => 3 case Served => 2 case _ => 8)
    case Caller(i) =>
      if i < |s.threads| && s.threads[i].Locked? then 9
      else if i < |s.threads| && s.threads[i].Copying? then 2
      else 1
  }

  lemma NearerFree(s: State, i: nat) returns (e: Event)
    requires Inv(s) && s.sync && i < |s.threads| && s.threads[i].Waiting?
    ensures Enabled(s, e) && Busyness(Next(s, e)) < Busyness(s)
    ensures Next(s, e).threads[i].Waiting? && i < |Next(s, e).threads|
  {
    match s.owner
    case Queue =>
      e := if s.reader.Asleep? then Take else if s.reader.CallingBack? then Return else SetBitByReader;
    case ReaderThread =>
      e := match s.reader case Woken => Load case Serving(_) => ServeDone case Served => Free case _ => SignalSelf;
    case Caller(j) =>
      e := match s.threads[j] case Locked => Signal(j) case Copying(_) => CopyDone(j) case _ => Release(j);
  }

  lemma {:induction false} DriveFrees(s: State, i: nat) returns (fs: seq<Event>)
    requires Inv(s) && i < |s.threads| && s.threads[i].Waiting?
    ensures Run(s, fs) && Inv(After(s, fs)) && !After(s, fs).sync
    ensures i < |After(s, fs).threads| && After(s, fs).threads[i].Waiting?
    decreases Busyness(s)
  {
    if !s.sync {
      fs := [];
    } else {
      var e := NearerFree(s, i);
      InvStep(s, e);
      fs := DriveFrees(Next(s, e), i);
      fs := [e] + fs;
    }
  }

  // A step in front of a run.
  lemma Before(s: State, e: Event, es: seq<Event>)
    requires |s.mine| == |s.threads| && Enabled(s, e) && Run(Next(s, e), es)
    ensures Run(s, [e] + es) && After(s, [e] + es) == After(Next(s, e), es)
  {
    assert ([e] + es)[1..] == es;
  }

  // With the drive free and the bit up a waiter leaves.
  lemma WakesAndLeaves(s: State, i: nat)
    requires |s.mine| == |s.threads| && !s.sync && s.bit && i < |s.threads| && s.threads[i].Waiting?
    ensures Run(s, [Wake(i)] + [Test(i)])
    ensures After(s, [Wake(i)] + [Test(i)]) == Move(s, i, Idle)
  {
    var t := Next(s, Wake(i));
    Before(t, Test(i), []);
    assert [Test(i)] + [] == [Test(i)];
    Before(s, Wake(i), [Test(i)]);
  }

  lemma WaiterLeaves(s: State, i: nat) returns (fs: seq<Event>)
    requires Inv(s) && !s.sync && i < |s.threads| && s.threads[i].Waiting?
    ensures Run(s, fs) && i < |After(s, fs).threads| && After(s, fs).threads[i].Idle?
  {
    fs := [Wake(i)] + [Test(i)];
    if s.bit {
      WakesAndLeaves(s, i);
    } else {
      var e := RaisingStep(s, i);
      WakesAndLeaves(Next(s, e), i);
      Before(s, e, fs);
      fs := [e] + fs;
    }
  }

  lemma RaisingStep(s: State, i: nat) returns (e: Event)
    requires Inv(s) && !s.sync && !s.bit && i < |s.threads| && s.threads[i].Waiting?
    ensures Enabled(s, e) && i < |Next(s, e).threads|
    ensures Next(s, e).bit && !Next(s, e).sync && Next(s, e).threads[i].Waiting?
  {
    if s.reader.Freeing? {
      e := SetBitByReader;
    } else {
      var j: nat :| j < |s.threads| && s.threads[j].Releasing?;
      e := SetBit(j);
    }
  }

  /** No caller is stuck in sceCdSync(0): from every reachable state in which it waits there is a way on that returns. */
  lemma SyncCanReturn(n: nat, es: seq<Event>, i: nat) returns (fs: seq<Event>)
    requires Run(Boot(n), es) && i < |After(Boot(n), es).threads| && After(Boot(n), es).threads[i].Waiting?
    ensures Run(After(Boot(n), es), fs)
    ensures i < |After(After(Boot(n), es), fs).threads| && After(After(Boot(n), es), fs).threads[i].Idle?
  {
    var s := After(Boot(n), es);
    InvRun(Boot(n), es);
    var free := DriveFrees(s, i);
    var leave := WaiterLeaves(After(s, free), i);
    Behind(s, free, leave);
    fs := free + leave;
  }

  lemma {:induction false} Behind(s: State, es: seq<Event>, fs: seq<Event>)
    requires |s.mine| == |s.threads| && Run(s, es) && Run(After(s, es), fs)
    ensures Run(s, es + fs) && After(s, es + fs) == After(After(s, es), fs)
    decreases |es|
  {
    if es == [] {
      assert es + fs == fs;
    } else {
      assert (es + fs)[0] == es[0] && (es + fs)[1..] == es[1..] + fs;
      Behind(Next(s, es[0]), es[1..], fs);
    }
  }
}
