# A verified model of the disc emulator's data paths

The repository replaces the PlayStation 2's CD/DVD driver by one that reads a disc image from USB,
hard disk or network. This project models the parts that copy and hand around disc data, and proves
that each of them agrees with "the bytes of the disc": an immutable function from positions to bytes
(or from sector numbers to sectors). `dafny verify dfyconfig.toml` checks everything.

| file | models | form |
|---|---|---|
| `StreamRing.dfy` | the stream ring as a circular queue, one function per critical section | values |
| `StreamData.dfy` | `StreamingData` and the functions of `cdvdman/streaming.c`, field by field | class |
| `StreamRuns.dfy` | runs of the stream engine: consumer, DMA, reader thread, alarm, other callers | state machine |
| `ReadEE.dfy` | `cdvd_readee`: reads to any address of main memory | loops over arrays |
| `DriveLock.dfy` | `sync_flag`, event bit 1, the reader's semaphore, `sceCdSync` | state machine |
| `ReadPipeline.dfy` | `cdvdman_read` and `cdvdman_read_sectors`: pieces, breaks, bounce buffer, logo decoding; what `ReadEE`, `FileHandle` and `IsoPath` read comes through it | loops over arrays |
| `FileHandle.dfy` | `cdrom_open`, `cdrom_read`, `cdrom_lseek`, `cdrom_close` and the table of handles | classes |
| `IsoPath.dfy` | `cdvdman_locatefile`: path resolution on ISO 9660 directories | nested loops |
| `ReadAhead.dfy` | the USB read-ahead cache of `mass_stor_readSector` | class and step functions |
| `ReadCD.dfy` | `mass_stor_ReadCD`: 2048-byte sectors from devices of four sector sizes | loops over arrays |
| `Hdd.dfy` | the partition map with its cached partition | class |
| `Ata.dfy` | ATA command splitting, register packing, DMA, repetition after checksum errors | class, loops |
| `SmsUtils.dfy` | `mips_memcpy` and `mips_memset`, instruction by instruction | loops over memory |
| `Sequences.dfy`, `Words.dfy` | writing stretches of memory; 32-bit wrapping | helpers |

State that the driver updates in place is a class or an array here, and its methods are proved equal to
functions on values; the properties of runs are proved about those functions. Events that several
threads or interrupts can interleave are the steps of a state machine, one step for whatever the
driver does in one critical section or kernel call.

## What the proofs show about the code

Most properties hold as the code intends. Where one does not, the model keeps the code as it is, gives a
concrete counterexample, and proves exactly when the property holds.

* **Stream refills.** `StFillStreamBuffer` raises StIsReading in a critical section, leaves it (streaming.c:82), and only then
  issues its read (streaming.c:86) or lowers the flag again (streaming.c:88, 96). If another asynchronous read completes in
  between, the callback takes it for its own. With a bank claimed, it credits a bank that was never read, and the consumer is handed
  its old contents (`StreamRuns.WindowHazard`). With a full ring, it credits a bank there is no room for, and sectors are handed
  over twice (`StreamRuns.OverfillHazard`). A completion keeps the ring right if and only if it misses that window, or
  a bank was claimed and already held the right sectors (`StreamRuns.CompletionSoundIff`). Callers who issue no
  asynchronous read while a stream runs or is being started never meet it (`StreamRuns.PoliteStreamDelivers`, under the
  assumption that a read's end and its callback are one step).
* **Read-ahead at the end of the disk.** A read-ahead that straddles the end of the disk fails as a whole, yet its
  window is used for the sectors before the end (`ReadAhead.StraddleNoticed`, `ReadAhead.AnswerRightIff`).
* **Read-ahead with large sectors.** The buffer pointer advances by 512 bytes a sector whatever the sector size, so of the
  four sizes the driver's own comment calls supported the cache is invisible for 512 alone
  (`ReadAhead.UnnoticedIff512`).
* **4096-byte devices.** `mass_stor_ReadCD` loses its last sector when the count left after an odd start, modulo 256, is odd
  and not 1 (`ReadCD.mass_stor_ReadCD`).
* **Logo sectors.** Sectors below 13 are decoded piece by piece with the first byte of each piece as the key, so there the piece
  size shows (`ReadPipeline.PieceSizeInvisibleIff`). From sector 13 on every path gives the plain disc, which is
  what the clients of `cdvdman_read` rely on.
* **Bounced reads.** A bounced `cdvdman_read` reports what became of its last piece alone, because each piece clears the error of
  the one before. So an unreadable sector is always reported if and only if the request has at most two sectors
  (`ReadPipeline.LastTellsAllIff`; with three, an unreadable first one is not).
* **Breaks.** `cdvdman_read_sectors` tests the error before each piece, the first included (cdvdman.c:335), and a sceCdBreak seen by a
  test ends it; `cdvdman_read` does not tell its caller. In the direct form the first sectors have come and the rest of the
  buffer is as it was (`ReadPipeline.CutDirect`); in the bounced form what the bounce buffer held is copied over the
  caller's buffer (`ReadPipeline.CutBounced`). The first m sectors arrive, whatever the disc and the buffers hold, if and only
  if no test before one of their pieces sees a break: pieces of 8 sectors in the direct form with emulated timing, one piece
  without, pieces of 2 in the bounced form (`ReadPipeline.FirstComeIff`). `cdvd_readee` sends and counts what its
  staging buffer then holds (`ReadEE.CutPass`); a pass uses the right sectors if and only if none of those it needs is cut
  (`ReadEE.PassRightIff`).
* **File sizes and seeks.** `cdrom_read` compares a 32-bit sum and `cdrom_lseek` stores 32-bit targets; `FileHandle.ClampRightIff`
  and `FileHandle.SeekLandsIff` say exactly when wrapping does not show. The position stays in the file regardless.
* **Partition cache.** The cached partition is invisible in all runs of accesses if and only if each partition that is the first
  to cover some sector agrees with the map on all it covers (`Hdd.CacheUnnoticedIff`).
* **28-bit commands** address the right sector if and only if it lies below 2^28 (`Ata.IssuedDecodes`).
* **mips_memcpy** returns the end of its destination: its `jr $ra` has no delay-slot instruction of its own, so the first
  instruction of `mips_memset` runs in the slot and copies the moved pointer (`SmsUtils.mips_memcpy`).

## Model

The first twenty-three rows are the main results; the rest are the operations and lemmas they are made of.

| member | source | states |
|---|---|---|
| StreamRuns.StreamDelivers | cdvdman/streaming.c:276-429 | in every run of starts, seeks, pauses, resumes, stops, reads, completions and alarms that avoids the refill window, the sectors handed over since the stream began at `start` are disc sectors start, start+1, ... with no gap or repeat, the next sector to fetch is start + delivered + buffered, and `start` is the sector of the last start or effective seek; the buffer of the last sceCdStRead holds the last of them in one piece and behind it what it held before; the ring lies where the last initialisation put it |
| StreamRuns.PoliteStreamDelivers | cdvdman/streaming.c:276-429 | all of that for every run whose callers obey a rule they can check before each call, with no assumption about the window |
| StreamRuns.StreamFlows | cdvdman/streaming.c:276-429 | for every ring, every start sector and every n there is a run within that rule that hands over exactly the n sectors from there on |
| StreamRuns.CompletionSoundIff | cdvdman/streaming.c:71-97 | a completion keeps the ring a queue of the right sectors if and only if it misses the window, or it hits while a bank is claimed and that bank happened to hold the next sectors; a hit while the ring is full always breaks it |
| StreamRuns.TransferUndisturbed | cdvdman/streaming.c:169-224 | in every run that does not overfill the ring, window hits with a bank claimed included, no bank AllocBank could hand out during a DMA transfer shares a cell with the sectors being copied, although the read pointer has not moved yet |
| ReadEE.ReadToMemory | cdvdfsv/cdvdfsv.c:765-897 | from sector 13 on, when no pass is cut (ReadEE.PassRightIff; breaks that no test before a needed sector sees are allowed) and the request is neither refused nor aborted between passes, main memory ends up holding exactly the requested sectors at any address, through the real piece and bounce paths, and is otherwise unchanged |
| ReadEE.cdvd_readee | cdvdfsv/cdvdfsv.c:765-897 | for every address, count, refusal, abort and break: all data DMAs are 64-byte aligned in source, destination and size and stay in the staging buffer and the caller's range, they tile the middle of the range in order, and nothing else is written; up to the first pass that a break cuts, each report counts bytes that are in place and the disc's; if none is cut the record ends up with the two ends |
| ReadEE.PassRightIff | cdvdfsv/cdvdfsv.c:843-866 | a pass stages the right sectors, whatever is on the disc and was in the staging and bounce buffers, if and only if no test before a sector it needs sees a break; the sector read past the last unaligned chunk is not needed |
| DriveLock.ServedOnceInOrder | cdvdman/cdvdman.c:446-497 | every accepted read is served exactly once, in order, with the sector, count and buffer it was accepted with; at most one is in flight |
| DriveLock.WaitersAreWoken | cdvdman/cdvdman.c:1702-1720 | from every reachable state the non-waiting threads can raise event bit 1 in at most eight steps, so nobody waits with nothing outstanding |
| DriveLock.SyncCanReturn | cdvdman/cdvdman.c:554-568 | from every reachable state in which a caller waits in sceCdSync(0) there is a way on in which it returns |
| ReadPipeline.FirstComeIff | cdvdman/cdvdman.c:325-428 | the first m sectors of a read arrive, whatever is on the disc and was in the two buffers, if and only if no test of the error before one of their pieces sees a break, on each path and with either timing |
| ReadPipeline.PieceSizeInvisibleIff | cdvdman/cdvdman.c:360-371 | whatever is on the disc the piece size does not show: if and only if the read starts at sector 13 or later or one piece is enough |
| FileHandle.ReadsOfRunRight | cdvdman/cdvdman.c:1010-1213 | in every run of opens, closes, reads and seeks of all handles, each read delivers the min(size, left) bytes of its file at its position and moves behind them, if and only if its 32-bit sum does not wrap harmfully |
| IsoPath.cdvdman_locatefile | cdvdman/cdvdman.c:1422-1532 | on well-formed directories the search ends, stays within its buffers, and returns the record that walking the path segment by segment reaches; none when there is none or a sector request was refused |
| IsoPath.PathOfWritten | cdvdman/cdvdman.c:1422-1532 | on a disc whose directories are written as the standard lays them out, in any number of sectors and to any depth, on either layer, the path that joins the names, with slashes or backslashes, leads to the record of the file |
| ReadAhead.Transparent | cdvdman/mass_driver.c:421-471 | for every sequence of requests with room to read ahead and every timing of the background pieces, each request answers as a driver without cache would |
| ReadCD.ReadCDCached | cdvdman/mass_driver.c:819-863 | with 512-byte sectors the image sectors asked for arrive through the read-ahead cache, whatever was requested before, however far a background command has come between the requests and whichever read-aheads are refused before any of their transfers is queued |
| ReadCD.mass_stor_ReadCD | cdvdman/mass_driver.c:819-863 | for all four sector sizes, over plain reads, all image sectors asked for arrive and nothing else changes, unless device sectors are 4096 bytes and the count left after an odd start, modulo 256, is odd and not 1: then all but the last, whose place is untouched |
| Hdd.CacheUnnoticedIff | cdvdman/device-hdd.c:114-118 | after no run of accesses does the cached partition change where an access goes, if and only if each partition that is first for some sector agrees with the map on all it covers |
| Ata.ata_device_sector_io | cdvdman/atad.c:575-632 | on success the commands the drive decoded split the request exactly and the buffer holds its sectors whatever attempts failed; otherwise the result is that of the first command to fail and the sectors before it have come |
| SmsUtils.mips_memcpy | cdvdman/smsutils.s:18-119 | for every length and alignment exactly n bytes are copied, loads stay in the source, word accesses are aligned, every loop that compares for equality ends; the result is the end of the destination |
| SmsUtils.mips_memset | cdvdman/smsutils.s:121-171 | likewise exactly n bytes are set to the low byte; the result is the beginning |
| StreamRuns.InvStep | cdvdman/streaming.c:28-113 | each of the thirteen kinds of step that is not a hit in the window keeps the invariant: ring shape, buffered sectors are the disc's, delivered prefix, partial DMA, and what the read in flight may touch |
| StreamRuns.ShapeStep | cdvdman/streaming.c:34-40 | every step that does not credit a bank to a full ring keeps: write pointer a bank multiple below the ring size, read pointer below it, the streamed count their circular distance (or the whole ring), a claimed bank free |
| StreamRuns.ShapeRun | cdvdman/streaming.c:138-153 | so does every run that never overfills the ring |
| StreamRuns.DepositMissesHeld | cdvdman/streaming.c:138-153 | a sector that arrives from the device never lands on a buffered one |
| StreamRuns.FreshStream | cdvdman/streaming.c:276-297 | the critical section of a start leaves the invariant with nothing buffered or delivered, the next fetch at its sector, and no read, not even one in flight, that a completion would credit |
| StreamRuns.StopSilences | cdvdman/streaming.c:306-331 | after the critical section of a stop neither a completion nor the alarm changes the ring |
| StreamRuns.RunAsCalled | cdvdman/streaming.c:276-429 | every run that never overfills the ring, in the window or not, follows its calls: where the stream starts or is about to, where the ring lies, and what of the caller's buffer is untouched |
| StreamRuns.StopStops | cdvdman/streaming.c:306-331 | a stop takes down stream, callback and alarm and empties the ring |
| StreamRuns.PauseResume | cdvdman/streaming.c:333-378 | pausing and resuming leave the stream where it was, callback in place, alarm cancelled, a refill to come |
| StreamRuns.ReadReturns | cdvdman/streaming.c:392-429 | a blocking call leaves its loop with its buffer full and not before; any other after one pass of min(asked for, buffered) sectors |
| StreamRuns.NeverStalls | cdvdman/streaming.c:28-113 | under the callers' rule a running stream with room for a bank is, between calls, being refilled or has its retry alarm set |
| StreamRuns.CallsPossible | cdvdman/streaming.c:276-429 | between calls every call can be made, and inside one the consumer gets on unless it waits for the drive or its DMA |
| StreamRuns.WindowHazard | cdvdman/streaming.c:82-86 | a concrete run of eleven events in which a never-read bank is delivered as sector 100 |
| StreamRuns.OverfillHazard | cdvdman/streaming.c:82-97 | a concrete run that overfills a ring of four, after which sectors 100 and 101 are delivered a second time in place of 104 and 105 |
| StreamRuns.PoliteClean | cdvdman/streaming.c:32-42 | callers who issue no asynchronous read while a stream runs or is being started never hit the window, the seek's stop, sync and start being separate steps |
| StreamRing.BankMissesHeld | cdvdman/streaming.c:142-143 | a claimable bank and the buffered sectors have no ring position in common |
| StreamRing.CreditTaken | cdvdman/streaming.c:34-40 | crediting a bank keeps the queue and appends exactly that bank's cells, in order |
| StreamRing.AvailableIs | cdvdman/streaming.c:242-268 | the sectors one pass finds by the two pointers are min(asked for, buffered) |
| StreamRing.QueueTwice | cdvdman/streaming.c:242-268 | taking sectors in two stretches around the end of the ring equals taking them at once |
| StreamRing.InitShape | cdvdman/streaming.c:115-135 | initialisation with a buffer below 2^16 sectors and at most as many banks gives a ring of so many whole banks at the memory it was given |
| StreamRing.RefillOutcome | cdvdman/streaming.c:58-113 | what a refill leaves behind in each case: a read into the bank at the write pointer, the alarm, or nothing |
| StreamData.StreamingData.sceCdStInit | cdvdman/streaming.c:115-135 | for every buffer size and positive bank count the new state is the initial ring, with the 16-bit quotient and product |
| StreamData.StreamingData.AllocBank | cdvdman/streaming.c:138-153 | a bank is handed out if and only if one is free, and it is the one at the write pointer |
| StreamData.StreamingData.ClaimBank | cdvdman/streaming.c:69-82 | the critical section of a refill; the reading flag is up behind it even when there is no bank |
| StreamData.StreamingData.IssueRead | cdvdman/streaming.c:84-98 | what follows it: the read at the next sector, or the flag down again |
| StreamData.StreamingData.StFillStreamBuffer | cdvdman/streaming.c:58-101 | both together, with the three results |
| StreamData.StreamingData.StStartFillStreamBuffer | cdvdman/streaming.c:103-113 | the alarm is set exactly when the refill failed |
| StreamData.StreamingData.StmCallback | cdvdman/streaming.c:28-47 | the 16-bit pointer updates credit one bank, in any state, and the ring is refilled |
| StreamData.StreamingData.ReadSectors | cdvdman/streaming.c:229-274 | the memcpy path hands out min(asked for, buffered) of the oldest sectors, in order, and removes just those |
| StreamData.StreamingData.DescribeTransfers | cdvdman/streaming.c:169-206 | at most two descriptors that name the oldest sectors in order and fill the destination without a gap |
| StreamData.StreamingData.FinishTransfers | cdvdman/streaming.c:219-223 | the pointer update after the copy removes just those sectors |
| ReadEE.EndsCompleteRange | cdvdfsv/cdvdfsv.c:805-829 | head, bulk and tail leave nothing missing between them |
| ReadEE.OnePass | cdvdfsv/cdvdfsv.c:843-889 | one pass sends what its read has left in the staging buffer to where the ones before ended and keeps the record up to date; all of it is right if the pass is not cut |
| ReadEE.StageChunk | cdvdfsv/cdvdfsv.c:843-866 | the chunk, with one sector more when unaligned, fits the 17-sector staging buffer at its shift, which then holds exactly what the read brings under its breaks |
| ReadEE.BulkLegal | cdvdfsv/cdvdfsv.c:868-882 | alignment and bounds of a bulk DMA |
| ReadEE.PassSizes | cdvdfsv/cdvdfsv.c:843-857 | 16 sectors a pass, or 15 and one more when unaligned |
| ReadEE.CutPass | cdvdfsv/cdvdfsv.c:857-885 | a concrete pass of 16 sectors with a break between its pieces: the last 8 of those sent are what the staging buffer held before |
| DriveLock.SingleFlight | cdvdman/cdvdman.c:431-497 | in every run at most one thread, or the reader, or the signal to it, owns the drive |
| DriveLock.SyncReturnsAfterOwnRead | cdvdman/cdvdman.c:554-568 | in every run, whenever a step of sceCdSync(0) returns to its caller, all reads accepted up to the caller's own latest have been served; the call, and each test after a wait, returns exactly when sync_flag is down |
| DriveLock.AcceptedIffFree | cdvdman/cdvdman.c:431-497 | a read is accepted, with its own arguments, exactly when nobody owns the drive, and then the event bit is lowered; a refused one changes nothing |
| DriveLock.NoSignalLost | cdvdman/cdvdman.c:464-469 | the reader's semaphore, which holds one signal, is empty whenever it is signalled |
| DriveLock.InvStep | cdvdman/cdvdman.c:431-497 | every step keeps the lock's invariant |
| ReadPipeline.cdvdman_read | cdvdman/cdvdman.c:387-428 | direct or bounced, under all breaks: when the sectors are readable exactly what arrives, and nothing outside the target changes; which errors are reported, in the bounced form those of the last piece |
| ReadPipeline.cdvdman_read_sectors | cdvdman/cdvdman.c:325-385 | the sectors before the first test that sees a break come, decoded per piece, and nothing behind them is touched; a read error exactly when one of those is unreadable, success exactly when all came and no break landed |
| ReadPipeline.ReadBounced | cdvdman/cdvdman.c:394-415 | the two-sector bounce loop, including reads that fail and pieces that are cut, which bring along what the bounce buffer held |
| ReadPipeline.LastTellsAllIff | cdvdman/cdvdman.c:399-410 | without a break, that the last piece is readable tells that all sectors are, whichever are bad, if and only if there are at most two |
| ReadPipeline.CutDirect | cdvdman/cdvdman.c:334-345 | a concrete direct read of 9 sectors whose second test sees a break: 8 come, the ninth place keeps its bytes |
| ReadPipeline.CutBounced | cdvdman/cdvdman.c:401-410 | a concrete bounced read of one sector whose test sees a break: the caller receives what the bounce buffer held |
| ReadPipeline.ReadDisc | cdvdman/cdvdman.c:387-428 | from sector 13 on, without breaks and bad sectors, the plain sectors for every alignment and timing setting |
| ReadPipeline.DecodeInPlace | cdvdman/cdvdman.c:360-371 | the in-place decoder equals decoding the piece under its own first byte |
| ReadPipeline.LogoRestored | cdvdman/cdvdman.c:360-371 | below sector 13 decoding undoes rotating right by three and exclusive or with any key; from there on nothing is decoded |
| ReadPipeline.PathsAgree | cdvdman/cdvdman.c:325-428 | from sector 13 on all paths give the plain sectors |
| FileHandle.FHANDLE.cdrom_read | cdvdman/cdvdman.c:1113-1180 | across all three phases, for every size, the buffer receives what lies at the position, which wraps at 2^32 between the phases, and nothing else; the position moves past it and stays in the file |
| FileHandle.FileDataPlain | cdvdman/cdvdman.c:1126-1177 | that is the slice of the file at the position when the slice ends by 2^32 |
| FileHandle.FHANDLE.cdrom_lseek | cdvdman/cdvdman.c:1183-1213 | the method moves the position as SeekLandsIff and SeeksTo describe and returns it |
| FileHandle.ClampRightIff | cdvdman/cdvdman.c:1123-1124 | the 32-bit size calculation transfers min(size, left) bytes if and only if its sum does not wrap harmfully |
| FileHandle.SeekLandsIff | cdvdman/cdvdman.c:1192-1207 | with SEEK_SET counting from the beginning, SEEK_CUR from the position and SEEK_END back from the end, a seek lands on its target or at the end of the file if and only if an outside target does not wrap to a place inside |
| FileHandle.SeeksTo | cdvdman/cdvdman.c:1192-1207 | the three ways to seek to byte p of a file below 2 GB, and that a relative seek by 0 does nothing |
| FileHandle.RelativeSeeksAdd | cdvdman/cdvdman.c:1192-1195 | two relative seeks inside the file are one by their sum |
| FileHandle.SeekThenRead | cdvdman/cdvdman.c:1113-1213 | a seek to p and a read deliver min(size, left) bytes of the file from p on |
| FileHandle.PositionsStay | cdvdman/cdvdman.c:1025-1213 | over every run of opens, closes, reads and seeks no position passes its file's end |
| FileHandle.HandlesIndependent | cdvdman/cdvdman.c:1010-1213 | what a handle holds depends on its own reads and seeks alone, whatever happens to the others |
| FileHandle.ReadsReassembleFile | cdvdman/cdvdman.c:1113-1180 | in runs that do not seek or close one handle and whose sizes do not wrap, its reads together deliver its file from the position on, min(asked for in all, left) bytes, whatever happens to the other handles |
| FileHandle.HandleTable.cdvdman_open | cdvdman/cdvdman.c:1025-1060 | on units 0 and 1 the first free of 64 entries takes the file from its start, -EMFILE exactly when none is free; -ENOENT exactly on another unit or when an entry was free and the file was not found |
| FileHandle.HandleTable.cdvdman_getfilefreeslot | cdvdman/cdvdman.c:1010-1022 | the loop finds the first free entry |
| FileHandle.HandleTable.cdrom_close | cdvdman/cdvdman.c:1096-1110 | the entry is cleared, the others unchanged |
| FileHandle.OpenThenRead | cdvdman/cdvdman.c:1025-1180 | an opened file is read from its beginning, through the first entry that was free |
| FileHandle.OpenThenClose | cdvdman/cdvdman.c:1025-1110 | closing it frees that entry, so that the next open takes it |
| IsoPath.SegmentsOfJoin | cdvdman/cdvdman.c:1439-1476 | splitting a path undoes joining plain segments, with either separator |
| IsoPath.FirstMatchIsFirst | cdvdman/cdvdman.c:1503-1527 | the match is the first in order equal on 12 characters, among directories only for an inner segment |
| IsoPath.FirstMatchOfParts | cdvdman/cdvdman.c:1478-1527 | searching sector by sector equals searching the whole directory |
| IsoPath.ScanSector | cdvdman/cdvdman.c:1487-1526 | one sector's records up to the first zero length, searched in order |
| IsoPath.RecordReadBack | cdvdman/cdvdman.c:81-94 | a record stored with extent and length in both byte orders, date, flags, volume and name is read back field by field, wherever in a sector it lies and whatever its other bytes |
| IsoPath.RecordsOfWritten | cdvdman/cdvdman.c:1487-1526 | what is written into a sector is what is read out of it, all records in order |
| IsoPath.DirectoryOfWritten | cdvdman/cdvdman.c:1478-1486 | a directory in consecutive sectors is the concatenation of what is written in them |
| IsoPath.SameNameIff | cdvdman/cdvdman.c:1503-1503 | names match exactly when they agree on twelve characters |
| IsoPath.MatchesIff | cdvdman/cdvdman.c:1504-1508 | an inner segment needs bit 1 of the flags, the last one does not |
| IsoPath.LeadingSeparators | cdvdman/cdvdman.c:1439-1443 | slashes before a path do not count, nor backslashes behind them |
| IsoPath.SlashesFirst | cdvdman/cdvdman.c:1445-1449 | a path with a slash is split at slashes first |
| ReadAhead.StepInv | cdvdman/mass_driver.c:425-461 | every step keeps the window inside the buffer and equal to the disk once filled, and at most one command outstanding; a request copies and issues commands only when none is |
| ReadAhead.AnswerRightIff | cdvdman/mass_driver.c:430-438 | a request is answered right whatever the buffer last held if and only if it is not served from a window that reaches past the end of the disk |
| ReadAhead.AheadServesNext | cdvdman/mass_driver.c:445-461 | a sequential request leaves the next one of its size to be served from the buffer, whatever pieces land in between, even when the device accepts no more commands |
| ReadAhead.ThirdIsServed | cdvdman/mass_driver.c:421-471 | so the third of three sequential reads needs no command |
| ReadAhead.StraddleNoticed | cdvdman/mass_driver.c:448-460 | three concrete requests on a disk of five sectors whose last answer is wrong |
| ReadAhead.UnnoticedIff512 | cdvdman/mass_driver.c:430-438 | of the sector sizes 512, 1024, 2048 and 4096 the cache is invisible in all runs for 512 only |
| ReadAhead.MassStor.mass_stor_readSector | cdvdman/mass_driver.c:421-471 | the driver's code does that step and delivers that answer |
| ReadAhead.MassStor.WaitReadAhead | cdvdman/mass_driver.c:426-429 | waiting ends with the command block free and the window filled |
| ReadCD.ReadCDRightIff | cdvdman/mass_driver.c:838-860 | that is full delivery on every device exactly outside that case |
| ReadCD.LoopGetsAll | cdvdman/mass_driver.c:838-860 | only the last turn of the loop can lose a sector |
| Hdd.HddDevice.DeviceReadSectors | cdvdman/device-hdd.c:112-134 | when partitions agree in that sense the buffer receives each sector from where the map says, whatever was accessed before; with a disk that reads, -ENXIO exactly when some requested sector is unmapped; -EIO only after a failed disk request |
| Hdd.ImageLies | cdvdman/device-hdd.c:112-134 | where that is: byte j of a sector of the first partition that has it lies 512 * data_start + 2048 * (lsn - part_offset) + j bytes into the disk |
| Hdd.ImageLiesApart | cdvdman/device-hdd.c:120-124 | the same for every partition when they do not overlap |
| Hdd.MappedIff | cdvdman/device-hdd.c:46-62 | a sector is mapped exactly when some partition's extent has it |
| Hdd.DisjointAgreeing | cdvdman/device-hdd.c:46-62 | partitions that do not overlap meet the condition, so their cached partition is invisible |
| Hdd.HddDevice.cdvdman_get_part_specs | cdvdman/device-hdd.c:46-62 | the first partition that covers a sector is cached, -ENXIO exactly when none does |
| Ata.IssuedDecodes | cdvdman/atad.c:370-387 | what the drive reads out of its 8-bit registers is the count (0 standing for 256) and the address: always with 48-bit commands, with 28-bit commands if and only if it is below 2^28; the command is the one of that width, and LBA mode and the device are selected |
| Ata.IssuedRegisters | cdvdman/atad.c:370-387 | which register holds which bits of address and count, and what was written to it first |
| Ata.ata_dma_complete | cdvdman/atad.c:447-498 | for every sequence of FIFO counts the DMA requests tile the buffer in order, each block word encodes its own size, and the bytes on the wire land in place |
| Ata.SucceedsIff | cdvdman/atad.c:609-622 | a command succeeds if and only if one of three attempts does after nothing but failed checksums |
| Ata.WhatIsRetried | cdvdman/atad.c:447-498 | a failed checksum, at once or in the final status, is tried again; other errors give -503 and timeouts -502 |
| Ata.ThreeAttempts | cdvdman/atad.c:609-622 | a command whose checksum always fails is given up after three attempts with -510 |
| Ata.IoResultIs | cdvdman/atad.c:575-632 | a request has the result of its first command to fail |
| Ata.Drive.ata_io_start | cdvdman/atad.c:370-387 | the register writes of a command, twice for 48-bit ones |
| SmsUtils.Load | cdvdman/smsutils.s:66-67 | an lwr/lwl pair reads exactly the four bytes at any address |

## Left out

- StreamRuns.StreamDelivers: a read's end and its callback are assumed to be one step. The retry alarm, an interrupt, and threads above the reader's priority 15 (sceCdChangeThreadPriority lets the RPC threads run at 10 to 14, cdvdfsv/cdvdfsv.c:922-930) can come between cdvdman/cdvdman.c:1709 and the callback. The alarm can then claim a bank and issue its read after another caller's read has ended; a seek that waits in sceCdSync can start the new stream and claim a bank; either bank is then credited unread. Under the rule of StreamRuns.PoliteStreamDelivers the alarm finds StIsReading set and does nothing; the seek needs the assumption all the same. Initialisation in the middle of a stream counts as the start of a new one.
- StreamRuns.InvComplete: the stream's own reads are assumed neither to fail nor to be cut. A read error, or a break that cuts a bank of more than 8 sectors or any bank before its first piece, is still credited as a whole bank (cdvdman/cdvdman.c:1706-1715).
- StreamRuns.InvStep: one consumer thread; reads of other callers must not target the ring's memory; a call of sceCdStRead asks for fewer than 2^31 sectors; the ring has fewer than 2^16 sectors and no more banks than sectors.
- StreamRuns.ShapeStep: what later steps do to a ring that has been overfilled is shown by StreamRuns.OverfillHazard alone.
- StreamRuns.PoliteStreamDelivers: under the same assumption of one step. Progress is the existence of a run (StreamRuns.StreamFlows) and that a refill is always under way or scheduled (StreamRuns.NeverStalls), not that the scheduler gets there: a pause that catches a read in flight leaves StIsReading set with nothing being read. The wait on event bit 8 is not modelled.
- StreamData.StreamingData.sceCdStInit: a bank count of zero, by which the source divides.
- StreamData.StreamingData.ReadSectors: the loop of sceCdStRead around it is the Read, Go and Move steps of StreamRuns, not a method.
- Reads below sector 13 by streams, cdvd_readee, cdrom_read and the path search: their pieces are decoded (ReadPipeline.PieceSizeInvisibleIff), and those modules are about the plain disc from sector 13 on.
- ReadEE.cdvd_readee: the 2048-byte mode only; the status words sent to eeaddr1 and eeaddr2 are records and reports here, not writes to main memory; the sector read past an unaligned chunk is assumed to exist on the disc; addresses are already reduced to 29 bits; whether the error of a break is still there at the head of the loop, or another call has cleared it, is left to the environment.
- ReadEE.StageChunk: the staging buffer is the memory cdrom_read uses as its file buffer (cdvdman/cdvdman.c:209, 790-793) and the two are under different locks. Each is treated as private here, so a cdrom_read on another thread during a cdvd_readee is not covered.
- ReadPipeline.cdvdman_read: the delays of accurate timing, ReadPos and the status field; builds without UNALIGNED_BUFFER_PATCH, which read every buffer directly. A break is one step, although sceCdBreak clears the error for a moment before it sets its own; other calls that clear the error while a read runs, and breaks that land behind a failed device read, are not modelled.
- FileHandle.FHANDLE.cdrom_read: unreadable sectors and breaks; the loop that retries a refused sceCdRead; the file buffer is private (see ReadEE.StageChunk).
- FileHandle.HandleTable.cdvdman_open: the ";1" suffix, trimming and the zero size for skipped videos.
- IsoPath.cdvdman_locatefile: directories whose records have no name (the loop would not advance), negative lengths, or names over 14 characters, and path segments over 31 (neither buffer is checked); the root directory's length is a parameter.
- ReadAhead.MassStor.mass_stor_readSector: memory card images, with their writes and their lock io_sema, which a refused foreground command leaves taken; commands that fail half way in the foreground, and read-aheads that are refused after some of their transfers were queued (cdvdman/mass_driver.c:309-321), which would still arrive in ra_buffer under the old window; counting callbacks inside mass_scsi_cmd, where completion is one event per command; fills that would overrun the buffer with sectors over 512 bytes.
- ReadCD.mass_stor_ReadCD: 32-bit overflow of device sector numbers; a request for no sectors at an odd start of a 4096-byte device, where the count would wrap; sectors over 512 bytes through the cache, where ReadAhead.UnnoticedIff512 shows it fails.
- ReadCD.ReadCDCached: foreground commands the device refuses, read-aheads refused half way, and images that end less than 64 device sectors before the disk does (see ReadAhead.AnswerRightIff).
- Hdd.HddDevice.DeviceReadSectors: 32-bit overflow of partition ends and disk addresses; an image without partitions.
- Ata.ata_device_sector_io: writing; requests beyond the addresses its commands can hold (see Ata.IssuedDecodes); the LED, interrupts and the alarm beyond its effect; the values of the command codes are those of the ATA/ATAPI-6 standard, atahw.h is not part of this model; a FIFO count of zero after an interrupt is a request for nothing.
- DriveLock.WaitersAreWoken: that the scheduler lets those threads run, and other bits of the event flag.
- Hardware registers, S-commands, EEPROM access, DEV9 and PCMCIA setup, HD Pro handshakes, SMB, USB enumeration and module loading: I/O with behaviour not visible in the repository.
- Images of several files on USB or SMB (device-usb.c, device-smb.c), whose part offset is not rebased after a part boundary.
- cdvd_readchain, cdvdSt_read, cdrom_dread, sceCdPosToInt and sceCdIntToPos, RPC dispatch.
