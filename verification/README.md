# Verified model of the candy-box board drivers

A Dafny model of the parts of the candy-box firmware (an i.MX RT1052 board under RT-Thread)
that hold state, loops or arithmetic, with proofs about all inputs and all runs:

- **Camera queue** (`CsiSpec`, `CsiProofs`, `CsiRefinement`, `CsiScenarios`, `CsiDriver`): one
  circular array with four indices, two DMA address registers in ping-pong, and an interrupt
  handler concurrent with the user's calls.  The queue is a state machine whose events interleave
  freely; a submit and a stop are two events each, and the handler is two events around the user
  callback, which may itself submit, get or stop.  The machine refines a plain queue of three
  sequences (`CsiRefinement`), the class in `CsiDriver` takes exactly its steps, and
  `CsiScenarios` holds concrete runs into each of the driver's traps.
- **Ethernet** (`EnetRing`, `EnetSend`, `EnetStream`, `EnetDriver`, `EnetHandshake`,
  `EnetLink`): the transmit descriptor ring shared with the DMA engine, fragmentation, the
  flag-and-semaphore wait between sender and interrupt, and the link monitor.
- **Cache maintenance** (`CacheSpec`, `CacheDriver`): two data-cache levels over memory, line by
  line, and the by-range loops in 32-bit arithmetic.
- **Clock tree** (`ClockTree`, `ClockAgreement`, `ClockBoot`, `ClockDriver`, `AvPll`,
  `CcmTuple`): two independent computations of the core clock, the boot sequence, the audio and
  video PLLs, and the packed field descriptors.
- **Aligned allocator** (`Alloc`) and **audio codec shadow registers** (`Wm8960`, `Wm8960Driver`).
- `Ring`, `Bits` and `Words` hold the shared facts about circular segments, masks and words.

`dafny verify dfyconfig.toml` checks everything.

## Assumptions about the environment

- The camera hardware completes a frame only while enabled, and during a transfer never in a
  register that has not been loaded; the handler's two halves and the halves of the user's calls
  are atomic; the user's calls come from one context; `CSI_TransferStart` is not called while a
  transfer is ongoing or from the callback.
- Posting a transmit descriptor is atomic towards the DMA engine, each transmitted descriptor
  raises the transmit event, and there is one sender.
- PLL locks, clock handshakes and all-ways cache operations complete.  The denominators of the
  PLL fractions are not zero: they divide in 64 bits, which C leaves undefined for zero.  The
  core's 32-bit division by a zero PFD fraction gives zero, as its instruction does.
- The codec's reset values are the driver's table.  `malloc` answers inside the address space and
  apart from live blocks.

## Where the code departs from what it documents

- `CSI_TransferGetQueueDelta` has its operands swapped in the wrapped case
  (`code_project/Libraries/drivers/fsl_csi.c:157`).  The model has both forms.  The written one
  makes the full test and the "at least two" test wrong in the trap states; outside them the
  driver is the intended queue.  In the submit trap a full queue accepts a buffer and looks
  empty.  In the load trap, which plain streaming reaches, the engine is started on a buffer
  that was already handed back to the user.
- A completion flag that is still set when a transfer starts makes the handler declare full the
  buffer the DMA engine is filling.  After a both-flags interrupt inside a stop the engine goes
  on running with nothing active.
- The multi-buffer branch of the send copies from the address it is passed
  (`code_project/drivers/drv_eth.c:911`, `:928`), and its caller passes a packet structure, whose
  header it would therefore send; only the single-buffer branch copies the packet's content.
  The model takes the bytes at that address and the content separately.
- A multi-buffer send that runs into a full ring leaves its first fragments posted, and the retry
  posts the frame again behind them.  With the configured buffer size that branch is never taken.
- A sender that finds the ring full can sleep for ever if the whole ring drains before it raises
  its flag.
- `SystemCoreClockUpdate` stores zero for PERIPH_CLK2 selector 2, whose case falls through.
- The L2 by-range loops, once entered, do not end when the end address lies inside the last line
  of the address space: cleaning zero bytes five bytes before its end runs for ever.  A range
  that ends exactly at the end of the address space, or runs past it, is not fully treated by
  them.  The L1 calls do nothing for an adjusted size of 2^31 or more, unless it wraps around.
- Initialising the audio or video PLL without a deinit ORs the new post divider into the old one.
- A volume set on the line input is not read back by `WM8960_GetVolume`, which reads it as the
  line output's; a protocol set after a PCM mode inherits its polarity bit.
- `WM8960_SetVolume` reports the transfer of the right channel only, and `WM8960_SetModule` reports
  success whether its transfers succeed or not.

## Model

| member | source | states |
|---|---|---|
| `CsiProofs.NoBufferLost` | code_project/Libraries/drivers/fsl_csi.c:484-666 | in every interleaving of submits, gets, starts, stops, completions and interrupts (submit, stop and the handler may be cut in two), the log of submitted buffers is what was handed back, then the full, the active and the empty buffers: with modular distances always, for the driver as written as long as it avoids the trap states |
| `CsiProofs.RegistersHoldActive` | code_project/Libraries/drivers/fsl_csi.c:187-197 | in every reachable state, in the same two cases, the two DMA address registers hold exactly the active buffers in the order fixed by nextBufferIdx; a transfer is ongoing exactly while a buffer is active |
| `CsiProofs.StepKeepsInv` | code_project/Libraries/drivers/fsl_csi.c:484-666 | every event keeps the ring invariant: circular order of the four indices, activeBufferNum equal to the driver's distance and at most two (so it never underflows), registers and flags consistent, log conserved |
| `CsiProofs.RunKeepsInv` | code_project/Libraries/drivers/fsl_csi.c:456-670 | the ring invariant holds after every run, for every queue size up to 255 |
| `CsiRefinement.StepRefinesQueue` | code_project/Libraries/drivers/fsl_csi.c:484-666 | every event does to the full, active and empty buffers, the two logs and the on and off state exactly what it does to a plain queue of three sequences without indices: the intended driver always, the written one outside the traps |
| `CsiRefinement.StatusIsTheQueues` | code_project/Libraries/drivers/fsl_csi.c:484-601 | outside the traps a submit reports full exactly at capacity and a start too few buffers exactly below two empty ones; a get reports none exactly when no buffer is full |
| `CsiRefinement.LeaveRefillsExactly` | code_project/Libraries/drivers/fsl_csi.c:653-665 | in every state and with either difference, after the callback the handler loads the first empty buffer into the register that is due if one is being received and one is empty, stops the camera if none is being received, and otherwise changes nothing |
| `CsiProofs.StopHandsBack` | code_project/Libraries/drivers/fsl_csi.c:520-535 | a stop moves the active buffers to the front of the empty region and leaves the full ones |
| `CsiProofs.DmaFillsOnlyActive` | code_project/Libraries/drivers/fsl_csi.c:603-666 | in every clean run, intended or as written without traps, whenever the DMA engine finishes a frame it wrote an active buffer, never one that is full, handed back or still waiting |
| `CsiProofs.SyncKeptExactlyWhenClean` | code_project/Libraries/drivers/fsl_csi.c:484-535 | engine and driver stay in step over an event exactly when the event is not a start with exactly one stale completion flag and not a both-flags interrupt inside a stop |
| `CsiProofs.RunKeepsSync` | code_project/Libraries/drivers/fsl_csi.c:603-666 | they stay in step over every run of clean events |
| `CsiProofs.CompletedBufferBecomesFull` | code_project/Libraries/drivers/fsl_csi.c:642-651 | in every such run the buffer the handler declares full is the one in the register whose flag fired, although the handler does not look which flag it is |
| `CsiProofs.ResyncKeepsInv` | code_project/Libraries/drivers/fsl_csi.c:616-641 | the both-flags reset reloads the registers from the queue and keeps the invariant |
| `CsiProofs.WrittenDelta` | code_project/Libraries/drivers/fsl_csi.c:149-159 | the written difference is the modular distance exactly on unwrapped pairs, twice the array size less the distance, and so more than the array size, on every wrapped pair, and zero exactly when the distance is |
| `CsiProofs.RefillDecisionRight` | code_project/Libraries/drivers/fsl_csi.c:659-665 | what the interrupt does after the callback is the same with either difference, in every state |
| `CsiProofs.InvKeptExactlyOutsideTraps` | code_project/Libraries/drivers/fsl_csi.c:492-495 | the driver as written keeps the invariant over an event exactly when the event is not in a trap: a submit with userWrite + 1 = userRead, or a load test with drvRead at the last slot and userWrite at 0 |
| `CsiProofs.SubmitTrapBreaksInv` | code_project/Libraries/drivers/fsl_csi.c:541-544 | in the submit trap a full queue accepts a buffer and then looks empty |
| `CsiProofs.LoadTrapBreaksInv` | code_project/Libraries/drivers/fsl_csi.c:563-572 | in the load trap one buffer is empty and two are loaded: the second register gets the slot behind the last submitted buffer, the engine is started, and the index order is lost |
| `CsiProofs.TrapFreeRunIsIntended` | code_project/Libraries/drivers/fsl_csi.c:149-159 | a run of the driver as written that avoids the traps is a run of the queue with modular distances |
| `CsiScenarios.SubmitTrapIsReachable` | code_project/Libraries/drivers/fsl_csi.c:537-577 | a concrete run on the default queue of four that reaches the submit trap and loses the held buffers |
| `CsiScenarios.LoadTrapAimsAtHandedBack` | code_project/Libraries/drivers/fsl_csi.c:563-572 | whenever a run of the driver as written meets its first load trap, the engine is started with the second register aimed at a buffer that was handed back, the one submitted a whole array earlier |
| `CsiScenarios.LoadTrapIsReachable` | code_project/Libraries/drivers/fsl_csi.c:563-572 | plain streaming (four submits, start, four frames, one get, one submit) reaches it: one frame later the engine fills the buffer the user holds |
| `CsiScenarios.StaleFlagIsReachable` | code_project/Libraries/drivers/fsl_csi.c:484-518 | a concrete run with a stop between a completion and its interrupt, after whose restart the handler declares full the buffer the engine is filling |
| `CsiScenarios.RunsAfterStopIsReachable` | code_project/Libraries/drivers/fsl_csi.c:520-535 | a concrete run with a both-flags interrupt inside a stop, after which the engine runs with nothing active and fills a waiting buffer |
| `CsiScenarios.RunRemembers` | code_project/Libraries/drivers/fsl_csi.c:547-548 | in every run each slot that was ever written holds the buffer of its last submit |
| `CsiDriver.CallsAreRun` | code_project/Libraries/drivers/fsl_csi.c:520-601 | every sequence of whole submits, gets and stops is a run of the state machine's events |
| `CsiDriver.IrqIsRun` | code_project/Libraries/drivers/fsl_csi.c:603-670 | so is the interrupt handler around a callback that makes any such calls |
| `CsiDriver.Driver.constructor` | code_project/Libraries/drivers/fsl_csi.c:456-482 | the zeroed handle |
| `CsiDriver.Driver.GetQueueDelta` | code_project/Libraries/drivers/fsl_csi.c:149-159 | the index difference, as written or modular |
| `CsiDriver.Driver.IncreaseQueueIdx` | code_project/Libraries/drivers/fsl_csi.c:161-180 | the circular successor |
| `CsiDriver.Driver.LoadBufferToDevice` | code_project/Libraries/drivers/fsl_csi.c:187-197 | one step of the machine: oldest empty buffer into the register that is due |
| `CsiDriver.Driver.TransferStart` | code_project/Libraries/drivers/fsl_csi.c:484-518 | the machine's start, and NoEmptyBuffer below two empty buffers |
| `CsiDriver.Driver.TransferStop` | code_project/Libraries/drivers/fsl_csi.c:520-535 | the machine's stop, both halves |
| `CsiDriver.Driver.TransferSubmitEmptyBuffer` | code_project/Libraries/drivers/fsl_csi.c:537-577 | the machine's submit, both halves, and QueueFull by the difference in use |
| `CsiDriver.Driver.TransferGetFullBuffer` | code_project/Libraries/drivers/fsl_csi.c:579-601 | the oldest full buffer, or NoFullBuffer with nothing changed |
| `CsiDriver.Driver.TransferHandleIRQ` | code_project/Libraries/drivers/fsl_csi.c:603-670 | the machine's interrupt, with a callback that makes any sequence of submits, gets and stops |
| `CsiDriver.Driver.ResetActiveBuffers` | code_project/Libraries/drivers/fsl_csi.c:616-641 | the both-flags branch |
| `EnetRing.BusyExactlyWhenFull` | code_project/drivers/drv_eth.c:813-818 | the current descriptor is READY exactly when the whole ring is in flight |
| `EnetRing.PostKeepsInv` | code_project/drivers/drv_eth.c:836-861 | posting keeps READY the exact circular segment from the engine to txBdCurrent, holding the untransmitted fragments in order |
| `EnetRing.TransmitKeepsInv` | code_project/drivers/drv_eth.c:813-861 | so does a transmission by the engine |
| `EnetStream.WireIsPrefixOfAccepted` | code_project/drivers/drv_eth.c:797-954 | for every ring size, every buffer size and every interleaving of sends and transmissions, at every point the frames on the wire are byte for byte an in-order prefix of the frames accepted, and all of them once nothing is in flight: always when one buffer takes any frame, as configured, else as long as no step spoils the stream |
| `EnetStream.FaithfulExactlyUnlessSpoiled` | code_project/drivers/drv_eth.c:875-954 | a step keeps what was posted equal to the accepted frames and the beginning of the one in progress exactly unless the multi-buffer loop gives up on a full ring or completes a frame whose bytes are not at the address it copies from |
| `EnetStream.BeginPostsFirstPiece` | code_project/drivers/drv_eth.c:807-873 | beginning a send changes nothing above 1518 bytes or on a full ring, and otherwise posts exactly the first piece of what is sent, which accepts the frame if it is the only one |
| `EnetStream.ContinuePostsNextPiece` | code_project/drivers/drv_eth.c:875-951 | continuing it posts exactly the next piece, accepts the frame with the last one, and gives up exactly on a full ring |
| `EnetStream.EngineSendsOldest` | code_project/drivers/drv_eth.c:836-861 | the engine can run exactly while something is in flight and sends exactly the oldest untransmitted fragment |
| `EnetSend.FragmentsShape` | code_project/drivers/drv_eth.c:875-951 | the pieces of a byte string concatenate to it, all but the last fill their buffer, the last is not empty without need, only the last is marked LAST |
| `EnetSend.SentFrameIsReceived` | code_project/drivers/drv_eth.c:875-951 | for every buffer size the pieces of a byte string are received as one frame with those bytes |
| `EnetSend.ContentArrivesExactlyWhen` | code_project/drivers/drv_eth.c:820-932 | a sent packet is received as its content exactly when it fits one buffer or the bytes at the address passed are the content |
| `EnetSend.RetryIntactExactlyWhenNothingPosted` | code_project/drivers/drv_eth.c:875-984 | on the receiver, a partly posted frame followed by the whole frame is that frame exactly when nothing had been posted |
| `EnetSend.AlignedBufferTakesAnyFrame` | code_project/drivers/drv_eth.c:646-656 | with the aligned maximum frame length the multi-buffer branch is never taken |
| `EnetDriver.Sender.constructor` | code_project/drivers/drv_eth.c:640-656 | an empty ring with the wrap bit on the last descriptor |
| `EnetDriver.Sender.PostFragment` | code_project/drivers/drv_eth.c:836-861 | fills the current descriptor, sets READY and advances through the wrap bit |
| `EnetDriver.Sender.SendFrame` | code_project/drivers/drv_eth.c:797-954 | over-length exactly above 1518; busy and unchanged exactly on a full ring; on success exactly the fragments of the sent bytes are posted; on busy a proper prefix of them, empty exactly if the current descriptor was READY on entry, and the ring is full; enough free descriptors, or an engine that keeps moving, guarantee success; without engine progress a busy send has posted exactly the free descriptors |
| `EnetDriver.Sender.SendAndRepeat` | code_project/drivers/drv_eth.c:969-984 | a busy send followed by a successful repeat delivers the frame intact exactly when the current descriptor was READY at the first call |
| `EnetDriver.RetryArrivesDoubled` | code_project/drivers/drv_eth.c:875-984 | an input: on one descriptor, two one-byte buffers arrive as a single frame of three bytes after a repeat |
| `EnetDriver.Sender.SendInPieces` | code_project/drivers/drv_eth.c:875-954 | the multi-buffer loop ends, posts a prefix of the fragments, all of them exactly on success |
| `EnetHandshake.StepKeepsInv` | code_project/drivers/drv_eth.c:959-987 | every step of sender, engine and interrupt keeps one token between flag and semaphore exactly while the sender takes |
| `EnetHandshake.OneTokenAtMost` | code_project/drivers/drv_eth.c:92-99 | in every run the waiting flag plus the semaphore count never exceed one and every token is taken once |
| `EnetHandshake.StuckExactlyWhenLost` | code_project/drivers/drv_eth.c:973-984 | the reachable stuck states are exactly those where the ring had drained, interrupt included, before the flag was written |
| `EnetHandshake.WaitingSenderIsWoken` | code_project/drivers/drv_eth.c:92-99 | a sender that waits with a frame in flight or an event pending is woken by every complete run of engine and interrupt, within a bound |
| `EnetHandshake.NoFrameDropped` | code_project/drivers/drv_eth.c:969-984 | in every run the frames handed over, in order, are the frames posted, each once and byte for byte, followed by the one the sender still holds: busy results and waits lose none |
| `EnetHandshake.LostWakeupIsReachable` | code_project/drivers/drv_eth.c:973-984 | a concrete run that loses the wakeup |
| `EnetLink.AwaitMii` | code_project/drivers/fsl_phy.c:215-229 | the counted wait times out exactly when the event bit stays clear for 65535 polls |
| `EnetLink.DecodeReported` | code_project/drivers/fsl_phy.c:320-361 | every reported speed and duplex code is decoded as itself, whatever the other bits |
| `EnetLink.UpIsBitTwo` | code_project/drivers/fsl_phy.c:295-318 | the link counts as up exactly when bit 2 of the status register is one |
| `EnetLink.RunMonitor` | code_project/drivers/drv_eth.c:1044-1111 | the monitor thread's loop computes the fold of its rounds, whatever the uninitialised mode variables held |
| `EnetLink.NotesAreChanges` | code_project/drivers/drv_eth.c:1057-1107 | for every stream of reads the notifications are the initial down and then the changes of the successful reads: they alternate and the last matches the last read |
| `EnetLink.UpHasNegotiatedMode` | code_project/drivers/drv_eth.c:1067-1093 | at an up notification the MAC has the negotiated mode exactly when the mode read succeeded or the mode left over was the same |
| `EnetLink.FirstLinkUp` | code_project/drivers/drv_eth.c:1085-1098 | the first link that comes up reconfigures the MAC exactly when it is not 100 Mbit/s full duplex |
| `EnetLink.ReconfigExactlyOnModeChange` | code_project/drivers/drv_eth.c:1085-1098 | the MAC is reconfigured exactly when its mode changes, and only at an up notification |
| `CacheSpec.ProcessorSeesFlatMemory` | code_project/Libraries/drivers/fsl_cache.c:329-381 | whatever fills, cleans and clean-invalidates happen at either level and in any order, the processor reads its last store |
| `CacheSpec.EvictKeepsViewExactlyWhenNotStale` | code_project/Libraries/drivers/fsl_cache.h:284-290 | clean-invalidate keeps what the processor sees exactly when the copy is dirty, absent or not stale |
| `CacheSpec.CleanReachesMemory` | code_project/Libraries/drivers/fsl_cache.c:452-470 | cleaning L1 and then L2 leaves the view and makes memory agree with it |
| `CacheSpec.CleanInOtherOrder` | code_project/Libraries/drivers/fsl_cache.c:452-460 | in the other order memory agrees exactly unless a dirty L1 line covers a different L2 copy |
| `CacheSpec.InvalidateUncoversMemory` | code_project/Libraries/drivers/fsl_cache.c:442-450 | invalidating both levels uncovers memory |
| `CacheSpec.WriteBackOfLine` | code_project/Libraries/drivers/fsl_cache.c:452-470 | on a line treated at every level it is in, clean brings memory up to date and keeps the copies with nothing left to write back, clean-invalidate leaves no copy; either keeps the view, also where only some levels are treated |
| `CacheSpec.DeviceWritesSeenExactlyWhen` | code_project/Libraries/drivers/fsl_cache.c:442-470 | the processor sees whatever a device writes to memory exactly when no level holds a copy |
| `CacheSpec.AlignDownIsMask` | code_project/Libraries/drivers/fsl_cache.c:146-154 | masking with ~31 gives the start of the line, proved bit by bit |
| `CacheSpec.LinesMeetRange` | code_project/Libraries/drivers/fsl_cache.h:248-254 | for a range that ends within the address space, the lines the L2 loops visit are exactly those that meet it |
| `CacheSpec.L1TouchesRange` | code_project/Libraries/drivers/fsl_cache.h:248-254 | for an adjusted size below 2^31 the L1 loops visit exactly the lines that meet the range, also when it runs past the end of the address space |
| `CacheSpec.L2LoopEndsExactlyWhen` | code_project/Libraries/drivers/fsl_cache.c:313-381 | for every operation, address and end the loop's guard becomes false after some number of rounds exactly when the end is not inside the last line of the address space or the loop is not entered |
| `CacheSpec.CleaningNothingNeverEnds` | code_project/Libraries/drivers/fsl_cache.c:329-350 | an input: cleaning zero bytes five bytes before the end of the address space never ends, invalidating them does |
| `CacheSpec.CallCoversExactlyWhen` | code_project/Libraries/drivers/fsl_cache.c:442-470 | a by-range call reaches every line of a range at both levels exactly when the adjusted size is below 2^31 and, with an L2 cache, the range is larger than that cache or ends before the end of the address space |
| `CacheSpec.AllTreatedExactlyWhenLarger` | code_project/Libraries/drivers/fsl_cache.c:329-350 | an L2 call that ends treats every line there is exactly when it cleans more bytes than the cache has |
| `CacheSpec.EmptyRangeTouches` | code_project/Libraries/drivers/fsl_cache.c:313-381 | an empty range inside a line still has that line treated by the L1 calls and the L2 cleans, not by an L2 invalidate |
| `CacheSpec.LastLineNeverEnds` | code_project/Libraries/drivers/fsl_cache.c:313-381 | an entered loop whose end address lies inside the last line never ends, however far it goes |
| `CacheDriver.Caches.L1ByRange` | code_project/Libraries/drivers/fsl_cache.h:248-290 | for every 32-bit address and size the L1 data calls treat exactly the lines, from that of the address on, that the adjusted 32-bit size covers when it is below 2^31, and nothing otherwise |
| `CacheDriver.Caches.L1Loop` | code_project/Libraries/CMSIS/Include/core_cm7.h:2448-2466 | for every signed size the by-address loop visits exactly the lines from the start on, going round at the end of the address space |
| `CacheDriver.Caches.InvalidateICacheByRange` | code_project/Libraries/drivers/fsl_cache.c:412-429 | for every 32-bit address and size the instruction loop drops exactly the lines that the adjusted 32-bit size covers, with the same condition |
| `CacheDriver.Caches.GetWayNumSize` | code_project/Libraries/drivers/fsl_cache.c:176-193 | 8 or 16 ways of 16 KB to 1 MB, the code 0 meaning 16 KB |
| `CacheDriver.Caches.L2All` | code_project/Libraries/drivers/fsl_cache.c:289-311 | an all-ways operation reaches every line |
| `CacheDriver.Caches.L2ByRange` | code_project/Libraries/drivers/fsl_cache.c:313-381 | the three L2 calls, for every input on which they end: the whole cache exactly when a clean's range is larger than it, else the lines from the address to the end |
| `CacheDriver.Caches.L2Loop` | code_project/Libraries/drivers/fsl_cache.c:344-350 | the loop ends, on every input on which the iteration does, having visited exactly the lines from the address to the end |
| `CacheDriver.Caches.WriteBackByRange` | code_project/Libraries/drivers/fsl_cache.c:452-470 | clean and clean-invalidate by range, on every input on which they end, treat each line first in L1 and then in L2, leave every view and every untreated line unchanged, and on the lines they reach make memory agree; a clean keeps the copies, a clean-invalidate leaves none |
| `CacheDriver.Caches.InvalidateByRange` | code_project/Libraries/drivers/fsl_cache.c:442-450 | invalidate by range, on every input on which it ends, uncovers memory on the lines it reaches, with no copy left, and leaves every line that no level treats exactly as it was |
| `ClockTree.SourcesAgreeExactlyWhen` | code_project/Libraries/system_MIMXRT1052.c:148-247 | with a 24 MHz oscillator the two computations of the core clock start from the same source under a condition on enable, bypass, reference and selector bits, and, for a proper fraction, only then |
| `ClockTree.CoreClocksAgree` | code_project/Libraries/drivers/fsl_clock.c:169-181 | where the sources agree SystemCoreClockUpdate stores what CLOCK_GetFreq(kCLOCK_CpuClk) returns, whatever the fraction and dividers |
| `ClockAgreement.CoreClocksAgreeExactlyWhen` | code_project/Libraries/system_MIMXRT1052.c:148-247 | for a proper fraction, dividers included, the stored clock is the reported one exactly under a condition on enable, bypass, reference and selector bits and, for a bypassed system PLL, on whether the first divider swallows the fraction that only the system file adds |
| `ClockAgreement.FallThroughLosesClock` | code_project/Libraries/system_MIMXRT1052.c:177-184 | with selector 2 and the system PLL running the stored clock is zero while the driver reports at least 375 kHz |
| `ClockTree.SysFreqIs` | code_project/Libraries/drivers/fsl_clock.c:645-660 | the system PLL's frequency from a 24 MHz oscillator for every enable, bypass and reference bit |
| `ClockTree.RunningPllFreqs` | code_project/Libraries/drivers/fsl_clock.c:645-663 | in plain numbers: on a 24 MHz reference the USB and system PLLs multiply by 20 plus twice the select bit, only the latter adds its fraction, and the ARM PLL gives 12 MHz times its divider |
| `ClockTree.IdlePllFreqs` | code_project/Libraries/drivers/fsl_clock.c:622-636 | a disabled PLL gives zero and a bypassed one its reference |
| `ClockTree.CoreClockPath` | code_project/Libraries/drivers/fsl_clock.c:64-128 | the reported core clock for every setting of the multiplexers and dividers |
| `ClockBoot.BootReaches600MHz` | code_project/drivers/board.c:46-86 | from any register state the boot sequence ends with SystemCoreClock and CLOCK_GetFreq(kCLOCK_CpuClk) at 600 MHz, IPG at 150 MHz, the USB1 PLL at 480 MHz, the system PLL at 528 MHz plus an earlier proper fraction, and all three PLLs locked |
| `ClockBoot.BootIsSafe` | code_project/drivers/board.c:52-70 | after every write between parking on the oscillator and the last switch the core runs from the oscillator at no more than 24 MHz |
| `ClockBoot.BootClockSteps` | code_project/drivers/board.c:46-86 | after every write of the whole sequence from the third on, the core runs from the oscillator until the last multiplexer write takes it to 600 MHz at once |
| `ClockBoot.ParkedStays` | code_project/drivers/board.c:52-69 | no sequence of PLL and divider writes moves a parked core |
| `ClockBoot.InitPllRuns` | code_project/Libraries/drivers/fsl_clock.c:330-392 | a PLL's four initialisation steps end with it locked, released and at the given divider, whatever it held |
| `ClockBoot.InitPllIsSafe` | code_project/Libraries/drivers/fsl_clock.c:330-392 | after each of the four steps the PLL is bypassed or locked: it never drives its output unlocked |
| `ClockDriver.Controller.SystemCoreClockUpdate` | code_project/Libraries/system_MIMXRT1052.c:148-247 | stores the system file's core clock and changes nothing else |
| `ClockDriver.Controller.InitPll` | code_project/Libraries/drivers/fsl_clock.c:330-392 | bypass, configure, wait, release |
| `ClockDriver.Controller.BootClockRun` | code_project/drivers/board.c:46-86 | performs the boot sequence and ends at 600 MHz and 150 MHz |
| `AvPll.InitReadsBack` | code_project/Libraries/drivers/fsl_clock.c:422-497 | after a deinit, every documented audio or video configuration is read back as the exact floor of (24 MHz * (loop + num/den)) / postDivider, with no wrap-around |
| `AvPll.InitWithoutDeinit` | code_project/Libraries/drivers/fsl_clock.c:451-484 | without the deinit it is read back exactly when the stale POST_DIV bits do not change the meaning of the new ones |
| `AvPll.FreqIs` | code_project/Libraries/drivers/fsl_clock.c:666-736 | the frequency read back in closed form for any earlier register state |
| `AvPll.PowerAndClock` | code_project/Libraries/drivers/fsl_clock.c:422-505 | a deinit powers the PLL down and stops its clock, an init leaves it powered, locked and running |
| `AvPll.NotRunning` | code_project/Libraries/drivers/fsl_clock.c:622-636 | a disabled PLL reads as zero, a bypassed one as its undivided reference |
| `CcmTuple.DecodeEncode` | code_project/Libraries/drivers/fsl_clock.h:77-83 | every field of at most thirteen contiguous bits is recovered from its descriptor, and no two fields share one |
| `CcmTuple.AhbDividerDescriptor` | code_project/Libraries/drivers/fsl_clock.h:695-696 | the descriptor of the AHB divider, each part in its place in the word |
| `CcmTuple.DescriptorLeadsToField` | code_project/Libraries/drivers/fsl_clock.h:80-82 | the mask decoded from a field's descriptor is exactly the field's bits |
| `CcmTuple.GetAfterSet` | code_project/Libraries/drivers/fsl_clock.h:904-969 | what is set through a field's descriptor is read back, cut to the field; other bits and registers are unchanged |
| `CcmTuple.SetsCommute` | code_project/Libraries/drivers/fsl_clock.h:904-969 | sets through descriptors on different registers or disjoint bits commute |
| `CcmTuple.PfdReadsBack` | code_project/Libraries/drivers/fsl_clock.c:797-810 | a PFD fraction is read back, its clock runs, its stable bit and the other lanes are untouched |
| `Alloc.SizeAlignIsMask` | code_project/Libraries/drivers/fsl_common.h:286-287 | for a power of two the macro's mask is rounding up to a multiple, in 32-bit arithmetic |
| `Alloc.FitsExactlyWhenNoWrap` | code_project/Libraries/drivers/fsl_common.c:161-173 | the aligned block fits malloc's answer exactly when the size computation did not wrap |
| `Alloc.StepKeepsInv` | code_project/Libraries/drivers/fsl_common.c:161-191 | every allocation, free, in-bounds user write and unrelated write keeps headers intact and blocks inside disjoint raw allocations |
| `Alloc.MallocEffect` | code_project/Libraries/drivers/fsl_common.c:161-179 | an allocation adds exactly one block of the size and alignment asked for, inside malloc's answer, and changes no byte but the four in front of it; when malloc fails it changes nothing |
| `Alloc.FreeFindsRawPointer` | code_project/Libraries/drivers/fsl_common.c:181-191 | in every run, for every live block, it is aligned and inside its raw allocation with its header, and free passes back exactly malloc's pointer |
| `Alloc.FreeExactlyWhenOffsetFits` | code_project/Libraries/drivers/fsl_common.c:174-190 | whatever the alignment, free finds malloc's pointer exactly when the offset fits sixteen bits |
| `Alloc.FreeRefusesExactlyWhen` | code_project/Libraries/drivers/fsl_common.c:181-190 | free refuses a pointer exactly when the two bytes at the start of its header are not the identifier |
| `Alloc.Memory.SdkMalloc` | code_project/Libraries/drivers/fsl_common.c:161-179 | writes the header in front of the aligned address and nothing else, and asks malloc for the stated size |
| `Alloc.Memory.SdkFree` | code_project/Libraries/drivers/fsl_common.c:181-191 | passes on the pointer found through the header, or nothing when the header is not valid |
| `Wm8960.UnpackPack` | code_project/drivers/fsl_wm8960.c:554-570 | the codec decodes from the two bytes the register and the nine low bits that were written |
| `Wm8960.WireFormat` | code_project/drivers/fsl_wm8960.c:554-570 | the two bytes are the register number and the nine-bit value as one sixteen-bit number, high byte first |
| `Wm8960.ShadowAlwaysAgrees` | code_project/drivers/fsl_wm8960.c:61-168 | whatever the codec held, after a default initialisation and along every run of writes, modifications and module switches, each shadow register agrees with the codec on its nine bits |
| `Wm8960.InitLeavesTable` | code_project/drivers/fsl_wm8960.c:61-168 | after an initialisation by a table of writes, whatever the codec held, each register holds the last value the table writes to it, or its reset value |
| `Wm8960.FailedWriteAgreesExactlyWhenSame` | code_project/drivers/fsl_wm8960.c:565-589 | after a failed transfer shadow and codec agree exactly when the write would have changed nothing |
| `Wm8960.ResetAgreesExactlyAtDefaults` | code_project/drivers/fsl_wm8960.c:70-76 | a write to the reset register keeps the agreement exactly when the shadow holds the defaults |
| `Wm8960.InitTableWritable` | code_project/drivers/fsl_wm8960.c:78-167 | none of the writes of the default initialisation after the reset is out of range or a reset |
| `Wm8960.ModulesCommute` | code_project/drivers/fsl_wm8960.c:192-237 | switching two different modules gives the same registers in either order |
| `Wm8960.SetModuleIs` | code_project/drivers/fsl_wm8960.c:192-237 | a module's bit-by-bit switches are one masked write |
| `Wm8960.ModuleSwitches` | code_project/drivers/fsl_wm8960.c:192-237 | in plain bit numbers, switching a module sets or clears exactly its bits in shadow and codec and changes nothing else but, for the speaker, the amplifier's register |
| `Wm8960.DeinitTurnsAllOff` | code_project/drivers/fsl_wm8960.c:170-178 | after a deinit the switches of every module are clear |
| `Wm8960Driver.VolumeRoundTrip` | code_project/drivers/fsl_wm8960.c:341-405 | a volume reads back as set exactly for eight bits on ADC and DAC, seven on the headphones, and zero on the modules whose volume is not read |
| `Wm8960Driver.VolumeReachesBothChannels` | code_project/drivers/fsl_wm8960.c:341-375 | for every module with a volume the registers of both channels, named by number, get the update bit and the volume in shadow and codec, and no other register changes |
| `Wm8960Driver.LineOutReadsLineIn` | code_project/drivers/fsl_wm8960.c:395-398 | the line output reads back the line input's volume |
| `Wm8960Driver.ProtocolForgetsExactlyWhen` | code_project/drivers/fsl_wm8960.c:306-339 | setting a protocol forgets the previous one exactly when the polarity bit is not left behind by a PCM mode |
| `Wm8960Driver.ProtocolFields` | code_project/drivers/fsl_wm8960.c:306-339 | a protocol leaves its format code, 32-bit words, for the PCM modes their polarity, and every other bit as it was |
| `Wm8960Driver.Driver.Write` | code_project/drivers/fsl_wm8960.c:554-590 | updates the shadow, and the codec when the transfer succeeds |
| `Wm8960Driver.Driver.Read` | code_project/drivers/fsl_wm8960.c:592-602 | the shadow value, or a failure for a register number from 56 on |
| `Wm8960Driver.Driver.Modify` | code_project/drivers/fsl_wm8960.c:604-621 | masked read-modify-write: the shadow always, the codec when the transfer succeeds; an invalid register changes nothing |
| `Wm8960Driver.Driver.SetModulePower` | code_project/drivers/fsl_wm8960.c:192-237 | the shadow gets the module's switches whether the transfers succeed or not, the codec when they do; invalid argument for the headphone module, success otherwise |
| `Wm8960Driver.Driver.SetVolume` | code_project/drivers/fsl_wm8960.c:341-379 | writes both channels; the shadow gets the volume in any case, the codec when the transfers succeed; reports the second transfer only |
| `Wm8960Driver.Driver.GetVolume` | code_project/drivers/fsl_wm8960.c:381-405 | the volume as the shadow of the left channel has it |
| `Wm8960Driver.Driver.SetProtocol` | code_project/drivers/fsl_wm8960.c:306-339 | two or three masked changes that come to the protocol's one change of the interface register |
| `Wm8960Driver.Driver.SetMasterSlave` | code_project/drivers/fsl_wm8960.c:180-190 | changes exactly bit 6 of the interface register |

## Left out

- Camera initialisation, FIFO clearing, pixel formats and the frame mask option: register set-up that does not touch the queue.
- Bytes of descriptor buffers beyond the posted length, descriptor timestamps, and the order of the READY bit against the cache clean: the ring model holds the bytes a descriptor sends.
- The Ethernet receive path, PHY initialisation and loopback, MAC configuration and the shell dump commands.
- `drv_eth_fire.c`: the same transmit ring, handshake and monitor a second time.
- ClockAgreement.CoreClocksAgreeExactlyWhen: is stated for a proper fraction and for selected PFD fractions other than 1 and 2 (the hardware allows 12 to 35), as otherwise 32-bit wrap-around can make different clocks coincide.
- Wm8960.ModulesCommute: takes the transfers as succeeding; what a failed one leaves in the codec is stated by Modify and SetModulePower.
- Cache capacity, associativity and replacement: a fill or an eviction may happen to any line at any time, so the model allows at least what a real cache does. L2 lockdown and set-up are not modelled.
- CacheDriver.Caches.L2All: models the background hardware operation by its effect; the driver's timeout on it is not modelled.
- The other names of `CLOCK_GetFreq`, the Ethernet and USB2 PLLs, clock gates and oscillator switching: straight-line reads and writes of the same kind.
- The field layout of the clock registers: the clock tree is modelled on fields; that field access by descriptor touches only its field is proved in CcmTuple.
- AvPll.InitReadsBack: one model serves the audio and the video PLL, whose code differs only in register names.
- WM8960 data routes, mute, sample rates and jack detection: further fixed writes through the same shadow.
- GUI, touch, sensors, storage, USB, RTC, pin tables, SDRAM and flash configuration.
