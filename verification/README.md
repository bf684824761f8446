# Verified model of the data logger's low-level layer

A Dafny model of the parts of the MCXN947 web-based data logger that hold state, loops, modular
arithmetic or concurrency, with proofs about every run of them.

- `Bits` is a small library of words as natural numbers: single bits, pointwise operations, shifts.
- `AtomicSpec`, `ExclusiveMonitor`, `MaskedAtomics`, `SpinLock`: the `SDK_ATOMIC_LOCAL_*` operations as
  step systems. Any number of agents (threads and handlers) share one core and one cell of any width. One
  step is one instruction or a change of the running agent. The exclusive monitor follows the Armv8-M
  Architecture Reference Manual (Arm DDI 0553): a load-exclusive sets it, a store-exclusive succeeds only
  if it is set and clears it, and CLREX and every change of the running agent clear it. A history of calls,
  effects and returns is recorded, and linearizability is stated on it. Both implementations are proved
  against the same specification, and mutual exclusion follows from the specification alone.
- `AtomicLoops`: the same operations as the loops and straight-line bodies of the source, on a core on
  which a handler may run before any instruction, unless PRIMASK is set, and complete atomic operations of
  its own.
- `CycleDelay`: `SDK_DelayAtLeastUs`. Time is an unbounded cycle number of which the counter shows the low
  32 bits; the gaps between reads are arbitrary positive numbers.
- `EepromSpec`, `EepromDriver`: the AT24C32 with its page-wrapping address counter and its write cycle, and
  the driver. A transfer may fail at any time, and fails while the chip is busy; a failed transfer changes
  nothing and starts no write cycle. A write cycle lasts at most 5 ms. A chip may be write-protected, and
  then acknowledges what it does not store. The driver's waits are the delays of `CycleDelay`, with either
  of its bodies.
- `DataLogger`: the logging task's two ring buffers on top of the driver, over a bus that may fail in the
  middle of a record.
- `AlignedHeap`, `HeapSession`: `SDK_Malloc` and `SDK_Free` over a byte-addressed 32-bit memory. `malloc`
  may refuse, or return any free place; `malloc` and `free` may scribble on bytes that belong to no held
  block. Whole runs of several clients are in `HeapSession`.
- `PriorityCoding`, `Nvic`, `VectorTable`, `BitReverse`: priority packing for 1 to 8 implemented bits, the
  interrupt controller's registers and the SDK's wrappers, the vector table in RAM with the processor's way
  of taking an interrupt, and the portable bit reversal and rotation.

A shared transfer or effect log, kept as ghost state, makes the contracts exact: they say which transfers
or effects a call and the handlers that interrupted it caused, not only what holds afterwards.

## What the code does that one might not expect

- A delay of 0 cycles (a non-zero time too short for one cycle) that starts when the cycle counter shows
  its last value waits a whole turn of the counter. `CycleDelay.EveryCycleCatches` and
  `CycleDelay.DelayAtLeastUs` give the exact condition, and `CycleDelay.ShortDelayTakesATurn` a call that
  meets it.
- Reads of the counter that are too far apart can skip the value a delay waits for, and the call then takes a
  further turn of the counter; `CycleDelay.TimelyIffCatchable` gives the exact condition.
- The 16-bit offset in the allocator's header suffices for every alignment up to 65532 and is too narrow for
  some placements of every larger one up to 2^31 (`AlignedHeap.OffsetFitsUpTo65532`), so of every power of two
  above 32768. `AlignedHeap.OffsetFitsIff` gives the exact condition for all alignments.
- Blocks for an alignment that is not a power of two need not be aligned
  (`AlignedHeap.MultiplesIffPowerOfTwo`), and for the three largest alignments accepted the overflow check
  wraps (`AlignedHeap.PaddingSufficesIff`).
- The logger ignores the verdict of the self-test. On a write-protected chip the test always fails
  (`EepromDriver.SelfTest`), but records are then counted as written although nothing is stored: what
  `DataLogger` says about the memory, it says about a chip that is not protected.
- The wrappers report success for system exceptions although nothing is written for them
  (`Nvic.Controller.EnableIRQ`).
- The comment at MCXN947_Web_Based_Data_Logger/services/Data_Logger_service/Data_Logger_service.c:28 says
  that the partitions match page boundaries. Both do start on one (bytes 0 and 1440 = 45 * 32), but 12-byte
  records do not fit pages evenly: two slots in eight, those numbered 2 or 5 modulo 8, cross into the next
  page and are written in two transfers. There, and only there, a failure can leave half a record
  (`DataLogger.InterruptionIsHarmlessIff`, `DataLogger.HalfARecord`).

## Model

| member | source | states |
|---|---|---|
| `AtomicSpec.ReplayOfSums` | MCXN947_Web_Based_Data_Logger/drivers/fsl_common_arm.h:113-153 | replaying any history of additions and subtractions leaves the start value plus the sum of their amounts, modulo the cell's range |
| `AtomicSpec.EffectsDo` | MCXN947_Web_Based_Data_Logger/drivers/fsl_common_arm.h:92-237 | what each operation does, in arithmetic, single bits and comparison: in every legal history an addition or subtraction moves the cell by its amount modulo its range, set, clear, toggle and clear-and-set change exactly the bits named, a compare-and-set stores and answers 1 if and only if it finds the expected value, a test-and-set answers the value it replaces |
| `AtomicSpec.BitsOfHistory` | MCXN947_Web_Based_Data_Logger/drivers/fsl_common_arm.h:155-237 | bit i after any history of set, clear, toggle and clear-and-set: as the last operation that set or cleared it left it, or as at first, turned over once for each toggle since |
| `AtomicSpec.AnswerWasEffected` | MCXN947_Web_Based_Data_Logger/drivers/fsl_common_arm.h:1131-1238 | an answer about to be returned is the answer of an effect of the same call |
| `ExclusiveMonitor.StepKeepsInvariant` | MCXN947_Web_Based_Data_Logger/CMSIS/cmsis_gcc.h:399-496 | every instruction (load, compute, store, clear, call, return, plain store, preemption) keeps: monitor set implies the running agent's loaded value is the cell's, and the history explains the cell |
| `ExclusiveMonitor.EveryRunIsLinearizable` | MCXN947_Web_Based_Data_Logger/drivers/fsl_common_arm.h:92-237 | for any number of agents and every interleaving, the cell and all answers are those of the operations run one at a time, each between its call and its return |
| `ExclusiveMonitor.OperationsDo` | MCXN947_Web_Based_Data_Logger/drivers/fsl_common_arm.h:92-237 | in every run each operation, when it takes effect, does that to the cell as it is at that moment, and the cell is what these effects and the plain stores made of it |
| `ExclusiveMonitor.BitsAreDecided` | MCXN947_Web_Based_Data_Logger/drivers/fsl_common_arm.h:155-237 | every bit of a cell used only through set, clear, toggle and clear-and-set, after any run, by the last operation that forced it and the toggles since |
| `ExclusiveMonitor.CallsAreAppliedOnce` | MCXN947_Web_Based_Data_Logger/drivers/fsl_common_arm.h:92-237 | for every weighting of operations, what was called equals what took effect plus what is still pending: none lost, none doubled |
| `ExclusiveMonitor.SumsAreConserved` | MCXN947_Web_Based_Data_Logger/drivers/fsl_common_arm.h:113-153 | no lost update: once all agents are idle, an atomic counter holds its start value plus everything requested, modulo its range |
| `ExclusiveMonitor.StoreSucceedsOnlyUndisturbed` | MCXN947_Web_Based_Data_Logger/drivers/fsl_common_arm.h:1131-1238 | no ABA: a store-exclusive succeeds if and only if the two instructions before it on the core are the same agent's exclusive load and computation |
| `ExclusiveMonitor.FailuresNeedPreemptions` | MCXN947_Web_Based_Data_Logger/drivers/fsl_common_arm.h:106-111 | an agent's failed store-exclusives, plus a failure already due, never exceed the preemptions it suffered |
| `ExclusiveMonitor.OperationIsBounded` | MCXN947_Web_Based_Data_Logger/drivers/fsl_common_arm.h:106-111 | an operation that has not returned has executed at most three instructions per preemption, plus three |
| `ExclusiveMonitor.RunIsBounded` | MCXN947_Web_Based_Data_Logger/drivers/fsl_common_arm.h:92-237 | system-wide progress: in every run the instructions of all agents, done and still needed, are at most five per call, three per change of the running agent and one per plain store |
| `MaskedAtomics.EveryRunIsLinearizable` | MCXN947_Web_Based_Data_Logger/drivers/fsl_common_arm.h:293-345 | the interrupt-masking operations, under any nesting of critical sections, meet the same linearizability specification as the exclusive-monitor ones |
| `MaskedAtomics.OperationsDo` | MCXN947_Web_Based_Data_Logger/drivers/fsl_common_arm.h:293-345 | the same for the interrupt-masking bodies: each operation does its work on the cell as it finds it |
| `MaskedAtomics.BitsAreDecided` | MCXN947_Web_Based_Data_Logger/drivers/fsl_common_arm.h:311-339 | every bit after any run of the interrupt-masking set, clear, toggle and clear-and-set |
| `MaskedAtomics.SectionsNest` | MCXN947_Web_Based_Data_Logger/drivers/fsl_common_arm.h:983-1021 | in every run interrupts stay masked from the first disable to the outermost restore, which puts back the original mask; no other agent is inside meanwhile |
| `SpinLock.LockHistory` | MCXN947_Web_Based_Data_Logger/drivers/fsl_common_arm.h:1131-1238 | in every linearizable history of lock and release calls at most one agent holds the lock, and the cell is 1 exactly while one does |
| `SpinLock.MutualExclusionByMonitor` | MCXN947_Web_Based_Data_Logger/drivers/fsl_common_arm.h:1131-1238 | a lock built on compare-and-set or test-and-set has at most one agent inside, in every reachable state of the exclusive-monitor core |
| `SpinLock.MutualExclusionByMask` | MCXN947_Web_Based_Data_Logger/drivers/fsl_common_arm.h:1241-1271 | the same for the interrupt-masking core |
| `AtomicLoops.Core.LoadExclusive` | MCXN947_Web_Based_Data_Logger/CMSIS/cmsis_gcc.h:411-490 | reads the cell and sets the monitor, after any handler that was due; the log only grows, by that handler's operations |
| `AtomicLoops.Core.StoreExclusive` | MCXN947_Web_Based_Data_Logger/CMSIS/cmsis_gcc.h:428-507 | stores and answers 0 exactly when the monitor survived, with nothing logged in between; a failure after a load means one more preemption; handlers' effects stay logged, in order, on both answers |
| `AtomicLoops.Core.ClearExclusive` | MCXN947_Web_Based_Data_Logger/CMSIS/cmsis_gcc.h:399-402 | leaves the monitor clear; this agent adds no effect, and those of the handlers so far are kept |
| `AtomicLoops.Core.Update` | MCXN947_Web_Based_Data_Logger/drivers/fsl_common_arm.h:92-237 | exactly one effect of the operation joins a legal history whose other effects are exactly the operations the handlers were due to make, so none of theirs is lost; retries are at most the preemptions; undisturbed, the cell changes as the operation says, bit by bit or by its amount |
| `AtomicLoops.Core.CompareAndSet` | MCXN947_Web_Based_Data_Logger/drivers/fsl_common_arm.h:1131-1202 | exactly one effect among the handlers' due ones, whose answer is the value returned; undisturbed, it stores and returns true if and only if the cell holds the expected value; retries are at most the preemptions; the monitor ends clear |
| `AtomicLoops.Core.TestAndSet` | MCXN947_Web_Based_Data_Logger/drivers/fsl_common_arm.h:1204-1238 | exactly one effect among the handlers' due ones, and the value returned is the one that effect replaced, undisturbed the one at the call; retries are at most the preemptions |
| `AtomicLoops.Core.DisableGlobalIRQ` | MCXN947_Web_Based_Data_Logger/drivers/fsl_common_arm.h:983-997 | returns the old mask and leaves interrupts masked; with interrupts already masked nothing happens in between |
| `AtomicLoops.Core.EnableGlobalIRQ` | MCXN947_Web_Based_Data_Logger/drivers/fsl_common_arm.h:1009-1021 | puts back the given mask, with no other effect |
| `AtomicLoops.Core.MaskedUpdate` | MCXN947_Web_Based_Data_Logger/drivers/fsl_common_arm.h:293-339 | exactly one effect among the handlers' due ones and the mask restored; called under a mask, it is the only effect, and the cell changes as the operation says, bit by bit or by its amount |
| `AtomicLoops.Core.MaskedCompareAndSet` | MCXN947_Web_Based_Data_Logger/drivers/fsl_common_arm.h:1241-1260 | the same one effect, answer and comparison as the exclusive-monitor body, handlers' effects kept, mask restored on both paths |
| `AtomicLoops.Core.MaskedTestAndSet` | MCXN947_Web_Based_Data_Logger/drivers/fsl_common_arm.h:1262-1271 | the same one effect and answer as the exclusive-monitor body, handlers' effects kept, mask restored |
| `CycleDelay.EveryCycleCatches` | MCXN947_Web_Based_Data_Logger/drivers/fsl_common_arm.c:228-245 | reading the counter on every cycle sees the target if and only if the delay is not one of 0 cycles begun at the counter's last value |
| `CycleDelay.TimelyIffCatchable` | MCXN947_Web_Based_Data_Logger/drivers/fsl_common_arm.c:228-245 | for every start value, count and g: all schedules of reads at most g cycles apart are seen through within count + g cycles if and only if no such read can skip the part of the counter's range that the two loops wait for |
| `CycleDelay.DelayCycles` | MCXN947_Web_Based_Data_Logger/drivers/fsl_common_arm.c:228-245 | for every start value, count and schedule of reads, the time passed being the gaps of the polls made: the call returns at the first poll at which the loops let it, never before the count has passed, and with gaps that cannot skip the target within count + gap |
| `CycleDelay.DelayAtLeastUs` | MCXN947_Web_Based_Data_Logger/drivers/fsl_common_arm.c:217-245 | in microseconds: a return after a non-zero time means that at least the time less one cycle has passed; with reads on every cycle the call returns, past the time by at most one cycle if and only if that time is not less than a cycle begun at the counter's last value, and then after exactly a turn; with gaps that cannot skip the target it returns within the count and one gap |
| `CycleDelay.ShortDelayTakesATurn` | MCXN947_Web_Based_Data_Logger/drivers/fsl_common_arm.c:217-245 | the exceptional case occurs: 1 us at a 32 kHz clock, asked for at the counter's last value, takes 2^32 cycles |
| `CycleDelay.DelayLoop` | MCXN947_Web_Based_Data_Logger/drivers/fsl_common_arm.c:187-203 | the loop makes as many rounds as its count, and 2^32 for a count of 0 |
| `CycleDelay.SoftwareDelayAtLeastUs` | MCXN947_Web_Based_Data_Logger/drivers/fsl_common_arm.c:246-274 | without the counter, in microseconds: short of the time by less than one round of four cycles, past it only if there is just one round; never the whole turn |
| `EepromSpec.PageWriteIsFlatInsidePage` | MCXN947_Web_Based_Data_Logger/drivers/My_I2C_eeprom.c:68-86 | a burst that stays inside its page writes as flat memory does, although the chip's address counter wraps in the page |
| `EepromSpec.BurstIsFlatIffItFits` | MCXN947_Web_Based_Data_Logger/drivers/My_I2C_eeprom.c:101-107 | clamping to the page is necessary: a burst equals a flat write for every memory content if and only if it fits its page |
| `EepromSpec.ChunkCount` | MCXN947_Web_Based_Data_Logger/drivers/My_I2C_eeprom.c:97-107 | a write of n > 0 bytes takes exactly ceil((address mod 32 + n) / 32) chunks |
| `EepromSpec.ChunksTile` | MCXN947_Web_Based_Data_Logger/drivers/My_I2C_eeprom.c:97-113 | the chunks tile the range in order, without gap or overlap, each inside one page and all but the first on a page boundary |
| `EepromSpec.CarriedIsPrefix` | MCXN947_Web_Based_Data_Logger/drivers/My_I2C_eeprom.c:97-113 | the first k chunks carry the data up to the k-th page boundary, or all of it |
| `EepromSpec.HoldsAfter` | MCXN947_Web_Based_Data_Logger/drivers/My_I2C_eeprom.c:128-156 | the memory is at all times, byte by byte, what was committed last: a successful send changes it exactly as the flat write does, anything else not at all |
| `EepromSpec.DelayCoversSettleIff` | MCXN947_Web_Based_Data_Logger/drivers/fsl_clock.h:53-61 | for either body of the delay, waiting what is computed for a declared maximum clock gives 5 ms at every clock up to it if and only if 5000 us is a whole number of cycles there, or of loop rounds (or that maximum is so low that one round is enough) |
| `EepromDriver.DeclaredMaximumIsSuitable` | MCXN947_Web_Based_Data_Logger/drivers/fsl_clock.h:53-61 | the device's declared maximum of 150 MHz is adequate for either body of the delay, and its count fits the counter |
| `EepromDriver.Bus.Settle` | MCXN947_Web_Based_Data_Logger/drivers/My_I2C_eeprom.c:115-121 | either body of the delay, polled at any moments, lets the chip's longest write cycle of 5 ms pass at every core clock up to any adequate declared maximum |
| `EepromDriver.WriteRawPage` | MCXN947_Web_Based_Data_Logger/drivers/My_I2C_eeprom.c:68-86 | one transfer, begun with the chip idle: on success the flat write of the data, on failure nothing changed |
| `EepromDriver.ChunkSize` | MCXN947_Web_Based_Data_Logger/drivers/My_I2C_eeprom.c:101-107 | the C expression with its 8-bit casts computes the bytes to the page's end or those left, never truncated |
| `EepromDriver.WriteBytes` | MCXN947_Web_Based_Data_Logger/drivers/My_I2C_eeprom.c:88-126 | rejected exactly when it would pass byte 4096, with no effect; otherwise exactly the chunks sent are committed and logged; success is the flat write of all data, which a write-protected chip acknowledges without storing it; the chip is idle at every transfer and at return |
| `EepromDriver.ReadBytes` | MCXN947_Web_Based_Data_Logger/drivers/My_I2C_eeprom.c:128-156 | rejected exactly when it would pass byte 4096; otherwise one transfer, and a success returns for each byte the one committed last, or from a protected chip the one it had at first |
| `EepromDriver.SelfTest` | MCXN947_Web_Based_Data_Logger/drivers/My_I2C_eeprom.c:15-61 | passes exactly when all four transfers succeed, never for a chip that acknowledges but does not store, and then no byte changed; after a failure only byte 0 can differ, holding the token exactly from its write to its replacement |
| `EepromDriver.Session` | MCXN947_Web_Based_Data_Logger/drivers/My_I2C_eeprom.c:15-156 | over any sequence of calls and bus failures: no transfer meets a busy chip, the statuses determine the transfers, rejected calls cause none, and reads return the latest committed bytes |
| `DataLogger.RecordChunks` | MCXN947_Web_Based_Data_Logger/services/Data_Logger_service/Data_Logger_service.c:28-30 | in a partition that starts a page, exactly the slots whose number is 2 or 5 modulo 8 take two transfers, the others one |
| `DataLogger.InterruptionIsHarmlessIff` | MCXN947_Web_Based_Data_Logger/services/Data_Logger_service/Data_Logger_service.c:54-60 | an interrupted write of a record leaves the memory as it was, in every outcome, if and only if the slot does not cross a page, that is, its number is not 2 or 5 modulo 8 |
| `DataLogger.HalfARecord` | MCXN947_Web_Based_Data_Logger/services/Data_Logger_service/Data_Logger_service.c:101-112 | the third slot of the first partition, interrupted between its transfers, holds eight bytes of the new record and four of the old one, and so neither |
| `DataLogger.RingAfterAttempt` | MCXN947_Web_Based_Data_Logger/services/Data_Logger_service/Data_Logger_service.c:101-116 | a complete record moves the window of the newest records on by one; an interrupted one changes nothing, or, in a slot that crosses a page, exactly the oldest record's beginning |
| `DataLogger.RingKept` | MCXN947_Web_Based_Data_Logger/services/Data_Logger_service/Data_Logger_service.c:25-30 | a write that misses a partition leaves its window alone |
| `DataLogger.NewestFirst` | MCXN947_Web_Based_Data_Logger/services/Data_Logger_service/Data_Logger_service.c:105-109 | stepping backwards from the write index finds the newest records in order, however many were ever written: all of a full ring, but for the oldest one if its slot crosses a page and a write of it was torn |
| `DataLogger.TimerStep` | MCXN947_Web_Based_Data_Logger/services/Data_Logger_service/Data_Logger_service.c:88-96 | the software timer fires exactly at each whole interval of passes |
| `DataLogger.Logger.WriteRecord` | MCXN947_Web_Based_Data_Logger/services/Data_Logger_service/Data_Logger_service.c:54-60 | success means all chunks arrived, failure that the memory holds exactly those that did; a record inside one page is all or nothing |
| `DataLogger.Logger.Tick` | MCXN947_Web_Based_Data_Logger/services/Data_Logger_service/Data_Logger_service.c:79-138 | pass n attempts a record of 12 bytes in one of 120 slots from byte 0 exactly if n is a multiple of 600 (30 s), and one in one of 72 slots from byte 1440 exactly if it is a multiple of 12000 (10 min), and the bus sees nothing else; each history is determined by how many chunks arrived; records written and lost add up to n / 600 and n / 12000; both rings and both indices stay right |
| `DataLogger.Logger.Passes` | MCXN947_Web_Based_Data_Logger/services/Data_Logger_service/Data_Logger_service.c:82-138 | any number of passes: both histories and everything the bus saw are those of the due attempts, each determined by how many chunks of its sample arrived; records written and lost are the passes divided by 600 and by 12000 |
| `DataLogger.Schedule` | MCXN947_Web_Based_Data_Logger/services/Data_Logger_service/Data_Logger_service.c:88-134 | over any passes, the bus sees transfers to bytes 0 to 1439 in exactly the passes numbered by multiples of 600, and to bytes 1440 to 2303 in exactly those numbered by multiples of 12000 |
| `DataLogger.StoredAre` | MCXN947_Web_Based_Data_Logger/services/Data_Logger_service/Data_Logger_service.c:82-138 | the records gained over any passes are, in order, exactly the samples of the passes in which an attempt was due and all its chunks arrived |
| `DataLogger.ReadBack` | MCXN947_Web_Based_Data_Logger/services/Data_Logger_service/Data_Logger_service.c:82-138 | after any passes of a fresh logger, stepping back from the index finds the samples of those passes, latest first |
| `DataLogger.StoredWithoutFailures` | MCXN947_Web_Based_Data_Logger/services/Data_Logger_service/Data_Logger_service.c:88-138 | if no transfer fails, the samples stored over n passes are those of the last pass of each whole interval |
| `DataLogger.LastHour` | MCXN947_Web_Based_Data_Logger/services/Data_Logger_service/Data_Logger_service.c:24-29 | byte by byte, the high-resolution partition of a logger that has lost nothing holds the samples of the last 120 passes numbered by multiples of 600: the last hour |
| `DataLogger.LastTwelveHours` | MCXN947_Web_Based_Data_Logger/services/Data_Logger_service/Data_Logger_service.c:24-30 | and the long-term partition those of the last 72 passes numbered by multiples of 12000: the last 12 hours |
| `AlignedHeap.SizeAlignIs` | MCXN947_Web_Based_Data_Logger/drivers/fsl_common_arm.h:418-419 | in 32-bit arithmetic the mask expression is the least multiple at or above the value, and 0 if adding overflows |
| `AlignedHeap.MultiplesIffPowerOfTwo` | MCXN947_Web_Based_Data_Logger/drivers/fsl_common_arm.h:418-419 | the mask expression always gives a multiple of the alignment if and only if that is a power of two, which the bitwise test align & (align - 1) == 0 decides |
| `AlignedHeap.PaddedSizeIs` | MCXN947_Web_Based_Data_Logger/drivers/fsl_common.c:30-52 | a request is refused if and only if its rounded and padded size does not fit in 32 bits; otherwise that size is computed without wrapping |
| `AlignedHeap.PaddingSufficesIff` | MCXN947_Web_Based_Data_Logger/drivers/fsl_common.c:36-52 | for every size the padded request leaves room for the header and the alignment if and only if alignment + 4 fits 32 bits; above that the overflow check itself wraps and lets through requests for less than a header |
| `AlignedHeap.Layout` | MCXN947_Web_Based_Data_Logger/drivers/fsl_common.c:54-67 | the block is aligned, its header and its bytes lie inside the raw block, no address wraps |
| `AlignedHeap.OffsetFitsIff` | MCXN947_Web_Based_Data_Logger/drivers/fsl_common.c:67-67 | the 16-bit offset field is wide enough for every placement if and only if what is left of the bits of alignment - 1 below their leading ones is less than 65532, or the alignment is 0xFFFF0000 |
| `AlignedHeap.OffsetFitsUpTo65532` | MCXN947_Web_Based_Data_Logger/drivers/fsl_common.c:67-67 | so up to 2^31 it is wide enough if and only if the alignment is at most 65532 |
| `AlignedHeap.HeaderReadsBack` | MCXN947_Web_Based_Data_Logger/drivers/fsl_common.c:65-67 | the four header bytes give back the magic number, and the distance to the raw block exactly when it is below 65536 |
| `AlignedHeap.LiveBlocksApart` | MCXN947_Web_Based_Data_Logger/drivers/fsl_common.c:25-89 | in every reachable heap two live blocks never overlap, headers included |
| `AlignedHeap.UserBytesHeld` | MCXN947_Web_Based_Data_Logger/drivers/fsl_common.c:25-89 | in every reachable heap a caller's bytes belong to a held raw block, which malloc and free leave alone |
| `AlignedHeap.Heap.Malloc` | MCXN947_Web_Based_Data_Logger/drivers/fsl_common.c:25-69 | malloc is asked once, for the padded size, unless the request is refused; null exactly when nothing was granted; otherwise a place above the header of a new raw block, for a power of two the lowest aligned one; all held bytes and all other blocks unchanged; the heap stays sound exactly when the distance fits the header's field |
| `AlignedHeap.Heap.Free` | MCXN947_Web_Based_Data_Logger/drivers/fsl_common.c:71-89 | a live block frees exactly the raw block its malloc returned; a pointer without the magic number below it is ignored; blocks and raw blocks stay in bijection exactly when the pointer was granted or nothing is freed |
| `AlignedHeap.Heap.ClientWrite` | MCXN947_Web_Based_Data_Logger/drivers/fsl_common.c:25-89 | a write inside one's own block keeps every header and every other block intact |
| `HeapSession.StoreServes` | MCXN947_Web_Based_Data_Logger/drivers/fsl_common.c:25-89 | a store by one owner updates that owner's contents and nobody else's |
| `HeapSession.Serve` | MCXN947_Web_Based_Data_Logger/drivers/fsl_common.c:25-89 | after any run of requests, stores and releases: malloc was asked for exactly what the requests come to; a handle is 0 if and only if nothing was granted or the block was released; every other handle is at the place computed from malloc's answer, aligned, a live block of the size asked for holding its owner's last stores; handles are distinct, and no other block is live or held |
| `PriorityCoding.BitsAddUp` | MCXN947_Web_Based_Data_Logger/CMSIS/core_cm33.h:2608-2609 | for every group and width 1 to 8 the two fields share exactly the implemented bits, despite the wrapping subtraction |
| `PriorityCoding.GroupIsMasked` | MCXN947_Web_Based_Data_Logger/CMSIS/core_cm33.h:2604-2604 | masking the group number with 7 keeps its value modulo 8 |
| `PriorityCoding.EncodeIs` | MCXN947_Web_Based_Data_Logger/CMSIS/core_cm33.h:2602-2615 | the encoded value is the reduced fields, preemption level above subpriority, and fits the implemented bits |
| `PriorityCoding.DecodeAfterEncode` | MCXN947_Web_Based_Data_Logger/CMSIS/core_cm33.h:2602-2640 | decoding what was encoded gives both fields reduced to their widths |
| `PriorityCoding.RegisterReadsBack` | MCXN947_Web_Based_Data_Logger/CMSIS/core_cm33.h:2555-2588 | setting and getting a priority keeps exactly the implemented low bits of what was passed |
| `PriorityCoding.PriorityRoundTrip` | MCXN947_Web_Based_Data_Logger/CMSIS/core_cm33.h:2555-2640 | encode, set, get, decode gives both fields reduced to their widths |
| `PriorityCoding.RegisterOrderIsLexicographic` | MCXN947_Web_Based_Data_Logger/CMSIS/core_cm33.h:2602-2615 | registers compare as the reduced fields do, preemption level first |
| `PriorityCoding.PreemptsIffLowerLevel` | MCXN947_Web_Based_Data_Logger/CMSIS/core_cm33.h:2602-2615 | on the bits the processor compares for preemption, one interrupt is more urgent if and only if its preemption level is lower |
| `Nvic.SettingAdds` | MCXN947_Web_Based_Data_Logger/CMSIS/core_cm33.h:2358-2366 | the word index and bit mask computed from an interrupt number, written to a write-one-to-set register, add exactly that interrupt |
| `Nvic.ClearingRemoves` | MCXN947_Web_Based_Data_Logger/CMSIS/core_cm33.h:2396-2404 | written to a write-one-to-clear register they remove exactly that interrupt |
| `Nvic.TestingFinds` | MCXN947_Web_Based_Data_Logger/CMSIS/core_cm33.h:2377-2387 | the masked word is non-zero if and only if the interrupt is in the set |
| `Nvic.SystemIndexIs` | MCXN947_Web_Based_Data_Logger/CMSIS/core_cm33.h:2561-2564 | the system-handler index names a priority byte if and only if the number is at least -12, each number its own |
| `Nvic.GroupingWriteAt` | MCXN947_Web_Based_Data_Logger/CMSIS/core_cm33.h:2327-2338 | the value written carries the key and the group in their fields and every other bit as read |
| `Nvic.GroupingWriteIsAccepted` | MCXN947_Web_Based_Data_Logger/CMSIS/core_cm33.h:2327-2338 | the write carries the key without which the processor ignores it |
| `Nvic.GroupingReadsBack` | MCXN947_Web_Based_Data_Logger/CMSIS/core_cm33.h:2327-2349 | getting the priority grouping after setting it, on a processor that ignores writes without the key, gives the low three bits asked for, and no other bit of the lower half has changed |
| `Nvic.Controller.GetEnable` | MCXN947_Web_Based_Data_Logger/CMSIS/core_cm33.h:2377-2387 | 1 exactly for enabled interrupts, 0 for system exceptions |
| `Nvic.Controller.GetPending` | MCXN947_Web_Based_Data_Logger/CMSIS/core_cm33.h:2415-2425 | 1 exactly for pending interrupts, 0 for system exceptions |
| `Nvic.Controller.SetPriority` | MCXN947_Web_Based_Data_Logger/CMSIS/core_cm33.h:2555-2565 | sets one level, reduced to the implemented bits, and changes no other interrupt's or handler's |
| `Nvic.Controller.GetPriority` | MCXN947_Web_Based_Data_Logger/CMSIS/core_cm33.h:2577-2588 | returns the level the processor sees |
| `Nvic.Controller.SetThenGetFields` | MCXN947_Web_Based_Data_Logger/CMSIS/core_cm33.h:2555-2640 | through the registers: the fields put in come back reduced to their widths |
| `Nvic.Controller.EnableIRQ` | MCXN947_Web_Based_Data_Logger/drivers/fsl_common_arm.h:753-786 | adds one interrupt to the enabled set; the not-available number fails and writes nothing, a system exception succeeds and writes nothing |
| `Nvic.Controller.DisableIRQ` | MCXN947_Web_Based_Data_Logger/drivers/fsl_common_arm.h:803-836 | removes one interrupt from the enabled set; the same two special cases |
| `Nvic.Controller.ClearPendingIRQ` | MCXN947_Web_Based_Data_Logger/drivers/fsl_common_arm.h:947-972 | removes one interrupt from the pending set; the same two special cases |
| `Nvic.Controller.IrqSetPriority` | MCXN947_Web_Based_Data_Logger/drivers/fsl_common_arm.h:902-927 | sets exactly one level; the not-available number fails and writes nothing |
| `Nvic.Controller.EnableIRQWithPriority` | MCXN947_Web_Based_Data_Logger/drivers/fsl_common_arm.h:854-881 | sets exactly one level and enables exactly one interrupt; the not-available number fails and writes nothing |
| `Nvic.Controller.Run` | MCXN947_Web_Based_Data_Logger/CMSIS/core_cm33.h:2358-2455 | any run of enable, disable, set-pending and clear-pending calls keeps the register words equal to the abstract sets |
| `Nvic.LastCommandDecides` | MCXN947_Web_Based_Data_Logger/CMSIS/core_cm33.h:2358-2455 | an interrupt is in the set exactly when the last command that switched it switched it on; otherwise as it was |
| `Nvic.WakeUp.Locate` | MCXN947_Web_Based_Data_Logger/drivers/fsl_common_arm.c:91-99 | repeated subtraction finds the word and the bit of an interrupt |
| `Nvic.WakeUp.EnableDeepSleepIRQ` | MCXN947_Web_Based_Data_Logger/drivers/fsl_common_arm.c:89-103 | adds exactly this interrupt to the wake-up set and to the enabled set; a negative number is located as the unsigned word it converts to, and enables nothing |
| `Nvic.WakeUp.DisableDeepSleepIRQ` | MCXN947_Web_Based_Data_Logger/drivers/fsl_common_arm.c:105-119 | removes exactly this interrupt from both sets; a negative number as above |
| `VectorTable.LastInstalledIs` | MCXN947_Web_Based_Data_Logger/drivers/fsl_common_arm.c:61-66 | what runs for an interrupt is the handler of the last call for it, or the original one |
| `VectorTable.Core.InstallIRQHandler` | MCXN947_Web_Based_Data_Logger/drivers/fsl_common_arm.c:18-71 | the processor, which takes interrupt irq as exception 16 + irq at that entry of the table VTOR names, runs the new handler for this interrupt and the same as before for every other; the answer is what it would have run; the table is copied only if it is not in RAM yet; the interrupt mask is restored; numbers below -16 change nothing |
| `VectorTable.Core.InstallAll` | MCXN947_Web_Based_Data_Logger/drivers/fsl_common_arm.c:18-71 | after any sequence of calls the processor runs, for every interrupt, the handler installed last for it or the original one; every answer is what would have run before that call, and the failure mark exactly for numbers below -16; at most one copy; the mask as before |
| `BitReverse.ReverseBits` | MCXN947_Web_Based_Data_Logger/CMSIS/cmsis_gcc.h:281-290 | the early-exit loop computes the word whose bit i is bit 31 - i of the input; the shift count stays between 0 and 31 |
| `BitReverse.ReverseIsUnique` | MCXN947_Web_Based_Data_Logger/CMSIS/cmsis_gcc.h:281-290 | that description determines the result |
| `BitReverse.ReverseTwice` | MCXN947_Web_Based_Data_Logger/CMSIS/cmsis_gcc.h:281-290 | reversing twice gives the word back |
| `BitReverse.RotateRightAt` | MCXN947_Web_Based_Data_Logger/CMSIS/cmsis_gcc.h:247-255 | bit i of the rotated word is bit i + turns of the input, counted around the word |

## Left out

- AtomicLoops.Core.MaskedCompareAndSet: its source body always accesses 4 bytes, so it is modelled for a cell of that width; the model does not show what happens to the neighbours of a smaller variable.
- AtomicLoops.Core.MaskedTestAndSet: the same restriction to a 4-byte cell.
- MaskedAtomics.EveryRunIsLinearizable: for compare-and-set and test-and-set the source bodies always access 4 bytes, so for those two only cells of that width are described, although the theorem is stated for every width.
- SpinLock.MutualExclusionByMask: for the same reason it describes locks in a 4-byte cell only.
- ExclusiveMonitor.EveryRunIsLinearizable: one cell; exclusive accesses to several addresses whose loops are nested inside each other, and cores with a global monitor, are not modelled.
- AlignedHeap.Heap.Malloc: the three alignments just below the refused one are excluded; by `AlignedHeap.PaddingSufficesIff` the source then asks malloc for too little and writes its header outside the block, which has no defined meaning.
- AlignedHeap.Heap.Free: a pointer with the magic number below it must lead to null or to a raw block that malloc returned, as free demands; what free does with anything else is not defined.
- HeapSession.Serve: requests have a refused alignment or one for which every offset fits the header, which `AlignedHeap.OffsetFitsIff` decides; with any other, `AlignedHeap.Heap.Malloc` says when the header is wrong, and no promise about the rest of a run can be kept.
- CycleDelay.SoftwareDelayAtLeastUs: a round is taken to cost at least four cycles on this core, as the source's own division assumes; the instructions around the loop are not counted.
- Nvic.Controller.EnableIRQ: interrupt numbers past the register file, and lines the device does not implement, are not modelled; the source checks neither.
- Nvic.WakeUp.EnableDeepSleepIRQ: the number, converted to an unsigned word, must name a word of the wake-up registers; on a real device this leaves out the negative numbers, which the source does not check and turns into an access far beyond the registers.
- Nvic.WakeUp.DisableDeepSleepIRQ: the same restriction.
- VectorTable.Core.InstallIRQHandler: numbers past the end of the table are excluded, since the source does not check them.
- Bit patterns of the header in memory are little-endian bytes, as on this core.
- Critical-section measurement (`DisableGlobalIRQEx`, `EnableGlobalIRQEx`): its context holds one section only.
- The TrustZone copies of the interrupt controller functions, SAU, ITM and debug registers: copies or plain register access.
- Sensor drivers, RTC conversion and their floating-point formulas; bus, pin and clock set-up; the web, network and health-monitor services: input and output or straight-line code.
- Of the logging task: the check-in with the health monitor, the extra 5 ms pause after a record and the snapshot's critical section; the sampled record is a parameter.
- The bus driver itself (`LPI2C_MasterTransferBlocking`) is not part of this model; a transfer is one step that may fail.
