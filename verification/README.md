# Verified model of the low-level layer of an STM32 / ADIN1110 Modbus framework

The framework runs FreeRTOS, lwIP and a Modbus server on an STM32L4S5 with an ADIN1110
Ethernet transceiver. This project models the parts of it that compute or keep state close
to the hardware, and proves what they guarantee:

- `Bits.dfy`: 32-bit words as numbers, the C operators on them, and reasoning by single bits.
- `Instructions.dfy`: the software forms of bit reversal, leading-zero count and rotation.
- `Startup.dfy`: the copy-table and zero-table loops that fill the data sections.
- `PriorityCode.dfy`: encoding and decoding of interrupt priorities under a grouping.
- `NvicPriority.dfy`: the packed priority registers (Baseline, M0) against a plain map from
  interrupt to priority byte, for single calls and for runs of them.
- `MainlineNvic.dfy`: the byte-wide priority registers against the same map, the priority
  grouping register with its write key, `HAL_NVIC_SetPriority` on top of both, and runs on
  both kinds of registers side by side.
- `NvicBanks.dfy`: enable, pending and target-state registers as sets of interrupts, and
  runs on the banked and the one-word form side by side.
- `Interleaving.dfy`: register updates that run into one another.
- `Frames.dfy`: taking Ethernet frames apart and putting them together, sequentially.
- `FifoProtocol.dfy`: the mutex protocol around the transceiver's FIFO, step by step and,
  in the driver's shared buffer, byte by byte.
- `FifoLogs.dfy`: the records of its state against the events of a run.
- `FifoSafety.dfy`: what every step of it keeps.
- `FifoRuns.dfy`: stretches of runs, up to whole undisturbed calls.
- `FifoTheorems.dfy`: what it achieves over every run, and the runs in which it does not.
- `Sbrk.dfy`: the break allocator behind the C library's heap.
- `SystemClock.dfy`: the core clock recomputed from the clock registers.
- `TickBase.dfy`: the millisecond tick and how far it drifts.

Objects whose functions update registers or globals are classes with those fields; their
methods are proved against specification functions or abstract views (maps, sets,
sequences), and the lemmas are about those. `__NVIC_PRIO_BITS` is a parameter from 1 to 8.
Calls into the HAL, the operating system and the transceiver driver return values that are
parameters of the model, so every outcome is covered.

Where the code does less than its documentation or its name promises, the code is modelled
and the lemma gives the exact condition:

- A copy entry delivers its source intact from every memory exactly when its destination
  does not start inside its source (`DeliversExactly`); whole tables initialise the sections
  exactly when a check on the tables alone passes (`InitialisedExactly`), which for separate
  destinations that are not zeroed means that every entry reads original words
  (`ReadsOriginalsExactly`).
- Two priority calls that overlap on one register lose an update, except in the cases that
  `OverlapSerializableExactly` lists.
- The M0 bank ignores the upper bits of the interrupt number, so it agrees with the banked
  form exactly over the runs that name no interrupt above 31 (`OneWordAgreesExactly`); for a
  single interrupt it is enough that the last call taken for it is its own or does the same
  (`OneWordReadsExactly`).
- `_sbrk` keeps its account over every run exactly when the heap limit lies in the lower
  half of the address space (`AccountedExactly`), as it does in the linker script.
- The clock is S/m*n/d, with its inner truncation, exactly when the product S/m*n fits in 32
  bits; then it is the true floor of S*n/(m*d) exactly when the slack of the truncations is
  also below one unit, m*d (`PllClockAccuracy`). Register contents for which the product does
  not fit are given (`MsiOverflow`). The documentation says that the MSI source gives
  `MSI_VALUE`, the code uses the range table.
- The tick is one millisecond exactly when the timer clock is a whole number of megahertz
  (`NoDriftExactly`); the comment in the file derives the period from the timer clock, the
  code uses the constant 999. An out-of-range tick priority is refused only after the timer
  has been started and its interrupt enabled (`InitTick`).
- Frames are received and sent intact in every run exactly when the mutex excludes others
  and no two tasks poll (`IntactExactly`): the mutex protects the driver's buffer, but the
  received payload is read from a second shared buffer after the release. The application
  has one polling task (Core/Src/main.c:495-499).

Sources outside the files named in the table: register field widths come from
Drivers/CMSIS/Device/ST/STM32L4xx/Include/stm32l4s5xx.h:11995-12273, addresses from
STM32L4S5VITX_FLASH.ld:41-54, the effect of writes to set-enable and clear-enable registers
from section B3.4 of the Armv6-M Architecture Reference Manual, the frame layout from
section 3.2 of IEEE 802.3.

## Model

| member | source | states |
|---|---|---|
| Instructions.Rbit | Drivers/CMSIS/Include/cmsis_gcc.h:1048-1069 | the early-exit loop returns the word whose bit i is bit 31-i of the argument, for every word |
| Instructions.RbitIar | Drivers/CMSIS/Include/cmsis_iccarm.h:540-551 | the form with an 8-bit counter returns the same word |
| Instructions.ReversedInvolution | Drivers/CMSIS/Include/cmsis_gcc.h:1048-1069 | reversing twice gives the word back |
| Instructions.Clz | Drivers/CMSIS/Include/cmsis_iccarm.h:525-538 | the mask scan ends and returns the number of zeros above the highest set bit, 32 for zero |
| Instructions.LeadingZerosBracket | Drivers/CMSIS/Include/cmsis_iccarm.h:525-538 | c zeros lead exactly when 2^(31-c) <= x < 2^(32-c) |
| Instructions.TrailingZerosByReversal | Drivers/CMSIS/Include/cmsis_iccarm.h:525-551 | the leading-zero count of the reversed word is the trailing-zero count of the word |
| Instructions.TrailingZerosDivide | Drivers/CMSIS/Include/cmsis_iccarm.h:525-551 | that count is the exponent of the largest power of two dividing the word |
| Instructions.RotatedBit | Drivers/CMSIS/Include/cmsis_gcc.h:1021-1029 | rotation moves bit i+n modulo 32 to bit i, whatever the amount n |
| Instructions.RorCompose | Drivers/CMSIS/Include/cmsis_gcc.h:1021-1029 | two rotations are the rotation by the wrapped sum of their amounts |
| Instructions.RorUndo | Drivers/CMSIS/Include/cmsis_gcc.h:1021-1029 | rotating by the rest of the word undoes a rotation |
| Instructions.ReversedRor | Drivers/CMSIS/Include/cmsis_gcc.h:1021-1069 | reversal turns a rotation by a into one by 32 - a mod 32 |
| Startup.CopyLoop | Drivers/CMSIS/Include/cmsis_gcc.h:151-155 | one copy entry leaves in every word the original word of its origin, for overlapping ranges too |
| Startup.OriginPeriodic | Drivers/CMSIS/Include/cmsis_gcc.h:151-155 | a destination d words above the source receives the source's first d words over and over |
| Startup.DeliversExactly | Drivers/CMSIS/Include/cmsis_gcc.h:151-155 | an entry delivers its source intact from every memory if and only if its destination does not start inside its source |
| Startup.ZeroLoop | Drivers/CMSIS/Include/cmsis_gcc.h:157-161 | one fill entry makes its slice of memory all zeros and keeps the slices before and after it |
| Startup.CmsisStart | Drivers/CMSIS/Include/cmsis_gcc.h:151-161 | after startup the slice of every zero entry is all zeros, words that no entry writes keep their contents, entries that read original words and are not written over hold the slice of their source, and in general every other word holds the original word its address is traced to; no table is excluded |
| Startup.SectionDelivered | Drivers/CMSIS/Include/cmsis_gcc.h:151-155 | an entry of a table that reads original words, with nothing after it writing to its destination, holds its source slice after the whole startup |
| Startup.InitialisedExactly | Drivers/CMSIS/Include/cmsis_gcc.h:151-161 | every word ends up as its last covering entry intends, from every memory, if and only if the trace of each word that is not zeroed is the intended one |
| Startup.ReadsOriginalsSuffices | Drivers/CMSIS/Include/cmsis_gcc.h:151-155 | that check passes when no entry overlaps itself upwards or reads what an earlier one changed |
| Startup.ReadsOriginalsExactly | Drivers/CMSIS/Include/cmsis_gcc.h:151-161 | for tables whose destinations are apart and not zeroed, the sections are initialised from every memory if and only if no entry overlaps itself upwards or reads what an earlier one changed |
| Startup.SecondRunChangesNothing | Drivers/CMSIS/Include/cmsis_gcc.h:151-161 | with sources outside every destination the sections are initialised as intended and a second run changes nothing |
| PriorityCode.WidthsSum | Drivers/CMSIS/Include/core_armv8mml.h:2298-2303 | the two field widths always share out the N bits, the wrapped subtraction notwithstanding |
| PriorityCode.EncodedValue | Drivers/CMSIS/Include/core_armv8mml.h:2296-2309 | the encoded priority is the truncated preempt part times 2^b plus the truncated subpriority, and is below 2^N |
| PriorityCode.DecodePriority | Drivers/CMSIS/Include/core_armv8mml.h:2323-2334 | the decoded parts are quotient and remainder by the subpriority's range |
| PriorityCode.DecodeEncode | Drivers/CMSIS/Include/core_armv8mml.h:2296-2334 | decoding an encoded priority gives both parts, truncated to their widths |
| PriorityCode.EncodeDecode | Drivers/CMSIS/Include/core_armv8mml.h:2296-2334 | encoding a decoded value gives it back modulo 2^N |
| PriorityCode.EncodeOrder | Drivers/CMSIS/Include/core_armv8mbl.h:1498-1511 | for in-range parts the encoded order is lexicographic |
| NvicPriority.SystemIndex | Drivers/CMSIS/Include/core_armv8mbl.h:1240 | the packed system index is inside its two registers exactly for exceptions -8 and up |
| NvicPriority.SystemByteIndex | Drivers/CMSIS/Include/core_armv8mml.h:2257 | the byte index is inside its twelve bytes exactly for exceptions -12 and up |
| NvicPriority.SameAddress | Drivers/CMSIS/Include/core_armv8mbl.h:1239-1241 | word index and shift address the byte that the Mainline code stores to |
| NvicPriority.SlotInjective | Drivers/CMSIS/Include/core_cm0.h:610-612 | two interrupts are the same if and only if they agree in bank, word index and shift |
| NvicPriority.ImplementsExactly | Drivers/CMSIS/Include/core_armv8mbl.h:1239-1241 | the interrupts admitted in the packed registers are exactly those whose computed index lies inside them |
| MainlineNvic.ByteImplementsExactly | Drivers/CMSIS/Include/core_armv8mml.h:2249-2259 | the interrupts admitted in the byte registers are exactly those whose computed index lies inside them |
| NvicPriority.FieldReadBack | Drivers/CMSIS/Include/core_cm0.h:732-767 | the stored byte reads back as the priority modulo 2^N |
| NvicPriority.WithByteAt | Drivers/CMSIS/Include/core_armv8mbl.h:1453-1454 | the read-modify-write replaces one byte of the word and keeps the other three |
| NvicPriority.PackedNvic.SetPriority | Drivers/CMSIS/Include/core_armv8mbl.h:1449-1461 | the registers become those of the read-modify-write, and seen as a map from interrupt to byte exactly the entry of the interrupt changes |
| NvicPriority.PackedSetView | Drivers/CMSIS/Include/core_cm0.h:732-744 | the read-modify-write of one register word, at the computed index and shift, is the update of one map entry |
| NvicPriority.PackedNvic.GetPriority | Drivers/CMSIS/Include/core_armv8mbl.h:1473-1484 | the result is that entry shifted down by 8-N |
| NvicPriority.PackedRunView | Drivers/CMSIS/Include/core_armv8mbl.h:1449-1461 | over every run of calls the packed registers, seen as a map, hold the bytes of the map updated call by call |
| NvicPriority.PackedNvic.SetPriorities | Drivers/CMSIS/Include/core_armv8mbl.h:1449-1461 | a loop of calls leaves exactly the registers and the map of the run |
| NvicPriority.LastPriorityWins | Drivers/CMSIS/Include/core_cm0.h:732-767 | reading an interrupt from the packed registers after any run gives the last priority set for it modulo 2^N, or what it read before if the run does not name it |
| MainlineNvic.ByteRun | Drivers/CMSIS/Include/core_armv8mml.h:2249-2259 | over every run of calls the byte registers hold the same map |
| MainlineNvic.ByteNvic.SetPriorities | Drivers/CMSIS/Include/core_armv8mml.h:2249-2259 | a loop of calls leaves exactly the registers and the map of the run |
| MainlineNvic.LastPriorityWinsInBytes | Drivers/CMSIS/Include/core_armv8mml.h:2249-2282 | reading an interrupt from the byte registers after any run gives the last priority set for it modulo 2^N, or what it read before |
| MainlineNvic.LayoutsAgree | Drivers/CMSIS/Include/core_armv8mbl.h:1449-1484 | packed and byte registers that read the same for every interrupt both implement still do after any run of calls on both |
| MainlineNvic.SetInBoth | Drivers/CMSIS/Include/core_armv8mbl.h:1449-1484 | the same for the two register objects: after the same calls their priority reads are equal |
| MainlineNvic.ByteNvic.SetPriority | Drivers/CMSIS/Include/core_armv8mml.h:2249-2259 | a call changes exactly the map entry of its interrupt |
| MainlineNvic.ByteNvic.GetPriority | Drivers/CMSIS/Include/core_armv8mml.h:2271-2282 | the result is that entry shifted down by 8-N |
| MainlineNvic.GroupingWordFields | Drivers/CMSIS/Include/core_armv8mml.h:2026-2030 | the upper half of the written word is 0x05FA, and below it are the group modulo 8 and in every other bit what was read |
| MainlineNvic.ByteNvic.SetPriorityGrouping | Drivers/CMSIS/Include/core_armv8mml.h:2021-2032 | the write is accepted, the group read back is the requested one modulo 8, and no other low bit changes |
| MainlineNvic.ReadAircrHalves | Drivers/CMSIS/Include/core_armv8mml.h:2026-2043 | a load of AIRCR gives the key status in the upper half and the stored bits in the lower |
| MainlineNvic.GroupingReadBack | Drivers/CMSIS/Include/core_armv8mml.h:2040-2043 | the group read back splits priorities like the requested one |
| MainlineNvic.ByteNvic.HalSetPriority | Drivers/STM32L4xx_HAL_Driver/Src/stm32l4xx_hal_cortex.c:185-196 | decoding the priority read back under the current grouping gives both parts truncated to their widths; only this interrupt's entry changes |
| MainlineNvic.ByteNvic.SetGroupAndPriority | Drivers/STM32L4xx_HAL_Driver/Src/stm32l4xx_hal_cortex.c:163-196 | setting a group and then a priority pair that fits it: the pair is decoded from the register under the requested group |
| MainlineNvic.EncodedPriorityReadBack | Drivers/CMSIS/Include/core_armv8mml.h:2249-2334 | an encoded priority survives the register and decodes to its parts |
| NvicBanks.BitMaskValue | Drivers/CMSIS/Include/core_armv8mbl.h:1257 | the mask of an interrupt is the power of two of its number modulo 32 |
| NvicBanks.IrqBanks.EnableIRQ | Drivers/CMSIS/Include/core_armv8mbl.h:1252-1260 | the interrupt joins the enabled set, nothing else changes, and a negative number changes nothing |
| NvicBanks.IrqBanks.DisableIRQ | Drivers/CMSIS/Include/core_armv8mbl.h:1290-1298 | the interrupt leaves the enabled set, nothing else changes |
| NvicBanks.IrqBanks.SetPendingIRQ | Drivers/CMSIS/Include/core_armv8mbl.h:1328-1334 | the interrupt joins the pending set |
| NvicBanks.IrqBanks.ClearPendingIRQ | Drivers/CMSIS/Include/core_armv8mbl.h:1343-1349 | the interrupt leaves the pending set |
| NvicBanks.IrqBanks.GetBit | Drivers/CMSIS/Include/core_armv8mbl.h:1271-1281 | 1 exactly for members of the bank's set, 0 for negative numbers |
| NvicBanks.IrqBanks.SetTargetState | Drivers/CMSIS/Include/core_armv8mbl.h:1403-1414 | the interrupt joins the non-secure set and the value read back is 1 |
| NvicBanks.IrqBanks.ClearTargetState | Drivers/CMSIS/Include/core_armv8mbl.h:1425-1436 | the interrupt leaves the non-secure set and the value read back is 0 |
| NvicBanks.OneWordBank.EnableIRQ | Drivers/CMSIS/Include/core_cm0.h:623-631 | the interrupt modulo 32 joins the set |
| NvicBanks.OneWordBank.DisableIRQ | Drivers/CMSIS/Include/core_cm0.h:661-669 | the interrupt modulo 32 leaves the set |
| NvicBanks.OneWordBank.GetEnableIRQ | Drivers/CMSIS/Include/core_cm0.h:642-652 | 1 exactly when the interrupt modulo 32 is in the set |
| NvicBanks.BankRunMembers | Drivers/CMSIS/Include/core_armv8mbl.h:1252-1298 | over every run of enable and disable calls the registers hold the set updated call by call |
| NvicBanks.IrqBanks.Perform | Drivers/CMSIS/Include/core_armv8mbl.h:1252-1298 | a loop of the two calls leaves exactly the registers and the set of the run |
| NvicBanks.LastEnableWins | Drivers/CMSIS/Include/core_armv8mbl.h:1252-1298 | the bit read after any run is 1 or 0 as the last call for the interrupt enables or disables it, and the old bit if no call names it |
| NvicBanks.LastAliasedWins | Drivers/CMSIS/Include/core_cm0.h:623-669 | on the one-word register the last call with the same number modulo 32 decides the bit read |
| NvicBanks.OneWordBank.Perform | Drivers/CMSIS/Include/core_cm0.h:623-669 | a loop of the two calls leaves exactly the word and the set of the run |
| NvicBanks.OneWordRefinesBank | Drivers/CMSIS/Include/core_cm0.h:623-669 | on runs that name no interrupt above 31 the one word goes through the values of the first register of a bank, whose others keep theirs |
| NvicBanks.OneWordAgrees | Drivers/CMSIS/Include/core_cm0.h:623-669 | after such a run the one word and the bank give equal reads for every interrupt below 32 |
| NvicBanks.PerformInBoth | Drivers/CMSIS/Include/core_cm0.h:623-669 | the same for the two register objects: equal reads before such a run are equal reads after it |
| NvicBanks.OneWordAgreesExactly | Drivers/CMSIS/Include/core_cm0.h:623-669 | over a run the two forms end with the same set from every set if and only if no call names an interrupt above 31 |
| NvicBanks.OneWordReadsExactly | Drivers/CMSIS/Include/core_cm0.h:623-669 | over a run the two forms read the same for an interrupt below 32 from every bank if and only if the last call taken for it does what its own last call does |
| Interleaving.Serializable | Drivers/CMSIS/Include/core_armv8mbl.h:1449-1461 | every interleaving in which no store hits a word another call has loaded equals the sequential execution in store order |
| Interleaving.SerialHappens | Drivers/CMSIS/Include/core_armv8mbl.h:1252-1461 | conversely every sequential execution, of any calls in any order, is one of the runs |
| Interleaving.EveryStepHappens | Drivers/CMSIS/Include/core_armv8mbl.h:1252-1461 | a load, its store and a single store are possible in every state whose registers contain the word, with the stated effect |
| Interleaving.InFlightApartSuffices | Drivers/CMSIS/Include/core_armv8mbl.h:1449-1461 | calls in flight that never share a register make a run of that kind |
| Interleaving.SingleStoresSerializable | Drivers/CMSIS/Include/core_armv8mbl.h:1252-1298 | runs of enable, disable and pending calls equal their store order with no condition |
| Interleaving.OverlapSerializableExactly | Drivers/CMSIS/Include/core_armv8mbl.h:1449-1461 | two priority calls, given by interrupt and priority, that both load before either stores leave the registers of one call after the other, in either order, if and only if their registers differ, the interrupt is the same, or its byte already was what the first one stores |
| Interleaving.UndividedSetsPriority | Drivers/CMSIS/Include/core_armv8mbl.h:1453-1458 | load and store of such a call, executed in one piece, are the register update proved against the map |
| Interleaving.OverlapHappens | Drivers/CMSIS/Include/core_armv8mbl.h:1453-1454 | two load-store calls can overlap like that whatever the registers hold |
| Interleaving.BitCallEffect | Drivers/CMSIS/Include/core_armv8mbl.h:1403-1436 | target-state calls are updates of this kind with the bank methods' effect |
| Frames.Transmitted | Application/network.c:118-125 | a transmitted frame has the same length and bytes, except positions 6 to 11, which are the device's address |
| Frames.TransmittedTwice | Application/network.c:118-125 | doing it twice equals doing it once |
| Frames.FrameBounds | Libraries/noOS/src/drivers/adin1110.c:509-549 | the model's frame lengths are exactly those that fit the driver's buffer behind its headers, up to 1526 bytes out and, in whole groups of four, up to 1522 in |
| Frames.EthernetInterface.LinkOutput | Application/network.c:113-138 | the FIFO receives the frame with the device's address, exactly when initialised, locked and accepted; each outcome has its return value; the mutex is free again |
| Frames.EthernetInterface.Poll | Application/network.c:140-177 | what is handed to the stack is the frame at the head of the FIFO, byte for byte; each failing branch hands over nothing; the mutex is free again |
| FifoRuns.SendAlone | Application/network.c:113-138 | in the protocol an undisturbed sending call, on each of its courses, returns with the mutex free, and its frame is sent with the device's address exactly when nothing fails |
| FifoRuns.PollAlone | Application/network.c:140-177 | an undisturbed poll, on each of its courses, returns with the mutex free, and the frame at the head is handed over as it arrived exactly when nothing fails |
| FifoLogs.ArrivalsOnRecord | Application/network.c:147-151 | in every run the frames taken out and those still waiting are together the frames that arrived, in order |
| FifoLogs.SentIsAccepted | Application/network.c:127-131 | in every run the frames on record as sent are, in order, exactly those that the accepted transfers were clocking out |
| FifoLogs.FatesAreEndings | Application/network.c:150-168 | in every run the fates on record are, in order, exactly the deliveries and losses that happened |
| FifoLogs.TurnsOnRecord | Application/network.c:127-151 | the successful waits and the releases of a run are counted one for one |
| FifoTheorems.MutualExclusion | Application/network.c:127-149 | with the mutex in force, in every reachable state at most one task is between wait and release, it is the owner, and every successful wait but a pending one has its release |
| FifoTheorems.HolderCanRelease | Application/network.c:129-151 | from every reachable state the holder of the mutex can reach its release by moves of its own, every other task standing still |
| FifoSafety.LockKeepsWires | Libraries/noOS/src/drivers/adin1110.c:532-551 | with the mutex in force the driver's buffer holds, byte by byte, what its one user has copied into it; every accepted transfer is on record as sent, and each clocked out the submitted frame with the device's address |
| FifoSafety.SentOnce | Application/network.c:113-132 | whether or not the mutex excludes anybody, in every run each sent frame names one submission, none is sent twice, and those of one task are sent in their order |
| FifoSafety.SentAreAcceptedSubmissions | Application/network.c:113-132 | whoever holds the mutex, the sent frames name, one for one and in order, the submissions that the trace says were accepted |
| FifoTheorems.SendingOrder | Application/network.c:113-132 | with the mutex in force the frames sent correspond one to one to the accepted submissions of the run, each intact and once, those of one task in their order |
| FifoSafety.OnePollerKeepsData | Libraries/noOS/src/drivers/adin1110.c:595-626 | with the mutex and one poller, both buffers hold as much of the frame being brought in as has been copied, and every frame taken out is delivered unchanged or dropped, in order |
| FifoTheorems.IntactExactly | Application/network.c:127-168 | in all reachable states every frame received and every frame sent is intact if and only if the mutex excludes others and no two tasks poll |
| FifoTheorems.TornBySender | Libraries/noOS/src/drivers/adin1110.c:545-551 | without the mutex a second sender tears the first one's frame in the driver's buffer |
| FifoTheorems.TornByFill | Libraries/noOS/src/drivers/adin1110.c:545-623 | without the mutex a sender tears a frame that a poller has received and not yet copied out of the driver's buffer |
| FifoTheorems.TornDelivery | Application/network.c:140-168 | with two pollers, mutex or not, a run delivers a frame with another one's payload |
| FifoTheorems.DeliveryOrder | Application/network.c:147-168 | with the mutex and one poller the stack is handed arrived frames, unchanged and in order of arrival |
| Sbrk.Heap.Sbrk | Core/Src/sysmem.c:53-79 | from a break between the static data and the reserved stack, a request is granted at the break exactly when it ends at or below estack minus the stack size, and the break stays there; in all other cases too the answer and the new break are those of the specification, lazy initialisation and wrap-around included |
| Sbrk.Heap.ServeBelowStack | Core/Src/sysmem.c:53-79 | over every run of requests on the object that gives back no more than it got, each answer is decided like that from what was granted before, and the break plus the reserved stack never passes estack |
| Sbrk.BreakIsSum | Core/Src/sysmem.c:53-79 | over every run that gives back no more than it got, the break is the base plus the granted increments and never passes the limit |
| Sbrk.AnswersDecided | Core/Src/sysmem.c:68-78 | a request fails exactly when it does not fit, and a granted block starts where the granted ones end |
| Sbrk.BlocksDisjoint | Core/Src/sysmem.c:53-79 | blocks granted to nonnegative requests are disjoint, ascending, inside the heap, and adjacent when nothing was granted between them |
| Sbrk.ReleaseUndoesGrant | Core/Src/sysmem.c:75-78 | giving back what was just granted restores the break |
| Sbrk.AccountedExactly | Core/Src/sysmem.c:68-76 | all runs of nonnegative requests keep the account if and only if the limit is at most 2^31 |
| Sbrk.WrappingRun | Core/Src/sysmem.c:68-76 | above that limit some run of nonnegative requests breaks the account |
| SystemClock.MaskShiftIsField | Core/Src/system_stm32l4xx.c:256-263 | masking and shifting reads the field of that position and width: the word's value divided by 2^position, modulo 2^width |
| SystemClock.Clock.SystemCoreClockUpdate | Core/Src/system_stm32l4xx.c:251-317 | the global becomes the clock given by the digits of the registers, for all register values with a defined range code |
| SystemClock.CoreClockInDigits | Core/Src/system_stm32l4xx.c:251-317 | that clock in numbers: 12 range frequencies chosen by bit 3 of cr, switch, PLL source, divider, multiplier cut to 32 bits, output divider, and AHB divisors 1, 2 to 16, 64 to 512 |
| SystemClock.ApplicationClock | Core/Src/main.c:207-229 | the application's register contents give 96 MHz |
| SystemClock.PllClockAccuracy | Core/Src/system_stm32l4xx.c:282-316 | the 32-bit result is S/m*n/d exactly when S/m*n fits in a word; then S*n = c*m*d + slack with the slack below m*d + (m-1)*n, and c is the exact floor if and only if the slack is below m*d |
| SystemClock.ErrorBound | Core/Src/system_stm32l4xx.c:285-306 | the exact error of the truncating divisions and its bounds |
| SystemClock.FloorExactly | Core/Src/system_stm32l4xx.c:285-306 | the result is the exact floor if and only if the slack is below one unit, as it is when m divides S |
| SystemClock.NoOverflowExactly | Core/Src/system_stm32l4xx.c:303-306 | cutting the product to 32 bits leaves the result right if and only if the product fits |
| SystemClock.FixedSourcesFit | Core/Src/system_stm32l4xx.c:289-297 | with HSI or HSE as PLL source it always fits |
| SystemClock.MsiOverflow | Core/Src/system_stm32l4xx.c:282-306 | with cr 0xB8, csr 0, cfgr 0xC and pllcfgr 0x7F01 (48 MHz undivided times 127 over 2) the system clock comes out as 900516352 instead of 3048000000 |
| TickBase.TimeBase.InitTick | Core/Src/stm32l4xx_hal_timebase_tim.c:41-113 | for a timer clock c of pclk1, or twice that when APB1 is divided, from 1 MHz up: the stored prescaler is c/1000000 - 1 and every number of ticks keeps time at c; status, enabled interrupt 54, stored priority and priority register for every outcome of the HAL calls |
| TickBase.AllLevelsKeptExactly | Core/Src/stm32l4xx_hal_timebase_tim.c:97-101 | every accepted tick priority decodes unchanged if and only if the grouping leaves no subpriority bit |
| TickBase.PrescalerFitsExactly | Core/Src/stm32l4xx_hal_timebase_tim.c:69 | the prescaler fits 16 bits if and only if the timer clock reaches 1 MHz |
| TickBase.DriftExact | Core/Src/stm32l4xx_hal_timebase_tim.c:57-82 | after k ticks the count is ahead of the time by exactly k times the clock's remainder below a whole megahertz over the clock |
| TickBase.NoDriftExactly | Core/Src/stm32l4xx_hal_timebase_tim.c:57-82 | there is no drift if and only if the clock is a whole number of megahertz |
| TickBase.TickBounds | Core/Src/stm32l4xx_hal_timebase_tim.c:57-82 | with settings that divide the clock by its q whole megahertz, k ticks take more than k*q/(q+1) and at most k milliseconds |
| TickBase.DriftUnbounded | Core/Src/stm32l4xx_hal_timebase_tim.c:57-82 | where there is drift it exceeds every bound |

## Left out

- HAL peripheral setup, MSP initialisation, interrupt trampolines, syscall stubs and the C++ allocation wrappers: forwarding with nothing to prove.
- FreeRTOS, lwIP and the Modbus server: the mutex is an owner and a wait that may fail (or, to show what it is for, that excludes nobody), the network stack is a log of what it is handed.
- The transceiver driver (Libraries/noOS/src/drivers/adin1110.c:489-627) beyond the bytes it copies: register values, the bytes that address a register, the padding of short frames on the wire and how the transmit space is computed. Any register access may overwrite the whole buffer in the model, and any access may fail.
- Frames have 14 to 1526 bytes when sent and up to 1522 when received: longer ones do not fit the driver's buffer, which the source does not check.
- Frames.EthernetInterface.Poll: requires an initialised interface, since the source dereferences the descriptor without testing it.
- Chained packet buffers: the source sends the first buffer of a chain, and the model has only that one.
- A packet buffer that the stack rejects counts as handed over; its ownership after that is not modelled.
- FifoSafety.SentOnce: orders the frames of one task only; between tasks the mutex decides, and the model lets any waiting task have it.
- In the protocol model a frame leaves the receive FIFO when its transfer begins, and one whose transfer fails is lost.
- Sources in the startup tables are read from the same word-addressed memory; the tables themselves lie outside it and are not overwritten.
- Startup.CmsisStart: does not include the final jump to `_start`.
- Instructions: the instruction forms of reversal and count, the IAR rotation by zero (an undefined shift) and the saturations, whose laws are case analysis.
- MainlineNvic.ByteNvic.WriteAircr: models only the key and the stored low half; reset and fault-clearing requests written to that register act as plain bits.
- NvicBanks.IrqBanks.SetPendingIRQ: covers software writes only; hardware does not set pending bits in the model.
- Data and instruction barriers, the active bits and the vector table: no effect on the state modelled here.
- Secure and non-secure register aliases, and the near-identical headers for other cores and compilers: they repeat the same code.
- SystemClock.Clock.SystemCoreClockUpdate: requires a defined range code, since the source indexes past its table for codes 12 to 15.
- Sbrk.BreakIsSum: assumes that no request takes back more than was granted, which the source does not check.
- `SystemInit`, `HAL_SuspendTick` and `HAL_ResumeTick`: single register writes.
