# Verified models of the mqnic rings, AXI and 10GBASE-R models and flash tools

This project models four parts of the repository and proves what each is for. Code that the
repository writes with loops and mutable state is written here as classes and methods with
loops; each is proved against a specification, and the theorems are about the specification.
`dafny verify dfyconfig.toml` checks everything.

## What is modelled

**Descriptor and completion rings** (`modules/mqnic`). `DescriptorRing` is a machine over
unbounded counters for what transmit and receive rings share: posting, the NIC's consumption
and out-of-order completion, and the handler's progress through completions, the tail and the
lazy clean scan. `TxProtocol` adds `start_xmit` and the stop/wake handshake, each read and
write of shared state being a step of its own; `RxProtocol` adds refill. Their theorems hold
for every run of any length and interleaving. `DriverRing`, `TxQueue` and `RxQueue` are the
driver's own state: u32 pointers, 16-bit registers, slots and completion entries, with a ghost
machine that every method keeps in step, so that every legal run is one of theirs too (`Play`).
`RxRegisters` is the receive machine as it is seen through 16-bit registers, and decides for
which ring sizes they suffice. `Modular` has the wrap-around arithmetic.

**AXI masters and RAM** (`fpga/lib/axi/tb/axi.py`). `AxiTransfer` is how a byte range falls into
beats and bursts, and `AxiIssue` what is seen of them, told from the command; `AxiRam` is the RAM
that executes bursts, `AxiBeats` where the beats of each kind of burst go, `AxiMemory` flat memory.
`AxiWrite` and `AxiRead` are the two sides of the master; their last methods run the master against
the RAM and are proved equal to flat writes and reads, for reads under every arrival order that
keeps each identifier's own order. `Bits` has shifts, ors and packed bytes over unbounded integers.

**10GBASE-R link** (`fpga/lib/eth/tb/baser_serdes_ep.py`). `Scrambler` is the scrambler on bit
streams, `ScrambledWord` the loops over 64-bit words with a 58-bit state. `BlockCode` is encoder
and decoder as functions with the exact set of columns that survive, `BlockFormat` the format on
the wire, value by value and bit by bit, `BlockCoder` the loops and branches that compute them,
`Words` the packed fields. `BaseRLink` is source and sink clock by clock, `BaseRFrames` a frame as
it is seen on the line, `BaseRGaps` the gaps between frames as they are seen there and as the source
counts them, `BaseRStarts` when and in which lane frames start, and `BaseRSerdes` the two classes,
which exchange scrambled and bit-reversed words.

**Times and flash** (`utils`). `Timespec` and `TdmaSchedule` are two-limb time arithmetic with
64-bit range checks throughout (`Long` is a subset type, so no step overflows), and the start of
a TDMA schedule. `FlashMemory`, `FlashSpi` and `FlashBpi` are NOR flash and the two drivers, with
the masks of their alignment tests in `Masks`; `FirmwareUpdate` is erase, write and verify of a
segment in chunks; `PartName` is the search that compares part names.

`Numbers` and `Wrappers` hold what several modules share.

## Where the code falls short of what is asked of it

- `baser_serdes_ep.py` puts the control codes of an ordered set alone in lane 0 at bit 40, while
  its own table of blocks has them from bit 36 on, and its decoder returns a sequence ordered set
  for the signal code (lines 68, 271, 554-555). `BlockCode.RoundTrip` says exactly which
  columns survive; `BlockCode.LowOrderedCase` says what the others become.
- The same source turns a frame shorter than 8 bytes (4 when started in lane 4) into one
  all-control block, so it never arrives. `BaseRLink.FramesDelivered` says exactly which.
- Its deficit counting takes the nominal gap to be at least 8 lanes, though any may be set: below
  that, gaps grow beyond it without compensation. `BaseRGaps.GapsAddUpWhen` says exactly when.
- `timespec_mod` stops shifting when the divisor is about to overflow and then subtracts too
  little. `Timespec.Mod` gives the exact condition and the value returned beyond it.
- A full test in the handler followed by a wake is not atomic, so a ring of any size can hold one
  packet more than full_size (`TxProtocol.ThresholdExceeded`). It never does unless a wake finds
  the queue stopped and full again (`ThresholdKept`), and every such wake can lead there
  (`LateWakeExceeds`). Safety is unaffected.
- A transmit ring of one slot has a full_size of 0: it sends one packet and stops for good
  (`TxProtocol.SingleSlotSendsOnce`).
- The 16-bit pointer exchange cannot tell a fully consumed ring of 2^16 from an untouched one.
  Transmit rings never come that far. A receive ring of 2^16, which the driver would allocate,
  never receives anything if its first fill gets every page (`RxRegisters.FullRingStarves`), and
  can jam for good if it falls short (`LargestRingJams`); up to 2^15 slots, and only so far, the
  registers suffice (`RegistersSufficeWhen`).
- The flash code tests alignment by masks, which test it exactly for powers of two
  (`Masks.MaskIsRemainderWhen`); with blocks of another size a parallel flash could not even be
  erased from the end of its first block on (`Masks.MaskOfItself`).

## Assumptions

Ring steps are sequentially consistent, with one `start_xmit` per queue and one handler per
completion queue at a time. The NIC consumes only posted descriptors, in order, and completes each
consumed one once, in any order. A run starts from activation. The memory of the AXI RAM is a whole
number of bus words. The flash devices are those of `FlashSpi.SpiDevice` and `FlashBpi.BpiDevice`:
erasing gives 0xFF, programming can only clear bits, a page program wraps inside its page. A
parallel device may report a failure unless it is `reliable`, and may leave a block or buffer in any
state although it reports success unless it is `faithful`; blocks and buffers other than the one
addressed do not change. Its block and buffer sizes are powers of two.

## Main results

The first 39 rows of the table are the main results; the others are what they are built from and
what each method of the source does, in the order of the files.

| what it is about | members |
|---|---|
| a transmit ring never overwrites, loses or frees twice a packet, nor sleeps with room, in any interleaving | `TxProtocol.SlotSafety`, `ConsumedExactlyOnce`, `PacketsConserved`, `StoppedAtRestIsFull` |
| how full it gets | `TxProtocol.PointersOrdered`, `ThresholdKept`, `ThresholdExceeded` |
| receive pages are conserved, and for which ring sizes registers suffice | `RxProtocol.PagesConserved`, `AllocationsAccounted`, `NoErrorBranch`, `RxRegisters.RegistersSufficeWhen`, `FullRingStarves`, `LargestRingJams` |
| the driver's own u32 and 16-bit state follows every such run | `TxQueue.Queue.Play`, `RxQueue.Queue.Play` |
| AXI masters against the RAM are flat memory | `AxiWrite.WriteThrough`, `AxiRead.ReadThrough` |
| with the bursts asked for, of every kind | `AxiIssue.CommandIssued`, `AxiBeats.BurstWrites` |
| frames cross the 10GBASE-R link, also to a sink that joins late | `BaseRSerdes.Drain`, `Join`, `BaseRLink.EverythingArrives`, `BlockCode.RoundTrip`, `Scrambler.SelfSynchronises` |
| in blocks of the standard's format | `BlockFormat.EncodedAs`, `DecodedAs` |
| with gaps that are long enough and right on average | `BaseRGaps.EveryGapLongEnough`, `GapsAddUpWhen`, `BaseRStarts.StartAfterIdle` |
| modulo of times | `Timespec.Mod`, `TdmaSchedule.AlignStart` |
| a verified update is in the flash | `FirmwareUpdate.Program`, `FlashSpi.SpiFlash.Write`, `Erase`, `FlashBpi.BpiFlash.Erase` |

## Model

| member | source | states |
|---|---|---|
| `TxProtocol.SlotSafety` | modules/mqnic/mqnic_tx.c:465-517 | In every reachable state a filled slot belongs to the packet in flight that the window [clean_tail, head) puts there, or to the packet just being mapped; whenever `start_xmit` may be called the slot at head is NULL, so no skb in flight is ever overwritten. |
| `TxProtocol.ConsumedExactlyOnce` | modules/mqnic/mqnic_tx.c:289-314 | Every accepted packet is freed by at most one completion, with its own skb; it has been freed if and only if its slot in the window no longer holds it, so none is lost and none is freed twice. |
| `TxProtocol.PacketsConserved` | modules/mqnic/mqnic_tx.c:437-559 | In every run the packets that `start_xmit` was called with are those posted, those dropped and the one being posted, each once. |
| `TxProtocol.StoppedAtRestIsFull` | modules/mqnic/mqnic_tx.c:333-341 | No lost wake-up: if the queue is stopped below full_size then `start_xmit` is still before its second full test or its wake, or the handler is between publishing clean_tail and the end of its wake test; a queue stopped with both at rest is full and its doorbell has been rung. |
| `TxProtocol.PointersOrdered` | modules/mqnic/mqnic_tx.c:204-217 | In every state that any interleaving of `start_xmit`, the completion handler and the NIC reaches from an empty ring of any number of slots: clean_tail <= tail <= NIC tail <= doorbell <= head <= clean_tail + full_size + 1 <= clean_tail + size. |
| `TxProtocol.ThresholdKept` | modules/mqnic/mqnic_tx.c:204-207 | Occupancy stays at most full_size, in a ring of two slots or more, after every run in which no wake of the handler comes late, that is, finds the queue stopped and full again; between packets a running queue is even below it. |
| `TxProtocol.ThresholdExceeded` | modules/mqnic/mqnic_tx.c:340-341 | The full test and the wake of line 340-341 are not atomic: for every ring size there is a legal run that reaches full_size + 1. |
| `TxProtocol.CompletionQueueNeverOverflows` | modules/mqnic/mqnic_cq.c:166-179 | In every reachable state the unread completions number between 0 and full_size + 1, so the completion queue, of the same size as the ring, cannot overflow. |
| `TxQueue.Queue.Play` | modules/mqnic/mqnic_tx.c:259-559 | Every legal run of the protocol, with `start_xmit`, handler and NIC interleaved at will, is one that the queue of u32 pointers, 16-bit registers and slots goes through, step for step. |
| `RxProtocol.NoErrorBranch` | modules/mqnic/mqnic_rx.c:259-263 | In every reachable state neither error branch has been taken: refill never finds a page still in its slot, and no completion names a slot without a page (lines 350-356). |
| `RxProtocol.PagesConserved` | modules/mqnic/mqnic_rx.c:344-409 | Every page allocated was posted or given back after a mapping error, exactly once; every posted page is in its slot of the window if and only if it was not handed to the stack, and it is handed over at most once, as itself. |
| `RxProtocol.AllocationsAccounted` | modules/mqnic/mqnic_rx.c:250-312 | In every run, by the order of the allocations: the pages that could be mapped are exactly those posted, those that could not exactly those given back, and no page allocated is missing from the log of them. |
| `RxQueue.Queue.Play` | modules/mqnic/mqnic_rx.c:250-435 | Every legal run of the protocol, handler and NIC interleaved at will, is one that the queue of u32 pointers, 16-bit registers and slots goes through, step for step. |
| `RxRegisters.RegistersSufficeWhen` | modules/mqnic/mqnic_rx.c:209-217 | For every ring size that divides 2^16: a queue that sees the NIC only through 16-bit registers, and is seen so by it, goes through the same states as one with unbounded counters, in every run, if and only if the ring has at most 2^15 slots. |
| `RxRegisters.TailAlwaysShown` | modules/mqnic/mqnic_rx.c:209-212 | For every ring size that divides 2^16: the NIC tail is read right from its 16-bit register in every state of every run if and only if the ring has at most 2^15 slots. |
| `RxRegisters.LargestRingJams` | modules/mqnic/mqnic_rx.c:411-429 | A ring of 2^16 whose first fill falls short can come to a state in which the NIC has consumed every page, and from which, whatever happens, clean_tail never moves and no page is ever posted again. |
| `RxRegisters.FullRingStarves` | modules/mqnic/mqnic_rx.c:296-312 | A ring of 2^16 whose first fill gets every page never receives anything: the head register reads as before, and in every continuation the NIC consumes nothing, completes nothing and no page is posted. |
| `AxiWrite.WriteThrough` | fpga/lib/axi/tb/axi.py:255-322 | Any queue of increasing writes of allowed size, run through splitter and RAM: no assertion of the RAM fails, the memory ends exactly as after flat writes in order (every byte at addr + i, nothing else), no beat is left over, and each burst is answered once. |
| `AxiRead.ReadThrough` | fpga/lib/axi/tb/axi.py:425-541 | Any queue of increasing reads, with identifiers reused, through splitter, RAM, an interconnect that reorders different identifiers at will, and reassembly: the last-beat assertion never fails and each result is exactly the memory range asked for, in order. |
| `AxiIssue.CommandIssued` | fpga/lib/axi/tb/axi.py:256-311 | The bursts of the partition, told from address, length, size and kind of the command: of the size given or of whole bus words, consecutive, none longer than the limit or across a page, none shorter than it must be, from the aligned address to just past the last byte. |
| `AxiBeats.BurstWrites` | fpga/lib/axi/tb/axi.py:717-774 | What the RAM makes of a fixed, increasing or wrapping burst: it is accepted if and only if its last beat, and no other, is marked so; then beat n has gone to the word of the address of that number: always the first, the first plus n sizes, or that taken around the block that is as long as the burst. |
| `BlockCode.RoundTrip` | fpga/lib/eth/tb/baser_serdes_ep.py:191-325 | decode(encode(column)) == column if and only if the column has a block of its own: data, START_0, START_4, OS_START, OS_4, OS_04, TERM_0..7 and all-control with mapped codes, and of the lone ordered sets in lane 0 only a sequence before four errors. |
| `BaseRLink.EverythingArrives` | fpga/lib/eth/tb/baser_serdes_ep.py:145-336 | After any run, and with whatever offsets forced from then on, finitely many clocks bring the source to idle, and then the sink has received every frame ever sent but those too short to start; all of them if all have 8 bytes. |
| `BaseRSerdes.Drain` | fpga/lib/eth/tb/baser_serdes_ep.py:143-675 | The real source and sink in step, clocked until the source is idle, with or without scrambling and bit reversal: every frame queued has been started exactly once, in order, and the sink holds, behind what it had earlier, exactly what was delivered. |
| `BaseRSerdes.Join` | fpga/lib/eth/tb/baser_serdes_ep.py:413-675 | A sink that joins with any scrambler state, inside or outside a frame: two clocks of an idle line leave it in step and with at most two frames of its own making, and from then on it receives exactly the frames sent that are long enough to start, in order. |
| `BaseRGaps.EveryGapLongEnough` | fpga/lib/eth/tb/baser_serdes_ep.py:149-184 | In every run, whatever the configuration and whichever offsets are forced, every gap seen on the line (the lanes from a terminate up to the next start in the columns emitted) is at least ifg - 3 with deficit idles and at least ifg without. The source's own books of the gaps agree with the line. |
| `BaseRGaps.GapsAddUpWhen` | fpga/lib/eth/tb/baser_serdes_ep.py:149-184 | For every ifg, deficit idles on: the gaps of frames sent back to back add up to the nominal ones within 3 lanes in every run without forced offsets if and only if ifg is at least 8 (the deficit idle count of section 46.3.1.4 of IEEE 802.3). |
| `BaseRStarts.StartAfterIdle` | fpga/lib/eth/tb/baser_serdes_ep.py:334-336 | In every run, read off the decoded columns: a frame started after a clock at which the source was idle starts in lane 0 unless an offset is forced, whatever gap came before; its deficit is 0, and nothing is owed to the run of back-to-back gaps that begins with it. |
| `BlockFormat.EncodedAs` | fpga/lib/eth/tb/baser_serdes_ep.py:60-325 | For every column: header, block type, bytes, 7-bit control codes, nibbles of ordered sets and unused bits of its block stand as in the table of section 49.2.4 of IEEE 802.3, each written out by value and bit position; but for the ordered set alone in lane 0, whose codes stand at bit 40. |
| `BlockFormat.DecodedAs` | fpga/lib/eth/tb/baser_serdes_ep.py:435-637 | For every block, also of an unknown header or type: the eight characters read from it are those of the same table, each written out by value and bit position; but an ordered set alone in lane 0 is read as a sequence for either nibble. |
| `Scrambler.DescrambleScramble` | fpga/lib/eth/tb/baser_serdes_ep.py:338-347 | From equal states descrambling undoes scrambling, for streams of any length (sections 49.2.6 and 49.2.10 of IEEE 802.3). |
| `Scrambler.SelfSynchronises` | fpga/lib/eth/tb/baser_serdes_ep.py:424-431 | Whatever two states descramblers start from, their outputs for the same input agree from the 59th bit on. |
| `Timespec.Mod` | utils/timespec.c:104-192 | For all inputs of up to LONG_MAX seconds: the result is canonical and equals the floored modulo if and only if \|ts1\| is below twice the largest shift of \|ts2\| that the loop can reach, or equal to it with opposite signs; beyond that its exact wrong value is given; a zero divisor returns ts1. No step overflows 64 bits. |
| `TdmaSchedule.AlignStart` | utils/mqnic-config.c:219-246 | For every positive period, 64-bit start and clock time: a start not in the past is kept; one in the past is replaced by a canonical time congruent to it modulo the period and in the period, counted from 0, that holds now. That is exactly one value (OnlyStart). |
| `FirmwareUpdate.Program` | utils/mqnic-fw.c:1030-1079 | For a block-aligned segment and an image that fits: whenever the update reports success, even on a device that fails silently, the segment holds the image followed by 0xFF up to the rounded length and nothing else changed. Once erasing and writing have reported success it reports success if and only if that is so. On a device that does not fail it succeeds; an image too long changes nothing. |
| `FlashSpi.SpiFlash.Write` | utils/flash_spi.c:431-500 | On a device whose page program wraps and whose 3-byte addresses are truncated, every write below 2^32 sets each byte of its range to old AND new, and nothing else, also across 16 MiB. |
| `FlashSpi.SpiFlash.Erase` | utils/flash_spi.c:502-585 | Succeeds if and only if the length is zero or address and length are multiples of 4 KiB; the blocks erased are disjoint and tile the range, and exactly it reads 0xFF; a refused request erased exactly the whole subsectors before the refusal. A 4 KiB subsector is erased only where a 64 KiB sector is not aligned or does not fit in what is left. |
| `FlashBpi.BpiFlash.Erase` | utils/flash_bpi.c:611-662 | Over one or two regions with their own block sizes: nothing outside the range changes; on a device that does what it reports success means exactly the range was erased; on one that does not fail it succeeds if and only if start and end are block boundaries, and a refused request erased a known prefix. |
| `PartName.MatchesPart` | utils/mqnic-fw.c:824-832 | The test accepts exactly the part names that begin with the board's, character by character the same or the small and the capital form of one letter. |
| `TxProtocol.NeverConsumesNull` | modules/mqnic/mqnic_tx.c:219-238 | In every reachable state, every completion handled so far found a non-NULL skb in its slot. |
| `TxProtocol.LateWakeExceeds` | modules/mqnic/mqnic_tx.c:340-341 | Every late wake of the handler can take the ring past its threshold: from any reachable state in which one is due, some legal continuation reaches full_size + 1. |
| `TxProtocol.LateWakeReached` | modules/mqnic/mqnic_tx.c:339-341 | In every ring of two slots or more some legal run reaches a wake of the handler that finds the queue stopped and full again. |
| `TxProtocol.SingleSlotSendsOnce` | modules/mqnic/mqnic_tx.c:87-88 | A ring of one slot, whose full_size is 0, sends at most one packet and never another: in every run. |
| `TxProtocol.StepKeeps` | modules/mqnic/mqnic_tx.c:437-559 | Every atomic step of `start_xmit`, the completion handler and the NIC, from any state satisfying the invariant, leads to one satisfying it. |
| `TxProtocol.RunKeeps` | modules/mqnic/mqnic_tx.c:437-559 | Any sequence of events of `start_xmit`, the handler and the NIC keeps the invariant. |
| `TxProtocol.ReclaimKeeps` | modules/mqnic/mqnic_tx.c:316-334 | The handler's whole reclaim, seen as one step that reads the tail and publishes some later clean_tail, keeps the invariant. |
| `RxProtocol.PointersOrdered` | modules/mqnic/mqnic_rx.c:204-217 | In every reachable state clean_tail <= tail <= NIC tail <= doorbell <= head <= clean_tail + size. |
| `RxProtocol.OutsideWindowNoPage` | modules/mqnic/mqnic_rx.c:411-429 | In every reachable state a slot outside [clean_tail, head) holds no page. |
| `RxProtocol.QueuesBounded` | modules/mqnic/mqnic_rx.c:296-312 | Unread completions never exceed the ring size; whenever no refill is under way every posted page has been announced to the NIC. |
| `RxRegisters.StarvedForever` | modules/mqnic/mqnic_rx.c:209-217 | From every state in which the whole ring of 2^16 is posted and nothing consumed, every step through the registers leaves it so. |
| `RxRegisters.RegistersSuffice` | modules/mqnic/mqnic_rx.c:209-217 | In rings of fewer than 2^16 slots every run through 16-bit registers goes through the states of the run on unbounded counters. |
| `RxRegisters.StuckReached` | modules/mqnic/mqnic_rx.c:296-312 | A run of the ring of 2^16 that gets there: the first fill falls 8 short, the NIC takes 8 and, after the refill, the rest between two polls. |
| `RxRegisters.StuckForever` | modules/mqnic/mqnic_rx.c:209-212 | Once the NIC is a whole ring of 2^16 ahead of the driver, it is so in every continuation: its tail always reads as unmoved, and nothing is reclaimed or posted. |
| `RxRegisters.RecoveredInRegisters` | modules/mqnic/mqnic_rx.c:209-212 | The recovery on unbounded counters is the u32 and u16 arithmetic of the driver. |
| `RxProtocol.StepKeeps` | modules/mqnic/mqnic_rx.c:250-435 | Every atomic step of completion handling, reclaim, refill and the NIC keeps the invariant, in which both error counters are zero. |
| `RxProtocol.RunKeeps` | modules/mqnic/mqnic_rx.c:250-435 | Any sequence of events of the handler, of refill and of the NIC keeps the invariant and the ring size. |
| `DescriptorRing.StepKeeps` | modules/mqnic/mqnic_tx.c:259-344 | Both rings share one machine of counters, slots, completions and handler progress; each of its steps keeps the invariant tying slots to the window and completions to slots. |
| `DescriptorRing.NoOverwrite` | modules/mqnic/mqnic_tx.c:465-469 | With occupancy below the size, the slot at head is empty. |
| `DescriptorRing.OutsideWindowEmpty` | modules/mqnic/mqnic_tx.c:323-331 | A slot that belongs to no descriptor of [clean_tail, head) is empty. |
| `DescriptorRing.ReleasedOnceOrHeld` | modules/mqnic/mqnic_tx.c:289-310 | A posted descriptor has been handled if and only if its slot no longer holds its buffer; it is handled at most once and releases its own buffer. |
| `DescriptorRing.CompletionQueueFits` | modules/mqnic/mqnic_netdev.c:438-463 | Unread completions name distinct descriptors of the window, so they number at most NIC tail - clean_tail, at most the size both rings are allocated with. |
| `DescriptorRing.CompletionEntryFree` | modules/mqnic/mqnic_cq.c:166-179 | The entry the NIC writes a completion to is none of the unhandled ones, though the NIC has no back-pressure. |
| `DescriptorRing.DrainedIsEmpty` | modules/mqnic/mqnic_tx.c:323-334 | When every completion is handled and the scan stops, occupancy is zero. |
| `DescriptorRing.StillHeld` | modules/mqnic/mqnic_rx.c:418-432 | Refilling after a reclaim leaves clean_tail at the NIC's tail or at a slot still held. |
| `Modular.RecoverExact` | modules/mqnic/mqnic_tx.c:209-212 | Adding the 16-bit difference of register and stored pointer recovers the true 32-bit counter, after any number of wraps of either, if and only if the counter advanced by less than 2^16. |
| `Modular.RecoverAliases` | modules/mqnic/mqnic_rx.c:209-212 | The arithmetic behind the bound: a register that advanced by exactly 2^16 reads as no progress. |
| `Modular.Distance32` | modules/mqnic/mqnic_tx.c:204-207 | The u32 difference of two pointers is the difference of the counters behind them, whenever that is below 2^32. |
| `Modular.Equal32` | modules/mqnic/mqnic_tx.c:289-331 | Two u32 pointers less than 2^32 apart are equal if and only if their counters are, so loops guarded by `!=` stop exactly at the end. |
| `Modular.SlotOfTruncated` | modules/mqnic/mqnic_tx.c:465-465 | The slot index of a truncated pointer or of a 16-bit completion index is that of the counter, for every ring size. |
| `Modular.RoundUpPowerOfTwo` | modules/mqnic/mqnic_tx.c:87-90 | The size allocated is at least the entries asked for and less than twice as many. |
| `Modular.RoundUpIsPower` | modules/mqnic/mqnic_tx.c:87-90 | The size allocated is a power of two, and no larger than any power of two that already suffices. |
| `Modular.RoundUpIsRingSize` | modules/mqnic/mqnic_rx.c:86-89 | Up to 2^16 entries give a ring size dividing 2^16, and up to 2^15 entries one of at most 2^15. |
| `DriverRing.Ring.constructor` | modules/mqnic/mqnic_tx.c:80-125 | A ring for 1..2^16 entries starts as the empty machine of the rounded-up size, before a poll or, for a receive ring, before its first fill. |
| `DriverRing.Ring.Occupied` | modules/mqnic/mqnic_tx.c:204-207 | head_ptr - clean_tail_ptr in u32 is the number of descriptors in the window. |
| `DriverRing.Ring.SlotAtHead` | modules/mqnic/mqnic_rx.c:250-263 | Indexing the slots with the masked head pointer reads the slot of the next descriptor. |
| `DriverRing.Ring.Fill` | modules/mqnic/mqnic_tx.c:368-435 | Storing a buffer at the masked head pointer is the map step of the machine; every other slot is unchanged. |
| `DriverRing.Ring.Unfill` | modules/mqnic/mqnic_tx.c:416-435 | Clearing the slot after a mapping failure is the unmap step. |
| `DriverRing.Ring.AdvanceHead` | modules/mqnic/mqnic_tx.c:517-517 | Incrementing the u32 head, wrap included, is the push step of the unbounded machine. |
| `DriverRing.Ring.WriteHeadPtr` | modules/mqnic/mqnic_tx.c:214-217 | Writing the masked head to the register is the doorbell step. |
| `DriverRing.Ring.HasWork` | modules/mqnic/mqnic_tx.c:214-217 | What the NIC concludes from its 16-bit registers, that a descriptor is posted, is true of the unbounded counters exactly when it is concluded. |
| `DriverRing.Ring.Consume` | modules/mqnic/mqnic_tx.c:209-212 | The NIC advancing its 16-bit tail is the consume step. |
| `DriverRing.Ring.Complete` | modules/mqnic/mqnic_cq.c:166-179 | The NIC writing a 16-bit index to the entry at its head is the completion step; no unread entry is overwritten. |
| `DriverRing.Ring.ReadCqHead` | modules/mqnic/mqnic_cq.c:171-174 | Recovering the completion head from the register yields the true number of completions written. |
| `DriverRing.Ring.MoreCompletions` | modules/mqnic/mqnic_tx.c:289-289 | The `!=` guard holds exactly while completions up to the head read are left. |
| `DriverRing.Ring.CompletedSlot` | modules/mqnic/mqnic_tx.c:290-292 | The slot computed from the completion's 16-bit index is that of the descriptor completed, and holds its buffer. |
| `DriverRing.Ring.TakeCompleted` | modules/mqnic/mqnic_tx.c:289-310 | Handling one completion yields the very buffer posted with the descriptor and is the handle step. |
| `DriverRing.Ring.PublishCqTail` | modules/mqnic/mqnic_cq.c:176-179 | Storing and writing the completion tail is the publish step. |
| `DriverRing.Ring.ReadTail` | modules/mqnic/mqnic_tx.c:209-212 | Recovering the NIC's tail from the register yields the true number consumed. |
| `DriverRing.Ring.ScanContinues` | modules/mqnic/mqnic_tx.c:323-327 | The scan goes on exactly when the clean pointer is below the tail and its slot is NULL. |
| `DriverRing.Ring.ScanOne` | modules/mqnic/mqnic_tx.c:329-330 | One iteration of the scan is the scan step. |
| `DriverRing.Ring.PublishClean` | modules/mqnic/mqnic_tx.c:333-334 | Storing the local clean pointer is the clean step. |
| `DriverRing.Ring.ReclaimSlots` | modules/mqnic/mqnic_tx.c:316-334 | The whole reclaim terminates, changes tail and clean_tail only, and leaves clean_tail at the NIC's tail or at the first slot still held; a drained ring ends empty. |
| `TxQueue.Queue.constructor` | modules/mqnic/mqnic_tx.c:80-125 | The queue for 1..2^16 entries starts in the protocol's initial state, at the rounded-up size. |
| `TxQueue.Queue.IsFull` | modules/mqnic/mqnic_tx.c:204-207 | The u32 full test decides whether occupancy has reached full_size. |
| `TxQueue.Queue.StartXmit` | modules/mqnic/mqnic_tx.c:437-559 | From any valid state with the queue running, without interference: a dropped packet changes nothing but the drop log; a sent one fills the slot at head, becomes the last posted, rings the doorbell if no more follow or the ring is full, and leaves the queue stopped exactly when it is full. |
| `TxQueue.Queue.Enqueue` | modules/mqnic/mqnic_tx.c:507-517 | Map and advance: on success the buffer is in the slot at head and is the last posted; on a mapping failure the ring is as before and the packet is logged as dropped. |
| `TxQueue.Queue.Announce` | modules/mqnic/mqnic_tx.c:521-550 | Full test, stop, doorbell and second full test: the queue ends stopped if and only if the ring is full, and the doorbell is at head unless more packets follow and there is room. |
| `TxQueue.Queue.ProcessTxCq` | modules/mqnic/mqnic_tx.c:259-344 | One poll without interference handles the lesser of the budget and the completions present, moves clean_tail to the NIC's tail or the first held slot, and ends with the queue stopped if and only if it was and is still full; if everything posted was completed and the budget suffices, the ring is empty and, full_size being above 0, the queue runs. |
| `TxQueue.Queue.HandleCompletions` | modules/mqnic/mqnic_tx.c:282-314 | The loop terminates after the lesser of budget and completions present and publishes a tail that many further. |
| `TxQueue.Queue.ReclaimSlots` | modules/mqnic/mqnic_tx.c:316-334 | Only tail and clean_tail change; clean_tail ends at the NIC's tail or the first held slot. |
| `TxQueue.Queue.WakeIfRoom` | modules/mqnic/mqnic_tx.c:339-341 | A stopped queue is woken exactly when it is no longer full; nothing else changes. |
| `TxQueue.Queue.Reject` | modules/mqnic/mqnic_tx.c:449-456 | A packet refused before mapping only enters the drop log. |
| `TxQueue.Queue.MapSkb` | modules/mqnic/mqnic_tx.c:507-510 | Mapping a packet is the map step of the protocol and allowed whenever the queue runs. |
| `TxQueue.Queue.UnmapSkb` | modules/mqnic/mqnic_tx.c:416-435 | Undoing a failed mapping is the protocol's map-failed step. |
| `TxQueue.Queue.AdvanceHead` | modules/mqnic/mqnic_tx.c:516-517 | Advancing head is the push step, and cannot overrun the 16-bit register. |
| `TxQueue.Queue.TestFull` | modules/mqnic/mqnic_tx.c:521-522 | The first full test is the protocol's, on the true occupancy. |
| `TxQueue.Queue.StopQueue` | modules/mqnic/mqnic_tx.c:525-525 | Stopping the queue is the stop step of the protocol. |
| `TxQueue.Queue.RingDoorbell` | modules/mqnic/mqnic_tx.c:534-540 | The doorbell is rung exactly when no more packets follow or the queue was stopped. |
| `TxQueue.Queue.RecheckFull` | modules/mqnic/mqnic_tx.c:543-548 | The second full test is the protocol's, on the occupancy at that moment. |
| `TxQueue.Queue.WakeFromXmit` | modules/mqnic/mqnic_tx.c:549-549 | Waking after the second test is the wake step of `start_xmit`. |
| `TxQueue.Queue.ReadCqHead` | modules/mqnic/mqnic_tx.c:284-287 | Starting a poll is the handler's first step. |
| `TxQueue.Queue.FreeDescriptor` | modules/mqnic/mqnic_tx.c:289-310 | Handling a completion returns the buffer posted with that descriptor, never NULL. |
| `TxQueue.Queue.PublishCqTail` | modules/mqnic/mqnic_tx.c:312-314 | Publishing the completion tail is the handler's step, allowed once the loop has ended. |
| `TxQueue.Queue.ReadTail` | modules/mqnic/mqnic_tx.c:316-318 | Reading the NIC's tail is the handler's step. |
| `TxQueue.Queue.Scan` | modules/mqnic/mqnic_tx.c:323-334 | One turn of the scan either advances over an empty slot or publishes clean_tail, as the protocol allows. |
| `TxQueue.Queue.TestStopped` | modules/mqnic/mqnic_tx.c:340-340 | The first half of the wake test reads whether the queue is stopped. |
| `TxQueue.Queue.TestRoom` | modules/mqnic/mqnic_tx.c:340-340 | The second half is the full test on the occupancy at that moment, possibly stale by the wake. |
| `TxQueue.Queue.WakeFromPoll` | modules/mqnic/mqnic_tx.c:341-341 | Waking the queue from the handler is the wake step of the protocol, whatever has happened since the full test. |
| `TxQueue.Queue.NicConsume` | modules/mqnic/mqnic_tx.c:209-217 | The NIC may consume while its registers show work, and that is the protocol's step. |
| `TxQueue.Queue.NicComplete` | modules/mqnic/mqnic_cq.c:166-179 | The NIC may complete any consumed descriptor not yet completed, and that is the protocol's step. |
| `RxQueue.Queue.constructor` | modules/mqnic/mqnic_rx.c:79-123 | The queue for 1..2^15 entries starts in the protocol's initial state. |
| `RxQueue.Queue.ProcessRxCq` | modules/mqnic/mqnic_rx.c:314-435 | One poll without interference handles the least of budget, completions present and skbs available, moves clean_tail to the NIC's tail or a slot still held, posts the pages allocated in order, all of them announced, and leaves 8 or more slots unfilled only when an allocation fails. |
| `RxQueue.Queue.HandleCompletions` | modules/mqnic/mqnic_rx.c:335-409 | The loop terminates after the least of budget, completions present and skbs available, publishes a tail that many further, and touches nothing on the posting side. |
| `RxQueue.Queue.RefillBuffers` | modules/mqnic/mqnic_rx.c:296-312 | With fewer than 8 slots missing nothing is posted; otherwise pages are posted until none is missing or an allocation fails, in order, each in its slot, and all are announced. |
| `RxQueue.Queue.HandOff` | modules/mqnic/mqnic_rx.c:344-405 | With an skb, the page handed over is the one posted with the completed descriptor; without one, nothing changes and the loop ends. |
| `RxQueue.Queue.PrepareDesc` | modules/mqnic/mqnic_rx.c:250-294 | The slot at head is always empty, so the only failures are allocation and mapping; a page that fails to map is given back, and a good one is posted at head. |
| `RxQueue.Queue.ReclaimSlots` | modules/mqnic/mqnic_rx.c:411-429 | Only tail and clean_tail change; clean_tail ends at the NIC's tail or the first slot holding a page. |
| `RxQueue.Queue.BeginRefill` | modules/mqnic/mqnic_rx.c:298-301 | The u32 arithmetic yields exactly size minus occupancy, and refill starts only from 8. |
| `RxQueue.Queue.Announce` | modules/mqnic/mqnic_rx.c:309-311 | The doorbell moves to head, and the poll and the refill end. |
| `RxQueue.Queue.ReadCqHead` | modules/mqnic/mqnic_rx.c:337-340 | Starting a poll is the handler's first step. |
| `RxQueue.Queue.PublishCqTail` | modules/mqnic/mqnic_rx.c:407-409 | Publishing the completion tail is the handler's step, allowed once the loop has ended. |
| `RxQueue.Queue.NicConsume` | modules/mqnic/mqnic_rx.c:209-217 | The NIC may consume while its registers show work, and that is the protocol's step. |
| `RxQueue.Queue.NicComplete` | modules/mqnic/mqnic_cq.c:166-179 | The NIC may complete any consumed descriptor not yet completed, and that is the protocol's step. |
| `AxiWrite.WriteRefines` | fpga/lib/axi/tb/axi.py:255-322 | For every address, data, bus width, legal size and burst limit, the RAM executing the bursts and strobed beats of one increasing write accepts them all and leaves the flat write. |
| `AxiWrite.CommandRefines` | fpga/lib/axi/tb/axi.py:255-322 | Appending one command's bursts and beats to queues already carried out extends the flat memory by that command's flat write. |
| `AxiWrite.BurstsRefine` | fpga/lib/axi/tb/axi.py:255-322 | From any beat on, the remaining bursts and beats write exactly the bytes not yet reached. |
| `AxiWrite.BurstRunRefines` | fpga/lib/axi/tb/axi.py:740-774 | The RAM's loop over one burst, from any beat of it, writes exactly the bytes of the beats left, with `last` as the RAM asserts. |
| `AxiWrite.BeatWrites` | fpga/lib/axi/tb/axi.py:286-299 | One strobed word write of a beat equals the flat write of the bytes that beat covers. |
| `AxiWrite.StrobeBits` | fpga/lib/axi/tb/axi.py:294-294 | The strobe's shifted and masked expression has bit i set if and only if start <= i < stop. |
| `AxiWrite.PackedWrites` | fpga/lib/axi/tb/axi.py:748-758 | A strobed word in a RAM of whole words, at any address that may wrap, is the flat write of its bytes. |
| `AxiWrite.BeatsMatchBursts` | fpga/lib/axi/tb/axi.py:301-316 | As many beats are queued as the bursts announce. |
| `AxiWrite.Master.constructor` | fpga/lib/axi/tb/axi.py:86-121 | The master starts with empty queues, identifier 0 and a burst limit of 256. |
| `AxiWrite.Master.PackLanes` | fpga/lib/axi/tb/axi.py:296-299 | The loop of shifts and ors packs exactly the bytes from offset on into lanes start .. stop. |
| `AxiWrite.Master.MakeBeat` | fpga/lib/axi/tb/axi.py:286-299 | Value and strobe are those of the beat that covers its part of the range, and offset ends where the next beat begins. |
| `AxiWrite.Master.StartBurst` | fpga/lib/axi/tb/axi.py:301-311 | The burst announced has the length and identifier the partition gives it, and the identifier advances modulo their number. |
| `AxiWrite.Master.QueueBeat` | fpga/lib/axi/tb/axi.py:315-316 | The beat queued is the next of its burst, marked last exactly when it completes it. |
| `AxiWrite.Master.QueueNext` | fpga/lib/axi/tb/axi.py:285-320 | One iteration of the loop keeps bursts and beats queued a prefix of those of the partition. |
| `AxiWrite.Master.QueueBeats` | fpga/lib/axi/tb/axi.py:285-320 | The loop queues exactly the bursts and beats of the partition, and counts the bursts. |
| `AxiWrite.Master.QueueTransfer` | fpga/lib/axi/tb/axi.py:266-323 | One command's bursts, beats and expected number of answers are queued. |
| `AxiWrite.Master.WriteLogic` | fpga/lib/axi/tb/axi.py:249-323 | A command is popped; it is refused exactly when it gives a size that exceeds the bus, and otherwise its bursts and beats are queued. Told from the command alone: a burst has the size given, or that of whole bus words; it is as long as limit and page let it; the bursts follow one another from the aligned address to the end of the range, with identifiers counting up. Without a size every beat but the first and last has all lanes of a bus word, and an aligned write has as many beats as it touches bus words. |
| `AxiWrite.DefaultBeats` | fpga/lib/axi/tb/axi.py:258-284 | A write in whole bus words: all lanes are strobed in every beat but the first and the last, and if the address is a multiple of the bus width there are as many beats as the data, rounded up, fills words. |
| `AxiRead.CollectAll` | fpga/lib/axi/tb/axi.py:473-541 | For every arrival order that keeps issue order within each identifier, reassembly returns the flat reads of all commands in order. |
| `AxiRead.CollectNext` | fpga/lib/axi/tb/axi.py:473-541 | One reassembly from the beats arrived and still to arrive returns the first outstanding flat read and leaves the rest in the same state. |
| `AxiRead.IssueAll` | fpga/lib/axi/tb/axi.py:414-471 | Issuing every command queues exactly the bursts and the lists of parts of all of them. |
| `AxiRead.AllAccepted` | fpga/lib/axi/tb/axi.py:849-857 | The RAM accepts every burst the master issues. |
| `AxiRead.Reader.ReadLogic` | fpga/lib/axi/tb/axi.py:425-471 | A command is popped; it is refused exactly when it gives a size that exceeds the bus, and otherwise its bursts, its list of parts and the next identifier are those of the partition. Told from the command alone: a burst has the size given, or that of whole bus words; it is as long as limit and page let it; the bursts follow one another from the aligned address to the end of the range, with identifiers counting up. |
| `AxiRead.Reader.QueueBursts` | fpga/lib/axi/tb/axi.py:446-471 | The loop, with its own counting of beats, queues exactly the bursts of the partition and lists them. |
| `AxiRead.Reader.ReadRespLogic` | fpga/lib/axi/tb/axi.py:479-541 | The result appended is the flat read of the command, with response 0, and the assertion on `last` holds throughout. |
| `AxiRead.Reader.TakeParts` | fpga/lib/axi/tb/axi.py:497-534 | All parts gathered and cut to length are the flat read; the beats of later commands are untouched. |
| `AxiRead.Reader.TakePart` | fpga/lib/axi/tb/axi.py:506-532 | The beats of one burst extend the gathered bytes by what they cover. |
| `AxiRead.Reader.TakeBeat` | fpga/lib/axi/tb/axi.py:510-532 | A beat popped by identifier is the one expected, its `last` is as asserted, and its lanes continue the gathered range. |
| `AxiRead.Reader.Pop` | fpga/lib/axi/tb/axi.py:509-514 | Waiting for an identifier's queue and popping it yields the next expected beat, in whatever order beats arrive. |
| `AxiRead.Reader.Deliver` | fpga/lib/axi/tb/axi.py:580-594 | Sorting an arriving beat into its identifier's queue keeps queued and still arriving beats in each identifier's issue order. |
| `AxiRead.Reader.TakeLanes` | fpga/lib/axi/tb/axi.py:519-528 | The loop appends exactly the lanes start .. stop of the word. |
| `AxiRead.Interleave` | fpga/lib/axi/tb/axi.py:580-594 | Any number of exchanges of neighbouring beats with different identifiers keeps every identifier's order (section A5.3 of ARM IHI 0022E). |
| `AxiRead.GatheredAll` | fpga/lib/axi/tb/axi.py:534-534 | After the last beat the bytes cover the length, and cutting them to it leaves the flat read. |
| `AxiTransfer.BeatRange` | fpga/lib/axi/tb/axi.py:266-292 | The beats cut the range into consecutive pieces, each inside its own cell and, for non-empty data, non-empty. |
| `AxiTransfer.Covered` | fpga/lib/axi/tb/axi.py:272-272 | The computed number of cycles covers the range, and with one beat fewer it would not. |
| `AxiTransfer.BeatLanes` | fpga/lib/axi/tb/axi.py:269-292 | A beat's lanes never cross a bus word; start and end offsets are the lanes of its first and last byte. |
| `AxiTransfer.NextLane` | fpga/lib/axi/tb/axi.py:319-320 | The modular update of cycle_offset follows the lane of the current cell. |
| `AxiTransfer.CellsAligned` | fpga/lib/axi/tb/axi.py:266-266 | Every cell is aligned to the beat size and the first contains the address. |
| `AxiTransfer.BurstFits` | fpga/lib/axi/tb/axi.py:304-305 | Every burst has between 1 and 256 beats, no more than are left or than the limit, and stays inside one 4 KB page (section A3.4.1 of ARM IHI 0022E). |
| `AxiIssue.BurstMaximal` | fpga/lib/axi/tb/axi.py:304-305 | A burst is as long as limit, remainder and page allow: shorter than what is left and than the limit only if it ends its page. |
| `AxiRam.BurstAccepted` | fpga/lib/axi/tb/axi.py:722-736 | Every burst of the partition passes the RAM's size and page assertions. |
| `AxiBeats.AcceptedMeans` | fpga/lib/axi/tb/axi.py:722-736 | The RAM's assertions hold of a burst if and only if its size does not exceed the bus and, if it increases, all its bytes are in one 4 KB page. |
| `AxiRam.BurstsPartition` | fpga/lib/axi/tb/axi.py:301-311 | The bursts together have exactly as many beats as the transfer, and each is accepted, short enough, correctly identified and aligned. |
| `AxiRam.Ram.WriteWord` | fpga/lib/axi/tb/axi.py:741-758 | Seeking, splitting the word and writing by strobe changes memory as the strobed update says, at an address taken modulo the size. |
| `AxiRam.Ram.ExecuteBurst` | fpga/lib/axi/tb/axi.py:717-774 | The loop over one burst, for fixed, increasing and wrapping bursts, consumes beats and changes memory as the specification, failing on the same assertions. |
| `AxiBeats.NextBeat` | fpga/lib/axi/tb/axi.py:770-774 | The RAM steps from the address of each beat to that of the next, at the upper boundary of a wrapping burst back to the lower. |
| `AxiRam.Ram.WriteLogic` | fpga/lib/axi/tb/axi.py:717-774 | The whole queue is executed as the specification says, and each burst answered with its identifier. |
| `AxiRam.Ram.ReadWord` | fpga/lib/axi/tb/axi.py:862-870 | The loop builds the word whose lanes are the memory bytes. |
| `AxiRam.Ram.ReadBurst` | fpga/lib/axi/tb/axi.py:859-881 | The answers queued to a burst are those of the specification. |
| `AxiBeats.BurstAnswers` | fpga/lib/axi/tb/axi.py:859-881 | The answers to a burst of any kind: as many as its beats, each with the identifier, no error, the word at the address of that number, and marked last only in the last. |
| `AxiRam.Ram.ReadLogic` | fpga/lib/axi/tb/axi.py:838-881 | The queue is answered in order, and refused exactly when some burst fails an assertion. |
| `AxiMemory.FlatWriteAppend` | fpga/lib/axi/tb/axi.py:748-758 | Writing a then b behind it is writing a + b, also around the end of memory. |
| `AxiMemory.FlatWriteWithin` | fpga/lib/axi/tb/axi.py:748-758 | A flat write changes exactly the bytes of its range. |
| `AxiMemory.ReadAfterWrite` | fpga/lib/axi/tb/axi.py:864-866 | Reading back what was written returns it, also around the end of memory. |
| `Timespec.ModDefinedBelow` | utils/timespec.c:139-142 | `timespec_mod` is the floored modulo for every divisor whenever \|ts1\| is below LONG_MAX - 1 seconds. |
| `Timespec.ModUndefinedAtMax` | utils/timespec.c:139-142 | An input on which `timespec_mod` is no modulo: for {LONG_MAX, 0} mod {LONG_MAX >> 1, 0} the value returned is 2^62 s where the modulo is 1 s. |
| `Timespec.SignedRemainder` | utils/timespec.c:176-189 | From the remainder of the magnitudes, the sign fix-up yields the floored modulo exactly under that condition. |
| `Timespec.DivideMagnitudes` | utils/timespec.c:139-174 | Shift and subtract leave a remainder congruent to the dividend, below the divisor unless the shift hit its ceiling, and then off by exactly the excess. |
| `Timespec.ShiftUp` | utils/timespec.c:141-151 | The shift loop terminates with a doubling of the divisor such that twice it exceeds the dividend, or with the largest reachable one. |
| `Timespec.ShiftOnce` | utils/timespec.c:143-150 | One shift, whose carry test lets tv_nsec be NSEC_PER_SEC, doubles the value without overflow and leaves the reachable maximum unchanged. |
| `Timespec.Reduce` | utils/timespec.c:155-174 | The subtraction loop keeps the dividend equal to a multiple of the divisor plus what is left. |
| `Timespec.SubtractOnce` | utils/timespec.c:157-160 | A subtraction happens exactly when the value compares at least as large, although the shifted divisor may not be canonical. |
| `Timespec.UnshiftOnce` | utils/timespec.c:167-173 | Halving takes the doubled divisor back one step, exactly. |
| `Timespec.GeAgainstShifting` | utils/timespec.c:213-216 | The lexicographic test is the numeric one even against a transient tv_nsec == NSEC_PER_SEC. |
| `Timespec.Flip` | utils/timespec.c:123-137 | The magnitude is canonical and the sign recorded. |
| `Timespec.Normalise` | utils/timespec.c:319-353 | The result is canonical and worth the same, for any limbs, of equal or different sign and any tv_nsec, whose total fits; the loops terminate. |
| `Timespec.CanonicalUnique` | utils/timespec.c:304-319 | Canonical values worth the same are the same limbs. |
| `Timespec.Add` | utils/timespec.c:70-82 | The sum is canonical and exact. |
| `Timespec.Sub` | utils/timespec.c:87-99 | The difference is canonical and exact. |
| `Timespec.ComparatorsNumeric` | utils/timespec.c:197-232 | On canonical values all five comparators agree with the order of the totals. |
| `Timespec.FloorModUnique` | utils/timespec.c:104-192 | The floored modulo is the only remainder with the divisor's sign. |
| `TdmaSchedule.FromNanoseconds` | utils/mqnic-config.c:222-228 | Truncating division and remainder give the canonical limbs of any 64-bit count, negative ones included. |
| `TdmaSchedule.OnlyStart` | utils/mqnic-config.c:239-245 | No two times congruent modulo the period lie in the same period of the grid. |
| `BaseRLink.FramesDelivered` | fpga/lib/eth/tb/baser_serdes_ep.py:145-336 | For every run of sends and clocks, with frames starting 0x55 and any sequence of forced offsets, once the source is idle the sink has received exactly the frames started, in order and error-free, except those shorter than 8 bytes started in lane 0 or 4 bytes in lane 4, which leave no trace. |
| `BaseRLink.Drains` | fpga/lib/eth/tb/baser_serdes_ep.py:145-336 | From every state the source, only clocked, comes to idle. |
| `BaseRLink.ClockProgress` | fpga/lib/eth/tb/baser_serdes_ep.py:150-336 | A clock at which the source is not idle leaves fewer frames, fewer blocks or fewer lanes of gap to go. |
| `BaseRLink.FramesNext` | fpga/lib/eth/tb/baser_serdes_ep.py:159-160 | A clock moves at most the first frame of the queue, and loses and repeats none. |
| `BaseRLink.LongFramesArrive` | fpga/lib/eth/tb/baser_serdes_ep.py:639-675 | If all frames have 8 bytes or more, what was received is at every moment a prefix of what was sent, and all of it once the source is idle. |
| `BaseRLink.ClockKeeps` | fpga/lib/eth/tb/baser_serdes_ep.py:145-336 | One clock of source and sink, joined by the block code, keeps sent, in-flight and received frames consistent. |
| `BaseRLink.StepKeeps` | fpga/lib/eth/tb/baser_serdes_ep.py:145-336 | One send or one clock keeps the invariant that ties sent, started, in-flight and received frames. |
| `BaseRLink.RunKeeps` | fpga/lib/eth/tb/baser_serdes_ep.py:145-336 | Any run of sends and clocks keeps the invariant that ties sent, started, in-flight and received frames. |
| `BaseRLink.StartColumn` | fpga/lib/eth/tb/baser_serdes_ep.py:165-184 | A long enough frame begins with a start column that the code represents, in either lane, followed by the blocks of the rest. |
| `BaseRLink.TermColumn` | fpga/lib/eth/tb/baser_serdes_ep.py:285-320 | The last bytes make one block that terminates in the lane behind them, idles after it, for all eight lanes. |
| `BaseRFrames.FrameShown` | fpga/lib/eth/tb/baser_serdes_ep.py:163-325 | What the far end decodes of any frame long enough to start: four idles if it starts in lane 4, 0xfb, its bytes but the first, 0xfd, and fewer than eight idles, with the control flags just where they belong. |
| `BaseRFrames.FrameBegins` | fpga/lib/eth/tb/baser_serdes_ep.py:639-655 | For any column at all: outside a frame the sink takes up one at a start in lane 0 or else in lane 4, putting 0x55 in its place, and otherwise does nothing. |
| `BaseRFrames.FrameEnds` | fpga/lib/eth/tb/baser_serdes_ep.py:656-675 | For any columns at all: inside a frame the sink takes every byte up to the first control character, which ends it; a terminate is left out, anything else is the last byte, and a byte counts as an error exactly if it is an error character. |
| `BaseRGaps.NoGapTooLong` | fpga/lib/eth/tb/baser_serdes_ep.py:149-184 | In every run no gap of frames sent back to back exceeds ifg + 3 lanes with deficit idles (or 8, if that is more) and ifg + 7 without (or 8), nor four lanes more where offsets are forced. |
| `BaseRGaps.GapLaw` | fpga/lib/eth/tb/baser_serdes_ep.py:149-184 | With deficit idles and no forced offset, every back-to-back gap is ifg + deficit before - deficit after lanes, the deficit staying in 0..3. |
| `BaseRGaps.GapBounds` | fpga/lib/eth/tb/baser_serdes_ep.py:149-184 | A frame started in a state whose books balance ends a gap of at least ifg - 3 lanes with deficit idles and ifg without, and, behind a frame back to back, of at most ifg + 3 with them (or 8, if that is more) and ifg + 7 without (or 8), four more if an offset is forced. |
| `BaseRGaps.GapsAddUp` | fpga/lib/eth/tb/baser_serdes_ep.py:149-184 | With deficit idles and an ifg of 8 or more, N consecutive back-to-back gaps add up to N * ifg within 3 lanes, in every run without forced offsets. |
| `BaseRStarts.NextStart` | fpga/lib/eth/tb/baser_serdes_ep.py:149-178 | After a frame has ended with another queued: as many idle columns as the count has eights, with deficit idles, or as are needed to use it up, without; then the frame starts, in lane 4 exactly if an offset is forced or four lanes are left over, and what is left over is owed to the next gap. A frame too short to start shows neither start nor terminate, and leaves the nominal gap. |
| `BaseRGaps.GapsTooLong` | fpga/lib/eth/tb/baser_serdes_ep.py:327-333 | With ifg below 8 some run of five frames of eight bytes has exactly 8 lanes between each, so that the gaps exceed the nominal ones by more than 3 lanes. |
| `BaseRGaps.BooksKept` | fpga/lib/eth/tb/baser_serdes_ep.py:145-336 | Over every run the books of the gaps stay balanced, no closed gap is too short, and the books say what the decoded columns show. |
| `BaseRGaps.ClockShown` | fpga/lib/eth/tb/baser_serdes_ep.py:145-336 | The column emitted at a clock, decoded, changes the gaps seen on the line as the books say. |
| `BaseRGaps.ClockBalances` | fpga/lib/eth/tb/baser_serdes_ep.py:145-336 | Every clock keeps ifg counter, deficit and lanes elapsed in balance. |
| `BaseRGaps.ClockConserves` | fpga/lib/eth/tb/baser_serdes_ep.py:145-336 | Every clock keeps the sum of gaps plus the deficit equal to N * ifg plus the deficit at the start. |
| `BaseRGaps.GapFromTerminate` | fpga/lib/eth/tb/baser_serdes_ep.py:327-333 | The counter set from the encoded block type is ifg less the lanes after the terminate plus the deficit. |
| `BaseRSerdes.Play` | fpga/lib/eth/tb/baser_serdes_ep.py:143-675 | Any run of sends and clocks of the real source and sink is a run of the link. |
| `BaseRSerdes.Tick` | fpga/lib/eth/tb/baser_serdes_ep.py:145-675 | One clock of the real source and sink, scrambled and bit-reversed words on the wire: the source becomes what the source of the link makes of it, the sink what the sink of the link makes of the decoded block, the scrambler states stay equal and the invariant holds. |
| `BaseRSerdes.IdleTick` | fpga/lib/eth/tb/baser_serdes_ep.py:413-431 | One clock of an idle line brings a sink in step whatever its state, adds at most one frame, and ends a frame under way if it was in step already. |
| `BaseRSerdes.Source.constructor` | fpga/lib/eth/tb/baser_serdes_ep.py:134-140 | The source starts idle with an empty queue and state 0. |
| `BaseRSerdes.Source.Send` | fpga/lib/eth/tb/baser_serdes_ep.py:106-107 | The frame is appended to the queue. |
| `BaseRSerdes.Source.Build` | fpga/lib/eth/tb/xgmii_ep.py:57-97 | Popping the bytes one by one yields the frame's bytes with all control flags clear. |
| `BaseRSerdes.Source.Pad` | fpga/lib/eth/tb/baser_serdes_ep.py:180-184 | Idles are appended up to the next multiple of eight lanes. |
| `BaseRSerdes.Source.EncodeLanes` | fpga/lib/eth/tb/baser_serdes_ep.py:186-325 | The loop encodes the lanes column by column. |
| `BaseRSerdes.Source.Start` | fpga/lib/eth/tb/baser_serdes_ep.py:159-325 | Starting a frame sets queue, blocks, counter and deficit as the link says. |
| `BaseRSerdes.Source.Pop` | fpga/lib/eth/tb/baser_serdes_ep.py:151-158 | Popping a block from the frame under way sets the gap counter exactly when it was the last. |
| `BaseRSerdes.Source.Next` | fpga/lib/eth/tb/baser_serdes_ep.py:145-336 | One clock's choice of block and new state is the link's. |
| `BaseRSerdes.Source.Clock` | fpga/lib/eth/tb/baser_serdes_ep.py:143-355 | The word driven is the block scrambled from the old state, mirrored with its header if asked. |
| `BaseRSerdes.MirroredHeader` | fpga/lib/eth/tb/baser_serdes_ep.py:350-352 | A reversed data header is 1 on the line and a control header 2, and reversing again gives it back. |
| `BaseRSerdes.Sink.constructor` | fpga/lib/eth/tb/baser_serdes_ep.py:405-410 | The sink starts outside a frame with state 0. |
| `BaseRSerdes.Sink.Restore` | fpga/lib/eth/tb/baser_serdes_ep.py:419-431 | Reversal undone and, if the scrambler states were equal, the very block restored; after the word the states are equal whatever they were. |
| `BaseRSerdes.Sink.Take` | fpga/lib/eth/tb/baser_serdes_ep.py:639-675 | The loop over the lanes of a column is the link's framer. |
| `BaseRSerdes.Sink.Clock` | fpga/lib/eth/tb/baser_serdes_ep.py:413-675 | One clock of the sink is that of the link on some column, on the decoded block if the scrambler states were equal; afterwards they are. |
| `BlockCode.DecodeEncode` | fpga/lib/eth/tb/baser_serdes_ep.py:435-637 | For every column at all, representable or not, what the decoder makes of the encoder's block. |
| `BlockCode.LowOrderedCase` | fpga/lib/eth/tb/baser_serdes_ep.py:260-276 | An ordered set in lane 0 alone always arrives as a sequence ordered set before four errors: the encoder places the codes at bit 40 and the decoder maps the signal code to SEQ_OS (lines 551-563). |
| `BlockCode.CodeRoundTrip` | fpga/lib/eth/tb/baser_serdes_ep.py:191-228 | Decoding a control code gives back the character if it is one of the nine mapped ones, and an error for everything else. |
| `BlockCode.SurvivesRepresentable` | fpga/lib/eth/tb/baser_serdes_ep.py:230-323 | The cases in the encoder's order agree with the list of representable forms: no form is shadowed by an earlier branch. |
| `BlockCode.TermBlockType` | fpga/lib/eth/tb/baser_serdes_ep.py:78-96 | The lane read from the block type of an encoded terminate column is its lane. |
| `BlockCoder.EncodeColumn` | fpga/lib/eth/tb/baser_serdes_ep.py:191-325 | The loops of shifts and ors that assemble a block from a column yield the block of BlockCode.Encode, and this has the format of IEEE 802.3: header 2 for data and 1 for control, the block types, the nine control codes, the bytes and the nibbles of ordered sets by value and bit position. |
| `BlockCoder.EncodeControl` | fpga/lib/eth/tb/baser_serdes_ep.py:191-228 | The loop of shifts and ors packs the eight 7-bit control codes. |
| `BlockCoder.FindTerm` | fpga/lib/eth/tb/baser_serdes_ep.py:285-321 | The chain of branches on the control flags finds the lane of the terminate, if the column has that form. |
| `BlockCoder.DecodeBlock` | fpga/lib/eth/tb/baser_serdes_ep.py:435-637 | The branches and loops that take a block apart yield the column of BlockCode.Decode, and this is what the format of IEEE 802.3 says: for each header, block type, control code and nibble by value, the characters and bytes of the lanes by bit position, and eight errors for any other block. |
| `BlockCoder.DecodeControl` | fpga/lib/eth/tb/baser_serdes_ep.py:435-467 | The loop that looks up the eight 7-bit codes yields the eight control characters. |
| `BlockCoder.OrBytes` | fpga/lib/eth/tb/baser_serdes_ep.py:242-243 | A loop of shifts and ors places a run of bytes. |
| `BlockCoder.AppendBytes` | fpga/lib/eth/tb/baser_serdes_ep.py:512-515 | A loop of shifts and masks reads a run of bytes. |
| `Scrambler.ScrambleDescramble` | fpga/lib/eth/tb/baser_serdes_ep.py:424-431 | From equal states scrambling undoes descrambling, for streams of any length. |
| `Scrambler.NotSooner` | fpga/lib/eth/tb/baser_serdes_ep.py:424-431 | Descramblers whose states differ in the latest bit still disagree at the 58th output bit, for every input. |
| `Scrambler.FlippedBit` | fpga/lib/eth/tb/baser_serdes_ep.py:428-430 | A flipped channel bit at t flips the outputs at t, t + 39 and t + 58 and no others. |
| `ScrambledWord.ScrambleWord` | fpga/lib/eth/tb/baser_serdes_ep.py:338-347 | The loop with masks and shifts on a 58-bit state scrambles the 64 bits of the word, low bit first, and leaves the stream's state. |
| `ScrambledWord.DescrambleWord` | fpga/lib/eth/tb/baser_serdes_ep.py:424-431 | The loop with masks and shifts on a 58-bit state descrambles the 64 bits of the word, low bit first, and leaves the state of the stream. |
| `ScrambledWord.WordRoundTrip` | fpga/lib/eth/tb/baser_serdes_ep.py:338-347 | A word scrambled and descrambled from equal states is the same word. |
| `ScrambledWord.InStepAfterOneWord` | fpga/lib/eth/tb/baser_serdes_ep.py:424-431 | After one word of 64 bits any two descramblers have the same state. |
| `ScrambledWord.ReverseWord` | fpga/lib/eth/tb/baser_serdes_ep.py:349-352 | The sum over the set bits of a word is its mirror image. |
| `FirmwareUpdate.HoldsAt` | utils/mqnic-fw.c:763-807 | Byte by byte what that means: old value outside the rounded range, image byte inside the image, 0xFF in between. |
| `FirmwareUpdate.RoundedFits` | utils/mqnic-fw.c:1034-1038 | The rounded length covers the image by less than one block, ends on a block and stays inside the segment. |
| `FirmwareUpdate.EraseProgress` | utils/mqnic-fw.c:236-285 | Erasing in chunks touches nothing outside the range, is erasing the range if it reports success and the device does what it reports, and succeeds if start and end are block-aligned and nothing fails. |
| `FirmwareUpdate.WriteProgress` | utils/mqnic-fw.c:184-234 | Writing in chunks touches nothing outside the range, and is programming the range if it reports success and the device does what it reports. |
| `FirmwareUpdate.ReadProgress` | utils/mqnic-fw.c:134-182 | Reading a flash in chunks returns the bytes of the range. |
| `FirmwareUpdate.ChunkEnds` | utils/mqnic-fw.c:143-165 | A chunk is never empty, nor longer than the step or what remains; it is all that remains if that is no longer than the step, and otherwise ends on a multiple of the step. |
| `FirmwareUpdate.Driver.Erase` | utils/flash.c:129-135 | Dispatch to either driver: nothing outside the range changes, success of a device that does what it reports means exactly the range was erased, and aligned requests succeed on a reliable one. |
| `FirmwareUpdate.Driver.Write` | utils/flash.c:121-127 | Dispatch to either driver: nothing outside the range changes, and success of a device that does what it reports means the range was programmed. |
| `FirmwareUpdate.Driver.Read` | utils/flash.c:113-119 | Dispatch to either driver: the range is returned. |
| `FlashSpi.SpiFlash.FillPage` | utils/flash_spi.c:480-489 | The inner loop never fills past a page end and stops only there or at the end of the data. |
| `FlashSpi.SpiFlash.ProgramPage` | utils/flash_spi.c:453-491 | One page program with the chosen address width programs exactly its bytes. |
| `FlashSpi.SentWhole` | utils/flash_spi.c:453-478 | The chosen address width sends every address whole; three bytes would do so exactly up to 0xffffff. |
| `FlashSpi.SpiFlash.EraseBlock` | utils/flash_spi.c:538-573 | One block erase with the chosen opcode and address width erases exactly that block. |
| `FlashSpi.BlockFor` | utils/flash_spi.c:508-518 | The block chosen fits what is left and is aligned, and none is chosen exactly when not even a subsector is possible. |
| `FlashSpi.SpiFlash.Read` | utils/flash_spi.c:371-429 | The bytes streamed by one read command, with the chosen address width, are those of the range. |
| `FlashBpi.BpiFlash.FindBlockSize` | utils/flash_bpi.c:617-627 | The search finds the block size of the region holding the address, or zero. |
| `FlashBpi.BpiFlash.EraseAt` | utils/flash_bpi.c:644-650 | One sector erase at an address accepted by the mask erases exactly that block. |
| `FlashBpi.BpiFlash.Write` | utils/flash_bpi.c:580-609 | For word-aligned ranges: nothing outside the range changes, success of a device that does what it reports means exactly the range was programmed, and no buffered program crosses a buffer. |
| `FlashBpi.SegmentFits` | utils/flash_bpi.c:586-603 | Each segment is non-empty, of whole words, inside one buffer, and ends the data or the buffer. |
| `FlashBpi.BpiFlash.Read` | utils/flash_bpi.c:545-578 | An odd first byte, words and an odd last byte together are the range. |
| `FlashBpi.BpiFlash.ReadWord` | utils/flash_bpi.c:130-134 | A word holds the bytes at its even address and above. |
| `FlashBpi.BlockInside` | utils/flash_bpi.c:493-531 | An address's block lies in its region and all its addresses agree on it. |
| `FlashBpi.LargestBoundary` | utils/flash_bpi.c:493-531 | A multiple of the largest block size is a boundary of every region, so block-aligned segments suit either region. |
| `FlashMemory.PageWraps` | utils/flash_spi.c:480-489 | For any data and start: the cell at an offset of the page takes the last byte of the data that falls there, counting on from the start of the page after its end, and no other page changes. |
| `PartName.Stristr` | utils/mqnic-fw.c:79-119 | The first occurrence, characters counting as the same if they are or are the small and the capital form of one letter, or none if there is none; the loop terminates although it steps back. |
| `PartName.LowerFolds` | utils/mqnic-fw.c:79-119 | tolower makes two characters equal exactly if they are the same or the two forms of one letter from A to Z. |
| `Masks.MaskIsRemainderWhen` | utils/flash_bpi.c:636-642 | `x & (b - 1)` is the remainder of x by b for every x if and only if b is a power of two. |
| `Masks.MaskOfItself` | utils/flash_bpi.c:636-642 | The mask test `addr & (b - 1)` accepts the end of the first block, b itself, if and only if b is a power of two. |
| `Masks.MaskIsRemainder` | utils/mqnic-fw.c:143-165 | For a power of two b, `x & (b - 1)` as the flash code uses it is x mod b. |

## Left out

Rings:

- Port stop and restart, and freeing of buffers after it: freed slots may be revisited and the completion pointers are not reset, so runs end at deactivation.
- Doorbell liveness when more packets are announced: a drop at the end of a batch can leave the doorbell unrung; it is proved only that it never passes head.
- Interrupt arming, event queues and the refill or poll that they trigger; whether a poll is ever scheduled.
- Memory ordering weaker than sequential consistency.
- Timestamps, checksums, fragment mapping, linearising, statistics and byte queue limits: a packet is a value that is rejected, fails to map or is sent.
- TxQueue.Queue.StartXmit: states the outcome of a call that nothing interrupts; interrupted ones are runs of TxQueue.Queue.Play.
- TxQueue.Queue.Announce: likewise, so the ring is not found with room at the second full test; TxQueue.Queue.WakeFromXmit is that branch.
- TxQueue.Queue.ProcessTxCq: states the outcome of a poll that nothing interrupts; interrupted ones are runs of TxQueue.Queue.Play.
- RxQueue.Queue.ProcessRxCq: likewise, with RxQueue.Queue.Play.
- TxQueue.Queue.constructor: takes up to 2^16 entries, as DriverRing.Ring.constructor does.
- RxQueue.Queue.constructor: takes up to 2^15 entries, where the driver takes any number; the class keeps true counters in step with registers, which RxRegisters.RegistersSufficeWhen shows to be impossible beyond, and rings of 2^16 are those of RxRegisters.
- DriverRing.Ring.constructor: takes up to 2^16 entries, as does TxQueue.Queue.constructor; larger rings, whose size does not divide the range of a register, are not part of this model.

AXI:

- Handshakes and pauses cycle by cycle: a channel is a queue in order, and waiting for an empty queue is waiting for the next arrival.
- The refinement theorems are for increasing bursts; for fixed and wrapping bursts it is proved where each beat goes (AxiBeats.BurstWrites), but not related to a range of flat memory, because the master splits them as if increasing.
- Lock, cache, protection, quality of service, region and user signals, and write responses other than their identifiers.
- Python's float division for addresses and counts, exact below 2^53, is integer division here.
- `fpga/lib/pcie/tb/axi.py`, which repeats the same logic.
- AxiRead.Reader.ReadLogic: a read of length zero at an unaligned address makes one beat, and its result is empty, as in the source.

10GBASE-R:

- `XGMIISource` and `XGMIISink` of `xgmii_ep.py`, whose gap arithmetic and framer are those of the link modelled here, on 32- and 64-bit buses.
- Frames with error or control bytes of their own; build and parse are modelled for error-free frames.
- The `enable` input and frames not starting with 0x55, on which the source stops.
- BlockCode.Encode: keeps the low 64 bits of the word of an ordered set alone in lane 0, which the source makes with 68. With `scramble` on those are what the scrambler reads; with it off the whole word is driven on the 64-bit data signal, whose simulator does not take a value of 68 bits, unless `reverse` is on, which mirrors the low 64. No frame makes such a column.
- BaseRSerdes.Join: the line is idle for the two clocks in which the sink gets in step; what a sink makes of a line that it joins while frames are being sent is not stated.
- BaseRGaps.GapsAddUpWhen: is about deficit idles and unforced starts; what holds without is BaseRGaps.NoGapTooLong.

Times and flash:

- Timespec.Mod: requires totals that fit 64-bit seconds and can be negated; beyond that C overflows.
- Timespec.Normalise: requires a total that fits, for the same reason.
- Conversions to and from doubles, timevals and milliseconds.
- Register reads of the clock: now is a parameter, of at most 48 bits of seconds.
- Bit-banging, status polling, quad mode, dummy cycles and geometry probing: erase, program and read are single operations of the device. A serial device does not fail.
- FlashBpi.BpiFlash.Write: requires even addresses and lengths; the source halves both, so that a segment of one byte announces 0 - 1 words to the device, whose answer is not modelled. No block-aligned segment has one.
- FirmwareUpdate.Driver.Write: requires the same for a parallel flash.
- FirmwareUpdate.WriteProgress: requires the same for a parallel flash.
- FlashBpi.BpiFlash.Read: excludes an empty read at an odd address, whose length would wrap; no caller makes one.
- FirmwareUpdate.Driver.Read: excludes the same for a parallel flash.
- FlashBpi.BpiFlash.Erase: block sizes are powers of two; with others the mask is no alignment test (Masks.MaskIsRemainderWhen) and what the device then does is not modelled.
- Silent failures of a serial flash: only a parallel device may misprogram without reporting it.
- FirmwareUpdate.Program: the image is a byte sequence; reading bit files, bit swapping for other bus widths, the sync word test and the two-chip layout are not part of this model.
- Sizes beyond 2^32 and wrap-around of `size_t`.

Elsewhere: PCI probing, I2C, board management, ethtool, ioctl, register dumps and command lines;
ARP, IP, UDP and Ethernet frame classes; Verilog wrapper generators.
