# Verified model of the FPGA board drivers

This project models the parts of the repository that move data and program clocks, and proves what
they promise:

- **The XDMA scatter-gather driver.** A user buffer is cut at page boundaries (`UserBuffer`), cut
  again at the longest length a descriptor can carry (`Requests`), placed into a descriptor ring
  (`Transfers`, `RingOccupancy`), linked with prefetch counts (`Descriptors`), submitted round by
  round (`Submit`), all at once (`SubmitNowait`) or through a wrap-around address window
  (`Aperture` for one pass, `ApertureRuns` for all passes of a call, `ApertureTransfer` for the call,
  `ApertureCases` for calls that go wrong), and accounted for by the engine's service routine.
  `Copying` says what the hardware copies, and `ReadWrite` composes all this into the read and write
  calls on a user buffer.
- **The engine's queue.** `EngineSpec` states each lock-held section as a function on a value;
  `Xdma` and `EngineService` hold the structures and the code that update them in place, proved
  equal to those functions; `EngineRuns` and `EngineAccounting` prove what holds over every run and
  what one service call does with a completed-descriptor count; `EngineWait` is one synchronous
  transfer against its engine, from `transfer_queue` through the service calls to a timeout. The
  submit paths run on that engine.
- **The MMCM mode search** of the dynamic clock (`ModeSearch`) and its registers (`DynClk`).
- **The XVC shift loop** (`Xvc`) and **the TCP framing** of the data-acquisition server (`Framing`).

`Words`, `Arithmetic`, `Bits` and `Errno` hold word sizes, division, masking and error numbers.

## How the code is modelled

The structures the C code updates in place are classes (`Xdma.XdmaEngine`, `Xdma.XdmaTransfer`,
`Transfers.DescRing`, `Requests.XdmaRequest`, `Aperture.ApertureRequest`, `Xvc.XvcBar`,
`Framing.EchoServer`, `DynClk.Instance`) with the same fields, and the loops are loops. 32-bit and
64-bit wrap-around is written out (`Words.W`, `% U64`). Values the driver reads from hardware are
arguments: status words and completed counts (`EngineSpec.Hw`), the service calls that run during a
wait (`EngineWait.WaitInput`), pinned pages (`UserBuffer.Pin`), the DMA mapping of a table, which
keeps its bytes and their order but may merge entries (`ReadWrite.KeepsBytes`), busy polls and unspecified TDO bits
(`Xvc`). Each section that holds the engine lock is one step. Where the C code writes past the end of
a buffer the model stops and says so in its result (`Overran`, `PastBlock`, `Overrun`), and the
contract gives the exact condition.

The main results say what the hardware does with the programmed descriptors.
`Descriptors.FetchRun` is an engine that prefetches blocks of descriptors by the adjacent counts it
reads back from the packed control words, and `Copying.EngineCopies` is what it copies;
`Copying.Moves` is that byte by byte, in incremental and in non-incremental address mode. Nothing about
a transfer is taken from the driver's own idea of it, with one assumption: a transfer the engine marked
COMPLETED was run to its end by the hardware. The driver concludes that from a descriptor count alone,
and a count beyond the queue completes transfers that were never run
(`EngineAccounting.OvercountCompletesAll`).

## What the code does not do

Some natural claims are false of the code. Each has its exact condition here:

| claim | holds exactly when | member |
|---|---|---|
| live transfers never share a descriptor | `desc_used` has not passed `desc_max`, which is never checked; with refused transfers that is still enough, but no longer needed | `RingOccupancy.SharedDescriptorsIff`, `WithinALapDisjoint`, `RefusalsOvercount` |
| the two transfers of an asynchronous request do not overwrite each other | the request has at most `desc_max` pieces | `RingOccupancy.TwoTransfersApartIff` |
| an asynchronous request fits `tfer[2]` | it ends within two laps of the ring | `Submit.FitsTwoTransfersIff` |
| the slots allocated for the software descriptors suffice (non-empty entries) | the rounding sum wraps for no entry and the size of the block fits 32 bits | `Requests.AllocationSufficesIff` |
| an adjacent count reads back as written | no old bit 12 or 13 sticks out of it | `Descriptors.SetAdjacentReadsBackIff` |
| after an abort every queued transfer is SUBMITTED | the aborted transfer was the head | `EngineRuns.AbortKeepsSubmittedIffHead` |
| a step leaves no transfer waiting on a stopped engine | `LeavesWorkRunning`; a service that finds the engine idle with a zero count stops it with work queued | `EngineRuns.WorkConservation` |
| polled service equals interrupt service on the same count | the stored status has no error bit, or no transfer is stopped on, or the one stopped on has made no progress and another waits behind it | `EngineAccounting.PolledMatchesInterruptIff` |
| every step of the aperture loop, in 64-bit arithmetic, places the next descriptor inside the window and goes on at the next position | ep_addr + aperture + the longest descriptor is at most 2^64; otherwise `ep_addr + len` wraps in the comparison | `Aperture.StepAgreesIff` |
| an aperture call in such a window moves every byte of its list once, in order, round the window (entries non-empty and not overlapping) | wherever the ring ends inside the descriptors of the list, it ends in the first entry and at an offset the mask maps to its remainder: the list pointer is never advanced, so every later pass starts over at the first entry; and on an engine in non-incremental address mode no descriptor is longer than one byte | `ApertureRuns.WholeCallIff` |
| the page table is built once the pages are pinned | the length is below 4 GiB and the page count is not zero in 32 bits | `UserBuffer.MapUserBuf` |
| every mode tried keeps the phase detector at or below its 450 MHz maximum | the parent is at most 900 MHz | `ModeSearch.PfdMaximumIff` |
| copying a segment stays inside the receive buffer | the segment has at most 1024 bytes | `Framing.CopyStaysInsideIff` |
| a segment is framed as the continuation of the stream | nothing is pending and it has at most 1024 bytes, or it and what is pending have less than 1024 | `Framing.FaithfulIff` |
| framing never depends on segments of at most `n` bytes | `n` is at most 1000 | `Framing.SegmentLimitIff` |
| a new connection is framed correctly | nothing was left over from the last one (an aborted connection leaves its bytes) | `Framing.LeftoverIff` |

For power-of-two apertures the part about the ring becomes: it does not end after the first entry
and before the end of the list (`ApertureRuns.PowerOfTwoGoesRightIff`); a list of one entry always
meets that. A list that needs at most `desc_max - desc_idx` descriptors meets it for any aperture
(`ApertureRuns.OnePassGoesRight`). Concrete calls that fail: `ApertureCases.SecondEntryNeverMoved`
returns 16 for 12 bytes; `ThirdPassEmpty` comes to a pass without descriptors, which makes the linking
loop run 2^32 - 1 times; `NonIncrementalStaysAtBase` puts all 64 bytes of an entry at one address;
`WrappedCallLeavesWindow` writes past a window that ends 36 bytes below 2^64; and with an aperture of
zero no call gets anywhere (`ZeroApertureNeverEnds`).

Two more: descriptors of a transfer that `transfer_queue` refuses stay counted in `desc_used`
(`Submit.XdmaXferSubmit`, `SubmitNowait.XdmaXferSubmitNowait`), and the mode search succeeds exactly
for parents from 10 MHz to 1.2 GHz, whatever the requested frequency (`ModeSearch.FindMode`).

## Model

| member | source | states |
|---|---|---|
| `Descriptors.SetAdjacentReadsBackIff` | vivado/auboard-pcie/linux-kernel/xdma/libxdma.c:2328-2336 | the prefetch count written is the count read back exactly when no old bit 12 or 13 sticks out of it; magic and flags survive for every old word |
| `Descriptors.SetAdjacentOnFresh` | vivado/auboard-pcie/linux-kernel/xdma/libxdma.c:3027-3034 | on a freshly initialised word every count from 0 to 63 reads back |
| `Descriptors.SetControlKeepsTheRest` | vivado/auboard-pcie/linux-kernel/xdma/libxdma.c:2339-2353 | the flag setter never disturbs count or magic, and an accepted field is exactly the flags afterwards |
| `Descriptors.RelinkKeepsTheRest` | vivado/auboard-pcie/linux-kernel/xdma/libxdma.c:2297-2325 | linking keeps flags and magic and clears the count |
| `Descriptors.NextAdj` | vivado/auboard-pcie/linux-kernel/xdma/libxdma.c:647-663 | the count fits its six-bit field and never announces more descriptors than remain |
| `Descriptors.BlockStaysInPage` | vivado/auboard-pcie/linux-kernel/xdma/libxdma.c:636-663 | a block of the computed size, at any 32-byte-aligned address, does not cross a 4 KB boundary |
| `Descriptors.FetchFromVisitsRest` | vivado/auboard-pcie/linux-kernel/xdma/libxdma.c:636-663 | from any descriptor with any number still prefetched, the engine visits exactly the rest of the chain, in order, in blocks that tile it |
| `Descriptors.BlockFetchIsListWalk` | vivado/auboard-pcie/linux-kernel/xdma/libxdma.c:743-752 | started with the count engine_start writes, the prefetching engine visits every descriptor of the transfer once, in order, and stops; its blocks tile exactly the transfer and none crosses a page |
| `Requests.CutEntryTiles` | vivado/auboard-pcie/linux-kernel/xdma/libxdma.c:3128-3139 | the pieces of one entry describe its bytes in order, each non-empty and at most desc_blen_max long |
| `Requests.SplitTiles` | vivado/auboard-pcie/linux-kernel/xdma/libxdma.c:3123-3140 | the same for the whole scatter list: same bytes, same order, bounded non-empty pieces |
| `Requests.CutEntryCount` | vivado/auboard-pcie/linux-kernel/xdma/libxdma.c:3128-3139 | an entry yields exactly ceil(len / desc_blen_max) pieces |
| `Requests.AskedCoversSplit` | vivado/auboard-pcie/linux-kernel/xdma/libxdma.c:3106-3147 | without u32 wrap-around of a rounding sum at least as many slots are asked for as there are pieces |
| `Requests.AskedNearSplit` | vivado/auboard-pcie/linux-kernel/xdma/libxdma.c:3106-3115 | the slots asked for never exceed the entries plus one and a half times the pieces |
| `Requests.AllocationSufficesIff` | vivado/auboard-pcie/linux-kernel/xdma/libxdma.c:3077-3116 | for non-empty entries below 4 GiB in all, the slots in the allocated block suffice if and only if the rounding sum wraps for no entry and the byte size of the block fits its unsigned int |
| `Requests.SizeWrapsForSmallPieces` | vivado/auboard-pcie/linux-kernel/xdma/libxdma.c:3077-3086 | a run that meets the first condition and not the second: 2 GiB in pieces of 8 bytes get a block with room for one |
| `Requests.TooManyUnreachable` | vivado/auboard-pcie/linux-kernel/xdma/libxdma.c:3142-3147 | the "more than supported" exit is unreachable: whenever the pieces exceed the slots asked for, the block has been overrun before |
| `Requests.CountExtra` | vivado/auboard-pcie/linux-kernel/xdma/libxdma.c:3106-3111 | the first loop computes the total of extra slots modulo 2^32 |
| `Requests.FillEntry` | vivado/auboard-pcie/linux-kernel/xdma/libxdma.c:3124-3139 | the inner loop appends exactly the pieces of one entry and keeps the slots before them; it overruns the block exactly when they do not fit |
| `Requests.XdmaInitRequest` | vivado/auboard-pcie/linux-kernel/xdma/libxdma.c:3097-3153 | which of the three ends it comes to; a request that is ready holds exactly the split of the list, its total modulo 2^32 and the endpoint address |
| `Transfers.PieceCount` | vivado/auboard-pcie/linux-kernel/xdma/libxdma.c:2965-2997 | a transfer takes at least one and at most the remaining pieces and never wraps past the end of the ring |
| `Transfers.TransferDescInit` | vivado/auboard-pcie/linux-kernel/xdma/libxdma.c:2261-2287 | the linking loop chains the given descriptors by bus address, ends the last, and touches no other |
| `Transfers.TransferBuild` | vivado/auboard-pcie/linux-kernel/xdma/libxdma.c:2923-2959 | descriptor j carries piece j to or from the address reached by the pieces before it (unchanged in non-incremental mode); length, address and index advance by all pieces; no other descriptor changes |
| `Transfers.FillAdjacent` | vivado/auboard-pcie/linux-kernel/xdma/libxdma.c:3027-3034 | every descriptor gets the count for the block behind its own next pointer |
| `Transfers.FillTransfer` | vivado/auboard-pcie/linux-kernel/xdma/libxdma.c:2999-3013 | linking, filling and the stop flags, all in one transfer-sized run of the ring |
| `Transfers.TransferInit` | vivado/auboard-pcie/linux-kernel/xdma/libxdma.c:2962-3038 | the transfer occupies the next run of the ring, its descriptors are the finished ones for its pieces, desc_idx, desc_used, the request index and the address advance accordingly, and all other descriptors are unchanged |
| `Transfers.EpAfterSum` | vivado/auboard-pcie/linux-kernel/xdma/libxdma.c:2942-2944 | advancing the endpoint address piece by piece equals advancing it once by the sum, in both modes and across u64 wrap-around |
| `Transfers.FinishedCopies` | vivado/auboard-pcie/linux-kernel/xdma/libxdma.c:2378-2398 | a finished descriptor, read back, copies exactly its piece between host and device in the transfer direction |
| `Transfers.CountedChainedAt` | vivado/auboard-pcie/linux-kernel/xdma/libxdma.c:2328-2353 | a descriptor linked and flagged for its place, once counted, reads back as that place of a chain: next address, magic, stop flag and count |
| `Transfers.FinishedChainedAt` | vivado/auboard-pcie/linux-kernel/xdma/libxdma.c:2999-3034 | every finished descriptor of a transfer is such a link, so filling and flagging destroy nothing |
| `RingOccupancy.PerformKeepsConsecutive` | vivado/auboard-pcie/linux-kernel/xdma/libxdma.c:2994-3025 | allocation, refusal and oldest-first release keep the live transfers in ring runs that follow each other but for refused ones, none wrapping, up to desc_idx, all of it totalling desc_used |
| `RingOccupancy.StartOf` | vivado/auboard-pcie/linux-kernel/xdma/libxdma.c:3023-3025 | every live run starts where the descriptors before it end, counted round the ring |
| `RingOccupancy.WithinALapAllApart` | vivado/auboard-pcie/linux-kernel/xdma/libxdma.c:2994-3025 | while desc_used is at most desc_max all live transfers have disjoint descriptors |
| `RingOccupancy.OverALapMeets` | vivado/auboard-pcie/linux-kernel/xdma/libxdma.c:2994-3025 | without refused transfers, as soon as desc_used exceeds desc_max two live transfers share a descriptor |
| `RingOccupancy.WithinALapDisjoint` | vivado/auboard-pcie/linux-kernel/xdma/libxdma.c:2965-3025 | for every run of allocations, refusals and releases from an empty ring, live transfers are disjoint while desc_used is at most desc_max |
| `RingOccupancy.SharedDescriptorsIff` | vivado/auboard-pcie/linux-kernel/xdma/libxdma.c:2965-3025 | for every run without refusals that condition is exact |
| `RingOccupancy.RefusalsOvercount` | vivado/auboard-pcie/linux-kernel/xdma/libxdma.c:3582-3587 | with refusals it is not: desc_used can exceed desc_max with no transfer live |
| `RingOccupancy.TwoTransfersApartIff` | vivado/auboard-pcie/linux-kernel/xdma/libxdma.c:3917-3976 | the transfers of an asynchronous request together take all its pieces, and their runs are disjoint if and only if it has at most desc_max pieces |
| `Submit.Rounds` | vivado/auboard-pcie/linux-kernel/xdma/libxdma.c:3553-3677 | completed pieces never exceed programmed ones nor those the whole; the error is 0 exactly when every piece completed, and then all were programmed |
| `Copying.EngineCopiesChain` | vivado/auboard-pcie/linux-kernel/xdma/libxdma.c:743-752 | an engine started on a chained table performs the copy of each descriptor once, in order |
| `Submit.BuiltTransferCopies` | vivado/auboard-pcie/linux-kernel/xdma/libxdma.c:2999-3034 | what transfer_init leaves in the ring makes the engine copy exactly the pieces, in order |
| `Submit.CopiesConcat` | vivado/auboard-pcie/linux-kernel/xdma/libxdma.c:2932-2944 | the copies of two consecutive transfers are the copies of their pieces taken together |
| `Submit.CopiesMoveStraight` | vivado/auboard-pcie/linux-kernel/xdma/libxdma.c:2932-2944 | byte for byte: the copies of the pieces move byte k of the list to or from ep_addr + k, or in non-incremental mode ep_addr itself |
| `Submit.BuildRound` | vivado/auboard-pcie/linux-kernel/xdma/libxdma.c:3557-3563 | after transfer_init the engine would copy exactly the pieces of this transfer; nothing outside its run of the ring changes |
| `Submit.BuildNext` | vivado/auboard-pcie/linux-kernel/xdma/libxdma.c:3557-3573 | one more transfer extends the programmed prefix of the request by exactly its pieces |
| `Transfers.ReleaseTransfer` | vivado/auboard-pcie/linux-kernel/xdma/libxdma.c:3665-3666 | the descriptors of the transfer, and no others, are cleared and given back |
| `Submit.SubmitRound` | vivado/auboard-pcie/linux-kernel/xdma/libxdma.c:3553-3666 | one round programs the next pieces, puts the transfer through the engine and gives its descriptors back unless transfer_queue refused |
| `Submit.SubmitRounds` | vivado/auboard-pcie/linux-kernel/xdma/libxdma.c:3549-3677 | over all rounds the completed ones copy exactly the completed pieces, whose bytes are the count; a last transfer that did not complete would copy the other programmed pieces; desc_used is restored but for a refused transfer |
| `Submit.XdmaXferSubmit` | vivado/auboard-pcie/linux-kernel/xdma/libxdma.c:3462-3695 | every exit; otherwise the completed rounds, and only they, account for the result, and run to their end they move exactly that prefix of the scatter list, byte k to or from ep_addr + k, or ep_addr in non-incremental mode; descriptors of a refused transfer stay counted as used |
| `Submit.PrefixMovesStraight` | vivado/auboard-pcie/linux-kernel/xdma/libxdma.c:3549-3694 | any programmed prefix of the pieces is that prefix of the list's bytes, none missed or repeated, in either address mode |
| `Submit.ReportedCompletes` | vivado/auboard-pcie/linux-kernel/xdma/libxdma.c:3582-3624 | a transfer on an idle engine completes if the hardware reports all of it without an error, and leaves the engine idle |
| `Submit.AllRoundsComplete` | vivado/auboard-pcie/linux-kernel/xdma/libxdma.c:3553-3677 | if that holds in every round the loop programs and completes every piece |
| `Submit.EndToEnd` | vivado/auboard-pcie/linux-kernel/xdma/libxdma.c:3549-3694 | then every byte of the scatter list moves once, in order, the returned count is its length, from any ring position, and the engine is idle again |
| `Submit.TransfersNeededIsCeiling` | vivado/auboard-pcie/linux-kernel/xdma/libxdma.c:2965-2997 | cnt pieces from ring index i take exactly ceil((i + cnt) / desc_max) transfers |
| `Submit.FitsTwoTransfersIff` | vivado/auboard-pcie/linux-kernel/xdma/libxdma.h:479-480 | a request fits the two-entry array if and only if i + cnt is at most two laps; at most desc_max pieces always fit |
| `SubmitNowait.OneMoreQueued` | vivado/auboard-pcie/linux-kernel/xdma/libxdma.c:3950-3966 | queuing the next transfer extends the request's entries at the tail of the queue and leaves everything retired alone |
| `SubmitNowait.NowaitRound` | vivado/auboard-pcie/linux-kernel/xdma/libxdma.c:3917-3976 | one iteration: built into the ring and queued, or refused with the engine unchanged |
| `SubmitNowait.LapStep` | vivado/auboard-pcie/linux-kernel/xdma/libxdma.c:3917-3976 | with at most a lap of pieces, a second transfer starts at slot 0 and ends below the first |
| `SubmitNowait.QueueNext` | vivado/auboard-pcie/linux-kernel/xdma/libxdma.c:3917-3976 | the next transfer keeps every earlier one intact in the ring and in order on the queue |
| `SubmitNowait.QueueAll` | vivado/auboard-pcie/linux-kernel/xdma/libxdma.c:3915-3978 | nothing is queued, or the request needs more than two transfers and overruns tfer, or exactly the transfers needed are recorded in tfer and queued in order |
| `SubmitNowait.XdmaXferSubmitNowait` | vivado/auboard-pcie/linux-kernel/xdma/libxdma.c:3822-3995 | every exit and exactly when it overruns tfer; otherwise all transfers are queued behind what was there, only the last ends the request, the engine runs, their descriptors copy the whole list byte for byte, and with at most desc_max pieces the ring still holds all of them |
| `Aperture.StepAgreesIff` | vivado/auboard-pcie/linux-kernel/xdma/libxdma.c:3166-3304 | every step of the 64-bit arithmetic starts at the right position, has the right length and goes on at the next position if and only if ep_addr + aperture + maxlen is at most 2^64 |
| `Aperture.PlacePassIsCut` | vivado/auboard-pcie/linux-kernel/xdma/libxdma.c:3273-3316 | in such a window the loops on addresses place exactly what they would on positions |
| `Aperture.PieceStep` | vivado/auboard-pcie/linux-kernel/xdma/libxdma.c:3284-3308 | on positions the next descriptor is non-empty, at most the maximum, ends inside the window, and leaves the position of the next byte modulo the aperture |
| `Aperture.EntryCutMoves` | vivado/auboard-pcie/linux-kernel/xdma/libxdma.c:3283-3310 | in such a window the inner loop points the bytes it uses round the window in order, every descriptor inside it, and the descriptors made and still needed add up |
| `Aperture.PassMoves` | vivado/auboard-pcie/linux-kernel/xdma/libxdma.c:3273-3316 | in such a window a pass points a prefix of the entries it sees round the window from its starting position, uses as many descriptors as slots and list allow, and ends the list exactly if the slots suffice |
| `Aperture.PassStops` | vivado/auboard-pcie/linux-kernel/xdma/libxdma.c:3273-3319 | otherwise it stops in entry k after part bytes, where the byte is due that follows the ones moved |
| `Aperture.PassContinuesList` | vivado/auboard-pcie/linux-kernel/xdma/libxdma.c:3268-3281 | a pass that starts in the first entry sees exactly the bytes after those already moved |
| `Aperture.PlaceOne` | vivado/auboard-pcie/linux-kernel/xdma/libxdma.c:3284-3304 | one descriptor is written for the next bytes, with the 64-bit comparisons and the truncated difference of the code, and no other slot changes |
| `Aperture.FillFromEntry` | vivado/auboard-pcie/linux-kernel/xdma/libxdma.c:3283-3310 | the inner loop terminates, for every window, with exactly the descriptors of the entry that fit the ring, and adds up their lengths in 32 bits |
| `Aperture.TakeEntry` | vivado/auboard-pcie/linux-kernel/xdma/libxdma.c:3275-3316 | after each entry the pass stands one entry further, or inside it with the ring full |
| `Aperture.BuildPass` | vivado/auboard-pcie/linux-kernel/xdma/libxdma.c:3268-3319 | one pass places exactly the descriptors of the pass function and leaves the request fields where it stopped, for every list and every window |
| `Aperture.LinkPass` | vivado/auboard-pcie/linux-kernel/xdma/libxdma.c:3325-3349 | the pass becomes a linked, counted transfer and no other descriptor changes; it overruns the ring exactly for a pass without descriptors |
| `Aperture.LinkedPassCopies` | vivado/auboard-pcie/linux-kernel/xdma/libxdma.c:3325-3349 | the engine started on it performs exactly the copies of the pass |
| `Aperture.AperturePass` | vivado/auboard-pcie/linux-kernel/xdma/libxdma.c:3255-3352 | the whole locked section: the engine would perform exactly the copies of the pass; it overruns exactly if there are none |
| `ApertureRuns.PassesSnoc` | vivado/auboard-pcie/linux-kernel/xdma/libxdma.c:3236-3442 | one more pass continues from the state the passes before it left |
| `ApertureRuns.OnePassGoesRight` | vivado/auboard-pcie/linux-kernel/xdma/libxdma.c:3273-3316 | a list that needs at most desc_max - desc_idx descriptors meets the condition, whatever the aperture |
| `ApertureRuns.PowerOfTwoGoesRightIff` | vivado/auboard-pcie/linux-kernel/xdma/libxdma.c:3270-3319 | for a power-of-two aperture the condition is that the ring does not end after the first entry and before the end of the list; one entry always meets it |
| `ApertureRuns.PassInFirst` | vivado/auboard-pcie/linux-kernel/xdma/libxdma.c:3268-3319 | a pass from within the first entry makes progress, points exactly the bytes due at their places, and ends the list exactly if the ring has room for the descriptors still missing |
| `ApertureRuns.StaysInFirst` | vivado/auboard-pcie/linux-kernel/xdma/libxdma.c:3273-3319 | if the ring ends in the first entry the next pass starts right there |
| `ApertureRuns.LeavesFirst` | vivado/auboard-pcie/linux-kernel/xdma/libxdma.c:3273-3319 | if it ends later but before the list does, the next pass starts in a later entry |
| `ApertureRuns.LaterPassWrong` | vivado/auboard-pcie/linux-kernel/xdma/libxdma.c:3269-3281 | such a pass places nothing or moves a byte that is not the one due, in either address mode |
| `ApertureRuns.MaskedPassWrong` | vivado/auboard-pcie/linux-kernel/xdma/libxdma.c:3270 | a pass that starts where the mask is not the remainder moves its first byte to the wrong place, in either address mode |
| `ApertureRuns.PassOnPositions` | vivado/auboard-pcie/linux-kernel/xdma/libxdma.c:3268-3316 | in a window clear of 2^64 a pass of the code is the pass on positions from the masked offset on |
| `ApertureRuns.RightCall` | vivado/auboard-pcie/linux-kernel/xdma/libxdma.c:3236-3319 | the descriptors of a call that meets the condition carry after any number of passes a prefix of the list, byte b once and in order at ep_addr + b mod aperture, and with enough passes all of it, for any list and aperture |
| `ApertureRuns.CarriedFeeds` | vivado/auboard-pcie/linux-kernel/xdma/libxdma.c:617-619 | on an engine in non-incremental address mode such descriptors still move the same host bytes in order, each descriptor wholly at the window address of its first byte |
| `ApertureRuns.FixedAddressIff` | vivado/auboard-pcie/linux-kernel/xdma/libxdma.c:4783 | then every byte is in its place exactly if there are as many descriptors as bytes |
| `ApertureRuns.WrongCall` | vivado/auboard-pcie/linux-kernel/xdma/libxdma.c:3236-3319 | a call that does not never finishes with the right bytes moved in either address mode, if its entries are non-empty and do not overlap |
| `ApertureRuns.WholeCallIff` | vivado/auboard-pcie/linux-kernel/xdma/libxdma.c:3155-3319 | a call finishes with every byte of the list moved once, in order, round the window if and only if, wherever the ring ends inside its descriptors, it ends in the first entry and at an offset the mask maps to its remainder, and in non-incremental address mode no descriptor is longer than one byte |
| `ApertureCases.TwoEntriesOneSlot` | vivado/auboard-pcie/linux-kernel/xdma/libxdma.c:3269-3319 | two entries on a one-slot ring: the first one moves twice, and the call returns too much or comes to an empty pass |
| `ApertureCases.SecondEntryNeverMoved` | vivado/auboard-pcie/linux-kernel/xdma/libxdma.c:3269-3319 | a call that returns 16 for 12 bytes without touching the second entry |
| `ApertureCases.ThirdPassEmpty` | vivado/auboard-pcie/linux-kernel/xdma/libxdma.c:3269-3326 | a call that comes to a pass with nothing to place while bytes are left |
| `ApertureCases.EmptyPassOverruns` | vivado/auboard-pcie/linux-kernel/xdma/libxdma.c:3326 | linking such a pass runs the loop 2^32 - 1 times, past any ring |
| `ApertureCases.ZeroApertureNeverEnds` | vivado/auboard-pcie/linux-kernel/xdma/libxdma.c:3163-3166 | with an aperture of zero every pass fills the ring with empty descriptors and nothing ever moves |
| `ApertureCases.NonIncrementalStaysAtBase` | vivado/auboard-pcie/linux-kernel/xdma/libxdma.c:617-619 | one entry of 64 bytes in an aperture of 64 meets the condition on the ring, but in non-incremental mode all bytes go to or from ep_addr |
| `ApertureCases.SumWrapsPastWindow` | vivado/auboard-pcie/linux-kernel/xdma/libxdma.c:3290 | ep_addr 2^64 - 100, aperture 64, entries of 60 and 64 bytes: the sum wraps to 24 and the second descriptor keeps 64 bytes instead of 4 |
| `ApertureCases.WrappedCallLeavesWindow` | vivado/auboard-pcie/linux-kernel/xdma/libxdma.c:3284-3304 | that call meets the condition on the ring and finishes with a byte moved to or from the address behind the window |
| `ApertureTransfer.ApertureRound` | vivado/auboard-pcie/linux-kernel/xdma/libxdma.c:3236-3442 | one round is one pass, put through the engine, with its descriptors given back unless refused |
| `ApertureTransfer.ApertureRounds` | vivado/auboard-pcie/linux-kernel/xdma/libxdma.c:3236-3443 | for every list and aperture the rounds are the passes, all but a failed last one completed, and the result is the bytes counted in the completed ones or the error |
| `ApertureTransfer.RightOutcome` | vivado/auboard-pcie/linux-kernel/xdma/libxdma.c:3236-3459 | a call that meets the condition never overruns the ring; its completed rounds carry a prefix of the list round the window, or in non-incremental mode descriptor by descriptor, and the result is the length of that prefix, or of the list if nothing failed |
| `ApertureTransfer.XdmaXferAperture` | vivado/auboard-pcie/linux-kernel/xdma/libxdma.c:3155-3460 | every exit, the outcome of the rounds for every list and window, and for calls that meet the conditions where the bytes of the completed rounds go, in either address mode, and the result |
| `EngineSpec.ServiceList` | vivado/auboard-pcie/linux-kernel/xdma/libxdma.c:852-881 | whatever the count, what is left for the final transfer never exceeds its descriptors |
| `EngineService.XdmaEngineStop` | vivado/auboard-pcie/linux-kernel/xdma/libxdma.c:540-576 | stops the engine and changes nothing else |
| `EngineService.EngineStart` | vivado/auboard-pcie/linux-kernel/xdma/libxdma.c:681-776 | starts only an idle engine with work, on the head of the queue, with the dequeued count reset; otherwise returns null and changes nothing |
| `EngineService.RetireHead` | vivado/auboard-pcie/linux-kernel/xdma/libxdma.c:1005-1021 | the head gets its final state, leaves the queue and is announced; every other transfer is untouched |
| `EngineService.CountAndRetire` | vivado/auboard-pcie/linux-kernel/xdma/libxdma.c:860-870 | the same with its descriptors added to the dequeued count |
| `EngineService.EngineErrHandle` | vivado/auboard-pcie/linux-kernel/xdma/libxdma.c:886-914 | an error fails the head and stops the engine |
| `EngineService.EngineServiceTransferList` | vivado/auboard-pcie/linux-kernel/xdma/libxdma.c:827-884 | the loop over linked objects does what the value machine does, and returns the transfer the engine stopped on with the count left |
| `EngineService.EngineServiceFinalTransfer` | vivado/auboard-pcie/linux-kernel/xdma/libxdma.c:916-1022 | that transfer fails, half-completes or completes as the value machine says; the warning means a count beyond its end |
| `EngineService.AccountEngine` | vivado/auboard-pcie/linux-kernel/xdma/libxdma.c:1185-1192 | both halves together refine the value machine, and the warning of line 1002 never fires, for any count |
| `EngineService.EngineServiceEntry` | vivado/auboard-pcie/linux-kernel/xdma/libxdma.c:1121-1145 | which services read the status and which shut the engine down |
| `EngineService.EngineServiceResume` | vivado/auboard-pcie/linux-kernel/xdma/libxdma.c:1054-1088 | restarts an idle engine with work, stops a running one without |
| `EngineService.ServiceEngine` | vivado/auboard-pcie/linux-kernel/xdma/libxdma.c:1098-1204 | engine_service refines the value machine for every writeback, status and count; -1 exactly for a running engine and an error writeback |
| `EngineService.TransferQueue` | vivado/auboard-pcie/linux-kernel/xdma/libxdma.c:2447-2524 | accepts exactly a non-empty transfer on an online engine not shutting down; then it is last in the queue, SUBMITTED, and an idle engine is started; a refusal changes nothing |
| `EngineService.AbortTransfer` | vivado/auboard-pcie/linux-kernel/xdma/libxdma.c:2403-2438 | the head is unlinked and marked; any other queued transfer is marked and stays |
| `EngineService.AbortAndStop` | vivado/auboard-pcie/linux-kernel/xdma/libxdma.c:3641-3653 | the status read, the abort and the stop after a timeout refine the value machine wherever in the queue the transfer is |
| `EngineService.DeviceOffline` | vivado/auboard-pcie/linux-kernel/xdma/libxdma.c:4593-4648 | one engine's share: flagged, refusing, stopped, with its queue untouched |
| `EngineService.DeviceOnline` | vivado/auboard-pcie/linux-kernel/xdma/libxdma.c:4650-4696 | one engine's share: accepting again |
| `EngineRuns.StepConserves` | vivado/auboard-pcie/linux-kernel/xdma/libxdma.c:802-1022 | every queue, service, offline and online step and every abort, wherever in the queue it hits, keeps the conservation invariant |
| `EngineRuns.RunConserves` | vivado/auboard-pcie/linux-kernel/xdma/libxdma.c:802-1022 | so does every run of them |
| `EngineRuns.ServicedOnce` | vivado/auboard-pcie/linux-kernel/xdma/libxdma.c:802-825 | a retired transfer is announced once if service retired it and never if it was aborted; io_done once for the last of an asynchronous request |
| `EngineRuns.FifoConservation` | vivado/auboard-pcie/linux-kernel/xdma/libxdma.c:2447-2524 | over every run, accepted submissions are the retired transfers followed by the queue, in order; queued ones are SUBMITTED, or ABORTED if an abort hit behind the head, retired ones final, each announced exactly as often as it should be |
| `EngineRuns.AbortKeepsSubmittedIffHead` | vivado/auboard-pcie/linux-kernel/xdma/libxdma.c:2403-2438 | after an abort every queued transfer is SUBMITTED if and only if the head was aborted |
| `EngineRuns.StepBusyHasWork` | vivado/auboard-pcie/linux-kernel/xdma/libxdma.c:1054-1088 | no step leaves a running engine with an empty queue |
| `EngineRuns.StepWorkRuns` | vivado/auboard-pcie/linux-kernel/xdma/libxdma.c:1134-1160 | exactly which steps leave no transfer waiting on a stopped engine |
| `EngineRuns.WorkConservation` | vivado/auboard-pcie/linux-kernel/xdma/libxdma.c:2498-2517 | both for every reachable state: running implies work, and after an accepted submission or a service that saw a completed descriptor work implies running |
| `EngineRuns.StalledThroughServices` | vivado/auboard-pcie/linux-kernel/xdma/libxdma.c:1110-1119 | a stopped engine with work stays stalled through any number of services |
| `EngineRuns.ServiceSettled` | vivado/auboard-pcie/linux-kernel/xdma/libxdma.c:852-1022 | after any service, on any mix of submitted and aborted transfers, every accepted transfer is queued or in a final state |
| `EngineRuns.AbortSettled` | vivado/auboard-pcie/linux-kernel/xdma/libxdma.c:2403-2438 | the same after aborting any queued transfer, not only the head |
| `EngineWait.ServiceNotAborted` | vivado/auboard-pcie/linux-kernel/xdma/libxdma.c:852-1022 | no service aborts a transfer |
| `EngineWait.WaitServices` | vivado/auboard-pcie/linux-kernel/xdma/libxdma.c:3592-3600 | the wait ends with the first service that settles the transfer, or with the last one |
| `EngineWait.AwaitTransfer` | vivado/auboard-pcie/linux-kernel/xdma/libxdma.c:3582-3663 | queue, wait and give up: refused, COMPLETED, FAILED, or aborted after a timeout, exactly as the engine decides |
| `EngineAccounting.ListRetiresPrefix` | vivado/auboard-pcie/linux-kernel/xdma/libxdma.c:852-881 | the list loop retires exactly the first k transfers when the count exceeds their total but not that of the first k + 1 |
| `EngineAccounting.PrefixAccounting` | vivado/auboard-pcie/linux-kernel/xdma/libxdma.c:852-1013 | without an error exactly the transfers up to the one the count stops on leave the queue: those before it COMPLETED, itself COMPLETED if its last descriptor is done and FAILED otherwise |
| `EngineAccounting.ErrorAccounting` | vivado/auboard-pcie/linux-kernel/xdma/libxdma.c:938-947 | with an error bit the transfer it stops on is FAILED whatever the count and the engine stops |
| `EngineAccounting.OvercountCompletesAll` | vivado/auboard-pcie/linux-kernel/xdma/libxdma.c:852-881 | a count beyond the whole queue completes every transfer |
| `EngineAccounting.StopsSomewhere` | vivado/auboard-pcie/linux-kernel/xdma/libxdma.c:852-881 | every count is one of these three cases |
| `EngineAccounting.ExactCountCompletesPrefix` | vivado/auboard-pcie/linux-kernel/xdma/libxdma.c:1182-1192 | when the reported count is exact for the first k transfers, engine_service completes exactly those, leaves the rest untouched, and the dequeued count equals the reported one before it resumes |
| `EngineAccounting.LoneTransferOutcome` | vivado/auboard-pcie/linux-kernel/xdma/libxdma.c:3582-3636 | a transfer submitted to an idle engine and serviced with a non-zero count is always retired, and its submitter finds it COMPLETED exactly when the count exceeds its descriptors or meets them without an error bit |
| `EngineAccounting.PolledRefinesInterrupt` | vivado/auboard-pcie/linux-kernel/xdma/libxdma.c:1121-1156 | servicing an error-free writeback leaves the engine as an interrupt service that reads the same count from an idle engine, if the stored status has no error bit |
| `EngineAccounting.ExactServiceOutcome` | vivado/auboard-pcie/linux-kernel/xdma/libxdma.c:938-1013 | the last transfer of an exact service is FAILED if and only if the status in force has an error bit |
| `EngineAccounting.PolledMatchesInterruptIff` | vivado/auboard-pcie/linux-kernel/xdma/libxdma.c:1121-1156 | for every count the two agree if and only if the stored status has no error bit, or the count goes beyond the queue, or the transfer stopped on has made no progress and another waits behind it |
| `ModeSearch.RangeNoOverflow` | vivado/ip_repo/zybo-hdmi/ip/axi_dynclk_v1_1/drivers/ddynclk_v1_0/src/ddynclk.c:296-302 | no product or sum of the range computation overflows 32 bits for a parent up to 1.2 GHz |
| `ModeSearch.RangeLimits` | vivado/ip_repo/zybo-hdmi/ip/axi_dynclk_v1_1/drivers/ddynclk_v1_0/src/ddynclk.c:294-306 | every pair tried keeps the VCO within 600 to 1200 MHz and the phase detector at 10 MHz or more, with divider 1 to 106 and feedback 2 to 64 |
| `ModeSearch.PairNoOverflow` | vivado/ip_repo/zybo-hdmi/ip/axi_dynclk_v1_1/drivers/ddynclk_v1_0/src/ddynclk.c:308-322 | no 32-bit operation on such a pair overflows and no divisor is zero |
| `ModeSearch.RoundingBound` | vivado/ip_repo/zybo-hdmi/ip/axi_dynclk_v1_1/drivers/ddynclk_v1_0/src/ddynclk.c:308-318 | the two-stage rounded output divider is within 0.532 of the exact quotient |
| `ModeSearch.VcoInWindow` | vivado/ip_repo/zybo-hdmi/ip/axi_dynclk_v1_1/drivers/ddynclk_v1_0/src/ddynclk.c:322 | the VCO frequency the code computes is in the window |
| `ModeSearch.UndividedIsClose` | vivado/ip_repo/zybo-hdmi/ip/axi_dynclk_v1_1/drivers/ddynclk_v1_0/src/ddynclk.c:317-322 | an output divider of 1 is only chosen when the VCO frequency is at most 1.532 times the target |
| `ModeSearch.EveryPairBeatsInitialBound` | vivado/ip_repo/zybo-hdmi/ip/axi_dynclk_v1_1/drivers/ddynclk_v1_0/src/ddynclk.c:322-328 | every pair tried has a non-zero frequency closer to the target than the initial error bound |
| `ModeSearch.FirstPairInRange` | vivado/ip_repo/zybo-hdmi/ip/axi_dynclk_v1_1/drivers/ddynclk_v1_0/src/ddynclk.c:294-306 | every parent from 10 MHz to 1.2 GHz has at least one pair to try |
| `ModeSearch.ConsiderPair` | vivado/ip_repo/zybo-hdmi/ip/axi_dynclk_v1_1/drivers/ddynclk_v1_0/src/ddynclk.c:327-333 | keeping the strictly better of the best mode and this pair keeps the earliest optimum so far |
| `ModeSearch.FeedbackRange` | vivado/ip_repo/zybo-hdmi/ip/axi_dynclk_v1_1/drivers/ddynclk_v1_0/src/ddynclk.c:301-306 | the clamped feedback bounds of one divider |
| `ModeSearch.TryPair` | vivado/ip_repo/zybo-hdmi/ip/axi_dynclk_v1_1/drivers/ddynclk_v1_0/src/ddynclk.c:317-336 | one feedback value extends the optimum by exactly that pair; an exact hit has error 0 |
| `ModeSearch.SearchFeedback` | vivado/ip_repo/zybo-hdmi/ip/axi_dynclk_v1_1/drivers/ddynclk_v1_0/src/ddynclk.c:301-338 | one divider extends it by the whole row, early exit included |
| `ModeSearch.SearchComplete` | vivado/ip_repo/zybo-hdmi/ip/axi_dynclk_v1_1/drivers/ddynclk_v1_0/src/ddynclk.c:300-340 | when the loops end, early or not, nothing in range is left unconsidered |
| `ModeSearch.FindMode` | vivado/ip_repo/zybo-hdmi/ip/axi_dynclk_v1_1/drivers/ddynclk_v1_0/src/ddynclk.c:269-341 | succeeds if and only if the parent is within 10 MHz to 1.2 GHz; then no pair in range is closer to the clamped target and none visited earlier is as close |
| `ModeSearch.PfdMaximumIff` | vivado/ip_repo/zybo-hdmi/ip/axi_dynclk_v1_1/drivers/ddynclk_v1_0/src/ddynclk.c:294-295 | all pairs tried respect the 450 MHz phase-detector maximum if and only if the parent is at most 900 MHz |
| `ModeSearch.PfdMaximumExceeded` | vivado/ip_repo/zybo-hdmi/ip/axi_dynclk_v1_1/drivers/ddynclk_v1_0/src/ddynclk.c:294-295 | the excess reaches the result: a 1 GHz parent asked for 500 MHz gets divider 2 |
| `DynClk.DividerRoundTrip` | vivado/ip_repo/zybo-hdmi/ip/axi_dynclk_v1_1/drivers/ddynclk_v1_0/src/ddynclk.c:187-211 | every divider from 1 to 128 survives the register encoding and is never taken for an error |
| `DynClk.CountRoundTrip` | vivado/ip_repo/zybo-hdmi/ip/axi_dynclk_v1_1/drivers/ddynclk_v1_0/src/ddynclk.c:213-224 | the same for the count encoding |
| `DynClk.EdgeIsParity` | vivado/ip_repo/zybo-hdmi/ip/axi_dynclk_v1_1/drivers/ddynclk_v1_0/src/ddynclk.c:199-206 | the edge flag is set exactly for odd dividers |
| `DynClk.CountDecodes` | vivado/ip_repo/zybo-hdmi/ip/axi_dynclk_v1_1/drivers/ddynclk_v1_0/src/ddynclk.c:213-224 | the count encoding fails exactly outside 1 to 128 and decodes to its argument inside |
| `DynClk.DividerDecodes` | vivado/ip_repo/zybo-hdmi/ip/axi_dynclk_v1_1/drivers/ddynclk_v1_0/src/ddynclk.c:187-211 | the same for the divider encoding |
| `DynClk.FindReg` | vivado/ip_repo/zybo-hdmi/ip/axi_dynclk_v1_1/drivers/ddynclk_v1_0/src/ddynclk.c:227-256 | fails exactly outside the field ranges; otherwise the registers decode to the dividers of the mode |
| `DynClk.OptimalModeFits` | vivado/ip_repo/zybo-hdmi/ip/axi_dynclk_v1_1/drivers/ddynclk_v1_0/src/ddynclk.c:380-388 | no mode the search returns can fail there |
| `DynClk.FreqFits` | vivado/ip_repo/zybo-hdmi/ip/axi_dynclk_v1_1/drivers/ddynclk_v1_0/src/ddynclk.c:389 | the recorded frequency in Hz does not overflow and is not zero |
| `DynClk.Instance.Enable` | vivado/ip_repo/zybo-hdmi/ip/axi_dynclk_v1_1/drivers/ddynclk_v1_0/src/ddynclk.c:343-355 | runs the clock if the instance is ready and has a frequency |
| `DynClk.Instance.Disable` | vivado/ip_repo/zybo-hdmi/ip/axi_dynclk_v1_1/drivers/ddynclk_v1_0/src/ddynclk.c:357-360 | stops the clock |
| `DynClk.Instance.SetRate` | vivado/ip_repo/zybo-hdmi/ip/axi_dynclk_v1_1/drivers/ddynclk_v1_0/src/ddynclk.c:362-394 | exactly when it fails, and that failing or repeating the current rate changes nothing; otherwise the registers decode to a mode closest to five times the rate and the recorded frequency is what it delivers |
| `UserBuffer.PieceCountIsPageCount` | vivado/auboard-pcie/linux-kernel/xdma/cdev_sgdma.c:301-303 | the computed page count is the number of pages the buffer touches, except that an empty buffer off a page start counts as one page |
| `UserBuffer.PagePiecesTile` | vivado/auboard-pcie/linux-kernel/xdma/cdev_sgdma.c:349-360 | the page pieces are non-empty, one in each page touched, in order, and are exactly the bytes of the buffer |
| `UserBuffer.FillTable` | vivado/auboard-pcie/linux-kernel/xdma/cdev_sgdma.c:349-366 | entry k gets the page, offset and length of the k-th piece, or no bytes for an empty buffer; a length is left over exactly for buffers of 4 GiB or more |
| `UserBuffer.MapUserBuf` | vivado/auboard-pcie/linux-kernel/xdma/cdev_sgdma.c:295-373 | succeeds if and only if allocation and pinning did, the length is below 4 GiB and the 32-bit page count is not zero; then the table covers the buffer |
| `UserBuffer.CutEntryInPhase` | vivado/auboard-pcie/linux-kernel/xdma/libxdma.c:3128-3139 | cutting an entry keeps every piece at the right address modulo any alignment |
| `UserBuffer.SplitInPhase` | vivado/auboard-pcie/linux-kernel/xdma/libxdma.c:3123-3140 | the same for the whole list |
| `UserBuffer.PagePieceStarts` | vivado/auboard-pcie/linux-kernel/xdma/cdev_sgdma.c:349-360 | piece i starts where the pieces before it end |
| `UserBuffer.MappedInPhase` | vivado/auboard-pcie/linux-kernel/xdma/cdev_sgdma.c:349-360 | a mapping that keeps in-page offsets keeps every entry in phase with the buffer modulo the page size |
| `UserBuffer.LowBitsAreRemainder` | vivado/auboard-pcie/linux-kernel/xdma/cdev_sgdma.c:240-241 | the masked low bits are the remainder for power-of-two alignments up to a page |
| `UserBuffer.CheckAcceptsIff` | vivado/auboard-pcie/linux-kernel/xdma/cdev_sgdma.c:239-248 | in incremental mode the check accepts if and only if buffer and position agree modulo the alignment |
| `UserBuffer.CheckedTransferIsAligned` | vivado/auboard-pcie/linux-kernel/xdma/cdev_sgdma.c:203-251 | one accepted check covers every descriptor of every transfer: host and device address agree modulo the alignment wherever the buffer is cut |
| `ReadWrite.PlacedBytes` | vivado/auboard-pcie/linux-kernel/xdma/cdev_sgdma.c:349-360 | byte b of the table's pages on the bus is at the address of its page plus its offset in it |
| `ReadWrite.MappedBytes` | vivado/auboard-pcie/linux-kernel/xdma/cdev_sgdma.c:349-360 | byte b of a mapped list is byte b of the user buffer, wherever entries were merged |
| `ReadWrite.FirstMovesUser` | vivado/auboard-pcie/linux-kernel/xdma/cdev_sgdma.c:416-418 | moving a prefix of the mapped list moves that prefix of the user buffer |
| `ReadWrite.ReportedReturnsAll` | vivado/auboard-pcie/linux-kernel/xdma/libxdma.c:3549-3694 | on an idle engine that reports every transfer the whole list completes |
| `ReadWrite.CharSgdmaReadWrite` | vivado/auboard-pcie/linux-kernel/xdma/cdev_sgdma.c:375-424 | every exit; otherwise the completed rounds move exactly a prefix of the user buffer, byte b to or from pos + b, or pos in non-incremental mode, and the result is its length; an idle engine that reports every transfer returns count |
| `Bits.MaskIsModIff` | vivado/auboard-pcie/linux-kernel/xdma/libxdma.c:3270 | masking by aperture - 1 finds every position in the window, whatever the offset, if and only if the aperture is a power of two |
| `Xvc.WordOfBits` | vivado/auboard-pcie/linux-kernel/xdma/cdev_xvc.c:189-190 | the word copied from the buffer has the buffer's bits, least significant first |
| `Xvc.BytesOfBits` | vivado/auboard-pcie/linux-kernel/xdma/cdev_xvc.c:197 | the bytes copied back have the word's bits |
| `Xvc.SerialConcat` | vivado/auboard-pcie/linux-kernel/xdma/cdev_xvc.c:175-198 | shifting two chunks one after the other is one serial shift of both |
| `Xvc.XvcBar.Shift` | vivado/auboard-pcie/linux-kernel/xdma/cdev_xvc.c:64-69 | assumed of the hardware: a write to the control register shifts the number of bits in the length register; TDO bits beyond them are arbitrary |
| `Xvc.ShiftBits` | vivado/auboard-pcie/linux-kernel/xdma/cdev_xvc.c:58-91 | times out exactly when the register stays busy for all polls; otherwise one shift of the current length |
| `Xvc.ChunkBits` | vivado/auboard-pcie/linux-kernel/xdma/cdev_xvc.c:189-190 | a partial word carries exactly the next n bits of the buffer |
| `Xvc.ChunkOut` | vivado/auboard-pcie/linux-kernel/xdma/cdev_xvc.c:197 | the stored bytes extend the output by exactly the n bits shifted |
| `Xvc.ShiftOneMore` | vivado/auboard-pcie/linux-kernel/xdma/cdev_xvc.c:175-198 | a chunk more of the bit-serial shift |
| `Xvc.ShiftWord` | vivado/auboard-pcie/linux-kernel/xdma/cdev_xvc.c:175-198 | one round: the length register equals the chunk size when the shift starts, slices stay inside the buffers, and the output grows by the chunk |
| `Xvc.ShiftAll` | vivado/auboard-pcie/linux-kernel/xdma/cdev_xvc.c:168-198 | for every length up to 2^32 - 32 bits the loop equals one serial shift, or times out exactly when some word does |
| `Xvc.XvcIoctl` | vivado/auboard-pcie/linux-kernel/xdma/cdev_xvc.c:128-213 | every exit; on success the target state is that of one serial shift of all bits and the returned buffer holds its TDO bits, or the TDI buffer for opcode 2 |
| `Framing.FrameAgain` | vitis/zedboard-cls-daq/src/echo.c:181-298 | framing may stop anywhere and go on from the remainder |
| `Framing.CopyStaysInsideIff` | vitis/zedboard-cls-daq/src/echo.c:168-173 | copying a segment stays inside the buffer if and only if it has at most 1024 bytes, whatever is pending |
| `Framing.EthernetSegmentOverruns` | vitis/zedboard-cls-daq/src/echo.c:168-173 | a full-sized Ethernet segment of 1460 bytes overruns even an empty buffer |
| `Framing.FaithfulIff` | vitis/zedboard-cls-daq/src/echo.c:168-187 | a segment is framed as the continuation of the stream if and only if nothing is pending and it fits the buffer, or it and what is pending stay below 1024 bytes |
| `Framing.FramingIgnoresSegmentation` | vitis/zedboard-cls-daq/src/echo.c:168-298 | for every cut of the stream into segments of at most 1000 bytes the dispatched messages are its consecutive 24-byte blocks and the remainder, under 24 bytes, is kept |
| `Framing.SegmentLimitIff` | vitis/zedboard-cls-daq/src/echo.c:168-171 | 1000 bytes is the exact limit |
| `Framing.LeftoverIff` | vitis/zedboard-cls-daq/src/echo.c:315-345 | a new stream is framed correctly, whatever it is, if and only if nothing is left over |
| `Framing.EchoServer.Append` | vitis/zedboard-cls-daq/src/echo.c:173-174 | the segment is copied behind the pending bytes, which stay |
| `Framing.EchoServer.DispatchAll` | vitis/zedboard-cls-daq/src/echo.c:181-298 | the shifting loop dispatches the messages in order and keeps the remainder |
| `Framing.EchoServer.RecvCallback` | vitis/zedboard-cls-daq/src/echo.c:154-313 | overruns the buffer exactly for segments above 1024 bytes; otherwise does what the value function says |
| `Framing.EchoServer.Closed` | vitis/zedboard-cls-daq/src/echo.c:158-166 | a closed connection leaves an empty buffer |
| `Framing.EchoServer.Aborted` | vitis/zedboard-cls-daq/src/echo.c:315-318 | an aborted one leaves its bytes behind |
| `Framing.EchoServer.Accept` | vitis/zedboard-cls-daq/src/echo.c:320-345 | one client at a time; the buffer is not cleared |

## Left out

- PCI probing, BAR mapping, interrupts, character devices and module init: library plumbing.
- Real locks, wait queues and threads: each lock-held section is one atomic step; the writeback polling loop and its thread only call `engine_service`.
- NULL and magic-number checks of handles, and the two channel arrays.
- Streaming C2H results, `eop_flush`, credit mode, cyclic and performance transfers: `engine_service` is modelled without them.
- Failing allocations of requests; `UserBuffer.MapUserBuf` has those of the page table. A register dump that fails before a timeout's abort.
- Completion of asynchronous requests and the lifetime of its request object; services interleaved between two iterations of the asynchronous loop are steps of `EngineRuns` only.
- `struct xdma_engine` is two classes here, the queue (`Xdma.XdmaEngine`) and the ring (`Transfers.DescRing`), and `struct xdma_transfer` is an object on the queue and a value in the ring.
- Bus addresses of host memory are unbounded numbers, as a valid mapping keeps them in range.
- Command parsing, replies, GPIO and SPI in the server; chained network buffers; page pinning and unmapping; byte order; debug dumps.
- Requests.XdmaInitRequest: after a write past the block the model says nothing; sizeof(struct xdma_request_cb) is taken as 336, its value on a 64-bit kernel without lock debugging; the entry count is below 2^31.
- Requests.AllocationSufficesIff: non-empty entries, as a mapping yields; empty ones ask for slots they do not need.
- Submit.XdmaXferSubmit: a list below 4 GiB, beyond which its 32-bit lengths wrap; `UserBuffer.MapUserBuf` builds no longer one. What a failed or timed-out transfer moved before it ended is not modelled.
- SubmitNowait.XdmaXferSubmitNowait: the same; after a write past `tfer` the model says nothing.
- ApertureRuns.WholeCallIff: the direction that says a call goes wrong needs non-empty entries that do not overlap on the bus; the other holds for any list (`ApertureRuns.RightCall`). Both are for windows that meet the condition of `Aperture.StepAgreesIff`; for others only the outcome of the passes is stated (`ApertureTransfer.XdmaXferAperture`).
- ApertureTransfer.XdmaXferAperture: the same list below 4 GiB; where the bytes go is stated for windows that meet `Aperture.StepAgreesIff`, the outcome of the passes for all; since wrong calls and an aperture of zero may never end, it runs for as many rounds as hardware inputs are given.
- RingOccupancy.SharedDescriptorsIff: runs without refused transfers, for which the condition is only sufficient (`RingOccupancy.RefusalsOvercount`).
- RingOccupancy.WithinALapDisjoint: releases oldest first.
- DynClk.FindReg: without the lock and filter words, which are looked up in tables of constants.
- DynClk.Instance.Enable: without the endless wait for lock.
- UserBuffer.CheckedTransferIsAligned: incremental mode, a power-of-two alignment up to the page size, and a mapping that keeps in-page offsets.
- ReadWrite.CharSgdmaReadWrite: the same buffers; the error number of a table that cannot be built is only known to be negative; unmapping the buffer is left out.
- UserBuffer.MapUserBuf: the buffer ends at least a page below 2^64.
- Xvc.XvcIoctl: at most 2^32 - 32 bits, beyond which the loop counter wraps; failing copies to and from user memory and the buffer allocation are left out.
- Framing.EchoServer.RecvCallback: after a write past the buffer the model says nothing.
- Framing.FramingIgnoresSegmentation: segments of at most 1000 bytes, which is the exact limit (`Framing.SegmentLimitIff`).
