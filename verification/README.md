# A verified model of the NUPA network driver

The driver passes Ethernet frames between two hosts. A frame goes through a ring of 64 packet
descriptors in memory shared by the two machines, and its bytes are moved by a Xilinx XDMA
scatter-gather engine. This project models the parts whose correctness is not visible in any one
function, and proves what they are for. `dafny verify dfyconfig.toml` checks all of it.

| file | what it holds |
|---|---|
| `PacketRing.dfy`, `SharedInfo.dfy` | the cross-host ring: every shared read and write a step of its own, and the driver's functions as runs of those steps |
| `Bits.dfy`, `Descriptor.dfy` | packed descriptor words, masks, hi/lo addresses, adjacent counts |
| `Hardware.dfy`, `Chain.dfy` | the engine's plain and prefetching walks of a descriptor chain, the bytes they move, and the chain the driver lays out |
| `Request.dfy`, `Carve.dfy`, `Transfer.dfy` | splitting a scatter list, carving windows from the descriptor ring, and the passes that write a chain in place |
| `EngineModel.dfy`, `Engine.dfy`, `SyncDriver.dfy` | the engine as a state machine over its critical sections, the object that implements it, and many submitters sharing it |
| `Wait.dfy`, `Submit.dfy`, `NoWait.dfy` | one turn of a submitter (queue, wait, look, abort), the synchronous submit call, and the no-wait splitting loop |
| `TurnRuns.dfy` | a submit call as a run of the shared driver |
| `Pieces.dfy`, `ApertureCall.dfy`, `Aperture.dfy` | the aperture call: cutting and filling on values and exactly when it takes the right bytes, its chains and a whole call, and its code |
| `TransferData.dfy`, `Payload.dfy` | cutting a buffer at page boundaries and submitting it, and what that does to memory |
| `ThreadPool.dfy` | spreading engines over completion threads |

The main results: no slot is ever shared by the two hosts, and frames arrive complete and in order
(`PacketRing.NeverHandedOver`, `PacketRing.DeliveredInOrder`, `PacketRing.FrameArrives`); splitting, carving, linking and walking a scatter
list amounts to one byte copy (`Carve.ScatterListIsCopied`, `Chain.PrefetchChain`); a whole submit call, with the
hardware walking what the call has put into the ring, moves exactly the bytes it reports, all of them exactly when
every part succeeds (`Submit.CallLaw`, `Wait.TakeLaw`, `Submit.XferSubmit`); the engine queue never holds a freed transfer (`SyncDriver.QueueIsSafe`); and the aperture call
takes the right bytes exactly when all its transfers but the last end in the first scatter entry
(`Aperture.CallIsRightExactlyWhen`).

The calls are stated on values: `Submit.Submitted` and `ApertureCall.Apertured` say, for a ring, an engine and the
behaviour of the other threads in each turn, what the ring holds at the end, what the hardware has moved when it
was started with the register values written for each chain, and how the call ends. The methods are proved to
leave ring, engine and result exactly so.

## Assumptions

- Shared memory is sequentially consistent, and the ring has been initialised before the producer's
  first step. The code sets `ready` before it numbers the slots (src/nupanet_main.c:345-351), so it does
  not enforce the second by itself.
- The byte-budget test of `fetch_packet_desc` reads a local that is never initialised
  (src/nupanet_main.c:288-305); its outcome is an arbitrary refusal. `info->total_len` is not kept.
- Each critical section under the engine lock is one atomic step. Register reads are inputs of the steps.
- A memory-mapped engine; `eop_flush`, cyclic transfers and performance runs are off, as in the code.
- `desc_blen_max` is at least 1, total lengths stay below 2^32, addresses do not wrap at 2^64, and the
  descriptor ring is page aligned.
- The spin at src/libxdma.c:3607 waits while the state is NEW, not SUBMITTED; the submitter may therefore see
  any state, and no claim is made that the call blocks until completion.

## Where the code falls short of what one would expect

Each is stated with its exact condition; where a run is needed to get there, one is given.

- `Descriptor.AdjacentDecodes`, `Descriptor.StaleCountSurvives`: the mask 0xf0ff leaves two bits of a stale count
  (src/libxdma.c:2337); the count decodes exactly when those bits were among the new count's. Fresh
  initialisation avoids it.
- `EngineModel.StaleDequeued`, `EngineModel.StaleHappens`: a service step that sees BUSY with no write-back count can
  leave the engine running with a non-zero `desc_dequeued`. `EngineModel.WrapCompletesAll`, `EngineModel.WrapHappens`: with a
  smaller count the next subtraction wraps, and every queued transfer is marked COMPLETED.
- `SyncDriver.JudgeEmptiesQueue`, `SyncDriver.BadIdentifierLeavesFreedTransfer`: leaving the wait early while the
  identifier register does not read back leaves the transfer queued when its request is freed.
- `NoWait.PastTheArrayExactlyWhen`, `NoWait.WindowsCoexist`, `NoWait.FreedWhileQueued`, `NoWait.OfflineBetweenTurns`: the
  no-wait path has two transfer objects, enough exactly when k <= 2N - s; its two chains are in disjoint windows
  exactly when k <= N; and a request refused at its second part is freed while its first is still queued.
- `Pieces.RightExactlyWhen`, `Aperture.CallIsRightExactlyWhen`: `req->sg` is never moved on (src/libxdma.c:3233), so a
  transfer whose cursor is past the first scatter entry takes the wrong bytes. It copies the first entry again
  (`Pieces.RestartsAtFirst`), starts past the end of it after an unsigned subtraction has wrapped
  (`Pieces.StartsPastFirst`), or takes nothing, and the link loop runs off the ring (`Pieces.TakesNothing`).
- `ThreadPool.LeastExactlyWhen`, `ThreadPool.NotLeastAfterRemovals`: the running minimum of the thread scan is never
  updated; from all-zero counts this does no harm, after removals it can.

## Model

| member | source | states |
|---|---|---|
| `PacketRing.InitInv` | src/nupanet_main.c:324-352 | the ring as initialised satisfies the invariant of the protocol |
| `PacketRing.OneSlotGap` | src/nupanet_main.c:303-309 | if the full test passes against any earlier value of tail, the new slot and the slot still being read both fit |
| `PacketRing.StepKeepsInv` | src/nupanet_main.c:113-316 | every single shared read, write and DMA step of either side keeps the invariant, stale local copies included |
| `PacketRing.ConsumerReleases` | src/nupanet_main.c:550-556 | writing RELEASED after tail has moved on touches no slot that is in use |
| `PacketRing.ProducerFills` | src/nupanet_main.c:308-312 | writing FREEZING and the length before head moves disturbs no waiting frame and not the one being read |
| `PacketRing.NeverHandedOver` | src/nupanet_main.c:113-151 | in every run the slot the consumer reads or is about to release is not the one handed to the producer |
| `PacketRing.DeliveredInOrder` | src/nupanet_main.c:418-430 | in every run the descriptors taken are a prefix of those settled; lengths agree, and bytes too where the DMA moved all of them |
| `PacketRing.BetweenTailAndHead` | src/nupanet_main.c:129-151 | in every run the slots from tail to head are FREEZING or SETTLED, so the INIT/RELEASED branch is dead |
| `PacketRing.ConsumerTakes` | src/nupanet_main.c:129-151 | in every reachable state with the consumer idle and a settled frame waiting, five of its steps take that frame and change nothing else |
| `PacketRing.ConsumerDelivers` | src/nupanet_main.c:542-556 | and the rest of its turn delivers it, with its length and, if all of it had been moved, its bytes |
| `PacketRing.ProducerDeposits` | src/nupanet_main.c:303-316 | in every reachable state with the producer idle and room, a frame not refused is published, wholly moved and settled |
| `PacketRing.FrameArrives` | src/nupanet_main.c:418-430 | a frame deposited into an idle ring and taken from it is the frame sent |
| `SharedInfo.PacketsInfo.AdapterInfoInit` | src/nupanet_main.c:324-352 | the initialisation loop numbers the slots, all INIT, and yields the protocol's initial state |
| `SharedInfo.PacketsInfo.FetchPacketDesc` | src/nupanet_main.c:278-322 | hands out the slot at head exactly if ready, not refused and not full, with status, length and offset written and head moved; the function run alone is eight steps of the protocol |
| `SharedInfo.PacketsInfo.SettleDesc` | src/nupanet_main.c:426-430 | the slot and no other is SETTLED, which is the protocol's settling step |
| `SharedInfo.PacketsInfo.DataAvailable` | src/nupanet_main.c:113-152 | nothing if head is tail or the slot is INIT or RELEASED, a spin if it is FREEZING, and if it is SETTLED the slot, with tail moved on; these are the consumer's steps |
| `SharedInfo.PacketsInfo.ReleaseDesc` | src/nupanet_main.c:544-550 | the slot and no other is RELEASED, which is the protocol's releasing step |
| `Descriptor.JoinSplit` | src/libxdma.h:224-226 | the hi and lo words of any 64-bit address read back as the address |
| `Descriptor.AdjacentDecodes` | src/libxdma.c:2334-2342 | the count read back is the count written if and only if the stale bits the mask keeps are among its bits |
| `Descriptor.StaleCountSurvives` | src/libxdma.c:2334-2342 | writing 0 over a count of 16 does not read back 0 |
| `Descriptor.FreshWord` | src/libxdma.c:2334-2342 | on a freshly initialised word the count lands in its field and nothing else changes |
| `Descriptor.FreshControl` | src/libxdma.c:2345-2359 | setting the last descriptor's control byte on a fresh word succeeds and keeps the magic |
| `Descriptor.ControlSet` | src/libxdma.c:2345-2359 | on any word a field wider than a byte is refused, and any other replaces the low byte alone |
| `Descriptor.DecodeWord` | src/libxdma.c:2334-2359 | magic, count and control byte read back separately |
| `Descriptor.NextAdjMeaning` | src/libxdma.c:650-666 | the count is the descriptors left, cut at the next 2 KB boundary, at most 63 |
| `Request.SplitMeaning` | src/libxdma.c:3130-3147 | the split keeps every byte and its order, makes only pieces of 1 to desc_blen_max bytes, and fits the slots counted |
| `Request.SplitEntryMeaning` | src/libxdma.c:3134-3146 | the same for one entry, with the exact number of pieces |
| `Request.CountSlots` | src/libxdma.c:3113-3122 | the counting loop gives one slot an entry plus the rounded-up quotient for each long one |
| `Request.FillEntry` | src/libxdma.c:3134-3146 | the inner loop appends exactly the pieces of the entry |
| `Request.InitRequest` | src/libxdma.c:3104-3160 | the request holds the split list inside its allocation, so the late overflow test is dead; total length is the list's |
| `Hardware.ToDeviceEffect` | src/libxdma.c:2384-2404 | a copy to the device makes the endpoint range the concatenated scatter bytes and changes nothing else |
| `Hardware.FromDeviceEffect` | src/libxdma.c:2384-2404 | a copy from the device gives every scatter byte its endpoint byte and changes nothing else |
| `Chain.ControlDecodes` | src/libxdma.c:3014-3041 | every control word decodes to magic, own count (at most 63) and own control byte; STOPPED on the last only |
| `Chain.VisitChain` | src/libxdma.c:2265-2291 | following the link words visits the window in order and stops at its end |
| `Chain.ChainCopies` | src/libxdma.c:2930-2966 | the first n descriptors copy the bytes of the first n pieces |
| `Chain.WalkIsCopy` | src/libxdma.c:2969-3045 | the walk of a whole chain is one copy between its pieces and the endpoint, fixed or advancing |
| `Chain.PrefetchChain` | src/libxdma.c:3034-3041 | the prefetching walk visits the same descriptors as the plain one, never leaves the chain and never crosses a 2 KB block |
| `Chain.RegistersRunChain` | src/libxdma.c:733-755 | started with the register values written for a chain, the engine moves the bytes of exactly the chain's descriptors |
| `Chain.BlockFits` | src/libxdma.c:746-755 | the block announced by a count lies in the chain and in one 2 KB block |
| `Carve.WindowIs` | src/libxdma.c:2972-3004 | a window takes the descriptors wanted or those up to the ring's end, and where the next one starts |
| `Carve.PartsLaw` | src/libxdma.c:2972-3032 | the parts of a request sum to it, and their number is 1 or 1 plus the rounded-up quotient of the rest |
| `Carve.LastInRequest` | src/libxdma.c:3575-3580 | last_in_request is set on the final transfer and no other |
| `Carve.TwoSlotsSuffice` | src/libxdma.c:3926-3986 | two transfer objects are enough if and only if k <= 2N - s |
| `Carve.WindowsFit` | src/libxdma.c:2993-3032 | over any sequence of calls no window wraps or leaves the ring |
| `Carve.WindowsDisjoint` | src/libxdma.c:2993-3032 | two windows are disjoint if the descriptors carved from the first to the second total at most N |
| `Carve.RequestIsCopy` | src/libxdma.c:2969-3045 | for every ring, start index and list of pieces, walking all chains of a request is one copy |
| `Carve.ScatterListIsCopied` | src/libxdma.c:3104-3160 | the same from the scatter list itself: splitting, carving, linking and walking is one copy |
| `Transfer.TransferDescInit` | src/libxdma.c:2265-2291 | the loop links exactly the window and leaves the rest of the ring alone |
| `Transfer.TransferBuild` | src/libxdma.c:2930-2966 | one piece a descriptor, endpoint address and length advanced by what was filled in |
| `Transfer.FillAdjacent` | src/libxdma.c:3034-3041 | the loop rewrites every count of the window from its own link word |
| `Transfer.PassesMakeChain` | src/libxdma.c:3006-3041 | the four passes over a descriptor give the chain's descriptor whatever was there before |
| `Transfer.BuildChain` | src/libxdma.c:3006-3041 | the ring becomes the old ring with the chain laid over the window |
| `Engine.XdmaEngine.TransferInit` | src/libxdma.c:2969-3045 | carves the window, lays out the chain for the next pieces, advances index, use count and request |
| `Engine.XdmaEngine.EngineStart` | src/libxdma.c:684-779 | starts the first transfer with the registers a prefetching walk of it needs, or does nothing |
| `Engine.XdmaEngine.TransferQueue` | src/libxdma.c:2453-2530 | accepts at the tail and starts an idle engine, or refuses a void transfer or one during shutdown |
| `Engine.XdmaEngine.AbortInFlight` | src/libxdma.c:2409-2444 | unlinks the transfer if it is first, marks it ABORTED, stops the engine; nothing if the identifier does not read back |
| `Engine.XdmaEngine.ServiceTransferList` | src/libxdma.c:830-887 | the loop retires the prefix the value-level function says, marks it COMPLETED and counts it |
| `Engine.XdmaEngine.ServiceFinalTransfer` | src/libxdma.c:919-1025 | retires one more as FAILED or COMPLETED; the WARN_ON holds |
| `Engine.XdmaEngine.ServiceResume` | src/libxdma.c:1058-1092 | restarts a stopped engine with the registers of the first transfer left, or goes idle or stops with the registers untouched |
| `Engine.XdmaEngine.RetireCompleted` | src/libxdma.c:1186-1196 | the two retiring calls together are the value-level retirement, object by object |
| `Engine.XdmaEngine.EngineService` | src/libxdma.c:1102-1205 | the whole function is one service step of the state machine; if it starts the hardware again, the registers are those of the first transfer left, and untouched otherwise |
| `Engine.XdmaEngine.Poll` | src/libxdma.c:1125-1163 | reads the status if there is no write-back count or an error bit, stops the engine if not BUSY or given a count, and gives the count to work with |
| `Engine.StartRunsChain` | src/libxdma.c:731-755 | with a transfer's chain in the ring, starting the hardware with its registers moves the bytes of exactly that chain |
| `EngineModel.ErrorMeans` | src/libxdma.h:117-174 | the error test of either direction, bit by bit |
| `EngineModel.ReadingsMean` | src/libxdma.c:1106-1170 | the count is the low 24 bits of the write-back word if not zero, else the register; the status is read again without a count or with bit 31 |
| `EngineModel.RestartExactlyWhen` | src/libxdma.c:1058-1092 | exactly when a service step starts the hardware again, in terms of the readings |
| `EngineModel.ServiceStopped` | src/libxdma.c:1115-1123 | on a stopped engine a service step retires and starts nothing |
| `EngineModel.RetireListMeaning` | src/libxdma.c:851-884 | which transfers the retiring loop passes, and what is left of the count |
| `EngineModel.NoWarning` | src/libxdma.c:998-1004 | the WARN_ON is never hit, whatever was counted as dequeued |
| `EngineModel.RetireMeaning` | src/libxdma.c:1186-1196 | whatever is counted as dequeued, the count left over modulo 2^32 retires the shortest prefix that reaches it, in which states |
| `EngineModel.RetireConserves` | src/libxdma.c:919-1025 | without an error the descriptors recorded as completed add up to the count, and all retired ones are counted as dequeued |
| `EngineModel.ServiceRetires` | src/libxdma.c:1102-1205 | for a whole service step, on its readings: the shortest prefix, all but the last COMPLETED, the last exactly if its end is the count and the status it goes by has no error bit, or the queue fell short; completed descriptors add up to the count |
| `EngineModel.ServiceRunning` | src/libxdma.c:1058-1092 | a service step with a non-zero count leaves the engine running exactly if the queue is non-empty |
| `EngineModel.QuietService` | src/libxdma.c:1142-1203 | a step that finds the engine not BUSY, or has a write-back count, leaves nothing counted as dequeued on a running engine |
| `EngineModel.StaleDequeued` | src/libxdma.c:1142-1203 | exactly when a step leaves a running engine with a stale dequeued count |
| `EngineModel.StaleHappens` | src/libxdma.c:1142-1203 | a run of two transfers and a BUSY service step from the initial state leaves such a count |
| `EngineModel.WrapCompletesAll` | src/libxdma.c:1186-1196 | for a count below a stale one, exactly when the wrapped subtraction marks every queued transfer COMPLETED |
| `EngineModel.WrapHappens` | src/libxdma.c:1186-1196 | after that run a report of one descriptor marks the second transfer COMPLETED |
| `EngineModel.RetireOne` | src/libxdma.c:830-1025 | a lone transfer is COMPLETED exactly if more descriptors than it has are reported, or as many and no error bit |
| `EngineModel.InvStep` | src/libxdma.c:1058-1092 | every critical section keeps: shutdown requested means not running, running means a non-empty queue, IDLE never set |
| `EngineModel.ReachableIsSafe` | src/libxdma.c:1080-1083 | those hold in every reachable state, so the step that sets ENGINE_SHUTDOWN_IDLE is unreachable |
| `EngineModel.NoStartWhileOffline` | src/libxdma.c:2497-2502 | nothing starts between offline and online, although starting clears the shutdown field |
| `EngineModel.OnlineAccepts` | src/libxdma.c:4661-4692 | while offline every transfer is refused; after going online again one is accepted at the end of the queue and the engine started |
| `EngineModel.DequeuedAlwaysZero` | src/libxdma.c:728-729 | if every service step is quiet, a running engine always enters service with nothing dequeued |
| `SyncDriver.StepKeepsInv` | src/libxdma.c:3560-3700 | every step of submitters, service, offline and online keeps the queue owned by the lock holder |
| `SyncDriver.JudgeEmptiesQueue` | src/libxdma.c:3609-3672 | when the submitter looks, early or not, the queue is empty afterwards exactly if the identifier reads back or the transfer was retired |
| `SyncDriver.QueueIsSafe` | src/libxdma.c:3560-3700 | over every interleaving at most one transfer is queued, none while desc_lock is free, none of a freed request |
| `SyncDriver.BadIdentifierLeavesFreedTransfer` | src/libxdma.c:3645-3650 | a run in which the identifier does not read back frees a request whose transfer is queued |
| `Wait.VerdictLaw` | src/libxdma.c:1102-1205 | what a transfer's state comes to: COMPLETED, FAILED or SUBMITTED exactly as the first service step that finds descriptors done, on a running engine, finds all or not, or does not come |
| `Wait.TakeLaw` | src/libxdma.c:3588-3672 | a turn on an empty queue: refused exactly if seen offline or shutting down, and then nothing changed; otherwise seen COMPLETED, FAILED or SUBMITTED exactly by the events of the turn; the queue is empty again exactly unless left early without the identifier |
| `Wait.Await` | src/libxdma.c:3597-3672 | waiting while any critical sections of other threads run, then the look and the abort, is the turn on values |
| `Wait.TakeTurn` | src/libxdma.c:3588-3672 | the same from `transfer_queue` on, and the registers then start the hardware on the transfer's chain |
| `Submit.LaidMoves` | src/libxdma.c:2969-3045 | started on a chain just laid out, the prefetching hardware copies its pieces |
| `Submit.SubmittedMoves` | src/libxdma.c:3560-3687 | for every ring, list and behaviour of others, the walks of what lies in the ring move a prefix of one copy, as long as the bytes reported |
| `Submit.SubmittedQueue` | src/libxdma.c:3560-3687 | the call leaves the queue empty exactly unless it was left early with the identifier not reading back |
| `Submit.SubmittedAll` | src/libxdma.c:3560-3687 | nothing ends the call early exactly if every part succeeds |
| `Submit.SubmittedAnswers` | src/libxdma.c:3609-3703 | the answer is the bytes moved if any; else -EBUSY, -EIO, -ERESTARTSYS or 0 exactly as the first part was refused, failed, left undecided, or there was none |
| `Submit.CallLaw` | src/libxdma.c:3543-3703 | from the scatter list: the bytes of the leading COMPLETED transfers are moved in order, all exactly if every part succeeds; the answer; the queue |
| `Submit.TransferDestroy` | src/libxdma.c:2909-2928 | zeroes the window's descriptors and no others, unmaps after the last transfer of a request if still mapped |
| `Submit.NextTransfer` | src/libxdma.c:3564-3580 | builds the next transfer and marks the last of the request |
| `Submit.FinishTurn` | src/libxdma.c:3588-3682 | queue, wait, look, destroy: engine, ring, result, use count and unmapping by the turn's outcome |
| `Submit.SubmitOne` | src/libxdma.c:3560-3682 | one turn of the loop: the chain laid out, started, judged and cleared or left, all as on values |
| `Submit.SubmitLoop` | src/libxdma.c:3560-3687 | ring, index, engine, result, use count and the bytes the hardware moved are those of the loop on values |
| `Submit.SubmitMapped` | src/libxdma.c:3543-3703 | the same from the mapped list, with the unmapping |
| `Submit.XferSubmit` | src/libxdma.c:3513-3703 | every exit: ring, engine and moved bytes as on values; the answer told from the turns; one unmap after a successful map; desc_used restored, or raised by exactly the refused transfer; the queue empty unless the identifier did not read back |
| `TurnRuns.TurnIsRun` | src/libxdma.c:3588-3672 | a turn of the submit code is a run of the shared driver: queueing, the others one by one, the look |
| `TurnRuns.SubmitIsRun` | src/libxdma.c:3558-3687 | a whole call, from taking desc_lock to freeing the request, is a run of the driver with the engine of its turns |
| `TurnRuns.SubmittedTurns` | src/libxdma.c:3560-3687 | the engine of the call on values is that of its turns |
| `NoWait.PastTheArrayExactlyWhen` | src/libxdma.c:3926-3986 | the loop comes to a third transfer object exactly if two parts are queued and k > 2N - s |
| `NoWait.FreedWhileQueued` | src/libxdma.c:3972-3976 | exactly when a request is freed while its first transfer is still queued |
| `NoWait.OfflineBetweenTurns` | src/libxdma.c:3972-3976 | it happens if the device goes offline between the two turns |
| `NoWait.WindowsCoexist` | src/libxdma.c:3926-3986 | the two windows of a no-wait request are disjoint if and only if it has at most N descriptors |
| `NoWait.LaidPartsStand` | src/libxdma.c:3926-3986 | with at most N descriptors, both chains stand complete in the ring once all parts are laid out |
| `NoWait.QueueOne` | src/libxdma.c:3930-3980 | one turn: builds, marks and queues the next part |
| `NoWait.QueueRequest` | src/libxdma.c:3926-3988 | with other threads running between the turns: what is queued, refused or run past, and what lies in the ring, as on values; only the final part marked last |
| `Pieces.CutLaw` | src/libxdma.c:3290-3316 | pieces in order from the offset, 1 to maxlen bytes, none past the window's end, each but the last as long as can be, and all the bytes |
| `Pieces.FillInOrder` | src/libxdma.c:3280-3323 | from any cursor the pieces of a transfer are in order and fit the room |
| `Pieces.InOrderMoves` | src/libxdma.c:3290-3316 | pieces in order move the byte of offset o to or from window position o mod aperture |
| `Pieces.FillBytes` | src/libxdma.c:3280-3326 | inside an entry the loop takes the list's bytes from there on, and count and offset move as far |
| `Pieces.FirstEntryIsRight` | src/libxdma.c:3280-3326 | a transfer starting in the first entry takes the bytes due, at least one, and leaves a cursor to match |
| `Pieces.RightExactlyWhen` | src/libxdma.c:3233-3289 | of the cursors correct transfers leave, exactly those in the first entry let the next transfer take the bytes due |
| `Pieces.CallRightExactlyWhen` | src/libxdma.c:3243-3326 | every transfer takes the bytes due exactly if all but the last end in the first entry |
| `Pieces.RestartsAtFirst` | src/libxdma.c:3233-3289 | lengths 8, 8 and a ring of one: the second transfer takes the first entry again |
| `Pieces.TakesNothing` | src/libxdma.c:3233-3346 | lengths 8, 24 and a ring of two: the second transfer takes nothing |
| `Pieces.StartsPastFirst` | src/libxdma.c:3281-3289 | lengths 0, 16 and a ring of one: the second transfer starts past the first entry |
| `ApertureCall.LaidPieceMoves` | src/libxdma.c:3332-3356 | started on the chain of a transfer, the hardware moves the bytes of its pieces |
| `ApertureCall.AperturedMoves` | src/libxdma.c:3243-3450 | on course, whatever others do, the walks of what lies in the ring move the list's bytes in order, as many as are reported |
| `ApertureCall.AperturedQueue` | src/libxdma.c:3243-3450 | the call leaves the queue empty exactly unless left early with the identifier not reading back |
| `ApertureCall.AperturedAll` | src/libxdma.c:3243-3450 | nothing ends the call early exactly if every part succeeds |
| `ApertureCall.AperturedAnswers` | src/libxdma.c:3395-3467 | the answer is the bytes moved if any; else the error of the first part |
| `Aperture.FillFromEntry` | src/libxdma.c:3290-3316 | the inner loop writes exactly the pieces of the entry, as far as the ring reaches |
| `Aperture.FillDescriptors` | src/libxdma.c:3275-3326 | from any cursor the loop over entries writes the pieces, and leaves the cursor, of the fill on values |
| `Aperture.LinkDescriptors` | src/libxdma.c:3332-3346 | links the window and terminates its last descriptor, leaving what is moved alone |
| `Aperture.PassesMakePiece` | src/libxdma.c:3300-3356 | the passes over a descriptor give the chain's descriptor whatever was there before |
| `Aperture.BuildTransfer` | src/libxdma.c:3243-3358 | from any cursor: the chain for the next pieces laid over the ring, or nothing exactly if there is no piece, where the code leaves its ring |
| `Aperture.SubmitOneAperture` | src/libxdma.c:3243-3448 | one turn of the outer loop: chain, outcome, cursor, use count and unmapping as on values |
| `Aperture.ApertureLoop` | src/libxdma.c:3243-3449 | the loop ends, with ring, engine, result and moved bytes as on values |
| `Aperture.TotalLength` | src/libxdma.c:3235-3237 | the sum of the entry lengths modulo 2^32 |
| `Aperture.CallIsRightExactlyWhen` | src/libxdma.c:3233-3326 | a call takes the bytes due exactly under the condition the method requires |
| `Aperture.AlwaysEndsInFirst` | src/libxdma.c:3243-3326 | lists of one entry, and lists that fit the rest of the ring, meet it |
| `Aperture.ApertureLaw` | src/libxdma.c:3162-3467 | the bytes of the leading COMPLETED transfers are moved, byte o at window position o mod aperture, all exactly if every part succeeds; the answer |
| `Aperture.ApertureMapped` | src/libxdma.c:3224-3467 | from the mapped list: ring, engine, result and moved bytes as on values, and the unmapping |
| `Aperture.XferAperture` | src/libxdma.c:3162-3467 | every exit, for every list all of whose transfers but the last end in its first entry |
| `TransferData.PagesNrMeaning` | src/nupanet_main.c:170-175 | the page-count expression is the number of pages holding a byte of the buffer; its value for an empty one |
| `TransferData.SplitPages` | src/nupanet_main.c:181-191 | the loop ends with nothing left: as many pieces as pages, contiguous, each in one page, non-empty unless the buffer is |
| `TransferData.MappedBytes` | src/nupanet_main.c:184-188 | because each piece lies in one page, the mapped list reaches every byte of the buffer |
| `TransferData.TransferBuffer` | src/nupanet_main.c:154-202 | every error return with nothing touched; otherwise ring, engine and moved bytes of the submit call for the mapped pages, which are that many bytes of the buffer, all exactly if every part succeeds; the answer told from the turns |
| `Payload.SendIsDmaStep` | src/nupanet_main.c:250-271 | the engine's moves for a frame leave device memory as the producer's DMA step says |
| `Payload.ReceiveIsDmaStep` | src/nupanet_main.c:204-233 | the engine's moves leave in the buffer what the consumer's DMA step reads |
| `ThreadPool.PicksIdle` | src/xdma_thread.c:245-259 | an idle thread is picked whenever there is one, whatever the counts |
| `ThreadPool.AddKeepsBalance` | src/xdma_thread.c:237-274 | on balanced counts the pick is least loaded and the counts stay balanced |
| `ThreadPool.AdditionsStayBalanced` | src/xdma_thread.c:237-274 | from all-zero counts any number of additions stays within one of each other, each to a least-loaded thread |
| `ThreadPool.LeastExactlyWhen` | src/xdma_thread.c:245-259 | for arbitrary counts, exactly when the pick is a least-loaded thread |
| `ThreadPool.EveryCountReached` | src/xdma_thread.c:206-274 | any counts are reached from all-zero ones by additions followed by removals |
| `ThreadPool.NotLeastAfterRemovals` | src/xdma_thread.c:206-274 | additions and removals lead to counts 3, 1, 2, where the third thread is picked though the second has less |
| `ThreadPool.Threads.PickThread` | src/xdma_thread.c:245-259 | the scanning loop computes the pick |
| `ThreadPool.Threads.AddWork` | src/xdma_thread.c:237-274 | the engine joins the picked thread's list; every count is its list's length |
| `ThreadPool.Threads.RemoveWork` | src/xdma_thread.c:206-235 | the engine leaves its thread's list, if it is on one; every count is its list's length |

## Left out

- PCI probing, BAR mapping, MSI/MSI-X setup, interrupt dispatch: kernel and hardware plumbing, or small fixed tables.
- Streaming C2H write-back records, end-of-packet flush, cyclic transfers, performance runs: not enabled, or written by the hardware.
- Register dumps, poll timeouts and wake-up queues: arbitrary scheduling in the state machines.
- `info->total_len`, `adapter_free`, the NAPI budget, MAC address handling: not conserved or not ordered against the other host.
- `xdma_xfer_submit_nowait` beyond its splitting loop (mapping, callback, completion): would repeat the synchronous call.
- src/debug.c and test/: character-device plumbing whose page loop repeats the one modelled, and socket programs.
- 32-bit and 64-bit wrap-around of lengths and addresses is excluded by preconditions rather than modelled, except in descriptor words, in the service count, in the page-count expression and in the aperture cursor.
- Submit.XferSubmit: the critical sections of other threads in a turn are arbitrary service, offline and online steps; other submitters cannot be among them, because the caller holds `desc_lock` (SyncDriver has them; TurnRuns.SubmitIsRun makes the call one of its runs), and the call starts from an empty queue (SyncDriver.QueueIsSafe).
- What the hardware has moved for a transfer that ends FAILED or is aborted: unknown, and not counted by the code.
- Aperture.XferAperture: lists all of whose transfers but the last end in the first entry, which is exactly when the code takes the right bytes; Aperture.BuildTransfer has one transfer from any cursor.
- Aperture.BuildTransfer: stops where a transfer has no descriptor; what the code's link loop then overwrites beyond the ring is not modelled.
- NoWait.QueueRequest: stops where the code would use a third transfer object; what lies there is not modelled.
- `engine->intr_work_cpu` and the per-thread locks: each addition or removal of work is one step.
