# VFI transfers, modelled and proved

VFI is a Linux driver that copies bytes between shared memory buffers with a DMA engine. A *bind* names a
source range and a destination range. Creating it compiles the two page tables into a chain of hardware
descriptors; starting it is a vote of both endpoints, which may be on other machines; the DMA driver queues
ready binds on its channels and a thread reports completions back. This project models those parts and
proves what they are for.

| file | what it models |
|---|---|
| `Pages`, `Buffers` | the offset and extent macros, page counts, buffer creation |
| `Runs`, `BindCompiler`, `Binds` | the page-splitting and page-joining loops, `bind_create` |
| `BindMeaning`, `BindTheorems` | what a compiled bind visits, copies, and how short it is |
| `DmaChain`, `BindExecution` | linked descriptors in memory, the engine's walk, and the end-to-end result |
| `Votes`, `BindProtocol`, `BindAgent` | the vote word, the ready/done protocol of a bind, the operations of its sites, alone and interleaved |
| `Scheduler`, `Completions`, `DmaEngine` | channels and completion events, what becomes of each transfer's status, and the driver in place |
| `Interrupts` | the interrupt handler access by access, with transfers queued in between |
| `Ring`, `EventCycle` | the ring buffers access by access, and the events going round between handler and thread |
| `Transfers`, `TransferTheorems`, `EventBound` | the whole system of binds, event lists and engine, over every run |
| `Doorbells`, `DoorbellTheorems`, `EventManager` | the RapidIO doorbell manager |
| `NetDoorbells` | the Ethernet fabric's doorbell numbers |
| `CStrings`, `Descriptors`, `DescriptorTheorems` | descriptor strings: parsing undoes printing |
| `DescriptorShapes`, `Lookups`, `Parser` | what is made of any string, option lookup, and the parser in place |
| `Division`, `Results` | quotient and remainder, error results |

Code that changes state is modelled by classes and methods whose contracts equate the new state with a
function of the old one; the lemmas are about those functions. The concurrent parts are state machines, and the
theorems are about every interleaving of their steps. A step is a critical section of the code, a message, or,
where the code takes no lock, something coarser than one access: an interrupt of the DMA engine is one step in
`Scheduler` and `Transfers`. `Interrupts` proves that this is right unless a transfer is queued in one window of
the handler, and `EventCycle` that the two rings need no lock between the handler and the thread.

## Where the code falls short of its intent

Each of these is kept as the code has it, with a lemma saying exactly when it does what is meant.

- The destination address travels in a 32-bit extent field, so a chain reaches the right bytes if and only if
  every byte that needs a new segment is below 4 GiB (`ChainVisits`). Descriptor fields narrow the source to 36
  bits locally and 34 bits remotely (`EngineRunsChain`).
- The page count is computed in 32 bits (`PagesCoverBuffer`), the range check in 64 (`DescValidIsContainment`),
  and without "discontig" a failed allocation of the last page goes unnoticed (`AllocPages`).
- A buffer over the user's memory is longer than what was asked for by map_address's place in its page
  (`SmbCreate`), and its byte k is the user's byte at map_address plus the requested offset plus k
  (`UserBufferIsUserMemory`).
- Once the RapidIO doorbell manager has reported exhaustion, only some freed numbers make it allocate again
  (`PutRevivesIff`, `RevivingNumbers`); of the numbers that are configured, freeing one of bin 0 does not
  (`ShippedDoorbellsTrap`), and where each number has a bin of its own none ever does
  (`SmallTableStaysExhausted`).
- In the Ethernet fabric, registering a number at depth 0 drops whatever its column still holds
  (`ShallowAllocateIff`, `ReuseDropsColumn`), and freeing follows a NULL pointer unless the number 256 below is
  taken (`DeallocateIff`).
- An error interrupt with transfers waiting leaves the channel idle with a non-empty queue
  (`InterruptKeepsOrderIff`); the next transfer queued overtakes them and the wrong one is reported complete
  (`ErrorReportsWrongTransfer`).
- The interrupt handler takes no lock: a transfer queued from another processor between the handler's last look
  at an empty queue and its setting the channel idle is left waiting on an idle channel (`StrandedIsOvertaken`),
  and one queued while the handler runs for a channel that was idle is taken for idle or completed
  (`QueuedInWindow`); at every other moment queueing is safe (`WindowIsExact`, `HandlerIsAtomic`).
- With no more events than binds, a completion can be lost (`NeverDropsIff`).
- Offsets wrap at the width of an unsigned long, extents at 32 bits (`NumbersComeBackIff`); a descriptor without
  a name takes its location for one (`NameComesBackIff`); characters after a number are rejected only in a build
  with assertions (`JunkIsRejectedIff`); options are looked up by substring, so one is found by its name if and
  only if no option before it contains that name (`OptionFoundIff`, `OptionShadowed`).

## Model

| member | source | states |
|---|---|---|
| Pages.StartIsFirstPage | vfi_smb.h:23-29 | START_OFFSET and START_SIZE are the position and size of the used part of the first page |
| Pages.EndSizeIsLastPage | vfi_smb.h:30-31 | END_SIZE is the used part of the last page, with 0 standing for all of it |
| Pages.NumPagesIsCeiling | vfi_dma.c:60-61 | the page count is that of the last byte's page plus one, as long as size plus offset does not wrap at 32 bits |
| Pages.DistinctFramesDistinctBytes | vfi_smb.h:23-31 | through a page table without repeated frames every byte of a range has its own physical address |
| Buffers.DescValidIsContainment | vfi_smb.h:21-22 | DESC_VALID says that the range lies in the buffer, exactly when its 64-bit sum does not wrap back into the buffer |
| Buffers.PagesCoverBuffer | vfi_dma.c:60-61 | every byte of the buffer has a page if and only if offset plus extent stays below 2^32 |
| Buffers.AllocPages | vfi_dma.c:50-148 | with "discontig" success means that every page was allocated; without it, that every page but the last was |
| Buffers.SmbCreate | vfi_local_ops.c:335-376 | succeeds exactly if there is an extent, the settled offset ends 32 bytes before a page does, and the pages are there; the offset is the requested one and the extent the requested or map_extent's, each plus map_address's place in its page, and ready for binds if and only if their 32-bit sum does not wrap |
| Buffers.UserBufferIsUserMemory | vfi_local_ops.c:351-359 | byte k of a buffer over the user's pages is the user's byte at map_address plus the requested offset plus k |
| Runs.MaxRunsUnique | vfi_local_ops.c:527-554 | positive runs none of which continues the one before are the only such tiling of the addresses they visit |
| Runs.MaxRunsFewest | vfi_local_ops.c:527-554 | no other tiling of the same addresses in order has fewer runs |
| BindCompiler.ValidRangeIsMapped | vfi_smb.h:21-31 | a range that passes DESC_VALID has a page below the allocated page count for every byte |
| BindCompiler.NextRun | vfi_local_ops.c:527-546 | the head of the page loops with its goto join: the run returned is one physical piece that spans whole pages of the range and, when joining, stops only where the next frame does not follow |
| BindCompiler.CutSources | vfi_local_ops.c:882-930 | the source loop cuts the range at its pages, joining adjacent ones; it fails only if two pieces would have one name |
| BindCompiler.SrcsCreate | vfi_local_ops.c:856-930 | a fragment's segments are the joined runs of its source range with running destination addresses in 32 bits; errors are an invalid range or a frame used twice |
| BindCompiler.DistinctFramesDistinctRuns | vfi_src.c:184-189 | with distinct frames a new run never starts where an earlier one did, so the name of a source fragment is not taken |
| Binds.DstCreate | vfi_local_ops.c:678-699 | a fragment has the run's address and length and the source segments for it; it fails only if the name is taken or a source frame is used twice |
| Binds.CutDestinations | vfi_local_ops.c:521-577 | the destination loop makes one fragment per joined run and hands each the next part of the source range |
| Binds.DstsCreate | vfi_local_ops.c:493-577 | a bindable pair of ranges compiles to the two-level split of its page tables unless a page table maps one frame twice |
| Binds.ValidExtents | vfi_ops.c:518-548 | succeeds exactly if there is a non-zero extent that every given extent equals, and fills it in everywhere |
| Binds.BindCreate | vfi_local_ops.c:589-663 | success yields the compiled bind of ranges that fit their buffers; failure means that the extents do not agree, a range does not fit, or a frame is used twice |
| BindMeaning.CutsVisit | vfi_local_ops.c:527-554 | joined or page by page, the cut of a range visits exactly the bytes that the page table gives it, in pieces of positive length, and joined pieces are separated |
| BindMeaning.WideChainVisits | vfi_local_ops.c:521-554 | both levels tile: all segments of all fragments visit the source range and the destination runs byte for byte |
| BindTheorems.ChainVisits | vfi_local_ops.c:882-913 | the joined chain visits the source bytes in order always, and the destination bytes in order if and only if every byte that needs a new segment is below 2^32 |
| BindTheorems.ChainVisitsBelow4G | vfi_src.c:179-180 | joined or not, a destination below 4 GiB is visited exactly |
| BindTheorems.BindIsMemcpy | vfi_local_ops.c:521-554 | executing the chain copies exactly the extent from the source range to the destination range through their page tables and changes no other byte |
| BindTheorems.DisjointBuffersCopy | vfi_local_ops.c:521-554 | the same for all buffers whose destination frames are distinct and below 4 GiB and whose source frames are other frames or at another site, at all offsets |
| BindTheorems.JoiningKeepsMeaning | vfi_local_ops.c:527-546 | the joined chain and the page-at-a-time chain do the same to every memory |
| BindTheorems.ChainIsShortest | vfi_local_ops.c:888-913 | no chain that visits the same bytes in the same order has fewer segments |
| BindTheorems.BreaksAtJumpingFrames | vfi_local_ops.c:541-546 | the physical addresses of a range break exactly at page boundaries whose frames are not consecutive |
| BindTheorems.FragmentNamesDiffer | vfi_dst.c:165-169 | with distinct frames the fragments of a bind have positive extents and pairwise distinct names |
| DmaChain.SegDesc.Load | vfi_dma_rio.c:230-316 | a loaded descriptor carries the segment's length and low address words, and gives its source address back exactly if that is below 2^36 for local memory and 2^34 for remote; it ends a chain |
| DmaChain.LinkKeepsAligned | vfi_dma_rio.c:324-337 | exactly the 32-byte aligned addresses survive in a link; others are rounded down |
| DmaChain.LinkSrc | vfi_dma_rio.c:318-327 | a segment is appended to the fragment's list and the hardware links follow the list |
| DmaChain.LinkDst | vfi_dma_rio.c:329-341 | a fragment's whole list is appended to the bind's and the hardware links follow the list |
| DmaChain.LoadSrcs | vfi_dst.c:260-283 | loading a fragment gives linked descriptors that carry its segments in list order |
| DmaChain.LoadBind | vfi_bind.c:317-341 | after all splicing the bind's list carries all segments of all fragments in order, and the transfer object's link is its first descriptor's address |
| DmaChain.WalkIsUnique | vfi_dma_rio.c:680-692 | memory determines the engine's walk from an address |
| DmaChain.WalkVisitsList | vfi_dma_rio.c:318-341 | walking the next pointers from the first descriptor visits the software list in order, once each, and stops |
| DmaChain.EngineRunsChain | vfi_dma_rio.c:343-374 | the walk carries out exactly the chain's segments if and only if their source addresses are below 2^36 or 2^34 and their destinations below 2^32 |
| BindExecution.FragmentsHaveSegments | vfi_dma_rio.c:333-339 | no fragment's source chain is empty, so the splice always finds a first descriptor |
| BindExecution.StartedBindCopies | vfi_dma_rio.c:680-692 | the engine started at a loaded bind stops and leaves memory as a memcpy of the bind's ranges would |
| BindExecution.CreateAndLoad | vfi_local_ops.c:589-663 | creating and loading a bind either fails for a stated reason or gives a link at which starting the engine is the copy asked for, for every memory and every pair of good buffers |
| BindExecution.SomeBuffersAreGood | vfi_smb.h:21-31 | there are buffers and a bind that meet all these conditions, for local and remote sources, up to the last frame that each can address |
| Votes.BindVotes.SideReady | vfi_bind.h:56-82 | sets the side's bit, reports whether the word is now VFI_BIND_RDY, and asserts exactly if the bit was set |
| Votes.BindVotes.SideDone | vfi_bind.h:95-115 | clears the side's bit, and asserts exactly if it was clear |
| Votes.BindVotes.DonePending | vfi_bind.h:84-93 | toggles DONE_PEND and queues exactly if the word is then VFI_BIND_RDY |
| Votes.DecodeReady | vfi_bind.h:41-54 | the bits 1, 2 and 4 of the word are the two votes and the pending completion, and it is VFI_BIND_RDY, 3, exactly when both sides are ready and no completion is pending |
| BindProtocol.StepKeepsInv | vfi_local_ops.c:1156-1207 | every step of a bind by any agent keeps the protocol invariant and fires no vote assertion |
| BindProtocol.EveryRunIsSafe | vfi_bind.h:56-115 | in every interleaving a ready bind has exactly one transfer claimed, queued or taken, none is queued while another is outstanding, and transfer n uses vote n of each side |
| BindProtocol.TokenIsUnique | vfi_fabric_ops.c:1677-1730 | a remote endpoint's own bit equals the transfer site's bit plus its ready and done doorbells in flight or half sent, so there is at most one |
| BindProtocol.CompletionsFollowTransfers | vfi_dma.c:226-239 | a side is told of its n-th completion only after the n-th transfer, which its n-th start made possible |
| BindProtocol.WindowKeepsVotesApart | vfi_bind.h:84-93 | without DONE_PEND a run decides on a second transfer with one source vote; with it the same steps do not |
| BindProtocol.StepsRunOut | vfi_local_ops.c:1166-1207 | every step other than a vote decreases a natural number, so a round of steps ends |
| BindProtocol.RestMeansDone | vfi_local_ops.c:1156-1183 | once only votes can happen, the transfers both sides have started are made and both sides have been told of all of them |
| BindAgent.CallbackRetiresBothVotes | vfi_dma.c:226-239 | an undisturbed callback clears both votes, tells each side once, queues nothing and leaves local endpoints free to start |
| BindAgent.Agent.Cast | vfi_bind.h:56-82 | a vote or an arriving ready doorbell is the protocol's step, and asserts exactly when the protocol says so |
| BindAgent.Agent.LocalReady | vfi_local_ops.c:1186-1207 | votes, and then queues the bind exactly when the vote completed the word |
| BindAgent.Agent.SideDone | vfi_local_ops.c:1166-1184 | first clears the vote, then completes the event list or rings the remote side; asserts exactly if the vote was clear |
| BindAgent.Agent.DmaComplete | vfi_dma.c:226-239 | undisturbed, the callback opens the window, clears the destination's vote and tells it, clears the source's and tells it, and closes the window, in this order, and the vote word goes through exactly these four states |
| BindAgent.EndpointSite.RemoteReady | vfi_fabric_ops.c:1705-1730 | a remote endpoint first sets its own bit and then rings the transfer site, and asserts exactly if the bit was set |
| BindAgent.EndpointSite.RemoteDone | vfi_local_ops.c:1166-1184 | the done doorbell first clears the endpoint's own bit and then completes its event list once, and asserts exactly if the bit was clear |
| BindAgent.Sites.Perform | vfi_dma.c:226-239 | at any point of the protocol the code of whichever site has its turn does exactly the protocol's step and asserts exactly when the protocol says so |
| BindAgent.Sites.Replay | vfi_local_ops.c:1156-1207 | over every run, with votes, doorbells and queueing between the calls of the callback, the code of the sites stays with the protocol and no vote assertion fires |
| Ring.RingBuf.constructor | ringbuf.c:22-31 | a full ring holds the array but its last slot, in order; an empty one nothing |
| Ring.RingBuf.Empty | ringbuf.c:33-36 | true exactly if the ring holds nothing |
| Ring.RingBuf.Get | ringbuf.c:38-50 | takes the oldest element off, or nothing from an empty ring |
| Ring.RingBuf.Put | ringbuf.c:52-63 | appends, unless the ring holds one element less than it has slots |
| Ring.MoveKeepsInv | ringbuf.c:38-63 | slot access and index update of either side, in any order, keep the ring a queue |
| Ring.RingIsFifo | ringbuf.c:22-63 | from a ring set up full or empty, over every interleaving of one producer and one consumer, what was taken is a prefix of what was given and the rest is in the ring in order |
| Ring.RefusalsAreExact | ringbuf.c:42-57 | a put is refused exactly at capacity, and a get exactly when everything given was taken |
| EventCycle.PutHasRoom | vfi_dma_rio.c:954-957 | with one slot more than events neither the handler's put nor the thread's is ever refused |
| EventCycle.TurnKeepsInv | vfi_dma_rio.c:151-169 | every single access of handler or thread to either ring keeps both rings queues and every event in one ring or one hand |
| EventCycle.EventsGoRound | vfi_dma_rio.c:566-574 | from the rings as set up, over every interleaving, each event has one owner, no put is refused, and the thread gets what the handler put, in order |
| EventCycle.UsedInTurn | vfi_dma_rio.c:951-957 | the k-th event that the handler takes is number k modulo the number of events |
| Scheduler.QueueChainKeepsOrder | vfi_dma_rio.c:719-742 | queueing on a channel in order is accepted and keeps it in order: running exactly while it has transfers, with the head in hardware |
| Scheduler.InterruptKeepsOrderIff | vfi_dma_rio.c:650-676 | a completion interrupt keeps the channel in order; an error interrupt does so if and only if nothing waits behind the head |
| Scheduler.ErrorReportsWrongTransfer | vfi_dma_rio.c:663-666 | after an error with transfers waiting the next one queued is started first, and its end is reported as that of the one that waited first |
| Interrupts.AccessKeepsInv | vfi_dma_rio.c:625-676 | every access of the handler, and queueing a transfer outside the window, keeps the channel such that the handler ends with it in order, if no error finds transfers waiting |
| Interrupts.HandlerIsAtomic | vfi_dma_rio.c:585-742 | over every interleaving of the handler's accesses with calls that queue transfers outside the window, with no error that finds transfers waiting, the channel ends as after whole interrupts and calls one after the other |
| Interrupts.WindowIsExact | vfi_dma_rio.c:645-676 | a transfer queued while the handler runs leaves the channel in order if and only if it is not queued in the window |
| Interrupts.QueuedInWindow | vfi_dma_rio.c:645-676 | one queued in the window waits on an idle channel, or is started and then taken for idle or for completed |
| Interrupts.StrandedIsOvertaken | vfi_dma_rio.c:727-737 | the next transfer queued is started ahead of it, and its end is reported as that of the stranded one |
| Scheduler.InterruptReports | vfi_dma_rio.c:650-676 | an interrupt reports the head of its queue once, with good status exactly if there was no error, and nothing else |
| Completions.StatusesArriveInOrder | vfi_dma_rio.c:151-169 | over every run with and without errors, what the thread is told are how the transfers ended, in the order of their interrupts, and the lost ones are the rest |
| Scheduler.FreeEventLeft | vfi_dma_rio.c:561-576 | with fewer transfers than events, and none in the engine twice, a finishing transfer finds a free event |
| Scheduler.InterruptKeepsInv | vfi_dma_rio.c:650-676 | a completion interrupt keeps queue order, byte accounts, single ownership of every event and the order of completions, whether or not its own completion is lost |
| Scheduler.NothingLost | vfi_dma_rio.c:561-576 | with fewer transfers than events no interrupt loses a completion |
| Scheduler.FetchKeepsInv | vfi_dma_rio.c:151-163 | the thread takes the oldest completion off, and the channel's byte count then again covers its queue and its unfetched completions |
| DmaEngine.Engine.constructor | vfi_dma_rio.c:933-951 | sets up a full ring of free events, an empty ring of completions and idle channels |
| DmaEngine.Engine.LoadBalance | vfi_dma_rio.c:993-1020 | picks a channel with the fewest bytes, the next in turn if it is one and otherwise the first, and keeps next_channel in range |
| DmaEngine.Engine.QueueOn | vfi_dma_rio.c:719-742 | the channel and the engine change as the scheduler's enqueue says, and -EAGAIN is returned exactly in an error state |
| DmaEngine.Engine.QueueTransfer | vfi_dma_rio.c:477-489 | queues on the only channel, or on one that has the fewest bytes |
| DmaEngine.Engine.SendDone | vfi_dma_rio.c:561-576 | fills in a free event and puts it on the completion ring, or loses the completion when there is none; the put never fails |
| DmaEngine.Engine.DoInterrupt | vfi_dma_rio.c:585-678 | with either error bit or neither, queue, state, rings and events change as the scheduler's interrupt says, and the head is reported as good exactly if neither bit is set and the channel was not stopped |
| DmaEngine.Engine.FetchOne | vfi_dma_rio.c:151-157 | takes the oldest completion, if any, settles the byte count of its channel, and flags the transfer with the completion's status |
| DmaEngine.Engine.GiveBack | vfi_dma_rio.c:168-169 | the event returns to the ring of free ones, which always has room |
| Transfers.NextStepIsSound | vfi_events.c:184-200 | in every state that satisfies the invariant, the start loop votes only for endpoints that are not outstanding and every other step finds what it takes for granted |
| Transfers.StepKeepsSysInv | vfi_events.c:184-200 | every step of event lists, doorbells, voters, channels, thread and callback keeps the whole invariant |
| TransferTheorems.NoAssertionFires | vfi_bind.h:62-112 | the start lock and completion counting guarantee, over every run, that no endpoint is voted twice before its done and no vote assertion fires |
| TransferTheorems.StartReturnsAfterTransfers | vfi_events.c:184-200 | when vfi_events_start returns, the engine has made the transfer of every endpoint that it started, as often as it was started |
| TransferTheorems.ChannelsKeepOrder | vfi_dma_rio.c:650-742 | over every run, with any number of events, a channel runs exactly while its queue is non-empty, hardware has its head, transfers leave once each in queueing order, and bytes_queued is the length of the queue, the unfetched completions and the lost ones |
| TransferTheorems.EventsHaveOneOwner | vfi_dma_rio.c:561-576 | over every run, with any number of events, every event has one owner, completions are fetched once in order, and no bind is in the engine twice |
| TransferTheorems.NoCompletionLost | vfi_dma_rio.c:561-576 | with fewer binds than events no run loses a completion, and bytes_queued is the length of the queue and the unfetched completions |
| TransferTheorems.StalledStartWaitsForPeer | vfi_events.c:197-198 | if nothing more can happen, a start that still waits waits for an endpoint whose other side was started less often, or whose completion was lost |
| EventBound.CompletionDropped | vfi_dma_rio.c:566-570 | for any number of binds that is at least the number of events there is a run that drops a completion |
| EventBound.NeverDropsIff | vfi_dma_rio.c:951-957 | no run drops a completion if and only if there are more events than binds, or no binds |
| DoorbellTheorems.InitialIsEmpty | vfi_fabric_rionet.c:629-661 | a new manager satisfies the invariant and maps nothing |
| DoorbellTheorems.GetKeepsInv | vfi_fabric_rionet.c:696-817 | get keeps the cursor on the least of the shallowest bins, or unset, and every entry in its own bin |
| DoorbellTheorems.PutKeepsInv | vfi_fabric_rionet.c:819-901 | put keeps the same invariant |
| DoorbellTheorems.GetRefinesMap | vfi_fabric_rionet.c:728-765 | a number returned is in range and was free, and now maps to the caller's callback; nothing else changes |
| DoorbellTheorems.PutRefinesMap | vfi_fabric_rionet.c:835-893 | put succeeds exactly on allocated numbers and removes that number only |
| DoorbellTheorems.DispatchRunsMapped | vfi_fabric_rionet.c:666-690 | dispatch runs exactly the mapped callback, unless it is NULL |
| DoorbellTheorems.NewEntriesGoShallow | vfi_fabric_rionet.c:783-812 | a new entry goes into a bin no deeper than num_alloc divided by the number of bins |
| DoorbellTheorems.ExhaustionIsExact | vfi_fabric_rionet.c:728-747 | with the cursor set, get fails for want of numbers if and only if every number of the range is allocated |
| DoorbellTheorems.PutRevivesIff | vfi_fabric_rionet.c:878-893 | after exhaustion a put lets get succeed again if and only if its bin was no deeper than mindepth |
| DoorbellTheorems.RevivingNumbers | vfi_fabric_rionet.c:885-888 | right after exhaustion the numbers whose freeing revives the manager are those of the bins of least capacity |
| DoorbellTheorems.ShippedDoorbellsTrap | vfi_fabric_rionet.c:30-32 | with the configured range and 256 bins these are all numbers but those of bin 0 |
| DoorbellTheorems.GetsExhaust | vfi_fabric_rionet.c:728-747 | with more numbers than bins, gets alone lead to every number being taken with the cursor still set |
| DoorbellTheorems.ShippedDoorbellsExhaust | vfi_fabric_rionet.c:30-32 | the configured manager reaches that state from its start |
| DoorbellTheorems.SmallestTrap | vfi_fabric_rionet.c:885-888 | three numbers in two bins, all taken: one is freed, and get still reports exhaustion |
| DoorbellTheorems.SmallTableStaysExhausted | vfi_fabric_rionet.c:767-781 | where every number has its own bin no sequence of commands sets the cursor again |
| DoorbellTheorems.RunRefinesMap | vfi_fabric_rionet.c:666-901 | over every sequence of gets and puts the bins hold the map that the commands and replies describe, and num_alloc is its size |
| EventManager.FindInList | vfi_fabric_rionet.c:586-598 | the position of the first node with the number, or 0 exactly if there is none |
| EventManager.EventMgr.constructor | vfi_fabric_rionet.c:629-661 | the manager starts empty and valid |
| EventManager.EventMgr.RescanSlots | vfi_fabric_rionet.c:767-781 | finds the least unused bin, or none |
| EventManager.EventMgr.RescanDepths | vfi_fabric_rionet.c:783-812 | finds the least of the shallowest bins and its depth, within the table; the second scan tests no bin for being unused and meets none |
| EventManager.EventMgr.Get | vfi_fabric_rionet.c:696-817 | the code in place does what the get function says, including the high-water mark and "state unchanged" without memory |
| EventManager.EventMgr.Dispatch | vfi_fabric_rionet.c:666-690 | the callback run is the one that the dispatch function gives |
| EventManager.EventMgr.Put | vfi_fabric_rionet.c:819-901 | the code in place does what the put function says, including the promotion of a list's head into the slot |
| NetDoorbells.FindMissesNothing | vfi_fabric_net.c:221-233 | ending the walk early finds every node of a sorted column |
| NetDoorbells.AllocatesLeast | vfi_fabric_net.c:244-282 | the number returned is the least that is free, and -1 means that all are taken |
| NetDoorbells.DeepAllocate | vfi_fabric_net.c:266-270 | at depth 1 and below the columns stay sorted and exactly the new number is added |
| NetDoorbells.ShallowAllocateIff | vfi_fabric_net.c:271-274 | at depth 0 exactly the new number is added if and only if its column was empty; every other number of the column is gone |
| NetDoorbells.DeallocateIff | vfi_fabric_net.c:284-305 | freeing is possible if and only if the number is taken and so is the one 256 below it, if there is one; then exactly that number is removed |
| NetDoorbells.GapFreeAllocate | vfi_fabric_net.c:255-282 | without gaps every registration adds exactly its number and leaves no gap |
| NetDoorbells.GapFreeDeallocateIff | vfi_fabric_net.c:291-302 | freeing leaves no gap if and only if it takes the deepest entry of its column |
| NetDoorbells.ReuseDropsColumn | vfi_fabric_net.c:271-274 | freeing the head of a deeper column and registering again drops the doorbell behind it |
| NetDoorbells.RunRefinesMap | vfi_fabric_net.c:235-305 | over every run that frees only deepest entries the columns are a map in which each registration gets the least free number |
| NetDoorbells.BellHash.FindNode | vfi_fabric_net.c:221-233 | the loop finds what the early-ending search finds |
| NetDoorbells.BellHash.Allocate | vfi_fabric_net.c:244-282 | the loop and the insertion in place do what the allocate function says |
| NetDoorbells.BellHash.Deallocate | vfi_fabric_net.c:284-305 | unlinking in place does what the deallocate function says |
| NetDoorbells.BellHash.Invoke | vfi_fabric_net.c:235-242 | the callback run is the one registered under the number |
| CStrings.DigitValueIs | vfi_parse.c:270-276 | the digits are 0 to 9, a to f and A to F, with their usual values |
| CStrings.StrtoulIs | vfi_parse.c:270-276 | any string of digits in either case, with or without 0x or 0X in front, reads as its positional value modulo the width of the word, and what follows is left |
| CStrings.StrtoulPrinted | vfi_parse.c:270-276 | a printed hexadecimal number reads back modulo the width of the word, and as itself exactly if it fits |
| DescriptorTheorems.EitherOrder | vfi_parse.c:254-267 | #offset:extent and :extent#offset parse the same |
| DescriptorTheorems.OptionsSplit | vfi_parse.c:190-204 | a printed option list comes back as its var=val strings in order |
| DescriptorTheorems.DescComesBack | vfi_parse.c:220-298 | a printed descriptor with a name and no delimiters in its parts comes back, with or without a scheme in front and a line end behind |
| DescriptorTheorems.BindComesBack | vfi_ops.c:1327-1331 | a printed three-part bind comes back in all three parts |
| DescriptorTheorems.NumbersComeBackIff | vfi_parse.c:270-276 | parsing the printed descriptor gives its offset back exactly if it fits an unsigned long, and its extent exactly if it also fits 32 bits |
| DescriptorTheorems.NameComesBackIff | vfi_parse.c:241-252 | name and location come back exactly if the name is not empty; otherwise the location becomes the name |
| DescriptorTheorems.JunkIsRejectedIff | vfi_parse.c:269-279 | with or without location, offset, extent and options, in either order, characters after a number are an error if and only if assertions are compiled in, and are otherwise passed over |
| DescriptorShapes.FixOptionIs | vfi_parse.c:196-200 | an option without a parenthesis stays as it is; var(val) becomes var=val, closed or not, and what follows the closing parenthesis is dropped |
| DescriptorShapes.SplitOptionsIs | vfi_parse.c:190-204 | the options are the pieces between the commas, each fixed, in order |
| DescriptorShapes.SplitNameIs | vfi_parse.c:241-252 | any number of leading dots is skipped, the name ends at the next dot, and the rest is the location |
| DescriptorShapes.SplitRangeIs | vfi_parse.c:254-267 | offset and extent of any string, by which of # and : comes first and where the other is next |
| DescriptorShapes.AfterSchemeIs | vfi_parse.c:241-242 | the scheme ends with the first :// |
| DescriptorShapes.ParseBindShorter | vfi_parse.c:353-404 | without / only a transfer is parsed, and without = a transfer and a destination |
| DescriptorShapes.FitsPageIs | vfi_parse.c:34-76 | a copy fits exactly if the string, rounded up past the next word, and a pointer for each ? and comma and one more take at most 4096 bytes |
| Lookups.LookupAnswers | vfi_parse.c:125-144 | the lookup gives nothing exactly if the name occurs in no option, and otherwise, from its first place in the first option that has it, what follows the next equals sign, or the rest if there is none |
| DescriptorTheorems.LookupUsesFirstContaining | vfi_parse.c:125-144 | an option is looked up in the first option string that contains the name anywhere |
| DescriptorTheorems.OptionFoundIff | vfi_parse.c:125-144 | a printed option is found by its name, whatever its value, if and only if no option before it contains that name in its name, its value or across them |
| DescriptorTheorems.OptionShadowed | vfi_parse.c:136-138 | an earlier option whose name ends in the wanted one answers in its place |
| Parser.NameRemainder | vfi_parse.c:95-109 | cuts the string at the first occurrence of the character and touches nothing outside it |
| Parser.ParseOptions | vfi_parse.c:190-204 | fills the table with the options and a NULL without overrunning it |
| Parser.SplitNameAt | vfi_parse.c:242-252 | the name and location after leading dots, in place |
| Parser.SplitRangeAt | vfi_parse.c:254-267 | the offset and extent strings in either order, in place |
| Parser.StrToUL | vfi_parse.c:270-276 | reads the number that the string function reads, and stops where its digits do |
| Parser.DescParam.StrDup | vfi_parse.c:34-76 | copies the string with a table of one entry per possible option and one for the end, exactly if both fit in a page |
| Parser.DescParam.ParseAt | vfi_parse.c:220-298 | the in-place parser accepts exactly what the string function accepts, and its pointers lead to that descriptor's strings |
| Parser.DescParam.Parse | vfi_parse.c:315-329 | duplicating and parsing gives the descriptor that the string denotes, or fails exactly when it denotes none |
| Parser.DescParam.GetOptionAt | vfi_parse.c:125-144 | NULL exactly if the name occurs in no option; otherwise the pointer leads to what follows the next equals sign in the first option that has it, or to the name and the rest |
| Parser.ParseBindInto | vfi_parse.c:353-404 | the bind parser accepts exactly the strings whose parts parse, and fills in the three descriptors |

## Left out

- kobjects, ksets, sysfs attributes, uevents, module start and stop: kernel plumbing.
- Failing allocations other than of pages and of doorbell list nodes.
- Reference counts and the find, put, lose and delete operations.
- Sockets, frames, work queues and remote calls; a doorbell is a message that arrives once, in any order.
- The character device, mmap tickets and user page pinning, apart from their effect on a buffer's pages.
- Transfer cancel, and error recovery beyond what is said of single interrupts and of statuses.
- The attribute bits of a descriptor other than the high address bits: snooping, RapidIO transaction types and target ids. The sites that a walk copies between are given.
- `vfi_dma_6460.c` and the queueing stubs of `vfi_dma_net.c`.
- Several DMA engines: one transfer site is modelled, with any number of remote endpoints.
- Error interrupts in the whole system: `Transfers` has completion interrupts only, as the code does not keep its queues in order after others.
- vfi_events_start is the steps Begin to Unlock of `Transfers` and not one method, because it waits for other threads.
- Interrupts of different channels are atomic against each other; the driver takes no lock around the two rings that their handlers share.
- In `Scheduler` and `Transfers` an interrupt is atomic against queueing on other processors, although do_interrupt (vfi_dma_rio.c:585-678) takes no queuelock and ppcdma_queue_chain (719-742) disables local interrupts only. By `HandlerIsAtomic` this leaves out only runs that queue a transfer in the window of `WindowIsExact`.
- In `Interrupts` a whole call of ppcdma_queue_chain is one step, and so is one list operation; pointer updates of list_add_tail and list_del on different processors are not taken apart.
- Each get of the doorbell manager is one step, although vfi_get_event reads next == -1 before it waits for the semaphore (vfi_fabric_rionet.c:717-724), so a get that waited while another took the last number goes on with bin -1 in the code.
- The thread lowers bytes_queued without the lock under which it is raised; each change is one step here.
- The bit `far` stands for a remote site's own vote word, of which only the endpoint's own bit is used there.
- A voter that was told to queue a bind may do so at any later step; in the code nothing of that thread comes between.
- The misaligned case of `new_vfi_src`, which fills in the unaligned object; descriptors lie at their own 32-byte aligned addresses.
- A local destination above 32 bits is cut off before `dma_rio_load` could keep its upper bits, so the high attribute of the destination is not modelled.
- A buffer creation that finds no extent returns success without a buffer in the code; here it is an error.
- The query table lies behind the string in one allocation with four-byte pointers; here it is an array of its own, of the size that was set aside for it.
- simple_strtoul, strstr and strchr are the kernel's; they are modelled from their documented behaviour, with 0x skipped in base 16.
- The interpretation of the options default_ops, fabric and dma_name, `vfi_add_option` and the cloning of descriptors.
- BindCreate: offsets are below 2^32, because they come from a parser whose numbers are that wide on the machines that have this DMA engine.
- BindIsMemcpy: the destination's frames are distinct and the source bytes are not overwritten by the copy, because a memcpy promises nothing otherwise; `DisjointBuffersCopy` states this as conditions on the page tables.
- StartedBindCopies: source addresses fit the controller's 36 or 34 bits and segment starts in the destination fit 32, which `ChainVisits` and `EngineRunsChain` show to be needed.
