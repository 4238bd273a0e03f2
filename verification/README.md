# The OFI transport: registration cache, connection, worker pool and listener

A Dafny model of the step-by-step state of the nanomsg transport over libfabric, and proofs about it.
The code is modelled as it is written. Where that breaks what it is for, a lemma says exactly when, and
where a small change repairs it the model also carries the repaired form (`Corrected`, `Whole`).

| file | what it models |
|---|---|
| `Basics.dfy` | options, the two builds, and other small notions |
| `MrModel.dfy`, `MrMarks.dfy`, `MrHints.dfy` | the memory-registration cache as values, its invalidation, and what a mark keeps |
| `MrEviction.dfy`, `MrAges.dfy` | which banks misses evict, from one state and in whole runs |
| `MrCounts.dfy`, `MrLookups.dfy`, `MrRuns.dfy`, `MrFailures.dfy` | its runs: who holds what, what is registered, what the device reads, and when it cannot |
| `MrManager.dfy` | the cache in place: arrays of banks and slabs, one mutex a bank and one for the slabs |
| `Links.dfy`, `EgressRing.dfy` | doubly linked lists over arrays; the ring of egress contexts |
| `EgressBooks.dfy`, `EgressGrants.dfy`, `EgressFlow.dfy`, `Egress.dfy` | sending: the cache, the ring and the credits together |
| `EgressOrder.dfy`, `EgressReads.dfy` | what becomes of the messages sent: order, ends, and what the device reads |
| `IngressModel.dfy`, `Ingress.dfy` | receiving: three lists of buffers and the flags shared with nanomsg |
| `IngressRuns.dfy` | what runs of the receiving side hand over, and whether they ever receive again |
| `Phases.dfy` | the phases of a closing socket, one after the other |
| `Shutdown.dfy`, `Closer.dfy` | a connection from its establishment to the end of its shutdown, over both queues |
| `ClosingBooks.dfy` | what the sending side still holds while the connection closes, up to the end of its cache |
| `Keepalive.dfy` | two peers ticking in lockstep |
| `PollerLock.dfy`, `WorkerStop.dfy` | the poller thread: locking the pool, stopping a worker |
| `Offsets.dfy`, `Bofi.dfy` | the listener: offsets of connections and the keys made from them |

The classes run the operations in place, with the branches and pointer writes of the source, and each
method is proved against a function on values. The lemmas then speak of these functions, over all inputs,
all runs or all reachable states. A run is a sequence of states with the events between them (`Trace` in
each module). Pointers into a fixed array are indices into it and NULL is -1. What libfabric answers, and
when its events come, are parameters and events.

What the code does differently from its comments and documentation, and where this is proved:

- `ofimr.c:282-286` stores the new region and then unregisters the old one, which resets it: a bank that
  is used again registers an empty region (`ReuseRegistersNothing`, `LookupExact`). With one bank or more,
  and a provider that never refuses, some run leaves a message the device cannot read (`UnreadableExactly`).
- `ofimr.c:286-291` and `ofimr.c:479-482` keep the region of a registration that failed (`LookupExact`,
  `MarkExact`), and the same request is then handed the unregistered bank (`AgainAfterFailure`,
  `RefusedThenSent`).
- `ofimr.c:480` and `ofimr.c:485` lock the bank again instead of unlocking it (`MarkRegion`).
- `sofi.c:1118-1138` links as many egress contexts as there are receive buffers (`Setup`, `ResourcesSuffice`).
- `sofi.c:239-245` follows a null pointer when the ring has one context (`MarkFree`).
- `sofi.c:385-395` keeps the credit of a failed send, and `sofi.c:430-446` flushes nothing while a context
  in front is free, so a connection that fails may never stop: after a failed send never (`NeverStopping`),
  else exactly when part of the ring is in flight (`StopsExactly`, `NeverFlushed`, `FlushFailsExactly`).
- `sofi.c:1458` tests a state that was overwritten at `sofi.c:1447`, so only an error flushes the egress queue.
- `sofi.c:908-912` remembers one waiting message, not several (`IngressModel.StrandedExactly`,
  `LeftBehindExactly`).
- `sofi.c:945-952` forgets a post put off when the provider answers -EAGAIN again (`ArmedExactly`), and only a
  fetch makes up for one, so with nothing queued a connection never receives again (`ReceivesAgainExactly`,
  `DeafAfterKeepalive`).
- `ofimr.c:182` wraps the age of the cache, after which the youngest bank is the oldest (`SameBankExactly`).
- A fetch after the stop request does not run the shutdown handler, so the last one may leave it with
  nothing to wait for (`StrandsExactly`, `LeftConnected`).
- `ofiw.c:82` and `ofiw.c:103` read a flag of the whole pool from any thread (`ExclusionExact`,
  `BrokenExactly`), as `ofiw.c:535` does (`QuiescenceWhole`, `ShortWayRun`). `ofiw.c:109-113` signals before
  it clears the request (`DesertionExact`), and `ofiw.c:169-175` tests and signals in two steps
  (`QuiescenceExact`). `ofiw.c:103` can also release what was never locked (`StrayRelease`,
  `StraySignalBreaks`).
- `bofi.c:125-133` does not mark the slot it hands out of a grown table (`HistoryExact`, `DistinctExactly`,
  `SharingExact`, `KeysSafeExactly`), and `bofi.c:452-470` does not give a slot back (`BalancedExactly`).

## Model

| member | source | states |
|---|---|---|
| MrModel.FirstHit | src/transports/ofi/ofimr.c:238-248 | the bank found is the first whose recorded region contains the request, and none before it does |
| MrModel.Oldest | src/transports/ofi/ofimr.c:251-271 | the eviction candidate is unreferenced and volatile, of least age among all such banks, the first of those with that age; there is none exactly when no bank is evictable |
| MrModel.FreeSlab | src/transports/ofi/ofimr.c:80-101 | the slab taken is the first one free |
| MrModel.FirstUnused | src/transports/ofi/ofimr.c:200-215 | the bank to mark is the first with no reference and no flag |
| MrModel.Copied | src/transports/ofi/ofimr.c:92-94 | the slab begins with the payload and is otherwise as it was |
| MrLookups.LookupExact | src/transports/ofi/ofimr.c:224-305 | a lookup leaves every bank recording its own registration, and the bank picked covering the request, exactly when it hits, finds no candidate, registers a fresh bank, or closes an old registration and is then refused the new one |
| MrLookups.CorrectedLookup | src/transports/ofi/ofimr.c:224-305 | unregistering first and forgetting the region of a failed registration, every lookup leaves each bank recording its own registration and the bank picked covering the request |
| MrLookups.AgainAfterFailure | src/transports/ofi/ofimr.c:282-291 | the same request after one that failed is handed a bank that does not cover it exactly when the first left its region behind |
| MrLookups.MarkExact | src/transports/ofi/ofimr.c:472-482 | marking leaves a stale region behind exactly when a bank was taken, its registration refused and the region not empty at address 0 |
| MrLookups.TraceKeepsBanks | src/transports/ofi/ofimr.c:461-717 | in a run whose calls take the good branches, every bank records its own registration throughout |
| MrMarks.MeetsIsOverlap | src/transports/ofi/ofimr.c:508-511 | the four comparisons hold exactly when the two closed intervals share a point |
| MrMarks.InvalidateExact | src/transports/ofi/ofimr.c:496-533 | busy exactly when a referenced bank meets the region; then every referenced bank and every bank from the blocking one on is unchanged; otherwise no bank that met it is marked any more, and no registered bank meets it exactly when every close of one that did succeeded; other banks are never touched |
| MrHints.MarkLasts | src/transports/ofi/ofimr.c:461-487 | in every run, as written or corrected, a bank that a granted mark took keeps its region and its registration, whatever messages come and go, until an invalidation meets the region |
| MrCounts.AcquireExact | src/transports/ofi/ofimr.c:580-633 | an entry takes nothing exactly when it is empty, and a slab exactly when it fits one and one is free; otherwise no slab changes, and only then can it fail or touch a bank |
| MrCounts.DescribeCounts | src/transports/ofi/ofimr.c:553-670 | a describe adds the message to the books or leaves them as they were, as written or corrected and whatever the provider answers |
| MrCounts.ReleaseCounts | src/transports/ofi/ofimr.c:679-717 | a release takes from each bank one reference per occurrence, frees the slabs of the context, and leaves the books of all others balanced |
| MrCounts.RollbackExact | src/transports/ofi/ofimr.c:642-669 | from any point of the loop, a failure takes back exactly the references and slabs of the context, counting repetitions |
| MrCounts.FailedDescribeRestores | src/transports/ofi/ofimr.c:642-669 | a failed describe leaves every reference count and every slab flag as before the call, whatever state it began in |
| MrCounts.BooksBalance | src/transports/ofi/ofimr.c:562-717 | at every point of every run, as written or corrected, each reference count is the number of occurrences over all contexts in flight, each slab in use has one owner, and no context lists more than 16 banks and slabs |
| MrCounts.LiveUntilReleased | src/transports/ofi/ofimr.c:553-717 | in every run a described message stays in the books until its own release |
| MrRuns.ReadsTheSame | src/transports/ofi/ofimr.c:553-717 | between its describe and its release the device reads the same of a message, whatever calls come between |
| MrRuns.DescribeReadsExactly | src/transports/ofi/ofimr.c:553-640 | from any state the books agree with, stale regions or not, a message just described is read as it was written exactly when each entry got a slab, hit a bank whose registration covers it, or took a bank that (as written) had none |
| MrRuns.TransparentExactly | src/transports/ofi/ofimr.c:553-717 | in every run, as written or corrected, a message is read as it was written at any point up to its release exactly when at its describe each entry got a slab, hit a bank whose registration covers it, or took a bank that (as written) had none |
| MrRuns.Transparent | src/transports/ofi/ofimr.c:553-717 | at every point of a run every message in flight gathers to the caller's bytes, corrected always and as written if all lookups take good branches |
| MrFailures.RefusedThenSent | src/transports/ofi/ofimr.c:286-291 | with any number of banks, a message whose registration was refused once is sent again and cannot be read |
| MrFailures.UnreadableExactly | src/transports/ofi/ofimr.c:282-291 | a message that cannot be read comes up in some run, and with a provider that never refuses, exactly as written and with at least one bank |
| MrEviction.MissesPickDistinctBanks | src/transports/ofi/ofimr.c:224-305 | without references or marks and before the age wraps, up to `bank_count` misses pick as many different banks, with any number of hits between them |
| MrEviction.HitChangesNothing | src/transports/ofi/ofimr.c:238-248 | a request that some bank contains is given the first such bank, and leaves every bank and the clock as they were |
| MrEviction.AgesExactly | src/transports/ofi/ofimr.c:182 | a lookup moves an age only when it registers: the bank picked and the clock get the next of 2^32 ages; hits, a busy cache and refusals move none |
| MrEviction.SameBankExactly | src/transports/ofi/ofimr.c:182 | two misses in a row pick the same of several banks exactly when the 32-bit age wraps between them and no bank before it has age 0 |
| MrAges.ReachedMissesPickDistinct | src/transports/ofi/ofimr.c:224-305 | in every run of fewer than 2^28 calls, whenever no bank is referenced or marked, the misses that follow pick different banks, up to their number |
| MrManagement.MrManager.constructor | src/transports/ofi/ofimr.c:315-407 | all banks and slabs free, ages zero |
| MrManagement.MrManager.TrySlab | src/transports/ofi/ofimr.c:67-107 | too large, all busy, or the first free slab marked and filled, and nothing else changed |
| MrManagement.MrManager.UnregisterBank | src/transports/ofi/ofimr.c:114-141 | closes the registration and forgets the region, or changes nothing |
| MrManagement.MrManager.RegisterBank | src/transports/ofi/ofimr.c:148-186 | registers what the bank records after closing what it had, and takes the next 32-bit age |
| MrManagement.MrManager.LookupBank | src/transports/ofi/ofimr.c:224-305 | the result and the state of the lookup on values; in the loop only the candidate is locked, after it only the bank picked |
| MrManagement.MrManager.GiveBack | src/transports/ofi/ofimr.c:642-717 | releases every bank and slab of a context, one bank mutex at a time, and on the rollback path the slabs under the slab mutex |
| MrManagement.MrManager.AcquireEntry | src/transports/ofi/ofimr.c:580-633 | nothing for an empty entry, a slab if one fits and is free, else a reference on a bank |
| MrManagement.MrManager.DescribeMessage | src/transports/ofi/ofimr.c:553-670 | the whole describe with its rollback, and no mutex held afterwards |
| MrManagement.MrManager.MarkRegion | src/transports/ofi/ofimr.c:461-487 | the call ends, with no mutex held, exactly when there is no bank to mark; else it waits for the mutex it holds |
| MrManagement.MrManager.InvalidateRegion | src/transports/ofi/ofimr.c:496-533 | the state and answer of the invalidation on values, and no mutex held afterwards |
| MrManagement.MrManager.Terminate | src/transports/ofi/ofimr.c:412-446 | goes through exactly when no bank is referenced; then every bank has closed its registration where the provider let it, and no mutex is held |
| EgressRing.BackKeepsPermutation | src/transports/ofi/sofi.c:208-224 | no context is lost or doubled when one becomes busy |
| EgressRing.FrontKeepsPermutation | src/transports/ofi/sofi.c:229-270 | no context is lost or doubled when one becomes free |
| EgressRing.Ring.Setup | src/transports/ofi/sofi.c:1111-1138 | the loop and the tail stay inside the array of contexts exactly when there is a receive queue and it is not longer than the transmit queue, and then link them in order |
| EgressRing.Ring.GetContext | src/transports/ofi/sofi.c:188-203 | the head, or none when it is busy |
| EgressRing.Ring.MarkBusy | src/transports/ofi/sofi.c:208-224 | the ring stays a linked permutation, with the head moved to the back |
| EgressRing.Ring.MarkFree | src/transports/ofi/sofi.c:229-270 | survives exactly when the ring has two contexts or more, and then the ring stays a linked permutation with the context moved to the front |
| EgressBooks.NeverOutOfBanks | src/transports/ofi/ofimr.c:251-303 | with as many banks as references held and entries to come, none of them marked, a describe never ends in -EAGAIN |
| EgressGrants.DescribeDoneExactly | src/transports/ofi/ofimr.c:553-640 | a message is too big exactly with more than 16 entries; with a provider that grants everything and a bank for each entry to come, a describe succeeds exactly for all others |
| EgressFlow.StepKeeps | src/transports/ofi/sofi.c:297-482 | staging, posting, the credit decrement and completions, in any order they may fall and while the connection closes too, keep books, credits and the state of the pipe |
| EgressFlow.ResourcesSuffice | src/transports/ofi/sofi.c:1096-1138 | in no run does a send lack a bank, and in none is a message too big for its context; in some run it lacks a context exactly when the ring is shorter than the number of credits |
| EgressFlow.TxErrorReached | src/transports/ofi/sofi.c:385-395 | a send fails in some run exactly when the ring has a context |
| EgressFlow.CreditFlow | src/transports/ofi/sofi.c:385-482 | at every point of a run, closing or not, the pipe is released exactly when a credit is left and nothing is staged, credits, busy contexts and lost credits add up to the maximum, and every accepted send but the one in progress was acknowledged once |
| EgressFlow.LostExactly | src/transports/ofi/sofi.c:385-395 | at every point of a run the credits lost are as many as the sends that failed |
| EgressFlow.NothingHeldWhenIdle | src/transports/ofi/sofi.c:275-291 | with nothing in flight no bank is referenced and no slab in use, whatever failed on the way |
| EgressOrder.SentInOrder | src/transports/ofi/sofi.c:297-380 | at every point of a run the messages put in flight, followed by the one staged, are the messages nanomsg submitted, entry by entry and in the same order |
| EgressOrder.EachEndsOnce | src/transports/ofi/sofi.c:385-422 | at every point of a run every message put in flight is still there or its end was reported once, and every context of the ring is free or carries one message |
| EgressOrder.LastFreedIsNext | src/transports/ofi/sofi.c:229-270 | the context that came free last is the next to be used |
| EgressOrder.ServedRunsOn | src/transports/ofi/sofi.c:297-380 | in a run whose registrations and sends are all granted, nothing fails but transmissions under way and, with a ring shorter than the number of credits, sends that find it busy |
| EgressReads.SentReadsExactly | src/transports/ofi/sofi.c:297-380 | at every point up to its end the device reads of a message in flight the bytes that were staged, header before body, exactly when at its post each entry got a descriptor that works |
| EgressReads.SlabForHeader | src/transports/ofi/sofi.c:1096-1105 | while a credit is left and no message in flight holds more than one slab, a slab is free for the next header |
| EgressQueue.Egress.constructor | src/transports/ofi/sofi.c:1096-1138 | for any queue sizes: twice as many banks as credits and all contexts free, provided linking them stayed inside the array |
| EgressQueue.Egress.Establish | src/transports/ofi/sofi.c:1709-1711 | what is staged from now on is sent at once |
| EgressQueue.Egress.PostBuffers | src/transports/ofi/sofi.c:297-380 | the post of the small-step model: context, description, send, and what each failure gives back |
| EgressQueue.Egress.TakeCredit | src/transports/ofi/sofi.c:467-478 | the credit is taken, and nanomsg may go on unless it was the last one |
| EgressQueue.Egress.SendStaged | src/transports/ofi/sofi.c:454-482 | posting and taking the credit in one call, or the failure of the post |
| EgressQueue.Egress.StageMessage | src/transports/ofi/sofi.c:487-513 | nothing while shutting down, after a failed send too; staged until connected, else sent at once; a failed send starts the shutdown |
| EgressQueue.Egress.HandleCompletion | src/transports/ofi/sofi.c:400-422 | the context goes to the front, its banks, slabs and credit come back, and the pipe is released if no credit was left |
| EgressQueue.Egress.HandleError | src/transports/ofi/sofi.c:385-395 | the context goes to the front and its banks and slabs come back; its credit does not |
| EgressQueue.Egress.Flush | src/transports/ofi/sofi.c:427-449 | with a free context in front nothing happens; else the oldest first, every context gives back its banks, its slabs and its credit and stays where it is, and then no bank is referenced |
| IngressModel.FetchKeepsBufs | src/transports/ofi/sofi.c:926-982 | a fetch loses no buffer from any state, with a flush pending or not |
| IngressModel.StepKeeps | src/transports/ofi/sofi.c:704-982 | every receive, fetch and flush keeps the partition of the buffers and the books of announcements, and until a flush the order of messages |
| IngressModel.Delivery | src/transports/ofi/sofi.c:704-982 | at every point of a run with flushes at any time, each buffer is in one list, announcements exceed fetches by one exactly while nanomsg is busy, and none finds the queue empty; until a flush, messages fetched and then queued are those received in order, and as written the queue holds what is announced, owed and missed |
| IngressModel.LagExactly | src/transports/ofi/sofi.c:901-921 | as written and until a flush, the messages in the queue that no announcement will fetch are as many as those that arrived while one announcement was made and another owed |
| IngressModel.StrandedExactly | src/transports/ofi/sofi.c:908-978 | as written, once all announcements are answered, exactly the messages no announcement was made or owed for stay in the queue |
| IngressModel.CorrectedDrains | src/transports/ofi/sofi.c:961-972 | announcing again whenever the queue is not empty, no message stays in it once all announcements are answered |
| IngressModel.LeftBehindExactly | src/transports/ofi/sofi.c:908-978 | some run leaves a message behind exactly as written and with three buffers or more |
| IngressModel.WindowHoldsExactly | src/transports/ofi/sofi.c:818-842 | an active run always has one receive posted, or has put the post off with every buffer populated, exactly when the provider takes every buffer it is offered |
| IngressModel.FreeMeansPosted | src/transports/ofi/sofi.c:885-956 | in an active run whose every offer of a buffer was taken, no free buffer waits with nothing posted, and with nothing posted every buffer is populated |
| IngressRuns.DeliveredInOrder | src/transports/ofi/sofi.c:860-982 | at every point of a run each fetch got one message, and until a flush the messages handed over, followed by those queued, are the ones that arrived, in order and without the keepalives |
| IngressRuns.ArmedExactly | src/transports/ofi/sofi.c:1804-1814 | at a point of an active run one receive is posted, or put off with none posted, exactly when the provider never refused a buffer to a receive event and took every buffer offered late; otherwise none is posted nor put off |
| IngressRuns.LatePostArms | src/transports/ofi/sofi.c:945-952 | while a post is put off, the next fetch whose buffer is taken has one receive posted again |
| IngressRuns.ReceivesAgainExactly | src/transports/ofi/sofi.c:945-952 | at a point of an active run the connection can still come to receive exactly when a receive is posted, or was put off and nanomsg owes a fetch |
| IngressRuns.DeafAfterKeepalive | src/transports/ofi/sofi.c:1804-1814 | a keepalive on an empty queue whose next post gets -EAGAIN: no receive is ever posted again |
| IngressRuns.KeepaliveMakesUp | src/transports/ofi/sofi.c:871-896 | a keepalive is neither queued nor announced, frees its buffer, and makes up for a post put off |
| IngressRuns.NothingPutOffAtReceive | src/transports/ofi/sofi.c:883-891 | in no active run does a receive complete while a post is put off, so that a keepalive never has one to make up for |
| IngressRuns.FlushedForGood | src/transports/ofi/sofi.c:704-734 | from a flush on nothing stays posted, and once nanomsg has fetched what it was told about every buffer is free |
| IngressQueue.Ingress.constructor | src/transports/ofi/sofi.c:1140-1196 | all buffers linked in the free list, in order |
| IngressQueue.Ingress.PopPopulated | src/transports/ofi/sofi.c:531-559 | the first populated buffer in hand, all three lists linked and disjoint |
| IngressQueue.Ingress.PopFree | src/transports/ofi/sofi.c:564-586 | the first free buffer in hand, all three lists linked and disjoint |
| IngressQueue.Ingress.MarkFree | src/transports/ofi/sofi.c:591-628 | a buffer in hand or anywhere in the busy list ends up first of the free list |
| IngressQueue.Ingress.MarkBusy | src/transports/ofi/sofi.c:633-654 | a buffer in hand ends up first of the busy list |
| IngressQueue.Ingress.MarkPopulated | src/transports/ofi/sofi.c:659-699 | a busy buffer ends up last of the populated list |
| IngressQueue.Ingress.PostReceive | src/transports/ofi/sofi.c:739-842 | the post on values, for each answer of the provider |
| IngressQueue.Ingress.HandleCompletion | src/transports/ofi/sofi.c:860-921 | a keepalive frees its buffer and catches up on a post put off; anything else is queued and announced or remembered |
| IngressQueue.Ingress.OnReceive | src/transports/ofi/sofi.c:1796-1814 | the receive event of an active connection |
| IngressQueue.Ingress.FetchMessage | src/transports/ofi/sofi.c:926-982 | the first message, or nothing from an empty queue, and the state after it |
| IngressQueue.Ingress.FlushAll | src/transports/ofi/sofi.c:704-734 | the flush on values, both lists returned in reverse |
| Shutdown.StepKeepsInv | src/transports/ofi/sofi.c:1432-1634 | every event keeps timers, socket phase, ingress queue and credits consistent |
| Shutdown.StopsOnceAndClean | src/transports/ofi/sofi.c:1432-1634 | in every run the owner hears at most once that the connection stopped, and then all credits are back, no buffer is posted or populated, both timers are idle and the socket is closed |
| Shutdown.BuffersStay | src/transports/ofi/sofi.c:1432-1634 | from the stop request to the end no buffer is lost or in two lists, and nanomsg gets the messages in the order they came |
| Shutdown.BuffersForLife | src/transports/ofi/sofi.c:531-982 | from the establishment of a connection through its active run to any point of its shutdown, each buffer is in one list, and nanomsg gets the messages in the order they came |
| Shutdown.PhasesMoveForward | src/transports/ofi/sofi.c:1497-1617 | between any two points of a run the socket never goes back a phase |
| Phases.NoneSkipped | src/transports/ofi/sofi.c:1521-1617 | while the endpoint does not shut down, a connection passes through every phase between the one it has and a later one |
| Phases.OneAtATime | src/transports/ofi/sofi.c:1521-1617 | no event but the end of the endpoint takes a socket that has connected further than to the next phase |
| Phases.DrainsFirst | src/transports/ofi/sofi.c:1589-1595 | between being connected and closing a socket drains, in every run |
| Phases.PhasesExactly | src/transports/ofi/sofi.c:1521-1595 | draining begins with its timer, with nothing in flight, posted or queued; draining and closing end only when their timer has stopped, or with the endpoint |
| Phases.TwoTimers | src/transports/ofi/sofi.c:1521-1565 | while the endpoint does not shut down, a connected socket needs two timers to be closed, one for draining and one for closing |
| Phases.ShutdownCloses | src/transports/ofi/sofi.c:1497-1511 | from the end of the endpoint on the socket is closed |
| Phases.UnconnectedOnlyCloses | src/transports/ofi/sofi.c:1608-1612 | a socket that had not connected by the stop request never drains |
| Phases.EstablishedExactly | src/transports/ofi/sofi.c:1694-1735 | a connection runs on exactly when its first receive was posted and its staged message, if any, was sent; otherwise it stops on a failure |
| Phases.ConnectedIsReady | src/transports/ofi/sofi.c:1694-1735 | in every run, while a connection runs and is connected its keepalive timer is on and one receive is posted |
| Shutdown.AwaitedAreBounded | src/transports/ofi/sofi.c:1432-1617 | however other events fall between, a closing connection sees no more completions, timer ends and expiries than the measure of its state at the stop request |
| Shutdown.StrandedExactly | src/transports/ofi/sofi.c:1572-1585 | a closing connection that can end and owes no fetch awaits nothing exactly when all it was to wait for has already happened |
| Shutdown.StrandsExactly | src/transports/ofi/sofi.c:1572-1585 | a connection that can end can also be left with everything done and no call to come, exactly when nanomsg owes a fetch at the stop request |
| Shutdown.LeftConnected | src/transports/ofi/sofi.c:974-978 | one announced message, a stop, the end of the keepalive timer and the fetch: the socket is still connected and nothing is awaited |
| Shutdown.Ending | src/transports/ofi/sofi.c:1432-1634 | from any closing state with no credit lost, nor in flight after an error, some run leads to the end |
| Shutdown.StopsExactly | src/transports/ofi/sofi.c:1432-1634 | some run from the stop request on ends, exactly when no credit was lost and, on a failure, none or all of the ring is in flight |
| Shutdown.CanStillStopExactly | src/transports/ofi/sofi.c:1432-1634 | a connection that could end when it was asked to stop still can at a later point of a run exactly when no send failed on a clean shutdown and no unexpected endpoint event came in between |
| Shutdown.SendsFromFlow | src/transports/ofi/sofi.c:385-482 | every point of every run of the sending side meets what the shutdown assumes of it, and the credits missing are those of failed sends |
| Shutdown.WaitingFromIngress | src/transports/ofi/sofi.c:704-982 | every run of the receiving side meets what the shutdown assumes of it, and after the flush of the stop request nothing is posted and nothing populated that nanomsg is not about to fetch |
| Shutdown.NeverStopsAfterTxError | src/transports/ofi/sofi.c:1847-1854 | a connection that stops because a transmission failed never ends |
| Shutdown.NeverStopping | src/transports/ofi/sofi.c:1847-1854 | with any number of credits and a ring of one context or more, a run leads to a connection that never ends because a transmission failed |
| Shutdown.NeverFlushed | src/transports/ofi/sofi.c:430-446 | the remote side is gone, no send failed and one of several contexts is in flight: such a connection is reached, and once stopped on a failure it never ends |
| Shutdown.FlushFailsExactly | src/transports/ofi/sofi.c:427-449 | with every credit accounted for, a stop on a failure can keep a connection from its end exactly when the ring has two contexts or more |
| ClosingBooks.NothingHeldAtTheEnd | src/transports/ofi/ofimr.c:412-422 | from the stop request on, the books of the cache agree at every point with the messages in flight, which are as many as the shutdown counts; once the owner hears that the connection stopped, no bank is referenced, as the teardown of the cache asserts, and no slab is in use |
| ClosingBooks.JoinedEndExactly | src/transports/ofi/sofi.c:1432-1634 | cache, ring and shutdown together reach the end in some run exactly when no credit was lost and, on a failure, none or all of the ring was in flight |
| ClosingDown.Closer.Proceed | src/transports/ofi/sofi.c:1572-1632 | the tail of the handler: wait, drain, or stop |
| ClosingDown.Closer.EndpointConnected | src/transports/ofi/sofi.c:1694-1735 | connected with its keepalive timer on, the first receive posted and a staged message sent, or on its way to the end if one of the two failed |
| ClosingDown.Closer.StopRequested | src/transports/ofi/sofi.c:1443-1462 | the stop request over both queues |
| ClosingDown.Closer.TxEvent | src/transports/ofi/sofi.c:1464-1486 | a completion or failed send, dropped after an error |
| ClosingDown.Closer.EndpointShutdown | src/transports/ofi/sofi.c:1497-1511 | the socket is closed and its timer stopped |
| ClosingDown.Closer.DeadlineEvent | src/transports/ofi/sofi.c:1521-1565 | the timer fires, or has stopped and moves the socket on |
| ClosingDown.Closer.Fetch | src/transports/ofi/sofi.c:1418-1427 | a fetch that is still owed, without a call of the handler |
| Keepalive.CountersBounded | src/transports/ofi/sofi.c:84-90 | in every run, whatever traffic is mixed in, the counters stay within 4 and 2 |
| Keepalive.DropsExactly | src/transports/ofi/sofi.c:1864-1905 | in every run a tick drops the connection exactly when a peer saw no arrival for four ticks before it, and else fails exactly when a keepalive is due and cannot be posted |
| Keepalive.KeepalivesExactly | src/transports/ofi/sofi.c:1864-1905 | in every run a peer puts a keepalive on the wire exactly at every third tick since its own traffic |
| Keepalive.NeverDropsExactly | src/transports/ofi/sofi.c:1864-1905 | no run drops the connection exactly when the delay of frames and the lateness of completions come to one tick at most |
| Keepalive.LateByTwo | src/transports/ofi/sofi.c:405-406 | completions two ticks late drop a connection whose frames arrive at once |
| Keepalive.DelayedByTwo | src/transports/ofi/sofi.c:865-866 | frames delayed two ticks drop it with completions in time |
| Keepalive.Counters.OnTick | src/transports/ofi/sofi.c:1864-1905 | expiry, a keepalive or neither, with the counters that follow |
| PollerLock.StepKeepsInv | src/transports/ofi/ofiw.c:80-160 | the right to touch the workers is in one place after every step: poller, holder, or one of the two signals |
| PollerLock.ExclusionExact | src/transports/ofi/ofiw.c:80-160 | for any number of threads a run has at most one inside at a time, with the poller parked, throughout, exactly when no thread but the poller sees `lock_safe` set |
| PollerLock.BrokenExactly | src/transports/ofi/ofiw.c:80-84 | some run breaks exclusion exactly when there is a thread besides the poller |
| PollerLock.OneRound | src/transports/ofi/ofiw.c:80-160 | from rest a thread gets inside with the poller parked, and from there everything comes to be as it was, whatever other threads there are |
| PollerLock.SkipsBoth | src/transports/ofi/ofiw.c:80-115 | while `lock_safe` is set, locking and unlocking leave no trace |
| PollerLock.StrayRelease | src/transports/ofi/ofiw.c:99-115 | a thread that skipped the lock and finds `lock_safe` cleared on its way out leaves the signal to go on behind |
| PollerLock.StraySignalBreaks | src/transports/ofi/ofiw.c:118-160 | with that signal left behind, a thread that skips nothing gets inside while the poller goes on |
| PollerLock.DesertionExact | src/transports/ofi/ofiw.c:109-113 | some run leaves the poller waiting for a signal that will not come, exactly with the signal given before the request is cleared |
| WorkerStop.QuiescenceWhole | src/transports/ofi/ofiw.c:162-180 | with test and signal in one step, over any starts and stops, a stop returns with the poller among the items exactly in runs where it took the short way during one of the worker's own events |
| WorkerStop.ShortWayRun | src/transports/ofi/ofiw.c:535-538 | a run in which a stop takes the short way during an event of its own worker and returns with the poller among the items, whether test and signal are one step or two |
| WorkerStop.NextStopExact | src/transports/ofi/ofiw.c:169-175 | the next stop of a running worker can return too early exactly when a signal is left over or about to be given |
| WorkerStop.LateSignal | src/transports/ofi/ofiw.c:169-175 | a second test of a stopping worker leaves a signal over once the stop has returned |
| WorkerStop.OneRound | src/transports/ofi/ofiw.c:518-553 | a worker is started and attended to, a stop from outside waits for the poller, and when it returns the worker is as new |
| WorkerStop.ActiveExactly | src/transports/ofi/ofiw.c:515-553 | in every run a worker no stop waits for is active exactly when the last call, from outside or by its handler, was a start |
| WorkerStop.NoStopNoSignal | src/transports/ofi/ofiw.c:162-180 | in no run does the poller signal anybody before a stop from outside was asked for |
| WorkerStop.QuiescenceExact | src/transports/ofi/ofiw.c:518-553 | apart from the short way, some stop returns too early exactly because test and signal are two steps |
| Offsets.FirstFree | src/transports/ofi/bofi.c:114-123 | the slot taken is the first one free |
| Offsets.DistinctExactly | src/transports/ofi/bofi.c:109-144 | a history keeps live offsets pairwise distinct throughout exactly when no accepted request finds its first free slot to be that of a live connection |
| Offsets.HistoryExact | src/transports/ofi/bofi.c:109-144 | a history keeps live offsets taken and distinct throughout exactly when no accepted request found the table full; with grown slots marked, always |
| Offsets.BalancedExactly | src/transports/ofi/bofi.c:109-144 | a history keeps live offsets taken and distinct, with one slot lost to every refused connection and to nothing else, exactly when no request that kept its slot found the table full; with grown slots marked, always |
| Offsets.SharingExact | src/transports/ofi/bofi.c:109-144 | two live connections come to share an offset in some history exactly as written, never with the slot marked |
| Offsets.GrownExactly | src/transports/ofi/bofi.c:125-133 | in every history the table has grown by 64 slots for each request that found it full |
| Offsets.StoppedExactly | src/transports/ofi/bofi.c:424-488 | a listener stops exactly after a close, a connection that failed to initialise or an endpoint that did not open anew, and then takes no request |
| Offsets.KeysExact | src/transports/ofi/sofi.c:92-96 | all keys of all connections are distinct exactly when 2 * tx_queue + 1 <= 0x7FF and rx_queue <= 0x800 |
| Offsets.LiveKeysExactly | src/transports/ofi/sofi.c:994-1169 | when the queues fit, a history keeps all keys of live connections distinct throughout exactly when no accepted request is given the slot of a live connection; with grown slots marked, none is |
| Offsets.KeysSafeExactly | src/transports/ofi/sofi.c:994-1169 | in all histories of a listener the keys of live connections are distinct exactly with grown slots marked, 2 * tx_queue + 1 <= 0x7FF and rx_queue <= 0x800 |
| Listening.Bofi.NewSofiOffset | src/transports/ofi/bofi.c:109-134 | the first free slot marked, or the first of 64 new ones unmarked |
| Listening.Bofi.FreeSofiOffset | src/transports/ofi/bofi.c:136-144 | one slot cleared |
| Listening.Bofi.ReapSofi | src/transports/ofi/bofi.c:187-201 | offset given back and connection off the list |
| Listening.Bofi.ConnectionRequest | src/transports/ofi/bofi.c:424-488 | listed with its offset, given back when it fails to initialise, kept when it is not accepted; the listener goes on, or stops when it cannot |

## Left out

- libfabric: registration, completion and event queues answer as parameters and events; its internals are not part of this model.
- The nanomsg core (state machines, contexts, pipes, chunks, timers): events are delivered one at a time under one lock, and a timer is idle in the step that delivers its stopped event. Reference counts of chunks, and a received chunk after it is handed over, are not modelled.
- `ofiapi.c`, `cofi.c` and `ofi.c`: endpoint plumbing, the client reconnect machine and options would add only easy members. Builds with a waitset, the handshake and `nn_sofi_ingress_post_all`, which nothing calls, are not modelled.
- Integers: buffer addresses, lengths and counters are unbounded except the 32-bit age of the cache; the product of key page and offset (`sofi.c:994`) is taken without overflow. Flag words are records of booleans.
- A failed describe leaves the addresses of entries it moved to slabs overwritten and does not free its context; the model keeps messages as values and does not show either.
- MrModel.FindBank: reads nothing from an empty array of banks; the source reads the age of bank 0 there and never uses it.
- MrManagement.MrManager.constructor: the slab memory counts as registered; the source returns the error of that registration and its caller ignores it.
- MrRuns.TransparentExactly: the effect of a mark is taken as if the call returned; MrManager.MarkRegion says that it does not.
- EgressFlow.CreditFlow: a failure outside a clean shutdown ends the run; from there Shutdown goes on with the credits and ClosingBooks with the cache.
- EgressQueue.Egress.HandleCompletion: with a ring of one context the call does not survive, so its state is stated only for two or more; ClosingDown.Closer requires two.
- Shutdown.StepKeepsInv: a stop before the socket has begun to connect ends in the bad-source branch, which aborts; it is modelled and not followed further.
- Shutdown.StopsExactly: provider events may come at any time and any number of times; with none coming, Shutdown.StrandedExactly says when a closing connection waits for good.
- PollerLock.StrayRelease: unlocking a mutex that is not held, which is undefined, is taken to change nothing.
- PollerLock.DesertionExact: that the poller comes round at all is not claimed; the source does not guarantee it.
- WorkerStop.QuiescenceExact: the contexts of nanomsg keep the handler and an outside caller apart; that the two may wait for each other is not modelled.
- Keepalive.NeverDropsExactly: peers tick in lockstep and a receive is always posted. A keepalive that cannot be posted ends the run, and is told apart from a timeout.
- Listening.Bofi.ConnectionRequest: of the passive endpoint only whether it opens anew is modelled; a request that fails to initialise is taken off a list it was never on, of which only its offset is shown.
