# RDMA-General: a verified model

This project models the stateful parts of an RDMA benchmark suite and of the mlx5 user-space
driver that comes with it, and proves what they keep over every run.

- **The MICA allocator** (`mica/alloc`), modules `AllocLayout`, `AllocChunks`, `AllocMemory`,
  `AllocRuns`, `Allocator`: a segregated-fit heap with boundary tags and 32 doubly linked free
  lists threaded through its own memory. `Allocator.Alloc` works on an array of 8-byte words.
  `AllocMemory` says what those words stand for, `AllocChunks` and `AllocRuns` what the chunks
  do over a run.
- **Completion queues** (`cq.c`, `verbs.c`), modules `CqRing`, `CqFifo`, `CqDecompress`,
  `CqPending`, `CqResize`, `CqMove`, `CqStop`, `CqKept`, `CqCases`, `CompletionQueue`: the owner-bit
  protocol, the in-place expansion of compressed entries, the removal of one resource's entries, and
  the move, sessions of compressed entries included, to a resized ring.
  The reference throughout is `CqPending.Pending`, the entries that polling would yield.
- **Send queues, shared receive queues and selective signaling** (`qp.c`, `srq.c`, `verbs.c`,
  `rw-tput-sender`), modules `SqSizing`, `QueueSizing`, `SendQueue`, `Srq`, `Signaling`,
  `SignaledQueue`. The verbs behaviour assumed is that of section 10.8 of the InfiniBand Architecture
  Specification, volume 1: requests of a queue complete in order, and a signaled completion retires
  those before it.
- **The HERD and sequencer protocol** (`herd`, `ws-sequencer`), modules `WindowState`,
  `WindowInv`, `WindowRuns`, `WindowProgress`, `SequencerRuns`, `ClientLoop`, `WorkerPass`: a state
  machine whose steps are a client's post, the delivery of a WRITE, a worker's look at one slot, the
  end of a pass, a response sent and a response received, in any interleaving; and the two halves of a turn
  of the client's loop, before and after its wait, and a worker's pass in place, which are shown to
  take those steps.
- **The MICA key-value store** (`mica/mica.c`), modules `MicaLog`, `MicaIndex`, `MicaStore`,
  `MicaBatch`, `Mica`, `MicaLaps`: a lossy 8-way index over a circular log.
- **Doorbell records** (`dbrec.c`), modules `DoorbellPages`, `DoorbellRecords`, and the
  **latency histogram** (`write-flush/latency.h`), modules `LatencyBins`, `LatencyHistogram`.

`IndexMath` holds the ring arithmetic they share. Check everything with
`dafny verify dfyconfig.toml`.

## Where the code is not what its documentation says

- The allocator's check that a chosen chunk is large enough (`mica/alloc/alloc.c:164`) can fail
  for items above 264 bytes even when a large enough chunk is free. `AllocRuns.AssertCanFail`
  shows a run that ends so in every heap, `AllocRuns.LargeRequests` says exactly when.
- Cleaning a completion queue overlooks the last entry of a completely full ring.
  `CqPending.CleanComplete` says exactly when cleaning is complete; the spare entry added by
  `create_cq` keeps rings from getting that full.
- Resizing a completion queue copies compressed entries slot by slot as if they were plain. A slot of
  mini entries has no opcode and no owner bit, but the copy reads and rewrites its last byte, which
  belongs to the eighth mini entry's byte count; and the slots of a session between its mini entries
  still hold what an earlier lap left there. What is pending is lost or changed in three ways:
  - A last bit that does not fit the slot's index makes the copy give up, and the rings are switched
    all the same: nothing is left to poll (`CqStop.GiveUpLoses`). A byte count of 1 in eighth place is
    enough (`CqCases.OddLengthGivesUp`).
  - A byte count with 5 in bits 4 to 7 reads as the marker (`CqStop.ReadsAsMarker`), and the copy stops
    there and loses the session (`CqStop.CutSessionLost`, `CqCases.EightyBytesStopCopy`).
  - Where the owner bit at the new index is another one, a byte count changes
    (`CqCases.OwnerBitChangesLength`).

  `CqKept.ResizePreservesIff` says exactly when a resize keeps what is pending up to hardware's marker:
  the copy does not give up, the entries fit, no used eighth mini entry changes its owner bit, and, if
  the copy took a slot for the marker too early, that slot is in the last session and the mini entries
  left behind are like those of a slot never written (`CqCases.UnusedEighthKept`).
- The resize copy's check for having gone round the ring (`cq.c:1170`) never fires, because the
  owner bit fails first. The caller switches rings whether or not the copy succeeded.
- `mlx5_free_db` believes its caller: an address inside a page that is not handed out makes the count
  of records wrong, or frees another record or a page in use. `DoorbellRecords.FreeExact` says exactly
  when a free takes back only its own record.
- The links of a shared receive queue are 16 bits wide, but only the device's own limit keeps its size
  to 2^16 entries: a larger one hands out its first entry again after 2^16 posts (`Srq.TooLongHandsOutTwice`).
- Polling at the last request of a batch (`herd/worker.c`, `ws-sequencer/worker.c`) needs
  `postlist < UNSIG_BATCH`; the programs check `UNSIG_BATCH >= postlist`. HERD is saved by
  `MICA_MAX_BATCH_SIZE`.
- The used slots of a MICA bucket are the last ones, not the first as a comment says: the loop
  that picks a slot has no break.
- The MICA log moves on before its physical end only on the first lap, because the test
  subtracts the virtual head. For values of one length every copy stays inside the log exactly
  when the aligned entry size divides the capacity (`MicaLaps.AllFitIff`). With HERD's 32-byte
  values it does not (`MicaLaps.HerdOverruns`).
- `perc(1.0)` reports 3968 whatever the samples are (`LatencyHistogram.RankInRange`).

## Model

| member | source | states |
|---|---|---|
| AllocLayout.TagRoundTrip | mica/alloc/alloc.h:44-100 | a tag word gives back the size and the status it was made from, and its top bit is set iff the chunk is occupied |
| AllocLayout.ClassDecidesFit | mica/alloc/alloc.c:45-68 | for requests of at most 280 bytes a chunk lies in a class at or above the request's first class iff it is large enough; above that iff it has 280 bytes or more |
| AllocChunks.MergeKeepsTiling | mica/alloc/alloc.c:193-266 | merging two neighbouring chunks keeps chunks tiling the heap exactly |
| AllocChunks.SplitKeepsTiling | mica/alloc/alloc.c:296-318 | so does splitting one |
| AllocChunks.ReleaseIsJoining | mica/alloc/alloc.c:334-360 | joining left, then right, then listing the result is the same as releasing the whole free stretch around the chunk |
| AllocChunks.ReleaseKeepsInv | mica/alloc/alloc.c:334-360 | releasing a used chunk keeps the whole heap invariant: tiling, no two free neighbours, stamps, item sizes |
| AllocChunks.CarveKeepsInv | mica/alloc/alloc.c:273-332 | so does carving an item out of a free chunk |
| AllocMemory.ListHoldsClass | mica/alloc/alloc.c:71-128 | following the next pointers from a class's head visits, without repetition and newest first, exactly the free chunks of that class |
| AllocMemory.UnlinkKeepsLinked | mica/alloc/alloc.c:102-128 | taking a chunk off its list rewrites the neighbours' pointers so that all lists stay right |
| AllocMemory.PushKeepsLinked | mica/alloc/alloc.c:71-96 | putting a chunk at the head of its list does, too |
| AllocMemory.FirstHeadIsChosen | mica/alloc/alloc.c:134-180 | the head of the first non-empty list from the request's class on is the newest free chunk of the smallest class that has one |
| AllocMemory.NoHeadMeansNone | mica/alloc/alloc.c:134-180 | when all those lists are empty no free chunk of those classes exists |
| AllocMemory.ItemWriteSound | mica/alloc/alloc.c:273-332 | writing inside a held item disturbs no tag and no list |
| AllocRuns.StepKeepsInv | mica/alloc/alloc.c:273-360 | every allocation and every free keeps the heap invariant |
| AllocRuns.RunKeepsInv | mica/alloc/alloc.c:273-360 | it holds in every state of every run |
| AllocRuns.RunLive | mica/alloc/alloc.c:273-360 | over any run the items held are those allocated and not freed, at their offsets |
| AllocRuns.ItemsDisjoint | mica/alloc/alloc.c:282-331 | a held item's bytes lie between the two tags of its own chunk and meet no other chunk |
| AllocRuns.ItemGets | mica/alloc/alloc.c:284-331 | a new item has its rounded size and two tags, and the rest of the free chunk only where that is too small for a chunk; a larger rest is a free chunk right behind it, and all other chunks stay |
| AllocRuns.ItemGetsLittleMore | mica/alloc/alloc.c:284-331 | so it gets at least 16 and less than 56 bytes beyond what was asked for, and less than 24 when the chunk could be split |
| AllocRuns.FreeFallsBy | mica/alloc/alloc.c:273-332 | the free words of the heap fall by exactly the chunk the item got |
| AllocRuns.FreeRisesBy | mica/alloc/alloc.c:334-360 | freeing an item gives back exactly that many |
| AllocRuns.NothingHeld | mica/alloc/alloc.c:182-186 | with no item held the heap is one free chunk of full size |
| AllocRuns.FreeingAllRestores | mica/alloc/alloc.c:334-360 | however items were allocated and in whatever order they are freed, freeing all of them restores that chunk |
| AllocRuns.SmallRequests | mica/alloc/alloc.c:134-180 | up to 264 bytes a request succeeds iff some free chunk is large enough, and the check never fails |
| AllocRuns.LargeRequests | mica/alloc/alloc.c:134-180 | above that: exactly when it answers no space, exactly when the check fails, exactly when it succeeds |
| AllocRuns.AssertCanFail | mica/alloc/alloc.c:164 | from every heap that can be initialised, a run of two allocations and a free after which allocating 400 bytes fails the check although a chunk large enough is free |
| Allocator.Alloc.constructor | mica/alloc/alloc.c:24-43 | a new heap is one free chunk of the size rounded up to 2 MB, where every run starts |
| Allocator.Alloc.Reset | mica/alloc/alloc.c:182-186 | whatever the heap held, it becomes one free chunk |
| Allocator.Alloc.InsertFreeChunk | mica/alloc/alloc.c:71-96 | both tags and the list pointers are written, the chunk becomes the newest free one, used memory stays |
| Allocator.Alloc.RemoveFromFreeList | mica/alloc/alloc.c:102-128 | the chunk leaves its list and no other |
| Allocator.Alloc.RemoveFromHead | mica/alloc/alloc.c:134-180 | finds the chunk to allocate from, or says truthfully that there is none or that it is too small |
| Allocator.Alloc.CoalesceLeft | mica/alloc/alloc.c:193-228 | joins the chunk with a free left neighbour found through its footer tag |
| Allocator.Alloc.CoalesceRight | mica/alloc/alloc.c:230-266 | joins it with a free right neighbour |
| Allocator.Alloc.Allocate | mica/alloc/alloc.c:273-332 | the words in memory take the step that allocating means (what the item gets is `AllocRuns.ItemGets`), and every held item keeps its bytes |
| Allocator.Alloc.Deallocate | mica/alloc/alloc.c:334-360 | they take the step that freeing means, and every other held item keeps its bytes |
| Allocator.Alloc.WriteItem | mica/alloc/alloc.c:273-332 | a caller's write inside its item changes that word only and keeps the heap valid |
| CqRing.WrapHarmless | drivers/libmlx5-1.0.2mlnx1/src/cq.c:222-251 | a consumer index kept in 32 bits names the same slots and owner bits as an unbounded one |
| CqFifo.AcceptsWhatIsProduced | drivers/libmlx5-1.0.2mlnx1/src/cq.c:222-235 | software accepts its index iff hardware has produced it, and then reads that entry |
| CqFifo.Fifo | drivers/libmlx5-1.0.2mlnx1/src/cq.c:222-251 | over every run and any number of laps, what was read is a prefix of what was written, nothing skipped, repeated or stale |
| CqDecompress.ReceiveCounters | drivers/libmlx5-1.0.2mlnx1/src/cq.c:556-594 | expanded receive entry j has the title's counter plus j, or plus the strides before it, modulo 2^16 |
| CqDecompress.TitleServes | drivers/libmlx5-1.0.2mlnx1/src/cq.c:556-594 | overwriting the title's slot with the first expanded entry does no harm: it fills later entries the same way |
| CqDecompress.NextMinis | drivers/libmlx5-1.0.2mlnx1/src/cq.c:616-640 | the slot with the next eight mini entries is still unwritten when it is read |
| CqDecompress.MiniLiesAt | drivers/libmlx5-1.0.2mlnx1/src/cq.c:616-640 | mini entry j is two consecutive words, eight to a slot: in the slot behind the title, or from the ninth on in every eighth slot |
| CqDecompress.StridesField | drivers/libmlx5-1.0.2mlnx1/src/cq.c:582-588 | the strides of a receive are bits 16 to 30 of its byte count |
| CqDecompress.ExpandedAt | drivers/libmlx5-1.0.2mlnx1/src/cq.c:556-640 | entry j of the expansion is the title filled with mini entry j, plain and owned at its own index |
| CqDecompress.ExpandedFields | drivers/libmlx5-1.0.2mlnx1/src/cq.c:556-640 | field by field: byte count, hash, counter and send opcode come from the mini entry's two words for sends and receives as the device defines them, receive counters from the title's, everything else is the title's |
| CqDecompress.ExpandedElsewhere | drivers/libmlx5-1.0.2mlnx1/src/cq.c:556-640 | slots outside the session are untouched |
| CqPending.SettledHolds | drivers/libmlx5-1.0.2mlnx1/src/cq.c:1076-1082 | after a scan that expands sessions on the way, every entry polling would yield can be read plainly at its index |
| CqPending.KeepMeans | drivers/libmlx5-1.0.2mlnx1/src/cq.c:1034-1054 | what is kept is what does not match, as often as it was there |
| CqPending.KeptInOrder | drivers/libmlx5-1.0.2mlnx1/src/cq.c:1034-1054 | kept are exactly the entries of other queue pairs, or from version 1 on those with another user index, in the order they stood |
| CqPending.ReturnedInOrder | drivers/libmlx5-1.0.2mlnx1/src/cq.c:1034-1054 | returned are the receive entries of dropped entries with a shared queue number, or from version 1 on with a responder opcode, the last first |
| CqPending.SweptIsCleaned | drivers/libmlx5-1.0.2mlnx1/src/cq.c:1084-1112 | however long it is polled, the swept ring yields what is kept, in order, then what was behind it, and nothing after that |
| CqPending.CleanComplete | drivers/libmlx5-1.0.2mlnx1/src/cq.c:1076-1082 | every matching entry goes iff the ring was not completely full or its last entry does not match |
| CqMove.ExpandTwins | drivers/libmlx5-1.0.2mlnx1/src/cq.c:556-640 | expanding a session and its copy one index on, in a ring of another size, with the same mini entries, leaves the same in both rings but for owner bits, which fit their indices in each |
| CqMove.MoveIff | drivers/libmlx5-1.0.2mlnx1/src/cq.c:1131-1176 | of entries that fit, sessions included, polling yields the same payloads before and after the move iff no used eighth mini entry changes its owner bit |
| CqMove.LessThanTwoLaps | drivers/libmlx5-1.0.2mlnx1/src/cq.c:222-251 | however a ring was filled, as long as no session met is longer than the ring, polling it, expanding sessions on the way, ends before it has gone round twice |
| CqMove.CopyPreservesIff | drivers/libmlx5-1.0.2mlnx1/src/cq.c:1131-1176 | after a copy that comes to the marker, polling the new ring in full yields exactly what was pending before it, sessions included, iff the entries fit and no used eighth mini entry changes its owner bit |
| CqStop.StopsBefore | drivers/libmlx5-1.0.2mlnx1/src/cq.c:1131-1176 | the copy never goes past hardware's marker, and comes to it iff every slot before has a fitting owner bit and does not read as the marker |
| CqStop.GiveUpCloses | drivers/libmlx5-1.0.2mlnx1/src/cq.c:1155-1169 | after a copy of less than two laps that gave up, nothing can be polled from the new ring |
| CqStop.GiveUpLoses | drivers/libmlx5-1.0.2mlnx1/src/cq.c:1155-1169 | however much it copied, a copy that gives up loses pending entries |
| CqKept.EntriesAlike | drivers/libmlx5-1.0.2mlnx1/src/cq.c:556-594 | sessions with the same title expand to the same entries iff their mini entries agree in the fields the title takes from them |
| CqKept.EarlyStopIff | drivers/libmlx5-1.0.2mlnx1/src/cq.c:1131-1176 | a copy that takes a slot for the marker before hardware's, entries fitting, keeps what is pending iff the session it stops in is the last, the mini entries left behind there are like those of a slot never written, and no used eighth mini entry copied changes its owner bit |
| CqKept.ResizePreservesIff | drivers/libmlx5-1.0.2mlnx1/src/cq.c:1131-1176 | wherever hardware put its marker and wherever the copy stops, polling the new ring in full yields exactly what was pending before the marker iff the copy did not give up, the entries fit, and nothing the copy changed or left behind matters; it comes to the marker iff all slots before have fitting owner bits and do not read as it |
| CqStop.ReadsAsMarker | drivers/libmlx5-1.0.2mlnx1/src/cq.c:1150-1160 | a slot of mini entries reads as the marker iff the eighth one's byte count has 5 in bits 4 to 7 |
| CqStop.CutSessionLost | drivers/libmlx5-1.0.2mlnx1/src/cq.c:1131-1176 | on every ring where the copy takes a slot for the marker before hardware's, what can be polled afterwards is not what was pending, unless the session it stops in is the last and the slot has no eighth mini entry in use |
| CqCases.SampleRing | drivers/libmlx5-1.0.2mlnx1/src/cq.c:1131-1176 | the rings the next four rows speak of exist, for every place and length of the session |
| CqCases.EightyBytesStopCopy | drivers/libmlx5-1.0.2mlnx1/src/cq.c:1131-1176 | sessions whose eighth receive has 80 bytes, on which that happens, whatever the new ring's size |
| CqCases.OwnerBitChangesLength | drivers/libmlx5-1.0.2mlnx1/src/cq.c:1131-1176 | sessions that fit into the new ring and come out with another byte count |
| CqCases.OddLengthGivesUp | drivers/libmlx5-1.0.2mlnx1/src/cq.c:1165-1169 | sessions whose eighth receive has one byte, on which the copy gives up although everything fits and agrees, and nothing is left to poll |
| CqCases.UnusedEighthKept | drivers/libmlx5-1.0.2mlnx1/src/cq.c:1131-1176 | a session of fewer than eight empty receives on which the copy stops early and loses nothing |
| CqResize.ReachedNext | drivers/libmlx5-1.0.2mlnx1/src/cq.c:1165-1173 | as long as owner bits fit the copy has not gone round the ring |
| CompletionQueue.Cq.constructor | drivers/libmlx5-1.0.2mlnx1/src/cq.c:1207-1213 | a new ring is all invalid slots, and polling it yields nothing |
| CompletionQueue.Cq.CopyCqes | drivers/libmlx5-1.0.2mlnx1/src/cq.c:556-594 | copying up to eight mini entries in place writes the next entries of the expansion and carries the counter on |
| CompletionQueue.Cq.DecompressIdx | drivers/libmlx5-1.0.2mlnx1/src/cq.c:616-640 | decompressing in place equals expanding out of place, for every count; the fields of each entry are `CqDecompress.ExpandedFields` |
| CompletionQueue.Cq.Scan | drivers/libmlx5-1.0.2mlnx1/src/cq.c:1076-1082 | finds the producer index, one short on a full ring, and expands every session passed |
| CompletionQueue.Cq.FreeResCqe | drivers/libmlx5-1.0.2mlnx1/src/cq.c:1034-1054 | says whether an entry has the queue pair's number, or from version 1 on the user index, and returns its receive entry to the shared queue iff it is a response of one |
| CompletionQueue.Cq.Sweep | drivers/libmlx5-1.0.2mlnx1/src/cq.c:1084-1112 | drops matching entries, moves the others up, and frees each dropped receive entry exactly once, in sweep order |
| CompletionQueue.Cq.Clean | drivers/libmlx5-1.0.2mlnx1/src/cq.c:1056-1112 | pending entries afterwards are those before with the resource's filtered out (`CqPending.KeptInOrder`), in the same order, and nothing after them |
| CompletionQueue.Cq.ResizeCopy | drivers/libmlx5-1.0.2mlnx1/src/cq.c:1131-1176 | copies exactly the entries before the stop, retagged for the new ring; stops at the first slot that reads as the marker or, giving up, at the first whose owner bit does not fit |
| CompletionQueue.Cq.Resize | drivers/libmlx5-1.0.2mlnx1/src/verbs.c:781-811 | the new ring holds exactly the entries before the stop, retagged; after a copy that gave up nothing can be polled; polling in full yields what was pending up to hardware's marker iff that is kept |
| CompletionQueue.Cq.PollOne | drivers/libmlx5-1.0.2mlnx1/src/cq.c:685-697 | one poll takes the first pending entry and leaves the others pending |
| SqSizing.RoundUpPow2 | drivers/libmlx5-1.0.2mlnx1/src/verbs.c:495-508 | the power of two not below the size and below twice the size; an error exactly for sizes above 2^30 |
| SqSizing.CalcSqSize | drivers/libmlx5-1.0.2mlnx1/src/verbs.c:1209-1272 | exactly when sizing succeeds: the request is not too large, the sizes fit an int, some power of two of blocks the device allows is enough, and enough segments fit; then the ring is less than twice what was asked for, has room for exactly as many largest requests as may be posted, at least as many as asked for, and its size divides 2^16 |
| QueueSizing.CqSize | drivers/libmlx5-1.0.2mlnx1/src/verbs.c:625-636 | exactly which sizes are accepted; the ring is the least power of two with at least one entry to spare |
| QueueSizing.CleanWithinSize | drivers/libmlx5-1.0.2mlnx1/src/verbs.c:625-636 | with the spare entry, cleaning is complete whenever no more entries are pending than the queue was made for |
| QueueSizing.SrqSize | drivers/libmlx5-1.0.2mlnx1/src/verbs.c:886-888 | a shared receive queue gets the least power of two of entries above the requests asked for |
| QueueSizing.RefusedOnlyWhenFull | drivers/libmlx5-1.0.2mlnx1/src/srq.c:121-157 | so that a post is refused only when that many requests are outstanding |
| SendQueue.OverflowExact | drivers/libmlx5-1.0.2mlnx1/src/qp.c:268-291 | the overflow test, on counters that wrap, fires iff max_post requests are not retired |
| SendQueue.BlocksSafe | drivers/libmlx5-1.0.2mlnx1/src/qp.c:1598-1643 | a request let through shares no ring slot with one not retired |
| SendQueue.PollKeepsInv | drivers/libmlx5-1.0.2mlnx1/src/cq.c:789-821 | polling request h reports h's identity, sets the tail to h + 1 and retires the unsignaled requests before it |
| SendQueue.RunKeepsInv | drivers/libmlx5-1.0.2mlnx1/src/qp.c:1598-1643 | the ring's tables and counters stay right in every interleaving of posts, list ends and completions |
| SendQueue.RunBounded | drivers/libmlx5-1.0.2mlnx1/src/qp.c:268-291 | in every interleaving at most max_post requests are not retired, and posts are refused iff that many are |
| SendQueue.RunKeepsBlocks | drivers/libmlx5-1.0.2mlnx1/src/qp.c:1598-1643 | in every interleaving no post writes a block of a request not retired |
| SendQueue.RunReportsRight | drivers/libmlx5-1.0.2mlnx1/src/cq.c:789-821 | in every interleaving a completion reports the identity it was posted with and never moves the tail past the head |
| SendQueue.TurnedAway | drivers/libmlx5-1.0.2mlnx1/src/qp.c:268-291 | a request is turned away iff max_post requests are outstanding or it gathers too many segments |
| SendQueue.HistManyLog | drivers/libmlx5-1.0.2mlnx1/src/qp.c:1598-1643 | posting a list appends its requests, with their identities and blocks, in order, and retires nothing |
| SendQueue.Queue.constructor | drivers/libmlx5-1.0.2mlnx1/src/qp.c:247-258 | a new queue is valid and has posted nothing |
| SendQueue.Queue.PostSend | drivers/libmlx5-1.0.2mlnx1/src/qp.c:1598-1643 | posting a list in place appends exactly a prefix of its identities and block counts, all of it unless the queue is full or a request gathers too many segments |
| SendQueue.Queue.PollReq | drivers/libmlx5-1.0.2mlnx1/src/cq.c:789-821 | returns the identity of the completed request and retires up to it |
| Srq.ReusedInOrder | drivers/libmlx5-1.0.2mlnx1/src/srq.c:76-157 | over every run free and posted entries partition the queue, the last free one is never handed out, and entries are reused in the order they were freed |
| Srq.RecordedAt | drivers/libmlx5-1.0.2mlnx1/src/srq.c:121-157 | each posted request's identifier can be read back from its entry; other entries keep theirs |
| Srq.LinksExact | drivers/libmlx5-1.0.2mlnx1/src/srq.c:225-228 | with 16-bit links the entries of a new queue are linked in order iff there are at most 2^16 |
| Srq.TooLongHandsOutTwice | drivers/libmlx5-1.0.2mlnx1/src/srq.c:225-228 | a longer queue comes back to its first entry after 2^16 posts |
| Srq.SharedReceiveQueue.constructor | drivers/libmlx5-1.0.2mlnx1/src/srq.c:225-231 | all entries are free, linked in order, iff there are at most 2^16 |
| Srq.SharedReceiveQueue.PostRecv | drivers/libmlx5-1.0.2mlnx1/src/srq.c:121-157 | takes entries from the front of the free list, one per request, until a request is refused, and says why |
| Srq.SharedReceiveQueue.FreeWqe | drivers/libmlx5-1.0.2mlnx1/src/srq.c:76-87 | an outstanding entry goes to the end of the free list |
| Signaling.WaitsExactly | rw-tput-sender/main.cc:123-160 | of the numbers that can come next the sender waits at exactly one |
| Signaling.NeverStuck | herd/worker.c:204-217 | with lists short enough no wait is for a request not yet posted, in runs of any length |
| Signaling.HangsOtherwise | herd/worker.c:18-21 | with longer lists a run exists that hangs: the length check is exact |
| Signaling.BoundedUnAcked | README.md:93-121 | at most 2 * UNSIG_BATCH - 1 requests are un-acked, in runs of any length; one fewer when the sender waits at the last request of a batch |
| Signaling.BoundIsTight | rw-tput-sender/main.cc:214-215 | a run reaches the bound, for both places to wait and every list length |
| Signaling.PostList | rw-tput-sender/main.cc:123-160 | building a list never waits for a completion that cannot come, and the list is posted whole |
| Signaling.RunServer | rw-tput-sender/main.cc:123-160 | after any number of rounds every queue pair has built and posted a list for each round that fell to it |
| SignaledQueue.NoneTurnedAway | README.md:93-121 | on a queue with room for as many requests as can be un-acked, no request of a sender that follows the rule is turned away for lack of room, in runs of any length |
| SignaledQueue.RoomIsNeeded | drivers/libmlx5-1.0.2mlnx1/src/qp.c:268-291 | with room for fewer there is a run in which one is |
| WindowInv.OffsetInjective | herd/main.h:45-46 | OFFSET gives every slot of every window its own place |
| WindowInv.OffsetLayout | herd/main.h:45-46 | slots of a window follow each other, then the next client's window, then the next worker's |
| WindowInv.RegionsSuffice | herd/main.h:44-46 | every slot of every window of every worker lies inside its program's region |
| WindowInv.FindsNext | herd/worker.c:168-176 | a worker finds a request in the slot it looks at iff one it has not taken is there, and it is the next in sending order |
| WindowRuns.StepKeeps | herd/client.c:117-192 | every step of client, network and worker keeps the invariant of the protocol |
| WindowRuns.RunKeeps | herd/client.c:117-192 | it holds in every state of every interleaving |
| WindowRuns.SlotsNeverOverwritten | herd/client.c:140-189 | in every interleaving a delivered WRITE lands in the slot of its number, which holds no untaken request and belongs to no earlier request that is not answered |
| WindowRuns.TakenInOrder | herd/worker.c:159-222 | in every interleaving a worker takes each client's requests exactly once and in sending order |
| WindowRuns.RecvsSuffice | herd/client.c:134-154 | in every interleaving as many RECVs are posted as responses are on their way, all workers together, and at most two windows |
| WindowRuns.WaitsForSomebody | herd/client.c:151-154 | a client waiting for a window is owed a response by some worker |
| WindowProgress.TowardsLowers | herd/worker.c:142-260 | every step of client, network or worker towards a response a client is owed lowers a rank |
| WindowProgress.ComesToWindow | herd/client.c:151-154 | from every state of the protocol with a client waiting, that many steps at most bring its window of responses |
| WindowProgress.NeverDeadlocked | herd/client.c:151-154 | from every reachable state with a client waiting, steps towards responses it is owed lead to all of them being there and the wait ending |
| ClientLoop.PostIsSteps | herd/client.c:137-150 | the first half of a turn, up to the wait, consists of steps of the protocol, from any head of the loop |
| ClientLoop.SendIsSteps | herd/client.c:152-191 | so does the second, from the moment the window waited for is there |
| ClientLoop.OthersKeepPlace | herd/client.c:137-154 | whatever the others do meanwhile leaves a client where it is in its turn |
| ClientLoop.AlwaysInTurn | herd/client.c:137-191 | in every interleaving a client is at the head, at the wait or about to send |
| ClientLoop.Loop.constructor | herd/client.c:117-121 | a client starts with a window of RECVs posted |
| ClientLoop.Loop.PostDue | herd/client.c:137-150 | posts a window of RECVs exactly after a full window |
| ClientLoop.Loop.FinishTurn | herd/client.c:152-191 | takes the window waited for exactly after a full window, then sends to the next slot |
| SequencerRuns.RunNumbers | ws-sequencer/worker.c:141-229 | the numbering invariant holds in every state of every interleaving of workers |
| SequencerRuns.NumbersConsecutive | ws-sequencer/worker.c:207-217 | in every interleaving the k-th number put into a response is k, so the numbers are exactly 0 .. counter - 1, each once |
| SequencerRuns.NumbersExact | ws-sequencer/worker.c:206-229 | each taken request has exactly one number once its batch is closed, and no other request has one |
| WorkerPass.TurnIsStep | herd/worker.c:159-176 | a turn of the polling loop is the protocol's polling step as the worker sees it |
| WorkerPass.PassTook | herd/worker.c:159-176 | the clients a pass picks, and only they, have their window moved on and their request taken: GET where HERD's GET was sent and PUT where its PUT was, the rest of the request unchanged, and no other slot touched |
| WorkerPass.AllWaitingTaken | herd/worker.c:159-222 | a pass that does not fill its batch picks exactly the clients with a request in their slot |
| WorkerPass.OncePerClient | herd/worker.c:159-222 | a pass takes at most one request from each client |
| WorkerPass.AtMostAPostlist | herd/worker.c:219-221 | and never more than a postlist |
| WorkerPass.PortTracks | herd/worker.c:108-121 | cycling the port with the client keeps it the client's index modulo the number of ports |
| WorkerPass.InItsList | herd/worker.c:180-188 | every response is in the list of its port |
| WorkerPass.EndChains | herd/worker.c:243-253 | each port's chain, from its first response over the links to the end, is exactly that port's responses in the order taken |
| WorkerPass.Worker.Turn | herd/worker.c:159-176 | a turn in place changes slot, window and client as the protocol's step does, and leaves MICA's GET or PUT exactly where HERD's was sent |
| WorkerPass.Worker.RunPass | herd/worker.c:142-253 | a pass in place takes what the protocol's pass takes, leaves MICA's opcodes for it, and posts one chain per port |
| MicaLog.AppendMirrors | mica/mica.c:120-142 | copying an entry at the head keeps the memory equal to the last bytes of the virtual log |
| MicaLog.UpdateMirrors | mica/mica.c:235 | so does overwriting bytes still in it |
| MicaIndex.InsertKeepsBucket | mica/mica.c:98-118 | the slot chosen keeps used slots last with distinct tags, and evicts another tag only from a full bucket without this one (which one is `ChosenBelongs`) |
| MicaIndex.FindIs | mica/mica.c:189-213 | at most one slot answers a lookup |
| MicaIndex.KeyFields | mica/mica.h:46-51 | bucket and tag are the little-endian words at bytes 8 and 14 of the key |
| MicaIndex.ChosenBelongs | mica/mica.c:98-112 | an insert uses the slot with the tag, else the last empty slot, else slot tag modulo 8 |
| MicaIndex.EntryLayout | mica/mica.c:120-131 | the bytes of a log entry are key, opcode, length and value |
| MicaStore.NextHeadOk | mica/mica.c:132-142 | the head stays aligned, passes the entry written, and on the first lap always leaves room for one more |
| MicaStore.NextHeadIs | mica/mica.c:132-142 | the next multiple of 8, or the end of the log when fewer than 79 bytes would be left; past the first lap that no longer happens |
| MicaStore.FirstLapFits | mica/mica.c:120-131 | on the first lap every entry fits |
| MicaStore.InsertKeepsStore | mica/mica.c:78-145 | after an insert every used slot still names an entry with its bucket and tag and the last value put for its key, and the new key is found |
| MicaStore.InsertChangesOne | mica/mica.c:98-118 | an insert changes one slot of the index, and which |
| MicaStore.LookupIff | mica/mica.c:189-213 | a key is found iff a slot of its bucket has its tag and the head has not lapped the entry |
| MicaStore.OthersStillFound | mica/mica.c:98-118 | every other key is found as before unless its slot was the one taken or the head has lapped it |
| MicaStore.LookupPins | mica/mica.c:189-213 | an entry a lookup finds with the right key holds the last value put, and no other slot names that key |
| MicaBatch.InsertKeepsPins | mica/mica.c:217-264 | an insert within a batch leaves the other operations' lookups good, evictions included |
| MicaBatch.UpdateKeepsPins | mica/mica.c:217-264 | so does an update in place |
| MicaBatch.AnswerShows | mica/mica.c:226-231 | where a successful GET points, the last value put for its key can be read |
| Mica.Store.constructor | mica/mica.c:14-76 | an empty store |
| Mica.Store.InsertOne | mica/mica.c:78-145 | the store maps the key to the value and finds it; one slot of the index changes, an eviction being counted iff the bucket was full without the tag; exactly when the insert aborts or would copy past the end |
| Mica.Store.UpdateInPlace | mica/mica.c:233-241 | the value is replaced where it is; a different length aborts |
| Mica.Store.FindAll | mica/mica.c:179-214 | every operation's lookup, made before the first write |
| Mica.Store.BatchOp | mica/mica.c:153-265 | GETs succeed iff the key was found at the start and then point at the last value put for it when the batch ends, unless the batch lapped the entry; PUTs take effect in order; statistics count every operation once |
| Mica.Store.PutThenGet | mica/mica.c:153-265 | exactly how the PUT ends; if well, a GET after it succeeds with the value put, whatever had to be evicted or overwritten |
| MicaLaps.AllFitIff | mica/mica.c:120-142 | with values of one length no insert on any lap ends in a copy past the end of the log iff the aligned entry size divides the capacity; otherwise one does |
| MicaLaps.HerdOverruns | herd/main.h:18-21 | with HERD's value size and log capacity some copy does not |
| DoorbellPages.RecordsApart | drivers/libmlx5-1.0.2mlnx1/src/dbrec.c:109-112 | records handed out lie inside their page and share no cache line |
| DoorbellPages.SomeSet | drivers/libmlx5-1.0.2mlnx1/src/dbrec.c:104-110 | while fewer bits are clear than there are records, one of the records' bits is set |
| DoorbellRecords.RoomIsFound | drivers/libmlx5-1.0.2mlnx1/src/dbrec.c:104-110 | a page with room has its first set bit below num_db, whatever spare bits its last word has |
| DoorbellRecords.NewPageInFront | drivers/libmlx5-1.0.2mlnx1/src/dbrec.c:52-118 | with every page full the new page goes to the front of the list and its first record is handed out |
| DoorbellRecords.AddressRoundTrip | drivers/libmlx5-1.0.2mlnx1/src/dbrec.c:128-136 | the address of a record leads back to its page and bit |
| DoorbellRecords.FreeKeeps | drivers/libmlx5-1.0.2mlnx1/src/dbrec.c:120-147 | freeing a record makes exactly that one free, and drops a page that has none left |
| DoorbellRecords.FreeAlwaysDefined | drivers/libmlx5-1.0.2mlnx1/src/dbrec.c:128-136 | when the cache line divides the page, every address inside a page has its bit |
| DoorbellRecords.FreeExact | drivers/libmlx5-1.0.2mlnx1/src/dbrec.c:120-147 | a free keeps the list sound and takes back only its own address iff that was handed out or lies in no page |
| DoorbellRecords.FreeRestores | drivers/libmlx5-1.0.2mlnx1/src/dbrec.c:87-147 | freeing the record just allocated restores the list, page for page and bit for bit |
| DoorbellRecords.Context.Scan | drivers/libmlx5-1.0.2mlnx1/src/dbrec.c:106-110 | the scan over words ends and finds the first set bit |
| DoorbellRecords.Context.AllocDbrec | drivers/libmlx5-1.0.2mlnx1/src/dbrec.c:87-118 | hands out one record that was not handed out; fails iff all pages are full and none can be added |
| DoorbellRecords.Context.FreeDb | drivers/libmlx5-1.0.2mlnx1/src/dbrec.c:120-147 | takes back exactly that record iff it was handed out or lies in no page; an address in no page changes nothing |
| DoorbellRecords.Context.AllocThenFree | drivers/libmlx5-1.0.2mlnx1/src/dbrec.c:87-147 | fails iff all pages are full and none can be added; otherwise the first free record is handed out in between, and the list is left as it was |
| LatencyBins.BinsInOrder | write-flush/latency.h:26-39 | a bin stands for its smallest sample, and a sample lies before a bin iff it is below that |
| LatencyBins.BinWidths | write-flush/latency.h:26-39 | the bins of the n-th array are 2^n wide: below 128 samples are exact, above they are short by less than the width, from 3968 on they overflow |
| LatencyBins.NthSmallest | write-flush/latency.h:120-134 | the bin where the running count passes t is the bin of the t-th smallest sample |
| LatencyHistogram.SumNear | write-flush/latency.h:67-77 | the sum reported never exceeds the true sum and falls short by less than 16 a sample below 3968 |
| LatencyHistogram.RankInRange | write-flush/latency.h:120-122 | a fraction names the rank of a sample iff it is below one |
| LatencyHistogram.Latency.Update | write-flush/latency.h:26-39 | records one sample more |
| LatencyHistogram.Latency.Add | write-flush/latency.h:42-51 | merging equals recording both sample sequences, even into itself |
| LatencyHistogram.Latency.Count | write-flush/latency.h:54-64 | the number of samples recorded |
| LatencyHistogram.Latency.Total | write-flush/latency.h:67-77 | the sum of the values the samples' bins stand for |
| LatencyHistogram.Latency.Min | write-flush/latency.h:86-100 | the value of the smallest sample's bin, 3968 without samples |
| LatencyHistogram.Latency.Max | write-flush/latency.h:103-117 | the value of the largest sample's bin, 0 without samples |
| LatencyHistogram.Latency.Perc | write-flush/latency.h:120-134 | the value of the bin of the sample with the rank asked for |

## Left out

- Verbs, kernel and memcached calls, connection set-up, shared memory and NUMA placement
  (`libhrd`, `libhrd_cpp`): foreign I/O. Buffers obtained from the system are parameters.
- Doorbell writes, memory barriers, BlueFlame copies, cycle counters and PCIe statistics.
- The burst, multi-packet and erasure-coding send paths (`qp.c:1969-2513`, `ec.c`): they keep
  `wqe_head` by another convention and skip the overflow test.
- The huge-page bitmap allocator (`bitmap.h`, `buf.c`), and everything in the suite's other
  micro-benchmarks.
- The ss-sequencer client's counter reconstruction, and the signaling of ss-echo and
  ud-receiver, which repeat the pattern of rw-tput-sender and HERD.
- CityHash, random choices, timing, printing and argument parsing. A MICA key is its 16 bytes.
- Locks: each driver object is used by one thread at a time.
- Packet loss: delivery is reliable and in order per connection, and the write of one request
  is atomic. Window, client count and opcodes are those of the two programs' headers; the
  non-postlist variants they switch off are not modelled.
- Masks with a power of two minus one are remainders, and indices are unbounded where a lemma
  shows that the width does not matter (`CqRing.WrapHarmless`, `SendQueue.OverflowExact`).
- 128-byte completion entries, and the contents of work requests.
- CompletionQueue.Cq.Clean: requires that hardware's compressed sessions end within the lap
  they start in, which is hardware's promise.
- CompletionQueue.Cq.Resize: hardware is taken to end every session, of at least one entry, before its
  marker. Where entries do not fit or the copy gave up, polling the new ring is taken to be defined: no
  session read from it is longer than the ring. Where they do not fit and the copy also stops in the
  last session, at a slot without an eighth mini entry in use, what it yields is left open.
- SqSizing.CalcSqSize: takes the size of the largest request and its segments as computed; the
  tighter limit of DC initiators is left out.
- Mica.Store.BatchOp: stops at the first operation whose entry the batch itself has lapped, that
  would copy past the end of the log, or that trips an assertion, because what follows is not
  determined by the source.
- DoorbellRecords.Context.FreeDb: requires that the bit it sets exists, which it does for every
  address when the cache line divides the page; the list of pages is a sequence, not prev and next
  pointers.
- LatencyHistogram.Latency.Perc: arithmetic is over reals, and bins do not overflow; `avg` and
  `print` are left out.
