# RTXmacOC: memory management and submission core, modelled and proved in Dafny

The driver brings up an NVIDIA GPU from portable C. This project models the part that decides where
things go in video memory, how the GPU finds them, and how work and messages reach it, and proves what
that part is for:

| file | models |
|---|---|
| `Words`, `Bytes`, `LittleEndian`, `ExclusiveOr`, `Alignment` | fixed-width words, bytes in words, little-endian fields, exclusive or, power-of-two alignment |
| `Pramin` | the 1 MiB window onto video memory, with the hardware behind it and the driver's cached base |
| `GmmuWalk`, `Gmmu`, `GmmuBranch` | a page walker written independently of the builders, the range planner and builder, the older single-branch builder |
| `VramRange`, `VramPool`, `MemoryPlan` | the first-fit range finder, the handle-based pool, the layout of the owned range |
| `Fifo`, `Engine`, `Exec`, `Handover` | the pushbuffer stream with a decoder, the GPU as an asynchronous machine, one submission and its wait, the channel's place in a planned layout |
| `FrameBuffer`, `ResourceMap`, `ResourceApi`, `UserClient` | byte access to the scratch region, resources as an abstract map, the requests a client may make, the client itself |
| `FwLayout`, `Radix3` | placement of the protected firmware region, the three-level image table |
| `CommandQueue`, `RpcChannel` | framing of a request with its checksum, one remote call against a GSP that posts at any time |

Memory is a map from byte addresses to 32-bit words. A `u32` or `u64` carries its bound, so where C may
not wrap, that it does not is proved at the assignment; where C wraps, the remainder is written out.
Shifts and masks by constants are quotients and remainders; `x & (a - 1)` for a variable `a`, and
exclusive or, are defined bit by bit. Null pointers are excluded by the types.

Three kinds of surroundings are parameters. The GPU engine runs an arbitrary burst of steps before every
access of the driver to video memory, taken from a `schedule`; the GSP posts arbitrary well-formed
messages before every access to its queue, taken from another; a copy between kernel and user memory
fails after an arbitrary number of bytes. A contract proved for every schedule holds for every
interleaving.

Where the code does not meet its purpose on all inputs, the exact condition is proved, with a failing
input beside it:

* the PRAMIN window reaches the byte it was asked for exactly below 2^40 (`AimReaches`, `AimMisses`);
* a firmware layout that is accepted is the intended one exactly for bounded inputs; a bootloader of
  2^64 - 1 bytes is accepted (`PlacedIsSound`, `FwLayout.WrapAccepted`);
* an accepted image size is covered by the table exactly up to 2^64 - 4096 (`CoversExactly`,
  `Radix3.WrapAccepted`);
* a request element stays inside the command queue exactly if it ends by slot 63; the code does not
  check, and two pages from slot 62 spill over (`CommandQueue.Send`, `SpillsOver`);
* a reply is handed over exactly if it does not wrap past the end of the ring; one that wraps is refused
  and stays in the queue (`RpcChannel.Channel.Call`, `WrappingReply`);
* the wait for a reply ends within its budget exactly for timeouts up to 4 294 967 000 us
  (`BudgetIsReached`, `BudgetMissed`);
* a GPFIFO entry names its pushbuffer exactly below 2^40 and 4-aligned (`EntryDecodes`, `EntryMisses`);
* a reply was posted after its request exactly if no unread message matched before it; a late reply to a
  call that timed out answers the next call of the same function (`AnswerAge`, `LateReply`);
* a copy that times out has been executed all the same exactly if the semaphore read made for the log
  shows its payload, and for every submission and every number of polls there is an engine schedule under
  which that happens (`ExecutedIfShown`, `FinishesUnseen`);
* a submission is polled as often as its timeout asks exactly up to 85 899 345 ms; one more is polled four
  times, and 2^31 ms, alone, not at all (`TicksExact`, `NoTicks`, `FewTicks`).

Outside what a function documents lies one more: the fill loop of the window ends exactly for lengths up to
2^32 - 4, and the lengths beyond, which never end it, are not multiples of four, as its header asks
(`FillEnds`).

`dafny verify dfyconfig.toml` checks everything.

## Model

| member | source | states |
|---|---|---|
| PraminWindow.AimReaches | driver/gsp/gmmu.c:15-23 | after aiming, the window shows the byte asked for in video memory if and only if the address is below 2^40 |
| PraminWindow.AimMisses | driver/gsp/gmmu.c:15-23 | at 2^40 the window shows address zero of another memory |
| PraminWindow.StepIsFlat | driver/gsp/gmmu.c:25-37 | with a coherent cached base, one windowed read or write is a direct access, leaves system memory alone and keeps the cache coherent |
| PraminWindow.FillIsFlat | driver/gsp/gmmu.c:45-50 | a windowed fill equals a flat fill, also across window boundaries |
| PraminWindow.WindowRefinesFlat | driver/gsp/gmmu.c:15-50 | any sequence of windowed 32-bit reads, 32/64-bit writes and fills below 2^40 reads and leaves what direct access to video memory would |
| PraminWindow.Pramin.Aim | driver/gsp/gmmu.c:15-23 | the register is rewritten exactly when the base changes, counted in writes, and the cache follows it |
| PraminWindow.Pramin.Rd32 | driver/gsp/gmmu.c:25-30 | returns the word of video memory, changes no memory |
| PraminWindow.Pramin.Wr32 | driver/gsp/gmmu.c:32-37 | changes exactly that word, and records what it replaced |
| PraminWindow.Pramin.Wr64 | driver/gsp/gmmu.c:39-43 | changes exactly the two words, low half first |
| PraminWindow.Pramin.Fill | driver/gsp/gmmu.c:45-50 | stores exactly the whole words up to the length, in order |
| PraminWindow.FillEnds | driver/gsp/gmmu.c:48-49 | the 32-bit counter of the fill loop reaches the length exactly up to 2^32 - 4 |
| GmmuWalk.PteDecodes | driver/gsp/gmmu.c:61-69 | a leaf entry decodes to its page frame, is valid, in video memory, shows read-only and privileged exactly as asked, and has no other bit set |
| GmmuWalk.PdeDecodes | driver/gsp/gmmu.c:71-74 | a directory entry decodes to its table and to the video-memory aperture |
| GmmuWalk.WalkFrom | tools/gmmu_test.c:225-244 | from any table of a partly built range, the walk finds exactly the pages written so far |
| GmmuWalk.WalkTranslates | driver/gsp/gmmu.c:201-249 | with all entries in place, the walk from the root maps every address of the range to its byte, in a page of video memory that every client may read and write, and every other 49-bit address to nothing |
| Gmmu.RangePlan | driver/gsp/gmmu.c:176-199 | rejects exactly the bad arguments and the tables that do not fit below 2^40; otherwise the five levels tile the table area, one table per touched prefix; -2 still reports the size |
| Gmmu.TiledIsSeparate | driver/gsp/gmmu.c:187-196 | the planned levels share no page and lie inside the table area |
| Gmmu.SlotsDiffer | driver/gsp/gmmu.c:221-247 | two different entries of the five levels never share a word |
| Gmmu.SlotMissesLarge | driver/gsp/gmmu.c:234-236 | no entry falls on a large-page half of PD0 |
| Gmmu.EntryAdvances | driver/gsp/gmmu.c:221-247 | storing the next entry keeps all entries built before and completes one more |
| Gmmu.RangeBuild | driver/gsp/gmmu.c:201-249 | succeeds exactly for a plan that equals the recomputed one and data beside the tables below 2^40; then every 49-bit address walks to its byte or to nothing, memory outside the table area is as before, every store lies in the area, and none after clearing hits a non-zero word; a rejected call performs no store at all |
| Gmmu.ClearTables | driver/gsp/gmmu.c:216-219 | zeroes exactly the table area |
| Gmmu.WriteDirectories | driver/gsp/gmmu.c:221-239 | links every table of every level to its parent, over zero words, inside the area |
| Gmmu.DirectoryEntry | driver/gsp/gmmu.c:224-238 | the shift-and-mask arithmetic finds the slot of the child in its parent |
| Gmmu.WritePages | driver/gsp/gmmu.c:240-247 | writes every leaf entry |
| Gmmu.LeafEntry | driver/gsp/gmmu.c:240-247 | the shift-and-mask arithmetic finds the slot of the page in its leaf table |
| GmmuBranch.MapRange | driver/gsp/gmmu.c:128-155 | for any address (its page offset and bits from 49 up play no part): refuses exactly the ranges that leave one leaf table, before any store; otherwise the walk maps exactly the pages asked for (none for zero pages), and other memory is as before |
| GmmuBranch.WriteLink | driver/gsp/gmmu.c:86-107 | one pointer of the chain, with the large-page half cleared |
| GmmuBranch.IndexOfPage | driver/gsp/gmmu.c:54-57 | every table index of an address is that of its page within 49 bits |
| GmmuBranch.AcceptsSingleBranches | driver/gsp/gmmu.c:132-137 | the index test holds exactly for ranges served by one table per level |
| GmmuBranch.BuildersAgree | driver/gsp/gmmu.c:128-249 | the two builders over the same five pages give every 49-bit address the same translation |
| Alignment.PowerTest | driver/gsp/vram.c:7-8 | `x & (x - 1)` is zero exactly for powers of two |
| Alignment.MaskIsRemainder | driver/gsp/vram.c:10-15 | masking with a power of two less one is the remainder |
| Alignment.AlignUp | driver/gsp/vram.c:10-15 | gives the least multiple not below the value, and fails exactly when no 64-bit multiple is left |
| VramRange.PastObstacles | driver/gsp/vram.c:34-39 | the furthest end among exclusions that meet the candidate |
| VramRange.SearchSpan | driver/gsp/vram.c:31-42 | the lowest aligned placement in one span, or proof that there is none; it terminates without wrapping |
| VramRange.ValidIsPow2 | driver/gsp/vram.c:5-8 | the accepted alignments are exactly the powers of two from a page up |
| VramRange.FindRange | driver/gsp/vram.c:17-45 | -1 exactly for bad arguments; the lowest placement in the first span that has one; -2 only if no span has any |
| VramPool.FitBoundsUsed | driver/gsp/vram.c:63-64 | if a range fits, the live sizes and it do not exceed the pool: a measure argument over disjoint extents |
| VramPool.NoRoomBeyondUsed | driver/gsp/vram.c:63-64 | the early exit on `used` never hides a fit |
| VramPool.StepKeepsOk | driver/gsp/vram.c:56-101 | every call keeps: extents whole pages, disjoint, inside; `used` their sum; handles unique and below the next one |
| VramPool.RunIsSafe | driver/gsp/vram.c:47-118 | in every run all states satisfy the invariant, and a handle that is dead stays dead |
| VramPool.Pool.Init | driver/gsp/vram.c:47-54 | accepts exactly page-aligned spans that do not wrap, and starts empty |
| VramPool.Pool.PastExtents | driver/gsp/vram.c:73-79 | the furthest end among live extents that meet the candidate |
| VramPool.Pool.FindRoom | driver/gsp/vram.c:69-88 | the lowest offset with an aligned GPU address and room, or proof that there is none |
| VramPool.Pool.Alloc | driver/gsp/vram.c:56-89 | -1 exactly for bad arguments; otherwise -2 exactly when no handle, no slot or no fit is left; 0 takes the first free slot, the next handle and the lowest fit of the rounded size |
| VramPool.Pool.Free | driver/gsp/vram.c:91-101 | succeeds exactly for live handles and removes that extent only |
| VramPool.Pool.Resolve | driver/gsp/vram.c:103-118 | succeeds exactly for non-empty ranges inside a live resource, and gives their addresses |
| MemoryPlan.CheckRegion | driver/gsp/gsp_memory.c:20-24 | accepts a region exactly if it is in reach and meets no earlier one |
| MemoryPlan.AvailableAreUsable | driver/gsp/gsp_memory.c:17-29 | the spans offered to the finder are exactly the regions neither reserved nor protected |
| MemoryPlan.PlanFits | driver/gsp/gsp_memory.c:14-15 | the table planner accepts every application size the planner accepts, at every base in reach |
| MemoryPlan.PlacementIsSafe | driver/gsp/gsp_memory.c:31-36 | a placement lies in one region with neither the reserved nor the protected field set, above the low 512 MiB, and off the console and every region with one of them set |
| MemoryPlan.OwnedRegion | driver/gsp/gsp_memory.c:25-36 | the same of the owned range of every layout, on the fields of the map |
| MemoryPlan.Plan | driver/gsp/gsp_memory.c:4-47 | -1 exactly for bad requests, maps or console ranges; -2 exactly if no region with both fields clear has a placement; otherwise the lowest placement, inside one such region and off every other, cut into disjoint parts whose tables the builder accepts |
| MemoryPlan.Carve | driver/gsp/gsp_memory.c:37-46 | the second planning pass cannot fail, and the parts fill the owned range |
| MemoryPlan.BuildLayout | driver/gsp/gsp_memory.c:4-47 | plan and build together, failing exactly as the planner does: every application and service byte walks to the address the layout promises, memory outside the table part is as before, and a failure stores nothing |
| Handover.LayoutGivesConfig | driver/gsp/gsp_bringup.c:659-797 | in every planned layout the channel has word-aligned buffers that share no byte and are mapped by one linear piece; data may go exactly where the application memory asked for lies, by video memory address and by GPU address; ring, stream and semaphore have their pages of service memory, and USERD, with GP_PUT in it, lies in channel memory clear of the instance page and the method buffer |
| Handover.TablesApart | driver/gsp/gsp_bringup.c:659-661 | nothing a submission may change lies in the page tables |
| Handover.MappingIsWalk | driver/gsp/gsp_bringup.c:783-797 | the linear mapping is what the page walk gives, and it outlives every change that a submission may make |
| Handover.Prepare | driver/gsp/gsp_bringup.c:559-797 | plan, build and hand over, failing exactly as the planner does: a byte is in the data region exactly if it lies in the application memory asked for, a GPU range exactly if it lies in its addresses, and every mapped address walks to its byte |
| Handover.Open | driver/macos/MilcorixUserClient.cpp:39-63 | a client over a planned layout starts, with a pool of exactly the application bytes asked for at their GPU address |
| Handover.TablesKept | driver/gsp/gsp_bringup.c:783-797 | tables whose words are as before translate as before |
| Handover.ServeMapped | driver/macos/MilcorixUserClient.cpp:268-296 | after any session of a client over a planned layout the page tables are as built, and every mapped address still walks to its byte |
| Fifo.HeaderDecodes | driver/gsp/gsp_fifo.c:164-168 | a packet header decodes to opcode, subchannel, count and method |
| Fifo.BuildCeCopy | driver/gsp/gsp_fifo.c:185-226 | emits exactly the stream of packets, with binding only when asked, and writes nothing beyond it |
| Fifo.StreamDecodes | driver/gsp/gsp_fifo.c:185-226 | whatever the registers held, the stream is exactly one linear copy with the given source, destination, length, semaphore and payload (addresses modulo 2^49) and exactly these flags, all set before the launch; the bound class changes exactly if one is given |
| Fifo.EntryDecodes | driver/gsp/gsp_fifo.c:228-233 | the ring entry gives back address and length, the address exactly if it is 4-aligned and below 2^40 |
| Fifo.EntryMisses | driver/gsp/gsp_fifo.c:228-233 | the entry of a pushbuffer at 2^40 names address zero |
| Engine.QuietStays | driver/gsp/gsp_exec.c:84-87 | an engine with nothing pending does nothing, however it is scheduled |
| Engine.StepKeeps | driver/gsp/gsp_exec.c:70-100 | one engine step leaves a submission pending and intact, or executed as a whole |
| Engine.RunKeeps | driver/gsp/gsp_exec.c:70-100 | the same for every schedule: no half-executed, altered or repeated submission can be observed |
| Engine.CanFinish | driver/gsp/gsp_exec.c:84-100 | once it knows of a submission, the engine can execute it to the end from every point of it, by a schedule of bounded length in which it never looks up GP_PUT by itself |
| Engine.NotRungStays | driver/gsp/gsp_exec.c:84-87 | without the doorbell an engine that does not look up GP_PUT by itself never starts: the submission stays as it is |
| Exec.BellReaches | driver/gsp/gsp_exec.c:87 | the token written to the doorbell names this channel, so the engine knows of the submission afterwards, and the submission is intact |
| Exec.SubmittedIsJob | driver/gsp/gsp_exec.c:66-86 | fetched from where it lies through the ring entry, the submitted stream decodes to this copy |
| Exec.OnePending | driver/gsp/gsp_exec.c:77-87 | a submission in flight is the only pending entry |
| Exec.PayloadMeansFinished | driver/gsp/gsp_exec.c:58-60 | the payload can only come from this submission's own release, also when payload numbers repeat |
| Exec.UnseenMeansPending | driver/gsp/gsp_exec.c:94-100 | where the payload is not seen, nothing has been executed |
| Exec.SubmissionStays | driver/gsp/gsp_exec.c:93-104 | no engine schedule turns a submission under way into anything else |
| Exec.AtMostThis | driver/gsp/gsp_exec.c:93-110 | at no point has more been executed than this launch |
| Exec.ExecutedIfShown | driver/gsp/gsp_exec.c:93-104 | after any number of accesses the launch has been executed exactly if the payload shows |
| Exec.FinishesUnseen | driver/gsp/gsp_exec.c:94-110 | for every submission in flight and every number of polls there is a schedule that shows no poll the payload and finishes by the read for the log |
| Exec.TicksExact | driver/gsp/gsp_exec.c:93 | the number of polls is the one asked for exactly up to 85 899 345 ms |
| Exec.NoTicks | driver/gsp/gsp_exec.c:93 | there is no poll exactly for 2^31 ms |
| Exec.FewTicks | driver/gsp/gsp_exec.c:93 | 85 899 346 ms give four polls |
| Exec.FinishedIsCopied | driver/gsp/gsp_exec.c:95-98 | a finished submission has copied exactly its bytes |
| Exec.PendingIsKept | driver/gsp/gsp_exec.c:101-110 | until it finishes, only its destination can have changed |
| Exec.Channel.Store | driver/gsp/gsp_exec.c:70-86 | every store happens while nothing is pending, so no slot or pushbuffer word in use is overwritten |
| Exec.Channel.Publish | driver/gsp/gsp_exec.c:77-86 | ring entry first, then GP_PUT, one slot further |
| Exec.Channel.Submit | driver/gsp/gsp_exec.c:60-87 | puts exactly one submission under way, its data region untouched, and rings for it: with two ring entries or more the engine knows of it on return; the stream carries the class exactly if one is given |
| Exec.Channel.Await | driver/gsp/gsp_exec.c:93-104 | the payload is seen exactly if one of the polls comes when the engine shows it, and then this submission has finished; unseen, nothing had been executed at the last poll; the read for the log is included |
| Exec.Channel.GpuCopy | driver/gsp/gsp_exec.c:51-111 | under every interleaving: 0 exactly if some poll within the timeout comes when the engine shows the payload, and then exactly this launch was executed since the call began and its bytes are copied; -1 after a wait means that at the last poll nothing had been executed, and at return this launch exactly if the read for the log shows its payload; the class is sent exactly until a submission has finished; no later call touches the device; at most one entry is ever pending; a one-entry ring always times out; words outside the scratch region and the channel buffers are as before |
| FrameBuffer.WordExtends | driver/macos/MilcorixFB.cpp:880-884 | one more word of data is in place, nothing else changed |
| FrameBuffer.TailExtends | driver/macos/MilcorixFB.cpp:885-890 | the read-modify-write of the last word puts the tail bytes and keeps the others |
| FrameBuffer.FrameBuffer.GpuWrite | driver/macos/MilcorixFB.cpp:868-892 | accepts exactly ranges of the region on an open channel, and changes exactly those bytes; words outside the scratch region and the channel buffers are as before |
| FrameBuffer.FrameBuffer.GpuRead | driver/macos/MilcorixFB.cpp:894-916 | returns exactly those bytes and changes nothing |
| FrameBuffer.FrameBuffer.GpuCopy | driver/macos/MilcorixFB.cpp:918-952 | refuses exactly bad ranges and overlap; success executes one launch and copies exactly those bytes; a timeout comes only after a wait in which no poll showed the payload, and leaves everything but the destination alone, with at most that launch executed; words outside the scratch region and the channel buffers are as before |
| ResourceMap.ChangeInside | driver/macos/MilcorixUserClient.cpp:107-147 | a change inside one extent changes that resource only |
| ResourceMap.NewResource | driver/macos/MilcorixUserClient.cpp:227-259 | a new extent leaves all other resources alone, and its handle is new |
| ResourceMap.ResourceGone | driver/macos/MilcorixUserClient.cpp:261-266 | freeing removes one resource and leaves the others alone |
| ResourceMap.WrittenView | driver/macos/MilcorixUserClient.cpp:107-147 | written bytes read as a splice of the old contents |
| ResourceMap.CopiedView | driver/macos/MilcorixUserClient.cpp:192-210 | copied bytes read as a splice of the source range |
| UserClient.Client.constructor | driver/macos/MilcorixUserClient.cpp:39-63 | opens exactly on a page-aligned, non-empty scratch region, with an empty pool over all of it, in resource mode exactly if the channel is open, the page tables are the driver's own and the self-test passed |
| UserClient.Client.Resolve | driver/macos/MilcorixUserClient.cpp:114-115 | a handle range is accepted exactly if it lies in the resource |
| UserClient.Client.Write | driver/macos/MilcorixUserClient.cpp:107-147 | ends with exactly the status of its case (`TransferStatuses`); a resource has exactly the bytes that arrived spliced in: all on success, the whole chunks before the failure when the descriptor fails, none otherwise; at a raw offset exactly those are stored; words outside the scratch region and the channel buffers are as before |
| UserClient.Client.WriteChunks | driver/macos/MilcorixUserClient.cpp:125-146 | the staged path ends with exactly the status of its case and has stored exactly the whole chunks before the first that fails, or everything |
| UserClient.Client.Read | driver/macos/MilcorixUserClient.cpp:149-190 | ends with exactly the status of its case; success returns exactly the range of the resource, or at a raw offset the bytes of the region; nothing changes |
| UserClient.Client.ReadChunks | driver/macos/MilcorixUserClient.cpp:168-189 | the staged path delivers the same bytes, and ends with exactly the status of its case, the region being tried before the descriptor |
| UserClient.Client.Copy | driver/macos/MilcorixUserClient.cpp:192-210 | refused exactly for bad or overlapping ranges or a closed channel; success splices the source range into the destination; a timeout, after a full wait in vain, changes at most the destination range; words outside the scratch region and the channel buffers are as before |
| UserClient.Client.Clear | driver/macos/MilcorixUserClient.cpp:239-252 | the doubling loop ends, none of its copies is refused, and success leaves all bytes zero and the rest of the region as before; words outside the scratch region and the channel buffers are as before |
| UserClient.Client.Alloc | driver/macos/MilcorixUserClient.cpp:227-259 | not ready exactly if the channel is closed, the page tables are not the driver's own or the self-test did not pass; bad argument exactly for zero bytes, an alignment that is no power of two from a page up, or a size whose rounding wraps; no memory exactly if there is no room or no zero page; success gives a new handle whose rounded-up contents are zeros; the engine error only after a full wait in vain; on any failure extents and resources are as before; words outside the scratch region and the channel buffers are as before |
| UserClient.Client.Free | driver/macos/MilcorixUserClient.cpp:261-266 | removes exactly a live resource |
| UserClient.Client.Call | driver/macos/MilcorixUserClient.cpp:268-296 | every request is a step of the abstract resource interface and ends with exactly the status of its case, or, for copies and allocations that are accepted, in a timeout after a full wait in vain; in resource mode raw offsets are refused without touching anything; words outside the scratch region and the channel buffers are as before |
| UserClient.Client.Serve | driver/macos/MilcorixUserClient.cpp:268-296 | any list of requests is a session of the abstract interface, so that the results about sessions below hold of this client; words outside the scratch region and the channel buffers are as before |
| UserClient.NextChunk | driver/macos/MilcorixUserClient.cpp:245-251 | copying what is already clear extends the clear part |
| UserClient.UndoneSeen | driver/macos/MilcorixUserClient.cpp:253 | allocating and freeing again leaves extents and resources as they were |
| ResourceApi.TransferStatuses | driver/macos/MilcorixUserClient.cpp:107-190 | the status of a write or read: success exactly if size and place are in order, the channel is open, the range is in the region and the descriptor holds out; no memory exactly for a prepared descriptor without staging buffer; a memory error exactly for one that cannot be prepared, or that fails at a byte before which all chunks (for a read that one too) are in reach; bad argument otherwise |
| ResourceApi.WriteStops | driver/macos/MilcorixUserClient.cpp:135-143 | the chunk at which a staged write stops decides its status, and what arrived are the chunks before it |
| ResourceApi.ReplyTells | driver/macos/MilcorixUserClient.cpp:132-146 | the reply of a write to a resource tells how many bytes arrived |
| ResourceApi.OthersUntouched | driver/macos/MilcorixUserClient.cpp:107-266 | a request changes no byte of a resource it does not name as target |
| ResourceApi.UntouchedStays | driver/macos/MilcorixUserClient.cpp:107-266 | the same between any two points of a session |
| ResourceApi.ReadAfterWrite | driver/macos/MilcorixUserClient.cpp:107-190 | a read of the range written returns the data, whatever was done to other resources in between (the special case of one request of `ReadReturnsLast`) |
| ResourceApi.ReadAfterCopy | driver/macos/MilcorixUserClient.cpp:149-210 | a read of the range copied to returns the source range as it was when copied, whatever was done to other resources in between |
| ResourceApi.StepBytes | driver/macos/MilcorixUserClient.cpp:107-259 | where each byte of each resource comes from in one request |
| ResourceApi.ByteIsLast | driver/macos/MilcorixUserClient.cpp:107-259 | at every point of a session every byte is what the last request covering it put there, traced through copies |
| ResourceApi.OnlyOneValue | driver/macos/MilcorixUserClient.cpp:107-259 | unless a copy has timed out, that is one value |
| ResourceApi.ReadReturnsLast | driver/macos/MilcorixUserClient.cpp:149-190 | a read returns, for each byte, what the last write, copy or allocation covering it put there, over any overlaps and after writes that broke off, and exactly that unless a copy has timed out |
| ResourceApi.FreshReadsZero | driver/macos/MilcorixABI.h:44-45 | a fresh resource reads as zeros |
| ResourceApi.ReleasedIsDead | driver/macos/MilcorixABI.h:44 | a released handle is never issued again and never works again |
| ResourceApi.ManagedStays | driver/macos/MilcorixUserClient.cpp:254-281 | after the first allocation raw offsets are refused for the rest of the session |
| FwLayout.ComputedIsIdeal | driver/gsp/gsp_fw.c:63-109 | on bounded inputs the comparison of start addresses holds exactly if the layout fits in unbounded integers, and then nothing wrapped |
| FwLayout.IdealIsSound | driver/gsp/gsp_fw.c:75-101 | a fitting layout has every region in full size, in order, disjoint, inside the framebuffer, as high as alignment allows; the heap is the least whole number of MiB not below 20 + 8 + 96 MiB and 96 KiB for each GiB begun, and at least 84 MiB |
| FwLayout.PlacedIsSound | driver/gsp/gsp_fw.c:63-109 | an accepted layout is sound, heap size included, if and only if the inputs are bounded (framebuffer up to 2^64 - 2^30, no wrap in the FRTS end, boot and image sizes up to their alignment below 2^64) |
| FwLayout.PlacedExactly | driver/gsp/gsp_fw.c:63-109 | bounded inputs are accepted exactly if they are non-zero and fit; a bad argument is exactly a zero |
| FwLayout.WrapAccepted | driver/gsp/gsp_fw.c:76-108 | an input outside the bounds that is accepted although the bootloader does not fit |
| Radix3.AcceptedSizes | driver/gsp/gsp_fw.c:188-199 | accepted are sizes up to 1 GiB and, by wrap-around, the last page below 2^64; -1 is exactly size zero, -5 exactly the sizes between |
| Radix3.CoversExactly | driver/gsp/gsp_fw.c:188-199 | the reported counts are the least that cover an accepted image, exactly when the rounding did not wrap |
| Radix3.WrapAccepted | driver/gsp/gsp_fw.c:191-194 | a size of 2^64 - 1 is accepted with no entries |
| Radix3.FillLevel | driver/gsp/gsp_fw.c:210-217 | writes exactly the first entries, each naming its page, and nothing beyond them |
| Radix3.WalkReaches | driver/gsp/gsp_fw.c:209-218 | three table reads by nine-bit digits reach the page of the image |
| Radix3.Build | driver/gsp/gsp_fw.c:201-219 | fills the three levels so that every page of the image is reached; a refused size writes nothing |
| LittleEndian.Store | driver/gsp/gsp_rpc.c:9-12 | puts exactly the bytes of the value |
| LittleEndian.LeDigits | driver/gsp/gsp_rm.c:15-22 | what is stored is what is read back |
| ExclusiveOr.Associates | driver/gsp/gsp_rpc.c:153-155 | exclusive or is associative, so the fold does not depend on grouping |
| ExclusiveOr.HalfByHalf | driver/gsp/gsp_rpc.c:155 | 64-bit exclusive or acts on the two halves separately |
| ExclusiveOr.OneWord | driver/gsp/gsp_rpc.c:153-155 | changing one word changes the fold by the same amount |
| ExclusiveOr.FoldVanishes | driver/gsp/gsp_rpc.c:155 | adding its own fold makes the two halves equal |
| CommandQueue.ElemCountIsLeast | driver/gsp/gsp_rpc.c:132-135 | the page count is the least that holds headers and payload |
| CommandQueue.Send | driver/gsp/gsp_rpc.c:129-157 | every byte of the element is as framed, the exclusive or of its 64-bit words has equal halves, bytes outside are as before, and it stays in the queue exactly if it ends by the last slot |
| CommandQueue.Build | driver/gsp/gsp_rpc.c:129-157 | the element alone: cleared, headed, filled and sealed, nothing outside it changed |
| CommandQueue.SpillsOver | driver/gsp/gsp_rpc.c:132-136 | a two-page element in the last slot ends one page past the queue |
| CommandQueue.Sum | driver/gsp/gsp_rpc.c:153-154 | the loop computes the exclusive or of all 64-bit words |
| CommandQueue.Sealed | driver/gsp/gsp_rpc.c:152-155 | storing the checksum keeps every other field and makes the halves of the exclusive or equal |
| CommandQueue.RoundTrip | driver/gsp/gsp_rm.c:54-72 | read where it lies in memory, at the offsets of the receiver, an element as `Send` leaves it gives back function, length, page count, number and payload |
| RpcChannel.PostAppends | driver/gsp/gsp_rm.c:52-61 | a message posted into the free part of the ring leaves those not yet read alone |
| RpcChannel.TakeFirst | driver/gsp/gsp_rm.c:82-84 | moving the published read index past a message leaves the rest in place |
| RpcChannel.Channel.Arrive | driver/gsp/gsp_rm.c:51-53 | whatever the GSP posts keeps the channel invariant |
| RpcChannel.Channel.Consume | driver/gsp/gsp_rm.c:75-77 | private and published read index move together past exactly one message, and stay below the slot count |
| RpcChannel.Channel.CopyPayload | driver/gsp/gsp_rm.c:68-72 | the payload is copied unharmed while the GSP keeps posting |
| RpcChannel.Channel.ReadWritePtr | driver/gsp/gsp_rm.c:52 | up to the write pointer as read, the queue holds all that has been posted by then |
| RpcChannel.Channel.Drain | driver/gsp/gsp_rm.c:53-85 | takes messages up to a write pointer read earlier, until one matches; that one is handed over exactly if it lies in one piece, and none is skipped or lost |
| RpcChannel.Channel.Receive | driver/gsp/gsp_rm.c:48-90 | the write pointer is read before the first wait and after every wait; the first matching message is found at the first reading that shows it, and handed over exactly if it lies in one piece; a timeout means that no reading, the last one after the whole wait, showed a match, and comes within the budget |
| RpcChannel.Channel.Call | driver/gsp/gsp_rm.c:31-91 | request framed and sealed at the write index, which moves past it; then the reply as above, also one posted during the call, with as result the little-endian word at byte 64 of its first page; published and private read index agree at every exit; it was posted after the call began exactly if no unread message matched before; shared memory outside the request and the write pointer is as before |
| RpcChannel.Channel.Request | driver/gsp/gsp_rm.c:39-45 | the request lies framed and sealed at the write index, which moves past it, and no other byte changes |
| RpcChannel.AnswerAge | driver/gsp/gsp_rm.c:53-79 | the first match was posted after the call began exactly if none was unread by then |
| RpcChannel.LateReply | driver/gsp/gsp_rm.c:63 | one unread reply of the same function answers the next call |
| RpcChannel.PositionMoves | driver/gsp/gsp_rm.c:75-84 | messages start where the ones before them end, modulo the slot count |
| RpcChannel.WrappingReply | driver/gsp/gsp_rm.c:65-67 | two pages after sixty-two start at slot 62 and wrap |
| RpcChannel.BudgetIsReached | driver/gsp/gsp_rm.c:49-90 | the 32-bit counter reaches the timeout within its budget exactly up to 4 294 967 000 us |
| RpcChannel.BudgetMissed | driver/gsp/gsp_rm.c:49-90 | just above the limit the counter of the loop goes to 704 without reaching the timeout |
| RpcChannel.ReaderMatchesWriter | driver/gsp/gsp_rm.c:54-72 | an element as the driver frames it is a well-formed message, and reading it gives back function, length and payload |
| RpcChannel.ReplyResult | driver/gsp/gsp_rm.c:61-74 | of an element with any result stored 16 bytes into the RPC header and any private result behind it, the result handed over is the first, whatever the second is |

## Left out

- Bring-up (Falcon, SEC2, Booter sequences), display, EDID, ELF, VBIOS and container parsers, interrupt and graphics tables: long scripts or fixed-offset fields; they would add easy members only.
- Locks, object lifetimes and kernel threading: calls are taken as serialised; the concurrency modelled is driver against GPU and driver against GSP.
- Delays, logging and measured durations: only the poll counters are kept, and the semaphore read made for the log. A doorbell that names the channel makes the engine look up GP_PUT; that it may do so unasked too is allowed for, not required. The doorbell of the message path is not modelled.
- Checks of argument counts and null pointers in the client's methods, and information queries: field copies with no invariant; queries are the no-effect request.
- `nv_gmmu_build_1page` and `nv_gmmu_read_pte`: a one-page case of the modelled builder, and a diagnostic.
- `nv_gsp_gpu_pool_test`: the self-test of the pool; its outcome is a parameter of the framebuffer.
- `nv_gsp_shm_compute`, `nv_gsp_shm_init`, `nv_gsp_wpr_meta_build`, `nv_gsp_libos_build_args`, `nv_gsp_pte_array_fill`: constants and fixed-offset stores.
- GmmuWalk.WalkTranslates: the walker demands an empty large-page half in PD0 and a leaf that every client may read and write, which is stricter than the walker of the repository's own test.
- PraminWindow.Pramin.Fill: requires a length of at most 2^32 - 4, beyond which its loop does not end (no such length is a multiple of four, as driver/gsp/gmmu.h asks), and a range below 2^40.
- GmmuBranch.MapRange: requires five different page-aligned tables below 2^40 and page-aligned data below 2^52, the reach of an entry; the code checks none of this, and without it entries overlap or do not hold the address.
- Exec.Channel.GpuCopy: requires ranges in the scratch region that do not overlap, as its callers check; elsewhere a copy could overwrite the channel's own buffers. It does not promise that a call which times out leaves nothing executed at return, because the engine may go on after the last poll. Video memory is accessed flat, as `PraminWindow.WindowRefinesFlat` justifies below 2^40; the engine's fault states are never entered; the dead test for an empty stream is not repeated. For a timeout of 2^31 ms nothing is said of the last poll, as there is none.
- Exec.Channel.Submit: requires the same of its ranges.
- FrameBuffer.FrameBuffer.GpuWrite: requires 4-aligned offsets, which its callers check, since unaligned stores to the window are not modelled, and a ring with entries, of which bring-up makes 256.
- FrameBuffer.FrameBuffer.GpuRead: requires the same.
- FrameBuffer.FrameBuffer.GpuCopy: does not promise that a timeout leaves the launch unexecuted, because the engine may go on after the last poll.
- Handover.LayoutGivesConfig: requires a class engine id, without which the channel is not handed over, and a runlist below 2^16, the room it has in the token, which the code does not check; covers the mode in which the driver owns the address space; the older 1 MiB region, whose data follow the semaphore, is not modelled.
- Engine.RunKeeps: the engine executes entries in order and copies bytes in any order; caches and reordering between the copy and its semaphore are ruled out by the flush bit of the launch and not modelled.
- UserClient.Client.Copy: after a timeout the destination range is unspecified, because the engine may still be writing it; the channel is closed, so no later request can read it.
- UserClient.Client.Read: what a failed staged read has already delivered to the caller is not modelled; it counts as no data.
- UserClient.Client.WriteChunks: the descriptor's bytes are a fixed sequence; a caller that changes its buffer during the transfer is not modelled.
- RpcChannel.Channel.Call: requires that the request fits the command queue from the current slot and that the timeout is at most 4 294 967 000 us; the code checks neither, and both limits are proved exact. The command queue's reader is not modelled, so a full command queue is not either.
- RpcChannel.Channel.Arrive: the GSP posts well-formed messages of less than a ringful and respects the published read index; a malformed element count, which the code reads as one page, is outside this.
- CommandQueue.Send: a null payload with a non-zero length, which leaves zeros, is not modelled.
- Radix3.Build: the walk's table addresses are below 2^64; entries themselves wrap as in the code.
