# Contiki-NG kernel, library and lower network layer in Dafny

The project models the stateful cores under the Contiki-NG network stack and proves what they
promise: the heap allocator, the ring buffer and the two serial framings on top of it, the Trickle
timer, CCM\*, the neighbour tables with their list and slot pool, the event queue with the event
timers, and four arithmetic cores (CRC, the index structure of the FFT, the ETX average and the
flash writer of the CC2538 boot loader tool).

Each core comes in two parts. A module of values says what the operations mean and carries the
lemmas; a module of classes and arrays repeats the source's loops and in-place updates and is
proved against it.

| files | subject | source |
|---|---|---|
| `heap_model`, `heap_space`, `heap_runs`, `heapmem`, `heap_bytes` | chunks, free list and client data over one byte array | `os/lib/heapmem.c` |
| `ringbuf`, `ringbuf_protocol` | the ring, one call at a time and step by step with both sides running | `os/lib/ringbuf.c` |
| `slip_model`, `slip_poll`, `slip_queue`, `slip` | SLIP writer and receiver over a cyclic buffer | `os/dev/slip.c` |
| `serial_line` | the line assembler | `os/dev/serial-line.c` |
| `max_imax`, `trickle_model`, `trickle_timer` | RFC 6206 on a wrapping clock | `os/lib/trickle-timer.c`, `.h` |
| `ccm_spec`, `ccm_star` | RFC 3610 for any block function | `os/lib/ccm-star.c` |
| `list`, `memb`, `nbr_bitmaps`, `nbr_model`, `nbr_history`, `nbr_slots`, `nbr_table` | neighbour tables as finite maps over shared slots | `os/net/nbr-table.c`, `os/lib/list.c`, `os/lib/memb.c` |
| `process`, `timer`, `etimer_model`, `etimer` | event queue, timers and the poll | `os/sys/process.c`, `os/sys/timer.c`, `os/sys/etimer.c` |
| `crc_theory`, `crc16` | the CCITT CRC | `os/lib/crc16.c` |
| `ifft_model`, `fourier`, `ifft` | bit reversal, stages and swaps, and what they compute | `os/lib/ifft.c` |
| `bsl` | sparse flash writing | `tools/cc2538-bsl/cc2538-bsl.py` |
| `link_stats`, `link_table` | the ETX moving average, and the entries of all neighbours | `os/net/link-stats.c` |
| `basics`, `modular`, `seqs` | types, arithmetic and sequences that several modules use | |

`dafny verify dfyconfig.toml` checks the whole project.

## Where the code and its promises differ

- `trickle_timer_config` rejects k = 0 (`os/lib/trickle-timer.c:350`), although the header documents
  k = 0 as the way to disable suppression (`os/lib/trickle-timer.h:88`, `:398-399`).
  `TrickleTimer.Trickle.Config` follows the code; the lemmas about firing cover k = 0 too.
- `trickle_timer_config` clears `i_cur` and leaves the ctimer alone, which the header warns does not
  stop a timer (`os/lib/trickle-timer.h:110-117`). The timer is stopped afterwards exactly if no ctimer
  was pending (`TrickleModel.ConfigAgrees`). A pending `fire` is harmless
  (`TrickleModel.ReconfiguredFireHarmless`); a pending `double_interval` doubles 0 and divides by it in
  `get_t` (`TrickleModel.FiredReconfiguredDivides`). Only a reconfiguration between `fire` and the end
  of the interval leads there (`TrickleModel.LingersExactly`).
- The shifts in `trickle_timer_config` are defined by C only for an Imax + 1 below the width of the
  promoted clock type, and nothing bounds Imax. On a machine that masks the count of a 32-bit shift the
  check is right for every Imin exactly below that width (`MaxImax.MaskedPairExactly`); beyond it, an
  Imin of 2 with an Imax of 31 passes and is stored with the largest interval 0
  (`MaxImax.MaskedPairStored`).
- `head` and `next` of a neighbour table follow the shared key list, not the order of insertion into
  the table. `NbrModel.InsertionOrderLost` gives an input; `NbrModel.AddedLast` says exactly when an
  added item comes last; over any run the iteration is the order of joining exactly if no member was
  overtaken on the shared list (`NbrHistory.RunInJoinOrderExactly`).
- The slot index of `process_post` is cut to a byte, which is harmless exactly while
  `fevent + nevents` is below 256 (`Process.SlotExactly`), so that queues of at most 128 events are
  safe and no larger ones (`Process.SlotsRightExactly`); the default is 32. Otherwise a post replaces
  an event that is waiting, and `Process.EventQueue.Post` says which one.
- `timer_expired` reports an expired timer as pending on the last tick of a turn of the clock
  (`Timer.ExpiredRightExactly`).
- The unescaping loops of `slip_poll_handler` notice that more than `blen` bytes have been stored only
  at the next byte. The one caller passes `UIP_BUFSIZE` for a buffer of exactly that size
  (`os/dev/slip.c:255`, `os/net/ipv6/uip.h:504`), while `rxbuf` holds 16 bytes more. A payload comes out
  as it was sent exactly if it fits `rxbuf` escaped and has at most `blen + 1` bytes
  (`SlipPoll.IntactExactly`); the byte at index `blen` is written exactly if it fits and has more than
  `blen` bytes (`SlipPoll.IndexBlenExactly`), for which `SlipPoll.OneByteTooMany` gives an input.
- When a frame wraps around `rxbuf` and the first of the two loops gives up, the second one starts from
  nothing and may deliver the tail of the payload as a packet. `SlipPoll.PayloadOrNothingExactly` says
  exactly when, `SlipPoll.TailDelivered` gives an input.
- A frame of `slip_write` that comes in while another one waits for its poll is not delivered: its
  opening END is taken for the end of an empty frame, on which the poll after the next gets stuck
  (`SlipQueue.OpeningEndStuck`). Frames that share their ENDs queue up as intended
  (`SlipQueue.PlayExact`).
- `get_t` promises a point of [I/2, I). It picks every one of them exactly if I is even; for an odd I
  the last one is never picked (`TrickleModel.AllPointsExactly`).
- The magnitudes at the end of `ifft` are stored in 16 bits and wrap exactly from a sum of 32768 on
  (`Ifft.MagnitudesExactly`).
- `heapmem_realloc` coalesces before it knows whether it can succeed: after a failure the block is
  live and its bytes unchanged, but it owns more memory than before exactly if a free chunk followed
  it (`HeapModel.Heap.FailedResizeGrows`; `HeapModel.FailedResizeInput` gives an input).
- The flash writer skips packets of 0xFF. On any flash the image is in place afterwards exactly if each
  cell of a skipped packet was erased and each other cell was one that programming turns into its
  byte (`Bsl.InPlaceExactly`).
- An ETX sample is cut to 16 bits, which changes it exactly from 512 transmissions on, the penalty
  included (`LinkTable.SampleExactly`).

## Model

| member | source | states |
|---|---|---|
| `HeapModel.Heap.FreeChunkValid` | os/lib/heapmem.c:172-189 | freeing a live chunk keeps the chunks tiling the used heap and the free list exact, and takes exactly that block away; the last chunk shortens the used heap, any other one becomes the first of the free list |
| `HeapModel.Heap.TakeChunkValid` | os/lib/heapmem.c:193-210 | unlinking a free chunk keeps the heap sound and adds exactly that block |
| `HeapModel.Heap.SplitValid` | os/lib/heapmem.c:217-233 | a split keeps the heap sound; the block stays live, is at least as large as asked and loses no more than it had, and no other block changes |
| `HeapModel.Heap.SplitGivesBack` | os/lib/heapmem.c:217-233 | what a split cuts off goes back to the wilderness with the last chunk, and otherwise is a chunk on the free list, with its size |
| `HeapModel.Heap.CoalesceValid` | os/lib/heapmem.c:237-248 | coalescing a chunk, free or live, keeps the heap sound, absorbs until the next chunk is live or the end is reached, never shrinks the chunk and changes no other block |
| `HeapModel.Heap.CoalesceRun` | os/lib/heapmem.c:237-248 | a coalesced chunk ends exactly where the run of free chunks that followed it ended |
| `HeapModel.Heap.DefragFrom` | os/lib/heapmem.c:252-266 | walking the free list while the walk itself unlinks members keeps the heap sound, visits only list members and changes no block |
| `HeapSpace.DefragSeparates` | os/lib/heapmem.c:252-266 | if the walk may visit as many chunks as the list has, no free chunk is followed by another one afterwards |
| `HeapSpace.DefragFits` | os/lib/heapmem.c:252-300 | an allocation that one of the examined chunks could hold does not fail because of the defragmentation before the search |
| `HeapSpace.FreedIsReusable` | os/lib/heapmem.c:329-386 | right after a block is freed, an allocation of no more than it held succeeds |
| `HeapModel.Heap.BestFit` | os/lib/heapmem.c:281-300 | the choice is a smallest free chunk that is large enough, the first such on the list, and NULL only if none is large enough |
| `HeapModel.Heap.PerfectFit` | os/lib/heapmem.c:295-298 | stopping at a chunk of exactly the size asked for gives the answer of the full search |
| `HeapModel.Heap.BestFitUnique` | os/lib/heapmem.c:291-299 | the best fit is unique, so the loop's answer does not depend on how it is computed |
| `HeapModel.Heap.TakeBestValid` | os/lib/heapmem.c:270-309 | the search succeeds exactly if one of the examined chunks fits; the block handed out is the best fit among them, new, large enough and at most one header too large |
| `HeapModel.Heap.ExtendValid` | os/lib/heapmem.c:157-169 | extending fails exactly if the arena has no room for header and block, and then changes nothing |
| `HeapModel.Heap.AllocValid` | os/lib/heapmem.c:329-355 | from any sound heap, an allocation yields a sound heap with exactly one new block of the size asked for, rounded up, plus at most one header: the best fit if one of the examined chunks fits, without the used heap growing, and otherwise a chunk at its end; it fails exactly if neither has room, and then no block changed |
| `HeapModel.Heap.MoveValid` | os/lib/heapmem.c:476-484 | moving a block replaces it by one large enough, or fails and leaves all blocks as they were |
| `HeapModel.Heap.ResizeValid` | os/lib/heapmem.c:428-484 | on all five paths of a resize the heap stays sound; on success the block, here or moved, is large enough; on failure the old block is live and not smaller, and `FailedResizeGrows` says when it has grown; every other block keeps place and size |
| `HeapModel.Heap.ResizeExactly` | os/lib/heapmem.c:428-484 | a resize answers with the same block exactly if that is large enough or can grow into the wilderness or into the run of free chunks behind it, and fails exactly if besides no block can be allocated; on success the block holds the size asked for plus at most a header, and when it shrinks by more than a header the remainder is free again |
| `HeapModel.Heap.ReallocExactly` | os/lib/heapmem.c:410-485 | the same for every call: NULL allocates, size 0 frees |
| `HeapModel.Heap.FailedResizeGrows` | os/lib/heapmem.c:445-484 | after a failed resize the block is as large as coalescing left it, and has grown exactly if a free chunk followed it before the call |
| `HeapModel.FailedResizeInput` | os/lib/heapmem.c:461-484 | a heap where a resize fails and the block owns 48 bytes instead of 16 |
| `HeapModel.Heap.ReallocValid` | os/lib/heapmem.c:410-485 | also with a NULL pointer or size 0, reallocation changes no block other than the one named |
| `HeapModel.SweepCountsLive` | os/lib/heapmem.c:494-507 | the allocated figure is the number of bytes in live blocks, counted address by address |
| `HeapModel.SweepCountsChunks` | os/lib/heapmem.c:505-509 | the overhead figure is one header for every chunk that is left |
| `HeapModel.SweepSeparates` | os/lib/heapmem.c:496-506 | after the statistics walk no two chunks that touch are both free |
| `HeapRuns.ApplyValid` | os/lib/heapmem.c:325-510 | each of the four calls keeps the heap sound and every block that it does not name |
| `HeapRuns.RunSound` | os/lib/heapmem.c:150-510 | over every run of permitted calls the heap stays sound and each block that no call names stays live with its place and size; its bytes are the subject of `HeapBytes.RunKeepsBytes` |
| `HeapRuns.BlocksApart` | os/lib/heapmem.c:217-248 | in a sound heap each live block is aligned, inside the arena and disjoint from every other block and every header |
| `HeapRuns.ChunksFillHeap` | os/lib/heapmem.c:496-498 | each address of the used heap lies in a chunk that is either live or on the free list |
| `HeapBytes.Perform` | os/lib/heapmem.c:325-510 | a call on the byte arena, or an owner writing into its block, leads to the state that the run theorem speaks of |
| `HeapBytes.RunKeepsBytes` | os/lib/heapmem.c:325-510 | over every run of calls, with owners writing into their blocks in between, a block that nothing in the run concerns stays where it is, as large as it is, with every byte it held |
| `Heapmem.Arena.AllocateChunk` | os/lib/heapmem.c:193-210 | the pointer surgery on header bytes unlinks exactly that chunk from the doubly linked list; no byte outside headers changes |
| `Heapmem.Arena.FreeChunk` | os/lib/heapmem.c:172-189 | the last chunk goes back to the wilderness, any other one to the front of the list, by writing headers only |
| `Heapmem.Arena.SplitChunk` | os/lib/heapmem.c:217-233 | the in-place split is the specified one; the new header lands inside the old block, and no byte of what the caller keeps changes |
| `Heapmem.Arena.CoalesceChunks` | os/lib/heapmem.c:237-248 | the loop over headers is the specified merge and writes headers only |
| `Heapmem.Arena.DefragChunks` | os/lib/heapmem.c:252-266 | the loop that reads the next pointer of a chunk after editing the list is the specified defragmentation |
| `Heapmem.Arena.FindBest` | os/lib/heapmem.c:279-300 | the bounded search with early stop returns the best fit among the chunks examined |
| `Heapmem.Arena.GetFreeChunk` | os/lib/heapmem.c:270-309 | defragments, searches, unlinks and splits as specified, keeping all live bytes |
| `Heapmem.Arena.ExtendSpace` | os/lib/heapmem.c:157-169 | moves the end of the used heap, or refuses and changes nothing |
| `Heapmem.Arena.Alloc` | os/lib/heapmem.c:329-355 | the allocation on bytes is the specified one and no byte of any block that was live changes |
| `Heapmem.Arena.Free` | os/lib/heapmem.c:373-386 | freeing changes no byte of any other live block; NULL is ignored |
| `Heapmem.Arena.Store` | os/lib/heapmem.c:354-354 | a client may write every byte of its block without damaging the heap |
| `Heapmem.Arena.CopyBlock` | os/lib/heapmem.c:481-481 | copies the whole old block and writes only into the new one |
| `Heapmem.Arena.MoveBlock` | os/lib/heapmem.c:476-484 | allocate, copy, free: the new block begins with the old block's bytes, and all others keep theirs |
| `Heapmem.Arena.GrowLast` | os/lib/heapmem.c:445-454 | the last block grows in place exactly if the arena has room, keeping its bytes |
| `Heapmem.Arena.CoalesceAndRefit` | os/lib/heapmem.c:461-484 | enlarging into free neighbours, or moving when that is not enough, keeps the block's bytes |
| `Heapmem.Arena.ResizeChunk` | os/lib/heapmem.c:428-484 | on every path the first min(old, new) bytes are those of the old block, and the answer, the size and what is given back are as `ResizeExactly` says |
| `Heapmem.Arena.Realloc` | os/lib/heapmem.c:410-485 | which block answers and when none does, told from the heap before; a block at most a header larger than asked for, the rest of a shrunk one being free again; the result carries the first min(old, new) bytes, and when it is NULL every live block, the old one included, keeps its bytes |
| `Heapmem.Arena.GetStats` | os/lib/heapmem.c:490-510 | allocated + overhead + available is the arena size, allocated is the live bytes, footprint is the used heap, chunks counts the headers, and afterwards no two adjacent chunks are free |
| `Ringbuf.RingBuffer.constructor` | os/lib/ringbuf.c:43-50 | a buffer of any permitted size starts empty |
| `Ringbuf.RingBuffer.Put` | os/lib/ringbuf.c:53-77 | appends the byte, or refuses exactly when size - 1 bytes are waiting, for every permitted size |
| `Ringbuf.RingBuffer.Get` | os/lib/ringbuf.c:80-110 | takes the oldest byte, or returns -1 exactly when there is none |
| `Ringbuf.RingBuffer.Elements` | os/lib/ringbuf.c:119-122 | the masked difference of the indices is the number of bytes waiting, at most size - 1 |
| `RingbufProtocol.StepKeeps` | os/lib/ringbuf.c:53-110 | every single shared read or write of either side keeps the invariant, whatever the other side is in the middle of |
| `RingbufProtocol.GetFetchesKeeps` | os/lib/ringbuf.c:104-104 | the slot that the consumer reads holds the oldest byte accepted and not returned |
| `RingbufProtocol.InterleavingSafe` | os/lib/ringbuf.c:53-110 | in every interleaving of one producer and one consumer the bytes returned are a prefix of the bytes accepted, at most size - 1 are waiting, and no stale slot is read |
| `RingbufProtocol.RefusalsHonest` | os/lib/ringbuf.c:64-94 | a put is refused only if the buffer was full, a get only if it was empty, when the other side's index was read |
| `RingbufProtocol.SoloPut` | os/lib/ringbuf.c:53-77 | undisturbed, the steps of a put add up to the sequential operation |
| `RingbufProtocol.SoloGet` | os/lib/ringbuf.c:80-110 | undisturbed, the steps of a get add up to the sequential operation |
| `Slip.Port.Write` | os/dev/slip.c:94-115 | sends END, the escaped payload and END |
| `Slip.Receiver.InputByte` | os/dev/slip.c:269-330 | the byte-by-byte state machine over the cyclic buffer is the specified one, overflow and bad escapes included |
| `SlipModel.FrameExactly` | os/dev/slip.c:269-330 | whatever bytes lie between two ENDs, they are buffered as a frame exactly if they are what some non-empty payload is escaped to and fit, and otherwise leave nothing behind |
| `SlipModel.BadEscapeDropped` | os/dev/slip.c:279-285 | an input with a bad escape that leaves nothing behind |
| `SlipModel.WokenOnce` | os/dev/slip.c:309-325 | the poll process is woken once for each frame that is buffered, and for nothing else |
| `Slip.Receiver.PollHandler` | os/dev/slip.c:125-241 | the two unescaping loops and the search for a further END compute the specified poll, for any buffer that holds what the poll fills, and no byte beyond that changes |
| `SlipModel.FrameReceived` | os/dev/slip.c:269-330 | from any idle receiver at any offset, a frame is buffered whole if it is not empty and fits, and otherwise leaves the receiver idle and unpolled |
| `SlipPoll.PollDelivers` | os/dev/slip.c:125-241 | a poll of a buffered frame of any length, exactly: what is handed over, also when frame or escape pair wrap around the buffer, how much of the output buffer is filled, and that the receiver is idle again |
| `SlipPoll.RoundTrip` | os/dev/slip.c:94-330 | for every payload and every receiver with nothing buffered, what write, receive and poll hand over, how many bytes of the output buffer they fill, and where the receiver stands afterwards |
| `SlipPoll.IntactExactly` | os/dev/slip.c:125-330 | the payload itself comes out exactly if it is empty, or its escaped length plus 2 fits the receive buffer and it has at most blen + 1 bytes |
| `SlipPoll.PayloadOrNothingExactly` | os/dev/slip.c:163-205 | something that was not sent comes out exactly if the frame wraps, the first loop gives up and the second does not, told from the lengths of escaped prefixes |
| `SlipPoll.IndexBlenExactly` | os/dev/slip.c:134-205 | the byte at index blen is written exactly if the frame fits the receive buffer and the payload has more than blen bytes |
| `SlipPoll.OneByteTooMany` | os/dev/slip.c:134-160 | an input whose payload of blen + 1 bytes is handed over whole |
| `SlipPoll.TailDelivered` | os/dev/slip.c:163-205 | an input of which only the last 6 of 30 bytes are handed over |
| `SlipPoll.SessionExact` | os/dev/slip.c:94-330 | over any number of packets of any length, each polled after it came, what a poll hands over depends on its packet and the place where it begins only |
| `SlipPoll.SessionDelivers` | os/dev/slip.c:94-330 | in such a session a packet arrives unchanged exactly if it is empty, or fits the receive buffer and has at most blen + 1 bytes, whatever was dropped before |
| `SlipQueue.PlayExact` | os/dev/slip.c:125-330 | however the polls lag behind, each one hands over the oldest frame that waits, as long as the frames fit the buffer together and share their ENDs |
| `SlipQueue.Polls` | os/dev/slip.c:207-237 | a poll takes the oldest frame, finds the end of the next one, and asks for another poll exactly if there is one |
| `SlipQueue.OpeningEndStuck` | os/dev/slip.c:207-325 | for every two payloads, a frame with an opening END that comes in while another one waits is not handed over by the two polls after, and no further poll is asked for |
| `SerialLine.Driver.Receive` | os/dev/serial-line.c:64-85 | ordinary bytes are dropped from the first refusal on; a line end that is accepted ends the dropping |
| `SerialLine.Driver.InputByte` | os/dev/serial-line.c:64-85 | the interrupt side follows the specified history |
| `SerialLine.Driver.Turn` | os/dev/serial-line.c:97-125 | one turn of the assembling loop follows the specified history |
| `SerialLine.Driver.Posted` | os/dev/serial-line.c:97-125 | each text posted is, byte by byte, what was received from the beginning of its line on, as long as the line or the buffer, and so is what the buffer holds of the line in progress |
| `SerialLine.LineMade` | os/dev/serial-line.c:97-125 | every line end taken from the ring makes one line of the bytes assembled before it, and no other byte does |
| `SerialLine.InputKeeps` | os/dev/serial-line.c:64-85 | a received byte keeps the positions in the ring consecutive within a line |
| `SerialLine.ConsumeKeeps` | os/dev/serial-line.c:97-125 | assembling keeps each line a run of consecutive input positions |
| `SerialLine.LinesNeverMerge` | os/dev/serial-line.c:63-125 | over every interleaving, each assembled line is, byte by byte, a prefix of one input line from its start, as long as was assembled or the buffer reaches, and positions rise strictly from line to line, so that overflow cuts or drops lines but never merges two |
| `SerialLine.LinesComplete` | os/dev/serial-line.c:63-125 | over every interleaving in which nothing was refused, the lines are exactly those of the input taken so far, none missing and none added, each cut to the buffer |
| `MaxImax.MaxImaxGeneric` | os/lib/trickle-timer.c:98-113 | for 16- and 32-bit clocks and every legal Imin, the result is the largest Imax with Imin shifted by it at most half the clock range |
| `MaxImax.MaxImax16` | os/lib/trickle-timer.c:115-130 | the 16-bit variant stays strictly below half the clock range, one doubling more would not |
| `MaxImax.MaxImax32` | os/lib/trickle-timer.c:131-150 | the 32-bit variant stays strictly below half the clock range, one doubling more would not |
| `MaxImax.VariantsAgree` | os/lib/trickle-timer.c:98-153 | the fixed-width variants give the generic result or one less, and one less exactly when Imin is a power of two |
| `MaxImax.IpairExact` | os/lib/trickle-timer.h:322-323 | wherever C defines the shift, the macro reports exactly that Imin shifted by Imax exceeds half the clock range |
| `MaxImax.MaskedPairExactly` | os/lib/trickle-timer.h:322-323 | on a machine that masks the count of a 32-bit shift, the macro is right for every Imin exactly if the count is below 32 |
| `MaxImax.MaskedPairStored` | os/lib/trickle-timer.c:360-375 | there, an Imin of 2 with an Imax of 31 passes and is stored with the largest interval 0 |
| `TrickleTimer.Trickle.FitImax` | os/lib/trickle-timer.c:360-368 | where C defines the shifts, an Imax that fits is kept and one that does not is lowered to one that does, so that it never wraps |
| `TrickleTimer.Trickle.Config` | os/lib/trickle-timer.c:336-382 | a call is rejected exactly for a bad Imin, a zero Imax or a zero k; otherwise, where C defines the shifts, the largest interval is stored without wrapping, and the timer is stopped in the sense of RFC 6206 exactly if no ctimer was pending |
| `TrickleTimer.Trickle.Set` | os/lib/trickle-timer.c:385-416 | needs a callback; the first interval lies between Imin and the largest interval |
| `TrickleModel.FirstIntervals` | os/lib/trickle-timer.c:399-401 | every interval between Imin and the largest one can be the first, and no other |
| `TrickleTimer.Trickle.NewInterval` | os/lib/trickle-timer.c:288-303 | resets the counter and waits for a point in the second half of the interval |
| `TrickleModel.PointsExactly` | os/lib/trickle-timer.c:157-166 | get_t picks every point of the second half of the interval, except the last one of an odd interval, and no other |
| `TrickleModel.AllPointsExactly` | os/lib/trickle-timer.c:157-166 | so it reaches all of the half-open second half exactly for even intervals |
| `TrickleTimer.Trickle.Consistency` | os/lib/trickle-timer.c:308-317 | counts up to 255 and stays there |
| `TrickleTimer.Trickle.Inconsistency` | os/lib/trickle-timer.c:320-333 | starts over at Imin unless the interval is Imin already |
| `TrickleTimer.Trickle.ScheduleForEnd` | os/lib/trickle-timer.c:169-187 | waits for the end of the interval, or not at all if that has passed |
| `TrickleTimer.Trickle.Fire` | os/lib/trickle-timer.c:260-283 | tells the callback, if there is one, whether to transmit, then waits for the end of the interval unless the timer is stopped |
| `TrickleTimer.Trickle.DoubleInterval` | os/lib/trickle-timer.c:192-255 | doubles the interval up to the largest one and starts it where the last one ended; it divides by zero exactly on a timer whose interval is 0 |
| `TrickleTimer.Trickle.Stop` | os/lib/trickle-timer.h:451-454 | stops the timer and its ctimer |
| `TrickleModel.UntilExact` | os/lib/trickle-timer.c:169-187 | on wrapping clocks the time to wait is the true one, or 0 when the moment has passed, within half a turn of the clock |
| `TrickleModel.DoubledExact` | os/lib/trickle-timer.c:205-217 | doubling loses no bit and gives min(2I, Imax) |
| `TrickleModel.FireExact` | os/lib/trickle-timer.c:260-283 | fire sets the ctimer for the true end of the interval |
| `TrickleModel.DoubleExact` | os/lib/trickle-timer.c:192-255 | the next interval starts exactly at the old start plus the old length, and its point t is true as well, for calls up to half a turn of the clock late |
| `TrickleModel.AtTRefines` | os/lib/trickle-timer.h:250-251 | the callback may transmit exactly when k is 0 or fewer than k consistent messages were heard, although the counter saturates at 255 |
| `TrickleModel.ConfigAgrees` | os/lib/trickle-timer.c:371-376 | a reconfigured timer is stopped in the sense of RFC 6206, its ctimer included, exactly if no ctimer was pending |
| `TrickleModel.DividesExactly` | os/lib/trickle-timer.c:205-221 | double_interval takes get_t of less than 2 exactly on a timer whose interval is 0 |
| `TrickleModel.FiredReconfiguredDivides` | os/lib/trickle-timer.c:192-221 | on every timer reconfigured between fire and the end of its interval, the pending double_interval divides by zero |
| `TrickleModel.ReconfiguredFireHarmless` | os/lib/trickle-timer.c:260-283 | on a timer reconfigured before fire, the pending fire calls nobody and leaves the timer stopped |
| `TrickleModel.SetAndStopHeal` | os/lib/trickle-timer.c:385-416 | setting or stopping a configured timer brings it into agreement with RFC 6206 again, whatever was pending |
| `TrickleModel.LingersExactly` | os/lib/trickle-timer.c:158-416 | an event leaves a stopped timer with a pending double_interval exactly if it reconfigures one that waits for the end of its interval, or is a message to one that is so already |
| `TrickleModel.StepRefines` | os/lib/trickle-timer.c:158-416 | each operation, reconfiguration of a stopped timer included, is a step of section 4.2 of RFC 6206 |
| `TrickleModel.RunRefines` | os/lib/trickle-timer.c:158-416 | every run of the timer takes the decisions of a run of section 4.2 of RFC 6206 under the parameters of its last configuration |
| `CcmStar.AuthFlagsByte` | os/lib/ccm-star.c:46-46 | the shifts of the macro give the flags of section 2.2 of RFC 3610, for every valid MIC length |
| `CcmStar.SetIv` | os/lib/ccm-star.c:56-65 | flags, nonce and a two-byte number make a block |
| `CcmStar.CtrStep` | os/lib/ccm-star.c:69-84 | XORs at most one block at the position with the encrypted counter block and leaves the rest |
| `CcmStar.MixInLength` | os/lib/ccm-star.c:102-106 | the first authentication block is the length and up to 14 bytes, zero padded |
| `CcmStar.Absorb` | os/lib/ccm-star.c:110-128 | the chunk loop is CBC over the padded rest of the source, for every length |
| `CcmStar.ChunksAreBlocks` | os/lib/ccm-star.c:111-127 | cutting into chunks of at most 16 bytes is padding and cutting into blocks |
| `CcmStar.Mic` | os/lib/ccm-star.c:87-133 | for any block function the MIC is that of section 2.2 of RFC 3610 masked by counter block 0, and the rest of the result buffer is untouched |
| `CcmStar.Ctr` | os/lib/ccm-star.c:136-147 | in place, the message is XORed with the counter blocks 1, 2 and so on, as in section 2.3 of RFC 3610 |
| `CcmStar.Aead` | os/lib/ccm-star.c:156-181 | invalid lengths change nothing; otherwise the message is XORed with the keystream and the result holds the MIC of the plaintext, in both directions, the rest of the result being untouched |
| `CcmStar.RoundTrip` | os/lib/ccm-star.c:156-181 | opening what was sealed restores the message and reproduces the MIC, for every cipher, nonce, message and additional data |
| `CcmStar.SealAndOpen` | os/lib/ccm-star.c:156-181 | the same for two calls on one message buffer |
| `CcmSpec.CtrTwice` | os/lib/ccm-star.c:136-147 | encryption undoes itself, whatever the block function |
| `CcmSpec.CbcConcat` | os/lib/ccm-star.c:101-128 | authenticating the data and then the message is authenticating their blocks in a row |
| `CcmSpec.MacBlocksInjective` | os/lib/ccm-star.c:87-128 | no two inputs are authenticated by the same blocks: the nonce, the message, the additional data and the MIC length can be told from them |
| `CcmSpec.KeystreamNotReused` | os/lib/ccm-star.c:140-146 | the blocks of any message of up to 65535 bytes use counter blocks that differ from each other and from the one that masks the MIC |
| `List.SlotList.Remove` | os/lib/list.c:237-260 | takes out exactly that element, wherever it is, and nothing if it is absent |
| `List.SlotList.Add` | os/lib/list.c:142-158 | the element becomes the last one, and is on the list once |
| `List.SlotList.Tail` | os/lib/list.c:117-128 | the last element, or NULL |
| `List.SlotList.ItemNext` | os/lib/list.c:322-325 | the element after this one, or NULL |
| `Memb.Memb.Alloc` | os/lib/memb.c:59-75 | hands out the first free block and fails exactly if none is free |
| `Memb.Memb.Free` | os/lib/memb.c:78-98 | frees exactly the block that starts at the pointer; no block there, or one already free, is refused |
| `Memb.Memb.NumFree` | os/lib/memb.c:108-120 | counts the free blocks |
| `Memb.Memb.AllocTakesOne` | os/lib/memb.c:59-120 | an allocation lowers the number of free blocks by one |
| `NbrModel.Victim` | os/net/nbr-table.c:244-269 | the neighbour chosen is the first among the unlocked ones with the fewest users, and none is chosen only if all are locked |
| `NbrModel.VictimUnique` | os/net/nbr-table.c:244-269 | the policy names one neighbour at most |
| `NbrModel.AddOnTables` | os/net/nbr-table.c:352-398 | as finite maps: an add maps the address to a zero item in this table only, costs every table at most the victim, and fails exactly if the list is full and all are locked |
| `NbrModel.OthersOnTables` | os/net/nbr-table.c:410-437 | as finite maps: a removal takes the item and the lock of this table only, a lock or its release changes no item, and the neighbour stays listed |
| `NbrModel.ApplyKeeps` | os/net/nbr-table.c:352-437 | every operation keeps addresses unique, the list within capacity and every item belonging to a listed address |
| `NbrModel.RunKeeps` | os/net/nbr-table.c:352-437 | the same over every run |
| `NbrModel.LockProtects` | os/net/nbr-table.c:244-269 | over every run, a locked neighbour stays with the items that all tables have for it, until its table unlocks or removes it |
| `NbrModel.VisitsTableOnce` | os/net/nbr-table.c:325-348 | head and next visit exactly the items of the table, each once |
| `NbrModel.VisitIsMembers` | os/net/nbr-table.c:325-348 | they do so in the order of the shared key list |
| `NbrModel.AddedLast` | os/net/nbr-table.c:325-398 | a new item comes last in the iteration exactly if its neighbour is new to the list or no member of the table is listed after it |
| `NbrModel.InsertionOrderLost` | os/net/nbr-table.c:325-398 | an input where the iteration is not the order of insertion into the table |
| `NbrHistory.IterationInJoinOrderExactly` | os/net/nbr-table.c:325-398 | in any recorded state head and next follow the order in which the items joined the table exactly if none of them joined before one that had been on the shared list longer |
| `NbrHistory.RunInJoinOrderExactly` | os/net/nbr-table.c:325-437 | the same after every run from empty tables, with evictions and removals |
| `Bitmaps.PopCounts` | os/net/nbr-table.c:249-258 | shifting the low bit out counts the tables in the bitmap |
| `Bitmaps.SetBit` | os/net/nbr-table.c:170-171 | setting a bit adds that table and no other |
| `Bitmaps.ClearBit` | os/net/nbr-table.c:172-173 | clearing a bit removes that table and no other |
| `NbrSlots.EvictAgrees` | os/net/nbr-table.c:183-199 | an evicted unlocked neighbour leaves a clean slot, so that nothing stale shows after reuse |
| `NbrSlots.EnlistAgrees` | os/net/nbr-table.c:370-384 | a clean slot listed under a new address belongs to no table yet |
| `NbrTable.NbrTables.IndexFromLladdr` | os/net/nbr-table.c:132-148 | the slot of the address, NULL standing for the null address, or -1 if it is not listed |
| `NbrTable.NbrTables.GetFromLladdr` | os/net/nbr-table.c:402-406 | NULL exactly if the table has no item for the address, otherwise that item |
| `NbrTable.NbrTables.GetLladdr` | os/net/nbr-table.c:441-445 | the address of an item, NULL for NULL |
| `NbrTable.NbrTables.Head` | os/net/nbr-table.c:325-335 | the first item of the table in list order, or NULL |
| `NbrTable.NbrTables.Next` | os/net/nbr-table.c:339-348 | the next item of the table in list order, or NULL |
| `NbrTable.NbrTables.LeastUsedKey` | os/net/nbr-table.c:241-269 | the loop with its early stop finds the victim of the policy |
| `NbrTable.NbrTables.RemoveKey` | os/net/nbr-table.c:183-199 | calls the callback of each table that uses the neighbour, in table order, then takes it from all of them |
| `NbrTable.NotifiedExactly` | os/net/nbr-table.c:186-194 | exactly the tables with a callback and an item for the neighbour are told, once each and in table order |
| `NbrTable.ListingExactly` | os/net/nbr-table.c:202-280 | an add calls back exactly if the neighbour is new, the list is full and somebody can go, and then for the victim |
| `NbrTable.NbrTables.Allocate` | os/net/nbr-table.c:202-280 | a free slot, else the victim's slot, else NULL with nothing changed |
| `NbrTable.NbrTables.AddLladdr` | os/net/nbr-table.c:352-398 | the in-place add is the specified one on the tables, returns a slot holding that address, and makes exactly the callbacks of the eviction |
| `NbrTable.NbrTables.Remove` | os/net/nbr-table.c:410-415 | drops the item and this table's lock, leaving the neighbour listed |
| `NbrTable.NbrTables.Lock` | os/net/nbr-table.c:419-426 | adds this table's lock |
| `NbrTable.NbrTables.Unlock` | os/net/nbr-table.c:430-437 | releases this table's lock |
| `Process.SlotExactly` | os/sys/process.c:346-346 | the cast of the slot index to a byte is harmless exactly while the two counters add up to less than 256; the slot it names otherwise |
| `Process.SlotsRightExactly` | os/sys/process.c:346-346 | it is harmless in every state exactly for queues of at most 128 events |
| `Process.EventQueue.Post` | os/sys/process.c:322-359 | refuses exactly when the queue is full, for queues of up to 255 events; otherwise appends the event across index wrap while the counters add up to less than 256, and else replaces a waiting event, which one being stated |
| `Process.EventQueue.Take` | os/sys/process.c:261-272 | takes the oldest event, and keeps what was delivered a prefix of what was accepted, with the queue as the rest |
| `Timer.ExpiredExact` | os/sys/timer.c:123-130 | for all true times: expiry is reported exactly when the interval is over, counting whole turns of the clock as nothing and except one tick before a whole turn |
| `Timer.ExpiredRightExactly` | os/sys/timer.c:123-130 | within one turn the answer is right exactly if the elapsed time is not the last tick |
| `Timer.RemainingExact` | os/sys/timer.c:143-146 | before expiry the remaining time is the true one |
| `EtimerModel.LeaveIsOutside` | os/sys/etimer.c:113-139 | what a poll takes is a prefix of the due timers in list order, and what it leaves keeps its order |
| `EtimerModel.ArmingsConserved` | os/sys/etimer.c:82-271 | over every run, each arming of a timer is still pending, was cancelled, or caused exactly one event |
| `EtimerModel.WakesInTime` | os/sys/etimer.c:58-78 | while no timer has expired, the first one does so after the computed distance and not before |
| `Etimer.EventTimers.UpdateTime` | os/sys/etimer.c:58-78 | next_expiration is now plus the smallest distance to an expiry |
| `Etimer.EventTimers.Scan` | os/sys/etimer.c:115-139 | one walk posts and unlinks the first due timer if the queue has room, and otherwise only asks for another poll |
| `Etimer.EventTimers.Poll` | os/sys/etimer.c:111-139 | the restarting walk terminates, posts one TIMER event to the owner of each timer it removes, in list order, leaves exactly these without an owner, keeps the order of the others, and leaves a due timer only if the queue is full and a new poll was requested |
| `Etimer.EventTimers.Exited` | os/sys/etimer.c:91-107 | takes exactly the timers of the process off the list, keeping the order of the others |
| `Etimer.EventTimers.AddTimer` | os/sys/etimer.c:151-174 | puts the timer in front, or leaves it where it is if it is on the list, and never lists it twice |
| `Etimer.EventTimers.Stop` | os/sys/etimer.c:243-271 | takes the timer off wherever it is and leaves it, and no other, without an owner |
| `Etimer.EventTimers.Expired` | os/sys/etimer.c:212-216 | says that the timer has no owner, in which case it is not on the list |
| `Etimer.Perform` | os/sys/etimer.c:85-271 | a poll, an exit, or a call that arms, resets or stops a timer changes the owners as the run theorem says |
| `Etimer.StaysExpired` | os/sys/etimer.c:85-271 | over every run, a timer that was posted or stopped counts as expired until it is armed again |
| `Etimer.EventTimers.Set` | os/sys/etimer.c:177-181 | starts the timer now and lists it |
| `Etimer.EventTimers.Reset` | os/sys/etimer.c:192-196 | starts over from the last expiry without drift, or leaves an unexpired timer's start alone |
| `Crc16.FastIsEight` | os/lib/crc16.c:57-61 | for every register value the shifts by 8, 4 and 5 are eight steps of the reflected 0x8408 shift register |
| `Crc16.Crc16Add` | os/lib/crc16.c:47-63 | one byte is added and shifted through |
| `Crc16.Crc16Data` | os/lib/crc16.c:66-75 | the loop computes the checksum of the whole message |
| `Crc16.CrcConcat` | os/lib/crc16.c:66-75 | a message may be fed in pieces |
| `Crc16.CrcLinear` | os/lib/crc16.c:47-75 | the checksum of a bitwise sum is the sum of the checksums |
| `Crc16.BurstDetected` | os/lib/crc16.c:47-75 | two messages of one length that differ, and only within two consecutive bytes, have different checksums |
| `Ifft.Bitrev` | os/lib/ifft.c:63-72 | the loop reverses the low bits of the index |
| `IfftModel.BitRevTwice` | os/lib/ifft.c:63-72 | bit reversal is an involution |
| `Ifft.Ilog2` | os/lib/ifft.c:88-98 | the exponent of the largest power of two that is not above the value |
| `IfftModel.PartnerPairs` | os/lib/ifft.c:130-149 | at each distance every index is in exactly one pair, and the pair is in bounds |
| `IfftModel.MixStep` | os/lib/ifft.c:132-145 | one butterfly in place reads only samples of the stage's input |
| `Ifft.StageLoop` | os/lib/ifft.c:130-147 | the nested index loops in place are the stage done at once, for any butterfly |
| `Ifft.SwapLoop` | os/lib/ifft.c:151-162 | the swap loop applies the bit-reversal permutation once to both arrays |
| `IfftModel.PermutedTwice` | os/lib/ifft.c:151-162 | that permutation loses no sample and undoes itself |
| `Ifft.Ifft` | os/lib/ifft.c:113-169 | stages, permutation and magnitudes make up the transform for every power of two |
| `Ifft.MagnitudesExactly` | os/lib/ifft.c:164-169 | the lower half holds the sum of the sizes of the two parts where that fits 16 bits, and that less 65536 where not; the upper half is left as it is |
| `Fourier.NetworkIsDft` | os/lib/ifft.c:129-162 | with butterflies that do not round, over any commutative ring with a root of -1, the stages and the permutation are the discrete Fourier transform, for every power of two |
| `Fourier.ComplexDft` | os/lib/ifft.c:129-162 | the same over the complex numbers |
| `Fourier.ExactParts` | os/lib/ifft.c:137-144 | over the complex numbers such a butterfly has the form of the source: the second sample turned backwards, added and subtracted |
| `Bsl.CommandInterface.CmdDownload` | tools/cc2538-bsl/cc2538-bsl.py:534-550 | a size that is no multiple of 4 is refused before anything is sent |
| `Bsl.CommandInterface.WriteMemory` | tools/cc2538-bsl/cc2538-bsl.py:628-679 | succeeds exactly for lengths that are multiples of 4 unless the user declines; any failure comes before the first command; on an erased flash the image is in place and nothing else changed |
| `Bsl.ScriptBurns` | tools/cc2538-bsl/cc2538-bsl.py:655-679 | skipping packets of 0xFF preserves meaning: on an erased flash the commands leave exactly the image |
| `Bsl.SkippingHarmless` | tools/cc2538-bsl/cc2538-bsl.py:655-679 | on an erased flash the result is that of sending everything |
| `Bsl.ScriptFrame` | tools/cc2538-bsl/cc2538-bsl.py:655-679 | on any flash nothing outside the image is touched, so each packet goes where it belongs after a skip |
| `Bsl.ScriptCell` | tools/cc2538-bsl/cc2538-bsl.py:655-679 | on any flash, what becomes of each cell of the image: untouched if its packet was skipped, otherwise programmed with its byte once |
| `Bsl.InPlaceExactly` | tools/cc2538-bsl/cc2538-bsl.py:655-679 | on any flash the whole image is in place, and the rest as it was, exactly if each cell of a skipped packet was erased and each other cell was one that programming turns into its byte |
| `Bsl.SkippedIfErased` | tools/cc2538-bsl/cc2538-bsl.py:657-671 | on any flash a first packet that is skipped is in place afterwards exactly if it was there before |
| `LinkStats.EwmaBetween` | os/net/link-stats.c:207-209 | the new value lies between the old one and the sample, and stands still exactly if the weighted gap is below one unit |
| `LinkStats.EwmaMonotone` | os/net/link-stats.c:207-209 | larger inputs never give a smaller estimate |
| `LinkStats.Converges` | os/net/link-stats.c:200-210 | under a constant sample p the estimate is within (p-10, p] after at most as many packets as it was away, and stays there, for any mix of the two factors |
| `LinkStats.ApproachesMonotonically` | os/net/link-stats.c:200-210 | on the way it never turns round and never passes the sample |
| `LinkStats.GuessBounds` | os/net/link-stats.c:101-127 | the guess lies between one and three transmissions and never gets worse with a stronger signal |
| `LinkStats.Update` | os/net/link-stats.c:165-209 | freshness saturates, and the estimate moves from the old value towards the 16-bit sample, penalised if nobody acknowledged, by the factor that freshness calls for |
| `LinkStats.EtxAfterSent` | os/net/link-stats.c:165-209 | the new estimate keeps nine tenths of the old one if the statistics are fresh and three quarters if not, rounded down |
| `LinkStats.RssiBetween` | os/net/link-stats.c:240-242 | the average of signal strengths, divided as C divides, lies between the old value and the new one |
| `LinkStats.RssiMoves` | os/net/link-stats.c:240-242 | the average moves a tenth of the way, within less than one unit |
| `LinkTable.Links.PacketSent` | os/net/link-stats.c:132-212 | on the neighbour tables: outcomes other than success and no acknowledgement change nothing; an unknown neighbour is added on success only, with the initial ETX; without room nothing changes; and the entry is then updated |
| `LinkTable.Links.InputCallback` | os/net/link-stats.c:216-247 | an unknown neighbour is added with its signal strength and the ETX guessed from it; a known one has the strength averaged in |
| `LinkTable.KnownAfterSent` | os/net/link-stats.c:146-165 | an address has statistics after a packet exactly if it had, or the packet got through and the shared list had room or an unlocked neighbour |
| `LinkTable.NewNeighbour` | os/net/link-stats.c:146-232 | a new entry starts from two transmissions after a packet that got through, and from what the signal strength suggests after one that was heard |
| `LinkTable.SentFrame` | os/net/link-stats.c:132-212 | a packet changes no other entry of any table, and removes none unless its new neighbour took the victim's place |
| `LinkTable.SampleExactly` | os/net/link-stats.c:177-204 | the 16-bit sample is the true one exactly below 512 transmissions, the penalty included |
| `LinkTable.RunWithin` | os/net/link-stats.c:132-247 | over every run, while other modules add, evict and lock neighbours, each ETX stays between one transmission and the most that any packet took, but at least three, as long as that is below 512 |

## Left out

- Heapmem.Arena.Alloc: sizes are unbounded integers, so overflow of size_t and the range of the int size_adj are not modelled; the header is 16 bytes and the alignment 4, as on a 32-bit platform without the debug fields.
- Heapmem.Arena.GetStats: the counters are unbounded.
- RingbufProtocol.InterleavingSafe: single reads and writes of the byte-wide indices are atomic and in program order, as the comments in the source require.
- SlipPoll.SessionDelivers: each packet is polled before the next one arrives; frames that queue up are the subject of SlipQueue, and interrupts during a poll are outside the claim.
- SlipQueue.PlayExact: frames that do not fit beside those that wait, and bad bytes behind a frame that waits, are outside the claim.
- Slip.Port.Write: the packet length is at most 65535, the range of the loop counter.
- SerialLine.Driver.Turn: posting the line event is taken to succeed, and the wait for its delivery to be one step; ring operations are atomic here, their interleaving is the subject of RingbufProtocol.
- MaxImax.MaxImaxGeneric: 16- and 32-bit clocks only.
- TrickleModel.RunRefines: a ctimer event comes no earlier than asked for and at most half a turn of the clock late; a timer is reconfigured only while nothing is pending, for the reason that TrickleModel.ConfigAgrees gives; callbacks may stop the timer but not reset it from inside fire; the variant without drift compensation is not modelled.
- TrickleTimer.Trickle.Config: error checking is compiled in; a NULL timer pointer and the log output are not modelled. Where C leaves a shift undefined, its result is the machine's, and only the rejected arguments and the stored fields are stated.
- CcmStar.Aead: AES and set_key are an arbitrary function on blocks; the message, the additional data and the result are disjoint buffers.
- NbrTable.NbrTables.AddLladdr: all tables are registered and no custom removal policy is configured; the pointer arithmetic between items, keys and indices is replaced by slot numbers; item memory is a field of rows that is reassigned rather than an array; callbacks are recorded and do not call back into the tables.
- NbrTable.NbrTables.Lock: an item pointer names a slot that is on the list, which is so for every pointer that the interface ever returned.
- Process.EventQueue.Post: the statistics counter is left out.
- Etimer.EventTimers.constructor: the event queue has at most 128 slots, for the reason that Process.SlotsRightExactly gives.
- Etimer.EventTimers.Poll: the clock does not move during the poll, and the receiving processes run afterwards.
- Etimer.EventTimers.UpdateTime: the clock type is at least as wide as int, so that the differences compared in the loop wrap like the stored ones.
- Etimer.EventTimers.AddTimer: called from a process, so that the owner is not PROCESS_NONE.
- Etimer.EventTimers.Reset: etimer_restart, etimer_adjust and etimer_reset_with_new_interval, which change start and interval and then do the same, are left out.
- EtimerModel.WakesInTime: the clock has not almost turned since any listed timer was set.
- Ifft.Ifft: the arithmetic of one butterfly, with its sine table, is an arbitrary function here and exact in Fourier.NetworkIsDft; how far the rounding of the source strays from it is not claimed.
- Bsl.CommandInterface.WriteMemory: every command is acknowledged; serial transport, checksums and the progress output are not modelled, and the user's answer is a parameter.
- LinkTable.Links.PacketSent: the variant that computes ETX from packet counts, the packet counters and the halving of freshness over time are left out; the fields of an entry are stored together rather than one by one, and all neighbour tables have items of one type.
- Process thread bodies, exits, polls of other processes and ctimer: the schedule of the callbacks is not modelled.
- queuebuf, the remaining list libraries, hexconv, Metrics, drivers, radio, file system and logging: they would add only easy members or rest on hardware.
