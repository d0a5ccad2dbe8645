# hive core, modelled in Dafny

hive is a small actor runtime written in C. Actors are identified by 32-bit
handles. Each actor owns a mailbox, and a scheduler runs one message at a time
from the actors that have work. A timing wheel turns timeouts into messages,
and a gateway reassembles length-prefixed packets arriving on connections.
This project models six sequential cores of hive and proves what each of them
promises:

- **Actor mailbox** (`hive_mq.c`), module `Mailbox`. A class over an array: a
  growable circular FIFO of messages that doubles and compacts when `tail`
  catches `head`.
- **Actor registry and scheduler** (`hive_actor.c`), module `ActorRegistry`.
  A class over the actor table and the bounded ready queue. It covers create
  with probing and doubling, handle lookup, send, release, the `is_progress`
  deduplicated ready queue, and dispatch with teardown.
- **Timing wheel** (`src/hive_timer.c`), module `TimerWheel`. A class over
  256 near buckets and 4 × 64 level buckets: insert, the placement rule, exec,
  shift with its cascade, and update driven by an explicit clock reading.
  Each bucket is held as the sequence of its nodes. Module `TimerLinks`
  models the same lists with their `next` pointers over a heap of nodes,
  following them as the C code does. Module `TimerRepr` proves that, with
  the corrected append (see Findings), the linked lists hold exactly
  `TimerWheel`'s sequences at every step.
- **Integer-keyed scatter table** (`src/actor_gate/imap.c`), module `Imap`.
  A class over the slot array: chains through `next`, a downward `lastfree`
  cursor, tombstones and rehash.
- **Packet reassembly** (`src/actor_gate/servergate.c`), module `ServerGate`.
  Each connection's header/body state machine, the `servergate_add` loop
  proved equal to a byte-at-a-time decoder, and the round trip of the framing.
- **Block-chained byte FIFO** (`src/lhive_buffer.c`), module `ByteBuffer`. A
  class over the block chain: push, pop(n) and size.

Where the code departs from what it evidently means, two halves are kept.
`ImapAsWritten`, `ActorRegistryAsWritten`, the `Written` lemmas of
`TimerLinks` and a few members of `Mailbox` and `TimerWheel` model the code
as written and exhibit the discrepancy on a
concrete input. The main modules carry the corrected behaviour, with the
intended property proved (see "Findings").

Shared definitions are in `common.dfy`: `Option`, `byte`, and uint32 as
`u32` with modulus `U32_MOD` = 2^32. Bit operations on uint32 values are
written as arithmetic:
- `x >> k` is `x / 2^k`;
- `x & (2^k - 1)` is `x % 2^k`;
- `handle & (size - 1)` is `handle % size` for the power-of-two sizes used.

## Model

| member | source | states |
|---|---|---|
| Mailbox.QueuePoint | hive_mq.c:22 | the reduced index is below `size`, and equals `i` or `i - size` for `i < 2·size` |
| Mailbox.MessageQueue.constructor | hive_mq.c:24-35 | a new queue is empty with `head = tail = cap = 0`, holds no message, and has room for 1024 |
| Mailbox.MessageQueue.Expand | hive_mq.c:46-60 | a full ring becomes a buffer of twice the size holding the same messages in FIFO order at 0..cap-1, with `head = 0` and `tail = cap` |
| Mailbox.MessageQueue.Push | hive_mq.c:63-76 | the message is appended after all queued ones and `cap` grows by one. Without expansion, `tail` advances modulo `size` in the same buffer. When the push fills the ring, the size doubles with `head = 0` and `tail = cap`. The ring invariant `tail = (head + cap) mod size`, `cap < size` is kept |
| Mailbox.MessageQueue.Pop | hive_mq.c:79-94 | returns the count before removal. An empty queue is left unchanged and yields no message. Otherwise the oldest message is returned and removed, and `head` advances modulo `size` |
| Mailbox.FifoAcrossExpansion | hive_mq.c:51-54 | any number of messages pushed into a new mailbox, across every expansion their pushes cause, pop out in the order they were pushed |
| Mailbox.ExpandAsWrittenOverflows | hive_mq.c:48-53 | an allocation of `2·size` bytes holds fewer than `size` messages of more than two bytes, so the copy loop writes past its end |
| ByteBuffer.BlockNew | src/lhive_buffer.c:28-36 | a new block has the requested size and holds no unread byte |
| ByteBuffer.NewBlockSize | src/lhive_buffer.c:80 | the new tail block has room for the rest of the push and at least 256 bytes, and is exactly one of the two |
| ByteBuffer.TailTake | src/lhive_buffer.c:66-68 | the tail block takes no more bytes than the string has |
| ByteBuffer.FillTailAppends | src/lhive_buffer.c:66-74 | filling the tail block appends exactly the bytes it takes to the pending bytes and leaves every other block alone |
| ByteBuffer.PushChainAppends | src/lhive_buffer.c:54-88 | a push appends exactly the string to the pending bytes, keeps every block but the tail, and adds at most one block |
| ByteBuffer.NewTailAppends | src/lhive_buffer.c:80-86 | the appended block of `max(rest, 256)` bytes adds exactly the rest of the string |
| ByteBuffer.PopWithin | src/lhive_buffer.c:110-113 | a pop that ends inside a block takes its next `n` unread bytes and advances its read index by `n` |
| ByteBuffer.PopExactLast | src/lhive_buffer.c:117-120 | emptying the last block exactly resets it instead of freeing it |
| ByteBuffer.PopExactFree | src/lhive_buffer.c:121-124 | emptying a block other than the last exactly frees it, and the next block becomes the head |
| ByteBuffer.PopExact | src/lhive_buffer.c:114-126 | a pop ending at a block's end takes its unread bytes, then resets the block if it is the last and drops it otherwise |
| ByteBuffer.PopBeyond | src/lhive_buffer.c:114-129 | a pop longer than the block's unread bytes takes all of them and the remaining `n - sz` bytes from the following blocks |
| ByteBuffer.PopLeaf | src/lhive_buffer.c:104-131 | replacing the current block by a block of the same size leaves a chain that has the old blocks after it, keeps the last block's size, and has that block's unread bytes followed by the rest pending |
| ByteBuffer.PopTakesPrefix | src/lhive_buffer.c:104-131 | the pop walk returns exactly the first `n` pending bytes and leaves the rest pending. The remaining chain is a non-empty suffix of the old one, only its first block may change, and the last block is never freed |
| ByteBuffer.TakeBytes | src/lhive_buffer.c:104-131 | the block loop computes exactly the bytes and remaining chain of the pop walk |
| ByteBuffer.BufferState.constructor | src/lhive_buffer.c:166-172 | a new buffer is one empty block of 256 bytes with `all_size` 0 |
| ByteBuffer.BufferState.Size | src/lhive_buffer.c:46-51 | `all_size` is the number of bytes pushed and not yet popped |
| ByteBuffer.BufferState.Push | src/lhive_buffer.c:54-88 | the pending bytes gain exactly the string at the end and `all_size` grows by its length. An empty string changes nothing, since `PushChain` of `[]` is the old chain |
| ByteBuffer.BufferState.Pop | src/lhive_buffer.c:91-136 | `n` defaults to `all_size`. It fails and changes nothing iff `n <= 0`, the buffer is empty or `n > all_size`. Otherwise it returns exactly the first `n` pending bytes in push order, keeps the rest pending, lowers `all_size` by `n` and keeps the last block. With no argument it drains the buffer |
| Imap.Hash | src/actor_gate/imap.c:48-52 | the main position of a non-negative key is a slot of the table |
| Imap.CountStatus | src/actor_gate/imap.c:24 | the number of slots in a status is at most the table size |
| Imap.CountUpdate | src/actor_gate/imap.c:158-159 | rewriting one slot changes a status count only by that slot's change of status |
| Imap.FreeExists | src/actor_gate/imap.c:113-121 | a table without tombstones and with fewer live slots than slots has a free slot |
| Imap.CountFree | src/actor_gate/imap.c:33 | a calloc'd table has no live and no removed slot |
| Imap.SpliceLinked | src/actor_gate/imap.c:148-149 | linking a free slot in behind a slot keeps every chain finite |
| Imap.SpliceReach | src/actor_gate/imap.c:148-149 | splicing keeps every slot on every chain it was on |
| Imap.SpliceNew | src/actor_gate/imap.c:148-149 | the spliced slot is on the chain of the slot it follows |
| Imap.RemoveHolds | src/actor_gate/imap.c:165-174 | tombstoning the slot of a key removes exactly that key from the map the chains hold |
| Imap.UpdateHolds | src/actor_gate/imap.c:130-135 | writing a value into the slot where a key was found updates exactly that key |
| Imap.ReuseHolds | src/actor_gate/imap.c:158-161 | a new key written into its free or tombstoned main slot is added and nothing else changes |
| Imap.SpliceUnlinked | src/actor_gate/imap.c:148-149 | splicing a used slot behind a used slot links no free slot |
| Imap.ChainOwned | src/actor_gate/imap.c:150-151 | the new key in the free slot is the only live copy of that key |
| Imap.DisplaceOwned | src/actor_gate/imap.c:152-155 | after displacement the old entry lives only in the free slot and the new key only in its main slot |
| Imap.ChainHolds | src/actor_gate/imap.c:147-151 | a key whose main slot holds an entry of its own chain goes into the free slot behind it, and the chains hold the map plus that key |
| Imap.DisplaceHolds | src/actor_gate/imap.c:147-155 | a key whose main slot holds an entry of another chain takes the main slot. The displaced entry moves, live, to the free slot, and the chains hold the map plus that key |
| Imap.NoDuplicates | src/actor_gate/imap.c:86-98 | no two live slots hold the same key |
| Imap.EmptyHolds | src/actor_gate/imap.c:30-38 | a table of calloc'd slots holds the empty map, has no live slot and no tombstone, and the cursor is past the end |
| Imap.RemoveOk | src/actor_gate/imap.c:165-174 | imap_remove's write keeps the table invariant with one key fewer and `count` one lower |
| Imap.UpdateOk | src/actor_gate/imap.c:130-135 | overwriting a present key keeps the invariant and `count` |
| Imap.ReuseOk | src/actor_gate/imap.c:157-161 | a new key in its main slot keeps the invariant, and `count` grows by one |
| Imap.ChainOk | src/actor_gate/imap.c:140-161 | a new key chained into the free slot keeps the invariant with the cursor at that slot, and `count` grows by one |
| Imap.DisplaceOk | src/actor_gate/imap.c:140-161 | a new key displacing its main slot's entry keeps the invariant, and `count` grows by one |
| Imap.Below | src/actor_gate/imap.c:71-78 | the entries re-added so far are entries of the map |
| Imap.BelowStep | src/actor_gate/imap.c:72-77 | visiting an old slot adds its entry exactly when it is live, and that key was not yet added |
| Imap.BelowNone | src/actor_gate/imap.c:71 | before the first old slot nothing has been re-added |
| Imap.BelowAll | src/actor_gate/imap.c:72-80 | after the last old slot every entry has been re-added |
| Imap.GrownSize | src/actor_gate/imap.c:57-63 | the rehash size is 8·2^k, above `count`, and no more than twice `count` unless it is 8: the smallest such size |
| Imap.IntMap.constructor | src/actor_gate/imap.c:30-38 | a new table has eight free slots, `count` 0, the cursor past the last slot, and holds the empty map |
| Imap.IntMap.Find | src/actor_gate/imap.c:85-98 | a present key is found in its slot with its value. An absent key, including a removed one, is not found |
| Imap.IntMap.Query | src/actor_gate/imap.c:101-108 | returns the key's value if the key is in the map and nothing otherwise |
| Imap.IntMap.Remove | src/actor_gate/imap.c:165-174 | returns the value of a present key and removes it, lowering `count`. An absent key gives nothing and leaves the map unchanged |
| Imap.IntMap.GetFree | src/actor_gate/imap.c:112-121 | the cursor only moves down. It returns a free slot at the cursor, or NIL once no slot below the old cursor is free |
| Imap.IntMap.Place | src/actor_gate/imap.c:128-161 | a new key is added and `count` grows by one. If no slot is free, the table is unchanged and every slot is in use |
| Imap.IntMap.Splice | src/actor_gate/imap.c:147-161 | with a free slot in hand, a key colliding with a live main slot is added and `count` grows by one |
| Imap.IntMap.ChainNew | src/actor_gate/imap.c:148-151 | the same, for a main slot whose entry belongs to the key's own chain |
| Imap.IntMap.Displace | src/actor_gate/imap.c:148-155 | the same, for a main slot whose entry belongs to another chain, which moves live to the free slot |
| Imap.IntMap.Set | src/actor_gate/imap.c:125-162 | afterwards the map is the old map with the key bound to the value: a later query returns it, and other keys are unchanged |
| Imap.IntMap.Rehash | src/actor_gate/imap.c:55-82 | a fresh table of the smallest 8·2^k above `count` holds the same map and the same `count` (the assert at line 80), with no tombstone |
| Imap.IntMap.Clear | src/actor_gate/imap.c:65-69 | the new table has the given size and holds nothing, with `count` 0 |
| Imap.IntMap.Refill | src/actor_gate/imap.c:71-78 | re-adding the live old slots in order rebuilds exactly the old map, with `count` the number of live old slots |
| ImapAsWritten.Create | src/actor_gate/imap.c:30-38 | a fresh table of eight slots, well formed, with `count` 0 |
| ImapAsWritten.Walk | src/actor_gate/imap.c:89-95 | the chain walk returns NIL or a live slot holding the key |
| ImapAsWritten.Find | src/actor_gate/imap.c:85-98 | _imap_query returns NIL or a live slot holding the key |
| ImapAsWritten.Query | src/actor_gate/imap.c:101-108 | imap_query returns a value exactly when the chain walk finds the key |
| ImapAsWritten.GetFree | src/actor_gate/imap.c:112-121 | the cursor moves down only, and the slot returned is free and at the cursor |
| ImapAsWritten.Set | src/actor_gate/imap.c:125-162 | imap_set as written keeps the table well formed and its size |
| ImapAsWritten.Remove | src/actor_gate/imap.c:165-174 | imap_remove returns what imap_query returned before it |
| ImapAsWritten.OverwriteHitsMainSlot | src/actor_gate/imap.c:134 | after set(0,100), set(8,200), set(8,300), key 0 reads 300 and key 8 still reads 200 |
| ImapAsWritten.OneNine | src/actor_gate/imap.c:147-151 | the table of keys 1 and 9 is well formed |
| ImapAsWritten.SetOneNine | src/actor_gate/imap.c:125-162 | set(1,100) then set(9,200) builds that table, where both keys read back |
| ImapAsWritten.DisplacedEntryLost | src/actor_gate/imap.c:150-155 | set(7,300) on that table displaces key 9, which is then no longer found |
| ImapAsWritten.TombstoneDuplicatesKey | src/actor_gate/imap.c:130 | after removing 1, set(9,300) then remove(9) returns 300, and key 9 still reads its stale value 200 |
| ImapAsWritten.TombstoneReused | src/actor_gate/imap.c:130 | the tombstoned main slot takes a second live copy of key 9 |
| ImapAsWritten.StaleCopyFound | src/actor_gate/imap.c:165-174 | in any table holding 9 live in both slots 1 and 7, removing 9 uncovers the older value |
| ActorRegistry.GP | hive_actor.c:42 | a ready-queue position is reduced below 0x10000 |
| ActorRegistry.ProbeSlot | hive_actor.c:170-171 | the probed slot lies in the table |
| ActorRegistry.ProbeCovers | hive_actor.c:169-172 | the first `size` probe steps from any `handle_index` visit every slot, so a table with a free slot never reaches the growth step |
| ActorRegistry.DoubledSlot | hive_actor.c:195-200 | in the doubled table a handle's slot is its old slot or the one `size` above it |
| ActorRegistry.Lookup | hive_actor.c:257-270 | a lookup only returns the actor in the handle's slot, and only if that actor carries the handle |
| ActorRegistry.LookupFindsRegistered | hive_actor.c:257-270 | a handle is found iff some slot holds an actor with that handle, so stale handles are rejected |
| ActorRegistry.Regrown | hive_actor.c:192-205 | the grown table has twice the slots |
| ActorRegistry.RegrownLookup | hive_actor.c:191-205 | in the doubled table every actor sits at `handle & (2·size-1)` with no collision, and every handle finds the same actor as before |
| ActorRegistry.RegrownHasHole | hive_actor.c:167-206 | a doubled full table has an empty slot, so the retried probe succeeds |
| ActorRegistry.QueueEmpty | hive_actor.c:74-80 | the ready queue is empty exactly when `head` meets `tail` |
| ActorRegistry.QueuePushOk | hive_actor.c:65-70 | appending at `tail` keeps the ring and, below capacity, satisfies the assert at line 66 |
| ActorRegistry.QueuePopOk | hive_actor.c:76-94 | the front entry is at `head` with its flag set, and taking it keeps the ring |
| ActorRegistry.Mark | hive_actor.c:62 | only `is_progress` is set |
| ActorRegistry.Unmark | hive_actor.c:92 | only `is_progress` is cleared |
| ActorRegistry.Deliver | hive_actor.c:227-231 | the message goes last into the mailbox, and the actor then has work |
| ActorRegistry.Consume | hive_actor.c:151 | the oldest message leaves the mailbox and nothing else changes |
| ActorRegistry.MarkRelease | hive_actor.c:219 | only `is_release` is set, which gives the actor work |
| ActorRegistry.NewActor | hive_actor.c:273-289 | a new actor carries its handle, name and callback, no marks and an empty mailbox |
| ActorRegistry.ReplaceOk | hive_actor.c:58-62 | rewriting an actor without changing its handle or mark keeps the table layout and queue agreement, and changes only that handle's lookup |
| ActorRegistry.MarkOk | hive_actor.c:56-71 | marking an unmarked actor and queueing its handle keeps the agreement between marks and queue |
| ActorRegistry.UnmarkOk | hive_actor.c:74-95 | the front handle names a live actor, and unmarking it while dropping the front keeps the agreement |
| ActorRegistry.RemoveOk | hive_actor.c:292-298 | emptying the slot of an unscheduled actor keeps the layout and the agreement, and forgets only its handle |
| ActorRegistry.InsertOk | hive_actor.c:172-175 | an unmarked actor in an empty slot its handle maps to keeps the layout and the agreement, and adds only its handle |
| ActorRegistry.RegrownOk | hive_actor.c:191-205 | doubling keeps the queue agreement and the rule that an actor is scheduled iff it has work |
| ActorRegistry.SettledStore | hive_actor.c:56-71 | storing an actor that is scheduled iff it has work keeps that rule for the whole table |
| ActorRegistry.SameHandleStore | hive_actor.c:262-266 | rewriting one slot with the same handle, or emptying it, changes no other handle's lookup |
| ActorRegistry.ActorManager.constructor | hive_actor.c:98-109 | an empty ready queue, a table of four empty slots in which no handle is found, and `handle_index` 1 |
| ActorRegistry.ActorManager.Query | hive_actor.c:257-270 | returns the actor with that handle iff one is registered |
| ActorRegistry.ActorManager.Push | hive_actor.c:56-71 | an actor already marked changes nothing. Otherwise it is marked and its handle appended to the queue; no other actor changes |
| ActorRegistry.ActorManager.Pop | hive_actor.c:74-95 | an empty queue gives nothing and changes nothing. Otherwise the front handle is returned and dequeued, `head` advances, and that actor's mark is cleared |
| ActorRegistry.ActorManager.Send | hive_actor.c:233-253 | returns -1 and changes nothing if the source or the target is unregistered. Otherwise the target's mailbox gains the message last, the target is scheduled once, and no other actor changes |
| ActorRegistry.ActorManager.Release | hive_actor.c:210-224 | an unknown handle gives -1 and changes nothing. Otherwise the actor is marked releasing and scheduled once |
| ActorRegistry.ActorManager.Free | hive_actor.c:292-318 | the releasing actor's slot is emptied with its queued messages, and its handle is no longer found while others are unchanged |
| ActorRegistry.ActorManager.Dispatch | hive_actor.c:130-161 | an empty queue gives 0. A releasing front actor runs HIVE_TRELEASE from SYS_HANDLE, is freed, and the result is 2. Otherwise its oldest message runs and the result is 1, and it is rescheduled iff more than one message was queued. While every actor with work is scheduled, dispatch on a non-empty queue never returns 0 |
| ActorRegistry.ActorManager.RunOldest | hive_actor.c:150-159 | runs the oldest message and reschedules iff the pop reported more than one |
| ActorRegistry.ActorManager.Probe | hive_actor.c:169-188 | returns the first probe step whose slot is empty, or nothing only when the table is full |
| ActorRegistry.ActorManager.Grow | hive_actor.c:190-205 | a full table is replaced by one of twice the size in which every handle finds the same actor |
| ActorRegistry.ActorManager.FindSlot | hive_actor.c:167-206 | returns the first empty probe step, in the table doubled first if it was full |
| ActorRegistry.ActorManager.Install | hive_actor.c:170-186 | the new actor, its handle and marks initialised, takes the empty probed slot. Its mailbox holds exactly HIVE_TCREATE from SYS_HANDLE with session 0, it is scheduled, and `handle_index` becomes handle+1 |
| ActorRegistry.ActorManager.Create | hive_actor.c:164-207 | returns the first probed handle with an empty slot, in a table doubled first if full. The handle was not registered before; it now names a new actor holding HIVE_TCREATE and is scheduled. `handle_index` becomes handle+1, and no other lookup changes |
| ActorRegistryAsWritten.RegrownAsWritten | hive_actor.c:195-205 | as written, growth copies slot `j` to slot `j`, and the upper half stays empty |
| ActorRegistryAsWritten.GrowAsWrittenLosesActor | hive_actor.c:195-205 | after the as-written growth, a live actor whose handle maps into the upper half is not found; the corrected growth finds it |
| ActorRegistryAsWritten.FifthCreateLosesHandleFour | hive_actor.c:164-207 | after four creates the fifth grows the table, and as written handle 4 is lost |
| ActorRegistryAsWritten.NewActorAsWritten | hive_actor.c:273-289 | as written, the handle and marks keep whatever the allocation held |
| ActorRegistryAsWritten.UninitialisedHandleUnreachable | hive_actor.c:273-289 | an actor whose stale handle differs from the one create returns is never found under it; the initialised actor is |
| ActorRegistryAsWritten.UninitialisedMarkNeverQueued | hive_actor.c:56-62 | an actor with a stale `is_progress` mark receives HIVE_TCREATE but is never queued, which breaks the agreement between marks and queue |
| ServerGate.BE16 | src/actor_gate/servergate.c:132-140 | a big-endian two-byte header is at most 0xFFFF |
| ServerGate.NewState | src/actor_gate/servergate.c:60-66 | a zeroed state for the id: no header bytes and no buffer |
| ServerGate.Reset | src/actor_gate/servergate.c:91-94 | after a completed packet the state equals a fresh one |
| ServerGate.TakeHeader | src/actor_gate/servergate.c:111-142 | header bytes are appended. A completed header sets `size` to its big-endian value with an empty buffer |
| ServerGate.Resolve | src/actor_gate/servergate.c:78-96 | the chunk is appended to the body. The packet is delivered iff it reaches `size`, and then it is exactly the buffered bytes of length `size` and the state resets |
| ServerGate.Step | src/actor_gate/servergate.c:109-152 | a decoder step keeps the state invariant (nothing buffered before the header is complete, never more than `size` body bytes) |
| ServerGate.FeedBytes | src/actor_gate/servergate.c:109-152 | feeding any input keeps the state invariant and the id |
| ServerGate.FeedAppend | src/actor_gate/servergate.c:99-153 | chunking does not matter: feeding `a` then `b` gives the state and packets of feeding `a + b` |
| ServerGate.FeedSingle | src/actor_gate/servergate.c:109-152 | one byte is one decoder step |
| ServerGate.HeaderFeeds | src/actor_gate/servergate.c:111-143 | header bytes that fit are absorbed and deliver nothing |
| ServerGate.BodyFeeds | src/actor_gate/servergate.c:145-151 | body bytes that fit do exactly what `_connect_resolve` does |
| ServerGate.FlushFeeds | src/actor_gate/servergate.c:145-148 | a complete empty packet is delivered by the next byte, and decoding continues from a fresh state |
| ServerGate.HeaderRound | src/actor_gate/servergate.c:111-143 | a header round of the loop agrees with the decoder |
| ServerGate.BodyRound | src/actor_gate/servergate.c:145-151 | a body round, consuming `min(remaining, size - cap)` bytes, agrees with the decoder |
| ServerGate.FlushRound | src/actor_gate/servergate.c:145-151 | a round that takes no byte because the body is already complete delivers that body, then decodes the remaining bytes from a fresh state, as the decoder does |
| ServerGate.FeedRound | src/actor_gate/servergate.c:145-151 | a round that appends a non-empty part of the body, then the remaining bytes, agrees with the decoder on the whole input |
| ServerGate.AddBytes | src/actor_gate/servergate.c:109-152 | the `while (size > 0)` loop ends in the state, and delivers the packets in order, that the byte-at-a-time decoder does |
| ServerGate.Frame | src/actor_gate/servergate.c:14-15 | a frame is two header bytes followed by the packet |
| ServerGate.FrameHeader | src/actor_gate/servergate.c:132-140 | a frame's header announces exactly its packet's length |
| ServerGate.Encode | src/actor_gate/servergate.c:14-15 | the framing of at least one packet starts with a full header |
| ServerGate.EmptyPending | src/actor_gate/servergate.c:140-148 | the state after a complete empty packet that nothing has flushed yet |
| ServerGate.FrameFeeds | src/actor_gate/servergate.c:109-152 | one frame on a fresh state delivers its packet, or leaves an empty packet pending |
| ServerGate.ThenFresh | src/actor_gate/servergate.c:109-152 | input ending on a packet boundary composes with any further input |
| ServerGate.ThenPending | src/actor_gate/servergate.c:145-148 | input that leaves an empty packet pending delivers it once more input follows |
| ServerGate.FrameThen | src/actor_gate/servergate.c:109-152 | a frame followed by more input delivers its packet first |
| ServerGate.PartialFrame | src/actor_gate/servergate.c:111-151 | a cut frame holds its header and body bytes and delivers nothing yet |
| ServerGate.RoundTripOne | src/actor_gate/servergate.c:109-152 | the framing of one packet decodes to it |
| ServerGate.RoundTripCons | src/actor_gate/servergate.c:109-152 | a frame in front of input that decodes as intended still decodes as intended |
| ServerGate.DecodedCons | src/actor_gate/servergate.c:109-152 | putting a packet in front of at least one more packet puts it first among the delivered packets |
| ServerGate.RoundTrip | src/actor_gate/servergate.c:109-152 | feeding the framing `be16(len p) ++ p` of packets p1..pn to a fresh state delivers p1..pn in order and returns to a fresh state. A final empty packet waits for the next byte |
| ServerGate.GateContext.constructor | src/actor_gate/servergate.c:38-44 | no connection states and no callback |
| ServerGate.GateContext.SetCallback | src/actor_gate/servergate.c:164-167 | installs or removes the callback and leaves the states alone |
| ServerGate.GateContext.StateOf | src/actor_gate/servergate.c:101-107 | an unseen id starts from a zeroed state for that id |
| ServerGate.GateContext.Add | src/actor_gate/servergate.c:99-153 | the id's state, created zeroed if unseen, takes the data as the decoder does. Completed packets go to the callback, or are dropped without one. No other id's state changes |
| ServerGate.GateContext.Del | src/actor_gate/servergate.c:155-161 | removes the id's state, and is a no-op for an unknown id |
| ServerGateVectors.Call1 | test/test_servergate.c:24-25 | the five-byte frame is delivered |
| ServerGateVectors.Call2 | test/test_servergate.c:27-28 | the four-byte frame is delivered and one header byte stays pending |
| ServerGateVectors.Call3 | test/test_servergate.c:30-31 | the split header completes, and packets [31,32] and [41,42,43] are delivered |
| ServerGateVectors.Call4 | test/test_servergate.c:33-34 | two whole frames in one chunk are delivered in order |
| ServerGateVectors.Call5 | test/test_servergate.c:36-37 | four of nine body bytes are held and nothing is delivered |
| ServerGateVectors.Call6 | test/test_servergate.c:39-40 | the remaining five bytes complete the nine-byte packet |
| ServerGateVectors.Call7 | test/test_servergate.c:42-43 | six of 32 body bytes stay pending |
| ServerGateVectors.Call8 | test/test_servergate.c:45-46 | the second id holds five of six body bytes |
| ServerGateVectors.Call9 | test/test_servergate.c:48-49 | the last byte completes the second id's packet |
| TimerWheel.UpSucc | src/hive_timer.c:197-213 | one tick changes a digit group by at most one, and changes it exactly when the tick carries into it |
| TimerWheel.UpTop | src/hive_timer.c:139-143 | above bit 26 a uint32 has a single 6-bit digit, so level 3 needs no further group |
| TimerWheel.LevelPlace | src/hive_timer.c:132-143 | the level loop picks a level bucket of level `i` to 3 with an index below 64 |
| TimerWheel.Place | src/hive_timer.c:123-145 | every node goes to an existing bucket |
| TimerWheel.FirstAgree | src/hive_timer.c:135-141 | the first agreeing digit group is found from `j` on, or 4 when none agrees |
| TimerWheel.FirstAgreeIs | src/hive_timer.c:135-141 | no group below the result agrees, and the result agrees unless it is 4 |
| TimerWheel.FirstAgreeUnique | src/hive_timer.c:135-141 | the first agreeing group is determined by where the groups agree |
| TimerWheel.LevelPlaceAgree | src/hive_timer.c:132-143 | the level loop follows the first agreeing digit group |
| TimerWheel.PlaceRule | src/hive_timer.c:123-145 | the node goes to `near_wheel[expire & 255]` iff expiry and time agree above the low 8 bits. Otherwise it goes to `level_wheel[i][(expire >> (8+6i)) & 63]` for the first i in 0..2 above whose group they agree, or level 3 |
| TimerWheel.AheadAgreeLater | src/hive_timer.c:128-143 | a node ahead of the time that agrees with it above some group is due no earlier |
| TimerWheel.AgreeNoCarry | src/hive_timer.c:197 | the groups above which a pending node agrees with the time do not carry on the next tick |
| TimerWheel.NearDue | src/hive_timer.c:152 | a node placed in the near bucket of the current time is due exactly now |
| TimerWheel.IntendedMove | src/hive_timer.c:200-213 | with the mask from 256, the tick reaching `t` cascades the level bucket just below the highest group it carried into, at `t`'s index there, and nothing when the low 8 bits did not wrap |
| TimerWheel.LoopsAgreeFrom2 | src/hive_timer.c:204-213 | from level 2 on, masks from 8 and from 256 make the loop take the same steps |
| TimerWheel.LoopsAgreeFrom1 | src/hive_timer.c:204-213 | from level 1 on, masks from 8 and from 256 make the loop take the same steps |
| TimerWheel.ShiftMovedExtra | src/hive_timer.c:203-213 | the as-written cascade is the intended one, except on ticks leaving the low 8 bits non-zero, where it may cascade the level-0 bucket at the time's own index |
| TimerWheel.TickKeepsAhead | src/hive_timer.c:197 | a node not yet due stays ahead of the time across a tick |
| TimerWheel.WrapKeepsPlace | src/hive_timer.c:197-199 | the tick wrapping the time to 0 leaves every node outside `level_wheel[3][0]` in its bucket |
| TimerWheel.StepKeepsPlace | src/hive_timer.c:197-213 | a non-wrapping tick leaves every node outside the cascaded bucket in its bucket |
| TimerWheel.TickKeepsPlace | src/hive_timer.c:195-215 | a pending node stays ahead of the time, and unless its bucket is cascaded the placement rule at the new time names the bucket it sits in |
| TimerWheel.MovedValid | src/hive_timer.c:205-207 | the bucket the as-written loop cascades exists |
| TimerWheel.AddW | src/hive_timer.c:111-145 | appending a node to its placement bucket keeps the wheel's shape |
| TimerWheel.AddAllW | src/hive_timer.c:187-191 | re-adding a list of nodes keeps the wheel's shape |
| TimerWheel.ExecW | src/hive_timer.c:157-179 | emptying the near bucket of the time keeps the wheel's shape |
| TimerWheel.MoveW | src/hive_timer.c:181-192 | moving a bucket keeps the wheel's shape |
| TimerWheel.ShiftW | src/hive_timer.c:195-215 | the as-written shift keeps the wheel's shape |
| TimerWheel.IntendedShiftW | src/hive_timer.c:195-215 | the shift with the mask from 256 keeps the wheel's shape |
| TimerWheel.Sends | src/hive_timer.c:147-154 | one HIVE_TTIMER message from SYS_HANDLE per dispatched node, in order, carrying its session to its handle |
| TimerWheel.AddPlaced | src/hive_timer.c:123-145 | adding a node that is ahead of the time keeps every node in its rightful bucket |
| TimerWheel.AddAllPlaced | src/hive_timer.c:187-191 | adding nodes that are all ahead keeps every node in its rightful bucket |
| TimerWheel.ClearPlaced | src/hive_timer.c:166-167 | emptying a bucket keeps every node in its rightful bucket |
| TimerWheel.ExecFiresDue | src/hive_timer.c:147-179 | on a placed wheel of bucket sequences every node of the near bucket of the time has `expire == cur_time`, the condition the assert at line 152 checks. No node due now remains, and the rest stay placed |
| TimerWheel.ShiftMovedCases | src/hive_timer.c:203-213 | whenever the intended loop cascades a bucket the as-written loop cascades the same one. Otherwise its only extra is the level-0 bucket at the time's own index |
| TimerWheel.NotOwnIndex | src/hive_timer.c:132-143 | no node is ever placed in the level-0 bucket at the time's own index |
| TimerWheel.OwnIndexEmpty | src/hive_timer.c:203-207 | on a placed wheel the extra bucket of the as-written cascade is empty |
| TimerWheel.ShiftAsIntended | src/hive_timer.c:203 | on a placed wheel the as-written shift has exactly the effect of the shift with the mask from 256 |
| TimerWheel.TickKeepsOthers | src/hive_timer.c:195-215 | after a tick from a placed wheel with nothing due, every node is ahead of the new time, and every node outside the cascaded bucket is where the placement rule now puts it |
| TimerWheel.MovePlaced | src/hive_timer.c:181-192 | re-adding a bucket whose nodes are ahead, when every other node is in place, places the whole wheel |
| TimerWheel.ShiftPlaced | src/hive_timer.c:195-215 | a shift keeps a placed wheel with nothing due placed at the new time |
| TimerWheel.SetContents | src/hive_timer.c:111-120 | replacing a bucket swaps exactly its nodes for the new ones |
| TimerWheel.AddContents | src/hive_timer.c:123-145 | adding a node adds exactly that node |
| TimerWheel.AddAllContents | src/hive_timer.c:187-191 | adding a list of nodes adds exactly those nodes |
| TimerWheel.MoveContents | src/hive_timer.c:181-192 | a cascade loses no node and adds none |
| TimerWheel.ShiftContents | src/hive_timer.c:195-215 | a shift loses no node and adds none |
| TimerWheel.ExecContents | src/hive_timer.c:157-179 | exec removes exactly the nodes it dispatches |
| TimerWheel.Run | src/hive_timer.c:220-241 | the ticks of an update keep the wheel's shape |
| TimerWheel.TickPlaced | src/hive_timer.c:220-226 | one tick from a placed wheel of bucket sequences takes out only nodes due now, keeps every other node, and leaves the wheel placed at the next time |
| TimerWheel.NextTickPlaced | src/hive_timer.c:236-240 | one `_timer_update` keeps a placed wheel placed at the next time |
| TimerWheel.NextTickContents | src/hive_timer.c:236-240 | one `_timer_update` moves exactly the nodes it dispatches from the wheel to the dispatched ones |
| TimerWheel.RunLast | src/hive_timer.c:238-240 | the last of `n` ticks execs and shifts the wheel left by the first `n-1`, and advances the time by one |
| TimerWheel.RunTime | src/hive_timer.c:236-240 | `n` ticks advance the time by `n` modulo 2^32 |
| TimerWheel.RunPlaced | src/hive_timer.c:236-240 | any number of ticks from a placed wheel leave it placed |
| TimerWheel.RunContents | src/hive_timer.c:236-240 | over any number of ticks of the bucket-sequence wheel, the nodes still pending and the nodes taken out together are exactly the nodes at the start |
| TimerWheel.NewNode | src/hive_timer.c:96-104 | a new node is due at `cur_time + offset` modulo 2^32 and carries its session and handle |
| TimerWheel.SendsAppend | src/hive_timer.c:238-240 | the messages of two runs of ticks are those of each, in order |
| TimerWheel.InsertPlaced | src/hive_timer.c:245-253 | a node inserted at most 2^32 - 2^26 ticks ahead keeps the wheel placed |
| TimerWheel.OffsetBehindTime | src/hive_timer.c:100 | an offset of 2^32 - 1 at time 1 yields a node due at 0 placed in `near_wheel[0]` behind the time, where the assert at line 152 fails at time 256 |
| TimerWheel.ExtraCascadeAt264 | src/hive_timer.c:203 | at the tick reaching 264 the as-written loop cascades `level_wheel[0][1]`, while the intended loop cascades nothing |
| TimerWheel.TimerState.W | src/hive_timer.c:39-46 | the buckets form a wheel of 256 near and 4 × 64 level buckets |
| TimerWheel.TimerState.constructor | src/hive_timer.c:59-68 | every bucket is empty, time and session are 0, and the clock reading is recorded |
| TimerWheel.TimerState.Add | src/hive_timer.c:123-145 | the node is appended to the bucket the placement rule names at the current time |
| TimerWheel.TimerState.Exec | src/hive_timer.c:147-179 | the near bucket of the time is emptied, and the nodes of its sequence are sent, in that order, as HIVE_TTIMER messages |
| TimerWheel.TimerState.Move | src/hive_timer.c:181-192 | the level bucket is emptied and its nodes re-added head first |
| TimerWheel.TimerState.Shift | src/hive_timer.c:195-215 | the time advances by one modulo 2^32, and on wrap-around `level_wheel[3][0]` is re-added. Otherwise the bucket the as-written mask loop names is cascaded |
| TimerWheel.TimerState.Cascade | src/hive_timer.c:201-213 | the mask loop cascades exactly the bucket the as-written loop names, and nothing when it names none |
| TimerWheel.TimerState.Tick | src/hive_timer.c:220-226 | exec then shift: dispatches the due nodes and advances the time by one |
| TimerWheel.TimerState.Update | src/hive_timer.c:228-242 | the clock reading is recorded. A reading behind the last one is reported and runs no tick. Otherwise exactly `now - last` ticks run, with the wheel, time and messages of that many ticks |
| TimerLinks.Append | src/hive_timer.c:111-120 | the node becomes the tail of the bucket's list and no other list changes; the append fails exactly when the list's tail has been freed |
| TimerLinks.Add | src/hive_timer.c:123-145 | the node becomes the tail of the list the placement rule names, and nothing is allocated or freed |
| TimerLinks.Insert | src/hive_timer.c:245-253 | the new node is allocated at its address with its payload and added |
| TimerLinks.MoveFrom | src/hive_timer.c:187-191 | walking a list and re-adding its nodes allocates and frees nothing |
| TimerLinks.Move | src/hive_timer.c:181-192 | a cascade allocates and frees nothing |
| TimerLinks.ExecFrom | src/hive_timer.c:170-175 | the walk frees exactly the nodes it dispatches and leaves the lists alone |
| TimerLinks.Exec | src/hive_timer.c:157-179 | exec leaves the near list of the time empty |
| TimerLinks.Shift | src/hive_timer.c:195-215 | a shift allocates and frees nothing |
| TimerLinks.IdleTick | src/hive_timer.c:157-226 | a tick with an empty near list and no cascade dispatches nothing and changes nothing |
| TimerLinks.NoCascade | src/hive_timer.c:201-213 | reaching a time below 256 or not a multiple of 8 cascades nothing |
| TimerLinks.InsertTwo | src/hive_timer.c:245-253 | inserting offsets 261 and 263 at time 0 chains both nodes in `level_wheel[0][1]`, the first linked to the second |
| TimerLinks.FirstTicks | src/hive_timer.c:220-226 | the ticks at 0 to 254 leave those two nodes untouched |
| TimerLinks.WrittenMove | src/hive_timer.c:181-192 | as written, the cascade at 256 puts node 261 in `near_wheel[5]` still linked to node 263, which it puts in `near_wheel[7]` |
| TimerLinks.WrittenCascade | src/hive_timer.c:195-213 | as written, the tick at 255 performs that cascade |
| TimerLinks.WrittenIdleBeforeDispatch | src/hive_timer.c:220-226 | as written, the ticks at 256 to 260 dispatch nothing |
| TimerLinks.WrittenExecAt261 | src/hive_timer.c:165-175 | as written, exec at 261 follows the stale link and dispatches and frees node 263 too |
| TimerLinks.WrittenEarlyDispatch | src/hive_timer.c:220-226 | as written, the tick at 261 dispatches both nodes |
| TimerLinks.WrittenUseAfterFree | src/hive_timer.c:170-174 | as written, `near_wheel[7]` still names the freed node 263, and exec at 263 reads freed memory |
| TimerLinks.StaleLinkFiresEarly | src/hive_timer.c:111-192 | the whole as-written run: node 263 is dispatched at 261, against the assert at line 152, and exec at 263 reads it after it was freed |
| TimerLinks.CorrectedMove | src/hive_timer.c:181-192 | with the link cleared, the cascade at 256 leaves node 261 alone in `near_wheel[5]` |
| TimerLinks.CorrectedCascade | src/hive_timer.c:195-213 | with the link cleared, the tick at 255 performs that cascade |
| TimerLinks.CorrectedIdleBeforeDispatch | src/hive_timer.c:220-226 | with the link cleared, the ticks at 256 to 260 dispatch nothing |
| TimerLinks.CorrectedExecAt261 | src/hive_timer.c:157-179 | with the link cleared, exec at 261 dispatches node 261 alone |
| TimerLinks.CorrectedDispatch | src/hive_timer.c:220-226 | with the link cleared, the tick at 261 dispatches node 261 alone |
| TimerLinks.CorrectedIdleAt262 | src/hive_timer.c:220-226 | with the link cleared, the tick at 262 dispatches nothing |
| TimerLinks.CorrectedExecAt263 | src/hive_timer.c:157-179 | with the link cleared, exec at 263 dispatches node 263 and frees the last node |
| TimerLinks.CorrectedSecondDispatch | src/hive_timer.c:220-226 | with the link cleared, the tick at 263 dispatches node 263 and leaves every list empty |
| TimerLinks.ClearedLinkFiresOnTime | src/hive_timer.c:111-192 | the same run with the link cleared: each node is dispatched exactly at its expiry, and nothing is left |
| TimerRepr.LinkedFrame | src/hive_timer.c:111-120 | a list stays linked when the nodes it reaches are unchanged |
| TimerRepr.AppendLinked | src/hive_timer.c:111-120 | the corrected append of a node extends the linked sequence of a bucket by that node |
| TimerRepr.AddRepr | src/hive_timer.c:123-145 | the corrected add keeps the lists representing the wheel, with the node appended to its placement bucket, and changes no unlisted node |
| TimerRepr.MoveFromRepr | src/hive_timer.c:187-191 | re-adding a detached chain of nodes head first keeps the lists representing the wheel with those nodes added |
| TimerRepr.DetachRepr | src/hive_timer.c:183-186 | detaching a bucket's list leaves a representation of the wheel without it and a chain of its nodes |
| TimerRepr.MoveRepr | src/hive_timer.c:181-192 | the corrected cascade of a bucket does what `MoveW` does to the wheel |
| TimerRepr.ExecFromChain | src/hive_timer.c:170-175 | walking a chain dispatches its nodes in chain order and frees exactly them |
| TimerRepr.ExecRepr | src/hive_timer.c:157-179 | exec dispatches exactly the nodes of the near bucket of the time, in order, and does what `ExecW` does |
| TimerRepr.NextIsMod | src/hive_timer.c:197 | the incremented uint32 time is the next time modulo 2^32 |
| TimerRepr.ShiftRepr | src/hive_timer.c:195-215 | the corrected shift does what `ShiftW` does |
| TimerRepr.TickRepr | src/hive_timer.c:220-226 | the corrected tick dispatches exactly `Due` and does what exec then shift do to the wheel |
| TimerRepr.CorrectedTickFiresDue | src/hive_timer.c:147-226 | with the corrected append, every node a tick dispatches from a placed wheel has `expire == cur_time` (the assert at line 152 holds), each node due is dispatched once, the wheel stays placed at the next time, and no node is lost |
| TimerRepr.InsertRepr | src/hive_timer.c:245-253 | the corrected insert keeps the lists representing the wheel with the node added |
| TimerRepr.EmptyRepr | src/hive_timer.c:59-68 | the lists of a new timer represent the empty wheel, which is placed at any time |
| TimerWheel.TimerState.Insert | src/hive_timer.c:245-253 | returns the current session and increments it. A node due `offset` ticks ahead (mod 2^32) is added by the placement rule |

## Left out

- Concurrency: spinlocks, the rwlock, the atomics and fences of the ready queue, and the timer's unlock/relock loop around dispatch (src/hive_timer.c:165-178) are not modelled. Every core is single-threaded, and exec dispatches the bucket once.
- Locks that are not released: hive_mq_pop on an empty queue (hive_mq.c:83-85) and _actor_progress_push on a marked actor (hive_actor.c:59-61) return while holding the lock. With no locks in the model, these are not represented.
- Memory management is not modelled: freeing message data, actor names, mailboxes, timer nodes, imap tables and connection states; `hive_timer_free`; `imap_free`; `servergate_free`.
- The callbacks are not modelled. The actor callback becomes the returned `Delivery`, and `hive_send` from the timer becomes the returned `Send`. The servergate callback becomes the returned packets. `actor_log_send` becomes the `regressed` flag.
- The wall clock `_gettime` (src/hive_timer.c:49-56) becomes the `now` parameter of `Update`, and the reading at creation becomes the constructor's argument.
- ActorRegistry.ActorManager: the ready queue's `head` and `tail` are kept reduced modulo 0x10000 rather than as free-running counters reduced on use. The two agree while the queue never holds 0x10000 entries, which the assert at hive_actor.c:66 demands.
- ActorRegistry.ActorManager.Send: a message whose source is SYS_HANDLE fails exactly when no actor holds handle 0. The model proves a new registry finds no handle 0, but not that handle 0 stays free until `handle_index` wraps around past 2^32.
- ActorRegistry.ActorManager.Grow: modelled only for a full table, the one case in which create reaches it.
- ActorRegistry.ActorManager.Create: requires the ready queue to have room and the doubled size to stay below 0x8000000, which the source asserts.
- Imap: keys must be non-negative, since `key % size` with C's truncating `%` would give a negative index for negative keys. Values are integers standing for the non-NULL pointers imap_set asserts.
- Imap.IntMap.Rehash re-inserts through the adding path of imap_set (Place), because a key being re-inserted is never already in the new table.
- ServerGate: the states are held as the abstract map the imap stands for, not as an imap instance. The arguments of `servergate_add` and the packets are byte sequences, not pointers and lengths.
- ByteBuffer.BufferState.Pop: the Lua number argument is a Dafny `int`, so the truncation of `luaL_optnumber` to `int` is not modelled. The `luaL_Buffer` is the returned byte sequence.
- TimerWheel: the session counter is an unbounded integer, so the signed overflow of `state->session++` after 2^31 inserts is not modelled. The shift's `mask` is an unbounded number, which is never shifted past 2^27 before the loop exits.
- TimerWheel.InsertPlaced: weaker than a promise for every offset. It covers offsets up to 2^32 - 2^26, because larger offsets can place a node behind the time (see OffsetBehindTime), where the assert at src/hive_timer.c:152 fails.
- TimerWheel.ExecFiresDue: states the dispatch assert of src/hive_timer.c:152 for the bucket sequences of a placed wheel, not for the code as written, where the assert can fail (see the Findings row for src/hive_timer.c:112-120). It holds of the linked lists only with the corrected append (TimerRepr.CorrectedTickFiresDue). The constructor, `InsertPlaced`, `TickPlaced` and `RunPlaced` show that every wheel built by create, insert with offsets up to 2^32 - 2^26, and update is placed.
- TimerWheel.ExecW: holds each bucket as a sequence, so it models exec with the corrected append. As written, a near list can run on through a stale `next` into other buckets' nodes, which `TimerLinks.StaleLinkFiresEarly` exhibits.
- TimerWheel.MoveW: models the cascade with the corrected append. As written, a moved node keeps its old `next`, which `TimerLinks.WrittenMove` exhibits.
- TimerWheel.ExecContents: holds for the corrected append only. As written, exec can also dispatch and free nodes still listed in other buckets.
- TimerWheel.TickPlaced: holds for the corrected append only (`TimerRepr.CorrectedTickFiresDue` carries it over to the linked lists). As written, a tick can dispatch a node before its expiry.
- TimerWheel.NextTickContents: holds for the corrected append only, for the same reason as TickPlaced.
- TimerWheel.RunContents: holds for the corrected append only. As written, a node can be dispatched early and then read again after it was freed (`TimerLinks.WrittenUseAfterFree`).
- TimerWheel.TimerState.Exec: the buckets are sequences, so the corrected append is modelled. The stale links of the code as written are modelled only by `TimerLinks`, on values.
- TimerWheel.TimerState.Move: the buckets are sequences, so the corrected append is modelled, as for MoveW.
- TimerWheel.TimerState.Tick: the buckets are sequences, so the corrected append is modelled, as for ExecW and MoveW.
- TimerWheel.TimerState.Update: the buckets are sequences, so the corrected append is modelled. As written, the ticks of an update can dispatch nodes early and read freed nodes.
- TimerLinks: the pointer-linked lists are modelled on values (a map from addresses to nodes and a map from buckets to head and tail), not as objects updated in place. Freeing is removal from the map, and undefined behaviour is the result None.
- TimerLinks.MoveFrom: the walk is bounded by the number of allocated nodes and yields None past it, so a cycle of stale links shows as None rather than as a loop that never ends.
- Mailbox.MessageQueue.Expand: models the intended allocation of `2·size` messages, not the allocation of `2·size` bytes in the code (see Findings).

## Findings

| source | as written | input that shows it | evidently intended | confidence | as-written member | corrected member |
|---|---|---|---|---|---|---|
| hive_mq.c:49 | `hive_malloc(sz)` allocates `2·size` bytes for `2·size` messages | any first expansion: 1024 messages of more than 2 bytes each, then the copy writes 1024 messages into a 2048-byte buffer | allocate `sizeof(struct hive_message) * sz` | high (not executed) | Mailbox.ExpandAsWrittenOverflows | Mailbox.MessageQueue.Expand |
| src/actor_gate/imap.c:134 | the overwrite writes `p->value`, the main slot, not the slot found | set(0,100), set(8,200), set(8,300) on a new table: key 0 reads 300 and key 8 still reads 200 | `np->value = value` | high (not executed) | ImapAsWritten.OverwriteHitsMainSlot | Imap.IntMap.Set |
| src/actor_gate/imap.c:150-155 | the displaced entry's key and value move to `np`, but its status stays IS_NONE | set(1,100), set(9,200), set(7,300) on a new table: key 9 is no longer found | also copy `status` (IS_EXIST) into `np` | high (not executed) | ImapAsWritten.DisplacedEntryLost | Imap.IntMap.Displace |
| src/actor_gate/imap.c:130 | a tombstoned main slot is reused without searching its chain for the key | set(1,100), set(9,200), remove(1), set(9,300), remove(9): key 9 then reads 200 | search the chain whenever the main slot is not IS_NONE | high (not executed) | ImapAsWritten.TombstoneDuplicatesKey | Imap.IntMap.Set |
| hive_actor.c:195-205 | the growth loop computes each new slot with the old size's mask, so every actor stays at its old index | five creates on a new registry: after the growth, handle 4 is no longer found | mask with `2·size - 1` | high (not executed) | ActorRegistryAsWritten.FifthCreateLosesHandleFour | ActorRegistry.ActorManager.Grow |
| hive_actor.c:273-289 | `_actor_new` never stores `handle`, `is_progress` or `is_release` | any create whose allocation holds a stale handle: the actor cannot be found under the returned handle | store the handle and clear both marks | high (not executed) | ActorRegistryAsWritten.UninitialisedHandleUnreachable | ActorRegistry.ActorManager.Install |
| src/hive_timer.c:203 | the cascade mask starts at NEAR_SHIFT (8) instead of NEAR (256), so a level-0 bucket is also cascaded every 8 ticks | the tick reaching 264 cascades `level_wheel[0][1]` | `mask = NEAR` | low (not executed): a harmless deviation, since the extra bucket is always empty on a placed wheel (TimerWheel.OwnIndexEmpty) | TimerWheel.ExtraCascadeAt264 | TimerWheel.ShiftAsIntended |
| src/hive_timer.c:112-120 | `_list_append` leaves the appended node's `next` as it was, and `_timer_move` (lines 181-192) re-adds nodes still pointing at their old successor | offsets 261 and 263 inserted at time 0: the tick at 255 moves them to `near_wheel[5]` and `near_wheel[7]` with node 261 still linked to node 263, the tick at 261 dispatches both (the assert at line 152 fails for node 263) and frees node 263, and exec at 263 reads the freed node | reset `node->next` to NULL in `_list_append` | high (not executed) | TimerLinks.StaleLinkFiresEarly | TimerRepr.CorrectedTickFiresDue |
