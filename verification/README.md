# Verified model of the market-data feed

A Dafny 4.11 model of the feed: an exchange simulator numbers ticks, encodes
them, and pushes them through per-client send queues; a client receives the
bytes, buffers them in a lock-free ring, finds the frames, counts the gaps, and
keeps the last state of every symbol in a seqlocked cache. Beside that path
stand a latency histogram, a reconnect protocol, a xoshiro256++ generator, a
single-producer single-consumer object queue and a slab pool.

Verify with `dafny verify dfyconfig.toml --resource-limit 2000000`.

## How it is built

Code that changes fields or buffers in place is a class or an array method, each
specified by a function on values; what the code is for is then proved about
those functions, over every input or every run. Code that threads share is a
second time a state machine whose steps are single atomic accesses (or single
copied bytes and fields), with invariants over every interleaving.

| File | What it holds |
|---|---|
| `Protocol.dfy` | machine integers, message constants, little-endian loads and stores, bitwise XOR on numbers |
| `Checksum.dfy` | the XOR checksum, what it accepts and which bursts it cannot miss |
| `Frames.dfy` | encoder and decoder, and that they are inverse |
| `Framing.dfy` | the tokeniser behind `process`: lossless, chunking independent, exact on encoded streams |
| `Parsing.dfy` | the parser state as a fold, every call sequence, every interleaving with the network thread |
| `Parser.dfy` | the `Parser` class over the ring |
| `Modular.dfy` | power-of-two masks, slots, positions that wrap at 2^64 |
| `RingBuffer.dfy`, `RingThreads.dfy` | `ByteRingBuffer` as a class, and shared by two threads |
| `Spsc.dfy` | `SPSCQueue` as a class, and shared by two threads |
| `Subscription.dfy` | the subscription message, both ends |
| `SendQueue.dfy`, `ClientManager.dfy` | one connection's spill queue over every run; the table of connections |
| `Sequencing.dfy` | numbering with fault injection against the client's gap counters |
| `Cache.dfy`, `Seqlock.dfy` | the symbol cache and its per-symbol replay; readers against the writer |
| `EndToEnd.dfy` | server queue, wire, ring, parser and cache composed, call by call |
| `Pipeline.dfy` | all threads composed, access by access, from the server's sends to a reader's snapshot |
| `Histogram.dfy`, `Recorders.dfy` | percentiles against sorting; concurrent recording |
| `Reconnect.dfy` | backoff policy and the two-thread reconnect protocol |
| `MemoryPool.dfy` | the slab pool |
| `Xoshiro.dfy` | seeding, step and jump of the generator |

## What the code does that its promises do not say

Each of these is proved, with the exact condition where there is one.

- `get_snapshot` can return a torn state: its `continue` jumps to the loop test, where `seq2` is
  uninitialised or left over. Exits with an even `seq1` are exact; the others are exactly the stale
  ones, and one such run returns a mix (`Seqlock.EvenExitIsPublished`, `Seqlock.OddExitIsStale`,
  `Seqlock.StaleExitReturnsMix`).
- `bucket_for` casts an unsigned 64-bit offset to `int` and adds to it. `Histogram.HarmlessIff` says for
  exactly which latencies the bucket is right, `Histogram.InArrayIff` for which the index is inside the
  array. Witnesses: the cast makes the index negative (`Histogram.HugeLatencyEscapes`), the addition
  behind an exact cast overflows (`Histogram.SumEscapes`; undefined in C++, wrapping here), the cast
  wraps into a wrong bucket (`Histogram.WrongBucket`).
- `send_subscription` casts the number of symbols to sixteen bits: the round trip holds if and only if
  no valid identifier lies beyond the cast count (`Subscription.SubscriptionRoundTrip`); 65536 copies of a
  symbol are heard as a subscription to everything (`Subscription.FullCountIsMisheard`).
- Messages with an old number are not discarded, whatever `docs/QUESTIONS.md` says. Over every stream,
  the callback sees what it would see with them discarded if and only if no message with something to
  dispatch is late (`Parsing.DuplicatesDiscardedIff`), and the gap counter tells how many numbers were
  passed over if and only if no message is late (`Parsing.GapSizeExactIff`; `Parsing.GapBalance` gives the
  difference). `Parsing.OldNumbersCount` is a stream on which both fail.
- A successful connect resets the attempt count, but a count in progress on the other thread can
  overwrite the reset: `Reconnect.ResetSticksIff`, `Reconnect.ResetMayBeLost`. A client can also give up
  just after it has connected: `Reconnect.StopsWhileConnectedIff`, `Reconnect.MayStopWhileConnected`.
- The 64 MB limit of `tick` is never exceeded with messages of at most 64 MB; a longer blocked
  message does exceed it (`SendQueue.TickRemovesNobody`, `SendQueue.OversizedWaitsForTick`).
- Five changed bytes can pass the checksum although four never do
  (`Checksum.BurstRejected`, `Checksum.FiveByteBurstMayPass`).
- The histogram's comments disagree with its tables: 70144 + 120 * 4096 is 561664, the code starts the
  last tier at 560384, so bucket 543 is 2816 ns wide; and there are 608 buckets, not 720. The model
  follows the code.
- `docs/DESIGN.md` has a full ring overwrite its oldest slot and a broadcast thread drain a queue, and
  `docs/QUESTIONS.md` has an unknown message type disconnect; in the code the ring drops the new bytes,
  the tick thread broadcasts directly, and an unknown type skips one byte. The model follows the code.

## Model

| member | source | states |
|---|---|---|
| `Checksum.ComputeChecksum` | include/protocol.h:92-108 | the word-by-word loop with its padded tail yields the XOR of all words of the data, for every length |
| `Checksum.SetChecksum` | include/protocol.h:110-113 | writes the checksum behind the body, leaves every other byte alone, and the result verifies |
| `Checksum.VerifyChecksum` | include/protocol.h:115-121 | answers exactly whether the last four bytes are the checksum of the rest |
| `Checksum.XorWordsSplit` | include/protocol.h:92-108 | the checksum of a concatenation at a word border is the XOR of the checksums |
| `Checksum.TailIsPadded` | include/protocol.h:100-106 | trailing bytes count as one more word filled up with zeros |
| `Checksum.VerifiedIffXorZero` | include/protocol.h:115-121 | on every positive multiple of four, verification holds if and only if all words XOR to zero |
| `Checksum.SealedIsVerified` | include/protocol.h:110-121 | a sealed body of any length verifies |
| `Checksum.VerifiedIsSealed` | include/protocol.h:110-121 | conversely whatever verifies is its own body sealed again |
| `Checksum.BurstRejected` | include/protocol.h:92-121 | no non-empty change confined to four consecutive bytes is accepted, wherever it lies, also across the border to the checksum |
| `Checksum.FiveByteBurstMayPass` | include/protocol.h:92-121 | five bytes are too many: a swap of the first bytes of two neighbouring words goes unnoticed |
| `Frames.Emit` | src/server/tick_generator.cpp:205-242 | filling the message struct and sealing it in place produces the encoding of the frame |
| `Frames.DecodeEncode` | src/server/tick_generator.cpp:205-242 | every emitted message verifies and is read back with all its fields |
| `Frames.EncodeDecode` | src/client/parser.cpp:69-139 | verified bytes of a known type and length are the encoding of what is read from them, so nothing else is accepted |
| `Frames.WireFormat` | include/protocol.h:38-78 | every field of every encoding stands at its offset and in its width, little-endian; the type bytes are 1, 2 or 3 and 0; the sizes are 32, 44 and 20 |
| `Framing.Lossless` | src/client/parser.cpp:43-86 | for any bytes, the pieces taken or skipped and the rest spell the input: no byte lost, repeated or reordered |
| `Framing.ScanMeans` | src/client/parser.cpp:54-83 | a type other than 1, 2, 3 is skipped; a known type waits for 32, 44 or 20 bytes, is taken if they are the encoding of some frame, and is skipped as corrupt if they are not |
| `Framing.DamagedAtHead` | src/client/parser.cpp:75-83 | a frame damaged within four consecutive bytes behind its type is recognised as corrupt, whatever follows |
| `Framing.ScanStable` | src/client/parser.cpp:46-86 | a decision at the head is never revised by bytes that come later |
| `Framing.Chunking` | src/client/parser.cpp:28-86 | stopping after any prefix and going on with its rest gives the same pieces and the same rest |
| `Framing.TakesExactlyEncodings` | src/client/parser.cpp:46-86 | a frame is taken if and only if the encoding of some frame stands at the head |
| `Framing.UnfinishedWaits` | src/client/parser.cpp:47-70 | a frame cut short anywhere is never skipped or accepted |
| `Framing.FramesFirst` | src/client/parser.cpp:43-86 | encoded frames in front of arbitrary bytes come back first, whole and in order |
| `Framing.FramesComeBack` | src/client/parser.cpp:43-86 | a stream of frames, the last one cut anywhere, yields exactly those frames and keeps the cut one, with no skipped byte |
| `Parsing.CountersMean` | src/client/parser.cpp:75-156 | the callback sees exactly the dispatchable frames in order; `msgs_parsed` counts them and the heartbeats |
| `Parsing.HeadApplied` | src/client/parser.cpp:54-83 | one pass counts a checksum error exactly when the head has a known type and all its length and is no frame's encoding; an unknown type changes nothing |
| `Parsing.ChecksumErrorsMean` | src/client/parser.cpp:54-83 | over any bytes `checksum_errors` is the number of positions at which the parser meets such a corrupt head |
| `Parsing.DamageIsCounted` | src/client/parser.cpp:75-83 | a frame damaged within four consecutive bytes is counted once, nothing else changes, and one byte is skipped |
| `Parsing.GapBalance` | src/client/parser.cpp:88-104 | over every stream and state, wraps included: the gap size reported is the numbers the expectation moved over, less the messages, plus what late messages moved it back |
| `Parsing.GapSizeExactIff` | src/client/parser.cpp:88-104 | `total_gap_size` never reports less than the numbers passed over without a message, and exactly that many if and only if no message is late when it arrives |
| `Parsing.DuplicatesDiscardedIff` | src/client/parser.cpp:88-156 | over every stream, the callback sees what the documented discarding of old numbers would show it if and only if no message with something to dispatch is late |
| `Parsing.OldNumbersCount` | src/client/parser.cpp:88-104 | the failing stream: an old number is dispatched, moves the expectation back, and makes the next message in order count as a gap of the exact size |
| `Parsing.ByteAccounting` | src/client/parser.cpp:43-86 | bytes in == skipped + 20 per heartbeat + 32 per trade + 44 per quote + rest, and the rest is below 44 |
| `Parsing.ScheduleIndependent` | src/client/parser.cpp:28-160 | any bytes, any split into feeds, `process` calls anywhere, any ring capacity: after a final `process` all counters, the expected number, the dispatches and the rest are those of one parse of the accepted bytes |
| `Parsing.ShortFeedsAreLossless` | src/client/parser.cpp:28-86 | feeds of at most capacity - 43 bytes, each followed by `process`, drop nothing and give the result of one parse of the whole stream |
| `Parsing.EveryInterleaving` | src/client/parser.cpp:43-160 | with the network thread publishing between any two steps, the parser has acted on a prefix of the pieces of the published bytes and consumed exactly their bytes; once nothing decidable is left, its state is that of one parse |
| `Parsing.HeadIsActedOn` | src/client/parser.cpp:46-157 | a published frame, or byte to skip, is acted on within two steps of the parser, whatever came before |
| `Parser.FeedParser.constructor` | src/client/parser.cpp:9-11 | a new parser has the initial state |
| `Parser.FeedParser.Feed` | src/client/parser.cpp:28-37 | appends what fits, reports how much, drops the rest, leaves the parser state alone |
| `Parser.FeedParser.Accept` | src/client/parser.cpp:88-156 | sequence accounting and dispatch of one frame step the state as the fold does |
| `Parser.FeedParser.ProcessOne` | src/client/parser.cpp:46-157 | one pass takes the head piece off the ring and applies it, or changes nothing when the head is undecided |
| `Parser.FeedParser.Process` | src/client/parser.cpp:43-160 | terminates with the fold over all pieces that were buffered, keeps exactly the undecided rest, returns the number of messages counted, and adds to `checksum_errors` the number of corrupt heads met |
| `Parser.FeedParser.ResetStats` | src/client/parser.cpp:13-22 | counters, expectation and ring are as at the start, dispatches made stay made |
| `Modular.PowerOfTwoTest` | include/common/ring_buffer.h:19-19 | the compile-time test accepts a positive capacity if and only if it is a power of two |
| `Modular.MaskIsMod` | include/common/ring_buffer.h:20-20 | masking a position is its remainder by the capacity |
| `Modular.SlotSurvivesWrap` | include/common/ring_buffer.h:43-43 | a power-of-two capacity divides 2^64, so a wrapped position uses the slot of the unwrapped one |
| `Modular.WrappedDistance` | include/common/ring_buffer.h:26-35 | the 64-bit difference of two wrapped positions is their true distance |
| `RingBuffer.SplicedSlots` | include/common/ring_buffer.h:43-50 | the one or two copies of `write` fill exactly the slots from the write position on and no other |
| `RingBuffer.ReadStretches` | include/common/ring_buffer.h:62-69 | the one or two copies of `peek` are the bytes at the slots from the read position on, in order |
| `RingBuffer.ByteRing.constructor` | include/common/ring_buffer.h:23-23 | a new ring is empty |
| `RingBuffer.ByteRing.Readable` | include/common/ring_buffer.h:32-35 | the number of bytes held, also after the positions wrapped |
| `RingBuffer.ByteRing.Writable` | include/common/ring_buffer.h:26-29 | the capacity less the bytes held |
| `RingBuffer.ByteRing.Write` | include/common/ring_buffer.h:38-53 | appends as much of the source as fits and reports it; bytes already held are untouched |
| `RingBuffer.ByteRing.Peek` | include/common/ring_buffer.h:57-71 | copies the front bytes in order, consumes nothing, leaves the rest of the destination alone |
| `RingBuffer.ByteRing.Consume` | include/common/ring_buffer.h:74-76 | drops exactly the first n bytes, across the wrap of the position |
| `RingBuffer.ByteRing.Read` | include/common/ring_buffer.h:79-83 | bytes read followed by bytes held are the bytes held before |
| `RingBuffer.ByteRing.Reset` | include/common/ring_buffer.h:85-88 | empties the ring |
| `RingThreads.RefinesStream` | include/common/ring_buffer.h:26-83 | in every interleaving of producer and consumer, at every step: bytes consumed followed by bytes held are the bytes accepted, and at most the capacity is held, positions wrapping at 2^64 |
| `RingThreads.CopiesNeverOverlap` | include/common/ring_buffer.h:38-71 | the byte being copied in and the byte being copied out never share a slot |
| `RingThreads.PeekedIsFront` | include/common/ring_buffer.h:57-71 | whatever a peek has copied so far is the front of the stream, despite concurrent writes |
| `RingThreads.WriteCompletes` | include/common/ring_buffer.h:38-53 | from every reachable state, a write that finds room gets its bytes accepted behind the others |
| `RingThreads.ReadCompletes` | include/common/ring_buffer.h:57-76 | from every reachable state, a peek at bytes that are there and a consume hand out exactly the next bytes |
| `Spsc.SPSCQueue.Push` | include/common/ring_buffer.h:111-118 | fails exactly at capacity - 1 items, otherwise appends the item |
| `Spsc.SPSCQueue.Pop` | include/common/ring_buffer.h:120-126 | fails exactly when empty, otherwise removes and returns the first item |
| `Spsc.SPSCQueue.Empty` | include/common/ring_buffer.h:128-131 | true exactly when nothing is held |
| `Spsc.FifoInEveryRun` | include/common/ring_buffer.h:111-126 | in every interleaving popped items followed by held items are the pushed items, at most capacity - 1 are held, and full and empty are seen exactly at those counts |
| `Spsc.SlotsNeverShared` | include/common/ring_buffer.h:111-126 | no slot is written while it may be read, even though each side acts on an old load of the other's index |
| `Spsc.PushCompletes` | include/common/ring_buffer.h:111-118 | from every reachable state with room, a push completes and its item is the last |
| `Spsc.PopCompletes` | include/common/ring_buffer.h:120-126 | from every reachable state with an item, a pop completes and takes the oldest |
| `Subscription.OnRecv` | src/server/client_manager.cpp:155-191 | the parse loop collects exactly the in-range identifiers in order |
| `Subscription.InRangeMeans` | src/server/client_manager.cpp:179-184 | the list kept is the ids below 500, in order |
| `Subscription.ChunksDoNotMatter` | src/server/client_manager.cpp:155-191 | for arbitrary bytes, phase, symbols and `subscribe_all` depend only on the concatenation of what was received |
| `Subscription.NoSubscription` | src/server/client_manager.cpp:165-172 | three or more bytes that do not start with 0xFF, in any chunks, end LIVE with everything subscribed and no list |
| `Subscription.IncompleteWaits` | src/server/client_manager.cpp:165-177 | fewer than three bytes, or a subscription cut short, in any chunks, leave the client waiting |
| `Subscription.SendSubscription` | src/client/socket.cpp:155-175 | whatever `send` returns, a prefix of the message is on the wire; success means all of it, and it succeeds when every send makes progress |
| `Subscription.SubscriptionOutcome` | src/client/socket.cpp:155-175 | over every chunking the server ends LIVE with the ids below 500 among the first count mod 65536, in order, and `subscribe_all` iff that count is zero |
| `Subscription.SubscriptionRoundTrip` | src/client/socket.cpp:155-175 | the server hears exactly what was asked if and only if no valid id lies beyond the sixteen-bit count, in particular for every list shorter than 65536 |
| `Subscription.FullCountIsMisheard` | src/client/socket.cpp:162-163 | over every chunking, 65536 copies of symbol 0 are heard as a subscription to everything |
| `SendQueue.SendToKeeps` | src/server/client_manager.cpp:83-124 | every outcome of a send (full, partial, blocked, queued) keeps the queue invariant |
| `SendQueue.StaysIff` | src/server/client_manager.cpp:83-124 | a backlogged client stays if and only if backlog and message are at most 64 MB together, an idle one if and only if the send does not fail |
| `SendQueue.SendToMeans` | src/server/client_manager.cpp:83-124 | behind a backlog the message waits whole; otherwise what the kernel took is on the wire and the rest waits; each counter counts what it should |
| `SendQueue.FlushKeeps` | src/server/client_manager.cpp:60-81 | flushing keeps bytes, counts and order, changes nothing else, and reports done exactly when nothing is left |
| `SendQueue.FlushSends` | src/server/client_manager.cpp:60-81 | exactly what the replies took moves from queue to wire: the messages taken whole, then part of the next; done if and only if that was everything; the counters count it |
| `SendQueue.FlushCompletes` | src/server/client_manager.cpp:60-81 | if the kernel takes every message whole, the queue is empty and all of it on the wire |
| `SendQueue.QueueInvariant` | src/server/client_manager.cpp:46-149 | over every run of a surviving client: wire followed by pending is the concatenation of the accepted messages, `pending_bytes` is the pending length, `msgs_sent` plus pending messages is the number accepted, EPOLLOUT is armed iff something is pending |
| `SendQueue.StaysInRun` | src/server/client_manager.cpp:83-149 | over every run, a client whose sends never fail stays as long as its backlog and all that is sent to it are at most 64 MB together |
| `SendQueue.RemovedIff` | src/server/client_manager.cpp:83-124 | a step removes a client exactly on a failed send, on a message its backlog makes too much, or by `tick` with too much pending |
| `SendQueue.BacklogAfterSend` | src/server/client_manager.cpp:83-124 | a send leaves more than 64 MB pending exactly when an empty queue meets a message whose unsent part is longer than that |
| `SendQueue.TickRemovesNobody` | src/server/client_manager.cpp:197-212 | with messages of at most 64 MB the backlog never passes 64 MB in any run, so `tick` removes nobody |
| `SendQueue.OversizedWaitsForTick` | src/server/client_manager.cpp:110-115 | a longer message that is blocked survives the send and is removed by `tick` |
| `ClientManager.Manager.AddClient` | src/server/client_manager.cpp:18-28 | a known descriptor keeps its state, others get a fresh client |
| `ClientManager.Manager.RemoveClient` | src/server/client_manager.cpp:30-40 | removes that client and no other |
| `ClientManager.Manager.FlushQueue` | src/server/client_manager.cpp:60-81 | the loop over the deque moves exactly what the replies took from queue to wire, counts it, and returns true exactly when that was everything |
| `ClientManager.Manager.SendTo` | src/server/client_manager.cpp:83-124 | steps that client as specified or removes it; true exactly when it is known and stays: backlog and message at most 64 MB, or without a backlog no failed send; keeps every client's invariant |
| `ClientManager.Manager.Broadcast` | src/server/client_manager.cpp:126-138 | every live client is sent the message once, the others are skipped, a failing client goes away without affecting the rest |
| `ClientManager.Manager.FlushPending` | src/server/client_manager.cpp:140-149 | flushes that client and disarms EPOLLOUT exactly when all is out |
| `ClientManager.Manager.OnRecv` | src/server/client_manager.cpp:155-191 | changes only the subscription of that client |
| `ClientManager.Manager.Tick` | src/server/client_manager.cpp:197-212 | removes exactly the clients over the limit and changes no other |
| `Sequencing.TickBatch` | src/server/exchange_simulator.cpp:212-222 | the inner loop emits the specified numbers for any fault flags: each the number due, or two more exactly where the flag is read while a number ending in 99 is due |
| `Sequencing.TickLoop` | src/server/exchange_simulator.cpp:197-229 | the same for the whole loop, batches and heartbeats |
| `Sequencing.SkipsAt99` | src/server/exchange_simulator.cpp:213-219 | over every run, at every index: a skip exactly before ticks that read the fault flag while a number ending in 99 is due, by two |
| `Sequencing.BatchesInOrder` | src/server/exchange_simulator.cpp:212-229 | every batch is its ticks with their flags and then its heartbeat, behind the batches before it |
| `Sequencing.Consecutive` | src/server/exchange_simulator.cpp:212-229 | without faults the i-th number is i modulo 2^32 and nothing is skipped, heartbeats included |
| `Sequencing.SkipDoesNotWrap` | src/server/exchange_simulator.cpp:214-216 | a skip never straddles the 32-bit wrap |
| `Sequencing.GapsAreFaults` | src/server/exchange_simulator.cpp:197-229 | whatever message a client starts with, its `sequence_gaps` are the faults injected after it and `total_gap_size` is twice that, across wrap-around |
| `Sequencing.GapsSoFar` | src/client/parser.cpp:88-104 | the same after any number of messages received |
| `Sequencing.FramesTrackLikeNumbers` | src/client/parser.cpp:88-104 | gap accounting depends only on the sequence numbers of the frames, not on type, symbol or payload |
| `Cache.SymbolCache.UpdateQuote` | src/common/cache.cpp:46-65 | the field-by-field stores leave the replay of one more update for that symbol and its counter two higher modulo 2^32, every other symbol unchanged; a symbol out of range changes nothing |
| `Cache.SymbolCache.UpdateTrade` | src/common/cache.cpp:67-83 | likewise for a trade |
| `Cache.SymbolCache.GetSnapshot` | src/common/cache.cpp:89-111 | with no writer at work the retry loop ends whatever `seq2` holds at first, and returns the replay of all updates of the symbol since construction, the blank state out of range |
| `Cache.SymbolCache.OnMessage` | src/client/feed_handler.cpp:35-48 | the callback logs one update on the message's symbol and none on any other, and its state then shows the message: bid as bid, ask as ask, or price and quantity, and the time |
| `Cache.SymbolCache.OnMessages` | src/client/feed_handler.cpp:35-48 | any list of messages adds to each symbol's updates its own messages alone, in order |
| `Cache.LastQuoteShows` | src/client/feed_handler.cpp:35-45 | over any messages, bid and ask of a symbol are those of the last quote message for it |
| `Cache.LastTradeShows` | src/client/feed_handler.cpp:35-45 | over any messages, last price and quantity of a symbol are those of the last trade message for it |
| `Cache.LastTimeShows` | src/client/feed_handler.cpp:35-45 | over any messages, the time of a symbol is that of the last message for it |
| `Cache.FirstOfferShows` | src/common/cache.cpp:61-81 | over any messages, the opening price of a symbol is the first non-zero mid of a quote or price of a trade for it |
| `Cache.ReplayMeans` | src/common/cache.cpp:46-83 | a replay holds the last quote, the last trade, the number of updates, the last time, and the first non-zero reference price as opening price |
| `Cache.OpenPriceIsFixed` | src/common/cache.cpp:61-63 | once non-zero the opening price never changes |
| `Cache.DispatchedAreUpdates` | src/client/parser.cpp:106-118 | heartbeats and invalid symbols never reach the callback |
| `Seqlock.EvenExitIsPublished` | src/common/cache.cpp:32-111 | in every interleaving of one writer and any readers, an exit with even `seq1` loaded `seq2` in the same iteration and, with fewer than 2^31 writes meanwhile, returns exactly the replay of a prefix of the updates, never a mix |
| `Seqlock.OddExitIsStale` | src/common/cache.cpp:95-108 | the remaining exits are exactly those through `continue` with a `seq2` from before |
| `Seqlock.ReaderCompletes` | src/common/cache.cpp:89-111 | from every reachable state with the writer idle, a reader left alone returns after one pass with the replay of all updates |
| `Seqlock.WriterCompletes` | src/common/cache.cpp:46-83 | from every reachable state with the writer idle, an update left alone completes, is published, and moves the counter by two |
| `Seqlock.StaleExitReturnsMix` | src/common/cache.cpp:95-108 | for every first quote with a non-zero bid there is a run that returns a state neither before nor after the update |
| `EndToEnd.CutAnywhere` | src/client/parser.cpp:43-86 | any prefix of an encoded stream is the frames wholly inside it followed by a proper prefix of the next |
| `EndToEnd.Delivery` | src/client/feed_handler.cpp:203-303 | without ring overflow, for every list of frames, every schedule of sends and flushes and every chunking: the parser has accepted exactly the frames wholly within the received bytes, a prefix of those the server accepted, in order |
| `EndToEnd.EverythingArrives` | src/server/client_manager.cpp:140-149 | when the queue is flushed and the wire read out, every accepted frame has been parsed and nothing is left |
| `EndToEnd.CanCatchUp` | src/server/client_manager.cpp:140-149 | from every reachable state of an open connection with nothing dropped: if the kernel takes what is pending and the client reads and parses, every accepted frame is parsed, in order, and nothing is left |
| `EndToEnd.DeliveryIsClean` | src/client/parser.cpp:57-83 | no byte skipped, no checksum error, the callback saw the dispatchable frames in order |
| `EndToEnd.GapsEndToEnd` | src/server/exchange_simulator.cpp:197-229 | the client's gap counters equal the faults injected after its first message among what it has received |
| `EndToEnd.ParseAndCache` | src/client/feed_handler.cpp:287-303 | for any bytes, any chunks and after every chunk: feeding, processing and handing over what was dispatched leave each symbol with exactly the messages for it in one parse of everything accepted |
| `Pipeline.SnapshotsAreOfSentFrames` | src/client/feed_handler.cpp:203-303 | in every interleaving of server, network thread, parse thread and readers at access granularity, without ring overflow: a snapshot with even `seq1` (fewer than 2^31 writes meanwhile) is the replay of the symbol's own messages among the first so many frames sent |
| `Pipeline.ActsOnSentFrames` | src/client/parser.cpp:43-157 | in every interleaving of that machine, without ring overflow, the parser has at every moment acted on exactly the first so many frames sent, in order and with nothing between them, and its state is the fold over them |
| `Pipeline.GetsOn` | src/client/parser.cpp:43-157 | in every run, at the head of the parse loop with something decidable published, the parse thread acts on it within a hundred of its own accesses |
| `Histogram.FindBucket` | src/common/latency_tracker.cpp:29-39 | the loop over the tiers finds the bucket, with the cast and the addition as `int` has them |
| `Histogram.FindStart` | src/common/latency_tracker.cpp:41-49 | the loop over the tiers finds the lower end of the bucket |
| `Histogram.HarmlessIff` | src/common/latency_tracker.cpp:29-39 | the bucket is the right one if and only if the latency is below about 19.5 hours, or its wrapped offset lands in or past the last bucket without the sum overflowing |
| `Histogram.InArrayIff` | src/common/latency_tracker.cpp:29-53 | the index `record` uses is inside the array if and only if the wrapped offset lies in the stated range |
| `Histogram.HugeLatencyEscapes` | src/common/latency_tracker.cpp:32-34 | a latency for which the cast makes the index negative |
| `Histogram.SumEscapes` | src/common/latency_tracker.cpp:32-33 | a latency whose offset survives the cast and overflows the addition |
| `Histogram.WrongBucket` | src/common/latency_tracker.cpp:32-34 | a latency of more than a day that is filed under zero |
| `Histogram.BucketIsInterval` | src/common/latency_tracker.cpp:24-49 | a latency is in bucket i if and only if it lies from i's lower end to below the next one: the layout is contiguous |
| `Histogram.BucketRoundTrip` | src/common/latency_tracker.cpp:29-49 | the lower end of a bucket belongs to that bucket |
| `Histogram.BucketMonotone` | src/common/latency_tracker.cpp:29-39 | longer latencies never get smaller buckets, and the index is in range |
| `Histogram.ErrorBound` | src/common/latency_tracker.cpp:29-49 | the reported value never overstates and, below 2657536 ns, understates by at most an eighth |
| `Histogram.RankInBuckets` | src/common/latency_tracker.cpp:88-99 | in sorted order, the sample of rank r is in the first buckets if and only if more than r samples are |
| `Histogram.RankIsCeiling` | src/common/latency_tracker.cpp:92-94 | a running count meets a target p exactly from the ceil(p n)-th sample on |
| `Histogram.PercentilesOrdered` | src/common/latency_tracker.cpp:85-101 | on any counts that sum to at least the sample count, the four percentiles reported are in order |
| `Histogram.EnoughCounts` | src/common/latency_tracker.cpp:88-101 | counts that sum to at least the sample count meet every target within the scan, so nothing is filled in with the maximum |
| `Histogram.PercentileIsReading` | src/common/latency_tracker.cpp:79-99 | on the counts of harmless samples, the percentile reported is the bucket of the ceil(p n)-th smallest sample |
| `Histogram.AddReached` | src/common/latency_tracker.cpp:92-98 | the inner loop gives every target the running count has met the first bucket at which the counts cross it |
| `Histogram.Scan` | src/common/latency_tracker.cpp:88-101 | on whatever counts were read, the single scan reports for each of the four targets the first bucket at which the counts cross it, and the maximum where they never do |
| `Histogram.LatencyTracker.Record` | src/common/latency_tracker.cpp:51-67 | adds the sample to its bucket, sum, count and extremes, for every latency whose index is inside the array |
| `Histogram.LatencyTracker.GetStats` | src/common/latency_tracker.cpp:69-104 | count, extremes and mean of the recorded samples and percentiles in order; when the cast harmed no sample each percentile is the reading of its rank in any sorted arrangement, and none exceeds the maximum |
| `Histogram.MeanRoundsDown` | src/common/latency_tracker.cpp:76-77 | the mean is the sum divided by the count, rounded down |
| `Histogram.MeanWithin` | src/common/latency_tracker.cpp:54-77 | the mean lies between the smallest and the largest sample |
| `Histogram.SharesMean` | src/common/latency_tracker.cpp:85-99 | for harmless samples, fewer than 50, 95, 99 or 99.9 percent lie below the percentile reported, and at least that share below the end of its bucket |
| `Histogram.LatencyTracker.Reset` | src/common/latency_tracker.cpp:106-112 | the tracker is as if nothing had been recorded |
| `Recorders.EveryTargetIsMet` | src/common/latency_tracker.cpp:69-101 | with any recorders running, the bucket counts read sum to at least the sample count read first; so each percentile the scan reports is the bucket where the counts cross its target, whatever maximum was read, and they are in order |
| `Recorders.QuiescentIsExact` | src/common/latency_tracker.cpp:51-67 | once all recorders finish, however interleaved and however often a compare-exchange failed spuriously, each bucket holds the samples that `bucket_for` sends there, count and sum are those of the samples, and minimum and maximum the true extremes |
| `Recorders.RecorderFinishes` | src/common/latency_tracker.cpp:51-67 | whatever the others have done, a recorder left alone without spurious failures finishes within seven steps |
| `Recorders.ReaderLoads` | src/common/latency_tracker.cpp:79-83 | a reader left alone loads the remaining buckets as they stand |
| `Reconnect.ReconnectPolicy.NextDelayMs` | src/client/socket.cpp:36-42 | the delay of the attempt with jitter, never above 30099 ms, and the attempt is counted |
| `Reconnect.DelayDoubles` | src/client/socket.cpp:36-38 | the backoff starts at 100 ms, doubles, and stays at 25600 ms from the ninth attempt on; the 30000 ms limit never binds |
| `Reconnect.FullBudget` | src/client/socket.cpp:36-42 | twenty attempts sleep at most 334680 ms |
| `Reconnect.ProtocolInvariant` | src/client/feed_handler.cpp:135-341 | in every interleaving: `do_connect` starts only when disconnected, connected and pending are never both true, at the network loop's head running and disconnected implies pending, attempts stop at twenty, backoff since the policy was reset by a connect is at most 334680 ms |
| `Reconnect.ResetSticksIff` | src/client/feed_handler.cpp:163-164 | in every interleaving while the connection stays up, the attempt count is zero unless the other thread was in the middle of counting an attempt at the reset and has since come to its store |
| `Reconnect.ResetMayBeLost` | src/client/feed_handler.cpp:309-341 | a run from the start that ends connected with two attempts on the count |
| `Reconnect.StopsWhileConnectedIff` | src/client/feed_handler.cpp:309-325 | in every interleaving while the connection stays up and the user does not stop it, the client stops if and only if the other thread had decided to give up by the reset and has since taken a step |
| `Reconnect.MayStopWhileConnected` | src/client/feed_handler.cpp:309-325 | a run from the start that ends connected and stopped |
| `Reconnect.StopIsFinal` | src/client/feed_handler.cpp:309-325 | once stopped, by the user or by giving up, no step starts it again |
| `Reconnect.UserStopStops` | src/client/feed_handler.cpp:84-95 | wherever the stop falls in a run, nothing is running afterwards |
| `Reconnect.ReconnectThreadEnds` | src/client/feed_handler.cpp:309-341 | after a stop the reconnect thread ends within five of its own steps, whatever the other thread does |
| `Reconnect.NetworkThreadEnds` | src/client/feed_handler.cpp:209-209 | stopped, the network thread leaves its loop at its next look at `running_`, for good |
| `MemoryPool.Pool.constructor` | include/common/memory_pool.h:27-32 | the free list is acyclic and holds all nodes |
| `MemoryPool.Pool.Alloc` | include/common/memory_pool.h:37-43 | null if and only if all N are out, otherwise a node nobody holds; no other node changes hands |
| `MemoryPool.Pool.Free` | include/common/memory_pool.h:45-54 | the node is free again, the list stays acyclic, null is ignored |
| `MemoryPool.Exercise` | include/common/memory_pool.h:37-54 | over every sequence of allocations and of frees of held pointers, the pointers held are distinct and exactly the nodes off the list, and `in_use_` counts them |
| `Xoshiro.SplitMix` | src/server/tick_generator.cpp:13-19 | the sequence of assignments computes the mixing of the next counter value |
| `Xoshiro.ReferenceSeed` | src/server/tick_generator.cpp:11-24 | the state seeded with 1234567 is the first four numbers of the published SplitMix64 |
| `Xoshiro.UnscrambleUndoes` | src/server/tick_generator.cpp:13-19 | SplitMix64's mixing is reversible, so it is injective |
| `Xoshiro.SeedWordsDiffer` | src/server/tick_generator.cpp:11-24 | for every seed the four words are pairwise different |
| `Xoshiro.SeededNeverAllZero` | src/server/tick_generator.cpp:11-36 | no seed and no number of draws leads to the all-zero state |
| `Xoshiro.SeedsStayApart` | src/server/tick_generator.cpp:11-36 | different seeds are in different states after the same number of draws |
| `Xoshiro.BackUndoesNext` | src/server/tick_generator.cpp:26-36 | the step is reversible |
| `Xoshiro.NeverAllZero` | src/server/tick_generator.cpp:26-36 | the all-zero state is reached from itself only |
| `Xoshiro.NextIsLinear` | src/server/tick_generator.cpp:26-36 | the step distributes over XOR of states |
| `Xoshiro.ReferenceDraws` | src/server/tick_generator.cpp:26-36 | the first six numbers from the state 1, 2, 3, 4 are those of the published xoshiro256++ |
| `Xoshiro.OutputIsReversible` | src/server/tick_generator.cpp:27-27 | the first word and the number drawn determine the fourth word |
| `Xoshiro.JumpCommutesWithNexts` | src/server/tick_generator.cpp:43-59 | jumping before or after any number of draws gives the same state |
| `Xoshiro.SelectSnoc` | src/server/tick_generator.cpp:48-57 | one more tap adds the state reached after the taps before it, not the one after |
| `Xoshiro.ReferenceTaps` | src/server/tick_generator.cpp:44-52 | tap values at both ends of each jump word |
| `Xoshiro.Xoshiro256pp.constructor` | src/server/tick_generator.cpp:11-24 | four consecutive SplitMix64 outputs are the state |
| `Xoshiro.Xoshiro256pp.Draw` | src/server/tick_generator.cpp:26-36 | the in-place assignments perform one step and return the output of the old state |
| `Xoshiro.Xoshiro256pp.Jump` | src/server/tick_generator.cpp:43-59 | the nested loops leave the XOR of the states at the 256 tapped steps |

## Left out

- Prices: the random walk, Box-Muller, spreads and volumes are floating point; on the wire a price is
  eight opaque bytes, in the cache a real number, and the mid price is exact. `uniform01` is not modelled.
- The symbol `tick_loop` picks, its rate limiting and its clock: a run is any list of fault flags and heartbeats.
- Sockets, epoll, eventfds, clocks and randomness are parameters or nondeterministic steps; the sleeps of
  the reconnect loop appear as the milliseconds they ask for.
- The C++ memory model: shared accesses are single sequentially consistent steps, and calls of
  `ClientManager` are atomic although two threads make them without a lock.
- Erasing from the client table while `broadcast` iterates it: the iteration is over any order of the
  descriptors present at its start.
- Counters (`msgs_parsed`, `bytes_sent`, `update_count`, histogram buckets and sums) are unbounded; their
  wrap at 2^64, and `attempt_`'s at 2^31, are not modelled. Positions, sequence numbers and the seqlock
  counter do wrap.
- The byte order of `memcpy` into integers is little-endian, as the wire format says; the checksum works
  lane by lane and does not depend on it.
- `recv_time_ns`, the latency the parser records, the printed warnings, `last_send`, `peer_addr`,
  `total_msgs_sent_`, `total_msgs_dropped_`, `get_update_count` and `export_csv`.
- Streams that span a reconnect: parser and ring are not cleared on disconnect, so the framing theorems
  are about one connection.
- `reset` and `reset_stats` while other threads run.
- Symbol filtering: `broadcast` never consults the subscription, so there is nothing to state.
- That `jump` equals 2^128 steps, and that the parser always finds the next frame after corruption: the
  first needs polynomial arithmetic over GF(2), the second is not true of an XOR checksum.
- The visualizer, the main programs, the benchmarks and the scripts.
- `MemoryPool`'s in-place construction and destruction of objects; a pointer is the index of its node.
- Seqlock.EvenExitIsPublished: assumes fewer than 2^31 writes between the two loads of the counter, which
  is 32 bits wide in the source.
- Histogram.LatencyTracker.Record: latencies whose index lies outside the array, where the source writes
  out of bounds; the theorems of `Recorders.dfy` leave them out too.
- Histogram.RankIsCeiling: percentile targets are the exact fractions 50/100, 95/100, 99/100 and 999/1000,
  not their nearest doubles.
- Reconnect.ProtocolInvariant: backoff is counted from the moment the policy is reset, so a sleep that
  began before a connect and is still running is not in it; `next_delay_ms` is one load and one store of
  the unsynchronised `attempt_`.
- Cache.SymbolCache.GetSnapshot: without a concurrent writer; the loop with writers is the state machine
  of `Seqlock.dfy`.
- EndToEnd.ParseAndCache: hands the dispatched messages over after each `process`, not one by one within
  it; message by message they are handed over in `Pipeline.dfy`.
- Pipeline.SnapshotsAreOfSentFrames: one symbol's entry at a time; latency recording, reconnects and
  subscription are not part of that machine.
