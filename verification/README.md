# Verified model of the ix library's hard parts

A Dafny model of five components of the ix library, with proofs about every input, every run and every
schedule. The components share no code; each keeps the form its source has: objects with fields and loops are
classes with methods and invariants, tied to value-level functions about which the laws are proved; the two
concurrent queues are machines of atomic steps, with the objects' critical sections as methods beside them.

| files | component |
|---|---|
| `Rects`, `QuadSpec`, `QuadLemmas`, `QuadOrder`, `QuadCoverage`, `QuadCheck`, `QuadTree` | the game's quadtree and its collision check |
| `Bytes`, `Framing`, `ServerSend`, `Reassembly`, `ChatDelivery`, `ClientReceive` | epoll chat, server to client: fragments, de-framing, reassembly |
| `RequestSpec`, `RequestServer` | epoll chat, client to server: request printing and the three-state parser |
| `PoolMachine`, `PoolTheorems`, `PoolCalls`, `ThreadPool` | the thread pool |
| `RingMachine`, `RingTheorems`, `RingCalls`, `RingBuffer` | the bounded blocking queue |
| `MemoryPoolSpec`, `MemoryPoolHistory`, `MemoryPool` | the doubling object pool (`MemoryPool_shared`) |
| `AsioSpec`, `AsioSession` | the Asio session framing (on `Bytes` and `Framing`) |
| `Basics`, `Counting`, `Ordered` | shared definitions: options, counting threads, ascending keys |

`dafny verify dfyconfig.toml` checks everything.

## How it is modelled

* **Quadtree.** `Quadtree` is a heap class with a representation set; `Valid()` ties it to a tree value. pygame's
  `colliderect` is modelled on integer rects of any sign: a negative size extends the rect the other way, a zero size
  never collides. A pixel is *covered* when it lies in the boundary and in a chain of quadrants down to `max_level`;
  completeness of `query` and `check` reaches exactly the covered pixels. `on_collision` is a log; the tree keeps the
  rects that objects were inserted with, and `check` compares where they are now. `insert`'s own loop is `InsertEach`,
  a node's scan is `Scan`.
* **Chat, server to client.** The network is a byte stream cut into chunks at will. The wire struct is copied by
  `memcpy`, hence host order (little-endian); all its fields, the message id, the fragment number and the announced
  count wrap at 32 bits as in the source. A call of `handle_data` is a tagged `Delivery`. The code never erases a
  completed store, so a fragment repeated after completion delivers again: `ArrivalLaw` counts exactly how often.
* **Chat, client to server.** JSON is an uninterpreted function from header bytes to an optional `size` and an
  optional `UsedTo`; an absent one stands for the exception the JSON library throws, which leaves the event handler
  before the descriptor is re-armed (`thrown`). A handled request is one that reaches the dispatching switch. The
  branch for an empty length prefix is unreachable and carries `assert false`.
* **Thread pool and bounded queue.** One step is one visible action of one thread: read the flag, take the lock,
  evaluate a wait's predicate, release and sleep, wake (notified or not), push or pop and unlock, notify. Any number of
  threads, any schedule. `stop` of the queue sets its flag without the mutex and notifies one waiter a side:
  its effect on `read` is promised, its wake-up is not, and `StopIsMissedExactlyThen` says when it fails.
  `clear` is called only by a queue's sole producer, as the player does
  (`projects/龙卷风播放器/src/ffmpeg/DecoderWorker.cpp:603-605`). Where a step under the lock reads the queue, `Enabled`
  repeats what the invariant guarantees; `SomeoneCanGoOn` and `LockIsGivenUp` show that this blocks nobody.
* **Object pool.** Slots are heap objects; fresh memory is fresh. A get has three outcomes: it succeeds, the object's
  constructor throws, or the `shared_ptr` does, which calls the deleter before the handler runs. The peak P counts a
  slot under construction, so the space bound holds for all three.
* **Asio.** Sizes, counts and ids wrap at 32 bits, map keys are converted to `int`. `Process` follows the code in
  putting each fragment into a copy of the segment's map, which is why only one-frame messages are ever posted. The
  length check of `trimAndGetHeader` adds in 32 bits; where the sum wraps and the body is missing, what the program does
  is undefined, and the model stops with the answer false (`Wrapped` says exactly when).

## Findings

* `pycharm/无敌割草/utils/QuadTree.py:30` halves by floor: `query` equals a full scan if and only if both sizes of the
  boundary are divisible by 2^(max_level - level) (`CompleteExactlyWhenHalving`); the game's 1920 by 1080 is not, and
  objects can be lost there, on the rows of `GameScreenCovered`.
* `socket/Socket/Server_Socket.cpp:99` counts fragments of 1024 bytes and line 107 cuts them at 1004: a chat message
  arrives whole if and only if 20*(L/1024) + L%1024 <= 1004, in order (`WholeExactlyWhenItFits`) or in any order
  (`ShuffledExactlyWhenItFits`). 1005 bytes already are too many (`LastByteLost`).
* `socket/Socket/Server_Socket.cpp:310-343`: the server handles exactly the requests sent if and only if each has a
  header that fits 32 bits and tells the body's true size and the kind of request, and a body unless it is a login
  (`ServedExactly`). An empty chat body closes the connection, an empty header stalls it, and a header without `size`
  or `UsedTo` ends its events (`BadRequestEnds`).
* `RingBuffer::stop` (`projects/龙卷风播放器/src/utils/RingBuffer/RingBuffer.h:58-63`) can leave readers asleep: exactly
  when its flag comes between a reader's test and its sleep, or when more than one sleeps (`StopIsMissedExactlyThen`).
  The wait of `write` (lines 43-46) does not look at the flag, so stop never frees a writer of a full queue
  (`BlockedWritersStay`), and its `return false` is never reached (`WriteNeverFails`).
* `projects/龙卷风播放器/src/utils/MemoryPool/MemoryPool.h:117-135` queues a slot twice when the `shared_ptr` throws, and
  only then; the slot is later handed out to two owners (`PartedExactlyUntilThen`, `DuplicateIsHandedOutTwice`).
* `projects/Server/src/Session/Session.cpp:130` collects fragments in a copy, so an Asio message of 4096 bytes or more
  is never posted (`PostedWholeExactlyWhenShort`).

## Model

| member | source | states |
|---|---|---|
| Rects.CollideIsSharingAPixel | pycharm/无敌割草/utils/QuadTree.py:39 | two rects collide exactly when some unit pixel lies in both, negative and zero sizes included |
| QuadLemmas.InsertSound | pycharm/无敌割草/utils/QuadTree.py:37-56 | every insert keeps the structural invariant: stored rects overlap their node, divided nodes are full and above max_level, only deepest nodes exceed capacity, kids are the quadrants |
| QuadLemmas.InsertEntries | pycharm/无敌割草/utils/QuadTree.py:37-56 | inserting a new object adds exactly its entry, and answers true exactly when it did; nothing else changes |
| QuadLemmas.InsertHolds | pycharm/无敌割草/utils/QuadTree.py:37-56 | after an insert the object is stored, under every covered pixel of its rect, in a node containing that pixel |
| QuadLemmas.InsertKeepsHeld | pycharm/无敌割草/utils/QuadTree.py:37-56 | later inserts never take an entry away from a pixel |
| QuadLemmas.CollectMeaning | pycharm/无敌割草/utils/QuadTree.py:66-69 | scanning one node appends exactly its colliding objects that were not found yet, without duplicates |
| QuadLemmas.QueryMeaning | pycharm/无敌割草/utils/QuadTree.py:58-77 | query extends the shared list by exactly the objects of reachable colliding entries, each once |
| QuadOrder.CollectOrder | pycharm/无敌割草/utils/QuadTree.py:66-69 | a node lists the objects it adds in the order in which it keeps them |
| QuadOrder.QueryOrder | pycharm/无敌割草/utils/QuadTree.py:58-77 | the order of the list: by the first place at which the query reaches each object, a node before what is below it, nw before ne before sw before se |
| QuadOrder.FilledInOrder | pycharm/无敌割草/utils/QuadTree.py:42-48 | every node keeps its objects in the order in which they were inserted |
| QuadLemmas.VisibleIsStored | pycharm/无敌割草/utils/QuadTree.py:58-77 | what a query can reach is stored and collides with the range |
| QuadLemmas.HeldIsVisible | pycharm/无敌割草/utils/QuadTree.py:61-76 | pruning on node boundaries never hides an entry held at a pixel of the range |
| QuadLemmas.FilledInvariant | pycharm/无敌割草/utils/QuadTree.py:13-56 | every tree built by inserting distinct objects is structurally sound, stores only what was inserted, and holds each object at all covered pixels of its rect |
| QuadLemmas.QueryAgainstScan | pycharm/无敌割草/utils/QuadTree.py:28-77 | query against a full scan: no duplicates, only inserted objects whose rect collides with the range, and all that share a covered pixel with it |
| QuadLemmas.BoundaryQueryEnumerates | pycharm/无敌割草/utils/QuadTree.py:79-82 | query(self.boundary) lists every stored object exactly once |
| QuadLemmas.StoredOverlapsBoundary | pycharm/无敌割草/utils/QuadTree.py:28-48 | a stored rect overlaps the boundary of every node above it |
| QuadCoverage.FullCoverage | pycharm/无敌割草/utils/QuadTree.py:28-35 | every pixel of a non-empty boundary is covered if and only if width and height are divisible by 2^(levels below) |
| QuadCoverage.QuadrantsTile | pycharm/无敌割草/utils/QuadTree.py:29-34 | the quadrants of a rect cover exactly its pixels but for the last column of an odd width and the last row of an odd height |
| QuadCoverage.QuadrantAt | pycharm/无敌割草/utils/QuadTree.py:29-34 | a pixel of a quadrant is in the east ones from half the width, rounded down, on, and in the south ones from half the height on |
| QuadCoverage.CoveredByHalving | pycharm/无敌割草/utils/QuadTree.py:28-35 | the covered pixels in closed form, side by side and level by level, from the distance to the corner alone |
| QuadCoverage.UncoveredRoom | pycharm/无敌割草/utils/QuadTree.py:42-48 | under an uncovered pixel there is room for capacity objects per level above the deepest, no more |
| QuadCoverage.UncoveredPixelLosesAnObject | pycharm/无敌割草/utils/QuadTree.py:28-56 | pile more objects than that on an uncovered pixel and one of them is found by no query at all |
| QuadCoverage.CompleteExactlyWhenHalving | pycharm/无敌割草/utils/QuadTree.py:28-77 | query finds everything a full scan finds in the boundary, for all objects and ranges, if and only if the sizes halve evenly |
| QuadCoverage.QueryIsScan | pycharm/无敌割草/utils/QuadTree.py:28-77 | with such sizes and a range inside the boundary, query is exactly the full scan |
| QuadCoverage.GameScreenIsNotCovered | pycharm/无敌割草/utils/QuadTree.py:5 | 1920 by 1080 with max_level 5 has uncovered pixels |
| QuadCoverage.GameScreenCovered | pycharm/无敌割草/utils/QuadTree.py:5 | which ones: a pixel (x, y) of the screen is covered exactly when y mod 135 is not 134 and (y mod 135) mod 67 is not 66 |
| QuadCheck.CheckAgainstBruteForce | pycharm/无敌割草/utils/QuadTree.py:79-95 | each unordered pair is logged at most once, by an instigator, and overlaps now; no overlap is missed of an instigator that was inserted on a covered pixel and now shares one with the rect the other was inserted with, which for unmoved objects is every overlap on a covered pixel |
| QuadCheck.CheckIsBruteForce | pycharm/无敌割草/utils/QuadTree.py:79-95 | with evenly halving sizes and objects inside the boundary a pair is logged exactly when it overlaps and has an instigator |
| QuadCheck.LogOneMore | pycharm/无敌割草/utils/QuadTree.py:90-95 | logging a firing pair that is not handled keeps log and handled set in step and free of repeats |
| QuadCheck.TurnOfHit | pycharm/无敌割草/utils/QuadTree.py:82-95 | and it keeps the turn: an object that fires back has not been a caller yet, so it was found later |
| QuadTree.Quadtree.constructor | pycharm/无敌割草/utils/QuadTree.py:5-11 | a new node is a valid empty leaf |
| QuadTree.Quadtree.Clear | pycharm/无敌割草/utils/QuadTree.py:13-24 | clear leaves a single empty leaf with the same boundary |
| QuadTree.Quadtree.Update | pycharm/无敌割草/utils/QuadTree.py:25-27 | update leaves a single empty leaf with the new boundary |
| QuadTree.Quadtree.Subdivide | pycharm/无敌割草/utils/QuadTree.py:28-35 | subdivide adds four empty kids and nothing else, their corners and sizes by value |
| QuadTree.Quadtree.Insert | pycharm/无敌割草/utils/QuadTree.py:37-56 | the heap insert leaves the tree, and gives the answer, of the value-level insert |
| QuadTree.Quadtree.InsertEach | pycharm/无敌割草/utils/QuadTree.py:52-56 | the loop over the four kids inserts into each of them and keeps their nodes disjoint |
| QuadTree.Quadtree.Query | pycharm/无敌割草/utils/QuadTree.py:58-77 | the heap query extends the shared list exactly as the value-level query does and changes nothing else |
| QuadTree.Quadtree.Scan | pycharm/无敌割草/utils/QuadTree.py:65-69 | the scan loop of one node |
| QuadTree.Quadtree.Check | pycharm/无敌割草/utils/QuadTree.py:79-95 | the log of check holds exactly the firing pairs, each unordered pair once; of two that could fire at each other the one found first calls, and the calls come in the order in which callers and hits are found |
| QuadTree.Quadtree.CheckHits | pycharm/无敌割草/utils/QuadTree.py:86-95 | the inner loop logs everything one instigator fires at and keeps log and handled set in step |
| QuadTree.RunFrame | pycharm/无敌割草/GameWorld/GameWorld.py:29-46 | a whole frame on the heap, objects moving between insertion and check: the log is sound against where the objects are now, and complete for an instigator that was inserted on a covered pixel and now shares one with the rect the other was inserted with |
| Bytes.OrdersByValue | socket/Socket/Client_Socket.cpp:82-83 | network order is the base-256 expansion with the highest digit first, host order its reverse |
| Bytes.ReadByValue | socket/Socket/Server_Socket.cpp:317-319 | and reading weighs the four bytes accordingly |
| Bytes.ReadOfSpell | socket/Socket/Client_Socket.cpp:82-83 | reading the four bytes of a 32-bit number in either byte order gives the number back |
| Bytes.SpellOfRead | socket/Socket/Server_Socket.cpp:317-319 | and spelling the number read gives the bytes back |
| Framing.HeaderLayout | utility/JsonUtility/JsonUtility.h:27-36 | the five fields of a packed header stand at bytes 0, 4, 8, 12 and 16 |
| Framing.HostHeaderOnWire | utility/JsonUtility/JsonUtility.h:27-36 | the same by value, lowest byte first, as the chat server sends it |
| Framing.NetworkHeaderOnWire | projects/Server/src/Session/Session.h:8-15 | and highest byte first, as the Asio client sends it |
| Framing.HeaderRoundTrip | utility/JsonUtility/JsonUtility.h:27-36 | the 20-byte header reads back as printed, whatever follows it |
| Framing.CutReprints | socket/Socket/Client_Socket.cpp:148-161 | cutting a stream loses and invents no byte, and the leftover holds no complete packet |
| Framing.CutInvertsPrint | socket/Socket/Client_Socket.cpp:148-161 | cutting printed packets gives exactly those packets, then whatever the bytes behind them give |
| Framing.CutInTwo | socket/Socket/Client_Socket.cpp:148-161 | cutting in two steps with the leftover kept is cutting at once |
| Framing.ChunkingInvariance | socket/Socket/Client_Socket.cpp:123-162 | for every byte stream, any chunking gives the same packets and the same leftover as the whole |
| ServerSend.FragmentCount | socket/Socket/Server_Socket.cpp:98-120 | fragments sent are at least those announced; equal if and only if 20*(L/1024)+L%1024 <= 1004, which forces L <= 51204 |
| ServerSend.CountsByLength | socket/Socket/Server_Socket.cpp:99-107 | the announced count is one for each full 1024 bytes and one more, in 32 bits; the number sent is one for each begun 1004 bytes |
| ServerSend.FragmentOnWire | socket/Socket/Server_Socket.cpp:96-118 | a fragment byte by byte: id, number, size, announced count and JSON size by value, then the text from 1004 times the number on |
| ServerSend.ChatServer.QueueSend | socket/Socket/Server_Socket.cpp:85-121 | the sending loop puts exactly the 1004-byte fragments of the message on the wire, numbered in order, under a fresh id |
| Reassembly.MergeSucceeds | socket/Socket/Client_Socket.cpp:232-249 | merging succeeds if and only if the keys are exactly 0 to n-1 |
| Reassembly.LanesAreIndependent | socket/Socket/Client_Socket.cpp:198-230 | packets of different ids do not disturb each other, however they are interleaved |
| Reassembly.StoreMeans | socket/Socket/Client_Socket.cpp:198-206 | whatever packets an id gets: its store has the first one's JSON size and under each number the body that came last |
| Reassembly.HandedOnMeans | socket/Socket/Client_Socket.cpp:207-249 | a packet hands something on exactly when the numbers that have come are 0 to n-1 for its own announced n: the latest bodies end to end |
| ChatDelivery.InOrderLane | socket/Socket/Client_Socket.cpp:198-230 | fragments in order: one delivery, at the announced count, of the slices up to it |
| ChatDelivery.ArrivalLaw | socket/Socket/Client_Socket.cpp:198-249 | with a matching count, in any order and with repeats: every arrival that leaves the fragments complete hands on the whole text, no other does |
| ChatDelivery.OnceExactlyWhenLastIsNew | socket/Socket/Client_Socket.cpp:205-207 | handed on exactly once if and only if the last arrival brings the last missing fragment |
| ChatDelivery.WholePrefix | socket/Socket/Server_Socket.cpp:98-120 | the announced slices make up the whole text if and only if the message fits |
| ChatDelivery.InOrderDelivery | socket/Socket/Client_Socket.cpp:198-230 | a message of any length, in order but interleaved at will, is handed on exactly once, as the first min(L, 1004*announced) bytes |
| ChatDelivery.DeliveredBytes | socket/Socket/Client_Socket.cpp:198-230 | what arrives in order is the first min(L, 1004*(L/1024+1)) bytes, with the header length as JSON size |
| ChatDelivery.WholeExactlyWhenItFits | socket/Socket/Client_Socket.cpp:198-230 | sent and received in order, a non-empty message arrives whole if and only if it fits |
| ChatDelivery.ShuffledDelivery | socket/Socket/Client_Socket.cpp:198-230 | a message that fits, fragments in any order among others, is handed on exactly once, whole |
| ChatDelivery.NeverWholeUnlessItFits | socket/Socket/Client_Socket.cpp:198-249 | a message that does not fit: every delivery under its id is shorter than it, in whatever order, however often and however incompletely its fragments arrive |
| ChatDelivery.ShuffledExactlyWhenItFits | socket/Socket/Client_Socket.cpp:198-249 | all fragments in any order, each once: the whole message is handed on exactly once if and only if it fits |
| ChatDelivery.LastByteLost | socket/Socket/Server_Socket.cpp:98-120 | up to 1004 bytes arrive whole; 1005 bytes, sent in order as two fragments, are handed on without the last byte |
| ChatDelivery.CutGivesBack | socket/Socket/Client_Socket.cpp:251-276 | cutting a delivery at jsonSize gives back the header and the data |
| ChatDelivery.EndToEnd | socket/Socket/Client_Socket.cpp:123-230 | distinct ids, any shuffle of all fragments, any chunking: each message that fits is handed on exactly once and splits into its header and data, nothing else is, no byte is left |
| ChatDelivery.SentInTurn | socket/Socket/Server_Socket.cpp:85-121 | messages sent in turn, any chunking: each is handed on as far as announced, whole if it fits |
| ClientReceive.ChatClient.Receive | socket/Socket/Client_Socket.cpp:123-162 | one read cuts off and handles exactly the complete packets of buffer and chunk, and keeps the leftover |
| ClientReceive.ChatClient.ReceiveMessages | socket/Socket/Client_Socket.cpp:164-196 | a series of reads does to the client what the packets of all chunks do |
| ClientReceive.ChatClient.HandlePacket | socket/Socket/Client_Socket.cpp:198-230 | one packet updates the store and hands on exactly as the value-level step |
| ClientReceive.ChatClient.MergePackets | socket/Socket/Client_Socket.cpp:232-249 | the merge loop succeeds exactly on keys 0 to n-1 and then yields their bodies end to end |
| RequestSpec.Drive | socket/Socket/Server_Socket.cpp:298-411 | the parsing loop ends on every buffer content, in a state from which it cannot turn again |
| RequestSpec.RequestOnWire | socket/Socket/Client_Socket.cpp:79-88 | a printed request is its header length, highest byte first, the header and the body |
| RequestSpec.EmptyBodyIsForLogin | socket/Socket/Server_Socket.cpp:340-343 | a request with an empty body is served for UsedTo 0 alone |
| RequestSpec.ChunksDoNotMatter | socket/Socket/Server_Socket.cpp:287-412 | whatever the bytes, chunking changes neither the requests handled nor the parser state nor the fate of the connection |
| RequestSpec.ParserInvertsPrinter | socket/Socket/Server_Socket.cpp:298-411 | printed requests that can be served are handled exactly, in order, and the parser is idle in front of what follows |
| RequestSpec.RequestsArrive | socket/Socket/Server_Socket.cpp:287-412 | any chunking of the printed requests: exactly that list is handled, ending empty, waiting for four bytes |
| RequestSpec.ServedExactly | socket/Socket/Server_Socket.cpp:287-412 | any requests, any chunking: exactly the list sent is handled if and only if every request is fit to be served (a header that fits 32 bits, tells the size of the body that follows and the kind of request, and a body unless it is a login); the connection then ends empty and idle |
| RequestSpec.NextHandledIsServed | socket/Socket/Server_Socket.cpp:310-362 | a request in front of the buffer that comes out as the next one handled was fit to be served, whatever follows it |
| RequestSpec.BadRequestEnds | socket/Socket/Server_Socket.cpp:310-343 | how the first unfit request ends the conversation: an empty chat body closes, a header without size or (once the body is there) without UsedTo throws, an empty header stalls; everything before it was handled, nothing after it is |
| RequestServer.RequestSender.SendTo | socket/Socket/Client_Socket.cpp:79-88 | send_to writes the header length highest byte first, by value, then the header and the body |
| RequestServer.Connection.RecvToBuffer | socket/Socket/Server_Socket.cpp:20-58 | bytes are appended for a registered client only |
| RequestServer.Connection.HandleData | socket/Socket/Server_Socket.cpp:60-80 | takes the given number of bytes off the buffer, or nothing at all |
| RequestServer.Connection.OneTurn | socket/Socket/Server_Socket.cpp:298-411 | one turn of the loop is one step of the parser, and shortens the measure |
| RequestServer.Connection.HandleEpollEvent | socket/Socket/Server_Socket.cpp:287-421 | an event drives the parser to its end; the loop terminates by registration, buffered bytes and phase |
| RequestServer.Connection.HandleEvents | socket/Socket/Server_Socket.cpp:123-150 | a series of events is the value-level run over all chunks |
| PoolMachine.StepKeepsInv | projects/Server/src/ThreadPool_singleton/ThreadPool_singleton.cpp:19-57 | every atomic step of any thread keeps mutual exclusion, what was seen under the lock, the phases of shut_down, no lost wake-up, and FIFO history |
| PoolMachine.RunKeepsInv | projects/Server/src/ThreadPool_singleton/ThreadPool_singleton.cpp:19-57 | so does every run |
| PoolMachine.WorkerStepWakeup | projects/Server/src/ThreadPool_singleton/ThreadPool_singleton.cpp:39-57 | the steps of a worker keep the wake-up count |
| PoolMachine.ClientStepWakeup | projects/Server/src/ThreadPool_singleton/ThreadPool_singleton.h:33-53 | so do those of a submitter |
| PoolTheorems.NoWakeupIsLost | projects/Server/src/ThreadPool_singleton/ThreadPool_singleton.cpp:39-57 | while a worker sleeps un-notified: each queued task has its own notification to come or worker on the way, and after stop notify_all is still to come |
| PoolTheorems.TasksStartInOrder | projects/Server/src/ThreadPool_singleton/ThreadPool_singleton.cpp:51-52 | submitted is started followed by queued, in order |
| PoolCalls.CallersTasksAreSubmitted | projects/Server/src/ThreadPool_singleton/ThreadPool_singleton.h:33-52 | over every run the tasks a thread calls submit with are, in order, those of its answered calls and the one it still carries; the accepted ones are those submitted; nothing is refused before stop and nothing accepted after it |
| PoolCalls.SubmittersTasks | projects/Server/src/ThreadPool_singleton/ThreadPool_singleton.h:33-52 | from the start, with as many workers and submitters as the pool was made for: without stop, every task of an ended call is submitted |
| PoolCalls.WorkersRunWhatTheyStart | projects/Server/src/ThreadPool_singleton/ThreadPool_singleton.cpp:48-56 | over every run the tasks that a worker takes are, in order, those it runs to their end and the one it is busy with |
| PoolTheorems.AtMostOneMoreTaskEach | projects/Server/src/ThreadPool_singleton/ThreadPool_singleton.cpp:41-52 | after stop, in every continuation, no submit is accepted and each worker starts at most one more task |
| PoolTheorems.WorkDecreases | projects/Server/src/ThreadPool_singleton/ThreadPool_singleton.cpp:19-32 | after stop every step of workers and shut_down uses up bounded work, and no submitter gives any back |
| PoolTheorems.InternalStepsAreBounded | projects/Server/src/ThreadPool_singleton/ThreadPool_singleton.cpp:19-57 | in every run after stop the workers and shut_down take at most Work(s) <= 8 workers + 4 steps, spurious wake-ups included |
| PoolTheorems.SomeoneCanGoOn | projects/Server/src/ThreadPool_singleton/ThreadPool_singleton.cpp:27-31 | until shut_down is done some thread can go on, without any spurious wake-up |
| PoolTheorems.ShutDownCompletes | projects/Server/src/ThreadPool_singleton/ThreadPool_singleton.cpp:19-32 | from every state with stop set the joins can be completed, all workers having exited |
| ThreadPool.ThreadPool.PushLocked | projects/Server/src/ThreadPool_singleton/ThreadPool_singleton.h:33-52 | the critical section of submit: refuses after stop, else appends the task |
| ThreadPool.ThreadPool.TestLocked | projects/Server/src/ThreadPool_singleton/ThreadPool_singleton.cpp:46 | the predicate of the wait |
| ThreadPool.ThreadPool.TakeLocked | projects/Server/src/ThreadPool_singleton/ThreadPool_singleton.cpp:48-52 | leaves when stopped and empty, else takes the oldest task |
| ThreadPool.ThreadPool.StopLocked | projects/Server/src/ThreadPool_singleton/ThreadPool_singleton.cpp:20-24 | sets stop and touches no task |
| RingMachine.StepKeepsInv | projects/龙卷风播放器/src/utils/RingBuffer/RingBuffer.h:22-73 | every atomic step keeps mutual exclusion, size_ equal to the length and within capacity, FIFO history, and both wake-up counts |
| RingMachine.RunKeepsInv | projects/龙卷风播放器/src/utils/RingBuffer/RingBuffer.h:22-73 | so does every run |
| RingTheorems.NoWakeupIsLost | projects/龙卷风播放器/src/utils/RingBuffer/RingBuffer.h:22-55 | any number of readers and writers: a sleeping reader with items and no reader on the way means a writer owes its notify, and the other way round for room |
| RingTheorems.OneReaderOneWriter | projects/龙卷风播放器/src/utils/RingBuffer/RingBuffer.h:22-55 | with one of each, the sleeper's peer is the one that owes |
| RingTheorems.NeverAllAsleep | projects/龙卷风播放器/src/utils/RingBuffer/RingBuffer.h:22-55 | with capacity at least 1, never are all readers and all writers asleep |
| RingTheorems.LockIsGivenUp | projects/龙卷风播放器/src/utils/RingBuffer/RingBuffer.h:22-73 | the lock's holder gives it up within two steps of its own |
| RingTheorems.EveryItemOnce | projects/龙卷风播放器/src/utils/RingBuffer/RingBuffer.h:22-73 | items taken or cleared, then items queued, are the items written, in order; size_ is the length and at most the capacity |
| RingTheorems.WriteNeverFails | projects/龙卷风播放器/src/utils/RingBuffer/RingBuffer.h:40-55 | write never answers false: there is room and the item goes in |
| RingCalls.CallersItemsArePut | projects/龙卷风播放器/src/utils/RingBuffer/RingBuffer.h:40-55 | over every run, whoever sleeps and wakes: the items a thread calls write with are, in order, those it has put and the one it is still in write with; the items written are those put |
| RingCalls.WritersItems | projects/龙卷风播放器/src/utils/RingBuffer/RingBuffer.h:40-55 | the same from the start of a queue |
| RingCalls.ReadersGetWhatIsTaken | projects/龙卷风播放器/src/utils/RingBuffer/RingBuffer.h:22-38 | the items that read hands to its callers are, in order, those taken off the queue |
| RingCalls.NeverMoreThanCapacity | projects/龙卷风播放器/src/utils/RingBuffer/RingBuffer.h:18 | a queue made for n items never holds more, in any run |
| RingCalls.HoldsItsCapacity | projects/龙卷风播放器/src/utils/RingBuffer/RingBuffer.h:18 | and some run fills it with n |
| RingTheorems.ReadFailsOnlyWhenDrained | projects/龙卷风播放器/src/utils/RingBuffer/RingBuffer.h:22-38 | a read past its wait can always finish; it answers false exactly when stopped with every item ever written taken or cleared, else it takes the oldest item that is not |
| RingTheorems.RemainingItemsDrain | projects/龙卷风播放器/src/utils/RingBuffer/RingBuffer.h:22-38 | after stop, as long as nothing is put in or cleared, any run takes a beginning of the queue, in order, and leaves the rest |
| RingTheorems.FailedReadMeansDrained | projects/龙卷风播放器/src/utils/RingBuffer/RingBuffer.h:29-31 | if in such a run a read has answered false, everything that was queued has been taken, in order, and nothing is left |
| RingTheorems.DrainCompletes | projects/龙卷风播放器/src/utils/RingBuffer/RingBuffer.h:22-38 | from every stopped state with a reader there is a run that empties the queue and ends in a failing read; unless a writer holds the lock it takes exactly what was queued |
| RingTheorems.BlockedWritersStay | projects/龙卷风播放器/src/utils/RingBuffer/RingBuffer.h:40-55 | on a full queue, stopped or not, no writer that waits in write leaves it in any run in which nothing is taken |
| RingTheorems.StopIsMissedExactlyThen | projects/龙卷风播放器/src/utils/RingBuffer/RingBuffer.h:58-63 | after the flag is set stop can return with a reader left asleep if and only if a reader was between its test and its sleep, or two were asleep |
| RingTheorems.SafeRun | projects/龙卷风播放器/src/utils/RingBuffer/RingBuffer.h:58-63 | otherwise every continuation wakes the reader that sleeps |
| RingTheorems.StopCanBeMissed | projects/龙卷风播放器/src/utils/RingBuffer/RingBuffer.h:58-63 | a run from the start in which stop has returned and the reader sleeps on |
| RingBuffer.RingBuffer.ReadLocked | projects/龙卷风播放器/src/utils/RingBuffer/RingBuffer.h:29-35 | read after its wait |
| RingBuffer.RingBuffer.WriteLocked | projects/龙卷风播放器/src/utils/RingBuffer/RingBuffer.h:47-52 | write after its wait |
| RingBuffer.RingBuffer.ClearLocked | projects/龙卷风播放器/src/utils/RingBuffer/RingBuffer.h:65-73 | clear pops everything and brings size_ to zero |
| RingBuffer.RingBuffer.SetStopFlag | projects/龙卷风播放器/src/utils/RingBuffer/RingBuffer.h:58-60 | stop's flag is set without touching the queue |
| MemoryPoolSpec.GetInv | projects/龙卷风播放器/src/utils/MemoryPool/MemoryPool.h:103-136 | get keeps the partition of slots and the absence of duplicates if and only if the shared_ptr does not throw (a throwing constructor does no harm) |
| MemoryPoolSpec.ReleaseInv | projects/龙卷风播放器/src/utils/MemoryPool/MemoryPool.h:121-130 | so does the deleter of a live slot |
| MemoryPoolSpec.ReleaseMemoInv | projects/龙卷风播放器/src/utils/MemoryPool/MemoryPool.h:169-184 | so does release_memo, and it forgets no slot |
| MemoryPoolSpec.GetNeverAliases | projects/龙卷风播放器/src/utils/MemoryPool/MemoryPool.h:113-135 | in a sound pool get hands out a slot that is neither live nor freed, and takes it off the queue; a throwing constructor puts it back once, a throwing shared_ptr twice |
| MemoryPoolSpec.ReleaseMemoFreesTheSurplus | projects/龙卷风播放器/src/utils/MemoryPool/MemoryPool.h:169-184 | release_memo gives back free slots only, until at most half of size is free, and no more than needed |
| MemoryPoolSpec.RunConserves | projects/龙卷风播放器/src/utils/MemoryPool/MemoryPool.h:103-194 | over every run, whatever throws in it, no allocated slot is lost sight of and size accounts for all |
| MemoryPoolSpec.PartedExactlyUntilThen | projects/龙卷风播放器/src/utils/MemoryPool/MemoryPool.h:117-135 | the invariant holds throughout a run if and only if no get in it has its shared_ptr throw |
| MemoryPoolSpec.DuplicateIsHandedOutTwice | projects/龙卷风播放器/src/utils/MemoryPool/MemoryPool.h:117-135 | after such a get, once the slots in front have been handed out, the next get hands out a slot that is already live |
| MemoryPoolHistory.SlotsAreReusedInOrder | projects/龙卷风播放器/src/utils/MemoryPool/MemoryPool.h:103-194 | over every run, whatever throws in it: slots leave the queue in the order in which they were queued |
| MemoryPoolHistory.WhereItGoes | projects/龙卷风播放器/src/utils/MemoryPool/MemoryPool.h:103-184 | a slot that leaves is handed out by a successful get, or given back to the system by release_memo |
| MemoryPoolHistory.ReturnedGoesLast | projects/龙卷风播放器/src/utils/MemoryPool/MemoryPool.h:121-130 | a returned slot is handed out again only after all the slots that were free before it |
| MemoryPoolHistory.PeakIsMostOut | projects/龙卷风播放器/src/utils/MemoryPool/MemoryPool.h:108-116 | the peak of the space bound is the most slots ever out at once, one under construction included |
| MemoryPoolSpec.SpaceBound | projects/龙卷风播放器/src/utils/MemoryPool/MemoryPool.h:108-114 | without release_memo, whatever throws, at most S + 2(P-1) slots are ever allocated |
| MemoryPool.MemoryPoolShared.constructor | projects/龙卷风播放器/src/utils/MemoryPool/MemoryPool.h:97-101 | a new pool holds init_size fresh slots |
| MemoryPool.MemoryPoolShared.AllocateMemo | projects/龙卷风播放器/src/utils/MemoryPool/MemoryPool.h:187-194 | appends size fresh, distinct slots and doubles size |
| MemoryPool.MemoryPoolShared.Get | projects/龙卷风播放器/src/utils/MemoryPool/MemoryPool.h:103-136 | hands out the front slot of the refilled queue, or puts it back when construction throws, or twice when the shared_ptr throws; the pool stays valid exactly when the last does not happen |
| MemoryPool.MemoryPoolShared.ReturnObj | projects/龙卷风播放器/src/utils/MemoryPool/MemoryPool.h:139-152 | destroys the object and queues its slot |
| MemoryPool.MemoryPoolShared.ReleaseMemo | projects/龙卷风播放器/src/utils/MemoryPool/MemoryPool.h:169-184 | the loop gives back exactly the surplus from the front |
| AsioSpec.FrameSizesAddUp | projects/Client/src/client/client.cpp:187-195 | L/4096+1 frames whose sizes add up to L, if and only if that number fits in 32 bits |
| AsioSpec.FrameOnWire | projects/Client/src/client/client.cpp:187-205 | a frame byte by byte: the five fields by value, then the beginning of the message, whatever the frame's number |
| AsioSpec.OneFrame | projects/Server/src/Session/Session.cpp:130-161 | a frame is posted exactly when it announces itself as the only one, because fragments go into a copy |
| AsioSpec.SegmentsAfter | projects/Server/src/Session/Session.cpp:130-161 | a posted frame takes its segment away, any other leaves an empty one behind |
| AsioSpec.EmplaceKeeps | projects/Server/src/Session/Session.cpp:131 | a fragment whose number is there already does not replace it |
| AsioSpec.BackwardsMeans | projects/Server/src/Session/Session.cpp:198-215 | the merged message is the bodies with the last one first |
| AsioSpec.MessagesPost | projects/Server/src/Session/Session.cpp:121-163 | the frames of any messages post exactly the one-frame messages, in order |
| AsioSpec.AsioDelivery | projects/Server/src/Session/Session.cpp:121-196 | any messages, any chunking: exactly the emitted frames are cut, nothing is left over, and the one-frame messages are posted once each, in order |
| AsioSpec.PostedWholeExactlyWhenShort | projects/Client/src/client/client.cpp:180-207 | below 4096 bytes a message is posted whole; from 4096 bytes on it never is |
| AsioSession.AsioClient.SendTo | projects/Client/src/client/client.cpp:180-207 | the loop queues exactly the frames of the message in network order |
| AsioSession.Session.DoRead | projects/Server/src/Session/Session.cpp:31-54 | one read processes exactly the complete frames and keeps the leftover |
| AsioSession.Session.ReadAll | projects/Server/src/Session/Session.cpp:31-54 | what a client sent, in any chunks, is posted exactly as far as it fits one frame, and the buffer ends empty |
| AsioSession.Session.ProcessData | projects/Server/src/Session/Session.cpp:121-163 | the loop cuts and handles every complete frame, and says exactly when it runs out of defined behaviour |
| AsioSession.Session.TrimAndGetHeader | projects/Server/src/Session/Session.cpp:174-196 | gives a header exactly when its body is there, apart from a wrapped 32-bit sum |
| AsioSession.Session.KeepFragment | projects/Server/src/Session/Session.cpp:130-161 | one fragment into a copy of its segment; post and erase when the copy is complete |
| AsioSession.Session.MergeFragments | projects/Server/src/Session/Session.cpp:198-215 | succeeds exactly on keys 0 to n-1, and joins the bodies back to front |
| AsioSession.SentStreamsNeverWrap | projects/Server/src/Session/Session.cpp:187-193 | on what the client sends the 32-bit sum never wraps, wherever the stream is cut |

## Left out

- Sockets, epoll and Asio scheduling, `errno` branches, partial sends: the network is a reliable byte stream in arbitrary chunks.
- JSON texts, SQL, login and presence tables, chat dispatch, loggers: library calls or thin routing; handlers in the dispatching switch are taken to return normally.
- Re-use of a descriptor number after a close (the old parser state is kept by the source): each `Connection` is one client's life.
- QuadTree.Quadtree.Check: the objects' `on_collision` is a log entry; what a handler might do to rects or to the tree during the loop is not modelled.
- QuadTree.RunFrame: all objects are inserted before any moves (in the game some move in between, each after its own insertion), and the camera filter is the caller's choice of objects.
- QuadTree.Quadtree.Update: the boundary is a value, so its aliasing with the camera's rect is not modelled.
- AsioSession.Session.ProcessData: where the 32-bit length check wraps, the run stops, since the source leaves defined behaviour there.
- AsioSession.Session.KeepFragment: the posted closure merges at once; a failed merge, which the source dereferences, is a `None` in the log.
- MemoryPool.MemoryPoolShared.Get: requires an initial size of at least 1, since the source takes the front of an empty queue otherwise; `size` does not overflow.
- MemoryPool.MemoryPoolShared.ReleaseMemo: the destructor call on slots whose flag was never initialised is not modelled.
- `MemoryPool` (the other pool): its `release_memo` pops `size` slots, which is more than there are by the conservation law.
- Locking of `MemoryPool_shared`: its conditional guard ends at once.
- `Session::send` and `do_write` (the queue is popped before its write completes) and the server's own Asio sender (it miscounts the remainder).
- `RingBuffer_size_t` (it waits on a member its class does not declare) and the UDP reassembler (its loop does not compile).
- ThreadPool.ThreadPool.PushLocked: futures and their exceptions are not modelled; a task is a number, and `shut_down` is called by one thread.
- RingBuffer.RingBuffer.WriteLocked: items are numbers; moving out of and into them is not modelled.
- Decoder, render and audio threads, Qt, OpenCV scripts, and the duplicate copies of Session, ThreadPool and Logger.
