# Verified model of libftpp

libftpp is a C++ toolbox: byte buffers, a framed message protocol with a client and a server, worker
threads, Perlin noise, a ring buffer, an object pool, a tree, snapshots and a prefixed console stream.
This project models the parts of it that carry real invariants and proves what they promise, for every
input, every cutting of a byte stream, every interleaving and every operation sequence.

`dafny verify dfyconfig.toml` checks the whole project.

| file | module | models |
|---|---|---|
| Sequences.dfy, Iteration.dfy, Wrappers.dfy | Sequences, Iteration, Wrappers | concatenation, steps that go on for ever, shared result types |
| Bytes.dfy | Bytes | little-endian images of `int` and `size_t` |
| Fields.dfy, DataBuffer.dfy | Fields, DataBuffers | heterogeneous fields behind a cursor, class `DataBuffer` |
| Framing.dfy, Message.dfy, Client.dfy | Framing, Messages, Clients | the frame format, class `Message`, class `Client` |
| Server.dfy | Servers | class `Server`: decoding, client tables and dispatch |
| WorkerPool.dfy, PersistentWorker.dfy | WorkerPools, PersistentWorkers | both thread classes as step systems |
| PerlinNoise.dfy | PerlinNoise | `PerlinNoise2D::sample` over exact reals, the coordinate key |
| RingBuffer.dfy | RingBuffers | class `RingBuffer` against a bounded queue |
| Pool.dfy | Pools | class `Pool` with object lifetimes |
| NAryTree.dfy | NAryTrees | the tree and its traversals |
| Memento.dfy | Mementos | class `Snapshot`, `save` and `load` |
| LineStream.dfy | LineStreams | the output side of `ThreadSafeIOStream` |

## Main results

- **Framing.** Decoding is exact on arbitrary bytes up to a header whose 64-bit size sum wraps, is the
  longest-prefix inverse of serialisation, and does not depend on how the bytes were cut into `recv`
  chunks, `_receiveMessage` calls or `update` calls. The wrap-around in `isComplet` and in the cursor is
  modelled, not assumed away, and so is the null guard of `append`: at such a header the loop copies
  outside its buffer exactly if bytes stand behind it, never ends exactly if it stands alone and announces
  2^64 - 12 bytes, and otherwise queues an empty message nobody sent. The cutting is irrelevant if and only
  if no such header has a byte behind it. Whatever the cutting, once the queue is empty each message has run
  its actions exactly once if and only if no action threw, and these are all actions registered for its type,
  in registration order; frames completed in the round in which the peer closes are not run on that
  connection.
- **Server.** Over any run of ready clients and new connections, an update runs for each client the tasks of
  exactly what came over its descriptor, in order and under its id. A descriptor stands for its sender if and only
  if the connection never ended: otherwise messages received in full are dropped, or run under the id of the client
  that was given the descriptor next.
- **Where the code does less than its documentation says**, the exact condition is proved both ways: the
  server reproduces a stream only on frame-aligned `recv` chunks, hence no frame longer than its 4096-byte
  read buffer; a reconnecting client delivers every message list only if no byte was left over; the pool
  destructor runs all jobs (as line 383 of the repository's own README says) only if the queue was empty when
  it began; `Pool::resize` leaves a sound pool only from an empty pool to fewer than 2^31 slots, or to an idle
  nothing, and a pool destroys every value exactly once only if no constructor throws; a `Snapshot` read chain
  advances its snapshot fully only if all fields but the last are strings; the console shows whole lines, each
  behind the prefix its own thread set last, only if every thread's insertions and manipulators are clean by
  themselves, whatever the interleaving. Each comes with an input on which it fails.
- **Threads.** Over all interleavings with spurious wake-ups: no lost wake-up, exactly-once and in-order
  execution, completion of all queued jobs within a measure plus the number of spurious wake-ups, bounded
  shutdown; for the persistent worker, removal, once-per-pass execution, start of an added task within two
  passes, and stop.
- **Perlin noise.** `sample`² ≤ 1/2 everywhere, and that bound is attained; no seams between cells; near a
  lattice point the noise is that point's own gradient up to a cube of the distance, because the fade is the one
  quintic without slope or bend at the lattice.
- **Trees.** `postorderCompute` may collapse any subtree to its result; a tree of sums gives the total of its
  leaves.

The comment in data_buffer.hpp:12-31 calls the buffer LIFO and reads in reverse order; the code is first
in, first out, and the model follows the code.

## Model

| member | source | states |
|---|---|---|
| Bytes.SizeCodec | src/data_structures/data_buffer/data_buffer.hpp:59-77 | writing and re-reading the 8-byte image of a `size_t` is a bijection, in both directions |
| Bytes.IntCodec | src/network/message/message.cpp:32-34 | the 4-byte two's-complement image of an `int` is a bijection, negative types included |
| Bytes.SizeImage | src/data_structures/data_buffer/data_buffer.cpp:29-36 | which of the 8 bytes holds which digit of a `size_t`, the lowest first |
| Bytes.IntImage | src/network/message/message.cpp:32-34 | which of the 4 bytes holds which digit of an `int`; a negative one as its complement |
| Fields.TextReadExact | src/data_structures/data_buffer/data_buffer.cpp:38-50 | a string read succeeds exactly when its characters are there; the bounds test is fooled exactly when length plus cursor reaches 2^64 |
| Fields.FieldLayout | src/data_structures/data_buffer/data_buffer.cpp:29-36 | a fixed-size value is stored as it is, a string behind its length in eight bytes |
| Fields.FieldRoundTrip | src/data_structures/data_buffer/data_buffer.cpp:29-50 | any list of fixed-size and string fields, anywhere in a buffer, is read back in write order and the cursor ends right behind it |
| Fields.ReadAllIsEncoded | src/data_structures/data_buffer/data_buffer.hpp:67-77 | conversely, any fields a successful read returns are exactly the bytes it consumed |
| Fields.ReadAllAppend | src/data_structures/data_buffer/data_buffer.hpp:67-77 | two lists of reads in a row are one list of reads; a failure in the first is final and keeps its cursor |
| DataBuffers.DataBuffer.constructor | src/data_structures/data_buffer/data_buffer.cpp:3-3 | a new buffer is empty with its cursor at 0 |
| DataBuffers.DataBuffer.Append | src/data_structures/data_buffer/data_buffer.cpp:22-27 | copies `len` bytes to the end and keeps the cursor; a zero length or a null pointer (the `data()` of an empty vector) changes nothing; a longer `len` leaves the source |
| DataBuffers.DataBuffer.Write | src/data_structures/data_buffer/data_buffer.hpp:59-65 | both `<<` forms append the field's encoding |
| DataBuffers.DataBuffer.ReadFixed | src/data_structures/data_buffer/data_buffer.hpp:67-77 | templated `>>`: the bytes behind the cursor and the cursor moved past them, or an exception with the cursor unmoved |
| DataBuffers.DataBuffer.ReadText | src/data_structures/data_buffer/data_buffer.cpp:38-50 | string `>>`, including that a failed read has already consumed the length |
| DataBuffers.DataBuffer.Size | src/data_structures/data_buffer/data_buffer.cpp:52-55 | number of unread bytes |
| DataBuffers.DataBuffer.Data | src/data_structures/data_buffer/data_buffer.cpp:57-60 | the unread bytes |
| DataBuffers.DataBuffer.IncreaseCursor | src/data_structures/data_buffer/data_buffer.cpp:67-73 | moves within bounds, refuses past the end, and goes backwards when the sum wraps |
| DataBuffers.DataBuffer.DecreaseCursor | src/data_structures/data_buffer/data_buffer.cpp:80-86 | moves back, refuses below 0 |
| DataBuffers.DataBuffer.Reset | src/data_structures/data_buffer/data_buffer.cpp:8-11 | rewinds, keeps the bytes |
| DataBuffers.DataBuffer.Clear | src/data_structures/data_buffer/data_buffer.cpp:16-20 | drops the bytes and rewinds |
| DataBuffers.DataBuffer.WriteAll | src/data_structures/data_buffer/data_buffer.cpp:29-36 | a chain of `<<` appends the concatenated encodings |
| DataBuffers.DataBuffer.ReadAll | src/data_structures/data_buffer/data_buffer.hpp:67-77 | a chain of `>>` reads through one cursor and stops at the first exception |
| DataBuffers.WriteThenRead | tests/my_google_test/test_data_buffer.cpp:60-71 | what is written to a fresh buffer comes back in FIFO order |
| Framing.CompletenessTestExact | src/network/message/message.cpp:10-24 | `isComplet` means "one whole frame is buffered" exactly on headers whose size sum does not wrap |
| Framing.FrameLayout | src/network/message/message.cpp:26-46 | a frame is four bytes of type, eight bytes of size, then the payload |
| Framing.DecodeExact | src/network/client/client.cpp:109-124 | for all bytes: re-serialised messages plus the remaining bytes are the input, the remainder starts with no whole frame or with a wrapping header, and each message costs at least 12 bytes |
| Framing.DecodeFrames | src/network/client/client.cpp:109-124 | frames at the front of any stream are decoded as sent, whatever follows |
| Framing.DecodeSerialized | src/network/message/message.cpp:26-46 | decoding inverts the concatenated serialisations |
| Framing.DecodeAppend | src/network/client/client.cpp:82-124 | decoding in two instalments equals decoding once, up to a wrapping header |
| Framing.LoopUnfolds | src/network/client/client.cpp:109-124 | on all bytes the closed form of the loop is its first turn followed by the loop on what that turn leaves |
| Framing.DivergesExactly | src/network/client/client.cpp:109-124 | the loop makes more turns than any bound if and only if the bytes are whole frames followed by a lone header announcing 2^64 - 12 |
| Framing.DivergesMeansForever | src/network/client/client.cpp:109-124 | the closed form of the loop diverges if and only if its turns exceed every bound |
| Framing.StuckOnHeader | src/network/client/client.cpp:109-124 | concrete instance: that header alone |
| Framing.FaultsExactly | src/network/client/client.cpp:119-119 | the copy leaves its buffer if and only if a wrapping header is reached with bytes behind it |
| Framing.LoneHeaderInventsMessage | src/network/client/client.cpp:119-123 | a lone header announcing any larger size queues an empty message and moves the cursor inside the header |
| Framing.InventedWasNotSent | src/network/client/client.cpp:119-123 | that message's frame is not the header |
| Framing.CompleteWithoutItsPayload | src/network/message/message.cpp:23-23 | concrete input on which `isComplet` is wrong: a lone header announcing 2^64 - 1 |
| Framing.DecodeLongestPrefix | src/network/client/client.cpp:109-124 | the decoded list is the longest whose serialisation is a prefix of the bytes, both directions |
| Messages.Message.AppendBytes | src/network/message/message.cpp:5-8 | passes on `append`, null guard included |
| Messages.Message.IsComplet | src/network/message/message.cpp:10-24 | no inner read throws, the cursor is back where it was, the answer is the wrapping test |
| Messages.Message.GetSerializedData | src/network/message/message.cpp:26-46 | type, size and payload of the unread part |
| Messages.TakeFrame | src/network/client/client.cpp:111-123 | one turn of the loop: message, copy and wrapping cursor move as the loop semantics say, on every header |
| Messages.DrainFrames | src/network/client/client.cpp:109-124 | the loop ends with exactly the messages and unread bytes of the loop semantics, or reports the faulty copy, or the turn it would repeat for ever |
| Clients.Client.constructor | src/network/client/client.cpp:3-3 | a new client has received and queued nothing and is not connected |
| Clients.Client.Connect | src/network/client/client.cpp:18-41 | connected or disconnected with an exception; either way the unread bytes of the old connection stay |
| Clients.Client.DefineAction | src/network/client/client.cpp:53-57 | actions of a type are kept in registration order |
| Clients.Client.DefineActions | src/network/client/client.cpp:53-57 | any list of registrations leaves the table they make one after the other |
| Clients.Client.Accumulate | src/network/client/client.cpp:82-85 | the `recv` loop appends all chunks and moves no cursor |
| Clients.Client.ReceiveMessage | src/network/client/client.cpp:77-125 | new queue, unread bytes, status and connection for each way `recv` can end; nothing is decoded on close |
| Clients.Client.ReceiveRounds | src/network/client/client.cpp:131-143 | any number of calls runs the loop on what the calls before it left |
| Clients.Client.ReceiveExactly | src/network/client/client.cpp:77-143 | if no wrapping header is reached, any calls are one decoding of all bytes, and the bytes before the cursor stay exactly the frames delivered |
| Clients.Client.ReceiveStream | src/network/client/client.cpp:77-143 | a client with nothing unread that receives the serialisation of `ms` in any cutting queues exactly `ms` and has nothing unread |
| Clients.Client.RunActions | src/network/client/client.cpp:145-154 | the dispatch loop whose actions may throw: the calls started are the first of the queue's calls up to the one that throws; the queue is emptied if none does and untouched otherwise |
| Clients.Client.DefineAndRun | src/network/client/client.cpp:53-57 | after any registrations on a client without actions, each queued message calls every action registered for its type, in registration order, up to the first that throws |
| Clients.Client.Update | src/network/client/client.cpp:127-155 | the whole `update`, including losing the connection, the exception that skips the actions and the exception of an action |
| Clients.Client.ClosingUpdate | src/network/client/client.cpp:87-104 | an update in which the connection ends has queued every frame received if and only if the bytes of its last round complete no frame |
| Clients.Client.Session | src/network/client/client.cpp:77-155 | the grouping into updates changes neither the bytes left nor, for actions that may throw anywhere, the calls started and their order, wrapping headers included |
| Clients.Client.SessionOfStream | src/network/client/client.cpp:77-155 | end to end: the serialisation of `ms`, cut in any way, runs exactly the actions of `ms` in order if no action throws, and, once the queue is empty, only then |
| Clients.DispatchAppend | src/network/client/client.cpp:145-153 | dispatching in batches is dispatching once |
| Clients.DefinedRunsLast | src/network/client/client.cpp:145-153 | one more `defineAction` adds one call, behind the others, for messages of its type and no others; without any, nothing is called |
| Clients.DispatchIsRegistrations | src/network/client/client.cpp:145-153 | after any registrations, dispatching any messages calls every action registered for each type once per registration, message by message, in registration order |
| Clients.CallsBalance | src/network/client/client.cpp:145-154 | over any updates: calls started plus calls still queued are those of the messages received plus those started by dispatches that threw |
| Clients.ActionsRunOnceExactly | src/network/client/client.cpp:145-154 | once the queue is empty, every message received has run its actions exactly once and in order if and only if no action threw on the way |
| Clients.ThrowingActionRunsAgain | src/network/client/client.cpp:151-154 | concrete input: one message whose action throws once is run twice |
| Clients.ClosingRoundIsNotDecoded | src/network/client/client.cpp:87-104 | on bytes that reach no wrapping header the frames of all bytes are the queued ones followed by those the closing round completes |
| Clients.MessageBeforeCloseIsLost | src/network/client/client.cpp:87-92 | concrete input: a message that arrives in the round of the close is not queued on that connection |
| Clients.RoundsAreOneDecoding | src/network/client/client.cpp:77-143 | running the loop call by call equals one decoding of all bytes whenever no wrapping header is reached |
| Clients.ChunkingIrrelevantExactly | src/network/client/client.cpp:77-143 | all cuttings of a stream end as one call on it does if and only if it holds no wrapping header, behind whole frames, with a byte behind it |
| Clients.RoundsAreOneLoop | src/network/client/client.cpp:77-143 | if one call on the whole stream would not leave its buffer, every cutting ends as that one call does, lone wrapping headers included |
| Clients.FaultDependsOnCut | src/network/client/client.cpp:77-143 | and where it would, cutting right behind the header ends differently |
| Clients.ChunkingMattersAtWrap | src/network/client/client.cpp:77-143 | concrete stream that faults in one call and invents a message in two |
| Clients.ChunkIndependence | src/network/client/client.cpp:77-125 | for every message list and every cutting of its serialisation, the loop run call by call queues exactly that list and keeps nothing |
| Clients.PrefixDelivery | src/network/client/client.cpp:77-125 | at every intermediate point exactly the messages whose frames have arrived in full are queued |
| Clients.ReconnectExact | src/network/client/client.cpp:18-51 | a new connection delivers every message list if and only if no byte was left unread before it |
| Servers.ChunkConservation | src/network/server/server.cpp:92-115 | the decoded messages never weigh more than the bytes received, and re-serialise to them exactly when every chunk holds whole frames |
| Servers.ServerExactOnAlignedChunks | src/network/server/server.cpp:92-115 | the server reproduces the sent messages, as the client does, if and only if every `recv` chunk is frame-aligned |
| Servers.SplitFrameIsLost | src/network/server/server.cpp:114-114 | a frame cut into two pieces shorter than a header is lost |
| Servers.SplitEmptyMessageIsLost | src/network/server/server.cpp:114-114 | concrete instance: an empty message cut after six bytes |
| Servers.OversizedNeverDecoded | src/network/server/server.cpp:89-92 | with a 4096-byte read buffer no message with a longer frame is ever decoded |
| Servers.OversizedStreamIsNotReproduced | src/network/server/server.cpp:89-115 | so a list holding such a message is never reproduced, though the client's decoding reproduces it |
| Servers.DescriptorsIndependent | src/network/server/server.cpp:190-209 | over any sequence of events on any descriptors, the queued messages of one descriptor are the decoding of its own chunks |
| Servers.LastTaskRuns | src/network/server/server.cpp:163-168 | the last `defineAction` for a type decides which task its messages run and touches no other type |
| Servers.ClientServedOrForgotten | src/network/server/server.cpp:212-227 | what one update runs for a client: the tasks of everything its chunks decode to, or nothing at all if its connection ended before the dispatch |
| Servers.SameClientExactly | src/network/server/server.cpp:190-221 | a descriptor still stands for the same client at the dispatch if and only if the connection never ended, however many connections were accepted |
| Servers.NewcomerInheritsMessage | src/network/server/server.cpp:219-225 | concrete input: after a close and an `accept` that reuses the descriptor, a task runs under the id of a client that did not send the message |
| Servers.MessageThenCloseIsForgotten | src/network/server/server.cpp:219-221 | concrete input: a whole frame followed by a close is decoded and its task is never run |
| Servers.Server.constructor | src/network/server/server.cpp:3-3 | a new server holds no clients; its watched set is whatever the memory held |
| Servers.Server.Start | src/network/server/server.cpp:12-57 | after `start`, or after a failing `socket`, the server is sound if and only if no clients were held; a failed `bind` or `listen` leaves a stopped server |
| Servers.Server.AcceptNewConnection | src/network/server/server.cpp:59-81 | keeps the tables mutually inverse and every watched descriptor in the scanned range, issues a fresh id, refuses exactly on failure or at 1000 clients, overflows exactly at the largest `int` |
| Servers.Server.ClearClient | src/network/server/server.cpp:239-257 | removes the client from both tables, the watched set and the partial buffers; unknown descriptors change nothing |
| Servers.Server.Stop | src/network/server/server.cpp:259-281 | everything is empty; ids already issued are never issued again |
| Servers.Server.DecodeChunk | src/network/server/server.cpp:92-115 | one `recv` turn decodes its chunk alone and leaves no partial bytes |
| Servers.Server.ReceiveClientMsg | src/network/server/server.cpp:83-123 | queues the chunk-by-chunk decoding tagged with the descriptor; reports the client alive if and only if `recv` would block |
| Servers.Server.ServeReady | src/network/server/server.cpp:200-208 | once the decoding ends, the client is still connected if and only if its connection is open; otherwise it is out of both tables, the watched set and the partial buffers |
| Servers.Server.ServeAll | src/network/server/server.cpp:190-209 | any run over several descriptors queues each event's messages in order and leaves exactly the clients whose connection never ended; the others are out of every table |
| Servers.Server.ServeEachAlone | src/network/server/server.cpp:190-209 | over any such run the queue restricted to one descriptor grows by the decoding of that descriptor's chunks |
| Servers.Server.DefineAction | src/network/server/server.cpp:163-168 | one task for each type, the last one given |
| Servers.Server.RunTasks | src/network/server/server.cpp:212-227 | the dispatch loop runs the task of each queued message whose client is still there, and empties the queue |
| Servers.Server.UpdateWithoutAccepting | src/network/server/server.cpp:170-228 | every client has the tasks of all its messages run in order under its id, unless its connection ended on the way |
| Servers.Server.ServeTurns | src/network/server/server.cpp:190-209 | the serving loop with new connections in between: the clients and the queue it leaves |
| Servers.Server.Update | src/network/server/server.cpp:170-228 | a whole update: each client at its end has the tasks run of everything that came over its descriptor, and a client from before is still there if and only if its connection never ended |
| Servers.CoherentAdd | src/network/server/server.cpp:78-80 | adding a client keeps the two tables inverse and ids unique |
| Servers.CoherentRemove | src/network/server/server.cpp:254-255 | removing a client keeps the two tables inverse |
| WorkerPools.WakeupStep | src/thread/worker_pool/worker_pool.cpp:13-70 | every step keeps: a sleeper implies each queued job has a pending notification or a worker about to look |
| WorkerPools.LedgerStep | src/thread/worker_pool/worker_pool.cpp:13-70 | every step keeps: submitted = taken, queued, dropped in order; taken = finished plus running |
| WorkerPools.NeverStrandsWork | src/thread/worker_pool/worker_pool.cpp:13-30 | in every interleaving a pool of `n` keeps `n` workers, and quiescent and unstopped it has no sleeper next to a queued job |
| WorkerPools.ExactlyOnceInOrder | src/thread/worker_pool/worker_pool.cpp:13-70 | in every interleaving each submission is taken at most once and in order; at the end all taken jobs have finished and the rest is the dropped suffix |
| WorkerPools.AllWorkersBusyAtOnce | src/thread/worker_pool/worker_pool.cpp:3-30 | the model is concurrent: a pool of any size has a run in which every worker runs a job of its own at the same time |
| WorkerPools.InternalStepDecreases | src/thread/worker_pool/worker_pool.cpp:13-30 | every step the pool takes by itself lowers a measure |
| WorkerPools.AllJobsGetDone | src/thread/worker_pool/worker_pool.cpp:13-30 | left alone, with spurious wake-ups allowed, a pool with a worker takes at most the measure plus the number of spurious wake-ups in steps, and settles with every submitted job finished |
| WorkerPools.StoppedStep | src/thread/worker_pool/worker_pool.cpp:15-23 | once stopped no worker falls asleep and no job is taken |
| WorkerPools.StoppedRank | src/thread/worker_pool/worker_pool.cpp:32-45 | once stopped every worker and destructor step lowers a rank that nothing raises |
| WorkerPools.ShutdownTerminates | src/thread/worker_pool/worker_pool.cpp:32-52 | shutdown takes boundedly many steps, has a non-spurious step until destroyed, and nobody sleeps after `notify_all` |
| WorkerPools.DestructorRunsAllIffQueueEmpty | src/thread/worker_pool/worker_pool.cpp:32-52 | the destructor has run all jobs if and only if the queue was empty at `_stop` and nothing was added later; the dropped jobs are exactly those |
| WorkerPools.DestructorCanDropAJob | src/thread/worker_pool/worker_pool.cpp:49-51 | a run in which a submitted job never runs |
| PersistentWorkers.InvStep | src/thread/persistent_worker/persistent_worker.cpp:8-75 | every step keeps: asleep only on an empty table with no unannounced stop; a pass names each task once |
| PersistentWorkers.SleepsOnlyWhenIdle | src/thread/persistent_worker/persistent_worker.cpp:40-44 | the same over every interleaving |
| PersistentWorkers.RemovedTaskRunsAtMostOnce | src/thread/persistent_worker/persistent_worker.cpp:26-30 | after removal without re-adding a task starts at most once more, and only if the current pass still owes it |
| PersistentWorkers.PassStartsEachTaskOnce | src/thread/persistent_worker/persistent_worker.cpp:46-68 | a pass starts every task of its snapshot exactly once, under its name, whatever throws and whatever others do |
| PersistentWorkers.TableHoldsLastAdded | src/thread/persistent_worker/persistent_worker.cpp:19-30 | in every interleaving the table holds for each name the task added last, unless it was removed since |
| PersistentWorkers.StartsTheTaskAddedLast | src/thread/persistent_worker/persistent_worker.cpp:46-53 | in every interleaving the task started is the one its name was given last before the snapshot of the current pass |
| PersistentWorkers.AddedTaskRuns | src/thread/persistent_worker/persistent_worker.cpp:19-24 | a task in the table is started within boundedly many worker steps, and the worker is not asleep |
| PersistentWorkers.StartedWithinTwoPasses | src/thread/persistent_worker/persistent_worker.cpp:33-75 | in every interleaving, a task kept in the table of a running worker is started before two passes have ended |
| PersistentWorkers.StoppedStep | src/thread/persistent_worker/persistent_worker.cpp:43-44 | once stopped no snapshot is taken and the rank only falls |
| PersistentWorkers.StopTerminates | src/thread/persistent_worker/persistent_worker.cpp:8-17 | after stop at most the tasks left in the pass start, and the worker is never stuck before it exits |
| PerlinNoise.FadeSymmetric | src/mathematics/perlin_noise_2D/perlin_noise_2D.cpp:18-21 | fade(1 - t) = 1 - fade(t) |
| PerlinNoise.FadeMonotone | src/mathematics/perlin_noise_2D/perlin_noise_2D.cpp:18-21 | fade is monotone on [0, 1] |
| PerlinNoise.FadeInRange | src/mathematics/perlin_noise_2D/perlin_noise_2D.cpp:18-21 | fade maps [0, 1] into [0, 1] |
| PerlinNoise.FadeIsTheSmoothQuintic | src/mathematics/perlin_noise_2D/perlin_noise_2D.cpp:18-21 | fade is the one polynomial of degree 5 from 0 to 1 without slope or bend at either end |
| PerlinNoise.FadeIsCubic | src/mathematics/perlin_noise_2D/perlin_noise_2D.cpp:18-21 | on [0, 1] fade lies between 10t³ - 15t⁴ and 10t³ |
| PerlinNoise.SampleBound | src/mathematics/perlin_noise_2D/perlin_noise_2D.cpp:23-60 | for every point and every unit gradients, sample squared is at most 1/2, so sample lies in [-1, 1] |
| PerlinNoise.BoundIsAttained | src/mathematics/perlin_noise_2D/perlin_noise_2D.hpp:18-18 | the bound 1/2 is reached, so it cannot be improved |
| PerlinNoise.VerticalSeam | src/mathematics/perlin_noise_2D/perlin_noise_2D.cpp:34-57 | neighbouring cells agree on their vertical edge |
| PerlinNoise.HorizontalSeam | src/mathematics/perlin_noise_2D/perlin_noise_2D.cpp:34-57 | neighbouring cells agree on their horizontal edge |
| PerlinNoise.SampleOnClosedCell | src/mathematics/perlin_noise_2D/perlin_noise_2D.cpp:23-60 | sample is the interpolant of every closed cell the point belongs to |
| PerlinNoise.ZeroOnLattice | src/mathematics/perlin_noise_2D/perlin_noise_2D.cpp:40-57 | the noise is 0 at every lattice point |
| PerlinNoise.SampleNearLattice | src/mathematics/perlin_noise_2D/perlin_noise_2D.cpp:23-60 | within r of a lattice point along both axes, in any of its four cells, the noise is the offset times that point's own gradient up to 80r³ |
| PerlinNoise.KeyLinear | src/mathematics/random_2D_coordinate_generator/random_2D_coordinate_generator.cpp:35-38 | the key is additive with 7 and -13 on the axes, and the gradient of a point is looked up by it |
| PerlinNoise.KeyCollision | src/mathematics/random_2D_coordinate_generator/random_2D_coordinate_generator.cpp:35-38 | two points share a key if and only if they differ by a multiple of (13, 7) |
| PerlinNoise.SampleRepeats | src/mathematics/perlin_noise_2D/perlin_noise_2D.cpp:8-16 | hence the noise has period (13, 7) for every choice of directions |
| RingBuffers.NothingLostOrReordered | src/bonus/ring_buffer/ring_buffer.cpp:9-129 | over every operation list without `clear`, initial plus pushed bytes are popped plus remaining bytes, in order, within capacity |
| RingBuffers.PeekIsPop | src/bonus/ring_buffer/ring_buffer.cpp:111-129 | `peek(n)` returns what `pop(n)` would, except exactly on an empty buffer with n = 0 |
| RingBuffers.PeekByteIsPop | src/bonus/ring_buffer/ring_buffer.cpp:101-109 | `peek()` returns what `pop()` would and takes nothing; `pop()` is `pop(1)` |
| RingBuffers.BulkPushIsIterated | src/bonus/ring_buffer/ring_buffer.cpp:18-85 | a successful bulk push leaves what its single pushes leave; it refuses where they all succeed exactly when nothing is pushed on a full buffer; the raw push succeeds exactly when they do |
| RingBuffers.ThrowingLeavesNoTrace | src/bonus/ring_buffer/ring_buffer.cpp:9-129 | over every operation sequence, leaving out the calls that throw gives the same contents and the same other outcomes |
| RingBuffers.BulkPopIsIterated | src/bonus/ring_buffer/ring_buffer.cpp:44-71 | a bulk pop succeeds if and only if that many single pops all do, and then returns and leaves what they do |
| RingBuffers.SlotIsModular | src/bonus/ring_buffer/ring_buffer.cpp:39-39 | the index used in the specification is the modular index of the code |
| RingBuffers.RingBuffer.constructor | src/bonus/ring_buffer/ring_buffer.cpp:4-7 | an empty ring of any capacity, zero included |
| RingBuffers.RingBuffer.Store | src/bonus/ring_buffer/ring_buffer.cpp:23-25 | the head update appends to the contents read from the tail |
| RingBuffers.RingBuffer.Fetch | src/bonus/ring_buffer/ring_buffer.cpp:50-52 | the tail update removes the first byte of the contents |
| RingBuffers.RingBuffer.PushByte | src/bonus/ring_buffer/ring_buffer.cpp:18-26 | refines the queue's push, exception included |
| RingBuffers.RingBuffer.PushBytes | src/bonus/ring_buffer/ring_buffer.cpp:28-42 | refines the bulk push, which refuses even nothing when full |
| RingBuffers.RingBuffer.PushInto | src/bonus/ring_buffer/ring_buffer.cpp:73-85 | refines the raw push, which accepts nothing when full |
| RingBuffers.RingBuffer.PopByte | src/bonus/ring_buffer/ring_buffer.cpp:44-55 | refines the queue's pop |
| RingBuffers.RingBuffer.PopBytes | src/bonus/ring_buffer/ring_buffer.cpp:57-71 | refines the bulk pop |
| RingBuffers.RingBuffer.PopInto | src/bonus/ring_buffer/ring_buffer.cpp:87-99 | fills the front of the caller's memory with the oldest bytes and keeps the rest of it |
| RingBuffers.RingBuffer.PeekByte | src/bonus/ring_buffer/ring_buffer.cpp:101-109 | returns the oldest byte and changes nothing |
| RingBuffers.RingBuffer.PeekBytes | src/bonus/ring_buffer/ring_buffer.cpp:111-129 | returns the oldest bytes across the wrap and changes nothing |
| RingBuffers.RingBuffer.Clear | src/bonus/ring_buffer/ring_buffer.cpp:156-161 | empties the contents |
| RingBuffers.RingBuffer.PerformAll | src/bonus/ring_buffer/ring_buffer.cpp:9-161 | over every operation sequence the ring and the bounded queue give the same outcomes and contents |
| Pools.ResizeSoundExactly | src/data_structures/pool/pool.tpp:38-58 | `resize` of a sound pool gives a sound pool if and only if it had no slot and the size is below 2^31, or all slots go and none is handed out |
| Pools.ResizeKillsValue | src/data_structures/pool/pool.tpp:41-44 | concrete input: one free slot resized to one slot holds a dead value |
| Pools.ResizeSlots | src/data_structures/pool/pool.tpp:38-58 | a slot that survives keeps its owner and its value, which is dead; a new one is free with a live default value |
| Pools.ReleasedExactly | src/data_structures/pool/pool.tpp:5-9 | a dying slot puts its index on the free stack if and only if it is handed out |
| Pools.TooManySlotsAreUnreachable | src/data_structures/pool/pool.tpp:53-57 | concrete input: 2^31 slots, of which none can be handed out |
| Pools.LinkedStep | src/data_structures/pool/pool.tpp:60-86 | every `acquire` and `release`, a throwing constructor included, keeps the free stack exactly the unowned slots |
| Pools.RunBalance | src/data_structures/pool/pool.tpp:60-86 | over any calls the links hold, and constructions minus destructions drop by one for each constructor that threw |
| Pools.SoundRunExactly | src/data_structures/pool/pool.tpp:60-86 | a sound pool is sound after any calls if and only if no constructor threw |
| Pools.DestructionsBalanceExactly | src/data_structures/pool/pool.tpp:18-86 | from constructor to destructor, every value is destroyed exactly once if and only if no constructor threw |
| Pools.DeadSlotDestroyedAgain | src/data_structures/pool/pool.tpp:81-84 | concrete input: a slot whose constructor throws is destroyed twice for one construction |
| Pools.SlotsConserved | src/data_structures/pool/pool.tpp:60-86 | slots handed out plus slots on the free stack are all slots |
| Pools.Pool.constructor | src/data_structures/pool/pool.tpp:18-22 | a pool sized once is entirely unowned, and sound if and only if its size is below 2^31 |
| Pools.Pool.Resize | src/data_structures/pool/pool.tpp:38-58 | the two clearing loops, the vector resize and the numbering loop with its cast to `int`, for any previous contents and any size |
| Pools.Pool.Acquire | src/data_structures/pool/pool.tpp:70-86 | fails exactly when every slot is handed out; otherwise hands out the top free slot with the new value, or loses it, claimed and dead, exactly when the constructor throws |
| Pools.Pool.Release | src/data_structures/pool/pool.tpp:60-68 | frees a handed-out slot; a second release changes nothing |
| Pools.Pool.PerformAll | src/data_structures/pool/pool.tpp:60-86 | any calls on the object follow the specification and keep all slots alive if and only if no constructor throws |
| Pools.Pool.Destroy | src/data_structures/pool/pool.tpp:24-36 | the value of every slot is destroyed once more; all are dead exactly once if and only if all were alive |
| NAryTrees.PreorderGraft | src/bonus/n_ary_tree/n_ary_tree.hpp:151-158 | a subtree is one contiguous block of the preorder |
| NAryTrees.PostorderGraft | src/bonus/n_ary_tree/n_ary_tree.hpp:189-198 | a subtree is one contiguous block of the postorder |
| NAryTrees.AddChildPreorder | src/bonus/n_ary_tree/n_ary_tree.hpp:109-115 | `addChild` puts the value right behind its parent's last descendant in preorder, the rest unchanged |
| NAryTrees.AddChildPostorder | src/bonus/n_ary_tree/n_ary_tree.hpp:109-115 | and right in front of its parent in postorder |
| NAryTrees.AddChildKeepsPaths | src/bonus/n_ary_tree/n_ary_tree.hpp:109-115 | `addChild` adds exactly one place; every place there was keeps its value and its function |
| NAryTrees.NewPathLeadsToLeaf | src/bonus/n_ary_tree/n_ary_tree.hpp:109-115 | the place returned was not there before and now holds the new value without children |
| NAryTrees.PathsStayGood | src/bonus/n_ary_tree/n_ary_tree.hpp:109-115 | a node handed out earlier is still there with its value after any further `addChild` calls |
| NAryTrees.PostorderIsMirroredPreorder | src/bonus/n_ary_tree/n_ary_tree.hpp:189-198 | postorder is the reverse of the preorder of the mirrored tree |
| NAryTrees.ComputeIgnoresBelowPlainNodes | src/bonus/n_ary_tree/n_ary_tree.hpp:200-214 | `postorderCompute` cannot see anything below a node without a function |
| NAryTrees.ComputeOneLevel | src/bonus/n_ary_tree/n_ary_tree.hpp:200-214 | a node with a function gives it its children's values in child order; one without gives its own value |
| NAryTrees.SameResultSameWhole | src/bonus/n_ary_tree/n_ary_tree.hpp:200-214 | a subtree may be replaced anywhere by any other with the same result |
| NAryTrees.CollapseKeepsResult | src/bonus/n_ary_tree/n_ary_tree.hpp:200-214 | in particular by a single node that holds its result |
| NAryTrees.SumsAreTotals | src/bonus/n_ary_tree/n_ary_tree.hpp:62-87 | in a tree whose inner nodes sum, the result is the total of the leaves, whatever its shape |
| NAryTrees.PreorderInto | src/bonus/n_ary_tree/n_ary_tree.hpp:151-158 | the recursive loop appends the preorder to the result vector |
| NAryTrees.PostorderInto | src/bonus/n_ary_tree/n_ary_tree.hpp:189-198 | the recursive loop appends the postorder |
| NAryTrees.PostorderCompute | src/bonus/n_ary_tree/n_ary_tree.hpp:200-214 | the recursive fold gives the computed value |
| NAryTrees.NAryTree.SetRoot | src/bonus/n_ary_tree/n_ary_tree.hpp:97-102 | only the first root is kept |
| NAryTrees.NAryTree.AddChildAt | src/bonus/n_ary_tree/n_ary_tree.hpp:109-115 | adds the child and returns where it is; a missing parent is refused |
| NAryTrees.NAryTree.PreorderValues | src/bonus/n_ary_tree/n_ary_tree.hpp:144-149 | values of the whole tree, nothing for an empty tree |
| NAryTrees.NAryTree.PostorderValues | src/bonus/n_ary_tree/n_ary_tree.hpp:182-187 | values of the whole tree, nothing for an empty tree |
| Mementos.ChainCursorExact | src/design_patterns/memento/memento.hpp:67-77 | a successful chain leaves its snapshot's cursor behind all its fields if and only if all fields but the last are strings |
| Mementos.NamedCursorReads | src/design_patterns/memento/memento.hpp:67-77 | successful or not, a chain leaves its snapshot where reading the strings at its front and one more field leaves a cursor |
| Mementos.TwoFixedFieldsReadAgain | src/design_patterns/memento/memento.hpp:67-77 | concrete input: after a chain of two fixed fields a further read returns the second again |
| Mementos.Snapshot.WriteAll | src/design_patterns/memento/memento.cpp:22-28 | a chain of `<<` appends the encodings |
| Mementos.Snapshot.ReadFixed | src/design_patterns/memento/memento.hpp:67-77 | advances the snapshot and returns a copy of it |
| Mementos.Snapshot.ReadText | src/design_patterns/memento/memento.cpp:30-41 | string `>>` on the snapshot itself |
| Mementos.Snapshot.Chain | src/design_patterns/memento/memento.hpp:67-80 | reading through the returned copies yields the same fields as one cursor; where the named snapshot's cursor stops |
| Mementos.Snapshot.Reset | src/design_patterns/memento/memento.cpp:10-13 | rewinds the cursor |
| Mementos.Save | src/design_patterns/memento/memento.cpp:3-8 | a snapshot of exactly the saved fields |
| Mementos.Load | src/design_patterns/memento/memento.cpp:15-20 | reads from the beginning of a copy and leaves the snapshot alone |
| Mementos.SaveAndRestoreTwice | tests/my_google_test/test_memento.cpp:56-80 | loading a saved object restores it, and again |
| LineStreams.LinesConserve | src/thread/thread_safe_iostream/thread_safe_iostream.hpp:75-85 | the loop prints exactly the collected text |
| LineStreams.LinesMark | src/thread/thread_safe_iostream/thread_safe_iostream.hpp:75-80 | with one prefix per newline |
| LineStreams.StepConserves | src/thread/thread_safe_iostream/thread_safe_iostream.hpp:62-87 | one insertion: printed text plus buffer is what was there plus what came, and no newline stays buffered |
| LineStreams.NothingLost | src/thread/thread_safe_iostream/thread_safe_iostream.hpp:62-87 | the same over every sequence of insertions, manipulators and prefix changes |
| LineStreams.PrefixedExactlyWhenClean | src/thread/thread_safe_iostream/thread_safe_iostream.hpp:14-21 | on one stream every console line has exactly one prefix if and only if every insertion that completes a line ends in a newline and every manipulator completes a begun line or prints nothing |
| LineStreams.OnePrefixThroughout | src/thread/thread_safe_iostream/thread_safe_iostream.hpp:75-80 | while the prefix is not changed, everything printed behind a prefix has that one |
| LineStreams.MarksHoldLastPrefix | src/thread/thread_safe_iostream/thread_safe_iostream.cpp:6-29 | after any events, what the next one prints goes behind the prefix set last |
| LineStreams.DocumentedUse | src/thread/thread_safe_iostream/thread_safe_iostream.hpp:22-28 | a prefix, a text and `std::endl` print the text as one line behind that prefix |
| LineStreams.InterleavingExactly | src/thread/thread_safe_iostream/thread_safe_iostream.hpp:14-21 | under any interleaving of any threads the console shows whole lines, each behind the prefix its own thread has set last, if and only if every thread's calls are clean by themselves |
| LineStreams.EveryMarkIsDue | src/thread/thread_safe_iostream/thread_safe_iostream.cpp:6-29 | under any interleaving, clean or not, every prefix on the console is the one its thread has set last, told by that thread's calls alone |
| LineStreams.ThreadsIndependent | src/thread/thread_safe_iostream/thread_safe_iostream.hpp:102-102 | what one thread prints is what its own calls print, whatever the others do in between |
| LineStreams.ScheduleIrrelevant | src/thread/thread_safe_iostream/thread_safe_iostream.hpp:13-19 | two schedules of the same calls of each thread give each thread the same output, and whole lines both or neither |
| LineStreams.EndlAndFlush | src/thread/thread_safe_iostream/thread_safe_iostream.cpp:12-29 | `std::endl` is clean exactly on a begun line, `std::flush` exactly on an empty buffer |
| LineStreams.TailLosesItsPrefix | src/thread/thread_safe_iostream/thread_safe_iostream.hpp:84-85 | inputs on which a line has no prefix and a prefix stands inside a line |
| LineStreams.ThreadSafeIOStream.Insert | src/thread/thread_safe_iostream/thread_safe_iostream.hpp:62-87 | what one `<<` prints and leaves buffered |
| LineStreams.ThreadSafeIOStream.PrintLines | src/thread/thread_safe_iostream/thread_safe_iostream.hpp:75-85 | the `pos`/`cursor` loop prints the lines and the tail |
| LineStreams.ThreadSafeIOStream.Manipulate | src/thread/thread_safe_iostream/thread_safe_iostream.cpp:12-29 | any manipulator: flushes behind a prefix if anything is buffered, then prints its own text |
| LineStreams.ThreadSafeIOStream.Play | src/thread/thread_safe_iostream/thread_safe_iostream.hpp:30-100 | any sequence of calls prints what the specification prints |
| LineStreams.ThreadSafeIOStream.SetPrefix | src/thread/thread_safe_iostream/thread_safe_iostream.cpp:6-10 | later lines use the new prefix |

## Left out

- Sockets, `select`, `connect`, `bind`, `errno` and send results are inputs of the methods (chunks, descriptors, how a loop ended); `sendTo`, `sendToAll` and `sendToArray` are not modelled.
- Past a copy that leaves its buffer the language promises nothing; the model reports it and stops there. The `data()` of an empty vector is taken to be null, as in the mainstream standard libraries.
- Vectors are shorter than 2^63 bytes, which every C++ vector is; the methods that grow a buffer require it.
- Byte order is fixed to little-endian and `int`/`size_t` to 4 and 8 bytes.
- Clients.Client.RunActions: records which action is started with which message, not what it reads from it, because an action is foreign code; one that throws after reading may leave the message's cursor moved.
- Servers.Server.AcceptNewConnection: takes `accept` to return an unused descriptor above 2, because descriptors are handed out by the operating system; descriptors beyond `FD_SETSIZE` are not modelled.
- Servers.Server.RunTasks: takes tasks that return and do not call back into the server, because a task is foreign code.
- Servers.Server.DecodeChunk: keeps partial buffers as byte sequences in the map and decodes in a fresh `Message`, because the source clears the buffer after every chunk and no object survives.
- The two thread classes are step systems over values, not objects with locks: what a mutex makes atomic is one step, the unlocked read of `_stop` is atomic, jobs of the pool return, and tasks run to completion in the step that starts them.
- PersistentWorkers.AddedTaskRuns: counts worker steps with an unchanged task table, because tasks added meanwhile lengthen the next pass by any amount; StartedWithinTwoPasses covers arbitrary interference, counting passes.
- Float rounding, `cos`/`sin` and the seeded hash: sample is over exact reals with an arbitrary unit vector per lattice point or per key.
- Pools.Pool.Resize: does not model copied `Object` handles, because a handle is the index of its slot here.
- Pools.Pool.Destroy: does not model the releases made by the `Object` destructors afterwards, because they only push indices on a stack that is about to vanish.
- NAryTrees.NAryTree.AddChildAt: addresses a node by its path of child indices instead of a pointer, so aliasing of nodes is not captured; the `std::function` traversals visit the same values and are not repeated.
- Mementos.Snapshot.ReadText: does not tell `std::runtime_error` from `std::out_of_range`, because both leave the same state.
- LineStreams.ThreadSafeIOStream.Insert: keeps what this stream prints in a field of its own; the console shared by several threads is modelled on values, one step per call, because a call prints under one lock. Input and prompts are left out.
- Logger, Chronometre, Thread, Singleton, Observer, ObservableValue, StateMachine, ThreadSafeQueue and the vector classes beyond the dot product: only easy members or clocks and files.
