# Kitex transport core, modelled in Dafny

This project models four sequential cores of the Kitex RPC framework's transport layer and proves their properties.

- **Sharded write queue** (`sharedQueue`, netpollmux). Producers call `Add` to hand buffer getters to one of `size` shards, chosen round-robin. The first getter of an empty shard records the shard on a ring worklist of `size + 1` slots (`Trigger`) and counts a trigger. A single drain pass (`ForEach`) walks the worklist in ring order. For each shard it:
  - takes the shard's getters;
  - invokes them in order;
  - appends each non-nil buffer to the connection writer.

  The pass flushes once at the end. A failing append or flush closes the connection. The model is a state machine over an immutable `Queue`:
  - the drain goroutine is a `Task` field (`Idle`, `Starting`, `Looping(ntr, posntr)`), advanced by `Start`, `Step` and `Finish`;
  - the writer is a trace of appended buffers with a failure oracle (the k-th append or flush fails when k is in a given set).

  The ring invariant (`SharedQueueRing.Inv`) ties the unread worklist entries to the non-empty shards and to the trigger count. It is preserved by every transition, and `SharedQueueRing.Drain` runs a whole pass.
- **Receive buffer** (`recvBuffer`, nphttp2/grpc). A channel of capacity one (`slot`) plus a FIFO backlog, with a sticky terminal error. Over any interleaving of puts, channel receives and `load` calls, the reader obtains the accepted prefix of what was put, in order. The accepted prefix ends with the first error.
- **Stream readers** (`recvBufferReader`, `transportReader`, `Stream`).
  - The buffered reader gathers chunks into `last` until a request can be served, and caches the first error. Each blocking `select` takes its decision from an explicit schedule.
  - The flow-control reader records one window update per successful read.
  - The stream facade records one read request per call, and short-circuits once the transport reader holds an error.
- **gRPC framing** (`grpcCodec`). The Length-Prefixed-Message of gRPC over HTTP/2 ("Requests" section of the gRPC HTTP/2 protocol description):
  - a zero flag byte;
  - a four-byte big-endian length;
  - the payload.

  `Encode` writes the payload before the header. `Decode` reads exactly one frame.

Files:
- `common.dfy`: bytes, `Option`, `Result`, `Outcome`, errors.
- `shared_queue.dfy` and `shared_queue_ring.dfy`: the write queue, its ring invariant and the drain.
- `recv_buffer.dfy`, `recv_buffer_reader.dfy`, `transport_reader.dfy` and `stream.dfy`: the read side.
- `grpc_codec.dfy`: the framing.

A failing append does not end the pass. `deal` returns to the drain loop, which goes on with the next shards (pkg/remote/trans/netpollmux/shared_queue.go:147-153, 200-202). `Deal` reports the failure and closes the connection, and `Step` then continues as usual.

`transport_reader.go` also carries second copies of the `recvBufferReader` and `Stream` methods, which would not compile alongside `recv_buffer.go` and `stream.go`. The model follows `recv_buffer.go`, whose `Release` and `Len` guard against a nil `last`, and `stream.go`. It takes only the `transportReader` methods from `transport_reader.go`.

## Model

| member | source | states |
|---|---|---|
| `SharedQueue.NewQueue` | pkg/remote/trans/netpollmux/shared_queue.go:42-62 | a new queue has `size` empty shards, a worklist of `size + 1` slots, and all counters and ring indices at zero; it is well formed whenever `size > 0` |
| `SharedQueue.ShardOf` | pkg/remote/trans/netpollmux/shared_queue.go:102 | the shard picked from the round-robin counter always lies in `[0, size)` |
| `SharedQueue.Add` | pkg/remote/trans/netpollmux/shared_queue.go:99-110 | the counter advances modulo 2^32, and only the shard it picks changes, gaining the new getters at its end in argument order; `Trigger` runs exactly when that shard was empty before; otherwise the worklist, run flag and drain task are untouched |
| `SharedQueue.Trigger` | pkg/remote/trans/netpollmux/shared_queue.go:112-124 | `w` advances to `(w + 1) % (size + 1)`, the shard is stored at the new `w` and nowhere else, `trigger` goes up by one, and `ForEach` runs only when the trigger count was 0 before |
| `SharedQueue.ForEach` | pkg/remote/trans/netpollmux/shared_queue.go:126-131 | the run counter always goes up by one; a drain is started only if none was running (counter was 0); otherwise nothing else changes |
| `SharedQueue.DealGetters` | pkg/remote/trans/netpollmux/shared_queue.go:196-205 | the loop of `deal` invokes at most the getters it is given and changes nothing about the writer but its appended buffers and its append-call count |
| `SharedQueue.DealGettersAppends` | pkg/remote/trans/netpollmux/shared_queue.go:191-206 | getters are invoked in order and only non-nil buffers are appended, in order; without a failure all getters are invoked; with one, the failing getter is the last invoked and none after it is |
| `SharedQueue.DealGettersCalls` | pkg/remote/trans/netpollmux/shared_queue.go:196-203 | one append call per non-nil buffer of the invoked getters; among those calls only the last can fail, and it does exactly when the deal reports a failure |
| `SharedQueue.Deal` | pkg/remote/trans/netpollmux/shared_queue.go:191-206 | the getters invoked are a prefix of the list; on success all of them, with every non-nil buffer appended; on failure the connection is closed and the failing append is the last call |
| `SharedQueue.Flush` | pkg/remote/trans/netpollmux/shared_queue.go:208-215 | exactly one flush call; nothing appended; the connection is closed exactly when that call fails; a successful flush covers everything appended |
| `SharedQueue.Start` | pkg/remote/trans/netpollmux/shared_queue.go:131-134 | the drain begins with `ntr` equal to the current trigger count and `posntr` 0, changing nothing else |
| `SharedQueue.NextRead` | pkg/remote/trans/netpollmux/shared_queue.go:136-137 | the shard read next is the worklist entry after `r`, in ring order, and is a valid shard |
| `SharedQueue.Step` | pkg/remote/trans/netpollmux/shared_queue.go:134-153 | `r` advances one slot; the shard read there is emptied and nothing else about the shards changes; its former getters are dealt: while the connection stays open (always, when appends cannot fail) all of them are invoked and exactly their non-nil buffers are appended to the writer, in order; a connection once closed stays closed, and it is newly closed only by a failing append; `posntr` drops by one, and when `ntr + posntr` reaches 0 the trigger count is reduced by the shards dealt and `ntr` reloaded |
| `SharedQueue.Finish` | pkg/remote/trans/netpollmux/shared_queue.go:155-187 | one flush, which appends nothing, covers every buffer appended when it succeeds and closes the connection when it fails; then the run counter is reset; if triggers arrived meanwhile the drain is re-entered (counter 1, task starting), otherwise the queue goes idle; the round-robin counter, the shards, the worklist and the writer's failure behaviour are untouched |
| `SharedQueue.WrapInt32` | pkg/remote/trans/netpollmux/shared_queue.go:102 | Go `int32` arithmetic: the result is in the signed 32-bit range and congruent to the exact value modulo 2^32 |
| `SharedQueue.GoRem` | pkg/remote/trans/netpollmux/shared_queue.go:102 | Go's `%`: agrees with the mathematical remainder for non-negative operands and lies strictly between `-b` and `b` |
| `SharedQueue.ShardAsWritten` | pkg/remote/trans/netpollmux/shared_queue.go:102 | the shard as the code computes it on a signed counter is negative exactly when the wrapped counter is negative and not a multiple of `size` |
| `SharedQueue.ShardAsWrittenAgreesBeforeWrap` | pkg/remote/trans/netpollmux/shared_queue.go:102 | until the signed counter wraps, the code's shard equals the model's |
| `SharedQueue.ShardAsWrittenGoesNegative` | pkg/remote/trans/netpollmux/shared_queue.go:102 | after 2^31 - 1 additions with three shards the code computes shard -2, where the unsigned counter gives shard 2 |
| `SharedQueueRing.TriggerWindow` | pkg/remote/trans/netpollmux/shared_queue.go:116-117 | while the ring has room, a trigger appends its shard to the unread part of the worklist and leaves the earlier unread entries in place |
| `SharedQueueRing.StepWindow` | pkg/remote/trans/netpollmux/shared_queue.go:136-137 | the drain reads the oldest unread worklist entry and the rest stay unread in order |
| `SharedQueueRing.NewQueueInv` | pkg/remote/trans/netpollmux/shared_queue.go:42-62 | a new queue satisfies the ring invariant |
| `SharedQueueRing.AddInv` | pkg/remote/trans/netpollmux/shared_queue.go:99-124 | an `Add` of at least one getter keeps the ring invariant, and the unread worklist gains the shard exactly when the shard was empty |
| `SharedQueueRing.StartInv` | pkg/remote/trans/netpollmux/shared_queue.go:131-134 | starting the drain keeps the ring invariant |
| `SharedQueueRing.StepInv` | pkg/remote/trans/netpollmux/shared_queue.go:134-153 | every drain step keeps the ring invariant |
| `SharedQueueRing.FinishInv` | pkg/remote/trans/netpollmux/shared_queue.go:155-187 | ending the pass, including re-entry, keeps the ring invariant |
| `SharedQueueRing.RingBound` | pkg/remote/trans/netpollmux/shared_queue.go:114-118 | unread worklist entries never exceed `size`, so a ring of `size + 1` slots never overwrites an unread entry; they equal the outstanding triggers; an idle queue has none (no lost wake-up) |
| `SharedQueueRing.EmptyAddBreaksInv` | pkg/remote/trans/netpollmux/shared_queue.go:104-109 | an `Add` of no getters to an empty shard records the shard while it stays empty, which breaks the ring invariant |
| `SharedQueueRing.DrainStep` | pkg/remote/trans/netpollmux/shared_queue.go:134-153 | one loop iteration keeps the drain's progress invariant: processed shards are a prefix of the initial unread worklist, emptied, and dealt in order |
| `SharedQueueRing.Drain` | pkg/remote/trans/netpollmux/shared_queue.go:127-189 | a pass without interleaved `Add` reads exactly `trigger` entries in ring order from `r + 1`, empties every shard, ends with `trigger = 0`, `r = w`, one flush and the queue idle; unless the connection ended up closed (always, when appends cannot fail), every listed shard's getters are invoked in worklist order and exactly their non-nil buffers reach the writer in that order, and the flush, when it succeeds, covers all of them; the round-robin counter, the shard count, the write cursor and the writer's failure behaviour are what they were, so a later `Add` picks the same shard it would have |
| `RecvBuffer.NewBuffer` | pkg/remote/trans/nphttp2/grpc/recv_buffer.go:34-39 | a new buffer holds nothing and has no error |
| `RecvBuffer.Put` | pkg/remote/trans/nphttp2/grpc/recv_buffer.go:41-60 | after an error nothing changes; otherwise the message joins the end of the queue and its error becomes the buffer's; it goes into the channel only if both channel and backlog are empty |
| `RecvBuffer.Load` | pkg/remote/trans/nphttp2/grpc/recv_buffer.go:62-73 | the backlog head moves into an empty channel, otherwise nothing changes; the queued order is unchanged either way |
| `RecvBuffer.Receive` | pkg/remote/trans/nphttp2/grpc/recv_buffer.go:79-81 | a receive takes the head of the queue, leaving the rest in order, and would block exactly when the channel is empty |
| `RecvBuffer.NewBufferSound` | pkg/remote/trans/nphttp2/grpc/recv_buffer.go:34-39 | a new buffer satisfies both buffer disciplines |
| `RecvBuffer.PutKeeps` | pkg/remote/trans/nphttp2/grpc/recv_buffer.go:41-60 | `put` keeps both disciplines: an error message can only be the last one queued and is the buffer's error, and the channel is empty only when the backlog is |
| `RecvBuffer.ReceiveLoadKeeps` | pkg/remote/trans/nphttp2/grpc/recv_buffer.go:62-73 | a receive followed by `load` keeps both disciplines and blocks exactly when nothing is queued |
| `RecvBuffer.AcceptedShape` | pkg/remote/trans/nphttp2/grpc/recv_buffer.go:43-49 | the accepted messages are a prefix of those put, and only the last can carry an error |
| `RecvBuffer.RunDelivers` | pkg/remote/trans/nphttp2/grpc/recv_buffer.go:41-81 | for any interleaving of puts, channel receives and `load` calls (a put may fall between a receive and its `load`), what was received followed by what is still queued equals what was queued before followed by the accepted prefix of what was put |
| `RecvBuffer.FreshRunDelivers` | pkg/remote/trans/nphttp2/grpc/recv_buffer.go:34-81 | from a new buffer, over any interleaving of puts, receives and loads, the reader sees the puts up to and including the first error, in order |
| `RecvBufferReader.NewReader` | pkg/remote/trans/nphttp2/grpc/recv_buffer.go:87-94 | a reader starts with nothing readable and no error |
| `RecvBufferReader.FillAdditional` | pkg/remote/trans/nphttp2/grpc/recv_buffer.go:223-233 | calls `load`; an error message adds no bytes and returns its error; data extends the readable bytes at their end, `last` being created on first use |
| `RecvBufferReader.ReceiveInto` | pkg/remote/trans/nphttp2/grpc/recv_buffer.go:191-192 | blocks exactly when the channel is empty; otherwise the outcome is the head message's error, or success for data |
| `RecvBufferReader.Fill` | pkg/remote/trans/nphttp2/grpc/recv_buffer.go:187-194 | server side: a cancelled context returns the context error at once, touching nothing |
| `RecvBufferReader.FillClient` | pkg/remote/trans/nphttp2/grpc/recv_buffer.go:196-221 | client side: a cancelled context puts the context error at the end of the buffer and then receives from the head |
| `RecvBufferReader.Check` | pkg/remote/trans/nphttp2/grpc/recv_buffer.go:170-185 | a cached error is returned at once; success means `last` exists and holds at least `n` bytes (even for `n = 0`); a fill error becomes the cached error |
| `RecvBufferReader.FillLoop` | pkg/remote/trans/nphttp2/grpc/recv_buffer.go:174-183 | the loop of `check` ends with `n` bytes ready, or with the first fill error cached |
| `RecvBufferReader.FillOnceConserves` | pkg/remote/trans/nphttp2/grpc/recv_buffer.go:187-233 | a fill neither creates nor loses bytes: readable plus queued data is unchanged, and the buffer disciplines hold |
| `RecvBufferReader.ReceiveIntoConserves` | pkg/remote/trans/nphttp2/grpc/recv_buffer.go:223-233 | receiving into the reader moves bytes from the queue to `last` without loss or reordering |
| `RecvBufferReader.CheckConserves` | pkg/remote/trans/nphttp2/grpc/recv_buffer.go:170-185 | `check` conserves bytes and the buffer disciplines, whatever it returns |
| `RecvBufferReader.Read` | pkg/remote/trans/nphttp2/grpc/recv_buffer.go:96-154 | each read runs `check` on its size (1 for `ReadByte`) and fails with its error; on success it yields the first `n` readable bytes (nothing for `Skip`) and consumes them, except `Peek` |
| `RecvBufferReader.ReadConserves` | pkg/remote/trans/nphttp2/grpc/recv_buffer.go:96-154 | what a read hands out followed by what is still pending equals what was pending before: no byte is lost, duplicated or reordered |
| `RecvBufferReader.Release` | pkg/remote/trans/nphttp2/grpc/recv_buffer.go:156-161 | release returns nil, also on a reader without data, and changes nothing that can be read |
| `RecvBufferReader.Len` | pkg/remote/trans/nphttp2/grpc/recv_buffer.go:163-168 | 0 while `last` is nil, otherwise the number of readable bytes held |
| `RecvBufferReader.CheckArrivedSucceeds` | pkg/remote/trans/nphttp2/grpc/recv_buffer.go:170-194 | once the bytes a request needs have arrived, in any number of chunks and even with an error queued behind them, `check` succeeds after one channel receive per chunk |
| `RecvBufferReader.ReadArrivedSucceeds` | pkg/remote/trans/nphttp2/grpc/recv_buffer.go:96-154 | a read whose bytes have all arrived succeeds, wherever the chunk boundaries fall, and hands out exactly the first `n` pending bytes |
| `RecvBufferReader.CheckShortFails` | pkg/remote/trans/nphttp2/grpc/recv_buffer.go:170-233 | when fewer bytes are pending than requested and the queue ends with an error, `check` takes in the data and fails with that error, which the reader remembers |
| `RecvBufferReader.ReadShortFails` | pkg/remote/trans/nphttp2/grpc/recv_buffer.go:96-233 | a read asking for more than arrives before the queued error fails with that error and loses no byte |
| `RecvBufferReader.ReadFailureSticks` | pkg/remote/trans/nphttp2/grpc/recv_buffer.go:170-173 | after a failed read every later read fails with the same error and changes nothing |
| `RecvBufferReader.ClientCancelDeliversDataFirst` | pkg/remote/trans/nphttp2/grpc/recv_buffer.go:196-221 | a client cancelled while data is queued still receives the head data, and the context error waits behind the rest of the queue |
| `RecvBufferReader.ServerCancelFailsAtOnce` | pkg/remote/trans/nphttp2/grpc/recv_buffer.go:187-190 | a server cancelled while waiting returns the context error and caches it |
| `RecvBufferReader.TwoChunksScenario` | pkg/remote/trans/nphttp2/grpc/recv_buffer.go:96-102 | chunks of 2 and 4 bytes and a `Next(5)`: two fills, the first five bytes returned, the sixth left readable |
| `TransportReader.Read` | pkg/remote/trans/nphttp2/grpc/transport_reader.go:96-168 | success reports one window update of the requested size (1 for `ReadByte`) and leaves `er`; an error is stored in `er` and reports nothing; the value and error are the wrapped reader's |
| `TransportReader.Release` | pkg/remote/trans/nphttp2/grpc/transport_reader.go:170-172 | passes through, with no window update and `er` untouched |
| `TransportReader.Len` | pkg/remote/trans/nphttp2/grpc/transport_reader.go:174-176 | passes through to the wrapped reader's count of held bytes |
| `TransportReader.SuccessfulRunTrace` | pkg/remote/trans/nphttp2/grpc/transport_reader.go:96-168 | successful reads of sizes n1 ... nk add exactly n1 ... nk to the window-update trace, in order |
| `TransportReader.RunTraceCountsSuccesses` | pkg/remote/trans/nphttp2/grpc/transport_reader.go:96-168 | over any run the trace only grows, by exactly one entry per successful read |
| `Stream.Read` | pkg/remote/trans/nphttp2/grpc/stream.go:9-74 | with an error cached in the transport reader the call returns it and changes nothing; otherwise a read of the call's size is requested and the call is delegated |
| `Stream.Release` | pkg/remote/trans/nphttp2/grpc/stream.go:76-78 | delegates without checking the error or requesting a read |
| `Stream.Len` | pkg/remote/trans/nphttp2/grpc/stream.go:80-82 | delegates without checking the error, reporting the bytes held |
| `Stream.RequestMatchesUpdate` | pkg/remote/trans/nphttp2/grpc/stream.go:14-15 | each read requests exactly the size that a successful read then credits to the window; a failed read requests but credits nothing |
| `Stream.ReadByteRequestsOne` | pkg/remote/trans/nphttp2/grpc/stream.go:58-65 | `ReadByte` requests exactly one byte |
| `Stream.FailureSticks` | pkg/remote/trans/nphttp2/grpc/stream.go:9-13 | once a read fails, every later read returns the same error without requesting anything |
| `Stream.RequestsStopAtFailure` | pkg/remote/trans/nphttp2/grpc/stream.go:9-16 | over any run, the requests are those of the calls up to and including the first failing one |
| `Stream.DeadRunIsSilent` | pkg/remote/trans/nphttp2/grpc/stream.go:9-13 | a stream holding an error ignores every call |
| `GrpcCodec.EncodeUint32` | pkg/remote/codec/protobuf/grpc.go:86 | the length field is four bytes |
| `GrpcCodec.DecodeUint32` | pkg/remote/codec/protobuf/grpc.go:95 | the value read from four bytes is below 2^32 |
| `GrpcCodec.DecodeEncodeUint32` | pkg/remote/codec/protobuf/grpc.go:86-95 | decoding an encoded length gives it back, for every length below 2^32 |
| `GrpcCodec.EncodeDecodeUint32` | pkg/remote/codec/protobuf/grpc.go:86-95 | encoding a decoded length gives back the four bytes |
| `GrpcCodec.Header` | pkg/remote/codec/protobuf/grpc.go:86 | the header is five bytes: flag 0, then `uint32(len(data))` big-endian |
| `GrpcCodec.Payload` | pkg/remote/codec/protobuf/grpc.go:55-82 | a fast writer yields its bytes, a serializer its bytes or error, an unrecognised value no bytes |
| `GrpcCodec.Encode` | pkg/remote/codec/protobuf/grpc.go:48-88 | a non-frame buffer is refused with nothing written; a serializer error is returned with nothing written; a failed payload write writes no header; otherwise the payload is written, then its header, and the header write's error is returned; a write that fails records no frame |
| `GrpcCodec.Next` | pkg/remote/codec/protobuf/grpc.go:91-96 | reading `n` bytes takes exactly the next `n`, or fails with EOF consuming nothing |
| `GrpcCodec.Decode` | pkg/remote/codec/protobuf/grpc.go:90-113 | consumes exactly five header bytes and then exactly the announced number of bytes, ignoring the flag byte; short input returns EOF; the payload goes to the deserializer, whose verdict is returned |
| `GrpcCodec.RoundTrip` | pkg/remote/codec/protobuf/grpc.go:48-113 | an encoded payload below 2^32 bytes, framed header first, decodes to exactly that payload and leaves the following bytes unread |
| `GrpcCodec.DecodeConsumesOneFrame` | pkg/remote/codec/protobuf/grpc.go:90-99 | decoded input splits into header, payload and rest, and the header is the canonical one exactly when its flag byte is 0 |
| `GrpcCodec.UnrecognisedEncodesEmptyFrame` | pkg/remote/codec/protobuf/grpc.go:55-86 | a message of no recognised kind is encoded as an empty payload under a zero-length header |
| `GrpcCodec.HeaderWrapsAt4GiB` | pkg/remote/codec/protobuf/grpc.go:86 | the length field truncates to 32 bits, so payloads of 2^32 bytes or more announce the wrong length |
| `GrpcCodec.EncodeAsWritten` | pkg/remote/codec/protobuf/grpc.go:56-60 | the code as written panics exactly on fast-written payloads shorter than nine bytes, and otherwise behaves as `Encode` |
| `GrpcCodec.ShortFastWritePanics` | pkg/remote/codec/protobuf/grpc.go:56-60 | a three-byte fast-written message panics as written, where the framing alone writes a correct frame |

## Left out

- Goroutines, atomics, the per-shard CAS locks (`Lock`, `Unlock`, the unused `trylock`) and the mutexes are left out. The model executes one transition at a time. The invariant lemmas hold for any interleaving of whole transitions; races inside a transition are not modelled.
- The once-a-second debug ticker (`debugs.refresh`) is left out: it only prints counters.
- The `swap` slice that reuses a shard's storage is left out. It affects allocation only.
- Closing the connection is modelled as a `closed` flag. The connection's own behaviour after `Close` is not part of this model.
- `Add` on a queue of size 0 divides by zero in Go. The model's `Add` requires a well-formed queue, which has at least one shard.
- `SharedQueueRing.AddInv` needs at least one getter: an `Add` with none breaks the ring bound (`SharedQueueRing.EmptyAddBreaksInv`).
- SharedQueueRing.Drain: states the exact invoked getters and appended buffers only when the connection is still open at the end of the pass. The connection is always still open when appends cannot fail. Once a failing append has closed it, the pass only states that the invoked getters extend the earlier ones; `Deal` states the per-shard prefix. The code goes on writing to the closed connection, and what that connection then accepts is outside this model.
- SharedQueue.Step: states the dealt getters and appended buffers exactly only when the connection is open after the step. Otherwise it states a prefix of the getters and that the last append failed.
- `Until` panics in every layer (`recvBufferReader`, `transportReader`, `Stream`), so it is left out.
- netpoll's `LinkBuffer` internals are left out. The model treats the buffer as a byte sequence, and these are not modelled:
  - the error `Append` could return in `fillAdditional`;
  - the memory `Release` frees;
  - negative sizes passed to the read calls (sizes are `nat`).
- Blocking is left out. A `select` takes its case from a schedule, and a receive on an empty channel ends the call as `Blocked`. Time and the context's own state are not modelled.
- `closeStream` is modelled only as the `put` of the context error that it performs on the receive buffer. Its effects on the rest of the transport stream are not part of this model.
- Protobuf serialisation (`FastWrite`, `MarshalTo`, `XXX_Marshal`, `proto.Marshal`, the `Unmarshal` family, `bprotoc.Binary.ReadMessage`) is left out. It is represented by the bytes or error it produces and the verdict it returns.
- The input buffer of `Decode` is a finite byte sequence whose `Next` fails with EOF when short. A connection-backed buffer that waits for more data is not modelled.
- `Name()`, `NewGRPCCodec`, client_conn.go, server_conn.go and the bprotoc interface declarations are not part of this model. They are adapters and signatures without logic of their own.

## Findings

| source | as written | input that shows it | evidently intended | confidence | as-written member | corrected member |
|---|---|---|---|---|---|---|
| pkg/remote/trans/netpollmux/shared_queue.go:102 | the shard is `atomic.AddInt32(&q.idx, 1) % q.size` on a signed 32-bit counter, so after 2^31 - 1 additions the counter wraps negative and Go's `%` yields a negative shard, an out-of-range index | `idx = 2^31 - 1`, `size = 3`: the next `Add` computes shard -2 | a shard in `[0, size)` forever, as from an unsigned counter (`(idx + 1) mod 2^32 mod size`) | high; not executed | `SharedQueue.ShardAsWritten`, `SharedQueue.ShardAsWrittenGoesNegative` | `SharedQueue.Add` |
| pkg/remote/codec/protobuf/grpc.go:60 | after a fast write, the debug print slices `data[:9]` of a buffer whose capacity is the message size, which panics for messages shorter than nine bytes | a fast-written message of three bytes | frame the payload without the debug print | high; not executed | `GrpcCodec.EncodeAsWritten`, `GrpcCodec.ShortFastWritePanics` | `GrpcCodec.Encode` |
