# A verified model of the near-data-processing prototypes

This project models, in Dafny 4.11, the parts of the repository that carry its hardest
guarantees, and proves them. `dafny verify dfyconfig.toml` checks the whole project.

1. **The bolt message protocol** (`Wire`, `Messages`, `Reader`, `Chunking`, `Framing`,
   `Conservation`, `Bolt`, `Format`). A header and a body are MessagePack; a reader accumulates whatever
   chunks the socket yields, parses a header as soon as one is whole and returns the next message. The reader is compared
   with a reference parser that sees the whole stream. The result is exact: all ways of cutting
   a stream into chunks are read alike *if and only if* no body takes more bytes than its header
   announced (or than earlier headers have already drawn in). Frames written by bolt meet this
   exactly while a body stays below 2^32 bytes.
2. **The page store** (`PageServer`, `Replies`, `ByteCopies`, `Tearing`, `PageSpec`,
   `Isolation`). Any number of connections share one arena; Alloc holds the lock exclusively,
   Read and Write only share it, and copies go byte by byte. For arbitrary clients: the lock is
   exact, pages never shrink, every byte is the one last stored. For clients that send whole
   requests and name any pages they like: no handler panics, and every request gets one reply,
   in order, that fits it as it was executed. For clients that name only their own pages (or a
   client that is alone): every interleaving, on bytes, is a private sequential store per
   connection.
3. **The throughput clients** (`Throughput`, `Session`, `Completion`, `Service`). No read-back check fails,
   no run goes on for ever, every run can be continued until each client has finished with its
   buffer on its own page, and a run that can go no further has got there.
4. **The page-fault call** (`FaultRpc`): two threads, step by step.
5. **Graphs, sorting, hashing, arithmetic** (`Dijkstra`, `Bfs`, `Sorting`, `Merkle`, `Bits`,
   `Arithmetic`).

Modelling notes.

- A socket is a byte sequence handed over in non-empty chunks that end in a close or an error.
- Decoders are passed around as function values (`Protocol`, `Link`, `Net`), as the program's
  reader is generic in its body type; `Service.BoltNetIsFaithful` puts bolt's own in.
- MessagePack is modelled for the formats bolt uses: unsigned integers, strings, binaries and
  array headers, a struct being an array of exactly its fields. Strings are byte strings.
  The bytes are produced by the rmp-serde crate, version 0.14.4, which is not part of the
  repository nor of this model: that `ErrorStatus` is written as a bare integer tag is a
  choice of the model, and so is refusing every spelling that bolt itself does not write.
- Integer widths are explicit: the 32-bit casts of lengths, the 64-bit sum in the range check,
  page rounding, the wrapping counters and sums.
- The request decoder has no arm for CALL, so an Invoke frame ends its connection
  (`Messages.InvokeIsRefused`, `Service.CallEndsConnection`).
- `nextnode` is read before it is assigned in some runs of the shortest-path program; the model
  returns `ok == false` there instead of continuing with an arbitrary value, and the contract
  says exactly when.
- The throughput client reads the reply to a write and does not look at it; so does the model's.
- The handlers' sum of offset and length wraps at 2^64, as in a release build; a debug build
  would stop there.
- The page size is any number that divides 2^64, as the program asks the system for it.
- BFS and the shortest-path program print as they go; the model returns what they print.

What turned out false, with its exact condition: chunk independence of the reader
(`Chunking.ReadAlikeIffHonest`, `Bolt.HonestIffNotUnderstated`, `Bolt.OversizedFrameDependsOnChunks`);
the range check of the handlers (`PageServer.RangeCheckExact`, `PageServer.WrappedRequests`);
atomicity of a read under a concurrent write (`Tearing.AtomicIffOneContested`,
`Tearing.AtomicIffOneShared`, with a run in `Service.TornReply`); use of an unassigned vertex
(`Dijkstra.Run`); a queue that never fills (`Bfs.Search`, computed from the adjacency lists by
`Bfs.Fills`, with a graph in `Bfs.StarFills`); calls without invalidation
(`FaultRpc.StaleAnswer`, `FaultRpc.StaleUnlessRepeated`, with a run in `FaultRpc.WrongAnswer`);
the block-count test at zero (`Merkle.AcceptedIffPowerOfTwo`); rounding at the top of the width
(`Arithmetic.CeilPow2`); signed overflow (`Arithmetic.FibSigned`). With negative weights the
shortest-path program can be wrong: `Dijkstra.NegativeWeightFails` has an input, and that no
weight is negative is shown to suffice.

## Model

| member | source | states |
|---|---|---|
| Wire.TokenRoundTrip | userfaultfd_rs/bolt/src/codec.rs:151-159 | decoding a token's encoding followed by any bytes gives the token and stops at its end (what the encoding is, byte by byte, is in Format) |
| Wire.DecodeTokenLocal | userfaultfd_rs/bolt/src/buffer.rs:43-59 | a successful decode depends only on the bytes it takes |
| Wire.OtherFormatsRefused | userfaultfd_rs/bolt/src/codec.rs:69-133 | in the model, no byte that MessagePack gives to a format bolt does not write starts an accepted token |
| Wire.EncodingIsShortest | userfaultfd_rs/bolt/src/codec.rs:151-159 | no byte string that decodes to a token is shorter than the one written |
| Wire.BigEndianRoundTrip | userfaultfd_rs/bolt/src/messages.rs:109-222 | multi-byte numbers survive encoding at every width that holds them |
| Wire.BigEndianDigit | userfaultfd_rs/bolt/src/codec.rs:151-159 | the i-th byte of a number is its i-th digit to the base 256, the most significant first |
| Delimited.ManyLocal | userfaultfd_rs/bolt/src/codec.rs:69-133 | a row of self-delimiting items is itself self-delimiting |
| Delimited.ManyRoundTrip | userfaultfd_rs/bolt/src/codec.rs:69-133 | a row of items is decoded back whatever follows it |
| Messages.HeaderRoundTrip | userfaultfd_rs/bolt/src/buffer.rs:43-59 | a header followed by anything decodes to itself and its exact length |
| Messages.DecodedIffHeader | userfaultfd_rs/bolt/src/buffer.rs:43-59 | in the model, a header is decoded exactly from an array of a text and a 32-bit length |
| Messages.HeaderPrefixFails | userfaultfd_rs/bolt/src/buffer.rs:43-59 | no strict prefix of a header decodes, so a retried parse never commits early |
| Messages.HeaderLocal | userfaultfd_rs/bolt/src/buffer.rs:43-59 | a header parse is not affected by what follows the header |
| Messages.BodyRoundTrip | userfaultfd_rs/bolt/src/codec.rs:69-133 | the decoder picked by a message's kind gives the message back and takes exactly its body |
| Messages.DecodedIffFields | userfaultfd_rs/bolt/src/codec.rs:69-133 | in the model, a body is decoded to a message exactly when the kind is its own and the tokens are its fields, none missing, added or of another type |
| Messages.DecodedIsOfSide | userfaultfd_rs/bolt/src/codec.rs:69-133 | whatever bytes and kind arrive, a request reader yields only Alloc, Read and Write and a response reader only the two successes and Err |
| Messages.BodyPrefixFails | userfaultfd_rs/bolt/src/codec.rs:69-133 | no strict prefix of a body decodes |
| Messages.BodyLocal | userfaultfd_rs/bolt/src/codec.rs:69-133 | a body decode is not affected by what follows the body |
| Messages.InvokeIsRefused | userfaultfd_rs/bolt/src/codec.rs:74-88 | a CALL frame has a readable header, and the request decoder refuses whatever body follows |
| Format.FrameBytes | userfaultfd_rs/bolt/src/codec.rs:148-165 | the frame of every message as literal MessagePack bytes: an array of the kind as text and the length of the body modulo 2^32, then the body |
| Format.BodyBytes | userfaultfd_rs/bolt/src/messages.rs:109-226 | the body of every message as literal bytes: an array of its fields in the order of the structs, error statuses as the tags 0, 1 and 2 the model gives them |
| Format.UnsignedBytes | userfaultfd_rs/bolt/src/messages.rs:109-226 | every unsigned integer as the literal bytes of the int format family, by range |
| Format.BlobBytes | userfaultfd_rs/bolt/src/messages.rs:120-199 | every blob behind the literal head of the bin format family |
| Format.TextBytes | userfaultfd_rs/bolt/src/codec.rs:41-45 | every text behind the literal head of the str format family |
| Format.KindIsName | userfaultfd_rs/bolt/src/lib.rs:20-28 | each kind spells its text |
| Reader.BufferContext.constructor | userfaultfd_rs/bolt/src/buffer.rs:20-26 | a new context is empty and without a header |
| Reader.BufferContext.ReadHeader | userfaultfd_rs/bolt/src/buffer.rs:43-59 | the header is taken off the buffer exactly when one can be parsed |
| Reader.BufferContext.TakeMessage | userfaultfd_rs/bolt/src/codec.rs:250-268 | the waiting body is decoded, the buffer advances by what was taken and the next header is tried; a refusal changes nothing |
| Reader.Socket.ReadBuf | userfaultfd_rs/bolt/src/codec.rs:226-237 | the next chunk is appended; no bytes mean the peer closed, an error is passed on |
| Reader.ReadNext | userfaultfd_rs/bolt/src/codec.rs:214-271 | the loop terminates; result, buffer, header and unread input are those of the step-by-step reader of which the chunking theorems speak; it reports a disconnect only of a socket that has closed in good order and a socket error only of a broken one, with nothing left to read, and a bad format only when the waiting body is refused |
| Reader.NextMessage | userfaultfd_rs/bolt/src/codec.rs:222-270 | a delivered message leaves strictly fewer bytes to deal with |
| Chunking.ReaderFollowsParser | userfaultfd_rs/bolt/src/codec.rs:214-271 | on every honest stream, under every chunking, repeated reads return what the reference parser reads off the whole stream and then fail as it says |
| Chunking.ReadAlikeIffHonest | userfaultfd_rs/bolt/src/codec.rs:222-270 | all chunkings of a stream below 2^32 bytes are read alike if and only if it is honest |
| Chunking.CutStreamRefused | userfaultfd_rs/bolt/src/codec.rs:250-256 | a dishonest stream of any length, cut in two at a computable point below 2^32 bytes after its first header, is refused after fewer messages than the reference reads off the whole of it |
| Chunking.WholeStreamParsed | userfaultfd_rs/bolt/src/codec.rs:214-271 | a stream in one piece is read as the reference reads it, honest or not |
| Chunking.TakeStep | userfaultfd_rs/bolt/src/codec.rs:250-268 | taking a message follows the reference by exactly one message |
| Chunking.ReceiveStep | userfaultfd_rs/bolt/src/codec.rs:223-247 | reading a chunk changes nothing the reference can see |
| Chunking.BacklogCoversBuffer | userfaultfd_rs/bolt/src/buffer.rs:61-73 | a waiting reader holds no more than the backlog of its stream |
| Framing.FramesParse | userfaultfd_rs/bolt/src/codec.rs:148-165 | a stream of frames cut off anywhere parses into its whole frames, is honest, and has a backlog of at most one frame |
| Framing.DeliveredInOrder | userfaultfd_rs/bolt/src/codec.rs:148-271 | for every message list, every cut-off and every chunking, exactly the messages that arrived whole are returned in order, and then a socket error if the socket is broken and a disconnect if it is not |
| Framing.WholeFrames | userfaultfd_rs/bolt/src/codec.rs:161-162 | the number of whole frames in a prefix: that many fit, and one more does not |
| Framing.ReceiveKeepsHolds | userfaultfd_rs/bolt/src/codec.rs:223-247 | a partial read keeps the messages that a pipe holds |
| Framing.TakeKeepsHolds | userfaultfd_rs/bolt/src/codec.rs:250-268 | a reader that is done takes the first message its pipe holds |
| Framing.HeldMessageIsReady | userfaultfd_rs/bolt/src/codec.rs:258-263 | with nothing in flight, a message that is left is ready: the eager header parse misses none |
| Conservation.FramesConserved | userfaultfd_rs/bolt/src/codec.rs:222-270 | after any number of calls, whether they deliver or find the end of input, on any frames cut off anywhere and chunked in any way: the messages delivered are the first ones, and the bytes sent are their frames, the next header if parsed, the buffer and what is to come |
| Conservation.StreamConserved | userfaultfd_rs/bolt/src/codec.rs:222-270 | the same for every byte stream, honest or not, of any size, refused bodies included: it is consecutive pieces that decode to the messages delivered, then the parsed header, the buffer and what is to come |
| Conservation.CallConserves | userfaultfd_rs/bolt/src/codec.rs:214-271 | a call that delivers takes exactly the bytes of one header and one body off what is held and to come |
| Conservation.FailureConserves | userfaultfd_rs/bolt/src/codec.rs:214-271 | a call that fails, for want of bytes or on a refused body, loses none |
| Bolt.SendableIsCarried | userfaultfd_rs/bolt/src/codec.rs:148-165 | every request and response with a body below 2^32 bytes is carried by its frame |
| Bolt.MessagesRoundTrip | userfaultfd_rs/bolt/src/codec.rs:148-271 | every list of bolt's own requests or responses, cut off and chunked in any way, is read back up to the last whole frame, in order, and then a socket error or a disconnect |
| Bolt.HonestIffNotUnderstated | userfaultfd_rs/bolt/src/codec.rs:250-256 | whatever its length field says, a frame is honest exactly when that is no less than its body |
| Bolt.OversizedFrameDependsOnChunks | userfaultfd_rs/bolt/src/codec.rs:154-157 | the length cast makes every frame with a body of 2^32 bytes or more dishonest: in one piece it is read, and cut after its header and the announced length it is refused |
| PageServer.RunsKeepStore | userfaultfd_rs/edge_server/src/server.rs:125-206 | over every run of arbitrary clients the lock is exact, copies stay on their pages, and each byte is the one last stored there, or zero |
| PageServer.RunsNeverShrink | userfaultfd_rs/edge_server/src/server.rs:192-196 | a page once handed out exists for ever with the same length |
| PageServer.InsertExcludesCopies | userfaultfd_rs/edge_server/src/server.rs:192-196 | an insertion uses a free handle, finds no copy in progress, adds a page of zeros of the least whole number of pages that holds the request, and changes no other |
| PageServer.RefusalEnds | userfaultfd_rs/edge_server/src/server.rs:77-95 | a refused body and a close end the connection, without a reply and without touching the store |
| PageServer.OverForGood | userfaultfd_rs/edge_server/src/server.rs:77-95 | over every run, a connection that has ended or panicked takes and answers nothing more and holds no lock |
| PageServer.LoadsAreLatest | userfaultfd_rs/edge_server/src/server.rs:138-142 | a byte read is the byte last stored in that cell |
| PageServer.ChangesAreAcceptedWrites | userfaultfd_rs/edge_server/src/server.rs:175-177 | an existing byte changes only as the next byte of an accepted write, inside its range |
| PageServer.StepKeepsLockExact | userfaultfd_rs/edge_server/src/server.rs:125-206 | every step keeps the lock in agreement with who is copying or inserting |
| ByteCopies.AtomicIffOneContested | userfaultfd_rs/edge_server/src/server.rs:138-177 | of all interleavings of a byte-wise read with a byte-wise write, none mixes old and new exactly when the write changes at most one of the shared cells |
| Tearing.AtomicIffOneContested | userfaultfd_rs/edge_server/src/server.rs:126-177 | the same for the handlers' own steps and the bytes of the reply |
| Tearing.AtomicIffOneShared | userfaultfd_rs/edge_server/src/server.rs:126-177 | for all contents of the page that is so exactly when the two ranges share at most one cell |
| Tearing.TornRun | userfaultfd_rs/edge_server/src/server.rs:125-206 | a run of two connections from the start that ends in a reply with the first byte of a write and the old second byte, neither the old contents nor the new |
| Replies.EachReplyFits | userfaultfd_rs/edge_server/src/server.rs:77-206 | for any number of connections, a connection that submits acceptable requests for any handles, whatever bytes the others send and whenever they hang up, has in every run a handler that does not panic and one reply per request in order; a bad-handle reply exactly when the handle was free on taking the lock, a bad-range one exactly when the range left the page; otherwise a write stored its bytes in exactly the cells of its range, and a read returned from exactly the cells of its range the bytes last stored when they were loaded |
| Replies.ErrorsTellWhy | userfaultfd_rs/edge_server/src/server.rs:125-190 | in every run a Read or Write is answered with InvalidHandle and "Invalid handle" exactly when the handle was free on taking the lock, with ArgumentOutOfRange and "Offset is out of range" exactly when the page was there and the range left it, and with no other error; an Alloc with none |
| Replies.LockHeldThroughout | userfaultfd_rs/edge_server/src/server.rs:125-206 | in every run a Read or Write holds the shared lock from when it takes it until its reply is written, and an Alloc does not |
| Replies.ActKeepsAccount | userfaultfd_rs/edge_server/src/server.rs:125-206 | each action of a handler keeps its copy in agreement with what was found and with the cells copied so far, and none panics |
| Replies.MoveKeepsServed | userfaultfd_rs/edge_server/src/server.rs:70-98 | every move of every connection keeps the accounts and the pipes of those that behave |
| Replies.QuietMeansReplied | userfaultfd_rs/edge_server/src/server.rs:77-95 | a connection with nothing in progress has received a reply to everything it sent |
| PageServer.RoundedUpExact | userfaultfd_rs/edge/src/lib.rs:69-89 | at every page size that divides 2^64, a mapping is the least whole number of pages; it is empty exactly for size zero and on overflow |
| PageServer.MappedLengthExact | userfaultfd_rs/edge/src/lib.rs:84-89 | the same for the server's mappings, at whatever page size the system has |
| PageServer.RangeCheckExact | userfaultfd_rs/edge_server/src/server.rs:130-136 | the range check is right exactly when the 64-bit sum does not wrap back onto the page |
| PageServer.WrappedRequests | userfaultfd_rs/edge_server/src/server.rs:125-190 | a wrapped read panics; a wrapped write stores exactly the bytes that lie on the page and is acknowledged; all other accepted requests cover their range, and the rest are told that they are out of range |
| PageSpec.Splice | userfaultfd_rs/edge_server/src/server.rs:175-177 | a write replaces exactly its range |
| Isolation.ActServes | userfaultfd_rs/edge_server/src/server.rs:125-206 | each step of a handler keeps its request on the way to the sequential answer and touches only its own pages |
| Isolation.MoveKeepsWorld | userfaultfd_rs/edge_server/src/server.rs:70-98 | every move of every connection keeps all private stores side by side and all pipes in step with their histories |
| Isolation.EachConnectionSeesSequentialStore | userfaultfd_rs/edge_server/src/server.rs:70-206 | in every run, each connection gets one reply per request in order, the k-th being its sequential store's answer to the k-th request, and no handler panics |
| Isolation.QuietMeansAnswered | userfaultfd_rs/edge_server/src/server.rs:77-95 | a connection with nothing in progress has received an answer to everything it sent |
| Throughput.EveryReadBackSucceeds | userfaultfd_rs/edge_client/src/main.rs:157-250 | for any number of clients, any non-empty buffers, chunk sizes and interleavings no check fails, no handler panics, and a finished client's page starts with its buffer and is no other client's |
| Session.FinishedHasReadBack | userfaultfd_rs/edge_client/src/main.rs:178-250 | in every run a finished client has sent Alloc and then, for each chunk from the first to the last, its Write and its Read to the handle it was given, and has received the chunk in answer to every Read |
| Session.ReadyClient | userfaultfd_rs/edge_client/src/main.rs:203-249 | given any answers at all, a client gives up exactly when some read is answered with anything but an OkWithBuffer of the chunk written, gets through exactly when every answer to a read matches, whatever the answers to writes, and sends the exchanges as far as it gets |
| Session.WholeConversation | userfaultfd_rs/edge_client/src/main.rs:178-250 | the same from the allocation on: it also gives up exactly when it is not given a handle |
| Session.RunStands | userfaultfd_rs/edge_client/src/main.rs:157-250 | in every run each client stands where the answers it has received bring it, and has sent what that takes |
| Throughput.AnswerStores | userfaultfd_rs/edge_client/src/main.rs:185-249 | the awaited answer leaves the page holding all chunks up to the current one |
| Throughput.DeedKeepsFleet | userfaultfd_rs/edge_client/src/main.rs:203-249 | every step of client or server keeps what each client relies on |
| Throughput.RequestIsWelcome | userfaultfd_rs/edge_client/src/main.rs:178-225 | every request a client is about to send is within its own page and does not wrap |
| Completion.NeverStuck | userfaultfd_rs/edge_client/src/main.rs:203-249 | while a client is unfinished, some step is possible |
| Completion.EveryStepDescends | userfaultfd_rs/edge_client/src/main.rs:203-249 | every step lowers a lexicographic measure of the work left |
| Completion.DeedKeepsSparse | userfaultfd_rs/edge_client/src/main.rs:178-191 | there are never more pages than clients whose one allocation has been made |
| Completion.EveryRunEnds | userfaultfd_rs/edge_client/src/main.rs:157-267 | any endless plan of steps comes to one that is not possible: no run goes on for ever |
| Completion.EveryRunCanSucceed | userfaultfd_rs/edge_client/src/main.rs:157-267 | every run of fewer than 2^64 clients extends to one in which each has finished with its buffer on its page |
| Completion.StandstillIsSuccess | userfaultfd_rs/edge_client/src/main.rs:157-267 | a run of fewer than 2^64 clients that can go no further has finished every client with its buffer on its page |
| Service.BoltNetIsFaithful | userfaultfd_rs/bolt/src/codec.rs:148-271 | bolt's frames meet what the isolation and completion theorems ask of a network |
| Service.ThroughputSucceeds | userfaultfd_rs/edge_client/src/main.rs:408-412 | on bolt's own bytes: every run of fewer than 2^64 clients extends to one in which each has finished with its buffer on its page, and a run that can go no further is one |
| Service.ThroughputEnds | userfaultfd_rs/edge_client/src/main.rs:408-412 | on bolt's own bytes no run goes on for ever |
| Service.TornReply | userfaultfd_rs/edge_server/src/server.rs:125-190 | a run on bolt's own bytes that ends in a torn reply, for any handle and any two non-zero bytes over zeros |
| Service.CallEndsConnection | userfaultfd_rs/edge_server/src/server.rs:77-95 | on bolt's own bytes a CALL header ends the connection whatever body follows |
| FaultRpc.AllRunsCorrect | userfaultfd/edge_client/src/main.cpp:75-84 | over every interleaving, a call that faults returns its own function of its own argument, and any other call repeats the last such result |
| FaultRpc.DoneAsAsked | userfaultfd/edge_client/src/main.cpp:75-84 | over every interleaving the operations completed are those the program asked for, in order and with their slots and arguments |
| FaultRpc.StepKeepsInv | userfaultfd/edge_client/src/main.cpp:114-152 | while the caller is blocked the handler works on that call's request words |
| FaultRpc.InvalidatingMakesCallsRight | userfaultfd/edge_client/src/main.cpp:261-278 | invalidating before every call makes every answer right |
| FaultRpc.InvalidatingFibLoop | userfaultfd/edge_client/src/main.cpp:261-278 | every call of the measurement loop that completes returns Fib(n) modulo 2^64, and none completes for the largest n |
| FaultRpc.StaleAnswer | userfaultfd/edge_client/src/main.cpp:237-249 | a call without invalidating answers the request words of the last call that faulted, and is right exactly when its own words have the same answer |
| FaultRpc.StaleUnlessRepeated | userfaultfd/edge_client/src/main.cpp:237-249 | such a call is right whatever the registered functions return exactly when it repeats the slot and argument of the last call that faulted |
| FaultRpc.WrongAnswer | userfaultfd/edge_client/src/main.cpp:75-84 | a run in which fib(3), called after fib(1) without invalidating, returns 1 |
| FaultRpc.StuckIffNoAnswer | userfaultfd_rs/edge_client/src/main.rs:288-304 | some thread can always move, except that a call hangs exactly when its slot is unregistered or its function does not return on the argument |
| Dijkstra.Run | microbenchmarks/graphs/sssp/main.c:23-67 | for any weights: fails exactly when an unassigned vertex would be used, and otherwise gives the result of n-2 rounds; when no weight is negative and the int sums fit, every distance, capped at 9999, is the least walk length capped at 9999, and no distance exceeds the cap unless an edge does |
| Dijkstra.NegativeWeightFails | microbenchmarks/graphs/sssp/main.c:47-67 | three vertices and a negative weight for which the distance found is 4 while a walk of length 2 exists |
| Dijkstra.Rounds | microbenchmarks/graphs/sssp/main.c:46-67 | the main loop goes through n-2 rounds, or gives up in the first exactly when an unassigned vertex would be used |
| Dijkstra.Path | microbenchmarks/graphs/sssp/main.c:69-81 | the walk along predecessors ends at the start with strictly falling distances; its edges add up to the distance, or, with no edge above 9999, it goes straight to the start when the vertex is out of reach |
| Dijkstra.PredIsFirst | microbenchmarks/graphs/sssp/main.c:47-67 | which of several shortest paths is taken: a predecessor is, of all vertices whose edge ends a shortest walk, the nearest to the start and then the lowest-numbered |
| Dijkstra.Round | microbenchmarks/graphs/sssp/main.c:47-67 | one round visits the nearest unvisited vertex below infinity, or the stale one at infinity, and relaxes the edges out of it |
| Dijkstra.RoundsKeepFrontier | microbenchmarks/graphs/sssp/main.c:47-67 | without negative weights every round makes the distance of the vertex it visits final, or stalls and leaves everything below infinity as it is |
| Dijkstra.SelectNext | microbenchmarks/graphs/sssp/main.c:49-56 | the nearest unvisited vertex below infinity, of several the lowest-numbered, or the stale one |
| Dijkstra.RelaxFrom | microbenchmarks/graphs/sssp/main.c:59-65 | every unvisited vertex that is nearer through the given one gets that distance and predecessor, and nothing else changes |
| Dijkstra.CostMatrix | microbenchmarks/graphs/sssp/main.c:31-36 | a missing edge costs 9999 and every other entry its weight |
| Dijkstra.InitRound | microbenchmarks/graphs/sssp/main.c:38-45 | before the first round only the start is visited, and every distance is the direct edge from it |
| Dijkstra.LastRoundIsFeasible | microbenchmarks/graphs/sssp/main.c:47-67 | after n-2 rounds no edge can improve a capped distance, stalled rounds and the unvisited vertex included |
| Dijkstra.FrontierGivesDistances | microbenchmarks/graphs/sssp/main.c:47-67 | a frontier that no edge improves holds the true distances |
| Bfs.Search | microbenchmarks/graphs/bfs/main.c:36-59 | on graphs of any size: a vertex is dropped exactly when some expansion calls for more than SIZE slots since the queue last ran empty, which is computed from the adjacency lists and cannot happen with at most SIZE vertices; unless one is dropped, marks exactly the reachable vertices, dequeues each once in order of true distance and, within that, of the lists, and shows exactly the discovered vertices not yet removed, one level and then the next; if one is, some reachable vertex is never dequeued |
| Bfs.StarFills | microbenchmarks/graphs/bfs/main.c:118-130 | a star with more than SIZE rays, searched from its centre, fills the queue |
| Bfs.NewsInOrder | microbenchmarks/graphs/bfs/main.c:47-57 | what an expansion discovers is exactly the unknown vertices of the list, in the order in which they first stand there |
| Bfs.Scan | microbenchmarks/graphs/bfs/main.c:47-57 | scanning a list keeps the search invariant, and a vertex it drops is reachable, marked and out of the queue for good |
| Bfs.LevelsAreDistances | microbenchmarks/graphs/bfs/main.c:36-59 | levels grown along edges and with every vertex expanded are the true distances, of exactly the reachable vertices |
| Bfs.DequeueKeeps | microbenchmarks/graphs/bfs/main.c:42-45 | the queue holds one level and then the next |
| Bfs.RoomForOneMore | microbenchmarks/graphs/bfs/main.c:118-130 | while a vertex is undiscovered, fewer have been enqueued than there are vertices |
| Bfs.Queue.Enqueue | microbenchmarks/graphs/bfs/main.c:118-130 | appends, or drops the value when the last slot has been used |
| Bfs.Queue.Dequeue | microbenchmarks/graphs/bfs/main.c:132-151 | removes the first element, resets an emptied queue, and returns -1 from an empty one |
| Bfs.Queue.IsEmpty | microbenchmarks/graphs/bfs/main.c:109-114 | true exactly for an empty queue |
| Bfs.Queue.constructor | microbenchmarks/graphs/bfs/main.c:102-107 | an empty queue |
| Bfs.Graph.constructor | microbenchmarks/graphs/bfs/main.c:72-88 | a graph without edges or marks |
| Bfs.Graph.AddEdge | microbenchmarks/graphs/bfs/main.c:91-99 | adds the edge in both directions and no other, each vertex becoming the first of the other's list |
| Sorting.MergeSort | microbenchmarks/sortingArray/sortAlgo.c:53-64 | the range becomes the sorted form of its old contents (SortedCorrect) and nothing outside it changes |
| Sorting.Merge | microbenchmarks/sortingArray/sortAlgo.c:8-51 | the two adjacent runs become their stable merge and nothing outside them changes |
| Sorting.MergeHeads | microbenchmarks/sortingArray/sortAlgo.c:24-38 | one run is used up, and what is written so far followed by the merge of what is left is the merge of both |
| Sorting.CopyRest | microbenchmarks/sortingArray/sortAlgo.c:40-50 | the rest of the run follows what is already in place, and nothing before or after the merged range changes |
| Sorting.SortedCorrect | microbenchmarks/sortingArray/sortAlgo.c:53-64 | the result is ordered and a stable rearrangement of the input |
| Sorting.MergedStable | microbenchmarks/sortingArray/sortAlgo.c:28-37 | elements of equal key keep their order, the left run first |
| Sorting.StableIsPermutation | microbenchmarks/sortingArray/sortAlgo.c:53-64 | a stable rearrangement is a permutation |
| Sorting.OrderedIsUnique | microbenchmarks/sortingArray/sortAlgo.c:53-91 | there is only one ordered stable rearrangement |
| Sorting.BubbleSort | microbenchmarks/sortingArray/sortAlgo.c:78-91 | sorts the first elements into exactly what merge sort makes of them, and leaves the rest |
| Sorting.BubblePass | microbenchmarks/sortingArray/sortAlgo.c:82-89 | one pass places the largest remaining element and keeps runs of equal keys |
| Merkle.BuildCovers | microbenchmarks/merkle-tree/rust-version/src/main.rs:28-74 | every node of the tree starts where its own blocks start, is as long as they are and has their hashes in order as its hash, and its children cover the two halves |
| Merkle.CoversTiles | microbenchmarks/merkle-tree/rust-version/src/main.rs:28-63 | such a tree is perfect and its leaves tile the blocks in order |
| Merkle.OneByteChange | microbenchmarks/merkle-tree/rust-version/src/main.rs:134-147 | a one-byte change can alter only its block's 32-byte segment of the root hash |
| Merkle.AcceptedIffPowerOfTwo | microbenchmarks/merkle-tree/rust-version/src/main.rs:181 | the bit test passes exactly the powers of two, and zero when the subtraction wraps |
| Bits.PowerOfTwoTest | microbenchmarks/merkle-tree/rust-version/src/main.rs:181 | c and c-1 share no bit exactly for powers of two |
| Arithmetic.CeilPow2 | userfaultfd/edge/src/networking/buffer_context.cpp:12-21 | at every width: the least power of two from v up for v from 1 to half the range, and zero otherwise |
| Arithmetic.SmearDoubles | userfaultfd/edge/src/networking/buffer_context.cpp:16-19 | one pass doubles the distance over which bits have been smeared |
| Arithmetic.PageAlign | userfaultfd_rs/edge/src/lib.rs:50-55 | the masked address is the start of the page that contains it |
| Arithmetic.FibUnsigned | userfaultfd/edge_client/src/main.cpp:29-39 | the unsigned kernel returns Fib(n) modulo 2^64 |
| Arithmetic.FibSigned | userfaultfd_rs/edge_client/src/main.rs:365-375 | the signed kernel is exact up to n = 92 and overflows for every larger n |

## Left out

- tokio sockets, listeners, logging, timing and printing: I/O around the modelled logic.
- mmap, mremap, ioctl and userfaultfd calls: only a page's presence and its bytes are kept; mapping a positive length succeeds.
- The connection loop, handlers and clients are steps on values, because their copies interleave byte by byte; aliasing of mapped memory is not captured. The two threads of the page-fault call are modelled likewise, on sequentially consistent memory and with one caller.
- `handle_invoke` and transmuted function addresses: no request decodes to Invoke; the function table is a partial map, without the bounds of its slot array.
- UTF-8 validation of decoded strings, and MessagePack formats that bolt does not write (maps, floats, signed integers).
- Format.BodyBytes: how rmp-serde 0.14.4 writes a unit variant cannot be read off the repository, and it may put more around an error status than the bare tag of the model; the same goes for Format.FrameBytes of an Err. No other message is concerned.
- Wire.OtherFormatsRefused: a deserializer may accept spellings that bolt never writes, such as a non-negative signed integer or a struct as a map; the model refuses them. Streams written by bolt have none.
- Messages.DecodedIffFields: exact for the model's decoder, with the same reservation about spellings bolt never writes.
- Messages.DecodedIffHeader: likewise.
- `BufferContext::regrow` and buffer capacities: performance only.
- A client that closes its connection: covered by the page-store theorems for arbitrary clients, by the reader, and in Replies for the other connections; not by Isolation and Throughput.
- Chunking.ReadAlikeIffHonest: asks for streams below 2^32 bytes, because the reader compares only the low 32 bits of its buffer's length; Chunking.ReaderFollowsParser and Framing.DeliveredInOrder ask it of the whole stream or of backlog plus one chunk.
- Isolation.EachConnectionSeesSequentialStore: connections that share pages have no private store, because copies are not atomic (Tearing.AtomicIffOneContested); what their replies are is in Replies.EachReplyFits.
- Replies.EachReplyFits: allocations are of mappable size, offset plus length does not wrap, and blobs stay 64 bytes below 2^32 so that their frames do; PageServer.WrappedRequests and PageServer.MappedLengthExact say what happens otherwise.
- Completion.NeverStuck: asks that the arena has an unused 64-bit index left; Completion.EveryRunCanSucceed derives it from the number of clients.
- Throughput.EveryReadBackSucceeds: an empty buffer is not covered; the server cannot map it and its handler panics.
- Arithmetic.FibUnsigned: the largest 32-bit n is excluded, because the counter can then never exceed it and the loop does not end; in FaultRpc a call with it never returns.
- Arithmetic.FibSigned: additions are checked, as in a debug build; wrap-around of a release build is not modelled.
- Dijkstra.Run: which negative weights do harm is not characterised, and for weights whose int sums overflow, which C leaves undefined, nothing is said about distances.
- Bfs.Search: edges to vertices out of range are not covered, which the program does not check either; marks are clear at the start, as createGraph leaves them.
- Merkle.BuildCovers: only blobs of a power of two of blocks, at least one; the program refuses other positive counts before building, and from 2^52 blocks on the size in bytes does not fit 64 bits. SHA-256 is any function to 32 bytes, and setting a byte is a sequence update.
- Sorting.Merge: the two local copies are sequences, not arrays; elements of any type with an integer key stand for the integers, so that stability can be said.
- The C++ `seekbuf`, `header_t` and `read_next`, the C++ edge server, `merkle.c`, `MerkleTree::update` and the tree's height field, and `bfs.c`: unfinished code or stubs.
- `dynamicArray` and `sumArray` (growing an array, summing one), the allocation example of the client, and the chat client and server.
