# A verified model of the RESP key-value server

The server speaks the RESP2 subset of the "Redis serialization protocol specification" (simple
strings, errors, integers, bulk strings, arrays and null) and executes `GET` and `SET` on one shared
map. The model follows the program in three layers.

1. **Codec.** `Bytes`, `Frames`, `Decimals`, `FrameSpec`: what the two passes of the parser compute
   at a position of a byte string. `Grammar`: the wire format as a relation that does not mention the
   parser; the parser accepts exactly that relation. `Faults`: likewise which bytes have which fault.
   `Unicode`: the UTF-8 predicate accepts exactly the encodings of scalar values. `Encoding`: the printer, the round trip, encodings
   cut short and resource bounds. `NormalForms`: when printing restores the bytes that were read.
   `Completion`: which incomplete inputs can still become a frame. `FrameParser`: the parser as it
   runs, methods that move a shared cursor and whose preconditions are the places where the Rust
   cursor would panic.
2. **Connections.** `Sessions`: what a byte stream means to a reader of frames. `Connections`: the
   incremental reader over a bounded buffer and the step-by-step printer, over a stream that delivers
   arbitrary chunks, may interrupt or fail any read, buffers what is written and may fail any write. `Arguments`, `Commands`,
   `Histories`, `Capacity`, `Exchanges`: recognising and executing commands, and the order of
   operations that explains the map. `Handlers`: the request loop with its counters. `Requesters`,
   `ClientServer`: the client, and both ends together.
3. **Server.** `Server`: accept loop, shutdown sequence and any number of connection tasks as a
   transition system with one step for each effect on shared state, including every field drop.
   `ServerResources` and `ServerShutdown`: permits, guards, channel senders, subscriptions and
   counters in every state of every run. `ServerHistory` and `ServerTheorems`: the global order of
   operations and the bytes each client is sent. `ServerProgress`: from every state of every run each
   connection can still be served to its end, and shutdown can still be completed.

The methods of layers 1 and 2 are proved against functions of their inputs, and the theorems are
about those functions. Strings are byte sequences with the UTF-8 predicate of section 4 of RFC 3629;
`usize` has 64 bits and `i64` is a bounded integer with checked arithmetic.

## What the proofs show about the code

- *Incomplete* does not mean completable, although the documentation (src/frame.rs:38-40) says that
  more input is needed: `$abc`, `$-2`, `*5000`, `:a` and others are reported as incomplete and no
  continuation of them is a frame (`Completion.HopelessInputs`). An incomplete input can be completed
  within a given length if and only if it is `Viable` and its `Lack` fits, and that number of missing
  bytes is exact (`Completion.CompletableExactly`).
- The end of shutdown does not mean that all permits are back: a handler drops its sender before its
  permit (src/handler.rs:34-45). `ServerShutdown.PermitsMayLag` gives a run for every number of late
  permits up to the limit; all permits are back in every finished run if and only if the limit is zero
  (`ServerShutdown.PermitsBackOnlyWithoutConnections`).
- Under `main`, the shutdown branch of the accept loop (src/acceptor.rs:151-155) is never taken: the
  message is sent only after the loop's future has been dropped
  (`ServerShutdown.AcceptLoopNeverReturns`).
- Printing what was read need not restore the bytes read: `*-1`, a bulk string of length `-0` and `:007`
  are printed differently (`NormalForms.AlteredInputs`). It does if and only if the bytes are
  `Canonical`: no superfluous zero or negative zero in any decimal field, and no null spelled as an
  array (`NormalForms.RestoredExactly`). What is printed is never longer (`Encoding.Normalisation`).
- A request longer than the read buffer is refused with the message about the limit and ends the
  connection, although the documentation of `get` and `set` (src/requester.rs:56-63,
  src/requester.rs:107-114) does not bound their arguments: a `SET` is acknowledged if and only if
  neither its own request nor an earlier one on the connection is too long
  (`ServerTheorems.SetAcknowledgedIffFits`).

## Model
| member | source | states |
|---|---|---|
| Decimals.DecodeDecimalExact | src/frame.rs:292-348 | A line of any length decodes to v if and only if it is an optional minus and at least one digit whose positional value is v and fits i64; an intermediate overflow therefore means a final one |
| Decimals.DecodeDecimalFaultExact | src/frame.rs:302-348 | For every rejected line, which of the three messages it gets, decided from the digits before the first byte that is not a digit |
| Decimals.PrefixDecodable | src/frame.rs:302-348 | The start of a line can still grow into a decodable one if and only if it is empty, a lone minus, or decodable already |
| Decimals.PrintedIntegerDecodes | src/connection.rs:141-148 | Decoding inverts the decimal printer on every i64, the smallest included |
| Decimals.PrintedIntegerInRange | src/frame.rs:329-346 | A printed number is read back if and only if it lies from -2^63 to 2^63 - 1; any other overflows |
| Decimals.PrintedIntegerShortest | src/connection.rs:141-148 | No numeral for a number is shorter than the printed one |
| FrameSpec.ScanLineExact | src/frame.rs:253-290 | The outcome of the line scan is fixed by the first line break: incomplete, bare LF, bare CR, or a line |
| FrameSpec.ScanLineSound | src/frame.rs:253-290 | A line that was found ends in CRLF and contains neither CR nor LF |
| FrameSpec.Check | src/frame.rs:51-144 | Every accepted frame takes at least three bytes, all within the input; recursion is on the bytes that remain |
| FrameSpec.Decode | src/frame.rs:175-240 | After a successful first pass the second one stays in bounds, ends exactly where the first ended, is never incomplete, and fails only on UTF-8 or integer content |
| FrameSpec.CheckStable | src/frame.rs:51-144 | A definite outcome of the first pass is the same on every extension of the input |
| FrameSpec.DecodeStable | src/frame.rs:175-240 | The second pass gives the same frame or fault on every extension |
| FrameSpec.ParseStable | src/frame.rs:156-164 | A parsed frame with its length, and a reported fault, are the same on every extension of the input |
| FrameSpec.ShorterIsIncomplete | src/frame.rs:156-164 | Every strict prefix of an accepted frame is incomplete, never a fault or another frame |
| Completion.CompletableExactly | src/frame.rs:51-164 | An input reported as incomplete can be continued to a frame within any given length if and only if it is viable and the bytes it lacks fit; the number is exact, for every nesting of headers, payloads, numerals and cut-off UTF-8 characters |
| Completion.LackNeeded | src/frame.rs:51-144 | At every depth, no continuation completes a frame with fewer bytes |
| Completion.LackSuffices | src/frame.rs:51-144 | At every depth, some continuation completes the frame with exactly that many bytes |
| Completion.HopelessInputs | src/frame.rs:38-42 | Six inputs, one of them inside an array, are incomplete and no continuation of them is a frame |
| Completion.OpenLackNeeded | src/frame.rs:302-348 | What the start of a first line lacks at least, over all ways to continue the line and the body it announces |
| Completion.TextLackNeeded | src/frame.rs:180-184 | What a text that may end inside a character lacks to be well-formed |
| Grammar.GetLineExact | src/frame.rs:253-290 | A line is returned if and only if one is there, with the cursor just after its CRLF |
| Grammar.GetDecimalExact | src/frame.rs:302-348 | A number is returned if and only if the line denotes it |
| Grammar.DecodeSound | src/frame.rs:175-240 | At every nesting depth, what is accepted is spelled according to the wire format |
| Grammar.WireDecodes | src/frame.rs:51-144 | At every nesting depth, what is spelled according to the wire format passes both passes and gives that frame |
| Grammar.ParseExact | src/frame.rs:156-240 | Parsing yields frame f ending at q if and only if the bytes up to q spell f |
| Grammar.WireUnambiguous | src/frame.rs:156-240 | No byte string spells two frames at the same position, not even of different lengths |
| Faults.FaultExact | src/frame.rs:156-240 | A fault is reported if and only if it is the one the bytes have: the first wrong thing in the structure of the whole frame, or else the first wrong thing in its content, also inside arrays |
| Faults.CheckExact | src/frame.rs:51-144 | At every depth the first pass accepts exactly the bytes with the structure of a frame and reports exactly the first thing wrong with the others: marker, line break, number, nesting, count, length or terminator |
| Faults.DecodeFaultExact | src/frame.rs:175-240 | At every depth the second pass reports exactly the first fault in the content: text that is not UTF-8, or a number |
| Faults.IncompleteExact | src/frame.rs:51-164 | More input is asked for if and only if the structure is neither complete nor wrong so far |
| Faults.BadFieldExact | src/frame.rs:302-348 | Which fault a decimal field has, from its line break and its digits |
| Faults.NextExact | src/connection.rs:38-67 | What a reader finds, from the first 65536 bytes alone: a frame, a fault, the end, a truncated frame or one beyond the limit, each if and only if |
| Faults.FaultTexts | src/frame.rs:80-141 | The text that each fault is reported with |
| Unicode.Utf8Exact | src/frame.rs:183-184 | Bytes are accepted as text if and only if they encode a sequence of Unicode scalar values |
| Encoding.EncodeIsWire | src/connection.rs:123-186 | The printer's bytes spell the frame printed, at every depth where it may stand |
| Encoding.RoundTripExact | src/connection.rs:123-186 | Wherever an encoded frame stands and whatever follows, parsing gives that frame and stops just after it, if and only if its texts have no CR or LF and its arrays respect the limits |
| Encoding.Normalisation | src/connection.rs:123-186 | Re-encoding an accepted frame is never longer than what was read and parses to the same frame |
| NormalForms.RestoredExactly | src/connection.rs:123-186 | Printing a parsed frame restores the bytes it was read from if and only if they are canonical |
| NormalForms.CanonicalExact | src/frame.rs:175-240 | The same inside any number of arrays |
| NormalForms.PlainExact | src/connection.rs:141-148 | A numeral is the printed form of its value if and only if it has no superfluous zero and is no negative zero |
| NormalForms.AlteredInputs | src/frame.rs:216-223 | A null array, a length of negative zero and a number with leading zeros are read, and printed differently |
| Encoding.CutIsIncomplete | src/connection.rs:123-186 | Every strict prefix of an encoded frame is incomplete, at every depth and however long the frame |
| Encoding.WireBounds | src/frame.rs:107-137 | Inside any number of arrays: nesting within the limit, three bytes for each node, encoding no longer than the input |
| Encoding.AcceptedFrameBounds | src/frame.rs:107-137 | A parsed frame has at most 32 array layers, fewer than 1024 elements in each array, and at most a third as many nodes as bytes consumed |
| FrameParser.GetLine | src/frame.rs:253-290 | The scanning loop returns the specified line or error and leaves the cursor after the CRLF |
| FrameParser.GetDecimal | src/frame.rs:302-348 | The accumulating loop with checked arithmetic computes the specified number or fault |
| FrameParser.CheckWithDepth | src/frame.rs:51-144 | The recursive first pass over the shared cursor computes the specified outcome and position, and never panics |
| FrameParser.CheckChildren | src/frame.rs:122-130 | The loop over array elements checks exactly the announced number of frames |
| FrameParser.CheckPayload | src/frame.rs:73-103 | The payload and its terminator are skipped only when all their bytes are there |
| FrameParser.ParseData | src/frame.rs:175-240 | Started where the first pass succeeded, the unguarded second pass never panics and yields the specified frame or content fault |
| FrameParser.ParseElements | src/frame.rs:224-232 | The vector of elements is the specified list, in order, or the first content fault |
| FrameParser.Parse | src/frame.rs:156-164 | Check, rewind and decode give the specified outcome, with the cursor just after the frame |
| Connections.Connection.ReadFrame | src/connection.rs:38-67 | A read ends undecided (abandoned, or a socket error) if and only if it was disturbed; any other outcome is the one that the unconsumed bytes determine, however they are buffered and chunked; the buffer stays within its limit; consumed, buffered and unread bytes make up the stream; an undecided read consumes nothing; the number of nonempty reads is bounded by the free space |
| Connections.Connection.ParseFrame | src/connection.rs:77-95 | Exactly the parsed frame's bytes leave the buffer; on an incomplete or malformed frame nothing does |
| Connections.BufferSettles | src/connection.rs:38-67 | What is buffered settles the outcome for every continuation, unless it is incomplete and neither the limit nor the end is reached |
| Connections.ReadsAreDetermined | src/connection.rs:38-67 | Over any series of reads, abandoned or failing anywhere, the others give what undisturbed reads would give |
| Connections.Connection.WriteFrame | src/connection.rs:109-117 | Succeeds if and only if nothing disturbed it, and then everything given to the writer, the encoding last, has been handed to the peer; a failure leaves a prefix of the encoding and nothing else |
| Connections.Connection.WriteData | src/connection.rs:123-186 | The recursive step-by-step writes give the writer exactly the encoding, or a prefix of it on failure |
| Connections.Connection.WriteElements | src/connection.rs:172-177 | The loop over the elements appends their encodings in order |
| Sessions.Next | src/connection.rs:39-66 | A frame that is read takes at least three bytes and at most the buffer limit |
| Sessions.AfterStep | src/connection.rs:38-67 | After k frames the stream yields frame k and moves on by its length, or there are exactly k frames |
| Arguments.FromFrame | src/parse.rs:32-39 | Only an array becomes an argument cursor, over all its elements |
| Arguments.Parser.NextBytes | src/parse.rs:50-59 | One argument is consumed even when its type is refused |
| Arguments.Parser.NextString | src/parse.rs:70-73 | One argument is consumed even when its type or encoding is refused |
| Arguments.Parser.Finish | src/parse.rs:82-87 | Succeeds if and only if nothing remains; otherwise consumes one argument |
| Commands.InterpretExact | src/command.rs:59-78 | A frame is command c if and only if it is an array of exactly the strings c consists of, with the three letters of the name each in either case |
| Commands.CaseFoldingExact | src/command.rs:67-75 | A name matches GET or SET if and only if it is those three letters, each in either case |
| Commands.RefusalExact | src/command.rs:59-78 | A frame is refused for a reason if and only if that is the first thing wrong with it, from left to right |
| Commands.RefusalTexts | src/parse.rs:10-18 | The text that each refusal is reported with |
| Commands.GetFromParse | src/command.rs:12-20 | The key, or the first error in argument order |
| Commands.SetFromParse | src/command.rs:30-39 | The key and the value, or the first error in argument order |
| Commands.CommandFromFrame | src/command.rs:59-78 | The consuming cursor gives the command or the error that the positions of the arguments determine |
| Commands.Database.Get | src/database.rs:25-29 | The value found is the one in the map, which is that of the last SET of the key in the recorded order |
| Commands.Database.Set | src/database.rs:36-39 | The key gets the value and the other keys keep theirs; the operation is appended to the order |
| Commands.Apply | src/command.rs:80-98 | A GET replies with the bulk string the map holds for its key, or null if it holds none, and changes nothing; a SET puts the value into the map and replies OK; the operation enters the order, in which all replies are right |
| Commands.Database.OthersRun | src/database.rs:25-39 | Whatever other connections do keeps the order right and does not touch this connection's operations |
| Histories.ReplayLookup | src/database.rs:25-39 | The map after any history holds, for each key, the value of its last SET, and nothing else |
| Histories.LastWriteExact | src/database.rs:25-39 | The value kept for a key is that of the last SET before a place, and there is none if and only if no earlier operation sets the key |
| Histories.LegalMeansRight | src/command.rs:80-98 | In an explained order a GET is answered with null exactly if its key was never set, otherwise with the last value, and a SET with OK |
| Histories.ExplainsLookup | src/database.rs:25-29 | A lookup in the map answers with the last SET of the history, so appending it keeps every reply right |
| Histories.ExplainsUpdate | src/database.rs:36-39 | An insertion keeps map and history in agreement |
| Capacity.EncodedFrameReads | src/connection.rs:47-53 | A frame sent by a peer is read back as itself if and only if it is sendable and its encoding fits the buffer |
| Capacity.OverlongFrameIsRefused | src/connection.rs:47-49 | A sendable frame that is longer than the buffer, however long, always gives the limit error, never another one |
| Capacity.CutFrameIsTruncated | src/connection.rs:57-64 | A stream that ends inside a frame that fits gives the error about an incomplete frame, and one that ends before it a clean end |
| Capacity.StillReadable | src/connection.rs:41-49 | With an incomplete frame in the buffer, some continuation of the stream still yields a frame if and only if the buffer is viable and has room for what it lacks |
| Capacity.StoredValueIsSmall | src/command.rs:29-39 | Whatever bytes a client sends, a value it stores has at most 65520 bytes |
| Capacity.LargestValueIsAccepted | src/command.rs:29-39 | The bound is tight: for every one-line text of 65520 bytes some request stores it |
| Capacity.StoredValueIsRetrievable | src/command.rs:84-89 | The reply that carries a value of at most 65520 bytes is read back in full by the client |
| Handlers.Handler.Execute | src/handler.rs:139-168 | The frame is counted once, classified as exactly one of hit, miss, SET and refusal, and its operation with its reply enters the order |
| Exchanges.TallyExact | src/handler.rs:143-168 | The hits are the GETs answered with a bulk string, the misses the other GETs, and likewise SETs and refusals, each counted as a set of places |
| Exchanges.ErrorsOnTheWire | src/handler.rs:127-133 | An error reply is a minus sign, the text and CRLF, with the text that belongs to each read error |
| Handlers.Handler.ServeFrame | src/handler.rs:139-175 | One more frame of the input is answered by appending its encoded reply |
| Handlers.Handler.Run | src/handler.rs:94-186 | For every input, chunking, socket failure and interleaving with others: the output is the encoded replies to the first frames of the input in order, plus one error at the end if the input cannot be read; only the last write can be cut short; the operations, the refusals and all counters match those frames; one guard is taken and released; and if no read or write is disturbed and no shutdown message received, all frames are answered and the end is the client's or a reported read error |
| Requesters.Requester.Get | src/requester.rs:64-95 | A call that nothing disturbs is decided; then exactly one request has been handed over, and the result is a value, absence, error text, unexpected reply, closed stream or unreadable reply exactly as the next item of the stream is a bulk string, null, error, other frame, end or fault; in any case at most its own request is sent, and an undecided call consumes nothing of the stream |
| Requesters.Requester.Set | src/requester.rs:115-156 | A call that nothing disturbs is decided; then exactly one request has been handed over, and the result is success exactly for the simple string OK, and for every other item of the stream the matching error; in any case at most its own request is sent, and an undecided call consumes nothing of the stream |
| Requesters.ToldOnce | src/requester.rs:88-94 | Every stream decides at most one answer to each kind of call |
| Requesters.RequestFrameExact | src/requester.rs:64-70 | The request frames, byte for byte of their names |
| Requesters.RunScript | src/requester.rs:64-156 | A series of calls sends its requests in order and takes the replies in order, up to the first call that is abandoned or fails on the socket; that one sends at most its own request; undisturbed, all calls are decided |
| ClientServer.RequestIsUnderstood | src/requester.rs:66-70 | Every request the client builds is the command it means, for all keys and values |
| ClientServer.EncodedFramesRead | src/connection.rs:38-67 | Any series of frames that fit is read back as exactly that series if what follows is not a frame |
| ClientServer.RepliesAnswerInOrder | src/requester.rs:88-94 | The i-th reply read is taken as the answer to the i-th request, whatever follows in the stream |
| ClientServer.AnswerByFrame | src/requester.rs:79-94 | Each call takes the next frame of the stream as its reply |
| ClientServer.AnswersAfterLast | src/requester.rs:79-86 | Once the stream yields no more frames, every further call is answered by what ends it |
| ClientServer.RequestsRead | src/connection.rs:38-67 | The server reads a series of requests up to the first that is too long, and finds the limit error there |
| ClientServer.CutStreamRead | src/connection.rs:38-67 | A stream of frames whose last may be cut short is read as those frames and then the last or only a beginning of it |
| ClientServer.RequestsBecomeEvents | src/handler.rs:143-159 | Only requests before the first that is too long are executed, each as one operation with the reply given |
| ClientServer.PositionsComplete | src/handler.rs:143-159 | The places of a connection in the global order are exactly those of its operations |
| ClientServer.EndToEnd | src/requester.rs:64-156 | Client, wire and server together, at any moment of a connection and whatever the client sends later: each call whose reply is in the stream has a place in the global order, in order; a GET returned the value of the last earlier SET of its key, or absence if and only if there is none, and a SET was acknowledged |
| ClientServer.ReadYourWrite | src/requester.rs:64-156 | A SET followed by a GET of the same key on one requester: the SET is acknowledged and the GET returns its value, if nobody wrote the key in between |
| ServerResources.TaskMoves | src/handler.rs:94-186 | Each step of one task moves only that task, keeps the order in which its possessions are dropped, and books what it gains or gives up |
| ServerResources.StepKeepsSound | src/acceptor.rs:75-160 | The resource invariant is kept by every step of the accept loop, of the shutdown sequence and of every task |
| ServerResources.RunIsSound | src/bin/server.rs:58-103 | The resource invariant holds in every state of every run |
| ServerShutdown.PermitConservation | src/acceptor.rs:80-148 | Free permits, the one the accept loop holds and those of tasks, also of tasks that are still dropping fields, add up to the limit; active connections are the live guards and never exceed it |
| ServerShutdown.MetricsAddUp | src/handler.rs:139-175 | Requests are hits, misses, refusals, SETs and those not classified yet, and also replies counted, failed writes and those in flight, which are at most as many as connections |
| ServerShutdown.AcceptErrorsCounted | src/acceptor.rs:94-111 | In every run the counter equals the number of failed accepts, retried at once or delayed |
| ServerShutdown.ChannelClosesExactly | src/bin/server.rs:97-103 | Once main waits, the completion channel is closed if and only if no task holds a sender |
| ServerShutdown.ShutdownIsComplete | src/bin/server.rs:99-107 | When the wait is over no handler runs or will run, every guard and sender is gone, and active connections are zero |
| ServerShutdown.NobodyMissesShutdown | src/acceptor.rs:114-121 | From the sending of the message on, every handler in its request loop, and every task that has yet to start one, has it waiting |
| ServerShutdown.NoTaskAfterSending | src/bin/server.rs:92-97 | No connection is accepted after the shutdown message has been sent |
| ServerShutdown.AcceptLoopNeverReturns | src/bin/server.rs:62-94 | In no run does the accept loop hear the message or return; shutdown always starts with the interrupt |
| ServerShutdown.CountsNeverUnderflow | src/handler.rs:26-30 | Whoever has a guard or a sender to give up finds the count above zero |
| ServerShutdown.FinalMetricsAreFinal | src/bin/server.rs:104-115 | After the wait no step changes a counter, the map or the history; only left-over permits and subscriptions still go |
| ServerShutdown.PermitsMayLag | src/handler.rs:34-45 | For every number of connections up to the limit some run finishes shutdown with that many permits still out |
| ServerShutdown.PermitsBackOnlyWithoutConnections | src/handler.rs:34-45 | Every run that finishes shutdown has all permits back if and only if the limit is zero |
| ServerHistory.StepKeepsTruth | src/handler.rs:94-186 | Every step keeps the invariant about map, history, counters, and each connection's input, replies and output |
| ServerHistory.RunIsTruthful | src/handler.rs:94-186 | That invariant holds in every state of every run |
| ServerTheorems.Linearizable | src/database.rs:25-39 | In every state of every run one global order explains the map and every reply: a GET gets null if and only if no earlier operation sets its key, and otherwise the value of the last one that does; a SET gets OK; each connection's operations stand in it in the order of its frames, with the replies it is given |
| ServerTheorems.HistoryGrows | src/handler.rs:143-171 | The order only grows at its end, so an operation comes before all whose requests are executed later |
| ServerTheorems.WholeTranscript | src/handler.rs:94-186 | What a connection has been sent when its handler returns, for each way of returning, down to which write may have been cut short; and which frames have been answered |
| ServerTheorems.EveryReplyIsRead | src/handler.rs:127-171 | Whatever a client sends, reading the output of its ended connection gives exactly its replies in order, then at most the reason why its input could not be read or a beginning of it, and nothing else; after a failed write the last reply may be missing |
| ServerTheorems.EveryValueIsRetrievable | src/command.rs:80-98 | In every state of every run each stored value is at most 65520 bytes long and its reply is read back by a client |
| ServerTheorems.FinalMetricsAreExact | src/bin/server.rs:104-115 | At the end, requests are responses plus failed writes, responses are the replies sent in full over all connections, hits and misses are those of the history, and requests are refusals plus operations |
| ServerTheorems.FinalLookupsAreExact | src/handler.rs:147-151 | At the end the hits are as many as the GETs in the order that got a value, and the misses as those that got null |
| ServerHistory.CountOfPlaces | src/handler.rs:143-159 | What a lookup counter counts is a set of places in the order |
| ServerTheorems.ClientsAreServed | src/requester.rs:64-156 | In every state of every run, among any number of other clients and whatever the client sends later, each call whose reply has been sent in full has its place in the global order and the answer that the last earlier SET of its key, or its absence, determines |
| ServerTheorems.ClientsReadTheirWrites | src/requester.rs:64-156 | In every state of every run, a SET and a later GET of its key by one client are answered with the acknowledgement and that value if no operation wrote the key in between |
| ServerTheorems.MissingIffNeverSet | src/requester.rs:88-94 | In every run a client is told that a key is absent if and only if no earlier operation in the global order has set it |
| ServerTheorems.StoppedAtFirstOverlong | src/handler.rs:127-136 | A handler stopped by its client's input has answered exactly the requests before the first that is too long; if there is one, it stopped for the limit and, if it could report that, wrote the replies and then that error |
| ServerTheorems.SetAcknowledgedIffFits | src/requester.rs:115-156 | On a connection that its input ended, with any requests and in any run, the j-th request, a SET, is acknowledged if and only if no request up to it is too long; the first that is too long, GET or SET, is answered with the message about the limit |
| ServerProgress.NobodyIsStuck | src/handler.rs:94-186 | In every sound state every task that still holds anything can make its next step, for every frame, fault and end of input, and each such step brings it nearer to its end |
| ServerProgress.EveryConnectionCanBeServed | src/handler.rs:94-186 | From every state of every run, a connection that nothing has disturbed so far can still be served to its end: all frames answered, everything written that is due, all possessions given back |
| ServerProgress.CanBeGone | src/handler.rs:94-186 | From every state of every run, every task can still give back all it holds by steps of its own |
| ServerProgress.ShutdownCanComplete | src/bin/server.rs:58-103 | From every state of every run, shutdown can still be completed, with every permit back |
| ServerProgress.ReadingCanBeDisturbed | src/handler.rs:103-182 | While a handler reads, the timeout and a socket error can come at any time, and shutdown as soon as the message is there |
| ServerProgress.SendingCanFail | src/handler.rs:170-171 | The write of a reply can fail after any part of it |
| ServerProgress.ReportingCanFail | src/handler.rs:131-135 | Telling the client why its input cannot be read can fail after any part of the message |
| ServerProgress.SetUpCanFail | src/acceptor.rs:124-130 | Setting up a connection can fail, and then its permit may be given back before anything else |
| ServerProgress.AcceptorCanStep | src/acceptor.rs:80-111 | The accept loop goes on as long as there are permits, and a failed accept is retried at once or after a delay |

## Left out
- Sockets: the peer is a byte sequence in nonempty chunks and then the end, any read may fail with any text instead, and a write succeeds or leaves a prefix. Of the buffered writer only the order of its bytes is modelled and that a flush hands over all of them; in `Server` a write and its flush are one step.
- `EveryReplyIsRead`: says nothing of the last message when a socket error has a text that is no simple error (line breaks, or longer than the buffer), except that the replies are read before it.
- Executor, fairness, real time: timeouts and selections are steps that may happen at any time; nothing is claimed about what must happen eventually, only about what can always still happen. Cancellation of tasks when the process exits is not modelled.
- src/acceptor.rs and src/bin/server.rs are modelled as steps over one value and not as classes, because their subject is the interleaving with all the tasks; set-up before the loop and the result returned by `main` are not modelled.
- `Handlers.Handler.Run` is proved for one handler with arbitrary others behind the map; its metrics object holds that handler's own increments. The tasks in `Server` restate the same loop in single steps with shared counters; no lemma derives one form from the other.
- Atomic orderings and wrap-around of counters, poisoning of the mutex, panics in general.
- Capacity of the read buffer (only its length is bounded) and branches that need a 32-bit `usize` (src/frame.rs:79-84, src/frame.rs:207-208, src/frame.rs:226-227, src/frame.rs:256-257).
- The position of the cursor after an error, which src/frame.rs:155 leaves unspecified.
- After a failed set-up (src/acceptor.rs:124-130) the variables of the task are dropped in any order.
- Command line, logging and the `Display` of errors other than the fixed messages.
