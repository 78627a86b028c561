# Verified model of browlet's fetch and encoding core

A Dafny model of the stateful core of the repository, with proofs of what that core is for:

- **I/O queues and streaming codecs**: linked chunks behave as a flat sequence with an end flag and
  waiters; decoding and encoding do not depend on how input was split (`QueueSpec`, `IoQueue`, `Codec`,
  `QueueProcessing`, `MarkedInput`, `TextDecoder`, `Utf16`, `Utf8`, `Utf8Replacement`, `Utf8Bulk`, `Utf8Fields`,
  `TextEncoderStream`, `StreamRoundTrip`).
- **Encoding indexes**: the packed table reader, reverse indexes and the gb18030 ranges (`PackedIndex`,
  `EncodingIndex`).
- **The network body and its cache tee**: one outstanding pull and task, hysteresis, two reasons to pause,
  publication only of complete entries (`BodyPump`, `NetworkBody`, `TransportControl`, `ExchangeRun`,
  `NetworkExchange`, `FetchController`).
- **The bounded shared HTTP cache**: byte accounting, two agreeing indexes, use order, generation fences
  (`StoredHeaders`, `HttpCache`, `CacheSelection`, `CacheTraffic`), and what a wire exchange may take it for (`SharedTee`).
- **Header lists and guards**, **multipart/form-data**, **CORS permissions**, **redirect chains**
  (`Text`, `HeaderList`, `HeaderSplit`, `QuotedPieces`, `HeadersGuard`, `HeaderCalls`, `MultipartText`,
  `MultipartHeaders`, `DispositionGrammar`, `Multipart`, `MultipartPrinter`, `MultipartForms`, `MultipartScanner`,
  `CorsCache`, `CorsGrants`, `RedirectChain`, `RedirectAnswers`).

Code that changes things in place is modelled by classes and loops whose contracts tie the new state to a
function of the old one; the properties over inputs, splits, runs and chains are lemmas about those functions.
Streams, transports, content decoders, servers and clocks may do anything their interfaces allow, except call
back into the object that is calling them.

`dafny verify dfyconfig.toml` checks everything.

## What turned out to need a condition

- Splitting a combined header value distributes over the values exactly when all but the last close their
  quoted strings (`HeaderSplit.SplitCombined`).
- A method override that the guard checks line by line is permitted as read, whatever permitted line comes next,
  exactly if the value so far closes its quoted strings (`HeadersGuard.ExtendedOverride`);
  `HeadersGuard.OverrideSlipsThrough` shows two permitted lines that read together are forbidden.
- Multipart parsing undoes printing exactly when no body holds the delimiter, no name or filename a backslash, and
  every type is one that the File constructor keeps (`Multipart.RoundTrip`; `Multipart.BackslashIsLost` and
  `Multipart.BrokenTypeIsLost` show entries that are lost); an entry comes back untouched exactly under the
  conditions of `Multipart.Unchanged`.
- A packed number is read back exactly if it is below 2^31, so tables come back exactly while their values are below
  2^30 - 1 (`PackedIndex.ReadWritten`, `PackedIndex.TablesRestored`).
- The permission cache answers for a grant in force exactly unless it was shifted out of a full cache
  (`CorsCache.MatchExact`).
- A code point comes back from its gb18030 pointer exactly under the condition of
  `EncodingIndex.CodePointOfRangesPointer`; the other direction holds for every accepted pointer.
- A paused body has 32 KiB or more buffered exactly until it fails or finishes (`BodyPump.Hysteresis`): one that
  ends while paused stays paused with nothing buffered (`BodyPump.FinishedMayStayPaused`).
- The permission cache reads the clock twice in one store. A permission keeps a single entry exactly unless one of
  its own expires between the readings and is not shifted out (`CorsCache.StoredSingle`); then it remains beside
  its successor (`CorsCache.LapsedEntryRemains`). Unexpired entries are always unique (`CorsCache.RunSound`).
- `combine` reads like `append` exactly when the name has at most one line or its later lines commute with the new
  value (`HeaderList.GetCombine`; `HeaderList.CombineDiffers` shows a list where they differ).
- A redirect fails with an internal error over a missing body source exactly in the case of
  `RedirectChain.FaultExactly`, which `RedirectChain.GetWithStreamFaults` shows to arise for an internal caller of
  fetch; the Request constructor refuses a body on GET and HEAD (src/fetch/request.ts:559).
- A UTF-8 decoder that is used again after its input ended inside a sequence goes on like a new one exactly if it is
  `Clean` (`Utf8Fields.ReusedDecodes`): the source resets only one of its five fields at the end. No caller does so.
- A new cached response replaces another exactly if both answer the same requests, as long as neither Vary field
  repeats a name (`CacheSelection.ReplacedExactly`; `CacheSelection.RepeatedNameReplaces` shows a repetition that
  replaces more).
- Queue processing ignores what is pushed after the reaction that saw the end (`QueueProcessing.SplitIndependent`).

## Model

| member | source | states |
|---|---|---|
| `QueueSpec.QueueState.RestoreUndoesRead` | src/encoding/io-queue.ts:46-52 | Reading any number of items and restoring them gives back the same queue, waiters included, and satisfies no waiter on the way. |
| `QueueSpec.QueueState.WakeIsFair` | src/encoding/io-queue.ts:171-181 | After a sweep no pending waiter could be satisfied, every settled one was satisfiable, and no promise is settled twice. |
| `QueueSpec.QueueState.InputSettles` | src/encoding/io-queue.ts:33-52 | Pushed or restored input settles exactly the promises that it is enough for, and leaves the others waiting. |
| `QueueSpec.QueueState.EndSettles` | src/encoding/io-queue.ts:33-44 | The end marker settles every promise and changes no item. |
| `QueueSpec.SliceItems` | src/encoding/io-queue.ts:65-84 | Slicing a chunk at an item boundary leaves the items from there on, astral characters included. |
| `IoQueue.IOQueue.Push` | src/encoding/io-queue.ts:33-44 | The linked chunks gain the items at the end (tail maintained), waiters that can read are settled in order; an empty chunk does nothing. |
| `IoQueue.IOQueue.PushEnd` | src/encoding/io-queue.ts:33-44 | The end marker completes every pending read. |
| `IoQueue.IOQueue.Restore` | src/encoding/io-queue.ts:47-52 | The items come back in front of the unread ones, and readers are woken. |
| `IoQueue.IOQueue.ReadAvailable` | src/encoding/io-queue.ts:55-75 | The first item of the flat sequence and the queue without it, or end of queue, or waiting, at any offset and chunking; a byte queue gives bytes. |
| `IoQueue.IOQueue.ReadCount` | src/encoding/io-queue.ts:56-63 | Exactly the first items, all of them at the end of the queue, or nothing when fewer are available and input is open. |
| `IoQueue.IOQueue.ReadChunk` | src/encoding/io-queue.ts:78-84 | A whole chunk from the current offset: its items are a prefix of the flat sequence and are gone from it. |
| `IoQueue.IOQueue.Peek` | src/encoding/io-queue.ts:87-101 | The items a counted read would give, leaving the queue as it is. |
| `IoQueue.IOQueue.CanReadNow` | src/encoding/io-queue.ts:152-164 | Counting without materializing answers whether so many items, or the end, are there. |
| `IoQueue.IOQueue.WaitFor` | src/encoding/io-queue.ts:104-109 | A pending promise is created exactly when the read could not be served now. |
| `IoQueue.IOQueue.WakeReaders` | src/encoding/io-queue.ts:171-181 | The in-place sweep of the waiter list keeps exactly the unsatisfiable waiters, in order. |
| `IoQueue.IOQueue.TakeString` | src/encoding/io-queue.ts:112-122 | The text of everything unread, whose scalar values are the flat sequence; the queue is emptied. |
| `IoQueue.IOQueue.TakeList` | src/encoding/io-queue.ts:125-131 | All items, and an empty queue with the same end flag and waiters. |
| `IoQueue.IOQueue.TakeBytes` | src/encoding/io-queue.ts:134-149 | One array holding all unread bytes in order, whatever the chunks and offsets. |
| `Codec.FeedSplit` | src/encoding/io-queue.ts:192-208 | Feeding a codec two pieces, one after the other, is feeding it their concatenation. |
| `QueueProcessing.NeverStuck` | src/encoding/io-queue.ts:104-109 | In every run, pushes after the end included, a suspended decode can react exactly when the input it waits for (three bytes for the sniff, then one) or the end has arrived. |
| `QueueProcessing.SplitIndependent` | src/encoding/encodings.ts:60-83 | For every split of the input into pushes and every schedule, one reaction after the end leaves the outcome, output and unread input of decoding (or encoding) at once all that arrived before the reaction that saw the end, byte order mark override included; what was pushed later stays unread. |
| `QueueProcessing.OrderlyInput` | src/encoding/encodings.ts:60-83 | From a producer that pushes nothing after the end, the result is that of the joined input. |
| `QueueProcessing.DoneIsFinal` | src/encoding/io-queue.ts:209-220 | An outcome, once reached, is that of all the input that arrives in time, whatever is pushed afterwards. |
| `QueueProcessing.BOMStable` | src/encoding/encodings.ts:86-89 | Once three bytes are there, more input changes neither the sniffed mark nor the choice of codec. |
| `MarkedInput.RunMarked` | src/encoding/encodings.ts:60-83 | In every run with sniffing, input that begins with U+FEFF as UTF-8, UTF-16BE or UTF-16LE encode it is decoded by that encoding without these bytes, whatever the fallback, and however the pushes cut even the mark. |
| `MarkedInput.RunUnmarked` | src/encoding/encodings.ts:60-83 | Input that begins with none of the three is decoded by the fallback, all of it. |
| `MarkedInput.RunWithoutSniffing` | src/encoding/io-queue.ts:192-220 | Without sniffing the fallback decodes everything, a mark included. |
| `MarkedInput.OrderlyMarked` | src/encoding/encodings.ts:60-83 | With no push after the end this is so of the joined input. |
| `MarkedInput.DecodeMarked` | src/encoding/decoding.ts:2-6 | The same for complete input: its beginning alone says which encoding decodes the rest. |
| `MarkedInput.DecodeUnmarked` | src/encoding/decoding.ts:2-6 | Complete input without such a beginning is decoded by the fallback. |
| `TextDecoder.StreamingIsComplete` | src/encoding/text-decoder.ts:96-117 | For a new decoder or one that has flushed, streaming calls and a final call together return, or throw, what one call on the joined bytes does. |
| `TextDecoder.SeriesIsRun` | src/encoding/text-decoder.ts:96-117 | In mid-stream, also after a fatal error, the remaining calls return or throw what one call does on the input left unread and the joined rest. |
| `TextDecoder.ReplacementSeries` | src/encoding/text-decoder.ts:96-128 | In replacement mode nothing throws and at most one initial byte order mark is dropped over the whole series. |
| `TextDecoder.Decoder.Decode` | src/encoding/io-queue.ts:202-205 | A decoder that runs its handler over the input queue until it waits, finishes or fails writes the fold of the handler to the output queue, restores what is unread at an error, and ends the output exactly when it finishes. |
| `TextDecoder.TextDecoderCommon.Decode` | src/encoding/text-decoder.ts:96-117 | The stateful call refines the pure step: reset after a flush, no reset after a fatal error in mid-stream. |
| `TextDecoder.TextDecoderCommon.SerializeQueue` | src/encoding/text-decoder.ts:120-128 | The text of the output, less one first byte order mark of the stream. |
| `Utf8.DecodeEncode` | src/encoding/codecs/utf-8.ts:125-235 | In either error mode, decoding the UTF-8 of any string of code units gives its scalar values with every lone surrogate replaced. |
| `Utf8.ScalarsOf` | src/encoding/codecs/utf-8.ts:31-36 | A lone surrogate counts as U+FFFD, every other code point as itself. |
| `Utf8.FatalAccepts` | src/encoding/codecs/utf-8.ts:125-234 | Fatal decoding finishes exactly on the encodings of scalar values (shortest forms, no surrogates, nothing above U+10FFFF), and encoding its output gives the bytes back. |
| `Utf8Replacement.DecodesPieces` | src/encoding/codecs/utf-8.ts:125-235 | In replacement mode input cut into encodings of scalar values, maximal beginnings of encodings that do not go on, and bytes that begin none gives those scalar values and one U+FFFD for each of the others. |
| `Utf8Replacement.EveryInput` | src/encoding/codecs/utf-8.ts:125-235 | Every input is cut so. |
| `Utf8Replacement.FatalStops` | src/encoding/codecs/utf-8.ts:125-235 | In fatal mode such input gives the scalar values before its first malformed part, and leaves what follows that part unread. |
| `Utf8Bulk.UTF8Decoder.Decode` | src/encoding/codecs/utf-8.ts:132-234 | In either error mode the chunk loop, with its bulk middle and its edges, writes to the output queue what the handler writes byte by byte, restores exactly what is unread at an error, and ends the output exactly when it finishes. |
| `Utf8Bulk.CutJoins` | src/encoding/codecs/utf-8.ts:148-172 | A chunk may be cut before a byte that continues nothing: a complete decode of the part before it and the handler on the rest write what the handler writes on both. |
| `Utf8Bulk.CompletePrefix` | src/encoding/codecs/utf-8.ts:251-261 | The complete prefix is the whole chunk unless it ends in an open sequence, and then ends where that one starts. |
| `Utf8Bulk.ProperCodec` | src/encoding/codecs/utf-8.ts:125-234 | In either mode the handler emits scalar values only and restores bytes only, in every state, so it is a decoder in the sense of the streaming classes. |
| `Utf8Bulk.OpenTextDecoder` | src/encoding/text-decoder.ts:72-86 | A TextDecoder for UTF-8 starts valid, in the given error mode, and strips a mark unless told to ignore it. |
| `Utf8Fields.FieldsHandle` | src/encoding/codecs/utf-8.ts:174-222 | The handler on the five fields as the source leaves them is the handler of the standard in every state a decoder has before its input has ended. |
| `Utf8Fields.ReusedDecodes` | src/encoding/codecs/utf-8.ts:140-147 | A decoder that is used again after its input ended writes what a new one does, whatever it is given, if and only if no continuation was counted and no bound was narrowed when the input ended. |
| `Utf8.EncodeAppend` | src/encoding/codecs/utf-8.ts:31-36 | Encoding distributes over every cut that does not split a surrogate pair. |
| `TextEncoderStream.SplitIndependent` | src/encoding/text-encoder-stream.ts:28-36 | For every split of a string into chunks, the bytes enqueued and flushed are the UTF-8 of the whole string, each lone surrogate replaced. |
| `TextEncoderStream.TransformSplits` | src/encoding/text-encoder-stream.ts:55-66 | What a chunk enqueues and what it keeps back (at most one lead surrogate) stand for the input so far. |
| `TextEncoderStream.TextEncoderStream.EncodeAndEnqueue` | src/encoding/text-encoder-stream.ts:55-75 | The method with its field computes that step. |
| `TextEncoderStream.TextEncoderStream.FlushStep` | src/encoding/text-encoder-stream.ts:31-35 | A lead surrogate left over is replaced, once. |
| `StreamRoundTrip.TextSurvives` | src/encoding/text-encoder-stream.ts:28-36 | A text encoder stream followed by a streaming decoder, fatal or not, returns the scalarized text, less U+FEFF at its start if the decoder strips it, however text and bytes are cut up. |
| `StreamRoundTrip.FatalSeries` | src/encoding/text-decoder.ts:96-128 | A fatal decoder throws in one of its streaming calls unless all their bytes together are the encoding of scalar values, and then returns those. |
| `PackedIndex.UnpackDenotes` | src/encoding/indexes.ts:50-84 | For every list of records whose numbers are below 2^31, unpacking their bytes yields exactly the values the records denote (zero runs, ascending runs, deltas). |
| `PackedIndex.ReadWritten` | src/encoding/indexes.ts:56-66 | For every number the shift-and-or reader stops right after what the generator wrote, and returns that number if and only if it is below 2^31. |
| `PackedIndex.ReadTruncated` | src/encoding/indexes.ts:56-66 | A byte past the end counts as zero and ends the number. |
| `PackedIndex.ShiftWraps` | src/encoding/indexes.ts:56-66 | The reader shifts as the language does, modulo 32 bits. |
| `PackedIndex.SignedZigzag` | src/encoding/indexes.ts:67 | The zigzag mapping is undone. |
| `PackedIndex.UnpackPack` | src/encoding/scripts/generate-tables.mjs:208-231 | Unpacking what the generator packed gives back the values, for every table whose records hold numbers below 2^31. |
| `PackedIndex.TablesRestored` | src/encoding/scripts/generate-tables.mjs:208-231 | All 32-bit tables (shorter than 2^31) of values below a bound come back if and only if the bound is at most 2^30 - 1. |
| `PackedIndex.Unpack` | src/encoding/indexes.ts:50-84 | The loop over bytes with its typed array computes the record semantics. |
| `EncodingIndex.CreatePointers` | src/encoding/indexes.ts:35-47 | The reverse table holds, for every code point, the least pointer outside the excluded range plus one, or zero, and every entry fits the 16-bit store for up to 0xffff values. |
| `EncodingIndex.CodePointOfPointer` | src/encoding/indexes.ts:23-32 | The pointer found for a code point leads back to it; there is one exactly when some pointer outside the excluded range maps to it. |
| `EncodingIndex.EncodingIndex.Pointer` | src/encoding/indexes.ts:28-32 | The lazily built lookup: the least pointer, or null; pointer zero is not confused with a missing entry, and code point zero has no pointer. |
| `EncodingIndex.EncodingIndex.CodePointAt` | src/encoding/indexes.ts:23-25 | The entry of an unpacked table, or null when it is zero or out of range. |
| `EncodingIndex.EncodingIndex.ShiftJISPointer` | src/encoding/indexes.ts:99-107 | The same, with the duplicates at 8272 to 8835 left out. |
| `EncodingIndex.EncodingIndex.Big5Pointer` | src/encoding/indexes.ts:88-96 | The first pointer after 5023, except that U+2550, U+255E, U+2561, U+256A, U+5341 and U+5345 give their last pointer, and code point zero has none. |
| `EncodingIndex.Range` | src/encoding/indexes.ts:125-135 | The binary search returns the last range that starts at or below the value, in either column. |
| `EncodingIndex.RangesCodePoint` | src/encoding/indexes.ts:111-116 | Null exactly between 39419 and 189000 and above 1237575; 7457 gives U+E7C7; any other counts from the last range start. |
| `EncodingIndex.RangesPointer` | src/encoding/indexes.ts:118-122 | The inverse count, with U+E7C7 giving 7457. |
| `EncodingIndex.PointerOfCodePoint` | src/encoding/indexes.ts:110-135 | Over any well-formed ranges table every accepted pointer comes back from its code point. |
| `EncodingIndex.CodePointOfRangesPointer` | src/encoding/indexes.ts:110-135 | The other direction, for every code point of any well-formed table: it comes back exactly if it is the special one, or its pointer is accepted, is not the special one and stays in the range it was counted from. |
| `BodyPump.NextKeepsInv` | src/fetch/fetch.ts:1360-1431 | Every event of the body (data, end, failure, pull, task) keeps conservation, the wake-up rule and the hysteresis together. |
| `BodyPump.Conservation` | src/fetch/fetch.ts:1360-1437 | In every reachable unfailed state delivered plus buffered bytes are the received ones; a normal close has delivered everything. |
| `BodyPump.WakeUp` | src/fetch/fetch.ts:1385-1395 | In every reachable state one delivery task is queued exactly when the body has failed, has ended with nothing buffered, or has both a pull and bytes. |
| `BodyPump.Hysteresis` | src/fetch/fetch.ts:1364-1367 | In every reachable state a body that is not paused has under 64 KiB buffered, and a paused one has 32 KiB or more exactly as long as it has neither failed nor finished. |
| `BodyPump.Switches` | src/fetch/fetch.ts:1360-1428 | In every run the transport is stopped by the chunk that makes 64 KiB and let go by the delivery that leaves less than 32 KiB of an unfinished body, and by nothing else. |
| `BodyPump.ReceivesGiven` | src/fetch/fetch.ts:1360-1369 | What a body has received is all the chunks it was given before any failure, in order. |
| `BodyPump.FailedErrors` | src/fetch/fetch.ts:1376-1404 | A failed body errors its stream with the one task that is queued, and delivers nothing more. |
| `BodyPump.FinishedMayStayPaused` | src/fetch/fetch.ts:1422-1428 | A run that ends paused with nothing buffered, so the rule above needs "unless finished". |
| `BodyPump.BufferBound` | src/fetch/fetch.ts:1441-1443 | With a transport that honours pauses the buffer stays below 64 KiB plus one chunk. |
| `BodyPump.PausedServes` | src/fetch/fetch.ts:1343-1349 | A paused body serves every pull at once, and buffers strictly less after it. |
| `BodyPump.PullsResume` | src/fetch/fetch.ts:1425-1428 | Whatever the stream takes each time, at most as many pulls as there are bytes resume the transport or finish. |
| `BodyPump.RunCloses` | src/fetch/fetch.ts:1397-1431 | From every reachable state that has ended and not failed, at most one delivery for each byte left, or one if none is, closes the stream with everything delivered, whatever the stream takes each time. |
| `NetworkBody.NetworkBody.Receive` | src/fetch/fetch.ts:1360-1369 | The chunk array takes the bytes; pausing and scheduling as in the pump. |
| `NetworkBody.NetworkBody.Advance` | src/fetch/fetch.ts:1410-1420 | Dropping a consumed chunk, with or without compaction, changes no buffered byte, and compactions copy no more slots than chunks consumed. |
| `NetworkBody.NetworkBody.Deliver` | src/fetch/fetch.ts:1397-1431 | One delivery, for any amount the stream takes, is the pump's delivery, and tells the transport what the pump says. |
| `NetworkBody.NetworkBody.Fail` | src/fetch/fetch.ts:1376-1383 | Failing drops the buffer and aborts the transport, once. |
| `NetworkBody.NetworkBody.SetControl` | src/fetch/fetch.ts:1354-1358 | A control that arrives late is told what it missed. |
| `ExchangeRun.StepKeepsInv` | src/fetch/fetch.ts:545-716 | Every callback, task and cancellation of a wire exchange keeps the agreement of body, cache entry and pause state. |
| `ExchangeRun.TeeAgreement` | src/fetch/fetch.ts:686-697 | A published entry holds all decoded bytes and equals what the response stream has received when it closes, for a store that between the steps of an exchange leaves its entry alone or gives it up; `SharedTee.RunSimulated` and `SharedTee.RunBeside` prove that the shared one does. |
| `ExchangeRun.GivenUpPublishesNothing` | src/fetch/fetch.ts:561-583 | An exchange cancelled, discarded or failed before its response ended publishes nothing, ever. |
| `ExchangeRun.LostIsFinal` | src/fetch/fetch.ts:686-691 | An entry refused space even once is never published. |
| `ExchangeRun.PublicationStays` | src/fetch/fetch.ts:692-697 | After publication no step of the exchange, cancelling included, removes the entry. |
| `ExchangeRun.PausedExactlyWhenBlocked` | src/fetch/fetch.ts:560-571 | From the return of dispatch on, the transport of a live exchange is paused exactly when the body buffer or the decoder blocks, whatever ran before there was a control. |
| `ExchangeRun.DecoderFollows` | src/fetch/fetch.ts:560-571 | In every run the decoder, once there is one, is paused exactly while the body is, and aborted exactly if the body failed. |
| `ExchangeRun.BlockedExactly` | src/fetch/fetch.ts:663-671 | In every run the decoder counts as blocking exactly if it has refused input and not drained since. |
| `ExchangeRun.StepsTakeEffect` | src/fetch/fetch.ts:571-716 | In every reachable state cancelling, discarding, connecting and the end of a response take effect at once. |
| `ExchangeRun.DecodesReceived` | src/fetch/fetch.ts:663-691 | What reaches body and cache is all that was decoded, or came without need of decoding, before the exchange was given up. |
| `ExchangeRun.RunPublishes` | src/fetch/fetch.ts:686-697 | An exchange that may be stored, is not given up and loses nothing to the cache publishes all it received when its response ends, and is writing it until then. |
| `ExchangeRun.FailureAborts` | src/fetch/fetch.ts:567-570 | A failed body's transport is aborted as soon as there is one, and its entry is not left being written. |
| `TransportControl.FlowControl.Resume` | src/fetch/fetch.ts:562-566 | Resuming the output resumes the transport only if the decoder does not block. |
| `NetworkExchange.NetworkExchange.OnData` | src/fetch/fetch.ts:663-671 | Data goes to the decoder, which may block, or straight to cache and body. |
| `NetworkExchange.NetworkExchange.EndResponse` | src/fetch/fetch.ts:692-697 | Publish, let go of the entry, end the body. |
| `NetworkExchange.NetworkExchange.Cancel` | src/fetch/fetch.ts:576-583 | Cancellation fails the body and removes an entry still being written. |
| `NetworkExchange.NetworkExchange.SynchronizeControl` | src/fetch/fetch.ts:699-702 | The new control is aborted or paused as the state requires. |
| `FetchController.RunsOnce` | src/fetch/controller.ts:24-28 | Steps registered once run exactly once if they are still registered at a cancellation or are registered after one, and never otherwise. |
| `FetchController.RunsExactly` | src/fetch/controller.ts:24-28 | In every run steps are called once if they are registered at the first cancellation, however often, and once for each registration after it; a cancelled fetch is never ongoing again. |
| `FetchController.LastCancelCounts` | src/fetch/controller.ts:55-76 | A fetch is aborted or terminated as its last cancellation says. |
| `FetchController.Controller.CancelOperations` | src/fetch/controller.ts:78-82 | All registered steps are called in order, and none is left. |
| `FetchController.Controller.AddCancellationSteps` | src/fetch/controller.ts:24-28 | Steps run at once after a cancellation, and are registered before one. |
| `HttpCache.HTTPCacheStore.Reserve` | src/fetch/cache-http.ts:45-55 | Too large an entry goes; then the shortest run of oldest entries goes that meets both budgets; byte counts, partition indexes and active flags stay in step. |
| `HttpCache.HTTPCacheStore.Evict` | src/fetch/cache-http.ts:51-53 | The eviction loop drops a prefix of the use order and nothing more than the budgets need. |
| `HttpCache.HTTPCacheStore.Remove` | src/fetch/cache-http.ts:62-66 | The entry leaves the set, the byte count and its partition's index together, and becomes inactive. |
| `HttpCache.HTTPCacheStore.Touch` | src/fetch/cache-http.ts:57-60 | The entry becomes the most recently used one. |
| `HttpCache.HTTPCacheStore.Determine` | src/fetch/cache-http.ts:29-37 | One partition for each key, created on demand. |
| `HttpCache.HTTPCacheStore.ClearAll` | src/fetch/cache-http.ts:40-42 | Nothing is stored afterwards and every partition's generation moves on. |
| `HttpCache.Retained` | src/fetch/cache-http.ts:19-24 | In a valid store the bytes held, pending ones included, are the byte count and within budget; an entry is active exactly when its partition lists it, and an inactive one holds no pending bytes. |
| `HttpCache.Spared` | src/fetch/cache-http.ts:100-110 | A new entry survives its own admission exactly when the store may hold any entry. |
| `HttpCache.HTTPCachePartition.Begin` | src/fetch/cache-http.ts:100-110 | A storable response gets a new entry that records its fields, status, method and times, in set and index, evicting the oldest others; None for anything else or in a store that holds nothing. |
| `HttpCache.HTTPCachePartition.Candidates` | src/fetch/cache-http.ts:94-97 | Exactly the complete entries for this partition and URL, with the method asked for, or GET for HEAD, whose own request had the same value, or none, under every name of the stored Vary field; in the order they were begun. |
| `HttpCache.HTTPCachePartition.Select` | src/fetch/cache-http.ts:85-91 | An entry that answers the request in that sense, if there is one: with a Vary field before any without, then the latest date, then the last begun; it becomes most recently used, and nothing invalidated it since its exchange began. |
| `HttpCache.Newest` | src/fetch/cache-http.ts:279-287 | The latest date, the last begun among equals. |
| `HttpCache.HTTPCachePartition.Invalidate` | src/fetch/cache-http.ts:149-152 | Every entry of the URL goes, pending writes included, and the generation moves on. |
| `HttpCache.HTTPCachePartition.Clear` | src/fetch/cache-http.ts:154-159 | Every entry of the partition goes and the generation moves on. |
| `HttpCache.FencedAfter` | src/fetch/cache-http.ts:149-167 | Removing what an invalidation hits keeps the fence: no entry is left whose URL was invalidated after its exchange captured the generation. |
| `HttpCache.HTTPCachePartition.Replace` | src/fetch/cache-http.ts:170-178 | Exactly the other complete entries with the same method and selecting fields are discarded. |
| `CacheSelection.ReplacedExactly` | src/fetch/cache-http.ts:170-178 | Between Vary fields without repeated names, a new response replaces another exactly if both answer the same requests. |
| `CacheSelection.NothingIsLost` | src/fetch/cache-http.ts:170-178 | Whatever is replaced, the new response answers every request that the replaced one did. |
| `CacheSelection.RepeatedNameReplaces` | src/fetch/cache-http.ts:170-178 | A response selected by "a" and "b" goes when one comes that names "a" twice, though only the new one answers some requests. |
| `CacheSelection.RepetitionIsKept` | src/http/cache.ts:187-196 | A Vary field that names "A" and "a" gives "a" twice. |
| `HttpCache.HTTPCachePartition.Revalidate` | src/fetch/cache-http.ts:115-133 | A strong tag updates every match, anything weaker only the newest one identified: header list, times and Vary names of exactly those are the validated ones, and those that may no longer be stored go. |
| `HttpCache.HTTPCachePartition.TargetsExactly` | src/fetch/cache-http.ts:115-133 | What a 304 response updates, in terms of the fields: everything its strong tag names, else the latest of what its weak tag names, of what has its modification date, or the only candidate if neither response has a validator. |
| `HttpCache.HTTPCachePartition.Freshen` | src/fetch/cache-http.ts:137-145 | Each stored GET candidate gets the merged list, new times and Vary names or, when contradicted or no longer storable, is discarded; nothing else changes. |
| `HttpCache.HTTPCachePartition.FreshenedExactly` | src/fetch/cache-http.ts:137-145 | A HEAD response updates exactly the stored GET responses that answer it and agree with every ETag, Last-Modified and Content-Length it carries; one that disagrees goes, as does one that may not be stored after the update. |
| `HttpCache.HTTPCacheEntry.Append` | src/fetch/cache-http.ts:219-221 | The written bytes grow by the chunk if the entry survives the reservation, and are lost for good if not; every other entry keeps body and pending chunks, or has been given up. |
| `HttpCache.HTTPCacheEntry.Finish` | src/fetch/cache-http.ts:224-230 | An active entry is published with everything appended, and supersedes; an inactive one is not published; every other entry keeps body and pending chunks, or has been given up. |
| `HttpCache.HTTPCacheEntry.Update` | src/fetch/cache-http.ts:260-276 | The merged header list, times and Vary names; the entry is discarded when it may no longer be stored. |
| `HttpCache.CachedExchange.ReceiveHeaders` | src/fetch/fetch.ts:661 | An entry is begun, with all that the response says, exactly when the response may be stored, the store may hold any entry, and no invalidation or clearing came since the request went out; no other entry is written to. |
| `HttpCache.CachedExchange.ReceiveBytes` | src/fetch/fetch.ts:686-691 | The bytes reach the entry that the exchange holds, or it is lost; the bytes of all other exchanges stay as they were, or their entry has been given up. |
| `HttpCache.CachedExchange.EndResponse` | src/fetch/fetch.ts:692-697 | An entry still active is published with all its bytes and is no longer the exchange's to write; no other entry is written to. |
| `HttpCache.CachedExchange.Abort` | src/fetch/fetch.ts:567-570 | A failed exchange leaves no entry behind. |
| `HttpCache.CachedExchange.Conclude` | src/fetch/fetch.ts:1182-1190 | By status and method an answer invalidates its URL, freshens or revalidates, each with its whole effect; an answer that the generation has passed by changes no stored response. |
| `HttpCache.CachedExchange.Send` | src/fetch/fetch.ts:515-519 | The generation that counts for the headers is captured when the request goes out, later than the one that counts for the answer. |
| `CacheTraffic.Traffic.Do` | src/fetch/cache-http.ts:13-178 | Any interleaving step of exchanges, answers, selections, invalidations and clearings keeps the store valid, every entry holding what its own exchange was given, and every log growing; to each exchange it leaves its entry alone, appends its chunk, publishes it, or gives it up; only the headers of an exchange begin an entry, and it stays that exchange's. |
| `CacheTraffic.Traffic.RunThenSelect` | src/fetch/cache-http.ts:85-97 | Over runs: a response is selected if the cache holds one that answers the request, and then the foremost. If it was not stored at first, the exchange that began it had sent a request for that URL, with that method or GET for HEAD, and the same value under every name in the stored Vary field, and was passed exactly its bytes between headers and end, whatever all other exchanges did. |
| `CacheTraffic.Traffic.InvalidateThenSelect` | src/fetch/cache-http.ts:149-152 | Over runs: whatever happens after an invalidation, and whatever was under way before it, a response selected for that URL belongs to an exchange that was sent after the invalidation. |
| `CacheTraffic.Traffic.ClearThenSelect` | src/fetch/cache-http.ts:154-159 | The same after a clearing, for every URL of the partition. |
| `SharedTee.StepJoins` | src/fetch/fetch.ts:686-697 | Every step of the traffic, seen from one exchange, is some of the steps that can happen to an exchange alone, with the same entry and the same bytes after it. |
| `SharedTee.RunBeside` | src/fetch/fetch.ts:686-697 | So is every run: beside a run of the traffic an exchange that matched its entry before has a run of its own that matches it after. |
| `SharedTee.RunSimulated` | src/fetch/fetch.ts:545-716 | In every run of the traffic every entry is as some run of its own exchange from its start would have left it, so what is proved of such runs holds of the shared store. |
| `StoredHeaders.GetStored` | src/fetch/cache-http.ts:307-313 | A stored list keeps every end-to-end field, none of the connection's, and always has a date. |
| `StoredHeaders.StoredExactly` | src/fetch/cache-http.ts:307-318 | Every field is stored as it came but for the ten hop-by-hop ones and those that Connection lists, and a date is supplied where none is left. |
| `StoredHeaders.GetMerged` | src/fetch/cache-http.ts:260-271 | A validation replaces exactly the fields it carries, keeps the three that describe the bytes, and drops an age it does not renew. |
| `StoredHeaders.MergedExactly` | src/fetch/cache-http.ts:260-271 | After a validation a field reads as the validating response has it, or as before if that has none; Content-Length, Content-Encoding and Content-Range always read as before, and Age never does. |
| `StoredHeaders.StoredVary` | src/http/cache.ts:120-144 | The list kept of a storable response has a Vary field that parses without a wildcard. |
| `StoredHeaders.VaryOfParts` | src/http/cache.ts:187-196 | A Vary field is a list of names between commas, in any case, with blanks around them and empty members; it parses exactly if all its members are tokens or empty. |
| `StoredHeaders.StorableExactly` | src/http/cache.ts:120-144 | A response is stored exactly for GET or HEAD, without Range and no-store, with a status from 200 to 599 but 206 and 304, with a Vary field that parses without a wildcard, and if the Cache-Control policy permits. |
| `StoredHeaders.InvalidatesExactly` | src/http/cache.ts:174-176 | A 2xx or 3xx answer to anything but GET, HEAD, OPTIONS and TRACE invalidates. |
| `Text.SameExactly` | src/fetch/headers.ts:37-46 | Names are the same exactly if they differ at most in the case of ASCII letters. |
| `HeaderList.SpellingIsFirst` | src/fetch/headers.ts:50-54 | An appended line is spelled as the first line of its name, or as given when there is none. |
| `HeaderList.SetAt` | src/fetch/headers.ts:67-79 | Setting keeps the place and spelling of the first match and all lines before it. |
| `HeaderList.GetAppend` | src/fetch/headers.ts:50-54 | Appending extends the combined value of that name and of no other. |
| `HeaderList.GetDelete` | src/fetch/headers.ts:58-63 | Deleting makes the name absent and changes no other. |
| `HeaderList.GetSet` | src/fetch/headers.ts:67-79 | Setting leaves exactly that value under the name and changes no other. |
| `HeaderList.CombineValues` | src/fetch/headers.ts:82-87 | Combining extends the first line of the name only. |
| `HeaderList.GetCombine` | src/fetch/headers.ts:82-87 | Combining reads like appending exactly when the name has at most one line, or its later lines read the same before the new value as after it. |
| `HeaderList.CombineDiffers` | src/fetch/headers.ts:82-87 | With lines a and b, combining c reads "a, c, b" and appending it "a, b, c". |
| `HeaderList.FetchHeaders.GetValue` | src/fetch/headers.ts:37-46 | The comma-joined values of the matching lines, or null. |
| `HeaderList.FetchHeaders.SetValue` | src/fetch/headers.ts:67-79 | The backward splice loop keeps position and spelling of the first match and every other line. |
| `HeaderList.FetchHeaders.DeleteName` | src/fetch/headers.ts:58-63 | The backward splice loop removes exactly the matching lines. |
| `HeaderSplit.SplitCombination` | src/fetch/headers.ts:400-417 | Splitting a combination of two values is the concatenation of both splits if and only if the first one closes its quoted strings. |
| `HeaderSplit.SplitCombined` | src/fetch/headers.ts:145-148 | For any number of values: if and only if all but the last close their quoted strings. |
| `HeaderSplit.SplitOfList` | src/fetch/headers.ts:145-148 | The same for the lines of a header list. |
| `HeaderSplit.CutJoins` | src/fetch/headers.ts:400-417 | The raw parts joined by commas are the value again, and no part holds a comma outside quoted strings. |
| `HeaderSplit.JoinCuts` | src/fetch/headers.ts:400-417 | There is no other such way to cut: commas inside quoted strings never split. |
| `QuotedPieces.SplitParts` | src/fetch/headers.ts:400-417 | A value made of parts, themselves of raw characters and quoted strings with escapes, is split into exactly the texts of the parts, without the tabs and spaces around them: no comma or escaped quote inside a quoted string cuts. |
| `QuotedPieces.EveryValue` | src/http/syntax.ts:6-27 | Every value is made of such parts, of which only the last may leave a quoted string open. |
| `HeaderSplit.SplitValue` | src/fetch/headers.ts:400-417 | The cursor loop terminates and computes the split. |
| `HeaderSplit.QuotedEnd` | src/http/syntax.ts:6-27 | The collector stops right after the first closing quote, or at the end of the input. |
| `HeadersGuard.GuardedRun` | src/fetch/headers.ts:278-347 | Over any run of append, set, delete and fill, calls that throw included, the guard's promise about the list holds: safelisted under no-CORS, no forbidden line for requests and responses. |
| `HeadersGuard.NoCORSRun` | src/fetch/headers.ts:278-302 | Starting empty, every name readable from a no-CORS list is one of the four, and its combined value is safelisted and at most 128 bytes. |
| `HeadersGuard.ProtectedRun` | src/fetch/headers.ts:355-362 | No run of calls changes the combined value of a name the guard protects, whatever the list held. |
| `HeadersGuard.CombinedOverride` | src/fetch/headers.ts:525-532 | While all lines but the last close their quoted strings, a method-override name is forbidden as combined exactly when one of its lines is. |
| `HeadersGuard.ExtendedOverride` | src/fetch/headers.ts:525-532 | What is read once a line is appended is forbidden exactly when that line is, for every line, if and only if the permitted value before it closes its quoted strings. |
| `HeadersGuard.OverrideSlipsThrough` | src/fetch/headers.ts:278-290 | Two permitted appends to an empty request list, the first of them a lone quote, leave a combined override that names TRACE. |
| `HeadersGuard.OverrideRun` | src/fetch/headers.ts:278-347 | Over any run of calls whose override values close their quoted strings, what is read under an override name stays permitted. |
| `HeaderCalls.SetReads` | src/fetch/headers.ts:326-333 | The exact condition, guard by guard, under which `set` takes effect; then the name reads as the value without surrounding white space, Range is gone under no-CORS, and every other name reads as before. Otherwise nothing changes. |
| `HeaderCalls.AppendReads` | src/fetch/headers.ts:278-290 | The same for `append`: the name then reads as before with the value after a comma. |
| `HeaderCalls.DeleteReads` | src/fetch/headers.ts:294-302 | The same for `delete`: nothing reads under the name any more. |
| `HeaderCalls.ThrowsExactly` | src/fetch/headers.ts:355-362 | A call throws exactly for a name that is no token, else for a value with a line break, NUL or character above a byte, else for an immutable list. |
| `HeaderCalls.FillAppends` | src/fetch/headers.ts:337-346 | `fill` appends the entries up to the first that is no pair or throws, and throws for that one. |
| `HeaderCalls.NormalizedExactly` | src/fetch/headers.ts:278-290 | Normalizing drops the tabs, spaces and line breaks at both ends of a value, and nothing else. |
| `HeadersGuard.HeadersImpl.Append` | src/fetch/headers.ts:278-290 | Normalize, validate, check the would-be combined value, append, drop Range; a throw changes nothing. |
| `HeadersGuard.HeadersImpl.Set` | src/fetch/headers.ts:326-333 | The same for set: with `HeaderCalls.SetReads`, what the object then reads. |
| `HeadersGuard.HeadersImpl.Delete` | src/fetch/headers.ts:294-302 | The same for delete. |
| `HeadersGuard.HeadersImpl.Fill` | src/fetch/headers.ts:337-346 | Entries are appended in order up to the first that throws, which is reported. |
| `Multipart.RoundTrip` | src/fetch/multipart.ts:14-110 | Parsing the encoding gives the entries back (escapes kept, text line endings CRLF, an empty type octet-stream, blanks around a type gone) if and only if the delimiter occurs in no body, no name or filename holds a backslash, and every type without its blanks is one that the File constructor keeps, whatever follows the closing delimiter. |
| `Multipart.BackslashIsLost` | src/fetch/multipart.ts:112-117 | A field whose name holds a backslash does not come back: the printer leaves it, and the parser takes it for an escape. |
| `Multipart.BrokenTypeIsLost` | src/fetch/multipart.ts:32-36 | A file of the host with the type "text/plain" and a line break does not come back. |
| `Multipart.PreambleIgnored` | src/fetch/multipart.ts:71-76 | Text before the first delimiter that holds none changes nothing. |
| `Multipart.RoundTripPlain` | src/fetch/multipart.ts:14-110 | Entries that are safe to print and read back as themselves do so together. |
| `Multipart.Unchanged` | src/fetch/multipart.ts:23-36 | An entry reads back as it was exactly when its names hold no quote or line break, its text has CRLF line endings, and its type is nonempty without surrounding blanks. |
| `Multipart.PartReadsBack` | src/fetch/multipart.ts:92-107 | One printed part: read exactly, with its end found, or not read as itself when its body holds the delimiter, a name a backslash, or the type a character that the File constructor rejects. |
| `Multipart.FindsDelimiter` | src/fetch/multipart.ts:92-93 | The next delimiter is found at the end of the body, or earlier just when the body holds one; a header section never holds one. |
| `MultipartForms.FormExactly` | src/fetch/multipart.ts:54-110 | The parser accepts exactly the bodies of this grammar, with a good boundary: perhaps a preamble, parts between padded delimiter lines, two hyphens after the last; each part gives its entry, a file of type text/plain if it names none. |
| `MultipartForms.SectionExactly` | src/fetch/multipart.ts:119-191 | A header section is accepted exactly if every unfolded line is a field, just one of them a disposition of the grammar with a name, and at most one a type, and gives what those say. |
| `MultipartForms.LinesJoin` | src/fetch/multipart.ts:119-123 | A section is cut at every CRLF and nowhere else. |
| `MultipartForms.UnfoldsNothing` | src/fetch/multipart.ts:119-123 | Text without a folded line is not changed by unfolding. |
| `DispositionGrammar.AcceptsExactly` | src/fetch/multipart.ts:138-191 | A disposition is accepted exactly if it is form-data, in any case, and parameters with distinct names, whose values are tokens or quoted strings, with blanks and comments between all of these. |
| `DispositionGrammar.GivesNamed` | src/fetch/multipart.ts:152-191 | What it gives for a name is what the parameter of that name says, quoted pairs resolved. |
| `MultipartPrinter.PrintedExactly` | src/fetch/multipart.ts:14-40 | The text of a printed part and of the closing delimiter, character by character. |
| `MultipartPrinter.NormalizedLine` | src/fetch/multipart.ts:23-31 | Each CR, LF or CRLF becomes one CRLF, and everything else stays. |
| `MultipartPrinter.EscapeOne` | src/fetch/multipart.ts:112-117 | A quote, CR or LF in a name becomes %22, %0D or %0A, and any other character stays. |
| `MultipartText.NoOverlap` | src/fetch/multipart.ts:92 | A pattern whose first character occurs only once in it cannot match across the start of another occurrence. |
| `MultipartHeaders.SectionReadsBack` | src/fetch/multipart.ts:119-191 | Name, filename and type of a printed header section are parsed back; with a backslash in a name they are not. |
| `MultipartHeaders.ParameterOf` | src/fetch/multipart.ts:152-186 | A printed parameter is parsed back, and parsing stops right after it, exactly when its value holds no backslash. |
| `MultipartHeaders.FoldingUndone` | src/fetch/multipart.ts:119-123 | A header line folded anywhere reads as if it stood on one line. |
| `MultipartHeaders.CommentSkipped` | src/fetch/multipart.ts:200-221 | A comment is skipped, nested comments and quoted pairs included. |
| `MultipartText.NormalizedCanonical` | src/fetch/multipart.ts:23-31 | Normalized text has only CRLF line endings. |
| `MultipartText.EscapeQuotable` | src/fetch/multipart.ts:112-117 | Escaped names hold no quote or line break. |
| `MultipartScanner.ParseFormData` | src/fetch/multipart.ts:54-110 | The position loop terminates and computes the parse, errors in the order the source raises them. |
| `MultipartScanner.ParsePartHeaders` | src/fetch/multipart.ts:119-191 | The line and parameter loops compute the header fields or the first error. |
| `MultipartScanner.SkipWhitespaceAndComments` | src/fetch/multipart.ts:200-221 | Blanks and nested comments with quoted pairs are skipped, or an unterminated one is reported. |
| `MultipartScanner.EncodeFormData` | src/fetch/multipart.ts:14-40 | The loop that collects the pieces computes the encoding. |
| `CorsCache.RunSound` | src/fetch/cache-cors.ts:18-41 | In every run: at most one unexpired entry for each exact permission, each with the deadline of its last store since the last clearing, and never more than the maximum of entries. |
| `CorsCache.MatchSound` | src/fetch/cache-cors.ts:56-75 | A match at time t means a permission that grants the request, stored last with an unexpired capped lifetime and not cleared since; `CorsGrants.MatchesExactly` says which permissions do. |
| `CorsCache.MatchExact` | src/fetch/cache-cors.ts:56-75 | For every run, at any time from the last event on, it matches if and only if a grant in force lets the request do this and has not been shifted out of a full cache since it was stored. |
| `CorsGrants.MatchesExactly` | src/fetch/cache-cors.ts:18-103 | For every run of calls and any time from the last on: the cache lets a request use a method or header exactly if some store, for the same key, origin and URL, which no later store or clearing undid, and which is neither expired nor shifted out, named it, with credentials if the request has them; or stored "*", the request has none, and it is not Authorization. |
| `CorsGrants.WildcardsAreNotEnough` | src/fetch/cache-cors.ts:92-103 | Where only wildcards were stored, Authorization is never let through, nor anything with credentials. |
| `CorsCache.HeldExactly` | src/fetch/cache-cors.ts:18-52 | A permission has an unexpired entry exactly while its last grant is in force and was not shifted out. |
| `CorsCache.FewStay` | src/fetch/cache-cors.ts:36-41 | Nothing is shifted out while no more were stored than the cache may hold. |
| `CorsCache.GrantIsHeld` | src/fetch/cache-cors.ts:36-41 | What is stored with an unexpired deadline is held; in a full cache the oldest entry makes room. |
| `CorsCache.StoredLive` | src/fetch/cache-cors.ts:24-41 | A store gives its permission the new deadline; of the other live entries all stay, but for the oldest of a full cache. |
| `CorsCache.StoredSingle` | src/fetch/cache-cors.ts:18-41 | With one entry for each permission before a store there is one after it, exactly unless an entry of the permission expires between the two clock readings and is not the oldest one shifted out. |
| `CorsCache.LapsedEntryRemains` | src/fetch/cache-cors.ts:18-41 | An entry that expires at 5 stays beside its successor when a store at 4 reads the clock again at 6. |
| `CorsCache.CORSPreflightCache.StoreGrant` | src/fetch/cache-cors.ts:18-41 | Filtering, refreshing, pushing and shifting compute the next list, with two clock readings. |
| `CorsCache.CORSPreflightCache.ClearEntries` | src/fetch/cache-cors.ts:45-52 | Exactly the permissions of the partition, origin and URL go. |
| `CorsCache.CORSPreflightCache.MatchesQuery` | src/fetch/cache-cors.ts:66-103 | The scan answers whether a live entry grants the request. |
| `RedirectChain.AtMostTwentyRedirects` | src/fetch/fetch.ts:279-331 | Whatever the servers answer, a fetch sends at most twenty-one requests. |
| `RedirectChain.TraceHops` | src/fetch/fetch.ts:139-170 | Each request of a chain is one server answer, one redirect step and one main fetch away from the one before, with the redirect count one higher. |
| `RedirectChain.BodyOverChain` | src/fetch/fetch.ts:299-329 | A body is sent again only from its retained source, with the same method; once dropped it stays dropped, together with the headers about it. |
| `RedirectChain.RewriteIsFinal` | src/fetch/fetch.ts:302-307 | After a rewrite to GET all later requests are GET, without body and request-body headers. |
| `RedirectChain.AuthorizationDropped` | src/fetch/fetch.ts:308-310 | After a hop to another origin no later request of the chain carries the author's Authorization. |
| `RedirectChain.AuthorizationStaysHome` | src/fetch/fetch.ts:308-310 | So of two requests of a chain to different hosts the later one never carries it. |
| `RedirectChain.TraceDescends` | src/fetch/fetch.ts:278-331 | Along the chain author fields are dropped but never changed or added, and a tainted response never becomes basic again. |
| `RedirectAnswers.FollowsExactly` | src/fetch/fetch.ts:278-331 | A redirect is followed exactly if the status is 301, 302, 303, 307 or 308, one Location line parses to an HTTP(S) URL, fewer than twenty came before, credentials are allowed, and no streamed body is to be sent again; what is then requested, field by field. |
| `RedirectAnswers.StopsExactly` | src/fetch/fetch.ts:278-326 | It delivers the answer exactly if that has another status or no Location line, and faults exactly for a GET or HEAD with a streamed body answered 303; anything else is a network error. |
| `RedirectAnswers.SentExactly` | src/fetch/fetch.ts:139-170 | What is sent for a request: the URL perhaps upgraded, the navigation header, and the tainting by mode and origin, or nothing for another origin in same-origin mode. |
| `RedirectAnswers.DeliversExactly` | src/fetch/fetch.ts:278-284 | A fetch delivers a response exactly if it is the answer to the last request sent and has none of the five statuses or no Location line. |
| `RedirectAnswers.ChainStarts` | src/fetch/fetch.ts:139-170 | A chain starts with the request given, as it is sent. |
| `RedirectAnswers.ChainLeads` | src/fetch/fetch.ts:278-331 | Each later request of a chain is where the answer to the one before it leads, continued and sent in these senses. |
| `RedirectAnswers.ChainStops` | src/fetch/fetch.ts:278-331 | A chain whose last answer leads on stopped because the next request may not be sent. |
| `RedirectChain.FaultExactly` | src/fetch/fetch.ts:299-326 | A fetch ends in the internal error over a missing body source exactly when its first request is a GET or HEAD with a streamed body and the first answer is a 303 that the redirect step would follow. |
| `RedirectChain.GetWithStreamFaults` | src/fetch/fetch.ts:324-326 | Such a fetch exists: a GET with a streamed body, which an internal caller may fetch (the Request constructor refuses it), and a server that answers 303. |
| `RedirectChain.FetchRequest.HTTPRedirect` | src/fetch/fetch.ts:278-331 | The in-place changes of the request are the redirect step. |
| `RedirectChain.FetchRequest.MainFetch` | src/fetch/fetch.ts:139-170 | Main fetch and redirect call each other only finitely often (measure: twenty less the redirect count), and send what the chain says. |

## Left out

- Promises, realms, event-loop tasks and Web IDL conversions as JavaScript objects: they are events, flags and counters here.
- Callbacks that re-enter the body or a decoder while it is calling them, and cancellation steps that re-enter the controller.
- Sharing of byte arrays: a queued or cached chunk is a value, so a caller that mutates a supplied array is not modelled.
- Codecs other than UTF-8: queue processing is proved for every codec that is a fold with retained state; their handlers are not part of this model.
- Utf8Bulk.UTF8Decoder.Decode: the platform's decoders of complete input are taken to write what the standard's handler writes; the decoder is not called again after its input ended inside a sequence, which no caller does (`Utf8Fields.ReusedDecodes` says what its fields would do).
- The base64 step of packed tables, and the tables' contents: the index theorems hold for every table, those about ranges for every well-formed one.
- UTF-8 inside multipart: names, filenames and text are byte strings as encoded, and a header section is parsed as bytes; the characters the parser looks for are ASCII. The round trip of UTF-8 itself is `Utf8.DecodeEncode`.
- SharedTee: exchanges are joined to the store inside dispatch and with uncoded content; decoding comes before the tee and does not touch the entry.
- CacheTraffic.Traffic.Do: what a transport might call outside its order (headers once, then bytes, then the end or a failure) does nothing here.
- CORSPreflightCache: its limits are fixed when it is made.
- HTTPCacheStore: limits are fixed when the store is made; dates, entity tag syntax and the Cache-Control policy are parameters, and freshness and materialization are not modelled.
- HeadersGuard: MIME type parsing is a parameter; the Range branch of the CORS safelist is not modelled, since no guard reaches it.
- HeaderList: iteration order, structured fields, length and MIME type extraction; names are ASCII, as HTTP tokens are.
- RedirectChain: URL parsing and upgrades are parameters, manual and error redirect modes, service workers, referrers and timing are left out; the first URL is an HTTP(S) one.
- FetchController: abort reasons, timing and manual redirect steps.
- The authentication retry loop, connection reuse, policy predicates and preflight requests themselves.
- Native addon code, platform declarations, and the tooling around web platform tests.
