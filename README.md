# Voice conversation client: message handlers and audio playback framing

A model of the deterministic core of `conversation.py`, a duplex voice client for a
conversational speech agent. The client streams microphone audio to the agent and, at the
same time, receives two sorts of server messages:

- text messages (`AddTranscript`, `ResponseCompleted`, `ResponseInterrupted`, `Error`,
  `Warning`), each turned into at most one console line by `message_handler` or
  `error_handler`;
- binary audio messages, which `binary_msg_handler` puts on a FIFO queue. The
  `audio_playback` task drains that queue into the output device. Each round starts a
  fresh buffer, appends whole chunks while the buffer holds fewer than `CHUNK_SIZE`
  (1024) bytes, and then writes the whole buffer.

Layout:

- `wrappers.dfy`: `Option`, used for absent fields and for "printed nothing".
- `server_messages.dfy` (module `ServerMessages`): the loosely typed `Message`
  (a dictionary with optional `message`, `metadata.transcript`, `content` and `details`,
  or a value that is not a dictionary). It also holds Python's `str.strip()` over the
  `str.isspace()` character set, and `MessageHandler` and `ErrorHandler` as functions
  returning the printed line. `SEE_TRANSCRIPTS` is the constant `true`.
- `registrations.dfy` (module `Registrations`): the kind → handler table registered with
  the client.
- `framing.dfy` (module `Framing`): the reference definition of playback. `FillCount`
  counts the chunks one round takes. `Segments` groups an input into the runs of chunks
  that make up each write. `Frames(chunks)` gives `(writes, pending)`. Lemmas prove that
  this grouping is the only one with the loop's properties.
- `playback.dfy` (module `Playback`): the class `AudioPipeline`. It holds the queue, a
  ghost log of dequeued chunks and a ghost log of device writes. `Push` models
  `binary_msg_handler`. `Get` models `audio_queue.get()`. `FillBuffer` is the inner loop,
  and `PlaybackStep` is one round. `Drain` runs the playback loop over everything queued.

A round writes its whole buffer. The buffer may be longer than `CHUNK_SIZE`, and a chunk
is never split: the inner loop only checks the buffer's size before taking the next whole
chunk. `Framing.WriteMayExceedChunkSize` shows this on chunks of 1000, 1000 and 48 bytes,
which produce one 2000-byte write. `Framing.WholeChunksPassThrough` shows one case where
every write is exactly `CHUNK_SIZE` bytes: every chunk has that size. Other inputs also
give exact writes: `Framing.HalfChunksMakeExactWrite` shows chunks of 512 and 512 bytes
giving one 1024-byte write.

## Model

| member | source | states |
|---|---|---|
| `ServerMessages.TrimStart` | conversation.py:51 | the result is a suffix of the input that does not start with whitespace, and everything removed is whitespace |
| `ServerMessages.TrimEnd` | conversation.py:51 | the result is a prefix of the input that does not end with whitespace, and everything removed is whitespace |
| `ServerMessages.Strip` | conversation.py:51 | `strip()` returns a contiguous piece of the input with only whitespace before and after it, and the piece neither starts nor ends with whitespace |
| `ServerMessages.StripNonEmptyIff` | conversation.py:51 | `transcript.strip()` is truthy exactly when the transcript has a character that is not whitespace |
| `ServerMessages.MessageHandler` | conversation.py:43-64 | only a dictionary of kind AddTranscript, ResponseCompleted or ResponseInterrupted can print, and its line starts with `"User: "`, `"AI (completed): "` or `"AI (interrupted): "` respectively |
| `ServerMessages.MessageHandlerIgnoresOtherKinds` | conversation.py:43-48 | a non-dictionary, or a kind other than AddTranscript / ResponseCompleted / ResponseInterrupted, prints nothing; a missing `message` reads as "" and is also silent |
| `ServerMessages.TranscriptLine` | conversation.py:48-52 | AddTranscript prints if and only if `metadata` and `metadata.transcript` are present and the transcript has a visible character; the line is `"User: "` followed by the untrimmed transcript |
| `ServerMessages.ResponseKindsLabelledApart` | conversation.py:55-64 | missing or empty `content` prints nothing for both response kinds; the same non-empty content gives two different lines, both ending in that content |
| `ServerMessages.MessageHandlerLines` | conversation.py:43-64 | the complete set of lines `message_handler` can print, stated without `strip` |
| `ServerMessages.ErrorHandler` | conversation.py:72-79 | prints if and only if the message is a dictionary of kind Error or Warning, and the line ends with `details` ("" when missing) |
| `ServerMessages.ErrorHandlerLines` | conversation.py:72-79 | `error_handler` prints exactly for dictionaries of kind Error or Warning, as `"Error: "` / `"Warning: "` followed by `details`; a missing `details` reads as "" and still prints |
| `ServerMessages.ErrorAndWarningDistinguishable` | conversation.py:76-79 | an error line and a warning line always differ, whatever their details |
| `Registrations.HandlersFor` | conversation.py:82-87 | a handler is among those for a kind exactly when it was registered for that kind; there are no more handlers than registrations |
| `Registrations.HandlersForOne` | conversation.py:82 | one registration yields its handler for its own kind and nothing for any other |
| `Registrations.HandlersForAppend` | conversation.py:82-87 | handlers are collected in registration order with repeats kept: the handlers of a table split in two are those of the first part followed by those of the second |
| `Registrations.RegisteredKindsDistinct` | conversation.py:82-87 | six registrations, for AddAudio, AddTranscript, ResponseCompleted, ResponseInterrupted, Error and Warning, no kind registered twice |
| `Registrations.UnregisteredKindIsDropped` | conversation.py:82-87 | a kind outside the six registered kinds reaches no handler |
| `Registrations.HandledKindsAreRouted` | conversation.py:82-87 | every message that `message_handler` or `error_handler` would print for is routed to that handler, and to it alone |
| `Framing.FillCount` | conversation.py:100-102 | the number of chunks one round takes is at most the number available, and at least one when the buffer is short and a chunk is available |
| `Framing.FillCountStops` | conversation.py:100-102 | the fill loop stops where the source's `while` does: the chunks taken bring the buffer to `CHUNK_SIZE` if the input has enough bytes, otherwise all chunks are taken; without the last one taken the buffer is still below `CHUNK_SIZE` |
| `Framing.FirstGroup` | conversation.py:99-102 | on an input with at least `CHUNK_SIZE` bytes, one round takes a frame group: a non-empty run of chunks that reaches `CHUNK_SIZE` only with its last chunk |
| `Framing.FillCountOfGroup` | conversation.py:100-102 | the fill loop stops exactly at the end of a frame group, whatever follows it |
| `Framing.Segments` | conversation.py:95-105 | the input is cut, in order and without loss, into frame groups followed by pending chunks totalling fewer than `CHUNK_SIZE` bytes |
| `Framing.SegmentsUnique` | conversation.py:95-105 | any cut into frame groups and a short remainder is the one the loop makes |
| `Framing.Frames` | conversation.py:95-105 | all writes followed by the pending buffer are exactly the input bytes in FIFO order; every write has at least `CHUNK_SIZE` bytes; the pending buffer has fewer |
| `Framing.SegmentsAfterWritten` | conversation.py:95-97 | with nothing pending, playback of later chunks starts from a fresh buffer: the frames of `done + more` are those of `done` followed by those of `more` |
| `Framing.SegmentsExtend` | conversation.py:95-105 | adding one frame group to a fully written input adds exactly one write, its concatenation |
| `Framing.WholeChunksPassThrough` | conversation.py:95-105 | when every chunk is exactly `CHUNK_SIZE` bytes, each is written on its own and nothing is pending |
| `Framing.WriteMayExceedChunkSize` | conversation.py:100-105 | chunks of 1000, 1000 and 48 bytes (2 × `CHUNK_SIZE` in all) give one 2000-byte write and 48 pending bytes: writes are not truncated to `CHUNK_SIZE` |
| `Framing.HalfChunksMakeExactWrite` | conversation.py:100-105 | two chunks of 512 bytes give one write of exactly `CHUNK_SIZE` bytes and nothing pending: exact writes do not need chunks of that size |
| `Playback.AudioPipeline.constructor` | conversation.py:40 | the queue starts empty, with nothing dequeued or written |
| `Playback.AudioPipeline.Push` | conversation.py:67-69 | bytes or a bytearray is appended at the tail; anything else leaves the queue unchanged; queued entries are never altered or reordered |
| `Playback.AudioPipeline.Get` | conversation.py:101 | removes and returns the oldest chunk and logs it as dequeued |
| `Playback.AudioPipeline.FillBuffer` | conversation.py:97-102 | the buffer is the concatenation of exactly the `FillCount` chunks at the head of the queue, and those chunks leave the queue in order |
| `Playback.AudioPipeline.PlaybackStep` | conversation.py:95-105 | one round writes the next frame group of the queue as a single write and keeps the invariant "writes = framing of everything dequeued" |
| `Playback.AudioPipeline.PlayWholeRounds` | conversation.py:95-105 | rounds run while the queue holds `CHUNK_SIZE` bytes; they consume whole frame groups from the head, write each one, and keep "writes = framing of everything dequeued" |
| `Playback.AudioPipeline.Drain` | conversation.py:95-105 | draining the queue writes exactly `Frames(queue).writes` and leaves `Frames(queue).pending` in the buffer; every queued chunk is dequeued in order |
| `Playback.WrittenIsDequeued` | conversation.py:95-105 | between rounds, the concatenated device writes equal the concatenated dequeued chunks: nothing lost, duplicated or reordered |

## Left out

- The `WebsocketClient`, `ConnectionSettings`, the SSL context, the API token and
  `.env` loading (conversation.py:17-37): network and process setup. How the client
  decides which callback to call is library code and is not part of this model. The
  registration table is modelled, and `Registrations.HandlersFor` assumes the lookup rule
  the lemmas about routing rely on: a message goes to every handler registered for its
  kind, in registration order. That rule is assumed, not taken from the client's code.
- The pyaudio device (`PyAudio()`, `open`, `stream.write`, and the stop/close/terminate
  teardown in `finally`): device I/O. A write is recorded only as an entry in the ghost
  log `written`.
- `main` (conversation.py:111-140): library configuration objects and `asyncio.gather`
  over two tasks. It has no logic to state.
- Concurrency and suspension. The endless `while True` and the waiting
  `await audio_queue.get()` become `Drain`, which runs the loop over what is queued and
  stops where the source would wait. At that point the partial buffer is returned as
  `pending`. `PlaybackStep` requires the queue to hold enough bytes for a round to
  complete without waiting.
- Message field values are modelled as strings, and `metadata` as a dictionary. In the
  source, a non-string `transcript` makes `strip()` fail. A non-string `content` or
  `details` is formatted with `str()`, and a non-dictionary `metadata` is tested with
  its own `in`. None of this is modelled.
- `Playback.AudioPipeline.Push`: a `bytearray` is mutable and stays shared between the
  caller and the queue in the source. The model enqueues its value, so later mutation
  through that alias is not captured. Subclasses of `bytes`/`bytearray` are folded into
  the two payload cases.
- The console itself: a printed line is the handler's `Some(line)` result, without the
  trailing newline that `print` adds.
