# BlueDuff burst reassembly, in Dafny

BlueDuff is an Android client library for serial-style Bluetooth (RFCOMM)
links to microcontroller boards. Its receive side has no framing protocol.
Each loop iteration sleeps, asks the input stream how many bytes are
`available()`, and then does one of two things:

- If bytes are available, it reads into a fixed scratch buffer. The chunk
  either starts a new `currentBuffer` or is appended to it.
- If none are available, the bytes collected so far are handed out as one
  packet, and the loop goes back to idle.

This project models that state machine in both revisions of the library:

- `BlueDuff.receiveBytes`, driven by `loopReceiveAndWrite`, which stops at
  the first exception.
- `InputStreamWrapper.manageNextPacket` and its helpers, driven by
  `receiveMessages`. This loop reports every exception and keeps going. It
  decodes each packet into text.

The model also covers the first revision's constructors and its `write`.

A run of the loop is a finite sequence of events:

- `Poll(available, chunk)`: `available()` returned `available`, and when
  that is positive, `read` delivered `chunk`.
- `Fail`: the iteration threw before it changed any field.

Each loop is a pure function folded over such a trace.

Modules:

- `Reassembly` (`reassembly.dfy`) holds the shared data: bytes, events and
  the `receivedData`/`currentBuffer` accumulator. It also holds a
  declarative reference framing, `Bursts`. A burst is a maximal non-empty run
  of positive polls closed by a non-positive one, and its message is the
  run's chunks joined in order.
- `BlueDuff` (`blueduff.dfy`) is the first revision.
- `InputStreamWrapper` (`input_stream_wrapper.dfy`) is the second revision.
  It is proved to take the same step as the first, so its framing theorem
  follows from the first revision's.

The model follows the code in these places, where a reader might expect otherwise:

- A packet does not clear `currentBuffer`; only `receivedData` is reset. The
  stale bytes stay in the field. They are provably never observed, because
  the next chunk replaces them (`StaleBufferIgnored`).
- A read is bounded by the scratch buffer's capacity, not by the number
  `available()` reported.
- A positive poll whose read returns 0 bytes still opens a burst. So a burst
  can be "accumulating" with an empty buffer, and it is later handed out as
  an empty packet.
- The second revision does not stop on a read failure. It reports the
  failure and continues with its fields unchanged.
- The second revision never validates `bluetoothSleep`. A negative delay
  makes every iteration throw in `Thread.sleep`, so that loop only reports
  errors.
- The first revision's `write` reports a failure only by returning 0. It
  calls no error callback.

Modelling choices:

- A `read` reporting more bytes than the scratch buffer holds is treated as a
  failing iteration. Copying that many bytes out of the buffer with
  `System.arraycopy` throws. A conforming stream never does this.
- A `read` that returns -1 (end of stream) makes `new byte[-1]` throw. It is
  represented by `Fail`.
- Text decoding is a parameter (`TextCodec`): a charset lookup that can fail,
  plus the platform default decoder.

## Model

| member | source | states |
|---|---|---|
| `Reassembly.JoinArrays` | app/src/main/java/pl/lukmarr/blueduff/BlueDuff.java:244-249 | the two `arraycopy` calls yield an array of length `aLen + bLen` holding the old buffer first and the new chunk after it |
| `BlueDuff.NewBlueDuff` | app/src/main/java/pl/lukmarr/blueduff/BlueDuff.java:74-81 | construction succeeds iff capacity >= 1 and delay >= 0 and then stores both values; capacity is checked first, so a bad capacity is the reported error even when the delay is bad too |
| `BlueDuff.DefaultBlueDuff` | app/src/main/java/pl/lukmarr/blueduff/BlueDuff.java:70-72 | the no-argument constructor succeeds with capacity 1024 and delay 10 |
| `BlueDuff.Write` | app/src/main/java/pl/lukmarr/blueduff/BlueDuff.java:128-143 | for a non-null array: returns the full length only for an open stream whose write succeeds, and 0 for no stream or a throwing write, whose exception is caught; never anything in between |
| `BlueDuff.ReceiveBytes` | app/src/main/java/pl/lukmarr/blueduff/BlueDuff.java:233-263 | a positive poll extends the burst's pending bytes (none when idle) by the chunk, at most `capacity` bytes, emits nothing and marks the burst open; it throws exactly when the chunk overruns the scratch buffer; a non-positive poll (zero or negative alike) hands out the buffer iff a burst was open, always leaves idle and keeps `currentBuffer` as it was |
| `BlueDuff.Iterate` | app/src/main/java/pl/lukmarr/blueduff/BlueDuff.java:218-227 | an iteration throws exactly on the events it cannot survive (a failed poll or an oversized read), whatever the accumulator holds |
| `BlueDuff.Drive` | app/src/main/java/pl/lukmarr/blueduff/BlueDuff.java:217-229 | the loop never reports `onConnected`; an error can only be the second-to-last signal, is a read failure, and is followed by `onCompleted`, which never appears otherwise |
| `BlueDuff.LoopReceiveAndWrite` | app/src/main/java/pl/lukmarr/blueduff/BlueDuff.java:206-231 | without both streams: exactly one error and nothing else (no `onConnected`, no poll); with both: `onConnected` first iff a callback was given and never again, and at most one error, directly before `onCompleted` |
| `BlueDuff.AccumulateRun` | app/src/main/java/pl/lukmarr/blueduff/BlueDuff.java:236-253 | a run of positive polls emits nothing and leaves the buffer equal to the pending bytes followed by every chunk of the run, in arrival order |
| `BlueDuff.BurstEmitsOnce` | app/src/main/java/pl/lukmarr/blueduff/BlueDuff.java:236-262 | from idle, a burst closed by a non-positive poll produces exactly one `onDataReceived` (then `onNext`) whose packet is the in-order concatenation of its chunks, and leaves the loop idle |
| `BlueDuff.IdleGapIsSilent` | app/src/main/java/pl/lukmarr/blueduff/BlueDuff.java:254-262 | a zero or negative poll while idle changes nothing and reports nothing |
| `BlueDuff.EmptyReadOpensBurst` | app/src/main/java/pl/lukmarr/blueduff/BlueDuff.java:238-258 | a positive poll whose read yields 0 bytes still sets `receivedData`, so the next empty poll hands out an empty packet |
| `BlueDuff.SameBaseSameSignals` | app/src/main/java/pl/lukmarr/blueduff/BlueDuff.java:243-261 | two loops whose fields agree on the flag and on the open burst's bytes report identical signals on every trace |
| `BlueDuff.StaleBufferIgnored` | app/src/main/java/pl/lukmarr/blueduff/BlueDuff.java:243-261 | once idle, whatever bytes an earlier burst or connection left in `currentBuffer` never reach any later packet |
| `BlueDuff.DriveMatchesBursts` | app/src/main/java/pl/lukmarr/blueduff/BlueDuff.java:217-262 | from idle, on a trace without exceptions, the loop hands out exactly the reference bursts, each once, in order, each the concatenation of its chunks, and nothing else |
| `BlueDuff.FirstFaultEndsLoop` | app/src/main/java/pl/lukmarr/blueduff/BlueDuff.java:217-229 | the first failing iteration appends exactly one error and `onCompleted`; nothing after it is polled and no packet follows |
| `BlueDuff.LoopContract` | app/src/main/java/pl/lukmarr/blueduff/BlueDuff.java:206-263 | with both streams open: optional `onConnected`, then the bursts completed before the first exception, then one error and completion |
| `BlueDuff.MessageLengthUnbounded` | app/src/main/java/pl/lukmarr/blueduff/BlueDuff.java:238-253 | although each read is bounded by the capacity, for any length there is a trace on which the loop, started idle, hands out exactly one packet of that length |
| `InputStreamWrapper.NewWrapper` | app/src/main/java/pl/lukmarr/blueduff2/InputStreamWrapper.java:27-41 | the field setup of the constructor, the state the receive loop starts from: idle with an empty `currentBuffer` and a scratch buffer of `bufferCapacity` bytes; a negative capacity throws |
| `InputStreamWrapper.OnReceiveData` | app/src/main/java/pl/lukmarr/blueduff2/InputStreamWrapper.java:126-133 | the result has both lengths summed, the old bytes first and the new chunk after them |
| `InputStreamWrapper.OnBytesReceived` | app/src/main/java/pl/lukmarr/blueduff2/InputStreamWrapper.java:110-124 | idle: the buffer becomes exactly the chunk; mid-burst: the old bytes then the chunk; either way `receivedData` is set; it throws iff the chunk overruns the scratch buffer |
| `InputStreamWrapper.ByteToString` | app/src/main/java/pl/lukmarr/blueduff2/InputStreamWrapper.java:136-142 | decodes with the charset registered under the configured name; when the name is unsupported, decodes with the platform default instead of failing |
| `InputStreamWrapper.ManageNextPacket` | app/src/main/java/pl/lukmarr/blueduff2/InputStreamWrapper.java:92-99 | a positive count dispatches to `onBytesReceived` and pushes nothing, throwing iff the chunk overruns the scratch buffer; a zero or negative count dispatches to `onBytesRead` |
| `InputStreamWrapper.OnBytesRead` | app/src/main/java/pl/lukmarr/blueduff2/InputStreamWrapper.java:101-108 | pushes one value, `byteToString(currentBuffer)`, iff a burst was open; always clears `receivedData` and touches nothing else |
| `InputStreamWrapper.Iteration` | app/src/main/java/pl/lukmarr/blueduff2/InputStreamWrapper.java:81-89 | an iteration reports exactly one error iff it cannot complete (the configured delay is negative, so `Thread.sleep` throws, or the event is a failed poll or an oversized read), and then leaves the fields as they were |
| `InputStreamWrapper.ReceiveMessages` | app/src/main/java/pl/lukmarr/blueduff2/InputStreamWrapper.java:78-90 | the loop reports one error per failing iteration and keeps going |
| `InputStreamWrapper.NegativeSleepOnlyReports` | app/src/main/java/pl/lukmarr/blueduff2/InputStreamWrapper.java:78-90 | nothing rejects a negative `bluetoothSleep`; with one, every iteration throws in `Thread.sleep`, so the loop reports exactly one error per iteration and never pushes a value |
| `InputStreamWrapper.FaultsAreSkipped` | app/src/main/java/pl/lukmarr/blueduff2/InputStreamWrapper.java:81-89 | the values pushed for a trace equal those for the same trace with its failing events removed, so an exception mid-burst neither drops nor splits the burst |
| `InputStreamWrapper.AgreesWithFirstRevision` | app/src/main/java/pl/lukmarr/blueduff2/InputStreamWrapper.java:92-133 | `manageNextPacket` throws exactly when `receiveBytes` does, leaves the same fields and pushes the decoded form of the packet `receiveBytes` hands out |
| `InputStreamWrapper.MirrorsFirstRevision` | app/src/main/java/pl/lukmarr/blueduff2/InputStreamWrapper.java:78-133 | on a trace where every iteration completes, the second loop pushes the decoded packets of the first loop, in the same order |
| `InputStreamWrapper.DeliversBursts` | app/src/main/java/pl/lukmarr/blueduff2/InputStreamWrapper.java:92-124 | from idle, when every iteration completes, each reference burst is decoded and pushed exactly once, in order |
| `InputStreamWrapper.ReceiveMessagesContract` | app/src/main/java/pl/lukmarr/blueduff2/InputStreamWrapper.java:78-133 | from idle on any trace: one error per failing iteration, and the pushed values are the decoded bursts of the events whose iterations complete (none when the delay is negative) |
| `InputStreamWrapper.UnsupportedCharsetFallsBack` | app/src/main/java/pl/lukmarr/blueduff2/InputStreamWrapper.java:136-142 | with an unsupported charset every burst is still pushed, decoded with the platform default |

## Left out

- Device listing, socket creation and connect. This includes the RFCOMM
  UUID and the secure/insecure choice. They are Android Bluetooth I/O.
- The Rx plumbing of the first revision: `connectToDevice`,
  `connectToFirstDevice`, `writeData`, `closeStreams` and the
  `subscribeOn`/`observeOn` scheduling. They open sockets and move work
  between threads.
- BlueDuff.LoopReceiveAndWrite: the stream opening in `getStreamsWork`
  (lines 193-201) is not modelled; the loop starts from given streams with
  `receivedData` reset to idle, as line 199 does. When opening a stream
  throws, line 197 reports "error on opening input stream" and the `finally`
  block still runs the loop. With a stream field left null, the subscriber
  then gets a second error, "i/o crashed" (line 230). With both fields
  still holding an earlier connection's streams, the loop calls
  `onConnected` and polls those old streams after the error was reported.
- InputStreamWrapper.NewWrapper: models the constructor's field setup only
  (lines 36-41). Line 42 then calls `openInputStream`, which runs on the
  caller's thread: when `socket.getInputStream()` succeeds, the constructor
  itself runs `receiveMessages` (line 60) from the state `NewWrapper`
  describes, so it does not return while the callbacks return normally.
  It returns only when `getInputStream` throws, which leaves `is` null and
  the error swallowed by `onErrorReturn` (lines 63-68), or when an
  exception escapes the loop. Socket access is Android I/O and is left out.
- The length of the poll delay (`COLLECT_PAYLOAD_DELAY`, `bluetoothSleep`).
  Timing is not modelled; a poll is one event. The delay's one effect on the
  results is modelled: the first revision rejects a negative delay when it is
  constructed (line 77), while the second revision never checks it, so
  `Thread.sleep` (line 83) throws on every iteration (`Completes`,
  `NegativeSleepOnlyReports`).
- Neither loop has an exit of its own for a finite run: the first revision
  leaves only after a failed iteration, and the second never leaves while
  its callbacks return normally. The model covers every finite prefix of
  their iterations.
- `OutputStreamWrapper`, `BlueDuffie.disconnect` and
  `InputStreamWrapper.close`. These are thin calls onto the Java streams.
- Logging, `LogLevel` and `isVerbose`. They do not change any result for
  the inputs modelled here; they matter only for a null array passed to
  `write` (next line).
- BlueDuff.Write: does not model a null `bytes` array. At the default
  `VERBOSE` level, line 130 reads `bytes.length` outside the try, so
  `write(null)` throws a NullPointerException out of `write`. At other levels,
  `write(null)` returns 0: an open stream's NPE is caught at lines 135-136,
  and with no stream line 141 returns 0. The model's bytes are always a
  sequence.
- BlueDuff.LoopReceiveAndWrite: assumes the callbacks return normally. If
  `firstWriter.onConnected()` (line 213, outside the try) throws, the
  exception leaves the method with no `onError` and no `onCompleted`. If
  `onDataReceived` (line 258) or `subscriber.onNext` (line 259) throws, the
  catch ends the loop with the error and completion. When `onDataReceived`
  throws, the signals hold an `OnDataReceived` with no `OnNext`, which `Emit`
  never produces. When `onNext` throws, the signals match the model's, but
  the loop ends although the iteration's event was one it survives.
- InputStreamWrapper.ReceiveMessages: assumes the callbacks return normally.
  `connectionCallbacks.onError` runs inside the catch (line 87). If it throws,
  or if `connectionCallbacks` is null, the `while (true)` loop ends, which the
  model never does.
- Charset encoding and decoding internals. These are library calls, left
  uninterpreted in `TextCodec`.
- The message carried by the second revision's `onError`. It is an
  exception's text and is modelled as a bare error report.
- In the first revision, `currentBuffer` starts as `null`, not empty. It is
  never read while idle, so the model starts it empty.
- `BlueDuffie.java:117` calls the `InputStreamWrapper` constructor with
  arguments that do not match its declaration. The wrapper is modelled as
  declared.
- Java `int` overflow of `aLen + bLen` for a message over 2^31-1 bytes. In
  the model, message length is unbounded.
