/**
  First revision of the receiver (`BlueDuff`): configuration, the write path,
  the per-tick rule `receiveBytes` and the loop `loopReceiveAndWrite` that
  drives it until the first exception, folded over a finite trace of events.
 */
module BlueDuff {
  import opened Reassembly

  const DefaultBufferCapacity: int := 1024
  const DefaultCollectPacketDelay: int := 10

  /** `BUFFER_CAPACITY` and `COLLECT_PAYLOAD_DELAY` of a constructed instance. */
  datatype Config = Config(bufferCapacity: nat, collectPayloadDelay: nat)

  datatype ConfigError =
    | IllegalBufferCapacity(value: int)
    | IllegalCollectPacketDelay(value: int)

  datatype Construction = Constructed(config: Config) | Rejected(error: ConfigError)

  /** The two-argument constructor: capacity is checked before the delay. */
  function NewBlueDuff(bufferCapacity: int, collectPacketDelay: int): (r: Construction)
    ensures r.Constructed? <==> bufferCapacity >= 1 && collectPacketDelay >= 0
    ensures r.Constructed? ==>
              && r.config.bufferCapacity == bufferCapacity
              && r.config.collectPayloadDelay == collectPacketDelay
    ensures bufferCapacity < 1 ==> r.error == IllegalBufferCapacity(bufferCapacity)
    ensures bufferCapacity >= 1 && collectPacketDelay < 0 ==>
              r.error == IllegalCollectPacketDelay(collectPacketDelay)
  {
    if bufferCapacity < 1 then Rejected(IllegalBufferCapacity(bufferCapacity))
    else if collectPacketDelay < 0 then Rejected(IllegalCollectPacketDelay(collectPacketDelay))
    else Constructed(Config(bufferCapacity, collectPacketDelay))
  }

  /** The no-argument constructor delegates with the defaults. */
  function DefaultBlueDuff(): (r: Construction)
    ensures r.Constructed?
    ensures r.config == Config(1024, 10)
  {
    NewBlueDuff(DefaultBufferCapacity, DefaultCollectPacketDelay)
  }

  /** The `outputStream` field: absent, or a stream whose `write` throws or not. */
  datatype OutputPort = Unopened | Opened(writeThrows: bool)

  /**
    `write(bytes)`: the whole array on success, zero when there is no output
    stream or the write throws; the exception never leaves the call.
   */
  function Write(port: OutputPort, bytes: seq<byte>): (written: nat)
    ensures written == |bytes| || written == 0
    ensures port == Opened(false) ==> written == |bytes|
    ensures port != Opened(false) ==> written == 0
  {
    match port
    case Unopened => 0
    case Opened(writeThrows) => if writeThrows then 0 else |bytes|
  }

  /** Result of one call of `receiveBytes`: the new fields and any packet handed out. */
  datatype Outcome =
    | Continue(next: Accumulator, packet: Option<seq<byte>>)
    | Threw

  /**
    `receiveBytes(bytesReceived, buffer, ...)` with a scratch buffer of
    `capacity` bytes; `chunk` is what `read(buffer)` delivers when it is called.
   */
  function ReceiveBytes(capacity: nat, s: Accumulator, bytesReceived: int, chunk: seq<byte>): (r: Outcome)
    // a read throws exactly when it would overrun the scratch buffer
    ensures r.Threw? <==> bytesReceived > 0 && |chunk| > capacity
    // a read extends the pending bytes of the burst (nothing, when idle) by at most `capacity` bytes
    ensures r.Continue? && bytesReceived > 0 ==>
              && r.next.receivedData
              && r.packet.None?
              && r.next.currentBuffer == Base(s) + chunk
              && |r.next.currentBuffer| <= |Base(s)| + capacity
    // an empty poll hands out the buffer once if a burst was open, and closes it
    ensures bytesReceived <= 0 ==>
              && r.Continue?
              && !r.next.receivedData
              && (r.packet.Some? <==> s.receivedData)
              && (r.packet.Some? ==> r.packet.value == s.currentBuffer)
              && r.next.currentBuffer == s.currentBuffer
  {
    if bytesReceived > 0 then
      if |chunk| > capacity then Threw
      else if s.receivedData then Continue(Accumulator(true, s.currentBuffer + chunk), None)
      else Continue(Accumulator(true, chunk), None)
    else
      Continue(Accumulator(false, s.currentBuffer),
               if s.receivedData then Some(s.currentBuffer) else None)
  }

  /** One loop iteration: sleep, `available()`, then `receiveBytes`. */
  function Iterate(capacity: nat, s: Accumulator, e: Event): (r: Outcome)
    ensures r.Threw? <==> !Survivable(capacity, e)
  {
    match e
    case Fail => Threw
    case Poll(available, chunk) => ReceiveBytes(capacity, s, available, chunk)
  }

  datatype LoopError =
    | StreamsNotOpen   // "i/o crashed"
    | ReadFailed       // "error during reading input stream"

  /** What the loop reports to its callbacks and its subscriber, in order. */
  datatype Signal =
    | OnConnected
    | OnDataReceived(packet: seq<byte>)
    | OnNext
    | OnError(error: LoopError)
    | OnCompleted

  /** Each packet goes to `onDataReceived`, followed by `onNext(true)`. */
  function Emit(packet: Option<seq<byte>>): seq<Signal> {
    match packet
    case None => []
    case Some(p) => [OnDataReceived(p), OnNext]
  }

  /** The signals for a list of packets handed out one after another. */
  function Announce(packets: seq<seq<byte>>): seq<Signal> {
    if |packets| == 0 then []
    else [OnDataReceived(packets[0]), OnNext] + Announce(packets[1..])
  }

  /**
    The `while (communicationNotCrashed)` loop over a finite prefix of its
    iterations, starting from fields `s`. The first iteration that throws
    reports one error and completes the subscriber; nothing after it is polled.
   */
  function Drive(capacity: nat, s: Accumulator, es: seq<Event>): (r: seq<Signal>)
    ensures forall i :: 0 <= i < |r| ==> !r[i].OnConnected?
    ensures forall i :: 0 <= i < |r| && r[i].OnError? ==>
              i == |r| - 2 && r[i].error == ReadFailed && r[i + 1] == OnCompleted
    ensures forall i :: 0 <= i < |r| && r[i].OnCompleted? ==> i == |r| - 1 && i >= 1 && r[i - 1].OnError?
    decreases |es|
  {
    if |es| == 0 then []
    else
      match Iterate(capacity, s, es[0])
      case Threw => [OnError(ReadFailed), OnCompleted]
      case Continue(next, packet) => Emit(packet) + Drive(capacity, next, es[1..])
  }

  /** Whether the `inputStream` and `outputStream` fields are set. */
  datatype Streams = Streams(inputOpen: bool, outputOpen: bool)

  /**
    `loopReceiveAndWrite`: without both streams a single error and nothing
    else; otherwise `onConnected` (when a callback is given) before the first
    poll, then the loop.
   */
  function LoopReceiveAndWrite(config: Config, streams: Streams, hasFirstWriter: bool,
                               s: Accumulator, es: seq<Event>): (r: seq<Signal>)
    ensures !(streams.inputOpen && streams.outputOpen) ==> r == [OnError(StreamsNotOpen)]
    ensures streams.inputOpen && streams.outputOpen ==>
              && (hasFirstWriter <==> |r| > 0 && r[0] == OnConnected)
              && (forall i :: 0 <= i < |r| && r[i].OnConnected? ==> i == 0)
              && (forall i :: 0 <= i < |r| && r[i].OnError? ==>
                    r[i].error == ReadFailed && i == |r| - 2 && r[i + 1] == OnCompleted)
  {
    if streams.inputOpen && streams.outputOpen then
      (if hasFirstWriter then [OnConnected] else []) + Drive(config.bufferCapacity, s, es)
    else
      [OnError(StreamsNotOpen)]
  }

  /** The fields after a run of arrivals: unchanged for an empty run. */
  function AfterRun(s: Accumulator, run: seq<Event>): Accumulator {
    if |run| == 0 then s else Accumulator(true, Base(s) + Chunks(run))
  }

  /**
    A run of arrivals that fit the scratch buffer emits nothing; afterwards
    the buffer holds the pending bytes followed by the run's chunks in order.
   */
  lemma {:induction false} AccumulateRun(capacity: nat, s: Accumulator, run: seq<Event>, rest: seq<Event>)
    requires forall i :: 0 <= i < |run| ==> Arrival(run[i]) && Survivable(capacity, run[i])
    ensures Drive(capacity, s, run + rest) == Drive(capacity, AfterRun(s, run), rest)
    decreases |run|
  {
    if |run| == 0 {
      assert run + rest == rest;
    } else {
      var e := run[0];
      var s1 := Accumulator(true, Base(s) + e.chunk);
      assert Iterate(capacity, s, e) == Continue(s1, None);
      assert (run + rest)[0] == e;
      assert (run + rest)[1..] == run[1..] + rest;
      assert Drive(capacity, s, run + rest) == Drive(capacity, s1, run[1..] + rest);
      AccumulateRun(capacity, s1, run[1..], rest);
      assert Chunks(run) == e.chunk + Chunks(run[1..]);
      assert AfterRun(s1, run[1..]) == AfterRun(s, run);
    }
  }

  /**
    From idle, a burst of arrivals closed by an empty poll is handed out
    exactly once, as the in-order concatenation of its chunks; the burst is
    then closed.
   */
  lemma BurstEmitsOnce(capacity: nat, s: Accumulator, burst: seq<Event>, gap: Event, rest: seq<Event>)
    requires !s.receivedData
    requires |burst| > 0
    requires forall i :: 0 <= i < |burst| ==> Arrival(burst[i]) && Survivable(capacity, burst[i])
    requires gap.Poll? && gap.available <= 0
    ensures Drive(capacity, s, burst + [gap] + rest)
            == [OnDataReceived(Chunks(burst)), OnNext] + Drive(capacity, Accumulator(false, Chunks(burst)), rest)
  {
    assert burst + [gap] + rest == burst + ([gap] + rest);
    AccumulateRun(capacity, s, burst, [gap] + rest);
    assert Base(s) + Chunks(burst) == Chunks(burst);
    assert ([gap] + rest)[1..] == rest;
  }

  /** An empty poll while idle reports nothing and keeps the loop idle. */
  lemma IdleGapIsSilent(capacity: nat, s: Accumulator, available: int, chunk: seq<byte>, rest: seq<Event>)
    requires !s.receivedData
    requires available <= 0
    ensures ReceiveBytes(capacity, s, available, chunk) == Continue(s, None)
    ensures Drive(capacity, s, [Poll(available, chunk)] + rest) == Drive(capacity, s, rest)
  {
  }

  /** An arrival whose read yields no bytes still opens a burst: the next empty poll hands out an empty packet. */
  lemma EmptyReadOpensBurst(capacity: nat, s: Accumulator, available: int, closing: int, chunk: seq<byte>, rest: seq<Event>)
    requires !s.receivedData
    requires available > 0 && closing <= 0
    ensures Drive(capacity, s, [Poll(available, []), Poll(closing, chunk)] + rest)
            == [OnDataReceived([]), OnNext] + Drive(capacity, Accumulator(false, []), rest)
  {
  }

  /**
    Loops that agree on the flag and on the pending bytes report the same
    signals, whatever stale bytes an idle buffer still holds.
   */
  lemma {:induction false} SameBaseSameSignals(capacity: nat, s1: Accumulator, s2: Accumulator, es: seq<Event>)
    requires s1.receivedData == s2.receivedData && Base(s1) == Base(s2)
    ensures Drive(capacity, s1, es) == Drive(capacity, s2, es)
    decreases |es|
  {
    if |es| > 0 {
      match Iterate(capacity, s1, es[0])
      case Threw =>
      case Continue(n1, p1) =>
        var n2 := Iterate(capacity, s2, es[0]).next;
        SameBaseSameSignals(capacity, n1, n2, es[1..]);
    }
  }

  /**
    No stale bytes: once idle, the bytes left in `currentBuffer` by an earlier
    burst (or an earlier connection) never reach any later packet.
   */
  lemma {:induction false} StaleBufferIgnored(capacity: nat, stale1: seq<byte>, stale2: seq<byte>, es: seq<Event>)
    ensures Drive(capacity, Accumulator(false, stale1), es) == Drive(capacity, Accumulator(false, stale2), es)
  {
    SameBaseSameSignals(capacity, Accumulator(false, stale1), Accumulator(false, stale2), es);
  }

  /**
    Framing theorem: from idle, on a trace without exceptions, the loop hands
    out exactly the reference bursts, each once and in order, and nothing else.
   */
  lemma {:induction false} DriveMatchesBursts(capacity: nat, s: Accumulator, es: seq<Event>)
    requires !s.receivedData
    requires FaultFree(capacity, es)
    ensures Drive(capacity, s, es) == Announce(Bursts(es))
    decreases |es|
  {
    var g := Gap(es);
    if g == |es| {
      assert es + [] == es;
      AccumulateRun(capacity, s, es, []);
    } else {
      var run, gap, tail := es[..g], es[g], es[g + 1..];
      assert es == run + [gap] + tail;
      assert Survivable(capacity, gap);
      assert FaultFree(capacity, tail) by {
        assert forall i :: 0 <= i < |tail| ==> tail[i] == es[g + 1 + i];
      }
      if g == 0 {
        assert es == [gap] + tail;
        assert gap == Poll(gap.available, gap.chunk);
        IdleGapIsSilent(capacity, s, gap.available, gap.chunk, tail);
        assert Drive(capacity, s, es) == Drive(capacity, s, tail);
        DriveMatchesBursts(capacity, s, tail);
        assert Bursts(es) == [] + Bursts(tail);
        assert Bursts(es) == Bursts(tail);
      } else {
        assert forall i :: 0 <= i < |run| ==> run[i] == es[i];
        BurstEmitsOnce(capacity, s, run, gap, tail);
        DriveMatchesBursts(capacity, Accumulator(false, Chunks(run)), tail);
        var bs := [Chunks(run)] + Bursts(tail);
        assert bs[1..] == Bursts(tail);
      }
    }
  }

  /**
    The first iteration that throws ends the loop: one `onError`, then
    `onCompleted`, with no packet after it and no later event polled.
   */
  lemma {:induction false} FirstFaultEndsLoop(capacity: nat, s: Accumulator, ok: seq<Event>, e: Event, rest: seq<Event>)
    requires FaultFree(capacity, ok)
    requires !Survivable(capacity, e)
    ensures Drive(capacity, s, ok + [e] + rest) == Drive(capacity, s, ok) + [OnError(ReadFailed), OnCompleted]
    decreases |ok|
  {
    if |ok| == 0 {
      assert ok + [e] + rest == [e] + rest;
    } else {
      assert (ok + [e] + rest)[0] == ok[0];
      assert (ok + [e] + rest)[1..] == ok[1..] + [e] + rest;
      assert Survivable(capacity, ok[0]);
      var next := Iterate(capacity, s, ok[0]).next;
      assert FaultFree(capacity, ok[1..]) by {
        assert forall i :: 0 <= i < |ok[1..]| ==> ok[1..][i] == ok[i + 1];
      }
      FirstFaultEndsLoop(capacity, next, ok[1..], e, rest);
    }
  }

  /**
    The loop's whole contract on a trace whose first exception comes after
    the events `ok`: `onConnected` first (when given), each completed burst
    of `ok` once and in order, then exactly one error and completion.
   */
  lemma {:induction false} LoopContract(config: Config, hasFirstWriter: bool, stale: seq<byte>,
                     ok: seq<Event>, e: Event, rest: seq<Event>)
    requires FaultFree(config.bufferCapacity, ok)
    requires !Survivable(config.bufferCapacity, e)
    ensures LoopReceiveAndWrite(config, Streams(true, true), hasFirstWriter, Accumulator(false, stale), ok + [e] + rest)
            == (if hasFirstWriter then [OnConnected] else [])
               + Announce(Bursts(ok))
               + [OnError(ReadFailed), OnCompleted]
  {
    var s := Accumulator(false, stale);
    FirstFaultEndsLoop(config.bufferCapacity, s, ok, e, rest);
    DriveMatchesBursts(config.bufferCapacity, s, ok);
  }

  /** `count` one-byte arrivals. */
  function OneByteArrivals(count: nat): (run: seq<Event>)
    ensures |run| == count
    ensures forall i :: 0 <= i < count ==> run[i] == Poll(1, [0])
  {
    if count == 0 then [] else [Poll(1, [0])] + OneByteArrivals(count - 1)
  }

  lemma {:induction false} OneByteChunks(count: nat)
    ensures |Chunks(OneByteArrivals(count))| == count
  {
    if count > 0 {
      assert OneByteArrivals(count)[1..] == OneByteArrivals(count - 1);
      OneByteChunks(count - 1);
    }
  }

  /**
    Each read is bounded by the scratch buffer, but a message is not: for
    any length there is a trace on which the loop, started idle, hands out
    exactly one packet, and that packet is that long.
   */
  lemma MessageLengthUnbounded(capacity: nat, length: nat)
    requires capacity >= 1
    ensures exists es :: && FaultFree(capacity, es)
                         && Drive(capacity, Initial, es) == Announce(Bursts(es))
                         && |Bursts(es)| == 1 && |Bursts(es)[0]| == length
  {
    var run := [Poll(1, [])] + OneByteArrivals(length);
    var es := run + [Poll(0, [])];
    assert Gap(es) == length + 1 by {
      assert forall i :: 0 <= i < length + 1 ==> es[i] == run[i] && Arrival(run[i]);
      assert !Arrival(es[length + 1]);
    }
    assert es[..length + 1] == run;
    assert es[length + 2..] == [];
    assert run[1..] == OneByteArrivals(length);
    OneByteChunks(length);
    assert FaultFree(capacity, es);
    assert Bursts(es) == [Chunks(run)];
    DriveMatchesBursts(capacity, Initial, es);
  }
}
