/**
  Second revision of the receiver (`InputStreamWrapper`): the same
  accumulator split into small helpers, a text decoding step on each packet,
  and a loop that reports every exception and keeps going.
 */
module InputStreamWrapper {
  import opened Reassembly
  import BlueDuff

  /** Turning bytes into text with one charset. */
  type Decoder = seq<byte> -> string

  /**
    The platform's charsets, left uninterpreted: the decoder registered
    under a name (none for an unsupported name) and the platform default.
   */
  datatype TextCodec = TextCodec(lookup: string -> Option<Decoder>, platformDefault: Decoder)

  /** Connection settings handed to the wrapper. */
  datatype BluetoothBundle = BluetoothBundle(charset: string, bluetoothSleep: int, bufferCapacity: int)

  /** The wrapper's fields: its settings, the scratch `buffer`'s length and the accumulator. */
  datatype Wrapper = Wrapper(bundle: BluetoothBundle, scratchLength: nat, state: Accumulator)

  datatype Construction = Constructed(wrapper: Wrapper) | NegativeArraySize(length: int)

  /**
    The constructor's field setup: idle with an empty `currentBuffer`, and a
    scratch buffer of `bufferCapacity` bytes (allocating a negative length throws).
   */
  function NewWrapper(bundle: BluetoothBundle): (r: Construction)
    ensures r.Constructed? <==> bundle.bufferCapacity >= 0
    ensures r.Constructed? ==>
              && r.wrapper.state == Initial
              && r.wrapper.scratchLength == bundle.bufferCapacity
              && r.wrapper.bundle == bundle
    ensures r.NegativeArraySize? ==> r.length == bundle.bufferCapacity
  {
    if bundle.bufferCapacity < 0 then NegativeArraySize(bundle.bufferCapacity)
    else Constructed(Wrapper(bundle, bundle.bufferCapacity, Accumulator(false, [])))
  }

  /**
    `byteToString`: the configured charset, or the platform default when it
    is unsupported. It always yields a text, so decoding never stops a packet.
   */
  function ByteToString(codec: TextCodec, charset: string, bytes: seq<byte>): (text: string)
    ensures codec.lookup(charset).Some? ==> text == codec.lookup(charset).value(bytes)
    ensures codec.lookup(charset).None? ==> text == codec.platformDefault(bytes)
  {
    match codec.lookup(charset)
    case Some(decode) => decode(bytes)
    case None => codec.platformDefault(bytes)
  }

  /**
    `onReceiveData`: the new chunk is appended after the bytes already
    collected. The array copies that build the result are modelled by
    `Reassembly.JoinArrays`, whose contract shows they yield this concatenation.
   */
  function OnReceiveData(currentBuffer: seq<byte>, newBuffer: seq<byte>): (c: seq<byte>)
    ensures |c| == |currentBuffer| + |newBuffer|
    ensures c[..|currentBuffer|] == currentBuffer
    ensures c[|currentBuffer|..] == newBuffer
  {
    currentBuffer + newBuffer
  }

  /**
    `onBytesReceived`: read into the scratch buffer, then replace the buffer
    (idle) or append to it (mid-burst). `None` when copying the chunk out of
    the scratch buffer throws.
   */
  function OnBytesReceived(w: Wrapper, chunk: seq<byte>): (r: Option<Accumulator>)
    ensures r.None? <==> |chunk| > w.scratchLength
    ensures r.Some? ==> r.value.receivedData
    ensures r.Some? && !w.state.receivedData ==> r.value.currentBuffer == chunk
    ensures r.Some? && w.state.receivedData ==>
              && |r.value.currentBuffer| == |w.state.currentBuffer| + |chunk|
              && r.value.currentBuffer[..|w.state.currentBuffer|] == w.state.currentBuffer
              && r.value.currentBuffer[|w.state.currentBuffer|..] == chunk
  {
    if |chunk| > w.scratchLength then None
    else if w.state.receivedData then Some(Accumulator(true, OnReceiveData(w.state.currentBuffer, chunk)))
    else Some(Accumulator(true, chunk))
  }

  /** The new fields after one `manageNextPacket`, and what it pushed to `readStream`. */
  datatype Tick = Tick(next: Accumulator, pushed: Option<string>)

  /**
    `onBytesRead`: mid-burst, push the decoded buffer once; in every case
    leave the burst closed. The buffer's bytes stay where they are.
   */
  function OnBytesRead(codec: TextCodec, w: Wrapper): (r: Tick)
    ensures !r.next.receivedData
    ensures r.next.currentBuffer == w.state.currentBuffer
    ensures r.pushed.Some? <==> w.state.receivedData
    ensures r.pushed.Some? ==> r.pushed.value == ByteToString(codec, w.bundle.charset, w.state.currentBuffer)
  {
    Tick(Accumulator(false, w.state.currentBuffer),
         if w.state.receivedData then Some(ByteToString(codec, w.bundle.charset, w.state.currentBuffer)) else None)
  }

  /**
    `manageNextPacket`: a positive count reads (`None` when that throws) and
    pushes nothing; any other count, negative included, closes the burst.
   */
  function ManageNextPacket(codec: TextCodec, w: Wrapper, bytesReceived: int, chunk: seq<byte>): (r: Option<Tick>)
    ensures r.None? <==> bytesReceived > 0 && |chunk| > w.scratchLength
    ensures bytesReceived > 0 && r.Some? ==> r.value == Tick(OnBytesReceived(w, chunk).value, None)
    ensures bytesReceived <= 0 ==> r == Some(OnBytesRead(codec, w))
  {
    if bytesReceived > 0 then
      match OnBytesReceived(w, chunk)
      case None => None
      case Some(next) => Some(Tick(next, None))
    else
      Some(OnBytesRead(codec, w))
  }

  /** What the loop produces: a value on `readStream`, or an `onError` callback. */
  datatype Output = Pushed(text: string) | ErrorReported

  /** The fields after one iteration, and its outputs. */
  datatype Turn = Turn(after: Wrapper, outputs: seq<Output>)

  /**
    An iteration of `receiveMessages` over `e` completes without an exception:
    `Thread.sleep` accepts the configured delay (nothing validates it, and a
    negative one throws before `available()` is called) and the poll is one
    an iteration survives.
   */
  predicate Completes(bundle: BluetoothBundle, capacity: nat, e: Event) {
    bundle.bluetoothSleep >= 0 && Survivable(capacity, e)
  }

  /** Every iteration over `es` completes. */
  predicate Uninterrupted(bundle: BluetoothBundle, capacity: nat, es: seq<Event>) {
    forall i :: 0 <= i < |es| ==> Completes(bundle, capacity, es[i])
  }

  /**
    One iteration of `receiveMessages`: sleep, `available()`, then
    `manageNextPacket`. An exception is reported and the fields stay exactly
    as they were before the iteration.
   */
  function Iteration(codec: TextCodec, w: Wrapper, e: Event): (r: Turn)
    ensures !Completes(w.bundle, w.scratchLength, e) <==> r.outputs == [ErrorReported]
    ensures !Completes(w.bundle, w.scratchLength, e) ==> r.after == w
    ensures r.after.bundle == w.bundle && r.after.scratchLength == w.scratchLength
  {
    if w.bundle.bluetoothSleep < 0 then Turn(w, [ErrorReported])
    else
    match e
    case Fail => Turn(w, [ErrorReported])
    case Poll(available, chunk) =>
      match ManageNextPacket(codec, w, available, chunk)
      case None => Turn(w, [ErrorReported])
      case Some(tick) =>
        Turn(w.(state := tick.next), if tick.pushed.Some? then [Pushed(tick.pushed.value)] else [])
  }

  /** The number of events an iteration cannot survive. */
  function Faults(bundle: BluetoothBundle, capacity: nat, es: seq<Event>): nat {
    if |es| == 0 then 0
    else (if Completes(bundle, capacity, es[0]) then 0 else 1) + Faults(bundle, capacity, es[1..])
  }

  function ErrorCount(outputs: seq<Output>): nat {
    if |outputs| == 0 then 0
    else (if outputs[0].ErrorReported? then 1 else 0) + ErrorCount(outputs[1..])
  }

  /**
    `receiveMessages`, the `while (true)` loop, over a finite prefix of its
    iterations: one error report per failing iteration, and no iteration
    ends the loop.
   */
  function ReceiveMessages(codec: TextCodec, w: Wrapper, es: seq<Event>): (r: seq<Output>)
    ensures ErrorCount(r) == Faults(w.bundle, w.scratchLength, es)
    decreases |es|
  {
    if |es| == 0 then []
    else
      var turn := Iteration(codec, w, es[0]);
      ErrorDistributes(turn.outputs, ReceiveMessages(codec, turn.after, es[1..]));
      turn.outputs + ReceiveMessages(codec, turn.after, es[1..])
  }

  lemma {:induction false} ErrorDistributes(a: seq<Output>, b: seq<Output>)
    ensures ErrorCount(a + b) == ErrorCount(a) + ErrorCount(b)
    decreases |a|
  {
    if |a| > 0 {
      assert (a + b)[0] == a[0];
      assert (a + b)[1..] == a[1..] + b;
      ErrorDistributes(a[1..], b);
    } else {
      assert a + b == b;
    }
  }

  /** The values pushed to `readStream`, in order. */
  function Delivered(outputs: seq<Output>): seq<Output> {
    if |outputs| == 0 then []
    else (if outputs[0].Pushed? then [outputs[0]] else []) + Delivered(outputs[1..])
  }

  lemma {:induction false} DeliveredDistributes(a: seq<Output>, b: seq<Output>)
    ensures Delivered(a + b) == Delivered(a) + Delivered(b)
    decreases |a|
  {
    if |a| > 0 {
      assert (a + b)[0] == a[0];
      assert (a + b)[1..] == a[1..] + b;
      DeliveredDistributes(a[1..], b);
    } else {
      assert a + b == b;
    }
  }

  /** The events whose iterations complete, in order. */
  function Healthy(bundle: BluetoothBundle, capacity: nat, es: seq<Event>): (h: seq<Event>)
    ensures Uninterrupted(bundle, capacity, h)
  {
    if |es| == 0 then []
    else (if Completes(bundle, capacity, es[0]) then [es[0]] else []) + Healthy(bundle, capacity, es[1..])
  }

  /**
    A failing iteration is invisible to the framing: the values pushed for a
    trace are those pushed for the same trace with its failing events removed,
    so a burst interrupted by an exception is still delivered whole.
   */
  lemma {:induction false} FaultsAreSkipped(codec: TextCodec, w: Wrapper, es: seq<Event>)
    ensures Delivered(ReceiveMessages(codec, w, es)) == ReceiveMessages(codec, w, Healthy(w.bundle, w.scratchLength, es))
    decreases |es|
  {
    if |es| > 0 {
      var turn := Iteration(codec, w, es[0]);
      var rest := ReceiveMessages(codec, turn.after, es[1..]);
      DeliveredDistributes(turn.outputs, rest);
      FaultsAreSkipped(codec, turn.after, es[1..]);
      if Completes(w.bundle, w.scratchLength, es[0]) {
        var h := [es[0]] + Healthy(w.bundle, w.scratchLength, es[1..]);
        assert Healthy(w.bundle, w.scratchLength, es) == h;
        assert h[0] == es[0] && h[1..] == Healthy(w.bundle, w.scratchLength, es[1..]);
        assert Delivered(turn.outputs) == turn.outputs;
      } else {
        assert Healthy(w.bundle, w.scratchLength, es) == Healthy(w.bundle, w.scratchLength, es[1..]);
        assert Delivered(turn.outputs) == [];
        assert turn.after == w;
      }
    }
  }

  /**
    A negative delay is never rejected, so every iteration throws in
    `Thread.sleep`: the loop reports one error per iteration and never reads
    or pushes anything.
   */
  lemma {:induction false} NegativeSleepOnlyReports(codec: TextCodec, w: Wrapper, es: seq<Event>)
    requires w.bundle.bluetoothSleep < 0
    ensures |ReceiveMessages(codec, w, es)| == |es|
    ensures forall i :: 0 <= i < |es| ==> ReceiveMessages(codec, w, es)[i] == ErrorReported
    decreases |es|
  {
    if |es| > 0 {
      var turn := Iteration(codec, w, es[0]);
      assert turn == Turn(w, [ErrorReported]);
      NegativeSleepOnlyReports(codec, w, es[1..]);
      var rest := ReceiveMessages(codec, w, es[1..]);
      assert ReceiveMessages(codec, w, es) == [ErrorReported] + rest;
    }
  }

  /** What the first revision's signals become in this one: each packet pushed as text. */
  function Relay(codec: TextCodec, charset: string, signals: seq<BlueDuff.Signal>): seq<Output> {
    if |signals| == 0 then []
    else
      (if signals[0].OnDataReceived? then [Pushed(ByteToString(codec, charset, signals[0].packet))] else [])
      + Relay(codec, charset, signals[1..])
  }

  lemma {:induction false} RelayDistributes(codec: TextCodec, charset: string, a: seq<BlueDuff.Signal>, b: seq<BlueDuff.Signal>)
    ensures Relay(codec, charset, a + b) == Relay(codec, charset, a) + Relay(codec, charset, b)
    decreases |a|
  {
    if |a| > 0 {
      assert (a + b)[0] == a[0];
      assert (a + b)[1..] == a[1..] + b;
      RelayDistributes(codec, charset, a[1..], b);
    } else {
      assert a + b == b;
    }
  }

  /**
    Both revisions take the same step: `manageNextPacket` throws exactly when
    `receiveBytes` does, leaves the same fields, and pushes the decoded form
    of the packet `receiveBytes` hands out.
   */
  lemma AgreesWithFirstRevision(codec: TextCodec, w: Wrapper, bytesReceived: int, chunk: seq<byte>)
    ensures ManageNextPacket(codec, w, bytesReceived, chunk).None?
            <==> BlueDuff.ReceiveBytes(w.scratchLength, w.state, bytesReceived, chunk).Threw?
    ensures BlueDuff.ReceiveBytes(w.scratchLength, w.state, bytesReceived, chunk).Continue? ==>
              var old1 := BlueDuff.ReceiveBytes(w.scratchLength, w.state, bytesReceived, chunk);
              ManageNextPacket(codec, w, bytesReceived, chunk)
              == Some(Tick(old1.next, if old1.packet.Some? then Some(ByteToString(codec, w.bundle.charset, old1.packet.value)) else None))
  {
  }

  lemma RelayEmit(codec: TextCodec, charset: string, packet: Option<seq<byte>>)
    ensures Relay(codec, charset, BlueDuff.Emit(packet))
            == if packet.Some? then [Pushed(ByteToString(codec, charset, packet.value))] else []
  {
    if packet.Some? {
      var signals := BlueDuff.Emit(packet);
      assert signals[1..] == [BlueDuff.OnNext];
      assert [BlueDuff.OnNext][1..] == [];
      assert Relay(codec, charset, [BlueDuff.OnNext]) == [];
    }
  }

  /** On a trace without exceptions, this loop pushes the decoded packets the first revision hands out. */
  lemma {:induction false} MirrorsFirstRevision(codec: TextCodec, w: Wrapper, es: seq<Event>)
    requires Uninterrupted(w.bundle, w.scratchLength, es)
    ensures ReceiveMessages(codec, w, es) == Relay(codec, w.bundle.charset, BlueDuff.Drive(w.scratchLength, w.state, es))
    decreases |es|
  {
    if |es| > 0 {
      var e := es[0];
      assert Completes(w.bundle, w.scratchLength, e);
      AgreesWithFirstRevision(codec, w, e.available, e.chunk);
      var step := BlueDuff.Iterate(w.scratchLength, w.state, e);
      var turn := Iteration(codec, w, e);
      assert turn.after == w.(state := step.next);
      RelayEmit(codec, w.bundle.charset, step.packet);
      assert Uninterrupted(w.bundle, w.scratchLength, es[1..]) by {
        assert forall i :: 0 <= i < |es[1..]| ==> es[1..][i] == es[i + 1];
      }
      MirrorsFirstRevision(codec, turn.after, es[1..]);
      RelayDistributes(codec, w.bundle.charset, BlueDuff.Emit(step.packet),
                       BlueDuff.Drive(w.scratchLength, step.next, es[1..]));
    }
  }

  /** Each message decoded and pushed, in order. */
  function Texts(codec: TextCodec, charset: string, messages: seq<seq<byte>>): (r: seq<Output>)
    ensures |r| == |messages|
    ensures forall i :: 0 <= i < |messages| ==> r[i] == Pushed(ByteToString(codec, charset, messages[i]))
  {
    if |messages| == 0 then []
    else [Pushed(ByteToString(codec, charset, messages[0]))] + Texts(codec, charset, messages[1..])
  }

  lemma {:induction false} RelayAnnounce(codec: TextCodec, charset: string, messages: seq<seq<byte>>)
    ensures Relay(codec, charset, BlueDuff.Announce(messages)) == Texts(codec, charset, messages)
    decreases |messages|
  {
    if |messages| > 0 {
      var head := [BlueDuff.OnDataReceived(messages[0]), BlueDuff.OnNext];
      RelayDistributes(codec, charset, head, BlueDuff.Announce(messages[1..]));
      assert head[1..][1..] == [];
      RelayAnnounce(codec, charset, messages[1..]);
    }
  }

  /**
    Framing theorem for this revision: from idle, on a trace without
    exceptions, each burst is decoded and pushed exactly once, in order.
   */
  lemma {:induction false} DeliversBursts(codec: TextCodec, w: Wrapper, es: seq<Event>)
    requires !w.state.receivedData
    requires Uninterrupted(w.bundle, w.scratchLength, es)
    ensures ReceiveMessages(codec, w, es) == Texts(codec, w.bundle.charset, Bursts(es))
  {
    MirrorsFirstRevision(codec, w, es);
    assert FaultFree(w.scratchLength, es);
    BlueDuff.DriveMatchesBursts(w.scratchLength, w.state, es);
    RelayAnnounce(codec, w.bundle.charset, Bursts(es));
  }

  /**
    On any trace from idle: one error per failing iteration, and the values
    pushed are the decoded bursts of the events whose iterations completed.
   */
  lemma {:induction false} ReceiveMessagesContract(codec: TextCodec, w: Wrapper, es: seq<Event>)
    requires !w.state.receivedData
    ensures ErrorCount(ReceiveMessages(codec, w, es)) == Faults(w.bundle, w.scratchLength, es)
    ensures Delivered(ReceiveMessages(codec, w, es)) == Texts(codec, w.bundle.charset, Bursts(Healthy(w.bundle, w.scratchLength, es)))
  {
    FaultsAreSkipped(codec, w, es);
    DeliversBursts(codec, w, Healthy(w.bundle, w.scratchLength, es));
  }

  /**
    Decoding never stops a packet: with an unsupported charset every burst is
    still pushed, decoded with the platform default.
   */
  lemma {:induction false} UnsupportedCharsetFallsBack(codec: TextCodec, w: Wrapper, es: seq<Event>)
    requires codec.lookup(w.bundle.charset).None?
    requires !w.state.receivedData
    requires Uninterrupted(w.bundle, w.scratchLength, es)
    ensures |ReceiveMessages(codec, w, es)| == |Bursts(es)|
    ensures forall i :: 0 <= i < |Bursts(es)| ==>
              ReceiveMessages(codec, w, es)[i] == Pushed(codec.platformDefault(Bursts(es)[i]))
  {
    DeliversBursts(codec, w, es);
  }
}
