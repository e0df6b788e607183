/**
  Shared vocabulary of both receiver revisions: the bytes a stream delivers,
  the observation one loop iteration makes of the inbound stream, the
  two-field accumulator (`receivedData`, `currentBuffer`) and an independent,
  declarative description of how a trace of observations splits into bursts.
 */
module Reassembly {

  /** A Java `byte`: signed, eight bits. */
  newtype byte = b: int | -128 <= b < 128

  datatype Option<+T> = None | Some(value: T)

  /**
    What one iteration of a receive loop observes.
    `Poll(available, chunk)`: `available()` returned `available`; when it is
    positive, `read(buffer)` then delivered exactly `chunk` (the chunk is not
    consulted otherwise).
    `Fail`: the iteration threw before touching the accumulator: the sleep was
    interrupted, `available()` or `read()` threw, or `read()` reported end of
    stream (-1), which makes the allocation `new byte[-1]` throw.
   */
  datatype Event =
    | Poll(available: int, chunk: seq<byte>)
    | Fail

  /** The receiver's mutable fields: the burst flag and the bytes collected. */
  datatype Accumulator = Accumulator(receivedData: bool, currentBuffer: seq<byte>)

  /** Field state of a freshly constructed receiver: idle, empty buffer. */
  const Initial: Accumulator := Accumulator(false, [])

  /** A poll that reports bytes: the iteration reads instead of closing a burst. */
  predicate Arrival(e: Event) {
    e.Poll? && e.available > 0
  }

  /**
    An iteration over `e` completes without an exception when the scratch
    buffer has `capacity` bytes: it is a poll, and a read delivers no more
    bytes than the scratch buffer holds (otherwise copying them out of the
    scratch buffer is out of bounds).
   */
  predicate Survivable(capacity: nat, e: Event) {
    e.Poll? && (e.available > 0 ==> |e.chunk| <= capacity)
  }

  predicate FaultFree(capacity: nat, es: seq<Event>) {
    forall i :: 0 <= i < |es| ==> Survivable(capacity, es[i])
  }

  /** The bytes a newly read chunk is appended to: nothing when idle. */
  function Base(s: Accumulator): seq<byte> {
    if s.receivedData then s.currentBuffer else []
  }

  function ChunkOf(e: Event): seq<byte> {
    match e
    case Poll(_, chunk) => chunk
    case Fail => []
  }

  /** The chunks of a run of events, joined in arrival order. */
  function Chunks(run: seq<Event>): seq<byte> {
    if |run| == 0 then [] else ChunkOf(run[0]) + Chunks(run[1..])
  }

  /** Index of the first event that is not an arrival, or `|es|` if there is none. */
  function Gap(es: seq<Event>): (g: nat)
    ensures g <= |es|
    ensures forall i :: 0 <= i < g ==> Arrival(es[i])
    ensures g < |es| ==> !Arrival(es[g])
  {
    if |es| == 0 || !Arrival(es[0]) then 0 else 1 + Gap(es[1..])
  }

  /**
    Reference framing: a burst is a non-empty maximal run of arrivals closed
    by a non-arrival; its message is the run's chunks joined in order. A run
    still open at the end of the trace has produced no message yet.
   */
  function Bursts(es: seq<Event>): (ms: seq<seq<byte>>)
    ensures 2 * |ms| <= |es|
    decreases |es|
  {
    var g := Gap(es);
    if g == |es| then []
    else (if g == 0 then [] else [Chunks(es[..g])]) + Bursts(es[g + 1..])
  }

  /**
    Copies `a` and then `b` into one freshly allocated array, as the pair of
    `System.arraycopy` calls in both revisions does when a chunk arrives
    mid-burst.
   */
  method JoinArrays(a: seq<byte>, b: seq<byte>) returns (c: seq<byte>)
    ensures |c| == |a| + |b|
    ensures c[..|a|] == a && c[|a|..] == b
  {
    var joined := new byte[|a| + |b|];
    var i := 0;
    while i < |a|
      invariant 0 <= i <= |a|
      invariant forall k :: 0 <= k < i ==> joined[k] == a[k]
    {
      joined[i] := a[i];
      i := i + 1;
    }
    var j := 0;
    while j < |b|
      invariant 0 <= j <= |b|
      invariant forall k :: 0 <= k < |a| ==> joined[k] == a[k]
      invariant forall k :: 0 <= k < j ==> joined[|a| + k] == b[k]
    {
      joined[|a| + j] := b[j];
      j := j + 1;
    }
    c := joined[..];
  }
}
