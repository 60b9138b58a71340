/**
  The outgoing side of src/transport.cpp over whole runs: a queue of messages, three output buffers
  and at most one write in flight. Requests are queued at any time; a completed write starts the next.
*/
module WritePump {
  import opened Bytes
  import opened Framing

  /** The queued payloads, the output buffers, and the write in flight: how much of it is on the wire. */
  datatype Pump = Pump(
    queue: seq<seq<byte>>,
    buffers: seq<seq<byte>>,
    writing: bool,
    failed: bool,
    sent: nat,
    wire: seq<byte>)

  datatype Event =
    | Transmit(payload: seq<byte>)  // transmitMessage
    | Progress(count: nat)          // the socket takes some bytes of the write in flight
    | Complete                      // outgoingMessageHandler, no error
    | Fail                          // outgoingMessageHandler, error

  const EMPTY_BUFFERS: seq<seq<byte>> := [[], [], []]
  const INITIAL := Pump([], EMPTY_BUFFERS, false, false, 0, [])

  /** encapsulateOutgoingMessage: appends to the buffers, the checksum taken over the whole main buffer. */
  function EncapsulateInto(buffers: seq<seq<byte>>, payload: seq<byte>): (after: seq<seq<byte>>)
    requires |buffers| == 3
  {
    var main := buffers[1] + payload;
    [buffers[0] + LeadingPart(main), main, buffers[2] + TRAILING_PART]
  }

  /** Encapsulates the front of the queue and starts writing the three buffers. */
  function StartWrite(p: Pump): (next: Pump)
    requires p.queue != [] && |p.buffers| == 3
  {
    p.(buffers := EncapsulateInto(p.buffers, p.queue[0]), writing := true, sent := 0)
  }

  function TransmitMessage(p: Pump, payload: seq<byte>): (next: Pump)
    requires |p.buffers| == 3
  {
    var queued := p.(queue := p.queue + [payload]);
    if p.queue == [] then StartWrite(queued) else queued
  }

  /** The socket takes the next bytes of the buffers, in order. */
  function WriteSome(p: Pump, count: nat): (next: Pump)
    requires p.sent + count <= |Concat(p.buffers)|
  {
    p.(sent := p.sent + count, wire := p.wire + Concat(p.buffers)[p.sent..p.sent + count])
  }

  function WriteDone(p: Pump): (next: Pump)
    requires p.queue != []
  {
    var popped := p.(buffers := EMPTY_BUFFERS, queue := p.queue[1..], writing := false, sent := 0);
    if popped.queue == [] then popped else StartWrite(popped)
  }

  function WriteFailed(p: Pump): (next: Pump) {
    p.(writing := false, failed := true)
  }

  predicate Enabled(p: Pump, e: Event) {
    && |p.buffers| == 3
    && match e
       case Transmit(_) => true
       case Progress(count) => p.writing && p.sent + count <= |Concat(p.buffers)|
       case Complete => p.writing && p.sent == |Concat(p.buffers)| && p.queue != []
       case Fail => p.writing
  }

  function Step(p: Pump, e: Event): (next: Pump)
    requires Enabled(p, e)
  {
    match e
    case Transmit(payload) => TransmitMessage(p, payload)
    case Progress(count) => WriteSome(p, count)
    case Complete => WriteDone(p)
    case Fail => WriteFailed(p)
  }

  ghost predicate Execution(p: Pump, events: seq<Event>, p': Pump)
    decreases |events|
  {
    if events == [] then p' == p
    else Enabled(p, events[0]) && Execution(Step(p, events[0]), events[1..], p')
  }

  /** The payloads passed to transmitMessage, in request order. */
  function Requests(events: seq<Event>): (payloads: seq<seq<byte>>) {
    if events == [] then []
    else (if events[0].Transmit? then [events[0].payload] else []) + Requests(events[1..])
  }

  /** The frames of the payloads, in order. */
  function Encapsulated(payloads: seq<seq<byte>>): (frames: seq<seq<byte>>)
    ensures |frames| == |payloads|
  {
    seq(|payloads|, i requires 0 <= i < |payloads| => Encapsulate(payloads[i]))
  }

  function FrameBuffers(payload: seq<byte>): (buffers: seq<seq<byte>>) {
    [LeadingPart(payload), payload, TRAILING_PART]
  }

  /**
    After `requested`: a write is in flight or has failed exactly when the queue is non-empty, the
    buffers hold exactly the frame of its front, and the wire holds the frames of all earlier
    requests followed by the part of that frame that has been sent.
  */
  ghost predicate Inv(p: Pump, requested: seq<seq<byte>>) {
    && |p.queue| <= |requested|
    && p.queue == requested[|requested| - |p.queue|..]
    && ((p.writing || p.failed) <==> p.queue != [])
    && !(p.writing && p.failed)
    && p.buffers == (if p.queue == [] then EMPTY_BUFFERS else FrameBuffers(p.queue[0]))
    && (p.queue == [] ==> p.sent == 0)
    && (p.queue != [] ==> p.sent <= |Encapsulate(p.queue[0])|)
    && p.wire == Concat(Encapsulated(requested[..|requested| - |p.queue|]))
                 + (if p.queue == [] then [] else Encapsulate(p.queue[0])[..p.sent])
  }

  lemma FrameOfBuffers(payload: seq<byte>)
    ensures Concat(FrameBuffers(payload)) == Encapsulate(payload)
    ensures EncapsulateInto(EMPTY_BUFFERS, payload) == FrameBuffers(payload)
  {
    hide LeadingPart;
    var b: seq<seq<byte>> := FrameBuffers(payload);
    var last: seq<seq<byte>> := b[2..];
    assert |last[1..]| == 0;
    assert Concat(last) == TRAILING_PART;
    assert Concat(b[1..]) == payload + TRAILING_PART by { assert b[1..][1..] == b[2..]; }
    var e: seq<byte> := [];
    assert e + payload == payload && e + LeadingPart(payload) == LeadingPart(payload);
    assert e + TRAILING_PART == TRAILING_PART;
  }

  lemma FramesAppend(a: seq<seq<byte>>, b: seq<seq<byte>>)
    ensures Concat(Encapsulated(a + b)) == Concat(Encapsulated(a)) + Concat(Encapsulated(b))
  {
    hide Encapsulate, Concat;
    assert Encapsulated(a + b) == Encapsulated(a) + Encapsulated(b);
    ConcatAppend(Encapsulated(a), Encapsulated(b));
  }

  lemma OneFrame(payload: seq<byte>)
    ensures Encapsulated([payload]) == [Encapsulate(payload)]
  {
    hide Encapsulate;
  }

  lemma FirstFrame(payloads: seq<seq<byte>>)
    requires payloads != []
    ensures Concat(Encapsulated(payloads)) == Encapsulate(payloads[0]) + Concat(Encapsulated(payloads[1..]))
  {
    hide Encapsulate;
    assert Encapsulated(payloads)[1..] == Encapsulated(payloads[1..]);
  }

  lemma TransmitKeepsInv(p: Pump, requested: seq<seq<byte>>, payload: seq<byte>)
    requires Inv(p, requested)
    ensures |p.buffers| == 3 && Inv(TransmitMessage(p, payload), requested + [payload])
  {
    hide Encapsulate, EncapsulateInto, Encapsulated, LeadingPart;
    var p' := TransmitMessage(p, payload);
    var n := |requested| - |p.queue|;
    assert (requested + [payload])[..n] == requested[..n];
    assert (requested + [payload])[n..] == requested[n..] + [payload];
    if p.queue == [] {
      FrameOfBuffers(payload);
      assert Encapsulate(payload)[..0] == [];
    }
  }

  lemma ProgressKeepsInv(p: Pump, requested: seq<seq<byte>>, count: nat)
    requires Inv(p, requested) && p.writing && p.sent + count <= |Concat(p.buffers)|
    ensures Inv(WriteSome(p, count), requested)
  {
    hide Encapsulate, Encapsulated, LeadingPart, Concat;
    FrameOfBuffers(p.queue[0]);
    var f := Encapsulate(p.queue[0]);
    assert f[..p.sent + count] == f[..p.sent] + f[p.sent..p.sent + count];
  }

  lemma CompleteKeepsInv(p: Pump, requested: seq<seq<byte>>)
    requires Inv(p, requested) && p.writing && p.sent == |Concat(p.buffers)|
    ensures p.queue != [] && Inv(WriteDone(p), requested)
  {
    hide Encapsulate, EncapsulateInto, Encapsulated, LeadingPart, Concat;
    var n := |requested| - |p.queue|;
    FrameOfBuffers(p.queue[0]);
    var f := Encapsulate(p.queue[0]);
    assert f[..p.sent] == f;
    assert requested[..n + 1] == requested[..n] + [p.queue[0]];
    FramesAppend(requested[..n], [p.queue[0]]);
    ConcatOne(Encapsulate(p.queue[0]));
    assert Encapsulated([p.queue[0]]) == [Encapsulate(p.queue[0])] by { OneFrame(p.queue[0]); }
    if |p.queue| > 1 {
      FrameOfBuffers(p.queue[1]);
      assert Encapsulate(p.queue[1])[..0] == [];
    }
  }

  lemma StepKeepsInv(p: Pump, requested: seq<seq<byte>>, e: Event)
    requires Inv(p, requested) && Enabled(p, e)
    ensures Inv(Step(p, e), requested + Requests([e]))
  {
    assert Requests([e]) == (if e.Transmit? then [e.payload] else []) by { assert |[e][1..]| == 0; }
    hide Encapsulate, Encapsulated, LeadingPart, Concat, Requests, Inv, TransmitMessage, WriteSome, WriteDone;
    assert requested + [] == requested;
    match e
    case Transmit(payload) => TransmitKeepsInv(p, requested, payload);
    case Progress(count) => ProgressKeepsInv(p, requested, count);
    case Complete => CompleteKeepsInv(p, requested);
    case Fail => FailKeepsInv(p, requested);
  }

  lemma FailKeepsInv(p: Pump, requested: seq<seq<byte>>)
    requires Inv(p, requested) && p.writing
    ensures Inv(WriteFailed(p), requested)
  {
  }

  lemma {:induction false} ExecutionKeepsInv(p: Pump, requested: seq<seq<byte>>, events: seq<Event>, p': Pump)
    requires Inv(p, requested) && Execution(p, events, p')
    ensures Inv(p', requested + Requests(events))
    decreases |events|
  {
    hide Inv, Step, Enabled;
    if events == [] {
      assert requested + [] == requested;
    } else {
      var e := events[0];
      StepKeepsInv(p, requested, e);
      assert Requests([e]) == (if e.Transmit? then [e.payload] else []) by { assert |[e][1..]| == 0; }
      ExecutionKeepsInv(Step(p, e), requested + Requests([e]), events[1..], p');
      assert requested + Requests(events) == requested + Requests([e]) + Requests(events[1..]);
    }
  }

  /**
    In every interleaving of requests, partial writes, completions and a failure, the wire holds a
    prefix of the concatenated frames in request order, never interleaved.
  */
  lemma WireIsPrefixOfFrames(events: seq<Event>, p: Pump)
    requires Execution(INITIAL, events, p)
    ensures Inv(p, Requests(events))
    ensures p.wire <= Concat(Encapsulated(Requests(events)))
  {
    hide Inv, Encapsulate, Encapsulated, Execution, Requests;
    InitialInv();
    ExecutionKeepsInv(INITIAL, [], events, p);
    assert [] + Requests(events) == Requests(events);
    InvBoundsWire(p, Requests(events));
  }

  lemma InitialInv()
    ensures Inv(INITIAL, [])
  {
  }

  lemma InvBoundsWire(p: Pump, requested: seq<seq<byte>>)
    requires Inv(p, requested)
    ensures p.wire <= Concat(Encapsulated(requested))
    ensures p.queue == [] ==> p.wire == Concat(Encapsulated(requested))
  {
    var n := |requested| - |p.queue|;
    assert requested == requested[..n] + p.queue;
    hide Encapsulate, FrameBuffers, Encapsulated;
    FramesAppend(requested[..n], p.queue);
    if p.queue == [] {
      assert requested[..n] == requested;
    } else {
      hide Concat;
      FirstFrame(p.queue);
      var (done, later) := (Concat(Encapsulated(requested[..n])), Concat(Encapsulated(p.queue[1..])));
      PrefixOfFrame(done, Encapsulate(p.queue[0]), p.sent, later);
    }
  }

  lemma PrefixOfFrame(done: seq<byte>, frame: seq<byte>, sent: nat, later: seq<byte>)
    requires sent <= |frame|
    ensures done + frame[..sent] <= done + (frame + later)
  {
  }

  /** When nothing is left to write, every requested frame is on the wire, whole. */
  lemma IdlePumpWroteEverything(events: seq<Event>, p: Pump)
    requires Execution(INITIAL, events, p) && p.queue == []
    ensures p.wire == Concat(Encapsulated(Requests(events)))
  {
    hide Inv, Encapsulated, Execution, Requests;
    WireIsPrefixOfFrames(events, p);
    InvBoundsWire(p, Requests(events));
  }

  /** A failed write is final: later requests are queued and nothing more reaches the wire. */
  lemma {:induction false} FailureIsFinal(p: Pump, requested: seq<seq<byte>>, events: seq<Event>, p': Pump)
    requires Inv(p, requested) && p.failed && Execution(p, events, p')
    ensures p'.failed && p'.wire == p.wire && p'.queue == p.queue + Requests(events)
    decreases |events|
  {
    hide Encapsulate, Encapsulated, LeadingPart, Concat;
    if events != [] {
      var e := events[0];
      StepKeepsInv(p, requested, e);
      FailureIsFinal(Step(p, e), requested + Requests([e]), events[1..], p');
    }
  }
}
