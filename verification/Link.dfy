/**
  The two sides of src/transport.cpp joined: what one endpoint's write pump puts on the wire, cut
  into arrivals in any way, is what the other endpoint's receive loop delivers.
*/
module Link {
  import opened Bytes
  import opened Framing
  import opened FramingLaws
  import opened EncapsulationLaws
  import R = ReceiveLoop
  import W = WritePump

  /** A serialized object that encapsulation and the parser agree on. */
  ghost predicate Sendable(payload: seq<byte>, json: Json) {
    0 < |payload| <= 65535 && !HasCrLf(payload) && ReadsObject(json, payload)
  }

  function AsSent(payloads: seq<seq<byte>>): (items: seq<R.Item>)
    ensures |items| == |payloads|
  {
    seq(|payloads|, i requires 0 <= i < |payloads| => R.Payload(R.Transfer(payloads[i], payloads[i])))
  }

  function Lines(payloads: seq<seq<byte>>): (lines: seq<seq<byte>>) {
    R.ItemLines(AsSent(payloads))
  }

  lemma LinesOnTheWire(payloads: seq<seq<byte>>)
    ensures Lines(payloads) == W.Encapsulated(payloads)
  {
    hide Encapsulate, Frame, LineBytes;
    forall i | 0 <= i < |payloads| ensures Lines(payloads)[i] == Encapsulate(payloads[i]) {
      FrameIsEncapsulation(payloads[i]);
    }
  }

  lemma {:induction false} SentAreAccepted(payloads: seq<seq<byte>>, json: Json)
    ensures R.Accepted(AsSent(payloads), json) == payloads
  {
    if payloads != [] {
      SentAreAccepted(payloads[1..], json);
      assert AsSent(payloads)[1..] == AsSent(payloads[1..]);
      assert payloads == [payloads[0]] + payloads[1..];
    }
  }

  lemma SendableLines(payloads: seq<seq<byte>>, json: Json)
    requires forall i :: 0 <= i < |payloads| ==> Sendable(payloads[i], json)
    ensures R.AreSeparate(Lines(payloads), json)
    ensures R.Deliveries(Lines(payloads), json) == payloads
  {
    hide HasCrLf, ReadsObject, R.AreSeparate, R.Deliveries;
    R.AcceptedAreDelivered(AsSent(payloads), json);
    SentAreAccepted(payloads, json);
  }

  lemma FirstLines(payloads: seq<seq<byte>>, k: nat)
    requires k <= |payloads|
    ensures Lines(payloads)[..k] == Lines(payloads[..k])
  {
    hide R.ItemLine;
  }

  /**
    Every run of the pump joined with every run of the receive loop on a prefix of its wire
    delivers a prefix of the requests, in order; nothing is invented, altered or reordered.
  */
  lemma DeliveredIsPrefixOfRequested(
    sending: seq<W.Event>, p: W.Pump, receiving: seq<R.Event>, r: R.Receiver, json: Json)
    requires W.Execution(W.INITIAL, sending, p)
    requires forall i :: 0 <= i < |W.Requests(sending)| ==> Sendable(W.Requests(sending)[i], json)
    requires R.Execution(R.INITIAL, receiving, r, json)
    requires R.Arrivals(receiving) <= p.wire
    ensures r.delivered <= W.Requests(sending)
  {
    hide W.Inv, W.Execution, R.Execution, Sendable, R.AreSeparate, Lines;
    var payloads := W.Requests(sending);
    W.WireIsPrefixOfFrames(sending, p);
    LinesOnTheWire(payloads);
    SendableLines(payloads, json);
    R.RunsDeliverInOrder(receiving, r, Lines(payloads), json);
    var k: nat :| R.After(r, R.Arrivals(receiving), Lines(payloads), k, json);
    LinesLength(payloads);
    DeliveredAfter(payloads, k, json);
    assert r.delivered == payloads[..k];
  }

  lemma DeliveredAfter(payloads: seq<seq<byte>>, k: nat, json: Json)
    requires forall i :: 0 <= i < |payloads| ==> Sendable(payloads[i], json)
    requires k <= |Lines(payloads)| == |payloads|
    ensures R.Deliveries(Lines(payloads)[..k], json) == payloads[..k]
  {
    hide Sendable, Lines;
    FirstLines(payloads, k);
    SendableLines(payloads[..k], json);
  }

  lemma LinesLength(payloads: seq<seq<byte>>)
    ensures |Lines(payloads)| == |payloads|
  {
  }

  /** Once the pump is idle, every byte has arrived and no call is pending, all requests were delivered. */
  lemma IdleLinkDeliveredEverything(
    sending: seq<W.Event>, p: W.Pump, receiving: seq<R.Event>, r: R.Receiver, json: Json)
    requires W.Execution(W.INITIAL, sending, p) && p.queue == []
    requires forall i :: 0 <= i < |W.Requests(sending)| ==> Sendable(W.Requests(sending)[i], json)
    requires R.Execution(R.INITIAL, receiving, r, json)
    requires R.Arrivals(receiving) == p.wire && !HasCrLf(r.buffer)
    ensures r == R.Receiver([], W.Requests(sending))
  {
    hide W.Execution, R.Execution, Sendable, R.AreSeparate, Lines;
    W.IdlePumpWroteEverything(sending, p);
    LinesOnTheWire(W.Requests(sending));
    SendableLines(W.Requests(sending), json);
    R.CompleteRunsDeliverAll(receiving, r, Lines(W.Requests(sending)), json);
  }
}
