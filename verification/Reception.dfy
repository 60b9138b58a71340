/**
  What the session makes of the messages and packets that it receives: onMessageReceived and
  onOobPacketReceived of src/session.cpp as sources of scan blocks.
*/
module Reception {
  import opened Bytes
  import M = ResponseMatching
  import Q = ScanQueues

  type Queues = Q.State<M.Message, seq<byte>>
  type QueueEvent = Q.Event<M.Message, seq<byte>>

  datatype Event =
    | Message(message: M.Message)  // onMessageReceived
    | Packet(data: seq<byte>)      // onOobPacketReceived
    | Poll                         // pollForScanBlock
    | Close

  /** The second branch of onMessageReceived, which is reached when the first is not taken. */
  predicate IsQueued(m: M.Message) {
    m.isVersion2 && !M.IsResponse(m) && m.isLaserScan && m.hasParams && m.id == None
  }

  function Receive(s: Queues, e: Event): (next: Queues) {
    match e
    case Message(m) => if IsQueued(m) then Q.Step(s, Q.Notification(m)) else s
    case Packet(data) => Q.Step(s, Q.Packet(data))
    case Poll => Q.Step(s, Q.Poll)
    case Close => Q.Step(s, Q.Close)
  }

  function Run(s: Queues, events: seq<Event>): (next: Queues)
    decreases |events|
  {
    if events == [] then s else Run(Receive(s, events[0]), events[1..])
  }

  // ---------- Exactly the laser scan notifications are queued ----------

  /** The received notifications: of version 2.0, with the laser scan method, with params and without an id. */
  function ScanNotifications(events: seq<Event>): (messages: seq<M.Message>) {
    if events == [] then []
    else
      var e := events[0];
      (if e.Message? && e.message.isVersion2 && e.message.isLaserScan && e.message.hasParams && e.message.id == None
       then [e.message] else [])
      + ScanNotifications(events[1..])
  }

  function Packets(events: seq<Event>): (packets: seq<seq<byte>>) {
    if events == [] then []
    else (if events[0].Packet? then [events[0].data] else []) + Packets(events[1..])
  }

  /** In every run the arrivals are, in order, exactly the scan notifications and the packets received. */
  lemma {:induction false} ArrivalsAreScans(s: Queues, events: seq<Event>)
    ensures Run(s, events).primaryArrivals == s.primaryArrivals + ScanNotifications(events)
    ensures Run(s, events).oobArrivals == s.oobArrivals + Packets(events)
    decreases |events|
  {
    if events != [] {
      ArrivalsAreScans(Receive(s, events[0]), events[1..]);
    }
  }

  /** The events of the queues: every other message is none. */
  function QueueEvents(events: seq<Event>): (queued: seq<QueueEvent>) {
    if events == [] then []
    else
      (match events[0]
       case Message(m) =>
         if m.isVersion2 && m.isLaserScan && m.hasParams && m.id == None then [Q.Notification(m)] else []
       case Packet(data) => [Q.Packet(data)]
       case Poll => [Q.Poll]
       case Close => [Q.Close])
      + QueueEvents(events[1..])
  }

  /** The run is a run of the queues, so all that holds of those holds of it. */
  lemma {:induction false} RunOfQueues(s: Queues, events: seq<Event>)
    ensures Run(s, events) == Q.Run(s, QueueEvents(events))
    decreases |events|
  {
    if events != [] {
      var (e, later) := (events[0], events[1..]);
      RunOfQueues(Receive(s, e), later);
      var queued := QueueEvents(events);
      if e.Message? && !IsQueued(e.message) {
        assert queued == QueueEvents(later);
      } else {
        assert queued[1..] == QueueEvents(later);
      }
    }
  }
}
