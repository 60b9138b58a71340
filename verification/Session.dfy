/**
  The Session object of src/session.cpp. Each method is one atomic section of the source: what runs
  under a mutex between two waits. Ghost fields record what was issued, arrived and taken.
*/
module Session {
  import opened Bytes
  import M = ResponseMatching
  import Q = ScanQueues
  import R = Reception

  class Session {
    var isOpen: bool
    var id: int
    var responseQueue: seq<M.Slot>
    var scanBlockQueuePrimary: seq<M.Message>
    var scanBlockQueueOob: seq<seq<byte>>

    ghost var pending: Option<int>  // the id given to the caller of executeCommand that is in its wait
    ghost var issued: seq<int>
    ghost var requests: seq<int>
    ghost var outcomes: seq<M.Outcome>
    ghost var notifications: seq<M.Message>
    ghost var packets: seq<seq<byte>>
    ghost var notificationsTaken: seq<M.Message>
    ghost var packetsTaken: seq<seq<byte>>

    ghost function Commands(): (state: M.State)
      reads this
    {
      M.State(isOpen, id, responseQueue, pending, issued, requests, outcomes)
    }

    ghost function Scans(): (state: Q.State<M.Message, seq<byte>>)
      reads this
    {
      Q.State(scanBlockQueuePrimary, scanBlockQueueOob, notifications, packets, notificationsTaken, packetsTaken)
    }

    constructor ()
      ensures Commands() == M.INITIAL && Scans() == Q.Initial()
    {
      isOpen, id, responseQueue := false, -1, [];
      scanBlockQueuePrimary, scanBlockQueueOob := [], [];
      pending, issued, requests, outcomes := None, [], [], [];
      notifications, packets, notificationsTaken, packetsTaken := [], [], [], [];
    }

    method Open()
      requires M.Enabled(Commands(), M.Open)
      modifies this`isOpen
      ensures Commands() == M.Step(old(Commands()), M.Open)
    {
      isOpen := true;
    }

    method Close()
      modifies this`isOpen, this`responseQueue, this`scanBlockQueuePrimary, this`scanBlockQueueOob
      ensures Commands() == M.Step(old(Commands()), M.Close)
      ensures Scans() == R.Receive(old(Scans()), R.Close)
    {
      isOpen := false;
      responseQueue := [];
      scanBlockQueuePrimary := [];
      scanBlockQueueOob := [];
    }

    /** executeCommand without a response: the request goes out under the next id. */
    method ExecuteCommand() returns (requestId: int)
      requires M.Enabled(Commands(), M.Notify)
      modifies this`id, this`issued
      ensures Commands() == M.Step(old(Commands()), M.Notify) && requestId == id
    {
      id := id + 1;
      requestId := id;
      issued := issued + [id];
    }

    /** executeCommand with a response, up to its wait. */
    method BeginCommand() returns (requestId: int)
      requires M.Enabled(Commands(), M.Request)
      modifies this`id, this`issued, this`pending, this`requests
      ensures Commands() == M.Step(old(Commands()), M.Request) && requestId == id
    {
      id := id + 1;
      requestId := id;
      issued := issued + [id];
      pending := Some(id);
      requests := requests + [id];
    }

    /** The predicate of the wait: remove_if without erase, then the test of the front. */
    method EvaluateWait() returns (ready: bool)
      requires M.AllDocuments(responseQueue)
      modifies this`responseQueue
      ensures (Commands(), ready) == M.EvaluateWait(old(Commands()))
    {
      responseQueue := M.RemoveStale(responseQueue, id);
      ready := M.FrontMatches(responseQueue, id);
    }

    /** One wake-up of the wait, or its end: the response when the predicate holds, else none or a timeout. */
    method ContinueCommand(timedOut: bool) returns (ending: Option<M.Ending>)
      requires pending.Some? && M.AllDocuments(responseQueue)
      modifies this`responseQueue, this`pending, this`outcomes
      ensures Commands() == M.Step(old(Commands()), if timedOut then M.Timeout else M.Wake)
      ensures ending == None ==> !timedOut && pending == old(pending) && outcomes == old(outcomes)
      ensures ending.Some? ==>
        pending == None && outcomes == old(outcomes) + [M.Outcome(old(pending).value, ending.value)]
    {
      hide M.RemoveIf;
      ending := None;
      var ready := EvaluateWait();
      if ready {
        var message := responseQueue[0].message;
        if message.hasResult {
          responseQueue := responseQueue[1..];
          ending := Some(M.Result(message));
        } else {
          ending := Some(M.Error(message));
        }
      } else if timedOut {
        ending := Some(M.TimedOut);
      }
      if ending.Some? {
        outcomes := outcomes + [M.Outcome(pending.value, ending.value)];
        pending := None;
      }
    }

    method OnMessageReceived(message: M.Message)
      requires isOpen && |scanBlockQueuePrimary| <= Q.SCAN_BLOCK_BUFFERING_COUNT
      modifies this`responseQueue, this`scanBlockQueuePrimary, this`notifications
      ensures Commands() == M.Step(old(Commands()), M.Receive(message))
      ensures Scans() == R.Receive(old(Scans()), R.Message(message))
    {
      if !message.isVersion2 {
        return;
      }
      if (message.hasResult || message.hasError) && message.id.Some? {
        if message.id.value == M.IntId(id) {
          responseQueue := [];
          responseQueue := responseQueue + [M.Document(message)];
        }
      } else if message.isLaserScan && message.hasParams && message.id == None {
        if |scanBlockQueuePrimary| == Q.SCAN_BLOCK_BUFFERING_COUNT {
          scanBlockQueuePrimary := scanBlockQueuePrimary[1..];
        }
        scanBlockQueuePrimary := scanBlockQueuePrimary + [message];
        notifications := notifications + [message];
      }
    }

    method OnOobPacketReceived(packet: seq<byte>)
      requires |scanBlockQueueOob| <= Q.SCAN_BLOCK_BUFFERING_COUNT
      modifies this`scanBlockQueueOob, this`packets
      ensures Scans() == R.Receive(old(Scans()), R.Packet(packet))
    {
      if |scanBlockQueueOob| == Q.SCAN_BLOCK_BUFFERING_COUNT {
        scanBlockQueueOob := scanBlockQueueOob[1..];
      }
      scanBlockQueueOob := scanBlockQueueOob + [packet];
      packets := packets + [packet];
    }

    /** pollForScanBlock from the end of its wait on: primary first, else out-of-band, else timed out. */
    method PollForScanBlock() returns (polled: Q.Polled<M.Message, seq<byte>>)
      modifies this`scanBlockQueuePrimary, this`scanBlockQueueOob, this`notificationsTaken, this`packetsTaken
      ensures polled == Q.PollResult(old(scanBlockQueuePrimary), old(scanBlockQueueOob))
      ensures Scans() == R.Receive(old(Scans()), R.Poll)
      ensures match polled
              case FromPrimary(message) =>
                && old(scanBlockQueuePrimary) == [message] + scanBlockQueuePrimary
                && scanBlockQueueOob == old(scanBlockQueueOob)
              case FromOob(packet) =>
                && old(scanBlockQueuePrimary) == scanBlockQueuePrimary == []
                && old(scanBlockQueueOob) == [packet] + scanBlockQueueOob
              case TimedOut =>
                && old(scanBlockQueuePrimary) == scanBlockQueuePrimary == []
                && old(scanBlockQueueOob) == scanBlockQueueOob == []
    {
      if |scanBlockQueuePrimary| > 0 {
        polled := Q.FromPrimary(scanBlockQueuePrimary[0]);
        notificationsTaken := notificationsTaken + [scanBlockQueuePrimary[0]];
        scanBlockQueuePrimary := scanBlockQueuePrimary[1..];
      } else if |scanBlockQueueOob| > 0 {
        polled := Q.FromOob(scanBlockQueueOob[0]);
        packetsTaken := packetsTaken + [scanBlockQueueOob[0]];
        scanBlockQueueOob := scanBlockQueueOob[1..];
      } else {
        polled := Q.TimedOut;
      }
    }
  }
}
