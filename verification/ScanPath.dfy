/**
  The scan path from end to end: sectors sent over either transport, block by block, are read as
  scan frames that hold exactly what was sent.
*/
module ScanPath {
  import opened Bytes
  import opened ScanBlocks
  import opened ScanFrames
  import opened ScanTransports
  import opened OobPacket
  import M = ResponseMatching
  import Q = ScanQueues
  import R = Reception

  /** One block of a scan as its sender has it. */
  datatype Sector = Sector(info: Info, ranges: seq<nat>, samples: seq<byte>)

  function Block(sector: Sector): (block: ScanBlock) {
    BlockOf(sector.info, sector.ranges, sector.samples)
  }

  function AsPacket(sector: Sector): (input: Input) {
    Oob(Packet(sector.info, sector.ranges, sector.samples))
  }

  function AsJson(sector: Sector): (input: Input) {
    Json(AsNotification(sector.info.index, sector.info.timestamp, sector.ranges, sector.samples))
  }

  /** A sector goes out as a packet, or as a notification when that can express it. */
  ghost predicate Carries(input: Input, sector: Sector) {
    && FieldsFit(sector.info, sector.ranges, sector.samples)
    && (input == AsPacket(sector)
        || (input == AsJson(sector) && sector.ranges != [] && !sector.info.wide && sector.info.angularFov == Fov270
            && (sector.info.blockCount == 0 || sector.info.blockCount == 8)))
  }

  ghost predicate AllCarried(inputs: seq<Input>, sectors: seq<Sector>) {
    |inputs| == |sectors| && forall k :: 0 <= k < |sectors| ==> Carries(inputs[k], sectors[k])
  }

  /** Successive reads: every input is decoded into the block that the read before it left. */
  function BlocksRead(before: ScanBlock, inputs: seq<Input>): (stream: seq<Option<ScanBlock>>)
    requires forall k :: 0 <= k < |inputs| ==> IsReadable(inputs[k])
    ensures |stream| == |inputs|
    decreases |inputs|
  {
    if inputs == [] then []
    else
      var block := Decoded(before, inputs[0]);
      [Some(block)] + BlocksRead(block, inputs[1..])
  }

  lemma CarriedDecodes(input: Input, sector: Sector, before: ScanBlock)
    requires Carries(input, sector)
    ensures IsReadable(input)
    ensures Decoded(before, input) == Block(sector)
  {
    hide Packet, AsNotification, IsComplete, LayerFits, FromPacket, FromNotification, BlockOf;
    PacketDecodes(sector.info, sector.ranges, sector.samples);
    if input == AsJson(sector) {
      TransportsAgree(sector.info, sector.ranges, sector.samples, before, before);
    }
  }

  lemma CarriedReadable(inputs: seq<Input>, sectors: seq<Sector>)
    requires AllCarried(inputs, sectors)
    ensures forall k :: 0 <= k < |inputs| ==> IsReadable(inputs[k])
  {
    hide Carries, IsReadable;
    forall k | 0 <= k < |inputs| ensures IsReadable(inputs[k]) {
      CarriedDecodes(inputs[k], sectors[k], Block(sectors[k]));
    }
  }

  function Sent(sectors: seq<Sector>): (stream: seq<Option<ScanBlock>>)
    ensures |stream| == |sectors|
  {
    seq(|sectors|, k requires 0 <= k < |sectors| => Some(Block(sectors[k])))
  }

  /** Whichever transport each sector takes, and whatever the block held before, the blocks sent are the blocks read. */
  lemma {:induction false} ReadIsSent(before: ScanBlock, inputs: seq<Input>, sectors: seq<Sector>)
    requires AllCarried(inputs, sectors)
    ensures forall k :: 0 <= k < |inputs| ==> IsReadable(inputs[k])
    ensures BlocksRead(before, inputs) == Sent(sectors)
    decreases |inputs|
  {
    hide Carries, IsReadable, Decoded, Block;
    CarriedReadable(inputs, sectors);
    if inputs != [] {
      CarriedDecodes(inputs[0], sectors[0], before);
      ReadIsSent(Block(sectors[0]), inputs[1..], sectors[1..]);
      assert Sent(sectors) == [Some(Block(sectors[0]))] + Sent(sectors[1..]);
    }
  }

  // ---------- Scans ----------

  /** Scans of n sectors of one length, one scan after the other. */
  ghost predicate AreScans(sectors: seq<Sector>, n: nat, length: nat) {
    && 0 < n < 256
    && forall k :: 0 <= k < |sectors| ==>
         && FieldsFit(sectors[k].info, sectors[k].ranges, sectors[k].samples)
         && sectors[k].info.index == k % n && Block(sectors[k]).blockCount == n && |sectors[k].ranges| == length
  }

  function AllRanges(sectors: seq<Sector>): (values: seq<int>) {
    if sectors == [] then []
    else AllRanges(sectors[..|sectors| - 1]) + sectors[|sectors| - 1].ranges
  }

  function Intensities(sector: Sector): (values: seq<int>) {
    if sector.info.wide then Words(sector.samples) else sector.samples
  }

  function AllIntensities(sectors: seq<Sector>): (values: seq<int>) {
    if sectors == [] then []
    else AllIntensities(sectors[..|sectors| - 1]) + Intensities(sectors[|sectors| - 1])
  }

  /** The frame for one scan. */
  function FrameSent(sectors: seq<Sector>): (frame: ScanFrame)
    requires sectors != []
  {
    ScanFrame(sectors[0].info.timestamp, sectors[0].info.angularFov, AllRanges(sectors), AllIntensities(sectors))
  }

  /** A block holds as many samples as it declares. */
  lemma BlockHasSamples(sector: Sector)
    requires FieldsFit(sector.info, sector.ranges, sector.samples)
    ensures
      var b := Block(sector);
      && b.blockLength == |sector.ranges| && HasSamples(b, b.blockLength)
      && b.layers[0].ranges == sector.ranges && |b.layers[0].ranges| == b.blockLength
      && b.layers[0].intensities == Intensities(sector) && |b.layers[0].intensities| == b.blockLength
  {
  }

  ghost predicate AreBlocksOf(window: seq<ScanBlock>, sectors: seq<Sector>, length: nat) {
    && |window| == |sectors|
    && forall k :: 0 <= k < |window| ==>
         && window[k] == Block(sectors[k]) && |sectors[k].ranges| == length
         && FieldsFit(sectors[k].info, sectors[k].ranges, sectors[k].samples)
  }

  lemma WindowHasSamples(window: seq<ScanBlock>, sectors: seq<Sector>, length: nat)
    requires AreBlocksOf(window, sectors, length)
    ensures forall k :: 0 <= k < |window| ==> HasSamples(window[k], length)
  {
    hide Block, HasSamples, FieldsFit;
    forall k | 0 <= k < |window| ensures HasSamples(window[k], length) {
      BlockHasSamples(sectors[k]);
    }
  }

  lemma {:induction false} WindowSamples(window: seq<ScanBlock>, sectors: seq<Sector>, length: nat)
    requires AreBlocksOf(window, sectors, length)
    ensures forall k :: 0 <= k < |window| ==> HasSamples(window[k], length)
    ensures FirstRanges(window, length) == AllRanges(sectors)
    ensures FirstIntensities(window, length) == AllIntensities(sectors)
    decreases |window|
  {
    hide Block, HasSamples, FieldsFit, Intensities;
    WindowHasSamples(window, sectors, length);
    if window != [] {
      var n := |window| - 1;
      BlockHasSamples(sectors[n]);
      WindowSamples(window[..n], sectors[..n], length);
      var data := window[n].layers[0];
      assert data.ranges[..length] == data.ranges && data.intensities[..length] == data.intensities;
    }
  }

  lemma NextIndex(k: nat, n: nat)
    requires n > 0
    ensures (k + 1) % n == Next(k % n, n)
  {
    var (q, r) := (k / n, k % n);
    assert k == n * q + r;
    if r + 1 == n {
      Base64Laws.DivMod(k + 1, n, q + 1, 0);
    } else {
      Base64Laws.DivMod(k + 1, n, q, r + 1);
    }
  }

  lemma SentIsCyclic(sectors: seq<Sector>, n: nat, length: nat, start: nat)
    requires AreScans(sectors, n, length)
    ensures Cyclic(Sent(sectors), start, start % n, n)
  {
    hide FieldsFit, Words;
    var stream := Sent(sectors);
    forall k | start < k < |stream|
      ensures stream[k].value.blockIndex == Next(stream[k - 1].value.blockIndex, n)
    {
      NextIndex(k - 1, n);
    }
  }

  /** A call that starts at `start` completes after `used` reads in all, with this frame. */
  ghost predicate ReadsFrame(stream: seq<Option<ScanBlock>>, start: nat, used: nat, frame: ScanFrame)
    requires start <= |stream|
  {
    var r := Reassemble(FRESH, stream, start);
    r.Complete? && r.used == used && IsFrameOf(r.window, frame)
  }

  lemma BlockHead(sector: Sector)
    ensures Block(sector).timestamp == sector.info.timestamp && Block(sector).angularFov == sector.info.angularFov
  {
  }

  lemma WindowFrame(window: seq<ScanBlock>, sectors: seq<Sector>, length: nat)
    requires AreBlocksOf(window, sectors, length) && window != []
    ensures IsFrameOf(window, FrameSent(sectors))
  {
    WindowSamples(window, sectors, length);
    BlockHasSamples(sectors[0]);
    BlockHead(sectors[0]);
    hide Block, HasSamples, FieldsFit, Intensities;
  }

  lemma BlocksOfSent(sectors: seq<Sector>, n: nat, length: nat, start: nat)
    requires AreScans(sectors, n, length) && start + n <= |sectors|
    ensures AreBlocksOf(Blocks(Sent(sectors), start, n), sectors[start..start + n], length)
  {
    hide Block, FieldsFit;
  }

  /** Where a call that starts at `start` ends: behind the scan that begins there or next. */
  function EndOfScan(start: nat, n: nat): (used: nat)
    requires 0 < n
    ensures used >= start + n
  {
    start + ReadsNeeded(0, FRESH.count, start % n, n)
  }

  lemma SentIsReadWhole(sectors: seq<Sector>, n: nat, length: nat, start: nat)
    requires AreScans(sectors, n, length) && EndOfScan(start, n) <= |sectors|
    ensures
      var used := EndOfScan(start, n);
      ReadsFrame(Sent(sectors), start, used, FrameSent(sectors[used - n..used]))
  {
    hide Reassemble, Block, FieldsFit, AreBlocksOf, FrameSent, IsFrameOf;
    var used := EndOfScan(start, n);
    SentIsCyclic(sectors, n, length, start);
    NextFrame(Sent(sectors), start, start % n, n);
    hide Cyclic;
    BlocksOfSent(sectors, n, length, used - n);
    WindowFrame(Blocks(Sent(sectors), used - n, n), sectors[used - n..used], length);
  }

  /** The call ends at the end of a scan, so the next one returns the scan behind it. */
  lemma EndOfScanIsBoundary(start: nat, n: nat)
    requires 0 < n
    ensures EndOfScan(start, n) % n == 0 && EndOfScan(EndOfScan(start, n), n) == EndOfScan(start, n) + n
  {
    var (q, c) := (start / n, start % n);
    assert start == n * q + c;
    if c == 0 {
      Base64Laws.DivMod(start + n, n, q + 1, 0);
    } else {
      Base64Laws.DivMod(start + 2 * n - c, n, q + 2, 0);
    }
  }

  /** What is read, for a call that starts at `start`: `used` reads in all, and this frame. */
  ghost predicate Reads(before: ScanBlock, inputs: seq<Input>, start: nat, used: nat, frame: ScanFrame) {
    && start <= |inputs|
    && (forall k :: 0 <= k < |inputs| ==> IsReadable(inputs[k]))
    && ReadsFrame(BlocksRead(before, inputs), start, used, frame)
  }

  /**
    A call at any block skips to the next scan that begins there or later and returns it whole: all
    ranges and intensities that were sent, in order, with the first block's timestamp and field of view.
  */
  lemma ScanIsReadWhole(before: ScanBlock, inputs: seq<Input>, sectors: seq<Sector>, n: nat, length: nat, start: nat)
    requires AllCarried(inputs, sectors) && AreScans(sectors, n, length)
    requires EndOfScan(start, n) <= |sectors|
    ensures
      var used := EndOfScan(start, n);
      Reads(before, inputs, start, used, FrameSent(sectors[used - n..used]))
  {
    hide IsReadable, BlocksRead, Sent, ReadsFrame, AreScans, FrameSent, Carries;
    ReadIsSent(before, inputs, sectors);
    SentIsReadWhole(sectors, n, length, start);
  }

  // ---------- From reception to frame ----------

  /** What the JSON notification in a received message says. */
  type Reader = M.Message -> Notification

  /** What one event yields: a poll that finds something yields it. */
  function PolledOne(s: R.Queues, e: R.QueueEvent, reader: Reader): (inputs: seq<Input>) {
    if e.Poll? then
      match Q.PollResult(s.primary, s.oob)
      case FromPrimary(message) => [Json(reader(message))]
      case FromOob(packet) => [Oob(packet)]
      case TimedOut => []
    else []
  }

  /** What the polls of a run yield, in order; a poll that times out yields nothing. */
  function Polled(s: R.Queues, events: seq<R.QueueEvent>, reader: Reader): (inputs: seq<Input>)
    decreases |events|
  {
    if events == [] then [] else PolledOne(s, events[0], reader) + Polled(Q.Step(s, events[0]), events[1..], reader)
  }

  function AllJson(messages: seq<M.Message>, reader: Reader): (inputs: seq<Input>)
    ensures |inputs| == |messages|
  {
    seq(|messages|, i requires 0 <= i < |messages| => Json(reader(messages[i])))
  }

  function AllOob(packets: seq<seq<byte>>): (inputs: seq<Input>)
    ensures |inputs| == |packets|
  {
    seq(|packets|, i requires 0 <= i < |packets| => Oob(packets[i]))
  }

  lemma AllOobAppend(a: seq<seq<byte>>, b: seq<seq<byte>>)
    ensures AllOob(a + b) == AllOob(a) + AllOob(b)
  {
  }

  lemma AllJsonAppend(a: seq<M.Message>, b: seq<M.Message>, reader: Reader)
    ensures AllJson(a + b, reader) == AllJson(a, reader) + AllJson(b, reader)
  {
  }

  function PacketsIn<P, O>(events: seq<Q.Event<P, O>>): (packets: seq<O>) {
    if events == [] then []
    else (if events[0].Packet? then [events[0].data] else []) + PacketsIn(events[1..])
  }

  function NotificationsIn<P, O>(events: seq<Q.Event<P, O>>): (items: seq<P>) {
    if events == [] then []
    else (if events[0].Notification? then [events[0].item] else []) + NotificationsIn(events[1..])
  }

  lemma Exchange(one: seq<Input>, polled: seq<Input>, queued: seq<Input>, before: seq<Input>, now: seq<Input>,
                 arrived: seq<Input>, later: seq<Input>)
    requires polled + queued == now + later && one + now == before + arrived
    ensures one + polled + queued == before + (arrived + later)
  {
    assert one + polled + queued == one + (polled + queued) == one + now + later == before + arrived + later;
  }

  lemma PacketStep(s: R.Queues, e: R.QueueEvent, reader: Reader)
    requires s.primary == [] && Q.KeepsUp(s, [e]) && !e.Notification?
    ensures Q.Step(s, e).primary == []
    ensures PolledOne(s, e, reader) + AllOob(Q.Step(s, e).oob)
         == AllOob(s.oob) + AllOob(if e.Packet? then [e.data] else [])
  {
    assert [e][0] == e;
  }

  /** With packets alone, what is polled and what is still queued are the packets that arrive. */
  lemma {:induction false} PolledPackets(s: R.Queues, events: seq<R.QueueEvent>, reader: Reader)
    requires s.primary == [] && Q.KeepsUp(s, events)
    requires forall i :: 0 <= i < |events| ==> !events[i].Notification?
    ensures Polled(s, events, reader) + AllOob(Q.Run(s, events).oob) == AllOob(s.oob) + AllOob(PacketsIn(events))
    decreases |events|
  {
    if events == [] {
      AllOobAppend(s.oob, []);
    } else {
      var (e, later) := (events[0], events[1..]);
      assert Q.KeepsUp(s, [e]) by { assert |[e][1..]| == 0; }
      PacketStep(s, e, reader);
      hide AllOob, PolledOne, Q.Step;
      PolledPackets(Q.Step(s, e), later, reader);
      var arrived := if e.Packet? then [e.data] else [];
      AllOobAppend(arrived, PacketsIn(later));
      Exchange(PolledOne(s, e, reader), Polled(Q.Step(s, e), later, reader), AllOob(Q.Run(s, events).oob),
               AllOob(s.oob), AllOob(Q.Step(s, e).oob), AllOob(arrived), AllOob(PacketsIn(later)));
    }
  }

  lemma NotificationStep(s: R.Queues, e: R.QueueEvent, reader: Reader)
    requires s.oob == [] && Q.KeepsUp(s, [e]) && !e.Packet?
    ensures Q.Step(s, e).oob == []
    ensures PolledOne(s, e, reader) + AllJson(Q.Step(s, e).primary, reader)
         == AllJson(s.primary, reader) + AllJson(if e.Notification? then [e.item] else [], reader)
  {
    assert [e][0] == e;
  }

  /** The same with notifications alone. */
  lemma {:induction false} PolledNotifications(s: R.Queues, events: seq<R.QueueEvent>, reader: Reader)
    requires s.oob == [] && Q.KeepsUp(s, events)
    requires forall i :: 0 <= i < |events| ==> !events[i].Packet?
    ensures Polled(s, events, reader) + AllJson(Q.Run(s, events).primary, reader)
         == AllJson(s.primary, reader) + AllJson(NotificationsIn(events), reader)
    decreases |events|
  {
    if events == [] {
      AllJsonAppend(s.primary, [], reader);
    } else {
      var (e, later) := (events[0], events[1..]);
      assert Q.KeepsUp(s, [e]) by { assert |[e][1..]| == 0; }
      NotificationStep(s, e, reader);
      hide AllJson, PolledOne, Q.Step;
      PolledNotifications(Q.Step(s, e), later, reader);
      var arrived := if e.Notification? then [e.item] else [];
      AllJsonAppend(arrived, NotificationsIn(later), reader);
      Exchange(PolledOne(s, e, reader), Polled(Q.Step(s, e), later, reader), AllJson(Q.Run(s, events).primary, reader),
               AllJson(s.primary, reader), AllJson(Q.Step(s, e).primary, reader), AllJson(arrived, reader),
               AllJson(NotificationsIn(later), reader));
    }
  }

  /** What is received over one transport, in order: notifications, told by their members, or packets. */
  function Arriving(events: seq<R.Event>, reader: Reader): (inputs: seq<Input>) {
    AllJson(R.ScanNotifications(events), reader) + AllOob(R.Packets(events))
  }

  ghost predicate OneTransport(events: seq<R.Event>) {
    R.ScanNotifications(events) == [] || R.Packets(events) == []
  }

  /** What the queues are given is what is received. */
  lemma {:induction false} GivenIsReceived(events: seq<R.Event>)
    ensures NotificationsIn(R.QueueEvents(events)) == R.ScanNotifications(events)
    ensures PacketsIn(R.QueueEvents(events)) == R.Packets(events)
    decreases |events|
  {
    if events != [] {
      GivenIsReceived(events[1..]);
      var (queued, later) := (R.QueueEvents(events), R.QueueEvents(events[1..]));
      assert queued == later || (queued != [] && queued[1..] == later);
    }
  }

  lemma {:induction false} NoneIn<P, O>(events: seq<Q.Event<P, O>>)
    ensures NotificationsIn(events) == [] ==> forall i :: 0 <= i < |events| ==> !events[i].Notification?
    ensures PacketsIn(events) == [] ==> forall i :: 0 <= i < |events| ==> !events[i].Packet?
    decreases |events|
  {
    if events != [] {
      NoneIn(events[1..]);
      assert events == [events[0]] + events[1..];
    }
  }

  /** What the polls yield of what is received, from an empty session on. */
  function PolledOf(events: seq<R.Event>, reader: Reader): (inputs: seq<Input>) {
    Polled(Q.Initial(), R.QueueEvents(events), reader)
  }

  ghost predicate KeepsUp(events: seq<R.Event>) {
    Q.KeepsUp(Q.Initial(), R.QueueEvents(events))
  }

  /** Over one transport, a reader that keeps up polls what is received, in order, none left out. */
  lemma PolledAreArriving(events: seq<R.Event>, reader: Reader)
    requires OneTransport(events) && KeepsUp(events)
    ensures PolledOf(events, reader) <= Arriving(events, reader)
  {
    var queued := R.QueueEvents(events);
    GivenIsReceived(events);
    NoneIn(queued);
    hide Q.KeepsUp, Q.Run, Polled, NotificationsIn, PacketsIn, R.QueueEvents, R.ScanNotifications, R.Packets;
    var s: R.Queues := Q.Initial();
    assert AllOob([]) == [] && AllJson([], reader) == [];
    if R.ScanNotifications(events) == [] {
      PolledPackets(s, queued, reader);
      var left := AllOob(Q.Run(s, queued).oob);
      assert Arriving(events, reader) == AllOob(R.Packets(events)) == Polled(s, queued, reader) + left;
    } else {
      PolledNotifications(s, queued, reader);
      var left := AllJson(Q.Run(s, queued).primary, reader);
      assert Arriving(events, reader) == AllJson(R.ScanNotifications(events), reader)
          == Polled(s, queued, reader) + left;
    }
  }

  /** Whatever carries a sector passes verification. */
  lemma CarriedPacketsAreAccepted(inputs: seq<Input>, sectors: seq<Sector>, k: nat)
    requires AllCarried(inputs, sectors) && k < |inputs| && inputs[k].Oob?
    ensures Accepts(inputs[k].packet)
  {
    hide Packet, AsNotification, Accepts;
    assert Carries(inputs[k], sectors[k]);
    PacketIsAccepted(sectors[k].info, sectors[k].ranges, sectors[k].samples);
  }

  /** A call at `start` reads the scan that begins there or next. */
  ghost predicate ReadsNextScan(before: ScanBlock, inputs: seq<Input>, sectors: seq<Sector>, n: nat, start: nat)
    requires 0 < n
  {
    var used := EndOfScan(start, n);
    used <= |sectors| && Reads(before, inputs, start, used, FrameSent(sectors[used - n..used]))
  }

  lemma SliceOfPrefix<T>(s: seq<T>, from: nat, to: nat, k: nat)
    requires from <= to <= k <= |s|
    ensures s[..k][from..to] == s[from..to]
  {
  }

  /** The first inputs suffice for the first scans. */
  lemma PrefixReadsNextScan(
    before: ScanBlock, inputs: seq<Input>, sectors: seq<Sector>, n: nat, length: nat, start: nat)
    requires |inputs| <= |sectors| && AllCarried(inputs, sectors[..|inputs|]) && AreScans(sectors, n, length)
    requires EndOfScan(start, n) <= |inputs|
    ensures ReadsNextScan(before, inputs, sectors, n, start)
  {
    assert 0 < n;
    hide AllCarried, AreScans, EndOfScan, Reads, FrameSent;
    PrefixAreScans(sectors, n, length, |inputs|);
    ScanIsReadWhole(before, inputs, sectors[..|inputs|], n, length, start);
    SliceOfPrefix(sectors, EndOfScan(start, n) - n, EndOfScan(start, n), |inputs|);
  }

  /**
    From reception to frame: when the sectors of scans are received over one transport, among any
    other messages, and the reader keeps up, a call that starts at any polled block returns the scan
    that begins there or next, whole, as soon as that many blocks have been polled.
  */
  lemma ReceivedScansAreRead(
    before: ScanBlock, events: seq<R.Event>, reader: Reader, sectors: seq<Sector>, n: nat, length: nat, start: nat)
    requires OneTransport(events) && KeepsUp(events)
    requires AllCarried(Arriving(events, reader), sectors) && AreScans(sectors, n, length)
    requires EndOfScan(start, n) <= |PolledOf(events, reader)|
    ensures ReadsNextScan(before, PolledOf(events, reader), sectors, n, start)
  {
    PolledAreArriving(events, reader);
    var inputs := PolledOf(events, reader);
    CarriedPrefix(Arriving(events, reader), sectors, |inputs|);
    hide PolledOf, Arriving, KeepsUp, OneTransport, AllCarried, AreScans, ReadsNextScan, EndOfScan;
    assert Arriving(events, reader)[..|inputs|] == inputs;
    PrefixReadsNextScan(before, inputs, sectors, n, length, start);
  }

  lemma CarriedPrefix(inputs: seq<Input>, sectors: seq<Sector>, k: nat)
    requires AllCarried(inputs, sectors) && k <= |inputs|
    ensures |inputs| == |sectors| && AllCarried(inputs[..k], sectors[..k])
  {
    hide Carries;
  }

  lemma PrefixAreScans(sectors: seq<Sector>, n: nat, length: nat, k: nat)
    requires AreScans(sectors, n, length) && k <= |sectors|
    ensures AreScans(sectors[..k], n, length)
  {
    hide Block, FieldsFit;
  }
}
