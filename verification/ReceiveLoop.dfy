/**
  The receive loop of src/transport.cpp over whole runs: bytes arrive in any pieces, and whenever
  a complete line is buffered the handler parses one message off the front of the buffer.
*/
module ReceiveLoop {
  import opened Bytes
  import opened Crc16
  import opened CrcDetection
  import opened InputStream
  import opened Framing
  import opened FramingLaws
  import opened EncapsulationLaws
  import opened Confinement

  /** The unread bytes, and the texts of the messages handed to the callback so far. */
  datatype Receiver = Receiver(buffer: seq<byte>, delivered: seq<seq<byte>>)

  /** Bytes read from the socket, or a completed async_read_until. */
  datatype Event = Arrive(bytes: seq<byte>) | Handle

  const INITIAL := Receiver([], [])

  /** What async_read_until reports: the bytes up to and including the first CR LF. */
  function LineLength(s: seq<byte>): (n: nat)
    requires HasCrLf(s)
    ensures 2 <= n <= |s| && CrLfAt(s, n - 2)
    ensures forall i :: 0 <= i < n - 2 ==> !CrLfAt(s, i)
  {
    if CrLfAt(s, 0) then 2
    else
      var i: nat :| i < |s| && CrLfAt(s, i);
      assert CrLfAt(s[1..], i - 1);
      assert forall k :: 0 <= k < |s| - 1 ==> CrLfAt(s, k + 1) == CrLfAt(s[1..], k);
      var n := 1 + LineLength(s[1..]);
      assert forall k :: 0 < k < n - 2 ==> CrLfAt(s, k) == CrLfAt(s[1..], k - 1);
      n
  }

  function Texts(message: Parsed): (texts: seq<seq<byte>>) {
    if message.Object? then [message.text] else []
  }

  /** incomingMessageHandler for a buffer of which the first `length` bytes were reported. */
  function HandleLine(r: Receiver, length: nat, json: Json): (next: Receiver) {
    var (buffer, message) := ParseIncoming(r.buffer, length, json);
    Receiver(buffer, r.delivered + Texts(message))
  }

  predicate Enabled(r: Receiver, e: Event) {
    e.Handle? ==> HasCrLf(r.buffer)
  }

  function Step(r: Receiver, e: Event, json: Json): (next: Receiver)
    requires Enabled(r, e)
  {
    match e
    case Arrive(bytes) => r.(buffer := r.buffer + bytes)
    case Handle => HandleLine(r, LineLength(r.buffer), json)
  }

  /** `r'` is reached from `r` by the events, each of them possible when it happens. */
  ghost predicate Execution(r: Receiver, events: seq<Event>, r': Receiver, json: Json)
    decreases |events|
  {
    if events == [] then r' == r
    else Enabled(r, events[0]) && Execution(Step(r, events[0], json), events[1..], r', json)
  }

  function Arrivals(events: seq<Event>): (bytes: seq<byte>) {
    if events == [] then []
    else (if events[0].Arrive? then events[0].bytes else []) + Arrivals(events[1..])
  }

  /** What the lines say, each on its own, in order. */
  function Deliveries(lines: seq<seq<byte>>, json: Json): (texts: seq<seq<byte>>) {
    if lines == [] then [] else Texts(MessageOf(lines[0], json)) + Deliveries(lines[1..], json)
  }

  /** Lines that one call each keeps apart from whatever follows. */
  ghost predicate AreSeparate(lines: seq<seq<byte>>, json: Json) {
    forall i :: 0 <= i < |lines| ==> IsLine(lines[i]) && IsSeparate(lines[i], json)
  }

  lemma {:induction false} DeliveriesAppend(a: seq<seq<byte>>, b: seq<seq<byte>>, json: Json)
    ensures Deliveries(a + b, json) == Deliveries(a, json) + Deliveries(b, json)
  {
    hide MessageOf, Texts;
    if a == [] {
      assert a + b == b;
    } else {
      assert (a + b)[1..] == a[1..] + b;
      DeliveriesAppend(a[1..], b, json);
    }
  }

  /** A buffered prefix of a line and more that holds a CR LF holds exactly that line at its front. */
  lemma FirstLine(line: seq<byte>, more: seq<byte>, buffer: seq<byte>)
    requires IsLine(line) && buffer <= line + more && HasCrLf(buffer)
    ensures LineLength(buffer) == |line| && buffer == line + buffer[|line|..]
  {
    var all := line + more;
    var n := LineLength(buffer);
    if n < |line| {
      assert CrLfAt(line[..|line| - 1], n - 2);
    } else if n > |line| {
      assert CrLfAt(buffer, |line| - 2);
    }
  }

  /** The state after the first k lines: exactly their messages delivered, the rest still buffered. */
  ghost predicate After(r: Receiver, arrived: seq<byte>, lines: seq<seq<byte>>, k: nat, json: Json) {
    && k <= |lines|
    && r.delivered == Deliveries(lines[..k], json)
    && arrived == Concat(lines[..k]) + r.buffer
  }

  lemma WireSplit(lines: seq<seq<byte>>, k: nat)
    requires k <= |lines|
    ensures Concat(lines) == Concat(lines[..k]) + Concat(lines[k..])
  {
    assert lines == lines[..k] + lines[k..];
    ConcatAppend(lines[..k], lines[k..]);
  }

  lemma WireExtend(lines: seq<seq<byte>>, k: nat, json: Json)
    requires k < |lines|
    ensures Concat(lines[..k + 1]) == Concat(lines[..k]) + lines[k]
    ensures Deliveries(lines[..k + 1], json) == Deliveries(lines[..k], json) + Texts(MessageOf(lines[k], json))
    ensures Concat(lines[k..]) == lines[k] + Concat(lines[k + 1..])
  {
    hide MessageOf, Texts;
    var next: seq<seq<byte>> := [lines[k]];
    assert lines[..k + 1] == lines[..k] + next && |next[1..]| == 0;
    ConcatAppend(lines[..k], next);
    DeliveriesAppend(lines[..k], next, json);
    assert lines[k..][1..] == lines[k + 1..];
  }

  lemma PrefixCancels(a: seq<byte>, b: seq<byte>, c: seq<byte>)
    requires a + b <= a + c
    ensures b <= c
  {
    assert b == (a + b)[|a|..] && c == (a + c)[|a|..];
  }

  /** A buffered line is the next one, complete. */
  lemma BufferedLine(r: Receiver, arrived: seq<byte>, lines: seq<seq<byte>>, k: nat, json: Json)
    requires AreSeparate(lines, json) && After(r, arrived, lines, k, json)
    requires arrived <= Concat(lines) && HasCrLf(r.buffer)
    ensures k < |lines| && LineLength(r.buffer) == |lines[k]|
    ensures r.buffer == lines[k] + r.buffer[LineLength(r.buffer)..]
  {
    hide IsSeparate, Deliveries, IsLine;
    WireSplit(lines, k);
    PrefixCancels(Concat(lines[..k]), r.buffer, Concat(lines[k..]));
    assert r.buffer != [];
    assert k < |lines|;
    WireExtend(lines, k, json);
    FirstLine(lines[k], Concat(lines[k + 1..]), r.buffer);
  }

  lemma SeparateLine(line: seq<byte>, rest: seq<byte>, json: Json)
    requires IsSeparate(line, json)
    ensures ParseIncoming(line + rest, |line|, json) == (rest, MessageOf(line, json))
  {
  }

  /** What the handler makes of a buffer with a separate line at its front. */
  lemma HandleLineIs(r: Receiver, line: seq<byte>, rest: seq<byte>, json: Json)
    requires IsSeparate(line, json) && r.buffer == line + rest
    ensures HandleLine(r, |line|, json) == Receiver(rest, r.delivered + Texts(MessageOf(line, json)))
  {
    hide MessageOf, ParseIncoming, Texts, IsSeparate;
    SeparateLine(line, rest, json);
  }

  lemma AfterOneMore(r: Receiver, arrived: seq<byte>, lines: seq<seq<byte>>, k: nat, rest: seq<byte>, json: Json)
    requires After(r, arrived, lines, k, json) && k < |lines| && r.buffer == lines[k] + rest
    ensures After(Receiver(rest, r.delivered + Texts(MessageOf(lines[k], json))), arrived, lines, k + 1, json)
  {
    hide MessageOf, Texts, Concat, Deliveries;
    WireExtend(lines, k, json);
    assert Concat(lines[..k]) + (lines[k] + rest) == Concat(lines[..k]) + lines[k] + rest;
  }

  lemma HandleStep(r: Receiver, arrived: seq<byte>, lines: seq<seq<byte>>, k: nat, json: Json)
    requires AreSeparate(lines, json) && After(r, arrived, lines, k, json)
    requires arrived <= Concat(lines) && HasCrLf(r.buffer)
    ensures k < |lines| && After(HandleLine(r, LineLength(r.buffer), json), arrived, lines, k + 1, json)
  {
    hide MessageOf, HandleLine, Concat, LineLength, HasCrLf, Texts, IsLine, IsSeparate, After;
    BufferedLine(r, arrived, lines, k, json);
    var rest := r.buffer[LineLength(r.buffer)..];
    HandleLineIs(r, lines[k], rest, json);
    AfterOneMore(r, arrived, lines, k, rest, json);
  }

  lemma {:induction false} ExecutionKeepsOrder(
    r: Receiver, events: seq<Event>, r': Receiver, arrived: seq<byte>, lines: seq<seq<byte>>, k: nat, json: Json)
    returns (k': nat)
    requires AreSeparate(lines, json) && After(r, arrived, lines, k, json)
    requires Execution(r, events, r', json)
    requires arrived + Arrivals(events) <= Concat(lines)
    ensures After(r', arrived + Arrivals(events), lines, k', json)
    decreases |events|
  {
    hide After, HandleLine, Concat, Deliveries, AreSeparate;
    if events == [] {
      assert arrived + [] == arrived;
      k' := k;
    } else {
      var e := events[0];
      match e
      case Arrive(bytes) =>
        ArriveStep(r, arrived, lines, k, bytes, json);
        assert arrived + Arrivals(events) == (arrived + bytes) + Arrivals(events[1..]);
        k' := ExecutionKeepsOrder(Step(r, e, json), events[1..], r', arrived + bytes, lines, k, json);
      case Handle =>
        assert Arrivals(events) == Arrivals(events[1..]);
        assert arrived <= arrived + Arrivals(events);
        HandleStep(r, arrived, lines, k, json);
        k' := ExecutionKeepsOrder(Step(r, e, json), events[1..], r', arrived, lines, k + 1, json);
    }
  }

  lemma ArriveStep(r: Receiver, arrived: seq<byte>, lines: seq<seq<byte>>, k: nat, bytes: seq<byte>, json: Json)
    requires After(r, arrived, lines, k, json)
    ensures After(r.(buffer := r.buffer + bytes), arrived + bytes, lines, k, json)
  {
    assert Concat(lines[..k]) + r.buffer + bytes == Concat(lines[..k]) + (r.buffer + bytes);
  }

  /**
    In every run, however the bytes are cut into arrivals and interleaved with calls, the messages
    delivered are those that the first k lines hold on their own, in order, and the unread bytes
    start at line k.
  */
  lemma RunsDeliverInOrder(events: seq<Event>, r: Receiver, lines: seq<seq<byte>>, json: Json)
    requires AreSeparate(lines, json)
    requires Execution(INITIAL, events, r, json)
    requires Arrivals(events) <= Concat(lines)
    ensures exists k: nat :: After(r, Arrivals(events), lines, k, json)
  {
    hide Execution;
    assert [] + Arrivals(events) == Arrivals(events);
    assert After(INITIAL, [], lines, 0, json) by { assert lines[..0] == []; }
    var k := ExecutionKeepsOrder(INITIAL, events, r, [], lines, 0, json);
  }

  lemma LinesHaveCrLf(lines: seq<seq<byte>>, json: Json)
    requires AreSeparate(lines, json) && lines != []
    ensures HasCrLf(Concat(lines))
  {
    hide IsSeparate;
    assert CrLfAt(Concat(lines), |lines[0]| - 2);
  }

  /** Once all bytes have arrived and no call is pending, everything has been delivered. */
  lemma CompleteRunsDeliverAll(events: seq<Event>, r: Receiver, lines: seq<seq<byte>>, json: Json)
    requires AreSeparate(lines, json)
    requires Execution(INITIAL, events, r, json)
    requires Arrivals(events) == Concat(lines) && !HasCrLf(r.buffer)
    ensures r == Receiver([], Deliveries(lines, json))
  {
    hide Concat, Deliveries, IsSeparate, IsLine, Execution;
    RunsDeliverInOrder(events, r, lines, json);
    var k: nat :| After(r, Arrivals(events), lines, k, json);
    WireSplit(lines, k);
    PrefixCancels(Concat(lines[..k]), r.buffer, Concat(lines[k..]));
    PrefixCancels(Concat(lines[..k]), Concat(lines[k..]), r.buffer);
    assert r.buffer == Concat(lines[k..]);
    if k < |lines| {
      LinesHaveCrLf(lines[k..], json);
      assert false;
    }
    assert lines[..k] == lines && lines[k..] == [];
    assert Concat<byte>([]) == [] by { NothingOnTheWire(); }
  }

  lemma NothingOnTheWire()
    ensures Concat<byte>([]) == []
  {
  }

  // ---------- Streams of encapsulated payloads, some altered in transit, among other lines ----------

  /** A payload as sent and as received. */
  datatype Transfer = Transfer(sent: seq<byte>, received: seq<byte>)

  /** What arrives: the frame of a payload, or any other line. */
  datatype Item = Payload(transfer: Transfer) | Stray(line: seq<byte>)

  /** An object within the length limit that arrives as sent or detectably altered, free of CR LF. */
  ghost predicate Transferable(t: Transfer, json: Json) {
    && |t.received| == |t.sent| && 0 < |t.sent| <= 65535
    && !HasCrLf(t.received)
    && ReadsObject(json, t.sent)
    && (t.received == t.sent || Detectable(t.sent, t.received))
  }

  /** Stray lines may hold anything, as long as the parser's loop stops within them. */
  ghost predicate Receivable(item: Item, json: Json) {
    match item
    case Payload(t) => Transferable(t, json)
    case Stray(line) => ReadsAsStream(json) && IsLine(line) && LineStop(line, json) == Within
  }

  function ItemLine(item: Item): (line: seq<byte>) {
    match item
    case Payload(t) => LineBytes(Frame(t.sent, t.received))
    case Stray(line) => line
  }

  function ItemLines(items: seq<Item>): (lines: seq<seq<byte>>)
    ensures |lines| == |items|
  {
    seq(|items|, i requires 0 <= i < |items| => ItemLine(items[i]))
  }

  /** The payloads that arrived as sent, and what stray lines hold on their own, in order. */
  function Accepted(items: seq<Item>, json: Json): (texts: seq<seq<byte>>) {
    if items == [] then []
    else (match items[0]
          case Payload(t) => if t.received == t.sent then [t.sent] else []
          case Stray(line) => Texts(MessageOf(line, json)))
         + Accepted(items[1..], json)
  }

  lemma PayloadIsSeparate(t: Transfer, json: Json)
    requires Transferable(t, json)
    ensures
      var line := LineBytes(Frame(t.sent, t.received));
      && IsLine(line) && IsSeparate(line, json)
      && MessageOf(line, json) == if t.received == t.sent then Object(t.sent) else Null
  {
    hide Frame, Delivered, HoldsObject, LineBytes, IsLine, IsSeparate, MessageOf, ReadsObject, HasCrLf, Detectable;
    FrameWellFormed(t.sent, t.received, json);
    LinesAreSeparate(Frame(t.sent, t.received), json);
    if t.received == t.sent {
      FrameDelivered(t.sent, t.received);
    } else {
      AlteredFrameDropped(t.sent, t.received);
    }
  }

  lemma ItemIsSeparate(item: Item, json: Json)
    requires Receivable(item, json)
    ensures IsLine(ItemLine(item)) && IsSeparate(ItemLine(item), json)
  {
    hide IsLine, IsSeparate, LineStop, ReadsAsStream, Transferable, LineBytes;
    match item
    case Payload(t) => PayloadIsSeparate(t, json);
    case Stray(line) => WithinIsSeparate(line, json);
  }

  lemma {:induction false} AcceptedAreDelivered(items: seq<Item>, json: Json)
    requires forall i :: 0 <= i < |items| ==> Receivable(items[i], json)
    ensures AreSeparate(ItemLines(items), json)
    ensures Deliveries(ItemLines(items), json) == Accepted(items, json)
  {
    hide IsLine, IsSeparate, LineStop, ReadsAsStream, Transferable, LineBytes, MessageOf, Frame;
    forall i | 0 <= i < |items| ensures IsLine(ItemLine(items[i])) && IsSeparate(ItemLine(items[i]), json) {
      ItemIsSeparate(items[i], json);
    }
    if items != [] {
      AcceptedAreDelivered(items[1..], json);
      assert ItemLines(items)[1..] == ItemLines(items[1..]);
      if items[0].Payload? {
        PayloadIsSeparate(items[0].transfer, json);
      }
    }
  }

  /**
    Rejection and realignment: exactly the altered frames are dropped, every other payload is
    delivered in order, whatever lines the parser stops within come between them, and nothing is
    left unread.
  */
  lemma AlteredFramesAreDroppedAlone(events: seq<Event>, r: Receiver, items: seq<Item>, json: Json)
    requires forall i :: 0 <= i < |items| ==> Receivable(items[i], json)
    requires Execution(INITIAL, events, r, json)
    requires Arrivals(events) == Concat(ItemLines(items)) && !HasCrLf(r.buffer)
    ensures r == Receiver([], Accepted(items, json))
  {
    hide Receivable, Execution, Concat, HasCrLf, AreSeparate;
    AcceptedAreDelivered(items, json);
    CompleteRunsDeliverAll(events, r, ItemLines(items), json);
  }

  /** A frame behind any line that the loop stops within is judged by its own checksum alone. */
  lemma FrameIsJudgedByItsChecksum(
    r: Receiver, line: seq<byte>, sent: seq<byte>, received: seq<byte>, rest: seq<byte>, json: Json)
    requires ReadsAsStream(json) && IsLine(line) && LineStop(line, json) == Within
    requires !HasCrLf(received) && 0 < |received| <= 65535 && ReadsObject(json, received)
    requires r.buffer == line + (LineBytes(Frame(sent, received)) + rest)
    ensures Execution(r, [Handle, Handle],
                      Receiver(rest, r.delivered + Texts(MessageOf(line, json))
                                     + (if Crc(received) == Crc(sent) then [received] else [])), json)
  {
    hide ParseIncoming, Crc, LineBytes, ReadsObject, LineLength, HasCrLf, IsLine, Frame, MessageOf;
    hide ReadsAsStream, LineStop, Delivered, HoldsObject;
    var frame := LineBytes(Frame(sent, received));
    WithinIsSeparate(line, json);
    assert ParseIncoming(line + (frame + rest), |line|, json) == (frame + rest, MessageOf(line, json));
    LineAtFront(line, frame + rest);
    var r1 := Step(r, Handle, json);
    FrameIsLine(sent, received);
    FrameHoldsObject(sent, received, json);
    FrameDelivered(sent, received);
    OneCallOneLine(Frame(sent, received), rest, json);
    LineAtFront(frame, rest);
    var r2 := Step(r1, Handle, json);
    assert [Handle, Handle][1..] == [Handle] && |[Handle][1..]| == 0;
    assert Execution(r1, [Handle], r2, json);
  }

  // ---------- Empty lines ----------

  const EMPTY_LINE: seq<byte> := [CR, LF]

  lemma EmptyLineIsSkipped(frame: seq<byte>, json: Json)
    ensures ReadHeaders(Stream(EMPTY_LINE + frame, true), -1, false, json)
         == ReadHeaders(Stream(frame, true), -1, false, json)
  {
    hide LoopStop, ReadHeaders;
    EmptyAndOverrunRunOut(3, json);
    LoopResumes(EMPTY_LINE, -1, false, frame, json);
  }

  /** The first call reads through the empty line into the frame, so nothing is left to skip. */
  lemma CallOnEmptyLine(sent: seq<byte>, received: seq<byte>, rest: seq<byte>, json: Json)
    requires 0 < |received| <= 65535 && ReadsObject(json, received)
    ensures ParseIncoming(EMPTY_LINE + (LineBytes(Frame(sent, received)) + rest), 2, json) ==
      if Crc(received) == Crc(sent) then (TRAILING_PART + rest, Object(received))
      else (received + (TRAILING_PART + rest), Null)
  {
    hide Crc, ReadHeaders, LineBytes, ReadsObject, Frame;
    var frame := LineBytes(Frame(sent, received));
    FrameStartsWithDigit(sent, received);
    assert (frame + rest)[0] == frame[0];
    EmptyLineIsSkipped(frame + rest, json);
    FrameReadsExactly(sent, received, rest, -1, json);
    FrameHoldsBody(sent, received);
    assert (EMPTY_LINE + (frame + rest))[0] == CR;
  }

  lemma FrameStartsWithDigit(sent: seq<byte>, received: seq<byte>)
    ensures LineBytes(Frame(sent, received)) != [] && IsDigit(LineBytes(Frame(sent, received))[0])
  {
    var header := ChecksumHeader(Crc(sent));
    hide Crc, ChecksumHeader;
    assert IsDigit(Decimal(|header|)[0]);
    assert LineBytes(Frame(sent, received))[0] == Decimal(|header|)[0];
  }

  lemma FrameHoldsBody(sent: seq<byte>, received: seq<byte>)
    ensures |LineBytes(Frame(sent, received))| >= |received| + |TRAILING_PART|
  {
    hide Crc, ChecksumHeader;
  }

  lemma CallOnTrailingPart(rest: seq<byte>, json: Json)
    ensures ParseIncoming(TRAILING_PART + rest, 3, json) == (rest, Null)
  {
    var s := TRAILING_PART + rest;
    assert SkipSpaces(s) == s && AfterSign(s) == s && DigitRun(s) == 0;
    assert ReadCount(Stream(s, true)) == (Stream(s, false), 0);
    assert s[3..] == rest;
  }

  lemma CallOnBody(received: seq<byte>, rest: seq<byte>, json: Json)
    requires received != [] && received[0] == OPEN_BRACE && ReadsObject(json, received)
    ensures ParseIncoming(received + (TRAILING_PART + rest), |received| + 3, json) == (rest, Object(received))
  {
    hide ReadHeaders;
    var tail := TRAILING_PART + rest;
    assert json(received + tail) == JsonResult(|received|, true);
    assert (received + tail)[|received|..] == tail && (received + tail)[..|received|] == received;
    assert (received + tail)[0] == received[0] && tail[3..] == rest;
  }

  lemma LineAtFront(line: seq<byte>, rest: seq<byte>)
    requires IsLine(line)
    ensures HasCrLf(line + rest) && LineLength(line + rest) == |line|
  {
    assert CrLfAt(line + rest, |line| - 2);
    FirstLine(line, rest, line + rest);
  }

  /**
    A line that the loop does not stop within, the empty one: behind it a frame is parsed one call early, and
    the next call takes what is left of it for a line of its own. Either way two calls deliver the
    body and end on the frame boundary, whether or not its checksum is right.
  */
  lemma ChecksumIsLostBehindEmptyLine(r: Receiver, sent: seq<byte>, received: seq<byte>, rest: seq<byte>, json: Json)
    requires r.buffer == EMPTY_LINE + (LineBytes(Frame(sent, received)) + rest)
    requires 0 < |received| <= 65535 && !HasCrLf(received)
    requires received[0] == OPEN_BRACE && ReadsObject(json, received)
    ensures Execution(r, [Handle, Handle], Receiver(rest, r.delivered + [received]), json)
  {
    hide ParseIncoming, Crc, LineBytes, ReadsObject, LineLength, HasCrLf, IsLine, Frame;
    RemaindersAreLines(received);
    LineAtFront(EMPTY_LINE, LineBytes(Frame(sent, received)) + rest);
    CallOnEmptyLine(sent, received, rest, json);
    var r1 := Step(r, Handle, json);
    if Crc(received) == Crc(sent) {
      LineAtFront(TRAILING_PART, rest);
      CallOnTrailingPart(rest, json);
    } else {
      assert received + (TRAILING_PART + rest) == received + TRAILING_PART + rest;
      LineAtFront(received + TRAILING_PART, rest);
      CallOnBody(received, rest, json);
    }
    var r2 := Step(r1, Handle, json);
    assert r2 == Receiver(rest, r.delivered + [received]);
    assert [Handle, Handle][1..] == [Handle] && |[Handle][1..]| == 0;
    assert Execution(r1, [Handle], r2, json);
  }

  lemma RemaindersAreLines(body: seq<byte>)
    requires !HasCrLf(body)
    ensures IsLine(EMPTY_LINE) && IsLine(TRAILING_PART) && IsLine(body + TRAILING_PART)
  {
    assert IsLine(EMPTY_LINE);
    assert IsLine(TRAILING_PART);
    NoEarlyCrLf([], body);
    assert [] + body == body;
  }
}
