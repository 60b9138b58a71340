/**
  What one call of the parser makes of one line at the front of the buffer, whatever follows it:
  which frames are delivered, and that the call ends exactly on the line boundary.
*/
module FramingLaws {
  import opened Bytes
  import opened Crc16
  import opened InputStream
  import opened Framing

  // ---------- Lines ----------

  predicate CrLfAt(s: seq<byte>, i: nat) {
    i + 1 < |s| && s[i] == CR && s[i + 1] == LF
  }

  predicate HasCrLf(s: seq<byte>) {
    exists i: nat :: i < |s| && CrLfAt(s, i)
  }

  /** The bytes up to and including the first CR LF are all of `s`. */
  predicate IsLine(s: seq<byte>) {
    |s| >= 2 && CrLfAt(s, |s| - 2) && !HasCrLf(s[..|s| - 1])
  }

  /**
    A line on the wire: any header texts and any body in the framed form, or a bare JSON object.
    The frame of a payload altered in transit is one whose body differs from what was sent.
  */
  datatype Line =
    | Framed(headers: seq<seq<byte>>, body: seq<byte>)
    | Bare(text: seq<byte>)

  function HeaderItems(headers: seq<seq<byte>>): (bytes: seq<byte>) {
    if headers == [] then [] else HeaderItem(headers[0]) + HeaderItems(headers[1..])
  }

  function BodyBytes(body: seq<byte>): (bytes: seq<byte>) {
    Declared(|body|) + body + TRAILING_PART
  }

  function LineBytes(line: Line): (bytes: seq<byte>) {
    match line
    case Framed(headers, body) => HeaderItems(headers) + (HeaderItem([]) + BodyBytes(body))
    case Bare(text) => text + [CR, LF]
  }

  /** The expected checksum after all headers, the last checksum header winning; None when one is refused. */
  function LastChecksum(headers: seq<seq<byte>>, expected: int): (checksum: Option<int>) {
    if headers == [] then Some(expected)
    else if |headers[0]| > 65535 then None
    else
      var next := AfterHeader(headers[0], expected);
      if next == None then None else LastChecksum(headers[1..], next.value)
  }

  /** Whether a frame passes: acceptable headers, a body of permitted length, and its checksum. */
  predicate Passes(headers: seq<seq<byte>>, body: seq<byte>) {
    && LastChecksum(headers, -1) == Some(ToNat(Crc(body)))
    && 0 < |body| <= 65535
  }

  /** What a receiver should make of the line. */
  function Delivered(line: Line): (message: Parsed) {
    match line
    case Framed(headers, body) => if Passes(headers, body) then Object(body) else Null
    case Bare(text) => Object(text)
  }

  /** The JSON reader takes exactly `text`, an object, whatever follows it. */
  ghost predicate ReadsObject(json: Json, text: seq<byte>) {
    forall tail :: json(text + tail) == JsonResult(|text|, true)
  }

  /** No header is empty (that would end the headers), and what gets parsed is an object. */
  ghost predicate HoldsObject(line: Line, json: Json) {
    match line
    case Framed(headers, body) =>
      && (forall i :: 0 <= i < |headers| ==> headers[i] != [])
      && |body| < SIZE_MODULUS
      && (forall i :: 0 <= i < |headers| ==> |headers[i]| < SIZE_MODULUS)
      && (Passes(headers, body) ==> ReadsObject(json, body))
    case Bare(text) => text != [] && text[0] == OPEN_BRACE && ReadsObject(json, text)
  }

  ghost predicate WellFormed(line: Line, json: Json) {
    IsLine(LineBytes(line)) && HoldsObject(line, json)
  }

  // ---------- One step of the header loop ----------

  lemma DeclarationReads(count: nat, rest: seq<byte>)
    requires count < SIZE_MODULUS
    ensures
      var (s1, n) := ReadCount(Stream(Declared(count) + rest, true));
      n == count && ReadChar(s1) == (Stream(rest, true), COLON)
  {
    hide Decimal, ReadCount, ReadChar;
    assert Declared(count) + rest == Decimal(count) + ([COLON] + rest);
    CountReadsBack(count, [COLON] + rest);
    CharReadsBack(COLON, rest);
  }

  lemma HeaderItemSplit(text: seq<byte>, rest: seq<byte>)
    ensures HeaderItem(text) + rest == Declared(|text|) + (text + ([COMMA] + rest))
  {
    hide Declared;
  }

  lemma HeaderItemReads(text: seq<byte>, rest: seq<byte>, expected: int, json: Json)
    requires |text| < SIZE_MODULUS
    ensures ReadHeaders(Stream(HeaderItem(text) + rest, true), expected, false, json) ==
      if |text| > 65535 then (text + ([COMMA] + rest), Null)
      else if text == [] then ReadHeaders(Stream(rest, true), expected, true, json)
      else if AfterHeader(text, expected) == None then (rest, Null)
      else ReadHeaders(Stream(rest, true), AfterHeader(text, expected).value, false, json)
  {
    hide Decimal, Declared, HeaderItem, ReadCount, ReadChar, ReadBytes, AfterHeader, ReadBody;
    HeaderItemSplit(text, rest);
    DeclarationReads(|text|, text + ([COMMA] + rest));
    BytesReadBack(text, [COMMA] + rest);
    CharReadsBack(COMMA, rest);
  }

  lemma BodySplit(body: seq<byte>, rest: seq<byte>)
    ensures BodyBytes(body) + rest == Declared(|body|) + (body + (TRAILING_PART + rest))
    ensures
      var tail := body + (TRAILING_PART + rest);
      && |tail| >= |body| + 1 && tail[|body|] == COMMA
      && tail[..|body|] == body && tail[|body|..] == TRAILING_PART + rest
  {
    hide Declared;
  }

  lemma BodyReads(body: seq<byte>, rest: seq<byte>, expected: int, json: Json)
    requires |body| < SIZE_MODULUS
    requires expected == ToNat(Crc(body)) && 0 < |body| <= 65535 ==> ReadsObject(json, body)
    ensures ReadHeaders(Stream(BodyBytes(body) + rest, true), expected, true, json) ==
      if expected == ToNat(Crc(body)) && 0 < |body| <= 65535
      then (TRAILING_PART + rest, Object(body)) else (body + (TRAILING_PART + rest), Null)
  {
    hide Decimal, Declared, BodyBytes, ReadCount, ReadChar, Crc, ToNat;
    var tail := body + (TRAILING_PART + rest);
    BodySplit(body, rest);
    DeclarationReads(|body|, tail);
    if |body| <= 65535 {
      BodyParses(body, rest, expected, json);
    }
  }

  lemma BodyParses(body: seq<byte>, rest: seq<byte>, expected: int, json: Json)
    requires expected == ToNat(Crc(body)) && 0 < |body| <= 65535 ==> ReadsObject(json, body)
    requires |body| <= 65535
    ensures ReadBody(Stream(body + (TRAILING_PART + rest), true), |body|, expected, json) ==
      if expected == ToNat(Crc(body)) && body != []
      then (TRAILING_PART + rest, Object(body)) else (body + (TRAILING_PART + rest), Null)
  {
    hide Crc, ToNat;
    BodySplit(body, rest);
  }

  /** The unread bytes are the last part of the line and what follows it. */
  ghost predicate WithinLine(unread: seq<byte>, line: seq<byte>, rest: seq<byte>) {
    |rest| <= |unread| <= |line| + |rest| && unread[|unread| - |rest|..] == rest
  }

  lemma {:induction false} FrameReads(
    headers: seq<seq<byte>>, body: seq<byte>, rest: seq<byte>, expected: int, json: Json)
    requires forall i :: 0 <= i < |headers| ==> headers[i] != [] && |headers[i]| < SIZE_MODULUS
    requires |body| < SIZE_MODULUS
    requires LastChecksum(headers, expected) == Some(ToNat(Crc(body))) && 0 < |body| <= 65535
             ==> ReadsObject(json, body)
    ensures
      var frame := HeaderItems(headers) + (HeaderItem([]) + BodyBytes(body));
      var (unread, message) := ReadHeaders(Stream(frame + rest, true), expected, false, json);
      && WithinLine(unread, frame, rest)
      && message == (if LastChecksum(headers, expected) == Some(ToNat(Crc(body))) && 0 < |body| <= 65535
                     then Object(body) else Null)
    decreases |headers|
  {
    hide Decimal, HeaderItem, BodyBytes, ReadHeaders, Crc, ToNat, AfterHeader, ReadsObject;
    var end := HeaderItem([]) + BodyBytes(body);
    var frame := HeaderItems(headers) + end;
    if headers == [] {
      assert frame + rest == HeaderItem([]) + (BodyBytes(body) + rest);
      HeaderItemReads([], BodyBytes(body) + rest, expected, json);
      BodyReads(body, rest, expected, json);
      BodyLength(body);
      assert WithinLine(TRAILING_PART + rest, frame, rest);
      assert WithinLine(body + (TRAILING_PART + rest), frame, rest);
    } else {
      var later := HeaderItems(headers[1..]) + end;
      assert frame + rest == HeaderItem(headers[0]) + (later + rest);
      HeaderItemReads(headers[0], later + rest, expected, json);
      HeaderLength(headers[0]);
      if |headers[0]| > 65535 {
        assert WithinLine(headers[0] + ([COMMA] + (later + rest)), frame, rest);
      } else if AfterHeader(headers[0], expected) == None {
        assert WithinLine(later + rest, frame, rest);
      } else {
        FrameReads(headers[1..], body, rest, AfterHeader(headers[0], expected).value, json);
      }
    }
  }

  lemma HeaderLength(text: seq<byte>)
    ensures |HeaderItem(text)| >= |text| + 2
  {
  }

  lemma BodyLength(body: seq<byte>)
    ensures |BodyBytes(body)| >= |body| + 3
  {
  }

  // ---------- One line ----------

  lemma FrameStart(line: Line)
    requires line.Framed?
    ensures LineBytes(line) != [] && LineBytes(line)[0] != OPEN_BRACE
  {
    var first := if line.headers == [] then [] else line.headers[0];
    assert IsDigit(Decimal(|first|)[0]);
    assert LineBytes(line)[0] == Decimal(|first|)[0];
  }

  lemma IgnoreToEnd(unread: seq<byte>, line: seq<byte>, rest: seq<byte>)
    requires WithinLine(unread, line, rest)
    ensures Ignore(unread, |line| - (|line + rest| - |unread|)) == rest
  {
  }

  /**
    One call on a buffer that starts with such a line delivers exactly what the line holds and
    leaves exactly the bytes after it, whatever they are.
  */
  lemma OneCallOneLine(line: Line, rest: seq<byte>, json: Json)
    requires HoldsObject(line, json)
    ensures ParseIncoming(LineBytes(line) + rest, |LineBytes(line)|, json) == (rest, Delivered(line))
  {
    match line
    case Framed(headers, body) => OneCallOneFrame(headers, body, rest, json);
    case Bare(text) => OneCallOneObject(text, rest, json);
  }

  lemma OneCallOneFrame(headers: seq<seq<byte>>, body: seq<byte>, rest: seq<byte>, json: Json)
    requires HoldsObject(Framed(headers, body), json)
    ensures ParseIncoming(LineBytes(Framed(headers, body)) + rest, |LineBytes(Framed(headers, body))|, json)
         == (rest, Delivered(Framed(headers, body)))
  {
    hide Crc, ToNat, HeaderItem, HeaderItems, BodyBytes, ReadHeaders, ReadsObject;
    hide IsLine, Ignore, WithinLine, LastChecksum;
    var line := Framed(headers, body);
    var bytes := LineBytes(line);
    FrameStart(line);
    assert (bytes + rest)[0] == bytes[0];
    FrameReads(headers, body, rest, -1, json);
    IgnoreToEnd(ReadMessage(bytes + rest, json).0, bytes, rest);
  }

  lemma OneCallOneObject(text: seq<byte>, rest: seq<byte>, json: Json)
    requires text != [] && text[0] == OPEN_BRACE && ReadsObject(json, text)
    ensures ParseIncoming(text + [CR, LF] + rest, |text + [CR, LF]|, json) == (rest, Object(text))
  {
    hide ReadHeaders;
    var tail := [CR, LF] + rest;
    assert text + [CR, LF] + rest == text + tail;
    assert json(text + tail) == JsonResult(|text|, true);
    assert (text + tail)[|text|..] == tail && (text + tail)[..|text|] == text && (text + tail)[0] == text[0];
    assert WithinLine(tail, text + [CR, LF], rest);
    IgnoreToEnd(tail, text + [CR, LF], rest);
  }

  // ---------- Lines on their own ----------

  /** What a line says on its own, with nothing behind it. */
  function MessageOf(line: seq<byte>, json: Json): (message: Parsed) {
    ParseIncoming(line, |line|, json).1
  }

  /** Whatever follows, one call delivers what the line says on its own and leaves what follows. */
  ghost predicate IsSeparate(line: seq<byte>, json: Json) {
    forall rest :: ParseIncoming(line + rest, |line|, json) == (rest, MessageOf(line, json))
  }

  lemma LinesAreSeparate(line: Line, json: Json)
    requires HoldsObject(line, json)
    ensures IsSeparate(LineBytes(line), json) && MessageOf(LineBytes(line), json) == Delivered(line)
  {
    hide ParseIncoming, HoldsObject, LineBytes, Delivered;
    var bytes := LineBytes(line);
    OneCallOneLine(line, [], json);
    assert bytes + [] == bytes;
    forall rest ensures ParseIncoming(bytes + rest, |bytes|, json) == (rest, MessageOf(bytes, json)) {
      OneCallOneLine(line, rest, json);
    }
  }

  // ---------- Headers that carry no checksum ----------

  /** A header of permitted length, with a key that is not "checksum". */
  predicate IsOtherHeader(text: seq<byte>) {
    && |text| <= 65535
    && IndexOf(text, EQUALS) < |text| && text[..IndexOf(text, EQUALS)] != CHECKSUM_KEY
  }

  lemma {:induction false} OtherHeaderKeepsChecksum(
    front: seq<seq<byte>>, extra: seq<byte>, back: seq<seq<byte>>, expected: int)
    requires IsOtherHeader(extra)
    ensures LastChecksum(front + [extra] + back, expected) == LastChecksum(front + back, expected)
    decreases |front|
  {
    hide StoiHex;
    var all := front + [extra] + back;
    if front == [] {
      assert front + back == back && all[1..] == back && all[0] == extra;
      assert AfterHeader(extra, expected) == Some(expected);
    } else {
      hide AfterHeader;
      assert all[1..] == front[1..] + [extra] + back && (front + back)[1..] == front[1..] + back;
      assert all[0] == front[0] == (front + back)[0];
      var next := AfterHeader(front[0], expected);
      if next != None {
        OtherHeaderKeepsChecksum(front[1..], extra, back, next.value);
      }
    }
  }

  /** What two calls leave agrees as soon as both results or both remainders do. */
  ghost predicate SameBehind(a: (seq<byte>, Parsed), b: (seq<byte>, Parsed), rest: seq<byte>) {
    a == b || (a.1 == b.1 == Null && EndsWith(a.0, rest) && EndsWith(b.0, rest))
  }

  ghost predicate EndsWith(s: seq<byte>, rest: seq<byte>) {
    |rest| <= |s| && s[|s| - |rest|..] == rest
  }

  /** One such header in front of any bytes is read and forgotten, whatever the JSON reader. */
  lemma OtherHeaderIsSkipped(extra: seq<byte>, rest: seq<byte>, expected: int, json: Json)
    requires IsOtherHeader(extra) && extra != []
    ensures ReadHeaders(Stream(HeaderItem(extra) + rest, true), expected, false, json)
         == ReadHeaders(Stream(rest, true), expected, false, json)
  {
    hide StoiHex, ReadHeaders, HeaderItem;
    HeaderItemReads(extra, rest, expected, json);
  }

  lemma Regroup(a: seq<byte>, b: seq<byte>, c: seq<byte>)
    ensures a + b + c == a + (b + c)
  {
  }

  lemma EndsWithBehind(front: seq<byte>, more: seq<byte>, rest: seq<byte>)
    requires EndsWith(more, rest)
    ensures EndsWith(front + more, rest)
  {
    assert (front + more)[|front| + |more| - |rest|..] == more[|more| - |rest|..];
  }

  lemma RefusedHeaderLeaves(header: seq<byte>, more: seq<byte>, rest: seq<byte>)
    requires EndsWith(more, rest)
    ensures EndsWith(header + ([COMMA] + more), rest) && EndsWith(HeaderItem(header) + more, rest)
  {
    hide HeaderItem, EndsWith;
    EndsWithBehind(HeaderItem(header), more, rest);
    EndsWithBehind(header + [COMMA], more, rest);
    Regroup(header, [COMMA], more);
  }

  lemma {:induction false} OtherHeaderAmongHeaders(
    front: seq<seq<byte>>, extra: seq<byte>, back: seq<byte>, rest: seq<byte>, expected: int, json: Json)
    requires IsOtherHeader(extra) && extra != [] && EndsWith(back, rest)
    requires forall i :: 0 <= i < |front| ==> front[i] != [] && |front[i]| < SIZE_MODULUS
    ensures EndsWith(HeaderItems(front) + (HeaderItem(extra) + back), rest) && EndsWith(HeaderItems(front) + back, rest)
    ensures SameBehind(
      ReadHeaders(Stream(HeaderItems(front) + (HeaderItem(extra) + back), true), expected, false, json),
      ReadHeaders(Stream(HeaderItems(front) + back, true), expected, false, json), rest)
    decreases |front|
  {
    hide HeaderItem, ReadHeaders, AfterHeader, IsOtherHeader, EndsWith;
    RefusedHeaderLeaves(extra, back, rest);
    if front == [] {
      assert [] + (HeaderItem(extra) + back) == HeaderItem(extra) + back && [] + back == back;
      OtherHeaderIsSkipped(extra, back, expected, json);
    } else {
      var (all, fewer) := (HeaderItems(front[1..]) + (HeaderItem(extra) + back), HeaderItems(front[1..]) + back);
      assert HeaderItems(front) + (HeaderItem(extra) + back) == HeaderItem(front[0]) + all;
      assert HeaderItems(front) + back == HeaderItem(front[0]) + fewer;
      HeaderItemReads(front[0], all, expected, json);
      HeaderItemReads(front[0], fewer, expected, json);
      var next := AfterHeader(front[0], expected);
      OtherHeaderAmongHeaders(front[1..], extra, back, rest, if next == None then expected else next.value, json);
      RefusedHeaderLeaves(front[0], all, rest);
      RefusedHeaderLeaves(front[0], fewer, rest);
    }
  }

  lemma IgnoreSame(a: seq<byte>, line: seq<byte>, rest: seq<byte>)
    requires EndsWith(a, rest)
    ensures Ignore(a, |line| - (|line + rest| - |a|)) == rest
  {
  }

  lemma {:induction false} HeaderItemsAppend(a: seq<seq<byte>>, b: seq<seq<byte>>)
    ensures HeaderItems(a + b) == HeaderItems(a) + HeaderItems(b)
  {
    hide HeaderItem;
    if a == [] {
      assert a + b == b;
    } else {
      assert (a + b)[1..] == a[1..] + b;
      HeaderItemsAppend(a[1..], b);
    }
  }

  /** The frame's bytes from its end of headers on. */
  function BackBytes(back: seq<seq<byte>>, body: seq<byte>): (bytes: seq<byte>) {
    HeaderItems(back) + (HeaderItem([]) + BodyBytes(body))
  }

  lemma FramedParts(front: seq<seq<byte>>, back: seq<seq<byte>>, body: seq<byte>)
    ensures LineBytes(Framed(front + back, body)) == HeaderItems(front) + BackBytes(back, body)
  {
    hide HeaderItem, BodyBytes, HeaderItems;
    HeaderItemsAppend(front, back);
    Regroup(HeaderItems(front), HeaderItems(back), HeaderItem([]) + BodyBytes(body));
  }

  lemma FramedPartsWith(front: seq<seq<byte>>, extra: seq<byte>, back: seq<seq<byte>>, body: seq<byte>)
    ensures LineBytes(Framed(front + [extra] + back, body))
         == HeaderItems(front) + (HeaderItem(extra) + BackBytes(back, body))
  {
    FramedParts(front + [extra], back, body);
    HeaderItemsAppend(front, [extra]);
    assert HeaderItems([extra]) == HeaderItem(extra) by {
      hide HeaderItem;
      var one: seq<seq<byte>> := [extra];
      assert |one[1..]| == 0;
    }
    hide HeaderItem, HeaderItems, BackBytes, LineBytes;
    Regroup(HeaderItems(front), HeaderItem(extra), BackBytes(back, body));
  }

  lemma ReadAlike(
    front: seq<seq<byte>>, extra: seq<byte>, back: seq<seq<byte>>, body: seq<byte>, rest: seq<byte>, json: Json)
    requires IsOtherHeader(extra) && extra != []
    requires forall i :: 0 <= i < |front| ==> front[i] != [] && |front[i]| < SIZE_MODULUS
    ensures
      var (all, fewer) := (LineBytes(Framed(front + [extra] + back, body)), LineBytes(Framed(front + back, body)));
      SameBehind(ReadMessage(all + rest, json), ReadMessage(fewer + rest, json), rest)
  {
    var (all, fewer) := (LineBytes(Framed(front + [extra] + back, body)), LineBytes(Framed(front + back, body)));
    FrameStart(Framed(front + [extra] + back, body));
    FrameStart(Framed(front + back, body));
    FramedParts(front, back, body);
    FramedPartsWith(front, extra, back, body);
    hide IsOtherHeader, HeaderItem, HeaderItems, BackBytes, LineBytes, ReadHeaders, SameBehind;
    var (items, behind) := (HeaderItems(front), BackBytes(back, body));
    assert EndsWith(rest, rest);
    EndsWithBehind(behind, rest, rest);
    hide EndsWith;
    OtherHeaderAmongHeaders(front, extra, behind + rest, rest, -1, json);
    Regroup(items, behind, rest);
    Regroup(items, HeaderItem(extra) + behind, rest);
    Regroup(HeaderItem(extra), behind, rest);
    assert (all + rest)[0] == all[0] && (fewer + rest)[0] == fewer[0];
  }

  /**
    A further well-formed header, anywhere among the others, changes neither what a call returns nor
    what it leaves, whatever follows and whatever the JSON reader makes of the body.
  */
  lemma OtherHeadersAreIgnored(
    front: seq<seq<byte>>, extra: seq<byte>, back: seq<seq<byte>>, body: seq<byte>, rest: seq<byte>, json: Json)
    requires IsOtherHeader(extra) && extra != []
    requires forall i :: 0 <= i < |front| ==> front[i] != [] && |front[i]| < SIZE_MODULUS
    ensures
      var (all, fewer) := (LineBytes(Framed(front + [extra] + back, body)), LineBytes(Framed(front + back, body)));
      ParseIncoming(all + rest, |all|, json) == ParseIncoming(fewer + rest, |fewer|, json)
  {
    hide IsOtherHeader, LineBytes, ReadMessage, EndsWith, Ignore;
    ReadAlike(front, extra, back, body, rest, json);
    var (all, fewer) := (LineBytes(Framed(front + [extra] + back, body)), LineBytes(Framed(front + back, body)));
    var (a, b) := (ReadMessage(all + rest, json), ReadMessage(fewer + rest, json));
    if a == b {
      assert |all| - (|all + rest| - |a.0|) == |fewer| - (|fewer + rest| - |b.0|);
    } else {
      IgnoreSame(a.0, all, rest);
      IgnoreSame(b.0, fewer, rest);
    }
  }
}
