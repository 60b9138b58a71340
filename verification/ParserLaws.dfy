/** The parser on arbitrary bytes: what it takes to be delivered, progress, and how a line can overrun. */
module ParserLaws {
  import opened Bytes
  import opened Crc16
  import opened InputStream
  import opened Framing
  import opened FramingLaws

  // ---------- Exactly what the framed branch delivers ----------

  /** The four extractions of one iteration of the header loop. */
  function Tokens(s: Stream): (r: (Stream, nat, Stream, byte, Stream, seq<byte>, Stream, byte))
    ensures r.6.good ==> |r.6.unread| < |s.unread|
  {
    var (s1, count) := ReadCount(s);
    var (s2, colon) := ReadChar(s1);
    var (s3, text) := ReadBytes(s2, count);
    var (s4, comma) := ReadChar(s3);
    (s1, count, s2, colon, s3, text, s4, comma)
  }

  /** One well-formed header item read from the stream: its text, and the stream after its comma. */
  function OneItem(s: Stream): (item: Option<(seq<byte>, Stream)>) {
    var (s1, count, s2, colon, s3, text, s4, comma) := Tokens(s);
    if s2.good && count <= 65535 && colon == COLON && s4.good && comma == COMMA then Some((text, s4))
    else None
  }

  /** The stream holds the non-empty header texts, then the empty one, then `rest`. */
  ghost predicate HoldsHeaders(s: Stream, headers: seq<seq<byte>>, rest: Stream)
    decreases |headers|
  {
    var item := OneItem(s);
    && item.Some?
    && if headers == [] then item.value == ([], rest)
       else headers[0] != [] && item.value.0 == headers[0] && HoldsHeaders(item.value.1, headers[1..], rest)
  }

  /** The stream declares a body of `count` bytes, and the bytes from there on are `body`. */
  ghost predicate DeclaresBody(s: Stream, count: nat, body: seq<byte>) {
    var (s1, n) := ReadCount(s);
    ReadChar(s1) == (Stream(body, true), COLON) && n == count
  }

  /** A message text is what passes: its region, declared after acceptable headers, checks out. */
  ghost predicate Checked(s: Stream, expected: int, headers: seq<seq<byte>>, rest: Stream, count: nat, body: seq<byte>,
                          unread: seq<byte>, text: seq<byte>, json: Json)
  {
    && HoldsHeaders(s, headers, rest) && DeclaresBody(rest, count, body)
    && 0 < count <= 65535 && count < |body| && body[count] == COMMA
    && LastChecksum(headers, expected) == Some(ToNat(Crc(body[..count])))
    && ParseStream(body, json) == (unread, Object(text))
  }

  lemma ItemBound(s: Stream)
    ensures OneItem(s).Some? ==> |OneItem(s).value.0| <= 65535
    ensures OneItem(s).Some? ==> |OneItem(s).value.1.unread| < |s.unread|
  {
    hide ReadCount, ReadChar, ReadBytes;
  }

  lemma HeadersUnfold(s: Stream, expected: int, json: Json)
    ensures OneItem(s) == None ==> ReadHeaders(s, expected, false, json).1 == Null
    ensures OneItem(s).Some? ==>
      var (text, next) := OneItem(s).value;
      ReadHeaders(s, expected, false, json) ==
        if text == [] then ReadHeaders(next, expected, true, json)
        else if AfterHeader(text, expected) == None then (next.unread, Null)
        else ReadHeaders(next, AfterHeader(text, expected).value, false, json)
  {
    hide ReadCount, ReadChar, ReadBytes, ReadBody, AfterHeader;
  }

  /** Soundness: whatever is delivered was declared, checked and followed by a comma. */
  lemma {:induction false} DeliveredIsChecked(s: Stream, expected: int, json: Json)
    returns (headers: seq<seq<byte>>, rest: Stream, count: nat, body: seq<byte>)
    requires ReadHeaders(s, expected, false, json).1.Object?
    ensures
      var (unread, message) := ReadHeaders(s, expected, false, json);
      Checked(s, expected, headers, rest, count, body, unread, message.text, json)
    decreases |s.unread|
  {
    hide Crc, ToNat, ParseStream, AfterHeader, ReadCount, ReadChar, ReadBytes;
    HeadersUnfold(s, expected, json);
    ItemBound(s);
    var (text, next) := OneItem(s).value;
    if text == [] {
      headers, rest := [], next;
      count, body := BodyIsChecked(next, expected, json);
    } else {
      hide OneItem;
      headers, rest, count, body := DeliveredIsChecked(next, AfterHeader(text, expected).value, json);
      headers := [text] + headers;
      assert headers[1..] == headers[1..];
    }
  }

  lemma BodyIsChecked(s: Stream, expected: int, json: Json) returns (count: nat, body: seq<byte>)
    requires ReadHeaders(s, expected, true, json).1.Object?
    ensures DeclaresBody(s, count, body)
    ensures 0 < count <= 65535 && count < |body| && body[count] == COMMA
    ensures expected == ToNat(Crc(body[..count]))
    ensures ReadHeaders(s, expected, true, json) == ParseStream(body, json)
  {
    hide Crc, ToNat, ParseStream;
    var (s1, n) := ReadCount(s);
    var (s2, colon) := ReadChar(s1);
    hide ReadCount, ReadChar;
    count, body := n, s2.unread;
  }

  /** Completeness: whatever is declared, checked and followed by a comma is delivered. */
  lemma {:induction false} CheckedIsDelivered(
    s: Stream, expected: int, headers: seq<seq<byte>>, rest: Stream, count: nat, body: seq<byte>,
    unread: seq<byte>, text: seq<byte>, json: Json)
    requires Checked(s, expected, headers, rest, count, body, unread, text, json)
    ensures ReadHeaders(s, expected, false, json) == (unread, Object(text))
    decreases |headers|
  {
    hide Crc, ToNat, ParseStream, AfterHeader, OneItem, ReadCount, ReadChar, ReadHeaders;
    HeadersUnfold(s, expected, json);
    ItemBound(s);
    if headers == [] {
      CheckedBody(rest, expected, count, body, json);
    } else {
      CheckedIsDelivered(OneItem(s).value.1, AfterHeader(headers[0], expected).value, headers[1..],
                         rest, count, body, unread, text, json);
    }
  }

  lemma CheckedBody(s: Stream, expected: int, count: nat, body: seq<byte>, json: Json)
    requires DeclaresBody(s, count, body)
    requires 0 < count <= 65535 && count < |body| && body[count] == COMMA
    requires expected == ToNat(Crc(body[..count]))
    ensures ReadHeaders(s, expected, true, json) == ParseStream(body, json)
  {
    hide Crc, ToNat, ParseStream, ReadCount, ReadChar;
  }

  // ---------- Progress ----------

  predicate IsSuffix(tail: seq<byte>, s: seq<byte>) {
    |tail| <= |s| && s[|s| - |tail|..] == tail
  }

  lemma {:induction false} SkipSpacesSuffix(s: seq<byte>)
    ensures IsSuffix(SkipSpaces(s), s)
  {
    if s != [] && IsSpace(s[0]) {
      SkipSpacesSuffix(s[1..]);
    }
  }

  lemma SuffixTransitive(a: seq<byte>, b: seq<byte>, c: seq<byte>)
    requires IsSuffix(a, b) && IsSuffix(b, c)
    ensures IsSuffix(a, c)
  {
  }

  lemma DropIsSuffix(s: seq<byte>, n: nat)
    requires n <= |s|
    ensures IsSuffix(s[n..], s)
  {
  }

  lemma AfterCountSuffix(start: seq<byte>)
    ensures
      var digits := AfterSign(start);
      IsSuffix(digits[DigitRun(digits)..], start)
  {
    var digits := AfterSign(start);
    assert IsSuffix(digits, start);
    DropIsSuffix(digits, DigitRun(digits));
    hide IsSuffix;
    SuffixTransitive(digits[DigitRun(digits)..], digits, start);
  }

  lemma ReadCountSuffix(s: Stream)
    ensures IsSuffix(ReadCount(s).0.unread, s.unread)
  {
    var start := SkipSpaces(s.unread);
    var digits := AfterSign(start);
    var rest := digits[DigitRun(digits)..];
    assert IsSuffix(s.unread, s.unread) && IsSuffix([], s.unread);
    hide IsSuffix, CountValue, AfterSign, DigitRun, SkipSpaces;
    SkipSpacesSuffix(s.unread);
    AfterCountSuffix(start);
    SuffixTransitive(rest, start, s.unread);
  }

  lemma ReadCharSuffix(s: Stream)
    ensures IsSuffix(ReadChar(s).0.unread, s.unread)
  {
    var start := SkipSpaces(s.unread);
    SkipSpacesSuffix(s.unread);
    if start != [] {
      SuffixTransitive(start[1..], start, s.unread);
    }
  }

  lemma ReadBytesSuffix(s: Stream, n: nat)
    ensures IsSuffix(ReadBytes(s, n).0.unread, s.unread)
  {
  }

  lemma ReadBodySuffix(s: Stream, count: nat, expected: int, json: Json)
    ensures IsSuffix(ReadBody(s, count, expected, json).0, s.unread)
  {
    hide Crc, ToNat;
  }

  /** Each extraction of one loop iteration leaves a suffix of what the iteration started with. */
  lemma IterationSuffix(s: Stream)
    ensures IsSuffix(Tokens(s).2.unread, s.unread) && IsSuffix(Tokens(s).6.unread, s.unread)
  {
    hide ReadCount, ReadChar, ReadBytes, IsSuffix;
    var (s1, count, s2, colon, s3, text, s4, comma) := Tokens(s);
    ReadCountSuffix(s);
    ReadCharSuffix(s1);
    SuffixTransitive(s2.unread, s1.unread, s.unread);
    ReadBytesSuffix(s2, count);
    SuffixTransitive(s3.unread, s2.unread, s.unread);
    ReadCharSuffix(s3);
    SuffixTransitive(s4.unread, s3.unread, s.unread);
  }

  lemma {:induction false} ReadHeadersSuffix(s: Stream, expected: int, end: bool, json: Json)
    ensures IsSuffix(ReadHeaders(s, expected, end, json).0, s.unread)
    decreases |s.unread|
  {
    hide ReadCount, ReadChar, ReadBytes, ReadBody, AfterHeader, IsSuffix;
    var (s1, count, s2, colon, s3, text, s4, comma) := Tokens(s);
    IterationSuffix(s);
    ReadBodySuffix(s2, count, expected, json);
    SuffixTransitive(ReadBody(s2, count, expected, json).0, s2.unread, s.unread);
    if s2.good && s4.good {
      ReadHeadersSuffix(s4, expected, true, json);
      SuffixTransitive(ReadHeaders(s4, expected, true, json).0, s4.unread, s.unread);
      var next := AfterHeader(text, expected);
      if next != None {
        ReadHeadersSuffix(s4, next.value, false, json);
        SuffixTransitive(ReadHeaders(s4, next.value, false, json).0, s4.unread, s.unread);
      }
    }
  }

  /**
    On any bytes whatever, a call drops at least the reported line and never anything before it
    comes back: what stays is a suffix of the bytes after the line.
  */
  lemma CallsMakeProgress(buffer: seq<byte>, length: nat, json: Json)
    requires length <= |buffer|
    ensures IsSuffix(ParseIncoming(buffer, length, json).0, buffer[length..])
  {
    var (unread, message) := ReadMessage(buffer, json);
    hide ReadHeaders, IsSuffix, Ignore;
    if buffer != [] && buffer[0] == OPEN_BRACE {
      ParseStreamSuffix(buffer, json);
    } else {
      ReadHeadersSuffix(Stream(buffer, buffer != []), -1, false, json);
    }
    IgnoreSuffix(unread, buffer, length);
  }

  lemma ParseStreamSuffix(buffer: seq<byte>, json: Json)
    ensures IsSuffix(ParseStream(buffer, json).0, buffer)
  {
  }

  lemma IgnoreSuffix(unread: seq<byte>, buffer: seq<byte>, length: nat)
    requires IsSuffix(unread, buffer) && length <= |buffer|
    ensures IsSuffix(Ignore(unread, length - (|buffer| - |unread|)), buffer[length..])
  {
  }

  // ---------- A declared count that leaves its line ----------

  /**
    The parser does not confine a declared count to the line: a header that declares more bytes
    than are buffered swallows every complete frame behind it.
  */
  lemma OverrunSwallowsFollowingFrames(count: nat, following: seq<byte>, json: Json)
    requires |following| + 2 < count <= 65535
    ensures
      var line := Declared(count) + [CR, LF];
      ParseIncoming(line + following, |line|, json) == ([], Null)
  {
    var line := Declared(count) + [CR, LF];
    var tail := [CR, LF] + following;
    assert line + following == Declared(count) + tail;
    DeclarationReads(count, tail);
    assert IsDigit(Decimal(count)[0]) && (line + following)[0] == Decimal(count)[0];
    hide Decimal, Declared, ReadCount;
    assert ReadBytes(Stream(tail, true), count) == (Stream([], false), tail);
  }
}
