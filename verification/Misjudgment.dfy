/**
  Behind every line that the header loop runs out of some frame is misjudged: dropped although its
  checksum is right, or delivered although it is wrong.
*/
module Misjudgment {
  import opened Bytes
  import opened Crc16
  import opened CrcDetection
  import opened InputStream
  import opened Framing
  import opened FramingLaws
  import opened EncapsulationLaws
  import opened ParserLaws
  import opened Confinement
  import opened ReceiveLoop

  const CLOSE_BRACE: byte := 125
  const LETTER_C: byte := 99

  function Spaces(n: nat): (s: seq<byte>)
    ensures |s| == n
  {
    seq(n, _ => SPACE)
  }

  /** An empty object with n spaces in it. */
  function Blank(n: nat): (text: seq<byte>)
    ensures |text| == n + 2 && text[0] == OPEN_BRACE
  {
    [OPEN_BRACE] + Spaces(n) + [CLOSE_BRACE]
  }

  /** The reader accepts empty objects of every length, and stops at once where a `c` stands for a value. */
  ghost predicate ReadsBlankObjects(json: Json) {
    && (forall n: nat :: ReadsObject(json, Blank(n)))
    && (forall text :: text != [] && text[0] == LETTER_C ==> json(text) == JsonResult(0, false))
  }

  /** The bytes of the frame of `sent` whose body arrives as `received`. */
  function FrameBytes(sent: seq<byte>, received: seq<byte>): (frame: seq<byte>) {
    LineBytes(Frame(sent, received))
  }

  /** A frame that may come behind a line. */
  ghost predicate IsFramable(received: seq<byte>, json: Json) {
    0 < |received| <= 65535 && !HasCrLf(received) && ReadsObject(json, received)
  }

  /** Two calls on the line and a frame: what the line says, then the frame judged by its own checksum. */
  ghost predicate JudgesFrame(line: seq<byte>, sent: seq<byte>, received: seq<byte>, json: Json) {
    var end := Receiver([], Texts(MessageOf(line, json)) + (if Crc(received) == Crc(sent) then [received] else []));
    Execution(Receiver(line + FrameBytes(sent, received), []), [Handle, Handle], end, json)
  }

  // ---------- The layout of a frame ----------

  lemma DecimalLiterals()
    ensures Decimal(0) == [48] && Decimal(15) == [49, 53] && Decimal(2) == [50]
  {
    assert Decimal(1) == [49];
  }

  /** All of a frame that its body has no part in. */
  function Head(crc: Register): (head: seq<byte>) {
    HeaderItem(ChecksumHeader(crc)) + HeaderItem([])
  }

  lemma FrameLayout(sent: seq<byte>, received: seq<byte>)
    ensures FrameBytes(sent, received) == Head(Crc(sent)) + BodyBytes(received)
  {
    hide Crc, ChecksumHeader, HeaderItem, Declared;
    FrameParts(sent, received);
  }

  lemma RegroupFour(a: seq<byte>, b: seq<byte>, c: seq<byte>, d: seq<byte>)
    ensures a + b + c + d == a + (b + (c + d))
  {
  }

  lemma BodyLayout(received: seq<byte>)
    ensures BodyBytes(received) == Decimal(|received|) + ([COLON] + (received + TRAILING_PART))
  {
    hide Decimal;
    RegroupFour(Decimal(|received|), [COLON], received, TRAILING_PART);
  }

  /** Where the body of a frame starts. */
  function BodyAt(received: seq<byte>): (at: nat) {
    23 + |Decimal(|received|)|
  }

  lemma Slices(s: seq<byte>, at: nat, a: seq<byte>, b: seq<byte>, c: byte, r: seq<byte>, t: seq<byte>)
    requires s == a + (b + ([c] + (r + t))) && at == |a| + |b| + 1
    ensures |s| == at + |r| + |t|
    ensures s[at..] == r + t
    ensures s[at + |r|..] == t
    ensures s[..at - 1] == a + b && s[at - 1] == c
  {
  }

  lemma Halves(a: seq<byte>, b: seq<byte>)
    ensures (a + b)[..|a|] == a && (a + b)[|a|..] == b
  {
  }

  lemma HeadInFrame(sent: seq<byte>, received: seq<byte>)
    ensures
      var frame := FrameBytes(sent, received);
      |frame| >= 25 && frame[..22] == Head(Crc(sent)) && frame[22..] == BodyBytes(received)
  {
    BodyLength(received);
    hide Crc, FrameBytes, Head, BodyBytes, ChecksumHeader;
    FrameLayout(sent, received);
    HeadLayout(Crc(sent));
    Halves(Head(Crc(sent)), BodyBytes(received));
  }

  lemma BodyInFrame(sent: seq<byte>, received: seq<byte>)
    ensures |FrameBytes(sent, received)| == BodyAt(received) + |received| + 3
    ensures FrameBytes(sent, received)[BodyAt(received)..] == received + TRAILING_PART
    ensures FrameBytes(sent, received)[BodyAt(received) + |received|..] == TRAILING_PART
    ensures FrameBytes(sent, received)[..BodyAt(received) - 1] == Head(Crc(sent)) + Decimal(|received|)
    ensures FrameBytes(sent, received)[BodyAt(received) - 1] == COLON
  {
    var (head, digits) := (Head(Crc(sent)), Decimal(|received|));
    HeadLayout(Crc(sent));
    assert BodyAt(received) == |head| + |digits| + 1;
    FrameIsConcatenation(sent, received);
    hide *;
    Slices(FrameBytes(sent, received), BodyAt(received), head, digits, COLON, received, TRAILING_PART);
  }

  lemma FrameIsConcatenation(sent: seq<byte>, received: seq<byte>)
    ensures FrameBytes(sent, received)
         == Head(Crc(sent)) + (Decimal(|received|) + ([COLON] + (received + TRAILING_PART)))
  {
    hide Crc, Decimal, FrameBytes, Head, BodyBytes;
    FrameLayout(sent, received);
    BodyLayout(received);
  }

  lemma HeadLayout(crc: Register)
    ensures Head(crc) == [49, 53, COLON] + ChecksumHeader(crc) + [COMMA, 48, COLON, COMMA]
    ensures |Head(crc)| == 22
  {
    hide ChecksumHeader, Decimal;
    ChecksumHeaderLength(crc);
    DecimalLiterals();
  }

  /** The head's characters: nothing in the checksum header can end a declaration or start anything else. */
  lemma HeadCharacters(crc: Register)
    ensures
      var head := Head(crc);
      && |head| == 22
      && head[0] == 49 && head[1] == 53 && head[2] == COLON && head[3] == LETTER_C && head[8] == 115
      && head[18] == COMMA && head[19] == 48 && head[20] == COLON && head[21] == COMMA
      && (forall i :: 3 <= i < 18 ==> IsPlain(head[i]))
  {
    HeadLayout(crc);
    hide ToNat, Head;
    var hex := HexText(crc);
    assert forall i :: 0 <= i < 4 ==> IsHexDigit(hex[i]);
    assert forall i :: 0 <= i < 4 ==> IsPlain(hex[i]);
  }

  /** Neither space, sign, brace nor any delimiter. */
  predicate IsPlain(c: byte) {
    33 <= c && c != PLUS && c != MINUS && c != COLON && c != COMMA && c != OPEN_BRACE
  }

  // ---------- Calls on what is left of a frame ----------

  /** No number, or one that no colon follows. */
  lemma NoDeclarationIsNull(s: seq<byte>, json: Json)
    requires s != [] && !IsSpace(s[0]) && s[0] != PLUS && s[0] != MINUS && s[0] != OPEN_BRACE
    requires
      var k := DigitRun(s);
      k == 0 || (k < |s| && s[k] != COLON && !IsSpace(s[k]))
    ensures ReadMessage(s, json).1 == Null
  {
    var k := DigitRun(s);
    assert SkipSpaces(s) == s && AfterSign(s) == s;
    CountThenNoColon(s, k);
    LoopUnfold(s, -1, false, json);
    hide ReadHeaders, Tokens, DigitRun;
  }

  lemma CountThenNoColon(s: seq<byte>, k: nat)
    requires s != [] && k == DigitRun(s) && SkipSpaces(s) == s && AfterSign(s) == s && s[0] != MINUS
    requires k == 0 || (k < |s| && s[k] != COLON && !IsSpace(s[k]))
    ensures !Tokens(Stream(s, true)).2.good || Tokens(Stream(s, true)).3 != COLON
  {
    if k > 0 {
      assert s[k..][0] == s[k] && SkipSpaces(s[k..]) == s[k..];
    } else {
      assert s[..0] == [];
      NoDigitsIsNoCount(false);
    }
    hide DigitRun, CountValue, ReadBytes, SkipSpaces, AfterSign;
  }

  lemma NoDigitsIsNoCount(negative: bool)
    ensures !CountValue([], negative).0
  {
  }

  /** From most places in its head on, a frame declares nothing. */
  lemma HeadTailIsNull(frame: seq<byte>, crc: Register, j: nat, json: Json)
    requires Head(crc) <= frame && 2 <= j <= 21 && j != 19
    ensures j < |frame| && ReadMessage(frame[j..], json).1 == Null
  {
    HeadCharacters(crc);
    var head := Head(crc);
    assert forall i :: 0 <= i < 22 ==> frame[i] == head[i];
    hide ReadMessage, Head;
    var s := frame[j..];
    var k := DigitRun(s);
    if 3 <= j <= 18 && k > 0 {
      assert s[18 - j] == COMMA && j + k <= 18;
      assert s[k] == frame[j + k];
    }
    NoDeclarationIsNull(s, json);
  }

  lemma FirstHeadTailIsNull(frame: seq<byte>, crc: Register, json: Json)
    requires Head(crc) <= frame
    ensures 3 <= |frame| && ReadMessage(frame[1..], json).1 == Null
  {
    HeadCharacters(crc);
    hide Head, ReadMessage;
    var head := Head(crc);
    assert frame[1] == head[1] && frame[2] == head[2] && frame[8] == head[8];
    FiveIsDeclared(frame[3..], json);
    assert frame[1..] == [53, COLON] + frame[3..];
  }

  lemma FiveIsDeclared(rest: seq<byte>, json: Json)
    requires |rest| > 5 && rest[5] == 115
    ensures ReadMessage([53, COLON] + rest, json).1 == Null
  {
    assert Decimal(5) == [53];
    assert [53, COLON] + rest == Declared(5) + rest;
    hide Decimal, Declared;
    DeclarationReads(5, rest);
    assert rest[5..][0] == 115;
    hide ReadCount, AfterHeader;
  }

  lemma BodyIsNoHeader(body: seq<byte>, expected: int, json: Json)
    requires EQUALS !in body && 0 < |body| <= 65535
    ensures ReadHeaders(Stream(BodyBytes(body), true), expected, false, json) == ([CR, LF], Null)
    ensures BodyBytes(body) != [] && BodyBytes(body)[0] != OPEN_BRACE
  {
    assert IsDigit(Decimal(|body|)[0]);
    assert BodyBytes(body)[0] == Decimal(|body|)[0];
    assert AfterHeader(body, expected) == None;
    hide Decimal, AfterHeader, ReadHeaders;
    assert BodyBytes(body) == HeaderItem(body) + [CR, LF];
    HeaderItemReads(body, [CR, LF], expected, json);
  }

  lemma EmptyLineIsNull(json: Json)
    ensures ReadMessage([CR, LF], json).1 == Null
  {
    assert [CR, LF][1..] == [LF] && [LF][1..] == [];
    assert SkipSpaces([CR, LF]) == SkipSpaces([LF]) == [];
  }

  lemma TrailingPartIsNull(json: Json)
    ensures ReadMessage(TRAILING_PART, json).1 == Null
  {
    assert DigitRun(TRAILING_PART) == 0;
    hide DigitRun, ReadMessage;
    NoDeclarationIsNull(TRAILING_PART, json);
  }

  lemma BareBodyIsObject(body: seq<byte>, json: Json)
    requires body != [] && body[0] == OPEN_BRACE && ReadsObject(json, body)
    ensures ReadMessage(body + TRAILING_PART, json).1 == Object(body)
  {
    hide ReadHeaders;
    assert json(body + TRAILING_PART) == JsonResult(|body|, true);
    assert (body + TRAILING_PART)[..|body|] == body && (body + TRAILING_PART)[0] == body[0];
  }

  // ---------- Two calls ----------

  lemma SuffixIsLine(s: seq<byte>, j: nat)
    requires IsLine(s) && j + 2 <= |s|
    ensures IsLine(s[j..])
  {
    var t := s[j..];
    var front := t[..|t| - 1];
    forall i: nat | i < |front| ensures !CrLfAt(front, i) {
      assert !CrLfAt(s[..|s| - 1], j + i);
    }
  }

  /** What two calls deliver when the first one stops at byte j of the frame. */
  lemma TwoCalls(line: seq<byte>, sent: seq<byte>, received: seq<byte>, j: nat, json: Json)
    requires IsLine(line) && !HasCrLf(received) && j + 2 <= |FrameBytes(sent, received)|
    requires ReadMessage(line + FrameBytes(sent, received), json).0 == FrameBytes(sent, received)[j..]
    requires MessageOf(line, json) == Null
    requires
      var frame := FrameBytes(sent, received);
      Texts(ReadMessage(line + frame, json).1) + Texts(ReadMessage(frame[j..], json).1)
        != if Crc(received) == Crc(sent) then [received] else []
    ensures !JudgesFrame(line, sent, received, json)
  {
    hide Crc, IsLine, HasCrLf, LineLength, FrameBytes, ReadMessage, MessageOf, Texts;
    var frame := FrameBytes(sent, received);
    assert IsLine(frame) by { FrameBytesAreLine(sent, received); }
    LineAtFront(line, frame);
    var r0 := Receiver(line + frame, []);
    var r1 := Step(r0, Handle, json);
    assert r1 == Receiver(frame[j..], [] + Texts(ReadMessage(line + frame, json).1));
    SuffixIsLine(frame, j);
    LineAtFront(frame[j..], []);
    assert frame[j..] + [] == frame[j..];
    var r2 := Step(r1, Handle, json);
    assert r2.delivered == r1.delivered + Texts(ReadMessage(frame[j..], json).1);
    assert [Handle, Handle][1..] == [Handle] && |[Handle][1..]| == 0;
    var end := Receiver([], Texts(MessageOf(line, json)) + (if Crc(received) == Crc(sent) then [received] else []));
    assert Texts(Null) == [] by { NoText(); }
    var (first, second) := (Texts(ReadMessage(line + frame, json).1), Texts(ReadMessage(frame[j..], json).1));
    assert r2.delivered == first + second && [] + first == first;
    assert end.delivered == if Crc(received) == Crc(sent) then [received] else [];
    assert Execution(r0, [Handle, Handle], end, json) ==> Execution(r1, [Handle], end, json);
    assert Execution(r1, [Handle], end, json) ==> Execution(r2, [], end, json);
  }

  lemma NoText()
    ensures Texts(Null) == []
  {
  }

  lemma FrameBytesAreLine(sent: seq<byte>, received: seq<byte>)
    requires !HasCrLf(received)
    ensures IsLine(FrameBytes(sent, received))
  {
    hide LineBytes, Frame, IsLine, HasCrLf;
    FrameIsLine(sent, received);
  }

  // ---------- Frames of empty objects ----------

  lemma BlankIsFramable(n: nat, json: Json)
    requires ReadsBlankObjects(json) && n + 2 <= 65535
    ensures IsFramable(Blank(n), json) && EQUALS !in Blank(n)
  {
  }

  lemma BlankParity()
    ensures OddOnes(Bits(Blank(0))) != OddOnes(Bits(Blank(1)))
  {
    var (open, space, close) := (Bits([OPEN_BRACE]), Bits([SPACE]), Bits([CLOSE_BRACE]));
    assert Blank(0) == [OPEN_BRACE] + [CLOSE_BRACE] && Blank(1) == [OPEN_BRACE] + [SPACE] + [CLOSE_BRACE];
    OneSpaceIsOdd();
    hide Bits, OddOnes;
    BitsAppend([OPEN_BRACE], [CLOSE_BRACE]);
    BitsAppend([OPEN_BRACE] + [SPACE], [CLOSE_BRACE]);
    BitsAppend([OPEN_BRACE], [SPACE]);
    OddOnesAppend(open, close);
    OddOnesAppend(open + space, close);
    OddOnesAppend(open, space);
  }

  lemma {:induction false} NoOnes(n: nat)
    ensures !OddOnes(seq(n, _ => false))
  {
    if n > 0 {
      assert seq(n, _ => false)[1..] == seq(n - 1, _ => false);
      NoOnes(n - 1);
    }
  }

  lemma SpaceBits()
    ensures ByteBits(SPACE) == seq(2, _ => false) + ([true] + seq(5, _ => false))
  {
  }

  lemma OneSpaceIsOdd()
    ensures OddOnes(Bits([SPACE]))
  {
    assert Bits([SPACE]) == ByteBits(SPACE) by { hide ByteBits; }
    assert OddOnes([true]) by { assert |[true][1..]| == 0; }
    SpaceBits();
    NoOnes(2);
    NoOnes(5);
    hide OddOnes, ByteBits, Bits;
    OddOnesAppend(seq(2, _ => false), [true] + seq(5, _ => false));
    OddOnesAppend([true], seq(5, _ => false));
  }

  lemma BlanksDiffer()
    ensures Crc(Blank(0)) != Crc(Blank(1))
  {
    hide Bits, Blank, OddOnes, Crc;
    BlankParity();
    CrcParity(Blank(0));
    CrcParity(Blank(1));
  }

  /** A frame misjudged behind the line. */
  ghost predicate Misjudges(line: seq<byte>, json: Json) {
    exists sent, received :: IsFramable(received, json) && !JudgesFrame(line, sent, received, json)
  }

  /** A line that the loop runs out of says nothing on its own. */
  lemma RanOutSaysNothing(line: seq<byte>, json: Json)
    requires IsLine(line) && LineStop(line, json).RanOut?
    ensures MessageOf(line, json) == Null
  {
    hide IsLine, LineStop, AfterHeader, ReadBody;
    LineEnds(line);
    assert line + [] == line;
    assert SkipSpaces([]) == [];
    LineResumes(line, [], json);
  }

  /** The object is delivered by the first or by the second call, whatever checksum came with it. */
  lemma DeliveredUnchecked(line: seq<byte>, json: Json)
    requires ReadsBlankObjects(json) && IsLine(line) && LineStop(line, json).RanOut?
    requires
      var (frame, body) := (FrameBytes(Blank(0), Blank(1)), Blank(1));
      ReadMessage(line + frame, json) == (TRAILING_PART, Object(body))
      || ReadMessage(line + frame, json) == (body + TRAILING_PART, Null)
    ensures Misjudges(line, json)
  {
    var (frame, body) := (FrameBytes(Blank(0), Blank(1)), Blank(1));
    BlankIsFramable(1, json);
    BlanksDiffer();
    RanOutSaysNothing(line, json);
    TrailingPartIsNull(json);
    BareBodyIsObject(body, json);
    hide LineStop, ReadMessage, JudgesFrame, ReadsBlankObjects, IsLine, Blank, FrameBytes, MessageOf, Crc;
    hide HasCrLf, ReadsObject, BodyAt;
    BodyInFrame(Blank(0), body);
    if ReadMessage(line + frame, json).1 == Null {
      TwoCalls(line, Blank(0), body, BodyAt(body), json);
    } else {
      TwoCalls(line, Blank(0), body, BodyAt(body) + |body|, json);
    }
  }

  /** The frame is dropped: neither call finds an object. */
  lemma DroppedTwice(line: seq<byte>, n: nat, j: nat, json: Json)
    requires ReadsBlankObjects(json) && IsLine(line) && LineStop(line, json).RanOut? && n + 2 <= 65535
    requires j + 2 <= |FrameBytes(Blank(n), Blank(n))|
    requires ReadMessage(line + FrameBytes(Blank(n), Blank(n)), json) == (FrameBytes(Blank(n), Blank(n))[j..], Null)
    requires ReadMessage(FrameBytes(Blank(n), Blank(n))[j..], json).1 == Null
    ensures Misjudges(line, json)
  {
    BlankIsFramable(n, json);
    RanOutSaysNothing(line, json);
    hide LineStop, ReadMessage, JudgesFrame, ReadsBlankObjects, IsLine, Blank, FrameBytes, MessageOf, Crc, HasCrLf;
    TwoCalls(line, Blank(n), Blank(n), j, json);
  }

  // ---------- A frame behind each kind of gap ----------

  /** What the gap in a header text makes of a frame that is cut at byte d. */
  lemma HeaderCut(text: seq<byte>, d: nat, expected: int, frame: seq<byte>, json: Json)
    requires d < |frame| && !IsSpace(frame[d])
    ensures
      var more := text + frame[..d];
      Resumed(RanOut(InHeader(text, d, expected)), frame, json) ==
        if frame[d] != COMMA then (frame[d + 1..], Null)
        else if more == [] then ReadHeaders(Stream(frame[d + 1..], true), expected, true, json)
        else if AfterHeader(more, expected) == None then (frame[d + 1..], Null)
        else ReadHeaders(Stream(frame[d + 1..], true), AfterHeader(more, expected).value, false, json)
  {
    hide ReadHeaders, AfterHeader;
    assert frame[d..][0] == frame[d] && frame[d..][1..] == frame[d + 1..];
    assert SkipSpaces(frame[d..]) == frame[d..];
  }

  /** A call on the line and a frame behind it. */
  lemma FrameResumes(line: seq<byte>, sent: seq<byte>, received: seq<byte>, json: Json)
    requires IsLine(line) && LineStop(line, json).RanOut?
    ensures ReadMessage(line + FrameBytes(sent, received), json)
         == Resumed(LineStop(line, json), FrameBytes(sent, received), json)
    ensures ReadChar(Stream(FrameBytes(sent, received), true)).0 == Stream(FrameBytes(sent, received)[1..], true)
    ensures LineStop(line, json).gap.InHeader? ==> LineStop(line, json).gap.missing <= 65535
  {
    var frame := FrameBytes(sent, received);
    HeadInFrame(sent, received);
    HeadCharacters(Crc(sent));
    hide IsLine, LineStop, Resumed, ReadMessage, FrameBytes, Head, Crc, BodyBytes, Decimal;
    assert frame[0] == frame[..22][0] == 49;
    LineResumes(line, frame, json);
  }

  lemma BehindCount(line: seq<byte>, json: Json)
    requires ReadsBlankObjects(json) && IsLine(line)
    requires LineStop(line, json).RanOut? && LineStop(line, json).gap.AtCount?
    ensures Misjudges(line, json)
  {
    hide IsLine, LineStop, ReadMessage, Misjudges, ReadsBlankObjects, Blank;
    hide LineBytes, Frame, ReadsObject, HasCrLf, Crc;
    hide ReadHeaders, ReadChar;
    LineEnds(line);
    var gap := LineStop(line, json).gap;
    if gap.endOfHeaders {
      BehindCountOfBody(line, json);
    } else {
      FrameResumes(line, Blank(0), Blank(1), json);
      BlankIsFramable(1, json);
      BlanksDiffer();
      var frame := FrameBytes(Blank(0), Blank(1));
      assert frame + [] == frame;
      FrameReadsExactly(Blank(0), Blank(1), [], gap.expected, json);
      assert TRAILING_PART + [] == TRAILING_PART;
      DeliveredUnchecked(line, json);
    }
  }

  lemma BehindCountOfBody(line: seq<byte>, json: Json)
    requires ReadsBlankObjects(json) && IsLine(line)
    requires LineStop(line, json).RanOut? && LineStop(line, json).gap.AtCount? && LineStop(line, json).gap.endOfHeaders
    ensures Misjudges(line, json)
  {
    hide IsLine, LineStop, ReadMessage, Misjudges, FrameBytes, Head;
    hide Crc, BodyBytes, Blank, ReadHeaders, ReadsBlankObjects;
    var (frame, crc) := (FrameBytes(Blank(0), Blank(0)), Crc(Blank(0)));
    FrameResumes(line, Blank(0), Blank(0), json);
    HeadInFrame(Blank(0), Blank(0));
    HeadTailIsNull(frame, crc, 3, json);
    LineEnds(line);
    FifteenIsDeclared(frame, crc, LineStop(line, json).gap.expected, json);
    DroppedTwice(line, 0, 3, json);
  }

  /** Where a body is due, the length of the checksum header is taken for its length. */
  lemma FifteenIsDeclared(frame: seq<byte>, crc: Register, expected: int, json: Json)
    requires ReadsBlankObjects(json) && Head(crc) <= frame
    ensures |frame| >= 22 && ReadHeaders(Stream(frame, true), expected, true, json) == (frame[3..], Null)
  {
    HeadCharacters(crc);
    DecimalLiterals();
    var rest := frame[3..];
    assert rest[0] == Head(crc)[3] == LETTER_C;
    assert json(rest) == JsonResult(0, false);
    assert frame[0] == Head(crc)[0] && frame[1] == Head(crc)[1] && frame[2] == Head(crc)[2];
    assert frame == Declared(15) + rest;
    hide Decimal, Declared, ReadCount, ReadChar, Head, Crc, ToNat;
    DeclarationReads(15, rest);
    assert rest[0..] == rest;
  }

  lemma BehindColon(line: seq<byte>, json: Json)
    requires ReadsBlankObjects(json) && IsLine(line) && LineStop(line, json) == RanOut(AtColon)
    ensures Misjudges(line, json)
  {
    hide IsLine, LineStop, ReadMessage, Misjudges, FrameBytes, Head, Crc, BodyBytes, Blank, ReadChar, ReadsBlankObjects;
    var (frame, crc) := (FrameBytes(Blank(0), Blank(0)), Crc(Blank(0)));
    FrameResumes(line, Blank(0), Blank(0), json);
    HeadInFrame(Blank(0), Blank(0));
    FirstHeadTailIsNull(frame, crc, json);
    DroppedTwice(line, 0, 1, json);
  }

  // ---------- A frame behind an unfinished header text ----------

  /** In most places of the head the frame is cut in two pieces that both mean nothing. */
  lemma BehindHeaderInHead(line: seq<byte>, json: Json)
    requires ReadsBlankObjects(json) && IsLine(line)
    requires LineStop(line, json).RanOut? && LineStop(line, json).gap.InHeader?
    requires LineStop(line, json).gap.missing < 21 && LineStop(line, json).gap.missing != 18
    ensures Misjudges(line, json)
  {
    hide IsLine, LineStop, ReadMessage, Misjudges, FrameBytes, Head;
    hide Crc, BodyBytes, Blank, ReadHeaders, ReadsBlankObjects;
    hide AfterHeader, Resumed;
    LineEnds(line);
    var (frame, crc, gap) := (FrameBytes(Blank(0), Blank(0)), Crc(Blank(0)), LineStop(line, json).gap);
    var d := gap.missing;
    FrameResumes(line, Blank(0), Blank(0), json);
    HeadInFrame(Blank(0), Blank(0));
    HeadCharacters(crc);
    assert frame[d] == frame[..22][d];
    HeaderCut(gap.text, d, gap.expected, frame, json);
    if d == 0 {
      FirstHeadTailIsNull(frame, crc, json);
    } else {
      HeadTailIsNull(frame, crc, d + 1, json);
    }
    DroppedTwice(line, 0, d + 1, json);
  }

  lemma AfterEmptyHeader(body: seq<byte>, expected: int, json: Json)
    requires IsFramable(body, json)
    ensures ReadHeaders(Stream(HeaderItem([]) + BodyBytes(body), true), expected, false, json) ==
      if expected == ToNat(Crc(body)) then (TRAILING_PART, Object(body)) else (body + TRAILING_PART, Null)
  {
    hide HeaderItem, BodyBytes, ReadHeaders, ReadsObject, HasCrLf, Crc, ToNat;
    assert BodyBytes(body) + [] == BodyBytes(body) && TRAILING_PART + [] == TRAILING_PART;
    HeaderItemReads([], BodyBytes(body), expected, json);
    BodyReads(body, [], expected, json);
  }

  lemma FrameAtSecondHeader(sent: seq<byte>, received: seq<byte>)
    ensures |FrameBytes(sent, received)| >= 22 && FrameBytes(sent, received)[18] == COMMA
    ensures FrameBytes(sent, received)[..18] == Head(Crc(sent))[..18]
    ensures FrameBytes(sent, received)[19..] == HeaderItem([]) + BodyBytes(received)
    ensures HeaderItem([]) + BodyBytes(received) != [] && (HeaderItem([]) + BodyBytes(received))[0] == 48
  {
    HeadInFrame(sent, received);
    HeadCharacters(Crc(sent));
    HeadLayout(Crc(sent));
    DecimalLiterals();
    ChecksumHeaderLength(Crc(sent));
    assert HeaderItem([]) == [48, COLON, COMMA];
    hide Crc, FrameBytes, BodyBytes, ChecksumHeader, HeaderItem;
    var (frame, head) := (FrameBytes(sent, received), Head(Crc(sent)));
    hide Head;
    assert frame == head + BodyBytes(received) by { assert frame == frame[..22] + frame[22..]; }
    assert head[19..] == [48, COLON, COMMA];
    assert frame[..18] == head[..18] && frame[19..] == head[19..] + BodyBytes(received);
  }

  /** The first header's text ends where the line's does: its comma makes the line's text a header. */
  lemma BehindHeaderAtComma(line: seq<byte>, json: Json)
    requires ReadsBlankObjects(json) && IsLine(line)
    requires LineStop(line, json).RanOut? && LineStop(line, json).gap.InHeader?
    requires LineStop(line, json).gap.missing == 18
    ensures Misjudges(line, json)
  {
    LineEnds(line);
    var gap := LineStop(line, json).gap;
    var header := gap.text + Head(Crc(Blank(0)))[..18];
    var received := if AfterHeader(header, gap.expected) == None then Blank(0) else Blank(1);
    var frame := FrameBytes(Blank(0), received);
    hide IsLine, LineStop, ReadMessage, Misjudges, FrameBytes, Head;
    hide Crc, BodyBytes, Blank, ReadHeaders, ReadsBlankObjects;
    hide AfterHeader, Resumed, HeaderItem, IsFramable;
    BlankIsFramable(0, json);
    BlankIsFramable(1, json);
    FrameResumes(line, Blank(0), received, json);
    FrameAtSecondHeader(Blank(0), received);
    HeaderCut(gap.text, 18, gap.expected, frame, json);
    assert gap.text + frame[..18] != [];
    if received == Blank(0) {
      AfterEmptyHeader(received, -1, json);
      SecondHeaderIsNull(received, json);
      DroppedTwice(line, 0, 19, json);
    } else {
      AfterEmptyHeader(received, AfterHeader(gap.text + frame[..18], gap.expected).value, json);
      DeliveredUnchecked(line, json);
    }
  }

  lemma SecondHeaderIsNull(body: seq<byte>, json: Json)
    requires IsFramable(body, json)
    ensures ReadMessage(HeaderItem([]) + BodyBytes(body), json).1 == Null
  {
    var s := HeaderItem([]) + BodyBytes(body);
    DecimalLiterals();
    assert s[0] == 48;
    hide HeaderItem, BodyBytes, ReadHeaders, Crc, ToNat, IsFramable;
    AfterEmptyHeader(body, -1, json);
  }

  /** The empty header ends where the line's text does: the body is taken for one more header. */
  lemma BehindHeaderAtBody(line: seq<byte>, json: Json)
    requires ReadsBlankObjects(json) && IsLine(line)
    requires LineStop(line, json).RanOut? && LineStop(line, json).gap.InHeader?
    requires LineStop(line, json).gap.missing == 21
    ensures Misjudges(line, json)
  {
    hide IsLine, LineStop, ReadMessage, Misjudges, FrameBytes, Head, Crc, BodyBytes, ReadHeaders, ReadsBlankObjects;
    hide AfterHeader, Resumed;
    LineEnds(line);
    var body := Blank(0);
    var (frame, gap) := (FrameBytes(body, body), LineStop(line, json).gap);
    BlankIsFramable(0, json);
    hide Blank, IsFramable;
    FrameResumes(line, body, body, json);
    HeadInFrame(body, body);
    HeadCharacters(Crc(body));
    assert frame[21] == frame[..22][21] == COMMA;
    HeaderCut(gap.text, 21, gap.expected, frame, json);
    BodyInFrame(body, body);
    if AfterHeader(gap.text + frame[..21], gap.expected) == None {
      BodyTailIsNull(body, json);
      DroppedTwice(line, 0, 22, json);
    } else {
      BodyIsNoHeader(body, AfterHeader(gap.text + frame[..21], gap.expected).value, json);
      EmptyLineIsNull(json);
      LastTwo(frame, body);
      DroppedTwice(line, 0, |frame| - 2, json);
    }
  }

  lemma BodyTailIsNull(body: seq<byte>, json: Json)
    requires EQUALS !in body && 0 < |body| <= 65535
    ensures ReadMessage(BodyBytes(body), json).1 == Null
  {
    hide ReadHeaders, BodyBytes;
    BodyIsNoHeader(body, -1, json);
  }

  lemma LastTwo(frame: seq<byte>, body: seq<byte>)
    requires |frame| >= 3 && frame[|frame| - 3..] == TRAILING_PART
    ensures frame[|frame| - 2..] == [CR, LF]
  {
    assert frame[|frame| - 2..] == frame[|frame| - 3..][1..];
  }

  lemma OneDigitMore(n: nat)
    ensures |Decimal(n)| == if n < 10 then 1 else 1 + |Decimal(n / 10)|
  {
  }

  lemma DigitsOf(n: nat)
    ensures Decimal(2) == [50] && Decimal(10) == [49, 48]
    ensures n < 100 ==> |Decimal(n)| <= 2
    ensures n < 100000 ==> |Decimal(n)| <= 5
  {
    assert Decimal(1) == [49] && Decimal(0) == [48];
    hide Decimal;
    OneDigitMore(n);
    OneDigitMore(n / 10);
    OneDigitMore(n / 10 / 10);
    OneDigitMore(n / 10 / 10 / 10);
    OneDigitMore(n / 10 / 10 / 10 / 10);
  }

  /** What stands before and after the last digit of a declared length. */
  lemma AroundLastDigit(body: seq<byte>, json: Json)
    requires 0 < |body|
    ensures
      var (frame, at) := (FrameBytes(body, body), BodyAt(body));
      && at + |body| + 3 == |frame| && at >= 24 && IsDigit(frame[at - 2])
      && ReadMessage(frame[at - 1..], json).1 == Null
  {
    var (frame, at, digits) := (FrameBytes(body, body), BodyAt(body), Decimal(|body|));
    HeadLayout(Crc(body));
    BodyInFrame(body, body);
    assert at == 23 + |digits| && IsDigit(digits[|digits| - 1]);
    hide Head, Crc, FrameBytes, BodyAt, Decimal, ReadMessage;
    assert frame[at - 2] == frame[..at - 1][at - 2] == digits[|digits| - 1];
    assert frame[at - 1..][0] == COLON && DigitRun(frame[at - 1..]) == 0;
    NoDeclarationIsNull(frame[at - 1..], json);
  }

  /** The line's text ends with the second digit from the right: the last one is no comma. */
  lemma BehindHeaderAtDigit(line: seq<byte>, n: nat, json: Json)
    requires ReadsBlankObjects(json) && IsLine(line)
    requires LineStop(line, json).RanOut? && LineStop(line, json).gap.InHeader?
    requires n + 2 <= 65535 && LineStop(line, json).gap.missing == BodyAt(Blank(n)) - 2
    ensures Misjudges(line, json)
  {
    hide IsLine, LineStop, ReadMessage, Misjudges, FrameBytes, Crc, ReadHeaders, ReadsBlankObjects, BodyAt;
    hide AfterHeader, Resumed, Blank, ReadChar;
    LineEnds(line);
    var body := Blank(n);
    var (frame, gap, at) := (FrameBytes(body, body), LineStop(line, json).gap, BodyAt(body));
    FrameResumes(line, body, body, json);
    AroundLastDigit(body, json);
    HeaderCut(gap.text, at - 2, gap.expected, frame, json);
    DroppedTwice(line, n, at - 1, json);
  }

  lemma ClosingBraceIsNull(s: seq<byte>, json: Json)
    requires s != [] && s[0] == CLOSE_BRACE
    ensures ReadMessage(s, json).1 == Null
  {
    assert DigitRun(s) == 0;
    hide ReadMessage, DigitRun;
    NoDeclarationIsNull(s, json);
  }

  lemma PairAt(s: seq<byte>, at: nat, p: byte, q: byte, rest: seq<byte>)
    requires at <= |s| && s[at..] == [p, q] + rest
    ensures |s| == at + 2 + |rest| && s[at] == p && s[at + 1] == q && s[at + 1..] != [] && s[at + 1..][0] == q
  {
    assert s[at] == s[at..][0] && s[at + 1] == s[at..][1];
  }

  lemma BlankZero()
    ensures Blank(0) == [OPEN_BRACE, CLOSE_BRACE] && BodyAt(Blank(0)) == 24
  {
    DigitsOf(0);
  }

  lemma BlankFrame(json: Json)
    ensures
      var frame := FrameBytes(Blank(0), Blank(0));
      && |frame| == 29 && frame[24] == OPEN_BRACE && frame[25] == CLOSE_BRACE
      && ReadMessage(frame[25..], json).1 == Null && ReadMessage(frame[26..], json).1 == Null
  {
    hide *;
    BlankZero();
    BodyInFrame(Blank(0), Blank(0));
    var frame := FrameBytes(Blank(0), Blank(0));
    PairAt(frame, 24, OPEN_BRACE, CLOSE_BRACE, TRAILING_PART);
    ClosingBraceIsNull(frame[25..], json);
    TrailingPartIsNull(json);
  }

  /** The line's text ends with the colon, or in the empty object itself. */
  lemma BehindHeaderAtBrace(line: seq<byte>, json: Json)
    requires ReadsBlankObjects(json) && IsLine(line)
    requires LineStop(line, json).RanOut? && LineStop(line, json).gap.InHeader?
    requires 24 <= LineStop(line, json).gap.missing <= 25
    ensures Misjudges(line, json)
  {
    hide IsLine, LineStop, ReadMessage, Misjudges, FrameBytes, ReadHeaders;
    hide ReadsBlankObjects, AfterHeader, Resumed, Blank;
    hide ReadChar;
    LineEnds(line);
    var (frame, gap) := (FrameBytes(Blank(0), Blank(0)), LineStop(line, json).gap);
    FrameResumes(line, Blank(0), Blank(0), json);
    BlankFrame(json);
    HeaderCut(gap.text, gap.missing, gap.expected, frame, json);
    DroppedTwice(line, 0, gap.missing + 1, json);
  }

  lemma {:induction false} SkipToBrace(m: nat, rest: seq<byte>)
    ensures SkipSpaces(Spaces(m) + ([CLOSE_BRACE] + rest)) == [CLOSE_BRACE] + rest
  {
    var s := Spaces(m) + ([CLOSE_BRACE] + rest);
    if m > 0 {
      assert s[0] == SPACE && s[1..] == Spaces(m - 1) + ([CLOSE_BRACE] + rest);
      SkipToBrace(m - 1, rest);
    } else {
      assert s == [CLOSE_BRACE] + rest;
    }
  }

  lemma CutInSpaces(text: seq<byte>, d: nat, expected: int, frame: seq<byte>, m: nat, json: Json)
    requires d <= |frame| && frame[d..] == Spaces(m) + ([CLOSE_BRACE] + TRAILING_PART)
    ensures Resumed(RanOut(InHeader(text, d, expected)), frame, json) == (TRAILING_PART, Null)
  {
    SkipToBrace(m, TRAILING_PART);
    assert ([CLOSE_BRACE] + TRAILING_PART)[1..] == TRAILING_PART;
    hide SkipSpaces, ReadHeaders, AfterHeader;
  }

  /** Longer texts end among the spaces of an object of that length. */
  lemma BehindHeaderInObject(line: seq<byte>, json: Json)
    requires ReadsBlankObjects(json) && IsLine(line)
    requires LineStop(line, json).RanOut? && LineStop(line, json).gap.InHeader?
    requires LineStop(line, json).gap.missing >= 26
    ensures Misjudges(line, json)
  {
    hide IsLine, LineStop, ReadMessage, Misjudges, FrameBytes, Head, Crc, ReadHeaders, ReadsBlankObjects, Decimal;
    hide AfterHeader, Resumed, Blank, ReadChar;
    LineEnds(line);
    var gap := LineStop(line, json).gap;
    var d := gap.missing;
    var body := Blank(d - 2);
    var (frame, at) := (FrameBytes(body, body), BodyAt(body));
    FrameResumes(line, body, body, json);
    DigitsOf(d);
    BodyInFrame(body, body);
    BlankTail(d - 2, d - at);
    assert frame[d..] == frame[at..][d - at..];
    CutInSpaces(gap.text, d, gap.expected, frame, at - 1, json);
    TrailingPartIsNull(json);
    DroppedTwice(line, d - 2, |frame| - 3, json);
  }

  lemma BlankTail(n: nat, k: nat)
    requires 1 <= k <= n + 1
    ensures (Blank(n) + TRAILING_PART)[k..] == Spaces(n + 1 - k) + ([CLOSE_BRACE] + TRAILING_PART)
  {
  }

  // ---------- The result ----------

  /** Behind every line that the header loop runs out of, some frame is misjudged. */
  lemma RunningOutMisjudges(line: seq<byte>, json: Json)
    requires ReadsBlankObjects(json) && IsLine(line) && LineStop(line, json).RanOut?
    ensures Misjudges(line, json)
  {
    LineEnds(line);
    hide IsLine, LineStop, Misjudges, ReadsBlankObjects;
    match LineStop(line, json).gap
    case AtCount(_, _) => BehindCount(line, json);
    case AtColon => BehindColon(line, json);
    case InHeader(_, d, _) =>
      if d == 18 {
        BehindHeaderAtComma(line, json);
      } else if d < 21 {
        BehindHeaderInHead(line, json);
      } else if d == 21 {
        BehindHeaderAtBody(line, json);
      } else if d <= 23 {
        DigitsOf(0);
        BehindHeaderAtDigit(line, if d == 22 then 0 else 8, json);
      } else if d <= 25 {
        BehindHeaderAtBrace(line, json);
      } else {
        BehindHeaderInObject(line, json);
      }
  }

  /**
    Exactly which lines leave every frame behind them to its own checksum: unless the JSON reader or a
    body is still due at the line's end, those that the loop stops within.
  */
  lemma FramesAreJudgedExactlyWithin(line: seq<byte>, json: Json)
    requires ReadsAsStream(json) && ReadsBlankObjects(json) && IsLine(line)
    requires LineStop(line, json) == Within || LineStop(line, json).RanOut?
    ensures !Misjudges(line, json) <==> LineStop(line, json) == Within
  {
    LineEnds(line);
    if LineStop(line, json) == Within {
      hide ReadsAsStream, ReadsBlankObjects, IsLine, LineStop, Execution, LineBytes, Crc, HasCrLf, ReadsObject;
      forall sent, received | IsFramable(received, json) ensures JudgesFrame(line, sent, received, json) {
        FrameBehindWithin(line, sent, received, json);
      }
    } else {
      hide ReadsAsStream, ReadsBlankObjects, IsLine, LineStop, Misjudges;
      RunningOutMisjudges(line, json);
    }
  }

  lemma FrameBehindWithin(line: seq<byte>, sent: seq<byte>, received: seq<byte>, json: Json)
    requires ReadsAsStream(json) && IsLine(line) && IsFramable(received, json) && LineStop(line, json) == Within
    ensures JudgesFrame(line, sent, received, json)
  {
    hide ReadsAsStream, IsLine, LineStop, Execution, LineBytes, Crc, HasCrLf, ReadsObject, MessageOf, Frame;
    var frame := FrameBytes(sent, received);
    assert frame + [] == frame;
    var texts := Texts(MessageOf(line, json));
    hide Texts;
    assert [] + texts == texts;
    FrameIsJudgedByItsChecksum(Receiver(line + frame, []), line, sent, received, [], json);
  }
}
