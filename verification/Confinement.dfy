/**
  Which lines the parser of src/transport.cpp keeps apart from what follows them: exactly those on
  which its loop, given the line alone, stops before the line runs out.
*/
module Confinement {
  import opened Bytes
  import opened Crc16
  import opened InputStream
  import opened Framing
  import opened FramingLaws
  import opened ParserLaws

  const SPACE: byte := 32

  /**
    The JSON reader takes its text from a stream, a character at a time: where it stops early it has
    not seen what follows, and where it has taken a final line feed it goes on skipping white space.
  */
  ghost predicate ReadsAsStream(json: Json) {
    && (forall text, more :: json(text).consumed < |text| ==> json(text + more) == json(text))
    && (forall text :: text != [] && EndsInLf(text) && json(text).consumed >= |text| ==>
          json(text + [SPACE]).consumed > |text|)
  }

  /** The unread part of a line. */
  predicate EndsInLf(s: seq<byte>) {
    s == [] || s[|s| - 1] == LF
  }

  // ---------- Where the loop stops on a line alone ----------

  /**
    Where an extraction runs out: before a count, before its colon, or in a header text of which
    `missing` bytes, or only the comma, are yet to come.
  */
  datatype Gap =
    | AtCount(expected: int, endOfHeaders: bool)
    | AtColon
    | InHeader(text: seq<byte>, missing: nat, expected: int)

  /**
    The loop ends within the line, or some extraction runs out of it, or the JSON reader takes all of
    the line's tail, or the checksum is due over a body that is declared to reach beyond the line.
  */
  datatype Stop =
    | Within
    | RanOut(gap: Gap)
    | Unfinished(tail: seq<byte>)
    | Beyond(tail: seq<byte>, count: nat, expected: int)

  function ObjectStop(unread: seq<byte>, json: Json): (stop: Stop) {
    if json(unread).consumed < |unread| then Within else Unfinished(unread)
  }

  function BodyStop(unread: seq<byte>, count: nat, expected: int, json: Json): (stop: Stop) {
    if count == 0 || !(0 <= expected < 65536) then Within
    else if |unread| < count + 1 then Beyond(unread, count, expected)
    else if ToNat(Crc(unread[..count])) != expected || unread[count] != COMMA then Within
    else ObjectStop(unread, json)
  }

  function LoopStop(unread: seq<byte>, expected: int, endOfHeaders: bool, json: Json): (stop: Stop)
    decreases |unread|
  {
    var (s1, count, s2, colon, s3, text, s4, comma) := Tokens(Stream(unread, true));
    if SkipSpaces(unread) == [] then RanOut(AtCount(expected, endOfHeaders))
    else if !s1.good then Within
    else if !s2.good then RanOut(AtColon)
    else if count > 65535 || colon != COLON then Within
    else if endOfHeaders then BodyStop(s2.unread, count, expected, json)
    else if !s4.good then RanOut(InHeader(text, if |text| <= count then count - |text| else 0, expected))
    else if comma != COMMA then Within
    else if count == 0 then LoopStop(s4.unread, expected, true, json)
    else if AfterHeader(text, expected) == None then Within
    else LoopStop(s4.unread, AfterHeader(text, expected).value, false, json)
  }

  function LineStop(line: seq<byte>, json: Json): (stop: Stop)
    requires line != []
  {
    if line[0] == OPEN_BRACE then ObjectStop(line, json) else LoopStop(line, -1, false, json)
  }

  // ---------- Extractions from a line and what follows it ----------

  function Behind(s: Stream, rest: seq<byte>): (behind: Stream) {
    Stream(s.unread + rest, s.good)
  }

  lemma {:induction false} SkipSpacesWithin(u: seq<byte>, rest: seq<byte>)
    requires SkipSpaces(u) != []
    ensures SkipSpaces(u + rest) == SkipSpaces(u) + rest
  {
    assert u != [] && (u + rest)[0] == u[0] && (u + rest)[1..] == u[1..] + rest;
    if IsSpace(u[0]) {
      SkipSpacesWithin(u[1..], rest);
    }
  }

  lemma {:induction false} SkipSpacesThrough(u: seq<byte>, rest: seq<byte>)
    requires SkipSpaces(u) == []
    ensures SkipSpaces(u + rest) == SkipSpaces(rest)
  {
    if u == [] {
      assert u + rest == rest;
    } else {
      assert (u + rest)[0] == u[0] && (u + rest)[1..] == u[1..] + rest;
      SkipSpacesThrough(u[1..], rest);
    }
  }

  lemma {:induction false} DigitRunWithin(digits: seq<byte>, rest: seq<byte>)
    requires DigitRun(digits) < |digits|
    ensures DigitRun(digits + rest) == DigitRun(digits)
  {
    assert (digits + rest)[0] == digits[0] && (digits + rest)[1..] == digits[1..] + rest;
    if IsDigit(digits[0]) {
      DigitRunWithin(digits[1..], rest);
    }
  }

  lemma SuffixEndsInLf(tail: seq<byte>, s: seq<byte>)
    requires IsSuffix(tail, s) && EndsInLf(s)
    ensures EndsInLf(tail)
  {
  }

  /** A number does not end in a line feed, so its digits stop before the line does. */
  lemma DigitsStop(start: seq<byte>)
    requires EndsInLf(start) && start != []
    ensures DigitRun(AfterSign(start)) < |AfterSign(start)|
  {
    hide DigitRun;
    var digits := AfterSign(start);
    assert digits != [] && digits[|digits| - 1] == start[|start| - 1] == LF;
    assert DigitRun(digits) == |digits| ==> IsDigit(digits[|digits| - 1]);
  }

  lemma CountWithin(u: seq<byte>, rest: seq<byte>)
    requires EndsInLf(u) && SkipSpaces(u) != []
    ensures ReadCount(Stream(u + rest, true))
         == (Behind(ReadCount(Stream(u, true)).0, rest), ReadCount(Stream(u, true)).1)
  {
    hide CountValue, DigitRun, SkipSpaces, IsSuffix;
    SkipSpacesWithin(u, rest);
    SkipSpacesSuffix(u);
    var start := SkipSpaces(u);
    SuffixEndsInLf(start, u);
    DigitsStop(start);
    hide EndsInLf;
    var digits := AfterSign(start);
    assert AfterSign(start + rest) == digits + rest;
    DigitRunWithin(digits, rest);
    var n := DigitRun(digits);
    assert (digits + rest)[..n] == digits[..n] && (digits + rest)[n..] == digits[n..] + rest;
  }

  lemma CharWithin(u: seq<byte>, rest: seq<byte>)
    requires SkipSpaces(u) != []
    ensures ReadChar(Stream(u + rest, true)) == (Behind(ReadChar(Stream(u, true)).0, rest), ReadChar(Stream(u, true)).1)
  {
    SkipSpacesWithin(u, rest);
    var start := SkipSpaces(u);
    assert (start + rest)[1..] == start[1..] + rest;
  }

  lemma BytesWithin(u: seq<byte>, n: nat, rest: seq<byte>)
    requires n <= |u|
    ensures ReadBytes(Stream(u + rest, true), n) == (Behind(ReadBytes(Stream(u, true), n).0, rest), u[..n])
  {
    assert (u + rest)[..n] == u[..n] && (u + rest)[n..] == u[n..] + rest;
  }

  /** Where only white space is left of the line, extraction goes on behind it. */
  lemma ThroughSpaces(u: seq<byte>, rest: seq<byte>)
    requires SkipSpaces(u) == []
    ensures ReadCount(Stream(u + rest, true)) == ReadCount(Stream(rest, true))
    ensures ReadChar(Stream(u + rest, true)) == ReadChar(Stream(rest, true))
  {
    SkipSpacesThrough(u, rest);
    hide SkipSpaces, DigitRun, AfterSign, CountValue;
  }

  lemma ThroughBytes(u: seq<byte>, n: nat, rest: seq<byte>)
    requires n > |u|
    ensures ReadBytes(Stream(u + rest, true), n)
         == (ReadBytes(Stream(rest, true), n - |u|).0, u + ReadBytes(Stream(rest, true), n - |u|).1)
  {
    if n <= |u + rest| {
      assert (u + rest)[..n] == u + rest[..n - |u|] && (u + rest)[n..] == rest[n - |u|..];
    }
  }

  // ---------- One iteration ----------

  /** As long as the line does not run out, the extractions are the same whatever follows. */
  lemma TokensWithin(u: seq<byte>, rest: seq<byte>)
    requires EndsInLf(u) && SkipSpaces(u) != []
    ensures
      var (a, b) := (Tokens(Stream(u, true)), Tokens(Stream(u + rest, true)));
      && b.0 == Behind(a.0, rest) && b.1 == a.1
      && (!a.0.good ==> b.2 == b.0 && a.2 == a.0)
      && (a.2.good ==> b.2 == Behind(a.2, rest) && b.3 == a.3)
      && (a.6.good ==> b.4 == Behind(a.4, rest) && b.5 == a.5 && b.6 == Behind(a.6, rest) && b.7 == a.7)
  {
    var a := Tokens(Stream(u, true));
    CountWithin(u, rest);
    CharGood(a.0);
    CharGood(a.4);
    hide ReadCount, SkipSpaces;
    if a.2.good {
      CharWithin(a.0.unread, rest);
      if a.6.good {
        BytesWithin(a.2.unread, a.1, rest);
        CharWithin(a.4.unread, rest);
      }
    }
  }

  lemma CharGood(s: Stream)
    ensures ReadChar(s).0.good <==> s.good && SkipSpaces(s.unread) != []
  {
  }

  lemma TokensEndInLf(u: seq<byte>)
    requires EndsInLf(u)
    ensures EndsInLf(Tokens(Stream(u, true)).2.unread) && EndsInLf(Tokens(Stream(u, true)).6.unread)
  {
    hide ReadCount, ReadChar, ReadBytes, EndsInLf;
    IterationSuffix(Stream(u, true));
    SuffixEndsInLf(Tokens(Stream(u, true)).2.unread, u);
    SuffixEndsInLf(Tokens(Stream(u, true)).6.unread, u);
  }

  /** Where the line runs out, extraction goes on with what follows. */
  lemma TokensThrough(u: seq<byte>, rest: seq<byte>)
    requires EndsInLf(u)
    ensures
      var (a, b) := (Tokens(Stream(u, true)), Tokens(Stream(u + rest, true)));
      && (SkipSpaces(u) == [] ==> b == Tokens(Stream(rest, true)))
      && (SkipSpaces(u) != [] && a.0.good && !a.2.good ==> (b.2, b.3) == ReadChar(Stream(rest, true)))
      && (SkipSpaces(u) != [] && a.2.good && !a.6.good ==>
            |a.5| <= a.1 && b.5 == a.5 + ReadBytes(Stream(rest, true), a.1 - |a.5|).1
            && (b.6, b.7) == ReadChar(ReadBytes(Stream(rest, true), a.1 - |a.5|).0))
  {
    var a := Tokens(Stream(u, true));
    if SkipSpaces(u) == [] {
      ThroughSpaces(u, rest);
      hide ReadCount, ReadChar, ReadBytes, SkipSpaces;
    } else {
      CountWithin(u, rest);
      CharGood(a.0);
      CharGood(a.4);
      hide ReadCount, SkipSpaces;
      if a.0.good && !a.2.good {
        ThroughSpaces(a.0.unread, rest);
      } else if a.2.good && !a.6.good {
        CharWithin(a.0.unread, rest);
        HeaderThrough(a.2.unread, a.1, rest);
      }
    }
  }

  lemma HeaderThrough(u: seq<byte>, n: nat, rest: seq<byte>)
    requires !ReadChar(ReadBytes(Stream(u, true), n).0).0.good
    ensures
      var (a, b) := (ReadBytes(Stream(u, true), n), ReadBytes(Stream(u + rest, true), n));
      && |a.1| <= n && b.1 == a.1 + ReadBytes(Stream(rest, true), n - |a.1|).1
      && ReadChar(b.0) == ReadChar(ReadBytes(Stream(rest, true), n - |a.1|).0)
  {
    if n > |u| {
      ThroughBytes(u, n, rest);
    } else {
      CharGood(Stream(u[n..], true));
      hide SkipSpaces, ReadChar;
      assert u[..n] + [] == u[..n] && rest[0..] == rest && rest[..0] == [];
      BytesWithin(u, n, rest);
      ThroughSpaces(u[n..], rest);
    }
  }

  // ---------- The loop ----------

  lemma ObjectWithin(u: seq<byte>, rest: seq<byte>, json: Json)
    requires ReadsAsStream(json) && ObjectStop(u, json) == Within
    ensures ParseStream(u + rest, json) == (ParseStream(u, json).0 + rest, ParseStream(u, json).1)
  {
    var n := json(u).consumed;
    assert json(u + rest) == json(u);
    assert (u + rest)[..n] == u[..n] && (u + rest)[n..] == u[n..] + rest;
  }

  lemma BodyWithin(u: seq<byte>, count: nat, expected: int, rest: seq<byte>, json: Json)
    requires ReadsAsStream(json) && BodyStop(u, count, expected, json) == Within
    ensures ReadBody(Stream(u + rest, true), count, expected, json)
         == (ReadBody(Stream(u, true), count, expected, json).0 + rest,
             ReadBody(Stream(u, true), count, expected, json).1)
  {
    hide Crc, ToNat, ReadsAsStream, ParseStream, ObjectStop;
    if count != 0 && !(0 <= expected < 65536) {
      ChecksumRange(u, count);
      ChecksumRange(u + rest, count);
    } else if count != 0 {
      assert (u + rest)[..count] == u[..count] && (u + rest)[count] == u[count];
      if ToNat(Crc(u[..count])) == expected && u[count] == COMMA {
        ObjectWithin(u, rest, json);
      }
    }
  }

  lemma ChecksumRange(u: seq<byte>, count: nat)
    ensures count <= |u| ==> 0 <= ToNat(Crc(u[..count])) < 65536
  {
    hide Crc, ToNat;
    if count <= |u| {
      ToNatBound(Crc(u[..count]));
      PowerOfSixteen();
    }
  }

  /** The loop in terms of one iteration's extractions. */
  lemma LoopUnfold(u: seq<byte>, expected: int, endOfHeaders: bool, json: Json)
    ensures
      var (s1, count, s2, colon, s3, text, s4, comma) := Tokens(Stream(u, true));
      ReadHeaders(Stream(u, true), expected, endOfHeaders, json) ==
        if !s2.good || count > 65535 || colon != COLON then (s2.unread, Null)
        else if endOfHeaders then ReadBody(s2, count, expected, json)
        else if !s4.good || comma != COMMA then (s4.unread, Null)
        else if count == 0 then ReadHeaders(s4, expected, true, json)
        else if AfterHeader(text, expected) == None then (s4.unread, Null)
        else ReadHeaders(s4, AfterHeader(text, expected).value, false, json)
    ensures
      var (s1, count, s2, colon, s3, text, s4, comma) := Tokens(Stream(u, true));
      && (s2.good ==> s1.good && s2 == Stream(s2.unread, true))
      && (s4.good ==> s4 == Stream(s4.unread, true) && |s4.unread| < |u|)
  {
    hide ReadCount, ReadChar, ReadBytes, ReadBody, AfterHeader;
  }

  lemma {:induction false} LoopWithin(u: seq<byte>, expected: int, endOfHeaders: bool, rest: seq<byte>, json: Json)
    requires ReadsAsStream(json) && EndsInLf(u) && LoopStop(u, expected, endOfHeaders, json) == Within
    ensures ReadHeaders(Stream(u + rest, true), expected, endOfHeaders, json)
         == (ReadHeaders(Stream(u, true), expected, endOfHeaders, json).0 + rest,
             ReadHeaders(Stream(u, true), expected, endOfHeaders, json).1)
    decreases |u|
  {
    hide Tokens, ReadHeaders, LoopStop, ReadBody, BodyStop, AfterHeader, SkipSpaces, ReadsAsStream, EndsInLf;
    LoopUnfold(u, expected, endOfHeaders, json);
    LoopUnfold(u + rest, expected, endOfHeaders, json);
    StopUnfold(u, expected, endOfHeaders, json);
    TokensWithin(u, rest);
    TokensEndInLf(u);
    var (s1, count, s2, colon, s3, text, s4, comma) := Tokens(Stream(u, true));
    if s2.good && count <= 65535 && colon == COLON {
      if endOfHeaders {
        BodyWithin(s2.unread, count, expected, rest, json);
      } else if s4.good && comma == COMMA {
        if count == 0 {
          LoopWithin(s4.unread, expected, true, rest, json);
        } else if AfterHeader(text, expected) != None {
          LoopWithin(s4.unread, AfterHeader(text, expected).value, false, rest, json);
        }
      }
    }
  }

  /** How the parser goes on with what follows a line that it has not stopped within. */
  function Resumed(stop: Stop, rest: seq<byte>, json: Json): (r: (seq<byte>, Parsed))
    requires stop != Within
  {
    match stop
    case RanOut(AtCount(expected, endOfHeaders)) => ReadHeaders(Stream(rest, true), expected, endOfHeaders, json)
    case RanOut(AtColon) => (ReadChar(Stream(rest, true)).0.unread, Null)
    case RanOut(InHeader(text, missing, expected)) =>
      var (s3, more) := ReadBytes(Stream(rest, true), missing);
      var (s4, comma) := ReadChar(s3);
      if !s4.good || comma != COMMA then (s4.unread, Null)
      else if text + more == [] then ReadHeaders(s4, expected, true, json)
      else if AfterHeader(text + more, expected) == None then (s4.unread, Null)
      else ReadHeaders(s4, AfterHeader(text + more, expected).value, false, json)
    case Unfinished(tail) => ParseStream(tail + rest, json)
    case Beyond(tail, count, expected) => ReadBody(Stream(tail + rest, true), count, expected, json)
  }

  /** What a line leaves behind of itself, where it ends in a body or an object, and asks for in a header. */
  ghost predicate TailOf(stop: Stop, u: seq<byte>, json: Json) {
    && (stop.Unfinished? ==>
          0 < |stop.tail| <= |u| && EndsInLf(stop.tail) && json(stop.tail).consumed >= |stop.tail|)
    && (stop.RanOut? && stop.gap.InHeader? ==> stop.gap.missing <= 65535)
    && (stop.Beyond? ==> |stop.tail| <= |u| && |stop.tail| <= stop.count && 0 < stop.count)
  }

  lemma BodyResumes(u: seq<byte>, count: nat, expected: int, rest: seq<byte>, json: Json)
    requires EndsInLf(u) && BodyStop(u, count, expected, json) != Within
    ensures ReadBody(Stream(u + rest, true), count, expected, json)
         == Resumed(BodyStop(u, count, expected, json), rest, json)
    ensures TailOf(BodyStop(u, count, expected, json), u, json)
  {
    hide Crc, ToNat, ParseStream;
    if |u| >= count + 1 {
      assert (u + rest)[..count] == u[..count] && (u + rest)[count] == u[count];
    }
  }

  lemma {:induction false} LoopResumes(u: seq<byte>, expected: int, endOfHeaders: bool, rest: seq<byte>, json: Json)
    requires EndsInLf(u) && LoopStop(u, expected, endOfHeaders, json) != Within
    requires LoopStop(u, expected, endOfHeaders, json) == RanOut(AtColon) ==> ReadChar(Stream(rest, true)).1 != COLON
    ensures ReadHeaders(Stream(u + rest, true), expected, endOfHeaders, json)
         == Resumed(LoopStop(u, expected, endOfHeaders, json), rest, json)
    ensures TailOf(LoopStop(u, expected, endOfHeaders, json), u, json)
    decreases |u|
  {
    hide Tokens, ReadHeaders, LoopStop, ReadBody, BodyStop, AfterHeader, SkipSpaces, EndsInLf, TailOf;
    hide ReadChar, ReadBytes, ParseStream;
    LoopUnfold(u, expected, endOfHeaders, json);
    LoopUnfold(u + rest, expected, endOfHeaders, json);
    LoopUnfold(rest, expected, endOfHeaders, json);
    StopUnfold(u, expected, endOfHeaders, json);
    TokensThrough(u, rest);
    if SkipSpaces(u) != [] {
      TokensWithin(u, rest);
      TokensEndInLf(u);
      TokensShrink(u);
      var (s1, count, s2, colon, s3, text, s4, comma) := Tokens(Stream(u, true));
      if s2.good && endOfHeaders {
        BodyResumes(s2.unread, count, expected, rest, json);
        TailInside(LoopStop(u, expected, endOfHeaders, json), s2.unread, u, json);
      } else if s2.good && s4.good {
        var next := if count == 0 then expected else AfterHeader(text, expected).value;
        LoopResumes(s4.unread, next, count == 0, rest, json);
        TailInside(LoopStop(u, expected, endOfHeaders, json), s4.unread, u, json);
      } else {
        NoTail(LoopStop(u, expected, endOfHeaders, json), u, json);
      }
    } else {
      NoTail(LoopStop(u, expected, endOfHeaders, json), u, json);
    }
  }

  lemma TailInside(stop: Stop, later: seq<byte>, u: seq<byte>, json: Json)
    requires TailOf(stop, later, json) && |later| <= |u|
    ensures TailOf(stop, u, json)
  {
  }

  lemma NoTail(stop: Stop, u: seq<byte>, json: Json)
    requires stop.RanOut? && (stop.gap.InHeader? ==> stop.gap.missing <= 65535)
    ensures TailOf(stop, u, json)
  {
  }

  /** Where the loop stops, in terms of one iteration's extractions. */
  lemma StopUnfold(u: seq<byte>, expected: int, endOfHeaders: bool, json: Json)
    ensures
      var (s1, count, s2, colon, s3, text, s4, comma) := Tokens(Stream(u, true));
      && |text| <= count
      && LoopStop(u, expected, endOfHeaders, json) ==
        if SkipSpaces(u) == [] then RanOut(AtCount(expected, endOfHeaders))
        else if !s1.good then Within
        else if !s2.good then RanOut(AtColon)
        else if count > 65535 || colon != COLON then Within
        else if endOfHeaders then BodyStop(s2.unread, count, expected, json)
        else if !s4.good then RanOut(InHeader(text, count - |text|, expected))
        else if comma != COMMA then Within
        else if count == 0 then LoopStop(s4.unread, expected, true, json)
        else if AfterHeader(text, expected) == None then Within
        else LoopStop(s4.unread, AfterHeader(text, expected).value, false, json)
  {
    hide ReadCount, ReadChar, BodyStop, AfterHeader, SkipSpaces;
  }

  lemma TokensShrink(u: seq<byte>)
    ensures |Tokens(Stream(u, true)).2.unread| <= |u|
    ensures Tokens(Stream(u, true)).6.good ==> |Tokens(Stream(u, true)).6.unread| < |u|
  {
    hide ReadCount, ReadChar, ReadBytes;
  }

  /** A single space behind the line is consumed as well. */
  lemma SpaceIsConsumed(stop: Stop, u: seq<byte>, json: Json)
    requires ReadsAsStream(json) && TailOf(stop, u, json) && (stop.RanOut? || stop.Unfinished?)
    ensures Resumed(stop, [SPACE], json).0 == []
  {
    assert [SPACE][1..] == [] && SkipSpaces([]) == [];
    assert SkipSpaces([SPACE]) == [];
    if stop.Unfinished? {
      assert json(stop.tail + [SPACE]).consumed > |stop.tail|;
      assert (stop.tail + [SPACE])[|stop.tail| + 1..] == [];
    }
  }

  // ---------- Lines ----------

  /** Whatever follows the line, a call leaves exactly that. */
  ghost predicate Realigns(line: seq<byte>, json: Json) {
    forall rest :: ParseIncoming(line + rest, |line|, json).0 == rest
  }

  lemma LineEnds(line: seq<byte>)
    requires IsLine(line)
    ensures line != [] && EndsInLf(line)
  {
  }

  lemma MessageWithin(line: seq<byte>, rest: seq<byte>, json: Json)
    requires ReadsAsStream(json) && IsLine(line) && LineStop(line, json) == Within
    ensures ReadMessage(line + rest, json) == (ReadMessage(line, json).0 + rest, ReadMessage(line, json).1)
    ensures |ReadMessage(line, json).0| <= |line|
  {
    LineEnds(line);
    hide ReadsAsStream, EndsInLf, LoopStop, ReadHeaders, ParseStream, ObjectStop, IsSuffix;
    assert (line + rest)[0] == line[0];
    if line[0] == OPEN_BRACE {
      ObjectWithin(line, rest, json);
      ParseStreamSuffix(line, json);
    } else {
      LoopWithin(line, -1, false, rest, json);
      ReadHeadersSuffix(Stream(line, true), -1, false, json);
    }
    SuffixLength(ReadMessage(line, json).0, line);
  }

  lemma SuffixLength(tail: seq<byte>, s: seq<byte>)
    requires IsSuffix(tail, s)
    ensures |tail| <= |s|
  {
  }

  /** A line on which the loop stops within is delivered and left behind the same whatever follows it. */
  lemma WithinIsSeparate(line: seq<byte>, json: Json)
    requires ReadsAsStream(json) && IsLine(line) && LineStop(line, json) == Within
    ensures IsSeparate(line, json)
  {
    hide ReadsAsStream, IsLine, LineStop, ReadMessage;
    MessageWithin(line, [], json);
    assert line + [] == line;
    forall rest ensures ParseIncoming(line + rest, |line|, json) == (rest, MessageOf(line, json)) {
      MessageWithin(line, rest, json);
      var unread := ReadMessage(line, json).0;
      assert (unread + rest)[|unread|..] == rest;
    }
  }

  /** How a call goes on behind a line that it has not stopped within. */
  lemma LineResumes(line: seq<byte>, rest: seq<byte>, json: Json)
    requires IsLine(line) && LineStop(line, json) != Within
    requires LineStop(line, json) == RanOut(AtColon) ==> ReadChar(Stream(rest, true)).1 != COLON
    ensures ReadMessage(line + rest, json) == Resumed(LineStop(line, json), rest, json)
    ensures TailOf(LineStop(line, json), line, json)
  {
    LineEnds(line);
    assert (line + rest)[0] == line[0];
    hide LoopStop, ReadHeaders, ReadBody, IsLine, ParseStream, ReadChar;
    if line[0] != OPEN_BRACE {
      LoopResumes(line, -1, false, rest, json);
    }
  }

  lemma RunsOutIntoSpace(line: seq<byte>, json: Json)
    requires ReadsAsStream(json) && IsLine(line)
    requires LineStop(line, json).RanOut? || LineStop(line, json).Unfinished?
    ensures ParseIncoming(line + [SPACE], |line|, json).0 == []
  {
    hide ReadsAsStream, IsLine, LineStop, Resumed, ReadMessage, TailOf;
    SpaceIsNoColon();
    LineEnds(line);
    LineResumes(line, [SPACE], json);
    SpaceIsConsumed(LineStop(line, json), line, json);
  }

  lemma SpaceIsNoColon()
    ensures ReadChar(Stream([SPACE], true)).1 != COLON
  {
    assert [SPACE][1..] == [];
  }

  /**
    Exactly which lines realign: unless a body is declared beyond the line, a call on the line leaves
    exactly what follows, whatever that is, if and only if the loop stops within the line alone.
  */
  lemma RealignsExactlyWithin(line: seq<byte>, json: Json)
    requires ReadsAsStream(json) && IsLine(line) && !LineStop(line, json).Beyond?
    ensures Realigns(line, json) <==> LineStop(line, json) == Within
  {
    LineEnds(line);
    hide ReadsAsStream, IsLine, LineStop, ParseIncoming;
    if LineStop(line, json) == Within {
      WithinIsSeparate(line, json);
    } else {
      RunsOutIntoSpace(line, json);
      assert ParseIncoming(line + [SPACE], |line|, json).0 != [SPACE];
    }
  }

  /** The whole body has arrived, with its checksum and comma right. */
  predicate BodyArrived(body: seq<byte>, count: nat, expected: int) {
    |body| >= count + 1 && ToNat(Crc(body[..count])) == expected && body[count] == COMMA
  }

  /**
    With a body declared beyond the line, a call goes past the line exactly when what follows completes
    the body, its checksum and comma are right, and the object read from it ends beyond the line.
  */
  lemma BeyondRealignsUnlessChecked(line: seq<byte>, rest: seq<byte>, json: Json)
    requires IsLine(line) && LineStop(line, json).Beyond?
    ensures
      var stop := LineStop(line, json);
      var body := stop.tail + rest;
      ParseIncoming(line + rest, |line|, json).0 == rest <==>
        !(BodyArrived(body, stop.count, stop.expected) && json(body).consumed > |stop.tail|)
  {
    LineEnds(line);
    hide LineStop, ReadBody, ReadMessage, BodyArrived, IsLine, EndsInLf, Ignore;
    var stop := LineStop(line, json);
    var body := stop.tail + rest;
    LineResumes(line, rest, json);
    BodyLeaves(body, stop.count, stop.expected, json);
    IgnoreLeaves(ReadMessage(line + rest, json).0, body, stop.tail, line, rest);
  }

  /** With an object not ended in the line, a call goes past the line exactly when the reader takes more. */
  lemma UnfinishedRealignsUnlessRead(line: seq<byte>, rest: seq<byte>, json: Json)
    requires IsLine(line) && LineStop(line, json).Unfinished?
    ensures
      var tail := LineStop(line, json).tail;
      ParseIncoming(line + rest, |line|, json).0 == rest <==> rest == [] || json(tail + rest).consumed <= |tail|
  {
    LineEnds(line);
    hide LineStop, ParseStream, ReadMessage, IsLine, EndsInLf, Ignore;
    var tail := LineStop(line, json).tail;
    LineResumes(line, rest, json);
    ObjectLeaves(tail + rest, json);
    IgnoreLeaves(ReadMessage(line + rest, json).0, tail + rest, tail, line, rest);
  }

  lemma ObjectLeaves(body: seq<byte>, json: Json)
    ensures
      var unread := ParseStream(body, json).0;
      && |unread| <= |body| && unread == body[|body| - |unread|..]
      && |body| - |unread| == if json(body).consumed <= |body| then json(body).consumed else |body|
  {
  }

  /** How much of a body the loop takes. */
  lemma BodyLeaves(body: seq<byte>, count: nat, expected: int, json: Json)
    requires count > 0
    ensures
      var unread := ReadBody(Stream(body, true), count, expected, json).0;
      && |unread| <= |body| && unread == body[|body| - |unread|..]
      && (BodyArrived(body, count, expected) ==> |body| > count)
      && |body| - |unread| ==
           if BodyArrived(body, count, expected)
           then (if json(body).consumed <= |body| then json(body).consumed else |body|) else 0
  {
    hide Crc, ToNat;
  }

  lemma IgnoreLeaves(unread: seq<byte>, body: seq<byte>, tail: seq<byte>, line: seq<byte>, rest: seq<byte>)
    requires body == tail + rest && |tail| <= |line| && |unread| <= |body| && unread == body[|body| - |unread|..]
    ensures Ignore(unread, |line| - (|line + rest| - |unread|)) == rest <==> |unread| >= |rest|
  {
    if |unread| >= |rest| {
      assert unread[|unread| - |rest|..] == body[|tail|..] == rest;
    }
  }

  /** The two ways out of a line: white space up to its end, and a header declared longer than the line. */
  lemma EmptyAndOverrunRunOut(count: nat, json: Json)
    requires 2 < count <= 65535
    ensures LineStop([CR, LF], json) == RanOut(AtCount(-1, false))
    ensures LineStop(Declared(count) + [CR, LF], json) == RanOut(InHeader([CR, LF], count - 2, -1))
  {
    assert [CR, LF][1..] == [LF] && [LF][1..] == [];
    assert SkipSpaces([CR, LF]) == SkipSpaces([LF]) == [];
    var line := Declared(count) + [CR, LF];
    assert IsDigit(Decimal(count)[0]) && line[0] == Decimal(count)[0];
    assert SkipSpaces(line) == line;
    DeclarationReads(count, [CR, LF]);
    hide Decimal, Declared, ReadCount, SkipSpaces;
    StopUnfold(line, -1, false, json);
  }
}
