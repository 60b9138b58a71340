/**
  Parsed framing of src/transport.cpp: what encapsulateOutgoingMessage writes and what
  parseIncomingMessage does with the bytes at the front of the receive buffer.
*/
module Framing {
  import opened Bytes
  import opened Crc16
  import opened InputStream

  const MESSAGE_LENGTH_MAX := 65535

  /** How many bytes the JSON reader takes from the front of the text, and whether it is an object. */
  datatype JsonResult = JsonResult(consumed: nat, isObject: bool)
  type Json = seq<byte> -> JsonResult

  /** What was parsed: null, or an object, identified with the text it was read from. */
  datatype Parsed = Null | Object(text: seq<byte>)

  // ---------- Encapsulation ----------

  /** "checksum=" */
  const CHECKSUM_ASSIGNMENT: seq<byte> := [99, 104, 101, 99, 107, 115, 117, 109, 61]
  const CHECKSUM_KEY: seq<byte> := [99, 104, 101, 99, 107, 115, 117, 109]
  /** "0x" */
  const HEX_PREFIX: seq<byte> := [48, 120]

  /** `hex << setw(4) << setfill('0') << uppercase << checksum` */
  function HexText(crc: Register): (text: seq<byte>)
    ensures |text| == 4
  {
    NibbleBound(crc[..4]);
    NibbleBound(crc[4..8]);
    NibbleBound(crc[8..12]);
    NibbleBound(crc[12..]);
    [HexDigit(ToNat(crc[..4])), HexDigit(ToNat(crc[4..8])), HexDigit(ToNat(crc[8..12])), HexDigit(ToNat(crc[12..]))]
  }

  lemma NibbleBound(bits: seq<bool>)
    requires |bits| == 4
    ensures ToNat(bits) < 16
  {
    ToNatBound(bits);
    assert Power2(4) == 16;
  }

  /** The text "checksum=0xHHHH". */
  function ChecksumHeader(crc: Register): (text: seq<byte>) {
    CHECKSUM_ASSIGNMENT + HEX_PREFIX + HexText(crc)
  }

  /** A header or body declaration: "<count>:". */
  function Declared(count: nat): (text: seq<byte>) {
    Decimal(count) + [COLON]
  }

  function HeaderItem(text: seq<byte>): (result: seq<byte>) {
    Declared(|text|) + text + [COMMA]
  }

  function LeadingPart(payload: seq<byte>): (bytes: seq<byte>) {
    HeaderItem(ChecksumHeader(Crc(payload))) + HeaderItem([]) + Declared(|payload|)
  }

  const TRAILING_PART: seq<byte> := [COMMA, CR, LF]

  /** The three output buffers of one message, one after the other. */
  function Encapsulate(payload: seq<byte>): (bytes: seq<byte>) {
    LeadingPart(payload) + payload + TRAILING_PART
  }

  // ---------- Parsing ----------

  function IndexOf(s: seq<byte>, c: byte): (i: nat)
    ensures i <= |s|
    ensures i < |s| ==> s[i] == c
    ensures c !in s[..i]
  {
    if s == [] || s[0] == c then 0 else 1 + IndexOf(s[1..], c)
  }

  /** The expected checksum after a header; None when substr or stoi throws. */
  function AfterHeader(text: seq<byte>, expected: int): (checksum: Option<int>) {
    var i := IndexOf(text, EQUALS);
    if i == |text| then None
    else if text[..i] == CHECKSUM_KEY then StoiHex(text[i + 1..])
    else Some(expected)
  }

  /** ParseStream from the front of the unread bytes. */
  function ParseStream(unread: seq<byte>, json: Json): (r: (seq<byte>, Parsed)) {
    var r := json(unread);
    var n := if r.consumed <= |unread| then r.consumed else |unread|;
    (unread[n..], if r.isObject then Object(unread[..n]) else Null)
  }

  /** The framed body after its declaration: checked against the checksum before it is parsed. */
  function ReadBody(s: Stream, count: nat, expected: int, json: Json): (r: (seq<byte>, Parsed)) {
    if |s.unread| < count + 1 || ToNat(Crc(s.unread[..count])) != expected then (s.unread, Null)
    else if s.unread[count] != COMMA || count == 0 then (s.unread, Null)
    else ParseStream(s.unread, json)
  }

  /** The loop over length-prefixed headers; an exception ends it with the null message. */
  function ReadHeaders(s: Stream, expected: int, endOfHeaders: bool, json: Json): (r: (seq<byte>, Parsed))
    decreases |s.unread|
  {
    var (s1, count) := ReadCount(s);
    var (s2, colon) := ReadChar(s1);
    if !s2.good || count > MESSAGE_LENGTH_MAX || colon != COLON then (s2.unread, Null)
    else if endOfHeaders then ReadBody(s2, count, expected, json)
    else
      var (s3, text) := ReadBytes(s2, count);
      var (s4, comma) := ReadChar(s3);
      if !s4.good || comma != COMMA then (s4.unread, Null)
      else if count == 0 then ReadHeaders(s4, expected, true, json)
      else
        var next := AfterHeader(text, expected);
        if next == None then (s4.unread, Null) else ReadHeaders(s4, next.value, false, json)
  }

  /** A line that starts with `{` is parsed directly, every other one as framed. */
  function ReadMessage(buffer: seq<byte>, json: Json): (r: (seq<byte>, Parsed)) {
    if buffer != [] && buffer[0] == OPEN_BRACE then ParseStream(buffer, json)
    else ReadHeaders(Stream(buffer, buffer != []), -1, false, json)
  }

  /** parseIncomingMessage: the buffer it leaves, after skipping to the end of the line, and the message. */
  function ParseIncoming(buffer: seq<byte>, length: nat, json: Json): (r: (seq<byte>, Parsed)) {
    var (unread, message) := ReadMessage(buffer, json);
    (Ignore(unread, length - (|buffer| - |unread|)), message)
  }
}
