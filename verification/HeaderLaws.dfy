/** Frames in the terms of their text: what is written character by character, and what each header does. */
module HeaderLaws {
  import opened Bytes
  import opened Crc16
  import opened InputStream
  import opened Framing
  import opened FramingLaws
  import opened EncapsulationLaws

  // ---------- What is written ----------

  /** Four digits, in upper case. */
  lemma HexTextIsUpperCase(crc: Register, i: nat)
    requires i < 4
    ensures exists v :: 0 <= v < 16 && HexText(crc)[i] == "0123456789ABCDEF"[v] as int
  {
    var nibble := if i == 0 then crc[..4] else if i == 1 then crc[4..8] else if i == 2 then crc[8..12] else crc[12..];
    NibbleBound(nibble);
    HexDigitsInOrder(ToNat(nibble));
    hide ToNat, HexDigit;
  }

  /** What stands before, between and behind the checksum, the length and the payload. */
  function Opening(): (text: seq<byte>) { Ascii("15:checksum=0x") }
  function EndOfHeaders(): (text: seq<byte>) { Ascii(",0:,") }
  function BeforePayload(): (text: seq<byte>) { Ascii(":") }
  function Closing(): (text: seq<byte>) { Ascii(",\r\n") }

  /** The frame of a payload: 15:checksum=0xHHHH,0:,<length>:<payload>, and CR LF. */
  lemma EncapsulationText(payload: seq<byte>)
    ensures Encapsulate(payload) ==
      Opening() + HexText(Crc(payload)) + EndOfHeaders() + Decimal(|payload|) + BeforePayload() + payload + Closing()
  {
    LeadingText(payload);
    ClosingText();
    hide Crc, HexText, Decimal, LeadingPart, Opening, EndOfHeaders, BeforePayload, Closing;
  }

  lemma ClosingText()
    ensures TRAILING_PART == Closing() && [COLON] == BeforePayload() && CHECKSUM_KEY == Ascii("checksum")
  {
  }

  lemma LeadingText(payload: seq<byte>)
    ensures LeadingPart(payload) ==
      Opening() + HexText(Crc(payload)) + EndOfHeaders() + Decimal(|payload|) + BeforePayload()
  {
    var (hex, digits) := (HexText(Crc(payload)), Decimal(|payload|));
    LeadingItems(payload);
    ChecksumItemText(hex);
    EmptyItemText();
    ClosingText();
    hide *;
    Gather(LeadingPart(payload), HeaderItem(ChecksumHeader(Crc(payload))), HeaderItem([]), Declared(|payload|),
           Opening(), hex, [COMMA], EndOfHeaders(), digits, BeforePayload());
  }

  lemma LeadingItems(payload: seq<byte>)
    ensures LeadingPart(payload)
         == HeaderItem(ChecksumHeader(Crc(payload))) + HeaderItem([]) + Declared(|payload|)
    ensures ChecksumHeader(Crc(payload)) == CHECKSUM_ASSIGNMENT + HEX_PREFIX + HexText(Crc(payload))
    ensures Declared(|payload|) == Decimal(|payload|) + [COLON]
  {
    hide HeaderItem, HexText, Decimal, Crc;
  }

  lemma Gather(whole: seq<byte>, first: seq<byte>, second: seq<byte>, third: seq<byte>,
               a: seq<byte>, b: seq<byte>, c: seq<byte>, d: seq<byte>, e: seq<byte>, f: seq<byte>)
    requires whole == first + second + third && first == a + b + c && third == e + f && c + second == d
    ensures whole == a + b + d + e + f
  {
  }

  lemma ChecksumItemText(hex: seq<byte>)
    requires |hex| == 4
    ensures HeaderItem(CHECKSUM_ASSIGNMENT + HEX_PREFIX + hex) == Opening() + hex + [COMMA]
  {
    assert Decimal(1) == [49] && Decimal(15) == [49, 53];
    hide Decimal;
    var front := [49, 53, COLON] + (CHECKSUM_ASSIGNMENT + HEX_PREFIX);
    assert front == Opening();
    hide Opening;
    assert [49, 53] + [COLON] == [49, 53, COLON];
    assert [49, 53, COLON] + (CHECKSUM_ASSIGNMENT + HEX_PREFIX + hex) == front + hex;
  }

  lemma EmptyItemText()
    ensures [COMMA] + HeaderItem([]) == EndOfHeaders()
  {
    assert Decimal(0) == [48];
  }

  // ---------- What each header does ----------

  /** A header text: a key without `=` and a value, or a text without `=`. */
  datatype Header = Keyed(key: seq<byte>, value: seq<byte>) | Plain(text: seq<byte>)

  function TextOf(h: Header): (text: seq<byte>) {
    match h
    case Keyed(key, value) => key + Ascii("=") + value
    case Plain(text) => text
  }

  ghost predicate IsHeader(h: Header) {
    match h
    case Keyed(key, value) => 61 !in key
    case Plain(text) => 61 !in text && text != []
  }

  function TextsOf(headers: seq<Header>): (texts: seq<seq<byte>>)
    ensures |texts| == |headers|
  {
    seq(|headers|, i requires 0 <= i < |headers| => TextOf(headers[i]))
  }

  /**
    The checksum that the body must have: the number in the last header with the key "checksum". A
    header without `=` or longer than 65535, and a checksum that is no number, make the frame invalid.
  */
  function Required(headers: seq<Header>, before: int): (checksum: Option<int>) {
    if headers == [] then Some(before)
    else if |TextOf(headers[0])| > 65535 then None
    else match headers[0]
      case Plain(_) => None
      case Keyed(key, value) =>
        if key != Ascii("checksum") then Required(headers[1..], before)
        else if StoiHex(value) == None then None
        else Required(headers[1..], StoiHex(value).value)
  }

  lemma {:induction false} NoIndexOf(s: seq<byte>, c: byte)
    requires c !in s
    ensures IndexOf(s, c) == |s|
  {
    if s != [] {
      NoIndexOf(s[1..], c);
    }
  }

  lemma AfterHeaderOf(h: Header, before: int)
    requires IsHeader(h)
    ensures TextOf(h) != []
    ensures AfterHeader(TextOf(h), before) ==
      match h
      case Plain(_) => None
      case Keyed(key, value) => if key == Ascii("checksum") then StoiHex(value) else Some(before)
  {
    Characters();
    ClosingText();
    hide StoiHex;
    match h
    case Plain(text) =>
      NoIndexOf(text, EQUALS);
    case Keyed(key, value) =>
      var text := TextOf(h);
      assert Ascii("=") == [EQUALS];
      hide Ascii;
      assert text[..|key|] == key && text[|key|] == EQUALS && text[|key| + 1..] == value;
      IndexOfFirst(text, EQUALS, |key|);
  }

  lemma {:induction false} LastChecksumOf(headers: seq<Header>, before: int)
    requires forall i :: 0 <= i < |headers| ==> IsHeader(headers[i])
    ensures LastChecksum(TextsOf(headers), before) == Required(headers, before)
    ensures forall i :: 0 <= i < |headers| ==> TextsOf(headers)[i] != []
    decreases |headers|
  {
    hide StoiHex, AfterHeader, TextOf, Ascii;
    if headers != [] {
      var h := headers[0];
      AfterHeaderOf(h, before);
      assert TextsOf(headers)[1..] == TextsOf(headers[1..]);
      LastChecksumOf(headers[1..], before);
      if h.Keyed? && h.key == Ascii("checksum") && StoiHex(h.value).Some? {
        LastChecksumOf(headers[1..], StoiHex(h.value).value);
      }
      forall i | 0 <= i < |headers| ensures TextsOf(headers)[i] != [] {
        AfterHeaderOf(headers[i], before);
      }
    }
  }

  /** The bytes of a frame with these headers and this body. */
  function FrameText(headers: seq<Header>, body: seq<byte>): (bytes: seq<byte>) {
    LineBytes(Framed(TextsOf(headers), body))
  }

  /** What a frame with these headers holds. */
  ghost predicate IsValid(headers: seq<Header>, body: seq<byte>) {
    Required(headers, -1) == Some(ToNat(Crc(body))) && 0 < |body| <= 65535
  }

  /**
    Whatever the headers, a call on the frame delivers the body exactly when the headers require its
    checksum and its length is permitted, and leaves exactly what follows.
  */
  lemma HeadersDecide(headers: seq<Header>, body: seq<byte>, rest: seq<byte>, json: Json)
    requires forall i :: 0 <= i < |headers| ==> IsHeader(headers[i]) && |TextOf(headers[i])| < SIZE_MODULUS
    requires |body| < SIZE_MODULUS
    requires IsValid(headers, body) ==> ReadsObject(json, body)
    ensures ParseIncoming(FrameText(headers, body) + rest, |FrameText(headers, body)|, json)
         == (rest, if IsValid(headers, body) then Object(body) else Null)
  {
    hide ParseIncoming, ReadsObject, LineBytes, Crc, ToNat, TextOf, Required, LastChecksum, IsHeader;
    LastChecksumOf(headers, -1);
    OneCallOneLine(Framed(TextsOf(headers), body), rest, json);
  }

  lemma {:induction false} PlainIsRefused(front: seq<Header>, text: seq<byte>, back: seq<Header>, before: int)
    ensures Required(front + [Plain(text)] + back, before) == None
    decreases |front|
  {
    hide StoiHex, TextOf, Ascii;
    var all := front + [Plain(text)] + back;
    if front == [] {
      assert all[0] == Plain(text);
    } else {
      assert all[0] == front[0] && all[1..] == front[1..] + [Plain(text)] + back;
      PlainIsRefused(front[1..], text, back, before);
      if front[0].Keyed? && StoiHex(front[0].value).Some? {
        PlainIsRefused(front[1..], text, back, StoiHex(front[0].value).value);
      }
    }
  }

  /** A header without `=`, anywhere among the others, drops the frame, whatever its body and checksum. */
  lemma HeaderWithoutEqualsDrops(
    front: seq<Header>, text: seq<byte>, back: seq<Header>, body: seq<byte>, rest: seq<byte>, json: Json)
    requires forall i :: 0 <= i < |front| ==> IsHeader(front[i]) && |TextOf(front[i])| < SIZE_MODULUS
    requires forall i :: 0 <= i < |back| ==> IsHeader(back[i]) && |TextOf(back[i])| < SIZE_MODULUS
    requires 61 !in text && 0 < |text| < SIZE_MODULUS && |body| < SIZE_MODULUS
    ensures
      var frame := FrameText(front + [Plain(text)] + back, body);
      ParseIncoming(frame + rest, |frame|, json) == (rest, Null)
  {
    var headers := front + [Plain(text)] + back;
    PlainIsRefused(front, text, back, -1);
    assert IsHeader(Plain(text)) && TextOf(Plain(text)) == text;
    hide ParseIncoming, FrameText, IsHeader, TextOf, Required, ReadsObject;
    forall i | 0 <= i < |headers| ensures IsHeader(headers[i]) && |TextOf(headers[i])| < SIZE_MODULUS {
      if i > |front| { assert headers[i] == back[i - |front| - 1]; }
    }
    HeadersDecide(headers, body, rest, json);
  }
}
