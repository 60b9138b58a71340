/**
  Encapsulated payloads as lines: they read back, and a payload altered in transit within the
  checksum's reach is dropped.
*/
module EncapsulationLaws {
  import opened Bytes
  import opened Crc16
  import opened CrcDetection
  import opened InputStream
  import opened Framing
  import opened FramingLaws

  /** The line of a payload `sent` whose body arrives as `received`. */
  function Frame(sent: seq<byte>, received: seq<byte>): (line: Line) {
    Framed([ChecksumHeader(Crc(sent))], received)
  }

  lemma OneHeader(header: seq<byte>)
    ensures HeaderItems([header]) == HeaderItem(header)
  {
    hide HeaderItem;
    assert |[header][1..]| == 0;
  }

  lemma FrameIsEncapsulation(payload: seq<byte>)
    ensures LineBytes(Frame(payload, payload)) == Encapsulate(payload)
  {
    hide Crc, ChecksumHeader, HeaderItem, Declared;
    var header := ChecksumHeader(Crc(payload));
    OneHeader(header);
  }

  // ---------- The printed checksum reads back ----------

  lemma {:induction false} IndexOfFirst(s: seq<byte>, c: byte, k: nat)
    requires k < |s| && s[k] == c && c !in s[..k]
    ensures IndexOf(s, c) == k
  {
    if k > 0 {
      assert s[0] == s[..k][0] && s[1..][..k - 1] == s[..k][1..];
      IndexOfFirst(s[1..], c, k - 1);
    }
  }

  lemma HexValueSnoc(digits: seq<byte>, c: byte)
    requires (forall i :: 0 <= i < |digits| ==> IsHexDigit(digits[i])) && IsHexDigit(c)
    ensures HexValue(digits + [c]) == 16 * HexValue(digits) + HexDigitValue(c)
  {
    assert (digits + [c])[..|digits|] == digits;
  }

  lemma HexValueEmpty()
    ensures HexValue([]) == 0
  {
  }

  lemma HexValueTwo(x: byte, y: byte)
    requires IsHexDigit(x) && IsHexDigit(y)
    ensures HexValue([x, y]) == 16 * HexDigitValue(x) + HexDigitValue(y)
  {
    hide HexDigitValue, IsHexDigit, HexValue;
    HexValueEmpty();
    HexValueSnoc([], x);
    HexValueSnoc([x], y);
    assert [] + [x] == [x] && [x] + [y] == [x, y];
  }

  lemma HexValueFour(w: byte, x: byte, y: byte, z: byte)
    requires IsHexDigit(w) && IsHexDigit(x) && IsHexDigit(y) && IsHexDigit(z)
    ensures HexValue([w, x, y, z]) ==
      4096 * HexDigitValue(w) + 256 * HexDigitValue(x) + 16 * HexDigitValue(y) + HexDigitValue(z)
  {
    hide HexDigitValue, IsHexDigit, HexValue;
    HexValueTwo(w, x);
    HexValueSnoc([w, x], y);
    HexValueSnoc([w, x, y], z);
    assert [w, x] + [y] == [w, x, y] && [w, x, y] + [z] == [w, x, y, z];
  }

  lemma ToNatFour(crc: Register)
    ensures ToNat(crc) == 4096 * ToNat(crc[..4]) + 256 * ToNat(crc[4..8]) + 16 * ToNat(crc[8..12]) + ToNat(crc[12..])
  {
    hide ToNat;
    ToNatNibble(crc[..4], crc[4..8]);
    ToNatNibble(crc[..8], crc[8..12]);
    ToNatNibble(crc[..12], crc[12..]);
    assert crc[..4] + crc[4..8] == crc[..8] && crc[..8] + crc[8..12] == crc[..12] && crc[..12] + crc[12..] == crc;
  }

  lemma HexTextDigits(crc: Register)
    ensures
      var t := HexText(crc);
      && IsHexDigit(t[0]) && HexDigitValue(t[0]) == ToNat(crc[..4])
      && IsHexDigit(t[1]) && HexDigitValue(t[1]) == ToNat(crc[4..8])
      && IsHexDigit(t[2]) && HexDigitValue(t[2]) == ToNat(crc[8..12])
      && IsHexDigit(t[3]) && HexDigitValue(t[3]) == ToNat(crc[12..])
  {
    hide ToNat, HexDigit, HexDigitValue, IsHexDigit;
  }

  lemma HexTextReadsBack(crc: Register)
    ensures forall i :: 0 <= i < 4 ==> IsHexDigit(HexText(crc)[i])
    ensures HexValue(HexText(crc)) == ToNat(crc)
  {
    hide ToNat, HexText, HexValue, HexDigitValue, IsHexDigit;
    HexTextDigits(crc);
    var t := HexText(crc);
    assert t == [t[0], t[1], t[2], t[3]];
    HexValueFour(t[0], t[1], t[2], t[3]);
    ToNatFour(crc);
  }

  lemma {:induction false} HexRunAll(digits: seq<byte>)
    requires forall i :: 0 <= i < |digits| ==> IsHexDigit(digits[i])
    ensures HexRun(digits) == |digits|
  {
    hide IsHexDigit;
    if digits != [] {
      HexRunAll(digits[1..]);
    }
  }

  lemma StoiReadsHexText(crc: Register)
    ensures StoiHex(HEX_PREFIX + HexText(crc)) == Some(ToNat(crc))
  {
    HexTextReadsBack(crc);
    HexRunAll(HexText(crc));
    ToNatBound(crc);
    assert Power2(16) == 65536 by { PowerOfSixteen(); }
    hide ToNat, HexText, HexValue, HexRun, IsHexDigit, Power2;
    var text := HEX_PREFIX + HexText(crc);
    assert SkipSpaces(text) == text;
    assert text[2..] == HexText(crc);
    assert IsHexDigit(text[2]);
    assert HexText(crc)[..4] == HexText(crc);
  }

  /** The header that encapsulation writes sets the expected checksum to the one it was given. */
  lemma ChecksumHeaderReadsBack(crc: Register, expected: int)
    ensures LastChecksum([ChecksumHeader(crc)], expected) == Some(ToNat(crc))
  {
    hide ToNat, HexText, StoiHex;
    var text := ChecksumHeader(crc);
    assert text[..8] == CHECKSUM_KEY && text[8] == EQUALS && text[9..] == HEX_PREFIX + HexText(crc);
    IndexOfFirst(text, EQUALS, 8);
    StoiReadsHexText(crc);
    assert |[text][1..]| == 0;
  }

  // ---------- Encapsulated payloads are lines ----------

  predicate Printable(s: seq<byte>) {
    forall i :: 0 <= i < |s| ==> s[i] >= 32
  }

  lemma {:induction false} HeadIsPrintable(sent: seq<byte>, count: nat)
    ensures Printable(HeaderItem(ChecksumHeader(Crc(sent))) + HeaderItem([]) + Declared(count))
  {
    hide Crc, Decimal, ToNat;
    var hex := HexText(Crc(sent));
    assert forall i :: 0 <= i < 4 ==> IsHexDigit(hex[i]);
    assert Printable(CHECKSUM_ASSIGNMENT) && Printable(HEX_PREFIX) && Printable(hex);
  }

  lemma NoEarlyCrLf(head: seq<byte>, body: seq<byte>)
    requires Printable(head) && !HasCrLf(body)
    ensures IsLine(head + body + TRAILING_PART)
  {
    var line := head + body + TRAILING_PART;
    var s := line[..|line| - 1];
    forall i: nat | i < |s| ensures !CrLfAt(s, i) {
      if |head| <= i < |head| + |body| - 1 {
        assert !CrLfAt(body, i - |head|);
        assert s[i] == body[i - |head|] && s[i + 1] == body[i - |head| + 1];
      } else if i < |head| {
        assert s[i] == head[i];
      } else if i == |head| + |body| - 1 {
        assert s[i + 1] == COMMA;
      }
    }
  }

  lemma FrameParts(sent: seq<byte>, received: seq<byte>)
    ensures LineBytes(Frame(sent, received)) ==
      HeaderItem(ChecksumHeader(Crc(sent))) + HeaderItem([]) + Declared(|received|) + received + TRAILING_PART
  {
    hide Crc, ChecksumHeader, HeaderItem, Declared;
    OneHeader(ChecksumHeader(Crc(sent)));
  }

  lemma FrameIsLine(sent: seq<byte>, received: seq<byte>)
    requires !HasCrLf(received)
    ensures IsLine(LineBytes(Frame(sent, received)))
  {
    hide Crc, ChecksumHeader, HeaderItem, Declared, LineBytes, HasCrLf, IsLine, Printable;
    FrameParts(sent, received);
    HeadIsPrintable(sent, |received|);
    NoEarlyCrLf(HeaderItem(ChecksumHeader(Crc(sent))) + HeaderItem([]) + Declared(|received|), received);
  }

  /** A frame is delivered exactly when its body has the checksum of what was sent. */
  lemma FrameDelivered(sent: seq<byte>, received: seq<byte>)
    ensures Delivered(Frame(sent, received)) ==
      if Crc(received) == Crc(sent) && 0 < |received| <= 65535 then Object(received) else Null
  {
    hide ToNat, ChecksumHeader, LastChecksum;
    ChecksumHeaderReadsBack(Crc(sent), -1);
    SameNumberSameChecksum(Crc(received), Crc(sent));
  }

  /** Detectable alterations of a payload are dropped. */
  lemma AlteredFrameDropped(sent: seq<byte>, received: seq<byte>)
    requires Detectable(sent, received)
    ensures Delivered(Frame(sent, received)) == Null
  {
    FrameDelivered(sent, received);
    DetectableChangesCrc(sent, received);
  }

  lemma AfterChecksumHeader(crc: Register, expected: int)
    ensures AfterHeader(ChecksumHeader(crc), expected) == Some(ToNat(crc))
  {
    hide AfterHeader, ToNat, ChecksumHeader;
    ChecksumHeaderReadsBack(crc, expected);
    var headers: seq<seq<byte>> := [ChecksumHeader(crc)];
    assert |headers[1..]| == 0;
  }

  lemma SameNumberSameChecksum(a: Register, b: Register)
    ensures ToNat(a) == ToNat(b) <==> a == b
  {
    if ToNat(a) == ToNat(b) {
      ToNatInjective(a, b);
    }
  }

  /** Where the header loop stops in a frame, and with what, whatever follows the frame. */
  lemma FrameReadsExactly(sent: seq<byte>, received: seq<byte>, rest: seq<byte>, expected: int, json: Json)
    requires 0 < |received| <= 65535 && ReadsObject(json, received)
    ensures ReadHeaders(Stream(LineBytes(Frame(sent, received)) + rest, true), expected, false, json) ==
      if Crc(received) == Crc(sent) then (TRAILING_PART + rest, Object(received))
      else (received + (TRAILING_PART + rest), Null)
  {
    hide Crc, ToNat, ChecksumHeader, HeaderItem, BodyBytes, ReadHeaders, AfterHeader, ReadsObject;
    var header := ChecksumHeader(Crc(sent));
    var body := BodyBytes(received);
    assert LineBytes(Frame(sent, received)) + rest == HeaderItem(header) + (HeaderItem([]) + (body + rest)) by {
      OneHeader(header);
    }
    hide LineBytes, Frame;
    AfterChecksumHeader(Crc(sent), expected);
    ChecksumHeaderLength(Crc(sent));
    HeaderItemReads(header, HeaderItem([]) + (body + rest), expected, json);
    HeaderItemReads([], body + rest, ToNat(Crc(sent)), json);
    BodyReads(received, rest, ToNat(Crc(sent)), json);
    SameNumberSameChecksum(Crc(received), Crc(sent));
  }

  lemma ChecksumHeaderLength(crc: Register)
    ensures |ChecksumHeader(crc)| == 15
  {
  }

  lemma FrameHoldsObject(sent: seq<byte>, received: seq<byte>, json: Json)
    requires |received| < SIZE_MODULUS
    requires Delivered(Frame(sent, received)) != Null ==> ReadsObject(json, received)
    ensures HoldsObject(Frame(sent, received), json)
  {
    ChecksumHeaderLength(Crc(sent));
    hide Crc, ChecksumHeader, ReadsObject, Passes;
  }

  /** Frames of unaltered objects and of detectably altered payloads are well-formed lines. */
  lemma FrameWellFormed(sent: seq<byte>, received: seq<byte>, json: Json)
    requires !HasCrLf(received) && |received| < SIZE_MODULUS
    requires received == sent && 0 < |sent| <= 65535 ==> ReadsObject(json, sent)
    requires received == sent || Detectable(sent, received)
    ensures WellFormed(Frame(sent, received), json)
  {
    hide Crc, Frame, Delivered, LineBytes, IsLine, ReadsObject, HasCrLf, Detectable, HoldsObject;
    FrameIsLine(sent, received);
    FrameDelivered(sent, received);
    if received != sent {
      AlteredFrameDropped(sent, received);
    }
    FrameHoldsObject(sent, received, json);
  }
}
