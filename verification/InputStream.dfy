/**
  The standard-library text input the message parser relies on: formatted extraction from a
  std::istream over a stream buffer, and std::stoi in base 16.
*/
module InputStream {
  import opened Bytes

  /** The unread bytes of the buffer, and whether no error or end-of-file bit is set. */
  datatype Stream = Stream(unread: seq<byte>, good: bool)

  const SIZE_MODULUS: nat := 0x1_0000_0000_0000_0000
  const NPOS: nat := SIZE_MODULUS - 1
  const INT_BOUND: nat := 0x8000_0000

  const PLUS: byte := 43
  const MINUS: byte := 45

  predicate IsSpace(c: byte) {
    c == 32 || 9 <= c <= 13
  }

  predicate IsDigit(c: byte) {
    48 <= c <= 57
  }

  function SkipSpaces(s: seq<byte>): (rest: seq<byte>)
    ensures |rest| <= |s|
  {
    if s != [] && IsSpace(s[0]) then SkipSpaces(s[1..]) else s
  }

  // ---------- operator>> for size_t ----------

  function DigitValue(c: byte): (v: nat)
    requires IsDigit(c)
  {
    c - 48
  }

  function DigitRun(s: seq<byte>): (n: nat)
    ensures n <= |s|
    ensures forall i :: 0 <= i < n ==> IsDigit(s[i])
  {
    if s != [] && IsDigit(s[0]) then 1 + DigitRun(s[1..]) else 0
  }

  function DecimalValue(digits: seq<byte>): (value: nat)
    requires forall i :: 0 <= i < |digits| ==> IsDigit(digits[i])
  {
    if digits == [] then 0
    else 10 * DecimalValue(digits[..|digits| - 1]) + DigitValue(digits[|digits| - 1])
  }

  function AfterSign(start: seq<byte>): (digits: seq<byte>)
    ensures |digits| <= |start|
  {
    if start != [] && (start[0] == PLUS || start[0] == MINUS) then start[1..] else start
  }

  /** What an unsigned extraction makes of n digits: no digits, overflow, or a value that a minus sign wraps. */
  function CountValue(digits: seq<byte>, negative: bool): (r: (bool, nat))
    requires forall i :: 0 <= i < |digits| ==> IsDigit(digits[i])
  {
    var value := DecimalValue(digits);
    if digits == [] then (false, 0)
    else if value >= SIZE_MODULUS then (false, NPOS)
    else (true, if negative then (SIZE_MODULUS - value) % SIZE_MODULUS else value)
  }

  /** Skips white space, then reads an optional sign and digits; a number that ends the buffer sets eofbit. */
  function ReadCount(s: Stream): (r: (Stream, nat))
    ensures |r.0.unread| <= |s.unread|
    ensures r.0.good ==> s.good && |r.0.unread| < |s.unread|
  {
    var start := SkipSpaces(s.unread);
    if !s.good then (s, NPOS)
    else if start == [] then (Stream([], false), NPOS)
    else
      var digits := AfterSign(start);
      var n := DigitRun(digits);
      var (valid, value) := CountValue(digits[..n], start[0] == MINUS);
      (Stream(digits[n..], valid && n < |digits|), value)
  }

  // ---------- operator>> for char, read ----------

  function ReadChar(s: Stream): (r: (Stream, byte))
    ensures |r.0.unread| <= |s.unread|
    ensures r.0.good ==> s.good && |r.0.unread| < |s.unread|
  {
    var start := SkipSpaces(s.unread);
    if !s.good then (s, 0)
    else if start == [] then (Stream([], false), 0)
    else (Stream(start[1..], true), start[0])
  }

  function ReadBytes(s: Stream, n: nat): (r: (Stream, seq<byte>))
    ensures |r.0.unread| <= |s.unread|
    ensures r.0.good ==> s.good && s.unread == r.1 + r.0.unread && |r.1| == n
  {
    if !s.good then (s, [])
    else if n > |s.unread| then (Stream([], false), s.unread)
    else (Stream(s.unread[n..], true), s.unread[..n])
  }

  /** istream::ignore after clear: a count that is not positive skips nothing. */
  function Ignore(unread: seq<byte>, count: int): (rest: seq<byte>) {
    if count <= 0 then unread else if count >= |unread| then [] else unread[count..]
  }

  // ---------- std::stoi(value, nullptr, 16) ----------

  predicate IsHexDigit(c: byte) {
    IsDigit(c) || 65 <= c <= 70 || 97 <= c <= 102
  }

  function HexDigitValue(c: byte): (v: nat)
    requires IsHexDigit(c)
    ensures v < 16
  {
    if IsDigit(c) then c - 48 else if c <= 70 then c - 55 else c - 87
  }

  function HexRun(s: seq<byte>): (n: nat)
    ensures n <= |s|
    ensures forall i :: 0 <= i < n ==> IsHexDigit(s[i])
  {
    if s != [] && IsHexDigit(s[0]) then 1 + HexRun(s[1..]) else 0
  }

  function HexValue(digits: seq<byte>): (value: nat)
    requires forall i :: 0 <= i < |digits| ==> IsHexDigit(digits[i])
  {
    if digits == [] then 0
    else 16 * HexValue(digits[..|digits| - 1]) + HexDigitValue(digits[|digits| - 1])
  }

  predicate HasHexPrefix(s: seq<byte>) {
    |s| > 2 && s[0] == 48 && (s[1] == 120 || s[1] == 88) && IsHexDigit(s[2])
  }

  /** The parsed int, or None for the exceptions: no digits, or out of range. */
  function StoiHex(text: seq<byte>): (value: Option<int>) {
    var start := SkipSpaces(text);
    var negative := start != [] && start[0] == MINUS;
    var unsigned := AfterSign(start);
    var digits := if HasHexPrefix(unsigned) then unsigned[2..] else unsigned;
    var n := HexRun(digits);
    var value: int := HexValue(digits[..n]);
    if n == 0 then None
    else if negative then (if value <= INT_BOUND then Some(-value) else None)
    else if value < INT_BOUND then Some(value) else None
  }

  // ---------- Printing, and reading back ----------

  /** `<< std::dec << n`. */
  function Decimal(n: nat): (text: seq<byte>)
    ensures text != [] && forall i :: 0 <= i < |text| ==> IsDigit(text[i])
  {
    if n < 10 then [48 + n] else Decimal(n / 10) + [48 + n % 10]
  }

  /** An upper-case hexadecimal digit. */
  function HexDigit(v: nat): (c: byte)
    requires v < 16
    ensures IsHexDigit(c) && HexDigitValue(c) == v
  {
    if v < 10 then 48 + v else 55 + v
  }

  lemma {:induction false} DecimalReadsBack(n: nat)
    ensures DecimalValue(Decimal(n)) == n
  {
    if n >= 10 {
      DecimalReadsBack(n / 10);
      assert Decimal(n)[..|Decimal(n)| - 1] == Decimal(n / 10);
    } else {
      assert [48 + n][..0] == [];
    }
  }

  lemma {:induction false} DigitRunStops(digits: seq<byte>, rest: seq<byte>)
    requires forall i :: 0 <= i < |digits| ==> IsDigit(digits[i])
    requires rest == [] || !IsDigit(rest[0])
    ensures DigitRun(digits + rest) == |digits|
  {
    if digits == [] {
      assert digits + rest == rest;
    } else {
      assert (digits + rest)[1..] == digits[1..] + rest;
      DigitRunStops(digits[1..], rest);
    }
  }

  /** A printed count followed by a non-digit reads back, and the stream stays good. */
  lemma CountReadsBack(n: nat, rest: seq<byte>)
    requires n < SIZE_MODULUS
    requires rest != [] && !IsDigit(rest[0])
    ensures ReadCount(Stream(Decimal(n) + rest, true)) == (Stream(rest, true), n)
  {
    var text := Decimal(n);
    var all := text + rest;
    assert all[0] == text[0] && IsDigit(text[0]);
    assert SkipSpaces(all) == all;
    DigitRunStops(text, rest);
    assert all[..|text|] == text && all[|text|..] == rest;
    DecimalReadsBack(n);
  }

  /** A printed count has no leading zero. */
  lemma {:induction false} NoLeadingZero(n: nat)
    ensures Decimal(n)[0] == 48 <==> n == 0
  {
    if n >= 10 {
      NoLeadingZero(n / 10);
    }
  }

  /** A minus sign wraps the value around, as for any unsigned extraction. */
  lemma NegativeCountWraps(n: nat, rest: seq<byte>)
    requires n < SIZE_MODULUS
    requires rest != [] && !IsDigit(rest[0])
    ensures ReadCount(Stream([MINUS] + (Decimal(n) + rest), true))
         == (Stream(rest, true), (0x1_0000_0000_0000_0000 - n) % 0x1_0000_0000_0000_0000)
  {
    var text := Decimal(n);
    var start := [MINUS] + (text + rest);
    assert SkipSpaces(start) == start;
    assert AfterSign(start) == text + rest;
    DigitRunStops(text, rest);
    assert (text + rest)[..|text|] == text && (text + rest)[|text|..] == rest;
    DecimalReadsBack(n);
  }

  lemma CharReadsBack(c: byte, rest: seq<byte>)
    requires !IsSpace(c)
    ensures ReadChar(Stream([c] + rest, true)) == (Stream(rest, true), c)
  {
    assert SkipSpaces([c] + rest) == [c] + rest;
    assert ([c] + rest)[1..] == rest;
  }

  lemma BytesReadBack(text: seq<byte>, rest: seq<byte>)
    ensures ReadBytes(Stream(text + rest, true), |text|) == (Stream(rest, true), text)
  {
    assert (text + rest)[..|text|] == text && (text + rest)[|text|..] == rest;
  }

  // ---------- Extraction in full ----------

  /** Blank, tab, line feed, vertical tab, form feed and carriage return. */
  predicate AreSpaces(s: seq<byte>) {
    forall i :: 0 <= i < |s| ==> s[i] == 32 || s[i] == 9 || s[i] == 10 || s[i] == 11 || s[i] == 12 || s[i] == 13
  }

  predicate AreDigits(s: seq<byte>) {
    forall i :: 0 <= i < |s| ==> 48 <= s[i] <= 57
  }

  lemma {:induction false} SpacesAreSkipped(spaces: seq<byte>, rest: seq<byte>)
    requires AreSpaces(spaces) && (rest == [] || !AreSpaces(rest[..1]))
    ensures SkipSpaces(spaces + rest) == rest
  {
    if spaces == [] {
      assert spaces + rest == rest;
      assert rest != [] ==> rest[..1][0] == rest[0];
    } else {
      assert (spaces + rest)[1..] == spaces[1..] + rest;
      SpacesAreSkipped(spaces[1..], rest);
    }
  }

  /** A character behind any white space; nothing else is taken. */
  lemma CharExtraction(spaces: seq<byte>, c: byte, rest: seq<byte>)
    requires AreSpaces(spaces) && !AreSpaces([c])
    ensures ReadChar(Stream(spaces + ([c] + rest), true)) == (Stream(rest, true), c)
  {
    assert ([c] + rest)[..1] == [c];
    SpacesAreSkipped(spaces, [c] + rest);
    assert ([c] + rest)[1..] == rest;
  }

  /** Nothing but white space: extraction fails at the end of the stream. */
  lemma NothingToExtract(spaces: seq<byte>)
    requires AreSpaces(spaces)
    ensures ReadChar(Stream(spaces, true)).0 == Stream([], false)
    ensures ReadCount(Stream(spaces, true)).0 == Stream([], false)
  {
    SpacesAreSkipped(spaces, []);
    assert spaces + [] == spaces;
  }

  /**
    White space, at most one sign, and digits up to the first other character: the number, wrapped by
    a minus sign; too large a number and the end of the stream leave the stream bad.
  */
  lemma CountExtraction(spaces: seq<byte>, sign: seq<byte>, digits: seq<byte>, rest: seq<byte>)
    requires AreSpaces(spaces) && (sign == [] || sign == [43] || sign == [45]) && AreDigits(digits) && digits != []
    requires rest == [] || !AreDigits(rest[..1])
    ensures
      var value := DecimalValue(digits);
      ReadCount(Stream(spaces + (sign + (digits + rest)), true)) ==
        (Stream(rest, value < 0x1_0000_0000_0000_0000 && rest != []),
         if value >= 0x1_0000_0000_0000_0000 then 0xFFFF_FFFF_FFFF_FFFF
         else if sign == [45] then (0x1_0000_0000_0000_0000 - value) % 0x1_0000_0000_0000_0000 else value)
  {
    assert rest != [] ==> rest[..1] == [rest[0]];
    DigitRunStops(digits, rest);
    assert (digits + rest)[..|digits|] == digits && (digits + rest)[|digits|..] == rest;
    assert (digits + rest)[0] == digits[0];
    SignIsTaken(spaces, sign, digits + rest);
    hide SkipSpaces, AfterSign, DigitRun, DecimalValue, AreSpaces, AreDigits;
  }

  /** White space and at most one sign in front of a number. */
  lemma SignIsTaken(spaces: seq<byte>, sign: seq<byte>, unsigned: seq<byte>)
    requires AreSpaces(spaces) && (sign == [] || sign == [43] || sign == [45])
    requires unsigned != [] && (sign == [] ==> !AreSpaces(unsigned[..1]) && unsigned[0] != 43 && unsigned[0] != 45)
    ensures
      var start := SkipSpaces(spaces + (sign + unsigned));
      && start == sign + unsigned && start != [] && AfterSign(start) == unsigned && (start[0] == 45 <==> sign == [45])
  {
    var start := sign + unsigned;
    assert start[0] == (if sign == [] then unsigned[0] else sign[0]) && start[..1] == [start[0]];
    assert unsigned[..1] == [unsigned[0]];
    SpacesAreSkipped(spaces, start);
  }

  /** No digit where the number should be: the stream goes bad there. */
  lemma NoCountExtraction(spaces: seq<byte>, sign: seq<byte>, rest: seq<byte>)
    requires AreSpaces(spaces) && (sign == [] || sign == [43] || sign == [45])
    requires rest != [] && !AreDigits(rest[..1])
    requires sign == [] ==> !AreSpaces(rest[..1]) && rest[0] != 43 && rest[0] != 45
    ensures ReadCount(Stream(spaces + (sign + rest), true)) == (Stream(rest, false), 0)
  {
    SignIsTaken(spaces, sign, rest);
    assert rest[..1] == [rest[0]];
    DigitRunStops([], rest);
    assert [] + rest == rest && rest[..0] == [] && rest[0..] == rest;
  }

  // ---------- std::stoi in full ----------

  lemma HexDigitsInOrder(v: nat)
    requires v < 16
    ensures IsHexDigit("0123456789ABCDEF"[v] as int) && HexDigitValue("0123456789ABCDEF"[v] as int) == v
    ensures IsHexDigit("0123456789abcdef"[v] as int) && HexDigitValue("0123456789abcdef"[v] as int) == v
    ensures HexDigit(v) == "0123456789ABCDEF"[v] as int
  {
  }

  /** A character that is no hexadecimal digit in either case. */
  predicate IsNoHexDigit(c: byte) {
    c < 48 || 57 < c < 65 || 70 < c < 97 || 102 < c
  }

  predicate AreHexDigits(s: seq<byte>) {
    forall i :: 0 <= i < |s| ==> !IsNoHexDigit(s[i])
  }

  lemma {:induction false} HexRunStops(digits: seq<byte>, rest: seq<byte>)
    requires AreHexDigits(digits) && (rest == [] || IsNoHexDigit(rest[0]))
    ensures (forall i :: 0 <= i < |digits| ==> IsHexDigit(digits[i])) && HexRun(digits + rest) == |digits|
  {
    if digits == [] {
      assert digits + rest == rest;
    } else {
      assert (digits + rest)[1..] == digits[1..] + rest;
      HexRunStops(digits[1..], rest);
      assert digits == [digits[0]] + digits[1..];
    }
  }

  /** "0x" or "0X", or nothing. */
  predicate IsPrefix(prefix: seq<byte>) {
    prefix == [] || prefix == [48, 120] || prefix == [48, 88]
  }

  /**
    White space, at most one sign, an optional prefix, and hexadecimal digits in any case up to the
    first other character: the number when an int can hold it, otherwise an exception.
  */
  lemma StoiExtraction(spaces: seq<byte>, sign: seq<byte>, prefix: seq<byte>, digits: seq<byte>, rest: seq<byte>)
    requires AreSpaces(spaces) && (sign == [] || sign == [43] || sign == [45]) && IsPrefix(prefix)
    requires AreHexDigits(digits) && digits != [] && (rest == [] || IsNoHexDigit(rest[0]))
    requires prefix == [] ==> rest == [] || (rest[0] != 120 && rest[0] != 88)
    ensures forall i :: 0 <= i < |digits| ==> IsHexDigit(digits[i])
    ensures
      var value: int := HexValue(digits);
      StoiHex(spaces + (sign + (prefix + (digits + rest)))) ==
        if sign == [45] then (if value <= 0x8000_0000 then Some(-value) else None)
        else (if value < 0x8000_0000 then Some(value) else None)
  {
    hide StoiHex, HexRun, HexValue, SkipSpaces, AfterSign, HasHexPrefix, AreSpaces, IsHexDigit;
    HexRunStops(digits, rest);
    var unsigned := prefix + (digits + rest);
    NumberStart(prefix, digits, rest);
    SignIsTaken(spaces, sign, unsigned);
    PrefixIsRead(prefix, digits, rest);
    var tail := digits + rest;
    assert tail[..|digits|] == digits;
    StoiSteps(spaces + (sign + unsigned), unsigned, tail, |digits|);
  }

  lemma StoiSteps(text: seq<byte>, unsigned: seq<byte>, tail: seq<byte>, n: nat)
    requires AfterSign(SkipSpaces(text)) == unsigned && SkipSpaces(text) != []
    requires tail == (if HasHexPrefix(unsigned) then unsigned[2..] else unsigned) && HexRun(tail) == n > 0
    ensures
      var value: int := HexValue(tail[..n]);
      StoiHex(text) ==
        if SkipSpaces(text)[0] == 45 then (if value <= 0x8000_0000 then Some(-value) else None)
        else (if value < 0x8000_0000 then Some(value) else None)
  {
    hide HexRun, HexValue, SkipSpaces, AfterSign, HasHexPrefix;
  }

  lemma NumberStart(prefix: seq<byte>, digits: seq<byte>, rest: seq<byte>)
    requires IsPrefix(prefix) && AreHexDigits(digits) && digits != []
    ensures
      var s := prefix + (digits + rest);
      s != [] && !AreSpaces(s[..1]) && s[0] != 43 && s[0] != 45
  {
    var s := prefix + (digits + rest);
    assert s[0] == (if prefix == [] then digits[0] else 48) && s[..1] == [s[0]];
  }

  lemma PrefixIsRead(prefix: seq<byte>, digits: seq<byte>, rest: seq<byte>)
    requires IsPrefix(prefix) && AreHexDigits(digits) && digits != []
    requires prefix == [] ==> rest == [] || (rest[0] != 120 && rest[0] != 88)
    ensures HasHexPrefix(prefix + (digits + rest)) <==> prefix != []
    ensures prefix != [] ==> (prefix + (digits + rest))[2..] == digits + rest
  {
    var s := prefix + (digits + rest);
    if prefix == [] {
      assert s == digits + rest;
      assert |s| > 1 ==> s[1] == (if |digits| > 1 then digits[1] else rest[0]);
    } else {
      assert s[2] == digits[0] && s[0] == prefix[0] && s[1] == prefix[1];
    }
  }

  /** No digit where the number should be: an exception. */
  lemma NoStoiExtraction(spaces: seq<byte>, sign: seq<byte>, rest: seq<byte>)
    requires AreSpaces(spaces) && (sign == [] || sign == [43] || sign == [45])
    requires rest != [] ==> IsNoHexDigit(rest[0])
    requires rest != [] && sign == [] ==> !AreSpaces(rest[..1]) && rest[0] != 43 && rest[0] != 45
    ensures StoiHex(spaces + (sign + rest)) == None
  {
    var start := sign + rest;
    assert start != [] ==> start[..1] == [start[0]];
    assert rest != [] ==> rest[..1] == [rest[0]];
    SpacesAreSkipped(spaces, start);
    assert AfterSign(start) == rest;
    HexRunStops([], rest);
    assert [] + rest == rest;
  }
}
