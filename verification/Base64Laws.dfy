/** Round trips of the Base64 codec, and exactly when the decoded length is predicted right. */
module Base64Laws {
  import opened Bytes
  import opened Base64

  const UPPER: string := "ABCDEFGHIJKLMNOPQRSTUVWXYZ"
  const LOWER: string := "abcdefghijklmnopqrstuvwxyz"
  const DIGITS: string := "0123456789"

  /** The 64 characters in the order of their values. */
  const ALPHABET: string := UPPER + LOWER + DIGITS + "+/"

  lemma UpperInOrder(v: nat)
    ensures v < 26 ==> UPPER[v] as int == 65 + v
  {
  }

  lemma LowerInOrder(v: nat)
    ensures v < 26 ==> LOWER[v] as int == 97 + v
  {
  }

  lemma DigitsInOrder(v: nat)
    ensures v < 10 ==> DIGITS[v] as int == 48 + v
  {
  }

  lemma AlphabetPlaces(v: nat)
    ensures |ALPHABET| == 64
    ensures v < 64 ==>
      ALPHABET[v] ==
        if v < 26 then UPPER[v] else if v < 52 then LOWER[v - 26] else if v < 62 then DIGITS[v - 52] else "+/"[v - 62]
  {
  }

  lemma AlphabetInOrder(v: nat)
    requires v < 64
    ensures |ALPHABET| == 64 && Letter(v) == ALPHABET[v] as int && Sextet(Letter(v)) == v
  {
    AlphabetPlaces(v);
    LetterSextet(v);
    hide Sextet;
    if v < 26 {
      UpperInOrder(v);
    } else if v < 52 {
      LowerInOrder(v - 26);
    } else if v < 62 {
      DigitsInOrder(v - 52);
    }
  }

  /** Every other character has no value. */
  lemma NoOtherLetters(c: byte)
    requires forall v :: 0 <= v < |ALPHABET| ==> ALPHABET[v] as int != c
    ensures !IsLetter(c)
  {
    hide Letter;
    if IsLetter(c) {
      SextetLetter(c);
      AlphabetInOrder(Sextet(c));
    }
  }

  predicate AllLetters(text: seq<byte>) {
    forall i :: 0 <= i < |text| ==> IsLetter(text[i])
  }

  /** Correctly padded text with zero pad bits (RFC 4648, sections 3.5 and 4). */
  predicate Canonical(text: seq<byte>) {
    if |text| < 4 then text == []
    else if |text| == 4 && text[3] == EQUALS && text[2] == EQUALS then
      AllLetters(text[..2]) && Sextet(text[1]) % 16 == 0
    else if |text| == 4 && text[3] == EQUALS then
      AllLetters(text[..3]) && Sextet(text[2]) % 4 == 0
    else AllLetters(text[..4]) && Canonical(text[4..])
  }

  lemma LetterIsNoPadding(c: byte)
    requires IsLetter(c)
    ensures c != EQUALS && c < 128
  {
  }

  lemma {:induction false} LettersBeforePadding(letters: seq<byte>, rest: seq<byte>)
    requires AllLetters(letters)
    ensures BeforePadding(letters + rest) == letters + BeforePadding(rest)
    decreases |letters|
  {
    hide Sextet, IsLetter;
    if letters == [] {
      assert letters + rest == rest;
    } else {
      LetterIsNoPadding(letters[0]);
      assert (letters + rest)[1..] == letters[1..] + rest;
      LettersBeforePadding(letters[1..], rest);
    }
  }

  /** Decoding proceeds four letters at a time. */
  lemma DecodeFourLetters(group: seq<byte>, rest: seq<byte>)
    requires |group| == 4 && AllLetters(group)
    ensures Decode(group + rest) == DecodeFour(Accumulate(group)) + Decode(rest)
  {
    hide Sextet, IsLetter, AllLetters, DecodeFour, Accumulate, BeforePadding;
    LettersBeforePadding(group, rest);
    GroupsAppend(group, BeforePadding(rest));
    assert group[..4] == group && group[4..] == [];
  }

  /** A last group of two or three letters and its padding. */
  lemma DecodeLastGroup(letters: seq<byte>, padding: seq<byte>)
    requires |letters| < 4 && AllLetters(letters)
    requires padding == [] || padding[0] == EQUALS
    ensures Decode(letters + padding) == DecodeTail(letters)
  {
    hide Sextet, IsLetter, AllLetters, Accumulate;
    LettersBeforePadding(letters, padding);
    assert letters + [] == letters;
  }

  lemma AccumulateLetter(text: seq<byte>, c: byte)
    requires IsLetter(c)
    ensures Accumulate(text + [c]) == Accumulate(text) * 64 + Sextet(c)
  {
    assert (text + [c])[..|text|] == text;
  }

  lemma AccumulateTwo(p: byte, q: byte)
    requires IsLetter(p) && IsLetter(q)
    ensures Accumulate([p, q]) == Sextet(p) * 64 + Sextet(q)
  {
    hide Sextet, IsLetter;
    AccumulateLetter([], p);
    AccumulateLetter([p], q);
    assert [] + [p] == [p] && [p] + [q] == [p, q];
  }

  lemma AccumulateThree(p: byte, q: byte, r: byte)
    requires IsLetter(p) && IsLetter(q) && IsLetter(r)
    ensures Accumulate([p, q, r]) == (Sextet(p) * 64 + Sextet(q)) * 64 + Sextet(r)
  {
    hide Sextet, IsLetter, Accumulate;
    AccumulateTwo(p, q);
    AccumulateLetter([p, q], r);
    assert [p, q] + [r] == [p, q, r];
  }

  lemma AccumulateFour(p: byte, q: byte, r: byte, s: byte)
    requires IsLetter(p) && IsLetter(q) && IsLetter(r) && IsLetter(s)
    ensures Accumulate([p, q, r, s]) == ((Sextet(p) * 64 + Sextet(q)) * 64 + Sextet(r)) * 64 + Sextet(s)
  {
    hide Sextet, IsLetter, Accumulate;
    AccumulateThree(p, q, r);
    AccumulateLetter([p, q, r], s);
    assert [p, q, r] + [s] == [p, q, r, s];
  }

  // ---------- Decode after Encode ----------

  lemma MultipleAtLeast(d: nat, k: int)
    requires k >= 1
    ensures d * k >= d
  {
  }

  /** Quotient and remainder are unique. */
  lemma DivMod(v: nat, d: nat, q: nat, r: nat)
    requires r < d && v == d * q + r
    ensures v / d == q && v % d == r
  {
    var (e, m) := (v / d, v % d);
    assert v == d * e + m && m < d;
    assert d * (e - q) == r - m && d * (q - e) == m - r;
    if e > q {
      MultipleAtLeast(d, e - q);
    } else if e < q {
      MultipleAtLeast(d, q - e);
    }
  }

  lemma ThreeBytes(a: byte, b: byte, c: byte)
    ensures DecodeFour(65536 * a + 256 * b + c) == [a, b, c]
  {
    var v := 65536 * a + 256 * b + c;
    DivMod(v, 65536, a, 256 * b + c);
    DivMod(v, 256, 256 * a + b, c);
    DivMod(256 * a + b, 256, a, b);
  }

  lemma SplitThree(a: byte, b: byte, c: byte)
    ensures ((a / 4 * 64 + (a % 4 * 16 + b / 16)) * 64 + (b % 16 * 4 + c / 64)) * 64 + c % 64 == 65536 * a + 256 * b + c
  {
    var (a1, a0, b1, b0, c1, c0) := (a / 4, a % 4, b / 16, b % 16, c / 64, c % 64);
    assert a == 4 * a1 + a0 && b == 16 * b1 + b0 && c == 64 * c1 + c0;
  }

  lemma EncodedLetters(a: byte, b: byte, c: byte)
    ensures
      var t := EncodeThree(a, b, c);
      && IsLetter(t[0]) && IsLetter(t[1]) && IsLetter(t[2]) && IsLetter(t[3])
      && Sextet(t[0]) == a / 4 && Sextet(t[1]) == a % 4 * 16 + b / 16
      && Sextet(t[2]) == b % 16 * 4 + c / 64 && Sextet(t[3]) == c % 64
  {
    hide Letter, Sextet;
    LetterSextet(a / 4);
    LetterSextet(a % 4 * 16 + b / 16);
    LetterSextet(b % 16 * 4 + c / 64);
    LetterSextet(c % 64);
  }

  lemma DecodeThree(a: byte, b: byte, c: byte)
    ensures AllLetters(EncodeThree(a, b, c))
    ensures DecodeFour(Accumulate(EncodeThree(a, b, c))) == [a, b, c]
  {
    EncodedLetters(a, b, c);
    hide Letter, Sextet, IsLetter, EncodeThree, DecodeFour, Accumulate;
    var t := EncodeThree(a, b, c);
    AccumulateFour(t[0], t[1], t[2], t[3]);
    assert t == [t[0], t[1], t[2], t[3]];
    SplitThree(a, b, c);
    ThreeBytes(a, b, c);
  }

  lemma EncodedEnd(a: byte, b: byte)
    ensures IsLetter(Letter(a / 4)) && Sextet(Letter(a / 4)) == a / 4
    ensures IsLetter(Letter(a % 4 * 16)) && Sextet(Letter(a % 4 * 16)) == a % 4 * 16
    ensures IsLetter(Letter(a % 4 * 16 + b / 16)) && Sextet(Letter(a % 4 * 16 + b / 16)) == a % 4 * 16 + b / 16
    ensures IsLetter(Letter(b % 16 * 4)) && Sextet(Letter(b % 16 * 4)) == b % 16 * 4
  {
    hide Letter, Sextet;
    LetterSextet(a / 4);
    LetterSextet(a % 4 * 16);
    LetterSextet(a % 4 * 16 + b / 16);
    LetterSextet(b % 16 * 4);
  }

  lemma DecodeOneByte(a: byte)
    ensures Decode(Encode([a])) == [a]
  {
    var p, q := Letter(a / 4), Letter(a % 4 * 16);
    EncodedEnd(a, 0);
    assert Encode([a]) == [p, q] + [EQUALS, EQUALS];
    hide Letter, Sextet, IsLetter, Decode, Accumulate, Encode;
    AccumulateTwo(p, q);
    DecodeLastGroup([p, q], [EQUALS, EQUALS]);
    assert (a / 4 * 64 + a % 4 * 16) / 16 % 256 == a;
  }

  lemma DecodeTwoBytes(a: byte, b: byte)
    ensures Decode(Encode([a, b])) == [a, b]
  {
    var p, q, r := Letter(a / 4), Letter(a % 4 * 16 + b / 16), Letter(b % 16 * 4);
    EncodedEnd(a, b);
    assert Encode([a, b]) == [p, q, r] + [EQUALS];
    hide Letter, Sextet, IsLetter, Decode, Accumulate, Encode;
    AccumulateThree(p, q, r);
    DecodeLastGroup([p, q, r], [EQUALS]);
    SplitTwo(a, b);
  }

  lemma SplitTwo(a: byte, b: byte)
    ensures
      var v := (a / 4 * 64 + (a % 4 * 16 + b / 16)) * 64 + b % 16 * 4;
      v / 1024 % 256 == a && v / 4 % 256 == b
  {
    var (a1, a0, b1, b0) := (a / 4, a % 4, b / 16, b % 16);
    assert a == 4 * a1 + a0 && b == 16 * b1 + b0;
    var v := (a / 4 * 64 + (a % 4 * 16 + b / 16)) * 64 + b % 16 * 4;
    assert v == 1024 * a + 4 * b;
    DivMod(v, 1024, a, 4 * b);
    DivMod(v, 4, 256 * a + b, 0);
    DivMod(256 * a + b, 256, a, b);
  }

  lemma EncodeThreeMore(data: seq<byte>)
    requires |data| >= 3
    ensures Encode(data) == EncodeThree(data[0], data[1], data[2]) + Encode(data[3..])
  {
    hide Letter, EncodeThree;
  }

  lemma FirstThree(data: seq<byte>)
    requires |data| >= 3
    ensures data == [data[0], data[1], data[2]] + data[3..]
  {
  }

  /** Decoding an encoding returns the original bytes. */
  lemma {:induction false} DecodeEncode(data: seq<byte>)
    ensures Decode(Encode(data)) == data
  {
    if |data| == 0 {
      assert Decode([]) == [];
    } else if |data| == 1 {
      DecodeOneByte(data[0]);
      assert data == [data[0]];
    } else if |data| == 2 {
      DecodeTwoBytes(data[0], data[1]);
      assert data == [data[0], data[1]];
    } else {
      EncodeThreeMore(data);
      FirstThree(data);
      hide Letter, Decode, DecodeFour, Accumulate, AllLetters, EncodeThree, Encode;
      DecodeThree(data[0], data[1], data[2]);
      DecodeFourLetters(EncodeThree(data[0], data[1], data[2]), Encode(data[3..]));
      DecodeEncode(data[3..]);
    }
  }

  /** Every encoding is canonical. */
  lemma {:induction false} EncodeCanonical(data: seq<byte>)
    ensures Canonical(Encode(data))
  {
    if |data| == 1 || |data| == 2 {
      EncodedEnd(data[0], if |data| == 2 then data[1] else 0);
      hide Letter, Sextet, IsLetter;
      var t := Encode(data);
      assert IsLetter(t[0]) && IsLetter(t[1]) && (|data| == 2 ==> IsLetter(t[2]) && t[2] != EQUALS);
    } else if |data| >= 3 {
      DecodeThree(data[0], data[1], data[2]);
      EncodedLetters(data[0], data[1], data[2]);
      hide Letter, Sextet, IsLetter, EncodeThree;
      var group := EncodeThree(data[0], data[1], data[2]);
      LetterIsNoPadding(group[3]);
      EncodeCanonical(data[3..]);
      assert Encode(data)[..4] == group && Encode(data)[4..] == Encode(data[3..]);
    }
  }

  // ---------- Encode after Decode ----------

  lemma JoinFour(p: nat, q: nat, r: nat, s: nat)
    requires p < 64 && q < 64 && r < 64 && s < 64
    ensures
      var d := DecodeFour(((p * 64 + q) * 64 + r) * 64 + s);
      |d| == 3 && d[0] / 4 == p && d[0] % 4 * 16 + d[1] / 16 == q && d[1] % 16 * 4 + d[2] / 64 == r && d[2] % 64 == s
  {
    var (q1, q0, r1, r0) := (q / 16, q % 16, r / 4, r % 4);
    assert q == 16 * q1 + q0 && r == 4 * r1 + r0;
    var (a, b, c) := (4 * p + q1, 16 * q0 + r1, 64 * r0 + s);
    assert ((p * 64 + q) * 64 + r) * 64 + s == 65536 * a + 256 * b + c;
    ThreeBytes(a, b, c);
    DivMod(a, 4, p, q1);
    DivMod(b, 16, q0, r1);
    DivMod(c, 64, r0, s);
  }

  /** Three bytes whose six-bit parts are those of four letters are encoded as these letters. */
  lemma EncodeThreeOf(a: byte, b: byte, c: byte, p: byte, q: byte, r: byte, s: byte)
    requires IsLetter(p) && IsLetter(q) && IsLetter(r) && IsLetter(s)
    requires a / 4 == Sextet(p) && a % 4 * 16 + b / 16 == Sextet(q)
    requires b % 16 * 4 + c / 64 == Sextet(r) && c % 64 == Sextet(s)
    ensures EncodeThree(a, b, c) == [p, q, r, s]
  {
    hide Letter, Sextet;
    SextetLetter(p);
    SextetLetter(q);
    SextetLetter(r);
    SextetLetter(s);
  }

  lemma EncodeDecodeFour(p: byte, q: byte, r: byte, s: byte)
    requires IsLetter(p) && IsLetter(q) && IsLetter(r) && IsLetter(s)
    ensures
      var d := DecodeFour(Accumulate([p, q, r, s]));
      |d| == 3 && EncodeThree(d[0], d[1], d[2]) == [p, q, r, s]
  {
    hide Letter, Sextet, Accumulate, DecodeFour, EncodeThree;
    AccumulateFour(p, q, r, s);
    JoinFour(Sextet(p), Sextet(q), Sextet(r), Sextet(s));
    var d := DecodeFour(Accumulate([p, q, r, s]));
    EncodeThreeOf(d[0], d[1], d[2], p, q, r, s);
  }

  lemma EncodeDecodeTwo(p: byte, q: byte)
    requires IsLetter(p) && IsLetter(q) && Sextet(q) % 16 == 0
    ensures Encode(Decode([p, q, EQUALS, EQUALS])) == [p, q, EQUALS, EQUALS]
  {
    AccumulateTwo(p, q);
    assert [p, q, EQUALS, EQUALS] == [p, q] + [EQUALS, EQUALS];
    SextetLetter(p);
    SextetLetter(q);
    hide Letter, Sextet, Accumulate, Decode;
    DecodeLastGroup([p, q], [EQUALS, EQUALS]);
    JoinTwo(Sextet(p), Sextet(q));
  }

  lemma EncodeDecodeThree(p: byte, q: byte, r: byte)
    requires IsLetter(p) && IsLetter(q) && IsLetter(r) && Sextet(r) % 4 == 0
    ensures Encode(Decode([p, q, r, EQUALS])) == [p, q, r, EQUALS]
  {
    AccumulateThree(p, q, r);
    assert [p, q, r, EQUALS] == [p, q, r] + [EQUALS];
    SextetLetter(p);
    SextetLetter(q);
    SextetLetter(r);
    hide Letter, Sextet, Accumulate, Decode;
    DecodeLastGroup([p, q, r], [EQUALS]);
    JoinThree(Sextet(p), Sextet(q), Sextet(r));
  }

  lemma JoinTwo(p: nat, q: nat)
    requires p < 64 && q < 64 && q % 16 == 0
    ensures
      var a := (p * 64 + q) / 16 % 256;
      a / 4 == p && a % 4 * 16 == q
  {
    var q1 := q / 16;
    DivMod(p * 64 + q, 16, 4 * p + q1, 0);
    DivMod(4 * p + q1, 4, p, q1);
  }

  lemma JoinThree(p: nat, q: nat, r: nat)
    requires p < 64 && q < 64 && r < 64 && r % 4 == 0
    ensures
      var v := (p * 64 + q) * 64 + r;
      var (a, b) := (v / 1024 % 256, v / 4 % 256);
      a / 4 == p && a % 4 * 16 + b / 16 == q && b % 16 * 4 == r
  {
    var (q1, q0, r1) := (q / 16, q % 16, r / 4);
    assert q == 16 * q1 + q0 && r == 4 * r1;
    var (a, b) := (4 * p + q1, 16 * q0 + r1);
    var v := (p * 64 + q) * 64 + r;
    assert v == 1024 * a + 4 * b;
    DivMod(v, 1024, a, 4 * b);
    DivMod(v, 4, 256 * a + b, 0);
    DivMod(256 * a + b, 256, a, b);
    DivMod(a, 4, p, q1);
    DivMod(b, 16, q0, r1);
  }

  /** Encoding a decoding returns every canonical text, so the two are inverse bijections. */
  lemma {:induction false} EncodeDecode(text: seq<byte>)
    requires Canonical(text)
    ensures Encode(Decode(text)) == text
    decreases |text|
  {
    hide Letter, Sextet, IsLetter, Decode, DecodeFour, Accumulate, EncodeThree;
    if text == [] {
      assert Decode([]) == [] by { DecodeEncode([]); }
    } else if |text| == 4 && text[3] == EQUALS && text[2] == EQUALS {
      assert IsLetter(text[..2][0]) && IsLetter(text[..2][1]);
      EncodeDecodeTwo(text[0], text[1]);
      assert text == [text[0], text[1], EQUALS, EQUALS];
    } else if |text| == 4 && text[3] == EQUALS {
      assert IsLetter(text[..3][0]) && IsLetter(text[..3][1]) && IsLetter(text[..3][2]);
      EncodeDecodeThree(text[0], text[1], text[2]);
      assert text == [text[0], text[1], text[2], EQUALS];
    } else {
      FourMore(text);
      EncodeDecode(text[4..]);
    }
  }

  lemma FourMore(text: seq<byte>)
    requires |text| >= 4 && AllLetters(text[..4])
    ensures Encode(Decode(text)) == text[..4] + Encode(Decode(text[4..]))
  {
    hide Letter, Sextet, IsLetter, Decode, DecodeFour, Accumulate, EncodeThree;
    var group := text[..4];
    assert group == [text[0], text[1], text[2], text[3]];
    assert IsLetter(group[0]) && IsLetter(group[1]) && IsLetter(group[2]) && IsLetter(group[3]);
    EncodeDecodeFour(text[0], text[1], text[2], text[3]);
    var d := DecodeFour(Accumulate(group));
    assert text == group + text[4..];
    DecodeFourLetters(group, text[4..]);
    assert (d + Decode(text[4..]))[3..] == Decode(text[4..]);
  }

  // ---------- The bits of an encoding ----------

  /** The six bits that a letter stands for, highest first. */
  function SixBits(c: byte): (bits: seq<bool>)
    requires IsLetter(c)
    ensures |bits| == 6
  {
    ByteBits(Sextet(c))[2..]
  }

  function LetterBits(letters: seq<byte>): (bits: seq<bool>)
    requires AllLetters(letters)
    ensures |bits| == 6 * |letters|
  {
    if letters == [] then [] else SixBits(letters[0]) + LetterBits(letters[1..])
  }

  function ZeroBits(n: nat): (bits: seq<bool>)
    ensures |bits| == n
  {
    seq(n, _ => false)
  }

  lemma {:induction false} ToNatAppend(a: seq<bool>, b: seq<bool>)
    ensures ToNat(a + b) == ToNat(a) * Power2(|b|) + ToNat(b)
    decreases |b|
  {
    if b == [] {
      ToNatEmpty();
      assert a + b == a;
    } else {
      hide ToNat;
      var n := |b| - 1;
      ToNatAppend(a, b[..n]);
      ToNatSnoc(a + b[..n], b[n]);
      ToNatSnoc(b[..n], b[n]);
      assert a + b[..n] + [b[n]] == a + b && b[..n] + [b[n]] == b;
      DoubledProduct(ToNat(a), Power2(n));
    }
  }

  lemma DoubledProduct(a: nat, p: nat)
    ensures a * (2 * p) == 2 * (a * p)
  {
  }

  lemma PowersOfTwo()
    ensures Power2(0) == 1 && Power2(2) == 4 && Power2(4) == 16 && Power2(6) == 64 && Power2(8) == 256
  {
    assert Power2(2) == 4;
    assert Power2(4) == 4 * Power2(2);
    assert Power2(6) == 4 * Power2(4);
    assert Power2(8) == 4 * Power2(6);
  }

  /** The lower bits of a byte are its remainder. */
  lemma SuffixValue(v: byte, k: nat)
    requires k == 2 || k == 4 || k == 6
    ensures ToNat(ByteBits(v)[..k]) == v / Scale(k) && ToNat(ByteBits(v)[k..]) == v % Scale(k)
  {
    PrefixValue(v, k);
    FromBitsOf(v);
    PowersOfTwo();
    var (high, low) := (ByteBits(v)[..k], ByteBits(v)[k..]);
    assert Power2(8 - k) == Scale(k);
    hide ByteBits, ToNat, Power2, Scale;
    assert high + low == ByteBits(v);
    ToNatAppend(high, low);
    ToNatBound(low);
    DivMod(v, Scale(k), ToNat(high), ToNat(low));
  }

  /** Six bits are those of the letter for their number. */
  lemma SixBitsOf(v: nat, bits: seq<bool>)
    requires v < 64 && |bits| == 6 && ToNat(bits) == v
    ensures IsLetter(Letter(v)) && SixBits(Letter(v)) == bits
  {
    LetterSextet(v);
    SuffixValue(v, 2);
    hide ByteBits, ToNat, Letter, Sextet;
    ToNatInjective(ByteBits(v)[2..], bits);
  }

  lemma FirstSix(a: byte)
    ensures IsLetter(Letter(a / 4)) && SixBits(Letter(a / 4)) == ByteBits(a)[..6]
  {
    SuffixValue(a, 6);
    hide ByteBits, ToNat, Letter, Sextet;
    SixBitsOf(a / 4, ByteBits(a)[..6]);
  }

  lemma SecondSix(a: byte, high: seq<bool>, b: nat)
    requires |high| == 4 && b < 16 && ToNat(high) == b
    ensures IsLetter(Letter(a % 4 * 16 + b)) && SixBits(Letter(a % 4 * 16 + b)) == ByteBits(a)[6..] + high
  {
    SuffixValue(a, 6);
    PowersOfTwo();
    hide ByteBits, ToNat, Letter, Sextet, Power2;
    ToNatAppend(ByteBits(a)[6..], high);
    SixBitsOf(a % 4 * 16 + b, ByteBits(a)[6..] + high);
  }

  lemma ThirdSix(b: byte, high: seq<bool>, c: nat)
    requires |high| == 2 && c < 4 && ToNat(high) == c
    ensures IsLetter(Letter(b % 16 * 4 + c)) && SixBits(Letter(b % 16 * 4 + c)) == ByteBits(b)[4..] + high
  {
    SuffixValue(b, 4);
    PowersOfTwo();
    hide ByteBits, ToNat, Letter, Sextet, Power2;
    ToNatAppend(ByteBits(b)[4..], high);
    SixBitsOf(b % 16 * 4 + c, ByteBits(b)[4..] + high);
  }

  lemma FourthSix(c: byte)
    ensures IsLetter(Letter(c % 64)) && SixBits(Letter(c % 64)) == ByteBits(c)[2..]
  {
    SuffixValue(c, 2);
    hide ByteBits, ToNat, Letter, Sextet;
    SixBitsOf(c % 64, ByteBits(c)[2..]);
  }

  lemma {:induction false} ZeroValue(n: nat)
    ensures ToNat(ZeroBits(n)) == 0
  {
    if n > 0 {
      assert ZeroBits(n)[..n - 1] == ZeroBits(n - 1);
      ZeroValue(n - 1);
    }
  }

  lemma LettersOf(p: byte, q: byte, rest: seq<byte>)
    requires IsLetter(p) && IsLetter(q) && AllLetters(rest)
    ensures AllLetters([p, q] + rest) && LetterBits([p, q] + rest) == SixBits(p) + SixBits(q) + LetterBits(rest)
  {
    hide Sextet, IsLetter, SixBits;
    assert ([p, q] + rest)[1..] == [q] + rest && ([q] + rest)[1..] == rest;
  }

  lemma ThreeBytesSixes(a: byte, b: byte, c: byte)
    ensures
      var t := EncodeThree(a, b, c);
      && AllLetters(t)
      && SixBits(t[0]) == ByteBits(a)[..6] && SixBits(t[1]) == ByteBits(a)[6..] + ByteBits(b)[..4]
      && SixBits(t[2]) == ByteBits(b)[4..] + ByteBits(c)[..2] && SixBits(t[3]) == ByteBits(c)[2..]
  {
    SuffixValue(b, 4);
    SuffixValue(c, 2);
    hide ByteBits, ToNat, Letter, Sextet, IsLetter, SixBits;
    FirstSix(a);
    SecondSix(a, ByteBits(b)[..4], b / 16);
    ThirdSix(b, ByteBits(c)[..2], c / 64);
    FourthSix(c);
  }

  lemma Rejoin(x: seq<bool>, y: seq<bool>, z: seq<bool>, rest: seq<bool>)
    requires |x| == |y| == |z| == 8
    ensures x[..6] + (x[6..] + y[..4]) + (y[4..] + z[..2] + z[2..] + rest) == x + y + z + rest
  {
  }

  lemma ThreeBytesBits(a: byte, b: byte, c: byte, rest: seq<byte>)
    requires AllLetters(rest)
    ensures AllLetters(EncodeThree(a, b, c) + rest)
    ensures LetterBits(EncodeThree(a, b, c) + rest) == ByteBits(a) + ByteBits(b) + ByteBits(c) + LetterBits(rest)
  {
    hide ByteBits, IsLetter, SixBits, EncodeThree, LetterBits;
    ThreeBytesSixes(a, b, c);
    var t := EncodeThree(a, b, c);
    LettersOf(t[2], t[3], rest);
    LettersOf(t[0], t[1], [t[2], t[3]] + rest);
    assert t + rest == [t[0], t[1]] + ([t[2], t[3]] + rest);
    Rejoin(ByteBits(a), ByteBits(b), ByteBits(c), LetterBits(rest));
  }

  /** The letters of an encoding, without its padding. */
  function LettersOfEncoding(data: seq<byte>): (letters: seq<byte>) {
    BeforePadding(Encode(data))
  }

  lemma OneByteBits(a: byte)
    ensures AllLetters(LettersOfEncoding([a])) && LetterBits(LettersOfEncoding([a])) == ByteBits(a) + ZeroBits(4)
  {
    var (p, q) := (Letter(a / 4), Letter(a % 4 * 16 + 0));
    ZeroValue(4);
    assert Encode([a]) == [p, q] + [EQUALS, EQUALS];
    hide Encode, ByteBits, Letter, Sextet, SixBits, ToNat, ZeroBits;
    FirstSix(a);
    SecondSix(a, ZeroBits(4), 0);
    LettersBeforePadding([p, q], [EQUALS, EQUALS]);
    assert [p, q] + [] == [p, q];
    LettersOf(p, q, []);
    assert ByteBits(a)[..6] + ByteBits(a)[6..] == ByteBits(a);
  }

  lemma TwoBytesBits(a: byte, b: byte)
    ensures AllLetters(LettersOfEncoding([a, b]))
    ensures LetterBits(LettersOfEncoding([a, b])) == ByteBits(a) + ByteBits(b) + ZeroBits(2)
  {
    var (p, q, r) := (Letter(a / 4), Letter(a % 4 * 16 + b / 16), Letter(b % 16 * 4 + 0));
    ZeroValue(2);
    assert Encode([a, b]) == [p, q, r] + [EQUALS];
    SuffixValue(b, 4);
    hide Encode, ByteBits, Letter, Sextet, SixBits, ToNat, ZeroBits;
    FirstSix(a);
    SecondSix(a, ByteBits(b)[..4], b / 16);
    ThirdSix(b, ZeroBits(2), 0);
    LettersBeforePadding([p, q, r], [EQUALS]);
    assert [p, q] + [r] == [p, q, r] && [p, q, r] + [] == [p, q, r] && [r][1..] == [];
    LettersOf(p, q, [r]);
    assert ByteBits(a)[..6] + ByteBits(a)[6..] == ByteBits(a) && ByteBits(b)[..4] + ByteBits(b)[4..] == ByteBits(b);
  }

  /** How many zero bits fill up the last letter. */
  function FillBits(n: nat): (k: nat) {
    if n % 3 == 1 then 4 else if n % 3 == 2 then 2 else 0
  }

  /**
    The six bits of each letter, one after the other, are the bits of the data, filled up with zero
    bits to a whole number of letters (RFC 4648, section 4).
  */
  lemma {:induction false} EncodingBits(data: seq<byte>)
    ensures AllLetters(LettersOfEncoding(data))
    ensures LetterBits(LettersOfEncoding(data)) == Bits(data) + ZeroBits(FillBits(|data|))
    decreases |data|
  {
    hide ByteBits, IsLetter, LetterBits, BeforePadding, Encode, ZeroBits, Bits, LettersOfEncoding;
    if data == [] {
      NoBits();
    } else if |data| == 1 {
      assert data == [data[0]];
      OneByteBits(data[0]);
      ShortBits(data);
    } else if |data| == 2 {
      assert data == [data[0], data[1]];
      TwoBytesBits(data[0], data[1]);
      ShortBits(data);
    } else {
      EncodingBits(data[3..]);
      ThreeMoreBits(data);
      assert FillBits(|data|) == FillBits(|data[3..]|);
    }
  }

  lemma ShortBits(data: seq<byte>)
    ensures |data| == 1 ==> Bits(data) == ByteBits(data[0])
    ensures |data| == 2 ==> Bits(data) == ByteBits(data[0]) + ByteBits(data[1])
  {
    hide ByteBits;
    if |data| == 2 {
      assert Bits(data[1..]) == ByteBits(data[1]);
    }
  }

  lemma NoBits()
    ensures AllLetters(LettersOfEncoding([])) && LetterBits(LettersOfEncoding([])) == Bits([]) + ZeroBits(0)
  {
  }

  lemma ThreeMoreBits(data: seq<byte>)
    requires |data| >= 3 && AllLetters(LettersOfEncoding(data[3..]))
    ensures AllLetters(LettersOfEncoding(data))
    ensures LetterBits(LettersOfEncoding(data)) == ByteBits(data[0]) + ByteBits(data[1]) + ByteBits(data[2])
                                                    + LetterBits(LettersOfEncoding(data[3..]))
    ensures Bits(data) == ByteBits(data[0]) + ByteBits(data[1]) + ByteBits(data[2]) + Bits(data[3..])
  {
    EncodeThreeMore(data);
    BitsOfThree(data);
    hide ByteBits, Letter, Sextet, IsLetter, EncodeThree, LetterBits, Encode, BeforePadding, Bits;
    ThreeBytesSixes(data[0], data[1], data[2]);
    LettersBeforePadding(EncodeThree(data[0], data[1], data[2]), Encode(data[3..]));
    ThreeBytesBits(data[0], data[1], data[2], LettersOfEncoding(data[3..]));
  }

  lemma BitsFirst(data: seq<byte>)
    requires data != []
    ensures Bits(data) == ByteBits(data[0]) + Bits(data[1..])
  {
    hide ByteBits;
  }

  lemma JoinBits(x: seq<bool>, y: seq<bool>, z: seq<bool>, rest: seq<bool>)
    ensures x + (y + (z + rest)) == x + y + z + rest
  {
  }

  lemma BitsOfThree(data: seq<byte>)
    requires |data| >= 3
    ensures Bits(data) == ByteBits(data[0]) + ByteBits(data[1]) + ByteBits(data[2]) + Bits(data[3..])
  {
    hide ByteBits, Bits;
    BitsFirst(data);
    BitsFirst(data[1..]);
    BitsFirst(data[2..]);
    assert data[1..][1..] == data[2..] && data[2..][1..] == data[3..];
    JoinBits(ByteBits(data[0]), ByteBits(data[1]), ByteBits(data[2]), Bits(data[3..]));
  }

  // ---------- The decoded length prediction ----------

  function Padding(n: nat): (signs: seq<byte>) {
    seq(n, _ => EQUALS)
  }

  lemma {:induction false} PaddingIsTrailing(letters: seq<byte>, p: nat)
    requires letters != [] && AllLetters(letters)
    ensures TrailingPadding(letters + Padding(p)) == p
  {
    hide Sextet, IsLetter;
    var text := letters + Padding(p);
    if p > 0 {
      assert text[..|text| - 1] == letters + Padding(p - 1);
      PaddingIsTrailing(letters, p - 1);
    } else {
      LetterIsNoPadding(text[|text| - 1]);
    }
  }

  lemma {:induction false} PaddingIsTrailingBehind(front: seq<byte>, p: nat)
    requires front != [] && front[|front| - 1] != EQUALS
    ensures TrailingPadding(front + Padding(p)) == p
  {
    var text := front + Padding(p);
    if p > 0 {
      assert text[..|text| - 1] == front + Padding(p - 1);
      PaddingIsTrailingBehind(front, p - 1);
    }
  }

  /** Any text with p `=` signs at its end: three quarters of its length, less p, is predicted. */
  lemma PredictionFormula(front: seq<byte>, p: nat)
    requires front != [] && front[|front| - 1] != EQUALS
    ensures PredictedLength(front + Padding(p)) == (|front| + p) * 3 / 4 - p
  {
    PaddingIsTrailingBehind(front, p);
  }

  /** The prediction is what the decoder writes exactly when the padding fits the letters. */
  lemma PredictionIsExact(letters: seq<byte>, p: nat)
    requires letters != [] && AllLetters(letters)
    ensures PredictedLength(letters + Padding(p)) == |Decode(letters + Padding(p))| <==> p <= 3 * |letters| % 4
  {
    hide Sextet, IsLetter, AllLetters, TrailingPadding, DecodeGroups;
    PaddingIsTrailing(letters, p);
    LettersBeforePadding(letters, Padding(p));
    assert letters + [] == letters;
    assert BeforePadding(Padding(p)) == [];
  }

  /** What the scan block decoder relies on: for canonical text the prediction is exact. */
  lemma {:induction false} CanonicalPrediction(text: seq<byte>)
    requires Canonical(text) && text != []
    ensures PredictedLength(text) == |Decode(text)|
    ensures text[0] != EQUALS && forall i :: 0 <= i < |text| ==> text[i] < 128
    decreases |text|
  {
    hide Sextet, IsLetter, Decode, DecodeFour, Accumulate, PredictedLength;
    if |text| == 4 && text[3] == EQUALS && text[2] == EQUALS {
      assert IsLetter(text[..2][0]) && IsLetter(text[..2][1]);
      PredictionIsExact(text[..2], 2);
      assert text == text[..2] + Padding(2);
      LetterIsNoPadding(text[0]);
      LetterIsNoPadding(text[1]);
    } else if |text| == 4 && text[3] == EQUALS {
      assert IsLetter(text[..3][0]) && IsLetter(text[..3][1]) && IsLetter(text[..3][2]);
      PredictionIsExact(text[..3], 1);
      assert text == text[..3] + Padding(1);
      LetterIsNoPadding(text[0]);
      LetterIsNoPadding(text[1]);
      LetterIsNoPadding(text[2]);
    } else {
      GroupAhead(text);
      if text[4..] == [] {
        assert text == text[..4] + Padding(0);
        PredictionIsExact(text[..4], 0);
      } else {
        CanonicalPrediction(text[4..]);
        PredictionAfterGroup(text[..4], text[4..]);
        assert text == text[..4] + text[4..];
      }
      forall i | 4 <= i < |text| ensures text[i] < 128 {
        assert text[i] == text[4..][i - 4];
      }
    }
  }

  lemma GroupAhead(text: seq<byte>)
    requires |text| >= 4 && AllLetters(text[..4])
    ensures text[0] != EQUALS && forall i :: 0 <= i < 4 ==> text[i] < 128
  {
    hide Sextet, IsLetter;
    forall i | 0 <= i < 4 ensures text[i] != EQUALS && text[i] < 128 {
      assert text[..4][i] == text[i];
      LetterIsNoPadding(text[i]);
    }
  }

  lemma PredictionAfterGroup(group: seq<byte>, rest: seq<byte>)
    requires |group| == 4 && AllLetters(group)
    requires rest != [] && rest[0] != EQUALS
    ensures PredictedLength(group + rest) == 3 + PredictedLength(rest)
    ensures |Decode(group + rest)| == 3 + |Decode(rest)|
  {
    hide Sextet, IsLetter, AllLetters, Decode, Accumulate, TrailingPadding;
    DecodeFourLetters(group, rest);
    TrailingPaddingAfter(group, rest);
  }

  lemma {:induction false} TrailingPaddingAfter(front: seq<byte>, text: seq<byte>)
    requires text != [] && text[0] != EQUALS
    ensures TrailingPadding(front + text) == TrailingPadding(text)
    decreases |text|
  {
    var n := |text| - 1;
    if text[n] == EQUALS {
      assert (front + text)[..|front| + n] == front + text[..n];
      TrailingPaddingAfter(front, text[..n]);
    }
  }

  /** For a non-empty encoding the prediction is the original length. */
  lemma PredictedEncodedLength(data: seq<byte>)
    requires data != []
    ensures PredictedLength(Encode(data)) == |data|
    ensures Encode(data)[0] != EQUALS
    ensures forall i :: 0 <= i < |Encode(data)| ==> Encode(data)[i] < 128
  {
    EncodeCanonical(data);
    DecodeEncode(data);
    CanonicalPrediction(Encode(data));
  }

  // ---------- Characters outside the alphabet ----------

  const LETTER_A: byte := 65

  /** The letter with the lowest bit of its value set. */
  function MadeOdd(c: byte): (odd: byte)
    requires IsLetter(c)
  {
    if Sextet(c) % 2 == 1 then c else Letter(Sextet(c) + 1)
  }

  /** `<< 6 | 64` sets the lowest bit of the character before. */
  lemma UnknownSetsBit(front: seq<byte>, x: byte, c: byte)
    requires IsLetter(x) && !IsLetter(c)
    ensures Accumulate(front + [x, c]) == Accumulate(front + [MadeOdd(x), LETTER_A])
  {
    assert (front + [x, c])[..|front| + 1] == front + [x] && (front + [x])[..|front|] == front;
    var odd := MadeOdd(x);
    assert (front + [odd, LETTER_A])[..|front| + 1] == front + [odd] && (front + [odd])[..|front|] == front;
    if Sextet(x) % 2 == 0 {
      LetterSextet(Sextet(x) + 1);
    }
    assert Sextet(LETTER_A) == 0 && Sextet(c) == 64;
    hide Sextet, Letter;
  }

  lemma {:induction false} AccumulateAlike(a: seq<byte>, b: seq<byte>, tail: seq<byte>)
    requires Accumulate(a) == Accumulate(b)
    ensures Accumulate(a + tail) == Accumulate(b + tail)
    decreases |tail|
  {
    hide Append6, Sextet;
    if tail == [] {
      assert a + tail == a && b + tail == b;
    } else {
      var n := |tail| - 1;
      AccumulateAlike(a, b, tail[..n]);
      assert (a + tail)[..|a| + n] == a + tail[..n] && (b + tail)[..|b| + n] == b + tail[..n];
    }
  }

  /** Text without padding whose groups accumulate alike decodes alike. */
  lemma GroupsAlike(front: seq<byte>, a: seq<byte>, b: seq<byte>, rest: seq<byte>)
    requires |front| % 4 == 0 && |a| == |b| <= 4 && (|a| == 4 || rest == []) && Accumulate(a) == Accumulate(b)
    ensures DecodeGroups(front + (a + rest)) == DecodeGroups(front + (b + rest))
  {
    hide Accumulate, DecodeFour;
    GroupsAppend(front, a + rest);
    GroupsAppend(front, b + rest);
    if |a| == 4 {
      assert (a + rest)[..4] == a && (a + rest)[4..] == rest && (b + rest)[..4] == b && (b + rest)[4..] == rest;
    } else {
      assert a + rest == a && b + rest == b;
    }
  }

  /**
    A character outside the alphabet, behind a letter of its group, is read as an A that makes the
    letter before it odd.
  */
  lemma UnknownCharacter(front: seq<byte>, group: seq<byte>, x: byte, c: byte, tail: seq<byte>, rest: seq<byte>)
    requires |front| % 4 == 0 && |group| + 2 + |tail| <= 4 && (|group| + 2 + |tail| == 4 || rest == [])
    requires IsLetter(x) && !IsLetter(c) && c != EQUALS
    requires EQUALS !in front && EQUALS !in group && EQUALS !in tail && EQUALS !in rest
    ensures Decode(front + (group + [x, c] + tail + rest))
         == Decode(front + (group + [MadeOdd(x), LETTER_A] + tail + rest))
  {
    var odd := MadeOdd(x);
    assert x != EQUALS && odd != EQUALS;
    UnknownSetsBit(group, x, c);
    hide Sextet, Letter, IsLetter, MadeOdd, Accumulate, DecodeGroups;
    AccumulateAlike(group + [x, c], group + [odd, LETTER_A], tail);
    GroupsAlike(front, group + [x, c] + tail, group + [odd, LETTER_A] + tail, rest);
    NoPadding(front + (group + [x, c] + tail + rest));
    NoPadding(front + (group + [odd, LETTER_A] + tail + rest));
  }

  lemma {:induction false} NoPadding(text: seq<byte>)
    requires EQUALS !in text
    ensures BeforePadding(text) == text
  {
    if text != [] {
      NoPadding(text[1..]);
    }
  }
}
