/** The Base64 codec of include/ldcp/utility.h (RFC 4648, section 4) and its two length predictors. */
module Base64 {
  import opened Bytes

  // ---------- The alphabet ----------

  /** The character for a 6-bit value: the table basis_64, by its ranges. */
  function Letter(v: nat): (c: byte)
    requires v < 64
    ensures c != EQUALS && c < 128
  {
    if v < 26 then 65 + v
    else if v < 52 then 97 + (v - 26)
    else if v < 62 then 48 + (v - 52)
    else if v == 62 then 43
    else 47
  }

  /** The table lut: the 6-bit value of a character, 64 outside the alphabet. */
  function Sextet(c: byte): (v: nat)
    ensures v <= 64
  {
    if 65 <= c <= 90 then c - 65
    else if 97 <= c <= 122 then c - 97 + 26
    else if 48 <= c <= 57 then c - 48 + 52
    else if c == 43 then 62
    else if c == 47 then 63
    else 64
  }

  predicate IsLetter(c: byte) {
    Sextet(c) < 64
  }

  lemma LetterSextet(v: nat)
    requires v < 64
    ensures Sextet(Letter(v)) == v
  {
  }

  lemma SextetLetter(c: byte)
    requires IsLetter(c)
    ensures Letter(Sextet(c)) == c
  {
  }

  // ---------- Specification ----------

  function EncodeThree(a: byte, b: byte, c: byte): (t: seq<byte>)
    ensures |t| == 4
  {
    [Letter(a / 4), Letter(a % 4 * 16 + b / 16), Letter(b % 16 * 4 + c / 64), Letter(c % 64)]
  }

  function Encode(data: seq<byte>): (text: seq<byte>)
    ensures |text| == (|data| + 2) / 3 * 4
  {
    match |data|
    case 0 => []
    case 1 => [Letter(data[0] / 4), Letter(data[0] % 4 * 16), EQUALS, EQUALS]
    case 2 => [Letter(data[0] / 4), Letter(data[0] % 4 * 16 + data[1] / 16), Letter(data[1] % 16 * 4), EQUALS]
    case _ => EncodeThree(data[0], data[1], data[2]) + Encode(data[3..])
  }

  /** `value << 6 | v` for a table value v: 64 sets bit 6, which may be set already. */
  function Append6(value: nat, v: nat): (next: nat)
    requires v <= 64
  {
    if v == 64 && value % 2 == 1 then value * 64 else value * 64 + v
  }

  function Accumulate(text: seq<byte>): (value: nat) {
    if text == [] then 0 else Append6(Accumulate(text[..|text| - 1]), Sextet(text[|text| - 1]))
  }

  function DecodeFour(value: nat): (data: seq<byte>)
    ensures |data| == 3
  {
    [value / 65536 % 256, value / 256 % 256, value % 256]
  }

  /** What the decoder leaves of fewer than four characters. */
  function DecodeTail(text: seq<byte>): (data: seq<byte>)
    requires |text| < 4
    ensures |data| == 3 * |text| / 4
  {
    if |text| == 3 then [Accumulate(text) / 1024 % 256, Accumulate(text) / 4 % 256]
    else if |text| == 2 then [Accumulate(text) / 16 % 256]
    else []
  }

  function DecodeGroups(text: seq<byte>): (data: seq<byte>)
    ensures |data| == 3 * |text| / 4
  {
    if |text| < 4 then DecodeTail(text) else DecodeFour(Accumulate(text[..4])) + DecodeGroups(text[4..])
  }

  /** The characters before the first `=`. */
  function BeforePadding(text: seq<byte>): (prefix: seq<byte>)
    ensures prefix <= text && EQUALS !in prefix
    ensures prefix == text || text[|prefix|] == EQUALS
  {
    if text == [] || text[0] == EQUALS then [] else [text[0]] + BeforePadding(text[1..])
  }

  function Decode(text: seq<byte>): (data: seq<byte>) {
    DecodeGroups(BeforePadding(text))
  }

  /** The number of `=` signs at the end. */
  function TrailingPadding(text: seq<byte>): (n: nat)
    ensures n <= |text|
    ensures forall i :: |text| - n <= i < |text| ==> text[i] == EQUALS
    ensures n < |text| ==> text[|text| - n - 1] != EQUALS
  {
    if text == [] || text[|text| - 1] != EQUALS then 0 else 1 + TrailingPadding(text[..|text| - 1])
  }

  function PredictedLength(text: seq<byte>): (length: int) {
    |text| * 3 / 4 - TrailingPadding(text)
  }

  // ---------- The loops ----------

  function CalculateBase64EncodedLength(srcLen: nat): (length: nat) {
    (srcLen + 2) / 3 * 4
  }

  /** A run of `*p++ = c` on an output buffer. */
  method Store(dest: array<byte>, p: nat, run: seq<byte>) returns (next: nat)
    requires p + |run| <= dest.Length
    modifies dest
    ensures next == p + |run|
    ensures dest[..next] == old(dest[..p]) + run
    ensures forall k :: next <= k < dest.Length ==> dest[k] == old(dest[k])
  {
    next := p;
    for k := 0 to |run|
      invariant next == p + k
      invariant dest[..next] == old(dest[..p]) + run[..k]
      invariant forall k :: next <= k < dest.Length ==> dest[k] == old(dest[k])
    {
      dest[next] := run[k];
      next := next + 1;
    }
  }

  lemma EncodeStep(data: seq<byte>, i: nat)
    requires i + 2 < |data|
    ensures Encode(data[i..]) == EncodeThree(data[i], data[i + 1], data[i + 2]) + Encode(data[i + 3..])
  {
    hide Letter, EncodeThree;
    assert data[i..][3..] == data[i + 3..];
  }

  /** The last one or two bytes, with their padding. */
  method StoreLast(src: array<byte>, srcLen: nat, i: nat, dest: array<byte>, p: nat) returns (next: nat)
    requires src != dest && i <= srcLen <= src.Length && srcLen - i < 3
    requires p + |Encode(src[i..srcLen])| <= dest.Length
    modifies dest
    ensures next == p + |Encode(src[i..srcLen])|
    ensures dest[..next] == old(dest[..p]) + Encode(src[i..srcLen])
    ensures forall k :: next <= k < dest.Length ==> dest[k] == old(dest[k])
  {
    hide Letter, Encode;
    EncodeLast(src[i..srcLen]);
    next := p;
    if i < srcLen {
      if i == srcLen - 1 {
        next := Store(dest, p, [Letter(src[i] / 4), Letter(src[i] % 4 * 16), EQUALS, EQUALS]);
      } else {
        next := Store(dest, p, [Letter(src[i] / 4), Letter(src[i] % 4 * 16 + src[i + 1] / 16),
                                Letter(src[i + 1] % 16 * 4), EQUALS]);
      }
    }
  }

  /** Three bytes as four letters. */
  method StoreThree(src: array<byte>, i: nat, dest: array<byte>, p: nat) returns (next: nat)
    requires src != dest && i + 2 < src.Length && p + 4 <= dest.Length
    modifies dest
    ensures next == p + 4
    ensures dest[..next] == old(dest[..p]) + EncodeThree(src[i], src[i + 1], src[i + 2])
    ensures forall k :: next <= k < dest.Length ==> dest[k] == old(dest[k])
  {
    hide Letter;
    next := Store(dest, p, [Letter(src[i] / 4), Letter(src[i] % 4 * 16 + src[i + 1] / 16),
                            Letter(src[i + 1] % 16 * 4 + src[i + 2] / 64), Letter(src[i + 2] % 64)]);
  }

  /** Writes the encoding of the first srcLen bytes, exactly the predicted number of characters. */
  method Base64Encode(src: array<byte>, srcLen: nat, dest: array<byte>) returns (written: nat)
    requires src != dest && srcLen <= src.Length
    requires CalculateBase64EncodedLength(srcLen) <= dest.Length
    modifies dest
    ensures written == CalculateBase64EncodedLength(srcLen)
    ensures dest[..written] == Encode(src[..srcLen])
    ensures forall k :: written <= k < dest.Length ==> dest[k] == old(dest[k])
  {
    hide Encode, EncodeThree;
    ghost var data := src[..srcLen];
    ghost var groups := 0;
    var i, p := 0, 0;
    assert data[0..] == data;
    while i < srcLen - 2
      invariant i == 3 * groups <= srcLen && p == 4 * groups <= dest.Length
      invariant src[..srcLen] == data
      invariant Encode(data) == dest[..p] + Encode(data[i..])
      invariant forall k :: p <= k < dest.Length ==> dest[k] == old(dest[k])
    {
      EncodeStep(data, i);
      p := StoreThree(src, i, dest, p);
      i, groups := i + 3, groups + 1;
    }
    assert src[i..srcLen] == data[i..];
    written := StoreLast(src, srcLen, i, dest, p);
  }

  lemma EncodeLast(rest: seq<byte>)
    requires |rest| < 3
    ensures |rest| == 0 ==> Encode(rest) == []
    ensures |rest| == 1 ==> Encode(rest) == [Letter(rest[0] / 4), Letter(rest[0] % 4 * 16), EQUALS, EQUALS]
    ensures |rest| == 2 ==>
      Encode(rest) == [Letter(rest[0] / 4), Letter(rest[0] % 4 * 16 + rest[1] / 16), Letter(rest[1] % 16 * 4), EQUALS]
  {
  }

  /** The predictor scans the padding from the end; it needs a character that stops the scan. */
  method CalculateBase64DecodedLength(src: array<byte>, srcLen: nat) returns (length: int)
    requires srcLen <= src.Length
    requires exists i :: 0 <= i < srcLen && src[i] != EQUALS
    ensures length == PredictedLength(src[..srcLen])
  {
    var padding := 0;
    var p := srcLen - 1;
    while src[p] == EQUALS
      decreases p
      invariant 0 <= p < srcLen && padding == srcLen - 1 - p
      invariant exists i :: 0 <= i <= p && src[i] != EQUALS
      invariant TrailingPadding(src[..srcLen]) == padding + TrailingPadding(src[..p + 1])
    {
      assert src[..p + 1][..p] == src[..p];
      p := p - 1;
      padding := padding + 1;
    }
    length := srcLen * 3 / 4 - padding;
  }

  lemma {:induction false} GroupsAppend(a: seq<byte>, b: seq<byte>)
    requires |a| % 4 == 0
    ensures DecodeGroups(a + b) == DecodeGroups(a) + DecodeGroups(b)
  {
    if a == [] {
      assert a + b == b;
    } else {
      assert (a + b)[..4] == a[..4] && (a + b)[4..] == a[4..] + b;
      GroupsAppend(a[4..], b);
    }
  }

  lemma AccumulateStep(chars: seq<byte>, start: nat, n: nat)
    requires start <= n < |chars|
    ensures Accumulate(chars[start..n + 1]) == Append6(Accumulate(chars[start..n]), Sextet(chars[n]))
  {
    assert chars[start..n + 1][..n - start] == chars[start..n];
  }

  lemma GroupDone(chars: seq<byte>, n: nat)
    requires n % 4 == 0 && n + 4 <= |chars|
    ensures DecodeGroups(chars[..n + 4]) == DecodeGroups(chars[..n]) + DecodeFour(Accumulate(chars[n..n + 4]))
  {
    var group := chars[n..n + 4];
    assert chars[..n] + group == chars[..n + 4];
    GroupsAppend(chars[..n], group);
    assert group[..4] == group && group[4..] == [];
  }

  lemma ShortGroup(text: seq<byte>)
    requires |text| < 4
    ensures DecodeGroups(text) == DecodeTail(text)
  {
    hide DecodeTail;
  }

  lemma TailDone(chars: seq<byte>, n: nat)
    requires n % 4 == 0 && n <= |chars| < n + 4
    ensures DecodeGroups(chars) == DecodeGroups(chars[..n]) + DecodeTail(chars[n..])
  {
    hide DecodeGroups, DecodeTail;
    assert chars[..n] + chars[n..] == chars;
    GroupsAppend(chars[..n], chars[n..]);
    ShortGroup(chars[n..]);
  }

  /** The decoder's state after whole groups and `count` more characters: `data` has been written. */
  ghost predicate IsDecoding(chars: seq<byte>, groups: nat, count: nat, value: nat, data: seq<byte>) {
    && count < 4 && 4 * groups + count <= |chars| && |data| == 3 * groups
    && value == Accumulate(chars[4 * groups..4 * groups + count])
    && data == DecodeGroups(chars[..4 * groups])
  }

  lemma DecodingBegins(chars: seq<byte>)
    ensures IsDecoding(chars, 0, 0, 0, [])
  {
    GroupsEmpty();
    hide Accumulate, DecodeGroups;
    assert chars[..0] == [] && chars[0..0] == [];
  }

  /** One more character, which may end a group. */
  lemma DecodingGoesOn(chars: seq<byte>, groups: nat, count: nat, value: nat, data: seq<byte>)
    requires IsDecoding(chars, groups, count, value, data) && 4 * groups + count < |chars|
    ensures
      var next := Append6(value, Sextet(chars[4 * groups + count]));
      if count < 3 then IsDecoding(chars, groups, count + 1, next, data)
      else IsDecoding(chars, groups + 1, 0, 0, data + DecodeFour(next)) && |data| + 3 <= |DecodeGroups(chars)|
  {
    hide Sextet, Append6, Accumulate, DecodeFour;
    AccumulateStep(chars, 4 * groups, 4 * groups + count);
    if count == 3 {
      GroupDone(chars, 4 * groups);
      GroupsEmpty();
      assert chars[4 * groups + 4..4 * groups + 4] == [];
    }
  }

  lemma DecodingEnds(chars: seq<byte>, groups: nat, count: nat, value: nat, data: seq<byte>)
    requires IsDecoding(chars, groups, count, value, data) && 4 * groups + count == |chars|
    ensures
      var tail := chars[4 * groups..];
      |tail| == count && value == Accumulate(tail) && DecodeGroups(chars) == data + DecodeTail(tail)
  {
    hide Accumulate, DecodeGroups, DecodeTail;
    TailDone(chars, 4 * groups);
    assert chars[4 * groups..4 * groups + count] == chars[4 * groups..];
  }

  /** Writes the decoding of the text before its first `=`, and nothing beyond it. */
  method Base64Decode(src: array<byte>, srcLen: nat, dest: array<byte>) returns (written: nat)
    requires src != dest && srcLen <= src.Length
    requires forall i :: 0 <= i < srcLen ==> src[i] < 128
    requires |Decode(src[..srcLen])| <= dest.Length
    modifies dest
    ensures written == |Decode(src[..srcLen])|
    ensures dest[..written] == Decode(src[..srcLen])
    ensures forall k :: written <= k < dest.Length ==> dest[k] == old(dest[k])
  {
    ghost var text := src[..srcLen];
    ghost var chars := BeforePadding(text);
    hide Sextet, Append6, Accumulate, DecodeGroups, DecodeFour, DecodeTail, BeforePadding, IsDecoding;
    ghost var groups, data := 0, [];  // whole groups read so far, and what they decode to
    DecodingBegins(chars);
    var bytesRead := 0;
    written := 0;
    var value, count := 0, 0;
    while bytesRead < srcLen
      invariant 4 * groups + count == bytesRead <= |chars| && count < 4
      invariant src[..srcLen] == text
      invariant IsDecoding(chars, groups, count, value, data)
      invariant written == |data| <= dest.Length && dest[..written] == data
      invariant forall k :: written <= k < dest.Length ==> dest[k] == old(dest[k])
    {
      var c := src[bytesRead];
      assert c == text[bytesRead];
      bytesRead := bytesRead + 1;
      if c == EQUALS {
        break;
      } else {
        DecodingGoesOn(chars, groups, count, value, data);
        value := Append6(value, Sextet(c));
        count := count + 1;
        if count == 4 {
          written := Store(dest, written, DecodeFour(value));
          groups, data := groups + 1, data + DecodeFour(value);
          value, count := 0, 0;
        }
      }
    }
    DecodingEnds(chars, groups, count, value, data);
    written := StoreTail(value, chars[4 * groups..], count, dest, written);
  }

  /** What is left of fewer than four characters. */
  method StoreTail(value: nat, ghost tail: seq<byte>, count: nat, dest: array<byte>, p: nat) returns (next: nat)
    requires |tail| == count < 4 && value == Accumulate(tail) && p + |DecodeTail(tail)| <= dest.Length
    modifies dest
    ensures next == p + |DecodeTail(tail)|
    ensures dest[..next] == old(dest[..p]) + DecodeTail(tail)
    ensures forall k :: next <= k < dest.Length ==> dest[k] == old(dest[k])
  {
    hide Accumulate;
    next := p;
    if count == 3 {
      next := Store(dest, p, [value / 1024 % 256, value / 4 % 256]);
    } else if count == 2 {
      next := Store(dest, p, [value / 16 % 256]);
    }
  }

  lemma GroupsEmpty()
    ensures DecodeGroups([]) == [] && Accumulate([]) == 0
  {
  }
}
