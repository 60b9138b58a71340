/**
  The checksum of include/ldcp/utility.h: a table-free byte-wise CRC-16, specified as
  bit-serial polynomial division, most significant bit first, by x^16 + x^12 + x^5 + 1.
  A uint16_t is a list of 16 bits and a uint8_t one of 8; shifts and xors are list functions.
*/
module Crc16 {
  import opened Bytes

  type Register = r: seq<bool> | |r| == 16 witness seq(16, _ => false)

  /** The checksum before the first byte: 0xFFFF. */
  function Preset(): (preset: Register) {
    seq(16, _ => true)
  }

  // ---------- Specification: division over bit lists ----------

  /** Where the generator 0x1021 (without its leading term) has coefficient 1, highest first. */
  predicate Tap(i: nat) {
    i == 3 || i == 10 || i == 15
  }

  /** One division step: shift one message bit in, subtract the generator on carry. */
  function BitStep(r: Register, bit: bool): (next: Register) {
    var carry := r[0] != bit;
    seq(16, i requires 0 <= i < 16 => (i < 15 && r[i + 1]) != (carry && Tap(i)))
  }

  /** The remainder after all message bits are shifted in. */
  function Divide(r: Register, bits: seq<bool>): (remainder: Register)
    decreases |bits|
  {
    if bits == [] then r else Divide(BitStep(r, bits[0]), bits[1..])
  }

  function Crc(data: seq<byte>): (remainder: Register) {
    Divide(Preset(), Bits(data))
  }

  lemma {:induction false} DivideAppend(r: Register, a: seq<bool>, b: seq<bool>)
    ensures Divide(r, a + b) == Divide(Divide(r, a), b)
    decreases |a|
  {
    hide BitStep;
    if a == [] {
      assert a + b == b;
    } else {
      assert (a + b)[1..] == a[1..] + b;
      DivideAppend(BitStep(r, a[0]), a[1..], b);
    }
  }

  // ---------- The loop of CalculateCRC16 ----------

  /** A uint8_t converted to uint16_t. */
  function Widen(value: seq<bool>): (wide: Register)
    requires |value| == 8
  {
    seq(16, i requires 0 <= i < 16 => i >= 8 && value[i - 8])
  }

  /** The byte the loop computes: checksum >> 8 ^ b, xored with its own upper half. */
  function Folded(checksum: Register, b: byte): (value: seq<bool>)
    ensures |value| == 8
  {
    var value := Xor(checksum[..8], ByteBits(b));
    Xor(value, ShiftRight(value, 4))
  }

  /** The new checksum: three shifted copies of the folded byte xored into the shifted old one. */
  function Spread(checksum: Register, value: seq<bool>): (result: Register)
    requires |value| == 8
  {
    Xor(Xor(Xor(ShiftLeft(checksum, 8), ShiftLeft(Widen(value), 12)), ShiftLeft(Widen(value), 5)), Widen(value))
  }

  /** Addition modulo 2. */
  function Add(a: bool, b: bool): (sum: bool) {
    a != b
  }

  /** Whether `n` is `r` after the message bit `bit`. */
  predicate IsAfterOne(n: Register, r: Register, bit: bool) {
    var c := Add(r[0], bit);
    && n[0] == r[1] && n[1] == r[2] && n[2] == r[3] && n[3] == Add(r[4], c)
    && n[4] == r[5] && n[5] == r[6] && n[6] == r[7] && n[7] == r[8]
    && n[8] == r[9] && n[9] == r[10] && n[10] == Add(r[11], c) && n[11] == r[12]
    && n[12] == r[13] && n[13] == r[14] && n[14] == r[15] && n[15] == c
  }

  /** Whether `u` is `r` after the four message bits `v`. */
  predicate IsAfterFour(u: Register, r: Register, v: seq<bool>)
    requires |v| == 4
  {
    && u[12] == Add(r[0], v[0]) && u[13] == Add(r[1], v[1]) && u[14] == Add(r[2], v[2]) && u[15] == Add(r[3], v[3])
    && u[0] == Add(r[4], u[12]) && u[1] == Add(r[5], u[13]) && u[2] == Add(r[6], u[14]) && u[3] == Add(r[7], u[15])
    && u[4] == r[8] && u[5] == r[9] && u[6] == r[10] && u[7] == Add(r[11], u[12])
    && u[8] == Add(r[12], u[13]) && u[9] == Add(r[13], u[14]) && u[10] == Add(r[14], u[15]) && u[11] == r[15]
  }

  lemma OneStep(r: Register, bit: bool)
    ensures IsAfterOne(BitStep(r, bit), r, bit)
  {
  }

  lemma OnesMakeFour(r: Register, r1: Register, r2: Register, r3: Register, r4: Register, v: seq<bool>)
    requires |v| == 4
    requires IsAfterOne(r1, r, v[0]) && IsAfterOne(r2, r1, v[1])
    requires IsAfterOne(r3, r2, v[2]) && IsAfterOne(r4, r3, v[3])
    ensures IsAfterFour(r4, r, v)
  {
    hide Add;
  }

  lemma FourSteps(r: Register, v: seq<bool>)
    requires |v| == 4
    ensures IsAfterFour(Divide(r, v), r, v)
  {
    hide BitStep, IsAfterOne, IsAfterFour;
    var r1 := BitStep(r, v[0]);
    var r2 := BitStep(r1, v[1]);
    var r3 := BitStep(r2, v[2]);
    var r4 := BitStep(r3, v[3]);
    assert Divide(r, v) == r4 by {
      assert v[1..][1..] == v[2..] && v[2..][1..] == v[3..] && v[3..][1..] == [];
      assert v[1..][0] == v[1] && v[2..][0] == v[2] && v[3..][0] == v[3];
      assert Divide(r, v) == Divide(r1, v[1..]);
      assert Divide(r1, v[1..]) == Divide(r2, v[2..]);
      assert Divide(r2, v[2..]) == Divide(r3, v[3..]);
      assert Divide(r3, v[3..]) == Divide(r4, []) == r4;
    }
    OneStep(r, v[0]);
    OneStep(r1, v[1]);
    OneStep(r2, v[2]);
    OneStep(r3, v[3]);
    OnesMakeFour(r, r1, r2, r3, r4, v);
  }

  /** Whether `u` is `r` shifted by one byte and xored with three shifted copies of f. */
  predicate IsAfterByte(u: Register, r: Register, f: seq<bool>)
    requires |f| == 8
  {
    && u[0] == Add(r[8], f[4]) && u[1] == Add(r[9], f[5]) && u[2] == Add(r[10], f[6])
    && u[3] == Add(Add(r[11], f[0]), f[7]) && u[4] == Add(r[12], f[1]) && u[5] == Add(r[13], f[2])
    && u[6] == Add(r[14], f[3]) && u[7] == Add(r[15], f[4])
    && u[8] == Add(f[0], f[5]) && u[9] == Add(f[1], f[6]) && u[10] == Add(f[2], f[7]) && u[11] == f[3]
    && u[12] == f[4] && u[13] == f[5] && u[14] == f[6] && u[15] == f[7]
  }

  /** Whether `f` holds the carries that the eight message bits v cause in `r`. */
  predicate FoldsTo(r: Register, v: seq<bool>, f: seq<bool>)
    requires |v| == |f| == 8
  {
    && f[0] == Add(r[0], v[0]) && f[1] == Add(r[1], v[1]) && f[2] == Add(r[2], v[2]) && f[3] == Add(r[3], v[3])
    && f[4] == Add(Add(r[4], f[0]), v[4]) && f[5] == Add(Add(r[5], f[1]), v[5])
    && f[6] == Add(Add(r[6], f[2]), v[6]) && f[7] == Add(Add(r[7], f[3]), v[7])
  }

  lemma FoursMakeByte(r: Register, m: Register, u: Register, v: seq<bool>, f: seq<bool>)
    requires |v| == |f| == 8
    requires IsAfterFour(m, r, v[..4]) && IsAfterFour(u, m, v[4..])
    requires FoldsTo(r, v, f)
    ensures IsAfterByte(u, r, f)
  {
    hide Add;
  }

  lemma FoldedIsFold(r: Register, b: byte)
    ensures FoldsTo(r, ByteBits(b), Folded(r, b))
  {
    hide ByteBits;
  }

  lemma SpreadHigh(r: Register, f: seq<bool>)
    requires |f| == 8
    ensures
      var u := Spread(r, f);
      && u[0] == Add(r[8], f[4]) && u[1] == Add(r[9], f[5]) && u[2] == Add(r[10], f[6])
      && u[3] == Add(Add(r[11], f[0]), f[7]) && u[4] == Add(r[12], f[1]) && u[5] == Add(r[13], f[2])
      && u[6] == Add(r[14], f[3]) && u[7] == Add(r[15], f[4])
  {
  }

  lemma SpreadLow(r: Register, f: seq<bool>)
    requires |f| == 8
    ensures
      var u := Spread(r, f);
      && u[8] == Add(f[0], f[5]) && u[9] == Add(f[1], f[6]) && u[10] == Add(f[2], f[7]) && u[11] == f[3]
      && u[12] == f[4] && u[13] == f[5] && u[14] == f[6] && u[15] == f[7]
  {
  }

  lemma SpreadIsAfterByte(r: Register, f: seq<bool>)
    requires |f| == 8
    ensures IsAfterByte(Spread(r, f), r, f)
  {
    hide Spread, Add;
    SpreadHigh(r, f);
    SpreadLow(r, f);
  }

  lemma AfterByteIsUnique(u: Register, w: Register, r: Register, f: seq<bool>)
    requires |f| == 8
    requires IsAfterByte(u, r, f) && IsAfterByte(w, r, f)
    ensures u == w
  {
  }

  /** Eight division steps collapse into one xor of three shifted copies of the folded byte. */
  lemma EightStepsAtOnce(r: Register, b: byte)
    ensures Spread(r, Folded(r, b)) == Divide(r, ByteBits(b))
  {
    hide ByteBits, BitStep, IsAfterFour, FoldsTo, IsAfterByte, Folded, Spread;
    var v, f := ByteBits(b), Folded(r, b);
    var m := Divide(r, v[..4]);
    var u := Divide(m, v[4..]);
    assert u == Divide(r, v) by {
      DivideAppend(r, v[..4], v[4..]);
      assert v == v[..4] + v[4..];
    }
    FourSteps(r, v[..4]);
    FourSteps(m, v[4..]);
    FoldedIsFold(r, b);
    FoursMakeByte(r, m, u, v, f);
    SpreadIsAfterByte(r, f);
    AfterByteIsUnique(u, Spread(r, f), r, f);
  }

  lemma CrcExtend(data: seq<byte>, i: nat)
    requires i < |data|
    ensures Crc(data[..i + 1]) == Divide(Crc(data[..i]), ByteBits(data[i]))
  {
    hide ByteBits, BitStep;
    assert data[..i + 1] == data[..i] + [data[i]];
    BitsAppend(data[..i], [data[i]]);
    assert Bits([data[i]]) == ByteBits(data[i]);
    DivideAppend(Preset(), Bits(data[..i]), ByteBits(data[i]));
  }

  // ---------- Preset and generator ----------

  lemma {:induction false} OnesValue(n: nat)
    ensures ToNat(seq(n, _ => true)) + 1 == Power2(n)
  {
    if n > 0 {
      assert seq(n, _ => true)[..n - 1] == seq(n - 1, _ => true);
      OnesValue(n - 1);
    }
  }

  /** The checksum of nothing is the preset. */
  lemma EmptyChecksum()
    ensures ToNat(Crc([])) == 0xFFFF
  {
    hide ToNat;
    OnesValue(16);
    PowerOfSixteen();
  }

  function Zero(): (r: Register) {
    seq(16, _ => false)
  }

  function Complemented(bits: seq<bool>): (flipped: seq<bool>)
    ensures |flipped| == |bits|
  {
    seq(|bits|, i requires 0 <= i < |bits| => !bits[i])
  }

  /** The bits with the first 16 of them complemented. */
  function FrontComplemented(bits: seq<bool>): (flipped: seq<bool>)
    requires |bits| >= 16
  {
    Complemented(bits[..16]) + bits[16..]
  }

  /** The registers differ in their first n bits and agree in all others. */
  predicate AreOpposite(r: Register, t: Register, n: nat) {
    forall i :: 0 <= i < 16 ==> (r[i] != t[i]) == (i < n)
  }

  lemma StepFromOpposites(r: Register, t: Register, a: bool, n: nat)
    requires 0 < n <= 16 && AreOpposite(r, t, n)
    ensures AreOpposite(BitStep(r, a), BitStep(t, !a), n - 1)
  {
  }

  /** Registers that differ in their first n bits are made equal by n bits and their complements. */
  lemma {:induction false} OppositesMeet(r: Register, t: Register, bits: seq<bool>)
    requires |bits| <= 16 && AreOpposite(r, t, |bits|)
    ensures Divide(r, bits) == Divide(t, Complemented(bits))
    decreases |bits|
  {
    if bits == [] {
      assert r == t;
    } else {
      StepFromOpposites(r, t, bits[0], |bits|);
      hide BitStep, AreOpposite;
      OppositesMeet(BitStep(r, bits[0]), BitStep(t, !bits[0]), bits[1..]);
      assert Complemented(bits)[1..] == Complemented(bits[1..]);
    }
  }

  /** The preset 0xFFFF amounts to complementing the first 16 bits and dividing from zero. */
  lemma PresetComplements(data: seq<byte>)
    requires |data| >= 2
    ensures Crc(data) == Divide(Zero(), FrontComplemented(Bits(data)))
  {
    var bits := Bits(data);
    assert bits == bits[..16] + bits[16..];
    OppositesMeet(Preset(), Zero(), bits[..16]);
    hide BitStep, Bits, Complemented;
    DivideAppend(Preset(), bits[..16], bits[16..]);
    DivideAppend(Zero(), Complemented(bits[..16]), bits[16..]);
  }

  /** A single bit leaves the generator's lower terms, x^12 + x^5 + 1. */
  lemma GeneratorRemainder()
    ensures ToNat(Divide(Zero(), [true])) == 0x1021
  {
    var r := BitStep(Zero(), true);
    assert Divide(Zero(), [true]) == r by { assert [true][1..] == []; }
    hide BitStep;
    GeneratorBits();
    var zero := [false, false, false, false];
    var one := [false, false, false, true];
    var two := [false, false, true, false];
    Nibble(false, false, false, false);
    Nibble(false, false, false, true);
    Nibble(false, false, true, false);
    hide ToNat;
    ToNatNibble(one, zero);
    ToNatNibble(one + zero, two);
    ToNatNibble(one + zero + two, one);
  }

  lemma Nibble(w: bool, x: bool, y: bool, z: bool)
    ensures ToNat([w, x, y, z])
         == (if w then 8 else 0) + (if x then 4 else 0) + (if y then 2 else 0) + (if z then 1 else 0)
  {
    ToNatEmpty();
    hide ToNat;
    ToNatSnoc([], w);
    ToNatSnoc([w], x);
    ToNatSnoc([w, x], y);
    ToNatSnoc([w, x, y], z);
    assert [] + [w] == [w] && [w] + [x] == [w, x] && [w, x] + [y] == [w, x, y] && [w, x, y] + [z] == [w, x, y, z];
  }


  lemma GeneratorBits()
    ensures BitStep(Zero(), true) ==
      [false, false, false, true] + [false, false, false, false]
      + [false, false, true, false] + [false, false, false, true]
  {
  }

  /** The shift/xor loop computes the bit-serial remainder of every byte string, preset 0xFFFF. */
  method CalculateCRC16(data: seq<byte>) returns (checksum: Register)
    ensures checksum == Crc(data)
    ensures data == [] ==> ToNat(checksum) == 0xFFFF
    ensures |data| >= 2 ==> checksum == Divide(Zero(), FrontComplemented(Bits(data)))
  {
    checksum := Preset();
    var i := 0;
    while i < |data|
      invariant 0 <= i <= |data|
      invariant checksum == Crc(data[..i])
    {
      CrcExtend(data, i);
      EightStepsAtOnce(checksum, data[i]);
      hide *;
      var value := Folded(checksum, data[i]);
      checksum := Spread(checksum, value);
      i := i + 1;
    }
    assert data[..i] == data;
    hide *;
    EmptyChecksum();
    if |data| >= 2 {
      PresetComplements(data);
    }
  }
}
