/** Bytes, bit lists, and the few sequence facts the other modules share. */
module Bytes {

  type byte = b: int | 0 <= b < 256

  datatype Option<+T> = None | Some(value: T)

  const CR: byte := 13
  const LF: byte := 10
  const COMMA: byte := 44
  const COLON: byte := 58
  const EQUALS: byte := 61
  const OPEN_BRACE: byte := 123

  /** The bytes of a text. */
  function Ascii(text: string): (bytes: seq<byte>)
    requires forall i :: 0 <= i < |text| ==> text[i] < 128 as char
    ensures |bytes| == |text|
  {
    seq(|text|, i requires 0 <= i < |text| => text[i] as int)
  }

  lemma Characters()
    ensures [CR, LF, COMMA, COLON, EQUALS, OPEN_BRACE] == Ascii("\r\n,:={")
  {
  }

  /** All pieces, one after the other. */
  function Concat<T>(pieces: seq<seq<T>>): (whole: seq<T>) {
    if pieces == [] then [] else pieces[0] + Concat(pieces[1..])
  }

  lemma {:induction false} ConcatAppend<T>(a: seq<seq<T>>, b: seq<seq<T>>)
    ensures Concat(a + b) == Concat(a) + Concat(b)
  {
    if a == [] {
      assert a + b == b;
    } else {
      assert (a + b)[1..] == a[1..] + b;
      ConcatAppend(a[1..], b);
    }
  }

  lemma ConcatOne<T>(piece: seq<T>)
    ensures Concat([piece]) == piece
  {
    var pieces: seq<seq<T>> := [piece];
    assert |pieces[1..]| == 0;
  }

  // ---------- Machine words as bit lists, most significant bit first ----------

  /** The value of k bits' worth of a byte's most significant end: 2^(8-k). */
  function Scale(k: nat): (d: nat)
    ensures d > 0
  {
    match k
    case 0 => 256 case 1 => 128 case 2 => 64 case 3 => 32 case 4 => 16
    case 5 => 8 case 6 => 4 case 7 => 2 case _ => 1
  }

  /** Bit i of a byte, most significant first. */
  predicate BitOf(v: byte, i: nat)
    requires i < 8
  {
    v / Scale(i + 1) % 2 == 1
  }

  function ByteBits(v: byte): (bits: seq<bool>)
    ensures |bits| == 8
  {
    seq(8, i requires 0 <= i < 8 => BitOf(v, i))
  }

  /** The bits of `data` in transmission order. */
  function Bits(data: seq<byte>): (bits: seq<bool>)
    ensures |bits| == 8 * |data|
  {
    if data == [] then [] else ByteBits(data[0]) + Bits(data[1..])
  }

  /** The number a bit list denotes. */
  function ToNat(bits: seq<bool>): (value: nat) {
    if bits == [] then 0
    else 2 * ToNat(bits[..|bits| - 1]) + (if bits[|bits| - 1] then 1 else 0)
  }

  function Xor(a: seq<bool>, b: seq<bool>): (c: seq<bool>)
    requires |a| == |b|
    ensures |c| == |a|
  {
    seq(|a|, i requires 0 <= i < |a| => a[i] != b[i])
  }

  /** `bits << n` in the width of `bits`. */
  function ShiftLeft(bits: seq<bool>, n: nat): (c: seq<bool>)
    requires n <= |bits|
    ensures |c| == |bits|
  {
    seq(|bits|, i requires 0 <= i < |bits| => i + n < |bits| && bits[i + n])
  }

  /** `bits >> n` in the width of `bits`. */
  function ShiftRight(bits: seq<bool>, n: nat): (c: seq<bool>)
    requires n <= |bits|
    ensures |c| == |bits|
  {
    seq(|bits|, i requires 0 <= i < |bits| => i >= n && bits[i - n])
  }

  lemma {:induction false} BitsAppend(a: seq<byte>, b: seq<byte>)
    ensures Bits(a + b) == Bits(a) + Bits(b)
  {
    hide ByteBits;
    if a == [] {
      assert a + b == b;
    } else {
      assert (a + b)[1..] == a[1..] + b;
      BitsAppend(a[1..], b);
    }
  }

  lemma Halving(v: nat, k: nat)
    requires k < 8
    ensures v / Scale(k + 1) == 2 * (v / Scale(k)) + v / Scale(k + 1) % 2
  {
  }

  lemma {:induction false} PrefixValue(v: byte, k: nat)
    requires k <= 8
    ensures ToNat(ByteBits(v)[..k]) == v / Scale(k)
  {
    if k > 0 {
      var prefix := ByteBits(v)[..k];
      assert prefix[..k - 1] == ByteBits(v)[..k - 1];
      PrefixValue(v, k - 1);
      Halving(v, k - 1);
    }
  }

  lemma FromBitsOf(v: byte)
    ensures ToNat(ByteBits(v)) == v
  {
    hide ByteBits;
    PrefixValue(v, 8);
    assert ByteBits(v)[..8] == ByteBits(v);
  }

  lemma ByteBitsInjective(v: byte, w: byte)
    requires ByteBits(v) == ByteBits(w)
    ensures v == w
  {
    hide ByteBits;
    FromBitsOf(v);
    FromBitsOf(w);
  }

  lemma {:induction false} BitsInjective(a: seq<byte>, b: seq<byte>)
    requires |a| == |b| && Bits(a) == Bits(b)
    ensures a == b
  {
    if a != [] {
      assert |ByteBits(a[0])| == |ByteBits(b[0])| == 8;
      hide ByteBits;
      assert Bits(a)[..8] == ByteBits(a[0]) && Bits(b)[..8] == ByteBits(b[0]);
      assert Bits(a)[8..] == Bits(a[1..]) && Bits(b)[8..] == Bits(b[1..]);
      ByteBitsInjective(a[0], b[0]);
      BitsInjective(a[1..], b[1..]);
      assert a == [a[0]] + a[1..] && b == [b[0]] + b[1..];
    }
  }

  lemma {:induction false} ToNatInjective(a: seq<bool>, b: seq<bool>)
    requires |a| == |b| && ToNat(a) == ToNat(b)
    ensures a == b
  {
    if a != [] {
      var n := |a| - 1;
      ToNatInjective(a[..n], b[..n]);
      assert a == a[..n] + [a[n]] && b == b[..n] + [b[n]];
    }
  }

  function Power2(n: nat): (power: nat) {
    if n == 0 then 1 else 2 * Power2(n - 1)
  }

  lemma PowerOfSixteen()
    ensures Power2(16) == 65536
  {
    assert Power2(4) == 16;
    assert Power2(8) == 16 * Power2(4);
    assert Power2(12) == 16 * Power2(8);
    assert Power2(16) == 16 * Power2(12);
  }

  lemma {:induction false} ToNatBound(bits: seq<bool>)
    ensures ToNat(bits) < Power2(|bits|)
  {
    if bits != [] {
      ToNatBound(bits[..|bits| - 1]);
    }
  }

  lemma ToNatByte(bits: seq<bool>)
    requires |bits| == 8
    ensures ToNat(bits) < 256
  {
    ToNatBound(bits);
    assert Power2(8) == 16 * Power2(4) && Power2(4) == 16;
  }

  /** The byte with the given bits. */
  function FromBits(bits: seq<bool>): (v: byte)
    requires |bits| == 8
  {
    ToNatByte(bits);
    ToNat(bits)
  }

  lemma BitsOfFromBits(bits: seq<bool>)
    requires |bits| == 8
    ensures ByteBits(FromBits(bits)) == bits
  {
    hide ByteBits;
    FromBitsOf(FromBits(bits));
    ToNatInjective(bits, ByteBits(FromBits(bits)));
  }

  lemma ToNatSnoc(a: seq<bool>, x: bool)
    ensures ToNat(a + [x]) == 2 * ToNat(a) + (if x then 1 else 0)
  {
    assert (a + [x])[..|a|] == a;
  }

  /** Four more bits shift a number by one hexadecimal digit. */
  lemma ToNatNibble(a: seq<bool>, n: seq<bool>)
    requires |n| == 4
    ensures ToNat(a + n) == 16 * ToNat(a) + ToNat(n)
  {
    hide ToNat;
    var (w, x, y, z) := (n[0], n[1], n[2], n[3]);
    ToNatSnoc(a, w);
    ToNatSnoc(a + [w], x);
    ToNatSnoc(a + [w] + [x], y);
    ToNatSnoc(a + [w] + [x] + [y], z);
    assert a + [w] + [x] + [y] + [z] == a + n;
    ToNatSnoc([], w);
    ToNatSnoc([w], x);
    ToNatSnoc([w, x], y);
    ToNatSnoc([w, x, y], z);
    assert [] + [w] == [w] && [w] + [x] == [w, x] && [w, x] + [y] == [w, x, y] && [w, x, y] + [z] == n;
    assert ToNat([]) == 0 by { ToNatEmpty(); }
  }

  lemma ToNatEmpty()
    ensures ToNat([]) == 0
  {
  }
}
