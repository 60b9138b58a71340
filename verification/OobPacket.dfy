/**
  Out-of-band packets: the 16-byte little-endian header of include/ldcp/data_types.h and the
  checksum verification of src/transport.cpp, which clears and restores the field in place.
*/
module OobPacket {
  import opened Bytes
  import opened Crc16
  import opened CrcDetection

  const HEADER_LENGTH := 16
  const CHECKSUM_LOW := 12
  const CHECKSUM_HIGH := 13

  /** The bits of the uint16_t stored as `low`, `high`. */
  function StoredWord(low: byte, high: byte): (word: Register) {
    ByteBits(high) + ByteBits(low)
  }

  /** The packet with its checksum field set to zero. */
  function Cleared(packet: seq<byte>): (cleared: seq<byte>)
    requires |packet| >= HEADER_LENGTH
  {
    packet[CHECKSUM_LOW := 0][CHECKSUM_HIGH := 0]
  }

  predicate Accepts(packet: seq<byte>) {
    && |packet| >= HEADER_LENGTH
    && packet[0] == 255 && packet[1] == 255
    && Crc(Cleared(packet)) == StoredWord(packet[CHECKSUM_LOW], packet[CHECKSUM_HIGH])
  }

  /** The length of the header, and the signature 0xFFFF in its first two bytes. */
  predicate IsSigned(packet: seq<byte>) {
    |packet| >= 16 && packet[0] == 0xFF && packet[1] == 0xFF
  }

  /** Bytes 12 and 13 hold, low byte first, the checksum of the packet with zeros in their place. */
  ghost predicate IsSealed(packet: seq<byte>)
    requires |packet| >= 16
  {
    (packet[12] as int) + 256 * (packet[13] as int) == ToNat(Crc(packet[..12] + [0, 0] + packet[14..]))
  }

  lemma StoredWordValue(low: byte, high: byte)
    ensures ToNat(StoredWord(low, high)) == (low as int) + 256 * (high as int)
  {
    FromBitsOf(low);
    FromBitsOf(high);
    var (l, h) := (ByteBits(low), ByteBits(high));
    hide ToNat, ByteBits;
    assert l[..4] + l[4..] == l && h + l[..4] + l[4..] == h + l;
    ToNatNibble(h, l[..4]);
    ToNatNibble(h + l[..4], l[4..]);
    ToNatNibble(l[..4], l[4..]);
  }

  /** A packet is accepted exactly when it has the header's length, the signature, and the right checksum. */
  lemma AcceptsExactly(packet: seq<byte>)
    ensures Accepts(packet) <==> IsSigned(packet) && IsSealed(packet)
  {
    if IsSigned(packet) {
      assert Cleared(packet) == packet[..12] + [0, 0] + packet[14..];
      StoredWordValue(packet[12], packet[13]);
      hide Crc, ToNat, Cleared;
      var (crc, stored) := (Crc(packet[..12] + [0, 0] + packet[14..]), StoredWord(packet[12], packet[13]));
      if ToNat(crc) == ToNat(stored) {
        ToNatInjective(crc, stored);
      }
    }
  }

  /** Decides acceptance and leaves the packet buffer as it was. */
  method VerifyOobPacket(data: array<byte>, length: nat) returns (valid: bool)
    requires length <= data.Length
    modifies data
    ensures data[..] == old(data[..])
    ensures valid == Accepts(old(data[..length]))
    ensures valid <==> IsSigned(old(data[..length])) && IsSealed(old(data[..length]))
  {
    hide Crc, ByteBits, ToNat, IsSealed;
    if length < HEADER_LENGTH || data[0] != 255 || data[1] != 255 {
      assert !IsSigned(data[..length]);
      return false;
    }
    ghost var all := data[..];
    ghost var packet := data[..length];
    var low, high := data[CHECKSUM_LOW], data[CHECKSUM_HIGH];
    data[CHECKSUM_LOW], data[CHECKSUM_HIGH] := 0, 0;
    assert data[..length] == Cleared(packet);
    var checksum := CalculateCRC16(data[..length]);
    valid := checksum == StoredWord(low, high);
    data[CHECKSUM_LOW], data[CHECKSUM_HIGH] := low, high;
    assert data[..] == all;
    AcceptsExactly(packet);
  }

  // ---------- Parity of accepted packets ----------

  lemma OddOnesThree(a: seq<byte>, b: seq<byte>, c: seq<byte>)
    ensures OddOnes(Bits(a + b + c)) == ((OddOnes(Bits(a)) != OddOnes(Bits(b))) != OddOnes(Bits(c)))
  {
    hide Bits, OddOnes;
    BitsAppend(a + b, c);
    BitsAppend(a, b);
    OddOnesAppend(Bits(a) + Bits(b), Bits(c));
    OddOnesAppend(Bits(a), Bits(b));
  }

  lemma OddOnesPair(low: byte, high: byte)
    ensures OddOnes(Bits([low, high])) == OddOnes(StoredWord(low, high))
  {
    assert Bits([low, high]) == ByteBits(low) + ByteBits(high) by {
      hide ByteBits;
      BitsAppend([low], [high]);
      assert Bits([low]) == ByteBits(low) && Bits([high]) == ByteBits(high);
      assert [low] + [high] == [low, high];
    }
    hide ByteBits, Bits, OddOnes;
    OddOnesAppend(ByteBits(low), ByteBits(high));
    OddOnesAppend(ByteBits(high), ByteBits(low));
  }

  /** An accepted packet, checksum field included, has an even number of set bits. */
  lemma AcceptedIsEven(packet: seq<byte>)
    requires Accepts(packet)
    ensures !OddOnes(Bits(packet))
  {
    var (front, low, high, back) := (packet[..12], packet[12], packet[13], packet[14..]);
    assert packet == front + [low, high] + back;
    assert Cleared(packet) == front + [0, 0] + back;
    hide Crc, Bits, ByteBits, OddOnes;
    OddOnesThree(front, [low, high], back);
    OddOnesThree(front, [0, 0], back);
    OddOnesPair(low, high);
    OddOnesPair(0, 0);
    ZeroWordIsEven();
    CrcParity(Cleared(packet));
  }

  lemma ZeroWordIsEven()
    ensures !OddOnes(StoredWord(0, 0))
  {
    OddOnesAppend(ByteBits(0), ByteBits(0));
  }

  /** Flipping any odd number of bits of an accepted packet, in any field, makes it rejected. */
  lemma OddFlipsAreRejected(packet: seq<byte>, flipped: seq<byte>)
    requires Accepts(packet) && |flipped| == |packet|
    requires Differences(Bits(packet), Bits(flipped)) % 2 == 1
    ensures !Accepts(flipped)
  {
    OddDifferences(Bits(packet), Bits(flipped));
    AcceptedIsEven(packet);
    if Accepts(flipped) {
      AcceptedIsEven(flipped);
    }
  }

  // ---------- Bursts ----------

  lemma {:induction false} BitsAt(data: seq<byte>, k: nat)
    requires k < 8 * |data|
    ensures Bits(data)[k] == BitOf(data[k / 8], k % 8)
  {
    if k < 8 {
      assert Bits(data)[k] == ByteBits(data[0])[k];
    } else {
      BitsAt(data[1..], k - 8);
      assert (k - 8) / 8 == k / 8 - 1 && (k - 8) % 8 == k % 8;
    }
  }

  /** Two accepted packets with the same checksum field that differ only within a burst are identical. */
  lemma AcceptedBurstsAreIdentical(p: seq<byte>, q: seq<byte>, from: nat)
    requires Accepts(p) && Accepts(q) && |p| == |q|
    requires p[CHECKSUM_LOW] == q[CHECKSUM_LOW] && p[CHECKSUM_HIGH] == q[CHECKSUM_HIGH]
    requires AgreeOutsideWindow(Bits(p), Bits(q), from)
    ensures p == q
  {
    var (c, d) := (Cleared(p), Cleared(q));
    forall k | 0 <= k < |Bits(c)| && !(from <= k < from + 16) ensures Bits(c)[k] == Bits(d)[k] {
      BitsAt(c, k);
      BitsAt(d, k);
      BitsAt(p, k);
      BitsAt(q, k);
    }
    assert AgreeOutsideWindow(Bits(c), Bits(d), from);
    if c != d {
      DetectableChangesCrc(c, d);
    }
    forall i | 0 <= i < |p| ensures p[i] == q[i] {
      if i != CHECKSUM_LOW && i != CHECKSUM_HIGH {
        assert p[i] == c[i] && q[i] == d[i];
      }
    }
  }

  // ---------- Exactly one checksum field is accepted ----------

  /** The packet a sender completes: its checksum field holds the checksum of the rest. */
  function Sealed(packet: seq<byte>): (p: seq<byte>)
    requires |packet| >= HEADER_LENGTH
    ensures |p| == |packet|
  {
    var crc := Crc(Cleared(packet));
    packet[CHECKSUM_LOW := FromBits(crc[8..])][CHECKSUM_HIGH := FromBits(crc[..8])]
  }

  lemma SealedIsAccepted(packet: seq<byte>)
    requires |packet| >= HEADER_LENGTH && packet[0] == 255 && packet[1] == 255
    ensures Accepts(Sealed(packet))
  {
    hide Crc, FromBits, ByteBits;
    var crc := Crc(Cleared(packet));
    BitsOfFromBits(crc[..8]);
    BitsOfFromBits(crc[8..]);
    assert Cleared(Sealed(packet)) == Cleared(packet);
    assert crc == crc[..8] + crc[8..];
  }

  /** An accepted packet is its own sealed form: no other checksum field would do. */
  lemma AcceptedIsSealed(packet: seq<byte>)
    requires Accepts(packet)
    ensures packet == Sealed(packet)
  {
    hide Crc, ByteBits;
    var crc := Crc(Cleared(packet));
    assert crc[..8] == ByteBits(packet[CHECKSUM_HIGH]) && crc[8..] == ByteBits(packet[CHECKSUM_LOW]);
    FromBitsOf(packet[CHECKSUM_HIGH]);
    FromBitsOf(packet[CHECKSUM_LOW]);
  }
}
