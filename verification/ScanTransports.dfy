/** The two scan transports: what is sent as a sealed packet or as Base64 JSON decodes to the data sent. */
module ScanTransports {
  import opened Bytes
  import opened Base64
  import opened Base64Laws
  import opened OobPacket
  import opened ScanBlocks

  /** 16-bit words, low byte first. */
  function LittleEndian(words: seq<nat>): (data: seq<byte>)
    ensures |data| == 2 * |words|
  {
    seq(2 * |words|, k requires 0 <= k < 2 * |words| =>
      if k % 2 == 0 then words[k / 2] % 256 else words[k / 2] / 256 % 256)
  }

  lemma LittleEndianAt(words: seq<nat>, j: nat)
    requires j < |words|
    ensures LittleEndian(words)[2 * j] == words[j] % 256
    ensures LittleEndian(words)[2 * j + 1] == words[j] / 256 % 256
  {
    assert 2 * j / 2 == j && (2 * j + 1) / 2 == j && 2 * j % 2 == 0 && (2 * j + 1) % 2 == 1;
  }

  lemma LowHigh(w: nat)
    requires w < 65536
    ensures WordOf(w % 256, w / 256 % 256) == w
  {
  }

  ghost predicate AreWords(words: seq<nat>) {
    forall i :: 0 <= i < |words| ==> words[i] < 65536
  }

  lemma WordsOfLittleEndian(words: seq<nat>)
    requires AreWords(words)
    ensures Words(LittleEndian(words)) == words
  {
    forall j | 0 <= j < |words| ensures Words(LittleEndian(words))[j] == words[j] {
      LittleEndianAt(words, j);
      LowHigh(words[j]);
      hide LittleEndian, WordOf;
    }
  }

  // ---------- The out-of-band transport ----------

  /** What a packet says about its block, apart from the samples. */
  datatype Info = Info(
    frameIndex: nat, index: byte, blockCount: byte, timestamp: nat, wide: bool, angularFov: AngularFov,
    spareLow: nat, spareHigh: nat)  // the flag bits without a meaning

  /** The header, still without its checksum. */
  function Header(info: Info, length: nat): (header: seq<byte>)
    ensures |header| == HEADER_LENGTH
  {
    [255, 255, info.frameIndex % 256, info.frameIndex / 256 % 256, info.index, info.blockCount]
    + LittleEndian([length, info.timestamp % 65536, info.timestamp / 65536])
    + [0, 0, info.spareLow % 128 * 2 + (if info.wide then 1 else 0),
       info.spareHigh % 128 * 2 + (if info.angularFov == Fov360 then 1 else 0)]
  }

  /** A complete packet with its checksum; `samples` are the intensities as bytes. */
  function Packet(info: Info, ranges: seq<nat>, samples: seq<byte>): (packet: seq<byte>)
    ensures |packet| >= HEADER_LENGTH
  {
    Sealed(Header(info, |ranges|) + (LittleEndian(ranges) + samples))
  }

  /** The fields fit, and there is one intensity of the announced width for each range. */
  ghost predicate FieldsFit(info: Info, ranges: seq<nat>, samples: seq<byte>) {
    && info.timestamp < 0x1_0000_0000 && |ranges| < 65536 && AreWords(ranges)
    && |samples| == (if info.wide then 2 * |ranges| else |ranges|)
  }

  lemma SealedKeeps(packet: seq<byte>, i: nat)
    requires |packet| >= HEADER_LENGTH && i < |packet| && i != CHECKSUM_LOW && i != CHECKSUM_HIGH
    ensures Sealed(packet)[i] == packet[i]
  {
    hide Crc16.Crc, FromBits;
  }

  /** The header fields the decoder reads. */
  ghost predicate HasHeader(p: seq<byte>, info: Info, length: nat)
    requires |p| >= HEADER_LENGTH
  {
    && p[0] == 255 && p[1] == 255 && p[4] == info.index && p[5] == info.blockCount
    && p[14] == info.spareLow % 128 * 2 + (if info.wide then 1 else 0)
    && p[15] == info.spareHigh % 128 * 2 + (if info.angularFov == Fov360 then 1 else 0)
    && HeaderWord(p, 6) == length
    && HeaderWord(p, 8) == info.timestamp % 65536 && HeaderWord(p, 10) == info.timestamp / 65536
  }

  lemma HeaderFields(info: Info, length: nat)
    requires info.timestamp < 0x1_0000_0000 && length < 65536
    ensures HasHeader(Header(info, length), info, length)
  {
    var words := [length, info.timestamp % 65536, info.timestamp / 65536];
    LowHigh(words[0]);
    LowHigh(words[1]);
    LowHigh(words[2]);
    LittleEndianAt(words, 0);
    LittleEndianAt(words, 1);
    LittleEndianAt(words, 2);
    hide LittleEndian, WordOf;
  }

  lemma SealedHasHeader(plain: seq<byte>, info: Info, length: nat)
    requires |plain| >= HEADER_LENGTH && HasHeader(plain, info, length)
    ensures HasHeader(Sealed(plain), info, length)
  {
    hide Sealed, WordOf;
    SealedKeeps(plain, 0);
    SealedKeeps(plain, 1);
    SealedKeeps(plain, 4);
    SealedKeeps(plain, 5);
    SealedKeeps(plain, 6);
    SealedKeeps(plain, 7);
    SealedKeeps(plain, 8);
    SealedKeeps(plain, 9);
    SealedKeeps(plain, 10);
    SealedKeeps(plain, 11);
    SealedKeeps(plain, 14);
    SealedKeeps(plain, 15);
  }

  lemma PacketHeader(info: Info, ranges: seq<nat>, samples: seq<byte>)
    requires info.timestamp < 0x1_0000_0000 && |ranges| < 65536
    ensures HasHeader(Packet(info, ranges, samples), info, |ranges|)
  {
    HeaderFields(info, |ranges|);
    hide Header, Sealed, LittleEndian, WordOf;
    var plain := Header(info, |ranges|) + (LittleEndian(ranges) + samples);
    SealedHasHeader(plain, info, |ranges|);
  }

  lemma PacketPayload(info: Info, ranges: seq<nat>, samples: seq<byte>)
    ensures
      var (p, at) := (Packet(info, ranges, samples), HEADER_LENGTH + 2 * |ranges|);
      && |p| == at + |samples| && p[HEADER_LENGTH..at] == LittleEndian(ranges) && p[at..at + |samples|] == samples
  {
    hide Header, Sealed, LittleEndian;
    var plain := Header(info, |ranges|) + (LittleEndian(ranges) + samples);
    var p := Packet(info, ranges, samples);
    forall i | HEADER_LENGTH <= i < |p| ensures p[i] == plain[i] {
      SealedKeeps(plain, i);
    }
    var at := HEADER_LENGTH + 2 * |ranges|;
    assert p[HEADER_LENGTH..at] == plain[HEADER_LENGTH..at];
    assert p[at..at + |samples|] == plain[at..at + |samples|];
  }

  lemma HeaderDecodes(p: seq<byte>, info: Info, length: nat)
    requires |p| >= HEADER_LENGTH && HasHeader(p, info, length) && info.timestamp < 0x1_0000_0000
    ensures PacketLength(p) == length && WideIntensities(p) == info.wide
    ensures HeaderWord(p, 8) + 65536 * HeaderWord(p, 10) == info.timestamp
    ensures (p[15] % 2 == 0) == (info.angularFov == Fov270)
  {
    hide WordOf, HeaderWord;
  }

  lemma SamplesDecode(p: seq<byte>, info: Info, ranges: seq<nat>, samples: seq<byte>)
    requires FieldsFit(info, ranges, samples)
    requires |p| == HEADER_LENGTH + 2 * |ranges| + |samples|
    requires PacketLength(p) == |ranges| && WideIntensities(p) == info.wide
    requires Words(p[HEADER_LENGTH..HEADER_LENGTH + 2 * |ranges|]) == ranges
    requires p[HEADER_LENGTH + 2 * |ranges|..HEADER_LENGTH + 2 * |ranges| + |samples|] == samples
    ensures IsComplete(p) && PacketRanges(p) == ranges
    ensures PacketIntensities(p) == if info.wide then Words(samples) else samples
  {
    hide Words, PacketLength, WideIntensities;
  }

  /** The block a packet or notification with these contents describes. */
  function BlockOf(info: Info, ranges: seq<nat>, samples: seq<byte>): (block: ScanBlock) {
    ScanBlock(info.index, if info.blockCount != 0 then info.blockCount else 8, |ranges|,
              info.timestamp, info.angularFov,
              [BlockData(ranges, if info.wide then Words(samples) else samples)])
  }

  lemma PartsDecode(p: seq<byte>, info: Info, ranges: seq<nat>, samples: seq<byte>)
    requires FieldsFit(info, ranges, samples)
    requires |p| == HEADER_LENGTH + 2 * |ranges| + |samples| && HasHeader(p, info, |ranges|)
    requires Words(p[HEADER_LENGTH..HEADER_LENGTH + 2 * |ranges|]) == ranges
    requires p[HEADER_LENGTH + 2 * |ranges|..HEADER_LENGTH + 2 * |ranges| + |samples|] == samples
    ensures IsComplete(p) && FromPacket(p) == BlockOf(info, ranges, samples)
  {
    HeaderDecodes(p, info, |ranges|);
    SamplesDecode(p, info, ranges, samples);
    hide Words, HeaderWord, PacketRanges, PacketIntensities, PacketLength, WideIntensities, IsComplete;
  }

  /** A sealed packet passes verification and decodes to what was sent, in both widths and fields of view. */
  lemma PacketDecodes(info: Info, ranges: seq<nat>, samples: seq<byte>)
    requires FieldsFit(info, ranges, samples)
    ensures Accepts(Packet(info, ranges, samples)) && IsComplete(Packet(info, ranges, samples))
    ensures FromPacket(Packet(info, ranges, samples)) == BlockOf(info, ranges, samples)
  {
    hide Accepts, Packet, LittleEndian, Words, IsComplete, FromPacket, HasHeader, BlockOf, AreWords;
    PacketIsAccepted(info, ranges, samples);
    PacketHeader(info, ranges, samples);
    PacketPayload(info, ranges, samples);
    WordsOfLittleEndian(ranges);
    PartsDecode(Packet(info, ranges, samples), info, ranges, samples);
  }

  lemma PacketIsAccepted(info: Info, ranges: seq<nat>, samples: seq<byte>)
    ensures Accepts(Packet(info, ranges, samples))
  {
    hide LittleEndian, Sealed, Accepts;
    SealedIsAccepted(Header(info, |ranges|) + (LittleEndian(ranges) + samples));
  }

  lemma HeaderAlone(info: Info, length: nat)
    requires info.timestamp < 0x1_0000_0000 && 0 < length < 65536
    ensures HasHeader(Sealed(Header(info, length)), info, length)
  {
    hide HasHeader, Header, Sealed, HeaderWord;
    HeaderFields(info, length);
    SealedHasHeader(Header(info, length), info, length);
  }

  /**
    Verification does not compare the packet's size with the samples it announces: a sealed header
    alone is accepted, and decoding it would read beyond its end.
  */
  lemma AcceptedMayBeTruncated(info: Info, length: nat)
    requires info.timestamp < 0x1_0000_0000 && 0 < length < 65536
    ensures Accepts(Sealed(Header(info, length))) && !IsComplete(Sealed(Header(info, length)))
  {
    HeaderAlone(info, length);
    HeaderDecodes(Sealed(Header(info, length)), info, length);
    hide LittleEndian, Sealed, Accepts, PacketLength, WideIntensities;
    SealedIsAccepted(Header(info, length));
  }

  /** Sixteen-bit intensities come back as sent. */
  lemma WidePacketDecodes(info: Info, ranges: seq<nat>, intensities: seq<nat>)
    requires info.wide && |intensities| == |ranges| && AreWords(intensities)
    requires FieldsFit(info, ranges, LittleEndian(intensities))
    ensures IsComplete(Packet(info, ranges, LittleEndian(intensities)))
    ensures FromPacket(Packet(info, ranges, LittleEndian(intensities))).layers == [BlockData(ranges, intensities)]
  {
    hide Packet, IsComplete, FromPacket, LittleEndian, Words;
    PacketDecodes(info, ranges, LittleEndian(intensities));
    WordsOfLittleEndian(intensities);
  }

  // ---------- The JSON transport ----------

  function AsNotification(index: byte, timestamp: nat, ranges: seq<nat>, intensities: seq<byte>):
    (notification: Notification)
  {
    Notification(index, timestamp, [Some(AsLayer(ranges, intensities))])
  }

  lemma EncodedFits(data: seq<byte>)
    requires data != []
    ensures Fits(Encode(data)) && Decode(Encode(data)) == data && PredictedLength(Encode(data)) == |data|
  {
    hide Encode, Decode, PredictedLength;
    DecodeEncode(data);
    PredictedEncodedLength(data);
  }

  /** Encoded samples fill the buffer exactly, whatever it held. */
  lemma EncodedFills(buffer: seq<byte>, data: seq<byte>)
    requires data != [] && Fits(Encode(data))
    ensures |AfterDecoding(buffer, Encode(data))| >= |data| == PredictedLength(Encode(data))
    ensures AfterDecoding(buffer, Encode(data))[..|data|] == data
  {
    hide Encode, Decode, Fits, PredictedLength;
    EncodedFits(data);
    OnlyTheDecodingWhenExact(buffer, Encode(data));
  }

  function AsLayer(ranges: seq<nat>, intensities: seq<byte>): (layer: Layer) {
    Layer(Some(Encode(LittleEndian(ranges))), Some(Encode(intensities)))
  }

  lemma LayerDecodes(ranges: seq<nat>, intensities: seq<byte>, before: BlockData)
    requires ranges != [] && intensities != [] && AreWords(ranges)
    ensures LayerFits(Some(AsLayer(ranges, intensities)))
    ensures LayerData(before, Some(AsLayer(ranges, intensities))) == BlockData(ranges, intensities)
    ensures PredictedLength(Encode(LittleEndian(ranges))) == 2 * |ranges|
  {
    hide Encode, Fits, AfterDecoding, Words, PredictedLength;
    var data := LittleEndian(ranges);
    WordsOfLittleEndian(ranges);
    hide LittleEndian;
    EncodedFits(data);
    EncodedFits(intensities);
    EncodedFills([], data);
    var bytes := RangeBytes(AsLayer(ranges, intensities));
    assert bytes == data by { assert |bytes| == |data| && bytes[..|data|] == bytes; }
    EncodedFills(bytes, intensities);
  }

  /** Whatever the previous block was, the notification decodes to what was sent, safely. */
  lemma NotificationDecodes(index: byte, timestamp: nat, ranges: seq<nat>, intensities: seq<byte>, before: ScanBlock)
    requires timestamp < 0x1_0000_0000 && ranges != [] && intensities != [] && AreWords(ranges)
    ensures
      var n := AsNotification(index, timestamp, ranges, intensities);
      && IsReadable(Json(n))
      && FromNotification(before, n) ==
           ScanBlock(index, 8, |ranges|, timestamp, Fov270, [BlockData(ranges, intensities)])
  {
    hide Encode, Fits, LayerFits, LayerData, PredictedLength, LittleEndian;
    var n := AsNotification(index, timestamp, ranges, intensities);
    var data := Resized(before.layers, 1)[0];
    LayerDecodes(ranges, intensities, data);
    assert LengthAfter(before.blockLength, n.layers) == 2 * |ranges| / 2;
    assert FromNotification(before, n).layers == [BlockData(ranges, intensities)];
  }

  // ---------- Agreement ----------

  /** Data both transports can carry decodes to identical scan blocks, whatever blocks came before. */
  lemma TransportsAgree(info: Info, ranges: seq<nat>, intensities: seq<byte>, before: ScanBlock, otherBefore: ScanBlock)
    requires FieldsFit(info, ranges, intensities) && ranges != []
    requires !info.wide && info.angularFov == Fov270 && (info.blockCount == 0 || info.blockCount == 8)
    ensures IsReadable(Oob(Packet(info, ranges, intensities)))
    ensures IsReadable(Json(AsNotification(info.index, info.timestamp, ranges, intensities)))
    ensures Decoded(before, Json(AsNotification(info.index, info.timestamp, ranges, intensities)))
         == Decoded(otherBefore, Oob(Packet(info, ranges, intensities)))
  {
    hide AsNotification, Packet, FromNotification, FromPacket, IsComplete, LayerFits;
    NotificationDecodes(info.index, info.timestamp, ranges, intensities, before);
    PacketDecodes(info, ranges, intensities);
  }
}
