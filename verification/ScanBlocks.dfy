/**
  Decoding of scan blocks: readScanBlock of src/device.cpp for both transports, Base64 text in a JSON
  notification and a binary out-of-band packet.
*/
module ScanBlocks {
  import opened Bytes
  import opened Base64
  import opened OobPacket

  datatype AngularFov = Fov270 | Fov360

  datatype BlockData = BlockData(ranges: seq<int>, intensities: seq<int>)

  datatype ScanBlock = ScanBlock(
    blockIndex: int, blockCount: int, blockLength: int, timestamp: int, angularFov: AngularFov, layers: seq<BlockData>)

  /** One layer of a notification: members may be null. */
  datatype Layer = Layer(ranges: Option<seq<byte>>, intensities: Option<seq<byte>>)
  datatype Notification = Notification(block: int, timestamp: int, layers: seq<Option<Layer>>)

  /** What a poll that did not time out yields. */
  datatype Input = Json(notification: Notification) | Oob(packet: seq<byte>)

  const UINT32_MODULUS := 0x1_0000_0000
  const DEFAULT_BLOCK_COUNT := 8

  // ---------- Specification ----------

  /** A little-endian uint16_t. */
  function WordOf(low: byte, high: byte): (word: nat) {
    (low as int) + 256 * (high as int)
  }

  /** The little-endian uint16_t at each even offset. */
  function Words(data: seq<byte>): (words: seq<int>)
    ensures |words| == |data| / 2
  {
    seq(|data| / 2, j requires 0 <= j < |data| / 2 => WordOf(data[2 * j], data[2 * j + 1]))
  }

  function Resized(layers: seq<BlockData>, n: nat): (r: seq<BlockData>)
    ensures |r| == n
  {
    seq(n, i requires 0 <= i < n => if i < |layers| then layers[i] else BlockData([], []))
  }

  /** Text whose decoding is no longer than predicted, so that the decoder stays in its buffer. */
  predicate Fits(text: seq<byte>) {
    && (forall i :: 0 <= i < |text| ==> text[i] < 128)
    && (exists i :: 0 <= i < |text| && text[i] != EQUALS)
    && 0 < PredictedLength(text) && |Decode(text)| <= PredictedLength(text)
  }

  predicate LayerFits(layer: Option<Layer>) {
    layer.Some? ==>
      && (layer.value.ranges.Some? ==> Fits(layer.value.ranges.value))
      && (layer.value.intensities.Some? ==> Fits(layer.value.intensities.value))
  }

  /** vector::resize to at least n bytes, new ones zero. */
  function Grown(buffer: seq<byte>, n: nat): (grown: seq<byte>)
    ensures |grown| == if |buffer| < n then n else |buffer|
  {
    if |buffer| < n then buffer + seq(n - |buffer|, _ => 0) else buffer
  }

  /** The decode buffer after one more text: behind the decoding it keeps what it held. */
  function AfterDecoding(buffer: seq<byte>, text: seq<byte>): (after: seq<byte>)
    requires Fits(text)
    ensures |after| == if |buffer| < PredictedLength(text) then PredictedLength(text) else |buffer|
  {
    Decode(text) + Grown(buffer, PredictedLength(text))[|Decode(text)|..]
  }

  /** The decode buffer after the ranges of a layer. */
  function RangeBytes(layer: Layer): (bytes: seq<byte>)
    requires LayerFits(Some(layer))
  {
    if layer.ranges.Some? then AfterDecoding([], layer.ranges.value) else []
  }

  /** The intensities share the decode buffer with the ranges. */
  function LayerData(before: BlockData, layer: Option<Layer>): (data: BlockData)
    requires LayerFits(layer)
  {
    if layer == None then before
    else BlockData(
      if layer.value.ranges.Some? then Words(RangeBytes(layer.value)) else before.ranges,
      if layer.value.intensities.Some? then
        var text := layer.value.intensities.value;
        AfterDecoding(RangeBytes(layer.value), text)[..PredictedLength(text)]
      else before.intensities)
  }

  /** The length of the last layer that has ranges, or the previous block's. */
  function LengthAfter(before: int, layers: seq<Option<Layer>>): (length: int) {
    if layers == [] then before
    else
      var last := layers[|layers| - 1];
      if last.Some? && last.value.ranges.Some? then PredictedLength(last.value.ranges.value) / 2
      else LengthAfter(before, layers[..|layers| - 1])
  }

  function FromNotification(before: ScanBlock, n: Notification): (block: ScanBlock)
    requires forall i :: 0 <= i < |n.layers| ==> LayerFits(n.layers[i])
  {
    var layers := Resized(before.layers, |n.layers|);
    ScanBlock(
      n.block, DEFAULT_BLOCK_COUNT, LengthAfter(before.blockLength, n.layers), n.timestamp % UINT32_MODULUS, Fov270,
      seq(|n.layers|, i requires 0 <= i < |n.layers| => LayerData(layers[i], n.layers[i])))
  }

  function HeaderWord(packet: seq<byte>, at: nat): (word: nat)
    requires at + 1 < |packet|
  {
    WordOf(packet[at], packet[at + 1])
  }

  function PacketLength(packet: seq<byte>): (length: nat)
    requires |packet| >= HEADER_LENGTH
  {
    HeaderWord(packet, 6)
  }

  predicate WideIntensities(packet: seq<byte>)
    requires |packet| >= HEADER_LENGTH
  {
    packet[14] % 2 == 1
  }

  /** The header, and all the ranges and intensities it announces. */
  predicate IsComplete(packet: seq<byte>) {
    && |packet| >= HEADER_LENGTH
    && |packet| >= HEADER_LENGTH + 2 * PacketLength(packet)
                   + (if WideIntensities(packet) then 2 * PacketLength(packet) else PacketLength(packet))
  }

  /** The ranges of a packet, and its intensities. */
  function PacketRanges(packet: seq<byte>): (r: seq<int>)
    requires IsComplete(packet)
    ensures |r| == PacketLength(packet)
  {
    Words(packet[HEADER_LENGTH..HEADER_LENGTH + 2 * PacketLength(packet)])
  }

  function PacketIntensities(packet: seq<byte>): (r: seq<int>)
    requires IsComplete(packet)
    ensures |r| == PacketLength(packet)
  {
    var n := PacketLength(packet);
    var at := HEADER_LENGTH + 2 * n;
    if WideIntensities(packet) then Words(packet[at..at + 2 * n]) else packet[at..at + n]
  }

  function FromPacket(packet: seq<byte>): (block: ScanBlock)
    requires IsComplete(packet)
  {
    ScanBlock(
      packet[4],
      if packet[5] != 0 then packet[5] else DEFAULT_BLOCK_COUNT,
      PacketLength(packet),
      HeaderWord(packet, 8) + 65536 * HeaderWord(packet, 10),
      if packet[15] % 2 == 0 then Fov270 else Fov360,
      [BlockData(PacketRanges(packet), PacketIntensities(packet))])
  }

  /** What the source reads and writes only inside its buffers. */
  predicate IsReadable(input: Input) {
    match input
    case Json(n) => forall i :: 0 <= i < |n.layers| ==> LayerFits(n.layers[i])
    case Oob(packet) => IsComplete(packet)
  }

  function Decoded(before: ScanBlock, input: Input): (block: ScanBlock)
    requires IsReadable(input)
  {
    match input
    case Json(n) => FromNotification(before, n)
    case Oob(packet) => FromPacket(packet)
  }

  /** A text yields its decoding and nothing else exactly when the length was predicted exactly. */
  lemma OnlyTheDecodingWhenExact(buffer: seq<byte>, text: seq<byte>)
    requires Fits(text)
    ensures AfterDecoding(buffer, text)[..PredictedLength(text)] == Decode(text)
       <==> PredictedLength(text) == |Decode(text)|
  {
    hide Decode, PredictedLength;
    var (after, data) := (AfterDecoding(buffer, text), Decode(text));
    assert after[..|data|] == data;
    assert |after[..PredictedLength(text)]| == PredictedLength(text);
  }

  /** Otherwise bytes of the ranges, decoded before, show through behind the intensities. */
  lemma RangesShowThrough(before: BlockData, layer: Layer, i: nat)
    requires LayerFits(Some(layer)) && layer.ranges.Some? && layer.intensities.Some?
    requires |Decode(layer.intensities.value)| <= i < PredictedLength(layer.intensities.value)
    requires i < |Decode(layer.ranges.value)|
    ensures LayerData(before, Some(layer)).intensities[i] == Decode(layer.ranges.value)[i]
  {
    hide Decode, PredictedLength, Fits;
  }

  /** Behind ranges that are decoded shorter than predicted, the buffer holds zeros. */
  lemma ZerosShowThrough(layer: Layer, i: nat)
    requires LayerFits(Some(layer)) && layer.ranges.Some?
    requires |Decode(layer.ranges.value)| <= i < PredictedLength(layer.ranges.value)
    ensures RangeBytes(layer)[i] == 0
  {
    hide Decode, PredictedLength, Fits;
  }

  // ---------- The method ----------

  /** Decodes a text into the buffer, which grows when it is shorter than the predicted length. */
  method DecodeText(text: seq<byte>, buffer: array<byte>) returns (grown: array<byte>, byteCount: nat)
    requires Fits(text)
    modifies buffer
    ensures grown == buffer || fresh(grown)
    ensures byteCount == PredictedLength(text) <= grown.Length
    ensures grown[..] == AfterDecoding(old(buffer[..]), text)
  {
    hide Decode, PredictedLength;
    var src := new byte[|text|](i requires 0 <= i < |text| => text[i]);
    assert src[..|text|] == text;
    assert exists i :: 0 <= i < |text| && src[i] != EQUALS by {
      var i :| 0 <= i < |text| && text[i] != EQUALS;
      assert src[i] == text[i];
    }
    var length := CalculateBase64DecodedLength(src, |text|);
    byteCount := length;
    grown := buffer;
    if buffer.Length < byteCount {
      grown := new byte[byteCount](i requires 0 <= i < byteCount reads buffer =>
        if i < buffer.Length then buffer[i] else 0);
    }
    ghost var before := grown[..];
    assert before == Grown(buffer[..], byteCount);
    hide Fits, Grown;
    assert src[..|text|] == text;
    var written := Base64Decode(src, |text|, grown);
    assert grown[..] == grown[..written] + before[written..];
  }

  /** The loop over the decoded ranges. */
  method CopyWords(buffer: array<byte>, byteCount: nat) returns (words: seq<int>)
    requires byteCount <= buffer.Length
    ensures words == Words(buffer[..byteCount])
  {
    words := [];
    for j := 0 to byteCount / 2
      invariant words == Words(buffer[..byteCount])[..j]
    {
      words := words + [WordOf(buffer[2 * j], buffer[2 * j + 1])];
    }
  }

  /** The loop over the decoded intensities. */
  method CopyBytes(buffer: array<byte>, byteCount: nat) returns (bytes: seq<int>)
    requires byteCount <= buffer.Length
    ensures bytes == buffer[..byteCount]
  {
    bytes := [];
    for j := 0 to byteCount
      invariant bytes == buffer[..j]
    {
      bytes := bytes + [buffer[j]];
    }
  }

  /** Decodes one layer in place; the block length follows the ranges. */
  method ReadLayer(before: BlockData, layer: Layer, lengthBefore: int) returns (after: BlockData, blockLength: int)
    requires LayerFits(Some(layer))
    ensures after == LayerData(before, Some(layer))
    ensures blockLength == if layer.ranges.Some? then PredictedLength(layer.ranges.value) / 2 else lengthBefore
  {
    hide AfterDecoding, PredictedLength, Fits, Words;
    after, blockLength := before, lengthBefore;
    var decodeBuffer := new byte[0];
    assert decodeBuffer[..] == [];
    if layer.ranges.Some? {
      var byteCount;
      decodeBuffer, byteCount := DecodeText(layer.ranges.value, decodeBuffer);
      blockLength := byteCount / 2;
      assert decodeBuffer[..byteCount] == decodeBuffer[..];
      var ranges := CopyWords(decodeBuffer, byteCount);
      after := after.(ranges := ranges);
    }
    assert decodeBuffer[..] == RangeBytes(layer);
    if layer.intensities.Some? {
      var byteCount;
      decodeBuffer, byteCount := DecodeText(layer.intensities.value, decodeBuffer);
      assert decodeBuffer[..byteCount] == decodeBuffer[..][..byteCount];
      var intensities := CopyBytes(decodeBuffer, byteCount);
      after := after.(intensities := intensities);
    }
  }

  /** Fills the block from what was polled; members the input leaves out keep the previous block's values. */
  method ReadScanBlock(before: ScanBlock, input: Input) returns (block: ScanBlock)
    requires IsReadable(input)
    ensures block == Decoded(before, input)
  {
    match input
    case Json(n) =>
      hide Decode, LayerData, LayerFits;
      var layers := Resized(before.layers, |n.layers|);
      ghost var resized := layers;
      var blockLength := before.blockLength;
      for i := 0 to |n.layers|
        invariant |layers| == |n.layers|
        invariant forall k :: 0 <= k < i ==> layers[k] == LayerData(resized[k], n.layers[k])
        invariant forall k :: i <= k < |layers| ==> layers[k] == resized[k]
        invariant blockLength == LengthAfter(before.blockLength, n.layers[..i])
      {
        assert n.layers[..i + 1][..i] == n.layers[..i];
        if n.layers[i].Some? {
          var data, length := ReadLayer(layers[i], n.layers[i].value, blockLength);
          layers := layers[i := data];
          blockLength := length;
        } else {
          NullLayer(layers[i]);
        }
      }
      assert n.layers[..|n.layers|] == n.layers;
      block := ScanBlock(n.block, DEFAULT_BLOCK_COUNT, blockLength, n.timestamp % UINT32_MODULUS, Fov270, layers);
    case Oob(packet) =>
      block := ReadPacket(packet);
  }

  lemma NullLayer(before: BlockData)
    ensures LayerData(before, None) == before
  {
  }

  lemma RangeSample(packet: seq<byte>, n: nat, i: nat)
    requires IsComplete(packet) && n == PacketLength(packet) && i < n
    ensures PacketRanges(packet)[i] == HeaderWord(packet, HEADER_LENGTH + 2 * i)
  {
    hide PacketLength, Words, HeaderWord, WideIntensities;
    WordsOfSlice(packet, HEADER_LENGTH, n, i);
  }

  lemma WideSample(packet: seq<byte>, n: nat, i: nat)
    requires IsComplete(packet) && WideIntensities(packet) && n == PacketLength(packet) && i < n
    ensures PacketIntensities(packet)[i] == HeaderWord(packet, HEADER_LENGTH + 2 * n + 2 * i)
  {
    hide PacketLength, Words, HeaderWord, WideIntensities;
    WordsOfSlice(packet, HEADER_LENGTH + 2 * n, n, i);
  }

  lemma NarrowSample(packet: seq<byte>, n: nat, i: nat)
    requires IsComplete(packet) && !WideIntensities(packet) && n == PacketLength(packet) && i < n
    ensures PacketIntensities(packet)[i] == packet[HEADER_LENGTH + 2 * n + i]
  {
    hide PacketLength, Words, WideIntensities;
  }

  lemma WordsOfSlice(packet: seq<byte>, at: nat, n: nat, i: nat)
    requires at + 2 * n <= |packet| && i < n
    ensures Words(packet[at..at + 2 * n])[i] == HeaderWord(packet, at + 2 * i)
  {
    hide WordOf;
  }

  method ReadPacket(packet: seq<byte>) returns (block: ScanBlock)
    requires IsComplete(packet)
    ensures block == FromPacket(packet)
  {
    hide WordOf, PacketRanges, PacketIntensities;
    var n := PacketLength(packet);
    var ranges: seq<int>, intensities: seq<int> := [], [];
    for i := 0 to n
      invariant ranges == PacketRanges(packet)[..i] && intensities == PacketIntensities(packet)[..i]
    {
      var intensitiesAt := HEADER_LENGTH + 2 * n;
      RangeSample(packet, n, i);
      ranges := ranges + [HeaderWord(packet, HEADER_LENGTH + 2 * i)];
      if packet[14] % 2 == 0 {
        NarrowSample(packet, n, i);
        intensities := intensities + [packet[intensitiesAt + i]];
      } else {
        WideSample(packet, n, i);
        intensities := intensities + [HeaderWord(packet, intensitiesAt + 2 * i)];
      }
    }
    assert ranges == PacketRanges(packet) && intensities == PacketIntensities(packet);
    block := ScanBlock(
      packet[4], if packet[5] != 0 then packet[5] else DEFAULT_BLOCK_COUNT, n,
      HeaderWord(packet, 8) + 65536 * HeaderWord(packet, 10),
      if packet[15] % 2 == 0 then Fov270 else Fov360,
      [BlockData(ranges, intensities)]);
  }
}
