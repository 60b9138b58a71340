/** Notifications with any layers: what each layer of a block holds after readScanBlock of src/device.cpp. */
module ScanNotifications {
  import opened Bytes
  import opened Base64
  import opened ScanBlocks
  import opened ScanTransports

  /** A layer as its sender has it; a member that is not sent is null. */
  datatype SentLayer = SentLayer(ranges: Option<seq<nat>>, intensities: Option<seq<byte>>)

  function EncodedLayer(layer: Option<SentLayer>): (encoded: Option<Layer>) {
    match layer
    case None => None
    case Some(SentLayer(ranges, intensities)) => Some(Layer(
      if ranges.Some? then Some(Encode(LittleEndian(ranges.value))) else None,
      if intensities.Some? then Some(Encode(intensities.value)) else None))
  }

  function NotificationOf(block: int, timestamp: int, layers: seq<Option<SentLayer>>): (n: Notification)
    ensures |n.layers| == |layers|
  {
    Notification(block, timestamp, seq(|layers|, i requires 0 <= i < |layers| => EncodedLayer(layers[i])))
  }

  /** Samples that are sent are some, and ranges are 16-bit words. */
  ghost predicate CanBeSent(layer: Option<SentLayer>) {
    layer.Some? ==>
      && (layer.value.ranges.Some? ==> layer.value.ranges.value != [] && AreWords(layer.value.ranges.value))
      && (layer.value.intensities.Some? ==> layer.value.intensities.value != [])
  }

  predicate SendsRanges(layer: Option<SentLayer>) {
    layer.Some? && layer.value.ranges.Some?
  }

  /** The layer as it was sent; what was not sent is as before. */
  ghost predicate IsUpdated(after: BlockData, before: BlockData, layer: Option<SentLayer>) {
    && after.ranges == (if SendsRanges(layer) then layer.value.ranges.value else before.ranges)
    && after.intensities ==
         (if layer.Some? && layer.value.intensities.Some? then layer.value.intensities.value else before.intensities)
  }

  lemma LayerUpdates(layer: Option<SentLayer>, before: BlockData)
    requires CanBeSent(layer)
    ensures LayerFits(EncodedLayer(layer))
    ensures IsUpdated(LayerData(before, EncodedLayer(layer)), before, layer)
    ensures SendsRanges(layer) ==>
      PredictedLength(EncodedLayer(layer).value.ranges.value) == 2 * |layer.value.ranges.value|
  {
    hide Encode, Fits, AfterDecoding, Words, PredictedLength, LittleEndian;
    if layer.Some? {
      var encoded := EncodedLayer(layer).value;
      if layer.value.ranges.Some? {
        var data := LittleEndian(layer.value.ranges.value);
        WordsOfLittleEndian(layer.value.ranges.value);
        EncodedFits(data);
        EncodedFills([], data);
        var bytes := AfterDecoding([], Encode(data));
        assert |bytes| == |data| && bytes[..|data|] == bytes;
      }
      if layer.value.intensities.Some? {
        EncodedFits(layer.value.intensities.value);
        EncodedFills(RangeBytes(encoded), layer.value.intensities.value);
      }
    }
  }

  /** The last of the layers that sends ranges. */
  ghost predicate IsLastWithRanges(layers: seq<Option<SentLayer>>, i: nat) {
    && i < |layers| && SendsRanges(layers[i])
    && forall j :: i < j < |layers| ==> !SendsRanges(layers[j])
  }

  /** The length of the last layer that sends ranges, or the one before when none does. */
  ghost predicate IsLength(length: int, layers: seq<Option<SentLayer>>, before: int) {
    && (forall i: nat :: IsLastWithRanges(layers, i) ==> length == |layers[i].value.ranges.value|)
    && ((forall i :: 0 <= i < |layers| ==> !SendsRanges(layers[i])) ==> length == before)
  }

  lemma LengthOneMore(length: int, layers: seq<Option<SentLayer>>, before: int, last: Option<SentLayer>)
    requires IsLength(length, layers, before)
    ensures IsLength(if SendsRanges(last) then |last.value.ranges.value| else length, layers + [last], before)
  {
    var (all, n) := (layers + [last], |layers|);
    forall i: nat | IsLastWithRanges(all, i)
      ensures (if SendsRanges(last) then |last.value.ranges.value| else length) == |all[i].value.ranges.value|
    {
      if i < n {
        assert !SendsRanges(all[n]);
        assert forall j :: i < j < n ==> layers[j] == all[j];
        assert IsLastWithRanges(layers, i);
      }
    }
    if forall i :: 0 <= i < |all| ==> !SendsRanges(all[i]) {
      assert forall i :: 0 <= i < n ==> layers[i] == all[i];
      assert !SendsRanges(all[n]);
    }
  }

  lemma {:induction false} LengthFollows(block: int, timestamp: int, layers: seq<Option<SentLayer>>, before: int)
    requires forall i :: 0 <= i < |layers| ==> CanBeSent(layers[i])
    ensures IsLength(LengthAfter(before, NotificationOf(block, timestamp, layers).layers), layers, before)
    decreases |layers|
  {
    hide CanBeSent, EncodedLayer, SendsRanges, PredictedLength, IsLength;
    var encoded := NotificationOf(block, timestamp, layers).layers;
    if layers == [] {
      NoLength(before);
    } else {
      var n := |layers| - 1;
      var (front, last) := (layers[..n], layers[n]);
      assert encoded[..n] == NotificationOf(block, timestamp, front).layers && encoded[n] == EncodedLayer(last);
      LengthFollows(block, timestamp, front, before);
      LayerUpdates(last, BlockData([], []));
      EncodesRanges(last);
      LengthOneMore(LengthAfter(before, encoded[..n]), front, before, last);
      assert front + [last] == layers;
    }
  }

  lemma NoLength(before: int)
    ensures IsLength(before, [], before)
  {
  }

  lemma EncodesRanges(layer: Option<SentLayer>)
    ensures SendsRanges(layer) <==> EncodedLayer(layer).Some? && EncodedLayer(layer).value.ranges.Some?
  {
  }

  function LayerBefore(before: ScanBlock, i: nat): (data: BlockData) {
    if i < |before.layers| then before.layers[i] else BlockData([], [])
  }

  /** What the block is to hold after the notification. */
  ghost predicate IsRead(
    after: ScanBlock, block: int, timestamp: int, layers: seq<Option<SentLayer>>, before: ScanBlock)
  {
    && after.blockIndex == block && after.blockCount == 8 && after.angularFov == Fov270
    && 0 <= after.timestamp < 0x1_0000_0000 && (timestamp - after.timestamp) % 0x1_0000_0000 == 0
    && |after.layers| == |layers|
    && (forall i :: 0 <= i < |layers| ==> IsUpdated(after.layers[i], LayerBefore(before, i), layers[i]))
    && IsLength(after.blockLength, layers, before.blockLength)
  }

  /**
    Any notification, any layers of it null or with null members: layer i of the block is what was
    sent as layer i, and what was not sent stays as layer i of the block before.
  */
  lemma NotificationRoundTrip(block: int, timestamp: int, layers: seq<Option<SentLayer>>, before: ScanBlock)
    requires forall i :: 0 <= i < |layers| ==> CanBeSent(layers[i])
    ensures IsReadable(Json(NotificationOf(block, timestamp, layers)))
    ensures IsRead(Decoded(before, Json(NotificationOf(block, timestamp, layers))), block, timestamp, layers, before)
  {
    hide CanBeSent, EncodedLayer, LayerFits, LayerData, IsUpdated, IsLength, LengthAfter;
    var n := NotificationOf(block, timestamp, layers);
    forall i | 0 <= i < |layers| ensures LayerFits(n.layers[i]) {
      LayerUpdates(layers[i], BlockData([], []));
    }
    LengthFollows(block, timestamp, layers, before.blockLength);
    var after := Decoded(before, Json(n));
    forall i | 0 <= i < |layers| ensures IsUpdated(after.layers[i], LayerBefore(before, i), layers[i]) {
      LayerUpdates(layers[i], LayerBefore(before, i));
    }
  }
}
