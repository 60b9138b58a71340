/**
  Frame reassembly: readScanFrame of src/device.cpp, a loop that starts over at every block that is
  not the expected one.
*/
module ScanFrames {
  import opened Bytes
  import opened ScanBlocks

  const INT_MAX := 2147483647

  datatype ScanFrame = ScanFrame(timestamp: int, angularFov: AngularFov, ranges: seq<int>, intensities: seq<int>)

  /** The blocks of the frame in progress; `count` is INT_MAX until a first block has set it. */
  datatype Progress = Progress(window: seq<ScanBlock>, count: int)

  /** A frame after so many reads, or the failure of the last of so many reads. */
  datatype Reassembly = Complete(used: nat, window: seq<ScanBlock>) | Failed(used: nat)

  const FRESH := Progress([], INT_MAX)

  // ---------- Specification ----------

  /** What one more block does to the frame in progress. */
  function Advance(p: Progress, block: ScanBlock): (next: Progress) {
    if block.blockIndex != |p.window| then p.(window := [])
    else Progress(p.window + [block], if p.window == [] then block.blockCount else p.count)
  }

  /** The outcome of a run of reads; None is a read that failed, as is the end of the reads. */
  function Reassemble(p: Progress, stream: seq<Option<ScanBlock>>, used: nat): (r: Reassembly)
    requires used <= |stream|
    decreases |stream| - used
  {
    if |p.window| >= p.count then Complete(used, p.window)
    else if used == |stream| || stream[used] == None then Failed(used)
    else Reassemble(Advance(p, stream[used].value), stream, used + 1)
  }

  function FirstRanges(window: seq<ScanBlock>, length: nat): (r: seq<int>)
    requires forall i :: 0 <= i < |window| ==> HasSamples(window[i], length)
    ensures |r| == |window| * length
  {
    if window == [] then []
    else
      var last := window[|window| - 1];
      assert HasSamples(last, length);
      FirstRanges(window[..|window| - 1], length) + last.layers[0].ranges[..length]
  }

  function FirstIntensities(window: seq<ScanBlock>, length: nat): (r: seq<int>)
    requires forall i :: 0 <= i < |window| ==> HasSamples(window[i], length)
    ensures |r| == |window| * length
  {
    if window == [] then []
    else
      var last := window[|window| - 1];
      assert HasSamples(last, length);
      FirstIntensities(window[..|window| - 1], length) + last.layers[0].intensities[..length]
  }

  predicate HasSamples(block: ScanBlock, length: int) {
    |block.layers| >= 1 && length <= |block.layers[0].ranges| && length <= |block.layers[0].intensities|
  }

  /** Timestamp, field of view and block length come from the first block, the samples from all in order. */
  function FrameOf(window: seq<ScanBlock>): (frame: ScanFrame)
    requires window != [] && window[0].blockLength >= 0
    requires forall i :: 0 <= i < |window| ==> HasSamples(window[i], window[0].blockLength)
  {
    ScanFrame(window[0].timestamp, window[0].angularFov,
              FirstRanges(window, window[0].blockLength), FirstIntensities(window, window[0].blockLength))
  }

  /** Every block from `start` on announces a positive number of blocks. */
  ghost predicate Counted(stream: seq<Option<ScanBlock>>, start: nat) {
    forall i :: start <= i < |stream| && stream[i].Some? ==> stream[i].value.blockCount >= 1
  }

  /** The blocks from `from` to `to` have the indices 0, 1, and so on. */
  ghost predicate IsWindow(stream: seq<Option<ScanBlock>>, from: nat, to: nat) {
    && from <= to < |stream|
    && forall k :: from <= k <= to ==> stream[k].Some? && stream[k].value.blockIndex == k - from
  }

  /** Every block holds as many samples as the block 0 that its window starts with declares. */
  ghost predicate WindowsHaveSamples(stream: seq<Option<ScanBlock>>, start: nat) {
    && Counted(stream, start)
    && forall from: nat, to: nat :: start <= from && IsWindow(stream, from, to) ==>
         && stream[from].value.blockLength >= 0
         && HasSamples(stream[to].value, stream[from].value.blockLength)
  }

  // ---------- The loop ----------

  /** The blocks still to be read, standing for what readScanBlock will return. */
  class BlockSource {
    const stream: seq<Option<ScanBlock>>
    var position: nat

    constructor (stream: seq<Option<ScanBlock>>)
      ensures this.stream == stream && position == 0
    {
      this.stream := stream;
      position := 0;
    }

    method ReadScanBlock() returns (block: Option<ScanBlock>)
      requires position <= |stream|
      modifies this`position
      ensures position <= |stream|
      ensures if old(position) < |stream| && stream[old(position)].Some?
              then block == stream[old(position)] && position == old(position) + 1
              else block == None && position == old(position)
    {
      if position < |stream| && stream[position].Some? {
        block := stream[position];
        position := position + 1;
      } else {
        block := None;
      }
    }
  }

  /** Overwrites length samples of a vector from `at` on. */
  method CopySamples(target: seq<int>, at: nat, samples: seq<int>, length: nat) returns (r: seq<int>)
    requires length <= |samples| && at + length <= |target|
    ensures |r| == |target|
    ensures forall k :: 0 <= k < |r| ==> r[k] == if at <= k < at + length then samples[k - at] else target[k]
    ensures r[..at] == target[..at] && r[at..at + length] == samples[..length]
  {
    r := target;
    for i := 0 to length
      invariant |r| == |target|
      invariant forall k :: 0 <= k < |r| ==> r[k] == if at <= k < at + i then samples[k - at] else target[k]
    {
      r := r[at + i := samples[i]];
    }
  }

  function ResizedTo(v: seq<int>, n: nat): (r: seq<int>)
    ensures |r| == n
  {
    if n <= |v| then v[..n] else v + seq(n - |v|, _ => 0)
  }

  lemma RoomForBlock(index: nat, count: int, length: nat)
    requires index < count
    ensures index * length + length <= count * length
  {
    var later: nat := count - index - 1;
    assert count * length == index * length + length + later * length;
  }

  /** The frame after its first block: sized for all its blocks. */
  function StartFrame(frame: ScanFrame, block: ScanBlock): (result: ScanFrame)
    requires block.blockCount >= 1 && block.blockLength >= 0
  {
    RoomForBlock(0, block.blockCount, block.blockLength);
    ScanFrame(block.timestamp, block.angularFov,
              ResizedTo(frame.ranges, block.blockCount * block.blockLength),
              ResizedTo(frame.intensities, block.blockCount * block.blockLength))
  }

  /** Copies the samples of block `index` to their place in the frame. */
  method FillBlock(
    frame: ScanFrame, ghost window: seq<ScanBlock>, index: nat, block: ScanBlock, count: int, length: nat)
    returns (filled: ScanFrame)
    requires index == |window| < count && InProgress(frame, window, count, length) && HasSamples(block, length)
    requires window == [] ==>
      && block.blockLength == length && block.blockCount == count
      && frame.timestamp == block.timestamp && frame.angularFov == block.angularFov
    ensures InProgress(filled, window + [block], count, length)
  {
    hide FirstRanges, FirstIntensities;
    RoomForBlock(index, count, length);
    var ranges := CopySamples(frame.ranges, index * length, block.layers[0].ranges, length);
    var intensities := CopySamples(frame.intensities, index * length, block.layers[0].intensities, length);
    ExtendedFrame(frame, window, block, count, length, ranges, intensities);
    filled := frame.(ranges := ranges, intensities := intensities);
  }

  /** The expected block: block 0 starts a frame, and every block adds its samples. */
  method AddBlock(
    frame: ScanFrame, ghost window: seq<ScanBlock>, index: nat, block: ScanBlock, count: int, length: int)
    returns (added: ScanFrame, blockCount: int, blockLength: int)
    requires index == |window| < count && block.blockCount >= 1
    requires window == [] ==> block.blockLength >= 0 && HasSamples(block, block.blockLength)
    requires window != [] ==> length >= 0 && HasSamples(block, length) && InProgress(frame, window, count, length)
    ensures blockCount == if window == [] then block.blockCount else count
    ensures blockLength == (if window == [] then block.blockLength else length) && blockLength >= 0
    ensures InProgress(added, window + [block], blockCount, blockLength)
  {
    hide InProgress, HasSamples;
    added, blockCount, blockLength := frame, count, length;
    if index == 0 {
      blockCount, blockLength := block.blockCount, block.blockLength;
      added := StartFrame(frame, block);
      StartedFrame(added, block);
    }
    added := FillBlock(added, window, index, block, blockCount, blockLength);
  }

  /** The state of the loop that started at `start`, before its next read at `used`. */
  ghost predicate Reading(stream: seq<Option<ScanBlock>>, start: nat, used: nat,
                          frame: ScanFrame, window: seq<ScanBlock>, count: int, length: int)
  {
    && start + |window| <= used <= |stream| && count >= 1 && length >= 0
    && (window != [] ==> InProgress(frame, window, count, length))
    && IsTail(Progress(window, count), stream, used)
    && Reassemble(FRESH, stream, start) == Reassemble(Progress(window, count), stream, used)
  }

  lemma ReadingBegins(stream: seq<Option<ScanBlock>>, start: nat, frame: ScanFrame)
    requires start <= |stream|
    ensures Reading(stream, start, start, frame, [], INT_MAX, 0)
  {
  }

  lemma ReadingFails(stream: seq<Option<ScanBlock>>, start: nat, used: nat,
                     frame: ScanFrame, window: seq<ScanBlock>, count: int, length: int)
    requires Reading(stream, start, used, frame, window, count, length) && |window| < count
    requires used == |stream| || stream[used] == None
    ensures start <= |stream| && Reassemble(FRESH, stream, start) == Failed(used)
  {
    hide InProgress, IsTail;
  }

  lemma ReadingSkips(stream: seq<Option<ScanBlock>>, start: nat, used: nat,
                     frame: ScanFrame, window: seq<ScanBlock>, count: int, length: int)
    requires Reading(stream, start, used, frame, window, count, length) && |window| < count
    requires WindowsHaveSamples(stream, start)
    requires used < |stream| && stream[used].Some? && stream[used].value.blockIndex != |window|
    ensures Reading(stream, start, used + 1, frame, [], count, length)
  {
    AdvanceKeepsTail(Progress(window, count), stream, start, used);
    hide InProgress, IsTail;
  }

  /** What the next block needs to be added. */
  lemma ReadingReady(stream: seq<Option<ScanBlock>>, start: nat, used: nat,
                     frame: ScanFrame, window: seq<ScanBlock>, count: int, length: int)
    requires Reading(stream, start, used, frame, window, count, length) && |window| < count
    requires WindowsHaveSamples(stream, start)
    requires used < |stream| && stream[used].Some? && stream[used].value.blockIndex == |window|
    ensures
      var block := stream[used].value;
      && block.blockCount >= 1
      && (window == [] ==> block.blockLength >= 0 && HasSamples(block, block.blockLength))
      && (window != [] ==> length >= 0 && HasSamples(block, length) && InProgress(frame, window, count, length))
  {
    InProgressLength(frame, window, count, length);
    hide InProgress, IsTail, Reassemble, HasSamples, WindowsHaveSamples;
    NextBlockHasSamples(window, count, length, stream, start, used);
  }

  lemma ReadingAdds(stream: seq<Option<ScanBlock>>, start: nat, used: nat, frame: ScanFrame, window: seq<ScanBlock>,
                    count: int, length: int, added: ScanFrame, blockCount: int, blockLength: int)
    requires Reading(stream, start, used, frame, window, count, length) && |window| < count
    requires WindowsHaveSamples(stream, start)
    requires used < |stream| && stream[used].Some? && stream[used].value.blockIndex == |window|
    requires blockCount == (if window == [] then stream[used].value.blockCount else count) && blockLength >= 0
    requires InProgress(added, window + [stream[used].value], blockCount, blockLength)
    ensures Reading(stream, start, used + 1, added, window + [stream[used].value], blockCount, blockLength)
  {
    AdvanceKeepsTail(Progress(window, count), stream, start, used);
    assert stream[used].value.blockCount >= 1;
    hide InProgress, IsTail;
  }

  lemma ReadingEnds(stream: seq<Option<ScanBlock>>, start: nat, used: nat,
                    frame: ScanFrame, window: seq<ScanBlock>, count: int, length: int)
    requires Reading(stream, start, used, frame, window, count, length) && |window| >= count
    ensures start <= |stream| && Reassemble(FRESH, stream, start) == Complete(used, window)
    ensures IsFrameOf(window, frame)
  {
    FinishedFrame(frame, window, count, length);
    hide InProgress, IsTail;
  }

  /** What a complete frame holds. */
  ghost predicate IsFrameOf(window: seq<ScanBlock>, frame: ScanFrame) {
    && window != [] && window[0].blockLength >= 0
    && (forall k :: 0 <= k < |window| ==> HasSamples(window[k], window[0].blockLength))
    && FrameOf(window) == frame
  }

  /** Reads until a frame is complete or a read fails; a complete frame replaces every sample of the old one. */
  method ReadScanFrame(source: BlockSource, before: ScanFrame) returns (complete: bool, frame: ScanFrame)
    requires source.position <= |source.stream| && WindowsHaveSamples(source.stream, source.position)
    modifies source`position
    ensures source.position <= |source.stream|
    ensures complete == Reassemble(FRESH, source.stream, old(source.position)).Complete?
    ensures source.position == Reassemble(FRESH, source.stream, old(source.position)).used
    ensures complete ==> IsFrameOf(Reassemble(FRESH, source.stream, old(source.position)).window, frame)
  {
    hide InProgress, IsFrameOf, Reading, WindowsHaveSamples, HasSamples, Reassemble;
    frame := before;
    complete := false;
    var expectedBlockIndex := 0;
    var blockCount, blockLength := INT_MAX, 0;
    ghost var window: seq<ScanBlock> := [];
    ghost var (stream, start) := (source.stream, source.position);
    ReadingBegins(stream, start, frame);
    while expectedBlockIndex < blockCount
      invariant source.position <= |stream| && expectedBlockIndex == |window|
      invariant Reading(stream, start, source.position, frame, window, blockCount, blockLength)
      decreases |stream| - source.position
    {
      ghost var used := source.position;
      var block := source.ReadScanBlock();
      if block == None {
        ReadingFails(stream, start, used, frame, window, blockCount, blockLength);
        return;
      }
      var scanBlock := block.value;
      if scanBlock.blockIndex != expectedBlockIndex {
        ReadingSkips(stream, start, used, frame, window, blockCount, blockLength);
        expectedBlockIndex := 0;
        window := [];
      } else {
        ReadingReady(stream, start, used, frame, window, blockCount, blockLength);
        var added, count, length := AddBlock(frame, window, expectedBlockIndex, scanBlock, blockCount, blockLength);
        ReadingAdds(stream, start, used, frame, window, blockCount, blockLength, added, count, length);
        frame, blockCount, blockLength := added, count, length;
        window := window + [scanBlock];
        expectedBlockIndex := expectedBlockIndex + 1;
      }
    }
    complete := true;
    ReadingEnds(stream, start, source.position, frame, window, blockCount, blockLength);
  }

  /** The frame holds the window's samples in order; the rest is room for the blocks to come. */
  ghost predicate InProgress(frame: ScanFrame, window: seq<ScanBlock>, count: int, length: nat) {
    && (forall i :: 0 <= i < |window| ==> HasSamples(window[i], length))
    && |window| <= count && |frame.ranges| == |frame.intensities| == count * length
    && |window| * length <= count * length
    && frame.ranges[..|window| * length] == FirstRanges(window, length)
    && frame.intensities[..|window| * length] == FirstIntensities(window, length)
    && (window != [] ==>
          && window[0].blockLength == length && window[0].blockCount == count
          && frame.timestamp == window[0].timestamp && frame.angularFov == window[0].angularFov)
  }

  lemma InProgressLength(frame: ScanFrame, window: seq<ScanBlock>, count: int, length: nat)
    ensures InProgress(frame, window, count, length) && window != [] ==> window[0].blockLength == length
  {
  }

  lemma StartedFrame(frame: ScanFrame, block: ScanBlock)
    requires block.blockCount >= 1 && block.blockLength >= 0
    requires |frame.ranges| == |frame.intensities| == block.blockCount * block.blockLength
    ensures InProgress(frame, [], block.blockCount, block.blockLength)
  {
  }

  lemma ExtendedFrame(frame: ScanFrame, window: seq<ScanBlock>, block: ScanBlock, count: int, length: nat,
                      ranges: seq<int>, intensities: seq<int>)
    requires InProgress(frame, window, count, length) && HasSamples(block, length) && |window| < count
    requires window == [] ==>
      && block.blockLength == length && block.blockCount == count
      && frame.timestamp == block.timestamp && frame.angularFov == block.angularFov
    requires |ranges| == |intensities| == count * length && |window| * length + length <= count * length
    requires ranges[..|window| * length] == frame.ranges[..|window| * length]
    requires ranges[|window| * length..|window| * length + length] == block.layers[0].ranges[..length]
    requires intensities[..|window| * length] == frame.intensities[..|window| * length]
    requires intensities[|window| * length..|window| * length + length] == block.layers[0].intensities[..length]
    ensures InProgress(frame.(ranges := ranges, intensities := intensities), window + [block], count, length)
  {
    var next := window + [block];
    assert next[..|window|] == window;
    var at := |window| * length;
    assert |next| * length == at + length;
    assert ranges[..at + length] == ranges[..at] + ranges[at..at + length];
    assert intensities[..at + length] == intensities[..at] + intensities[at..at + length];
  }

  lemma FinishedFrame(frame: ScanFrame, window: seq<ScanBlock>, count: int, length: nat)
    requires window != [] && InProgress(frame, window, count, length) && |window| >= count
    ensures window[0].blockLength >= 0
    ensures forall i :: 0 <= i < |window| ==> HasSamples(window[i], window[0].blockLength)
    ensures frame == FrameOf(window)
  {
    assert |window| == count;
    assert frame.ranges[..|frame.ranges|] == frame.ranges;
    assert frame.intensities[..|frame.intensities|] == frame.intensities;
  }

  // ---------- Safety, on any stream ----------

  /** The frame in progress is made of the last blocks read, with indices 0, 1, ... and the first one's count. */
  ghost predicate IsTail(p: Progress, stream: seq<Option<ScanBlock>>, used: nat) {
    && |p.window| <= used <= |stream|
    && (forall k :: 0 <= k < |p.window| ==> stream[used - |p.window| + k] == Some(p.window[k]))
    && (forall k :: 0 <= k < |p.window| ==> p.window[k].blockIndex == k)
    && (p.window != [] ==> p.count == p.window[0].blockCount)
    && p.count >= 1 && |p.window| <= p.count
  }

  lemma {:induction false} CompleteIsTail(p: Progress, stream: seq<Option<ScanBlock>>, used: nat)
    requires IsTail(p, stream, used) && Counted(stream, used)
    requires Reassemble(p, stream, used).Complete?
    ensures
      var r := Reassemble(p, stream, used);
      && IsTail(Progress(r.window, |r.window|), stream, r.used) && r.window != []
      && |r.window| == r.window[0].blockCount
    decreases |stream| - used
  {
    if |p.window| < p.count {
      AdvanceKeepsTail(p, stream, used, used);
      assert Counted(stream, used + 1);
      hide IsTail, Advance, Counted;
      CompleteIsTail(Advance(p, stream[used].value), stream, used + 1);
    }
  }

  lemma AdvanceKeepsTail(p: Progress, stream: seq<Option<ScanBlock>>, start: nat, used: nat)
    requires IsTail(p, stream, used) && Counted(stream, start)
    requires start <= used < |stream| && stream[used].Some? && |p.window| < p.count
    ensures IsTail(Advance(p, stream[used].value), stream, used + 1)
  {
    assert stream[used].value.blockCount >= 1;
  }

  /** The next block of a window is readable, and so is the first of a new one. */
  lemma NextBlockHasSamples(
    window: seq<ScanBlock>, count: int, length: int, stream: seq<Option<ScanBlock>>, start: nat, used: nat)
    requires IsTail(Progress(window, count), stream, used) && WindowsHaveSamples(stream, start)
    requires start + |window| <= used < |stream| && stream[used].Some? && stream[used].value.blockIndex == |window|
    requires window != [] ==> window[0].blockLength == length
    ensures
      var block := stream[used].value;
      && block.blockCount >= 1
      && (window == [] ==> block.blockLength >= 0 && HasSamples(block, block.blockLength))
      && (window != [] ==> length >= 0 && HasSamples(block, length))
  {
    hide HasSamples;
    var from := used - |window|;
    forall k | from <= k <= used ensures stream[k].Some? && stream[k].value.blockIndex == k - from {
      if k < used {
        assert stream[used - |window| + (k - from)] == Some(window[k - from]);
      }
    }
    assert IsWindow(stream, from, used);
    if window != [] {
      assert stream[used - |window| + 0] == Some(window[0]);
    }
  }

  /**
    However lossy the stream, a returned frame is made of exactly the last n blocks read, in order,
    with indices 0 to n - 1, where n is the count of the first of them.
  */
  lemma FrameIsLastBlocksRead(stream: seq<Option<ScanBlock>>, start: nat)
    requires Counted(stream, start) && start <= |stream|
    requires Reassemble(FRESH, stream, start).Complete?
    ensures
      var r := Reassemble(FRESH, stream, start);
      var n := |r.window|;
      && 0 < n == r.window[0].blockCount && start + n <= r.used <= |stream|
      && (forall k :: 0 <= k < n ==> stream[r.used - n + k] == Some(r.window[k]) && r.window[k].blockIndex == k)
  {
    CompleteIsTail(FRESH, stream, start);
    WindowSinceStart(FRESH, stream, start, start);
  }

  lemma {:induction false} WindowSinceStart(p: Progress, stream: seq<Option<ScanBlock>>, start: nat, used: nat)
    requires start + |p.window| <= used <= |stream|
    ensures
      var r := Reassemble(p, stream, used);
      r.Complete? ==> start + |r.window| <= r.used
    decreases |stream| - used
  {
    if |p.window| < p.count && used < |stream| && stream[used] != None {
      WindowSinceStart(Advance(p, stream[used].value), stream, start, used + 1);
    }
  }

  /** A call ends at the first failed read, unless a frame is complete before it. */
  lemma {:induction false} EndsAtFirstFailure(p: Progress, stream: seq<Option<ScanBlock>>, used: nat)
    requires used <= |stream|
    ensures
      var r := Reassemble(p, stream, used);
      && used <= r.used <= |stream| && (forall k :: used <= k < r.used ==> stream[k].Some?)
      && (r.Failed? ==> r.used == |stream| || stream[r.used] == None)
    decreases |stream| - used
  {
    if |p.window| < p.count && used < |stream| && stream[used] != None {
      EndsAtFirstFailure(Advance(p, stream[used].value), stream, used + 1);
    }
  }

  lemma {:induction false} SampleAt(window: seq<ScanBlock>, length: nat, k: nat, i: nat)
    requires forall j :: 0 <= j < |window| ==> HasSamples(window[j], length)
    requires k < |window| && i < length
    ensures k * length + i < |window| * length
    ensures FirstRanges(window, length)[k * length + i] == window[k].layers[0].ranges[i]
    ensures FirstIntensities(window, length)[k * length + i] == window[k].layers[0].intensities[i]
    decreases |window|
  {
    var n := |window| - 1;
    RoomForBlock(k, |window|, length);
    assert HasSamples(window[n], length) && |window[..n]| * length == n * length;
    var (ranges, intensities) := (FirstRanges(window[..n], length), FirstIntensities(window[..n], length));
    assert |window| * length == n * length + length;
    if k < n {
      RoomForBlock(k, n, length);
      SampleAt(window[..n], length, k, i);
    }
  }

  /**
    A frame's samples one by one: sample i of block k stands at place k * length + i, there are no
    others, and timestamp and field of view are those of the first block.
  */
  lemma FrameSamples(window: seq<ScanBlock>, frame: ScanFrame)
    requires IsFrameOf(window, frame)
    ensures
      var (first, length) := (window[0], window[0].blockLength);
      && length >= 0 && frame.timestamp == first.timestamp && frame.angularFov == first.angularFov
      && |frame.ranges| == |frame.intensities| == |window| * length
    ensures forall k, i :: 0 <= k < |window| && 0 <= i < window[0].blockLength ==> IsSample(frame, window, k, i)
  {
    var length := window[0].blockLength;
    hide FirstRanges, FirstIntensities;
    forall k, i | 0 <= k < |window| && 0 <= i < length ensures IsSample(frame, window, k, i) {
      SampleAt(window, length, k, i);
      assert HasSamples(window[k], length);
    }
  }

  /** Sample i of block k is where it belongs in the frame. */
  ghost predicate IsSample(frame: ScanFrame, window: seq<ScanBlock>, k: nat, i: nat)
    requires k < |window|
  {
    && window[0].blockLength >= 0
    && var at := k * window[0].blockLength + i;
    && 0 <= at < |frame.ranges| && at < |frame.intensities| && window[k].layers != []
    && i < |window[k].layers[0].ranges| && i < |window[k].layers[0].intensities|
    && frame.ranges[at] == window[k].layers[0].ranges[i]
    && frame.intensities[at] == window[k].layers[0].intensities[i]
  }

  // ---------- Progress, once the stream is loss-free ----------

  /** The index after c in a cycle of n. */
  function Next(c: int, n: int): (index: int) {
    if c + 1 == n then 0 else c + 1
  }

  /** From `from` on, n-block frames follow each other without loss, the first block having index c. */
  ghost predicate Cyclic(stream: seq<Option<ScanBlock>>, from: nat, c: nat, n: nat) {
    && 0 <= c < n
    && (forall k :: from <= k < |stream| ==> stream[k].Some? && stream[k].value.blockCount == n)
    && (from < |stream| ==> stream[from].value.blockIndex == c)
    && (forall k :: from < k < |stream| ==>
          stream[k].value.blockIndex == Next(stream[k - 1].value.blockIndex, n))
  }

  /**
    How many reads a frame takes when e blocks under the count m are in progress and block c of n is
    next. Another count than n matters only if block e is next: a smaller one ends the frame early,
    and a larger one makes the loop run into the next block 0 and discard it.
  */
  function ReadsNeeded(e: nat, m: int, c: nat, n: nat): (needed: int) {
    if e == c then (if e == 0 || m == n then n - e else if m < n then m - e else 3 * n - e)
    else if c == 0 then 2 * n else 2 * n - c
  }

  lemma CyclicTail(stream: seq<Option<ScanBlock>>, from: nat, c: nat, n: nat)
    requires Cyclic(stream, from, c, n) && from < |stream|
    ensures Cyclic(stream, from + 1, Next(c, n), n)
  {
  }

  /** A state between two reads of the loop. */
  ghost predicate IsProgress(p: Progress) {
    |p.window| < p.count
  }

  /** How the loop goes on from a state when the stream is loss-free. */
  ghost predicate CompletesAfter(p: Progress, stream: seq<Option<ScanBlock>>, used: nat, c: nat, n: nat)
    requires used <= |stream|
  {
    var (r, needed) := (Reassemble(p, stream, used), ReadsNeeded(|p.window|, p.count, c, n));
    if used + needed <= |stream| then
      && r.Complete? && r.used == used + needed
      && ((|p.window| == c > 0 ==> p.count >= n) ==> Cyclic(stream, r.used, 0, n))
    else r == Failed(|stream|)
  }

  /**
    From any state of reassembly, once the stream is loss-free, a frame is complete after exactly
    ReadsNeeded reads, and unless the frame was cut short the stream goes on at block 0.
  */
  lemma {:induction false} CyclicStreamCompletes(p: Progress, stream: seq<Option<ScanBlock>>, used: nat, c: nat, n: nat)
    requires IsProgress(p) && used <= |stream| && Cyclic(stream, used, c, n)
    ensures CompletesAfter(p, stream, used, c, n)
    decreases |stream| - used
  {
    if used < |stream| {
      var next := Advance(p, stream[used].value);
      CyclicTail(stream, used, c, n);
      assert stream[used].value.blockIndex == c && stream[used].value.blockCount == n;
      hide Cyclic;
      if IsProgress(next) {
        CyclicStreamCompletes(next, stream, used + 1, Next(c, n), n);
      } else {
        assert Reassemble(next, stream, used + 1) == Complete(used + 1, next.window);
      }
    }
  }

  /**
    2n further blocks of a loss-free stream complete a frame from every state, except exactly when
    the next block is the expected one of a frame that was begun under a larger count.
  */
  lemma CompleteWithinTwoFrames(p: Progress, stream: seq<Option<ScanBlock>>, used: nat, c: nat, n: nat)
    requires IsProgress(p) && Cyclic(stream, used, c, n) && |stream| == used + 2 * n
    ensures Reassemble(p, stream, used).Complete? <==> !(0 < |p.window| == c && n < p.count)
  {
    assert c < n;
    hide Cyclic, Reassemble;
    CyclicStreamCompletes(p, stream, used, c, n);
  }

  /** At most 2n - 1 reads from a fresh call, exactly n from block 0. */
  lemma FreshReadsBounds(c: nat, n: nat)
    requires c < n
    ensures n <= ReadsNeeded(0, FRESH.count, c, n) <= 2 * n - 1
    ensures ReadsNeeded(0, FRESH.count, 0, n) == n
  {
  }

  /** The blocks from `start` on. */
  function Blocks(stream: seq<Option<ScanBlock>>, start: nat, n: nat): (blocks: seq<ScanBlock>)
    requires start + n <= |stream| && forall k :: start <= k < |stream| ==> stream[k].Some?
  {
    seq(n, i requires 0 <= i < n => stream[start + i].value)
  }

  /** A fresh call anywhere in a loss-free stream skips to the next block 0 and returns the n blocks from there. */
  lemma NextFrame(stream: seq<Option<ScanBlock>>, start: nat, c: nat, n: nat)
    requires Cyclic(stream, start, c, n) && start + ReadsNeeded(0, FRESH.count, c, n) <= |stream|
    ensures
      var used := start + ReadsNeeded(0, FRESH.count, c, n);
      Reassemble(FRESH, stream, start) == Complete(used, Blocks(stream, used - n, n)) && Cyclic(stream, used, 0, n)
  {
    CyclicStreamCompletes(FRESH, stream, start, c, n);
    FrameIsLastBlocksRead(stream, start);
    var r := Reassemble(FRESH, stream, start);
    hide Reassemble;
    assert r.window[0].blockCount == n by {
      assert stream[r.used - |r.window|] == Some(r.window[0]);
    }
    assert r.window == Blocks(stream, r.used - n, n);
  }

  /** The windows returned by m consecutive calls, each starting where the one before ended. */
  function Windows(stream: seq<Option<ScanBlock>>, start: nat, m: nat): (windows: seq<seq<ScanBlock>>)
    requires start <= |stream|
    decreases m
  {
    if m == 0 then []
    else
      var r := Reassemble(FRESH, stream, start);
      if r.Complete? && r.used <= |stream| then [r.window] + Windows(stream, r.used, m - 1) else []
  }

  lemma BlocksAppend(stream: seq<Option<ScanBlock>>, start: nat, a: nat, b: nat)
    requires start + a + b <= |stream| && forall k :: start <= k < |stream| ==> stream[k].Some?
    ensures Blocks(stream, start, a + b) == Blocks(stream, start, a) + Blocks(stream, start + a, b)
  {
  }

  lemma OneMore(m: nat, n: nat)
    requires m > 0
    ensures m * n == n + (m - 1) * n && (m - 1) * n >= 0
  {
  }

  /** On a loss-free stream m consecutive calls return the next m frames, none skipped or repeated. */
  lemma {:induction false} ConsecutiveFrames(stream: seq<Option<ScanBlock>>, start: nat, n: nat, m: nat)
    requires Cyclic(stream, start, 0, n)
    requires start + m * n <= |stream|
    ensures |Windows(stream, start, m)| == m
    ensures Concat(Windows(stream, start, m)) == Blocks(stream, start, m * n)
    decreases m
  {
    if m > 0 {
      OneMore(m, n);
      NextFrame(stream, start, 0, n);
      hide Reassemble;
      ConsecutiveFrames(stream, start + n, n, m - 1);
      BlocksAppend(stream, start, n, (m - 1) * n);
    }
  }
}
