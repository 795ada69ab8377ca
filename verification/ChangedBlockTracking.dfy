/** The changed-block tracker: a bitmap with a cached count of its set bits. */
module ChangedBlocks {
  import opened Arithmetic
  import opened MachineTypes
  import opened Sequences
  import opened BlockRuns
  import opened RunLength

  class ChangedBlockTracking {
    const totalBlocks: uint64
    const blockSize: uint32
    var bitmap: seq<bool>
    var changedCount: nat

    /** The count is right, and the bitmap is no longer than the device. Decoding foreign
        bytes guarantees this much and no more. */
    ghost predicate Counted()
      reads this
    {
      |bitmap| <= totalBlocks && changedCount == CountTrue(bitmap)
    }

    /** The bitmap has one bit for every block: what marking and exporting rely on. */
    ghost predicate Valid()
      reads this
    {
      Counted() && |bitmap| == totalBlocks
    }

    constructor (totalBlocks: uint64, blockSize: uint32 := 4096)
      ensures Valid()
      ensures this.totalBlocks == totalBlocks && this.blockSize == blockSize
      ensures bitmap == Repeat(false, totalBlocks) && changedCount == 0
    {
      CountTrueRepeat(false, totalBlocks);
      this.totalBlocks := totalBlocks;
      this.blockSize := blockSize;
      bitmap := Repeat(false, totalBlocks);
      changedCount := 0;
    }

    method MarkChanged(blockIndex: uint64)
      requires Valid()
      modifies this
      ensures Valid()
      ensures bitmap == MarkBits(old(bitmap), blockIndex, blockIndex + 1)
    {
      if blockIndex < totalBlocks && !bitmap[blockIndex] {
        CountTrueSet(bitmap, blockIndex);
        bitmap := bitmap[blockIndex := true];
        changedCount := changedCount + 1;
      }
      assert bitmap == MarkBits(old(bitmap), blockIndex, blockIndex + 1);
    }

    method MarkRange(start: uint64, end: uint64)
      requires Valid()
      modifies this
      ensures Valid()
      ensures bitmap == MarkBits(old(bitmap), start, end)
    {
      var i := start;
      var stop := if end < totalBlocks then end else totalBlocks;
      assert bitmap == MarkBits(old(bitmap), start, i);
      while i < stop && i < totalBlocks
        invariant Valid()
        invariant start <= i && (i <= stop || i == start)
        invariant bitmap == MarkBits(old(bitmap), start, i)
      {
        MarkChanged(i);
        i := i + 1;
        assert bitmap == MarkBits(old(bitmap), start, i);
      }
      assert bitmap == MarkBits(old(bitmap), start, end);
    }

    /** One range for each maximal run of set bits, in ascending order. */
    method GetChangedBlocks() returns (ranges: seq<BlockRange>)
      requires Valid()
      ensures ranges == Export(Runs(bitmap), blockSize)
    {
      ranges := [];
      var inRange, rangeStart := false, 0;
      ghost var closed: seq<Run> := [];
      var i := 0;
      while i < totalBlocks
        invariant 0 <= i <= totalBlocks
        invariant ranges == Export(closed, blockSize)
        invariant inRange ==> rangeStart < i
        invariant Runs(bitmap[..i]) == WithOpen(closed, inRange, rangeStart, i)
        invariant !inRange && closed != [] ==> closed[|closed| - 1].end < i
      {
        hide Runs, Export, ToRange;
        BlockRuns.ScanStep(bitmap, closed, inRange, rangeStart, i);
        if bitmap[i] {
          if !inRange {
            rangeStart := i;
            inRange := true;
          }
        } else {
          if inRange {
            ExportAppend(closed, Run(rangeStart, i), blockSize);
            ranges := ranges + [ToRange(Run(rangeStart, i), blockSize)];
            closed := closed + [Run(rangeStart, i)];
            inRange := false;
          }
        }
        i := i + 1;
      }
      TakeAll(bitmap);
      if inRange {
        ExportAppend(closed, Run(rangeStart, totalBlocks), blockSize);
        ranges := ranges + [ToRange(Run(rangeStart, totalBlocks), blockSize)];
      }
    }

    method CompressBitmapRle() returns (result: seq<byte>)
      ensures result == Compress(bitmap)
    {
      result := [];
      if bitmap == [] {
        return;
      }
      var current, count := bitmap[0], 1;
      var i := 1;
      ScanFirst(bitmap);
      hide OpenRecord, ClosedBytes, RecordBytes, Compress;
      while i < |bitmap|
        invariant 1 <= i <= |bitmap|
        invariant 1 <= count <= MAX_COUNT && Record(current, count) == OpenRecord(bitmap, i)
        invariant result == ClosedBytes(bitmap, i)
      {
        RunLength.ScanStep(bitmap, i);
        if bitmap[i] == current && count < MAX_COUNT {
          count := count + 1;
        } else {
          result := result + RecordBytes(Record(current, count));
          current := bitmap[i];
          count := 1;
        }
        i := i + 1;
      }
      ScanEnd(bitmap);
      result := result + RecordBytes(Record(current, count));
    }

    /** The decoder's inner loop: copies of one value, as many as still fit. */
    method AppendCopies(value: bool, count: nat)
      requires Counted()
      modifies this
      ensures Counted()
      ensures var room := totalBlocks - |old(bitmap)|;
              bitmap == old(bitmap) + Repeat(value, if count < room then count else room)
    {
      var j := 0;
      while j < count && |bitmap| < totalBlocks
        invariant 0 <= j <= count
        invariant Counted() && bitmap == old(bitmap) + Repeat(value, j)
      {
        assert old(bitmap) + Repeat(value, j + 1) == old(bitmap) + Repeat(value, j) + [value];
        bitmap := bitmap + [value];
        if value {
          changedCount := changedCount + 1;
        }
        j := j + 1;
      }
    }

    /** Any bytes at all are accepted; the bitmap may come out shorter than the device. */
    method DecompressBitmapRle(data: seq<byte>)
      modifies this
      ensures Counted()
      ensures bitmap == Decode(FromBytes(data), totalBlocks)
    {
      bitmap := [];
      changedCount := 0;
      var i := 0;
      ghost var k := 0;
      while i + 2 < |data|
        invariant i == 3 * k <= |data|
        invariant Counted() && bitmap == DecodedPrefix(data, k, totalBlocks)
      {
        DecodedNext(data, k, totalBlocks);
        AppendCopies(data[i] != 0, ByteAt(data, i + 1) * 256 + ByteAt(data, i + 2));
        i := i + 3;
        k := k + 1;
      }
      DecodedAll(data, k, totalBlocks);
    }

    /** The bytes written to the file. */
    method Save() returns (file: seq<byte>)
      ensures file == FileOf(bitmap)
    {
      var compressed := CompressBitmapRle();
      file := Le32(|compressed|) + compressed;
    }

    /** No file leaves the tracker alone; any file replaces the bitmap and recounts it. */
    method Load(file: Option<seq<byte>>) returns (ok: bool)
      modifies this
      ensures ok == file.Some?
      ensures file.None? ==> bitmap == old(bitmap) && changedCount == old(changedCount)
      ensures file.Some? ==> Counted() && bitmap == Loaded(file.value, totalBlocks)
    {
      if file.None? {
        return false;
      }
      DecompressBitmapRle(Payload(file.value));
      return true;
    }

    method Reset()
      modifies this
      ensures bitmap == Repeat(false, |old(bitmap)|) && changedCount == 0
      ensures old(Valid()) ==> Valid()
    {
      bitmap := Repeat(false, |bitmap|);
      changedCount := 0;
      CountTrueRepeat(false, |bitmap|);
    }
  }

  /** A fresh tracker on which every exported range has been marked again. */
  method Replay(ranges: seq<BlockRange>, totalBlocks: uint64, blockSize: uint32)
    returns (tracker: ChangedBlockTracking)
    requires blockSize > 0
    ensures tracker.Valid() && tracker.totalBlocks == totalBlocks && tracker.blockSize == blockSize
    ensures tracker.bitmap == ReplayBits(ranges, blockSize, totalBlocks)
  {
    tracker := new ChangedBlockTracking(totalBlocks, blockSize);
    for i := 0 to |ranges|
      invariant fresh(tracker) && tracker.Valid()
      invariant tracker.totalBlocks == totalBlocks && tracker.blockSize == blockSize
      invariant tracker.bitmap == ReplayBits(ranges[..i], blockSize, totalBlocks)
    {
      ReplayStep(ranges, i, blockSize, totalBlocks);
      tracker.MarkRange(StartBlock(ranges[i], blockSize), EndBlock(ranges[i], blockSize));
    }
    TakeAll(ranges);
  }

  function StartBlock(r: BlockRange, blockSize: uint32): uint64
    requires blockSize > 0
  {
    SmallerQuotient(r.offset, blockSize);
    r.offset / blockSize
  }

  /** The block behind the range; a range that ends beyond 2^64 ends behind all blocks. */
  function EndBlock(r: BlockRange, blockSize: uint32): uint64
    requires blockSize > 0
  {
    SmallerQuotient(r.offset + r.size, blockSize);
    if (r.offset + r.size) / blockSize < TWO_64 then (r.offset + r.size) / blockSize else TWO_64 - 1
  }

  lemma SmallerQuotient(x: nat, blockSize: uint32)
    requires blockSize > 0
    ensures 0 <= x / blockSize <= x
  {
    MulSign(blockSize, x / blockSize);
    if x / blockSize > 0 { MulSign(x / blockSize, blockSize); }
  }

  lemma ReplayStep(ranges: seq<BlockRange>, i: nat, blockSize: uint32, totalBlocks: uint64)
    requires blockSize > 0 && i < |ranges|
    ensures ReplayBits(ranges[..i + 1], blockSize, totalBlocks) ==
            MarkBits(ReplayBits(ranges[..i], blockSize, totalBlocks), StartBlock(ranges[i], blockSize), EndBlock(ranges[i], blockSize))
  {
    TakeNext(ranges, i);
    var before, r := ReplayBits(ranges[..i], blockSize, totalBlocks), ranges[i];
    assert ReplayBits(ranges[..i + 1], blockSize, totalBlocks) ==
      MarkBits(before, r.offset / blockSize, (r.offset + r.size) / blockSize);
    hide ReplayBits;
  }

  /** Export, replay, compare: the rebuilt tracker equals the original, count included,
      exactly when no run's offset or size was truncated. */
  method ExportAndReplay(tracker: ChangedBlockTracking)
    returns (ranges: seq<BlockRange>, rebuilt: ChangedBlockTracking)
    requires tracker.Valid() && tracker.blockSize > 0
    ensures ranges == Export(Runs(tracker.bitmap), tracker.blockSize)
    ensures rebuilt.bitmap == tracker.bitmap <==>
      forall i :: 0 <= i < |Runs(tracker.bitmap)| ==> Exact(Runs(tracker.bitmap)[i], tracker.blockSize)
    ensures rebuilt.bitmap == tracker.bitmap ==> rebuilt.changedCount == tracker.changedCount
  {
    hide Runs, Export, ReplayBits, Exact;
    ranges := tracker.GetChangedBlocks();
    rebuilt := Replay(ranges, tracker.totalBlocks, tracker.blockSize);
    ReplayRestores(tracker.bitmap, tracker.blockSize);
  }

  /** Loading arbitrary bytes keeps the class invariant exactly when the record counts
      reach the number of blocks. */
  method LoadForeign(tracker: ChangedBlockTracking, file: seq<byte>)
    modifies tracker
    ensures tracker.Counted()
    ensures tracker.Valid() <==> Sum(Counts(FromBytes(Payload(file)))) >= tracker.totalBlocks
  {
    var _ := tracker.Load(Some(file));
    DecodeLength(FromBytes(Payload(file)), tracker.totalBlocks);
  }

  /** Saving one tracker and loading the file into another of the same size copies bitmap
      and count exactly when the compressed bitmap is shorter than 2^32 bytes. */
  method SaveThenLoad(source: ChangedBlockTracking, target: ChangedBlockTracking)
    requires source.Valid() && source != target && target.totalBlocks == source.totalBlocks
    modifies target
    ensures target.bitmap == source.bitmap <==> |Compress(source.bitmap)| < TWO_32
    ensures target.bitmap == source.bitmap ==> target.Valid() && target.changedCount == source.changedCount
  {
    var file := source.Save();
    var _ := target.Load(Some(file));
    SaveLoadRoundTrip(source.bitmap);
  }
}
