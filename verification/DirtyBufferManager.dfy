/** The dirty-buffer manager: one table, changed by inserts and by backed-up marks. */
module DirtyBuffers {
  import opened Arithmetic
  import opened MachineTypes
  import opened Sequences
  import opened DirtyLedger

  datatype Stats = Stats(dirtyBlocksCount: nat, dirtyBytes: nat)

  function JobSizes(rows: seq<Row>, jobId: string): seq<int> {
    if rows == [] then []
    else
      JobSizes(rows[..|rows| - 1], jobId)
      + if rows[|rows| - 1].block.jobId == jobId then [rows[|rows| - 1].block.blockSize] else []
  }

  lemma {:induction false} JobSizesNonNegative(rows: seq<Row>, jobId: string)
    ensures Sum(JobSizes(rows, jobId)) >= 0
  {
    if rows != [] {
      var k := |rows| - 1;
      var front, size: int := JobSizes(rows[..k], jobId), rows[k].block.blockSize;
      JobSizesNonNegative(rows[..k], jobId);
      assert (front + [size])[..|front|] == front;
      assert Sum(front + [size]) == Sum(front) + size;
      assert front + [] == front;
    }
  }

  lemma NewRowsSplit(rows: seq<Row>, blocks: seq<DirtyBlock>)
    ensures blocks == [] ==> NewRows(rows, blocks) == rows
    ensures blocks != [] ==>
              var k := |blocks| - 1;
              NewRows(rows, blocks) == NewRows(rows, blocks[..k]) + [Row(|rows| + |blocks|, blocks[k], false)]
  {
  }

  lemma {:induction false} FreshJobSizes(rows: seq<Row>, blocks: seq<DirtyBlock>, jobId: string, blockSize: uint32)
    requires NoRowsFor(rows, jobId)
    requires forall k :: 0 <= k < |blocks| ==> blocks[k].jobId == jobId && blocks[k].blockSize == blockSize
    ensures |JobSizes(NewRows(rows, blocks), jobId)| == |blocks|
    ensures Sum(JobSizes(NewRows(rows, blocks), jobId)) == |blocks| * blockSize
  {
    hide JobSizes, NewRows, NoRowsFor, Sum;
    NewRowsSplit(rows, blocks);
    if blocks == [] {
      NoJobSizes(rows, jobId);
      SumEmpty();
    } else {
      var k := |blocks| - 1;
      FreshJobSizes(rows, blocks[..k], jobId, blockSize);
      JobSizesAppend(NewRows(rows, blocks[..k]), Row(|rows| + |blocks|, blocks[k], false), jobId);
      SumOneMore(JobSizes(NewRows(rows, blocks[..k]), jobId), blockSize);
      Distribute(k, 1, blockSize);
    }
  }

  lemma SumEmpty()
    ensures Sum([]) == 0
  {
  }

  lemma SumOneMore(s: seq<int>, x: int)
    ensures Sum(s + [x]) == Sum(s) + x
  {
    TakeOfAppend(s, x);
  }

  lemma {:induction false} NoJobSizes(rows: seq<Row>, jobId: string)
    requires NoRowsFor(rows, jobId)
    ensures JobSizes(rows, jobId) == []
  {
    if rows != [] { NoJobSizes(rows[..|rows| - 1], jobId); }
  }

  /** The sizes of the blocks recorded for the job, in order. */
  function RecordedSizes(h: seq<Event>, jobId: string): seq<int> {
    if h == [] then []
    else
      var e := h[|h| - 1];
      RecordedSizes(h[..|h| - 1], jobId) + if e.Recorded? && e.block.jobId == jobId then [e.block.blockSize] else []
  }

  lemma {:induction false} MarksKeepSizes(rows: seq<Row>, e: Event, jobId: string)
    ensures JobSizes(Marked(rows, e), jobId) == JobSizes(rows, jobId)
  {
    if rows != [] {
      var k := |rows| - 1;
      MarksKeepSizes(rows[..k], e, jobId);
      assert Marked(rows, e)[..k] == Marked(rows[..k], e);
    }
  }

  lemma JobSizesAppend(rows: seq<Row>, row: Row, jobId: string)
    ensures JobSizes(rows + [row], jobId) ==
            JobSizes(rows, jobId) + if row.block.jobId == jobId then [row.block.blockSize] else []
  {
    TakeOfAppend(rows, row);
  }

  /** The job's rows have the sizes of what was recorded for it. */
  lemma {:induction false} JobSizesAreRecorded(h: seq<Event>, jobId: string)
    ensures JobSizes(RowsAfter(h), jobId) == RecordedSizes(h, jobId)
  {
    if h != [] {
      var rows, e := RowsAfter(h[..|h| - 1]), h[|h| - 1];
      JobSizesAreRecorded(h[..|h| - 1], jobId);
      assert RowsAfter(h) == Apply(rows, e);
      hide JobSizes;
      if e.Recorded? {
        JobSizesAppend(rows, Row(|rows| + 1, e.block, false), jobId);
      } else {
        MarksKeepSizes(rows, e, jobId);
        assert RecordedSizes(h[..|h| - 1], jobId) + [] == RecordedSizes(h[..|h| - 1], jobId);
      }
    }
  }

  // ---- Batches -----------------------------------------------------------

  /** The blocks with an empty timestamp replaced by the time of the insert. */
  function Stamped(blocks: seq<DirtyBlock>, now: string): (r: seq<DirtyBlock>)
    ensures |r| == |blocks|
  {
    seq(|blocks|, k requires 0 <= k < |blocks| =>
      if blocks[k].dirtyAt == "" then blocks[k].(dirtyAt := now) else blocks[k])
  }

  function Records(blocks: seq<DirtyBlock>): seq<Event> {
    seq(|blocks|, k requires 0 <= k < |blocks| => Recorded(blocks[k]))
  }

  /** The table and its history after the first i blocks of a batch. */
  ghost predicate Batched(rows: seq<Row>, h: seq<Event>, blocks: seq<DirtyBlock>, now: string, i: nat,
                          after: seq<Row>, history: seq<Event>)
    requires i <= |blocks|
  {
    after == NewRows(rows, Stamped(blocks, now)[..i]) && history == h + Records(Stamped(blocks, now)[..i])
  }

  lemma BatchStart(rows: seq<Row>, h: seq<Event>, blocks: seq<DirtyBlock>, now: string)
    ensures Batched(rows, h, blocks, now, 0, rows, h)
  {
    assert NewRows(rows, []) == rows;
    assert h + Records([]) == h;
  }

  lemma NewRowsStep(rows: seq<Row>, blocks: seq<DirtyBlock>, block: DirtyBlock)
    ensures NewRows(rows, blocks + [block]) == NewRows(NewRows(rows, blocks), [block])
    ensures NewRows(rows, [block]) == rows + [Row(|rows| + 1, block, false)]
  {
  }

  lemma RecordsStep(h: seq<Event>, blocks: seq<DirtyBlock>, block: DirtyBlock)
    ensures h + Records(blocks + [block]) == h + Records(blocks) + [Recorded(block)]
  {
  }

  lemma BatchStep(rows: seq<Row>, h: seq<Event>, blocks: seq<DirtyBlock>, now: string, i: nat,
                  after: seq<Row>, history: seq<Event>)
    requires i < |blocks| && Batched(rows, h, blocks, now, i, after, history)
    ensures var block := if blocks[i].dirtyAt == "" then blocks[i].(dirtyAt := now) else blocks[i];
            Batched(rows, h, blocks, now, i + 1, NewRows(after, [block]), history + [Recorded(block)])
  {
    hide NewRows, Records;
    var stamped := Stamped(blocks, now);
    TakeNext(stamped, i);
    NewRowsStep(rows, stamped[..i], stamped[i]);
    RecordsStep(h, stamped[..i], stamped[i]);
  }

  lemma BatchEnd(rows: seq<Row>, h: seq<Event>, blocks: seq<DirtyBlock>, now: string,
                 after: seq<Row>, history: seq<Event>)
    requires Batched(rows, h, blocks, now, |blocks|, after, history)
    ensures after == NewRows(rows, Stamped(blocks, now)) && history == h + Records(Stamped(blocks, now))
  {
    hide NewRows, Records;
    TakeAll(Stamped(blocks, now));
  }

  class DirtyBufferManager {
    var rows: seq<Row>
    ghost var history: seq<Event>

    /** The table is what the recorded events make of an empty one. */
    ghost predicate Valid()
      reads this
    {
      rows == RowsAfter(history)
    }

    constructor ()
      ensures Valid() && rows == [] && history == []
    {
      rows := [];
      history := [];
    }

    /** INSERT INTO dirty_buffers: the next id, not backed up. */
    method Insert(block: DirtyBlock)
      requires Valid()
      modifies this
      ensures Valid()
      ensures history == old(history) + [Recorded(block)] && rows == NewRows(old(rows), [block])
    {
      RowsAfterAppend(history, Recorded(block));
      NewRowsStep(rows, [], block);
      rows := rows + [Row(|rows| + 1, block, false)];
      history := history + [Recorded(block)];
    }

    /** A block without a time stamp is given the current time, but its text is freed before
        the statement runs: what is stored is whatever that memory then holds. */
    method RecordDirtyBlock(block: DirtyBlock, freedText: string)
      requires Valid()
      modifies this
      ensures Valid()
      ensures var stored := if block.dirtyAt == "" then block.(dirtyAt := freedText) else block;
              history == old(history) + [Recorded(stored)] && rows == NewRows(old(rows), [stored])
    {
      Insert(if block.dirtyAt == "" then block.(dirtyAt := freedText) else block);
    }

    /** One transaction: every block is inserted, in order, not yet backed up. */
    method RecordDirtyBlocksBatch(blocks: seq<DirtyBlock>, now: string)
      requires Valid()
      modifies this
      ensures Valid()
      ensures rows == NewRows(old(rows), Stamped(blocks, now))
      ensures history == old(history) + Records(Stamped(blocks, now))
    {
      hide NewRows, Records, Stamped, RowsAfter;
      BatchStart(rows, history, blocks, now);
      for i := 0 to |blocks|
        invariant Valid()
        invariant Batched(old(rows), old(history), blocks, now, i, rows, history)
      {
        BatchStep(old(rows), old(history), blocks, now, i, rows, history);
        Insert(if blocks[i].dirtyAt == "" then blocks[i].(dirtyAt := now) else blocks[i]);
      }
      BatchEnd(old(rows), old(history), blocks, now, rows, history);
    }

    method RecordFromBitmap(jobId: string, sourcePath: string, bitmap: seq<bool>, blockSize: uint32, now: string)
      requires Valid() && |bitmap| < TWO_64 && now != ""
      modifies this
      ensures Valid()
      ensures rows == NewRows(old(rows), BitmapBlocks(jobId, sourcePath, bitmap, blockSize, now))
      ensures history == old(history) + Records(BitmapBlocks(jobId, sourcePath, bitmap, blockSize, now))
      ensures NoRowsFor(old(rows), jobId) ==>
                Sum(JobSizes(rows, jobId)) == CountTrue(bitmap) * blockSize
    {
      var blocks: seq<DirtyBlock> := [];
      for i := 0 to |bitmap|
        invariant blocks == BitmapBlocks(jobId, sourcePath, bitmap[..i], blockSize, now)
      {
        assert bitmap[..i + 1][..i] == bitmap[..i];
        if bitmap[i] {
          blocks := blocks +
            [DirtyBlock(jobId, sourcePath, i, blockSize, i * blockSize % TWO_64, WRITE, now, "", "")];
        }
      }
      TakeAll(bitmap);
      BitmapBlocksAreSetBits(jobId, sourcePath, bitmap, blockSize, now);
      SetBitsAscending(bitmap);
      assert Stamped(blocks, now) == blocks;
      RecordDirtyBlocksBatch(blocks, now);
      if NoRowsFor(old(rows), jobId) {
        FreshJobSizes(old(rows), blocks, jobId, blockSize);
      }
    }

    method MarkBackedUp(jobId: string)
      requires Valid()
      modifies this
      ensures Valid() && history == old(history) + [JobMarked(jobId)]
      ensures |rows| == |old(rows)|
      ensures forall r :: 0 <= r < |rows| ==>
                rows[r] == old(rows)[r].(isBackedUp := old(rows)[r].isBackedUp || old(rows)[r].block.jobId == jobId)
    {
      RowsAfterAppend(history, JobMarked(jobId));
      rows := Marked(rows, JobMarked(jobId));
      history := history + [JobMarked(jobId)];
    }

    method MarkBlockBackedUp(blockId: int)
      requires Valid()
      modifies this
      ensures Valid() && history == old(history) + [RowMarked(blockId)]
      ensures |rows| == |old(rows)|
      ensures forall r :: 0 <= r < |rows| ==>
                rows[r] == old(rows)[r].(isBackedUp := old(rows)[r].isBackedUp || old(rows)[r].id == blockId)
    {
      RowsAfterAppend(history, RowMarked(blockId));
      rows := Marked(rows, RowMarked(blockId));
      history := history + [RowMarked(blockId)];
    }

    /** All rows of the job in block order, each as often as the table holds it. */
    method GetDirtyBlocks(jobId: string) returns (results: seq<Row>)
      ensures SortedByOffset(results)
      ensures forall row :: multiset(results)[row] == if row.block.jobId == jobId then multiset(rows)[row] else 0
    {
      SelectAnswer(rows, jobId, false);
      results := Select(rows, jobId, false);
    }

    /** An offset is listed exactly when a record of it came after the last mark covering
        the row that the record made. */
    method GetUnbackedBlocks(jobId: string) returns (results: seq<Row>)
      requires Valid()
      ensures SortedByOffset(results)
      ensures forall row :: multiset(results)[row] ==
                if row.block.jobId == jobId && !row.isBackedUp then multiset(rows)[row] else 0
      ensures forall offset: uint64 ::
                ListsOffset(results, offset) <==> exists i :: 0 <= i < |history| && Outstanding(history, jobId, offset, i)
    {
      SelectAnswer(rows, jobId, true);
      results := Select(rows, jobId, true);
      forall offset: uint64
        ensures ListsOffset(results, offset) <==> exists i :: 0 <= i < |history| && Outstanding(history, jobId, offset, i)
      {
        UnbackedExactly(history, jobId, offset);
      }
    }

    /** All that was ever recorded for the job, marked or not. */
    method GetStats(jobId: string) returns (stats: Stats)
      requires Valid()
      ensures stats.dirtyBlocksCount == |RecordedSizes(history, jobId)|
      ensures stats.dirtyBytes == Sum(RecordedSizes(history, jobId))
    {
      JobSizesAreRecorded(history, jobId);
      JobSizesNonNegative(rows, jobId);
      stats := Stats(|JobSizes(rows, jobId)|, Sum(JobSizes(rows, jobId)));
    }
  }
}
