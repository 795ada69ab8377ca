/** The dirty-block ledger as a value: the rows of the table, the queries on it, and the
    history of records and marks that produced it. */
module DirtyLedger {
  import opened Arithmetic
  import opened MachineTypes
  import opened Sequences
  import opened BlockRuns

  datatype DirtyReason = WRITE | DELETE | MODIFY | METADATA_CHANGE | TRUNCATE | EXTEND

  datatype DirtyBlock = DirtyBlock(
    jobId: string,
    sourcePath: string,
    blockOffset: uint64,
    blockSize: uint32,
    lba: uint64,
    reason: DirtyReason,
    dirtyAt: string,
    checksum: string,
    originalHash: string)

  datatype Row = Row(id: nat, block: DirtyBlock, isBackedUp: bool)

  // ---- History -----------------------------------------------------------

  datatype Event =
    | Recorded(block: DirtyBlock)
    | JobMarked(jobId: string)
    | RowMarked(id: int)

  /** Does this mark cover the given row? */
  predicate Covers(e: Event, id: nat, jobId: string) {
    (e.JobMarked? && e.jobId == jobId) || (e.RowMarked? && e.id == id)
  }

  function Marked(rows: seq<Row>, e: Event): (r: seq<Row>)
    ensures |r| == |rows|
  {
    seq(|rows|, i requires 0 <= i < |rows| =>
      if Covers(e, rows[i].id, rows[i].block.jobId) then rows[i].(isBackedUp := true) else rows[i])
  }

  /** Row ids are handed out in order, beginning at 1. */
  function Apply(rows: seq<Row>, e: Event): seq<Row> {
    if e.Recorded? then rows + [Row(|rows| + 1, e.block, false)] else Marked(rows, e)
  }

  function RowsAfter(h: seq<Event>): seq<Row> {
    if h == [] then [] else Apply(RowsAfter(h[..|h| - 1]), h[|h| - 1])
  }

  lemma RowsAfterAppend(h: seq<Event>, e: Event)
    ensures RowsAfter(h + [e]) == Apply(RowsAfter(h), e)
  {
    TakeOfAppend(h, e);
  }

  lemma {:induction false} RowIds(h: seq<Event>)
    ensures forall r :: 0 <= r < |RowsAfter(h)| ==> RowsAfter(h)[r].id == r + 1
  {
    if h != [] { RowIds(h[..|h| - 1]); }
  }

  /** The row that event i of the history inserted, counted from 0. */
  function RowOf(h: seq<Event>, i: nat): nat
    requires i < |h|
  {
    |RowsAfter(h[..i])|
  }

  ghost predicate MarkedSince(h: seq<Event>, i: nat, id: nat, jobId: string) {
    exists j :: i < j < |h| && Covers(h[j], id, jobId)
  }

  lemma MarkedSinceAppend(h: seq<Event>, e: Event, i: nat, id: nat, jobId: string)
    requires i < |h|
    ensures MarkedSince(h + [e], i, id, jobId) <==> MarkedSince(h, i, id, jobId) || Covers(e, id, jobId)
  {
    var g := h + [e];
    assert g[|h|] == e;
    if MarkedSince(h, i, id, jobId) {
      var j :| i < j < |h| && Covers(h[j], id, jobId);
      assert Covers(g[j], id, jobId);
    }
  }

  /** A recorded block keeps its row for ever, and the row is backed up exactly when some
      later mark covers it. */
  lemma {:induction false} RowHistory(h: seq<Event>, i: nat)
    requires i < |h| && h[i].Recorded?
    ensures RowOf(h, i) < |RowsAfter(h)|
    ensures var row := RowsAfter(h)[RowOf(h, i)];
            && row.block == h[i].block && row.id == RowOf(h, i) + 1
            && (row.isBackedUp <==> MarkedSince(h, i, row.id, row.block.jobId))
  {
    var n := |h| - 1;
    var front := h[..n];
    SplitLast(h);
    RowsAfterAppend(front, h[n]);
    if i == n {
      assert h[..i] == front;
    } else {
      RowHistory(front, i);
      assert front[..i] == h[..i];
      MarkedSinceAppend(front, h[n], i, RowOf(h, i) + 1, h[i].block.jobId);
    }
  }

  /** Every row was inserted by some event. */
  lemma {:induction false} RowOrigin(h: seq<Event>, r: nat) returns (i: nat)
    requires r < |RowsAfter(h)|
    ensures i < |h| && h[i].Recorded? && RowOf(h, i) == r
  {
    var n := |h| - 1;
    if r < |RowsAfter(h[..n])| {
      i := RowOrigin(h[..n], r);
      assert h[..n][..i] == h[..i];
    } else {
      i := n;
    }
  }

  // ---- Queries -----------------------------------------------------------

  predicate Matches(row: Row, jobId: string, unbackedOnly: bool) {
    row.block.jobId == jobId && (unbackedOnly ==> !row.isBackedUp)
  }

  /** The column holds signed 64-bit values, so offsets from 2^63 up sort first. */
  function SortKey(row: Row): int {
    if row.block.blockOffset < TWO_63 then row.block.blockOffset else row.block.blockOffset - TWO_64
  }

  function InsertByOffset(sorted: seq<Row>, row: Row): seq<Row> {
    if sorted == [] || SortKey(sorted[|sorted| - 1]) <= SortKey(row) then sorted + [row]
    else InsertByOffset(sorted[..|sorted| - 1], row) + [sorted[|sorted| - 1]]
  }

  /** SELECT ... WHERE job_id = ? [AND is_backed_up = 0] ORDER BY block_offset. */
  function Select(rows: seq<Row>, jobId: string, unbackedOnly: bool): seq<Row> {
    if rows == [] then []
    else
      var front, row := Select(rows[..|rows| - 1], jobId, unbackedOnly), rows[|rows| - 1];
      if Matches(row, jobId, unbackedOnly) then InsertByOffset(front, row) else front
  }

  ghost predicate SortedByOffset(rows: seq<Row>) {
    forall i, j :: 0 <= i < j < |rows| ==> SortKey(rows[i]) <= SortKey(rows[j])
  }

  lemma {:induction false} InsertKeepsRows(sorted: seq<Row>, row: Row)
    ensures multiset(InsertByOffset(sorted, row)) == multiset(sorted) + multiset{row}
  {
    if sorted != [] && SortKey(sorted[|sorted| - 1]) > SortKey(row) {
      InsertKeepsRows(sorted[..|sorted| - 1], row);
      SplitLast(sorted);
    }
  }

  ghost predicate NoneBeyond(rows: seq<Row>, key: int) {
    forall i :: 0 <= i < |rows| ==> SortKey(rows[i]) <= key
  }

  lemma {:induction false} InsertKeepsSorted(sorted: seq<Row>, row: Row)
    requires SortedByOffset(sorted)
    ensures SortedByOffset(InsertByOffset(sorted, row))
    ensures forall key: int :: NoneBeyond(sorted, key) && SortKey(row) <= key ==>
              NoneBeyond(InsertByOffset(sorted, row), key)
  {
    if sorted != [] && SortKey(sorted[|sorted| - 1]) > SortKey(row) {
      var k := |sorted| - 1;
      InsertKeepsSorted(sorted[..k], row);
      assert NoneBeyond(sorted[..k], SortKey(sorted[k]));
    }
  }

  /** The query's answer is sorted and holds the matching rows, each as often as the
      table does. */
  lemma {:induction false} SelectAnswer(rows: seq<Row>, jobId: string, unbackedOnly: bool)
    ensures SortedByOffset(Select(rows, jobId, unbackedOnly))
    ensures forall row :: multiset(Select(rows, jobId, unbackedOnly))[row] ==
              if Matches(row, jobId, unbackedOnly) then multiset(rows)[row] else 0
  {
    if rows != [] {
      var k := |rows| - 1;
      SelectAnswer(rows[..k], jobId, unbackedOnly);
      InsertKeepsSorted(Select(rows[..k], jobId, unbackedOnly), rows[k]);
      InsertKeepsRows(Select(rows[..k], jobId, unbackedOnly), rows[k]);
      SplitLast(rows);
    }
  }

  /** Some unbacked row of the job holds this offset. */
  ghost predicate ListsOffset(answer: seq<Row>, offset: uint64) {
    exists k :: 0 <= k < |answer| && answer[k].block.blockOffset == offset
  }

  /** Event i recorded the offset for the job and no later mark covers the row it made. */
  predicate RecordsOffset(h: seq<Event>, jobId: string, offset: uint64, i: nat)
    requires i < |h|
  {
    h[i].Recorded? && h[i].block.jobId == jobId && h[i].block.blockOffset == offset
  }

  ghost predicate Outstanding(h: seq<Event>, jobId: string, offset: uint64, i: nat)
    requires i < |h|
  {
    RecordsOffset(h, jobId, offset, i) && !MarkedSince(h, i, RowOf(h, i) + 1, jobId)
  }

  /** Over any history of records and marks, an offset is listed as unbacked exactly when
      some record of it came after the last mark that covers its row. */
  lemma UnbackedExactly(h: seq<Event>, jobId: string, offset: uint64)
    ensures ListsOffset(Select(RowsAfter(h), jobId, true), offset)
       <==> exists i :: 0 <= i < |h| && Outstanding(h, jobId, offset, i)
  {
    var rows := RowsAfter(h);
    var answer := Select(rows, jobId, true);
    SelectAnswer(rows, jobId, true);
    if ListsOffset(answer, offset) {
      var k :| 0 <= k < |answer| && answer[k].block.blockOffset == offset;
      assert multiset(answer)[answer[k]] > 0;
      assert multiset(rows)[answer[k]] > 0;
      var r :| 0 <= r < |rows| && rows[r] == answer[k];
      var i := RowOrigin(h, r);
      RowHistory(h, i);
      assert Outstanding(h, jobId, offset, i);
    }
    if exists i :: 0 <= i < |h| && Outstanding(h, jobId, offset, i) {
      var i :| 0 <= i < |h| && Outstanding(h, jobId, offset, i);
      RowHistory(h, i);
      var row := rows[RowOf(h, i)];
      assert multiset(rows)[row] > 0;
      assert multiset(answer)[row] > 0;
      var k :| 0 <= k < |answer| && answer[k] == row;
      assert answer[k].block.blockOffset == offset;
    }
  }

  // ---- Recording a bitmap ------------------------------------------------

  /** The indices of the set bits. */
  function SetBits(b: seq<bool>): seq<nat> {
    if b == [] then []
    else SetBits(b[..|b| - 1]) + if b[|b| - 1] then [|b| - 1] else []
  }

  ghost predicate ListsSetBits(b: seq<bool>, blocks: seq<nat>) {
    && (forall k :: 0 <= k < |blocks| ==> blocks[k] < |b| && b[blocks[k]])
    && (forall j, k :: 0 <= j < k < |blocks| ==> blocks[j] < blocks[k])
    && (forall p :: 0 <= p < |b| && b[p] ==> p in blocks)
  }

  lemma ListsNextBit(b: seq<bool>, bit: bool, blocks: seq<nat>)
    requires ListsSetBits(b, blocks)
    ensures ListsSetBits(b + [bit], blocks + if bit then [|b|] else [])
  {
    var all := blocks + if bit then [|b|] else [];
    forall p | 0 <= p < |b| + 1 && (b + [bit])[p] ensures p in all {
      if p == |b| {
        assert all[|blocks|] == p;
      } else {
        assert p in blocks;
      }
    }
  }

  /** All set bits and nothing else, in ascending order. */
  lemma {:induction false} SetBitsAscending(b: seq<bool>)
    ensures |SetBits(b)| == CountTrue(b)
    ensures ListsSetBits(b, SetBits(b))
  {
    if b != [] {
      var n := |b| - 1;
      SetBitsAscending(b[..n]);
      ListsNextBit(b[..n], b[n], SetBits(b[..n]));
      assert SetBits(b) == SetBits(b[..n]) + if b[n] then [n] else [];
      SplitLast(b);
    }
  }

  function BlockAt(jobId: string, path: string, blockSize: uint32, ts: string, i: nat): DirtyBlock
    requires i < TWO_64
  {
    DirtyBlock(jobId, path, i, blockSize, (i * blockSize) % TWO_64, WRITE, ts, "", "")
  }

  function BitmapBlocks(jobId: string, path: string, b: seq<bool>, blockSize: uint32, ts: string): seq<DirtyBlock>
    requires |b| < TWO_64
  {
    if b == [] then []
    else
      BitmapBlocks(jobId, path, b[..|b| - 1], blockSize, ts)
      + if b[|b| - 1] then [BlockAt(jobId, path, blockSize, ts, |b| - 1)] else []
  }

  lemma {:induction false} BitmapBlocksAreSetBits(jobId: string, path: string, b: seq<bool>, blockSize: uint32, ts: string)
    requires |b| < TWO_64
    ensures var blocks := BitmapBlocks(jobId, path, b, blockSize, ts);
            && |blocks| == |SetBits(b)|
            && forall k :: 0 <= k < |blocks| ==>
                 SetBits(b)[k] < |b| && blocks[k] == BlockAt(jobId, path, blockSize, ts, SetBits(b)[k])
  {
    if b != [] {
      BitmapBlocksAreSetBits(jobId, path, b[..|b| - 1], blockSize, ts);
    }
  }

  /** A batch insert: one unbacked row for each block, in order. */
  function NewRows(rows: seq<Row>, blocks: seq<DirtyBlock>): seq<Row> {
    rows + seq(|blocks|, k requires 0 <= k < |blocks| => Row(|rows| + k + 1, blocks[k], false))
  }

  ghost predicate NoRowsFor(rows: seq<Row>, jobId: string) {
    forall i :: 0 <= i < |rows| ==> rows[i].block.jobId != jobId
  }

  lemma {:induction false} SelectNothing(rows: seq<Row>, jobId: string, unbackedOnly: bool)
    requires NoRowsFor(rows, jobId)
    ensures Select(rows, jobId, unbackedOnly) == []
  {
    if rows != [] { SelectNothing(rows[..|rows| - 1], jobId, unbackedOnly); }
  }

  lemma NewRowsAppend(rows: seq<Row>, blocks: seq<DirtyBlock>, block: DirtyBlock)
    ensures NewRows(rows, blocks + [block]) ==
            NewRows(rows, blocks) + [Row(|rows| + |blocks| + 1, block, false)]
  {
  }

  lemma SelectAppend(rows: seq<Row>, row: Row, jobId: string, unbackedOnly: bool)
    requires Matches(row, jobId, unbackedOnly)
    ensures Select(rows + [row], jobId, unbackedOnly) == InsertByOffset(Select(rows, jobId, unbackedOnly), row)
  {
    TakeOfAppend(rows, row);
  }

  /** A row goes between those with smaller keys and those with larger ones. */
  lemma {:induction false} InsertBetween(highs: seq<Row>, lows: seq<Row>, row: Row)
    requires highs == [] || SortKey(highs[|highs| - 1]) <= SortKey(row)
    requires forall i :: 0 <= i < |lows| ==> SortKey(lows[i]) > SortKey(row)
    ensures InsertByOffset(highs + lows, row) == highs + [row] + lows
  {
    if lows == [] {
      assert highs + lows == highs;
    } else {
      var k := |lows| - 1;
      InitOfAppend(highs, lows);
      InsertBetween(highs, lows[..k], row);
      assert highs + [row] + lows == highs + [row] + lows[..k] + [lows[k]];
    }
  }

  /** How many of the blocks have offsets that are not negative as signed values. */
  function SmallCount(blocks: seq<DirtyBlock>): nat {
    if blocks == [] then 0
    else SmallCount(blocks[..|blocks| - 1]) + if blocks[|blocks| - 1].blockOffset < TWO_63 then 1 else 0
  }

  ghost predicate Ascending(blocks: seq<DirtyBlock>) {
    forall j, k :: 0 <= j < k < |blocks| ==> blocks[j].blockOffset < blocks[k].blockOffset
  }

  lemma {:induction false} SmallFirst(blocks: seq<DirtyBlock>)
    requires Ascending(blocks)
    ensures SmallCount(blocks) <= |blocks|
    ensures forall k :: 0 <= k < |blocks| ==> (blocks[k].blockOffset < TWO_63 <==> k < SmallCount(blocks))
  {
    if blocks != [] {
      var n := |blocks| - 1;
      SmallFirst(blocks[..n]);
      assert forall k :: 0 <= k < n ==> blocks[..n][k] == blocks[k];
    }
  }

  lemma AscendingPrefix(blocks: seq<DirtyBlock>, k: nat)
    requires k <= |blocks| && Ascending(blocks)
    ensures Ascending(blocks[..k])
  {
  }

  /** What a query makes of a batch of which `low` have small offsets: large ones first. */
  function Listed<T>(s: seq<T>, low: nat): (r: seq<T>)
    requires low <= |s|
    ensures |r| == |s|
  {
    s[low..] + s[..low]
  }

  /** Where the k-th item of the list comes from. */
  function ListedFrom(n: nat, low: nat, k: nat): nat
    requires low <= n && k < n
  {
    if k < n - low then low + k else k - (n - low)
  }

  lemma ListedAt<T>(s: seq<T>, low: nat, k: nat)
    requires low <= |s| && k < |s|
    ensures Listed(s, low)[k] == s[ListedFrom(|s|, low, k)]
  {
  }

  function NewPart(rows: seq<Row>, blocks: seq<DirtyBlock>): (r: seq<Row>)
    ensures |r| == |blocks|
    ensures forall k :: 0 <= k < |r| ==> r[k] == Row(|rows| + k + 1, blocks[k], false)
  {
    NewRows(rows, blocks)[|rows|..]
  }

  lemma ListedAppend(part: seq<Row>, row: Row, low: nat)
    requires low <= |part|
    ensures low == |part| ==> Listed(part, low) == part && Listed(part + [row], low + 1) == part + [row]
    ensures Listed(part + [row], low) == part[low..] + [row] + part[..low]
  {
  }

  /** Rows appended in ascending order to an empty job come back in that order, but for the
      large offsets, which come first. */
  lemma {:induction false} SelectFresh(rows: seq<Row>, blocks: seq<DirtyBlock>, jobId: string, unbackedOnly: bool)
    requires NoRowsFor(rows, jobId) && Ascending(blocks)
    requires forall k :: 0 <= k < |blocks| ==> blocks[k].jobId == jobId
    ensures SmallCount(blocks) <= |blocks|
    ensures Select(NewRows(rows, blocks), jobId, unbackedOnly) == Listed(NewPart(rows, blocks), SmallCount(blocks))
  {
    SmallFirst(blocks);
    if blocks == [] {
      assert NewRows(rows, blocks) == rows;
      SelectNothing(rows, jobId, unbackedOnly);
    } else {
      var k := |blocks| - 1;
      var row := Row(|rows| + k + 1, blocks[k], false);
      AscendingPrefix(blocks, k);
      hide Ascending, NewRows, NewPart, Listed, Select, SmallCount, InsertByOffset;
      SelectFresh(rows, blocks[..k], jobId, unbackedOnly);
      SmallFirst(blocks[..k]);
      SplitLast(blocks);
      NewRowsAppend(rows, blocks[..k], blocks[k]);
      SelectAppend(NewRows(rows, blocks[..k]), row, jobId, unbackedOnly);
      InsertFresh(rows, blocks, row);
    }
  }

  lemma NewPartAppend(rows: seq<Row>, blocks: seq<DirtyBlock>, row: Row)
    requires blocks != [] && row == Row(|rows| + |blocks|, blocks[|blocks| - 1], false)
    ensures NewPart(rows, blocks) == NewPart(rows, blocks[..|blocks| - 1]) + [row]
  {
    hide NewPart;
  }

  lemma InsertSmall(part: seq<Row>, row: Row)
    requires row.block.blockOffset < TWO_63
    requires part == [] || part[|part| - 1].block.blockOffset <= row.block.blockOffset
    ensures InsertByOffset(Listed(part, |part|), row) == Listed(part + [row], |part| + 1)
  {
    ListedAppend(part, row, |part|);
    hide Listed;
    assert InsertByOffset(part, row) == part + [row];
  }

  lemma InsertLarge(part: seq<Row>, row: Row, low: nat)
    requires low <= |part| && row.block.blockOffset >= TWO_63
    requires forall i :: 0 <= i < low ==> part[i].block.blockOffset < TWO_63
    requires low < |part| ==> TWO_63 <= part[|part| - 1].block.blockOffset <= row.block.blockOffset
    ensures InsertByOffset(Listed(part, low), row) == Listed(part + [row], low)
  {
    ListedAppend(part, row, low);
    assert low < |part| ==> part[low..][|part| - low - 1] == part[|part| - 1];
    assert Listed(part, low) == part[low..] + part[..low];
    hide Listed, InsertByOffset;
    InsertBetween(part[low..], part[..low], row);
  }

  /** How a last block compares with those in front of it. */
  lemma LastOfAscending(blocks: seq<DirtyBlock>)
    requires blocks != [] && Ascending(blocks)
    ensures var k := |blocks| - 1; var low := SmallCount(blocks[..k]);
      && low <= k && SmallCount(blocks) == low + (if blocks[k].blockOffset < TWO_63 then 1 else 0)
      && (blocks[k].blockOffset < TWO_63 ==> low == k)
      && (forall i :: 0 <= i < low ==> blocks[i].blockOffset < TWO_63)
      && (low < k ==> TWO_63 <= blocks[k - 1].blockOffset)
      && (k > 0 ==> blocks[k - 1].blockOffset < blocks[k].blockOffset)
  {
    SmallFirst(blocks);
    SmallFirst(blocks[..|blocks| - 1]);
  }

  lemma InsertFresh(rows: seq<Row>, blocks: seq<DirtyBlock>, row: Row)
    requires blocks != [] && Ascending(blocks) && row == Row(|rows| + |blocks|, blocks[|blocks| - 1], false)
    requires SmallCount(blocks[..|blocks| - 1]) <= |blocks| - 1 && SmallCount(blocks) <= |blocks|
    ensures InsertByOffset(Listed(NewPart(rows, blocks[..|blocks| - 1]), SmallCount(blocks[..|blocks| - 1])), row)
      == Listed(NewPart(rows, blocks), SmallCount(blocks))
  {
    hide NewPart, SmallCount, InsertByOffset, Listed, Ascending;
    var k := |blocks| - 1;
    var part, low := NewPart(rows, blocks[..k]), SmallCount(blocks[..k]);
    NewPartAppend(rows, blocks, row);
    LastOfAscending(blocks);
    if row.block.blockOffset < TWO_63 {
      InsertSmall(part, row);
    } else {
      InsertLarge(part, row, low);
    }
  }

  lemma BitmapBlocksAscend(jobId: string, path: string, b: seq<bool>, blockSize: uint32, ts: string)
    requires |b| < TWO_64
    ensures var blocks := BitmapBlocks(jobId, path, b, blockSize, ts);
            && |blocks| == |SetBits(b)| && Ascending(blocks) && SmallCount(blocks) <= |blocks|
            && (|b| <= TWO_63 ==> SmallCount(blocks) == |blocks|)
            && (forall k :: 0 <= k < |blocks| ==> blocks[k].jobId == jobId)
            && (forall k :: 0 <= k < |blocks| ==> (SetBits(b)[k] < TWO_63 <==> k < SmallCount(blocks)))
  {
    hide BitmapBlocks, SetBits, SmallCount;
    var blocks, bits := BitmapBlocks(jobId, path, b, blockSize, ts), SetBits(b);
    BitmapBlocksAreSetBits(jobId, path, b, blockSize, ts);
    SetBitsAscending(b);
    assert Ascending(blocks) by {
      forall j, k | 0 <= j < k < |blocks| ensures blocks[j].blockOffset < blocks[k].blockOffset {
        assert blocks[j].blockOffset == bits[j] && blocks[k].blockOffset == bits[k];
      }
    }
    SmallFirst(blocks);
    hide ListsSetBits, Ascending;
    assert |blocks| > 0 ==> blocks[|blocks| - 1].blockOffset == bits[|blocks| - 1] < |b|;
  }

  /** Recording a bitmap into an empty job makes both queries list exactly its set bits,
      with the block's byte position as the lba: in ascending order, but for blocks from
      2^63 up, which come first. */
  lemma RecordedBitmap(rows: seq<Row>, jobId: string, path: string, b: seq<bool>, blockSize: uint32, ts: string, unbackedOnly: bool)
    requires |b| < TWO_64 && NoRowsFor(rows, jobId)
    ensures var answer := Select(NewRows(rows, BitmapBlocks(jobId, path, b, blockSize, ts)), jobId, unbackedOnly);
            var low := SmallCount(BitmapBlocks(jobId, path, b, blockSize, ts));
            && |answer| == |SetBits(b)| && low <= |SetBits(b)| && (|b| <= TWO_63 ==> low == |SetBits(b)|)
            && (forall k :: 0 <= k < |SetBits(b)| ==> (SetBits(b)[k] < TWO_63 <==> k < low))
            && forall k :: 0 <= k < |answer| ==>
                 var p := Listed(SetBits(b), low)[k];
                 && answer[k].block.blockOffset == p && answer[k].block.lba == (p * blockSize) % TWO_64
                 && answer[k].block.blockSize == blockSize && !answer[k].isBackedUp
                 && answer[k].block.jobId == jobId && answer[k].block.sourcePath == path
                 && answer[k].block.reason == WRITE && answer[k].block.dirtyAt == ts
                 && answer[k].block.checksum == "" && answer[k].block.originalHash == ""
  {
    var blocks := BitmapBlocks(jobId, path, b, blockSize, ts);
    BitmapBlocksAreSetBits(jobId, path, b, blockSize, ts);
    BitmapBlocksAscend(jobId, path, b, blockSize, ts);
    hide BitmapBlocks, SetBits, Select, SmallCount, NewRows, NewPart, Listed, Ascending;
    SelectFresh(rows, blocks, jobId, unbackedOnly);
    var low := SmallCount(blocks);
    var bits, part := SetBits(b), NewPart(rows, blocks);
    forall k | 0 <= k < |bits|
      ensures Listed(bits, low)[k] < |b|
        && Listed(part, low)[k].block == BlockAt(jobId, path, blockSize, ts, Listed(bits, low)[k])
        && !Listed(part, low)[k].isBackedUp
    {
      ListedAt(bits, low, k);
      ListedAt(part, low, k);
    }
  }

  // ---- Agreement with the exported ranges --------------------------------

  function Blocks(r: Run): seq<nat> {
    seq(if r.start <= r.end then r.end - r.start else 0, k requires 0 <= k => r.start + k)
  }

  function BlocksOf(rs: seq<Run>): seq<nat> {
    if rs == [] then [] else BlocksOf(rs[..|rs| - 1]) + Blocks(rs[|rs| - 1])
  }

  lemma ExtendBlocks(rs: seq<Run>, n: nat, bit: bool)
    requires Ordered(rs, n)
    ensures BlocksOf(Extend(rs, n, bit)) == BlocksOf(rs) + if bit then [n] else []
  {
    var k, ext := |rs| - 1, Extend(rs, n, bit);
    if bit && rs != [] && rs[k].end == n {
      assert ext[..k] == rs[..k];
      assert Blocks(Run(rs[k].start, n + 1)) == Blocks(rs[k]) + [n];
    } else if bit {
      assert ext[..|rs|] == rs;
      assert Blocks(Run(n, n + 1)) == [n];
    }
  }

  lemma {:induction false} RunsCoverSetBits(b: seq<bool>)
    ensures BlocksOf(Runs(b)) == SetBits(b)
  {
    if b != [] {
      RunsCoverSetBits(b[..|b| - 1]);
      RunsIsRunList(b[..|b| - 1]);
      ExtendBlocks(Runs(b[..|b| - 1]), |b| - 1, b[|b| - 1]);
    }
  }

  /** The byte positions of a list of blocks, as 64-bit values. */
  function Positions(blocks: seq<nat>, blockSize: uint32): seq<int> {
    seq(|blocks|, k requires 0 <= k < |blocks| => (blocks[k] * blockSize) % TWO_64)
  }

  /** The byte position of every whole block of one exported range. */
  function Starts(r: BlockRange, blockSize: uint32): seq<int>
    requires blockSize > 0
  {
    seq(r.size / blockSize, k requires 0 <= k => (r.offset + k * blockSize) % TWO_64)
  }

  function AllStarts(ranges: seq<BlockRange>, blockSize: uint32): seq<int>
    requires blockSize > 0
  {
    if ranges == [] then []
    else AllStarts(ranges[..|ranges| - 1], blockSize) + Starts(ranges[|ranges| - 1], blockSize)
  }

  lemma WrapSum(x: nat, y: nat)
    ensures (x % TWO_64 + y) % TWO_64 == (x + y) % TWO_64
  {
    var q := x / TWO_64;
    assert x == q * TWO_64 + x % TWO_64;
    assert x + y == q * TWO_64 + (x % TWO_64 + y);
    WrapShift(x + y, q);
  }

  lemma StartOfBlock(r: Run, blockSize: uint32, k: nat)
    ensures (Low64(r.start * blockSize) + k * blockSize) % TWO_64 == ((r.start + k) * blockSize) % TWO_64
  {
    WrapSum(r.start * blockSize, k * blockSize);
    assert r.start * blockSize + k * blockSize == (r.start + k) * blockSize;
  }

  lemma WholeSize(n: nat, blockSize: uint32)
    requires blockSize > 0
    ensures (n * blockSize) / blockSize == n
    ensures forall size: nat :: size < n * blockSize ==> size / blockSize < n
  {
    AlignedRange(n, 0, blockSize, 0);
    forall size: nat | size < n * blockSize ensures size / blockSize < n {
      if n > 0 { DivLess(n - 1, size, blockSize); }
    }
  }

  lemma StartsOfRun(r: Run, blockSize: uint32)
    requires 0 < blockSize && r.start < r.end
    ensures SizeFits(r, blockSize) ==>
              Starts(ToRange(r, blockSize), blockSize) == Positions(Blocks(r), blockSize)
    ensures !SizeFits(r, blockSize) ==>
              |Starts(ToRange(r, blockSize), blockSize)| < r.end - r.start
  {
    hide Low32, Low64, SizeFits;
    SizeOfRun(r, blockSize);
    WholeSize(r.end - r.start, blockSize);
    forall k: nat | k < r.end - r.start
      ensures (ToRange(r, blockSize).offset + k * blockSize) % TWO_64 == ((r.start + k) * blockSize) % TWO_64
    {
      StartOfBlock(r, blockSize, k);
    }
  }

  lemma {:induction false} StartsOfRuns(rs: seq<Run>, blockSize: uint32)
    requires blockSize > 0 && forall i :: 0 <= i < |rs| ==> rs[i].start < rs[i].end
    ensures |AllStarts(Export(rs, blockSize), blockSize)| <= |BlocksOf(rs)|
    ensures AllFit(rs, blockSize) ==>
              AllStarts(Export(rs, blockSize), blockSize) == Positions(BlocksOf(rs), blockSize)
    ensures |AllStarts(Export(rs, blockSize), blockSize)| == |BlocksOf(rs)| ==> AllFit(rs, blockSize)
  {
    if rs != [] {
      var k := |rs| - 1;
      StartsOfRuns(rs[..k], blockSize);
      StartsOfRun(rs[k], blockSize);
      AllFitSplit(rs, blockSize);
      assert Export(rs, blockSize)[..k] == Export(rs[..k], blockSize);
    }
  }

  /** The ledger's lba values are the block starts of the tracker's exported ranges on the
      same bitmap exactly when no run reaches 2^32 bytes. */
  lemma LedgerAgreesWithRanges(b: seq<bool>, blockSize: uint32)
    requires blockSize > 0
    ensures AllStarts(Export(Runs(b), blockSize), blockSize) == Positions(SetBits(b), blockSize)
       <==> AllFit(Runs(b), blockSize)
  {
    RunsIsRunList(b);
    RunsCoverSetBits(b);
    StartsOfRuns(Runs(b), blockSize);
  }
}
