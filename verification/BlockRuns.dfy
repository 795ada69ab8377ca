/** The changed-block bitmap seen as a list of maximal runs, and the byte ranges
    that the tracker exports for them. */
module BlockRuns {
  import opened Arithmetic
  import opened MachineTypes
  import opened Sequences

  /** Blocks start, start + 1, ..., end - 1. */
  datatype Run = Run(start: nat, end: nat)

  /** What is exported: a 64-bit byte offset and a 32-bit byte size. */
  datatype BlockRange = BlockRange(offset: uint64, size: uint32)

  /** Append block n to runs that end at or before n: a set bit lengthens the last run
      when that run ends at n, and opens a new one otherwise. */
  function Extend(rs: seq<Run>, n: nat, bit: bool): seq<Run> {
    if !bit then rs
    else if rs != [] && rs[|rs| - 1].end == n then
      rs[..|rs| - 1] + [Run(rs[|rs| - 1].start, n + 1)]
    else
      rs + [Run(n, n + 1)]
  }

  /** The maximal runs of set bits, left to right. */
  function Runs(b: seq<bool>): seq<Run> {
    if b == [] then [] else Extend(Runs(b[..|b| - 1]), |b| - 1, b[|b| - 1])
  }

  ghost predicate Covered(rs: seq<Run>, p: nat) {
    exists i :: 0 <= i < |rs| && rs[i].start <= p < rs[i].end
  }

  /** Non-empty runs below n in ascending order, no two of them adjacent. */
  ghost predicate Ordered(rs: seq<Run>, n: nat) {
    && (forall i :: 0 <= i < |rs| ==> rs[i].start < rs[i].end <= n)
    && (forall i, j :: 0 <= i < j < |rs| ==> rs[i].end < rs[j].start)
  }

  /** Ordered runs that cover exactly the set bits. */
  ghost predicate IsRunList(b: seq<bool>, rs: seq<Run>) {
    Ordered(rs, |b|) && forall p :: 0 <= p < |b| ==> (b[p] <==> Covered(rs, p))
  }

  lemma ExtendCovers(rs: seq<Run>, n: nat, bit: bool, p: nat)
    requires Ordered(rs, n)
    ensures Covered(Extend(rs, n, bit), p) <==> Covered(rs, p) || (bit && p == n)
  {
    var ext := Extend(rs, n, bit);
    if Covered(rs, p) {
      var i :| 0 <= i < |rs| && rs[i].start <= p < rs[i].end;
      assert ext[i].start <= p < ext[i].end;
    }
    if bit && p == n {
      assert ext[|ext| - 1].start <= p < ext[|ext| - 1].end;
    }
    if Covered(ext, p) && !(bit && p == n) {
      var i :| 0 <= i < |ext| && ext[i].start <= p < ext[i].end;
      assert i < |rs| && rs[i].start <= p < rs[i].end;
    }
  }

  lemma ExtendOrdered(rs: seq<Run>, n: nat, bit: bool)
    requires Ordered(rs, n)
    ensures Ordered(Extend(rs, n, bit), n + 1)
  {
  }

  lemma ExtendRunList(b: seq<bool>, rs: seq<Run>, bit: bool)
    requires IsRunList(b, rs)
    ensures IsRunList(b + [bit], Extend(rs, |b|, bit))
  {
    ExtendOrdered(rs, |b|, bit);
    forall p: nat | p < |b| + 1 ensures (b + [bit])[p] <==> Covered(Extend(rs, |b|, bit), p) {
      ExtendCovers(rs, |b|, bit, p);
      assert !Covered(rs, |b|);
    }
  }

  lemma {:induction false} RunsIsRunList(b: seq<bool>)
    ensures IsRunList(b, Runs(b))
  {
    if b != [] {
      var n := |b| - 1;
      RunsIsRunList(b[..n]);
      ExtendRunList(b[..n], Runs(b[..n]), b[n]);
      assert Runs(b) == Extend(Runs(b[..n]), n, b[n]);
      SplitLast(b);
    }
  }

  /** The runs of a prefix, one block further. */
  lemma RunsPrefix(b: seq<bool>, i: nat)
    requires i < |b|
    ensures Runs(b[..i + 1]) == Extend(Runs(b[..i]), i, b[i])
  {
    TakeNext(b, i);
  }

  /** Closed runs, followed by the run still open at block i if there is one. */
  function WithOpen(closed: seq<Run>, inRange: bool, start: nat, i: nat): seq<Run> {
    if inRange then closed + [Run(start, i)] else closed
  }

  /** One block further, a set bit lengthens or opens the open run, a clear one closes it. */
  lemma ScanStep(b: seq<bool>, closed: seq<Run>, inRange: bool, start: nat, i: nat)
    requires i < |b| && Runs(b[..i]) == WithOpen(closed, inRange, start, i)
    requires !inRange && closed != [] ==> closed[|closed| - 1].end < i
    ensures b[i] ==> Runs(b[..i + 1]) == WithOpen(closed, true, if inRange then start else i, i + 1)
    ensures !b[i] ==> Runs(b[..i + 1]) == WithOpen(WithOpen(closed, inRange, start, i), false, start, i + 1)
  {
    RunsPrefix(b, i);
    if b[i] && inRange {
      assert WithOpen(closed, true, start, i)[..|closed|] == closed;
    }
  }

  /** Undo Extend: cut block n off a last run that ends at n + 1. */
  ghost function Retract(rs: seq<Run>, n: nat): seq<Run> {
    if rs == [] || rs[|rs| - 1].end != n + 1 then rs
    else if rs[|rs| - 1].start < n then rs[..|rs| - 1] + [Run(rs[|rs| - 1].start, n)]
    else rs[..|rs| - 1]
  }

  lemma RetractOrdered(rs: seq<Run>, n: nat)
    requires Ordered(rs, n + 1)
    ensures Ordered(Retract(rs, n), n)
  {
    var k, rest := |rs| - 1, Retract(rs, n);
    forall i | 0 <= i < |rest| ensures rest[i].start < rest[i].end <= n {
      assert i == k || rs[i].end < rs[k].start;
    }
  }

  lemma ExtendLast(front: seq<Run>, start: nat, n: nat)
    ensures Extend(front + [Run(start, n)], n, true) == front + [Run(start, n + 1)]
  {
    TakeOfAppend(front, Run(start, n));
  }

  lemma RetractExtend(rs: seq<Run>, n: nat)
    requires Ordered(rs, n + 1)
    ensures Extend(Retract(rs, n), n, Covered(rs, n)) == rs
  {
    var k := |rs| - 1;
    if k >= 0 && rs[k].end == n + 1 {
      assert Covered(rs, n) by { assert rs[k].start <= n < rs[k].end; }
      SplitLast(rs);
      if rs[k].start < n {
        ExtendLast(rs[..k], rs[k].start, n);
      } else {
        assert k == 0 || rs[k - 1].end < rs[k].start;
      }
    } else {
      forall i | 0 <= i < |rs| ensures rs[i].end <= n {
        assert i == k || rs[i].end < rs[k].start;
      }
    }
  }

  /** A bitmap has one run list only, so the exported list is canonical. */
  lemma {:induction false} RunListUnique(b: seq<bool>, rs: seq<Run>)
    requires IsRunList(b, rs)
    ensures rs == Runs(b)
  {
    assert rs != [] ==> rs[0].start < rs[0].end <= |b|;
    if b != [] {
      var n := |b| - 1;
      var rest := Retract(rs, n);
      RetractOrdered(rs, n);
      RetractExtend(rs, n);
      forall p: nat | p < n ensures b[..n][p] <==> Covered(rest, p) {
        ExtendCovers(rest, n, Covered(rs, n), p);
        assert b[p] <==> Covered(rs, p);
      }
      RunListUnique(b[..n], rest);
      assert b[n] <==> Covered(rs, n);
    }
  }

  // ---- Byte ranges -------------------------------------------------------

  function Low64(x: int): uint64 { x % TWO_64 }

  function Low32(x: int): uint32 { x % TWO_32 }

  lemma LowBits(x: nat)
    ensures x < TWO_64 ==> Low64(x) == x
    ensures Low32(x) <= x && (Low32(x) == x <==> x < TWO_32)
  {
  }

  /** The exported form of one run: the offset is a 64-bit product, and the size is
      that product's low 32 bits. */
  function ToRange(r: Run, blockSize: uint32): BlockRange {
    BlockRange(Low64(r.start * blockSize), Low32((r.end - r.start) * blockSize))
  }

  function Export(rs: seq<Run>, blockSize: uint32): seq<BlockRange> {
    seq(|rs|, i requires 0 <= i < |rs| => ToRange(rs[i], blockSize))
  }

  lemma ExportAppend(rs: seq<Run>, r: Run, blockSize: uint32)
    ensures Export(rs + [r], blockSize) == Export(rs, blockSize) + [ToRange(r, blockSize)]
  {
  }

  /** The run's byte length survives the cast to 32 bits. */
  predicate SizeFits(r: Run, blockSize: uint32) {
    (r.end - r.start) * blockSize < TWO_32
  }

  /** Neither the offset nor the size of the exported range is truncated. */
  predicate Exact(r: Run, blockSize: uint32) {
    r.start * blockSize < TWO_64 && SizeFits(r, blockSize)
  }

  function Lengths(rs: seq<Run>): seq<int> {
    seq(|rs|, i requires 0 <= i < |rs| => rs[i].end - rs[i].start)
  }

  function Sizes(ranges: seq<BlockRange>): seq<int> {
    seq(|ranges|, i requires 0 <= i < |ranges| => ranges[i].size)
  }

  lemma ExtendLengths(rs: seq<Run>, n: nat, bit: bool)
    ensures Sum(Lengths(Extend(rs, n, bit))) == Sum(Lengths(rs)) + if bit then 1 else 0
  {
    var k, ext := |rs| - 1, Extend(rs, n, bit);
    if bit && rs != [] && rs[k].end == n {
      assert Lengths(ext)[..k] == Lengths(rs)[..k];
    } else if bit {
      assert Lengths(ext)[..k + 1] == Lengths(rs);
    }
  }

  lemma {:induction false} LengthsTotal(b: seq<bool>)
    ensures Sum(Lengths(Runs(b))) == CountTrue(b)
  {
    if b != [] {
      var n := |b| - 1;
      LengthsTotal(b[..n]);
      ExtendLengths(Runs(b[..n]), n, b[n]);
      assert Runs(b) == Extend(Runs(b[..n]), n, b[n]);
    }
  }

  lemma SizeOfRun(r: Run, blockSize: uint32)
    requires r.start < r.end
    ensures ToRange(r, blockSize).size <= (r.end - r.start) * blockSize
    ensures SizeFits(r, blockSize) <==> ToRange(r, blockSize).size == (r.end - r.start) * blockSize
  {
    hide Low32;
    MulMonotone(0, r.end - r.start, blockSize);
    LowBits((r.end - r.start) * blockSize);
  }

  lemma LastRunCounts(rs: seq<Run>, blockSize: uint32)
    requires rs != []
    ensures var k := |rs| - 1;
      && Sum(Lengths(rs)) == Sum(Lengths(rs[..k])) + (rs[k].end - rs[k].start)
      && Sum(Sizes(Export(rs, blockSize))) == Sum(Sizes(Export(rs[..k], blockSize))) + ToRange(rs[k], blockSize).size
  {
    var k := |rs| - 1;
    assert Lengths(rs)[..k] == Lengths(rs[..k]);
    assert Sizes(Export(rs, blockSize))[..k] == Sizes(Export(rs[..k], blockSize));
  }

  ghost predicate AllFit(rs: seq<Run>, blockSize: uint32) {
    forall i :: 0 <= i < |rs| ==> SizeFits(rs[i], blockSize)
  }

  lemma AllFitSplit(rs: seq<Run>, blockSize: uint32)
    requires rs != []
    ensures AllFit(rs, blockSize) <==> AllFit(rs[..|rs| - 1], blockSize) && SizeFits(rs[|rs| - 1], blockSize)
  {
    SplitLast(rs);
  }

  lemma {:induction false} SizesBound(rs: seq<Run>, blockSize: uint32)
    requires forall i :: 0 <= i < |rs| ==> rs[i].start < rs[i].end
    ensures Sum(Sizes(Export(rs, blockSize))) <= Sum(Lengths(rs)) * blockSize
    ensures Sum(Sizes(Export(rs, blockSize))) == Sum(Lengths(rs)) * blockSize <==> AllFit(rs, blockSize)
  {
    if rs != [] {
      var k := |rs| - 1;
      SizesBound(rs[..k], blockSize);
      LastRunCounts(rs, blockSize);
      SizeOfRun(rs[k], blockSize);
      AllFitSplit(rs, blockSize);
      Distribute(Sum(Lengths(rs[..k])), rs[k].end - rs[k].start, blockSize);
      hide Sum, Lengths, Sizes, Export, ToRange, SizeFits, AllFit;
    }
  }

  /** The exported sizes total changed blocks times block size exactly when no run
      reaches 2^32 bytes. */
  lemma SizesTotal(b: seq<bool>, blockSize: uint32)
    ensures Sum(Sizes(Export(Runs(b), blockSize))) == CountTrue(b) * blockSize <==> AllFit(Runs(b), blockSize)
  {
    RunsIsRunList(b);
    LengthsTotal(b);
    SizesBound(Runs(b), blockSize);
  }

  /** Truncation only takes away whole multiples of 2^32. */
  lemma {:induction false} SizesMissing(rs: seq<Run>, blockSize: uint32) returns (missing: int)
    ensures Sum(Lengths(rs)) * blockSize == Sum(Sizes(Export(rs, blockSize))) + TWO_32 * missing
  {
    missing := 0;
    if rs != [] {
      var k := |rs| - 1;
      missing := SizesMissing(rs[..k], blockSize);
      LastRunCounts(rs, blockSize);
      Distribute(Sum(Lengths(rs[..k])), rs[k].end - rs[k].start, blockSize);
      var part := TruncatedPart((rs[k].end - rs[k].start) * blockSize);
      missing := missing + part;
      hide Sum, Lengths, Sizes, Export, Low32;
    }
  }

  lemma TruncatedPart(x: int) returns (missing: int)
    ensures x == Low32(x) + TWO_32 * missing
  {
    missing := x / TWO_32;
  }

  /** Whatever is truncated, the exported sizes total changed blocks times block size modulo
      2^32. */
  lemma SizesModulo(b: seq<bool>, blockSize: uint32)
    ensures (CountTrue(b) * blockSize) % TWO_32 == Sum(Sizes(Export(Runs(b), blockSize))) % TWO_32
  {
    var missing := SizesMissing(Runs(b), blockSize);
    LengthsTotal(b);
    var x := Sum(Sizes(Export(Runs(b), blockSize)));
    DivModUnique(x + TWO_32 * missing, TWO_32, x / TWO_32 + missing, x % TWO_32);
  }

  // ---- Replaying exported ranges -----------------------------------------

  /** The bitmap after mark_range(lo, hi). */
  function MarkBits(b: seq<bool>, lo: nat, hi: nat): (r: seq<bool>)
    ensures |r| == |b|
  {
    seq(|b|, i requires 0 <= i < |b| => b[i] || lo <= i < hi)
  }

  /** The bitmap of n blocks after marking every block of every range. */
  function ReplayBits(ranges: seq<BlockRange>, blockSize: uint32, n: nat): (r: seq<bool>)
    requires blockSize > 0
    ensures |r| == n
  {
    if ranges == [] then Repeat(false, n)
    else
      var last := ranges[|ranges| - 1];
      MarkBits(ReplayBits(ranges[..|ranges| - 1], blockSize, n),
               last.offset / blockSize, (last.offset + last.size) / blockSize)
  }

  predicate InRange(r: BlockRange, blockSize: uint32, p: nat)
    requires blockSize > 0
  {
    r.offset / blockSize <= p < (r.offset + r.size) / blockSize
  }

  lemma {:induction false} ReplayAt(ranges: seq<BlockRange>, blockSize: uint32, n: nat, p: nat)
    requires blockSize > 0 && p < n
    ensures ReplayBits(ranges, blockSize, n)[p]
       <==> exists j :: 0 <= j < |ranges| && InRange(ranges[j], blockSize, p)
  {
    if ranges != [] {
      var k := |ranges| - 1;
      ReplayAt(ranges[..k], blockSize, n, p);
      if exists j :: 0 <= j < |ranges| && InRange(ranges[j], blockSize, p) {
        var j :| 0 <= j < |ranges| && InRange(ranges[j], blockSize, p);
        assert j == k || InRange(ranges[..k][j], blockSize, p);
      }
      if ReplayBits(ranges[..k], blockSize, n)[p] {
        var j :| 0 <= j < k && InRange(ranges[..k][j], blockSize, p);
        assert InRange(ranges[j], blockSize, p);
      }
    }
  }

  /** Whole blocks of a range of `size` bytes that begins on a block boundary. */
  lemma AlignedRange(start: nat, size: nat, d: nat, p: nat)
    requires d > 0
    ensures (start * d) / d == start
    ensures start <= p < (start * d + size) / d <==> start <= p && (p + 1 - start) * d <= size
  {
    DivLess(p, start * d + size, d);
    assert (p + 1) * d - start * d == (p + 1 - start) * d;
    DivLess(start, start * d, d);
    if start > 0 { DivLess(start - 1, start * d, d); }
  }

  lemma WholeBlocks(start: nat, length: nat, size: nat, d: nat, p: nat)
    requires d > 0
    ensures size <= length * d && start <= p < (start * d + size) / d ==> p < start + length
    ensures size == length * d && start <= p < start + length ==> p < (start * d + size) / d
  {
    AlignedRange(start, size, d, p);
    MulMonotone(p + 1 - start, length, d);
    MulMonotone(length + 1, p + 1 - start, d);
    assert (length + 1) * d == length * d + d;
  }

  lemma LastBlockMissing(start: nat, length: nat, size: nat, d: nat)
    requires d > 0 && size < length * d && length > 0
    ensures (start * d + size) / d <= start + length - 1
  {
    AlignedRange(start, size, d, start + length - 1);
  }

  lemma InRangeOfRun(r: Run, blockSize: uint32, p: nat)
    requires 0 < blockSize && r.start * blockSize < TWO_64
    ensures InRange(ToRange(r, blockSize), blockSize, p)
       <==> r.start <= p < (r.start * blockSize + ToRange(r, blockSize).size) / blockSize
  {
    hide Low32, Low64;
    LowBits(r.start * blockSize);
    AlignedRange(r.start, 0, blockSize, p);
  }

  /** A range whose offset did not wrap lies inside its run, and equals it exactly when
      the size was not truncated: otherwise the run's last block is missing. */
  lemma RangeOfRun(r: Run, blockSize: uint32, p: nat)
    requires 0 < blockSize && r.start < r.end && r.start * blockSize < TWO_64
    ensures InRange(ToRange(r, blockSize), blockSize, p) ==> r.start <= p < r.end
    ensures SizeFits(r, blockSize) && r.start <= p < r.end ==> InRange(ToRange(r, blockSize), blockSize, p)
    ensures !SizeFits(r, blockSize) ==> !InRange(ToRange(r, blockSize), blockSize, r.end - 1)
  {
    hide InRange, ToRange, SizeFits;
    var length: nat := r.end - r.start;
    var size: nat := ToRange(r, blockSize).size;
    SizeOfRun(r, blockSize);
    InRangeOfRun(r, blockSize, p);
    InRangeOfRun(r, blockSize, r.end - 1);
    WholeBlocks(r.start, length, size, blockSize, p);
    if size < length * blockSize { LastBlockMissing(r.start, length, size, blockSize); }
  }

  /** A range never begins at or beyond block s when s blocks are 2^64 bytes or more. */
  lemma RangeBeginsBelow(r: BlockRange, blockSize: uint32, s: nat)
    requires blockSize > 0 && s > 0 && s * blockSize >= TWO_64
    ensures InRange(r, blockSize, s) ==> InRange(r, blockSize, s - 1)
  {
    DivLess(s - 1, r.offset, blockSize);
  }

  /** If a run starts beyond 64-bit offsets, replay loses it: no range begins that high,
      so one that reached the run's first block would mark the clear block before it. */
  lemma WrappedStartLost(b: seq<bool>, blockSize: uint32, i: nat)
    requires blockSize > 0 && i < |Runs(b)| && Runs(b)[i].start * blockSize >= TWO_64
    ensures ReplayBits(Export(Runs(b), blockSize), blockSize, |b|) != b
  {
    hide ReplayBits, Export, Runs, InRange;
    var s, ranges := Runs(b)[i].start, Export(Runs(b), blockSize);
    var replayed := ReplayBits(ranges, blockSize, |b|);
    RunsIsRunList(b);
    assert b[s] by { assert Covered(Runs(b), s); }
    assert !b[s - 1] by { StartIsFirst(Runs(b), |b|, i); }
    ReplayAt(ranges, blockSize, |b|, s);
    ReplayAt(ranges, blockSize, |b|, s - 1);
    if replayed[s] {
      var j :| 0 <= j < |ranges| && InRange(ranges[j], blockSize, s);
      RangeBeginsBelow(ranges[j], blockSize, s);
      assert replayed[s - 1];
    }
  }

  lemma StartIsFirst(rs: seq<Run>, n: nat, i: nat)
    requires Ordered(rs, n) && i < |rs| && rs[i].start > 0
    ensures !Covered(rs, rs[i].start - 1)
  {
    forall j | 0 <= j < |rs| ensures !(rs[j].start <= rs[i].start - 1 < rs[j].end) {
      if j < i { assert rs[j].end < rs[i].start; }
      if i < j { assert rs[i].end < rs[j].start; }
    }
  }

  lemma TruncatedSizeLost(b: seq<bool>, blockSize: uint32, i: nat)
    requires blockSize > 0 && i < |Runs(b)| && !SizeFits(Runs(b)[i], blockSize)
    requires forall j :: 0 <= j < |Runs(b)| ==> Runs(b)[j].start * blockSize < TWO_64
    ensures ReplayBits(Export(Runs(b), blockSize), blockSize, |b|) != b
  {
    var rs, ranges := Runs(b), Export(Runs(b), blockSize);
    RunsIsRunList(b);
    var p := rs[i].end - 1;
    assert rs[i].start <= p < rs[i].end;
    assert b[p];
    forall j | 0 <= j < |ranges| ensures !InRange(ranges[j], blockSize, p) {
      RangeOfRun(rs[j], blockSize, p);
      if j < i { assert rs[j].end < rs[i].start; }
      if i < j { assert rs[i].end < rs[j].start; }
    }
    ReplayAt(ranges, blockSize, |b|, p);
  }

  lemma ExactRangesReplay(b: seq<bool>, blockSize: uint32)
    requires blockSize > 0
    requires forall i :: 0 <= i < |Runs(b)| ==> Exact(Runs(b)[i], blockSize)
    ensures ReplayBits(Export(Runs(b), blockSize), blockSize, |b|) == b
  {
    var rs, ranges := Runs(b), Export(Runs(b), blockSize);
    RunsIsRunList(b);
    forall p: nat | p < |b| ensures ReplayBits(ranges, blockSize, |b|)[p] == b[p] {
      ReplayAt(ranges, blockSize, |b|, p);
      forall j | 0 <= j < |rs|
        ensures InRange(ranges[j], blockSize, p) <==> rs[j].start <= p < rs[j].end
      {
        assert Exact(rs[j], blockSize);
        RangeOfRun(rs[j], blockSize, p);
      }
    }
  }

  /** Replaying the exported ranges on a fresh tracker rebuilds the bitmap exactly when
      every run starts below 2^64 bytes and is shorter than 2^32 bytes. */
  lemma ReplayRestores(b: seq<bool>, blockSize: uint32)
    requires blockSize > 0
    ensures ReplayBits(Export(Runs(b), blockSize), blockSize, |b|) == b
       <==> forall i :: 0 <= i < |Runs(b)| ==> Exact(Runs(b)[i], blockSize)
  {
    if forall i :: 0 <= i < |Runs(b)| ==> Exact(Runs(b)[i], blockSize) {
      ExactRangesReplay(b, blockSize);
    } else if exists i :: 0 <= i < |Runs(b)| && Runs(b)[i].start * blockSize >= TWO_64 {
      var i :| 0 <= i < |Runs(b)| && Runs(b)[i].start * blockSize >= TWO_64;
      WrappedStartLost(b, blockSize, i);
    } else {
      var i :| 0 <= i < |Runs(b)| && !Exact(Runs(b)[i], blockSize);
      TruncatedSizeLost(b, blockSize, i);
    }
  }
}
