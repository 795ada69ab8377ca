/** The 16-bit run-length code for bitmaps: encoder, decoder, round trip, optimality and
    the file framing. */
module RunLength {
  import opened MachineTypes
  import opened Sequences

  const MAX_COUNT: nat := 65535

  /** One record: `count` copies of `value`. On the wire it takes three bytes. */
  datatype Record = Record(value: bool, count: nat)

  // ---- Encoder -----------------------------------------------------------

  function Last(rs: seq<Record>): Record
    requires rs != []
  {
    rs[|rs| - 1]
  }

  function Push(rs: seq<Record>, bit: bool): seq<Record> {
    if rs != [] && Last(rs).value == bit && Last(rs).count < MAX_COUNT then
      rs[..|rs| - 1] + [Record(bit, Last(rs).count + 1)]
    else
      rs + [Record(bit, 1)]
  }

  /** Greedy records: a record is closed when the bit flips or its counter is full. */
  function Encode(b: seq<bool>): seq<Record> {
    if b == [] then [] else Push(Encode(b[..|b| - 1]), b[|b| - 1])
  }

  /** The records of a prefix, one block further. */
  lemma EncodePrefix(b: seq<bool>, i: nat)
    requires i < |b|
    ensures Encode(b[..i + 1]) == Push(Encode(b[..i]), b[i])
  {
    TakeNext(b, i);
  }

  ghost predicate SixteenBit(rs: seq<Record>) {
    forall i :: 0 <= i < |rs| ==> rs[i].count <= MAX_COUNT
  }

  function Counts(rs: seq<Record>): seq<int> {
    seq(|rs|, i requires 0 <= i < |rs| => rs[i].count)
  }

  // ---- Decoder -----------------------------------------------------------

  function Expand(rs: seq<Record>): seq<bool> {
    if rs == [] then []
    else Expand(rs[..|rs| - 1]) + Repeat(rs[|rs| - 1].value, rs[|rs| - 1].count)
  }

  /** The decoder stops at `total` blocks, and may stop short of it. */
  function Decode(rs: seq<Record>, total: nat): seq<bool> {
    var e := Expand(rs);
    if |e| <= total then e else e[..total]
  }

  lemma {:induction false} ExpandLength(rs: seq<Record>)
    ensures |Expand(rs)| == Sum(Counts(rs))
  {
    if rs != [] {
      ExpandLength(rs[..|rs| - 1]);
      assert Counts(rs)[..|rs| - 1] == Counts(rs[..|rs| - 1]);
    }
  }

  /** For any records whatever, the decoded length is the smaller of the capacity and
      the sum of the counts, so the bitmap is full exactly when the counts reach it. */
  lemma DecodeLength(rs: seq<Record>, total: nat)
    ensures |Decode(rs, total)| == if Sum(Counts(rs)) < total then Sum(Counts(rs)) else total
  {
    ExpandLength(rs);
  }

  /** One more record appends as many copies as still fit. */
  lemma DecodeAppend(rs: seq<Record>, r: Record, total: nat)
    ensures var d := Decode(rs, total);
            Decode(rs + [r], total) ==
              d + Repeat(r.value, if r.count < total - |d| then r.count else total - |d|)
  {
    TakeOfAppend(rs, r);
  }

  lemma DecodePrefix(rs: seq<Record>, k: nat, total: nat)
    requires k < |rs|
    ensures var d := Decode(rs[..k], total);
            Decode(rs[..k + 1], total) ==
              d + Repeat(rs[k].value, if rs[k].count < total - |d| then rs[k].count else total - |d|)
  {
    TakeNext(rs, k);
    DecodeAppend(rs[..k], rs[k], total);
  }

  // ---- Round trip --------------------------------------------------------

  lemma {:induction false} EncodeExpands(b: seq<bool>)
    ensures Expand(Encode(b)) == b
  {
    if b != [] {
      var n := |b| - 1;
      var front := b[..n];
      EncodeExpands(front);
      PushExpands(Encode(front), b[n]);
      assert Encode(b) == Push(Encode(front), b[n]);
      SplitLast(b);
    }
  }

  lemma {:induction false} EncodeShape(b: seq<bool>)
    ensures SixteenBit(Encode(b))
    ensures if b == [] then Encode(b) == [] else Encode(b) != [] && Last(Encode(b)).value == b[|b| - 1]
  {
    if b != [] {
      EncodeShape(b[..|b| - 1]);
    }
  }

  lemma PushExpands(rs: seq<Record>, bit: bool)
    ensures Expand(Push(rs, bit)) == Expand(rs) + [bit]
  {
    var k, out := |rs| - 1, Push(rs, bit);
    if rs != [] && rs[k].value == bit && rs[k].count < MAX_COUNT {
      assert out[..k] == rs[..k];
      assert Repeat(bit, rs[k].count + 1) == Repeat(bit, rs[k].count) + [bit];
    } else {
      assert out[..|rs|] == rs;
      assert Repeat(bit, 1) == [bit];
    }
  }

  // ---- Optimality --------------------------------------------------------

  lemma EncodeStep(b: seq<bool>, v: bool, k: nat)
    requires k > 0
    ensures Encode(b + Repeat(v, k)) == Push(Encode(b + Repeat(v, k - 1)), v)
  {
    var bits := b + Repeat(v, k);
    assert bits[..|bits| - 1] == b + Repeat(v, k - 1);
  }

  /** Appending up to 65535 equal bits costs at most one more record. */
  lemma {:induction false} AppendRun(b: seq<bool>, v: bool, k: nat)
    requires k <= MAX_COUNT
    ensures var before, after := |Encode(b)|, Encode(b + Repeat(v, k));
      && (|after| == before || (|after| == before + 1 && Last(after).value == v && Last(after).count <= k))
      && (|after| == before && k > 0 ==> before > 0 && Last(after).value == v && Last(after).count >= k)
  {
    if k == 0 {
      assert b + Repeat(v, k) == b;
    } else {
      AppendRun(b, v, k - 1);
      EncodeStep(b, v, k);
    }
  }

  /** No list of 16-bit records that decodes to the same bitmap is shorter. */
  lemma {:induction false} Optimal(rs: seq<Record>, total: nat)
    requires SixteenBit(rs)
    ensures |Encode(Decode(rs, total))| <= |rs|
  {
    if rs != [] {
      var k := |rs| - 1;
      Optimal(rs[..k], total);
      SplitLast(rs);
      DecodeAppend(rs[..k], rs[k], total);
      var d := Decode(rs[..k], total);
      AppendRun(d, rs[k].value, if rs[k].count < total - |d| then rs[k].count else total - |d|);
    }
  }

  ghost predicate Alternating(spans: seq<Record>) {
    && (forall i :: 0 <= i < |spans| ==> spans[i].count > 0)
    && (forall i :: 0 < i < |spans| ==> spans[i - 1].value != spans[i].value)
  }

  /** Maximal spans of equal bits: positive lengths, neighbours differ. */
  ghost predicate IsSpanList(b: seq<bool>, spans: seq<Record>) {
    Expand(spans) == b && Alternating(spans)
  }

  function CeilDiv(x: nat, d: nat): nat
    requires d > 0
  {
    (x + d - 1) / d
  }

  function RecordsNeeded(spans: seq<Record>): nat {
    if spans == [] then 0
    else RecordsNeeded(spans[..|spans| - 1]) + CeilDiv(spans[|spans| - 1].count, MAX_COUNT)
  }

  /** What the last record of a span of k bits counts. */
  function LastCount(k: nat): nat
    requires k > 0
  {
    (k - 1) % MAX_COUNT + 1
  }

  lemma CeilStep(k: nat)
    requires k > 1
    ensures if LastCount(k - 1) < MAX_COUNT then
              CeilDiv(k, MAX_COUNT) == CeilDiv(k - 1, MAX_COUNT) && LastCount(k) == LastCount(k - 1) + 1
            else
              CeilDiv(k, MAX_COUNT) == CeilDiv(k - 1, MAX_COUNT) + 1 && LastCount(k) == 1
  {
  }

  lemma PushOutcome(rs: seq<Record>, v: bool)
    ensures var out := Push(rs, v);
            && out != [] && Last(out).value == v
            && if rs != [] && Last(rs).value == v && Last(rs).count < MAX_COUNT then
                 |out| == |rs| && Last(out).count == Last(rs).count + 1
               else
                 |out| == |rs| + 1 && Last(out).count == 1
  {
  }

  /** A fresh span of k bits takes ceil(k / 65535) records; the last one holds the rest. */
  lemma {:induction false} AppendSpan(b: seq<bool>, v: bool, k: nat)
    requires b == [] || b[|b| - 1] != v
    requires k > 0
    ensures var before, after := Encode(b), Encode(b + Repeat(v, k));
            && |after| == |before| + CeilDiv(k, MAX_COUNT)
            && after != [] && Last(after) == Record(v, LastCount(k))
  {
    EncodeStep(b, v, k);
    PushOutcome(Encode(b + Repeat(v, k - 1)), v);
    hide Encode, Push;
    if k == 1 {
      EncodeShape(b);
      assert b + Repeat(v, 0) == b;
    } else {
      hide CeilDiv, LastCount;
      AppendSpan(b, v, k - 1);
      CeilStep(k);
    }
  }

  lemma {:induction false} ExpandEndsWith(spans: seq<Record>)
    requires spans != [] && spans[|spans| - 1].count > 0
    ensures Expand(spans) != [] && Expand(spans)[|Expand(spans)| - 1] == spans[|spans| - 1].value
  {
  }

  /** The encoder emits the sum of ceil(length / 65535) over the maximal spans. */
  lemma {:induction false} EncodedCount(b: seq<bool>, spans: seq<Record>)
    requires IsSpanList(b, spans)
    ensures |Encode(b)| == RecordsNeeded(spans)
    decreases spans
  {
    if spans != [] {
      var k := |spans| - 1;
      var front := Expand(spans[..k]);
      EncodedCount(front, spans[..k]);
      if k > 0 {
        ExpandEndsWith(spans[..k]);
        assert spans[k - 1].value != spans[k].value;
      }
      AppendSpan(front, spans[k].value, spans[k].count);
    }
  }

  function Grow(spans: seq<Record>, bit: bool): seq<Record> {
    if spans != [] && Last(spans).value == bit then
      spans[..|spans| - 1] + [Record(bit, Last(spans).count + 1)]
    else
      spans + [Record(bit, 1)]
  }

  /** The maximal spans of a bitmap, left to right. */
  function Spans(b: seq<bool>): seq<Record> {
    if b == [] then [] else Grow(Spans(b[..|b| - 1]), b[|b| - 1])
  }

  lemma GrowExpands(spans: seq<Record>, bit: bool)
    ensures Expand(Grow(spans, bit)) == Expand(spans) + [bit]
  {
    var k, out := |spans| - 1, Grow(spans, bit);
    if spans != [] && spans[k].value == bit {
      assert out[..k] == spans[..k];
      assert Repeat(bit, spans[k].count + 1) == Repeat(bit, spans[k].count) + [bit];
    } else {
      assert out[..|spans|] == spans;
      assert Repeat(bit, 1) == [bit];
    }
  }

  lemma GrowAlternates(spans: seq<Record>, bit: bool)
    requires Alternating(spans)
    ensures Alternating(Grow(spans, bit))
  {
    var out := Grow(spans, bit);
    forall i | 0 < i < |out| ensures out[i - 1].value != out[i].value {
      if i < |spans| { assert spans[i - 1].value != spans[i].value; }
    }
  }

  lemma {:induction false} SpansIsSpanList(b: seq<bool>)
    ensures IsSpanList(b, Spans(b))
  {
    if b != [] {
      var n := |b| - 1;
      var front := Spans(b[..n]);
      SpansIsSpanList(b[..n]);
      GrowExpands(front, b[n]);
      GrowAlternates(front, b[n]);
      assert Spans(b) == Grow(front, b[n]);
      SplitLast(b);
    }
  }

  // ---- Bytes -------------------------------------------------------------

  function ByteAt(data: seq<byte>, i: nat): (r: nat)
    ensures r < 0x100
  {
    if i < |data| then data[i] else 0
  }

  function RecordBytes(r: Record): seq<byte>
    requires r.count <= MAX_COUNT
  {
    [if r.value then 1 else 0, r.count / 256, r.count % 256]
  }

  function ToBytes(rs: seq<Record>): (data: seq<byte>)
    requires SixteenBit(rs)
    ensures |data| == 3 * |rs|
  {
    if rs == [] then [] else ToBytes(rs[..|rs| - 1]) + RecordBytes(rs[|rs| - 1])
  }

  // ---- The encoder's scan ------------------------------------------------

  /** The record that the scan has open after its first i blocks. */
  function OpenRecord(b: seq<bool>, i: nat): (r: Record)
    requires 0 < i <= |b|
    ensures r.count <= MAX_COUNT
  {
    EncodeShape(b[..i]);
    Last(Encode(b[..i]))
  }

  /** The bytes of the records closed by then. */
  function ClosedBytes(b: seq<bool>, i: nat): seq<byte>
    requires 0 < i <= |b|
  {
    EncodeShape(b[..i]);
    ToBytes(Encode(b[..i])[..|Encode(b[..i])| - 1])
  }

  lemma ScanFirst(b: seq<bool>)
    requires b != []
    ensures ClosedBytes(b, 1) == [] && OpenRecord(b, 1) == Record(b[0], 1)
  {
    EncodePrefix(b, 0);
  }

  /** One block further, the open record grows, or is closed and another one opened. */
  lemma ScanStep(b: seq<bool>, i: nat)
    requires 0 < i < |b|
    ensures var open := OpenRecord(b, i);
            if open.value == b[i] && open.count < MAX_COUNT then
              ClosedBytes(b, i + 1) == ClosedBytes(b, i)
              && OpenRecord(b, i + 1) == Record(open.value, open.count + 1)
            else
              ClosedBytes(b, i + 1) == ClosedBytes(b, i) + RecordBytes(open)
              && OpenRecord(b, i + 1) == Record(b[i], 1)
  {
    EncodePrefix(b, i);
    EncodeShape(b[..i]);
    PushLast(Encode(b[..i]), b[i]);
  }

  /** What a push closes, and what it leaves open. */
  lemma PushLast(rs: seq<Record>, bit: bool)
    requires rs != [] && SixteenBit(rs)
    ensures var open, out := Last(rs), Push(rs, bit);
            && SixteenBit(out) && out != []
            && (if open.value == bit && open.count < MAX_COUNT then
                  out[..|out| - 1] == rs[..|rs| - 1] && Last(out) == Record(bit, open.count + 1)
                else
                  ToBytes(out[..|out| - 1]) == ToBytes(rs[..|rs| - 1]) + RecordBytes(open)
                  && Last(out) == Record(bit, 1))
  {
    var front := rs[..|rs| - 1];
    TakeOfAppend(front, Record(bit, Last(rs).count + 1));
    TakeOfAppend(rs, Record(bit, 1));
  }

  /** Closing the open record after the last block gives the whole compressed form. */
  lemma ScanEnd(b: seq<bool>)
    requires b != []
    ensures Compress(b) == ClosedBytes(b, |b|) + RecordBytes(OpenRecord(b, |b|))
  {
    TakeAll(b);
    EncodeShape(b);
  }

  /** Whole triples only: one or two trailing bytes are ignored. Any non-zero first byte
      reads as true. */
  function FromBytes(data: seq<byte>): (rs: seq<Record>)
    ensures |rs| == |data| / 3
    ensures SixteenBit(rs)
  {
    seq(|data| / 3, k requires 0 <= k < |data| / 3 =>
      Record(data[3 * k] != 0, ByteAt(data, 3 * k + 1) * 256 + ByteAt(data, 3 * k + 2)))
  }

  /** What the decoder has built after its first k records. */
  function DecodedPrefix(data: seq<byte>, k: nat, total: nat): seq<bool>
    requires 3 * k <= |data|
  {
    Decode(FromBytes(data)[..k], total)
  }

  lemma DecodedNext(data: seq<byte>, k: nat, total: nat)
    requires 3 * k + 2 < |data|
    ensures var d, count := DecodedPrefix(data, k, total), ByteAt(data, 3 * k + 1) * 256 + ByteAt(data, 3 * k + 2);
            DecodedPrefix(data, k + 1, total) ==
              d + Repeat(data[3 * k] != 0, if count < total - |d| then count else total - |d|)
  {
    DecodePrefix(FromBytes(data), k, total);
  }

  lemma DecodedAll(data: seq<byte>, k: nat, total: nat)
    requires 3 * k <= |data| <= 3 * k + 2
    ensures DecodedPrefix(data, k, total) == Decode(FromBytes(data), total)
  {
    assert FromBytes(data)[..k] == FromBytes(data);
  }

  lemma FromBytesAppend(data: seq<byte>, r: Record)
    requires |data| % 3 == 0 && r.count <= MAX_COUNT
    ensures FromBytes(data + RecordBytes(r)) == FromBytes(data) + [r]
  {
    var n, all := |data| / 3, data + RecordBytes(r);
    assert all[3 * n..] == RecordBytes(r);
  }

  lemma {:induction false} BytesRoundTrip(rs: seq<Record>)
    requires SixteenBit(rs)
    ensures FromBytes(ToBytes(rs)) == rs
  {
    if rs != [] {
      var k := |rs| - 1;
      BytesRoundTrip(rs[..k]);
      FromBytesAppend(ToBytes(rs[..k]), rs[k]);
      assert ToBytes(rs) == ToBytes(rs[..k]) + RecordBytes(rs[k]);
      SplitLast(rs);
    }
  }

  /** What compress_bitmap_rle writes for a bitmap. */
  function Compress(b: seq<bool>): (data: seq<byte>)
    ensures |data| == 3 * |Encode(b)|
  {
    EncodeShape(b);
    ToBytes(Encode(b))
  }

  /** Compressing and decompressing gives the bitmap back. */
  lemma CompressRoundTrip(b: seq<bool>)
    ensures Decode(FromBytes(Compress(b)), |b|) == b
  {
    EncodeExpands(b);
    EncodeShape(b);
    BytesRoundTrip(Encode(b));
  }

  /** Three bytes for each ceil(length / 65535) over the bitmap's maximal spans. */
  lemma CompressedLength(b: seq<bool>)
    ensures |Compress(b)| == 3 * RecordsNeeded(Spans(b))
  {
    SpansIsSpanList(b);
    EncodedCount(b, Spans(b));
  }

  /** No byte string that decompresses to the bitmap, at any capacity, is shorter than
      the compressed form. */
  lemma CompressOptimal(data: seq<byte>, total: nat)
    ensures |Compress(Decode(FromBytes(data), total))| <= |data|
  {
    Optimal(FromBytes(data), total);
  }

  lemma {:induction false} RecordAt(rs: seq<Record>, k: nat)
    requires SixteenBit(rs) && k < |rs|
    ensures var data := ToBytes(rs);
      data[3 * k] == (if rs[k].value then 1 else 0) && data[3 * k + 1] as nat * 256 + data[3 * k + 2] as nat == rs[k].count
  {
    var n := |rs| - 1;
    assert ToBytes(rs) == ToBytes(rs[..n]) + RecordBytes(rs[n]);
    if k < n { RecordAt(rs[..n], k); }
  }

  /** Each record is a byte 1 or 0 for its bit, and its count with the higher byte first. */
  lemma CompressedBytes(b: seq<bool>, k: nat)
    requires k < |Encode(b)|
    ensures var data, r := Compress(b), Encode(b)[k];
      data[3 * k] == (if r.value then 1 else 0) && data[3 * k + 1] as nat * 256 + data[3 * k + 2] as nat == r.count
  {
    EncodeShape(b);
    RecordAt(Encode(b), k);
  }

  // ---- File framing ------------------------------------------------------

  function Le32(x: nat): (data: seq<byte>)
    ensures |data| == 4
  {
    var x1 := x / 0x100;
    var x2 := x1 / 0x100;
    var x3 := x2 / 0x100;
    [x % 0x100, x1 % 0x100, x2 % 0x100, x3 % 0x100]
  }

  /** A four-byte read into a zeroed 32-bit variable: missing bytes stay zero. */
  function ReadLe32(data: seq<byte>): nat {
    ByteAt(data, 0) + 0x100 * ByteAt(data, 1) + 0x1_0000 * ByteAt(data, 2) + 0x100_0000 * ByteAt(data, 3)
  }

  lemma RemainderUnique(x: nat, q: nat, r: nat)
    requires r < TWO_32 && x == q * TWO_32 + r
    ensures x % TWO_32 == r
  {
  }

  lemma Le32RoundTrip(x: nat, rest: seq<byte>)
    ensures ReadLe32(Le32(x) + rest) == x % TWO_32
  {
    var x1 := x / 0x100;
    var x2 := x1 / 0x100;
    var x3 := x2 / 0x100;
    RemainderUnique(x, x3 / 0x100, x % 0x100 + 0x100 * (x1 % 0x100) + 0x1_0000 * (x2 % 0x100) + 0x100_0000 * (x3 % 0x100));
  }

  /** The saved file: the compressed size cast to 32 bits, then the bytes. */
  function FileOf(b: seq<bool>): seq<byte> {
    Le32(|Compress(b)|) + Compress(b)
  }

  /** The header holds the size with the lowest byte first. */
  lemma SavedFile(b: seq<bool>)
    ensures var f := FileOf(b);
      && f[0] as nat + 0x100 * f[1] as nat + 0x1_0000 * f[2] as nat + 0x100_0000 * f[3] as nat == |Compress(b)| % TWO_32
      && f[4..] == Compress(b)
  {
    Le32RoundTrip(|Compress(b)|, Compress(b));
  }

  /** The buffer that load hands to the decoder: as long as the header says, and zero
      wherever the file has run out. */
  function Payload(file: seq<byte>): (data: seq<byte>)
    ensures |data| == ReadLe32(file)
    ensures forall k :: 0 <= k < |data| ==> data[k] == if 4 + k < |file| then file[4 + k] else 0
  {
    seq(ReadLe32(file), i requires 0 <= i => ByteAt(file, 4 + i))
  }

  function Loaded(file: seq<byte>, total: nat): seq<bool> {
    Decode(FromBytes(Payload(file)), total)
  }

  lemma PayloadOfFile(b: seq<bool>)
    ensures Payload(FileOf(b)) == Compress(b)[..|Compress(b)| % TWO_32]
  {
    Le32RoundTrip(|Compress(b)|, Compress(b));
  }

  /** Save followed by load restores the bitmap exactly when the compressed form is
      shorter than 2^32 bytes: a truncated header leaves too few bytes, because no
      shorter byte string decodes to the same bitmap. */
  lemma SaveLoadRoundTrip(b: seq<bool>)
    ensures Loaded(FileOf(b), |b|) == b <==> |Compress(b)| < TWO_32
  {
    PayloadOfFile(b);
    if |Compress(b)| < TWO_32 {
      assert Payload(FileOf(b)) == Compress(b);
      CompressRoundTrip(b);
    } else {
      CompressOptimal(Payload(FileOf(b)), |b|);
    }
  }
}
