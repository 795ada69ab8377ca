/** Content-defined chunking: where the cuts fall, what the reading loop reports, and what
    the loop would report if its re-seek took effect after a short read. */
module ContentChunking {
  import opened MachineTypes
  import opened Sequences
  import opened GearHash
  import opened InputStreams

  const MIN_CHUNK: nat := 0x1_0000
  const MAX_CHUNK: nat := 0x40_0000

  // ---- One buffer --------------------------------------------------------

  function FirstCut(w: seq<byte>, i: nat): (split: nat)
    requires 32 <= i <= |w|
    ensures i <= split <= |w|
    ensures split < |w| ==> Cut(w, split)
    ensures forall j :: i <= j < split ==> !Cut(w, j)
    decreases |w| - i
  {
    if i == |w| || Cut(w, i) then i else FirstCut(w, i + 1)
  }

  /** Where a buffer is split: at its first cut, or not at all. */
  function Split(w: seq<byte>): (split: nat)
    ensures split <= |w| && (w != [] ==> split > 0)
    ensures split < |w| ==> split >= MIN_CHUNK && Cut(w, split)
    ensures forall j :: MIN_CHUNK <= j < split ==> !Cut(w, j)
  {
    if |w| < MIN_CHUNK then |w| else FirstCut(w, MIN_CHUNK)
  }

  function Buffer(f: seq<byte>): seq<byte> {
    Window(f, 0, MAX_CHUNK)
  }

  // ---- Whole files -------------------------------------------------------

  /** What the loop reports: the first short read ends it, wherever that read was split. */
  function CodeChunks(f: seq<byte>): seq<seq<byte>> {
    if f == [] then []
    else if |f| < MAX_CHUNK then [f[..Split(f)]]
    else
      var split := Split(Buffer(f));
      [f[..split]] + CodeChunks(f[split..])
  }

  /** What the loop is meant to report: after every split it reads on from the split. */
  function IntendedChunks(f: seq<byte>): seq<seq<byte>> {
    if f == [] then []
    else
      var split := Split(Buffer(f));
      [f[..split]] + IntendedChunks(f[split..])
  }

  /** The bytes of the loop's final, short read. */
  function FinalRead(f: seq<byte>): (r: seq<byte>)
    ensures |r| < MAX_CHUNK
  {
    if |f| < MAX_CHUNK then f else FinalRead(f[Split(Buffer(f))..])
  }

  /** Bytes read but never reported: what lies behind a cut in the final read. */
  function DroppedBytes(f: seq<byte>): nat {
    |FinalRead(f)| - Split(FinalRead(f))
  }

  // ---- The chunk list, stated without the loop ---------------------------

  /** A chunk that ends because a cut or the size limit ended it. */
  ghost predicate Closed(c: seq<byte>) {
    && MIN_CHUNK <= |c| <= MAX_CHUNK
    && (|c| < MAX_CHUNK ==> Cut(c, |c|))
  }

  ghost predicate NoInnerCut(c: seq<byte>) {
    forall j :: MIN_CHUNK <= j < |c| ==> !Cut(c, j)
  }

  /** Chunks that make up the file in order, none empty, none too long, none with a cut
      inside; every chunk but the last has at least the minimum size and ends at its
      first cut or at the maximum size. */
  ghost predicate IsChunking(f: seq<byte>, cs: seq<seq<byte>>) {
    && Concat(cs) == f
    && (forall k :: 0 <= k < |cs| ==> 0 < |cs[k]| <= MAX_CHUNK && NoInnerCut(cs[k]))
    && (forall k :: 0 <= k < |cs| - 1 ==> Closed(cs[k]))
  }

  /** In figures: no chunk has more than 4194304 bytes, and none but the last fewer than
      65536. */
  lemma ChunkSizes(f: seq<byte>)
    ensures forall k :: 0 <= k < |IntendedChunks(f)| ==> 0 < |IntendedChunks(f)[k]| <= 4194304
    ensures forall k :: 0 <= k < |IntendedChunks(f)| - 1 ==> |IntendedChunks(f)[k]| >= 65536
    ensures CodeChunks(f) <= IntendedChunks(f)
  {
    CodeChunksPrefix(f);
    IntendedIsChunking(f);
    forall k | 0 <= k < |IntendedChunks(f)| - 1 ensures |IntendedChunks(f)[k]| >= 65536 {
      assert Closed(IntendedChunks(f)[k]);
    }
  }

  /** A file of bytes beyond the table is cut at every 65536 bytes exactly. */
  lemma {:induction false} HighBytesChunks(f: seq<byte>)
    requires forall k :: 0 <= k < |f| ==> f[k] >= 96
    ensures var cs := IntendedChunks(f);
      && (forall k :: 0 <= k < |cs| - 1 ==> |cs[k]| == 65536)
      && (cs != [] ==> |cs[|cs| - 1]| <= 65536)
  {
    if f != [] {
      var w := Buffer(f);
      var split := Split(w);
      if |w| > 65536 { HighBytesCut(w, 65536); }
      hide Split, Cut, Buffer;
      assert split == if |f| > 65536 then 65536 else |f|;
      HighBytesChunks(f[split..]);
      assert |f| <= 65536 ==> IntendedChunks(f[split..]) == [];
    }
  }

  /** A file of the letter X alone is cut by the size limit only, at every 4194304 bytes. */
  lemma {:induction false} LetterXChunks(f: seq<byte>)
    requires forall k :: 0 <= k < |f| ==> f[k] == 88
    ensures var cs := IntendedChunks(f);
      && (forall k :: 0 <= k < |cs| - 1 ==> |cs[k]| == 4194304)
      && (cs != [] ==> |cs[|cs| - 1]| <= 4194304)
  {
    if f != [] {
      var w := Buffer(f);
      var split := Split(w);
      TextGears();
      forall j | MIN_CHUNK <= j < |w| ensures !Cut(w, j) {
        OddGearNeverCuts(w, j);
      }
      hide Split, Cut, Buffer, Gear;
      assert split == if |f| > 4194304 then 4194304 else |f|;
      LetterXChunks(f[split..]);
      assert |f| <= 4194304 ==> IntendedChunks(f[split..]) == [];
    }
  }

  /** A cut before byte i is decided by the bytes in front of it. */
  lemma CutInPrefix(w: seq<byte>, n: nat, i: nat)
    requires 32 <= i <= n <= |w|
    ensures Cut(w[..n], i) <==> Cut(w, i)
  {
    assert w[..n][i - 32..i] == w[i - 32..i];
  }

  lemma SplitChunk(f: seq<byte>)
    requires f != []
    ensures var c := f[..Split(Buffer(f))];
            && 0 < |c| <= MAX_CHUNK && NoInnerCut(c)
            && (|c| < |f| ==> Closed(c))
  {
    var w := Buffer(f);
    var split := Split(w);
    var c := f[..split];
    assert c == w[..split];
    forall j | MIN_CHUNK <= j < |c| ensures !Cut(c, j) {
      CutInPrefix(w, split, j);
    }
    if split >= MIN_CHUNK {
      CutInPrefix(w, split, split);
    }
  }

  lemma ConsChunking(c: seq<byte>, g: seq<byte>, rest: seq<seq<byte>>)
    requires IsChunking(g, rest)
    requires 0 < |c| <= MAX_CHUNK && NoInnerCut(c) && (rest != [] ==> Closed(c))
    ensures IsChunking(c + g, [c] + rest)
  {
    ConcatCons(c, rest);
    var cs := [c] + rest;
    forall k | 0 <= k < |cs|
      ensures 0 < |cs[k]| <= MAX_CHUNK && NoInnerCut(cs[k])
      ensures k < |cs| - 1 ==> Closed(cs[k])
    {
      assert k == 0 || cs[k] == rest[k - 1];
    }
  }

  /** The intended chunks are such a list ... */
  lemma {:induction false} IntendedIsChunking(f: seq<byte>)
    ensures IsChunking(f, IntendedChunks(f))
    decreases |f|
  {
    if f != [] {
      var split := Split(Buffer(f));
      IntendedIsChunking(f[split..]);
      SplitChunk(f);
      ConsChunking(f[..split], f[split..], IntendedChunks(f[split..]));
      assert f == f[..split] + f[split..];
    }
  }

  /** A closed chunk at the front of a longer file, or the whole file if it has no cut,
      is where the buffer is split. */
  lemma FrontChunk(f: seq<byte>, n: nat)
    requires 0 < n <= |f| && n <= MAX_CHUNK && NoInnerCut(f[..n])
    requires n < |f| ==> Closed(f[..n])
    ensures Split(Buffer(f)) == n
  {
    var w := Buffer(f);
    assert f[..n] == w[..n];
    forall j | MIN_CHUNK <= j < n ensures !Cut(w, j) {
      CutInPrefix(w, n, j);
    }
    if n < |w| {
      CutInPrefix(w, n, n);
    }
  }

  /** ... and the only one. */
  lemma {:induction false} ChunkingUnique(f: seq<byte>, cs: seq<seq<byte>>)
    requires IsChunking(f, cs)
    ensures cs == IntendedChunks(f)
    decreases |cs|
  {
    if cs != [] {
      var c, rest := cs[0], cs[1..];
      assert cs == [c] + rest;
      ConcatCons(c, rest);
      if rest == [] {
        assert f == c;
      } else {
        assert Closed(cs[0]);
        ConcatCons(rest[0], rest[1..]);
        assert rest == [rest[0]] + rest[1..];
      }
      assert f[..|c|] == c && f[|c|..] == Concat(rest);
      assert NoInnerCut(cs[0]);
      FrontChunk(f, |c|);
      forall k | 0 <= k < |rest| - 1 ensures Closed(rest[k]) {
        assert rest[k] == cs[k + 1];
      }
      ChunkingUnique(f[|c|..], rest);
    }
  }

  // ---- What the loop covers ----------------------------------------------

  lemma {:induction false} CodeChunksPrefix(f: seq<byte>)
    ensures CodeChunks(f) <= IntendedChunks(f)
    decreases |f|
  {
    if f != [] {
      var split := Split(Buffer(f));
      assert |f| < MAX_CHUNK ==> Buffer(f) == f;
      if |f| >= MAX_CHUNK { CodeChunksPrefix(f[split..]); }
    }
  }

  /** What was read behind a cut in the final read is never reported. */
  function Dropped(f: seq<byte>): seq<byte> {
    FinalRead(f)[Split(FinalRead(f))..]
  }

  /** What the loop has yet to report from position `at` on. */
  function Unreported(f: seq<byte>, at: nat): seq<seq<byte>> {
    if at < |f| then CodeChunks(f[at..]) else []
  }

  /** What it will still report, if its stream has not failed. */
  function Remaining(f: seq<byte>, failed: bool, at: nat): seq<seq<byte>> {
    if failed then [] else Unreported(f, at)
  }

  /** One turn of the reading loop at position `at`: a full buffer is followed by the rest
      of the file, a short one by nothing. */
  lemma LoopTurn(f: seq<byte>, at: nat)
    requires at < |f|
    ensures var buffer := Window(f, at, MAX_CHUNK);
            && buffer != []
            && Remaining(f, false, at) ==
                 [buffer[..Split(buffer)]] + Remaining(f, |buffer| < MAX_CHUNK, at + Split(buffer))
  {
    var rest := f[at..];
    assert Buffer(rest) == Window(f, at, MAX_CHUNK);
    RestStep(rest);
    assert rest[Split(Buffer(rest))..] == f[at + Split(Buffer(rest))..];
  }

  /** The chunks reported and those to come are the chunks of the file. */
  ghost predicate Reports(f: seq<byte>, reported: seq<seq<byte>>, failed: bool, at: nat) {
    reported + Remaining(f, failed, at) == CodeChunks(f)
  }

  lemma AllRemaining(f: seq<byte>)
    ensures Reports(f, [], false, 0)
  {
    assert f[0..] == f;
  }

  lemma NothingRead(f: seq<byte>, at: nat, reported: seq<seq<byte>>)
    requires Window(f, at, MAX_CHUNK) == [] && Reports(f, reported, false, at)
    ensures Reports(f, reported, true, at)
  {
  }

  lemma NoneRemaining(f: seq<byte>, at: nat, reported: seq<seq<byte>>)
    requires Reports(f, reported, true, at)
    ensures reported == CodeChunks(f)
  {
    assert reported + [] == reported;
  }

  /** One turn adds the chunk that was still to come. */
  lemma TurnReports(f: seq<byte>, at: nat, reported: seq<seq<byte>>, buffer: seq<byte>)
    requires at < |f| && buffer == Window(f, at, MAX_CHUNK) && Reports(f, reported, false, at)
    ensures 0 < Split(buffer) <= |buffer|
    ensures Reports(f, reported + [buffer[..Split(buffer)]], |buffer| < MAX_CHUNK, at + Split(buffer))
  {
    hide Remaining, CodeChunks, Window, Split;
    LoopTurn(f, at);
    MoveOver(reported, [buffer[..Split(buffer)]], Remaining(f, |buffer| < MAX_CHUNK, at + Split(buffer)),
             Remaining(f, false, at), CodeChunks(f));
  }

  lemma RestStep(rest: seq<byte>)
    requires rest != []
    ensures var buffer := Buffer(rest);
            CodeChunks(rest) ==
              [buffer[..Split(buffer)]] + if |buffer| < MAX_CHUNK then [] else CodeChunks(rest[Split(buffer)..])
  {
    var buffer := Buffer(rest);
    assert |rest| < MAX_CHUNK ==> buffer == rest;
    assert buffer[..Split(buffer)] == rest[..Split(buffer)];
  }

  lemma FullReadStep(f: seq<byte>)
    requires |f| >= MAX_CHUNK
    ensures var split := Split(Buffer(f));
            && CodeChunks(f) == [f[..split]] + CodeChunks(f[split..])
            && Dropped(f) == Dropped(f[split..])
  {
  }

  lemma {:induction false} ReportedAndDropped(f: seq<byte>)
    ensures Concat(CodeChunks(f)) + Dropped(f) == f
    decreases |f|
  {
    if |f| >= MAX_CHUNK {
      var split := Split(Buffer(f));
      ReportedAndDropped(f[split..]);
      FullReadStep(f);
      ConcatCons(f[..split], CodeChunks(f[split..]));
      JoinParts(f, split, Concat(CodeChunks(f[split..])), Dropped(f[split..]));
    } else if f != [] {
      ConcatCons(f[..Split(f)], []);
      assert CodeChunks(f) == [f[..Split(f)]] + [];
    }
  }

  lemma JoinParts<T>(f: seq<T>, n: nat, u: seq<T>, v: seq<T>)
    requires n <= |f| && u + v == f[n..]
    ensures f[..n] + u + v == f
  {
    assert f[..n] + u + v == f[..n] + (u + v);
  }

  /** The loop reports the file without the bytes dropped behind a cut in its final read. */
  lemma CodeChunksCover(f: seq<byte>)
    ensures DroppedBytes(f) <= |f|
    ensures Concat(CodeChunks(f)) == f[..|f| - DroppedBytes(f)]
  {
    hide CodeChunks, FinalRead, Split;
    ReportedAndDropped(f);
    TakeFront(Concat(CodeChunks(f)), Dropped(f));
  }

  /** Leaving out trailing chunks, none of them empty, shortens the contents. */
  lemma FewerChunksShorter(cs: seq<seq<byte>>, all: seq<seq<byte>>)
    requires cs <= all && (forall k :: 0 <= k < |all| ==> |all[k]| > 0)
    ensures cs != all ==> |Concat(cs)| < |Concat(all)|
  {
    if cs != all {
      var rest := all[|cs|..];
      assert all == cs + rest;
      ConcatAppend(cs, rest);
      assert rest == [rest[0]] + rest[1..];
      ConcatCons(rest[0], rest[1..]);
    }
  }

  /** The whole file is reported exactly when the final short read holds no cut. */
  lemma CoversExactly(f: seq<byte>)
    ensures Concat(CodeChunks(f)) == f <==> Split(FinalRead(f)) == |FinalRead(f)|
    ensures Concat(CodeChunks(f)) == f <==> CodeChunks(f) == IntendedChunks(f)
  {
    CodeChunksCover(f);
    CodeChunksPrefix(f);
    IntendedIsChunking(f);
    FewerChunksShorter(CodeChunks(f), IntendedChunks(f));
  }

  /** What the loop reports is the chunking of what it covers. */
  lemma CodeChunksAreChunking(f: seq<byte>)
    ensures IsChunking(f[..|f| - DroppedBytes(f)], CodeChunks(f))
  {
    CodeChunksCover(f);
    CodeChunksPrefix(f);
    IntendedIsChunking(f);
    forall k | 0 <= k < |CodeChunks(f)|
      ensures 0 < |CodeChunks(f)[k]| <= MAX_CHUNK && NoInnerCut(CodeChunks(f)[k])
      ensures k < |CodeChunks(f)| - 1 ==> Closed(CodeChunks(f)[k])
    {
      assert CodeChunks(f)[k] == IntendedChunks(f)[k];
    }
  }

  /** A file on which the loop loses its last byte: 65537 bytes beyond the hash table. */
  lemma TailLost()
    ensures var f := Repeat(255 as byte, MIN_CHUNK + 1);
            DroppedBytes(f) == 1 && Concat(CodeChunks(f)) == Repeat(255 as byte, MIN_CHUNK)
  {
    var f := Repeat(255 as byte, MIN_CHUNK + 1);
    HighBytesCut(f, MIN_CHUNK);
    assert Split(f) == MIN_CHUNK;
    CodeChunksCover(f);
    assert f[..MIN_CHUNK] == Repeat(255 as byte, MIN_CHUNK);
  }

  // ---- Stability under edits ---------------------------------------------

  function ChunkEnd(f: seq<byte>, k: nat): nat
    requires k <= |IntendedChunks(f)|
  {
    |Concat(IntendedChunks(f)[..k])|
  }

  /** Behind a chunk end, chunking starts afresh. */
  lemma {:induction false} ChunksFromEnd(f: seq<byte>, k: nat)
    requires k <= |IntendedChunks(f)|
    ensures ChunkEnd(f, k) <= |f|
    ensures IntendedChunks(f)[k..] == IntendedChunks(f[ChunkEnd(f, k)..])
    decreases k
  {
    if k == 0 {
      assert f[0..] == f;
    } else {
      var split := Split(Buffer(f));
      var g := f[split..];
      ChunksFromEnd(g, k - 1);
      ConsTake(f[..split], IntendedChunks(g), k);
      ConcatCons(f[..split], IntendedChunks(g)[..k - 1]);
      assert g[ChunkEnd(g, k - 1)..] == f[ChunkEnd(f, k)..];
    }
  }

  /** Two files that agree from a common chunk end on have the same chunks from there. */
  lemma Resynchronised(f: seq<byte>, k: nat, g: seq<byte>, l: nat)
    requires k <= |IntendedChunks(f)| && l <= |IntendedChunks(g)|
    requires ChunkEnd(f, k) <= |f| && ChunkEnd(g, l) <= |g|
    requires f[ChunkEnd(f, k)..] == g[ChunkEnd(g, l)..]
    ensures IntendedChunks(f)[k..] == IntendedChunks(g)[l..]
  {
    ChunksFromEnd(f, k);
    ChunksFromEnd(g, l);
  }

  lemma FirstChunkKept(f: seq<byte>, g: seq<byte>)
    requires f != [] && Split(Buffer(f)) < |f|
    requires Split(Buffer(f)) < |g| && f[..Split(Buffer(f))] == g[..Split(Buffer(f))]
    ensures Split(Buffer(g)) == Split(Buffer(f))
  {
    SplitChunk(f);
    FrontChunk(g, Split(Buffer(f)));
  }

  lemma ChunkEndStep(f: seq<byte>, k: nat)
    requires 0 < k <= |IntendedChunks(f)|
    ensures var split := Split(Buffer(f));
            ChunkEnd(f, k) == split + ChunkEnd(f[split..], k - 1)
  {
    var split := Split(Buffer(f));
    assert IntendedChunks(f)[..k] == [f[..split]] + IntendedChunks(f[split..])[..k - 1];
    ConcatCons(f[..split], IntendedChunks(f[split..])[..k - 1]);
  }

  lemma ChunksStep(f: seq<byte>)
    requires IntendedChunks(f) != []
    ensures f != []
    ensures IntendedChunks(f) == [f[..Split(Buffer(f))]] + IntendedChunks(f[Split(Buffer(f))..])
    ensures |IntendedChunks(f)| == 1 + |IntendedChunks(f[Split(Buffer(f))..])|
  {
  }

  /** A file that continues differently behind its first k chunks keeps those chunks, as
      long as both files go on. */
  lemma SameFirstChunk(f: seq<byte>, g: seq<byte>, k: nat)
    requires f != [] && g != [] && 0 < k
    requires var split := Split(Buffer(f));
             && Split(Buffer(g)) == split && f[..split] == g[..split]
             && k - 1 < |IntendedChunks(g[split..])| && k - 1 < |IntendedChunks(f[split..])|
             && IntendedChunks(g[split..])[..k - 1] == IntendedChunks(f[split..])[..k - 1]
    ensures k < |IntendedChunks(g)| && k < |IntendedChunks(f)|
    ensures IntendedChunks(g)[..k] == IntendedChunks(f)[..k]
  {
    var split := Split(Buffer(f));
    ConsTake(f[..split], IntendedChunks(f[split..]), k);
    ConsTake(g[..split], IntendedChunks(g[split..]), k);
  }

  lemma {:induction false} PrefixKept(f: seq<byte>, k: nat, g: seq<byte>)
    requires k < |IntendedChunks(f)|
    requires ChunkEnd(f, k) <= |f| && ChunkEnd(f, k) < |g|
    requires f[..ChunkEnd(f, k)] == g[..ChunkEnd(f, k)]
    ensures k < |IntendedChunks(g)| && IntendedChunks(g)[..k] == IntendedChunks(f)[..k]
    decreases k
  {
    if k > 0 {
      ChunksStep(f);
      ChunkEndStep(f, k);
      hide IntendedChunks, Split, Buffer, ChunkEnd;
      var split, end := Split(Buffer(f)), ChunkEnd(f, k);
      PrefixParts(f, g, split, end);
      FirstChunkKept(f, g);
      PrefixKept(f[split..], k - 1, g[split..]);
      SameFirstChunk(f, g, k);
    }
  }

  lemma PrefixParts<T>(f: seq<T>, g: seq<T>, n: nat, end: nat)
    requires n <= end <= |f| && end <= |g| && f[..end] == g[..end]
    ensures f[..n] == g[..n]
    ensures f[n..][..end - n] == g[n..][..end - n]
  {
    assert f[..n] == f[..end][..n];
    assert g[..n] == g[..end][..n];
    assert f[n..][..end - n] == f[..end][n..];
    assert g[n..][..end - n] == g[..end][n..];
  }

  // ---- Edits -------------------------------------------------------------

  /** May y stand in a chunk list in this place? */
  ghost predicate IsChunk(y: seq<byte>, last: bool) {
    0 < |y| <= MAX_CHUNK && NoInnerCut(y) && (last || Closed(y))
  }

  lemma ReplacedChunking(cs: seq<seq<byte>>, f: seq<byte>, k: nat, y: seq<byte>)
    requires IsChunking(f, cs) && k < |cs|
    ensures IsChunking(Concat(cs[k := y]), cs[k := y]) <==> IsChunk(y, k == |cs| - 1)
  {
    var ds := cs[k := y];
    if IsChunk(y, k == |cs| - 1) {
      forall j | 0 <= j < |ds|
        ensures 0 < |ds[j]| <= MAX_CHUNK && NoInnerCut(ds[j])
        ensures j < |ds| - 1 ==> Closed(ds[j])
      {
        assert j == k || ds[j] == cs[j];
      }
    } else {
      assert ds[k] == y;
    }
  }

  /** An edit inside one chunk, of whatever length, leaves all other chunks as they were if
      and only if the new bytes are a chunk: no cut inside, and an end where they end. */
  lemma EditStaysLocal(f: seq<byte>, k: nat, y: seq<byte>)
    requires k < |IntendedChunks(f)|
    ensures var cs := IntendedChunks(f);
            IntendedChunks(Concat(cs[k := y])) == cs[k := y] <==> IsChunk(y, k == |cs| - 1)
  {
    var cs := IntendedChunks(f);
    var g := Concat(cs[k := y]);
    IntendedIsChunking(f);
    IntendedIsChunking(g);
    hide IntendedChunks, IsChunk, Concat;
    ReplacedChunking(cs, f, k, y);
    if IsChunking(g, cs[k := y]) { ChunkingUnique(g, cs[k := y]); }
  }

  /** A chunk that ended at a cut still does when its last 18 bytes are left alone. */
  lemma EndStaysCut(x: seq<byte>, y: seq<byte>)
    requires Closed(x) && |x| < MAX_CHUNK && MIN_CHUNK <= |y| <= MAX_CHUNK
    requires x[|x| - 18..] == y[|y| - 18..]
    ensures Closed(y)
  {
    assert x[|x| - 18..|x|] == x[|x| - 18..];
    assert y[|y| - 18..|y|] == y[|y| - 18..];
    CutIsLocal(x, |x|, y, |y|);
  }

  /** So an edit in front of a chunk's last 18 bytes changes that chunk only, unless it
      makes a new cut or an oversized chunk. */
  lemma EditBeforeEnd(f: seq<byte>, k: nat, y: seq<byte>)
    requires k < |IntendedChunks(f)| - 1 && 18 <= |IntendedChunks(f)[k]| < MAX_CHUNK
    requires MIN_CHUNK <= |y| <= MAX_CHUNK && NoInnerCut(y)
    requires var x := IntendedChunks(f)[k]; x[|x| - 18..] == y[|y| - 18..]
    ensures IntendedChunks(Concat(IntendedChunks(f)[k := y])) == IntendedChunks(f)[k := y]
  {
    IntendedIsChunking(f);
    assert Closed(IntendedChunks(f)[k]);
    EndStaysCut(IntendedChunks(f)[k], y);
    EditStaysLocal(f, k, y);
  }
}
