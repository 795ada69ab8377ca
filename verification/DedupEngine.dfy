/** The deduplication engine: the chunk index and the chunking of a file. */
module Dedup {
  import opened MachineTypes
  import opened Sequences
  import opened GearHash
  import opened InputStreams
  import opened ContentChunking
  import opened DedupIndex

  datatype DedupStats = DedupStats(totalChunks: nat, uniqueChunks: nat, savedBytes: uint64)

  class DedupEngine {
    var rows: seq<ChunkRow>
    ghost var history: seq<Event>

    /** The table is what the lookups and adds so far make of an empty one. */
    ghost predicate Valid()
      reads this
    {
      rows == RowsAfter(history)
    }

    constructor ()
      ensures Valid() && rows == [] && history == []
    {
      rows := [];
      history := [];
    }

    /** A hit returns the row as it was before its count goes up. */
    method Lookup(hash: string) returns (result: Option<ChunkInfo>)
      requires Valid()
      modifies this
      ensures Valid() && history == old(history) + [Looked(hash)]
      ensures result.Some? <==> !NeverAdded(old(history), hash)
      ensures result.Some? ==> exists j: nat ::
                && FirstAdd(old(history), hash, j)
                && result.value == ChunkInfo(hash, old(history)[j].size, Signed32(1 + Lookups(old(history), hash, j + 1)))
    {
      RefCounts(history, hash);
      RowsAfterAppend(history, Looked(hash));
      var i := Find(rows, hash);
      if i < |rows| {
        var row := rows[i];
        ghost var j: nat :| Explains(history, j, row);
        SignedRoundTrip(history[j].size);
        result := Some(ChunkInfo(row.hash, row.size % TWO_32, Signed32(row.refCount)));
        rows := rows[i := row.(refCount := row.refCount + 1)];
      } else {
        result := None;
      }
      history := history + [Looked(hash)];
    }

    method AddChunk(hash: string, size: uint32)
      requires Valid()
      modifies this
      ensures Valid() && history == old(history) + [Added(hash, size)]
      ensures old(rows) <= rows && Known(rows, hash)
      ensures Known(old(rows), hash) ==> rows == old(rows)
    {
      RowsAfterAppend(history, Added(hash, size));
      FindAfter(rows, Added(hash, size), hash);
      if !Known(rows, hash) {
        rows := rows + [ChunkRow(hash, Signed32(size), 1)];
      }
      history := history + [Added(hash, size)];
    }

    /** The saving is what the successful lookups of the whole history saved. */
    method GetStats() returns (stats: DedupStats)
      requires Valid()
      ensures stats.uniqueChunks == stats.totalChunks == |rows|
      ensures stats.savedBytes == SavedOver(history) % TWO_64
    {
      SavedIsSumOfHits(history);
      stats := DedupStats(|rows|, |rows|, SavedBytes(rows) % TWO_64);
    }

    /** The chunks handed to the callback, in order. A missing file reports nothing. */
    method ProcessFile(file: Option<seq<byte>>) returns (reported: seq<seq<byte>>)
      ensures file.None? ==> reported == []
      ensures file.Some? ==> reported == CodeChunks(file.value)
    {
      hide CodeChunks, Reports, Split, Window;
      reported := [];
      if file.Some? {
        reported := ReadChunks(file.value);
      }
    }

    /** The reading loop. */
    method ReadChunks(f: seq<byte>) returns (reported: seq<seq<byte>>)
      ensures reported == CodeChunks(f)
    {
      hide CodeChunks, Reports, Split, Window;
      reported := [];
      AllRemaining(f);
      var ifs, totalRead := OPENED, 0;
      while !ifs.failed
        invariant totalRead <= |f| && (!ifs.failed ==> ifs.pos == totalRead)
        invariant Reports(f, reported, ifs.failed, totalRead)
        decreases !ifs.failed, |f| - totalRead
      {
        var buffer := ifs.Delivers(f, MAX_CHUNK);
        var bytes := |buffer|;
        ifs := ifs.AfterRead(bytes, MAX_CHUNK);
        if bytes == 0 {
          NothingRead(f, totalRead, reported);
          break;
        }
        var split;
        split, reported := ReportChunk(f, totalRead, reported, buffer);
        if split < bytes {
          ifs := ifs.AfterSeek(totalRead + split);
        }
        totalRead := totalRead + split;
      }
      NoneRemaining(f, totalRead, reported);
    }

    /** Find the cut and hand the chunk in front of it to the callback. */
    method ReportChunk(ghost f: seq<byte>, ghost at: nat, reported: seq<seq<byte>>, buffer: seq<byte>)
      returns (split: nat, reported': seq<seq<byte>>)
      requires at < |f| && buffer == Window(f, at, MAX_CHUNK) && Reports(f, reported, false, at)
      ensures 0 < split <= |buffer|
      ensures Reports(f, reported', |buffer| < MAX_CHUNK, at + split)
    {
      hide CodeChunks, Reports, Split, Window;
      split := SplitPoint(buffer);
      TurnReports(f, at, reported, buffer);
      reported' := reported + [buffer[..split]];
    }

    /** The scan for a cut, from the minimum chunk size on. */
    method SplitPoint(buffer: seq<byte>) returns (split: nat)
      requires |buffer| <= MAX_CHUNK
      ensures split == Split(buffer)
    {
      var bytes := |buffer|;
      split := bytes;
      if bytes >= MIN_CHUNK {
        var i := MIN_CHUNK;
        while i < bytes && i <= MAX_CHUNK
          invariant MIN_CHUNK <= i <= bytes
          invariant split == bytes
          invariant Split(buffer) == FirstCut(buffer, i)
        {
          var h := FastcdcBoundary(buffer[i - 32..i]);
          assert buffer[i - 32..i][..32] == buffer[i - 32..i];
          if h % AVG_CHUNK == 0 {
            split := i;
            break;
          }
          i := i + 1;
        }
      }
    }
  }

  // ---- Chunking a file into the index ------------------------------------

  function ChunkOffers(cs: seq<seq<byte>>, hash: seq<byte> -> string): (offers: seq<Offer>)
    requires forall k :: 0 <= k < |cs| ==> |cs[k]| <= MAX_CHUNK
    ensures |offers| == |cs|
  {
    seq(|cs|, k requires 0 <= k < |cs| => Offer(hash(cs[k]), |cs[k]|))
  }

  ghost predicate CollisionFree(cs: seq<seq<byte>>, hash: seq<byte> -> string) {
    forall i, j :: 0 <= i < |cs| && 0 <= j < |cs| && hash(cs[i]) == hash(cs[j]) ==> cs[i] == cs[j]
  }

  lemma {:induction false} OffersTotal(cs: seq<seq<byte>>, hash: seq<byte> -> string)
    requires forall k :: 0 <= k < |cs| ==> |cs[k]| <= MAX_CHUNK
    ensures Sum(OfferedSizes(ChunkOffers(cs, hash))) == |Concat(cs)|
  {
    if cs != [] {
      var n := |cs| - 1;
      OffersTotal(cs[..n], hash);
      assert OfferedSizes(ChunkOffers(cs, hash))[..n] == OfferedSizes(ChunkOffers(cs[..n], hash));
    }
  }

  /** Looking up, and on a miss adding, every chunk of a file splits its bytes into those
      stored once, those saved, and those the reading loop dropped. */
  lemma FileIsUniqueSavedAndDropped(f: seq<byte>, hash: seq<byte> -> string)
    requires CollisionFree(CodeChunks(f), hash)
    ensures forall k :: 0 <= k < |CodeChunks(f)| ==> |CodeChunks(f)[k]| <= MAX_CHUNK
    ensures var rows := RowsAfter(Offered(ChunkOffers(CodeChunks(f), hash)));
      |f| == Sum(StoredSizes(rows)) + SavedBytes(rows) + DroppedBytes(f)
  {
    var cs := CodeChunks(f);
    CodeChunksAreChunking(f);
    CodeChunksCover(f);
    OffersTotal(cs, hash);
    OfferedIsUniquePlusSaved(ChunkOffers(cs, hash));
  }
}
