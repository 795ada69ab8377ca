/** The content-addressed chunk store of the default engine, and its fixed-size reader. */
module ChunkStores {
  import opened MachineTypes
  import opened Sequences
  import opened InputStreams

  const BLOCK: nat := 256 * 1024

  type Hash = seq<byte> -> string

  datatype Report = Report(data: seq<byte>, hash: string)

  // ---- Reading a file in blocks ------------------------------------------

  /** The file in blocks of 256 KiB, the last one possibly shorter. */
  function FileBlocks(f: seq<byte>): seq<seq<byte>> {
    if f == [] then []
    else if |f| <= BLOCK then [f]
    else [f[..BLOCK]] + FileBlocks(f[BLOCK..])
  }

  /** The blocks make up the file, none is empty, and all but the last have 262144 bytes. */
  lemma {:induction false} FileBlocksCover(f: seq<byte>)
    ensures Concat(FileBlocks(f)) == f
    ensures forall k :: 0 <= k < |FileBlocks(f)| ==> 0 < |FileBlocks(f)[k]| <= 262144
    ensures forall k :: 0 <= k < |FileBlocks(f)| - 1 ==> |FileBlocks(f)[k]| == 262144
    decreases |f|
  {
    if f == [] {
    } else if |f| <= BLOCK {
      ConcatCons(f, []);
      assert [f] + [] == [f];
    } else {
      FileBlocksCover(f[BLOCK..]);
      ConcatCons(f[..BLOCK], FileBlocks(f[BLOCK..]));
    }
  }

  function Reports(blocks: seq<seq<byte>>, hash: Hash): seq<Report> {
    seq(|blocks|, k requires 0 <= k < |blocks| => Report(blocks[k], hash(blocks[k])))
  }

  lemma ReportsCons(block: seq<byte>, blocks: seq<seq<byte>>, hash: Hash)
    ensures Reports([block] + blocks, hash) == [Report(block, hash(block))] + Reports(blocks, hash)
  {
  }

  /** One turn of the reading loop at position pos. */
  lemma BlockTurn(f: seq<byte>, pos: nat)
    requires pos <= |f|
    ensures var buffer := Window(f, pos, BLOCK);
            FileBlocks(f[pos..]) ==
              if buffer == [] then []
              else [buffer] + if |buffer| < BLOCK then [] else FileBlocks(f[pos + |buffer|..])
  {
    var rest := f[pos..];
    assert |rest| <= BLOCK ==> Window(f, pos, BLOCK) == rest;
    if |rest| >= BLOCK {
      assert Window(f, pos, BLOCK) == rest[..BLOCK];
      assert rest[BLOCK..] == f[pos + BLOCK..];
    }
  }

  /** The blocks still to come. */
  function BlocksLeft(f: seq<byte>, failed: bool, pos: nat): seq<seq<byte>> {
    if failed || pos > |f| then [] else FileBlocks(f[pos..])
  }

  /** What was reported, and what is still to come, are the reports of the file. */
  ghost predicate ReportedSo(f: seq<byte>, hash: Hash, reported: seq<Report>, failed: bool, pos: nat) {
    reported + Reports(BlocksLeft(f, failed, pos), hash) == Reports(FileBlocks(f), hash)
  }

  lemma NothingReported(f: seq<byte>, hash: Hash)
    ensures ReportedSo(f, hash, [], false, 0)
  {
    assert f[0..] == f;
  }

  lemma BlockReported(f: seq<byte>, hash: Hash, reported: seq<Report>, pos: nat, buffer: seq<byte>)
    requires pos <= |f| && buffer == Window(f, pos, BLOCK) && ReportedSo(f, hash, reported, false, pos)
    ensures if buffer == [] then ReportedSo(f, hash, reported, true, pos)
            else ReportedSo(f, hash, reported + [Report(buffer, hash(buffer))], |buffer| < BLOCK, pos + |buffer|)
  {
    hide FileBlocks, Reports, Window;
    BlockTurn(f, pos);
    if buffer != [] {
      var rest := BlocksLeft(f, |buffer| < BLOCK, pos + |buffer|);
      ReportsCons(buffer, rest, hash);
      MoveOver(reported, [Report(buffer, hash(buffer))], Reports(rest, hash),
               Reports(BlocksLeft(f, false, pos), hash), Reports(FileBlocks(f), hash));
    }
  }

  lemma AllReported(f: seq<byte>, hash: Hash, reported: seq<Report>, pos: nat)
    requires ReportedSo(f, hash, reported, true, pos)
    ensures reported == Reports(FileBlocks(f), hash)
  {
    AppendNothing(reported, Reports([], hash));
    hide FileBlocks;
  }

  // ---- The table ---------------------------------------------------------

  /** INSERT OR IGNORE: a stored chunk is never replaced. */
  function Stored(table: map<string, seq<byte>>, r: Report): map<string, seq<byte>> {
    if r.hash in table then table else table[r.hash := r.data]
  }

  function StoredAll(table: map<string, seq<byte>>, rs: seq<Report>): map<string, seq<byte>> {
    if rs == [] then table else Stored(StoredAll(table, rs[..|rs| - 1]), rs[|rs| - 1])
  }

  lemma {:induction false} StoredAllAppend(table: map<string, seq<byte>>, rs: seq<Report>, more: seq<Report>)
    ensures StoredAll(table, rs + more) == StoredAll(StoredAll(table, rs), more)
  {
    if more == [] {
      assert rs + more == rs;
    } else {
      InitOfAppend(rs, more);
      StoredAllAppend(table, rs, more[..|more| - 1]);
    }
  }

  /** The report that decides what is kept under its hash: no earlier one shares it. */
  ghost predicate FirstWithHash(rs: seq<Report>, i: nat) {
    i < |rs| && forall j :: 0 <= j < i ==> rs[j].hash != rs[i].hash
  }

  /** After any stores, a hash is kept exactly when it was there or was reported, and its
      chunk is the one that came first. */
  lemma {:induction false} FirstStoreWins(table: map<string, seq<byte>>, rs: seq<Report>, hash: string)
    ensures var after := StoredAll(table, rs);
            if hash in table then hash in after && after[hash] == table[hash]
            else if hash in after then
              exists i: nat :: FirstWithHash(rs, i) && rs[i].hash == hash && after[hash] == rs[i].data
            else
              forall i :: 0 <= i < |rs| ==> rs[i].hash != hash
  {
    if rs != [] {
      var n := |rs| - 1;
      FirstStoreWins(table, rs[..n], hash);
      var before := StoredAll(table, rs[..n]);
      if hash !in table {
        if hash in before {
          var i: nat :| FirstWithHash(rs[..n], i) && rs[..n][i].hash == hash && before[hash] == rs[..n][i].data;
          assert FirstWithHash(rs, i);
        } else if rs[n].hash == hash {
          assert forall j :: 0 <= j < n ==> rs[j] == rs[..n][j];
          assert FirstWithHash(rs, n);
        }
      }
    }
  }

  /** Nothing reported collides: neither with a stored chunk nor with another report. */
  ghost predicate NoCollision(table: map<string, seq<byte>>, rs: seq<Report>) {
    forall i :: 0 <= i < |rs| ==>
      && (rs[i].hash in table ==> table[rs[i].hash] == rs[i].data)
      && forall j :: 0 <= j < i && rs[j].hash == rs[i].hash ==> rs[j].data == rs[i].data
  }

  ghost predicate AllRetrievable(table: map<string, seq<byte>>, rs: seq<Report>) {
    forall i :: 0 <= i < |rs| ==> rs[i].hash in table && table[rs[i].hash] == rs[i].data
  }

  lemma ReportIsKept(table: map<string, seq<byte>>, rs: seq<Report>, i: nat)
    requires i < |rs|
    ensures rs[i].hash in StoredAll(table, rs)
    ensures rs[i].hash in table ==> StoredAll(table, rs)[rs[i].hash] == table[rs[i].hash]
    ensures rs[i].hash !in table ==>
      exists j: nat :: FirstWithHash(rs, j) && rs[j].hash == rs[i].hash && StoredAll(table, rs)[rs[i].hash] == rs[j].data
  {
    FirstStoreWins(table, rs, rs[i].hash);
  }

  lemma CollisionIsLost(table: map<string, seq<byte>>, rs: seq<Report>, j: nat, i: nat)
    requires j < i < |rs| && rs[j].hash == rs[i].hash
    requires AllRetrievable(StoredAll(table, rs), rs)
    ensures rs[j].data == rs[i].data
  {
  }

  /** Once all reports are stored, every one of them is retrieved unchanged exactly when
      there was no collision. */
  lemma RetrievableExactly(table: map<string, seq<byte>>, rs: seq<Report>)
    ensures AllRetrievable(StoredAll(table, rs), rs) <==> NoCollision(table, rs)
  {
    var after := StoredAll(table, rs);
    if NoCollision(table, rs) {
      forall i | 0 <= i < |rs| ensures rs[i].hash in after && after[rs[i].hash] == rs[i].data {
        ReportIsKept(table, rs, i);
        if rs[i].hash !in table {
          var k: nat :| FirstWithHash(rs, k) && rs[k].hash == rs[i].hash && after[rs[i].hash] == rs[k].data;
          assert k <= i;
        }
      }
    }
    if AllRetrievable(after, rs) {
      forall i | 0 <= i < |rs|
        ensures rs[i].hash in table ==> table[rs[i].hash] == rs[i].data
        ensures forall j :: 0 <= j < i && rs[j].hash == rs[i].hash ==> rs[j].data == rs[i].data
      {
        ReportIsKept(table, rs, i);
        forall j | 0 <= j < i && rs[j].hash == rs[i].hash ensures rs[j].data == rs[i].data {
          CollisionIsLost(table, rs, j, i);
        }
      }
    }
  }

  /** Later stores, of anything, leave retrievable chunks retrievable. */
  lemma StaysRetrievable(table: map<string, seq<byte>>, rs: seq<Report>, later: seq<Report>)
    requires AllRetrievable(table, rs)
    ensures AllRetrievable(StoredAll(table, later), rs)
  {
    forall i | 0 <= i < |rs|
      ensures rs[i].hash in StoredAll(table, later) && StoredAll(table, later)[rs[i].hash] == rs[i].data
    {
      FirstStoreWins(table, later, rs[i].hash);
    }
  }

  /** What the reported hashes bring back, concatenated. */
  function Restored(table: map<string, seq<byte>>, rs: seq<Report>): seq<byte> {
    if rs == [] then []
    else
      var hash := rs[|rs| - 1].hash;
      Restored(table, rs[..|rs| - 1]) + if hash in table then table[hash] else []
  }

  lemma {:induction false} RestoredIsConcat(table: map<string, seq<byte>>, blocks: seq<seq<byte>>, hash: Hash)
    requires AllRetrievable(table, Reports(blocks, hash))
    ensures Restored(table, Reports(blocks, hash)) == Concat(blocks)
  {
    if blocks != [] {
      var n, rs := |blocks| - 1, Reports(blocks, hash);
      assert rs[..n] == Reports(blocks[..n], hash);
      RestoredIsConcat(table, blocks[..n], hash);
      assert rs[n].data == blocks[n];
    }
  }

  /** Storing every reported block makes the file recoverable, and it stays so after any
      later stores, provided no reported hash collides. */
  lemma FileRecoverable(table: map<string, seq<byte>>, f: seq<byte>, hash: Hash, later: seq<Report>)
    requires NoCollision(table, Reports(FileBlocks(f), hash))
    ensures Restored(StoredAll(StoredAll(table, Reports(FileBlocks(f), hash)), later), Reports(FileBlocks(f), hash)) == f
  {
    var rs := Reports(FileBlocks(f), hash);
    RetrievableExactly(table, rs);
    StaysRetrievable(StoredAll(table, rs), rs, later);
    FileBlocksCover(f);
    RestoredIsConcat(StoredAll(StoredAll(table, rs), later), FileBlocks(f), hash);
  }

  // ---- Counters ----------------------------------------------------------

  function HashSet(rs: seq<Report>): set<string> {
    set i | 0 <= i < |rs| :: rs[i].hash
  }

  lemma {:induction false} StoredKeys(table: map<string, seq<byte>>, rs: seq<Report>)
    ensures StoredAll(table, rs).Keys == table.Keys + HashSet(rs)
  {
    if rs != [] {
      var n := |rs| - 1;
      StoredKeys(table, rs[..n]);
      assert HashSet(rs) == HashSet(rs[..n]) + {rs[n].hash};
    }
  }

  lemma StoredAppend(table: map<string, seq<byte>>, rs: seq<Report>, r: Report)
    ensures StoredAll(table, rs + [r]) == Stored(StoredAll(table, rs), r)
  {
    TakeOfAppend(rs, r);
  }

  lemma GrowOutside<T>(a: set<T>, b: set<T>, x: T)
    requires b <= a
    ensures |a + {x} - b| == |a - b| + if x in a then 0 else 1
  {
    if x in a {
      assert a + {x} == a;
    } else {
      assert a + {x} - b == (a - b) + {x};
    }
  }

  lemma StoredOneKeys(table: map<string, seq<byte>>, r: Report)
    ensures Stored(table, r).Keys == table.Keys + {r.hash}
  {
  }

  /** Hashes that storing the reports brought into the table. */
  function NewHashes(initial: map<string, seq<byte>>, rs: seq<Report>): nat {
    |StoredAll(initial, rs).Keys - initial.Keys|
  }

  lemma NewHashesStep(initial: map<string, seq<byte>>, rs: seq<Report>, r: Report)
    ensures NewHashes(initial, rs + [r]) ==
            NewHashes(initial, rs) + if r.hash in StoredAll(initial, rs) then 0 else 1
  {
    var before := StoredAll(initial, rs);
    StoredOneKeys(before, r);
    StoredAppend(initial, rs, r);
    StoredKeys(initial, rs);
    hide Stored, StoredAll, HashSet;
    GrowOutside(before.Keys, initial.Keys, r.hash);
  }

  lemma NewHashesCount(initial: map<string, seq<byte>>, rs: seq<Report>)
    ensures NewHashes(initial, rs) == |HashSet(rs) - initial.Keys|
  {
    StoredKeys(initial, rs);
    assert initial.Keys + HashSet(rs) - initial.Keys == HashSet(rs) - initial.Keys;
  }

  class DefaultDedupEngine {
    var table: map<string, seq<byte>>
    var totalChunks: nat
    var uniqueChunks: nat
    ghost var initial: map<string, seq<byte>>
    ghost var stores: seq<Report>

    /** The database may outlive the object: `initial` is what it held at the start. */
    ghost predicate Valid()
      reads this
    {
      && table == StoredAll(initial, stores)
      && totalChunks == |stores|
      && uniqueChunks == NewHashes(initial, stores)
    }

    constructor (database: map<string, seq<byte>>)
      ensures Valid() && initial == database && stores == []
    {
      table := database;
      initial := database;
      stores := [];
      totalChunks, uniqueChunks := 0, 0;
    }

    method ChunkExists(hash: string) returns (found: bool)
      requires Valid()
      ensures found <==> hash in initial || exists i :: 0 <= i < |stores| && stores[i].hash == hash
    {
      StoredKeys(initial, stores);
      assert forall i :: 0 <= i < |stores| ==> stores[i].hash in HashSet(stores);
      found := hash in table;
    }

    /** The unique counter is the number of distinct hashes stored that the database did
        not hold at the start: of all hashes, if it began empty. */
    method StoreChunk(hash: string, data: seq<byte>)
      requires Valid()
      modifies this
      ensures Valid() && initial == old(initial) && stores == old(stores) + [Report(data, hash)]
      ensures uniqueChunks == |HashSet(stores) - initial.Keys|
    {
      hide StoredAll, NewHashes, HashSet;
      ghost var r := Report(data, hash);
      StoredAppend(initial, stores, r);
      NewHashesStep(initial, stores, r);
      NewHashesCount(initial, stores + [r]);
      var isNew := hash !in table;
      if isNew {
        table := table[hash := data];
      }
      totalChunks := totalChunks + 1;
      if isNew {
        uniqueChunks := uniqueChunks + 1;
      }
      stores := stores + [r];
    }

    method RetrieveChunk(hash: string) returns (chunk: Option<seq<byte>>)
      requires Valid()
      ensures chunk.Some? <==> hash in initial || hash in HashSet(stores)
      ensures hash in initial ==> chunk == Some(initial[hash])
      ensures hash !in initial && chunk.Some? ==>
                exists i: nat :: FirstWithHash(stores, i) && stores[i].hash == hash && chunk.value == stores[i].data
    {
      FirstStoreWins(initial, stores, hash);
      StoredKeys(initial, stores);
      chunk := if hash in table then Some(table[hash]) else None;
    }

    /** A missing file reports nothing. */
    method ProcessFile(file: Option<seq<byte>>, hash: Hash) returns (reported: seq<Report>)
      ensures file.None? ==> reported == []
      ensures file.Some? ==> reported == Reports(FileBlocks(file.value), hash)
    {
      reported := [];
      if file.Some? {
        reported := ReadBlocks(file.value, hash);
      }
    }

    /** Full reads until one falls short; a short read with data in it is still reported. */
    method ReadBlocks(f: seq<byte>, hash: Hash) returns (reported: seq<Report>)
      ensures reported == Reports(FileBlocks(f), hash)
    {
      hide FileBlocks, Reports, ReportedSo, Window;
      reported := [];
      NothingReported(f, hash);
      var ifs := OPENED;
      while true
        invariant !ifs.failed && ifs.pos <= |f|
        invariant ReportedSo(f, hash, reported, false, ifs.pos)
        decreases |f| - ifs.pos
      {
        var buffer := ifs.Delivers(f, BLOCK);
        BlockReported(f, hash, reported, ifs.pos, buffer);
        ifs := ifs.AfterRead(|buffer|, BLOCK);
        if ifs.failed && buffer == [] {
          break;
        }
        reported := reported + [Report(buffer, hash(buffer))];
        if ifs.failed {
          break;
        }
      }
      AllReported(f, hash, reported, ifs.pos);
    }
  }
}
