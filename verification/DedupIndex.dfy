/** The reference-counted chunk index as a value, over any history of lookups and adds. */
module DedupIndex {
  import opened MachineTypes
  import opened Sequences

  /** One table row. The size is what a 32-bit signed binding of it stores. */
  datatype ChunkRow = ChunkRow(hash: string, size: int, refCount: nat)

  datatype ChunkInfo = ChunkInfo(hash: string, size: uint32, refCount: int)

  datatype Event = Looked(hash: string) | Added(hash: string, size: uint32)

  function Signed32(x: int): int {
    var low := x % TWO_32;
    if low < TWO_32 / 2 then low else low - TWO_32
  }

  /** Reading the stored size back into an unsigned variable undoes the binding. */
  lemma SignedRoundTrip(size: uint32)
    ensures Signed32(size) % TWO_32 == size
    ensures Signed32(size) <= size
    ensures Signed32(size) == size <==> size < TWO_32 / 2
  {
    if size >= TWO_32 / 2 { assert (size - TWO_32) + TWO_32 == size; }
  }

  // ---- The table ---------------------------------------------------------

  function Hashes(rows: seq<ChunkRow>): (r: seq<string>)
    ensures |r| == |rows| && forall j :: 0 <= j < |rows| ==> r[j] == rows[j].hash
  {
    seq(|rows|, j requires 0 <= j < |rows| => rows[j].hash)
  }

  /** The row of a hash, or the number of rows if there is none. */
  function Find(rows: seq<ChunkRow>, hash: string): (i: nat)
    ensures i <= |rows|
    ensures i < |rows| ==> rows[i].hash == hash
    ensures forall j :: 0 <= j < i ==> rows[j].hash != hash
  {
    var hashes := Hashes(rows);
    assert forall j :: 0 <= j < |rows| ==> hashes[j] == rows[j].hash;
    IndexOf(hashes, hash)
  }

  predicate Known(rows: seq<ChunkRow>, hash: string) {
    Find(rows, hash) < |rows|
  }

  ghost predicate UniqueHashes(rows: seq<ChunkRow>) {
    forall i, j :: 0 <= i < j < |rows| ==> rows[i].hash != rows[j].hash
  }

  /** UPDATE chunks SET ref_count = ref_count + 1 WHERE hash = ?. */
  function Referenced(rows: seq<ChunkRow>, hash: string): seq<ChunkRow> {
    var i := Find(rows, hash);
    if i < |rows| then rows[i := rows[i].(refCount := rows[i].refCount + 1)] else rows
  }

  /** INSERT OR IGNORE INTO chunks (hash, size) VALUES (?, ?). */
  function Inserted(rows: seq<ChunkRow>, hash: string, size: uint32): seq<ChunkRow> {
    if Known(rows, hash) then rows else rows + [ChunkRow(hash, Signed32(size), 1)]
  }

  function Apply(rows: seq<ChunkRow>, e: Event): seq<ChunkRow> {
    match e
    case Looked(hash) => Referenced(rows, hash)
    case Added(hash, size) => Inserted(rows, hash, size)
  }

  function RowsAfter(h: seq<Event>): seq<ChunkRow> {
    if h == [] then [] else Apply(RowsAfter(h[..|h| - 1]), h[|h| - 1])
  }

  lemma RowsAfterAppend(h: seq<Event>, e: Event)
    ensures RowsAfter(h + [e]) == Apply(RowsAfter(h), e)
  {
    TakeOfAppend(h, e);
  }

  lemma {:induction false} RowsAreUnique(h: seq<Event>)
    ensures UniqueHashes(RowsAfter(h))
  {
    if h != [] { RowsAreUnique(h[..|h| - 1]); }
  }

  // ---- Reference counts --------------------------------------------------

  /** Event j of the history adds the hash, and none before it does. */
  ghost predicate FirstAdd(h: seq<Event>, hash: string, j: nat) {
    && j < |h| && h[j].Added? && h[j].hash == hash
    && forall i :: 0 <= i < j ==> !(h[i].Added? && h[i].hash == hash)
  }

  /** Lookups of the hash from position `from` on. */
  function Lookups(h: seq<Event>, hash: string, from: nat): nat {
    if |h| <= from then 0
    else Lookups(h[..|h| - 1], hash, from) + if h[|h| - 1] == Looked(hash) then 1 else 0
  }

  lemma FindSame(rows: seq<ChunkRow>, after: seq<ChunkRow>, hash: string)
    requires |rows| <= |after| && forall k :: 0 <= k < |rows| ==> after[k].hash == rows[k].hash
    requires |rows| == |after| || (|rows| + 1 == |after| && (Known(rows, hash) || after[|rows|].hash != hash))
    ensures Known(after, hash) == Known(rows, hash)
    ensures Known(rows, hash) ==> Find(after, hash) == Find(rows, hash)
  {
    var i := Find(rows, hash);
    if i < |rows| {
      assert after[i].hash == hash;
    }
  }

  lemma FindNew(rows: seq<ChunkRow>, row: ChunkRow)
    requires !Known(rows, row.hash)
    ensures Find(rows + [row], row.hash) == |rows|
  {
    var after := rows + [row];
    assert after[|rows|] == row;
    assert forall k :: 0 <= k < |rows| ==> after[k] == rows[k];
  }

  /** The row of one hash after one more event. */
  lemma FindAfter(rows: seq<ChunkRow>, e: Event, hash: string)
    ensures var after := Apply(rows, e);
            if Known(rows, hash) then
              && Known(after, hash)
              && after[Find(after, hash)] ==
                   (if e == Looked(hash) then rows[Find(rows, hash)].(refCount := rows[Find(rows, hash)].refCount + 1)
                    else rows[Find(rows, hash)])
            else if e.Added? && e.hash == hash then
              Known(after, hash) && after[Find(after, hash)] == ChunkRow(hash, Signed32(e.size), 1)
            else
              !Known(after, hash)
  {
    hide Find;
    if e.Added? && e.hash == hash && !Known(rows, hash) {
      FindNew(rows, ChunkRow(hash, Signed32(e.size), 1));
    } else {
      FindSame(rows, Apply(rows, e), hash);
    }
  }

  /** The row is what the first add of its hash and the lookups since make of it. */
  ghost predicate Explains(h: seq<Event>, j: nat, row: ChunkRow) {
    && FirstAdd(h, row.hash, j)
    && row == ChunkRow(row.hash, Signed32(h[j].size), 1 + Lookups(h, row.hash, j + 1))
  }

  lemma ExplainsAppend(h: seq<Event>, e: Event, j: nat, row: ChunkRow)
    requires Explains(h, j, row)
    ensures Explains(h + [e], j, if e == Looked(row.hash) then row.(refCount := row.refCount + 1) else row)
  {
    TakeOfAppend(h, e);
  }

  ghost predicate NeverAdded(h: seq<Event>, hash: string) {
    forall j :: 0 <= j < |h| ==> !(h[j].Added? && h[j].hash == hash)
  }

  /** A hash is known exactly when it was added; its size is that of the first add, and its
      count is one plus the lookups since. */
  lemma {:induction false} RefCounts(h: seq<Event>, hash: string)
    ensures Known(RowsAfter(h), hash) <==> !NeverAdded(h, hash)
    ensures Known(RowsAfter(h), hash) ==> exists j: nat :: Explains(h, j, RowsAfter(h)[Find(RowsAfter(h), hash)])
  {
    if h != [] {
      var n := |h| - 1;
      var front, e := h[..n], h[n];
      SplitLast(h);
      RefCounts(front, hash);
      FindAfter(RowsAfter(front), e, hash);
      if Known(RowsAfter(front), hash) {
        var row := RowsAfter(front)[Find(RowsAfter(front), hash)];
        var j: nat :| Explains(front, j, row);
        ExplainsAppend(front, e, j, row);
        assert h[j] == front[j];
      } else if e.Added? && e.hash == hash {
        assert FirstAdd(h, hash, n);
        assert Explains(h, n, ChunkRow(hash, Signed32(e.size), 1));
      }
    }
  }

  // ---- Saved bytes -------------------------------------------------------

  function Savings(rows: seq<ChunkRow>): seq<int> {
    seq(|rows|, i requires 0 <= i < |rows| => rows[i].size * (rows[i].refCount - 1))
  }

  function StoredSizes(rows: seq<ChunkRow>): seq<int> {
    seq(|rows|, i requires 0 <= i < |rows| => rows[i].size)
  }

  /** SUM(size * (ref_count - 1)). */
  function SavedBytes(rows: seq<ChunkRow>): int {
    Sum(Savings(rows))
  }

  /** What a successful lookup saves: the stored size of the row it hits. */
  function SavedBy(rows: seq<ChunkRow>, e: Event): int {
    if e.Looked? && Known(rows, e.hash) then rows[Find(rows, e.hash)].size else 0
  }

  function SavedOver(h: seq<Event>): int {
    if h == [] then 0
    else SavedOver(h[..|h| - 1]) + SavedBy(RowsAfter(h[..|h| - 1]), h[|h| - 1])
  }

  lemma {:induction false} SumUpdate(s: seq<int>, i: nat, x: int)
    requires i < |s|
    ensures Sum(s[i := x]) == Sum(s) - s[i] + x
  {
    var n := |s| - 1;
    if i < n {
      SumUpdate(s[..n], i, x);
      assert s[i := x][..n] == s[..n][i := x];
    } else {
      assert s[i := x][..n] == s[..n];
    }
  }

  lemma ApplySaves(rows: seq<ChunkRow>, e: Event)
    ensures SavedBytes(Apply(rows, e)) == SavedBytes(rows) + SavedBy(rows, e)
  {
    var after := Apply(rows, e);
    match e {
      case Looked(hash) =>
        var i := Find(rows, hash);
        if i < |rows| {
          var x := rows[i].size * rows[i].refCount;
          assert Savings(after) == Savings(rows)[i := x];
          SumUpdate(Savings(rows), i, x);
          assert x - rows[i].size * (rows[i].refCount - 1) == rows[i].size;
        }
      case Added(hash, size) =>
        if !Known(rows, hash) {
          assert Savings(after) == Savings(rows) + [0];
          SumAppend(Savings(rows), [0]);
        }
    }
  }

  /** Over any history, the reported saving is the stored size summed over the lookups
      that succeeded. */
  lemma {:induction false} SavedIsSumOfHits(h: seq<Event>)
    ensures SavedBytes(RowsAfter(h)) == SavedOver(h)
  {
    if h != [] {
      SavedIsSumOfHits(h[..|h| - 1]);
      ApplySaves(RowsAfter(h[..|h| - 1]), h[|h| - 1]);
    }
  }

  // ---- Lookup, then add on a miss ----------------------------------------

  datatype Offer = Offer(hash: string, size: uint32)

  /** The events of offering chunks one after the other. */
  function Offered(offers: seq<Offer>): seq<Event> {
    if offers == [] then []
    else
      var h, o := Offered(offers[..|offers| - 1]), offers[|offers| - 1];
      if Known(RowsAfter(h), o.hash) then h + [Looked(o.hash)]
      else h + [Looked(o.hash), Added(o.hash, o.size)]
  }

  /** The table after looking the chunk up and adding it if it was missing. */
  function AfterOffer(rows: seq<ChunkRow>, o: Offer): seq<ChunkRow> {
    var looked := Apply(rows, Looked(o.hash));
    if Known(rows, o.hash) then looked else Apply(looked, Added(o.hash, o.size))
  }

  lemma OfferedStep(offers: seq<Offer>)
    requires offers != []
    ensures var n := |offers| - 1;
            RowsAfter(Offered(offers)) == AfterOffer(RowsAfter(Offered(offers[..n])), offers[n])
  {
    var h, o := Offered(offers[..|offers| - 1]), offers[|offers| - 1];
    RowsAfterAppend(h, Looked(o.hash));
    assert h + [Looked(o.hash), Added(o.hash, o.size)] == (h + [Looked(o.hash)]) + [Added(o.hash, o.size)];
    RowsAfterAppend(h + [Looked(o.hash)], Added(o.hash, o.size));
  }

  function OfferedSizes(offers: seq<Offer>): seq<int> {
    seq(|offers|, i requires 0 <= i < |offers| => offers[i].size)
  }

  ghost predicate OneSizePerHash(offers: seq<Offer>) {
    forall i, j :: 0 <= i < j < |offers| && offers[i].hash == offers[j].hash ==> offers[i].size == offers[j].size
  }

  function Total(rows: seq<ChunkRow>): int {
    Sum(StoredSizes(rows)) + SavedBytes(rows)
  }

  lemma OfferStep(rows: seq<ChunkRow>, o: Offer)
    requires Known(rows, o.hash) ==> rows[Find(rows, o.hash)].size == Signed32(o.size)
    ensures Total(AfterOffer(rows, o)) == Total(rows) + Signed32(o.size)
  {
    ApplySaves(rows, Looked(o.hash));
    if Known(rows, o.hash) {
      assert StoredSizes(Apply(rows, Looked(o.hash))) == StoredSizes(rows);
    } else {
      ApplySaves(rows, Added(o.hash, o.size));
      assert StoredSizes(Inserted(rows, o.hash, o.size)) == StoredSizes(rows) + [Signed32(o.size)];
      SumAppend(StoredSizes(rows), [Signed32(o.size)]);
      assert Sum([Signed32(o.size)]) == Signed32(o.size);
    }
  }

  /** Every row holds the size that some offer of its hash had. */
  ghost predicate SizesFrom(rows: seq<ChunkRow>, offers: seq<Offer>) {
    forall r :: 0 <= r < |rows| ==> OfferedAs(rows[r], offers)
  }

  ghost predicate OfferedAs(row: ChunkRow, offers: seq<Offer>) {
    exists i :: 0 <= i < |offers| && offers[i].hash == row.hash && Signed32(offers[i].size) == row.size
  }

  lemma OfferedAsAppend(row: ChunkRow, offers: seq<Offer>, o: Offer)
    ensures OfferedAs(row, offers) ==> OfferedAs(row, offers + [o])
    ensures o.hash == row.hash && Signed32(o.size) == row.size ==> OfferedAs(row, offers + [o])
  {
    var all := offers + [o];
    assert all[|offers|] == o;
    if OfferedAs(row, offers) {
      var i :| 0 <= i < |offers| && offers[i].hash == row.hash && Signed32(offers[i].size) == row.size;
      assert all[i] == offers[i];
    }
  }

  lemma {:induction false} SizesAreOffered(offers: seq<Offer>)
    ensures SizesFrom(RowsAfter(Offered(offers)), offers)
  {
    if offers != [] {
      var n := |offers| - 1;
      var rows, o := RowsAfter(Offered(offers[..n])), offers[n];
      SizesAreOffered(offers[..n]);
      SplitLast(offers);
      OfferedStep(offers);
      var after := AfterOffer(rows, o);
      forall r | 0 <= r < |after| ensures OfferedAs(after[r], offers) {
        OfferedAsAppend(after[r], offers[..n], o);
        if r < |rows| {
          assert OfferedAs(rows[r], offers[..n]);
          assert after[r].hash == rows[r].hash && after[r].size == rows[r].size;
          assert OfferedAs(after[r], offers[..n]);
        }
      }
    }
  }

  function SignedSizes(offers: seq<Offer>): seq<int> {
    seq(|offers|, i requires 0 <= i < |offers| => Signed32(offers[i].size))
  }

  lemma {:induction false} OfferedTotal(offers: seq<Offer>)
    requires OneSizePerHash(offers)
    ensures Total(RowsAfter(Offered(offers))) == Sum(SignedSizes(offers))
  {
    if offers != [] {
      var n := |offers| - 1;
      hide RowsAfter, Offered, AfterOffer, Total, Find, Signed32;
      var rows, o := RowsAfter(Offered(offers[..n])), offers[n];
      OfferedTotal(offers[..n]);
      KnownSize(offers);
      OfferStep(rows, o);
      OfferedStep(offers);
      SignedSizesStep(offers);
    }
  }

  /** A known hash is offered with the size that its row holds. */
  lemma KnownSize(offers: seq<Offer>)
    requires offers != [] && OneSizePerHash(offers)
    ensures var n := |offers| - 1; var rows := RowsAfter(Offered(offers[..n]));
      Known(rows, offers[n].hash) ==> rows[Find(rows, offers[n].hash)].size == Signed32(offers[n].size)
  {
    hide RowsAfter, Offered, Signed32;
    var n := |offers| - 1;
    var rows, o := RowsAfter(Offered(offers[..n])), offers[n];
    SizesAreOffered(offers[..n]);
    if Known(rows, o.hash) {
      assert OfferedAs(rows[Find(rows, o.hash)], offers[..n]);
    }
  }

  lemma SignedSizesStep(offers: seq<Offer>)
    requires offers != []
    ensures Sum(SignedSizes(offers)) == Sum(SignedSizes(offers[..|offers| - 1])) + Signed32(offers[|offers| - 1].size)
  {
    hide Signed32;
    var n := |offers| - 1;
    assert SignedSizes(offers)[..n] == SignedSizes(offers[..n]);
  }

  lemma {:induction false} SignedSizesBelow(offers: seq<Offer>)
    ensures Sum(SignedSizes(offers)) <= Sum(OfferedSizes(offers))
    ensures Sum(SignedSizes(offers)) == Sum(OfferedSizes(offers))
       <==> forall i :: 0 <= i < |offers| ==> offers[i].size < TWO_32 / 2
  {
    if offers != [] {
      var n := |offers| - 1;
      SignedSizesBelow(offers[..n]);
      SignedRoundTrip(offers[n].size);
      SplitLast(offers);
      assert SignedSizes(offers)[..n] == SignedSizes(offers[..n]);
      assert OfferedSizes(offers)[..n] == OfferedSizes(offers[..n]);
    }
  }

  /** With one size per hash, the bytes offered are the unique bytes plus the bytes saved,
      exactly when every size is below 2^31. */
  lemma OfferedIsUniquePlusSaved(offers: seq<Offer>)
    requires OneSizePerHash(offers)
    ensures Sum(OfferedSizes(offers)) ==
              Sum(StoredSizes(RowsAfter(Offered(offers)))) + SavedBytes(RowsAfter(Offered(offers)))
       <==> forall i :: 0 <= i < |offers| ==> offers[i].size < TWO_32 / 2
  {
    OfferedTotal(offers);
    SignedSizesBelow(offers);
  }
}
