/** Scale-out repositories: several storage extents behind one name, and the policies that
    choose where a write goes. */
module ScaleOut {
  import opened MachineTypes
  import opened Sequences
  import opened Placement

  datatype PlacementPolicy = ROUND_ROBIN | DATA_LOCALITY | PERFORMANCE_TIER | CAPACITY_TIER

  datatype Repo = Repo(name: string, policy: PlacementPolicy, extents: seq<Extent>, encrypted: bool, totalCapacity: uint64)

  datatype WriteResult = WriteResult(success: bool, extentId: string, path: string, bytesWritten: nat, error: string)

  function Sizes(extents: seq<Extent>): seq<int> {
    seq(|extents|, i requires 0 <= i < |extents| => extents[i].totalBytes)
  }

  /** The recorded capacity beyond the sizes of the extents, modulo 2^64: what create_repo
      was given. */
  function Slack(r: Repo): int {
    (r.totalCapacity - Sum(Sizes(r.extents))) % TWO_64
  }

  function Removed(extents: seq<Extent>, i: nat): seq<Extent>
    requires i < |extents|
  {
    extents[..i] + extents[i + 1..]
  }

  lemma SizesRemoved(extents: seq<Extent>, i: nat)
    requires i < |extents|
    ensures Sum(Sizes(extents)) == Sum(Sizes(Removed(extents, i))) + extents[i].totalBytes
  {
    var front, size: int, back := Sizes(extents[..i]), extents[i].totalBytes, Sizes(extents[i + 1..]);
    assert Sizes(extents) == front + [size] + back;
    assert Sizes(Removed(extents, i)) == front + back;
    SumAppend(front + [size], back);
    SumAppend(front, [size]);
    SumAppend(front, back);
    assert Sum([size]) == size;
  }

  lemma RemovalKeepsSlack(r: Repo, i: nat)
    requires i < |r.extents|
    ensures Slack(r.(extents := Removed(r.extents, i), totalCapacity := (r.totalCapacity - r.extents[i].totalBytes) % TWO_64)) == Slack(r)
  {
    var size := r.extents[i].totalBytes;
    SizesRemoved(r.extents, i);
    SlackReduced(r.totalCapacity, Sum(Sizes(Removed(r.extents, i))), size);
    hide Sum, Sizes, Removed;
  }

  function Ids(extents: seq<Extent>): (r: seq<string>)
    ensures |r| == |extents| && forall j :: 0 <= j < |extents| ==> r[j] == extents[j].extentId
  {
    seq(|extents|, j requires 0 <= j < |extents| => extents[j].extentId)
  }

  /** The position of the first extent with the id, or the number of extents. */
  function FirstWith(extents: seq<Extent>, extentId: string): (i: nat)
    ensures i <= |extents|
    ensures i < |extents| ==> extents[i].extentId == extentId
    ensures forall j :: 0 <= j < i ==> extents[j].extentId != extentId
  {
    var ids := Ids(extents);
    assert forall j :: 0 <= j < |extents| ==> ids[j] == extents[j].extentId;
    IndexOf(ids, extentId)
  }

  class ScaleOutRepository {
    var repos: map<string, Repo>
    /** One counter for all repositories. */
    var counter: uint64

    constructor ()
      ensures repos == map[] && counter == 0
    {
      repos := map[];
      counter := 0;
    }

    method AddExtent(repoId: string, extent: Extent) returns (ok: bool)
      modifies this`repos
      ensures ok <==> repoId in old(repos)
      ensures !ok ==> repos == old(repos)
      ensures ok ==> var before := old(repos)[repoId];
        && repos.Keys == old(repos).Keys
        && repos == old(repos)[repoId := before.(extents := before.extents + [extent], totalCapacity := repos[repoId].totalCapacity)]
        && Slack(repos[repoId]) == Slack(before)
    {
      if repoId !in repos {
        return false;
      }
      var r := repos[repoId];
      var after := r.(extents := r.extents + [extent], totalCapacity := (r.totalCapacity + extent.totalBytes) % TWO_64);
      assert Removed(after.extents, |r.extents|) == r.extents;
      SizesRemoved(after.extents, |r.extents|);
      SlackKept(r.totalCapacity, Sum(Sizes(r.extents)), extent.totalBytes);
      repos := repos[repoId := after];
      return true;
    }

    /** The first extent with the id goes, and its size is taken off the capacity. */
    method RemoveExtent(repoId: string, extentId: string) returns (ok: bool)
      modifies this`repos
      ensures !ok ==> repos == old(repos)
      ensures ok <==> repoId in old(repos) && FirstWith(old(repos)[repoId].extents, extentId) < |old(repos)[repoId].extents|
      ensures ok ==> var before, i := old(repos)[repoId], FirstWith(old(repos)[repoId].extents, extentId);
        && repos.Keys == old(repos).Keys
        && Slack(repos[repoId]) == Slack(before)
        && repos == old(repos)[repoId := before.(extents := Removed(before.extents, i), totalCapacity := repos[repoId].totalCapacity)]
    {
      hide Slack, Removed, FirstWith;
      if repoId !in repos {
        return false;
      }
      var r := repos[repoId];
      for i := 0 to |r.extents|
        invariant repos == old(repos)
        invariant forall j :: 0 <= j < i ==> r.extents[j].extentId != extentId
      {
        if r.extents[i].extentId == extentId {
          var size := r.extents[i].totalBytes;
          RemovalKeepsSlack(r, i);
          repos := repos[repoId := r.(extents := Removed(r.extents, i), totalCapacity := (r.totalCapacity - size) % TWO_64)];
          return true;
        }
      }
      return false;
    }

    /** Count the online extents, take the counter modulo that number, and walk to the
        extent it falls on. The walk always finds it. */
    method SelectRoundRobin(extents: seq<Extent>) returns (extentId: string)
      modifies this`counter
      ensures Online(extents) == [] ==> extentId == "" && counter == old(counter)
      ensures Online(extents) != [] ==>
        counter == (old(counter) + 1) % TWO_64 && extentId == extents[Chosen(extents, old(counter))].extentId
    {
      var online := CountOnline(extents);
      if online == 0 {
        return "";
      }
      var idx := counter % online;
      counter := (counter + 1) % TWO_64;
      var current := 0;
      TakeAll(extents);
      for i := 0 to |extents|
        invariant counter == (old(counter) + 1) % TWO_64
        invariant current == |Online(extents[..i])| <= idx
      {
        hide Online;
        OnlinePrefix(extents, i);
        if extents[i].status == ONLINE {
          OnlineAt(extents, i);
          if current == idx {
            return extents[i].extentId;
          }
          current := current + 1;
        }
      }
      assert false;
      return "";
    }

    method CountOnline(extents: seq<Extent>) returns (online: nat)
      ensures online == |Online(extents)|
    {
      online := 0;
      for i := 0 to |extents|
        invariant online == |Online(extents[..i])|
      {
        OnlinePrefix(extents, i);
        if extents[i].status == ONLINE {
          online := online + 1;
        }
      }
      TakeAll(extents);
    }

    /** The first online extent of the performance tier, or else round robin. */
    method SelectPerformance(extents: seq<Extent>) returns (extentId: string)
      modifies this`counter
      ensures (exists q: nat :: FirstFast(extents, q)) ==>
        counter == old(counter) && exists q: nat :: FirstFast(extents, q) && extentId == extents[q].extentId
      ensures !(exists q: nat :: FirstFast(extents, q)) ==>
        if Online(extents) == [] then extentId == "" && counter == old(counter)
        else counter == (old(counter) + 1) % TWO_64 && extentId == extents[Chosen(extents, old(counter))].extentId
    {
      for i := 0 to |extents|
        invariant counter == old(counter)
        invariant forall j :: 0 <= j < i ==> !(extents[j].status == ONLINE && extents[j].isPerformanceTier)
      {
        if extents[i].status == ONLINE && extents[i].isPerformanceTier {
          assert FirstFast(extents, i);
          return extents[i].extentId;
        }
      }
      extentId := SelectRoundRobin(extents);
    }

    /** The first online extent with the most free space; none if there is no free space. */
    method SelectCapacity(extents: seq<Extent>) returns (extentId: string)
      ensures (exists q: nat :: Roomiest(extents, q)) ==> exists q: nat :: Roomiest(extents, q) && extentId == extents[q].extentId
      ensures !(exists q: nat :: Roomiest(extents, q)) ==> extentId == ""
      ensures NoneOverfull(extents) ==>
        if HasRoom(extents) then exists q :: 0 <= q < |extents| && extentId == extents[q].extentId && MostRoom(extents, q)
        else extentId == ""
      ensures (exists q: nat :: Roomiest(extents, q)) <==>
        exists q :: 0 <= q < |extents| && extents[q].status == ONLINE && extents[q].Free() > 0
    {
      var best, bestFree := "", 0;
      ghost var at: int := -1;
      for i := 0 to |extents|
        invariant -1 <= at < i
        invariant at == -1 ==> best == "" && bestFree == 0
        invariant at >= 0 ==> extents[at].status == ONLINE && extents[at].Free() == bestFree > 0 && best == extents[at].extentId
        invariant forall j :: 0 <= j < i && extents[j].status == ONLINE ==> extents[j].Free() <= bestFree
        invariant forall j :: 0 <= j < at && extents[j].status == ONLINE ==> extents[j].Free() < bestFree
      {
        if extents[i].status == ONLINE {
          var free := extents[i].Free();
          if free > bestFree {
            bestFree, best, at := free, extents[i].extentId, i;
          }
        }
      }
      extentId := best;
      assert at >= 0 ==> Roomiest(extents, at);
      if at >= 0 { RoomiestHasMostRoom(extents, at); }
      FreeOfAll(extents);
    }

    /** A write succeeds whenever the repository exists, whatever extent was chosen: an
        empty extent id is not an error. */
    method Write(repoId: string, key: string, size: nat) returns (result: WriteResult)
      modifies this`counter
      ensures result.success <==> repoId in repos
      ensures !result.success ==> result == WriteResult(false, "", "", 0, "Repo not found") && counter == old(counter)
      ensures result.success ==> result.bytesWritten == size && result.path == result.extentId + "/" + key && result.error == ""
      ensures result.success ==> PolicyChoice(repos[repoId], old(counter), result.extentId)
      ensures result.success ==>
        counter == if UsesCounter(repos[repoId]) then (old(counter) + 1) % TWO_64 else old(counter)
    {
      if repoId !in repos {
        return WriteResult(false, "", "", 0, "Repo not found");
      }
      var r := repos[repoId];
      var extentId: string;
      match r.policy {
        case ROUND_ROBIN => extentId := SelectRoundRobin(r.extents);
        case DATA_LOCALITY => extentId := SelectPerformance(r.extents);
        case PERFORMANCE_TIER => extentId := SelectPerformance(r.extents);
        case CAPACITY_TIER => extentId := SelectCapacity(r.extents);
      }
      result := WriteResult(true, extentId, extentId + "/" + key, size, "");
    }

    /** Succeeds when the first other online extent has a name to move to. Then the first
        extent with the id is offline, nothing else changed, and an online one remains. */
    method EvacuateExtent(repoId: string, extentId: string) returns (ok: bool)
      modifies this`repos
      ensures !ok ==> repos == old(repos)
      ensures ok ==> repoId in old(repos) && exists t: nat ::
        t < |old(repos)[repoId].extents| && repos.Keys == old(repos).Keys && IsTarget(old(repos)[repoId].extents, extentId, t)
        && old(repos)[repoId].extents[t].extentId != ""
        && t < |repos[repoId].extents| && repos[repoId].extents[t] == old(repos)[repoId].extents[t]
        && repos[repoId].extents[t].status == ONLINE
      ensures ok ==> repoId in repos && repos == old(repos)[repoId := old(repos)[repoId].(extents := repos[repoId].extents)]
      ensures ok ==> TakenOffline(old(repos)[repoId].extents, repos[repoId].extents, extentId)
      ensures !ok ==> repoId !in old(repos) || forall t: nat ::
        IsTarget(old(repos)[repoId].extents, extentId, t) ==> old(repos)[repoId].extents[t].extentId == ""
    {
      if repoId !in repos {
        return false;
      }
      var r := repos[repoId];
      var target := "";
      ghost var t := 0;
      for i := 0 to |r.extents|
        invariant target == "" && t == i
        invariant forall j :: 0 <= j < i ==> !(r.extents[j].extentId != extentId && r.extents[j].status == ONLINE)
      {
        if r.extents[i].extentId != extentId && r.extents[i].status == ONLINE {
          target := r.extents[i].extentId;
          break;
        }
        t := i + 1;
      }
      if target == "" {
        return false;
      }
      var extents := TakeOffline(r.extents, extentId);
      assert extents[t] == r.extents[t];
      repos := repos[repoId := r.(extents := extents)];
      return true;
    }
  }

  lemma SlackReduced(capacity: int, total: int, size: int)
    ensures ((capacity - size) % TWO_64 - total) % TWO_64 == (capacity - (total + size)) % TWO_64
  {
    var q := (capacity - size) / TWO_64;
    WrapShift(capacity - size - total, q);
  }

  lemma SlackKept(capacity: int, total: int, size: int)
    ensures ((capacity + size) % TWO_64 - (total + size)) % TWO_64 == (capacity - total) % TWO_64
  {
    var q := (capacity + size) / TWO_64;
    WrapShift(capacity - total, q);
  }

  /** Position q holds the first online extent of the performance tier. */
  ghost predicate FirstFast(extents: seq<Extent>, q: nat) {
    && q < |extents| && extents[q].status == ONLINE && extents[q].isPerformanceTier
    && forall j :: 0 <= j < q ==> !(extents[j].status == ONLINE && extents[j].isPerformanceTier)
  }

  /** Position q holds the first online extent with the most free space, which is not 0. */
  ghost predicate Roomiest(extents: seq<Extent>, q: nat) {
    && q < |extents| && extents[q].status == ONLINE && extents[q].Free() > 0
    && (forall j :: 0 <= j < |extents| && extents[j].status == ONLINE ==> extents[j].Free() <= extents[q].Free())
    && (forall j :: 0 <= j < q && extents[j].status == ONLINE ==> extents[j].Free() < extents[q].Free())
  }

  /** No online extent holds more than its size. */
  ghost predicate NoneOverfull(extents: seq<Extent>) {
    forall j :: 0 <= j < |extents| && extents[j].status == ONLINE ==> extents[j].usedBytes <= extents[j].totalBytes
  }

  ghost predicate HasRoom(extents: seq<Extent>) {
    exists j :: 0 <= j < |extents| && extents[j].status == ONLINE && extents[j].usedBytes < extents[j].totalBytes
  }

  /** An online extent with room, and no less than any other online one; the first such. */
  ghost predicate MostRoom(extents: seq<Extent>, q: nat) {
    && q < |extents| && extents[q].status == ONLINE && extents[q].usedBytes < extents[q].totalBytes
    && (forall j :: 0 <= j < |extents| && extents[j].status == ONLINE ==>
          extents[j].totalBytes - extents[j].usedBytes <= extents[q].totalBytes - extents[q].usedBytes)
    && (forall j :: 0 <= j < q && extents[j].status == ONLINE ==>
          extents[j].totalBytes - extents[j].usedBytes < extents[q].totalBytes - extents[q].usedBytes)
  }

  /** Free space is what is left, or close to 2^64 when the extent is overfull. */
  lemma FreeExactly(e: Extent)
    ensures e.Free() == if e.usedBytes <= e.totalBytes then e.totalBytes - e.usedBytes
                        else TWO_64 - (e.usedBytes - e.totalBytes)
  {
    if e.usedBytes > e.totalBytes { WrapShift(e.totalBytes - e.usedBytes + TWO_64, 1); }
  }

  lemma FreeOfAll(extents: seq<Extent>)
    ensures forall j :: 0 <= j < |extents| && extents[j].usedBytes <= extents[j].totalBytes ==>
      extents[j].Free() == extents[j].totalBytes - extents[j].usedBytes
  {
    forall j | 0 <= j < |extents| && extents[j].usedBytes <= extents[j].totalBytes
      ensures extents[j].Free() == extents[j].totalBytes - extents[j].usedBytes
    {
      FreeExactly(extents[j]);
    }
  }

  lemma RoomiestHasMostRoom(extents: seq<Extent>, q: nat)
    requires Roomiest(extents, q)
    ensures NoneOverfull(extents) ==> MostRoom(extents, q)
  {
    FreeOfAll(extents);
  }

  /** An overfull extent j is preferred to every extent in bounds that has less room than
      2^64 minus its excess. */
  ghost predicate Beats(extents: seq<Extent>, j: nat, i: nat)
    requires j < |extents| && i < |extents|
  {
    var apparent := TWO_64 - (extents[j].usedBytes - extents[j].totalBytes);
    var room := extents[i].totalBytes - extents[i].usedBytes;
    apparent > room || (apparent == room && j < i)
  }

  /** An online, overfull extent that beats every online extent in bounds. */
  ghost predicate BeatsAll(extents: seq<Extent>, j: nat) {
    && j < |extents| && extents[j].status == ONLINE && extents[j].usedBytes > extents[j].totalBytes
    && forall i: nat :: i < |extents| && extents[i].status == ONLINE && extents[i].usedBytes <= extents[i].totalBytes ==>
         Beats(extents, j, i)
  }

  /** The capacity policy picks an overfull extent exactly when some online one beats every
      online extent that is not overfull. */
  lemma OverfullPicked(extents: seq<Extent>, q: nat)
    requires Roomiest(extents, q)
    ensures extents[q].usedBytes > extents[q].totalBytes <==> exists j: nat :: BeatsAll(extents, j)
  {
    forall j | 0 <= j < |extents|
      ensures extents[j].Free() == if extents[j].usedBytes <= extents[j].totalBytes then extents[j].totalBytes - extents[j].usedBytes
                                   else TWO_64 - (extents[j].usedBytes - extents[j].totalBytes)
    {
      FreeExactly(extents[j]);
    }
    hide Extent.Free;
    if extents[q].usedBytes > extents[q].totalBytes {
      forall i: nat | i < |extents| && extents[i].status == ONLINE && extents[i].usedBytes <= extents[i].totalBytes
        ensures Beats(extents, q, i)
      {
        assert extents[i].Free() <= extents[q].Free();
        assert i < q ==> extents[i].Free() < extents[q].Free();
      }
      assert BeatsAll(extents, q);
    }
    forall j: nat | BeatsAll(extents, j) ensures extents[q].usedBytes > extents[q].totalBytes {
      BeatenByOverfull(extents, j, q);
    }
  }

  lemma BeatenByOverfull(extents: seq<Extent>, j: nat, q: nat)
    requires Roomiest(extents, q) && BeatsAll(extents, j)
    ensures extents[q].usedBytes > extents[q].totalBytes
  {
    FreeExactly(extents[j]);
    FreeExactly(extents[q]);
    hide Extent.Free;
    assert extents[j].Free() <= extents[q].Free();
    assert j < q ==> extents[j].Free() < extents[q].Free();
  }

  ghost predicate UsesCounter(r: Repo) {
    && Online(r.extents) != []
    && (r.policy == ROUND_ROBIN
        || (r.policy != CAPACITY_TIER && !exists q: nat :: FirstFast(r.extents, q)))
  }

  /** The extent id that the repository's policy calls for at this counter value. */
  ghost predicate PolicyChoice(r: Repo, counter: uint64, extentId: string) {
    if UsesCounter(r) then extentId == r.extents[Chosen(r.extents, counter)].extentId
    else if r.policy == CAPACITY_TIER then
      if exists q: nat :: Roomiest(r.extents, q) then exists q: nat :: Roomiest(r.extents, q) && extentId == r.extents[q].extentId
      else extentId == ""
    else
      if r.policy != ROUND_ROBIN && exists q: nat :: FirstFast(r.extents, q) then
        exists q: nat :: FirstFast(r.extents, q) && extentId == r.extents[q].extentId
      else extentId == ""
  }

  ghost predicate Placed(r: Repo, extentId: string) {
    exists q :: 0 <= q < |r.extents| && r.extents[q].status == ONLINE && r.extents[q].extentId == extentId
  }

  /** A write, which always reports success, names an online extent exactly when one is
      online and, under the capacity policy, has free space; an online extent without a
      name is also met by the empty id of a write that chose none. */
  lemma WriteIsPlaced(r: Repo, counter: uint64, extentId: string)
    requires PolicyChoice(r, counter, extentId)
    ensures Placed(r, extentId) <==>
      exists q :: 0 <= q < |r.extents| && r.extents[q].status == ONLINE
        && (r.policy == CAPACITY_TIER ==> r.extents[q].Free() > 0 || r.extents[q].extentId == "")
  {
    OnlineListed(r.extents);
    if r.policy == CAPACITY_TIER {
      var q := RoomiestExists(r.extents);
    } else if Online(r.extents) != [] {
      assert r.extents[Chosen(r.extents, counter)].status == ONLINE;
    }
  }

  /** There is a roomiest extent, or no online extent has free space. */
  lemma {:induction false} RoomiestExists(extents: seq<Extent>) returns (q: int)
    ensures q >= 0 ==> Roomiest(extents, q)
    ensures q < 0 ==> forall j :: 0 <= j < |extents| && extents[j].status == ONLINE ==> extents[j].Free() == 0
  {
    q := -1;
    if extents != [] {
      var n := |extents| - 1;
      q := RoomiestExists(extents[..n]);
      assert forall j :: 0 <= j < n ==> extents[..n][j] == extents[j];
      if extents[n].status == ONLINE && extents[n].Free() > if q >= 0 then extents[q].Free() else 0 {
        q := n;
      }
    }
  }

  ghost predicate IsTarget(extents: seq<Extent>, extentId: string, t: nat) {
    && t < |extents| && extents[t].extentId != extentId && extents[t].status == ONLINE
    && forall j :: 0 <= j < t ==> !(extents[j].extentId != extentId && extents[j].status == ONLINE)
  }

  /** The same extents, but the first with the id, if any, is offline. */
  ghost predicate TakenOffline(before: seq<Extent>, after: seq<Extent>, extentId: string) {
    && |after| == |before|
    && forall j :: 0 <= j < |before| ==>
         after[j] == if j == FirstWith(before, extentId) then before[j].(status := OFFLINE) else before[j]
  }

  method TakeOffline(extents: seq<Extent>, extentId: string) returns (after: seq<Extent>)
    ensures TakenOffline(extents, after, extentId)
  {
    after := extents;
    for i := 0 to |extents|
      invariant after == extents && forall j :: 0 <= j < i ==> extents[j].extentId != extentId
    {
      if extents[i].extentId == extentId {
        after := extents[i := extents[i].(status := OFFLINE)];
        return;
      }
    }
  }
}
