/** Grandfather-father-son retention: the tier of a backup, and the pass that deletes what
    lies beyond each tier's quota. */
module Retention {
  import opened MachineTypes
  import opened Sequences
  import opened IsoCalendar

  datatype Tier = Daily | Weekly | Monthly | Yearly {
    function Rank(): nat {
      match this
      case Daily => 0
      case Weekly => 1
      case Monthly => 2
      case Yearly => 3
    }
  }

  // ---- Tiers -------------------------------------------------------------

  /** From the youngest tier to the oldest. */
  lemma TierOrder()
    ensures Daily.Rank() < Weekly.Rank() < Monthly.Rank() < Yearly.Rank()
  {
  }

  function ClassifyBackup(backup: CalendarDate, now: CalendarDate): Tier {
    if backup.year < now.year then Yearly
    else if backup.month != now.month then Monthly
    else if backup.IsoWeek() != now.IsoWeek() then Weekly
    else Daily
  }

  lemma WeekGrows(a: CalendarDate, b: CalendarDate)
    requires a.SameMonth(b) && a.day <= b.day
    ensures a.Week() <= b.Week()
  {
  }

  /** A backup that is not in the future never moves to a younger tier as time goes on. */
  lemma TierNeverYounger(backup: CalendarDate, now: CalendarDate, later: CalendarDate)
    requires backup.Upto(now) && now.Upto(later)
    ensures ClassifyBackup(backup, now).Rank() <= ClassifyBackup(backup, later).Rank()
  {
    if backup.SameMonth(later) {
      WeekNumberInMonth(backup, now);
      WeekNumberInMonth(backup, later);
      WeekGrows(backup, now);
      WeekGrows(now, later);
      hide *;
    }
  }

  /** From `now` on the tier never moves to a younger one. */
  ghost predicate NeverYounger(backup: CalendarDate, now: CalendarDate) {
    forall t: CalendarDate, later: CalendarDate :: now.Upto(t) && t.Upto(later) ==>
      ClassifyBackup(backup, t).Rank() <= ClassifyBackup(backup, later).Rank()
  }

  /** A backup of the current week stays daily until its own time, and is past after it. */
  lemma DailyUntilItsTime(backup: CalendarDate, now: CalendarDate, t: CalendarDate)
    requires backup.SameMonth(now) && backup.Week() == now.Week() && now.Upto(t)
    ensures backup.Upto(t) || ClassifyBackup(backup, t) == Daily
  {
    if !backup.Upto(t) {
      WeekGrows(now, t);
      WeekGrows(t, backup);
      WeekNumberInMonth(backup, t);
      hide *;
    }
  }

  lemma CurrentNeverYounger(backup: CalendarDate, now: CalendarDate)
    requires backup.Upto(now) || (backup.SameMonth(now) && backup.Week() == now.Week())
    ensures NeverYounger(backup, now)
  {
    forall t: CalendarDate, later: CalendarDate | now.Upto(t) && t.Upto(later)
      ensures ClassifyBackup(backup, t).Rank() <= ClassifyBackup(backup, later).Rank()
    {
      if !backup.Upto(now) { DailyUntilItsTime(backup, now, t); }
      if backup.Upto(t) { TierNeverYounger(backup, t, later); }
      hide Date.Week, ClassifyBackup;
    }
  }

  /** Every other backup of the future is in an older tier at some time before its own. */
  lemma OlderBeforeItsTime(backup: CalendarDate, now: CalendarDate) returns (t: CalendarDate)
    requires !backup.Upto(now) && !(backup.SameMonth(now) && backup.Week() == now.Week())
    ensures now.Upto(t) && t.Upto(backup) && ClassifyBackup(backup, t) != Daily
  {
    t := now;
    if backup.SameMonth(now) {
      WeekNumberInMonth(backup, now);
    } else if now.month == backup.month {
      t := if now.month == 12 then Date(now.year + 1, 1, 1) else Date(now.year, now.month + 1, 1);
    }
    hide Date.Week, Date.IsoWeek;
  }

  /** The tier never moves to a younger one, from now on and for ever, exactly when the
      backup is not in the future or falls in the current week of the current month. */
  lemma TierMonotoneExactly(backup: CalendarDate, now: CalendarDate)
    ensures NeverYounger(backup, now) <==> backup.Upto(now) || (backup.SameMonth(now) && backup.Week() == now.Week())
  {
    if backup.Upto(now) || (backup.SameMonth(now) && backup.Week() == now.Week()) {
      CurrentNeverYounger(backup, now);
    } else {
      var t := OlderBeforeItsTime(backup, now);
      assert ClassifyBackup(backup, backup) == Daily;
      assert ClassifyBackup(backup, t).Rank() > ClassifyBackup(backup, backup).Rank();
    }
  }

  /** A backup dated a year ahead, in a week of the same number: daily at first, monthly
      the month after, and daily again when its time has come. */
  lemma FutureBackupMovesBack()
    ensures var backup: CalendarDate, now: CalendarDate, later: CalendarDate :=
        Date(2025, 3, 10), Date(2024, 3, 11), Date(2024, 4, 1);
      && now.Upto(later) && later.Upto(backup)
      && ClassifyBackup(backup, now) == Daily && ClassifyBackup(backup, later) == Monthly
      && ClassifyBackup(backup, backup) == Daily
  {
    var backup, now := Date(2025, 3, 10), Date(2024, 3, 11);
    MarchDays(2025);
    MarchDays(2024);
    assert backup.Valid() && now.Valid();
    assert backup.IsoWeek() == 11 == now.IsoWeek();
  }

  lemma MarchDays(year: int)
    ensures DaysBeforeMonth(year, 3) == 31 + DaysInMonth(year, 2)
  {
    assert DaysBeforeMonth(year, 2) == 31;
  }

  // ---- The retention pass as a function ----------------------------------

  datatype DateTime = DateTime(date: CalendarDate, second: nat) {
    predicate Upto(other: DateTime) {
      if date == other.date then second <= other.second else date.Upto(other.date)
    }
  }

  datatype Job = Job(id: nat, finishedAt: Option<DateTime>)

  datatype Policy = Policy(daily: int, weekly: int, monthly: int, yearly: int) {
    function Quota(t: Tier): int {
      match t
      case Daily => daily
      case Weekly => weekly
      case Monthly => monthly
      case Yearly => yearly
    }
  }

  /** The query's order; jobs without a finish time may stand anywhere. */
  ghost predicate NewestFirst(jobs: seq<Job>) {
    forall i, j :: 0 <= i < j < |jobs| && jobs[i].finishedAt.Some? && jobs[j].finishedAt.Some? ==>
      jobs[j].finishedAt.value.Upto(jobs[i].finishedAt.value)
  }

  ghost predicate UniqueIds(jobs: seq<Job>) {
    forall i, j :: 0 <= i < j < |jobs| ==> jobs[i].id != jobs[j].id
  }

  function TierOf(job: Job, now: CalendarDate): Tier
    requires job.finishedAt.Some?
  {
    ClassifyBackup(job.finishedAt.value.date, now)
  }

  /** The tier of a job that did not finish in the future, in terms of the calendar. */
  lemma TierMeaning(job: Job, now: CalendarDate)
    requires job.finishedAt.Some? && job.finishedAt.value.date.Upto(now)
    ensures var finished := job.finishedAt.value.date;
      TierOf(job, now) ==
      if finished.year != now.year then Yearly
      else if finished.month != now.month then Monthly
      else if finished.Week() != now.Week() then Weekly
      else Daily
  {
    var finished := job.finishedAt.value.date;
    if finished.SameMonth(now) { WeekNumberInMonth(finished, now); }
    hide Date.Week, Date.IsoWeek;
  }

  predicate InTier(job: Job, now: CalendarDate, t: Tier) {
    job.finishedAt.Some? && TierOf(job, now) == t
  }

  /** Finished jobs of a tier. */
  function Count(jobs: seq<Job>, now: CalendarDate, t: Tier): nat {
    if jobs == [] then 0
    else Count(jobs[..|jobs| - 1], now, t) + if InTier(jobs[|jobs| - 1], now, t) then 1 else 0
  }

  /** The last job is finished, and with it its tier exceeds the quota. */
  predicate LastDoomed(jobs: seq<Job>, policy: Policy, now: CalendarDate)
    requires jobs != []
  {
    var job := jobs[|jobs| - 1];
    job.finishedAt.Some? && Count(jobs, now, TierOf(job, now)) > policy.Quota(TierOf(job, now))
  }

  /** Job i lies beyond the newest N of its tier. */
  predicate Doomed(jobs: seq<Job>, policy: Policy, now: CalendarDate, i: nat)
    requires i < |jobs|
  {
    LastDoomed(jobs[..i + 1], policy, now)
  }

  function Survivors(jobs: seq<Job>, policy: Policy, now: CalendarDate): seq<Job> {
    if jobs == [] then []
    else
      Survivors(jobs[..|jobs| - 1], policy, now)
      + if LastDoomed(jobs, policy, now) then [] else [jobs[|jobs| - 1]]
  }

  function DeleteList(jobs: seq<Job>, policy: Policy, now: CalendarDate): seq<nat> {
    if jobs == [] then []
    else
      DeleteList(jobs[..|jobs| - 1], policy, now)
      + if LastDoomed(jobs, policy, now) then [jobs[|jobs| - 1].id] else []
  }

  // ---- What it keeps -----------------------------------------------------

  lemma CountAppend(jobs: seq<Job>, job: Job, now: CalendarDate, t: Tier)
    ensures Count(jobs + [job], now, t) == Count(jobs, now, t) + if InTier(job, now, t) then 1 else 0
  {
    TakeOfAppend(jobs, job);
  }

  lemma SurvivorsStep(jobs: seq<Job>, policy: Policy, now: CalendarDate)
    requires jobs != []
    ensures var front := jobs[..|jobs| - 1];
      Survivors(jobs, policy, now) ==
        if LastDoomed(jobs, policy, now) then Survivors(front, policy, now)
        else Survivors(front, policy, now) + [jobs[|jobs| - 1]]
  {
  }

  lemma {:induction false} KeptOfTier(jobs: seq<Job>, policy: Policy, now: CalendarDate, t: Tier)
    ensures var all, quota := Count(jobs, now, t), if policy.Quota(t) < 0 then 0 else policy.Quota(t);
      Count(Survivors(jobs, policy, now), now, t) == if all < quota then all else quota
  {
    if jobs != [] {
      var front, job := jobs[..|jobs| - 1], jobs[|jobs| - 1];
      KeptOfTier(front, policy, now, t);
      SurvivorsStep(jobs, policy, now);
      CountAppend(Survivors(front, policy, now), job, now, t);
      hide Survivors;
    }
  }

  /** As many as there are, up to so many; a negative number keeps none. */
  function UpTo(all: nat, quota: int): nat {
    if quota < 0 then 0 else if all < quota then all else quota
  }

  /** In each tier the pass keeps as many jobs as there are, up to the number configured
      for it. */
  lemma KeptPerTier(jobs: seq<Job>, policy: Policy, now: CalendarDate)
    ensures var kept := Survivors(jobs, policy, now);
      && Count(kept, now, Daily) == UpTo(Count(jobs, now, Daily), policy.daily)
      && Count(kept, now, Weekly) == UpTo(Count(jobs, now, Weekly), policy.weekly)
      && Count(kept, now, Monthly) == UpTo(Count(jobs, now, Monthly), policy.monthly)
      && Count(kept, now, Yearly) == UpTo(Count(jobs, now, Yearly), policy.yearly)
  {
    hide Count, Survivors;
    KeptOfTier(jobs, policy, now, Daily);
    KeptOfTier(jobs, policy, now, Weekly);
    KeptOfTier(jobs, policy, now, Monthly);
    KeptOfTier(jobs, policy, now, Yearly);
  }

  lemma {:induction false} CountConcat(a: seq<Job>, b: seq<Job>, now: CalendarDate, t: Tier)
    ensures Count(a + b, now, t) == Count(a, now, t) + Count(b, now, t)
  {
    if b == [] {
      assert a + b == a;
    } else {
      InitOfAppend(a, b);
      CountConcat(a, b[..|b| - 1], now, t);
      hide InTier;
    }
  }

  lemma CountAround(jobs: seq<Job>, i: nat, now: CalendarDate, t: Tier)
    requires i < |jobs|
    ensures multiset(jobs) == multiset(jobs[..i] + jobs[i + 1..]) + multiset{jobs[i]}
    ensures Count(jobs, now, t) == Count(jobs[..i] + jobs[i + 1..], now, t) + if InTier(jobs[i], now, t) then 1 else 0
  {
    assert jobs == jobs[..i] + [jobs[i]] + jobs[i + 1..];
    hide Count, InTier;
    CountConcat(jobs[..i] + [jobs[i]], jobs[i + 1..], now, t);
    CountAppend(jobs[..i], jobs[i], now, t);
    CountConcat(jobs[..i], jobs[i + 1..], now, t);
  }

  lemma CancelOne<T>(a: multiset<T>, b: multiset<T>, x: T)
    requires a + multiset{x} == b + multiset{x}
    ensures a == b
  {
    assert a == a + multiset{x} - multiset{x};
    assert b == b + multiset{x} - multiset{x};
  }

  /** The order of the rows does not matter to the count of a tier. */
  lemma {:induction false} CountPermuted(a: seq<Job>, b: seq<Job>, now: CalendarDate, t: Tier)
    requires multiset(a) == multiset(b)
    ensures Count(a, now, t) == Count(b, now, t)
    decreases |a|
  {
    if a == [] {
      assert |multiset(a)| == 0 == |b|;
    } else {
      var n := |a| - 1;
      assert a[n] in multiset(b);
      var i :| 0 <= i < |b| && b[i] == a[n];
      CountAround(a, n, now, t);
      CountAround(b, i, now, t);
      assert a[..n] + a[n + 1..] == a[..n];
      hide Count, InTier;
      CancelOne(multiset(a[..n]), multiset(b[..i] + b[i + 1..]), a[n]);
      CountPermuted(a[..n], b[..i] + b[i + 1..], now, t);
    }
  }

  /** No tier holds more than its quota. */
  ghost predicate WithinQuotas(jobs: seq<Job>, policy: Policy, now: CalendarDate) {
    forall t: Tier :: Count(jobs, now, t) == 0 || Count(jobs, now, t) <= policy.Quota(t)
  }

  lemma {:induction false} NothingToDelete(jobs: seq<Job>, policy: Policy, now: CalendarDate)
    requires WithinQuotas(jobs, policy, now)
    ensures DeleteList(jobs, policy, now) == [] && Survivors(jobs, policy, now) == jobs
  {
    if jobs != [] {
      var n := |jobs| - 1;
      forall t: Tier ensures Count(jobs[..n], now, t) == 0 || Count(jobs[..n], now, t) <= policy.Quota(t) {
        assert Count(jobs, now, t) == 0 || Count(jobs, now, t) <= policy.Quota(t);
      }
      NothingToDelete(jobs[..n], policy, now);
      assert !LastDoomed(jobs, policy, now);
      SplitLast(jobs);
      SurvivorsStep(jobs, policy, now);
      DeleteListStep(jobs, policy, now);
      hide Survivors, DeleteList, LastDoomed;
    }
  }

  /** A second pass at the same time finds nothing to delete, in whatever order the query
      now returns the rows that were left. */
  lemma SecondPassDeletesNothing(jobs: seq<Job>, again: seq<Job>, policy: Policy, now: CalendarDate)
    requires multiset(again) == multiset(Survivors(jobs, policy, now))
    ensures DeleteList(again, policy, now) == [] && Survivors(again, policy, now) == again
  {
    forall t: Tier ensures Count(again, now, t) == 0 || Count(again, now, t) <= policy.Quota(t) {
      CountPermuted(again, Survivors(jobs, policy, now), now, t);
      KeptOfTier(jobs, policy, now, t);
    }
    hide Survivors, DeleteList, Count;
    NothingToDelete(again, policy, now);
  }

  /** Kept plus deleted is all. */
  lemma {:induction false} KeptPlusDeleted(jobs: seq<Job>, policy: Policy, now: CalendarDate)
    ensures |Survivors(jobs, policy, now)| + |DeleteList(jobs, policy, now)| == |jobs|
  {
    if jobs != [] { KeptPlusDeleted(jobs[..|jobs| - 1], policy, now); }
  }

  /** Exactly the jobs that are not doomed survive. */
  lemma {:induction false} SurvivorsAreKept(jobs: seq<Job>, policy: Policy, now: CalendarDate, job: Job)
    ensures job in Survivors(jobs, policy, now) <==>
      exists i :: 0 <= i < |jobs| && jobs[i] == job && !Doomed(jobs, policy, now, i)
  {
    if jobs != [] {
      hide Survivors, LastDoomed;
      var n := |jobs| - 1;
      var front := jobs[..n];
      SurvivorsAreKept(front, policy, now, job);
      SurvivorsStep(jobs, policy, now);
      assert jobs[..n + 1] == jobs;
      forall i: nat | i < n ensures Doomed(front, policy, now, i) == Doomed(jobs, policy, now, i) {
        PrefixOfPrefix(jobs, i + 1, n);
      }
      if exists i :: 0 <= i < |jobs| && jobs[i] == job && !Doomed(jobs, policy, now, i) {
        var i :| 0 <= i < |jobs| && jobs[i] == job && !Doomed(jobs, policy, now, i);
        assert i < n ==> front[i] == job && !Doomed(front, policy, now, i);
      }
      if job in Survivors(front, policy, now) {
        var i :| 0 <= i < n && front[i] == job && !Doomed(front, policy, now, i);
        assert jobs[i] == job && !Doomed(jobs, policy, now, i);
      }
    }
  }

  lemma PrefixOfPrefix<T>(s: seq<T>, k: nat, n: nat)
    requires k <= n <= |s|
    ensures s[..n][..k] == s[..k]
  {
  }

  /** A job without a finish time survives. */
  lemma UnfinishedSurvives(jobs: seq<Job>, policy: Policy, now: CalendarDate, i: nat)
    requires i < |jobs| && jobs[i].finishedAt.None?
    ensures jobs[i] in Survivors(jobs, policy, now)
  {
    SurvivorsAreKept(jobs, policy, now, jobs[i]);
    assert !Doomed(jobs, policy, now, i);
  }

  lemma {:induction false} CountMonotone(jobs: seq<Job>, now: CalendarDate, t: Tier, m: nat, n: nat)
    requires m <= n <= |jobs|
    ensures Count(jobs[..m], now, t) <= Count(jobs[..n], now, t)
    decreases n - m
  {
    if m < n {
      TakeNext(jobs, n - 1);
      CountMonotone(jobs, now, t, m, n - 1);
    }
  }

  lemma InOrderOfDays(a: DateTime, b: DateTime)
    requires a.Upto(b)
    ensures a.date.Ordinal() < b.date.Ordinal() || (a.date == b.date && a.second <= b.second)
  {
    if a.date != b.date { OrdinalLess(a.date, b.date); }
    hide Date.Ordinal;
  }

  /** No deleted job is newer than a kept one of its tier: the kept one stands in front of
      it, and finished on a later day or on the same one and no earlier. */
  lemma DeletedAreOldest(jobs: seq<Job>, policy: Policy, now: CalendarDate, deleted: nat, kept: nat)
    requires NewestFirst(jobs) && deleted < |jobs| && kept < |jobs|
    ensures
      && Doomed(jobs, policy, now, deleted) && !Doomed(jobs, policy, now, kept)
      && jobs[kept].finishedAt.Some? && TierOf(jobs[kept], now) == TierOf(jobs[deleted], now)
      ==>
        var older, newer := jobs[deleted].finishedAt.value, jobs[kept].finishedAt.value;
        kept < deleted && (older.date.Ordinal() < newer.date.Ordinal() || (older.date == newer.date && older.second <= newer.second))
  {
    hide ClassifyBackup, Count;
    if kept < deleted && jobs[deleted].finishedAt.Some? && jobs[kept].finishedAt.Some? {
      InOrderOfDays(jobs[deleted].finishedAt.value, jobs[kept].finishedAt.value);
    }
    hide Date.Ordinal, DateTime.Upto;
    if deleted <= kept && jobs[kept].finishedAt.Some? {
      CountMonotone(jobs, now, TierOf(jobs[kept], now), deleted + 1, kept + 1);
    }
  }

  /** Raising quotas never adds deletions: whatever is deleted under the higher ones is
      deleted under the lower ones too, and what the lower ones leave stays. */
  lemma {:induction false} HigherQuotasDeleteLess(jobs: seq<Job>, policy: Policy, higher: Policy, now: CalendarDate)
    requires policy.daily <= higher.daily && policy.weekly <= higher.weekly
    requires policy.monthly <= higher.monthly && policy.yearly <= higher.yearly
    ensures multiset(DeleteList(jobs, higher, now)) <= multiset(DeleteList(jobs, policy, now))
    ensures multiset(Survivors(jobs, policy, now)) <= multiset(Survivors(jobs, higher, now))
  {
    if jobs != [] {
      var n := |jobs| - 1;
      HigherQuotasDeleteLess(jobs[..n], policy, higher, now);
      assert forall t: Tier :: policy.Quota(t) <= higher.Quota(t);
      DoomedUnderLower(jobs, policy, higher, now);
      SurvivorsStep(jobs, policy, now);
      SurvivorsStep(jobs, higher, now);
      DeleteListStep(jobs, policy, now);
      DeleteListStep(jobs, higher, now);
      hide LastDoomed, Survivors, DeleteList;
    }
  }

  lemma DoomedUnderLower(jobs: seq<Job>, policy: Policy, higher: Policy, now: CalendarDate)
    requires forall t: Tier :: policy.Quota(t) <= higher.Quota(t)
    requires jobs != []
    ensures LastDoomed(jobs, higher, now) ==> LastDoomed(jobs, policy, now)
  {
    if LastDoomed(jobs, higher, now) {
      var t := TierOf(jobs[|jobs| - 1], now);
      assert policy.Quota(t) <= higher.Quota(t);
    }
  }

  /** Job i is finished, and with it its tier has more jobs than are configured for it. */
  predicate Beyond(jobs: seq<Job>, policy: Policy, now: CalendarDate, i: nat)
    requires i < |jobs|
  {
    jobs[i].finishedAt.Some? &&
    var tier := TierOf(jobs[i], now);
    var n := Count(jobs[..i + 1], now, tier);
    || (tier == Daily && n > policy.daily) || (tier == Weekly && n > policy.weekly)
    || (tier == Monthly && n > policy.monthly) || (tier == Yearly && n > policy.yearly)
  }

  /** Some job with this id does. */
  ghost predicate BeyondWithId(jobs: seq<Job>, policy: Policy, now: CalendarDate, id: nat) {
    exists i :: 0 <= i < |jobs| && jobs[i].id == id && Beyond(jobs, policy, now, i)
  }

  lemma BeyondStep(jobs: seq<Job>, policy: Policy, now: CalendarDate, id: nat)
    requires jobs != []
    ensures var n := |jobs| - 1;
      BeyondWithId(jobs, policy, now, id) <==>
        BeyondWithId(jobs[..n], policy, now, id) || (jobs[n].id == id && Beyond(jobs, policy, now, n))
  {
    hide Beyond;
    var n := |jobs| - 1;
    forall i: nat | i < n ensures Beyond(jobs[..n], policy, now, i) == Beyond(jobs, policy, now, i) {
      BeyondInPrefix(jobs, policy, now, i);
    }
    if BeyondWithId(jobs, policy, now, id) {
      var i :| 0 <= i < |jobs| && jobs[i].id == id && Beyond(jobs, policy, now, i);
      assert i < n ==> jobs[..n][i].id == id && Beyond(jobs[..n], policy, now, i);
    }
    if BeyondWithId(jobs[..n], policy, now, id) {
      var i :| 0 <= i < n && jobs[..n][i].id == id && Beyond(jobs[..n], policy, now, i);
      assert jobs[i].id == id && Beyond(jobs, policy, now, i);
    }
  }

  /** The list of deletions names exactly the jobs beyond the configured numbers. */
  lemma {:induction false} ListedExactly(jobs: seq<Job>, policy: Policy, now: CalendarDate, id: nat)
    ensures id in DeleteList(jobs, policy, now) <==> BeyondWithId(jobs, policy, now, id)
  {
    if jobs != [] {
      hide DeleteList, LastDoomed, Beyond, BeyondWithId;
      ListedExactly(jobs[..|jobs| - 1], policy, now, id);
      DeleteListStep(jobs, policy, now);
      BeyondIsDoomed(jobs, policy, now);
      BeyondStep(jobs, policy, now, id);
    }
  }

  lemma BeyondInPrefix(jobs: seq<Job>, policy: Policy, now: CalendarDate, i: nat)
    requires i < |jobs| - 1
    ensures Beyond(jobs[..|jobs| - 1], policy, now, i) == Beyond(jobs, policy, now, i)
  {
    hide Count, TierOf;
    PrefixOfPrefix(jobs, i + 1, |jobs| - 1);
  }

  lemma BeyondIsDoomed(jobs: seq<Job>, policy: Policy, now: CalendarDate)
    requires jobs != []
    ensures Beyond(jobs, policy, now, |jobs| - 1) == LastDoomed(jobs, policy, now)
  {
    hide Count, TierOf;
    TakeAll(jobs);
  }

  // ---- The pass ----------------------------------------------------------

  /** The rows left after deleting the given ids. */
  function Without(jobs: seq<Job>, ids: set<nat>): seq<Job> {
    if jobs == [] then []
    else Without(jobs[..|jobs| - 1], ids) + if jobs[|jobs| - 1].id in ids then [] else [jobs[|jobs| - 1]]
  }

  function IdSet(ids: seq<nat>): set<nat> {
    set k | 0 <= k < |ids| :: ids[k]
  }

  datatype Outcome = Outcome(totalJobs: nat, kept: int, deleted: int)

  /** Count each tier newest first, and list what exceeds its quota. */
  method ListExpired(jobs: seq<Job>, policy: Policy, now: CalendarDate) returns (deleteList: seq<nat>)
    ensures deleteList == DeleteList(jobs, policy, now)
  {
    deleteList := [];
    var tierSeen: map<Tier, nat> := map[];
    for i := 0 to |jobs|
      invariant deleteList == DeleteList(jobs[..i], policy, now)
      invariant forall t: Tier :: Count(jobs[..i], now, t) == if t in tierSeen then tierSeen[t] else 0
    {
      var job := jobs[i];
      TakeNext(jobs, i);
      forall t: Tier ensures Count(jobs[..i + 1], now, t) == Count(jobs[..i], now, t) + if InTier(job, now, t) then 1 else 0 {
        CountAppend(jobs[..i], job, now, t);
      }
      DeleteListStep(jobs[..i + 1], policy, now);
      hide Count, DeleteList, ClassifyBackup;
      if job.finishedAt.None? {
        continue;
      }
      var tier := TierOf(job, now);
      if tier !in tierSeen {
        tierSeen := tierSeen[tier := 0];
      }
      tierSeen := tierSeen[tier := tierSeen[tier] + 1];
      if tierSeen[tier] > policy.Quota(tier) {
        deleteList := deleteList + [job.id];
      }
    }
    TakeAll(jobs);
  }

  lemma DeleteListStep(jobs: seq<Job>, policy: Policy, now: CalendarDate)
    requires jobs != []
    ensures var front := jobs[..|jobs| - 1];
      DeleteList(jobs, policy, now) ==
        if LastDoomed(jobs, policy, now) then DeleteList(front, policy, now) + [jobs[|jobs| - 1].id]
        else DeleteList(front, policy, now)
  {
  }

  predicate HasId(jobs: seq<Job>, id: nat) {
    exists i :: 0 <= i < |jobs| && jobs[i].id == id
  }

  lemma {:induction false} DeleteListIds(jobs: seq<Job>, policy: Policy, now: CalendarDate)
    requires UniqueIds(jobs)
    ensures var ids := DeleteList(jobs, policy, now);
      && (forall k :: 0 <= k < |ids| ==> HasId(jobs, ids[k]))
      && (forall j, k :: 0 <= j < k < |ids| ==> ids[j] != ids[k])
  {
    if jobs != [] {
      var n := |jobs| - 1;
      var front := jobs[..n];
      DeleteListIds(front, policy, now);
      DeleteListStep(jobs, policy, now);
      var ids := DeleteList(front, policy, now);
      forall k | 0 <= k < |ids| ensures HasId(jobs, ids[k]) && ids[k] != jobs[n].id {
        assert HasId(front, ids[k]);
        var i :| 0 <= i < n && front[i].id == ids[k];
        assert jobs[i].id == ids[k];
      }
      assert HasId(jobs, jobs[n].id);
      hide DeleteList, HasId, LastDoomed;
    }
  }

  lemma WithoutAppend(jobs: seq<Job>, job: Job, ids: set<nat>)
    ensures Without(jobs + [job], ids) == if job.id in ids then Without(jobs, ids) else Without(jobs, ids) + [job]
  {
    TakeOfAppend(jobs, job);
  }

  lemma {:induction false} WithoutMore(jobs: seq<Job>, ids: set<nat>, id: nat)
    ensures Without(Without(jobs, ids), {id}) == Without(jobs, ids + {id})
  {
    if jobs != [] {
      var front, job := jobs[..|jobs| - 1], jobs[|jobs| - 1];
      WithoutMore(front, ids, id);
      SplitLast(jobs);
      WithoutAppend(front, job, ids);
      WithoutAppend(front, job, ids + {id});
      WithoutAppend(Without(front, ids), job, {id});
      hide Without;
    }
  }

  lemma {:induction false} WithoutKeeps(jobs: seq<Job>, ids: set<nat>, id: nat)
    ensures HasId(Without(jobs, ids), id) <==> HasId(jobs, id) && id !in ids
  {
    if jobs != [] {
      var n := |jobs| - 1;
      WithoutKeeps(jobs[..n], ids, id);
      SplitLast(jobs);
      HasIdAppend(jobs[..n], jobs[n], id);
      HasIdAppend(Without(jobs[..n], ids), jobs[n], id);
      WithoutAppend(jobs[..n], jobs[n], ids);
      hide HasId, Without;
    }
  }

  lemma HasIdAppend(jobs: seq<Job>, job: Job, id: nat)
    ensures HasId(jobs + [job], id) <==> HasId(jobs, id) || job.id == id
  {
    assert (jobs + [job])[|jobs|] == job;
    if HasId(jobs, id) {
      var i :| 0 <= i < |jobs| && jobs[i].id == id;
      assert (jobs + [job])[i].id == id;
    }
  }

  lemma {:induction false} WithoutAbsent(jobs: seq<Job>, ids: set<nat>, id: nat)
    requires !HasId(jobs, id)
    ensures Without(jobs, ids + {id}) == Without(jobs, ids)
  {
    if jobs != [] {
      var n := |jobs| - 1;
      SplitLast(jobs);
      HasIdAppend(jobs[..n], jobs[n], id);
      WithoutAbsent(jobs[..n], ids, id);
    }
  }

  lemma IdSetAppend(ids: seq<nat>, id: nat)
    ensures IdSet(ids + [id]) == IdSet(ids) + {id}
    ensures id in IdSet(ids) <==> exists k :: 0 <= k < |ids| && ids[k] == id
  {
    var more := ids + [id];
    assert more[|ids|] == id;
    forall x | x in IdSet(ids) ensures x in IdSet(more) {
      var k :| 0 <= k < |ids| && ids[k] == x;
      assert more[k] == x;
    }
  }

  /** Deleting the listed ids leaves the survivors. */
  lemma {:induction false} DeletingLeavesSurvivors(jobs: seq<Job>, policy: Policy, now: CalendarDate)
    requires UniqueIds(jobs)
    ensures Without(jobs, IdSet(DeleteList(jobs, policy, now))) == Survivors(jobs, policy, now)
  {
    if jobs != [] {
      var n := |jobs| - 1;
      var front, job := jobs[..n], jobs[n];
      DeletingLeavesSurvivors(front, policy, now);
      DeleteListIds(front, policy, now);
      DeleteListStep(jobs, policy, now);
      SurvivorsStep(jobs, policy, now);
      var ids := DeleteList(front, policy, now);
      assert !HasId(front, job.id);
      assert job.id !in IdSet(ids);
      IdSetAppend(ids, job.id);
      WithoutAbsent(front, IdSet(ids), job.id);
      hide Survivors, DeleteList, LastDoomed, HasId;
    }
  }

  class Database {
    /** The policy's completed jobs, in the order of the query. */
    var jobs: seq<Job>

    constructor (jobs: seq<Job>)
      ensures this.jobs == jobs
    {
      this.jobs := jobs;
    }

    /** Without the policy there is nothing to do; with it, exactly the survivors stay. */
    method ProcessBackupRetention(found: Option<Policy>, now: CalendarDate) returns (result: Option<Outcome>)
      requires UniqueIds(jobs)
      modifies this
      ensures found.None? ==> result == None && jobs == old(jobs)
      ensures found.Some? ==> jobs == Survivors(old(jobs), found.value, now)
      ensures found.Some? ==>
        && Count(jobs, now, Daily) == UpTo(Count(old(jobs), now, Daily), found.value.daily)
        && Count(jobs, now, Weekly) == UpTo(Count(old(jobs), now, Weekly), found.value.weekly)
        && Count(jobs, now, Monthly) == UpTo(Count(old(jobs), now, Monthly), found.value.monthly)
        && Count(jobs, now, Yearly) == UpTo(Count(old(jobs), now, Yearly), found.value.yearly)
      ensures found.Some? ==> result == Some(Outcome(|old(jobs)|, |jobs|, |old(jobs)| - |jobs|))
    {
      if found.None? {
        return None;
      }
      var policy := found.value;
      var total := |jobs|;
      var deleteList := ListExpired(jobs, policy, now);
      DeleteListIds(jobs, policy, now);
      KeptPlusDeleted(jobs, policy, now);
      KeptPerTier(jobs, policy, now);
      hide Count, UpTo;
      DeletingLeavesSurvivors(jobs, policy, now);
      NothingDeleted(jobs);
      var deleted := 0;
      for k := 0 to |deleteList|
        invariant jobs == Without(old(jobs), IdSet(deleteList[..k]))
        invariant deleted == k
      {
        var id := deleteList[k];
        hide Without, DeleteList, Survivors, IdSet;
        DeleteOne(old(jobs), deleteList, k);
        if HasId(jobs, id) {
          jobs := Without(jobs, {id});
          deleted := deleted + 1;
        }
      }
      TakeAll(deleteList);
      result := Some(Outcome(total, total - deleted, deleted));
    }
  }

  lemma {:induction false} NothingDeleted(jobs: seq<Job>)
    ensures Without(jobs, {}) == jobs && IdSet([]) == {}
  {
    if jobs != [] {
      NothingDeleted(jobs[..|jobs| - 1]);
      SplitLast(jobs);
    }
  }

  lemma DeleteOne(jobs: seq<Job>, ids: seq<nat>, k: nat)
    requires k < |ids| && HasId(jobs, ids[k]) && forall j :: 0 <= j < k ==> ids[j] != ids[k]
    ensures HasId(Without(jobs, IdSet(ids[..k])), ids[k])
    ensures Without(Without(jobs, IdSet(ids[..k])), {ids[k]}) == Without(jobs, IdSet(ids[..k + 1]))
  {
    TakeNext(ids, k);
    IdSetAppend(ids[..k], ids[k]);
    WithoutKeeps(jobs, IdSet(ids[..k]), ids[k]);
    WithoutMore(jobs, IdSet(ids[..k]), ids[k]);
  }
}
