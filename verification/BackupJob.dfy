/** A backup job: one controlling thread that runs and cancels, one worker thread, and every
    interleaving of their steps. Callbacks are taken not to throw. */
module Backup {
  import opened Sequences

  datatype JobStatus = PENDING | RUNNING | COMPLETED | FAILED | CANCELLED {
    predicate Terminal() { COMPLETED? || FAILED? || CANCELLED? }
  }

  /** Where the worker is. AtScan counts the directory entries still ahead of it, AtCheck
      and AtReport the progress reports still ahead. */
  datatype Worker =
    | NoWorker
    | AtFlush
    | AtFirstCheck
    | AtScan(entries: nat)
    | AtCheck(reports: nat)
    | AtReport(reports: nat)
    | AtLastCheck
    | AtComplete
    | AtCompleteCallback
    | AtThrown
    | AtFailCallback
    | Done

  /** Where the controlling thread is: between calls, or inside run or cancel. */
  datatype Controller = Idle | RunCallback | RunSpawn | CancelJoin | CancelCheck | CancelCallback

  datatype State = State(
    status: JobStatus,
    cancelled: bool,
    worker: Worker,
    joinable: bool,
    controller: Controller,
    entries: nat,
    // history: the callbacks since run was last called, and whether a cancel issued after
    // that call has returned
    callbacks: seq<JobStatus>,
    settled: bool)

  /** What the worker's surroundings do: carry on, throw, or, while scanning after a
      cancel, break off. */
  datatype Choice = Go | Throw | Skip

  datatype Action = CallRun | CallCancel | Control(entries: nat) | Work(choice: Choice)

  const REPORTS: nat := 11

  const NEW_JOB: State := State(PENDING, false, NoWorker, false, Idle, 0, [], false)

  // ---- Steps -------------------------------------------------------------

  function Notify(s: State, status: JobStatus): State {
    s.(callbacks := s.callbacks + [status])
  }

  /** run and cancel, one statement at a time. */
  function DoControl(s: State, entries: nat): State {
    match s.controller
    case Idle => s
    case RunCallback => Notify(s, RUNNING).(controller := RunSpawn)
    case RunSpawn => s.(worker := AtFlush, joinable := true, controller := Idle, entries := entries)
    case CancelJoin =>
      if s.joinable && s.worker != Done then s
      else s.(joinable := false, controller := CancelCheck)
    case CancelCheck =>
      if s.status == RUNNING then s.(status := CANCELLED, controller := CancelCallback)
      else s.(controller := Idle, settled := s.worker == Done)
    case CancelCallback => Notify(s, CANCELLED).(controller := Idle, settled := true)
  }

  /** do_backup, one statement at a time. */
  function DoWork(s: State, c: Choice): State {
    match s.worker
    case NoWorker => s
    case AtFlush => s.(worker := if c == Throw then AtThrown else AtFirstCheck)
    case AtFirstCheck => s.(worker := if s.cancelled then Done else AtScan(s.entries))
    case AtScan(entries) =>
      if c == Throw then s.(worker := AtThrown)
      else if entries == 0 || (c == Skip && s.cancelled) then s.(worker := AtCheck(REPORTS))
      else s.(worker := AtScan(entries - 1))
    case AtCheck(reports) => s.(worker := if reports == 0 || s.cancelled then AtLastCheck else AtReport(reports - 1))
    case AtReport(reports) => Notify(s, RUNNING).(worker := AtCheck(reports))
    case AtLastCheck => s.(worker := if s.cancelled then Done else AtComplete)
    case AtComplete => s.(status := COMPLETED, worker := AtCompleteCallback)
    case AtCompleteCallback => Notify(s, COMPLETED).(worker := Done)
    case AtThrown => s.(status := FAILED, worker := AtFailCallback)
    case AtFailCallback => Notify(s, FAILED).(worker := Done)
    case Done => s
  }

  /** An action that cannot happen changes nothing. A job whose worker was never joined is
      not run again: that would terminate the process. */
  function Do(s: State, a: Action): State {
    match a
    case CallRun =>
      if s.controller == Idle && !s.joinable then
        s.(status := RUNNING, controller := RunCallback, callbacks := [], settled := false)
      else s
    case CallCancel => if s.controller == Idle then s.(cancelled := true, controller := CancelJoin) else s
    case Control(entries) => DoControl(s, entries)
    case Work(choice) => DoWork(s, choice)
  }

  function Run(init: State, acts: seq<Action>): State {
    if acts == [] then init else Do(Run(init, acts[..|acts| - 1]), acts[|acts| - 1])
  }

  // ---- The invariant -----------------------------------------------------

  predicate AllRunning(callbacks: seq<JobStatus>) {
    forall i :: 0 <= i < |callbacks| ==> callbacks[i] == RUNNING
  }

  /** One terminal callback, at the end, after at least one for RUNNING. */
  predicate Ended(callbacks: seq<JobStatus>, status: JobStatus) {
    && |callbacks| >= 2 && status.Terminal()
    && AllRunning(callbacks[..|callbacks| - 1]) && callbacks[|callbacks| - 1] == status
  }

  predicate InRun(c: Controller) { c == RunCallback || c == RunSpawn }

  predicate Active(w: Worker) {
    w != NoWorker && w != AtCompleteCallback && w != AtFailCallback && w != Done
  }

  /** Inside run, before the worker exists. */
  predicate RunRight(s: State) {
    && s.status == RUNNING && (s.worker == NoWorker || s.worker == Done) && !s.joinable && !s.settled
    && s.callbacks == if s.controller == RunSpawn then [RUNNING] else []
  }

  /** Between calls, or inside cancel. */
  predicate WorkerRight(s: State) {
    && (s.worker == NoWorker ==> s.status == PENDING && s.callbacks == [] && !s.joinable && !s.settled && s.controller != CancelCallback)
    && (s.worker != NoWorker ==> s.callbacks != [])
    && (Active(s.worker) ==> s.status == RUNNING)
    && (s.worker == AtCompleteCallback ==> s.status == COMPLETED)
    && (s.worker == AtFailCallback ==> s.status == FAILED)
    && (s.worker != NoWorker && s.worker != Done ==>
          AllRunning(s.callbacks) && s.joinable && !s.settled && (s.controller == Idle || s.controller == CancelJoin))
    && (s.worker == Done ==> s.status != PENDING)
    && (s.worker == Done && s.status == RUNNING ==> AllRunning(s.callbacks) && s.cancelled && !s.settled)
    && (s.worker == Done && s.status != RUNNING ==>
          if s.controller == CancelCallback then s.status == CANCELLED && AllRunning(s.callbacks) && !s.settled
          else Ended(s.callbacks, s.status))
    && (s.controller == CancelCallback ==> s.status == CANCELLED)
    && (s.joinable ==> s.controller == Idle || s.controller == CancelJoin)
    && (s.settled ==> !s.joinable && s.worker == Done)
  }

  predicate Right(s: State) {
    if InRun(s.controller) then RunRight(s) else WorkerRight(s)
  }

  lemma RunningAppend(callbacks: seq<JobStatus>)
    requires AllRunning(callbacks)
    ensures AllRunning(callbacks + [RUNNING])
  {
  }

  lemma TerminalAppend(callbacks: seq<JobStatus>, status: JobStatus)
    requires AllRunning(callbacks) && callbacks != [] && status.Terminal()
    ensures Ended(callbacks + [status], status)
  {
    TakeOfAppend(callbacks, status);
    hide AllRunning;
  }

  lemma NotifyRunning(callbacks: seq<JobStatus>, status: JobStatus)
    requires AllRunning(callbacks)
    ensures AllRunning(callbacks + [RUNNING])
    ensures callbacks != [] && status.Terminal() ==> Ended(callbacks + [status], status)
  {
    RunningAppend(callbacks);
    if callbacks != [] && status.Terminal() { TerminalAppend(callbacks, status); }
    hide AllRunning, Ended;
  }

  predicate Reporting(w: Worker) {
    w.AtReport? || w == AtCompleteCallback || w == AtFailCallback
  }

  lemma SilentWorkRight(s: State, c: Choice)
    requires Right(s) && !Reporting(s.worker)
    ensures Right(DoWork(s, c))
  {
    hide AllRunning, Ended;
  }

  lemma ReportingWorkRight(s: State, c: Choice)
    requires Right(s) && Reporting(s.worker)
    ensures Right(DoWork(s, c))
  {
    NotifyRunning(s.callbacks, s.status);
    hide AllRunning, Ended;
  }

  lemma WorkRight(s: State, c: Choice)
    requires Right(s)
    ensures Right(DoWork(s, c))
  {
    if Reporting(s.worker) { ReportingWorkRight(s, c); } else { SilentWorkRight(s, c); }
    hide Right, DoWork;
  }

  lemma RunControlRight(s: State, entries: nat)
    requires Right(s) && InRun(s.controller)
    ensures Right(DoControl(s, entries))
  {
    assert AllRunning([RUNNING]);
    hide AllRunning, Ended;
  }

  lemma CancelCallbackRight(s: State, entries: nat)
    requires Right(s) && s.controller == CancelCallback
    ensures Right(DoControl(s, entries))
  {
    assert s.worker == Done && AllRunning(s.callbacks) && s.callbacks != [];
    TerminalAppend(s.callbacks, CANCELLED);
    hide AllRunning, Ended;
  }

  lemma CancelControlRight(s: State, entries: nat)
    requires Right(s) && !InRun(s.controller) && s.controller != CancelCallback
    ensures Right(DoControl(s, entries))
  {
    hide AllRunning, Ended;
  }

  lemma ControlRight(s: State, entries: nat)
    requires Right(s)
    ensures Right(DoControl(s, entries))
  {
    if InRun(s.controller) { RunControlRight(s, entries); }
    else if s.controller == CancelCallback { CancelCallbackRight(s, entries); }
    else { CancelControlRight(s, entries); }
    hide Right, DoControl;
  }

  lemma StepRight(s: State, a: Action)
    requires Right(s)
    ensures Right(Do(s, a))
  {
    match a {
      case Control(entries) => ControlRight(s, entries);
      case Work(choice) => WorkRight(s, choice);
      case _ => hide AllRunning, Ended;
    }
  }

  lemma {:induction false} AlwaysRight(acts: seq<Action>)
    ensures Right(Run(NEW_JOB, acts))
  {
    if acts != [] {
      var front := Run(NEW_JOB, acts[..|acts| - 1]);
      AlwaysRight(acts[..|acts| - 1]);
      StepRight(front, acts[|acts| - 1]);
      assert Run(NEW_JOB, acts) == Do(front, acts[|acts| - 1]);
    }
  }

  // ---- Results -----------------------------------------------------------

  lemma StepAbsorbs(s: State, a: Action)
    requires Right(s) && s.status.Terminal() && a != CallRun
    ensures Do(s, a).status == s.status
  {
    hide AllRunning, Ended;
  }

  /** A terminal status stays until run is called again, in every interleaving. */
  lemma {:induction false} TerminalAbsorbs(acts: seq<Action>, more: seq<Action>)
    requires Run(NEW_JOB, acts).status.Terminal() && CallRun !in more
    ensures Run(NEW_JOB, acts + more).status == Run(NEW_JOB, acts).status
  {
    if more == [] {
      assert acts + more == acts;
    } else {
      var n := |more| - 1;
      TerminalAbsorbs(acts, more[..n]);
      InitOfAppend(acts, more);
      var s := Run(NEW_JOB, acts + more[..n]);
      AlwaysRight(acts + more[..n]);
      StepAbsorbs(s, more[n]);
      assert Run(NEW_JOB, acts + more) == Do(s, more[n]);
      hide Do, Right, Ended;
    }
  }

  /** Since run was called, at most one terminal callback fired; it is the last one, it
      follows one for RUNNING, and it reports the status the job has. */
  lemma OneTerminalCallback(acts: seq<Action>)
    ensures var s := Run(NEW_JOB, acts);
      && (forall i :: 0 <= i < |s.callbacks| - 1 ==> s.callbacks[i] == RUNNING)
      && (s.callbacks != [] && s.callbacks[|s.callbacks| - 1].Terminal() ==>
            |s.callbacks| >= 2 && s.callbacks[|s.callbacks| - 1] == s.status)
      && (s.callbacks != [] ==> !s.callbacks[|s.callbacks| - 1].PENDING?)
  {
    AlwaysRight(acts);
    var s := Run(NEW_JOB, acts);
    hide Run;
    if !AllRunning(s.callbacks) {
      var cs := s.callbacks;
      assert Ended(cs, s.status);
      assert forall i :: 0 <= i < |cs| - 1 ==> cs[i] == cs[..|cs| - 1][i];
    }
  }

  lemma StepSettled(s: State, a: Action)
    requires Right(s) && s.settled && a != CallRun
    ensures var t := Do(s, a);
      t.status == s.status && t.callbacks == s.callbacks && t.settled
  {
    hide AllRunning, Ended;
  }

  /** Once a cancel issued after run has returned, the worker is joined, the status is
      COMPLETED, FAILED or CANCELLED, and its callback has fired; and so it stays, callbacks
      included, whatever happens short of another run. */
  lemma {:induction false} SettledForGood(acts: seq<Action>, more: seq<Action>)
    requires Run(NEW_JOB, acts).settled && CallRun !in more
    ensures var s, later := Run(NEW_JOB, acts), Run(NEW_JOB, acts + more);
      && s.status.Terminal() && s.worker == Done && !s.joinable && Ended(s.callbacks, s.status)
      && later.status == s.status && later.callbacks == s.callbacks && later.settled
  {
    AlwaysRight(acts);
    if more == [] {
      assert acts + more == acts;
    } else {
      var n := |more| - 1;
      SettledForGood(acts, more[..n]);
      InitOfAppend(acts, more);
      var s := Run(NEW_JOB, acts + more[..n]);
      AlwaysRight(acts + more[..n]);
      StepSettled(s, more[n]);
      assert Run(NEW_JOB, acts + more) == Do(s, more[n]);
      hide Do, Right, Ended;
    }
  }

  /** The step in which a cancel returns settles the job, if it was ever run. */
  lemma CancelReturns(acts: seq<Action>, a: Action)
    requires var s, t := Run(NEW_JOB, acts), Do(Run(NEW_JOB, acts), a);
      s.controller != Idle && !InRun(s.controller) && t.controller == Idle
    ensures var t := Do(Run(NEW_JOB, acts), a);
      if t.worker == NoWorker then t.status == PENDING else t.settled
  {
    AlwaysRight(acts);
    var s := Run(NEW_JOB, acts);
    hide AllRunning, Ended, Run;
  }

  /** The worker has yet to look at the cancel flag for the last time, or has seen it. */
  predicate CancelledInTime(s: State) {
    s.cancelled && s.status != COMPLETED && s.worker != AtComplete && s.worker != AtCompleteCallback
  }

  lemma StepInTime(s: State, a: Action)
    requires CancelledInTime(s)
    ensures CancelledInTime(Do(s, a))
  {
  }

  /** A cancel that comes before the worker's last look at the flag wins: the job never
      completes after it, whatever happens, further runs included. */
  lemma {:induction false} CancelInTimeWins(acts: seq<Action>, more: seq<Action>)
    requires CancelledInTime(Run(NEW_JOB, acts))
    ensures CancelledInTime(Run(NEW_JOB, acts + more))
  {
    if more == [] {
      assert acts + more == acts;
    } else {
      var n := |more| - 1;
      CancelInTimeWins(acts, more[..n]);
      InitOfAppend(acts, more);
      StepInTime(Run(NEW_JOB, acts + more[..n]), more[n]);
      assert Run(NEW_JOB, acts + more) == Do(Run(NEW_JOB, acts + more[..n]), more[n]);
      hide CancelledInTime, Do;
    }
  }

  /** In particular a job that was ever cancelled can be run again, but not to completion:
      the flag is never cleared. */
  lemma RerunNeverCompletes(acts: seq<Action>, more: seq<Action>)
    requires var s := Run(NEW_JOB, acts); s.cancelled && s.controller == Idle && !s.joinable
    ensures Run(NEW_JOB, acts + [CallRun]).status == RUNNING
    ensures Run(NEW_JOB, acts + [CallRun] + more).status != COMPLETED
  {
    AlwaysRight(acts);
    TakeOfAppend(acts, CallRun);
    CancelInTimeWins(acts + [CallRun], more);
  }

  // ---- A cancel always returns -------------------------------------------

  /** Steps the worker can still take. */
  function StepsLeft(s: State): nat {
    match s.worker
    case NoWorker => 0
    case AtFlush => s.entries + 2 * REPORTS + 7
    case AtFirstCheck => s.entries + 2 * REPORTS + 6
    case AtScan(entries) => entries + 2 * REPORTS + 5
    case AtCheck(reports) => 2 * reports + 4
    case AtReport(reports) => 2 * reports + 5
    case AtLastCheck => 3
    case AtComplete => 2
    case AtThrown => 2
    case AtCompleteCallback => 1
    case AtFailCallback => 1
    case Done => 0
  }

  /** Whatever the surroundings choose, every step brings a running worker nearer its end. */
  lemma WorkProgresses(s: State, c: Choice)
    requires s.worker != NoWorker && s.worker != Done
    ensures StepsLeft(DoWork(s, c)) < StepsLeft(s) && DoWork(s, c).worker != NoWorker
  {
  }

  // ---- What a cancelled worker still does --------------------------------

  function One(b: bool): nat {
    if b then 1 else 0
  }

  function Runnings(callbacks: seq<JobStatus>): nat {
    if callbacks == [] then 0
    else Runnings(callbacks[..|callbacks| - 1]) + One(callbacks[|callbacks| - 1] == RUNNING)
  }

  lemma RunningsAppend(callbacks: seq<JobStatus>, status: JobStatus)
    ensures Runnings(callbacks + [status]) == Runnings(callbacks) + One(status == RUNNING)
  {
    TakeOfAppend(callbacks, status);
  }

  /** Callbacks for RUNNING already under way: a report that the worker has decided on, and
      the one that run itself makes. */
  function UnderWay(s: State): nat {
    One(s.worker.AtReport?) + One(s.controller == RunCallback)
  }

  lemma StepReportsNothingNew(s: State, a: Action)
    requires s.cancelled && a != CallRun
    ensures var t := Do(s, a);
      t.cancelled && Runnings(t.callbacks) + UnderWay(t) <= Runnings(s.callbacks) + UnderWay(s)
  {
    hide Runnings;
    forall status: JobStatus
      ensures Runnings(s.callbacks + [status]) == Runnings(s.callbacks) + One(status == RUNNING)
    {
      RunningsAppend(s.callbacks, status);
    }
  }

  /** Over every interleaving: once the flag is set, no RUNNING callback fires but those
      under way, and of the worker that is one at most. */
  lemma {:induction false} ReportsAfterCancel(acts: seq<Action>, more: seq<Action>)
    requires Run(NEW_JOB, acts).cancelled && CallRun !in more
    ensures var s, t := Run(NEW_JOB, acts), Run(NEW_JOB, acts + more);
      t.cancelled && Runnings(t.callbacks) + UnderWay(t) <= Runnings(s.callbacks) + UnderWay(s)
    ensures UnderWay(Run(NEW_JOB, acts)) <= 1
  {
    AlwaysRight(acts);
    assert UnderWay(Run(NEW_JOB, acts)) <= 1;
    hide Run, Right, Runnings, UnderWay, Do;
    if more == [] {
      AppendNothing(acts, more);
    } else {
      var n := |more| - 1;
      ReportsAfterCancel(acts, more[..n]);
      InitOfAppend(acts, more);
      RunLast(acts + more);
      StepReportsNothingNew(Run(NEW_JOB, acts + more[..n]), more[n]);
    }
  }

  /** Where a worker is that has not begun to scan and never will. */
  predicate Unscanned(w: Worker) {
    w.NoWorker? || w.AtFlush? || w.AtFirstCheck? || w.AtThrown? || w.AtFailCallback? || w.Done?
  }

  lemma StepUnscanned(s: State, a: Action)
    requires s.cancelled && Unscanned(s.worker)
    ensures Do(s, a).cancelled && Unscanned(Do(s, a).worker)
  {
  }

  /** A worker that is cancelled before its first look at the flag never scans, reports or
      completes, and neither does any later one: not even another run clears the flag. */
  lemma {:induction false} NeverScans(acts: seq<Action>, more: seq<Action>)
    requires Run(NEW_JOB, acts).cancelled && Unscanned(Run(NEW_JOB, acts).worker)
    ensures Run(NEW_JOB, acts + more).cancelled && Unscanned(Run(NEW_JOB, acts + more).worker)
  {
    hide Run, Unscanned, Do;
    if more == [] {
      AppendNothing(acts, more);
    } else {
      var n := |more| - 1;
      NeverScans(acts, more[..n]);
      InitOfAppend(acts, more);
      RunLast(acts + more);
      StepUnscanned(Run(NEW_JOB, acts + more[..n]), more[n]);
    }
  }

  /** Steps that a cancelled worker has left, at most; fewer if it breaks its scan off. */
  function CancelledLeft(w: Worker, breaks: bool): nat {
    match w
    case NoWorker => 0
    case AtFlush => 3
    case AtFirstCheck => 1
    case AtScan(entries) => if breaks then 3 else entries + 3
    case AtCheck(_) => 2
    case AtReport(_) => 3
    case AtLastCheck => 1
    case AtComplete => 2
    case AtCompleteCallback => 1
    case AtThrown => 2
    case AtFailCallback => 1
    case Done => 0
  }

  function WorkCount(acts: seq<Action>): nat {
    if acts == [] then 0 else WorkCount(acts[..|acts| - 1]) + One(acts[|acts| - 1].Work?)
  }

  lemma StepLeavesLess(s: State, a: Action, breaks: bool)
    requires s.cancelled && s.worker != NoWorker && !InRun(s.controller) && a != CallRun
    requires breaks && a.Work? ==> a.choice == Skip
    ensures var t := Do(s, a);
      && t.cancelled && t.worker != NoWorker && !InRun(t.controller)
      && (s.worker == Done ==> t.worker == Done)
      && CancelledLeft(t.worker, breaks) + One(a.Work? && s.worker != Done) <= CancelledLeft(s.worker, breaks)
  {
  }

  lemma {:induction false} StepsAfterCancel(acts: seq<Action>, more: seq<Action>, breaks: bool)
    requires var s := Run(NEW_JOB, acts); s.cancelled && s.worker != NoWorker && !InRun(s.controller)
    requires CallRun !in more
    requires breaks ==> forall i :: 0 <= i < |more| && more[i].Work? ==> more[i].choice == Skip
    ensures var s, t := Run(NEW_JOB, acts), Run(NEW_JOB, acts + more);
      && t.cancelled && t.worker != NoWorker && !InRun(t.controller)
      && (t.worker == Done || CancelledLeft(t.worker, breaks) + WorkCount(more) <= CancelledLeft(s.worker, breaks))
  {
    hide Run, Do, CancelledLeft;
    if more == [] {
      AppendNothing(acts, more);
    } else {
      var n := |more| - 1;
      StepsAfterCancel(acts, more[..n], breaks);
      InitOfAppend(acts, more);
      RunLast(acts + more);
      StepLeavesLess(Run(NEW_JOB, acts + more[..n]), more[n], breaks);
    }
  }

  /** Over every interleaving: within three steps beyond the entries it may yet have to scan,
      a cancelled worker ends, however many reports it had before it; within three steps in
      all if it breaks its scan off. */
  lemma CancelEndsSoon(acts: seq<Action>, more: seq<Action>)
    requires var s := Run(NEW_JOB, acts); s.cancelled && s.worker != NoWorker && !InRun(s.controller)
    requires CallRun !in more && WorkCount(more) >= 3
    requires
      || (forall i :: 0 <= i < |more| && more[i].Work? ==> more[i].choice == Skip)
      || (Run(NEW_JOB, acts).worker.AtScan? ==> WorkCount(more) >= 3 + Run(NEW_JOB, acts).worker.entries)
    ensures Run(NEW_JOB, acts + more).worker == Done
  {
    StepsAfterCancel(acts, more, false);
    if forall i :: 0 <= i < |more| && more[i].Work? ==> more[i].choice == Skip {
      StepsAfterCancel(acts, more, true);
    }
    hide Run, WorkCount;
  }

  // ---- Which runs complete -----------------------------------------------

  /** No further run or cancel, and nothing throws. */
  ghost predicate Quiet(more: seq<Action>) {
    forall i :: 0 <= i < |more| ==> more[i] != CallRun && more[i] != CallCancel && more[i] != Work(Throw)
  }

  /** A run called with this cancel flag, undisturbed since. */
  predicate Heading(s: State, cancelled: bool) {
    && s.cancelled == cancelled && (s.controller == Idle || InRun(s.controller))
    && (!InRun(s.controller) ==>
          && s.worker != NoWorker && s.worker != AtThrown && s.worker != AtFailCallback
          && (if cancelled then s.status == RUNNING && s.worker != AtComplete && s.worker != AtCompleteCallback
              else s.status == if s.worker == AtCompleteCallback || s.worker == Done then COMPLETED else RUNNING))
  }

  lemma StepHeading(s: State, a: Action, cancelled: bool)
    requires Right(s) && Heading(s, cancelled) && Quiet([a])
    ensures Heading(Do(s, a), cancelled)
  {
    assert [a][0] == a;
    hide AllRunning, Ended, Quiet;
  }

  lemma {:induction false} StaysHeading(acts: seq<Action>, more: seq<Action>)
    requires var s := Run(NEW_JOB, acts); s.controller == Idle && !s.joinable
    requires Quiet(more)
    ensures Heading(Run(NEW_JOB, acts + [CallRun] + more), Run(NEW_JOB, acts).cancelled)
  {
    hide Right, Run;
    var run := acts + [CallRun];
    if more == [] {
      RunStep(acts, CallRun);
      AppendNothing(run, more);
    } else {
      hide Heading, Do;
      var n := |more| - 1;
      QuietPrefix(more);
      StaysHeading(acts, more[..n]);
      hide Quiet;
      InitOfAppend(run, more);
      AlwaysRight(run + more[..n]);
      RunLast(run + more);
      StepHeading(Run(NEW_JOB, run + more[..n]), more[n], Run(NEW_JOB, acts).cancelled);
    }
  }

  lemma QuietPrefix(more: seq<Action>)
    requires more != [] && Quiet(more)
    ensures Quiet(more[..|more| - 1]) && Quiet([more[|more| - 1]])
  {
  }

  lemma RunLast(acts: seq<Action>)
    requires acts != []
    ensures Run(NEW_JOB, acts) == Do(Run(NEW_JOB, acts[..|acts| - 1]), acts[|acts| - 1])
  {
  }

  /** In every interleaving in which nothing throws and nobody cancels or runs it again, a
      run whose worker has ended has completed if and only if the cancel flag was clear
      when run was called. */
  lemma UndisturbedOutcome(acts: seq<Action>, more: seq<Action>)
    requires var s := Run(NEW_JOB, acts); s.controller == Idle && !s.joinable
    requires Quiet(more)
    ensures var t := Run(NEW_JOB, acts + [CallRun] + more);
      !InRun(t.controller) && t.worker == Done ==> (t.status == COMPLETED <==> !Run(NEW_JOB, acts).cancelled)
  {
    StaysHeading(acts, more);
  }

  /** The two ways for a run to end by itself. */
  datatype Ending = Completing | Failing

  /** The step that decides on an ending: the last look at a clear flag, or an exception out
      of the flush or the scan. */
  predicate Decides(e: Ending, s: State, a: Action) {
    && a.Work? && !InRun(s.controller)
    && match e
       case Completing => s.worker == AtLastCheck && !s.cancelled
       case Failing => (s.worker == AtFlush || s.worker.AtScan?) && a.choice == Throw
  }

  /** At some step behind the call of run, it came. */
  ghost predicate Decided(e: Ending, acts: seq<Action>, more: seq<Action>) {
    exists i :: 0 <= i < |more| && Decides(e, Run(NEW_JOB, acts + [CallRun] + more[..i]), more[i])
  }

  /** The worker is on its way to report that ending, or has reported it. */
  predicate Bound(e: Ending, s: State) {
    && !InRun(s.controller)
    && match e
       case Completing => s.worker == AtComplete || s.worker == AtCompleteCallback || (s.worker == Done && s.status == COMPLETED)
       case Failing => s.worker == AtThrown || s.worker == AtFailCallback || (s.worker == Done && s.status == FAILED)
  }

  lemma StepBound(e: Ending, s: State, a: Action)
    requires Right(s) && a != CallRun
    ensures Bound(e, Do(s, a)) <==> Bound(e, s) || Decides(e, s, a)
  {
    hide AllRunning, Ended;
  }

  lemma DecidedAppend(e: Ending, acts: seq<Action>, more: seq<Action>)
    requires more != []
    ensures var n := |more| - 1;
      Decided(e, acts, more) <==>
        Decided(e, acts, more[..n]) || Decides(e, Run(NEW_JOB, acts + [CallRun] + more[..n]), more[n])
  {
    hide Run, Decides;
    var n := |more| - 1;
    forall i: nat | i < n ensures more[..n][..i] == more[..i] && more[..n][i] == more[i] {
      TakeOfTake(more, n, i);
    }
    if Decided(e, acts, more) {
      var i :| 0 <= i < |more| && Decides(e, Run(NEW_JOB, acts + [CallRun] + more[..i]), more[i]);
      assert i < n ==> Decides(e, Run(NEW_JOB, acts + [CallRun] + more[..n][..i]), more[..n][i]);
    }
    if Decided(e, acts, more[..n]) {
      var i :| 0 <= i < n && Decides(e, Run(NEW_JOB, acts + [CallRun] + more[..n][..i]), more[..n][i]);
      assert Decides(e, Run(NEW_JOB, acts + [CallRun] + more[..i]), more[i]);
    }
  }

  lemma {:induction false} BoundExactly(e: Ending, acts: seq<Action>, more: seq<Action>)
    requires var s := Run(NEW_JOB, acts); s.controller == Idle && !s.joinable
    requires CallRun !in more
    ensures Bound(e, Run(NEW_JOB, acts + [CallRun] + more)) <==> Decided(e, acts, more)
  {
    hide Right, Run;
    var run := acts + [CallRun];
    if more == [] {
      RunStep(acts, CallRun);
      AppendNothing(run, more);
    } else {
      hide Bound, Do, Decides, Decided;
      var n := |more| - 1;
      BoundExactly(e, acts, more[..n]);
      DecidedAppend(e, acts, more);
      InitOfAppend(run, more);
      AlwaysRight(run + more[..n]);
      RunLast(run + more);
      StepBound(e, Run(NEW_JOB, run + more[..n]), more[n]);
    }
  }

  /** Whatever cancels and exceptions come in between, a run whose worker has ended has
      completed if and only if the flag was still clear when the worker looked at it for
      the last time, and has failed if and only if its flush or its scan threw. */
  lemma CompletedExactly(acts: seq<Action>, more: seq<Action>)
    requires var s := Run(NEW_JOB, acts); s.controller == Idle && !s.joinable
    requires CallRun !in more
    ensures var t := Run(NEW_JOB, acts + [CallRun] + more);
      !InRun(t.controller) && t.worker == Done ==>
        && (t.status == COMPLETED <==> Decided(Completing, acts, more))
        && (t.status == FAILED <==> Decided(Failing, acts, more))
  {
    BoundExactly(Completing, acts, more);
    BoundExactly(Failing, acts, more);
    hide Run, Decided;
  }

  /** The run is called and its worker started. */
  function Started(entries: nat): seq<Action> {
    [CallRun, Control(entries), Control(entries)]
  }

  lemma StartedWorker(acts: seq<Action>, entries: nat)
    requires var s := Run(NEW_JOB, acts); s.controller == Idle && !s.joinable
    ensures Run(NEW_JOB, acts + Started(entries)) ==
      Run(NEW_JOB, acts).(status := RUNNING, callbacks := [RUNNING], settled := false, worker := AtFlush, joinable := true, entries := entries)
  {
    hide Run;
    assert acts + Started(entries) == acts + [CallRun] + [Control(entries)] + [Control(entries)];
    RunStep(acts, CallRun);
    RunStep(acts + [CallRun], Control(entries));
    RunStep(acts + [CallRun] + [Control(entries)], Control(entries));
    assert [] + [RUNNING] == [RUNNING];
  }

  /** Progress reports still ahead of a worker that is not cancelled. */
  function ReportsLeft(w: Worker): nat {
    match w
    case AtFlush | AtFirstCheck | AtScan(_) => REPORTS
    case AtCheck(reports) => reports
    case AtReport(reports) => reports + 1
    case _ => 0
  }

  /** A run that nothing has disturbed, so many worker steps behind its start. */
  predicate OnCourse(s: State, cancelled: bool, entries: nat, steps: nat) {
    && s.cancelled == cancelled && s.controller == Idle && s.entries == entries
    && s.worker != NoWorker && s.worker != AtThrown && s.worker != AtFailCallback
    && if cancelled then
         && s.worker == (if steps == 0 then AtFlush else if steps == 1 then AtFirstCheck else Done)
         && s.status == RUNNING && s.callbacks == [RUNNING]
       else
         && StepsLeft(s) == (if steps <= entries + 29 then entries + 29 - steps else 0)
         && |s.callbacks| + ReportsLeft(s.worker) == 12 + One(s.worker == Done)
         && s.status == if s.worker == AtCompleteCallback || s.worker == Done then COMPLETED else RUNNING
  }

  lemma StepOnCourse(s: State, a: Action, cancelled: bool, entries: nat, steps: nat)
    requires OnCourse(s, cancelled, entries, steps) && Quiet([a])
    ensures OnCourse(Do(s, a), cancelled, entries, steps + One(a.Work?))
  {
    assert [a][0] == a;
    hide Quiet;
  }

  lemma {:induction false} StaysOnCourse(acts: seq<Action>, entries: nat, more: seq<Action>)
    requires var s := Run(NEW_JOB, acts); s.controller == Idle && !s.joinable
    requires Quiet(more)
    ensures OnCourse(Run(NEW_JOB, acts + Started(entries) + more), Run(NEW_JOB, acts).cancelled, entries, WorkCount(more))
  {
    hide Run, Started;
    var start := acts + Started(entries);
    if more == [] {
      StartedWorker(acts, entries);
      AppendNothing(start, more);
    } else {
      hide OnCourse, Do;
      var n := |more| - 1;
      QuietPrefix(more);
      StaysOnCourse(acts, entries, more[..n]);
      hide Quiet;
      InitOfAppend(start, more);
      RunLast(start + more);
      StepOnCourse(Run(NEW_JOB, start + more[..n]), more[n], Run(NEW_JOB, acts).cancelled, entries, WorkCount(more[..n]));
    }
  }

  lemma EndIsDone(s: State)
    requires s.worker != NoWorker
    ensures StepsLeft(s) == 0 <==> s.worker == Done
  {
  }

  /** In every interleaving in which nothing disturbs it, a run with the flag clear ends with
      its worker's step number 29 beyond the number of entries and no sooner: then it has
      called back twelve times for RUNNING and once, last, for COMPLETED. With the flag set
      two steps end it, and it never calls back but for RUNNING at its start. */
  lemma RunCompletesExactly(acts: seq<Action>, entries: nat, more: seq<Action>)
    requires var s := Run(NEW_JOB, acts); s.controller == Idle && !s.joinable
    requires Quiet(more)
    ensures var t := Run(NEW_JOB, acts + Started(entries) + more);
      if Run(NEW_JOB, acts).cancelled then
        && (t.worker == Done <==> WorkCount(more) >= 2)
        && t.status == RUNNING && t.callbacks == [RUNNING]
      else
        && (t.worker == Done <==> WorkCount(more) >= entries + 29)
        && (t.worker == Done ==> t.status == COMPLETED && |t.callbacks| == 13 && Ended(t.callbacks, COMPLETED))
  {
    hide Run, WorkCount, Quiet, Ended, AllRunning;
    StaysOnCourse(acts, entries, more);
    EndIsDone(Run(NEW_JOB, acts + Started(entries) + more));
    AlwaysRight(acts + Started(entries) + more);
  }

  /** What cancel finds once it has joined the worker. */
  lemma JoinedOutcome(acts: seq<Action>)
    requires Run(NEW_JOB, acts).controller == CancelCheck
    ensures var s := Run(NEW_JOB, acts);
      if s.worker == NoWorker then s.status == PENDING
      else s.worker == Done && if s.status == RUNNING then s.callbacks != [] && AllRunning(s.callbacks)
                               else s.status.Terminal() && Ended(s.callbacks, s.status)
  {
    AlwaysRight(acts);
    hide Run, Ended, AllRunning;
  }

  lemma RunStep(acts: seq<Action>, a: Action)
    ensures Run(NEW_JOB, acts + [a]) == Do(Run(NEW_JOB, acts), a)
  {
    TakeOfAppend(acts, a);
  }

  /** What cancel does after the join. */
  lemma SettleSteps(s: State, entries: nat)
    requires s.controller == CancelCheck
    ensures if s.status == RUNNING then
              && Do(s, Control(entries)) == s.(status := CANCELLED, controller := CancelCallback)
              && Do(s.(status := CANCELLED, controller := CancelCallback), Control(entries))
                   == s.(status := CANCELLED, callbacks := s.callbacks + [CANCELLED], controller := Idle, settled := true)
            else
              Do(s, Control(entries)) == s.(controller := Idle, settled := s.worker == Done)
  {
  }

  class BackupJob {
    var status: JobStatus
    var cancelled: bool
    var worker: Worker
    var joinable: bool
    var entries: nat
    var callbacks: seq<JobStatus>
    ghost var controller: Controller
    ghost var settled: bool
    ghost var trace: seq<Action>

    ghost function Current(): State
      reads this
    {
      State(status, cancelled, worker, joinable, controller, entries, callbacks, settled)
    }

    ghost predicate Valid()
      reads this
    {
      Current() == Run(NEW_JOB, trace)
    }

    constructor ()
      ensures Valid() && status == PENDING && controller == Idle && trace == []
    {
      status, cancelled, worker, joinable, entries, callbacks := PENDING, false, NoWorker, false, 0, [];
      controller, settled, trace := Idle, false, [];
    }

    /** Set the status, call back, start the worker. */
    method Start(entries: nat)
      requires Valid() && controller == Idle && !joinable
      modifies this
      ensures Valid() && controller == Idle && trace == old(trace) + [CallRun] + [Control(entries)] + [Control(entries)]
      ensures status == RUNNING && callbacks == [RUNNING] && worker == AtFlush && joinable
    {
      RunStep(trace, CallRun);
      RunStep(trace + [CallRun], Control(entries));
      RunStep(trace + [CallRun] + [Control(entries)], Control(entries));
      hide Run;
      status, callbacks := RUNNING, [];
      settled := false;
      callbacks := callbacks + [RUNNING];
      worker, joinable, this.entries := AtFlush, true, entries;
      trace := trace + [CallRun] + [Control(entries)] + [Control(entries)];
    }

    /** One statement of do_backup, with whatever its surroundings do to it. */
    method WorkerStep(choice: Choice)
      requires Valid() && worker != NoWorker && worker != Done
      modifies this
      ensures Valid() && trace == old(trace) + [Work(choice)]
      ensures cancelled == old(cancelled) && joinable == old(joinable) && controller == old(controller)
      ensures Current() == DoWork(old(Current()), choice)
    {
      hide Run;
      RunStep(trace, Work(choice));
      var next, news, result := worker, [], status;
      match worker {
        case AtFlush =>
          next := if choice == Throw then AtThrown else AtFirstCheck;
        case AtFirstCheck =>
          next := if cancelled then Done else AtScan(entries);
        case AtScan(left) =>
          next := if choice == Throw then AtThrown
                  else if left == 0 || (choice == Skip && cancelled) then AtCheck(REPORTS)
                  else AtScan(left - 1);
        case AtCheck(reports) =>
          next := if reports == 0 || cancelled then AtLastCheck else AtReport(reports - 1);
        case AtReport(reports) =>
          news, next := [RUNNING], AtCheck(reports);
        case AtLastCheck =>
          next := if cancelled then Done else AtComplete;
        case AtComplete =>
          result, next := COMPLETED, AtCompleteCallback;
        case AtCompleteCallback =>
          news, next := [COMPLETED], Done;
        case AtThrown =>
          result, next := FAILED, AtFailCallback;
        case AtFailCallback =>
          news, next := [FAILED], Done;
      }
      assert news == [] ==> callbacks + news == callbacks;
      worker, status, callbacks, trace := next, result, callbacks + news, trace + [Work(choice)];
    }

    /** Ask the worker to stop, wait for it wherever it is, and settle the status. It
        returns whatever the worker's surroundings do. */
    method Cancel()
      requires Valid() && controller == Idle
      modifies this
      ensures Valid() && controller == Idle && old(trace) <= trace && cancelled
      ensures if worker == NoWorker then status == PENDING
              else status.Terminal() && worker == Done && !joinable && settled && Ended(callbacks, status)
    {
      hide Run, Ended, AllRunning, DoWork;
      AskCancel();
      while joinable && worker != Done
        invariant Valid() && controller == CancelJoin && cancelled && old(trace) <= trace
        invariant joinable ==> worker != NoWorker
        decreases StepsLeft(Current())
      {
        var choice: Choice := *;
        WorkProgresses(Current(), choice);
        WorkerStep(choice);
      }
      Settle();
    }

    /** First statement of cancel. */
    method AskCancel()
      requires Valid() && controller == Idle
      modifies this`cancelled, this`controller, this`trace
      ensures Valid() && controller == CancelJoin && cancelled && old(trace) <= trace
      ensures joinable ==> worker != NoWorker
    {
      hide Run, Ended, AllRunning, DoWork;
      AlwaysRight(trace);
      RunStep(trace, CallCancel);
      cancelled, controller, trace := true, CancelJoin, trace + [CallCancel];
    }

    method LeaveJoin()
      requires Valid() && controller == CancelJoin && (joinable ==> worker == Done)
      modifies this`joinable, this`controller, this`trace
      ensures Valid() && controller == CancelCheck && !joinable && old(trace) <= trace
    {
      hide Run;
      RunStep(trace, Control(0));
      joinable, controller, trace := false, CancelCheck, trace + [Control(0)];
    }

    /** The rest of cancel, once the worker is through. */
    method Settle()
      requires Valid() && controller == CancelJoin && (joinable ==> worker == Done)
      modifies this`status, this`joinable, this`callbacks, this`controller, this`settled, this`trace
      ensures Valid() && controller == Idle && old(trace) <= trace
      ensures if worker == NoWorker then status == PENDING
              else status.Terminal() && worker == Done && !joinable && settled && Ended(callbacks, status)
    {
      hide Run, Ended, AllRunning, Right, Do;
      LeaveJoin();
      JoinedOutcome(trace);
      if status == RUNNING {
        TerminalAppend(callbacks, CANCELLED);
        ConfirmCancel();
      } else {
        SettleSteps(Current(), 0);
        RunStep(trace, Control(0));
        controller, settled, trace := Idle, worker == Done, trace + [Control(0)];
      }
    }

    /** The job was still running when its worker left: report it as cancelled. */
    method ConfirmCancel()
      requires Valid() && controller == CancelCheck && status == RUNNING
      modifies this`status, this`callbacks, this`controller, this`settled, this`trace
      ensures Valid() && controller == Idle && old(trace) <= trace
      ensures status == CANCELLED && callbacks == old(callbacks) + [CANCELLED] && settled
    {
      hide Run, Do;
      SettleSteps(Current(), 0);
      RunStep(trace, Control(0));
      RunStep(trace + [Control(0)], Control(0));
      status, callbacks, controller, settled := CANCELLED, callbacks + [CANCELLED], Idle, true;
      trace := trace + [Control(0)] + [Control(0)];
    }
  }
}
