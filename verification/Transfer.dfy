/** The checkpointed transfer as a step machine: one file, one checkpoint on disk, and any
    sequence of starts, cancels, crashes and worker steps. */
module Transfer {
  import opened Arithmetic
  import opened MachineTypes
  import opened Sequences
  import opened InputStreams

  const CHUNK: nat := 4 * 1024 * 1024

  /** The checkpoint file. Opening it for writing empties it first. */
  datatype Disk = Absent | Truncated | Holds(offset: nat)

  /** Where the worker is. Saving takes two steps, and so does the final clean-up. */
  datatype Pc =
    | NoWorker
    | AtStart
    | AtLoop
    | AtSave
    | AtWrite
    | AtFinish
    | AtFinishWrite
    | AtRemove
    | AtEnd
    | Finished

  /** Bytes lo, lo + 1, ..., hi - 1 were handled, either sent or skipped as zero. */
  datatype Piece = Piece(lo: nat, hi: nat)

  datatype State = State(
    disk: Disk,
    pc: Pc,
    ifs: InputStream,
    transferred: nat,
    cancelled: bool,
    running: bool,
    joinable: bool,
    cancelling: bool,
    // history: whether the loop was left because it saw the cancel flag; what was handled
    // so far; where this worker began, how many chunks it has
    // read, and the offset it last saved in its loop or, before that, loaded
    sawCancel: bool,
    log: seq<Piece>,
    start: nat,
    turns: nat,
    kept: nat)

  /** The source file (None if the path does not exist) and the configured interval, a
      32-bit signed number. */
  datatype Job = Job(file: Option<seq<byte>>, interval: int) {
    ghost predicate Valid() { -0x8000_0000 <= interval < 0x8000_0000 }

    function Data(): seq<byte> {
      if file.Some? then file.value else []
    }

    /** The interval as the unsigned modulus that the remainder is taken by. */
    function Modulus(): (m: nat)
      requires -0x8000_0000 <= interval < 0x8000_0000
      ensures m < TWO_64 && (m == interval || m == interval + TWO_64)
    {
      if interval < 0 then TWO_64 + interval else interval
    }
  }

  datatype Action = Start | Cancel | Join | Crash | Work

  // ---- Zero test ---------------------------------------------------------

  /** Whole 8-byte words only: up to seven trailing bytes are not looked at. */
  predicate ZeroWords(data: seq<byte>) {
    forall i :: 0 <= i < |data| / 8 * 8 ==> data[i] == 0
  }

  /** All whole words are zero: what lies behind the last of them is not looked at. */
  lemma ZeroWordsMeaning(data: seq<byte>)
    ensures ZeroWords(data) <==> forall i :: 0 <= i < |data| - |data| % 8 ==> data[i] == 0
  {
  }

  // ---- Steps -------------------------------------------------------------

  const FRESH: State :=
    State(Absent, NoWorker, OPENED, 0, false, false, false, false, false, [], 0, 0, 0)

  /** A new process: only the disk, and the history, survive. */
  function AfterCrash(s: State): State {
    FRESH.(disk := s.disk, log := s.log)
  }

  function LoadOffset(disk: Disk): nat {
    if disk.Holds? then disk.offset else 0
  }

  /** Loading the checkpoint, opening the file and seeking to the offset. */
  function DoStart(job: Job, s: State): State {
    if job.file.None? then s.(pc := Finished, running := false)
    else
      var offset := LoadOffset(s.disk);
      s.(pc := AtLoop, transferred := offset, start := offset, turns := 0, kept := offset,
         ifs := if offset > 0 then OPENED.AfterSeek(offset) else OPENED)
  }

  /** One turn of the transfer loop, up to the decision to save. A remainder by zero kills
      the process. */
  function DoLoop(job: Job, s: State): State
    requires job.Valid()
  {
    if s.ifs.failed then s.(pc := AtFinish)
    else if s.cancelled then s.(pc := AtFinish, sawCancel := true)
    else
      var buffer := s.ifs.Delivers(job.Data(), CHUNK);
      var bytes := |buffer|;
      var t := s.transferred + bytes;
      var after := s.(ifs := s.ifs.AfterRead(bytes, CHUNK));
      if bytes == 0 then after.(pc := AtFinish)
      else
        var handled := after.(transferred := t, log := s.log + [Piece(s.transferred, t)], turns := s.turns + 1);
        if ZeroWords(buffer) then handled
        else if job.interval == 0 then AfterCrash(handled)
        else if t % job.Modulus() < CHUNK then handled.(pc := AtSave)
        else handled
  }

  function DoWork(job: Job, s: State): State
    requires job.Valid()
  {
    match s.pc
    case NoWorker => s
    case AtStart => DoStart(job, s)
    case AtLoop => DoLoop(job, s)
    case AtSave => s.(disk := Truncated, pc := AtWrite)
    case AtWrite => s.(disk := Holds(s.transferred), pc := AtLoop, kept := s.transferred)
    case AtFinish => s.(disk := Truncated, pc := AtFinishWrite)
    case AtFinishWrite => s.(disk := Holds(0), pc := AtRemove)
    case AtRemove => s.(disk := Absent, pc := AtEnd)
    case AtEnd => s.(running := false, pc := Finished)
    case Finished => s
  }

  /** Every action is defined in every state; one that cannot happen changes nothing.
      Starting over a worker that was never joined terminates the process. */
  function Do(job: Job, s: State, a: Action): State
    requires job.Valid()
  {
    match a
    case Start =>
      if s.cancelling then s
      else if s.joinable then AfterCrash(s)
      else s.(pc := AtStart, cancelled := false, sawCancel := false, running := true, joinable := true, transferred := 0, ifs := OPENED)
    case Cancel => s.(cancelled := true, cancelling := true)
    case Join =>
      if s.cancelling && (s.pc == Finished || !s.joinable) then
        s.(joinable := false, running := false, cancelling := false, pc := NoWorker)
      else s
    case Crash => AfterCrash(s)
    case Work => DoWork(job, s)
  }

  function Run(job: Job, init: State, acts: seq<Action>): State
    requires job.Valid()
  {
    if acts == [] then init else Do(job, Run(job, init, acts[..|acts| - 1]), acts[|acts| - 1])
  }

  // ---- What is handled ---------------------------------------------------

  ghost predicate Handled(log: seq<Piece>, p: nat) {
    exists k :: 0 <= k < |log| && log[k].lo <= p < log[k].hi
  }

  ghost predicate HandledTo(log: seq<Piece>, n: nat) {
    forall p: nat :: p < n ==> Handled(log, p)
  }

  lemma HandledAppend(log: seq<Piece>, from: nat, to: nat)
    requires HandledTo(log, from)
    ensures HandledTo(log + [Piece(from, to)], from)
    ensures from <= to ==> HandledTo(log + [Piece(from, to)], to)
  {
    var after := log + [Piece(from, to)];
    forall p: nat | p < from || p < to ensures Handled(after, p) {
      if p < from {
        assert Handled(log, p);
        var k :| 0 <= k < |log| && log[k].lo <= p < log[k].hi;
        assert after[k] == log[k];
      } else {
        assert after[|log|] == Piece(from, to);
      }
    }
  }

  lemma HandledKept(log: seq<Piece>, piece: Piece, n: nat)
    requires HandledTo(log, n)
    ensures HandledTo(log + [piece], n)
  {
    forall p: nat | p < n ensures Handled(log + [piece], p) {
      assert Handled(log, p);
      var k :| 0 <= k < |log| && log[k].lo <= p < log[k].hi;
      assert (log + [piece])[k] == log[k];
    }
  }

  // ---- The invariant -----------------------------------------------------

  predicate InRun(pc: Pc) {
    pc != NoWorker && pc != AtStart
  }

  predicate Ending(pc: Pc) {
    pc == AtFinish || pc == AtFinishWrite || pc == AtRemove || pc == AtEnd || pc == Finished
  }

  /** Everything below the checkpoint on disk was handled. */
  ghost predicate CheckpointSound(job: Job, s: State) {
    s.disk.Holds? ==> s.disk.offset <= |job.Data()| && HandledTo(s.log, s.disk.offset)
  }

  /** The worker has handled everything below its counter, which follows the stream; when
      the loop has been left without a cancel, that is the whole file. */
  ghost predicate WorkerSound(job: Job, s: State) {
    && (InRun(s.pc) ==>
          && s.transferred <= |job.Data()| && HandledTo(s.log, s.transferred)
          && (job.file.Some? ==> if s.ifs.failed then s.transferred == |job.Data()| else s.ifs.pos == s.transferred))
    && (Ending(s.pc) && !s.sawCancel ==> s.transferred == |job.Data()|)
    && (s.sawCancel ==> s.cancelled && (Ending(s.pc) || s.pc == NoWorker))
    && (s.pc == AtStart ==> s.transferred == 0)
  }

  /** A worker that is through has removed the checkpoint. */
  ghost predicate Cleaned(s: State) {
    s.pc == AtEnd || s.pc == Finished ==> s.disk == Absent
  }

  ghost predicate Sound(job: Job, s: State) {
    CheckpointSound(job, s) && WorkerSound(job, s) && Cleaned(s) && (job.file.None? ==> s.disk == Absent && !(InRun(s.pc) && s.pc != Finished))
  }

  lemma LoopKeepsCheckpoint(job: Job, s: State)
    requires job.Valid() && CheckpointSound(job, s) && s.pc == AtLoop
    ensures CheckpointSound(job, DoLoop(job, s))
  {
    hide HandledTo, ZeroWords, Job.Modulus;
    if s.disk.Holds? {
      HandledKept(s.log, Piece(s.transferred, s.transferred + |s.ifs.Delivers(job.Data(), CHUNK)|), s.disk.offset);
    }
  }

  lemma LoopKeepsWorker(job: Job, s: State)
    requires job.Valid() && job.file.Some? && WorkerSound(job, s) && s.pc == AtLoop
    ensures WorkerSound(job, DoLoop(job, s))
  {
    hide HandledTo, ZeroWords, Job.Modulus;
    HandledAppend(s.log, s.transferred, s.transferred + |s.ifs.Delivers(job.Data(), CHUNK)|);
  }

  lemma LoopSound(job: Job, s: State)
    requires job.Valid() && Sound(job, s) && s.pc == AtLoop
    ensures Sound(job, DoLoop(job, s))
  {
    LoopKeepsCheckpoint(job, s);
    LoopKeepsWorker(job, s);
    hide CheckpointSound, WorkerSound, ZeroWords, Job.Modulus;
  }

  lemma WorkSound(job: Job, s: State)
    requires job.Valid() && Sound(job, s)
    ensures Sound(job, DoWork(job, s))
  {
    hide Handled;
    if s.pc == AtLoop {
      LoopSound(job, s);
    } else {
      hide DoLoop;
      assert s.pc == AtStart ==> HandledTo(s.log, 0);
      hide HandledTo;
    }
  }

  lemma StepSound(job: Job, s: State, a: Action)
    requires job.Valid() && Sound(job, s)
    ensures Sound(job, Do(job, s, a))
  {
    WorkSound(job, s);
    hide DoWork, HandledTo;
  }

  lemma {:induction false} AlwaysSound(job: Job, acts: seq<Action>)
    requires job.Valid()
    ensures Sound(job, Run(job, FRESH, acts))
  {
    if acts != [] {
      var front := Run(job, FRESH, acts[..|acts| - 1]);
      AlwaysSound(job, acts[..|acts| - 1]);
      StepSound(job, front, acts[|acts| - 1]);
      assert Run(job, FRESH, acts) == Do(job, front, acts[|acts| - 1]);
    }
  }

  /** Over any sequence of starts, cancels, crashes and steps: a checkpoint c on disk means
      every byte below c was handled, and a worker whose loop was not ended by a cancel has
      handled every byte of the file and counted all of them, even if one came later. */
  lemma CheckpointNeverLies(job: Job, acts: seq<Action>)
    requires job.Valid()
    ensures var s := Run(job, FRESH, acts);
      && (s.disk.Holds? ==> s.disk.offset <= |job.Data()| && HandledTo(s.log, s.disk.offset))
      && (Ending(s.pc) && !s.sawCancel ==> s.transferred == |job.Data()| && HandledTo(s.log, |job.Data()|))
      && (s.sawCancel ==> s.cancelled)
      && (s.pc == Finished ==> s.disk == Absent)
  {
    AlwaysSound(job, acts);
  }

  // ---- The schedule of one run -------------------------------------------

  /** Where a loop that began at `start` stands after k turns. */
  function Position(job: Job, start: nat, k: nat): nat {
    if k == 0 then start
    else Position(job, start, k - 1) + |Window(job.Data(), Position(job, start, k - 1), CHUNK)|
  }

  /** Turn j ends with a save: its chunk is not zero and ends soon enough behind a multiple
      of the interval. */
  predicate Saves(job: Job, start: nat, j: nat)
    requires job.Valid() && job.interval != 0
  {
    && !ZeroWords(Window(job.Data(), Position(job, start, j), CHUNK))
    && Position(job, start, j + 1) % job.Modulus() < CHUNK
  }

  /** The offset last saved, or else loaded, after k turns. */
  function Kept(job: Job, start: nat, k: nat): nat
    requires job.Valid() && job.interval != 0
  {
    if k == 0 then start
    else if Saves(job, start, k - 1) then Position(job, start, k)
    else Kept(job, start, k - 1)
  }

  /** Turns whose checkpoint, if any, is complete. */
  function TurnsKept(s: State): nat {
    if (s.pc == AtSave || s.pc == AtWrite) && s.turns > 0 then s.turns - 1 else s.turns
  }

  /** The worker's counter and stream are those of the schedule, ... */
  ghost predicate StreamOnSchedule(job: Job, s: State) {
    && s.transferred == Position(job, s.start, s.turns)
    && (s.turns > 0 ==> Position(job, s.start, s.turns - 1) < |job.Data()|)
    && (if s.ifs.failed then s.transferred >= |job.Data()| else s.ifs.pos == s.transferred)
  }

  /** ... and so is the last save. */
  ghost predicate SaveOnSchedule(job: Job, s: State)
    requires job.Valid() && job.interval != 0
  {
    && s.kept == Kept(job, s.start, TurnsKept(s))
    && (s.pc == AtSave || s.pc == AtWrite ==> s.turns > 0 && Saves(job, s.start, s.turns - 1))
  }

  ghost predicate OnSchedule(job: Job, s: State)
    requires job.Valid() && job.interval != 0
  {
    job.file.Some? && InRun(s.pc) ==> StreamOnSchedule(job, s) && SaveOnSchedule(job, s)
  }

  /** What a restart would find. */
  ghost predicate DiskRight(job: Job, s: State) {
    job.file.Some? && InRun(s.pc) ==>
      match s.pc
      case AtWrite => s.disk == Truncated
      case AtFinishWrite => s.disk == Truncated
      case AtRemove => s.disk == Holds(0)
      case AtEnd => s.disk == Absent
      case Finished => s.disk == Absent
      case _ => LoadOffset(s.disk) == s.kept
  }

  lemma LoopKeepsStream(job: Job, s: State)
    requires job.Valid() && job.interval != 0 && job.file.Some? && StreamOnSchedule(job, s) && s.pc == AtLoop
    ensures StreamOnSchedule(job, DoLoop(job, s))
  {
    hide ZeroWords, Window, Position, Kept, Saves, Job.Modulus, Job.Data;
    TurnStep(job, s.start, s.turns);
  }

  /** A turn either leaves the loop or is the schedule's next one. */
  lemma LoopOutcome(job: Job, s: State)
    requires job.Valid() && job.interval != 0 && job.file.Some? && StreamOnSchedule(job, s) && s.pc == AtLoop
    ensures var after := DoLoop(job, s);
      && after.start == s.start && after.kept == s.kept
      && if after.turns == s.turns then after.pc == AtFinish
         else after.turns == s.turns + 1 && after.pc == if Saves(job, s.start, s.turns) then AtSave else AtLoop
  {
    TurnStep(job, s.start, s.turns);
    hide ZeroWords, Window, Position, Kept, Saves, Job.Modulus;
  }

  lemma LoopKeepsSave(job: Job, s: State)
    requires job.Valid() && job.interval != 0 && job.file.Some? && StreamOnSchedule(job, s) && s.pc == AtLoop
    requires SaveOnSchedule(job, s)
    ensures SaveOnSchedule(job, DoLoop(job, s))
  {
    LoopOutcome(job, s);
    KeptStep(job, s.start, s.turns);
    hide DoLoop, StreamOnSchedule, ZeroWords, Window, Position, Kept, Saves, Job.Modulus;
  }

  lemma LoopOnSchedule(job: Job, s: State)
    requires job.Valid() && job.interval != 0 && OnSchedule(job, s) && s.pc == AtLoop
    ensures OnSchedule(job, DoLoop(job, s))
  {
    if job.file.Some? {
      LoopKeepsStream(job, s);
      LoopKeepsSave(job, s);
      hide DoLoop, StreamOnSchedule, SaveOnSchedule;
    }
  }

  lemma KeptStep(job: Job, start: nat, k: nat)
    requires job.Valid() && job.interval != 0
    ensures Kept(job, start, k + 1) == if Saves(job, start, k) then Position(job, start, k + 1) else Kept(job, start, k)
  {
  }

  lemma TurnStep(job: Job, start: nat, k: nat)
    requires job.Valid() && job.interval != 0
    ensures var w := Window(job.Data(), Position(job, start, k), CHUNK);
      && Position(job, start, k + 1) == Position(job, start, k) + |w|
      && (Saves(job, start, k) <==> !ZeroWords(w) && Position(job, start, k + 1) % job.Modulus() < CHUNK)
  {
    hide ZeroWords, Window, Job.Modulus;
  }

  lemma WriteOnSchedule(job: Job, s: State)
    requires job.Valid() && job.interval != 0 && OnSchedule(job, s) && (s.pc == AtSave || s.pc == AtWrite)
    ensures OnSchedule(job, DoWork(job, s))
  {
    hide DoLoop, DoStart, ZeroWords, Window, Position, Kept, Saves, Job.Modulus, Job.Data;
    if s.turns > 0 { KeptStep(job, s.start, s.turns - 1); }
  }

  lemma StartOnSchedule(job: Job, s: State)
    requires job.Valid() && job.interval != 0 && s.pc == AtStart
    ensures OnSchedule(job, DoWork(job, s))
  {
    assert Kept(job, LoadOffset(s.disk), 0) == Position(job, LoadOffset(s.disk), 0) == LoadOffset(s.disk);
    hide DoLoop, ZeroWords, Window, Position, Kept, Saves, Job.Modulus;
  }

  lemma WorkOnSchedule(job: Job, s: State)
    requires job.Valid() && job.interval != 0 && OnSchedule(job, s)
    ensures OnSchedule(job, DoWork(job, s))
  {
    match s.pc {
      case AtStart => StartOnSchedule(job, s);
      case AtLoop => LoopWorks(job, s); hide DoWork, OnSchedule; LoopOnSchedule(job, s);
      case AtSave => hide OnSchedule, DoWork; WriteOnSchedule(job, s);
      case AtWrite => hide OnSchedule, DoWork; WriteOnSchedule(job, s);
      case _ => RestOnSchedule(job, s); hide OnSchedule, DoWork;
    }
  }

  lemma LoopWorks(job: Job, s: State)
    requires job.Valid() && s.pc == AtLoop
    ensures DoWork(job, s) == DoLoop(job, s)
  {
    hide DoLoop;
  }

  lemma RestOnSchedule(job: Job, s: State)
    requires job.Valid() && job.interval != 0 && OnSchedule(job, s)
    requires s.pc !in {AtStart, AtLoop, AtSave, AtWrite}
    ensures OnSchedule(job, DoWork(job, s))
  {
    hide Kept, Position, Saves, DoWork;
    RestStep(job, s);
  }

  lemma RestStep(job: Job, s: State)
    requires job.Valid() && s.pc !in {AtStart, AtLoop, AtSave, AtWrite}
    ensures var after := DoWork(job, s);
      && after == s.(pc := after.pc, disk := after.disk, running := after.running)
      && after.pc !in {AtSave, AtWrite} && (InRun(after.pc) ==> InRun(s.pc))
  {
    hide DoLoop, DoStart;
  }

  lemma StepOnSchedule(job: Job, s: State, a: Action)
    requires job.Valid() && job.interval != 0 && OnSchedule(job, s)
    ensures OnSchedule(job, Do(job, s, a))
  {
    if a == Work {
      hide DoWork, OnSchedule;
      WorkOnSchedule(job, s);
    } else {
      hide DoWork, Kept, Position, Saves, Job.Modulus;
    }
  }

  lemma LoopDiskRight(job: Job, s: State)
    requires job.Valid() && DiskRight(job, s) && s.pc == AtLoop
    ensures DiskRight(job, DoLoop(job, s))
  {
    hide ZeroWords, Window, Job.Modulus, Job.Data;
  }

  lemma StepDiskRight(job: Job, s: State, a: Action)
    requires job.Valid() && DiskRight(job, s)
    ensures DiskRight(job, Do(job, s, a))
  {
    if a == Work && s.pc == AtLoop {
      LoopWorks(job, s);
      hide DoWork, DoLoop, DiskRight;
      LoopDiskRight(job, s);
    } else {
      hide DoLoop;
    }
  }

  /** A process that finds some checkpoint on disk, and what then happens to it. */
  function RunFrom(job: Job, disk: Disk, acts: seq<Action>): State
    requires job.Valid()
  {
    Run(job, FRESH.(disk := disk), acts)
  }

  lemma RunFromStep(job: Job, disk: Disk, acts: seq<Action>)
    requires job.Valid() && acts != []
    ensures RunFrom(job, disk, acts) == Do(job, RunFrom(job, disk, acts[..|acts| - 1]), acts[|acts| - 1])
  {
  }

  lemma {:induction false} AlwaysOnSchedule(job: Job, disk: Disk, acts: seq<Action>)
    requires job.Valid()
    ensures DiskRight(job, RunFrom(job, disk, acts))
    ensures job.interval != 0 ==> OnSchedule(job, RunFrom(job, disk, acts))
  {
    if acts != [] {
      var front, a := RunFrom(job, disk, acts[..|acts| - 1]), acts[|acts| - 1];
      AlwaysOnSchedule(job, disk, acts[..|acts| - 1]);
      RunFromStep(job, disk, acts);
      hide RunFrom, OnSchedule, DiskRight, Do;
      if job.interval != 0 { StepOnSchedule(job, front, a); }
      StepDiskRight(job, front, a);
    }
  }

  /** Some byte of the whole words between lo and hi is not zero. */
  predicate HasData(data: seq<byte>, lo: nat, hi: nat)
    requires lo <= hi <= |data|
  {
    exists p :: lo <= p < hi - (hi - lo) % 8 && data[p] != 0
  }

  /** Where checkpoints come, in every run: at a loop head behind a turn, the chunk was a
      full one or the rest of the file, and the checkpoint stands at its end if and only if
      some byte of its whole words was not zero and the end lies less than 4194304 bytes
      behind a multiple of the interval. */
  lemma SavedExactly(job: Job, disk: Disk, acts: seq<Action>)
    requires job.Valid() && job.interval != 0 && job.file.Some?
    ensures var s := RunFrom(job, disk, acts);
      s.pc == AtLoop && s.turns > 0 ==>
        var lo, hi, data := Position(job, s.start, s.turns - 1), s.transferred, job.Data();
        && lo < hi <= |data| && hi - lo <= 4194304 && (hi - lo < 4194304 ==> hi == |data|)
        && (LoadOffset(s.disk) == hi <==> hi % job.Modulus() < 4194304 && HasData(data, lo, hi))
  {
    hide RunFrom, OnSchedule, DiskRight, Position, HasData, Job.Modulus, Job.Data, LoadOffset;
    var s := RunFrom(job, disk, acts);
    AlwaysOnSchedule(job, disk, acts);
    if s.pc == AtLoop && s.turns > 0 {
      TurnSaves(job, s);
    }
  }

  lemma TurnSaves(job: Job, s: State)
    requires job.Valid() && job.interval != 0 && job.file.Some? && OnSchedule(job, s) && DiskRight(job, s)
    requires s.pc == AtLoop && s.turns > 0
    ensures var lo, hi, data := Position(job, s.start, s.turns - 1), s.transferred, job.Data();
      && lo < hi <= |data| && hi - lo <= 4194304 && (hi - lo < 4194304 ==> hi == |data|)
      && (LoadOffset(s.disk) == hi <==> hi % job.Modulus() < 4194304 && HasData(data, lo, hi))
  {
    hide Position, Kept, Saves, Job.Modulus, ZeroWords, Window, HasData, Job.Data;
    var lo, hi, data := Position(job, s.start, s.turns - 1), s.transferred, job.Data();
    TurnStep(job, s.start, s.turns - 1);
    KeptStep(job, s.start, s.turns - 1);
    KeptIsLast(job, s.start, s.turns - 1);
    WindowIsSlice(data, lo);
    ZeroSlice(data, lo, hi);
  }

  lemma WindowIsSlice(data: seq<byte>, lo: nat)
    requires lo < |data|
    ensures var w := Window(data, lo, CHUNK);
      0 < |w| <= 4194304 && lo + |w| <= |data| && w == data[lo..lo + |w|] && (|w| < 4194304 ==> lo + |w| == |data|)
  {
  }

  lemma ZeroSlice(data: seq<byte>, lo: nat, hi: nat)
    requires lo <= hi <= |data|
    ensures ZeroWords(data[lo..hi]) <==> !HasData(data, lo, hi)
  {
    var w := data[lo..hi];
    ZeroWordsMeaning(w);
    hide ZeroWords;
    if HasData(data, lo, hi) {
      var p :| lo <= p < hi - (hi - lo) % 8 && data[p] != 0;
      assert w[p - lo] == data[p];
    }
    if !ZeroWords(w) {
      var i :| 0 <= i < |w| - |w| % 8 && w[i] != 0;
      assert data[lo + i] == w[i];
    }
  }

  // ---- What a cancelled worker still does --------------------------------

  /** How many statements a cancelled worker has left, at most. */
  function PcsLeft(pc: Pc): nat {
    match pc
    case NoWorker => 0
    case AtStart => 8
    case AtSave => 7
    case AtWrite => 6
    case AtLoop => 5
    case AtFinish => 4
    case AtFinishWrite => 3
    case AtRemove => 2
    case AtEnd => 1
    case Finished => 0
  }

  function WorkCount(acts: seq<Action>): nat {
    if acts == [] then 0 else WorkCount(acts[..|acts| - 1]) + if acts[|acts| - 1] == Work then 1 else 0
  }

  lemma StepAfterCancel(job: Job, s: State, a: Action)
    requires job.Valid() && s.cancelled && a != Start && a != Crash
    ensures var t := Do(job, s, a);
      && t.cancelled && t.log == s.log
      && PcsLeft(t.pc) <= PcsLeft(s.pc)
      && (a == Work && PcsLeft(s.pc) > 0 ==> PcsLeft(t.pc) < PcsLeft(s.pc))
  {
    if a == Work && s.pc == AtLoop {
      LoopWorks(job, s);
      hide DoWork, ZeroWords, Window, Job.Modulus, Job.Data;
    } else {
      hide DoLoop;
    }
  }

  lemma {:induction false} AfterCancel(job: Job, disk: Disk, acts: seq<Action>, more: seq<Action>)
    requires job.Valid() && RunFrom(job, disk, acts).cancelled && Start !in more && Crash !in more
    ensures var s, t := RunFrom(job, disk, acts), RunFrom(job, disk, acts + more);
      && t.cancelled && t.log == s.log
      && (PcsLeft(t.pc) == 0 || PcsLeft(t.pc) + WorkCount(more) <= PcsLeft(s.pc))
  {
    hide RunFrom, Do, PcsLeft;
    if more == [] {
      AppendNothing(acts, more);
    } else {
      var n := |more| - 1;
      AfterCancel(job, disk, acts, more[..n]);
      InitOfAppend(acts, more);
      RunFromStep(job, disk, acts + more);
      StepAfterCancel(job, RunFrom(job, disk, acts + more[..n]), more[n]);
    }
  }

  /** In every run, once the cancel flag is set nothing more is handled, and after eight
      steps of its own the worker has ended. */
  lemma CancelStops(job: Job, disk: Disk, acts: seq<Action>, more: seq<Action>)
    requires job.Valid() && RunFrom(job, disk, acts).cancelled && Start !in more && Crash !in more
    ensures RunFrom(job, disk, acts + more).log == RunFrom(job, disk, acts).log
    ensures WorkCount(more) >= 8 ==> RunFrom(job, disk, acts + more).pc in {NoWorker, Finished}
  {
    AfterCancel(job, disk, acts, more);
    hide RunFrom, WorkCount;
  }

  // ---- Resuming ----------------------------------------------------------

  /** The state in which the run after a crash enters its loop. */
  function Restarted(job: Job, s: State): State
    requires job.Valid()
  {
    Do(job, Do(job, Do(job, s, Crash), Start), Work)
  }

  /** What a crash costs, in every run: nothing handled is forgotten, and the next worker
      goes on at the last offset that the crashed one saved or loaded, if and only if the
      crash did not fall between the two steps of a save or into the clean-up, or that
      offset was 0 anyway. Otherwise it begins at 0. */
  lemma CrashLoses(job: Job, disk: Disk, acts: seq<Action>)
    requires job.Valid() && job.file.Some? && InRun(RunFrom(job, disk, acts).pc)
    ensures var s := RunFrom(job, disk, acts); var again := Restarted(job, s);
      && again.pc == AtLoop && again.log == s.log
      && (job.interval != 0 ==> s.kept == Kept(job, s.start, TurnsKept(s)))
      && (again.transferred == s.kept <==>
            s.kept == 0 || s.pc !in {AtWrite, AtFinishWrite, AtRemove, AtEnd, Finished})
      && (again.transferred != s.kept ==> again.transferred == 0)
  {
    AlwaysOnSchedule(job, disk, acts);
    hide RunFrom, Kept, Position;
  }

  /** A join waits for the worker's end, so a transfer that was cancelled and joined keeps no
      checkpoint: the next one begins at 0, whatever was handled before. */
  lemma CancelForgets(job: Job, acts: seq<Action>)
    requires job.Valid() && job.file.Some?
    ensures var s := Run(job, FRESH, acts); var joined := Do(job, s, Join);
      s.joinable && !joined.joinable ==>
        s.pc == Finished && joined.disk == Absent && Do(job, Do(job, joined, Start), Work).transferred == 0
  {
    AlwaysSound(job, acts);
    hide Run;
  }

  // ---- How far the checkpoint lags behind --------------------------------

  /** After k turns: fewer bytes than the interval since the start, or since the end of
      some turn that saved. */
  ghost predicate KeepsUp(job: Job, start: nat, k: nat)
    requires job.Valid() && job.interval != 0
  {
    || Position(job, start, k) < start + job.Modulus()
    || exists j :: 0 <= j < k && Saves(job, start, j)
         && Position(job, start, k) < Position(job, start, j + 1) + job.Modulus()
  }

  lemma {:induction false} PositionGrows(job: Job, start: nat, j: nat, k: nat)
    requires j <= k
    ensures Position(job, start, j) <= Position(job, start, k)
  {
    if j < k { PositionGrows(job, start, j, k - 1); }
  }

  /** The last save lies at or behind every save, and is one of them or the start. */
  lemma {:induction false} KeptIsLast(job: Job, start: nat, k: nat)
    requires job.Valid() && job.interval != 0
    ensures start <= Kept(job, start, k) <= Position(job, start, k)
    ensures forall j :: 0 <= j < k && Saves(job, start, j) ==> Position(job, start, j + 1) <= Kept(job, start, k)
    ensures Kept(job, start, k) == start
      || exists j :: 0 <= j < k && Saves(job, start, j) && Position(job, start, j + 1) == Kept(job, start, k)
  {
    hide Saves;
    if k > 0 {
      KeptIsLast(job, start, k - 1);
      PositionGrows(job, start, 0, k);
      forall j | 0 <= j < k && Saves(job, start, j)
        ensures Position(job, start, j + 1) <= Kept(job, start, k)
      {
        PositionGrows(job, start, j + 1, k);
      }
    }
  }

  lemma LagIsKeepsUp(job: Job, start: nat, k: nat)
    requires job.Valid() && job.interval != 0
    ensures Position(job, start, k) < Kept(job, start, k) + job.Modulus() <==> KeepsUp(job, start, k)
  {
    KeptIsLast(job, start, k);
    hide Position, Kept, Saves, Job.Modulus;
  }

  /** Whatever crashes, cancels and restarts there were, at every loop head: fewer bytes
      than the interval lie between the checkpoint on disk and the counter if and only if
      the current run keeps up. */
  lemma CheckpointLag(job: Job, disk: Disk, acts: seq<Action>)
    requires job.Valid() && job.interval != 0
    ensures var s := RunFrom(job, disk, acts);
      job.file.Some? && s.pc == AtLoop ==>
        && LoadOffset(s.disk) <= s.transferred
        && (s.transferred < LoadOffset(s.disk) + job.Modulus() <==> KeepsUp(job, s.start, s.turns))
  {
    AlwaysOnSchedule(job, disk, acts);
    var s := RunFrom(job, disk, acts);
    KeptIsLast(job, s.start, s.turns);
    LagIsKeepsUp(job, s.start, s.turns);
    hide RunFrom, KeepsUp, Position, Kept, Saves, Job.Modulus;
  }

  // ---- Runs without a crash or a cancel ----------------------------------

  function Works(n: nat): seq<Action> {
    seq(n, _ => Work)
  }

  /** A worker started on this checkpoint, n steps later. */
  function Undisturbed(job: Job, disk: Disk, n: nat): State
    requires job.Valid()
  {
    RunFrom(job, disk, [Start] + Works(n))
  }

  lemma UndisturbedStep(job: Job, disk: Disk, n: nat)
    requires job.Valid()
    ensures Undisturbed(job, disk, n + 1) == DoWork(job, Undisturbed(job, disk, n))
    ensures Undisturbed(job, disk, 0) == Do(job, FRESH.(disk := disk), Start)
  {
    var acts := [Start] + Works(n + 1);
    RunFromStep(job, disk, acts);
    assert acts[..|acts| - 1] == [Start] + Works(n);
    RunFromStep(job, disk, [Start] + Works(0));
    assert ([Start] + Works(0))[..0] == [];
    hide DoWork;
  }

  lemma {:induction false} UndisturbedStart(job: Job, disk: Disk, n: nat)
    requires job.Valid() && job.interval != 0 && job.file.Some?
    ensures var s := Undisturbed(job, disk, n);
      && !s.cancelled && s.pc != NoWorker
      && (if s.pc == AtStart then s.disk == disk else s.start == LoadOffset(disk))
  {
    hide Undisturbed, DoWork;
    if n == 0 {
      UndisturbedStep(job, disk, 0);
    } else {
      UndisturbedStart(job, disk, n - 1);
      UndisturbedStep(job, disk, n - 1);
      WorkKeepsStart(job, Undisturbed(job, disk, n - 1));
    }
  }

  lemma WorkKeepsStart(job: Job, s: State)
    requires job.Valid() && job.interval != 0 && job.file.Some? && s.pc != NoWorker
    ensures var after := DoWork(job, s);
      && after.cancelled == s.cancelled && after.pc != NoWorker && after.pc != AtStart
      && after.start == if s.pc == AtStart then LoadOffset(s.disk) else s.start
  {
    if s.pc == AtLoop {
      LoopWorks(job, s);
      LoopKeepsStart(job, s);
      hide DoWork, DoLoop;
    } else {
      hide DoLoop;
    }
  }

  lemma LoopKeepsStart(job: Job, s: State)
    requires job.Valid() && job.interval != 0 && s.pc == AtLoop
    ensures var after := DoLoop(job, s);
      after.cancelled == s.cancelled && after.pc != NoWorker && after.pc != AtStart && after.start == s.start
  {
    hide ZeroWords, Window, Job.Modulus, Job.Data;
  }

  /** The schedule has a k-th turn's end: the turn found something to read. */
  predicate HasHead(job: Job, start: nat, k: nat) {
    k > 0 ==> Position(job, start, k - 1) < |job.Data()|
  }

  /** The worker comes to every loop head that the schedule has. */
  lemma {:induction false} ReachesHead(job: Job, disk: Disk, k: nat) returns (n: nat)
    requires job.Valid() && job.interval != 0 && job.file.Some?
    requires HasHead(job, LoadOffset(disk), k)
    ensures Undisturbed(job, disk, n).pc == AtLoop && Undisturbed(job, disk, n).turns == k
  {
    hide RunFrom, Position, OnSchedule, DiskRight, DoLoop, Works;
    if k == 0 {
      hide Undisturbed;
      n := 1;
      UndisturbedStep(job, disk, 0);
    } else {
      if k > 1 { PositionGrows(job, LoadOffset(disk), k - 2, k - 1); }
      var before := ReachesHead(job, disk, k - 1);
      AlwaysOnSchedule(job, disk, [Start] + Works(before));
      var s := Undisturbed(job, disk, before);
      assert OnSchedule(job, s);
      hide Undisturbed, DoWork;
      UndisturbedStart(job, disk, before);
      TurnReachesHead(job, s);
      UndisturbedStep(job, disk, before);
      UndisturbedStep(job, disk, before + 1);
      UndisturbedStep(job, disk, before + 2);
      n := if DoWork(job, s).pc == AtLoop then before + 1 else before + 3;
    }
  }

  lemma TurnReachesHead(job: Job, s: State)
    requires job.Valid() && job.interval != 0 && job.file.Some? && OnSchedule(job, s)
    requires s.pc == AtLoop && !s.cancelled && Position(job, s.start, s.turns) < |job.Data()|
    ensures var one := DoWork(job, s);
      one.turns == s.turns + 1 &&
      if one.pc == AtLoop then true
      else var three := DoWork(job, DoWork(job, one)); three.pc == AtLoop && three.turns == s.turns + 1
  {
    hide ZeroWords, Position, Job.Modulus;
  }

  lemma HeadExists(job: Job, disk: Disk, n: nat)
    requires job.Valid() && job.interval != 0 && job.file.Some?
    ensures var s := Undisturbed(job, disk, n);
      s.pc == AtLoop ==> HasHead(job, s.start, s.turns)
  {
    AlwaysOnSchedule(job, disk, [Start] + Works(n));
    assert OnSchedule(job, Undisturbed(job, disk, n));
    hide Undisturbed, Position, Kept;
  }

  /** A worker that is left alone stays within the interval at every loop head if and only
      if, for every position the loop reaches an interval or more behind its start, some
      chunk within the last interval was not zero and ended where a save is due. */
  lemma LagExactly(job: Job, disk: Disk)
    requires job.Valid() && job.interval != 0 && job.file.Some?
    ensures
      (forall n: nat :: var s := Undisturbed(job, disk, n);
         s.pc == AtLoop ==> s.transferred < LoadOffset(s.disk) + job.Modulus())
      <==>
      (forall k: nat :: HasHead(job, LoadOffset(disk), k) ==> KeepsUp(job, LoadOffset(disk), k))
  {
    hide RunFrom, Works, KeepsUp, HasHead, Position, OnSchedule, DiskRight, Job.Modulus;
    var start := LoadOffset(disk);
    forall n: nat
      ensures var s := Undisturbed(job, disk, n);
        s.pc == AtLoop ==>
          && (s.transferred < LoadOffset(s.disk) + job.Modulus() <==> KeepsUp(job, start, s.turns))
          && HasHead(job, start, s.turns)
    {
      CheckpointLag(job, disk, [Start] + Works(n));
      UndisturbedStart(job, disk, n);
      HeadExists(job, disk, n);
    }
    hide Undisturbed;
    forall k: nat | HasHead(job, start, k)
      ensures exists n: nat :: Undisturbed(job, disk, n).pc == AtLoop && Undisturbed(job, disk, n).turns == k
    {
      var n := ReachesHead(job, disk, k);
    }
  }

  // ---- Files without zero chunks -----------------------------------------

  /** Positions are whole chunks away from the start of the file or from the first
      checkpoint, until the end of the file. */
  predicate OnGrid(job: Job, first: nat, x: nat) {
    x >= |job.Data()| || x % CHUNK == 0 || (x >= first && (x - first) % CHUNK == 0)
  }

  predicate Crosses(m: nat, from: nat, to: nat)
    requires m > 0
  {
    from / m != to / m
  }

  /** No chunk that a run can read is zero, or else it stays inside its interval. */
  ghost predicate NoZeroChunk(job: Job, first: nat)
    requires job.Valid() && job.interval != 0
  {
    forall p: nat :: p < |job.Data()| && OnGrid(job, first, p) ==>
      var w := Window(job.Data(), p, CHUNK);
      !ZeroWords(w) || !Crosses(job.Modulus(), p, p + |w|)
  }

  lemma GridStep(job: Job, first: nat, x: nat)
    requires OnGrid(job, first, x)
    ensures OnGrid(job, first, x + |Window(job.Data(), x, CHUNK)|)
  {
  }

  lemma {:induction false} PositionOnGrid(job: Job, first: nat, start: nat, k: nat)
    requires OnGrid(job, first, start)
    ensures OnGrid(job, first, Position(job, start, k))
  {
    if k > 0 {
      PositionOnGrid(job, first, start, k - 1);
      GridStep(job, first, Position(job, start, k - 1));
      hide OnGrid;
    }
  }

  /** A turn that does not save although its chunk is not zero stays inside its interval. */
  lemma UnsavedStaysInside(m: nat, from: nat, to: nat)
    requires m > 0 && from <= to <= from + CHUNK && to % m >= CHUNK
    ensures !Crosses(m, from, to)
  {
    DivStepBack(to, to - from, m);
  }

  lemma UnsavedTurn(job: Job, first: nat, start: nat, j: nat)
    requires job.Valid() && job.interval != 0 && NoZeroChunk(job, first) && OnGrid(job, first, start)
    requires !Saves(job, start, j)
    ensures !Crosses(job.Modulus(), Position(job, start, j), Position(job, start, j + 1))
  {
    var p := Position(job, start, j);
    PositionOnGrid(job, first, start, j);
    var w := Window(job.Data(), p, CHUNK);
    assert Position(job, start, j + 1) == p + |w|;
    hide Position, OnGrid;
    if p < |job.Data()| && !ZeroWords(w) { UnsavedStaysInside(job.Modulus(), p, p + |w|); }
  }

  lemma {:induction false} KeptInSameInterval(job: Job, first: nat, start: nat, k: nat)
    requires job.Valid() && job.interval != 0 && NoZeroChunk(job, first) && OnGrid(job, first, start)
    ensures !Crosses(job.Modulus(), Kept(job, start, k), Position(job, start, k))
  {
    if k > 0 {
      KeptInSameInterval(job, first, start, k - 1);
      if !Saves(job, start, k - 1) { UnsavedTurn(job, first, start, k - 1); }
      hide Saves, NoZeroChunk, OnGrid, Job.Modulus;
    }
  }

  /** Where the worker may stand, and where it may resume. */
  ghost predicate Gridded(job: Job, first: nat, s: State) {
    OnGrid(job, first, LoadOffset(s.disk))
    && (InRun(s.pc) && job.file.Some? ==> OnGrid(job, first, s.start) && OnGrid(job, first, s.transferred))
  }

  lemma LoopGridded(job: Job, first: nat, s: State)
    requires job.Valid() && job.interval != 0 && job.file.Some? && OnSchedule(job, s) && s.pc == AtLoop
    requires Gridded(job, first, s)
    ensures Gridded(job, first, DoLoop(job, s))
  {
    GridStep(job, first, s.transferred);
    hide OnGrid, ZeroWords, Window, Job.Modulus, Position, Kept, Saves;
  }

  lemma StepGridded(job: Job, first: nat, s: State, a: Action)
    requires job.Valid() && job.interval != 0 && OnSchedule(job, s) && Gridded(job, first, s)
    ensures Gridded(job, first, Do(job, s, a))
  {
    hide OnGrid, OnSchedule, DoLoop;
    if a == Work && s.pc == AtLoop {
      LoopWorks(job, s);
      if job.file.Some? { LoopGridded(job, first, s); } else { LoopLeavesDisk(job, s); }
    } else {
      ZeroOnGrid(job, first, s.transferred);
    }
  }

  lemma ZeroOnGrid(job: Job, first: nat, x: nat)
    ensures OnGrid(job, first, 0)
    ensures job.file.None? ==> OnGrid(job, first, x)
  {
  }

  lemma LoopLeavesDisk(job: Job, s: State)
    requires job.Valid()
    ensures DoLoop(job, s).disk == s.disk
  {
  }

  lemma {:induction false} AlwaysGridded(job: Job, disk: Disk, acts: seq<Action>)
    requires job.Valid() && job.interval != 0
    ensures Gridded(job, LoadOffset(disk), RunFrom(job, disk, acts))
  {
    if acts != [] {
      var front, a := RunFrom(job, disk, acts[..|acts| - 1]), acts[|acts| - 1];
      AlwaysGridded(job, disk, acts[..|acts| - 1]);
      AlwaysOnSchedule(job, disk, acts[..|acts| - 1]);
      RunFromStep(job, disk, acts);
      hide RunFrom, OnSchedule, DiskRight, Gridded, Do;
      StepGridded(job, LoadOffset(disk), front, a);
    }
  }

  /** Without zero chunks at the positions that a run can come to, the bound holds at every
      loop head, for any first checkpoint and over any crashes, cancels and restarts. */
  lemma LagWithoutZeroChunks(job: Job, disk: Disk, acts: seq<Action>)
    requires job.Valid() && job.interval != 0 && NoZeroChunk(job, LoadOffset(disk))
    ensures var s := RunFrom(job, disk, acts);
      job.file.Some? && s.pc == AtLoop ==>
        LoadOffset(s.disk) <= s.transferred < LoadOffset(s.disk) + job.Modulus()
  {
    var s := RunFrom(job, disk, acts);
    AlwaysGridded(job, disk, acts);
    AlwaysOnSchedule(job, disk, acts);
    hide RunFrom;
    if job.file.Some? && s.pc == AtLoop {
      KeptIsLast(job, s.start, s.turns);
      KeptInSameInterval(job, LoadOffset(disk), s.start, s.turns);
      hide NoZeroChunk, OnGrid, Position, Kept, Saves, Job.Modulus;
      SameQuotientClose(s.kept, s.transferred, job.Modulus());
    }
  }

  /** Two zero chunks at an interval of one chunk: nothing is saved. */
  lemma ZeroChunksOutrun()
    ensures var job := Job(Some(seq(2 * CHUNK, _ => 0)), CHUNK);
      job.Valid() &&
      var s := Do(job, Do(job, Do(job, Do(job, FRESH, Start), Work), Work), Work);
      s.pc == AtLoop && s.disk == Absent && s.transferred == 2 * CHUNK
  {
    var data: seq<byte> := seq(2 * CHUNK, _ => 0);
    var job := Job(Some(data), CHUNK);
    assert ZeroWords(Window(data, 0, CHUNK));
    assert ZeroWords(Window(data, CHUNK, CHUNK));
    hide ZeroWords;
  }
}
