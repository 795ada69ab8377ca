/** The data mover: the transfer loop as it runs, every statement of it a step of the
    transfer machine. */
module DataMovers {
  import opened MachineTypes
  import opened Sequences
  import opened InputStreams
  import opened Transfer

  lemma RunAppend(job: Job, acts: seq<Action>, a: Action)
    requires job.Valid()
    ensures Run(job, FRESH, acts + [a]) == Do(job, Run(job, FRESH, acts), a)
  {
    TakeOfAppend(acts, a);
  }

  /** There is a thread to join exactly while there is a worker. */
  lemma {:induction false} WorkerIsJoinable(job: Job, acts: seq<Action>)
    requires job.Valid()
    ensures Run(job, FRESH, acts).joinable <==> Run(job, FRESH, acts).pc != NoWorker
  {
    if acts != [] {
      var front, a := Run(job, FRESH, acts[..|acts| - 1]), acts[|acts| - 1];
      WorkerIsJoinable(job, acts[..|acts| - 1]);
      assert Run(job, FRESH, acts) == Do(job, front, a);
      StepKeepsJoinable(job, front, a);
      hide Do, Run;
    }
  }

  lemma StepKeepsJoinable(job: Job, s: State, a: Action)
    requires job.Valid() && (s.joinable <==> s.pc != NoWorker)
    ensures Do(job, s, a).joinable <==> Do(job, s, a).pc != NoWorker
  {
    if a == Work && s.pc == AtLoop {
      LoopWorks(job, s);
      LoopKeepsJoinable(job, s);
      hide DoWork, DoLoop;
    } else {
      hide DoLoop;
    }
  }

  lemma LoopKeepsJoinable(job: Job, s: State)
    requires job.Valid() && s.joinable && s.pc == AtLoop
    ensures DoLoop(job, s).joinable <==> DoLoop(job, s).pc != NoWorker
  {
    hide ZeroWords, Window, Job.Modulus, Job.Data;
  }

  /** The four statements after the loop. */
  lemma FinishSteps(job: Job, s: State)
    requires job.Valid() && s.pc == AtFinish
    ensures DoWork(job, s) == s.(disk := Truncated, pc := AtFinishWrite)
    ensures DoWork(job, s.(disk := Truncated, pc := AtFinishWrite)) == s.(disk := Holds(0), pc := AtRemove)
    ensures DoWork(job, s.(disk := Holds(0), pc := AtRemove)) == s.(disk := Absent, pc := AtEnd)
    ensures DoWork(job, s.(disk := Absent, pc := AtEnd)) == s.(disk := Absent, pc := Finished, running := false)
  {
  }

  class DataMover {
    const job: Job
    var disk: Disk
    var cancelled: bool
    var running: bool
    var joinable: bool
    // The machine's state, and the actions that led to it.
    ghost var state: State
    ghost var trace: seq<Action>

    ghost predicate Valid()
      reads this
    {
      && job.Valid() && job.interval != 0
      && state == Run(job, FRESH, trace)
      && state.disk == disk && state.cancelled == cancelled
      && state.running == running && state.joinable == joinable
    }

    constructor (job: Job)
      requires job.Valid() && job.interval != 0
      ensures Valid() && this.job == job && state == FRESH && trace == []
    {
      this.job := job;
      disk, cancelled, running, joinable := Absent, false, false, false;
      state, trace := FRESH, [];
    }

    ghost method Step(a: Action)
      requires job.Valid() && state == Run(job, FRESH, trace)
      modifies this`state, this`trace
      ensures trace == old(trace) + [a] && state == Do(job, old(state), a)
      ensures state == Run(job, FRESH, trace)
    {
      RunAppend(job, trace, a);
      state := Do(job, state, a);
      trace := trace + [a];
    }

    /** The worker's next statement, taken with the disk as the last one left it. */
    ghost method Advance()
      requires job.Valid() && state == Run(job, FRESH, trace) && state.disk == disk
      modifies this`state, this`trace
      ensures trace == old(trace) + [Work] && state == DoWork(job, old(state))
      ensures state == Run(job, FRESH, trace)
    {
      Step(Work);
    }

    /** All 8-byte words of the buffer are zero. */
    method IsZeroBlock(data: seq<byte>) returns (zero: bool)
      ensures zero <==> forall i :: 0 <= i < |data| - |data| % 8 ==> data[i] == 0
    {
      var count := |data| / 8;
      for i := 0 to count
        invariant forall k :: 0 <= k < 8 * i ==> data[k] == 0
      {
        if exists k :: 8 * i <= k < 8 * i + 8 && data[k] != 0 {
          return false;
        }
      }
      return true;
    }

    method SaveCheckpoint(offset: nat)
      requires Valid() && state.pc == AtSave && state.transferred == offset
      modifies this
      ensures Valid() && disk == Holds(offset)
      ensures trace == old(trace) + [Work, Work]
      ensures state == old(state).(disk := Holds(offset), pc := AtLoop, kept := offset)
      ensures cancelled == old(cancelled) && running == old(running)
    {
      hide Run, DoLoop, DoStart;
      Advance();
      disk := Truncated;
      Advance();
      disk := Holds(offset);
      assert trace == old(trace) + [Work, Work];
    }

    method LoadCheckpoint() returns (offset: nat)
      ensures offset == LoadOffset(disk)
    {
      offset := if disk.Holds? then disk.offset else 0;
    }

    /** The other thread may ask for a cancel at any time. */
    method MaybeCancelled()
      requires Valid()
      modifies this
      ensures Valid() && disk == old(disk) && running == old(running)
      ensures old(trace) <= trace
      ensures state == old(state).(cancelled := cancelled, cancelling := state.cancelling)
      ensures old(cancelled) ==> cancelled
      ensures old(state.cancelling) ==> state.cancelling
    {
      hide Run;
      var ask: bool := *;
      if ask {
        cancelled := true;
        Step(Cancel);
      }
    }

    /** One turn of the loop: read, test for zero, count, and save where the remainder
        says so. */
    method LoopTurn(ifs: InputStream, transferred: nat) returns (ifs': InputStream, transferred': nat, more: bool)
      requires Valid() && state.pc == AtLoop && state.ifs == ifs && state.transferred == transferred
      requires !ifs.failed && !cancelled
      modifies this
      ensures Valid() && old(trace) <= trace
      ensures state.pc == (if more then AtLoop else AtFinish) && state.ifs == ifs' && state.transferred == transferred'
      ensures more ==> ifs'.pos > ifs.pos && ifs.pos < |job.Data()|
      ensures !more ==> transferred' == transferred
      ensures !cancelled && state.cancelling == old(state.cancelling)
    {
      hide ZeroWords, Run;
      var buffer := ifs.Delivers(job.Data(), CHUNK);
      var bytesRead := |buffer|;
      ifs', transferred', more := ifs.AfterRead(bytesRead, CHUNK), transferred, true;
      if bytesRead == 0 {
        Advance();
        more := false;
        return;
      }
      var zero := IsZeroBlock(buffer);
      ZeroWordsMeaning(buffer);
      transferred' := transferred + bytesRead;
      Advance();
      if zero {
        return;
      }
      if transferred' % job.Modulus() < CHUNK {
        SaveCheckpoint(transferred');
      }
    }

    /** The worker thread. However it is interrupted by a cancel, it ends with the
        checkpoint removed; unless its loop saw the cancel it has handled the whole file. */
    method DoTransfer() returns (transferred: nat)
      requires Valid() && state.pc == AtStart
      modifies this
      ensures Valid() && state.pc == Finished && !running
      ensures old(trace) <= trace
      ensures disk == Absent
      ensures transferred == state.transferred
      ensures !state.sawCancel ==> transferred == |job.Data()| && HandledTo(state.log, |job.Data()|)
      ensures state.sawCancel ==> cancelled
      ensures old(state.cancelling && cancelled) ==> state.cancelling && cancelled
    {
      hide Run, HandledTo, DoLoop;
      Advance();
      if job.file.None? {
        AlwaysSound(job, old(trace));
        transferred := 0;
        running := false;
        CheckpointNeverLies(job, trace);
        return;
      }
      var startOffset := LoadCheckpoint();
      var ifs := if startOffset > 0 then OPENED.AfterSeek(startOffset) else OPENED;
      hide DoWork, Handled;
      transferred := TransferLoop(ifs, startOffset);
      CleanUp();
      CheckpointNeverLies(job, trace);
    }

    /** Turn after turn, until the file is read or a cancel is seen. */
    method TransferLoop(input: InputStream, startOffset: nat) returns (transferred: nat)
      requires Valid() && state.pc == AtLoop && state.ifs == input && state.transferred == startOffset
      modifies this
      ensures Valid() && old(trace) <= trace
      ensures state.pc == AtFinish && transferred == state.transferred
      ensures old(state.cancelling && cancelled) ==> state.cancelling && cancelled
    {
      hide Run, HandledTo, DoLoop, DoWork;
      transferred := startOffset;
      var ifs := input;
      var more := true;
      MaybeCancelled();
      while more && !ifs.failed && !cancelled
        invariant Valid() && old(trace) <= trace
        invariant state.ifs == ifs && state.transferred == transferred
        invariant state.pc == if more then AtLoop else AtFinish
        invariant old(state.cancelling && cancelled) ==> state.cancelling && cancelled
        decreases more, |job.Data()| - ifs.pos
      {
        ifs, transferred, more := LoopTurn(ifs, transferred);
        MaybeCancelled();
      }
      if more {
        LeaveLoop();
      }
    }

    ghost method LeaveLoop()
      requires Valid() && state.pc == AtLoop && (state.ifs.failed || cancelled)
      modifies this`state, this`trace
      ensures Valid() && old(trace) <= trace
      ensures state == old(state).(pc := AtFinish, sawCancel := state.sawCancel)
    {
      hide Run;
      Advance();
    }

    /** After the loop: write offset 0, remove the file, and report the worker as done. */
    method CleanUp()
      requires Valid() && state.pc == AtFinish
      modifies this
      ensures Valid() && old(trace) <= trace
      ensures state == old(state).(pc := Finished, disk := Absent, running := false)
      ensures cancelled == old(cancelled)
    {
      hide Run, DoWork;
      FinishSteps(job, state);
      Advance();
      disk := Truncated;
      Advance();
      disk := Holds(0);
      Advance();
      disk := Absent;
      Advance();
      running := false;
    }

    /** Starting over a worker that was never joined terminates the process. */
    method StartTransfer() returns (terminated: bool)
      requires Valid() && !state.cancelling
      modifies this
      ensures Valid() && disk == old(disk) && state.log == old(state).log
      ensures terminated == old(joinable)
      ensures !terminated ==> state.pc == AtStart && running && !cancelled
    {
      hide Run, DoWork;
      terminated := joinable;
      Step(Start);
      if terminated {
        cancelled, running, joinable := false, false, false;
      } else {
        cancelled, running, joinable := false, true, true;
      }
    }

    /** Ask the worker to stop, wait for it wherever it is, and join it. */
    method CancelTransfer(pc: Pc, transferred: nat)
      requires Valid() && state.pc == pc && state.transferred == transferred
      modifies this
      ensures Valid() && old(trace) <= trace
      ensures state.pc == NoWorker && !state.cancelling && !running && !joinable && cancelled
      ensures disk == if old(joinable) then Absent else old(disk)
    {
      hide Run, DoWork;
      WorkerIsJoinable(job, trace);
      cancelled := true;
      Step(Cancel);
      if joinable {
        RunOut(pc, transferred);
        hide HandledTo;
        CheckpointNeverLies(job, trace);
        joinable := false;
      }
      Step(Join);
      running := false;
    }

    /** The steps that a worker still takes once it is cancelled. */
    method RunOut(from: Pc, transferred: nat)
      requires Valid() && state.pc == from && state.transferred == transferred
      requires from != NoWorker && state.cancelled
      modifies this
      ensures Valid() && old(trace) <= trace
      ensures state.pc == Finished && state.cancelled && state.cancelling == old(state.cancelling)
      ensures joinable == old(joinable)
    {
      var pc, counted := from, transferred;
      while pc != Finished
        invariant Valid() && old(trace) <= trace && state.pc == pc && state.transferred == counted
        invariant pc != NoWorker && state.cancelled && state.cancelling == old(state.cancelling)
        invariant joinable == old(joinable)
        decreases PcsLeft(pc)
      {
        pc, counted := CancelledStep(pc, counted);
      }
    }

    /** One statement of a worker that is cancelled. */
    method CancelledStep(pc: Pc, transferred: nat) returns (pc': Pc, transferred': nat)
      requires Valid() && state.pc == pc && state.transferred == transferred
      requires pc != NoWorker && pc != Finished && state.cancelled
      modifies this
      ensures Valid() && trace == old(trace) + [Work]
      ensures state.pc == pc' && state.transferred == transferred' && PcsLeft(pc') < PcsLeft(pc)
      ensures state.cancelled && state.cancelling == old(state.cancelling) && joinable == old(joinable)
    {
      hide Run, ZeroWords, Window;
      Advance();
      pc', transferred' := pc, transferred;
      match pc {
        case AtStart =>
          if job.file.None? {
            pc', running := Finished, false;
          } else {
            pc', transferred' := AtLoop, LoadOffset(disk);
          }
        case AtLoop => pc' := AtFinish;
        case AtSave => disk, pc' := Truncated, AtWrite;
        case AtWrite => disk, pc' := Holds(transferred), AtLoop;
        case AtFinish => disk, pc' := Truncated, AtFinishWrite;
        case AtFinishWrite => disk, pc' := Holds(0), AtRemove;
        case AtRemove => disk, pc' := Absent, AtEnd;
        case AtEnd => pc', running := Finished, false;
      }
    }
  }
}
