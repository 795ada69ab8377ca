/** Continuous data protection: any number of monitor threads over one shared journal, as
    interleaved steps. */
module Cdp {
  import opened Sequences

  const BLOCK_BYTES: nat := 4096
  const POINT_EVERY: nat := 100

  datatype JournalRow = JournalRow(sessionId: string, lba: nat, size: nat)

  datatype RecoveryPoint = RecoveryPoint(sessionId: string, blockCount: nat, sizeBytes: nat)

  /** Where a session's monitor thread is in its loop. */
  datatype Pc = AtCheck | AtLog | AtCount | AtPoint | AtSleep | Exited

  datatype CdpStatus = ACTIVE | PAUSED | STOPPED | ERROR

  /** A session, and what the journal already held under its id when it began: the journal
      is a database that outlives the process. */
  datatype Session = Session(
    running: bool,
    status: CdpStatus,
    pc: Pc,
    blocksTracked: nat,
    oldRows: nat,
    oldBytes: nat,
    oldPoints: nat)

  datatype State = State(
    journal: seq<JournalRow>,
    points: seq<RecoveryPoint>,
    sessions: map<string, Session>)

  datatype Action = StartSession(id: string) | RequestStop(id: string) | Turn(id: string)

  // ---- Journal queries ---------------------------------------------------

  /** SELECT COUNT(*) FROM block_changes WHERE session_id = ?. */
  function RowCount(journal: seq<JournalRow>, id: string): nat {
    if journal == [] then 0
    else RowCount(journal[..|journal| - 1], id) + if journal[|journal| - 1].sessionId == id then 1 else 0
  }

  /** SELECT COALESCE(SUM(size), 0) FROM block_changes WHERE session_id = ?. */
  function RowBytes(journal: seq<JournalRow>, id: string): nat {
    if journal == [] then 0
    else
      RowBytes(journal[..|journal| - 1], id)
      + if journal[|journal| - 1].sessionId == id then journal[|journal| - 1].size else 0
  }

  /** The session's recovery points in the order they were made. */
  function PointsOf(points: seq<RecoveryPoint>, id: string): seq<RecoveryPoint> {
    if points == [] then []
    else
      PointsOf(points[..|points| - 1], id)
      + if points[|points| - 1].sessionId == id then [points[|points| - 1]] else []
  }

  lemma RowsAppend(journal: seq<JournalRow>, row: JournalRow, id: string)
    ensures RowCount(journal + [row], id) == RowCount(journal, id) + if row.sessionId == id then 1 else 0
    ensures RowBytes(journal + [row], id) == RowBytes(journal, id) + if row.sessionId == id then row.size else 0
  {
    TakeOfAppend(journal, row);
  }

  lemma PointsAppend(points: seq<RecoveryPoint>, p: RecoveryPoint, id: string)
    ensures PointsOf(points + [p], id) == if p.sessionId == id then PointsOf(points, id) + [p] else PointsOf(points, id)
  {
    TakeOfAppend(points, p);
    assert PointsOf(points, id) + [] == PointsOf(points, id);
  }

  // ---- Steps -------------------------------------------------------------

  function NewSession(s: State, id: string): Session {
    Session(true, ACTIVE, AtCheck, 0, RowCount(s.journal, id), RowBytes(s.journal, id), |PointsOf(s.points, id)|)
  }

  function Put(s: State, id: string, session: Session): State {
    s.(sessions := s.sessions[id := session])
  }

  /** One step of a monitor thread. The journal mutex makes each insert, and the count
      together with the recovery point it goes into, one step. */
  function DoTurn(s: State, id: string): State
    requires id in s.sessions
  {
    var t := s.sessions[id];
    match t.pc
    case AtCheck => Put(s, id, t.(pc := if t.running then AtLog else Exited))
    case AtLog => Put(s.(journal := s.journal + [JournalRow(id, 0, BLOCK_BYTES)]), id, t.(pc := AtCount))
    case AtCount =>
      var blocks := t.blocksTracked + 1;
      Put(s, id, t.(blocksTracked := blocks, pc := if blocks % POINT_EVERY == 0 then AtPoint else AtSleep))
    case AtPoint =>
      var p := RecoveryPoint(id, RowCount(s.journal, id), RowBytes(s.journal, id));
      Put(s.(points := s.points + [p]), id, t.(pc := AtSleep))
    case AtSleep => Put(s, id, t.(pc := AtCheck))
    case Exited => s
  }

  /** An action that cannot happen changes nothing. Session ids are distinct: an id that is
      in use is not started again. */
  function Do(s: State, a: Action): State {
    match a
    case StartSession(id) => if id in s.sessions then s else Put(s, id, NewSession(s, id))
    case RequestStop(id) => if id in s.sessions then Put(s, id, s.sessions[id].(running := false, status := STOPPED)) else s
    case Turn(id) => if id in s.sessions then DoTurn(s, id) else s
  }

  function Run(init: State, acts: seq<Action>): State {
    if acts == [] then init else Do(Run(init, acts[..|acts| - 1]), acts[|acts| - 1])
  }

  // ---- The invariant -----------------------------------------------------

  /** Rows this session has logged, up to its program point. */
  function Logged(t: Session): nat {
    t.blocksTracked + if t.pc == AtCount then 1 else 0
  }

  /** Recovery points this session has made, up to its program point. */
  function Made(t: Session): int {
    t.blocksTracked / POINT_EVERY - if t.pc == AtPoint then 1 else 0
  }

  ghost predicate RowsRight(s: State, id: string, t: Session) {
    && RowCount(s.journal, id) == t.oldRows + Logged(t)
    && RowBytes(s.journal, id) == t.oldBytes + BLOCK_BYTES * Logged(t)
  }

  /** The k-th point, counted from 1, of a session that found so many rows and bytes. */
  predicate PointRight(rows: nat, bytes: nat, p: RecoveryPoint, k: nat) {
    p.blockCount == rows + POINT_EVERY * k && p.sizeBytes == bytes + BLOCK_BYTES * POINT_EVERY * k
  }

  ghost predicate AllRight(rows: nat, bytes: nat, from: nat, points: seq<RecoveryPoint>) {
    forall k :: from <= k < |points| ==> PointRight(rows, bytes, points[k], k - from + 1)
  }

  lemma AllRightAppend(rows: nat, bytes: nat, from: nat, points: seq<RecoveryPoint>, p: RecoveryPoint)
    requires from <= |points| && AllRight(rows, bytes, from, points)
    requires PointRight(rows, bytes, p, |points| - from + 1)
    ensures AllRight(rows, bytes, from, points + [p])
  {
    hide PointRight;
  }

  ghost predicate PointsRight(s: State, id: string, t: Session) {
    var mine := PointsOf(s.points, id);
    && (t.pc == AtPoint ==> t.blocksTracked > 0 && t.blocksTracked % POINT_EVERY == 0)
    && |mine| == t.oldPoints + Made(t)
    && AllRight(t.oldRows, t.oldBytes, t.oldPoints, mine)
  }

  ghost predicate SessionRight(s: State, id: string, t: Session) {
    RowsRight(s, id, t) && PointsRight(s, id, t)
  }

  ghost predicate Right(s: State) {
    forall id :: id in s.sessions ==> SessionRight(s, id, s.sessions[id])
  }

  /** A step of one thread leaves the other sessions' rows and points alone. */
  lemma TurnKeepsOthers(s: State, id: string, other: string)
    requires id in s.sessions && other in s.sessions && other != id
    requires SessionRight(s, other, s.sessions[other])
    ensures SessionRight(DoTurn(s, id), other, s.sessions[other])
  {
    TurnElsewhere(s, id, other);
    hide RowCount, RowBytes, PointsOf, AllRight, DoTurn;
  }

  lemma TurnElsewhere(s: State, id: string, other: string)
    requires id in s.sessions && other != id
    ensures var after := DoTurn(s, id);
      && RowCount(after.journal, other) == RowCount(s.journal, other)
      && RowBytes(after.journal, other) == RowBytes(s.journal, other)
      && PointsOf(after.points, other) == PointsOf(s.points, other)
  {
    hide RowCount, RowBytes, PointsOf;
    RowsAppend(s.journal, JournalRow(id, 0, BLOCK_BYTES), other);
    PointsAppend(s.points, RecoveryPoint(id, RowCount(s.journal, id), RowBytes(s.journal, id)), other);
  }

  lemma HundredStep(n: nat)
    ensures (n + 1) % POINT_EVERY == 0 ==> (n + 1) / POINT_EVERY == n / POINT_EVERY + 1
    ensures (n + 1) % POINT_EVERY != 0 ==> (n + 1) / POINT_EVERY == n / POINT_EVERY
    ensures n % POINT_EVERY == 0 ==> POINT_EVERY * (n / POINT_EVERY) == n
  {
  }

  lemma PointIsRight(s: State, id: string, t: Session)
    requires t.pc == AtPoint && SessionRight(s, id, t)
    ensures var p := RecoveryPoint(id, RowCount(s.journal, id), RowBytes(s.journal, id));
      PointRight(t.oldRows, t.oldBytes, p, Made(t) + 1) && |PointsOf(s.points, id)| == t.oldPoints + Made(t) >= t.oldPoints
  {
    hide RowCount, RowBytes, PointsOf, AllRight;
    HundredStep(t.blocksTracked);
  }

  lemma PointKeepsOwn(s: State, id: string)
    requires id in s.sessions && s.sessions[id].pc == AtPoint && SessionRight(s, id, s.sessions[id])
    ensures SessionRight(DoTurn(s, id), id, s.sessions[id].(pc := AtSleep))
  {
    hide RowCount, RowBytes, PointsOf, PointRight, AllRight;
    var t := s.sessions[id];
    var p := RecoveryPoint(id, RowCount(s.journal, id), RowBytes(s.journal, id));
    PointsAppend(s.points, p, id);
    PointIsRight(s, id, t);
    AllRightAppend(t.oldRows, t.oldBytes, t.oldPoints, PointsOf(s.points, id), p);
    assert DoTurn(s, id) == Put(s.(points := s.points + [p]), id, t.(pc := AtSleep));
    hide DoTurn;
  }

  lemma LogKeepsOwn(s: State, id: string)
    requires id in s.sessions && s.sessions[id].pc == AtLog && SessionRight(s, id, s.sessions[id])
    ensures SessionRight(DoTurn(s, id), id, s.sessions[id].(pc := AtCount))
  {
    var t, row := s.sessions[id], JournalRow(id, 0, BLOCK_BYTES);
    RowsAppend(s.journal, row, id);
    hide RowCount, RowBytes, PointsOf, AllRight;
    assert DoTurn(s, id) == Put(s.(journal := s.journal + [row]), id, t.(pc := AtCount));
    hide DoTurn;
  }

  lemma CountKeepsOwn(s: State, id: string)
    requires id in s.sessions && s.sessions[id].pc == AtCount && SessionRight(s, id, s.sessions[id])
    ensures SessionRight(DoTurn(s, id), id, DoTurn(s, id).sessions[id])
  {
    HundredStep(s.sessions[id].blocksTracked);
    hide RowCount, RowBytes, PointsOf, AllRight;
  }

  lemma TurnKeepsOwn(s: State, id: string)
    requires id in s.sessions && SessionRight(s, id, s.sessions[id])
    ensures SessionRight(DoTurn(s, id), id, DoTurn(s, id).sessions[id])
  {
    match s.sessions[id].pc {
      case AtLog => LogKeepsOwn(s, id);
      case AtCount => CountKeepsOwn(s, id);
      case AtPoint => PointKeepsOwn(s, id);
      case _ => hide RowCount, RowBytes, PointsOf, AllRight;
    }
  }

  lemma OthersRight(s: State, a: Action, id: string)
    requires Right(s) && !a.Turn? && id in Do(s, a).sessions
    ensures SessionRight(Do(s, a), id, Do(s, a).sessions[id])
  {
    hide RowCount, RowBytes, PointsOf, PointRight;
    if id in s.sessions { assert SessionRight(s, id, s.sessions[id]); }
  }

  lemma StepRight(s: State, a: Action)
    requires Right(s)
    ensures Right(Do(s, a))
  {
    forall id | id in Do(s, a).sessions ensures SessionRight(Do(s, a), id, Do(s, a).sessions[id]) {
      hide SessionRight;
      if !a.Turn? {
        OthersRight(s, a, id);
      } else if a.id in s.sessions {
        if id == a.id { TurnKeepsOwn(s, id); } else { TurnKeepsOthers(s, a.id, id); }
      }
    }
  }

  lemma {:induction false} AlwaysRight(init: State, acts: seq<Action>)
    requires init.sessions == map[]
    ensures Right(Run(init, acts))
  {
    if acts != [] {
      var front := Run(init, acts[..|acts| - 1]);
      AlwaysRight(init, acts[..|acts| - 1]);
      StepRight(front, acts[|acts| - 1]);
      assert Run(init, acts) == Do(front, acts[|acts| - 1]);
    }
  }

  /** In every interleaving, a session's rows are those it found plus its tracked blocks
      (one more between the insert and the count), and it has made one recovery point for
      each full hundred of them. */
  lemma RowsMatchCounter(init: State, acts: seq<Action>, id: string)
    requires init.sessions == map[] && id in Run(init, acts).sessions
    ensures var s := Run(init, acts);
            var t := s.sessions[id];
      && RowCount(s.journal, id) == t.oldRows + t.blocksTracked + (if t.pc == AtCount then 1 else 0)
      && |PointsOf(s.points, id)| == t.oldPoints + t.blocksTracked / 100 - (if t.pc == AtPoint then 1 else 0)
  {
    AlwaysRight(init, acts);
    hide RowCount, PointsOf, Run;
  }

  /** Until a session takes the id, nothing is added under it; the session then records
      what the process found there when it began. */
  ghost predicate Found(init: State, s: State, id: string) {
    if id in s.sessions then
      && s.sessions[id].oldRows == RowCount(init.journal, id)
      && s.sessions[id].oldBytes == RowBytes(init.journal, id)
      && s.sessions[id].oldPoints == |PointsOf(init.points, id)|
    else
      && RowCount(s.journal, id) == RowCount(init.journal, id)
      && RowBytes(s.journal, id) == RowBytes(init.journal, id)
      && PointsOf(s.points, id) == PointsOf(init.points, id)
  }

  lemma StepFound(init: State, s: State, a: Action, id: string)
    requires Found(init, s, id)
    ensures Found(init, Do(s, a), id)
  {
    hide RowCount, RowBytes, PointsOf;
    if a.Turn? && a.id in s.sessions && a.id != id { TurnElsewhere(s, a.id, id); }
  }

  lemma {:induction false} AlwaysFound(init: State, acts: seq<Action>, id: string)
    requires init.sessions == map[]
    ensures Found(init, Run(init, acts), id)
  {
    if acts != [] {
      var front := Run(init, acts[..|acts| - 1]);
      AlwaysFound(init, acts[..|acts| - 1], id);
      StepFound(init, front, acts[|acts| - 1], id);
      assert Run(init, acts) == Do(front, acts[|acts| - 1]);
      hide Found, Do;
    }
  }

  lemma {:induction false} NoRowsNoBytes(journal: seq<JournalRow>, id: string)
    requires RowCount(journal, id) == 0
    ensures RowBytes(journal, id) == 0
  {
    if journal != [] { NoRowsNoBytes(journal[..|journal| - 1], id); }
  }

  /** The session's k-th recovery point, behind those the process found, records exactly
      100k blocks and 409600k bytes, whatever the other sessions do, if and only if the
      journal held nothing under its id when the process began. */
  lemma KthPoint(init: State, acts: seq<Action>, id: string, k: nat)
    requires init.sessions == map[] && id in Run(init, acts).sessions
    requires 1 <= k <= |PointsOf(Run(init, acts).points, id)| - |PointsOf(init.points, id)|
    ensures var p := PointsOf(Run(init, acts).points, id)[|PointsOf(init.points, id)| + k - 1];
      (p.blockCount == 100 * k && p.sizeBytes == 409600 * k) <==> RowCount(init.journal, id) == 0
  {
    var s := Run(init, acts);
    AlwaysRight(init, acts);
    AlwaysFound(init, acts, id);
    if RowCount(init.journal, id) == 0 { NoRowsNoBytes(init.journal, id); }
    hide RowCount, RowBytes, PointsOf, Run;
    var t := s.sessions[id];
    assert SessionRight(s, id, t);
    assert PointRight(t.oldRows, t.oldBytes, PointsOf(s.points, id)[t.oldPoints + k - 1], k);
  }

  // ---- Progress and end of a session -------------------------------------

  function One(b: bool): nat {
    if b then 1 else 0
  }

  /** Turns that the session's thread took. */
  function OwnTurns(init: State, acts: seq<Action>, id: string): nat {
    if acts == [] then 0
    else
      var front := acts[..|acts| - 1];
      OwnTurns(init, front, id) + One(acts[|acts| - 1] == Turn(id) && id in Run(init, front).sessions)
  }

  /** It was asked to stop. */
  predicate Asked(init: State, acts: seq<Action>, id: string) {
    acts != [] &&
    var front := acts[..|acts| - 1];
    Asked(init, front, id) || (acts[|acts| - 1] == RequestStop(id) && id in Run(init, front).sessions)
  }

  /** The turns it takes to get here: four to a block, and one to a recovery point. */
  function TurnsSpent(t: Session): int {
    4 * t.blocksTracked + t.blocksTracked / POINT_EVERY +
    match t.pc
    case AtCheck => 0
    case AtLog => 1
    case AtCount => 2
    case AtPoint => -2
    case AtSleep => -1
    case Exited => 1
  }

  ghost predicate Progressed(t: Session, turns: nat, asked: bool) {
    && (t.running <==> !asked)
    && (!asked ==>
          && t.pc != Exited && TurnsSpent(t) == turns
          && (t.pc == AtPoint ==> t.blocksTracked > 0 && t.blocksTracked % POINT_EVERY == 0)
          && (t.pc == AtSleep ==> t.blocksTracked > 0))
  }

  lemma TurnProgressed(s: State, id: string, turns: nat, asked: bool)
    requires id in s.sessions && Progressed(s.sessions[id], turns, asked)
    ensures id in DoTurn(s, id).sessions && Progressed(DoTurn(s, id).sessions[id], turns + 1, asked)
  {
    HundredStep(s.sessions[id].blocksTracked);
    hide RowCount, RowBytes, PointsOf;
  }

  lemma {:induction false} AlwaysProgressed(init: State, acts: seq<Action>, id: string)
    requires init.sessions == map[]
    ensures var s := Run(init, acts);
      if id in s.sessions then Progressed(s.sessions[id], OwnTurns(init, acts, id), Asked(init, acts, id))
      else OwnTurns(init, acts, id) == 0 && !Asked(init, acts, id)
  {
    if acts != [] {
      var front, a := acts[..|acts| - 1], acts[|acts| - 1];
      var s := Run(init, front);
      AlwaysProgressed(init, front, id);
      assert Run(init, acts) == Do(s, a);
      hide Run, Progressed, DoTurn, RowCount, RowBytes, PointsOf;
      if a == Turn(id) && id in s.sessions {
        TurnProgressed(s, id, OwnTurns(init, front, id), Asked(init, front, id));
      } else {
        OtherProgressed(s, a, id, OwnTurns(init, front, id), Asked(init, front, id));
      }
    }
  }

  lemma OtherProgressed(s: State, a: Action, id: string, turns: nat, asked: bool)
    requires a != Turn(id) || id !in s.sessions
    requires if id in s.sessions then Progressed(s.sessions[id], turns, asked) else turns == 0 && !asked
    ensures var t := Do(s, a);
      if id in t.sessions then Progressed(t.sessions[id], turns, asked || (a == RequestStop(id) && id in s.sessions))
      else turns == 0 && !asked
  {
    hide RowCount, RowBytes, PointsOf;
  }

  /** In every interleaving, a session that was never asked to stop never exits; its turns
      decide where it is, and n of them have logged at least n / 5 rows. */
  lemma RunsOn(init: State, acts: seq<Action>, id: string)
    requires init.sessions == map[] && id in Run(init, acts).sessions && !Asked(init, acts, id)
    ensures var s := Run(init, acts); var t := s.sessions[id];
      && t.running && t.pc != Exited && TurnsSpent(t) == OwnTurns(init, acts, id)
      && RowCount(s.journal, id) >= t.oldRows + OwnTurns(init, acts, id) / 5
  {
    AlwaysProgressed(init, acts, id);
    RowsMatchCounter(init, acts, id);
    hide Run, OwnTurns, Asked, RowCount, PointsOf;
  }

  /** Turns that a session asked to stop still takes, at most. */
  function TurnsLeft(pc: Pc): nat {
    match pc
    case AtCheck => 1
    case AtLog => 5
    case AtCount => 4
    case AtPoint => 3
    case AtSleep => 2
    case Exited => 0
  }

  function TurnCount(acts: seq<Action>, id: string): nat {
    if acts == [] then 0 else TurnCount(acts[..|acts| - 1], id) + One(acts[|acts| - 1] == Turn(id))
  }

  /** What a stopped session may still do, compared with an earlier state. */
  ghost predicate RunningDown(s: State, t: State, id: string, turns: nat)
    requires id in s.sessions
  {
    && id in t.sessions && !t.sessions[id].running
    && RowCount(t.journal, id) + One(t.sessions[id].pc == AtLog) <= RowCount(s.journal, id) + One(s.sessions[id].pc == AtLog)
    && (t.sessions[id].pc == Exited || TurnsLeft(t.sessions[id].pc) + turns <= TurnsLeft(s.sessions[id].pc))
  }

  lemma StepRunningDown(s: State, t: State, id: string, turns: nat, a: Action)
    requires id in s.sessions && RunningDown(s, t, id, turns)
    ensures RunningDown(s, Do(t, a), id, turns + One(a == Turn(id)))
  {
    hide RowCount, RowBytes, PointsOf;
    if a.Turn? && a.id in t.sessions {
      if a.id == id {
        RowsAppend(t.journal, JournalRow(id, 0, BLOCK_BYTES), id);
      } else {
        TurnElsewhere(t, a.id, id);
      }
    }
  }

  lemma {:induction false} StaysRunningDown(init: State, acts: seq<Action>, more: seq<Action>, id: string)
    requires id in Run(init, acts).sessions && !Run(init, acts).sessions[id].running
    ensures RunningDown(Run(init, acts), Run(init, acts + more), id, TurnCount(more, id))
  {
    if more == [] {
      AppendNothing(acts, more);
      hide Run, RowCount;
    } else {
      var n := |more| - 1;
      StaysRunningDown(init, acts, more[..n], id);
      InitOfAppend(acts, more);
      assert Run(init, acts + more) == Do(Run(init, acts + more[..n]), more[n]);
      hide Run, Do, RunningDown;
      StepRunningDown(Run(init, acts), Run(init, acts + more[..n]), id, TurnCount(more[..n], id), more[n]);
    }
  }

  /** In every interleaving, once a session was asked to stop, at most one more row appears
      under its id, and after five turns of its own at the latest its thread has ended. */
  lemma StoppedEnds(init: State, acts: seq<Action>, more: seq<Action>, id: string)
    requires init.sessions == map[] && id in Run(init, acts).sessions && Asked(init, acts, id)
    ensures var s, t := Run(init, acts), Run(init, acts + more);
      && id in t.sessions
      && RowCount(t.journal, id) <= RowCount(s.journal, id) + 1
      && (TurnCount(more, id) >= 5 ==> t.sessions[id].pc == Exited)
  {
    AlwaysProgressed(init, acts, id);
    hide Run, RowCount, TurnCount, OwnTurns, Asked;
    StaysRunningDown(init, acts, more, id);
  }

  // ---- The engine --------------------------------------------------------

  class CdpEngine {
    var journal: seq<JournalRow>
    var points: seq<RecoveryPoint>
    var sessions: map<string, Session>
    ghost var init: State
    ghost var trace: seq<Action>

    ghost function Current(): State
      reads this
    {
      State(journal, points, sessions)
    }

    ghost predicate Valid()
      reads this
    {
      init.sessions == map[] && Current() == Run(init, trace)
    }

    /** The journal database is opened with whatever an earlier process left in it. */
    constructor (journal: seq<JournalRow>, points: seq<RecoveryPoint>)
      ensures Valid() && trace == [] && Current() == State(journal, points, map[])
    {
      this.journal, this.points, this.sessions := journal, points, map[];
      init, trace := State(journal, points, map[]), [];
    }

    method LogBlockChange(id: string, lba: nat, size: nat)
      modifies this`journal
      ensures journal == old(journal) + [JournalRow(id, lba, size)]
    {
      journal := journal + [JournalRow(id, lba, size)];
    }

    /** Count the session's rows and record the totals, under the journal mutex. */
    method CreateRecoveryPoint(id: string)
      modifies this`points
      ensures points == old(points) + [RecoveryPoint(id, RowCount(journal, id), RowBytes(journal, id))]
    {
      var blockCount, sizeBytes := RowCount(journal, id), RowBytes(journal, id);
      points := points + [RecoveryPoint(id, blockCount, sizeBytes)];
    }

    method Start(id: string)
      requires Valid() && id !in sessions
      modifies this
      ensures Valid() && init == old(init) && trace == old(trace) + [StartSession(id)]
      ensures journal == old(journal) && points == old(points)
      ensures id in sessions && sessions == old(sessions)[id := sessions[id]]
      ensures sessions[id].running && sessions[id].status == ACTIVE && sessions[id].pc == AtCheck && sessions[id].blocksTracked == 0
    {
      TakeOfAppend(trace, StartSession(id));
      sessions := sessions[id := NewSession(State(journal, points, sessions), id)];
      trace := trace + [StartSession(id)];
    }

    method Stop(id: string)
      requires Valid()
      modifies this
      ensures Valid() && init == old(init) && trace == old(trace) + [RequestStop(id)]
      ensures journal == old(journal) && points == old(points)
      ensures id !in old(sessions) ==> sessions == old(sessions)
      ensures id in old(sessions) ==>
        sessions == old(sessions)[id := old(sessions)[id].(running := false, status := STOPPED)]
    {
      TakeOfAppend(trace, RequestStop(id));
      if id in sessions {
        sessions := sessions[id := sessions[id].(running := false, status := STOPPED)];
      }
      trace := trace + [RequestStop(id)];
    }

    /** One step of the session's monitor loop; between two steps any other thread may run. */
    method MonitorStep(id: string)
      requires Valid() && id in sessions
      modifies this
      ensures Valid() && init == old(init) && trace == old(trace) + [Turn(id)]
    {
      hide RowCount, RowBytes, PointsOf;
      TakeOfAppend(trace, Turn(id));
      var t := sessions[id];
      match t.pc {
        case AtCheck =>
          sessions := sessions[id := t.(pc := if t.running then AtLog else Exited)];
        case AtLog =>
          LogBlockChange(id, 0, BLOCK_BYTES);
          sessions := sessions[id := t.(pc := AtCount)];
        case AtCount =>
          var blocks := t.blocksTracked + 1;
          sessions := sessions[id := t.(blocksTracked := blocks, pc := if blocks % POINT_EVERY == 0 then AtPoint else AtSleep)];
        case AtPoint =>
          CreateRecoveryPoint(id);
          sessions := sessions[id := t.(pc := AtSleep)];
        case AtSleep =>
          sessions := sessions[id := t.(pc := AtCheck)];
        case Exited =>
      }
      trace := trace + [Turn(id)];
    }
  }
}
