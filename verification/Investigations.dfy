/**
 Admission and life of alert investigations (master/core/investigation_manager.py)
 as a machine of interleaved tasks.  A step runs from one await to the next; how
 the awaited operation ended is the environment's choice.
 */
module Investigations {
  import opened Common

  /** The status column of a row. */
  datatype Status = Dropped | Queued | InProgress | Completed | Skipped | Failed

  /** What an alert's task awaits, or how it ended. */
  datatype Stage =
    | Dropping
    | Inserting
    | Spawned
    | Opening
    | Marking
    | Analysing
    | Saving(result: Status)
    | Failing
    | Closing
    | DroppedOut
    | Refused
    | Abandoned
    | Finished

  /** `cut`: its coroutine left before a final status was written. */
  datatype Job = Job(stage: Stage, row: Option<Status>, cut: bool)

  /** How an awaited operation ends; `NoModel` is an analysis that has no model to ask. */
  datatype How = Fine | Broken | Cancelled | NoModel

  datatype Manager = Manager(max: nat, reserved: int, free: int, dropped: nat, jobs: seq<Job>)

  datatype Event = Arrive | Resume(job: nat, how: How)

  function Init(max: nat): Manager {
    Manager(max, 0, max, 0, [])
  }

  // --- one task ---

  predicate Terminal(row: Option<Status>) {
    row == Some(Completed) || row == Some(Skipped) || row == Some(Failed)
  }

  predicate Ended(j: Job) {
    j.stage.DroppedOut? || j.stage.Refused? || j.stage.Abandoned? || j.stage.Finished?
  }

  /** A coroutine resumes; one that has ended, or is not asking for a model, does not. */
  function JobStep(j: Job, how: How): Option<Job> {
    if how.NoModel? && !j.stage.Analysing? then None
    else match j.stage
      case Dropping => Some(Job(DroppedOut, if how.Fine? then Some(Dropped) else None, false))
      case Inserting =>
        (match how
         case Fine => Some(Job(Spawned, Some(Queued), false))
         case Broken => Some(j.(stage := Refused))
         case _ => Some(j.(stage := Abandoned)))
      case Spawned => if how.Fine? then Some(j.(stage := Opening)) else None
      case Opening => Some(if how.Fine? then j.(stage := Marking) else j.(stage := Finished, cut := true))
      case Marking =>
        (match how
         case Fine => Some(Job(Analysing, Some(InProgress), false))
         case Broken => Some(j.(stage := Failing))
         case _ => Some(j.(stage := Closing, cut := true)))
      case Analysing =>
        (match how
         case Fine => Some(j.(stage := Saving(Completed)))
         case Broken => Some(j.(stage := Saving(Failed)))
         case NoModel => Some(j.(stage := Saving(Skipped)))
         case Cancelled => Some(j.(stage := Closing, cut := true)))
      case Saving(result) =>
        (match how
         case Fine => Some(j.(stage := Closing, row := Some(result)))
         case Broken => Some(j.(stage := Failing))
         case _ => Some(j.(stage := Closing, cut := true)))
      case Failing =>
        Some(if how.Fine? then j.(stage := Closing, row := Some(Failed)) else j.(stage := Closing, cut := true))
      case Closing => Some(j.(stage := Finished))
      case _ => None
  }

  /** Runs inside the semaphore. */
  predicate Holds(j: Job) {
    || j.stage.Opening? || j.stage.Marking? || j.stage.Analysing?
    || j.stage.Saving? || j.stage.Failing? || j.stage.Closing?
  }

  /** Is being inserted, or is an investigation that has not finished. */
  predicate InFlight(j: Job) {
    j.stage.Inserting? || j.stage.Spawned? || Holds(j)
  }

  predicate Leaked(j: Job) {
    j.stage.Abandoned?
  }

  predicate IsDropped(j: Job) {
    j.stage.Dropping? || j.stage.DroppedOut?
  }

  // --- the manager ---

  function Gain(before: bool, after: bool): int {
    (if after then 1 else 0) - (if before then 1 else 0)
  }

  /** The counters as the code moves them; a task waits when the semaphore has no slot. */
  function Step(m: Manager, e: Event): Option<Manager> {
    match e
    case Arrive =>
      if m.reserved >= m.max then Some(m.(dropped := m.dropped + 1, jobs := m.jobs + [Job(Dropping, None, false)]))
      else Some(m.(reserved := m.reserved + 1, jobs := m.jobs + [Job(Inserting, None, false)]))
    case Resume(i, how) =>
      if i >= |m.jobs| then None
      else
        var j := m.jobs[i];
        match JobStep(j, how)
        case None => None
        case Some(next) =>
          if j.stage.Spawned? && m.free <= 0 then None
          else
            var free := if j.stage.Spawned? then m.free - 1 else if next.stage.Finished? then m.free + 1 else m.free;
            var reserved := if next.stage.Refused? || next.stage.Finished? then m.reserved - 1 else m.reserved;
            Some(m.(reserved := reserved, free := free, jobs := m.jobs[i := next]))
  }

  /** A run from the start; events that cannot happen are skipped. */
  function Run(max: nat, events: seq<Event>): Manager {
    if events == [] then Init(max)
    else
      var m := Run(max, events[..|events| - 1]);
      match Step(m, events[|events| - 1])
      case None => m
      case Some(next) => next
  }

  // --- what every run keeps ---

  /** The row says how far its task got. */
  predicate RowFits(j: Job) {
    match j.stage
    case Dropping => j.row.None?
    case DroppedOut => j.row.None? || j.row == Some(Dropped)
    case Inserting => j.row.None?
    case Refused => j.row.None?
    case Abandoned => j.row.None?
    case Spawned => j.row == Some(Queued)
    case Opening => j.row == Some(Queued)
    case Marking => j.row == Some(Queued)
    case Analysing => j.row == Some(InProgress)
    case Saving(result) => j.row == Some(InProgress) && Terminal(Some(result))
    case Failing => j.row == Some(Queued) || j.row == Some(InProgress)
    case Closing => if j.cut then j.row == Some(Queued) || j.row == Some(InProgress) else Terminal(j.row)
    case Finished => if j.cut then j.row == Some(Queued) || j.row == Some(InProgress) else Terminal(j.row)
  }

  /** The status a row may take after another. */
  predicate RowMay(before: Option<Status>, after: Option<Status>) {
    || before == after
    || (before == None && (after == Some(Dropped) || after == Some(Queued)))
    || (before == Some(Queued) && (after == Some(InProgress) || after == Some(Failed)))
    || (before == Some(InProgress) && Terminal(after))
  }

  predicate CutFits(j: Job) {
    j.cut ==> j.stage.Closing? || j.stage.Finished?
  }

  lemma JobStepKeeps(j: Job, how: How)
    requires RowFits(j) && CutFits(j) && JobStep(j, how).Some?
    ensures var next := JobStep(j, how).value;
            RowFits(next) && CutFits(next) && RowMay(j.row, next.row)
  {
  }

  lemma JobStepMoves(j: Job, how: How)
    requires JobStep(j, how).Some?
    ensures var next := JobStep(j, how).value;
            && Rank(next) < Rank(j)
            && (Gain(InFlight(j), InFlight(next)) ==
                if next.stage.Refused? || next.stage.Finished? || next.stage.Abandoned? then -1 else 0)
            && (Gain(Holds(j), Holds(next)) == if j.stage.Spawned? then 1 else if next.stage.Finished? then -1 else 0)
            && (Gain(Leaked(j), Leaked(next)) == if next.stage.Abandoned? then 1 else 0)
            && IsDropped(j) == IsDropped(next)
  {
  }

  /** The verdict on an alert. */
  datatype Verdict = Pending | WasDropped | WasRefused | WasAccepted | WasAbandoned

  function VerdictOn(j: Job): Verdict {
    match j.stage
    case Dropping => WasDropped
    case DroppedOut => WasDropped
    case Inserting => Pending
    case Refused => WasRefused
    case Abandoned => WasAbandoned
    case _ => WasAccepted
  }

  ghost predicate Inv(m: Manager) {
    && m.reserved == Count(m.jobs, InFlight) + Count(m.jobs, Leaked)
    && m.reserved <= m.max
    && m.free == m.max - Count(m.jobs, Holds)
    && m.dropped == Count(m.jobs, IsDropped)
    && forall j :: j in m.jobs ==> RowFits(j) && CutFits(j)
  }

  lemma InitInv(max: nat)
    ensures Inv(Init(max))
  {
  }

  lemma ArrivalKeepsInv(m: Manager)
    requires Inv(m)
    ensures Inv(Step(m, Arrive).value)
  {
    hide Count;
    var job := if m.reserved >= m.max then Job(Dropping, None, false) else Job(Inserting, None, false);
    CountAppend(m.jobs, job, InFlight);
    CountAppend(m.jobs, job, Leaked);
    CountAppend(m.jobs, job, Holds);
    CountAppend(m.jobs, job, IsDropped);
  }

  lemma ResumeKeepsInv(m: Manager, i: nat, how: How)
    requires Inv(m) && Step(m, Resume(i, how)).Some?
    ensures Inv(Step(m, Resume(i, how)).value)
  {
    hide Count, JobStep, RowFits, CutFits, InFlight, Holds, Leaked, IsDropped;
    var j := m.jobs[i];
    var next := JobStep(j, how).value;
    JobStepKeeps(j, how);
    JobStepMoves(j, how);
    CountUpdate(m.jobs, i, next, InFlight);
    CountUpdate(m.jobs, i, next, Leaked);
    CountUpdate(m.jobs, i, next, Holds);
    CountUpdate(m.jobs, i, next, IsDropped);
  }

  lemma {:induction false} RunKeepsInv(max: nat, events: seq<Event>)
    ensures Inv(Run(max, events)) && Run(max, events).max == max
  {
    hide Inv;
    if events == [] {
      InitInv(max);
    } else {
      var n := |events| - 1;
      RunKeepsInv(max, events[..n]);
      match events[n] {
        case Arrive => ArrivalKeepsInv(Run(max, events[..n]));
        case Resume(i, how) =>
          if Step(Run(max, events[..n]), events[n]).Some? {
            ResumeKeepsInv(Run(max, events[..n]), i, how);
          }
      }
    }
  }

  /** If one predicate implies another and somewhere only the other holds, it counts fewer. */
  lemma {:induction false} CountsFewer(jobs: seq<Job>, i: nat, p: Job -> bool, q: Job -> bool)
    requires i < |jobs| && q(jobs[i]) && !p(jobs[i])
    requires forall j :: p(j) ==> q(j)
    ensures Count(jobs, p) < Count(jobs, q)
  {
    var n := |jobs| - 1;
    if i < n {
      CountsFewer(jobs[..n], i, p, q);
    } else {
      CountMonotone(jobs[..n], p, q);
    }
  }

  /**
   At every moment of every run: the reservations are the jobs in flight, plus
   any insertion that was cancelled; they stay within the cap, and so do the
   investigations that run.
   */
  lemma ReservationsAreTheJobsInFlight(max: nat, events: seq<Event>)
    ensures var m := Run(max, events);
            && Count(m.jobs, Holds) <= Count(m.jobs, InFlight) <= m.reserved <= max
            && (m.reserved == Count(m.jobs, InFlight) <==> forall j :: j in m.jobs ==> !Leaked(j))
            && m.dropped == Count(m.jobs, IsDropped)
  {
    RunKeepsInv(max, events);
    var m := Run(max, events);
    CountMonotone(m.jobs, Holds, InFlight);
    CountNone(m.jobs, Leaked);
  }

  /** A manager of cap one whose only reservation belongs to a cancelled insertion. */
  ghost predicate Leaking(m: Manager) {
    && m.max == 1 && m.reserved == 1
    && Count(m.jobs, InFlight) == 0
    && forall j :: j in m.jobs ==> Leaked(j) || IsDropped(j)
  }

  lemma FirstInsertionCancelled()
    ensures Leaking(Run(1, [Arrive, Resume(0, Cancelled)])) && Run(1, [Arrive, Resume(0, Cancelled)]).dropped == 0
  {
    hide Run, Count;
    var inserting, abandoned := Job(Inserting, None, false), Job(Abandoned, None, false);
    var events := [Arrive, Resume(0, Cancelled)];
    assert events[..1] == [Arrive] && [Arrive][..0] == [] && [] + [inserting] == [inserting];
    PlayNothing(1);
    PlayOne(1, [Arrive]);
    assert Run(1, [Arrive]) == Manager(1, 1, 1, 0, [inserting]);
    PlayOne(1, events);
    assert [inserting][0 := abandoned] == [abandoned] && [] + [abandoned] == [abandoned];
    CountAppend([], abandoned, InFlight);
    NoneInFlight();
  }

  lemma NoneInFlight()
    ensures Count([], InFlight) == 0
  {
  }

  lemma LeakingDrops(m: Manager)
    requires Leaking(m)
    ensures var next := Step(m, Arrive).value;
            Leaking(next) && next.dropped == m.dropped + 1
  {
    hide Count;
    CountAppend(m.jobs, Job(Dropping, None, false), InFlight);
  }

  /** An insertion that is cancelled keeps its reservation for good: with a cap of one, every later alert is dropped. */
  lemma {:induction false} CancelledInsertionLeaks(events: seq<Event>)
    requires forall i :: 0 <= i < |events| ==> events[i].Arrive?
    ensures var m := Run(1, [Arrive, Resume(0, Cancelled)] + events);
            Leaking(m) && m.dropped == |events|
  {
    hide Leaking, Run, Step;
    var first := [Arrive, Resume(0, Cancelled)];
    if events == [] {
      assert first + events == first;
      FirstInsertionCancelled();
    } else {
      var n := |events| - 1;
      CancelledInsertionLeaks(events[..n]);
      assert (first + events)[..|first + events| - 1] == first + events[..n];
      assert (first + events)[|first + events| - 1] == events[n] == Arrive;
      LeakingDrops(Run(1, first + events[..n]));
      PlayOne(1, first + events);
      ArrivalsHappen(Run(1, first + events[..n]));
    }
  }

  lemma ArrivalsHappen(m: Manager)
    ensures Step(m, Arrive).Some?
  {
  }

  /** Acquiring the semaphore never waits. */
  lemma AcquireNeverWaits(max: nat, events: seq<Event>, i: nat)
    requires i < |Run(max, events).jobs| && Run(max, events).jobs[i].stage.Spawned?
    ensures Run(max, events).free >= 1
    ensures Step(Run(max, events), Resume(i, Fine)).Some?
  {
    hide Run, Step, Inv;
    RunKeepsInv(max, events);
    SpawnedFindsASlot(Run(max, events), i);
    SpawnedGoesOn(Run(max, events), i);
  }

  lemma SpawnedFindsASlot(m: Manager, i: nat)
    requires Inv(m) && i < |m.jobs| && m.jobs[i].stage.Spawned?
    ensures m.free >= 1
  {
    hide Count, RowFits, CutFits;
    CountsFewer(m.jobs, i, Holds, InFlight);
  }

  lemma SpawnedGoesOn(m: Manager, i: nat)
    requires i < |m.jobs| && m.jobs[i].stage.Spawned? && m.free >= 1
    ensures Step(m, Resume(i, Fine)).Some?
  {
  }

  // --- one verdict each, and a row that only moves forward ---

  /** An alert's verdict, once given, stays; its row moves only along its life cycle. */
  lemma StepMovesForward(m: Manager, e: Event, i: nat)
    requires Inv(m) && i < |m.jobs| && Step(m, e).Some?
    ensures var next := Step(m, e).value;
            && |next.jobs| == |m.jobs| + (if e.Arrive? then 1 else 0)
            && RowMay(m.jobs[i].row, next.jobs[i].row)
            && (VerdictOn(m.jobs[i]) != Pending ==> VerdictOn(next.jobs[i]) == VerdictOn(m.jobs[i]))
            && (Ended(m.jobs[i]) ==> next.jobs[i] == m.jobs[i])
  {
    if e.Resume? {
      JobStepKeeps(m.jobs[e.job], e.how);
    }
  }

  /** Verdicts given in a run are those of every longer run. */
  lemma {:induction false} VerdictsAreFinal(max: nat, events: seq<Event>, more: seq<Event>, i: nat)
    requires i < |Run(max, events).jobs|
    ensures i < |Run(max, events + more).jobs|
    ensures var v := VerdictOn(Run(max, events).jobs[i]);
            v != Pending ==> VerdictOn(Run(max, events + more).jobs[i]) == v
    ensures Terminal(Run(max, events).jobs[i].row) ==>
              Run(max, events + more).jobs[i].row == Run(max, events).jobs[i].row
    decreases |more|
  {
    hide Inv, Step, VerdictOn;
    if more == [] {
      assert events + more == events;
    } else {
      var n := |more| - 1;
      VerdictsAreFinal(max, events, more[..n], i);
      assert (events + more)[..|events + more| - 1] == events + more[..n];
      RunKeepsInv(max, events + more[..n]);
      if Step(Run(max, events + more[..n]), more[n]).Some? {
        StepMovesForward(Run(max, events + more[..n]), more[n], i);
      }
    }
  }

  // --- every run drains ---

  /** How many steps a task has left at most. */
  function Rank(j: Job): (r: int)
    ensures r >= 0
  {
    match j.stage
    case Inserting => 9
    case Spawned => 8
    case Opening => 7
    case Marking => 6
    case Analysing => 5
    case Saving(_) => 4
    case Failing => 3
    case Closing => 2
    case Dropping => 1
    case _ => 0
  }

  function Work(m: Manager): int {
    Sum(m.jobs, Rank)
  }

  /** A task that has not ended can go on, and whatever a task does uses up work. */
  lemma TasksGoOn(max: nat, events: seq<Event>, i: nat)
    requires i < |Run(max, events).jobs| && !Ended(Run(max, events).jobs[i])
    ensures Step(Run(max, events), Resume(i, Fine)).Some?
  {
    if Run(max, events).jobs[i].stage.Spawned? {
      AcquireNeverWaits(max, events, i);
    }
  }

  lemma ResumeUsesWork(m: Manager, i: nat, how: How)
    requires Inv(m) && Step(m, Resume(i, how)).Some?
    ensures 0 <= Work(Step(m, Resume(i, how)).value) < Work(m)
  {
    hide Sum, Rank, JobStep, RowFits, CutFits;
    var next := JobStep(m.jobs[i], how).value;
    JobStepMoves(m.jobs[i], how);
    SumUpdate(m.jobs, i, next, Rank);
    WorkNonNegative(m.jobs[i := next]);
  }

  lemma WorkNonNegative(jobs: seq<Job>)
    ensures Sum(jobs, Rank) >= 0
  {
    SumNonNegative(jobs, Rank);
  }

  /** When all tasks have ended every slot is back, and every reservation but the cancelled insertions'. */
  lemma {:induction false} NothingInFlight(jobs: seq<Job>)
    requires forall j :: j in jobs ==> Ended(j)
    ensures Count(jobs, InFlight) == Count(jobs, Holds) == 0
  {
    if jobs != [] {
      NothingInFlight(jobs[..|jobs| - 1]);
      assert Ended(jobs[|jobs| - 1]);
    }
  }

  lemma DrainedIsFree(max: nat, events: seq<Event>)
    requires forall j :: j in Run(max, events).jobs ==> Ended(j)
    ensures Run(max, events).free == max
    ensures Run(max, events).reserved == Count(Run(max, events).jobs, Leaked)
    ensures forall j :: j in Run(max, events).jobs && j.stage.Finished? ==> (Terminal(j.row) <==> !j.cut)
  {
    RunKeepsInv(max, events);
    NothingInFlight(Run(max, events).jobs);
  }

  // --- the manager itself ---

  class InvestigationManager {
    const maxConcurrent: nat
    var reserved: int
    var free: int
    var droppedCount: nat
    var jobs: seq<Job>

    function View(): Manager
      reads this
    {
      Manager(maxConcurrent, reserved, free, droppedCount, jobs)
    }

    constructor (maxConcurrent: nat)
      ensures View() == Init(maxConcurrent)
    {
      this.maxConcurrent := maxConcurrent;
      reserved, free, droppedCount, jobs := 0, maxConcurrent, 0, [];
    }

    /** on_alert_fired up to its first await. */
    method OnAlertFired()
      modifies this
      ensures Step(old(View()), Arrive) == Some(View())
    {
      if reserved >= maxConcurrent {
        droppedCount := droppedCount + 1;
        jobs := jobs + [Job(Dropping, None, false)];
        return;
      }
      reserved := reserved + 1;
      jobs := jobs + [Job(Inserting, None, false)];
    }

    /** The insertion of the row has ended. */
    method AfterInsert(i: nat, how: How)
      requires i < |jobs| && jobs[i].stage.Inserting? && !how.NoModel?
      modifies this
      ensures Step(old(View()), Resume(i, how)) == Some(View())
    {
      if how.Fine? {
        jobs := jobs[i := Job(Spawned, Some(Queued), false)];
      } else if how.Broken? {
        reserved := reserved - 1;
        jobs := jobs[i := jobs[i].(stage := Refused)];
      } else {
        jobs := jobs[i := jobs[i].(stage := Abandoned)];
      }
    }

    /** The spawned task enters the semaphore. */
    method Acquire(i: nat)
      requires i < |jobs| && jobs[i].stage.Spawned? && free > 0
      modifies this
      ensures Step(old(View()), Resume(i, Fine)) == Some(View())
    {
      free := free - 1;
      jobs := jobs[i := jobs[i].(stage := Opening)];
    }

    /** The body of the investigation, from one await to the next; leaving it releases the slot and the reservation. */
    method Continue(i: nat, how: How)
      requires i < |jobs| && Holds(jobs[i]) && (how.NoModel? ==> jobs[i].stage.Analysing?)
      modifies this
      ensures Step(old(View()), Resume(i, how)) == Some(View())
    {
      var j := jobs[i];
      var leaving := j.stage.Closing?;
      match j.stage {
        case Opening =>
          if how.Fine? {
            j := j.(stage := Marking);
          } else {
            leaving := true;
            j := j.(cut := true);
          }
        case Marking =>
          if how.Fine? {
            j := Job(Analysing, Some(InProgress), false);
          } else if how.Broken? {
            j := j.(stage := Failing);
          } else {
            j := j.(stage := Closing, cut := true);
          }
        case Analysing =>
          if how.Cancelled? {
            j := j.(stage := Closing, cut := true);
          } else {
            j := j.(stage := Saving(if how.Fine? then Completed else if how.Broken? then Failed else Skipped));
          }
        case Saving(result) =>
          if how.Fine? {
            j := j.(stage := Closing, row := Some(result));
          } else if how.Broken? {
            j := j.(stage := Failing);
          } else {
            j := j.(stage := Closing, cut := true);
          }
        case Failing =>
          if how.Fine? {
            j := j.(stage := Closing, row := Some(Failed));
          } else {
            j := j.(stage := Closing, cut := true);
          }
        case _ =>
      }
      if leaving {
        j := j.(stage := Finished);
        free := free + 1;
        reserved := reserved - 1;
      }
      jobs := jobs[i := j];
    }

    /** The insertion of a dropped alert's row has ended, well or not. */
    method AfterDrop(i: nat, how: How)
      requires i < |jobs| && jobs[i].stage.Dropping? && !how.NoModel?
      modifies this
      ensures Step(old(View()), Resume(i, how)) == Some(View())
    {
      jobs := jobs[i := Job(DroppedOut, if how.Fine? then Some(Dropped) else None, false)];
    }

    /** The event loop: the events in order, those that cannot happen skipped. */
    method Play(events: seq<Event>)
      requires View() == Init(maxConcurrent)
      modifies this
      ensures View() == Run(maxConcurrent, events)
    {
      hide Step, JobStep, Run;
      PlayNothing(maxConcurrent);
      assert events[..0] == [];
      for n := 0 to |events|
        invariant View() == Run(maxConcurrent, events[..n])
      {
        assert events[..n + 1][..n] == events[..n];
        PlayOne(maxConcurrent, events[..n + 1]);
        ResumeOnlyIf(View(), events[n]);
        match events[n] {
          case Arrive => OnAlertFired();
          case Resume(i, how) =>
            if i < |jobs| && (how.NoModel? ==> jobs[i].stage.Analysing?) {
              if jobs[i].stage.Dropping? {
                AfterDrop(i, how);
              } else if jobs[i].stage.Inserting? {
                AfterInsert(i, how);
              } else if jobs[i].stage.Spawned? {
                if how.Fine? && free > 0 {
                  Acquire(i);
                }
              } else if Holds(jobs[i]) {
                Continue(i, how);
              }
            }
        }
      }
      assert events[..|events|] == events;
    }
  }

  lemma PlayNothing(max: nat)
    ensures Run(max, []) == Init(max)
  {
  }

  lemma PlayOne(max: nat, events: seq<Event>)
    requires events != []
    ensures var m := Run(max, events[..|events| - 1]);
            Run(max, events) == match Step(m, events[|events| - 1]) case None => m case Some(next) => next
  {
  }

  /** When an event cannot happen. */
  lemma ResumeOnlyIf(m: Manager, e: Event)
    ensures e.Resume? && (e.job >= |m.jobs| || (e.how.NoModel? && !m.jobs[e.job].stage.Analysing?)) ==> Step(m, e).None?
    ensures e.Resume? && e.job < |m.jobs| && m.jobs[e.job].stage.Spawned? && (!e.how.Fine? || m.free <= 0) ==>
              Step(m, e).None?
    ensures e.Resume? && e.job < |m.jobs| && Ended(m.jobs[e.job]) ==> Step(m, e).None?
  {
  }
}
