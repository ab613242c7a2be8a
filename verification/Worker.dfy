/**
 The worker connection object (worker/connection.go), one method for each
 stretch of code that runs without giving way to another goroutine.  Each
 method makes exactly its step of the `Sessions` machine.
 */
module Worker {
  import opened Common
  import opened Sessions
  import opened SessionSafety

  /** The code of an intent's goroutine from one point where it may give way to the next. */
  method RunGoroutine(s: Session, j: nat, c: Choice, current: bool, ws: Option<nat>)
    returns (moved: bool, after: Session)
    requires j < |s.tasks|
    ensures Advance(s, j, c, current, ws) == if moved then Some(after) else None
  {
    var t := s.tasks[j];
    moved, after := c == Go, s;
    match t.stage {
      case Waiting =>
        if c == Go && s.query < QUERY_SLOTS {
          after := after.(query := after.query + 1);
          t := t.(slot := true, stage := Running);
        } else {
          moved := c == Abandon && !s.live;
          t := t.(stage := Leaving);
        }
      case Running =>
        moved := c != Abandon;
        t := t.(stage := if c == Go then Computed else Leaving);
      case Computed => t := t.(stage := if current then Ready else Leaving);
      case Ready =>
        moved := c != Abandon;
        t := t.(stage := if c == Go && s.live then Tested else Leaving);
      case Tested => t := t.(stage := if ws.Some? then Fetched(ws.value) else Leaving);
      case Fetched(sock) =>
        moved := c != Abandon;
        if c == Go {
          t := t.(sent := t.sent + [sock]);
        }
        t := t.(stage := Leaving);
      case Leaving =>
        if moved {
          moved, after := RunDeferred(s, j);
        }
        return;
      case Done => moved := false;
    }
    after := after.(tasks := after.tasks[j := t]);
  }

  /** The next deferred release, last acquired first. */
  method RunDeferred(s: Session, j: nat) returns (moved: bool, after: Session)
    requires j < |s.tasks|
    ensures Release(s, j) == if moved then Some(after) else None
  {
    var t := s.tasks[j];
    moved, after := true, s;
    if t.slot {
      if s.query == 0 { return false, s; }
      after := after.(query := after.query - 1);
      t := t.(slot := false);
      if t.kind.Query? {
        t := t.(stage := Done);
      } else {
        t := t.(stage := Leaving);
      }
    } else {
      if t.kind.Mutation? {
        if s.mutation == 0 { return false, s; }
        after := after.(mutation := after.mutation - 1);
      } else if t.kind.Scan? {
        if s.scan == 0 { return false, s; }
        after := after.(scan := after.scan - 1);
      }
      t := t.(stage := Done);
    }
    after := after.(tasks := after.tasks[j := t]);
  }

  class WorkerConn {
    var state: Status
    var ws: Option<nat>
    var sessionEpoch: nat
    var stopped: bool
    var sessions: seq<Session>
    /** Where the main goroutine is, and how many connections it has dialed. */
    var phase: Phase
    var dialed: nat

    function View(): State
      reads this
    {
      State(phase, state, ws, dialed, sessionEpoch, stopped, sessions)
    }

    constructor ()
      ensures View() == INIT
    {
      state, ws, sessionEpoch, stopped, sessions, phase, dialed := Disconnected, None, 0, false, [], Top, 0;
    }

    method StartConnecting()
      requires phase.Top? && !stopped
      modifies this
      ensures Step(old(View()), StartConnect) == Some(View())
    {
      state, phase := InProgress, Connecting;
    }

    method AfterDial(ok: bool)
      requires phase.Connecting?
      modifies this
      ensures Step(old(View()), Dial(ok)) == Some(View())
    {
      if ok {
        ws, dialed, phase := Some(dialed), dialed + 1, Enrolling;
      } else {
        state, phase := Disconnected, Failed;
      }
    }

    method AfterEnrollment(ok: bool)
      requires phase.Enrolling?
      modifies this
      ensures Step(old(View()), Enroll(ok)) == Some(View())
    {
      if ok {
        phase := Enrolled;
      } else {
        state, phase := Disconnected, Failed;
      }
    }

    method BeginSession()
      requires phase.Enrolled?
      modifies this
      ensures Step(old(View()), Begin) == Some(View())
    {
      if ws.None? {
        phase := Ended;
        return;
      }
      state, phase := Operational, Serving;
      sessions := sessions + [Session(ws.value, !stopped, 0, 0, 0, [])];
      sessionEpoch := sessionEpoch + 1;
    }

    method ReceiveIntent(kind: Kind, reply: bool)
      requires phase.Serving? && |sessions| > 0
      modifies this
      ensures Step(old(View()), Arrive(kind, reply)) == Some(View())
    {
      var n := |sessions| - 1;
      var s := sessions[n];
      var free := match kind case Mutation => s.mutation < 1 case Scan => s.scan < 1 case Query => true;
      if free {
        s := s.(tasks := s.tasks + [Task(kind, false, if kind.Mutation? then Running else Waiting, [])]);
        if kind.Mutation? {
          s := s.(mutation := s.mutation + 1);
        } else if kind.Scan? {
          s := s.(scan := s.scan + 1);
        }
      } else {
        var sent := if reply && s.live && ws.Some? then [ws.value] else [];
        s := s.(tasks := s.tasks + [Task(kind, false, Done, sent)]);
      }
      sessions := sessions[n := s];
    }

    method CancelSession()
      modifies this`sessions
      ensures sessions == Cancel(old(sessions))
    {
      var n := |sessions| - 1;
      if n >= 0 {
        sessions := sessions[n := sessions[n].(live := false)];
      }
    }

    method ReturnFromSession()
      requires phase.Serving?
      modifies this
      ensures Step(old(View()), Return) == Some(View())
    {
      CancelSession();
      phase := Ended;
    }

    method DropConnection(again: bool)
      requires phase.Ended? || phase.Failed?
      modifies this
      ensures Step(old(View()), Disconnect(again)) == Some(View())
    {
      ws, state := None, Disconnected;
      phase := if !again then Finished else if phase.Ended? then Top else Backoff;
    }

    method StopWorker()
      modifies this
      ensures Step(old(View()), Stop) == Some(View())
    {
      stopped := true;
      if phase.Serving? {
        CancelSession();
      }
    }

    /**
     One step of a goroutine, or none if it is blocked or gone; it keeps the
     invariant and uses up the session's work.
     */
    method AdvanceTask(i: nat, j: nat, c: Choice) returns (moved: bool)
      modifies this
      ensures if moved then Step(old(View()), TaskStep(i, j, c)) == Some(View())
              else View() == old(View()) && Step(View(), TaskStep(i, j, c)).None?
      ensures Inv(old(View())) ==> Inv(View())
      ensures moved && Inv(old(View())) ==> i < |sessions| && Work(sessions[i]) < Work(old(sessions)[i])
    {
      hide Inv, Work, Advance;
      ghost var before := View();
      if i >= |sessions| || j >= |sessions[i].tasks| { return false; }
      var after: Session;
      moved, after := RunGoroutine(sessions[i], j, c, sessionEpoch == i + 1, ws);
      if !moved { return; }
      sessions := sessions[i := after];
      if Inv(before) {
        StepKeepsInv(before, TaskStep(i, j, c));
        SessionSlots(before, i);
        AdvanceDecreasesWork(before.sessions[i], j, c, before.epoch == i + 1, before.ws);
      }
    }

    /** One event of a schedule, if it can happen. */
    method Take(e: Event) returns (moved: bool)
      modifies this
      ensures moved <==> Step(old(View()), e).Some?
      ensures if moved then Step(old(View()), e) == Some(View()) else View() == old(View())
    {
      moved := Step(View(), e).Some?;
      if moved {
        match e
        case StartConnect => StartConnecting();
        case Dial(ok) => AfterDial(ok);
        case Enroll(ok) => AfterEnrollment(ok);
        case Begin => BeginSession();
        case Arrive(kind, reply) => ReceiveIntent(kind, reply);
        case Return => ReturnFromSession();
        case Disconnect(again) => DropConnection(again);
        case Wake => phase := Top;
        case Quit => phase, state, ws := Finished, Disconnected, None;
        case Stop => StopWorker();
        case TaskStep(i, j, c) => var _ := AdvanceTask(i, j, c);
      }
    }

    /** Plays a schedule of any interleaving: what can happen of it happens, in order, and the rest is passed over. */
    method Play(schedule: seq<Event>)
      requires View() == INIT
      modifies this
      ensures View() == Played(schedule).1 && Inv(View())
      ensures CarefulRun(INIT, Played(schedule).0) ==> NoLeak(View())
    {
      hide Inv, Step, NoLeak, CarefulRun;
      for n := 0 to |schedule|
        invariant View() == Played(schedule[..n]).1
      {
        assert schedule[..n + 1][..n] == schedule[..n];
        var _ := Take(schedule[n]);
      }
      assert schedule[..|schedule|] == schedule;
      PlayedIsARun(schedule);
      if CarefulRun(INIT, Played(schedule).0) {
        ResultsStayInTheirSession(Played(schedule).0);
      }
    }
  }

  lemma SessionSlots(s: State, i: nat)
    requires Inv(s) && i < |s.sessions|
    ensures SlotsOk(s.sessions[i])
  {
  }
}
