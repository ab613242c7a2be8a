/**
 What holds in every run of the worker: the concurrency limits, the pairing of
 results with connections, and the draining of the slots.
 */
module SessionSafety {
  import opened Common
  import opened Sessions

  // --- every run ---

  lemma {:induction false} RunKeepsInv(s: State, run: seq<Event>)
    requires Inv(s) && Exec(s, run).Some?
    ensures Inv(Exec(s, run).value)
    decreases |run|
  {
    if run != [] {
      StepKeepsInv(s, run[0]);
      RunKeepsInv(Step(s, run[0]).value, run[1..]);
    }
  }

  /** The events of a schedule that happen when those that cannot are passed over, and the state they lead to. */
  function Played(schedule: seq<Event>): (p: (seq<Event>, State)) {
    if schedule == [] then ([], INIT)
    else
      var n := |schedule| - 1;
      var (before, s) := Played(schedule[..n]);
      match Step(s, schedule[n])
      case None => (before, s)
      case Some(next) => (before + [schedule[n]], next)
  }

  /** Every schedule leads to a state that a run reaches, and nothing of a run is passed over. */
  lemma {:induction false} PlayedIsARun(schedule: seq<Event>)
    ensures Exec(INIT, Played(schedule).0) == Some(Played(schedule).1)
    ensures Inv(Played(schedule).1)
    ensures Exec(INIT, schedule).Some? ==> Played(schedule).0 == schedule
  {
    hide Step, Inv;
    if schedule == [] {
      InitInv();
    } else {
      var n := |schedule| - 1;
      var before, s := Played(schedule[..n]).0, Played(schedule[..n]).1;
      PlayedIsARun(schedule[..n]);
      if Step(s, schedule[n]).Some? {
        ExecSnoc(INIT, before, schedule[n]);
        StepKeepsInv(s, schedule[n]);
      }
      assert schedule == schedule[..n] + [schedule[n]];
      if Exec(INIT, schedule).Some? {
        ExecOfSnoc(INIT, schedule[..n], schedule[n]);
      }
    }
  }

  /** A run that can happen can happen up to its last event. */
  lemma {:induction false} ExecOfSnoc(s: State, run: seq<Event>, e: Event)
    requires Exec(s, run + [e]).Some?
    ensures Exec(s, run).Some? && Step(Exec(s, run).value, e).Some?
    decreases |run|
  {
    hide Step;
    if run == [] {
      assert [e][1..] == [] && run + [e] == [e];
    } else {
      assert (run + [e])[1..] == run[1..] + [e] && (run + [e])[0] == run[0];
      ExecOfSnoc(Step(s, run[0]).value, run[1..], e);
    }
  }

  predicate Executing(t: Task) {
    !t.stage.Waiting? && !t.stage.Leaving? && !t.stage.Done?
  }

  predicate MutationExecutes(t: Task) {
    t.kind.Mutation? && Executing(t)
  }

  predicate ScanAdmitted(t: Task) {
    t.kind.Scan? && !t.stage.Done?
  }

  predicate ReadOnlyExecutes(t: Task) {
    !t.kind.Mutation? && Executing(t)
  }

  /** The limits of every session, in every reachable state. */
  lemma SessionLimits(run: seq<Event>, i: nat)
    requires Exec(INIT, run).Some? && i < |Exec(INIT, run).value.sessions|
    ensures var s := Exec(INIT, run).value.sessions[i];
            && Count(s.tasks, MutationExecutes) <= 1
            && Count(s.tasks, ScanAdmitted) <= 1
            && Count(s.tasks, ReadOnlyExecutes) <= QUERY_SLOTS
            && s.query == Count(s.tasks, HoldsQuery)
            && s.mutation == Count(s.tasks, HoldsMutation)
            && s.scan == Count(s.tasks, HoldsScan)
            && forall j :: 0 <= j < |s.tasks| ==> |s.tasks[j].sent| <= 1
  {
    hide Count;
    RunKeepsInv(INIT, run);
    var s := Exec(INIT, run).value.sessions[i];
    assert SlotsOk(s);
    CountMonotone(s.tasks, MutationExecutes, HoldsMutation);
    CountMonotone(s.tasks, ScanAdmitted, HoldsScan);
    CountMonotone(s.tasks, ReadOnlyExecutes, HoldsQuery);
  }

  // --- results stay with their session ---

  /** Every INTENT_RESULT was written to the connection of the session that received the intent. */
  predicate NoLeak(s: State) {
    forall i, j :: 0 <= i < |s.sessions| && 0 <= j < |s.sessions[i].tasks| ==>
      forall k :: k in s.sessions[i].tasks[j].sent ==> k == s.sessions[i].sock
  }

  /** A goroutine between sendJSON's context test and its fetch belongs to a live session. */
  predicate TaskConfined(s: Session, t: Task) {
    && (t.stage.Tested? ==> s.live)
    && (t.stage.Fetched? ==> t.stage.sock == s.sock)
    && (forall k :: k in t.sent ==> k == s.sock)
  }

  predicate Confined(s: Session) {
    forall j :: 0 <= j < |s.tasks| ==> TaskConfined(s, s.tasks[j])
  }

  /** The session does not end while one of its goroutines is between the test and the fetch. */
  predicate Careful(s: State, e: Event) {
    (e.Return? || e.Stop?) && s.phase.Serving? && |s.sessions| > 0 ==>
      forall t :: t in s.sessions[|s.sessions| - 1].tasks ==> !t.stage.Tested?
  }

  predicate CarefulRun(s: State, run: seq<Event>)
    decreases |run|
  {
    run == [] ||
    (Careful(s, run[0]) && (Step(s, run[0]).Some? ==> CarefulRun(Step(s, run[0]).value, run[1..])))
  }

  lemma AdvanceStaysConfined(s: Session, b: nat, c: Choice, current: bool, ws: Option<nat>)
    requires b < |s.tasks| && Confined(s) && (s.live ==> ws == Some(s.sock))
    requires Advance(s, b, c, current, ws).Some?
    ensures Confined(Advance(s, b, c, current, ws).value)
  {
    hide Advance, TaskConfined;
    assert TaskConfined(s, s.tasks[b]);
    var n := Advance(s, b, c, current, ws).value;
    AdvancePuts(s, b, c, current, ws);
    AdvancedStaysConfined(s, b, c, current, ws);
    forall j | 0 <= j < |n.tasks|
      ensures TaskConfined(n, n.tasks[j])
    {
      if j != b {
        assert TaskConfined(s, s.tasks[j]);
        SameSession(s, n, s.tasks[j]);
      }
    }
  }

  lemma SameSession(s: Session, n: Session, t: Task)
    requires n.sock == s.sock && n.live == s.live
    ensures TaskConfined(s, t) == TaskConfined(n, t)
  {
  }

  lemma AdvancedStaysConfined(s: Session, b: nat, c: Choice, current: bool, ws: Option<nat>)
    requires b < |s.tasks| && TaskConfined(s, s.tasks[b]) && (s.live ==> ws == Some(s.sock))
    requires Advance(s, b, c, current, ws).Some?
    ensures b < |Advance(s, b, c, current, ws).value.tasks|
    ensures TaskConfined(Advance(s, b, c, current, ws).value, Advance(s, b, c, current, ws).value.tasks[b])
  {
  }

  lemma StepStaysConfined(s: State, e: Event)
    requires Inv(s) && Careful(s, e) && Step(s, e).Some?
    requires forall i :: 0 <= i < |s.sessions| ==> Confined(s.sessions[i])
    ensures forall i :: 0 <= i < |Step(s, e).value.sessions| ==> Confined(Step(s, e).value.sessions[i])
  {
    hide SlotsOk;
    match e
    case TaskStep(i, j, c) => AdvanceStaysConfined(s.sessions[i], j, c, s.epoch == i + 1, s.ws);
    case _ =>
  }

  lemma {:induction false} CarefulRunStaysConfined(s: State, run: seq<Event>)
    requires Inv(s) && CarefulRun(s, run) && Exec(s, run).Some?
    requires forall i :: 0 <= i < |s.sessions| ==> Confined(s.sessions[i])
    ensures forall i :: 0 <= i < |Exec(s, run).value.sessions| ==> Confined(Exec(s, run).value.sessions[i])
    decreases |run|
  {
    if run != [] {
      StepStaysConfined(s, run[0]);
      StepKeepsInv(s, run[0]);
      CarefulRunStaysConfined(Step(s, run[0]).value, run[1..]);
    }
  }

  /**
   When the context test and the fetch of the connection act as one step, no
   result computed in one session is ever written to another session's connection.
   */
  lemma ResultsStayInTheirSession(run: seq<Event>)
    requires CarefulRun(INIT, run) && Exec(INIT, run).Some?
    ensures NoLeak(Exec(INIT, run).value)
  {
    CarefulRunStaysConfined(INIT, run);
    var s := Exec(INIT, run).value;
    forall i, j, k | 0 <= i < |s.sessions| && 0 <= j < |s.sessions[i].tasks| && k in s.sessions[i].tasks[j].sent
      ensures k == s.sessions[i].sock
    {
      assert TaskConfined(s.sessions[i], s.sessions[i].tasks[j]);
    }
  }

  /** While a session's context is live the worker's connection is that session's, in every run. */
  lemma LiveSessionOwnsConnection(run: seq<Event>, i: nat)
    requires Exec(INIT, run).Some?
    requires i < |Exec(INIT, run).value.sessions| && Exec(INIT, run).value.sessions[i].live
    ensures var s := Exec(INIT, run).value;
            s.ws == Some(s.sessions[i].sock) && s.phase.Serving? && s.epoch == i + 1 && !s.stopped
    ensures forall j :: 0 <= j < |Exec(INIT, run).value.sessions| && j != i ==>
              !Exec(INIT, run).value.sessions[j].live &&
              Exec(INIT, run).value.sessions[j].sock != Exec(INIT, run).value.sessions[i].sock
  {
    hide SlotsOk;
    RunKeepsInv(INIT, run);
  }

  /** A failed attempt to connect or enroll is being waited out, or will be. */
  predicate BacksOff(p: Phase) {
    p.Failed? || p.Backoff? || p.Finished?
  }

  /** After a failed attempt the worker does not dial again before it has waited. */
  lemma {:induction false} FailuresBackOff(s: State, run: seq<Event>)
    requires BacksOff(s.phase) && Exec(s, run).Some? && Wake !in run
    ensures BacksOff(Exec(s, run).value.phase) && Exec(s, run).value.sockets == s.sockets
    decreases |run|
  {
    hide Advance, Admit;
    if run != [] {
      FailuresBackOff(Step(s, run[0]).value, run[1..]);
    }
  }

  /** A session that ended is made up for at once. */
  lemma EndedSessionIsMadeUpFor(s: State)
    requires Inv(s) && s.phase.Ended? && !s.stopped
    ensures var run := [Disconnect(true), StartConnect, Dial(true)];
            && Exec(s, run).Some?
            && Exec(s, run).value.phase.Enrolling? && Exec(s, run).value.ws == Some(s.sockets)
  {
    hide SlotsOk;
    var rest := [StartConnect, Dial(true)];
    assert [Disconnect(true), StartConnect, Dial(true)][1..] == rest;
    assert rest[1..] == [Dial(true)] && [Dial(true)][1..] == [];
    var top := Step(s, Disconnect(true)).value;
    var dialing := Step(top, StartConnect).value;
    assert Exec(dialing, [Dial(true)]) == Exec(Step(dialing, Dial(true)).value, []);
  }

  // --- exactly when a result can reach another session ---

  predicate IsTask(s: State, i: nat, j: nat) {
    i < |s.sessions| && j < |s.sessions[i].tasks|
  }

  /** After `run` the goroutine has written a result to a connection that is not its session's. */
  predicate Leaks(s: State, run: seq<Event>, i: nat, j: nat) {
    && Exec(s, run).Some? && IsTask(Exec(s, run).value, i, j)
    && var x := Exec(s, run).value.sessions[i];
       exists k :: k in x.tasks[j].sent && k != x.sock
  }

  /** Another connection than this session's is the worker's, or can still become so. */
  predicate Foreign(s: State, i: nat)
    requires i < |s.sessions|
  {
    || (s.ws.Some? && s.ws.value != s.sessions[i].sock)
    || s.phase.Connecting?
    || (!s.stopped && !s.phase.Finished?)
  }

  /** The goroutine has written a result to another connection, or is past what could stop it. */
  predicate PastTheTest(s: Session, t: Task, foreign: bool) {
    || (exists k :: k in t.sent && k != s.sock)
    || (t.stage.Fetched? && t.stage.sock != s.sock)
    || (t.stage.Tested? && foreign)
  }

  lemma AdvanceKeepsDeadTask(s: Session, b: nat, c: Choice, current: bool, ws: Option<nat>, j: nat, foreign: bool)
    requires b < |s.tasks| && Advance(s, b, c, current, ws).Some?
    requires j < |s.tasks| && !s.live && !PastTheTest(s, s.tasks[j], foreign)
    requires !foreign ==> ws.None? || ws.value == s.sock
    ensures var n := Advance(s, b, c, current, ws).value;
            j < |n.tasks| && !PastTheTest(n, n.tasks[j], foreign)
  {
    hide Advance;
    AdvancePuts(s, b, c, current, ws);
    if j == b {
      AdvancedStaysDead(s, b, c, current, ws, foreign);
    }
  }

  lemma AdvancedStaysDead(s: Session, b: nat, c: Choice, current: bool, ws: Option<nat>, foreign: bool)
    requires b < |s.tasks| && Advance(s, b, c, current, ws).Some? && !s.live
    requires !PastTheTest(s, s.tasks[b], foreign) && (!foreign ==> ws.None? || ws.value == s.sock)
    ensures var n := Advance(s, b, c, current, ws).value;
            b < |n.tasks| && !PastTheTest(n, n.tasks[b], foreign)
  {
  }

  lemma AdmitKeepsTasks(s: Session, kind: Kind, ws: Option<nat>, reply: bool)
    ensures |Admit(s, kind, ws, reply).tasks| == |s.tasks| + 1
    ensures Admit(s, kind, ws, reply).tasks[..|s.tasks|] == s.tasks
  {
  }

  lemma ForeignFades(s: State, e: Event, i: nat)
    requires Inv(s) && i < |s.sessions| && Step(s, e).Some? && !Foreign(s, i)
    ensures i < |Step(s, e).value.sessions| && !Foreign(Step(s, e).value, i)
  {
    hide SlotsOk, Advance, Admit;
  }

  lemma StepKeepsDeadTask(s: State, e: Event, i: nat, j: nat)
    requires Inv(s) && IsTask(s, i, j) && Step(s, e).Some?
    requires !s.sessions[i].live && !PastTheTest(s.sessions[i], s.sessions[i].tasks[j], Foreign(s, i))
    ensures var n := Step(s, e).value;
            && IsTask(n, i, j) && !n.sessions[i].live
            && !PastTheTest(n.sessions[i], n.sessions[i].tasks[j], Foreign(n, i))
  {
    var foreign := Foreign(s, i);
    DeadTaskAfter(s, e, i, j, foreign);
    if !foreign {
      ForeignFades(s, e, i);
    }
  }

  lemma DeadTaskAfter(s: State, e: Event, i: nat, j: nat, foreign: bool)
    requires Inv(s) && IsTask(s, i, j) && Step(s, e).Some? && foreign == Foreign(s, i)
    requires !s.sessions[i].live && !PastTheTest(s.sessions[i], s.sessions[i].tasks[j], foreign)
    ensures var n := Step(s, e).value;
            && IsTask(n, i, j) && !n.sessions[i].live
            && !PastTheTest(n.sessions[i], n.sessions[i].tasks[j], foreign)
            && (foreign ==> !n.sessions[i].tasks[j].stage.Tested?)
  {
    hide SlotsOk, Advance, Admit;
    match e
    case TaskStep(a, b, c) =>
      if a == i {
        AdvanceKeepsDeadTask(s.sessions[i], b, c, s.epoch == i + 1, s.ws, j, foreign);
      }
    case Arrive(kind, reply) => AdmitKeepsTasks(s.sessions[|s.sessions| - 1], kind, s.ws, reply);
    case _ =>
  }

  /** A goroutine of a dead session that is not past the test never reaches another session's connection. */
  lemma {:induction false} DeadTaskStaysHome(s: State, run: seq<Event>, i: nat, j: nat)
    requires Inv(s) && IsTask(s, i, j)
    requires !s.sessions[i].live && !PastTheTest(s.sessions[i], s.sessions[i].tasks[j], Foreign(s, i))
    ensures !Leaks(s, run, i, j)
    decreases |run|
  {
    hide SlotsOk, Foreign;
    if run != [] && Step(s, run[0]).Some? {
      StepKeepsDeadTask(s, run[0], i, j);
      StepKeepsInv(s, run[0]);
      DeadTaskStaysHome(Step(s, run[0]).value, run[1..], i, j);
    }
  }

  function StepsToDial(p: Phase): nat {
    match p
    case Ended => 3
    case Failed => 4
    case Backoff => 3
    case Top => 2
    case Connecting => 1
    case _ => 0
  }

  /** The main goroutine can always go on to dial a connection that is not the dead session's. */
  lemma {:induction false} CanDialAnew(s: State, i: nat) returns (run: seq<Event>)
    requires Inv(s) && !s.stopped && !s.phase.Finished?
    requires i < |s.sessions| && !s.sessions[i].live
    ensures Exec(s, run).Some?
    ensures var n := Exec(s, run).value;
            n.sessions == s.sessions && n.ws.Some? && n.ws.value != s.sessions[i].sock
    decreases StepsToDial(s.phase)
  {
    hide SlotsOk;
    if s.phase.Enrolling? || s.phase.Enrolled? || s.phase.Serving? {
      return [];
    }
    var e :=
      match s.phase
      case Ended => Disconnect(true)
      case Failed => Disconnect(true)
      case Backoff => Wake
      case Top => StartConnect
      case _ => Dial(true);
    StepKeepsInv(s, e);
    var rest := CanDialAnew(Step(s, e).value, i);
    run := [e] + rest;
  }

  lemma {:induction false} ExecAppend(s: State, a: seq<Event>, b: seq<Event>)
    requires Exec(s, a).Some?
    ensures Exec(s, a + b) == Exec(Exec(s, a).value, b)
    decreases |a|
  {
    if a == [] {
      assert a + b == b;
    } else {
      assert (a + b)[1..] == a[1..] + b;
      ExecAppend(Step(s, a[0]).value, a[1..], b);
    }
  }

  lemma FetchAndDeliver(s: State, i: nat, j: nat)
    requires IsTask(s, i, j) && s.sessions[i].tasks[j].stage.Tested?
    requires s.ws.Some? && s.ws.value != s.sessions[i].sock
    ensures Leaks(s, [TaskStep(i, j, Go), TaskStep(i, j, Go)], i, j)
  {
    var go := TaskStep(i, j, Go);
    var t := s.sessions[i].tasks[j];
    var s1 := Step(s, go).value;
    assert s1.sessions[i].tasks[j] == t.(stage := Fetched(s.ws.value));
    var s2 := Step(s1, go).value;
    assert s2.sessions[i].tasks[j].sent == t.sent + [s.ws.value];
    assert [go, go][1..] == [go] && [go][1..] == [];
    assert Exec(s1, [go]) == Some(s2);
    assert Exec(s, [go, go]) == Some(s2);
    assert s.ws.value in s2.sessions[i].tasks[j].sent;
  }

  /** A goroutine that has fetched another session's connection can write to it. */
  lemma Deliver(s: State, i: nat, j: nat)
    requires IsTask(s, i, j)
    requires var t := s.sessions[i].tasks[j]; t.stage.Fetched? && t.stage.sock != s.sessions[i].sock
    ensures Leaks(s, [TaskStep(i, j, Go)], i, j)
  {
    var go := TaskStep(i, j, Go);
    var t := s.sessions[i].tasks[j];
    var n := Step(s, go).value;
    assert n.sessions[i].tasks[j].sent == t.sent + [t.stage.sock];
    assert [go][1..] == [];
    assert Exec(s, [go]) == Some(n);
    assert t.stage.sock in n.sessions[i].tasks[j].sent;
  }

  /** Where another connection is or can become the worker's, it can be made so without moving any goroutine. */
  lemma MakeForeign(s: State, i: nat) returns (run: seq<Event>)
    requires Inv(s) && i < |s.sessions| && !s.sessions[i].live && Foreign(s, i)
    ensures Exec(s, run).Some?
    ensures var n := Exec(s, run).value;
            n.sessions == s.sessions && n.ws.Some? && n.ws.value != s.sessions[i].sock
  {
    hide SlotsOk;
    if s.ws.Some? && s.ws.value != s.sessions[i].sock {
      run := [];
    } else if s.phase.Connecting? {
      run := [Dial(true)];
      assert run[1..] == [];
    } else {
      run := CanDialAnew(s, i);
    }
  }

  /**
   A goroutine left over from a dead session can write a result to another
   session's connection exactly when it has done so, or has fetched one, or had
   passed sendJSON's context test while another connection is or can become the
   worker's.
   */
  lemma LeaksExactlyWhenPastTheTest(s: State, i: nat, j: nat)
    requires Inv(s) && IsTask(s, i, j) && !s.sessions[i].live
    ensures PastTheTest(s.sessions[i], s.sessions[i].tasks[j], Foreign(s, i)) <==> exists run :: Leaks(s, run, i, j)
  {
    hide SlotsOk, ConnectionOk, LiveOk, Foreign;
    var x := s.sessions[i];
    var t := x.tasks[j];
    if exists k :: k in t.sent && k != x.sock {
      assert Leaks(s, [], i, j);
    } else if t.stage.Fetched? && t.stage.sock != x.sock {
      Deliver(s, i, j);
    } else if t.stage.Tested? && Foreign(s, i) {
      var dial := MakeForeign(s, i);
      var n := Exec(s, dial).value;
      FetchAndDeliver(n, i, j);
      var last := [TaskStep(i, j, Go), TaskStep(i, j, Go)];
      ExecAppend(s, dial, last);
      assert Leaks(s, dial + last, i, j);
    } else {
      forall run
        ensures !Leaks(s, run, i, j)
      {
        DeadTaskStaysHome(s, run, i, j);
      }
    }
  }

  lemma ExecSnoc(s: State, run: seq<Event>, e: Event)
    requires Exec(s, run).Some? && Step(Exec(s, run).value, e).Some?
    ensures Exec(s, run + [e]) == Step(Exec(s, run).value, e)
  {
    ExecAppend(s, run, [e]);
    assert [e][1..] == [];
  }

  /** The worker while its first session serves one query, whose goroutine is at a stage. */
  function ServingQuery(stage: Stage): State {
    State(Serving, Operational, Some(0), 1, 1, false,
          [Session(0, true, if stage.Waiting? then 0 else 1, 0, 0, [Task(Query, !stage.Waiting?, stage, [])])])
  }

  lemma ServingQueryStep(run: seq<Event>, stage: Stage, next: Stage) returns (more: seq<Event>)
    requires Exec(INIT, run) == Some(ServingQuery(stage))
    requires (stage, next) in {(Waiting, Running), (Running, Computed), (Computed, Ready), (Ready, Tested)}
    ensures Exec(INIT, more) == Some(ServingQuery(next))
  {
    var x := ServingQuery(stage).sessions[0];
    var y := ServingQuery(next).sessions[0];
    assert x.tasks[0 := y.tasks[0]] == y.tasks && [x][0 := y] == [y];
    assert Advance(x, 0, Go, true, Some(0)) == Some(y);
    more := run + [TaskStep(0, 0, Go)];
    ExecSnoc(INIT, run, TaskStep(0, 0, Go));
  }

  lemma FirstQueryArrives() returns (run: seq<Event>)
    ensures Exec(INIT, run) == Some(ServingQuery(Waiting))
  {
    run := [];
    ExecSnoc(INIT, run, StartConnect);
    run := run + [StartConnect];
    ExecSnoc(INIT, run, Dial(true));
    run := run + [Dial(true)];
    ExecSnoc(INIT, run, Enroll(true));
    run := run + [Enroll(true)];
    ExecSnoc(INIT, run, Begin);
    run := run + [Begin];
    var x, y := Session(0, true, 0, 0, 0, []), ServingQuery(Waiting).sessions[0];
    assert Exec(INIT, run).value.sessions == [x] && Admit(x, Query, Some(0), true) == y && [x][0 := y] == [y];
    ExecSnoc(INIT, run, Arrive(Query, true));
    run := run + [Arrive(Query, true)];
  }

  /** The worker after that session has ended with the query past the context test. */
  const ABANDONED_QUERY :=
    State(Ended, Operational, Some(0), 1, 1, false, [Session(0, false, 1, 0, 0, [Task(Query, true, Tested, [])])])

  lemma QueryIsAbandoned() returns (run: seq<Event>)
    ensures Exec(INIT, run) == Some(ABANDONED_QUERY)
  {
    run := FirstQueryArrives();
    run := ServingQueryStep(run, Waiting, Running);
    run := ServingQueryStep(run, Running, Computed);
    run := ServingQueryStep(run, Computed, Ready);
    run := ServingQueryStep(run, Ready, Tested);
    var x := ServingQuery(Tested).sessions[0];
    assert [x][0 := x.(live := false)] == ABANDONED_QUERY.sessions;
    assert Step(ServingQuery(Tested), Return) == Some(ABANDONED_QUERY);
    ExecSnoc(INIT, run, Return);
    run := run + [Return];
  }

  lemma LeakIsNoted(s: State, run: seq<Event>, i: nat, j: nat)
    requires Leaks(s, run, i, j)
    ensures !NoLeak(Exec(s, run).value)
  {
  }

  /**
   Without the assumption of `ResultsStayInTheirSession` its conclusion fails:
   a query passes the context test, its session ends, the worker reconnects,
   and the query then fetches and writes to the new connection.
   */
  lemma ResultsCanReachAnotherSession()
    ensures exists run :: Exec(INIT, run).Some? && !NoLeak(Exec(INIT, run).value)
  {
    hide Inv, NoLeak, Exec, Leaks;
    var run := QueryIsAbandoned();
    InitInv();
    RunKeepsInv(INIT, run);
    LeaksExactlyWhenPastTheTest(ABANDONED_QUERY, 0, 0);
    var more :| Leaks(ABANDONED_QUERY, more, 0, 0);
    ExecAppend(INIT, run, more);
    LeakIsNoted(ABANDONED_QUERY, more, 0, 0);
    assert Exec(INIT, run + more).Some? by { LeakHappens(ABANDONED_QUERY, more, 0, 0); }
  }

  lemma LeakHappens(s: State, run: seq<Event>, i: nat, j: nat)
    requires Leaks(s, run, i, j)
    ensures Exec(s, run).Some?
  {
  }

  // --- waiting and draining ---

  /** How many more steps a goroutine can take. */
  function Remaining(t: Task): int {
    match t.stage
    case Waiting => 9
    case Running => 8
    case Computed => 7
    case Ready => 6
    case Tested => 5
    case Fetched(_) => 4
    case Leaving => if t.slot then 2 else 1
    case Done => 0
  }

  function Work(s: Session): int {
    Sum(s.tasks, Remaining)
  }

  lemma AdvanceDecreasesWork(s: Session, j: nat, c: Choice, current: bool, ws: Option<nat>)
    requires j < |s.tasks| && SlotsOk(s) && Advance(s, j, c, current, ws).Some?
    ensures Work(Advance(s, j, c, current, ws).value) < Work(s)
  {
    hide Count, Sum;
    assert TaskOk(s.tasks[j]);
    var n := Advance(s, j, c, current, ws).value;
    SumUpdate(s.tasks, j, n.tasks[j], Remaining);
  }

  ghost predicate CanAdvance(s: Session, j: nat) {
    j < |s.tasks| && forall current, ws :: Advance(s, j, Go, current, ws).Some?
  }

  /** A goroutine that neither waits nor is gone can always take its next step. */
  lemma OnlyWaitersBlock(s: Session, j: nat)
    requires SlotsOk(s) && j < |s.tasks| && !s.tasks[j].stage.Waiting? && !s.tasks[j].stage.Done?
    ensures CanAdvance(s, j)
  {
    hide Count;
    assert TaskOk(s.tasks[j]);
    if s.tasks[j].slot {
      CountPositive(s.tasks, j, HoldsQuery);
    } else if s.tasks[j].kind.Mutation? {
      CountPositive(s.tasks, j, HoldsMutation);
    } else if s.tasks[j].kind.Scan? {
      CountPositive(s.tasks, j, HoldsScan);
    }
  }

  predicate UnblockedHolder(t: Task) {
    t.slot && !t.stage.Waiting? && !t.stage.Done?
  }

  /** When no query slot is free, four goroutines hold one and none of them waits for anything. */
  lemma WaitersHaveUnblockedHolders(s: Session)
    requires SlotsOk(s) && s.query == QUERY_SLOTS
    ensures Count(s.tasks, UnblockedHolder) == 4
    ensures forall j: nat :: j < |s.tasks| && UnblockedHolder(s.tasks[j]) ==> CanAdvance(s, j)
  {
    CountMonotone(s.tasks, HoldsQuery, UnblockedHolder);
    CountMonotone(s.tasks, UnblockedHolder, HoldsQuery);
    forall j: nat | j < |s.tasks| && UnblockedHolder(s.tasks[j])
      ensures CanAdvance(s, j)
    {
      OnlyWaitersBlock(s, j);
    }
  }

  lemma {:induction false} SomeHolder(tasks: seq<Task>) returns (j: nat)
    requires Count(tasks, HoldsQuery) > 0
    ensures j < |tasks| && tasks[j].slot
  {
    var n := |tasks| - 1;
    if tasks[n].slot {
      j := n;
    } else {
      j := SomeHolder(tasks[..n]);
    }
  }

  /** Slot waiting never deadlocks: unless every goroutine is gone, one of them can go on. */
  lemma NoDeadlock(s: Session)
    requires SlotsOk(s) && exists j :: 0 <= j < |s.tasks| && !s.tasks[j].stage.Done?
    ensures exists j: nat :: CanAdvance(s, j)
  {
    var j: nat :| j < |s.tasks| && !s.tasks[j].stage.Done?;
    if !s.tasks[j].stage.Waiting? {
      OnlyWaitersBlock(s, j);
    } else if s.query < QUERY_SLOTS {
      assert CanAdvance(s, j);
    } else {
      var h := SomeHolder(s.tasks);
      assert TaskOk(s.tasks[h]);
      OnlyWaitersBlock(s, h);
    }
  }

  /** A session's state after some of its goroutines' steps, with no new intents. */
  function Drain(s: Session, steps: seq<(nat, Choice, bool, Option<nat>)>): Option<Session>
    decreases |steps|
  {
    if steps == [] then Some(s)
    else
      var (j, c, current, ws) := steps[0];
      if j >= |s.tasks| || Advance(s, j, c, current, ws).None? then None
      else Drain(Advance(s, j, c, current, ws).value, steps[1..])
  }

  /**
   Once no new intents arrive a session takes a bounded number of steps, and
   when it can take no more every slot has been released.
   */
  lemma {:induction false} SessionsDrain(s: Session, steps: seq<(nat, Choice, bool, Option<nat>)>)
    requires SlotsOk(s) && Drain(s, steps).Some?
    ensures |steps| <= Work(s)
    ensures var n := Drain(s, steps).value;
            (forall j: nat :: !CanAdvance(n, j)) ==> n.query == 0 && n.mutation == 0 && n.scan == 0
    decreases |steps|
  {
    if steps == [] {
      SumNonNegative(s.tasks, Remaining);
      if forall j: nat :: !CanAdvance(s, j) {
        if exists j :: 0 <= j < |s.tasks| && !s.tasks[j].stage.Done? {
          NoDeadlock(s);
        }
        AllGone(s);
      }
    } else {
      var (j, c, current, ws) := steps[0];
      AdvanceDecreasesWork(s, j, c, current, ws);
      AdvanceKeepsSlots(s, j, c, current, ws);
      SessionsDrain(Advance(s, j, c, current, ws).value, steps[1..]);
    }
  }

  predicate Never(t: Task) {
    false
  }

  lemma {:induction false} CountNever(tasks: seq<Task>)
    ensures Count(tasks, Never) == 0
  {
    if tasks != [] {
      CountNever(tasks[..|tasks| - 1]);
    }
  }

  lemma AllGone(s: Session)
    requires SlotsOk(s) && forall j :: 0 <= j < |s.tasks| ==> s.tasks[j].stage.Done?
    ensures s.query == 0 && s.mutation == 0 && s.scan == 0
  {
    CountNever(s.tasks);
    CountMonotone(s.tasks, HoldsQuery, Never);
    CountMonotone(s.tasks, HoldsMutation, Never);
    CountMonotone(s.tasks, HoldsScan, Never);
  }
}
