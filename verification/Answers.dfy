/**
 What becomes of an intent (worker/connection.go): it is admitted or refused at
 once, and its goroutine writes a result unless something it meets keeps it from
 doing so.  Stated over every run of the `Sessions` machine.
 */
module Answers {
  import opened Common
  import opened Sessions
  import opened SessionSafety

  // --- admission ---

  /** Another intent of the kind holds the only place. */
  predicate Full(s: Session, kind: Kind) {
    match kind
    case Mutation => exists t :: t in s.tasks && HoldsMutation(t)
    case Scan => exists t :: t in s.tasks && HoldsScan(t)
    case Query => false
  }

  /** Its goroutine will not write any more. */
  predicate Over(t: Task) {
    t.stage.Leaving? || t.stage.Done?
  }

  lemma AdmitsExactlyIfFree(s: Session, kind: Kind, ws: Option<nat>, reply: bool)
    requires SlotsOk(s)
    ensures var after, n := Admit(s, kind, ws, reply), |s.tasks|;
            && |after.tasks| == n + 1 && after.tasks[..n] == s.tasks && after.tasks[n].kind == kind
            && (!Full(s, kind) ==> !Over(after.tasks[n]) && after.tasks[n].sent == [])
            && (Full(s, kind) ==>
                  && after.tasks[n].stage.Done?
                  && after.tasks[n].sent == if reply && s.live && ws.Some? then [ws.value] else [])
  {
    hide Count;
    CountNone(s.tasks, HoldsMutation);
    CountNone(s.tasks, HoldsScan);
  }

  /**
   In every run: an intent that arrives starts a goroutine if there is room for
   it; if not, the busy answer goes to the session's own connection, provided
   that the write succeeds and the session is live.
   */
  lemma ArrivalIsAdmittedOrRefused(run: seq<Event>, kind: Kind, reply: bool)
    requires Exec(INIT, run).Some? && Exec(INIT, run).value.phase.Serving?
    ensures var s := Exec(INIT, run).value;
            var i := |s.sessions| - 1;
            && i >= 0 && Step(s, Arrive(kind, reply)).Some?
            && var x, y := s.sessions[i], Step(s, Arrive(kind, reply)).value.sessions[i];
               var n := |x.tasks|;
               && |y.tasks| == n + 1 && y.tasks[..n] == x.tasks && y.tasks[n].kind == kind
               && (!Full(x, kind) ==> !Over(y.tasks[n]) && y.tasks[n].sent == [])
               && (Full(x, kind) ==>
                     y.tasks[n].stage.Done? && y.tasks[n].sent == if reply && x.live then [x.sock] else [])
  {
    hide SlotsOk, Full, Over, Admit, Exec;
    RunKeepsInv(INIT, run);
    var s := Exec(INIT, run).value;
    AdmitsExactlyIfFree(s.sessions[|s.sessions| - 1], kind, s.ws, reply);
  }

  // --- what keeps a goroutine from answering ---

  /**
   The event keeps the intent from being answered: a panic, a result that does
   not parse, a write error, a wait cut short; a stale epoch, a cancelled
   context, a missing connection; a busy answer that is not written.
   */
  predicate Setback(s: State, e: Event, i: nat, j: nat) {
    match e
    case TaskStep(a, b, c) =>
      && a == i && b == j && IsTask(s, i, j)
      && (match s.sessions[i].tasks[j].stage
          case Computed => c != Go || s.epoch != i + 1
          case Ready => c != Go || !s.sessions[i].live
          case Tested => c != Go || s.ws.None?
          case _ => c != Go)
    case Arrive(kind, reply) =>
      && i == |s.sessions| - 1 && i >= 0 && j == |s.sessions[i].tasks| && Full(s.sessions[i], kind)
      && !(reply && s.sessions[i].live && s.ws.Some?)
    case _ => false
  }

  /** Some event of the run does. */
  predicate SetBack(s: State, run: seq<Event>, i: nat, j: nat)
    decreases |run|
  {
    run != [] &&
    (Setback(s, run[0], i, j) || (Step(s, run[0]).Some? && SetBack(Step(s, run[0]).value, run[1..], i, j)))
  }

  /** How things stand with an intent that may not have arrived: no setback so far, or it is over. */
  predicate Unspoilt(s: State, i: nat, j: nat) {
    !IsTask(s, i, j) || !Over(s.sessions[i].tasks[j])
  }

  lemma AdvanceAnswers(s: Session, j: nat, c: Choice, current: bool, ws: Option<nat>)
    requires j < |s.tasks| && TaskOk(s.tasks[j]) && Advance(s, j, c, current, ws).Some?
    ensures var t, n := s.tasks[j], Advance(s, j, c, current, ws).value;
            && j < |n.tasks|
            && (Over(t) ==> c == Go && Over(n.tasks[j]) && n.tasks[j].sent == t.sent)
            && (!Over(t) && !Over(n.tasks[j]) ==>
                  && c == Go && (t.stage.Computed? ==> current) && (t.stage.Ready? ==> s.live)
                  && (t.stage.Tested? ==> ws.Some?))
            && (!Over(t) && Over(n.tasks[j]) ==>
                  (n.tasks[j].sent == [] <==>
                   || c != Go || (t.stage.Computed? && !current) || (t.stage.Ready? && !s.live)
                   || (t.stage.Tested? && ws.None?)))
  {
  }

  /** What one event may do to an intent. */
  predicate FairTo(s: State, e: Event, n: State, i: nat, j: nat) {
    && (IsTask(s, i, j) ==> IsTask(n, i, j))
    && (!Unspoilt(s, i, j) ==>
          && !Setback(s, e, i, j) && !Unspoilt(n, i, j)
          && n.sessions[i].tasks[j].sent == s.sessions[i].tasks[j].sent)
    && (Unspoilt(s, i, j) && Unspoilt(n, i, j) ==> !Setback(s, e, i, j))
    && (Unspoilt(s, i, j) && !Unspoilt(n, i, j) ==>
          (n.sessions[i].tasks[j].sent == [] <==> Setback(s, e, i, j)))
  }

  lemma TaskStepAnswers(s: State, a: nat, b: nat, c: Choice, i: nat, j: nat)
    requires Inv(s) && Step(s, TaskStep(a, b, c)).Some?
    ensures FairTo(s, TaskStep(a, b, c), Step(s, TaskStep(a, b, c)).value, i, j)
  {
    hide Advance, SlotsOk, ConnectionOk, LiveOk;
    AdvancePuts(s.sessions[a], b, c, s.epoch == a + 1, s.ws);
    SlotFacts(s.sessions[a], b);
    AdvanceAnswers(s.sessions[a], b, c, s.epoch == a + 1, s.ws);
  }

  lemma ArrivalAnswers(s: State, kind: Kind, reply: bool, i: nat, j: nat)
    requires Inv(s) && Step(s, Arrive(kind, reply)).Some?
    ensures FairTo(s, Arrive(kind, reply), Step(s, Arrive(kind, reply)).value, i, j)
  {
    hide Admit, Full, SlotsOk, ConnectionOk, LiveOk;
    AdmitsExactlyIfFree(s.sessions[|s.sessions| - 1], kind, s.ws, reply);
  }

  /** One event: an intent that is over stays as it is; one that is not is over unanswered exactly by a setback. */
  lemma StepAnswers(s: State, e: Event, i: nat, j: nat)
    requires Inv(s) && Step(s, e).Some?
    ensures FairTo(s, e, Step(s, e).value, i, j)
  {
    hide Advance, Admit, Full, Over, SlotsOk, ConnectionOk, LiveOk;
    match e
    case TaskStep(a, b, c) => TaskStepAnswers(s, a, b, c, i, j);
    case Arrive(kind, reply) => ArrivalAnswers(s, kind, reply, i, j);
    case _ =>
  }

  /**
   From every state of every run: an intent that is over without an answer met a
   setback, and one that met a setback is over without an answer.
   */
  lemma {:induction false} SilentExactlyIfSetBack(s: State, run: seq<Event>, i: nat, j: nat)
    requires Inv(s) && Exec(s, run).Some? && Unspoilt(s, i, j)
    ensures var n := Exec(s, run).value;
            if Unspoilt(n, i, j) then !SetBack(s, run, i, j)
            else n.sessions[i].tasks[j].sent == [] <==> SetBack(s, run, i, j)
    decreases |run|
  {
    hide Inv, Step, Setback, Unspoilt;
    if run != [] {
      var n := Step(s, run[0]).value;
      StepKeepsInv(s, run[0]);
      StepAnswers(s, run[0], i, j);
      if Unspoilt(n, i, j) {
        SilentExactlyIfSetBack(n, run[1..], i, j);
      } else {
        OverStaysOver(n, run[1..], i, j);
      }
    }
  }

  lemma {:induction false} OverStaysOver(s: State, run: seq<Event>, i: nat, j: nat)
    requires Inv(s) && Exec(s, run).Some? && !Unspoilt(s, i, j)
    ensures var n := Exec(s, run).value;
            !Unspoilt(n, i, j) && n.sessions[i].tasks[j].sent == s.sessions[i].tasks[j].sent
    ensures !SetBack(s, run, i, j)
    decreases |run|
  {
    hide Inv, Step, Setback;
    if run != [] {
      StepKeepsInv(s, run[0]);
      StepAnswers(s, run[0], i, j);
      OverStaysOver(Step(s, run[0]).value, run[1..], i, j);
    }
  }

  /** In every run from the start: an intent whose goroutine is gone went unanswered exactly if it met a setback. */
  lemma UnansweredExactlyIfSetBack(run: seq<Event>, i: nat, j: nat)
    requires Exec(INIT, run).Some? && IsTask(Exec(INIT, run).value, i, j)
    requires Exec(INIT, run).value.sessions[i].tasks[j].stage.Done?
    ensures var sent := Exec(INIT, run).value.sessions[i].tasks[j].sent;
            |sent| <= 1 && (sent == [] <==> SetBack(INIT, run, i, j))
  {
    hide Exec, SetBack;
    InitInv();
    SilentExactlyIfSetBack(INIT, run, i, j);
    SessionLimits(run, i);
  }

  // --- a live session's intents ---

  /** While a session is live all its goroutines deal with its own connection alone. */
  ghost predicate LiveConfined(s: State) {
    forall i :: 0 <= i < |s.sessions| && s.sessions[i].live ==> Confined(s.sessions[i])
  }

  lemma StepKeepsLiveConfined(s: State, e: Event)
    requires Inv(s) && LiveConfined(s) && Step(s, e).Some?
    ensures LiveConfined(Step(s, e).value)
  {
    hide SlotsOk, ConnectionOk, Advance;
    match e
    case TaskStep(i, j, c) =>
      AdvancePuts(s.sessions[i], j, c, s.epoch == i + 1, s.ws);
      if s.sessions[i].live {
        AdvanceStaysConfined(s.sessions[i], j, c, s.epoch == i + 1, s.ws);
      }
    case _ =>
  }

  lemma {:induction false} RunKeepsLiveConfined(s: State, run: seq<Event>)
    requires Inv(s) && LiveConfined(s) && Exec(s, run).Some?
    ensures LiveConfined(Exec(s, run).value)
    decreases |run|
  {
    hide Inv, LiveConfined, Step;
    if run != [] {
      StepKeepsInv(s, run[0]);
      StepKeepsLiveConfined(s, run[0]);
      RunKeepsLiveConfined(Step(s, run[0]).value, run[1..]);
    }
  }

  /** The event is no failure of this intent's own: no panic, no failed write, no wait given up. */
  predicate Smooth(e: Event, i: nat, j: nat) {
    match e
    case TaskStep(a, b, c) => a == i && b == j ==> c == Go
    case Arrive(_, reply) => reply
    case _ => true
  }

  lemma LiveMeetsNoSetback(s: State, e: Event, i: nat, j: nat)
    requires Inv(s) && Step(s, e).Some? && Smooth(e, i, j)
    requires i < |s.sessions| && s.sessions[i].live
    ensures !Setback(s, e, i, j)
  {
    hide SlotsOk, Step, Full;
  }

  /** A session that is live has been so since it began. */
  lemma LiveBefore(s: State, e: Event, i: nat)
    requires Step(s, e).Some? && i < |s.sessions|
    ensures i < |Step(s, e).value.sessions|
    ensures Step(s, e).value.sessions[i].live ==> s.sessions[i].live
  {
    hide Advance, Admit;
  }

  lemma NotBegun(s: State, e: Event, i: nat, j: nat)
    requires i >= |s.sessions|
    ensures !Setback(s, e, i, j)
  {
  }

  lemma {:induction false} SmoothRunMeetsNoSetback(s: State, run: seq<Event>, i: nat, j: nat)
    requires Inv(s) && Exec(s, run).Some? && forall e :: e in run ==> Smooth(e, i, j)
    ensures var n := Exec(s, run).value;
            i < |n.sessions| && n.sessions[i].live ==>
              !SetBack(s, run, i, j) && (i < |s.sessions| ==> s.sessions[i].live)
    decreases |run|
  {
    hide Inv, Step, Setback, Smooth;
    if run != [] {
      StepKeepsInv(s, run[0]);
      SmoothRunMeetsNoSetback(Step(s, run[0]).value, run[1..], i, j);
      if i < |s.sessions| {
        LiveBefore(s, run[0], i);
        if s.sessions[i].live {
          LiveMeetsNoSetback(s, run[0], i, j);
        }
      } else {
        NotBegun(s, run[0], i, j);
      }
    }
  }

  /**
   In every run, whatever the other goroutines, the main one and other sessions
   do: while its session is live, an intent that no failure of its own befell is
   answered once, on the session's own connection, by the time its goroutine is gone.
   */
  lemma LiveIntentIsAnswered(run: seq<Event>, i: nat, j: nat)
    requires Exec(INIT, run).Some? && IsTask(Exec(INIT, run).value, i, j)
    requires forall e :: e in run ==> Smooth(e, i, j)
    ensures var x := Exec(INIT, run).value.sessions[i];
            x.live && x.tasks[j].stage.Done? ==> x.tasks[j].sent == [x.sock]
  {
    hide Exec, SetBack, Smooth, Inv, TaskConfined, LiveConfined;
    var x := Exec(INIT, run).value.sessions[i];
    if x.live && x.tasks[j].stage.Done? {
      InitInv();
      UnansweredExactlyIfSetBack(run, i, j);
      SmoothRunMeetsNoSetback(INIT, run, i, j);
      NothingConfined();
      RunKeepsLiveConfined(INIT, run);
      ConfinedTask(Exec(INIT, run).value, i, j);
      OnlyItsOwn(x, x.tasks[j]);
    }
  }

  lemma OnlyItsOwn(s: Session, t: Task)
    requires TaskConfined(s, t) && |t.sent| == 1
    ensures t.sent == [s.sock]
  {
    assert t.sent[0] in t.sent;
  }

  // --- and it gets there ---

  /** A slot is free if the goroutine waits for one. */
  predicate MayGo(s: Session, t: Task) {
    t.stage.Waiting? ==> s.query < QUERY_SLOTS
  }

  lemma GoesOn(s: State, i: nat, j: nat)
    requires Inv(s) && IsTask(s, i, j) && s.sessions[i].live
    requires !s.sessions[i].tasks[j].stage.Done? && MayGo(s.sessions[i], s.sessions[i].tasks[j])
    ensures Step(s, TaskStep(i, j, Go)).Some?
    ensures var n := Step(s, TaskStep(i, j, Go)).value;
            && IsTask(n, i, j) && n.sessions[i].live && n.sessions[i].sock == s.sessions[i].sock
            && !n.sessions[i].tasks[j].stage.Waiting?
            && 0 <= Work(n.sessions[i]) < Work(s.sessions[i])
  {
    hide ConnectionOk, LiveOk, Work, SlotsOk, Advance;
    var x := s.sessions[i];
    if !x.tasks[j].stage.Waiting? {
      OnlyWaitersBlock(x, j);
    } else {
      WaiterGoes(x, j, s.epoch == i + 1, s.ws);
    }
    AdvancePuts(x, j, Go, s.epoch == i + 1, s.ws);
    NeverWaitsAgain(x, j, s.epoch == i + 1, s.ws);
    AdvanceDecreasesWork(x, j, Go, s.epoch == i + 1, s.ws);
    WorkIsNatural(Step(s, TaskStep(i, j, Go)).value.sessions[i]);
  }

  lemma WorkIsNatural(s: Session)
    ensures Work(s) >= 0
  {
    SumNonNegative(s.tasks, Remaining);
  }

  lemma WaiterGoes(s: Session, j: nat, current: bool, ws: Option<nat>)
    requires j < |s.tasks| && s.tasks[j].stage.Waiting? && s.query < QUERY_SLOTS
    ensures Advance(s, j, Go, current, ws).Some?
  {
  }

  lemma NeverWaitsAgain(s: Session, j: nat, current: bool, ws: Option<nat>)
    requires j < |s.tasks| && Advance(s, j, Go, current, ws).Some?
    ensures !Advance(s, j, Go, current, ws).value.tasks[j].stage.Waiting?
  {
  }

  /** Left alone, a live session's goroutine runs to its end, in steps that all go well. */
  lemma {:induction false} RunsToItsEnd(s: State, i: nat, j: nat) returns (run: seq<Event>)
    requires Inv(s) && IsTask(s, i, j) && s.sessions[i].live && MayGo(s.sessions[i], s.sessions[i].tasks[j])
    ensures forall e :: e in run ==> e == TaskStep(i, j, Go)
    ensures Exec(s, run).Some?
    ensures var n := Exec(s, run).value;
            IsTask(n, i, j) && n.sessions[i].live && n.sessions[i].tasks[j].stage.Done?
    decreases Work(s.sessions[i])
  {
    hide Inv, Step, Work;
    run := [];
    if !s.sessions[i].tasks[j].stage.Done? {
      var go := TaskStep(i, j, Go);
      GoesOn(s, i, j);
      StepKeepsInv(s, go);
      var rest := RunsToItsEnd(Step(s, go).value, i, j);
      run := [go] + rest;
    }
  }

  /**
   In every reachable state: a goroutine of the live session that is not over
   and finds a slot, if it waits for one, answers its intent on the session's
   own connection when it is left to go on.
   */
  lemma LeftAloneItAnswers(before: seq<Event>, i: nat, j: nat) returns (run: seq<Event>)
    requires Exec(INIT, before).Some? && IsTask(Exec(INIT, before).value, i, j)
    requires var x := Exec(INIT, before).value.sessions[i];
             x.live && !Over(x.tasks[j]) && MayGo(x, x.tasks[j])
    ensures forall e :: e in run ==> e == TaskStep(i, j, Go)
    ensures Exec(INIT, before + run).Some? && IsTask(Exec(INIT, before + run).value, i, j)
    ensures var x := Exec(INIT, before + run).value.sessions[i];
            x.tasks[j].stage.Done? && x.tasks[j].sent == [x.sock]
  {
    hide Exec, Inv, SetBack, MayGo, TaskConfined, LiveConfined;
    var s := Exec(INIT, before).value;
    InitInv();
    RunKeepsInv(INIT, before);
    run := RunsToItsEnd(s, i, j);
    ExecAppend(INIT, before, run);
    var x := Exec(s, run).value.sessions[i];
    SilentExactlyIfSetBack(s, run, i, j);
    SmoothRunMeetsNoSetback(s, run, i, j);
    RunKeepsInv(INIT, before + run);
    SessionLimits(before + run, i);
    NothingConfined();
    RunKeepsLiveConfined(INIT, before + run);
    ConfinedTask(Exec(s, run).value, i, j);
    OnlyItsOwn(x, x.tasks[j]);
  }

  lemma NothingConfined()
    ensures LiveConfined(INIT)
  {
  }

  lemma ConfinedTask(s: State, i: nat, j: nat)
    requires LiveConfined(s) && IsTask(s, i, j) && s.sessions[i].live
    ensures TaskConfined(s.sessions[i], s.sessions[i].tasks[j])
  {
  }
}
