/**
 The worker's connection life cycle and intent scheduling (worker/connection.go)
 as interleaved steps: one main goroutine that connects, enrolls, serves and
 disconnects, and one goroutine for each admitted intent, which may outlive the
 session that started it.  The semaphores and the context belong to a session.
 */
module Sessions {
  import opened Common

  const QUERY_SLOTS := 4

  datatype Kind = Mutation | Scan | Query

  /**
   Where an intent's goroutine is: waiting for a query slot, inside
   dispatchIntent, before the epoch check, before sendJSON's context test,
   before its fetch of the connection, before the write, running its deferred
   releases, gone.
   */
  datatype Stage = Waiting | Running | Computed | Ready | Tested | Fetched(sock: nat) | Leaving | Done

  /** `slot` says whether it holds a query slot, `sent` where its INTENT_RESULTs were written. */
  datatype Task = Task(kind: Kind, slot: bool, stage: Stage, sent: seq<nat>)

  /** One RunOperational call; `live` is false once its context is cancelled. */
  datatype Session = Session(sock: nat, live: bool, query: nat, mutation: nat, scan: nat, tasks: seq<Task>)

  /** Where the main goroutine is in RunWithBackoff, Connect and RunOperational. */
  datatype Phase = Top | Connecting | Enrolling | Enrolled | Serving | Ended | Failed | Backoff | Finished

  datatype Status = Disconnected | InProgress | Operational

  /** `sockets` counts the connections dialed so far; a connection is named by its number. */
  datatype State = State(phase: Phase, status: Status, ws: Option<nat>, sockets: nat, epoch: nat,
                         stopped: bool, sessions: seq<Session>)

  datatype Choice = Go | Fail | Abandon

  datatype Event =
    | StartConnect
    | Dial(ok: bool)
    | Enroll(ok: bool)
    | Begin
    | Arrive(kind: Kind, reply: bool)
    | Return
    | Disconnect(again: bool)
    | Wake
    | Quit
    | Stop
    | TaskStep(session: nat, task: nat, choice: Choice)

  const INIT := State(Top, Disconnected, None, 0, 0, false, [])

  // --- one goroutine's next step ---

  function Put(s: Session, j: nat, t: Task): Session
    requires j < |s.tasks|
  {
    s.(tasks := s.tasks[j := t])
  }

  function Advance(s: Session, j: nat, c: Choice, current: bool, ws: Option<nat>): (r: Option<Session>)
    requires j < |s.tasks|
    ensures r.Some? ==> r.value.sock == s.sock && r.value.live == s.live
  {
    var t := s.tasks[j];
    match t.stage
    case Waiting =>
      if c == Go && s.query < QUERY_SLOTS then
        Some(Put(s, j, t.(slot := true, stage := Running)).(query := s.query + 1))
      else if c == Abandon && !s.live then Some(Put(s, j, t.(stage := Leaving)))
      else None
    case Running => // Fail is a panic inside the handler
      if c == Abandon then None else Some(Put(s, j, t.(stage := if c == Go then Computed else Leaving)))
    case Computed =>
      if c != Go then None else Some(Put(s, j, t.(stage := if current then Ready else Leaving)))
    case Ready => // Fail is a result that does not parse
      if c == Abandon then None else Some(Put(s, j, t.(stage := if c == Go && s.live then Tested else Leaving)))
    case Tested =>
      if c != Go then None else Some(Put(s, j, t.(stage := if ws.Some? then Fetched(ws.value) else Leaving)))
    case Fetched(k) => // Fail is a write error
      if c == Abandon then None
      else Some(Put(s, j, t.(stage := Leaving, sent := if c == Go then t.sent + [k] else t.sent)))
    case Leaving =>
      if c != Go then None else Release(s, j)
    case Done => None
  }

  /** The deferred releases, last acquired first. */
  function Release(s: Session, j: nat): (r: Option<Session>)
    requires j < |s.tasks|
    ensures r.Some? ==> r.value.sock == s.sock && r.value.live == s.live
  {
    var t := s.tasks[j];
    if t.slot then
      if s.query == 0 then None // a receive from an empty channel blocks
      else Some(Put(s, j, t.(slot := false, stage := if t.kind.Query? then Done else Leaving)).(query := s.query - 1))
    else
      match t.kind
      case Query => Some(Put(s, j, t.(stage := Done)))
      case Mutation =>
        if s.mutation == 0 then None else Some(Put(s, j, t.(stage := Done)).(mutation := s.mutation - 1))
      case Scan =>
        if s.scan == 0 then None else Some(Put(s, j, t.(stage := Done)).(scan := s.scan - 1))
  }

  /**
   The main goroutine receives an INTENT: a goroutine is started, or WORKER_BUSY
   is sent at once (`reply` says whether the write succeeds).
   */
  function Admit(s: Session, kind: Kind, ws: Option<nat>, reply: bool): (r: Session)
    ensures r.sock == s.sock && r.live == s.live
  {
    var busy := Task(kind, false, Done, if reply && s.live && ws.Some? then [ws.value] else []);
    match kind
    case Mutation =>
      if s.mutation < 1 then s.(mutation := s.mutation + 1, tasks := s.tasks + [Task(kind, false, Running, [])])
      else s.(tasks := s.tasks + [busy])
    case Scan =>
      if s.scan < 1 then s.(scan := s.scan + 1, tasks := s.tasks + [Task(kind, false, Waiting, [])])
      else s.(tasks := s.tasks + [busy])
    case Query => s.(tasks := s.tasks + [Task(kind, false, Waiting, [])])
  }

  // --- the whole worker's next step ---

  function Cancel(sessions: seq<Session>): (r: seq<Session>)
    ensures |r| == |sessions|
    ensures forall i :: 0 <= i < |r| ==> r[i].sock == sessions[i].sock
  {
    if sessions == [] then [] else sessions[|sessions| - 1 := sessions[|sessions| - 1].(live := false)]
  }

  function Step(s: State, e: Event): Option<State> {
    match e
    case StartConnect =>
      if s.phase.Top? && !s.stopped then Some(s.(phase := Connecting, status := InProgress)) else None
    case Dial(ok) =>
      if !s.phase.Connecting? then None
      else if ok then Some(s.(phase := Enrolling, ws := Some(s.sockets), sockets := s.sockets + 1))
      else Some(s.(phase := Failed, status := Disconnected))
    case Enroll(ok) =>
      if !s.phase.Enrolling? then None
      else if ok then Some(s.(phase := Enrolled))
      else Some(s.(phase := Failed, status := Disconnected))
    case Begin =>
      if !s.phase.Enrolled? then None
      else if s.ws.None? then Some(s.(phase := Ended))
      else Some(s.(phase := Serving, status := Operational, epoch := s.epoch + 1,
                   sessions := s.sessions + [Session(s.ws.value, !s.stopped, 0, 0, 0, [])]))
    case Arrive(kind, reply) =>
      var n := |s.sessions| - 1;
      if !s.phase.Serving? || n < 0 then None
      else Some(s.(sessions := s.sessions[n := Admit(s.sessions[n], kind, s.ws, reply)]))
    case Return =>
      if s.phase.Serving? then Some(s.(phase := Ended, sessions := Cancel(s.sessions))) else None
    case Disconnect(again) =>
      if !s.phase.Ended? && !s.phase.Failed? then None
      else Some(s.(phase := if !again then Finished else if s.phase.Ended? then Top else Backoff,
                   status := Disconnected, ws := None))
    case Wake => if s.phase.Backoff? then Some(s.(phase := Top)) else None
    case Quit =>
      if (s.phase.Top? || s.phase.Backoff?) && s.stopped
      then Some(s.(phase := Finished, status := Disconnected, ws := None)) else None
    case Stop =>
      Some(s.(stopped := true, sessions := if s.phase.Serving? then Cancel(s.sessions) else s.sessions))
    case TaskStep(i, j, c) =>
      if i >= |s.sessions| || j >= |s.sessions[i].tasks| then None
      else
        match Advance(s.sessions[i], j, c, s.epoch == i + 1, s.ws)
        case None => None
        case Some(x) => Some(s.(sessions := s.sessions[i := x]))
  }

  /** The state after a run, if every event of it could happen. */
  function Exec(s: State, run: seq<Event>): Option<State>
    decreases |run|
  {
    if run == [] then Some(s)
    else
      match Step(s, run[0])
      case None => None
      case Some(next) => Exec(next, run[1..])
  }

  // --- what every step keeps ---

  predicate HoldsQuery(t: Task) {
    t.slot
  }

  predicate HoldsMutation(t: Task) {
    t.kind.Mutation? && !t.stage.Done?
  }

  predicate HoldsScan(t: Task) {
    t.kind.Scan? && !t.stage.Done?
  }

  predicate TaskOk(t: Task) {
    && (t.kind.Mutation? ==> !t.slot && !t.stage.Waiting?)
    && (t.stage.Waiting? || t.stage.Done? ==> !t.slot)
    && (!t.kind.Mutation? && !t.stage.Waiting? && !t.stage.Leaving? && !t.stage.Done? ==> t.slot)
    && |t.sent| <= 1
    && (!t.stage.Leaving? && !t.stage.Done? ==> t.sent == [])
  }

  /** The slots in use are exactly the goroutines holding them, within the capacities. */
  predicate SlotsOk(s: Session) {
    && s.query == Count(s.tasks, HoldsQuery) <= QUERY_SLOTS
    && s.mutation == Count(s.tasks, HoldsMutation) <= 1
    && s.scan == Count(s.tasks, HoldsScan) <= 1
    && forall j :: 0 <= j < |s.tasks| ==> TaskOk(s.tasks[j])
  }

  predicate HasConnection(p: Phase) {
    p.Enrolling? || p.Enrolled? || p.Serving? || p.Ended?
  }

  predicate ConnectionOk(s: State) {
    && s.epoch == |s.sessions|
    && (HasConnection(s.phase) ==> s.ws.Some?)
    && (s.phase.Top? || s.phase.Connecting? || s.phase.Backoff? || s.phase.Finished? ==> s.ws.None?)
    && (s.phase.Top? || s.phase.Backoff? || s.phase.Finished? ==> s.status.Disconnected?)
    && (s.ws.Some? ==> s.ws.value < s.sockets)
    && (s.phase.Serving? || s.phase.Ended? ==>
          |s.sessions| > 0 && s.ws == Some(s.sessions[|s.sessions| - 1].sock))
    && (s.phase.Enrolling? || s.phase.Enrolled? ==>
          forall i :: 0 <= i < |s.sessions| ==> s.sessions[i].sock < s.ws.value)
    && (forall i :: 0 <= i < |s.sessions| ==> s.sessions[i].sock < s.sockets)
    && (forall i, j :: 0 <= i < j < |s.sessions| ==> s.sessions[i].sock < s.sessions[j].sock)
  }

  /** Only the last session can be live, and only in a worker not stopped; its connection is then the worker's. */
  predicate LiveOk(s: State) {
    && (forall i :: 0 <= i < |s.sessions| && s.sessions[i].live ==>
          i == |s.sessions| - 1 && s.phase.Serving? && s.ws == Some(s.sessions[i].sock))
    && (s.phase.Serving? && !s.stopped ==> |s.sessions| > 0 && s.sessions[|s.sessions| - 1].live)
    && (s.stopped ==> forall i :: 0 <= i < |s.sessions| ==> !s.sessions[i].live)
  }

  predicate Inv(s: State) {
    && ConnectionOk(s)
    && LiveOk(s)
    && forall i :: 0 <= i < |s.sessions| ==> SlotsOk(s.sessions[i])
  }

  lemma PutKeepsSlots(s: Session, j: nat, t: Task, after: Session)
    requires j < |s.tasks| && SlotsOk(s) && TaskOk(t)
    requires after.tasks == s.tasks[j := t]
    requires after.query == s.query - (if s.tasks[j].slot then 1 else 0) + (if t.slot then 1 else 0) <= QUERY_SLOTS
    requires after.mutation ==
             s.mutation - (if HoldsMutation(s.tasks[j]) then 1 else 0) + (if HoldsMutation(t) then 1 else 0)
    requires after.scan == s.scan - (if HoldsScan(s.tasks[j]) then 1 else 0) + (if HoldsScan(t) then 1 else 0)
    requires t.kind == s.tasks[j].kind && (s.tasks[j].stage.Done? ==> t.stage.Done?)
    ensures SlotsOk(after)
  {
    hide Count, TaskOk;
    CountUpdate(s.tasks, j, t, HoldsQuery);
    CountUpdate(s.tasks, j, t, HoldsMutation);
    CountUpdate(s.tasks, j, t, HoldsScan);
  }

  lemma SlotFacts(s: Session, j: nat)
    requires SlotsOk(s) && j < |s.tasks|
    ensures TaskOk(s.tasks[j]) && s.query <= QUERY_SLOTS
  {
  }

  /** A step of a goroutine changes that goroutine alone. */
  lemma AdvancePuts(s: Session, j: nat, c: Choice, current: bool, ws: Option<nat>)
    requires j < |s.tasks| && Advance(s, j, c, current, ws).Some?
    ensures var n := Advance(s, j, c, current, ws).value;
            |n.tasks| == |s.tasks| && n.tasks == s.tasks[j := n.tasks[j]] && n.sock == s.sock && n.live == s.live
  {
  }

  /** What the deferred releases do to the slots is what they do to the goroutine's holdings. */
  lemma ReleaseAccounts(s: Session, j: nat)
    requires j < |s.tasks| && TaskOk(s.tasks[j]) && s.tasks[j].stage.Leaving? && Release(s, j).Some?
    ensures Accounts(s, j, Release(s, j).value)
  {
  }

  /** The slots move by what the goroutine takes and gives back. */
  predicate Accounts(s: Session, j: nat, after: Session)
    requires j < |s.tasks|
  {
    && j < |after.tasks|
    && var t, next := s.tasks[j], after.tasks[j];
       && TaskOk(next) && next.kind == t.kind && !t.stage.Done?
       && after.query == s.query - (if t.slot then 1 else 0) + (if next.slot then 1 else 0)
       && (next.slot && !t.slot ==> s.query < QUERY_SLOTS)
       && after.mutation == s.mutation - (if HoldsMutation(t) then 1 else 0) + (if HoldsMutation(next) then 1 else 0)
       && after.scan == s.scan - (if HoldsScan(t) then 1 else 0) + (if HoldsScan(next) then 1 else 0)
  }

  lemma AdvanceAccounts(s: Session, j: nat, c: Choice, current: bool, ws: Option<nat>)
    requires j < |s.tasks| && TaskOk(s.tasks[j]) && Advance(s, j, c, current, ws).Some?
    ensures Accounts(s, j, Advance(s, j, c, current, ws).value)
  {
    hide Release;
    if s.tasks[j].stage.Leaving? {
      ReleaseAccounts(s, j);
    }
  }

  lemma AdvanceKeepsSlots(s: Session, j: nat, c: Choice, current: bool, ws: Option<nat>)
    requires j < |s.tasks| && SlotsOk(s)
    requires Advance(s, j, c, current, ws).Some?
    ensures SlotsOk(Advance(s, j, c, current, ws).value)
  {
    hide SlotsOk, Advance, TaskOk, HoldsMutation, HoldsScan;
    SlotFacts(s, j);
    AdvancePuts(s, j, c, current, ws);
    AdvanceAccounts(s, j, c, current, ws);
    var after := Advance(s, j, c, current, ws).value;
    PutKeepsSlots(s, j, after.tasks[j], after);
  }

  lemma AdmitKeepsSlots(s: Session, kind: Kind, ws: Option<nat>, reply: bool)
    requires SlotsOk(s)
    ensures SlotsOk(Admit(s, kind, ws, reply))
  {
    hide Count;
    var after := Admit(s, kind, ws, reply);
    var t := after.tasks[|s.tasks|];
    CountAppend(s.tasks, t, HoldsQuery);
    CountAppend(s.tasks, t, HoldsMutation);
    CountAppend(s.tasks, t, HoldsScan);
  }

  lemma CancelKeepsSlots(s: Session)
    requires SlotsOk(s)
    ensures SlotsOk(s.(live := false))
  {
  }

  lemma FreshSlots(sock: nat, live: bool)
    ensures SlotsOk(Session(sock, live, 0, 0, 0, []))
  {
  }

  lemma StepKeepsAllSlots(s: State, e: Event)
    requires Step(s, e).Some?
    requires forall i :: 0 <= i < |s.sessions| ==> SlotsOk(s.sessions[i])
    ensures forall i :: 0 <= i < |Step(s, e).value.sessions| ==> SlotsOk(Step(s, e).value.sessions[i])
  {
    hide SlotsOk;
    var n := |s.sessions| - 1;
    if n >= 0 {
      CancelKeepsSlots(s.sessions[n]);
    }
    match e
    case TaskStep(i, j, c) => AdvanceKeepsSlots(s.sessions[i], j, c, s.epoch == i + 1, s.ws);
    case Arrive(kind, reply) => AdmitKeepsSlots(s.sessions[n], kind, s.ws, reply);
    case Begin => if s.ws.Some? { FreshSlots(s.ws.value, !s.stopped); }
    case _ =>
  }

  lemma StepKeepsConnection(s: State, e: Event)
    requires ConnectionOk(s) && Step(s, e).Some?
    ensures ConnectionOk(Step(s, e).value)
  {
    hide Advance, Admit, Cancel;
  }

  lemma StepKeepsLive(s: State, e: Event)
    requires ConnectionOk(s) && LiveOk(s) && Step(s, e).Some?
    ensures LiveOk(Step(s, e).value)
  {
    hide Advance, Admit;
  }

  lemma StepKeepsInv(s: State, e: Event)
    requires Inv(s) && Step(s, e).Some?
    ensures Inv(Step(s, e).value)
  {
    StepKeepsAllSlots(s, e);
    StepKeepsConnection(s, e);
    StepKeepsLive(s, e);
  }

  lemma InitInv()
    ensures Inv(INIT)
  {
  }
}
