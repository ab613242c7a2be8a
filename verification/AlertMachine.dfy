/**
 The alert engine's steps as functions of its state (master/core/alert_engine.py),
 and what every run of them keeps and means.  Clock readings, fresh identifiers
 and the outcome of each database write are inputs.
 */
module AlertMachine {
  import opened Common
  import opened Thresholds
  import opened AlertStore
  import RateLimit

  const HOUR := 3600.0

  /** What the surroundings decide for one alert change: the clock, a new identifier, the two writes. */
  datatype Env = Env(now: real, id: string, resolveOk: bool, insertOk: bool)

  datatype NodeState = Lost | Stale | Connected | Other

  /** Alerts, limiter lists, last reports, intent results and reconnections. */
  datatype State = State(store: Store, limiter: map<Key, seq<real>>, snapshots: map<string, map<string, real>>,
                         intents: map<string, seq<(real, bool)>>, reconnects: map<string, seq<(real, ())>>)

  /** A process that starts on a table whose firing rows it loads in an order. */
  function Started(rows: map<string, AlertRow>, order: seq<string>): State {
    State(Store(Load(rows, order), rows), map[], map[], map[], map[])
  }

  function Lookup(limiter: map<Key, seq<real>>, k: Key): seq<real> {
    if k in limiter then limiter[k] else []
  }

  function SeverityOf(active: map<Key, Active>, k: Key): Option<Severity> {
    if k in active then Some(active[k].severity) else None
  }

  function MarksOf<T>(marks: map<string, seq<(real, T)>>, node: string): seq<(real, T)> {
    if node in marks then marks[node] else []
  }

  /** The marks of a sliding hour. */
  function LastHour<T>(marks: seq<(real, T)>, now: real): seq<(real, T)> {
    if marks == [] then []
    else
      var n := |marks| - 1;
      LastHour(marks[..n], now) + (if marks[n].0 > now - HOUR then [marks[n]] else [])
  }

  predicate IsFailure(mark: (real, bool)) {
    !mark.1
  }

  /** More than a fifth of at least five intents failed within the last hour. */
  predicate FailingTooOften(marks: seq<(real, bool)>) {
    5 * Count(marks, IsFailure) > |marks| && |marks| >= 5
  }

  // --- the steps ---

  /** Whether a new firing of `k` gets into memory and table. */
  predicate CanFire(s: State, k: Key, w: Env) {
    !RateLimit.Refused(Lookup(s.limiter, k), w.now) && w.insertOk && w.id !in s.store.rows
  }

  function Fire(s: State, k: Key, severity: Severity, w: Env): State {
    var limiter := s.limiter[k := RateLimit.Kept(Lookup(s.limiter, k), w.now)];
    if CanFire(s, k, w) then s.(limiter := limiter, store := Insert(s.store, k, severity, w.id, w.now))
    else s.(limiter := limiter)
  }

  function End(s: State, k: Key, w: Env): State {
    if w.resolveOk then s.(store := Resolve(s.store, k, w.now)) else s
  }

  /** One threshold against one reading. */
  function Judge(s: State, t: Threshold, node: string, value: real, w: Env): State {
    var k := Key(node, t.name);
    match Check(t, value)
    case Some(reached) =>
      if k !in s.store.active then Fire(s, k, reached, w)
      else if Rank(s.store.active[k].severity) >= Rank(reached) then s
      else Fire(End(s, k, w), k, reached, w)
    case None =>
      if k in s.store.active && IsResolved(t, value) then End(s, k, w) else s
  }

  /** The first `n` thresholds against one report; a missing metric is skipped. */
  function JudgeAll(s: State, ts: seq<Threshold>, n: nat, node: string, snapshot: map<string, real>,
                    w: nat -> Env): State
    requires n <= |ts|
  {
    if n == 0 then s
    else
      var before := JudgeAll(s, ts, n - 1, node, snapshot, w);
      var t := ts[n - 1];
      if t.metric in snapshot then Judge(before, t, node, snapshot[t.metric], w(n - 1)) else before
  }

  /** An alert that follows a condition. */
  function Follow(s: State, k: Key, condition: bool, severity: Severity, w: Env): State {
    if condition && k !in s.store.active then Fire(s, k, severity, w)
    else if !condition && k in s.store.active then End(s, k, w)
    else s
  }

  function RebootKey(node: string): Key {
    Key(node, "node_reboot_detected")
  }

  function FailureKey(node: string): Key {
    Key(node, "intent_failed_rate")
  }

  function LostKey(node: string): Key {
    Key(node, "node_state_lost")
  }

  function StaleKey(node: string): Key {
    Key(node, "node_state_stale")
  }

  function FlapKey(node: string): Key {
    Key(node, "node_connection_flap")
  }

  /** The uptimes of a report and of the one before it, if both have one. */
  function Uptimes(s: State, node: string, snapshot: map<string, real>): Option<(real, real)> {
    if "uptime_seconds" in snapshot && node in s.snapshots && "uptime_seconds" in s.snapshots[node] then
      Some((s.snapshots[node]["uptime_seconds"], snapshot["uptime_seconds"]))
    else None
  }

  /** A report whose uptime fell by more than five seconds is a reboot. */
  function Reboot(s: State, node: string, snapshot: map<string, real>, w: Env): State {
    match Uptimes(s, node, snapshot)
    case None => s
    case Some(u) => Follow(s, RebootKey(node), u.1 < u.0 - 5.0, Warning, w)
  }

  function Receive(s: State, ts: seq<Threshold>, node: string, snapshot: map<string, real>, reboot: Env,
                   w: nat -> Env): State {
    var seen := Reboot(s, node, snapshot, reboot);
    JudgeAll(seen.(snapshots := seen.snapshots[node := snapshot]), ts, |ts|, node, snapshot, w)
  }

  function Results(s: State, node: string, success: bool, now: real): seq<(real, bool)> {
    LastHour(MarksOf(s.intents, node) + [(now, success)], now)
  }

  function Track(s: State, node: string, success: bool, w: Env): State {
    var marks := Results(s, node, success, w.now);
    Follow(s.(intents := s.intents[node := marks]), FailureKey(node), FailingTooOften(marks), Warning, w)
  }

  function Reconnections(s: State, node: string, now: real): seq<(real, ())> {
    LastHour(MarksOf(s.reconnects, node) + [(now, ())], now)
  }

  function NodeChange(s: State, node: string, state: NodeState, w: nat -> Env): State {
    match state
    case Lost => Follow(s, LostKey(node), true, Critical, w(0))
    case Stale => Follow(s, StaleKey(node), true, Critical, w(0))
    case Connected =>
      var found := Follow(Follow(s, LostKey(node), false, Critical, w(0)), StaleKey(node), false, Critical, w(1));
      var marks := Reconnections(s, node, w(2).now);
      Follow(found.(reconnects := s.reconnects[node := marks]), FlapKey(node), |marks| >= 5, Warning, w(2))
    case Other => s
  }

  /** `nodes` is the node table at the delete, `valid` the one read back for the memory. */
  function CleanOrphans(s: State, nodes: set<string>, valid: set<string>): State {
    State(DropOrphans(s.store, nodes, valid),
          map k | k in s.limiter && k.node in valid :: s.limiter[k],
          map n | n in s.snapshots && n in valid :: s.snapshots[n],
          map n | n in s.intents && n in valid :: s.intents[n],
          map n | n in s.reconnects && n in valid :: s.reconnects[n])
  }

  function DropNode(rows: map<string, AlertRow>, node: string): map<string, AlertRow> {
    map id | id in rows && rows[id].key.node != node :: rows[id]
  }

  datatype Event =
    | Report(node: string, snapshot: map<string, real>, reboot: Env, w: nat -> Env)
    | IntentResult(reporter: string, success: bool, env: Env)
    | StateChange(changed: string, state: NodeState, envs: nat -> Env)
    | Acknowledged(id: string, now: real)
    | Purged(cutoff: real)
    | OrphansDropped(nodes: set<string>, valid: set<string>)
    | NodeDeleted(deleted: string)
    | Restarted(order: seq<string>)

  function Step(ts: seq<Threshold>, s: State, e: Event): State {
    match e
    case Report(node, snapshot, reboot, w) => Receive(s, ts, node, snapshot, reboot, w)
    case IntentResult(node, success, w) => Track(s, node, success, w)
    case StateChange(node, state, w) => NodeChange(s, node, state, w)
    case Acknowledged(id, now) => s.(store := Acknowledge(s.store, id, now))
    case Purged(cutoff) => s.(store := PurgeOld(s.store, cutoff))
    case OrphansDropped(nodes, valid) => CleanOrphans(s, nodes, valid)
    case NodeDeleted(node) => s.(store := s.store.(rows := DropNode(s.store.rows, node)))
    case Restarted(order) => Started(s.store.rows, order)
  }

  function Run(ts: seq<Threshold>, s: State, events: seq<Event>): State {
    if events == [] then s
    else
      var n := |events| - 1;
      Step(ts, Run(ts, s, events[..n]), events[n])
  }

  // --- memory and table stay in step ---

  /** The writes that matter: the resolve when a severity is raised, and what a cleanup or a restart reads. */
  ghost predicate WritesSucceed(s: State, e: Event) {
    match e
    case Report(_, _, _, w) => forall i: nat :: w(i).resolveOk
    case OrphansDropped(nodes, valid) => nodes == valid
    case Restarted(order) => forall id :: IsFiring(s.store.rows, id) ==> id in order
    case _ => true
  }

  /** `b` is in step wherever `a` was. */
  ghost predicate StaysInStep(a: State, b: State) {
    (Recorded(a.store) ==> Recorded(b.store)) && (OneToOne(a.store) ==> OneToOne(b.store))
  }

  lemma FireStaysInStep(s: State, k: Key, severity: Severity, w: Env)
    requires k !in s.store.active
    ensures StaysInStep(s, Fire(s, k, severity, w))
  {
    hide Insert, Backed;
    if Recorded(s.store) && w.id !in s.store.rows {
      InsertKeepsOneToOne(s.store, k, severity, w.id, w.now);
    }
  }

  lemma EndStaysInStep(s: State, k: Key, w: Env)
    ensures StaysInStep(s, End(s, k, w))
    ensures w.resolveOk ==> k !in End(s, k, w).store.active
  {
    hide Recorded, Backed;
    if Recorded(s.store) {
      ResolveKeepsOneToOne(s.store, k, w.now);
    }
  }

  lemma FollowStaysInStep(s: State, k: Key, condition: bool, severity: Severity, w: Env)
    ensures StaysInStep(s, Follow(s, k, condition, severity, w))
  {
    hide Recorded, Backed, Fire, End;
    if k !in s.store.active {
      FireStaysInStep(s, k, severity, w);
    }
    EndStaysInStep(s, k, w);
  }

  lemma JudgeStaysInStep(s: State, t: Threshold, node: string, value: real, w: Env)
    requires w.resolveOk
    ensures StaysInStep(s, Judge(s, t, node, value, w))
  {
    hide Recorded, Backed, Fire, End;
    var k := Key(node, t.name);
    EndStaysInStep(s, k, w);
    if Check(t, value).Some? {
      FireStaysInStep(End(s, k, w), k, Check(t, value).value, w);
      if k !in s.store.active {
        FireStaysInStep(s, k, Check(t, value).value, w);
      }
    }
  }

  lemma {:induction false} JudgeAllStaysInStep(s: State, ts: seq<Threshold>, n: nat, node: string,
                                               snapshot: map<string, real>, w: nat -> Env)
    requires n <= |ts| && forall i: nat :: w(i).resolveOk
    ensures StaysInStep(s, JudgeAll(s, ts, n, node, snapshot, w))
  {
    hide Recorded, Backed, Judge;
    if n > 0 {
      JudgeAllStaysInStep(s, ts, n - 1, node, snapshot, w);
      if ts[n - 1].metric in snapshot {
        var before := JudgeAll(s, ts, n - 1, node, snapshot, w);
        JudgeStaysInStep(before, ts[n - 1], node, snapshot[ts[n - 1].metric], w(n - 1));
      }
    }
  }

  lemma ReceiveStaysInStep(s: State, ts: seq<Threshold>, node: string, snapshot: map<string, real>, reboot: Env,
                           w: nat -> Env)
    requires forall i: nat :: w(i).resolveOk
    ensures StaysInStep(s, Receive(s, ts, node, snapshot, reboot, w))
  {
    hide Recorded, Backed, Follow, JudgeAll;
    var seen := Reboot(s, node, snapshot, reboot);
    if Uptimes(s, node, snapshot).Some? {
      var u := Uptimes(s, node, snapshot).value;
      FollowStaysInStep(s, RebootKey(node), u.1 < u.0 - 5.0, Warning, reboot);
    }
    JudgeAllStaysInStep(seen.(snapshots := seen.snapshots[node := snapshot]), ts, |ts|, node, snapshot, w);
  }

  lemma NodeChangeStaysInStep(s: State, node: string, state: NodeState, w: nat -> Env)
    ensures StaysInStep(s, NodeChange(s, node, state, w))
  {
    hide Recorded, Backed, Follow;
    FollowStaysInStep(s, LostKey(node), true, Critical, w(0));
    FollowStaysInStep(s, StaleKey(node), true, Critical, w(0));
    FollowStaysInStep(s, LostKey(node), false, Critical, w(0));
    var found := Follow(s, LostKey(node), false, Critical, w(0));
    FollowStaysInStep(found, StaleKey(node), false, Critical, w(1));
    var both := Follow(found, StaleKey(node), false, Critical, w(1));
    var marks := Reconnections(s, node, w(2).now);
    FollowStaysInStep(both.(reconnects := s.reconnects[node := marks]), FlapKey(node), |marks| >= 5, Warning, w(2));
  }

  lemma DeletedNodeStaysRecorded(s: Store, node: string)
    requires Recorded(s)
    ensures Recorded(s.(rows := DropNode(s.rows, node)))
  {
    var n := s.(rows := DropNode(s.rows, node));
    forall id | id in n.rows && n.rows[id].firing
      ensures RowRecorded(n, id)
    {
      assert RowRecorded(s, id);
    }
  }

  /** An operator's acknowledge or a deleted node takes rows away behind the engine's back. */
  predicate Outside(e: Event) {
    e.Acknowledged? || e.NodeDeleted?
  }

  /** Firing rows stay recorded whatever happens, and one to one with memory unless rows are taken from outside. */
  lemma StepStaysInStep(ts: seq<Threshold>, s: State, e: Event)
    requires Recorded(s.store) && WritesSucceed(s, e)
    ensures Recorded(Step(ts, s, e).store)
    ensures OneToOne(s.store) && !Outside(e) ==> OneToOne(Step(ts, s, e).store)
    ensures e.Restarted? ==> OneToOne(Step(ts, s, e).store)
  {
    hide Recorded, Backed, Receive, NodeChange, Follow, Load, DropOrphans;
    match e
    case Report(node, snapshot, reboot, w) => ReceiveStaysInStep(s, ts, node, snapshot, reboot, w);
    case IntentResult(node, success, w) =>
      var marks := Results(s, node, success, w.now);
      FollowStaysInStep(s.(intents := s.intents[node := marks]), FailureKey(node), FailingTooOften(marks), Warning, w);
    case StateChange(node, state, w) => NodeChangeStaysInStep(s, node, state, w);
    case Acknowledged(id, now) => AcknowledgeKeepsRecorded(s.store, id, now);
    case Purged(cutoff) => PurgeKeepsOneToOne(s.store, cutoff);
    case OrphansDropped(nodes, valid) =>
      OrphanCleanupKeepsRecorded(s.store, nodes);
      if OneToOne(s.store) {
        OrphanCleanupKeepsRecordsExactly(s.store, nodes, nodes);
      }
    case NodeDeleted(node) => DeletedNodeStaysRecorded(s.store, node);
    case Restarted(order) =>
      RecordedKeysDiffer(s.store);
      LoadCorrespondsExactly(s.store.rows, order);
  }

  ghost predicate AllWritesSucceed(ts: seq<Threshold>, s: State, events: seq<Event>) {
    forall n :: 0 <= n < |events| ==> WritesSucceed(Run(ts, s, events[..n]), events[n])
  }

  /** Nothing was taken from outside since the last restart. */
  predicate Undisturbed(events: seq<Event>) {
    events == [] || (var n := |events| - 1; events[n].Restarted? || (!Outside(events[n]) && Undisturbed(events[..n])))
  }

  lemma WritesOfPrefix(ts: seq<Threshold>, s: State, events: seq<Event>)
    requires AllWritesSucceed(ts, s, events) && events != []
    ensures var n := |events| - 1;
            AllWritesSucceed(ts, s, events[..n]) && WritesSucceed(Run(ts, s, events[..n]), events[n])
  {
    hide WritesSucceed, Run;
    var before := events[..|events| - 1];
    assert forall n :: 0 <= n < |before| ==> before[..n] == events[..n] && before[n] == events[n];
  }

  /**
   In every run whose writes succeed every firing row has its memory record, and
   the two correspond one to one, with the same identifier, severity and time,
   unless rows were taken from outside since the last restart.
   */
  lemma {:induction false} RunStaysInStep(ts: seq<Threshold>, s: State, events: seq<Event>)
    requires OneToOne(s.store) && AllWritesSucceed(ts, s, events)
    ensures Recorded(Run(ts, s, events).store)
    ensures Undisturbed(events) ==> OneToOne(Run(ts, s, events).store)
  {
    hide Recorded, Backed, Step, WritesSucceed;
    if events != [] {
      var n := |events| - 1;
      WritesOfPrefix(ts, s, events);
      RunStaysInStep(ts, s, events[..n]);
      StepStaysInStep(ts, Run(ts, s, events[..n]), events[n]);
    }
  }

  /** A severity raised while its resolve fails leaves two firing rows of one alert: here from no alert at all. */
  lemma FailedEscalationLeavesTwoRows(s: State, t: Threshold, node: string, value: real, worse: real, v: Env, w: Env)
    requires s.store.active == map[] && CanFire(s, Key(node, t.name), v)
    requires Check(t, value) == Some(Warning) && Check(t, worse) == Some(Critical)
    requires !w.resolveOk && w.id != v.id
    requires CanFire(Judge(s, t, node, value, v), Key(node, t.name), w)
    ensures var after := Judge(Judge(s, t, node, value, v), t, node, worse, w).store;
            && v.id in after.rows && after.rows[v.id].firing && after.rows[v.id].key == Key(node, t.name)
            && w.id in after.rows && after.rows[w.id].firing && after.rows[w.id].key == Key(node, t.name)
            && !Recorded(after) && !DistinctFiringKeys(after.rows)
  {
    hide Check, RateLimit.Kept, RateLimit.Refused;
    var after := Judge(Judge(s, t, node, value, v), t, node, worse, w).store;
    assert !RowRecorded(after, v.id);
  }

  // --- what single alerts follow ---

  /** Only one alert and its limiter list may have changed, and only one row may be new. */
  ghost predicate OnlyTouches(a: State, b: State, k: Key, id: string) {
    && (forall other :: other != k ==>
          SeverityOf(b.store.active, other) == SeverityOf(a.store.active, other) &&
          Lookup(b.limiter, other) == Lookup(a.limiter, other))
    && b.store.rows.Keys <= a.store.rows.Keys + {id}
    && b.snapshots == a.snapshots && b.intents == a.intents && b.reconnects == a.reconnects
  }

  lemma FireTouches(s: State, k: Key, severity: Severity, w: Env)
    ensures OnlyTouches(s, Fire(s, k, severity, w), k, w.id)
    ensures Lookup(Fire(s, k, severity, w).limiter, k) == RateLimit.Kept(Lookup(s.limiter, k), w.now)
    ensures CanFire(s, k, w) ==>
              var active := Fire(s, k, severity, w).store.active;
              k in active && active[k] == Active(w.id, severity, w.now)
    ensures !CanFire(s, k, w) ==> Fire(s, k, severity, w).store == s.store
  {
    hide RateLimit.Kept, RateLimit.Refused;
  }

  lemma EndTouches(s: State, k: Key, w: Env)
    ensures OnlyTouches(s, End(s, k, w), k, w.id)
    ensures End(s, k, w).limiter == s.limiter && End(s, k, w).store.rows.Keys == s.store.rows.Keys
    ensures if w.resolveOk then k !in End(s, k, w).store.active else End(s, k, w) == s
  {
  }

  /** The reading asks for a firing: it reaches more than the alert's severity, or there is no alert. */
  predicate Raises(t: Threshold, current: Option<Severity>, value: real) {
    Check(t, value).Some? && (current.None? || Rank(current.value) < Rank(Check(t, value).value))
  }

  /** The reading asks for the alert's end. */
  predicate Clears(t: Threshold, current: Option<Severity>, value: real) {
    Check(t, value).None? && current.Some? && IsResolved(t, value)
  }

  /**
   One reading touches its own alert only, and moves it as the hysteresis machine
   does if and only if the firing it asks for succeeds and the end it asks for does.
   */
  lemma JudgeObserves(s: State, t: Threshold, node: string, value: real, w: Env)
    ensures var k, after := Key(node, t.name), Judge(s, t, node, value, w);
            var current := SeverityOf(s.store.active, k);
            && OnlyTouches(s, after, k, w.id)
            && Lookup(after.limiter, k) ==
               (if Raises(t, current, value) then RateLimit.Kept(Lookup(s.limiter, k), w.now) else Lookup(s.limiter, k))
            && (SeverityOf(after.store.active, k) == Observe(t, current, value) <==>
                (Raises(t, current, value) ==> CanFire(s, k, w)) && (Clears(t, current, value) ==> w.resolveOk))
  {
    hide Fire, End, Check, IsResolved, RateLimit.Kept, RateLimit.Refused;
    var k := Key(node, t.name);
    EndTouches(s, k, w);
    if Check(t, value).Some? {
      FireTouches(s, k, Check(t, value).value, w);
      FireTouches(End(s, k, w), k, Check(t, value).value, w);
    }
  }

  /** An escalation that resolves the old alert and then is limited or cannot insert leaves no alert at all. */
  lemma EscalationCanLoseTheAlert(s: State, t: Threshold, node: string, value: real, w: Env)
    requires var k := Key(node, t.name);
             k in s.store.active && Raises(t, SeverityOf(s.store.active, k), value) && w.resolveOk && !CanFire(s, k, w)
    ensures var k, after := Key(node, t.name), Judge(s, t, node, value, w).store;
            && k !in after.active && !IsFiring(after.rows, s.store.active[k].id)
            && (OneToOne(s.store) ==> OneToOne(after))
  {
    hide Recorded, Backed, RateLimit.Kept, RateLimit.Refused, Check;
    JudgeStaysInStep(s, t, node, value, w);
  }

  /** An escalation keeps firing rows recorded exactly if it resolves, inserts nothing, or the old row fires no more. */
  lemma EscalationStaysRecordedExactly(s: State, t: Threshold, node: string, value: real, w: Env)
    requires var k := Key(node, t.name);
             Recorded(s.store) && k in s.store.active && Raises(t, SeverityOf(s.store.active, k), value)
    ensures var k := Key(node, t.name);
            Recorded(Judge(s, t, node, value, w).store) <==>
            w.resolveOk || !CanFire(s, k, w) || !StillFiring(s.store, k)
  {
    hide Recorded, Insert, Resolve, RateLimit.Kept, RateLimit.Refused, Check;
    var k := Key(node, t.name);
    if w.id !in s.store.rows {
      EscalationKeepsRecordsExactly(s.store, k, Check(t, value).value, w.id, w.now, w.resolveOk);
    }
    if w.resolveOk {
      JudgeStaysInStep(s, t, node, value, w);
    }
  }

  /** An alert that follows a condition is active exactly then, if nothing fails; a failed write leaves it as it was. */
  lemma FollowSettles(s: State, k: Key, condition: bool, severity: Severity, w: Env)
    ensures var after := Follow(s, k, condition, severity, w);
            && OnlyTouches(s, after, k, w.id)
            && (condition ==> (k in after.store.active <==> k in s.store.active || CanFire(s, k, w)))
            && (!condition ==> (k in after.store.active <==> k in s.store.active && !w.resolveOk))
            && (condition == (k in s.store.active) ==> after == s)
            && (k in s.store.active && k in after.store.active ==> after.store.active[k] == s.store.active[k])
            && (k !in s.store.active && k in after.store.active ==>
                  after.store.active[k] == Active(w.id, severity, w.now))
  {
    hide Fire, End, RateLimit.Kept, RateLimit.Refused;
    FireTouches(s, k, severity, w);
    EndTouches(s, k, w);
  }

  /**
   A reboot alert, a warning, is active exactly when the new report's uptime is
   more than five seconds below the last one's; it stays if either has none.
   */
  lemma RebootFollowsUptime(s: State, node: string, snapshot: map<string, real>, w: Env)
    ensures var after, k := Reboot(s, node, snapshot, w), RebootKey(node);
            && OnlyTouches(s, after, k, w.id)
            && (if "uptime_seconds" in snapshot && node in s.snapshots && "uptime_seconds" in s.snapshots[node] then
                  w.resolveOk && CanFire(s, k, w) ==>
                    (k in after.store.active <==>
                     snapshot["uptime_seconds"] < s.snapshots[node]["uptime_seconds"] - 5.0)
                else after == s)
            && (k !in s.store.active && k in after.store.active ==>
                  after.store.active[k] == Active(w.id, Warning, w.now))
  {
    hide Follow, CanFire;
    if Uptimes(s, node, snapshot).Some? {
      var u := Uptimes(s, node, snapshot).value;
      FollowSettles(s, RebootKey(node), u.1 < u.0 - 5.0, Warning, w);
    }
  }

  /** The failure alert is active exactly when more than a fifth of at least five intents of the last hour failed. */
  lemma TrackFollowsFailures(s: State, node: string, success: bool, w: Env)
    ensures var after, k := Track(s, node, success, w), FailureKey(node);
            && after.intents == s.intents[node := Results(s, node, success, w.now)]
            && (w.resolveOk && CanFire(s, k, w) ==>
                  (k in after.store.active <==> FailingTooOften(Results(s, node, success, w.now))))
            && (k !in s.store.active && k in after.store.active ==>
                  after.store.active[k] == Active(w.id, Warning, w.now))
  {
    hide Follow, RateLimit.Refused, FailingTooOften, LastHour;
    var marks := Results(s, node, success, w.now);
    FollowSettles(s.(intents := s.intents[node := marks]), FailureKey(node), FailingTooOften(marks), Warning, w);
  }

  /** If the alert was not active before and is now, this is its severity. */
  predicate NewlyFired(a: State, b: State, k: Key, severity: Severity) {
    k !in a.store.active && k in b.store.active ==> SeverityOf(b.store.active, k) == Some(severity)
  }

  /**
   A lost node's alert and a stale node's fire; a connected node's are resolved,
   and its flap alert is active exactly when it reconnected five times within
   the hour.
   */
  lemma NodeAlertsFollowState(s: State, node: string, state: NodeState, w: nat -> Env)
    ensures var active := NodeChange(s, node, state, w).store.active;
            && (state.Lost? && CanFire(s, LostKey(node), w(0)) ==> LostKey(node) in active)
            && (state.Stale? && CanFire(s, StaleKey(node), w(0)) ==> StaleKey(node) in active)
            && (state.Connected? && w(0).resolveOk ==> LostKey(node) !in active)
            && (state.Connected? && w(1).resolveOk ==> StaleKey(node) !in active)
            && (state.Connected? && w(2).resolveOk && CanFire(s, FlapKey(node), w(2)) ==>
                  (FlapKey(node) in active <==> |Reconnections(s, node, w(2).now)| >= 5))
    ensures NewlyFired(s, NodeChange(s, node, state, w), LostKey(node), Critical)
    ensures NewlyFired(s, NodeChange(s, node, state, w), StaleKey(node), Critical)
    ensures NewlyFired(s, NodeChange(s, node, state, w), FlapKey(node), Warning)
    ensures state.Other? ==> NodeChange(s, node, state, w) == s
  {
    hide Follow, CanFire, LastHour;
    KeyNamesDiffer(node);
    FollowSettles(s, LostKey(node), true, Critical, w(0));
    FollowSettles(s, StaleKey(node), true, Critical, w(0));
    if state.Connected? {
      var found := FoundAgain(s, node, w);
      var marks := Reconnections(s, node, w(2).now);
      FollowSettles(found.(reconnects := s.reconnects[node := marks]), FlapKey(node), |marks| >= 5, Warning, w(2));
      SameCanFire(s, found, found.(reconnects := s.reconnects[node := marks]), FlapKey(node), w(2));
      var after := NodeChange(s, node, state, w);
      assert SeverityOf(after.store.active, LostKey(node)) == SeverityOf(found.store.active, LostKey(node));
      assert SeverityOf(after.store.active, StaleKey(node)) == SeverityOf(found.store.active, StaleKey(node));
    }
  }

  /** A node that is connected again loses its two alerts, and nothing else changes. */
  lemma FoundAgain(s: State, node: string, w: nat -> Env) returns (found: State)
    ensures found == Follow(Follow(s, LostKey(node), false, Critical, w(0)), StaleKey(node), false, Critical, w(1))
    ensures w(0).resolveOk ==> LostKey(node) !in found.store.active
    ensures w(1).resolveOk ==> StaleKey(node) !in found.store.active
    ensures NewlyFired(s, found, LostKey(node), Critical) && NewlyFired(s, found, StaleKey(node), Critical)
    ensures SeverityOf(found.store.active, FlapKey(node)) == SeverityOf(s.store.active, FlapKey(node))
    ensures found.store.rows.Keys == s.store.rows.Keys && found.limiter == s.limiter
  {
    hide Follow, CanFire;
    KeyNamesDiffer(node);
    FollowSettles(s, LostKey(node), false, Critical, w(0));
    var without := Follow(s, LostKey(node), false, Critical, w(0));
    FollowSettles(without, StaleKey(node), false, Critical, w(1));
    found := Follow(without, StaleKey(node), false, Critical, w(1));
    ResolvingAddsNoRow(s, LostKey(node), w(0));
    ResolvingAddsNoRow(without, StaleKey(node), w(1));
    assert SeverityOf(without.store.active, StaleKey(node)) == SeverityOf(s.store.active, StaleKey(node));
    assert SeverityOf(found.store.active, LostKey(node)) == SeverityOf(without.store.active, LostKey(node));
    assert SeverityOf(without.store.active, FlapKey(node)) == SeverityOf(s.store.active, FlapKey(node));
    assert SeverityOf(found.store.active, FlapKey(node)) == SeverityOf(without.store.active, FlapKey(node));
  }

  lemma SameCanFire(a: State, b: State, c: State, k: Key, w: Env)
    requires b.store.rows.Keys == a.store.rows.Keys && b.limiter == a.limiter
    requires c.store == b.store && c.limiter == b.limiter
    ensures CanFire(a, k, w) == CanFire(c, k, w)
  {
    hide RateLimit.Refused;
  }

  lemma ResolvingAddsNoRow(s: State, k: Key, w: Env)
    ensures Follow(s, k, false, Critical, w).store.rows.Keys == s.store.rows.Keys
    ensures Follow(s, k, false, Critical, w).limiter == s.limiter
  {
  }

  lemma KeyNamesDiffer(node: string)
    ensures LostKey(node) != StaleKey(node) && LostKey(node) != FlapKey(node) && StaleKey(node) != FlapKey(node)
  {
    assert "node_state_lost"[5] == 's' && "node_connection_flap"[5] == 'c' && "node_state_stale"[5] == 's';
    assert "node_state_lost"[11] == 'l' && "node_state_stale"[11] == 's';
  }
}
