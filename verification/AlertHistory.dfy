/**
 What the severity of a threshold's alert means after any run of the alert
 engine (master/core/alert_engine.py): the highest one reached since the last
 reading that ended the alert.
 */
module AlertHistory {
  import opened Common
  import opened Thresholds
  import opened AlertStore
  import opened AlertMachine
  import RateLimit

  // --- one report, seen from one threshold ---

  /** What one report should make of an alert. */
  function Verdict(t: Threshold, snapshot: map<string, real>, current: Option<Severity>): Option<Severity> {
    if t.metric in snapshot then Observe(t, current, snapshot[t.metric]) else current
  }

  /** An alert's severity and limiter list are as they were. */
  ghost predicate SameAlert(a: State, b: State, k: Key) {
    SeverityOf(b.store.active, k) == SeverityOf(a.store.active, k) && Lookup(b.limiter, k) == Lookup(a.limiter, k)
  }

  ghost predicate RowsFrom(s: State, after: State, w: nat -> Env, n: nat) {
    forall id :: id in after.store.rows ==> id in s.store.rows || exists j: nat :: j < n && w(j).id == id
  }

  lemma RowsGrow(a: State, b: State, c: State, w: nat -> Env, n: nat)
    requires RowsFrom(a, b, w, n) && c.store.rows.Keys <= b.store.rows.Keys + {w(n).id}
    ensures RowsFrom(a, c, w, n + 1)
  {
    forall id | id in c.store.rows
      ensures id in a.store.rows || exists j: nat :: j < n + 1 && w(j).id == id
    {
      if id !in a.store.rows {
        if id != w(n).id {
          assert id in b.store.rows.Keys && id in b.store.rows;
          var j: nat :| j < n && w(j).id == id;
          assert j < n + 1;
        } else {
          assert n < n + 1;
        }
      }
    }
  }

  /** New rows bear the identifiers of the thresholds judged so far. */
  lemma {:induction false} JudgeAllRows(s: State, ts: seq<Threshold>, n: nat, node: string, snapshot: map<string, real>,
                                        w: nat -> Env)
    requires n <= |ts|
    ensures RowsFrom(s, JudgeAll(s, ts, n, node, snapshot, w), w, n)
  {
    hide Judge, SeverityOf, Lookup, RowsFrom;
    if n == 0 {
      RowsFromSelf(s, w);
    } else {
      var before := JudgeAll(s, ts, n - 1, node, snapshot, w);
      JudgeAllRows(s, ts, n - 1, node, snapshot, w);
      if ts[n - 1].metric in snapshot {
        JudgeObserves(before, ts[n - 1], node, snapshot[ts[n - 1].metric], w(n - 1));
      }
      RowsGrow(s, before, JudgeAll(s, ts, n, node, snapshot, w), w, n - 1);
    }
  }

  /** The thresholds judged so far touch their own alerts only. */
  lemma {:induction false} JudgeAllFrame(s: State, ts: seq<Threshold>, n: nat, node: string,
                                         snapshot: map<string, real>, w: nat -> Env, k: Key)
    requires n <= |ts| && (k.node == node ==> forall j :: 0 <= j < n ==> ts[j].name != k.alert)
    ensures SameAlert(s, JudgeAll(s, ts, n, node, snapshot, w), k)
  {
    hide Judge, SeverityOf, Lookup;
    if n > 0 {
      JudgeAllFrame(s, ts, n - 1, node, snapshot, w, k);
      if ts[n - 1].metric in snapshot {
        var before := JudgeAll(s, ts, n - 1, node, snapshot, w);
        JudgeObserves(before, ts[n - 1], node, snapshot[ts[n - 1].metric], w(n - 1));
        assert k != Key(node, ts[n - 1].name);
      }
    }
  }

  lemma RowsFromSelf(s: State, w: nat -> Env)
    ensures RowsFrom(s, s, w, 0)
  {
  }

  /** If the report asks the `i`-th threshold's alert to fire or to end, that would succeed. */
  ghost predicate Ready(s: State, t: Threshold, k: Key, snapshot: map<string, real>, w: nat -> Env, i: nat) {
    t.metric in snapshot ==>
      var current := SeverityOf(s.store.active, k);
      && (Clears(t, current, snapshot[t.metric]) ==> w(i).resolveOk)
      && (Raises(t, current, snapshot[t.metric]) ==>
            && w(i).insertOk && w(i).id !in s.store.rows && (forall j: nat :: j < i ==> w(j).id != w(i).id)
            && !RateLimit.Refused(Lookup(s.limiter, k), w(i).now))
  }

  /** The limiter list after a report: one more entry, and pruned, if the report asks the alert to fire. */
  function KeptBy(t: Threshold, current: Option<Severity>, snapshot: map<string, real>, kept: seq<real>,
                  now: real): seq<real> {
    if t.metric in snapshot && Raises(t, current, snapshot[t.metric]) then RateLimit.Kept(kept, now) else kept
  }

  /** After all thresholds were judged, the alert of each that was ready is as the hysteresis machine says. */
  lemma {:induction false} JudgeAllObserves(s: State, ts: seq<Threshold>, n: nat, node: string,
                                            snapshot: map<string, real>, w: nat -> Env, i: nat)
    requires DistinctNames(ts) && i < n <= |ts| && Ready(s, ts[i], Key(node, ts[i].name), snapshot, w, i)
    ensures var k, after := Key(node, ts[i].name), JudgeAll(s, ts, n, node, snapshot, w);
            var current := SeverityOf(s.store.active, k);
            && SeverityOf(after.store.active, k) == Verdict(ts[i], snapshot, current)
            && Lookup(after.limiter, k) == KeptBy(ts[i], current, snapshot, Lookup(s.limiter, k), w(i).now)
  {
    hide Judge, SeverityOf, Lookup, Observe, Raises, Clears, RateLimit.Kept, RateLimit.Refused;
    var k := Key(node, ts[i].name);
    var before := JudgeAll(s, ts, n - 1, node, snapshot, w);
    if i < n - 1 {
      JudgeAllObserves(s, ts, n - 1, node, snapshot, w, i);
      if ts[n - 1].metric in snapshot {
        JudgeObserves(before, ts[n - 1], node, snapshot[ts[n - 1].metric], w(n - 1));
        assert k != Key(node, ts[n - 1].name);
      }
    } else {
      JudgeAllFrame(s, ts, i, node, snapshot, w, k);
      JudgeAllRows(s, ts, i, node, snapshot, w);
      assert Ready(before, ts[i], k, snapshot, w, i);
      if ts[i].metric in snapshot {
        JudgeObserves(before, ts[i], node, snapshot[ts[i].metric], w(i));
      }
    }
  }

  // --- any event, seen from one threshold ---

  /** No threshold's alert goes by the name of another kind of alert. */
  predicate OwnNames(ts: seq<Threshold>) {
    forall i :: 0 <= i < |ts| ==>
      ts[i].name != "node_reboot_detected" && ts[i].name != "intent_failed_rate" && ts[i].name != "node_state_lost" &&
      ts[i].name != "node_state_stale" && ts[i].name != "node_connection_flap"
  }

  lemma BuiltinsHaveOwnNames()
    ensures OwnNames(BUILTIN_THRESHOLDS)
  {
  }

  /** The readings that the node's reports bring of a metric, one for each report, absent ones included. */
  function Readings(events: seq<Event>, node: string, metric: string): seq<Option<real>> {
    if events == [] then []
    else
      var n := |events| - 1;
      var before := Readings(events[..n], node, metric);
      match events[n]
      case Report(m, snapshot, _, _) =>
        if m != node then before
        else before + [if metric in snapshot then Some(snapshot[metric]) else None]
      case _ => before
  }

  /** What the node's readings of a threshold's metric have made of its alert so far. */
  function Level(t: Threshold, events: seq<Event>, node: string): Option<Severity> {
    Replay(t, Readings(events, node, t.metric))
  }

  /** The clock at each reading of the node that asks the `i`-th threshold's alert to fire. */
  function Clocks(t: Threshold, events: seq<Event>, node: string, i: nat): seq<real> {
    if events == [] then []
    else
      var n := |events| - 1;
      var before := Clocks(t, events[..n], node, i);
      match events[n]
      case Report(m, snapshot, _, w) =>
        if m == node && t.metric in snapshot && Raises(t, Level(t, events[..n], node), snapshot[t.metric]) then
          before + [w(i).now]
        else before
      case _ => before
  }

  /** An identifier that the event may give a new row. */
  ghost predicate Offers(ts: seq<Threshold>, e: Event, id: string) {
    match e
    case Report(_, _, reboot, w) => id == reboot.id || exists j: nat :: j < |ts| && w(j).id == id
    case IntentResult(_, _, w) => id == w.id
    case StateChange(_, _, w) => id == w(0).id || id == w(1).id || id == w(2).id
    case _ => false
  }

  /**
   The event does not take the node's alerts out of memory: no orphan cleanup of
   the node, and no restart that does not find in the table what memory held.
   */
  ghost predicate Steady(s: State, e: Event, node: string) {
    && (e.OrphansDropped? ==> node in e.valid)
    && (e.Restarted? ==> OneToOne(s.store) && forall id :: IsFiring(s.store.rows, id) ==> id in e.order)
  }

  /**
   For the `i`-th threshold of a node nothing goes wrong with the `n`-th event: if
   it is a reading that ends the alert the write succeeds; if it is one that
   raises it, the write succeeds with a new identifier, and the limiter would let
   it fire if it had counted all readings that raised it before.
   */
  ghost predicate GoesWellAt(ts: seq<Threshold>, s: State, events: seq<Event>, node: string, i: nat, n: nat)
    requires n < |events| && i < |ts|
  {
    var e, t := events[n], ts[i];
    && Steady(Run(ts, s, events[..n]), e, node)
    && (e.Report? && e.node == node && t.metric in e.snapshot ==>
          var w, level := e.w(i), Level(t, events[..n], node);
          && (Clears(t, level, e.snapshot[t.metric]) ==> w.resolveOk)
          && (Raises(t, level, e.snapshot[t.metric]) ==>
                && w.insertOk
                && w.id !in s.store.rows && w.id != e.reboot.id
                && (forall j: nat :: j < i ==> e.w(j).id != w.id)
                && (forall m :: 0 <= m < n ==> !Offers(ts, events[m], w.id))
                && !RateLimit.Refused(Lookup(s.limiter, Key(node, t.name)) + Clocks(t, events[..n], node, i), w.now)))
  }

  ghost predicate GoesWell(ts: seq<Threshold>, s: State, events: seq<Event>, node: string, i: nat)
    requires i < |ts|
  {
    forall n: nat :: n < |events| ==> GoesWellAt(ts, s, events, node, i, n)
  }

  /** A limiter list shows no more recent firings than some clock readings do, whenever one looks. */
  ghost predicate Bounded(kept: seq<real>, clocks: seq<real>) {
    forall now: real :: |RateLimit.Recent(kept, now)| <= |RateLimit.Recent(clocks, now)|
  }

  lemma BoundedAfter(kept: seq<real>, clocks: seq<real>, now: real)
    requires Bounded(kept, clocks)
    ensures Bounded(RateLimit.Kept(kept, now), clocks + [now])
  {
    forall x: real
      ensures |RateLimit.Recent(RateLimit.Kept(kept, now), x)| <= |RateLimit.Recent(clocks + [now], x)|
    {
      RateLimit.RecentSnoc(clocks, now, x);
      RateLimit.RecentSnoc(RateLimit.Recent(kept, now), now, x);
      RateLimit.RecentTwiceExactly(kept, now, x);
    }
  }

  lemma NotRefused(kept: seq<real>, clocks: seq<real>, now: real)
    requires Bounded(kept, clocks) && !RateLimit.Refused(clocks, now)
    ensures !RateLimit.Refused(kept, now)
  {
  }

  /** Only rows offered by the events are new. */
  ghost predicate RowsOffered(ts: seq<Threshold>, s: State, after: State, events: seq<Event>) {
    forall id :: id in after.store.rows ==>
      id in s.store.rows || exists m :: 0 <= m < |events| && Offers(ts, events[m], id)
  }

  lemma FollowFrame(s: State, follows: Key, condition: bool, severity: Severity, w: Env, k: Key)
    requires k != follows
    ensures var after := Follow(s, follows, condition, severity, w);
            SameAlert(s, after, k) && forall id :: id in after.store.rows ==> id in s.store.rows || id == w.id
  {
    hide Follow, SeverityOf, Lookup, CanFire;
    FollowSettles(s, follows, condition, severity, w);
    var after := Follow(s, follows, condition, severity, w);
    forall id | id in after.store.rows
      ensures id in s.store.rows || id == w.id
    {
      assert id in after.store.rows.Keys;
    }
  }

  lemma NodeChangeFrame(ts: seq<Threshold>, s: State, e: Event, k: Key)
    requires e.StateChange? && k != LostKey(e.changed) && k != StaleKey(e.changed) && k != FlapKey(e.changed)
    ensures SameAlert(s, Step(ts, s, e), k)
    ensures forall id :: id in Step(ts, s, e).store.rows ==> id in s.store.rows || Offers(ts, e, id)
  {
    hide Follow, LastHour, SeverityOf, Lookup, CanFire;
    var node, w := e.changed, e.envs;
    match e.state {
      case Lost => FollowFrame(s, LostKey(node), true, Critical, w(0), k);
      case Stale => FollowFrame(s, StaleKey(node), true, Critical, w(0), k);
      case Connected =>
        FollowFrame(s, LostKey(node), false, Critical, w(0), k);
        var found := Follow(s, LostKey(node), false, Critical, w(0));
        FollowFrame(found, StaleKey(node), false, Critical, w(1), k);
        var both := Follow(found, StaleKey(node), false, Critical, w(1));
        var marks := Reconnections(s, node, w(2).now);
        FollowFrame(both.(reconnects := s.reconnects[node := marks]), FlapKey(node), |marks| >= 5, Warning, w(2), k);
      case Other =>
    }
  }

  lemma TrackFrame(ts: seq<Threshold>, s: State, e: Event, k: Key)
    requires e.IntentResult? && k != FailureKey(e.reporter)
    ensures SameAlert(s, Step(ts, s, e), k)
    ensures forall id :: id in Step(ts, s, e).store.rows ==> id in s.store.rows || Offers(ts, e, id)
  {
    hide Follow, LastHour, SeverityOf, Lookup, FailingTooOften;
    var node, w := e.reporter, e.env;
    var marks := Results(s, node, e.success, w.now);
    FollowSettles(s.(intents := s.intents[node := marks]), FailureKey(node), FailingTooOften(marks), Warning, w);
  }

  lemma CleanupFrame(ts: seq<Threshold>, s: State, e: Event, k: Key)
    requires e.Acknowledged? || e.Purged? || e.OrphansDropped? || e.NodeDeleted?
    requires e.OrphansDropped? ==> k.node in e.valid
    ensures SameAlert(s, Step(ts, s, e), k)
    ensures forall id :: id in Step(ts, s, e).store.rows ==> id in s.store.rows
  {
  }

  lemma RebootFrame(s: State, node: string, snapshot: map<string, real>, w: Env, k: Key)
    requires k != RebootKey(node)
    ensures SameAlert(s, Reboot(s, node, snapshot, w), k)
  {
    hide Reboot, SeverityOf, Lookup;
    RebootFollowsUptime(s, node, snapshot, w);
  }

  lemma RebootRows(s: State, node: string, snapshot: map<string, real>, w: Env)
    ensures forall id :: id in Reboot(s, node, snapshot, w).store.rows ==> id in s.store.rows || id == w.id
  {
    hide Reboot, SeverityOf, Lookup;
    RebootFollowsUptime(s, node, snapshot, w);
    var after := Reboot(s, node, snapshot, w);
    forall id | id in after.store.rows
      ensures id in s.store.rows || id == w.id
    {
      assert id in after.store.rows.Keys;
    }
  }

  lemma ReportRows(ts: seq<Threshold>, s: State, e: Event)
    requires e.Report?
    ensures forall id :: id in Step(ts, s, e).store.rows ==> id in s.store.rows || Offers(ts, e, id)
  {
    hide Reboot, JudgeAll;
    var seen := Reboot(s, e.node, e.snapshot, e.reboot);
    RebootRows(s, e.node, e.snapshot, e.reboot);
    JudgeAllRows(seen.(snapshots := seen.snapshots[e.node := e.snapshot]), ts, |ts|, e.node, e.snapshot, e.w);
  }

  lemma ReportFrame(ts: seq<Threshold>, s: State, e: Event, k: Key)
    requires e.Report? && e.node != k.node
    ensures SameAlert(s, Step(ts, s, e), k)
  {
    hide Reboot, JudgeAll;
    var seen := Reboot(s, e.node, e.snapshot, e.reboot);
    RebootFrame(s, e.node, e.snapshot, e.reboot, k);
    JudgeAllFrame(seen.(snapshots := seen.snapshots[e.node := e.snapshot]), ts, |ts|, e.node, e.snapshot, e.w, k);
  }

  /** A firing that the report asks for does not take the identifier of its reboot alert. */
  ghost predicate NotTheReboots(s: State, t: Threshold, k: Key, e: Event, i: nat)
    requires e.Report?
  {
    t.metric in e.snapshot && Raises(t, SeverityOf(s.store.active, k), e.snapshot[t.metric]) ==>
      e.w(i).id != e.reboot.id
  }

  /** A report of the node moves the alert as the hysteresis machine does. */
  lemma ReportObserves(ts: seq<Threshold>, s: State, e: Event, i: nat)
    requires DistinctNames(ts) && OwnNames(ts) && e.Report? && i < |ts|
    requires Ready(s, ts[i], Key(e.node, ts[i].name), e.snapshot, e.w, i)
    requires NotTheReboots(s, ts[i], Key(e.node, ts[i].name), e, i)
    ensures var k, after := Key(e.node, ts[i].name), Step(ts, s, e);
            var current := SeverityOf(s.store.active, k);
            && SeverityOf(after.store.active, k) == Verdict(ts[i], e.snapshot, current)
            && Lookup(after.limiter, k) == KeptBy(ts[i], current, e.snapshot, Lookup(s.limiter, k), e.w(i).now)
  {
    hide Reboot, JudgeAll, Verdict, SeverityOf, Lookup, Raises, Clears, KeptBy, RateLimit.Kept, RateLimit.Refused;
    var k := Key(e.node, ts[i].name);
    var seen := Reboot(s, e.node, e.snapshot, e.reboot);
    RebootFrame(s, e.node, e.snapshot, e.reboot, k);
    RebootRows(s, e.node, e.snapshot, e.reboot);
    JudgeAllObserves(seen.(snapshots := seen.snapshots[e.node := e.snapshot]), ts, |ts|, e.node, e.snapshot, e.w, i);
  }

  // --- every run ---

  /** What a run has made of one threshold's alert. */
  ghost predicate Tracks(ts: seq<Threshold>, s: State, events: seq<Event>, node: string, i: nat)
    requires i < |ts|
  {
    var k, after := Key(node, ts[i].name), Run(ts, s, events);
    && SeverityOf(after.store.active, k) == Level(ts[i], events, node)
    && Bounded(Lookup(after.limiter, k), Lookup(s.limiter, k) + Clocks(ts[i], events, node, i))
    && RowsOffered(ts, s, after, events)
  }

  lemma TracksNothing(ts: seq<Threshold>, s: State, node: string, i: nat)
    requires i < |ts| && Key(node, ts[i].name) !in s.store.active
    ensures Tracks(ts, s, [], node, i)
  {
    assert Lookup(s.limiter, Key(node, ts[i].name)) + [] == Lookup(s.limiter, Key(node, ts[i].name));
  }

  lemma OfferedNext(ts: seq<Threshold>, s: State, before: State, after: State, events: seq<Event>)
    requires events != [] && RowsOffered(ts, s, before, events[..|events| - 1])
    requires forall id :: id in after.store.rows ==> id in before.store.rows || Offers(ts, events[|events| - 1], id)
    ensures RowsOffered(ts, s, after, events)
  {
    hide Offers;
    var n := |events| - 1;
    forall id | id in after.store.rows && id !in s.store.rows
      ensures exists m :: 0 <= m < |events| && Offers(ts, events[m], id)
    {
      if id in before.store.rows {
        var m :| 0 <= m < n && Offers(ts, events[..n][m], id);
        assert events[m] == events[..n][m];
      } else {
        assert Offers(ts, events[n], id);
      }
    }
  }

  lemma EventRows(ts: seq<Threshold>, s: State, e: Event)
    ensures forall id :: id in Step(ts, s, e).store.rows ==> id in s.store.rows || Offers(ts, e, id)
  {
    hide Step, Offers;
    match e
    case Report(_, _, _, _) => ReportRows(ts, s, e);
    case IntentResult(_, _, _) => TrackFrame(ts, s, e, RebootKey(e.reporter)) by { SpecialNamesDiffer(e.reporter); }
    case StateChange(_, _, _) => NodeChangeFrame(ts, s, e, RebootKey(e.changed)) by { SpecialNamesDiffer(e.changed); }
    case OrphansDropped(nodes, valid) => StoreRows(ts, s, e);
    case Restarted(order) => StoreRows(ts, s, e);
    case _ => CleanupFrame(ts, s, e, RebootKey(""));
  }

  lemma StoreRows(ts: seq<Threshold>, s: State, e: Event)
    requires e.OrphansDropped? || e.Restarted?
    ensures forall id :: id in Step(ts, s, e).store.rows ==> id in s.store.rows
  {
  }

  lemma SpecialNamesDiffer(node: string)
    ensures RebootKey(node) != FailureKey(node) && RebootKey(node) != LostKey(node) && RebootKey(node) != StaleKey(node)
    ensures RebootKey(node) != FlapKey(node)
  {
    var name := "node_reboot_detected";
    assert name[5] == 'r' && "intent_failed_rate"[0] == 'i' && "node_state_lost"[5] == 's';
    assert "node_state_stale"[5] == 's' && "node_connection_flap"[5] == 'c';
  }

  /** An event that is not a report of the node leaves its thresholds' alerts alone. */
  lemma OtherEventsKeepAlert(ts: seq<Threshold>, s: State, e: Event, node: string, i: nat)
    requires OwnNames(ts) && i < |ts| && Steady(s, e, node) && !e.Restarted? && !(e.Report? && e.node == node)
    ensures SameAlert(s, Step(ts, s, e), Key(node, ts[i].name))
  {
    hide Step;
    var k := Key(node, ts[i].name);
    match e
    case Report(_, _, _, _) => ReportFrame(ts, s, e, k);
    case IntentResult(_, _, _) => TrackFrame(ts, s, e, k);
    case StateChange(_, _, _) => NodeChangeFrame(ts, s, e, k);
    case _ => CleanupFrame(ts, s, e, k);
  }

  /** A restart that finds in the table what memory held restores it, and empties the limiter. */
  lemma RestartKeepsAlert(ts: seq<Threshold>, s: State, e: Event, node: string)
    requires e.Restarted? && Steady(s, e, node)
    ensures Step(ts, s, e).store.active == s.store.active && Step(ts, s, e).limiter == map[]
  {
    hide Load, Recorded, Backed;
    RecordedKeysDiffer(s.store);
    LoadCorrespondsExactly(s.store.rows, e.order);
    RebuildRestoresMemory(s.store, Load(s.store.rows, e.order));
  }

  lemma NothingIsBounded(clocks: seq<real>)
    ensures Bounded([], clocks)
  {
  }

  lemma GoesWellBefore(ts: seq<Threshold>, s: State, events: seq<Event>, node: string, i: nat)
    requires i < |ts| && events != [] && GoesWell(ts, s, events, node, i)
    ensures var n := |events| - 1;
            GoesWell(ts, s, events[..n], node, i) && GoesWellAt(ts, s, events, node, i, n)
  {
    hide Offers, Steady, RateLimit.Refused, Lookup, Run;
    var last := |events| - 1;
    var before := events[..last];
    forall n: nat | n < last
      ensures GoesWellAt(ts, s, before, node, i, n)
    {
      assert GoesWellAt(ts, s, events, node, i, n);
      assert before[..n] == events[..n] && before[n] == events[n];
    }
  }

  lemma ReadyAfter(ts: seq<Threshold>, s: State, events: seq<Event>, node: string, i: nat)
    requires i < |ts| && events != []
    requires var n := |events| - 1;
             && Tracks(ts, s, events[..n], node, i) && GoesWellAt(ts, s, events, node, i, n)
             && events[n].Report? && events[n].node == node
    ensures var n := |events| - 1;
            var before, k := Run(ts, s, events[..n]), Key(node, ts[i].name);
            && Ready(before, ts[i], k, events[n].snapshot, events[n].w, i)
            && NotTheReboots(before, ts[i], k, events[n], i)
  {
    hide Offers, Run, Level, SeverityOf, Clocks, Lookup, Raises, Clears, RateLimit.Refused, Bounded, Steady;
    var n := |events| - 1;
    var t, e := ts[i], events[n];
    var k, before, w := Key(node, t.name), Run(ts, s, events[..n]), e.w(i);
    if t.metric in e.snapshot && Raises(t, Level(t, events[..n], node), e.snapshot[t.metric]) {
      NotRefused(Lookup(before.limiter, k), Lookup(s.limiter, k) + Clocks(t, events[..n], node, i), w.now);
      assert forall m :: 0 <= m < n ==> events[..n][m] == events[m];
      assert w.id !in before.store.rows;
    }
  }

  /** One more event. */
  lemma TracksNext(ts: seq<Threshold>, s: State, events: seq<Event>, node: string, i: nat)
    requires DistinctNames(ts) && OwnNames(ts) && i < |ts| && events != []
    requires var n := |events| - 1; Tracks(ts, s, events[..n], node, i) && GoesWellAt(ts, s, events, node, i, n)
    ensures Tracks(ts, s, events, node, i)
  {
    hide Step, Offers, SeverityOf, Lookup, Observe, Bounded, RowsOffered, Ready, NotTheReboots, Level, Verdict, Clears;
    var n := |events| - 1;
    var t, k, before, e := ts[i], Key(node, ts[i].name), Run(ts, s, events[..n]), events[n];
    EventRows(ts, before, e);
    OfferedNext(ts, s, before, Step(ts, before, e), events);
    if e.Report? && e.node == node {
      ReadyAfter(ts, s, events, node, i);
      ReportObserves(ts, before, e, i);
      LevelNext(t, events, node);
      LimiterNext(t, events, node, i, Lookup(s.limiter, k), Lookup(before.limiter, k));
    } else if e.Restarted? {
      RestartKeepsAlert(ts, before, e, node);
      NothingIsBounded(Lookup(s.limiter, k) + Clocks(t, events, node, i));
      LookupNothing(k);
      LevelStays(t, events, node);
    } else {
      OtherEventsKeepAlert(ts, before, e, node, i);
      LevelStays(t, events, node);
    }
  }

  lemma LimiterNext(t: Threshold, events: seq<Event>, node: string, i: nat, first: seq<real>, kept: seq<real>)
    requires events != [] && events[|events| - 1].Report? && events[|events| - 1].node == node
    requires Bounded(kept, first + Clocks(t, events[..|events| - 1], node, i))
    ensures var n := |events| - 1;
            Bounded(KeptBy(t, Level(t, events[..n], node), events[n].snapshot, kept, events[n].w(i).now),
                    first + Clocks(t, events, node, i))
  {
    hide Bounded, Level, Raises, RateLimit.Kept;
    var n := |events| - 1;
    var clocks, e := Clocks(t, events[..n], node, i), events[n];
    if t.metric in e.snapshot && Raises(t, Level(t, events[..n], node), e.snapshot[t.metric]) {
      BoundedAfter(kept, first + clocks, e.w(i).now);
      assert first + clocks + [e.w(i).now] == first + (clocks + [e.w(i).now]);
    }
  }

  /** Events that are not reports of the node bring no reading. */
  lemma LevelStays(t: Threshold, events: seq<Event>, node: string)
    requires events != [] && !(events[|events| - 1].Report? && events[|events| - 1].node == node)
    ensures Level(t, events, node) == Level(t, events[..|events| - 1], node)
  {
  }

  lemma LookupNothing(k: Key)
    ensures Lookup(map[], k) == []
  {
  }

  /** One more report of the node is one more reading. */
  lemma LevelNext(t: Threshold, events: seq<Event>, node: string)
    requires events != [] && events[|events| - 1].Report? && events[|events| - 1].node == node
    ensures var n := |events| - 1;
            Level(t, events, node) == Verdict(t, events[n].snapshot, Level(t, events[..n], node))
  {
    hide Observe;
    var before := Readings(events[..|events| - 1], node, t.metric);
    var all := Readings(events, node, t.metric);
    assert all[..|before|] == before;
  }

  /** A severity is the highest that a node's readings have reached since the last one that ended the alert. */
  ghost predicate MeansHighest(t: Threshold, events: seq<Event>, node: string, severity: Option<Severity>) {
    IsHighest(t, SinceReset(t, Readings(events, node, t.metric)), severity)
  }

  /**
   After any run in which nothing goes wrong for a threshold of a node, in the
   middle of whatever happens to other alerts and nodes, and across restarts that
   find in the table what memory held, its alert's severity is the highest the
   node's readings reached since the last one that ended it, and the alert is
   absent if none reached any.
   */
  lemma {:induction false} HighestSinceReset(ts: seq<Threshold>, s: State, events: seq<Event>, node: string, i: nat)
    requires DistinctNames(ts) && OwnNames(ts) && i < |ts| && Key(node, ts[i].name) !in s.store.active
    requires GoesWell(ts, s, events, node, i)
    ensures MeansHighest(ts[i], events, node, SeverityOf(Run(ts, s, events).store.active, Key(node, ts[i].name)))
  {
    hide GoesWell, Replay, Readings, Run, SeverityOf, IsHighest, SinceReset;
    RunTracks(ts, s, events, node, i);
    ReplayIsHighestSinceReset(ts[i], Readings(events, node, ts[i].metric));
  }

  lemma {:induction false} RunTracks(ts: seq<Threshold>, s: State, events: seq<Event>, node: string, i: nat)
    requires DistinctNames(ts) && OwnNames(ts) && i < |ts| && Key(node, ts[i].name) !in s.store.active
    requires GoesWell(ts, s, events, node, i)
    ensures Tracks(ts, s, events, node, i)
  {
    hide GoesWell, GoesWellAt, Tracks;
    if events == [] {
      TracksNothing(ts, s, node, i);
    } else {
      GoesWellBefore(ts, s, events, node, i);
      RunTracks(ts, s, events[..|events| - 1], node, i);
      TracksNext(ts, s, events, node, i);
    }
  }
}
