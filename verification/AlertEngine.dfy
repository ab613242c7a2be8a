/**
 The alert engine object (master/core/alert_engine.py), method by method, against
 the steps of `AlertMachine`.
 */
module AlertEngine {
  import opened Common
  import opened Thresholds
  import opened AlertStore
  import opened AlertMachine
  import AlertHistory
  import RateLimit

  /** The entries of the nodes that are still there, the others deleted one by one. */
  method RetainNodes<V>(entries: map<string, V>, valid: set<string>) returns (kept: map<string, V>)
    ensures kept == map n | n in entries && n in valid :: entries[n]
  {
    kept := entries;
    var todo := entries.Keys;
    while todo != {}
      invariant todo <= kept.Keys <= entries.Keys
      invariant forall n :: n in entries ==> (n in kept <==> n in todo || n in valid)
      invariant forall n :: n in kept ==> kept[n] == entries[n]
      decreases todo
    {
      var n :| n in todo;
      if n !in valid {
        kept := kept - {n};
      }
      todo := todo - {n};
    }
  }

  method RetainKeys<V>(entries: map<Key, V>, valid: set<string>) returns (kept: map<Key, V>)
    ensures kept == map k | k in entries && k.node in valid :: entries[k]
  {
    kept := entries;
    var todo := entries.Keys;
    while todo != {}
      invariant todo <= kept.Keys <= entries.Keys
      invariant forall k :: k in entries ==> (k in kept <==> k in todo || k.node in valid)
      invariant forall k :: k in kept ==> kept[k] == entries[k]
      decreases todo
    {
      var k :| k in todo;
      if k.node !in valid {
        kept := kept - {k};
      }
      todo := todo - {k};
    }
  }

  class Engine {
    const thresholds: seq<Threshold>
    var active: map<Key, Active>
    var rows: map<string, AlertRow>
    var limiter: map<Key, seq<real>>
    var lastSnapshot: map<string, map<string, real>>
    var intentResults: map<string, seq<(real, bool)>>
    var reconnects: map<string, seq<(real, ())>>

    function View(): State
      reads this
    {
      State(Store(active, rows), limiter, lastSnapshot, intentResults, reconnects)
    }

    constructor (thresholds: seq<Threshold>, rows: map<string, AlertRow>)
      ensures View() == Started(rows, []) && this.thresholds == thresholds
    {
      this.thresholds, this.rows := thresholds, rows;
      active, limiter, lastSnapshot, intentResults, reconnects := map[], map[], map[], map[], map[];
    }

    /**
     Loads the firing rows at start, whatever the table holds: every record then
     has its row, and the two correspond one to one exactly when the database
     returned every firing row and no two of them share an alert.
     */
    method Initialize(order: seq<string>)
      requires active == map[]
      modifies this`active
      ensures View() == old(View()).(store := Store(Load(rows, order), rows))
      ensures Backed(View().store)
      ensures OneToOne(View().store) <==> (forall id :: IsFiring(rows, id) ==> id in order) && DistinctFiringKeys(rows)
    {
      hide Recorded, Backed;
      for n := 0 to |order|
        invariant active == Load(rows, order[..n])
      {
        assert order[..n + 1][..n] == order[..n];
        var id := order[n];
        if id in rows && rows[id].firing {
          active := active[rows[id].key := Active(id, rows[id].severity, rows[id].createdAt)];
        }
      }
      assert order[..|order|] == order;
      LoadedIsBacked(rows, order);
      LoadCorrespondsExactly(rows, order);
    }

    method IsRateLimited(k: Key, now: real) returns (limited: bool)
      modifies this`limiter
      ensures limited <==> RateLimit.Refused(Lookup(old(limiter), k), now)
      ensures limiter == old(limiter)[k := RateLimit.Kept(Lookup(old(limiter), k), now)]
    {
      var timestamps := RateLimit.Recent(Lookup(limiter, k), now);
      limited := |timestamps| >= RateLimit.MAX_FIRINGS;
      limiter := limiter[k := if limited then timestamps else timestamps + [now]];
    }

    method FireAlert(k: Key, severity: Severity, w: Env) returns (fired: bool)
      modifies this`limiter, this`active, this`rows
      ensures fired <==> CanFire(old(View()), k, w)
      ensures View() == Fire(old(View()), k, severity, w)
    {
      var limited := IsRateLimited(k, w.now);
      if limited { return false; }
      if !w.insertOk || w.id in rows { return false; }
      rows := rows[w.id := AlertRow(k, severity, true, w.now, None)];
      active := active[k := Active(w.id, severity, w.now)];
      fired := true;
    }

    method ResolveAlert(k: Key, w: Env)
      modifies this`active, this`rows
      ensures View() == End(old(View()), k, w)
    {
      if k !in active || !w.resolveOk { return; }
      var id := active[k].id;
      if id in rows && rows[id].firing {
        rows := rows[id := rows[id].(firing := false, resolvedAt := Some(w.now))];
      }
      active := active - {k};
    }

    /** One threshold against one reading. */
    method EvaluateThreshold(t: Threshold, node: string, value: real, w: Env)
      modifies this`limiter, this`active, this`rows
      ensures View() == Judge(old(View()), t, node, value, w)
      ensures w.resolveOk ==> StaysInStep(old(View()), View())
    {
      hide Recorded, Backed, Fire, End, Check;
      ghost var before := View();
      if w.resolveOk {
        JudgeStaysInStep(before, t, node, value, w);
      }
      var k := Key(node, t.name);
      var reached := Check(t, value);
      if reached.Some? {
        if k in active {
          if Rank(active[k].severity) >= Rank(reached.value) { return; }
          ResolveAlert(k, w);
        }
        var _ := FireAlert(k, reached.value, w);
      } else if k in active {
        if IsResolved(t, value) {
          ResolveAlert(k, w);
        }
      }
    }

    /** All thresholds against one report; `w(i)` is what the surroundings decide for the i-th. */
    method EvaluateBuiltinThresholds(node: string, snapshot: map<string, real>, w: nat -> Env)
      modifies this`limiter, this`active, this`rows, this`lastSnapshot
      ensures View() ==
              JudgeAll(old(View()).(snapshots := old(lastSnapshot)[node := snapshot]),
                       thresholds, |thresholds|, node, snapshot, w)
    {
      hide Judge, StaysInStep;
      lastSnapshot := lastSnapshot[node := snapshot];
      ghost var before := View();
      for n := 0 to |thresholds|
        invariant View() == JudgeAll(before, thresholds, n, node, snapshot, w)
      {
        if thresholds[n].metric in snapshot {
          EvaluateThreshold(thresholds[n], node, snapshot[thresholds[n].metric], w(n));
        }
      }
    }

    /** Fires or resolves an alert that follows a condition. */
    method Settle(k: Key, condition: bool, severity: Severity, w: Env)
      modifies this`limiter, this`active, this`rows
      ensures View() == Follow(old(View()), k, condition, severity, w)
      ensures StaysInStep(old(View()), View())
      ensures w.resolveOk && CanFire(old(View()), k, w) ==> (k in active <==> condition)
    {
      hide Recorded, Backed, Fire, End;
      ghost var before := View();
      FollowStaysInStep(before, k, condition, severity, w);
      FollowSettles(before, k, condition, severity, w);
      if condition {
        if k !in active {
          var _ := FireAlert(k, severity, w);
        }
      } else if k in active {
        ResolveAlert(k, w);
      }
    }

    method DetectReboot(node: string, snapshot: map<string, real>, w: Env)
      modifies this`limiter, this`active, this`rows
      ensures View() == Reboot(old(View()), node, snapshot, w)
    {
      hide Follow, StaysInStep, CanFire;
      if "uptime_seconds" in snapshot && node in lastSnapshot && "uptime_seconds" in lastSnapshot[node] {
        var rebooted := snapshot["uptime_seconds"] < lastSnapshot[node]["uptime_seconds"] - 5.0;
        Settle(Key(node, "node_reboot_detected"), rebooted, Warning, w);
      }
    }

    /** The hook for a status report: the reboot first, then the thresholds. */
    method EvaluateMetrics(node: string, snapshot: map<string, real>, reboot: Env, w: nat -> Env)
      modifies this`limiter, this`active, this`rows, this`lastSnapshot
      ensures View() == Receive(old(View()), thresholds, node, snapshot, reboot, w)
    {
      hide Reboot, JudgeAll;
      DetectReboot(node, snapshot, reboot);
      EvaluateBuiltinThresholds(node, snapshot, w);
    }

    method TrackIntentResult(node: string, success: bool, w: Env)
      modifies this`limiter, this`active, this`rows, this`intentResults
      ensures View() == Track(old(View()), node, success, w)
      ensures w.resolveOk && CanFire(old(View()), FailureKey(node), w) ==>
                (FailureKey(node) in active <==> FailingTooOften(intentResults[node]))
    {
      hide Follow, StaysInStep, LastHour, FailingTooOften;
      TrackFollowsFailures(View(), node, success, w);
      var marks := MarksOf(intentResults, node) + [(w.now, success)];
      marks := LastHour(marks, w.now);
      intentResults := intentResults[node := marks];
      Settle(Key(node, "intent_failed_rate"), FailingTooOften(marks), Warning, w);
    }

    method EvaluateNodeState(node: string, state: NodeState, w: nat -> Env)
      modifies this`limiter, this`active, this`rows, this`reconnects
      ensures View() == NodeChange(old(View()), node, state, w)
    {
      hide Follow, StaysInStep, CanFire, LastHour;
      match state
      case Lost => Settle(Key(node, "node_state_lost"), true, Critical, w(0));
      case Stale => Settle(Key(node, "node_state_stale"), true, Critical, w(0));
      case Connected =>
        Settle(Key(node, "node_state_lost"), false, Critical, w(0));
        Settle(Key(node, "node_state_stale"), false, Critical, w(1));
        var now := w(2).now;
        var marks := MarksOf(reconnects, node) + [(now, ())];
        marks := LastHour(marks, now);
        reconnects := reconnects[node := marks];
        Settle(Key(node, "node_connection_flap"), |marks| >= 5, Warning, w(2));
      case Other =>
    }

    /** DELETE FROM alerts WHERE … */
    method DeleteRows(doomed: AlertRow -> bool)
      modifies this`rows
      ensures rows == map id | id in old(rows) && !doomed(old(rows)[id]) :: old(rows)[id]
    {
      var todo := rows.Keys;
      while todo != {}
        invariant todo <= rows.Keys <= old(rows).Keys
        invariant forall id :: id in old(rows) ==> (id in rows <==> id in todo || !doomed(old(rows)[id]))
        invariant forall id :: id in rows ==> rows[id] == old(rows)[id]
        decreases todo
      {
        var id :| id in todo;
        if doomed(rows[id]) {
          rows := rows - {id};
        }
        todo := todo - {id};
      }
    }

    method CleanupOldAlerts(cutoff: real)
      modifies this`rows
      ensures View() == old(View()).(store := PurgeOld(old(View()).store, cutoff))
    {
      DeleteRows((r: AlertRow) => !r.firing && r.resolvedAt.Some? && r.resolvedAt.value < cutoff);
    }

    /** An operator's acknowledge, which the engine does not see. */
    method AcknowledgeAlert(id: string, now: real)
      modifies this`rows
      ensures View() == old(View()).(store := Acknowledge(old(View()).store, id, now))
    {
      if id in rows {
        var row := rows[id];
        if row.firing {
          rows := rows[id := row.(firing := false, resolvedAt := Some(now))];
        }
      }
    }

    /** The node's row is deleted, and its alerts with it. */
    method DeleteNode(node: string)
      modifies this`rows
      ensures View() == old(View()).(store := old(View()).store.(rows := DropNode(old(rows), node)))
    {
      DeleteRows((r: AlertRow) => r.key.node == node);
    }

    method CleanupOrphanedAlerts(nodes: set<string>, valid: set<string>)
      modifies this
      ensures View() == CleanOrphans(old(View()), nodes, valid)
    {
      DeleteRows((r: AlertRow) => r.key.node !in nodes);
      active := RetainKeys(active, valid);
      limiter := RetainKeys(limiter, valid);
      lastSnapshot := RetainNodes(lastSnapshot, valid);
      intentResults := RetainNodes(intentResults, valid);
      reconnects := RetainNodes(reconnects, valid);
    }

    /**
     The process dies and a new one starts on the same table.  If memory and
     table corresponded one to one, the memory is the one that was lost.
     */
    method Restart(order: seq<string>)
      modifies this
      ensures View() == Started(old(rows), order)
      ensures OneToOne(View().store) <==> (forall id :: IsFiring(rows, id) ==> id in order) && DistinctFiringKeys(rows)
      ensures OneToOne(old(View()).store) && (forall id :: IsFiring(rows, id) ==> id in order) ==> active == old(active)
    {
      hide Recorded, Backed, Load;
      ghost var lost := View().store;
      active, limiter, lastSnapshot, intentResults, reconnects := map[], map[], map[], map[], map[];
      Initialize(order);
      if OneToOne(lost) && forall id :: IsFiring(rows, id) ==> id in order {
        RecordedKeysDiffer(lost);
        RebuildRestoresMemory(lost, active);
      }
    }

    method Take(e: Event)
      modifies this
      ensures View() == Step(thresholds, old(View()), e)
    {
      hide Receive, Track, NodeChange, CleanOrphans, PurgeOld, Acknowledge, DropNode, Load, Recorded, Backed, Follow;
      match e
      case Report(node, snapshot, reboot, w) => EvaluateMetrics(node, snapshot, reboot, w);
      case IntentResult(node, success, w) => TrackIntentResult(node, success, w);
      case StateChange(node, state, w) => EvaluateNodeState(node, state, w);
      case Acknowledged(id, now) => AcknowledgeAlert(id, now);
      case Purged(cutoff) => CleanupOldAlerts(cutoff);
      case OrphansDropped(nodes, valid) => CleanupOrphanedAlerts(nodes, valid);
      case NodeDeleted(node) => DeleteNode(node);
      case Restarted(order) => Restart(order);
    }

    /**
     Any run of the engine from a table without firing rows.  If its writes
     succeed every firing row has its memory record, one to one unless rows are
     taken from outside; and each alert for which nothing goes wrong has the
     highest severity reached since its last reset.
     */
    method Play(events: seq<Event>)
      requires View() == Started(rows, []) && (forall id :: id in rows ==> !rows[id].firing)
      modifies this
      ensures View() == Run(thresholds, old(View()), events)
      ensures AllWritesSucceed(thresholds, old(View()), events) ==>
                Recorded(View().store) && (Undisturbed(events) ==> OneToOne(View().store))
      ensures DistinctNames(thresholds) && AlertHistory.OwnNames(thresholds) ==>
                forall node, i: nat :: i < |thresholds| ==>
                  AlertHistory.GoesWell(thresholds, old(View()), events, node, i) ==>
                  AlertHistory.MeansHighest(thresholds[i], events, node,
                                            SeverityOf(active, Key(node, thresholds[i].name)))
    {
      hide Step, AllWritesSucceed, AlertHistory.GoesWell, AlertHistory.OwnNames, AlertHistory.MeansHighest;
      ghost var before := View();
      assert OneToOne(before.store);
      for n := 0 to |events|
        invariant View() == Run(thresholds, before, events[..n])
      {
        assert events[..n + 1][..n] == events[..n];
        Take(events[n]);
      }
      assert events[..|events|] == events;
      if AllWritesSucceed(thresholds, before, events) {
        RunStaysInStep(thresholds, before, events);
      }
      if DistinctNames(thresholds) && AlertHistory.OwnNames(thresholds) {
        forall node, i: nat | i < |thresholds| && AlertHistory.GoesWell(thresholds, before, events, node, i)
          ensures AlertHistory.MeansHighest(thresholds[i], events, node,
                                            SeverityOf(active, Key(node, thresholds[i].name)))
        {
          AlertHistory.HighestSinceReset(thresholds, before, events, node, i);
        }
      }
    }
  }
}
