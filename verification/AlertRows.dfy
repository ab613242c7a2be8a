/**
 What becomes of the rows of the `alerts` table (master/core/alert_engine.py,
 master/api/admin.py) in every step and every run of the engine.
 */
module AlertRows {
  import opened Common
  import opened Thresholds
  import opened AlertStore
  import opened AlertMachine
  import RateLimit

  /** The row fired and has been resolved; nothing else of it changed. */
  predicate ResolvedFrom(before: AlertRow, after: AlertRow) {
    before.firing && after.resolvedAt.Some? && after == before.(firing := false, resolvedAt := after.resolvedAt)
  }

  predicate KeptRow(before: AlertRow, after: AlertRow) {
    after == before || ResolvedFrom(before, after)
  }

  /** Every row is still there, and as it was or resolved. */
  ghost predicate RowsEvolve(a: Store, b: Store) {
    forall id :: id in a.rows ==> id in b.rows && KeptRow(a.rows[id], b.rows[id])
  }

  lemma EvolveTwice(a: Store, b: Store, c: Store)
    requires RowsEvolve(a, b) && RowsEvolve(b, c)
    ensures RowsEvolve(a, c)
  {
  }

  lemma FireEvolves(s: State, k: Key, severity: Severity, w: Env)
    ensures RowsEvolve(s.store, Fire(s, k, severity, w).store)
  {
    hide RateLimit.Kept, RateLimit.Refused;
  }

  lemma EndEvolves(s: State, k: Key, w: Env)
    ensures RowsEvolve(s.store, End(s, k, w).store)
  {
  }

  lemma FollowEvolves(s: State, k: Key, condition: bool, severity: Severity, w: Env)
    ensures RowsEvolve(s.store, Follow(s, k, condition, severity, w).store)
  {
    hide Fire, End;
    FireEvolves(s, k, severity, w);
    EndEvolves(s, k, w);
  }

  lemma JudgeEvolves(s: State, t: Threshold, node: string, value: real, w: Env)
    ensures RowsEvolve(s.store, Judge(s, t, node, value, w).store)
  {
    hide Fire, End, Check, IsResolved, RowsEvolve;
    var k := Key(node, t.name);
    Stays(s.store);
    EndEvolves(s, k, w);
    if Check(t, value).Some? {
      FireEvolves(s, k, Check(t, value).value, w);
      FireEvolves(End(s, k, w), k, Check(t, value).value, w);
      EvolveTwice(s.store, End(s, k, w).store, Fire(End(s, k, w), k, Check(t, value).value, w).store);
    }
  }

  lemma Stays(s: Store)
    ensures RowsEvolve(s, s)
  {
  }

  lemma {:induction false} JudgeAllEvolves(s: State, ts: seq<Threshold>, n: nat, node: string,
                                           snapshot: map<string, real>, w: nat -> Env)
    requires n <= |ts|
    ensures RowsEvolve(s.store, JudgeAll(s, ts, n, node, snapshot, w).store)
  {
    hide Judge, RowsEvolve;
    Stays(s.store);
    if n > 0 {
      JudgeAllEvolves(s, ts, n - 1, node, snapshot, w);
      if ts[n - 1].metric in snapshot {
        var before := JudgeAll(s, ts, n - 1, node, snapshot, w);
        JudgeEvolves(before, ts[n - 1], node, snapshot[ts[n - 1].metric], w(n - 1));
        EvolveTwice(s.store, before.store, JudgeAll(s, ts, n, node, snapshot, w).store);
      }
    }
  }

  lemma ReceiveEvolves(s: State, ts: seq<Threshold>, node: string, snapshot: map<string, real>, reboot: Env,
                       w: nat -> Env)
    ensures RowsEvolve(s.store, Receive(s, ts, node, snapshot, reboot, w).store)
  {
    hide Follow, JudgeAll, RowsEvolve;
    var seen := Reboot(s, node, snapshot, reboot);
    Stays(s.store);
    if Uptimes(s, node, snapshot).Some? {
      var u := Uptimes(s, node, snapshot).value;
      FollowEvolves(s, RebootKey(node), u.1 < u.0 - 5.0, Warning, reboot);
    }
    JudgeAllEvolves(seen.(snapshots := seen.snapshots[node := snapshot]), ts, |ts|, node, snapshot, w);
    EvolveTwice(s.store, seen.store, Receive(s, ts, node, snapshot, reboot, w).store);
  }

  lemma NodeChangeEvolves(s: State, node: string, state: NodeState, w: nat -> Env)
    ensures RowsEvolve(s.store, NodeChange(s, node, state, w).store)
  {
    hide Follow, RowsEvolve, LastHour;
    Stays(s.store);
    FollowEvolves(s, LostKey(node), true, Critical, w(0));
    FollowEvolves(s, StaleKey(node), true, Critical, w(0));
    FollowEvolves(s, LostKey(node), false, Critical, w(0));
    var without := Follow(s, LostKey(node), false, Critical, w(0));
    FollowEvolves(without, StaleKey(node), false, Critical, w(1));
    var found := Follow(without, StaleKey(node), false, Critical, w(1));
    var marks := Reconnections(s, node, w(2).now);
    FollowEvolves(found.(reconnects := s.reconnects[node := marks]), FlapKey(node), |marks| >= 5, Warning, w(2));
    EvolveTwice(s.store, without.store, found.store);
    if state.Connected? {
      EvolveTwice(s.store, found.store, NodeChange(s, node, state, w).store);
    }
  }

  /** What the purge of old alerts, the orphan cleanup and the deletion of a node take away. */
  predicate Removes(e: Event, row: AlertRow) {
    match e
    case Purged(cutoff) => !row.firing && row.resolvedAt.Some? && row.resolvedAt.value < cutoff
    case OrphansDropped(nodes, _) => row.key.node !in nodes
    case NodeDeleted(node) => row.key.node == node
    case _ => false
  }

  /** The events that judge readings, results and states. */
  predicate Judges(e: Event) {
    e.Report? || e.IntentResult? || e.StateChange?
  }

  lemma JudgingEvolves(ts: seq<Threshold>, s: State, e: Event)
    requires Judges(e)
    ensures RowsEvolve(s.store, Step(ts, s, e).store)
  {
    hide Receive, Follow, NodeChange, LastHour, FailingTooOften, RowsEvolve;
    match e
    case Report(node, snapshot, reboot, w) => ReceiveEvolves(s, ts, node, snapshot, reboot, w);
    case IntentResult(node, success, w) =>
      var marks := Results(s, node, success, w.now);
      FollowEvolves(s.(intents := s.intents[node := marks]), FailureKey(node), FailingTooOften(marks), Warning, w);
    case StateChange(node, state, w) => NodeChangeEvolves(s, node, state, w);
  }

  /**
   Any event: a row goes exactly if the event removes it; one that stays is as it
   was, or fired and is now resolved.  An acknowledgement resolves the row it
   names, if that fires, and no other; nothing else from outside touches a row.
   */
  lemma RowGoesExactly(ts: seq<Threshold>, s: State, e: Event, id: string)
    requires id in s.store.rows
    ensures var before, after := s.store.rows, Step(ts, s, e).store.rows;
            && (id in after <==> !Removes(e, before[id]))
            && (id in after ==> KeptRow(before[id], after[id]))
            && (id in after && !Judges(e) ==>
                  after[id] == if e.Acknowledged? && e.id == id && before[id].firing
                               then before[id].(firing := false, resolvedAt := Some(e.now)) else before[id])
  {
    hide Receive, Follow, NodeChange, Load;
    if Judges(e) {
      JudgingEvolves(ts, s, e);
    }
  }

  /** No event of the run removes the row. */
  ghost predicate NeverRemoved(ts: seq<Threshold>, s: State, events: seq<Event>, id: string) {
    forall n :: 0 <= n < |events| && id in Run(ts, s, events[..n]).store.rows ==>
      !Removes(events[n], Run(ts, s, events[..n]).store.rows[id])
  }

  lemma NeverRemovedBefore(ts: seq<Threshold>, s: State, events: seq<Event>, id: string)
    requires events != [] && NeverRemoved(ts, s, events, id)
    ensures var n := |events| - 1;
            && NeverRemoved(ts, s, events[..n], id)
            && (id in Run(ts, s, events[..n]).store.rows ==>
                  !Removes(events[n], Run(ts, s, events[..n]).store.rows[id]))
  {
    hide Run, Removes;
    var n := |events| - 1;
    assert forall k :: 0 <= k <= n ==> events[..n][..k] == events[..k];
  }

  /** In every run a row that nothing removes keeps its alert, severity and time, and once resolved never changes. */
  lemma {:induction false} RowsAreHistory(ts: seq<Threshold>, s: State, events: seq<Event>, id: string)
    requires id in s.store.rows && NeverRemoved(ts, s, events, id)
    ensures id in Run(ts, s, events).store.rows
    ensures KeptRow(s.store.rows[id], Run(ts, s, events).store.rows[id])
  {
    hide Step, Removes, NeverRemoved;
    if events != [] {
      var n := |events| - 1;
      NeverRemovedBefore(ts, s, events, id);
      RowsAreHistory(ts, s, events[..n], id);
      RowGoesExactly(ts, Run(ts, s, events[..n]), events[n], id);
    }
  }
}
