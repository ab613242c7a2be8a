/**
 The reboot alert over runs (master/core/alert_engine.py): what the engine keeps
 of a node's reports, and what the alert says about the last two of them.
 */
module AlertReboots {
  import opened Common
  import opened Thresholds
  import opened AlertStore
  import opened AlertMachine
  import opened AlertHistory
  import opened AlertMarks

  /** The last report of a node since the engine last forgot it. */
  function LastReport(events: seq<Event>, node: string): Option<map<string, real>> {
    if events == [] then None
    else
      var n := |events| - 1;
      if Forgets(events[n], node) then None
      else if events[n].Report? && events[n].node == node then Some(events[n].snapshot)
      else LastReport(events[..n], node)
  }

  function ReportOf(s: State, node: string): Option<map<string, real>> {
    if node in s.snapshots then Some(s.snapshots[node]) else None
  }

  lemma StepReports(ts: seq<Threshold>, s: State, e: Event, node: string)
    ensures ReportOf(Step(ts, s, e), node) ==
            if Forgets(e, node) then None
            else if e.Report? && e.node == node then Some(e.snapshot)
            else ReportOf(s, node)
  {
    hide Follow, Reboot, JudgeAll, LastHour, Load, DropOrphans, FailingTooOften, NodeChange;
    hide SeverityOf, Lookup, CanFire;
    match e
    case Report(m, snapshot, reboot, w) =>
      RebootFollowsUptime(s, m, snapshot, reboot);
      var seen := Reboot(s, m, snapshot, reboot);
      JudgeAllKeepsMarks(seen.(snapshots := seen.snapshots[m := snapshot]), ts, |ts|, m, snapshot, w);
    case IntentResult(m, success, w) =>
      var marks := Results(s, m, success, w.now);
      FollowSettles(s.(intents := s.intents[m := marks]), FailureKey(m), FailingTooOften(marks), Warning, w);
    case StateChange(m, state, w) => NodeChangeMarks(s, m, state, w);
    case _ =>
  }

  /** The report that the engine holds of a node after any run is its last one. */
  lemma {:induction false} RunReports(ts: seq<Threshold>, s: State, events: seq<Event>, node: string)
    requires node !in s.snapshots
    ensures ReportOf(Run(ts, s, events), node) == LastReport(events, node)
  {
    hide Step;
    if events != [] {
      var n := |events| - 1;
      RunReports(ts, s, events[..n], node);
      StepReports(ts, Run(ts, s, events[..n]), events[n], node);
    }
  }

  lemma OwnRebootName(ts: seq<Threshold>, node: string)
    requires OwnNames(ts)
    ensures forall j :: 0 <= j < |ts| ==> ts[j].name != RebootKey(node).alert
  {
  }

  /**
   After a report in any run: if it and the node's last one before it hold an
   uptime, the reboot alert is active exactly when the new one is more than five
   seconds lower, provided that its write succeeds; otherwise nothing changes.
   */
  lemma RebootAlertMeansUptimeFell(ts: seq<Threshold>, s: State, events: seq<Event>, node: string,
                                   snapshot: map<string, real>, reboot: Env, w: nat -> Env)
    requires node !in s.snapshots && OwnNames(ts)
    ensures var before, k := Run(ts, s, events), RebootKey(node);
            var active := Run(ts, s, events + [Report(node, snapshot, reboot, w)]).store.active;
            var last := LastReport(events, node);
            if last.Some? && "uptime_seconds" in last.value && "uptime_seconds" in snapshot then
              reboot.resolveOk && CanFire(before, k, reboot) ==>
                (k in active <==> snapshot["uptime_seconds"] < last.value["uptime_seconds"] - 5.0)
            else SeverityOf(active, k) == SeverityOf(before.store.active, k)
  {
    hide Reboot, JudgeAll, CanFire, OwnNames;
    var all := events + [Report(node, snapshot, reboot, w)];
    assert all[..|events|] == events;
    var before := Run(ts, s, events);
    RunReports(ts, s, events, node);
    RebootFollowsUptime(before, node, snapshot, reboot);
    OwnRebootName(ts, node);
    var seen := Reboot(before, node, snapshot, reboot);
    JudgeAllFrame(seen.(snapshots := seen.snapshots[node := snapshot]), ts, |ts|, node, snapshot, w, RebootKey(node));
    assert Run(ts, s, all) == Receive(before, ts, node, snapshot, reboot, w);
  }
}
