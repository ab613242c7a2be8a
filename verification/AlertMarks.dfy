/**
 The sliding hours of the alert engine (master/core/alert_engine.py): intent
 results and reconnections are kept in pruned lists, and these stand for all of
 the run's marks of the last hour unless the clock brings an old one back.
 */
module AlertMarks {
  import opened Common
  import opened Thresholds
  import opened AlertStore
  import opened AlertMachine

  // --- a pruned list against the full history ---

  /** The list kept after marks that were each added and the list then pruned. */
  function Kept<T>(marks: seq<(real, T)>): seq<(real, T)> {
    if marks == [] then []
    else
      var n := |marks| - 1;
      LastHour(Kept(marks[..n]) + [marks[n]], marks[n].0)
  }

  /** Marks an hour old at one moment are so at another. */
  predicate StayOld<T>(marks: seq<(real, T)>, earlier: real, now: real) {
    forall i :: 0 <= i < |marks| && marks[i].0 > now - HOUR ==> marks[i].0 > earlier - HOUR
  }

  lemma LastHourSnoc<T>(marks: seq<(real, T)>, mark: (real, T), now: real)
    ensures LastHour(marks + [mark], now) ==
            if mark.0 > now - HOUR then LastHour(marks, now) + [mark] else LastHour(marks, now)
  {
    assert (marks + [mark])[..|marks|] == marks;
    assert LastHour(marks, now) + [] == LastHour(marks, now);
  }

  /** Pruning earlier changes nothing about a later pruning exactly when nothing old comes back into the hour. */
  lemma {:induction false} LastHourTwiceExactly<T>(marks: seq<(real, T)>, earlier: real, now: real)
    ensures |LastHour(LastHour(marks, earlier), now)| <= |LastHour(marks, now)|
    ensures LastHour(LastHour(marks, earlier), now) == LastHour(marks, now) <==> StayOld(marks, earlier, now)
  {
    if marks != [] {
      var n := |marks| - 1;
      var rest, last := marks[..n], marks[n];
      assert marks == rest + [last];
      LastHourTwiceExactly(rest, earlier, now);
      LastHourSnoc(rest, last, earlier);
      LastHourSnoc(rest, last, now);
      LastHourSnoc(LastHour(rest, earlier), last, now);
      SnocEqual(LastHour(LastHour(rest, earlier), now), LastHour(rest, now), last);
      StayOldSnoc(rest, last, earlier, now);
    }
  }

  lemma StayOldSnoc<T>(marks: seq<(real, T)>, mark: (real, T), earlier: real, now: real)
    ensures StayOld(marks + [mark], earlier, now) <==>
            StayOld(marks, earlier, now) && (mark.0 > now - HOUR ==> mark.0 > earlier - HOUR)
  {
    var all := marks + [mark];
    assert all[|marks|] == mark && forall i :: 0 <= i < |marks| ==> all[i] == marks[i];
  }

  /** The marks of the hour before `now` that also satisfy `p`. */
  function Since<T>(now: real, p: ((real, T)) -> bool): ((real, T)) -> bool {
    (mark: (real, T)) => mark.0 > now - HOUR && p(mark)
  }

  predicate AnyMark<T>(mark: (real, T)) {
    true
  }

  lemma {:induction false} LastHourCounts<T>(marks: seq<(real, T)>, now: real, p: ((real, T)) -> bool)
    ensures Count(LastHour(marks, now), p) == Count(marks, Since(now, p))
  {
    if marks != [] {
      var n := |marks| - 1;
      assert marks == marks[..n] + [marks[n]];
      LastHourCounts(marks[..n], now, p);
      LastHourSnoc(marks[..n], marks[n], now);
      CountAppend(LastHour(marks[..n], now), marks[n], p);
    }
  }

  lemma {:induction false} AllAreMarks<T>(marks: seq<(real, T)>)
    ensures Count(marks, AnyMark) == |marks|
  {
    if marks != [] {
      AllAreMarks(marks[..|marks| - 1]);
    }
  }

  lemma LastHourLength<T>(marks: seq<(real, T)>, now: real)
    ensures |LastHour(marks, now)| == Count(marks, Since(now, AnyMark))
  {
    LastHourCounts(marks, now, AnyMark);
    AllAreMarks(LastHour(marks, now));
  }

  /** What had left the hour at the mark before the `k`-th is still out of it at the `k`-th. */
  predicate BringsNothingBack<T>(marks: seq<(real, T)>, k: int)
    requires 0 < k < |marks|
  {
    StayOld(marks[..k], marks[k - 1].0, marks[k].0)
  }

  predicate NoneComesBack<T>(marks: seq<(real, T)>) {
    forall k :: 0 < k < |marks| ==> BringsNothingBack(marks, k)
  }

  /** The list kept is all marks of the last hour. */
  ghost predicate KeptIsTheHour<T>(marks: seq<(real, T)>)
    requires marks != []
  {
    Kept(marks) == LastHour(marks, marks[|marks| - 1].0)
  }

  lemma NonDecreasingBringsNothingBack<T>(marks: seq<(real, T)>)
    requires forall i, j :: 0 <= i < j < |marks| ==> marks[i].0 <= marks[j].0
    ensures NoneComesBack(marks)
  {
  }

  lemma ComesBackOfPrefix<T>(marks: seq<(real, T)>)
    requires |marks| > 1
    ensures var n := |marks| - 1;
            NoneComesBack(marks) <==> NoneComesBack(marks[..n]) && StayOld(marks[..n], marks[n - 1].0, marks[n].0)
  {
    hide StayOld;
    var n := |marks| - 1;
    var before := marks[..n];
    forall k | 0 < k < n
      ensures BringsNothingBack(before, k) == BringsNothingBack(marks, k)
    {
      assert before[..k] == marks[..k];
    }
    assert BringsNothingBack(marks, n) == StayOld(before, marks[n - 1].0, marks[n].0);
  }

  lemma KeptNext<T>(marks: seq<(real, T)>)
    requires |marks| > 1 && KeptIsTheHour(marks[..|marks| - 1])
    ensures var n := |marks| - 1;
            KeptIsTheHour(marks) <==> StayOld(marks[..n], marks[n - 1].0, marks[n].0)
  {
    hide LastHour, StayOld;
    var n := |marks| - 1;
    var before, now := marks[..n], marks[n].0;
    assert marks == before + [marks[n]];
    LastHourTwiceExactly(before, marks[n - 1].0, now);
    LastHourSnoc(Kept(before), marks[n], now);
    LastHourSnoc(before, marks[n], now);
    SnocEqual(LastHour(Kept(before), now), LastHour(before, now), marks[n]);
  }

  lemma FirstKept<T>(marks: seq<(real, T)>)
    requires |marks| == 1
    ensures KeptIsTheHour(marks) && NoneComesBack(marks)
  {
    assert marks[..0] == [] && [] + [marks[0]] == marks;
  }

  ghost predicate AlwaysTheHour<T>(marks: seq<(real, T)>) {
    forall k :: 0 < k <= |marks| ==> KeptIsTheHour(marks[..k])
  }

  lemma AlwaysOfPrefix<T>(marks: seq<(real, T)>)
    requires marks != []
    ensures AlwaysTheHour(marks) <==> AlwaysTheHour(marks[..|marks| - 1]) && KeptIsTheHour(marks)
  {
    hide KeptIsTheHour;
    var n := |marks| - 1;
    var before := marks[..n];
    assert marks[..n + 1] == marks;
    assert forall k :: 0 < k <= n ==> before[..k] == marks[..k];
    if AlwaysTheHour(marks) {
      forall k | 0 < k <= n ensures KeptIsTheHour(before[..k]) {
        assert KeptIsTheHour(marks[..k]);
      }
    }
    if AlwaysTheHour(before) && KeptIsTheHour(marks) {
      forall k | 0 < k <= n + 1 ensures KeptIsTheHour(marks[..k]) {
        assert k <= n ==> KeptIsTheHour(before[..k]);
      }
    }
  }

  /** After every mark the pruned list is all marks of the last hour, if and only if none comes back into it. */
  lemma {:induction false} KeptIsTheHourExactly<T>(marks: seq<(real, T)>)
    ensures NoneComesBack(marks) <==> AlwaysTheHour(marks)
  {
    hide KeptIsTheHour, AlwaysTheHour, NoneComesBack, StayOld;
    if marks == [] {
      NonDecreasingBringsNothingBack(marks);
      NothingToKeep(marks);
    } else if |marks| == 1 {
      FirstKept(marks);
      AlwaysOfPrefix(marks);
      NothingToKeep(marks[..0]);
    } else {
      KeptIsTheHourExactly(marks[..|marks| - 1]);
      AlwaysOfPrefix(marks);
      ComesBackOfPrefix(marks);
      if AlwaysTheHour(marks[..|marks| - 1]) {
        LastOfAlways(marks[..|marks| - 1]);
        KeptNext(marks);
      }
    }
  }

  lemma NothingToKeep<T>(marks: seq<(real, T)>)
    requires marks == []
    ensures AlwaysTheHour(marks)
  {
  }

  lemma LastOfAlways<T>(marks: seq<(real, T)>)
    requires marks != [] && AlwaysTheHour(marks)
    ensures KeptIsTheHour(marks)
  {
    assert marks[..|marks|] == marks;
  }

  // --- the marks of a run ---

  /** The event empties the node's lists. */
  predicate Forgets(e: Event, node: string) {
    e.Restarted? || (e.OrphansDropped? && node !in e.valid)
  }

  /** The intent results of a node since its lists were last emptied. */
  function Outcomes(events: seq<Event>, node: string): seq<(real, bool)> {
    if events == [] then []
    else
      var n := |events| - 1;
      var before := Outcomes(events[..n], node);
      if Forgets(events[n], node) then []
      else if events[n].IntentResult? && events[n].reporter == node then
        before + [(events[n].env.now, events[n].success)]
      else before
  }

  /** Its reconnections since then. */
  function Rejoins(events: seq<Event>, node: string): seq<(real, ())> {
    if events == [] then []
    else
      var n := |events| - 1;
      var before := Rejoins(events[..n], node);
      if Forgets(events[n], node) then []
      else if events[n].StateChange? && events[n].changed == node && events[n].state.Connected? then
        before + [(events[n].envs(2).now, ())]
      else before
  }

  /** What an event does to the two lists of a node. */
  lemma StepMarks(ts: seq<Threshold>, s: State, e: Event, node: string)
    ensures MarksOf(Step(ts, s, e).intents, node) ==
            if Forgets(e, node) then []
            else if e.IntentResult? && e.reporter == node then Results(s, node, e.success, e.env.now)
            else MarksOf(s.intents, node)
    ensures MarksOf(Step(ts, s, e).reconnects, node) ==
            if Forgets(e, node) then []
            else if e.StateChange? && e.changed == node && e.state.Connected? then Reconnections(s, node, e.envs(2).now)
            else MarksOf(s.reconnects, node)
  {
    hide Follow, Reboot, JudgeAll, LastHour, Load, DropOrphans, FailingTooOften, SeverityOf, Lookup, CanFire;
    match e
    case Report(m, snapshot, reboot, w) => ReportKeepsMarks(ts, s, m, snapshot, reboot, w);
    case IntentResult(m, success, w) =>
      var marks := Results(s, m, success, w.now);
      FollowSettles(s.(intents := s.intents[m := marks]), FailureKey(m), FailingTooOften(marks), Warning, w);
    case StateChange(m, state, w) => NodeChangeMarks(s, m, state, w);
    case _ =>
  }

  lemma NodeChangeMarks(s: State, node: string, state: NodeState, w: nat -> Env)
    ensures var after := NodeChange(s, node, state, w);
            && after.intents == s.intents && after.snapshots == s.snapshots
            && after.reconnects ==
               if state.Connected? then s.reconnects[node := Reconnections(s, node, w(2).now)] else s.reconnects
  {
    hide Follow, LastHour;
    FollowSettles(s, LostKey(node), true, Critical, w(0));
    FollowSettles(s, StaleKey(node), true, Critical, w(0));
    FollowSettles(s, LostKey(node), false, Critical, w(0));
    var found := Follow(s, LostKey(node), false, Critical, w(0));
    FollowSettles(found, StaleKey(node), false, Critical, w(1));
    var both := Follow(found, StaleKey(node), false, Critical, w(1));
    var marks := Reconnections(s, node, w(2).now);
    FollowSettles(both.(reconnects := s.reconnects[node := marks]), FlapKey(node), |marks| >= 5, Warning, w(2));
  }

  lemma {:induction false} JudgeAllKeepsMarks(s: State, ts: seq<Threshold>, n: nat, node: string,
                                              snapshot: map<string, real>, w: nat -> Env)
    requires n <= |ts|
    ensures var after := JudgeAll(s, ts, n, node, snapshot, w);
            after.intents == s.intents && after.reconnects == s.reconnects && after.snapshots == s.snapshots
  {
    hide Judge;
    if n > 0 {
      JudgeAllKeepsMarks(s, ts, n - 1, node, snapshot, w);
      if ts[n - 1].metric in snapshot {
        var before := JudgeAll(s, ts, n - 1, node, snapshot, w);
        JudgeObserves(before, ts[n - 1], node, snapshot[ts[n - 1].metric], w(n - 1));
      }
    }
  }

  lemma ReportKeepsMarks(ts: seq<Threshold>, s: State, node: string, snapshot: map<string, real>, reboot: Env,
                         w: nat -> Env)
    ensures var after := Receive(s, ts, node, snapshot, reboot, w);
            after.intents == s.intents && after.reconnects == s.reconnects
  {
    hide Reboot, JudgeAll, CanFire, SeverityOf, Lookup;
    RebootFollowsUptime(s, node, snapshot, reboot);
    var seen := Reboot(s, node, snapshot, reboot);
    JudgeAllKeepsMarks(seen.(snapshots := seen.snapshots[node := snapshot]), ts, |ts|, node, snapshot, w);
  }

  /** A node's lists after any run are its pruned marks since they were last emptied. */
  lemma {:induction false} RunMarks(ts: seq<Threshold>, s: State, events: seq<Event>, node: string)
    requires node !in s.intents && node !in s.reconnects
    ensures MarksOf(Run(ts, s, events).intents, node) == Kept(Outcomes(events, node))
    ensures MarksOf(Run(ts, s, events).reconnects, node) == Kept(Rejoins(events, node))
  {
    hide Step, LastHour;
    if events != [] {
      var n := |events| - 1;
      var e := events[n];
      RunMarks(ts, s, events[..n], node);
      StepMarks(ts, Run(ts, s, events[..n]), e, node);
      if e.IntentResult? {
        KeptSnoc(Outcomes(events[..n], node), (e.env.now, e.success));
      } else if e.StateChange? {
        KeptSnoc(Rejoins(events[..n], node), (e.envs(2).now, ()));
      }
    }
  }

  lemma KeptSnoc<T>(marks: seq<(real, T)>, mark: (real, T))
    ensures Kept(marks + [mark]) == LastHour(Kept(marks) + [mark], mark.0)
  {
    hide LastHour;
    assert (marks + [mark])[..|marks|] == marks;
  }

  /**
   After an intent result in any run whose clock brings no old result back, the
   failure alert is active exactly when more than a fifth of at least five of the
   node's results of the last hour are failures, if its write succeeds.
   */
  lemma FailureAlertMeansTheHour(ts: seq<Threshold>, s: State, events: seq<Event>, node: string, success: bool, w: Env)
    requires node !in s.intents && node !in s.reconnects
    requires var all := events + [IntentResult(node, success, w)];
             NoneComesBack(Outcomes(all, node)) && w.resolveOk && CanFire(Run(ts, s, events), FailureKey(node), w)
    ensures var all := events + [IntentResult(node, success, w)];
            var results := Count(Outcomes(all, node), Since(w.now, AnyMark));
            var failures := Count(Outcomes(all, node), Since(w.now, IsFailure));
            FailureKey(node) in Run(ts, s, all).store.active <==> 5 * failures > results && results >= 5
  {
    hide Track, LastHour, NoneComesBack, AlwaysTheHour, CanFire, Count;
    LastHourCounts(Outcomes(events + [IntentResult(node, success, w)], node), w.now, IsFailure);
    LastHourLength(Outcomes(events + [IntentResult(node, success, w)], node), w.now);
    var all := events + [IntentResult(node, success, w)];
    assert all[..|events|] == events;
    var before := Run(ts, s, events);
    RunMarks(ts, s, events, node);
    TrackFollowsFailures(before, node, success, w);
    KeptSnoc(Outcomes(events, node), (w.now, success));
    KeptIsTheHourExactly(Outcomes(all, node));
    LastOfAlways(Outcomes(all, node));
  }

  /** And the flap alert exactly when the node reconnected at least five times within the last hour. */
  lemma FlapAlertMeansTheHour(ts: seq<Threshold>, s: State, events: seq<Event>, node: string, w: nat -> Env)
    requires node !in s.intents && node !in s.reconnects
    requires var all := events + [StateChange(node, Connected, w)];
             NoneComesBack(Rejoins(all, node)) && w(2).resolveOk && CanFire(Run(ts, s, events), FlapKey(node), w(2))
    ensures var all := events + [StateChange(node, Connected, w)];
            FlapKey(node) in Run(ts, s, all).store.active <==>
            Count(Rejoins(all, node), Since(w(2).now, AnyMark)) >= 5
  {
    hide NodeChange, LastHour, NoneComesBack, AlwaysTheHour, CanFire, Count;
    LastHourLength(Rejoins(events + [StateChange(node, Connected, w)], node), w(2).now);
    var all := events + [StateChange(node, Connected, w)];
    assert all[..|events|] == events;
    var before := Run(ts, s, events);
    RunMarks(ts, s, events, node);
    NodeAlertsFollowState(before, node, Connected, w);
    KeptSnoc(Rejoins(events, node), (w(2).now, ()));
    KeptIsTheHourExactly(Rejoins(all, node));
    LastOfAlways(Rejoins(all, node));
  }
}
