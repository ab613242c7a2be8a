/**
 Alert thresholds with hysteresis (master/core/alert_engine.py): the machine
 that updates one alert reading by reading, and what its state means in terms
 of the readings seen.
 */
module Thresholds {
  import opened Common

  datatype Operator = Gt | Lt | Gte | Lte | Unknown

  datatype Severity = Info | Warning | Critical

  datatype Threshold = Threshold(name: string, metric: string, warningAt: Option<real>, criticalAt: Option<real>,
                                 resolveAt: Option<real>, op: Operator)

  function Rank(s: Severity): nat {
    match s case Info => 0 case Warning => 1 case Critical => 2
  }

  predicate Cmp(op: Operator, value: real, threshold: real) {
    match op
    case Gt => value > threshold
    case Lt => value < threshold
    case Gte => value >= threshold
    case Lte => value <= threshold
    case Unknown => false
  }

  /** The severity a reading reaches. */
  function Check(t: Threshold, value: real): Option<Severity> {
    if t.criticalAt.Some? && Cmp(t.op, value, t.criticalAt.value) then Some(Critical)
    else if t.warningAt.Some? && Cmp(t.op, value, t.warningAt.value) then Some(Warning)
    else None
  }

  predicate IsResolved(t: Threshold, value: real) {
    && t.resolveAt.Some?
    && match t.op
       case Gt => value <= t.resolveAt.value
       case Lt => value >= t.resolveAt.value
       case _ => false
  }

  // --- the machine ---

  /** The alert's severity after one reading, when writes succeed and nothing is rate limited. */
  function Observe(t: Threshold, current: Option<Severity>, value: real): Option<Severity> {
    match Check(t, value)
    case Some(reached) =>
      if current.Some? && Rank(current.value) >= Rank(reached) then current else Some(reached)
    case None =>
      if current.Some? && IsResolved(t, value) then None else current
  }

  /** The alert's severity after a history of reports; a report without the metric is skipped. */
  function Replay(t: Threshold, reports: seq<Option<real>>): Option<Severity> {
    if reports == [] then None
    else
      var n := |reports| - 1;
      var before := Replay(t, reports[..n]);
      if reports[n].None? then before else Observe(t, before, reports[n].value)
  }

  // --- what the state means ---

  /** A reading that ends the alert. */
  predicate Resets(t: Threshold, value: real) {
    Check(t, value).None? && IsResolved(t, value)
  }

  /** The readings after the last one that ends the alert. */
  function SinceReset(t: Threshold, reports: seq<Option<real>>): seq<real> {
    if reports == [] then []
    else
      var n := |reports| - 1;
      if reports[n].None? then SinceReset(t, reports[..n])
      else if Resets(t, reports[n].value) then []
      else SinceReset(t, reports[..n]) + [reports[n].value]
  }

  /** The highest severity some readings reach, if any reaches one. */
  ghost predicate IsHighest(t: Threshold, readings: seq<real>, s: Option<Severity>) {
    match s
    case None => forall i :: 0 <= i < |readings| ==> Check(t, readings[i]).None?
    case Some(top) =>
      && (exists i :: 0 <= i < |readings| && Check(t, readings[i]) == Some(top))
      && (forall i :: 0 <= i < |readings| && Check(t, readings[i]).Some? ==>
            Rank(Check(t, readings[i]).value) <= Rank(top))
  }

  lemma HighestIsUnique(t: Threshold, readings: seq<real>, a: Option<Severity>, b: Option<Severity>)
    requires IsHighest(t, readings, a) && IsHighest(t, readings, b)
    ensures a == b
  {
    if a.Some? {
      var i :| 0 <= i < |readings| && Check(t, readings[i]) == a;
    }
    if b.Some? {
      var j :| 0 <= j < |readings| && Check(t, readings[j]) == b;
    }
  }

  /** The active severity is the highest one reached since the last reading that ended the alert. */
  lemma {:induction false} ReplayIsHighestSinceReset(t: Threshold, reports: seq<Option<real>>)
    ensures IsHighest(t, SinceReset(t, reports), Replay(t, reports))
  {
    if reports != [] {
      var n := |reports| - 1;
      ReplayIsHighestSinceReset(t, reports[..n]);
      if reports[n].Some? {
        ObserveKeepsHighest(t, SinceReset(t, reports[..n]), Replay(t, reports[..n]), reports[n].value);
      }
    }
  }

  lemma ObserveKeepsHighest(t: Threshold, readings: seq<real>, current: Option<Severity>, value: real)
    requires IsHighest(t, readings, current)
    ensures Resets(t, value) ==> Observe(t, current, value) == None
    ensures !Resets(t, value) ==> IsHighest(t, readings + [value], Observe(t, current, value))
  {
    var more := readings + [value];
    assert more[|readings|] == value;
    if current.Some? {
      var i :| 0 <= i < |readings| && Check(t, readings[i]) == current;
      assert more[i] == readings[i];
    }
  }

  /** While an alert is active its severity never drops; only a resetting reading ends it. */
  lemma SeverityNeverDrops(t: Threshold, reports: seq<Option<real>>, next: Option<real>)
    requires Replay(t, reports).Some?
    ensures var after := Replay(t, reports + [next]);
            if after.Some? then Rank(after.value) >= Rank(Replay(t, reports).value)
            else next.Some? && Resets(t, next.value)
  {
    assert (reports + [next])[..|reports|] == reports;
  }

  // --- the built-in thresholds ---

  /** The recovery level lies on the safe side of every firing level. */
  predicate WellOrdered(t: Threshold) {
    && t.resolveAt.Some?
    && match t.op
       case Gt => (t.warningAt.Some? ==> t.resolveAt.value <= t.warningAt.value) &&
                  (t.criticalAt.Some? ==> t.resolveAt.value <= t.criticalAt.value)
       case Lt => (t.warningAt.Some? ==> t.resolveAt.value >= t.warningAt.value) &&
                  (t.criticalAt.Some? ==> t.resolveAt.value >= t.criticalAt.value)
       case _ => false
  }

  function Above(name: string, metric: string, warning: real, critical: real, resolve: real): Threshold {
    Threshold(name, metric, Some(warning), Some(critical), Some(resolve), Gt)
  }

  const BUILTIN_THRESHOLDS: seq<Threshold> := [
    Above("disk_usage_high", "disk_percent", 85.0, 95.0, 80.0),
    Above("memory_usage_high", "mem_percent", 85.0, 95.0, 80.0),
    Threshold("memory_swap_active", "swap_used_bytes", Some(1.0), None, Some(0.0), Gt),
    Above("cpu_high_percent", "cpu_percent", 80.0, 95.0, 60.0),
    Above("temperature_high", "temp_celsius", 75.0, 85.0, 70.0),
    Above("psi_cpu_pressure", "psi_cpu_avg10", 50.0, 80.0, 30.0),
    Above("psi_io_pressure", "psi_io_avg10", 50.0, 80.0, 30.0),
    Above("psi_mem_pressure", "psi_mem_avg10", 50.0, 80.0, 30.0),
    Threshold("entropy_low", "entropy_avail", None, Some(100.0), Some(200.0), Lt),
    Above("cpu_load_per_core_high", "cpu_load_per_core", 2.0, 4.0, 1.5),
    Above("process_count_high", "processes", 500.0, 1000.0, 400.0),
    Above("swap_usage_percent_high", "swap_percent", 50.0, 80.0, 40.0),
    Above("file_handle_usage_high", "file_handle_percent", 80.0, 95.0, 70.0),
    Above("app_sshd_fd_usage_high", "app_sshd_fds_percent", 80.0, 95.0, 70.0),
    Above("network_drops_high", "net_drops_rate", 5.0, 20.0, 3.0),
    Above("disk_io_high", "disk_io_mbps", 50.0, 200.0, 30.0)
  ]

  predicate DistinctNames(ts: seq<Threshold>) {
    forall i, j :: 0 <= i < j < |ts| ==> ts[i].name != ts[j].name
  }

  /** Where a built-in threshold's name stands in the list, told by its length and some letters. */
  function PlaceOf(name: string): int {
    if |name| == 11 then 8
    else if |name| == 12 then 15
    else if |name| == 15 then (if name[0] == 'd' then 0 else if name[0] == 'p' then 6 else -1)
    else if |name| == 16 then
      (if name[0] == 'c' then 3 else if name[0] == 't' then 4 else if name[0] != 'p' then -1
       else if name[4] == 'c' then 5 else 7)
    else if |name| == 17 then 1
    else if |name| == 18 then
      (if name[0] == 'm' then 2 else if name[0] == 'p' then 10 else if name[0] == 'n' then 14 else -1)
    else if |name| == 22 then (if name[0] == 'c' then 9 else if name[0] == 'f' then 12 else 13)
    else if |name| == 23 then 11
    else -1
  }

  lemma BuiltinPlaces(i: nat)
    requires i < |BUILTIN_THRESHOLDS|
    ensures PlaceOf(BUILTIN_THRESHOLDS[i].name) == i
  {
  }

  lemma BuiltinNamesAreDistinct()
    ensures DistinctNames(BUILTIN_THRESHOLDS)
  {
    hide PlaceOf;
    var ts := BUILTIN_THRESHOLDS;
    forall i, j | 0 <= i < j < |ts|
      ensures ts[i].name != ts[j].name
    {
      BuiltinPlaces(i);
      BuiltinPlaces(j);
    }
  }

  /**
   For every built-in threshold the alert ends at exactly the readings `is_resolved`
   accepts: at its recovery level and on the safe side of it.
   */
  lemma BuiltinsResetWhenResolved(k: nat, value: real)
    requires k < |BUILTIN_THRESHOLDS|
    ensures var t := BUILTIN_THRESHOLDS[k];
            && t.resolveAt.Some? && (t.op.Gt? || t.op.Lt?)
            && (Resets(t, value) <==> IsResolved(t, value))
            && (Resets(t, value) <==> if t.op.Gt? then value <= t.resolveAt.value else value >= t.resolveAt.value)
  {
    assert WellOrdered(BUILTIN_THRESHOLDS[k]);
  }

  /** A built-in threshold's severity is the worst level that a reading is strictly beyond. */
  lemma BuiltinsFireBeyondTheirLevels(k: nat, value: real)
    requires k < |BUILTIN_THRESHOLDS|
    ensures var t := BUILTIN_THRESHOLDS[k];
            var beyond := (level: real) => if t.op.Gt? then value > level else value < level;
            && (Check(t, value) == Some(Critical) <==> t.criticalAt.Some? && beyond(t.criticalAt.value))
            && (Check(t, value) == Some(Warning) <==>
                  && t.warningAt.Some? && beyond(t.warningAt.value)
                  && (t.criticalAt.Some? ==> !beyond(t.criticalAt.value)))
            && Check(t, value) != Some(Info)
  {
    BuiltinsResetWhenResolved(k, value);
  }
}
