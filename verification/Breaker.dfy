/**
 The circuit breaker (master/core/circuit_breaker.py).  Each action below runs
 under the breaker's lock; between them calls may overlap in any way.
 */
module Breaker {
  import opened Common

  datatype State = Closed | Open | HalfOpen

  datatype Circuit = Circuit(state: State, count: int, last: real)

  datatype Config = Config(threshold: int, timeout: real)

  datatype Action = Check(now: real) | Success | Failure(now: real) | Reset

  const FRESH := Circuit(Closed, 0, 0.0)

  predicate Rejects(c: Circuit, now: real, g: Config) {
    c.state == Open && now - c.last < g.timeout
  }

  function Act(c: Circuit, a: Action, g: Config): Circuit {
    match a
    case Check(now) => if c.state == Open && now - c.last >= g.timeout then c.(state := HalfOpen) else c
    case Success => Circuit(if c.state == HalfOpen then Closed else c.state, 0, c.last)
    case Failure(now) => Circuit(if c.count + 1 >= g.threshold then Open else c.state, c.count + 1, now)
    case Reset => FRESH
  }

  function Run(log: seq<Action>, g: Config): Circuit {
    if log == [] then FRESH else Act(Run(log[..|log| - 1], g), log[|log| - 1], g)
  }

  lemma RunAppend(log: seq<Action>, a: Action, g: Config)
    ensures Run(log + [a], g) == Act(Run(log, g), a, g)
  {
    assert (log + [a])[..|log|] == log;
  }

  // --- what the history says ---

  /** The failures recorded since the last success or reset. */
  function TrailingFailures(log: seq<Action>): nat {
    if log == [] then 0
    else
      var before := TrailingFailures(log[..|log| - 1]);
      match log[|log| - 1]
      case Check(_) => before
      case Failure(_) => before + 1
      case _ => 0
  }

  /** When the last failure since a reset was recorded. */
  function LastFailure(log: seq<Action>): real {
    if log == [] then 0.0
    else
      match log[|log| - 1]
      case Failure(now) => now
      case Reset => 0.0
      case _ => LastFailure(log[..|log| - 1])
  }

  /** The number of trailing failures at which the circuit opens. */
  function Limit(g: Config): nat {
    Max(1, g.threshold)
  }

  /** Whatever the overlap of calls: the count is the trailing run, and a closed circuit is below its limit. */
  lemma {:induction false} CountIsTrailingRun(log: seq<Action>, g: Config)
    ensures Run(log, g).count == TrailingFailures(log)
    ensures Run(log, g).last == LastFailure(log)
    ensures Run(log, g).state == Closed ==> TrailingFailures(log) < Limit(g)
  {
    if log != [] {
      CountIsTrailingRun(log[..|log| - 1], g);
    }
  }

  // --- calls that do not overlap ---

  /** A call and when its function ended; a check alone; a reset. */
  datatype Op = Call(now: real, ok: bool, done: real) | Probe(now: real) | Clear

  /** The actions of an operation that nothing interrupts. */
  function Trace(c: Circuit, op: Op, g: Config): seq<Action> {
    match op
    case Call(now, ok, done) =>
      if Rejects(c, now, g) then [Check(now)] else [Check(now), if ok then Success else Failure(done)]
    case Probe(now) => [Check(now)]
    case Clear => [Reset]
  }

  function Log(ops: seq<Op>, g: Config): seq<Action> {
    if ops == [] then []
    else
      var before := Log(ops[..|ops| - 1], g);
      before + Trace(Run(before, g), ops[|ops| - 1], g)
  }

  function Starts(op: Op, clock: real): real {
    if op.Clear? then clock else op.now
  }

  function Ends(op: Op, clock: real): real {
    match op
    case Call(_, _, done) => done
    case Probe(now) => now
    case Clear => clock
  }

  /** The clock after the operations. */
  function Clock(ops: seq<Op>): real {
    if ops == [] then 0.0 else Ends(ops[|ops| - 1], Clock(ops[..|ops| - 1]))
  }

  /** The clock does not go back. */
  predicate InTime(ops: seq<Op>) {
    ops == [] || (var before := ops[..|ops| - 1];
                  var op := ops[|ops| - 1];
                  InTime(before) && Clock(before) <= Starts(op, Clock(before)) <= Ends(op, Clock(before)))
  }

  /** Between such calls the state says what the history says. */
  predicate Settled(c: Circuit, clock: real, g: Config) {
    && c.last <= clock && c.count >= 0
    && match c.state
       case Closed => c.count < Limit(g)
       case Open => c.count >= Limit(g)
       case HalfOpen => c.count >= Limit(g) && clock - c.last >= g.timeout
  }

  lemma TraceKeepsSettled(log: seq<Action>, op: Op, clock: real, g: Config)
    requires Settled(Run(log, g), clock, g) && clock <= Starts(op, clock) <= Ends(op, clock) && 0.0 <= clock
    ensures Settled(Run(log + Trace(Run(log, g), op, g), g), Ends(op, clock), g)
  {
    hide Run;
    EmptyRun(g);
    var c := Run(log, g);
    var trace := Trace(c, op, g);
    RunAppend(log, trace[0], g);
    if |trace| == 2 {
      RunAppend(log + [trace[0]], trace[1], g);
      assert log + [trace[0]] + [trace[1]] == log + trace;
    } else {
      assert [trace[0]] == trace;
    }
  }

  lemma EmptyRun(g: Config)
    ensures Run([], g) == FRESH
  {
  }

  lemma {:induction false} SequentialIsSettled(ops: seq<Op>, g: Config)
    requires InTime(ops)
    ensures Settled(Run(Log(ops, g), g), Clock(ops), g) && Clock(ops) >= 0.0
  {
    if ops != [] {
      var before := ops[..|ops| - 1];
      SequentialIsSettled(before, g);
      TraceKeepsSettled(Log(before, g), ops[|ops| - 1], Clock(before), g);
    }
  }

  /** The history has as many trailing failures as the limit, the last one less than the timeout ago. */
  predicate Tripped(log: seq<Action>, now: real, g: Config) {
    TrailingFailures(log) >= Limit(g) && now - LastFailure(log) < g.timeout
  }

  /**
   When calls do not overlap, the next one is rejected exactly when the trailing
   failures have reached the limit and the timeout since the last has not passed.
   */
  lemma RejectedExactlyWhenTripped(ops: seq<Op>, now: real, g: Config)
    requires InTime(ops) && now >= Clock(ops)
    ensures Rejects(Run(Log(ops, g), g), now, g) <==> Tripped(Log(ops, g), now, g)
  {
    SequentialIsSettled(ops, g);
    CountIsTrailingRun(Log(ops, g), g);
  }

  // --- calls that overlap ---

  /** A probe that fails opens the circuit again exactly if the count had not been lost. */
  lemma FailedProbeReopens(log: seq<Action>, now: real, g: Config)
    requires Run(log, g).state == HalfOpen
    ensures Run(log + [Failure(now)], g).state == Open <==> TrailingFailures(log) + 1 >= g.threshold
  {
    RunAppend(log, Failure(now), g);
    CountIsTrailingRun(log, g);
  }

  /** A check that comes when the timeout since the last failure has passed. */
  predicate LateCheck(log: seq<Action>, a: Action, g: Config) {
    a.Check? && a.now - LastFailure(log) >= g.timeout
  }

  /**
   Under any overlap: the circuit is open after an action exactly if the action is
   the failure that reaches the threshold, or it was open and the action is neither
   a reset nor a late check; it is half open exactly if a late check found it open,
   or it was half open and the action is a check or a failure below the threshold.
   */
  lemma StateMovesExactly(log: seq<Action>, a: Action, g: Config)
    ensures var before, after := Run(log, g).state, Run(log + [a], g).state;
            var trips := a.Failure? && TrailingFailures(log) + 1 >= g.threshold;
            && (after == Open <==> trips || (before == Open && !a.Reset? && !LateCheck(log, a, g)))
            && (after == HalfOpen <==>
                  (before == Open && LateCheck(log, a, g)) ||
                  (before == HalfOpen && !a.Success? && !a.Reset? && !trips))
  {
    hide Run;
    RunAppend(log, a, g);
    CountIsTrailingRun(log, g);
  }

  /** In every run an open circuit stays open, and admits no call, until a check comes late or it is reset. */
  lemma {:induction false} OpenUntilLate(log: seq<Action>, more: seq<Action>, g: Config)
    requires Run(log, g).state == Open
    requires forall k :: 0 <= k < |more| ==> !more[k].Reset? && !LateCheck(log + more[..k], more[k], g)
    ensures Run(log + more, g).state == Open
    ensures forall k :: 0 <= k < |more| && more[k].Check? ==> Rejects(Run(log + more[..k], g), more[k].now, g)
  {
    hide Run, LastFailure;
    if more == [] {
      assert log + more == log;
    } else {
      var n := |more| - 1;
      assert forall k :: 0 <= k <= n ==> more[..n][..k] == more[..k];
      forall k | 0 <= k < n ensures !more[..n][k].Reset? && !LateCheck(log + more[..n][..k], more[..n][k], g) {
        assert !LateCheck(log + more[..k], more[k], g);
      }
      OpenUntilLate(log, more[..n], g);
      assert log + more == log + more[..n] + [more[n]];
      StateMovesExactly(log + more[..n], more[n], g);
      CountIsTrailingRun(log + more[..n], g);
      forall k | 0 <= k < |more| && more[k].Check?
        ensures Rejects(Run(log + more[..k], g), more[k].now, g)
      {
        if k < n {
          assert more[..n][k].Check? && Rejects(Run(log + more[..n][..k], g), more[..n][k].now, g);
        } else {
          assert more[..k] == more[..n];
        }
      }
    }
  }

  /** Three overlapping calls, two failing and one then succeeding: a failed probe leaves the circuit half open. */
  lemma FailedProbeCanStayHalfOpen()
    ensures var g := Config(2, 60.0);
            var log := [Check(1.0), Check(1.0), Check(1.0), Failure(2.0), Failure(2.0), Success, Check(70.0)];
            Run(log, g) == Circuit(HalfOpen, 0, 2.0) && Run(log + [Failure(71.0)], g) == Circuit(HalfOpen, 1, 71.0)
  {
    hide Run;
    var g := Config(2, 60.0);
    var checks := [Check(1.0), Check(1.0), Check(1.0)];
    EmptyRun(g);
    RunAppend([], Check(1.0), g);
    assert [] + [Check(1.0)] == [Check(1.0)];
    RunAppend([Check(1.0)], Check(1.0), g);
    RunAppend([Check(1.0), Check(1.0)], Check(1.0), g);
    assert [Check(1.0)] + [Check(1.0)] == [Check(1.0), Check(1.0)];
    assert [Check(1.0), Check(1.0)] + [Check(1.0)] == checks;
    RunAppend(checks, Failure(2.0), g);
    RunAppend(checks + [Failure(2.0)], Failure(2.0), g);
    RunAppend(checks + [Failure(2.0)] + [Failure(2.0)], Success, g);
    RunAppend(checks + [Failure(2.0)] + [Failure(2.0)] + [Success], Check(70.0), g);
    var log := [Check(1.0), Check(1.0), Check(1.0), Failure(2.0), Failure(2.0), Success, Check(70.0)];
    assert checks + [Failure(2.0)] + [Failure(2.0)] + [Success] + [Check(70.0)] == log;
    RunAppend(log, Failure(71.0), g);
  }

  // --- the breaker itself ---

  datatype Outcome = Rejected | Returned | Raised

  class CircuitBreaker {
    const config: Config
    var state: State
    var failureCount: int
    var lastFailureTime: real
    ghost var log: seq<Action>

    ghost predicate Valid()
      reads this
    {
      Circuit(state, failureCount, lastFailureTime) == Run(log, config)
    }

    constructor (threshold: int, timeout: real)
      ensures Valid() && log == [] && config == Config(threshold, timeout)
    {
      config := Config(threshold, timeout);
      state, failureCount, lastFailureTime := Closed, 0, 0.0;
      log := [];
    }

    /** The source's `check`, and the first step of `call`. */
    method Check(now: real) returns (admitted: bool)
      requires Valid()
      modifies this
      ensures Valid() && log == old(log) + [Action.Check(now)]
      ensures admitted == !Rejects(Run(old(log), config), now, config)
    {
      hide Run;
      RunAppend(log, Action.Check(now), config);
      admitted := true;
      if state == Open {
        var elapsed := now - lastFailureTime;
        if elapsed >= config.timeout {
          state := HalfOpen;
        } else {
          admitted := false;
        }
      }
      log := log + [Action.Check(now)];
    }

    method RecordSuccess()
      requires Valid()
      modifies this
      ensures Valid() && log == old(log) + [Success]
    {
      hide Run;
      RunAppend(log, Success, config);
      if state == HalfOpen {
        state := Closed;
      }
      failureCount := 0;
      log := log + [Success];
    }

    method RecordFailure(now: real)
      requires Valid()
      modifies this
      ensures Valid() && log == old(log) + [Failure(now)]
    {
      hide Run;
      RunAppend(log, Failure(now), config);
      failureCount := failureCount + 1;
      lastFailureTime := now;
      if failureCount >= config.threshold {
        state := Open;
      }
      log := log + [Failure(now)];
    }

    method Reset()
      requires Valid()
      modifies this
      ensures Valid() && log == old(log) + [Action.Reset]
    {
      hide Run;
      RunAppend(log, Action.Reset, config);
      state, failureCount, lastFailureTime := Closed, 0, 0.0;
      log := log + [Action.Reset];
    }

    /** A call that nothing overlaps; `ok` and `done` are how and when its function ends. */
    method Invoke(now: real, ok: bool, done: real) returns (outcome: Outcome)
      requires Valid()
      modifies this
      ensures Valid() && log == old(log) + Trace(Run(old(log), config), Call(now, ok, done), config)
      ensures outcome ==
              if Rejects(Run(old(log), config), now, config) then Rejected else if ok then Returned else Raised
    {
      hide Run;
      var admitted := Check(now);
      if !admitted {
        return Rejected;
      }
      if !ok {
        RecordFailure(done);
        return Raised;
      }
      RecordSuccess();
      return Returned;
    }

    /** Any calls, one after another: each is rejected exactly when the history says so. */
    method InvokeAll(ops: seq<Op>) returns (outcomes: seq<Outcome>)
      requires Valid() && log == [] && InTime(ops)
      modifies this
      ensures Valid() && log == Log(ops, config) && |outcomes| == |ops|
      ensures forall i :: 0 <= i < |ops| && ops[i].Call? ==>
                (outcomes[i] == Rejected <==> Tripped(Log(ops[..i], config), ops[i].now, config))
    {
      hide Run, Tripped, Trace, Log, InTime;
      LogOfPrefix(ops, 0, config);
      outcomes := [];
      for i := 0 to |ops|
        invariant Valid() && log == Log(ops[..i], config) && |outcomes| == i
        invariant forall j :: 0 <= j < i && ops[j].Call? ==>
                    (outcomes[j] == Rejected <==> Tripped(Log(ops[..j], config), ops[j].now, config))
      {
        LogOfPrefix(ops, i, config);
        var outcome := Returned;
        match ops[i] {
          case Call(now, ok, done) =>
            PrefixInTime(ops, i);
            RejectedExactlyWhenTripped(ops[..i], now, config);
            outcome := Invoke(now, ok, done);
          case Probe(now) =>
            TraceOfProbe(Run(log, config), now, config);
            var _ := Check(now);
          case Clear =>
            TraceOfClear(Run(log, config), config);
            Reset();
        }
        outcomes := outcomes + [outcome];
      }
      assert ops[..|ops|] == ops;
    }
  }

  lemma LogOfPrefix(ops: seq<Op>, i: nat, g: Config)
    requires i <= |ops|
    ensures i == 0 ==> Log(ops[..i], g) == []
    ensures i < |ops| ==>
              Log(ops[..i + 1], g) == Log(ops[..i], g) + Trace(Run(Log(ops[..i], g), g), ops[i], g)
  {
    hide Run, Trace;
    assert i < |ops| ==> ops[..i + 1][..i] == ops[..i];
  }

  lemma TraceOfProbe(c: Circuit, now: real, g: Config)
    ensures Trace(c, Probe(now), g) == [Check(now)]
  {
  }

  lemma TraceOfClear(c: Circuit, g: Config)
    ensures Trace(c, Clear, g) == [Reset]
  {
  }

  lemma {:induction false} PrefixInTime(ops: seq<Op>, i: nat)
    requires InTime(ops) && i < |ops|
    ensures InTime(ops[..i]) && Clock(ops[..i]) <= Starts(ops[i], Clock(ops[..i]))
  {
    var n := |ops| - 1;
    if i < n {
      PrefixInTime(ops[..n], i);
      assert ops[..n][..i] == ops[..i];
    }
  }
}
