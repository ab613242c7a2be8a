/**
 The sliding-window limiter of alert firings (master/core/alert_engine.py):
 it keeps only recent admissions, and still no window ever holds too many
 unless the clock goes back far enough to revive what it forgot.
 */
module RateLimit {
  import opened Common

  const WINDOW := 60.0
  const MAX_FIRINGS := 10

  /** The times less than a window before `now`. */
  function Recent(times: seq<real>, now: real): (r: seq<real>)
    ensures |r| <= |times|
  {
    if times == [] then []
    else
      var n := |times| - 1;
      Recent(times[..n], now) + (if now - times[n] < WINDOW then [times[n]] else [])
  }

  /** Whether a firing at `now` is refused, given the list the limiter has kept. */
  predicate Refused(kept: seq<real>, now: real) {
    |Recent(kept, now)| >= MAX_FIRINGS
  }

  /** The list the limiter keeps after an attempt at `now`. */
  function Kept(kept: seq<real>, now: real): seq<real> {
    if Refused(kept, now) then Recent(kept, now) else Recent(kept, now) + [now]
  }

  /** The list kept, and every firing ever admitted, after attempts at the given times. */
  function KeptAfter(attempts: seq<real>): seq<real> {
    if attempts == [] then [] else Kept(KeptAfter(attempts[..|attempts| - 1]), attempts[|attempts| - 1])
  }

  function Admitted(attempts: seq<real>): seq<real> {
    if attempts == [] then []
    else
      var n := |attempts| - 1;
      var before := Admitted(attempts[..n]);
      if Refused(KeptAfter(attempts[..n]), attempts[n]) then before else before + [attempts[n]]
  }

  predicate NonDecreasing(times: seq<real>) {
    forall i, j :: 0 <= i < j < |times| ==> times[i] <= times[j]
  }

  lemma RecentSnoc(times: seq<real>, t: real, now: real)
    ensures Recent(times + [t], now) == Recent(times, now) + (if now - t < WINDOW then [t] else [])
  {
    assert (times + [t])[..|times|] == times;
  }

  /** Entries that are out of the window at one moment are out of it at another. */
  predicate StayExpired(times: seq<real>, earlier: real, now: real) {
    forall i :: 0 <= i < |times| && now - times[i] < WINDOW ==> earlier - times[i] < WINDOW
  }

  /** Pruning earlier changes nothing about a later pruning exactly when nothing expired comes back into the window. */
  lemma {:induction false} RecentTwiceExactly(times: seq<real>, earlier: real, now: real)
    ensures |Recent(Recent(times, earlier), now)| <= |Recent(times, now)|
    ensures Recent(Recent(times, earlier), now) == Recent(times, now) <==> StayExpired(times, earlier, now)
  {
    if times != [] {
      var n := |times| - 1;
      var before := Recent(times[..n], earlier);
      RecentTwiceExactly(times[..n], earlier, now);
      RecentSnoc(before, times[n], now);
      assert before + [] == before;
      assert Recent(before, now) + [] == Recent(before, now) && Recent(times[..n], now) + [] == Recent(times[..n], now);
      SnocEqual(Recent(before, now), Recent(times[..n], now), times[n]);
      assert StayExpired(times, earlier, now) <==>
        StayExpired(times[..n], earlier, now) && (now - times[n] < WINDOW ==> earlier - times[n] < WINDOW);
    }
  }

  /** What had expired at the attempt before the `k`-th is still expired at the `k`-th. */
  predicate RevivesNothing(attempts: seq<real>, k: int)
    requires 0 < k < |attempts|
  {
    StayExpired(Admitted(attempts[..k]), attempts[k - 1], attempts[k])
  }

  /** No admitted firing that is 60 seconds old at one attempt is younger than that at the next. */
  predicate NoneRevived(attempts: seq<real>) {
    forall k :: 0 < k < |attempts| ==> RevivesNothing(attempts, k)
  }

  /** A clock that never goes back revives nothing. */
  lemma NonDecreasingRevivesNothing(attempts: seq<real>)
    requires NonDecreasing(attempts)
    ensures NoneRevived(attempts)
  {
  }

  /** What the limiter keeps is its full admission history, restricted to the last window. */
  predicate KeptIsHistory(attempts: seq<real>)
    requires attempts != []
  {
    KeptAfter(attempts) == Recent(Admitted(attempts), attempts[|attempts| - 1])
  }

  lemma RevivalsOfPrefix(attempts: seq<real>)
    requires |attempts| > 1
    ensures var n := |attempts| - 1;
            NoneRevived(attempts) <==>
              NoneRevived(attempts[..n]) && StayExpired(Admitted(attempts[..n]), attempts[n - 1], attempts[n])
  {
    hide RevivesNothing;
    var n := |attempts| - 1;
    var before := attempts[..n];
    forall k | 0 < k < n
      ensures RevivesNothing(before, k) == RevivesNothing(attempts, k)
    {
      SameAttempts(attempts, n, k);
    }
    LastAttempt(attempts);
  }

  lemma SameAttempts(attempts: seq<real>, n: nat, k: nat)
    requires 0 < k < n <= |attempts|
    ensures RevivesNothing(attempts[..n], k) == RevivesNothing(attempts, k)
  {
    hide StayExpired;
    assert attempts[..n][..k] == attempts[..k];
  }

  lemma LastAttempt(attempts: seq<real>)
    requires |attempts| > 1
    ensures var n := |attempts| - 1;
            RevivesNothing(attempts, n) == StayExpired(Admitted(attempts[..n]), attempts[n - 1], attempts[n])
  {
  }

  /** One more attempt keeps that description exactly when it revives nothing. */
  lemma KeptNext(attempts: seq<real>)
    requires |attempts| > 1 && KeptIsHistory(attempts[..|attempts| - 1])
    ensures var n := |attempts| - 1;
            KeptIsHistory(attempts) <==> StayExpired(Admitted(attempts[..n]), attempts[n - 1], attempts[n])
  {
    var n := |attempts| - 1;
    var now, history := attempts[n], Admitted(attempts[..n]);
    RecentTwiceExactly(history, attempts[n - 1], now);
    RecentSnoc(history, now, now);
    SnocEqual(Recent(KeptAfter(attempts[..n]), now), Recent(history, now), now);
  }

  lemma FirstKept(attempts: seq<real>)
    requires |attempts| == 1
    ensures KeptIsHistory(attempts) && NoneRevived(attempts)
  {
    assert attempts[..0] == [];
    assert [attempts[0]][..0] == [];
  }

  predicate AlwaysHistory(attempts: seq<real>) {
    forall k :: 0 < k <= |attempts| ==> KeptIsHistory(attempts[..k])
  }

  lemma AlwaysOfPrefix(attempts: seq<real>)
    requires attempts != []
    ensures AlwaysHistory(attempts) <==> AlwaysHistory(attempts[..|attempts| - 1]) && KeptIsHistory(attempts)
  {
    hide KeptIsHistory;
    var n := |attempts| - 1;
    var before := attempts[..n];
    assert attempts[..n + 1] == attempts;
    assert forall k :: 0 < k <= n ==> before[..k] == attempts[..k];
    if AlwaysHistory(attempts) {
      forall k | 0 < k <= n ensures KeptIsHistory(before[..k]) {
        assert KeptIsHistory(attempts[..k]);
      }
    }
    if AlwaysHistory(before) && KeptIsHistory(attempts) {
      forall k | 0 < k <= n + 1 ensures KeptIsHistory(attempts[..k]) {
        assert k <= n ==> KeptIsHistory(before[..k]);
      }
    }
  }

  lemma LastOfAlways(attempts: seq<real>)
    requires attempts != [] && AlwaysHistory(attempts)
    ensures KeptIsHistory(attempts)
  {
    assert attempts[..|attempts|] == attempts;
  }

  lemma NothingKept()
    ensures AlwaysHistory([])
  {
  }

  /**
   Although old entries are discarded, after every attempt the kept list is the
   full admission history restricted to the last window, if and only if no
   admitted firing that has expired comes back into the window.
   */
  lemma {:induction false} KeptIsRecentHistory(attempts: seq<real>)
    ensures NoneRevived(attempts) <==> AlwaysHistory(attempts)
  {
    hide KeptIsHistory, AlwaysHistory, NoneRevived, StayExpired;
    if attempts == [] {
      NonDecreasingRevivesNothing(attempts);
      NothingKept();
    } else if |attempts| == 1 {
      FirstKept(attempts);
      AlwaysOfPrefix(attempts);
      assert attempts[..0] == [];
      NothingKept();
    } else {
      var n := |attempts| - 1;
      KeptIsRecentHistory(attempts[..n]);
      AlwaysOfPrefix(attempts);
      RevivalsOfPrefix(attempts);
      if AlwaysHistory(attempts[..n]) {
        LastOfAlways(attempts[..n]);
        KeptNext(attempts);
      }
    }
  }

  predicate InWindow(start: real, t: real) {
    start <= t < start + WINDOW
  }

  function Within(start: real): real -> bool {
    t => InWindow(start, t)
  }

  lemma {:induction false} WindowIsRecent(times: seq<real>, start: real, now: real)
    requires InWindow(start, now)
    ensures Count(times, Within(start)) <= |Recent(times, now)|
  {
    if times != [] {
      WindowIsRecent(times[..|times| - 1], start, now);
    }
  }

  lemma AdmittedNext(attempts: seq<real>)
    requires attempts != []
    ensures var n := |attempts| - 1;
            Admitted(attempts) ==
            if Refused(KeptAfter(attempts[..n]), attempts[n]) then Admitted(attempts[..n])
            else Admitted(attempts[..n]) + [attempts[n]]
  {
    hide Refused, KeptAfter;
  }

  /** What a window holds when an attempt in it is admitted is among what the limiter has kept. */
  lemma AdmittedInWindow(attempts: seq<real>, start: real, now: real)
    requires attempts != [] && KeptIsHistory(attempts) && StayExpired(Admitted(attempts), attempts[|attempts| - 1], now)
    requires InWindow(start, now) && !Refused(KeptAfter(attempts), now)
    ensures Count(Admitted(attempts), Within(start)) < MAX_FIRINGS
  {
    hide Admitted, KeptAfter, Recent, StayExpired, InWindow, Within, Count;
    RecentTwiceExactly(Admitted(attempts), attempts[|attempts| - 1], now);
    WindowIsRecent(Admitted(attempts), start, now);
  }

  /** If nothing expired is revived, no window of 60 seconds holds more than 10 admitted firings. */
  lemma {:induction false} NoWindowHoldsMore(attempts: seq<real>, start: real)
    requires NoneRevived(attempts)
    ensures Count(Admitted(attempts), Within(start)) <= MAX_FIRINGS
  {
    hide NoneRevived, StayExpired, KeptIsHistory, AlwaysHistory, KeptAfter, Admitted, Refused, InWindow, Count;
    if attempts == [] {
      NoneAdmitted(Within(start));
    } else if |attempts| == 1 {
      OneAdmitted(attempts, Within(start));
    } else {
      var n := |attempts| - 1;
      var now, before := attempts[n], attempts[..n];
      RevivalsOfPrefix(attempts);
      NoWindowHoldsMore(before, start);
      AdmittedNext(attempts);
      if !Refused(KeptAfter(before), now) {
        CountAppend(Admitted(before), now, Within(start));
        if InWindow(start, now) {
          KeptIsRecentHistory(before);
          LastOfAlways(before);
          AdmittedInWindow(before, start, now);
        }
      }
    }
  }

  function Fresh(now: real): real -> bool {
    t => now - t < WINDOW
  }

  lemma {:induction false} RecentCounts(times: seq<real>, now: real)
    ensures |Recent(times, now)| == Count(times, Fresh(now))
  {
    if times != [] {
      RecentCounts(times[..|times| - 1], now);
    }
  }

  lemma RefusedByHistory(attempts: seq<real>, now: real)
    requires attempts != [] && KeptIsHistory(attempts) && StayExpired(Admitted(attempts), attempts[|attempts| - 1], now)
    ensures Refused(KeptAfter(attempts), now) <==> Count(Admitted(attempts), Fresh(now)) >= MAX_FIRINGS
  {
    hide Admitted, KeptAfter, Recent, StayExpired, Count;
    RecentTwiceExactly(Admitted(attempts), attempts[|attempts| - 1], now);
    RecentCounts(Admitted(attempts), now);
  }

  /**
   If nothing expired is revived, a firing is admitted exactly if fewer than 10
   of those admitted before are younger than 60 seconds.
   */
  lemma AdmittedExactlyWhenRoom(attempts: seq<real>, now: real)
    requires NoneRevived(attempts + [now])
    ensures Admitted(attempts + [now]) ==
            Admitted(attempts) + if Count(Admitted(attempts), Fresh(now)) < MAX_FIRINGS then [now] else []
  {
    hide NoneRevived, StayExpired, KeptIsHistory, AlwaysHistory, KeptAfter, Admitted, Refused, Count;
    var all := attempts + [now];
    assert all[..|attempts|] == attempts;
    AttemptSnoc(attempts, now);
    if attempts == [] {
      NoneAdmitted(Fresh(now));
      NothingRefused(now);
    } else {
      RevivalsOfPrefix(all);
      KeptIsRecentHistory(attempts);
      LastOfAlways(attempts);
      RefusedByHistory(attempts, now);
    }
  }

  lemma NothingRefused(now: real)
    ensures !Refused(KeptAfter([]), now)
  {
  }

  lemma NoneAdmitted(p: real -> bool)
    ensures Count(Admitted([]), p) == 0
  {
  }

  lemma FirstAdmitted(attempts: seq<real>)
    requires |attempts| == 1
    ensures Admitted(attempts) == attempts
  {
    assert attempts[..0] == [];
  }

  lemma OneAdmitted(attempts: seq<real>, p: real -> bool)
    requires |attempts| == 1
    ensures Count(Admitted(attempts), p) <= 1
  {
    FirstAdmitted(attempts);
    assert attempts[..0] == [];
  }

  /** The clock may go back a little: these attempts revive nothing and are not in order. */
  lemma SmallStepBackIsHarmless()
    ensures NoneRevived([5.0, 4.0]) && !NonDecreasing([5.0, 4.0])
  {
    hide Admitted, KeptAfter;
    var attempts := [5.0, 4.0];
    assert attempts[..1] == [5.0] && attempts[0] > attempts[1];
    FirstAdmitted([5.0]);
  }

  lemma AttemptSnoc(attempts: seq<real>, now: real)
    ensures KeptAfter(attempts + [now]) == Kept(KeptAfter(attempts), now)
    ensures Admitted(attempts + [now]) ==
            if Refused(KeptAfter(attempts), now) then Admitted(attempts) else Admitted(attempts) + [now]
  {
    assert (attempts + [now])[..|attempts|] == attempts;
  }

  /** So many attempts at time zero. */
  function AtZero(n: nat): (times: seq<real>)
    ensures |times| == n
  {
    if n == 0 then [] else AtZero(n - 1) + [0.0]
  }

  lemma {:induction false} Burst(n: nat)
    requires n <= MAX_FIRINGS
    ensures KeptAfter(AtZero(n)) == AtZero(n) == Admitted(AtZero(n))
    ensures Recent(AtZero(n), 0.0) == AtZero(n) && Recent(AtZero(n), 100.0) == []
  {
    hide KeptAfter, Admitted, Recent;
    if n == 0 {
      NothingYet();
    } else {
      Burst(n - 1);
      AttemptSnoc(AtZero(n - 1), 0.0);
      RecentSnoc(AtZero(n - 1), 0.0, 0.0);
      RecentSnoc(AtZero(n - 1), 0.0, 100.0);
    }
  }

  lemma NothingYet()
    ensures KeptAfter([]) == [] == Admitted([]) && forall now :: Recent([], now) == []
  {
  }

  lemma {:induction false} AllCounted(n: nat, p: real -> bool)
    requires p(0.0)
    ensures Count(AtZero(n), p) == n
  {
    if n > 0 {
      AllCounted(n - 1, p);
      CountAppend(AtZero(n - 1), 0.0, p);
    }
  }

  /** A clock that goes back far enough breaks it: the pruned entries are forgotten for good. */
  lemma ClockGoingBackBreaksTheLimit()
    ensures exists attempts :: Count(Admitted(attempts), Within(0.0)) > MAX_FIRINGS
  {
    hide KeptAfter, Admitted, Recent, AtZero, Count;
    var ten := AtZero(10);
    Burst(10);
    AttemptSnoc(ten, 100.0);
    var late := ten + [100.0];
    assert [] + [100.0] == [100.0];
    OneRecent();
    AttemptSnoc(late, 0.0);
    var w := Within(0.0);
    AllCounted(10, w);
    CountAppend(ten, 100.0, w);
    CountAppend(ten + [100.0], 0.0, w);
    assert Admitted(late + [0.0]) == ten + [100.0] + [0.0];
  }

  lemma OneRecent()
    ensures |Recent([100.0], 0.0)| <= 1
  {
  }
}
