/**
 When a schedule next fires (master/core/cron_parser.py, next_trigger): a search
 over the minutes of the calendar.  All five fields must match, days of the
 month and of the week included.
 */
module Cron {
  import opened Calendar
  import opened Common
  import opened Decimal

  datatype Schedule = Schedule(minutes: set<int>, hours: set<int>, dom: set<int>, months: set<int>, dow: set<int>)

  const LOOK_AHEAD: nat := 525600

  /** The minute of 1 January 1970, 00:00. */
  const EPOCH: nat := 719162 * 1440

  /** Sunday is 0, as cron counts. */
  function CronDow(d: Date): int
    requires d.month >= 1
  {
    (Weekday(d) + 1) % 7
  }

  predicate Matches(s: Schedule, t: DateTime)
    requires t.date.month >= 1
  {
    && t.minute in s.minutes && t.hour in s.hours
    && t.date.day in s.dom && t.date.month in s.months && CronDow(t.date) in s.dow
  }

  predicate Fires(s: Schedule, m: nat) {
    AtIsMinute(m);
    Matches(s, At(m))
  }

  // --- what the five fields mean ---

  lemma ThursdayIn1970()
    ensures CronDow(Date(1970, 1, 1)) == 4
  {
    assert Ordinal(Date(1970, 1, 1)) == 719163;
  }

  /** The next day is the next day of the week. */
  lemma DowOfNextDay(d: Date)
    requires ValidDate(d)
    ensures CronDow(NextDay(d)) == (CronDow(d) + 1) % 7
  {
    hide Ordinal, NextDay;
    NextDayIsNext(d);
  }

  /** The day of the week that a minute falls on, counted on from a Thursday. */
  function DayOfWeek(m: int): int {
    (m / 1440 - EPOCH / 1440 + 4) % 7
  }

  lemma DowOfDate(d: Date, m: nat)
    requires ValidDate(d) && Ordinal(d) == m / 1440 + 1
    ensures CronDow(d) == DayOfWeek(m)
  {
    hide Ordinal;
    assert EPOCH / 1440 == 719162;
  }

  lemma HourOfDay(m: nat)
    ensures m % 1440 / 60 == m / 60 % 24
  {
    Parts(m);
    var q, h, k := m / 1440, m % 1440 / 60, m % 60;
    Divide60(24 * q + h, k);
    assert m == 60 * (24 * q + h) + k;
    Divide24(q, h);
  }

  lemma Divide24(q: nat, r: nat)
    requires r < 24
    ensures (24 * q + r) % 24 == r
  {
  }

  /** A schedule fires at exactly the minutes whose minute, hour, day, month and day of the week it names. */
  lemma FiresExactly(s: Schedule, m: nat, d: Date)
    requires ValidDate(d) && Ordinal(d) == m / 1440 + 1
    ensures Fires(s, m) <==>
            && m % 60 in s.minutes && m / 60 % 24 in s.hours
            && d.day in s.dom && d.month in s.months && DayOfWeek(m) in s.dow
  {
    hide Ordinal, DateOf, DayOfWeek, CronDow;
    OrdinalOfDateOf(m / 1440);
    OrdinalOrders(DateOf(m / 1440), d);
    DowOfDate(d, m);
    HourOfDay(m);
  }

  lemma FiresOnNamedDays(s: Schedule, m: nat)
    ensures Fires(s, m) ==> DayOfWeek(m) in s.dow
  {
    hide Fires, Ordinal;
    OrdinalOfDateOf(m / 1440);
    FiresExactly(s, m, DateOf(m / 1440));
  }

  // --- timestamps ---

  function Microseconds(timestamp: real): int {
    RoundHalfEven(timestamp * 1_000_000.0)
  }

  /** The minute the search starts after: the timestamp to the microsecond, seconds dropped. */
  function StartMinute(timestamp: real): int {
    Microseconds(timestamp) / 60_000_000 + EPOCH
  }

  function Timestamp(m: int): real {
    ((m - EPOCH) * 60) as real
  }

  /** Timestamp zero is the start of 1970, as everywhere. */
  lemma EpochIs1970()
    ensures Timestamp(EPOCH) == 0.0 && At(EPOCH) == DateTime(Date(1970, 1, 1), 0, 0)
  {
    hide At;
    assert Ordinal(Date(1970, 1, 1)) == 719163;
    MinuteIsAt(DateTime(Date(1970, 1, 1), 0, 0));
  }

  lemma StartOfWholeMinute(m: int)
    ensures StartMinute(Timestamp(m)) == m
  {
    assert Timestamp(m) * 1_000_000.0 == ((m - EPOCH) * 60_000_000) as real;
    assert Microseconds(Timestamp(m)) == (m - EPOCH) * 60_000_000;
  }

  /** The first whole minute strictly after a timestamp. */
  function FirstAfter(timestamp: real): int {
    (timestamp / 60.0).Floor + 1 + EPOCH
  }

  lemma FirstAfterIsFirst(timestamp: real, m: int)
    ensures m >= FirstAfter(timestamp) <==> Timestamp(m) > timestamp
  {
    var k := (timestamp / 60.0).Floor;
    assert k as real <= timestamp / 60.0 < (k + 1) as real;
    var n := m - EPOCH;
    if n >= k + 1 {
      assert n as real >= (k + 1) as real;
    } else {
      assert n as real <= k as real;
    }
    assert Timestamp(m) == n as real * 60.0;
  }

  /** The timestamp is a little before a whole minute that it is rounded up to. */
  predicate RoundedUpToMinute(timestamp: real) {
    Microseconds(timestamp) % 60_000_000 == 0 && Microseconds(timestamp) as real > timestamp * 1_000_000.0
  }

  /** The search begins with the first minute strictly after the timestamp, unless rounding jumps over that one. */
  lemma SearchStart(timestamp: real)
    ensures StartMinute(timestamp) + 1 == FirstAfter(timestamp) + (if RoundedUpToMinute(timestamp) then 1 else 0)
  {
    var u, q := Microseconds(timestamp), Microseconds(timestamp) / 60_000_000;
    var x := timestamp * 1_000_000.0;
    var low := x.Floor;
    assert low <= u <= low + 1 && low as real <= x < (low + 1) as real;
    assert q * 60_000_000 <= u < (q + 1) * 60_000_000;
    var k := (timestamp / 60.0).Floor;
    assert k as real <= timestamp / 60.0 < (k + 1) as real;
    assert (k * 60_000_000) as real <= x < ((k + 1) * 60_000_000) as real;
    if RoundedUpToMinute(timestamp) {
      assert u == low + 1 && q * 60_000_000 == u;
      assert k * 60_000_000 <= low;
    } else {
      assert k * 60_000_000 <= u;
    }
  }

  // --- the search ---

  /** `m` is the first minute after `start` at which the schedule fires, and within reach. */
  ghost predicate IsNext(s: Schedule, start: nat, m: nat) {
    start < m <= start + LOOK_AHEAD && Fires(s, m) && forall k: nat :: start < k < m ==> !Fires(s, k)
  }

  /** The schedule does not fire within reach of `start`. */
  ghost predicate NoNext(s: Schedule, start: nat) {
    forall k: nat :: start < k <= start + LOOK_AHEAD ==> !Fires(s, k)
  }

  method NextTrigger(s: Schedule, fromTimestamp: real) returns (r: Option<real>)
    requires StartMinute(fromTimestamp) >= 0
    ensures r.None? <==> NoNext(s, StartMinute(fromTimestamp))
    ensures r.Some? ==> exists m: nat :: IsNext(s, StartMinute(fromTimestamp), m) && r.value == Timestamp(m) &&
                                         DayOfWeek(m) in s.dow
  {
    hide At, Matches, DayOfWeek;
    var start: nat := StartMinute(fromTimestamp);
    NextMinuteIsNext(start);
    var dt := NextMinute(At(start));
    for k: nat := 0 to LOOK_AHEAD
      invariant dt == At(start + 1 + k)
      invariant forall j: nat :: start < j < start + 1 + k ==> !Fires(s, j)
    {
      AtIsMinute(start + 1 + k);
      if Matches(s, dt) {
        assert IsNext(s, start, start + 1 + k);
        FiresOnNamedDays(s, start + 1 + k);
        return Some(Timestamp(MinuteOf(dt)));
      }
      NextMinuteIsNext(start + 1 + k);
      dt := NextMinute(dt);
    }
    return None;
  }

  // --- repeated searches ---

  /** Each trigger is the next after the one before. */
  ghost predicate Chain(s: Schedule, start: nat, triggers: seq<nat>)
    decreases |triggers|
  {
    triggers == [] || (IsNext(s, start, triggers[0]) && Chain(s, triggers[0], triggers[1..]))
  }

  /** Feeding each answer back visits exactly the firing minutes, in order, none twice. */
  lemma {:induction false} ChainEnumerates(s: Schedule, start: nat, triggers: seq<nat>, m: nat)
    requires Chain(s, start, triggers) && triggers != []
    ensures start < m <= triggers[|triggers| - 1] ==> (Fires(s, m) <==> m in triggers)
    ensures m in triggers ==> m > start
    ensures forall i, j :: 0 <= i < j < |triggers| ==> triggers[i] < triggers[j]
    decreases |triggers|
  {
    hide Fires;
    var first, rest := triggers[0], triggers[1..];
    assert triggers == [first] + rest;
    if rest != [] {
      ChainEnumerates(s, first, rest, m);
      forall i, j | 0 <= i < j < |triggers| ensures triggers[i] < triggers[j] {
        if i == 0 {
          ChainEnumerates(s, first, rest, triggers[j]);
          assert triggers[j] == rest[j - 1];
        } else {
          assert triggers[i] == rest[i - 1] && triggers[j] == rest[j - 1];
        }
      }
    }
  }

  /** Where a chain of searches ends. */
  function LastOf(start: nat, triggers: seq<nat>): nat {
    if triggers == [] then start else triggers[|triggers| - 1]
  }

  /**
   Searching on until a search fails finds exactly the firing minutes up to a
   gap: whatever fires later fires more than 525,600 minutes after the last one.
   */
  lemma SearchingOnFindsAllBeforeAGap(s: Schedule, start: nat, triggers: seq<nat>, m: nat)
    requires Chain(s, start, triggers) && NoNext(s, LastOf(start, triggers))
    ensures m in triggers <==> Fires(s, m) && start < m <= LastOf(start, triggers) + LOOK_AHEAD
  {
    hide Fires;
    if triggers != [] {
      var last := |triggers| - 1;
      ChainEnumerates(s, start, triggers, m);
      if m in triggers {
        var i :| 0 <= i < |triggers| && triggers[i] == m;
        assert i < last ==> triggers[i] < triggers[last];
        ChainFires(s, start, triggers, m);
      }
    }
  }

  lemma {:induction false} ChainFires(s: Schedule, start: nat, triggers: seq<nat>, m: nat)
    requires Chain(s, start, triggers) && m in triggers
    ensures Fires(s, m)
    decreases |triggers|
  {
    hide Fires;
    if m != triggers[0] {
      assert triggers == [triggers[0]] + triggers[1..];
      ChainFires(s, triggers[0], triggers[1..], m);
    }
  }

  // --- a year is not always 525600 minutes ---

  const EVERY_DAY: set<int> := {0, 1, 2, 3, 4, 5, 6}

  /** Midnight of one day of the year, whatever day of the week: `0 0 d m *`. */
  function OnceAYear(m: int, d: int): Schedule {
    Schedule({0}, {0}, {d}, {m}, EVERY_DAY)
  }

  function Midnight(y: int, m: int, d: int): DateTime {
    DateTime(Date(y, m, d), 0, 0)
  }

  lemma AnyWeekday(d: Date)
    requires d.month >= 1
    ensures CronDow(d) in EVERY_DAY
  {
    hide Weekday;
    var w := CronDow(d);
    assert 0 <= w < 7;
  }

  lemma MidnightFires(y: int, m: int, d: int)
    requires ValidDate(Date(y, m, d))
    ensures MinuteOf(Midnight(y, m, d)) == (Ordinal(Date(y, m, d)) - 1) * 1440 >= 0
    ensures Fires(OnceAYear(m, d), MinuteOf(Midnight(y, m, d)))
  {
    hide DateOf, CronDow, Ordinal;
    MinuteIsAt(Midnight(y, m, d));
    AnyWeekday(Date(y, m, d));
  }

  /** It fires at no other time than the midnights of that day. */
  lemma FiresAtMidnight(m: int, d: int, k: nat) returns (z: int)
    requires Fires(OnceAYear(m, d), k)
    ensures ValidDate(Date(z, m, d)) && k == MinuteOf(Midnight(z, m, d))
  {
    hide At, MinuteOf, CronDow;
    AtIsMinute(k);
    z := At(k).date.year;
    assert At(k) == Midnight(z, m, d);
  }

  /** Later years' midnights are later. */
  lemma MidnightsInOrder(y: int, z: int, m: int, d: int)
    requires ValidDate(Date(y, m, d)) && ValidDate(Date(z, m, d))
    ensures MinuteOf(Midnight(y, m, d)) < MinuteOf(Midnight(z, m, d)) <==> y < z
  {
    hide Ordinal, ValidDate;
    OrdinalOrders(Date(y, m, d), Date(z, m, d));
  }

  /** A day that every year has. */
  predicate EveryYearHas(m: int, d: int) {
    1 <= m <= 12 && 1 <= d <= DaysInMonth(1, m)
  }

  lemma HadEveryYear(y: int, m: int, d: int)
    requires y >= 1 && EveryYearHas(m, d)
    ensures ValidDate(Date(y, m, d))
  {
  }

  /** The leap day before a month of one year but not of the other. */
  lemma {:induction false} LeapDayBefore(y: int, m: nat)
    requires 1 <= m <= 12
    ensures DaysBeforeMonth(y + 1, m) - DaysBeforeMonth(y, m) ==
            if m <= 2 then 0 else (if Leap(y + 1) then 1 else 0) - (if Leap(y) then 1 else 0)
  {
    hide Leap;
    if m > 1 {
      LeapDayBefore(y, m - 1);
    }
  }

  /** The next leap day after a date of year `y` comes within a year. */
  predicate LeapDayAhead(y: int, m: int) {
    if m <= 2 then Leap(y) else Leap(y + 1)
  }

  lemma YearsApart(y: int, m: int, d: int)
    requires 1 <= m <= 12
    ensures Ordinal(Date(y + 1, m, d)) - Ordinal(Date(y, m, d)) == if LeapDayAhead(y, m) then 366 else 365
  {
    hide Leap, DaysBeforeYear, DaysBeforeMonth;
    YearLength(y);
    LeapDayBefore(y, m);
  }

  lemma NextMidnight(y: int, m: int, d: int)
    requires y >= 1 && EveryYearHas(m, d)
    ensures 0 <= MinuteOf(Midnight(y, m, d))
    ensures MinuteOf(Midnight(y + 1, m, d)) ==
            MinuteOf(Midnight(y, m, d)) + LOOK_AHEAD + (if LeapDayAhead(y, m) then 1440 else 0)
  {
    hide Ordinal, LeapDayAhead, ValidDate;
    HadEveryYear(y, m, d);
    HadEveryYear(y + 1, m, d);
    MidnightFires(y, m, d);
    MidnightFires(y + 1, m, d);
    YearsApart(y, m, d);
  }

  lemma FirstAfterMidnight(y: int, m: int, d: int, k: nat)
    requires y >= 1 && EveryYearHas(m, d)
    ensures Fires(OnceAYear(m, d), k) && k > MinuteOf(Midnight(y, m, d)) ==> k >= MinuteOf(Midnight(y + 1, m, d))
  {
    hide Ordinal, MinuteOf, Fires, ValidDate;
    HadEveryYear(y, m, d);
    HadEveryYear(y + 1, m, d);
    if Fires(OnceAYear(m, d), k) {
      var z := FiresAtMidnight(m, d, k);
      MidnightsInOrder(y, z, m, d);
      MidnightsInOrder(z, y + 1, m, d);
    }
  }

  /**
   For every day that each year has and every start after its trigger in some
   year: the search fails exactly if a leap day lies ahead of that trigger and
   the start is within a day of it; else it finds the next year's trigger.
   */
  lemma YearlySearch(y: int, m: int, d: int, start: nat)
    requires y >= 1 && EveryYearHas(m, d)
    requires MinuteOf(Midnight(y, m, d)) <= start < MinuteOf(Midnight(y + 1, m, d))
    ensures NoNext(OnceAYear(m, d), start) <==> LeapDayAhead(y, m) && start < MinuteOf(Midnight(y, m, d)) + 1440
    ensures !NoNext(OnceAYear(m, d), start) <==> IsNext(OnceAYear(m, d), start, MinuteOf(Midnight(y + 1, m, d)))
  {
    hide Fires, MinuteOf, LeapDayAhead, ValidDate, Ordinal;
    var next := MinuteOf(Midnight(y + 1, m, d));
    NextMidnight(y, m, d);
    HadEveryYear(y + 1, m, d);
    MidnightFires(y + 1, m, d);
    forall k: nat | start < k && Fires(OnceAYear(m, d), k) ensures k >= next {
      FirstAfterMidnight(y, m, d, k);
    }
  }

  /** From its own trigger a yearly schedule's search fails exactly if a leap day lies ahead. */
  lemma YearlyFailsBeforeLeapDays(y: int, m: int, d: int)
    requires y >= 1 && EveryYearHas(m, d)
    ensures MinuteOf(Midnight(y, m, d)) >= 0
    ensures NoNext(OnceAYear(m, d), MinuteOf(Midnight(y, m, d))) <==> if m <= 2 then Leap(y) else Leap(y + 1)
  {
    hide Fires, MinuteOf, ValidDate, Ordinal, NoNext, Leap;
    NextMidnight(y, m, d);
    YearlySearch(y, m, d, MinuteOf(Midnight(y, m, d)));
  }

  /** Midnight of New Year's Day: `0 0 1 1 *`. */
  const YEARLY := OnceAYear(1, 1)

  /** From one New Year the search for the next fails exactly in leap years. */
  lemma YearlyFailsInLeapYears(y: int)
    requires y >= 1
    ensures MinuteOf(Midnight(y, 1, 1)) >= 0
    ensures NoNext(YEARLY, MinuteOf(Midnight(y, 1, 1))) <==> Leap(y)
  {
    hide Fires, MinuteOf, ValidDate, Ordinal, NoNext, Leap;
    YearlyFailsBeforeLeapDays(y, 1, 1);
  }

  /** A leap day's own schedule never finds the next leap day. */
  lemma LeapDayAlwaysFails(y: int)
    requires y >= 1 && Leap(y)
    ensures MinuteOf(Midnight(y, 2, 29)) >= 0
    ensures NoNext(OnceAYear(2, 29), MinuteOf(Midnight(y, 2, 29)))
  {
    hide Fires, MinuteOf, Ordinal;
    MidnightFires(y, 2, 29);
    var start := MinuteOf(Midnight(y, 2, 29));
    forall k: nat | start < k && Fires(OnceAYear(2, 29), k) ensures k > start + LOOK_AHEAD {
      var z := FiresAtMidnight(2, 29, k);
      MidnightsInOrder(y, z, 2, 29);
      LeapYearsApart(y, z);
      MidnightFires(z, 2, 29);
    }
  }

  lemma LeapYearsApart(y: int, z: int)
    ensures Leap(y) && Leap(z) && y < z ==> Ordinal(Date(z, 2, 29)) > Ordinal(Date(y, 2, 29)) + 365
  {
    if Leap(y) && Leap(z) && y < z {
      hide DaysBeforeYear;
      NoLeapYearsInARow(y);
      YearLength(y);
      YearsGrow(y + 1, z);
      SameFebruary(y, z);
    }
  }

  lemma SameFebruary(y: int, z: int)
    ensures DaysBeforeMonth(y, 2) == DaysBeforeMonth(z, 2)
  {
    assert DaysBeforeMonth(y, 2) == 31 && DaysBeforeMonth(z, 2) == 31;
  }

  lemma NoLeapYearsInARow(y: int)
    requires Leap(y)
    ensures !Leap(y + 1)
  {
  }

  /** A day that no year has, such as 31 April, is accepted and every search for it fails. */
  lemma ImpossibleDayAlwaysFails(m: int, d: int, start: nat)
    requires forall y :: !ValidDate(Date(y, m, d))
    ensures NoNext(OnceAYear(m, d), start)
  {
    hide Fires, ValidDate;
    forall k: nat | Fires(OnceAYear(m, d), k) ensures false {
      var z := FiresAtMidnight(m, d, k);
    }
  }
}
