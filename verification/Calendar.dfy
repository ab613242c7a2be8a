/**
 The proleptic Gregorian calendar as Python's datetime uses it: days numbered
 from 1 January of year 1, minutes from its midnight.
 */
module Calendar {

  datatype Date = Date(year: int, month: int, day: int)

  datatype DateTime = DateTime(date: Date, hour: int, minute: int)

  predicate Leap(y: int) {
    y % 4 == 0 && (y % 100 != 0 || y % 400 == 0)
  }

  function DaysInMonth(y: int, m: int): (d: int)
    ensures 28 <= d <= 31
  {
    if m == 2 then (if Leap(y) then 29 else 28)
    else if m == 4 || m == 6 || m == 9 || m == 11 then 30
    else 31
  }

  predicate ValidDate(d: Date) {
    d.year >= 1 && 1 <= d.month <= 12 && 1 <= d.day <= DaysInMonth(d.year, d.month)
  }

  predicate ValidTime(t: DateTime) {
    ValidDate(t.date) && 0 <= t.hour < 24 && 0 <= t.minute < 60
  }

  // --- counting days ---

  function DaysBeforeYear(y: int): int {
    (y - 1) * 365 + (y - 1) / 4 - (y - 1) / 100 + (y - 1) / 400
  }

  function DaysBeforeMonth(y: int, m: nat): (d: int)
    ensures d >= 0
  {
    if m <= 1 then 0 else DaysBeforeMonth(y, m - 1) + DaysInMonth(y, m - 1)
  }

  /** The number of a day, in closed form. */
  function Ordinal(d: Date): int
    requires d.month >= 1
  {
    DaysBeforeYear(d.year) + DaysBeforeMonth(d.year, d.month) + d.day
  }

  /** Monday is 0. */
  function Weekday(d: Date): int
    requires d.month >= 1
  {
    (Ordinal(d) + 6) % 7
  }

  lemma YearLength(y: int)
    ensures DaysBeforeYear(y + 1) == DaysBeforeYear(y) + (if Leap(y) then 366 else 365)
  {
    By4(y);
    By100(y);
    By400(y);
    Multiples(y);
  }

  lemma By4(y: int)
    ensures y / 4 == (y - 1) / 4 + (if y % 4 == 0 then 1 else 0)
  {
    var q, r := (y - 1) / 4, (y - 1) % 4;
    assert y == if r == 3 then 4 * (q + 1) else 4 * q + (r + 1);
  }

  lemma By100(y: int)
    ensures y / 100 == (y - 1) / 100 + (if y % 100 == 0 then 1 else 0)
  {
    var q, r := (y - 1) / 100, (y - 1) % 100;
    assert y == if r == 99 then 100 * (q + 1) else 100 * q + (r + 1);
  }

  lemma By400(y: int)
    ensures y / 400 == (y - 1) / 400 + (if y % 400 == 0 then 1 else 0)
  {
    var q, r := (y - 1) / 400, (y - 1) % 400;
    assert y == if r == 399 then 400 * (q + 1) else 400 * q + (r + 1);
  }

  lemma FourTimes(n: int)
    ensures 4 * n % 4 == 0
  {
  }

  lemma HundredTimes(n: int)
    ensures 100 * n % 100 == 0
  {
  }

  lemma Multiples(y: int)
    ensures y % 400 == 0 ==> y % 100 == 0
    ensures y % 100 == 0 ==> y % 4 == 0
  {
    HundredTimes(4 * (y / 400));
    FourTimes(25 * (y / 100));
    assert y == 400 * (y / 400) + y % 400 && y == 100 * (y / 100) + y % 100;
  }

  lemma MonthsOfAYear(y: int)
    ensures DaysBeforeMonth(y, 12) + 31 == (if Leap(y) then 366 else 365)
  {
    assert DaysBeforeMonth(y, 2) == 31;
    assert DaysBeforeMonth(y, 3) == 31 + DaysInMonth(y, 2);
    assert DaysBeforeMonth(y, 4) == DaysBeforeMonth(y, 3) + 31;
    assert DaysBeforeMonth(y, 5) == DaysBeforeMonth(y, 3) + 61;
    assert DaysBeforeMonth(y, 6) == DaysBeforeMonth(y, 3) + 92;
    assert DaysBeforeMonth(y, 7) == DaysBeforeMonth(y, 3) + 122;
    assert DaysBeforeMonth(y, 8) == DaysBeforeMonth(y, 3) + 153;
    assert DaysBeforeMonth(y, 9) == DaysBeforeMonth(y, 3) + 184;
    assert DaysBeforeMonth(y, 10) == DaysBeforeMonth(y, 3) + 214;
    assert DaysBeforeMonth(y, 11) == DaysBeforeMonth(y, 3) + 245;
    assert DaysBeforeMonth(y, 12) == DaysBeforeMonth(y, 3) + 275;
  }

  // --- the next day and the next minute ---

  function NextDay(d: Date): Date {
    if d.day < DaysInMonth(d.year, d.month) then d.(day := d.day + 1)
    else if d.month < 12 then Date(d.year, d.month + 1, 1)
    else Date(d.year + 1, 1, 1)
  }

  function NextMinute(t: DateTime): DateTime {
    if t.minute < 59 then t.(minute := t.minute + 1)
    else if t.hour < 23 then DateTime(t.date, t.hour + 1, 0)
    else DateTime(NextDay(t.date), 0, 0)
  }

  lemma NextDayIsNext(d: Date)
    requires ValidDate(d)
    ensures ValidDate(NextDay(d)) && Ordinal(NextDay(d)) == Ordinal(d) + 1
  {
    if d.day == DaysInMonth(d.year, d.month) && d.month == 12 {
      YearLength(d.year);
      MonthsOfAYear(d.year);
    }
  }

  /** The day after `n` days have passed since the first. */
  function DateOf(n: nat): Date {
    if n == 0 then Date(1, 1, 1) else NextDay(DateOf(n - 1))
  }

  lemma FirstDay()
    ensures ValidDate(Date(1, 1, 1)) && Ordinal(Date(1, 1, 1)) == 1
  {
  }

  /** Stepping day by day agrees with the closed form. */
  lemma {:induction false} OrdinalOfDateOf(n: nat)
    ensures ValidDate(DateOf(n)) && Ordinal(DateOf(n)) == n + 1
  {
    hide Ordinal, ValidDate, NextDay;
    if n == 0 {
      FirstDay();
    } else {
      OrdinalOfDateOf(n - 1);
      NextDayIsNext(DateOf(n - 1));
    }
  }

  /** The wall clock at a minute. */
  function At(t: nat): DateTime {
    DateTime(DateOf(t / 1440), t % 1440 / 60, t % 60)
  }

  /** The number of the minute a wall clock shows. */
  function MinuteOf(t: DateTime): int
    requires t.date.month >= 1
  {
    (Ordinal(t.date) - 1) * 1440 + t.hour * 60 + t.minute
  }

  lemma AtIsMinute(t: nat)
    ensures ValidTime(At(t)) && MinuteOf(At(t)) == t
  {
    hide Ordinal, DateOf;
    Parts(t);
    OrdinalOfDateOf(t / 1440);
  }

  lemma Parts(t: nat)
    ensures 0 <= t % 1440 / 60 < 24 && t == t / 1440 * 1440 + t % 1440 / 60 * 60 + t % 60
  {
    var q, r := t / 1440, t % 1440;
    var h, m := r / 60, r % 60;
    assert t == q * 1440 + r && r == h * 60 + m;
    Divide60(24 * q + h, m);
    assert t == 60 * (24 * q + h) + m;
  }

  /** Adding a minute to the wall clock moves to the next minute. */
  lemma NextMinuteIsNext(t: nat)
    ensures NextMinute(At(t)) == At(t + 1)
  {
    hide NextDay;
    var day, hour, minute := t / 1440, t % 1440 / 60, t % 60;
    Parts(t);
    if minute < 59 {
      Decompose(t + 1, day, hour, minute + 1);
    } else if hour < 23 {
      Decompose(t + 1, day, hour + 1, 0);
    } else {
      Decompose(t + 1, day + 1, 0, 0);
    }
  }

  lemma Divide1440(q: nat, r: nat)
    requires r < 1440
    ensures (1440 * q + r) / 1440 == q && (1440 * q + r) % 1440 == r
  {
  }

  lemma Divide60(q: nat, r: nat)
    requires r < 60
    ensures (60 * q + r) / 60 == q && (60 * q + r) % 60 == r
  {
  }

  lemma Decompose(t: nat, day: nat, hour: nat, minute: nat)
    requires t == day * 1440 + hour * 60 + minute && hour < 24 && minute < 60
    ensures t / 1440 == day && t % 1440 / 60 == hour && t % 60 == minute
  {
    Divide1440(day, 60 * hour + minute);
    Divide60(hour, minute);
    Divide60(24 * day + hour, minute);
    assert t == 1440 * day + (60 * hour + minute);
    assert t == 60 * (24 * day + hour) + minute;
  }

  // --- the closed form tells days apart ---

  lemma {:induction false} YearsGrow(y: int, z: int)
    requires y <= z
    ensures DaysBeforeYear(y) + 365 * (z - y) <= DaysBeforeYear(z)
    decreases z - y
  {
    if y < z {
      YearsGrow(y, z - 1);
      YearLength(z - 1);
    }
  }

  lemma {:induction false} MonthsGrow(y: int, m: nat, n: nat)
    requires 1 <= m < n
    ensures DaysBeforeMonth(y, m) + DaysInMonth(y, m) <= DaysBeforeMonth(y, n)
  {
    if m < n - 1 {
      MonthsGrow(y, m, n - 1);
    }
  }

  /** Days of a year lie between its ends. */
  lemma WithinYear(d: Date)
    requires ValidDate(d)
    ensures DaysBeforeYear(d.year) < Ordinal(d) <= DaysBeforeYear(d.year + 1)
  {
    YearLength(d.year);
    MonthsOfAYear(d.year);
    if d.month < 12 {
      MonthsGrow(d.year, d.month, 12);
    }
  }

  /** The ordinal orders dates by year, then month, then day; so equal ordinals are equal dates. */
  lemma OrdinalOrders(a: Date, b: Date)
    requires ValidDate(a) && ValidDate(b)
    ensures Ordinal(a) < Ordinal(b) <==>
            a.year < b.year || (a.year == b.year && (a.month < b.month || (a.month == b.month && a.day < b.day)))
    ensures Ordinal(a) == Ordinal(b) ==> a == b
  {
    WithinYear(a);
    WithinYear(b);
    if a.year < b.year {
      YearsGrow(a.year + 1, b.year);
    } else if b.year < a.year {
      YearsGrow(b.year + 1, a.year);
    } else if a.month < b.month {
      MonthsGrow(a.year, a.month, b.month);
    } else if b.month < a.month {
      MonthsGrow(a.year, b.month, a.month);
    }
  }

  /** Every valid time is the wall clock at its minute. */
  lemma MinuteIsAt(t: DateTime)
    requires ValidTime(t)
    ensures MinuteOf(t) >= 0 && At(MinuteOf(t)) == t
  {
    YearsGrow(1, t.date.year);
    var n := Ordinal(t.date) - 1;
    Decompose(MinuteOf(t), n, t.hour, t.minute);
    OrdinalOfDateOf(n);
    OrdinalOrders(DateOf(n), t.date);
  }
}
