/** The week-of-month loops of lib_src/com/dap_time.c: fcom_GetDayOfMonth walks back to the 1st,
    fcom_GetWeekOfMonth finds the first Sunday and steps a week at a time. Weekdays count from
    0 = Sunday. */
module MonthWeeks {
  import opened Calendar

  /** The weekday of day `d` in a month whose 1st is weekday `first`. */
  function Weekday(first: nat, d: int): int {
    (first + d - 1) % 7
  }

  /** The number of Sundays among days 1 to `d`. */
  function Sundays(first: nat, d: int): nat
    decreases if d < 0 then 0 else d
  {
    if d <= 0 then 0 else Sundays(first, d - 1) + (if Weekday(first, d) == 0 then 1 else 0)
  }

  /** fcom_GetDayOfMonth: the weekday of the 1st. */
  method GetDayOfMonth(wday: nat, mday: nat) returns (dayofweek: nat)
    requires wday <= 6 && 1 <= mday <= 65535
    ensures dayofweek <= 6 && dayofweek == (wday - (mday - 1)) % 7
    ensures Weekday(dayofweek, mday) == wday
  {
    dayofweek := wday;
    var day := mday;
    while day > 1
      invariant 1 <= day <= mday && dayofweek <= 6
      invariant (dayofweek + (mday - day)) % 7 == wday
    {
      StepBack(dayofweek, mday - day);
      day := day - 1;
      if dayofweek == 0 {
        dayofweek := 6;
      } else {
        dayofweek := dayofweek - 1;
      }
    }
    WeekdayBack(dayofweek, mday - 1, wday);
  }

  lemma StepBack(dayofweek: nat, k: nat)
    ensures ((if dayofweek == 0 then 6 else dayofweek - 1) + (k + 1)) % 7 == (dayofweek + k) % 7
  {
    assert (k + 7) % 7 == k % 7;
  }

  lemma WeekdayBack(first: nat, k: nat, wday: nat)
    requires first <= 6 && wday <= 6 && (first + k) % 7 == wday
    ensures first == (wday - k) % 7
  {
    var q := (first + k) / 7;
    assert wday - k == first - 7 * q;
  }

  lemma WeekdaysAfter(first: nat, s: int, k: nat)
    requires Weekday(first, s) == 0 && k <= 7
    ensures Weekday(first, s + k) == k % 7
  {
    var x := first + s - 1;
    assert x == 7 * (x / 7);
    assert (7 * (x / 7) + k) % 7 == k % 7;
  }

  /** The six days after a Sunday add no Sunday. */
  lemma {:induction false} NoSundayAfter(first: nat, s: int, d: int)
    requires 1 <= s <= d < s + 7 && Weekday(first, s) == 0
    ensures Sundays(first, d) == Sundays(first, s)
    decreases d - s
  {
    if d > s {
      WeekdaysAfter(first, s, d - s);
      NoSundayAfter(first, s, d - 1);
    }
  }

  /** A week starting on a Sunday holds one Sunday, and the next one follows it. */
  lemma WeekHoldsOne(first: nat, s: int, mday: int)
    requires 1 <= s <= mday && Weekday(first, s) == 0
    ensures Weekday(first, s + 7) == 0 && Sundays(first, s + 6) == Sundays(first, s - 1) + 1
    ensures mday < s + 7 ==> Sundays(first, mday) == Sundays(first, s + 6)
  {
    WeekdaysAfter(first, s, 7);
    NoSundayAfter(first, s, s + 6);
    if mday < s + 7 {
      NoSundayAfter(first, s, mday);
    }
  }

  /** The search for the first Sunday of the month. */
  method FirstSunday(first: nat) returns (day: nat)
    requires first <= 6
    ensures 1 <= day <= 7 && Weekday(first, day) == 0
    ensures forall e :: 0 <= e < day ==> Sundays(first, e) == 0
  {
    day := 1;
    var dayofweek := first;
    while dayofweek != 0
      invariant dayofweek <= 6 && 1 <= day && dayofweek == Weekday(first, day)
      invariant dayofweek == 0 || day + 7 - dayofweek <= 7
      invariant day <= 7 && forall e :: 0 <= e < day ==> Sundays(first, e) == 0
      decreases if dayofweek == 0 then 0 else 7 - dayofweek
    {
      day := day + 1;
      if dayofweek == 6 {
        dayofweek := 0;
      } else {
        dayofweek := dayofweek + 1;
      }
    }
  }

  /** The number of Sundays without counting them. */
  lemma {:induction false} SundaysClosed(first: nat, d: nat)
    ensures Sundays(first, d) == (first + d - 1) / 7 - (first - 1) / 7
    decreases d
  {
    if d > 0 {
      SevenSteps(first + d - 1);
      SundaysClosed(first, d - 1);
    }
  }

  lemma SevenSteps(x: int)
    ensures x / 7 == (x - 1) / 7 + (if x % 7 == 0 then 1 else 0)
  {
  }

  /** fcom_GetWeekOfMonth: one more than the number of Sundays up to and including the day. */
  method GetWeekOfMonth(wday: nat, mday: nat) returns (week: nat)
    requires wday <= 6 && 1 <= mday <= 65528
    ensures week == 1 + Sundays((wday - (mday - 1)) % 7, mday)
    ensures var first := (wday - (mday - 1)) % 7;
            week == 1 + (first + mday - 1) / 7 + (if first == 0 then 1 else 0)
  {
    SundaysClosed((wday - (mday - 1)) % 7, mday);
    var first := GetDayOfMonth(wday, mday);
    var firstSunday := FirstSunday(first);
    week := 1;
    var day := firstSunday;
    while day <= mday
      invariant 1 <= day && Weekday(first, day) == 0 && week == 1 + Sundays(first, day - 1)
      invariant mday < day ==> Sundays(first, mday) == Sundays(first, day - 1)
      decreases mday + 7 - day
    {
      WeekHoldsOne(first, day, mday);
      day := day + 7;
      week := week + 1;
    }
  }

  // ---------------------------------------------------------------- with the calendar

  /** For the weekday the calendar gives a date, the walk back ends on the calendar's weekday of the 1st. */
  lemma FirstIsCalendarFirst(d: ValidDate)
    ensures (DayNumber(d) % 7 - (d.day - 1)) % 7 == DayNumber(d.(day := 1)) % 7
  {
    assert DayNumber(d.(day := 1)) == DayNumber(d) - (d.day - 1);
    ModAdd(DayNumber(d), -(d.day - 1));
  }

  lemma NextSunday(n: int, k: nat)
    ensures Sundays(n % 7, k + 1) == Sundays(n % 7, k) + (if (n + k) % 7 == 0 then 1 else 0)
  {
    ModAdd(n, k);
  }

  /** Within a month the week number steps exactly when the next day is a Sunday. */
  lemma WeekStepsOnSundays(d: ValidDate)
    requires Valid(d.(day := d.day + 1))
    ensures var first, next := DayNumber(d.(day := 1)) % 7, d.(day := d.day + 1);
            Sundays(first, next.day) == Sundays(first, d.day) + (if DayNumber(next) % 7 == 0 then 1 else 0)
  {
    NextSunday(DayNumber(d.(day := 1)), d.day);
  }

  lemma ModAdd(n: int, k: int)
    ensures (n % 7 + k) % 7 == (n + k) % 7
  {
    assert n % 7 + k == n + k - 7 * (n / 7);
    assert (n + k - 7 * (n / 7)) % 7 == (n + k) % 7;
  }
}
