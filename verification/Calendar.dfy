/** An idealised proleptic Gregorian calendar: the local calendar date that a
    JavaScript `Date` reports through `getFullYear`, `getMonth() + 1` and
    `getDate`, without time of day, time zone or daylight saving. */
module Calendar {

  /** A calendar date; `month` counts from 1 as `getMonth() + 1` does. */
  datatype Date = Date(year: int, month: int, day: int)

  predicate IsLeapYear(y: int) {
    (y % 4 == 0 && y % 100 != 0) || y % 400 == 0
  }

  function DaysInMonth(y: int, m: int): (n: int)
    requires 1 <= m <= 12
    ensures 28 <= n <= 31
    ensures n == 29 <==> m == 2 && IsLeapYear(y)
    ensures n == 28 <==> m == 2 && !IsLeapYear(y)
  {
    if m == 2 then (if IsLeapYear(y) then 29 else 28)
    else if m == 4 || m == 6 || m == 9 || m == 11 then 30
    else 31
  }

  predicate Valid(d: Date) {
    1 <= d.month <= 12 && 1 <= d.day <= DaysInMonth(d.year, d.month)
  }

  /** Strictly earlier in the calendar. */
  predicate Before(a: Date, b: Date) {
    a.year < b.year
    || (a.year == b.year && a.month < b.month)
    || (a.year == b.year && a.month == b.month && a.day < b.day)
  }

  /** The first and last days a JavaScript `Date` can hold: its time value
      ranges over 8.64e15 milliseconds either side of 1 January 1970. */
  const JsFirstDay := Date(-271821, 4, 20)
  const JsLastDay := Date(275760, 9, 13)

  /** Within the range of a JavaScript `Date`, both end days included. */
  predicate InJsRange(d: Date) {
    !Before(d, JsFirstDay) && !Before(JsLastDay, d)
  }

  /** The previous calendar day: what `setDate(getDate() - 1)` yields. */
  function Pred(d: Date): (p: Date)
    requires Valid(d)
    ensures Valid(p)
    ensures Before(p, d)
  {
    if d.day > 1 then Date(d.year, d.month, d.day - 1)
    else if d.month > 1 then Date(d.year, d.month - 1, DaysInMonth(d.year, d.month - 1))
    else Date(d.year - 1, 12, 31)
  }

  /** The next calendar day. */
  function Succ(d: Date): (s: Date)
    requires Valid(d)
    ensures Valid(s)
    ensures Before(d, s)
  {
    if d.day < DaysInMonth(d.year, d.month) then Date(d.year, d.month, d.day + 1)
    else if d.month < 12 then Date(d.year, d.month + 1, 1)
    else Date(d.year + 1, 1, 1)
  }

  /** Going back a day and then forward a day returns to the same date. */
  lemma SuccOfPred(d: Date)
    requires Valid(d)
    ensures Succ(Pred(d)) == d
  {
  }

  /** Going forward a day and then back a day returns to the same date. */
  lemma PredOfSucc(d: Date)
    requires Valid(d)
    ensures Pred(Succ(d)) == d
  {
  }

  /** The date `k` calendar days before `d`. */
  function DaysBefore(d: Date, k: nat): (r: Date)
    requires Valid(d)
    ensures Valid(r)
    ensures k > 0 ==> Before(r, d)
  {
    if k == 0 then d else Pred(DaysBefore(d, k - 1))
  }

  /** Each step back is exactly one day: `DaysBefore(d, k + 1)` is the
      predecessor of `DaysBefore(d, k)`, and the latter its successor. */
  lemma DaysBeforeStep(d: Date, k: nat)
    requires Valid(d)
    ensures DaysBefore(d, k + 1) == Pred(DaysBefore(d, k))
    ensures Succ(DaysBefore(d, k + 1)) == DaysBefore(d, k)
  {
    SuccOfPred(DaysBefore(d, k));
  }

  lemma BeforeTransitive(a: Date, b: Date, c: Date)
    requires Before(a, b) && Before(b, c)
    ensures Before(a, c)
  {
  }

  /** Going further back gives a strictly earlier date. */
  lemma {:induction false} DaysBeforeDescending(d: Date, i: nat, j: nat)
    requires Valid(d) && i < j
    ensures Before(DaysBefore(d, j), DaysBefore(d, i))
    decreases j
  {
    if i < j - 1 {
      DaysBeforeDescending(d, i, j - 1);
      BeforeTransitive(DaysBefore(d, j), DaysBefore(d, j - 1), DaysBefore(d, i));
    }
  }

  function DaysInYear(y: int): int {
    if IsLeapYear(y) then 366 else 365
  }

  /** Days of the months of year `y` that come before month `m`. */
  function DaysBeforeMonth(y: int, m: int): (n: int)
    requires 1 <= m <= 12
    ensures m == 1 ==> n == 0
    ensures m > 1 ==> n >= 28
  {
    if m == 1 then 0 else DaysBeforeMonth(y, m - 1) + DaysInMonth(y, m - 1)
  }

  lemma YearLength(y: int)
    ensures DaysBeforeMonth(y, 12) + 31 == DaysInYear(y)
  {
    assert DaysBeforeMonth(y, 2) == 31;
    assert DaysBeforeMonth(y, 3) == 31 + DaysInMonth(y, 2);
    assert DaysBeforeMonth(y, 4) == DaysBeforeMonth(y, 3) + 31;
    assert DaysBeforeMonth(y, 5) == DaysBeforeMonth(y, 3) + 61;
    assert DaysBeforeMonth(y, 6) == DaysBeforeMonth(y, 3) + 92;
    assert DaysBeforeMonth(y, 7) == DaysBeforeMonth(y, 3) + 122;
    assert DaysBeforeMonth(y, 8) == DaysBeforeMonth(y, 3) + 153;
    assert DaysBeforeMonth(y, 9) == DaysBeforeMonth(y, 3) + 184;
    assert DaysBeforeMonth(y, 10) == DaysBeforeMonth(y, 3) + 214;
    assert DaysBeforeMonth(y, 11) == DaysBeforeMonth(y, 3) + 245;
    assert DaysBeforeMonth(y, 12) == DaysBeforeMonth(y, 3) + 275;
  }

  /** The ordinal of a date within its year, 1 for the first of January. */
  function DayOfYear(d: Date): (n: int)
    requires Valid(d)
    ensures 1 <= n <= DaysInYear(d.year)
    ensures n == 1 <==> d.month == 1 && d.day == 1
  {
    YearLength(d.year);
    MonthsFitYear(d.year, d.month);
    DaysBeforeMonth(d.year, d.month) + d.day
  }

  lemma {:induction false} MonthsFitYear(y: int, m: int)
    requires 1 <= m <= 12
    ensures DaysBeforeMonth(y, m) + DaysInMonth(y, m) <= DaysBeforeMonth(y, 12) + 31
    decreases 12 - m
  {
    if m < 12 {
      MonthsFitYear(y, m + 1);
    }
  }

  /** The predecessor either stays in the year one ordinal lower, or, from the
      first of January, is the last day of the previous year. */
  lemma PredDayOfYear(d: Date)
    requires Valid(d)
    ensures DayOfYear(d) > 1 ==> Pred(d).year == d.year && DayOfYear(Pred(d)) == DayOfYear(d) - 1
    ensures DayOfYear(d) == 1 ==> Pred(d).year == d.year - 1 && DayOfYear(Pred(d)) == DaysInYear(d.year - 1)
  {
    YearLength(d.year - 1);
  }

  /** Within fewer than 365 steps back a date stays in its own year while the
      step count is below its ordinal, and otherwise lands in the previous year
      at the ordinal that remains. */
  lemma {:induction false} DaysBeforeWithinYear(d: Date, k: nat)
    requires Valid(d) && k < 365
    ensures k < DayOfYear(d) ==>
      DaysBefore(d, k).year == d.year && DayOfYear(DaysBefore(d, k)) == DayOfYear(d) - k
    ensures k >= DayOfYear(d) ==>
      DaysBefore(d, k).year == d.year - 1
      && DayOfYear(DaysBefore(d, k)) == DaysInYear(d.year - 1) + DayOfYear(d) - k
  {
    if k > 0 {
      DaysBeforeWithinYear(d, k - 1);
      PredDayOfYear(DaysBefore(d, k - 1));
    }
  }

  /** Two dates of a window of fewer than 365 days are different, and at most
      one year boundary lies between them. */
  lemma WindowSpan(d: Date, i: nat, j: nat)
    requires Valid(d) && i < j < 365
    ensures DaysBefore(d, i) != DaysBefore(d, j)
    ensures DaysBefore(d, j).year <= DaysBefore(d, i).year <= DaysBefore(d, j).year + 1
  {
    DaysBeforeWithinYear(d, i);
    DaysBeforeWithinYear(d, j);
  }
}
