/** The proleptic Gregorian calendar on day numbers (day 0 is 1970-01-01),
    as far as the calendar feature columns need it: the month, the day of the
    year and the weekday with Monday = 0, which is what a pandas
    `DatetimeIndex` reports as `.month`, `.dayofyear` and `.weekday`. */
module Calendar {

  predicate IsLeapYear(y: int) {
    (y % 4 == 0 && y % 100 != 0) || y % 400 == 0
  }

  function YearLength(y: int): (n: nat)
    ensures n == 365 || n == 366
  {
    if IsLeapYear(y) then 366 else 365
  }

  function DaysInMonth(y: int, m: int): (n: nat)
    requires 1 <= m <= 12
    ensures 28 <= n <= 31
  {
    if m == 2 then (if IsLeapYear(y) then 29 else 28)
    else if m == 4 || m == 6 || m == 9 || m == 11 then 30
    else 31
  }

  /** Walks forward from January 1st of year `y`, `z` days ahead. */
  function YearForward(y: int, z: nat): (r: (int, nat))
    ensures r.0 >= y && r.1 < YearLength(r.0)
    decreases z
  {
    if z < YearLength(y) then (y, z) else YearForward(y + 1, z - YearLength(y))
  }

  /** Walks back from January 1st of year `y`, `-z` days before it. */
  function YearBackward(y: int, z: int): (r: (int, nat))
    requires z < 0
    ensures r.0 < y && r.1 < YearLength(r.0)
    decreases -z
  {
    var z' := z + YearLength(y - 1);
    if z' >= 0 then (y - 1, z') else YearBackward(y - 1, z')
  }

  /** The year of day `z` and the number of days since January 1st of it. */
  function YearAndOffset(z: int): (r: (int, nat))
    ensures r.1 < YearLength(r.0)
    ensures z >= 0 ==> r.0 >= 1970
    ensures z < 0 ==> r.0 < 1970
  {
    if z >= 0 then YearForward(1970, z) else YearBackward(1970, z)
  }

  function MonthFrom(y: int, offset: int, m: int): (r: int)
    requires 1 <= m <= 12
    ensures m <= r <= 12
    decreases 12 - m
  {
    if m == 12 || offset < DaysInMonth(y, m) then m
    else MonthFrom(y, offset - DaysInMonth(y, m), m + 1)
  }

  /** pandas `.month`. */
  function Month(z: int): (m: int)
    ensures 1 <= m <= 12
  {
    var (y, offset) := YearAndOffset(z);
    MonthFrom(y, offset, 1)
  }

  /** pandas `.dayofyear`: January 1st is 1. */
  function DayOfYear(z: int): (d: int)
    ensures 1 <= d <= 366
  {
    YearAndOffset(z).1 + 1
  }

  /** pandas `.weekday`: Monday is 0, Sunday is 6 (1970-01-01 was a Thursday). */
  function Weekday(z: int): (w: int)
    ensures 0 <= w <= 6
  {
    (z + 3) % 7
  }

  /** The weekday advances by one from each day to the next, Sunday to Monday. */
  lemma WeekdayNext(z: int)
    ensures Weekday(z + 1) == (Weekday(z) + 1) % 7
  {
  }

  /** The days of months 1 to `k` of year `y`. */
  function DaysBefore(y: int, k: int): (n: nat)
    requires 0 <= k <= 12
    ensures n <= 31 * k
  {
    if k == 0 then 0 else DaysBefore(y, k - 1) + DaysInMonth(y, k)
  }

  /** The twelve months make up the year. */
  lemma DaysBeforeYear(y: int)
    ensures DaysBefore(y, 12) == YearLength(y)
  {
    assert DaysBefore(y, 2) == 31 + DaysInMonth(y, 2);
    assert DaysBefore(y, 3) == DaysBefore(y, 2) + 31;
    assert DaysBefore(y, 4) == DaysBefore(y, 3) + 30;
    assert DaysBefore(y, 5) == DaysBefore(y, 4) + 31;
    assert DaysBefore(y, 6) == DaysBefore(y, 5) + 30;
    assert DaysBefore(y, 7) == DaysBefore(y, 6) + 31;
    assert DaysBefore(y, 8) == DaysBefore(y, 7) + 31;
    assert DaysBefore(y, 9) == DaysBefore(y, 8) + 30;
    assert DaysBefore(y, 10) == DaysBefore(y, 9) + 31;
    assert DaysBefore(y, 11) == DaysBefore(y, 10) + 30;
    assert DaysBefore(y, 12) == DaysBefore(y, 11) + 31;
  }

  lemma {:induction false} MonthFromBounds(y: int, off: int, m: int)
    requires 1 <= m <= 12 && off >= 0 && off + DaysBefore(y, m - 1) < DaysBefore(y, 12)
    ensures var r := MonthFrom(y, off, m);
      DaysBefore(y, r - 1) <= off + DaysBefore(y, m - 1) < DaysBefore(y, r)
    decreases 12 - m
  {
    var here := DaysBefore(y, m - 1);
    assert DaysBefore(y, m) == here + DaysInMonth(y, m);
    if m == 12 || off < DaysInMonth(y, m) {
      assert MonthFrom(y, off, m) == m;
    } else {
      var off' := off - DaysInMonth(y, m);
      assert MonthFrom(y, off, m) == MonthFrom(y, off', m + 1);
      MonthFromBounds(y, off', m + 1);
    }
  }

  /** The month of a day is the one whose days, counted from January 1st,
      contain the day's offset in its year. */
  lemma MonthBounds(z: int)
    ensures var (y, offset) := YearAndOffset(z);
      && 1 <= Month(z) <= 12
      && DaysBefore(y, Month(z) - 1) <= offset < DaysBefore(y, Month(z))
      && DayOfYear(z) == offset + 1
  {
    var (y, offset) := YearAndOffset(z);
    DaysBeforeYear(y);
    MonthFromBounds(y, offset, 1);
  }

  lemma {:induction false} YearForwardNext(y: int, z: nat)
    ensures var (y', o) := YearForward(y, z);
      YearForward(y, z + 1) == if o + 1 < YearLength(y') then (y', o + 1) else (y' + 1, 0)
    decreases z
  {
    if z >= YearLength(y) {
      YearForwardNext(y + 1, z - YearLength(y));
    } else if z + 1 == YearLength(y) {
      assert YearForward(y + 1, 0) == (y + 1, 0);
    }
  }

  lemma {:induction false} YearBackwardNext(y: int, z: int)
    requires z + 1 < 0
    ensures var (y', o) := YearBackward(y, z);
      YearBackward(y, z + 1) == if o + 1 < YearLength(y') then (y', o + 1) else (y' + 1, 0)
    decreases -z
  {
    var z' := z + YearLength(y - 1);
    if z' < 0 {
      if z' + 1 < 0 {
        YearBackwardNext(y - 1, z');
      } else {
        assert YearBackward(y - 1, z') == (y - 2, YearLength(y - 2) - 1);
      }
    }
  }

  /** From each day to the next the day of the year advances by one, and
      after the last day of a year it starts again at 1 in the next year. */
  lemma NextDay(z: int)
    ensures var (y, offset) := YearAndOffset(z);
      && (DayOfYear(z) < YearLength(y) ==> YearAndOffset(z + 1) == (y, offset + 1) && DayOfYear(z + 1) == DayOfYear(z) + 1)
      && (DayOfYear(z) == YearLength(y) ==> YearAndOffset(z + 1) == (y + 1, 0) && DayOfYear(z + 1) == 1)
  {
    if z >= 0 {
      YearForwardNext(1970, z);
    } else if z + 1 < 0 {
      YearBackwardNext(1970, z);
    } else {
      assert YearAndOffset(-1) == (1969, 364);
      assert YearAndOffset(0) == (1970, 0);
    }
  }

  lemma {:induction false} DaysBeforeIncreasing(y: int, i: int, j: int)
    requires 0 <= i < j <= 12
    ensures DaysBefore(y, i) < DaysBefore(y, j)
    decreases j - i
  {
    assert DaysBefore(y, j) == DaysBefore(y, j - 1) + DaysInMonth(y, j);
    if i < j - 1 {
      DaysBeforeIncreasing(y, i, j - 1);
    }
  }

  /** At most one month contains a given offset in the year. */
  lemma MonthUnique(y: int, offset: int, a: int, b: int)
    requires 1 <= a <= 12 && 1 <= b <= 12
    requires DaysBefore(y, a - 1) <= offset < DaysBefore(y, a)
    requires DaysBefore(y, b - 1) <= offset < DaysBefore(y, b)
    ensures a == b
  {
    if a < b - 1 {
      DaysBeforeIncreasing(y, a, b - 1);
    } else if b < a - 1 {
      DaysBeforeIncreasing(y, b, a - 1);
    }
  }

  /** The month step on offsets: `(y2, off2)` is the position after
      `offset` in year `y`, and `m` and `m2` are the months holding them. */
  lemma MonthStep(y: int, offset: int, m: int, y2: int, off2: int, m2: int)
    requires 1 <= m <= 12 && 1 <= m2 <= 12
    requires DaysBefore(y, m - 1) <= offset < DaysBefore(y, m)
    requires DaysBefore(y2, m2 - 1) <= off2 < DaysBefore(y2, m2)
    requires offset + 1 < DaysBefore(y, 12) ==> y2 == y && off2 == offset + 1
    requires offset + 1 == DaysBefore(y, 12) ==> y2 == y + 1 && off2 == 0
    ensures offset + 1 < DaysBefore(y, m) ==> m2 == m
    ensures offset + 1 == DaysBefore(y, m) && m < 12 ==> m2 == m + 1
    ensures offset + 1 == DaysBefore(y, m) && m == 12 ==> m2 == 1
  {
    if m < 12 {
      DaysBeforeIncreasing(y, m, 12);
    }
    if offset + 1 < DaysBefore(y, m) {
      MonthUnique(y, offset + 1, m, m2);
    } else if offset + 1 == DaysBefore(y, m) && m < 12 {
      assert DaysBefore(y, m + 1) == DaysBefore(y, m) + DaysInMonth(y, m + 1);
      MonthUnique(y, offset + 1, m + 1, m2);
    } else if offset + 1 == DaysBefore(y, m) && m == 12 {
      assert DaysBefore(y + 1, 1) == 31;
      MonthUnique(y + 1, 0, 1, m2);
    }
  }

  /** From each day to the next the month stays the same, except after the
      last day of a month, where it moves on to the next month, and after
      December, where it starts again at January. */
  lemma NextMonth(z: int)
    ensures var (y, offset) := YearAndOffset(z);
      var m := Month(z);
      && (offset + 1 < DaysBefore(y, m) ==> Month(z + 1) == m)
      && (offset + 1 == DaysBefore(y, m) && m < 12 ==> Month(z + 1) == m + 1)
      && (offset + 1 == DaysBefore(y, m) && m == 12 ==> Month(z + 1) == 1)
  {
    var (y, offset) := YearAndOffset(z);
    var (y2, off2) := YearAndOffset(z + 1);
    MonthBounds(z);
    MonthBounds(z + 1);
    NextDay(z);
    DaysBeforeYear(y);
    MonthStep(y, offset, Month(z), y2, off2, Month(z + 1));
  }

  /** A few fixed dates: 1970-01-01 (Thursday), 1970-03-01, 1969-12-31 and
      1971-01-01. */
  lemma KnownDates()
    ensures Month(0) == 1 && DayOfYear(0) == 1 && Weekday(0) == 3
    ensures Month(59) == 3 && DayOfYear(59) == 60
    ensures Month(-1) == 12 && DayOfYear(-1) == 365 && Weekday(-1) == 2
    ensures Month(365) == 1 && DayOfYear(365) == 1 && Weekday(365) == 4
  {
    assert YearAndOffset(0) == (1970, 0);
    assert YearAndOffset(59) == (1970, 59);
    assert YearAndOffset(-1) == (1969, 364);
    assert YearForward(1971, 0) == (1971, 0);
    assert YearAndOffset(365) == (1971, 0);
    assert MonthFrom(1970, 59 - 31, 2) == MonthFrom(1970, 0, 3);
  }
}
