/** The proleptic Gregorian calendar that JavaScript's `Date` implements, as
    far as `getMondaysInMonth` and `getThursdaysInMonth` need it: month
    lengths, the day after a date, and the day of the week. */
module Calendar {
  /** A calendar date; `month` runs 1..12 (JavaScript's `getMonth()` is one
      less) and `day` 1..DaysInMonth. */
  datatype Date = Date(year: int, month: int, day: int)

  predicate IsLeapYear(y: int)
  {
    y % 4 == 0 && (y % 100 != 0 || y % 400 == 0)
  }

  function DaysInMonth(y: int, m: int): (n: int)
    requires 1 <= m <= 12
    ensures 28 <= n <= 31
  {
    if m == 2 then (if IsLeapYear(y) then 29 else 28)
    else if m == 4 || m == 6 || m == 9 || m == 11 then 30
    else 31
  }

  predicate Valid(date: Date)
  {
    1 <= date.month <= 12 && 1 <= date.day <= DaysInMonth(date.year, date.month)
  }

  /** `date.setDate(date.getDate() + 1)`: the following day, rolling over
      into the next month and the next year. */
  function NextDay(date: Date): (r: Date)
    requires Valid(date)
    ensures Valid(r)
  {
    if date.day < DaysInMonth(date.year, date.month) then date.(day := date.day + 1)
    else if date.month < 12 then Date(date.year, date.month + 1, 1)
    else Date(date.year + 1, 1, 1)
  }

  /** Days since 1970-01-01 (negative before it). Years are counted from
      1 March, so that the leap day is the last day of its year. */
  function DayNumber(date: Date): int
    requires 1 <= date.month <= 12
  {
    var y := if date.month <= 2 then date.year - 1 else date.year;
    var shiftedMonth := if date.month > 2 then date.month - 3 else date.month + 9;
    YearStart(y) + (153 * shiftedMonth + 2) / 5 + date.day - 1 - 719468
  }

  /** `getDay()`: 0 is Sunday; 1970-01-01 was a Thursday. */
  function Weekday(date: Date): (w: int)
    requires 1 <= date.month <= 12
    ensures 0 <= w < 7
  {
    (DayNumber(date) + 4) % 7
  }

  /** `new Date(year, ...)` reads a year from 0 to 99 as 1900 to 1999. */
  function FullYear(year: int): int
  {
    if 0 <= year <= 99 then 1900 + year else year
  }

  /** Days from the start of an era to the start of its year `k`. */
  function EraDays(k: int): int
  {
    k * 365 + k / 4 - k / 100
  }

  /** Days from the start of era 0 to 1 March of shifted year `y`. */
  function YearStart(y: int): int
  {
    (y / 400) * 146097 + EraDays(y % 400)
  }

  lemma DivStep4(k: int)
    requires k >= 0
    ensures (k + 1) / 4 - k / 4 == if (k + 1) % 4 == 0 then 1 else 0
  {
  }

  lemma DivStep100(k: int)
    requires k >= 0
    ensures (k + 1) / 100 - k / 100 == if (k + 1) % 100 == 0 then 1 else 0
  {
  }

  lemma ModMultiple(a: int, x: int)
    ensures (400 * a + x) % 4 == x % 4
    ensures (400 * a + x) % 100 == x % 100
  {
    var z := 400 * a + x;
    assert z == 4 * (100 * a + x / 4) + x % 4;
    ModUnique4(z, 100 * a + x / 4, x % 4);
    assert z == 100 * (4 * a + x / 100) + x % 100;
    ModUnique100(z, 4 * a + x / 100, x % 100);
  }

  lemma ModUnique4(z: int, q: int, r: int)
    requires z == 4 * q + r && 0 <= r < 4
    ensures z % 4 == r
  {
  }

  lemma ModUnique100(z: int, q: int, r: int)
    requires z == 100 * q + r && 0 <= r < 100
    ensures z % 100 == r
  {
  }

  lemma EraDaysStep(k: int)
    requires k >= 0
    ensures EraDays(k + 1) - EraDays(k)
         == 365 + (if (k + 1) % 4 == 0 then 1 else 0) - (if (k + 1) % 100 == 0 then 1 else 0)
  {
    DivStep4(k);
    DivStep100(k);
  }

  /** The last shifted year of a 400-year era ends in a February whose
      year is divisible by 400, so it has 366 days. */
  lemma EraEndLength(era: int)
    ensures YearStart(400 * era + 400) - YearStart(400 * era + 399) == 366
    ensures IsLeapYear(400 * era + 400)
  {
    var y := 400 * era + 399;
    ModUnique400(y, era, 399);
    ModUnique400(y + 1, era + 1, 0);
    ModUnique4(y + 1, 100 * (era + 1), 0);
    ModUnique100(y + 1, 4 * (era + 1), 0);
    assert EraDays(399) == 145731;
  }

  /** Inside an era the year length follows the rule of 4 and 100. */
  lemma InEraLength(era: int, yoe: int)
    requires 0 <= yoe < 399
    ensures YearStart(400 * era + yoe + 1) - YearStart(400 * era + yoe)
         == if IsLeapYear(400 * era + yoe + 1) then 366 else 365
  {
    var y := 400 * era + yoe;
    ModUnique400(y, era, yoe);
    ModUnique400(y + 1, era, yoe + 1);
    EraDaysStep(yoe);
    ModMultiple(era, yoe + 1);
  }

  lemma ModUnique400(z: int, q: int, r: int)
    requires z == 400 * q + r && 0 <= r < 400
    ensures z / 400 == q && z % 400 == r
  {
  }

  /** The year that runs from 1 March of `y` has 366 days exactly when the
      February that ends it, in `y + 1`, has a leap day. */
  lemma ShiftedYearLength(y: int)
    ensures YearStart(y + 1) - YearStart(y) == if IsLeapYear(y + 1) then 366 else 365
  {
    var era := y / 400;
    var yoe := y % 400;
    assert y == 400 * era + yoe;
    if yoe == 399 {
      EraEndLength(era);
    } else {
      InEraLength(era, yoe);
    }
  }

  /** Within a year counted from March, each month starts where the
      previous one ended: shifted months 0..10 are March..January. */
  lemma MonthOffsetStep(y: int, sm: int)
    requires 0 <= sm < 11
    ensures (153 * (sm + 1) + 2) / 5 - (153 * sm + 2) / 5
         == DaysInMonth(y, if sm < 10 then sm + 3 else sm - 9)
  {
    if sm == 0 {} else if sm == 1 {} else if sm == 2 {} else if sm == 3 {}
    else if sm == 4 {} else if sm == 5 {} else if sm == 6 {} else if sm == 7 {}
    else if sm == 8 {} else if sm == 9 {} else {}
  }

  /** From the last day of February to 1 March the count moves on by one
      whether or not the year is a leap year. */
  lemma FebruaryEndSuccessor(date: Date)
    requires Valid(date) && date.month == 2 && date.day == DaysInMonth(date.year, 2)
    ensures DayNumber(NextDay(date)) == DayNumber(date) + 1
  {
    ShiftedYearLength(date.year - 1);
    assert DayNumber(date) == YearStart(date.year - 1) + 337 + date.day - 1 - 719468;
    assert DayNumber(NextDay(date)) == YearStart(date.year) - 719468;
  }

  lemma DecemberEndSuccessor(date: Date)
    requires Valid(date) && date.month == 12 && date.day == 31
    ensures DayNumber(NextDay(date)) == DayNumber(date) + 1
  {
    assert DayNumber(date) == YearStart(date.year) + 275 + 30 - 719468;
    assert DayNumber(NextDay(date)) == YearStart(date.year) + 306 - 719468;
  }

  lemma MonthEndSuccessor(date: Date)
    requires Valid(date) && date.month != 2 && date.month != 12
    requires date.day == DaysInMonth(date.year, date.month)
    ensures DayNumber(NextDay(date)) == DayNumber(date) + 1
  {
    var sm := if date.month > 2 then date.month - 3 else date.month + 9;
    MonthOffsetStep(date.year, sm);
  }

  /** `NextDay` and `DayNumber` agree: the day after a date is numbered one
      more, across month and year ends, so month lengths and leap years are
      those of the day count. */
  lemma NextDayIsSuccessor(date: Date)
    requires Valid(date)
    ensures DayNumber(NextDay(date)) == DayNumber(date) + 1
  {
    if date.day == DaysInMonth(date.year, date.month) {
      if date.month == 2 {
        FebruaryEndSuccessor(date);
      } else if date.month == 12 {
        DecemberEndSuccessor(date);
      } else {
        MonthEndSuccessor(date);
      }
    }
  }

  /** The weekday advances by one, modulo 7, from each day to the next. */
  lemma NextWeekday(date: Date)
    requires Valid(date)
    ensures Weekday(NextDay(date)) == (Weekday(date) + 1) % 7
  {
    NextDayIsSuccessor(date);
    ModSuccessor(DayNumber(date) + 4);
  }

  lemma ModSuccessor(x: int)
    ensures (x + 1) % 7 == (x % 7 + 1) % 7
  {
    var q := x / 7;
    assert x == 7 * q + x % 7;
    if x % 7 == 6 {
      assert x + 1 == 7 * (q + 1);
    } else {
      assert x + 1 == 7 * q + (x % 7 + 1);
    }
  }

  lemma KnownWeekdays()
    ensures Weekday(Date(1970, 1, 1)) == 4
    ensures Weekday(Date(2000, 3, 1)) == 3
    ensures Weekday(Date(2024, 1, 1)) == 1
  {
    assert YearStart(1969) == 4 * 146097 + EraDays(369) == 719162;
    assert DayNumber(Date(1970, 1, 1)) == 0;
    assert YearStart(2000) == 5 * 146097 + EraDays(0) == 730485;
    assert DayNumber(Date(2000, 3, 1)) == 11017;
    assert YearStart(2023) == 5 * 146097 + EraDays(23) == 738885;
    assert DayNumber(Date(2024, 1, 1)) == 19723;
  }

  /** `r` lists, in ascending order, exactly the days of month `m` of year
      `y` that fall on weekday `target`. */
  predicate ExactlyWeekdays(r: seq<Date>, y: int, m: int, target: int)
    requires 1 <= m <= 12
  {
    && (forall k :: 0 <= k < |r| ==>
          r[k].year == y && r[k].month == m && 1 <= r[k].day <= DaysInMonth(y, m)
          && Weekday(r[k]) == target)
    && (forall k, l :: 0 <= k < l < |r| ==> r[k].day < r[l].day)
    && (forall d :: 1 <= d <= DaysInMonth(y, m) && Weekday(Date(y, m, d)) == target ==>
          Date(y, m, d) in r)
  }

  /** The days 1..n of month `m` of year `y` that fall on weekday `target`,
      in order. */
  function Matching(y: int, m: int, target: int, n: int): seq<Date>
    requires 1 <= m <= 12 && 0 <= n <= DaysInMonth(y, m)
  {
    if n == 0 then []
    else Matching(y, m, target, n - 1)
         + (if Weekday(Date(y, m, n)) == target then [Date(y, m, n)] else [])
  }

  lemma MatchingGrows(y: int, m: int, target: int, n: int)
    requires 1 <= m <= 12 && 0 < n <= DaysInMonth(y, m)
    ensures var p := Matching(y, m, target, n - 1);
      var r := Matching(y, m, target, n);
      && |p| <= |r| <= |p| + 1
      && (forall k :: 0 <= k < |p| ==> r[k] == p[k])
      && (|r| == |p| + 1 ==> r[|p|] == Date(y, m, n))
  {
  }

  lemma MatchingExtends(y: int, m: int, target: int, n: int)
    requires 1 <= m <= 12 && 0 < n <= DaysInMonth(y, m)
    ensures var p := Matching(y, m, target, n - 1);
      var r := Matching(y, m, target, n);
      && |p| <= |r| <= |p| + 1
      && (forall k :: 0 <= k < |p| ==> r[k] == p[k])
      && (|r| == |p| + 1 <==> Weekday(Date(y, m, n)) == target)
      && (|r| == |p| + 1 ==> r[|p|] == Date(y, m, n))
  {
  }

  /** Every day `Matching` lists is one of the first `n` days of the month. */
  lemma {:induction false} MatchingDays(y: int, m: int, target: int, n: int)
    requires 1 <= m <= 12 && 0 <= n <= DaysInMonth(y, m)
    ensures var r := Matching(y, m, target, n);
      forall k :: 0 <= k < |r| ==> r[k].year == y && r[k].month == m && 1 <= r[k].day <= n
    decreases n
  {
    if n > 0 {
      MatchingDays(y, m, target, n - 1);
      MatchingGrows(y, m, target, n);
    }
  }

  /** Every day `Matching` lists falls on `target`. */
  lemma {:induction false} MatchingWeekdays(y: int, m: int, target: int, n: int)
    requires 1 <= m <= 12 && 0 <= n <= DaysInMonth(y, m)
    ensures var r := Matching(y, m, target, n);
      forall k :: 0 <= k < |r| ==> r[k].month == m && Weekday(r[k]) == target
    decreases n
  {
    if n > 0 {
      MatchingWeekdays(y, m, target, n - 1);
      MatchingExtends(y, m, target, n);
    }
  }

  /** `Matching` lists its days in ascending order. */
  lemma {:induction false} MatchingAscending(y: int, m: int, target: int, n: int)
    requires 1 <= m <= 12 && 0 <= n <= DaysInMonth(y, m)
    ensures var r := Matching(y, m, target, n);
      forall k, l :: 0 <= k < l < |r| ==> r[k].day < r[l].day
    decreases n
  {
    if n > 0 {
      MatchingAscending(y, m, target, n - 1);
      MatchingDays(y, m, target, n - 1);
      MatchingGrows(y, m, target, n);
      var p := Matching(y, m, target, n - 1);
      var r := Matching(y, m, target, n);
      assert forall k :: 0 <= k < |p| ==> r[k].day < n;
    }
  }

  /** `Matching` misses none of the first `n` days that fall on `target`. */
  lemma {:induction false} MatchingComplete(y: int, m: int, target: int, n: int)
    requires 1 <= m <= 12 && 0 <= n <= DaysInMonth(y, m)
    ensures forall d :: 1 <= d <= n && Weekday(Date(y, m, d)) == target ==>
              Date(y, m, d) in Matching(y, m, target, n)
    decreases n
  {
    if n > 0 {
      MatchingComplete(y, m, target, n - 1);
    }
  }

  /** Over the whole month, `Matching` lists exactly the days that fall on
      `target`, ascending. */
  lemma MatchingExactly(y: int, m: int, target: int)
    requires 1 <= m <= 12
    ensures ExactlyWeekdays(Matching(y, m, target, DaysInMonth(y, m)), y, m, target)
  {
    var n := DaysInMonth(y, m);
    MatchingDays(y, m, target, n);
    MatchingWeekdays(y, m, target, n);
    MatchingAscending(y, m, target, n);
    MatchingComplete(y, m, target, n);
  }

  /** Stepping from a date stays in its month except from the last day. */
  lemma StepInMonth(date: Date)
    requires Valid(date)
    ensures date.day < DaysInMonth(date.year, date.month) ==>
              NextDay(date) == Date(date.year, date.month, date.day + 1)
    ensures date.day == DaysInMonth(date.year, date.month) ==> NextDay(date).month != date.month
  {
  }

  /** The state of the day loop of month `m` of year `y`: `date` is day
      `next` of the month, or the first day after it once `next` has passed
      the last day, and `r` holds the matching days before `next`. */
  predicate Walked(y: int, m: int, target: int, date: Date, next: int, r: seq<Date>)
    requires 1 <= m <= 12
  {
    && Valid(date)
    && 1 <= next <= DaysInMonth(y, m) + 1
    && (date.month == m ==> date == Date(y, m, next))
    && (date.month != m ==> next == DaysInMonth(y, m) + 1)
    && r == Matching(y, m, target, next - 1)
  }

  /** One day of the loop keeps `Walked`. */
  lemma WalkStep(y: int, m: int, target: int, date: Date, next: int, r: seq<Date>)
    requires 1 <= m <= 12 && Walked(y, m, target, date, next, r) && date.month == m
    ensures var r' := if Weekday(date) == target then r + [date] else r;
      Walked(y, m, target, NextDay(date), next + 1, r')
  {
    StepInMonth(date);
  }

  /** The loop shared by `getMondaysInMonth` and `getThursdaysInMonth`:
      start at the first of the month and step a day at a time while the
      month is unchanged, keeping the days whose `getDay()` is `target`. A
      month outside 1..12 makes JavaScript start in another month, so the
      loop does not run. */
  method WeekdaysInMonth(month: int, year: int, target: int) returns (r: seq<Date>)
    ensures !(1 <= month <= 12) ==> r == []
    ensures 1 <= month <= 12 ==> ExactlyWeekdays(r, FullYear(year), month, target)
  {
    r := [];
    if !(1 <= month <= 12) {
      return;
    }
    var y := FullYear(year);
    var date := Date(y, month, 1);
    ghost var next := 1;
    while date.month == month
      invariant Walked(y, month, target, date, next, r)
      decreases DaysInMonth(y, month) + 1 - next
    {
      WalkStep(y, month, target, date, next, r);
      if Weekday(date) == target {
        r := r + [date];
      }
      date := NextDay(date);
      next := next + 1;
    }
    MatchingExactly(y, month, target);
  }

  method MondaysInMonth(month: int, year: int) returns (r: seq<Date>)
    ensures !(1 <= month <= 12) ==> r == []
    ensures 1 <= month <= 12 ==> ExactlyWeekdays(r, FullYear(year), month, 1)
  {
    r := WeekdaysInMonth(month, year, 1);
  }

  method ThursdaysInMonth(month: int, year: int) returns (r: seq<Date>)
    ensures !(1 <= month <= 12) ==> r == []
    ensures 1 <= month <= 12 ==> ExactlyWeekdays(r, FullYear(year), month, 4)
  {
    r := WeekdaysInMonth(month, year, 4);
  }
}
