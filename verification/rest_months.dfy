/**
 * The year/month arithmetic behind the "next month" and "previous month"
 * rest-day queries. Months are zero-based, as the JavaScript clock reports
 * them (0 is January, 11 is December).
 */
module RestMonths {

  type Month = m: int | 0 <= m < 12

  datatype YearMonth = YearMonth(year: int, month: Month)

  /** Months counted on one line: consecutive calendar months have consecutive indices. */
  function MonthIndex(ym: YearMonth): int {
    ym.year * 12 + ym.month
  }

  /** The month with a given index: the inverse of `MonthIndex`. */
  function FromIndex(n: int): (ym: YearMonth)
    ensures MonthIndex(ym) == n
  {
    YearMonth(n / 12, n % 12)
  }

  lemma MonthIndexInjective(a: YearMonth, b: YearMonth)
    requires MonthIndex(a) == MonthIndex(b)
    ensures a == b
  {
  }

  /**
   * The month after `now`, computed as the service does: add one to the
   * month, carry into the year when that reaches 12, and reduce modulo 12.
   */
  function NextMonth(now: YearMonth): (r: YearMonth)
    ensures MonthIndex(r) == MonthIndex(now) + 1
  {
    var nextMonth := now.month + 1;
    var year := now.year + (if nextMonth == 12 then 1 else 0);
    YearMonth(year, nextMonth % 12)
  }

  /**
   * The month before `now`, computed as the service does: subtract one from
   * the month, borrow from the year when that reaches -1, and use 11 then.
   */
  function PreviousMonth(now: YearMonth): (r: YearMonth)
    ensures MonthIndex(r) == MonthIndex(now) - 1
  {
    var prevMonth := now.month - 1;
    var year := now.year + (if prevMonth == -1 then -1 else 0);
    YearMonth(year, if prevMonth < 0 then 11 else prevMonth)
  }

  /** December rolls forward into January of the next year; any other month stays in its year. */
  lemma NextMonthRollover(now: YearMonth)
    ensures now.month == 11 ==> NextMonth(now) == YearMonth(now.year + 1, 0)
    ensures now.month != 11 ==> NextMonth(now) == YearMonth(now.year, now.month + 1)
  {
    var expected := if now.month == 11 then YearMonth(now.year + 1, 0)
                    else YearMonth(now.year, now.month + 1);
    assert MonthIndex(expected) == MonthIndex(now) + 1;
    MonthIndexInjective(NextMonth(now), expected);
  }

  /** January rolls back into December of the previous year; any other month stays in its year. */
  lemma PreviousMonthRollover(now: YearMonth)
    ensures now.month == 0 ==> PreviousMonth(now) == YearMonth(now.year - 1, 11)
    ensures now.month != 0 ==> PreviousMonth(now) == YearMonth(now.year, now.month - 1)
  {
    var expected := if now.month == 0 then YearMonth(now.year - 1, 11)
                    else YearMonth(now.year, now.month - 1);
    assert MonthIndex(expected) == MonthIndex(now) - 1;
    MonthIndexInjective(PreviousMonth(now), expected);
  }

  /** Stepping forward and then back, or back and then forward, returns to the same month. */
  lemma NextAndPreviousAreInverse(now: YearMonth)
    ensures PreviousMonth(NextMonth(now)) == now
    ensures NextMonth(PreviousMonth(now)) == now
  {
    MonthIndexInjective(PreviousMonth(NextMonth(now)), now);
    MonthIndexInjective(NextMonth(PreviousMonth(now)), now);
  }

  /** Both computations agree with counting months on one line. */
  lemma StepsFollowMonthIndex(now: YearMonth)
    ensures NextMonth(now) == FromIndex(MonthIndex(now) + 1)
    ensures PreviousMonth(now) == FromIndex(MonthIndex(now) - 1)
  {
    MonthIndexInjective(NextMonth(now), FromIndex(MonthIndex(now) + 1));
    MonthIndexInjective(PreviousMonth(now), FromIndex(MonthIndex(now) - 1));
  }
}
