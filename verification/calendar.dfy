// Calendar conversion: subtracting whole years, then whole months, from an epoch.
module Calendar {
  import opened CInt

  const DAY := 86400

  datatype DateTime = DateTime(year: int, month: int, day: int, hour: int, min: int, sec: int)

  /** The leap rule of the code, and the Gregorian one it stands for. */
  datatype Rule = EveryFourth | Gregorian

  predicate Leap(rule: Rule, year: int) {
    year % 4 == 0 && (rule == EveryFourth || year % 100 != 0 || year % 400 == 0)
  }

  function MonthDays(rule: Rule, year: int, month: int): (n: int)
    requires 1 <= month <= 12
    ensures 28 <= n <= 31
  {
    if month == 2 then (if Leap(rule, year) then 29 else 28)
    else if month == 4 || month == 6 || month == 9 || month == 11 then 30
    else 31
  }

  function YearDays(rule: Rule, year: int): int {
    if Leap(rule, year) then 366 else 365
  }

  /** Seconds from 1970 to the start of a year. */
  function YearStart(rule: Rule, year: int): (s: int)
    requires year >= 1970
    ensures s >= 0
    decreases year
  {
    if year == 1970 then 0 else YearStart(rule, year - 1) + YearDays(rule, year - 1) * DAY
  }

  /** Seconds from the start of the year to the start of a month; month 13 is the next year. */
  function MonthStart(rule: Rule, year: int, month: int): (s: int)
    requires 1 <= month <= 13
    ensures s >= 0
    decreases month
  {
    if month == 1 then 0 else MonthStart(rule, year, month - 1) + MonthDays(rule, year, month - 1) * DAY
  }

  function MonthBegin(rule: Rule, year: int, month: int): int
    requires year >= 1970 && 1 <= month <= 13
  {
    YearStart(rule, year) + MonthStart(rule, year, month)
  }

  function TimeOfDay(d: DateTime): int {
    d.hour * 3600 + d.min * 60 + d.sec
  }

  /** The seconds since 1970 that a date and time stand for. */
  function EpochOf(rule: Rule, d: DateTime): int
    requires d.year >= 1970 && 1 <= d.month <= 13
  {
    MonthBegin(rule, d.year, d.month) + (d.day - 1) * DAY + TimeOfDay(d)
  }

  /** d recombines to e, and lies in the half-open month (begin, end] the loops choose. */
  ghost predicate Renders(d: DateTime, e: int) {
    && d.year >= 1970 && 1 <= d.month <= 12 && d.day >= 1
    && 0 <= d.hour < 24 && 0 <= d.min < 60 && 0 <= d.sec < 60
    && EpochOf(EveryFourth, d) == e
    && e <= MonthBegin(EveryFourth, d.year, d.month + 1)
    && (MonthBegin(EveryFourth, d.year, d.month) < e || (d.year == 1970 && d.month == 1 && e >= 0))
  }

  // ----- the loops

  const CALENDAR: seq<int> := [31, 28, 31, 30, 31, 30, 31, 31, 30, 31, 30, 31]
  const CALENDAR_LEAP: seq<int> := [31, 29, 31, 30, 31, 30, 31, 31, 30, 31, 30, 31]

  function GetCalendar(year: int): (cal: seq<int>)
    ensures |cal| == 12 && forall i :: 0 <= i < 12 ==> cal[i] == MonthDays(EveryFourth, year, i + 1)
  {
    if year % 4 == 0 then CALENDAR_LEAP else CALENDAR
  }

  lemma YearIsItsMonths(rule: Rule, year: int)
    ensures MonthStart(rule, year, 13) == YearDays(rule, year) * DAY
  {
    assert MonthStart(rule, year, 4) == (59 + if Leap(rule, year) then 32 else 31) * DAY;
    assert MonthStart(rule, year, 7) == MonthStart(rule, year, 4) + 91 * DAY;
    assert MonthStart(rule, year, 10) == MonthStart(rule, year, 7) + 92 * DAY;
    assert MonthStart(rule, year, 13) == MonthStart(rule, year, 10) + 92 * DAY;
  }

  /** The pointer argument is returned as `rest`. */
  method GetYear(t: nat) returns (year: int, rest: int)
    ensures year >= 1970 && t == YearStart(EveryFourth, year) + rest
    ensures rest <= YearDays(EveryFourth, year) * DAY
    ensures if year == 1970 then rest >= 0 else rest > 0
  {
    year, rest := 1970, t;
    while rest > YearDays(EveryFourth, year) * DAY
      invariant year >= 1970 && t == YearStart(EveryFourth, year) + rest
      invariant if year == 1970 then rest >= 0 else rest > 0
      decreases rest
    {
      rest := rest - YearDays(EveryFourth, year) * DAY;
      year := year + 1;
    }
  }

  /** A month that is used up is followed by another of the same year. */
  lemma MonthFollows(t: int, year: int, month: int, rest: int)
    requires 1 <= month <= 12 && t == MonthStart(EveryFourth, year, month) + rest
    requires rest > MonthDays(EveryFourth, year, month) * DAY && t <= YearDays(EveryFourth, year) * DAY
    ensures month < 12
    ensures t == MonthStart(EveryFourth, year, month + 1) + rest - MonthDays(EveryFourth, year, month) * DAY
  {
    YearIsItsMonths(EveryFourth, year);
  }

  /** At most one year of seconds is left, so the month table is never overrun. */
  method GetMonth(t: int, year: int) returns (month: int, rest: int)
    requires 0 <= t <= YearDays(EveryFourth, year) * DAY
    ensures 1 <= month <= 12 && t == MonthStart(EveryFourth, year, month) + rest
    ensures rest <= MonthDays(EveryFourth, year, month) * DAY
    ensures if month == 1 then rest >= 0 else rest > 0
  {
    var cal := GetCalendar(year);
    var i := 0;
    rest := t;
    while rest > cal[i] * DAY
      invariant 0 <= i < 12 && t == MonthStart(EveryFourth, year, i + 1) + rest
      invariant if i == 0 then rest >= 0 else rest > 0
      decreases 12 - i
    {
      MonthFollows(t, year, i + 1, rest);
      rest := rest - cal[i] * DAY;
      i := i + 1;
    }
    month := i + 1;
  }

  method GetDateTime(epoch0: nat) returns (d: DateTime)
    ensures Renders(d, epoch0)
    ensures 1 <= d.month <= 12 && 0 <= d.hour < 24 && 0 <= d.min < 60 && 0 <= d.sec < 60
    ensures epoch0 == ClosedEpoch(d.year, d.month, d.day) + d.hour * 3600 + d.min * 60 + d.sec
    ensures epoch0 <= ClosedEpoch(d.year, d.month + 1, 1)
  {
    var year, epoch := GetYear(epoch0);
    var month;
    month, epoch := GetMonth(epoch, year);
    var day := 1 + epoch / DAY;
    epoch := epoch % DAY;
    var hour := epoch / 3600;
    epoch := epoch % 3600;
    d := DateTime(year, month, day, hour, epoch / 60, epoch % 60);
    RendersClosed(d, epoch0);
  }

  // ----- order

  predicate Before(a: DateTime, b: DateTime) {
    || a.year < b.year
    || (a.year == b.year && (a.month < b.month || (a.month == b.month && (a.day < b.day
        || (a.day == b.day && TimeBefore(a, b))))))
  }

  predicate TimeBefore(a: DateTime, b: DateTime) {
    || a.hour < b.hour
    || (a.hour == b.hour && (a.min < b.min || (a.min == b.min && a.sec < b.sec)))
  }

  lemma {:induction false} YearOrder(rule: Rule, y: int, z: int)
    requires 1970 <= y < z
    ensures YearStart(rule, y + 1) <= YearStart(rule, z)
    decreases z
  {
    if y + 1 < z { YearOrder(rule, y, z - 1); }
  }

  lemma {:induction false} MonthOrder(rule: Rule, year: int, m: int, n: int)
    requires 1 <= m < n <= 13
    ensures MonthStart(rule, year, m + 1) <= MonthStart(rule, year, n)
    decreases n
  {
    if m + 1 < n { MonthOrder(rule, year, m, n - 1); }
  }

  /** An earlier month ends before a later one begins. */
  lemma MonthsInOrder(rule: Rule, y: int, m: int, z: int, n: int)
    requires 1970 <= y <= z && 1 <= m <= 12 && 1 <= n <= 12 && (y < z || m < n)
    ensures MonthBegin(rule, y, m + 1) <= MonthBegin(rule, z, n)
  {
    if y < z {
      YearOrder(rule, y, z);
      YearIsItsMonths(rule, y);
      if m + 1 < 13 { MonthOrder(rule, y, m + 1, 13); }
      if 1 < n { MonthOrder(rule, z, 1, n); }
    } else {
      MonthOrder(rule, y, m, n);
    }
  }

  /** A larger epoch always renders as a later date and time; so the rendering is unique. */
  lemma LaterEpochsRenderLater(a: DateTime, d: int, b: DateTime, e: int)
    requires Renders(a, d) && Renders(b, e) && d < e
    ensures Before(a, b)
  {
    if b.year < a.year || (b.year == a.year && b.month < a.month) {
      MonthsInOrder(EveryFourth, b.year, b.month, a.year, a.month);
      assert false;
    }
  }

  lemma RenderingIsUnique(a: DateTime, b: DateTime, e: int)
    requires Renders(a, e) && Renders(b, e)
    ensures a == b
  {
    MonthIsUnique(a, b, e);
    DigitsAreUnique(a.day - 1, TimeOfDay(a), b.day - 1, TimeOfDay(b), DAY);
    DigitsAreUnique(a.hour, a.min * 60 + a.sec, b.hour, b.min * 60 + b.sec, 3600);
    DigitsAreUnique(a.min, a.sec, b.min, b.sec, 60);
  }

  lemma MonthIsUnique(a: DateTime, b: DateTime, e: int)
    requires Renders(a, e) && Renders(b, e)
    ensures a.year == b.year && a.month == b.month
  {
    if a.year < b.year || (a.year == b.year && a.month < b.month) {
      MonthsInOrder(EveryFourth, a.year, a.month, b.year, b.month);
    } else if b.year < a.year || b.month < a.month {
      MonthsInOrder(EveryFourth, b.year, b.month, a.year, a.month);
    }
  }

  lemma DigitsAreUnique(q: int, r: int, q': int, r': int, n: int)
    requires 0 <= r < n && 0 <= r' < n && q * n + r == q' * n + r'
    ensures q == q' && r == r'
  {
    QuotientIsUnique(q * n + r, n, q);
    QuotientIsUnique(q * n + r, n, q');
  }

  // ----- when the rendered day exists

  predicate ValidDay(rule: Rule, d: DateTime)
    requires 1 <= d.month <= 12
  {
    1 <= d.day <= MonthDays(rule, d.year, d.month)
  }

  ghost predicate StartsMonth(e: int) {
    exists y, m :: y >= 1970 && 1 <= m <= 12 && e == MonthBegin(EveryFourth, y, m)
  }

  /** The day exists in its month except at the midnight that starts a month other than
      January 1970: that is rendered as one day past the end of the month before. */
  lemma DayExistsExactly(d: DateTime, e: int)
    requires Renders(d, e)
    ensures ValidDay(EveryFourth, d) <==> !(e > 0 && StartsMonth(e))
    ensures !ValidDay(EveryFourth, d) ==>
              d.day == MonthDays(EveryFourth, d.year, d.month) + 1 && TimeOfDay(d) == 0
  {
    if ValidDay(EveryFourth, d) {
      if e > 0 && StartsMonth(e) {
        var y, m :| y >= 1970 && 1 <= m <= 12 && e == MonthBegin(EveryFourth, y, m);
        StartsAreEnds(d, e, y, m);
      }
    } else {
      EndsAreStarts(d, e);
    }
  }

  /** The midnight that ends a month is rendered as one day too many of it. */
  lemma EveryMonthEndIsLate(d: DateTime)
    requires d.year >= 1970 && 1 <= d.month <= 12 && d.day == MonthDays(EveryFourth, d.year, d.month) + 1
    requires d.hour == 0 && d.min == 0 && d.sec == 0
    ensures Renders(d, MonthBegin(EveryFourth, d.year, d.month + 1)) && !ValidDay(EveryFourth, d)
  {
  }

  /** So second 2678400, which starts 1 February 1970, is rendered as 32 January. */
  lemma LateMidnight(d: DateTime)
    requires d.year == 1970 && d.month == 1 && d.day == 32 && d.hour == 0 && d.min == 0 && d.sec == 0
    ensures MonthBegin(EveryFourth, d.year, d.month + 1) == 2678400
    ensures Renders(d, MonthBegin(EveryFourth, d.year, d.month + 1)) && !ValidDay(EveryFourth, d)
  {
    EveryMonthEndIsLate(d);
  }

  /** A rendered month start is the very end of the month it is rendered in. */
  lemma StartsAreEnds(d: DateTime, e: int, y: int, m: int)
    requires Renders(d, e) && e > 0 && y >= 1970 && 1 <= m <= 12 && e == MonthBegin(EveryFourth, y, m)
    ensures e == MonthBegin(EveryFourth, d.year, d.month + 1)
  {
    if y < d.year || (y == d.year && m < d.month) {
      MonthsInOrder(EveryFourth, y, m, d.year, d.month);
    } else if d.year < y || d.month < m {
      MonthsInOrder(EveryFourth, d.year, d.month, y, m);
    }
  }

  lemma OnlyMidnightIsLate(day: int, time: int, n: int)
    requires (day - 1) * DAY + time <= n * DAY && 0 <= time < DAY && day > n
    ensures day == n + 1 && time == 0
  {
  }

  lemma EndsAreStarts(d: DateTime, e: int)
    requires Renders(d, e) && !ValidDay(EveryFourth, d)
    ensures e > 0 && StartsMonth(e) && TimeOfDay(d) == 0
    ensures d.day == MonthDays(EveryFourth, d.year, d.month) + 1
  {
    var end := MonthBegin(EveryFourth, d.year, d.month + 1);
    OnlyMidnightIsLate(d.day, TimeOfDay(d), MonthDays(EveryFourth, d.year, d.month));
    assert e == end;
    if d.month == 12 {
      YearIsItsMonths(EveryFourth, d.year);
      assert end == MonthBegin(EveryFourth, d.year + 1, 1);
    }
  }

  // ----- closed forms

  /** The days of the year before a month, independently of the tables. */
  function DaysBefore(leap: bool, month: int): int {
    if month <= 2 then 31 * (month - 1)
    else (153 * (month - 3) + 2) / 5 + 59 + if leap then 1 else 0
  }

  lemma MonthLengths(rule: Rule, year: int, month: int)
    requires 1 <= month <= 12
    ensures DaysBefore(Leap(rule, year), month + 1)
         == DaysBefore(Leap(rule, year), month) + MonthDays(rule, year, month)
  {
    if month <= 3 {
    } else if month <= 6 {
    } else if month <= 9 {
    }
  }

  lemma {:induction false} MonthStartClosed(rule: Rule, year: int, month: int)
    requires 1 <= month <= 13
    ensures MonthStart(rule, year, month) == DaysBefore(Leap(rule, year), month) * 86400
    decreases month
  {
    if month > 1 {
      MonthStartClosed(rule, year, month - 1);
      MonthLengths(rule, year, month - 1);
    }
  }

  /** The Gregorian years in closed form. */
  lemma {:induction false} GregorianYearClosed(year: int)
    requires year >= 1970
    ensures YearStart(Gregorian, year)
         == ((year - 1970) * 365 + (year - 1969) / 4 - (year - 1901) / 100 + (year - 1601) / 400) * 86400
    decreases year
  {
    if year > 1970 {
      GregorianYearClosed(year - 1);
      GregorianLeapsSince(year - 1);
    }
  }

  lemma GregorianLeapsSince(year: int)
    ensures (year - 1968) / 4 - (year - 1900) / 100 + (year - 1600) / 400
         == (year - 1969) / 4 - (year - 1901) / 100 + (year - 1601) / 400 + if Leap(Gregorian, year) then 1 else 0
  {
    StepOver(year - 1969, 4);
    StepOver(year - 1901, 100);
    StepOver(year - 1601, 400);
    RoundYears(year);
  }

  lemma StepOver(n: int, d: int)
    requires d > 0
    ensures (n + 1) / d == n / d + if (n + 1) % d == 0 then 1 else 0
  {
    var q, r := n / d, n % d;
    assert n == q * d + r;
    if r + 1 < d {
      QuotientIsUnique(n + 1, d, q);
    } else {
      assert (q + 1) * d == q * d + d;
      QuotientIsUnique(n + 1, d, q + 1);
    }
    assert n + 1 == (n + 1) / d * d + (n + 1) % d;
  }

  lemma Shifted(n: int, k: int, d: int)
    requires d > 0
    ensures (n - k * d) % d == n % d
  {
    var q, r := n / d, n % d;
    assert (q - k) * d == q * d - k * d;
    QuotientIsUnique(n - k * d, d, q - k);
  }

  lemma RoundYears(year: int)
    ensures (year - 1968) % 4 == year % 4 && (year - 1900) % 100 == year % 100 && (year - 1600) % 400 == year % 400
    ensures year % 400 == 0 ==> year % 100 == 0
    ensures year % 100 == 0 ==> year % 4 == 0
  {
    Shifted(year, 492, 4);
    Shifted(year, 19, 100);
    Shifted(year, 4, 400);
    Multiples(year);
  }

  lemma Multiples(year: int)
    ensures year % 400 == 0 ==> year % 100 == 0
    ensures year % 100 == 0 ==> year % 4 == 0
  {
    Shifted(year, 4 * (year / 400), 100);
    Shifted(year, 25 * (year / 100), 4);
  }

  /** The epoch of a date and time by the leap rule of the code, without tables and loops. */
  function ClosedEpoch(year: int, month: int, day: int): int {
    ((year - 1970) * 365 + (year - 1969) / 4 + DaysBefore(year % 4 == 0, month) + day - 1) * 86400
  }

  lemma MonthBeginClosed(year: int, month: int)
    requires year >= 1970 && 1 <= month <= 13
    ensures MonthBegin(EveryFourth, year, month) == ClosedEpoch(year, month, 1)
  {
    YearStartClosed(year);
    MonthStartClosed(EveryFourth, year, month);
  }

  /** What a rendering means: the parts recombine to the epoch, which is past the start of the
      month, and at most its end. */
  lemma RendersClosed(d: DateTime, e: int)
    requires Renders(d, e)
    ensures e == ClosedEpoch(d.year, d.month, d.day) + d.hour * 3600 + d.min * 60 + d.sec
    ensures e <= ClosedEpoch(d.year, d.month + 1, 1)
  {
    MonthBeginClosed(d.year, d.month);
    MonthBeginClosed(d.year, d.month + 1);
  }

  // ----- the leap rule

  /** The year loop in closed form. */
  lemma {:induction false} YearStartClosed(year: int)
    requires year >= 1970
    ensures YearStart(EveryFourth, year) == ((year - 1970) * 365 + (year - 1969) / 4) * 86400
    decreases year
  {
    if year > 1970 {
      YearStartClosed(year - 1);
      LeapYearsSince(year - 1);
    }
  }

  lemma LeapYearsSince(year: int)
    ensures (year - 1968) / 4 == (year - 1969) / 4 + if Leap(EveryFourth, year) then 1 else 0
  {
  }

  lemma LeapYearsAgree(year: int)
    requires 1970 <= year
    ensures year < 2100 ==> (Leap(Gregorian, year) <==> Leap(EveryFourth, year))
    ensures Leap(Gregorian, year) ==> Leap(EveryFourth, year)
    ensures YearDays(Gregorian, year) <= YearDays(EveryFourth, year)
  {
    if year < 2100 {
      assert year % 100 == 0 ==> year == 2000;
    }
  }

  lemma {:induction false} SameYears(year: int)
    requires 1970 <= year <= 2100
    ensures YearStart(Gregorian, year) == YearStart(EveryFourth, year)
    decreases year
  {
    if year > 1970 {
      SameYears(year - 1);
      LeapYearsAgree(year - 1);
    }
  }

  lemma NextYear(year: int)
    requires 1970 <= year
    ensures YearStart(Gregorian, year + 1) - YearStart(Gregorian, year)
         <= YearStart(EveryFourth, year + 1) - YearStart(EveryFourth, year)
  {
    LeapYearsAgree(year);
  }

  lemma {:induction false} LaterYears(year: int)
    requires year > 2100
    ensures YearStart(Gregorian, year) <= YearStart(EveryFourth, year) - DAY
    decreases year
  {
    if year > 2101 {
      LaterYears(year - 1);
      NextYear(year - 1);
    } else {
      YearAfter2100(year - 1);
    }
  }

  /** Stated for a variable so that the years before it are not unfolded. */
  lemma YearAfter2100(year: int)
    requires year == 2100
    ensures YearStart(Gregorian, year + 1) == YearStart(EveryFourth, year + 1) - DAY
  {
    SameYears(year);
    Length2100(year);
  }

  lemma Length2100(year: int)
    requires year == 2100
    ensures YearDays(Gregorian, year) == 365 && YearDays(EveryFourth, year) == 366
  {
  }

  /** 29 February 2100, 00:00:00 by the code's rule. */
  const LAST_AGREED := 4107542400

  /** The rendered date exists and is the Gregorian one exactly before 29 February 2100, and
      off the midnights that start a month. */
  lemma GregorianExactly(d: DateTime, e: int)
    requires Renders(d, e)
    ensures ValidDay(Gregorian, d) && EpochOf(Gregorian, d) == e
       <==> e < LAST_AGREED && !(e > 0 && StartsMonth(e))
  {
    DayExistsExactly(d, e);
    if ValidDay(EveryFourth, d) {
      AgreesUntil2100(d, e);
    } else {
      LeapYearsAgree(d.year);
    }
  }

  /** A day that exists by the code's rule is the Gregorian one exactly before that date. */
  lemma AgreesUntil2100(d: DateTime, e: int)
    requires Renders(d, e) && ValidDay(EveryFourth, d)
    ensures ValidDay(Gregorian, d) && EpochOf(Gregorian, d) == e <==> e < LAST_AGREED
  {
    if d.year < 2100 {
      AgreeBefore2100(d, e);
    } else if d.year == 2100 {
      AgreeIn2100(d, e);
    } else {
      DisagreeAfter2100(d, e);
    }
  }

  lemma StartOf2100(year: int)
    requires year == 2100
    ensures YearStart(EveryFourth, year) == LAST_AGREED - 59 * DAY
  {
    YearStartClosed(year);
  }

  lemma AgreeBefore2100(d: DateTime, e: int)
    requires Renders(d, e) && ValidDay(EveryFourth, d) && d.year < 2100
    ensures ValidDay(Gregorian, d) && EpochOf(Gregorian, d) == e && e < LAST_AGREED
  {
    SameYears(d.year);
    SameMonths(d.year, d.month);
    LeapYearsAgree(d.year);
    var year := 2100;
    MonthsInOrder(EveryFourth, d.year, d.month, year, 1);
    StartOf2100(year);
  }

  lemma AgreeIn2100(d: DateTime, e: int)
    requires Renders(d, e) && ValidDay(EveryFourth, d) && d.year == 2100
    ensures ValidDay(Gregorian, d) && EpochOf(Gregorian, d) == e <==> e < LAST_AGREED
  {
    StartOf2100(d.year);
    SameYears(d.year);
    MonthsOf2100(d.year, d.month);
    assert MonthStart(EveryFourth, d.year, 2) == 31 * DAY && MonthStart(EveryFourth, d.year, 3) == 60 * DAY;
    if d.month > 3 { MonthOrder(EveryFourth, d.year, 3, d.month); }
  }

  lemma DisagreeAfter2100(d: DateTime, e: int)
    requires Renders(d, e) && d.year > 2100
    ensures EpochOf(Gregorian, d) != e && e >= LAST_AGREED
  {
    var year := 2100;
    StartOf2100(year);
    LaterYears(d.year);
    YearOrder(EveryFourth, year, d.year);
    LaterMonths(d.year, d.month);
  }

  lemma {:induction false} SameMonths(year: int, month: int)
    requires 1970 <= year < 2100 && 1 <= month <= 13
    ensures MonthStart(Gregorian, year, month) == MonthStart(EveryFourth, year, month)
    decreases month
  {
    if month > 1 {
      SameMonths(year, month - 1);
      LeapYearsAgree(year);
    }
  }

  lemma {:induction false} MonthsOf2100(year: int, month: int)
    requires year == 2100 && 1 <= month <= 13
    ensures MonthStart(Gregorian, year, month) == MonthStart(EveryFourth, year, month) - if month <= 2 then 0 else DAY
    decreases month
  {
    if month > 1 { MonthsOf2100(year, month - 1); }
  }

  lemma {:induction false} LaterMonths(year: int, month: int)
    requires 1970 <= year && 1 <= month <= 13
    ensures MonthStart(Gregorian, year, month) <= MonthStart(EveryFourth, year, month)
    decreases month
  {
    if month > 1 {
      LaterMonths(year, month - 1);
      LeapYearsAgree(year);
    }
  }
}
