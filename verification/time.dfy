// common/time.c: the seconds since the epoch of a date and time of day, after the formula of POSIX.1-2017 XBD 4.16.
module Time {
  datatype Date = Date(year: int, month: int, day: int)

  datatype Moment = Moment(date: Date, hour: int, minute: int, second: int)

  const INT_MIN := -0x8000_0000
  const INT_MAX := 0x7fff_ffff
  const DAYS_PER_MONTH := [
    [31, 28, 31, 30, 31, 30, 31, 31, 30, 31, 30, 31],
    [31, 29, 31, 30, 31, 30, 31, 31, 30, 31, 30, 31]]
  const CUMULATIVE_DAYS := [
    [0, 31, 59, 90, 120, 151, 181, 212, 243, 273, 304, 334],
    [0, 31, 60, 91, 121, 152, 182, 213, 244, 274, 305, 335]]

  predicate YearIsLeap(year: int) {
    (year % 4 == 0 && year % 100 != 0) || year % 400 == 0
  }

  function Leap(year: int): (r: nat)
    ensures r < 2
  {
    if YearIsLeap(year) then 1 else 0
  }

  predicate DatePartsValid(d: Date) {
    d.year >= 1970 && d.month > 0 && d.month <= 12 && d.day > 0 && d.day <= DAYS_PER_MONTH[Leap(d.year)][d.month - 1]
  }

  predicate TimePartsValid(hour: int, minute: int, second: int) {
    0 <= hour < 24 && 0 <= minute < 60 && 0 <= second < 60
  }

  // The remainder is of a division that truncates, but only its being zero matters
  predicate TzPartsValid(tzHour: int, tzMinute: int) {
    || (tzHour > -12 && tzHour < 14 && tzMinute % 15 == 0)
    || (tzHour == -12 && tzMinute == 0)
    || (tzHour == 14 && tzMinute == 0)
  }

  function TzOffsetSeconds(tzHour: int, tzMinute: int): int
    requires TzPartsValid(tzHour, tzMinute)
  {
    var sign := if tzHour < 0 then -1 else 1;
    sign * (sign * tzHour * 3600 + tzMinute * 60)
  }

  function DayOfYear(d: Date): int
    requires DatePartsValid(d)
  {
    CUMULATIVE_DAYS[Leap(d.year)][d.month - 1] + d.day
  }

  predicate Valid(m: Moment) {
    DatePartsValid(m.date) && TimePartsValid(m.hour, m.minute, m.second)
  }

  // Every division is of a number that is not negative
  function EpochFromParts(m: Moment, tzOffsetSecond: int): int
    requires Valid(m)
  {
    var year := m.date.year;
    -1 * tzOffsetSecond + m.second + m.minute * 60 + m.hour * 3600
    + (DayOfYear(m.date) - 1) * 86400 + (year - 1900 - 70) * 31536000
    + ((year - 1900 - 69) / 4) * 86400 - ((year - 1900 - 1) / 100) * 86400 + ((year - 1900 + 299) / 400) * 86400
  }

  // ---- the calendar, one day at a time

  const EPOCH := Date(1970, 1, 1)

  // The day before
  function Previous(d: Date): (r: Date)
    requires DatePartsValid(d) && d != EPOCH
    ensures DatePartsValid(r) && Before(r, d)
  {
    if d.day > 1 then Date(d.year, d.month, d.day - 1)
    else if d.month > 1 then Date(d.year, d.month - 1, DAYS_PER_MONTH[Leap(d.year)][d.month - 2])
    else Date(d.year - 1, 12, 31)
  }

  predicate Before(d: Date, e: Date) {
    d.year < e.year || (d.year == e.year && (d.month < e.month || (d.month == e.month && d.day < e.day)))
  }

  // Days counted back to the epoch
  function DaysSinceEpoch(d: Date): nat
    requires DatePartsValid(d)
    decreases d.year, d.month, d.day
  {
    if d == EPOCH then 0 else 1 + DaysSinceEpoch(Previous(d))
  }

  // The days of the formula
  function FormulaDays(d: Date): int
    requires DatePartsValid(d)
  {
    DayOfYear(d) - 1 + (d.year - 1970) * 365 + (d.year - 1969) / 4 - (d.year - 1901) / 100 + (d.year + -1601) / 400
  }

  // A table of days before each month is the running sum of the table of days in each month
  lemma TablesAgree(leap: nat, month: int)
    requires leap < 2 && 2 <= month <= 12
    ensures CUMULATIVE_DAYS[leap][month - 1] == CUMULATIVE_DAYS[leap][month - 2] + DAYS_PER_MONTH[leap][month - 2]
    ensures CUMULATIVE_DAYS[leap][0] == 0
  {
  }

  // From one new year to the next the leap terms count the day of a leap year
  lemma LeapTerms(year: int)
    requires year > 1970
    ensures (year - 1969) / 4 - (year - 1901) / 100 + (year - 1601) / 400
         == (year - 1970) / 4 - (year - 1902) / 100 + (year - 1602) / 400 + Leap(year - 1)
  {
    Quotient(year, 1969, 4);
    Quotient(year, 1901, 100);
    Quotient(year, 1601, 400);
    Divisors(year - 1);
  }

  // A quotient grows with the year exactly after a year that the divisor divides, for an origin just after such a year
  lemma Quotient(year: int, origin: int, k: int)
    requires (k, origin) in {(4, 1969), (100, 1901), (400, 1601)}
    ensures (year - origin) / k == (year - 1 - origin) / k + (if (year - 1) % k == 0 then 1 else 0)
  {
  }

  lemma Divisors(year: int)
    ensures year % 400 == 0 ==> year % 100 == 0
    ensures year % 100 == 0 ==> year % 4 == 0
  {
  }

  lemma OneYearBack(d: Date)
    requires DatePartsValid(d) && d != EPOCH && d.day == 1 && d.month == 1
    ensures FormulaDays(d) == FormulaDays(Previous(d)) + 1
  {
    hide YearIsLeap, DaysSinceEpoch;
    LeapTerms(d.year);
    assert DayOfYear(d) == 1 && DayOfYear(Previous(d)) == 365 + Leap(d.year - 1);
    hide DayOfYear, Leap;
  }

  lemma OneDayBack(d: Date)
    requires DatePartsValid(d) && d != EPOCH
    ensures FormulaDays(d) == FormulaDays(Previous(d)) + 1
  {
    hide YearIsLeap, DaysSinceEpoch;
    if d.day == 1 && d.month == 1 {
      OneYearBack(d);
    } else {
      if d.day == 1 {
        TablesAgree(Leap(d.year), d.month);
      }
      assert DayOfYear(Previous(d)) == DayOfYear(d) - 1;
      hide DayOfYear, DatePartsValid, Leap;
    }
  }

  lemma {:induction false} FormulaCounts(d: Date)
    requires DatePartsValid(d)
    ensures FormulaDays(d) == DaysSinceEpoch(d)
    decreases d.year, d.month, d.day
  {
    if d != EPOCH {
      OneDayBack(d);
      FormulaCounts(Previous(d));
    }
  }

  // The closed form is the calendar counted day by day, and the time of day less the offset from GMT
  lemma EpochIsCalendar(m: Moment, tzOffsetSecond: int)
    requires Valid(m)
    ensures EpochFromParts(m, tzOffsetSecond)
         == DaysSinceEpoch(m.date) * 86400 + m.hour * 3600 + m.minute * 60 + m.second - tzOffsetSecond
  {
    FormulaCounts(m.date);
  }

  // ---- order

  predicate Earlier(m: Moment, n: Moment) {
    || Before(m.date, n.date)
    || (m.date == n.date && (m.hour < n.hour || (m.hour == n.hour
        && (m.minute < n.minute || (m.minute == n.minute && m.second < n.second)))))
  }

  lemma NothingBetween(d: Date, e: Date)
    requires DatePartsValid(d) && DatePartsValid(e) && Before(d, e)
    ensures e != EPOCH && (d == Previous(e) || Before(d, Previous(e)))
  {
    if e.day == 1 && e.month == 1 && d.year == e.year - 1 {
      assert DAYS_PER_MONTH[Leap(d.year)][11] == 31;
    }
  }

  lemma {:induction false} LaterDayCounts(d: Date, e: Date)
    requires DatePartsValid(d) && DatePartsValid(e) && Before(d, e)
    ensures DaysSinceEpoch(d) < DaysSinceEpoch(e)
    decreases e.year, e.month, e.day
  {
    NothingBetween(d, e);
    if d != Previous(e) {
      LaterDayCounts(d, Previous(e));
    }
  }

  // At one offset a later moment has a greater epoch
  lemma StrictlyMonotone(m: Moment, n: Moment, tzOffsetSecond: int)
    requires Valid(m) && Valid(n) && Earlier(m, n)
    ensures EpochFromParts(m, tzOffsetSecond) < EpochFromParts(n, tzOffsetSecond)
  {
    EpochIsCalendar(m, tzOffsetSecond);
    EpochIsCalendar(n, tzOffsetSecond);
    if Before(m.date, n.date) {
      LaterDayCounts(m.date, n.date);
    }
  }

  // The day after
  function Following(d: Date): (r: Date)
    requires DatePartsValid(d)
    ensures DatePartsValid(r) && r != EPOCH && Previous(r) == d
  {
    if d.day < DAYS_PER_MONTH[Leap(d.year)][d.month - 1] then Date(d.year, d.month, d.day + 1)
    else if d.month < 12 then Date(d.year, d.month + 1, 1)
    else Date(d.year + 1, 1, 1)
  }

  lemma {:induction false} DayAt(days: nat) returns (d: Date)
    ensures DatePartsValid(d) && DaysSinceEpoch(d) == days
    decreases days
  {
    if days == 0 {
      d := EPOCH;
    } else {
      d := DayAt(days - 1);
      d := Following(d);
    }
  }

  lemma OneMoment(m: Moment, other: Moment)
    requires Valid(m) && Valid(other) && EpochFromParts(m, 0) == EpochFromParts(other, 0)
    ensures m == other
  {
    hide EpochFromParts, Valid;
    if Earlier(m, other) {
      StrictlyMonotone(m, other, 0);
    } else if Earlier(other, m) {
      StrictlyMonotone(other, m, 0);
    }
  }

  // No second is left out: each one since the epoch is that of a valid moment, which is the only one at GMT
  lemma EverySecond(n: nat) returns (m: Moment)
    ensures Valid(m) && EpochFromParts(m, 0) == n
    ensures forall other :: Valid(other) && EpochFromParts(other, 0) == n ==> other == m
  {
    hide EpochFromParts, DatePartsValid, DaysSinceEpoch;
    var d := DayAt(n / 86400);
    var second := n % 86400;
    m := Moment(d, second / 3600, second % 3600 / 60, second % 3600 % 60);
    EpochIsCalendar(m, 0);
    forall other | Valid(other) && EpochFromParts(other, 0) == n
      ensures other == m
    {
      OneMoment(m, other);
    }
  }

  // ---- the formula is computed in int

  predicate FitsInt(n: int) {
    INT_MIN <= n <= INT_MAX
  }

  // The values the C expression passes through, from left to right
  function Intermediates(m: Moment, tz: int): seq<int>
    requires Valid(m)
  {
    var year := m.date.year;
    var t0 := -1 * tz;
    var t1 := t0 + m.second;
    var t2 := t1 + m.minute * 60;
    var t3 := t2 + m.hour * 3600;
    var days := DayOfYear(m.date) - 1;
    var t4 := t3 + days * 86400;
    var years := year - 1900 - 70;
    var t5 := t4 + years * 31536000;
    var fours := (year - 1900 - 69) / 4;
    var t6 := t5 + fours * 86400;
    var hundreds := (year - 1900 - 1) / 100;
    var t7 := t6 - hundreds * 86400;
    var fourHundreds := (year - 1900 + 299) / 400;
    [t0, t1, m.minute * 60, t2, m.hour * 3600, t3, days, days * 86400, t4, year - 1900, years, years * 31536000, t5,
     year - 1900 - 69, fours, fours * 86400, t6, year - 1900 - 1, hundreds, hundreds * 86400, t7,
     year - 1900 + 299, fourHundreds, fourHundreds * 86400, t7 + fourHundreds * 86400]
  }

  lemma DayOfYearRange(d: Date)
    requires DatePartsValid(d)
    ensures 1 <= DayOfYear(d) <= 365 + Leap(d.year)
  {
    hide YearIsLeap;
    if d.month < 12 {
      TablesAgree(Leap(d.year), d.month + 1);
      CumulativeRange(Leap(d.year), d.month + 1);
    }
  }

  lemma {:induction false} CumulativeRange(leap: nat, month: int)
    requires leap < 2 && 1 <= month <= 12
    ensures 0 <= CUMULATIVE_DAYS[leap][month - 1] <= 334 + leap
  {
  }

  // Up to the end of 2037 no value leaves the range of a 32-bit int, whatever the valid offset
  lemma FitsUntil2037(m: Moment, tz: int)
    requires Valid(m) && m.date.year <= 2037 && -12 * 3600 <= tz <= 14 * 3600
    ensures forall k :: 0 <= k < |Intermediates(m, tz)| ==> FitsInt(Intermediates(m, tz)[k])
    ensures Intermediates(m, tz)[|Intermediates(m, tz)| - 1] == EpochFromParts(m, tz)
  {
    DayOfYearRange(m.date);
  }

  predicate AllFit(m: Moment, tz: int)
    requires Valid(m)
  {
    forall k :: 0 <= k < |Intermediates(m, tz)| ==> FitsInt(Intermediates(m, tz)[k])
  }

  // A result that fits is before 2039, whatever the offset
  lemma LateIntermediates(m: Moment, tz: int)
    requires Valid(m) && 2038 <= m.date.year && -12 * 3600 <= tz <= 14 * 3600
    ensures EpochFromParts(m, tz) >= (m.date.year - 1970) * 31536000
    ensures EpochFromParts(m, tz) <= INT_MAX ==> m.date.year == 2038
  {
    hide YearIsLeap;
    DayOfYearRange(m.date);
    var year := m.date.year;
    assert (year - 1969) / 4 - (year - 1901) / 100 + (year - 1601) / 400 >= 1;
  }

  lemma LastIntermediate(m: Moment, tz: int)
    requires Valid(m)
    ensures |Intermediates(m, tz)| == 25 && Intermediates(m, tz)[24] == EpochFromParts(m, tz)
  {
    hide YearIsLeap;
  }

  lemma Fits2038(m: Moment, tz: int)
    requires Valid(m) && m.date.year == 2038 && -12 * 3600 <= tz <= 14 * 3600 && EpochFromParts(m, tz) <= INT_MAX
    ensures AllFit(m, tz)
  {
    hide YearIsLeap;
    DayOfYearRange(m.date);
  }

  // No value the expression passes through leaves a 32-bit int exactly when the result itself does not
  lemma FitsExactly(m: Moment, tz: int)
    requires Valid(m) && -12 * 3600 <= tz <= 14 * 3600
    ensures AllFit(m, tz) <==> EpochFromParts(m, tz) <= INT_MAX
  {
    hide EpochFromParts, Intermediates, DatePartsValid;
    LastIntermediate(m, tz);
    if m.date.year <= 2037 {
      FitsUntil2037(m, tz);
    } else {
      LateIntermediates(m, tz);
      if m.date.year == 2038 && EpochFromParts(m, tz) <= INT_MAX {
        Fits2038(m, tz);
      }
    }
  }

  const LAST := Moment(Date(2038, 1, 19), 3, 14, 7)

  lemma LastSecond()
    ensures Valid(LAST) && EpochFromParts(LAST, 0) == INT_MAX
  {
  }

  // At GMT that is up to and including one second
  lemma FitsUntilLast(m: Moment)
    requires Valid(m)
    ensures AllFit(m, 0) <==> !Earlier(LAST, m)
  {
    hide DatePartsValid, AllFit;
    assert Valid(LAST) && EpochFromParts(LAST, 0) == INT_MAX by {
      LastSecond();
    }
    hide EpochFromParts;
    FitsExactly(m, 0);
    if Earlier(LAST, m) {
      StrictlyMonotone(LAST, m, 0);
    } else if m != LAST {
      StrictlyMonotone(m, LAST, 0);
    }
  }

  // One second later the result does not fit
  lemma OverflowsIn2038(m: Moment)
    requires m == Moment(Date(2038, 1, 19), 3, 14, 8)
    ensures Valid(m) && EpochFromParts(m, 0) == INT_MAX + 1
  {
  }

  // An offset made of hours and the minutes of an hour is within the range assumed above
  lemma OffsetRange(tzHour: int, tzMinute: int)
    requires TzPartsValid(tzHour, tzMinute) && 0 <= tzMinute < 60
    ensures -12 * 3600 <= TzOffsetSeconds(tzHour, tzMinute) <= 14 * 3600
  {
  }

  // The minutes east of GMT that the parts stand for; the sign of the hour is that of the minutes too
  function MinutesEast(tzHour: int, tzMinute: int): int {
    if tzHour < 0 then tzHour * 60 - tzMinute else tzHour * 60 + tzMinute
  }

  // The minutes themselves are not limited, so not every offset with valid parts is in that range. It is exactly when
  // the parts stand for no more than twelve hours west and fourteen hours east.
  lemma OffsetExactly(tzHour: int, tzMinute: int)
    requires TzPartsValid(tzHour, tzMinute)
    ensures TzOffsetSeconds(tzHour, tzMinute) == MinutesEast(tzHour, tzMinute) * 60
    ensures -12 * 3600 <= TzOffsetSeconds(tzHour, tzMinute) <= 14 * 3600 <==>
            -720 <= MinutesEast(tzHour, tzMinute) <= 840
  {
  }

  // With the minutes of an hour the valid offsets are the quarters of an hour in that range
  lemma OffsetValidExactly(tzHour: int, tzMinute: int)
    requires 0 <= tzMinute < 60
    ensures TzPartsValid(tzHour, tzMinute) <==>
            tzMinute % 15 == 0 && -720 <= MinutesEast(tzHour, tzMinute) <= 840
  {
  }

  // Two digits of minutes are enough to leave it
  lemma OffsetUnlimited(tzHour: int, tzMinute: int)
    requires (tzHour, tzMinute) in {(13, 75), (-11, 75)}
    ensures TzPartsValid(tzHour, tzMinute) && !(-12 * 3600 <= TzOffsetSeconds(tzHour, tzMinute) <= 14 * 3600)
  {
    OffsetExactly(tzHour, tzMinute);
  }
}
