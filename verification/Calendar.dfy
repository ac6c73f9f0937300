// The calendar the FAT time stamps are read in (kernel/fs/fat32_utils.c): days
// counted from 1 January 1980 in the Gregorian calendar, and the proof that a
// number of seconds belongs to exactly one date and time.
module Calendar {

  predicate IsLeap(y: nat) { (y % 4 == 0 && y % 100 != 0) || y % 400 == 0 }

  function YearDays(y: nat): nat { if IsLeap(y) then 366 else 365 }

  function MonthDays(y: nat, m: nat): nat {
    if m == 2 then (if IsLeap(y) then 29 else 28)
    else if m == 4 || m == 6 || m == 9 || m == 11 then 30
    else 31
  }

  function DaysBeforeYear(y: nat): nat {
    if y <= 1980 then 0 else DaysBeforeYear(y - 1) + YearDays(y - 1)
  }

  function DaysBeforeMonth(y: nat, m: nat): nat {
    if m <= 1 then 0 else DaysBeforeMonth(y, m - 1) + MonthDays(y, m - 1)
  }

  datatype Stamp = Stamp(year: nat, month: nat, day: nat, hour: nat, minute: nat, half: nat)

  // A date of the range 1980 to 2107 and a time in steps of two seconds.
  predicate ValidStamp(s: Stamp) {
    && 1980 <= s.year <= 2107 && 1 <= s.month <= 12 && 1 <= s.day <= MonthDays(s.year, s.month)
    && s.hour < 24 && s.minute < 60 && s.half < 30
  }

  function DayNumber(y: nat, m: nat, d: nat): nat
    requires d > 0
  {
    DaysBeforeYear(y) + DaysBeforeMonth(y, m) + d - 1
  }

  // Seconds from 1970 to 1980, and to the end of 2107.
  const EPOCH := 315532800
  const END := 4354819200

  function Seconds(s: Stamp): nat
    requires s.day > 0
  {
    EPOCH + 86400 * DayNumber(s.year, s.month, s.day) + 3600 * s.hour + 60 * s.minute + 2 * s.half
  }

  // ------------------------------------------------------------------------
  // The same count from 1970
  // ------------------------------------------------------------------------

  function DaysSince1970(y: nat): nat {
    if y <= 1970 then 0 else DaysSince1970(y - 1) + YearDays(y - 1)
  }

  // Seconds since the beginning of 1970.
  function UnixSeconds(s: Stamp): nat
    requires s.day > 0
  {
    86400 * (DaysSince1970(s.year) + DaysBeforeMonth(s.year, s.month) + (s.day - 1))
    + 3600 * s.hour + 60 * s.minute + 2 * s.half
  }

  lemma TenYears()
    ensures DaysSince1970(1980) == 3652
  {
    assert DaysSince1970(1971) == 365;
    assert DaysSince1970(1973) == 1096;
    assert DaysSince1970(1975) == 1826;
    assert DaysSince1970(1977) == 2557;
    assert DaysSince1970(1979) == 3287;
  }

  lemma {:induction false} DaysSinceSplit(y: nat)
    requires y >= 1980
    ensures DaysSince1970(y) == DaysSince1970(1980) + DaysBeforeYear(y)
  {
    if y > 1980 {
      DaysSinceSplit(y - 1);
    }
  }

  // The constant of the source is the time from 1970 to 1980.
  lemma SecondsIsUnix(s: Stamp)
    requires s.year >= 1980 && s.day > 0
    ensures Seconds(s) == UnixSeconds(s)
  {
    TenYears();
    DaysSinceSplit(s.year);
  }

  // The lengths of the months without their list: 31 and 30 days in turn, beginning
  // with 31 and beginning again in August, except that February has what the year
  // leaves it.
  lemma MonthLengths(y: nat, m: nat)
    requires 1 <= m <= 12
    ensures MonthDays(y, m) == if m == 2 then YearDays(y) - 337 else 30 + (m + m / 8) % 2
  {}

  // ------------------------------------------------------------------------
  // Years and months fill the days
  // ------------------------------------------------------------------------

  lemma MonthsFillYear(y: nat)
    ensures DaysBeforeMonth(y, 13) == YearDays(y)
  {
    var leap := if IsLeap(y) then 1 else 0;
    assert DaysBeforeMonth(y, 2) == 31;
    assert DaysBeforeMonth(y, 3) == 59 + leap;
    assert DaysBeforeMonth(y, 4) == 90 + leap;
    assert DaysBeforeMonth(y, 5) == 120 + leap;
    assert DaysBeforeMonth(y, 6) == 151 + leap;
    assert DaysBeforeMonth(y, 7) == 181 + leap;
    assert DaysBeforeMonth(y, 8) == 212 + leap;
    assert DaysBeforeMonth(y, 9) == 243 + leap;
    assert DaysBeforeMonth(y, 10) == 273 + leap;
    assert DaysBeforeMonth(y, 11) == 304 + leap;
    assert DaysBeforeMonth(y, 12) == 334 + leap;
    assert DaysBeforeMonth(y, 13) == 365 + leap;
  }

  lemma {:induction false} MonthsMono(y: nat, m: nat, n: nat)
    requires 1 <= m <= n
    ensures DaysBeforeMonth(y, m) <= DaysBeforeMonth(y, n)
  {
    if m < n {
      MonthsMono(y, m, n - 1);
    }
  }

  lemma {:induction false} YearsMono(y: nat, z: nat)
    requires 1980 <= y <= z
    ensures DaysBeforeYear(y) <= DaysBeforeYear(z)
  {
    if y < z {
      YearsMono(y, z - 1);
    }
  }

  // The days of a year lie between the first days of it and of the next.
  lemma DayInYear(y: nat, m: nat, d: nat)
    requires 1980 <= y && 1 <= m <= 12 && 1 <= d <= MonthDays(y, m)
    ensures DaysBeforeYear(y) <= DayNumber(y, m, d) < DaysBeforeYear(y + 1)
    ensures DaysBeforeMonth(y, m) <= DayNumber(y, m, d) - DaysBeforeYear(y) < DaysBeforeMonth(y, m + 1)
  {
    MonthsMono(y, m + 1, 13);
    MonthsFillYear(y);
  }

  lemma QuarterStep(y: nat)
    requires y > 1980
    ensures (y - 1977) / 4 == (y - 1978) / 4 + (if (y - 1) % 4 == 0 then 1 else 0)
  {}

  lemma {:induction false} DaysBeforeYearIs(y: nat)
    requires 1980 <= y <= 2199
    ensures DaysBeforeYear(y) == 365 * (y - 1980) + (y - 1977) / 4 - (if y > 2100 then 1 else 0)
  {
    if y > 1980 {
      DaysBeforeYearIs(y - 1);
      QuarterStep(y);
    }
  }

  lemma RangeEnds()
    ensures EPOCH + 86400 * DaysBeforeYear(2108) == END
  {
    DaysBeforeYearIs(2108);
  }

  // ------------------------------------------------------------------------
  // One date for each day, one stamp for each even second
  // ------------------------------------------------------------------------

  lemma DayNumberInjective(y: nat, m: nat, d: nat, z: nat, n: nat, e: nat)
    requires 1980 <= y && 1 <= m <= 12 && 1 <= d <= MonthDays(y, m)
    requires 1980 <= z && 1 <= n <= 12 && 1 <= e <= MonthDays(z, n)
    requires DayNumber(y, m, d) == DayNumber(z, n, e)
    ensures y == z && m == n && d == e
  {
    DayInYear(y, m, d);
    DayInYear(z, n, e);
    if y < z {
      YearsMono(y + 1, z);
    } else if z < y {
      YearsMono(z + 1, y);
    } else if m < n {
      MonthsMono(y, m + 1, n);
    } else if n < m {
      MonthsMono(y, n + 1, m);
    }
  }

  lemma TimeOfDayInjective(a: nat, b: nat, h: nat, m: nat, s: nat, i: nat, n: nat, t: nat)
    requires h < 24 && m < 60 && s < 30 && i < 24 && n < 60 && t < 30
    requires 86400 * a + 3600 * h + 60 * m + 2 * s == 86400 * b + 3600 * i + 60 * n + 2 * t
    ensures a == b && h == i && m == n && s == t
  {}

  lemma SecondsInjective(s: Stamp, t: Stamp)
    requires ValidStamp(s) && ValidStamp(t) && Seconds(s) == Seconds(t)
    ensures s == t
  {
    TimeOfDayInjective(DayNumber(s.year, s.month, s.day), DayNumber(t.year, t.month, t.day),
                       s.hour, s.minute, s.half, t.hour, t.minute, t.half);
    DayNumberInjective(s.year, s.month, s.day, t.year, t.month, t.day);
  }

  lemma SecondsInRange(s: Stamp)
    requires ValidStamp(s)
    ensures EPOCH <= Seconds(s) < END && Seconds(s) % 2 == 0
  {
    DayInYear(s.year, s.month, s.day);
    YearsMono(s.year + 1, 2108);
    RangeEnds();
  }
}
