// kernel/fs/fat32_utils.c:65-153: reading a FAT date and time as Unix seconds and
// writing Unix seconds as a FAT date and time.  The layout is that of section 6
// of the Microsoft FAT Specification: seven bits of year from 1980, four of
// month and five of day; five bits of hour, six of minute and five of seconds
// halved.
module FatTime {
  import opened Bits
  import opened Values
  import opened Calendar

  // ------------------------------------------------------------------------
  // The layout
  // ------------------------------------------------------------------------

  function Fields(date: nat, time: nat): Stamp {
    Stamp(1980 + date / 512, date / 32 % 16, date % 32, time / 2048, time / 32 % 64, time % 32)
  }

  // The words are made of the fields, the year and the hour on top.
  lemma FieldsLayout(date: nat, time: nat)
    ensures var f := Fields(date, time);
            && date == (f.year - 1980) * 512 + f.month * 32 + f.day && f.month < 16 && f.day < 32
            && time == f.hour * 2048 + f.minute * 32 + f.half && f.minute < 64 && f.half < 32
  {
    ModSplit(date, 32, 16);
    DivDiv(date, 32, 16);
    ModSplit(time, 32, 64);
    DivDiv(time, 32, 64);
  }

  lemma FieldBits(x: nat, n: nat, m: nat, y: nat, q: nat)
    requires Shr(x, n) == y && Pow2(m) == q
    ensures And(Shr(x, n), q - 1) == y % q
  {
    AndMask(y, m);
  }

  lemma SmallPowers()
    ensures Pow2(0) == 1 && Pow2(4) == 16 && Pow2(5) == 32 && Pow2(6) == 64 && Pow2(7) == 128
    ensures Pow2(9) == 512 && Pow2(11) == 2048
  {
    Powers();
  }

  lemma DateBits(d: nat)
    requires d < TWO16
    ensures And(Shr(d, 9), 0x7f) == d / 512 && And(Shr(d, 5), 0x0f) == d / 32 % 16 && And(d, 0x1f) == d % 32
  {
    SmallPowers();
    FieldBits(d, 9, 7, d / 512, 128);
    ModSmall(d / 512, 128);
    FieldBits(d, 5, 4, d / 32, 16);
    AndMask(d, 5);
  }

  lemma TimeBits(t: nat)
    requires t < TWO16
    ensures And(Shr(t, 11), 0x1f) == t / 2048 && And(Shr(t, 5), 0x3f) == t / 32 % 64 && And(t, 0x1f) == t % 32
  {
    SmallPowers();
    FieldBits(t, 11, 5, t / 2048, 32);
    ModSmall(t / 2048, 32);
    FieldBits(t, 5, 6, t / 32, 64);
    AndMask(t, 5);
  }

  lemma ShlSmall(a: nat, n: nat, p: nat)
    requires Pow2(n) == p && a * p < TWO32
    ensures Shl(a, n, 32) == a * p
  {
    assert Pow2(32) == TWO32 by { Powers(); }
    ModSmall(a * p, TWO32);
  }

  lemma OrOf(hi: nat, lo: nat, n: nat, p: nat)
    requires Pow2(n) == p && lo < p
    ensures Or(hi * p, lo) == hi * p + lo
  {
    OrDisjoint(hi, lo, n);
  }

  lemma PackDate(y: nat, m: nat, d: nat)
    requires y < 0x40_0000 && m < 16 && d < 32
    ensures Or(Or(Shl(y, 9, 32), Shl(m, 5, 32)), d) == y * 512 + m * 32 + d
  {
    SmallPowers();
    ShlSmall(y, 9, 512);
    ShlSmall(m, 5, 32);
    OrOf(y, m * 32, 9, 512);
    OrOf(y * 16 + m, d, 5, 32);
  }

  lemma PackTime(h: nat, m: nat, s: nat)
    requires h < 32 && m < 64 && s < 32
    ensures Or(Or(Shl(h, 11, 32), Shl(m, 5, 32)), s) == h * 2048 + m * 32 + s
  {
    SmallPowers();
    ShlSmall(h, 11, 2048);
    ShlSmall(m, 5, 32);
    OrOf(h, m * 32, 11, 2048);
    OrOf(h * 64 + m, s, 5, 32);
  }

  // A date and a time are determined by their fields.
  lemma FieldsInjective(d: nat, t: nat, e: nat, u: nat)
    requires d < TWO16 && t < TWO16 && e < TWO16 && u < TWO16 && Fields(d, t) == Fields(e, u)
    ensures d == e && t == u
  {
    DateDigits(d);
    DateDigits(e);
    TimeDigits(t);
    TimeDigits(u);
  }

  lemma DateDigits(d: nat)
    ensures d == 512 * (d / 512) + 32 * (d / 32 % 16) + d % 32
  {
    DivDiv(d, 32, 16);
  }

  lemma TimeDigits(t: nat)
    ensures t == 2048 * (t / 2048) + 32 * (t / 32 % 64) + t % 32
  {
    DivDiv(t, 32, 64);
  }

  // ------------------------------------------------------------------------
  // fat32_date_to_unix
  // ------------------------------------------------------------------------

  function Wrap64(x: nat): nat { x % TWO64 }

  // What the source computes from the fields: a day of 0 wraps to 2^32 - 1 days.
  function Reading(f: Stamp): nat {
    Wrap64(EPOCH + 86400 * (DaysBeforeYear(f.year) + DaysBeforeMonth(f.year, f.month) + (f.day + TWO32 - 1) % TWO32)
           + 3600 * f.hour + 60 * f.minute + 2 * f.half)
  }

  method CountYears(year: nat) returns (days: nat)
    requires 1980 <= year
    ensures days == DaysBeforeYear(year)
  {
    days := 0;
    for y := 1980 to year
      invariant days == DaysBeforeYear(y)
    {
      days := days + 365;
      if (y % 4 == 0 && y % 100 != 0) || y % 400 == 0 {
        days := days + 1;
      }
    }
  }

  // The local table of month lengths, February adjusted.
  method MonthTable(year: nat) returns (table: seq<nat>)
    ensures |table| == 12 && forall m :: 0 <= m < 12 ==> table[m] == MonthDays(year, m + 1)
  {
    table := [31, 28, 31, 30, 31, 30, 31, 31, 30, 31, 30, 31];
    if (year % 4 == 0 && year % 100 != 0) || year % 400 == 0 {
      table := table[1 := 29];
    }
  }

  method CountMonths(year: nat, month: nat, table: seq<nat>) returns (days: nat)
    requires month <= 13 && |table| == 12 && forall m :: 0 <= m < 12 ==> table[m] == MonthDays(year, m + 1)
    ensures days == DaysBeforeMonth(year, month)
  {
    days := 0;
    var m: nat := 1;
    while m < month
      invariant 1 <= m && (m <= month || m == 1)
      invariant days == DaysBeforeMonth(year, m)
    {
      days := days + table[m - 1];
      m := m + 1;
    }
  }

  method Unpack(date: nat, time: nat) returns (f: Stamp)
    requires date < TWO16 && time < TWO16
    ensures f == Fields(date, time)
  {
    DateBits(date);
    TimeBits(time);
    f := Stamp(1980 + And(Shr(date, 9), 0x7f), And(Shr(date, 5), 0x0f), And(date, 0x1f),
               And(Shr(time, 11), 0x1f), And(Shr(time, 5), 0x3f), And(time, 0x1f));
  }

  // The table of months ends at December: a month field of 14 or 15 reads past it.
  method DateToUnix(date: nat, time: nat) returns (r: nat)
    requires date < TWO16 && time < TWO16 && date / 32 % 16 <= 13
    ensures r == Reading(Fields(date, time))
  {
    var f := Unpack(date, time);
    r := FieldsToUnix(f);
  }

  // The count of days and seconds, from the unpacked fields.
  method FieldsToUnix(f: Stamp) returns (r: nat)
    requires f.year >= 1980 && f.month <= 13
    ensures r == Reading(f)
  {
    var days := CountYears(f.year);
    var table := MonthTable(f.year);
    var more := CountMonths(f.year, f.month, table);
    days := days + more;
    days := days + (f.day + TWO32 - 1) % TWO32;
    var second := f.half * 2;
    var seconds := days * 86400 + f.hour * 3600 + f.minute * 60 + second;
    assert seconds + 315532800 == EPOCH + 86400 * days + 3600 * f.hour + 60 * f.minute + 2 * f.half;
    r := Wrap64(seconds + 315532800);
  }

  lemma ReadingIsSeconds(f: Stamp)
    requires ValidStamp(f)
    ensures Reading(f) == Seconds(f) == UnixSeconds(f)
  {
    SecondsInRange(f);
    SecondsIsUnix(f);
    assert (f.day + TWO32 - 1) % TWO32 == f.day - 1;
  }

  // ------------------------------------------------------------------------
  // fat32_unix_to_date
  // ------------------------------------------------------------------------

  method FindYear(total: nat) returns (year: nat, days: nat)
    requires total < TWO64
    ensures days < YearDays(year) && year < TWO32
    ensures total < DaysBeforeYear(2108) ==> 1980 <= year <= 2107 && total == DaysBeforeYear(year) + days
  {
    year, days := 1980, total;
    assert DaysBeforeYear(2108) == DaysBeforeYear(2107) + YearDays(2107);
    while days >= 365
      invariant year < TWO32
      invariant total < DaysBeforeYear(2108) ==> 1980 <= year <= 2107 && total == DaysBeforeYear(year) + days
      decreases days
    {
      var isLeap := (year % 4 == 0 && year % 100 != 0) || year % 400 == 0;
      var yearDays := if isLeap then 366 else 365;
      if days < yearDays {
        break;
      }
      days := days - yearDays;
      if year + 1 < TWO32 {
        ModSmall(year + 1, TWO32);
      }
      year := (year + 1) % TWO32;
    }
  }

  method FindMonth(year: nat, days: nat, table: seq<nat>) returns (month: nat, day: nat)
    requires days < YearDays(year)
    requires |table| == 12 && forall m :: 0 <= m < 12 ==> table[m] == MonthDays(year, m + 1)
    ensures 1 <= month <= 12 && 1 <= day <= MonthDays(year, month) && days == DaysBeforeMonth(year, month) + day - 1
  {
    month := 1;
    day := days + 1;
    MonthsFillYear(year);
    var m: nat := 0;
    while m < 12
      invariant m <= 12 && day >= 1 && days == DaysBeforeMonth(year, m + 1) + day - 1
    {
      if day <= table[m] {
        month := m + 1;
        return;
      }
      day := day - table[m];
      m := m + 1;
    }
  }

  method PackDay(year: nat, month: nat, day: nat) returns (date: nat)
    requires month < 16 && day < 32 && year < TWO32
    ensures date < TWO16
    ensures 1980 <= year <= 2107 ==> date == (year - 1980) * 512 + month * 32 + day
  {
    date := Or(Or(Shl((year + TWO32 - 1980) % TWO32, 9, 32), Shl(month, 5, 32)), day) % TWO16;
    if 1980 <= year <= 2107 {
      var y := year - 1980;
      QuotRem(year + TWO32 - 1980, TWO32, 1, y);
      PackDate(y, month, day);
      ModSmall(y * 512 + month * 32 + day, TWO16);
    }
  }

  method PackClock(hour: nat, minute: nat, half: nat) returns (time: nat)
    requires hour < 32 && minute < 64 && half < 32
    ensures time < TWO16 && time == hour * 2048 + minute * 32 + half
  {
    time := Or(Or(Shl(hour, 11, 32), Shl(minute, 5, 32)), half) % TWO16;
    PackTime(hour, minute, half);
    ModSmall(hour * 2048 + minute * 32 + half, TWO16);
  }

  lemma DateSum(y: nat, m: nat, d: nat)
    requires m < 16 && d < 32
    ensures var x := y * 512 + m * 32 + d; x / 512 == y && x / 32 % 16 == m && x % 32 == d
  {
    var x := y * 512 + m * 32 + d;
    QuotRem(x, 512, y, m * 32 + d);
    QuotRem(x, 32, y * 16 + m, d);
    QuotRem(y * 16 + m, 16, y, m);
  }

  lemma TimeSum(h: nat, m: nat, s: nat)
    requires m < 64 && s < 32
    ensures var x := h * 2048 + m * 32 + s; x / 2048 == h && x / 32 % 64 == m && x % 32 == s
  {
    var x := h * 2048 + m * 32 + s;
    QuotRem(x, 2048, h, m * 32 + s);
    QuotRem(x, 32, h * 64 + m, s);
    QuotRem(h * 64 + m, 64, h, m);
  }

  // Hours, minutes and half minutes of a day.
  lemma TimeOfDay(t: nat, h: nat, m: nat, s: nat)
    requires t < 86400 && h == t / 3600 && m == t % 3600 / 60 && s == t % 60
    ensures h < 24 && m < 60 && s < 60 && 3600 * h + 60 * m + 2 * (s / 2) == t - t % 2
  {
    var r := t % 3600;
    var w := r % 60;
    assert t == 3600 * h + r && r == 60 * m + w;
    QuotRem(t, 60, 60 * h + m, w);
    QuotRem(t, 2, 1800 * h + 30 * m + w / 2, w % 2);
  }

  lemma EvenDay(f: nat)
    ensures f - f % 2 == 86400 * (f / 86400) + (f % 86400 - f % 86400 % 2)
  {
    var q, r := f / 86400, f % 86400;
    QuotRem(f, 2, 43200 * q + r / 2, r % 2);
  }

  lemma SinceEpoch(unix: nat)
    requires EPOCH <= unix < END
    ensures (unix + TWO64 - 315532800) % TWO64 == unix - EPOCH
    ensures (unix - EPOCH) / 86400 < DaysBeforeYear(2108)
  {
    RangeEnds();
  }

  lemma StampOf(unix: nat, f: Stamp, total: nat, inDay: nat)
    requires EPOCH <= unix && total == (unix - EPOCH) / 86400 && inDay == (unix - EPOCH) % 86400
    requires f.day > 0 && DayNumber(f.year, f.month, f.day) == total
    requires 3600 * f.hour + 60 * f.minute + 2 * f.half == inDay - inDay % 2
    ensures Seconds(f) == unix - unix % 2
  {
    EvenDay(unix - EPOCH);
    var u := unix - EPOCH;
    QuotRem(unix, 2, u / 2 + 157766400, u % 2);
  }

  method UnixToDate(unix: nat) returns (date: nat, time: nat)
    requires unix < TWO64
    ensures date < TWO16 && time < TWO16
    ensures EPOCH <= unix < END ==>
              ValidStamp(Fields(date, time)) && Seconds(Fields(date, time)) == unix - unix % 2
  {
    var fatSeconds := (unix + TWO64 - 315532800) % TWO64;
    var total := fatSeconds / 86400;
    var inDay := fatSeconds % 86400;
    var year, days := FindYear(total);
    var table := MonthTable(year);
    var month, day := FindMonth(year, days, table);
    var hour := inDay / 3600;
    var minute := inDay % 3600 / 60;
    var second := inDay % 60;
    TimeOfDay(inDay, hour, minute, second);
    date := PackDay(year, month, day);
    time := PackClock(hour, minute, second / 2);
    if EPOCH <= unix < END {
      SinceEpoch(unix);
      DateSum(year - 1980, month, day);
      TimeSum(hour, minute, second / 2);
      StampOf(unix, Fields(date, time), total, inDay);
    }
  }

  // ------------------------------------------------------------------------
  // The round trips
  // ------------------------------------------------------------------------

  method DateRoundTrip(date: nat, time: nat) returns (d: nat, t: nat)
    requires date < TWO16 && time < TWO16 && ValidStamp(Fields(date, time))
    ensures d == date && t == time
  {
    var f := Fields(date, time);
    var unix := DateToUnix(date, time);
    ReadingIsSeconds(f);
    SecondsInRange(f);
    d, t := UnixToDate(unix);
    SecondsInjective(Fields(d, t), f);
    FieldsInjective(d, t, date, time);
  }

  method UnixRoundTrip(unix: nat) returns (r: nat)
    requires EPOCH <= unix < END
    ensures r == unix - unix % 2
  {
    var d, t := UnixToDate(unix);
    r := DateToUnix(d, t);
    ReadingIsSeconds(Fields(d, t));
  }
}
