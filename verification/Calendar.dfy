/** Calendar time: seconds since 1970 to broken-down time and back, and the CP/M date. */
module Calendar {
  import opened Arith

  predicate IsLeapYear(y: int)
  {
    y % 4 == 0 && (y % 100 != 0 || y % 400 == 0)
  }

  function YearDays(y: int): nat
  {
    if IsLeapYear(y) then 366 else 365
  }

  /** Days from 1 January 1970 to 1 January of `y`, year by year. */
  function DaysBefore(y: int): nat
    requires y >= 1970
    decreases y
  {
    if y == 1970 then 0 else DaysBefore(y - 1) + YearDays(y - 1)
  }

  /** __spm: days of a common year before each month. */
  const SPM: seq<int> := [0, 31, 59, 90, 120, 151, 181, 212, 243, 273, 304, 334, 365]

  /** struct tm. */
  datatype Civil = Civil(sec: int, min: int, hour: int, mday: int, mon: int, year: int, wday: int, yday: int)

  /** The leap day of the year, if it is past in a month. */
  function LeapShift(y: int, mon: int): int
  {
    if IsLeapYear(y) && mon > 1 then 1 else 0
  }

  /** An existing date and time of day, with its day of the year. */
  predicate IsCivil(c: Civil)
  {
    && 0 <= c.sec < 60 && 0 <= c.min < 60 && 0 <= c.hour < 24
    && 0 <= c.mon <= 11
    && 1 <= c.mday <= SPM[c.mon + 1] - SPM[c.mon] + (if IsLeapYear(1900 + c.year) && c.mon == 1 then 1 else 0)
    && c.yday == SPM[c.mon] + c.mday - 1 + LeapShift(1900 + c.year, c.mon)
    && c.year >= 70
  }

  function Day(c: Civil): int
    requires c.year >= 70
  {
    DaysBefore(1900 + c.year) + c.yday
  }

  /** `c` is the broken-down form of `t` seconds since 1970. */
  predicate Denotes(c: Civil, t: int)
  {
    IsCivil(c) && c.wday == (Day(c) + 4) % 7 && t == ((Day(c) * 24 + c.hour) * 60 + c.min) * 60 + c.sec
  }

  /** Days of a month, 0 being January. */
  function MonthDays(y: int, mon: nat): nat
  {
    if mon == 1 then (if y % 4 == 0 && (y % 100 != 0 || y % 400 == 0) then 29 else 28)
    else if mon in {3, 5, 8, 10} then 30
    else 31
  }

  /** Days of the year before a month, month by month. */
  function DaysOfMonths(y: int, mon: nat): nat
  {
    if mon == 0 then 0 else DaysOfMonths(y, mon - 1) + MonthDays(y, mon - 1)
  }

  /** Existing dates are those within the lengths of the months, and the day of the year counts their days. */
  lemma CivilByMonths(c: Civil)
    requires 0 <= c.sec < 60 && 0 <= c.min < 60 && 0 <= c.hour < 24 && 0 <= c.mon <= 11 && c.year >= 70
    ensures var y := 1900 + c.year;
            IsCivil(c)
            <==> 1 <= c.mday <= MonthDays(y, c.mon) && c.yday == DaysOfMonths(y, c.mon) + c.mday - 1
  {
    MonthStarts(1900 + c.year, c.mon);
  }

  lemma {:induction false} MonthStarts(y: int, mon: nat)
    requires mon <= 11
    ensures DaysOfMonths(y, mon) == SPM[mon] + LeapShift(y, mon)
    ensures SPM[mon + 1] - SPM[mon] + (if mon == 1 && IsLeapYear(y) then 1 else 0) == MonthDays(y, mon)
  {
    if mon > 0 {
      MonthStarts(y, mon - 1);
    }
  }

  /** Twelve months make a year. */
  lemma YearOfMonths(y: int)
    ensures DaysOfMonths(y, 12) == YearDays(y)
  {
    MonthStarts(y, 11);
  }

  class Tm {
    var sec: int
    var min: int
    var hour: int
    var mday: int
    var mon: int
    var year: int
    var wday: int
    var yday: int

    constructor ()
    {
      sec, min, hour, mday, mon, year, wday, yday := 0, 0, 0, 1, 0, 70, 4, 0;
    }

    function View(): Civil
      reads this
    {
      Civil(sec, min, hour, mday, mon, year, wday, yday)
    }
  }

  lemma NextYear(y: int)
    requires y >= 1970
    ensures DaysBefore(1970) == 0 && DaysBefore(y + 1) == DaysBefore(y) + YearDays(y)
  {
  }

  method GmtimeR(t: nat, r: Tm)
    modifies r
    ensures Denotes(r.View(), t)
  {
    hide DaysBefore;
    NextYear(1970);
    var work := t % 86400;
    r.sec := work % 60;
    work := work / 60;
    r.min := work % 60;
    r.hour := work / 60;
    work := t / 86400;
    r.wday := (4 + work) % 7;
    ghost var c := r.View();
    var i := 1970;
    while work >= YearDays(i)
      invariant r.View() == c && 1970 <= i && 0 <= work && DaysBefore(i) + work == t / 86400
      decreases work
    {
      NextYear(i);
      work := work - YearDays(i);
      i := i + 1;
    }
    r.year := i - 1900;
    r.yday := work;
    r.mday := 1;
    if IsLeapYear(i) && work > 58 {
      if work == 59 {
        r.mday := 2;
      }
      work := work - 1;
    }
    var m := 11;
    while m > 0 && SPM[m] > work
      invariant 0 <= m <= 11 && (m < 11 ==> SPM[m + 1] > work)
    {
      m := m - 1;
    }
    r.mon := m;
    r.mday := r.mday + work - SPM[m];
  }

  /** Leap years among the first `years` years from 1970 that the rule of four counts but the calendar does not. */
  function Skipped(years: int): int
  {
    if years < 131 then 0
    else
      var c := (years - 131) / 100;
      c / 4 * 3 + 1 + (if c % 4 == 3 then 2 else c % 4)
  }

  /** The closed form agrees with counting year by year. */
  lemma {:induction false} ClosedForm(y: int)
    requires y >= 1970
    ensures DaysBefore(y) == (y - 1970) * 365 + (y - 1970 + 1) / 4 - Skipped(y - 1970)
    decreases y
  {
    hide IsLeapYear;
    if y > 1970 {
      hide Skipped;
      ClosedForm(y - 1);
      SkippedStep(y - 1);
      LeapDay(y - 1);
    }
  }

  lemma LeapDay(y: int)
    ensures YearDays(y) == 365 + (y - 1970 + 2) / 4 - (y - 1970 + 1) / 4 - if y % 100 == 0 && y % 400 != 0 then 1 else 0
  {
    FourthYear(y);
    Centuries(y);
  }

  /** The quotient by four steps up every fourth year. */
  lemma FourthYear(y: int)
    ensures (y - 1970 + 2) / 4 - (y - 1970 + 1) / 4 == if y % 4 == 0 then 1 else 0
  {
    var q, r := y / 4, y % 4;
    DivModFacts(y, 4);
    DivModUnique(y - 1970 + 2, 4, q - 492, r);
    if r == 0 {
      DivModUnique(y - 1970 + 1, 4, q - 493, 3);
    } else {
      DivModUnique(y - 1970 + 1, 4, q - 492, r - 1);
    }
  }

  lemma Centuries(y: int)
    ensures y % 100 == 0 ==> y % 4 == 0
    ensures y % 400 == 0 ==> y % 100 == 0
  {
    DivModFacts(y, 100);
    DivModFacts(y, 400);
    if y % 100 == 0 {
      DivModUnique(y, 4, 25 * (y / 100), 0);
    }
    if y % 400 == 0 {
      DivModUnique(y, 100, 4 * (y / 400), 0);
    }
  }

  lemma SkippedStep(y: int)
    requires y >= 1970
    ensures Skipped(y - 1970 + 1) - Skipped(y - 1970) == if y % 100 == 0 && y % 400 != 0 then 1 else 0
  {
    var x := y - 2100;
    var c, r := x / 100, x % 100;
    DivModFacts(x, 100);
    DivModUnique(y, 100, c + 21, r);
    if y > 2100 {
      if r > 0 {
        DivModUnique(x - 1, 100, c, r - 1);
      } else {
        DivModUnique(x - 1, 100, c - 1, 99);
      }
    }
    FourCenturies(c, r);
  }

  /** Of the century years, every fourth is a leap year. */
  lemma FourCenturies(c: int, r: int)
    requires 0 <= r < 100
    ensures (100 * c + r + 2100) % 400 == 0 <==> r == 0 && c % 4 == 3
  {
    var q, k := c / 4, c % 4;
    assert c == 4 * q + k;
    var s := 100 * k + r + 100;
    assert 100 * c + r + 2100 == 400 * (q + 5) + s;
    if s < 400 {
      DivModUnique(100 * c + r + 2100, 400, q + 5, s);
    } else {
      DivModUnique(100 * c + r + 2100, 400, q + 6, s - 400);
    }
  }

  /** The calendar repeats every four centuries, after 146097 days. */
  lemma FourCenturiesOn(y: int)
    requires y >= 1970
    ensures DaysBefore(y + 400) == DaysBefore(y) + 146097
  {
    hide DaysBefore;
    hide IsLeapYear;
    hide Skipped;
    ClosedForm(y);
    ClosedForm(y + 400);
    SkippedOn(y - 1970);
  }

  lemma SkippedOn(x: nat)
    ensures Skipped(x + 400) == Skipped(x) + 3
  {
    if x < 131 {
      DivModFacts(x + 269, 100);
    } else {
      DivModUnique(x + 269, 100, (x - 131) / 100 + 4, (x - 131) % 100);
    }
  }

  /** 29 February 2000 was a Tuesday, and 1 March 2100 will be the Monday after 28 February. */
  lemma LeapDates()
    ensures Denotes(Civil(0, 0, 0, 29, 1, 100, 2, 59), 951782400)
    ensures Denotes(Civil(0, 0, 0, 1, 2, 200, 1, 59), 4107542400)
    ensures Denotes(Civil(59, 59, 23, 28, 1, 200, 0, 58), 4107542399)
  {
    hide DaysBefore;
    ClosedForm(2000);
    ClosedForm(2100);
  }

  /** The days up to the start of year 1970 + `years`, as mktime counts them. */
  method DaysTo(years0: int) returns (day: int)
    ensures years0 >= 0 ==> day == DaysBefore(1970 + years0)
  {
    var years := years0;
    day := years * 365 + (years + 1) / 4;
    years := years - 131;
    if years >= 0 {
      years := years / 100;
      day := day - (years / 4 * 3 + 1);
      years := years % 4;
      if years == 3 {
        years := years - 1;
      }
      day := day - years;
    }
    if years0 >= 0 {
      ClosedForm(1970 + years0);
    }
  }

  /** Existing dates need no normalisation. */
  lemma CivilBounds(c: Civil)
    requires IsCivil(c)
    ensures 0 <= c.sec < 60 && 0 <= c.min < 60 && 0 <= c.hour < 60 && 0 <= c.mon <= 11 && c.mday <= SPM[1 + c.mon]
  {
    hide IsLeapYear;
  }

  /** The normalisation at the start of mktime: seconds to months, */
  method Carry(t: Tm)
    requires t.mon != 12
    modifies t
    ensures 0 <= t.mon <= 11
    ensures IsCivil(old(t.View())) ==> t.View() == old(t.View())
  {
    hide IsCivil;
    if IsCivil(t.View()) {
      CivilBounds(t.View());
    }
    if t.sec > 60 { t.min, t.sec := t.min + t.sec / 60, t.sec % 60; }
    if t.min > 60 { t.hour, t.min := t.hour + t.min / 60, t.min % 60; }
    if t.hour > 60 { t.mday, t.hour := t.mday + t.hour / 60, t.hour % 60; }
    if t.mon > 12 { t.year, t.mon := t.year + t.mon / 12, t.mon % 12; }
    if t.mon < 0 { t.mon := 0; }
  }

  /** and then days. It leaves existing dates alone. */
  method Normalise(t: Tm)
    requires t.mon != 12
    modifies t
    ensures 0 <= t.mon <= 11
    ensures IsCivil(old(t.View())) ==> t.View() == old(t.View())
  {
    hide IsCivil;
    hide IsLeapYear;
    ghost var c := t.View();
    Carry(t);
    if IsCivil(c) {
      CivilBounds(c);
    }
    while t.mday > SPM[1 + t.mon]
      invariant 0 <= t.mon <= 11
      invariant IsCivil(c) ==> t.View() == c
      decreases t.mday, 12 - t.mon
    {
      if t.mon == 1 && IsLeapYear(t.year + 1900) {
        t.mday := t.mday - 1;
      }
      t.mday := t.mday - SPM[t.mon];
      t.mon := t.mon + 1;
      if t.mon > 11 {
        t.mon, t.year := 0, t.year + 1;
      }
    }
  }

  method Mktime(t: Tm) returns (r: int)
    requires t.mon != 12
    modifies t
    ensures IsCivil(old(t.View())) ==> Denotes(t.View(), r) && t.View() == old(t.View()).(wday := t.wday)
    ensures t.year < 70 ==> r == -1
  {
    hide IsLeapYear;
    var years := t.year - 70;
    Normalise(t);
    if t.year < 70 {
      return -1;
    }
    var day := DaysTo(years);
    t.yday := SPM[t.mon] + t.mday - 1 + LeapShift(t.year + 1900, t.mon);
    day := day + t.yday;
    t.wday := (day + 4) % 7;
    r := ((day * 24 + t.hour) * 60 + t.min) * 60 + t.sec;
  }

  /** mktime inverts gmtime_r, weekday and day of the year included. */
  method RoundTrip(t: nat) returns (r: int)
    ensures r == t
  {
    var tm := new Tm();
    GmtimeR(t, tm);
    ghost var c := tm.View();
    r := Mktime(tm);
    assert tm.View() == c;
  }

  /** get_date: the CP/M day number, counting every fourth year from 1978 as a leap year. */
  method GetDate(t: Tm) returns (val: int)
    requires t.year >= 70
    ensures IsCivil(t.View()) ==> (val == Day(t.View()) - 2922 + 1 <==> 1978 <= 1900 + t.year <= 2100)
  {
    hide DaysBefore;
    hide IsLeapYear;
    val := 0;
    var i := 1978;
    while i < 1900 + t.year
      invariant 1978 <= i && (i <= 1900 + t.year || (i == 1978 && val == 0))
      invariant i <= 2100 ==> val == DaysBefore(i) - DaysBefore(1978)
      invariant i > 2100 ==> val > DaysBefore(i) - DaysBefore(1978)
    {
      FourYears(i);
      val := val + 365;
      if i % 4 == 0 {
        val := val + 1;
      }
      i := i + 1;
    }
    val := val + t.yday + 1;
    ClosedForm(1978);
    if t.year < 78 {
      Before1978(1900 + t.year);
    }
  }

  /** One year of the calendar against one by the rule of four. */
  lemma FourYears(y: int)
    requires y >= 1978
    ensures DaysBefore(y + 1) <= DaysBefore(y) + 365 + if y % 4 == 0 then 1 else 0
    ensures y < 2100 ==> DaysBefore(y + 1) == DaysBefore(y) + 365 + if y % 4 == 0 then 1 else 0
    ensures y == 2100 ==> DaysBefore(y + 1) == DaysBefore(y) + 365
  {
    if y % 100 == 0 && y < 2100 {
      assert y == 2000;
    }
  }

  lemma {:induction false} Before1978(y: int)
    requires 1970 <= y < 1978
    ensures DaysBefore(y) < 2922
    decreases 1978 - y
  {
    ClosedForm(y);
  }

  /** Later years start later. */
  lemma {:induction false} Later(y: int, z: int)
    requires 1970 <= y < z
    ensures DaysBefore(y) + YearDays(y) <= DaysBefore(z)
    decreases z
  {
    if z > y + 1 {
      Later(y, z - 1);
    }
  }

  /** A moment has one broken-down form, so gmtime_r's is the one. */
  lemma DenotesOnce(c: Civil, d: Civil, t: int)
    requires Denotes(c, t) && Denotes(d, t)
    ensures c == d
  {
    hide DaysBefore;
    hide IsLeapYear;
    WholeDays(c, t);
    WholeDays(d, t);
    if c.year < d.year {
      Later(1900 + c.year, 1900 + d.year);
    } else if d.year < c.year {
      Later(1900 + d.year, 1900 + c.year);
    }
    SameYear(c, d);
  }

  lemma WholeDays(c: Civil, t: int)
    requires Denotes(c, t)
    ensures Day(c) == t / 86400 && c.sec == t % 60 && c.min == t / 60 % 60 && c.hour == t / 3600 % 24
  {
    hide DaysBefore;
    hide IsLeapYear;
    var m, h := (Day(c) * 24 + c.hour) * 60 + c.min, Day(c) * 24 + c.hour;
    DivModUnique(t, 60, m, c.sec);
    DivModUnique(t, 3600, h, c.min * 60 + c.sec);
    DivModUnique(t, 86400, Day(c), c.hour * 3600 + c.min * 60 + c.sec);
    DivModUnique(m, 60, h, c.min);
    DivModUnique(h, 24, Day(c), c.hour);
  }

  lemma SameYear(c: Civil, d: Civil)
    requires IsCivil(c) && IsCivil(d)
    ensures c.yday < YearDays(1900 + c.year)
    ensures c.year == d.year && c.yday == d.yday ==> c.mon == d.mon && c.mday == d.mday
  {
  }
}
