/**
 The calendar of getdate.c.  Years are written in full; the code keeps them less 1900.
 Month and weekday count from 0, the day of the month and the day of the year from 1.
 */
module Calendars {
  predicate Leap(y: nat) {
    (y % 4 == 0 && y % 100 != 0) || y % 400 == 0
  }

  /** `days`. */
  function Days(y: nat): (n: nat)
    ensures n in {365, 366}
  {
    if Leap(y) then 366 else 365
  }

  function Jan1Sum(y: nat): nat {
    4 + y + (y + 3) / 4 - (if y > 1800 then (y - 1701) / 100 else 0) + (if y > 1800 then (y - 1601) / 400 else 0)
    + (if y > 1752 then 3 else 0)
  }

  /** `jan1`: the weekday of January 1, Sunday being 0. */
  function Jan1(y: nat): (d: nat)
    ensures d < 7
  {
    Jan1Sum(y) % 7
  }

  /** Years whose number of days fits the step from their January 1 to the next. */
  predicate Regular(y: nat) {
    y != 1752 && (y < 1752 ==> y % 100 != 0 || y % 400 == 0)
  }

  lemma Quarter(y: nat)
    ensures (y + 4) / 4 == (y + 3) / 4 + (if y % 4 == 0 then 1 else 0)
  {
  }

  lemma Centuries(y: nat)
    requires y > 1800
    ensures (y + 1 - 1701) / 100 == (y - 1701) / 100 + (if y % 100 == 0 then 1 else 0)
    ensures (y + 1 - 1601) / 400 == (y - 1601) / 400 + (if y % 400 == 0 then 1 else 0)
  {
  }

  lemma Step(y: nat)
    ensures Jan1Sum(y + 1) == Jan1Sum(y) + 1 + (if y % 4 == 0 then 1 else 0)
            - (if y > 1800 && y % 100 == 0 then 1 else 0) + (if y > 1800 && y % 400 == 0 then 1 else 0)
            + (if y == 1752 then 3 else 0) - (if y == 1800 then 1 else 0)
  {
    Quarter(y);
    if y > 1800 {
      Centuries(y);
    }
  }

  lemma Sevens(a: nat, k: nat, n: nat)
    requires k <= 6 && n in {365, 366}
    ensures (a + k) % 7 == (a % 7 + n) % 7 <==> k == n - 364
  {
    assert a == 7 * (a / 7) + a % 7;
    assert (a + k) % 7 == (a % 7 + k) % 7;
  }

  lemma FourthYears(y: nat)
    ensures y % 100 == 0 ==> y % 4 == 0
    ensures y % 400 == 0 ==> y % 100 == 0
  {
    var c, f := y / 100, y / 400;
    Whole(y, 100);
    Whole(y, 400);
    Multiple(y, 25 * c, 4);
    Multiple(y, 4 * f, 100);
  }

  lemma Whole(y: nat, n: nat)
    requires n > 0
    ensures y % n == 0 ==> y == n * (y / n)
  {
  }

  lemma Multiple(y: nat, k: nat, n: nat)
    requires n == 4 || n == 100
    ensures y == n * k ==> y % n == 0
  {
  }

  /** January 1 moves on by the length of the year exactly for the regular years, which all from 1753 on are. */
  lemma NextJan1(y: nat)
    ensures Jan1(y + 1) == (Jan1(y) + Days(y)) % 7 <==> Regular(y)
  {
    hide Jan1Sum;
    Step(y);
    FourthYears(y);
    Sevens(Jan1Sum(y), Jan1Sum(y + 1) - Jan1Sum(y), Days(y));
  }

  // ----- months

  function MonthLength(y: nat, m: nat): (n: nat)
    requires m < 12
    ensures 28 <= n <= 31
  {
    if m == 1 then (if Leap(y) then 29 else 28)
    else if m == 3 || m == 5 || m == 8 || m == 10 then 30
    else 31
  }

  /** The months but February alternate between 31 and 30 days, twice over: 7 months and 5. */
  lemma MonthLengthRule(y: nat, m: nat)
    requires m < 12
    ensures MonthLength(y, m) == if m == 1 then Days(y) - 337 else 31 - (m % 7) % 2
  {
  }

  /** The days before month m. */
  function DaysBefore(y: nat, m: nat): nat
    requires m <= 12
  {
    if m == 0 then 0 else DaysBefore(y, m - 1) + MonthLength(y, m - 1)
  }

  lemma WholeYear(y: nat)
    ensures DaysBefore(y, 12) == Days(y)
  {
    MonthSum(y, 0);
    MonthSum(y, 3);
    MonthSum(y, 6);
    MonthSum(y, 9);
  }

  lemma MonthSum(y: nat, m: nat)
    requires m <= 9
    ensures DaysBefore(y, m + 3) == DaysBefore(y, m) + MonthLength(y, m) + MonthLength(y, m + 1) + MonthLength(y, m + 2)
  {
    assert DaysBefore(y, m + 1) == DaysBefore(y, m) + MonthLength(y, m);
    assert DaysBefore(y, m + 2) == DaysBefore(y, m + 1) + MonthLength(y, m + 1);
  }

  lemma {:induction false} Later(y: nat, m: nat, k: nat)
    requires m <= k <= 12
    ensures DaysBefore(y, m) + 28 * (k - m) <= DaysBefore(y, k)
    decreases k - m
  {
    if m < k {
      Later(y, m, k - 1);
    }
  }

  /** Day `doy` of the year is day d of month m. */
  predicate Dated(y: nat, doy: nat, m: nat, d: nat) {
    m < 12 && 1 <= d <= MonthLength(y, m) && doy == DaysBefore(y, m) + d
  }

  /** Month and day are determined by the day of the year, which lies in the year. */
  lemma DatedUnique(y: nat, doy: nat, m: nat, d: nat, m': nat, d': nat)
    requires Dated(y, doy, m, d) && Dated(y, doy, m', d')
    ensures m == m' && d == d' && 1 <= doy <= Days(y)
  {
    WholeYear(y);
    Later(y, m + 1, 12);
    if m < m' {
      Later(y, m + 1, m');
    } else if m' < m {
      Later(y, m' + 1, m);
    }
  }

  /** The weekday of a day of the year. */
  function Weekday(y: nat, doy: nat): (d: nat)
    requires doy >= 1
    ensures d < 7
  {
    (Jan1(y) + doy - 1) % 7
  }

  /** Days since the start of 1801, for the years from then on. */
  function DayNumber(y: nat, doy: nat): nat
    requires y >= 1801
    decreases y
  {
    if y == 1801 then doy else DayNumber(y - 1, Days(y - 1)) + doy
  }

  /** From 1801 on the weekday goes with the number of days. */
  lemma {:induction false} WeekdayByNumber(y: nat, doy: nat)
    requires y >= 1801 && doy >= 1
    ensures Weekday(y, doy) == (DayNumber(y, doy) + 3) % 7
    decreases y
  {
    hide Days, Jan1;
    if y == 1801 {
      assert Jan1(1801) == 4 by {
        FirstJan1();
      }
    } else {
      NextJan1(y - 1);
      WeekdayByNumber(y - 1, Days(y - 1));
      Carry(Jan1(y - 1), Days(y - 1), DayNumber(y - 1, Days(y - 1)), Jan1(y), doy);
    }
  }

  /** Days everybody knows: 1970 began on a Thursday, 2000, a leap year, on a Saturday. */
  lemma KnownYears()
    ensures Jan1(1970) == 4 && Days(1970) == 365 && Jan1(2000) == 6 && Days(2000) == 366 && Days(1900) == 365
  {
  }

  lemma FirstJan1()
    ensures Jan1(1801) == 4
  {
  }

  lemma Carry(j: nat, n: nat, before: nat, j': nat, doy: nat)
    requires n >= 1 && doy >= 1 && j' == (j + n) % 7 && (j + n - 1) % 7 == (before + 3) % 7
    ensures (j' + doy - 1) % 7 == (before + doy + 3) % 7
  {
    var a, b := (j + n) / 7, (j + n - 1) / 7;
    var c := (before + 3) / 7;
    assert j + n == 7 * a + j' && j + n - 1 == 7 * b + (before + 3) % 7 && before + 3 == 7 * c + (before + 3) % 7;
    assert j' + doy - 1 == before + doy + 3 + 7 * (b - a - c);
    Shifted(before + doy + 3, b - a - c);
  }

  lemma Shifted(x: nat, k: int)
    requires x + 7 * k >= 0
    ensures (x + 7 * k) % 7 == x % 7
  {
  }

  class Calendar {
    var year: nat
    var mon: nat
    var mday: nat
    var yday: nat
    var wday: nat
    const dpm: array<nat>

    constructor ()
      ensures Lengths()
    {
      year, mon, mday, yday, wday := 1970, 0, 1, 1, 4;
      dpm := new nat[12](i requires 0 <= i < 12 => MonthLength(1970, i));
    }

    /** The table of month lengths, but for February. */
    ghost predicate Lengths()
      reads this, dpm
    {
      dpm.Length == 12 && forall i :: 0 <= i < 12 && i != 1 ==> dpm[i] == MonthLength(year, i)
    }

    /** The whole table fits the year. */
    ghost predicate Current()
      reads this, dpm
    {
      dpm.Length == 12 && forall i :: 0 <= i < 12 ==> dpm[i] == MonthLength(year, i)
    }

    /** Month, day, day of the year and weekday are those of one day. */
    ghost predicate Consistent()
      reads this
    {
      Dated(year, yday, mon, mday) && wday == Weekday(year, yday)
    }

    method SetCal(y: nat)
      requires Lengths()
      modifies dpm
      ensures dpm.Length == 12 && forall i :: 0 <= i < 12 ==> dpm[i] == MonthLength(y, i)
    {
      if Days(y) == 365 {
        dpm[1] := 28;
      } else {
        dpm[1] := 29;
      }
    }

    /** `DMY`: the day of the year and the weekday from the date. */
    method DMY()
      requires Lengths() && mon <= 12
      modifies this`yday, this`wday, dpm
      ensures Lengths() && Current() && yday == DaysBefore(year, mon) + mday
      ensures mday >= 1 ==> wday == Weekday(year, yday)
      ensures 1 <= mday && mon < 12 && mday <= MonthLength(year, mon) ==> Consistent()
    {
      SetCal(year);
      var i, doy := 0, 0;
      while i < mon
        invariant i <= mon && doy == DaysBefore(year, i)
      {
        doy := doy + dpm[i];
        i := i + 1;
      }
      yday := doy + mday;
      wday := if yday == 0 then 0 else (Jan1(year) + yday - 1) % 7;
    }

    /** `DOY`: the date from the day of the year, which may run into the next year. */
    method DOY(doy0: nat)
      requires Lengths() && 1 <= doy0 <= Days(year) + Days(year + 1)
      modifies this, dpm
      ensures Lengths() && Current() && Consistent()
      ensures if doy0 <= Days(old(year)) then year == old(year) && yday == doy0
              else year == old(year) + 1 && yday == doy0 - Days(old(year))
    {
      var doy := doy0;
      if doy > Days(year) {
        doy := doy - Days(year);
        year := year + 1;
      }
      yday := doy;
      SetCal(year);
      var i := 0;
      WholeYear(year);
      while doy > dpm[i]
        invariant i < 12 && 1 <= doy && yday == DaysBefore(year, i) + doy
        invariant forall j :: 0 <= j < 12 ==> dpm[j] == MonthLength(year, j)
        decreases 12 - i
      {
        doy := doy - dpm[i];
        i := i + 1;
      }
      mday := doy;
      mon := i;
      wday := (Jan1(year) + yday - 1) % 7;
    }

    /** `year`: January 1 of that year. */
    method Year(y: nat)
      requires Lengths()
      modifies this, dpm
      ensures Lengths() && Current() && Consistent() && year == y && mon == 0 && mday == 1
    {
      mon := 0;
      mday := 1;
      year := y;
      DMY();
    }

    /** `Month`: the next such month, the day of the month staying as it is. */
    method Month(month: nat)
      requires Lengths() && month < 12 && mday >= 1
      modifies this, dpm
      ensures Lengths() && Current() && mon == month && mday == old(mday) && year == old(year) + (if month < old(mon) then 1 else 0)
      ensures Consistent() <==> old(mday) <= MonthLength(old(year) + (if month < old(mon) then 1 else 0), month)
    {
      if month < mon {
        year := year + 1;
      }
      mon := month;
      DMY();
    }

    /** `MON`: the first of the next such month. */
    method MON(month: nat)
      requires Lengths() && month < 12
      modifies this, dpm
      ensures Lengths() && Current() && Consistent() && mon == month && mday == 1
      ensures year == old(year) + (if month < old(mon) then 1 else 0)
    {
      mday := 1;
      Month(month);
    }

    /**
     `Day`: the next such day of a month.  The fields stay consistent exactly when the
     month has that day and the step was not from December into the next year, which
     leaves month 12.
     */
    method Day(day: nat)
      requires Lengths() && Consistent() && day >= 1
      modifies this, dpm
      ensures Lengths() && Current() && mday == day && mon == old(mon) + (if day < old(mday) then 1 else 0) && mon <= 12
      ensures year == old(year) + (if mon == 12 then 1 else 0)
      ensures var m := old(mon) + (if day < old(mday) then 1 else 0);
              Consistent() <==> m < 12 && day <= MonthLength(old(year), m)
      ensures yday == DaysBefore(year, mon) + day && wday == Weekday(year, yday)
    {
      if day < mday {
        mon := mon + 1;
        if mon == 12 {
          year := year + 1;
        }
      }
      mday := day;
      DMY();
    }

    /** `adddays` */
    method AddDays(n: nat)
      requires Lengths() && 1 <= yday && yday + n <= Days(year) + Days(year + 1)
      modifies this, dpm
      ensures Lengths() && Current() && Consistent()
      ensures (year, yday) == Onward(old(year), old(yday) + n)
    {
      DOY(yday + n);
    }

    /**
     `DOW`: on to the first day from here with that weekday.  It is reached unless the
     way leads out of a year that is not regular.
     */
    method DOW(dow: nat)
      requires Lengths() && dow < 7 && 1 <= yday <= Days(year) && wday == Weekday(year, yday)
      modifies this, dpm
      ensures Lengths() && Current() && Consistent()
      ensures var n := Ahead(old(wday), dow); (year, yday) == Onward(old(year), old(yday) + n)
      ensures wday == dow <==>
                Onward(old(year), old(yday) + Ahead(old(wday), dow)).0 == old(year) || Regular(old(year))
    {
      hide Days, Jan1, Weekday, DaysBefore, MonthLength, Regular, Dated;
      var n := (dow + 7 - wday) % 7;
      RoomAhead(year);
      ghost var y, d := year, yday;
      AddDays(n);
      WeekdayAhead(y, d, dow);
    }

    /** The year, month and day that are given. */
    method SetDate(tyear: nat, tmon: nat, tmday: nat)
      requires Lengths() && Consistent() && tmon <= 12 && tmday <= 31
      requires !(tyear == 0 && tmon == 0 && mon == 11 && 0 < tmday < mday)
      modifies this, dpm
      ensures Lengths() && (if tmday != 0 then Current() else Consistent()) && mon < 12 && 1 <= mday <= 31
      ensures yday == DaysBefore(year, mon) + mday && wday == Weekday(year, yday)
      ensures (tyear != 0 ==> year == 1900 + tyear) && (tmon != 0 ==> mon == tmon - 1) && (tmday != 0 ==> mday == tmday)
    {
      if tyear != 0 {
        Year(1900 + tyear);
      }
      if tmon != 0 {
        MON(tmon - 1);
      }
      if tmday != 0 {
        Day(tmday);
      }
    }

    /**
     The date part of `verify`; a field of 0 is not given.  The input is accepted exactly
     when the day exists and falls on the weekday given with it, or, without a day, when
     the weekday is reached.  What was given then holds of the date found.
     */
    method Verify(tyear: nat, tmon: nat, tmday: nat, twday: nat) returns (ok: bool, ghost y: nat, ghost m: nat, ghost d: nat)
      requires Lengths() && Consistent() && tmon <= 12 && tmday <= 31 && twday <= 7
      requires !(tyear == 0 && tmon == 0 && mon == 11 && 0 < tmday < mday)
      modifies this, dpm
      ensures Lengths() && m < 12 && d >= 1
      ensures tyear != 0 ==> y == 1900 + tyear
      ensures tmon != 0 ==> m == tmon - 1
      ensures tmday != 0 ==> d == tmday
      ensures ok <==>
                && d <= MonthLength(y, m)
                && (twday != 0 ==>
                      var wday, doy := Weekday(y, DaysBefore(y, m) + d), DaysBefore(y, m) + d;
                      if tmday != 0 then wday == twday - 1
                      else Onward(y, doy + Ahead(wday, twday - 1)).0 == y || Regular(y))
      ensures ok ==> Consistent() && (twday != 0 ==> wday == twday - 1)
      ensures ok && (tmday != 0 || twday == 0) ==> year == y && mon == m && mday == d
    {
      hide Days, Jan1, Weekday, DaysBefore, MonthLength, Regular, Onward, Ahead;
      SetDate(tyear, tmon, tmday);
      y, m, d := year, mon, mday;
      InYear(y, m, d);
      if twday != 0 {
        DOW(twday - 1);
        SameDay(y, m, d, Ahead(Weekday(y, DaysBefore(y, m) + d), twday - 1), mon, mday);
        if d <= MonthLength(y, m) && Weekday(y, DaysBefore(y, m) + d) == twday - 1 {
          StayThere(y, m, d, mon, mday);
        }
      }
      ok := !((tmday != 0 && (tmday != mday || tmday > dpm[mon])) || (twday != 0 && twday - 1 != wday));
    }
  }

  /** A day of the year, or of the next when the year is too short for it. */
  function Onward(y: nat, doy: nat): (nat, nat) {
    if doy <= Days(y) then (y, doy) else (y + 1, doy - Days(y))
  }

  /** How many days on a weekday comes next. */
  function Ahead(wday: nat, dow: nat): (n: nat)
    requires wday < 7 && dow < 7
    ensures n < 7 && (wday + n) % 7 == dow
  {
    (dow + 7 - wday) % 7
  }

  /** A day that has the weekday asked for is where the move ends. */
  lemma StayThere(y: nat, m: nat, d: nat, m': nat, d': nat)
    requires m < 12 && 1 <= d <= MonthLength(y, m)
    requires var doy := DaysBefore(y, m) + d;
             var (y', doy') := Onward(y, doy + Ahead(Weekday(y, doy), Weekday(y, doy))); Dated(y', doy', m', d')
    ensures var doy := DaysBefore(y, m) + d;
            Onward(y, doy + Ahead(Weekday(y, doy), Weekday(y, doy))) == (y, doy) && m' == m && d' == d
  {
    hide Weekday, DaysBefore, MonthLength, Days, Ahead;
    var doy := DaysBefore(y, m) + d;
    InYear(y, m, d);
    NoneAhead(Weekday(y, doy));
    DatedUnique(y, doy, m, d, m', d');
  }

  lemma NoneAhead(wday: nat)
    requires wday < 7
    ensures Ahead(wday, wday) == 0
  {
  }

  lemma RoomAhead(y: nat)
    ensures Days(y) + 6 <= Days(y) + Days(y + 1)
  {
  }

  lemma InYear(y: nat, m: nat, d: nat)
    requires m < 12 && d <= 31
    ensures DaysBefore(y, m) + d <= Days(y)
  {
    WholeYear(y);
    LastMonth(y);
    Later(y, m, 11);
  }

  /** And not sooner. */
  lemma FirstAhead(wday: nat, dow: nat, m: nat)
    requires wday < 7 && dow < 7 && m < Ahead(wday, dow)
    ensures (wday + m) % 7 != dow
  {
  }

  /** Moving on by less than a week never comes to the same day of a month. */
  lemma SameDay(y: nat, m: nat, d: nat, n: nat, m': nat, d': nat)
    requires m < 12 && 1 <= d <= 31 && n <= 6
    requires var (y', doy') := Onward(y, DaysBefore(y, m) + d + n); Dated(y', doy', m', d')
    ensures d' == d ==> n == 0 && m' == m && Onward(y, DaysBefore(y, m) + d + n).0 == y
  {
    hide MonthLength;
    var (y', doy') := Onward(y, DaysBefore(y, m) + d + n);
    WholeYear(y);
    Later(y, m, 11);
    LastMonth(y);
    if d' == d && y' == y {
      if m' > m {
        Later(y, m, m');
      } else if m' < m {
        Later(y, m', m);
      }
    }
  }

  lemma LastMonth(y: nat)
    ensures DaysBefore(y, 12) == DaysBefore(y, 11) + 31
  {
  }

  lemma WeekdayAhead(y: nat, doy: nat, dow: nat)
    requires doy >= 1 && dow < 7
    ensures var n := Ahead(Weekday(y, doy), dow);
            var (y', doy') := Onward(y, doy + n);
            Weekday(y', doy') == dow <==> y' == y || Regular(y)
  {
    hide Jan1, Days, Regular;
    var n := Ahead(Weekday(y, doy), dow);
    NextJan1(y);
    Sums(Jan1(y), doy, n, dow);
    if doy + n > Days(y) {
      Crossing(Jan1(y), Jan1(y + 1), Days(y), doy + n - Days(y), dow);
    }
  }

  lemma Sums(j: nat, doy: nat, n: nat, dow: nat)
    requires doy >= 1 && ((j + doy - 1) % 7 + n) % 7 == dow
    ensures (j + doy + n - 1) % 7 == dow
  {
    var a := (j + doy - 1) / 7;
    assert j + doy - 1 == 7 * a + (j + doy - 1) % 7;
    Shifted((j + doy - 1) % 7 + n, a);
  }

  lemma Crossing(j: nat, j': nat, days: nat, d: nat, dow: nat)
    requires d >= 1 && j' < 7 && dow == (j + days + d - 1) % 7
    ensures (j' + d - 1) % 7 == dow <==> j' == (j + days) % 7
  {
    var q := (j + days) / 7;
    assert j + days == 7 * q + (j + days) % 7;
    Shifted((j + days) % 7 + d - 1, q);
    SameResidue(j', (j + days) % 7, d - 1);
  }

  lemma SameResidue(a: nat, b: nat, d: nat)
    requires a < 7 && b < 7
    ensures (a + d) % 7 == (b + d) % 7 <==> a == b
  {
    var r := d % 7;
    assert d == 7 * (d / 7) + r;
    Shifted(a + r, d / 7);
    Shifted(b + r, d / 7);
  }

  /** From 1801 on a date is followed by as many days as were added. */
  lemma OnwardNumber(y: nat, doy: nat)
    requires y >= 1801
    ensures var (y', doy') := Onward(y, doy);
            DayNumber(y', doy') == DayNumber(y, doy)
  {
    if doy > Days(y) {
      DayNumberShift(y, Days(y), doy - Days(y));
    }
  }

  lemma DayNumberShift(y: nat, a: nat, b: nat)
    requires y >= 1801
    ensures DayNumber(y, a + b) == DayNumber(y, a) + b
  {
  }
}
