/**
 The civil (Gregorian) calendar on day numbers counted from 1 January of year 1, as Go's
 time package presents it in a zone of fixed offset.
 */
module Calendar {

  predicate Leap(y: nat) {
    y % 4 == 0 && (y % 100 != 0 || y % 400 == 0)
  }

  function YearDays(y: nat): nat {
    if Leap(y) then 366 else 365
  }

  function MonthDays(y: nat, m: nat): nat
    requires 1 <= m <= 12
  {
    if m == 2 then (if Leap(y) then 29 else 28)
    else if m == 4 || m == 6 || m == 9 || m == 11 then 30
    else 31
  }

  /** The days every year gives the month. */
  function CommonMonthDays(m: nat): nat
    requires 1 <= m <= 12
  {
    MonthDays(1, m)
  }

  function DaysBeforeYear(y: nat): nat
    requires y >= 1
  {
    if y == 1 then 0 else DaysBeforeYear(y - 1) + YearDays(y - 1)
  }

  function DaysBeforeMonth(y: nat, m: nat): nat
    requires 1 <= m <= 13
  {
    if m == 1 then 0 else DaysBeforeMonth(y, m - 1) + MonthDays(y, m - 1)
  }

  datatype Date = Date(year: nat, month: nat, day: nat)
  {
    predicate Valid() {
      year >= 1 && 1 <= month <= 12 && 1 <= day <= MonthDays(year, month)
    }

    function Number(): nat
      requires Valid()
    {
      DaysBeforeYear(year) + DaysBeforeMonth(year, month) + day - 1
    }
  }

  /** Sunday is 0; 1 January of year 1 was a Monday. */
  function Weekday(n: nat): (w: nat)
    ensures w < 7
  {
    (n + 1) % 7
  }

  /** The twelve months fill the year: each month starts where the leap-free table says, moved by the leap day. */
  lemma {:induction false} MonthStart(y: nat, m: nat)
    requires 1 <= m <= 13
    ensures DaysBeforeMonth(y, m)
            == [0, 31, 59, 90, 120, 151, 181, 212, 243, 273, 304, 334, 365][m - 1]
               + (if m >= 3 && Leap(y) then 1 else 0)
  {
    if m == 1 {
    } else {
      MonthStart(y, m - 1);
    }
  }

  lemma YearIsItsMonths(y: nat)
    ensures DaysBeforeMonth(y, 13) == YearDays(y)
  {
    MonthStart(y, 13);
  }

  lemma {:induction false} MonthsGrow(y: nat, a: nat, b: nat)
    requires 1 <= a <= b <= 13
    ensures DaysBeforeMonth(y, a) + 28 * (b - a) <= DaysBeforeMonth(y, b)
    decreases b - a
  {
    if a == b {
    } else {
      MonthsGrow(y, a, b - 1);
    }
  }

  lemma {:induction false} YearsGrow(a: nat, b: nat)
    requires 1 <= a <= b
    ensures DaysBeforeYear(a) + 365 * (b - a) <= DaysBeforeYear(b)
    decreases b - a
  {
    if a == b {
    } else {
      YearsGrow(a, b - 1);
    }
  }

  /** The year holding day `n`, searched from `y` on. */
  function YearFrom(y: nat, n: nat): (r: nat)
    requires y >= 1 && DaysBeforeYear(y) <= n
    ensures r >= y && DaysBeforeYear(r) <= n < DaysBeforeYear(r + 1)
    decreases n - DaysBeforeYear(y)
  {
    if n < DaysBeforeYear(y + 1) then y else YearFrom(y + 1, n)
  }

  /** The month holding day `r` of year `y`, searched from `m` on. */
  function MonthFrom(y: nat, m: nat, r: nat): (k: nat)
    requires 1 <= m <= 12 && DaysBeforeMonth(y, m) <= r < YearDays(y)
    ensures m <= k <= 12 && DaysBeforeMonth(y, k) <= r < DaysBeforeMonth(y, k + 1)
    decreases 12 - m
  {
    if r < DaysBeforeMonth(y, m + 1) then m
    else
      YearIsItsMonths(y);
      MonthFrom(y, m + 1, r)
  }

  function Civil(n: nat): (d: Date)
    ensures d.Valid() && d.Number() == n
  {
    var y := YearFrom(1, n);
    var r := n - DaysBeforeYear(y);
    var m := MonthFrom(y, 1, r);
    Date(y, m, r - DaysBeforeMonth(y, m) + 1)
  }

  lemma DayInYear(d: Date)
    requires d.Valid()
    ensures DaysBeforeYear(d.year) <= d.Number() < DaysBeforeYear(d.year + 1)
    ensures DaysBeforeMonth(d.year, d.month) <= d.Number() - DaysBeforeYear(d.year)
            < DaysBeforeMonth(d.year, d.month + 1)
  {
    MonthsGrow(d.year, d.month + 1, 13);
    YearIsItsMonths(d.year);
  }

  lemma SameYear(d: Date, e: Date)
    requires d.Valid() && e.Valid() && d.Number() == e.Number()
    ensures d.year == e.year
  {
    DayInYear(d);
    DayInYear(e);
    hide DaysBeforeYear, DaysBeforeMonth, Date.Number;
    if d.year < e.year {
      YearsGrow(d.year + 1, e.year);
    } else if e.year < d.year {
      YearsGrow(e.year + 1, d.year);
    }
  }

  lemma SameMonth(d: Date, e: Date)
    requires d.Valid() && e.Valid() && d.year == e.year && d.Number() == e.Number()
    ensures d.month == e.month
  {
    DayInYear(d);
    DayInYear(e);
    hide DaysBeforeYear, DaysBeforeMonth, Date.Number;
    if d.month < e.month {
      MonthsGrow(d.year, d.month + 1, e.month);
    } else if e.month < d.month {
      MonthsGrow(d.year, e.month + 1, d.month);
    }
  }

  /** Different dates have different numbers, so `Civil` is the inverse of `Number`. */
  lemma CivilOfNumber(d: Date)
    requires d.Valid()
    ensures Civil(d.Number()) == d
  {
    hide DaysBeforeYear, DaysBeforeMonth, Civil;
    var e := Civil(d.Number());
    SameYear(d, e);
    SameMonth(d, e);
  }

  lemma {:induction false} MonthStartShifts(y: nat, m: nat)
    requires 1 <= m <= 13
    ensures DaysBeforeMonth(y, m) <= DaysBeforeMonth(1, m) + (if Leap(y) then 1 else 0)
    ensures DaysBeforeMonth(1, m) <= DaysBeforeMonth(y, m)
    ensures m >= 3 && Leap(y) ==> DaysBeforeMonth(y, m) == DaysBeforeMonth(1, m) + 1
    ensures m <= 2 || !Leap(y) ==> DaysBeforeMonth(y, m) == DaysBeforeMonth(1, m)
  {
    if m == 1 {
    } else {
      MonthStartShifts(y, m - 1);
    }
  }

  /** The same date a year later is at most 366 days away. */
  lemma YearLater(y: nat, m: nat, d: nat)
    requires y >= 1 && 1 <= m <= 12 && 1 <= d <= CommonMonthDays(m)
    ensures Date(y, m, d).Valid() && Date(y + 1, m, d).Valid()
    ensures Date(y + 1, m, d).Number() <= Date(y, m, d).Number() + 366
  {
    MonthStartShifts(y, m);
    MonthStartShifts(y + 1, m);
  }

  /** Within one year, dates are numbered in order. */
  lemma OrderInYear(a: Date, b: Date)
    requires a.Valid() && b.Valid() && a.year == b.year
    requires a.month < b.month || (a.month == b.month && a.day <= b.day)
    ensures a.Number() <= b.Number() <= a.Number() + 365
  {
    DayInYear(a);
    DayInYear(b);
    if a.month < b.month {
      MonthsGrow(a.year, a.month + 1, b.month);
    }
  }

  /** Any 366 days in a row contain every date that every year has. */
  lemma DateRecurs(s: nat, m: nat, d: nat) returns (n: nat)
    requires 1 <= m <= 12 && 1 <= d <= CommonMonthDays(m)
    ensures s <= n < s + 366 && Civil(n).month == m && Civil(n).day == d
  {
    hide DaysBeforeYear, DaysBeforeMonth, Date.Number, Civil;
    var now := Civil(s);
    YearLater(now.year, m, d);
    var here, later := Date(now.year, m, d), Date(now.year + 1, m, d);
    if now.month < m || (now.month == m && now.day <= d) {
      OrderInYear(now, here);
      n := here.Number();
      CivilOfNumber(here);
    } else {
      assert here != now;
      OrderInYear(here, now);
      assert here.Number() != now.Number() by { CivilOfNumber(here); CivilOfNumber(now); }
      NextYearIsLater(now, later);
      n := later.Number();
      CivilOfNumber(later);
    }
  }

  lemma NextYearIsLater(a: Date, b: Date)
    requires a.Valid() && b.Valid() && a.year < b.year
    ensures a.Number() < b.Number()
  {
    DayInYear(a);
    DayInYear(b);
    YearsGrow(a.year + 1, b.year);
  }

  // ---- against known dates ----

  /** Every fourth year is a leap year, except centuries not divisible by 400. */
  lemma {:induction false} YearStart(y: nat)
    requires y >= 1
    ensures DaysBeforeYear(y) == 365 * (y - 1) + (y - 1) / 4 - (y - 1) / 100 + (y - 1) / 400
  {
    if y == 1 {
    } else {
      YearStart(y - 1);
      Quotients(y - 1);
    }
  }

  lemma Quotients(n: nat)
    requires n >= 1
    ensures n / 4 == (n - 1) / 4 + if n % 4 == 0 then 1 else 0
    ensures n / 100 == (n - 1) / 100 + if n % 100 == 0 then 1 else 0
    ensures n / 400 == (n - 1) / 400 + if n % 400 == 0 then 1 else 0
    ensures (n % 400 == 0 ==> n % 100 == 0) && (n % 100 == 0 ==> n % 4 == 0)
  {
  }

  /** 1 January 1970 and 29 February 2024 were Thursdays, and weekdays follow one another. */
  lemma KnownDays()
    ensures Date(1970, 1, 1).Valid() && Date(2024, 2, 29).Valid() && !Date(2023, 2, 29).Valid()
    ensures Date(1970, 1, 1).Number() == 719162 && Weekday(719162) == 4
    ensures Date(2024, 2, 29).Number() == 738944 && Weekday(738944) == 4
    ensures forall n: nat :: Weekday(n + 1) == if Weekday(n) == 6 then 0 else Weekday(n) + 1
  {
    YearStart(1970);
    YearStart(2024);
    MonthStart(2024, 2);
    hide DaysBeforeYear, DaysBeforeMonth;
    assert DaysBeforeMonth(1970, 1) == 0 by { MonthStart(1970, 1); }
  }
}
