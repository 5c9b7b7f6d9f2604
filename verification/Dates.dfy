/** Calendar arithmetic: stepping a Date day by day, its weekday and its order, against
    the count of days. */
module Dates {
  const YEARS: int := 65536

  datatype Day = Day(year: nat, month: nat, day: nat)

  // ---- the tables and what they hold

  const MONTH_DAYS: seq<nat> := [31, 28, 31, 30, 31, 30, 31, 31, 30, 31, 30, 31]
  const MONTH_DAYS_LEAP: seq<nat> := [31, 29, 31, 30, 31, 30, 31, 31, 30, 31, 30, 31]
  const BEFORE_MONTH: seq<nat> := [0, 31, 59, 90, 120, 151, 181, 212, 243, 273, 304, 334]
  const BEFORE_MONTH_LEAP: seq<nat> := [0, 31, 60, 91, 121, 152, 182, 213, 244, 274, 305, 335]

  predicate LeapYear(y: nat) {
    (y % 4 == 0 && y % 100 != 0) || y % 400 == 0
  }

  function DaysInMonth(y: nat, m: nat): nat
    requires 1 <= m <= 12
  {
    (if LeapYear(y) then MONTH_DAYS_LEAP else MONTH_DAYS)[m - 1]
  }

  /** A date of the calendar, the year fitting an unsigned short. */
  predicate Valid(d: Day) {
    d.year < YEARS && 1 <= d.month <= 12 && 1 <= d.day <= DaysInMonth(d.year, d.month)
  }

  /** The months have 31 and 30 days in turn, from January and again from August on, but
      February has 28 or 29. */
  lemma MonthLengths(y: nat, m: nat)
    requires 1 <= m <= 12
    ensures DaysInMonth(y, m) ==
      if m == 2 then (if LeapYear(y) then 29 else 28) else if m <= 7 then 30 + m % 2 else 31 - m % 2
  {
    hide LeapYear;
  }

  // ---- counting days from the first of January of year 1

  function YearLength(y: nat): nat {
    if LeapYear(y) then 366 else 365
  }

  /** The days from the start of year 1 to the start of year y. */
  function YearStart(y: nat): int {
    if y == 0 then 0 - YearLength(0) else if y == 1 then 0 else YearStart(y - 1) + YearLength(y - 1)
  }

  /** The days of the year's months before m. */
  function MonthStart(y: nat, m: nat): nat
    requires 1 <= m <= 13
  {
    if m == 1 then 0 else MonthStart(y, m - 1) + DaysInMonth(y, m - 1)
  }

  /** 1 January of year 1 is day 1. */
  function Serial(d: Day): int
    requires Valid(d)
  {
    YearStart(d.year) + MonthStart(d.year, d.month) + d.day
  }

  /** The leap years up to year n. */
  function LeapYears(n: nat): int {
    n / 4 - n / 100 + n / 400
  }

  lemma QuotientStep(n: nat, k: nat)
    requires n > 0 && (k == 4 || k == 100 || k == 400)
    ensures n / k == (n - 1) / k + if n % k == 0 then 1 else 0
  {
  }

  lemma QuotientSteps(n: nat)
    requires n > 0
    ensures n / 4 == (n - 1) / 4 + if n % 4 == 0 then 1 else 0
    ensures n / 100 == (n - 1) / 100 + if n % 100 == 0 then 1 else 0
    ensures n / 400 == (n - 1) / 400 + if n % 400 == 0 then 1 else 0
  {
    QuotientStep(n, 4);
    QuotientStep(n, 100);
    QuotientStep(n, 400);
  }

  lemma Divides(n: nat)
    ensures n % 400 == 0 ==> n % 100 == 0
    ensures n % 100 == 0 ==> n % 4 == 0
  {
    if n % 400 == 0 {
      assert n == 100 * (4 * (n / 400));
    }
    if n % 100 == 0 {
      assert n == 4 * (25 * (n / 100));
    }
  }

  lemma LeapYearsStep(n: nat)
    requires n > 0
    ensures LeapYears(n) == LeapYears(n - 1) + if LeapYear(n) then 1 else 0
  {
    QuotientSteps(n);
    Divides(n);
  }

  lemma {:induction false} YearStartIs(y: nat)
    requires y >= 1
    ensures YearStart(y) == 365 * (y - 1) + LeapYears(y - 1)
  {
    hide LeapYears, LeapYear;
    if y == 1 {
      assert LeapYears(0) == 0 by {
        NoLeapYears();
      }
    } else {
      YearStartIs(y - 1);
      LeapYearsStep(y - 1);
    }
  }

  lemma NoLeapYears()
    ensures LeapYears(0) == 0
  {
  }

  lemma MonthStarts(y: nat)
    ensures MonthStart(y, 2) == 31 && MonthStart(y, 13) == YearLength(y)
    ensures forall m :: 1 <= m <= 12 ==> MonthStart(y, m) == (if LeapYear(y) then BEFORE_MONTH_LEAP else BEFORE_MONTH)[m - 1]
  {
    assert MonthStart(y, 1) == 0;
    assert MonthStart(y, 2) == 31;
    assert MonthStart(y, 3) == 31 + DaysInMonth(y, 2);
    assert MonthStart(y, 4) == 62 + DaysInMonth(y, 2);
    assert MonthStart(y, 5) == 92 + DaysInMonth(y, 2);
    assert MonthStart(y, 6) == 123 + DaysInMonth(y, 2);
    assert MonthStart(y, 7) == 153 + DaysInMonth(y, 2);
    assert MonthStart(y, 8) == 184 + DaysInMonth(y, 2);
    assert MonthStart(y, 9) == 215 + DaysInMonth(y, 2);
    assert MonthStart(y, 10) == 245 + DaysInMonth(y, 2);
    assert MonthStart(y, 11) == 276 + DaysInMonth(y, 2);
    assert MonthStart(y, 12) == 306 + DaysInMonth(y, 2);
    assert MonthStart(y, 13) == 337 + DaysInMonth(y, 2);
  }

  // ---- weekdays

  /** C's division, which truncates towards zero. */
  function Quot(a: int, b: int): int
    requires b > 0
  {
    if a >= 0 then a / b else -(-a / b)
  }

  /** day_of_year */
  function DayOfYear(d: Day): nat
    requires Valid(d)
  {
    (if LeapYear(d.year) then BEFORE_MONTH_LEAP else BEFORE_MONTH)[d.month - 1] + d.day
  }

  /** day_of_week: 1 is Sunday. */
  function DayOfWeek(d: Day): int
    requires Valid(d)
  {
    var y := d.year;
    var w := (y + DayOfYear(d) + Quot(y - 1, 4) - Quot(y - 1, 100) + Quot(y - 1, 400)) % 7;
    if w == 0 then 7 else w
  }

  lemma SerialIs(d: Day)
    requires Valid(d)
    ensures Serial(d) == YearStart(d.year) + DayOfYear(d)
  {
    MonthStarts(d.year);
  }

  /** 1 to 7 for the residues 1 to 6 and 0. */
  function Wrapped(x: int): int {
    if x % 7 == 0 then 7 else x % 7
  }

  lemma BySevens(q: int, x: int)
    ensures (7 * q + x) % 7 == x % 7
  {
  }

  lemma WrappedIs(x: int)
    ensures Wrapped(x) == 1 + (x - 1) % 7 && Wrapped(x) != 1 + (x + 5) % 7
  {
  }

  lemma DayOfWeekIs(d: Day)
    requires Valid(d)
    ensures DayOfWeek(d) == Wrapped(if d.year == 0 then DayOfYear(d) else d.year + DayOfYear(d) + LeapYears(d.year - 1))
  {
    hide DayOfYear;
  }

  /** The weekday formula counts days by sevens in every year but year 0. */
  lemma WeekdayIff(d: Day)
    requires Valid(d)
    ensures DayOfWeek(d) == 1 + Serial(d) % 7 <==> d.year != 0
  {
    hide DayOfYear, YearStart, Serial, Valid, DayOfWeek, LeapYears, Wrapped;
    var y, w := d.year, DayOfYear(d);
    SerialIs(d);
    DayOfWeekIs(d);
    if y > 0 {
      var x := y + w + LeapYears(y - 1);
      YearStartIs(y);
      BySevens(52 * (y - 1), x - 1);
      WrappedIs(x);
    } else {
      YearZero();
      BySevens(-53, w + 5);
      WrappedIs(w);
    }
  }

  lemma YearZero()
    ensures YearStart(0) == -366
  {
  }

  // ---- order

  /** operator> */
  predicate Later(d: Day, e: Day) {
    || d.year > e.year
    || (d.year == e.year && d.month > e.month)
    || (d.year == e.year && d.month == e.month && d.day > e.day)
  }

  lemma {:induction false} YearsApart(y: nat, z: nat)
    requires y < z
    ensures YearStart(z) >= YearStart(y) + YearLength(y)
    decreases z
  {
    hide LeapYear;
    if z > y + 1 {
      YearsApart(y, z - 1);
    }
  }

  lemma {:induction false} MonthsApart(y: nat, m: nat, n: nat)
    requires 1 <= m < n <= 13
    ensures MonthStart(y, n) >= MonthStart(y, m) + DaysInMonth(y, m)
    decreases n
  {
    if n > m + 1 {
      MonthsApart(y, m, n - 1);
    }
  }

  lemma DayOfYearBounds(d: Day)
    requires Valid(d)
    ensures 1 <= DayOfYear(d) <= YearLength(d.year)
  {
    hide YearLength;
    MonthStarts(d.year);
    MonthsApart(d.year, d.month, 13);
  }

  lemma LaterIsMore(d: Day, e: Day)
    requires Valid(d) && Valid(e) && Later(d, e)
    ensures Serial(d) > Serial(e)
  {
    hide DayOfYear, YearStart, MonthStart, DaysInMonth, YearLength;
    if d.year > e.year {
      SerialIs(d);
      SerialIs(e);
      DayOfYearBounds(d);
      DayOfYearBounds(e);
      YearsApart(e.year, d.year);
    } else if d.month > e.month {
      MonthsApart(e.year, e.month, d.month);
    }
  }

  /** The order of the fields is the order of the days. */
  lemma LaterIff(d: Day, e: Day)
    requires Valid(d) && Valid(e)
    ensures Later(d, e) <==> Serial(d) > Serial(e)
    ensures d == e <==> Serial(d) == Serial(e)
  {
    hide Serial, Valid;
    if Later(d, e) {
      LaterIsMore(d, e);
    } else if Later(e, d) {
      LaterIsMore(e, d);
    }
  }

  // ---- stepping

  /** The days of the years 0 to 65535. */
  const SPAN: int := 23936532

  /** The days from the first day there is. */
  function Position(d: Day): int
    requires Valid(d)
  {
    Serial(d) + 365
  }

  lemma YearFollows(y: nat)
    ensures YearStart(y + 1) == YearStart(y) + YearLength(y)
    ensures forall m :: 1 <= m <= 12 ==> MonthStart(y, m + 1) == MonthStart(y, m) + DaysInMonth(y, m)
    ensures MonthStart(y, 1) == 0
  {
    hide LeapYear;
  }

  lemma PositionBounds(d: Day)
    requires Valid(d)
    ensures 0 <= Position(d) < SPAN
    ensures d == Day(0, 1, 1) ==> Position(d) == 0
    ensures d == Day(YEARS - 1, 12, 31) ==> Position(d) == SPAN - 1
  {
    hide DayOfYear, YearStart, Serial, MonthStart, LeapYear;
    SerialIs(d);
    DayOfYearBounds(d);
    YearZero();
    YearStartIs(YEARS);
    if d.year > 0 {
      YearsApart(0, d.year);
    }
    YearsApart(d.year, YEARS);
    YearFollows(YEARS - 1);
    Ends(d);
  }

  lemma Ends(d: Day)
    requires Valid(d)
    ensures LeapYears(YEARS - 1) == 15891 && YearLength(0) == 366 && YearLength(YEARS - 1) == 365
    ensures d.month == 1 && d.day == 1 ==> DayOfYear(d) == 1
    ensures d.month == 12 && d.day == 31 ==> DayOfYear(d) == YearLength(d.year)
  {
  }

  /** operator++, the year wrapping as an unsigned short. */
  function Next(d: Day): (r: Day)
    requires Valid(d)
    ensures Valid(r)
  {
    if d.day < DaysInMonth(d.year, d.month) then Day(d.year, d.month, d.day + 1)
    else if d.month < 12 then Day(d.year, d.month + 1, 1)
    else Day((d.year + 1) % YEARS, 1, 1)
  }

  /** operator--: a year that has gone below 1900 is set to 1900. */
  function Prev(d: Day): (r: Day)
    requires Valid(d)
    ensures Valid(r)
  {
    if d.day > 1 then Day(d.year, d.month, d.day - 1)
    else if d.month > 1 then Day(d.year, d.month - 1, DaysInMonth(d.year, d.month - 1))
    else
      var y := (d.year + YEARS - 1) % YEARS;
      Day(if y < 1900 then 1900 else y, 12, 31)
  }

  function Steps(d: Day, n: nat): (r: Day)
    requires Valid(d)
    ensures Valid(r)
  {
    if n == 0 then d else Next(Steps(d, n - 1))
  }

  lemma NextSerial(d: Day)
    requires Valid(d)
    ensures d != Day(YEARS - 1, 12, 31) ==> Serial(Next(d)) == Serial(d) + 1
    ensures d == Day(YEARS - 1, 12, 31) ==> Next(d) == Day(0, 1, 1)
  {
    hide YearStart, MonthStart, LeapYear;
    var y := d.year;
    YearFollows(y);
    if d.day == DaysInMonth(y, d.month) {
      if d.month == 12 {
        MonthStarts(y);
        assert MonthStart(y, 13) == MonthStart(y, 12) + 31;
        FirstMonth((y + 1) % YEARS);
      } else {
        assert MonthStart(y, d.month + 1) == MonthStart(y, d.month) + d.day;
      }
    }
  }

  lemma FirstMonth(y: nat)
    ensures MonthStart(y, 1) == 0
  {
  }

  lemma NextPosition(d: Day)
    requires Valid(d)
    ensures Position(Next(d)) == (Position(d) + 1) % SPAN
  {
    hide Serial, Next, Valid;
    NextSerial(d);
    PositionBounds(d);
    PositionBounds(Next(d));
  }

  /** n times ++ moves on n days; only the last day there is leads back to the first. */
  lemma {:induction false} StepsPosition(d: Day, n: nat)
    requires Valid(d)
    ensures Position(Steps(d, n)) == (Position(d) + n) % SPAN
  {
    hide Position, Next, Valid;
    PositionBounds(d);
    if n > 0 {
      StepsPosition(d, n - 1);
      NextPosition(Steps(d, n - 1));
    }
  }

  /** As long as the last day is not passed, n times ++ adds n to the serial number. */
  lemma StepsSerial(d: Day, n: nat)
    requires Valid(d)
    ensures Serial(Steps(d, n)) == Serial(d) + n <==> Position(d) + n < SPAN
  {
    hide Serial, Steps, Valid;
    StepsPosition(d, n);
    PositionBounds(d);
    PositionBounds(Steps(d, n));
  }

  lemma NextResidue(x: int)
    ensures 1 + (x + 1) % 7 == if 1 + x % 7 == 7 then 1 else 1 + x % 7 + 1
  {
  }

  lemma NextYear(d: Day)
    requires Valid(d) && d.year > 0 && d != Day(YEARS - 1, 12, 31)
    ensures Next(d).year > 0
  {
    hide LeapYear;
  }

  /** The weekday after Saturday is Sunday, and otherwise the next. */
  lemma WeekdayNext(d: Day)
    requires Valid(d) && d.year > 0 && d != Day(YEARS - 1, 12, 31)
    ensures DayOfWeek(Next(d)) == if DayOfWeek(d) == 7 then 1 else DayOfWeek(d) + 1
  {
    hide Serial, DayOfWeek, Next, Valid;
    WeekdayIff(d);
    WeekdayIff(Next(d));
    NextSerial(d);
    NextYear(d);
    NextResidue(Serial(d));
  }

  predicate FirstOfYear(d: Day) {
    d.month == 1 && d.day == 1
  }

  predicate LastOfYear(d: Day) {
    d.month == 12 && d.day == 31
  }

  /** -- goes one day back but where it would leave a year for one before 1900. */
  lemma PrevPositionIff(d: Day)
    requires Valid(d)
    ensures Position(Prev(d)) == (Position(d) + SPAN - 1) % SPAN <==> !(FirstOfYear(d) && 1 <= d.year <= 1900)
  {
    hide Position, Next, Prev, Valid;
    PositionBounds(d);
    PositionBounds(Prev(d));
    NextPosition(Prev(d));
    UndoPrevIff(d);
    SamePosition(Next(Prev(d)), d);
  }

  lemma SamePosition(d: Day, e: Day)
    requires Valid(d) && Valid(e)
    ensures Position(d) == Position(e) <==> d == e
  {
    LaterIff(d, e);
  }

  /** -- undoes ++ except on the last day of a year before 1900. */
  lemma UndoNextIff(d: Day)
    requires Valid(d)
    ensures Prev(Next(d)) == d <==> !(LastOfYear(d) && d.year < 1900)
  {
    hide LeapYear;
  }

  /** ++ undoes -- except on the first day of the years 1 to 1900. */
  lemma UndoPrevIff(d: Day)
    requires Valid(d)
    ensures Next(Prev(d)) == d <==> !(FirstOfYear(d) && 1 <= d.year <= 1900)
    ensures FirstOfYear(d) && 1 <= d.year <= 1900 ==> Prev(d) == Day(1900, 12, 31)
  {
    hide LeapYear;
  }

  /** The last day of 1899 shows that, and the first day of year 0 shows where the weekday
      formula is off. */
  lemma ClampAndFormulaShown()
    ensures Prev(Next(Day(1899, 12, 31))) == Day(1900, 12, 31)
    ensures Next(Prev(Day(1900, 1, 1))) == Day(1901, 1, 1)
    ensures DayOfWeek(Day(0, 1, 1)) != 1 + Serial(Day(0, 1, 1)) % 7
  {
    hide Serial, DayOfWeek;
    WeekdayIff(Day(0, 1, 1));
  }

  // ---- copies

  /** What copying a date gives: year 0 stands for the system's year, thisYear. */
  function Copied(d: Day, thisYear: nat): Day {
    if d.year == 0 then Day(thisYear, d.month, d.day) else d
  }

  /** A copy is the date itself exactly in the other years, or if year 0 it is; and a copy
      is a date of the calendar unless it moves 29 February to a year without one. */
  lemma CopiedIff(d: Day, thisYear: nat)
    requires Valid(d) && thisYear < YEARS
    ensures Copied(d, thisYear) == d <==> d.year != 0 || thisYear == 0
    ensures Valid(Copied(d, thisYear)) <==> !(d == Day(0, 2, 29) && !LeapYear(thisYear))
  {
  }

  // ---- the object

  class Date {
    var yearval: nat
    var monthval: nat
    var dayval: nat

    function Value(): Day
      reads this
    {
      Day(yearval, monthval, dayval)
    }

    constructor (y: nat, m: nat, d: nat)
      requires Valid(Day(y, m, d))
      ensures Value() == Day(y, m, d)
    {
      yearval, monthval, dayval := y, m, d;
    }

    /** The copy constructor, which goes through set. */
    constructor Copy(d: Date, thisYear: nat)
      requires Valid(d.Value())
      ensures Value() == Copied(d.Value(), thisYear)
    {
      yearval := if d.yearval == 0 then thisYear else d.yearval;
      monthval, dayval := d.monthval, d.dayval;
    }

    /** operator++ */
    method Increment()
      requires Valid(Value())
      modifies this
      ensures Value() == Next(old(Value()))
    {
      dayval := dayval + 1;
      if dayval > DaysInMonth(yearval, monthval) {
        dayval := 1;
        monthval := monthval + 1;
        if monthval > 12 {
          monthval := 1;
          yearval := (yearval + 1) % YEARS;
        }
      }
    }

    /** operator++(int): a copy of the date as it was */
    method PostIncrement(thisYear: nat) returns (was: Date)
      requires Valid(Value())
      modifies this
      ensures fresh(was) && was.Value() == Copied(old(Value()), thisYear) && Value() == Next(old(Value()))
    {
      was := new Date.Copy(this, thisYear);
      Increment();
    }

    /** operator-- */
    method Decrement()
      requires Valid(Value())
      modifies this
      ensures Value() == Prev(old(Value()))
    {
      dayval := dayval - 1;
      if dayval < 1 {
        monthval := monthval - 1;
        if monthval < 1 {
          monthval := 12;
          yearval := (yearval + YEARS - 1) % YEARS;
          if yearval < 1900 {
            yearval := 1900;
          }
        }
        dayval := DaysInMonth(yearval, monthval);
      }
    }

    /** operator--(int): a copy of the date as it was */
    method PostDecrement(thisYear: nat) returns (was: Date)
      requires Valid(Value())
      modifies this
      ensures fresh(was) && was.Value() == Copied(old(Value()), thisYear) && Value() == Prev(old(Value()))
    {
      was := new Date.Copy(this, thisYear);
      Decrement();
    }
  }
}
