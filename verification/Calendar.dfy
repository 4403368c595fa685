/** `class Date`: stepping a calendar date day by day, and the day of the epoch computed
    from its year, month and day. */
module Calendar {
  import opened CArithmetic

  const MDAYS: seq<int> := [0, 31, 28, 31, 30, 31, 30, 31, 31, 30, 31, 30, 31]
  const JDAYS: seq<int> := [0, 0, 31, 59, 90, 120, 151, 181, 212, 243, 273, 304, 334]
  const JDAYS_LEAP: seq<int> := [0, 0, 31, 60, 91, 121, 152, 182, 213, 244, 274, 305, 335]

  datatype Day = Day(year: int, month: int, day: int)

  // ------------------------------------------------------------------- computations

  function LeapYear(y: int): bool {
    Rem(y, 400) == 0 || (Rem(y, 100) != 0 && Rem(y, 4) == 0)
  }

  function DaysInMonth(month: int, leap: bool): int {
    if month < 1 || month > 12 then -1
    else if month == 2 then (if leap then 29 else 28)
    else MDAYS[month]
  }

  function DayOfYear(t: Day): int
    requires 0 <= t.month <= 12
  {
    t.day + (if LeapYear(t.year) then JDAYS_LEAP else JDAYS)[t.month]
  }

  /** The days before the year, from its parts in a mixed radix of 400, 100, 4 and 1 years. */
  function DaysBefore(year: int): int {
    var rest := year - 1;
    var quad := Quot(rest, 4);
    var cent := Quot(quad, 25);
    var era := Quot(cent, 4);
    era * (400 * 365 + 97) + Rem(cent, 4) * (100 * 365 + 24) + Rem(quad, 25) * (4 * 365 + 1) + Rem(rest, 4) * 365
  }

  function DayOfEpoch(t: Day): int
    requires 0 <= t.month <= 12
  {
    DayOfYear(t) + DaysBefore(t.year)
  }

  function DayOfWeek(t: Day): int
    requires 0 <= t.month <= 12
  {
    Rem(DayOfEpoch(t), 7)
  }

  function EndOfMonth(t: Day, d: int): bool
    requires 0 <= t.month <= 12
  {
    if t.month == 2 && LeapYear(t.year) then d == 29 else d == MDAYS[t.month]
  }

  predicate Before(a: Day, b: Day) {
    if a.year != b.year then a.year < b.year
    else if a.month != b.month then a.month < b.month
    else a.day < b.day
  }

  /** `isvalid`: in leap years it lets every day of most months pass, and it knows no
      year after 2035. */
  function IsValid(t: Day): bool {
    && t.year <= 2035 && 1 <= t.month <= 12 && t.day >= 1
    && (if LeapYear(t.year) then !(t.month == 2 && t.day > 29) else t.day <= MDAYS[t.month])
  }

  // ------------------------------------------------------------------ specification

  /** A day of the calendar. */
  predicate Strict(t: Day): (b: bool)
    ensures b ==> 1 <= t.month <= 12
  {
    1 <= t.day <= DaysInMonth(t.month, LeapYear(t.year))
  }

  /** The day after `t`. */
  function Next(t: Day): (r: Day)
    requires 0 <= t.month <= 12
    ensures 0 <= r.month <= 12
    ensures Strict(t) ==> Strict(r)
  {
    if EndOfMonth(t, t.day) && t.month == 12 then Day(t.year + 1, 1, 1)
    else if EndOfMonth(t, t.day) then t.(month := t.month + 1, day := 1)
    else t.(day := t.day + 1)
  }

  /** `t` after `n` steps; `t` itself if `n` is negative. */
  function Advance(t: Day, n: int): (r: Day)
    requires 0 <= t.month <= 12
    ensures 0 <= r.month <= 12
    ensures Strict(t) ==> Strict(r)
    decreases n
  {
    if n <= 0 then t
    else
      Next(Advance(t, n - 1))
  }

  /** The days before the year in the calendar continued to all years, with quotients
      rounded down. */
  function YearDays(year: int): int {
    var y := year - 1;
    365 * y + y / 4 - y / 100 + y / 400
  }

  /** The number of the day in that calendar. */
  function CalendarDay(t: Day): int
    requires 0 <= t.month <= 12
  {
    DayOfYear(t) + YearDays(t.year)
  }

  // ------------------------------------------------------------- years and the epoch

  lemma FourthYear(y: int)
    ensures Rem(y, 4) == 0 <==> y % 4 == 0
  {
    hide Rem;
    if y >= 0 { RoundsDown(y, 4); } else { RoundsUp(-y, 4); }
  }

  lemma CenturyYear(y: int)
    ensures Rem(y, 100) == 0 <==> y % 100 == 0
  {
    hide Rem;
    if y >= 0 { RoundsDown(y, 100); } else { RoundsUp(-y, 100); }
  }

  lemma EraYear(y: int)
    ensures Rem(y, 400) == 0 <==> y % 400 == 0
  {
    hide Rem;
    if y >= 0 { RoundsDown(y, 400); } else { RoundsUp(-y, 400); }
  }

  lemma LeapIs(y: int)
    ensures LeapYear(y) <==> y % 400 == 0 || (y % 100 != 0 && y % 4 == 0)
  {
    hide Rem;
    FourthYear(y);
    CenturyYear(y);
    EraYear(y);
  }

  /** The mixed-radix sum is the usual count of days from the year 1 on. */
  lemma LaterDays(year: int)
    requires year >= 1
    ensures DaysBefore(year) == YearDays(year)
  {
    hide Quot, Rem;
    var rest := year - 1;
    var quad := rest / 4;
    var cent := quad / 25;
    RoundsDown(rest, 4);
    RoundsDown(quad, 25);
    RoundsDown(cent, 4);
    assert cent == rest / 100;
    assert cent / 4 == rest / 400;
  }

  lemma DaysBeforeSymmetric(year: int)
    requires year <= 1
    ensures DaysBefore(year) == -DaysBefore(2 - year)
  {
    hide Quot, Rem;
    var k := 1 - year;
    RoundsUp(k, 4);
    RoundsUp(k / 4, 25);
    RoundsUp(k / 4 / 25, 4);
    RoundsDown(k, 4);
    RoundsDown(k / 4, 25);
    RoundsDown(k / 4 / 25, 4);
  }

  lemma YearLength(year: int)
    ensures YearDays(year + 1) == YearDays(year) + (if LeapYear(year) then 366 else 365)
  {
    hide LeapYear;
    LeapIs(year);
    LeapStep(year);
  }

  lemma LeapStep(y: int)
    ensures y / 4 == (y - 1) / 4 + (if y % 4 == 0 then 1 else 0)
    ensures y / 100 == (y - 1) / 100 + (if y % 100 == 0 then 1 else 0)
    ensures y / 400 == (y - 1) / 400 + (if y % 400 == 0 then 1 else 0)
    ensures (y % 400 == 0 ==> y % 100 == 0) && (y % 100 == 0 ==> y % 4 == 0)
  {
  }

  lemma NegativeQuotients(k: int)
    ensures (-k) / 4 == -(k / 4) - (if k % 4 == 0 then 0 else 1)
    ensures (-k) / 100 == -(k / 100) - (if k % 100 == 0 then 0 else 1)
    ensures (-k) / 400 == -(k / 400) - (if k % 400 == 0 then 0 else 1)
  {
  }

  /** Before the year 1 quotients are rounded the wrong way: the count is then one too
      high, except in the years that mirror a leap year. */
  function Excess(year: int): int {
    if year >= 1 || LeapYear(1 - year) then 0 else 1
  }

  /** The mixed-radix sum against the usual count, for every year. */
  lemma DaysBeforeClosed(year: int)
    ensures DaysBefore(year) == YearDays(year) + Excess(year)
  {
    hide DaysBefore, LeapYear;
    if year >= 1 {
      LaterDays(year);
    } else {
      DaysBeforeSymmetric(year);
      LaterDays(2 - year);
      LeapIs(1 - year);
      LeapStep(1 - year);
      NegativeQuotients(1 - year);
    }
  }

  lemma LeapIsFourth(y: int)
    requires LeapYear(y)
    ensures y % 4 == 0
  {
    hide LeapYear;
    LeapIs(y);
    LeapStep(y);
  }

  lemma Mirrored(y: int)
    ensures y % 4 == 0 ==> (1 - y) % 4 == 1
  {
  }

  lemma NotBothLeap(year: int)
    ensures !(LeapYear(year) && LeapYear(1 - year))
  {
    hide LeapYear;
    if LeapYear(year) && LeapYear(1 - year) {
      LeapIsFourth(year);
      LeapIsFourth(1 - year);
      Mirrored(year);
    }
  }

  // --------------------------------------------------------------------- single steps

  /** A step adds one day, in every year. */
  lemma StepAddsOne(t: Day)
    requires Strict(t)
    ensures Strict(Next(t)) && CalendarDay(Next(t)) == CalendarDay(t) + 1
  {
    hide LeapYear, YearDays;
    YearLength(t.year);
  }

  /** The dates at which the day of the epoch is wrong: the last day of a year up to 0
      that is a leap year or whose mirror image is one. */
  predicate Misses(t: Day) {
    t.month == 12 && t.day == 31 && t.year <= 0 && (LeapYear(t.year) || LeapYear(1 - t.year))
  }

  /** The year `y + 1` mirrors `-y`. */
  lemma ExcessStep(y: int)
    ensures Excess(y + 1) == Excess(y) <==> !(y <= 0 && (LeapYear(y) || LeapYear(1 - y)))
  {
    hide LeapYear;
    NotBothLeap(y);
    LeapsAround();
    LeapIs(y);
    LeapIs(-y);
    LeapMirror(y);
  }

  lemma LeapMirror(y: int)
    ensures (-y) % 4 == 0 <==> y % 4 == 0
    ensures (-y) % 100 == 0 <==> y % 100 == 0
    ensures (-y) % 400 == 0 <==> y % 400 == 0
  {
    NegativeQuotients(y);
  }

  lemma EpochOffset(t: Day)
    requires 0 <= t.month <= 12
    ensures DayOfEpoch(t) == CalendarDay(t) + Excess(t.year)
  {
    hide DaysBefore, YearDays, LeapYear, Excess, DayOfYear;
    DaysBeforeClosed(t.year);
  }

  /** Stepping and epoch arithmetic agree, on every date of every year from 1 on, and
      before that exactly where the quotients round the right way. */
  lemma StepExactly(t: Day)
    requires Strict(t)
    ensures Strict(Next(t))
    ensures DayOfEpoch(Next(t)) == DayOfEpoch(t) + 1 <==> !Misses(t)
  {
    hide LeapYear, DayOfEpoch, CalendarDay, Excess;
    StepAddsOne(t);
    EpochOffset(t);
    EpochOffset(Next(t));
    ExcessStep(t.year);
  }

  /** The epoch's last day before the year 1 gets the number of the day behind it. */
  lemma YearZeroMisses()
    ensures Next(Day(0, 12, 31)) == Day(1, 1, 1)
    ensures DayOfEpoch(Day(0, 12, 31)) == DayOfEpoch(Day(1, 1, 1)) == 1
  {
    hide LeapYear, DayOfEpoch;
    LeapsAround();
    EpochOffset(Day(0, 12, 31));
    EpochOffset(Day(1, 1, 1));
  }

  lemma LeapsAround()
    ensures LeapYear(0) && !LeapYear(1)
  {
    hide LeapYear, Quot, Rem;
    LeapIs(0);
    LeapIs(1);
  }

  lemma RemSigned(a: int)
    ensures Rem(a, 7) == if a >= 0 then a % 7 else -((-a) % 7)
  {
    hide Rem;
    if a >= 0 { RoundsDown(a, 7); } else { RoundsUp(-a, 7); }
  }

  predicate WeekMoves(t: Day)
    requires Strict(t)
  {
    0 <= DayOfWeek(t) < 7 && DayOfWeek(Next(t)) == (DayOfWeek(t) + 1) % 7
  }

  /** The day of the week advances with a step exactly if the day of the epoch does, and
      is not negative. */
  lemma WeekStep(t: Day)
    requires Strict(t)
    ensures WeekMoves(t) <==> DayOfEpoch(t) >= 0 && !Misses(t)
  {
    hide DayOfEpoch, CalendarDay, LeapYear, Rem, Strict, Misses, Next;
    StepAddsOne(t);
    StepExactly(t);
    EpochOffset(t);
    EpochOffset(Next(t));
    RemSigned(DayOfEpoch(t));
    RemSigned(DayOfEpoch(Next(t)));
    RemAround(DayOfEpoch(t), DayOfEpoch(Next(t)));
  }

  lemma RemAround(a: int, b: int)
    requires a <= b <= a + 2
    ensures 0 <= Rem(a, 7) && Rem(b, 7) == (Rem(a, 7) + 1) % 7 <==> a >= 0 && b == a + 1
  {
    hide Rem;
    RemSigned(a);
    RemSigned(b);
  }

  /** All dates from the year 1 on. */
  lemma WeekStepAfterYearOne(t: Day)
    requires Strict(t) && t.year >= 1
    ensures WeekMoves(t)
  {
    hide DayOfEpoch, WeekMoves;
    EpochPositive(t);
    WeekStep(t);
  }

  /** 400 years are the same number of days from any date on. */
  lemma EraLength(t: Day)
    requires Strict(t)
    ensures var u := t.(year := t.year + 400); Strict(u) && CalendarDay(u) == CalendarDay(t) + 146097
  {
    hide LeapYear;
    LeapIs(t.year);
    LeapIs(t.year + 400);
    EraStep(t.year);
    EraStep(t.year - 1);
  }

  lemma EraStep(y: int)
    ensures (y + 400) / 4 == y / 4 + 100 && (y + 400) / 100 == y / 100 + 4 && (y + 400) / 400 == y / 400 + 1
    ensures (y + 400) % 4 == y % 4 && (y + 400) % 100 == y % 100 && (y + 400) % 400 == y % 400
  {
  }

  lemma EraExcess(year: int)
    ensures year >= 1 || year <= -400 ==> Excess(year + 400) == Excess(year)
    ensures -400 < year < 1 ==> Excess(year + 400) == 0
  {
    hide LeapYear;
    LeapIs(1 - year);
    LeapIs(1 - (year + 400));
    EraStep(1 - (year + 400));
  }

  lemma RemEra(a: int, b: int)
    requires b == a + 146097 || b == a + 146096
    ensures Rem(b, 7) == Rem(a, 7) <==> b == a + 146097 && (a >= 0 || b <= 0 || Rem(a, 7) == 0)
  {
    hide Rem;
    RemSigned(a);
    RemSigned(b);
  }

  /** Weekdays repeat after 400 years exactly if the quotients round alike for both years
      and the day of the epoch does not change its sign, or is a multiple of 7. */
  lemma WeekRepeats(t: Day)
    requires Strict(t)
    ensures var u := t.(year := t.year + 400);
      DayOfWeek(u) == DayOfWeek(t) <==>
        Excess(u.year) == Excess(t.year) && (DayOfEpoch(t) >= 0 || DayOfEpoch(u) <= 0 || DayOfWeek(t) == 0)
  {
    hide LeapYear, DayOfEpoch, CalendarDay, Strict, Rem;
    var u := t.(year := t.year + 400);
    EraLength(t);
    EpochOffset(t);
    EpochOffset(u);
    EraExcess(t.year);
    RemEra(DayOfEpoch(t), DayOfEpoch(u));
  }

  /** They are counted from Sunday: the first day of the year 2000 is a Saturday. */
  lemma WeekBegins()
    ensures DayOfWeek(Day(2000, 1, 1)) == 6
  {
    hide LeapYear, DaysBefore, Rem;
    DaysBeforeClosed(2000);
    LeapIs(2000);
    RoundsDown(DayOfEpoch(Day(2000, 1, 1)), 7);
  }

  lemma EpochPositive(t: Day)
    requires Strict(t) && t.year >= 1
    ensures DayOfEpoch(t) >= 1
  {
    hide LeapYear, DaysBefore;
    DaysBeforeClosed(t.year);
  }

  /** For the years of a 32-bit count of days nothing overflows. */
  lemma EpochFits(t: Day)
    requires Strict(t) && 1 <= t.year <= 5_879_610
    ensures 1 <= DayOfEpoch(t) < 0x8000_0000
  {
    hide LeapYear, DaysBefore, DayOfYear;
    DaysBeforeClosed(t.year);
    DayInYear(t);
  }

  // ------------------------------------------------------------------------ the order

  lemma DayInYear(t: Day)
    requires Strict(t)
    ensures 1 <= DayOfYear(t) <= (if LeapYear(t.year) then 366 else 365)
  {
    hide LeapYear;
  }

  lemma {:induction false} YearsApart(y: int, z: int)
    requires y < z
    ensures YearDays(z) >= YearDays(y) + (if LeapYear(y) then 366 else 365)
    decreases z - y
  {
    hide YearDays, LeapYear;
    if z == y + 1 {
      YearLength(y);
    } else {
      YearsApart(y, z - 1);
      YearLength(z - 1);
    }
  }

  lemma WithinYear(a: Day, b: Day)
    requires Strict(a) && Strict(b) && a.year == b.year
    ensures DayOfYear(a) < DayOfYear(b) <==> Before(a, b)
  {
    hide LeapYear;
  }

  lemma BeforeIsLess(a: Day, b: Day)
    requires Strict(a) && Strict(b) && Before(a, b)
    ensures CalendarDay(a) < CalendarDay(b)
  {
    hide DayOfYear, YearDays, LeapYear, Strict;
    if a.year == b.year {
      WithinYear(a, b);
    } else {
      YearsApart(a.year, b.year);
      DayInYear(a);
      DayInYear(b);
    }
  }

  /** The calendar's count orders dates as `operator<` does, and tells any two apart. */
  lemma OrderIsCalendar(a: Day, b: Day)
    requires Strict(a) && Strict(b)
    ensures Before(a, b) <==> CalendarDay(a) < CalendarDay(b)
    ensures a == b <==> CalendarDay(a) == CalendarDay(b)
  {
    hide CalendarDay, Strict;
    if Before(a, b) {
      BeforeIsLess(a, b);
    } else if a != b {
      BeforeIsLess(b, a);
    }
  }

  /** So does the day of the epoch from the year 1 on. */
  lemma OrderIsEpoch(a: Day, b: Day)
    requires Strict(a) && Strict(b) && 1 <= a.year && 1 <= b.year
    ensures Before(a, b) <==> DayOfEpoch(a) < DayOfEpoch(b)
    ensures a == b <==> DayOfEpoch(a) == DayOfEpoch(b)
  {
    hide DayOfEpoch, CalendarDay, Strict, Before;
    OrderIsCalendar(a, b);
    EpochOffset(a);
    EpochOffset(b);
  }

  // ------------------------------------------------------------------- runs of steps

  lemma {:induction false} AdvanceMoves(t: Day, n: int)
    requires Strict(t)
    ensures CalendarDay(Advance(t, n)) == CalendarDay(t) + (if n < 0 then 0 else n)
    decreases n
  {
    hide CalendarDay, Strict;
    if n <= 0 {
    } else {
      AdvanceMoves(t, n - 1);
      StepAddsOne(Advance(t, n - 1));
    }
  }

  /** `+= n` arrives at the one date `n` days later; a negative `n` moves nothing. */
  lemma AdvanceExactly(t: Day, n: int, u: Day)
    requires Strict(t) && Strict(u)
    ensures u == Advance(t, n) <==> CalendarDay(u) == CalendarDay(t) + (if n < 0 then 0 else n)
  {
    hide CalendarDay, Strict;
    AdvanceMoves(t, n);
    OrderIsCalendar(u, Advance(t, n));
  }

  lemma {:induction false} AdvanceLater(t: Day, n: int)
    requires 0 <= t.month <= 12
    ensures Advance(t, n).year >= t.year
    decreases n
  {
    if n <= 0 {
    } else {
      AdvanceLater(t, n - 1);
    }
  }

  /** From the year 1 on, that is `n` days later in the epoch. */
  lemma AdvanceEpoch(t: Day, n: nat)
    requires Strict(t) && t.year >= 1
    ensures Advance(t, n).year >= 1 && DayOfEpoch(Advance(t, n)) == DayOfEpoch(t) + n
  {
    hide DayOfEpoch, CalendarDay, Strict, Advance;
    AdvanceLater(t, n);
    AdvanceMoves(t, n);
    EpochOffset(t);
    EpochOffset(Advance(t, n));
  }

  lemma FirstDay() returns (t: Day)
    ensures t == Day(1, 1, 1) && Strict(t) && DayOfEpoch(t) == 1
  {
    hide LeapYear, DaysBefore;
    t := Day(1, 1, 1);
    DaysBeforeClosed(1);
  }

  /** Every positive number is the day of the epoch of exactly one date. */
  lemma EveryDayOnce(n: int) returns (t: Day)
    requires n >= 1
    ensures Strict(t) && t.year >= 1 && DayOfEpoch(t) == n
    ensures forall u | Strict(u) && u.year >= 1 && DayOfEpoch(u) == n :: u == t
  {
    hide DayOfEpoch, LeapYear;
    var first := FirstDay();
    t := Advance(first, n - 1);
    AdvanceEpoch(first, n - 1);
    forall u | Strict(u) && u.year >= 1 && DayOfEpoch(u) == n ensures u == t {
      OrderIsEpoch(u, t);
    }
  }

  /** `+= a` and then `+= b` is `+= (a + b)` exactly if the two do not differ in sign. */
  lemma AdvanceTwice(t: Day, a: int, b: int)
    requires Strict(t)
    ensures Advance(Advance(t, a), b) == Advance(t, a + b) <==> !(a < 0 < b) && !(b < 0 < a)
  {
    hide CalendarDay, Strict, Advance;
    AdvanceMoves(t, a);
    AdvanceMoves(Advance(t, a), b);
    AdvanceMoves(t, a + b);
    OrderIsCalendar(Advance(Advance(t, a), b), Advance(t, a + b));
  }

  // ------------------------------------------------------ dates that are not in the calendar

  /** The day of which `endOfMonth` is true. */
  function LastDay(t: Day): int
    requires 0 <= t.month <= 12
  {
    if t.month == 2 && LeapYear(t.year) then 29 else MDAYS[t.month]
  }

  /** Behind the last day of the month the day is counted on without end. */
  lemma {:induction false} Overrun(t: Day, n: nat)
    requires 0 <= t.month <= 12 && t.day > LastDay(t)
    ensures Advance(t, n) == t.(day := t.day + n) && !Strict(Advance(t, n))
    decreases n
  {
    hide LeapYear;
    if n == 0 {
    } else {
      Overrun(t, n - 1);
    }
  }

  /** Up to the last day the steps reach the end of the month. */
  lemma {:induction false} Within(t: Day, n: nat)
    requires 0 <= t.month <= 12 && t.day + n <= LastDay(t)
    ensures Advance(t, n) == t.(day := t.day + n)
    decreases n
  {
    hide LeapYear;
    if n == 0 {
    } else {
      Within(t, n - 1);
    }
  }

  /** Stepping leads into the calendar exactly from a day up to the last of its month. */
  lemma StepsRecover(t: Day)
    requires 0 <= t.month <= 12
    ensures (exists n: nat :: Strict(Advance(t, n))) <==> t.day <= LastDay(t)
  {
    hide Strict, Advance, LeapYear;
    if t.day <= LastDay(t) {
      var n := LastDay(t) - t.day;
      Within(t, n);
      AfterLast(t, n);
      assert Strict(Advance(t, n + 1));
    } else {
      forall n: nat ensures !Strict(Advance(t, n)) {
        Overrun(t, n);
      }
    }
  }

  lemma AfterLast(t: Day, n: nat)
    requires 0 <= t.month <= 12 && Advance(t, n) == t.(day := LastDay(t))
    ensures Strict(Advance(t, n + 1))
  {
    hide LeapYear;
  }

  // -------------------------------------------------------------------- whole months

  /** The month after `t`'s, or the one before it, with the day left as it is. */
  function MonthMoved(t: Day, forward: bool): Day {
    if forward then
      if t.month == 12 then Day(t.year + 1, 1, t.day) else t.(month := t.month + 1)
    else
      if t.month == 1 then Day(t.year - 1, 12, t.day) else t.(month := t.month - 1)
  }

  /** Counted from year 0, the move is one month on or back, and leaves the day alone. */
  lemma MonthMovesOne(t: Day, forward: bool)
    requires 1 <= t.month <= 12
    ensures var u := MonthMoved(t, forward);
      && 1 <= u.month <= 12 && u.day == t.day
      && 12 * u.year + u.month == 12 * t.year + t.month + if forward then 1 else -1
  {
  }

  /** The day counted down until `isvalid` is content, or to 0. */
  function CountedDown(t: Day): Day
    decreases t.day
  {
    if t.day >= 1 && !IsValid(t) then CountedDown(t.(day := t.day - 1)) else t
  }

  lemma {:induction false} CountsTo(t: Day, d: int)
    requires 0 <= d <= t.day
    requires forall k | d < k <= t.day :: !IsValid(t.(day := k))
    requires d >= 1 ==> IsValid(t.(day := d))
    ensures CountedDown(t) == t.(day := d)
    decreases t.day
  {
    hide IsValid;
    assert t.(day := t.day) == t;
    if d == t.day {
    } else {
      var t' := t.(day := t.day - 1);
      forall k | d < k <= t'.day ensures !IsValid(t'.(day := k)) {
        assert t'.(day := k) == t.(day := k);
      }
      assert t'.(day := d) == t.(day := d);
      CountsTo(t', d);
    }
  }

  /** Moving a date by a month gives a date of the calendar, with the day cut down to the
      month's length, exactly if the new year is at most 2035 and the move is not from
      a 31st into a month of 30 days of a leap year. */
  lemma MonthMoveExactly(t: Day, forward: bool)
    requires Strict(t)
    ensures var u := MonthMoved(t, forward); var length := DaysInMonth(u.month, LeapYear(u.year));
      var fits := u.year <= 2035 && !(LeapYear(u.year) && length == 30 && t.day == 31);
      && (Strict(CountedDown(u)) <==> fits)
      && (fits ==> CountedDown(u) == u.(day := if t.day <= length then t.day else length))
  {
    hide LeapYear, CountedDown;
    var u := MonthMoved(t, forward);
    var length := DaysInMonth(u.month, LeapYear(u.year));
    CountsTo(u,
      if u.year > 2035 then 0
      else if u.day <= length || (LeapYear(u.year) && u.month != 2) then u.day
      else length);
  }

  /** The move that `isvalid` lets spoil a date leaves it where stepping never leads back
      into the calendar. */
  lemma SpoiltForever(t: Day, forward: bool, n: nat)
    requires Strict(t)
    requires var u := MonthMoved(t, forward);
      u.year <= 2035 && LeapYear(u.year) && DaysInMonth(u.month, LeapYear(u.year)) == 30 && t.day == 31
    ensures var u := CountedDown(MonthMoved(t, forward));
      Advance(u, n) == u.(day := 31 + n) && !Strict(Advance(u, n))
  {
    hide LeapYear, Advance, CountedDown;
    var u := MonthMoved(t, forward);
    CountsTo(u, u.day);
    Overrun(u, n);
  }

  // ------------------------------------------------------------------------ the class

  class Date {
    var year: int
    var month: int
    var day: int

    function View(): Day
      reads this
    {
      Day(year, month, day)
    }

    constructor (t: Day)
      ensures View() == t
    {
      year, month, day := t.year, t.month, t.day;
    }

    method HelpIncrement()
      requires 0 <= month <= 12
      modifies this
      ensures View() == Next(old(View())) && 0 <= month <= 12
      ensures old(Strict(View())) ==> Strict(View()) && CalendarDay(View()) == old(CalendarDay(View())) + 1
    {
      hide LeapYear, CalendarDay;
      if Strict(View()) {
        StepAddsOne(View());
      }
      if EndOfMonth(View(), day) && month == 12 {
        day := 1;
        month := 1;
        year := year + 1;
      } else if EndOfMonth(View(), day) {
        day := 1;
        month := month + 1;
      } else {
        day := day + 1;
      }
    }

    /** `operator+=`. */
    method Add(ndays: int)
      requires 0 <= month <= 12
      modifies this
      ensures View() == Advance(old(View()), ndays)
      ensures old(Strict(View())) ==>
        Strict(View()) && CalendarDay(View()) == old(CalendarDay(View())) + (if ndays < 0 then 0 else ndays)
    {
      hide LeapYear, CalendarDay, Next, Strict;
      var i := 0;
      while i < ndays
        invariant 0 <= i && (i <= ndays || i == 0)
        invariant 0 <= month <= 12 && View() == Advance(old(View()), i)
      {
        HelpIncrement();
        i := i + 1;
      }
      if old(Strict(View())) {
        AdvanceMoves(old(View()), ndays);
      }
    }

    /** `next_month` and `previous_month`: the same loop behind the move. */
    method MoveMonth(forward: bool)
      modifies this
      ensures View() == CountedDown(MonthMoved(old(View()), forward))
    {
      hide IsValid;
      if forward {
        if month == 12 { month, year := 1, year + 1; } else { month := month + 1; }
      } else {
        if month == 1 { month, year := 12, year - 1; } else { month := month - 1; }
      }
      ghost var moved := View();
      while day >= 1 && !IsValid(View())
        invariant CountedDown(moved) == CountedDown(View())
        decreases day
      {
        day := day - 1;
      }
    }
  }
}
