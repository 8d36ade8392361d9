/** Days since 1970-01-01 and civil dates (src/identity.cpp; section 5.6 of RFC 3339). */
module Calendar {

  datatype Date = Date(year: int, month: int, day: int)

  // ----- The Gregorian calendar -----

  predicate IsLeap(year: int) {
    year % 4 == 0 && (year % 100 != 0 || year % 400 == 0)
  }

  function DaysInMonth(year: int, month: int): nat {
    if month == 2 then (if IsLeap(year) then 29 else 28)
    else if month == 4 || month == 6 || month == 9 || month == 11 then 30
    else 31
  }

  predicate IsDate(d: Date) {
    1 <= d.month <= 12 && 1 <= d.day <= DaysInMonth(d.year, d.month)
  }

  function NextDay(d: Date): Date {
    if d.day < DaysInMonth(d.year, d.month) then d.(day := d.day + 1)
    else if d.month < 12 then Date(d.year, d.month + 1, 1)
    else Date(d.year + 1, 1, 1)
  }

  // ----- The computation -----

  /** Division and remainder that round toward zero. */
  function Quotient(a: int, b: int): int
    requires b > 0
  {
    if a >= 0 then a / b else -((-a) / b)
  }

  function Remainder(a: int, b: int): int
    requires b > 0
  {
    a - Quotient(a, b) * b
  }

  const DAYS_PER_ERA: nat := 146097
  const EPOCH_SHIFT: nat := 719468

  function Era(z: int): int {
    Quotient(if z >= 0 then z else z - 146096, DAYS_PER_ERA)
  }

  function YearOfEra(doe: nat): int {
    (doe - doe / 1460 + doe / 36524 - doe / 146096) / 365
  }

  /** Day of the year that begins on March 1st. */
  function DaysBefore(yoe: int): int {
    365 * yoe + yoe / 4 - yoe / 100
  }

  /** The date of a day in the year that begins in March of the given year. */
  function DateIn(year: int, doy: nat): Date {
    var mp := (5 * doy + 2) / 153;
    var month := if mp < 10 then mp + 3 else mp - 9;
    Date(if month <= 2 then year + 1 else year, month, doy - (153 * mp + 2) / 5 + 1)
  }

  function CivilFromDays(days: int): Date {
    var z := days + EPOCH_SHIFT;
    EraIsFloor(z);
    var doe := z - Era(z) * DAYS_PER_ERA;
    var yoe := YearOfEra(doe);
    YearOfSplit(SplitOf(doe));
    DateIn(yoe + Era(z) * 400, doe - DaysBefore(yoe))
  }

  function DayOfYear(d: Date): int {
    var mp := if d.month > 2 then d.month - 3 else d.month + 9;
    (153 * mp + 2) / 5 + (d.day - 1)
  }

  function DaysFromCivil(d: Date): int {
    var y := if d.month <= 2 then d.year - 1 else d.year;
    var era := Quotient(if y >= 0 then y else y - 399, 400);
    var yoe := y - era * 400;
    era * DAYS_PER_ERA + (DaysBefore(yoe) + DayOfYear(d)) - EPOCH_SHIFT
  }

  lemma EraIsFloor(z: int)
    ensures 0 <= z - Era(z) * DAYS_PER_ERA < DAYS_PER_ERA
  {
  }

  // ----- Splitting a day of an era -----

  /** doe == 36524 c + 1461 q + 365 y + t: centuries, four-year cycles, years and days. */
  datatype Split = Split(c: nat, q: nat, y: nat, t: nat)

  predicate IsSplit(s: Split) {
    && s.c < 4 && s.q < 25 && s.y < 4
    && (s.t <= 364 || (s.t == 365 && s.y == 3 && (s.q < 24 || s.c == 3)))
  }

  function Joined(s: Split): nat {
    36524 * s.c + 1461 * s.q + 365 * s.y + s.t
  }

  function SplitOf(doe: nat): (s: Split)
    requires doe < DAYS_PER_ERA
    ensures IsSplit(s) && Joined(s) == doe
  {
    var c := if doe / 36524 < 4 then doe / 36524 else 3;
    var r := doe - 36524 * c;
    var q := r / 1461;
    var s := r - 1461 * q;
    var y := if s / 365 < 4 then s / 365 else 3;
    Split(c, q, y, s - 365 * y)
  }

  /** The formula finds the year and the day in it. */
  lemma YearOfSplit(s: Split)
    requires IsSplit(s)
    ensures YearOfEra(Joined(s)) == 100 * s.c + 4 * s.q + s.y
    ensures DaysBefore(100 * s.c + 4 * s.q + s.y) + s.t == Joined(s)
  {
    var doe := Joined(s);
    var e := if 24 * s.c + s.q + 365 * s.y + s.t >= 1460 then 1 else 0;
    assert doe / 1460 == 25 * s.c + s.q + e;
    var f := if doe == 146096 then 1 else 0;
    assert doe / 36524 == s.c + f && doe / 146096 == f;
    assert doe - doe / 1460 + doe / 36524 - doe / 146096 == 365 * (100 * s.c + 4 * s.q + s.y) + s.t - e;
    assert (100 * s.c + 4 * s.q + s.y) / 4 == 25 * s.c + s.q && (100 * s.c + 4 * s.q + s.y) / 100 == s.c;
  }

  // ----- Days and dates -----

  lemma MonthAndDay(year: int, doy: nat)
    requires doy <= 365
    ensures var d := DateIn(year, doy);
      DayOfYear(d) == doy && 1 <= d.month <= 12 && 1 <= d.day <= 31 && d.year == (if d.month <= 2 then year + 1 else year)
  {
    var mp := (5 * doy + 2) / 153;
    assert 0 <= mp <= 11;
    var r := 5 * doy + 2 - 153 * mp;
    assert 0 <= r < 153;
  }

  lemma YearSplits(era: int, yoe: int)
    requires 0 <= yoe < 400
    ensures var y := yoe + era * 400;
      Quotient(if y >= 0 then y else y - 399, 400) == era
  {
  }

  function YearIn(era: int, s: Split): int {
    100 * s.c + 4 * s.q + s.y + era * 400
  }

  /** Every day lies in one era, at one split position. */
  lemma CivilOf(days: int) returns (era: int, s: Split)
    ensures IsSplit(s) && days + EPOCH_SHIFT == era * DAYS_PER_ERA + Joined(s)
    ensures CivilFromDays(days) == DateIn(YearIn(era, s), s.t)
  {
    hide Quotient, YearOfEra, Joined, IsSplit, DaysBefore, DateIn, Era;
    var z := days + EPOCH_SHIFT;
    EraIsFloor(z);
    era := Era(z);
    s := SplitOf(z - era * DAYS_PER_ERA);
    YearOfSplit(s);
  }

  lemma DaysOfSplit(era: int, s: Split)
    requires IsSplit(s)
    ensures DaysFromCivil(DateIn(YearIn(era, s), s.t)) == era * DAYS_PER_ERA + Joined(s) - EPOCH_SHIFT
  {
    hide Quotient, YearOfEra, Joined, DaysBefore, DateIn, DayOfYear;
    var yoe := 100 * s.c + 4 * s.q + s.y;
    YearOfSplit(s);
    MonthAndDay(YearIn(era, s), s.t);
    YearSplits(era, yoe);
  }

  /** Days and back: the two computations are inverse, in every era. */
  lemma DaysRoundTrip(days: int)
    ensures DaysFromCivil(CivilFromDays(days)) == days
  {
    hide DaysFromCivil, CivilFromDays, IsSplit, DateIn;
    var era, s := CivilOf(days);
    DaysOfSplit(era, s);
  }

  /** March-based day numbers: the month lengths, with the leap day last. */
  lemma DateInYear(year: int, doy: nat)
    requires doy <= 365 && (doy == 365 ==> IsLeap(year + 1))
    ensures IsDate(DateIn(year, doy))
    ensures doy < 365 && (doy == 364 ==> IsLeap(year + 1)) ==> NextDay(DateIn(year, doy)) == DateIn(year, doy + 1)
    ensures doy == (if IsLeap(year + 1) then 365 else 364) ==> NextDay(DateIn(year, doy)) == Date(year + 1, 3, 1)
  {
  }

  lemma LeapOfSplit(era: int, s: Split)
    requires IsSplit(s)
    ensures IsLeap(YearIn(era, s) + 1) <==> s.y == 3 && (s.q < 24 || s.c == 3)
  {
    Multiples(25 * s.c + s.q + 100 * era, s.y + 1, s.c + 4 * era, 4 * s.q + s.y + 1, era, 100 * s.c + 4 * s.q + s.y + 1);
  }

  lemma Multiples(k: int, r: int, l: int, t: int, m: int, u: int)
    requires 1 <= r <= 4 && 1 <= t <= 100 && 1 <= u <= 400
    ensures (4 * k + r) % 4 == 0 <==> r == 4
    ensures (100 * l + t) % 100 == 0 <==> t == 100
    ensures (400 * m + u) % 400 == 0 <==> u == 400
  {
  }

  /** Every day has a real date. */
  lemma DaysAreDates(days: int)
    ensures IsDate(CivilFromDays(days))
  {
    hide CivilFromDays, DateIn, IsDate, IsLeap;
    var era, s := CivilOf(days);
    LeapOfSplit(era, s);
    DateInYear(YearIn(era, s), s.t);
  }

  /** The split position of the next day: one day on, or the first of the next year. */
  function NextSplit(s: Split): (int, Split)
    requires IsSplit(s)
  {
    if s.t < 364 || (s.t == 364 && s.y == 3 && (s.q < 24 || s.c == 3)) then (0, s.(t := s.t + 1))
    else if s.y < 3 then (0, s.(y := s.y + 1, t := 0))
    else if s.q < 24 then (0, Split(s.c, s.q + 1, 0, 0))
    else if s.c < 3 then (0, Split(s.c + 1, 0, 0, 0))
    else (1, Split(0, 0, 0, 0))
  }

  lemma NextIsSplit(s: Split)
    requires IsSplit(s)
    ensures IsSplit(NextSplit(s).1)
    ensures NextSplit(s).1.t == 0 || NextSplit(s).1.t == s.t + 1
  {
  }

  lemma NextSplitIsNext(s: Split)
    requires IsSplit(s)
    ensures NextSplit(s).0 * DAYS_PER_ERA + Joined(NextSplit(s).1) == Joined(s) + 1
  {
    if s.t < 364 || (s.t == 364 && s.y == 3 && (s.q < 24 || s.c == 3)) {
      assert NextSplit(s) == (0, s.(t := s.t + 1));
    } else if s.y < 3 {
      assert s.t == 364 && NextSplit(s) == (0, s.(y := s.y + 1, t := 0));
    } else if s.q < 24 {
      assert s.t == 365 && NextSplit(s) == (0, Split(s.c, s.q + 1, 0, 0));
    } else if s.c < 3 {
      assert s.t == 364 && NextSplit(s) == (0, Split(s.c + 1, 0, 0, 0));
    } else {
      assert s.t == 365 && NextSplit(s) == (1, Split(0, 0, 0, 0));
    }
  }

  lemma NextYearOfSplit(era: int, s: Split)
    requires IsSplit(s)
    ensures YearIn(era + NextSplit(s).0, NextSplit(s).1) == YearIn(era, s) + (if NextSplit(s).1.t == 0 then 1 else 0)
  {
  }

  lemma SplitIsUnique(era: int, s: Split, eraToo: int, r: Split)
    requires IsSplit(s) && IsSplit(r)
    requires era * DAYS_PER_ERA + Joined(s) == eraToo * DAYS_PER_ERA + Joined(r)
    ensures era == eraToo && s == r
  {
    assert 0 <= Joined(s) < DAYS_PER_ERA && 0 <= Joined(r) < DAYS_PER_ERA;
  }

  /** The computation follows the calendar: the epoch is 1970-01-01, and the next number is the next date. */
  lemma CivilFollowsCalendar(days: int)
    ensures CivilFromDays(0) == Date(1970, 1, 1)
    ensures IsDate(CivilFromDays(days))
    ensures CivilFromDays(days + 1) == NextDay(CivilFromDays(days))
  {
    DaysAreDates(days);
    hide CivilFromDays, DateIn, IsDate, IsLeap, NextDay, Joined, IsSplit, YearIn;
    var era, s := CivilOf(days);
    var eraToo, r := CivilOf(days + 1);
    NextIsSplit(s);
    NextSplitIsNext(s);
    SplitIsUnique(era + NextSplit(s).0, NextSplit(s).1, eraToo, r);
    NextDateOfSplit(era, s);
    Epoch();
  }

  lemma Epoch()
    ensures CivilFromDays(0) == Date(1970, 1, 1)
  {
    assert Era(EPOCH_SHIFT) == 4;
    assert YearOfEra(135080) == 369 && DaysBefore(369) == 134774;
    assert DateIn(1969, 306) == Date(1970, 1, 1);
    hide Era, YearOfEra, DaysBefore, DateIn;
  }

  lemma NextDateOfSplit(era: int, s: Split)
    requires IsSplit(s)
    ensures NextDay(DateIn(YearIn(era, s), s.t)) == DateIn(YearIn(era + NextSplit(s).0, NextSplit(s).1), NextSplit(s).1.t)
  {
    hide DateIn, IsDate, IsLeap, NextDay, YearIn;
    LeapOfSplit(era, s);
    DateInYear(YearIn(era, s), s.t);
    NextIsSplit(s);
    NextSplitIsNext(s);
    NextYearOfSplit(era, s);
    FirstOfMarch(YearIn(era, s) + 1);
  }

  lemma FirstOfMarch(year: int)
    ensures DateIn(year, 0) == Date(year, 3, 1)
  {
  }

  // ----- Dates and back -----

  function MarchYear(d: Date): int {
    if d.month <= 2 then d.year - 1 else d.year
  }

  lemma DayOfDate(d: Date)
    requires IsDate(d)
    ensures 0 <= DayOfYear(d) <= 365 && (DayOfYear(d) == 365 ==> IsLeap(MarchYear(d) + 1))
    ensures DateIn(MarchYear(d), DayOfYear(d)) == d
  {
    assert 1 <= d.month <= 12 && 1 <= d.day <= 31;
    if d.month == 2 && d.day == 29 { assert IsLeap(d.year); }
  }

  /** The split position of a day in a year counted from March. */
  lemma SplitOfYear(year: int, doy: nat) returns (era: int, s: Split)
    requires doy <= 365 && (doy == 365 ==> IsLeap(year + 1))
    ensures IsSplit(s) && YearIn(era, s) == year && s.t == doy
  {
    era := year / 400;
    var yoe := year - 400 * era;
    assert 0 <= yoe < 400;
    var first := Split(yoe / 100, yoe % 100 / 4, yoe % 4, 0);
    assert yoe == 100 * (yoe / 100) + 4 * (yoe % 100 / 4) + yoe % 4;
    hide IsLeap;
    LeapOfSplit(era, first);
    s := first.(t := doy);
  }

  /** A date comes back from its day number exactly when it is a real date. */
  lemma DateRoundTripIff(d: Date)
    ensures CivilFromDays(DaysFromCivil(d)) == d <==> IsDate(d)
  {
    DaysAreDates(DaysFromCivil(d));
    if IsDate(d) {
      DayOfDate(d);
      hide CivilFromDays, DaysFromCivil, DateIn, IsDate, IsLeap, IsSplit, Joined, YearIn, MarchYear, DayOfYear;
      var era, s := SplitOfYear(MarchYear(d), DayOfYear(d));
      DaysOfSplit(era, s);
      var eraToo, r := CivilOf(DaysFromCivil(d));
      SplitIsUnique(era, s, eraToo, r);
    }
  }

  lemma DayAfter(d: Date)
    ensures DaysFromCivil(d.(day := d.day + 1)) == DaysFromCivil(d) + 1
  {
  }

  lemma {:induction false} PastTheMonth(d: Date)
    requires IsDate(d.(day := 1)) && DaysInMonth(d.year, d.month) < d.day <= 31
    ensures CivilFromDays(DaysFromCivil(d)) == Date(d.year, d.month + 1, d.day - DaysInMonth(d.year, d.month))
    decreases d.day
  {
    hide CivilFromDays, DaysFromCivil, IsLeap;
    var before := d.(day := d.day - 1);
    DayAfter(before);
    CivilFollowsCalendar(DaysFromCivil(before));
    if before.day == DaysInMonth(d.year, d.month) {
      DateRoundTripIff(before);
    } else {
      PastTheMonth(before);
    }
  }

  /** A day the month does not have stands for one of the next month. */
  lemma MissingDateIsLater(d: Date)
    requires 1 <= d.month <= 12 && 1 <= d.day <= 31 && !IsDate(d)
    ensures CivilFromDays(DaysFromCivil(d)) == Date(d.year, d.month + 1, d.day - DaysInMonth(d.year, d.month))
  {
    PastTheMonth(d);
  }
}
