/** Calendar dates of the years 0-9999, their day numbers and their stored texts. */
module Calendar {
  import opened TextOrder
  import opened Wrappers

  // ----- Dates -----

  datatype YearMonthDay = YearMonthDay(year: nat, month: nat, day: nat)

  predicate IsLeap(year: nat) {
    year % 4 == 0 && (year % 100 != 0 || year % 400 == 0)
  }

  function DaysIn(month: nat, year: nat): nat {
    if month == 2 then (if IsLeap(year) then 29 else 28)
    else if month in {4, 6, 9, 11} then 30
    else 31
  }

  predicate ValidDate(d: YearMonthDay) {
    d.year <= 9999 && 1 <= d.month <= 12 && 1 <= d.day <= DaysIn(d.month, d.year)
  }

  type Date = d: YearMonthDay | ValidDate(d) witness YearMonthDay(1, 1, 1)

  const FIRST_DATE: Date := YearMonthDay(0, 1, 1)
  /** Go's zero time, the date an account input carries when it never expires. */
  const ZERO_DATE: Date := YearMonthDay(1, 1, 1)
  /** The date stored for accounts that never expire. */
  const NEVER_EXPIRES: Date := YearMonthDay(9999, 12, 31)

  predicate Before(a: Date, b: Date) {
    a.year < b.year
    || (a.year == b.year && (a.month < b.month || (a.month == b.month && a.day < b.day)))
  }

  function NextDate(d: Date): Date
    requires d != NEVER_EXPIRES
  {
    if d.day < DaysIn(d.month, d.year) then YearMonthDay(d.year, d.month, d.day + 1)
    else if d.month < 12 then YearMonthDay(d.year, d.month + 1, 1)
    else YearMonthDay(d.year + 1, 1, 1)
  }

  // ----- Day numbers -----

  function DaysInYear(year: nat): nat {
    if IsLeap(year) then 366 else 365
  }

  function DaysBeforeYear(year: nat): nat {
    if year == 0 then 0 else DaysBeforeYear(year - 1) + DaysInYear(year - 1)
  }

  function DaysBeforeMonth(month: nat, year: nat): nat {
    if month <= 1 then 0 else DaysBeforeMonth(month - 1, year) + DaysIn(month - 1, year)
  }

  /** Days from 0000-01-01 to `d`: what subtracting days from a date works on. */
  function DayNumber(d: Date): nat {
    DaysBeforeYear(d.year) + DaysBeforeMonth(d.month, d.year) + d.day - 1
  }

  lemma {:induction false} MonthsAdvance(m: nat, n: nat, year: nat)
    requires 1 <= m < n
    ensures DaysBeforeMonth(m, year) + DaysIn(m, year) <= DaysBeforeMonth(n, year)
  {
    if m < n - 1 {
      MonthsAdvance(m, n - 1, year);
    }
  }

  lemma {:induction false} YearsAdvance(x: nat, y: nat)
    requires x < y
    ensures DaysBeforeYear(x) + DaysInYear(x) <= DaysBeforeYear(y)
  {
    if x < y - 1 {
      YearsAdvance(x, y - 1);
    }
  }

  lemma MonthsFillYear(year: nat)
    ensures DaysBeforeMonth(12, year) + DaysIn(12, year) == DaysInYear(year)
  {
    var feb := DaysIn(2, year);
    assert DaysBeforeMonth(2, year) == 31;
    assert DaysBeforeMonth(4, year) == feb + 62;
    assert DaysBeforeMonth(6, year) == feb + 123;
    assert DaysBeforeMonth(8, year) == feb + 184;
    assert DaysBeforeMonth(10, year) == feb + 245;
    assert DaysBeforeMonth(12, year) == feb + 306;
  }

  lemma DayWithinYear(d: Date)
    ensures DayNumber(d) < DaysBeforeYear(d.year) + DaysInYear(d.year)
  {
    MonthsFillYear(d.year);
    if d.month < 12 {
      MonthsAdvance(d.month, 12, d.year);
    }
  }

  lemma EarlierDateHasSmallerNumber(a: Date, b: Date)
    requires Before(a, b)
    ensures DayNumber(a) < DayNumber(b)
  {
    if a.year < b.year {
      DayWithinYear(a);
      YearsAdvance(a.year, b.year);
    } else if a.month < b.month {
      MonthsAdvance(a.month, b.month, a.year);
    }
  }

  /** Calendar order is day-number order, and no two dates share a number. */
  lemma DayNumberOrder(a: Date, b: Date)
    ensures Before(a, b) <==> DayNumber(a) < DayNumber(b)
    ensures a == b <==> DayNumber(a) == DayNumber(b)
  {
    if Before(a, b) {
      EarlierDateHasSmallerNumber(a, b);
    } else if Before(b, a) {
      EarlierDateHasSmallerNumber(b, a);
    }
  }

  /** Day numbers count single steps of the calendar, leap days included. */
  lemma NextDateIsNextNumber(d: Date)
    requires d != NEVER_EXPIRES
    ensures ValidDate(NextDate(d))
    ensures DayNumber(NextDate(d)) == DayNumber(d) + 1
  {
    if d.day == DaysIn(d.month, d.year) && d.month == 12 {
      MonthsFillYear(d.year);
    }
  }

  /** The date `n` days after 0000-01-01, counted one day at a time. */
  function DateOfDay(n: nat): (d: Date)
    requires n <= DayNumber(NEVER_EXPIRES)
    ensures DayNumber(d) == n
  {
    if n == 0 then FIRST_DATE
    else
      var p := DateOfDay(n - 1);
      NextDateIsNextNumber(p);
      NextDate(p)
  }

  // ----- The calendar in numbers -----

  /** The dates of the Gregorian calendar are as its rule gives them. */
  lemma GregorianDates(year: nat, month: nat, day: nat)
    ensures ValidDate(YearMonthDay(year, month, day)) <==>
            && year <= 9999 && 1 <= month <= 12 && 1 <= day
            && (day <= [31, 28, 31, 30, 31, 30, 31, 31, 30, 31, 30, 31][month - 1]
                || (month == 2 && day == 29 && (year % 400 == 0 || (year % 4 == 0 && year % 100 != 0))))
  {
  }

  /** Rounding up, one more multiple of k is passed exactly after a multiple of k. */
  lemma QuotientSteps(n: nat, k: nat)
    requires k > 0
    ensures (n + k) / k == (n + k - 1) / k + if n % k == 0 then 1 else 0
  {
    var (q, r) := (n / k, n % k);
    assert n == q * k + r;
    QuotientIs(n + k, k, q + 1, r);
    if r == 0 {
      QuotientIs(n + k - 1, k, q, k - 1);
    } else {
      QuotientIs(n + k - 1, k, q + 1, r - 1);
    }
  }

  lemma MultiplesNest(year: nat)
    ensures year % 100 == 0 ==> year % 4 == 0
    ensures year % 400 == 0 ==> year % 100 == 0
  {
    var (c, q) := (year / 100, year / 400);
    if year % 100 == 0 {
      assert year == 4 * (25 * c);
    }
    if year % 400 == 0 {
      assert year == 100 * (4 * q);
    }
  }

  lemma {:induction false} YearsInNumbers(year: nat)
    ensures DaysBeforeYear(year) == 365 * year + (year + 3) / 4 - (year + 99) / 100 + (year + 399) / 400
  {
    if year > 0 {
      var y := year - 1;
      YearsInNumbers(y);
      QuotientSteps(y, 4);
      QuotientSteps(y, 100);
      QuotientSteps(y, 400);
      MultiplesNest(y);
    }
  }

  lemma MonthsInNumbers(month: nat, year: nat)
    requires 1 <= month <= 12
    ensures DaysBeforeMonth(month, year)
            == [0, 31, 59, 90, 120, 151, 181, 212, 243, 273, 304, 334][month - 1]
               + if month > 2 && (year % 400 == 0 || (year % 4 == 0 && year % 100 != 0)) then 1 else 0
  {
    var leap := if year % 400 == 0 || (year % 4 == 0 && year % 100 != 0) then 1 else 0;
    assert DaysBeforeMonth(1, year) == 0 && DaysBeforeMonth(2, year) == 31;
    assert DaysBeforeMonth(3, year) == 59 + leap && DaysBeforeMonth(4, year) == 90 + leap;
    assert DaysBeforeMonth(5, year) == 120 + leap && DaysBeforeMonth(6, year) == 151 + leap;
    assert DaysBeforeMonth(7, year) == 181 + leap && DaysBeforeMonth(8, year) == 212 + leap;
    assert DaysBeforeMonth(9, year) == 243 + leap && DaysBeforeMonth(10, year) == 273 + leap;
    assert DaysBeforeMonth(11, year) == 304 + leap && DaysBeforeMonth(12, year) == 334 + leap;
  }

  /** Day numbers in closed form: whole years, the leap days of the years 0, 4, 8 and so on by the
      Gregorian rule, whole months, and this year's leap day once February is over. */
  lemma DayNumberInNumbers(d: Date)
    ensures var (y, leap) := (d.year, d.year % 400 == 0 || (d.year % 4 == 0 && d.year % 100 != 0));
            DayNumber(d)
            == 365 * y + (y + 3) / 4 - (y + 99) / 100 + (y + 399) / 400
               + [0, 31, 59, 90, 120, 151, 181, 212, 243, 273, 304, 334][d.month - 1]
               + (if d.month > 2 && leap then 1 else 0) + d.day - 1
  {
    YearsInNumbers(d.year);
    MonthsInNumbers(d.month, d.year);
  }

  // ----- Stored text: YYYY-MM-DD -----

  function Format(d: Date): (s: string)
    ensures |s| == 10
  {
    Pad(d.year, 4) + ("-" + (Pad(d.month, 2) + ("-" + Pad(d.day, 2))))
  }

  /** Ten characters: four digits of the year, two of the month and two of the day, with hyphens. */
  lemma FormatInDigits(d: Date)
    ensures var (s, zero) := (Format(d), '0' as int);
            && s[0] as int == zero + d.year / 1000 && s[1] as int == zero + d.year / 100 % 10
            && s[2] as int == zero + d.year / 10 % 10 && s[3] as int == zero + d.year % 10
            && s[4] == '-' && s[5] as int == zero + d.month / 10 && s[6] as int == zero + d.month % 10
            && s[7] == '-' && s[8] as int == zero + d.day / 10 && s[9] as int == zero + d.day % 10
  {
    var (y, m, x) := (Pad(d.year, 4), Pad(d.month, 2), Pad(d.day, 2));
    FourDigits(d.year);
    TwoDigits(d.month);
    TwoDigits(d.day);
    var s := Format(d);
    assert s[..4] == y && s[5..7] == m && s[8..] == x;
    assert s[0] == y[0] && s[1] == y[1] && s[2] == y[2] && s[3] == y[3];
    assert s[5] == m[0] && s[6] == m[1] && s[8] == x[0] && s[9] == x[1];
  }

  function Parse(s: string): (d: Option<YearMonthDay>)
    ensures d.Some? ==> ValidDate(d.value)
  {
    if |s| != 10 || s[4] != '-' || s[7] != '-'
       || !AllDigits(s[..4]) || !AllDigits(s[5..7]) || !AllDigits(s[8..]) then None
    else
      var d := YearMonthDay(Number(s[..4]), Number(s[5..7]), Number(s[8..]));
      if ValidDate(d) then Some(d) else None
  }

  lemma FieldsFit(d: Date)
    ensures d.year < Pow10(4) && d.month < Pow10(2) && d.day < Pow10(2)
  {
    assert Pow10(2) == 100 && Pow10(4) == 10000;
  }

  lemma ParseOfFormat(d: Date)
    ensures Parse(Format(d)) == Some(d)
  {
    FieldsFit(d);
    NumberOfPad(d.year, 4);
    NumberOfPad(d.month, 2);
    NumberOfPad(d.day, 2);
    var s := Format(d);
    assert s[..4] == Pad(d.year, 4);
    assert s[5..7] == Pad(d.month, 2);
    assert s[8..] == Pad(d.day, 2);
  }

  lemma FormatOfParsed(s: string)
    requires Parse(s).Some?
    ensures Format(Parse(s).value) == s
  {
    var d: Date := Parse(s).value;
    var (y, m, day) := (s[..4], s[5..7], s[8..]);
    PadOfNumber(y);
    PadOfNumber(m);
    PadOfNumber(day);
    assert Pad(d.year, 4) == y && Pad(d.month, 2) == m && Pad(d.day, 2) == day;
    assert s == y + ("-" + (m + ("-" + day)));
  }

  /** Printing then parsing gives the date back, and only the printed text parses to it. */
  lemma ParseInvertsFormat(d: Date, s: string)
    ensures Parse(s) == Some(d) <==> s == Format(d)
  {
    ParseOfFormat(d);
    if Parse(s) == Some(d) {
      FormatOfParsed(s);
    }
  }

  lemma FormatIsInjective(a: Date, b: Date)
    ensures Format(a) == Format(b) <==> a == b
  {
    ParseInvertsFormat(a, Format(a));
    ParseInvertsFormat(b, Format(b));
  }

  /** Text order, calendar order and day-number order are the same order. */
  lemma TextOrderIsCalendarOrder(a: Date, b: Date)
    ensures Less(Format(a), Format(b)) <==> Before(a, b)
    ensures Before(a, b) <==> DayNumber(a) < DayNumber(b)
  {
    FieldsFit(a);
    FieldsFit(b);
    var (da, db) := ("-" + Pad(a.day, 2), "-" + Pad(b.day, 2));
    FieldFirst(a.year, b.year, 4, "-" + (Pad(a.month, 2) + da), "-" + (Pad(b.month, 2) + db));
    SeparatedFieldFirst("-", a.month, b.month, 2, da, db);
    LessAfterSeparator("-", Pad(a.day, 2), Pad(b.day, 2));
    PadOrder(a.day, b.day, 2);
    DayNumberOrder(a, b);
  }

  // ----- Instants -----

  /** Instants are nanoseconds since 0000-01-01T00:00:00Z. */
  const NANOS_PER_SECOND: int := 1_000_000_000
  const SECONDS_PER_DAY: int := 86_400
  const NANOS_PER_DAY: int := 86_400_000_000_000

  /** A day is 24 hours of 60 minutes of 60 seconds of a thousand million nanoseconds. */
  lemma UnitsOfTime()
    ensures NANOS_PER_SECOND == 1000 * 1000 * 1000 && SECONDS_PER_DAY == 24 * 60 * 60
    ensures NANOS_PER_DAY == SECONDS_PER_DAY * NANOS_PER_SECOND
  {
  }
}
