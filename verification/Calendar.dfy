/** Day counts and Gregorian dates (`src/graph/lifecycle.rs`): a year-by-year loop in one
    direction, a leap-count closed form in the other. */
module Calendar {

  datatype Date = Date(year: nat, month: nat, day: nat)

  const U64: int := 0x1_0000_0000_0000_0000

  predicate IsLeap(y: nat) { (y % 4 == 0 && y % 100 != 0) || y % 400 == 0 }

  function YearLength(y: nat): nat { if IsLeap(y) then 366 else 365 }

  function MonthLength(leap: bool, month: nat): nat
    requires 1 <= month <= 12
  {
    if month == 2 then if leap then 29 else 28
    else if month == 4 || month == 6 || month == 9 || month == 11 then 30
    else 31
  }

  predicate ValidDate(d: Date) {
    1970 <= d.year && 1 <= d.month <= 12 && 1 <= d.day <= MonthLength(IsLeap(d.year), d.month)
  }

  // ── The closed form ────────────────────

  /** Rust's `/` on `i64` truncates toward zero. */
  function TruncDiv(a: int, b: int): int
    requires b > 0
  {
    if a >= 0 then a / b else -((-a) / b)
  }

  function LeapsThrough(y: int): int { TruncDiv(y, 4) - TruncDiv(y, 100) + TruncDiv(y, 400) }

  /** Days from 1970-01-01 to January 1st of the year. */
  function YearStart(year: nat): int { (year - 1970) * 365 + LeapsThrough(year - 1) - LeapsThrough(1969) }

  /** Days of the first `prior` months. */
  function MonthStart(leap: bool, prior: nat): nat
    requires prior <= 12
  {
    if prior == 0 then 0 else MonthStart(leap, prior - 1) + MonthLength(leap, prior)
  }

  function Prior(month: nat): nat { if month == 0 then 0 else if month - 1 > 12 then 12 else month - 1 }

  /** The day number without machine width. */
  function DayNumber(year: nat, month: nat, day: nat): int {
    YearStart(year) + MonthStart(IsLeap(year), Prior(month)) + if day == 0 then 0 else day - 1
  }

  function NumberOf(d: Date): int { DayNumber(d.year, d.month, d.day) }

  /** The function as coded, on `u64`: years before 1970 wrap round through the cast.  It sums
      the months in a loop and takes any month and day. */
  method DaysSinceEpoch(year: nat, month: nat, day: nat) returns (days: nat)
    ensures days == DayNumber(year, month, day) % U64
  {
    var y: int := year - 1;
    var base := 1969;
    var leaps := (TruncDiv(y, 4) - TruncDiv(y, 100) + TruncDiv(y, 400))
                 - (TruncDiv(base, 4) - TruncDiv(base, 100) + TruncDiv(base, 400));
    var daysFromYears := (year - 1970) * 365 + leaps;
    var monthDays := MonthTable(false);
    var leap := IsLeap(year);
    var daysFromMonths: nat := 0;
    var priorMonths := if month == 0 then 0 else if month - 1 > 12 then 12 else month - 1;
    for m := 0 to priorMonths
      invariant daysFromMonths == MonthStart(leap, m)
    {
      daysFromMonths := daysFromMonths + monthDays[m];
      if m == 1 && leap {
        daysFromMonths := daysFromMonths + 1;
      }
    }
    var fromDay := if day == 0 then 0 else day - 1;
    WrapOnce(daysFromYears, daysFromMonths + fromDay);
    days := (daysFromYears % U64 + daysFromMonths + fromDay) % U64;
  }

  lemma WrapOnce(a: int, b: int)
    ensures (a % U64 + b) % U64 == (a + b) % U64
  {
    var q := a / U64;
    var q' := (a % U64 + b) / U64;
    assert a + b == U64 * (q + q') + (a % U64 + b) % U64;
    DivisionUnique(a + b, q + q', (a % U64 + b) % U64);
  }

  lemma DivisionUnique(x: int, q: int, r: int)
    requires x == U64 * q + r && 0 <= r < U64
    ensures x % U64 == r
  {}

  // ── Leap years ─────────────────────────

  lemma Step4(y: int)
    ensures y / 4 == (y - 1) / 4 + if y % 4 == 0 then 1 else 0
  {}

  lemma Step400(y: int)
    ensures y / 400 == (y - 1) / 400 + if y % 400 == 0 then 1 else 0
  {}

  lemma Step100(y: int)
    ensures y / 100 == (y - 1) / 100 + if y % 100 == 0 then 1 else 0
  {}

  lemma MultipleOfFour(y: nat, q: nat)
    requires y == 4 * q
    ensures y % 4 == 0
  {}

  lemma {:induction false} FourDividesHundred(y: nat)
    ensures y % 100 == 0 ==> y % 4 == 0
  {
    if y % 100 == 0 { MultipleOfFour(y, 25 * (y / 100)); }
  }

  lemma MultipleOfHundred(y: nat, q: nat)
    requires y == 100 * q
    ensures y % 100 == 0
  {}

  lemma HundredDividesFourHundred(y: nat)
    ensures y % 400 == 0 ==> y % 100 == 0
  {
    if y % 400 == 0 { MultipleOfHundred(y, 4 * (y / 400)); }
  }

  lemma {:induction false} LeapStep(y: nat)
    requires y >= 1
    ensures LeapsThrough(y) == LeapsThrough(y - 1) + if IsLeap(y) then 1 else 0
  {
    Step4(y);
    Step100(y);
    Step400(y);
    FourDividesHundred(y);
    HundredDividesFourHundred(y);
    LeapsOf(y);
    LeapsOf(y - 1);
  }

  lemma LeapsOf(y: nat)
    ensures LeapsThrough(y) == y / 4 - y / 100 + y / 400
  {}

  function CountLeaps(lo: nat, hi: nat): nat
    decreases hi
  {
    if hi <= lo then 0 else CountLeaps(lo, hi - 1) + if IsLeap(hi - 1) then 1 else 0
  }

  /** The closed form `y/4 - y/100 + y/400` counts exactly the years that `is_leap` accepts. */
  lemma {:induction false} ClosedFormCountsLeapYears(lo: nat, hi: nat)
    requires 1 <= lo <= hi
    ensures LeapsThrough(hi - 1) - LeapsThrough(lo - 1) == CountLeaps(lo, hi)
    decreases hi
  {
    if lo < hi {
      ClosedFormCountsLeapYears(lo, hi - 1);
      LeapStep(hi - 1);
    }
  }

  lemma YearStep(y: nat)
    requires y >= 1
    ensures YearStart(y + 1) == YearStart(y) + YearLength(y)
  {
    LeapStep(y);
  }

  lemma YearFills(y: nat)
    ensures MonthStart(IsLeap(y), 12) == YearLength(y)
  {
    MonthStarts(IsLeap(y));
  }

  lemma MonthStarts(leap: bool)
    ensures MonthStart(leap, 1) == 31 && MonthStart(leap, 12) == if leap then 366 else 365
  {
    var e := if leap then 1 else 0;
    assert MonthStart(leap, 0) == 0;
    assert MonthStart(leap, 2) == 59 + e;
    assert MonthStart(leap, 4) == 120 + e;
    assert MonthStart(leap, 6) == 181 + e;
    assert MonthStart(leap, 8) == 243 + e;
    assert MonthStart(leap, 10) == 304 + e;
  }

  lemma {:induction false} MonthsGrow(leap: bool, a: nat, b: nat)
    requires a <= b <= 12
    ensures MonthStart(leap, a) <= MonthStart(leap, b)
    decreases b
  {
    if a < b { MonthsGrow(leap, a, b - 1); }
  }

  // ── The loop ───────────────────────────

  /** `days` after January 1st of `year`, whole years taken off one at a time. */
  function YearFrom(days: nat, year: nat): (r: (nat, nat))
    requires year >= 1970
    ensures r.0 >= year && r.1 < YearLength(r.0)
    ensures YearStart(r.0) + r.1 == YearStart(year) + days
    decreases days
  {
    if days < YearLength(year) then (year, days)
    else
      YearStep(year);
      YearFrom(days - YearLength(year), year + 1)
  }

  function MonthFrom(days: nat, leap: bool, month: nat): (r: (nat, nat))
    requires 1 <= month <= 12
    ensures month <= r.0 <= 12 && (r.0 < 12 ==> r.1 < MonthLength(leap, r.0))
    ensures MonthStart(leap, r.0 - 1) + r.1 == MonthStart(leap, month - 1) + days
    decreases 12 - month
  {
    if month == 12 || days < MonthLength(leap, month) then (month, days)
    else MonthFrom(days - MonthLength(leap, month), leap, month + 1)
  }

  function DateOf(days: nat): Date {
    var (year, rest) := YearFrom(days, 1970);
    var (month, left) := MonthFrom(rest, IsLeap(year), 1);
    Date(year, month, left + 1)
  }

  method TakeYears(days: nat) returns (year: nat, left: nat)
    ensures (year, left) == YearFrom(days, 1970)
  {
    left := days;
    year := 1970;
    while true
      invariant year >= 1970 && YearFrom(left, year) == YearFrom(days, 1970)
      decreases left
    {
      var daysInYear := if IsLeap(year) then 366 else 365;
      if left < daysInYear {
        break;
      }
      left := left - daysInYear;
      year := year + 1;
    }
  }

  function MonthTable(leap: bool): (t: seq<nat>)
    ensures |t| == 12 && forall i :: 0 <= i < 12 ==> t[i] == MonthLength(leap, i + 1)
  {
    [31, if leap then 29 else 28, 31, 30, 31, 30, 31, 31, 30, 31, 30, 31]
  }

  /** Days from the first of the month to the end of the year. */
  function Remaining(leap: bool, month: nat): nat
    requires 1 <= month <= 13
    decreases 13 - month
  {
    if month == 13 then 0 else MonthLength(leap, month) + Remaining(leap, month + 1)
  }

  lemma YearRemains(leap: bool)
    ensures Remaining(leap, 1) == if leap then 366 else 365
  {
    var e := if leap then 1 else 0;
    assert Remaining(leap, 10) == 92;
    assert Remaining(leap, 8) == 153;
    assert Remaining(leap, 6) == 214;
    assert Remaining(leap, 4) == 275;
    assert Remaining(leap, 2) == 334 + e;
  }

  lemma LastMonth(leap: bool)
    ensures Remaining(leap, 12) == MonthLength(leap, 12)
  {
    assert Remaining(leap, 13) == 0;
  }

  lemma MonthTaken(left: nat, leap: bool, month: nat)
    requires 1 <= month < 12 && MonthLength(leap, month) <= left < Remaining(leap, month)
    ensures left - MonthLength(leap, month) < Remaining(leap, month + 1)
    ensures MonthFrom(left - MonthLength(leap, month), leap, month + 1) == MonthFrom(left, leap, month)
  {}

  /** Within a year the loop stops inside the twelve months. */
  method TakeMonths(days: nat, leap: bool) returns (month: nat, left: nat)
    requires days < if leap then 366 else 365
    ensures (month, left) == MonthFrom(days, leap, 1)
  {
    var monthDays := MonthTable(leap);
    left := days;
    month := 1;
    YearRemains(leap);
    LastMonth(leap);
    for i := 0 to 12
      invariant month == i + 1 <= 12
      invariant left < Remaining(leap, month)
      invariant MonthFrom(left, leap, month) == MonthFrom(days, leap, 1)
    {
      var md := monthDays[i];
      assert md == MonthLength(leap, month);
      if left < md {
        break;
      }
      MonthTaken(left, leap, month);
      left := left - md;
      month := month + 1;
    }
  }

  method DaysToYmd(days: nat) returns (year: nat, month: nat, day: nat)
    ensures Date(year, month, day) == DateOf(days)
  {
    var left;
    year, left := TakeYears(days);
    month, left := TakeMonths(left, IsLeap(year));
    day := left + 1;
  }

  // ── Inverse of each other ──────────────

  /** Every day count gives a valid Gregorian date, and the closed form maps it back. */
  lemma DateOfIsInverse(days: nat)
    ensures ValidDate(DateOf(days)) && NumberOf(DateOf(days)) == days
  {
    assert YearStart(1970) == 0;
    var (year, rest) := YearFrom(days, 1970);
    YearFills(year);
    var (month, left) := MonthFrom(rest, IsLeap(year), 1);
    assert MonthStart(IsLeap(year), 0) == 0;
    assert MonthStart(IsLeap(year), 12) == MonthStart(IsLeap(year), 11) + 31;
  }

  predicate DateLess(a: Date, b: Date) {
    a.year < b.year || (a.year == b.year && (a.month < b.month || (a.month == b.month && a.day < b.day)))
  }

  lemma WithinYear(d: Date)
    requires ValidDate(d)
    ensures YearStart(d.year) <= NumberOf(d) < YearStart(d.year) + YearLength(d.year)
    ensures NumberOf(d) < YearStart(d.year) + MonthStart(IsLeap(d.year), d.month)
  {
    YearFills(d.year);
    MonthsGrow(IsLeap(d.year), d.month, 12);
  }

  /** Earlier dates have smaller day numbers. */
  lemma DateOrder(a: Date, b: Date)
    requires ValidDate(a) && ValidDate(b) && DateLess(a, b)
    ensures NumberOf(a) < NumberOf(b)
  {
    WithinYear(a);
    WithinYear(b);
    if a.year < b.year {
      YearStep(a.year);
    } else if a.month < b.month {
      MonthsGrow(IsLeap(a.year), a.month, b.month - 1);
    }
  }

  /** Conversely, every valid date from 1970 on comes back from its day number. */
  lemma {:induction false} NumberOfIsInverse(d: Date)
    requires ValidDate(d)
    ensures NumberOf(d) >= 0 && DateOf(NumberOf(d)) == d
  {
    WithinYear(d);
    assert YearStart(1970) == 0;
    var e := DateOf(NumberOf(d));
    DateOfIsInverse(NumberOf(d));
    if DateLess(d, e) { DateOrder(d, e); }
    if DateLess(e, d) { DateOrder(e, d); }
  }

  /** Time order is date order. */
  lemma {:induction false} DaysOrder(m: nat, n: nat)
    ensures m < n <==> DateLess(DateOf(m), DateOf(n))
  {
    var a, b := DateOf(m), DateOf(n);
    DateOfIsInverse(m);
    DateOfIsInverse(n);
    if DateLess(a, b) { DateOrder(a, b); }
    if DateLess(b, a) { DateOrder(b, a); }
  }

  // ── In numbers ─────────────────────────

  /** January 1st, 1970 is day 0, and each year has 366 or 365 days by the Gregorian rule. */
  lemma NewYearsDay(y: nat)
    ensures DayNumber(1970, 1, 1) == 0
    ensures y >= 1 ==>
              DayNumber(y + 1, 1, 1) - DayNumber(y, 1, 1)
              == if (y % 4 == 0 && y % 100 != 0) || y % 400 == 0 then 366 else 365
  {
    if y >= 1 { YearStep(y); }
  }

  /** The days before a month of the year. */
  lemma FirstOfMonth(y: nat, m: nat)
    requires 1 <= m <= 12
    ensures var leap := (y % 4 == 0 && y % 100 != 0) || y % 400 == 0;
            DayNumber(y, m, 1) - DayNumber(y, 1, 1)
            == (367 * m - 362) / 12 - if m <= 2 then 0 else if leap then 1 else 2
  {
    MonthStartIs(IsLeap(y), m);
  }

  lemma {:induction false} MonthStartIs(leap: bool, m: nat)
    requires 1 <= m <= 12
    ensures MonthStart(leap, m - 1) == (367 * m - 362) / 12 - if m <= 2 then 0 else if leap then 1 else 2
  {
    if m > 1 { MonthStartIs(leap, m - 1); }
  }

  /** The dates that day counts give have the days of their months. */
  lemma DateHasDay(days: nat)
    ensures var d := DateOf(days);
            && d.year >= 1970 && 1 <= d.month <= 12
            && var leap := (d.year % 4 == 0 && d.year % 100 != 0) || d.year % 400 == 0;
               1 <= d.day <= [31, if leap then 29 else 28, 31, 30, 31, 30, 31, 31, 30, 31, 30, 31][d.month - 1]
  {
    DateOfIsInverse(days);
    MonthLengthIs(IsLeap(DateOf(days).year), DateOf(days).month);
  }

  lemma MonthLengthIs(leap: bool, m: nat)
    requires 1 <= m <= 12
    ensures MonthLength(leap, m) == [31, if leap then 29 else 28, 31, 30, 31, 30, 31, 31, 30, 31, 30, 31][m - 1]
  {
    assert MonthTable(leap)[m - 1] == MonthLength(leap, m);
  }

  /** Conversely all of these are valid. */
  lemma DayIsValid(y: nat, m: nat, day: nat)
    requires y >= 1970 && 1 <= m <= 12
    requires var leap := (y % 4 == 0 && y % 100 != 0) || y % 400 == 0;
             1 <= day <= [31, if leap then 29 else 28, 31, 30, 31, 30, 31, 31, 30, 31, 30, 31][m - 1]
    ensures ValidDate(Date(y, m, day))
    ensures DayNumber(y, m, day) == DayNumber(y, m, 1) + day - 1
  {
    MonthLengthIs(IsLeap(y), m);
  }

  /** What the closed form makes of months and days outside a date: month 0 is January, day 0 the
      first, and from month 13 on the year is over. */
  lemma OutOfRange(y: nat, m: nat, day: nat)
    ensures DayNumber(y, 0, day) == DayNumber(y, 1, day) && DayNumber(y, m, 0) == DayNumber(y, m, 1)
    ensures y >= 1 && m >= 13 && day >= 1 ==> DayNumber(y, m, day) == DayNumber(y + 1, 1, 1) + day - 1
  {
    if y >= 1 {
      YearStep(y);
      YearFills(y);
    }
  }
}
