/** The fixed-width timestamp printer and its parser (`src/graph/lifecycle.rs`), in the
    `date-time` form of section 5.6 of RFC 3339, always UTC. */
module Timestamps {
  import opened Wrappers
  import opened Calendar
  import opened Lexicographic

  // ── Printing ───────────────────────────

  function Digit(n: nat): char
    requires n < 10
  {
    '0' + n as char
  }

  /** `{n:0w}`: decimal, padded with zeros to at least `w` places. */
  function Pad(n: nat, w: nat): (s: string)
    ensures |s| >= w && |s| >= 1
    decreases n, w
  {
    if n < 10 && w <= 1 then [Digit(n)]
    else Pad(n / 10, if w == 0 then 0 else w - 1) + [Digit(n % 10)]
  }

  function Field(separator: char, n: nat): string { [separator] + Pad(n, 2) }

  datatype Clock = Clock(hour: nat, minute: nat, second: nat)

  function ClockOf(secs: nat): Clock { Clock((secs / 3600) % 24, (secs / 60) % 60, secs % 60) }

  function PrintClock(c: Clock): string {
    Field('T', c.hour) + (Field(':', c.minute) + (Field(':', c.second) + ['Z']))
  }

  function PrintDay(d: Date, c: Clock): string {
    Field('-', d.month) + (Field('-', d.day) + PrintClock(c))
  }

  /** `format!("{y:04}-{m:02}-{d:02}T{hh:02}:{mm:02}:{ss:02}Z")` */
  function Print(secs: nat): string {
    var d := DateOf(secs / 86400);
    Pad(d.year, 4) + PrintDay(d, ClockOf(secs))
  }

  method FormatIso(secs: nat) returns (ts: string)
    ensures ts == Print(secs)
  {
    var y, m, d := DaysToYmd(secs / 86400);
    var hh := (secs / 3600) % 24;
    var mm := (secs / 60) % 60;
    var ss := secs % 60;
    ts := Field('T', hh) + (Field(':', mm) + (Field(':', ss) + ['Z']));
    ts := Pad(y, 4) + (Field('-', m) + (Field('-', d) + ts));
  }

  // ── Reading numbers ────────────────────

  predicate IsDigit(c: char) { '0' <= c <= '9' }

  function Value(s: string): Option<nat> {
    if s == "" then Some(0)
    else
      var last := s[|s| - 1];
      match Value(s[..|s| - 1])
      case Some(n) => if IsDigit(last) then Some(10 * n + (last as nat - '0' as nat)) else None
      case None => None
  }

  /** `str::parse::<u64>`: an optional `+`, then at least one digit, and nothing else. */
  function ParseU64(s: string): Option<nat> {
    var digits := if s != "" && s[0] == '+' then s[1..] else s;
    if digits == "" then None else Value(digits)
  }

  lemma {:induction false} ValuePad(n: nat, w: nat)
    ensures Value(Pad(n, w)) == Some(n)
    decreases n, w
  {
    if n < 10 && w <= 1 {
    } else {
      var v := if w == 0 then 0 else w - 1;
      ValuePad(n / 10, v);
    }
  }

  lemma {:induction false} PadStarts(n: nat, w: nat)
    ensures IsDigit(Pad(n, w)[0])
    decreases n, w
  {
    if !(n < 10 && w <= 1) { PadStarts(n / 10, if w == 0 then 0 else w - 1); }
  }

  lemma ParsePad(n: nat, w: nat)
    ensures ParseU64(Pad(n, w)) == Some(n)
  {
    PadStarts(n, w);
    ValuePad(n, w);
  }

  lemma TwoPlaces(n: nat)
    requires n < 100
    ensures |Pad(n, 2)| == 2
  {}

  lemma FourPlaces(n: nat)
    ensures |Pad(n, 4)| == 4 <==> n < 10000
  {
    assert |Pad(n / 1000, 1)| == 1 <==> n / 1000 < 10;
    assert |Pad(n / 100, 2)| == 1 + |Pad((n / 100) / 10, 1)|;
    assert |Pad(n / 10, 3)| == 1 + |Pad((n / 10) / 10, 2)|;
    assert (n / 10) / 10 == n / 100 && (n / 100) / 10 == n / 1000;
  }

  // ── Order ──────────────────────────────

  lemma PadEqual(m: nat, n: nat, w: nat)
    requires Pad(m, w) == Pad(n, w)
    ensures m == n
  {
    ValuePad(m, w);
    ValuePad(n, w);
  }

  lemma DigitOrder(m: nat, n: nat)
    requires m < 10 && n < 10
    ensures Less([Digit(m)], [Digit(n)]) <==> m < n
  {}

  /** Numbers printed in equally many places compare as numbers. */
  lemma {:induction false} PadOrder(m: nat, n: nat, w: nat)
    requires |Pad(m, w)| == |Pad(n, w)|
    ensures Less(Pad(m, w), Pad(n, w)) <==> m < n
    decreases m, w
  {
    DigitOrder(m % 10, n % 10);
    if !(m < 10 && w <= 1) {
      var v := if w == 0 then 0 else w - 1;
      PadOrder(m / 10, n / 10, v);
      LessByField(Pad(m / 10, v), [Digit(m % 10)], Pad(n / 10, v), [Digit(n % 10)]);
      if Pad(m / 10, v) == Pad(n / 10, v) { PadEqual(m / 10, n / 10, v); }
    }
  }

  lemma NumberOrder(m: nat, n: nat, w: nat, x: string, y: string)
    requires |Pad(m, w)| == |Pad(n, w)|
    ensures Less(Pad(m, w) + x, Pad(n, w) + y) <==> m < n || (m == n && Less(x, y))
  {
    PadOrder(m, n, w);
    LessByField(Pad(m, w), x, Pad(n, w), y);
    if Pad(m, w) == Pad(n, w) { PadEqual(m, n, w); }
  }

  lemma FieldOrder(c: char, m: nat, n: nat, x: string, y: string)
    requires m < 100 && n < 100
    ensures Less(Field(c, m) + x, Field(c, n) + y) <==> m < n || (m == n && Less(x, y))
  {
    TwoPlaces(m);
    TwoPlaces(n);
    NumberOrder(m, n, 2, x, y);
    assert Field(c, m) + x == [c] + (Pad(m, 2) + x);
    assert Field(c, n) + y == [c] + (Pad(n, 2) + y);
    LessByField([c], Pad(m, 2) + x, [c], Pad(n, 2) + y);
    LessIrreflexive([c]);
  }

  predicate ClockLess(a: Clock, b: Clock) {
    a.hour < b.hour || (a.hour == b.hour && (a.minute < b.minute || (a.minute == b.minute && a.second < b.second)))
  }

  predicate ClockInRange(c: Clock) { c.hour < 24 && c.minute < 60 && c.second < 60 }

  lemma ClockOrder(a: Clock, b: Clock)
    requires ClockInRange(a) && ClockInRange(b)
    ensures Less(PrintClock(a), PrintClock(b)) <==> ClockLess(a, b)
  {
    LessIrreflexive(['Z']);
    FieldOrder(':', a.second, b.second, ['Z'], ['Z']);
    FieldOrder(':', a.minute, b.minute, Field(':', a.second) + ['Z'], Field(':', b.second) + ['Z']);
    FieldOrder('T', a.hour, b.hour, Field(':', a.minute) + (Field(':', a.second) + ['Z']),
               Field(':', b.minute) + (Field(':', b.second) + ['Z']));
  }

  lemma DayOrder(d: Date, c: Clock, e: Date, k: Clock)
    requires d.month < 100 && d.day < 100 && e.month < 100 && e.day < 100
    requires ClockInRange(c) && ClockInRange(k)
    ensures Less(PrintDay(d, c), PrintDay(e, k))
            <==> d.month < e.month
                 || (d.month == e.month && (d.day < e.day || (d.day == e.day && ClockLess(c, k))))
  {
    ClockOrder(c, k);
    FieldOrder('-', d.day, e.day, PrintClock(c), PrintClock(k));
    FieldOrder('-', d.month, e.month, Field('-', d.day) + PrintClock(c), Field('-', e.day) + PrintClock(k));
  }

  lemma {:induction false} ClockSeconds(secs: nat)
    ensures var c := ClockOf(secs);
            ClockInRange(c) && secs == 86400 * (secs / 86400) + 3600 * c.hour + 60 * c.minute + c.second
  {
    assert secs / 60 / 60 == secs / 3600;
    assert secs / 3600 / 24 == secs / 86400;
    assert secs == 60 * (secs / 60) + secs % 60;
    assert secs / 60 == 60 * (secs / 60 / 60) + (secs / 60) % 60;
    assert secs / 3600 == 24 * (secs / 3600 / 24) + (secs / 3600) % 24;
  }

  lemma {:induction false} SecondsOrder(a: nat, b: nat)
    ensures a < b <==> a / 86400 < b / 86400 || (a / 86400 == b / 86400 && ClockLess(ClockOf(a), ClockOf(b)))
  {
    ClockSeconds(a);
    ClockSeconds(b);
  }

  function YearOf(secs: nat): nat { DateOf(secs / 86400).year }

  lemma SmallDate(secs: nat)
    ensures DateOf(secs / 86400).month < 100 && DateOf(secs / 86400).day < 100
  {
    DateOfIsInverse(secs / 86400);
  }

  /** String order is time order whenever the two years take equally many places. */
  lemma {:induction false} PrintOrder(a: nat, b: nat)
    requires |Pad(YearOf(a), 4)| == |Pad(YearOf(b), 4)|
    ensures Less(Print(a), Print(b)) <==> a < b
  {
    var d, e := DateOf(a / 86400), DateOf(b / 86400);
    SmallDate(a);
    SmallDate(b);
    ClockSeconds(a);
    ClockSeconds(b);
    DayOrder(d, ClockOf(a), e, ClockOf(b));
    NumberOrder(d.year, e.year, 4, PrintDay(d, ClockOf(a)), PrintDay(e, ClockOf(b)));
    DaysOrder(a / 86400, b / 86400);
    DaysOrder(b / 86400, a / 86400);
    SecondsOrder(a, b);
  }

  /** Midnight of January 1st of the year 10000. */
  const YEAR_10000: nat := 253402300800

  lemma YearTenThousand(secs: nat)
    ensures YearOf(secs) < 10000 <==> secs < YEAR_10000
    ensures secs == YEAR_10000 ==> YearOf(secs) == 10000
  {
    var d := Date(10000, 1, 1);
    assert MonthStart(IsLeap(10000), 0) == 0;
    assert NumberOf(d) == 2932897;
    NumberOfIsInverse(d);
    DateOfIsInverse(secs / 86400);
    DaysOrder(secs / 86400, 2932897);
    assert YEAR_10000 / 86400 == 2932897;
  }

  predicate OrderAgrees(a: nat, b: nat) { Less(Print(a), Print(b)) <==> a < b }

  lemma {:induction false} OrderBefore10000(a: nat, b: nat)
    requires a < YEAR_10000 && b < YEAR_10000
    ensures OrderAgrees(a, b)
  {
    YearTenThousand(a);
    YearTenThousand(b);
    FourPlaces(YearOf(a));
    FourPlaces(YearOf(b));
    PrintOrder(a, b);
  }

  lemma FivePlaces(n: nat, x: string)
    requires n >= 10000
    ensures Pad(n, 4) + x == Pad(n / 10, 4) + ([Digit(n % 10)] + x)
  {
    SameWhenWide(n / 10);
    var p, q := Pad(n / 10, 4), [Digit(n % 10)];
    assert Pad(n, 4) == p + q;
    assert (p + q) + x == p + (q + x);
  }

  lemma FivePlacesOrder(m: nat, n: nat, x: string, y: string)
    requires 10000 <= n < 100000 && n / 10 < m < 10000
    ensures Less(Pad(n, 4) + x, Pad(m, 4) + y)
  {
    FourPlaces(n / 10);
    FourPlaces(m);
    FivePlaces(n, x);
    NumberOrder(n / 10, m, 4, [Digit(n % 10)] + x, y);
  }

  /** A five-place year prints below a four-place one that exceeds its first four places. */
  lemma {:induction false} OrderBreaks(a: nat, b: nat)
    requires 10000 <= YearOf(b) < 100000 && YearOf(b) / 10 < YearOf(a) < 10000
    ensures Less(Print(b), Print(a))
  {
    FivePlacesOrder(YearOf(a), YearOf(b),
                    PrintDay(DateOf(b / 86400), ClockOf(b)), PrintDay(DateOf(a / 86400), ClockOf(a)));
  }

  lemma {:induction false} OrderBreaksAt10000(a: nat, b: nat)
    requires a == 0 && b == YEAR_10000
    ensures !OrderAgrees(a, b)
  {
    YearTenThousand(b);
    assert a / 86400 == 0 && YearOf(a) == 1970;
    OrderBreaks(a, b);
    LessTotal(Print(a), Print(b));
  }

  /** Padding stops mattering at four places. */
  lemma SameWhenWide(n: nat)
    requires n >= 1000
    ensures Pad(n, 4) == Pad(n, 3)
  {
    assert Pad(n / 1000, 1) == Pad(n / 1000, 0);
    assert Pad(n / 100, 2) == Pad(n / 100, 1) by { assert n / 100 / 10 == n / 1000; }
    assert Pad(n / 10, 3) == Pad(n / 10, 2) by { assert n / 10 / 10 == n / 100; }
  }

  /** String order may stand for time order on all times before `limit` exactly when the
      limit is no later than the year 10000. */
  lemma {:induction false} StringOrderIsTimeOrderIff(limit: nat)
    ensures (forall a, b :: 0 <= a < limit && 0 <= b < limit ==> OrderAgrees(a, b)) <==> limit <= YEAR_10000
  {
    if limit <= YEAR_10000 {
      forall a, b | 0 <= a < limit && 0 <= b < limit ensures OrderAgrees(a, b) {
        OrderBefore10000(a, b);
      }
    } else {
      OrderBreaksAt10000(0, YEAR_10000);
    }
  }

  // ── Parsing ────────────────────────────

  function FieldOr(ts: string, lo: nat, hi: nat, default: nat): nat
    requires lo <= hi <= |ts|
  {
    match ParseU64(ts[lo..hi]) case Some(n) => n case None => default
  }

  function Total(days: int, hour: nat, minute: nat, second: nat): nat {
    (days * 86400 + hour * 3600 + minute * 60 + second) % U64
  }

  /** Best effort on ASCII text: unreadable fields take their defaults, arithmetic is on `u64`. */
  function ParseIso(ts: string): nat {
    if |ts| < 19 then 0
    else
      Total(DayNumber(FieldOr(ts, 0, 4, 0), FieldOr(ts, 5, 7, 1), FieldOr(ts, 8, 10, 1)) % U64,
            FieldOr(ts, 11, 13, 0), FieldOr(ts, 14, 16, 0), FieldOr(ts, 17, 19, 0))
  }

  method ParseIsoToSecs(ts: string) returns (secs: nat)
    ensures secs == ParseIso(ts)
  {
    if |ts| < 19 {
      return 0;
    }
    var year := FieldOr(ts, 0, 4, 0);
    var month := FieldOr(ts, 5, 7, 1);
    var day := FieldOr(ts, 8, 10, 1);
    var hour := FieldOr(ts, 11, 13, 0);
    var min := FieldOr(ts, 14, 16, 0);
    var sec := FieldOr(ts, 17, 19, 0);
    var totalDays := DaysSinceEpoch(year, month, day);
    secs := (totalDays * 86400 + hour * 3600 + min * 60 + sec) % U64;
  }

  lemma Peel(ts: string, at: nat, c: char, n: nat, x: string)
    requires at <= |ts| && n < 100 && ts[at..] == Field(c, n) + x
    ensures at + 3 <= |ts| && FieldOr(ts, at + 1, at + 3, 0) == n && FieldOr(ts, at + 1, at + 3, 1) == n
    ensures ts[at + 3..] == x
  {
    TwoPlaces(n);
    ParsePad(n, 2);
    assert |Field(c, n)| == 3;
    assert ts[at + 3..] == ts[at..][3..] == x;
    assert ts[at + 1..at + 3] == ts[at..][1..3] == Pad(n, 2);
  }

  lemma ReadClock(ts: string, c: Clock)
    requires |ts| >= 10 && ClockInRange(c) && ts[10..] == PrintClock(c)
    ensures |ts| == 20
    ensures FieldOr(ts, 11, 13, 0) == c.hour && FieldOr(ts, 14, 16, 0) == c.minute && FieldOr(ts, 17, 19, 0) == c.second
  {
    Peel(ts, 10, 'T', c.hour, Field(':', c.minute) + (Field(':', c.second) + ['Z']));
    Peel(ts, 13, ':', c.minute, Field(':', c.second) + ['Z']);
    Peel(ts, 16, ':', c.second, ['Z']);
  }

  lemma ReadDay(ts: string, d: Date, c: Clock)
    requires d.year < 10000 && d.month < 100 && d.day < 100 && ts == Pad(d.year, 4) + PrintDay(d, c)
    ensures |ts| >= 10 && ts[10..] == PrintClock(c)
    ensures FieldOr(ts, 0, 4, 0) == d.year && FieldOr(ts, 5, 7, 1) == d.month && FieldOr(ts, 8, 10, 1) == d.day
  {
    FourPlaces(d.year);
    ParsePad(d.year, 4);
    assert ts[0..4] == Pad(d.year, 4);
    assert ts[4..] == PrintDay(d, c);
    Peel(ts, 4, '-', d.month, Field('-', d.day) + PrintClock(c));
    Peel(ts, 7, '-', d.day, PrintClock(c));
  }

  lemma {:induction false} ParseFields(ts: string, d: Date, c: Clock)
    requires d.year < 10000 && d.month < 100 && d.day < 100 && ClockInRange(c)
    requires ts == Pad(d.year, 4) + PrintDay(d, c)
    ensures ParseIso(ts) == Total(NumberOf(d) % U64, c.hour, c.minute, c.second)
  {
    ReadDay(ts, d, c);
    ReadClock(ts, c);
  }

  lemma TotalFits(secs: nat, days: nat, h: nat, m: nat, s: nat)
    requires secs < U64 && secs == 86400 * days + 3600 * h + 60 * m + s
    ensures Total(days % U64, h, m, s) == secs
  {}

  /** Before the year 10000 parsing undoes printing. */
  lemma {:induction false} ParsePrint(secs: nat)
    requires secs < YEAR_10000
    ensures ParseIso(Print(secs)) == secs
  {
    var d, c := DateOf(secs / 86400), ClockOf(secs);
    YearTenThousand(secs);
    SmallDate(secs);
    ClockSeconds(secs);
    ParseFields(Print(secs), d, c);
    DateOfIsInverse(secs / 86400);
    TotalFits(secs, secs / 86400, c.hour, c.minute, c.second);
  }

  // ── From the year 10000 on ─────────────

  /** What the first four places of a longer year say. */
  function Leading(year: nat): (r: nat)
    ensures r < 10000 && (year >= 1000 ==> r >= 1000)
  {
    if year < 10000 then year else Leading(year / 10)
  }

  lemma {:induction false} LeadingPlaces(year: nat)
    requires year >= 1000
    ensures |Pad(year, 4)| >= 4 && Pad(year, 4)[..4] == Pad(Leading(year), 4)
  {
    FourPlaces(year);
    if year >= 10000 {
      LeadingPlaces(year / 10);
      SameWhenWide(year / 10);
      assert Pad(year, 4) == Pad(year / 10, 4) + [Digit(year % 10)];
      assert Pad(year, 4)[..4] == Pad(year / 10, 4)[..4];
    }
  }

  /** `n` with `k` zeros appended. */
  function Shifted(n: nat, k: nat): nat { if k == 0 then n else 10 * Shifted(n, k - 1) }

  lemma {:induction false} LeadingBound(year: nat, limit: nat, k: nat)
    requires Leading(year) < limit && year < Shifted(10000, k)
    ensures year < Shifted(limit, k)
  {
    if k > 0 {
      if year < 10000 {
        LeadingBound(year, limit, 0);
        ShiftedGrows(limit, k);
      } else {
        LeadingBound(year / 10, limit, k - 1);
      }
    }
  }

  lemma {:induction false} ShiftedGrows(n: nat, k: nat)
    ensures Shifted(n, k) >= n
  {
    if k > 0 { ShiftedGrows(n, k - 1); }
  }

  lemma ValueOne(s: string)
    requires |s| == 1
    ensures Value(s).Some? ==> Value(s).value < 10
  {
    assert s[..0] == "";
  }

  lemma ValueTwo(s: string)
    requires |s| == 2
    ensures Value(s).Some? ==> Value(s).value < 100
  {
    ValueOne(s[..1]);
  }

  lemma TwoCharacters(ts: string, lo: nat, default: nat)
    requires lo + 2 <= |ts| && default < 100
    ensures FieldOr(ts, lo, lo + 2, default) < 100
  {
    var s := ts[lo..lo + 2];
    ValueTwo(s);
    ValueOne(s[1..]);
  }

  lemma DaysRange(year: nat, month: nat, day: nat)
    requires year >= 1 && day < 100
    ensures YearStart(year) <= DayNumber(year, month, day) <= YearStart(year) + 464
  {
    YearFills(year);
    MonthsGrow(IsLeap(year), Prior(month), 12);
  }

  lemma {:induction false} TotalOfDays(days: int, h: nat, m: nat, s: nat)
    requires -400000 <= days < 4000000 && h < 100 && m < 100 && s < 100
    ensures var x := days * 86400 + h * 3600 + m * 60 + s;
            Total(days % U64, h, m, s) == if x >= 0 then x else x + U64
  {
    if days >= 0 {
      assert days % U64 == days;
    } else {
      var x := days * 86400 + h * 3600 + m * 60 + s;
      assert days % U64 == days + U64;
      if x >= 0 { DivisionUnique(x + U64 * 86400, 86400, x); }
      else { DivisionUnique(x + U64 * 86400, 86399, x + U64); }
    }
  }

  lemma ParseRange(ts: string)
    requires |ts| >= 19
    ensures FieldOr(ts, 8, 10, 1) < 100 && FieldOr(ts, 11, 13, 0) < 100
    ensures FieldOr(ts, 14, 16, 0) < 100 && FieldOr(ts, 17, 19, 0) < 100
  {
    TwoCharacters(ts, 8, 1);
    TwoCharacters(ts, 11, 0);
    TwoCharacters(ts, 14, 0);
    TwoCharacters(ts, 17, 0);
  }

  lemma {:induction false} PrintLength(secs: nat)
    requires YearOf(secs) >= 1000
    ensures |Print(secs)| >= 20 && FieldOr(Print(secs), 0, 4, 0) == Leading(YearOf(secs))
  {
    var d, c := DateOf(secs / 86400), ClockOf(secs);
    SmallDate(secs);
    ClockSeconds(secs);
    LeadingPlaces(d.year);
    ParsePad(Leading(d.year), 4);
    DayLength(d, c);
    assert Print(secs)[0..4] == Pad(d.year, 4)[..4];
  }

  lemma DayLength(d: Date, c: Clock)
    requires d.month < 100 && d.day < 100 && ClockInRange(c)
    ensures |PrintDay(d, c)| == 16
  {
    TwoPlaces(d.month);
    TwoPlaces(d.day);
    TwoPlaces(c.hour);
    TwoPlaces(c.minute);
    TwoPlaces(c.second);
  }

  /** Whatever the other fields read as, the result depends on the leading places alone. */
  lemma {:induction false} ParsedRange(ts: string, year: nat)
    requires |ts| >= 19 && FieldOr(ts, 0, 4, 0) == year && 1000 <= year < 10000
    ensures year >= 1970 ==> ParseIso(ts) <= 253412000000
    ensures year < 1970 ==> ParseIso(ts) < YEAR_10000 || ParseIso(ts) >= U64 - 40000000000
  {
    var m, d := FieldOr(ts, 5, 7, 1), FieldOr(ts, 8, 10, 1);
    ParseRange(ts);
    DaysRange(year, m, d);
    TotalOfDays(DayNumber(year, m, d), FieldOr(ts, 11, 13, 0), FieldOr(ts, 14, 16, 0), FieldOr(ts, 17, 19, 0));
  }

  /** From the year 10000 on the four places read are never the year that was printed. */
  lemma {:induction false} ParseLosesLaterYears(secs: nat)
    requires YEAR_10000 <= secs < U64
    ensures ParseIso(Print(secs)) != secs
  {
    var year := YearOf(secs);
    var lead := Leading(year);
    YearTenThousand(secs);
    PrintLength(secs);
    ParsedRange(Print(secs), lead);
    if lead >= 1970 {
    } else {
      LeadingBound(year, 1970, 8);
    }
  }

  /** On `u64` seconds, parsing undoes printing exactly before the year 10000. */
  lemma {:induction false} ParsePrintIff(secs: nat)
    requires secs < U64
    ensures ParseIso(Print(secs)) == secs <==> secs < YEAR_10000
  {
    if secs < YEAR_10000 { ParsePrint(secs); } else { ParseLosesLaterYears(secs); }
  }

  // ── In characters ──────────────────────

  lemma ClockReads(c: Clock)
    requires ClockInRange(c)
    ensures var p := PrintClock(c);
            |p| == 10 && p[0] == 'T' && p[3] == ':' && p[6] == ':' && p[9] == 'Z'
  {
    TwoPlaces(c.hour);
    TwoPlaces(c.minute);
    TwoPlaces(c.second);
  }

  lemma DayReads(d: Date, c: Clock)
    requires ClockInRange(c) && d.month < 100 && d.day < 100
    ensures var p := PrintDay(d, c);
            |p| == 16 && p[0] == '-' && p[3] == '-' && p[6..] == PrintClock(c)
  {
    TwoPlaces(d.month);
    TwoPlaces(d.day);
    ClockReads(c);
  }

  /** Before the year 10000 the text has twenty characters, with these between the numbers. */
  lemma PrintReads(secs: nat)
    requires secs < YEAR_10000
    ensures var p := Print(secs);
            && |p| == 20 && p[4] == '-' && p[7] == '-' && p[10] == 'T'
            && p[13] == ':' && p[16] == ':' && p[19] == 'Z'
  {
    YearTenThousand(secs);
    FourPlaces(YearOf(secs));
    SmallDate(secs);
    ClockSeconds(secs);
    var d, c := DateOf(secs / 86400), ClockOf(secs);
    DayReads(d, c);
    ClockReads(c);
    var p, day := Print(secs), PrintDay(d, c);
    assert p == Pad(d.year, 4) + day;
    assert p[10] == day[6..][0] && p[13] == day[6..][3] && p[16] == day[6..][6] && p[19] == day[6..][9];
  }

  // ── What the parser accepts ────────────

  lemma ShortIsZero(ts: string)
    ensures |ts| < 19 ==> ParseIso(ts) == 0
  {}

  /** A number may carry a `+`; anything else that is not a digit makes it unreadable. */
  lemma NumberReads(s: string)
    ensures ParseU64("") == None && ParseU64("+") == None
    ensures s != "" && (forall i :: 0 <= i < |s| ==> '0' <= s[i] <= '9') ==>
              ParseU64(s) == ParseU64(['+'] + s) && ParseU64(s).Some?
    ensures (exists i :: 0 < i < |s| && !('0' <= s[i] <= '9')) ==> ParseU64(s) == None
  {
    assert (['+'] + s)[1..] == s;
    if s != "" && forall i :: 0 <= i < |s| ==> '0' <= s[i] <= '9' {
      DigitsRead(s);
    }
    if i :| 0 < i < |s| && !('0' <= s[i] <= '9') {
      OthersDoNot(s, i);
      OthersDoNot(s[1..], i - 1);
    }
  }

  lemma {:induction false} DigitsRead(s: string)
    requires forall i :: 0 <= i < |s| ==> '0' <= s[i] <= '9'
    ensures Value(s).Some?
  {
    if s != "" { DigitsRead(s[..|s| - 1]); }
  }

  lemma {:induction false} OthersDoNot(s: string, i: nat)
    requires i < |s| && !('0' <= s[i] <= '9')
    ensures Value(s) == None
  {
    if i < |s| - 1 { OthersDoNot(s[..|s| - 1], i); }
  }

  lemma FieldOfPrefix(ts: string, lo: nat, hi: nat, default: nat)
    requires lo <= hi <= 19 <= |ts|
    ensures FieldOr(ts[..19], lo, hi, default) == FieldOr(ts, lo, hi, default)
  {
    assert ts[..19][lo..hi] == ts[lo..hi];
  }

  /** Only the first nineteen characters are read. */
  lemma ReadsNineteen(ts: string)
    requires |ts| >= 19
    ensures ParseIso(ts[..19]) == ParseIso(ts)
  {
    FieldOfPrefix(ts, 0, 4, 0);
    FieldOfPrefix(ts, 5, 7, 1);
    FieldOfPrefix(ts, 8, 10, 1);
    FieldOfPrefix(ts, 11, 13, 0);
    FieldOfPrefix(ts, 14, 16, 0);
    FieldOfPrefix(ts, 17, 19, 0);
  }

  /** With no readable field the parser takes January 1st of the year 0, at midnight, whose day
      number is 719527 below the epoch and wraps round. */
  lemma NothingReadable(ts: string)
    requires |ts| >= 19 && ParseU64(ts[0..4]) == None && ParseU64(ts[5..7]) == None && ParseU64(ts[8..10]) == None
    requires ParseU64(ts[11..13]) == None && ParseU64(ts[14..16]) == None && ParseU64(ts[17..19]) == None
    ensures ParseIso(ts) == 0x1_0000_0000_0000_0000 - 62167132800
  {
    assert MonthStart(IsLeap(0), 0) == 0;
    assert DayNumber(0, 1, 1) == -719527;
  }
}
