/**
 * Gregorian calendar arithmetic behind `Schedule.next_isodate` and
 * `Schedule.day_of_isodate`: dates in Python's range (years 1 to 9999),
 * Python's day ordinal, the `YYYY-MM-DD` text form written by
 * `date.isoformat()`, and the fact that comparing two such texts as strings
 * compares the dates.
 */
module IsoDate {
  import opened Wrappers
  import opened Strings

  const MinYear := 1
  const MaxYear := 9999

  datatype Date = Date(year: int, month: int, day: int)

  predicate IsLeap(y: int)
  {
    y % 4 == 0 && (y % 100 != 0 || y % 400 == 0)
  }

  function DaysInMonth(y: int, m: int): int
    requires 1 <= m <= 12
  {
    if m == 2 then (if IsLeap(y) then 29 else 28)
    else if m == 4 || m == 6 || m == 9 || m == 11 then 30
    else 31
  }

  function DaysInYear(y: int): int
  {
    if IsLeap(y) then 366 else 365
  }

  /** A date Python's `datetime.date` can represent. */
  predicate Valid(d: Date)
  {
    MinYear <= d.year <= MaxYear && 1 <= d.month <= 12 && 1 <= d.day <= DaysInMonth(d.year, d.month)
  }

  const FirstDate := Date(1, 1, 1)
  const LastDate := Date(9999, 12, 31)

  /** Days in the years before year `y`: 365 a year plus the leap days, as Python counts them. */
  function DaysBeforeYear(y: int): int
    requires y >= 1
  {
    var z := y - 1;
    z * 365 + z / 4 - z / 100 + z / 400
  }

  /** Days in the months of year `y` before month `m`. */
  function DaysBeforeMonth(y: int, m: int): int
    requires 1 <= m <= 12
  {
    var common :=
      if m == 1 then 0 else if m == 2 then 31 else if m == 3 then 59
      else if m == 4 then 90 else if m == 5 then 120 else if m == 6 then 151
      else if m == 7 then 181 else if m == 8 then 212 else if m == 9 then 243
      else if m == 10 then 273 else if m == 11 then 304 else 334;
    common + (if m > 2 && IsLeap(y) then 1 else 0)
  }

  /** Python's `date.toordinal()`: 0001-01-01 is day 1. */
  function Ordinal(d: Date): int
    requires Valid(d)
  {
    DaysBeforeYear(d.year) + DaysBeforeMonth(d.year, d.month) + d.day
  }

  /** The ordinal of 9999-12-31, the last day Python represents. */
  function MaxOrdinal(): int
  {
    assert Valid(LastDate);
    Ordinal(LastDate)
  }

  /** `a` is strictly earlier than `b`, comparing year, then month, then day. */
  predicate Before(a: Date, b: Date)
  {
    a.year < b.year || (a.year == b.year && (a.month < b.month || (a.month == b.month && a.day < b.day)))
  }

  /** Stepping from `y - 1` to `y` adds one to `y / k` exactly when `k` divides `y`. */
  lemma DivStep(y: int, k: int)
    requires y >= 1 && (k == 4 || k == 100 || k == 400)
    ensures y / k - (y - 1) / k == if y % k == 0 then 1 else 0
  {
    var q, r := (y - 1) / k, (y - 1) % k;
    assert y - 1 == k * q + r && 0 <= r < k;
    if r == k - 1 {
      assert y == k * (q + 1);
    } else {
      assert y == k * q + (r + 1) && 0 <= r + 1 < k;
    }
  }

  lemma Divides(y: int)
    ensures y % 400 == 0 ==> y % 100 == 0
    ensures y % 100 == 0 ==> y % 4 == 0
  {
    if y % 400 == 0 {
      var q := y / 400;
      assert y == 100 * (4 * q);
    }
    if y % 100 == 0 {
      var q := y / 100;
      assert y == 4 * (25 * q);
    }
  }

  /** The closed form counts each year's own length. */
  lemma YearStep(y: int)
    requires y >= 1
    ensures DaysBeforeYear(y + 1) == DaysBeforeYear(y) + DaysInYear(y)
  {
    DivStep(y, 4);
    DivStep(y, 100);
    DivStep(y, 400);
    Divides(y);
  }

  lemma {:induction false} YearsApart(a: int, b: int)
    requires 1 <= a <= b
    ensures DaysBeforeYear(a) + 365 * (b - a) <= DaysBeforeYear(b)
    decreases b - a
  {
    if a < b {
      YearsApart(a, b - 1);
      YearStep(b - 1);
    }
  }

  lemma MonthStep(y: int, m: int)
    requires 2 <= m <= 12
    ensures DaysBeforeMonth(y, m) == DaysBeforeMonth(y, m - 1) + DaysInMonth(y, m - 1)
  {
  }

  lemma YearEnd(y: int)
    ensures DaysBeforeMonth(y, 12) + 31 == DaysInYear(y)
  {
  }

  lemma MonthsApart(y: int, a: int, b: int)
    requires 1 <= a < b <= 12
    ensures DaysBeforeMonth(y, a) + DaysInMonth(y, a) <= DaysBeforeMonth(y, b)
  {
  }

  lemma MonthsInYear(y: int, m: int)
    requires 1 <= m <= 12
    ensures DaysBeforeMonth(y, m) + DaysInMonth(y, m) <= DaysInYear(y)
  {
  }

  /** A strictly earlier date has a strictly smaller ordinal. */
  lemma OrdinalMonotone(a: Date, b: Date)
    requires Valid(a) && Valid(b) && Before(a, b)
    ensures Ordinal(a) < Ordinal(b)
  {
    if a.year < b.year {
      MonthsInYear(a.year, a.month);
      YearStep(a.year);
      YearsApart(a.year + 1, b.year);
    } else if a.month < b.month {
      MonthsApart(a.year, a.month, b.month);
    }
  }

  /** Ordinals order dates exactly as the calendar does, and no two dates share one. */
  lemma OrdinalOrder(a: Date, b: Date)
    requires Valid(a) && Valid(b)
    ensures Ordinal(a) < Ordinal(b) <==> Before(a, b)
    ensures Ordinal(a) == Ordinal(b) <==> a == b
  {
    if Before(a, b) {
      OrdinalMonotone(a, b);
    } else if Before(b, a) {
      OrdinalMonotone(b, a);
    }
  }

  /** Every date's ordinal lies between those of 0001-01-01 and 9999-12-31. */
  lemma OrdinalRange(d: Date)
    requires Valid(d)
    ensures 1 <= Ordinal(d) <= MaxOrdinal()
  {
    FirstIsLeast(d);
    LastIsGreatest(d);
  }

  lemma FirstOrdinal()
    ensures Valid(FirstDate)
    ensures Ordinal(FirstDate) == 1
  {
  }

  lemma LastOrdinal()
    ensures Valid(LastDate)
    ensures Ordinal(LastDate) == MaxOrdinal()
  {
  }

  lemma FirstIsLeast(d: Date)
    requires Valid(d)
    ensures 1 <= Ordinal(d)
    ensures Ordinal(d) == 1 ==> d == FirstDate
  {
    if d != FirstDate {
      OrdinalMonotone(FirstDate, d);
    }
  }

  lemma LastIsGreatest(d: Date)
    requires Valid(d)
    ensures Ordinal(d) <= Ordinal(LastDate)
    ensures Ordinal(d) == Ordinal(LastDate) ==> d == LastDate
  {
    if d != LastDate {
      OrdinalMonotone(d, LastDate);
    }
  }

  /** The following day; `None` after 9999-12-31. */
  function Next(d: Date): (r: Option<Date>)
    requires Valid(d)
    ensures r.None? <==> d == LastDate
    ensures r.Some? ==> Valid(r.value) && Ordinal(r.value) == Ordinal(d) + 1
  {
    if d.day < DaysInMonth(d.year, d.month) then Some(Date(d.year, d.month, d.day + 1))
    else if d.month < 12 then
      MonthStep(d.year, d.month + 1);
      Some(Date(d.year, d.month + 1, 1))
    else if d.year < MaxYear then
      YearEnd(d.year);
      YearStep(d.year);
      Some(Date(d.year + 1, 1, 1))
    else None
  }

  /** The preceding day; `None` before 0001-01-01. */
  function Prev(d: Date): (r: Option<Date>)
    requires Valid(d)
    ensures r.None? <==> d == FirstDate
    ensures r.Some? ==> Valid(r.value) && Ordinal(r.value) == Ordinal(d) - 1
  {
    if d.day > 1 then Some(Date(d.year, d.month, d.day - 1))
    else if d.month > 1 then
      MonthStep(d.year, d.month);
      Some(Date(d.year, d.month - 1, DaysInMonth(d.year, d.month - 1)))
    else if d.year > MinYear then
      YearEnd(d.year - 1);
      YearStep(d.year - 1);
      Some(Date(d.year - 1, 12, 31))
    else None
  }

  /** `n` days later, stepping one day at a time; `None` past 9999-12-31. */
  function Forward(d: Date, n: nat): (r: Option<Date>)
    requires Valid(d)
    ensures r.Some? <==> Ordinal(d) + n <= MaxOrdinal()
    ensures r.Some? ==> Valid(r.value) && Ordinal(r.value) == Ordinal(d) + n
    decreases n
  {
    if n == 0 then
      OrdinalRange(d);
      Some(d)
    else
      match Next(d)
      case None =>
        LastOrdinal();
        None
      case Some(e) => Forward(e, n - 1)
  }

  /** `n` days earlier; `None` before 0001-01-01. */
  function Backward(d: Date, n: nat): (r: Option<Date>)
    requires Valid(d)
    ensures r.Some? <==> 1 <= Ordinal(d) - n
    ensures r.Some? ==> Valid(r.value) && Ordinal(r.value) == Ordinal(d) - n
    decreases n
  {
    if n == 0 then
      OrdinalRange(d);
      Some(d)
    else
      match Prev(d)
      case None =>
        FirstOrdinal();
        None
      case Some(e) => Backward(e, n - 1)
  }

  /**
   * `date + timedelta(days=n)`: defined when the day `n` days away is in
   * Python's range (otherwise Python raises OverflowError), and then it is
   * the date whose ordinal is `n` more.
   */
  function AddDays(d: Date, n: int): (r: Option<Date>)
    requires Valid(d)
    ensures r.Some? <==> 1 <= Ordinal(d) + n <= MaxOrdinal()
    ensures r.Some? ==> Valid(r.value) && Ordinal(r.value) == Ordinal(d) + n
  {
    OrdinalRange(d);
    if n >= 0 then Forward(d, n) else Backward(d, -n)
  }

  // ---- decimal digits ----

  predicate IsDigit(c: char)
  {
    '0' <= c <= '9'
  }

  predicate AllDigits(s: string)
  {
    forall i :: 0 <= i < |s| ==> IsDigit(s[i])
  }

  function Pow10(n: nat): (p: nat)
    ensures p >= 1
  {
    if n == 0 then 1 else 10 * Pow10(n - 1)
  }

  function DigitChar(k: int): char
    requires 0 <= k < 10
  {
    (48 + k) as char
  }

  /** `x` written in decimal with exactly `w` digits, zero-padded (`"%0*d"`). */
  function Pad(x: nat, w: nat): (s: string)
    ensures |s| == w && AllDigits(s)
  {
    if w == 0 then "" else Pad(x / 10, w - 1) + [DigitChar(x % 10)]
  }

  /** The number a string of decimal digits denotes. */
  function Num(s: string): nat
    requires AllDigits(s)
    decreases |s|
  {
    if s == "" then 0 else Num(s[..|s| - 1]) * 10 + (s[|s| - 1] as int - 48)
  }

  lemma {:induction false} NumPad(x: nat, w: nat)
    requires x < Pow10(w)
    ensures Num(Pad(x, w)) == x
  {
    if w > 0 {
      var p := Pad(x / 10, w - 1);
      assert (p + [DigitChar(x % 10)])[..w - 1] == p;
      NumPad(x / 10, w - 1);
    }
  }

  lemma {:induction false} PadNum(s: string)
    requires AllDigits(s)
    ensures Num(s) < Pow10(|s|) && Pad(Num(s), |s|) == s
    decreases |s|
  {
    if s != "" {
      var init := s[..|s| - 1];
      PadNum(init);
      var n := Num(s);
      assert n / 10 == Num(init) && n % 10 == s[|s| - 1] as int - 48;
      assert s == init + [s[|s| - 1]];
    }
  }

  /** Zero-padded numerals of one width sort as strings exactly as the numbers do. */
  lemma {:induction false} PadOrder(x: nat, y: nat, w: nat)
    requires x < Pow10(w) && y < Pow10(w)
    ensures LexLe(Pad(x, w), Pad(y, w)) <==> x <= y
    ensures Pad(x, w) == Pad(y, w) <==> x == y
  {
    if w > 0 {
      PadOrder(x / 10, y / 10, w - 1);
      var cx, cy := [DigitChar(x % 10)], [DigitChar(y % 10)];
      LexLeConcat(Pad(x / 10, w - 1), cx, Pad(y / 10, w - 1), cy);
      if Pad(x, w) == Pad(y, w) {
        NumPad(x, w);
        NumPad(y, w);
      }
    }
  }

  // ---- the YYYY-MM-DD form ----

  /** `date.isoformat()`: `"%04d-%02d-%02d"`. */
  function Format(d: Date): (s: string)
    requires Valid(d)
    ensures |s| == 10
  {
    Pad(d.year, 4) + ("-" + (Pad(d.month, 2) + ("-" + Pad(d.day, 2))))
  }

  /**
   * `datetime.strptime(s, "%Y-%m-%d").date()` on the zero-padded form; `None`
   * where Python raises ValueError. What it accepts is exactly what `Format`
   * writes.
   */
  function Parse(s: string): (r: Option<Date>)
    ensures r.Some? ==> Valid(r.value) && Format(r.value) == s
  {
    if |s| == 10 && s[4] == '-' && s[7] == '-' && AllDigits(s[..4]) && AllDigits(s[5..7]) && AllDigits(s[8..]) then
      var d := Date(Num(s[..4]), Num(s[5..7]), Num(s[8..]));
      if Valid(d) then
        ParseParts(s);
        Some(d)
      else None
    else None
  }

  /** A string of the `YYYY-MM-DD` shape is the padded form of the numbers it spells. */
  lemma ParseParts(s: string)
    requires |s| == 10 && s[4] == '-' && s[7] == '-'
    requires AllDigits(s[..4]) && AllDigits(s[5..7]) && AllDigits(s[8..])
    ensures s == Pad(Num(s[..4]), 4) + ("-" + (Pad(Num(s[5..7]), 2) + ("-" + Pad(Num(s[8..]), 2))))
  {
    var y, m, d := s[..4], s[5..7], s[8..];
    SplitDashes(s);
    PadNum(y);
    PadNum(m);
    PadNum(d);
  }

  lemma SplitDashes(s: string)
    requires |s| == 10 && s[4] == '-' && s[7] == '-'
    ensures s == s[..4] + ("-" + (s[5..7] + ("-" + s[8..])))
  {
    assert s[4..5] == "-" && s[7..8] == "-";
    assert s == s[..4] + s[4..5] + s[5..7] + s[7..8] + s[8..];
  }

  /** Writing a date and reading it back gives the date. */
  lemma FormatParse(d: Date)
    requires Valid(d)
    ensures Parse(Format(d)) == Some(d)
  {
    DashedSlices(Pad(d.year, 4), Pad(d.month, 2), Pad(d.day, 2));
    NumPad(d.year, 4);
    NumPad(d.month, 2);
    NumPad(d.day, 2);
  }

  /** Where the three fields sit in the `YYYY-MM-DD` layout. */
  lemma DashedSlices(y: string, m: string, d: string)
    requires |y| == 4 && |m| == 2 && |d| == 2
    ensures var s := y + ("-" + (m + ("-" + d)));
            |s| == 10 && s[..4] == y && s[4] == '-' && s[5..7] == m && s[7] == '-' && s[8..] == d
  {
  }

  /** A string `next_isodate` and `day_of_isodate` accept. */
  predicate IsCanonical(s: string)
  {
    Parse(s).Some?
  }

  function DayNumber(s: string): int
    requires IsCanonical(s)
  {
    Ordinal(Parse(s).value)
  }

  /** Comparing two formatted dates as strings compares year, month and day in turn. */
  lemma FormatOrder(a: Date, b: Date)
    requires Valid(a) && Valid(b)
    ensures LexLe(Format(a), Format(b)) <==> !Before(b, a)
  {
    var ta := Pad(a.month, 2) + ("-" + Pad(a.day, 2));
    var tb := Pad(b.month, 2) + ("-" + Pad(b.day, 2));
    PadOrder(a.year, b.year, 4);
    PadOrder(a.month, b.month, 2);
    PadOrder(a.day, b.day, 2);
    LexLeConcat(Pad(a.year, 4), "-" + ta, Pad(b.year, 4), "-" + tb);
    LexLeConcat("-", ta, "-", tb);
    LexLeConcat(Pad(a.month, 2), "-" + Pad(a.day, 2), Pad(b.month, 2), "-" + Pad(b.day, 2));
    LexLeConcat("-", Pad(a.day, 2), "-", Pad(b.day, 2));
  }

  /**
   * The property the filter and the day walk rely on: for two ISO date
   * strings, string order is chronological order.
   */
  lemma IsoOrder(s: string, t: string)
    requires IsCanonical(s) && IsCanonical(t)
    ensures LexLe(s, t) <==> DayNumber(s) <= DayNumber(t)
    ensures s == t <==> DayNumber(s) == DayNumber(t)
  {
    var a, b := Parse(s).value, Parse(t).value;
    FormatOrder(a, b);
    OrdinalOrder(a, b);
    OrdinalOrder(b, a);
  }

  /**
   * `Schedule.next_isodate(iso, days)`: the ISO date `days` days away, or
   * `None` where Python raises (unparseable text, or a date outside years 1 to 9999).
   */
  function NextIsoDate(iso: string, days: int): (r: Option<string>)
    ensures r.Some? <==> IsCanonical(iso) && 1 <= DayNumber(iso) + days <= MaxOrdinal()
    ensures r.Some? ==> IsCanonical(r.value) && DayNumber(r.value) == DayNumber(iso) + days
  {
    match Parse(iso)
    case None => None
    case Some(d) =>
      match AddDays(d, days)
      case None => None
      case Some(e) =>
        FormatParse(e);
        Some(Format(e))
  }

  /** Moving `a` days and then `b` days is moving `a + b` days. */
  lemma NextIsoDateAdditive(iso: string, a: int, b: int)
    requires NextIsoDate(iso, a).Some?
    ensures NextIsoDate(NextIsoDate(iso, a).value, b) == NextIsoDate(iso, a + b)
  {
    var j := NextIsoDate(iso, a).value;
    var x, y := NextIsoDate(j, b), NextIsoDate(iso, a + b);
    if x.Some? && y.Some? {
      IsoOrder(x.value, y.value);
    }
  }

  /** A positive step lands on a strictly later date, also in string order. */
  lemma NextIsoDateLater(iso: string, days: int)
    requires days > 0 && NextIsoDate(iso, days).Some?
    ensures LexLt(iso, NextIsoDate(iso, days).value)
  {
    IsoOrder(iso, NextIsoDate(iso, days).value);
  }

  const WeekdayNames: seq<string> := ["Monday", "Tuesday", "Wednesday", "Thursday", "Friday", "Saturday", "Sunday"]

  /** Python's `date.weekday()`: Monday is 0. */
  function Weekday(d: Date): (k: int)
    requires Valid(d)
    ensures 0 <= k < 7
  {
    (Ordinal(d) + 6) % 7
  }

  /**
   * `Schedule.day_of_isodate(iso)`: the English weekday name (`%A`); `None`
   * where Python 2 raises: text that does not parse, or a year before 1900,
   * which Python 2's `strftime` refuses.
   */
  function DayOfIsoDate(iso: string): (r: Option<string>)
    ensures r.Some? <==> IsCanonical(iso) && Parse(iso).value.year >= 1900
    ensures r.Some? ==> r.value in WeekdayNames
  {
    match Parse(iso)
    case None => None
    case Some(d) => if d.year < 1900 then None else Some(WeekdayNames[Weekday(d)])
  }

  /** Python's numbering starts the week on Monday: 0001-01-01, day 1, was a Monday. */
  lemma FirstDateMonday()
    ensures Valid(Date(1, 1, 1)) && Weekday(Date(1, 1, 1)) == 0
  {
    var d := Date(1, 1, 1);
    assert Valid(d);
    assert DaysBeforeYear(1) == 0 && DaysBeforeMonth(1, 1) == 0;
    WeekdayIs(d, 1, 0);
  }

  /** The weekday number of a date whose ordinal is known. */
  lemma WeekdayIs(d: Date, n: int, k: int)
    requires Valid(d) && Ordinal(d) == n && (n + 6) % 7 == k
    ensures Weekday(d) == k
  {
  }

  /** The text of a date of the 2015 season. */
  lemma FormatScenario()
    ensures Format(Date(2015, 4, 10)) == "2015-04-10"
  {
    YearText();
    MonthText();
    DayText();
    assert Format(Date(2015, 4, 10)) == "2015" + ("-" + ("04" + ("-" + "10")));
  }

  lemma MonthText()
    ensures Pad(4, 2) == "04"
  {
    assert Pad(0, 1) == "0";
  }

  lemma YearText()
    ensures Pad(2015, 4) == "2015"
  {
    assert Pad(2, 1) == "2";
    assert Pad(20, 2) == "20";
    assert Pad(201, 3) == "201";
  }

  lemma DayText()
    ensures Pad(10, 2) == "10"
  {
    assert Pad(1, 1) == "1";
  }

  lemma OrdinalScenario()
    ensures Valid(Date(2015, 4, 10)) && Ordinal(Date(2015, 4, 10)) == 735698
  {
    assert DaysBeforeYear(2015) == 735598;
    assert DaysBeforeMonth(2015, 4) == 90;
  }

  /** The name of a formatted date from 1900 on is the one its weekday number picks. */
  lemma DayOfFormat(d: Date)
    requires Valid(d) && d.year >= 1900
    ensures DayOfIsoDate(Format(d)) == Some(WeekdayNames[Weekday(d)])
  {
    FormatParse(d);
  }

  /** `day_of_isodate("2015-04-10")` is "Friday", the name of that day. */
  lemma DayOfIsoDateScenario()
    ensures DayOfIsoDate("2015-04-10") == Some("Friday")
  {
    var d := Date(2015, 4, 10);
    OrdinalScenario();
    WeekdayIs(d, 735698, 4);
    DayOfFormat(d);
    FormatScenario();
  }

  /** A later canonical date is never in an earlier year. */
  lemma LaterYear(s: string, t: string)
    requires IsCanonical(s) && IsCanonical(t) && LexLe(s, t)
    ensures Parse(s).value.year <= Parse(t).value.year
  {
    FormatOrder(Parse(s).value, Parse(t).value);
  }

  /** A canonical date from 1900 on has a name, the one its weekday number picks. */
  lemma DayOfIsoDateIs(iso: string)
    requires IsCanonical(iso) && Parse(iso).value.year >= 1900
    ensures DayOfIsoDate(iso) == Some(WeekdayNames[(DayNumber(iso) + 6) % 7])
  {
  }

  lemma {:induction false} ModWeeks(x: int, k: nat)
    ensures (x + 7 * k) % 7 == x % 7
  {
    if k > 0 {
      ModWeeks(x, k - 1);
      assert x + 7 * k == (x + 7 * (k - 1)) + 7;
    }
  }

  /** A date reached by going forward is in the same year or later, so it is still nameable. */
  lemma ForwardNameable(iso: string, days: nat)
    requires DayOfIsoDate(iso).Some? && NextIsoDate(iso, days).Some?
    ensures Parse(NextIsoDate(iso, days).value).value.year >= 1900
  {
    var j := NextIsoDate(iso, days).value;
    IsoOrder(iso, j);
    LaterYear(iso, j);
  }

  /** `day_of_isodate` repeats with period seven days. */
  lemma DayOfIsoDateWeekly(iso: string, k: nat)
    requires DayOfIsoDate(iso).Some? && NextIsoDate(iso, 7 * k).Some?
    ensures DayOfIsoDate(NextIsoDate(iso, 7 * k).value) == DayOfIsoDate(iso)
  {
    var j := NextIsoDate(iso, 7 * k).value;
    ForwardNameable(iso, 7 * k);
    DayOfIsoDateIs(iso);
    DayOfIsoDateIs(j);
    WeeksLater(iso, j, k);
  }

  lemma WeeksLater(s: string, t: string, k: nat)
    requires IsCanonical(s) && IsCanonical(t) && DayNumber(t) == DayNumber(s) + 7 * k
    ensures (DayNumber(t) + 6) % 7 == (DayNumber(s) + 6) % 7
  {
    ModWeeksShift(DayNumber(s) + 6, DayNumber(t) + 6, k);
  }

  lemma ModWeeksShift(x: int, y: int, k: nat)
    requires y == x + 7 * k
    ensures y % 7 == x % 7
  {
    ModWeeks(x, k);
  }

  /** The day after is the next name in the week, Sunday wrapping to Monday. */
  lemma DayOfIsoDateNext(iso: string)
    requires DayOfIsoDate(iso).Some? && NextIsoDate(iso, 1).Some?
    ensures IsCanonical(NextIsoDate(iso, 1).value)
    ensures (DayNumber(NextIsoDate(iso, 1).value) + 6) % 7 == ((DayNumber(iso) + 6) % 7 + 1) % 7
    ensures DayOfIsoDate(NextIsoDate(iso, 1).value) == Some(WeekdayNames[(DayNumber(NextIsoDate(iso, 1).value) + 6) % 7])
  {
    var j := NextIsoDate(iso, 1).value;
    ForwardNameable(iso, 1);
    DayOfIsoDateIs(j);
    NextWeekday(iso, j);
  }

  lemma NextWeekday(s: string, t: string)
    requires IsCanonical(s) && IsCanonical(t) && DayNumber(t) == DayNumber(s) + 1
    ensures (DayNumber(t) + 6) % 7 == ((DayNumber(s) + 6) % 7 + 1) % 7
  {
    ModNext(DayNumber(s) + 6, DayNumber(t) + 6);
  }

  lemma ModNext(x: int, y: int)
    requires y == x + 1
    ensures y % 7 == (x % 7 + 1) % 7
  {
  }
}
