/**
 * UTC calendar days. An instant is an integer count of milliseconds since
 * 1970-01-01T00:00:00Z; a day is an integer count of days since that date,
 * obtained by flooring (as the UTC getters of a JavaScript Date do, also for
 * instants before 1970). The proleptic Gregorian calendar is implemented
 * outright, so that formatting a day as `YYYY-MM-DD` and parsing it back can
 * be proved to be inverse, injective and order-preserving.
 */
module Date {

  import opened Wrappers

  // A UTC day has 86400000 milliseconds; the number is written out below so
  // that products with it stay linear for the solver.

  /** The UTC day an instant falls in. */
  function DayOf(t: int): int
  {
    t / 86400000
  }

  /** UTC midnight of the day of `t`. */
  function StartOfDay(t: int): (r: int)
    ensures r % 86400000 == 0
    ensures r <= t < r + 86400000
    ensures DayOf(r) == DayOf(t)
  {
    DayOf(t) * 86400000
  }

  lemma DayOfMidnight(d: int)
    ensures DayOf(d * 86400000) == d
  {
  }

  /** An instant lies in the interval of day `d` exactly when its day is `d`. */
  lemma InDayInterval(t: int, d: int)
    ensures d * 86400000 <= t < d * 86400000 + 86400000 <==> DayOf(t) == d
  {
  }

  /** The midnight of a day is at UTC midnight. */
  lemma MidnightAligned(d: int)
    ensures (d * 86400000) % 86400000 == 0
  {
  }

  /** Later instants lie on the same day or a later one. */
  lemma DayOfMonotone(a: int, b: int)
    requires a <= b
    ensures DayOf(a) <= DayOf(b)
  {
  }

  /** Going back `k` whole days from `t` lands `k` days earlier. */
  lemma DayShift(t: int, k: int)
    ensures DayOf(t - k * 86400000) == DayOf(t) - k
  {
  }

  /** An instant at UTC midnight is the midnight of its day. */
  lemma MidnightOfDay(t: int)
    requires t % 86400000 == 0
    ensures t == DayOf(t) * 86400000
  {
  }

  /** The day before the day of `t` is the day of `t - 86400000`. */
  lemma DayOfPreviousDay(t: int)
    ensures DayOf(t - 86400000) == DayOf(t) - 1
  {
  }

  // ---------------------------------------------------------------------------
  // The calendar

  predicate IsLeap(y: int)
  {
    y % 4 == 0 && (y % 100 != 0 || y % 400 == 0)
  }

  function DaysInYear(y: int): int
  {
    if IsLeap(y) then 366 else 365
  }

  function DaysInMonth(y: int, m: int): int
    requires 1 <= m <= 12
  {
    if m == 2 then (if IsLeap(y) then 29 else 28)
    else if m == 4 || m == 6 || m == 9 || m == 11 then 30
    else 31
  }

  /** Days of year `y` before the first of month `m` (m = 13 means the whole year). */
  function MonthStart(y: int, m: int): int
    requires 1 <= m <= 13
  {
    var common :=
      if m == 1 then 0 else if m == 2 then 31 else if m == 3 then 59
      else if m == 4 then 90 else if m == 5 then 120 else if m == 6 then 151
      else if m == 7 then 181 else if m == 8 then 212 else if m == 9 then 243
      else if m == 10 then 273 else if m == 11 then 304 else if m == 12 then 334
      else 365;
    common + (if m > 2 && IsLeap(y) then 1 else 0)
  }

  lemma MonthStartStep(y: int, m: int)
    requires 1 <= m <= 12
    ensures MonthStart(y, m + 1) == MonthStart(y, m) + DaysInMonth(y, m)
    ensures MonthStart(y, 1) == 0 && MonthStart(y, 13) == DaysInYear(y)
  {
  }

  /** Day number of January 1st of year `y`. */
  function YearStart(y: int): int
    decreases if y < 1970 then 1970 - y else y - 1970
  {
    if y == 1970 then 0
    else if y > 1970 then YearStart(y - 1) + DaysInYear(y - 1)
    else YearStart(y + 1) - DaysInYear(y)
  }

  lemma YearStartStep(y: int)
    ensures YearStart(y + 1) == YearStart(y) + DaysInYear(y)
  {
  }

  /** Years later in the calendar start strictly later. */
  lemma {:induction false} YearStartMonotone(a: int, b: int)
    requires a < b
    ensures YearStart(a + 1) <= YearStart(b)
    decreases b - a
  {
    YearStartStep(b - 1);
    if a < b - 1 {
      YearStartMonotone(a, b - 1);
    }
  }

  /** The year containing day `n`, searching upwards from year `y`. */
  function YearUp(n: int, y: int): (r: int)
    requires YearStart(y) <= n
    ensures YearStart(r) <= n < YearStart(r + 1)
    decreases n - YearStart(y)
  {
    YearStartStep(y);
    if n < YearStart(y + 1) then y else YearUp(n, y + 1)
  }

  /** The year containing day `n`, searching downwards from year `y`. */
  function YearDown(n: int, y: int): (r: int)
    requires n < YearStart(y + 1)
    ensures YearStart(r) <= n < YearStart(r + 1)
    decreases YearStart(y + 1) - n
  {
    YearStartStep(y);
    YearStartStep(y - 1);
    if YearStart(y) <= n then y else YearDown(n, y - 1)
  }

  function YearOf(n: int): (r: int)
    ensures YearStart(r) <= n < YearStart(r + 1)
  {
    if n >= 0 then YearUp(n, 1970) else YearDown(n, 1969)
  }

  lemma YearUnique(n: int, y1: int, y2: int)
    requires YearStart(y1) <= n < YearStart(y1 + 1)
    requires YearStart(y2) <= n < YearStart(y2 + 1)
    ensures y1 == y2
  {
    if y1 < y2 {
      YearStartMonotone(y1, y2);
    } else if y2 < y1 {
      YearStartMonotone(y2, y1);
    }
  }

  /** The month containing day `r` (0-based) of year `y`. */
  function MonthOf(y: int, r: int): (m: int)
    requires 0 <= r < DaysInYear(y)
    ensures 1 <= m <= 12 && MonthStart(y, m) <= r < MonthStart(y, m + 1)
  {
    if r < MonthStart(y, 2) then 1
    else if r < MonthStart(y, 3) then 2
    else if r < MonthStart(y, 4) then 3
    else if r < MonthStart(y, 5) then 4
    else if r < MonthStart(y, 6) then 5
    else if r < MonthStart(y, 7) then 6
    else if r < MonthStart(y, 8) then 7
    else if r < MonthStart(y, 9) then 8
    else if r < MonthStart(y, 10) then 9
    else if r < MonthStart(y, 11) then 10
    else if r < MonthStart(y, 12) then 11
    else 12
  }

  datatype CivilDate = CivilDate(year: int, month: int, day: int)

  predicate ValidCivil(c: CivilDate)
  {
    1 <= c.month <= 12 && 1 <= c.day <= DaysInMonth(c.year, c.month)
  }

  /** Chronological order of calendar dates: year, then month, then day. */
  predicate CivilLess(a: CivilDate, b: CivilDate)
  {
    a.year < b.year
    || (a.year == b.year && a.month < b.month)
    || (a.year == b.year && a.month == b.month && a.day < b.day)
  }

  /**
   * Day number of a calendar date: what `Date.UTC(y, m - 1, d)` gives, divided
   * by 86400000, for a year outside 0..99 (see `UTCDays`).
   */
  function DaysFromCivil(c: CivilDate): int
    requires ValidCivil(c)
  {
    YearStart(c.year) + MonthStart(c.year, c.month) + c.day - 1
  }

  /** Calendar date of a day number (the UTC year/month/day getters of a Date). */
  function CivilFromDays(n: int): (c: CivilDate)
    ensures ValidCivil(c) && DaysFromCivil(c) == n
  {
    var y := YearOf(n);
    YearStartStep(y);
    var m := MonthOf(y, n - YearStart(y));
    MonthStartStep(y, m);
    CivilDate(y, m, n - YearStart(y) - MonthStart(y, m) + 1)
  }

  // ---------------------------------------------------------------------------
  // Date.UTC

  /** The year `Date.UTC` uses (ECMA-262 `MakeFullYear`): a year 0..99 is read as 1900 + year. */
  function UTCFullYear(y: int): int
  {
    if 0 <= y <= 99 then 1900 + y else y
  }

  /**
   * `Date.UTC(y, m - 1, d)` divided by 86400000, for a month 1..12: the year
   * goes through `UTCFullYear`, and a day past the end of its month runs on
   * into the following months.
   */
  function UTCDays(y: int, m: int, d: int): int
    requires 1 <= m <= 12
  {
    var fy := UTCFullYear(y);
    YearStart(fy) + MonthStart(fy, m) + d - 1
  }

  /** Outside years 0..99, `Date.UTC` of a valid date is that date's day number. */
  lemma UTCDaysOfCivil(c: CivilDate)
    requires ValidCivil(c) && !(0 <= c.year <= 99)
    ensures UTCDays(c.year, c.month, c.day) == DaysFromCivil(c)
  {
  }

  /** In years 0..99 it is the day number of the same month and day 1900 years later, when that date exists. */
  lemma UTCDaysTwoDigit(c: CivilDate)
    requires ValidCivil(c) && 0 <= c.year <= 99 && ValidCivil(CivilDate(1900 + c.year, c.month, c.day))
    ensures UTCDays(c.year, c.month, c.day) == DaysFromCivil(CivilDate(1900 + c.year, c.month, c.day))
  {
  }

  /** 29 February of year 0 exists, 29 February 1900 does not: `Date.UTC` gives 1 March 1900. */
  lemma UTCDaysLeapDayOfYearZero()
    ensures ValidCivil(CivilDate(0, 2, 29)) && !ValidCivil(CivilDate(1900, 2, 29))
    ensures UTCDays(0, 2, 29) == DaysFromCivil(CivilDate(1900, 3, 1))
  {
  }

  /** The instant lies in a year 0..99, which `Date.UTC` reads as 1900..1999. */
  predicate TwoDigitYear(t: int)
  {
    0 <= YearOfDay(DayOf(t)) <= 99
  }

  /**
   * `new Date(Date.UTC(b.getUTCFullYear(), b.getUTCMonth(), b.getUTCDate()))`
   * for the instant `b`: its UTC midnight, except that a day in years 0..99
   * moves to 1900..1999.
   */
  function UTCMidnight(b: int): (r: int)
    ensures r % 86400000 == 0
    ensures !TwoDigitYear(b) ==> r == StartOfDay(b)
  {
    var c := CivilFromDays(DayOf(b));
    var r := UTCDays(c.year, c.month, c.day) * 86400000;
    assert !(0 <= c.year <= 99) ==> r == StartOfDay(b) by {
      if !(0 <= c.year <= 99) {
        UTCDaysOfCivil(c);
      }
    }
    r
  }

  /**
   * For a day in years 0..99 the rebuilt midnight is that of the same month and
   * day in 1900 + year when that date exists, and it is never the day's own midnight.
   */
  lemma UTCMidnightTwoDigit(b: int)
    requires TwoDigitYear(b)
    ensures var c := CivilFromDays(DayOf(b));
      ValidCivil(CivilDate(1900 + c.year, c.month, c.day))
      ==> UTCMidnight(b) == DaysFromCivil(CivilDate(1900 + c.year, c.month, c.day)) * 86400000
    ensures UTCMidnight(b) > StartOfDay(b)
  {
    var c := CivilFromDays(DayOf(b));
    YearStartMonotone(c.year, 1900 + c.year);
    YearStartStep(c.year);
    assert UTCDays(c.year, c.month, c.day) > DaysFromCivil(c);
  }

  lemma CivilRoundTrip(c: CivilDate)
    requires ValidCivil(c)
    ensures CivilFromDays(DaysFromCivil(c)) == c
  {
    var n := DaysFromCivil(c);
    MonthStartStep(c.year, c.month);
    YearStartStep(c.year);
    assert MonthStart(c.year, c.month + 1) <= DaysInYear(c.year);
    YearUnique(n, c.year, YearOf(n));
    MonthOfUnique(c.year, n - YearStart(c.year), c.month);
  }

  /** The month containing a day of the year is the only one whose span holds it. */
  lemma MonthOfUnique(y: int, r: int, m: int)
    requires 1 <= m <= 12 && 0 <= r < DaysInYear(y) && MonthStart(y, m) <= r < MonthStart(y, m + 1)
    ensures MonthOf(y, r) == m
  {
    var k := MonthOf(y, r);
    if k < m {
      MonthStartMonotone(y, k, m);
    } else if m < k {
      MonthStartMonotone(y, m, k);
    }
  }

  /** Day numbers order calendar dates chronologically. */
  lemma CivilOrder(a: CivilDate, b: CivilDate)
    requires ValidCivil(a) && ValidCivil(b)
    ensures DaysFromCivil(a) < DaysFromCivil(b) <==> CivilLess(a, b)
  {
    MonthStartStep(a.year, a.month);
    MonthStartStep(b.year, b.month);
    assert MonthStart(a.year, a.month + 1) <= DaysInYear(a.year);
    assert MonthStart(b.year, b.month + 1) <= DaysInYear(b.year);
    YearStartStep(a.year);
    YearStartStep(b.year);
    if a.year < b.year {
      YearStartMonotone(a.year, b.year);
    } else if b.year < a.year {
      YearStartMonotone(b.year, a.year);
    } else if a.month < b.month {
      MonthStartMonotone(a.year, a.month, b.month);
    } else if b.month < a.month {
      MonthStartMonotone(a.year, b.month, a.month);
    }
  }

  lemma MonthStartMonotone(y: int, a: int, b: int)
    requires 1 <= a < b <= 12
    ensures MonthStart(y, a + 1) <= MonthStart(y, b)
  {
  }

  function YearOfDay(d: int): int
  {
    CivilFromDays(d).year
  }

  // ---------------------------------------------------------------------------
  // Decimal digits

  predicate IsDigit(ch: char)
  {
    '0' <= ch <= '9'
  }

  predicate AllDigits(s: string)
  {
    forall i :: 0 <= i < |s| ==> IsDigit(s[i])
  }

  function DigitChar(d: int): (ch: char)
    requires 0 <= d <= 9
    ensures IsDigit(ch) && ch as int - '0' as int == d
  {
    (48 + d) as char
  }

  /** Value of a string of decimal digits. */
  function DigitsValue(s: string): nat
    requires AllDigits(s)
  {
    if s == [] then 0
    else DigitsValue(s[..|s| - 1]) * 10 + (s[|s| - 1] as int - '0' as int)
  }

  /** JavaScript's `String(n)` of a non-negative integer. */
  function NatToDec(n: nat): string
  {
    if n < 10 then [DigitChar(n)] else NatToDec(n / 10) + [DigitChar(n % 10)]
  }

  /** JavaScript's `String(i)` of an integer. */
  function IntToDec(i: int): string
  {
    if i < 0 then "-" + NatToDec(-i) else NatToDec(i)
  }

  /** `s.padStart(2, "0")`. */
  function PadStart2(s: string): string
  {
    if |s| >= 2 then s else if |s| == 1 then "0" + s else "00"
  }

  /** The last `w` decimal digits of `n`, zero-padded to width `w`. */
  function Fixed(n: nat, w: nat): string
  {
    if w == 0 then [] else Fixed(n / 10, w - 1) + [DigitChar(n % 10)]
  }

  function Pow10(w: nat): nat
  {
    if w == 0 then 1 else 10 * Pow10(w - 1)
  }

  lemma {:induction false} FixedValue(n: nat, w: nat)
    requires n < Pow10(w)
    ensures |Fixed(n, w)| == w && AllDigits(Fixed(n, w)) && DigitsValue(Fixed(n, w)) == n
  {
    if w > 0 {
      FixedValue(n / 10, w - 1);
      var s := Fixed(n, w);
      assert s[..|s| - 1] == Fixed(n / 10, w - 1);
    }
  }

  lemma {:induction false} FixedOfDigits(s: string)
    requires AllDigits(s)
    ensures DigitsValue(s) < Pow10(|s|) && Fixed(DigitsValue(s), |s|) == s
  {
    if s != [] {
      var p := s[..|s| - 1];
      var d := s[|s| - 1] as int - '0' as int;
      assert AllDigits(p);
      FixedOfDigits(p);
      var v, pv := DigitsValue(s), DigitsValue(p);
      assert v == pv * 10 + d && 0 <= d <= 9;
      assert v / 10 == pv && v % 10 == d;
      assert v < Pow10(|s|) by {
        assert pv + 1 <= Pow10(|p|);
        assert (pv + 1) * 10 <= Pow10(|p|) * 10;
      }
      assert DigitChar(d) == s[|s| - 1];
      assert s == p + [s[|s| - 1]];
    }
  }

  lemma FixedInjective(a: nat, b: nat, w: nat)
    requires a < Pow10(w) && b < Pow10(w)
    requires Fixed(a, w) == Fixed(b, w)
    ensures a == b
  {
    FixedValue(a, w);
    FixedValue(b, w);
  }

  /** `String(n)` of a number with exactly `w` digits is its width-`w` form. */
  lemma {:induction false} NatToDecFixed(n: nat, w: nat)
    requires 1 <= w && Pow10(w - 1) <= n < Pow10(w)
    ensures NatToDec(n) == Fixed(n, w)
  {
    if w == 1 {
      assert Fixed(n, 1) == Fixed(n / 10, 0) + [DigitChar(n % 10)];
    } else {
      NatToDecFixed(n / 10, w - 1);
    }
  }

  lemma {:induction false} NatToDecValue(n: nat)
    ensures AllDigits(NatToDec(n)) && |NatToDec(n)| >= 1 && DigitsValue(NatToDec(n)) == n
  {
    if n >= 10 {
      NatToDecValue(n / 10);
      var s := NatToDec(n);
      assert s[..|s| - 1] == NatToDec(n / 10);
    }
  }

  lemma IntToDecHead(i: int)
    ensures |IntToDec(i)| >= 1 && (IntToDec(i)[0] == '-' <==> i < 0)
  {
    NatToDecValue(if i < 0 then -i else i);
  }

  lemma IntToDecInjective(a: int, b: int)
    requires IntToDec(a) == IntToDec(b)
    ensures a == b
  {
    IntToDecHead(a);
    IntToDecHead(b);
    NatToDecValue(if a < 0 then -a else a);
    NatToDecValue(if b < 0 then -b else b);
    if a < 0 {
      assert NatToDec(-a) == IntToDec(a)[1..];
    }
  }

  /** `String(n).padStart(2, "0")` for a month or day number. */
  lemma Pad2Fixed(n: nat)
    requires 1 <= n <= 99
    ensures PadStart2(NatToDec(n)) == Fixed(n, 2)
  {
    if n < 10 {
      assert Fixed(n, 2) == Fixed(0, 1) + [DigitChar(n)];
    } else {
      NatToDecFixed(n, 2);
    }
  }

  // ---------------------------------------------------------------------------
  // Lexicographic order of strings (the default order of Array.prototype.sort
  // on ASCII strings)

  predicate LexLess(a: string, b: string)
  {
    if |a| == 0 then |b| > 0
    else if |b| == 0 then false
    else if a[0] != b[0] then a[0] < b[0]
    else LexLess(a[1..], b[1..])
  }

  lemma {:induction false} LexIrreflexive(a: string)
    ensures !LexLess(a, a)
    decreases |a|
  {
    if |a| > 0 {
      LexIrreflexive(a[1..]);
    }
  }

  /** Lexicographic order is total on distinct strings. */
  lemma {:induction false} LexTotal(a: string, b: string)
    ensures a == b || LexLess(a, b) || LexLess(b, a)
    decreases |a|
  {
    if |a| > 0 && |b| > 0 && a[0] == b[0] {
      LexTotal(a[1..], b[1..]);
      if a[1..] == b[1..] {
        assert a == [a[0]] + a[1..];
        assert b == [b[0]] + b[1..];
      }
    }
  }

  lemma {:induction false} LexAsymmetric(a: string, b: string)
    requires LexLess(a, b)
    ensures !LexLess(b, a)
    decreases |a|
  {
    if |a| > 0 && |b| > 0 && a[0] == b[0] {
      LexAsymmetric(a[1..], b[1..]);
    }
  }

  lemma {:induction false} LexTransitive(a: string, b: string, c: string)
    requires LexLess(a, b) && LexLess(b, c)
    ensures LexLess(a, c)
    decreases |a|
  {
    if |a| > 0 && |b| > 0 && |c| > 0 && a[0] == b[0] && b[0] == c[0] {
      LexTransitive(a[1..], b[1..], c[1..]);
    }
  }

  lemma {:induction false} LexAppend(p1: string, p2: string, q1: string, q2: string)
    requires |p1| == |p2|
    ensures LexLess(p1 + q1, p2 + q2) == (LexLess(p1, p2) || (p1 == p2 && LexLess(q1, q2)))
  {
    if |p1| == 0 {
      assert p1 + q1 == q1 && p2 + q2 == q2;
    } else if p1[0] != p2[0] {
      assert (p1 + q1)[0] == p1[0] && (p2 + q2)[0] == p2[0];
    } else {
      assert (p1 + q1)[1..] == p1[1..] + q1;
      assert (p2 + q2)[1..] == p2[1..] + q2;
      LexAppend(p1[1..], p2[1..], q1, q2);
      assert p1 == p2 <==> p1[1..] == p2[1..] by {
        if p1[1..] == p2[1..] {
          assert p1 == [p1[0]] + p1[1..] && p2 == [p2[0]] + p2[1..];
        }
      }
    }
  }

  /** Fixed-width digit strings compare like the numbers they denote. */
  lemma {:induction false} FixedLex(a: nat, b: nat, w: nat)
    requires a < Pow10(w) && b < Pow10(w)
    ensures LexLess(Fixed(a, w), Fixed(b, w)) <==> a < b
  {
    if w > 0 {
      FixedLex(a / 10, b / 10, w - 1);
      FixedValue(a / 10, w - 1);
      FixedValue(b / 10, w - 1);
      LexAppend(Fixed(a / 10, w - 1), Fixed(b / 10, w - 1), [DigitChar(a % 10)], [DigitChar(b % 10)]);
      if Fixed(a / 10, w - 1) == Fixed(b / 10, w - 1) {
        FixedInjective(a / 10, b / 10, w - 1);
      }
    }
  }

  // Formatting and parsing (date.js)

  /** `${yyyy}-${mm}-${dd}` with month and day padded to two digits and the year not padded. */
  function FormatCivil(c: CivilDate): string
    requires ValidCivil(c)
  {
    IntToDec(c.year) + "-" + PadStart2(NatToDec(c.month)) + "-" + PadStart2(NatToDec(c.day))
  }

  /** The key of a day: `toISODateOnly` of any instant of that day. */
  function DayKey(d: int): string
  {
    FormatCivil(CivilFromDays(d))
  }

  /** `toISODateOnly(t)`: the UTC calendar day of instant `t` as text. */
  function ToISODateOnly(t: int): string
  {
    DayKey(DayOf(t))
  }

  /** The RFC 3339 (section 5.6) `full-date` shape: four digits, '-', two digits, '-', two digits. */
  predicate IsFullDateShape(s: string)
  {
    |s| == 10 && s[4] == '-' && s[7] == '-'
    && AllDigits(s[..4]) && AllDigits(s[5..7]) && AllDigits(s[8..])
  }

  /** The calendar date a full-date string spells (not necessarily a valid one). */
  function FieldsOf(s: string): (c: CivilDate)
    requires IsFullDateShape(s)
    ensures 0 <= c.year <= 9999 && 0 <= c.month <= 99 && 0 <= c.day <= 99
  {
    FixedOfDigits(s[..4]);
    FixedOfDigits(s[5..7]);
    FixedOfDigits(s[8..]);
    CivilDate(DigitsValue(s[..4]), DigitsValue(s[5..7]), DigitsValue(s[8..]))
  }

  /**
   * `startOfUTCDate(s)`: `new Date(s + "T00:00:00.000Z")`. A well-formed
   * `YYYY-MM-DD` naming a real calendar date gives its UTC midnight; anything
   * else gives an invalid Date, here None.
   */
  function StartOfUTCDate(s: string): (r: Option<int>)
    ensures r.Some? ==> r.value % 86400000 == 0
  {
    if IsFullDateShape(s) && ValidCivil(FieldsOf(s)) then Some(DaysFromCivil(FieldsOf(s)) * 86400000)
    else None
  }

  /** A calendar date of a year 0..9999 as an RFC 3339 `full-date`, year padded to four digits. */
  function FullDate(c: CivilDate): (s: string)
    requires ValidCivil(c) && 0 <= c.year <= 9999
    ensures IsFullDateShape(s) && FieldsOf(s) == c
  {
    FixedValue(c.year, 4);
    FixedValue(c.month, 2);
    FixedValue(c.day, 2);
    var s := Fixed(c.year, 4) + "-" + Fixed(c.month, 2) + "-" + Fixed(c.day, 2);
    assert s[..4] == Fixed(c.year, 4) && s[5..7] == Fixed(c.month, 2) && s[8..] == Fixed(c.day, 2);
    s
  }

  /**
   * The UTC day of `t` as a `full-date`, with the year padded to four digits:
   * what `toISODateOnly` evidently means to produce.
   */
  function ToFullDate(t: int): string
    requires 0 <= YearOfDay(DayOf(t)) <= 9999
  {
    FullDate(CivilFromDays(DayOf(t)))
  }

  /** A string of the full-date shape is the padded rendering of the fields it spells. */
  lemma FullDateOfFields(s: string)
    requires IsFullDateShape(s) && ValidCivil(FieldsOf(s))
    ensures FullDate(FieldsOf(s)) == s
  {
    FixedOfDigits(s[..4]);
    FixedOfDigits(s[5..7]);
    FixedOfDigits(s[8..]);
    assert s == s[..4] + "-" + s[5..7] + "-" + s[8..];
  }

  /** For four-digit years, the unpadded rendering coincides with the full-date. */
  lemma FormatIsFullDate(c: CivilDate)
    requires ValidCivil(c) && 1000 <= c.year <= 9999
    ensures FormatCivil(c) == FullDate(c)
  {
    NatToDecFixed(c.year, 4);
    Pad2Fixed(c.month);
    Pad2Fixed(c.day);
  }

  /** For every year, month and day are zero-padded two-digit fields after the year. */
  lemma FormatPaddedFields(c: CivilDate)
    requires ValidCivil(c)
    ensures FormatCivil(c) == IntToDec(c.year) + ("-" + Fixed(c.month, 2) + "-" + Fixed(c.day, 2))
  {
    Pad2Fixed(c.month);
    Pad2Fixed(c.day);
  }

  lemma SplitAtSuffix(y1: string, t1: string, y2: string, t2: string)
    requires |t1| == |t2| && y1 + t1 == y2 + t2
    ensures y1 == y2 && t1 == t2
  {
    assert (y1 + t1)[..|y1|] == y1;
    assert (y2 + t2)[..|y2|] == y2;
    assert (y1 + t1)[|y1|..] == t1;
    assert (y2 + t2)[|y2|..] == t2;
  }

  /** A year followed by dash-separated two-character fields splits back into its fields. */
  lemma SplitFields(ya: string, ma: string, da: string, yb: string, mb: string, db: string)
    requires |ma| == 2 && |mb| == 2 && |da| == 2 && |db| == 2
    requires ya + ("-" + ma + "-" + da) == yb + ("-" + mb + "-" + db)
    ensures ya == yb && ma == mb && da == db
  {
    var ta, tb := "-" + ma + "-" + da, "-" + mb + "-" + db;
    SplitAtSuffix(ya, ta, yb, tb);
    assert ta[1..3] == ma && tb[1..3] == mb;
    assert ta[4..] == da && tb[4..] == db;
  }

  lemma FormatCivilInjective(a: CivilDate, b: CivilDate)
    requires ValidCivil(a) && ValidCivil(b) && FormatCivil(a) == FormatCivil(b)
    ensures a == b
  {
    FormatPaddedFields(a);
    FormatPaddedFields(b);
    FixedValue(a.month, 2); FixedValue(a.day, 2);
    FixedValue(b.month, 2); FixedValue(b.day, 2);
    SplitFields(IntToDec(a.year), Fixed(a.month, 2), Fixed(a.day, 2), IntToDec(b.year), Fixed(b.month, 2), Fixed(b.day, 2));
    IntToDecInjective(a.year, b.year);
    FixedInjective(a.month, b.month, 2);
    FixedInjective(a.day, b.day, 2);
  }

  /** Strings of the shape Y-M-D with fields of equal widths compare field by field. */
  lemma LexDateParts(ya: string, ma: string, da: string, yb: string, mb: string, db: string)
    requires |ya| == |yb| && |ma| == |mb|
    ensures LexLess(ya + "-" + ma + "-" + da, yb + "-" + mb + "-" + db)
      <==> LexLess(ya, yb) || (ya == yb && (LexLess(ma, mb) || (ma == mb && LexLess(da, db))))
  {
    assert ya + "-" + ma + "-" + da == ya + ("-" + (ma + ("-" + da)));
    assert yb + "-" + mb + "-" + db == yb + ("-" + (mb + ("-" + db)));
    LexAppend(ya, yb, "-" + (ma + ("-" + da)), "-" + (mb + ("-" + db)));
    LexAppend("-", "-", ma + ("-" + da), mb + ("-" + db));
    LexAppend(ma, mb, "-" + da, "-" + db);
    LexAppend("-", "-", da, db);
  }

  /** Full-dates compare lexicographically exactly as the dates compare chronologically. */
  lemma FullDateLex(a: CivilDate, b: CivilDate)
    requires ValidCivil(a) && 0 <= a.year <= 9999 && ValidCivil(b) && 0 <= b.year <= 9999
    ensures LexLess(FullDate(a), FullDate(b)) <==> CivilLess(a, b)
  {
    assert Pow10(2) == 100 && Pow10(4) == 10000;
    var ya, yb := Fixed(a.year, 4), Fixed(b.year, 4);
    var ma, mb := Fixed(a.month, 2), Fixed(b.month, 2);
    var da, db := Fixed(a.day, 2), Fixed(b.day, 2);
    assert FullDate(a) == ya + "-" + ma + "-" + da;
    assert FullDate(b) == yb + "-" + mb + "-" + db;
    FixedValue(a.year, 4); FixedValue(b.year, 4);
    FixedValue(a.month, 2); FixedValue(b.month, 2);
    LexDateParts(ya, ma, da, yb, mb, db);
    FixedLex(a.year, b.year, 4);
    FixedLex(a.month, b.month, 2);
    FixedLex(a.day, b.day, 2);
    assert ya == yb <==> a.year == b.year;
    assert ma == mb <==> a.month == b.month;
  }

  /** `toISODateOnly` yields a 10-character `YYYY-MM-DD` for four-digit years. */
  lemma ISOShape(t: int)
    requires 1000 <= YearOfDay(DayOf(t)) <= 9999
    ensures |ToISODateOnly(t)| == 10 && IsFullDateShape(ToISODateOnly(t))
  {
    FormatIsFullDate(CivilFromDays(DayOf(t)));
  }

  /** Whatever the year, the month and the day are two zero-padded digits. */
  lemma ISOPaddedFields(t: int)
    ensures var c := CivilFromDays(DayOf(t));
      ToISODateOnly(t) == IntToDec(c.year) + "-" + Fixed(c.month, 2) + "-" + Fixed(c.day, 2)
  {
    FormatPaddedFields(CivilFromDays(DayOf(t)));
  }

  /** Day keys are injective: distinct days give distinct strings. */
  lemma DayKeyInjective(a: int, b: int)
    requires DayKey(a) == DayKey(b)
    ensures a == b
  {
    FormatCivilInjective(CivilFromDays(a), CivilFromDays(b));
  }

  /** Two instants give the same string exactly when they lie in the same UTC day. */
  lemma ISOEqualIffSameDay(t1: int, t2: int)
    ensures ToISODateOnly(t1) == ToISODateOnly(t2) <==> DayOf(t1) == DayOf(t2)
  {
    if ToISODateOnly(t1) == ToISODateOnly(t2) {
      DayKeyInjective(DayOf(t1), DayOf(t2));
    }
  }

  /** `String(n)` of a number of two or more digits does not start with '0'. */
  lemma {:induction false} NatToDecLeading(n: nat)
    requires n >= 10
    ensures NatToDec(n)[0] != '0'
  {
    if n / 10 >= 10 {
      NatToDecLeading(n / 10);
    }
  }

  lemma {:induction false} FixedLength(n: nat, w: nat)
    ensures |Fixed(n, w)| == w
  {
    if w > 0 {
      FixedLength(n / 10, w - 1);
    }
  }

  /** A number with fewer digits than the field is padded with a leading '0'. */
  lemma {:induction false} FixedLeadingZero(n: nat, w: nat)
    requires 1 <= w && n < Pow10(w - 1)
    ensures Fixed(n, w)[0] == '0'
  {
    if w == 1 {
      assert Fixed(n, 1) == Fixed(0, 0) + [DigitChar(0)];
    } else {
      FixedLength(n / 10, w - 1);
      FixedLeadingZero(n / 10, w - 1);
    }
  }

  /** A four-digit field starting with a non-zero digit denotes at least 1000. */
  lemma LeadingDigit(y: nat)
    requires y < 10000 && Fixed(y, 4)[0] != '0'
    ensures 1000 <= y
  {
    if y < 1000 {
      assert Pow10(3) == 1000;
      FixedLeadingZero(y, 4);
    }
  }

  /**
   * Parsing a valid full-date and formatting the instant again gives back the
   * string: always with the padded rendering, and with the unpadded one of
   * `toISODateOnly` exactly when the year does not start with '0'.
   */
  lemma ParseThenFormat(s: string)
    requires StartOfUTCDate(s).Some?
    ensures var t := StartOfUTCDate(s).value;
      0 <= YearOfDay(DayOf(t)) <= 9999
      && ToFullDate(t) == s
      && (ToISODateOnly(t) == s <==> s[0] != '0')
  {
    var c := FieldsOf(s);
    var t := StartOfUTCDate(s).value;
    DayOfMidnight(DaysFromCivil(c));
    CivilRoundTrip(c);
    assert CivilFromDays(DayOf(t)) == c;
    FullDateOfFields(s);
    FixedValue(c.year, 4);
    assert FullDate(c)[0] == Fixed(c.year, 4)[0];
    if s[0] != '0' {
      LeadingDigit(c.year);
      FormatIsFullDate(c);
    } else {
      FormatPaddedFields(c);
      var y := IntToDec(c.year);
      NatToDecValue(c.year);
      assert FormatCivil(c)[0] == y[0];
      if c.year >= 10 {
        NatToDecLeading(c.year);
      } else {
        assert y == [DigitChar(c.year)];
        if c.year == 0 {
          assert |FormatCivil(c)| == 7 by {
            assert |Fixed(c.month, 2)| == 2 by { FixedValue(c.month, 2); }
            assert |Fixed(c.day, 2)| == 2 by { FixedValue(c.day, 2); }
          }
        }
      }
    }
  }

  /** Formatting a day of a year 0..9999 as full-date and parsing it gives its UTC midnight. */
  lemma FullDateRoundTrip(t: int)
    requires 0 <= YearOfDay(DayOf(t)) <= 9999
    ensures StartOfUTCDate(ToFullDate(t)) == Some(StartOfDay(t))
  {
  }

  /** `startOfUTCDate(toISODateOnly(t))` is `t` truncated to UTC midnight, for four-digit years. */
  lemma ISORoundTrip(t: int)
    requires 1000 <= YearOfDay(DayOf(t)) <= 9999
    ensures StartOfUTCDate(ToISODateOnly(t)) == Some(StartOfDay(t))
  {
    FormatIsFullDate(CivilFromDays(DayOf(t)));
  }

  /** Consecutive UTC days' midnights, parsed from their keys, differ by exactly 86400000. */
  lemma ConsecutiveMidnights(d: int)
    requires 1000 <= YearOfDay(d) && YearOfDay(d + 1) <= 9999
    ensures StartOfUTCDate(DayKey(d)).Some? && StartOfUTCDate(DayKey(d + 1)).Some?
    ensures StartOfUTCDate(DayKey(d + 1)).value - StartOfUTCDate(DayKey(d)).value == 86400000
  {
    CivilOrder(CivilFromDays(d), CivilFromDays(d + 1));
    DayOfMidnight(d);
    DayOfMidnight(d + 1);
    ISORoundTrip(d * 86400000);
    ISORoundTrip((d + 1) * 86400000);
  }

  /** Full-dates of years 0..9999 sort lexicographically in chronological order. */
  lemma FullDateOrder(t1: int, t2: int)
    requires 0 <= YearOfDay(DayOf(t1)) <= 9999 && 0 <= YearOfDay(DayOf(t2)) <= 9999
    ensures LexLess(ToFullDate(t1), ToFullDate(t2)) <==> DayOf(t1) < DayOf(t2)
  {
    var a, b := CivilFromDays(DayOf(t1)), CivilFromDays(DayOf(t2));
    CivilOrder(a, b);
    FullDateLex(a, b);
  }

  /** For four-digit years the source's keys sort lexicographically in chronological order. */
  lemma ISOOrder(t1: int, t2: int)
    requires 1000 <= YearOfDay(DayOf(t1)) <= 9999 && 1000 <= YearOfDay(DayOf(t2)) <= 9999
    ensures LexLess(ToISODateOnly(t1), ToISODateOnly(t2)) <==> DayOf(t1) < DayOf(t2)
  {
    FormatIsFullDate(CivilFromDays(DayOf(t1)));
    FormatIsFullDate(CivilFromDays(DayOf(t2)));
    FullDateOrder(t1, t2);
  }

  /**
   * As written, `toISODateOnly` does not pad the year: 0999-12-31 comes before
   * 1000-01-01, yet its rendering "999-12-31" sorts after "1000-01-01", and it
   * is not a full-date that `startOfUTCDate` accepts.
   */
  lemma UnpaddedYearMisorders()
    ensures var a, b := CivilDate(999, 12, 31), CivilDate(1000, 1, 1);
      ValidCivil(a) && ValidCivil(b) && CivilLess(a, b)
      && FormatCivil(a) == "999-12-31" && FormatCivil(b) == "1000-01-01"
      && LexLess(FormatCivil(b), FormatCivil(a)) && !LexLess(FormatCivil(a), FormatCivil(b))
      && StartOfUTCDate(FormatCivil(a)).None?
  {
    FormatLastOf999();
    FormatFirstOf1000();
    var x, y := "999-12-31", "1000-01-01";
    assert x[0] == '9' && y[0] == '1';
    assert |x| == 9;
  }

  lemma FormatLastOf999()
    ensures ValidCivil(CivilDate(999, 12, 31)) && FormatCivil(CivilDate(999, 12, 31)) == "999-12-31"
  {
    assert NatToDec(999) == "999" by {
      assert NatToDec(9) == "9";
      assert NatToDec(99) == NatToDec(9) + "9";
    }
    assert NatToDec(12) == "12" by { assert NatToDec(1) == "1"; }
    assert NatToDec(31) == "31" by { assert NatToDec(3) == "3"; }
  }

  lemma FormatFirstOf1000()
    ensures ValidCivil(CivilDate(1000, 1, 1)) && FormatCivil(CivilDate(1000, 1, 1)) == "1000-01-01"
  {
    assert NatToDec(1000) == "1000" by {
      assert NatToDec(1) == "1";
      assert NatToDec(10) == NatToDec(1) + "0";
      assert NatToDec(100) == NatToDec(10) + "0";
    }
    assert NatToDec(1) == "1";
  }

  // Keys of day numbers, as the streak engine uses them

  /** A day whose year has exactly four digits, the only years whose keys `startOfUTCDate` accepts. */
  predicate FourDigitYear(d: int)
  {
    1000 <= YearOfDay(d) <= 9999
  }

  /** `toISODateOnly` of an invalid Date: every getter yields NaN. */
  const InvalidDateKey: string := "NaN-NaN-NaN"

  /** `toISODateOnly` of a Date that may be invalid (`None`). */
  function KeyOfDate(t: Option<int>): string
  {
    match t
    case None => InvalidDateKey
    case Some(ms) => ToISODateOnly(ms)
  }

  /** The key of a day's midnight is the day's key. */
  lemma KeyOfMidnight(d: int)
    ensures KeyOfDate(Some(d * 86400000)) == DayKey(d)
  {
    DayOfMidnight(d);
  }

  /** Parsing the key of a four-digit-year day gives that day's midnight. */
  lemma KeyRoundTrip(d: int)
    requires FourDigitYear(d)
    ensures StartOfUTCDate(DayKey(d)) == Some(d * 86400000)
  {
    DayOfMidnight(d);
    ISORoundTrip(d * 86400000);
  }

  /** Keys of four-digit-year days sort lexicographically in day order. */
  lemma KeyOrder(a: int, b: int)
    requires FourDigitYear(a) && FourDigitYear(b)
    ensures LexLess(DayKey(a), DayKey(b)) <==> a < b
  {
    DayOfMidnight(a);
    DayOfMidnight(b);
    ISOOrder(a * 86400000, b * 86400000);
  }

  lemma {:induction false} NatToDecLength(n: nat, w: nat)
    ensures 1 <= w && n < Pow10(w) ==> |NatToDec(n)| <= w
    ensures n >= Pow10(w) ==> |NatToDec(n)| > w
    decreases n
  {
    if n >= 10 && w >= 1 {
      NatToDecLength(n / 10, w - 1);
    } else if w >= 1 {
      Pow10AtLeast(w - 1);
    }
  }

  lemma {:induction false} Pow10AtLeast(w: nat)
    ensures Pow10(w) >= 1
  {
    if w > 0 {
      Pow10AtLeast(w - 1);
    }
  }

  /** The key of a day outside the four-digit years is never a full-date. */
  lemma KeyOutsideRejected(d: int)
    requires !FourDigitYear(d)
    ensures StartOfUTCDate(DayKey(d)) == None
  {
    var c := CivilFromDays(d);
    FormatPaddedFields(c);
    FixedValue(c.month, 2);
    FixedValue(c.day, 2);
    var s := DayKey(d);
    assert s == IntToDec(c.year) + ("-" + Fixed(c.month, 2) + "-" + Fixed(c.day, 2));
    if c.year < 0 {
      IntToDecHead(c.year);
      if |s| == 10 {
        assert s[..4][0] == '-';
      }
    } else if c.year < 1000 {
      NatToDecLength(c.year, 3);
    } else {
      NatToDecLength(c.year, 4);
    }
  }

  /** No day's key is the key of an invalid Date. */
  lemma KeyNotInvalid(d: int)
    ensures DayKey(d) != InvalidDateKey
  {
    var c := CivilFromDays(d);
    IntToDecHead(c.year);
    NatToDecValue(if c.year < 0 then -c.year else c.year);
    assert DayKey(d)[0] == IntToDec(c.year)[0];
  }
}
