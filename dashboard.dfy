/**
 * The dashboard's pure aggregation logic: the short date label, the window
 * of day keys ending at a base day, today's count of one habit, its progress
 * fraction, and the per-day overview series across the active habits.
 */
module Dashboard {

  import opened Wrappers
  import Date

  // ---------------------------------------------------------------------------
  // fmtShort

  /** `s.split("-")`. */
  function Split(s: string): (parts: seq<string>)
    ensures |parts| >= 1
  {
    if s == [] then [""]
    else
      var rest := Split(s[1..]);
      if s[0] == '-' then [""] + rest else [[s[0]] + rest[0]] + rest[1..]
  }

  lemma {:induction false} SplitJoin(a: string, b: string)
    requires '-' !in a
    ensures Split(a + "-" + b) == [a] + Split(b)
  {
    var s := a + "-" + b;
    if a == [] {
      assert s[0] == '-' && s[1..] == b;
    } else {
      assert s[0] == a[0] && s[1..] == a[1..] + "-" + b;
      SplitJoin(a[1..], b);
      assert [a[0]] + a[1..] == a;
    }
  }

  lemma {:induction false} SplitPlain(a: string)
    requires '-' !in a
    ensures Split(a) == [a]
  {
    if a != [] {
      assert a[0] != '-';
      SplitPlain(a[1..]);
      assert [a[0]] + a[1..] == a;
    }
  }

  lemma DigitsHaveNoDash(s: string)
    requires Date.AllDigits(s)
    ensures '-' !in s
  {
  }

  /** What a template literal shows for a missing destructured element. */
  const Undefined: string := "undefined"

  function Part(parts: seq<string>, i: nat): string
  {
    if i < |parts| then parts[i] else Undefined
  }

  /** `fmtShort(iso)`: the third and second `-`-separated fields, joined by '.'. */
  function FmtShort(iso: string): string
  {
    var parts := Split(iso);
    Part(parts, 2) + "." + Part(parts, 1)
  }

  /** Three dash-free fields joined by dashes give the third and second, joined by '.'. */
  lemma FmtShortOfFields(y: string, m: string, dd: string)
    requires '-' !in y && '-' !in m && '-' !in dd
    ensures FmtShort(y + "-" + (m + "-" + dd)) == dd + "." + m
  {
    SplitJoin(y, m + "-" + dd);
    SplitJoin(m, dd);
    SplitPlain(dd);
  }

  /** The key of a day of a non-negative year is its year, padded month and padded day, dash-separated. */
  lemma KeyFields(d: int)
    requires Date.YearOfDay(d) >= 0
    ensures var c := Date.CivilFromDays(d);
      Date.DayKey(d) == Date.NatToDec(c.year) + "-" + (Date.Fixed(c.month, 2) + "-" + Date.Fixed(c.day, 2))
  {
    var c := Date.CivilFromDays(d);
    Date.FormatPaddedFields(c);
  }

  /** None of those three fields contains a dash. */
  lemma FieldsDashFree(c: Date.CivilDate)
    requires Date.ValidCivil(c) && c.year >= 0
    ensures '-' !in Date.NatToDec(c.year) && '-' !in Date.Fixed(c.month, 2) && '-' !in Date.Fixed(c.day, 2)
  {
    Date.NatToDecValue(c.year);
    Date.FixedValue(c.month, 2);
    Date.FixedValue(c.day, 2);
    DigitsHaveNoDash(Date.NatToDec(c.year));
    DigitsHaveNoDash(Date.Fixed(c.month, 2));
    DigitsHaveNoDash(Date.Fixed(c.day, 2));
  }

  /** On the key of a day of a non-negative year, `fmtShort` gives "DD.MM". */
  lemma FmtShortOfKey(d: int)
    requires Date.YearOfDay(d) >= 0
    ensures var c := Date.CivilFromDays(d);
      FmtShort(Date.DayKey(d)) == Date.Fixed(c.day, 2) + "." + Date.Fixed(c.month, 2)
  {
    var c := Date.CivilFromDays(d);
    KeyFields(d);
    FieldsDashFree(c);
    FmtShortOfFields(Date.NatToDec(c.year), Date.Fixed(c.month, 2), Date.Fixed(c.day, 2));
  }

  // ---------------------------------------------------------------------------
  // daysBackISO

  /** The key of the day `i` days before `base`; an invalid base gives the invalid key. */
  function KeyBack(base: Option<int>, i: int): string
  {
    Date.KeyOfDate(if base.Some? then Some(base.value - i * 86400000) else None)
  }

  /** The `i`-th element of `s` counted from its end, the last one being the 0th. */
  function FromEnd(s: seq<string>, i: int): string
    requires 0 <= i < |s|
  {
    s[|s| - 1 - i]
  }

  /**
   * `keys` are the `n` keys ending at `base`, oldest first: the `i`-th key
   * from the end is the key of the day `i` days before the base.
   */
  predicate IsDaysBack(keys: seq<string>, n: int, base: Option<int>)
  {
    |keys| == (if n > 0 then n else 0)
    && forall i :: 0 <= i < |keys| ==> FromEnd(keys, i) == KeyBack(base, i)
  }

  /** `daysBackISO(n, baseIso)`, the base given explicitly. */
  method DaysBackISO(n: int, baseIso: string) returns (out: seq<string>)
    ensures IsDaysBack(out, n, Date.StartOfUTCDate(baseIso))
  {
    out := [];
    var base := Date.StartOfUTCDate(baseIso);
    var i := n - 1;
    while i >= 0
      invariant if n > 0 then -1 <= i <= n - 1 else i == n - 1
      invariant |out| == n - 1 - i
      invariant forall m :: i < m < n ==> out[n - 1 - m] == KeyBack(base, m)
    {
      out := out + [KeyBack(base, i)];
      i := i - 1;
    }
  }

  predicate Distinct(s: seq<string>)
  {
    forall i, j :: 0 <= i < j < |s| ==> s[i] != s[j]
  }

  /** The `n` days ending at `day` all have four-digit years. */
  predicate InFourDigitYears(day: int, n: int)
  {
    forall d :: day - n < d <= day ==> Date.FourDigitYear(d)
  }

  /** `keys` are the keys of consecutive days ending at `day`. */
  predicate KeysEndingAt(keys: seq<string>, day: int)
  {
    forall i :: 0 <= i < |keys| ==> FromEnd(keys, i) == Date.DayKey(day - i)
  }

  lemma KeyBackOfMidnight(t: int, i: int)
    ensures KeyBack(Some(t), i) == Date.DayKey(Date.DayOf(t) - i)
  {
    var u := t - i * 86400000;
    assert KeyBack(Some(t), i) == Date.ToISODateOnly(u);
    Date.DayShift(t, i);
    assert Date.DayOf(u) == Date.DayOf(t) - i;
  }

  lemma KeyIsDayKey(x: string, t: int, i: int)
    requires x == KeyBack(Some(t), i)
    ensures x == Date.DayKey(Date.DayOf(t) - i)
  {
    KeyBackOfMidnight(t, i);
  }

  lemma DaysBackKeys(keys: seq<string>, n: int, t: int)
    requires IsDaysBack(keys, n, Some(t))
    ensures KeysEndingAt(keys, Date.DayOf(t))
  {
    forall i | 0 <= i < |keys| ensures FromEnd(keys, i) == Date.DayKey(Date.DayOf(t) - i) {
      KeyIsDayKey(FromEnd(keys, i), t, i);
    }
  }

  lemma ParseKey(x: string, d: int)
    requires x == Date.DayKey(d) && Date.FourDigitYear(d)
    ensures Date.StartOfUTCDate(x) == Some(d * 86400000)
  {
    Date.KeyRoundTrip(d);
  }

  lemma OrderKeys(x: string, y: string, a: int, b: int)
    requires x == Date.DayKey(a) && y == Date.DayKey(b) && Date.FourDigitYear(a) && Date.FourDigitYear(b) && a < b
    ensures Date.LexLess(x, y)
  {
    Date.KeyOrder(a, b);
  }

  /** The key `i` days back is the key of the day `d = day - i`, which has a four-digit year. */
  lemma KeyAt(keys: seq<string>, day: int, n: int, i: int, d: int)
    requires KeysEndingAt(keys, day) && 0 <= i < |keys| && InFourDigitYears(day, n) && |keys| <= n
    requires d == day - i
    ensures FromEnd(keys, i) == Date.DayKey(d) && Date.FourDigitYear(d)
  {
  }

  lemma ParseAt(keys: seq<string>, day: int, n: int, i: int, d: int, m: int)
    requires KeysEndingAt(keys, day) && 0 <= i < |keys| && InFourDigitYears(day, n) && |keys| <= n
    requires d == day - i && m == d * 86400000
    ensures Date.StartOfUTCDate(FromEnd(keys, i)) == Some(m)
  {
    KeyAt(keys, day, n, i, d);
    ParseKey(FromEnd(keys, i), d);
  }

  lemma OrderAt(keys: seq<string>, day: int, n: int, a: int, b: int)
    requires KeysEndingAt(keys, day) && 0 <= a < b < |keys| && InFourDigitYears(day, n) && |keys| <= n
    ensures Date.LexLess(FromEnd(keys, b), FromEnd(keys, a))
  {
    var da, db := day - b, day - a;
    KeyAt(keys, day, n, b, da);
    KeyAt(keys, day, n, a, db);
    OrderKeys(FromEnd(keys, b), FromEnd(keys, a), da, db);
  }

  /** Keys that ascend counted from the end ascend counted from the start. */
  lemma AscendingFromEnd(keys: seq<string>)
    requires forall a, b :: 0 <= a < b < |keys| ==> Date.LexLess(FromEnd(keys, b), FromEnd(keys, a))
    ensures forall i, j :: 0 <= i < j < |keys| ==> Date.LexLess(keys[i], keys[j])
  {
    forall i, j | 0 <= i < j < |keys| ensures Date.LexLess(keys[i], keys[j]) {
      var a, b := |keys| - 1 - j, |keys| - 1 - i;
      assert FromEnd(keys, b) == keys[i] && FromEnd(keys, a) == keys[j];
    }
  }

  lemma AscendingDistinct(keys: seq<string>)
    requires forall i, j :: 0 <= i < j < |keys| ==> Date.LexLess(keys[i], keys[j])
    ensures Distinct(keys)
  {
    forall i, j | 0 <= i < j < |keys| ensures keys[i] != keys[j] {
      Date.LexIrreflexive(keys[i]);
    }
  }

  /** The key of the base's own day is the base string, when its year has four digits. */
  lemma LastKeyIsBase(baseIso: string)
    requires Date.StartOfUTCDate(baseIso).Some?
    requires Date.FourDigitYear(Date.DayOf(Date.StartOfUTCDate(baseIso).value))
    ensures Date.DayKey(Date.DayOf(Date.StartOfUTCDate(baseIso).value)) == baseIso
  {
    var t := Date.StartOfUTCDate(baseIso).value;
    Date.ParseThenFormat(baseIso);
    Date.FormatIsFullDate(Date.CivilFromDays(Date.DayOf(t)));
  }

  /**
   * On a base midnight `t` whose window lies in four-digit years, the key
   * `i` days back parses to the midnight `i` days before `t`.
   */
  lemma DaysBackParse(keys: seq<string>, n: int, t: int)
    requires IsDaysBack(keys, n, Some(t)) && t % 86400000 == 0
    requires InFourDigitYears(Date.DayOf(t), n)
    ensures forall i :: 0 <= i < |keys| ==> Date.StartOfUTCDate(FromEnd(keys, i)) == Some(t - i * 86400000)
  {
    var day := Date.DayOf(t);
    Date.MidnightOfDay(t);
    DaysBackKeys(keys, n, t);
    forall i | 0 <= i < |keys|
      ensures Date.StartOfUTCDate(FromEnd(keys, i)) == Some(t - i * 86400000)
    {
      ParseAt(keys, day, n, i, day - i, t - i * 86400000);
    }
  }

  /**
   * On a base whose window lies in four-digit years, the keys ascend
   * strictly in string order, hence are distinct.
   */
  lemma DaysBackAscending(keys: seq<string>, n: int, t: int)
    requires IsDaysBack(keys, n, Some(t))
    requires InFourDigitYears(Date.DayOf(t), n)
    ensures forall i, j :: 0 <= i < j < |keys| ==> Date.LexLess(keys[i], keys[j])
    ensures Distinct(keys)
  {
    var day := Date.DayOf(t);
    DaysBackKeys(keys, n, t);
    forall a, b | 0 <= a < b < |keys| ensures Date.LexLess(FromEnd(keys, b), FromEnd(keys, a)) {
      OrderAt(keys, day, n, a, b);
    }
    AscendingFromEnd(keys);
    AscendingDistinct(keys);
  }

  /** The last of the keys is the key of the base's own day. */
  lemma LastKey(keys: seq<string>, n: int, t: int)
    requires IsDaysBack(keys, n, Some(t)) && n >= 1
    ensures keys[n - 1] == Date.DayKey(Date.DayOf(t))
  {
    assert FromEnd(keys, 0) == keys[n - 1];
    KeyIsDayKey(FromEnd(keys, 0), t, 0);
  }

  /** On a valid base of a four-digit year, the last key is the base string itself. */
  lemma DaysBackEndsAtBase(keys: seq<string>, n: int, baseIso: string)
    requires IsDaysBack(keys, n, Date.StartOfUTCDate(baseIso))
    requires Date.StartOfUTCDate(baseIso).Some?
    requires Date.FourDigitYear(Date.DayOf(Date.StartOfUTCDate(baseIso).value))
    ensures n >= 1 ==> keys[n - 1] == baseIso
  {
    if n >= 1 {
      LastKey(keys, n, Date.StartOfUTCDate(baseIso).value);
      LastKeyIsBase(baseIso);
    }
  }

  // ---------------------------------------------------------------------------
  // todayCountFromCheckins and todayPercent

  /** A check-in as the client receives it: the date as a timestamp string, the count possibly missing. */
  datatype ClientCheckin = ClientCheckin(date: string, count: Option<int>)

  /** `s.slice(0, 10)`. */
  function Prefix10(s: string): string
  {
    if |s| <= 10 then s else s[..10]
  }

  /** `c.count ?? 0`. */
  function CountOrZero(c: ClientCheckin): int
  {
    if c.count.Some? then c.count.value else 0
  }

  /** No check-in before position `i` is dated `isoDate`. */
  predicate FirstOnDate(cs: seq<ClientCheckin>, isoDate: string, i: int)
  {
    forall j :: 0 <= j < i && j < |cs| ==> Prefix10(cs[j].date) != isoDate
  }

  /** The count of the first check-in whose date starts with `isoDate`, else 0. */
  function FirstCount(cs: seq<ClientCheckin>, isoDate: string): (r: int)
    ensures (forall i :: 0 <= i < |cs| ==> Prefix10(cs[i].date) != isoDate) ==> r == 0
    ensures forall i :: 0 <= i < |cs| && Prefix10(cs[i].date) == isoDate && FirstOnDate(cs, isoDate, i) ==> r == CountOrZero(cs[i])
  {
    if cs == [] then 0
    else if Prefix10(cs[0].date) == isoDate then CountOrZero(cs[0])
    else
      var r := FirstCount(cs[1..], isoDate);
      assert forall i :: 1 <= i < |cs| ==> cs[i] == cs[1..][i - 1];
      r
  }

  /** `todayCountFromCheckins(checkins, isoDate)`; a missing list counts as empty. */
  function TodayCountFromCheckins(checkins: Option<seq<ClientCheckin>>, isoDate: string): (r: int)
    ensures checkins.None? ==> r == 0
    ensures checkins.Some? && (forall i :: 0 <= i < |checkins.value| ==> Prefix10(checkins.value[i].date) != isoDate) ==> r == 0
    ensures checkins.Some? ==> forall i ::
      (0 <= i < |checkins.value| && Prefix10(checkins.value[i].date) == isoDate && FirstOnDate(checkins.value, isoDate, i))
      ==> r == CountOrZero(checkins.value[i])
  {
    if checkins.None? then 0 else FirstCount(checkins.value, isoDate)
  }

  /**
   * `todayPercent(count, target)`: `count / t` capped at 1, where `t` is the
   * target, or 1 when the target is 0 or not a number (None).
   */
  function TodayPercent(count: int, target: Option<int>): (p: real)
    ensures p <= 1.0
    ensures var t := if target.None? || target.value == 0 then 1 else target.value;
      t > 0 ==> (p == 1.0 <==> count >= t) && (count < t ==> p * t as real == count as real)
    ensures (target.None? || target.value >= 0) && count >= 0 ==> 0.0 <= p
  {
    var t := if target.None? || target.value == 0 then 1 else target.value;
    var q := count as real / t as real;
    if q < 1.0 then q else 1.0
  }

  // ---------------------------------------------------------------------------
  // buildOverviewSeries

  datatype ClientHabit = ClientHabit(id: string, targetPerDay: int)

  /** One point of the overview chart. */
  datatype SeriesPoint = SeriesPoint(date: string, done: int, total: int, perfect: bool)

  /** The habit's check-ins, `checkinsByHabit[h.id] || []`. */
  function ListOf(byHabit: map<string, seq<ClientCheckin>>, id: string): seq<ClientCheckin>
  {
    if id in byHabit then byHabit[id] else []
  }

  /** The habit's `doneSet`: date prefixes of its check-ins whose count reached the target. */
  function DoneDates(list: seq<ClientCheckin>, target: int): set<string>
  {
    set c | c in list && CountOrZero(c) >= target :: Prefix10(c.date)
  }

  predicate DoneOn(h: ClientHabit, byHabit: map<string, seq<ClientCheckin>>, d: string)
  {
    d in DoneDates(ListOf(byHabit, h.id), h.targetPerDay)
  }

  /** How many of the habits are done on `d`. */
  function HabitsDone(hs: seq<ClientHabit>, byHabit: map<string, seq<ClientCheckin>>, d: string): nat
  {
    if |hs| == 0 then 0
    else HabitsDone(hs[..|hs| - 1], byHabit, d) + (if DoneOn(hs[|hs| - 1], byHabit, d) then 1 else 0)
  }

  /** How many times `d` occurs in `ds`. */
  function Occurrences(ds: seq<string>, d: string): nat
  {
    if |ds| == 0 then 0
    else Occurrences(ds[..|ds| - 1], d) + (if ds[|ds| - 1] == d then 1 else 0)
  }

  /** What the counter of `d` holds after the habits `hs`: each done habit adds one per occurrence of `d`. */
  function Tally(hs: seq<ClientHabit>, byHabit: map<string, seq<ClientCheckin>>, dates: seq<string>, d: string): nat
  {
    if |hs| == 0 then 0
    else Tally(hs[..|hs| - 1], byHabit, dates, d) + (if DoneOn(hs[|hs| - 1], byHabit, d) then Occurrences(dates, d) else 0)
  }

  lemma {:induction false} TallyIsProduct(hs: seq<ClientHabit>, byHabit: map<string, seq<ClientCheckin>>, dates: seq<string>, d: string)
    ensures Tally(hs, byHabit, dates, d) == Occurrences(dates, d) * HabitsDone(hs, byHabit, d)
  {
    if |hs| > 0 {
      TallyIsProduct(hs[..|hs| - 1], byHabit, dates, d);
    }
  }

  /**
   * The inner loop of `buildOverviewSeries`: every listed date in the done
   * set adds one to its counter, once per time it is listed.
   */
  method AddDoneDates(totals: map<string, int>, dates: seq<string>, doneSet: set<string>) returns (next: map<string, int>)
    requires forall d :: d in totals <==> d in dates
    ensures forall d :: d in next <==> d in dates
    ensures forall d :: d in next ==> next[d] == totals[d] + (if d in doneSet then Occurrences(dates, d) else 0)
  {
    next := totals;
    var j := 0;
    while j < |dates|
      invariant 0 <= j <= |dates|
      invariant forall d :: d in next <==> d in dates
      invariant forall d :: d in next ==>
        next[d] == totals[d] + (if d in doneSet then Occurrences(dates[..j], d) else 0)
    {
      var d := dates[j];
      assert dates[..j + 1][..j] == dates[..j];
      if d in doneSet {
        next := next[d := next[d] + 1];
      }
      j := j + 1;
    }
    assert dates[..j] == dates;
  }

  /**
   * `buildOverviewSeries({dates, activeHabits, checkinsByHabit})`: empty
   * without active habits; otherwise one point per date, labelled with
   * `fmtShort`, whose `done` is the number of habits done that day times the
   * number of times the date is listed, and `perfect` iff `done == total`.
   */
  method BuildOverviewSeries(dates: seq<string>, activeHabits: seq<ClientHabit>, checkinsByHabit: map<string, seq<ClientCheckin>>)
    returns (series: seq<SeriesPoint>)
    ensures |activeHabits| == 0 ==> series == []
    ensures |activeHabits| > 0 ==> |series| == |dates|
    ensures |activeHabits| > 0 ==> forall k :: 0 <= k < |dates| ==>
      var done := Occurrences(dates, dates[k]) * HabitsDone(activeHabits, checkinsByHabit, dates[k]);
      series[k] == SeriesPoint(FmtShort(dates[k]), done, |activeHabits|, done == |activeHabits|)
  {
    var total := |activeHabits|;
    var totalByDate: map<string, int> := map d | d in dates :: 0;
    if total == 0 {
      return [];
    }
    var hi := 0;
    while hi < |activeHabits|
      invariant 0 <= hi <= |activeHabits|
      invariant forall d :: d in totalByDate <==> d in dates
      invariant forall d :: d in totalByDate ==> totalByDate[d] == Tally(activeHabits[..hi], checkinsByHabit, dates, d)
    {
      var h := activeHabits[hi];
      var doneSet := DoneDates(ListOf(checkinsByHabit, h.id), h.targetPerDay);
      totalByDate := AddDoneDates(totalByDate, dates, doneSet);
      assert activeHabits[..hi + 1][..hi] == activeHabits[..hi];
      hi := hi + 1;
    }
    assert activeHabits[..hi] == activeHabits;
    forall d | d in dates
      ensures totalByDate[d] == Occurrences(dates, d) * HabitsDone(activeHabits, checkinsByHabit, d)
    {
      TallyIsProduct(activeHabits, checkinsByHabit, dates, d);
    }
    series := seq(|dates|, k requires 0 <= k < |dates| =>
      var done := totalByDate[dates[k]];
      SeriesPoint(FmtShort(dates[k]), done, total, done == total));
  }

  /** Between none and all of the habits are done on a day, and all exactly when each one is. */
  lemma {:induction false} HabitsDoneBounds(hs: seq<ClientHabit>, byHabit: map<string, seq<ClientCheckin>>, d: string)
    ensures HabitsDone(hs, byHabit, d) <= |hs|
    ensures HabitsDone(hs, byHabit, d) == |hs| <==> forall i :: 0 <= i < |hs| ==> DoneOn(hs[i], byHabit, d)
  {
    if |hs| > 0 {
      var init := hs[..|hs| - 1];
      HabitsDoneBounds(init, byHabit, d);
      assert forall i :: 0 <= i < |init| ==> init[i] == hs[i];
    }
  }

  /** A date listed once is counted once. */
  lemma {:induction false} OccursOnce(ds: seq<string>, k: nat)
    requires Distinct(ds) && k < |ds|
    ensures Occurrences(ds, ds[k]) == 1
  {
    var init := ds[..|ds| - 1];
    assert forall i :: 0 <= i < |init| ==> init[i] == ds[i];
    if k < |ds| - 1 {
      OccursOnce(init, k);
    } else {
      Absent(init, ds[k]);
    }
  }

  lemma {:induction false} Absent(ds: seq<string>, d: string)
    requires forall i :: 0 <= i < |ds| ==> ds[i] != d
    ensures Occurrences(ds, d) == 0
  {
    if |ds| > 0 {
      var init := ds[..|ds| - 1];
      assert forall i :: 0 <= i < |init| ==> init[i] == ds[i];
      Absent(init, d);
    }
  }

  /**
   * On distinct dates, such as those of `daysBackISO`, a point's `done` is
   * the number of active habits done that day: between 0 and `total`, and
   * equal to `total` exactly when every habit is done.
   */
  lemma DistinctDatesCount(dates: seq<string>, hs: seq<ClientHabit>, byHabit: map<string, seq<ClientCheckin>>, k: nat)
    requires Distinct(dates) && k < |dates|
    ensures var done := Occurrences(dates, dates[k]) * HabitsDone(hs, byHabit, dates[k]);
      done == HabitsDone(hs, byHabit, dates[k]) && 0 <= done <= |hs|
      && (done == |hs| <==> forall i :: 0 <= i < |hs| ==> DoneOn(hs[i], byHabit, dates[k]))
  {
    OccursOnce(dates, k);
    HabitsDoneBounds(hs, byHabit, dates[k]);
  }
}
