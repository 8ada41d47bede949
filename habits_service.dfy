/**
 * The habit service: the per-day check-in counter and the stats of a habit.
 *
 * The check-in table is a sequence of records. A check-in finds the record of
 * the habit inside the UTC day `[dayStart, dayStart + 86400000)` and either
 * creates it with count 1 or increments it; an un-check-in decrements it and
 * deletes it when the count would drop to zero. The functions below state
 * each step on values; the class `Store` performs them on its fields.
 */
module HabitsService {

  import opened Wrappers
  import opened Records
  import Date
  import Numbers
  import CheckinRepo
  import Streaks

  type Bounds = CheckinRepo.Bounds

  // ---------------------------------------------------------------------------
  // Day bounds

  /** JavaScript truthiness of an optional string: present and non-empty. */
  predicate Given(s: Option<string>)
  {
    s.Some? && s.value != ""
  }

  /**
   * `dayBoundsUTC(dateStr)`: the base instant is the midnight `dateStr` names,
   * or `now` when no date is given, and the day is rebuilt from its UTC fields
   * with `Date.UTC`, which reads the years 0..99 as 1900..1999. A string that
   * is not a calendar date gives an invalid Date, here None.
   */
  function DayBounds(dateStr: Option<string>, now: int): (r: Option<Bounds>)
    ensures r.Some? ==> r.value.dayStart % 86400000 == 0 && r.value.nextDay == r.value.dayStart + 86400000
    ensures !Given(dateStr) ==> r.Some?
    ensures !Given(dateStr) && !Date.TwoDigitYear(now) ==> r.value.dayStart <= now < r.value.nextDay
    ensures Given(dateStr) ==> (r.Some? <==> Date.StartOfUTCDate(dateStr.value).Some?)
    ensures Given(dateStr) && r.Some? && !Date.TwoDigitYear(Date.StartOfUTCDate(dateStr.value).value)
      ==> r.value.dayStart == Date.StartOfUTCDate(dateStr.value).value
  {
    var base := if Given(dateStr) then Date.StartOfUTCDate(dateStr.value) else Some(now);
    if base.None? then None
    else
      var dayStart := Date.UTCMidnight(base.value);
      assert Given(dateStr) && !Date.TwoDigitYear(base.value) ==> dayStart == base.value by {
        if Given(dateStr) {
          Date.MidnightOfDay(base.value);
        }
      }
      Some(CheckinRepo.Bounds(dayStart, dayStart + 86400000))
  }

  /**
   * For a base instant in years 0..99 the bounds are those of the same month
   * and day 1900 years later (when that date exists), never of the base's own day.
   */
  lemma DayBoundsTwoDigitYear(dateStr: Option<string>, now: int)
    requires DayBounds(dateStr, now).Some?
    requires var base := if Given(dateStr) then Date.StartOfUTCDate(dateStr.value).value else now;
      Date.TwoDigitYear(base)
    ensures var base := if Given(dateStr) then Date.StartOfUTCDate(dateStr.value).value else now;
      var c := Date.CivilFromDays(Date.DayOf(base));
      var b := DayBounds(dateStr, now).value;
      b.dayStart > Date.StartOfDay(base)
      && (Date.ValidCivil(Date.CivilDate(1900 + c.year, c.month, c.day)) ==>
            b.dayStart == Date.DaysFromCivil(Date.CivilDate(1900 + c.year, c.month, c.day)) * 86400000)
  {
    var base := if Given(dateStr) then Date.StartOfUTCDate(dateStr.value).value else now;
    Date.UTCMidnightTwoDigit(base);
  }

  /** The bounds of a given date string of a year from 100 on enclose exactly the day it names. */
  lemma DayBoundsNameTheDay(s: string, now: int)
    requires s != "" && DayBounds(Some(s), now).Some?
    requires !Date.TwoDigitYear(Date.StartOfUTCDate(s).value)
    ensures var t := DayBounds(Some(s), now).value.dayStart;
      0 <= Date.YearOfDay(Date.DayOf(t)) <= 9999 && Date.ToFullDate(t) == s
      && (s[0] != '0' ==> Date.ToISODateOnly(t) == s)
  {
    Date.ParseThenFormat(s);
  }

  /**
   * The day bounds `dayBoundsUTC` evidently means: the midnight of the day
   * `dateStr` names, or of the day of `now`, with no change of year.
   */
  function NamedDayBounds(dateStr: Option<string>, now: int): (r: Option<Bounds>)
    ensures r.Some? ==> r.value.dayStart % 86400000 == 0 && r.value.nextDay == r.value.dayStart + 86400000
    ensures !Given(dateStr) ==> r.Some? && r.value.dayStart <= now < r.value.nextDay
    ensures Given(dateStr) ==> (r.Some? <==> Date.StartOfUTCDate(dateStr.value).Some?)
    ensures Given(dateStr) && r.Some? ==> r.value.dayStart == Date.StartOfUTCDate(dateStr.value).value
  {
    var base := if Given(dateStr) then Date.StartOfUTCDate(dateStr.value) else Some(now);
    if base.None? then None
    else
      var dayStart := Date.StartOfDay(base.value);
      assert Given(dateStr) ==> dayStart == base.value by {
        if Given(dateStr) {
          Date.MidnightOfDay(base.value);
        }
      }
      Some(CheckinRepo.Bounds(dayStart, dayStart + 86400000))
  }

  /** The intended bounds of every parsable date string enclose exactly the day it names. */
  lemma NamedDayBoundsNameTheDay(s: string, now: int)
    requires s != "" && NamedDayBounds(Some(s), now).Some?
    ensures var t := NamedDayBounds(Some(s), now).value.dayStart;
      0 <= Date.YearOfDay(Date.DayOf(t)) <= 9999 && Date.ToFullDate(t) == s
      && (s[0] != '0' ==> Date.ToISODateOnly(t) == s)
  {
    Date.ParseThenFormat(s);
  }

  /** Outside years 0..99 the bounds as written are the intended ones. */
  lemma DayBoundsAgree(dateStr: Option<string>, now: int)
    requires var base := if Given(dateStr) then Date.StartOfUTCDate(dateStr.value) else Some(now);
      base.Some? ==> !Date.TwoDigitYear(base.value)
    ensures DayBounds(dateStr, now) == NamedDayBounds(dateStr, now)
  {
  }

  /**
   * A full-date string of a year 0..99 naming a date that also exists 1900
   * years later is checked in on that later date, not on the date it names.
   */
  lemma DayBoundsOfTwoDigitDate(c: Date.CivilDate, now: int)
    requires Date.ValidCivil(c) && 0 <= c.year <= 99
    requires Date.ValidCivil(Date.CivilDate(1900 + c.year, c.month, c.day))
    ensures DayBounds(Some(Date.FullDate(c)), now).Some?
    ensures DayBounds(Some(Date.FullDate(c)), now).value.dayStart
      == Date.DaysFromCivil(Date.CivilDate(1900 + c.year, c.month, c.day)) * 86400000
    ensures NamedDayBounds(Some(Date.FullDate(c)), now).value.dayStart == Date.DaysFromCivil(c) * 86400000
    ensures DayBounds(Some(Date.FullDate(c)), now) != NamedDayBounds(Some(Date.FullDate(c)), now)
  {
    var s := Date.FullDate(c);
    assert Date.StartOfUTCDate(s) == Some(Date.DaysFromCivil(c) * 86400000);
    Date.DayOfMidnight(Date.DaysFromCivil(c));
    Date.CivilRoundTrip(c);
    DayBoundsTwoDigitYear(Some(s), now);
  }

  /** "0050-03-10" is checked in on 10 March 1950, not on 10 March of the year 50. */
  lemma DayBoundsOfYear50(now: int)
    ensures DayBounds(Some("0050-03-10"), now).Some?
    ensures DayBounds(Some("0050-03-10"), now).value.dayStart == Date.DaysFromCivil(Date.CivilDate(1950, 3, 10)) * 86400000
    ensures DayBounds(Some("0050-03-10"), now) != NamedDayBounds(Some("0050-03-10"), now)
  {
    var c := Date.CivilDate(50, 3, 10);
    assert Date.FullDate(c) == "0050-03-10" by {
      assert Date.Fixed(50, 4) == "0050";
      assert Date.Fixed(3, 2) == "03";
      assert Date.Fixed(10, 2) == "10";
    }
    DayBoundsOfTwoDigitDate(c, now);
  }

  /** The bounds of day number `d`. */
  function DayRange(d: int): Bounds
  {
    CheckinRepo.Bounds(d * 86400000, d * 86400000 + 86400000)
  }

  lemma BoundsAreDayRange(b: Bounds)
    requires b.dayStart % 86400000 == 0 && b.nextDay == b.dayStart + 86400000
    ensures b == DayRange(Date.DayOf(b.dayStart))
  {
    Date.MidnightOfDay(b.dayStart);
  }

  // ---------------------------------------------------------------------------
  // The store invariant

  /**
   * Every record has count at least 1 and is dated at UTC midnight, and a
   * habit has at most one record per UTC day.
   */
  ghost predicate DayInvariant(cs: seq<Checkin>)
  {
    (forall i :: 0 <= i < |cs| ==> cs[i].count >= 1 && cs[i].date % 86400000 == 0)
    && (forall i, j :: 0 <= i < j < |cs| && cs[i].habitId == cs[j].habitId ==>
          Date.DayOf(cs[i].date) != Date.DayOf(cs[j].date))
  }

  ghost predicate IdsBelow(cs: seq<Checkin>, next: nat)
  {
    forall i :: 0 <= i < |cs| ==> cs[i].id < next
  }

  ghost predicate DistinctIds(cs: seq<Checkin>)
  {
    forall i, j :: 0 <= i < j < |cs| ==> cs[i].id != cs[j].id
  }

  ghost predicate TableInvariant(cs: seq<Checkin>, nextId: nat)
  {
    DayInvariant(cs) && DistinctIds(cs) && IdsBelow(cs, nextId)
  }

  predicate OnDay(c: Checkin, habitId: HabitId, d: int)
  {
    c.habitId == habitId && Date.DayOf(c.date) == d
  }

  /** Under the invariant the day lookup finds the one record of that habit and day. */
  lemma FindOnly(cs: seq<Checkin>, habitId: HabitId, d: int, i: nat)
    requires DayInvariant(cs) && i < |cs| && OnDay(cs[i], habitId, d)
    ensures CheckinRepo.FindInRange(cs, habitId, DayRange(d)) == Some(i)
  {
    Date.InDayInterval(cs[i].date, d);
    var k := CheckinRepo.FindInRange(cs, habitId, DayRange(d)).value;
    Date.InDayInterval(cs[k].date, d);
  }

  /** ... and finds nothing when there is none. */
  lemma FindNone(cs: seq<Checkin>, habitId: HabitId, d: int)
    requires forall j :: 0 <= j < |cs| ==> !OnDay(cs[j], habitId, d)
    ensures CheckinRepo.FindInRange(cs, habitId, DayRange(d)) == None
  {
    forall j | 0 <= j < |cs| ensures !CheckinRepo.InRange(cs[j], habitId, DayRange(d)) {
      Date.InDayInterval(cs[j].date, d);
    }
  }

  /** The count a habit has on day `d`, as the service reads it: the found record's count, or 0. */
  function CountOn(cs: seq<Checkin>, habitId: HabitId, d: int): int
  {
    match CheckinRepo.FindInRange(cs, habitId, DayRange(d))
    case None => 0
    case Some(i) => cs[i].count
  }

  // ---------------------------------------------------------------------------
  // Check-in and un-check-in on the table

  /** The table after a check-in, the record it returns, and whether it created one. */
  datatype CheckinStep = CheckinStep(checkins: seq<Checkin>, record: Checkin, created: bool)

  /**
   * `checkin` once the habit is known: without a record in `b` a new one
   * (id `newId`, dated `b.dayStart`, count 1) is appended, otherwise the found
   * record's count goes up by one.
   */
  function CheckinInto(cs: seq<Checkin>, habitId: HabitId, b: Bounds, newId: nat): CheckinStep
  {
    match CheckinRepo.FindInRange(cs, habitId, b)
    case None =>
      var c := Checkin(newId, habitId, b.dayStart, 1);
      CheckinStep(cs + [c], c, true)
    case Some(i) =>
      var c := cs[i].(count := cs[i].count + 1);
      CheckinStep(cs[i := c], c, false)
  }

  /** What `uncheckin` answers: `{count: 0, removed}`, or the decremented record. */
  datatype UncheckinReply = Cleared(removed: bool) | Decremented(record: Checkin)

  /**
   * `uncheckin` once the habit is known: without a record in `b` nothing
   * changes; otherwise the found record is deleted when its count would drop
   * to 0 or below, and decremented when not.
   */
  function UncheckinFrom(cs: seq<Checkin>, habitId: HabitId, b: Bounds): (seq<Checkin>, UncheckinReply)
  {
    match CheckinRepo.FindInRange(cs, habitId, b)
    case None => (cs, Cleared(false))
    case Some(i) =>
      var next := cs[i].count - 1;
      if next <= 0 then (cs[..i] + cs[i + 1..], Cleared(true))
      else
        var c := cs[i].(count := next);
        (cs[i := c], Decremented(c))
  }

  /** A check-in keeps the table invariant. */
  lemma CheckinKeepsInvariant(cs: seq<Checkin>, habitId: HabitId, d: int, newId: nat)
    requires TableInvariant(cs, newId)
    ensures var st := CheckinInto(cs, habitId, DayRange(d), newId);
      TableInvariant(st.checkins, if st.created then newId + 1 else newId)
  {
    var st := CheckinInto(cs, habitId, DayRange(d), newId);
    match CheckinRepo.FindInRange(cs, habitId, DayRange(d))
    case None =>
      Date.DayOfMidnight(d);
      assert st.checkins == cs + [st.record];
      assert st.record.date % 86400000 == 0 by {
        Date.MidnightAligned(d);
      }
      forall j | 0 <= j < |cs| ensures !OnDay(cs[j], habitId, d) {
        Date.InDayInterval(cs[j].date, d);
      }
    case Some(i) =>
      RecountKeepsInvariant(cs, i, cs[i].count + 1, newId);
  }

  /** Deleting a record keeps the table invariant. */
  lemma RemoveKeepsInvariant(cs: seq<Checkin>, i: nat, nextId: nat)
    requires TableInvariant(cs, nextId) && i < |cs|
    ensures TableInvariant(cs[..i] + cs[i + 1..], nextId)
  {
    var cs' := cs[..i] + cs[i + 1..];
    assert forall j :: 0 <= j < |cs'| ==> cs'[j] == cs[if j < i then j else j + 1];
    forall j, k | 0 <= j < k < |cs'| && cs'[j].habitId == cs'[k].habitId
      ensures Date.DayOf(cs'[j].date) != Date.DayOf(cs'[k].date)
    {
      var j0, k0 := if j < i then j else j + 1, if k < i then k else k + 1;
      assert cs'[j] == cs[j0] && cs'[k] == cs[k0] && j0 < k0;
    }
    forall j, k | 0 <= j < k < |cs'| ensures cs'[j].id != cs'[k].id {
      var j0, k0 := if j < i then j else j + 1, if k < i then k else k + 1;
      assert cs'[j] == cs[j0] && cs'[k] == cs[k0] && j0 < k0;
    }
  }

  /** Changing the count of a record to a positive value keeps the table invariant. */
  lemma RecountKeepsInvariant(cs: seq<Checkin>, i: nat, n: int, nextId: nat)
    requires TableInvariant(cs, nextId) && i < |cs| && n >= 1
    ensures TableInvariant(cs[i := cs[i].(count := n)], nextId)
  {
  }

  /** An un-check-in keeps the table invariant. */
  lemma UncheckinKeepsInvariant(cs: seq<Checkin>, habitId: HabitId, b: Bounds, nextId: nat)
    requires TableInvariant(cs, nextId)
    ensures TableInvariant(UncheckinFrom(cs, habitId, b).0, nextId)
  {
    match CheckinRepo.FindInRange(cs, habitId, b)
    case None =>
    case Some(i) =>
      if cs[i].count - 1 <= 0 {
        RemoveKeepsInvariant(cs, i, nextId);
      } else {
        RecountKeepsInvariant(cs, i, cs[i].count - 1, nextId);
      }
  }

  // ---------------------------------------------------------------------------
  // What the counter promises

  /** The found record of a check-in lies in its day. */
  lemma FoundOnDay(cs: seq<Checkin>, habitId: HabitId, d: int)
    requires CheckinRepo.FindInRange(cs, habitId, DayRange(d)).Some?
    ensures var i := CheckinRepo.FindInRange(cs, habitId, DayRange(d)).value;
      i < |cs| && OnDay(cs[i], habitId, d)
  {
    var i := CheckinRepo.FindInRange(cs, habitId, DayRange(d)).value;
    Date.InDayInterval(cs[i].date, d);
  }

  /** Appending a record sets the count of its habit and day and keeps the others. */
  lemma AppendCounts(cs: seq<Checkin>, c: Checkin, h2: HabitId, d2: int)
    requires DayInvariant(cs + [c])
    ensures CountOn(cs + [c], h2, d2) == if OnDay(c, h2, d2) then c.count else CountOn(cs, h2, d2)
  {
    var cs' := cs + [c];
    assert forall k :: 0 <= k < |cs| ==> cs'[k] == cs[k];
    if OnDay(c, h2, d2) {
      FindOnly(cs', h2, d2, |cs|);
    } else if j :| 0 <= j < |cs| && OnDay(cs[j], h2, d2) {
      FindOnly(cs, h2, d2, j);
      FindOnly(cs', h2, d2, j);
    } else {
      FindNone(cs, h2, d2);
      FindNone(cs', h2, d2);
    }
  }

  /** Giving record `i` a new count changes only the count of its habit and day. */
  lemma RecountCounts(cs: seq<Checkin>, i: nat, n: int, h2: HabitId, d2: int)
    requires DayInvariant(cs) && i < |cs| && n >= 1
    ensures CountOn(cs[i := cs[i].(count := n)], h2, d2) == if OnDay(cs[i], h2, d2) then n else CountOn(cs, h2, d2)
  {
    var cs' := cs[i := cs[i].(count := n)];
    if j :| 0 <= j < |cs| && OnDay(cs[j], h2, d2) {
      FindOnly(cs, h2, d2, j);
      assert OnDay(cs'[j], h2, d2);
      FindOnly(cs', h2, d2, j);
    } else {
      FindNone(cs, h2, d2);
      assert forall k :: 0 <= k < |cs'| ==> !OnDay(cs'[k], h2, d2);
      FindNone(cs', h2, d2);
    }
  }

  /** After deleting record `i`, another record `j` of the same habit and day is still found. */
  lemma DeleteKeepsOther(cs: seq<Checkin>, i: nat, j: nat, h2: HabitId, d2: int, nextId: nat)
    requires TableInvariant(cs, nextId) && i < |cs| && j < |cs| && j != i && OnDay(cs[j], h2, d2)
    ensures CountOn(cs[..i] + cs[i + 1..], h2, d2) == CountOn(cs, h2, d2)
  {
    var cs' := cs[..i] + cs[i + 1..];
    RemoveKeepsInvariant(cs, i, nextId);
    var j' := if j < i then j else j - 1;
    assert cs'[j'] == cs[j];
    FindOnly(cs, h2, d2, j);
    FindOnly(cs', h2, d2, j');
  }

  /** Deleting record `i` clears the count of its habit and day and keeps the others. */
  lemma DeleteCounts(cs: seq<Checkin>, i: nat, h2: HabitId, d2: int, nextId: nat)
    requires TableInvariant(cs, nextId) && i < |cs|
    ensures CountOn(cs[..i] + cs[i + 1..], h2, d2) == if OnDay(cs[i], h2, d2) then 0 else CountOn(cs, h2, d2)
  {
    var cs' := cs[..i] + cs[i + 1..];
    if j :| 0 <= j < |cs| && j != i && OnDay(cs[j], h2, d2) {
      DeleteKeepsOther(cs, i, j, h2, d2, nextId);
      assert DayInvariant(cs);
    } else {
      assert forall k :: 0 <= k < |cs'| ==> cs'[k] == cs[if k < i then k else k + 1];
      assert forall k :: 0 <= k < |cs'| ==> !OnDay(cs'[k], h2, d2);
      FindNone(cs', h2, d2);
      if !OnDay(cs[i], h2, d2) {
        FindNone(cs, h2, d2);
      }
    }
  }

  /**
   * A check-in adds one to the count of its habit on its day and leaves the
   * count of every other habit and day as it was.
   */
  lemma CheckinCounts(cs: seq<Checkin>, habitId: HabitId, d: int, newId: nat, h2: HabitId, d2: int)
    requires TableInvariant(cs, newId)
    ensures CountOn(CheckinInto(cs, habitId, DayRange(d), newId).checkins, h2, d2)
      == CountOn(cs, h2, d2) + (if h2 == habitId && d2 == d then 1 else 0)
  {
    var st := CheckinInto(cs, habitId, DayRange(d), newId);
    CheckinKeepsInvariant(cs, habitId, d, newId);
    match CheckinRepo.FindInRange(cs, habitId, DayRange(d))
    case None =>
      Date.DayOfMidnight(d);
      var c := Checkin(newId, habitId, d * 86400000, 1);
      assert st.checkins == cs + [c];
      assert OnDay(c, h2, d2) <==> h2 == habitId && d2 == d;
      AppendCounts(cs, c, h2, d2);
      assert CountOn(cs, habitId, d) == 0;
    case Some(i) =>
      FoundOnDay(cs, habitId, d);
      var n := cs[i].count + 1;
      assert st.checkins == cs[i := cs[i].(count := n)];
      assert OnDay(cs[i], h2, d2) <==> h2 == habitId && d2 == d;
      RecountCounts(cs, i, n, h2, d2);
      assert CountOn(cs, habitId, d) == cs[i].count;
  }

  /**
   * A check-in creates a record exactly when its habit had none on that day,
   * and returns the record that now holds the day's count.
   */
  lemma CheckinCreatesAtMostOne(cs: seq<Checkin>, habitId: HabitId, d: int, newId: nat)
    requires TableInvariant(cs, newId)
    ensures var st := CheckinInto(cs, habitId, DayRange(d), newId);
      st.created == (CountOn(cs, habitId, d) == 0)
      && |st.checkins| == |cs| + (if st.created then 1 else 0)
      && OnDay(st.record, habitId, d)
      && st.record.count == CountOn(st.checkins, habitId, d)
  {
    var st := CheckinInto(cs, habitId, DayRange(d), newId);
    CheckinCounts(cs, habitId, d, newId, habitId, d);
    if CheckinRepo.FindInRange(cs, habitId, DayRange(d)).Some? {
      FoundOnDay(cs, habitId, d);
    } else {
      Date.DayOfMidnight(d);
    }
  }

  /**
   * An un-check-in lowers the count of its habit on its day by one, not below
   * zero, and leaves every other count as it was.
   */
  lemma UncheckinCounts(cs: seq<Checkin>, habitId: HabitId, d: int, nextId: nat, h2: HabitId, d2: int)
    requires TableInvariant(cs, nextId)
    ensures var before := CountOn(cs, h2, d2);
      CountOn(UncheckinFrom(cs, habitId, DayRange(d)).0, h2, d2)
      == if h2 == habitId && d2 == d then (if before <= 1 then 0 else before - 1) else before
  {
    var same := h2 == habitId && d2 == d;
    match CheckinRepo.FindInRange(cs, habitId, DayRange(d))
    case None =>
      assert UncheckinFrom(cs, habitId, DayRange(d)).0 == cs;
      assert same ==> CountOn(cs, h2, d2) == 0;
    case Some(i) =>
      FoundOnDay(cs, habitId, d);
      assert OnDay(cs[i], h2, d2) <==> same;
      assert same ==> CountOn(cs, h2, d2) == cs[i].count;
      if cs[i].count - 1 <= 0 {
        assert UncheckinFrom(cs, habitId, DayRange(d)).0 == cs[..i] + cs[i + 1..];
        DeleteCounts(cs, i, h2, d2, nextId);
        assert CountOn(cs[..i] + cs[i + 1..], h2, d2) == if same then 0 else CountOn(cs, h2, d2);
      } else {
        var n := cs[i].count - 1;
        assert UncheckinFrom(cs, habitId, DayRange(d)).0 == cs[i := cs[i].(count := n)];
        RecountCounts(cs, i, n, h2, d2);
      }
  }

  /** An un-check-in of a day without a record answers `{count: 0, removed: false}` and changes nothing. */
  lemma UncheckinWithoutRecord(cs: seq<Checkin>, habitId: HabitId, d: int, nextId: nat)
    requires TableInvariant(cs, nextId) && CountOn(cs, habitId, d) == 0
    ensures UncheckinFrom(cs, habitId, DayRange(d)) == (cs, Cleared(false))
  {
  }

  /** A check-in followed by an un-check-in of the same day restores the table. */
  lemma CheckinThenUncheckin(cs: seq<Checkin>, habitId: HabitId, d: int, newId: nat)
    requires TableInvariant(cs, newId)
    ensures UncheckinFrom(CheckinInto(cs, habitId, DayRange(d), newId).checkins, habitId, DayRange(d)).0 == cs
  {
    var st := CheckinInto(cs, habitId, DayRange(d), newId);
    CheckinKeepsInvariant(cs, habitId, d, newId);
    match CheckinRepo.FindInRange(cs, habitId, DayRange(d))
    case None =>
      Date.DayOfMidnight(d);
      assert st.checkins == cs + [st.record];
      FindOnly(st.checkins, habitId, d, |cs|);
      assert UncheckinFrom(st.checkins, habitId, DayRange(d)).0 == st.checkins[..|cs|] + st.checkins[|cs| + 1..];
      assert st.checkins[..|cs|] + st.checkins[|cs| + 1..] == cs;
    case Some(i) =>
      FoundOnDay(cs, habitId, d);
      var up := cs[i].(count := cs[i].count + 1);
      assert st.checkins == cs[i := up];
      FindOnly(st.checkins, habitId, d, i);
      var down := up.(count := up.count - 1);
      assert down == cs[i];
      assert UncheckinFrom(st.checkins, habitId, DayRange(d)).0 == st.checkins[i := down];
  }

  // ---------------------------------------------------------------------------
  // Habits and ownership

  /** `habitRepo.findForUser(id, userId)`: the habit with that id, when the caller owns it. */
  function FindForUser(habits: map<HabitId, Habit>, id: HabitId, userId: UserId): (r: Option<Habit>)
    ensures r.Some? <==> id in habits && habits[id].userId == userId
    ensures r.Some? ==> r.value == habits[id]
  {
    if id in habits && habits[id].userId == userId then Some(habits[id]) else None
  }

  /** The fields an update may set; `description: Some(None)` sets it to null. */
  datatype HabitPatch = HabitPatch(
    name: Option<string>,
    description: Option<Option<string>>,
    targetPerDay: Option<int>,
    active: Option<bool>)

  /** `habitRepo.update(id, data)`: the fields present in `p` replace those of `h`. */
  function ApplyPatch(h: Habit, p: HabitPatch): (r: Habit)
    ensures r.id == h.id && r.userId == h.userId
    ensures p == HabitPatch(None, None, None, None) ==> r == h
  {
    h.(name := if p.name.Some? then p.name.value else h.name,
       description := if p.description.Some? then p.description.value else h.description,
       targetPerDay := if p.targetPerDay.Some? then p.targetPerDay.value else h.targetPerDay,
       active := if p.active.Some? then p.active.value else h.active)
  }

  // ---------------------------------------------------------------------------
  // The service operations on the check-in table

  /** A service reply together with the check-in table and next free id it leaves behind. */
  datatype Outcome<R> = Outcome(reply: Result<R, Error>, checkins: seq<Checkin>, nextId: nat)

  /**
   * `checkin(userId, habitId, dateStr)` at instant `now`: NOT_FOUND for a
   * habit the caller does not own, ARCHIVED for an inactive one, BadDate when
   * the date does not parse, and otherwise the check-in into its day.
   */
  function CheckinSpec(habits: map<HabitId, Habit>, cs: seq<Checkin>, nextId: nat,
                       userId: UserId, habitId: HabitId, dateStr: Option<string>, now: int): (o: Outcome<Checkin>)
    ensures o.reply.Failure? ==> o.checkins == cs && o.nextId == nextId
    ensures o.reply == Failure(NotFound) <==> FindForUser(habits, habitId, userId).None?
    ensures o.reply == Failure(Archived) <==>
      FindForUser(habits, habitId, userId).Some? && !habits[habitId].active
    ensures o.reply == Failure(BadDate) <==>
      FindForUser(habits, habitId, userId).Some? && habits[habitId].active && DayBounds(dateStr, now).None?
  {
    match FindForUser(habits, habitId, userId)
    case None => Outcome(Failure(NotFound), cs, nextId)
    case Some(h) =>
      if !h.active then Outcome(Failure(Archived), cs, nextId)
      else match DayBounds(dateStr, now)
        case None => Outcome(Failure(BadDate), cs, nextId)
        case Some(b) =>
          var st := CheckinInto(cs, habitId, b, nextId);
          Outcome(Success(st.record), st.checkins, if st.created then nextId + 1 else nextId)
  }

  /**
   * `uncheckin(userId, habitId, dateStr)` at instant `now`: NOT_FOUND for a
   * habit the caller does not own (an archived habit is accepted), BadDate
   * when the date does not parse, and otherwise the un-check-in of its day.
   */
  function UncheckinSpec(habits: map<HabitId, Habit>, cs: seq<Checkin>,
                         userId: UserId, habitId: HabitId, dateStr: Option<string>, now: int): (r: (Result<UncheckinReply, Error>, seq<Checkin>))
    ensures r.0.Failure? ==> r.1 == cs
    ensures r.0 == Failure(NotFound) <==> FindForUser(habits, habitId, userId).None?
    ensures r.0 == Failure(BadDate) <==> FindForUser(habits, habitId, userId).Some? && DayBounds(dateStr, now).None?
    ensures r.0 != Failure(Archived)
  {
    match FindForUser(habits, habitId, userId)
    case None => (Failure(NotFound), cs)
    case Some(_) =>
      match DayBounds(dateStr, now)
      case None => (Failure(BadDate), cs)
      case Some(b) =>
        var (cs', reply) := UncheckinFrom(cs, habitId, b);
        (Success(reply), cs')
  }

  /**
   * A successful check-in keeps the table invariant, adds one to the count of
   * its habit on the day of the returned record, and changes no other count.
   */
  lemma CheckinSpecCounts(habits: map<HabitId, Habit>, cs: seq<Checkin>, nextId: nat,
                          userId: UserId, habitId: HabitId, dateStr: Option<string>, now: int, h2: HabitId, d2: int)
    requires TableInvariant(cs, nextId)
    ensures var o := CheckinSpec(habits, cs, nextId, userId, habitId, dateStr, now);
      TableInvariant(o.checkins, o.nextId)
      && (o.reply.Success? ==>
            var d := Date.DayOf(o.reply.value.date);
            o.reply.value.habitId == habitId
            && CountOn(o.checkins, h2, d2) == CountOn(cs, h2, d2) + (if h2 == habitId && d2 == d then 1 else 0))
  {
    var o := CheckinSpec(habits, cs, nextId, userId, habitId, dateStr, now);
    if o.reply.Success? {
      var b := DayBounds(dateStr, now).value;
      BoundsAreDayRange(b);
      var d := Date.DayOf(b.dayStart);
      CheckinKeepsInvariant(cs, habitId, d, nextId);
      CheckinCounts(cs, habitId, d, nextId, h2, d2);
      CheckinCreatesAtMostOne(cs, habitId, d, nextId);
    }
  }

  /**
   * A successful un-check-in keeps the table invariant, lowers the count of
   * its habit on its day by one, not below zero, and changes no other count.
   */
  lemma UncheckinSpecCounts(habits: map<HabitId, Habit>, cs: seq<Checkin>, nextId: nat,
                            userId: UserId, habitId: HabitId, dateStr: Option<string>, now: int, h2: HabitId, d2: int)
    requires TableInvariant(cs, nextId)
    ensures var r := UncheckinSpec(habits, cs, userId, habitId, dateStr, now);
      TableInvariant(r.1, nextId)
      && (r.0.Success? ==>
            var d := Date.DayOf(DayBounds(dateStr, now).value.dayStart);
            var before := CountOn(cs, h2, d2);
            CountOn(r.1, h2, d2) == if h2 == habitId && d2 == d then (if before <= 1 then 0 else before - 1) else before)
  {
    var r := UncheckinSpec(habits, cs, userId, habitId, dateStr, now);
    if r.0.Success? {
      var b := DayBounds(dateStr, now).value;
      BoundsAreDayRange(b);
      var d := Date.DayOf(b.dayStart);
      UncheckinKeepsInvariant(cs, habitId, b, nextId);
      UncheckinCounts(cs, habitId, d, nextId, h2, d2);
    }
  }

  /** `where.date` of `listCheckins`: each bound present only when its string is given. */
  function WhereDate(from: Option<string>, to: Option<string>): (r: Result<CheckinRepo.DateFilter, Error>)
    ensures r.Failure? <==>
      ((Given(from) && Date.StartOfUTCDate(from.value).None?) || (Given(to) && Date.StartOfUTCDate(to.value).None?))
    ensures r.Success? ==> r.value.gte == (if Given(from) then Date.StartOfUTCDate(from.value) else None)
    ensures r.Success? ==> r.value.lte == (if Given(to) then Date.StartOfUTCDate(to.value) else None)
  {
    var gte := if Given(from) then Date.StartOfUTCDate(from.value) else None;
    var lte := if Given(to) then Date.StartOfUTCDate(to.value) else None;
    if (Given(from) && gte.None?) || (Given(to) && lte.None?) then Failure(BadDate)
    else Success(CheckinRepo.DateFilter(gte, lte))
  }

  // ---------------------------------------------------------------------------
  // Stats

  /** `Math.max(1, Math.min(365, n || 30))` on a parsed range: 0 and NaN fall back to 30. */
  function RangeDays(n: Option<int>): (days: int)
    ensures 1 <= days <= 365
    ensures (n.None? || n.value == 0) ==> days == 30
    ensures n.Some? && 1 <= n.value <= 365 ==> days == n.value
    ensures n.Some? && n.value > 365 ==> days == 365
    ensures n.Some? && n.value < 0 ==> days == 1
  {
    var x := if n.None? || n.value == 0 then 30 else n.value;
    if x > 365 then 365 else if x < 1 then 1 else x
  }

  /**
   * `Math.round(done / days * 100)` in exact arithmetic: the integer nearest
   * to `100 * done / days`, halves rounded up.
   */
  function CompletionRate(done: nat, days: int): (rate: int)
    requires days >= 1
    ensures 2 * days * rate <= 200 * done + days < 2 * days * (rate + 1)
  {
    var x, y := 200 * done + days, 2 * days;
    var q := x / y;
    assert y * q <= x < y * q + y by {
      assert x == y * q + x % y;
    }
    q
  }

  /** Cancelling a positive factor on both sides of a strict inequality. */
  lemma CancelFactor(y: int, a: int, b: int)
    requires y > 0 && y * a < y * b
    ensures a < b
  {
    MulSign(y, b - a);
    assert y * (b - a) == y * b - y * a;
  }

  lemma MulSign(y: int, k: int)
    requires y > 0
    ensures k <= 0 ==> y * k <= 0
  {
  }

  /** Up to a full range of done days the rate stays within 0..100. */
  lemma RateAtMostHundred(done: nat, days: int)
    requires days >= 1 && done <= days
    ensures 0 <= CompletionRate(done, days) <= 100
  {
    var r, y := CompletionRate(done, days), 2 * days;
    assert 200 * done <= 200 * days;
    assert y * r < y * 101;
    CancelFactor(y, r, 101);
    assert y * 0 < y * (r + 1);
    CancelFactor(y, 0, r + 1);
  }

  /** Every day of the range done gives exactly 100. */
  lemma RateOfFullRange(days: int)
    requires days >= 1
    ensures CompletionRate(days, days) == 100
  {
    var r, y := CompletionRate(days, days), 2 * days;
    assert y * r < y * 101;
    CancelFactor(y, r, 101);
    assert y * 99 < y * 100;
    assert y * 99 < y * (r + 1);
    CancelFactor(y, 99, r + 1);
  }

  /** More done days than the range gives at least 100. */
  lemma RateBeyondRange(done: nat, days: int)
    requires days >= 1 && done > days
    ensures CompletionRate(done, days) >= 100
  {
    var r, y := CompletionRate(done, days), 2 * days;
    assert 200 * done >= 200 * days + 200;
    assert y * 100 < y * (r + 1);
    CancelFactor(y, 100, r + 1);
  }

  /** More done days never give a lower rate. */
  lemma RateMonotone(a: nat, b: nat, days: int)
    requires days >= 1 && a <= b
    ensures CompletionRate(a, days) <= CompletionRate(b, days)
  {
    var ra, rb, y := CompletionRate(a, days), CompletionRate(b, days), 2 * days;
    assert y * ra < y * (rb + 1);
    CancelFactor(y, ra, rb + 1);
  }

  /** A set of integers inside `[lo, hi]` has at most `hi - lo + 1` elements. */
  lemma {:induction false} IntervalSize(s: set<int>, lo: int, hi: int)
    requires lo <= hi + 1 && forall x :: x in s ==> lo <= x <= hi
    ensures |s| <= hi - lo + 1
    decreases hi - lo
  {
    if hi < lo {
      assert forall x :: x !in s;
      assert s == {};
    } else {
      IntervalSize(s - {hi}, lo, hi - 1);
    }
  }

  /**
   * The stats window `[now - days * 86400000, ...)` meets `days + 1` UTC
   * days, so even without future-dated check-ins up to `days + 1` days can
   * be done (all of them only when `now` is itself a UTC midnight, see
   * `WindowDoneDaysOffMidnight`).
   */
  lemma WindowDoneDays(cs: seq<Checkin>, habitId: HabitId, target: int, days: int, now: int)
    requires days >= 1 && forall c :: c in cs ==> c.date <= now
    ensures |Streaks.DoneDays(CheckinRepo.ListSince(cs, habitId, now - days * 86400000), target)| <= days + 1
  {
    var since := now - days * 86400000;
    var done := Streaks.DoneDays(CheckinRepo.ListSince(cs, habitId, since), target);
    var today := Date.DayOf(now);
    Date.DayShift(now, days);
    forall x | x in done ensures today - days <= x <= today {
      var c :| c in CheckinRepo.ListSince(cs, habitId, since) && Streaks.IsDone(c, target) && Date.DayOf(c.date) == x;
      Date.DayOfMonotone(since, c.date);
      Date.DayOfMonotone(c.date, now);
    }
    IntervalSize(done, today - days, today);
  }

  /**
   * With records at midnights, as the table keeps them, and none after a
   * `now` that is not a midnight, the window's first day starts before
   * `since`: at most `days` days can be done.
   */
  lemma WindowDoneDaysOffMidnight(cs: seq<Checkin>, habitId: HabitId, target: int, days: int, now: int)
    requires days >= 1 && now % 86400000 != 0
    requires forall c :: c in cs ==> c.date % 86400000 == 0 && c.date <= now
    ensures |Streaks.DoneDays(CheckinRepo.ListSince(cs, habitId, now - days * 86400000), target)| <= days
  {
    var since := now - days * 86400000;
    var done := Streaks.DoneDays(CheckinRepo.ListSince(cs, habitId, since), target);
    var today := Date.DayOf(now);
    Date.DayShift(now, days);
    Date.InDayInterval(since, today - days);
    assert since != (today - days) * 86400000;
    forall x | x in done ensures today - days + 1 <= x <= today {
      var c :| c in CheckinRepo.ListSince(cs, habitId, since) && Streaks.IsDone(c, target) && Date.DayOf(c.date) == x;
      Date.DayOfMonotone(since, c.date);
      Date.DayOfMonotone(c.date, now);
      Date.MidnightOfDay(c.date);
    }
    IntervalSize(done, today - days + 1, today);
  }

  /**
   * Hence the rate is not capped at 100: with `range = 1` exactly at a UTC
   * midnight, check-ins on that day and the day before give 200.
   */
  lemma CompletionRateOverHundred()
    ensures var cs := [Checkin(0, 0, 0, 1), Checkin(1, 0, 86400000, 1)];
      var days := RangeDays(Numbers.NumberOf("1"));
      CompletionRate(|Streaks.DoneDays(CheckinRepo.ListSince(cs, 0, 86400000 - days * 86400000), 1)|, days) == 200
  {
    var cs := [Checkin(0, 0, 0, 1), Checkin(1, 0, 86400000, 1)];
    NumberOfOne();
    var window := CheckinRepo.ListSince(cs, 0, 0);
    TwoDoneDays(cs, window);
    var r := CompletionRate(2, 1);
    assert 2 * r <= 401 < 2 * (r + 1);
  }

  lemma NumberOfOne()
    ensures Numbers.NumberOf("1") == Some(1)
  {
    assert Numbers.TrimStart("1") == "1";
    assert Numbers.TrimEnd("1") == "1";
    assert Date.DigitsValue("1") == 1 by {
      assert "1"[..0] == [];
    }
  }

  lemma TwoDoneDays(cs: seq<Checkin>, window: seq<Checkin>)
    requires cs == [Checkin(0, 0, 0, 1), Checkin(1, 0, 86400000, 1)]
    requires forall c :: c in window <==> c in cs && c.habitId == 0 && 0 <= c.date
    ensures Streaks.DoneDays(window, 1) == {0, 1}
  {
    var done := Streaks.DoneDays(window, 1);
    assert cs[0] in window && cs[1] in window;
    assert Date.DayOf(0) == 0 && Date.DayOf(86400000) == 1;
    assert 0 in done && 1 in done;
    forall x | x in done ensures x == 0 || x == 1 {
      var c :| c in window && Streaks.IsDone(c, 1) && Date.DayOf(c.date) == x;
      assert c == cs[0] || c == cs[1];
    }
  }

  /**
   * At any other instant of the day the same two records give 100: the
   * record of the day before falls before `since`.
   */
  lemma CompletionRateMidDay()
    ensures var cs := [Checkin(0, 0, 0, 1), Checkin(1, 0, 86400000, 1)];
      var days := RangeDays(Numbers.NumberOf("1"));
      CompletionRate(|Streaks.DoneDays(CheckinRepo.ListSince(cs, 0, 90000000 - days * 86400000), 1)|, days) == 100
  {
    var cs := [Checkin(0, 0, 0, 1), Checkin(1, 0, 86400000, 1)];
    NumberOfOne();
    var window := CheckinRepo.ListSince(cs, 0, 3600000);
    var done := Streaks.DoneDays(window, 1);
    assert cs[1] in window && Date.DayOf(86400000) == 1;
    assert 1 in done;
    forall x | x in done ensures x == 1 {
      var c :| c in window && Streaks.IsDone(c, 1) && Date.DayOf(c.date) == x;
      assert c == cs[1];
    }
    assert done == {1};
    var r := CompletionRate(1, 1);
    assert 2 * r <= 201 < 2 * (r + 1);
  }

  /**
   * A record dated after `now` lifts the rate over 100 at any instant:
   * with `range = 1` at one o'clock, records today and tomorrow give 200.
   */
  lemma CompletionRateFutureDated()
    ensures var cs := [Checkin(0, 0, 86400000, 1), Checkin(1, 0, 172800000, 1)];
      var days := RangeDays(Numbers.NumberOf("1"));
      CompletionRate(|Streaks.DoneDays(CheckinRepo.ListSince(cs, 0, 90000000 - days * 86400000), 1)|, days) == 200
  {
    var cs := [Checkin(0, 0, 86400000, 1), Checkin(1, 0, 172800000, 1)];
    NumberOfOne();
    var window := CheckinRepo.ListSince(cs, 0, 3600000);
    var done := Streaks.DoneDays(window, 1);
    assert cs[0] in window && cs[1] in window;
    assert Date.DayOf(86400000) == 1 && Date.DayOf(172800000) == 2;
    assert 1 in done && 2 in done;
    forall x | x in done ensures x == 1 || x == 2 {
      var c :| c in window && Streaks.IsDone(c, 1) && Date.DayOf(c.date) == x;
      assert c == cs[0] || c == cs[1];
    }
    assert done == {1, 2};
    var r := CompletionRate(2, 1);
    assert 2 * r <= 401 < 2 * (r + 1);
  }

  /** What `stats` answers for a habit, its window of check-ins, its range in days and the instant `now`. */
  datatype StatsReply = StatsReply(habitId: HabitId, days: int, currentStreak: nat, longestStreak: nat, completionRate: int)

  /**
   * The reply's streaks are those of the window's done days (exact under the
   * four-digit-year conditions of `Streaks.ComputeStreaks`) and its rate is
   * the rounded percentage of done days in the range.
   */
  ghost predicate StatsOf(s: StatsReply, habit: Habit, window: seq<Checkin>, days: int, now: int)
    requires days >= 1
  {
    var done := Streaks.DoneDays(window, habit.targetPerDay);
    var today := Date.DayOf(now);
    s.habitId == habit.id && s.days == days
    && s.completionRate == CompletionRate(|done|, days)
    && s.currentStreak == (if Date.FourDigitYear(Streaks.Anchor(done, today)) then Streaks.CurrentStreak(done, today) else 0)
    && ((forall d :: d in done ==> Date.FourDigitYear(d)) ==> s.longestStreak == Streaks.LongestStreak(done))
  }

  /**
   * With no record dated after `now`, the rate `stats` reports is at most the
   * rate of `days + 1` done days: the window reaches into `days + 1` UTC days.
   */
  lemma StatsRateBound(s: StatsReply, habit: Habit, cs: seq<Checkin>, habitId: HabitId, days: int, now: int)
    requires days >= 1 && forall c :: c in cs ==> c.date <= now
    requires StatsOf(s, habit, CheckinRepo.ListSince(cs, habitId, now - days * 86400000), days, now)
    ensures s.completionRate <= CompletionRate(days + 1, days)
  {
    var window := CheckinRepo.ListSince(cs, habitId, now - days * 86400000);
    WindowDoneDays(cs, habitId, habit.targetPerDay, days, now);
    RateMonotone(|Streaks.DoneDays(window, habit.targetPerDay)|, days + 1, days);
  }

  /**
   * With records at midnights and none after a `now` that is not a
   * midnight, the reported rate stays within 0..100.
   */
  lemma StatsRateOffMidnight(s: StatsReply, habit: Habit, cs: seq<Checkin>, habitId: HabitId, days: int, now: int)
    requires days >= 1 && now % 86400000 != 0
    requires forall c :: c in cs ==> c.date % 86400000 == 0 && c.date <= now
    requires StatsOf(s, habit, CheckinRepo.ListSince(cs, habitId, now - days * 86400000), days, now)
    ensures 0 <= s.completionRate <= 100
  {
    var window := CheckinRepo.ListSince(cs, habitId, now - days * 86400000);
    WindowDoneDaysOffMidnight(cs, habitId, habit.targetPerDay, days, now);
    RateAtMostHundred(|Streaks.DoneDays(window, habit.targetPerDay)|, days);
  }

  /** The part of `stats` after the window is fetched: streaks, the done-day set and the rate. */
  method StatsOfWindow(habit: Habit, window: seq<Checkin>, days: int, now: int) returns (s: StatsReply)
    requires days >= 1
    ensures StatsOf(s, habit, window, days, now)
  {
    var current, longest := Streaks.ComputeStreaks(window, habit.targetPerDay, now);
    var doneSet := Streaks.DoneKeys(window, habit.targetPerDay);
    Streaks.DoneKeysSpec(window, habit.targetPerDay, now);
    s := StatsReply(habit.id, days, current, longest, CompletionRate(|doneSet|, days));
  }

  // ---------------------------------------------------------------------------
  // The store

  /**
   * The store's invariant on its four parts: each habit sits under its own
   * id, below the next habit id; every check-in belongs to a stored habit;
   * the check-in table keeps its invariant.
   */
  ghost predicate StoreInvariant(habits: map<HabitId, Habit>, cs: seq<Checkin>, nextHabitId: nat, nextCheckinId: nat)
  {
    (forall id :: id in habits ==> habits[id].id == id && id < nextHabitId)
    && (forall i :: 0 <= i < |cs| ==> cs[i].habitId in habits)
    && TableInvariant(cs, nextCheckinId)
  }

  /** A check-in of a stored habit on a day keeps the store invariant. */
  lemma CheckinKeepsStore(habits: map<HabitId, Habit>, cs: seq<Checkin>, nextHabitId: nat, nextCheckinId: nat,
                          habitId: HabitId, b: Bounds)
    requires StoreInvariant(habits, cs, nextHabitId, nextCheckinId) && habitId in habits
    requires b.dayStart % 86400000 == 0 && b.nextDay == b.dayStart + 86400000
    ensures var st := CheckinInto(cs, habitId, b, nextCheckinId);
      StoreInvariant(habits, st.checkins, nextHabitId, if st.created then nextCheckinId + 1 else nextCheckinId)
  {
    BoundsAreDayRange(b);
    CheckinKeepsInvariant(cs, habitId, Date.DayOf(b.dayStart), nextCheckinId);
    var st := CheckinInto(cs, habitId, b, nextCheckinId);
    assert forall i :: 0 <= i < |st.checkins| ==> st.checkins[i].habitId in habits by {
      match CheckinRepo.FindInRange(cs, habitId, b)
      case None =>
        assert forall i :: 0 <= i < |cs| ==> st.checkins[i] == cs[i];
      case Some(k) =>
    }
  }

  /** An un-check-in keeps the store invariant. */
  lemma UncheckinKeepsStore(habits: map<HabitId, Habit>, cs: seq<Checkin>, nextHabitId: nat, nextCheckinId: nat,
                            habitId: HabitId, b: Bounds)
    requires StoreInvariant(habits, cs, nextHabitId, nextCheckinId)
    ensures StoreInvariant(habits, UncheckinFrom(cs, habitId, b).0, nextHabitId, nextCheckinId)
  {
    UncheckinKeepsInvariant(cs, habitId, b, nextCheckinId);
    var cs' := UncheckinFrom(cs, habitId, b).0;
    assert forall i :: 0 <= i < |cs'| ==> cs'[i].habitId in habits by {
      match CheckinRepo.FindInRange(cs, habitId, b)
      case None =>
      case Some(k) =>
        if cs[k].count - 1 <= 0 {
          assert forall i :: 0 <= i < |cs'| ==> cs'[i] == (if i < k then cs[i] else cs[i + 1]);
        }
    }
  }

  /** The habit table and the check-in table, with the service's operations on them. */
  class Store {
    var habits: map<HabitId, Habit>
    var checkins: seq<Checkin>
    var nextHabitId: nat
    var nextCheckinId: nat

    ghost predicate Valid()
      reads this
    {
      StoreInvariant(habits, checkins, nextHabitId, nextCheckinId)
    }

    constructor ()
      ensures Valid() && habits == map[] && checkins == []
    {
      habits := map[];
      checkins := [];
      nextHabitId := 0;
      nextCheckinId := 0;
    }

    /** `create(userId, {name, description, targetPerDay})`: a new active habit, target 1 by default. */
    method Create(userId: UserId, name: string, description: Option<string>, targetPerDay: Option<int>) returns (h: Habit)
      requires Valid()
      modifies this
      ensures Valid()
      ensures h == Habit(old(nextHabitId), userId, name, description,
                         if targetPerDay.Some? then targetPerDay.value else 1, true)
      ensures old(nextHabitId) !in old(habits) && habits == old(habits)[h.id := h]
      ensures checkins == old(checkins) && nextCheckinId == old(nextCheckinId)
    {
      h := Habit(nextHabitId, userId, name, description,
                 if targetPerDay.Some? then targetPerDay.value else 1, true);
      habits := habits[h.id := h];
      nextHabitId := nextHabitId + 1;
    }

    /** `update(userId, id, data)`: NOT_FOUND unless the caller owns the habit, else the patched habit. */
    method Update(userId: UserId, id: HabitId, patch: HabitPatch) returns (r: Result<Habit, Error>)
      requires Valid()
      modifies this
      ensures Valid()
      ensures checkins == old(checkins) && nextCheckinId == old(nextCheckinId) && nextHabitId == old(nextHabitId)
      ensures FindForUser(old(habits), id, userId).None? ==> r == Failure(NotFound) && habits == old(habits)
      ensures FindForUser(old(habits), id, userId).Some? ==>
        r == Success(ApplyPatch(old(habits)[id], patch)) && habits == old(habits)[id := r.value]
    {
      if FindForUser(habits, id, userId).None? {
        return Failure(NotFound);
      }
      var h := ApplyPatch(habits[id], patch);
      habits := habits[id := h];
      return Success(h);
    }

    /** `archive(userId, id)`: the soft delete, setting `active` to false. */
    method Archive(userId: UserId, id: HabitId) returns (r: Result<(), Error>)
      requires Valid()
      modifies this
      ensures Valid()
      ensures checkins == old(checkins) && nextCheckinId == old(nextCheckinId) && nextHabitId == old(nextHabitId)
      ensures FindForUser(old(habits), id, userId).None? ==> r == Failure(NotFound) && habits == old(habits)
      ensures FindForUser(old(habits), id, userId).Some? ==>
        r == Success(()) && habits == old(habits)[id := old(habits)[id].(active := false)]
    {
      if FindForUser(habits, id, userId).None? {
        return Failure(NotFound);
      }
      habits := habits[id := habits[id].(active := false)];
      return Success(());
    }

    /** `restore(userId, id)`: sets `active` back to true and returns the habit. */
    method Restore(userId: UserId, id: HabitId) returns (r: Result<Habit, Error>)
      requires Valid()
      modifies this
      ensures Valid()
      ensures checkins == old(checkins) && nextCheckinId == old(nextCheckinId) && nextHabitId == old(nextHabitId)
      ensures FindForUser(old(habits), id, userId).None? ==> r == Failure(NotFound) && habits == old(habits)
      ensures FindForUser(old(habits), id, userId).Some? ==>
        r == Success(old(habits)[id].(active := true)) && habits == old(habits)[id := r.value]
    {
      if FindForUser(habits, id, userId).None? {
        return Failure(NotFound);
      }
      var h := habits[id].(active := true);
      habits := habits[id := h];
      return Success(h);
    }

    /**
     * The writes of a check-in once the habit and its day are known: the
     * day's record gets one more, or a record with count 1 is created.
     */
    method CheckinDay(habitId: HabitId, b: Bounds) returns (c: Checkin)
      requires Valid() && habitId in habits
      requires b.dayStart % 86400000 == 0 && b.nextDay == b.dayStart + 86400000
      modifies this
      ensures Valid()
      ensures habits == old(habits) && nextHabitId == old(nextHabitId)
      ensures var st := CheckinInto(old(checkins), habitId, b, old(nextCheckinId));
        c == st.record && checkins == st.checkins
        && nextCheckinId == if st.created then old(nextCheckinId) + 1 else old(nextCheckinId)
    {
      CheckinKeepsStore(habits, checkins, nextHabitId, nextCheckinId, habitId, b);
      var existing := CheckinRepo.FindInRange(checkins, habitId, b);
      if existing.None? {
        c := Records.Checkin(nextCheckinId, habitId, b.dayStart, 1);
        checkins := checkins + [c];
        nextCheckinId := nextCheckinId + 1;
        return;
      }
      var i := existing.value;
      c := checkins[i].(count := checkins[i].count + 1);
      checkins := checkins[i := c];
    }

    /** `checkin(userId, habitId, dateStr)` at instant `now`. */
    method Checkin(userId: UserId, habitId: HabitId, dateStr: Option<string>, now: int) returns (r: Result<Checkin, Error>)
      requires Valid()
      modifies this
      ensures Valid()
      ensures habits == old(habits) && nextHabitId == old(nextHabitId)
      ensures Outcome(r, checkins, nextCheckinId)
        == CheckinSpec(old(habits), old(checkins), old(nextCheckinId), userId, habitId, dateStr, now)
    {
      if habitId !in habits || habits[habitId].userId != userId {
        return Failure(NotFound);
      }
      if !habits[habitId].active {
        return Failure(Archived);
      }
      var bounds := DayBounds(dateStr, now);
      if bounds.None? {
        return Failure(BadDate);
      }
      var c := CheckinDay(habitId, bounds.value);
      return Success(c);
    }

    /**
     * The writes of an un-check-in once the day is known: the day's record
     * loses one, and is deleted when that leaves it at zero or below.
     */
    method UncheckinDay(habitId: HabitId, b: Bounds) returns (reply: UncheckinReply)
      requires Valid()
      modifies this
      ensures Valid()
      ensures habits == old(habits) && nextHabitId == old(nextHabitId) && nextCheckinId == old(nextCheckinId)
      ensures (checkins, reply) == UncheckinFrom(old(checkins), habitId, b)
    {
      UncheckinKeepsStore(habits, checkins, nextHabitId, nextCheckinId, habitId, b);
      var existing := CheckinRepo.FindInRange(checkins, habitId, b);
      if existing.None? {
        return Cleared(false);
      }
      var i := existing.value;
      var nextCount := checkins[i].count - 1;
      if nextCount <= 0 {
        checkins := checkins[..i] + checkins[i + 1..];
        return Cleared(true);
      }
      var updated := checkins[i].(count := nextCount);
      checkins := checkins[i := updated];
      return Decremented(updated);
    }

    /** `uncheckin(userId, habitId, dateStr)` at instant `now`. */
    method Uncheckin(userId: UserId, habitId: HabitId, dateStr: Option<string>, now: int) returns (r: Result<UncheckinReply, Error>)
      requires Valid()
      modifies this
      ensures Valid()
      ensures habits == old(habits) && nextHabitId == old(nextHabitId) && nextCheckinId == old(nextCheckinId)
      ensures (r, checkins) == UncheckinSpec(old(habits), old(checkins), userId, habitId, dateStr, now)
    {
      if habitId !in habits || habits[habitId].userId != userId {
        return Failure(NotFound);
      }
      var bounds := DayBounds(dateStr, now);
      if bounds.None? {
        return Failure(BadDate);
      }
      var reply := UncheckinDay(habitId, bounds.value);
      return Success(reply);
    }

    /**
     * `listCheckins(userId, habitId, {from, to})`: NOT_FOUND unless the caller
     * owns the habit, BadDate when a given bound does not parse, and otherwise
     * the habit's check-ins from the midnight of `from` to the midnight of
     * `to`, both inclusive.
     */
    function ListCheckins(userId: UserId, habitId: HabitId, from: Option<string>, to: Option<string>): (r: Result<seq<Checkin>, Error>)
      reads this
      ensures r == Failure(NotFound) <==> FindForUser(habits, habitId, userId).None?
      ensures r == Failure(BadDate) <==> FindForUser(habits, habitId, userId).Some? && WhereDate(from, to).Failure?
      ensures r.Success? ==> forall c :: c in r.value <==>
        c in checkins && c.habitId == habitId
        && (Given(from) ==> Date.StartOfUTCDate(from.value).value <= c.date)
        && (Given(to) ==> c.date <= Date.StartOfUTCDate(to.value).value)
    {
      if FindForUser(habits, habitId, userId).None? then Failure(NotFound)
      else match WhereDate(from, to)
        case Failure(e) => Failure(e)
        case Success(f) => Success(CheckinRepo.Select(checkins, habitId, f))
    }

    /**
     * `stats` once the number of days is known: NOT_FOUND unless the caller
     * owns the habit; otherwise the stats over the check-ins dated at or
     * after `now - days * 86400000`.
     */
    method StatsForDays(userId: UserId, habitId: HabitId, days: int, now: int) returns (r: Result<StatsReply, Error>)
      requires days >= 1
      ensures r.Failure? <==> FindForUser(habits, habitId, userId).None?
      ensures r.Failure? ==> r.error == NotFound
      ensures r.Success? ==>
        var window := CheckinRepo.ListSince(checkins, habitId, now - days * 86400000);
        StatsOf(r.value, habits[habitId], window, days, now)
    {
      if FindForUser(habits, habitId, userId).None? {
        return Failure(NotFound);
      }
      var since := now - days * 86400000;
      var window := CheckinRepo.ListSince(checkins, habitId, since);
      var s := StatsOfWindow(habits[habitId], window, days, now);
      return Success(s);
    }

    /**
     * `stats(userId, habitId, range)` at instant `now`, with `days` the
     * clamped `Number(range)`.
     */
    method Stats(userId: UserId, habitId: HabitId, range: string, now: int) returns (r: Result<StatsReply, Error>)
      ensures r.Failure? <==> FindForUser(habits, habitId, userId).None?
      ensures r.Failure? ==> r.error == NotFound
      ensures r.Success? ==>
        var days := RangeDays(Numbers.NumberOf(range));
        var window := CheckinRepo.ListSince(checkins, habitId, now - days * 86400000);
        StatsOf(r.value, habits[habitId], window, days, now)
    {
      r := StatsForDays(userId, habitId, RangeDays(Numbers.NumberOf(range)), now);
    }
  }
}
