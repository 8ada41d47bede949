/**
 * Query semantics of the check-in repository, over the check-in table as a
 * sequence of records:
 *   - the day lookup `findFirst({habitId, date: {gte, lt}}, orderBy date asc)`;
 *   - the listings `findMany({habitId, date: {gte?, lte?}})`.
 * The database's order of the listed rows (newest first) is not modelled:
 * listings keep table order.
 */
module CheckinRepo {

  import opened Wrappers
  import opened Records

  /** A half-open interval of instants `[dayStart, nextDay)`. */
  datatype Bounds = Bounds(dayStart: int, nextDay: int)

  predicate InRange(c: Checkin, habitId: HabitId, b: Bounds)
  {
    c.habitId == habitId && b.dayStart <= c.date < b.nextDay
  }

  /**
   * `findForHabitInDayRange`: the position of the record of `habitId` in
   * `[dayStart, nextDay)` with the earliest date; among records with the same
   * date, the first in table order.
   */
  function FindInRange(cs: seq<Checkin>, habitId: HabitId, b: Bounds): (r: Option<nat>)
    ensures r.None? <==> forall j :: 0 <= j < |cs| ==> !InRange(cs[j], habitId, b)
    ensures r.Some? ==> r.value < |cs| && InRange(cs[r.value], habitId, b)
    ensures r.Some? ==> forall j :: 0 <= j < |cs| && InRange(cs[j], habitId, b) ==> cs[r.value].date <= cs[j].date
    ensures r.Some? ==> forall j :: 0 <= j < r.value && InRange(cs[j], habitId, b) ==> cs[r.value].date < cs[j].date
  {
    if |cs| == 0 then None
    else
      var last := |cs| - 1;
      var r := FindInRange(cs[..last], habitId, b);
      assert forall j :: 0 <= j < last ==> cs[..last][j] == cs[j];
      if !InRange(cs[last], habitId, b) then r
      else if r.Some? && cs[r.value].date <= cs[last].date then r
      else Some(last)
  }

  /** A `where.date` filter: optional inclusive lower and upper bounds. */
  datatype DateFilter = DateFilter(gte: Option<int>, lte: Option<int>)

  predicate Matches(c: Checkin, habitId: HabitId, f: DateFilter)
  {
    c.habitId == habitId
    && (f.gte.Some? ==> f.gte.value <= c.date)
    && (f.lte.Some? ==> c.date <= f.lte.value)
  }

  /** `findMany({where: {habitId, date: filter}})`: the matching records, in table order. */
  function Select(cs: seq<Checkin>, habitId: HabitId, f: DateFilter): (r: seq<Checkin>)
    ensures forall c :: c in r <==> c in cs && Matches(c, habitId, f)
    ensures |r| <= |cs|
  {
    if |cs| == 0 then []
    else
      var rest := Select(cs[1..], habitId, f);
      assert forall c :: c in cs <==> c == cs[0] || c in cs[1..];
      if Matches(cs[0], habitId, f) then [cs[0]] + rest else rest
  }

  /** `listSince(habitId, since)`: the records of `habitId` dated at or after `since`. */
  function ListSince(cs: seq<Checkin>, habitId: HabitId, since: int): (r: seq<Checkin>)
    ensures forall c :: c in r <==> c in cs && c.habitId == habitId && since <= c.date
  {
    Select(cs, habitId, DateFilter(Some(since), None))
  }
}
