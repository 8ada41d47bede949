/**
 * The inline route handlers of the API server for check-in, un-check-in,
 * the check-in listing and the stats, which repeat the service's logic on
 * the same tables. Each handler is written in the handler's own order (the
 * day bounds are computed before the habit lookup) and is proved to give
 * the same reply and the same new tables as the service operation.
 */
module Server {

  import opened Wrappers
  import opened Records
  import Date
  import Numbers
  import CheckinRepo
  import HabitsService

  /** `POST /habits/:id/checkin` with body date `dateStr`, at instant `now`. */
  method PostCheckin(store: HabitsService.Store, userId: UserId, id: HabitId, dateStr: Option<string>, now: int)
    returns (r: Result<Checkin, Error>)
    requires store.Valid()
    modifies store
    ensures store.Valid()
    ensures store.habits == old(store.habits) && store.nextHabitId == old(store.nextHabitId)
    ensures HabitsService.Outcome(r, store.checkins, store.nextCheckinId)
      == HabitsService.CheckinSpec(old(store.habits), old(store.checkins), old(store.nextCheckinId), userId, id, dateStr, now)
  {
    var bounds := HabitsService.DayBounds(dateStr, now);
    if id !in store.habits || store.habits[id].userId != userId {
      return Failure(NotFound);
    }
    if !store.habits[id].active {
      return Failure(Archived);
    }
    if bounds.None? {
      return Failure(BadDate);
    }
    var c := store.CheckinDay(id, bounds.value);
    return Success(c);
  }

  /** `POST /habits/:id/uncheckin` with body date `dateStr`, at instant `now`. */
  method PostUncheckin(store: HabitsService.Store, userId: UserId, id: HabitId, dateStr: Option<string>, now: int)
    returns (r: Result<HabitsService.UncheckinReply, Error>)
    requires store.Valid()
    modifies store
    ensures store.Valid()
    ensures store.habits == old(store.habits) && store.nextHabitId == old(store.nextHabitId)
    ensures store.nextCheckinId == old(store.nextCheckinId)
    ensures (r, store.checkins) == HabitsService.UncheckinSpec(old(store.habits), old(store.checkins), userId, id, dateStr, now)
  {
    var bounds := HabitsService.DayBounds(dateStr, now);
    if id !in store.habits || store.habits[id].userId != userId {
      return Failure(NotFound);
    }
    if bounds.None? {
      return Failure(BadDate);
    }
    var reply := store.UncheckinDay(id, bounds.value);
    return Success(reply);
  }

  /**
   * `GET /habits/:id/checkins?from&to`: the `where` object is built inline,
   * with a `date` part only when one of the bounds is given. It answers
   * exactly what the service's listing answers.
   */
  function GetCheckins(store: HabitsService.Store, userId: UserId, id: HabitId, from: Option<string>, to: Option<string>)
    : (r: Result<seq<Checkin>, Error>)
    reads store
    ensures r == store.ListCheckins(userId, id, from, to)
  {
    if HabitsService.FindForUser(store.habits, id, userId).None? then Failure(NotFound)
    else if !HabitsService.Given(from) && !HabitsService.Given(to) then
      Success(CheckinRepo.Select(store.checkins, id, CheckinRepo.DateFilter(None, None)))
    else
      var gte := if HabitsService.Given(from) then Date.StartOfUTCDate(from.value) else None;
      var lte := if HabitsService.Given(to) then Date.StartOfUTCDate(to.value) else None;
      if (HabitsService.Given(from) && gte.None?) || (HabitsService.Given(to) && lte.None?) then Failure(BadDate)
      else Success(CheckinRepo.Select(store.checkins, id, CheckinRepo.DateFilter(gte, lte)))
  }

  /**
   * The handler's range: the query string when there is one, else "30",
   * read with `parseInt` and clamped; the default is written as the 30 it
   * reads as (`ParseThirty`).
   */
  function RangeOfQuery(range: Option<string>): (days: int)
    ensures 1 <= days <= 365
    ensures range.None? ==> days == HabitsService.RangeDays(Numbers.ParseInt("30"))
    ensures range.Some? ==> days == HabitsService.RangeDays(Numbers.ParseInt(range.value))
  {
    ParseThirty();
    if range.None? then 30 else HabitsService.RangeDays(Numbers.ParseInt(range.value))
  }

  lemma ParseThirty()
    ensures Numbers.ParseInt("30") == Some(30)
  {
    var s := "30";
    assert Date.IsDigit(s[0]) && Date.IsDigit(s[1]);
    assert s[..1] == "3" && "3"[..0] == [];
    assert Date.DigitsValue(s) == 30;
    Numbers.NumberAgreesWithParseInt(s);
  }

  /**
   * `GET /habits/:id/stats?range` at instant `now`: the same stats as the
   * service, over the range the handler reads. Its inline `computeStreaks`
   * is the service's text repeated, so both run `Streaks.ComputeStreaks`.
   */
  method GetStats(store: HabitsService.Store, userId: UserId, id: HabitId, range: Option<string>, now: int)
    returns (r: Result<HabitsService.StatsReply, Error>)
    ensures r.Failure? <==> HabitsService.FindForUser(store.habits, id, userId).None?
    ensures r.Failure? ==> r.error == NotFound
    ensures r.Success? ==>
      var days := RangeOfQuery(range);
      var window := CheckinRepo.ListSince(store.checkins, id, now - days * 86400000);
      HabitsService.StatsOf(r.value, store.habits[id], window, days, now)
  {
    r := store.StatsForDays(userId, id, RangeOfQuery(range), now);
  }

  /**
   * On a range that is a signed decimal integer the handler and the service
   * use the same number of days, so their stats coincide.
   */
  lemma RangesAgree(range: string)
    requires Numbers.SignedDecimal(range).Some?
    ensures RangeOfQuery(Some(range)) == HabitsService.RangeDays(Numbers.NumberOf(range))
  {
    Numbers.NumberAgreesWithParseInt(range);
  }

  /** On "7days" they differ: the service falls back to 30 days, the handler uses 7. */
  lemma RangesDiffer()
    ensures HabitsService.RangeDays(Numbers.NumberOf("7days")) == 30
    ensures RangeOfQuery(Some("7days")) == 7
  {
    Numbers.NumberRejectsSuffix();
    Numbers.ParseIntReadsPrefix();
  }
}
