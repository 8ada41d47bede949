/**
 * The persistent entities of the habit tracker, as stored by the database:
 * a habit owned by one user, and a per-day check-in counter of a habit.
 * Identifiers are opaque in the database; here they are natural numbers.
 */
module Records {

  import opened Wrappers

  type UserId = nat
  type HabitId = nat
  type CheckinId = nat

  /** `targetPerDay` is validated to 1..50 on input; `active == false` is a soft delete. */
  datatype Habit = Habit(
    id: HabitId,
    userId: UserId,
    name: string,
    description: Option<string>,
    targetPerDay: int,
    active: bool)

  /** `date` is an instant in milliseconds since the epoch; the store keeps it at UTC midnight. */
  datatype Checkin = Checkin(id: CheckinId, habitId: HabitId, date: int, count: int)

  /**
   * Failures of the habit service: the habit is not the caller's (NOT_FOUND),
   * it is archived (ARCHIVED), or a date string is not a calendar date, which
   * yields an invalid Date that the database layer rejects (BadDate).
   */
  datatype Error = NotFound | Archived | BadDate
}
