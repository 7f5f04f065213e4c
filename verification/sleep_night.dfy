/** The persisted entity of the sleep tracker: one row of the
    `daily_sleep_quality_table`, plus the optional-value wrapper that stands in
    for Kotlin's nullable types. */
module SleepNight {

  /** A nullable value: `None` plays the role of Kotlin's `null`. */
  datatype Option<+T> = None | Some(value: T)

  /** One sleep session. Times are milliseconds since the epoch; a night whose
      end time still equals its start time is in progress. */
  datatype Night = Night(nightId: int, startTimeMilli: int, endTimeMilli: int, sleepQuality: int)

  /** The quality a night carries before anyone rates it. */
  const Unrated: int := -1

  /** The placeholder key of a night that has not been inserted yet; the store
      replaces it with an auto-generated one. */
  const UnsavedId: int := 0

  /** The entity's no-argument constructor, with the clock reading `now`
      passed in: start and end are both `now`, so the night is in progress. */
  function NewNight(now: int): Night
  {
    Night(UnsavedId, now, now, Unrated)
  }

  /** The tracker's "not yet stopped" test: end time equal to start time. */
  predicate InProgress(n: Night)
  {
    n.endTimeMilli == n.startTimeMilli
  }
}
