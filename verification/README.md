# TrackMySleepQuality: session store and view-model state machines

A Dafny model of the core of a single-user Android sleep tracker. The app
records "nights": a start time, an end time and a quality rating. It keeps
them in a Room table and drives them from two screens.

- **`SleepNight`** (`sleep_night.dfy`): the persisted entity. A night is
  *in progress* while its end time equals its start time. It also holds
  `Option`, which stands in for Kotlin's nullable types.
- **`SleepDatabaseDao`** (`sleep_database_dao.dfy`): the DAO as an
  immutable keyed store. The table is a map from `nightId` to night, plus
  the next auto-increment key. It models `insert`, `update`, `get`,
  `clear`, `getTonight` (newest row) and `getAllNights` (every row, newest
  first). Each query is characterised by what its SQL promises. For
  example, `AllNightsUnique` shows the newest-first listing is the only
  sequence that lists the rows with strictly decreasing keys.
- **`SleepTrackerViewModel`** (`sleep_tracker_view_model.dfy`): the
  tracker screen's state is the cached `tonight` slot and two one-shot
  events. The click handlers are pure functions from the store and this
  state to a new store and state. The three button flags are predicates of
  that state.
- **`SleepQualityViewModel`** (`sleep_quality_view_model.dfy`): the rating
  step. It fetches a night by key, overwrites its quality and raises a
  navigation event. If the key is absent it does nothing.
- **`Lifecycle`** (`lifecycle.dfy`): both view models over one store, run as
  a sequence of user events. `GuardedRunKeepsOneInProgress` proves that if
  start, stop and clear are clicked only while their buttons are enabled,
  the store never holds more than one in-progress night. Two further
  lemmas show what the code, as written, does not guard against:
  - `UnguardedStartTwiceLeavesTwoInProgress`: `onStartTracking` has no
    guard of its own, so two starts in a row leave two in-progress nights.
  - `StaleStopDropsRating`: `onStopTracking` never clears `tonight`. A
    tracker instance that survives the rating screen can stop the same
    night again, and doing so writes back its cached copy, which still
    carries the unrated quality.

Each coroutine launched by a click handler is one atomic step. The clock
is a parameter `now`.

The model follows what the code does, including where a stricter design
would differ:
- quality is not range-checked;
- `onStartTracking` has no guard;
- `onStopTracking` keeps `tonight`, updated with the new end time, rather
  than moving to a separate "awaiting rating" state;
- `update` on a key that is not stored writes nothing and reports no error,
  which is what Room's `@Update` does.

`SleepNight.kt` is not part of this model. The entity is declared with the
four fields the code touches. Three behaviours of the entity and of Room
are assumed, not seen:
- the no-argument constructor gives start = end = `now`, quality `-1` and
  placeholder id `0` (`NewNight`);
- the key is auto-generated, strictly greater than every stored key, and
  never reused after a clear (`FreshId`, `Insert`);
- keys start at 1 on an empty database.

## Model

| member | source | states |
|---|---|---|
| SleepDatabaseDao.FreshId | app/src/main/java/com/example/android/trackmysleepquality/database/SleepDatabaseDao.kt:39-40 | the key an insert assigns is not in the table and is greater than every stored key |
| SleepDatabaseDao.Insert | app/src/main/java/com/example/android/trackmysleepquality/database/SleepDatabaseDao.kt:39-40 | insert adds exactly one row, under the fresh key, holding the given night's data; the size grows by one and every existing row is untouched |
| SleepDatabaseDao.Update | app/src/main/java/com/example/android/trackmysleepquality/database/SleepDatabaseDao.kt:42-43 | update overwrites only the row whose key is the night's id, leaves every other row and the key set unchanged, and changes nothing when that key is not stored |
| SleepDatabaseDao.Get | app/src/main/java/com/example/android/trackmysleepquality/database/SleepDatabaseDao.kt:45-47 | get returns the stored row whose nightId equals the key, and none when no stored row has that nightId |
| SleepDatabaseDao.Clear | app/src/main/java/com/example/android/trackmysleepquality/database/SleepDatabaseDao.kt:49-51 | clear leaves no rows and keeps the auto-increment counter |
| SleepDatabaseDao.GetTonight | app/src/main/java/com/example/android/trackmysleepquality/database/SleepDatabaseDao.kt:53-55 | getTonight returns a stored row whose nightId is at least every stored nightId, and none exactly when the table is empty |
| SleepDatabaseDao.GetAllNights | app/src/main/java/com/example/android/trackmysleepquality/database/SleepDatabaseDao.kt:57-59 | getAllNights has one entry per row, every entry is a stored row, every stored row appears, and nightIds strictly decrease |
| SleepDatabaseDao.AllNightsUnique | app/src/main/java/com/example/android/trackmysleepquality/database/SleepDatabaseDao.kt:57-59 | any sequence listing exactly the stored rows in strictly decreasing nightId order equals getAllNights |
| SleepDatabaseDao.DescendingListsEqual | app/src/main/java/com/example/android/trackmysleepquality/database/SleepDatabaseDao.kt:57-59 | two sequences ordered by strictly decreasing nightId with the same elements are equal, so ORDER BY nightId DESC fixes the result |
| SleepDatabaseDao.TonightHeadsAllNights | app/src/main/java/com/example/android/trackmysleepquality/database/SleepDatabaseDao.kt:53-59 | getAllNights is empty exactly when getTonight is none, and otherwise its head is getTonight |
| SleepDatabaseDao.ClearEmptiesQueries | app/src/main/java/com/example/android/trackmysleepquality/database/SleepDatabaseDao.kt:45-59 | after clear, getAllNights is empty, getTonight is none and get finds no key |
| SleepDatabaseDao.TonightAfterInsert | app/src/main/java/com/example/android/trackmysleepquality/database/SleepDatabaseDao.kt:39-55 | after an insert, getTonight returns the inserted night under its fresh key |
| SleepDatabaseDao.AllNightsAfterInsert | app/src/main/java/com/example/android/trackmysleepquality/database/SleepDatabaseDao.kt:39-59 | after an insert, getAllNights is the inserted night followed by the previous getAllNights |
| SleepDatabaseDao.GetAfterInsert | app/src/main/java/com/example/android/trackmysleepquality/database/SleepDatabaseDao.kt:39-47 | the inserted night can be fetched by its fresh key, and every other key answers as before |
| SleepDatabaseDao.GetAfterUpdate | app/src/main/java/com/example/android/trackmysleepquality/database/SleepDatabaseDao.kt:42-47 | after update, get on the night's key returns the new night if that key was stored and none otherwise; other keys answer as before |
| SleepTrackerViewModel.GetTonightFromDatabase | app/src/main/java/com/example/android/trackmysleepquality/sleeptracker/SleepTrackerViewModel.kt:78-91 | returns the newest night only when its end time equals its start time, and none when the newest night is finished or the table is empty |
| SleepTrackerViewModel.Create | app/src/main/java/com/example/android/trackmysleepquality/sleeptracker/SleepTrackerViewModel.kt:58-74 | a new tracker has no pending events, and caches the newest night exactly when that night is in progress |
| SleepTrackerViewModel.CreateAdoptsInProgressNight | app/src/main/java/com/example/android/trackmysleepquality/sleeptracker/SleepTrackerViewModel.kt:58-91 | over a store whose newest night is in progress, a new tracker caches that night and enables stop |
| SleepTrackerViewModel.CreateIdleOtherwise | app/src/main/java/com/example/android/trackmysleepquality/sleeptracker/SleepTrackerViewModel.kt:58-91 | over an empty store or one whose newest night is finished, a new tracker caches nothing and enables start |
| SleepTrackerViewModel.OnStartTracking | app/src/main/java/com/example/android/trackmysleepquality/sleeptracker/SleepTrackerViewModel.kt:104-119 | start inserts exactly one night under a fresh key, leaves existing rows unchanged, makes tonight that new night with start = end = now, and keeps both events |
| SleepTrackerViewModel.ButtonsAfterStart | app/src/main/java/com/example/android/trackmysleepquality/sleeptracker/SleepTrackerViewModel.kt:104-119 | after start, tonight is the store's newest night and is in progress; stop and clear are enabled and start is not |
| SleepTrackerViewModel.OnStopTracking | app/src/main/java/com/example/android/trackmysleepquality/sleeptracker/SleepTrackerViewModel.kt:124-132 | with no cached night, stop changes nothing; otherwise the cached night gets end time now, is written over its own row only, becomes the navigation event and stays cached |
| SleepTrackerViewModel.StopKeepsStartDisabled | app/src/main/java/com/example/android/trackmysleepquality/sleeptracker/SleepTrackerViewModel.kt:124-132 | stopping a cached night leaves stop enabled and start disabled |
| SleepTrackerViewModel.OnClear | app/src/main/java/com/example/android/trackmysleepquality/sleeptracker/SleepTrackerViewModel.kt:135-143 | clear empties the store, so getAllNights is empty and getTonight is none; it sets tonight to none and the snackbar event to true, and keeps the navigation event |
| SleepTrackerViewModel.ButtonsAfterClear | app/src/main/java/com/example/android/trackmysleepquality/sleeptracker/SleepTrackerViewModel.kt:135-143 | after clear, start is enabled, and stop and clear are disabled |
| SleepTrackerViewModel.DoneNavigation | app/src/main/java/com/example/android/trackmysleepquality/sleeptracker/SleepTrackerViewModel.kt:168-170 | the navigation event becomes none; tonight and the snackbar event are unchanged |
| SleepTrackerViewModel.DoneShowingSnackbar | app/src/main/java/com/example/android/trackmysleepquality/sleeptracker/SleepTrackerViewModel.kt:211-213 | the snackbar event becomes false; tonight and the navigation event are unchanged |
| SleepTrackerViewModel.ButtonsComplementary | app/src/main/java/com/example/android/trackmysleepquality/sleeptracker/SleepTrackerViewModel.kt:183-191 | start is enabled exactly when tonight is none, and exactly when stop is disabled |
| SleepTrackerViewModel.ClearVisibleIffStored | app/src/main/java/com/example/android/trackmysleepquality/sleeptracker/SleepTrackerViewModel.kt:193-196 | clear is enabled exactly when the store holds at least one night |
| SleepQualityViewModel.Create | app/src/main/java/com/example/android/trackmysleepquality/sleepquality/SleepQualityViewModel.kt:30-44 | a new rating view model keeps the given key and has no pending navigation event |
| SleepQualityViewModel.DoneNavigating | app/src/main/java/com/example/android/trackmysleepquality/sleepquality/SleepQualityViewModel.kt:46-48 | the navigation event becomes none and the key is kept; the store is not an argument |
| SleepQualityViewModel.OnSetSleepQuality | app/src/main/java/com/example/android/trackmysleepquality/sleepquality/SleepQualityViewModel.kt:53-70 | for a missing key nothing changes and no event is raised; otherwise that night's quality becomes exactly the argument, its id and times are unchanged, every other row is unchanged, and the event is true |
| SleepQualityViewModel.RatingIdempotent | app/src/main/java/com/example/android/trackmysleepquality/sleepquality/SleepQualityViewModel.kt:59-65 | rating twice with the same quality gives the same store as rating once |
| SleepQualityViewModel.RatingKeepsProgress | app/src/main/java/com/example/android/trackmysleepquality/sleepquality/SleepQualityViewModel.kt:59-65 | rating keeps the key set and whether each night is in progress |
| Lifecycle.OnlyNewestGivesAtMostOne | app/src/main/java/com/example/android/trackmysleepquality/sleeptracker/SleepTrackerViewModel.kt:78-91 | if only the newest night may be in progress, no two distinct nights are in progress |
| Lifecycle.NewestIsTonight | app/src/main/java/com/example/android/trackmysleepquality/database/SleepDatabaseDao.kt:53-55 | a stored key that is at least every stored key names the row getTonight returns |
| Lifecycle.CreateIsCoherent | app/src/main/java/com/example/android/trackmysleepquality/sleeptracker/SleepTrackerViewModel.kt:58-91 | a tracker created over a store in which only the newest night may be in progress starts in the coherent state |
| Lifecycle.StartKeepsCoherent | app/src/main/java/com/example/android/trackmysleepquality/sleeptracker/SleepTrackerViewModel.kt:104-119 | a start while the start button is enabled keeps the coherent state |
| Lifecycle.StopKeepsCoherent | app/src/main/java/com/example/android/trackmysleepquality/sleeptracker/SleepTrackerViewModel.kt:124-132 | a stop keeps the coherent state |
| Lifecycle.RateKeepsCoherent | app/src/main/java/com/example/android/trackmysleepquality/sleepquality/SleepQualityViewModel.kt:53-70 | a rating keeps the coherent state |
| Lifecycle.ApplyKeepsCoherent | app/src/main/java/com/example/android/trackmysleepquality/sleeptracker/SleepTrackerViewModel.kt:104-213 | every event the screen allows keeps the coherent state |
| Lifecycle.GuardedRunKeepsOneInProgress | app/src/main/java/com/example/android/trackmysleepquality/sleeptracker/SleepTrackerViewModel.kt:104-196 | from a coherent state, any run whose start, stop and clear clicks come through enabled buttons ends coherent, with at most one night in progress |
| Lifecycle.Launch | app/src/main/java/com/example/android/trackmysleepquality/sleeptracker/SleepTrackerViewModel.kt:58-74 | a tracker over the empty database is coherent, with start enabled and clear disabled |
| Lifecycle.UnguardedStartTwiceLeavesTwoInProgress | app/src/main/java/com/example/android/trackmysleepquality/sleeptracker/SleepTrackerViewModel.kt:104-119 | two starts in a row from launch leave nights 1 and 2 both in progress, and the second start is not one the screen allows |
| Lifecycle.StaleStopDropsRating | app/src/main/java/com/example/android/trackmysleepquality/sleeptracker/SleepTrackerViewModel.kt:124-132 | on a surviving tracker instance, the allowed run start, stop, rate, stop leaves the night unrated, with the last stop's end time |

## Left out

- Coroutine scheduling: each `viewModelScope.launch` block is one atomic step. Interleavings are not modelled, such as a start clicked before `initializeTonight`'s coroutine has finished.
- LiveData and `Transformations.map`: they become plain fields and pure predicates. Observer notification is not modelled, and neither is the null `clearButtonVisible` before the first emission of the nights list.
- `nightsString` and `formatNights`: display formatting, and its source is not shown.
- `System.currentTimeMillis()`: the clock reading is the parameter `now`.
- `SleepDatabase.getInstance`: synchronized lazy singleton construction, the Room builder and destructive migration. This is library plumbing and thread safety.
- The two view-model factories: reflection-based construction.
- `SleepQualityFragment`: view inflation, Safe Args and navigation. Its 0–5 labels are comments that no code enforces.
- Storage failures: Room's exceptions on I/O errors are not modelled, so every DAO call succeeds.
- Integer width: `Long` ids and times and `Int` quality are unbounded integers, so 64-bit and 32-bit overflow are not modelled.
- SleepDatabaseDao.Insert: every insert auto-generates its key. Inserting a night with an explicit non-zero id, and the conflict that could cause, is not modelled, because the code only inserts freshly constructed nights.
