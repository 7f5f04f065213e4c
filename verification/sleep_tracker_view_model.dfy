/** The tracker screen's view model: the cached `tonight` slot, two one-shot
    events, the derived button flags, and the click handlers that read and
    write the store. Each launched coroutine is one atomic step that takes
    the store and the view-model state and returns both. */
module SleepTrackerViewModel {
  import opened SleepNight
  import opened SleepDatabaseDao

  /** The view model's observable fields. `None` is a LiveData holding null
      (or holding nothing yet). */
  datatype Tracker = Tracker(
    tonight: Option<Night>,
    navigateToSleepQuality: Option<Night>,
    showSnackbarEvent: Option<bool>)

  /** The store and the view model together: what one click handler changes. */
  datatype TrackerStep = TrackerStep(db: Store, vm: Tracker)

  /** `getTonightFromDatabase`: the newest night, but only while it is still
      in progress (end time equal to start time); otherwise null. */
  function GetTonightFromDatabase(db: Store): (r: Option<Night>)
    requires Valid(db)
    ensures r.Some? ==> GetTonight(db) == r && InProgress(r.value)
    ensures r.None? ==> GetTonight(db).None? || !InProgress(GetTonight(db).value)
  {
    var night := GetTonight(db);
    if night.Some? && !InProgress(night.value) then None else night
  }

  /** Construction followed by `initializeTonight`: every LiveData starts
      empty and `tonight` is then loaded from the store. */
  function Create(db: Store): (vm: Tracker)
    requires Valid(db)
    ensures vm.navigateToSleepQuality.None? && vm.showSnackbarEvent.None?
    ensures vm.tonight.Some? <==> GetTonight(db).Some? && InProgress(GetTonight(db).value)
    ensures vm.tonight.Some? ==> vm.tonight == GetTonight(db)
  {
    Tracker(GetTonightFromDatabase(db), None, None)
  }

  /** `onStartTracking`: insert a new night created at `now`, then reload
      `tonight` from the store. There is no guard: it runs in any state. */
  function OnStartTracking(st: TrackerStep, now: int): (r: TrackerStep)
    requires Valid(st.db)
    ensures Valid(r.db)
    ensures r.db.rows.Keys == st.db.rows.Keys + {FreshId(st.db)}
    ensures forall k :: k in st.db.rows ==> r.db.rows[k] == st.db.rows[k]
    ensures r.vm.tonight == Some(Night(FreshId(st.db), now, now, Unrated))
    ensures r.db.rows[FreshId(st.db)] == r.vm.tonight.value
    ensures r.vm.navigateToSleepQuality == st.vm.navigateToSleepQuality
    ensures r.vm.showSnackbarEvent == st.vm.showSnackbarEvent
  {
    var db := Insert(st.db, NewNight(now));
    TonightAfterInsert(st.db, NewNight(now));
    TrackerStep(db, st.vm.(tonight := GetTonightFromDatabase(db)))
  }

  /** `onStopTracking`: with no cached night nothing happens. Otherwise the
      cached night object itself gets end time `now` (so `tonight` sees the
      change), it is written back with `update`, and it becomes the
      navigation event. */
  function OnStopTracking(st: TrackerStep, now: int): (r: TrackerStep)
    requires Valid(st.db)
    ensures Valid(r.db)
    ensures st.vm.tonight.None? ==> r == st
    ensures st.vm.tonight.Some? ==>
      var stopped := st.vm.tonight.value.(endTimeMilli := now);
      && r.vm.tonight == Some(stopped)
      && r.vm.navigateToSleepQuality == Some(stopped)
      && r.vm.showSnackbarEvent == st.vm.showSnackbarEvent
      && r.db.rows.Keys == st.db.rows.Keys
      && (stopped.nightId in st.db.rows ==> r.db.rows[stopped.nightId] == stopped)
      && (forall k :: k in st.db.rows && k != stopped.nightId ==> r.db.rows[k] == st.db.rows[k])
  {
    match st.vm.tonight
    case None => st
    case Some(oldNight) =>
      var stopped := oldNight.(endTimeMilli := now);
      TrackerStep(Update(st.db, stopped),
                  st.vm.(tonight := Some(stopped), navigateToSleepQuality := Some(stopped)))
  }

  /** `onClear`: empty the store, forget `tonight`, raise the snackbar. */
  function OnClear(st: TrackerStep): (r: TrackerStep)
    requires Valid(st.db)
    ensures Valid(r.db)
    ensures GetAllNights(r.db) == [] && GetTonight(r.db) == None
    ensures r.db.nextId == st.db.nextId
    ensures r.vm.tonight.None?
    ensures r.vm.showSnackbarEvent == Some(true)
    ensures r.vm.navigateToSleepQuality == st.vm.navigateToSleepQuality
  {
    TrackerStep(Clear(st.db), st.vm.(tonight := None, showSnackbarEvent := Some(true)))
  }

  /** `doneNavigation`: consume the navigation event. */
  function DoneNavigation(vm: Tracker): (r: Tracker)
    ensures r.navigateToSleepQuality.None?
    ensures r.tonight == vm.tonight && r.showSnackbarEvent == vm.showSnackbarEvent
  {
    vm.(navigateToSleepQuality := None)
  }

  /** `doneShowingSnackbar`: consume the snackbar event. */
  function DoneShowingSnackbar(vm: Tracker): (r: Tracker)
    ensures r.showSnackbarEvent == Some(false)
    ensures r.tonight == vm.tonight && r.navigateToSleepQuality == vm.navigateToSleepQuality
  {
    vm.(showSnackbarEvent := Some(false))
  }

  /** `startButtonVisible`: enabled while there is no cached night. */
  predicate StartButtonVisible(vm: Tracker)
  {
    vm.tonight == None
  }

  /** `stopButtonVisible`: enabled while there is a cached night. */
  predicate StopButtonVisible(vm: Tracker)
  {
    vm.tonight != None
  }

  /** `clearButtonVisible`: enabled while the list of all nights is not
      empty. */
  predicate ClearButtonVisible(db: Store)
    requires Valid(db)
  {
    GetAllNights(db) != []
  }

  /** Exactly one of start and stop is enabled, whatever the state. */
  lemma ButtonsComplementary(vm: Tracker)
    ensures StartButtonVisible(vm) <==> !StopButtonVisible(vm)
    ensures StartButtonVisible(vm) <==> vm.tonight.None?
  {
  }

  /** Clear is enabled exactly when the store holds at least one night. */
  lemma ClearVisibleIffStored(db: Store)
    requires Valid(db)
    ensures ClearButtonVisible(db) <==> |db.rows| > 0
  {
  }

  /** After `onClear`, start is enabled and clear is disabled. */
  lemma ButtonsAfterClear(st: TrackerStep)
    requires Valid(st.db)
    ensures StartButtonVisible(OnClear(st).vm)
    ensures !StopButtonVisible(OnClear(st).vm)
    ensures !ClearButtonVisible(OnClear(st).db)
  {
  }

  /** After `onStartTracking`, stop and clear are enabled and start is not;
      the newest stored night is the in-progress `tonight`. */
  lemma ButtonsAfterStart(st: TrackerStep, now: int)
    requires Valid(st.db)
    ensures var r := OnStartTracking(st, now);
      && StopButtonVisible(r.vm) && !StartButtonVisible(r.vm)
      && ClearButtonVisible(r.db)
      && GetTonight(r.db) == r.vm.tonight
      && InProgress(r.vm.tonight.value)
  {
  }

  /** Stopping never clears `tonight`: once a night was cached, start stays
      disabled after stop. */
  lemma StopKeepsStartDisabled(st: TrackerStep, now: int)
    requires Valid(st.db)
    requires st.vm.tonight.Some?
    ensures StopButtonVisible(OnStopTracking(st, now).vm)
    ensures !StartButtonVisible(OnStopTracking(st, now).vm)
  {
  }

  /** Restart recovery: a tracker created over a store whose newest night is
      still in progress adopts that night. */
  lemma CreateAdoptsInProgressNight(db: Store, n: Night)
    requires Valid(db)
    requires GetTonight(db) == Some(n) && InProgress(n)
    ensures Create(db).tonight == Some(n)
    ensures StopButtonVisible(Create(db))
  {
  }

  /** A tracker created over an empty store, or one whose newest night is
      finished, has nothing cached and offers start. */
  lemma CreateIdleOtherwise(db: Store)
    requires Valid(db)
    requires GetTonight(db).None? || !InProgress(GetTonight(db).value)
    ensures Create(db).tonight == None
    ensures StartButtonVisible(Create(db))
  {
  }
}
