/** The rating screen's view model: it holds the key of the night being
    rated and a one-shot event that sends the user back to the tracker. */
module SleepQualityViewModel {
  import opened SleepNight
  import opened SleepDatabaseDao

  /** `sleepNightKey` is fixed at construction; `navigateToSleepTracker` is
      a nullable Boolean LiveData. */
  datatype Rater = Rater(sleepNightKey: int, navigateToSleepTracker: Option<bool>)

  /** The store and the rating view model together. */
  datatype RatingStep = RatingStep(db: Store, vm: Rater)

  /** The key used when the caller supplies none. */
  const DefaultKey: int := 0

  /** Construction: the event LiveData starts empty. */
  function Create(sleepNightKey: int := DefaultKey): (vm: Rater)
    ensures vm.sleepNightKey == sleepNightKey && vm.navigateToSleepTracker.None?
  {
    Rater(sleepNightKey, None)
  }

  /** `doneNavigating`: consume the navigation event; the key is kept. */
  function DoneNavigating(vm: Rater): (r: Rater)
    ensures r.navigateToSleepTracker.None?
    ensures r.sleepNightKey == vm.sleepNightKey
  {
    vm.(navigateToSleepTracker := None)
  }

  /** `onSetSleepQuality`: fetch the night by key; if there is none, stop.
      Otherwise set its quality to `quality` (no range check), write it back
      and raise the navigation event. */
  function OnSetSleepQuality(st: RatingStep, quality: int): (r: RatingStep)
    requires Valid(st.db)
    ensures Valid(r.db)
    ensures r.vm.sleepNightKey == st.vm.sleepNightKey
    ensures st.vm.sleepNightKey !in st.db.rows ==> r == st
    ensures st.vm.sleepNightKey in st.db.rows ==>
      var key := st.vm.sleepNightKey;
      var before := st.db.rows[key];
      && r.vm.navigateToSleepTracker == Some(true)
      && r.db.rows.Keys == st.db.rows.Keys
      && r.db.rows[key].sleepQuality == quality
      && r.db.rows[key].startTimeMilli == before.startTimeMilli
      && r.db.rows[key].endTimeMilli == before.endTimeMilli
      && r.db.rows[key].nightId == key
      && (forall k :: k in st.db.rows && k != key ==> r.db.rows[k] == st.db.rows[k])
  {
    match Get(st.db, st.vm.sleepNightKey)
    case None => st
    case Some(tonight) =>
      var rated := tonight.(sleepQuality := quality);
      RatingStep(Update(st.db, rated), st.vm.(navigateToSleepTracker := Some(true)))
  }

  /** Rating twice with the same quality leaves the store as rating once. */
  lemma RatingIdempotent(st: RatingStep, quality: int)
    requires Valid(st.db)
    ensures OnSetSleepQuality(OnSetSleepQuality(st, quality), quality).db
         == OnSetSleepQuality(st, quality).db
  {
  }

  /** Rating never adds or removes nights, and never changes whether a
      night is in progress. */
  lemma RatingKeepsProgress(st: RatingStep, quality: int)
    requires Valid(st.db)
    ensures OnSetSleepQuality(st, quality).db.rows.Keys == st.db.rows.Keys
    ensures forall k :: k in st.db.rows ==>
      (InProgress(OnSetSleepQuality(st, quality).db.rows[k]) <==> InProgress(st.db.rows[k]))
  {
  }
}
