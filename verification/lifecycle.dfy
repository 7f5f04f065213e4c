/** The two view models driving one store, as a sequence of user events.
    When every click goes through an enabled button, at most one night is
    ever in progress; without that discipline the tracker's unguarded start
    leaves two. */
module Lifecycle {
  import opened SleepNight
  import opened SleepDatabaseDao
  import T = SleepTrackerViewModel
  import Q = SleepQualityViewModel

  /** One user-visible event. `Rate` is a rating screen opened for `key`
      receiving a click; `Restart` replaces the tracker view model by a new
      one over the same store. */
  datatype Event =
    | Start(now: int)
    | Stop(now: int)
    | ClearAll
    | DoneNavigation
    | DoneShowingSnackbar
    | Rate(key: int, quality: int)
    | Restart

  /** The effect of one event on the store and the tracker. */
  function Apply(st: T.TrackerStep, e: Event): (r: T.TrackerStep)
    requires Valid(st.db)
    ensures Valid(r.db)
  {
    match e
    case Start(now) => T.OnStartTracking(st, now)
    case Stop(now) => T.OnStopTracking(st, now)
    case ClearAll => T.OnClear(st)
    case DoneNavigation => st.(vm := T.DoneNavigation(st.vm))
    case DoneShowingSnackbar => st.(vm := T.DoneShowingSnackbar(st.vm))
    case Rate(key, quality) =>
      var rated := Q.OnSetSleepQuality(Q.RatingStep(st.db, Q.Create(key)), quality);
      st.(db := rated.db)
    case Restart => st.(vm := T.Create(st.db))
  }

  /** The events in order. */
  function Run(st: T.TrackerStep, events: seq<Event>): (r: T.TrackerStep)
    requires Valid(st.db)
    ensures Valid(r.db)
    decreases |events|
  {
    if events == [] then st else Run(Apply(st, events[0]), events[1..])
  }

  /** A click the screen allows: start, stop and clear only while their
      button is enabled. */
  predicate Enabled(st: T.TrackerStep, e: Event)
    requires Valid(st.db)
  {
    match e
    case Start(_) => T.StartButtonVisible(st.vm)
    case Stop(_) => T.StopButtonVisible(st.vm)
    case ClearAll => T.ClearButtonVisible(st.db)
    case _ => true
  }

  /** Every event of the run is allowed in the state it meets. */
  predicate Guarded(st: T.TrackerStep, events: seq<Event>)
    requires Valid(st.db)
    decreases |events|
  {
    events == [] || (Enabled(st, events[0]) && Guarded(Apply(st, events[0]), events[1..]))
  }

  /** `k` is the greatest key of the store. */
  ghost predicate IsNewest(db: Store, k: int)
  {
    forall j :: j in db.rows ==> j <= k
  }

  /** No two distinct nights of the store are in progress. */
  ghost predicate AtMostOneInProgress(db: Store)
  {
    forall a, b :: a in db.rows && b in db.rows && InProgress(db.rows[a]) && InProgress(db.rows[b]) ==> a == b
  }

  /** Only the newest night of the store may be in progress. */
  ghost predicate OnlyNewestInProgress(db: Store)
  {
    forall k :: k in db.rows && InProgress(db.rows[k]) ==> IsNewest(db, k)
  }

  /** The invariant of guarded use: only the newest night may be in
      progress; a cached night is the newest row; with nothing cached no
      night is in progress. */
  ghost predicate Coherent(st: T.TrackerStep)
  {
    && Valid(st.db)
    && OnlyNewestInProgress(st.db)
    && (st.vm.tonight.Some? ==>
          st.vm.tonight.value.nightId in st.db.rows && IsNewest(st.db, st.vm.tonight.value.nightId))
    && (st.vm.tonight.None? ==> forall k :: k in st.db.rows ==> !InProgress(st.db.rows[k]))
  }

  /** If only the newest night may be in progress, at most one is. */
  lemma OnlyNewestGivesAtMostOne(db: Store)
    requires OnlyNewestInProgress(db)
    ensures AtMostOneInProgress(db)
  {
  }

  /** A key that is the greatest of the store names the row `getTonight`
      returns. */
  lemma NewestIsTonight(db: Store, k: int)
    requires Valid(db) && k in db.rows && IsNewest(db, k)
    ensures GetTonight(db) == Some(db.rows[k])
  {
  }

  /** A freshly constructed tracker is coherent over any store in which only
      the newest night may be in progress, the empty store among them. */
  lemma CreateIsCoherent(db: Store)
    requires Valid(db) && OnlyNewestInProgress(db)
    ensures Coherent(T.TrackerStep(db, T.Create(db)))
  {
  }

  /** A guarded start from a coherent state is coherent. */
  lemma StartKeepsCoherent(st: T.TrackerStep, now: int)
    requires Coherent(st) && T.StartButtonVisible(st.vm)
    ensures Coherent(T.OnStartTracking(st, now))
  {
  }

  /** A stop from a coherent state is coherent. */
  lemma StopKeepsCoherent(st: T.TrackerStep, now: int)
    requires Coherent(st)
    ensures Coherent(T.OnStopTracking(st, now))
  {
  }

  /** A rating from a coherent state is coherent. */
  lemma RateKeepsCoherent(st: T.TrackerStep, key: int, quality: int)
    requires Coherent(st)
    ensures Coherent(Apply(st, Rate(key, quality)))
  {
  }

  /** Every allowed event keeps the state coherent. */
  lemma ApplyKeepsCoherent(st: T.TrackerStep, e: Event)
    requires Coherent(st) && Enabled(st, e)
    ensures Coherent(Apply(st, e))
  {
  }

  /** Guarded use never leaves more than one night in progress. */
  lemma {:induction false} GuardedRunKeepsOneInProgress(st: T.TrackerStep, events: seq<Event>)
    requires Coherent(st) && Guarded(st, events)
    ensures Coherent(Run(st, events))
    ensures AtMostOneInProgress(Run(st, events).db)
    decreases |events|
  {
    if events == [] {
      OnlyNewestGivesAtMostOne(st.db);
    } else {
      ApplyKeepsCoherent(st, events[0]);
      GuardedRunKeepsOneInProgress(Apply(st, events[0]), events[1..]);
    }
  }

  /** The app's starting point: a new tracker over the empty database. */
  function Launch(): (st: T.TrackerStep)
    ensures Coherent(st)
    ensures T.StartButtonVisible(st.vm) && !T.ClearButtonVisible(st.db)
  {
    CreateIsCoherent(Empty());
    T.TrackerStep(Empty(), T.Create(Empty()))
  }

  /** `onStartTracking` has no guard of its own: two starts in a row leave
      two nights in progress. */
  lemma UnguardedStartTwiceLeavesTwoInProgress()
    ensures var r := Run(Launch(), [Start(5), Start(7)]);
      && 1 in r.db.rows && 2 in r.db.rows
      && InProgress(r.db.rows[1]) && InProgress(r.db.rows[2])
      && !AtMostOneInProgress(r.db)
    ensures !Guarded(Launch(), [Start(5), Start(7)])
  {
  }

  /** Stop never clears `tonight`, so a tracker instance that is still alive
      after the rating screen can stop the same night again, writing back its
      cached copy and with it the old, unrated quality. */
  lemma StaleStopDropsRating(db: Store, t0: int, t1: int, t2: int, quality: int)
    requires Valid(db) && forall k :: k in db.rows ==> !InProgress(db.rows[k])
    ensures var id := FreshId(db);
      var events := [Start(t0), Stop(t1), Rate(id, quality), Stop(t2)];
      var st := T.TrackerStep(db, T.Create(db));
      && Guarded(st, events)
      && id in Run(st, events).db.rows
      && Run(st, events).db.rows[id] == Night(id, t0, t2, Unrated)
  {
    var id := FreshId(db);
    var st := T.TrackerStep(db, T.Create(db));
    T.CreateIdleOtherwise(db);
    var s1 := Apply(st, Start(t0));
    var s2 := Apply(s1, Stop(t1));
    var s3 := Apply(s2, Rate(id, quality));
    var s4 := Apply(s3, Stop(t2));
    assert s2.vm.tonight == Some(Night(id, t0, t1, Unrated));
    assert s3.vm == s2.vm;
    assert s4.db.rows[id] == Night(id, t0, t2, Unrated);
    var events := [Start(t0), Stop(t1), Rate(id, quality), Stop(t2)];
    assert events[1..] == [Stop(t1), Rate(id, quality), Stop(t2)];
    assert events[1..][1..] == [Rate(id, quality), Stop(t2)];
    assert events[1..][1..][1..] == [Stop(t2)];
    assert Run(s4, []) == s4;
    assert Run(s3, [Stop(t2)]) == s4;
    assert Run(s2, [Rate(id, quality), Stop(t2)]) == s4;
    assert Run(s1, [Stop(t1), Rate(id, quality), Stop(t2)]) == s4;
    assert Run(st, events) == s4;
    assert Guarded(s3, [Stop(t2)]);
    assert Guarded(s2, [Rate(id, quality), Stop(t2)]);
    assert Guarded(s1, [Stop(t1), Rate(id, quality), Stop(t2)]);
  }
}
