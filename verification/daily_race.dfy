/**
 The daily challenge store: one race per UTC calendar day, shared by every
 player on the device, with each user's completion recorded in it. The
 in-memory race and the copy under the daily-race storage key are kept
 side by side; the encyclopedia's random picks and the clock (as its ISO
 8601 text) are parameters.
 */
module DailyRaces {
  import opened GameTypes
  import Text

  /**
   A daily race as it is read back from storage. Records written by older
   versions carry no completions field at all.
   */
  datatype StoredRace = StoredRace(date: string, startArticle: Article, endArticle: Article, userCompletions: Option<map<string, Completion>>)

  /** The race in memory and the durable copy. */
  datatype DailyStore = DailyStore(active: Option<DailyRace>, saved: Slot<StoredRace>)

  /** What the encyclopedia answered: two random articles, then a summary of each. */
  datatype Picks = Picks(start: Option<Article>, end: Option<Article>, startSummary: Option<Article>, endSummary: Option<Article>)

  /** A generation or refresh: the store afterwards and the race it returned, if any. */
  datatype Outcome = Outcome(store: DailyStore, race: Option<DailyRace>)

  /** The record written for a race. */
  function Save(race: DailyRace): StoredRace {
    StoredRace(race.date, race.startArticle, race.endArticle, Some(race.userCompletions))
  }

  /** Reading an old-format record back: a missing completions field becomes the empty map. */
  function Migrate(stored: StoredRace): (r: DailyRace)
    ensures r.date == stored.date && r.startArticle == stored.startArticle && r.endArticle == stored.endArticle
    ensures stored.userCompletions.None? ==> r.userCompletions == map[]
    ensures stored.userCompletions.Some? ==> r.userCompletions == stored.userCompletions.value
  {
    DailyRace(stored.date, stored.startArticle, stored.endArticle, stored.userCompletions.GetOr(map[]))
  }

  /** Saving a race and migrating it back gives the same race. */
  lemma MigrateSave(race: DailyRace)
    ensures Migrate(Save(race)) == race
  {
  }

  /** Today's key: the date part ("YYYY-MM-DD") of the clock's ISO 8601 text, i.e. the text before the first 'T'. */
  function GetTodayString(iso: string): (r: string)
    ensures Text.StartsWith(iso, r) && 'T' !in r
    ensures |r| < |iso| ==> iso[|r|] == 'T'
  {
    Text.BeforeFirst(iso, 'T')
  }

  /** On well-formed ISO text ("YYYY-MM-DDTHH:mm:ss.sssZ") the key is the first ten characters. */
  lemma TodayOfIso(iso: string)
    requires |iso| > 10 && iso[10] == 'T' && 'T' !in iso[..10]
    ensures GetTodayString(iso) == iso[..10]
  {
  }

  /** The stored race, if the key holds a readable one. */
  function GetStoredDailyRace(saved: Slot<StoredRace>): (r: Option<StoredRace>)
    ensures r.Some? <==> saved.Stored?
    ensures r.Some? ==> r.value == saved.value
  {
    match saved
    case Stored(s) => Some(s)
    case _ => None
  }

  /**
   Draws a new race. Without both random articles nothing changes and no
   race is returned. Otherwise the race is dated with today's key, each end
   is the summary when one came back and the random article otherwise, no
   one has completed it yet, and it becomes the active race and is saved.
   Nothing checks that the two ends differ.
   */
  function GenerateDailyRace(store: DailyStore, iso: string, picks: Picks): (r: Outcome)
    ensures r.race.None? <==> picks.start.None? || picks.end.None?
    ensures r.race.None? ==> r.store == store
    ensures r.race.Some? ==>
      && r.race.value.date == GetTodayString(iso)
      && r.race.value.startArticle == picks.startSummary.GetOr(picks.start.value)
      && r.race.value.endArticle == picks.endSummary.GetOr(picks.end.value)
      && r.race.value.userCompletions == map[]
      && r.store.active == r.race
      && r.store.saved == Stored(Save(r.race.value))
  {
    match (picks.start, picks.end)
    case (Some(s), Some(e)) =>
      var race := DailyRace(GetTodayString(iso), picks.startSummary.GetOr(s), picks.endSummary.GetOr(e), map[]);
      Outcome(DailyStore(Some(race), Stored(Save(race))), Some(race))
    case _ => Outcome(store, None)
  }

  /**
   Loads today's race: a readable stored race dated today (by `isoNow`) is
   migrated and made active without writing anything; otherwise a new race
   is generated, dated by the clock when the answers arrived (`isoLater`).
   */
  function RefreshDailyRace(store: DailyStore, isoNow: string, isoLater: string, picks: Picks): (r: Outcome)
    ensures var stored := GetStoredDailyRace(store.saved);
      stored.Some? && stored.value.date == GetTodayString(isoNow) ==>
        && r.race == Some(Migrate(stored.value))
        && r.store == store.(active := r.race)
    ensures var stored := GetStoredDailyRace(store.saved);
      !(stored.Some? && stored.value.date == GetTodayString(isoNow)) ==>
        r == GenerateDailyRace(store, isoLater, picks)
  {
    var stored := GetStoredDailyRace(store.saved);
    if stored.Some? && stored.value.date == GetTodayString(isoNow) then
      var race := Migrate(stored.value);
      Outcome(store.(active := Some(race)), Some(race))
    else
      GenerateDailyRace(store, isoLater, picks)
  }

  /**
   Records that `userId` finished the active race: the user's record is
   replaced by a completed one holding this time and click count (whatever
   it held before), every other user's record is kept, and the race is
   saved. Without an active race nothing happens.
   */
  function MarkDailyRaceCompleted(store: DailyStore, userId: string, duration: int, clickCount: int): (r: DailyStore)
    ensures store.active.None? ==> r == store
    ensures store.active.Some? ==>
      && r.active.Some?
      && r.active.value.(userCompletions := store.active.value.userCompletions) == store.active.value
      && r.active.value.userCompletions.Keys == store.active.value.userCompletions.Keys + {userId}
      && r.saved == Stored(Save(r.active.value))
  {
    match store.active
    case None => store
    case Some(race) =>
      var updated := race.(userCompletions := race.userCompletions[userId := Completion(true, Some(duration), Some(clickCount))]);
      DailyStore(Some(updated), Stored(Save(updated)))
  }

  /** The user's record on the active race, if there is an active race and the user has one. */
  function GetUserCompletion(store: DailyStore, userId: string): (r: Option<Completion>)
    ensures r.Some? <==> store.active.Some? && userId in store.active.value.userCompletions
    ensures r.Some? ==> r.value == store.active.value.userCompletions[userId]
  {
    match store.active
    case None => None
    case Some(race) => if userId in race.userCompletions then Some(race.userCompletions[userId]) else None
  }

  // ---------------------------------------------------------------------
  // Properties across operations
  // ---------------------------------------------------------------------

  /** After a successful refresh, refreshing again on the same day returns the same race and changes nothing. */
  lemma RefreshSameDayStable(store: DailyStore, isoNow: string, isoLater: string, picks: Picks,
                             isoNow2: string, isoLater2: string, picks2: Picks)
    requires RefreshDailyRace(store, isoNow, isoLater, picks).race.Some?
    requires GetTodayString(isoNow2) == RefreshDailyRace(store, isoNow, isoLater, picks).race.value.date
    ensures var r1 := RefreshDailyRace(store, isoNow, isoLater, picks);
      RefreshDailyRace(r1.store, isoNow2, isoLater2, picks2) == r1
  {
  }

  /** After marking, the user's record reads back as completed with exactly this time and click count. */
  lemma MarkThenGet(store: DailyStore, userId: string, duration: int, clickCount: int)
    requires store.active.Some?
    ensures GetUserCompletion(MarkDailyRaceCompleted(store, userId, duration, clickCount), userId)
      == Some(Completion(true, Some(duration), Some(clickCount)))
  {
  }

  /** Marking one user leaves every other user's record as it was. */
  lemma MarkOthersUnchanged(store: DailyStore, userId: string, duration: int, clickCount: int, other: string)
    requires other != userId
    ensures GetUserCompletion(MarkDailyRaceCompleted(store, userId, duration, clickCount), other)
      == GetUserCompletion(store, other)
  {
  }

  /** A completion survives a reload on the same day: the next refresh returns the race with the record in it. */
  lemma MarkSurvivesRefresh(store: DailyStore, userId: string, duration: int, clickCount: int,
                            isoNow: string, isoLater: string, picks: Picks)
    requires store.active.Some? && GetTodayString(isoNow) == store.active.value.date
    ensures var marked := MarkDailyRaceCompleted(store, userId, duration, clickCount);
      var r := RefreshDailyRace(DailyStore(None, marked.saved), isoNow, isoLater, picks);
      GetUserCompletion(r.store, userId) == Some(Completion(true, Some(duration), Some(clickCount)))
  {
  }

  /** The recorded best time is not a best: a slower second finish replaces a faster first one. */
  lemma MarkCanRegress(store: DailyStore, userId: string)
    requires store.active.Some?
    ensures var once := MarkDailyRaceCompleted(store, userId, 10000, 3);
      var twice := MarkDailyRaceCompleted(once, userId, 20000, 5);
      GetUserCompletion(twice, userId).value.bestTime == Some(20000)
  {
  }

  /** A day change discards the stored race: a refresh on a new day draws a new race with no completions. */
  lemma NewDayStartsFresh(store: DailyStore, isoNow: string, isoLater: string, picks: Picks)
    requires store.saved.Stored? && store.saved.value.date != GetTodayString(isoNow)
    requires picks.start.Some? && picks.end.Some?
    ensures var r := RefreshDailyRace(store, isoNow, isoLater, picks);
      r.race.Some? && r.race.value.date == GetTodayString(isoLater) && r.race.value.userCompletions == map[]
  {
  }
}
