/**
 The page that ties the stores together. One value holds the race session,
 the leaderboard, the daily challenge, the player registry and the three
 panel toggles; each user action is a transition on it. What a handler
 needs from the outside (the encyclopedia's answers, the clock, fresh ids)
 arrives as a parameter of the action.
 */
module App {
  import opened GameTypes
  import Game
  import Leaderboard
  import DailyRaces
  import Users
  import WikiLinks
  import Text

  datatype AppState = AppState(
    game: GameState,
    board: Leaderboard.Board,
    daily: DailyRaces.DailyStore,
    users: Users.UserStore,
    showLeaderboard: bool,
    showDailyRace: bool,
    showLoginModal: bool)

  /** The page as it opens: a fresh session, every store loaded from its key, every panel closed. */
  function Mount(boardSlot: Slot<seq<Leaderboard.Entry>>, dailySlot: Slot<DailyRaces.StoredRace>,
                 currentSlot: Slot<User>, registry: Slot<seq<User>>): AppState {
    AppState(Game.InitialGameState, Leaderboard.MountLeaderboard(boardSlot),
             DailyRaces.DailyStore(None, dailySlot), Users.MountUsers(currentSlot, registry),
             false, false, false)
  }

  /** The start button of the custom race is enabled: both ends chosen, with different page ids. */
  predicate CanStartGame(startArticle: Option<Article>, endArticle: Option<Article>) {
    startArticle.Some? && endArticle.Some? && startArticle.value.pageid != endArticle.value.pageid
  }

  /** The finished race is the daily race: its start and end titles are the daily race's. */
  predicate IsDailyRace(daily: Option<DailyRace>, g: GameState) {
    && daily.Some?
    && g.startArticle.Some? && g.endArticle.Some?
    && g.startArticle.value.title == daily.value.startArticle.title
    && g.endArticle.value.title == daily.value.endArticle.title
  }

  /** Starting a race (custom or daily): the session restarts from the chosen ends; no store and no panel changes. */
  function HandleStartGame(app: AppState, startArticle: Article, endArticle: Article, summary: Option<Article>, now: int): (r: AppState)
    ensures r.game.status == Playing && Game.Inv(r.game)
    ensures r.game.path == [summary.GetOr(startArticle)] && r.game.clickCount == 0
    ensures r.game.endArticle == Some(endArticle) && r.game.startTime == Some(now)
    ensures r.(game := app.game) == app
  {
    app.(game := Game.StartGame(startArticle, endArticle, summary, now))
  }

  /**
   A click on a resolved title. The session navigates; when that reports
   completion statistics and the session had both ends, the result goes on
   the leaderboard (under the session's start and end titles), and, when
   the race is the daily race and a player is signed in, it is also
   recorded as that player's daily completion. The player registry and the
   panels never change.
   */
  function HandleLinkClick(app: AppState, resolved: Option<Article>, clickTime: int, entryId: string, savedAt: int): (r: AppState)
    ensures var step := Game.NavigateToArticle(app.game, resolved, clickTime);
      && r.game == step.state
      && r.(game := app.game, board := app.board, daily := app.daily) == app
    ensures var step := Game.NavigateToArticle(app.game, resolved, clickTime);
      var recorded := step.stats.Some? && app.game.startArticle.Some? && app.game.endArticle.Some?;
      && (recorded ==> r.board == Leaderboard.AddEntry(app.board, app.game.startArticle.value.title,
                                                        app.game.endArticle.value.title, step.stats.value, entryId, savedAt))
      && (!recorded ==> r.board == app.board)
      && (recorded && IsDailyRace(app.daily.active, app.game) && app.users.current.Some? ==>
            r.daily == DailyRaces.MarkDailyRaceCompleted(app.daily, app.users.current.value.id,
                                                         step.stats.value.duration, step.stats.value.clickCount))
      && (!(recorded && IsDailyRace(app.daily.active, app.game) && app.users.current.Some?) ==> r.daily == app.daily)
  {
    var step := Game.NavigateToArticle(app.game, resolved, clickTime);
    var g := app.game;
    if step.stats.Some? && g.startArticle.Some? && g.endArticle.Some? then
      var stats := step.stats.value;
      var board := Leaderboard.AddEntry(app.board, g.startArticle.value.title, g.endArticle.value.title, stats, entryId, savedAt);
      var daily :=
        if IsDailyRace(app.daily.active, g) && app.users.current.Some? then
          DailyRaces.MarkDailyRaceCompleted(app.daily, app.users.current.value.id, stats.duration, stats.clickCount)
        else app.daily;
      app.(game := step.state, board := board, daily := daily)
    else
      app.(game := step.state)
  }

  /** Giving up fails the session and records nothing anywhere. */
  function HandleGiveUp(app: AppState, now: int): (r: AppState)
    ensures r.game.status == Failed && r.game.endTime == Some(now)
    ensures r.game.path == app.game.path && r.game.clickCount == app.game.clickCount
    ensures r.(game := app.game) == app
  {
    app.(game := Game.GiveUp(app.game, now))
  }

  /** Play again: a fresh session and the leaderboard panel closed; the daily panel keeps its state. */
  function HandlePlayAgain(app: AppState): (r: AppState)
    ensures r.game.status == Setup && Game.Inv(r.game)
    ensures !r.showLeaderboard
    ensures r.(game := app.game, showLeaderboard := app.showLeaderboard) == app
  {
    app.(game := Game.ResetGame(app.game), showLeaderboard := false)
  }

  /** Each toggle flips its own panel and touches nothing else. */
  function HandleToggleLeaderboard(app: AppState): (r: AppState)
    ensures r.showLeaderboard != app.showLeaderboard
    ensures r.(showLeaderboard := app.showLeaderboard) == app
  {
    app.(showLeaderboard := !app.showLeaderboard)
  }

  function HandleToggleDailyRace(app: AppState): (r: AppState)
    ensures r.showDailyRace != app.showDailyRace
    ensures r.(showDailyRace := app.showDailyRace) == app
  {
    app.(showDailyRace := !app.showDailyRace)
  }

  function HandleToggleLoginModal(app: AppState): (r: AppState)
    ensures r.showLoginModal != app.showLoginModal
    ensures r.(showLoginModal := app.showLoginModal) == app
  {
    app.(showLoginModal := !app.showLoginModal)
  }

  /** The longest name the dialog's text field accepts. */
  const MaxUsernameLength := 20

  /**
   The dialog's "Register/Login": the player is registered (through the
   trimmed lookup) and, when that returns a player, the dialog closes
   through its close handler. A refused registration (blank name,
   unreadable registry) changes nothing and leaves the dialog as it was.
   */
  function HandleRegister(app: AppState, username: string, id: string, now: int): (r: AppState)
    ensures r.game == app.game && r.board == app.board && r.daily == app.daily
    ensures r.showLeaderboard == app.showLeaderboard && r.showDailyRace == app.showDailyRace
    ensures Text.Trim(username) == [] || app.users.registry.Corrupt? ==> r == app
    ensures Text.Trim(username) != [] && !app.users.registry.Corrupt? ==>
      && r.users.current.Some? && r.users.currentSlot == Stored(r.users.current.value)
      && r.showLoginModal != app.showLoginModal
  {
    var reg := Users.RegisterUserTrimmed(app.users, username, id, now);
    var next := app.(users := reg.store);
    if reg.user.Some? then HandleToggleLoginModal(next) else next
  }

  /** The dialog's "Logout": the player is signed out and the dialog closes through its close handler. */
  function HandleLogout(app: AppState): (r: AppState)
    ensures r.users.current.None? && r.users.currentSlot.Absent? && r.users.registry == app.users.registry
    ensures r.showLoginModal != app.showLoginModal
    ensures r.(users := app.users, showLoginModal := app.showLoginModal) == app
  {
    HandleToggleLoginModal(app.(users := Users.LogoutUser(app.users)))
  }

  /** What the page shows: the player during a race, otherwise one setup panel chosen by the toggles. */
  datatype Screen =
    | LeaderboardPanel(entries: seq<Leaderboard.Entry>)
    | DailyRacePanel(race: Option<DailyRace>)
    | SetupForm
    | Player(game: GameState)

  /** The number of entries the page hands the leaderboard panel. */
  const PanelEntries := 20

  /** The number of rows the leaderboard panel lists when not told otherwise. */
  const PanelRows := 10

  /**
   The leaderboard panel takes precedence over the daily panel, which takes
   precedence over the custom setup form. The page hands the panel the
   twenty fastest entries and the panel lists the first ten of them.
   */
  function View(app: AppState): (v: Screen)
    ensures v.Player? <==> app.game.status != Setup
    ensures v.Player? ==> v.game == app.game
    ensures v.LeaderboardPanel? <==> app.game.status == Setup && app.showLeaderboard
    ensures v.LeaderboardPanel? ==>
      && |v.entries| == (if |app.board.entries| < PanelRows then |app.board.entries| else PanelRows)
      && v.entries == app.board.entries[..|v.entries|]
    ensures v.DailyRacePanel? <==> app.game.status == Setup && !app.showLeaderboard && app.showDailyRace
    ensures v.DailyRacePanel? ==> v.race == app.daily.active
  {
    if app.game.status != Setup then Player(app.game)
    else if app.showLeaderboard then
      LeaderboardPanel(Leaderboard.Take(Leaderboard.GetTopEntries(app.board, PanelEntries), PanelRows))
    else if app.showDailyRace then DailyRacePanel(app.daily.active)
    else SetupForm
  }

  // ---------------------------------------------------------------------
  // User actions and what the page lets the user do
  // ---------------------------------------------------------------------

  /**
   One user action together with the outside answers it needs. A link
   click carries the clicked href, the article its title resolved to, the
   click time, and the id and time `addEntry` would stamp its entry with.
   */
  datatype Action =
    | StartCustomRace(startArticle: Article, endArticle: Article, summary: Option<Article>, now: int)
    | StartDailyRace(summary: Option<Article>, now: int)
    | ClickLink(href: string, resolved: Option<Article>, clickTime: int, entryId: string, savedAt: int)
    | GiveUpRace(now: int)
    | PlayAgain
    | ToggleLeaderboard
    | ToggleDailyRace
    | ToggleLoginModal
    | ClearBoard
    | RefreshDaily(isoNow: string, isoLater: string, picks: DailyRaces.Picks)
    | RegisterPlayer(username: string, id: string, now: int)
    | Logout

  /**
   Whether the page offers the action: which buttons the current screen
   shows and enables. The setup screen holds the panel toggles and the
   dialog's button; the player holds the race's own buttons; the dialog,
   while open, shows the name form when nobody is signed in and "Logout"
   otherwise, and always its close button. The leaderboard panel shows
   "Clear All" only when it lists an entry. A daily refresh is always
   possible: it stands for the daily panel's buttons and also for the
   refresh the page starts when it opens, which can finish at any later
   moment, mid-race included.
   */
  function Enabled(app: AppState, a: Action): (r: bool)
    ensures r && (a.ClickLink? || a.GiveUpRace? || a.PlayAgain?) ==> View(app).Player?
    ensures r && (a.StartCustomRace? || a.StartDailyRace? || a.ToggleLeaderboard? || a.ToggleDailyRace? || a.ClearBoard?) ==>
      !View(app).Player?
    ensures r && (a.RegisterPlayer? || a.Logout?) ==> app.showLoginModal
    ensures a.ToggleLoginModal? ==> (r <==> !View(app).Player? || app.showLoginModal)
    ensures a.ClearBoard? ==> (r <==> View(app).LeaderboardPanel? && View(app).entries != [])
  {
    match a
    case StartCustomRace(s, e, _, _) => View(app).SetupForm? && CanStartGame(Some(s), Some(e))
    case StartDailyRace(_, _) => View(app).DailyRacePanel? && app.daily.active.Some?
    case ClickLink(_, _, _, _, _) => app.game.status == Playing
    case GiveUpRace(_) => app.game.status == Playing
    case PlayAgain => app.game.status == Completed || app.game.status == Failed
    case ToggleLeaderboard => app.game.status == Setup
    case ToggleDailyRace => app.game.status == Setup
    case ToggleLoginModal => app.game.status == Setup || app.showLoginModal
    case ClearBoard => View(app).LeaderboardPanel? && app.board.entries != []
    case RefreshDaily(_, _, _) => true
    case RegisterPlayer(username, _, _) =>
      app.showLoginModal && app.users.current.None? && Text.Trim(username) != [] && |username| <= MaxUsernameLength
    case Logout => app.showLoginModal && app.users.current.Some?
  }

  /**
   The page's response to an action. A click on an href that is not a
   followable article link does nothing. Only the dialog's actions touch
   the signed-in player, and they close the dialog when they succeed.
   Registration goes through the trimmed-name lookup.
   */
  function Step(app: AppState, a: Action): (r: AppState)
    ensures a.ClickLink? && WikiLinks.ClickTarget(a.href).None? ==> r == app
    ensures !(a.RegisterPlayer? || a.Logout?) ==> r.users == app.users
    ensures !(a.RegisterPlayer? || a.Logout? || a.ToggleLoginModal?) ==> r.showLoginModal == app.showLoginModal
    ensures a.Logout? ==> r.users.current.None? && r.showLoginModal != app.showLoginModal
    ensures a.RegisterPlayer? ==> r == app || (r.users.current.Some? && r.showLoginModal != app.showLoginModal)
  {
    match a
    case StartCustomRace(s, e, summary, now) => HandleStartGame(app, s, e, summary, now)
    case StartDailyRace(summary, now) =>
      if app.daily.active.Some? then
        HandleStartGame(app, app.daily.active.value.startArticle, app.daily.active.value.endArticle, summary, now)
      else app
    case ClickLink(href, resolved, clickTime, entryId, savedAt) =>
      if WikiLinks.ClickTarget(href).Some? then HandleLinkClick(app, resolved, clickTime, entryId, savedAt) else app
    case GiveUpRace(now) => HandleGiveUp(app, now)
    case PlayAgain => HandlePlayAgain(app)
    case ToggleLeaderboard => HandleToggleLeaderboard(app)
    case ToggleDailyRace => HandleToggleDailyRace(app)
    case ToggleLoginModal => HandleToggleLoginModal(app)
    case ClearBoard => app.(board := Leaderboard.ClearLeaderboard(app.board))
    case RefreshDaily(isoNow, isoLater, picks) =>
      app.(daily := DailyRaces.RefreshDailyRace(app.daily, isoNow, isoLater, picks).store)
    case RegisterPlayer(username, id, now) => HandleRegister(app, username, id, now)
    case Logout => HandleLogout(app)
  }

  /** Actions applied one after another; an action the page does not offer at that moment is ignored. */
  function Run(app: AppState, actions: seq<Action>): AppState
    decreases |actions|
  {
    if actions == [] then app
    else Run(if Enabled(app, actions[0]) then Step(app, actions[0]) else app, actions[1..])
  }

  // ---------------------------------------------------------------------
  // Properties of the page
  // ---------------------------------------------------------------------

  /**
   What the page keeps true: the session keeps its status promises, the
   leaderboard is in duration order, and a readable registry holds no two
   players whose names differ only in letter case.
   */
  predicate AppInv(app: AppState) {
    && Game.Inv(app.game)
    && Leaderboard.SortedByDuration(app.board.entries)
    && (app.users.registry.Stored? ==> Users.UniqueNames(app.users.registry.value))
  }

  /** The page opens in a state that keeps the invariant, provided the saved registry did. */
  lemma MountSatisfiesInv(boardSlot: Slot<seq<Leaderboard.Entry>>, dailySlot: Slot<DailyRaces.StoredRace>,
                          currentSlot: Slot<User>, registry: Slot<seq<User>>)
    requires registry.Stored? ==> Users.UniqueNames(registry.value)
    ensures AppInv(Mount(boardSlot, dailySlot, currentSlot, registry))
    ensures View(Mount(boardSlot, dailySlot, currentSlot, registry)) == SetupForm
  {
  }

  /** Every action the page offers keeps the invariant. */
  lemma StepPreservesInv(app: AppState, a: Action)
    requires AppInv(app) && Enabled(app, a)
    ensures AppInv(Step(app, a))
  {
    match a
    case ClickLink(href, resolved, clickTime, entryId, savedAt) =>
      Game.NavigatePreservesInv(app.game, resolved, clickTime);
    case GiveUpRace(now) =>
      Game.GiveUpPreservesInv(app.game, now);
    case RegisterPlayer(username, id, now) =>
      RegisterKeepsInv(app, username, id, now);
    case _ =>
  }

  /** The dialog's registration keeps the invariant: the session and the leaderboard stay, and names stay unique. */
  lemma RegisterKeepsInv(app: AppState, username: string, id: string, now: int)
    requires AppInv(app)
    ensures AppInv(HandleRegister(app, username, id, now))
  {
    var reg := Users.RegisterUserTrimmed(app.users, username, id, now);
    assert HandleRegister(app, username, id, now).users.registry == reg.store.registry;
    Users.RegisterTrimmedKeepsNamesUnique(app.users, username, id, now);
  }

  /** Any sequence of actions keeps the invariant. */
  lemma {:induction false} RunPreservesInv(app: AppState, actions: seq<Action>)
    requires AppInv(app)
    ensures AppInv(Run(app, actions))
    decreases |actions|
  {
    if actions != [] {
      var next := if Enabled(app, actions[0]) then Step(app, actions[0]) else app;
      if Enabled(app, actions[0]) {
        StepPreservesInv(app, actions[0]);
      }
      RunPreservesInv(next, actions[1..]);
    }
  }

  /**
   Reaching the target of a running race with a running clock completes it
   and files the result on the leaderboard: the entry is inserted among the
   sorted entries, behind those of equal duration, and the list is cut to fifty.
   */
  lemma CompletionFilesEntry(app: AppState, article: Article, clickTime: int, entryId: string, savedAt: int)
    requires Game.Inv(app.game) && app.game.status == Playing
    requires Leaderboard.SortedByDuration(app.board.entries)
    requires Game.ReachesTarget(app.game, article)
    requires clickTime != 0 && app.game.startTime.value != 0
    ensures var r := HandleLinkClick(app, Some(article), clickTime, entryId, savedAt);
      var stats := GameStats(clickTime - app.game.startTime.value, app.game.clickCount + 1,
                             |app.game.path| + 1, Titles(app.game.path + [article]));
      && r.game.status == Completed
      && r.board.entries == Leaderboard.Take(Leaderboard.Insert(app.board.entries,
           Leaderboard.NewEntry(app.game.startArticle.value.title, app.game.endArticle.value.title, stats, entryId, savedAt)),
           Leaderboard.MaxEntries)
  {
    var step := Game.NavigateToArticle(app.game, Some(article), clickTime);
    assert step.stats.Some?;
    Leaderboard.AddEntryInserts(app.board, app.game.startArticle.value.title, app.game.endArticle.value.title,
                                step.stats.value, entryId, savedAt);
  }

  /** A click that does not complete the race leaves the leaderboard and the daily race alone. */
  lemma OnlyCompletionRecords(app: AppState, resolved: Option<Article>, clickTime: int, entryId: string, savedAt: int)
    requires Game.Inv(app.game)
    ensures var r := HandleLinkClick(app, resolved, clickTime, entryId, savedAt);
      r.game.status != Completed || app.game.status == Completed ==> r.board == app.board && r.daily == app.daily
  {
  }

  /**
   A signed-in player who completes the daily race (by its titles) with a
   running clock has the result recorded as their completion of it, with
   this race's duration and click count.
   */
  lemma DailyCompletionRecorded(app: AppState, article: Article, clickTime: int, entryId: string, savedAt: int)
    requires Game.Inv(app.game) && app.game.status == Playing
    requires Game.ReachesTarget(app.game, article)
    requires clickTime != 0 && app.game.startTime.value != 0
    requires IsDailyRace(app.daily.active, app.game) && app.users.current.Some?
    ensures var r := HandleLinkClick(app, Some(article), clickTime, entryId, savedAt);
      DailyRaces.GetUserCompletion(r.daily, app.users.current.value.id)
        == Some(Completion(true, Some(clickTime - app.game.startTime.value), Some(app.game.clickCount + 1)))
  {
  }

  /**
   The daily check compares titles only: a custom race between two articles
   that carry the daily race's titles counts as a daily completion too.
   */
  lemma CustomRaceCountsAsDaily(app: AppState, s: Article, e: Article, t0: int, t1: int, entryId: string, savedAt: int)
    requires Enabled(app, StartCustomRace(s, e, None, t0))
    requires app.daily.active.Some? && app.users.current.Some?
    requires s.title == app.daily.active.value.startArticle.title && e.title == app.daily.active.value.endArticle.title
    requires t0 != 0 && t1 != 0
    ensures var started := Step(app, StartCustomRace(s, e, None, t0));
      var r := HandleLinkClick(started, Some(e), t1, entryId, savedAt);
      DailyRaces.GetUserCompletion(r.daily, app.users.current.value.id) == Some(Completion(true, Some(t1 - t0), Some(1)))
  {
  }

  /** A click on something other than a followable article link changes nothing. */
  lemma UnfollowableLinkIgnored(app: AppState, href: string, resolved: Option<Article>, clickTime: int, entryId: string, savedAt: int)
    requires !WikiLinks.IsValidWikipediaLink(href)
    ensures Step(app, ClickLink(href, resolved, clickTime, entryId, savedAt)) == app
  {
  }

  /** After play again the page shows the daily panel when it was open and otherwise the custom setup form. */
  lemma PlayAgainView(app: AppState)
    ensures View(HandlePlayAgain(app)) == if app.showDailyRace then DailyRacePanel(app.daily.active) else SetupForm
  {
  }
}
