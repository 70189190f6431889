/**
 The race session as a pure state machine. The encyclopedia's answers (the
 start article's summary, the article a clicked title resolves to) and the
 clock readings are parameters; a transition returns the new session value
 and, when the target is reached, the completion statistics it reports.
 */
module Game {
  import opened GameTypes

  /** The session before any race: nothing chosen, nothing timed. */
  const InitialGameState := GameState(Setup, None, None, None, [], None, None, 0)

  /**
   The fields every started session keeps in step: start and end chosen, a
   start time, a non-empty path that begins at the start article and ends at
   the current one, and one more article on the path than clicks made.
   */
  predicate Started(g: GameState) {
    && g.startArticle.Some?
    && g.endArticle.Some?
    && g.currentArticle.Some?
    && g.startTime.Some?
    && g.clickCount >= 0
    && |g.path| == g.clickCount + 1
    && g.path[0] == g.startArticle.value
    && g.currentArticle.value == g.path[|g.path| - 1]
  }

  /** What each status promises about the rest of the session. */
  predicate Inv(g: GameState) {
    match g.status
    case Setup => g == InitialGameState
    case Playing => Started(g) && g.endTime.None?
    case Completed => Started(g) && g.endTime.Some? && g.currentArticle.value.title == g.endArticle.value.title
    case Failed => Started(g) && g.endTime.Some?
  }

  /**
   Starts a race from whatever state came before: the start article is the
   fetched summary when there is one and otherwise the article as chosen; it
   is the whole path and the current article; the clock starts at `now`.
   */
  function StartGame(startArticle: Article, endArticle: Article, summary: Option<Article>, now: int): (g: GameState)
    ensures Inv(g) && g.status == Playing
    ensures g.clickCount == 0 && g.path == [summary.GetOr(startArticle)]
    ensures g.endArticle == Some(endArticle) && g.startTime == Some(now)
  {
    var s := summary.GetOr(startArticle);
    GameState(Playing, Some(s), Some(endArticle), Some(s), [s], Some(now), None, 0)
  }

  /** A navigation's outcome: the next session and the statistics reported on reaching the target. */
  datatype Step = Step(state: GameState, stats: Option<GameStats>)

  /** The resolved article is the target: exact, case-sensitive title equality. */
  predicate ReachesTarget(g: GameState, article: Article) {
    g.endArticle.Some? && article.title == g.endArticle.value.title
  }

  /**
   A click on a title, given what the encyclopedia resolved it to and the
   clock at that moment. Outside a running race, or when nothing resolved,
   nothing changes. Otherwise the article is appended to the path and becomes
   current, the click is counted, and the race completes exactly when the
   article is the target. Statistics are reported only on completion, and
   only when both clock readings are set (non-zero).
   */
  function NavigateToArticle(g: GameState, resolved: Option<Article>, now: int): (s: Step)
    ensures g.status != Playing || resolved.None? ==> s == Step(g, None)
    ensures g.status == Playing && resolved.Some? ==>
      && s.state.clickCount == g.clickCount + 1
      && s.state.path == g.path + [resolved.value]
      && s.state.currentArticle == resolved
      && s.state.startArticle == g.startArticle && s.state.endArticle == g.endArticle
      && s.state.startTime == g.startTime
      && (s.state.status == Completed <==> ReachesTarget(g, resolved.value))
      && (s.state.status == Playing <==> !ReachesTarget(g, resolved.value))
      && (s.state.endTime.Some? <==> ReachesTarget(g, resolved.value))
      && (ReachesTarget(g, resolved.value) ==> s.state.endTime == Some(now))
    ensures s.stats.Some? <==>
      g.status == Playing && resolved.Some? && ReachesTarget(g, resolved.value) && now != 0 && IsSet(g.startTime)
    ensures s.stats.Some? ==>
      && s.stats.value.duration == now - g.startTime.value
      && s.stats.value.clickCount == g.clickCount + 1
      && s.stats.value.pathLength == |g.path| + 1
      && s.stats.value.articlesVisited == Titles(g.path + [resolved.value])
  {
    if g.status != Playing then Step(g, None)
    else
      match resolved
      case None => Step(g, None)
      case Some(article) =>
        var newClickCount := g.clickCount + 1;
        var newPath := g.path + [article];
        var reached := ReachesTarget(g, article);
        var endTime := if reached then Some(now) else None;
        var next := g.(currentArticle := Some(article), path := newPath, clickCount := newClickCount,
                       status := if reached then Completed else Playing, endTime := endTime);
        var stats :=
          if reached && now != 0 && IsSet(g.startTime) then
            Some(GameStats(now - g.startTime.value, newClickCount, |newPath|, Titles(newPath)))
          else None;
        Step(next, stats)
  }

  /** Giving up: the race is marked failed at `now`; nothing else changes, and no status is checked. */
  function GiveUp(g: GameState, now: int): (r: GameState)
    ensures r.status == Failed && r.endTime == Some(now)
    ensures r.(status := g.status, endTime := g.endTime) == g
  {
    g.(status := Failed, endTime := Some(now))
  }

  /** Play again: the session returns to its initial value, whatever it held. */
  function ResetGame(g: GameState): (r: GameState)
    ensures Inv(r) && r.status == Setup && r.path == [] && r.clickCount == 0
  {
    InitialGameState
  }

  /**
   The statistics the session reports at any moment: none before the clock
   started, otherwise the time up to the end (or up to `now` while running)
   and the path so far.
   */
  function GetGameStats(g: GameState, now: int): (r: Option<GameStats>)
    ensures r.None? <==> !IsSet(g.startTime)
    ensures r.Some? ==>
      && r.value.duration == (if IsSet(g.endTime) then g.endTime.value else now) - g.startTime.value
      && r.value.clickCount == g.clickCount
      && r.value.pathLength == |g.path|
      && r.value.articlesVisited == Titles(g.path)
  {
    if !IsSet(g.startTime) then None
    else
      var duration := (if IsSet(g.endTime) then g.endTime.value else now) - g.startTime.value;
      Some(GameStats(duration, g.clickCount, |g.path|, Titles(g.path)))
  }

  // ---------------------------------------------------------------------
  // Properties across transitions
  // ---------------------------------------------------------------------

  /** A navigation keeps every status promise, in particular the path/click lock-step. */
  lemma NavigatePreservesInv(g: GameState, resolved: Option<Article>, now: int)
    requires Inv(g)
    ensures Inv(NavigateToArticle(g, resolved, now).state)
  {
  }

  /** Giving up from a running race keeps every status promise (it is not guarded, so only a running race is safe). */
  lemma GiveUpPreservesInv(g: GameState, now: int)
    requires Inv(g) && g.status == Playing
    ensures Inv(GiveUp(g, now))
  {
  }

  /** Giving up in the setup phase breaks the lock-step: a failed session with an empty path. */
  lemma GiveUpFromSetupBreaksLockStep(now: int)
    ensures var g := GiveUp(InitialGameState, now); g.status == Failed && |g.path| != g.clickCount + 1
  {
  }

  /** The statistics reported on completion are exactly what the completed session reports afterwards, at any later time. */
  lemma CompletionStatsAgree(g: GameState, resolved: Option<Article>, now: int, later: int)
    requires NavigateToArticle(g, resolved, now).stats.Some?
    ensures GetGameStats(NavigateToArticle(g, resolved, now).state, later) == NavigateToArticle(g, resolved, now).stats
  {
  }

  /** A completed race never ended before it started, provided the clock did not run backwards. */
  lemma CompletedAfterStart(g: GameState, resolved: Option<Article>, now: int)
    requires Inv(g) && g.status == Playing && resolved.Some?
    requires now >= g.startTime.value
    ensures var s := NavigateToArticle(g, resolved, now).state;
      s.status == Completed ==> s.endTime.value >= s.startTime.value
  {
  }

  /**
   The worked race: start at A with target B, click straight to B. The race
   completes with one click, a path of two articles and the elapsed time as
   duration.
   */
  lemma DirectHitExample(a: Article, b: Article, t0: int, t1: int)
    requires a.title != b.title && t0 != 0 && t1 != 0 && t1 >= t0
    ensures var s := NavigateToArticle(StartGame(a, b, None, t0), Some(b), t1);
      && s.state.status == Completed
      && s.stats == Some(GameStats(t1 - t0, 1, 2, [a.title, b.title]))
  {
    var g := StartGame(a, b, None, t0);
    assert g.path + [b] == [a, b];
    assert Titles([a, b]) == [a.title, b.title];
  }
}
