/**
 The records shared by the race game's hooks and components: articles, the
 session state, the completion statistics, the daily challenge and the user.
 JavaScript numbers are modelled as unbounded integers (all of them are
 millisecond timestamps, durations or counters).
 */
module GameTypes {

  /** A value that may be missing: JavaScript's `T | null` (or `T | undefined`). */
  datatype Option<+T> = None | Some(value: T) {

    /** The value, or `default` when missing: JavaScript's `x || default` on objects. */
    function GetOr(default: T): T {
      match this
      case Some(v) => v
      case None => default
    }
  }

  /**
   One durable storage key as a hook reads it back: nothing stored (or the
   empty text, which the hooks treat like nothing), text that does not parse
   to the expected shape, or a parsed value.
   */
  datatype Slot<+T> = Absent | Corrupt | Stored(value: T)

  /** An encyclopedia page, identified by its title and numeric page id. */
  datatype Article = Article(title: string, pageid: int, extract: Option<string>, url: Option<string>)

  /** The four phases of one race attempt. */
  datatype Status = Setup | Playing | Completed | Failed

  /** One race attempt. */
  datatype GameState = GameState(
    status: Status,
    startArticle: Option<Article>,
    endArticle: Option<Article>,
    currentArticle: Option<Article>,
    path: seq<Article>,
    startTime: Option<int>,
    endTime: Option<int>,
    clickCount: int)

  /** The result of a finished race, handed to the stores. */
  datatype GameStats = GameStats(duration: int, clickCount: int, pathLength: int, articlesVisited: seq<string>)

  /** One user's record on a daily challenge. */
  datatype Completion = Completion(completed: bool, bestTime: Option<int>, bestClicks: Option<int>)

  /** The challenge of one calendar day (date key "YYYY-MM-DD"), with completions keyed by user id. */
  datatype DailyRace = DailyRace(date: string, startArticle: Article, endArticle: Article, userCompletions: map<string, Completion>)

  /** A locally registered player. */
  datatype User = User(id: string, username: string, createdAt: int)

  /**
   JavaScript truthiness of a `number | null` timestamp: both `null` and `0`
   are falsy, so `!startTime` and `endTime || now` treat a zero time as unset.
   */
  predicate IsSet(t: Option<int>) {
    t.Some? && t.value != 0
  }

  /** The titles of a path, in path order. */
  function Titles(path: seq<Article>): (ts: seq<string>)
    ensures |ts| == |path|
    ensures forall i :: 0 <= i < |path| ==> ts[i] == path[i].title
  {
    if path == [] then [] else [path[0].title] + Titles(path[1..])
  }
}
