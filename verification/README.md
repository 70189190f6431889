# Wiki racer — a Dafny model of the race game's core

The wiki racer is a browser game: the player picks (or is given) a start and
a target encyclopedia article and reaches the target by clicking article
links only. The time and the number of clicks are recorded on a local
leaderboard; a daily challenge, shared by every player on the device, records
each signed-in player's completion; players register locally by name.

This project models the logic behind that game as pure functions over
immutable records:

| module | file | models |
|---|---|---|
| `GameTypes` | `types.dfy` | the shared records of `src/types/game.ts` (article, session, statistics, daily race, user), plus `Option` and `Slot` (one storage key: absent, unreadable, or holding a value) |
| `Text` | `text.dfy` | the JavaScript string operations the core relies on: `startsWith`, `replace(/_/g, ' ')`, `trim`, `toLowerCase`, `split(sep)[0]` |
| `WikiLinks` | `wikipedia.dfy` | the link classifier, title extraction (with a `decodeURIComponent` percent/UTF-8 decoder), the search-snippet tag stripper and the page-links filter of `src/utils/wikipedia.ts`, and what the article viewer does with a click |
| `Game` | `game.dfy` | the race session state machine of `src/hooks/useGame.ts` |
| `Leaderboard` | `leaderboard.dfy` | the leaderboard store of `src/hooks/useLeaderboard.ts`: stable sort by duration, cut to fifty, top-N, best time per route, clear, load |
| `DailyRaces` | `daily_race.dfy` | the daily challenge store of `src/hooks/useDailyRace.ts` |
| `Users` | `user.dfy` | the player registry of `src/hooks/useUser.ts` |
| `Timer` | `timer.dfy` | the elapsed-time text of `src/components/Timer.tsx` |
| `App` | `app.dfy` | the page of `src/App.tsx`: the handlers, the setup/player view split, the user actions each screen offers, and the invariant every action keeps |

Everything the code gets from outside is a parameter: the encyclopedia's
answers (`Option<Article>`: `None` when a request failed), clock readings
(`Date.now()` as an integer, `toISOString()` as its text), the ids stamped
from the clock, and the contents of each storage key as a `Slot`. JavaScript
truthiness of timestamps (`!startTime`, `endTime || now`) is `GameTypes.IsSet`:
a missing or zero reading counts as unset.

## Model

| member | source | states |
|---|---|---|
| GameTypes.Titles | src/hooks/useGame.ts:65 | the titles of a path, one per article, in path order |
| Text.ReplaceAll | src/utils/wikipedia.ts:126 | every occurrence of one character is replaced and every other character kept, position by position |
| Text.ReplaceAllAppend | src/utils/wikipedia.ts:126 | replacing distributes over concatenation |
| Text.TrimStart | src/hooks/useUser.ts:27 | the result is the suffix after the leading white space, and starts with a non-space |
| Text.TrimEnd | src/hooks/useUser.ts:27 | the result is the prefix before the trailing white space, and ends with a non-space |
| Text.Trim | src/hooks/useUser.ts:27 | the trimmed text is a stretch of the input with only white space before and after it; it is empty exactly when the input is all white space, and otherwise starts and ends with a non-space |
| Text.TrimWindow | src/hooks/useUser.ts:27 | the trimmed text sits in the input right after the leading white space, with only white space after it |
| Text.ToLower | src/hooks/useUser.ts:34 | same length, each character lower-cased on its own |
| Text.BeforeFirst | src/hooks/useDailyRace.ts:9 | `split(sep)[0]`: a prefix of the input without `sep`, followed in the input by `sep` when shorter |
| WikiLinks.ValidLinkCharacterization | src/utils/wikipedia.ts:115-122 | a link is legal exactly when it starts with "/wiki/" and holds neither ':' nor '#': the File/Category/Template clauses never decide anything |
| WikiLinks.ValidLinkExample | src/utils/wikipedia.ts:115-122 | "/wiki/Albert_Einstein" is a legal move |
| WikiLinks.InvalidLinkExamples | src/utils/wikipedia.ts:115-122 | an external URL, a category page, a file page and a fragment link are not legal moves |
| WikiLinks.HexOctet | src/utils/wikipedia.ts:126 | two hexadecimal digits spell an octet below 256 |
| WikiLinks.Continuations | src/utils/wikipedia.ts:126 | a run of `count` escapes yields `count` octets and fits in the text |
| WikiLinks.DecodeEscape | src/utils/wikipedia.ts:126 | a decoded escape uses at least three characters and no more than the text has |
| WikiLinks.PercentDecode | src/utils/wikipedia.ts:126 | `decodeURIComponent`: text without '%' comes back unchanged and decoding never lengthens text |
| WikiLinks.DecodeEncodeAscii | src/utils/wikipedia.ts:126 | decoding ASCII text that `encodeURIComponent` escaped (unreserved characters kept, every other one as "%XY") gives the text back |
| WikiLinks.PercentDecodeExamples | src/utils/wikipedia.ts:126 | "%5F" decodes to '_', "%C3%A9" to 'é', while a lone '%' and the overlong "%C0%80" throw |
| WikiLinks.FirstMatch | src/utils/wikipedia.ts:125 | the leftmost index at which `/wiki/(.+)$` matches, or none when it matches nowhere |
| WikiLinks.ExtractTitleFromUrl | src/utils/wikipedia.ts:124-127 | "" without a match; otherwise the text after the leftmost match with '_' replaced by ' ' first and then percent-decoded |
| WikiLinks.ExtractWithoutArticlePath | src/utils/wikipedia.ts:124-127 | without "/wiki/" followed by at least one character the title is "" |
| WikiLinks.ExtractPlainTitle | src/utils/wikipedia.ts:125-126 | for text without '%' or line breaks the title is the suffix after the leftmost "/wiki/" with underscores turned to spaces, and holds no '_' |
| WikiLinks.ExtractFromValidLink | src/utils/wikipedia.ts:124-127 | a legal plain link yields the text after "/wiki/" with underscores turned to spaces |
| WikiLinks.ClickTarget | src/components/WikiViewer.tsx:54-64 | a click navigates exactly when the link is legal, extraction does not throw and the title is non-empty, and then to exactly the extracted title |
| WikiLinks.ClickTargetOfValidLink | src/components/WikiViewer.tsx:54-64 | clicking a legal plain link navigates to its title with underscores turned to spaces |
| WikiLinks.ReplaceExample | src/utils/wikipedia.ts:126 | "Albert_Einstein" becomes "Albert Einstein" |
| WikiLinks.ClickTargetExample | src/components/WikiViewer.tsx:59-64 | clicking "/wiki/Albert_Einstein" navigates to "Albert Einstein" |
| WikiLinks.StripTags | src/utils/wikipedia.ts:25 | no '<' in the result is followed by a '>', the result uses only the input's characters, and input without '<' is unchanged |
| WikiLinks.StripTagsKeepsTagFree | src/utils/wikipedia.ts:25 | text with nothing tag-like in it passes through unchanged |
| WikiLinks.StripTagsKeepsPlainPrefix | src/utils/wikipedia.ts:25 | text without '<' in front of the rest is kept as it is, and the rest is stripped on its own |
| WikiLinks.StripTagsRemovesFirstTag | src/utils/wikipedia.ts:25 | the first tag, '<' through the first '>' after it, is removed with nothing else; the text before it is kept and the text after it is stripped on its own |
| WikiLinks.StripTagsIdempotent | src/utils/wikipedia.ts:25 | stripping twice is stripping once |
| WikiLinks.MainNamespaceTitles | src/utils/wikipedia.ts:79-81 | the reference filter: no more titles than links, and each title is that of a namespace-0 link |
| WikiLinks.MainNamespaceTitlesAppend | src/utils/wikipedia.ts:79-81 | the filter preserves order: it distributes over concatenation |
| WikiLinks.PageLinkTitles | src/utils/wikipedia.ts:79-82 | the page's link titles are the first 100 namespace-0 titles in list order, and none when the response has no link list |
| Game.StartGame | src/hooks/useGame.ts:19-34 | a playing session whose path and current article are the summary (or the chosen start), with no clicks, the chosen target and the clock started |
| Game.NavigateToArticle | src/hooks/useGame.ts:36-69 | nothing changes outside a running race or when the title did not resolve; otherwise the article is appended and current, the click counted, the race completes exactly when the title equals the target's, and then its end time is the click's clock reading, and statistics are reported exactly on completion with a set clock |
| Game.GiveUp | src/hooks/useGame.ts:71-77 | the session is failed at `now` and every other field is kept |
| Game.ResetGame | src/hooks/useGame.ts:79-81 | the session is back in setup with an empty path and no clicks, whatever it held |
| Game.GetGameStats | src/hooks/useGame.ts:83-93 | none before the clock started; otherwise the time to the end (or to now), the clicks, the path length and the visited titles |
| Game.NavigatePreservesInv | src/hooks/useGame.ts:43-57 | a navigation keeps every status promise, including path length = clicks + 1 |
| Game.GiveUpPreservesInv | src/hooks/useGame.ts:71-77 | giving up a running race keeps every status promise |
| Game.GiveUpFromSetupBreaksLockStep | src/hooks/useGame.ts:71-77 | giving up is unguarded: from setup it yields a failed session whose path and clicks are out of step |
| Game.CompletionStatsAgree | src/hooks/useGame.ts:60-67 | the statistics reported on completion are what the completed session reports at any later moment |
| Game.CompletedAfterStart | src/hooks/useGame.ts:47-48 | with a clock that does not run backwards a completed race ends no earlier than it started |
| Game.DirectHitExample | src/hooks/useGame.ts:36-69 | start at A, click straight to target B: completed with one click, two articles and the elapsed time |
| Leaderboard.WithDuration | src/hooks/useLeaderboard.ts:50 | the entries of one duration, in list order (the reference for stability) |
| Leaderboard.Insert | src/hooks/useLeaderboard.ts:49-50 | one more entry, and a sorted list stays sorted |
| Leaderboard.InsertPermutes | src/hooks/useLeaderboard.ts:49-50 | insertion is a permutation of the list plus the new entry |
| Leaderboard.InsertStable | src/hooks/useLeaderboard.ts:50 | for every duration, the entries of that duration keep their order and the new one comes after its equals |
| Leaderboard.SortByDuration | src/hooks/useLeaderboard.ts:27 | the sort yields a list of the same length in duration order |
| Leaderboard.SortPermutes | src/hooks/useLeaderboard.ts:27 | the sort is a permutation |
| Leaderboard.SortStable | src/hooks/useLeaderboard.ts:50 | the sort keeps the input order among entries of equal duration |
| Leaderboard.SortSorted | src/hooks/useLeaderboard.ts:50 | sorting a sorted list changes nothing |
| Leaderboard.Take | src/hooks/useLeaderboard.ts:51 | `slice(0, n)`: the prefix of length min(n, length) |
| Leaderboard.AddEntry | src/hooks/useLeaderboard.ts:35-61 | the list grows by one up to fifty, stays sorted, is saved as kept, and holds only old entries and the new one |
| Leaderboard.AddEntryInserts | src/hooks/useLeaderboard.ts:48-51 | on a sorted list, adding is one insertion behind the equal-duration entries followed by the cut to fifty |
| Leaderboard.AddEntryDropped | src/hooks/useLeaderboard.ts:49-51 | the new result is dropped, leaving the list as it was, exactly when fifty entries none slower than it were already there; otherwise it is kept |
| Leaderboard.ClearLeaderboard | src/hooks/useLeaderboard.ts:63-70 | nothing kept and the storage key removed |
| Leaderboard.LoadLeaderboard | src/hooks/useLeaderboard.ts:22-33 | a missing key keeps the list, an unreadable one empties it, a stored list is loaded sorted as a permutation of what was stored |
| Leaderboard.MountLeaderboard | src/hooks/useLeaderboard.ts:16-20 | the opening list is sorted when stored, and empty otherwise |
| Leaderboard.AddEntryReloads | src/hooks/useLeaderboard.ts:53-54 | what adding saves reads back on the next visit as exactly the list kept |
| Leaderboard.ClearReloadsEmpty | src/hooks/useLeaderboard.ts:63-70 | after clearing, the next visit starts empty |
| Leaderboard.GetTopEntries | src/hooks/useLeaderboard.ts:82-84 | a prefix of the list: min(limit, length) entries, or all but the last `-limit` for a negative limit |
| Leaderboard.MinRouteDuration | src/hooks/useLeaderboard.ts:72-80 | none when no entry is on the route; otherwise a duration of an entry on the route that no entry on the route beats |
| Leaderboard.GetBestTime | src/hooks/useLeaderboard.ts:72-80 | none exactly when no entry has that start and end; otherwise the minimum duration among those entries |
| Leaderboard.TopEntriesAreFastest | src/hooks/useLeaderboard.ts:82-84 | on a sorted board no top entry is slower than an entry left out |
| Leaderboard.BestTimeAfterAdd | src/hooks/useLeaderboard.ts:72-80 | a result kept on the board makes the route's best time at most its duration |
| DailyRaces.Migrate | src/hooks/useDailyRace.ts:103-106 | date and articles kept, a missing completions field read as the empty map |
| DailyRaces.MigrateSave | src/hooks/useDailyRace.ts:101-107 | a saved race reads back as the same race |
| DailyRaces.GetTodayString | src/hooks/useDailyRace.ts:7-10 | the key is the part of the ISO text before the first 'T': a prefix holding no 'T', followed in the text by 'T' unless it is the whole text |
| DailyRaces.TodayOfIso | src/hooks/useDailyRace.ts:9 | on "YYYY-MM-DDTHH:mm:ss.sssZ" the key is the first ten characters |
| DailyRaces.GetStoredDailyRace | src/hooks/useDailyRace.ts:12-19 | a race exactly when the key holds a readable one, and then that race |
| DailyRaces.GenerateDailyRace | src/hooks/useDailyRace.ts:33-70 | no race and no change exactly when a random article is missing; otherwise a race dated today with summary-or-fallback ends and no completions, made active and saved |
| DailyRaces.RefreshDailyRace | src/hooks/useDailyRace.ts:96-113 | a readable stored race dated today is migrated and made active without writing; otherwise a new race is generated |
| DailyRaces.MarkDailyRaceCompleted | src/hooks/useDailyRace.ts:72-89 | no change without an active race; otherwise date and articles kept, the user added to the completions, and the race saved |
| DailyRaces.GetUserCompletion | src/hooks/useDailyRace.ts:91-94 | a record exactly when a race is active and holds one for the user, and then that record |
| DailyRaces.RefreshSameDayStable | src/hooks/useDailyRace.ts:96-113 | a second refresh on the same day returns the same race and changes nothing |
| DailyRaces.MarkThenGet | src/hooks/useDailyRace.ts:75-85 | after marking, the user's record reads back as completed with this time and click count |
| DailyRaces.MarkOthersUnchanged | src/hooks/useDailyRace.ts:77-78 | marking one user leaves every other user's record as it was |
| DailyRaces.MarkSurvivesRefresh | src/hooks/useDailyRace.ts:88 | a completion survives a reload on the same day |
| DailyRaces.MarkCanRegress | src/hooks/useDailyRace.ts:79-83 | the "best" time is overwritten: a slower second finish replaces a faster first one |
| DailyRaces.NewDayStartsFresh | src/hooks/useDailyRace.ts:111-112 | a refresh on a new day draws a race dated that day with no completions |
| Users.MountUsers | src/hooks/useUser.ts:12-24 | a player is signed in at load exactly when the key holds a readable one |
| Users.FindUser | src/hooks/useUser.ts:34 | `find`: the first player whose lower-cased name equals the key, or none when no player does |
| Users.FindUserAppend | src/hooks/useUser.ts:34 | appending a player keeps an earlier match and is found when it is the only match |
| Users.GetAllUsers | src/hooks/useUser.ts:70-78 | the stored registry, or empty when it is missing or unreadable |
| Users.Register | src/hooks/useUser.ts:26-59 | blank names and an unreadable registry change nothing; a matching player is signed in with the registry unchanged; otherwise a new player with the trimmed name is appended and signed in |
| Users.RegisterUser | src/hooks/useUser.ts:34 | as written: the registry grows only when no stored name matches the untrimmed input |
| Users.RegisterUserTrimmed | src/hooks/useUser.ts:34 | corrected: the registry grows only when no stored name matches the trimmed input |
| Users.LogoutUser | src/hooks/useUser.ts:61-68 | no one is signed in, the saved copy is removed, the registry is kept |
| Users.RegisterTrimmedKeepsNamesUnique | src/hooks/useUser.ts:34-50 | with the corrected lookup a registry never gains two names equal up to case |
| Users.RegisterUserDuplicates | src/hooks/useUser.ts:34 | as written, a name typed with extra white space registers a second player with the same name |
| Users.LeadingBlankDuplicates | src/hooks/useUser.ts:45 | a leading blank trims away but changes the typed length, so it triggers the duplicate |
| Users.RegisterUserTrimmedFindsFirst | src/hooks/useUser.ts:34-40 | with the corrected lookup " Bob" after "Bob" signs the first Bob in and adds no one |
| Users.RegisterAgain | src/hooks/useUser.ts:34-40 | after a registration, registering a name with the same key signs the same player in and the registry does not grow |
| Users.RegisterAgainSignsInSame | src/hooks/useUser.ts:34-40 | with the corrected lookup, names equal after trimming and lower-casing sign in the same player |
| Users.RegisterUserTwice | src/hooks/useUser.ts:34-40 | as written, registering the same name with only case differences returns the same player and grows the registry at most once |
| Users.LogoutThenRegister | src/hooks/useUser.ts:26-68 | with the corrected lookup, signing out and registering the same name again signs the same player in |
| Users.LogoutThenRegisterAsWritten | src/hooks/useUser.ts:26-68 | as written, the same holds for a name typed without surrounding blanks |
| Users.RegisterReloads | src/hooks/useUser.ts:51 | the player a registration signs in is the one the next visit starts with |
| Timer.Digits | src/components/Timer.tsx:35 | `toString()` of a non-negative number: digits only, a leading zero only for zero, one digit exactly below ten |
| Timer.DigitsRoundTrip | src/components/Timer.tsx:35 | reading the decimal text of n gives n |
| Timer.NumberToString | src/components/Timer.tsx:35 | the text starts with '-' exactly for a negative number, and the digits after the sign read back as its magnitude |
| Timer.PadStart2 | src/components/Timer.tsx:35 | at least two characters, the input at the end, '0's in front |
| Timer.JsRem | src/components/Timer.tsx:32 | JavaScript's `%`: the remainder has the sign of the dividend |
| Timer.ElapsedSeconds | src/components/Timer.tsx:30 | the whole seconds from the start to the end time (or to now), rounded down |
| Timer.Split | src/components/Timer.tsx:31-32 | minutes rounded down; for a non-negative count minutes·60 + seconds = count with seconds below sixty; for a negative one the seconds keep the sign |
| Timer.TimerText | src/components/Timer.tsx:21-28 | "00:00" before the clock starts |
| Timer.FormatReadsBack | src/components/Timer.tsx:34-36 | a clock with seconds below sixty is formatted as text that reads back as its total seconds |
| Timer.TimerTextReadsBack | src/components/Timer.tsx:30-36 | the timer's text reads back as the elapsed whole seconds when the clock did not run backwards |
| Timer.HourText | src/components/Timer.tsx:31-35 | an hour shows as "60:00": minutes are not capped |
| Timer.MinusOneSecondText | src/components/Timer.tsx:31-35 | minus one second shows as "-1:-1" |
| Timer.HourShowsSixtyMinutes | src/components/Timer.tsx:30-35 | a race an hour long shows "60:00" |
| Timer.BackwardsClockShowsNegative | src/components/Timer.tsx:30-35 | a clock one second behind the start shows "-1:-1" |
| App.HandleStartGame | src/App.tsx:23-25 | a running race from the chosen ends; no store and no panel changes |
| App.HandleLinkClick | src/App.tsx:27-42 | the session navigates; a completion is filed on the leaderboard under the session's titles exactly when statistics are reported and both ends are set; the daily store changes only for a daily race by title with a signed-in player |
| App.HandleGiveUp | src/App.tsx:44-46 | the session fails and no store changes |
| App.HandlePlayAgain | src/App.tsx:48-51 | the session is back in setup and the leaderboard panel hidden; nothing else changes |
| App.HandleToggleLeaderboard | src/App.tsx:53-55 | the leaderboard panel flips and nothing else changes |
| App.HandleToggleDailyRace | src/App.tsx:61-63 | the daily panel flips and nothing else changes |
| App.HandleToggleLoginModal | src/App.tsx:65-67 | the login dialog flips and nothing else changes |
| App.HandleRegister | src/components/LoginModal.tsx:24-36 | a blank name or an unreadable registry changes nothing; otherwise a player is signed in, saved as the current one, and the dialog closes; the race, the leaderboard, the daily store and the panels are untouched |
| App.HandleLogout | src/components/LoginModal.tsx:38-41 | nobody is signed in, the saved copy is removed, the registry kept, the dialog closes, and nothing else changes |
| App.Enabled | src/App.tsx:69-131 | the race's buttons are offered only on the player screen and the panel buttons only off it; the dialog's actions only while it is open; the dialog's button exactly in setup or while the dialog is open; "Clear All" exactly when the leaderboard panel lists an entry (src/components/Leaderboard.tsx:30-50) |
| App.Step | src/App.tsx:23-67 | an unfollowable click changes nothing; only registering and signing out touch the players; logging out signs out and closes the dialog; registering either changes nothing or signs a player in and closes the dialog |
| App.RegisterKeepsInv | src/components/LoginModal.tsx:24-36 | registering through the dialog keeps the page invariant |
| App.View | src/App.tsx:69-119 | the player exactly outside setup; in setup the leaderboard panel over the daily panel over the custom form; the panel lists the first ten entries, the first ten of the twenty the page hands it (src/components/Leaderboard.tsx:15-17) |
| App.MountSatisfiesInv | src/App.tsx:15-21 | the page opens on the custom form in a state that keeps the invariant |
| App.StepPreservesInv | src/App.tsx:23-67 | every action the page offers keeps the session's status promises and the leaderboard order, and, with the corrected registration, unique player names |
| App.RunPreservesInv | src/App.tsx:14-131 | any sequence of actions keeps the invariant, registering through the corrected lookup |
| App.CompletionFilesEntry | src/App.tsx:29-31 | reaching the target completes the race and inserts its entry behind the equal durations, cut to fifty |
| App.OnlyCompletionRecords | src/App.tsx:27-42 | a click that does not complete a race records nothing in either store |
| App.DailyCompletionRecorded | src/App.tsx:33-39 | a signed-in player finishing the daily race has it recorded with this duration and click count |
| App.CustomRaceCountsAsDaily | src/App.tsx:34-36 | the check is by title: a custom race between articles with the daily titles counts as a daily completion |
| App.UnfollowableLinkIgnored | src/components/WikiViewer.tsx:54 | a click on an href that is not a legal move changes nothing |
| App.PlayAgainView | src/App.tsx:48-51 | after play again the daily panel shows when it was open, and the custom form otherwise |

## Left out

- The HTTP requests of `WikipediaAPI` (search, random article, page content, page summary) and of `src/hooks/useWikipedia.ts`: their answers are parameters. Only the pure transforms inside them (the tag stripper, the links filter) are modelled.
- `localStorage` and JSON: each key is a `Slot`. Failures of `setItem` and `removeItem` (quota, privacy mode) are not modelled. In `registerUser` the writes (`src/hooks/useUser.ts:38`, `src/hooks/useUser.ts:50-51`) are inside the `try`, so a failing write makes it return null (lines 55-58): registration reports failure and the dialog stays open with the name kept, although on the existing-player path the player was already signed in in memory (line 37). `logoutUser` only logs a failing `removeItem` (lines 63-67).
- `Date.now()` and `toISOString()`: readings are parameters. Ids derived from the clock are parameters too, and nothing claims they are unique.
- Leaderboard.NewEntry: records no player, because `addEntry` takes three arguments (`src/hooks/useLeaderboard.ts:35-39`) and ignores the fourth, `currentUser || undefined`, that `src/App.tsx:31` passes; a leaderboard entry never says who raced.
- React scheduling: `useState`/`useEffect`/`useCallback`, `Promise.all`, the `isLoading` flags and the interval tick that refreshes the timer. Each handler is an atomic step on the latest state; `navigateToArticle` reading its closure's (possibly stale) state is not modelled.
- The article fields `content` and `links` of `src/types/game.ts:5-6` and the search-result and page-content records: only the links filter's output is modelled.
- `encodeURIComponent` in the random article's URL: the URL is carried as an opaque string; only its ASCII part is modelled (WikiLinks.EncodeAscii), as the partner of the decoder.
- Presentation components and styling. The only rules taken from them are which buttons each screen shows (`App.Enabled`): the custom start button is enabled when both ends differ in page id (`src/components/GameSetup.tsx:64`), the daily start button passes the daily race's ends (`src/components/DailyRace.tsx:150`), give-up is shown while playing (`src/components/GamePlayer.tsx:119`), play-again after a race, and "Clear All" only above a non-empty table (`src/components/Leaderboard.tsx:30-50`). The dialog's button is in the setup header (`src/App.tsx:75-78`) and its close button is in the open dialog (`src/components/LoginModal.tsx:110-115`); the name form shows only while nobody is signed in, takes at most twenty characters and cannot be submitted blank (`src/components/LoginModal.tsx:52-97`); "Logout" shows only while someone is (`src/components/LoginModal.tsx:52-71`).
- App.Enabled: does not model that the open dialog's overlay covers the rest of the page, nor the loading states (`isLoading`, `isRegistering`) that hide or disable the dialog's form.
- Text.ToLower: lower-cases ASCII letters only, because Unicode case mapping is a foreign table; names that differ in non-ASCII letter case are treated as different.
- Strings are sequences of code points, while JavaScript strings are UTF-16 code units; lengths of text with characters outside the basic plane differ.
- JavaScript numbers are doubles; here they are unbounded integers, which is exact for millisecond timestamps and counters.
- Timer.FormatTime: carries no contract of its own; what it produces is stated by `Timer.FormatReadsBack`, `Timer.HourText` and `Timer.MinusOneSecondText`.
- Game.StartGame: has no precondition, because the handler checks nothing; the different-page-ids rule applies only to the custom start button, in `App.Enabled`, and the daily race never checks that its ends differ.
- DailyRaces.MarkDailyRaceCompleted: overwrites the player's record unconditionally, as the code does (`src/hooks/useDailyRace.ts:81-82`); the record's fields are named `bestTime` and `bestClicks` (`src/types/game.ts:47-48`) and the daily panel asks "Can you beat your best time?" (`src/components/DailyRace.tsx:168`), which suggests a record that only improves. `DailyRaces.MarkCanRegress` shows that a slower result replaces a faster one.
- Users.RegisterUser: kept as written for the finding below; the page (`App.Step`) registers through `Users.RegisterUserTrimmed`.
- App.Step: registers, in `App.HandleRegister`, through the corrected `Users.RegisterUserTrimmed`, while `src/App.tsx:125` passes `registerUser`, whose untrimmed lookup can store a name twice (`Users.RegisterUserDuplicates`).
- App.HandleRegister: is where that corrected call sits; the dialog's outcome it states (nothing for a blank name, otherwise someone signed in and the dialog closed) holds for the lookup as written too, but which player is signed in can differ.
- App.StepPreservesInv: its unique-names part holds for the corrected registration only; with the lookup as written the registry can hold two players of the same name, so the page as written does not keep that part.
- App.RunPreservesInv: inherits the same restriction from `App.StepPreservesInv`.
- Users.LogoutThenRegister: stated for the corrected lookup; as written it holds only for a name typed without surrounding blanks (`Users.LogoutThenRegisterAsWritten`), and " Bob", sign out, " Bob" signs a new player in.

## Findings

| source | as written | input that shows it | evidently intended | confidence | as-written member | corrected member |
|---|---|---|---|---|---|---|
| src/hooks/useUser.ts:34 | the existing-player lookup lower-cases the name as typed, untrimmed, while new players are stored with the trimmed name (line 45); the login dialog passes the typed text untrimmed | register "Bob", then register " Bob": no stored name equals " bob", so a second player named "Bob" is appended | look the name up trimmed, as it is stored, so a name is registered once | high (not executed) | Users.RegisterUserDuplicates | Users.RegisterTrimmedKeepsNamesUnique |
