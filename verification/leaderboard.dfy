/**
 The leaderboard store: completed races, kept sorted by duration (fastest
 first, earlier entries first among equal durations) and capped at fifty,
 together with the copy written to durable storage.
 */
module Leaderboard {
  import opened GameTypes

  /** One ranked result. Its id and timestamp both come from the clock at insertion. */
  datatype Entry = Entry(id: string, startArticle: string, endArticle: string, stats: GameStats, timestamp: int)

  /** The in-memory list and the durable copy under the leaderboard's storage key. */
  datatype Board = Board(entries: seq<Entry>, saved: Slot<seq<Entry>>)

  /** The most entries kept. */
  const MaxEntries := 50

  function Duration(e: Entry): int {
    e.stats.duration
  }

  /** Ascending by duration. */
  predicate SortedByDuration(s: seq<Entry>) {
    forall i, j :: 0 <= i < j < |s| ==> Duration(s[i]) <= Duration(s[j])
  }

  /** The entries of `s` with duration `d`, in their order in `s`. */
  function WithDuration(s: seq<Entry>, d: int): (r: seq<Entry>)
    ensures |r| <= |s|
  {
    if s == [] then [] else (if Duration(s[0]) == d then [s[0]] else []) + WithDuration(s[1..], d)
  }

  /** Restricting to one duration distributes over concatenation. */
  lemma {:induction false} WithDurationAppend(a: seq<Entry>, b: seq<Entry>, d: int)
    ensures WithDuration(a + b, d) == WithDuration(a, d) + WithDuration(b, d)
    decreases |a|
  {
    if a == [] {
      assert a + b == b;
    } else {
      var ab := a + b;
      assert ab[0] == a[0];
      assert ab[1..] == a[1..] + b;
      WithDurationAppend(a[1..], b, d);
      calc {
        WithDuration(ab, d);
        (if Duration(a[0]) == d then [a[0]] else []) + WithDuration(ab[1..], d);
        (if Duration(a[0]) == d then [a[0]] else []) + (WithDuration(a[1..], d) + WithDuration(b, d));
      }
    }
  }

  /** When every duration in `s` exceeds `d`, no entry has duration `d`. */
  lemma {:induction false} WithDurationNone(s: seq<Entry>, d: int)
    requires forall i :: 0 <= i < |s| ==> Duration(s[i]) > d
    ensures WithDuration(s, d) == []
    decreases |s|
  {
    if s != [] {
      WithDurationNone(s[1..], d);
    }
  }

  /** No entry of `s` is faster than `d`. */
  predicate AtLeast(s: seq<Entry>, d: int) {
    forall i :: 0 <= i < |s| ==> d <= Duration(s[i])
  }

  /**
   Inserts `e` into a sorted list after every entry that is not slower, so
   that it lands behind the entries with an equal duration.
   */
  function Insert(s: seq<Entry>, e: Entry): (r: seq<Entry>)
    ensures |r| == |s| + 1
    ensures forall d :: AtLeast(s, d) && d <= Duration(e) ==> AtLeast(r, d)
    ensures SortedByDuration(s) ==> SortedByDuration(r)
  {
    if s == [] then [e]
    else if Duration(s[0]) > Duration(e) then
      assert SortedByDuration(s) ==> AtLeast(s, Duration(e)) by {
        if SortedByDuration(s) {
          forall i | 0 <= i < |s| ensures Duration(e) <= Duration(s[i]) {
            assert Duration(s[0]) <= Duration(s[i]);
          }
        }
      }
      [e] + s
    else
      var rest := Insert(s[1..], e);
      assert forall d :: AtLeast(s, d) ==> AtLeast(s[1..], d) && d <= Duration(s[0]) by {
        forall d | AtLeast(s, d) ensures AtLeast(s[1..], d) && d <= Duration(s[0]) {
          assert forall i :: 0 <= i < |s[1..]| ==> s[1..][i] == s[i + 1];
        }
      }
      assert SortedByDuration(s) ==> SortedByDuration([s[0]] + rest) by {
        if SortedByDuration(s) {
          assert SortedByDuration(s[1..]);
          assert AtLeast(s[1..], Duration(s[0])) by {
            forall i | 0 <= i < |s[1..]| ensures Duration(s[0]) <= Duration(s[1..][i]) {
              assert s[1..][i] == s[i + 1];
            }
          }
          assert AtLeast(rest, Duration(s[0]));
        }
      }
      [s[0]] + rest
  }

  /** Insertion adds `e` and keeps everything else: a permutation of `s` plus `e`. */
  lemma {:induction false} InsertPermutes(s: seq<Entry>, e: Entry)
    ensures multiset(Insert(s, e)) == multiset(s) + multiset{e}
    decreases |s|
  {
    if s != [] && Duration(s[0]) <= Duration(e) {
      InsertPermutes(s[1..], e);
      assert s == [s[0]] + s[1..];
    }
  }

  /** Dropping the first entry of a sorted list leaves it sorted. */
  lemma SortedTail(s: seq<Entry>)
    requires SortedByDuration(s) && s != []
    ensures SortedByDuration(s[1..])
  {
    forall i, j | 0 <= i < j < |s| - 1 ensures Duration(s[1..][i]) <= Duration(s[1..][j]) {
      assert s[1..][i] == s[i + 1] && s[1..][j] == s[j + 1];
    }
  }

  /** Inserting keeps, for every duration, the entries of that duration in order, with `e` last among its equals. */
  lemma {:induction false} InsertStable(s: seq<Entry>, e: Entry, d: int)
    requires SortedByDuration(s)
    ensures WithDuration(Insert(s, e), d) == WithDuration(s, d) + (if Duration(e) == d then [e] else [])
    decreases |s|
  {
    var tail := if Duration(e) == d then [e] else [];
    if s == [] {
      assert WithDuration([e], d) == tail + WithDuration([], d);
    } else if Duration(s[0]) > Duration(e) {
      InsertFrontStable(s, e, d);
    } else {
      var rest := Insert(s[1..], e);
      assert Insert(s, e) == [s[0]] + rest;
      SortedTail(s);
      InsertStable(s[1..], e, d);
      WithDurationAppend([s[0]], rest, d);
      WithDurationAppend([s[0]], s[1..], d);
      assert [s[0]] + s[1..] == s;
      var head := WithDuration([s[0]], d);
      calc {
        WithDuration(Insert(s, e), d);
        head + WithDuration(rest, d);
        head + (WithDuration(s[1..], d) + tail);
        (head + WithDuration(s[1..], d)) + tail;
        WithDuration(s, d) + tail;
      }
    }
  }

  /** The case of `InsertStable` where `e` goes in front of a sorted list whose first entry is slower. */
  lemma InsertFrontStable(s: seq<Entry>, e: Entry, d: int)
    requires SortedByDuration(s) && s != [] && Duration(s[0]) > Duration(e)
    ensures WithDuration(Insert(s, e), d) == WithDuration(s, d) + (if Duration(e) == d then [e] else [])
  {
    var tail := if Duration(e) == d then [e] else [];
    assert Insert(s, e) == [e] + s;
    WithDurationAppend([e], s, d);
    assert WithDuration([e], d) == tail + WithDuration([], d);
    if Duration(e) == d {
      assert forall i :: 0 <= i < |s| ==> Duration(s[i]) > d by {
        forall i | 0 <= i < |s| ensures Duration(s[i]) > d {
          assert Duration(s[0]) <= Duration(s[i]);
        }
      }
      WithDurationNone(s, d);
    }
  }

  /**
   `Array.prototype.sort` with the comparator `a.duration - b.duration`,
   which is stable: an insertion sort that inserts each entry behind the
   equal ones already placed. The result is sorted, a permutation of the
   input, and keeps the input order among entries of equal duration.
   */
  function SortByDuration(s: seq<Entry>): (r: seq<Entry>)
    ensures |r| == |s|
    ensures SortedByDuration(r)
  {
    if s == [] then []
    else
      var init := s[..|s| - 1];
      assert s == init + [s[|s| - 1]];
      Insert(SortByDuration(init), s[|s| - 1])
  }

  /** The sort is a permutation. */
  lemma {:induction false} SortPermutes(s: seq<Entry>)
    ensures multiset(SortByDuration(s)) == multiset(s)
    decreases |s|
  {
    if s != [] {
      var init := s[..|s| - 1];
      assert s == init + [s[|s| - 1]];
      SortPermutes(init);
      InsertPermutes(SortByDuration(init), s[|s| - 1]);
    }
  }

  /** The sort is stable: restricted to any one duration, it is the identity. */
  lemma {:induction false} SortStable(s: seq<Entry>, d: int)
    ensures WithDuration(SortByDuration(s), d) == WithDuration(s, d)
    decreases |s|
  {
    if s != [] {
      var init, last := s[..|s| - 1], s[|s| - 1];
      assert s == init + [last];
      SortStable(init, d);
      InsertStable(SortByDuration(init), last, d);
      WithDurationAppend(init, [last], d);
    }
  }

  /** An entry no faster than every entry of a sorted list goes at its end. */
  lemma {:induction false} InsertLast(s: seq<Entry>, e: Entry)
    requires forall i :: 0 <= i < |s| ==> Duration(s[i]) <= Duration(e)
    ensures Insert(s, e) == s + [e]
    decreases |s|
  {
    if s != [] {
      InsertLast(s[1..], e);
      assert s == [s[0]] + s[1..];
    }
  }

  /** Sorting an already sorted list changes nothing. */
  lemma {:induction false} SortSorted(s: seq<Entry>)
    requires SortedByDuration(s)
    ensures SortByDuration(s) == s
    decreases |s|
  {
    if s != [] {
      var init := s[..|s| - 1];
      assert SortedByDuration(init);
      SortSorted(init);
      InsertLast(init, s[|s| - 1]);
      assert init + [s[|s| - 1]] == s;
    }
  }

  /** `slice(0, n)` for `n >= 0`: at most the first `n` elements. */
  function Take(s: seq<Entry>, n: nat): (r: seq<Entry>)
    ensures |r| == if n < |s| then n else |s|
    ensures r == s[..|r|]
  {
    if n < |s| then s[..n] else s
  }

  /** The entry `addEntry` creates from a finished race; `now` supplies both its id and its timestamp. */
  function NewEntry(startArticle: string, endArticle: string, stats: GameStats, id: string, now: int): Entry {
    Entry(id, startArticle, endArticle, stats, now)
  }

  /**
   Records a finished race: the new entry joins the list, the whole list is
   re-sorted by duration and cut to fifty, and that list is both kept and
   saved.
   */
  function AddEntry(b: Board, startArticle: string, endArticle: string, stats: GameStats, id: string, now: int): (r: Board)
    ensures |r.entries| == if |b.entries| + 1 < MaxEntries then |b.entries| + 1 else MaxEntries
    ensures SortedByDuration(r.entries)
    ensures r.saved == Stored(r.entries)
    ensures multiset(r.entries) <= multiset(b.entries) + multiset{NewEntry(startArticle, endArticle, stats, id, now)}
  {
    var all := b.entries + [NewEntry(startArticle, endArticle, stats, id, now)];
    var updated := Take(SortByDuration(all), MaxEntries);
    SortedCut(all);
    Board(updated, Stored(updated))
  }

  /** Sorting and cutting to fifty keeps the list sorted and draws only on the entries given. */
  lemma SortedCut(all: seq<Entry>)
    ensures var r := Take(SortByDuration(all), MaxEntries);
      SortedByDuration(r) && multiset(r) <= multiset(all)
  {
    var sorted := SortByDuration(all);
    var r := Take(sorted, MaxEntries);
    SortPermutes(all);
    assert sorted == r + sorted[|r|..];
    assert forall i :: 0 <= i < |r| ==> r[i] == sorted[i];
  }

  /** On a sorted list the sort is a single insertion behind the equal-duration entries. */
  lemma AddEntryInserts(b: Board, startArticle: string, endArticle: string, stats: GameStats, id: string, now: int)
    requires SortedByDuration(b.entries)
    ensures AddEntry(b, startArticle, endArticle, stats, id, now).entries
      == Take(Insert(b.entries, NewEntry(startArticle, endArticle, stats, id, now)), MaxEntries)
  {
    var e := NewEntry(startArticle, endArticle, stats, id, now);
    var all := b.entries + [e];
    assert all[..|all| - 1] == b.entries;
    SortSorted(b.entries);
  }

  /**
   The new result is dropped, and the list stays as it was, exactly when the
   sorted list already held fifty entries none of which is slower than it.
   Otherwise the new result is kept.
   */
  lemma AddEntryDropped(b: Board, startArticle: string, endArticle: string, stats: GameStats, id: string, now: int)
    requires SortedByDuration(b.entries) && |b.entries| <= MaxEntries
    ensures var e := NewEntry(startArticle, endArticle, stats, id, now);
      var r := AddEntry(b, startArticle, endArticle, stats, id, now).entries;
      && (r == b.entries <==> |b.entries| == MaxEntries && forall i :: 0 <= i < |b.entries| ==> Duration(b.entries[i]) <= Duration(e))
      && (r != b.entries ==> e in r)
  {
    var e := NewEntry(startArticle, endArticle, stats, id, now);
    AddEntryInserts(b, startArticle, endArticle, stats, id, now);
    if forall i :: 0 <= i < |b.entries| ==> Duration(b.entries[i]) <= Duration(e) {
      CapSlowest(b.entries, e);
    } else {
      CapFaster(b.entries, e);
    }
  }

  /** A result no faster than any of at most fifty entries goes last, and is cut off when there were fifty. */
  lemma CapSlowest(s: seq<Entry>, e: Entry)
    requires |s| <= MaxEntries
    requires forall i :: 0 <= i < |s| ==> Duration(s[i]) <= Duration(e)
    ensures var r := Take(Insert(s, e), MaxEntries);
      && (r == s <==> |s| == MaxEntries)
      && (r != s ==> e in r)
  {
    InsertLast(s, e);
    var r := Take(s + [e], MaxEntries);
    if |s| < MaxEntries {
      assert r == s + [e];
      assert r[|s|] == e;
    } else {
      assert r == (s + [e])[..MaxEntries];
      assert r == s;
    }
  }

  /** A result faster than some entry of a sorted list of at most fifty survives the cut and changes the list. */
  lemma CapFaster(s: seq<Entry>, e: Entry)
    requires |s| <= MaxEntries && SortedByDuration(s)
    requires exists i :: 0 <= i < |s| && Duration(s[i]) > Duration(e)
    ensures var r := Take(Insert(s, e), MaxEntries); r != s && e in r
  {
    var i :| 0 <= i < |s| && Duration(s[i]) > Duration(e);
    assert Duration(s[|s| - 1]) > Duration(e) by {
      assert Duration(s[i]) <= Duration(s[|s| - 1]);
    }
    var k := InsertionPoint(s, e);
    var ins := s[..k] + [e] + s[k..];
    var r := Take(ins, MaxEntries);
    assert ins[k] == e;
    assert k < |r|;
    assert r[k] == e;
    assert r != s by {
      if |r| == |s| {
        assert Duration(r[k]) != Duration(s[k]);
      }
    }
  }

  /** Putting `x` in front of a list with `e` spliced in at `k` splices `e` in at `k + 1` of the longer list. */
  lemma ConsSplit<T>(x: T, t: seq<T>, e: T, k: nat)
    requires k <= |t|
    ensures [x] + (t[..k] + [e] + t[k..]) == ([x] + t)[..k + 1] + [e] + ([x] + t)[k + 1..]
  {
    var s := [x] + t;
    assert s[..k + 1] == [x] + t[..k];
    assert s[k + 1..] == t[k..];
  }

  /** Where `Insert` places `e` in a list whose last entry is slower: just before the first slower entry. */
  lemma {:induction false} InsertionPoint(s: seq<Entry>, e: Entry) returns (k: nat)
    requires s != [] && Duration(s[|s| - 1]) > Duration(e)
    ensures k < |s| && Duration(s[k]) > Duration(e)
    ensures forall j :: 0 <= j < k ==> Duration(s[j]) <= Duration(e)
    ensures Insert(s, e) == s[..k] + [e] + s[k..]
    decreases |s|
  {
    if Duration(s[0]) > Duration(e) {
      k := 0;
      assert Insert(s, e) == s[..0] + [e] + s[0..] by {
        assert Insert(s, e) == [e] + s;
        assert s[..0] + [e] + s[0..] == [e] + s;
      }
    } else {
      var t := s[1..];
      assert t != [] && Duration(t[|t| - 1]) > Duration(e) by {
        assert t[|t| - 1] == s[|s| - 1];
      }
      var k' := InsertionPoint(t, e);
      k := k' + 1;
      assert Duration(s[k]) > Duration(e) by {
        assert s[k] == t[k'];
      }
      assert forall j :: 1 <= j < k ==> s[j] == t[j - 1];
      assert Insert(s, e) == [s[0]] + Insert(t, e);
      assert [s[0]] + t == s;
      ConsSplit(s[0], t, e, k');
    }
  }

  /** The leaderboard's "Clear": nothing kept in memory, and the storage key removed. */
  function ClearLeaderboard(b: Board): (r: Board)
    ensures r.entries == [] && r.saved == Absent
  {
    Board([], Absent)
  }

  /**
   Loading from storage: a missing key leaves the list as it is, unreadable
   text empties it, and a stored list is sorted by duration (not cut to
   fifty).
   */
  function LoadLeaderboard(b: Board): (r: Board)
    ensures r.saved == b.saved
    ensures b.saved.Absent? ==> r.entries == b.entries
    ensures b.saved.Corrupt? ==> r.entries == []
    ensures b.saved.Stored? ==> SortedByDuration(r.entries) && multiset(r.entries) == multiset(b.saved.value)
  {
    match b.saved
    case Absent => b
    case Corrupt => b.(entries := [])
    case Stored(es) => SortPermutes(es); b.(entries := SortByDuration(es))
  }

  /** The board when the page opens: an empty list, then a load from storage. */
  function MountLeaderboard(saved: Slot<seq<Entry>>): (r: Board)
    ensures saved.Stored? ==> SortedByDuration(r.entries)
    ensures !saved.Stored? ==> r.entries == []
  {
    LoadLeaderboard(Board([], saved))
  }

  /** What `addEntry` saves reads back, on the next visit, as exactly the list it kept. */
  lemma AddEntryReloads(b: Board, startArticle: string, endArticle: string, stats: GameStats, id: string, now: int)
    ensures var r := AddEntry(b, startArticle, endArticle, stats, id, now);
      MountLeaderboard(r.saved).entries == r.entries
  {
    var r := AddEntry(b, startArticle, endArticle, stats, id, now);
    SortSorted(r.entries);
  }

  /** After clearing, the next visit starts from an empty leaderboard. */
  lemma ClearReloadsEmpty(b: Board)
    ensures MountLeaderboard(ClearLeaderboard(b).saved).entries == []
  {
  }

  /**
   `getTopEntries(limit)`, i.e. `entries.slice(0, limit)` (the limit defaults
   to ten): the first `limit` entries, or for a negative limit all but the
   last `-limit`.
   */
  function GetTopEntries(b: Board, limit: int := 10): (r: seq<Entry>)
    ensures |r| <= |b.entries|
    ensures r == b.entries[..|r|]
    ensures limit >= 0 ==> |r| == if limit < |b.entries| then limit else |b.entries|
    ensures limit < 0 ==> |r| == if |b.entries| + limit > 0 then |b.entries| + limit else 0
  {
    var end := if limit >= 0 then limit else |b.entries| + limit;
    if end <= 0 then [] else Take(b.entries, end)
  }

  /** A route's entry: same start and end titles. */
  predicate OnRoute(e: Entry, startArticle: string, endArticle: string) {
    e.startArticle == startArticle && e.endArticle == endArticle
  }

  /** The smallest duration among the entries of the route in `s`, if there are any. */
  function MinRouteDuration(s: seq<Entry>, startArticle: string, endArticle: string): (r: Option<int>)
    ensures r.None? <==> forall i :: 0 <= i < |s| ==> !OnRoute(s[i], startArticle, endArticle)
    ensures r.Some? ==> exists i :: 0 <= i < |s| && OnRoute(s[i], startArticle, endArticle) && Duration(s[i]) == r.value
    ensures r.Some? ==> forall i :: 0 <= i < |s| && OnRoute(s[i], startArticle, endArticle) ==> r.value <= Duration(s[i])
  {
    if s == [] then None
    else
      var rest := MinRouteDuration(s[1..], startArticle, endArticle);
      assert forall i :: 1 <= i < |s| ==> s[i] == s[1..][i - 1];
      assert rest.Some? ==> exists i :: 1 <= i < |s| && OnRoute(s[i], startArticle, endArticle) && Duration(s[i]) == rest.value by {
        if rest.Some? {
          var j :| 0 <= j < |s[1..]| && OnRoute(s[1..][j], startArticle, endArticle) && Duration(s[1..][j]) == rest.value;
          assert s[j + 1] == s[1..][j];
        }
      }
      if !OnRoute(s[0], startArticle, endArticle) then rest
      else if rest.None? || Duration(s[0]) <= rest.value then Some(Duration(s[0]))
      else rest
  }

  /** `getBestTime(start, end)`: none without an entry on that route, else the fastest such duration. */
  function GetBestTime(b: Board, startArticle: string, endArticle: string): (r: Option<int>)
    ensures r.None? <==> forall e :: e in b.entries ==> !OnRoute(e, startArticle, endArticle)
    ensures r.Some? ==> exists e :: e in b.entries && OnRoute(e, startArticle, endArticle) && Duration(e) == r.value
    ensures r.Some? ==> forall e :: e in b.entries && OnRoute(e, startArticle, endArticle) ==> r.value <= Duration(e)
  {
    MinRouteDuration(b.entries, startArticle, endArticle)
  }

  /** On a sorted board the top entries are the fastest: none of them is slower than an entry left out. */
  lemma TopEntriesAreFastest(b: Board, limit: int)
    requires SortedByDuration(b.entries)
    ensures var top := GetTopEntries(b, limit);
      forall i, j :: 0 <= i < |top| <= j < |b.entries| ==> Duration(top[i]) <= Duration(b.entries[j])
  {
    var top := GetTopEntries(b, limit);
    forall i, j | 0 <= i < |top| <= j < |b.entries| ensures Duration(top[i]) <= Duration(b.entries[j]) {
      assert top[i] == b.entries[i];
    }
  }

  /**
   A result that stays on the board is reflected in the route's best time:
   the best time afterwards is at most the new duration.
   */
  lemma BestTimeAfterAdd(b: Board, startArticle: string, endArticle: string, stats: GameStats, id: string, now: int)
    requires SortedByDuration(b.entries) && |b.entries| <= MaxEntries
    requires AddEntry(b, startArticle, endArticle, stats, id, now).entries != b.entries
    ensures var r := GetBestTime(AddEntry(b, startArticle, endArticle, stats, id, now), startArticle, endArticle);
      r.Some? && r.value <= stats.duration
  {
    var e := NewEntry(startArticle, endArticle, stats, id, now);
    AddEntryDropped(b, startArticle, endArticle, stats, id, now);
    assert e in AddEntry(b, startArticle, endArticle, stats, id, now).entries && OnRoute(e, startArticle, endArticle);
  }
}
