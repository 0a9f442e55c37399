/**
 * The two read-only report queries: `_daily_stats_between_sync` over the
 * `generations` table and `_get_top_users_sync` over `users`.
 */
module Stats {
  import opened Tables
  import opened Ranking

  /** `created_at >= start AND created_at < end`. */
  predicate InWindow(g: Generation, start: int, end: int) {
    start <= g.createdAt < end
  }

  /** The rows of `gs` inside the half-open window, in table order. */
  function Window(gs: seq<Generation>, start: int, end: int): (w: seq<Generation>)
    ensures |w| <= |gs|
  {
    if gs == [] then []
    else
      var last := gs[|gs| - 1];
      Window(gs[..|gs| - 1], start, end) + (if InWindow(last, start, end) then [last] else [])
  }

  /** The window holds exactly the rows of the table whose time lies in it. */
  lemma {:induction false} WindowRows(gs: seq<Generation>, start: int, end: int)
    ensures forall g :: g in Window(gs, start, end) <==> g in gs && InWindow(g, start, end)
  {
    if gs != [] {
      var init := gs[..|gs| - 1];
      WindowRows(init, start, end);
      assert gs == init + [gs[|gs| - 1]];
    }
  }

  /** Appending a row extends the window by that row when its time lies in
      the window, and leaves the window as it was otherwise. */
  lemma WindowAppend(gs: seq<Generation>, g: Generation, start: int, end: int)
    ensures Window(gs + [g], start, end) == Window(gs, start, end) + (if InWindow(g, start, end) then [g] else [])
  {
    assert (gs + [g])[..|gs|] == gs;
  }

  /** The users that own rows of `ws` (`DISTINCT user_id`). */
  function UsersIn(ws: seq<Generation>): set<int> {
    set g | g in ws :: g.userId
  }

  lemma UsersInAppend(ws: seq<Generation>, g: Generation)
    ensures UsersIn(ws + [g]) == UsersIn(ws) + {g.userId}
  {
    assert forall x :: x in ws + [g] <==> x in ws || x == g;
  }

  /** There are never more distinct users than rows. */
  lemma {:induction false} UsersAtMostRows(ws: seq<Generation>)
    ensures |UsersIn(ws)| <= |ws|
  {
    if ws != [] {
      var init := ws[..|ws| - 1];
      UsersAtMostRows(init);
      assert ws == init + [ws[|ws| - 1]];
      UsersInAppend(init, ws[|ws| - 1]);
    }
  }

  /** A user owning a row of `ws` has at least one row. */
  lemma {:induction false} RowsOfOwner(ws: seq<Generation>, userId: int)
    requires userId in UsersIn(ws)
    ensures RowsOf(ws, userId) >= 1
  {
    var init := ws[..|ws| - 1];
    var last := ws[|ws| - 1];
    if last.userId != userId {
      var g :| g in ws && g.userId == userId;
      assert ws == init + [last];
      assert g in init;
      RowsOfOwner(init, userId);
    }
  }

  /** The report of `daily_report_job`: `COUNT(*)`, `COUNT(DISTINCT user_id)`
      and the five heaviest users with their row counts. */
  datatype DailyReport = DailyReport(total: nat, unique: nat, top: seq<Entry>)

  const DailyTopLimit := 5

  /** `_daily_stats_between_sync(start, end)`: never more rows than the
      table has, never more users than rows, at most five leaders. */
  function DailyStats(gs: seq<Generation>, start: int, end: int): (r: DailyReport)
    ensures r.unique <= r.total <= |gs|
    ensures |r.top| <= DailyTopLimit
  {
    var ws := Window(gs, start, end);
    UsersAtMostRows(ws);
    Summarize(ws)
  }

  /** The three aggregates over the rows of one window. */
  function Summarize(ws: seq<Generation>): DailyReport {
    DailyReport(|ws|, |UsersIn(ws)|, Top(EntriesFor(SortedIds(UsersIn(ws)), u => RowsOf(ws, u)), DailyTopLimit))
  }

  /** `total` counts the window's rows and `unique` its distinct users, so
      `unique <= total`; both are zero exactly when the window is empty. */
  lemma DailyCounts(gs: seq<Generation>, start: int, end: int)
    ensures var r := DailyStats(gs, start, end);
      && r.total == |Window(gs, start, end)|
      && r.unique == |UsersIn(Window(gs, start, end))|
      && r.unique <= r.total
      && (r.unique == 0 <==> r.total == 0)
  {
    var ws := Window(gs, start, end);
    UsersAtMostRows(ws);
    if ws != [] {
      assert ws[0].userId in UsersIn(ws);
    }
  }

  /** The top list: at most five rows, non-increasing counts, each row a
      distinct user of the window with that user's number of rows in the
      window (at least one), and no user left out with more rows than a
      user listed. */
  lemma DailyTopRanked(gs: seq<Generation>, start: int, end: int)
    ensures var ws := Window(gs, start, end);
      var r := DailyStats(gs, start, end);
      && RankedBy(r.top, UsersIn(ws), u => RowsOf(ws, u), DailyTopLimit)
      && |r.top| <= DailyTopLimit
      && forall y :: y in r.top ==> y.count >= 1
  {
    var ws := Window(gs, start, end);
    var r := DailyStats(gs, start, end);
    TopRanked(UsersIn(ws), u => RowsOf(ws, u), DailyTopLimit);
    forall y | y in r.top ensures y.count >= 1 {
      RowsOfOwner(ws, y.userId);
    }
  }

  /** Logging a generation is seen by the report of every window that holds
      its time: one more row, and one more distinct user if it is that
      user's first row in the window. Other windows are unaffected. */
  lemma DailyStatsAppend(gs: seq<Generation>, g: Generation, start: int, end: int)
    ensures var before := DailyStats(gs, start, end);
      var after := DailyStats(gs + [g], start, end);
      if InWindow(g, start, end) then
        && after.total == before.total + 1
        && after.unique == before.unique + (if g.userId in UsersIn(Window(gs, start, end)) then 0 else 1)
      else after == before
  {
    WindowAppend(gs, g, start, end);
    var ws := Window(gs, start, end);
    if InWindow(g, start, end) {
      UsersInAppend(ws, g);
    } else {
      assert Window(gs + [g], start, end) == ws;
    }
  }

  /** The sum of the counts of a list of rows. */
  function SumCounts(s: seq<Entry>): int {
    if s == [] then 0 else s[0].count + SumCounts(s[1..])
  }

  /** The number of times `u` appears among the users of `s`. */
  function Occurrences(s: seq<Entry>, u: int): nat {
    if s == [] then 0 else (if s[0].userId == u then 1 else 0) + Occurrences(s[1..], u)
  }

  /** The summed row counts of the users of `s`, counted in `ws`. */
  function SumRows(s: seq<Entry>, ws: seq<Generation>): int {
    if s == [] then 0 else RowsOf(ws, s[0].userId) + SumRows(s[1..], ws)
  }

  lemma {:induction false} OccurrencesDistinct(s: seq<Entry>, u: int)
    requires DistinctUsers(s)
    ensures Occurrences(s, u) <= 1
  {
    if s != [] {
      OccurrencesDistinct(s[1..], u);
      if s[0].userId == u && Occurrences(s[1..], u) > 0 {
        OccurrencesMember(s[1..], u);
      }
    }
  }

  lemma {:induction false} OccurrencesMember(s: seq<Entry>, u: int)
    requires Occurrences(s, u) > 0
    ensures exists k :: 0 <= k < |s| && s[k].userId == u
  {
    if s[0].userId != u {
      OccurrencesMember(s[1..], u);
      var k :| 0 <= k < |s| - 1 && s[1..][k].userId == u;
      assert s[k + 1].userId == u;
    } else {
      assert s[0].userId == u;
    }
  }

  lemma {:induction false} SumRowsAppend(s: seq<Entry>, ws: seq<Generation>, g: Generation)
    ensures SumRows(s, ws + [g]) == SumRows(s, ws) + Occurrences(s, g.userId)
  {
    if s != [] {
      RowsOfAppend(ws, g, s[0].userId);
      SumRowsAppend(s[1..], ws, g);
    }
  }

  /** Rows of distinct users cannot count more rows than there are. */
  lemma {:induction false} SumRowsBound(s: seq<Entry>, ws: seq<Generation>)
    requires DistinctUsers(s)
    ensures SumRows(s, ws) <= |ws|
  {
    if ws == [] {
      SumRowsEmpty(s);
    } else {
      var init := ws[..|ws| - 1];
      var last := ws[|ws| - 1];
      assert ws == init + [last];
      SumRowsBound(s, init);
      SumRowsAppend(s, init, last);
      OccurrencesDistinct(s, last.userId);
    }
  }

  lemma {:induction false} SumRowsEmpty(s: seq<Entry>)
    ensures SumRows(s, []) == 0
  {
    if s != [] {
      SumRowsEmpty(s[1..]);
    }
  }

  lemma {:induction false} SumCountsIsSumRows(s: seq<Entry>, ws: seq<Generation>)
    requires forall y :: y in s ==> y.count == RowsOf(ws, y.userId)
    ensures SumCounts(s) == SumRows(s, ws)
  {
    if s != [] {
      assert s[0] in s;
      assert forall y :: y in s[1..] ==> y in s;
      SumCountsIsSumRows(s[1..], ws);
    }
  }

  /** The counts of the top list add up to at most the total. */
  lemma DailyTopSumAtMostTotal(gs: seq<Generation>, start: int, end: int)
    ensures var r := DailyStats(gs, start, end); SumCounts(r.top) <= r.total
  {
    var ws := Window(gs, start, end);
    var r := DailyStats(gs, start, end);
    TopRanked(UsersIn(ws), u => RowsOf(ws, u), DailyTopLimit);
    SumCountsIsSumRows(r.top, ws);
    SumRowsBound(r.top, ws);
  }

  /** `_get_top_users_sync(limit)`: users by `total_generations`, highest
      first, at most `limit` of them (all of them for a negative limit). */
  function TopUsers(users: map<int, UserRow>, limit: int): (r: seq<Entry>)
    ensures |r| == if 0 <= limit < |users.Keys| then limit else |users.Keys|
    ensures SortedDesc(r)
  {
    Top(EntriesFor(SortedIds(users.Keys), u => if u in users then users[u].totalGenerations else 0), limit)
  }

  /** The top-users answer is ranked by each user's `total_generations`. */
  lemma TopUsersRanked(users: map<int, UserRow>, limit: int)
    ensures var r := TopUsers(users, limit);
      && RankedBy(r, users.Keys, u => if u in users then users[u].totalGenerations else 0, limit)
      && (0 <= limit ==> |r| <= limit)
      && forall y :: y in r ==> y.userId in users && y.count == users[y.userId].totalGenerations
  {
    TopRanked(users.Keys, u => if u in users then users[u].totalGenerations else 0, limit);
  }
}
