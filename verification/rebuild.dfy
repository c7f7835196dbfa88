/** The rebuild script: for each league with a season, recompute the week rows
    from the season dates, update or insert them by week number, delete the
    week numbers the plan no longer has, reset every week to unscored, and
    rescore the ended weeks in order until the first failure. */
module Rebuild {
  import opened Wrappers
  import opened Calendar
  import opened Weeks
  import opened Sorting
  import opened Cron

  /** `_compute_week_boundaries` as intended: week 0 (no start), the regular
      weeks from 1, the playoff weeks after them; `None` where the script skips
      the league for want of a season row. */
  function Boundaries(season: Option<SeasonDates>): (r: Option<seq<WeekRow>>)
    ensures r.Some? <==> season.Some?
    ensures r.Some? ==> |r.value| >= 1 && r.value[0].number == 0 && r.value[0].start.None?
    ensures r.Some? ==> forall i :: 0 <= i < |r.value| ==> r.value[i].number == i
  {
    if season.None? then None
    else Some(WeekPlan(season.value.regStart, season.value.regEnd, season.value.playoffs))
  }

  /** Why `_compute_week_boundaries` as written yields no plan. */
  datatype BoundaryFailure =
    | NoSportSeason     // the `ValueError` the script's `except` turns into a skip
    | NoTimezoneLookup  // the `AttributeError` of the league-timezone lookup

  /** `_compute_week_boundaries` as written: after the season row is found it
      asks `ScheduleModel` for the league's time zone, a method that class does
      not define, so it fails for every league. */
  function BoundariesAsWritten(season: Option<SeasonDates>): (r: Result<seq<WeekRow>, BoundaryFailure>)
    ensures r.Err?
    ensures r.error == NoSportSeason <==> season.None?
  {
    if season.None? then Err(NoSportSeason) else Err(NoTimezoneLookup)
  }

  /** The week numbers of a plan. */
  function PlanNumbers(rows: seq<WeekRow>): set<int> {
    set k | 0 <= k < |rows| :: rows[k].number
  }

  predicate DistinctNumbers(rows: seq<WeekRow>) {
    forall i, j :: 0 <= i < j < |rows| ==> rows[i].number != rows[j].number
  }

  /** Row `x` is week `n` of `league`. */
  predicate IsWeek(x: LeagueWeek, league: int, n: int) {
    x.league == league && x.week.number == n
  }

  /** A row updated to a plan row's dates. */
  function Redated(x: LeagueWeek, row: WeekRow): LeagueWeek {
    x.(week := x.week.(start := row.start, end := Some(row.end)))
  }

  /** `UPDATE_WEEK` for one plan row, and `INSERT_WEEK` (unlocked, unscored,
      with id `id`) when the update touched no row. */
  function Upsert(table: seq<LeagueWeek>, league: int, row: WeekRow, id: int): (r: seq<LeagueWeek>)
    ensures forall x :: x in r && !IsWeek(x, league, row.number) ==> x in table
    ensures forall x :: x in table && !IsWeek(x, league, row.number) ==> x in r
    ensures forall x :: x in r && IsWeek(x, league, row.number) ==>
      x.week.start == row.start && x.week.end == Some(row.end)
    ensures exists x :: x in r && IsWeek(x, league, row.number)
  {
    if exists i :: 0 <= i < |table| && IsWeek(table[i], league, row.number) then
      var r := seq(|table|, i requires 0 <= i < |table| =>
        if IsWeek(table[i], league, row.number) then Redated(table[i], row) else table[i]);
      assert forall x :: x in r ==> if IsWeek(x, league, row.number) then x.week.start == row.start && x.week.end == Some(row.end)
                                    else x in table by {
        forall x | x in r
          ensures if IsWeek(x, league, row.number) then x.week.start == row.start && x.week.end == Some(row.end)
                  else x in table
        {
          var i :| 0 <= i < |r| && r[i] == x;
        }
      }
      assert forall x :: x in table && !IsWeek(x, league, row.number) ==> x in r by {
        forall x | x in table && !IsWeek(x, league, row.number) ensures x in r {
          var i :| 0 <= i < |table| && table[i] == x;
          assert r[i] == x;
        }
      }
      var i :| 0 <= i < |table| && IsWeek(table[i], league, row.number);
      assert r[i] in r;
      r
    else
      var added := LeagueWeek(league, Week(id, row.number, row.start, Some(row.end), false, false));
      var r := table + [added];
      assert forall x :: x in r && x != added ==> x in table && !IsWeek(x, league, row.number) by {
        forall x | x in r && x != added ensures x in table && !IsWeek(x, league, row.number) {
          assert x in table;
          var i :| 0 <= i < |table| && table[i] == x;
        }
      }
      assert r[|table|] == added && IsWeek(added, league, row.number);
      r
  }

  /** `r` is `table` after upserting the plan rows `rows` for `league`: the
      rows of other leagues and other numbers stay, and each plan number has
      a row of the league, every one with the plan's dates. */
  predicate UpsertsTo(table: seq<LeagueWeek>, r: seq<LeagueWeek>, league: int, rows: seq<WeekRow>) {
    KeepsOthers(table, r, league, PlanNumbers(rows)) && Dated(r, league, rows)
  }

  /** The rows of other leagues, and of `league` outside `nums`, are the same
      in `table` and `r`. */
  predicate KeepsOthers(table: seq<LeagueWeek>, r: seq<LeagueWeek>, league: int, nums: set<int>) {
    (forall x :: x in r && (x.league != league || x.week.number !in nums) ==> x in table) &&
    (forall x :: x in table && (x.league != league || x.week.number !in nums) ==> x in r)
  }

  /** Each plan number has a row of `league` in `r`, every one with the
      plan's dates. */
  predicate Dated(r: seq<LeagueWeek>, league: int, rows: seq<WeekRow>) {
    (forall k :: 0 <= k < |rows| ==> exists x :: x in r && IsWeek(x, league, rows[k].number)) &&
    (forall x, k :: x in r && 0 <= k < |rows| && IsWeek(x, league, rows[k].number) ==>
      x.week.start == rows[k].start && x.week.end == Some(rows[k].end))
  }

  /** The upsert loop over the plan; the `k`-th inserted row gets id `firstId + k`. */
  function UpsertAll(table: seq<LeagueWeek>, league: int, rows: seq<WeekRow>, firstId: int): (r: seq<LeagueWeek>)
    requires DistinctNumbers(rows)
    ensures UpsertsTo(table, r, league, rows)
    decreases |rows|
  {
    if |rows| == 0 then table
    else
      var first := Upsert(table, league, rows[0], firstId);
      DistinctTail(rows);
      var r := UpsertAll(first, league, rows[1..], firstId + 1);
      UpsertStep(table, first, r, league, rows, firstId);
      r
  }

  lemma DistinctTail(rows: seq<WeekRow>)
    requires DistinctNumbers(rows) && |rows| > 0
    ensures DistinctNumbers(rows[1..]) && rows[0].number !in PlanNumbers(rows[1..])
  {
    var tail := rows[1..];
    forall i, j | 0 <= i < j < |tail| ensures tail[i].number != tail[j].number {
      assert tail[i] == rows[i + 1] && tail[j] == rows[j + 1];
    }
    forall k | 0 <= k < |tail| ensures tail[k].number != rows[0].number {
      assert tail[k] == rows[k + 1];
    }
  }

  lemma PlanNumbersCons(rows: seq<WeekRow>)
    requires |rows| > 0
    ensures PlanNumbers(rows) == {rows[0].number} + PlanNumbers(rows[1..])
  {
    var tail := rows[1..];
    forall n | n in PlanNumbers(rows) ensures n in {rows[0].number} + PlanNumbers(tail) {
      var k :| 0 <= k < |rows| && rows[k].number == n;
      if k > 0 {
        assert tail[k - 1].number == n;
      }
    }
    forall n | n in PlanNumbers(tail) ensures n in PlanNumbers(rows) {
      var k :| 0 <= k < |tail| && tail[k].number == n;
      assert rows[k + 1].number == n;
    }
  }

  /** Upserting the first plan row and then the rest upserts the whole plan. */
  lemma UpsertStep(table: seq<LeagueWeek>, first: seq<LeagueWeek>, r: seq<LeagueWeek>, league: int,
                   rows: seq<WeekRow>, id: int)
    requires |rows| > 0 && first == Upsert(table, league, rows[0], id)
    requires rows[0].number !in PlanNumbers(rows[1..])
    requires UpsertsTo(first, r, league, rows[1..])
    ensures UpsertsTo(table, r, league, rows)
  {
    PlanNumbersCons(rows);
    UpsertStepKeeps(table, first, r, league, rows, id);
    UpsertStepDated(table, first, r, league, rows, id);
  }

  lemma UpsertStepKeeps(table: seq<LeagueWeek>, first: seq<LeagueWeek>, r: seq<LeagueWeek>, league: int,
                        rows: seq<WeekRow>, id: int)
    requires |rows| > 0 && first == Upsert(table, league, rows[0], id)
    requires PlanNumbers(rows) == {rows[0].number} + PlanNumbers(rows[1..])
    requires KeepsOthers(first, r, league, PlanNumbers(rows[1..]))
    ensures KeepsOthers(table, r, league, PlanNumbers(rows))
  {
  }

  lemma UpsertStepDated(table: seq<LeagueWeek>, first: seq<LeagueWeek>, r: seq<LeagueWeek>, league: int,
                        rows: seq<WeekRow>, id: int)
    requires |rows| > 0 && first == Upsert(table, league, rows[0], id)
    requires rows[0].number !in PlanNumbers(rows[1..])
    requires KeepsOthers(first, r, league, PlanNumbers(rows[1..])) && Dated(r, league, rows[1..])
    ensures Dated(r, league, rows)
  {
    var tail := rows[1..];
    assert forall k :: 1 <= k < |rows| ==> rows[k] == tail[k - 1];
    assert exists x :: x in r && IsWeek(x, league, rows[0].number) by {
      var x :| x in first && IsWeek(x, league, rows[0].number);
      assert x in r;
    }
  }

  /** The week numbers a league has. */
  function NumbersOf(table: seq<LeagueWeek>, league: int): set<int> {
    set i | 0 <= i < |table| && table[i].league == league :: table[i].week.number
  }

  /** `DELETE_EXTRA_WEEKS`: the rows of `league` whose number is in `extra`. */
  function DropNumbers(table: seq<LeagueWeek>, league: int, extra: set<int>): (r: seq<LeagueWeek>)
    ensures forall x :: x in r <==> x in table && !(x.league == league && x.week.number in extra)
  {
    if |table| == 0 then []
    else
      var rest := DropNumbers(table[1..], league, extra);
      assert forall x :: x in table <==> x == table[0] || x in table[1..];
      if table[0].league == league && table[0].week.number in extra then rest else [table[0]] + rest
  }

  /** One row after `RESET_SCORING_COMPLETE` for `league`. */
  function Reset(y: LeagueWeek, league: int): LeagueWeek {
    if y.league == league then y.(week := y.week.(scoringComplete := false)) else y
  }

  /** `RESET_SCORING_COMPLETE` for one league. */
  function ResetScoring(table: seq<LeagueWeek>, league: int): (r: seq<LeagueWeek>)
    ensures |r| == |table|
    ensures forall i :: 0 <= i < |r| ==>
      r[i].league == table[i].league && r[i].week.id == table[i].week.id &&
      r[i].week.number == table[i].week.number && r[i].week.start == table[i].week.start &&
      r[i].week.end == table[i].week.end &&
      (r[i].league == league ==> !r[i].week.scoringComplete) &&
      (r[i].league != league ==> r[i] == table[i])
  {
    seq(|table|, i requires 0 <= i < |table| => Reset(table[i], league))
  }

  /** The week table after the upsert loop, the deletion of the extra numbers
      (existing minus computed) and the scoring reset. */
  function RebuildWeeks(table: seq<LeagueWeek>, league: int, plan: seq<WeekRow>, firstId: int): seq<LeagueWeek>
    requires DistinctNumbers(plan)
  {
    var upserted := UpsertAll(table, league, plan, firstId);
    var extra := NumbersOf(table, league) - PlanNumbers(plan);
    ResetScoring(DropNumbers(upserted, league, extra), league)
  }

  /** Every row after the reset comes from the row at the same place before
      it, with the league's rows unscored. */
  lemma ResetRow(table: seq<LeagueWeek>, league: int, x: LeagueWeek)
    requires x in ResetScoring(table, league)
    ensures exists i :: 0 <= i < |table| && x == Reset(table[i], league)
  {
    var r := ResetScoring(table, league);
    var i :| 0 <= i < |r| && r[i] == x;
    assert x == Reset(table[i], league);
  }

  /** After the rebuild a league has exactly the plan's week numbers. */
  lemma RebuildNumbers(table: seq<LeagueWeek>, league: int, plan: seq<WeekRow>, firstId: int, n: int)
    requires DistinctNumbers(plan)
    ensures (exists x :: x in RebuildWeeks(table, league, plan, firstId) && IsWeek(x, league, n)) <==> n in PlanNumbers(plan)
  {
    if n in PlanNumbers(plan) {
      RebuildKeepsPlanned(table, league, plan, firstId, n);
    }
    if x :| x in RebuildWeeks(table, league, plan, firstId) && IsWeek(x, league, n) {
      RebuildOnlyPlanned(table, league, plan, firstId, x);
    }
  }

  lemma RebuildKeepsPlanned(table: seq<LeagueWeek>, league: int, plan: seq<WeekRow>, firstId: int, n: int)
    requires DistinctNumbers(plan) && n in PlanNumbers(plan)
    ensures exists x :: x in RebuildWeeks(table, league, plan, firstId) && IsWeek(x, league, n)
  {
    var upserted := UpsertAll(table, league, plan, firstId);
    var extra := NumbersOf(table, league) - PlanNumbers(plan);
    var dropped := DropNumbers(upserted, league, extra);
    var r := ResetScoring(dropped, league);
    var k :| 0 <= k < |plan| && plan[k].number == n;
    var y :| y in upserted && IsWeek(y, league, n);
    assert y in dropped;
    ResetKeepsRow(dropped, league, y);
    assert IsWeek(Reset(y, league), league, n);
  }

  /** A row of the league survives the reset, unscored. */
  lemma ResetKeepsRow(table: seq<LeagueWeek>, league: int, y: LeagueWeek)
    requires y in table && y.league == league
    ensures Reset(y, league) in ResetScoring(table, league)
  {
    var r := ResetScoring(table, league);
    var i :| 0 <= i < |table| && table[i] == y;
    assert r[i] == Reset(y, league);
  }

  lemma RebuildOnlyPlanned(table: seq<LeagueWeek>, league: int, plan: seq<WeekRow>, firstId: int, x: LeagueWeek)
    requires DistinctNumbers(plan)
    ensures x in RebuildWeeks(table, league, plan, firstId) && x.league == league ==> x.week.number in PlanNumbers(plan)
  {
    if x in RebuildWeeks(table, league, plan, firstId) && x.league == league {
      var n := x.week.number;
      var upserted := UpsertAll(table, league, plan, firstId);
      var extra := NumbersOf(table, league) - PlanNumbers(plan);
      var dropped := DropNumbers(upserted, league, extra);
      ResetRow(dropped, league, x);
      var i :| 0 <= i < |dropped| && x == Reset(dropped[i], league);
      var y := dropped[i];
      assert y in dropped && y in upserted && IsWeek(y, league, n);
      assert n !in extra;
      assert y in table ==> n in NumbersOf(table, league) by {
        if y in table {
          var j :| 0 <= j < |table| && table[j] == y;
        }
      }
    }
  }

  /** Each of the league's rows carries the plan's dates for its number and is
      unscored. */
  lemma RebuildDates(table: seq<LeagueWeek>, league: int, plan: seq<WeekRow>, firstId: int, x: LeagueWeek, k: int)
    requires DistinctNumbers(plan) && 0 <= k < |plan|
    ensures x in RebuildWeeks(table, league, plan, firstId) && IsWeek(x, league, plan[k].number) ==>
      x.week.start == plan[k].start && x.week.end == Some(plan[k].end) && !x.week.scoringComplete
  {
    if x in RebuildWeeks(table, league, plan, firstId) && IsWeek(x, league, plan[k].number) {
      var upserted := UpsertAll(table, league, plan, firstId);
      var extra := NumbersOf(table, league) - PlanNumbers(plan);
      var dropped := DropNumbers(upserted, league, extra);
      ResetRow(dropped, league, x);
      var i :| 0 <= i < |dropped| && x == Reset(dropped[i], league);
      DatedAt(upserted, league, plan, dropped[i], k);
    }
  }

  /** The dates `Dated` promises, for one row and one plan row. */
  lemma DatedAt(r: seq<LeagueWeek>, league: int, rows: seq<WeekRow>, y: LeagueWeek, k: int)
    requires Dated(r, league, rows) && y in r && 0 <= k < |rows| && IsWeek(y, league, rows[k].number)
    ensures y.week.start == rows[k].start && y.week.end == Some(rows[k].end)
  {
  }

  /** No other league's rows change. */
  lemma RebuildOthers(table: seq<LeagueWeek>, league: int, plan: seq<WeekRow>, firstId: int, x: LeagueWeek)
    requires DistinctNumbers(plan) && x.league != league
    ensures x in RebuildWeeks(table, league, plan, firstId) <==> x in table
  {
    var upserted := UpsertAll(table, league, plan, firstId);
    var extra := NumbersOf(table, league) - PlanNumbers(plan);
    var dropped := DropNumbers(upserted, league, extra);
    var r := ResetScoring(dropped, league);
    if x in r {
      ResetRow(dropped, league, x);
    }
    if x in table {
      assert x in dropped;
      var i :| 0 <= i < |dropped| && dropped[i] == x;
      assert r[i] == x;
    }
  }

  /** `GET_ENDED_WEEKS`'s filter for one league: a numbered week after week 0
      with an end date before `today`. */
  predicate Ended(x: LeagueWeek, league: int, today: Day) {
    x.league == league && x.week.number > 0 && x.week.end.Some? && x.week.end.value < today
  }

  function EndedRows(table: seq<LeagueWeek>, league: int, today: Day): (r: seq<LeagueWeek>)
    ensures forall x :: x in r <==> x in table && Ended(x, league, today)
  {
    if |table| == 0 then []
    else
      var rest := EndedRows(table[1..], league, today);
      assert forall x :: x in table <==> x == table[0] || x in table[1..];
      if Ended(table[0], league, today) then [table[0]] + rest else rest
  }

  /** The ended weeks of a league, by week number (equal numbers by id). */
  function EndedWeeks(table: seq<LeagueWeek>, league: int, today: Day): (r: seq<LeagueWeek>)
    ensures SortedBy(r, ByLeagueThenWeek())
    ensures forall x :: x in r <==> x in table && Ended(x, league, today)
  {
    var ended := EndedRows(table, league, today);
    var r := SortBy(ended, ByLeagueThenWeek());
    assert forall x :: x in r <==> x in multiset(ended);
    r
  }

  /** Within one league the job's skip-after-failure rule is the script's
      `break`: a week succeeds exactly when it and every week before it score. */
  lemma OneLeagueStopsAtFailure(todo: seq<LeagueWeek>, league: int, scored: (int, int) -> bool, k: int)
    requires forall j :: 0 <= j < |todo| ==> todo[j].league == league
    requires 0 <= k < |todo|
    ensures Succeeds(todo, scored, {}, k) <==> forall j :: 0 <= j <= k ==> scored(league, todo[j].week.number)
  {
  }

  /** One league's turn: skipped without a season row; otherwise rebuilt and
      rescored. `scored(league, n)` says whether scoring week `n` succeeds. */
  function RebuildLeague(table: seq<LeagueWeek>, league: int, season: Option<SeasonDates>, today: Day,
                         scored: (int, int) -> bool, firstId: int): (r: seq<LeagueWeek>)
    ensures season.None? ==> r == table
  {
    match Boundaries(season)
    case None => table
    case Some(plan) =>
      assert DistinctNumbers(plan);
      var rebuilt := RebuildWeeks(table, league, plan, firstId);
      ScoreLoop(rebuilt, EndedWeeks(rebuilt, league, today), scored, {})
  }

  /** A league's turn changes the week numbers of that league alone, and only
      when it has a season row: they become exactly the plan's. */
  lemma RebuildLeagueNumbers(table: seq<LeagueWeek>, league: int, season: Option<SeasonDates>, today: Day,
                             scored: (int, int) -> bool, firstId: int, l: int)
    ensures NumbersOf(RebuildLeague(table, league, season, today, scored, firstId), l) ==
      if l == league && season.Some? then PlanNumbers(Boundaries(season).value) else NumbersOf(table, l)
  {
    if season.Some? {
      var plan := Boundaries(season).value;
      var rebuilt := RebuildWeeks(table, league, plan, firstId);
      ScoreLoopKeepsNumbers(rebuilt, EndedWeeks(rebuilt, league, today), scored, {}, l);
      RebuildWeeksNumbers(table, league, plan, firstId, l);
    }
  }

  /** The rebuild of one league's rows gives that league exactly the plan's
      numbers and keeps every other league's. */
  lemma RebuildWeeksNumbers(table: seq<LeagueWeek>, league: int, plan: seq<WeekRow>, firstId: int, l: int)
    requires DistinctNumbers(plan)
    ensures NumbersOf(RebuildWeeks(table, league, plan, firstId), l) ==
      if l == league then PlanNumbers(plan) else NumbersOf(table, l)
  {
    forall n ensures n in NumbersOf(RebuildWeeks(table, league, plan, firstId), l) <==>
      if l == league then n in PlanNumbers(plan) else n in NumbersOf(table, l)
    {
      RebuildWeeksNumber(table, league, plan, firstId, l, n);
    }
  }

  /** One number of one league, for RebuildWeeksNumbers. */
  lemma RebuildWeeksNumber(table: seq<LeagueWeek>, league: int, plan: seq<WeekRow>, firstId: int, l: int, n: int)
    requires DistinctNumbers(plan)
    ensures n in NumbersOf(RebuildWeeks(table, league, plan, firstId), l) <==>
      if l == league then n in PlanNumbers(plan) else n in NumbersOf(table, l)
  {
    var rebuilt := RebuildWeeks(table, league, plan, firstId);
    NumbersOfRows(rebuilt, l, n);
    NumbersOfRows(table, l, n);
    if l == league {
      RebuildNumbers(table, league, plan, firstId, n);
    } else {
      forall x | IsWeek(x, l, n) ensures x in rebuilt <==> x in table {
        RebuildOthers(table, league, plan, firstId, x);
      }
    }
  }

  /** A week number of a league is the number of one of its rows. */
  lemma NumbersOfRows(table: seq<LeagueWeek>, l: int, n: int)
    ensures n in NumbersOf(table, l) <==> exists x :: x in table && IsWeek(x, l, n)
  {
    if x :| x in table && IsWeek(x, l, n) {
      var i :| 0 <= i < |table| && table[i] == x;
    }
    if n in NumbersOf(table, l) {
      var i :| 0 <= i < |table| && table[i].league == l && table[i].week.number == n;
      assert table[i] in table;
    }
  }

  /** Scoring sets flags only: every league keeps its week numbers. */
  lemma ScoreLoopKeepsNumbers(table: seq<LeagueWeek>, todo: seq<LeagueWeek>, scored: (int, int) -> bool, failed: set<int>, l: int)
    ensures NumbersOf(ScoreLoop(table, todo, scored, failed), l) == NumbersOf(table, l)
  {
    var r := ScoreLoop(table, todo, scored, failed);
    forall i | 0 <= i < |table|
      ensures r[i].league == table[i].league && r[i].week.number == table[i].week.number
    {
      ScoreLoopEffect(table, todo, scored, failed, i);
    }
  }

  /** The script: every league, by id, in turn; each league's inserted rows
      take ids after the previous league's. */
  function RebuildAll(table: seq<LeagueWeek>, leagues: seq<int>, seasons: int -> Option<SeasonDates>, today: Day,
                      scored: (int, int) -> bool, firstId: int): (r: seq<LeagueWeek>)
    ensures (forall i :: 0 <= i < |leagues| ==> seasons(leagues[i]).None?) ==> r == table
    decreases |leagues|
  {
    if |leagues| == 0 then table
    else
      var next := RebuildLeague(table, leagues[0], seasons(leagues[0]), today, scored, firstId);
      RebuildAll(next, leagues[1..], seasons, today, scored, firstId + |next|)
  }

  /** After the whole run each league with a season row has exactly its plan's
      week numbers, and every other league keeps the numbers it had; the
      leagues come by increasing id, so each is rebuilt once. */
  lemma {:induction false} RebuildAllNumbers(table: seq<LeagueWeek>, leagues: seq<int>, seasons: int -> Option<SeasonDates>,
                                             today: Day, scored: (int, int) -> bool, firstId: int, l: int)
    requires Increasing(leagues)
    ensures NumbersOf(RebuildAll(table, leagues, seasons, today, scored, firstId), l) ==
      if l in leagues && seasons(l).Some? then PlanNumbers(Boundaries(seasons(l)).value) else NumbersOf(table, l)
    decreases |leagues|
  {
    if |leagues| > 0 {
      var next := RebuildLeague(table, leagues[0], seasons(leagues[0]), today, scored, firstId);
      RebuildAllFirst(table, leagues, seasons, today, scored, firstId);
      IncreasingTail(leagues);
      RebuildAllNumbers(next, leagues[1..], seasons, today, scored, firstId + |next|, l);
      RebuildLeagueNumbers(table, leagues[0], seasons(leagues[0]), today, scored, firstId, l);
    }
  }

  /** The run is the first league's turn followed by the run over the rest. */
  lemma RebuildAllFirst(table: seq<LeagueWeek>, leagues: seq<int>, seasons: int -> Option<SeasonDates>,
                        today: Day, scored: (int, int) -> bool, firstId: int)
    requires |leagues| > 0
    ensures var next := RebuildLeague(table, leagues[0], seasons(leagues[0]), today, scored, firstId);
      RebuildAll(table, leagues, seasons, today, scored, firstId)
        == RebuildAll(next, leagues[1..], seasons, today, scored, firstId + |next|)
  {
  }

  /** Ids listed in increasing order, as `ORDER BY id` lists them. */
  predicate Increasing(ids: seq<int>) {
    forall i, j :: 0 <= i < j < |ids| ==> ids[i] < ids[j]
  }

  /** The rest of an increasing list of ids is increasing and does not hold
      its first id. */
  lemma IncreasingTail(leagues: seq<int>)
    requires |leagues| > 0 && Increasing(leagues)
    ensures Increasing(leagues[1..])
    ensures forall l :: l in leagues <==> l == leagues[0] || l in leagues[1..]
    ensures leagues[0] !in leagues[1..]
  {
    assert leagues == [leagues[0]] + leagues[1..];
    assert forall k :: 0 <= k < |leagues[1..]| ==> leagues[1..][k] == leagues[k + 1];
  }

  /** How the script as written ends: the table it leaves, and the league
      whose turn an uncaught error ended, if any. */
  datatype RebuildRun = RebuildRun(table: seq<LeagueWeek>, crashedAt: Option<int>)

  /** The script as written: a league without a season row is skipped by the
      `except ValueError`; the first league with one raises `AttributeError`
      before its first write, which ends the script. */
  function RebuildAllAsWritten(table: seq<LeagueWeek>, leagues: seq<int>, seasons: int -> Option<SeasonDates>): (r: RebuildRun)
    ensures r.table == table
    ensures r.crashedAt.None? <==> forall i :: 0 <= i < |leagues| ==> seasons(leagues[i]).None?
    ensures r.crashedAt.Some? ==>
      exists i :: 0 <= i < |leagues| && leagues[i] == r.crashedAt.value &&
                  seasons(leagues[i]).Some? && forall j :: 0 <= j < i ==> seasons(leagues[j]).None?
    decreases |leagues|
  {
    if |leagues| == 0 then RebuildRun(table, None)
    else
      var plan := BoundariesAsWritten(seasons(leagues[0]));
      if plan.Err? && plan.error == NoSportSeason then
        var r := RebuildAllAsWritten(table, leagues[1..], seasons);
        assert forall i :: 1 <= i < |leagues| ==> leagues[i] == leagues[1..][i - 1];
        r
      else RebuildRun(table, Some(leagues[0]))
  }

  /** One league with a season row and no weeks yet: the script as written
      stops at that league and writes nothing, where the intended run gives the
      league its week 0. */
  lemma RebuildAllAsWrittenRaises(league: int, seasons: int -> Option<SeasonDates>, today: Day,
                                  scored: (int, int) -> bool, firstId: int)
    requires seasons(league).Some?
    ensures RebuildAllAsWritten([], [league], seasons) == RebuildRun([], Some(league))
    ensures 0 in NumbersOf(RebuildAll([], [league], seasons, today, scored, firstId), league)
  {
    var plan := Boundaries(seasons(league)).value;
    assert plan[0].number == 0;
    RebuildAllNumbers([], [league], seasons, today, scored, firstId, league);
  }
}
