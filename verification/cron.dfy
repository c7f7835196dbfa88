/** The weekly job: score every ended, unscored week of every league in
    (league, week number) order, mark each scored week and lock the week after
    it; a league whose scoring fails once is skipped for the rest of the run.
    When any week was due, the pending trades are applied afterwards, even
    if every scoring attempt failed.
    Shared with the rebuild script: the `Week` table of all leagues and the
    mark-and-lock step. */
module Cron {
  import opened Wrappers
  import opened Calendar
  import opened Weeks
  import opened Sorting
  import opened Transactions

  /** A `Week` row together with its `leagueId`. */
  datatype LeagueWeek = LeagueWeek(league: int, week: Week)

  /** One row after `MARK_WEEK_SCORED` for the week with id `id` and
      `LOCK_NEXT_WEEK` for week `number + 1` of `league`. */
  function MarkRow(r: LeagueWeek, league: int, id: int, number: int): LeagueWeek {
    LeagueWeek(r.league, r.week.(scoringComplete := r.week.scoringComplete || r.week.id == id,
                                 isLocked := r.week.isLocked || (r.league == league && r.week.number == number + 1)))
  }

  /** Marking a week scored and locking the week after it touches only those
      two flags, sets each on exactly the rows the two updates select, and
      clears neither anywhere. */
  function MarkAndLock(table: seq<LeagueWeek>, league: int, id: int, number: int): (r: seq<LeagueWeek>)
    ensures |r| == |table|
    ensures forall i :: 0 <= i < |r| ==>
      r[i].league == table[i].league && r[i].week.id == table[i].week.id &&
      r[i].week.number == table[i].week.number &&
      r[i].week.start == table[i].week.start && r[i].week.end == table[i].week.end
    ensures forall i :: 0 <= i < |r| ==>
      (r[i].week.scoringComplete <==> table[i].week.scoringComplete || table[i].week.id == id)
    ensures forall i :: 0 <= i < |r| ==>
      (r[i].week.isLocked <==> table[i].week.isLocked || (table[i].league == league && table[i].week.number == number + 1))
  {
    seq(|table|, i requires 0 <= i < |table| => MarkRow(table[i], league, id, number))
  }

  /** `GET_WEEKS_JUST_ENDED`'s filter: the week has an end date before
      `today` and is not yet scored. */
  predicate Due(r: LeagueWeek, today: Day) {
    r.week.end.Some? && r.week.end.value < today && !r.week.scoringComplete
  }

  /** The due rows, in table order. */
  function DueRows(table: seq<LeagueWeek>, today: Day): (r: seq<LeagueWeek>)
    ensures forall x :: x in r <==> x in table && Due(x, today)
  {
    if |table| == 0 then []
    else
      var rest := DueRows(table[1..], today);
      assert forall x :: x in table <==> x == table[0] || x in table[1..];
      if Due(table[0], today) then [table[0]] + rest else rest
  }

  /** `ORDER BY leagueId, weekNumber`; rows equal on both are taken by id. */
  function ByLeagueThenWeek(): LeagueWeek -> Key {
    (r: LeagueWeek) => Key(r.league as real, r.week.number as real, r.week.id)
  }

  /** The weeks the job scores, in the order it scores them. */
  function WeeksToScore(table: seq<LeagueWeek>, today: Day): (r: seq<LeagueWeek>)
    ensures SortedBy(r, ByLeagueThenWeek())
    ensures forall x :: x in r <==> x in table && Due(x, today)
  {
    var due := DueRows(table, today);
    var r := SortBy(due, ByLeagueThenWeek());
    assert forall x :: x in r <==> x in multiset(due);
    r
  }

  /** Scoring week `k` of `todo` succeeds and is not skipped: its league has
      not failed before the run (`failed`), nor at an earlier week of the run,
      and its own scoring succeeds. `scored(league, n)` says whether
      `compute_weekly_scores` returns normally. */
  predicate Succeeds(todo: seq<LeagueWeek>, scored: (int, int) -> bool, failed: set<int>, k: int)
    requires 0 <= k < |todo|
  {
    todo[k].league !in failed && scored(todo[k].league, todo[k].week.number) &&
    forall j :: 0 <= j < k && todo[j].league == todo[k].league ==> scored(todo[j].league, todo[j].week.number)
  }

  /** Some succeeding week of `todo` has id `id`. */
  predicate MarkedBy(todo: seq<LeagueWeek>, scored: (int, int) -> bool, failed: set<int>, id: int) {
    exists k :: 0 <= k < |todo| && Succeeds(todo, scored, failed, k) && todo[k].week.id == id
  }

  /** Some succeeding week of `todo` is week `n - 1` of `league`. */
  predicate LockedBy(todo: seq<LeagueWeek>, scored: (int, int) -> bool, failed: set<int>, league: int, n: int) {
    exists k :: 0 <= k < |todo| && Succeeds(todo, scored, failed, k) && todo[k].league == league && todo[k].week.number + 1 == n
  }

  /** The loop of the job: a week of a failed league is skipped, a failing
      week fails its league, a succeeding week is marked and locks the next. */
  function ScoreLoop(table: seq<LeagueWeek>, todo: seq<LeagueWeek>, scored: (int, int) -> bool, failed: set<int>): (r: seq<LeagueWeek>)
    ensures |r| == |table|
    decreases |todo|
  {
    if |todo| == 0 then table
    else
      var c := todo[0];
      if c.league in failed then ScoreLoop(table, todo[1..], scored, failed)
      else if !scored(c.league, c.week.number) then ScoreLoop(table, todo[1..], scored, failed + {c.league})
      else ScoreLoop(MarkAndLock(table, c.league, c.week.id, c.week.number), todo[1..], scored, failed)
  }

  /** Success of a later week, seen from the rest of the run after the first
      week was handled. */
  lemma SucceedsTail(todo: seq<LeagueWeek>, scored: (int, int) -> bool, failed: set<int>, k: int)
    requires 0 <= k < |todo| - 1
    ensures var c := todo[0];
      var failed' := if c.league !in failed && !scored(c.league, c.week.number) then failed + {c.league} else failed;
      Succeeds(todo, scored, failed, k + 1) <==> Succeeds(todo[1..], scored, failed', k)
  {
    var c := todo[0];
    var failed' := if c.league !in failed && !scored(c.league, c.week.number) then failed + {c.league} else failed;
    if Succeeds(todo[1..], scored, failed', k) {
      forall j | 0 <= j < k + 1 && todo[j].league == todo[k + 1].league
        ensures scored(todo[j].league, todo[j].week.number)
      {
        if j > 0 {
          assert todo[1..][j - 1] == todo[j];
        }
      }
    }
    if Succeeds(todo, scored, failed, k + 1) {
      forall j | 0 <= j < k && todo[1..][j].league == todo[1..][k].league
        ensures scored(todo[1..][j].league, todo[1..][j].week.number)
      {
        assert todo[1..][j] == todo[j + 1];
      }
    }
  }

  /** What the loop does to the table: each row's flags are those it had,
      plus `scoringComplete` when a succeeding week has its id and `isLocked`
      when a succeeding week of its league is the week before it. A week that
      fails, or belongs to a league that failed earlier in the run, neither
      marks nor locks anything; nothing else changes. */
  lemma {:induction false} ScoreLoopEffect(table: seq<LeagueWeek>, todo: seq<LeagueWeek>, scored: (int, int) -> bool, failed: set<int>, i: int)
    requires 0 <= i < |table|
    ensures var r := ScoreLoop(table, todo, scored, failed);
      r[i].league == table[i].league && r[i].week.id == table[i].week.id &&
      r[i].week.number == table[i].week.number &&
      r[i].week.start == table[i].week.start && r[i].week.end == table[i].week.end &&
      (r[i].week.scoringComplete <==> table[i].week.scoringComplete || MarkedBy(todo, scored, failed, table[i].week.id)) &&
      (r[i].week.isLocked <==> table[i].week.isLocked || LockedBy(todo, scored, failed, table[i].league, table[i].week.number))
    decreases |todo|
  {
    if |todo| > 0 {
      var c := todo[0];
      var rest := todo[1..];
      var failed' := if c.league !in failed && !scored(c.league, c.week.number) then failed + {c.league} else failed;
      var table' := if c.league !in failed && scored(c.league, c.week.number)
                    then MarkAndLock(table, c.league, c.week.id, c.week.number) else table;
      assert ScoreLoop(table, todo, scored, failed) == ScoreLoop(table', rest, scored, failed');
      ScoreLoopEffect(table', rest, scored, failed', i);
      forall k | 0 <= k < |rest|
        ensures Succeeds(todo, scored, failed, k + 1) <==> Succeeds(rest, scored, failed', k)
      {
        SucceedsTail(todo, scored, failed, k);
      }
      var id := table[i].week.id;
      assert MarkedBy(todo, scored, failed, id) <==>
        (Succeeds(todo, scored, failed, 0) && c.week.id == id) || MarkedBy(rest, scored, failed', id)
      by {
        if k :| 0 <= k < |todo| && Succeeds(todo, scored, failed, k) && todo[k].week.id == id {
          if k > 0 {
            assert rest[k - 1] == todo[k];
          }
        }
        if k :| 0 <= k < |rest| && Succeeds(rest, scored, failed', k) && rest[k].week.id == id {
          assert todo[k + 1] == rest[k];
        }
      }
      var lg := table[i].league;
      var n := table[i].week.number;
      assert LockedBy(todo, scored, failed, lg, n) <==>
        (Succeeds(todo, scored, failed, 0) && c.league == lg && c.week.number + 1 == n) || LockedBy(rest, scored, failed', lg, n)
      by {
        if k :| 0 <= k < |todo| && Succeeds(todo, scored, failed, k) && todo[k].league == lg && todo[k].week.number + 1 == n {
          if k > 0 {
            assert rest[k - 1] == todo[k];
          }
        }
        if k :| 0 <= k < |rest| && Succeeds(rest, scored, failed', k) && rest[k].league == lg && rest[k].week.number + 1 == n {
          assert todo[k + 1] == rest[k];
        }
      }
    }
  }

  /** `apply_trade` on every `PENDING_APPLY` row of a league, in table order,
      from a snapshot of their ids; the first refusal stops the job. */
  function ApplyPending(lg: League, now: int, ids: seq<int>): (r: Result<League, TxError>)
    ensures r.Ok? ==> |r.value.txs| == |lg.txs| && r.value.votes == lg.votes
    decreases |ids|
  {
    if |ids| == 0 then Ok(lg)
    else
      var next :- ApplyTransaction(lg, now, ids[0]);
      ApplyPending(next, now, ids[1..])
  }

  /** `GET_PENDING_TRADES`: the ids of the rows waiting in `PENDING_APPLY`. */
  function PendingIds(txs: seq<Transaction>): (r: seq<int>)
    ensures forall id :: id in r <==> exists i :: 0 <= i < |txs| && txs[i].status == PendingApply && txs[i].id == id
  {
    if |txs| == 0 then []
    else
      var rest := PendingIds(txs[1..]);
      assert forall i :: 1 <= i < |txs| ==> txs[i] == txs[1..][i - 1];
      (if txs[0].status == PendingApply then [txs[0].id] else []) + rest
  }

  /** Row ids are unique. */
  predicate UniqueIds(txs: seq<Transaction>) {
    forall i, j :: 0 <= i < j < |txs| ==> txs[i].id != txs[j].id
  }

  /** Row `i` after applying the trades `ids`: `COMPLETED` with its id kept
      when its id was listed, untouched otherwise. */
  predicate Settled(before: seq<Transaction>, after: seq<Transaction>, ids: seq<int>, i: int) {
    0 <= i < |before| && i < |after| &&
    (before[i].id in ids ==> after[i].status == Completed && after[i].id == before[i].id) &&
    (before[i].id !in ids ==> after[i] == before[i])
  }

  /** Applying the pending trades of a league with unique row ids leaves every
      row `COMPLETED` whose id was listed, and every other row as it was. */
  lemma {:induction false} ApplyPendingCompletes(lg: League, now: int, ids: seq<int>, i: int)
    requires ApplyPending(lg, now, ids).Ok? && UniqueIds(lg.txs) && 0 <= i < |lg.txs|
    ensures UniqueIds(ApplyPending(lg, now, ids).value.txs)
    ensures Settled(lg.txs, ApplyPending(lg, now, ids).value.txs, ids, i)
    decreases |ids|
  {
    if |ids| > 0 {
      var next := ApplyTransaction(lg, now, ids[0]).value;
      CompleteStep(lg, now, ids[0], i);
      ApplyPendingCompletes(next, now, ids[1..], i);
      SettledCons(lg.txs, next.txs, ApplyPending(next, now, ids[1..]).value.txs, ids, i);
    }
  }

  /** One applied trade followed by the rest settles the row for the whole list. */
  lemma SettledCons(before: seq<Transaction>, mid: seq<Transaction>, after: seq<Transaction>, ids: seq<int>, i: int)
    requires |ids| > 0 && 0 <= i < |before| && |mid| == |before|
    requires mid[i].id == before[i].id
    requires before[i].id == ids[0] ==> mid[i].status == Completed
    requires before[i].id != ids[0] ==> mid[i] == before[i]
    requires Settled(mid, after, ids[1..], i)
    ensures Settled(before, after, ids, i)
  {
    assert ids == [ids[0]] + ids[1..];
  }

  /** One applied trade: ids stay unique, the row with that id is
      `COMPLETED`, and every other row is as it was. */
  lemma CompleteStep(lg: League, now: int, id: int, i: int)
    requires ApplyTransaction(lg, now, id).Ok? && UniqueIds(lg.txs) && 0 <= i < |lg.txs|
    ensures var next := ApplyTransaction(lg, now, id).value.txs;
      UniqueIds(next) && |next| == |lg.txs| && next[i].id == lg.txs[i].id &&
      (lg.txs[i].id == id ==> next[i].status == Completed) &&
      (lg.txs[i].id != id ==> next[i] == lg.txs[i])
  {
    var next := ApplyTransaction(lg, now, id).value;
    var k := FindTx(lg.txs, id).value;
    forall a, b | 0 <= a < b < |next.txs| ensures next.txs[a].id != next.txs[b].id {
      assert next.txs[a].id == lg.txs[a].id && next.txs[b].id == lg.txs[b].id;
    }
    if i != k {
      assert next.txs[i] == lg.txs[i];
    }
  }

  /** What a run leaves behind: the `Week` table, every league's rows, and
      the first trade refusal with the position of its league, if any. */
  datatype CronOutcome = CronOutcome(table: seq<LeagueWeek>, leagues: seq<League>,
                                     failure: Option<(nat, TxError)>)

  /** The job for a run on day `today` at instant `now`: nothing due means it
      returns before applying any trade; otherwise the scoring loop runs over
      the due weeks and commits its marks, and then the pending trades of each
      league are applied, each in its own transaction, until one is refused. */
  function CronRun(table: seq<LeagueWeek>, leagues: seq<League>, today: Day, now: int,
                   scored: (int, int) -> bool): (r: CronOutcome)
    ensures |WeeksToScore(table, today)| == 0 ==> r == CronOutcome(table, leagues, None)
    ensures |WeeksToScore(table, today)| > 0 ==>
      r.table == ScoreLoop(table, WeeksToScore(table, today), scored, {}) && |r.leagues| == |leagues|
    ensures r.failure.None? <==> |WeeksToScore(table, today)| == 0 || AllApply(leagues, now)
    ensures |WeeksToScore(table, today)| > 0 && r.failure.None? ==> AppliedEach(leagues, now, r.leagues)
    ensures r.failure.Some? ==> StoppedAt(leagues, now, r.leagues, r.failure.value.0, r.failure.value.1)
  {
    var todo := WeeksToScore(table, today);
    if |todo| == 0 then CronOutcome(table, leagues, None)
    else
      var after := ScoreLoop(table, todo, scored, {});
      var (applied, failure) := ApplyAllUntil(leagues, now);
      CronOutcome(after, applied, failure)
  }

  /** `apply_trade` commits each trade on its own, so a refusal keeps the
      trades applied before it: the league after the ids up to the first
      refusal, and that refusal. */
  function ApplyUntil(lg: League, now: int, ids: seq<int>): (r: (League, Option<TxError>))
    ensures r.1.None? <==> ApplyPending(lg, now, ids).Ok?
    ensures r.1.None? ==> r.0 == ApplyPending(lg, now, ids).value
    ensures r.1.Some? ==> ApplyPending(lg, now, ids) == Err(r.1.value)
    ensures |r.0.txs| == |lg.txs| && r.0.votes == lg.votes
    decreases |ids|
  {
    if |ids| == 0 then (lg, None)
    else match ApplyTransaction(lg, now, ids[0])
      case Err(e) => (lg, Some(e))
      case Ok(next) => ApplyUntil(next, now, ids[1..])
  }

  /** A refused run keeps exactly the trades before the refused one: the
      league it leaves is the result of applying a prefix of the ids, and the
      next id is the one refused. */
  lemma {:induction false} ApplyUntilPrefix(lg: League, now: int, ids: seq<int>)
    requires ApplyUntil(lg, now, ids).1.Some?
    ensures var r := ApplyUntil(lg, now, ids);
      exists j :: 0 <= j < |ids| && ApplyPending(lg, now, ids[..j]) == Ok(r.0) &&
                  ApplyTransaction(r.0, now, ids[j]) == Err(r.1.value)
    decreases |ids|
  {
    var r := ApplyUntil(lg, now, ids);
    match ApplyTransaction(lg, now, ids[0])
    case Err(e) =>
      assert ApplyPending(lg, now, ids[..0]) == Ok(lg);
      assert ApplyTransaction(r.0, now, ids[0]) == Err(r.1.value);
    case Ok(next) =>
      ApplyUntilPrefix(next, now, ids[1..]);
      var j :| 0 <= j < |ids[1..]| && ApplyPending(next, now, ids[1..][..j]) == Ok(r.0) &&
        ApplyTransaction(r.0, now, ids[1..][j]) == Err(r.1.value);
      assert ids[..j + 1][1..] == ids[1..][..j] && ids[..j + 1][0] == ids[0];
      assert ApplyPending(lg, now, ids[..j + 1]) == Ok(r.0);
  }

  /** The leagues before `k` had all their pending trades applied. */
  predicate AppliedBefore(leagues: seq<League>, now: int, out: seq<League>, k: int)
    requires 0 <= k <= |leagues| == |out|
  {
    forall i :: 0 <= i < k ==> ApplyPending(leagues[i], now, PendingIds(leagues[i].txs)) == Ok(out[i])
  }

  /** The leagues before `k` had all their pending trades applied, league `k`
      had those before the refused one applied and was refused with `e`, and
      the leagues after it were not touched. */
  predicate StoppedAt(leagues: seq<League>, now: int, out: seq<League>, k: int, e: TxError) {
    |out| == |leagues| && 0 <= k < |leagues| &&
    AppliedBefore(leagues, now, out, k) &&
    ApplyUntil(leagues[k], now, PendingIds(leagues[k].txs)) == (out[k], Some(e)) &&
    out[k + 1..] == leagues[k + 1..]
  }

  /** The pending trades of each league in turn, keeping what was applied
      before the first refusal. */
  function ApplyAllUntil(leagues: seq<League>, now: int): (r: (seq<League>, Option<(nat, TxError)>))
    ensures |r.0| == |leagues|
    ensures r.1.None? <==> AllApply(leagues, now)
    ensures r.1.None? ==> AppliedEach(leagues, now, r.0)
    ensures r.1.Some? ==> StoppedAt(leagues, now, r.0, r.1.value.0, r.1.value.1)
    decreases |leagues|
  {
    if |leagues| == 0 then ([], None)
    else
      var u := ApplyUntil(leagues[0], now, PendingIds(leagues[0].txs));
      if u.1.Some? then
        StoppedFirst(leagues, now, u.0, u.1.value);
        ([u.0] + leagues[1..], Some((0, u.1.value)))
      else
        var v := ApplyAllUntil(leagues[1..], now);
        EachCons(leagues, now, u.0, v.0);
        if v.1.None? then ([u.0] + v.0, None)
        else
          StoppedCons(leagues, now, u.0, v.0, v.1.value.0, v.1.value.1);
          ([u.0] + v.0, Some((v.1.value.0 + 1, v.1.value.1)))
  }

  /** A refusal in the first league stops the run there. */
  lemma StoppedFirst(leagues: seq<League>, now: int, first: League, e: TxError)
    requires |leagues| > 0
    requires ApplyUntil(leagues[0], now, PendingIds(leagues[0].txs)) == (first, Some(e))
    ensures !AllApply(leagues, now)
    ensures StoppedAt(leagues, now, [first] + leagues[1..], 0, e)
  {
    var out := [first] + leagues[1..];
    assert forall i :: 0 < i < |leagues| ==> out[i] == leagues[i];
  }

  /** A refusal in league `k` of the rest is a refusal in league `k + 1`
      once the first league applied. */
  lemma StoppedCons(leagues: seq<League>, now: int, first: League, rest: seq<League>, k: int, e: TxError)
    requires |leagues| > 0
    requires ApplyPending(leagues[0], now, PendingIds(leagues[0].txs)) == Ok(first)
    requires StoppedAt(leagues[1..], now, rest, k, e)
    ensures StoppedAt(leagues, now, [first] + rest, k + 1, e)
  {
    var out := [first] + rest;
    var tail := leagues[1..];
    AppliedCons(leagues, now, first, rest, k);
    assert out[k + 1] == rest[k] && leagues[k + 1] == tail[k];
    assert out[k + 2..] == rest[k + 1..] && leagues[k + 2..] == tail[k + 1..];
  }

  lemma AppliedCons(leagues: seq<League>, now: int, first: League, rest: seq<League>, k: int)
    requires |leagues| > 0 && |rest| == |leagues| - 1 && 0 <= k < |rest|
    requires ApplyPending(leagues[0], now, PendingIds(leagues[0].txs)) == Ok(first)
    requires AppliedBefore(leagues[1..], now, rest, k)
    ensures AppliedBefore(leagues, now, [first] + rest, k + 1)
  {
    var out := [first] + rest;
    var tail := leagues[1..];
    forall i | 0 <= i < k + 1
      ensures ApplyPending(leagues[i], now, PendingIds(leagues[i].txs)) == Ok(out[i])
    {
      if i > 0 {
        assert out[i] == rest[i - 1] && leagues[i] == tail[i - 1];
      }
    }
  }

  /** Every league's pending trades apply. */
  predicate AllApply(leagues: seq<League>, now: int) {
    forall i :: 0 <= i < |leagues| ==> ApplyPending(leagues[i], now, PendingIds(leagues[i].txs)).Ok?
  }

  /** `out` holds, league by league, the result of applying its pending trades. */
  predicate AppliedEach(leagues: seq<League>, now: int, out: seq<League>) {
    |out| == |leagues| &&
    forall i :: 0 <= i < |leagues| ==>
      ApplyPending(leagues[i], now, PendingIds(leagues[i].txs)) == Ok(out[i])
  }

  /** The pending trades of each league in turn. */
  function ApplyAll(leagues: seq<League>, now: int): (r: Result<seq<League>, TxError>)
    ensures r.Ok? <==> AllApply(leagues, now)
    ensures r.Ok? ==> AppliedEach(leagues, now, r.value)
  {
    if |leagues| == 0 then Ok([])
    else
      var first :- ApplyPending(leagues[0], now, PendingIds(leagues[0].txs));
      var rest :- ApplyAll(leagues[1..], now);
      EachCons(leagues, now, first, rest);
      Ok([first] + rest)
  }

  /** The two predicates above, split at the first league. */
  lemma EachCons(leagues: seq<League>, now: int, first: League, rest: seq<League>)
    requires |leagues| > 0
    requires ApplyPending(leagues[0], now, PendingIds(leagues[0].txs)) == Ok(first)
    ensures AllApply(leagues, now) <==> AllApply(leagues[1..], now)
    ensures AppliedEach(leagues[1..], now, rest) ==> AppliedEach(leagues, now, [first] + rest)
  {
    assert forall i :: 1 <= i < |leagues| ==> leagues[i] == leagues[1..][i - 1];
    if AppliedEach(leagues[1..], now, rest) {
      var out := [first] + rest;
      forall i | 0 <= i < |leagues|
        ensures ApplyPending(leagues[i], now, PendingIds(leagues[i].txs)) == Ok(out[i])
      {
        if i > 0 {
          assert out[i] == rest[i - 1] && leagues[i] == leagues[1..][i - 1];
        }
      }
    }
  }
}
