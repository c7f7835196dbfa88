/** `compute_weekly_scores`: every member's point differential for the week,
    ordered best first with ties broken by head-to-head margin and then by the
    biggest single-game margin, and waterfall points N, N-1, …, 1 down the
    final order. */
module WeeklyScoring {
  import opened Wrappers
  import opened Ownership
  import opened Weeks
  import opened Games
  import opened Tally
  import opened Sorting
  import opened Ties

  /** A `LeagueMember` row. */
  datatype Member = Member(id: MemberId, teamName: string)

  /** A member's line before points are awarded. */
  datatype Entry = Entry(memberId: MemberId, teamName: string, pointDifferential: int)

  /** A `WeeklyTeamScore` row as written. */
  datatype Scored = Scored(memberId: MemberId, teamName: string, pointDifferential: int,
                           rank: int, pointsAwarded: int)

  /** The tables one week's scoring reads. */
  datatype WeekContext = WeekContext(slots: seq<Slot>, games: seq<GameResult>, week: Week)

  function MemberOf(e: Entry): int {
    e.memberId
  }

  function PdOf(e: Entry): int {
    e.pointDifferential
  }

  /** `compute_member_point_diff_for_week`. */
  function PointDifferential(ctx: WeekContext, member: MemberId): int {
    Sum(MemberGameDiffs(ctx.slots, ctx.games, member, ctx.week))
  }

  function Abs(x: int): nat {
    if x < 0 then -x else x
  }

  /** The biggest `abs(memberPointDiff)`, starting from 0. */
  function Biggest(diffs: seq<int>): (r: nat)
    ensures forall i :: 0 <= i < |diffs| ==> Abs(diffs[i]) <= r
    ensures r == 0 || exists i :: 0 <= i < |diffs| && Abs(diffs[i]) == r
  {
    if |diffs| == 0 then 0
    else
      var rest := Biggest(diffs[..|diffs| - 1]);
      assert forall i :: 0 <= i < |diffs| - 1 ==> diffs[..|diffs| - 1][i] == diffs[i];
      if Abs(diffs[|diffs| - 1]) > rest then Abs(diffs[|diffs| - 1]) else rest
  }

  /** A member's biggest single-game margin in the week. */
  function Margin(ctx: WeekContext, member: MemberId): nat {
    Biggest(MemberGameDiffs(ctx.slots, ctx.games, member, ctx.week))
  }

  // ---------------------------------------------------------------------
  // Weekly head-to-head
  // ---------------------------------------------------------------------

  /** A's (`byA`) or B's margin over the games between members `a` and `b`. */
  function Pd(ctx: WeekContext, a: MemberId, b: MemberId, byA: bool): int {
    PairPd(HeadToHeadGames(ctx.slots, ctx.games, a, b, ctx.week), byA)
  }

  /** What `m` collects as member A against each of `ys`. */
  function SumAsA(ctx: WeekContext, m: MemberId, ys: seq<MemberId>): int {
    if |ys| == 0 then 0 else Pd(ctx, m, ys[0], true) + SumAsA(ctx, m, ys[1..])
  }

  /** What `m` collects as member B against each of `xs`. */
  function SumAsB(ctx: WeekContext, xs: seq<MemberId>, m: MemberId): int {
    if |xs| == 0 then 0 else Pd(ctx, xs[0], m, false) + SumAsB(ctx, xs[1..], m)
  }

  /** What `a`'s opponents `ys` collect as member B against `a`, added to
      their running totals. */
  function AddAsB(ctx: WeekContext, totals: seq<int>, a: MemberId, ys: seq<MemberId>): (r: seq<int>)
    requires |totals| == |ys|
    ensures |r| == |ys|
    ensures forall k :: 0 <= k < |ys| ==> r[k] == totals[k] + Pd(ctx, a, ys[k], false)
  {
    if |ys| == 0 then []
    else [totals[0] + Pd(ctx, a, ys[0], false)] + AddAsB(ctx, totals[1..], a, ys[1..])
  }

  /** The `totals` of `_tb_weekly_head_to_head`, position by position with
      `ids`: every pair `ids[i], ids[j]` with `i < j` is visited once, the
      first as member A and the second as member B. */
  function HeadToHeadTotals(ctx: WeekContext, ids: seq<MemberId>): (t: seq<int>)
    ensures |t| == |ids|
  {
    if |ids| == 0 then []
    else
      var rest := ids[1..];
      [SumAsA(ctx, ids[0], rest)] + AddAsB(ctx, HeadToHeadTotals(ctx, rest), ids[0], rest)
  }

  /** Member `ids[k]`'s head-to-head total: its margin as member B against
      every earlier id plus its margin as member A against every later one. */
  lemma {:induction false} HeadToHeadTotalsPerMember(ctx: WeekContext, ids: seq<MemberId>, k: nat)
    requires k < |ids|
    ensures HeadToHeadTotals(ctx, ids)[k] == SumAsB(ctx, ids[..k], ids[k]) + SumAsA(ctx, ids[k], ids[k + 1..])
  {
    var rest := ids[1..];
    if k == 0 {
      assert ids[..0] == [];
    } else {
      HeadToHeadTotalsPerMember(ctx, rest, k - 1);
      assert ids[..k][1..] == rest[..k - 1];
      assert ids[k + 1..] == rest[k..];
    }
  }

  /** Summed over everybody, the head-to-head totals of distinct members are 0
      whenever no team has two owners in the week. */
  lemma {:induction false} HeadToHeadZeroSum(ctx: WeekContext, ids: seq<MemberId>)
    requires ExclusiveAt(ctx.slots, ctx.week.number) && NoDuplicates(ids)
    ensures Sum(HeadToHeadTotals(ctx, ids)) == 0
  {
    if |ids| > 0 {
      var a := ids[0];
      var rest := ids[1..];
      HeadToHeadZeroSum(ctx, rest);
      var tr := HeadToHeadTotals(ctx, rest);
      AddAsBSum(ctx, tr, a, rest);
      OpponentsCancel(ctx, a, rest);
      assert HeadToHeadTotals(ctx, ids) == [SumAsA(ctx, a, rest)] + AddAsB(ctx, tr, a, rest);
    }
  }

  /** What `AddAsB` adds, in total. */
  function SumAsBAgainst(ctx: WeekContext, a: MemberId, ys: seq<MemberId>): int {
    if |ys| == 0 then 0 else Pd(ctx, a, ys[0], false) + SumAsBAgainst(ctx, a, ys[1..])
  }

  lemma {:induction false} AddAsBSum(ctx: WeekContext, totals: seq<int>, a: MemberId, ys: seq<MemberId>)
    requires |totals| == |ys|
    ensures Sum(AddAsB(ctx, totals, a, ys)) == Sum(totals) + SumAsBAgainst(ctx, a, ys)
  {
    if |ys| > 0 {
      AddAsBSum(ctx, totals[1..], a, ys[1..]);
    }
  }

  lemma {:induction false} OpponentsCancel(ctx: WeekContext, a: MemberId, ys: seq<MemberId>)
    requires ExclusiveAt(ctx.slots, ctx.week.number) && a !in ys
    ensures SumAsA(ctx, a, ys) + SumAsBAgainst(ctx, a, ys) == 0
  {
    if |ys| > 0 {
      OpponentsCancel(ctx, a, ys[1..]);
      HeadToHeadCancels(ctx.slots, ctx.games, a, ys[0], ctx.week);
    }
  }

  /** The member ids of a group, in order. */
  function Ids(group: seq<Entry>): (r: seq<MemberId>)
    ensures |r| == |group| && forall i :: 0 <= i < |group| ==> r[i] == group[i].memberId
  {
    seq(|group|, i requires 0 <= i < |group| => group[i].memberId)
  }

  /** `totals[m]`: the total at `m`'s position in `ids`, 0 if absent. */
  function TotalOf(ids: seq<MemberId>, totals: seq<int>, m: MemberId): int
    requires |totals| == |ids|
  {
    if |ids| == 0 then 0
    else if ids[0] == m then totals[0]
    else TotalOf(ids[1..], totals[1..], m)
  }

  /** `_tb_weekly_head_to_head`. */
  function WeeklyHeadToHead(ctx: WeekContext, group: seq<Entry>): Option<seq<Entry>> {
    var ids := Dedupe(Ids(group));
    var totals := HeadToHeadTotals(ctx, ids);
    RankBy(group, (e: Entry) => TotalOf(ids, totals, e.memberId), MemberOf)
  }

  /** `_tb_weekly_biggest_single_margin`. */
  function WeeklyBiggestMargin(ctx: WeekContext, group: seq<Entry>): Option<seq<Entry>> {
    RankBy(group, (e: Entry) => Margin(ctx, e.memberId), MemberOf)
  }

  /** `_resolve_weekly_ties`: head-to-head, then biggest margin, then the
      group as it stands. */
  function ResolveWeekly(ctx: WeekContext, group: seq<Entry>): seq<Entry> {
    match WeeklyHeadToHead(ctx, group)
    case Some(g) => g
    case None =>
      match WeeklyBiggestMargin(ctx, group)
      case Some(g) => g
      case None => group
  }

  /** The cascade reorders only: whatever criterion decides, the group keeps
      its entries; a group tied on both criteria is left as it stands. */
  lemma ResolveWeeklyPermutes(ctx: WeekContext)
    ensures Permutes((g: seq<Entry>) => ResolveWeekly(ctx, g))
  {
    forall g: seq<Entry> ensures multiset(ResolveWeekly(ctx, g)) == multiset(g) {
    }
  }

  /** The biggest-margin criterion is consulted only when head-to-head does
      not separate the group, and then orders the group by margin. */
  lemma ResolveWeeklyByMargin(ctx: WeekContext, group: seq<Entry>)
    requires WeeklyHeadToHead(ctx, group).None?
    ensures var margin := (e: Entry) => Margin(ctx, e.memberId);
      var r := ResolveWeekly(ctx, group);
      (AllTied(group, margin) ==> r == group) &&
      (!AllTied(group, margin) ==> forall i, j :: 0 <= i < j < |r| ==> Margin(ctx, r[i].memberId) >= Margin(ctx, r[j].memberId))
  {
  }

  // ---------------------------------------------------------------------
  // compute_weekly_scores
  // ---------------------------------------------------------------------

  datatype ScoringError = WeekNotFound(weekNumber: int) | NoMembers

  /** The pre-sort key `(-pointDifferential, memberId)`. */
  function PdKey(e: Entry): Key {
    Key(-(e.pointDifferential as real), 0.0, e.memberId)
  }

  function PdScore(e: Entry): real {
    e.pointDifferential as real
  }

  /** Members sorted by differential and re-ordered inside tie groups. */
  function FinalOrder(ctx: WeekContext, entries: seq<Entry>): seq<Entry> {
    ApplyTiebreakers(SortBy(entries, PdKey), PdScore, (g: seq<Entry>) => ResolveWeekly(ctx, g))
  }

  function Waterfall(order: seq<Entry>): (r: seq<Scored>)
    ensures |r| == |order|
  {
    seq(|order|, i requires 0 <= i < |order| =>
      Scored(order[i].memberId, order[i].teamName, order[i].pointDifferential, i + 1, |order| - i))
  }

  /** `compute_weekly_scores` for week `n`: the rows written to
      `WeeklyTeamScore`, in final order. */
  function ComputeWeeklyScores(weeks: seq<Week>, n: int, members: seq<Member>,
                               slots: seq<Slot>, games: seq<GameResult>): (r: Result<seq<Scored>, ScoringError>)
    ensures r.Err? <==> FindWeek(weeks, n).None? || |members| == 0
    ensures FindWeek(weeks, n).None? ==> r == Err(WeekNotFound(n))
    ensures r.Ok? ==> |r.value| == |members|
  {
    var week :- FindWeek(weeks, n).ToResult(WeekNotFound(n));
    var _ :- Need(|members| > 0, NoMembers);
    var ctx := WeekContext(slots, games, week);
    var entries := Entries(ctx, members);
    var order := FinalOrder(ctx, entries);
    OrderIsPermutation(ctx, entries);
    Ok(Waterfall(order))
  }

  lemma OrderIsPermutation(ctx: WeekContext, entries: seq<Entry>)
    ensures var order := FinalOrder(ctx, entries);
      |order| == |entries| && multiset(order) == multiset(entries) &&
      forall i, j :: 0 <= i < j < |order| ==> order[i].pointDifferential >= order[j].pointDifferential
  {
    var sorted := SortBy(entries, PdKey);
    ResolveWeeklyPermutes(ctx);
    var resolve := (g: seq<Entry>) => ResolveWeekly(ctx, g);
    TiebreakersPermuteWithinGroups(sorted, PdScore, resolve);
    var order := FinalOrder(ctx, entries);
    forall i, j | 0 <= i < j < |order| ensures order[i].pointDifferential >= order[j].pointDifferential {
      assert PdScore(order[i]) == PdScore(sorted[i]) && PdScore(order[j]) == PdScore(sorted[j]);
      assert KeyLe(PdKey(sorted[i]), PdKey(sorted[j]));
    }
  }

  function TotalPoints(rows: seq<Scored>): int {
    if |rows| == 0 then 0 else rows[0].pointsAwarded + TotalPoints(rows[1..])
  }

  /** Waterfall points are `N, N-1, …, 1`, so they add up to N(N+1)/2. */
  lemma {:induction false} WaterfallTotal(order: seq<Entry>)
    ensures TotalPoints(Waterfall(order)) == |order| * (|order| + 1) / 2
  {
    if |order| > 0 {
      var r := Waterfall(order);
      WaterfallTotal(order[1..]);
      var t := Waterfall(order[1..]);
      assert r[1..] == seq(|t|, i requires 0 <= i < |t| => t[i].(rank := t[i].rank + 1));
      WaterfallShift(t);
    }
  }

  /** Moving every rank down one place does not change the points. */
  lemma {:induction false} WaterfallShift(t: seq<Scored>)
    ensures TotalPoints(seq(|t|, i requires 0 <= i < |t| => t[i].(rank := t[i].rank + 1))) == TotalPoints(t)
  {
    if |t| > 0 {
      WaterfallShift(t[1..]);
      var u := seq(|t|, i requires 0 <= i < |t| => t[i].(rank := t[i].rank + 1));
      assert u[1..] == seq(|t[1..]|, i requires 0 <= i < |t[1..]| => t[1..][i].(rank := t[1..][i].rank + 1));
    }
  }

  /** Down an order whose differentials never increase, the waterfall gives
      rank 1 to the top, points falling by one per place from N to 1, and
      strictly more points to a strictly better differential. */
  lemma WaterfallOrdered(order: seq<Entry>)
    requires forall i, j :: 0 <= i < j < |order| ==> order[i].pointDifferential >= order[j].pointDifferential
    ensures Ranked(Waterfall(order))
    ensures TotalPoints(Waterfall(order)) == |order| * (|order| + 1) / 2
  {
    WaterfallTotal(order);
  }

  /** A table whose differentials never increase downwards, with rank 1 at
      the top and points falling by one per place from N to 1, so that a
      strictly better differential has strictly more points. */
  predicate Ranked(r: seq<Scored>) {
    (forall i, j :: 0 <= i < j < |r| ==> r[i].pointDifferential >= r[j].pointDifferential) &&
    (forall i :: 0 <= i < |r| ==> 1 <= r[i].pointsAwarded <= |r| && r[i].rank + r[i].pointsAwarded == |r| + 1) &&
    (forall i, j :: 0 <= i < |r| && 0 <= j < |r| && r[i].pointDifferential > r[j].pointDifferential ==>
      r[i].pointsAwarded > r[j].pointsAwarded)
  }

  /** The entries the scoring orders: each member with their differential. */
  function Entries(ctx: WeekContext, members: seq<Member>): (e: seq<Entry>)
    ensures |e| == |members|
    ensures forall i :: 0 <= i < |members| ==>
      e[i] == Entry(members[i].id, members[i].teamName, PointDifferential(ctx, members[i].id))
  {
    seq(|members|, i requires 0 <= i < |members| =>
      Entry(members[i].id, members[i].teamName, PointDifferential(ctx, members[i].id)))
  }

  /** A reordering of the entries lists every member once with their own
      differential. */
  lemma ReorderedEntries(ctx: WeekContext, members: seq<Member>, order: seq<Entry>)
    requires multiset(order) == multiset(Entries(ctx, members))
    ensures forall j :: 0 <= j < |members| ==> exists i :: 0 <= i < |order| && order[i] == Entries(ctx, members)[j]
    ensures forall i :: 0 <= i < |order| ==> order[i].pointDifferential == PointDifferential(ctx, order[i].memberId)
  {
    var entries := Entries(ctx, members);
    forall j | 0 <= j < |members| ensures exists i :: 0 <= i < |order| && order[i] == entries[j] {
      assert entries[j] in multiset(order);
    }
    forall i | 0 <= i < |order| ensures order[i].pointDifferential == PointDifferential(ctx, order[i].memberId) {
      assert order[i] in multiset(entries);
      var j :| 0 <= j < |entries| && entries[j] == order[i];
    }
  }

  /** The week's scores are the waterfall down the final order of the
      members' entries. */
  lemma WeeklyScoresAre(weeks: seq<Week>, n: int, members: seq<Member>, slots: seq<Slot>, games: seq<GameResult>)
    ensures ComputeWeeklyScores(weeks, n, members, slots, games).Ok? ==>
      var ctx := WeekContext(slots, games, FindWeek(weeks, n).value);
      ComputeWeeklyScores(weeks, n, members, slots, games).value == Waterfall(FinalOrder(ctx, Entries(ctx, members)))
  {
  }

  /** Member `m` has a row in `r` under its own team name. */
  predicate Lists(r: seq<Scored>, m: Member) {
    exists i :: 0 <= i < |r| && r[i].memberId == m.id && r[i].teamName == m.teamName
  }

  /** The week's scores list every member, each with their own
      differential. */
  lemma WeeklyScoresMembers(weeks: seq<Week>, n: int, members: seq<Member>, slots: seq<Slot>, games: seq<GameResult>)
    ensures ComputeWeeklyScores(weeks, n, members, slots, games).Ok? ==>
      var r := ComputeWeeklyScores(weeks, n, members, slots, games).value;
      var ctx := WeekContext(slots, games, FindWeek(weeks, n).value);
      (forall j :: 0 <= j < |members| ==> Lists(r, members[j])) &&
      (forall i :: 0 <= i < |r| ==> r[i].pointDifferential == PointDifferential(ctx, r[i].memberId))
  {
    if ComputeWeeklyScores(weeks, n, members, slots, games).Ok? {
      var ctx := WeekContext(slots, games, FindWeek(weeks, n).value);
      OrderIsPermutation(ctx, Entries(ctx, members));
      WeeklyScoresAre(weeks, n, members, slots, games);
      WaterfallMembers(ctx, members, FinalOrder(ctx, Entries(ctx, members)));
    }
  }

  /** The waterfall over a reordering of the entries lists every member,
      each with their own differential. */
  lemma WaterfallMembers(ctx: WeekContext, members: seq<Member>, order: seq<Entry>)
    requires multiset(order) == multiset(Entries(ctx, members))
    ensures forall j :: 0 <= j < |members| ==> Lists(Waterfall(order), members[j])
    ensures forall i :: 0 <= i < |Waterfall(order)| ==>
      Waterfall(order)[i].pointDifferential == PointDifferential(ctx, Waterfall(order)[i].memberId)
  {
    var entries := Entries(ctx, members);
    var r := Waterfall(order);
    ReorderedEntries(ctx, members, order);
    forall j | 0 <= j < |members| ensures Lists(r, members[j]) {
      var i :| 0 <= i < |order| && order[i] == entries[j];
      assert r[i] == Scored(order[i].memberId, order[i].teamName, order[i].pointDifferential, i + 1, |order| - i);
    }
    forall i | 0 <= i < |r| ensures r[i].pointDifferential == PointDifferential(ctx, r[i].memberId) {
      assert r[i] == Scored(order[i].memberId, order[i].teamName, order[i].pointDifferential, i + 1, |order| - i);
    }
  }

  /** The week's differentials never increase down the table, rank 1 goes
      to the top and points fall by one per place from N to 1, totalling
      N(N+1)/2, so a strictly better differential always earns strictly more
      points. */
  lemma WeeklyScoresRanked(weeks: seq<Week>, n: int, members: seq<Member>, slots: seq<Slot>, games: seq<GameResult>)
    ensures ComputeWeeklyScores(weeks, n, members, slots, games).Ok? ==> Ranked(ComputeWeeklyScores(weeks, n, members, slots, games).value)
    ensures ComputeWeeklyScores(weeks, n, members, slots, games).Ok? ==> TotalPoints(ComputeWeeklyScores(weeks, n, members, slots, games).value) == |members| * (|members| + 1) / 2
  {
    if ComputeWeeklyScores(weeks, n, members, slots, games).Ok? {
      var ctx := WeekContext(slots, games, FindWeek(weeks, n).value);
      var order := FinalOrder(ctx, Entries(ctx, members));
      OrderIsPermutation(ctx, Entries(ctx, members));
      WeeklyScoresAre(weeks, n, members, slots, games);
      WaterfallOrdered(order);
    }
  }
}
