/** End-of-season standings (`compute_end_of_year_season_standings`): each
    member's weekly points plus bonus points, ordered by the total, with the
    five season tiebreakers applied inside every group tied on the total. */
module SeasonStandings {
  import opened Wrappers
  import opened Ownership
  import opened Weeks
  import opened Games
  import opened Postseason
  import opened Bonus
  import opened Sorting
  import opened Tally
  import opened Ties
  import WeeklyScoring

  /** A `WeeklyTeamScore` row of the league. */
  datatype ScoreRow = ScoreRow(weekId: int, memberId: MemberId, rank: int, pointsAwarded: int)

  /** What the standings read about one league. */
  datatype League = League(season: Season, weeks: seq<Week>, scores: seq<ScoreRow>,
                           members: seq<WeeklyScoring.Member>, bonuses: seq<BonusEntry>)

  /** One row of the standings. */
  datatype Standing = Standing(memberId: MemberId, teamName: string, weeklyPoints: int,
                               bonusPoints: real, totalPoints: real)

  function MemberIdOf(s: Standing): int {
    s.memberId
  }

  function StandingIds(group: seq<Standing>): (r: seq<MemberId>)
    ensures |r| == |group| && forall k :: 0 <= k < |group| ==> r[k] == group[k].memberId
  {
    seq(|group|, k requires 0 <= k < |group| => group[k].memberId)
  }

  // ---------- tiebreaker 1: playoff depth ----------

  function DepthValue(season: Season): Standing -> int {
    (s: Standing) => DepthOf(season, s.memberId)
  }

  /** `_tb_season_playoff_depth`: no verdict without primary phases or when
      every tied member reached the same depth. */
  function PlayoffDepthTiebreak(season: Season, group: seq<Standing>): (r: Option<seq<Standing>>)
    ensures r.None? <==> |PhaseIds(season.phases, PrimaryKinds)| == 0 || AllTied(group, DepthValue(season))
    ensures r.Some? ==> multiset(r.value) == multiset(group) && |r.value| == |group|
    ensures r.Some? ==> forall i, j :: 0 <= i < j < |r.value| ==>
      DepthOf(season, r.value[i].memberId) >= DepthOf(season, r.value[j].memberId)
    ensures r.Some? ==> RankedBy(r.value, DepthValue(season), MemberIdOf)
  {
    if |PhaseIds(season.phases, PrimaryKinds)| == 0 then None
    else RankBy(group, DepthValue(season), MemberIdOf)
  }

  // ---------- tiebreaker 2: segment champions ----------

  function ChampionValue(season: Season, champions: set<TeamId>): Standing -> int {
    (s: Standing) => |champions * EverOwned(season.slots, s.memberId)|
  }

  /** `_tb_season_num_segment_champs`: no verdict without segment phases,
      without any decided final, or when every tied member holds as many
      champions. */
  function SegmentChampionsTiebreak(season: Season, group: seq<Standing>): (r: Option<seq<Standing>>)
    ensures var champions := Champions(season.games, PhaseIds(season.phases, SegmentKinds));
      r.None? <==> (|PhaseIds(season.phases, SegmentKinds)| == 0 || champions == {} ||
                    AllTied(group, ChampionValue(season, champions)))
    ensures r.Some? ==> multiset(r.value) == multiset(group) && |r.value| == |group|
    ensures r.Some? ==> var champions := Champions(season.games, PhaseIds(season.phases, SegmentKinds));
      forall i, j :: 0 <= i < j < |r.value| ==>
        |champions * EverOwned(season.slots, r.value[i].memberId)| >= |champions * EverOwned(season.slots, r.value[j].memberId)|
    ensures r.Some? ==> var champions := Champions(season.games, PhaseIds(season.phases, SegmentKinds));
      RankedBy(r.value, ChampionValue(season, champions), MemberIdOf)
  {
    var phaseIds := PhaseIds(season.phases, SegmentKinds);
    if |phaseIds| == 0 then None
    else
      var champions := Champions(season.games, phaseIds);
      if champions == {} then None
      else
        var r := RankBy(group, ChampionValue(season, champions), MemberIdOf);
        if r.None? then r
        else ChampionOrder(season, champions, r.value); r
  }

  lemma ChampionOrder(season: Season, champions: set<TeamId>, r: seq<Standing>)
    requires RankedBy(r, ChampionValue(season, champions), MemberIdOf)
    ensures forall i, j :: 0 <= i < j < |r| ==>
      |champions * EverOwned(season.slots, r[i].memberId)| >= |champions * EverOwned(season.slots, r[j].memberId)|
  {
    forall i, j | 0 <= i < j < |r|
      ensures |champions * EverOwned(season.slots, r[i].memberId)| >= |champions * EverOwned(season.slots, r[j].memberId)|
    {
      assert ChampionValue(season, champions)(r[i]) >= ChampionValue(season, champions)(r[j]);
    }
  }

  // ---------- tiebreakers 3 and 4: head-to-head in phases ----------

  /** The teams any of the members ever held (`all_team_ids`). */
  function GroupTeams(slots: seq<Slot>, mids: seq<MemberId>): (r: set<TeamId>)
    ensures forall t :: t in r <==> exists k :: 0 <= k < |mids| && t in EverOwned(slots, mids[k])
  {
    var r := set i | 0 <= i < |slots| && slots[i].member in mids :: slots[i].team;
    assert forall t :: t in r ==> exists k :: 0 <= k < |mids| && t in EverOwned(slots, mids[k]) by {
      forall t | t in r ensures exists k :: 0 <= k < |mids| && t in EverOwned(slots, mids[k]) {
        var i :| 0 <= i < |slots| && slots[i].member in mids && slots[i].team == t;
        var k :| 0 <= k < |mids| && mids[k] == slots[i].member;
        assert t in EverOwned(slots, mids[k]);
      }
    }
    r
  }

  /** A game the phase head-to-head query selects. */
  predicate PhaseGame(g: GameResult, phaseIds: seq<PhaseId>, teams: set<TeamId>) {
    InPhases(g, phaseIds) && g.home.Some? && g.away.Some? &&
    (g.home.value in teams || g.away.value in teams)
  }

  /** The positions from `from` on of the members who ever held `team`
      (`home_members` / `away_members`), in order. */
  function Holders(slots: seq<Slot>, mids: seq<MemberId>, team: TeamId, from: nat): (r: seq<nat>)
    requires from <= |mids|
    ensures forall x :: x in r ==> from <= x < |mids| && team in EverOwned(slots, mids[x])
    ensures forall x :: from <= x < |mids| && team in EverOwned(slots, mids[x]) ==> x in r
    decreases |mids| - from
  {
    if from == |mids| then []
    else
      var rest := Holders(slots, mids, team, from + 1);
      if team in EverOwned(slots, mids[from]) then [from] + rest else rest
  }

  /** `totals[hm] += pd; totals[am] -= pd`. */
  function Settle(t: seq<int>, h: nat, a: nat, pd: int): (r: seq<int>)
    requires h < |t| && a < |t|
    ensures |r| == |t| && Sum(r) == Sum(t)
  {
    var t1 := t[h := t[h] + pd];
    SumUpdate(t, h, pd);
    SumUpdate(t1, a, -pd);
    t1[a := t1[a] + -pd]
  }

  /** The inner loop: home member `h` against every away member. */
  function SettleAgainst(t: seq<int>, h: nat, aways: seq<nat>, pd: int): (r: seq<int>)
    requires h < |t| && forall x :: x in aways ==> x < |t|
    ensures |r| == |t| && Sum(r) == Sum(t)
    decreases |aways|
  {
    if |aways| == 0 then t
    else
      assert aways[0] in aways && forall x :: x in aways[1..] ==> x in aways;
      SettleAgainst(Settle(t, h, aways[0], pd), h, aways[1..], pd)
  }

  /** Both loops for one game: every home member against every away member. */
  function SettleGame(t: seq<int>, homes: seq<nat>, aways: seq<nat>, pd: int): (r: seq<int>)
    requires forall x :: x in homes ==> x < |t|
    requires forall x :: x in aways ==> x < |t|
    ensures |r| == |t| && Sum(r) == Sum(t)
    decreases |homes|
  {
    if |homes| == 0 then t
    else
      assert homes[0] in homes && forall x :: x in homes[1..] ==> x in homes;
      SettleGame(SettleAgainst(t, homes[0], aways, pd), homes[1..], aways, pd)
  }

  /** The `for row in rows` loop over the season's games. */
  function SettleGames(t: seq<int>, slots: seq<Slot>, mids: seq<MemberId>, games: seq<GameResult>,
                       phaseIds: seq<PhaseId>, teams: set<TeamId>): (r: seq<int>)
    requires |t| == |mids|
    ensures |r| == |t| && Sum(r) == Sum(t)
    decreases |games|
  {
    if |games| == 0 then t
    else
      var g := games[0];
      var next :=
        if PhaseGame(g, phaseIds, teams) then
          SettleGame(t, Holders(slots, mids, g.home.value, 0), Holders(slots, mids, g.away.value, 0),
                     g.homeScore - g.awayScore)
        else t;
      SettleGames(next, slots, mids, games[1..], phaseIds, teams)
  }

  function Zeros(n: nat): (r: seq<int>)
    ensures |r| == n && Sum(r) == 0
  {
    if n == 0 then [] else [0] + Zeros(n - 1)
  }

  /** The head-to-head totals of the members `mids` in the phases: every
      game moves points from one member to another, so they add up to zero. */
  function PhaseTotals(season: Season, mids: seq<MemberId>, phaseIds: seq<PhaseId>): (r: seq<int>)
    ensures |r| == |mids|
    ensures Sum(r) == 0
  {
    SettleGames(Zeros(|mids|), season.slots, mids, season.games, phaseIds, GroupTeams(season.slots, mids))
  }

  /** `totals[m]`: the total at the first position of `m`. */
  function TotalAt(mids: seq<MemberId>, totals: seq<int>, m: MemberId): int {
    if |mids| == 0 || |totals| == 0 then 0
    else if mids[0] == m then totals[0]
    else TotalAt(mids[1..], totals[1..], m)
  }

  lemma {:induction false} TotalAtPosition(mids: seq<MemberId>, totals: seq<int>, k: nat)
    requires |mids| == |totals| && k < |mids| && NoDuplicates(mids)
    ensures TotalAt(mids, totals, mids[k]) == totals[k]
  {
    if k > 0 {
      assert mids[0] != mids[k];
      assert NoDuplicates(mids[1..]) by {
        forall i, j | 0 <= i < j < |mids| - 1 ensures mids[1..][i] != mids[1..][j] {
          assert mids[1..][i] == mids[i + 1] && mids[1..][j] == mids[j + 1];
        }
      }
      TotalAtPosition(mids[1..], totals[1..], k - 1);
    }
  }

  function HeadToHeadValue(mids: seq<MemberId>, totals: seq<int>): Standing -> int {
    (s: Standing) => TotalAt(mids, totals, s.memberId)
  }

  /** The head-to-head total of a tied member over the phases of `kinds`. */
  function GroupHeadToHead(season: Season, group: seq<Standing>, kinds: seq<string>): Standing -> int {
    var mids := Dedupe(StandingIds(group));
    HeadToHeadValue(mids, PhaseTotals(season, mids, PhaseIds(season.phases, kinds)))
  }

  /** `_head_to_head_pd_in_phases`: no verdict without such phases, when the
      tied members never held a team, or when their totals are all equal;
      otherwise the group by head-to-head total, highest first. */
  function PhaseHeadToHead(season: Season, group: seq<Standing>, kinds: seq<string>): (r: Option<seq<Standing>>)
    ensures r.None? <==> (|PhaseIds(season.phases, kinds)| == 0 || GroupTeams(season.slots, StandingIds(group)) == {} ||
                          AllTied(group, GroupHeadToHead(season, group, kinds)))
    ensures r.Some? ==> multiset(r.value) == multiset(group) && |r.value| == |group|
    ensures r.Some? ==> RankedBy(r.value, GroupHeadToHead(season, group, kinds), MemberIdOf)
  {
    var phaseIds := PhaseIds(season.phases, kinds);
    var mids := Dedupe(StandingIds(group));
    assert GroupTeams(season.slots, mids) == GroupTeams(season.slots, StandingIds(group)) by {
      assert forall m :: m in mids <==> m in StandingIds(group);
      forall t ensures t in GroupTeams(season.slots, mids) ==> t in GroupTeams(season.slots, StandingIds(group)) {
        if t in GroupTeams(season.slots, mids) {
          var k :| 0 <= k < |mids| && t in EverOwned(season.slots, mids[k]);
          assert mids[k] in mids;
          var j :| 0 <= j < |StandingIds(group)| && StandingIds(group)[j] == mids[k];
        }
      }
      forall t ensures t in GroupTeams(season.slots, StandingIds(group)) ==> t in GroupTeams(season.slots, mids) {
        if t in GroupTeams(season.slots, StandingIds(group)) {
          var k :| 0 <= k < |StandingIds(group)| && t in EverOwned(season.slots, StandingIds(group)[k]);
          assert StandingIds(group)[k] in StandingIds(group);
          var j :| 0 <= j < |mids| && mids[j] == StandingIds(group)[k];
        }
      }
    }
    if |phaseIds| == 0 || GroupTeams(season.slots, mids) == {} then None
    else RankBy(group, HeadToHeadValue(mids, PhaseTotals(season, mids, phaseIds)), MemberIdOf)
  }

  /** `n * m` as a repeated sum. */
  function Times(n: nat, m: int): int {
    if n == 0 then 0 else m + Times(n - 1, m)
  }

  lemma {:induction false} TimesSign(n: nat, m: int)
    ensures m <= 0 ==> Times(n, m) <= 0
  {
    if n > 0 {
      TimesSign(n - 1, m);
    }
  }

  /** Values bounded by `m`, one of them strictly, add up to less than `n * m`. */
  lemma {:induction false} SumBelowTimes(xs: seq<int>, m: int, i: nat)
    requires forall k :: 0 <= k < |xs| ==> xs[k] <= m
    requires i < |xs| && xs[i] < m
    ensures Sum(xs) < Times(|xs|, m)
  {
    if i > 0 {
      assert forall k :: 0 <= k < |xs| - 1 ==> xs[1..][k] == xs[k + 1];
      SumBelowTimes(xs[1..], m, i - 1);
    } else {
      SumAtMostTimes(xs[1..], m);
    }
  }

  lemma {:induction false} SumAtMostTimes(xs: seq<int>, m: int)
    requires forall k :: 0 <= k < |xs| ==> xs[k] <= m
    ensures Sum(xs) <= Times(|xs|, m)
  {
    if |xs| > 0 {
      assert forall k :: 0 <= k < |xs| - 1 ==> xs[1..][k] == xs[k + 1];
      SumAtMostTimes(xs[1..], m);
    }
  }

  /** The head-to-head tiebreaker only decides a group whose leader came out
      ahead: since the totals add up to zero and are not all equal, the
      member it puts first has a positive total. */
  lemma HeadToHeadLeaderAhead(season: Season, group: seq<Standing>, kinds: seq<string>)
    requires PhaseHeadToHead(season, group, kinds).Some?
    ensures var mids := Dedupe(StandingIds(group));
      var totals := PhaseTotals(season, mids, PhaseIds(season.phases, kinds));
      TotalAt(mids, totals, PhaseHeadToHead(season, group, kinds).value[0].memberId) > 0
  {
    var mids := Dedupe(StandingIds(group));
    var totals := PhaseTotals(season, mids, PhaseIds(season.phases, kinds));
    var v := HeadToHeadValue(mids, totals);
    var r := RankBy(group, v, MemberIdOf).value;
    assert r == PhaseHeadToHead(season, group, kinds).value;
    assert !AllTied(group, v);
    assert forall g :: 0 <= g < |group| ==> group[g].memberId in mids by {
      forall g | 0 <= g < |group| ensures group[g].memberId in mids {
        assert StandingIds(group)[g] == group[g].memberId;
      }
    }
    LeaderAhead(group, mids, totals, r);
  }

  /** With zero-sum totals over members who all appear in the group, not all
      equal, a ranking that puts the highest total first has a positive total
      first. */
  lemma LeaderAhead(group: seq<Standing>, mids: seq<MemberId>, totals: seq<int>, r: seq<Standing>)
    requires |mids| == |totals| && NoDuplicates(mids) && Sum(totals) == 0
    requires forall k :: 0 <= k < |mids| ==> mids[k] in StandingIds(group)
    requires forall g :: 0 <= g < |group| ==> group[g].memberId in mids
    requires multiset(r) == multiset(group) && |r| == |group|
    requires forall i, j :: 0 <= i < j < |r| ==> HeadToHeadValue(mids, totals)(r[i]) >= HeadToHeadValue(mids, totals)(r[j])
    requires !AllTied(group, HeadToHeadValue(mids, totals))
    ensures TotalAt(mids, totals, r[0].memberId) > 0
  {
    var v := HeadToHeadValue(mids, totals);
    var a, b :| 0 <= a < |group| && 0 <= b < |group| && v(group[a]) != v(group[b]);
    // Every total belongs to a member of the group, so none exceeds the leader's.
    forall k | 0 <= k < |totals| ensures totals[k] <= v(r[0]) {
      var g :| 0 <= g < |group| && StandingIds(group)[g] == mids[k];
      assert group[g] in multiset(r);
      var p :| 0 <= p < |r| && r[p] == group[g];
      TotalAtPosition(mids, totals, k);
      assert v(r[p]) == totals[k];
    }
    var ka := PositionOf(mids, group[a].memberId);
    var kb := PositionOf(mids, group[b].memberId);
    TotalAtPosition(mids, totals, ka);
    TotalAtPosition(mids, totals, kb);
    var low := if totals[ka] < totals[kb] then ka else kb;
    SumBelowTimes(totals, v(r[0]), low);
    TimesSign(|totals|, v(r[0]));
  }

  /** The position of a member in the de-duplicated id list. */
  function PositionOf(mids: seq<MemberId>, m: MemberId): (k: nat)
    requires m in mids
    ensures k < |mids| && mids[k] == m
  {
    if mids[0] == m then 0 else 1 + PositionOf(mids[1..], m)
  }

  /** `_tb_season_playoff_head_to_head`. */
  function PlayoffHeadToHead(season: Season, group: seq<Standing>): Option<seq<Standing>> {
    PhaseHeadToHead(season, group, PrimaryKinds)
  }

  /** `_tb_season_segment_postseason_head_to_head`. */
  function SegmentHeadToHead(season: Season, group: seq<Standing>): Option<seq<Standing>> {
    PhaseHeadToHead(season, group, SegmentKinds)
  }

  // ---------- tiebreaker 5: latest non-tied week ----------

  /** Row `i` is the last row of member `m` in the week. */
  predicate LastRowOf(scores: seq<ScoreRow>, weekId: int, m: MemberId, i: nat) {
    i < |scores| && scores[i].weekId == weekId && scores[i].memberId == m &&
    forall j :: i < j < |scores| ==> !(scores[j].weekId == weekId && scores[j].memberId == m)
  }

  /** `{memberId: rank}` over the week's rows: the last row of a member wins. */
  function RankIn(scores: seq<ScoreRow>, weekId: int, m: MemberId): (r: Option<int>)
    ensures r.Some? <==> exists i :: 0 <= i < |scores| && scores[i].weekId == weekId && scores[i].memberId == m
    ensures r.Some? ==> exists i :: 0 <= i < |scores| && LastRowOf(scores, weekId, m, i) && scores[i].rank == r.value
  {
    if |scores| == 0 then None
    else
      var last := scores[|scores| - 1];
      var prefix := scores[..|scores| - 1];
      assert forall i :: 0 <= i < |prefix| ==> prefix[i] == scores[i];
      if last.weekId == weekId && last.memberId == m then Some(last.rank)
      else RankIn(prefix, weekId, m)
  }

  /** Week `weekId` separates the group: two of its members have rows with
      different ranks. */
  predicate Decides(scores: seq<ScoreRow>, weekId: int, group: seq<Standing>) {
    exists a, b :: 0 <= a < |group| && 0 <= b < |group| &&
      RankIn(scores, weekId, group[a].memberId).Some? && RankIn(scores, weekId, group[b].memberId).Some? &&
      RankIn(scores, weekId, group[a].memberId).value != RankIn(scores, weekId, group[b].memberId).value
  }

  /** Week `k` decides and no later week does. */
  predicate LatestDecider(weeks: seq<Week>, scores: seq<ScoreRow>, group: seq<Standing>, k: nat) {
    k < |weeks| && Decides(scores, weeks[k].id, group) &&
    forall j :: 0 <= j < |weeks| && weeks[j].number > weeks[k].number ==> !Decides(scores, weeks[j].id, group)
  }

  predicate OrderedBy(xs: seq<Standing>, v: Standing -> int) {
    forall a, b :: 0 <= a < b < |xs| ==> v(xs[a]) <= v(xs[b])
  }

  /** `ORDER BY "weekNumber" DESC`. */
  function Latest(w: Week): Key {
    Key(-(w.number as real), 0.0, w.id)
  }

  /** The first of the weeks from `i` on that decides. */
  function FirstDeciding(weeks: seq<Week>, scores: seq<ScoreRow>, group: seq<Standing>, i: nat): (r: Option<nat>)
    requires i <= |weeks|
    ensures r.None? <==> forall k :: i <= k < |weeks| ==> !Decides(scores, weeks[k].id, group)
    ensures r.Some? ==> i <= r.value < |weeks| && Decides(scores, weeks[r.value].id, group)
    ensures r.Some? ==> forall k :: i <= k < r.value ==> !Decides(scores, weeks[k].id, group)
    decreases |weeks| - i
  {
    if i == |weeks| then None
    else if Decides(scores, weeks[i].id, group) then Some(i)
    else FirstDeciding(weeks, scores, group, i + 1)
  }

  function WeekRank(scores: seq<ScoreRow>, weekId: int): Standing -> int {
    (s: Standing) => RankIn(scores, weekId, s.memberId).GetOr(9999)
  }

  /** `_tb_season_latest_non_tied_week`: walking from the latest week back,
      the group ordered by its ranks in the first week that separates it
      (a member without a row counts as rank 9999). */
  function LatestNonTiedWeek(weeks: seq<Week>, scores: seq<ScoreRow>, group: seq<Standing>): (r: Option<seq<Standing>>)
    ensures r.None? <==> forall k :: 0 <= k < |weeks| ==> !Decides(scores, weeks[k].id, group)
    ensures r.Some? ==> multiset(r.value) == multiset(group) && |r.value| == |group|
    ensures r.Some? ==>
      exists k :: 0 <= k < |weeks| && LatestDecider(weeks, scores, group, k) && OrderedBy(r.value, WeekRank(scores, weeks[k].id)) &&
                  RankedUpBy(r.value, WeekRank(scores, weeks[k].id), MemberIdOf)
  {
    var ordered := SortBy(weeks, Latest);
    match FirstDeciding(ordered, scores, group, 0)
    case None =>
      NoDecidingWeek(weeks, ordered, scores, group);
      None
    case Some(d) =>
      OrderedLatestDecider(weeks, ordered, scores, group, d);
      SortedByWeekRank(group, scores, ordered[d].id);
      Some(SortBy(group, Ascending(WeekRank(scores, ordered[d].id), MemberIdOf)))
  }

  lemma NoDecidingWeek(weeks: seq<Week>, ordered: seq<Week>, scores: seq<ScoreRow>, group: seq<Standing>)
    requires ordered == SortBy(weeks, Latest)
    requires FirstDeciding(ordered, scores, group, 0).None?
    ensures forall k :: 0 <= k < |weeks| ==> !Decides(scores, weeks[k].id, group)
  {
    forall k | 0 <= k < |weeks| ensures !Decides(scores, weeks[k].id, group) {
      assert weeks[k] in multiset(ordered);
      var j :| 0 <= j < |ordered| && ordered[j] == weeks[k];
    }
  }

  lemma OrderedLatestDecider(weeks: seq<Week>, ordered: seq<Week>, scores: seq<ScoreRow>, group: seq<Standing>, d: nat)
    ensures ordered == SortBy(weeks, Latest) && FirstDeciding(ordered, scores, group, 0) == Some(d) ==>
      exists k :: 0 <= k < |weeks| && weeks[k] == ordered[d] && LatestDecider(weeks, scores, group, k)
  {
    if ordered == SortBy(weeks, Latest) && FirstDeciding(ordered, scores, group, 0) == Some(d) {
      LatestDecidingWeek(weeks, ordered, scores, group, d);
      var k :| 0 <= k < |weeks| && weeks[k] == ordered[d];
      assert LatestDecider(weeks, scores, group, k);
    }
  }

  /** Sorting by `(rank, id)` orders the group by rank. */
  lemma SortedByWeekRank(group: seq<Standing>, scores: seq<ScoreRow>, weekId: int)
    ensures OrderedBy(SortBy(group, Ascending(WeekRank(scores, weekId), MemberIdOf)), WeekRank(scores, weekId))
    ensures RankedUpBy(SortBy(group, Ascending(WeekRank(scores, weekId), MemberIdOf)), WeekRank(scores, weekId), MemberIdOf)
  {
    var key := Ascending(WeekRank(scores, weekId), MemberIdOf);
    var sorted := SortBy(group, key);
    forall a, b | 0 <= a < b < |sorted|
      ensures WeekRank(scores, weekId)(sorted[a]) <= WeekRank(scores, weekId)(sorted[b])
    {
      assert KeyLe(key(sorted[a]), key(sorted[b]));
    }
  }

  /** The first deciding week of the latest-first order is a deciding week
      with no later deciding week. */
  lemma LatestDecidingWeek(weeks: seq<Week>, ordered: seq<Week>, scores: seq<ScoreRow>, group: seq<Standing>, d: nat)
    ensures ordered == SortBy(weeks, Latest) && FirstDeciding(ordered, scores, group, 0) == Some(d) ==> exists k :: 0 <= k < |weeks| && weeks[k] == ordered[d]
    ensures ordered == SortBy(weeks, Latest) && FirstDeciding(ordered, scores, group, 0) == Some(d) ==>
      forall j :: 0 <= j < |weeks| && weeks[j].number > ordered[d].number ==> !Decides(scores, weeks[j].id, group)
  {
    if ordered == SortBy(weeks, Latest) && FirstDeciding(ordered, scores, group, 0) == Some(d) {
      var at := PermutedAt(ordered, weeks, d);
      LatestFirst(weeks, ordered);
      forall j | 0 <= j < |weeks| && weeks[j].number > ordered[d].number
        ensures !Decides(scores, weeks[j].id, group)
      {
        var k := PermutedAt(weeks, ordered, j);
        LaterComesFirst(ordered, d, k);
      }
    }
  }

  /** In a latest-first order, a later week comes before. */
  lemma LaterComesFirst(ordered: seq<Week>, d: nat, k: nat)
    requires forall a, b :: 0 <= a < b < |ordered| ==> ordered[a].number >= ordered[b].number
    requires d < |ordered| && k < |ordered| && ordered[k].number > ordered[d].number
    ensures k < d
  {
  }

  /** `ORDER BY "weekNumber" DESC` puts the weeks latest first. */
  lemma LatestFirst(weeks: seq<Week>, ordered: seq<Week>)
    requires ordered == SortBy(weeks, Latest)
    ensures forall a, b :: 0 <= a < b < |ordered| ==> ordered[a].number >= ordered[b].number
  {
    forall a, b | 0 <= a < b < |ordered| ensures ordered[a].number >= ordered[b].number {
      assert KeyLe(Latest(ordered[a]), Latest(ordered[b]));
    }
  }

  // ---------- the cascade ----------

  /** `_resolve_season_ties`: the first tiebreaker with a verdict decides;
      a group no tiebreaker separates keeps its order. */
  function ResolveSeason(league: League, group: seq<Standing>): (r: seq<Standing>)
    ensures multiset(r) == multiset(group) && |r| == |group|
  {
    var season := league.season;
    var depth := PlayoffDepthTiebreak(season, group);
    if depth.Some? then depth.value
    else
      var champions := SegmentChampionsTiebreak(season, group);
      if champions.Some? then champions.value
      else
        var playoff := PlayoffHeadToHead(season, group);
        if playoff.Some? then playoff.value
        else
          var segment := SegmentHeadToHead(season, group);
          if segment.Some? then segment.value
          else
            var latest := LatestNonTiedWeek(league.weeks, league.scores, group);
            if latest.Some? then latest.value else group
  }

  function Resolver(league: League): seq<Standing> -> seq<Standing> {
    g => ResolveSeason(league, g)
  }

  lemma ResolverPermutes(league: League)
    ensures Permutes(Resolver(league))
  {
    forall g: seq<Standing> ensures multiset(Resolver(league)(g)) == multiset(g) {
    }
  }

  // ---------- the standings ----------

  /** `COALESCE(SUM(pointsAwarded), 0)` over the member's weekly rows. */
  function WeeklyPoints(scores: seq<ScoreRow>, m: MemberId): int {
    if |scores| == 0 then 0
    else (if scores[0].memberId == m then scores[0].pointsAwarded else 0) + WeeklyPoints(scores[1..], m)
  }

  function MemberIds(members: seq<WeeklyScoring.Member>): (r: seq<MemberId>)
    ensures |r| == |members| && forall k :: 0 <= k < |members| ==> r[k] == members[k].id
  {
    seq(|members|, k requires 0 <= k < |members| => members[k].id)
  }

  /** `row` is the standings row of `m`: the member's weekly points, bonus
      points and their sum. */
  predicate RowFor(league: League, m: WeeklyScoring.Member, row: Standing) {
    row.memberId == m.id && row.teamName == m.teamName &&
    row.weeklyPoints == WeeklyPoints(league.scores, m.id) &&
    row.bonusPoints == Gain(league.season, MemberIds(league.members), league.bonuses, m.id) &&
    row.totalPoints == row.weeklyPoints as real + row.bonusPoints
  }

  /** The standings rows before ordering: weekly points, bonus points and
      their sum for every member. */
  function Rows(league: League): (r: seq<Standing>)
    ensures |r| == |league.members|
    ensures forall k :: 0 <= k < |r| ==> RowFor(league, league.members[k], r[k])
  {
    var ids := MemberIds(league.members);
    var bonus := ComputeBonusPoints(league.season, ids, league.bonuses);
    seq(|league.members|, k requires 0 <= k < |league.members| =>
      var m := league.members[k];
      var weekly := WeeklyPoints(league.scores, m.id);
      assert ids[k] == m.id;
      Standing(m.id, m.teamName, weekly, bonus[m.id], weekly as real + bonus[m.id]))
  }

  /** The initial sort `(-total, -weekly, memberId)`. */
  function StandingKey(s: Standing): Key {
    Key(-s.totalPoints, -(s.weeklyPoints as real), s.memberId)
  }

  function TotalScore(s: Standing): real {
    s.totalPoints
  }

  /** `compute_end_of_year_season_standings`. */
  function ComputeSeasonStandings(league: League): (r: seq<Standing>)
    ensures |r| == |league.members|
  {
    var sorted := SortBy(Rows(league), StandingKey);
    ResolverPermutes(league);
    WalkPermutes(sorted, TotalScore, Resolver(league), 0);
    ApplyTiebreakers(sorted, TotalScore, Resolver(league))
  }

  /** Two members tie on the total. */
  predicate HasTie(rows: seq<Standing>) {
    exists i, j :: 0 <= i < j < |rows| && rows[i].totalPoints == rows[j].totalPoints
  }

  /** `compute_end_of_year_season_standings` when the league's `SportSeason`
      row may be missing (`found` is false).  The bonuses look the row up
      when a configured code has a handler, and the first season tiebreaker
      looks it up for the first group of neighbours tied on the total; either
      raises `ValueError` without it.  So the run fails exactly when the row
      is missing and a handled bonus is configured or two members tie. */
  function SeasonStandingsFor(found: bool, league: League): (r: Option<seq<Standing>>)
    ensures r.None? <==> !found && (HandledBonus(league.bonuses) || HasTie(Rows(league)))
    ensures r.Some? ==> r.value == ComputeSeasonStandings(league)
  {
    if ComputeBonusPointsFor(found, league.season, MemberIds(league.members), league.bonuses).None? then None
    else if found then Some(ComputeSeasonStandings(league))
    else
      var sorted := SortBy(Rows(league), StandingKey);
      TieAdjacent(sorted);
      TiePermutes(sorted, Rows(league));
      TiePermutes(Rows(league), sorted);
      if exists i :: 0 <= i < |sorted| - 1 && sorted[i].totalPoints == sorted[i + 1].totalPoints then None
      else Some(ComputeSeasonStandings(league))
  }

  /** In an order by descending total, a tie shows between neighbours. */
  lemma TieAdjacent(sorted: seq<Standing>)
    requires SortedBy(sorted, StandingKey)
    ensures HasTie(sorted) <==> exists i :: 0 <= i < |sorted| - 1 && sorted[i].totalPoints == sorted[i + 1].totalPoints
  {
    if HasTie(sorted) {
      var i, j :| 0 <= i < j < |sorted| && sorted[i].totalPoints == sorted[j].totalPoints;
      assert KeyLe(StandingKey(sorted[i]), StandingKey(sorted[i + 1]));
      if i + 1 < j {
        assert KeyLe(StandingKey(sorted[i + 1]), StandingKey(sorted[j]));
      }
      assert sorted[i].totalPoints == sorted[i + 1].totalPoints;
    }
  }

  /** Reordering the rows keeps a tie. */
  lemma TiePermutes(s: seq<Standing>, t: seq<Standing>)
    requires multiset(s) == multiset(t)
    ensures HasTie(s) ==> HasTie(t)
  {
    if HasTie(s) {
      var i, j :| 0 <= i < j < |s| && s[i].totalPoints == s[j].totalPoints;
      var a, b := s[i], s[j];
      if a != b {
        assert a in multiset(t) && b in multiset(t);
        var p :| 0 <= p < |t| && t[p] == a;
        var q :| 0 <= q < |t| && t[q] == b;
        if p < q {
          assert t[p].totalPoints == t[q].totalPoints;
        } else {
          assert t[q].totalPoints == t[p].totalPoints;
        }
      } else {
        TwiceIn(s, i, j);
        var p, q := TwoPositions(t, a);
        assert t[p].totalPoints == t[q].totalPoints;
      }
    }
  }

  /** An element at two positions occurs at least twice. */
  lemma TwiceIn<T>(s: seq<T>, i: int, j: int)
    requires 0 <= i < j < |s| && s[i] == s[j]
    ensures multiset(s)[s[i]] >= 2
  {
    assert s == s[..j] + [s[j]] + s[j + 1..];
    assert s[..j][i] == s[i];
  }

  /** An element occurring at least twice sits at two positions. */
  lemma TwoPositions<T>(t: seq<T>, a: T) returns (p: int, q: int)
    requires multiset(t)[a] >= 2
    ensures 0 <= p < q < |t| && t[p] == a && t[q] == a
  {
    assert a in multiset(t);
    var k :| 0 <= k < |t| && t[k] == a;
    assert t == t[..k] + [a] + t[k + 1..];
    assert multiset(t[..k] + t[k + 1..])[a] >= 1;
    if a in t[..k] {
      var m :| 0 <= m < k && t[..k][m] == a;
      p, q := m, k;
    } else {
      assert a in multiset(t[k + 1..]);
      var m :| 0 <= m < |t[k + 1..]| && t[k + 1..][m] == a;
      p, q := k, k + 1 + m;
    }
  }

  /** The standings are a reordering of the rows in non-increasing order of
      total; the tiebreakers only reorder members tied on the total. */
  lemma SeasonStandingsOrdered(league: League)
    ensures var r := ComputeSeasonStandings(league);
      multiset(r) == multiset(Rows(league)) &&
      forall i, j :: 0 <= i < j < |r| ==> r[i].totalPoints >= r[j].totalPoints
  {
    var sorted := SortBy(Rows(league), StandingKey);
    ResolverPermutes(league);
    TiebreakersPermuteWithinGroups(sorted, TotalScore, Resolver(league));
    var r := ComputeSeasonStandings(league);
    forall i, j | 0 <= i < j < |r| ensures r[i].totalPoints >= r[j].totalPoints {
      assert TotalScore(r[i]) == TotalScore(sorted[i]) && TotalScore(r[j]) == TotalScore(sorted[j]);
      assert KeyLe(StandingKey(sorted[i]), StandingKey(sorted[j]));
    }
  }

  /** Every member's row (see `Rows`: weekly points, bonus points, and their
      sum as the total) is in the standings, and nothing else is. */
  lemma SeasonStandingsRows(league: League)
    ensures var r := ComputeSeasonStandings(league);
      var rows := Rows(league);
      (forall k :: 0 <= k < |rows| ==> rows[k] in r) && (forall i :: 0 <= i < |r| ==> r[i] in rows)
  {
    SeasonStandingsOrdered(league);
    SameElements(Rows(league), ComputeSeasonStandings(league));
  }

  lemma SameElements(xs: seq<Standing>, ys: seq<Standing>)
    requires multiset(xs) == multiset(ys)
    ensures forall k :: 0 <= k < |xs| ==> xs[k] in ys
    ensures forall i :: 0 <= i < |ys| ==> ys[i] in xs
  {
    forall k | 0 <= k < |xs| ensures xs[k] in ys {
      var at := PermutedAt(xs, ys, k);
    }
    forall i | 0 <= i < |ys| ensures ys[i] in xs {
      var at := PermutedAt(ys, xs, i);
    }
  }
}
