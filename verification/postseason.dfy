/** What season standings read about the postseason: the phases of the
    primary and segment tournaments, how deep a member's teams went, which
    teams won a segment tournament, and the margins in segment games.  A
    member's teams here are all the teams they ever held, in any week. */
module Postseason {
  import opened Wrappers
  import opened Ownership
  import opened Games
  import opened Tally

  /** A `SeasonPhase` row. */
  datatype Phase = Phase(id: PhaseId, kind: string)

  /** What the season-end queries read: the sport season's phases and games,
      and the league's roster slots. */
  datatype Season = Season(phases: seq<Phase>, games: seq<GameResult>, slots: seq<Slot>)

  /** `PRIMARY_POSTSEASON_PHASE_TYPES`. */
  const PrimaryKinds: seq<string> := ["NationalTournament", "PrimaryPlayoffs"]

  /** `SEGMENT_POSTSEASON_PHASE_TYPES`. */
  const SegmentKinds: seq<string> := ["ConferenceTournament", "SegmentPlayoffs"]

  /** `SELECT id FROM SeasonPhase WHERE type = ANY(:kinds)`, in table order. */
  function PhaseIds(phases: seq<Phase>, kinds: seq<string>): (r: seq<PhaseId>)
    ensures forall p :: p in r <==> exists i :: 0 <= i < |phases| && phases[i].id == p && phases[i].kind in kinds
  {
    if |phases| == 0 then []
    else
      var rest := PhaseIds(phases[1..], kinds);
      assert forall i :: 1 <= i < |phases| ==> phases[i] == phases[1..][i - 1];
      if phases[0].kind in kinds then [phases[0].id] + rest else rest
  }

  /** `_get_member_owned_team_ids`: every team the member held in any week. */
  function EverOwned(slots: seq<Slot>, member: MemberId): (r: set<TeamId>)
    ensures forall t :: t in r <==> exists i :: 0 <= i < |slots| && slots[i].member == member && slots[i].team == t
  {
    set i | 0 <= i < |slots| && slots[i].member == member :: slots[i].team
  }

  predicate InPhases(g: GameResult, phaseIds: seq<PhaseId>) {
    g.phase.Some? && g.phase.value in phaseIds
  }

  predicate SideIn(side: Option<TeamId>, teams: set<TeamId>) {
    side.Some? && side.value in teams
  }

  /** A game of the phases, with a round number, involving one of `teams`. */
  predicate DeepGame(g: GameResult, phaseIds: seq<PhaseId>, teams: set<TeamId>) {
    InPhases(g, phaseIds) && g.roundOrder.Some? && (SideIn(g.home, teams) || SideIn(g.away, teams))
  }

  /** `MAX(roundOrder)` over the deep games; `None` when there are none. */
  function MaxRound(games: seq<GameResult>, phaseIds: seq<PhaseId>, teams: set<TeamId>): (r: Option<int>)
    ensures r.None? <==> forall i :: 0 <= i < |games| ==> !DeepGame(games[i], phaseIds, teams)
    ensures r.Some? ==> forall i :: 0 <= i < |games| && DeepGame(games[i], phaseIds, teams) ==> games[i].roundOrder.value <= r.value
    ensures r.Some? ==> exists i :: 0 <= i < |games| && DeepGame(games[i], phaseIds, teams) && games[i].roundOrder.value == r.value
  {
    if |games| == 0 then None
    else
      var rest := MaxRound(games[1..], phaseIds, teams);
      assert forall i :: 1 <= i < |games| ==> games[i] == games[1..][i - 1];
      var g := games[0];
      if !DeepGame(g, phaseIds, teams) then rest
      else if rest.None? || g.roundOrder.value >= rest.value then g.roundOrder
      else rest
  }

  /** A member's playoff depth: `COALESCE(MAX(roundOrder), 0)` over the
      games of their teams, and 0 for a member without teams. */
  function Depth(games: seq<GameResult>, phaseIds: seq<PhaseId>, teams: set<TeamId>): (r: int)
    ensures teams == {} ==> r == 0
    ensures forall i :: 0 <= i < |games| && DeepGame(games[i], phaseIds, teams) ==> games[i].roundOrder.value <= r
    ensures r != 0 ==> exists i :: 0 <= i < |games| && DeepGame(games[i], phaseIds, teams) && games[i].roundOrder.value == r
  {
    if teams == {} then 0 else MaxRound(games, phaseIds, teams).GetOr(0)
  }

  /** A member's depth in the primary postseason, as both the tiebreaker and
      the bonus read it: 0 when the season has no primary phase. */
  function DepthOf(season: Season, member: MemberId): int {
    var ids := PhaseIds(season.phases, PrimaryKinds);
    if |ids| == 0 then 0 else Depth(season.games, ids, EverOwned(season.slots, member))
  }

  /** The round of a phase's final: `MAX(roundOrder)` over its games. */
  function FinalRound(games: seq<GameResult>, pid: PhaseId): (r: Option<int>)
    ensures r.None? <==> forall i :: 0 <= i < |games| ==> !(games[i].phase == Some(pid) && games[i].roundOrder.Some?)
    ensures r.Some? ==> forall i :: 0 <= i < |games| && games[i].phase == Some(pid) && games[i].roundOrder.Some? ==>
      games[i].roundOrder.value <= r.value
    ensures r.Some? ==> exists i :: 0 <= i < |games| && games[i].phase == Some(pid) && games[i].roundOrder == r
  {
    if |games| == 0 then None
    else
      var rest := FinalRound(games[1..], pid);
      assert forall i :: 1 <= i < |games| ==> games[i] == games[1..][i - 1];
      var g := games[0];
      if !(g.phase == Some(pid) && g.roundOrder.Some?) then rest
      else if rest.None? || g.roundOrder.value >= rest.value then g.roundOrder
      else rest
  }

  /** The first game of the phase in round `round`. */
  function FirstInRound(games: seq<GameResult>, pid: PhaseId, round: int): (r: Option<GameResult>)
    ensures r.Some? ==> r.value in games && r.value.phase == Some(pid) && r.value.roundOrder == Some(round)
    ensures r.None? ==> forall i :: 0 <= i < |games| ==> !(games[i].phase == Some(pid) && games[i].roundOrder == Some(round))
  {
    if |games| == 0 then None
    else if games[0].phase == Some(pid) && games[0].roundOrder == Some(round) then Some(games[0])
    else
      var r := FirstInRound(games[1..], pid, round);
      assert forall i :: 1 <= i < |games| ==> games[i] == games[1..][i - 1];
      r
  }

  /** The final of a segment phase: a game in the phase's last round (`LIMIT 1`
      without an order; the model takes the first in table order). */
  function FinalGame(games: seq<GameResult>, pid: PhaseId): (r: Option<GameResult>)
    ensures r.Some? ==> r.value in games && r.value.phase == Some(pid) && r.value.roundOrder.Some?
    ensures r.Some? ==> forall g :: g in games && g.phase == Some(pid) && g.roundOrder.Some? ==>
      g.roundOrder.value <= r.value.roundOrder.value
    ensures r.None? <==> forall g :: g in games ==> !(g.phase == Some(pid) && g.roundOrder.Some?)
  {
    match FinalRound(games, pid)
    case None => None
    case Some(round) =>
      var f := FirstInRound(games, pid, round);
      assert f.Some? by {
        var i :| 0 <= i < |games| && games[i].phase == Some(pid) && games[i].roundOrder == Some(round);
      }
      f
  }

  /** The winning side of a game; a draw has no winner. */
  function Winner(g: GameResult): Option<TeamId> {
    if g.homeScore > g.awayScore then g.home
    else if g.awayScore > g.homeScore then g.away
    else None
  }

  /** Team `t` won the final of phase `pid`. */
  predicate WonPhase(games: seq<GameResult>, pid: PhaseId, t: TeamId) {
    var f := FinalGame(games, pid);
    f.Some? && Winner(f.value) == Some(t)
  }

  /** The champions of the segment tournaments (`_tb_season_num_segment_champs`). */
  function Champions(games: seq<GameResult>, phaseIds: seq<PhaseId>): (r: set<TeamId>)
    ensures forall t :: t in r <==> exists i :: 0 <= i < |phaseIds| && WonPhase(games, phaseIds[i], t)
  {
    if |phaseIds| == 0 then {}
    else
      var rest := Champions(games, phaseIds[1..]);
      assert forall i :: 1 <= i < |phaseIds| ==> phaseIds[i] == phaseIds[1..][i - 1];
      var f := FinalGame(games, phaseIds[0]);
      if f.Some? && Winner(f.value).Some? then rest + {Winner(f.value).value} else rest
  }

  /** `team_to_member`: of the given members, the last one in the list who
      ever held the team. */
  function OwnerOf(slots: seq<Slot>, memberIds: seq<MemberId>, team: TeamId): (r: Option<MemberId>)
    ensures r.Some? ==> r.value in memberIds && team in EverOwned(slots, r.value)
    ensures r.None? <==> forall i :: 0 <= i < |memberIds| ==> team !in EverOwned(slots, memberIds[i])
    ensures r.Some? ==> forall i :: 0 <= i < |memberIds| && memberIds[i] != r.value ==>
      team in EverOwned(slots, memberIds[i]) ==> exists j :: i < j < |memberIds| && memberIds[j] == r.value
  {
    if |memberIds| == 0 then None
    else
      var last := memberIds[|memberIds| - 1];
      var prefix := memberIds[..|memberIds| - 1];
      assert forall i :: 0 <= i < |prefix| ==> prefix[i] == memberIds[i];
      if team in EverOwned(slots, last) then Some(last) else OwnerOf(slots, prefix, team)
  }

  /** The final of segment phase `pid` had both teams known and a winner
      that maps to `member`. */
  predicate WonFinal(slots: seq<Slot>, memberIds: seq<MemberId>, games: seq<GameResult>, pid: PhaseId, member: MemberId) {
    var f := FinalGame(games, pid);
    f.Some? && f.value.home.Some? && f.value.away.Some? && Winner(f.value).Some? &&
    OwnerOf(slots, memberIds, Winner(f.value).value) == Some(member)
  }

  /** `_get_segment_champ_counts_by_member`: how many segment finals `member` won. */
  function ChampionCount(slots: seq<Slot>, memberIds: seq<MemberId>, games: seq<GameResult>,
                         phaseIds: seq<PhaseId>, member: MemberId): (r: nat)
    ensures r <= |phaseIds|
    ensures r == 0 <==> forall i :: 0 <= i < |phaseIds| ==> !WonFinal(slots, memberIds, games, phaseIds[i], member)
    ensures r > 0 ==> member in memberIds
  {
    if |phaseIds| == 0 then 0
    else
      var rest := ChampionCount(slots, memberIds, games, phaseIds[1..], member);
      assert forall i :: 1 <= i < |phaseIds| ==> phaseIds[i] == phaseIds[1..][i - 1];
      (if WonFinal(slots, memberIds, games, phaseIds[0], member) then 1 else 0) + rest
  }

  /** A game `_get_segment_pd_by_member` reads: in the phases, both teams known. */
  predicate SegmentGame(g: GameResult, phaseIds: seq<PhaseId>) {
    InPhases(g, phaseIds) && g.home.Some? && g.away.Some?
  }

  /** What one segment game adds to `member`: the home margin if the home
      team maps to them, the away margin if the away team does. */
  function SegmentMargin(slots: seq<Slot>, memberIds: seq<MemberId>, g: GameResult, member: MemberId): int
    requires g.home.Some? && g.away.Some?
  {
    (if OwnerOf(slots, memberIds, g.home.value) == Some(member) then g.homeScore - g.awayScore else 0) +
    (if OwnerOf(slots, memberIds, g.away.value) == Some(member) then g.awayScore - g.homeScore else 0)
  }

  /** `_get_segment_pd_by_member`: the member's margin over every segment game. */
  function SegmentPd(slots: seq<Slot>, memberIds: seq<MemberId>, games: seq<GameResult>,
                     phaseIds: seq<PhaseId>, member: MemberId): int
  {
    if |games| == 0 then 0
    else
      (if SegmentGame(games[0], phaseIds) then SegmentMargin(slots, memberIds, games[0], member) else 0) +
      SegmentPd(slots, memberIds, games[1..], phaseIds, member)
  }

  /** What one game adds to the members `ms` together. */
  function GameShare(slots: seq<Slot>, memberIds: seq<MemberId>, g: GameResult, ms: seq<MemberId>): int
    requires g.home.Some? && g.away.Some?
  {
    if |ms| == 0 then 0 else SegmentMargin(slots, memberIds, g, ms[0]) + GameShare(slots, memberIds, g, ms[1..])
  }

  /** The segment margins of the members `ms` added up. */
  function TotalPd(slots: seq<Slot>, memberIds: seq<MemberId>, games: seq<GameResult>,
                   phaseIds: seq<PhaseId>, ms: seq<MemberId>): int
  {
    if |ms| == 0 then 0
    else SegmentPd(slots, memberIds, games, phaseIds, ms[0]) + TotalPd(slots, memberIds, games, phaseIds, ms[1..])
  }

  /** Distinct members together receive each side's margin once if its team
      maps to one of them. */
  lemma {:induction false} GameShareOwners(slots: seq<Slot>, memberIds: seq<MemberId>, g: GameResult, ms: seq<MemberId>)
    requires g.home.Some? && g.away.Some? && NoDuplicates(ms)
    ensures var home := OwnerOf(slots, memberIds, g.home.value);
      var away := OwnerOf(slots, memberIds, g.away.value);
      GameShare(slots, memberIds, g, ms) ==
        (if home.Some? && home.value in ms then g.homeScore - g.awayScore else 0) +
        (if away.Some? && away.value in ms then g.awayScore - g.homeScore else 0)
  {
    if |ms| > 0 {
      assert NoDuplicates(ms[1..]) by {
        forall i, j | 0 <= i < j < |ms[1..]| ensures ms[1..][i] != ms[1..][j] {
          assert ms[1..][i] == ms[i + 1] && ms[1..][j] == ms[j + 1];
        }
      }
      GameShareOwners(slots, memberIds, g, ms[1..]);
      assert ms[0] !in ms[1..] by {
        forall k | 0 <= k < |ms[1..]| ensures ms[1..][k] != ms[0] {
          assert ms[1..][k] == ms[k + 1];
        }
      }
      assert forall x :: x in ms <==> x == ms[0] || x in ms[1..] by {
        assert ms == [ms[0]] + ms[1..];
      }
    }
  }

  lemma {:induction false} TotalPdSplit(slots: seq<Slot>, memberIds: seq<MemberId>, games: seq<GameResult>,
                                        phaseIds: seq<PhaseId>, ms: seq<MemberId>)
    requires |games| > 0
    ensures TotalPd(slots, memberIds, games, phaseIds, ms) ==
      (if SegmentGame(games[0], phaseIds) then GameShare(slots, memberIds, games[0], ms) else 0) +
      TotalPd(slots, memberIds, games[1..], phaseIds, ms)
  {
    if |ms| > 0 {
      TotalPdSplit(slots, memberIds, games, phaseIds, ms[1..]);
    }
  }

  /** Segment margins are zero-sum over the league's members when every team
      in a segment game maps to a member: each game adds to one owner what it
      takes from the other. */
  lemma {:induction false} SegmentPdZeroSum(slots: seq<Slot>, memberIds: seq<MemberId>, games: seq<GameResult>,
                                            phaseIds: seq<PhaseId>)
    requires NoDuplicates(memberIds)
    requires forall i :: 0 <= i < |games| && SegmentGame(games[i], phaseIds) ==>
      OwnerOf(slots, memberIds, games[i].home.value).Some? && OwnerOf(slots, memberIds, games[i].away.value).Some?
    ensures TotalPd(slots, memberIds, games, phaseIds, memberIds) == 0
  {
    if |games| > 0 {
      TotalPdSplit(slots, memberIds, games, phaseIds, memberIds);
      if SegmentGame(games[0], phaseIds) {
        GameShareOwners(slots, memberIds, games[0], memberIds);
      }
      assert forall i :: 0 <= i < |games| - 1 ==> games[1..][i] == games[i + 1];
      SegmentPdZeroSum(slots, memberIds, games[1..], phaseIds);
    } else {
      NoGamesNoPd(slots, memberIds, games, phaseIds, memberIds);
    }
  }

  lemma {:induction false} NoGamesNoPd(slots: seq<Slot>, memberIds: seq<MemberId>, games: seq<GameResult>,
                                       phaseIds: seq<PhaseId>, ms: seq<MemberId>)
    requires |games| == 0
    ensures TotalPd(slots, memberIds, games, phaseIds, ms) == 0
  {
    if |ms| > 0 {
      NoGamesNoPd(slots, memberIds, games, phaseIds, ms[1..]);
    }
  }
}
