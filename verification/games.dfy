/** The global `GameResult` table and the two per-week game queries scoring
    is built on: a member's games with their `memberPointDiff`, and the games
    two members' teams played against each other.  Both see ownership through
    the window of the week being scored. */
module Games {
  import opened Wrappers
  import opened Calendar
  import opened Ownership
  import opened Weeks
  import opened Tally

  type PhaseId = int

  /** A `GameResult` row.  Team ids may be NULL; scores are integers. */
  datatype GameResult = GameResult(day: Day, home: Option<TeamId>, away: Option<TeamId>,
                                   homeScore: int, awayScore: int,
                                   phase: Option<PhaseId>, roundOrder: Option<int>)

  /** `side IN (SELECT sportTeamId FROM member_teams)` for the week's window;
      a NULL side belongs to nobody. */
  predicate OwnsSide(slots: seq<Slot>, member: MemberId, side: Option<TeamId>, w: int) {
    side.Some? && OwnsAt(slots, member, side.value, w)
  }

  /** `gr.date BETWEEN startDate AND endDate`; a week without both dates
      (week 0 has no start) matches no game. */
  predicate InWeek(g: GameResult, week: Week) {
    week.start.Some? && week.end.Some? && week.start.value <= g.day <= week.end.value
  }

  /** The `memberPointDiff` column: nothing for a member owning both sides,
      the margin from the owned side otherwise. */
  function MemberPointDiff(g: GameResult, ownsHome: bool, ownsAway: bool): int {
    if ownsHome && ownsAway then 0
    else if ownsHome then g.homeScore - g.awayScore
    else if ownsAway then g.awayScore - g.homeScore
    else 0
  }

  /** Whoever holds the home side and whoever holds the away side see the
      same game with opposite margins, and one member holding both sees 0. */
  lemma MemberPointDiffOpposite(g: GameResult)
    ensures MemberPointDiff(g, true, false) + MemberPointDiff(g, false, true) == 0
    ensures MemberPointDiff(g, true, true) == 0 && MemberPointDiff(g, false, false) == 0
  {
  }

  /** The counted game's margin for `member` in `week`. */
  function DiffIn(slots: seq<Slot>, g: GameResult, member: MemberId, w: int): int {
    MemberPointDiff(g, OwnsSide(slots, member, g.home, w), OwnsSide(slots, member, g.away, w))
  }

  /** A game counts for a member in a week when it falls in the week and the
      member owns one of its sides. */
  predicate Counts(slots: seq<Slot>, g: GameResult, member: MemberId, week: Week) {
    InWeek(g, week) &&
    (OwnsSide(slots, member, g.home, week.number) || OwnsSide(slots, member, g.away, week.number))
  }

  /** `get_member_games_for_week`, reduced to the `memberPointDiff` of each
      counted game, in table order. */
  function MemberGameDiffs(slots: seq<Slot>, games: seq<GameResult>, member: MemberId, week: Week): (r: seq<int>)
    ensures |r| <= |games|
    ensures |r| == 0 <==> forall i :: 0 <= i < |games| ==> !Counts(slots, games[i], member, week)
  {
    if |games| == 0 then []
    else
      var rest := MemberGameDiffs(slots, games[1..], member, week);
      assert forall i :: 1 <= i < |games| ==> games[i] == games[1..][i - 1];
      if Counts(slots, games[0], member, week)
      then [DiffIn(slots, games[0], member, week.number)] + rest
      else rest
  }

  /** The margin every game of the week contributes to `member`, whether the
      query selects it or not. */
  function WeekMargins(slots: seq<Slot>, games: seq<GameResult>, member: MemberId, week: Week): seq<int> {
    if |games| == 0 then []
    else
      [if InWeek(games[0], week) then DiffIn(slots, games[0], member, week.number) else 0] +
      WeekMargins(slots, games[1..], member, week)
  }

  /** `compute_member_point_diff_for_week`: summing the selected games gives
      the member's margin over every game of the week, since a game the member
      has no side in contributes nothing. */
  lemma {:induction false} PointDiffOverWeek(slots: seq<Slot>, games: seq<GameResult>, member: MemberId, week: Week)
    ensures Sum(MemberGameDiffs(slots, games, member, week)) == Sum(WeekMargins(slots, games, member, week))
  {
    if |games| > 0 {
      PointDiffOverWeek(slots, games[1..], member, week);
    }
  }

  /** A row of `get_head_to_head_games`: the scores and which sides members
      A and B hold in the week. */
  datatype HeadToHead = HeadToHead(homeScore: int, awayScore: int,
                                   homeOwnedByA: bool, awayOwnedByA: bool,
                                   homeOwnedByB: bool, awayOwnedByB: bool)

  /** A game of the week with one side held by A and the other by B. */
  predicate Meets(slots: seq<Slot>, g: GameResult, a: MemberId, b: MemberId, week: Week) {
    var w := week.number;
    InWeek(g, week) &&
    ((OwnsSide(slots, a, g.home, w) && OwnsSide(slots, b, g.away, w)) ||
     (OwnsSide(slots, b, g.home, w) && OwnsSide(slots, a, g.away, w)))
  }

  function HeadToHeadRow(slots: seq<Slot>, g: GameResult, a: MemberId, b: MemberId, w: int): HeadToHead {
    HeadToHead(g.homeScore, g.awayScore,
               OwnsSide(slots, a, g.home, w), OwnsSide(slots, a, g.away, w),
               OwnsSide(slots, b, g.home, w), OwnsSide(slots, b, g.away, w))
  }

  /** `row` is what the query returns for some game where A and B meet. */
  predicate RowOf(slots: seq<Slot>, games: seq<GameResult>, a: MemberId, b: MemberId, week: Week, row: HeadToHead) {
    exists i :: 0 <= i < |games| && Meets(slots, games[i], a, b, week) &&
      row == HeadToHeadRow(slots, games[i], a, b, week.number)
  }

  /** `get_head_to_head_games(a, b)`, in table order. */
  function HeadToHeadGames(slots: seq<Slot>, games: seq<GameResult>, a: MemberId, b: MemberId, week: Week): (r: seq<HeadToHead>)
    ensures |r| <= |games|
    ensures forall k :: 0 <= k < |r| ==> RowOf(slots, games, a, b, week, r[k])
  {
    if |games| == 0 then []
    else
      var rest := HeadToHeadGames(slots, games[1..], a, b, week);
      RowOfTail(slots, games, a, b, week, rest);
      if Meets(slots, games[0], a, b, week)
      then [HeadToHeadRow(slots, games[0], a, b, week.number)] + rest
      else rest
  }

  lemma RowOfTail(slots: seq<Slot>, games: seq<GameResult>, a: MemberId, b: MemberId, week: Week, rows: seq<HeadToHead>)
    requires |games| > 0
    requires forall k :: 0 <= k < |rows| ==> RowOf(slots, games[1..], a, b, week, rows[k])
    ensures forall k :: 0 <= k < |rows| ==> RowOf(slots, games, a, b, week, rows[k])
  {
    forall k | 0 <= k < |rows| ensures RowOf(slots, games, a, b, week, rows[k]) {
      assert RowOf(slots, games[1..], a, b, week, rows[k]);
      var i :| 0 <= i < |games[1..]| && Meets(slots, games[1..][i], a, b, week) &&
        rows[k] == HeadToHeadRow(slots, games[1..][i], a, b, week.number);
      assert games[1..][i] == games[i + 1];
    }
  }

  /** The margin one game adds to A's side (`byA`) or B's side. */
  function SidePd(g: HeadToHead, byA: bool): int {
    var home := if byA then g.homeOwnedByA else g.homeOwnedByB;
    var away := if byA then g.awayOwnedByA else g.awayOwnedByB;
    (if home then g.homeScore - g.awayScore else 0) + (if away then g.awayScore - g.homeScore else 0)
  }

  /** `a_pd` (`byA`) or `b_pd` over the games between two members. */
  function PairPd(rows: seq<HeadToHead>, byA: bool): int {
    if |rows| == 0 then 0 else SidePd(rows[0], byA) + PairPd(rows[1..], byA)
  }

  /** When no team has two owners in the week, every game between two
      different members is won by exactly what the other loses: A's and B's
      margins cancel. */
  lemma HeadToHeadCancels(slots: seq<Slot>, games: seq<GameResult>, a: MemberId, b: MemberId, week: Week)
    requires ExclusiveAt(slots, week.number) && a != b
    ensures var rows := HeadToHeadGames(slots, games, a, b, week);
      PairPd(rows, true) + PairPd(rows, false) == 0
  {
    var rows := HeadToHeadGames(slots, games, a, b, week);
    forall k | 0 <= k < |rows| ensures SidePd(rows[k], true) + SidePd(rows[k], false) == 0 {
      assert RowOf(slots, games, a, b, week, rows[k]);
      var i :| 0 <= i < |games| && Meets(slots, games[i], a, b, week) &&
        rows[k] == HeadToHeadRow(slots, games[i], a, b, week.number);
      RowCancels(slots, games[i], a, b, week);
    }
    PairPdCancels(rows);
  }

  lemma RowCancels(slots: seq<Slot>, g: GameResult, a: MemberId, b: MemberId, week: Week)
    requires ExclusiveAt(slots, week.number) && a != b && Meets(slots, g, a, b, week)
    ensures var row := HeadToHeadRow(slots, g, a, b, week.number);
      SidePd(row, true) + SidePd(row, false) == 0
  {
    var w := week.number;
    SoleOwner(slots, a, b, g.home.value, w);
    SoleOwner(slots, a, b, g.away.value, w);
  }

  /** In an exclusive week a team has one owner. */
  lemma SoleOwner(slots: seq<Slot>, a: MemberId, b: MemberId, team: TeamId, w: int)
    requires ExclusiveAt(slots, w) && a != b
    ensures !(OwnsAt(slots, a, team, w) && OwnsAt(slots, b, team, w))
  {
  }

  lemma {:induction false} PairPdCancels(rows: seq<HeadToHead>)
    requires forall k :: 0 <= k < |rows| ==> SidePd(rows[k], true) + SidePd(rows[k], false) == 0
    ensures PairPd(rows, true) + PairPd(rows, false) == 0
  {
    if |rows| > 0 {
      PairPdCancels(rows[1..]);
    }
  }
}
