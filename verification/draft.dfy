/** Recording a draft pick: the admission checks (the team is free in the
    acquired week, the member is under the conference cap) and the snake-order
    numbering of the pick.  The numbering uses only the number of picks made so
    far and the league's player count; nothing here checks whose turn it is. */
module Draft {
  import opened Wrappers
  import opened Ownership

  datatype DraftPick = DraftPick(overall: int, round: int, pickInRound: int,
                                 member: MemberId, team: TeamId)

  /** The league's `DraftPick` rows and its `LeagueTeamSlot` rows. */
  datatype DraftState = DraftState(picks: seq<DraftPick>, slots: seq<Slot>)

  datatype DraftError =
    | LeagueNotFound
    | TeamAlreadyOwned
    | ConferenceCapReached(conferenceName: string, count: nat, maxAllowed: int)
    /** `numPlayers` is 0: the round computation divides by zero. */
    | NoPlayers

  /** Python's `//`: the greatest integer at or below the quotient. */
  function FloorDiv(a: int, b: int): (q: int)
    requires b != 0
    ensures b > 0 ==> q * b <= a < q * b + b
    ensures b < 0 ==> q * b >= a > q * b + b
  {
    if b > 0 || a % b == 0 then a / b else a / b - 1
  }

  /** `math.ceil(a / b)`: the least integer at or above the quotient. */
  function CeilDiv(a: int, b: int): (q: int)
    requires b != 0
    ensures b > 0 ==> q * b - b < a <= q * b
    ensures b < 0 ==> q * b - b > a >= q * b
  {
    -FloorDiv(-a, b)
  }

  /** `(roundNumber, pickInRound)` of overall pick `n` in a league of
      `players`: odd rounds count up, even rounds count down. */
  function SnakeSlot(n: int, players: int): (r: (int, int))
    requires players != 0
  {
    var round := CeilDiv(n, players);
    var pos := n - (round - 1) * players;
    (round, if round % 2 == 1 then pos else players - pos + 1)
  }

  /** With a positive player count, pick `n >= 1` lands in round
      `ceil(n / players)`, at a position and pick-in-round within `1..players`. */
  lemma SnakeSlotInRange(n: int, players: int)
    requires n >= 1 && players > 0
    ensures var (round, pick) := SnakeSlot(n, players);
      round >= 1 && 1 <= pick <= players &&
      1 <= n - (round - 1) * players <= players
  {
  }

  /** The picks of round `k` are overall numbers `(k-1)*players + j` for
      `j` in `1..players`, with pick-in-round `j` in odd rounds and
      `players + 1 - j` in even ones. */
  lemma SnakeSlotOfRound(k: int, j: int, players: int)
    requires k >= 1 && players > 0 && 1 <= j <= players
    ensures SnakeSlot((k - 1) * players + j, players) ==
      (k, if k % 2 == 1 then j else players + 1 - j)
  {
    var n := (k - 1) * players + j;
    assert -n == (-k) * players + (players - j);
    DivUnique(-n, players, -k, players - j);
    assert CeilDiv(n, players) == k;
    assert n - (k - 1) * players == j;
  }

  /** Euclidean division is determined by quotient and remainder. */
  lemma DivUnique(a: int, b: int, q: int, r: int)
    requires b > 0 && 0 <= r < b && a == q * b + r
    ensures a / b == q
  {
    var q' := a / b;
    var r' := a % b;
    assert a == q' * b + r';
    if q' < q {
      MulMono(q' + 1, q, b);
    } else if q' > q {
      MulMono(q + 1, q', b);
    }
  }

  lemma MulMono(a: int, b: int, c: int)
    requires a <= b && c > 0
    ensures a * c <= b * c
  {
  }

  /** Pick-in-round of the `j`-th pick of round `k`. */
  function RoundPick(k: int, j: int, players: int): int
    requires players > 0
  {
    SnakeSlot((k - 1) * players + j, players).1
  }

  /** The integers `lo..hi`. */
  function Interval(lo: int, hi: int): (r: set<int>)
    ensures forall p :: p in r <==> lo <= p <= hi
    decreases hi - lo
  {
    if lo > hi then {} else {lo} + Interval(lo + 1, hi)
  }

  /** Every round hands out each pick-in-round `1..players` exactly once. */
  lemma RoundIsPermutation(k: int, players: int)
    requires k >= 1 && players > 0
    ensures (set j | 1 <= j <= players :: RoundPick(k, j, players)) == Interval(1, players)
    ensures forall j1, j2 :: (1 <= j1 <= players && 1 <= j2 <= players &&
      RoundPick(k, j1, players) == RoundPick(k, j2, players)) ==> j1 == j2
  {
    var handed := set j | 1 <= j <= players :: RoundPick(k, j, players);
    forall p | 1 <= p <= players
      ensures p in handed
    {
      var j := if k % 2 == 1 then p else players + 1 - p;
      SnakeSlotOfRound(k, j, players);
      assert RoundPick(k, j, players) == p;
    }
    forall j | 1 <= j <= players
      ensures 1 <= RoundPick(k, j, players) <= players
    {
      SnakeSlotOfRound(k, j, players);
    }
    forall j1, j2 | 1 <= j1 <= players && 1 <= j2 <= players &&
      RoundPick(k, j1, players) == RoundPick(k, j2, players)
      ensures j1 == j2
    {
      SnakeSlotOfRound(k, j1, players);
      SnakeSlotOfRound(k, j2, players);
    }
  }

  /** The `j`-th pick of a round and the `j`-th pick of the next round sit at
      mirrored positions: consecutive rounds run in opposite directions. */
  lemma ConsecutiveRoundsReversed(k: int, j: int, players: int)
    requires k >= 1 && players > 0 && 1 <= j <= players
    ensures RoundPick(k + 1, j, players) == players + 1 - RoundPick(k, j, players)
  {
    SnakeSlotOfRound(k, j, players);
    SnakeSlotOfRound(k + 1, j, players);
  }

  /** The conference-cap check for `member` taking `team` in week `w`. */
  function CheckConferenceCap(cat: Catalog, slots: seq<Slot>, member: MemberId, team: TeamId, w: int)
    : (r: Result<(), DraftError>)
    ensures r.Err? ==> r.error.ConferenceCapReached?
  {
    match ConferenceOf(cat, team)
    case None => Ok(())
    case Some(c) =>
      var conf := cat.conferences[c];
      if conf.maxTeamsPerOwner <= 0 then Ok(())
      else
        var count := DistinctCountIn(slots, member, w, cat, c);
        if count >= conf.maxTeamsPerOwner then
          Err(ConferenceCapReached(if conf.name == "" then "Unknown Conference" else conf.name,
                                   count, conf.maxTeamsPerOwner))
        else Ok(())
  }

  /** The cap admits a pick exactly when the team has no conference, the
      conference is uncapped (a `maxTeamsPerOwner` of 0 or less means no
      cap), or the member owns fewer of its teams than the cap in that week. */
  lemma CapAdmits(cat: Catalog, slots: seq<Slot>, member: MemberId, team: TeamId, w: int)
    ensures CheckConferenceCap(cat, slots, member, team, w).Ok? <==>
      ConferenceOf(cat, team).None? ||
      cat.conferences[cat.membership[team]].maxTeamsPerOwner <= 0 ||
      DistinctCountIn(slots, member, w, cat, cat.membership[team]) <
        cat.conferences[cat.membership[team]].maxTeamsPerOwner
  {
  }

  /** `create_draft_pick`: `numPlayers` is `None` when the league does not
      exist.  On success the pick row and the `Draft` slot are both added. */
  function CreateDraftPick(numPlayers: Option<int>, cat: Catalog, st: DraftState,
                           member: MemberId, team: TeamId, acquiredWeek: int)
    : (r: Result<(DraftPick, DraftState), DraftError>)
    ensures r.Ok? ==>
      var (pick, st') := r.value;
      pick.overall == |st.picks| + 1 && pick.member == member && pick.team == team &&
      st'.picks == st.picks + [pick] &&
      st'.slots == st.slots + [Slot(member, team, acquiredWeek, None, Draft)]
    ensures r.Ok? ==> numPlayers.Some? && numPlayers.value != 0
    ensures r.Ok? ==> (r.value.0.round, r.value.0.pickInRound) == SnakeSlot(|st.picks| + 1, numPlayers.value)
    ensures r.Ok? && numPlayers.value > 0 ==>
      r.value.0.round >= 1 && 1 <= r.value.0.pickInRound <= numPlayers.value
  {
    if numPlayers.None? then Err(LeagueNotFound)
    else if TeamOwnedAt(st.slots, team, acquiredWeek) then Err(TeamAlreadyOwned)
    else
      var _ :- CheckConferenceCap(cat, st.slots, member, team, acquiredWeek);
      var players := numPlayers.value;
      if players == 0 then Err(NoPlayers)
      else
        var overall := |st.picks| + 1;
        var (round, pickInRound) := SnakeSlot(overall, players);
        var pick := DraftPick(overall, round, pickInRound, member, team);
        Ok((pick, DraftState(st.picks + [pick], st.slots + [Slot(member, team, acquiredWeek, None, Draft)])))
  }

  /** A pick is recorded exactly when the league exists, nobody owns the team
      in the acquired week, the conference cap admits it and the league has a
      non-zero player count; the checks fail in that order. */
  lemma CreateDraftPickAdmission(numPlayers: Option<int>, cat: Catalog, st: DraftState,
                                 member: MemberId, team: TeamId, w: int)
    ensures var r := CreateDraftPick(numPlayers, cat, st, member, team, w);
      (r.Ok? <==> numPlayers.Some? && !TeamOwnedAt(st.slots, team, w) &&
                  CheckConferenceCap(cat, st.slots, member, team, w).Ok? && numPlayers.value != 0) &&
      (numPlayers.None? ==> r == Err(LeagueNotFound)) &&
      (numPlayers.Some? && TeamOwnedAt(st.slots, team, w) ==> r == Err(TeamAlreadyOwned))
  {
  }

  /** The numbers a pick receives depend on the number of earlier picks and
      the player count only: two members picking two different teams from the
      same history get the same overall number, round and pick-in-round. */
  lemma NumberingIgnoresPicker(numPlayers: Option<int>, cat: Catalog, st: DraftState,
                               m1: MemberId, t1: TeamId, m2: MemberId, t2: TeamId, w: int)
    requires CreateDraftPick(numPlayers, cat, st, m1, t1, w).Ok?
    requires CreateDraftPick(numPlayers, cat, st, m2, t2, w).Ok?
    ensures var p1 := CreateDraftPick(numPlayers, cat, st, m1, t1, w).value.0;
      var p2 := CreateDraftPick(numPlayers, cat, st, m2, t2, w).value.0;
      (p1.overall, p1.round, p1.pickInRound) == (p2.overall, p2.round, p2.pickInRound)
  {
  }

  /** Recorded picks are numbered `1..k` in order. */
  predicate Dense(picks: seq<DraftPick>) {
    forall i :: 0 <= i < |picks| ==> picks[i].overall == i + 1
  }

  /** Recording a pick keeps the numbering dense. */
  lemma CreateDraftPickKeepsDense(numPlayers: Option<int>, cat: Catalog, st: DraftState,
                                  member: MemberId, team: TeamId, w: int)
    requires Dense(st.picks)
    requires CreateDraftPick(numPlayers, cat, st, member, team, w).Ok?
    ensures Dense(CreateDraftPick(numPlayers, cat, st, member, team, w).value.1.picks)
  {
  }

  /** A recorded pick never makes two slots hold the same team in the
      acquired week. */
  lemma CreateDraftPickKeepsExclusive(numPlayers: Option<int>, cat: Catalog, st: DraftState,
                                      member: MemberId, team: TeamId, w: int)
    requires ExclusiveAt(st.slots, w)
    requires CreateDraftPick(numPlayers, cat, st, member, team, w).Ok?
    ensures ExclusiveAt(CreateDraftPick(numPlayers, cat, st, member, team, w).value.1.slots, w)
  {
    var slots' := CreateDraftPick(numPlayers, cat, st, member, team, w).value.1.slots;
    assert slots' == st.slots + [Slot(member, team, w, None, Draft)];
    forall i, j | 0 <= i < j < |slots'| && slots'[i].team == slots'[j].team && Holds(slots'[i], w)
      ensures !Holds(slots'[j], w)
    {
      if j < |st.slots| {
        assert slots'[i] == st.slots[i] && slots'[j] == st.slots[j];
      }
    }
  }

  /** After a recorded pick the member owns the team and stays within the
      team's conference cap in the acquired week. */
  lemma CreateDraftPickRespectsCap(numPlayers: Option<int>, cat: Catalog, st: DraftState,
                                   member: MemberId, team: TeamId, w: int)
    requires CreateDraftPick(numPlayers, cat, st, member, team, w).Ok?
    requires ConferenceOf(cat, team).Some?
    ensures var slots' := CreateDraftPick(numPlayers, cat, st, member, team, w).value.1.slots;
      var c := cat.membership[team];
      OwnsAt(slots', member, team, w) &&
      (cat.conferences[c].maxTeamsPerOwner > 0 ==>
         DistinctCountIn(slots', member, w, cat, c) <= cat.conferences[c].maxTeamsPerOwner)
  {
    var c := cat.membership[team];
    assert CheckConferenceCap(cat, st.slots, member, team, w).Ok?;
    DraftSlotAdds(st.slots, member, team, w, cat, c);
  }

  /** A `Draft` slot for `team` makes the member its owner in the week and
      adds at most one team to the member's count in any conference. */
  lemma DraftSlotAdds(slots: seq<Slot>, member: MemberId, team: TeamId, w: int, cat: Catalog, c: ConfId)
    ensures var slots' := slots + [Slot(member, team, w, None, Draft)];
      OwnsAt(slots', member, team, w) &&
      DistinctCountIn(slots', member, w, cat, c) <= DistinctCountIn(slots, member, w, cat, c) + 1
  {
    var s := Slot(member, team, w, None, Draft);
    var slots' := slots + [s];
    assert slots'[|slots|] == s;
    MemberTeamsAppend(slots, s, member, w);
    InConferenceAddOne(MemberTeamsAt(slots, member, w), MemberTeamsAt(slots', member, w), team, cat, c);
  }

  /** Adding at most one team to a set adds at most one to the number of its
      teams in conference `c`. */
  lemma InConferenceAddOne(a: set<TeamId>, b: set<TeamId>, team: TeamId, cat: Catalog, c: ConfId)
    requires b <= a + {team}
    ensures |set t | t in b && t in cat.membership && cat.membership[t] == c| <=
      |set t | t in a && t in cat.membership && cat.membership[t] == c| + 1
  {
    var before := set t | t in a && t in cat.membership && cat.membership[t] == c;
    var after := set t | t in b && t in cat.membership && cat.membership[t] == c;
    assert after <= before + {team};
    SubsetCard(after, before + {team});
    if team !in before {
      assert |before + {team}| == |before| + 1;
    } else {
      assert before + {team} == before;
    }
  }
}
