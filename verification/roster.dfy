/** Roster queries: the slots a member holds in a week, and the teams of the
    league's sport that are free to pick up in a week. */
module Roster {
  import opened Wrappers
  import opened Ownership
  import opened Weeks
  import opened Transactions

  /** A `SportTeam` row. */
  datatype SportTeam = SportTeam(id: TeamId, sport: int, name: string)

  /** `get_member_teams_for_week`: the member's slots inside the ownership
      window, in table order. */
  function MemberSlots(slots: seq<Slot>, member: MemberId, w: int): (r: seq<Slot>)
    ensures forall s :: s in r <==> s in slots && s.member == member && Holds(s, w)
    ensures |r| <= |slots|
  {
    if |slots| == 0 then []
    else
      var rest := MemberSlots(slots[1..], member, w);
      assert forall s :: s in slots <==> s == slots[0] || s in slots[1..];
      if slots[0].member == member && Holds(slots[0], w) then [slots[0]] + rest else rest
  }

  /** The listed slots name exactly the teams the member owns that week. */
  lemma MemberSlotsAreRoster(slots: seq<Slot>, member: MemberId, w: int, t: TeamId)
    ensures (exists s :: s in MemberSlots(slots, member, w) && s.team == t) <==> t in MemberTeamsAt(slots, member, w)
  {
    var r := MemberSlots(slots, member, w);
    if t in MemberTeamsAt(slots, member, w) {
      var i :| 0 <= i < |slots| && slots[i].member == member && slots[i].team == t && Holds(slots[i], w);
      assert slots[i] in r;
    }
    if s :| s in r && s.team == t {
      var i :| 0 <= i < |slots| && slots[i] == s;
      assert OwnsAt(slots, member, t, w);
    }
  }

  /** A `FREE_AGENT` row waiting in `PENDING_APPLY` for the week with id `weekId`. */
  predicate PendingMove(tx: Transaction, weekId: int) {
    tx.weekId == weekId && tx.status == PendingApply && tx.kind == FreeAgentKind
  }

  /** The `pending_adds` set: teams named in a pending move's `toTeamIds`. */
  function PendingAdds(txs: seq<Transaction>, weekId: int): (r: set<TeamId>)
    ensures forall t :: t in r <==> exists i :: 0 <= i < |txs| && PendingMove(txs[i], weekId) && t in txs[i].toTeams
  {
    if |txs| == 0 then {}
    else
      var rest := PendingAdds(txs[..|txs| - 1], weekId);
      var last := txs[|txs| - 1];
      assert forall i :: 0 <= i < |txs| - 1 ==> txs[..|txs| - 1][i] == txs[i];
      rest + (if PendingMove(last, weekId) then set t | t in last.toTeams else {})
  }

  /** The `pending_drops` set: teams named in a pending move's `fromTeamIds`. */
  function PendingDrops(txs: seq<Transaction>, weekId: int): (r: set<TeamId>)
    ensures forall t :: t in r <==> exists i :: 0 <= i < |txs| && PendingMove(txs[i], weekId) && t in txs[i].fromTeams
  {
    if |txs| == 0 then {}
    else
      var rest := PendingDrops(txs[..|txs| - 1], weekId);
      var last := txs[|txs| - 1];
      assert forall i :: 0 <= i < |txs| - 1 ==> txs[..|txs| - 1][i] == txs[i];
      rest + (if PendingMove(last, weekId) then set t | t in last.fromTeams else {})
  }

  /** The availability rule for week `week` (number `w`): the team is of the
      league's sport, has a conference row, is not being added by a pending
      move, and is either owned by nobody in `w` or being dropped by a
      pending move. */
  predicate Available(lg: League, sport: int, week: Week, team: SportTeam) {
    team.sport == sport && ConferenceOf(lg.cat, team.id).Some? &&
    team.id !in PendingAdds(lg.txs, week.id) &&
    (!TeamOwnedAt(lg.slots, team.id, week.number) || team.id in PendingDrops(lg.txs, week.id))
  }

  /** The available teams among `teams`, in table order. */
  function AvailableAmong(lg: League, sport: int, week: Week, teams: seq<SportTeam>): (r: seq<SportTeam>)
    ensures forall t :: t in r <==> t in teams && Available(lg, sport, week, t)
    ensures |r| <= |teams|
  {
    if |teams| == 0 then []
    else
      var rest := AvailableAmong(lg, sport, week, teams[1..]);
      assert forall t :: t in teams <==> t == teams[0] || t in teams[1..];
      if Available(lg, sport, week, teams[0]) then [teams[0]] + rest else rest
  }

  /** `get_available_teams_for_week`. A locked week is first redirected to the
      next unlocked one (an error when there is none, even for a missing
      league); a missing league (`sport` is `None`) or a week number with no
      row gives the empty list. */
  function AvailableTeams(lg: League, sport: Option<int>, teams: seq<SportTeam>, n: int): (r: Result<seq<SportTeam>, WeekError>)
    ensures r.Err? <==> (FindWeek(lg.weeks, n).Some? && FindWeek(lg.weeks, n).value.isLocked &&
      forall i :: 0 <= i < |lg.weeks| ==> !UnlockedAfter(lg.weeks[i], n))
    ensures r.Ok? && (sport.None? || FindWeek(lg.weeks, EffectiveWeek(lg.weeks, n).value).None?) ==> r.value == []
    ensures r.Ok? && sport.Some? && FindWeek(lg.weeks, EffectiveWeek(lg.weeks, n).value).Some? ==>
      forall t :: t in r.value <==> t in teams && Available(lg, sport.value, FindWeek(lg.weeks, EffectiveWeek(lg.weeks, n).value).value, t)
  {
    var w :- EffectiveWeek(lg.weeks, n);
    if sport.None? then Ok([])
    else
      match FindWeek(lg.weeks, w)
      case None => Ok([])
      case Some(week) => Ok(AvailableAmong(lg, sport.value, week, teams))
  }

  /** The week the listing is for is the asked-for week unless that one is
      locked; then it is the first week after it that has an unlocked row. */
  lemma AvailableWeekUnlocked(lg: League, n: int)
    requires EffectiveWeek(lg.weeks, n).Ok? && FindWeek(lg.weeks, EffectiveWeek(lg.weeks, n).value).Some?
    ensures var week := FindWeek(lg.weeks, EffectiveWeek(lg.weeks, n).value).value;
      week.number >= n &&
      (week.number == n <==> !FindWeek(lg.weeks, n).value.isLocked) &&
      (week.number > n ==> forall i :: 0 <= i < |lg.weeks| && UnlockedAfter(lg.weeks[i], n) ==> week.number <= lg.weeks[i].number)
  {
  }

  /** With no pending free-agent moves for the week, every listed team is a
      free agent: nobody owns it in that week, and it has the conference row a
      free-agent pickup needs, so the ownership and conference checks of a
      pickup pass for it. */
  lemma AvailableIsFreeAgent(lg: League, sport: int, week: Week, team: SportTeam)
    requires Available(lg, sport, week, team)
    requires forall i :: 0 <= i < |lg.txs| ==> !PendingMove(lg.txs[i], week.id)
    ensures !TeamOwnedAt(lg.slots, team.id, week.number)
    ensures HasConferences(lg.cat, Some(team.id), None)
  {
    assert PendingDrops(lg.txs, week.id) == {};
  }
}
