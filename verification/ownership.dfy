/** The `LeagueTeamSlot` table and the ownership window every module shares:
    a slot gives its member the team from `acquiredWeek` up to, but not
    including, `droppedWeek` (for ever when there is none).  Conference data
    (`ConferenceMembership` joined with `SportConference`) lives here too. */
module Ownership {
  import opened Wrappers

  type MemberId = int
  type TeamId = int
  type ConfId = int

  /** `acquiredVia`: `Draft`, `TRADE` or `FREE_AGENT`. */
  datatype Acquisition = Draft | Trade | FreeAgent

  datatype Slot = Slot(member: MemberId, team: TeamId, acquiredWeek: int,
                       droppedWeek: Option<int>, via: Acquisition)

  /** The ownership window: the slot counts for week `w`. */
  predicate Holds(s: Slot, w: int) {
    s.acquiredWeek <= w && (s.droppedWeek.None? || s.droppedWeek.value > w)
  }

  /** Somebody owns `team` in week `w`. */
  predicate TeamOwnedAt(slots: seq<Slot>, team: TeamId, w: int) {
    exists i :: 0 <= i < |slots| && slots[i].team == team && Holds(slots[i], w)
  }

  /** `member` owns `team` in week `w`. */
  predicate OwnsAt(slots: seq<Slot>, member: MemberId, team: TeamId, w: int) {
    exists i :: 0 <= i < |slots| && slots[i].member == member && slots[i].team == team && Holds(slots[i], w)
  }

  /** The teams `member` owns in week `w`. */
  function MemberTeamsAt(slots: seq<Slot>, member: MemberId, w: int): (r: set<TeamId>)
    ensures forall t :: t in r <==> OwnsAt(slots, member, t, w)
  {
    set i | 0 <= i < |slots| && slots[i].member == member && Holds(slots[i], w) :: slots[i].team
  }

  /** At most one slot holds any team in week `w`. */
  predicate ExclusiveAt(slots: seq<Slot>, w: int) {
    forall i, j :: 0 <= i < j < |slots| && slots[i].team == slots[j].team && Holds(slots[i], w) ==> !Holds(slots[j], w)
  }

  /** A `SportConference` row with its per-owner team cap. */
  datatype Conference = Conference(name: string, maxTeamsPerOwner: int)

  /** Each team's conference (a team with none is an Independent) and the
      conferences' rows. */
  datatype Catalog = Catalog(membership: map<TeamId, ConfId>, conferences: map<ConfId, Conference>)

  /** The conference a team plays in, when both the membership and the
      conference row exist (the inner join the queries perform). */
  function ConferenceOf(cat: Catalog, team: TeamId): (r: Option<ConfId>)
    ensures r.Some? <==> team in cat.membership && cat.membership[team] in cat.conferences
    ensures r.Some? ==> r.value == cat.membership[team]
  {
    if team in cat.membership && cat.membership[team] in cat.conferences
    then Some(cat.membership[team]) else None
  }

  /** `COUNT(DISTINCT sportTeamId)` of the teams `member` owns in week `w`
      whose conference membership is `c`. */
  function DistinctCountIn(slots: seq<Slot>, member: MemberId, w: int, cat: Catalog, c: ConfId): nat {
    |set t | t in MemberTeamsAt(slots, member, w) && t in cat.membership && cat.membership[t] == c|
  }

  /** `COUNT(*)` of `member`'s slots held in week `w` whose team has
      conference membership `c`, leaving out the teams in `exclude`. */
  function SlotCountIn(slots: seq<Slot>, member: MemberId, w: int, cat: Catalog, c: ConfId,
                       exclude: set<TeamId>): (n: nat)
    ensures n <= |slots|
    ensures n == 0 <==> forall i :: 0 <= i < |slots| ==>
      !(slots[i].member == member && Holds(slots[i], w) && slots[i].team !in exclude &&
        slots[i].team in cat.membership && cat.membership[slots[i].team] == c)
  {
    if |slots| == 0 then 0
    else
      var s := slots[|slots| - 1];
      var hit := s.member == member && Holds(s, w) && s.team !in exclude &&
                 s.team in cat.membership && cat.membership[s.team] == c;
      SlotCountIn(slots[..|slots| - 1], member, w, cat, c, exclude) + (if hit then 1 else 0)
  }

  /** Appending a slot that is not held by `member` in week `w` leaves the
      member's teams unchanged; appending one that is adds exactly its team. */
  lemma MemberTeamsAppend(slots: seq<Slot>, s: Slot, member: MemberId, w: int)
    ensures MemberTeamsAt(slots + [s], member, w) ==
      MemberTeamsAt(slots, member, w) + (if s.member == member && Holds(s, w) then {s.team} else {})
  {
    var xs := slots + [s];
    forall t ensures t in MemberTeamsAt(xs, member, w) <==>
      t in MemberTeamsAt(slots, member, w) + (if s.member == member && Holds(s, w) then {s.team} else {})
    {
      if OwnsAt(xs, member, t, w) {
        var i :| 0 <= i < |xs| && xs[i].member == member && xs[i].team == t && Holds(xs[i], w);
        if i < |slots| {
          assert OwnsAt(slots, member, t, w);
        }
      }
      if OwnsAt(slots, member, t, w) {
        var i :| 0 <= i < |slots| && slots[i].member == member && slots[i].team == t && Holds(slots[i], w);
        assert xs[i] == slots[i];
      }
      if s.member == member && Holds(s, w) && t == s.team {
        assert xs[|slots|] == s;
      }
    }
  }

  /** A subset is no larger than the set containing it. */
  lemma SubsetCard<T>(a: set<T>, b: set<T>)
    requires a <= b
    ensures |a| <= |b|
    decreases b
  {
    if a != {} {
      var x :| x in a;
      SubsetCard(a - {x}, b - {x});
    }
  }
}
