/** The slot surgery behind trades and free-agent moves, and the trade
    validator: who holds a team in a week, how many teams a member has in a
    conference, closing slots at a week and opening new ones. */
module Trades {
  import opened Wrappers
  import opened Ownership
  import opened Tally

  // ---------------------------------------------------------------------
  // Holders
  // ---------------------------------------------------------------------

  /** The `{sportTeamId: memberId}` dict built from the slots held in week
      `w`: the member of the LAST such slot for `team` in table order. */
  function Holder(slots: seq<Slot>, team: TeamId, w: int): (r: Option<MemberId>)
    ensures r.None? <==> !TeamOwnedAt(slots, team, w)
    ensures r.Some? ==> OwnsAt(slots, r.value, team, w)
  {
    if |slots| == 0 then None
    else
      var s := slots[|slots| - 1];
      var prefix := slots[..|slots| - 1];
      assert forall i :: 0 <= i < |prefix| ==> prefix[i] == slots[i];
      if s.team == team && Holds(s, w) then Some(s.member)
      else
        var r := Holder(prefix, team, w);
        assert TeamOwnedAt(slots, team, w) ==> TeamOwnedAt(prefix, team, w) by {
          if TeamOwnedAt(slots, team, w) {
            var i :| 0 <= i < |slots| && slots[i].team == team && Holds(slots[i], w);
            assert i < |prefix|;
          }
        }
        r
  }

  /** When at most one slot holds each team in week `w`, the dict names
      exactly the member who owns the team. */
  lemma HolderIsOwner(slots: seq<Slot>, team: TeamId, w: int, m: MemberId)
    requires ExclusiveAt(slots, w)
    ensures Holder(slots, team, w) == Some(m) <==> OwnsAt(slots, m, team, w)
  {
    var h := Holder(slots, team, w);
    if OwnsAt(slots, m, team, w) {
      var i :| 0 <= i < |slots| && slots[i].member == m && slots[i].team == team && Holds(slots[i], w);
      var j :| 0 <= j < |slots| && slots[j].member == h.value && slots[j].team == team && Holds(slots[j], w);
      assert i == j;
    }
  }

  // ---------------------------------------------------------------------
  // Conference counts
  // ---------------------------------------------------------------------

  /** The listed teams whose conference membership is `c`. */
  function InConference(cat: Catalog, teams: seq<TeamId>, c: ConfId): set<TeamId> {
    set t | t in teams && t in cat.membership && cat.membership[t] == c
  }

  /** `incoming_confs`: how many of `teams` (each counted once) have
      conference membership `c`. */
  function Incoming(cat: Catalog, teams: seq<TeamId>, c: ConfId): nat {
    |InConference(cat, teams, c)|
  }

  /** The teams of a list, as `ANY(:team_ids)` sees them. */
  function Listed(teams: seq<TeamId>): set<TeamId> {
    set t | t in teams
  }

  /** `limits.get(c, 999)` over the `SportConference` rows. */
  function Limit(cat: Catalog, c: ConfId): int {
    if c in cat.conferences then cat.conferences[c].maxTeamsPerOwner else 999
  }

  /** The number of positions of `teams` whose conference membership is `c`
      (a team listed twice counts twice). */
  function PositionsIn(cat: Catalog, teams: seq<TeamId>, c: ConfId): nat {
    if |teams| == 0 then 0
    else
      var t := teams[|teams| - 1];
      PositionsIn(cat, teams[..|teams| - 1], c) + (if t in cat.membership && cat.membership[t] == c then 1 else 0)
  }

  /** Without repeated teams, counting positions is counting teams. */
  lemma {:induction false} PositionsAreTeams(cat: Catalog, teams: seq<TeamId>, c: ConfId)
    requires NoDuplicates(teams)
    ensures PositionsIn(cat, teams, c) == Incoming(cat, teams, c)
  {
    if |teams| > 0 {
      var prefix := teams[..|teams| - 1];
      var t := teams[|teams| - 1];
      assert NoDuplicates(prefix);
      PositionsAreTeams(cat, prefix, c);
      LastNotInPrefix(teams);
      InConferenceSnoc(cat, prefix, t, c);
      assert teams == prefix + [t];
    }
  }

  /** In a list without repeats, the last team is not among the earlier ones. */
  lemma LastNotInPrefix(teams: seq<TeamId>)
    requires |teams| > 0 && NoDuplicates(teams)
    ensures teams[|teams| - 1] !in teams[..|teams| - 1]
  {
    var prefix := teams[..|teams| - 1];
    forall k | 0 <= k < |prefix| ensures prefix[k] != teams[|teams| - 1] {
      assert prefix[k] == teams[k];
    }
  }

  /** Appending a team adds it to the teams in `c` exactly when it plays
      there. */
  lemma InConferenceSnoc(cat: Catalog, prefix: seq<TeamId>, t: TeamId, c: ConfId)
    requires t !in prefix
    ensures Incoming(cat, prefix + [t], c) ==
      Incoming(cat, prefix, c) + (if t in cat.membership && cat.membership[t] == c then 1 else 0)
  {
    var before := InConference(cat, prefix, c);
    var after := InConference(cat, prefix + [t], c);
    if t in cat.membership && cat.membership[t] == c {
      assert after == before + {t};
    } else {
      assert after == before;
    }
  }

  /** Some incoming team plays in `c` exactly when the count is positive. */
  lemma IncomingPositive(cat: Catalog, teams: seq<TeamId>, c: ConfId)
    ensures Incoming(cat, teams, c) > 0 <==>
      exists k :: 0 <= k < |teams| && teams[k] in cat.membership && cat.membership[teams[k]] == c
  {
    var s := InConference(cat, teams, c);
    if !exists k :: 0 <= k < |teams| && teams[k] in cat.membership && cat.membership[teams[k]] == c {
      forall t | t in teams ensures t !in s {
        var k :| 0 <= k < |teams| && teams[k] == t;
      }
      assert s == {};
    }
    if exists k :: 0 <= k < |teams| && teams[k] in cat.membership && cat.membership[teams[k]] == c {
      var k :| 0 <= k < |teams| && teams[k] in cat.membership && cat.membership[teams[k]] == c;
      assert teams[k] in s;
    }
  }

  /** Leaving teams out never raises a count. */
  lemma {:induction false} ExcludeLowers(slots: seq<Slot>, m: MemberId, w: int, cat: Catalog, c: ConfId, exclude: set<TeamId>)
    ensures SlotCountIn(slots, m, w, cat, c, exclude) <= SlotCountIn(slots, m, w, cat, c, {})
  {
    if |slots| > 0 {
      ExcludeLowers(slots[..|slots| - 1], m, w, cat, c, exclude);
    }
  }

  /** Leaving out a team the member owns in `c` lowers the count by at least one. */
  lemma {:induction false} ExcludeOwned(slots: seq<Slot>, m: MemberId, w: int, cat: Catalog, t: TeamId)
    requires OwnsAt(slots, m, t, w) && t in cat.membership
    ensures SlotCountIn(slots, m, w, cat, cat.membership[t], {t}) + 1 <= SlotCountIn(slots, m, w, cat, cat.membership[t], {})
  {
    var c := cat.membership[t];
    var prefix := slots[..|slots| - 1];
    var s := slots[|slots| - 1];
    if s.member == m && s.team == t && Holds(s, w) {
      ExcludeLowers(prefix, m, w, cat, c, {t});
    } else {
      var i :| 0 <= i < |slots| && slots[i].member == m && slots[i].team == t && Holds(slots[i], w);
      assert i < |prefix| && prefix[i] == slots[i];
      ExcludeOwned(prefix, m, w, cat, t);
    }
  }

  /** Counting over two tables one after the other. */
  lemma {:induction false} CountAppend(a: seq<Slot>, b: seq<Slot>, m: MemberId, w: int, cat: Catalog, c: ConfId, exclude: set<TeamId>)
    ensures SlotCountIn(a + b, m, w, cat, c, exclude) == SlotCountIn(a, m, w, cat, c, exclude) + SlotCountIn(b, m, w, cat, c, exclude)
  {
    if |b| > 0 {
      var b' := b[..|b| - 1];
      assert (a + b)[..|a + b| - 1] == a + b';
      assert (a + b)[|a + b| - 1] == b[|b| - 1];
      CountAppend(a, b', m, w, cat, c, exclude);
    } else {
      assert a + b == a;
    }
  }

  // ---------------------------------------------------------------------
  // Closing and opening slots
  // ---------------------------------------------------------------------

  /** `UPDATE … SET droppedWeek = w` on one row: a slot of `member` for one of
      `teams` that is held in week `w` is closed at `w`. */
  function CloseSlot(s: Slot, member: MemberId, teams: set<TeamId>, w: int): Slot {
    if s.member == member && s.team in teams && Holds(s, w) then s.(droppedWeek := Some(w)) else s
  }

  /** The same update over the whole table, row by row. */
  function Close(slots: seq<Slot>, member: MemberId, teams: set<TeamId>, w: int): (r: seq<Slot>)
    ensures |r| == |slots|
    ensures forall i :: 0 <= i < |slots| ==> r[i] == CloseSlot(slots[i], member, teams, w)
  {
    seq(|slots|, i requires 0 <= i < |slots| => CloseSlot(slots[i], member, teams, w))
  }

  /** The rows inserted for `teams`, all starting in week `w`. */
  function Open(member: MemberId, teams: seq<TeamId>, w: int, via: Acquisition): (r: seq<Slot>)
    ensures |r| == |teams|
    ensures forall i :: 0 <= i < |teams| ==> r[i] == Slot(member, teams[i], w, None, via)
  {
    seq(|teams|, i requires 0 <= i < |teams| => Slot(member, teams[i], w, None, via))
  }

  /** A closed slot still holds every week before `w` it held, and none from
      `w` on. */
  lemma CloseSlotHolds(s: Slot, member: MemberId, teams: set<TeamId>, w: int, v: int)
    ensures v < w ==> (Holds(CloseSlot(s, member, teams, w), v) <==> Holds(s, v))
    ensures s.member == member && s.team in teams ==> !Holds(CloseSlot(s, member, teams, w), w)
    ensures !(s.member == member && s.team in teams) ==> CloseSlot(s, member, teams, w) == s
  {
  }

  /** Closing `closer`'s slots for `teams` at `w` takes exactly those teams out
      of `closer`'s counts for week `w`, and changes nobody else's. */
  lemma {:induction false} CountClose(slots: seq<Slot>, closer: MemberId, teams: set<TeamId>, w: int,
                                      m: MemberId, cat: Catalog, c: ConfId, exclude: set<TeamId>)
    ensures SlotCountIn(Close(slots, closer, teams, w), m, w, cat, c, exclude) ==
      SlotCountIn(slots, m, w, cat, c, if closer == m then exclude + teams else exclude)
  {
    if |slots| > 0 {
      var prefix := slots[..|slots| - 1];
      var closed := Close(slots, closer, teams, w);
      assert closed[..|closed| - 1] == Close(prefix, closer, teams, w);
      CountClose(prefix, closer, teams, w, m, cat, c, exclude);
    }
  }

  /** The inserted rows count once per listed team in the inserting member's
      conference counts, and not at all in anybody else's. */
  lemma {:induction false} CountOpen(member: MemberId, teams: seq<TeamId>, w: int, via: Acquisition,
                                     m: MemberId, cat: Catalog, c: ConfId)
    ensures SlotCountIn(Open(member, teams, w, via), m, w, cat, c, {}) ==
      if member == m then PositionsIn(cat, teams, c) else 0
  {
    if |teams| > 0 {
      var ins := Open(member, teams, w, via);
      assert ins[..|ins| - 1] == Open(member, teams[..|teams| - 1], w, via);
      CountOpen(member, teams[..|teams| - 1], w, via, m, cat, c);
    }
  }

  // ---------------------------------------------------------------------
  // Applying a trade
  // ---------------------------------------------------------------------

  /** `_apply_trade` at week `w`: both members' outgoing slots are closed at
      `w`, then each member gets a `TRADE` slot from `w` for every team the
      other gave up. */
  function ApplyTrade(slots: seq<Slot>, w: int, from: MemberId, to: MemberId,
                      fromTeams: seq<TeamId>, toTeams: seq<TeamId>): seq<Slot> {
    var closed := Close(Close(slots, from, Listed(fromTeams), w), to, Listed(toTeams), w);
    closed + Open(to, fromTeams, w, Trade) + Open(from, toTeams, w, Trade)
  }

  /** Where a row of the traded table comes from. */
  lemma ApplyTradeRow(slots: seq<Slot>, w: int, from: MemberId, to: MemberId,
                      fromTeams: seq<TeamId>, toTeams: seq<TeamId>, i: int)
    requires 0 <= i < |ApplyTrade(slots, w, from, to, fromTeams, toTeams)|
    ensures var after := ApplyTrade(slots, w, from, to, fromTeams, toTeams);
      (i < |slots| && after[i] == CloseSlot(CloseSlot(slots[i], from, Listed(fromTeams), w), to, Listed(toTeams), w)) ||
      (|slots| <= i < |slots| + |fromTeams| && after[i] == Slot(to, fromTeams[i - |slots|], w, None, Trade)) ||
      (|slots| + |fromTeams| <= i && after[i] == Slot(from, toTeams[i - |slots| - |fromTeams|], w, None, Trade))
  {
  }

  /** A team that only `from` gives up is `to`'s in week `w` and no longer
      `from`'s (and symmetrically for the other side). */
  lemma ApplyTradeMovesTeams(slots: seq<Slot>, w: int, from: MemberId, to: MemberId,
                             fromTeams: seq<TeamId>, toTeams: seq<TeamId>, t: TeamId)
    requires from != to
    ensures var after := ApplyTrade(slots, w, from, to, fromTeams, toTeams);
      t in fromTeams && t !in toTeams ==> OwnsAt(after, to, t, w) && !OwnsAt(after, from, t, w)
    ensures var after := ApplyTrade(slots, w, from, to, fromTeams, toTeams);
      t in toTeams && t !in fromTeams ==> OwnsAt(after, from, t, w) && !OwnsAt(after, to, t, w)
  {
    var after := ApplyTrade(slots, w, from, to, fromTeams, toTeams);
    var F := Listed(fromTeams);
    var T := Listed(toTeams);
    if t in fromTeams && t !in toTeams {
      var k :| 0 <= k < |fromTeams| && fromTeams[k] == t;
      ApplyTradeRow(slots, w, from, to, fromTeams, toTeams, |slots| + k);
      assert after[|slots| + k].member == to && after[|slots| + k].team == t && Holds(after[|slots| + k], w);
      forall i | 0 <= i < |after| && after[i].member == from && after[i].team == t
        ensures !Holds(after[i], w)
      {
        ApplyTradeRow(slots, w, from, to, fromTeams, toTeams, i);
        if i < |slots| {
          CloseSlotHolds(slots[i], from, F, w, w);
          CloseSlotHolds(CloseSlot(slots[i], from, F, w), to, T, w, w);
        }
      }
    }
    if t in toTeams && t !in fromTeams {
      var k :| 0 <= k < |toTeams| && toTeams[k] == t;
      ApplyTradeRow(slots, w, from, to, fromTeams, toTeams, |slots| + |fromTeams| + k);
      assert after[|slots| + |fromTeams| + k].member == from;
      assert Holds(after[|slots| + |fromTeams| + k], w);
      forall i | 0 <= i < |after| && after[i].member == to && after[i].team == t
        ensures !Holds(after[i], w)
      {
        ApplyTradeRow(slots, w, from, to, fromTeams, toTeams, i);
        if i < |slots| {
          CloseSlotHolds(slots[i], from, F, w, w);
          CloseSlotHolds(CloseSlot(slots[i], from, F, w), to, T, w, w);
        }
      }
    }
  }

  /** A team outside the trade keeps every owner it had, in every week. */
  lemma ApplyTradeKeepsOtherTeams(slots: seq<Slot>, w: int, from: MemberId, to: MemberId,
                                  fromTeams: seq<TeamId>, toTeams: seq<TeamId>,
                                  m: MemberId, t: TeamId, v: int)
    requires t !in fromTeams && t !in toTeams
    ensures OwnsAt(ApplyTrade(slots, w, from, to, fromTeams, toTeams), m, t, v) <==> OwnsAt(slots, m, t, v)
  {
    var after := ApplyTrade(slots, w, from, to, fromTeams, toTeams);
    var F := Listed(fromTeams);
    var T := Listed(toTeams);
    if OwnsAt(after, m, t, v) {
      var i :| 0 <= i < |after| && after[i].member == m && after[i].team == t && Holds(after[i], v);
      ApplyTradeRow(slots, w, from, to, fromTeams, toTeams, i);
      CloseSlotHolds(slots[i], from, F, w, v);
      CloseSlotHolds(CloseSlot(slots[i], from, F, w), to, T, w, v);
      assert slots[i] == after[i];
    }
    if OwnsAt(slots, m, t, v) {
      var i :| 0 <= i < |slots| && slots[i].member == m && slots[i].team == t && Holds(slots[i], v);
      ApplyTradeRow(slots, w, from, to, fromTeams, toTeams, i);
      CloseSlotHolds(slots[i], from, F, w, v);
      CloseSlotHolds(CloseSlot(slots[i], from, F, w), to, T, w, v);
      assert after[i] == slots[i];
    }
  }

  /** Every week before the trade week keeps its owners. */
  lemma ApplyTradeKeepsPast(slots: seq<Slot>, w: int, from: MemberId, to: MemberId,
                            fromTeams: seq<TeamId>, toTeams: seq<TeamId>,
                            m: MemberId, t: TeamId, v: int)
    requires v < w
    ensures OwnsAt(ApplyTrade(slots, w, from, to, fromTeams, toTeams), m, t, v) <==> OwnsAt(slots, m, t, v)
  {
    var after := ApplyTrade(slots, w, from, to, fromTeams, toTeams);
    var F := Listed(fromTeams);
    var T := Listed(toTeams);
    if OwnsAt(after, m, t, v) {
      var i :| 0 <= i < |after| && after[i].member == m && after[i].team == t && Holds(after[i], v);
      ApplyTradeRow(slots, w, from, to, fromTeams, toTeams, i);
      CloseSlotHolds(slots[i], from, F, w, v);
      CloseSlotHolds(CloseSlot(slots[i], from, F, w), to, T, w, v);
      assert i < |slots|;
    }
    if OwnsAt(slots, m, t, v) {
      var i :| 0 <= i < |slots| && slots[i].member == m && slots[i].team == t && Holds(slots[i], v);
      ApplyTradeRow(slots, w, from, to, fromTeams, toTeams, i);
      CloseSlotHolds(slots[i], from, F, w, v);
      CloseSlotHolds(CloseSlot(slots[i], from, F, w), to, T, w, v);
      assert after[i].member == m && after[i].team == t;
    }
  }

  /** After the trade, `from`'s count in any conference is its count without
      the teams it gave up, plus one per team it received. */
  lemma ApplyTradeCounts(slots: seq<Slot>, w: int, from: MemberId, to: MemberId,
                         fromTeams: seq<TeamId>, toTeams: seq<TeamId>, cat: Catalog, c: ConfId)
    requires from != to
    ensures SlotCountIn(ApplyTrade(slots, w, from, to, fromTeams, toTeams), from, w, cat, c, {}) ==
      SlotCountIn(slots, from, w, cat, c, Listed(fromTeams)) + PositionsIn(cat, toTeams, c)
  {
    var F := Listed(fromTeams);
    var T := Listed(toTeams);
    var once := Close(slots, from, F, w);
    var closed := Close(once, to, T, w);
    var a := Open(to, fromTeams, w, Trade);
    var b := Open(from, toTeams, w, Trade);
    CountAppend(closed + a, b, from, w, cat, c, {});
    CountAppend(closed, a, from, w, cat, c, {});
    CountClose(once, to, T, w, from, cat, c, {});
    CountClose(slots, from, F, w, from, cat, c, {});
    assert {} + F == F;
    CountOpen(to, fromTeams, w, Trade, from, cat, c);
    CountOpen(from, toTeams, w, Trade, from, cat, c);
  }

  // ---------------------------------------------------------------------
  // Validating a trade
  // ---------------------------------------------------------------------

  datatype TradeError =
    | NotOwner(member: MemberId, team: TeamId)
    | ProposerOverLimit
    | ReceiverOverLimit

  /** The ownership loop: the first listed team whose holder in week `w` is
      not `m` fails. */
  function CheckHeld(slots: seq<Slot>, teams: seq<TeamId>, w: int, m: MemberId): (r: Result<(), TradeError>)
    ensures r.Ok? <==> forall k :: 0 <= k < |teams| ==> Holder(slots, teams[k], w) == Some(m)
    ensures r.Err? ==> exists k :: 0 <= k < |teams| && r.error == NotOwner(m, teams[k])
  {
    if |teams| == 0 then Ok(())
    else if Holder(slots, teams[0], w) != Some(m) then Err(NotOwner(m, teams[0]))
    else
      var r := CheckHeld(slots, teams[1..], w, m);
      assert forall k :: 1 <= k < |teams| ==> teams[k] == teams[1..][k - 1];
      r
  }

  /** The member's count in `c` without the outgoing teams, plus what comes
      in, stays within the limit. */
  predicate Fits(slots: seq<Slot>, cat: Catalog, w: int, m: MemberId, outgoing: seq<TeamId>,
                 incoming: seq<TeamId>, c: ConfId) {
    SlotCountIn(slots, m, w, cat, c, Listed(outgoing)) + Incoming(cat, incoming, c) <= Limit(cat, c)
  }

  /** The limit loop, one step per listed incoming team (each conference of
      the incoming dict is checked at least once). */
  function CheckFits(slots: seq<Slot>, cat: Catalog, w: int, m: MemberId, outgoing: seq<TeamId>,
                     incoming: seq<TeamId>, todo: seq<TeamId>): (r: bool)
    ensures r <==> forall k :: 0 <= k < |todo| && todo[k] in cat.membership ==>
      Fits(slots, cat, w, m, outgoing, incoming, cat.membership[todo[k]])
  {
    if |todo| == 0 then true
    else
      var t := todo[0];
      var ok := t !in cat.membership || Fits(slots, cat, w, m, outgoing, incoming, cat.membership[t]);
      assert forall k :: 1 <= k < |todo| ==> todo[k] == todo[1..][k - 1];
      ok && CheckFits(slots, cat, w, m, outgoing, incoming, todo[1..])
  }

  /** Checking every incoming team's conference is checking every
      conference some incoming team plays in. */
  lemma CheckFitsAllConferences(slots: seq<Slot>, cat: Catalog, w: int, m: MemberId,
                                outgoing: seq<TeamId>, incoming: seq<TeamId>)
    ensures CheckFits(slots, cat, w, m, outgoing, incoming, incoming) <==>
      forall c :: Incoming(cat, incoming, c) > 0 ==> Fits(slots, cat, w, m, outgoing, incoming, c)
  {
    forall c | Incoming(cat, incoming, c) > 0
      ensures exists k :: 0 <= k < |incoming| && incoming[k] in cat.membership && cat.membership[incoming[k]] == c
    {
      IncomingPositive(cat, incoming, c);
    }
    forall k | 0 <= k < |incoming| && incoming[k] in cat.membership
      ensures Incoming(cat, incoming, cat.membership[incoming[k]]) > 0
    {
      IncomingPositive(cat, incoming, cat.membership[incoming[k]]);
    }
  }

  /** `_validate_trade`: ownership of the proposer's teams, then of the
      receiver's, then the proposer's conference limits, then the receiver's. */
  function ValidateTrade(slots: seq<Slot>, cat: Catalog, w: int, from: MemberId, to: MemberId,
                         fromTeams: seq<TeamId>, toTeams: seq<TeamId>): (r: Result<(), TradeError>)
    ensures r.Ok? ==> forall k :: 0 <= k < |fromTeams| ==> Holder(slots, fromTeams[k], w) == Some(from)
    ensures r.Ok? ==> forall k :: 0 <= k < |toTeams| ==> Holder(slots, toTeams[k], w) == Some(to)
    ensures r == Err(ProposerOverLimit) ==> !CheckFits(slots, cat, w, from, fromTeams, toTeams, toTeams)
  {
    var _ :- CheckHeld(slots, fromTeams, w, from);
    var _ :- CheckHeld(slots, toTeams, w, to);
    if !CheckFits(slots, cat, w, from, fromTeams, toTeams, toTeams) then Err(ProposerOverLimit)
    else if !CheckFits(slots, cat, w, to, toTeams, fromTeams, fromTeams) then Err(ReceiverOverLimit)
    else Ok(())
  }

  /** What a valid trade is, stated once over teams and conferences: each
      side holds what it gives, and each side fits every conference it
      receives a team in. */
  ghost predicate Admissible(slots: seq<Slot>, cat: Catalog, w: int, from: MemberId, to: MemberId,
                       fromTeams: seq<TeamId>, toTeams: seq<TeamId>) {
    (forall t :: t in fromTeams ==> Holder(slots, t, w) == Some(from)) &&
    (forall t :: t in toTeams ==> Holder(slots, t, w) == Some(to)) &&
    (forall c :: Incoming(cat, toTeams, c) > 0 ==> Fits(slots, cat, w, from, fromTeams, toTeams, c)) &&
    (forall c :: Incoming(cat, fromTeams, c) > 0 ==> Fits(slots, cat, w, to, toTeams, fromTeams, c))
  }

  /** The validator accepts exactly the admissible trades. */
  lemma ValidateTradeAdmits(slots: seq<Slot>, cat: Catalog, w: int, from: MemberId, to: MemberId,
                            fromTeams: seq<TeamId>, toTeams: seq<TeamId>)
    ensures ValidateTrade(slots, cat, w, from, to, fromTeams, toTeams).Ok? <==>
      Admissible(slots, cat, w, from, to, fromTeams, toTeams)
  {
    CheckFitsAllConferences(slots, cat, w, from, fromTeams, toTeams);
    CheckFitsAllConferences(slots, cat, w, to, toTeams, fromTeams);
    CheckHeldMembers(slots, fromTeams, w, from);
    CheckHeldMembers(slots, toTeams, w, to);
  }

  lemma CheckHeldMembers(slots: seq<Slot>, teams: seq<TeamId>, w: int, m: MemberId)
    ensures CheckHeld(slots, teams, w, m).Ok? <==> forall t :: t in teams ==> Holder(slots, t, w) == Some(m)
  {
    if forall k :: 0 <= k < |teams| ==> Holder(slots, teams[k], w) == Some(m) {
      forall t | t in teams ensures Holder(slots, t, w) == Some(m) {
        var k :| 0 <= k < |teams| && teams[k] == t;
      }
    }
    if forall t :: t in teams ==> Holder(slots, t, w) == Some(m) {
      forall k | 0 <= k < |teams| ensures Holder(slots, teams[k], w) == Some(m) {
        assert teams[k] in teams;
      }
    }
  }

  /** The point of the limit check: once a valid trade between two members
      is applied, each side's count in every conference it received a team
      in is within the limit, and its other counts did not grow (the
      received teams listed without repeats). */
  lemma ValidTradeKeepsLimits(slots: seq<Slot>, cat: Catalog, w: int, from: MemberId, to: MemberId,
                              fromTeams: seq<TeamId>, toTeams: seq<TeamId>, c: ConfId)
    requires ValidateTrade(slots, cat, w, from, to, fromTeams, toTeams).Ok?
    requires from != to && NoDuplicates(fromTeams) && NoDuplicates(toTeams)
    ensures var after := ApplyTrade(slots, w, from, to, fromTeams, toTeams);
      if Incoming(cat, toTeams, c) > 0 then SlotCountIn(after, from, w, cat, c, {}) <= Limit(cat, c)
      else SlotCountIn(after, from, w, cat, c, {}) <= SlotCountIn(slots, from, w, cat, c, {})
    ensures var after := ApplyTrade(slots, w, from, to, fromTeams, toTeams);
      if Incoming(cat, fromTeams, c) > 0 then SlotCountIn(after, to, w, cat, c, {}) <= Limit(cat, c)
      else SlotCountIn(after, to, w, cat, c, {}) <= SlotCountIn(slots, to, w, cat, c, {})
  {
    ValidateTradeAdmits(slots, cat, w, from, to, fromTeams, toTeams);
    ApplyTradeCounts(slots, w, from, to, fromTeams, toTeams, cat, c);
    PositionsAreTeams(cat, toTeams, c);
    ExcludeLowers(slots, from, w, cat, c, Listed(fromTeams));
    SwapSides(slots, w, from, to, fromTeams, toTeams, cat, c);
    PositionsAreTeams(cat, fromTeams, c);
    ExcludeLowers(slots, to, w, cat, c, Listed(toTeams));
  }

  /** The receiver's side of `ApplyTradeCounts`: the same table, read with
      the roles swapped. */
  lemma SwapSides(slots: seq<Slot>, w: int, from: MemberId, to: MemberId,
                  fromTeams: seq<TeamId>, toTeams: seq<TeamId>, cat: Catalog, c: ConfId)
    requires from != to
    ensures SlotCountIn(ApplyTrade(slots, w, from, to, fromTeams, toTeams), to, w, cat, c, {}) ==
      SlotCountIn(slots, to, w, cat, c, Listed(toTeams)) + PositionsIn(cat, fromTeams, c)
  {
    var F := Listed(fromTeams);
    var T := Listed(toTeams);
    var once := Close(slots, from, F, w);
    var closed := Close(once, to, T, w);
    var a := Open(to, fromTeams, w, Trade);
    var b := Open(from, toTeams, w, Trade);
    CountAppend(closed + a, b, to, w, cat, c, {});
    CountAppend(closed, a, to, w, cat, c, {});
    CountClose(once, to, T, w, to, cat, c, {});
    CountClose(slots, from, F, w, to, cat, c, T);
    assert {} + T == T;
    CountOpen(to, fromTeams, w, Trade, to, cat, c);
    CountOpen(from, toTeams, w, Trade, to, cat, c);
  }
}
