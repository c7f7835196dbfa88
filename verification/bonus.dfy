/** Season bonus points (`_compute_bonus_points` and its three handlers).
    Every handler orders the members by a value, walks the tie groups of that
    order, and gives each member of a group the award configured for the
    group's finishing position, to members the value qualifies. */
module Bonus {
  import opened Wrappers
  import opened Ownership
  import opened Postseason
  import opened Sorting
  import opened Tally
  import opened Ties

  /** `POS_KEYS`: finishing positions 1 to 4 from the top. */
  const PositionKeys: seq<string> := ["first", "second", "third", "fourth"]

  /** `NEG_POS_KEYS`: finishing positions 1 to 4 from the bottom. */
  const BottomKeys: seq<string> := ["last", "secondLast", "thirdLast", "fourthLast"]

  /** The award for finishing position `pos`: the configured points for the
      position's key, nothing for a position without a key or a key the
      league did not configure. */
  function TierAward(keys: seq<string>, cfg: map<string, real>, pos: int): real {
    if 1 <= pos <= |keys| && keys[pos - 1] in cfg then cfg[keys[pos - 1]] else 0.0
  }

  /** The value a walk groups on, as the tie walker's score. */
  function AsScore(rank: MemberId -> int): MemberId -> real {
    m => rank(m) as real
  }

  /** The `while i < len(ordered)` loop of a handler from position `i`, where
      the group starting at `i` finishes `pos`-th: the award of every member of
      `ordered[i..]`, in order. */
  function TierWalk(ordered: seq<MemberId>, rank: MemberId -> int, keys: seq<string>, cfg: map<string, real>,
                    eligible: MemberId -> bool, i: nat, pos: int): (r: seq<real>)
    requires i <= |ordered|
    ensures |r| == |ordered| - i
    decreases |ordered| - i
  {
    if i == |ordered| then []
    else
      var j := RunEnd(ordered, AsScore(rank), i);
      GroupAwards(ordered, eligible, i, j, TierAward(keys, cfg, pos)) +
      TierWalk(ordered, rank, keys, cfg, eligible, j, pos + (j - i))
  }

  /** `for mid in ordered[i:j]: if eligible: results[mid] += pts`, as the
      amount each member of the group receives. */
  function GroupAwards(ordered: seq<MemberId>, eligible: MemberId -> bool, i: nat, j: nat, award: real): (r: seq<real>)
    requires i <= j <= |ordered|
    ensures |r| == j - i
    ensures forall k :: 0 <= k < j - i ==> r[k] == if eligible(ordered[i + k]) then award else 0.0
  {
    seq(j - i, k requires 0 <= k < j - i => if eligible(ordered[i + k]) then award else 0.0)
  }

  /** How many members of `xs` rank strictly better (lower) than `x`. */
  function CountBetter(xs: seq<MemberId>, rank: MemberId -> int, x: int): nat {
    if |xs| == 0 then 0 else (if rank(xs[0]) < x then 1 else 0) + CountBetter(xs[1..], rank, x)
  }

  /** The finishing position of member `ordered[k]`: one more than the number
      of members ranked strictly better, so that tied members share it. */
  function Placing(ordered: seq<MemberId>, rank: MemberId -> int, k: nat): int
    requires k < |ordered|
  {
    1 + CountBetter(ordered, rank, rank(ordered[k]))
  }

  predicate Ascends(xs: seq<MemberId>, rank: MemberId -> int) {
    forall a, b :: 0 <= a < b < |xs| ==> rank(xs[a]) <= rank(xs[b])
  }

  lemma {:induction false} CountBetterNone(xs: seq<MemberId>, rank: MemberId -> int, x: int)
    requires forall k :: 0 <= k < |xs| ==> rank(xs[k]) >= x
    ensures CountBetter(xs, rank, x) == 0
  {
    if |xs| > 0 {
      assert forall k :: 0 <= k < |xs| - 1 ==> xs[1..][k] == xs[k + 1];
      CountBetterNone(xs[1..], rank, x);
    }
  }

  /** In an ascending order, the first member of a tie group at index `i`
      has exactly `i` members ranked better. */
  lemma {:induction false} CountBetterAtGroupStart(xs: seq<MemberId>, rank: MemberId -> int, i: nat)
    requires Ascends(xs, rank) && i < |xs|
    requires i > 0 ==> rank(xs[i - 1]) < rank(xs[i])
    ensures CountBetter(xs, rank, rank(xs[i])) == i
  {
    if i == 0 {
      CountBetterNone(xs, rank, rank(xs[0]));
    } else {
      var tail := xs[1..];
      assert forall k :: 0 <= k < |tail| ==> tail[k] == xs[k + 1];
      assert rank(xs[0]) < rank(xs[i]);
      CountBetterAtGroupStart(tail, rank, i - 1);
    }
  }

  /** The walk from a group start: position `i + 1` there, and every member
      gets the award of their placing. */
  lemma {:induction false} TierWalkFrom(ordered: seq<MemberId>, rank: MemberId -> int, keys: seq<string>,
                                        cfg: map<string, real>, eligible: MemberId -> bool, i: nat)
    requires Ascends(ordered, rank) && i <= |ordered|
    requires 0 < i < |ordered| ==> rank(ordered[i - 1]) < rank(ordered[i])
    ensures PaysDue(TierWalk(ordered, rank, keys, cfg, eligible, i, i + 1), ordered, rank, keys, cfg, eligible, i)
    decreases |ordered| - i
  {
    if i < |ordered| {
      var j := RunEnd(ordered, AsScore(rank), i);
      RunOfRank(ordered, rank, i);
      CountBetterAtGroupStart(ordered, rank, i);
      if j < |ordered| {
        assert rank(ordered[j - 1]) <= rank(ordered[j]);
      }
      TierWalkFrom(ordered, rank, keys, cfg, eligible, j);
      var head := GroupAwards(ordered, eligible, i, j, TierAward(keys, cfg, i + 1));
      var rest := TierWalk(ordered, rank, keys, cfg, eligible, j, j + 1);
      GroupDue(ordered, rank, keys, cfg, eligible, i, j);
      assert TierWalk(ordered, rank, keys, cfg, eligible, i, i + 1) == head + rest;
      PaysDueJoin(head, rest, ordered, rank, keys, cfg, eligible, i, j);
    }
  }

  /** `w` pays every member from `ordered[i]` on what they are due. */
  predicate PaysDue(w: seq<real>, ordered: seq<MemberId>, rank: MemberId -> int, keys: seq<string>,
                    cfg: map<string, real>, eligible: MemberId -> bool, i: nat)
    requires i <= |ordered|
  {
    |w| == |ordered| - i &&
    forall k :: i <= k < |ordered| ==> w[k - i] == Due(ordered, rank, keys, cfg, eligible, k)
  }

  lemma PaysDueJoin(head: seq<real>, rest: seq<real>, ordered: seq<MemberId>, rank: MemberId -> int, keys: seq<string>,
                    cfg: map<string, real>, eligible: MemberId -> bool, i: nat, j: nat)
    requires i < j <= |ordered| && |head| == j - i
    requires forall k :: i <= k < j ==> head[k - i] == Due(ordered, rank, keys, cfg, eligible, k)
    requires PaysDue(rest, ordered, rank, keys, cfg, eligible, j)
    ensures PaysDue(head + rest, ordered, rank, keys, cfg, eligible, i)
  {
    var w := head + rest;
    forall k | i <= k < |ordered|
      ensures w[k - i] == Due(ordered, rank, keys, cfg, eligible, k)
    {
      if k < j {
        assert w[k - i] == head[k - i];
      } else {
        assert w[k - i] == rest[k - j];
      }
    }
  }

  /** The tie group found from `i` is a run of equal rank, and the member
      after it ranks differently. */
  lemma RunOfRank(ordered: seq<MemberId>, rank: MemberId -> int, i: nat)
    requires i < |ordered|
    ensures forall k :: i <= k < RunEnd(ordered, AsScore(rank), i) ==> rank(ordered[k]) == rank(ordered[i])
    ensures RunEnd(ordered, AsScore(rank), i) < |ordered| ==>
      rank(ordered[RunEnd(ordered, AsScore(rank), i)]) != rank(ordered[i])
  {
    var j := RunEnd(ordered, AsScore(rank), i);
    forall k | i <= k < j
      ensures rank(ordered[k]) == rank(ordered[i])
    {
      assert AsScore(rank)(ordered[k]) == AsScore(rank)(ordered[i]);
    }
    if j < |ordered| {
      assert AsScore(rank)(ordered[j]) != AsScore(rank)(ordered[i]);
    }
  }

  /** Every member of a tie group whose first member has `i` members ranked
      better is paid the award of position `i + 1`. */
  lemma GroupDue(ordered: seq<MemberId>, rank: MemberId -> int, keys: seq<string>,
                 cfg: map<string, real>, eligible: MemberId -> bool, i: nat, j: nat)
    requires i < j <= |ordered|
    requires forall k :: i <= k < j ==> rank(ordered[k]) == rank(ordered[i])
    requires CountBetter(ordered, rank, rank(ordered[i])) == i
    ensures forall k :: i <= k < j ==>
      GroupAwards(ordered, eligible, i, j, TierAward(keys, cfg, i + 1))[k - i] == Due(ordered, rank, keys, cfg, eligible, k)
  {
    forall k | i <= k < j
      ensures GroupAwards(ordered, eligible, i, j, TierAward(keys, cfg, i + 1))[k - i] == Due(ordered, rank, keys, cfg, eligible, k)
    {
      assert Placing(ordered, rank, k) == i + 1;
    }
  }

  /** The award member `ordered[k]` is due: that of their placing, when
      eligible. */
  function Due(ordered: seq<MemberId>, rank: MemberId -> int, keys: seq<string>,
               cfg: map<string, real>, eligible: MemberId -> bool, k: nat): real
    requires k < |ordered|
  {
    if eligible(ordered[k]) then TierAward(keys, cfg, Placing(ordered, rank, k)) else 0.0
  }

  /** The whole walk starts at position 1 and gives each member the award of
      their placing: a tie group shares the position of its first member, and
      the next group's position skips past the whole group. */
  lemma TierWalkAwardsPlacing(ordered: seq<MemberId>, rank: MemberId -> int, keys: seq<string>,
                              cfg: map<string, real>, eligible: MemberId -> bool)
    requires Ascends(ordered, rank)
    ensures forall k :: 0 <= k < |ordered| ==>
      TierWalk(ordered, rank, keys, cfg, eligible, 0, 1)[k] ==
      (if eligible(ordered[k]) then TierAward(keys, cfg, Placing(ordered, rank, k)) else 0.0)
  {
    TierWalkFrom(ordered, rank, keys, cfg, eligible, 0);
    forall k | 0 <= k < |ordered|
      ensures TierWalk(ordered, rank, keys, cfg, eligible, 0, 1)[k] ==
        (if eligible(ordered[k]) then TierAward(keys, cfg, Placing(ordered, rank, k)) else 0.0)
    {
      assert TierWalk(ordered, rank, keys, cfg, eligible, 0, 1)[k - 0] == Due(ordered, rank, keys, cfg, eligible, k);
    }
  }

  /** `results[mid] += pts` for each member in turn. */
  function Credit(res: map<MemberId, real>, xs: seq<MemberId>, awards: seq<real>): (r: map<MemberId, real>)
    requires |xs| == |awards| && forall k :: 0 <= k < |xs| ==> xs[k] in res
    ensures r.Keys == res.Keys
  {
    if |xs| == 0 then res
    else
      assert forall k :: 0 <= k < |xs| - 1 ==> xs[1..][k] == xs[k + 1];
      Credit(res[xs[0] := res[xs[0]] + awards[0]], xs[1..], awards[1..])
  }

  /** Distinct members each receive exactly their own award; everyone else
      keeps what they had. */
  lemma {:induction false} CreditDistinct(res: map<MemberId, real>, xs: seq<MemberId>, awards: seq<real>)
    requires |xs| == |awards| && forall k :: 0 <= k < |xs| ==> xs[k] in res
    requires NoDuplicates(xs)
    ensures forall k :: 0 <= k < |xs| ==> Credit(res, xs, awards)[xs[k]] == res[xs[k]] + awards[k]
    ensures forall m :: m in res && m !in xs ==> Credit(res, xs, awards)[m] == res[m]
  {
    if |xs| > 0 {
      var tail := xs[1..];
      assert forall k :: 0 <= k < |tail| ==> tail[k] == xs[k + 1];
      assert forall k :: 0 <= k < |tail| ==> tail[k] != xs[0];
      assert forall m :: m in xs <==> m == xs[0] || m in tail by {
        assert xs == [xs[0]] + tail;
      }
      CreditDistinct(res[xs[0] := res[xs[0]] + awards[0]], tail, awards[1..]);
    }
  }

  /** `{mid: 0.0 for mid in member_ids}`. */
  function Zeros(memberIds: seq<MemberId>): (r: map<MemberId, real>)
    ensures r.Keys == set m | m in memberIds
    ensures forall m :: m in r ==> r[m] == 0.0
  {
    map m | m in memberIds :: 0.0
  }

  /** `sorted(member_ids, key=lambda mid: (rank(mid), mid))`. */
  function HandlerOrder(memberIds: seq<MemberId>, rank: MemberId -> int): (r: seq<MemberId>)
    ensures |r| == |memberIds| && multiset(r) == multiset(memberIds)
    ensures forall k :: 0 <= k < |r| ==> r[k] in memberIds
    ensures Ascends(r, rank)
    ensures forall a, b :: 0 <= a < b < |r| && rank(r[a]) == rank(r[b]) ==> r[a] <= r[b]
  {
    var key := Ascending(rank, m => m);
    var r := SortBy(memberIds, key);
    forall k | 0 <= k < |r| ensures r[k] in memberIds {
      assert r[k] in multiset(memberIds);
    }
    forall a, b | 0 <= a < b < |r| ensures rank(r[a]) <= rank(r[b]) && (rank(r[a]) == rank(r[b]) ==> r[a] <= r[b]) {
      assert KeyLe(key(r[a]), key(r[b]));
    }
    r
  }

  /** The shape of all three handlers: members ordered by `(rank, id)`, the
      tier walk over that order, credited to a zero map.  `rank` is the
      negated value for the top-down handlers and the value itself for the
      bottom-up one. */
  function TierBonus(memberIds: seq<MemberId>, rank: MemberId -> int, eligible: MemberId -> bool,
                     keys: seq<string>, cfg: map<string, real>): (r: map<MemberId, real>)
    ensures r.Keys == set m | m in memberIds
  {
    var ordered := HandlerOrder(memberIds, rank);
    Credit(Zeros(memberIds), ordered, TierWalk(ordered, rank, keys, cfg, eligible, 0, 1))
  }

  /** For distinct members, a handler gives each member the award of their
      placing in the handler's order, and only when `eligible` holds. */
  lemma TierBonusAwardsPlacing(memberIds: seq<MemberId>, rank: MemberId -> int, eligible: MemberId -> bool,
                               keys: seq<string>, cfg: map<string, real>)
    requires NoDuplicates(memberIds)
    ensures var ordered := HandlerOrder(memberIds, rank);
      var r := TierBonus(memberIds, rank, eligible, keys, cfg);
      forall k :: 0 <= k < |ordered| ==>
        r[ordered[k]] == (if eligible(ordered[k]) then TierAward(keys, cfg, Placing(ordered, rank, k)) else 0.0)
  {
    var ordered := HandlerOrder(memberIds, rank);
    TierWalkAwardsPlacing(ordered, rank, keys, cfg, eligible);
    DistinctPermutation(memberIds, ordered);
    CreditDistinct(Zeros(memberIds), ordered, TierWalk(ordered, rank, keys, cfg, eligible, 0, 1));
  }

  /** `_get_segment_champ_counts_by_member`, 0 without segment phases. */
  function ChampionsOf(season: Season, memberIds: seq<MemberId>, member: MemberId): nat {
    ChampionCount(season.slots, memberIds, season.games, PhaseIds(season.phases, SegmentKinds), member)
  }

  /** `_get_segment_pd_by_member`, 0 without segment phases. */
  function SegmentPdOf(season: Season, memberIds: seq<MemberId>, member: MemberId): int {
    SegmentPd(season.slots, memberIds, season.games, PhaseIds(season.phases, SegmentKinds), member)
  }

  function DepthRank(season: Season): MemberId -> int {
    m => -DepthOf(season, m)
  }

  function DepthPaid(season: Season): MemberId -> bool {
    m => DepthOf(season, m) > 0
  }

  function ChampionRank(season: Season, memberIds: seq<MemberId>): MemberId -> int {
    m => -(ChampionsOf(season, memberIds, m) as int)
  }

  function ChampionPaid(season: Season, memberIds: seq<MemberId>): MemberId -> bool {
    m => ChampionsOf(season, memberIds, m) > 0
  }

  function BottomRank(season: Season, memberIds: seq<MemberId>): MemberId -> int {
    m => SegmentPdOf(season, memberIds, m)
  }

  function BottomPaid(season: Season, memberIds: seq<MemberId>): MemberId -> bool {
    m => SegmentPdOf(season, memberIds, m) != 0
  }

  /** One entry of `League.settings.bonuses`: a bonus code and its point
      table, with every tier value already a number (`None` for a null
      table). */
  datatype BonusEntry = BonusEntry(code: string, table: Option<map<string, real>>)

  /** `BONUS_HANDLERS` and the handler call with `bonus_cfg or {}`; `None` for
      a code without a handler. */
  function Handler(season: Season, memberIds: seq<MemberId>, e: BonusEntry): (r: Option<map<MemberId, real>>)
    ensures r.Some? <==> e.code in {"playoffDepth", "conferenceChampion", "conferenceBottom"}
    ensures r.Some? ==> r.value.Keys == set m | m in memberIds
  {
    var cfg := e.table.GetOr(map[]);
    if e.code == "playoffDepth" then
      Some(TierBonus(memberIds, DepthRank(season), DepthPaid(season), PositionKeys, cfg))
    else if e.code == "conferenceChampion" then
      Some(TierBonus(memberIds, ChampionRank(season, memberIds), ChampionPaid(season, memberIds), PositionKeys, cfg))
    else if e.code == "conferenceBottom" then
      Some(TierBonus(memberIds, BottomRank(season, memberIds), BottomPaid(season, memberIds), BottomKeys, cfg))
    else None
  }

  /** What one configured bonus adds to `member`. */
  function Contribution(season: Season, memberIds: seq<MemberId>, e: BonusEntry, member: MemberId): real {
    match Handler(season, memberIds, e)
    case Some(c) => if member in c then c[member] else 0.0
    case None => 0.0
  }

  /** What the configured bonuses add to `member` together. */
  function Gain(season: Season, memberIds: seq<MemberId>, config: seq<BonusEntry>, member: MemberId): real {
    if |config| == 0 then 0.0
    else Contribution(season, memberIds, config[0], member) + Gain(season, memberIds, config[1..], member)
  }

  /** The `for bonus_code, bonus_cfg in config.items()` loop from `totals`. */
  function Accumulate(season: Season, memberIds: seq<MemberId>, config: seq<BonusEntry>,
                      totals: map<MemberId, real>): (r: map<MemberId, real>)
    ensures r.Keys == totals.Keys
    ensures forall m :: m in r ==> r[m] == totals[m] + Gain(season, memberIds, config, m)
  {
    if |config| == 0 then totals
    else
      var next := map m | m in totals :: totals[m] + Contribution(season, memberIds, config[0], m);
      Accumulate(season, memberIds, config[1..], next)
  }

  /** `_compute_bonus_points`: every member starts at 0 and collects what
      each configured bonus pays them; nobody else appears. */
  function ComputeBonusPoints(season: Season, memberIds: seq<MemberId>, config: seq<BonusEntry>): (r: map<MemberId, real>)
    ensures r.Keys == set m | m in memberIds
    ensures forall m :: m in r ==> r[m] == Gain(season, memberIds, config, m)
  {
    Accumulate(season, memberIds, config, Zeros(memberIds))
  }

  /** Some configured bonus has a handler. */
  predicate HandledBonus(config: seq<BonusEntry>) {
    exists k :: 0 <= k < |config| && config[k].code in {"playoffDepth", "conferenceChampion", "conferenceBottom"}
  }

  /** `_compute_bonus_points` when the league's `SportSeason` row may be
      missing (`found` is false): every handler looks the row up before
      anything else and raises `ValueError` without it, so the bonuses fail
      exactly when a configured code has a handler; otherwise nobody gains
      anything and the season is never read. */
  function ComputeBonusPointsFor(found: bool, season: Season, memberIds: seq<MemberId>,
                                 config: seq<BonusEntry>): (r: Option<map<MemberId, real>>)
    ensures r.None? <==> !found && HandledBonus(config)
    ensures r.Some? ==> r.value == ComputeBonusPoints(season, memberIds, config)
    ensures r.Some? && !found ==> forall m :: m in r.value ==> r.value[m] == 0.0
  {
    if !found && HandledBonus(config) then None
    else
      assert !found ==> forall m :: m in memberIds ==> Gain(season, memberIds, config, m) == 0.0 by {
        if !found {
          forall m | m in memberIds ensures Gain(season, memberIds, config, m) == 0.0 {
            GainUnhandled(season, memberIds, config, m);
          }
        }
      }
      Some(ComputeBonusPoints(season, memberIds, config))
  }

  /** Configured codes without a handler pay nothing. */
  lemma {:induction false} GainUnhandled(season: Season, memberIds: seq<MemberId>, config: seq<BonusEntry>,
                                         member: MemberId)
    requires !HandledBonus(config)
    ensures Gain(season, memberIds, config, member) == 0.0
    decreases |config|
  {
    if |config| > 0 {
      assert config[0].code !in {"playoffDepth", "conferenceChampion", "conferenceBottom"};
      assert forall k :: 0 <= k < |config[1..]| ==> config[1..][k] == config[k + 1];
      GainUnhandled(season, memberIds, config[1..], member);
    }
  }

  /** Bonuses add up: splitting the configuration in two and adding the two
      results gives the same points, so their order does not matter. */
  lemma {:induction false} GainAppend(season: Season, memberIds: seq<MemberId>, c1: seq<BonusEntry>,
                                      c2: seq<BonusEntry>, member: MemberId)
    ensures Gain(season, memberIds, c1 + c2, member) ==
      Gain(season, memberIds, c1, member) + Gain(season, memberIds, c2, member)
  {
    if |c1| > 0 {
      assert (c1 + c2)[1..] == c1[1..] + c2;
      GainAppend(season, memberIds, c1[1..], c2, member);
    } else {
      assert c1 + c2 == c2;
    }
  }

  /** A code without a handler changes nobody's points. */
  lemma UnknownCodeIgnored(season: Season, memberIds: seq<MemberId>, config: seq<BonusEntry>, e: BonusEntry)
    requires e.code !in {"playoffDepth", "conferenceChampion", "conferenceBottom"}
    ensures ComputeBonusPoints(season, memberIds, config + [e]) == ComputeBonusPoints(season, memberIds, config)
  {
    forall m | m in memberIds
      ensures ComputeBonusPoints(season, memberIds, config + [e])[m] == ComputeBonusPoints(season, memberIds, config)[m]
    {
      GainAppend(season, memberIds, config, [e], m);
    }
  }

  /** A handler pays a member nothing when the member does not qualify. */
  lemma UnqualifiedPaidNothing(memberIds: seq<MemberId>, rank: MemberId -> int, eligible: MemberId -> bool,
                               keys: seq<string>, cfg: map<string, real>, member: MemberId)
    requires NoDuplicates(memberIds) && member in memberIds && !eligible(member)
    ensures TierBonus(memberIds, rank, eligible, keys, cfg)[member] == 0.0
  {
    var ordered := HandlerOrder(memberIds, rank);
    TierBonusAwardsPlacing(memberIds, rank, eligible, keys, cfg);
    assert member in multiset(ordered);
    var k :| 0 <= k < |ordered| && ordered[k] == member;
  }

  /** A member whose teams reached no primary round, won no segment final and
      have no segment margin gets no bonus, whatever the configuration. */
  lemma {:induction false} NoResultNoBonus(season: Season, memberIds: seq<MemberId>, config: seq<BonusEntry>, member: MemberId)
    requires NoDuplicates(memberIds) && member in memberIds
    requires DepthOf(season, member) <= 0
    requires ChampionsOf(season, memberIds, member) == 0
    requires SegmentPdOf(season, memberIds, member) == 0
    ensures ComputeBonusPoints(season, memberIds, config)[member] == 0.0
  {
    NoResultGainsNothing(season, memberIds, config, member);
  }

  lemma {:induction false} NoResultGainsNothing(season: Season, memberIds: seq<MemberId>, config: seq<BonusEntry>, member: MemberId)
    requires NoDuplicates(memberIds) && member in memberIds
    requires DepthOf(season, member) <= 0
    requires ChampionsOf(season, memberIds, member) == 0
    requires SegmentPdOf(season, memberIds, member) == 0
    ensures Gain(season, memberIds, config, member) == 0.0
  {
    if |config| > 0 {
      NoResultContributesNothing(season, memberIds, config[0], member);
      NoResultGainsNothing(season, memberIds, config[1..], member);
    }
  }

  lemma NoResultContributesNothing(season: Season, memberIds: seq<MemberId>, e: BonusEntry, member: MemberId)
    requires NoDuplicates(memberIds) && member in memberIds
    requires DepthOf(season, member) <= 0
    requires ChampionsOf(season, memberIds, member) == 0
    requires SegmentPdOf(season, memberIds, member) == 0
    ensures Contribution(season, memberIds, e, member) == 0.0
  {
    var cfg := e.table.GetOr(map[]);
    if e.code == "playoffDepth" {
      UnqualifiedPaidNothing(memberIds, DepthRank(season), DepthPaid(season), PositionKeys, cfg, member);
    } else if e.code == "conferenceChampion" {
      UnqualifiedPaidNothing(memberIds, ChampionRank(season, memberIds), ChampionPaid(season, memberIds), PositionKeys, cfg, member);
    } else if e.code == "conferenceBottom" {
      UnqualifiedPaidNothing(memberIds, BottomRank(season, memberIds), BottomPaid(season, memberIds), BottomKeys, cfg, member);
    }
  }

  /** A duplicate-free sequence holds each value at most once. */
  lemma {:induction false} AtMostOnce(xs: seq<MemberId>)
    requires NoDuplicates(xs)
    ensures forall x :: multiset(xs)[x] <= 1
  {
    if |xs| > 0 {
      var tail := xs[1..];
      assert forall k :: 0 <= k < |tail| ==> tail[k] == xs[k + 1];
      assert NoDuplicates(tail);
      AtMostOnce(tail);
      assert xs == [xs[0]] + tail;
      assert xs[0] !in tail;
    }
  }

  /** A permutation of a duplicate-free sequence is duplicate-free. */
  lemma DistinctPermutation(xs: seq<MemberId>, ys: seq<MemberId>)
    requires NoDuplicates(xs) && multiset(xs) == multiset(ys)
    ensures NoDuplicates(ys)
  {
    AtMostOnce(xs);
    forall i, j | 0 <= i < j < |ys| ensures ys[i] != ys[j] {
      assert ys == ys[..i] + [ys[i]] + ys[i + 1..j] + [ys[j]] + ys[j + 1..];
      assert multiset(ys)[ys[i]] >= 1 + (if ys[j] == ys[i] then 1 else 0);
    }
  }
}
