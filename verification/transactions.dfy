/** The `Transaction` table of one league and every operation on it: trade
    proposals and their responses, cancellation, vetoes and application,
    free-agent add/drops with the swap limit, and the open-trade listing. */
module Transactions {
  import opened Wrappers
  import opened Text
  import opened Values
  import opened Ownership
  import opened Weeks
  import opened Trades
  import opened Sorting
  import opened Tally

  /** `TYPE_TRADE` and `TYPE_FREE_AGENT`. */
  datatype Kind = TradeKind | FreeAgentKind

  /** `PROPOSED`, `REJECTED`, `COMPLETED`, `CANCELLED`, `PENDING_APPLY`, `VETOED`. */
  datatype Status = Proposed | Rejected | Completed | Cancelled | PendingApply | Vetoed

  /** A `Transaction` row.  A free-agent row has no receiving member and no
      team lists; `createdAt` is the instant the row was written. */
  datatype Transaction = Transaction(id: int, weekId: int, kind: Kind, from: MemberId,
                                     to: Option<MemberId>, status: Status,
                                     fromTeams: seq<TeamId>, toTeams: seq<TeamId>,
                                     decidedBy: Option<MemberId>, rejectReason: Option<string>,
                                     createdAt: int)

  /** A `TransactionVote` row. */
  datatype Vote = Vote(transaction: int, member: MemberId, veto: bool)

  /** The rows of one league the transaction code reads and writes.  The
      deadlines are instants compared with the `now` each operation is given. */
  datatype League = League(settings: PyValue, members: set<MemberId>, weeks: seq<Week>,
                           slots: seq<Slot>, cat: Catalog,
                           tradeDeadline: Option<int>, freeAgentDeadline: Option<int>,
                           txs: seq<Transaction>, votes: seq<Vote>)

  /** The `ValueError`s and `SwapLimitExceeded` the operations raise. */
  datatype TxError =
    | MalformedSettings
    | SwapLimitExceeded(used: nat, max: int)
    | MembersNotInLeague
    | TradeDeadlinePassed
    | FreeAgentDeadlinePassed
    | WeekNotInLeague(weekId: int)
    | NoUnlockedWeek(number: int)
    | WeekLocked
    | InvalidTrade(reason: TradeError)
    | InvalidAction
    | TransactionNotFound
    | AlreadyResolved
    | NotReceiver
    | NotTrade
    | NotProposed
    | NotProposer
    | NotVetoable(status: Status)
    | ParticipantVeto
    | VetoDisabled
    | VetoNotConfigured
    | MissingReceiver
    | MissingConference(teams: seq<TeamId>)
    | NotOnRoster(team: TeamId)
    | NegativeCount(conf: ConfId)
    | NotFreeAgent(team: TeamId)
    | OverLimit(count: int, max: int)

  /** `deadline IS NOT NULL AND now() > deadline`. */
  predicate PastDeadline(deadline: Option<int>, now: int) {
    deadline.Some? && now > deadline.value
  }

  // ---------------------------------------------------------------------
  // Settings
  // ---------------------------------------------------------------------

  /** A settings section the next `.get` can read: a dict, or anything falsy
      (which `or {}` replaces by an empty dict). */
  predicate Readable(v: PyValue) {
    !Truthy(v) || v.DictVal?
  }

  /** `d.get(key) or {}`, which the next `.get` needs to be a dict. */
  function Section(d: PyValue, key: string): (r: Result<PyValue, TxError>)
    ensures r.Ok? ==> r.value.DictVal?
    ensures !Truthy(GetOrNone(d, key)) ==> r == Ok(DictVal([]))
  {
    var v := GetOrNone(d, key);
    if !Truthy(v) then Ok(DictVal([]))
    else if v.DictVal? then Ok(v)
    else Err(MalformedSettings)
  }

  /** `_get_max_swaps_for_league`: `roster.maxSwaps` through `int()`, with
      `None` when it is missing or `int()` fails. */
  function MaxSwaps(settings: PyValue): (r: Result<Option<int>, TxError>)
    ensures r.Err? ==> !settings.DictVal? || (Truthy(GetOrNone(settings, "roster")) && !GetOrNone(settings, "roster").DictVal?)
    ensures settings.DictVal? && !Truthy(GetOrNone(settings, "roster")) ==> r == Ok(None)
    ensures r.Ok? <==> settings.DictVal? && Readable(GetOrNone(settings, "roster"))
    ensures r.Ok? ==> var v := GetOrNone(GetOrNone(settings, "roster"), "maxSwaps");
      (v.NoneVal? ==> r.value == None) &&
      (v.IntVal? ==> r.value == Some(v.i)) &&
      (v.StrVal? ==> r.value == ParseInt(v.s)) &&
      (v.ListVal? || v.DictVal? ==> r.value == None)
  {
    var _ :- Need(settings.DictVal?, MalformedSettings);
    var roster :- Section(settings, "roster");
    var v := GetOrNone(roster, "maxSwaps");
    if v == NoneVal then Ok(None) else Ok(ToInt(v))
  }

  /** `_get_member_swap_count`: the member's `FREE_AGENT` rows, whatever their status. */
  function SwapCount(txs: seq<Transaction>, member: MemberId): (n: nat)
    ensures n <= |txs|
    ensures n == 0 <==> forall i :: 0 <= i < |txs| ==> !(txs[i].kind == FreeAgentKind && txs[i].from == member)
  {
    if |txs| == 0 then 0
    else
      var t := txs[|txs| - 1];
      var prefix := txs[..|txs| - 1];
      assert forall i :: 0 <= i < |prefix| ==> prefix[i] == txs[i];
      SwapCount(prefix, member) + (if t.kind == FreeAgentKind && t.from == member then 1 else 0)
  }

  /** A limit that is absent or not positive. */
  predicate Unlimited(max: Option<int>) {
    max.None? || max.value <= 0
  }

  /** `_ensure_member_can_swap`. */
  function EnsureCanSwap(settings: PyValue, txs: seq<Transaction>, member: MemberId): (r: Result<(), TxError>)
    ensures r.Ok? <==> (MaxSwaps(settings).Ok? &&
      (Unlimited(MaxSwaps(settings).value) || SwapCount(txs, member) < MaxSwaps(settings).value.value))
  {
    var max :- MaxSwaps(settings);
    if Unlimited(max) then Ok(())
    else if SwapCount(txs, member) >= max.value then Err(SwapLimitExceeded(SwapCount(txs, member), max.value))
    else Ok(())
  }

  /** The trade-veto settings: whether vetoes are on and how many are needed. */
  datatype VetoConfig = VetoConfig(enabled: bool, required: int)

  /** The `transactions.tradeVeto` section, `None` where a level is missing. */
  function VetoSection(settings: PyValue): PyValue {
    GetOrNone(GetOrNone(settings, "transactions"), "tradeVeto")
  }

  /** `_get_trade_veto_settings`: `transactions.tradeVeto`, with `enabled`
      read through `bool()` and `requiredVetoCount` through `int()`, 0 when
      missing or unparsable. */
  function VetoSettings(settings: PyValue): (r: Result<VetoConfig, TxError>)
    ensures r.Ok? ==> settings.DictVal?
    ensures r.Ok? <==> settings.DictVal? && Readable(GetOrNone(settings, "transactions")) &&
                       Readable(VetoSection(settings))
    ensures r.Ok? ==>
      (r.value.enabled <==> Get(VetoSection(settings), "enabled").Some? && Truthy(Get(VetoSection(settings), "enabled").value))
    ensures r.Ok? ==> var q := GetOrNone(VetoSection(settings), "requiredVetoCount");
      (q.IntVal? ==> r.value.required == q.i) &&
      (q.StrVal? ==> r.value.required == ParseInt(q.s).GetOr(0)) &&
      (q.NoneVal? || q.ListVal? || q.DictVal? ==> r.value.required == 0)
  {
    var _ :- Need(settings.DictVal?, MalformedSettings);
    var tx :- Section(settings, "transactions");
    var veto :- Section(tx, "tradeVeto");
    var enabled := Truthy(Get(veto, "enabled").GetOr(BoolVal(false)));
    var required := GetOrNone(veto, "requiredVetoCount");
    Ok(VetoConfig(enabled, if required == NoneVal then 0 else ToInt(required).GetOr(0)))
  }

  // ---------------------------------------------------------------------
  // Members
  // ---------------------------------------------------------------------

  function Distinct(ids: seq<MemberId>): set<MemberId> {
    set x | x in ids
  }

  function Known(members: set<MemberId>, ids: seq<MemberId>): set<MemberId> {
    set x | x in ids && x in members
  }

  /** Counting the league's rows among the ids matches counting the distinct
      ids exactly when every id belongs to the league. */
  lemma KnownCount(members: set<MemberId>, ids: seq<MemberId>)
    ensures |Known(members, ids)| == |Distinct(ids)| <==> forall i :: 0 <= i < |ids| ==> ids[i] in members
  {
    if exists i :: 0 <= i < |ids| && ids[i] !in members {
      var i :| 0 <= i < |ids| && ids[i] !in members;
      SubsetCard(Known(members, ids), Distinct(ids) - {ids[i]});
    } else {
      assert Known(members, ids) == Distinct(ids);
    }
  }

  /** `_validate_members_in_league`: the number of league members among the
      ids must equal the number of distinct ids; an empty list passes. */
  function ValidateMembers(members: set<MemberId>, ids: seq<MemberId>): (r: Result<(), TxError>)
    ensures r.Ok? <==> forall i :: 0 <= i < |ids| ==> ids[i] in members
  {
    if |ids| == 0 then Ok(())
    else
      KnownCount(members, ids);
      Need(|Known(members, ids)| == |Distinct(ids)|, MembersNotInLeague)
  }

  // ---------------------------------------------------------------------
  // The trade status machine
  // ---------------------------------------------------------------------

  /** The row with the given primary key. */
  function FindTx(txs: seq<Transaction>, id: int): (r: Option<nat>)
    ensures r.None? <==> forall i :: 0 <= i < |txs| ==> txs[i].id != id
    ensures r.Some? ==> r.value < |txs| && txs[r.value].id == id
  {
    if |txs| == 0 then None
    else if txs[0].id == id then Some(0)
    else
      var r := FindTx(txs[1..], id);
      assert forall i :: 1 <= i < |txs| ==> txs[i] == txs[1..][i - 1];
      if r.Some? then Some(r.value + 1) else None
  }

  function AsTx(r: Result<(), TradeError>): (r': Result<(), TxError>)
    ensures r'.Ok? <==> r.Ok?
  {
    match r
    case Ok(_) => Ok(())
    case Err(e) => Err(InvalidTrade(e))
  }

  /** The statuses no response, cancellation or veto leaves. */
  predicate Resolved(s: Status) {
    s == Completed || s == Rejected || s == Cancelled || s == Vetoed
  }

  /** `after` is `before` with row `i` given status `s` and nothing else
      changed outside that row. */
  predicate OnlyStatusOf(before: seq<Transaction>, after: seq<Transaction>, i: nat, s: Status) {
    i < |before| && |after| == |before| && after[i].status == s &&
    after[i].id == before[i].id && after[i].kind == before[i].kind &&
    after[i].fromTeams == before[i].fromTeams && after[i].toTeams == before[i].toTeams &&
    forall j :: 0 <= j < |before| && j != i ==> after[j] == before[j]
  }

  /** `propose_trade`: the week must exist and be unlocked, both members
      belong to the league, the deadline has not passed and the trade
      validates at the week; then a `PROPOSED` row is added. */
  function ProposeTrade(lg: League, now: int, weekId: int, from: MemberId, to: MemberId,
                        fromTeams: seq<TeamId>, toTeams: seq<TeamId>, newId: int): (r: Result<League, TxError>)
    ensures r.Ok? <==>
      WeekById(lg.weeks, weekId).Some? && !WeekById(lg.weeks, weekId).value.isLocked &&
      from in lg.members && to in lg.members && !PastDeadline(lg.tradeDeadline, now) &&
      ValidateTrade(lg.slots, lg.cat, WeekById(lg.weeks, weekId).value.number, from, to, fromTeams, toTeams).Ok?
    ensures r.Ok? ==> r.value.slots == lg.slots && r.value.votes == lg.votes
    ensures r.Ok? ==> |r.value.txs| == |lg.txs| + 1 && r.value.txs[..|lg.txs|] == lg.txs
    ensures r.Ok? ==> var t := r.value.txs[|lg.txs|];
      t.status == Proposed && t.kind == TradeKind && t.from == from && t.to == Some(to) &&
      t.fromTeams == fromTeams && t.toTeams == toTeams
  {
    var week :- WeekById(lg.weeks, weekId).ToResult(WeekNotInLeague(weekId));
    var _ :- Need(!week.isLocked, WeekLocked);
    assert ValidateMembers(lg.members, [from, to]).Ok? <==> from in lg.members && to in lg.members by {
      assert [from, to][0] == from && [from, to][1] == to;
    }
    var _ :- ValidateMembers(lg.members, [from, to]);
    var _ :- Need(!PastDeadline(lg.tradeDeadline, now), TradeDeadlinePassed);
    var _ :- AsTx(ValidateTrade(lg.slots, lg.cat, week.number, from, to, fromTeams, toTeams));
    var t := Transaction(newId, weekId, TradeKind, from, Some(to), Proposed, fromTeams, toTeams, None, None, now);
    assert (lg.txs + [t])[..|lg.txs|] == lg.txs;
    Ok(lg.(txs := lg.txs + [t]))
  }

  /** What accepting a proposed trade demands besides being its receiver:
      the deadline has not passed, the trade's week is in the league and
      unlocked, and the swap is valid in that week. */
  predicate AcceptAdmissible(lg: League, now: int, tx: Transaction, responder: MemberId) {
    !PastDeadline(lg.tradeDeadline, now) &&
    WeekById(lg.weeks, tx.weekId).Some? && !WeekById(lg.weeks, tx.weekId).value.isLocked &&
    ValidateTrade(lg.slots, lg.cat, WeekById(lg.weeks, tx.weekId).value.number, tx.from, responder,
                  tx.fromTeams, tx.toTeams).Ok?
  }

  /** `respond_to_trade`: the action, upper-cased, must be ACCEPT or REJECT;
      only the receiver of a `PROPOSED` row may respond.  REJECT records the
      reason; ACCEPT re-checks the deadline, the week's lock and the trade,
      and leaves the row `PENDING_APPLY`. */
  function RespondToTrade(lg: League, now: int, id: int, action: string, responder: MemberId,
                          reason: Option<string>): (r: Result<League, TxError>)
    ensures Upper(action) != "ACCEPT" && Upper(action) != "REJECT" ==> r == Err(InvalidAction)
    ensures r.Ok? <==> ((Upper(action) == "ACCEPT" || Upper(action) == "REJECT") &&
                        FindTx(lg.txs, id).Some? &&
                        lg.txs[FindTx(lg.txs, id).value].status == Proposed &&
                        lg.txs[FindTx(lg.txs, id).value].to == Some(responder) &&
                        (Upper(action) == "REJECT" ||
                         AcceptAdmissible(lg, now, lg.txs[FindTx(lg.txs, id).value], responder)))
    ensures r.Ok? ==> (FindTx(lg.txs, id).Some? &&
      lg.txs[FindTx(lg.txs, id).value].status == Proposed &&
      lg.txs[FindTx(lg.txs, id).value].to == Some(responder))
    ensures r.Ok? ==> r.value.slots == lg.slots && r.value.votes == lg.votes
    ensures r.Ok? && Upper(action) == "REJECT" ==>
      OnlyStatusOf(lg.txs, r.value.txs, FindTx(lg.txs, id).value, Rejected)
    ensures r.Ok? && Upper(action) == "ACCEPT" ==>
      OnlyStatusOf(lg.txs, r.value.txs, FindTx(lg.txs, id).value, PendingApply) &&
      !PastDeadline(lg.tradeDeadline, now)
    ensures r.Ok? ==> r.value.txs[FindTx(lg.txs, id).value].decidedBy == Some(responder)
  {
    var act := Upper(action);
    var _ :- Need(act == "ACCEPT" || act == "REJECT", InvalidAction);
    var i :- FindTx(lg.txs, id).ToResult(TransactionNotFound);
    var tx := lg.txs[i];
    var _ :- Need(tx.status == Proposed, AlreadyResolved);
    var _ :- Need(tx.to == Some(responder), NotReceiver);
    if act == "REJECT" then
      Ok(lg.(txs := lg.txs[i := tx.(status := Rejected, decidedBy := Some(responder), rejectReason := reason)]))
    else
      var _ :- Need(!PastDeadline(lg.tradeDeadline, now), TradeDeadlinePassed);
      var week :- WeekById(lg.weeks, tx.weekId).ToResult(WeekNotInLeague(tx.weekId));
      var _ :- Need(!week.isLocked, WeekLocked);
      var _ :- AsTx(ValidateTrade(lg.slots, lg.cat, week.number, tx.from, responder, tx.fromTeams, tx.toTeams));
      Ok(lg.(txs := lg.txs[i := tx.(status := PendingApply, decidedBy := Some(responder))]))
  }

  /** `cancel_trade_proposal`: only the proposer of a `PROPOSED` trade may
      cancel it. */
  function CancelTrade(lg: League, id: int, requester: MemberId): (r: Result<League, TxError>)
    ensures r.Ok? <==> (FindTx(lg.txs, id).Some? &&
      var tx := lg.txs[FindTx(lg.txs, id).value];
      tx.kind == TradeKind && tx.status == Proposed && tx.from == requester)
    ensures r.Ok? ==> (OnlyStatusOf(lg.txs, r.value.txs, FindTx(lg.txs, id).value, Cancelled) &&
      r.value.txs[FindTx(lg.txs, id).value].decidedBy == Some(requester))
    ensures r.Ok? ==> r.value.slots == lg.slots && r.value.votes == lg.votes
  {
    var i :- FindTx(lg.txs, id).ToResult(TransactionNotFound);
    var tx := lg.txs[i];
    var _ :- Need(tx.kind == TradeKind, NotTrade);
    var _ :- Need(tx.status == Proposed, NotProposed);
    var _ :- Need(requester == tx.from, NotProposer);
    Ok(lg.(txs := lg.txs[i := tx.(status := Cancelled, decidedBy := Some(requester))]))
  }

  /** `apply_trade`: with the deadline open and the row's week found, the
      trade is carried out at that week's number and the row is `COMPLETED`.
      The row's status is not consulted. */
  function ApplyTransaction(lg: League, now: int, id: int): (r: Result<League, TxError>)
    ensures r.Ok? <==> (FindTx(lg.txs, id).Some? && !PastDeadline(lg.tradeDeadline, now) &&
      WeekById(lg.weeks, lg.txs[FindTx(lg.txs, id).value].weekId).Some? &&
      lg.txs[FindTx(lg.txs, id).value].to.Some?)
    ensures r.Ok? ==> OnlyStatusOf(lg.txs, r.value.txs, FindTx(lg.txs, id).value, Completed)
    ensures r.Ok? ==> r.value.votes == lg.votes && |r.value.slots| >= |lg.slots|
  {
    var i :- FindTx(lg.txs, id).ToResult(TransactionNotFound);
    var tx := lg.txs[i];
    var _ :- Need(!PastDeadline(lg.tradeDeadline, now), TradeDeadlinePassed);
    var week :- WeekById(lg.weeks, tx.weekId).ToResult(WeekNotInLeague(tx.weekId));
    var _ :- Need(tx.to.Some?, MissingReceiver);
    var slots := ApplyTrade(lg.slots, week.number, tx.from, tx.to.value, tx.fromTeams, tx.toTeams);
    Ok(lg.(slots := slots, txs := lg.txs[i := tx.(status := Completed)]))
  }

  /** Applying a trade between two members moves each team only one side
      gives up to the other side for the trade week, leaves every other team
      and every earlier week as it was. */
  lemma ApplyTransactionMoves(lg: League, now: int, id: int, t: TeamId, m: MemberId, v: int)
    requires ApplyTransaction(lg, now, id).Ok?
    requires var tx := lg.txs[FindTx(lg.txs, id).value]; tx.from != tx.to.value
    ensures var tx := lg.txs[FindTx(lg.txs, id).value];
      var w := WeekById(lg.weeks, tx.weekId).value.number;
      var after := ApplyTransaction(lg, now, id).value.slots;
      (t in tx.fromTeams && t !in tx.toTeams ==> OwnsAt(after, tx.to.value, t, w) && !OwnsAt(after, tx.from, t, w)) &&
      (t in tx.toTeams && t !in tx.fromTeams ==> OwnsAt(after, tx.from, t, w) && !OwnsAt(after, tx.to.value, t, w)) &&
      (t !in tx.fromTeams && t !in tx.toTeams ==> (OwnsAt(after, m, t, v) <==> OwnsAt(lg.slots, m, t, v))) &&
      (v < w ==> (OwnsAt(after, m, t, v) <==> OwnsAt(lg.slots, m, t, v)))
  {
    var tx := lg.txs[FindTx(lg.txs, id).value];
    var w := WeekById(lg.weeks, tx.weekId).value.number;
    ApplyTradeMovesTeams(lg.slots, w, tx.from, tx.to.value, tx.fromTeams, tx.toTeams, t);
    if t !in tx.fromTeams && t !in tx.toTeams {
      ApplyTradeKeepsOtherTeams(lg.slots, w, tx.from, tx.to.value, tx.fromTeams, tx.toTeams, m, t, v);
    }
    if v < w {
      ApplyTradeKeepsPast(lg.slots, w, tx.from, tx.to.value, tx.fromTeams, tx.toTeams, m, t, v);
    }
  }

  // ---------------------------------------------------------------------
  // Vetoes
  // ---------------------------------------------------------------------

  /** The voter's flag on a trade: the last row for the pair, if any. */
  function VoteOf(votes: seq<Vote>, id: int, member: MemberId): (r: Option<bool>)
    ensures r.None? <==> forall k :: 0 <= k < |votes| ==> !(votes[k].transaction == id && votes[k].member == member)
  {
    if |votes| == 0 then None
    else
      var v := votes[|votes| - 1];
      var prefix := votes[..|votes| - 1];
      assert forall k :: 0 <= k < |prefix| ==> prefix[k] == votes[k];
      if v.transaction == id && v.member == member then Some(v.veto) else VoteOf(prefix, id, member)
  }

  /** `SELECT COUNT(*) … WHERE transactionId = :id AND veto = true`. */
  function ActiveVetoes(votes: seq<Vote>, id: int): (n: nat)
    ensures n <= |votes|
  {
    if |votes| == 0 then 0
    else
      var v := votes[|votes| - 1];
      ActiveVetoes(votes[..|votes| - 1], id) + (if v.transaction == id && v.veto then 1 else 0)
  }

  /** `UPDATE … SET veto = NOT veto` on the pair's rows. */
  function Flip(votes: seq<Vote>, id: int, member: MemberId): (r: seq<Vote>)
    ensures |r| == |votes|
  {
    if |votes| == 0 then []
    else
      var v := votes[|votes| - 1];
      Flip(votes[..|votes| - 1], id, member) +
        [if v.transaction == id && v.member == member then v.(veto := !v.veto) else v]
  }

  /** A vote toggle: flip the pair's row, or add one that vetoes. */
  function Toggle(votes: seq<Vote>, id: int, member: MemberId): seq<Vote> {
    if VoteOf(votes, id, member).Some? then Flip(votes, id, member) else votes + [Vote(id, member, true)]
  }

  /** The unique constraint on (transaction, member). */
  predicate UniqueVotes(votes: seq<Vote>) {
    forall j, k :: 0 <= j < k < |votes| ==>
      !(votes[j].transaction == votes[k].transaction && votes[j].member == votes[k].member)
  }

  lemma {:induction false} FlipVoteOf(votes: seq<Vote>, id: int, member: MemberId, id': int, m': MemberId)
    ensures VoteOf(Flip(votes, id, member), id', m') ==
      if id' == id && m' == member then
        (match VoteOf(votes, id, member) case None => None case Some(b) => Some(!b))
      else VoteOf(votes, id', m')
  {
    if |votes| > 0 {
      var prefix := votes[..|votes| - 1];
      var f := Flip(votes, id, member);
      assert f[..|f| - 1] == Flip(prefix, id, member);
      FlipVoteOf(prefix, id, member, id', m');
    }
  }

  /** A toggle turns the voter's flag over (a first vote vetoes) and leaves
      every other pair's flag alone. */
  lemma ToggleVoteOf(votes: seq<Vote>, id: int, member: MemberId, id': int, m': MemberId)
    ensures VoteOf(Toggle(votes, id, member), id', m') ==
      if id' == id && m' == member then Some(!VoteOf(votes, id, member).GetOr(false))
      else VoteOf(votes, id', m')
  {
    if VoteOf(votes, id, member).Some? {
      FlipVoteOf(votes, id, member, id', m');
    } else {
      var after := votes + [Vote(id, member, true)];
      assert after[..|after| - 1] == votes;
    }
  }

  lemma {:induction false} FlipCount(votes: seq<Vote>, id: int, member: MemberId)
    requires UniqueVotes(votes)
    ensures ActiveVetoes(Flip(votes, id, member), id) + (if VoteOf(votes, id, member) == Some(true) then 1 else 0) ==
      ActiveVetoes(votes, id) + (if VoteOf(votes, id, member) == Some(false) then 1 else 0)
  {
    if |votes| > 0 {
      var prefix := votes[..|votes| - 1];
      var v := votes[|votes| - 1];
      var f := Flip(votes, id, member);
      assert f[..|f| - 1] == Flip(prefix, id, member);
      assert UniqueVotes(prefix);
      FlipCount(prefix, id, member);
      if v.transaction == id && v.member == member {
        assert VoteOf(prefix, id, member).None? by {
          forall k | 0 <= k < |prefix| ensures !(prefix[k].transaction == id && prefix[k].member == member) {
            assert prefix[k] == votes[k];
          }
        }
      }
    }
  }

  /** Under the unique constraint, a toggle moves the trade's veto count by
      exactly one: up when the voter now vetoes, down when they withdraw. */
  lemma ToggleCount(votes: seq<Vote>, id: int, member: MemberId)
    requires UniqueVotes(votes)
    ensures var b := VoteOf(votes, id, member).GetOr(false);
      ActiveVetoes(Toggle(votes, id, member), id) == if b then ActiveVetoes(votes, id) - 1 else ActiveVetoes(votes, id) + 1
    ensures UniqueVotes(Toggle(votes, id, member))
  {
    if VoteOf(votes, id, member).Some? {
      FlipCount(votes, id, member);
      var f := Flip(votes, id, member);
      FlipKeepsPairs(votes, id, member);
    } else {
      var after := votes + [Vote(id, member, true)];
      assert after[..|after| - 1] == votes;
    }
  }

  lemma {:induction false} FlipKeepsPairs(votes: seq<Vote>, id: int, member: MemberId)
    ensures forall k :: 0 <= k < |votes| ==>
      Flip(votes, id, member)[k].transaction == votes[k].transaction &&
      Flip(votes, id, member)[k].member == votes[k].member
  {
    if |votes| > 0 {
      FlipKeepsPairs(votes[..|votes| - 1], id, member);
    }
  }

  /** `veto_trade`'s answer: the new flag, the count and the threshold. */
  datatype VetoOutcome = VetoOutcome(league: League, memberVetoed: bool, vetoCount: nat, required: int)

  /** `veto_trade`: a trade still open (neither completed, rejected,
      cancelled nor vetoed) can be vetoed by a league member who is not one
      of its two sides, when vetoes are enabled with a positive threshold.
      The vote toggles, and the trade becomes `VETOED` once the active
      vetoes reach the threshold. */
  function VetoTrade(lg: League, id: int, voter: MemberId): (r: Result<VetoOutcome, TxError>)
    ensures r.Ok? <==> FindTx(lg.txs, id).Some? && VetoChecks(lg, lg.txs[FindTx(lg.txs, id).value], voter).Ok?
    ensures FindTx(lg.txs, id).None? ==> r == Err(TransactionNotFound)
    ensures r.Ok? ==> (FindTx(lg.txs, id).Some? &&
      VetoChecks(lg, lg.txs[FindTx(lg.txs, id).value], voter) == Ok(r.value.required))
    ensures r.Ok? ==> r.value.league.slots == lg.slots && r.value.league.votes == Toggle(lg.votes, id, voter)
    ensures r.Ok? ==> r.value.vetoCount == ActiveVetoes(r.value.league.votes, id)
    ensures r.Ok? ==> Some(r.value.memberVetoed) == VoteOf(r.value.league.votes, id, voter)
    ensures r.Ok? ==> OnlyStatusOf(lg.txs, r.value.league.txs, FindTx(lg.txs, id).value,
      if r.value.vetoCount >= r.value.required then Vetoed else lg.txs[FindTx(lg.txs, id).value].status)
  {
    var i :- FindTx(lg.txs, id).ToResult(TransactionNotFound);
    var tx := lg.txs[i];
    var required :- VetoChecks(lg, tx, voter);
    var votes := Toggle(lg.votes, id, voter);
    ToggleVoteOf(lg.votes, id, voter, id, voter);
    var count := ActiveVetoes(votes, id);
    var status := if count >= required then Vetoed else tx.status;
    Ok(VetoOutcome(lg.(votes := votes, txs := lg.txs[i := tx.(status := status)]),
                   VoteOf(votes, id, voter).value, count, required))
  }

  /** The refusals of `veto_trade`, in order; on success, the threshold. */
  function VetoChecks(lg: League, tx: Transaction, voter: MemberId): (r: Result<int, TxError>)
    ensures r.Ok? <==> (tx.kind == TradeKind && !Resolved(tx.status) && voter in lg.members &&
      tx.to.Some? && voter != tx.from && voter != tx.to.value &&
      VetoSettings(lg.settings).Ok? && VetoSettings(lg.settings).value.enabled &&
      VetoSettings(lg.settings).value.required > 0)
    ensures r.Ok? ==> r.value == VetoSettings(lg.settings).value.required
  {
    var _ :- Need(tx.kind == TradeKind, NotTrade);
    var _ :- Need(!Resolved(tx.status), NotVetoable(tx.status));
    assert ValidateMembers(lg.members, [voter]).Ok? <==> voter in lg.members by {
      assert [voter][0] == voter;
    }
    var _ :- ValidateMembers(lg.members, [voter]);
    var _ :- Need(tx.to.Some?, MissingReceiver);
    var _ :- Need(voter != tx.from && voter != tx.to.value, ParticipantVeto);
    var config :- VetoSettings(lg.settings);
    var _ :- Need(config.enabled, VetoDisabled);
    var _ :- Need(config.required > 0, VetoNotConfigured);
    Ok(config.required)
  }

  /** A veto vote turns the voter's flag over (a first vote vetoes), moves the
      trade's count of active vetoes by one in that direction, and makes the
      trade `VETOED` exactly when the count reaches the threshold. */
  lemma VetoToggles(lg: League, id: int, voter: MemberId)
    requires UniqueVotes(lg.votes)
    ensures VetoTrade(lg, id, voter).Ok? ==>
      var out := VetoTrade(lg, id, voter).value;
      var before := VoteOf(lg.votes, id, voter).GetOr(false);
      out.memberVetoed == !before &&
      out.vetoCount == (if before then ActiveVetoes(lg.votes, id) - 1 else ActiveVetoes(lg.votes, id) + 1) &&
      UniqueVotes(out.league.votes) &&
      (out.league.txs[FindTx(lg.txs, id).value].status == Vetoed <==>
        out.vetoCount >= out.required || lg.txs[FindTx(lg.txs, id).value].status == Vetoed)
  {
    if VetoTrade(lg, id, voter).Ok? {
      ToggleVoteOf(lg.votes, id, voter, id, voter);
      ToggleCount(lg.votes, id, voter);
    }
  }

  /** A resolved trade stays resolved: responding, cancelling and vetoing all
      refuse it. */
  lemma ResolvedIsFinal(lg: League, now: int, id: int, action: string, member: MemberId, reason: Option<string>)
    requires FindTx(lg.txs, id).Some? && Resolved(lg.txs[FindTx(lg.txs, id).value].status)
    ensures RespondToTrade(lg, now, id, action, member, reason).Err?
    ensures CancelTrade(lg, id, member).Err?
    ensures VetoTrade(lg, id, member).Err?
  {
  }

  // ---------------------------------------------------------------------
  // Open trades
  // ---------------------------------------------------------------------

  /** A trade not yet completed, rejected, cancelled or vetoed. */
  predicate IsOpen(tx: Transaction) {
    tx.kind == TradeKind && !Resolved(tx.status)
  }

  /** An entry of the listing, seen by `member`. */
  datatype OpenTrade = OpenTrade(tx: Transaction, memberHasVetoed: bool, isParticipant: bool, vetoCount: nat)

  function Entry(tx: Transaction, votes: seq<Vote>, member: MemberId): OpenTrade {
    OpenTrade(tx, VoteOf(votes, tx.id, member).GetOr(false),
              tx.from == member || tx.to == Some(member), ActiveVetoes(votes, tx.id))
  }

  /** The open trades of the table, as entries. */
  function OpenEntries(txs: seq<Transaction>, votes: seq<Vote>, member: MemberId): (r: seq<OpenTrade>)
    ensures forall e :: e in r <==> e.tx in txs && IsOpen(e.tx) && e == Entry(e.tx, votes, member)
  {
    if |txs| == 0 then []
    else
      var rest := OpenEntries(txs[1..], votes, member);
      assert forall t :: t in txs <==> t == txs[0] || t in txs[1..];
      if IsOpen(txs[0]) then [Entry(txs[0], votes, member)] + rest else rest
  }

  /** `ORDER BY createdAt DESC`; rows created at the same instant are taken
      by id. */
  function NewestFirst(): OpenTrade -> Key {
    (e: OpenTrade) => Key(-(e.tx.createdAt as real), 0.0, e.tx.id)
  }

  datatype OpenTrades = OpenTrades(incoming: seq<OpenTrade>, outgoing: seq<OpenTrade>, others: seq<OpenTrade>)

  /** The listing loop: a participant's entry goes to `incoming` when they
      receive it and to `outgoing` when they proposed it; anyone else's goes
      to `others`. */
  function Split(entries: seq<OpenTrade>, member: MemberId): (r: OpenTrades)
    ensures forall e :: e in r.incoming <==> e in entries && e.isParticipant && e.tx.to == Some(member)
    ensures forall e :: e in r.outgoing <==> e in entries && e.isParticipant && e.tx.from == member
    ensures forall e :: e in r.others <==> e in entries && !e.isParticipant
  {
    if |entries| == 0 then OpenTrades([], [], [])
    else
      var e := entries[0];
      var rest := Split(entries[1..], member);
      assert forall x :: x in entries <==> x == e || x in entries[1..];
      OpenTrades(
        (if e.isParticipant && e.tx.to == Some(member) then [e] else []) + rest.incoming,
        (if e.isParticipant && e.tx.from == member then [e] else []) + rest.outgoing,
        (if !e.isParticipant then [e] else []) + rest.others)
  }

  /** An element no later than every element of a sorted sequence may be put
      in front of it. */
  lemma ConsSorted(e: OpenTrade, xs: seq<OpenTrade>, key: OpenTrade -> Key)
    requires SortedBy(xs, key) && forall x :: x in xs ==> KeyLe(key(e), key(x))
    ensures SortedBy([e] + xs, key)
  {
    var ys := [e] + xs;
    forall i, j | 0 <= i < j < |ys| ensures KeyLe(key(ys[i]), key(ys[j])) {
      assert ys[j] == xs[j - 1];
      if i > 0 {
        assert ys[i] == xs[i - 1];
      }
    }
  }

  /** Splitting keeps the listing's order within each group. */
  lemma {:induction false} SplitKeepsOrder(entries: seq<OpenTrade>, member: MemberId)
    requires SortedBy(entries, NewestFirst())
    ensures var r := Split(entries, member);
      SortedBy(r.incoming, NewestFirst()) && SortedBy(r.outgoing, NewestFirst()) && SortedBy(r.others, NewestFirst())
  {
    if |entries| > 0 {
      var e := entries[0];
      var tail := entries[1..];
      var key := NewestFirst();
      SortedHeadTail(entries, key);
      SplitKeepsOrder(tail, member);
      var rest := Split(tail, member);
      if e.isParticipant && e.tx.to == Some(member) {
        ConsSorted(e, rest.incoming, key);
      }
      if e.isParticipant && e.tx.from == member {
        ConsSorted(e, rest.outgoing, key);
      }
      if !e.isParticipant {
        ConsSorted(e, rest.others, key);
      }
    }
  }

  /** `get_open_trade_transactions_for_member`. */
  function OpenTradesFor(lg: League, member: MemberId): (r: OpenTrades)
    ensures SortedBy(r.incoming, NewestFirst()) && SortedBy(r.outgoing, NewestFirst()) && SortedBy(r.others, NewestFirst())
  {
    var sorted := SortBy(OpenEntries(lg.txs, lg.votes, member), NewestFirst());
    SplitKeepsOrder(sorted, member);
    Split(sorted, member)
  }

  /** Every open trade of the league is listed: under `incoming` when the
      member receives it, under `outgoing` when they proposed it, under
      `others` when they are on neither side; and nothing else is listed. */
  lemma OpenTradesPartition(lg: League, member: MemberId, tx: Transaction)
    ensures var r := OpenTradesFor(lg, member);
      var e := Entry(tx, lg.votes, member);
      (e in r.incoming <==> tx in lg.txs && IsOpen(tx) && tx.to == Some(member)) &&
      (e in r.outgoing <==> tx in lg.txs && IsOpen(tx) && tx.from == member) &&
      (e in r.others <==> tx in lg.txs && IsOpen(tx) && tx.from != member && tx.to != Some(member))
    ensures var r := OpenTradesFor(lg, member);
      forall e :: e in r.incoming + r.outgoing + r.others ==> e.tx in lg.txs && IsOpen(e.tx) && e.vetoCount == ActiveVetoes(lg.votes, e.tx.id)
  {
    var entries := OpenEntries(lg.txs, lg.votes, member);
    var sorted := SortBy(entries, NewestFirst());
    var e := Entry(tx, lg.votes, member);
    assert e in sorted <==> e in entries by {
      assert e in multiset(sorted) <==> e in multiset(entries);
    }
    forall x | x in sorted ensures x in entries {
      assert x in multiset(sorted);
    }
  }

  // ---------------------------------------------------------------------
  // Free agency
  // ---------------------------------------------------------------------

  /** The week a free-agent move lands in: the week asked for, or, when it is
      locked, the next unlocked week. */
  function MoveWeek(weeks: seq<Week>, weekId: int): (r: Result<Week, TxError>)
    ensures r.Err? <==> (WeekById(weeks, weekId).None? ||
      (WeekById(weeks, weekId).value.isLocked && NextUnlockedWeek(weeks, WeekById(weeks, weekId).value.number).None?))
    ensures r.Ok? ==> r.value in weeks && !r.value.isLocked
    ensures r.Ok? && !WeekById(weeks, weekId).value.isLocked ==> r.value == WeekById(weeks, weekId).value
    ensures r.Ok? && WeekById(weeks, weekId).value.isLocked ==>
      r.value.number > WeekById(weeks, weekId).value.number &&
      forall i :: 0 <= i < |weeks| && UnlockedAfter(weeks[i], WeekById(weeks, weekId).value.number) ==>
        r.value.number <= weeks[i].number
  {
    var week :- WeekById(weeks, weekId).ToResult(WeekNotInLeague(weekId));
    if week.isLocked then NextUnlockedWeek(weeks, week.number).ToResult(NoUnlockedWeek(week.number))
    else Ok(week)
  }

  /** The teams a move touches, added one first. */
  function Involved(add: Option<TeamId>, drop: Option<TeamId>): seq<TeamId> {
    (if add.Some? then [add.value] else []) + (if drop.Some? then [drop.value] else [])
  }

  function AsList(t: Option<TeamId>): seq<TeamId> {
    if t.Some? then [t.value] else []
  }

  /** Every involved team has a conference row (the inner join
      `_get_team_conference_info` makes). */
  predicate HasConferences(cat: Catalog, add: Option<TeamId>, drop: Option<TeamId>) {
    (add.Some? ==> ConferenceOf(cat, add.value).Some?) && (drop.Some? ==> ConferenceOf(cat, drop.value).Some?)
  }

  /** The drop step: the team must be the member's in week `w`; its
      conference count goes down by one, which must not go negative. */
  function SimulateDrop(slots: seq<Slot>, cat: Catalog, member: MemberId, w: int, drop: Option<TeamId>): (r: Result<Option<(ConfId, int)>, TxError>)
    requires drop.Some? ==> ConferenceOf(cat, drop.value).Some?
    ensures r.Ok? <==> drop.None? || OwnsAt(slots, member, drop.value, w)
    ensures r.Ok? && drop.Some? ==> r.value == Some((cat.membership[drop.value],
      SlotCountIn(slots, member, w, cat, cat.membership[drop.value], {}) - 1))
    ensures r.Ok? && drop.None? ==> r.value.None?
    ensures !(r.Err? && r.error.NegativeCount?)
  {
    if drop.None? then Ok(None)
    else if !OwnsAt(slots, member, drop.value, w) then Err(NotOnRoster(drop.value))
    else
      var c := cat.membership[drop.value];
      var n := SlotCountIn(slots, member, w, cat, c, {}) - 1;
      ExcludeOwned(slots, member, w, cat, drop.value);
      if n < 0 then Err(NegativeCount(c)) else Ok(Some((c, n)))
  }

  /** The cap rule for an added team `t`: the member's count in `t`'s
      conference, less one when the dropped team is in the same conference,
      plus the added team, is within the conference's cap. A cap of 0 admits
      nothing. */
  predicate RoomFor(slots: seq<Slot>, cat: Catalog, member: MemberId, w: int, t: TeamId, drop: Option<TeamId>)
    requires ConferenceOf(cat, t).Some? && (drop.Some? ==> ConferenceOf(cat, drop.value).Some?)
  {
    var c := cat.membership[t];
    var freed := if drop.Some? && cat.membership[drop.value] == c then 1 else 0;
    SlotCountIn(slots, member, w, cat, c, {}) - freed + 1 <= cat.conferences[c].maxTeamsPerOwner
  }

  /** The add step: the team must be nobody's in week `w`, and the member's
      count in its conference after the drop, plus one, must not exceed the
      conference's cap. */
  function SimulateAdd(slots: seq<Slot>, cat: Catalog, member: MemberId, w: int, add: Option<TeamId>,
                       afterDrop: Option<(ConfId, int)>): (r: Result<(), TxError>)
    requires add.Some? ==> ConferenceOf(cat, add.value).Some?
    ensures r.Ok? <==> (add.None? ||
      (!TeamOwnedAt(slots, add.value, w) &&
       var c := cat.membership[add.value];
       (if afterDrop.Some? && afterDrop.value.0 == c then afterDrop.value.1
        else SlotCountIn(slots, member, w, cat, c, {})) + 1 <= cat.conferences[c].maxTeamsPerOwner))
    ensures r.Err? ==> r.error.NotFreeAgent? || r.error.OverLimit?
  {
    if add.None? then Ok(())
    else if TeamOwnedAt(slots, add.value, w) then Err(NotFreeAgent(add.value))
    else
      var c := cat.membership[add.value];
      var max := cat.conferences[c].maxTeamsPerOwner;
      var count := if afterDrop.Some? && afterDrop.value.0 == c then afterDrop.value.1
                   else SlotCountIn(slots, member, w, cat, c, {});
      if count + 1 > max then Err(OverLimit(count + 1, max)) else Ok(())
  }

  /** The roster checks of a move in week `w`, in order: the conference rows,
      the drop, the add. The negative-count refusal never happens: a member
      who owns the dropped team has at least that team counted. */
  function CheckMove(slots: seq<Slot>, cat: Catalog, member: MemberId, w: int,
                     add: Option<TeamId>, drop: Option<TeamId>): (r: Result<(), TxError>)
    ensures r.Ok? <==> (HasConferences(cat, add, drop) &&
      (drop.Some? ==> OwnsAt(slots, member, drop.value, w)) &&
      (add.Some? ==> !TeamOwnedAt(slots, add.value, w) && RoomFor(slots, cat, member, w, add.value, drop)))
    ensures !(r.Err? && r.error.NegativeCount?)
  {
    var _ :- Need(HasConferences(cat, add, drop), MissingConference(Involved(add, drop)));
    var afterDrop :- SimulateDrop(slots, cat, member, w, drop);
    SimulateAdd(slots, cat, member, w, add, afterDrop)
  }

  /** What `free_agency_add_drop` answers. */
  datatype FreeAgentMove = FreeAgentMove(weekId: int, weekNumber: int, transactionId: int,
                                         added: Option<TeamId>, dropped: Option<TeamId>,
                                         roster: set<TeamId>)

  /** The slots after the move: the dropped team's slot closed at `w`, then a
      `FREE_AGENT` slot from `w` for the added team. */
  function MoveSlots(slots: seq<Slot>, member: MemberId, w: int, add: Option<TeamId>, drop: Option<TeamId>): seq<Slot> {
    Close(slots, member, Listed(AsList(drop)), w) + Open(member, AsList(add), w, FreeAgent)
  }

  /** The free-agent row a move logs. */
  function MoveRow(newId: int, weekId: int, member: MemberId, now: int): Transaction {
    Transaction(newId, weekId, FreeAgentKind, member, None, Completed, [], [], None, None, now)
  }

  /** `free_agency_add_drop`: redirect a locked week, enforce the swap limit,
      league membership and the deadline, then check the drop and the add
      against the conference counts and carry out both, logging a
      `COMPLETED` free-agent row. */
  function FreeAgencyAddDrop(lg: League, now: int, weekId: int, member: MemberId,
                             add: Option<TeamId>, drop: Option<TeamId>, newId: int): (r: Result<(League, FreeAgentMove), TxError>)
    ensures r.Ok? <==> (MoveWeek(lg.weeks, weekId).Ok? && EnsureCanSwap(lg.settings, lg.txs, member).Ok? &&
      member in lg.members && !PastDeadline(lg.freeAgentDeadline, now) &&
      CheckMove(lg.slots, lg.cat, member, MoveWeek(lg.weeks, weekId).value.number, add, drop).Ok?)
    ensures r.Ok? ==> (r.value.1.weekNumber == MoveWeek(lg.weeks, weekId).value.number &&
      r.value.1.weekId == MoveWeek(lg.weeks, weekId).value.id)
    ensures r.Ok? ==> (r.value.0.slots == MoveSlots(lg.slots, member, r.value.1.weekNumber, add, drop) &&
      r.value.0.txs == lg.txs + [MoveRow(newId, r.value.1.weekId, member, now)] &&
      r.value.1.roster == MemberTeamsAt(r.value.0.slots, member, r.value.1.weekNumber))
    ensures r.Ok? ==> r.value.0.votes == lg.votes && r.value.0.weeks == lg.weeks
  {
    var week :- MoveWeek(lg.weeks, weekId);
    var w := week.number;
    var _ :- EnsureCanSwap(lg.settings, lg.txs, member);
    assert ValidateMembers(lg.members, [member]).Ok? <==> member in lg.members by {
      assert [member][0] == member;
    }
    var _ :- ValidateMembers(lg.members, [member]);
    var _ :- Need(!PastDeadline(lg.freeAgentDeadline, now), FreeAgentDeadlinePassed);
    var _ :- CheckMove(lg.slots, lg.cat, member, w, add, drop);
    var slots := MoveSlots(lg.slots, member, w, add, drop);
    Ok((lg.(slots := slots, txs := lg.txs + [MoveRow(newId, week.id, member, now)]),
        FreeAgentMove(week.id, w, newId, add, drop, MemberTeamsAt(slots, member, w))))
  }

  /** After an admitted move, the added team is the member's in the move's
      week and the dropped one is not; every other team, and every earlier
      week, keeps its owners. */
  lemma MoveOwnership(slots: seq<Slot>, cat: Catalog, member: MemberId, w: int,
                      add: Option<TeamId>, drop: Option<TeamId>, m: MemberId, t: TeamId, v: int)
    requires CheckMove(slots, cat, member, w, add, drop).Ok?
    ensures var after := MoveSlots(slots, member, w, add, drop);
      (add.Some? ==> OwnsAt(after, member, add.value, w)) &&
      (drop.Some? ==> !OwnsAt(after, member, drop.value, w)) &&
      ((t !in AsList(add) && t !in AsList(drop)) || v < w ==>
        (OwnsAt(after, m, t, v) <==> OwnsAt(slots, m, t, v)))
  {
    var after := MoveSlots(slots, member, w, add, drop);
    var D := Listed(AsList(drop));
    var closed := Close(slots, member, D, w);
    var ins := Open(member, AsList(add), w, FreeAgent);
    assert after == closed + ins;
    if add.Some? {
      assert after[|slots|] == Slot(member, add.value, w, None, FreeAgent);
    }
    if drop.Some? {
      // The added team is nobody's in week w, the dropped one is the member's.
      assert add.Some? ==> add.value != drop.value;
      forall i | 0 <= i < |after| && after[i].member == member && after[i].team == drop.value
        ensures !Holds(after[i], w)
      {
        if i < |slots| {
          CloseSlotHolds(slots[i], member, D, w, w);
        }
      }
    }
    if OwnsAt(after, m, t, v) && ((t !in AsList(add) && t !in AsList(drop)) || v < w) {
      var i :| 0 <= i < |after| && after[i].member == m && after[i].team == t && Holds(after[i], v);
      CloseSlotHolds(slots[i], member, D, w, v);
      assert i < |slots| && slots[i].member == m && slots[i].team == t;
    }
    if OwnsAt(slots, m, t, v) && ((t !in AsList(add) && t !in AsList(drop)) || v < w) {
      var i :| 0 <= i < |slots| && slots[i].member == m && slots[i].team == t && Holds(slots[i], v);
      CloseSlotHolds(slots[i], member, D, w, v);
      assert after[i] == closed[i];
    }
  }

  /** The point of the check: after an admitted move the member's count in the
      added team's conference is within that conference's cap, and no other
      conference's count grows. */
  lemma MoveKeepsCap(slots: seq<Slot>, cat: Catalog, member: MemberId, w: int,
                     add: Option<TeamId>, drop: Option<TeamId>, c: ConfId)
    requires CheckMove(slots, cat, member, w, add, drop).Ok?
    ensures add.Some? && c == cat.membership[add.value] ==>
      SlotCountIn(MoveSlots(slots, member, w, add, drop), member, w, cat, c, {}) <= cat.conferences[c].maxTeamsPerOwner
    ensures add.None? || c != cat.membership[add.value] ==>
      SlotCountIn(MoveSlots(slots, member, w, add, drop), member, w, cat, c, {}) <= SlotCountIn(slots, member, w, cat, c, {})
  {
    var D := Listed(AsList(drop));
    var closed := Close(slots, member, D, w);
    var ins := Open(member, AsList(add), w, FreeAgent);
    CountAppend(closed, ins, member, w, cat, c, {});
    CountClose(slots, member, D, w, member, cat, c, {});
    assert {} + D == D;
    CountOpen(member, AsList(add), w, FreeAgent, member, cat, c);
    if add.Some? {
      assert PositionsIn(cat, [add.value], c) == (if cat.membership[add.value] == c then 1 else 0) by {
        assert [add.value][..0] == [];
      }
    }
    if add.Some? && drop.Some? && cat.membership[drop.value] == c && cat.membership[add.value] == c {
      assert D == {drop.value};
      ExcludeOwned(slots, member, w, cat, drop.value);
    } else {
      ExcludeLowers(slots, member, w, cat, c, D);
    }
  }

  /** Each move spends one swap, so a positive limit is never overrun. */
  lemma FreeAgencySpendsSwap(lg: League, now: int, weekId: int, member: MemberId,
                             add: Option<TeamId>, drop: Option<TeamId>, newId: int)
    requires FreeAgencyAddDrop(lg, now, weekId, member, add, drop, newId).Ok?
    ensures var after := FreeAgencyAddDrop(lg, now, weekId, member, add, drop, newId).value.0;
      SwapCount(after.txs, member) == SwapCount(lg.txs, member) + 1
    ensures var after := FreeAgencyAddDrop(lg, now, weekId, member, add, drop, newId).value.0;
      !Unlimited(MaxSwaps(lg.settings).value) ==> SwapCount(after.txs, member) <= MaxSwaps(lg.settings).value.value
  {
    var after := FreeAgencyAddDrop(lg, now, weekId, member, add, drop, newId).value.0;
    assert after.txs[..|after.txs| - 1] == lg.txs;
  }
}
