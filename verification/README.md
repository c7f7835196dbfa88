# OnTheMarginFantasy — a Dafny model of the league engine

OnTheMarginFantasy runs fantasy leagues over college sports. A league's
members draft real college teams. Each week a member scores the point
differential of the games their teams played: a team's margin counts for
its owner, and a game between two teams of the same owner counts zero.
The members are ranked on that differential and given waterfall points
`N, N-1, …, 1`. A cascade of tiebreakers orders the members inside a group
with equal scores. Season standings add tiered bonuses for playoff depth,
conference championships and the worst conference differential.

Between weeks, members trade teams with each other or swap a team for a
free agent. The league's commissioner settings cap how many swaps a member
may make and how many teams of one conference a member may hold. A vote can
veto a trade. A nightly job scores every finished week, marks it scored,
locks the following week and carries out the moves waiting for it. A
maintenance script is meant to rebuild each league's week calendar and
rescore it; as written it stops at the first league with a season row
before writing anything (see Findings), and the model proves the intended
rebuild. The
season's schedule comes from ESPN's scoreboard feed, one day and one
conference group at a time.

The program keeps everything in SQL tables. The model replaces each table
by an immutable sequence of rows for one league, and each query by a pure
function over those rows. Python exceptions become the `Err` side of a
`Result`; a Python `None` becomes `None` of an `Option`. Calls the program
makes to things outside this code (the clock, the ESPN HTTP client, the
token verifier, ISO date parsing, the scoring run that the nightly job
calls) become parameters of the functions that make them.

The modules follow the program:

- `Wrappers`, `Text`, `Values`, `Sorting`, `Tally` — `Option`/`Result`,
  Python string helpers, Python values (for settings, the ESPN JSON and the
  endpoint payloads), `sorted` with tuple keys, sums and the shared shape of
  a tiebreaker.
- `Ownership`, `Weeks`, `Calendar` — the team-slot table with its ownership
  window, the week table with its lookups, and the Monday-to-Sunday
  partition of a season.
- `Draft` — recording a draft pick: snake numbering and the admission
  checks.
- `Trades`, `Transactions`, `Roster` — trade validation and application,
  the trade status machine, veto votes, free agency, the open-trade listing
  and the roster queries.
- `Games`, `Weekly`, `Ties`, `Postseason`, `Bonus`, `Season` — the
  member point differential of a game, weekly scoring with its tiebreakers,
  the walk over groups with equal scores, playoff and conference-segment
  results, bonus tiers and season standings.
- `Espn`, `Schedule` — the ESPN client and parser, the API group-id
  setting, the week table a league gets, scoreboard ingest and the
  season bootstrap.
- `Cron`, `Rebuild` — the nightly scoring job and the rebuild script.
- `JsonSafe`, `Auth` — the payload conversion and the request interceptor.

Drafting is modelled as the code records it: the pick number comes from
the count of earlier picks, and the round and the position in the round
follow from it. The live draft's turn engine (whose turn it is, pick
deadlines, timeouts, draft snapshots) is called from
`api/worker/draftTimeoutWorker.py:26`, `api/endpoints/draft/draftSocket.py:45`
and `api/endpoints/draft/draftEndpoints.py:68`, but the module that defines
it is not part of this model. The model therefore follows the code: nothing
checks that a pick is made by the member whose turn it is.

Dates are day numbers in the proleptic Gregorian calendar (Python's
`date.toordinal`), with Monday as weekday 0. Integers are unbounded, as in
Python. Floating-point totals are modelled as exact `real`s.

## Model

| member | source | states |
|---|---|---|
| Auth.SplitOnce | api/authMiddleware.py:36 | `split(" ", 1)`: the first part holds no separator; there is a second part exactly when the separator occurs, and then the text is first part, separator, second part |
| Auth.SplitOnceAtFirst | api/authMiddleware.py:36 | splitting a separator-free prefix followed by the separator and any rest gives back exactly that prefix and that rest |
| Auth.TokenOf | api/authMiddleware.py:33-36 | for a header starting with `Bearer `, the token handed to the verifier is the rest of the header after the prefix, stripped |
| Auth.Intercept | api/authMiddleware.py:15-46 | a refusal carries one of the two 401 texts, `Unauthorized` or `Invalid or expired token` |
| Auth.InterceptDecision | api/authMiddleware.py:18-46 | a request passes exactly when it is a preflight, an allow-listed path or under an allow-listed prefix, or carries `Bearer ` plus a non-blank token whose claims are truthy; an open route sets no user, a token sets the user to its claims |
| JsonSafe.Convert | api/utils/jsonSafe.py:5-18 | the result is JSON-safe; dates and datetimes become their ISO text; lists and tuples become lists of the converted items; dicts keep their keys in order with converted values; scalars stay |
| JsonSafe.ConvertItems | api/utils/jsonSafe.py:16-17 | each item of a list or tuple is converted in place, and each converted item is JSON-safe |
| JsonSafe.ConvertEntries | api/utils/jsonSafe.py:14-15 | each dict entry keeps its key and gets its value converted, and the converted value is JSON-safe |
| JsonSafe.ConvertFixesSafe | api/utils/jsonSafe.py:5-18 | a value with no dates and no tuples anywhere inside comes back unchanged |
| JsonSafe.ConvertIdempotent | api/utils/jsonSafe.py:5-18 | converting twice gives the same as converting once |
| JsonSafe.ConvertChangesIffUnsafe | api/utils/jsonSafe.py:5-18 | the conversion leaves a value unchanged exactly when the value is already JSON-safe |
| Ownership.MemberTeamsAt | api/endpoints/transaction/transactionModel.py:819-833 | the member's roster in week `w` is exactly the teams the member holds through a slot whose ownership window covers `w` |
| Ownership.MemberTeamsAppend | api/endpoints/transaction/transactionModel.py:819-833 | adding a slot adds its team to the member's roster for `w` when the slot is the member's and covers `w`, and changes nothing otherwise |
| Ownership.ConferenceOf | api/endpoints/transaction/transactionModel.py:759-788 | a team has a conference exactly when it has a membership row that joins a conference row, and then it is the membership's conference |
| Ownership.SlotCountIn | api/endpoints/transaction/transactionModel.py:800-817 | the per-conference count of the member's slots covering `w` is zero exactly when no such slot has a team in that conference, and never exceeds the number of slots |
| Weeks.FindWeek | api/endpoints/roster/rosterModel.py:10-22 | the lookup by week number finds a row exactly when some row has that number, and the row it returns is one of them |
| Weeks.WeekById | api/endpoints/transaction/transactionModel.py:159-180 | the lookup by id finds a row exactly when the league has a week with that id, and returns a row with that id |
| Weeks.NextUnlockedWeek | api/endpoints/transaction/transactionModel.py:182-211 | no week exactly when no unlocked week is numbered after `n`; otherwise an unlocked week after `n` whose number is the smallest of all such weeks |
| Weeks.NextUnlocked | api/endpoints/roster/rosterModel.py:24-41 | the error case happens exactly when no unlocked week follows `n`; otherwise the number of an unlocked week after `n`, no larger than any other such week's |
| Weeks.EffectiveWeek | api/endpoints/roster/rosterModel.py:108-115 | a request fails exactly when the asked-for week exists, is locked and no unlocked week follows it; a redirected request lands on the earliest unlocked week after the asked-for one, and only a locked week is redirected |
| Sorting.SortBy | api/endpoints/scoring/scoringModel.py:216-219 | Python's `sorted` with a tuple key: the result is ordered by the key and is a permutation of the input |
| Tally.Dedupe | api/endpoints/scoring/scoringModel.py:345-346 | the member ids of a group, each once: no duplicates, and exactly the ids of the group |
| Tally.RankBy | api/endpoints/scoring/scoringModel.py:376-383 | a tiebreaker gives up exactly when every member has the same value; otherwise it returns a permutation of the group ordered by value, highest first, equal values by member id |
| Tally.RankBySeparates | api/endpoints/scoring/scoringModel.py:376-383 | a tiebreaker verdict always puts a strictly higher value first than last, so it really separates the group |
| Roster.MemberSlots | api/endpoints/roster/rosterModel.py:43-84 | the listed slots are exactly the member's slots whose ownership window covers the week |
| Roster.MemberSlotsAreRoster | api/endpoints/roster/rosterModel.py:68-71 | a team appears in the listing exactly when the member owns it that week |
| Roster.PendingAdds | api/endpoints/roster/rosterModel.py:127-135 | a team is being added exactly when some pending free-agent move for the week names it among its incoming teams |
| Roster.PendingDrops | api/endpoints/roster/rosterModel.py:136-144 | a team is being dropped exactly when some pending free-agent move for the week names it among its outgoing teams |
| Roster.AvailableAmong | api/endpoints/roster/rosterModel.py:145-174 | the listed teams are exactly those of the league's sport with a conference, not being added, and owned by nobody that week or being dropped |
| Roster.AvailableTeams | api/endpoints/roster/rosterModel.py:87-187 | an error exactly when the asked-for week is locked with no unlocked week after it; an empty list for a missing league or week; otherwise the available teams of the redirected week |
| Roster.AvailableWeekUnlocked | api/endpoints/roster/rosterModel.py:108-115 | the listing is for the asked-for week unless that week is locked, and then for the earliest later unlocked week |
| Roster.AvailableIsFreeAgent | api/endpoints/roster/rosterModel.py:126-173 | with no pending moves, every listed team is owned by nobody that week and has a conference row |
| Text.StripLeft | api/authMiddleware.py:36 | `lstrip()`: drops a run of leading whitespace and nothing else, leaving text that is empty or starts with a non-space |
| Text.StripRight | api/authMiddleware.py:36 | the right half of `strip()`: a prefix of the text that is empty or ends in a non-space, with only whitespace cut off after it |
| Text.Strip | api/endpoints/schedule/scheduleModel.py:102 | `strip()`: the result is a slice of the text with only whitespace before and after it, and neither starts nor ends with whitespace |
| Text.StripRightBy | api/endpoints/schedule/helpers/espn/espnClient.py:24 | `rstrip(chars)`: a prefix of the text, ending in a kept character, with only dropped characters cut off after it |
| Text.StripLeftBy | api/endpoints/schedule/helpers/espn/espnClient.py:25 | `lstrip(chars)`: a suffix of the text, starting with a kept character, with only dropped characters cut off before it |
| Text.StripUnpadded | api/endpoints/schedule/helpers/espn/espnClient.py:181 | text that neither starts nor ends with whitespace is its own strip |
| Text.StripRightAppend | api/endpoints/schedule/helpers/espn/espnClient.py:24 | dropped characters added at the end are cut off again |
| Text.StripLeftPrepend | api/endpoints/schedule/helpers/espn/espnClient.py:25 | dropped characters added at the front are cut off again |
| Text.Split | api/endpoints/schedule/scheduleModel.py:107 | `split(",")`: at least one piece, and no piece holds the separator |
| Text.JoinSplit | api/endpoints/schedule/scheduleModel.py:107 | joining the pieces of a split with the separator gives back the text |
| Text.SplitJoin | api/endpoints/schedule/scheduleModel.py:107 | splitting the join of separator-free pieces gives back the pieces |
| Text.SplitAtFirst | api/endpoints/schedule/scheduleModel.py:107 | a separator after a separator-free prefix ends the first piece, and the rest splits on its own |
| Text.Upper | api/endpoints/transaction/transactionModel.py:463 | `upper()`: same length, each letter upper-cased in place |
| Text.ReplaceChar | api/endpoints/schedule/helpers/espn/espnParser.py:27 | `replace`: after replacing a character by text without it, the character is gone; text without it is unchanged |
| Text.ReplaceAppend | api/endpoints/schedule/helpers/espn/espnParser.py:27 | replacing in a concatenation is replacing in each part |
| Text.ShowNat | api/endpoints/schedule/scheduleModel.py:107 | `str(n)` of a natural number is a non-empty run of digits |
| Text.ShowNatRoundTrip | api/endpoints/schedule/scheduleModel.py:107 | the decimal value of the printed digits of `n` is `n` |
| Text.ParseInt | api/endpoints/transaction/transactionModel.py:53-56 | `int(str)` reads a number exactly when the stripped text is a run of digits, with or without one leading `+` or `-`; the value is that of the digits, negated after a minus sign; anything else is an error |
| Text.ParseIntShowNat | api/endpoints/transaction/transactionModel.py:53-56 | every printed natural number is read back as itself |
| Text.ParseIntNegated | api/endpoints/transaction/transactionModel.py:53-56 | a minus sign in front of a printed natural number reads back as its negation |
| Values.Get | api/endpoints/transaction/transactionModel.py:47-48 | `d.get(key)`: a value exactly when `d` is a dict with an entry for the key, and then the value of such an entry |
| Values.Lookup | api/endpoints/transaction/transactionModel.py:47-48 | a key's value is found exactly when some entry has the key, and it is the value of such an entry |
| Values.LookupUnique | api/endpoints/transaction/transactionModel.py:47-48 | a key held by exactly one entry looks up that entry's value |
| Values.GetOrNone | api/endpoints/schedule/helpers/espn/espnClient.py:200 | `d.get(key)`, reading a missing key as `None`: anything else it gives is what `Get` finds |
| Values.Or | api/endpoints/transaction/transactionModel.py:47 | `a or b`: `a` when it is truthy, `b` otherwise |
| Values.Truncate | api/endpoints/schedule/helpers/espn/espnClient.py:177-178 | `int(x)` of a float rounds toward zero: within one of `x`, never further from zero |
| Values.ToInt | api/endpoints/transaction/transactionModel.py:53-56 | `int(v)`: integers stay, booleans become 0 or 1, text is parsed, and `None`, containers and dates are errors |
| Values.Iterate | api/endpoints/schedule/scheduleModel.py:110 | a `for` loop yields a list's or tuple's items, a dict's keys in order, a string's characters, and raises on anything else |
| Values.ShowInt | api/endpoints/schedule/scheduleModel.py:107 | `str(n)`: the digits of `n`, after a minus sign when `n` is negative |
| Values.StrOf | api/endpoints/schedule/helpers/espn/espnClient.py:218 | `str(v)`: text is unchanged, an integer is printed in decimal, `None` prints as `None` |
| Values.ParseIntShowInt | api/endpoints/schedule/scheduleModel.py:107 | reading back the printed form of any integer gives the integer |
| Calendar.Weekday | api/endpoints/schedule/helpers/weekHelper.py:26 | `date.weekday()` lies in `0..6`, Monday being 0 |
| Calendar.FirstWeekEnd | api/endpoints/schedule/helpers/weekHelper.py:26-29 | the first week ends within six days of its start, and never after the last game date |
| Calendar.LaterWeeks | api/endpoints/schedule/helpers/weekHelper.py:32-38 | the loop yields no week exactly when it starts after the last date; otherwise the weeks start at the given day, end at the last date, each starts the day after the previous one ends, and each lasts seven days or up to the last date |
| Calendar.LaterWeeksMondays | api/endpoints/schedule/helpers/weekHelper.py:16-18 | started on a Monday, every week of the loop starts on a Monday and every one but the last ends on a Sunday |
| Calendar.ComputeWeeksFromStart | api/endpoints/schedule/helpers/weekHelper.py:5-40 | empty exactly when the start is after the last date; otherwise the weeks tile the season without gap or overlap, none is longer than seven days, week 1 runs from the start to the following Sunday or the last date, and every later week starts on a Monday and runs seven days or up to the last date, all but the last ending on a Sunday |
| Calendar.TilingCoversOnce | api/endpoints/schedule/helpers/weekHelper.py:23-40 | in a tiling of a span, every day of the span lies in exactly one range |
| Calendar.WeeksPartitionSeason | api/endpoints/schedule/helpers/weekHelper.py:5-40 | every day from the season start to the last game date falls in exactly one computed week |
| Calendar.NumberWeeks | api/endpoints/schedule/scheduleModel.py:142-178 | `_insert_weeks`: one row per range, numbered on from the starting number, each carrying its range's start and end |
| Calendar.WeekPlan | api/endpoints/schedule/scheduleModel.py:204-226 | the weeks a new league gets: week 0 ending the day before the regular season, then every row numbered by its position and dated |
| Calendar.WeekPlanSections | api/endpoints/schedule/scheduleModel.py:205-226 | the regular weeks take numbers `1..n` with the computed regular-season ranges, and the playoff weeks, when both playoff dates are set, take `n+1..` with the playoff ranges |
| Draft.CeilDiv | api/endpoints/draft/draftModel.py:188 | `math.ceil(a / b)`: the least integer whose multiple of `b` reaches `a`, for either sign of `b` |
| Draft.SnakeSlotInRange | api/endpoints/draft/draftModel.py:187-196 | with a positive player count, pick `n >= 1` lands in a round `>= 1`, at a position and a pick-in-round within `1..players` |
| Draft.SnakeSlotOfRound | api/endpoints/draft/draftModel.py:187-196 | the `j`-th overall pick of round `k` is numbered in round `k`, with pick-in-round `j` in odd rounds and `players + 1 - j` in even rounds |
| Draft.RoundIsPermutation | api/endpoints/draft/draftModel.py:191-196 | every round hands out each pick-in-round `1..players` exactly once |
| Draft.ConsecutiveRoundsReversed | api/endpoints/draft/draftModel.py:191-196 | the `j`-th picks of two consecutive rounds sit at mirrored positions: the rounds run in opposite directions |
| Draft.CheckConferenceCap | api/endpoints/draft/draftModel.py:83-122 | the only way the cap check fails is the conference-cap error |
| Draft.CapAdmits | api/endpoints/draft/draftModel.py:98-117 | the cap admits a pick exactly when the team has no conference, its conference's cap is not positive, or the member owns fewer distinct teams of that conference than the cap in the acquired week |
| Draft.CreateDraftPick | api/endpoints/draft/draftModel.py:124-253 | a recorded pick gets overall number one more than the existing picks and the snake round and pick-in-round of that number (within `1..numPlayers` for a positive count); exactly one pick row and one `Draft` slot for the member and team from the acquired week are added |
| Draft.CreateDraftPickAdmission | api/endpoints/draft/draftModel.py:140-176 | a pick is recorded exactly when the league exists, nobody owns the team in the acquired week, the cap admits it and the player count is not zero; a missing league is reported before anything else, an owned team next |
| Draft.NumberingIgnoresPicker | api/endpoints/draft/draftModel.py:178-221 | the overall number, round and pick-in-round depend only on the earlier picks and the player count, not on who picks what |
| Draft.CreateDraftPickKeepsDense | api/endpoints/draft/draftModel.py:178-185 | recorded picks numbered `1..k` in order stay numbered `1..k+1` |
| Draft.CreateDraftPickKeepsExclusive | api/endpoints/draft/draftModel.py:152-167 | when no team has two holders in the acquired week, a recorded pick keeps it so |
| Draft.CreateDraftPickRespectsCap | api/endpoints/draft/draftModel.py:83-122 | after a recorded pick the member owns the team, and a positive conference cap still holds in the acquired week |
| Draft.DraftSlotAdds | api/endpoints/draft/draftModel.py:228-248 | a `Draft` slot makes the member the team's owner in its week and adds at most one team to the member's count in any conference |
| Games.MemberPointDiffOpposite | api/endpoints/schedule/scheduleModel.py:676-685 | the holder of the home side and the holder of the away side see opposite margins for the same game, and a member holding both sides (or neither) sees 0 |
| Games.MemberGameDiffs | api/endpoints/schedule/scheduleModel.py:627-709 | the member's games for a week are no more than the games, and there are none exactly when no game of the week has a side the member holds |
| Games.PointDiffOverWeek | api/endpoints/schedule/scheduleModel.py:686-695 | summing the selected games' `memberPointDiff` equals summing every game's margin for the member over the week, since a game without the member's teams adds nothing |
| Games.HeadToHeadGames | api/endpoints/schedule/scheduleModel.py:711-796 | every returned row is the row of some game of the week in which one side is held by member A and the other by member B |
| Games.HeadToHeadCancels | api/endpoints/scoring/scoringModel.py:357-374 | when no team has two holders in the week, A's and B's head-to-head margins over their games cancel out |
| Games.RowCancels | api/endpoints/scoring/scoringModel.py:363-371 | in one game between two different members of an exclusive week, A's margin is B's negated |
| Games.PairPdCancels | api/endpoints/scoring/scoringModel.py:357-374 | when every game's two margins cancel, so do the sums `a_pd` and `b_pd` |
| WeeklyScoring.Biggest | api/endpoints/scoring/scoringModel.py:406-411 | the biggest margin starting from 0 is at least every game's absolute margin, and is 0 or one of them |
| WeeklyScoring.AddAsB | api/endpoints/scoring/scoringModel.py:349-374 | each later member's running total grows by its margin as member B against the current member A |
| WeeklyScoring.HeadToHeadTotals | api/endpoints/scoring/scoringModel.py:345-374 | one head-to-head total per member of the group, in group order |
| WeeklyScoring.HeadToHeadTotalsPerMember | api/endpoints/scoring/scoringModel.py:348-374 | a member's head-to-head total is its margin as member B against every earlier member plus its margin as member A against every later one: each pair is visited once |
| WeeklyScoring.HeadToHeadZeroSum | api/endpoints/scoring/scoringModel.py:345-374 | when no team has two holders in the week, the head-to-head totals of distinct members add up to 0 |
| WeeklyScoring.AddAsBSum | api/endpoints/scoring/scoringModel.py:373-374 | the B-side updates of one round of the pair loop add their margins to the sum of the totals |
| WeeklyScoring.OpponentsCancel | api/endpoints/scoring/scoringModel.py:357-374 | what a member collects as A against its later opponents is cancelled by what they collect as B against it, when no team has two holders |
| WeeklyScoring.Ids | api/endpoints/scoring/scoringModel.py:345-346 | the group's member ids, position by position |
| WeeklyScoring.ResolveWeeklyPermutes | api/endpoints/scoring/scoringModel.py:305-324 | whichever tiebreaker decides, the weekly cascade only reorders a tie group |
| WeeklyScoring.ResolveWeeklyByMargin | api/endpoints/scoring/scoringModel.py:316-324 | when head-to-head does not separate the group, a group tied on biggest margin is left as it stands, and otherwise ordered by biggest margin, highest first |
| WeeklyScoring.Waterfall | api/endpoints/scoring/scoringModel.py:228-234 | one scored row per member of the final order |
| WeeklyScoring.ComputeWeeklyScores | api/endpoints/scoring/scoringModel.py:179-266 | an error exactly when the week is missing or the league has no members (a missing week reported first); otherwise one row per member |
| WeeklyScoring.OrderIsPermutation | api/endpoints/scoring/scoringModel.py:216-226 | the final order is a permutation of the entries whose differentials never increase downwards, so the tiebreakers never move a member across a different differential |
| WeeklyScoring.WaterfallTotal | api/endpoints/scoring/scoringModel.py:228-234 | the waterfall points of `N` members add up to `N(N+1)/2` |
| WeeklyScoring.WaterfallShift | api/endpoints/scoring/scoringModel.py:230-234 | the points do not depend on the ranks written beside them |
| WeeklyScoring.WaterfallOrdered | api/endpoints/scoring/scoringModel.py:228-234 | down an order of non-increasing differentials, rank 1 is at the top, points fall by one from `N` to 1 and total `N(N+1)/2`, so a strictly better differential earns strictly more points |
| WeeklyScoring.Entries | api/endpoints/scoring/scoringModel.py:199-214 | one entry per member, in member order, carrying the member's id, team name and point differential for the week |
| WeeklyScoring.ReorderedEntries | api/endpoints/scoring/scoringModel.py:216-226 | any reordering of the entries still lists every member, each with their own differential |
| WeeklyScoring.WeeklyScoresMembers | api/endpoints/scoring/scoringModel.py:199-266 | the written rows list every member under their own team name, each with their own point differential |
| WeeklyScoring.WaterfallMembers | api/endpoints/scoring/scoringModel.py:228-234 | the waterfall over any reordering of the entries lists every member with their own differential |
| WeeklyScoring.WeeklyScoresRanked | api/endpoints/scoring/scoringModel.py:216-234 | the written table never increases in differential downwards, rank 1 is at the top, points fall by one per place from `N` to 1 totalling `N(N+1)/2`, so a strictly better differential always earns strictly more points |
| Ties.RunEnd | api/endpoints/scoring/scoringModel.py:286-292 | the inner scan stops after the run of scores equal to the one at `i`: every entry in between shares that score, and the next one, if any, differs |
| Ties.ReplacementPermutes | api/endpoints/scoring/scoringModel.py:294-299 | with a resolver that only reorders, a run is replaced by a permutation of itself |
| Ties.ReplacementScores | api/endpoints/scoring/scoringModel.py:294-299 | every entry of a replaced run still carries the run's score |
| Ties.WalkPermutes | api/endpoints/scoring/scoringModel.py:285-303 | with a reordering resolver, the walk from any position returns a permutation of the rest of the list |
| Ties.WalkKeepsScores | api/endpoints/scoring/scoringModel.py:285-303 | the walk keeps the score found at every position, so the order between tie groups is unchanged |
| Ties.WalkStaysInGroups | api/endpoints/scoring/scoringModel.py:285-303 | every prefix of the walk that ends where one run of equal scores gives way to the next holds the same entries as the input's prefix: no entry leaves its tie group |
| Ties.TiebreakersPermuteWithinGroups | api/endpoints/scoring/scoringModel.py:285-303 | the tiebreaker walk returns a permutation of the list, keeps the score at every position, and keeps the entries of every prefix ending at a group boundary |
| Postseason.PhaseIds | api/endpoints/scoring/scoringModel.py:576-594 | the selected phase ids are exactly those of the season's phases whose type is one of the given kinds |
| Postseason.EverOwned | api/endpoints/scoring/scoringModel.py:135-150 | a member's teams for season tiebreakers are exactly the teams of any of their slots, in any week |
| Postseason.MaxRound | api/endpoints/scoring/scoringModel.py:604-614 | `MAX(roundOrder)` over the member's postseason games: none exactly when there are no such games, otherwise the largest round among them |
| Postseason.Depth | api/endpoints/scoring/scoringModel.py:599-625 | a member's playoff depth is 0 without teams, at least every round their teams reached, and when not 0 a round one of their teams reached |
| Postseason.FinalRound | api/endpoints/scoring/scoringModel.py:679-684 | a phase's final round is none exactly when no game of the phase has a round, otherwise the largest round of its games |
| Postseason.FirstInRound | api/endpoints/scoring/scoringModel.py:674-686 | the first game of the phase in the given round, when there is one; none exactly when the phase has no game in that round |
| Postseason.FinalGame | api/endpoints/scoring/scoringModel.py:674-686 | the final of a phase is a game of that phase whose round is the phase's largest; there is none exactly when no game of the phase has a round |
| Postseason.Champions | api/endpoints/scoring/scoringModel.py:673-700 | a team is a segment champion exactly when it won the final of one of the segment phases |
| Postseason.OwnerOf | api/endpoints/scoring/scoringModel.py:1128-1133 | `team_to_member`: the team maps to one of the members who ever held it, the last such member in the list, and to nobody exactly when none of them held it |
| Postseason.ChampionCount | api/endpoints/scoring/scoringModel.py:1149-1184 | a member's count of segment titles is at most the number of segment phases, is 0 exactly when the member won no segment final, and is positive only for a member of the league |
| Postseason.GameShareOwners | api/endpoints/scoring/scoringModel.py:1302-1319 | together, distinct members receive a game's home margin once if the home team maps to one of them and its away margin once if the away team does |
| Postseason.TotalPdSplit | api/endpoints/scoring/scoringModel.py:1302-1319 | the members' segment margins over the games are the first game's share, if it is a segment game, plus the margins over the rest |
| Postseason.SegmentPdZeroSum | api/endpoints/scoring/scoringModel.py:1236-1321 | when every team of a segment game maps to a member, the members' segment margins add up to 0 |
| Postseason.NoGamesNoPd | api/endpoints/scoring/scoringModel.py:1278 | with no games every member's segment margin stays 0 |
| Bonus.TierWalk | api/endpoints/scoring/scoringModel.py:1072-1088 | the walk of a handler from a given index yields one award per remaining member of the order |
| Bonus.GroupAwards | api/endpoints/scoring/scoringModel.py:1083-1085 | every member of a tie group receives the group's points when they qualify and nothing otherwise |
| Bonus.CountBetterAtGroupStart | api/endpoints/scoring/scoringModel.py:1072-1088 | in an order ascending by rank, the first member of a tie group at index i has exactly i members ranked strictly better |
| Bonus.TierWalkFrom | api/endpoints/scoring/scoringModel.py:1072-1088 | the walk started at a group boundary with position i + 1 pays every member from there the award of their placing |
| Bonus.RunOfRank | api/endpoints/scoring/scoringModel.py:1074-1078 | the inner `while j` loop stops at the end of a run of equal value: every member inside shares the first member's value and the next one differs |
| Bonus.GroupDue | api/endpoints/scoring/scoringModel.py:1080-1085 | every member of a tie group whose first member has i members ranked better receives what the placing i + 1 is due |
| Bonus.TierWalkAwardsPlacing | api/endpoints/scoring/scoringModel.py:1072-1088 | each member of the order receives the award of their finishing position, one more than the number of members strictly ahead, so tied members share a position and the next group skips past the whole group; unqualified members receive nothing |
| Bonus.Credit | api/endpoints/scoring/scoringModel.py:1083-1085 | adding awards to the results keeps exactly the members already in it |
| Bonus.CreditDistinct | api/endpoints/scoring/scoringModel.py:1083-1085 | for distinct members, each member of the group gains exactly their own award and every other member keeps their points |
| Bonus.Zeros | api/endpoints/scoring/scoringModel.py:1056 | the starting results hold exactly the league's members, each at 0 |
| Bonus.HandlerOrder | api/endpoints/scoring/scoringModel.py:1070 | the handler's order is a permutation of the members, ascending by the ranked value, with ties in ascending member id |
| Bonus.TierBonus | api/endpoints/scoring/scoringModel.py:1041-1090 | a handler's result has exactly the league's members as keys |
| Bonus.TierBonusAwardsPlacing | api/endpoints/scoring/scoringModel.py:1041-1090 | for distinct members, a handler gives each member the award configured for their finishing position, and only when the member qualifies |
| Bonus.Handler | api/endpoints/scoring/scoringModel.py:35-39 | exactly the three configured bonus codes have a handler, and a handler's contribution covers exactly the league's members |
| Bonus.Accumulate | api/endpoints/scoring/scoringModel.py:950-968 | the loop over configured bonuses keeps the members and adds to each what the bonuses together pay them |
| Bonus.ComputeBonusPoints | api/endpoints/scoring/scoringModel.py:930-970 | every member of the league, and nobody else, appears, with the sum of what every configured bonus pays them |
| Bonus.ComputeBonusPointsFor | api/endpoints/scoring/scoringModel.py:111-133 | with the league's SportSeason row missing, the bonuses raise exactly when a configured code has a handler; otherwise every member gains 0 |
| Bonus.GainUnhandled | api/endpoints/scoring/scoringModel.py:950-960 | configured codes without a handler pay nothing |
| Bonus.GainAppend | api/endpoints/scoring/scoringModel.py:950-968 | bonuses add up independently: the points for two configurations together are the sum of their points apart |
| Bonus.UnknownCodeIgnored | api/endpoints/scoring/scoringModel.py:952-955 | a bonus code without a handler changes nobody's points |
| Bonus.UnqualifiedPaidNothing | api/endpoints/scoring/scoringModel.py:1084 | a handler pays nothing to a member the handler's value does not qualify |
| Bonus.NoResultNoBonus | api/endpoints/scoring/scoringModel.py:1041-1378 | a member whose teams reached no primary round, won no segment title and have no segment margin ends with 0 bonus points whatever the configuration |
| SeasonStandings.PlayoffDepthTiebreak | api/endpoints/scoring/scoringModel.py:561-634 | there is no verdict exactly when there are no primary postseason phases or every tied member reached the same depth; a verdict is a reordering of the group in non-increasing order of playoff depth, members of equal depth by ascending id |
| SeasonStandings.SegmentChampionsTiebreak | api/endpoints/scoring/scoringModel.py:636-718 | there is no verdict exactly when there are no segment phases, no decided segment final, or every tied member holds as many champions; a verdict is a reordering of the group in non-increasing order of segment titles won by teams the member ever held, members with as many titles by ascending id |
| SeasonStandings.GroupTeams | api/endpoints/scoring/scoringModel.py:762-764 | a team is among the group's teams exactly when some tied member ever held it |
| SeasonStandings.Holders | api/endpoints/scoring/scoringModel.py:803-804 | the home (or away) members of a game are exactly the tied members who ever held that team |
| SeasonStandings.Settle | api/endpoints/scoring/scoringModel.py:808-810 | crediting a game's margin to the home member and debiting it from the away member leaves the sum of the totals unchanged |
| SeasonStandings.SettleGames | api/endpoints/scoring/scoringModel.py:796-810 | the loop over the phase games keeps the sum of the head-to-head totals |
| SeasonStandings.PhaseTotals | api/endpoints/scoring/scoringModel.py:759-810 | the tied members' head-to-head totals in the phases add up to zero |
| SeasonStandings.PhaseHeadToHead | api/endpoints/scoring/scoringModel.py:722-819 | there is no verdict exactly when there are no phases of the kinds, no tied member ever held a team, or all head-to-head totals are equal; a verdict is a reordering of the group by head-to-head total, highest first |
| SeasonStandings.HeadToHeadLeaderAhead | api/endpoints/scoring/scoringModel.py:812-819 | when the head-to-head tiebreaker decides, the member it puts first finished with a positive head-to-head margin |
| SeasonStandings.RankIn | api/endpoints/scoring/scoringModel.py:897 | a member has a rank in a week exactly when they have a row there, and it is the rank of their last row |
| SeasonStandings.FirstDeciding | api/endpoints/scoring/scoringModel.py:886-899 | the walk finds the first week from a given index in which two tied members have different ranks, with no deciding week before it, and finds none exactly when no week decides |
| SeasonStandings.LatestNonTiedWeek | api/endpoints/scoring/scoringModel.py:850-910 | there is no verdict exactly when no week separates the group; otherwise the verdict reorders the group in non-decreasing order of rank in a separating week with no later separating week, members of equal rank (or with no rank) by ascending id |
| SeasonStandings.LatestDecidingWeek | api/endpoints/scoring/scoringModel.py:864-873 | the first deciding week of the latest-first order is one of the league's weeks, and no week with a higher number decides |
| SeasonStandings.SortedByWeekRank | api/endpoints/scoring/scoringModel.py:901-907 | sorting the group by week rank, then id, puts the ranks in non-decreasing order, and equal ranks in ascending id order |
| SeasonStandings.ResolveSeason | api/endpoints/scoring/scoringModel.py:527-557 | whichever tiebreaker decides, the tied group comes back as a reordering of itself |
| SeasonStandings.Rows | api/endpoints/scoring/scoringModel.py:435-477 | there is one row per league member, holding the sum of the member's weekly points, their bonus points and the total of the two |
| SeasonStandings.ComputeSeasonStandings | api/endpoints/scoring/scoringModel.py:426-490 | the standings have one row per member of the league |
| SeasonStandings.SeasonStandingsOrdered | api/endpoints/scoring/scoringModel.py:479-525 | the standings are a reordering of the members' rows in non-increasing order of total points, so the tiebreakers only reorder members tied on the total |
| SeasonStandings.SeasonStandingsFor | api/endpoints/scoring/scoringModel.py:111-133 | with the league's SportSeason row missing, the standings raise exactly when a bonus with a handler is configured or two members tie on the total; otherwise they are the standings computed without reading the season |
| SeasonStandings.TieAdjacent | api/endpoints/scoring/scoringModel.py:509-523 | in an order by descending total, two members tie exactly when two neighbours do, so the tie-group walk finds a group exactly when there is a tie |
| SeasonStandings.TiePermutes | api/endpoints/scoring/scoringModel.py:479-485 | reordering the rows keeps a tie on the total |
| SeasonStandings.SeasonStandingsRows | api/endpoints/scoring/scoringModel.py:460-477 | every member's row is in the standings, and nothing else is |
| Trades.Holder | api/endpoints/transaction/transactionModel.py:229-245 | the ownership dict has no entry for a team exactly when nobody holds it in the week, and an entry names a member who holds it then |
| Trades.HolderIsOwner | api/endpoints/transaction/transactionModel.py:229-245 | when each team has at most one slot in the week, the dict names a member exactly when that member owns the team |
| Trades.PositionsAreTeams | api/endpoints/transaction/transactionModel.py:284-294 | for a list without repeated teams, the incoming count of a conference is the number of listed teams in it |
| Trades.IncomingPositive | api/endpoints/transaction/transactionModel.py:284-294 | a conference appears among the incoming conferences exactly when some listed team plays in it |
| Trades.ExcludeOwned | api/endpoints/transaction/transactionModel.py:256-279 | leaving out a team the member owns lowers their count in its conference by at least one |
| Trades.Close | api/endpoints/transaction/transactionModel.py:331-367 | closing keeps the table's length and only sets the dropped week of the member's current slots for the listed teams |
| Trades.Open | api/endpoints/transaction/transactionModel.py:369-401 | one new open slot per listed team, for the receiving member, from the given week |
| Trades.CountClose | api/endpoints/transaction/transactionModel.py:331-367 | closing a member's slots for some teams takes exactly those teams out of that member's conference counts for the week and changes nobody else's |
| Trades.CountOpen | api/endpoints/transaction/transactionModel.py:369-401 | the inserted slots count once per listed team for the receiving member, and not at all for anybody else |
| Trades.ApplyTradeMovesTeams | api/endpoints/transaction/transactionModel.py:320-401 | a team only the proposer gives up belongs to the receiver in the trade week and no longer to the proposer, and the other way round |
| Trades.ApplyTradeKeepsOtherTeams | api/endpoints/transaction/transactionModel.py:320-401 | a team outside the trade keeps every owner it had, in every week |
| Trades.ApplyTradeKeepsPast | api/endpoints/transaction/transactionModel.py:320-401 | every week before the trade week keeps its owners |
| Trades.ApplyTradeCounts | api/endpoints/transaction/transactionModel.py:320-401 | after the trade, the proposer's count in any conference is their count without the teams given up plus the teams received there |
| Trades.CheckHeld | api/endpoints/transaction/transactionModel.py:247-253 | the ownership loop passes exactly when every listed team's holder in the week is the member, and otherwise fails naming one of the listed teams |
| Trades.CheckFits | api/endpoints/transaction/transactionModel.py:308-314 | the limit loop passes exactly when the member fits the limit of every conference an incoming team plays in |
| Trades.CheckFitsAllConferences | api/endpoints/transaction/transactionModel.py:296-314 | checking every incoming team's conference is checking every conference with a positive incoming count |
| Trades.ValidateTrade | api/endpoints/transaction/transactionModel.py:218-314 | a valid trade has each side holding every team it gives in the week, and a proposer-over-limit rejection means the proposer does not fit |
| Trades.ValidateTradeAdmits | api/endpoints/transaction/transactionModel.py:218-314 | the validator accepts exactly the trades where each side holds what it gives and fits the limit of every conference in which it receives a team |
| Trades.ValidTradeKeepsLimits | api/endpoints/transaction/transactionModel.py:218-401 | once an accepted trade between two members is applied, each side's count in every conference it received a team in is within that conference's limit, and its other counts did not grow |
| Transactions.Section | api/endpoints/transaction/transactionModel.py:47 | a settings section that passes is a dict, and a missing or empty section reads as the empty dict |
| Transactions.MaxSwaps | api/endpoints/transaction/transactionModel.py:45-56 | the read succeeds exactly when the settings are a dict whose roster section is a dict or falsy; the limit is then absent for a missing `maxSwaps`, the integer for an integer, `int()` of the text for text, and absent for a list or dict |
| Transactions.SwapCount | api/endpoints/transaction/transactionModel.py:58-83 | the member's swap count is 0 exactly when they have no free-agent rows, and never exceeds the number of rows |
| Transactions.EnsureCanSwap | api/endpoints/transaction/transactionModel.py:85-97 | a member may swap exactly when the limit is absent or not positive, or their swap count is below it |
| Transactions.VetoSettings | api/endpoints/transaction/transactionModel.py:1278-1290 | the read succeeds exactly when the settings are a dict and the `transactions` and `tradeVeto` sections are dicts or falsy; vetoes are enabled exactly when `enabled` is present and truthy; the required count is the integer, `int()` of the text or 0 when that fails, and 0 when missing, a list or a dict |
| Transactions.KnownCount | api/endpoints/transaction/transactionModel.py:99-124 | the league's rows among the ids number as many as the distinct ids exactly when every id belongs to the league |
| Transactions.ValidateMembers | api/endpoints/transaction/transactionModel.py:99-124 | the membership check passes exactly when every listed id is a member of the league |
| Transactions.FindTx | api/endpoints/transaction/transactionModel.py:471-479 | a lookup by id fails exactly when no row has the id, and otherwise finds a row with it |
| Transactions.ProposeTrade | api/endpoints/transaction/transactionModel.py:407-455 | a proposal succeeds exactly when the week exists and is unlocked, both members are in the league, the trade deadline has not passed and the trade validates at that week; the new PROPOSED row is appended with the given sides and teams, and the slots and votes are untouched |
| Transactions.RespondToTrade | api/endpoints/transaction/transactionModel.py:456-536 | a response succeeds exactly when the action is ACCEPT or REJECT in any case, the trade exists, is PROPOSED and goes to the responder, and for an acceptance the deadline is open, the trade's week is in the league and unlocked and the swap is valid; a rejection only marks the row REJECTED, an acceptance only marks it PENDING_APPLY, and the responder is recorded |
| Transactions.CancelTrade | api/endpoints/transaction/transactionModel.py:648-688 | a cancellation succeeds exactly when the row is a PROPOSED trade of the requester, and then only that row becomes CANCELLED with the requester recorded |
| Transactions.ApplyTransaction | api/endpoints/transaction/transactionModel.py:538-646 | applying succeeds exactly when the row exists, the deadline is open, its week belongs to the league and it has a receiver; then only that row becomes COMPLETED and the votes are untouched |
| Transactions.ApplyTransactionMoves | api/endpoints/transaction/transactionModel.py:562-645 | an applied trade between two members moves each team only one side gave up to the other side for the trade week, and leaves every other team and every earlier week with its owners |
| Transactions.VoteOf | api/endpoints/transaction/transactionModel.py:1341-1367 | a member has no veto flag on a trade exactly when no vote row pairs them |
| Transactions.ToggleVoteOf | api/endpoints/transaction/transactionModel.py:1341-1367 | a vote turns the voter's flag over, a first vote vetoes, and every other pair's flag is unchanged |
| Transactions.ToggleCount | api/endpoints/transaction/transactionModel.py:1341-1380 | under the unique (transaction, member) constraint, a vote moves the trade's active veto count by exactly one, up when the voter now vetoes and down when they withdraw, and keeps the constraint |
| Transactions.VetoChecks | api/endpoints/transaction/transactionModel.py:1306-1339 | a veto passes the checks exactly when the row is a trade not yet resolved, the voter is a league member on neither side, and vetoes are enabled with a positive threshold, which is returned |
| Transactions.VetoTrade | api/endpoints/transaction/transactionModel.py:1291-1401 | a veto vote is accepted exactly when the trade exists and passes the veto checks, a missing trade being reported as such; an accepted vote toggles the voter's row, reports the new flag and the active veto count, and changes only the trade's status, to VETOED once the count reaches the threshold |
| Transactions.VetoToggles | api/endpoints/transaction/transactionModel.py:1341-1393 | a veto vote turns the voter's flag over, moves the veto count by one in that direction, keeps votes unique, and the trade is VETOED exactly when the count reaches the threshold or it already was |
| Transactions.ResolvedIsFinal | api/endpoints/transaction/transactionModel.py:456-1339 | a completed, rejected, cancelled or vetoed trade refuses every response, cancellation and veto |
| Transactions.OpenEntries | api/endpoints/transaction/transactionModel.py:1116-1259 | the listing holds exactly the open trades of the league, each with the member's view of it |
| Transactions.Split | api/endpoints/transaction/transactionModel.py:1261-1267 | an entry is incoming exactly when the member is a participant receiving it, outgoing exactly when they proposed it, and among the others exactly when they are not a participant |
| Transactions.SplitKeepsOrder | api/endpoints/transaction/transactionModel.py:1240-1267 | splitting keeps the newest-first order within each group |
| Transactions.OpenTradesFor | api/endpoints/transaction/transactionModel.py:1116-1277 | each group of the listing is newest first |
| Transactions.OpenTradesPartition | api/endpoints/transaction/transactionModel.py:1116-1277 | every open trade of the league appears under incoming when the member receives it, under outgoing when they proposed it and under others when they are on neither side, with its active veto count, and nothing else appears |
| Transactions.MoveWeek | api/endpoints/transaction/transactionModel.py:850-858 | a move lands in the week asked for when it is unlocked, otherwise in the earliest unlocked later week, and fails when the week is not the league's or no unlocked week follows |
| Transactions.SimulateDrop | api/endpoints/transaction/transactionModel.py:897-917 | the drop step passes exactly when there is no drop or the member owns the team in the week, and then yields the dropped team's conference with the member's count there less one |
| Transactions.SimulateAdd | api/endpoints/transaction/transactionModel.py:919-938 | the add step passes exactly when there is no add or the team is nobody's in the week and the member's count in its conference after the drop, plus one, is within the cap |
| Transactions.CheckMove | api/endpoints/transaction/transactionModel.py:868-938 | the roster checks pass exactly when every involved team has a conference, the member owns the dropped team and the added team is a free agent with room for it; the negative-count refusal never happens |
| Transactions.FreeAgencyAddDrop | api/endpoints/transaction/transactionModel.py:838-1022 | a move succeeds exactly when the week resolves, the member may swap, belongs to the league, the deadline is open and the roster checks pass; it closes the dropped slot, opens the added one, logs a free-agent row, and returns the member's roster for the move's week |
| Transactions.MoveOwnership | api/endpoints/transaction/transactionModel.py:940-981 | after an admitted move the added team is the member's in the move's week and the dropped team is not, and every other team and every earlier week keeps its owners |
| Transactions.MoveKeepsCap | api/endpoints/transaction/transactionModel.py:929-938 | after an admitted move the member's count in the added team's conference is within its cap, and no other conference's count grows |
| Transactions.FreeAgencySpendsSwap | api/endpoints/transaction/transactionModel.py:85-1003 | each move adds one to the member's swap count, so a positive limit is never overrun |
| Espn.TrimSlashes | api/endpoints/schedule/helpers/espn/espnClient.py:25 | the keyword loses the slashes at both ends: what is left has no slash at either end and sits inside the input between slashes |
| Espn.NewClient | api/endpoints/schedule/helpers/espn/espnClient.py:23-26 | the base is the input with its trailing slashes cut off and does not end in a slash; the keyword is the input with its slashes cut off both ends |
| Espn.BaseSlashInsensitive | api/endpoints/schedule/helpers/espn/espnClient.py:23-24 | extra slashes after the base make no difference: the client keeps the same base and the same keyword |
| Espn.KeywordSlashInsensitive | api/endpoints/schedule/helpers/espn/espnClient.py:23-25 | extra slashes around the keyword make no difference: the client is the same |
| Espn.NewClientIdempotent | api/endpoints/schedule/helpers/espn/espnClient.py:23-26 | building a client from a client's own base and keyword gives the same client |
| Espn.IsoRewriteIdempotent | api/endpoints/schedule/helpers/espn/espnClient.py:50-57 | the client's rewrite never leaves a trailing Z, and rewriting twice is rewriting once |
| Espn.RewritesAgree | api/endpoints/schedule/helpers/espn/espnClient.py:55-56 | the client's and the parser's rewrites agree exactly when the text does not end in Z or has no other Z |
| Espn.InsertUnique | api/endpoints/schedule/helpers/espn/espnClient.py:95 | adding a day to an increasing list keeps it increasing and adds exactly that day |
| Espn.SortedSet | api/endpoints/schedule/helpers/espn/espnClient.py:95 | the result is increasing and holds exactly the days of the input |
| Espn.IncreasingUnique | api/endpoints/schedule/helpers/espn/espnClient.py:95 | two increasing lists with the same days are equal, so the sorted set is the only one |
| Espn.ItemsAt | api/endpoints/schedule/helpers/espn/espnClient.py:88-91 | reading a list field fails exactly when the field's value, or the empty list in its place, cannot be iterated |
| Espn.ParseDays | api/endpoints/schedule/helpers/espn/espnClient.py:91-93 | the days are read exactly when every timestamp parses, one day per item in order, and the failure is a bad timestamp |
| Espn.CalendarDates | api/endpoints/schedule/helpers/espn/espnClient.py:84-95 | the calendar's days are read exactly when every item parses; they are increasing and are exactly the days of the items |
| Espn.CalendarDatesCanonical | api/endpoints/schedule/helpers/espn/espnClient.py:84-95 | any increasing list of exactly the calendar's days is the extracted list |
| Espn.ExplicitDay | api/endpoints/schedule/helpers/espn/espnClient.py:107-110 | an absent bound field gives no day, a present one gives the day of its timestamp, and fails exactly when that timestamp does not parse |
| Espn.CalendarSpan | api/endpoints/schedule/helpers/espn/espnClient.py:112-118 | a truthy calendar yields its first and last sorted days exactly when every item parses |
| Espn.FillBounds | api/endpoints/schedule/helpers/espn/espnClient.py:112-121 | the no-bounds error happens exactly when a bound is missing and the calendar is falsy; explicit bounds are kept and missing ones come from the calendar's first or last day |
| Espn.CalendarBounds | api/endpoints/schedule/helpers/espn/espnClient.py:97-123 | each bound is the explicit field's day when present and otherwise the calendar's first or last day; no bounds can be determined exactly when a field is missing and the calendar is falsy |
| Espn.FirstPresent | api/endpoints/schedule/helpers/espn/espnClient.py:189-192 | the scan yields the first listed key with a value other than None, and yields nothing exactly when all are None |
| Espn.ParseScore | api/endpoints/schedule/helpers/espn/espnClient.py:173-194 | None or an empty text scores 0, an int scores itself, a text scores a non-negative value and 0 unless it is digits after stripping, and lists, tuples and dates score 0 |
| Espn.ParseScoreRoundTrip | api/endpoints/schedule/helpers/espn/espnClient.py:180-183 | a printed score, with or without surrounding spaces, reads back as the score |
| Espn.ParseScoreOfObject | api/endpoints/schedule/helpers/espn/espnClient.py:186-192 | a score object reads as its first non-None field among value, displayValue and score, and as 0 without one |
| Espn.Head | api/endpoints/schedule/helpers/espn/espnClient.py:203 | indexing by 0 succeeds exactly on a non-empty list, tuple or text, giving its first item |
| Espn.Broadcast | api/endpoints/schedule/helpers/espn/espnClient.py:204-208 | a truthy broadcast is kept; otherwise the first name of the first broadcasts entry when it has names; otherwise the falsy broadcast itself |
| Espn.FirstSide | api/endpoints/schedule/helpers/espn/espnClient.py:211-212 | the scan finds the first competitor marked with the side, after passing only dicts of another side; it runs out exactly when every competitor is such a dict, and fails only at a competitor that is not a dict |
| Espn.ReadTeam | api/endpoints/schedule/helpers/espn/espnClient.py:216-221 | a competitor's score is its parsed score, and reading fails exactly when its team is truthy but not a dict |
| Espn.Competition | api/endpoints/schedule/helpers/espn/espnClient.py:200-203 | without truthy competitions there is no game; otherwise the competition is the first entry and a dict |
| Espn.Sides | api/endpoints/schedule/helpers/espn/espnClient.py:210-224 | the home and away information comes from the first competitors marked home and away; when either is missing there is no game |
| Espn.ExtractGame | api/endpoints/schedule/helpers/espn/espnClient.py:155-240 | an extracted game carries the event's id, its parsed date, the first competition's broadcast and the home and away sides' ids, names and scores; no competitions means no game |
| Espn.ExtractEventOf | api/endpoints/schedule/helpers/espn/espnClient.py:155-240 | extraction reads back every field of a well-formed event, whichever competitor comes first, because the side is decided by the homeAway marker |
| Espn.ParseGameDate | api/endpoints/schedule/helpers/espn/espnParser.py:18-29 | the missing-date error happens exactly when the date is missing or falsy; a parsed date is fromisoformat of the parser's rewrite of a text date |
| Espn.ParseGameDateAgrees | api/endpoints/schedule/helpers/espn/espnParser.py:26-27 | on a date with at most one Z, the parser reads the same timestamp as the client |
| Espn.ReadSide | api/endpoints/schedule/helpers/espn/espnParser.py:38-48 | a side reads as id "", the default name and no score when missing, and fails exactly when it is present but not a dict |
| Espn.MapGame | api/endpoints/schedule/helpers/espn/espnParser.py:31-68 | mapping succeeds exactly when the date parses and both sides read; the team is home exactly when the home id is its own, the opponent is the other side, and the scores are copied |
| Espn.MapGameEitherSide | api/endpoints/schedule/helpers/espn/espnParser.py:50-57 | for two distinct team ids each team sees the other as its opponent, and any other team is put on the away side facing the home team |
| Schedule.IntsOf | api/endpoints/schedule/scheduleModel.py:100 | the list converts exactly when every item converts, one id per item in order |
| Schedule.CommaIds | api/endpoints/schedule/scheduleModel.py:107 | the comma-separated pieces convert exactly when each piece is blank or an integer after stripping, giving at most one id per piece |
| Schedule.GroupIds | api/endpoints/schedule/scheduleModel.py:95-110 | None gives no groups, a list or tuple converts item by item, and numbers, bools and dates raise |
| Schedule.SportConfig | api/endpoints/schedule/scheduleModel.py:76-112 | the configuration is missing exactly when there is no sport row or its keyword is None; otherwise the keyword and base URL pass through and the groups are the normalised group ids |
| Schedule.GroupIdsCommaRoundTrip | api/endpoints/schedule/scheduleModel.py:101-107 | a non-empty list of ids written as comma-separated text reads back as the same ids |
| Schedule.GroupIdsOfText | api/endpoints/schedule/scheduleModel.py:101-107 | text that does not start with a bracket after stripping is read as its comma-separated pieces |
| Schedule.GroupIdsBlank | api/endpoints/schedule/scheduleModel.py:101-107 | text that is empty or whitespace only names no groups |
| Schedule.PlanWeeks | api/endpoints/schedule/scheduleModel.py:142-178 | one unlocked, unscored week per plan row, numbered as the plan and with consecutive ids |
| Schedule.EnsureWeeks | api/endpoints/schedule/scheduleModel.py:180-229 | a league with week rows keeps them; otherwise, given a sport season, it gets week 0 ending the day before the regular season and then consecutively numbered, unlocked, unscored weeks that all have a start day |
| Schedule.EnsureWeeksIdempotent | api/endpoints/schedule/scheduleModel.py:192-194 | ensuring the weeks a second time creates nothing |
| Schedule.EnsureWeeksFindable | api/endpoints/schedule/scheduleModel.py:180-229 | every created week is found by its number, which runs from 0 to the count less one, with the matching id |
| Schedule.GroupEvents | api/endpoints/schedule/scheduleModel.py:449-459 | the events are exactly those of the groups whose fetch succeeded; a failed fetch is skipped |
| Schedule.ExtractAll | api/endpoints/schedule/scheduleModel.py:459-460 | the events are read exactly when each is a dict, one extraction per event |
| Schedule.Dedupe | api/endpoints/schedule/scheduleModel.py:461-472 | the games kept are no more than those found, each has a truthy id not seen before, and no two share an id |
| Schedule.DedupeFound | api/endpoints/schedule/scheduleModel.py:461-472 | every kept game is one of the games found |
| Schedule.DedupeComplete | api/endpoints/schedule/scheduleModel.py:461-472 | every found game with a truthy id was seen before or has its id among the kept games |
| Schedule.IngestDay | api/endpoints/schedule/scheduleModel.py:417-488 | as intended, reading each fetched scoreboard's events: the day's ingest succeeds exactly when every fetched event is a dict and no truthy game id is unhashable (a list or dict id fails the duplicate test with `TypeError`); it counts as many events seen as games upserted, and the upserted games have truthy, hashable, distinct ids |
| Schedule.ExtractedSettable | api/endpoints/schedule/scheduleModel.py:460-472 | every extracted game can go through the duplicate test exactly when every dict event's extraction yields no game, a falsy id, or a hashable id |
| Schedule.DedupeHashable | api/endpoints/schedule/scheduleModel.py:466-472 | when every found game passes that test, each game the dedupe keeps has a hashable id |
| Schedule.IngestDayAsWritten | api/endpoints/schedule/scheduleModel.py:449-459 | as written, the ingest completes, with nothing seen or upserted, exactly when every group's fetch failed, since a fetched scoreboard is passed to a client method that does not exist |
| Schedule.IngestDayAsWrittenRaises | api/endpoints/schedule/scheduleModel.py:449-459 | one group whose fetch returns no events: the ingest as written raises, the intended one completes with nothing to upsert |
| Schedule.IngestComplete | api/endpoints/schedule/scheduleModel.py:449-480 | every game a successful group reported with a truthy id is upserted |
| Schedule.IngestSound | api/endpoints/schedule/scheduleModel.py:449-480 | every upserted game comes from an event of a successful group |
| Schedule.DayLoopCounts | api/endpoints/schedule/scheduleModel.py:546-557 | every day of the loop is processed, and no more days fail than are processed |
| Schedule.DayLoopAllIngested | api/endpoints/schedule/scheduleModel.py:546-557 | when every day's ingest succeeds, no day fails |
| Schedule.DayLoopAllFailed | api/endpoints/schedule/scheduleModel.py:546-557 | when every day's ingest raises, every day counts as failed and nothing is seen or upserted |
| Schedule.DayLoopSplit | api/endpoints/schedule/scheduleModel.py:546-557 | the loop over n + m days is the loop over the first n days followed by the loop over the other m |
| Schedule.BootstrapSeason | api/endpoints/schedule/scheduleModel.py:490-579 | a missing season is an error; a bootstrapped season is skipped unless forced; otherwise it fails exactly when the regular-season window is missing or reversed, and a run processes every day of the window, capped by the maximum, and marks the season bootstrapped |
| Schedule.BootstrapOnce | api/endpoints/schedule/scheduleModel.py:517-568 | a second unforced bootstrap after a successful one is skipped |
| Schedule.BootstrapTotalsAgree | api/endpoints/schedule/scheduleModel.py:537-557 | when each day is one ingest, the bootstrap's events-seen total equals its games-upserted total |
| Schedule.BestPhase | api/endpoints/schedule/scheduleModel.py:808-815 | no phase is chosen exactly when no phase of the season holds the instant; otherwise the chosen phase holds it and comes first, by priority, then latest start, then highest id, among those that do |
| Schedule.PhaseIdFor | api/endpoints/schedule/scheduleModel.py:798-827 | there is no phase id exactly when no phase of the season holds the instant |
| Schedule.PhaseChoiceUnique | api/endpoints/schedule/scheduleModel.py:808-815 | any matching phase that sorts no later than every matching phase is the one chosen |
| Cron.MarkAndLock | api/cronJobs/cronComputeWeeklyScores.py:34-45 | the two updates set scoringComplete on exactly the row with the week's id and isLocked on exactly the league's next week, clear neither flag anywhere, and change nothing else |
| Cron.DueRows | api/cronJobs/cronComputeWeeklyScores.py:21-32 | the due rows are exactly the weeks that ended before today and are not yet scored |
| Cron.WeeksToScore | api/cronJobs/cronComputeWeeklyScores.py:21-32 | the job scores exactly the due weeks, ordered by league and then week number |
| Cron.SucceedsTail | api/cronJobs/cronComputeWeeklyScores.py:69-90 | whether a later week succeeds is the same seen from the whole run or from the rest of the run after the first week, with that week's failure recorded |
| Cron.ScoreLoop | api/cronJobs/cronComputeWeeklyScores.py:69-99 | the scoring loop keeps the number of week rows |
| Cron.ScoreLoopEffect | api/cronJobs/cronComputeWeeklyScores.py:69-99 | after the loop a week is scored exactly when it was or a succeeding week has its id, and locked exactly when it was or a succeeding week of its league is the week before it; a failing week, or any week of a league that failed earlier in the run, marks and locks nothing, and nothing else changes |
| Cron.ApplyPending | api/cronJobs/cronComputeWeeklyScores.py:101-106 | applying a league's pending trades keeps its number of transaction rows and its votes |
| Cron.PendingIds | api/cronJobs/cronComputeWeeklyScores.py:47-51 | the listed ids are exactly the ids of the rows in PENDING_APPLY |
| Cron.ApplyPendingCompletes | api/cronJobs/cronComputeWeeklyScores.py:101-106 | when the trades apply, every row whose id was listed is COMPLETED, every other row is as it was, and row ids stay unique |
| Cron.CronRun | api/cronJobs/cronComputeWeeklyScores.py:54-106 | with nothing due the job changes nothing; otherwise the week table is the scoring loop's result over the due weeks whatever happens to the trades, every league is still there, and the run reports a refusal exactly when some league's pending trades do not all apply, keeping the trades applied before it |
| Cron.ApplyAll | api/cronJobs/cronComputeWeeklyScores.py:101-106 | applying every league's pending trades succeeds exactly when each league's do, and then holds each league's result |
| Cron.ApplyUntil | api/cronJobs/cronComputeWeeklyScores.py:105-106 | a league's pending trades are applied one by one until the first refusal: with none, the result is that of applying them all; otherwise the refusal is the one applying them all reports, and the transaction rows and votes keep their number |
| Cron.ApplyUntilPrefix | api/cronJobs/cronComputeWeeklyScores.py:105-106 | after a refusal the league holds exactly the trades applied before it: those of a prefix of the ids, the next id being the refused one |
| Cron.ApplyAllUntil | api/cronJobs/cronComputeWeeklyScores.py:101-106 | league by league until the first refusal: with none every league holds its applied trades; otherwise earlier leagues hold all theirs, the refusing league those before the refusal, and later leagues are untouched |
| Rebuild.Boundaries | api/scripts/rebuild_weeks_and_rescore.py:121-171 | as intended, with the league's time zone available: the plan exists exactly when the league's sport has a season row; it starts with week 0, which has no start date, and numbers every week by its position |
| Rebuild.BoundariesAsWritten | api/scripts/rebuild_weeks_and_rescore.py:126-137 | as written no plan is ever returned: a missing season row is the `ValueError` the script skips, and a present one reaches the time-zone lookup that `ScheduleModel` does not define |
| Rebuild.Upsert | api/scripts/rebuild_weeks_and_rescore.py:213-233 | after upserting one plan row the table holds a row of that league and number, every such row carries the plan's dates, and no other row is added or lost |
| Rebuild.UpsertAll | api/scripts/rebuild_weeks_and_rescore.py:213-233 | the upsert loop leaves rows of other leagues and other numbers as they were, and gives each plan number a row of the league with the plan's dates |
| Rebuild.UpsertStep | api/scripts/rebuild_weeks_and_rescore.py:213-233 | upserting the first plan row and then the rest upserts the whole plan |
| Rebuild.DropNumbers | api/scripts/rebuild_weeks_and_rescore.py:85-89 | a row survives the delete exactly when it belongs to another league or its number is not one of the extra numbers |
| Rebuild.ResetScoring | api/scripts/rebuild_weeks_and_rescore.py:91-95 | the reset keeps every row in place with the same id, number and dates, marks the league's rows unscored and leaves other leagues' rows unchanged |
| Rebuild.RebuildNumbers | api/scripts/rebuild_weeks_and_rescore.py:209-250 | after the rebuild the league has a week of number n exactly when n is a number of the plan |
| Rebuild.RebuildKeepsPlanned | api/scripts/rebuild_weeks_and_rescore.py:209-250 | every plan number has a row of the league after the rebuild |
| Rebuild.RebuildOnlyPlanned | api/scripts/rebuild_weeks_and_rescore.py:235-246 | no row of the league with a number outside the plan survives the rebuild |
| Rebuild.RebuildDates | api/scripts/rebuild_weeks_and_rescore.py:209-250 | each of the league's rows after the rebuild carries the plan's dates for its number and is unscored |
| Rebuild.RebuildOthers | api/scripts/rebuild_weeks_and_rescore.py:209-250 | the rows of every other league are unchanged by the rebuild |
| Rebuild.EndedRows | api/scripts/rebuild_weeks_and_rescore.py:97-105 | a row is listed exactly when it is the league's week after week 0 whose end date lies before today |
| Rebuild.EndedWeeks | api/scripts/rebuild_weeks_and_rescore.py:97-105 | the ended weeks are listed in week-number order, and they are exactly the league's weeks after week 0 that ended before today |
| Rebuild.OneLeagueStopsAtFailure | api/scripts/rebuild_weeks_and_rescore.py:258-278 | within one league a week is scored and marked exactly when it and every week before it score without failing, as the loop's break demands |
| Rebuild.RebuildLeague | api/scripts/rebuild_weeks_and_rescore.py:196-207 | a league without a season row is skipped and the table is left as it was |
| Rebuild.RebuildWeeksNumbers | api/scripts/rebuild_weeks_and_rescore.py:209-250 | the upserts, deletes and reset give the league exactly the plan's week numbers and keep every other league's numbers |
| Rebuild.RebuildLeagueNumbers | api/scripts/rebuild_weeks_and_rescore.py:196-283 | one league's intended turn changes the week numbers of that league only, and only with a season row, to exactly the plan's numbers |
| Rebuild.ScoreLoopKeepsNumbers | api/scripts/rebuild_weeks_and_rescore.py:258-278 | rescoring marks and locks weeks but keeps every league's week numbers |
| Rebuild.RebuildAll | api/scripts/rebuild_weeks_and_rescore.py:186-207 | with no leagues, or no league with a season row, the intended script changes nothing |
| Rebuild.RebuildAllNumbers | api/scripts/rebuild_weeks_and_rescore.py:179-283 | after the intended run each league of the id-ordered list that has a season row has exactly its plan's week numbers, and every other league keeps its numbers |
| Rebuild.RebuildAllAsWritten | api/scripts/rebuild_weeks_and_rescore.py:196-207 | as written the script leaves the week table unchanged, finishes exactly when no league has a season row, and otherwise ends at the first league that has one |
| Rebuild.RebuildAllAsWrittenRaises | api/scripts/rebuild_weeks_and_rescore.py:137 | one league with a season row and no weeks: as written the run ends at that league with no rows, while the intended run gives the league its week 0 |

## Left out

- Database access, transactions and commits: every table is a sequence of rows, and every query is a pure function over it.
- The live draft's turn engine: the code calls it from the draft worker, socket and endpoints, but its module is not part of this model.
- Roster validation over a whole week (`get_week_roster_violations` and `assert_week_rosters_valid` in `api/endpoints/transaction/transactionModel.py`): the model checks the caps only on the moves that change a roster.
- Printing, logging and the `scheduleBootstrappedAt` timestamp: they have no effect on the tables the model keeps.
- The clock, the JWT signature check, the ESPN HTTP client, `datetime.fromisoformat`, Python's `str()` of values other than text and integers, the scoring run the nightly job calls and the per-day ingest the bootstrap calls are all parameters.
- Time zones: the rebuild script's local-midnight and end-of-day instants become day numbers. An `endDate < now` comparison becomes a comparison of days.
- Floating-point arithmetic: bonus totals are exact `real`s, and `int(inf)` and `int(nan)` are not modelled.
- Unicode: `strip`, `isdigit` and `int(str)` know only ASCII whitespace and digits.
- Text.ParseInt: `int(str)` also accepts underscores between digits (`int("1_000")` is 1000); the model refuses them.
- Python's `1 == 1.0 == True` equality is not modelled. Values of different kinds are always different, also in the set that removes duplicate game ids.
- `ORDER BY` on display names or conference names: listings ordered only by name come back in table order.
- A `GROUP BY` or `LIMIT 1` without `ORDER BY` takes rows in table order.
- Equal `createdAt` values are ordered by id, which the database does not promise.
- A segment final whose winning team id is NULL makes `int(None)` raise in the season tiebreaker. The model counts such a final as having no champion.
- A team belongs to exactly one conference, and a conference has one cap row. Because of this, the check for inconsistent caps inside one conference cannot fail in the model.
- A `maxTeamsPerOwner` of NULL and a `maxSwaps` of float infinity are not modelled. Caps are integers, and a swap limit of 0 or less means unlimited.
- The swap count counts free-agent rows of every status, as the query does.
- Commissioner settings arrive already decoded from JSON. A malformed settings value is the `MalformedSettings` error.
- Bonus.Handler: each bonus's settings are taken to be a table of numbers, or a falsy value read as `{}`, so `float(config[tier_key])` is the configured number itself. Three cases are not modelled. A text tier value such as `"1.5"` is accepted by `float`. A value `float` refuses, such as `"x"`, `None` or a list, raises. A truthy settings value that is not a dict makes `tier_key in config` test list membership or a substring, or raise.
- Transactions.ApplyTransaction: a row with no receiving member is refused with `MissingReceiver`. The code would go on with a NULL member.
- The free-agent roster is returned as a set of team ids, without the query's order.
- The nightly job carries out the waiting moves league by league. The code reads the waiting rows of all leagues in one query, and the model keeps their order within each league.
- Rebuild.UpsertAll: inserted week ids are numbered from a given first id rather than drawn from the database sequence.
- Rebuild.RebuildLeague: its contract states only the skip of a league without a season row. The rebuilt table itself is described by RebuildNumbers, RebuildKeepsPlanned, RebuildOnlyPlanned, RebuildDates and RebuildOthers.
- Rebuild.RebuildAll: its own contract states only a run that skips every league. The effect on week numbers is RebuildAllNumbers; each league's turn is RebuildLeague.
- The rebuild script's deletes of weekly score rows are not modelled. The model keeps only the week table.
- Schedule: the SQL of `_insert_or_update_game`, and the upserts committed before an event that raises, are not modelled. A failed fetch for one group skips that group.
- The SportSeason lookup by sport and year is a parameter of the schedule functions. In scoring, whether the lookup finds a row is the `found` flag of Bonus.ComputeBonusPointsFor and SeasonStandings.SeasonStandingsFor; the tiebreakers themselves take the found season. A phase with a NULL priority or NULL dates is not modelled.
- ESPN JSON that is not a dict where a league or an event is read is excluded by the requires clauses.
- Auth.Intercept: its own contract states only the two refusal texts. The full decision is stated by Auth.InterceptDecision.

## Findings

| source | as written | input that shows it | evidently intended | confidence | as-written member | corrected member |
|---|---|---|---|---|---|---|
| api/endpoints/schedule/scheduleModel.py:459 | the scoreboard ingest loops over `client.iter_scoreboard_events(scoreboard_json)`, but `ESPNClient` (api/endpoints/schedule/helpers/espn/espnClient.py:138-143) defines only `iter_team_events`; the same call appears at lines 394 and 611 | a day with one group whose scoreboard fetch succeeds, even with no events: `AttributeError` ends the ingest | read the scoreboard's `events` list, as `iter_team_events` does for a team schedule | high; not executed | Schedule.IngestDayAsWritten, Schedule.IngestDayAsWrittenRaises | Schedule.IngestDay |
| api/scripts/rebuild_weeks_and_rescore.py:137 | `_compute_week_boundaries` calls `schedule_model._get_league_timezone(league_id)`, but `ScheduleModel` (api/endpoints/schedule/scheduleModel.py:11) defines no such method; the `AttributeError` is not caught by the `except ValueError` at line 205 | one league whose sport has a 2025 season row: the script ends at that league before its first write, and no league is rebuilt or rescored | look up the league's time zone and rebuild and rescore every league that has a season row | high; not executed | Rebuild.BoundariesAsWritten, Rebuild.RebuildAllAsWritten, Rebuild.RebuildAllAsWrittenRaises | Rebuild.Boundaries, Rebuild.RebuildLeague, Rebuild.RebuildAll, Rebuild.RebuildAllNumbers |
